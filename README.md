# MultiSelect selection and search, modelled in Dafny

This project models the selection and search logic of the `MultiSelect` component of
wp-block-components (`src/multi-select/index.js`), without its rendering.

The component is a controlled form widget. The caller owns `options` (a list of
`{ label, value }` pairs) and `selectedOptions` (a list of values). The component keeps two
pieces of state of its own:

- `searchText`, the text typed in the search field;
- `selected`, the ordered selection. An effect rebuilds it whenever the props change by
  resolving each selected value, in selection order, to the first option carrying it. Values
  that no option carries are dropped.

The options shown are the ones whose label contains the search text, case-insensitively and
literally. Every handler computes a replacement list of values and passes it to `onChange`.
The component never changes `selectedOptions` itself.

Files and modules:

- `wrappers.dfy` (`Wrappers`): the `Option` datatype returned by a lookup.
- `seqs.dfy` (`Seqs`): removal by position (`removeAtIndex`, in range only), first position
  of an element (lodash `indexOf`), order-preserving filter (lodash `filter`), subsequence and
  duplicate-freedom, with their lemmas.
- `search.dfy` (`Search`): the label test of the search field. It asks whether the search text
  is a literal substring of the label after both are case-folded. Case folding is a
  per-character function `fold`, supplied by the caller; `AsciiCaseFold` is one instance.
- `selection.dfy` (`Selection`): the `Item` datatype (an option; its label is the field
  `caption`, because `label` is a Dafny keyword), the lookup `Find`, the ordered selection
  `Projection`, the search filter `FilteredOptions`, the two queries, and the four handlers.
  Each handler is a function returning the list the source passes to `onChange`.
- `selection_properties.dfy` (`SelectionProperties`): lemmas about the functions above.
- `component.dfy` (`Component`): the class `MultiSelect`, holding the props, `searchText` and
  `selected`. Its method `SyncSelection` is the effect's loop, proved to store
  `Projection(options, selectedOptions)`. Its function `Shown` is the memoised search filter
  over the current state. `DocumentedExample` plays through the usage example in the
  component's doc comment: the two documented posts, nothing selected, then 100 and 108 checked
  in turn, ending with the documented selection `[100, 108]`.

Tag positions and selected values. The tag list is drawn from `selected`
(`src/multi-select/index.js:193`), but the remove button applies the tag's index to
`selectedOptions` (line 149). A selected value that no option carries is called stale here.

- `RemoveTagAligned`: when no selected value is stale, the button removes exactly the
  clicked tag.
- `RemoveTagRemovesOwnTag`: in general, removing selected value `j` removes the tag of that
  value (if it has one). That tag sits at the position given by the number of values before `j`
  that resolve.
- `StaleValueShiftsTags`: a stale value before `j` makes that position smaller than `j`.
  `StaleValueRemovesEarlierTag` combines the two: the button on tag `j` removes value `j`,
  whose tag sits at an earlier position, and not the clicked tag. `StaleValueRemovesOtherTag` is a
  concrete case: with options A and B and the selected values `[x, A, B]` for a stale `x`,
  the button on B removes A.
- `RemoveTagAtStaleValue`: when the value at the clicked index is itself stale, the tag list
  does not change. The clicked tag stays, and the stale value is removed instead.

Two facts about the code that are easy to miss:

- Toggling an option twice restores the selected values whenever the value was not selected
  (`ToggleTwiceRestores`). On a duplicate-free selection, a selected value toggled twice moves
  to the end, so the values come back unchanged only if it was already last
  (`ToggleTwiceMovesToEnd`, `ToggleTwiceReorders`).
- What removing an out-of-range index does is decided by `removeAtIndex` from
  `@sixach/wp-block-utils`, whose source is not part of this model. Only in-range removal is
  modelled.

## Model

| member | source | states |
|---|---|---|
| `Selection.Find` | src/multi-select/index.js:120 | the lookup yields nothing exactly when no option carries the value; otherwise it yields the first option of the list carrying the value |
| `Selection.FindIndex` | src/multi-select/index.js:120 | the position found is -1 exactly when no option carries the value; otherwise it holds the value and no earlier option does (the first match) |
| `Selection.Projection` | src/multi-select/index.js:117-126 | the ordered selection is no longer than the selected values and holds only options of the list whose values are selected |
| `Component.MultiSelect.SyncSelection` | src/multi-select/index.js:117-126 | the effect's loop stores in `selected` exactly the projection of the current props, and only `selected` changes |
| `Component.MultiSelect.constructor` | src/multi-select/index.js:108-109 | a new component has empty search text, the given props, and a selection already synchronised with them |
| `Component.MultiSelect.Rerender` | src/multi-select/index.js:117-126 | after new props arrive (such as an `onChange` proposal fed back), the effect leaves `selected` synchronised with them |
| `Component.MultiSelect.SetSearchText` | src/multi-select/index.js:141-146 | the search text becomes the typed text, the listed options become the filter of the options by that text, and nothing else changes |
| `Component.MultiSelect.Shown` | src/multi-select/index.js:128-135 | the listed options are the component's options filtered by its search text: all of them while the text is empty, and otherwise only options of the list whose label contains the text, ignoring case |
| `Component.DocumentedExample` | src/multi-select/index.js:99-105 | over the documented posts, checking 100 and then 108 from an empty selection yields the documented `[100, 108]`, with the two posts as tags in that order |
| `SelectionProperties.ProjectionAppend` | src/multi-select/index.js:119-124 | appending values appends their options: the projection of `a + b` is the projection of `a` followed by that of `b` |
| `SelectionProperties.ProjectionValues` | src/multi-select/index.js:119-124 | the values behind the ordered selection are the selected values that some option carries, in selection order |
| `SelectionProperties.ProjectionExact` | src/multi-select/index.js:117-126 | the ordered selection follows selection order, holds each resolvable value as often as it is selected and no unresolvable one, and each entry is the first option with its value |
| `SelectionProperties.ProjectionTakesFirstMatch` | src/multi-select/index.js:120 | each entry of the ordered selection is the first option carrying its value |
| `SelectionProperties.ProjectionAligned` | src/multi-select/index.js:117-126 | when every selected value resolves, the selection is as long as the values and tag `i` is the first option carrying value `i` |
| `SelectionProperties.ProjectionLength` | src/multi-select/index.js:117-126 | when every selected value resolves, the ordered selection is exactly as long as the selected values |
| `SelectionProperties.RemoveTagAligned` | src/multi-select/index.js:148-150 | when every selected value resolves, removing tag `i` through the values removes exactly tag `i` from the ordered selection |
| `SelectionProperties.RemoveTagRemovesOwnTag` | src/multi-select/index.js:148-150 | removing a selected value that resolves removes its own tag (the first option carrying it), which sits at the position counted by the resolving values before it |
| `SelectionProperties.StaleValueShiftsTags` | src/multi-select/index.js:119-124 | a stale value before position `j` leaves fewer than `j` tags before the tag of value `j`, so tag positions and value positions no longer agree |
| `SelectionProperties.StaleValueRemovesEarlierTag` | src/multi-select/index.js:148-150 | with a stale value before position `j`, the button on tag `j` removes the tag of value `j`, which sits at an earlier position, and not the clicked tag |
| `SelectionProperties.StaleValueRemovesOtherTag` | src/multi-select/index.js:148-150 | with options A, B and the selected values `[x, A, B]` for a stale `x`, the tags are A and B, and the remove button on tag 1 (B) leaves only B |
| `SelectionProperties.RemoveTagAtStaleValue` | src/multi-select/index.js:148-150 | when the value at a shown tag's index resolves to no option, removing that tag leaves the tag list unchanged, so the clicked tag is not removed |
| `SelectionProperties.RemovingStaleValue` | src/multi-select/index.js:119-124 | removing a value that no option carries leaves the ordered selection as it was |
| `SelectionProperties.ProjectionSplit` | src/multi-select/index.js:119-124 | the ordered selection splits around any position, and removing that position removes exactly the options contributed by it |
| `Selection.FilteredOptions` | src/multi-select/index.js:128-135 | an empty search text shows the options unchanged; otherwise only options of the list whose label contains the text, ignoring case, are shown |
| `SelectionProperties.FilteredOptionsExact` | src/multi-select/index.js:133-134 | for a non-empty search text the shown options follow option order and keep every occurrence of each matching option and nothing else |
| `SelectionProperties.FilteredOptionsIdempotent` | src/multi-select/index.js:128-135 | filtering the shown options again with the same search text changes nothing |
| `SelectionProperties.SearchExample` | src/multi-select/index.js:128-135 | over the two documented posts, the search text "other" shows only "My other blog post" |
| `Search.Matches` | src/multi-select/index.js:133-134 | the label test holds exactly when the search text occurs in the label at some position, up to case folding |
| `Search.MatchesFrom` | src/multi-select/index.js:133-134 | the scan from position `i` holds exactly when the text occurs at `i` or later, up to case folding |
| `Search.LiteralOccurrenceMatches` | src/multi-select/index.js:133 | the pattern is escaped: a label containing the search text verbatim always matches, whatever characters it holds |
| `Search.MatchIgnoresCase` | src/multi-select/index.js:133 | the pattern is case-insensitive: labels that agree up to case folding get the same outcome |
| `Search.DocumentedLabels` | src/multi-select/index.js:101 | "other" and "OTHER" occur in "My other blog post", and "other" does not occur in "My blog post" |
| `Selection.IsOptionSelected` | src/multi-select/index.js:137 | an option counts as checked exactly when its value occurs among the selected values |
| `Selection.AreAllOptionsSelected` | src/multi-select/index.js:139 | the "all selected" flag holds exactly when the ordered selection is as long as the option list |
| `SelectionProperties.AllSelectedIffEveryOptionChosen` | src/multi-select/index.js:139 | with duplicate-free selected values and option values, the flag holds exactly when every option's value is selected |
| `SelectionProperties.DuplicateSelectionLooksComplete` | src/multi-select/index.js:139 | the flag compares lengths only: selecting the first of two options twice makes it hold although the second is unselected |
| `SelectionProperties.EmptyOptionsCountAsAllSelected` | src/multi-select/index.js:139 | an empty option list counts as fully selected whatever is selected, and "select all" then proposes nothing |
| `Selection.RemoveTag` | src/multi-select/index.js:148-150 | removing tag `i` proposes the selected values without position `i`: the values before it in place, those after it shifted down by one, so exactly one occurrence of value `i` goes and the rest keep their order |
| `Seqs.RemoveAt` | src/multi-select/index.js:149 | removal by position keeps the elements before `i` in place and shifts those after it down by one |
| `Seqs.RemoveAtSubsequence` | src/multi-select/index.js:149 | removal by position keeps the remaining elements in their original order |
| `Seqs.RemoveAtMultiset` | src/multi-select/index.js:149 | removal by position drops exactly one occurrence of the element at `i` |
| `Selection.ToggleSelectAll` | src/multi-select/index.js:152-158 | unless all options count as selected, "select all" proposes every option value in option order; otherwise it proposes nothing |
| `Selection.Values` | src/multi-select/index.js:154 | the proposed values are the options' values, one per option, in option order |
| `SelectionProperties.SelectAllCycle` | src/multi-select/index.js:139-158 | for any option list, from nothing selected "select all" proposes all values; once those are fed back all options count as selected and it proposes nothing |
| `Selection.ToggleOption` | src/multi-select/index.js:160-167 | an unselected value is appended; a selected value has its first occurrence removed, with the other values kept in order |
| `Seqs.IndexOf` | src/multi-select/index.js:161-162 | the position is -1 exactly when the value is absent; otherwise it holds the value and no earlier position does |
| `SelectionProperties.ToggleTwiceRestores` | src/multi-select/index.js:160-167 | checking an unselected option and unchecking it again restores the selected values exactly |
| `SelectionProperties.ToggleTwiceMovesToEnd` | src/multi-select/index.js:160-167 | unchecking a selected option and checking it again moves its value to the end of a duplicate-free selection |
| `SelectionProperties.ToggleTwiceReorders` | src/multi-select/index.js:160-167 | toggling 1 twice turns `[1, 2]` into `[2, 1]` |
| `SelectionProperties.ToggleFlipsMembership` | src/multi-select/index.js:137-167 | on a duplicate-free selection an option's checkbox flips only that option's checked state and keeps the selection duplicate-free |
| `Selection.ClearAll` | src/multi-select/index.js:169-171 | "clear all" always proposes the empty list |
| `SelectionProperties.ClearAllEmptiesSelection` | src/multi-select/index.js:169-171 | the cleared selection shows no tags, and counts as all selected only when there are no options |

## Left out

- Debounce: the 500 ms `useDebounce` around the search field (lines 141-146) is timer behaviour. `SetSearchText` assigns the text at once.
- React mechanics: `useState`, `useEffect` and `useMemo` become explicit state and method calls (`Rerender` runs the effect after a prop change). The JSX, the "no results" notice, when the select-all box and the clear button are shown, `classnames` and the ARIA props (lines 173-217) are rendering only.
- Messages and validation: the `merge` of `messages` (line 111), the translations (`__`, `sprintf`), `propTypes` and `defaultProps` are library glue.
- Regular-expression engine and Unicode case folding: `new RegExp( escapeRegExp( searchText ), 'i' )` becomes a literal substring test over a caller-supplied per-character `fold`. The model does not fix which fold the browser uses.
- Labels that are not strings: `invoke( label, 'match', pattern )` yields nothing for them. In the model every label is a string.
- Equality: lodash `find` with `[ 'value', v ]` compares deeply, while `indexOf` and `includes` compare with SameValueZero. The model uses one equality on the value type throughout.
- `removeAtIndex` out of range: its source (`@sixach/wp-block-utils`) is not part of this model. `RemoveAt` and `RemoveTag` take only in-range indices.
- `ToggleOption` appends `[v]`: `concat( selectedOptions, value )` (line 163) would flatten an array-valued option value by one level. The model treats every value as a single element.
- Strings: JavaScript strings are sequences of UTF-16 code units, while a Dafny `char` is a Unicode scalar value. Label and search-text lengths, and lone surrogates, differ between the two.
- Reordering by drag and drop: `SelectedTagList` receives `onChange` (line 193). Its source is not part of this model.
- `src/tag/index.js`, `src/sortable/stories/list.js`, `src/index.js` and `src/visibility-toolbar/constants.js`: a render wrapper, demo code, re-exports and a colour table, with no selection or search logic.
