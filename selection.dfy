/**
 The selection and search logic of the MultiSelect component, without its rendering.

 The component is controlled: `selectedOptions` (a list of option values) belongs to the
 caller, and every handler computes a proposed replacement list that it hands to the
 caller's `onChange` callback. Each handler is modelled here as a function returning
 that proposal.
 */
module Selection {
  import opened Wrappers
  import opened Seqs
  import Search

  /** A selectable `{ label, value }` pair; `caption` is the option's label. */
  datatype Item<T> = Item(caption: string, value: T)

  /** The values of `items`, in order (`map( options, ( { value } ) => value )`). */
  function Values<T>(items: seq<Item<T>>): (r: seq<T>)
    ensures |r| == |items|
    ensures forall i :: 0 <= i < |items| ==> r[i] == items[i].value
  {
    seq(|items|, i requires 0 <= i < |items| => items[i].value)
  }

  /** Some option carries the value `v`. */
  predicate HasValue<T(==)>(options: seq<Item<T>>, v: T) {
    exists i :: 0 <= i < |options| && options[i].value == v
  }

  /** Position of the first option whose value is `v`, or -1 when there is none. */
  function FindIndex<T(==)>(options: seq<Item<T>>, v: T): (k: int)
    ensures -1 <= k < |options|
    ensures k == -1 <==> !HasValue(options, v)
    ensures 0 <= k ==> options[k].value == v && forall j :: 0 <= j < k ==> options[j].value != v
  {
    if options == [] then -1
    else if options[0].value == v then 0
    else
      var k := FindIndex(options[1..], v);
      if k == -1 then
        assert forall i :: 1 <= i < |options| ==> options[i] == options[1..][i - 1];
        -1
      else k + 1
  }

  /** The first option whose value is `v` (`find( options, [ 'value', v ] )`). */
  function Find<T(==)>(options: seq<Item<T>>, v: T): (r: Option<Item<T>>)
    ensures r.None? <==> !HasValue(options, v)
    ensures r.Some? ==> r.value.value == v && r.value in options
    ensures r.Some? ==>
      exists k :: 0 <= k < |options| && options[k] == r.value && forall j :: 0 <= j < k ==> options[j].value != v
  {
    var k := FindIndex(options, v);
    if k == -1 then None else Some(options[k])
  }

  /**
   The ordered selection: for each value of `values`, in order, the first option carrying
   it; values no option carries are dropped. This is what the effect of the component stores
   in `selected`, and what the tag list is drawn from.
   */
  function Projection<T(==)>(options: seq<Item<T>>, values: seq<T>): (r: seq<Item<T>>)
    ensures |r| <= |values|
    ensures forall o :: o in r ==> o in options && o.value in values
  {
    if values == [] then [] else Resolve(options, values[0]) + Projection(options, values[1..])
  }

  /** What one selected value contributes to the ordered selection: its first option, or nothing. */
  function Resolve<T(==)>(options: seq<Item<T>>, v: T): (r: seq<Item<T>>)
    ensures |r| == if HasValue(options, v) then 1 else 0
    ensures forall o :: o in r ==> o in options && o.value == v
  {
    match Find(options, v)
    case Some(o) => [o]
    case None => []
  }

  /** The predicate the search filter applies to each option's label. */
  function LabelFilter<T>(searchText: string, fold: char -> char): Item<T> -> bool {
    (o: Item<T>) => Search.Matches(o.caption, searchText, fold)
  }

  /**
   The options shown under the search field: all of them while the search text is empty,
   otherwise those whose label contains the search text, case-insensitively and literally.
   */
  function FilteredOptions<T>(options: seq<Item<T>>, searchText: string, fold: char -> char): (r: seq<Item<T>>)
    ensures searchText == [] ==> r == options
    ensures searchText != [] ==>
      forall o :: o in r ==> o in options && Search.ContainsIgnoringCase(o.caption, searchText, fold)
  {
    if |searchText| == 0 then options else Keep(options, LabelFilter(searchText, fold))
  }

  /** Whether `v` is among the selected values (`includes( selectedOptions, v )`). */
  function IsOptionSelected<T(==)>(selectedOptions: seq<T>, v: T): (b: bool)
    ensures b <==> exists i :: 0 <= i < |selectedOptions| && selectedOptions[i] == v
  {
    v in selectedOptions
  }

  /** The component's "all selected" flag: the ordered selection is as long as the option list. */
  function AreAllOptionsSelected<T>(selected: seq<Item<T>>, options: seq<Item<T>>): (b: bool)
    ensures b ==> |selected| == |options|
    ensures |selected| == |options| ==> b
  {
    |selected| == |options|
  }

  /** The proposal of the remove button on tag `i`: the selected values without position `i`. */
  function RemoveTag<T>(selectedOptions: seq<T>, i: nat): (r: seq<T>)
    requires i < |selectedOptions|
    ensures |r| == |selectedOptions| - 1
    ensures forall j :: 0 <= j < |r| ==> r[j] == if j < i then selectedOptions[j] else selectedOptions[j + 1]
    ensures multiset(r) == multiset(selectedOptions) - multiset{selectedOptions[i]}
    ensures IsSubsequence(r, selectedOptions)
  {
    RemoveAtMultiset(selectedOptions, i);
    RemoveAtSubsequence(selectedOptions, i);
    RemoveAt(selectedOptions, i)
  }

  /**
   The proposal of the "select all" checkbox: every option value, in option order, unless
   all options count as selected, in which case nothing.
   */
  function ToggleSelectAll<T>(options: seq<Item<T>>, selected: seq<Item<T>>): (r: seq<T>)
    ensures !AreAllOptionsSelected(selected, options) ==> |r| == |options| && forall i :: 0 <= i < |r| ==> r[i] == options[i].value
    ensures AreAllOptionsSelected(selected, options) ==> r == []
  {
    if !AreAllOptionsSelected(selected, options) then Values(options) else []
  }

  /**
   The proposal of an option's checkbox: `v` appended when it is not selected, otherwise the
   selected values with the first occurrence of `v` removed.
   */
  function ToggleOption<T(==)>(selectedOptions: seq<T>, v: T): (r: seq<T>)
    ensures v !in selectedOptions ==> r == selectedOptions + [v]
    ensures v in selectedOptions ==>
      exists k :: 0 <= k < |selectedOptions| && selectedOptions[k] == v && v !in selectedOptions[..k]
        && r == RemoveAt(selectedOptions, k)
  {
    var k := IndexOf(selectedOptions, v);
    if -1 == k then selectedOptions + [v] else RemoveAt(selectedOptions, k)
  }

  /** The proposal of the "clear all" button: no value selected. */
  function ClearAll<T>(): (r: seq<T>)
    ensures |r| == 0
  {
    []
  }
}
