/**
 The state of one MultiSelect instance: the props it was last rendered with (`options`,
 `selectedOptions`), its search text, and the ordered selection `selected` that its effect
 rebuilds whenever the props change.
 */
module Component {
  import opened Wrappers
  import opened Selection
  import SelectionProperties
  import Search

  class MultiSelect<T(==)> {
    var options: seq<Item<T>>
    var selectedOptions: seq<T>
    var searchText: string
    var selected: seq<Item<T>>
    /** The per-character case folding the search uses. */
    const fold: char -> char

    /** The effect has run since the props last changed: `selected` is the projection of the props. */
    ghost predicate Valid()
      reads this
    {
      selected == Projection(options, selectedOptions)
    }

    /** Mounting: empty search text, and the effect has run once on the initial props. */
    constructor (options: seq<Item<T>>, selectedOptions: seq<T>, fold: char -> char)
      ensures Valid()
      ensures this.options == options && this.selectedOptions == selectedOptions && this.fold == fold
      ensures searchText == []
    {
      this.options := options;
      this.selectedOptions := selectedOptions;
      this.fold := fold;
      searchText := [];
      selected := [];
      new;
      SyncSelection();
    }

    /**
     The effect: walk the selected values in order, look each one up among the options,
     append the option found, and store the result in `selected`.
     */
    method SyncSelection()
      modifies this`selected
      ensures selected == Projection(options, selectedOptions)
      ensures |selected| <= |selectedOptions|
    {
      var values, choices := selectedOptions, options;
      var updatedSelection := [];
      for i := 0 to |values|
        invariant updatedSelection == Projection(choices, values[..i])
      {
        var option := Find(choices, values[i]);
        SelectionProperties.ProjectionStep(choices, values, i);
        if option.Some? {
          updatedSelection := updatedSelection + [option.value];
        }
      }
      assert values[..|values|] == values;
      selected := updatedSelection;
    }

    /** A re-render with new props (the caller feeding back an `onChange` proposal), followed by the effect. */
    method Rerender(options: seq<Item<T>>, selectedOptions: seq<T>)
      modifies this`options, this`selectedOptions, this`selected
      ensures Valid()
      ensures this.options == options && this.selectedOptions == selectedOptions
    {
      this.options := options;
      this.selectedOptions := selectedOptions;
      SyncSelection();
    }

    /** The options listed under the search field (the memoised search filter). */
    function Shown(): (r: seq<Item<T>>)
      reads this
      ensures searchText == [] ==> r == options
      ensures forall o :: o in r ==> o in options
      ensures searchText != [] ==> forall o :: o in r ==> Search.ContainsIgnoringCase(o.caption, searchText, fold)
    {
      FilteredOptions(options, searchText, fold)
    }

    /** Typing in the search field, with the debounce taken as elapsed. */
    method SetSearchText(text: string)
      modifies this`searchText
      ensures searchText == text
      ensures Shown() == FilteredOptions(options, text, fold)
    {
      searchText := text;
    }
  }

  /**
   The usage example of the component's documentation, played through: the two documented
   posts, nothing selected, then post 100 and post 108 checked in turn, each proposal fed back
   to the component. The selected values end as the documented `[100, 108]`, and the tags as
   the two posts in that order.
   */
  method DocumentedExample() returns (values: seq<int>, tags: seq<Item<int>>)
    ensures values == [100, 108]
    ensures tags == [Item("My blog post", 100), Item("My other blog post", 108)]
  {
    var post100 := Item("My blog post", 100);
    var post108 := Item("My other blog post", 108);
    var options := [post100, post108];
    var component := new MultiSelect(options, [], Search.AsciiCaseFold);
    assert component.selected == [];

    var proposal := ToggleOption(component.selectedOptions, 100);
    assert proposal == [100];
    component.Rerender(component.options, proposal);
    assert Find(options, 100) == Some(post100) by {
      assert FindIndex(options, 100) == 0;
    }
    assert Projection(options, [100]) == [post100];
    assert component.selected == [post100];

    proposal := ToggleOption(component.selectedOptions, 108);
    assert proposal == [100, 108];
    component.Rerender(component.options, proposal);
    assert Find(options, 108) == Some(post108) by {
      assert options[1..] == [post108];
      assert FindIndex(options, 108) == 1;
    }
    assert Projection(options, [108]) == [post108];
    SelectionProperties.ProjectionAppend(options, [100], [108]);
    assert proposal == [100] + [108];

    values, tags := component.selectedOptions, component.selected;
  }
}
