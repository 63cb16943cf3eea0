/**
 Properties of the MultiSelect selection logic: what the ordered selection contains, when the
 tag positions line up with the selected values, what the search filter keeps, and how the
 proposals of the handlers behave when the caller feeds them back.
 */
module SelectionProperties {
  import opened Wrappers
  import opened Seqs
  import opened Selection
  import Search

  /** The values that some option carries. */
  function Resolvable<T(==)>(options: seq<Item<T>>): T -> bool {
    (v: T) => HasValue(options, v)
  }

  /** The effect appends to the selection one value at a time, so the projection distributes over concatenation. */
  lemma {:induction false} ProjectionAppend<T>(options: seq<Item<T>>, a: seq<T>, b: seq<T>)
    ensures Projection(options, a + b) == Projection(options, a) + Projection(options, b)
    decreases |a|
  {
    if a == [] {
      assert a + b == b;
    } else {
      assert (a + b)[1..] == a[1..] + b;
      ProjectionAppend(options, a[1..], b);
    }
  }

  /** One step of the effect's loop: the selection of the first `i + 1` values extends that of the first `i`. */
  lemma ProjectionStep<T>(options: seq<Item<T>>, values: seq<T>, i: nat)
    requires i < |values|
    ensures Projection(options, values[..i + 1]) == Projection(options, values[..i]) + Resolve(options, values[i])
  {
    assert values[..i + 1] == values[..i] + [values[i]];
    ProjectionAppend(options, values[..i], [values[i]]);
    assert [values[i]][1..] == [];
  }

  /** Values distribute over concatenation. */
  lemma ValuesAppend<T>(a: seq<Item<T>>, b: seq<Item<T>>)
    ensures Values(a + b) == Values(a) + Values(b)
  {
  }

  /** The values behind the ordered selection are the selected values that resolve, in selection order. */
  lemma {:induction false} ProjectionValues<T>(options: seq<Item<T>>, values: seq<T>)
    ensures Values(Projection(options, values)) == Keep(values, Resolvable(options))
    decreases |values|
  {
    if values != [] {
      ProjectionValues(options, values[1..]);
      var r := Resolve(options, values[0]);
      ValuesAppend(r, Projection(options, values[1..]));
      assert Values(r) == if HasValue(options, values[0]) then [values[0]] else [] by {
        if HasValue(options, values[0]) {
          assert r[0] in r;
        }
      }
    }
  }

  /** Every entry of the ordered selection is the first option carrying its value. */
  lemma {:induction false} ProjectionTakesFirstMatch<T>(options: seq<Item<T>>, values: seq<T>)
    ensures forall i :: 0 <= i < |Projection(options, values)| ==>
      Find(options, Projection(options, values)[i].value) == Some(Projection(options, values)[i])
    decreases |values|
  {
    if values != [] {
      ProjectionTakesFirstMatch(options, values[1..]);
    }
  }

  /**
   The ordered selection holds, in the order of `values`, one entry for each value that some
   option carries (the first such option), as many times as that value occurs, and nothing
   for the values no option carries.
   */
  lemma ProjectionExact<T>(options: seq<Item<T>>, values: seq<T>)
    ensures IsSubsequence(Values(Projection(options, values)), values)
    ensures forall v :: multiset(Values(Projection(options, values)))[v] ==
                        (if HasValue(options, v) then multiset(values)[v] else 0)
    ensures forall i :: 0 <= i < |Projection(options, values)| ==>
      Find(options, Projection(options, values)[i].value) == Some(Projection(options, values)[i])
  {
    ProjectionValues(options, values);
    KeepSubsequence(values, Resolvable(options));
    KeepMultiset(values, Resolvable(options));
    ProjectionTakesFirstMatch(options, values);
  }

  /** When every selected value resolves, tag `i` is the option of selected value `i`. */
  lemma ProjectionAligned<T>(options: seq<Item<T>>, values: seq<T>)
    requires forall i :: 0 <= i < |values| ==> HasValue(options, values[i])
    ensures |Projection(options, values)| == |values|
    ensures forall i :: 0 <= i < |values| ==>
      Projection(options, values)[i].value == values[i] && Find(options, values[i]) == Some(Projection(options, values)[i])
  {
    var p := Projection(options, values);
    ProjectionLength(options, values);
    ProjectionTakesFirstMatch(options, values);
    forall i | 0 <= i < |values| ensures p[i].value == values[i] {
      ProjectionEntry(options, values, i);
    }
  }

  /** When every selected value resolves, entry `i` of the ordered selection carries value `i`. */
  lemma {:induction false} ProjectionEntry<T>(options: seq<Item<T>>, values: seq<T>, i: nat)
    requires forall k :: 0 <= k < |values| ==> HasValue(options, values[k])
    requires i < |values|
    ensures |Projection(options, values)| == |values|
    ensures Projection(options, values)[i].value == values[i]
    decreases i
  {
    ProjectionLength(options, values);
    var r := Resolve(options, values[0]);
    assert |r| == 1;
    if i == 0 {
      assert r[0] in r;
    } else {
      assert forall k :: 1 <= k < |values| ==> values[1..][k - 1] == values[k];
      ProjectionEntry(options, values[1..], i - 1);
    }
  }

  /**
   When every selected value resolves, removing tag `i` through the selected values removes
   exactly tag `i` from the ordered selection.
   */
  lemma RemoveTagAligned<T>(options: seq<Item<T>>, selectedOptions: seq<T>, i: nat)
    requires forall k :: 0 <= k < |selectedOptions| ==> HasValue(options, selectedOptions[k])
    requires i < |selectedOptions|
    ensures |Projection(options, selectedOptions)| == |selectedOptions|
    ensures Projection(options, RemoveTag(selectedOptions, i)) == RemoveAt(Projection(options, selectedOptions), i)
  {
    var s := selectedOptions;
    ProjectionLength(options, s);
    PrefixResolves(options, s, i);
    RemoveTagRemovesOwnTag(options, s, i);
  }

  /**
   Removing a selected value that resolves removes its own tag, which sits at the position
   given by the number of values before it that resolve; that position is the index the
   button used only when none of those values is stale.
   */
  lemma RemoveTagRemovesOwnTag<T>(options: seq<Item<T>>, selectedOptions: seq<T>, j: nat)
    requires j < |selectedOptions|
    requires HasValue(options, selectedOptions[j])
    ensures |Projection(options, selectedOptions[..j])| < |Projection(options, selectedOptions)|
    ensures Projection(options, selectedOptions)[|Projection(options, selectedOptions[..j])|]
         == Find(options, selectedOptions[j]).value
    ensures Projection(options, RemoveTag(selectedOptions, j))
         == RemoveAt(Projection(options, selectedOptions), |Projection(options, selectedOptions[..j])|)
  {
    var s := selectedOptions;
    ProjectionSplit(options, s, j);
    RemoveMiddle(Projection(options, s[..j]), Resolve(options, s[j]), Projection(options, s[j + 1..]));
  }

  /**
   A stale value before position `j` shifts the tags: fewer than `j` tags come before the tag
   of value `j`.
   */
  lemma StaleValueShiftsTags<T>(options: seq<Item<T>>, s: seq<T>, k: nat, j: nat)
    requires k < j <= |s|
    requires !HasValue(options, s[k])
    ensures |Projection(options, s[..j])| < j
  {
    var t := s[..j];
    assert t[k] == s[k];
    ProjectionSplit(options, t, k);
    assert t[..k] == s[..k];
    assert |Projection(options, t[k + 1..])| <= |t[k + 1..]|;
  }

  /**
   The remove button on tag `j`, with a stale value before position `j`, does not remove the
   clicked tag: it removes the tag of value `j`, which sits at an earlier position `m < j`.
   */
  lemma StaleValueRemovesEarlierTag<T>(options: seq<Item<T>>, s: seq<T>, k: nat, j: nat)
    requires k < j < |s|
    requires !HasValue(options, s[k])
    requires HasValue(options, s[j])
    ensures exists m ::
      (0 <= m < j && m < |Projection(options, s)|
       && Projection(options, s)[m] == Find(options, s[j]).value
       && Projection(options, RemoveTag(s, j)) == RemoveAt(Projection(options, s), m))
  {
    StaleValueShiftsTags(options, s, k, j);
    RemoveTagRemovesOwnTag(options, s, j);
    var m := |Projection(options, s[..j])|;
    assert 0 <= m < j && m < |Projection(options, s)|;
  }

  /**
   The shift in a concrete form: with two options A and B of distinct values and a stale value
   `x` selected before them, the tags are A and B, but the remove button on tag 1 (B) removes
   value 1, the value of A, and only B is left.
   */
  lemma StaleValueRemovesOtherTag<T>(a: Item<T>, b: Item<T>, x: T)
    requires a.value != b.value && x != a.value && x != b.value
    ensures Projection([a, b], [x, a.value, b.value]) == [a, b]
    ensures RemoveTag([x, a.value, b.value], 1) == [x, b.value]
    ensures Projection([a, b], [x, b.value]) == [b]
  {
    TagsWithStaleFirst(a, b, x);
    RemoveSecondOfThree(x, a.value, b.value);
  }

  lemma RemoveSecondOfThree<X>(x: X, y: X, z: X)
    ensures RemoveTag([x, y, z], 1) == [x, z]
  {
    var r := RemoveTag([x, y, z], 1);
    assert |r| == 2 && r[0] == x && r[1] == z;
  }

  lemma TagsWithStaleFirst<T>(a: Item<T>, b: Item<T>, x: T)
    requires a.value != b.value && x != a.value && x != b.value
    ensures Projection([a, b], [x, a.value, b.value]) == [a, b]
    ensures Projection([a, b], [x, b.value]) == [b]
  {
    var options := [a, b];
    var tail := [b.value];
    TwoOptionsResolve(a, b, x);
    ProjectionCons(options, b.value, []);
    ProjectionCons(options, x, tail);
    ProjectionCons(options, a.value, tail);
    ProjectionCons(options, x, [a.value] + tail);
    assert [x] + tail == [x, b.value];
    assert [x] + ([a.value] + tail) == [x, a.value, b.value];
  }

  lemma TwoOptionsResolve<T>(a: Item<T>, b: Item<T>, x: T)
    requires a.value != b.value && x != a.value && x != b.value
    ensures Resolve([a, b], x) == []
    ensures Resolve([a, b], a.value) == [a]
    ensures Resolve([a, b], b.value) == [b]
  {
    var options := [a, b];
    assert !HasValue(options, x);
    assert FindIndex(options, a.value) == 0;
    assert options[1..] == [b];
    assert FindIndex(options, b.value) == 1;
  }

  lemma ProjectionCons<T>(options: seq<Item<T>>, v: T, t: seq<T>)
    ensures Projection(options, [v] + t) == Resolve(options, v) + Projection(options, t)
  {
    assert ([v] + t)[1..] == t;
  }

  lemma PrefixResolves<T>(options: seq<Item<T>>, s: seq<T>, i: nat)
    requires forall k :: 0 <= k < |s| ==> HasValue(options, s[k])
    requires i <= |s|
    ensures |Projection(options, s[..i])| == i
  {
    assert forall k :: 0 <= k < i ==> s[..i][k] == s[k];
    ProjectionLength(options, s[..i]);
  }

  lemma RemoveMiddle<X>(a: seq<X>, b: seq<X>, c: seq<X>)
    requires |b| == 1
    ensures RemoveAt(a + b + c, |a|) == a + c
  {
    var p := a + b + c;
    assert p[..|a|] == a && p[|a| + 1..] == c;
  }

  /** The ordered selection around position `i`: before it, at it, and after it. */
  lemma ProjectionSplit<T>(options: seq<Item<T>>, s: seq<T>, i: nat)
    requires i < |s|
    ensures Projection(options, s)
         == Projection(options, s[..i]) + Resolve(options, s[i]) + Projection(options, s[i + 1..])
    ensures Projection(options, RemoveTag(s, i)) == Projection(options, s[..i]) + Projection(options, s[i + 1..])
  {
    assert s == s[..i] + ([s[i]] + s[i + 1..]);
    ProjectionAppend(options, s[..i], [s[i]] + s[i + 1..]);
    assert Projection(options, [s[i]] + s[i + 1..]) == Resolve(options, s[i]) + Projection(options, s[i + 1..]);
    ProjectionAppend(options, s[..i], s[i + 1..]);
  }

  /** When every value resolves, the ordered selection is exactly as long as the selected values. */
  lemma {:induction false} ProjectionLength<T>(options: seq<Item<T>>, values: seq<T>)
    requires forall i :: 0 <= i < |values| ==> HasValue(options, values[i])
    ensures |Projection(options, values)| == |values|
    decreases |values|
  {
    if values != [] {
      assert forall i :: 1 <= i < |values| ==> values[1..][i - 1] == values[i];
      ProjectionLength(options, values[1..]);
      assert Find(options, values[0]).Some?;
    }
  }

  /**
   When selected value `j` resolves to no option but a tag is shown at position `j`, the
   remove button on that tag proposes a selection whose tag list is unchanged: the tag the
   user clicked stays, and a stale value disappears instead.
   */
  lemma RemoveTagAtStaleValue<T>(options: seq<Item<T>>, selectedOptions: seq<T>, j: nat)
    requires j < |Projection(options, selectedOptions)|
    requires !HasValue(options, selectedOptions[j])
    ensures Projection(options, RemoveTag(selectedOptions, j)) == Projection(options, selectedOptions)
    ensures Projection(options, RemoveTag(selectedOptions, j)) != RemoveAt(Projection(options, selectedOptions), j)
  {
    RemovingStaleValue(options, selectedOptions, j);
    assert |RemoveAt(Projection(options, selectedOptions), j)| == |Projection(options, selectedOptions)| - 1;
  }

  /** Removing a value that no option carries leaves the ordered selection as it was. */
  lemma RemovingStaleValue<T>(options: seq<Item<T>>, s: seq<T>, j: nat)
    requires j < |s|
    requires !HasValue(options, s[j])
    ensures Projection(options, RemoveTag(s, j)) == Projection(options, s)
  {
    assert Resolve(options, s[j]) == [];
    RemovingUnprojectedValue(options, s, j);
  }

  lemma RemovingUnprojectedValue<T>(options: seq<Item<T>>, s: seq<T>, j: nat)
    requires j < |s|
    requires Resolve(options, s[j]) == []
    ensures Projection(options, RemoveTag(s, j)) == Projection(options, s)
  {
    ProjectionSplit(options, s, j);
  }

  /**
   For a non-empty search text the filter keeps, in option order, every occurrence of each
   option whose label contains the text (case-insensitively, literally) and nothing else.
   */
  lemma FilteredOptionsExact<T>(options: seq<Item<T>>, searchText: string, fold: char -> char)
    requires searchText != []
    ensures IsSubsequence(FilteredOptions(options, searchText, fold), options)
    ensures forall o :: multiset(FilteredOptions(options, searchText, fold))[o] ==
                        (if Search.ContainsIgnoringCase(o.caption, searchText, fold) then multiset(options)[o] else 0)
  {
    KeepSubsequence(options, LabelFilter(searchText, fold));
    KeepMultiset(options, LabelFilter(searchText, fold));
  }

  /** Filtering the filtered options again with the same search text changes nothing. */
  lemma FilteredOptionsIdempotent<T>(options: seq<Item<T>>, searchText: string, fold: char -> char)
    ensures FilteredOptions(FilteredOptions(options, searchText, fold), searchText, fold)
         == FilteredOptions(options, searchText, fold)
  {
    if searchText != [] {
      KeepIdempotent(options, LabelFilter(searchText, fold));
    }
  }

  /** Checking an unselected option and then unchecking it restores the selected values exactly. */
  lemma ToggleTwiceRestores<T>(selectedOptions: seq<T>, v: T)
    requires v !in selectedOptions
    ensures ToggleOption(ToggleOption(selectedOptions, v), v) == selectedOptions
  {
    var t := selectedOptions + [v];
    assert t[|selectedOptions|] == v;
    assert t[..|selectedOptions|] == selectedOptions;
    var k :| 0 <= k < |t| && t[k] == v && v !in t[..k] && ToggleOption(t, v) == RemoveAt(t, k);
    assert RemoveAt(t, k) == selectedOptions;
  }

  /**
   Unchecking a selected option and then checking it again moves it: on a duplicate-free
   selection the value ends up last, so the values come back unchanged only if it was last.
   */
  lemma ToggleTwiceMovesToEnd<T>(selectedOptions: seq<T>, v: T)
    requires NoDup(selectedOptions)
    requires v in selectedOptions
    ensures ToggleOption(ToggleOption(selectedOptions, v), v) == ToggleOption(selectedOptions, v) + [v]
  {
    var s := selectedOptions;
    var k :| 0 <= k < |s| && s[k] == v && v !in s[..k] && ToggleOption(s, v) == RemoveAt(s, k);
    var r := RemoveAt(s, k);
    assert v !in r by {
      forall j | 0 <= j < |r| ensures r[j] != v {
        if j < k {
          assert r[j] == s[j];
        } else {
          assert r[j] == s[j + 1];
        }
      }
    }
  }

  /** A concrete case of the above: [1, 2] becomes [2] and then [2, 1]. */
  lemma ToggleTwiceReorders()
    ensures ToggleOption(ToggleOption([1, 2], 1), 1) == [2, 1]
  {
    assert ToggleOption([1, 2], 1) == [2] by {
      var s := [1, 2];
      var k :| 0 <= k < |s| && s[k] == 1 && 1 !in s[..k] && ToggleOption(s, 1) == RemoveAt(s, k);
      assert k == 0;
    }
    assert 1 !in [2];
  }

  /**
   On a duplicate-free selection, the checkbox of `v` flips whether `v` is selected, leaves
   every other value's state alone, and keeps the selection duplicate-free.
   */
  lemma ToggleFlipsMembership<T>(selectedOptions: seq<T>, v: T)
    requires NoDup(selectedOptions)
    ensures IsOptionSelected(ToggleOption(selectedOptions, v), v) == !IsOptionSelected(selectedOptions, v)
    ensures forall w :: w != v ==> (IsOptionSelected(ToggleOption(selectedOptions, v), w) == IsOptionSelected(selectedOptions, w))
    ensures NoDup(ToggleOption(selectedOptions, v))
  {
    var s := selectedOptions;
    if v !in s {
      AppendNoDup(s, v);
    } else {
      var k :| 0 <= k < |s| && s[k] == v && v !in s[..k] && ToggleOption(s, v) == RemoveAt(s, k);
      RemoveAtNoDup(s, k);
    }
  }

  /** An empty option list always counts as fully selected, whatever the selected values. */
  lemma EmptyOptionsCountAsAllSelected<T>(selectedOptions: seq<T>)
    ensures AreAllOptionsSelected(Projection([], selectedOptions), [])
    ensures ToggleSelectAll([], Projection([], selectedOptions)) == []
  {
    assert forall o :: o in Projection([], selectedOptions) ==> o in [];
    assert Projection([], selectedOptions) == [];
  }

  /**
   The "select all" checkbox cycles: from nothing selected it proposes every option value;
   once that proposal is fed back, all options count as selected and it proposes nothing.
   */
  lemma SelectAllCycle<T>(options: seq<Item<T>>)
    ensures ToggleSelectAll(options, Projection(options, [])) == Values(options)
    ensures AreAllOptionsSelected(Projection(options, Values(options)), options)
    ensures ToggleSelectAll(options, Projection(options, Values(options))) == []
  {
    var vs := Values(options);
    forall i | 0 <= i < |vs| ensures HasValue(options, vs[i]) {
      assert options[i].value == vs[i];
    }
    ProjectionAligned(options, vs);
  }

  /**
   The "all selected" flag compares lengths only. When the selected values and the option
   values are duplicate-free it holds exactly when every option's value is selected.
   */
  lemma AllSelectedIffEveryOptionChosen<T>(options: seq<Item<T>>, selectedOptions: seq<T>)
    requires NoDup(selectedOptions)
    requires NoDup(Values(options))
    ensures AreAllOptionsSelected(Projection(options, selectedOptions), options)
        <==> forall i :: 0 <= i < |options| ==> options[i].value in selectedOptions
  {
    var p := Projection(options, selectedOptions);
    ProjectionNoDup(options, selectedOptions);
    ValuesNoDup(options);
    NoDupCardinality(p);
    NoDupCardinality(options);
    var sp := set o | o in p;
    var so := set o | o in options;
    assert sp <= so;
    if |p| == |options| {
      assert |so - sp| == |so| - |sp|;
      assert so == sp;
      forall i | 0 <= i < |options| ensures options[i].value in selectedOptions {
        assert options[i] in so;
      }
    }
    if forall i :: 0 <= i < |options| ==> options[i].value in selectedOptions {
      forall o | o in so ensures o in sp {
        var i :| 0 <= i < |options| && options[i] == o;
        FirstOfUniqueValues(options, i);
        SelectedResolvesIntoProjection(options, selectedOptions, o.value);
      }
      assert so == sp;
    }
  }

  /** The ordered selection of duplicate-free values is duplicate-free, and so are its values. */
  lemma {:induction false} ProjectionNoDup<T>(options: seq<Item<T>>, values: seq<T>)
    requires NoDup(values)
    ensures NoDup(Values(Projection(options, values)))
    ensures NoDup(Projection(options, values))
    decreases |values|
  {
    ProjectionValues(options, values);
    KeepNoDup(values, Resolvable(options));
    var p := Projection(options, values);
    forall i, j | 0 <= i < j < |p| ensures p[i] != p[j] {
      assert Values(p)[i] != Values(p)[j];
    }
  }

  /** Options with distinct values are distinct. */
  lemma ValuesNoDup<T>(options: seq<Item<T>>)
    requires NoDup(Values(options))
    ensures NoDup(options)
  {
    forall i, j | 0 <= i < j < |options| ensures options[i] != options[j] {
      assert Values(options)[i] != Values(options)[j];
    }
  }

  /** With distinct option values, each option is the first one carrying its value. */
  lemma FirstOfUniqueValues<T>(options: seq<Item<T>>, i: nat)
    requires NoDup(Values(options))
    requires i < |options|
    ensures Find(options, options[i].value) == Some(options[i])
  {
    var k := FindIndex(options, options[i].value);
    assert HasValue(options, options[i].value);
    assert Values(options)[k] == Values(options)[i];
  }

  /** A selected value that resolves contributes its option to the ordered selection. */
  lemma {:induction false} SelectedResolvesIntoProjection<T>(options: seq<Item<T>>, values: seq<T>, v: T)
    requires v in values
    requires Find(options, v).Some?
    ensures Find(options, v).value in Projection(options, values)
    decreases |values|
  {
    if values[0] != v {
      SelectedResolvesIntoProjection(options, values[1..], v);
    }
  }

  /**
   The "all selected" flag can be fooled by duplicate selected values: with two options and
   the first one's value selected twice, all options count as selected.
   */
  lemma DuplicateSelectionLooksComplete()
    ensures AreAllOptionsSelected(Projection([Item("a", 0), Item("b", 1)], [0, 0]), [Item("a", 0), Item("b", 1)])
    ensures !IsOptionSelected([0, 0], 1)
  {
    var options := [Item("a", 0), Item("b", 1)];
    assert HasValue(options, 0) by {
      assert options[0].value == 0;
    }
    ProjectionAligned(options, [0, 0]);
  }

  /** Clearing all proposes a selection with no tags, which counts as all selected only for an empty option list. */
  lemma ClearAllEmptiesSelection<T>(options: seq<Item<T>>)
    ensures Projection(options, ClearAll<T>()) == []
    ensures AreAllOptionsSelected(Projection(options, ClearAll<T>()), options) <==> options == []
  {
  }

  /**
   The search example: over the two documented posts, "other" keeps only the second one.
   (The texts are parameters so that the verifier does not unfold the scan on literals.)
   */
  lemma SearchExample(first: string, second: string, searchText: string)
    requires first == "My blog post" && second == "My other blog post" && searchText == "other"
    ensures FilteredOptions([Item(first, 100), Item(second, 108)], searchText, Search.AsciiCaseFold)
         == [Item(second, 108)]
  {
    Search.DocumentedLabels(first, second, searchText, "OTHER");
    KeepSecondOfTwo(Item(first, 100), Item(second, 108), LabelFilter(searchText, Search.AsciiCaseFold));
  }
}
