/** The selection: the row objects whose checkboxes are ticked. */
module Selection {
  import opened Seqs

  /** The select-all checkbox's `checked`: the selection is as long as the
      visible page. Only the lengths are compared, so selecting exactly the
      page checks it, and on an empty page only the empty selection does. */
  function AllChecked<T>(selected: seq<T>, visible: seq<T>): (checked: bool)
    ensures selected == visible ==> checked
    ensures visible == [] ==> (checked <==> selected == [])
  {
    |selected| == |visible|
  }

  /** `toggleSelectAll`: clear the selection when the checkbox is checked,
      otherwise select exactly the visible rows, in page order. The toggle
      flips the checkbox, except on an empty page, where it stays checked. */
  function ToggleAll<T>(selected: seq<T>, visible: seq<T>): (s: seq<T>)
    ensures s == [] || s == visible
    ensures AllChecked(s, visible) <==> !AllChecked(selected, visible) || visible == []
  {
    if AllChecked(selected, visible) then [] else visible
  }

  /** `handleSelectRow`: remove `r` if it is selected, append it otherwise. */
  function ToggleRow<T(==,!new)>(selected: seq<T>, r: T): (s: seq<T>)
    ensures r in s <==> r !in selected
    ensures forall y :: y != r ==> (y in s <==> y in selected)
    ensures r in selected ==> SubseqOf(s, selected) && |s| < |selected|
    ensures r !in selected ==> s == selected + [r]
  {
    if r in selected then
      WithoutIsSubseq(selected, r);
      Without(selected, r)
    else selected + [r]
  }

  /** Ticking the same unticked row twice restores the selection. */
  lemma ToggleRowTwice<T(!new)>(selected: seq<T>, r: T)
    requires r !in selected
    ensures ToggleRow(ToggleRow(selected, r), r) == selected
  {
    WithoutAppend(selected, [r], r);
    WithoutAbsent(selected, r);
    assert Without([r], r) == [];
  }

  /** Ticking a ticked row twice moves it to the end of the selection. */
  lemma ToggleRowTwiceSelected<T(!new)>(selected: seq<T>, r: T)
    requires r in selected
    ensures ToggleRow(ToggleRow(selected, r), r) == Without(selected, r) + [r]
  {
  }

  lemma ToggleRowDistinct<T(!new)>(selected: seq<T>, r: T)
    requires Distinct(selected)
    ensures Distinct(ToggleRow(selected, r))
  {
    if r in selected {
      WithoutDistinct(selected, r);
    } else {
      DistinctAppend(selected, r);
    }
  }

  /** Toggling select-all twice gives back the selection exactly when the
      selection was the visible page or empty; a selection kept from another
      page is lost. */
  lemma ToggleAllTwice<T>(selected: seq<T>, visible: seq<T>)
    ensures ToggleAll(ToggleAll(selected, visible), visible) == selected <==>
            selected == visible || selected == []
  {
  }

  /** Once toggled, toggling select-all twice more comes back to the same selection. */
  lemma ToggleAllTwiceAfterToggle<T>(selected: seq<T>, visible: seq<T>)
    ensures var once := ToggleAll(selected, visible);
            ToggleAll(ToggleAll(once, visible), visible) == once
  {
    ToggleAllTwice(ToggleAll(selected, visible), visible);
  }

  /** The checkbox may show checked while none of the visible rows is selected:
      a selection of the same length from another page is enough. */
  lemma CheckedWithoutVisibleRows<T(!new)>(a: T, b: T)
    requires a != b
    ensures AllChecked([a], [b]) && b !in [a]
    ensures ToggleAll([a], [b]) == []
  {
  }
}
