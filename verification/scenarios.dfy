/** Consequences of the handlers' contracts that show how the table behaves
    over several user actions. */
module Scenarios {
  import opened Seqs
  import opened Records
  import opened Search
  import opened Paging
  import opened Navigation
  import opened Dashboard

  /** Deletes never reach `originalUsers`, so clearing the search brings every
      deleted member back, as a fresh row. */
  method DeletedRowsComeBack(d: AdminDashboard, r: Row)
    requires d.Valid()
    modifies d
    ensures d.Valid()
    ensures Members(d.users) == d.originalUsers == old(d.originalUsers)
  {
    d.HandleDelete(r);
    d.HandleInputChange("");
    EmptyQueryMatchesAll(d.originalUsers);
  }

  /** A search keeps the selection but shows none of it: the selected objects
      are not among the fresh copies. */
  method SearchLeavesSelectionStale(d: AdminDashboard, v: string)
    requires d.Valid()
    modifies d
    ensures d.Valid()
    ensures d.selectedRows == old(d.selectedRows)
    ensures forall i :: 0 <= i < |d.selectedRows| ==> d.selectedRows[i] !in d.users
  {
    d.HandleSearch(v);
  }

  /** Editing a selected row leaves the selection pointing at the old object,
      which is no longer in the table. */
  method EditLeavesSelectionStale(d: AdminDashboard, r: Row)
    requires d.Valid() && r in d.users && r in d.selectedRows
    modifies d
    ensures d.Valid()
    ensures r in d.selectedRows && r !in d.users
  {
    d.HandleEdit(r);
  }

  /** With nothing selected, the bulk delete asks, and either answer leaves the table as it was. */
  method BulkDeleteWithNothingSelected(d: AdminDashboard, confirmed: bool)
    requires d.Valid() && d.selectedRows == []
    modifies d
    ensures d.Valid()
    ensures d.users == old(d.users) && d.selectedRows == []
  {
    d.HandleDeleteSelected(confirmed);
  }

  /** Ticking one row of an empty selection and then using the bulk delete,
      whatever the answer to the prompt would be, removes that row as its own
      delete button does; the prompt does not appear, because the selection is
      not empty. */
  method SelectThenBulkDelete(d: AdminDashboard, r: Row, confirmed: bool)
    requires d.Valid() && d.selectedRows == [] && r in d.CurrentUsers()
    modifies d
    ensures d.Valid()
    ensures d.users == Without(old(d.users), r) && d.selectedRows == []
    ensures |d.users| == |old(d.users)| - 1
  {
    ghost var before := d.users;
    d.HandleSelectRow(r);
    assert d.selectedRows == [r] by { assert [] + [r] == [r]; }
    d.HandleDeleteSelected(confirmed);
    WithoutIsWithoutAllOfOne(before, r);
    WithoutCountDistinct(before, r);
  }

  /** Twenty-five rows make three pages; the third holds the last five, and
      ">" is disabled on it. */
  lemma TwentyFiveRows<T(!new)>(users: seq<T>)
    requires |users| == 25
    ensures TotalPages(|users|) == 3
    ensures PageRows(users, 3) == users[20..]
    ensures Disabled(Next, 3, TotalPages(|users|))
  {
    PageContents(users, 3);
  }
}
