/** The `AdminDashboard` component's table state and its handlers. Each
    handler is one atomic step over the five state variables. */
module Dashboard {
  import opened Seqs
  import opened Records
  import opened Search
  import opened Paging
  import opened Navigation
  import opened Selection

  class AdminDashboard {
    /** The members as fetched; the base every search starts from. */
    var originalUsers: seq<Member>
    /** The rows shown, selected and deleted from. */
    var users: seq<Row>
    var searchTerm: string
    /** The ticked rows, by object; may hold rows no longer in `users`. */
    var selectedRows: seq<Row>
    /** Not kept in `1..TotalPages`: it may be 0, negative or past the end. */
    var currentPage: int
    /** The tag the next new row object gets. */
    var nextTag: nat

    /** Every row object is in `users` at most once and in `selectedRows` at
        most once, and all were made before `nextTag`. */
    ghost predicate Valid()
      reads this
    {
      Distinct(users) && Distinct(selectedRows) &&
      AllMinted(users, nextTag) && AllMinted(selectedRows, nextTag)
    }

    /** `totalPages`. */
    function PageCount(): (t: nat)
      reads this
      ensures |users| <= t * PageSize
      ensures users != [] ==> (t - 1) * PageSize < |users|
      ensures t == 0 <==> users == []
    {
      TotalPages(|users|)
    }

    /** `currentUsers`: the rows on the current page. */
    function CurrentUsers(): (r: seq<Row>)
      reads this
      ensures |r| <= PageSize
    {
      PageRows(users, currentPage)
    }

    /** The state before the data arrives. */
    constructor ()
      ensures Valid()
      ensures originalUsers == [] && users == [] && searchTerm == ""
      ensures selectedRows == [] && currentPage == 1
    {
      originalUsers, users, searchTerm := [], [], "";
      selectedRows, currentPage, nextTag := [], 1, 0;
    }

    /** The fetch's success callback: keep the data as the base, and show a
        fresh copy of every member with `editing` off. */
    method Load(data: seq<Member>)
      requires Valid()
      modifies this
      ensures Valid()
      ensures originalUsers == data
      ensures users == Stamp(data, old(nextTag)) && Members(users) == data
      ensures EditingOff(users) && Disjoint(users, old(users)) && Disjoint(users, old(selectedRows))
      ensures searchTerm == old(searchTerm) && selectedRows == old(selectedRows)
      ensures currentPage == old(currentPage) && nextTag == old(nextTag) + |data|
    {
      var rows, tag := Stamp(data, nextTag), nextTag + |data|;
      assert Members(rows) == data by { MembersOfStamp(data, nextTag); }
      assert FreshTable(rows, users, selectedRows, tag) by {
        StampFresh(data, nextTag);
        FreshTableHolds(rows, users, selectedRows, nextTag, tag);
      }
      originalUsers, users, nextTag := data, rows, tag;
    }

    /** `handleSearch`: show fresh copies of the members matching `v`, in
        their original order, and go to page 1. The selection is left alone,
        so none of it is shown any more. */
    method HandleSearch(v: string)
      requires Valid()
      modifies this
      ensures Valid()
      ensures users == Stamp(MatchingMembers(originalUsers, v), old(nextTag))
      ensures Members(users) == MatchingMembers(originalUsers, v)
      ensures EditingOff(users) && Disjoint(users, old(users)) && Disjoint(users, old(selectedRows))
      ensures searchTerm == v && currentPage == 1
      ensures nextTag == old(nextTag) + |users|
      ensures originalUsers == old(originalUsers) && selectedRows == old(selectedRows)
    {
      var filtered := MatchingMembers(originalUsers, v);
      var rows, tag := Stamp(filtered, nextTag), nextTag + |filtered|;
      assert Members(rows) == filtered by { MembersOfStamp(filtered, nextTag); }
      assert FreshTable(rows, users, selectedRows, tag) by {
        StampFresh(filtered, nextTag);
        FreshTableHolds(rows, users, selectedRows, nextTag, tag);
      }
      searchTerm, users, nextTag, currentPage := v, rows, tag, 1;
    }

    /** `handleInputChange`: an empty value shows fresh copies of all members
        and keeps the page; any other value searches for it. */
    method HandleInputChange(v: string)
      requires Valid()
      modifies this
      ensures Valid()
      ensures users == Stamp(if v == "" then originalUsers else MatchingMembers(originalUsers, v), old(nextTag))
      ensures Members(users) == MatchingMembers(originalUsers, v)
      ensures EditingOff(users) && Disjoint(users, old(users)) && Disjoint(users, old(selectedRows))
      ensures searchTerm == v
      ensures currentPage == if v == "" then old(currentPage) else 1
      ensures nextTag == old(nextTag) + |users|
      ensures originalUsers == old(originalUsers) && selectedRows == old(selectedRows)
    {
      if v == "" {
        var rows, tag := Stamp(originalUsers, nextTag), nextTag + |originalUsers|;
        assert Members(rows) == MatchingMembers(originalUsers, v) by {
          MembersOfStamp(originalUsers, nextTag);
          EmptyQueryMatchesAll(originalUsers);
        }
        assert FreshTable(rows, users, selectedRows, tag) by {
          StampFresh(originalUsers, nextTag);
          FreshTableHolds(rows, users, selectedRows, nextTag, tag);
        }
        searchTerm, users, nextTag := v, rows, tag;
      } else {
        HandleSearch(v);
      }
    }

    /** `handlePaginationClick`: go to `page`, whatever it is. */
    method HandlePaginationClick(page: int)
      requires Valid()
      modifies this
      ensures Valid()
      ensures currentPage == page
      ensures users == old(users) && selectedRows == old(selectedRows) && nextTag == old(nextTag)
      ensures originalUsers == old(originalUsers) && searchTerm == old(searchTerm)
    {
      currentPage := page;
    }

    /** A click on one of the rendered pagination buttons. */
    method ClickButton(b: NavButton)
      requires Valid() && Rendered(b, PageCount())
      modifies this
      ensures Valid()
      ensures currentPage == Click(b, old(currentPage), old(PageCount()))
      ensures 1 <= old(currentPage) <= PageCount() ==> 1 <= currentPage <= PageCount()
      ensures users == old(users) && selectedRows == old(selectedRows) && nextTag == old(nextTag)
      ensures originalUsers == old(originalUsers) && searchTerm == old(searchTerm)
    {
      if 1 <= currentPage <= PageCount() {
        ClickStaysInRange(b, currentPage, PageCount());
      }
      if !Disabled(b, currentPage, PageCount()) {
        HandlePaginationClick(Click(b, currentPage, PageCount()));
      }
    }

    /** `toggleSelectAll`. */
    method ToggleSelectAll()
      requires Valid()
      modifies this
      ensures Valid()
      ensures selectedRows == ToggleAll(old(selectedRows), old(CurrentUsers()))
      ensures old(AllChecked(selectedRows, CurrentUsers())) ==> selectedRows == []
      ensures !old(AllChecked(selectedRows, CurrentUsers())) ==>
        selectedRows == CurrentUsers() && AllChecked(selectedRows, CurrentUsers())
      ensures users == old(users) && currentPage == old(currentPage) && nextTag == old(nextTag)
      ensures originalUsers == old(originalUsers) && searchTerm == old(searchTerm)
    {
      selectedRows := ToggleAll(selectedRows, CurrentUsers());
    }

    /** `handleSelectRow`, reached through the checkbox of a row on the
        current page. */
    method HandleSelectRow(r: Row)
      requires Valid() && r in CurrentUsers()
      modifies this
      ensures Valid()
      ensures selectedRows == ToggleRow(old(selectedRows), r)
      ensures r in selectedRows <==> r !in old(selectedRows)
      ensures users == old(users) && currentPage == old(currentPage) && nextTag == old(nextTag)
      ensures originalUsers == old(originalUsers) && searchTerm == old(searchTerm)
    {
      ToggleRowDistinct(selectedRows, r);
      selectedRows := ToggleRow(selectedRows, r);
    }

    /** `handleDelete`: remove the object `r` from the rows and from the
        selection; the page number is not adjusted. */
    method HandleDelete(r: Row)
      requires Valid()
      modifies this
      ensures Valid()
      ensures users == Without(old(users), r) && selectedRows == Without(old(selectedRows), r)
      ensures r !in users && r !in selectedRows
      ensures SubseqOf(users, old(users)) && SubseqOf(selectedRows, old(selectedRows))
      ensures r in old(users) ==> |users| == |old(users)| - 1
      ensures currentPage == old(currentPage) && nextTag == old(nextTag)
      ensures originalUsers == old(originalUsers) && searchTerm == old(searchTerm)
    {
      WithoutDistinct(users, r);
      WithoutDistinct(selectedRows, r);
      WithoutIsSubseq(users, r);
      WithoutIsSubseq(selectedRows, r);
      WithoutCountDistinct(users, r);
      users := Without(users, r);
      selectedRows := Without(selectedRows, r);
    }

    /** `handleDeleteSelected`, with the answer `window.confirm` would give
        passed in as `confirmed`. The question is asked only when nothing is
        selected. */
    method HandleDeleteSelected(confirmed: bool)
      requires Valid()
      modifies this
      ensures Valid()
      ensures old(selectedRows) == [] && !confirmed ==>
        users == old(users) && selectedRows == old(selectedRows)
      ensures old(selectedRows) != [] || confirmed ==>
        users == WithoutAll(old(users), old(selectedRows)) && selectedRows == []
      ensures old(selectedRows) == [] ==> users == old(users) && selectedRows == []
      ensures SubseqOf(users, old(users))
      ensures currentPage == old(currentPage) && nextTag == old(nextTag)
      ensures originalUsers == old(originalUsers) && searchTerm == old(searchTerm)
    {
      if |selectedRows| == 0 && !confirmed {
        SubseqOfSelf(users);
        return;
      }
      WithoutAllDistinct(users, selectedRows);
      WithoutAllIsSubseq(users, selectedRows);
      WithoutNone(users);
      users := WithoutAll(users, selectedRows);
      selectedRows := [];
    }

    /** `handleFieldChange`: replace the object `r` in `users` by a new object
        with field `f` set to `v`. The selection still holds `r` if it did. */
    method HandleFieldChange(r: Row, f: Field, v: string)
      requires Valid()
      modifies this
      ensures Valid()
      ensures users == Replace(old(users), r, WithField(r, f, v, old(nextTag)))
      ensures forall k :: 0 <= k < |old(users)| && old(users)[k] == r ==>
        users == old(users)[k := WithField(r, f, v, old(nextTag))]
      ensures r !in old(users) ==> users == old(users)
      ensures r !in users
      ensures selectedRows == old(selectedRows) && currentPage == old(currentPage)
      ensures originalUsers == old(originalUsers) && searchTerm == old(searchTerm)
      ensures nextTag == old(nextTag) + 1
    {
      var copy := WithField(r, f, v, nextTag);
      ReplaceEffects(users, r, copy);
      users := Replace(users, r, copy);
      nextTag := nextTag + 1;
    }

    /** `handleEdit`: replace the object `r` in `users` by a new object with
        `editing` flipped. */
    method HandleEdit(r: Row)
      requires Valid()
      modifies this
      ensures Valid()
      ensures users == Replace(old(users), r, ToggledEditing(r, old(nextTag)))
      ensures forall k :: 0 <= k < |old(users)| && old(users)[k] == r ==>
        users == old(users)[k := ToggledEditing(r, old(nextTag))]
      ensures r !in old(users) ==> users == old(users)
      ensures r !in users
      ensures selectedRows == old(selectedRows) && currentPage == old(currentPage)
      ensures originalUsers == old(originalUsers) && searchTerm == old(searchTerm)
      ensures nextTag == old(nextTag) + 1
    {
      var copy := ToggledEditing(r, nextTag);
      ReplaceEffects(users, r, copy);
      users := Replace(users, r, copy);
      nextTag := nextTag + 1;
    }
  }

  /** The facts about a fresh table `rows` made with tags below `tag`
      that keep `Valid` and make it disjoint from what was held before. */
  predicate FreshTable(rows: seq<Row>, users: seq<Row>, selected: seq<Row>, tag: nat) {
    Distinct(rows) && EditingOff(rows) && AllMinted(rows, tag) && AllMinted(selected, tag) &&
    Disjoint(rows, users) && Disjoint(rows, selected)
  }

  lemma FreshTableHolds(rows: seq<Row>, users: seq<Row>, selected: seq<Row>, base: nat, tag: nat)
    requires Distinct(rows) && EditingOff(rows) && AllMinted(rows, tag) && AllNewerThan(rows, base)
    requires AllMinted(users, base) && AllMinted(selected, base) && base <= tag
    ensures FreshTable(rows, users, selected, tag)
  {
    NewRowsAreNotOld(rows, users, base);
    NewRowsAreNotOld(rows, selected, base);
    AllMintedGrow(selected, base, tag);
  }

  /** What replacing `r` by a new object does to a table of distinct row objects. */
  lemma ReplaceEffects(users: seq<Row>, r: Row, copy: Row)
    requires Distinct(users) && copy !in users && (r in users ==> copy != r)
    ensures Distinct(Replace(users, r, copy))
    ensures forall k :: 0 <= k < |users| && users[k] == r ==> Replace(users, r, copy) == users[k := copy]
    ensures r !in users ==> Replace(users, r, copy) == users
    ensures r !in Replace(users, r, copy)
  {
    ReplaceDistinct(users, r, copy);
    forall k | 0 <= k < |users| && users[k] == r ensures Replace(users, r, copy) == users[k := copy] {
      ReplaceAt(users, k, copy);
    }
    if r !in users {
      ReplaceAbsent(users, r, copy);
    }
  }
}
