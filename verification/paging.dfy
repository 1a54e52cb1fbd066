/** The pagination window: page count and the rows of one page. */
module Paging {
  import opened Seqs

  /** `usersPerPage`. */
  const PageSize: nat := 10

  function Min(a: int, b: int): int {
    if a <= b then a else b
  }

  /** `Math.ceil(n / usersPerPage)`: the fewest pages that hold `n` rows,
      which is no page at all for no rows. */
  function TotalPages(n: nat): (t: nat)
    ensures n <= t * PageSize
    ensures n > 0 ==> (t - 1) * PageSize < n
    ensures t == 0 <==> n == 0
  {
    (n + PageSize - 1) / PageSize
  }

  /** How `Array.prototype.slice` reads an index into a sequence of length
      `len`: a negative index counts back from the end, and the result is
      clamped to `0..len`. */
  function SliceIndex(i: int, len: nat): nat {
    if i < 0 then (if len + i < 0 then 0 else len + i)
    else if i > len then len
    else i
  }

  /** `r` is the run of `s` that starts at index `a`. */
  ghost predicate RunAt<T>(r: seq<T>, s: seq<T>, a: int) {
    0 <= a && a + |r| <= |s| && s[a..a + |r|] == r
  }

  /** `s.slice(start, end)`: a run of consecutive elements of `s`, no longer
      than `end - start` when `start <= end`; for indices inside `s` it is
      `s[start..end]`, and negative indices count back from the end. */
  function Slice<T>(s: seq<T>, start: int, end: int): (r: seq<T>)
    ensures exists a :: RunAt(r, s, a)
    ensures start <= end ==> |r| <= end - start
    ensures end <= start && (0 <= end || start < 0) ==> r == []
    ensures 0 <= start <= end <= |s| ==> r == s[start..end]
    ensures start <= end < 0 && -start <= |s| ==> r == s[|s| + start..|s| + end]
  {
    var from, to := SliceIndex(start, |s|), SliceIndex(end, |s|);
    if from < to then
      assert RunAt(s[from..to], s, from);
      s[from..to]
    else
      assert RunAt([], s, 0);
      []
  }

  /** A negative end counts back from the end even when the start does not:
      `s.slice(0, -1)` is all of `s` but its last element, longer than
      `end - start`. */
  lemma SliceDropsLast<T>(s: seq<T>)
    requires s != []
    ensures Slice(s, 0, -1) == s[..|s| - 1]
  {
  }

  /** `currentUsers`: `users.slice(indexOfFirstUser, indexOfLastUser)` for
      `currentPage == page`. Whatever the page number, the window is a run of
      at most `PageSize` consecutive rows of `users`. */
  function PageRows<T(==,!new)>(users: seq<T>, page: int): (r: seq<T>)
    ensures |r| <= PageSize
    ensures forall x :: x in r ==> x in users
    ensures Distinct(users) ==> Distinct(r)
  {
    var last := page * PageSize;
    var first := last - PageSize;
    Slice(users, first, last)
  }

  /** Page `page >= 1` holds the rows from index `(page - 1) * PageSize` on,
      as many as there are up to `PageSize`. */
  lemma PageContents<T(!new)>(users: seq<T>, page: int)
    requires page >= 1
    ensures var first := (page - 1) * PageSize;
      |PageRows(users, page)| == (if first >= |users| then 0 else Min(PageSize, |users| - first)) &&
      forall i :: 0 <= i < |PageRows(users, page)| ==> PageRows(users, page)[i] == users[first + i]
  {
    assert page * PageSize == (page - 1) * PageSize + PageSize;
  }

  /** Row `i` of `users` is shown at position `i % PageSize` of page `i / PageSize + 1`,
      and that page is one of the `TotalPages` pages. */
  lemma RowOnItsPage<T(!new)>(users: seq<T>, i: nat)
    requires i < |users|
    ensures 1 <= i / PageSize + 1 <= TotalPages(|users|)
    ensures i % PageSize < |PageRows(users, i / PageSize + 1)|
    ensures PageRows(users, i / PageSize + 1)[i % PageSize] == users[i]
  {
    var page := i / PageSize + 1;
    assert i == (page - 1) * PageSize + i % PageSize;
    PageContents(users, page);
  }

  /** Every page after the last one is empty; nothing clamps the page number,
      so such a page is what is shown once rows are deleted. */
  lemma PagePastEndEmpty<T(!new)>(users: seq<T>, page: int)
    requires page > TotalPages(|users|)
    ensures PageRows(users, page) == []
  {
    var t := TotalPages(|users|);
    assert (page - 1) * PageSize >= t * PageSize;
    PageContents(users, page);
  }

  /** Page 0, which "last" selects when `users` is empty, shows nothing. */
  lemma PageZeroEmpty<T(!new)>(users: seq<T>)
    ensures PageRows(users, 0) == []
  {
  }

  /** A negative page, reachable with "previous" from page 0, counts back from
      the end of `users`: page -1 is the ten rows before the last ten. */
  lemma NegativePageFromEnd<T(!new)>(users: seq<T>, page: int)
    requires page < 0 && (1 - page) * PageSize <= |users|
    ensures PageRows(users, page) == users[|users| + (page - 1) * PageSize .. |users| + page * PageSize]
  {
  }

  /** Pages 1 to `k`, shown one after the other. */
  function PagesUpTo<T(==,!new)>(users: seq<T>, k: nat): seq<T> {
    if k == 0 then [] else PagesUpTo(users, k - 1) + PageRows(users, k)
  }

  lemma {:induction false} PagesUpToPrefix<T(!new)>(users: seq<T>, k: nat)
    ensures PagesUpTo(users, k) == users[..Min(k * PageSize, |users|)]
  {
    if k > 0 {
      PagesUpToPrefix(users, k - 1);
      PageContents(users, k);
      var a, b := Min((k - 1) * PageSize, |users|), Min(k * PageSize, |users|);
      assert k * PageSize == (k - 1) * PageSize + PageSize;
      assert PageRows(users, k) == users[a..b];
      assert users[..a] + users[a..b] == users[..b];
    }
  }

  /** Pages 1 to `TotalPages` shown one after the other give back `users`
      exactly: every row once, in order. */
  lemma PagesReassemble<T(!new)>(users: seq<T>)
    ensures PagesUpTo(users, TotalPages(|users|)) == users
  {
    PagesUpToPrefix(users, TotalPages(|users|));
  }
}
