/** Sequence operations the table handlers are built from: the `filter`
    and `map` of JavaScript arrays, stated once over any element type. */
module Seqs {

  /** No value occurs twice in `s`. */
  predicate Distinct<T(==)>(s: seq<T>) {
    forall i, j :: 0 <= i < j < |s| ==> s[i] != s[j]
  }

  /** No entry of `a` is an entry of `b`. */
  predicate Disjoint<T(==)>(a: seq<T>, b: seq<T>) {
    forall i :: 0 <= i < |a| ==> a[i] !in b
  }

  /** `r` is `s` with some entries dropped and the rest kept in order. */
  predicate SubseqOf<T(==)>(r: seq<T>, s: seq<T>)
    decreases |s|
  {
    if r == [] then true
    else if s == [] then false
    else if r[0] == s[0] then SubseqOf(r[1..], s[1..])
    else SubseqOf(r, s[1..])
  }

  /** `s.filter(p)`: the entries of `s` that satisfy `p`, each as often as
      it occurs in `s`. */
  function Filter<T(==,!new)>(s: seq<T>, p: T -> bool): (r: seq<T>)
    ensures |r| <= |s|
    ensures forall x {:trigger x in r} :: x in r <==> x in s && p(x)
    ensures forall x {:trigger multiset(r)[x]} :: multiset(r)[x] == if p(x) then multiset(s)[x] else 0
  {
    if s == [] then []
    else
      assert s == [s[0]] + s[1..];
      if p(s[0]) then [s[0]] + Filter(s[1..], p) else Filter(s[1..], p)
  }

  lemma {:induction false} FilterIsSubseq<T(!new)>(s: seq<T>, p: T -> bool)
    ensures SubseqOf(Filter(s, p), s)
  {
    if s != [] {
      FilterIsSubseq(s[1..], p);
      var r := Filter(s, p);
      if p(s[0]) {
        assert r[0] == s[0] && r[1..] == Filter(s[1..], p);
      } else {
        assert r == Filter(s[1..], p);
        if r != [] {
          assert r[0] in r;
        }
      }
    }
  }

  /** Filtering drops at least the entry `x`, which fails the predicate. */
  lemma {:induction false} FilterShrinks<T(!new)>(s: seq<T>, p: T -> bool, x: T)
    requires x in s && !p(x)
    ensures |Filter(s, p)| < |s|
  {
    if s[0] != x {
      FilterShrinks(s[1..], p, x);
    }
  }

  /** Filtering with a predicate every entry satisfies changes nothing. */
  lemma {:induction false} FilterKeepsAll<T(!new)>(s: seq<T>, p: T -> bool)
    requires forall x :: x in s ==> p(x)
    ensures Filter(s, p) == s
  {
    if s != [] {
      FilterKeepsAll(s[1..], p);
    }
  }

  /** Two predicates that agree on every entry filter alike. */
  lemma {:induction false} FilterAgree<T(!new)>(s: seq<T>, p: T -> bool, q: T -> bool)
    requires forall x :: x in s ==> p(x) == q(x)
    ensures Filter(s, p) == Filter(s, q)
  {
    if s != [] {
      FilterAgree(s[1..], p, q);
    }
  }

  lemma {:induction false} FilterAppend<T(!new)>(s: seq<T>, t: seq<T>, p: T -> bool)
    ensures Filter(s + t, p) == Filter(s, p) + Filter(t, p)
  {
    if s == [] {
      assert s + t == t;
    } else {
      assert (s + t)[0] == s[0] && (s + t)[1..] == s[1..] + t;
      FilterAppend(s[1..], t, p);
    }
  }

  lemma {:induction false} FilterDistinct<T(!new)>(s: seq<T>, p: T -> bool)
    requires Distinct(s)
    ensures Distinct(Filter(s, p))
  {
    if s != [] {
      assert Distinct(s[1..]) by {
        forall i, j | 0 <= i < j < |s| - 1 ensures s[1..][i] != s[1..][j] {
          assert s[1..][i] == s[i + 1] && s[1..][j] == s[j + 1];
        }
      }
      FilterDistinct(s[1..], p);
      if p(s[0]) {
        assert s[0] !in s[1..] by {
          forall j | 0 <= j < |s| - 1 ensures s[1..][j] != s[0] {
            assert s[1..][j] == s[j + 1];
          }
        }
        DistinctPrepend(s[0], Filter(s[1..], p));
      }
    }
  }

  lemma DistinctPrepend<T(!new)>(x: T, t: seq<T>)
    requires x !in t && Distinct(t)
    ensures Distinct([x] + t)
  {
    forall i, j | 0 <= i < j < |t| + 1 ensures ([x] + t)[i] != ([x] + t)[j] {
      assert ([x] + t)[j] == t[j - 1];
      if i > 0 {
        assert ([x] + t)[i] == t[i - 1];
      }
    }
  }

  lemma DistinctAppend<T(!new)>(t: seq<T>, x: T)
    requires x !in t && Distinct(t)
    ensures Distinct(t + [x])
  {
    forall i, j | 0 <= i < j < |t| + 1 ensures (t + [x])[i] != (t + [x])[j] {
      assert (t + [x])[i] == t[i];
      if j < |t| {
        assert (t + [x])[j] == t[j];
      }
    }
  }

  /** `s.filter(u => u !== x)`: every occurrence of `x` removed. */
  function Without<T(==,!new)>(s: seq<T>, x: T): (r: seq<T>)
    ensures x !in r
    ensures x in s ==> |r| < |s|
    ensures forall y :: y != x ==> (y in r <==> y in s)
    ensures forall y :: y != x ==> multiset(r)[y] == multiset(s)[y]
  {
    if x in s then FilterShrinks(s, y => y != x, x); Filter(s, y => y != x)
    else Filter(s, y => y != x)
  }

  /** `s.filter(u => !xs.includes(u))`: every entry that occurs in `xs` removed. */
  function WithoutAll<T(==,!new)>(s: seq<T>, xs: seq<T>): (r: seq<T>)
    ensures forall y :: y in r <==> y in s && y !in xs
    ensures forall y :: y !in xs ==> multiset(r)[y] == multiset(s)[y]
  {
    Filter(s, y => y !in xs)
  }

  lemma WithoutIsSubseq<T(!new)>(s: seq<T>, x: T)
    ensures SubseqOf(Without(s, x), s)
  {
    FilterIsSubseq(s, y => y != x);
  }

  lemma WithoutAllIsSubseq<T(!new)>(s: seq<T>, xs: seq<T>)
    ensures SubseqOf(WithoutAll(s, xs), s)
  {
    FilterIsSubseq(s, y => y !in xs);
  }

  /** Removing a value that is not there leaves the sequence as it was. */
  lemma WithoutAbsent<T(!new)>(s: seq<T>, x: T)
    requires x !in s
    ensures Without(s, x) == s
  {
    FilterKeepsAll(s, y => y != x);
  }

  /** Removing the entries of an empty sequence leaves the sequence as it was. */
  lemma WithoutNone<T(!new)>(s: seq<T>)
    ensures WithoutAll(s, []) == s
  {
    FilterKeepsAll(s, y => y !in []);
  }

  /** Removing one value is removing the entries of the one-entry sequence of it. */
  lemma WithoutIsWithoutAllOfOne<T(!new)>(s: seq<T>, x: T)
    ensures Without(s, x) == WithoutAll(s, [x])
  {
    FilterAgree(s, y => y != x, y => y !in [x]);
  }

  /** Removing a value from two sequences joined is removing it from each. */
  lemma WithoutAppend<T(!new)>(s: seq<T>, t: seq<T>, x: T)
    ensures Without(s + t, x) == Without(s, x) + Without(t, x)
  {
    FilterAppend(s, t, y => y != x);
  }

  /** In a sequence without repetitions, removing a present value drops exactly one entry. */
  lemma {:induction false} WithoutCountDistinct<T(!new)>(s: seq<T>, x: T)
    requires Distinct(s)
    ensures x in s ==> |Without(s, x)| == |s| - 1
  {
    if s != [] {
      assert Distinct(s[1..]) by {
        forall i, j | 0 <= i < j < |s| - 1 ensures s[1..][i] != s[1..][j] {
          assert s[1..][i] == s[i + 1] && s[1..][j] == s[j + 1];
        }
      }
      if s[0] == x {
        assert x !in s[1..] by {
          forall j | 0 <= j < |s| - 1 ensures s[1..][j] != x {
            assert s[1..][j] == s[j + 1];
          }
        }
        WithoutAbsent(s[1..], x);
      } else {
        WithoutCountDistinct(s[1..], x);
      }
    }
  }

  lemma {:induction false} SubseqOfSelf<T>(s: seq<T>)
    ensures SubseqOf(s, s)
  {
    if s != [] {
      SubseqOfSelf(s[1..]);
    }
  }

  lemma WithoutDistinct<T(!new)>(s: seq<T>, x: T)
    requires Distinct(s)
    ensures Distinct(Without(s, x))
  {
    FilterDistinct(s, y => y != x);
  }

  lemma WithoutAllDistinct<T(!new)>(s: seq<T>, xs: seq<T>)
    requires Distinct(s)
    ensures Distinct(WithoutAll(s, xs))
  {
    FilterDistinct(s, y => y !in xs);
  }

  /** `s.map(u => u === x ? y : u)`. */
  function Replace<T(==,!new)>(s: seq<T>, x: T, y: T): (r: seq<T>)
    ensures |r| == |s|
    ensures forall i :: 0 <= i < |s| ==> r[i] == if s[i] == x then y else s[i]
  {
    if s == [] then [] else [if s[0] == x then y else s[0]] + Replace(s[1..], x, y)
  }

  /** In a sequence without repetitions the replacement touches exactly the
      one position that holds `x`. */
  lemma ReplaceAt<T(!new)>(s: seq<T>, k: nat, y: T)
    requires Distinct(s) && k < |s|
    ensures Replace(s, s[k], y) == s[k := y]
  {
  }

  lemma ReplaceAbsent<T(!new)>(s: seq<T>, x: T, y: T)
    requires x !in s
    ensures Replace(s, x, y) == s
  {
  }

  /** Replacing by a value not yet present keeps the entries distinct. */
  lemma ReplaceDistinct<T(!new)>(s: seq<T>, x: T, y: T)
    requires Distinct(s) && y !in s
    ensures Distinct(Replace(s, x, y))
  {
  }
}
