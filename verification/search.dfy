/** The search filter: which members a query string selects. */
module Search {
  import opened Seqs
  import opened Records

  /** `toLowerCase` restricted to ASCII letters. */
  function LowerChar(c: char): char {
    if 'A' <= c <= 'Z' then (c as int + 32) as char else c
  }

  function Lower(s: string): (r: string)
    ensures |r| == |s|
    ensures forall i :: 0 <= i < |s| ==> r[i] == LowerChar(s[i])
  {
    if s == [] then [] else [LowerChar(s[0])] + Lower(s[1..])
  }

  /** Lower-casing twice is lower-casing once. */
  lemma LowerIdempotent(s: string)
    ensures Lower(Lower(s)) == Lower(s)
  {
    forall i | 0 <= i < |s| ensures Lower(Lower(s))[i] == Lower(s)[i] {
      var c := s[i];
      assert Lower(s)[i] == LowerChar(c);
    }
  }

  /** `t` stands in `s` starting at index `k`. */
  predicate OccursAt(s: string, t: string, k: int) {
    0 <= k && k + |t| <= |s| && s[k..k + |t|] == t
  }

  /** `s.includes(t)`: `t` is a prefix of `s` or of some suffix of `s`. The
      empty string is in every string, and nothing longer than `s` is in it. */
  function Contains(s: string, t: string): (c: bool)
    ensures t == [] ==> c
    ensures c ==> |t| <= |s|
    decreases |s|
  {
    (|t| <= |s| && s[..|t|] == t) || (s != [] && Contains(s[1..], t))
  }

  /** The scan in `Contains` finds `t` exactly when it occurs at some index. */
  lemma ContainsIffOccurs(s: string, t: string)
    ensures Contains(s, t) <==> exists k :: OccursAt(s, t, k)
  {
    if Contains(s, t) {
      var k := ContainsWitness(s, t);
    }
    if exists k :: OccursAt(s, t, k) {
      var k :| OccursAt(s, t, k);
      OccursContains(s, t, k);
    }
  }

  /** Where the scan in `Contains` finds `t`. */
  lemma {:induction false} ContainsWitness(s: string, t: string) returns (k: nat)
    requires Contains(s, t)
    ensures OccursAt(s, t, k)
    decreases |s|
  {
    if |t| <= |s| && s[..|t|] == t {
      k := 0;
    } else {
      var j := ContainsWitness(s[1..], t);
      assert s[1..][j..j + |t|] == s[j + 1..j + 1 + |t|];
      k := j + 1;
    }
  }

  /** An occurrence at index `k` is found by the scan in `Contains`. */
  lemma {:induction false} OccursContains(s: string, t: string, k: nat)
    requires OccursAt(s, t, k)
    ensures Contains(s, t)
    decreases k
  {
    if k > 0 {
      assert s[1..][k - 1..k - 1 + |t|] == s[k..k + |t|];
      OccursContains(s[1..], t, k - 1);
    }
  }

  /** The callback of `handleSearch`'s filter: the query, lower-cased, occurs
      in the lower-cased id, name, email or role. The empty query matches every
      member; a query longer than all four fields matches none. */
  function Matches(m: Member, v: string): (r: bool)
    ensures v == [] ==> r
    ensures r ==> |v| <= |m.id| || |v| <= |m.name| || |v| <= |m.email| || |v| <= |m.role|
  {
    Contains(Lower(m.id), Lower(v)) || Contains(Lower(m.name), Lower(v)) ||
    Contains(Lower(m.email), Lower(v)) || Contains(Lower(m.role), Lower(v))
  }

  /** `originalUsers.filter(...)` in `handleSearch`: the matching members, in
      their original order, each as often as it occurs. */
  function MatchingMembers(ms: seq<Member>, v: string): (r: seq<Member>)
    ensures forall m :: m in r <==> m in ms && Matches(m, v)
  {
    Filter(ms, m => Matches(m, v))
  }

  /** The search keeps the matching members in the order they have in `ms`. */
  lemma SearchKeepsOrder(ms: seq<Member>, v: string)
    ensures SubseqOf(MatchingMembers(ms, v), ms)
  {
    FilterIsSubseq(ms, m => Matches(m, v));
  }

  /** A matching member occurs in the result as often as in `ms`; any other not at all. */
  lemma SearchKeepsMultiplicity(ms: seq<Member>, v: string, m: Member)
    ensures multiset(MatchingMembers(ms, v))[m] == if Matches(m, v) then multiset(ms)[m] else 0
  {
  }

  /** Every string includes the empty string, so the empty query keeps every member. */
  lemma EmptyQueryMatchesAll(ms: seq<Member>)
    ensures MatchingMembers(ms, "") == ms
  {
    forall m | m in ms ensures Matches(m, "") {
      var s := Lower(m.id);
      assert s[..0] == Lower("");
    }
    FilterKeepsAll(ms, m => Matches(m, ""));
  }

  /** The query's case does not matter: searching for `v` or for its lower-case form selects the same members. */
  lemma QueryCaseInsensitive(ms: seq<Member>, v: string)
    ensures MatchingMembers(ms, Lower(v)) == MatchingMembers(ms, v)
  {
    LowerIdempotent(v);
    FilterAgree(ms, m => Matches(m, Lower(v)), m => Matches(m, v));
  }

  /** A member matches when the query occurs in one of its four fields, ignoring case. */
  lemma MatchesIffOccurs(m: Member, v: string)
    ensures Matches(m, v) <==>
      (exists k :: OccursAt(Lower(m.id), Lower(v), k)) ||
      (exists k :: OccursAt(Lower(m.name), Lower(v), k)) ||
      (exists k :: OccursAt(Lower(m.email), Lower(v), k)) ||
      (exists k :: OccursAt(Lower(m.role), Lower(v), k))
  {
    assert Matches(m, v) == (Contains(Lower(m.id), Lower(v)) || Contains(Lower(m.name), Lower(v)) ||
      Contains(Lower(m.email), Lower(v)) || Contains(Lower(m.role), Lower(v)));
    ContainsIffOccurs(Lower(m.id), Lower(v));
    ContainsIffOccurs(Lower(m.name), Lower(v));
    ContainsIffOccurs(Lower(m.email), Lower(v));
    ContainsIffOccurs(Lower(m.role), Lower(v));
  }

  /** A member none of whose fields, lower-cased, holds the lower-cased query's
      first character is left out by the search. */
  lemma FirstCharAbsentNoMatch(m: Member, v: string)
    requires Lower(v) != []
    requires Lower(v)[0] !in Lower(m.id) && Lower(v)[0] !in Lower(m.name)
    requires Lower(v)[0] !in Lower(m.email) && Lower(v)[0] !in Lower(m.role)
    ensures !Matches(m, v)
  {
    FirstCharMissing(Lower(m.id), Lower(v));
    FirstCharMissing(Lower(m.name), Lower(v));
    FirstCharMissing(Lower(m.email), Lower(v));
    FirstCharMissing(Lower(m.role), Lower(v));
  }

  /** A string that lacks the query's first character does not include the query. */
  lemma {:induction false} FirstCharMissing(s: string, t: string)
    requires |t| > 0 && t[0] !in s
    ensures !Contains(s, t)
    decreases |s|
  {
    if s != [] {
      assert forall c :: c in s[1..] ==> c in s;
      FirstCharMissing(s[1..], t);
    }
  }
}
