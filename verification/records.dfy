/** The member records the dashboard holds, and the object spreads that copy them. */
module Records {
  import opened Seqs

  /** A member as the data source delivers it. */
  datatype Member = Member(id: string, name: string, email: string, role: string)

  /** The columns a row in edit mode lets the user overwrite. */
  datatype Field = Name | Email | Role

  /** One record object held in `users` or `selectedRows`. The source compares
      records by object reference; `tag` stands for that reference. Every spread
      `{...u}` makes a new object and so gets a tag never used before, and no
      object is changed after it is made, so two rows are the same object exactly
      when they are equal values. */
  datatype Row = Row(tag: nat, id: string, name: string, email: string, role: string, editing: bool)

  /** The member fields of a row. */
  function Data(u: Row): Member {
    Member(u.id, u.name, u.email, u.role)
  }

  function FieldOf(u: Row, f: Field): string {
    match f
    case Name => u.name
    case Email => u.email
    case Role => u.role
  }

  /** Every row was made before the allocation counter reached `bound`. */
  predicate AllMinted(rs: seq<Row>, bound: nat) {
    forall u :: u in rs ==> u.tag < bound
  }

  /** Every row was made at or after the allocation counter stood at `base`. */
  predicate AllNewerThan(rs: seq<Row>, base: nat) {
    forall u :: u in rs ==> base <= u.tag
  }

  predicate EditingOff(rs: seq<Row>) {
    forall u :: u in rs ==> !u.editing
  }

  /** Rows made from `base` on are none of the rows made before `base`. */
  lemma NewRowsAreNotOld(rs: seq<Row>, olds: seq<Row>, base: nat)
    requires AllNewerThan(rs, base) && AllMinted(olds, base)
    ensures Disjoint(rs, olds)
  {
  }

  lemma AllMintedGrow(rs: seq<Row>, a: nat, b: nat)
    requires AllMinted(rs, a) && a <= b
    ensures AllMinted(rs, b)
  {
  }

  /** `ms.map(user => ({ ...user, editing: false }))`, the new objects taking
      the tags `base`, `base + 1`, ... */
  function Stamp(ms: seq<Member>, base: nat): (rs: seq<Row>)
    ensures |rs| == |ms|
    ensures forall i :: 0 <= i < |rs| ==> Data(rs[i]) == ms[i] && !rs[i].editing
    ensures forall i :: 0 <= i < |rs| ==> rs[i].tag == base + i
    decreases |ms|
  {
    if ms == [] then []
    else [Row(base, ms[0].id, ms[0].name, ms[0].email, ms[0].role, false)] + Stamp(ms[1..], base + 1)
  }

  /** The member fields of every row, in order. */
  function Members(rs: seq<Row>): seq<Member> {
    if rs == [] then [] else [Data(rs[0])] + Members(rs[1..])
  }

  /** Copying members into rows and reading the fields back gives the members. */
  lemma {:induction false} MembersOfStamp(ms: seq<Member>, base: nat)
    ensures Members(Stamp(ms, base)) == ms
  {
    if ms != [] {
      var rs := Stamp(ms, base);
      assert rs[1..] == Stamp(ms[1..], base + 1);
      MembersOfStamp(ms[1..], base + 1);
    }
  }

  /** The copies are distinct objects, all newer than `base`. */
  lemma StampFresh(ms: seq<Member>, base: nat)
    ensures Distinct(Stamp(ms, base)) && EditingOff(Stamp(ms, base))
    ensures AllMinted(Stamp(ms, base), base + |ms|) && AllNewerThan(Stamp(ms, base), base)
  {
    var rs := Stamp(ms, base);
    forall u | u in rs ensures base <= u.tag < base + |ms| && !u.editing {
      var i :| 0 <= i < |rs| && rs[i] == u;
    }
  }

  /** `{ ...u, [f]: v }` as a new object with tag `tag`. */
  function WithField(u: Row, f: Field, v: string, tag: nat): (c: Row)
    ensures FieldOf(c, f) == v
    ensures forall g :: g != f ==> FieldOf(c, g) == FieldOf(u, g)
    ensures c.id == u.id && c.editing == u.editing && c.tag == tag
  {
    match f
    case Name => u.(tag := tag, name := v)
    case Email => u.(tag := tag, email := v)
    case Role => u.(tag := tag, role := v)
  }

  /** `{ ...u, editing: !u.editing }` as a new object with tag `tag`. */
  function ToggledEditing(u: Row, tag: nat): (c: Row)
    ensures Data(c) == Data(u) && c.editing == !u.editing && c.tag == tag
  {
    u.(tag := tag, editing := !u.editing)
  }
}
