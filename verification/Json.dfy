/** JSON values, the text that dump.c writes for them, and equality as value.c defines it. */
module Json {
  import opened Bytes
  import opened Utf8
  import opened JsonString

  const INT_MIN := -0x8000_0000_0000_0000
  const INT_MAX := 0x7FFF_FFFF_FFFF_FFFF

  /** A value; a real is known only by its lexeme. An object lists its members as its hash table iterates
      over them; `serial` records the order of insertion. */
  datatype Json =
    | Null
    | True
    | False
    | Integer(i: int)
    | Real(lexeme: seq<Byte>)
    | String(s: seq<Byte>)
    | Array(elems: seq<Json>)
    | Object(members: seq<Member>)

  datatype Member = Member(key: seq<Byte>, serial: nat, value: Json)

  ghost predicate ValidText(s: seq<Byte>) {
    NulFree(s) && Decode(s).Some?
  }

  ghost predicate DistinctKeys(ms: seq<Member>) {
    forall i, j :: 0 <= i < j < |ms| ==> ms[i].key != ms[j].key
  }

  ghost predicate DistinctSerials(ms: seq<Member>) {
    forall i, j :: 0 <= i < j < |ms| ==> ms[i].serial != ms[j].serial
  }

  /** What the API can build without reals: 64-bit integers, UTF-8 strings, distinct keys and serials. */
  ghost predicate Proper(v: Json) {
    match v
    case Integer(i) => INT_MIN <= i <= INT_MAX
    case Real(_) => false
    case String(s) => ValidText(s)
    case Array(elems) => forall e <- elems :: Proper(e)
    case Object(members) =>
      && DistinctKeys(members) && DistinctSerials(members)
      && forall m <- members :: ValidText(m.key) && Proper(m.value)
    case _ => true
  }

  /** Without reals, and with C strings only: they may be anything but hold no NUL. */
  ghost predicate Clean(v: Json) {
    match v
    case Real(_) => false
    case String(s) => NulFree(s)
    case Array(elems) => forall e <- elems :: Clean(e)
    case Object(members) => forall m <- members :: NulFree(m.key) && Clean(m.value)
    case _ => true
  }

  // ------------------------------------------------------------------ text

  function Digits(n: nat): (s: seq<Byte>)
    ensures |s| >= 1 && forall b <- s :: 0x30 <= b <= 0x39
    ensures n > 0 ==> s[0] != 0x30
  {
    if n < 10 then [0x30 + n] else Digits(n / 10) + [0x30 + n % 10]
  }

  function IntegerText(i: int): (s: seq<Byte>) {
    if i < 0 then [0x2D] + Digits(-i) else Digits(i)
  }

  function Spaces(n: nat): (s: seq<Byte>) {
    seq(n, _ => 0x20)
  }

  /** dump_indent. */
  function Indent(f: DumpFlags, depth: nat, space: bool): (s: seq<Byte>) {
    if f.indent > 0 then [0x0A] + Spaces(depth * f.indent)
    else if space && !f.compact then [0x20]
    else []
  }

  function Separator(f: DumpFlags): (s: seq<Byte>) {
    if f.compact then [0x3A] else [0x3A, 0x20]
  }

  /** What dump_string writes, whether it succeeds or not. */
  function StringLiteral(s: seq<Byte>, f: DumpFlags): (t: seq<Byte>) {
    if Decode(s).Some? then StringText(s, f) else BrokenText(s, f)
  }

  /** The text of a value whose members are already in the order of dumping. */
  function Text(v: Json, f: DumpFlags, depth: nat): (t: seq<Byte>)
    decreases v, 1
  {
    match v
    case Null => [0x6E, 0x75, 0x6C, 0x6C]
    case True => [0x74, 0x72, 0x75, 0x65]
    case False => [0x66, 0x61, 0x6C, 0x73, 0x65]
    case Integer(i) => IntegerText(i)
    case Real(lexeme) => lexeme
    case String(s) => StringLiteral(s, f)
    case Array(elems) =>
      if elems == [] then [0x5B, 0x5D]
      else [0x5B] + Indent(f, depth + 1, false) + ElemsText(elems, f, depth) + [0x5D]
    case Object(members) =>
      if members == [] then [0x7B, 0x7D]
      else [0x7B] + Indent(f, depth + 1, false) + MembersText(members, f, depth) + [0x7D]
  }

  function ElemsText(elems: seq<Json>, f: DumpFlags, depth: nat): (t: seq<Byte>)
    requires elems != []
    decreases elems, 0
  {
    Text(elems[0], f, depth + 1) +
    if |elems| == 1 then Indent(f, depth, false)
    else [0x2C] + Indent(f, depth + 1, true) + ElemsText(elems[1..], f, depth)
  }

  function MembersText(members: seq<Member>, f: DumpFlags, depth: nat): (t: seq<Byte>)
    requires members != []
    decreases members, 0
  {
    StringLiteral(members[0].key, f) + Separator(f) + Text(members[0].value, f, depth + 1) +
    if |members| == 1 then Indent(f, depth, false)
    else [0x2C] + Indent(f, depth + 1, true) + MembersText(members[1..], f, depth)
  }

  // ------------------------------------------------------------------ order of members

  /** strcmp on unsigned bytes: `a` sorts strictly before `b`. */
  predicate StrLess(a: seq<Byte>, b: seq<Byte>)
    decreases |a|
  {
    if b == [] then false
    else if a == [] then true
    else a[0] < b[0] || (a[0] == b[0] && StrLess(a[1..], b[1..]))
  }

  predicate Before(a: Member, b: Member, f: DumpFlags) {
    if f.sortKeys then StrLess(a.key, b.key) else a.serial < b.serial
  }

  function InsertOrdered(m: Member, ms: seq<Member>, f: DumpFlags): (r: seq<Member>)
    ensures multiset(r) == multiset(ms) + multiset{m}
    decreases |ms|
  {
    if ms == [] || Before(m, ms[0], f) then
      assert [m] + ms == [m] + ms;
      [m] + ms
    else
      assert ms == [ms[0]] + ms[1..];
      [ms[0]] + InsertOrdered(m, ms[1..], f)
  }

  /** The order in which do_dump visits the members. */
  function Ordered(ms: seq<Member>, f: DumpFlags): (r: seq<Member>)
    ensures multiset(r) == multiset(ms)
    decreases |ms|
  {
    if !f.sortKeys && !f.preserveOrder then ms
    else if ms == [] then []
    else
      assert ms == [ms[0]] + ms[1..];
      InsertOrdered(ms[0], Ordered(ms[1..], f), f)
  }

  /** The value with every object's members in the order of dumping. */
  function Arrange(v: Json, f: DumpFlags): (r: Json)
    decreases v, 1
  {
    match v
    case Array(elems) => Array(ArrangeElems(elems, f))
    case Object(members) => Object(Ordered(ArrangeMembers(members, f), f))
    case _ => v
  }

  function ArrangeElems(elems: seq<Json>, f: DumpFlags): (r: seq<Json>)
    ensures |r| == |elems|
    decreases elems, 0
  {
    if elems == [] then [] else [Arrange(elems[0], f)] + ArrangeElems(elems[1..], f)
  }

  function ArrangeMembers(members: seq<Member>, f: DumpFlags): (r: seq<Member>)
    ensures |r| == |members|
    decreases members, 0
  {
    if members == [] then []
    else [Member(members[0].key, members[0].serial, Arrange(members[0].value, f))] + ArrangeMembers(members[1..], f)
  }

  lemma {:induction false} ArrangeMembersAt(ms: seq<Member>, f: DumpFlags)
    ensures forall i :: 0 <= i < |ms| ==>
              ArrangeMembers(ms, f)[i] == Member(ms[i].key, ms[i].serial, Arrange(ms[i].value, f))
    decreases |ms|
  {
    hide Arrange;
    if ms == [] {
    } else {
      ArrangeMembersAt(ms[1..], f);
    }
  }

  lemma {:induction false} ArrangeElemsAt(vs: seq<Json>, f: DumpFlags)
    ensures forall i :: 0 <= i < |vs| ==> ArrangeElems(vs, f)[i] == Arrange(vs[i], f)
    decreases |vs|
  {
    hide Arrange;
    if vs == [] {
    } else {
      ArrangeElemsAt(vs[1..], f);
    }
  }

  lemma SameLength<T>(a: seq<T>, b: seq<T>)
    requires multiset(a) == multiset(b)
    ensures |a| == |b|
  {
    assert |multiset(a)| == |multiset(b)|;
  }

  lemma IndexInOther<T>(a: seq<T>, b: seq<T>, j: nat) returns (i: nat)
    requires multiset(a) == multiset(b) && j < |a|
    ensures i < |b| && b[i] == a[j]
  {
    assert a[j] in multiset(b);
    i :| 0 <= i < |b| && b[i] == a[j];
  }

  /** do_dump on a tree. */
  function Dump(v: Json, f: DumpFlags): (t: seq<Byte>) {
    Text(Arrange(v, f), f, 0)
  }

  // ------------------------------------------------------------------ equality

  function FindKey(ms: seq<Member>, key: seq<Byte>): (r: Option<nat>)
    ensures r.Some? ==> r.value < |ms| && ms[r.value].key == key
    ensures r.None? ==> forall m <- ms :: m.key != key
    decreases |ms|
  {
    if ms == [] then None
    else if ms[|ms| - 1].key == key then Some(|ms| - 1)
    else FindKey(ms[..|ms| - 1], key)
  }

  /** json_equal: members are matched by key, in whatever order they stand. */
  ghost predicate Equal(a: Json, b: Json)
    decreases a
  {
    match a
    case Array(elems) =>
      b.Array? && |b.elems| == |elems| && forall i :: 0 <= i < |elems| ==> Equal(elems[i], b.elems[i])
    case Object(members) =>
      && b.Object? && |b.members| == |members|
      && forall i :: 0 <= i < |members| ==>
           var found := FindKey(b.members, members[i].key);
           found.Some? && Equal(members[i].value, b.members[found.value].value)
    case _ => a == b
  }
}
