/** json_dumps followed by json_loads, on graphs in the heap. */
module JsonPipeline {
  import opened Bytes
  import opened Utf8
  import opened JsonString
  import opened Json
  import opened JsonParse
  import opened JsonStream
  import opened JsonLexer
  import opened JsonRoundTrip
  import opened JsonLoaded
  import opened JsonDump

  /** No reals; integers of 64 bits. Strings and keys may hold any bytes. */
  ghost predicate RealFree(shape: Shape) {
    forall n <- shape :: shape[n].Leaf? ==>
                           && !shape[n].scalar.Real?
                           && (shape[n].scalar.Integer? ==> INT_MIN <= shape[n].scalar.i <= INT_MAX)
  }

  ghost predicate BadKey(n: Node, shape: Shape)
    requires n in shape
  {
    shape[n].ObjectOf? && exists e <- shape[n].entries :: Decode(e.key).None?
  }

  ghost predicate EndsBadly(p: seq<Node>, shape: Shape) {
    p != [] && p[|p| - 1] in shape && (BadString(p[|p| - 1], shape) || BadKey(p[|p| - 1], shape))
  }

  lemma PathBelow(n: Node, c: Node, p: seq<Node>, shape: Shape)
    requires n in shape && c in Children(n, shape) && IsPath(c, p, shape)
    ensures IsPath(n, [n] + p, shape) && ([n] + p)[|p|] == p[|p| - 1]
  {
    assert ([n] + p)[1..] == p;
  }

  /** Nothing bad can be reached from a child if nothing bad can be reached from its parent. */
  lemma NothingBadBelow(n: Node, c: Node, shape: Shape)
    requires n in shape && c in Children(n, shape)
    requires forall p :: IsPath(n, p, shape) ==> !EndsBadly(p, shape)
    ensures forall p :: IsPath(c, p, shape) ==> !EndsBadly(p, shape)
  {
    hide BadKey; hide BadString;
    forall p | IsPath(c, p, shape) ensures !EndsBadly(p, shape) {
      PathBelow(n, c, p, shape);
      assert !EndsBadly([n] + p, shape);
    }
  }

  /** The tree that unfolds from a graph is a proper value if no bad string or key can be reached. */
  lemma {:induction false} ReachedIsProper(n: Node, v: Json, shape: Shape)
    requires Closed(shape) && RealFree(shape) && n in shape && Represents(n, v, shape)
    requires forall p :: IsPath(n, p, shape) ==> !EndsBadly(p, shape)
    ensures Proper(v)
    decreases v
  {
    hide Decode;
    assert IsPath(n, [n], shape);
    assert !EndsBadly([n], shape);
    match shape[n]
    case Leaf(_) =>
    case ArrayOf(children) =>
      forall e | e in v.elems ensures Proper(e) {
        var i :| 0 <= i < |v.elems| && v.elems[i] == e;
        ChildIn(n, i, shape);
        NothingBadBelow(n, children[i], shape);
        ReachedIsProper(children[i], e, shape);
      }
    case ObjectOf(entries) =>
      forall m | m in v.members ensures ValidText(m.key) && Proper(m.value) {
        var i :| 0 <= i < |v.members| && v.members[i] == m;
        ChildIn(n, i, shape);
        assert entries[i] in entries;
        NothingBadBelow(n, entries[i].value, shape);
        ReachedIsProper(entries[i].value, m.value, shape);
      }
  }

  lemma {:induction false} TreeIsClean(n: Node, v: Json, shape: Shape)
    requires Closed(shape) && RealFree(shape) && n in shape && Represents(n, v, shape)
    ensures Clean(v)
    decreases v
  {
    match shape[n]
    case Leaf(_) =>
    case ArrayOf(children) =>
      forall e | e in v.elems ensures Clean(e) {
        var i :| 0 <= i < |v.elems| && v.elems[i] == e;
        ChildIn(n, i, shape);
        TreeIsClean(children[i], e, shape);
      }
    case ObjectOf(entries) =>
      forall m | m in v.members ensures NulFree(m.key) && Clean(m.value) {
        var i :| 0 <= i < |v.members| && v.members[i] == m;
        ChildIn(n, i, shape);
        TreeIsClean(entries[i].value, m.value, shape);
      }
  }

  // ------------------------------------------------------------------ no bad key comes back

  ghost predicate KeysDecode(v: Json) {
    match v
    case Array(elems) => forall e <- elems :: KeysDecode(e)
    case Object(members) => forall m <- members :: Decode(m.key).Some? && KeysDecode(m.value)
    case _ => true
  }

  /** A value that equals a loaded one has only keys that are UTF-8. */
  lemma {:induction false} KeysOfEqual(a: Json, b: Json)
    requires Equal(a, b) && Loaded(b)
    ensures KeysDecode(a)
    decreases a
  {
    hide Decode; hide FindKey;
    match a
    case Array(elems) =>
      forall e | e in elems ensures KeysDecode(e) {
        var i :| 0 <= i < |elems| && elems[i] == e;
        KeysOfEqual(e, b.elems[i]);
      }
    case Object(members) =>
      forall m | m in members ensures Decode(m.key).Some? && KeysDecode(m.value) {
        var i :| 0 <= i < |members| && members[i] == m;
        var k := FindKey(b.members, m.key).value;
        assert b.members[k] in b.members;
        KeysOfEqual(m.value, b.members[k].value);
      }
    case _ =>
  }

  /** Every key that can be reached is a key of the tree. */
  lemma {:induction false} ReachedKeys(n: Node, v: Json, p: seq<Node>, shape: Shape)
    requires Closed(shape) && n in shape && Represents(n, v, shape) && KeysDecode(v) && IsPath(n, p, shape)
    ensures p[|p| - 1] in shape && !BadKey(p[|p| - 1], shape)
    decreases |p|
  {
    hide Decode;
    if |p| == 1 {
      if shape[n].ObjectOf? {
        forall e | e in shape[n].entries ensures Decode(e.key).Some? {
          var i :| 0 <= i < |shape[n].entries| && shape[n].entries[i] == e;
          assert v.members[i] in v.members;
        }
      }
    } else {
      var w := ChildTree(n, v, p[1], shape);
      ReachedKeys(p[1], w, p[1..], shape);
    }
  }

  lemma ChildTree(n: Node, v: Json, c: Node, shape: Shape) returns (w: Json)
    requires Closed(shape) && n in shape && Represents(n, v, shape) && KeysDecode(v) && c in Children(n, shape)
    ensures c in shape && Represents(c, w, shape) && KeysDecode(w)
  {
    hide Decode;
    match shape[n]
    case ArrayOf(children) =>
      var i :| 0 <= i < |children| && children[i] == c;
      ChildIn(n, i, shape);
      w := v.elems[i];
    case ObjectOf(entries) =>
      var i :| 0 <= i < |entries| && entries[i].value == c;
      ChildIn(n, i, shape);
      assert v.members[i] in v.members;
      w := v.members[i].value;
  }

  // ------------------------------------------------------------------ the law

  /** No cycle can be reached, and no string or key that is not UTF-8. */
  ghost predicate Unspoiled(json: Node, shape: Shape) {
    forall p :: IsPath(json, p, shape) ==> !Repeats(p) && !EndsBadly(p, shape)
  }

  ghost predicate DumpRefuses(json: Node, shape: Shape) {
    exists p :: IsPath(json, p, shape) && (Repeats(p) || (p[|p| - 1] in shape && BadString(p[|p| - 1], shape)))
  }

  lemma RefusedIsSpoiled(json: Node, shape: Shape)
    requires DumpRefuses(json, shape)
    ensures !Unspoiled(json, shape)
  {
    hide Repeats; hide BadString; hide BadKey;
    var p :| IsPath(json, p, shape) && (Repeats(p) || (p[|p| - 1] in shape && BadString(p[|p| - 1], shape)));
    assert Repeats(p) || EndsBadly(p, shape);
  }

  /** If the value that comes back equals the tree, nothing was spoiled. */
  lemma EqualUnspoiled(json: Node, v: Json, w: Json, shape: Shape)
    requires Closed(shape) && json in shape && Represents(json, v, shape) && Equal(v, w) && Loaded(w)
    requires !DumpRefuses(json, shape)
    ensures Unspoiled(json, shape)
  {
    hide Repeats; hide BadString; hide BadKey; hide Represents; hide Equal; hide Loaded;
    KeysOfEqual(v, w);
    forall p | IsPath(json, p, shape) ensures !Repeats(p) && !EndsBadly(p, shape) {
      ReachedKeys(json, v, p, shape);
    }
  }

  lemma UnspoiledIsProper(json: Node, v: Json, shape: Shape)
    requires Closed(shape) && RealFree(shape) && json in shape && Represents(json, v, shape) && Unspoiled(json, shape)
    ensures Proper(v)
  {
    hide Repeats; hide EndsBadly; hide Represents; hide Proper; hide IsPath;
    ReachedIsProper(json, v, shape);
  }

  lemma KindOfTree(json: Node, v: Json, shape: Shape)
    requires Closed(shape) && json in shape && Represents(json, v, shape)
    ensures shape[json].Leaf? <==> !v.Array? && !v.Object?
  {
  }

  lemma KindOfEqual(v: Json, w: Json)
    requires Equal(v, w)
    ensures v.Array? == w.Array? && v.Object? == w.Object?
  {
  }

  /** Loading the text of a tree gives an equal value exactly when the tree is unspoiled. */
  lemma DumpedComesBack(json: Node, v: Json, f: DumpFlags, lf: LoadFlags, shape: Shape)
    requires Closed(shape) && RealFree(shape) && json in shape && Represents(json, v, shape)
    requires !DumpRefuses(json, shape)
    requires NulFree(Dump(v, f)) && GoodLength(Dump(v, f)) == |Dump(v, f)|
    ensures var t := Dump(v, f);
            var r := Parse(t[..GoodLength(t)], GoodLength(t) < |t|, lf);
            && (r.Some? ==> Loaded(r.value))
            && (r.Some? && Equal(v, r.value) <==>
                  (lf.decodeAny || !shape[json].Leaf?) && Unspoiled(json, shape))
  {
    hide *;
    var t := Dump(v, f);
    var n := GoodLength(t);
    var r := Parse(t[..n], n < |t|, lf);
    KindOfTree(json, v, shape);
    if r.Some? {
      LoadReturnsLoaded(t, lf);
      if Equal(v, r.value) {
        EqualUnspoiled(json, v, r.value, shape);
        KindOfEqual(v, r.value);
        if !lf.decodeAny {
          ContainerIsParsed(t[..n], n < |t|, lf);
        }
      }
    }
    if (lf.decodeAny || !shape[json].Leaf?) && Unspoiled(json, shape) {
      UnspoiledIsProper(json, v, shape);
      LoadsWhatWasDumped(v, f, lf);
    }
  }

  lemma DumpRefusesIff(json: Node, shape: Shape)
    ensures DumpRefuses(json, shape) <==>
              exists p :: IsPath(json, p, shape) && (Repeats(p) || (p[|p| - 1] in shape && BadString(p[|p| - 1], shape)))
  {
  }

  /** A graph is dumped to a string and loaded again. A value equal to the tree the graph stands for comes back exactly
      when no cycle can be reached, every string and key that can be reached is UTF-8, and the flags admit what is
      not a container. */
  method DumpAndLoad(json: Node, f: DumpFlags, lf: LoadFlags, ghost shape: Shape) returns (r: Option<Json>)
    requires Closed(shape) && Marked({}, shape) && json in shape && RealFree(shape)
    modifies shape.Keys`visited
    ensures Marked({}, shape)
    ensures r.Some? ==> Represents(json, Tree(json, |shape|, shape), shape) && Loaded(r.value)
    ensures r.Some? && Equal(Tree(json, |shape|, shape), r.value) <==>
              Unspoiled(json, shape) && (!shape[json].Leaf? || (f.encodeAny && lf.decodeAny))
  {
    hide *;
    DumpRefusesIff(json, shape);
    var sink := new Sink();
    var ok := DumpCallback(json, f, sink, shape);
    if !ok {
      if DumpRefuses(json, shape) {
        RefusedIsSpoiled(json, shape);
      }
      return None;
    }
    ghost var v := Tree(json, |shape|, shape);
    TreeIsClean(json, v, shape);
    assert [] + Dump(v, f) == Dump(v, f);
    DumpedIsDelivered(v, f);
    DumpedComesBack(json, v, f, lf, shape);
    r := LoadString(sink.out, lf);
  }

  // ------------------------------------------------------------------ a key that is not UTF-8

  const COMPACT := DumpFlags(0, true, false, false, false, false, false)

  /** {0xFF: ":1,", 0xFE: 2}, whose keys are not UTF-8. */
  const BAD_KEYS :=
    Object([Member([0xFF], 0, String([0x3A, 0x31, 0x2C])), Member([0xFE], 1, Integer(2))])

  /** {":": 1, ",": 2}. */
  const OTHER_KEYS :=
    Object([Member([0x3A], 0, Integer(1)), Member([0x2C], 1, Integer(2))])

  ghost predicate Printable(s: seq<Byte>) {
    forall b <- s :: 0x20 <= b < 0x7F && b != QUOTE && b != BACKSLASH
  }

  lemma {:induction false} PrintableChars(s: seq<Byte>)
    requires Printable(s)
    ensures Decode(s) == Some(s) && CharsText(s, COMPACT) == s
    decreases |s|
  {
    if s == [] {
      assert CharsText([], COMPACT) == [];
    } else {
      assert s[0] in s && forall b <- s[1..] :: b in s;
      AsciiNext(s);
      hide Next;
      PrintableChars(s[1..]);
      assert s == [s[0]] + s[1..];
    }
  }

  lemma PrintableLiteral(s: seq<Byte>)
    requires Printable(s)
    ensures ValidText(s) && StringLiteral(s, COMPACT) == [QUOTE] + s + [QUOTE]
  {
    hide Decode; hide CharsText;
    PrintableChars(s);
    forall i | 0 <= i < |s| ensures s[i] != 0 {
      assert s[i] in s;
    }
  }

  lemma BrokenLiteral(b: Byte)
    requires b >= 0xF8
    ensures Decode([b]).None? && StringLiteral([b], COMPACT) == [QUOTE]
  {
    assert Next([b]).None?;
    assert GoodChars([b]) == [];
  }

  lemma TwoMembers(a: Member, b: Member)
    requires !a.value.Array? && !a.value.Object? && !b.value.Array? && !b.value.Object?
    ensures Dump(Object([a, b]), COMPACT) ==
            [0x7B] + StringLiteral(a.key, COMPACT) + [0x3A] + Text(a.value, COMPACT, 1) + [0x2C] +
            StringLiteral(b.key, COMPACT) + [0x3A] + Text(b.value, COMPACT, 1) + [0x7D]
  {
    hide StringLiteral; hide Text;
    var ms := [a, b];
    assert ms[1..] == [b] && [b][1..] == [];
    ArrangedScalar(a.value);
    ArrangedScalar(b.value);
    assert ArrangeMembers([b], COMPACT) == [b];
    assert ArrangeMembers(ms, COMPACT) == ms;
    assert MembersText([b], COMPACT, 0) == StringLiteral(b.key, COMPACT) + [0x3A] + Text(b.value, COMPACT, 1);
    ObjectTextIs(ms);
  }

  lemma ArrangedScalar(v: Json)
    requires !v.Array? && !v.Object?
    ensures Arrange(v, COMPACT) == v
  {
  }

  lemma ObjectTextIs(ms: seq<Member>)
    requires ms != []
    ensures Text(Object(ms), COMPACT, 0) == [0x7B] + MembersText(ms, COMPACT, 0) + [0x7D]
  {
    hide MembersText;
  }

  lemma OneDigit(i: int)
    requires 0 <= i < 10
    ensures Text(Integer(i), COMPACT, 1) == [0x30 + i]
  {
  }

  lemma SameText()
    ensures Dump(BAD_KEYS, COMPACT) == Dump(OTHER_KEYS, COMPACT)
  {
    hide Dump; hide Text; hide StringLiteral; hide ValidText; hide Decode;
    var value, colon, comma := [0x3A, 0x31, 0x2C], [0x3A], [0x2C];
    BrokenLiteral(0xFF);
    BrokenLiteral(0xFE);
    PrintableExamples();
    OneDigit(1);
    OneDigit(2);
    StringTextIs(value);
    TwoMembers(Member([0xFF], 0, String(value)), Member([0xFE], 1, Integer(2)));
    TwoMembers(Member(colon, 0, Integer(1)), Member(comma, 1, Integer(2)));
  }

  lemma PrintableExamples()
    ensures ValidText([0x3A]) && ValidText([0x2C])
    ensures StringLiteral([0x3A, 0x31, 0x2C], COMPACT) == [QUOTE, 0x3A, 0x31, 0x2C, QUOTE]
    ensures StringLiteral([0x3A], COMPACT) == [QUOTE, 0x3A, QUOTE]
    ensures StringLiteral([0x2C], COMPACT) == [QUOTE, 0x2C, QUOTE]
  {
    hide StringLiteral; hide ValidText;
    PrintableLiteral([0x3A, 0x31, 0x2C]);
    PrintableLiteral([0x3A]);
    PrintableLiteral([0x2C]);
  }

  lemma StringTextIs(s: seq<Byte>)
    ensures Text(String(s), COMPACT, 1) == StringLiteral(s, COMPACT)
  {
  }

  /** Keys that are not UTF-8 can spoil the text unnoticed: this object is dumped, the text is loaded, and what comes
      back is another value. */
  lemma BadKeysComeBackChanged(lf: LoadFlags)
    ensures Clean(BAD_KEYS)
    ensures var r := Parse(Dump(BAD_KEYS, COMPACT), false, lf);
            r.Some? && Equal(OTHER_KEYS, r.value) && !Equal(BAD_KEYS, r.value)
  {
    hide Dump; hide Parse; hide Equal; hide Proper; hide Clean; hide Loaded; hide GoodLength; hide Renumber; hide Arrange;
    SameText();
    OtherIsProper();
    BadIsClean();
    RoundTrip(OTHER_KEYS, COMPACT, lf);
    var t := Dump(OTHER_KEYS, COMPACT);
    LoadsWhatWasDumped(OTHER_KEYS, COMPACT, lf);
    assert t[..|t|] == t;
    LoadReturnsLoaded(t, lf);
    BadEqualsNothingLoaded(Parse(t, false, lf).value);
  }

  lemma OtherIsProper()
    ensures Proper(OTHER_KEYS)
  {
    PrintableExamples();
    hide ValidText;
  }

  lemma BadIsClean()
    ensures Clean(BAD_KEYS)
  {
  }

  lemma BadEqualsNothingLoaded(v: Json)
    requires Loaded(v)
    ensures !Equal(BAD_KEYS, v)
  {
    hide Equal; hide Loaded;
    if Equal(BAD_KEYS, v) {
      KeysOfEqual(BAD_KEYS, v);
      BrokenLiteral(0xFF);
    }
  }
}
