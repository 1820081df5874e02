/** do_dump on a heap of arrays and objects, with the `visited` marks that refuse cycles. */
module JsonDump {
  import opened Bytes
  import opened Utf8
  import opened JsonString
  import opened Json

  datatype Content =
    | Leaf(scalar: Json)
    | ArrayOf(children: seq<Node>)
    | ObjectOf(entries: seq<Entry>)

  /** A member of an object, in the order of the hash table. */
  datatype Entry = Entry(key: CString, serial: nat, value: Node)

  class Node {
    var content: Content
    var visited: bool

    constructor (content: Content)
      ensures this.content == content && !visited
    {
      this.content, visited := content, false;
    }
  }

  ghost predicate ScalarOk(v: Json) {
    !v.Array? && !v.Object? && (v.String? ==> NulFree(v.s))
  }

  /** What the containers of a graph hold: no dump changes it. */
  type Shape = map<Node, Content>

  ghost function Children(n: Node, shape: Shape): set<Node>
    requires n in shape
  {
    match shape[n]
    case Leaf(_) => {}
    case ArrayOf(children) => set c | c in children
    case ObjectOf(entries) => set e | e in entries :: e.value
  }

  ghost predicate DistinctEntries(entries: seq<Entry>) {
    forall i, j :: 0 <= i < j < |entries| ==> entries[i].key != entries[j].key && entries[i].serial != entries[j].serial
  }

  /** The graph is closed under "contains"; what its nodes hold is well formed. */
  ghost predicate Closed(shape: Shape)
  {
    forall n <- shape ::
      && Children(n, shape) <= shape.Keys
      && (shape[n].Leaf? ==> ScalarOk(shape[n].scalar))
      && (shape[n].ObjectOf? ==> DistinctEntries(shape[n].entries))
  }

  // ------------------------------------------------------------------ paths

  ghost predicate IsPath(n: Node, older p: seq<Node>, shape: Shape)
    decreases |p|
  {
    p != [] && p[0] == n && n in shape && (|p| > 1 ==> p[1] in Children(n, shape) && IsPath(p[1], p[1..], shape))
  }

  ghost predicate Repeats(p: seq<Node>) {
    exists i, j :: 0 <= i < j < |p| && p[i] == p[j]
  }

  ghost predicate Meets(p: seq<Node>, stack: set<Node>) {
    exists i :: 0 <= i < |p| && p[i] in stack
  }

  ghost predicate BadString(n: Node, shape: Shape)
    requires n in shape
  {
    shape[n].Leaf? && shape[n].scalar.String? && Decode(shape[n].scalar.s).None?
  }

  /** A reason to refuse `n` while the nodes of `stack` are being dumped. */
  ghost predicate Refutes(n: Node, older p: seq<Node>, stack: set<Node>, shape: Shape)
    requires Closed(shape)
  {
    IsPath(n, p, shape) && (Meets(p, stack) || Repeats(p) || (p[|p| - 1] in shape && BadString(p[|p| - 1], shape)))
  }

  lemma {:induction false} PathStays(n: Node, p: seq<Node>, shape: Shape)
    requires IsPath(n, p, shape)
    ensures forall i :: 0 <= i < |p| ==> p[i] in shape
    decreases |p|
  {
    if |p| == 1 {
    } else {
      PathStays(p[1], p[1..], shape);
      assert forall i :: 1 <= i < |p| ==> p[i] == p[1..][i - 1];
    }
  }

  ghost predicate Refused(n: Node, stack: set<Node>, shape: Shape)
    requires Closed(shape)
  {
    exists p :: Refutes(n, p, stack, shape)
  }

  /** A container is refused when one of its children is refused below it. */
  lemma RefusedByChild(n: Node, c: Node, stack: set<Node>, shape: Shape)
    requires Closed(shape) && n in shape && c in Children(n, shape) && Refused(c, stack + {n}, shape)
    ensures Refused(n, stack, shape)
  {
    var q :| Refutes(c, q, stack + {n}, shape);
    var p := [n] + q;
    assert p[1..] == q;
    if Meets(q, stack + {n}) {
      var i :| 0 <= i < |q| && q[i] in stack + {n};
      assert p[i + 1] == q[i];
      if q[i] == n {
        assert p[0] == p[i + 1];
        assert Repeats(p);
      } else {
        assert Meets(p, stack);
      }
    } else if Repeats(q) {
      var i, j :| 0 <= i < j < |q| && q[i] == q[j];
      assert p[i + 1] == p[j + 1];
      assert Repeats(p);
    }
    assert Refutes(n, p, stack, shape);
  }

  lemma NotRefused(n: Node, stack: set<Node>, shape: Shape)
    requires Closed(shape) && n in shape && n !in stack && !shape[n].Leaf?
    requires forall c <- Children(n, shape) :: !Refused(c, stack + {n}, shape)
    ensures !Refused(n, stack, shape)
  {
    forall p | IsPath(n, p, shape) ensures !Refutes(n, p, stack, shape) {
      if |p| > 1 {
        var q := p[1..];
        assert !Refutes(p[1], q, stack + {n}, shape);
        assert forall i :: 0 <= i < |q| ==> q[i] !in stack + {n};
        assert forall i :: 1 <= i < |p| ==> p[i] == q[i - 1];
        assert forall i, j :: 1 <= i < j < |p| ==> p[i] != p[j] by {
          forall i, j | 1 <= i < j < |p| ensures p[i] != p[j] {
            assert q[i - 1] != q[j - 1];
          }
        }
        assert !Meets(p, stack) && !Repeats(p);
      }
    }
  }

  lemma StackedRefused(n: Node, stack: set<Node>, shape: Shape)
    requires Closed(shape) && n in shape && n in stack
    ensures Refused(n, stack, shape)
  {
    assert Refutes(n, [n], stack, shape);
  }

  lemma LeafRefused(n: Node, stack: set<Node>, shape: Shape)
    requires Closed(shape) && n in shape && n !in stack && shape[n].Leaf?
    ensures Refused(n, stack, shape) <==> BadString(n, shape)
  {
    assert IsPath(n, [n], shape);
    if BadString(n, shape) {
      assert Refutes(n, [n], stack, shape);
    }
  }

  // ------------------------------------------------------------------ the value a node stands for

  /** `v` is the tree that unfolds from `n`. */
  ghost predicate Represents(n: Node, v: Json, shape: Shape)
    requires Closed(shape) && n in shape
    decreases v
  {
    match shape[n]
    case Leaf(scalar) => v == scalar
    case ArrayOf(children) =>
      && v.Array? && |v.elems| == |children|
      && forall i :: 0 <= i < |children| ==>
           (ChildIn(n, i, shape); Represents(children[i], v.elems[i], shape))
    case ObjectOf(entries) =>
      && v.Object? && |v.members| == |entries|
      && forall i :: 0 <= i < |entries| ==>
           && v.members[i].key == entries[i].key && v.members[i].serial == entries[i].serial
           && (ChildIn(n, i, shape); Represents(entries[i].value, v.members[i].value, shape))
  }

  lemma ChildIn(n: Node, i: nat, shape: Shape)
    requires Closed(shape) && n in shape
    ensures shape[n].ArrayOf? && i < |shape[n].children| ==>
              shape[n].children[i] in Children(n, shape) && shape[n].children[i] in shape
    ensures shape[n].ObjectOf? && i < |shape[n].entries| ==>
              shape[n].entries[i].value in Children(n, shape) && shape[n].entries[i].value in shape
  {
    if shape[n].ArrayOf? && i < |shape[n].children| {
      assert shape[n].children[i] in Children(n, shape);
    }
    if shape[n].ObjectOf? && i < |shape[n].entries| {
      assert shape[n].entries[i] in shape[n].entries;
      assert shape[n].entries[i].value in Children(n, shape);
    }
  }

  /** The unfolding of `n`, cut off below `height`. */
  ghost function Tree(n: Node, height: nat, shape: Shape): (v: Json)
    requires Closed(shape) && n in shape
    decreases height, 0
  {
    match shape[n]
    case Leaf(scalar) => scalar
    case ArrayOf(children) =>
      if height == 0 then Null
      else
        assert forall c <- children :: c in Children(n, shape);
        Array(TreeElems(children, height - 1, shape))
    case ObjectOf(entries) =>
      if height == 0 then Null
      else
        assert forall e <- entries :: e.value in Children(n, shape);
        Object(TreeMembers(entries, height - 1, shape))
  }

  ghost function TreeElems(children: seq<Node>, height: nat, shape: Shape): (vs: seq<Json>)
    requires Closed(shape) && forall c <- children :: c in shape
    ensures |vs| == |children|
    ensures forall i :: 0 <= i < |children| ==> vs[i] == Tree(children[i], height, shape)
    decreases height, |children| + 1
  {
    if children == [] then [] else [Tree(children[0], height, shape)] + TreeElems(children[1..], height, shape)
  }

  ghost function TreeMembers(entries: seq<Entry>, height: nat, shape: Shape): (ms: seq<Member>)
    requires Closed(shape) && forall e <- entries :: e.value in shape
    ensures |ms| == |entries|
    ensures forall i :: 0 <= i < |entries| ==>
              ms[i] == Member(entries[i].key, entries[i].serial, Tree(entries[i].value, height, shape))
    decreases height, |entries| + 1
  {
    if entries == [] then []
    else
      [Member(entries[0].key, entries[0].serial, Tree(entries[0].value, height, shape))] +
      TreeMembers(entries[1..], height, shape)
  }

  // ------------------------------------------------------------------ the order of members

  function Lookup(entries: seq<Entry>, key: seq<Byte>): (e: Option<Entry>)
    ensures e.Some? ==> e.value in entries && e.value.key == key
    ensures e.None? ==> forall x <- entries :: x.key != key
  {
    if entries == [] then None
    else if entries[0].key == key then Some(entries[0])
    else Lookup(entries[1..], key)
  }

  ghost predicate SameHeads(a: seq<Member>, b: seq<Member>) {
    |a| == |b| && forall i :: 0 <= i < |a| ==> a[i].key == b[i].key && a[i].serial == b[i].serial
  }

  lemma ConsSameHeads(m: Member, ms: seq<Member>, m': Member, ms': seq<Member>)
    requires m.key == m'.key && m.serial == m'.serial && SameHeads(ms, ms')
    ensures SameHeads([m] + ms, [m'] + ms')
  {
  }

  lemma {:induction false} InsertSameHeads(m: Member, ms: seq<Member>, m': Member, ms': seq<Member>, f: DumpFlags)
    requires m.key == m'.key && m.serial == m'.serial && SameHeads(ms, ms')
    ensures SameHeads(InsertOrdered(m, ms, f), InsertOrdered(m', ms', f))
    decreases |ms|
  {
    hide StrLess;
    if ms != [] && !Before(m, ms[0], f) {
      InsertSameHeads(m, ms[1..], m', ms'[1..], f);
      hide SameHeads;
      ConsSameHeads(ms[0], InsertOrdered(m, ms[1..], f), ms'[0], InsertOrdered(m', ms'[1..], f));
    } else {
      hide SameHeads;
      ConsSameHeads(m, ms, m', ms');
    }
  }

  /** Sorting looks at keys and serials alone. */
  lemma {:induction false} OrderedSameHeads(ms: seq<Member>, ms': seq<Member>, f: DumpFlags)
    requires SameHeads(ms, ms')
    ensures SameHeads(Ordered(ms, f), Ordered(ms', f))
    decreases |ms|
  {
    if (!f.sortKeys && !f.preserveOrder) || ms == [] {
    } else {
      OrderedSameHeads(ms[1..], ms'[1..], f);
      InsertSameHeads(ms[0], Ordered(ms[1..], f), ms'[0], Ordered(ms'[1..], f), f);
    }
  }

  ghost predicate HeadsOf(keys: seq<Member>, entries: seq<Entry>) {
    |keys| == |entries| && forall i :: 0 <= i < |keys| ==> keys[i].key == entries[i].key && keys[i].serial == entries[i].serial
  }

  /** The entry dumped at position `j`: with a sorting flag, the sorted keys are looked up again. */
  function Visited(entries: seq<Entry>, sorted: seq<Member>, j: nat, f: DumpFlags): (e: Option<Entry>)
    requires j < |sorted| == |entries|
  {
    if f.sortKeys || f.preserveOrder then Lookup(entries, sorted[j].key) else Some(entries[j])
  }

  /** The entry visited at position `j` is the one the arranged object lists there. */
  lemma VisitedIsArranged(entries: seq<Entry>, keys: seq<Member>, ms: seq<Member>, j: nat, f: DumpFlags)
    requires DistinctEntries(entries) && HeadsOf(keys, entries) && HeadsOf(ms, entries)
    requires j < |entries|
    ensures |Ordered(keys, f)| == |Ordered(ArrangeMembers(ms, f), f)| == |entries|
    ensures exists i :: 0 <= i < |entries| && Visited(entries, Ordered(keys, f), j, f) == Some(entries[i])
              && Ordered(ArrangeMembers(ms, f), f)[j] == Member(ms[i].key, ms[i].serial, Arrange(ms[i].value, f))
  {
    hide InsertOrdered; hide Arrange; hide ArrangeMembers;
    var am := ArrangeMembers(ms, f);
    var om, sorted := Ordered(am, f), Ordered(keys, f);
    ArrangeMembersAt(ms, f);
    OrderedSameHeads(keys, am, f);
    SameLength(om, am);
    if f.sortKeys || f.preserveOrder {
      hide Ordered;
      var i := IndexInOther(om, am, j);
      var e := Lookup(entries, sorted[j].key);
      assert entries[i].key == sorted[j].key;
      assert entries[i] in entries;
      var k :| 0 <= k < |entries| && entries[k] == e.value;
      assert k == i;
    } else {
      assert Visited(entries, sorted, j, f) == Some(entries[j]);
      assert om[j] == Member(ms[j].key, ms[j].serial, Arrange(ms[j].value, f));
    }
  }

  // ------------------------------------------------------------------ dumping

  lemma SpacesGrow(i: nat, n: nat)
    ensures Spaces((i + 1) * n) == Spaces(i * n) + Spaces(n)
  {
    assert (i + 1) * n == i * n + n;
  }

  method DumpIndent(f: DumpFlags, depth: nat, space: bool, sink: Sink)
    modifies sink
    ensures sink.out == old(sink.out) + Indent(f, depth, space)
  {
    if f.indent > 0 {
      sink.Dump([0x0A]);
      for i := 0 to depth
        invariant sink.out == old(sink.out) + [0x0A] + Spaces(i * f.indent)
      {
        sink.Dump(Spaces(f.indent));
        SpacesGrow(i, f.indent);
      }
    } else if space && !f.compact {
      sink.Dump([0x20]);
    }
  }

  ghost function AfterItem(last: bool, f: DumpFlags, depth: nat): seq<Byte> {
    if last then Indent(f, depth, false) else [0x2C] + Indent(f, depth + 1, true)
  }

  method DumpSeparator(last: bool, f: DumpFlags, depth: nat, sink: Sink)
    modifies sink
    ensures sink.out == old(sink.out) + AfterItem(last, f, depth)
  {
    if last {
      DumpIndent(f, depth, false, sink);
    } else {
      sink.Dump([0x2C]);
      DumpIndent(f, depth + 1, true, sink);
    }
  }

  /** The graph is laid out as `shape` and the visited marks are those of the containers being dumped. */
  ghost predicate Marked(stack: set<Node>, shape: Shape)
    reads shape.Keys
  {
    forall n <- shape :: n.content == shape[n] && (n.visited <==> n in stack)
  }

  /** Only containers being dumped are marked. */
  ghost predicate Within(stack: set<Node>, shape: Shape)
    reads shape.Keys
  {
    forall n <- shape :: n.content == shape[n] && (n.visited ==> n in stack)
  }

  lemma MarkedWithin(stack: set<Node>, shape: Shape)
    requires Marked(stack, shape)
    ensures Within(stack, shape)
  {
  }

  method Enter(json: Node, ghost stack: set<Node>, ghost shape: Shape)
    requires json in shape && Marked(stack, shape)
    modifies json`visited
    ensures Marked(stack + {json}, shape)
  {
    json.visited := true;
  }

  method Leave(json: Node, ghost stack: set<Node>, ghost shape: Shape)
    requires json in shape && json !in stack && Within(stack + {json}, shape)
    modifies json`visited
    ensures Within(stack, shape)
    ensures old(Marked(stack + {json}, shape)) ==> Marked(stack, shape)
  {
    json.visited := false;
  }

  ghost predicate Ready(json: Node, stack: set<Node>, shape: Shape) {
    Closed(shape) && json in shape && forall n <- stack :: n in shape && !shape[n].Leaf?
  }

  /** How deep a dump can still go. */
  ghost function Height(stack: set<Node>, shape: Shape): nat {
    |shape.Keys - stack|
  }

  ghost function TextAt(n: Node, f: DumpFlags, depth: nat, height: nat, shape: Shape): (t: seq<Byte>)
    requires Closed(shape) && n in shape
  {
    Text(Arrange(Tree(n, height, shape), f), f, depth)
  }

  method DumpScalar(scalar: Json, f: DumpFlags, depth: nat, sink: Sink) returns (ok: bool)
    requires ScalarOk(scalar)
    modifies sink
    ensures ok <==> !(scalar.String? && Decode(scalar.s).None?)
    ensures ok ==> sink.out == old(sink.out) + Text(Arrange(scalar, f), f, depth)
  {
    match scalar
    case Null => sink.Dump([0x6E, 0x75, 0x6C, 0x6C]); return true;
    case True => sink.Dump([0x74, 0x72, 0x75, 0x65]); return true;
    case False => sink.Dump([0x66, 0x61, 0x6C, 0x73, 0x65]); return true;
    case Integer(i) => sink.Dump(IntegerText(i)); return true;
    case Real(lexeme) => sink.Dump(lexeme); return true;
    case String(s) => ok := DumpString(s, sink, f);
  }

  method DoDump(json: Node, f: DumpFlags, depth: nat, sink: Sink, ghost stack: set<Node>, ghost shape: Shape)
    returns (ok: bool)
    requires Ready(json, stack, shape) && Marked(stack, shape)
    modifies shape.Keys`visited, sink
    ensures ok <==> !Refused(json, stack, shape)
    ensures ok ==> Marked(stack, shape)
    ensures Within(stack, shape)
    ensures ok ==> Represents(json, Tree(json, Height(stack, shape), shape), shape)
    ensures ok ==> sink.out == old(sink.out) + TextAt(json, f, depth, Height(stack, shape), shape)
    decreases Height(stack, shape), 2
  {
    hide Refused;
    hide Arrange;
    hide Text;
    match json.content
    case Leaf(scalar) =>
      LeafRefused(json, stack, shape);
      ok := DumpScalar(scalar, f, depth, sink);
    case ArrayOf(children) =>
      ok := DumpArray(json, children, f, depth, sink, stack, shape);
    case ObjectOf(entries) =>
      ok := DumpObject(json, entries, f, depth, sink, stack, shape);
  }

  ghost function ElemsFrom(elems: seq<Json>, i: nat, f: DumpFlags, depth: nat): (t: seq<Byte>)
    requires i <= |elems|
  {
    if i == |elems| then [] else ElemsText(elems[i..], f, depth)
  }

  lemma ElemsFromStep(elems: seq<Json>, i: nat, f: DumpFlags, depth: nat)
    requires i < |elems|
    ensures ElemsFrom(elems, i, f, depth) ==
            Text(elems[i], f, depth + 1) +
            AfterItem(i == |elems| - 1, f, depth) +
            ElemsFrom(elems, i + 1, f, depth)
  {
    hide Text;
    hide Indent;
    assert elems[i..][1..] == elems[i + 1..];
  }

  lemma ElemsFromEnds(elems: seq<Json>, f: DumpFlags, depth: nat)
    requires elems != []
    ensures ElemsFrom(elems, 0, f, depth) == ElemsText(elems, f, depth)
    ensures ElemsFrom(elems, |elems|, f, depth) == []
  {
    assert elems[0..] == elems;
  }

  /** The elements of an array node, arranged for dumping. */
  ghost function ArrangedElems(json: Node, height: nat, f: DumpFlags, shape: Shape): (vs: seq<Json>)
    requires Closed(shape) && json in shape && shape[json].ArrayOf?
    ensures |vs| == |shape[json].children|
    ensures forall i :: 0 <= i < |vs| ==>
              (ChildIn(json, i, shape); vs[i] == Arrange(Tree(shape[json].children[i], height, shape), f))
  {
    assert forall c <- shape[json].children :: c in Children(json, shape);
    var vs := TreeElems(shape[json].children, height, shape);
    ArrangeElemsAt(vs, f);
    ArrangeElems(vs, f)
  }

  /** The child has been dumped below `inner`. */
  ghost predicate ChildDone(c: Node, inner: set<Node>, shape: Shape)
    requires Closed(shape)
  {
    c in shape && !Refused(c, inner, shape) && Represents(c, Tree(c, Height(inner, shape), shape), shape)
  }

  ghost predicate AllDone(json: Node, inner: set<Node>, shape: Shape)
    requires Closed(shape) && json in shape
  {
    forall c <- Children(json, shape) :: ChildDone(c, inner, shape)
  }

  ghost predicate SomeRefused(json: Node, inner: set<Node>, shape: Shape)
    requires Closed(shape) && json in shape
  {
    exists c <- Children(json, shape) :: c in shape && Refused(c, inner, shape)
  }

  lemma ChildrenDecide(json: Node, stack: set<Node>, shape: Shape)
    requires Ready(json, stack, shape) && json !in stack && !shape[json].Leaf?
    ensures AllDone(json, stack + {json}, shape) ==> !Refused(json, stack, shape)
    ensures SomeRefused(json, stack + {json}, shape) ==> Refused(json, stack, shape)
  {
    hide Refused;
    if AllDone(json, stack + {json}, shape) {
      NotRefused(json, stack, shape);
    }
    if SomeRefused(json, stack + {json}, shape) {
      var c :| c in Children(json, shape) && c in shape && Refused(c, stack + {json}, shape);
      RefusedByChild(json, c, stack, shape);
    }
  }

  lemma AllElemsDone(json: Node, inner: set<Node>, shape: Shape)
    requires Closed(shape) && json in shape && shape[json].ArrayOf?
    requires forall k :: 0 <= k < |shape[json].children| ==> ChildDone(shape[json].children[k], inner, shape)
    ensures AllDone(json, inner, shape)
  {
    hide ChildDone;
  }

  lemma ReadyBelow(json: Node, i: nat, inner: set<Node>, shape: Shape)
    requires Ready(json, inner, shape)
    ensures shape[json].ArrayOf? && i < |shape[json].children| ==>
              && Ready(shape[json].children[i], inner, shape)
              && (Refused(shape[json].children[i], inner, shape) ==> SomeRefused(json, inner, shape))
    ensures shape[json].ObjectOf? && i < |shape[json].entries| ==>
              && Ready(shape[json].entries[i].value, inner, shape)
              && (Refused(shape[json].entries[i].value, inner, shape) ==> SomeRefused(json, inner, shape))
  {
    hide Refused;
    ChildIn(json, i, shape);
  }

  lemma ArrayRepresented(json: Node, inner: set<Node>, shape: Shape)
    requires Closed(shape) && json in shape && shape[json].ArrayOf?
    requires AllDone(json, inner, shape)
    ensures Represents(json, Tree(json, Height(inner, shape) + 1, shape), shape)
  {
    hide Refused; hide Height;
    var children := shape[json].children;
    var v := Tree(json, Height(inner, shape) + 1, shape);
    forall i | 0 <= i < |children|
      ensures children[i] in shape && Represents(children[i], v.elems[i], shape)
    {
      ChildIn(json, i, shape);
      assert ChildDone(children[i], inner, shape);
    }
  }

  lemma ArrayText(json: Node, f: DumpFlags, depth: nat, height: nat, shape: Shape)
    requires Closed(shape) && json in shape && shape[json].ArrayOf?
    ensures var vs := ArrangedElems(json, height, f, shape);
            TextAt(json, f, depth, height + 1, shape) ==
              if vs == [] then [0x5B, 0x5D]
              else [0x5B] + Indent(f, depth + 1, false) + ElemsText(vs, f, depth) + [0x5D]
  {
    hide ElemsText; hide Indent;
  }

  lemma InnerSmaller(json: Node, stack: set<Node>, shape: Shape)
    requires json in shape && json !in stack
    ensures Height(stack + {json}, shape) == Height(stack, shape) - 1
  {
    assert shape.Keys - stack == (shape.Keys - (stack + {json})) + {json};
  }

  /** The elements of an array that is itself on the stack. */
  method DumpElems(json: Node, children: seq<Node>, f: DumpFlags, depth: nat, sink: Sink,
                   ghost inner: set<Node>, ghost shape: Shape) returns (ok: bool)
    requires Ready(json, inner, shape) && Marked(inner, shape)
    requires json in inner && shape[json] == ArrayOf(children) && children != []
    modifies shape.Keys`visited, sink
    ensures if ok then AllDone(json, inner, shape) else SomeRefused(json, inner, shape)
    ensures ok ==> Marked(inner, shape)
    ensures Within(inner, shape)
    ensures ok ==>
              sink.out == old(sink.out) + ElemsText(ArrangedElems(json, Height(inner, shape), f, shape), f, depth)
    decreases Height(inner, shape), 3
  {
    hide Refused; hide Represents; hide Tree; hide Arrange; hide Text; hide ElemsText; hide ElemsFrom; hide AfterItem;
    hide Closed; hide Children; hide AllDone; hide SomeRefused; hide ArrangedElems; hide Height;
    ghost var height := Height(inner, shape);
    ghost var arranged := ArrangedElems(json, height, f, shape);
    ElemsFromEnds(arranged, f, depth);
    for i := 0 to |children|
      invariant Marked(inner, shape)
      invariant forall k :: 0 <= k < i ==> ChildDone(children[k], inner, shape)
      invariant sink.out + ElemsFrom(arranged, i, f, depth) == old(sink.out) + ElemsFrom(arranged, 0, f, depth)
    {
      ReadyBelow(json, i, inner, shape);
      var done := DoDump(children[i], f, depth + 1, sink, inner, shape);
      if !done {
        return false;
      }
      assert ChildDone(children[i], inner, shape);
      ElemsFromStep(arranged, i, f, depth);
      DumpSeparator(i == |children| - 1, f, depth, sink);
    }
    AllElemsDone(json, inner, shape);
    return true;
  }

  method OpenArray(json: Node, children: seq<Node>, f: DumpFlags, depth: nat, sink: Sink,
                   ghost inner: set<Node>, ghost shape: Shape) returns (ok: bool)
    requires Ready(json, inner, shape) && Marked(inner, shape)
    requires json in inner && shape[json] == ArrayOf(children)
    modifies shape.Keys`visited, sink
    ensures if ok then AllDone(json, inner, shape) else SomeRefused(json, inner, shape)
    ensures ok ==> Marked(inner, shape)
    ensures Within(inner, shape)
    ensures ok ==>
              sink.out + [0x5D] == old(sink.out) + TextAt(json, f, depth, Height(inner, shape) + 1, shape)
    decreases Height(inner, shape), 4
  {
    hide Refused; hide Represents; hide Indent; hide TextAt; hide AllDone; hide SomeRefused;
    hide Children; hide Closed; hide ChildDone; hide ArrangedElems; hide Height; hide Text; hide ElemsText;
    hide Marked; hide Within;
    ArrayText(json, f, depth, Height(inner, shape), shape);
    ghost var before := sink.out;
    sink.Dump([0x5B]);
    if |children| == 0 {
      MarkedWithin(inner, shape);
      AllElemsDone(json, inner, shape);
      assert before + [0x5B] + [0x5D] == before + [0x5B, 0x5D];
      return true;
    }
    DumpIndent(f, depth + 1, false, sink);
    ok := DumpElems(json, children, f, depth, sink, inner, shape);
    ghost var body := ElemsText(ArrangedElems(json, Height(inner, shape), f, shape), f, depth);
    Bracketed(before, [0x5B], Indent(f, depth + 1, false), body, [0x5D]);
  }

  lemma Bracketed(before: seq<Byte>, open: seq<Byte>, indent: seq<Byte>, body: seq<Byte>, close: seq<Byte>)
    ensures before + open + indent + body + close == before + (open + indent + body + close)
  {
  }

  method DumpArray(json: Node, children: seq<Node>, f: DumpFlags, depth: nat, sink: Sink,
                   ghost stack: set<Node>, ghost shape: Shape) returns (ok: bool)
    requires Ready(json, stack, shape) && Marked(stack, shape) && shape[json] == ArrayOf(children)
    modifies shape.Keys`visited, sink
    ensures ok <==> !Refused(json, stack, shape)
    ensures ok ==> Marked(stack, shape)
    ensures Within(stack, shape)
    ensures ok ==> Represents(json, Tree(json, Height(stack, shape), shape), shape)
    ensures ok ==> sink.out == old(sink.out) + TextAt(json, f, depth, Height(stack, shape), shape)
    decreases Height(stack, shape), 1
  {
    hide Refused; hide Represents; hide Indent; hide TextAt; hide AllDone; hide SomeRefused;
    hide Children; hide Closed; hide ChildDone; hide ArrangedElems; hide Height; hide Text; hide ElemsText;
    if json.visited {
      json.visited := false;
      StackedRefused(json, stack, shape);
      return false;
    }
    Enter(json, stack, shape);
    hide Marked; hide Within;
    ghost var inner := stack + {json};
    InnerSmaller(json, stack, shape);
    ChildrenDecide(json, stack, shape);
    ok := OpenArray(json, children, f, depth, sink, inner, shape);
    Leave(json, stack, shape);
    if ok {
      sink.Dump([0x5D]);
      ArrayRepresented(json, inner, shape);
    }
  }

  ghost function MembersFrom(members: seq<Member>, i: nat, f: DumpFlags, depth: nat): (t: seq<Byte>)
    requires i <= |members|
  {
    if i == |members| then [] else MembersText(members[i..], f, depth)
  }

  lemma MembersFromStep(members: seq<Member>, i: nat, f: DumpFlags, depth: nat)
    requires i < |members|
    ensures MembersFrom(members, i, f, depth) ==
            StringLiteral(members[i].key, f) + Separator(f) + Text(members[i].value, f, depth + 1) +
            AfterItem(i == |members| - 1, f, depth) +
            MembersFrom(members, i + 1, f, depth)
  {
    hide Text;
    hide Indent;
    hide StringLiteral;
    hide Separator;
    assert members[i..][1..] == members[i + 1..];
  }

  /** The keys of the object with their serials, ready for qsort. */
  method CollectKeys(entries: seq<Entry>) returns (keys: seq<Member>)
    ensures HeadsOf(keys, entries)
  {
    keys := [];
    for i := 0 to |entries|
      invariant |keys| == i
      invariant forall k :: 0 <= k < i ==> keys[k].key == entries[k].key && keys[k].serial == entries[k].serial
    {
      keys := keys + [Member(entries[i].key, entries[i].serial, Null)];
    }
  }

  lemma MembersFromEnds(members: seq<Member>, f: DumpFlags, depth: nat)
    requires members != []
    ensures MembersFrom(members, 0, f, depth) == MembersText(members, f, depth)
    ensures MembersFrom(members, |members|, f, depth) == []
  {
    assert members[0..] == members;
  }

  ghost function MembersOf(json: Node, height: nat, shape: Shape): (ms: seq<Member>)
    requires Closed(shape) && json in shape && shape[json].ObjectOf?
    ensures HeadsOf(ms, shape[json].entries)
    ensures forall i :: 0 <= i < |ms| ==>
              (ChildIn(json, i, shape); ms[i].value == Tree(shape[json].entries[i].value, height, shape))
  {
    assert forall e <- shape[json].entries :: e.value in Children(json, shape);
    TreeMembers(shape[json].entries, height, shape)
  }

  /** The members of an object node, arranged for dumping. */
  ghost function ArrangedMembers(json: Node, height: nat, f: DumpFlags, shape: Shape): (ms: seq<Member>)
    requires Closed(shape) && json in shape && shape[json].ObjectOf?
    ensures |ms| == |shape[json].entries|
  {
    var ms := Ordered(ArrangeMembers(MembersOf(json, height, shape), f), f);
    assert |multiset(ms)| == |shape[json].entries|;
    ms
  }

  lemma ObjectText(json: Node, f: DumpFlags, depth: nat, height: nat, shape: Shape)
    requires Closed(shape) && json in shape && shape[json].ObjectOf?
    ensures var ms := ArrangedMembers(json, height, f, shape);
            TextAt(json, f, depth, height + 1, shape) ==
              if ms == [] then [0x7B, 0x7D]
              else [0x7B] + Indent(f, depth + 1, false) + MembersText(ms, f, depth) + [0x7D]
  {
    hide MembersText; hide Indent; hide Ordered; hide ArrangeMembers;
  }

  lemma ObjectRepresented(json: Node, inner: set<Node>, shape: Shape)
    requires Closed(shape) && json in shape && shape[json].ObjectOf?
    requires AllDone(json, inner, shape)
    ensures Represents(json, Tree(json, Height(inner, shape) + 1, shape), shape)
  {
    hide Refused; hide Height;
    var entries := shape[json].entries;
    var v := Tree(json, Height(inner, shape) + 1, shape);
    forall i | 0 <= i < |entries|
      ensures entries[i].value in shape && Represents(entries[i].value, v.members[i].value, shape)
    {
      ChildIn(json, i, shape);
      assert ChildDone(entries[i].value, inner, shape);
    }
  }

  /** The visit at position `j`: which entry it is, and what the arranged object lists there. */
  lemma VisitAt(json: Node, keys: seq<Member>, j: nat, f: DumpFlags, height: nat, shape: Shape) returns (i: nat)
    requires Closed(shape) && json in shape && shape[json].ObjectOf?
    requires HeadsOf(keys, shape[json].entries) && j < |keys|
    ensures |Ordered(keys, f)| == |keys| && i < |keys|
    ensures Visited(shape[json].entries, Ordered(keys, f), j, f) == Some(shape[json].entries[i])
    ensures shape[json].entries[i].value in shape
    ensures ArrangedMembers(json, height, f, shape)[j] ==
            Member(keys[i].key, keys[i].serial, Arrange(Tree(shape[json].entries[i].value, height, shape), f))
  {
    var entries := shape[json].entries;
    var ms := MembersOf(json, height, shape);
    VisitedIsArranged(entries, keys, ms, j, f);
    hide Visited; hide Ordered; hide ArrangeMembers; hide Arrange; hide Tree;
    i :| 0 <= i < |entries| && Visited(entries, Ordered(keys, f), j, f) == Some(entries[i])
         && Ordered(ArrangeMembers(ms, f), f)[j] == Member(ms[i].key, ms[i].serial, Arrange(ms[i].value, f));
    ChildIn(json, i, shape);
  }

  ghost predicate VisitDone(entries: seq<Entry>, sorted: seq<Member>, j: nat, f: DumpFlags, inner: set<Node>, shape: Shape)
    requires Closed(shape) && j < |sorted| == |entries|
  {
    var e := Visited(entries, sorted, j, f);
    e.Some? && ChildDone(e.value.value, inner, shape)
  }

  /** Whatever the order, every entry is visited. */
  lemma EveryEntryVisited(json: Node, keys: seq<Member>, i: nat, f: DumpFlags, shape: Shape) returns (j: nat)
    requires Closed(shape) && json in shape && shape[json].ObjectOf?
    requires HeadsOf(keys, shape[json].entries) && i < |keys|
    ensures |Ordered(keys, f)| == |keys| && j < |keys|
    ensures Visited(shape[json].entries, Ordered(keys, f), j, f) == Some(shape[json].entries[i])
  {
    hide Tree; hide Ordered; hide Arrange; hide ArrangedMembers;
    var entries := shape[json].entries;
    var sorted := Ordered(keys, f);
    SameLength(keys, sorted);
    if f.sortKeys || f.preserveOrder {
      j := IndexInOther(keys, sorted, i);
      var k := VisitAt(json, keys, j, f, 0, shape);
      assert entries[k].key == entries[i].key;
    } else {
      j := i;
    }
  }

  lemma AllEntriesDone(json: Node, keys: seq<Member>, f: DumpFlags, inner: set<Node>, shape: Shape)
    requires Closed(shape) && json in shape && shape[json].ObjectOf?
    requires HeadsOf(keys, shape[json].entries) && |Ordered(keys, f)| == |keys|
    requires forall j :: 0 <= j < |keys| ==> VisitDone(shape[json].entries, Ordered(keys, f), j, f, inner, shape)
    ensures AllDone(json, inner, shape)
  {
    hide ChildDone; hide Visited; hide Ordered; hide HeadsOf;
    var entries := shape[json].entries;
    forall c | c in Children(json, shape) ensures ChildDone(c, inner, shape) {
      var e :| e in entries && e.value == c;
      var i :| 0 <= i < |entries| && entries[i] == e;
      assert |keys| == |entries| by { assert HeadsOf(keys, entries); HeadsLength(keys, entries); }
      var j := EveryEntryVisited(json, keys, i, f, shape);
      assert VisitDone(entries, Ordered(keys, f), j, f, inner, shape);
    }
  }

  lemma HeadsLength(keys: seq<Member>, entries: seq<Entry>)
    requires HeadsOf(keys, entries)
    ensures |keys| == |entries|
  {
  }

  lemma LiteralEither(s: seq<Byte>, f: DumpFlags)
    ensures StringLiteral(s, f) == if Decode(s).Some? then StringText(s, f) else BrokenText(s, f)
  {
    hide Decode; hide StringText; hide BrokenText;
  }

  /** The members of an object that is itself on the stack. The result of
      dumping a key is not looked at. */
  method DumpMembers(json: Node, entries: seq<Entry>, f: DumpFlags, depth: nat, sink: Sink,
                     ghost inner: set<Node>, ghost shape: Shape) returns (ok: bool)
    requires Ready(json, inner, shape) && Marked(inner, shape)
    requires json in inner && shape[json] == ObjectOf(entries) && entries != []
    modifies shape.Keys`visited, sink
    ensures if ok then AllDone(json, inner, shape) else SomeRefused(json, inner, shape)
    ensures ok ==> Marked(inner, shape)
    ensures Within(inner, shape)
    ensures ok ==>
              sink.out == old(sink.out) + MembersText(ArrangedMembers(json, Height(inner, shape), f, shape), f, depth)
    decreases Height(inner, shape), 3
  {
    hide Refused; hide Represents; hide Tree; hide Arrange; hide Text; hide MembersText; hide MembersFrom; hide AfterItem;
    hide Closed; hide Children; hide AllDone; hide SomeRefused; hide ArrangedMembers; hide Height;
    hide Ordered; hide Visited; hide Separator; hide StringLiteral; hide StringText; hide Decode; hide Within;
    var keys := CollectKeys(entries);
    var sorted := Ordered(keys, f);
    ghost var height := Height(inner, shape);
    ghost var arranged := ArrangedMembers(json, height, f, shape);
    MembersFromEnds(arranged, f, depth);
    MarkedWithin(inner, shape);
    ghost var _ := VisitAt(json, keys, 0, f, height, shape);
    for i := 0 to |entries|
      invariant Marked(inner, shape) && Within(inner, shape)
      invariant forall k :: 0 <= k < i ==> VisitDone(entries, sorted, k, f, inner, shape)
      invariant sink.out + MembersFrom(arranged, i, f, depth) == old(sink.out) + MembersFrom(arranged, 0, f, depth)
    {
      ghost var at := VisitAt(json, keys, i, f, height, shape);
      var e := Visited(entries, sorted, i, f);
      var done := DumpMember(json, e.value, at, f, depth, sink, inner, shape);
      if !done {
        return false;
      }
      assert VisitDone(entries, sorted, i, f, inner, shape);
      MembersFromStep(arranged, i, f, depth);
      DumpSeparator(i == |entries| - 1, f, depth, sink);
    }
    AllEntriesDone(json, keys, f, inner, shape);
    return true;
  }

  method DumpMember(json: Node, e: Entry, ghost at: nat, f: DumpFlags, depth: nat, sink: Sink,
                    ghost inner: set<Node>, ghost shape: Shape) returns (ok: bool)
    requires Ready(json, inner, shape) && Marked(inner, shape)
    requires shape[json].ObjectOf? && at < |shape[json].entries| && shape[json].entries[at] == e
    modifies shape.Keys`visited, sink
    ensures if ok then ChildDone(e.value, inner, shape) else SomeRefused(json, inner, shape)
    ensures ok ==> Marked(inner, shape)
    ensures Within(inner, shape)
    ensures ok ==>
              && e.value in shape
              && sink.out == old(sink.out) + StringLiteral(e.key, f) + Separator(f) +
                             Text(Arrange(Tree(e.value, Height(inner, shape), shape), f), f, depth + 1)
    decreases Height(inner, shape), 3, 0
  {
    hide Refused; hide Represents; hide Tree; hide Arrange; hide Text; hide Closed; hide Children;
    hide SomeRefused; hide Height; hide Separator; hide StringLiteral; hide StringText; hide BrokenText; hide Decode; hide Within;
    ReadyBelow(json, at, inner, shape);
    LiteralEither(e.key, f);
    var _ := DumpString(e.key, sink, f);
    sink.Dump(Separator(f));
    ok := DoDump(e.value, f, depth + 1, sink, inner, shape);
  }

  method OpenObject(json: Node, entries: seq<Entry>, f: DumpFlags, depth: nat, sink: Sink,
                    ghost inner: set<Node>, ghost shape: Shape) returns (ok: bool)
    requires Ready(json, inner, shape) && Marked(inner, shape)
    requires json in inner && shape[json] == ObjectOf(entries)
    modifies shape.Keys`visited, sink
    ensures if ok then AllDone(json, inner, shape) else SomeRefused(json, inner, shape)
    ensures ok ==> Marked(inner, shape)
    ensures Within(inner, shape)
    ensures ok ==>
              sink.out + [0x7D] == old(sink.out) + TextAt(json, f, depth, Height(inner, shape) + 1, shape)
    decreases Height(inner, shape), 4
  {
    hide Refused; hide Represents; hide Indent; hide TextAt; hide SomeRefused;
    hide Closed; hide ChildDone; hide ArrangedMembers; hide Height; hide Text; hide MembersText;
    hide Marked; hide Within;
    ObjectText(json, f, depth, Height(inner, shape), shape);
    ghost var before := sink.out;
    sink.Dump([0x7B]);
    if |entries| == 0 {
      MarkedWithin(inner, shape);
      assert before + [0x7B] + [0x7D] == before + [0x7B, 0x7D];
      return true;
    }
    hide AllDone; hide Children;
    DumpIndent(f, depth + 1, false, sink);
    ok := DumpMembers(json, entries, f, depth, sink, inner, shape);
    ghost var body := MembersText(ArrangedMembers(json, Height(inner, shape), f, shape), f, depth);
    Bracketed(before, [0x7B], Indent(f, depth + 1, false), body, [0x7D]);
  }

  method DumpObject(json: Node, entries: seq<Entry>, f: DumpFlags, depth: nat, sink: Sink,
                    ghost stack: set<Node>, ghost shape: Shape) returns (ok: bool)
    requires Ready(json, stack, shape) && Marked(stack, shape) && shape[json] == ObjectOf(entries)
    modifies shape.Keys`visited, sink
    ensures ok <==> !Refused(json, stack, shape)
    ensures ok ==> Marked(stack, shape)
    ensures Within(stack, shape)
    ensures ok ==> Represents(json, Tree(json, Height(stack, shape), shape), shape)
    ensures ok ==> sink.out == old(sink.out) + TextAt(json, f, depth, Height(stack, shape), shape)
    decreases Height(stack, shape), 1
  {
    hide Refused; hide Represents; hide TextAt; hide AllDone; hide SomeRefused; hide Children;
    hide Closed; hide ChildDone; hide Height;
    if json.visited {
      json.visited := false;
      StackedRefused(json, stack, shape);
      return false;
    }
    Enter(json, stack, shape);
    hide Marked; hide Within;
    ghost var inner := stack + {json};
    InnerSmaller(json, stack, shape);
    ChildrenDecide(json, stack, shape);
    ok := OpenObject(json, entries, f, depth, sink, inner, shape);
    Leave(json, stack, shape);
    if ok {
      sink.Dump([0x7D]);
      ObjectRepresented(json, inner, shape);
    }
  }

  /** json_dump_callback. Success means that no walk from `json` repeats a node or ends in a string that is not UTF-8;
      then the text is that of the tree the graph unfolds to. No mark is left behind either way. */
  method DumpCallback(json: Node?, f: DumpFlags, sink: Sink, ghost shape: Shape) returns (ok: bool)
    requires Closed(shape) && Marked({}, shape) && (json != null ==> json in shape)
    modifies shape.Keys`visited, sink
    ensures Marked({}, shape)
    ensures ok <==>
              && json != null
              && (f.encodeAny || !shape[json].Leaf?)
              && !exists p :: IsPath(json, p, shape) &&
                   (Repeats(p) || (p[|p| - 1] in shape && BadString(p[|p| - 1], shape)))
    ensures ok ==> Represents(json, Tree(json, |shape|, shape), shape)
    ensures ok ==> sink.out == old(sink.out) + Dump(Tree(json, |shape|, shape), f)
  {
    if json == null {
      return false;
    }
    if !f.encodeAny && json.content.Leaf? {
      return false;
    }
    ok := DoDump(json, f, 0, sink, {}, shape);
    assert shape.Keys - {} == shape.Keys;
    if !ok {
      ghost var p :| Refutes(json, p, {}, shape);
      assert !Meets(p, {});
    } else {
      forall p | IsPath(json, p, shape)
        ensures !Repeats(p) && !(p[|p| - 1] in shape && BadString(p[|p| - 1], shape))
      {
        assert !Refutes(json, p, {}, shape);
      }
    }
  }
}
