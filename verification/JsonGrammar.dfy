/** The grammar of JSON over tokens (sections 2.2 and 2.3 of RFC 4627), and that the parser accepts exactly its sentences. */
module JsonGrammar {
  import opened Bytes
  import opened Json
  import opened JsonParse
  import JsonRoundTrip

  // ------------------------------------------------------------------ sentences

  datatype Tree = Leaf(tok: Token) | Arr(items: seq<Tree>) | Obj(pairs: seq<Pair>)

  datatype Pair = Pair(key: seq<Byte>, value: Tree)

  predicate IsScalarToken(tok: Token) {
    !tok.Eof? && !tok.Invalid? && !tok.Punct?
  }

  ghost predicate WellFormed(t: Tree) {
    match t
    case Leaf(tok) => IsScalarToken(tok)
    case Arr(items) => forall i <- items :: WellFormed(i)
    case Obj(pairs) => forall p <- pairs :: WellFormed(p.value)
  }

  /** The tokens of a value. */
  function Yield(t: Tree): (ts: seq<Token>)
    ensures WellFormed(t) ==> ts != [] && !IsEnd(ts[0]) && ts[0] != CLOSE_ARRAY && ts[0] != CLOSE_OBJECT
    decreases t, 2
  {
    match t
    case Leaf(tok) => [tok]
    case Arr(items) => [OPEN_ARRAY] + if items == [] then [CLOSE_ARRAY] else YieldItems(items)
    case Obj(pairs) => [OPEN_OBJECT] + if pairs == [] then [CLOSE_OBJECT] else YieldPairs(pairs)
  }

  /** Items separated by commas, up to the closing bracket. */
  function YieldItems(items: seq<Tree>): (ts: seq<Token>)
    requires items != []
    decreases items, 0
  {
    Yield(items[0]) + if |items| == 1 then [CLOSE_ARRAY] else [COMMA] + YieldItems(items[1..])
  }

  function YieldPairs(pairs: seq<Pair>): (ts: seq<Token>)
    requires pairs != []
    ensures ts != [] && ts[0] == StringTok(pairs[0].key)
    decreases pairs, 0
  {
    [StringTok(pairs[0].key), COLON] + Yield(pairs[0].value) +
    if |pairs| == 1 then [CLOSE_OBJECT] else [COMMA] + YieldPairs(pairs[1..])
  }

  /** The value a sentence stands for: a repeated key replaces the value set before. */
  function ValueOf(t: Tree): (v: Json)
    decreases t, 1
  {
    match t
    case Leaf(tok) =>
      (match tok
       case StringTok(s) => String(s)
       case IntegerTok(i) => Integer(i)
       case RealTok(lexeme) => Real(lexeme)
       case TrueTok => True
       case FalseTok => False
       case _ => Null)
    case Arr(items) => Array(ValuesOf(items))
    case Obj(pairs) => Object(SetAll([], 0, pairs))
  }

  function ValuesOf(items: seq<Tree>): (vs: seq<Json>)
    decreases items, 0
  {
    if items == [] then [] else [ValueOf(items[0])] + ValuesOf(items[1..])
  }

  function SetAll(done: seq<Member>, serial: nat, pairs: seq<Pair>): (ms: seq<Member>)
    decreases pairs, 0
  {
    if pairs == [] then done
    else SetAll(SetMember(done, pairs[0].key, serial, ValueOf(pairs[0].value)), serial + 1, pairs[1..])
  }

  /** No object repeats a key. */
  ghost predicate NoRepeats(t: Tree)
    decreases t, 1
  {
    match t
    case Leaf(_) => true
    case Arr(items) => forall i <- items :: NoRepeats(i)
    case Obj(pairs) => NoneSet([], 0, pairs) && forall p <- pairs :: NoRepeats(p.value)
  }

  /** None of the keys is already set when its turn comes. */
  ghost predicate NoneSet(done: seq<Member>, serial: nat, pairs: seq<Pair>)
    decreases pairs, 0
  {
    pairs == [] ||
    (FindKey(done, pairs[0].key).None? &&
     NoneSet(SetMember(done, pairs[0].key, serial, ValueOf(pairs[0].value)), serial + 1, pairs[1..]))
  }

  ghost predicate Allowed(t: Tree, f: LoadFlags) {
    WellFormed(t) && (f.rejectDuplicates ==> NoRepeats(t))
  }

  // ------------------------------------------------------------------ lexing a given sequence of tokens

  /** What is left of `s` after lexing exactly `ts`. */
  ghost function LexThrough(s: seq<Byte>, ts: seq<Token>, bad: bool): (r: Option<seq<Byte>>)
    ensures r.Some? ==> |r.value| <= |s| && (ts != [] ==> |r.value| < |s|)
    decreases |ts|
  {
    if ts == [] then Some(s)
    else
      var (tok, rest) := Lex(s, bad);
      if tok != ts[0] || IsEnd(tok) then None else LexThrough(rest, ts[1..], bad)
  }

  lemma {:induction false} LexThroughAppend(s: seq<Byte>, a: seq<Token>, b: seq<Token>, bad: bool)
    ensures var mid := LexThrough(s, a, bad);
            LexThrough(s, a + b, bad) == if mid.None? then None else LexThrough(mid.value, b, bad)
    decreases |a|
  {
    hide Lex;
    if a == [] {
      assert a + b == b;
    } else {
      assert (a + b)[1..] == a[1..] + b;
      var (tok, rest) := Lex(s, bad);
      if tok == a[0] && !IsEnd(tok) {
        LexThroughAppend(rest, a[1..], b, bad);
      }
    }
  }

  lemma LexThroughOne(s: seq<Byte>, tok: Token, ts: seq<Token>, bad: bool)
    requires !IsEnd(tok)
    ensures LexThrough(s, [tok] + ts, bad) ==
            if Lex(s, bad).0 == tok then LexThrough(Lex(s, bad).1, ts, bad) else None
  {
    hide Lex;
    assert ([tok] + ts)[1..] == ts;
  }

  /** The first token, already read, and the rest of the text make up the tokens `ts` with `rest` left over. */
  ghost predicate Spells(tok: Token, s: seq<Byte>, ts: seq<Token>, rest: seq<Byte>, bad: bool) {
    ts != [] && ts[0] == tok && LexThrough(s, ts[1..], bad) == Some(rest)
  }

  lemma SpellsAppend(tok: Token, s: seq<Byte>, a: seq<Token>, mid: seq<Byte>, b: seq<Token>, bad: bool)
    requires Spells(tok, s, a, mid, bad)
    ensures forall rest :: Spells(tok, s, a + b, rest, bad) <==> LexThrough(mid, b, bad) == Some(rest)
  {
    hide LexThrough;
    assert (a + b)[1..] == a[1..] + b;
    LexThroughAppend(s, a[1..], b, bad);
  }

  // ------------------------------------------------------------------ only sentences are accepted

  /** Whatever parse_value returns is the value of a sentence made of the tokens it consumed. */
  lemma {:induction false} ValueIsSentence(tok: Token, s: seq<Byte>, bad: bool, f: LoadFlags) returns (t: Tree)
    requires ParseValue(tok, s, bad, f).Some?
    ensures Allowed(t, f) && ParseValue(tok, s, bad, f) == Some((ValueOf(t), ParseValue(tok, s, bad, f).value.1))
    ensures Spells(tok, s, Yield(t), ParseValue(tok, s, bad, f).value.1, bad)
    decreases |s|, 2
  {
    if tok == OPEN_ARRAY {
      t := ArrayIsSentence(s, bad, f);
    } else if tok == OPEN_OBJECT {
      t := ObjectIsSentence(s, bad, f);
    } else {
      t := Leaf(tok);
    }
  }

  lemma {:induction false} ArrayIsSentence(s: seq<Byte>, bad: bool, f: LoadFlags) returns (t: Tree)
    requires ParseArray(s, bad, f).Some?
    ensures t.Arr? && Allowed(t, f) && ParseArray(s, bad, f).value.0 == ValueOf(t)
    ensures Spells(OPEN_ARRAY, s, Yield(t), ParseArray(s, bad, f).value.1, bad)
    decreases |s|, 1
  {
    hide Lex; hide ParseElems; hide YieldItems; hide LexThrough; hide ValuesOf;
    var (first, rest) := Lex(s, bad);
    var ts: seq<Token>;
    if first == CLOSE_ARRAY {
      t, ts := Arr([]), [];
      assert ValuesOf([]) == [] by { NoValues(); }
      LexThroughNone(rest, bad);
    } else {
      var items := ElemsAreSentences([], first, rest, bad, f);
      t, ts := Arr(items), YieldItems(items)[1..];
      assert YieldItems(items) == [first] + ts;
    }
    LexThroughOne(s, first, ts, bad);
    assert Yield(t)[1..] == [first] + ts;
  }

  lemma {:induction false} ObjectIsSentence(s: seq<Byte>, bad: bool, f: LoadFlags) returns (t: Tree)
    requires ParseObject(s, bad, f).Some?
    ensures t.Obj? && Allowed(t, f) && ParseObject(s, bad, f).value.0 == ValueOf(t)
    ensures Spells(OPEN_OBJECT, s, Yield(t), ParseObject(s, bad, f).value.1, bad)
    decreases |s|, 1
  {
    hide Lex; hide ParseMembers; hide YieldPairs; hide LexThrough; hide SetMember; hide FindKey;
    var (first, rest) := Lex(s, bad);
    var ts: seq<Token>;
    if first == CLOSE_OBJECT {
      t, ts := Obj([]), [];
      LexThroughNone(rest, bad);
    } else {
      var pairs := MembersAreSentences([], 0, first, rest, bad, f);
      t, ts := Obj(pairs), YieldPairs(pairs)[1..];
      assert YieldPairs(pairs) == [first] + ts;
    }
    LexThroughOne(s, first, ts, bad);
    assert Yield(t)[1..] == [first] + ts;
  }

  lemma LexThroughNone(s: seq<Byte>, bad: bool)
    ensures LexThrough(s, [], bad) == Some(s)
  {
  }

  lemma NoValues()
    ensures ValuesOf([]) == []
  {
  }

  lemma {:induction false} ElemsAreSentences(done: seq<Json>, tok: Token, s: seq<Byte>, bad: bool, f: LoadFlags)
    returns (items: seq<Tree>)
    requires ParseElems(done, tok, s, bad, f).Some?
    ensures items != [] && forall i <- items :: Allowed(i, f)
    ensures ParseElems(done, tok, s, bad, f).value.0 == Array(done + ValuesOf(items))
    ensures Spells(tok, s, YieldItems(items), ParseElems(done, tok, s, bad, f).value.1, bad)
    decreases |s|, 3
  {
    hide Lex; hide ParseValue; hide ValueOf; hide Yield; hide LexThrough;
    var t := ValueIsSentence(tok, s, bad, f);
    var (v, rest) := ParseValue(tok, s, bad, f).value;
    var (next, rest') := Lex(rest, bad);
    var tail: seq<Token>;
    if next == COMMA {
      var (tok', rest'') := Lex(rest', bad);
      var more := ElemsAreSentences(done + [v], tok', rest'', bad, f);
      items, tail := [t] + more, [COMMA] + YieldItems(more);
      assert items[1..] == more;
      assert done + [v] + ValuesOf(more) == done + ([v] + ValuesOf(more));
      LexThroughOne(rest', tok', YieldItems(more)[1..], bad);
      assert [tok'] + YieldItems(more)[1..] == YieldItems(more);
      LexThroughOne(rest, COMMA, YieldItems(more), bad);
    } else {
      items, tail := [t], [CLOSE_ARRAY] + [];
      assert items[1..] == [];
      LexThroughOne(rest, CLOSE_ARRAY, [], bad);
      LexThroughNone(rest', bad);
    }
    var end := ParseElems(done, tok, s, bad, f).value.1;
    assert LexThrough(rest, tail, bad) == Some(end);
    assert YieldItems(items) == Yield(t) + tail;
    hide YieldItems;
    SpellsAppend(tok, s, Yield(t), rest, tail, bad);
    assert Spells(tok, s, Yield(t) + tail, end, bad);
  }

  lemma {:induction false} MembersAreSentences(done: seq<Member>, serial: nat, tok: Token, s: seq<Byte>, bad: bool,
                                               f: LoadFlags) returns (pairs: seq<Pair>)
    requires ParseMembers(done, serial, tok, s, bad, f).Some?
    ensures pairs != [] && forall p <- pairs :: Allowed(p.value, f)
    ensures f.rejectDuplicates ==> NoneSet(done, serial, pairs)
    ensures ParseMembers(done, serial, tok, s, bad, f).value.0 == Object(SetAll(done, serial, pairs))
    ensures Spells(tok, s, YieldPairs(pairs), ParseMembers(done, serial, tok, s, bad, f).value.1, bad)
    decreases |s|, 3
  {
    hide Lex; hide ParseValue; hide ValueOf; hide Yield; hide SetMember; hide FindKey; hide LexThrough;
    var (colon, rest) := Lex(s, bad);
    var (first, rest') := Lex(rest, bad);
    var t := ValueIsSentence(first, rest', bad, f);
    var (v, rest'') := ParseValue(first, rest', bad, f).value;
    var pair := Pair(tok.s, t);
    var done' := SetMember(done, tok.s, serial, v);
    var (next, after) := Lex(rest'', bad);
    var tail: seq<Token>;
    if next == COMMA {
      var (tok', after') := Lex(after, bad);
      var more := MembersAreSentences(done', serial + 1, tok', after', bad, f);
      pairs := [pair] + more;
      assert pairs[1..] == more;
      tail := [COMMA] + YieldPairs(more);
      LexThroughOne(after, tok', YieldPairs(more)[1..], bad);
      assert [tok'] + YieldPairs(more)[1..] == YieldPairs(more);
      LexThroughOne(rest'', COMMA, YieldPairs(more), bad);
    } else {
      pairs := [pair];
      assert pairs[1..] == [];
      tail := [CLOSE_OBJECT] + [];
      LexThroughOne(rest'', CLOSE_OBJECT, [], bad);
      LexThroughNone(after, bad);
    }
    var end := ParseMembers(done, serial, tok, s, bad, f).value.1;
    assert LexThrough(rest'', tail, bad) == Some(end);
    assert YieldPairs(pairs) == [tok, COLON] + Yield(t) + tail;
    hide YieldPairs;
    LexThroughAppend(rest', Yield(t)[1..], tail, bad);
    PairSpells(tok, s, t, tail, bad);
    assert Spells(tok, s, [tok, COLON] + Yield(t) + tail, end, bad);
  }

  /** A key, a colon, a value and what follows, in terms of the tokens. */
  lemma PairSpells(tok: Token, s: seq<Byte>, t: Tree, tail: seq<Token>, bad: bool)
    requires tok.StringTok? && WellFormed(t)
    ensures var (colon, rest) := Lex(s, bad);
            var (first, rest') := Lex(rest, bad);
            forall end ::
              Spells(tok, s, [tok, COLON] + Yield(t) + tail, end, bad) <==>
              && colon == COLON && first == Yield(t)[0]
              && LexThrough(rest', Yield(t)[1..] + tail, bad) == Some(end)
  {
    hide Lex; hide Yield;
    var (colon, rest) := Lex(s, bad);
    var y := Yield(t);
    assert ([tok, COLON] + y + tail)[1..] == [COLON] + (y + tail);
    LexThroughOne(s, COLON, y + tail, bad);
    assert y + tail == [y[0]] + (y[1..] + tail);
    LexThroughOne(rest, y[0], y[1..] + tail, bad);
  }

  // ------------------------------------------------------------------ every sentence is accepted

  /** The tokens of a sequence can be split where a part of it ends. */
  lemma SpellsSplit(tok: Token, s: seq<Byte>, a: seq<Token>, b: seq<Token>, rest: seq<Byte>, bad: bool)
    returns (mid: seq<Byte>)
    requires a != [] && Spells(tok, s, a + b, rest, bad)
    ensures Spells(tok, s, a, mid, bad) && LexThrough(mid, b, bad) == Some(rest)
  {
    hide LexThrough;
    assert (a + b)[1..] == a[1..] + b;
    LexThroughAppend(s, a[1..], b, bad);
    mid := LexThrough(s, a[1..], bad).value;
  }

  lemma {:induction false} SentenceIsRead(t: Tree, tok: Token, s: seq<Byte>, rest: seq<Byte>, bad: bool, f: LoadFlags)
    requires Allowed(t, f) && Spells(tok, s, Yield(t), rest, bad)
    ensures ParseValue(tok, s, bad, f) == Some((ValueOf(t), rest))
    decreases t, 2
  {
    match t
    case Leaf(_) =>
      assert Yield(t)[1..] == [];
    case Arr(items) => ArrayIsRead(items, s, rest, bad, f);
    case Obj(pairs) => ObjectIsRead(pairs, s, rest, bad, f);
  }

  lemma {:induction false} ArrayIsRead(items: seq<Tree>, s: seq<Byte>, rest: seq<Byte>, bad: bool, f: LoadFlags)
    requires Allowed(Arr(items), f) && Spells(OPEN_ARRAY, s, Yield(Arr(items)), rest, bad)
    ensures ParseArray(s, bad, f) == Some((Array(ValuesOf(items)), rest))
    decreases items, 1
  {
    hide Lex; hide ParseElems; hide YieldItems; hide LexThrough; hide ValuesOf;
    var ts := Yield(Arr(items))[1..];
    if items == [] {
      NoValues();
      LexThroughOne(s, CLOSE_ARRAY, [], bad);
      assert ts == [CLOSE_ARRAY] + [];
      LexThroughNone(Lex(s, bad).1, bad);
    } else {
      assert ts == YieldItems(items);
      FirstOfItems(items);
      LexThroughOne(s, ts[0], ts[1..], bad);
      assert ts == [ts[0]] + ts[1..];
      ItemsAreRead(items, [], ts[0], Lex(s, bad).1, rest, bad, f);
      assert [] + ValuesOf(items) == ValuesOf(items);
    }
  }

  lemma FirstOfItems(items: seq<Tree>)
    requires items != [] && WellFormed(items[0])
    ensures var ts := YieldItems(items); ts != [] && !IsEnd(ts[0]) && ts[0] != CLOSE_ARRAY
  {
    hide Yield;
  }

  lemma {:induction false} ItemsAreRead(items: seq<Tree>, done: seq<Json>, tok: Token, s: seq<Byte>, rest: seq<Byte>,
                                        bad: bool, f: LoadFlags)
    requires items != [] && (forall i <- items :: Allowed(i, f)) && Spells(tok, s, YieldItems(items), rest, bad)
    ensures ParseElems(done, tok, s, bad, f) == Some((Array(done + ValuesOf(items)), rest))
    decreases items, 0
  {
    hide Lex; hide ParseValue; hide ValueOf; hide Yield; hide LexThrough;
    var t, more := items[0], items[1..];
    assert Allowed(items[0], f);
    var tail := if more == [] then [CLOSE_ARRAY] + [] else [COMMA] + YieldItems(more);
    assert YieldItems(items) == Yield(t) + tail;
    var mid := SpellsSplit(tok, s, Yield(t), tail, rest, bad);
    SentenceIsRead(t, tok, s, mid, bad, f);
    var v := ValueOf(t);
    var (next, rest') := Lex(mid, bad);
    if more == [] {
      LexThroughOne(mid, CLOSE_ARRAY, [], bad);
      LexThroughNone(rest', bad);
      NoValues();
      assert ValuesOf(items) == [v];
    } else {
      var ts := YieldItems(more);
      LexThroughOne(mid, COMMA, ts, bad);
      assert Allowed(more[0], f);
      FirstOfItems(more);
      LexThroughOne(rest', ts[0], ts[1..], bad);
      assert ts == [ts[0]] + ts[1..];
      hide YieldItems;
      var (tok', rest'') := Lex(rest', bad);
      ItemsAreRead(more, done + [v], tok', rest'', rest, bad, f);
      assert done + [v] + ValuesOf(more) == done + ([v] + ValuesOf(more));
    }
  }

  lemma {:induction false} ObjectIsRead(pairs: seq<Pair>, s: seq<Byte>, rest: seq<Byte>, bad: bool, f: LoadFlags)
    requires Allowed(Obj(pairs), f) && Spells(OPEN_OBJECT, s, Yield(Obj(pairs)), rest, bad)
    ensures ParseObject(s, bad, f) == Some((Object(SetAll([], 0, pairs)), rest))
    decreases pairs, 1
  {
    hide Lex; hide ParseMembers; hide YieldPairs; hide LexThrough; hide SetMember; hide FindKey;
    var ts := Yield(Obj(pairs))[1..];
    if pairs == [] {
      LexThroughOne(s, CLOSE_OBJECT, [], bad);
      assert ts == [CLOSE_OBJECT] + [];
      LexThroughNone(Lex(s, bad).1, bad);
    } else {
      assert ts == YieldPairs(pairs);
      FirstOfPairs(pairs);
      LexThroughOne(s, ts[0], ts[1..], bad);
      assert ts == [ts[0]] + ts[1..];
      PairsAreRead(pairs, [], 0, ts[0], Lex(s, bad).1, rest, bad, f);
    }
  }

  lemma FirstOfPairs(pairs: seq<Pair>)
    requires pairs != []
    ensures var ts := YieldPairs(pairs); ts != [] && ts[0] == StringTok(pairs[0].key)
  {
    hide Yield;
  }

  lemma {:induction false} PairsAreRead(pairs: seq<Pair>, done: seq<Member>, serial: nat, tok: Token, s: seq<Byte>,
                                        rest: seq<Byte>, bad: bool, f: LoadFlags)
    requires pairs != [] && (forall p <- pairs :: Allowed(p.value, f))
    requires f.rejectDuplicates ==> NoneSet(done, serial, pairs)
    requires Spells(tok, s, YieldPairs(pairs), rest, bad)
    ensures ParseMembers(done, serial, tok, s, bad, f) == Some((Object(SetAll(done, serial, pairs)), rest))
    decreases pairs, 0
  {
    hide Lex; hide ParseValue; hide ValueOf; hide Yield; hide LexThrough; hide SetMember; hide FindKey;
    var t, more := pairs[0].value, pairs[1..];
    assert Allowed(pairs[0].value, f);
    var tail := if more == [] then [CLOSE_OBJECT] + [] else [COMMA] + YieldPairs(more);
    assert YieldPairs(pairs) == [StringTok(pairs[0].key), COLON] + Yield(t) + tail;
    PairSpells(tok, s, t, tail, bad);
    var (colon, after) := Lex(s, bad);
    var (first, after') := Lex(after, bad);
    LexThroughAppend(after', Yield(t)[1..], tail, bad);
    var mid := LexThrough(after', Yield(t)[1..], bad).value;
    SentenceIsRead(t, first, after', mid, bad, f);
    var done' := SetMember(done, tok.s, serial, ValueOf(t));
    var (next, rest') := Lex(mid, bad);
    if more == [] {
      LexThroughOne(mid, CLOSE_OBJECT, [], bad);
      LexThroughNone(rest', bad);
      assert SetAll(done', serial + 1, more) == done';
    } else {
      var ts := YieldPairs(more);
      LexThroughOne(mid, COMMA, ts, bad);
      FirstOfPairs(more);
      LexThroughOne(rest', ts[0], ts[1..], bad);
      assert ts == [ts[0]] + ts[1..];
      hide YieldPairs;
      var (tok', rest'') := Lex(rest', bad);
      PairsAreRead(more, done', serial + 1, tok', rest'', rest, bad, f);
    }
  }

  // ------------------------------------------------------------------ the parser accepts exactly the sentences

  /** The text starts with the tokens of `t`; `rest` follows them. */
  ghost predicate IsText(t: Tree, s: seq<Byte>, rest: seq<Byte>, bad: bool, f: LoadFlags) {
    && Allowed(t, f) && LexThrough(s, Yield(t), bad) == Some(rest)
    && (f.decodeAny || !t.Leaf?)
    && (f.disableEofCheck || Lex(rest, bad).0.Eof?)
  }

  /** parse_json succeeds on a text exactly when it is that of a JSON array or object (of any value, with
      JSON_DECODE_ANY) and nothing follows (unless JSON_DISABLE_EOF_CHECK), and returns the value of that sentence. */
  lemma ParserAcceptsExactly(s: seq<Byte>, bad: bool, f: LoadFlags, v: Json)
    ensures Parse(s, bad, f) == Some(v) <==> exists t, rest :: IsText(t, s, rest, bad, f) && ValueOf(t) == v
  {
    hide Lex; hide LexThrough; hide ParseValue; hide ValueOf;
    var (tok, after) := Lex(s, bad);
    if Parse(s, bad, f) == Some(v) {
      var t := ValueIsSentence(tok, after, bad, f);
      var rest := ParseValue(tok, after, bad, f).value.1;
      var ts := Yield(t);
      LexThroughOne(s, tok, ts[1..], bad);
      assert ts == [tok] + ts[1..];
      assert IsText(t, s, rest, bad, f);
    }
    if t, rest :| IsText(t, s, rest, bad, f) && ValueOf(t) == v {
      var ts := Yield(t);
      LexThroughOne(s, ts[0], ts[1..], bad);
      assert ts == [ts[0]] + ts[1..];
      SentenceIsRead(t, tok, after, rest, bad, f);
    }
  }

  // ------------------------------------------------------------------ numbers

  ghost predicate IsDigits(t: seq<Byte>) {
    t != [] && forall b <- t :: IsDigit(b)
  }

  /** The parts of a number (section 2.4 of RFC 4627). */
  datatype Number = Number(minus: seq<Byte>, whole: seq<Byte>, frac: seq<Byte>, exp: seq<Byte>)

  ghost predicate IsWhole(t: seq<Byte>) {
    t == [0x30] || (IsDigits(t) && t[0] != 0x30)
  }

  ghost predicate IsFraction(t: seq<Byte>) {
    t == [] || (t[0] == 0x2E && IsDigits(t[1..]))
  }

  ghost predicate IsExponent(t: seq<Byte>) {
    t == [] ||
    ((t[0] == 0x45 || t[0] == 0x65) &&
     (IsDigits(t[1..]) || (|t| > 1 && (t[1] == 0x2B || t[1] == 0x2D) && IsDigits(t[2..]))))
  }

  ghost predicate IsNumber(n: Number) {
    (n.minus == [] || n.minus == [0x2D]) && IsWhole(n.whole) && IsFraction(n.frac) && IsExponent(n.exp)
  }

  function NumberText(n: Number): seq<Byte> {
    n.minus + n.whole + n.frac + n.exp
  }

  /** An integer if there is neither fraction nor exponent, and then only if it fits 64 bits. */
  ghost function NumberToken(n: Number): Token {
    if n.frac == [] && n.exp == [] then IntegerToken(n.minus + n.whole) else RealTok(NumberText(n))
  }

  /** What follows a number and is not part of it. */
  ghost predicate EndsNumber(n: Number, after: seq<Byte>) {
    after == [] ||
    (&& !IsDigit(after[0])
     && (n.exp == [] ==> after[0] != 0x45 && after[0] != 0x65)
     && (n.frac == [] && n.exp == [] ==> after[0] != 0x2E))
  }

  lemma {:induction false} DigitRunIs(s: seq<Byte>)
    ensures forall b <- s[..DigitRun(s)] :: IsDigit(b)
    ensures DigitRun(s) < |s| ==> !IsDigit(s[DigitRun(s)])
    decreases |s|
  {
    if s == [] || !IsDigit(s[0]) {
    } else {
      DigitRunIs(s[1..]);
      assert s[..DigitRun(s)] == [s[0]] + s[1..][..DigitRun(s[1..])];
    }
  }

  lemma DigitsFrom(s: seq<Byte>, i: nat)
    requires i < |s| && IsDigit(s[i])
    ensures IsDigits(s[i..i + DigitRun(s[i..])])
    ensures var k := i + DigitRun(s[i..]); k < |s| ==> !IsDigit(s[k])
  {
    DigitRunIs(s[i..]);
    assert s[i..][..DigitRun(s[i..])] == s[i..i + DigitRun(s[i..])];
  }

  lemma WholeIs(s: seq<Byte>, i: nat)
    requires i <= |s| && IntegerPart(s, i).Some?
    ensures IsWhole(s[i..IntegerPart(s, i).value])
    ensures var k := IntegerPart(s, i).value; k < |s| ==> !IsDigit(s[k])
  {
    if s[i] != 0x30 {
      DigitsFrom(s, i);
    }
  }

  lemma Slices(s: seq<Byte>, i: nat, k: nat, j: nat, e: nat)
    requires i <= k <= j <= e <= |s|
    ensures s[..i] + s[i..k] == s[..k]
    ensures s[..i] + s[i..k] + s[k..j] + s[j..e] == s[..e] && s == s[..e] + s[e..]
  {
  }

  /** Every number token is spelled by a number of the grammar, and what follows is left. */
  lemma NumberIsGrammatical(s: seq<Byte>) returns (n: Number)
    requires s != [] && !LexNumber(s).0.Invalid?
    ensures IsNumber(n) && s == NumberText(n) + LexNumber(s).1 && LexNumber(s).0 == NumberToken(n)
    ensures EndsNumber(n, LexNumber(s).1)
  {
    hide IntegerPart; hide FractionPart; hide ExponentPart; hide IsWhole; hide IsFraction; hide IsExponent;
    hide IntegerToken; hide DigitRun; hide EndsNumber;
    var i := if s[0] == 0x2D then 1 else 0;
    var k := IntegerPart(s, i).value;
    WholeIs(s, i);
    if k == |s| || (s[k] != 0x2E && s[k] != 0x45 && s[k] != 0x65) {
      n := Number(s[..i], s[i..k], s[k..k], s[k..k]);
      Slices(s, i, k, k, k);
      assert IsFraction([]) && IsExponent([]) by { NoParts(); }
      EndsAt(s, k, n);
    } else {
      n := RealIsGrammatical(s, i, k);
    }
  }

  lemma RealIsGrammatical(s: seq<Byte>, i: nat, k: nat) returns (n: Number)
    requires s != [] && i == (if s[0] == 0x2D then 1 else 0) && IntegerPart(s, i) == Some(k) && IsWhole(s[i..k])
    requires k < |s| && (s[k] == 0x2E || s[k] == 0x45 || s[k] == 0x65) && !IsDigit(s[k])
    requires !LexNumber(s).0.Invalid?
    ensures IsNumber(n) && s == NumberText(n) + LexNumber(s).1 && LexNumber(s).0 == NumberToken(n)
    ensures EndsNumber(n, LexNumber(s).1)
  {
    hide IntegerPart; hide FractionPart; hide ExponentPart; hide IsWhole; hide IsFraction; hide IsExponent;
    hide IntegerToken; hide DigitRun; hide EndsNumber;
    var j := FractionPart(s, k).value;
    var e := ExponentPart(s, j).value;
    n := Number(s[..i], s[i..k], s[k..j], s[j..e]);
    FractionIs(s, k);
    ExponentIs(s, j);
    Slices(s, i, k, j, e);
    SomePart(s, k);
    EndsAt(s, e, n);
  }

  lemma EndsAt(s: seq<Byte>, e: nat, n: Number)
    requires e <= |s|
    requires e < |s| ==>
               && !IsDigit(s[e]) && (n.exp == [] ==> s[e] != 0x45 && s[e] != 0x65)
               && (n.frac == [] && n.exp == [] ==> s[e] != 0x2E)
    ensures EndsNumber(n, s[e..])
  {
  }

  lemma NoParts()
    ensures IsFraction([]) && IsExponent([])
  {
  }

  lemma SomePart(s: seq<Byte>, k: nat)
    requires k < |s| && (s[k] == 0x2E || s[k] == 0x45 || s[k] == 0x65)
    requires FractionPart(s, k).Some? && ExponentPart(s, FractionPart(s, k).value).Some?
    ensures ExponentPart(s, FractionPart(s, k).value).value > k
  {
  }

  lemma FractionIs(s: seq<Byte>, k: nat)
    requires k <= |s| && FractionPart(s, k).Some?
    ensures IsFraction(s[k..FractionPart(s, k).value])
    ensures var j := FractionPart(s, k).value; j > k && j < |s| ==> !IsDigit(s[j])
  {
    if k < |s| && s[k] == 0x2E {
      DigitsFrom(s, k + 1);
      var j := FractionPart(s, k).value;
      assert s[k..j][1..] == s[k + 1..j];
    }
  }

  lemma ExponentIs(s: seq<Byte>, k: nat)
    requires k <= |s| && ExponentPart(s, k).Some?
    ensures IsExponent(s[k..ExponentPart(s, k).value])
    ensures var e := ExponentPart(s, k).value;
            e < |s| ==> if e > k then !IsDigit(s[e]) else s[e] != 0x45 && s[e] != 0x65
  {
    if k < |s| && (s[k] == 0x45 || s[k] == 0x65) {
      var e := ExponentPart(s, k).value;
      var j := if k + 1 < |s| && (s[k + 1] == 0x2B || s[k + 1] == 0x2D) then k + 2 else k + 1;
      DigitsFrom(s, j);
      assert s[k..e][j - k..] == s[j..e];
    }
  }

  lemma NumberSlices(n: Number, after: seq<Byte>)
    ensures var s := NumberText(n) + after;
            var i, k := |n.minus|, |n.minus| + |n.whole|;
            var j := k + |n.frac|;
            && |s| == j + |n.exp| + |after|
            && s[i..] == n.whole + (n.frac + n.exp + after)
            && s[k..] == n.frac + (n.exp + after)
            && s[j..] == n.exp + after
  {
  }

  lemma NumberEnds(n: Number, after: seq<Byte>)
    requires IsNumber(n)
    requires EndsNumber(n, after)
    ensures var s := NumberText(n) + after;
            var i, k := |n.minus|, |n.minus| + |n.whole|;
            var j := k + |n.frac|;
            && |s| == j + |n.exp| + |after|
            && IntegerPart(s, i) == Some(k) && FractionPart(s, k) == Some(j)
            && ExponentPart(s, j) == Some(j + |n.exp|)
  {
    hide *;
    NumberParts(n);
    NumberSlices(n, after);
    TailsStart(n, after);
    var s := NumberText(n) + after;
    var i, k := |n.minus|, |n.minus| + |n.whole|;
    WholeIsLexed(s, i, n.whole, n.frac + n.exp + after);
    FractionIsLexed(s, k, n.frac, n.exp + after);
    ExponentIsLexed(s, k + |n.frac|, n.exp, after);
  }

  lemma NumberSplits(n: Number, after: seq<Byte>)
    ensures var s, e := NumberText(n) + after, |n.minus| + |n.whole| + |n.frac| + |n.exp|;
            && |s| == e + |after| && s[..e] == NumberText(n) && s[e..] == after
            && s[..|n.minus| + |n.whole|] == n.minus + n.whole
  {
  }

  /** Every number of the grammar, followed by something that cannot continue it, is lexed as a whole. */
  lemma NumberIsLexed(n: Number, after: seq<Byte>)
    requires IsNumber(n)
    requires EndsNumber(n, after)
    ensures NumberText(n) != []
    ensures LexNumber(NumberText(n) + after) == (NumberToken(n), after)
  {
    hide *;
    NumberParts(n);
    NumberSplits(n, after);
    NumberStarts(n, after);
    NumberEnds(n, after);
    TailsStart(n, after);
    var s := NumberText(n) + after;
    var i, k := |n.minus|, |n.minus| + |n.whole|;
    if n.frac == [] && n.exp == [] {
      IntegerUnfolds(s, i, k);
    } else {
      RealUnfolds(s, i, k, k + |n.frac|, k + |n.frac| + |n.exp|);
    }
  }

  lemma NumberParts(n: Number)
    requires IsNumber(n)
    ensures |n.minus| <= 1 && IsWhole(n.whole) && IsFraction(n.frac) && IsExponent(n.exp)
    ensures NumberToken(n) ==
            if n.frac == [] && n.exp == [] then IntegerToken(n.minus + n.whole) else RealTok(NumberText(n))
  {
    hide IsWhole; hide IsFraction; hide IsExponent; hide IntegerToken; hide NumberText;
  }

  lemma IntegerUnfolds(s: seq<Byte>, i: nat, k: nat)
    requires s != [] && i == (if s[0] == 0x2D then 1 else 0) && IntegerPart(s, i) == Some(k)
    requires k == |s| || (k < |s| && s[k] != 0x2E && s[k] != 0x45 && s[k] != 0x65)
    ensures LexNumber(s) == (IntegerToken(s[..k]), s[k..])
  {
    hide IntegerPart; hide IntegerToken;
  }

  lemma RealUnfolds(s: seq<Byte>, i: nat, k: nat, j: nat, e: nat)
    requires s != [] && i == (if s[0] == 0x2D then 1 else 0) && IntegerPart(s, i) == Some(k)
    requires k < |s| && (s[k] == 0x2E || s[k] == 0x45 || s[k] == 0x65)
    requires j <= |s| && FractionPart(s, k) == Some(j) && ExponentPart(s, j) == Some(e)
    ensures e <= |s| && LexNumber(s) == (RealTok(s[..e]), s[e..])
  {
    hide IntegerPart; hide IntegerToken; hide FractionPart; hide ExponentPart;
  }

  lemma TailsStart(n: Number, after: seq<Byte>)
    requires IsNumber(n)
    requires EndsNumber(n, after)
    ensures var a := n.frac + n.exp + after; a == [] || !IsDigit(a[0])
    ensures var b := n.exp + after; b == [] || (!IsDigit(b[0]) && (n.frac == [] ==> b[0] != 0x2E))
    ensures after == [] || (!IsDigit(after[0]) && (n.exp == [] ==> after[0] != 0x45 && after[0] != 0x65))
    ensures n.frac == [] && n.exp == [] && after != [] ==> after[0] != 0x2E && after[0] != 0x45 && after[0] != 0x65
  {
  }

  lemma NumberStarts(n: Number, after: seq<Byte>)
    requires IsNumber(n)
    ensures var s, k := NumberText(n) + after, |n.minus| + |n.whole|;
            && NumberText(n) != [] && (s[0] == 0x2D <==> n.minus != [])
            && (n.frac != [] ==> s[k] == 0x2E)
            && (n.frac == [] && n.exp != [] ==> s[k] == 0x45 || s[k] == 0x65)
            && (n.frac == [] && n.exp == [] && after != [] ==> s[k] == after[0])
  {
    assert n.whole[0] in n.whole;
  }

  lemma WholeIsLexed(s: seq<Byte>, i: nat, whole: seq<Byte>, after: seq<Byte>)
    requires i <= |s| && s[i..] == whole + after && IsWhole(whole) && (after == [] || !IsDigit(after[0]))
    ensures IntegerPart(s, i) == Some(i + |whole|)
  {
    assert s[i] == whole[0];
    if whole == [0x30] {
      assert after != [] ==> s[i + 1] == after[0];
    } else {
      JsonRoundTrip.DigitRunOf(whole, after);
    }
  }

  lemma FractionIsLexed(s: seq<Byte>, k: nat, frac: seq<Byte>, after: seq<Byte>)
    requires k <= |s| && s[k..] == frac + after && IsFraction(frac)
    requires after == [] || (!IsDigit(after[0]) && (frac == [] ==> after[0] != 0x2E))
    ensures FractionPart(s, k) == Some(k + |frac|)
  {
    if frac == [] {
      assert after != [] ==> s[k] == after[0];
    } else {
      assert s[k] == frac[0];
      assert s[k + 1..] == frac[1..] + after;
      assert s[k + 1] == frac[1..][0];
      JsonRoundTrip.DigitRunOf(frac[1..], after);
    }
  }

  lemma ExponentIsLexed(s: seq<Byte>, j: nat, exp: seq<Byte>, after: seq<Byte>)
    requires j <= |s| && s[j..] == exp + after && IsExponent(exp)
    requires after == [] || (!IsDigit(after[0]) && (exp == [] ==> after[0] != 0x45 && after[0] != 0x65))
    ensures ExponentPart(s, j) == Some(j + |exp|)
  {
    if exp == [] {
      assert after != [] ==> s[j] == after[0];
    } else {
      assert s[j] == exp[0] && s[j + 1] == exp[1];
      var d := if exp[1] == 0x2B || exp[1] == 0x2D then 2 else 1;
      assert IsDigit(exp[1]) ==> d == 1;
      assert IsDigits(exp[d..]);
      assert s[j + d..] == exp[d..] + after;
      assert s[j + d] == exp[d..][0];
      JsonRoundTrip.DigitRunOf(exp[d..], after);
    }
  }
}
