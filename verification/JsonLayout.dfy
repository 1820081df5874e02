/** The layout of dumped text, byte by byte: white space, indentation and escapes as the flags demand. */
module JsonLayout {
  import opened Bytes
  import opened Utf8
  import opened JsonString
  import opened Json

  // ------------------------------------------------------------------ reading a text from left to right

  datatype Mode = Outside | Inside | Escaped | Hex(read: nat, value: nat)

  /** Where a reader stands: outside or inside a string literal, how many brackets are open, the last byte outside that
      was not white space (-1 at the start), and the white space since. */
  datatype Place = Place(mode: Mode, depth: int, prev: int, gap: seq<Byte>)

  const START := Place(Outside, 0, -1, [])

  predicate IsWhite(b: int) {
    b == 32 || b == 9 || b == 10 || b == 13
  }

  predicate IsOpener(b: int) {
    b == 91 || b == 123
  }

  predicate IsCloser(b: int) {
    b == 93 || b == 125
  }

  predicate IsLowerHex(b: int) {
    48 <= b <= 57 || 97 <= b <= 102
  }

  function LowerHex(b: int): (v: nat)
    requires IsLowerHex(b)
  {
    if b <= 57 then b - 48 else b - 87
  }

  function Step(p: Place, b: Byte): (q: Place) {
    match p.mode
    case Outside =>
      if IsWhite(b) then p.(gap := p.gap + [b])
      else
        Place(if b == 34 then Inside else Outside,
              p.depth + (if IsOpener(b) then 1 else if IsCloser(b) then -1 else 0), b, [])
    case Inside => p.(mode := if b == 34 then Outside else if b == 92 then Escaped else Inside)
    case Escaped => p.(mode := if b == 117 then Hex(0, 0) else Inside)
    case Hex(k, v) => p.(mode := if k >= 3 || !IsLowerHex(b) then Inside else Hex(k + 1, v * 16 + LowerHex(b)))
  }

  function After(p: Place, t: seq<Byte>): (q: Place)
    decreases |t|
  {
    if t == [] then p else After(Step(p, t[0]), t[1..])
  }

  // ------------------------------------------------------------------ the law

  /** The white space between `prev` and `b` where `depth` brackets are open. */
  ghost function Wanted(prev: int, b: int, depth: int, f: DumpFlags): (ws: seq<Byte>) {
    if prev == -1 || (IsOpener(prev) && IsCloser(b)) then []
    else if f.indent > 0 && (prev == 44 || IsOpener(prev) || IsCloser(b)) then
      [10] + Blanks(f.indent * if IsCloser(b) then depth - 1 else depth)
    else if (prev == 44 || prev == 58) && !f.compact then [32]
    else []
  }

  ghost function Blanks(n: int): (ws: seq<Byte>)
    ensures |ws| == (if n < 0 then 0 else n) && forall i :: 0 <= i < |ws| ==> ws[i] == 32
  {
    seq(if n < 0 then 0 else n, _ => 32)
  }

  /** A byte that may stand here. Outside literals the white space before it must be as wanted, and a closing bracket
      closes an open one, not behind a comma or colon; inside, a character is escaped only if it has to be, in two
      characters if it can be, and otherwise by code units in lower case. */
  ghost predicate Fine(p: Place, b: Byte, f: DumpFlags) {
    match p.mode
    case Outside =>
      IsWhite(b) ||
      ((IsCloser(b) ==> p.depth > 0 && p.prev != 44 && p.prev != 58) && p.gap == Wanted(p.prev, b, p.depth, f))
    case Inside => b >= 32 && !(b == 47 && f.escapeSlash) && !(b >= 128 && f.ensureAscii)
    case Escaped => b in {34, 92, 98, 102, 110, 114, 116, 117} || (b == 47 && f.escapeSlash)
    case Hex(k, v) => IsLowerHex(b) && (k == 3 ==> FineUnit(v * 16 + LowerHex(b), f))
  }

  /** A code unit that has no other spelling. */
  ghost predicate FineUnit(u: int, f: DumpFlags) {
    if u < 128 then u < 32 && u !in {8, 9, 10, 12, 13} else f.ensureAscii
  }

  ghost predicate Obeys(p: Place, t: seq<Byte>, f: DumpFlags)
    decreases |t|
  {
    t == [] || (Fine(p, t[0], f) && Obeys(Step(p, t[0]), t[1..], f))
  }

  /** Outside, with `depth` open brackets and a finished value behind. */
  ghost predicate Settled(p: Place, depth: int) {
    && p.mode == Outside && p.depth == depth && p.gap == []
    && p.prev !in {-1, 44, 58} && !IsOpener(p.prev)
  }

  // ------------------------------------------------------------------ pieces of text

  lemma {:induction false} Joined(p: Place, a: seq<Byte>, b: seq<Byte>, f: DumpFlags)
    ensures After(p, a + b) == After(After(p, a), b)
    ensures Obeys(p, a + b, f) <==> Obeys(p, a, f) && Obeys(After(p, a), b, f)
    decreases |a|
  {
    hide Step; hide Fine;
    if a == [] {
      assert a + b == b;
    } else {
      assert (a + b)[1..] == a[1..] + b;
      Joined(Step(p, a[0]), a[1..], b, f);
    }
  }

  lemma First(p: Place, b: Byte, t: seq<Byte>, f: DumpFlags)
    ensures After(p, [b] + t) == After(Step(p, b), t)
    ensures Obeys(p, [b] + t, f) <==> Fine(p, b, f) && Obeys(Step(p, b), t, f)
  {
    hide Step; hide Fine;
    assert ([b] + t)[1..] == t;
  }

  lemma Nothing(p: Place, f: DumpFlags)
    ensures After(p, []) == p && Obeys(p, [], f)
  {
  }

  lemma One(p: Place, b: Byte, f: DumpFlags)
    ensures After(p, [b]) == Step(p, b) && (Obeys(p, [b], f) <==> Fine(p, b, f))
  {
    hide Step; hide Fine;
    First(p, b, [], f);
    Nothing(Step(p, b), f);
    assert [b] + [] == [b];
  }

  lemma {:induction false} WhiteRun(p: Place, ws: seq<Byte>, f: DumpFlags)
    requires p.mode == Outside && forall i :: 0 <= i < |ws| ==> IsWhite(ws[i])
    ensures Obeys(p, ws, f) && After(p, ws) == p.(gap := p.gap + ws)
    decreases |ws|
  {
    if ws == [] {
      assert p.gap + ws == p.gap;
    } else {
      WhiteRun(Step(p, ws[0]), ws[1..], f);
      assert p.gap + [ws[0]] + ws[1..] == p.gap + ws;
    }
  }

  // ------------------------------------------------------------------ string literals

  lemma HexIsLower(d: nat)
    requires d < 16
    ensures IsLowerHex(HexDigit(d)) && LowerHex(HexDigit(d)) == d
  {
  }

  lemma HexStep(p: Place, k: nat, v: nat, d: nat, f: DumpFlags)
    requires p.mode == Hex(k, v) && d < 16 && k <= 3 && (k == 3 ==> FineUnit(v * 16 + d, f))
    ensures Fine(p, HexDigit(d), f)
    ensures Step(p, HexDigit(d)) == p.(mode := if k == 3 then Inside else Hex(k + 1, v * 16 + d))
  {
    HexIsLower(d);
    hide FineUnit; hide HexDigit;
  }

  lemma HexDigitsRead(p: Place, a: nat, b: nat, c: nat, d: nat, f: DumpFlags)
    requires p.mode == Hex(0, 0) && a < 16 && b < 16 && c < 16 && d < 16
    requires FineUnit(((a * 16 + b) * 16 + c) * 16 + d, f)
    ensures var t := [HexDigit(a)] + ([HexDigit(b)] + ([HexDigit(c)] + [HexDigit(d)]));
            Obeys(p, t, f) && After(p, t) == p.(mode := Inside)
  {
    hide Step; hide Fine; hide FineUnit; hide HexDigit;
    var p1 := p.(mode := Hex(1, a));
    var p2 := p.(mode := Hex(2, a * 16 + b));
    var p3 := p.(mode := Hex(3, (a * 16 + b) * 16 + c));
    HexStep(p, 0, 0, a, f);
    HexStep(p1, 1, a, b, f);
    HexStep(p2, 2, a * 16 + b, c, f);
    HexStep(p3, 3, (a * 16 + b) * 16 + c, d, f);
    One(p3, HexDigit(d), f);
    First(p2, HexDigit(c), [HexDigit(d)], f);
    First(p1, HexDigit(b), [HexDigit(c)] + [HexDigit(d)], f);
    First(p, HexDigit(a), [HexDigit(b)] + ([HexDigit(c)] + [HexDigit(d)]), f);
  }

  lemma UnitRead(p: Place, v: nat, f: DumpFlags)
    requires p.mode == Inside && v < 0x10000 && FineUnit(v, f)
    ensures Obeys(p, UEscape(v), f) && After(p, UEscape(v)) == p
  {
    var a, b, c, d := v / 4096, v / 256 % 16, v / 16 % 16, v % 16;
    FourDigitsOf(v);
    hide FineUnit; hide HexDigit;
    var digits := [HexDigit(a)] + ([HexDigit(b)] + ([HexDigit(c)] + [HexDigit(d)]));
    HexDigitsRead(p.(mode := Hex(0, 0)), a, b, c, d, f);
    First(p.(mode := Escaped), 117, digits, f);
    First(p, 92, [117] + digits, f);
    assert UEscape(v) == [92] + ([117] + digits);
  }

  lemma FourDigitsOf(v: nat)
    requires v < 0x10000
    ensures v / 4096 < 16 && v == ((v / 4096 * 16 + v / 256 % 16) * 16 + v / 16 % 16) * 16 + v % 16
  {
    assert v / 256 == v / 16 / 16 && v / 4096 == v / 256 / 16;
  }

  lemma ShortRead(p: Place, c: Byte, f: DumpFlags)
    requires p.mode == Inside && (c in {34, 92, 98, 102, 110, 114, 116} || (c == 47 && f.escapeSlash))
    ensures Obeys(p, [92, c], f) && After(p, [92, c]) == p
  {
    One(p.(mode := Escaped), c, f);
    First(p, 92, [c], f);
    assert [92, c] == [92] + [c];
  }

  lemma {:induction false} RawRead(p: Place, raw: seq<Byte>, f: DumpFlags)
    requires p.mode == Inside
    requires forall i :: 0 <= i < |raw| ==>
               raw[i] >= 32 && raw[i] != 34 && raw[i] != 92 && !(raw[i] == 47 && f.escapeSlash) &&
               !(raw[i] >= 128 && f.ensureAscii)
    ensures Obeys(p, raw, f) && After(p, raw) == p
    decreases |raw|
  {
    if raw == [] {
    } else {
      RawRead(p, raw[1..], f);
      assert Step(p, raw[0]) == p;
    }
  }

  lemma CharRead(p: Place, cp: Scalar, f: DumpFlags)
    requires p.mode == Inside
    ensures Obeys(p, CharText(cp, f), f) && After(p, CharText(cp, f)) == p
  {
    hide Step; hide Fine; hide Obeys; hide After; hide UEscape;
    if !NeedsEscape(cp, f) {
      RawRead(p, Encode(cp), f);
    } else if cp == 0x5C || cp == 0x22 || cp == 0x2F {
      ShortRead(p, cp, f);
    } else if cp == 0x08 {
      ShortRead(p, 98, f);
    } else if cp == 0x0C {
      ShortRead(p, 102, f);
    } else if cp == 0x0A {
      ShortRead(p, 110, f);
    } else if cp == 0x0D {
      ShortRead(p, 114, f);
    } else if cp == 0x09 {
      ShortRead(p, 116, f);
    } else if cp < 0x10000 {
      UnitRead(p, cp, f);
    } else {
      var high, low := 0xD800 + (cp - 0x10000) / 1024, 0xDC00 + (cp - 0x10000) % 1024;
      UnitRead(p, high, f);
      UnitRead(p, low, f);
      Joined(p, UEscape(high), UEscape(low), f);
    }
  }

  lemma {:induction false} CharsRead(p: Place, cps: seq<Scalar>, f: DumpFlags)
    requires p.mode == Inside
    ensures Obeys(p, CharsText(cps, f), f) && After(p, CharsText(cps, f)) == p
    decreases |cps|
  {
    hide CharText;
    if cps == [] {
    } else {
      CharRead(p, cps[0], f);
      CharsRead(p, cps[1..], f);
      Joined(p, CharText(cps[0], f), CharsText(cps[1..], f), f);
    }
  }

  /** Ready for a value or a key: the white space so far is what the first byte of one wants. */
  ghost predicate Ready(p: Place, depth: int, f: DumpFlags) {
    p.mode == Outside && p.depth == depth && p.gap == Wanted(p.prev, 0, depth, f)
  }

  lemma LiteralLaid(p: Place, s: seq<Byte>, f: DumpFlags)
    requires Ready(p, p.depth, f) && Decode(s).Some?
    ensures Obeys(p, StringLiteral(s, f), f) && Settled(After(p, StringLiteral(s, f)), p.depth)
  {
    hide Decode; hide CharsText; hide Obeys; hide After;
    var body := CharsText(Decode(s).value, f);
    var inside := Place(Inside, p.depth, 34, []);
    First(p, 34, body + [34], f);
    CharsRead(inside, Decode(s).value, f);
    Joined(inside, body, [34], f);
    One(inside, 34, f);
    assert [34] + body + [34] == [34] + (body + [34]);
  }

  // ------------------------------------------------------------------ scalars

  /** The bytes of a number. */
  ghost predicate Numeric(s: seq<Byte>) {
    s != [] && forall b <- s :: 48 <= b <= 57 || b == 43 || b == 45 || b == 46 || b == 69 || b == 101
  }

  /** Strings and keys are UTF-8, and reals are written as numbers. */
  ghost predicate Tidy(v: Json) {
    match v
    case Real(lexeme) => Numeric(lexeme)
    case String(s) => Decode(s).Some?
    case Array(elems) => forall e <- elems :: Tidy(e)
    case Object(members) => forall m <- members :: Decode(m.key).Some? && Tidy(m.value)
    case _ => true
  }

  /** A byte of a word or a number. */
  predicate IsPlain(b: int) {
    (b >= 48 || b == 43 || b == 45 || b == 46) && b != 58 && !IsOpener(b) && !IsCloser(b) && !IsWhite(b)
  }

  lemma {:induction false} PlainRun(p: Place, t: seq<Byte>, f: DumpFlags)
    requires Ready(p, p.depth, f) && t != [] && forall i :: 0 <= i < |t| ==> IsPlain(t[i])
    ensures Obeys(p, t, f) && Settled(After(p, t), p.depth)
    decreases |t|
  {
    var q := Step(p, t[0]);
    assert t == [t[0]] + t[1..];
    First(p, t[0], t[1..], f);
    hide Obeys; hide After;
    if |t| == 1 {
      Nothing(q, f);
    } else {
      PlainRun(q, t[1..], f);
    }
  }

  lemma NumberIsPlain(i: int)
    ensures IntegerText(i) != [] && forall k :: 0 <= k < |IntegerText(i)| ==> IsPlain(IntegerText(i)[k])
  {
    var ds := Digits(if i < 0 then -i else i);
    forall k | 0 <= k < |ds| ensures 48 <= ds[k] <= 57 {
      assert ds[k] in ds;
    }
  }

  lemma LexemeIsPlain(s: seq<Byte>)
    requires Numeric(s)
    ensures forall k :: 0 <= k < |s| ==> IsPlain(s[k])
  {
    forall k | 0 <= k < |s| ensures IsPlain(s[k]) {
      assert s[k] in s;
    }
  }

  lemma ScalarLaid(p: Place, w: Json, f: DumpFlags, depth: nat)
    requires Ready(p, p.depth, f) && Tidy(w) && !w.Array? && !w.Object?
    ensures Obeys(p, Text(w, f, depth), f) && Settled(After(p, Text(w, f, depth)), p.depth)
  {
    hide Obeys; hide After; hide Ready; hide Settled;
    match w
    case String(s) => LiteralLaid(p, s, f);
    case Integer(i) =>
      NumberIsPlain(i);
      PlainRun(p, IntegerText(i), f);
    case Real(lexeme) =>
      LexemeIsPlain(lexeme);
      PlainRun(p, lexeme, f);
    case _ => PlainRun(p, Text(w, f, depth), f);
  }

  // ------------------------------------------------------------------ containers

  /** Indentation as the writer puts it is white space. */
  lemma IndentIsWhite(f: DumpFlags, depth: nat, space: bool)
    ensures forall i :: 0 <= i < |Indent(f, depth, space)| ==> IsWhite(Indent(f, depth, space)[i])
    ensures f.indent > 0 ==> Indent(f, depth, space) == [10] + Blanks(f.indent * depth)
    ensures f.indent == 0 ==> Indent(f, depth, space) == if space && !f.compact then [32] else []
  {
    if f.indent > 0 {
      assert depth * f.indent == f.indent * depth;
      assert Spaces(depth * f.indent) == Blanks(f.indent * depth);
    }
  }

  /** Behind an opening bracket. */
  lemma Opened(p: Place, open: Byte, f: DumpFlags, depth: nat)
    requires Ready(p, depth, f) && IsOpener(open)
    ensures var t := [open] + Indent(f, depth + 1, false);
            Obeys(p, t, f) && Ready(After(p, t), depth + 1, f)
  {
    hide Indent; hide Obeys; hide After;
    var q := Step(p, open);
    IndentIsWhite(f, depth + 1, false);
    First(p, open, Indent(f, depth + 1, false), f);
    WhiteRun(q, Indent(f, depth + 1, false), f);
    assert [] + Indent(f, depth + 1, false) == Indent(f, depth + 1, false);
  }

  /** Behind a comma. */
  lemma Continued(p: Place, f: DumpFlags, depth: nat)
    requires Settled(p, depth + 1)
    ensures var t := [0x2C] + Indent(f, depth + 1, true);
            Obeys(p, t, f) && Ready(After(p, t), depth + 1, f)
  {
    hide Indent; hide Obeys; hide After;
    var q := Step(p, 44);
    IndentIsWhite(f, depth + 1, true);
    First(p, 44, Indent(f, depth + 1, true), f);
    WhiteRun(q, Indent(f, depth + 1, true), f);
    assert [] + Indent(f, depth + 1, true) == Indent(f, depth + 1, true);
  }

  /** In front of a closing bracket. */
  ghost predicate Closing(p: Place, depth: int, f: DumpFlags) {
    && p.mode == Outside && p.depth == depth + 1 && p.prev !in {-1, 44, 58} && !IsOpener(p.prev)
    && p.gap == Wanted(p.prev, 93, depth + 1, f) == Wanted(p.prev, 125, depth + 1, f)
  }

  lemma Finished(p: Place, f: DumpFlags, depth: nat)
    requires Settled(p, depth + 1)
    ensures Obeys(p, Indent(f, depth, false), f) && Closing(After(p, Indent(f, depth, false)), depth, f)
  {
    hide Indent; hide Obeys; hide After;
    IndentIsWhite(f, depth, false);
    WhiteRun(p, Indent(f, depth, false), f);
    assert [] + Indent(f, depth, false) == Indent(f, depth, false);
  }

  lemma Closed(p: Place, close: Byte, f: DumpFlags, depth: nat)
    requires Closing(p, depth, f) && IsCloser(close)
    ensures Obeys(p, [close], f) && Settled(After(p, [close]), depth)
  {
    One(p, close, f);
    hide Obeys; hide After;
  }

  /** Behind a key. */
  lemma Separated(p: Place, f: DumpFlags, depth: nat)
    requires Settled(p, depth)
    ensures Obeys(p, Separator(f), f) && Ready(After(p, Separator(f)), depth, f)
  {
    One(p, 58, f);
    hide Obeys; hide After;
    if !f.compact {
      First(p, 58, [32], f);
      One(Step(p, 58), 32, f);
      assert Separator(f) == [58] + [32];
    }
  }

  lemma EmptyLaid(p: Place, open: Byte, close: Byte, f: DumpFlags, depth: nat)
    requires Ready(p, depth, f) && IsOpener(open) && IsCloser(close)
    ensures Obeys(p, [open, close], f) && Settled(After(p, [open, close]), depth)
  {
    One(Step(p, open), close, f);
    First(p, open, [close], f);
    hide Obeys; hide After;
    assert [open, close] == [open] + [close];
  }

  /** A container from its opening to its closing bracket, given what the body does. */
  lemma BracketsLaid(p: Place, open: Byte, body: seq<Byte>, close: Byte, f: DumpFlags, depth: nat)
    requires Ready(p, depth, f) && IsOpener(open) && IsCloser(close)
    requires var q := After(p, [open] + Indent(f, depth + 1, false));
             Obeys(q, body, f) && Closing(After(q, body), depth, f)
    ensures var t := [open] + Indent(f, depth + 1, false) + body + [close];
            Obeys(p, t, f) && Settled(After(p, t), depth)
  {
    hide Indent; hide Obeys; hide After; hide Ready; hide Closing; hide Settled;
    var head := [open] + Indent(f, depth + 1, false);
    var q := After(p, head);
    Opened(p, open, f, depth);
    Joined(p, head, body, f);
    Joined(p, head + body, [close], f);
    Closed(After(q, body), close, f, depth);
  }

  lemma {:induction false} ElemsLaid(p: Place, elems: seq<Json>, f: DumpFlags, depth: nat)
    requires Ready(p, depth + 1, f) && elems != [] && forall e <- elems :: Tidy(e)
    ensures Obeys(p, ElemsText(elems, f, depth), f) && Closing(After(p, ElemsText(elems, f, depth)), depth, f)
    decreases elems, 0
  {
    hide Text; hide Tidy; hide Indent; hide Obeys; hide After; hide Ready; hide Closing; hide Settled;
    var text := Text(elems[0], f, depth + 1);
    ValueLaid(p, elems[0], f, depth + 1);
    var q := After(p, text);
    if |elems| == 1 {
      Finished(q, f, depth);
      Joined(p, text, Indent(f, depth, false), f);
    } else {
      var comma, more := [0x2C] + Indent(f, depth + 1, true), ElemsText(elems[1..], f, depth);
      Continued(q, f, depth);
      ElemsLaid(After(q, comma), elems[1..], f, depth);
      Joined(q, comma, more, f);
      Joined(p, text, comma + more, f);
    }
  }

  lemma {:induction false} MembersLaid(p: Place, ms: seq<Member>, f: DumpFlags, depth: nat)
    requires Ready(p, depth + 1, f) && ms != [] && forall m <- ms :: Decode(m.key).Some? && Tidy(m.value)
    ensures Obeys(p, MembersText(ms, f, depth), f) && Closing(After(p, MembersText(ms, f, depth)), depth, f)
    decreases ms, 0
  {
    hide Text; hide Tidy; hide Indent; hide Obeys; hide After; hide Ready; hide Closing; hide Settled;
    hide StringLiteral; hide Separator; hide Decode;
    assert ms[0] in ms;
    var head := StringLiteral(ms[0].key, f) + Separator(f) + Text(ms[0].value, f, depth + 1);
    MemberLaid(p, ms[0], f, depth);
    var q := After(p, head);
    if |ms| == 1 {
      Finished(q, f, depth);
      Joined(p, head, Indent(f, depth, false), f);
    } else {
      var comma, more := [0x2C] + Indent(f, depth + 1, true), MembersText(ms[1..], f, depth);
      Continued(q, f, depth);
      MembersLaid(After(q, comma), ms[1..], f, depth);
      Joined(q, comma, more, f);
      Joined(p, head, comma + more, f);
    }
  }

  lemma {:induction false} MemberLaid(p: Place, m: Member, f: DumpFlags, depth: nat)
    requires Ready(p, depth + 1, f) && Decode(m.key).Some? && Tidy(m.value)
    ensures var t := StringLiteral(m.key, f) + Separator(f) + Text(m.value, f, depth + 1);
            Obeys(p, t, f) && Settled(After(p, t), depth + 1)
    decreases m, 2
  {
    ReadyDepth(p, depth + 1, f);
    hide Text; hide Tidy; hide Obeys; hide After; hide Ready; hide Settled; hide StringLiteral; hide Separator; hide Decode;
    var key, text := StringLiteral(m.key, f), Text(m.value, f, depth + 1);
    LiteralLaid(p, m.key, f);
    var q := After(p, key);
    Separated(q, f, depth + 1);
    Joined(p, key, Separator(f), f);
    var r := After(q, Separator(f));
    ValueLaid(r, m.value, f, depth + 1);
    Joined(p, key + Separator(f), text, f);
  }

  lemma ReadyDepth(p: Place, depth: int, f: DumpFlags)
    requires Ready(p, depth, f)
    ensures p.depth == depth
  {
  }

  /** The text of a value where one is due. */
  lemma {:induction false} ValueLaid(p: Place, w: Json, f: DumpFlags, depth: nat)
    requires Ready(p, depth, f) && Tidy(w)
    ensures Obeys(p, Text(w, f, depth), f) && Settled(After(p, Text(w, f, depth)), depth)
    decreases w, 1
  {
    hide Indent; hide Obeys; hide After; hide Closing; hide Settled; hide ElemsText; hide MembersText; hide Decode;
    match w
    case Array(elems) =>
      if elems == [] {
        EmptyLaid(p, 0x5B, 0x5D, f, depth);
      } else {
        Opened(p, 0x5B, f, depth);
        ElemsLaid(After(p, [0x5B] + Indent(f, depth + 1, false)), elems, f, depth);
        BracketsLaid(p, 0x5B, ElemsText(elems, f, depth), 0x5D, f, depth);
      }
    case Object(ms) =>
      if ms == [] {
        EmptyLaid(p, 0x7B, 0x7D, f, depth);
      } else {
        Opened(p, 0x7B, f, depth);
        MembersLaid(After(p, [0x7B] + Indent(f, depth + 1, false)), ms, f, depth);
        BracketsLaid(p, 0x7B, MembersText(ms, f, depth), 0x7D, f, depth);
      }
    case _ => ScalarLaid(p, w, f, depth);
  }

  // ------------------------------------------------------------------ dumped text

  lemma {:induction false} ArrangedElemsTidy(elems: seq<Json>, f: DumpFlags)
    requires forall e <- elems :: Tidy(e)
    ensures forall e <- ArrangeElems(elems, f) :: Tidy(e)
    decreases elems, 0
  {
    hide Tidy; hide Arrange;
    if elems == [] {
    } else {
      ArrangedIsTidy(elems[0], f);
      assert forall e <- elems[1..] :: e in elems;
      ArrangedElemsTidy(elems[1..], f);
    }
  }

  lemma {:induction false} ArrangedMembersTidy(ms: seq<Member>, f: DumpFlags)
    requires forall m <- ms :: Decode(m.key).Some? && Tidy(m.value)
    ensures forall m <- ArrangeMembers(ms, f) :: Decode(m.key).Some? && Tidy(m.value)
    decreases ms, 0
  {
    hide Decode; hide Tidy; hide Arrange;
    if ms == [] {
    } else {
      ArrangedIsTidy(ms[0].value, f);
      assert forall m <- ms[1..] :: m in ms;
      ArrangedMembersTidy(ms[1..], f);
    }
  }

  lemma {:induction false} ArrangedIsTidy(v: Json, f: DumpFlags)
    requires Tidy(v)
    ensures Tidy(Arrange(v, f))
    decreases v, 1
  {
    hide Decode; hide ArrangeElems; hide ArrangeMembers; hide Ordered;
    match v
    case Array(elems) => ArrangedElemsTidy(elems, f);
    case Object(ms) =>
      var am := ArrangeMembers(ms, f);
      ArrangedMembersTidy(ms, f);
      forall m <- Ordered(am, f) ensures m in am {
        assert m in multiset(Ordered(am, f));
      }
    case _ =>
  }

  /** Where a reader of `t` stands in front of its byte `i`. */
  ghost function At(t: seq<Byte>, i: nat): (p: Place)
    requires i <= |t|
  {
    After(START, t[..i])
  }

  /** Every byte may stand where it stands, and the text ends behind a value with all brackets closed. */
  ghost predicate LaidOut(t: seq<Byte>, f: DumpFlags) {
    (forall i :: 0 <= i < |t| ==> Fine(At(t, i), t[i], f)) && Settled(At(t, |t|), 0)
  }

  lemma AtUnfolds(t: seq<Byte>, i: nat)
    requires i < |t|
    ensures At(t, 0) == START && At(t, i + 1) == Step(At(t, i), t[i])
  {
    hide Step;
    var f := DumpFlags(0, false, false, false, false, false, false);
    assert t[..i + 1] == t[..i] + [t[i]];
    Joined(START, t[..i], [t[i]], f);
    One(At(t, i), t[i], f);
    Nothing(START, f);
    assert t[..0] == [];
  }

  lemma {:induction false} ObeysAt(t: seq<Byte>, f: DumpFlags, i: nat)
    requires Obeys(START, t, f) && i < |t|
    ensures Fine(At(t, i), t[i], f)
  {
    hide Step; hide Fine;
    Joined(START, t[..i], t[i..], f);
    assert t == t[..i] + t[i..];
    assert t[i..] == [t[i]] + t[i + 1..];
    First(At(t, i), t[i], t[i + 1..], f);
  }

  /** Everything dumped is laid out as the flags demand. */
  lemma DumpIsLaidOut(v: Json, f: DumpFlags)
    requires Tidy(v)
    ensures LaidOut(Dump(v, f), f)
  {
    hide Text; hide Arrange; hide Fine; hide Obeys; hide After; hide Step; hide Tidy; hide Settled;
    var t := Dump(v, f);
    ArrangedIsTidy(v, f);
    ValueLaid(START, Arrange(v, f), f, 0);
    assert t[..|t|] == t;
    forall i | 0 <= i < |t| ensures Fine(At(t, i), t[i], f) {
      ObeysAt(t, f, i);
    }
  }

  // ------------------------------------------------------------------ what that says of lines, spaces and slashes

  /** White space outside literals reaches up to a byte that is not white. */
  lemma {:induction false} NextSolid(t: seq<Byte>, i: nat, f: DumpFlags) returns (j: nat)
    requires LaidOut(t, f) && i < |t| && At(t, i).mode == Outside
    ensures i <= j < |t| && !IsWhite(t[j]) && (forall k :: i <= k < j ==> IsWhite(t[k]))
    ensures At(t, j) == At(t, i).(gap := At(t, i).gap + t[i..j])
    decreases |t| - i
  {
    AtUnfolds(t, i);
    if !IsWhite(t[i]) {
      j := i;
      assert t[i..i] == [] && At(t, i).gap + [] == At(t, i).gap;
    } else {
      EndIsSolid(t, i, f);
      hide LaidOut; hide At;
      j := NextSolid(t, i + 1, f);
      assert At(t, i).gap + [t[i]] + t[i + 1..j] == At(t, i).gap + t[i..j];
    }
  }

  lemma EndIsSolid(t: seq<Byte>, i: nat, f: DumpFlags)
    requires LaidOut(t, f) && i < |t| && At(t, i).mode == Outside && IsWhite(t[i])
    ensures i + 1 < |t| && At(t, i + 1).mode == Outside
  {
    AtUnfolds(t, i);
    hide After;
  }

  /** The white space in front of a byte outside literals that is not white. */
  lemma GapIsWanted(t: seq<Byte>, i: nat, j: nat, f: DumpFlags)
    requires LaidOut(t, f) && i <= j < |t| && At(t, i).mode == Outside && !IsWhite(t[j])
    requires At(t, j) == At(t, i).(gap := At(t, i).gap + t[i..j])
    ensures At(t, i).gap + t[i..j] == Wanted(At(t, i).prev, t[j], At(t, i).depth, f)
  {
    hide After; hide Wanted;
    assert Fine(At(t, j), t[j], f);
  }

  lemma {:induction false} DepthIsNatural(t: seq<Byte>, i: nat, f: DumpFlags)
    requires LaidOut(t, f) && i <= |t|
    ensures At(t, i).depth >= 0
    decreases i
  {
    hide After;
    if i == 0 {
      AtStart(t);
    } else {
      DepthIsNatural(t, i - 1, f);
      AtUnfolds(t, i - 1);
      assert Fine(At(t, i - 1), t[i - 1], f);
      hide At;
    }
  }

  lemma AtStart(t: seq<Byte>)
    ensures At(t, 0) == START
  {
    assert t[..0] == [];
  }

  /** Inside a literal the quote is the last byte seen outside. */
  lemma {:induction false} InsideIsQuoted(t: seq<Byte>, i: nat)
    requires i <= |t| && At(t, i).mode != Outside
    ensures At(t, i).prev == 34 && At(t, i).gap == []
    decreases i
  {
    hide After;
    if i == 0 {
      AtStart(t);
    } else {
      AtUnfolds(t, i - 1);
      if At(t, i - 1).mode != Outside {
        InsideIsQuoted(t, i - 1);
      }
      hide At;
    }
  }

  /** Without white space in between, the last byte seen outside is the one before. */
  lemma PrevIsBefore(t: seq<Byte>, i: nat)
    requires 0 < i <= |t| && At(t, i).mode == Outside && At(t, i).gap == []
    ensures At(t, i).prev == t[i - 1]
  {
    hide After;
    AtUnfolds(t, i - 1);
    if At(t, i - 1).mode != Outside {
      InsideIsQuoted(t, i - 1);
    }
    hide At;
  }

  /** Every line starts with as many blanks, times the indentation, as brackets are open there, a closing bracket counted
      first. Without indentation there is one line. */
  lemma LinesAreIndented(t: seq<Byte>, i: nat, f: DumpFlags) returns (j: nat)
    requires LaidOut(t, f) && i < |t| && At(t, i).mode == Outside && t[i] == 10
    ensures f.indent > 0 && i < j < |t| && !IsWhite(t[j]) && (forall k :: i < k < j ==> t[k] == 32)
    ensures At(t, j).mode == Outside
    ensures j - i - 1 == f.indent * (At(t, j).depth - if IsCloser(t[j]) then 1 else 0)
  {
    j := NextSolid(t, i, f);
    GapIsWanted(t, i, j, f);
    DepthIsNatural(t, j, f);
    assert Fine(At(t, j), t[j], f);
    hide LaidOut; hide At;
    LineGap(At(t, i), t, i, j, f);
  }

  lemma LineGap(p: Place, t: seq<Byte>, i: nat, j: nat, f: DumpFlags)
    requires i < j < |t| && t[i] == 10 && p.gap + t[i..j] == Wanted(p.prev, t[j], p.depth, f)
    requires p.depth >= if IsCloser(t[j]) then 1 else 0
    ensures f.indent > 0 && forall k :: i < k < j ==> t[k] == 32
    ensures j - i - 1 == f.indent * (p.depth - if IsCloser(t[j]) then 1 else 0)
  {
    var w := p.gap + t[i..j];
    assert w[|p.gap|] == 10;
    assert p.gap == [];
    assert w == t[i..j];
    forall k | i < k < j ensures t[k] == 32 {
      assert w[k - i] == t[k];
    }
  }

  /** What follows a byte outside literals: the next one that is not white, with exactly the white space wanted. */
  lemma WhatFollows(t: seq<Byte>, i: nat, f: DumpFlags) returns (j: nat)
    requires LaidOut(t, f) && i < |t| && At(t, i).mode == Outside
    requires t[i] in {44, 58} || IsOpener(t[i])
    ensures i < j < |t| && At(t, i + 1).prev == t[i] && t[i + 1..j] == Wanted(t[i], t[j], At(t, i + 1).depth, f)
    ensures !IsWhite(t[j]) && (IsCloser(t[j]) ==> IsOpener(t[i]))
  {
    AtUnfolds(t, i);
    assert Settled(At(t, |t|), 0);
    assert i + 1 < |t|;
    hide After;
    j := NextSolid(t, i + 1, f);
    GapIsWanted(t, i + 1, j, f);
    assert [] + t[i + 1..j] == t[i + 1..j];
    assert Fine(At(t, j), t[j], f);
  }

  /** With indentation every element and every member stands on a line of its own, and so does a closing bracket unless
      the container is empty. */
  lemma OneItemPerLine(t: seq<Byte>, i: nat, f: DumpFlags)
    requires LaidOut(t, f) && i < |t| && At(t, i).mode == Outside && f.indent > 0
    ensures t[i] == 44 ==> i + 1 < |t| && t[i + 1] == 10
    ensures IsOpener(t[i]) ==> i + 1 < |t| && (t[i + 1] == 10 || IsCloser(t[i + 1]))
    ensures IsCloser(t[i]) ==> i > 0 && (IsOpener(t[i - 1]) || t[i - 1] == 10 || t[i - 1] == 32)
  {
    if t[i] == 44 || IsOpener(t[i]) {
      var j := WhatFollows(t, i, f);
      hide LaidOut; hide At;
      assert j > i + 1 ==> t[i + 1..j][0] == t[i + 1];
    }
    if IsCloser(t[i]) {
      CloserStands(t, i, f);
    }
  }

  lemma CloserStands(t: seq<Byte>, i: nat, f: DumpFlags)
    requires LaidOut(t, f) && i < |t| && At(t, i).mode == Outside && f.indent > 0 && IsCloser(t[i])
    ensures i > 0 && (IsOpener(t[i - 1]) || t[i - 1] == 10 || t[i - 1] == 32)
  {
    hide After;
    AtStart(t);
    assert Fine(At(t, i), t[i], f);
    var p := At(t, i);
    assert i > 0;
    if p.gap == [] {
      PrevIsBefore(t, i);
      PrevIsSome(t, i);
    } else {
      LastOfGap(t, i);
    }
    hide At; hide LaidOut;
  }

  lemma PrevIsSome(t: seq<Byte>, i: nat)
    requires 0 < i <= |t| && At(t, i).mode == Outside && At(t, i).gap == []
    ensures At(t, i).prev != -1
  {
    PrevIsBefore(t, i);
    hide At;
  }

  lemma LastOfGap(t: seq<Byte>, i: nat)
    requires 0 < i <= |t| && At(t, i).mode == Outside && At(t, i).gap != []
    ensures At(t, i).gap[|At(t, i).gap| - 1] == t[i - 1]
  {
    hide After;
    AtUnfolds(t, i - 1);
    if At(t, i - 1).mode != Outside {
      InsideIsQuoted(t, i - 1);
    }
    hide At;
  }

  /** A colon is followed by one space unless COMPACT; without indentation so is a comma, and there is no other white
      space outside literals. */
  lemma SpacesAreWanted(t: seq<Byte>, i: nat, f: DumpFlags)
    requires LaidOut(t, f) && i < |t| && At(t, i).mode == Outside
    ensures t[i] == 58 || (t[i] == 44 && f.indent == 0) ==> i + 1 < |t| && (t[i + 1] == 32 <==> !f.compact)
    ensures IsWhite(t[i]) && f.indent == 0 ==> !f.compact && t[i] == 32 && i > 0 && t[i - 1] in {44, 58}
  {
    if t[i] == 58 || (t[i] == 44 && f.indent == 0) {
      var j := WhatFollows(t, i, f);
      hide LaidOut; hide At;
      assert j > i + 1 ==> t[i + 1..j][0] == t[i + 1];
    }
    if IsWhite(t[i]) && f.indent == 0 {
      SpaceIsWanted(t, i, f);
    }
  }

  lemma SpaceIsWanted(t: seq<Byte>, i: nat, f: DumpFlags)
    requires LaidOut(t, f) && i < |t| && At(t, i).mode == Outside && IsWhite(t[i]) && f.indent == 0
    ensures !f.compact && t[i] == 32 && i > 0 && t[i - 1] in {44, 58}
  {
    hide After;
    var j := NextSolid(t, i, f);
    GapIsWanted(t, i, j, f);
    var w := At(t, i).gap + t[i..j];
    assert w[|At(t, i).gap|] == t[i];
    assert At(t, i).gap == [];
    AtStart(t);
    PrevIsBefore(t, i);
  }

  /** A slash in a literal has a backslash before it exactly under ESCAPE_SLASH. */
  lemma SlashesAreEscaped(t: seq<Byte>, i: nat, f: DumpFlags)
    requires LaidOut(t, f) && i < |t| && At(t, i).mode != Outside && t[i] == 47
    ensures At(t, i).mode == Escaped <==> f.escapeSlash
    ensures f.escapeSlash ==> i > 0 && t[i - 1] == 92
  {
    hide After;
    AtStart(t);
    assert Fine(At(t, i), t[i], f);
    if i > 0 {
      AtUnfolds(t, i - 1);
    }
    hide At; hide LaidOut;
  }
}
