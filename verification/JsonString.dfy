/** JSON string literals: how dump.c writes them and how load.c reads them back
    (section 2.5 of RFC 4627; surrogate pairs from section 2 of RFC 2781). */
module JsonString {
  import opened Bytes
  import opened Utf8

  const QUOTE: Byte := 0x22
  const BACKSLASH: Byte := 0x5C
  const SLASH: Byte := 0x2F

  /** The dump flags; `indent` is what JSON_INDENT extracts, `flags & 0x1F`. */
  datatype DumpFlags = DumpFlags(indent: nat, compact: bool, ensureAscii: bool, sortKeys: bool,
                                 preserveOrder: bool, encodeAny: bool, escapeSlash: bool)

  // ------------------------------------------------------------------ hex digits

  function HexDigit(d: nat): (c: Byte)
    requires d < 16
  {
    if d < 10 then 0x30 + d else 0x61 + (d - 10)
  }

  predicate IsHex(c: int) {
    0x30 <= c <= 0x39 || 0x41 <= c <= 0x46 || 0x61 <= c <= 0x66
  }

  function HexValue(c: Byte): (d: nat)
    requires IsHex(c)
    ensures d < 16
  {
    if c <= 0x39 then c - 0x30 else if c >= 0x61 then c - 0x61 + 10 else c - 0x41 + 10
  }

  const HEX_LOWER: seq<Byte> := [48, 49, 50, 51, 52, 53, 54, 55, 56, 57, 97, 98, 99, 100, 101, 102]
  const HEX_UPPER: seq<Byte> := [48, 49, 50, 51, 52, 53, 54, 55, 56, 57, 65, 66, 67, 68, 69, 70]

  /** Hex digits are read in either case, with the same value, and written in lower case. */
  lemma HexDigits(c: Byte, d: nat)
    requires d < 16
    ensures IsHex(HEX_LOWER[d]) && HexValue(HEX_LOWER[d]) == d && HexDigit(d) == HEX_LOWER[d]
    ensures IsHex(HEX_UPPER[d]) && HexValue(HEX_UPPER[d]) == d
    ensures IsHex(c) <==> c in HEX_LOWER || c in HEX_UPPER
  {
  }

  /** Backslash, u and four lower-case hex digits. */
  function UEscape(v: nat): (s: seq<Byte>)
    requires v < 0x10000
    ensures |s| == 6
  {
    [BACKSLASH, 0x75, HexDigit(v / 4096), HexDigit(v / 256 % 16), HexDigit(v / 16 % 16), HexDigit(v % 16)]
  }

  /** `s` starts with a backslash, a u and four hex digits. */
  predicate IsUEscape(s: seq<Byte>) {
    |s| >= 6 && s[0] == BACKSLASH && s[1] == 0x75 && IsHex(s[2]) && IsHex(s[3]) && IsHex(s[4]) && IsHex(s[5])
  }

  function UValue(s: seq<Byte>): (v: nat)
    requires IsUEscape(s)
    ensures v < 0x10000
  {
    ((HexValue(s[2]) * 16 + HexValue(s[3])) * 16 + HexValue(s[4])) * 16 + HexValue(s[5])
  }

  /** The value of the first `n` hex digits. */
  function FirstDigits(s: seq<Byte>, n: nat): (v: nat)
    requires IsUEscape(s) && n <= 4
  {
    if n == 0 then 0 else FirstDigits(s, n - 1) * 16 + HexValue(s[n + 1])
  }

  lemma FourDigits(s: seq<Byte>)
    requires IsUEscape(s)
    ensures FirstDigits(s, 4) == UValue(s)
  {
    assert FirstDigits(s, 1) == HexValue(s[2]);
    assert FirstDigits(s, 2) == HexValue(s[2]) * 16 + HexValue(s[3]);
  }

  /** decode_unicode_escape; its assertions hold on every text the first pass let through. */
  method DecodeUnicodeEscape(s: seq<Byte>) returns (value: nat)
    requires IsUEscape(s)
    ensures value == UValue(s)
  {
    value := 0;
    for i := 1 to 5
      invariant value == FirstDigits(s, i - 1)
    {
      var c := s[i + 1];
      assert IsHex(c);
      value := value * 16;
      if 0x30 <= c <= 0x39 {
        value := value + (c - 0x30);
      } else if 0x61 <= c <= 0x7A {
        value := value + (c - 0x61 + 10);
      } else {
        assert 0x41 <= c <= 0x5A;
        value := value + (c - 0x41 + 10);
      }
    }
    FourDigits(s);
  }

  lemma HexRoundTrip(d: nat)
    requires d < 16
    ensures IsHex(HexDigit(d)) && HexValue(HexDigit(d)) == d
  {
  }

  lemma UEscapeRoundTrip(v: nat, rest: seq<Byte>)
    requires v < 0x10000
    ensures IsUEscape(UEscape(v) + rest) && UValue(UEscape(v) + rest) == v && (UEscape(v) + rest)[6..] == rest
  {
    HexRoundTrip(v / 4096);
    HexRoundTrip(v / 256 % 16);
    HexRoundTrip(v / 16 % 16);
    HexRoundTrip(v % 16);
    assert v / 256 == v / 16 / 16 && v / 4096 == v / 256 / 16;
  }

  // ------------------------------------------------------------------ writing

  predicate NeedsEscape(cp: Scalar, f: DumpFlags) {
    || cp == BACKSLASH || cp == QUOTE || cp < 0x20
    || (f.escapeSlash && cp == SLASH)
    || (f.ensureAscii && cp > 0x7F)
  }

  function EscapeText(cp: Scalar): (s: seq<Byte>) {
    match cp
    case 0x5C => [BACKSLASH, BACKSLASH]
    case 0x22 => [BACKSLASH, QUOTE]
    case 0x08 => [BACKSLASH, 0x62]
    case 0x0C => [BACKSLASH, 0x66]
    case 0x0A => [BACKSLASH, 0x6E]
    case 0x0D => [BACKSLASH, 0x72]
    case 0x09 => [BACKSLASH, 0x74]
    case 0x2F => [BACKSLASH, SLASH]
    case _ =>
      if cp < 0x10000 then UEscape(cp)
      else UEscape(0xD800 + (cp - 0x10000) / 1024) + UEscape(0xDC00 + (cp - 0x10000) % 1024)
  }

  function CharText(cp: Scalar, f: DumpFlags): (s: seq<Byte>) {
    if NeedsEscape(cp, f) then EscapeText(cp) else Encode(cp)
  }

  function CharsText(cps: seq<Scalar>, f: DumpFlags): (s: seq<Byte>)
    decreases |cps|
  {
    if cps == [] then [] else CharText(cps[0], f) + CharsText(cps[1..], f)
  }

  // ------------------------------------------------------------------ reading

  /** The letters that may follow a backslash other than u. */
  predicate IsShortEscape(c: int) {
    || c == QUOTE || c == BACKSLASH || c == SLASH || c == 0x62
    || c == 0x66 || c == 0x6E || c == 0x72 || c == 0x74
  }

  function ShortValue(c: Byte): (b: Byte)
    requires IsShortEscape(c)
  {
    if c == 0x62 then 0x08
    else if c == 0x66 then 0x0C
    else if c == 0x6E then 0x0A
    else if c == 0x72 then 0x0D
    else if c == 0x74 then 0x09
    else c
  }

  function Plus(k: nat, o: Option<nat>): (r: Option<nat>) {
    if o.None? then None else Some(k + o.value)
  }

  /** The first pass of lex_scan_string over what follows the opening quote: the distance to the closing
      quote, or None for a control character, a bad escape or the end of the input. */
  function ScanBody(s: seq<Byte>): (r: Option<nat>)
    ensures r.Some? ==> r.value < |s| && s[r.value] == QUOTE
    decreases |s|
  {
    if s == [] then None
    else if s[0] == QUOTE then Some(0)
    else if s[0] <= 0x1F then None
    else if s[0] == BACKSLASH then
      if |s| == 1 then None
      else if s[1] == 0x75 then if IsUEscape(s) then Plus(6, ScanBody(s[6..])) else None
      else if IsShortEscape(s[1]) then Plus(2, ScanBody(s[2..])) else None
    else Plus(1, ScanBody(s[1..]))
  }

  function Prepend(a: seq<Byte>, o: Option<seq<Byte>>): (r: Option<seq<Byte>>) {
    if o.None? then None else Some(a + o.value)
  }

  /** What the first pass guarantees about a backslash. */
  lemma ScanBackslash(s: seq<Byte>)
    requires ScanBody(s).Some?
    ensures |s| >= 1
    ensures s[0] == BACKSLASH ==> |s| >= 2 && ScanBody(s).value >= 2
    ensures s[0] == BACKSLASH && s[1] == 0x75 ==>
              IsUEscape(s) && ScanBody(s[6..]).Some? && ScanBody(s) == Plus(6, ScanBody(s[6..]))
  {
  }

  /** One turn of the second pass, before the closing quote: the bytes decoded and the distance moved, or None for
      an unpaired surrogate or a NUL. */
  function Turn(s: seq<Byte>): (r: Option<(seq<Byte>, nat)>)
    requires ScanBody(s).Some? && s[0] != QUOTE
    ensures r.Some? ==>
              var (bytes, k) := r.value;
              0 < k <= |s| && |bytes| <= k && ScanBody(s[k..]).Some? && ScanBody(s) == Plus(k, ScanBody(s[k..]))
  {
    if s[0] != BACKSLASH then Some(([s[0]], 1))
    else if s[1] != 0x75 then Some(([ShortValue(s[1])], 2))
    else
      var value, rest := UValue(s), s[6..];
      assert ScanBody(rest).Some?;
      if 0xD800 <= value <= 0xDBFF then
        if rest[0] == BACKSLASH && rest[1] == 0x75 && 0xDC00 <= UValue(rest) <= 0xDFFF then
          assert rest[6..] == s[12..];
          Some((Encode((value - 0xD800) * 1024 + (UValue(rest) - 0xDC00) + 0x10000), 12))
        else None
      else if 0xDC00 <= value <= 0xDFFF || value == 0 then None
      else Some((Encode(value), 6))
  }

  /** The second pass: decodes up to the closing quote. That it is defined at all wherever the first pass accepted
      means it finds the same escape boundaries and none of its assertions can fail; the bound means the decoded
      text fits the buffer allocated for it. */
  function Unescape(s: seq<Byte>): (r: Option<seq<Byte>>)
    requires ScanBody(s).Some?
    ensures r.Some? ==> |r.value| <= ScanBody(s).value
    decreases |s|
  {
    if s[0] == QUOTE then Some([])
    else
      match Turn(s)
      case None => None
      case Some((bytes, k)) => Prepend(bytes, Unescape(s[k..]))
  }

  // ------------------------------------------------------------------ round trip

  /** The reader's view of `text`: both passes step over it and the second yields `bytes`. */
  ghost predicate ReadsAs(text: seq<Byte>, bytes: seq<Byte>, t: seq<Byte>)
    requires ScanBody(t).Some?
  {
    && ScanBody(text + t) == Plus(|text|, ScanBody(t))
    && Unescape(text + t) == Prepend(bytes, Unescape(t))
  }

  lemma EmptyReadsAs(t: seq<Byte>)
    requires ScanBody(t).Some?
    ensures ReadsAs([], [], t)
  {
    assert [] + t == t;
    assert Unescape(t).Some? ==> [] + Unescape(t).value == Unescape(t).value;
  }

  lemma ReadsAsConcat(a: seq<Byte>, x: seq<Byte>, b: seq<Byte>, y: seq<Byte>, t: seq<Byte>)
    requires ScanBody(t).Some? && ReadsAs(b, y, t) && ScanBody(b + t).Some? && ReadsAs(a, x, b + t)
    ensures ReadsAs(a + b, x + y, t)
  {
    hide ScanBody;
    hide Unescape;
    assert a + b + t == a + (b + t);
    if Unescape(t).Some? {
      assert x + y + Unescape(t).value == x + (y + Unescape(t).value);
    }
  }

  lemma RawByteReadsAs(b: Byte, t: seq<Byte>)
    requires ScanBody(t).Some? && b >= 0x20 && b != QUOTE && b != BACKSLASH
    ensures ReadsAs([b], [b], t)
  {
    assert ([b] + t)[1..] == t;
  }

  lemma {:induction false} RawReadsAs(raw: seq<Byte>, t: seq<Byte>)
    requires ScanBody(t).Some?
    requires forall i :: 0 <= i < |raw| ==> raw[i] >= 0x20 && raw[i] != QUOTE && raw[i] != BACKSLASH
    ensures ReadsAs(raw, raw, t)
    decreases |raw|
  {
    hide ScanBody;
    hide Unescape;
    if raw == [] {
      EmptyReadsAs(t);
    } else {
      RawReadsAs(raw[1..], t);
      RawByteReadsAs(raw[0], raw[1..] + t);
      ReadsAsConcat([raw[0]], [raw[0]], raw[1..], raw[1..], t);
      assert [raw[0]] + raw[1..] == raw;
    }
  }

  lemma ShortReadsAs(c: Byte, t: seq<Byte>)
    requires ScanBody(t).Some? && IsShortEscape(c)
    ensures ReadsAs([BACKSLASH, c], [ShortValue(c)], t)
  {
    assert ([BACKSLASH, c] + t)[2..] == t;
  }

  lemma UReadsAs(v: nat, t: seq<Byte>)
    requires ScanBody(t).Some? && 0 < v < 0x10000 && IsScalar(v)
    ensures ReadsAs(UEscape(v), Encode(v), t)
  {
    UEscapeRoundTrip(v, t);
  }

  lemma PairStep(text: seq<Byte>, rest: seq<Byte>, t: seq<Byte>)
    requires |text| == 12 && IsUEscape(text + t) && (text + t)[6..] == rest
    requires IsUEscape(rest) && rest[6..] == t && ScanBody(t).Some?
    requires 0xD800 <= UValue(text + t) <= 0xDBFF && 0xDC00 <= UValue(rest) <= 0xDFFF
    ensures ReadsAs(text, Encode((UValue(text + t) - 0xD800) * 1024 + (UValue(rest) - 0xDC00) + 0x10000), t)
  {
    hide Encode;
    hide UValue;
    assert ScanBody(rest) == Plus(6, ScanBody(t));
    assert (text + t)[12..] == t;
  }

  lemma SurrogatesReadAs(cp: Scalar, high: nat, low: nat, t: seq<Byte>)
    requires ScanBody(t).Some? && 0xD800 <= high <= 0xDBFF && 0xDC00 <= low <= 0xDFFF
    requires cp == (high - 0xD800) * 1024 + (low - 0xDC00) + 0x10000
    ensures ReadsAs(UEscape(high) + UEscape(low), Encode(cp), t)
  {
    hide *;
    var rest := UEscape(low) + t;
    UEscapeRoundTrip(low, t);
    UEscapeRoundTrip(high, rest);
    assert UEscape(high) + UEscape(low) + t == UEscape(high) + rest;
    PairStep(UEscape(high) + UEscape(low), rest, t);
  }

  lemma PairReadsAs(cp: Scalar, t: seq<Byte>)
    requires ScanBody(t).Some? && cp >= 0x10000
    ensures ReadsAs(UEscape(0xD800 + (cp - 0x10000) / 1024) + UEscape(0xDC00 + (cp - 0x10000) % 1024), Encode(cp), t)
  {
    hide *;
    SurrogatesReadAs(cp, 0xD800 + (cp - 0x10000) / 1024, 0xDC00 + (cp - 0x10000) % 1024, t);
  }

  lemma CharReadsAs(cp: Scalar, f: DumpFlags, t: seq<Byte>)
    requires ScanBody(t).Some? && cp != 0
    ensures ReadsAs(CharText(cp, f), Encode(cp), t)
  {
    if !NeedsEscape(cp, f) {
      RawReadsAs(Encode(cp), t);
    } else if cp == 0x5C || cp == 0x22 || cp == 0x2F {
      ShortReadsAs(cp, t);
    } else if cp == 0x08 {
      ShortReadsAs(0x62, t);
    } else if cp == 0x0C {
      ShortReadsAs(0x66, t);
    } else if cp == 0x0A {
      ShortReadsAs(0x6E, t);
    } else if cp == 0x0D {
      ShortReadsAs(0x72, t);
    } else if cp == 0x09 {
      ShortReadsAs(0x74, t);
    } else if cp < 0x10000 {
      UReadsAs(cp, t);
    } else {
      PairReadsAs(cp, t);
    }
  }

  lemma {:induction false} CharsReadAs(cps: seq<Scalar>, f: DumpFlags, t: seq<Byte>)
    requires ScanBody(t).Some? && 0 !in cps
    ensures ReadsAs(CharsText(cps, f), EncodeAll(cps), t)
    decreases |cps|
  {
    hide ScanBody;
    hide CharText;
    hide Encode;
    if cps == [] {
      EmptyReadsAs(t);
    } else {
      var rest := CharsText(cps[1..], f);
      CharsReadAs(cps[1..], f, t);
      CharReadsAs(cps[0], f, rest + t);
      ReadsAsConcat(CharText(cps[0], f), Encode(cps[0]), rest, EncodeAll(cps[1..]), t);
    }
  }

  /** Reading back what was written, whatever follows the literal. */
  lemma StringRoundTrip(cps: seq<Scalar>, f: DumpFlags, after: seq<Byte>)
    requires 0 !in cps
    ensures ScanBody(CharsText(cps, f) + ([QUOTE] + after)) == Some(|CharsText(cps, f)|)
    ensures Unescape(CharsText(cps, f) + ([QUOTE] + after)) == Some(EncodeAll(cps))
  {
    CharsReadAs(cps, f, [QUOTE] + after);
    assert EncodeAll(cps) + [] == EncodeAll(cps);
  }

  lemma CharAscii(cp: Scalar, f: DumpFlags)
    requires f.ensureAscii
    ensures forall b <- CharText(cp, f) :: b < 0x80
  {
  }

  /** With ENSURE_ASCII nothing above 0x7F is ever written. */
  lemma {:induction false} AsciiOnly(cps: seq<Scalar>, f: DumpFlags)
    requires f.ensureAscii
    ensures forall b <- CharsText(cps, f) :: b < 0x80
  {
    if cps == [] {
    } else {
      CharAscii(cps[0], f);
      AsciiOnly(cps[1..], f);
    }
  }

  lemma {:induction false} DecodedNulFree(s: seq<Byte>)
    requires Decode(s).Some? && NulFree(s)
    ensures 0 !in Decode(s).value
    decreases |s|
  {
    hide Next;
    if s == [] {
    } else {
      var (cp, n) := Next(s).value;
      NextIsCanonical(s);
      assert s[0] == Encode(cp)[0];
      hide Encode;
      DecodedNulFree(s[n..]);
    }
  }

  /** The same for a whole literal of a C string. */
  lemma LiteralRoundTrip(s: CString, f: DumpFlags, after: seq<Byte>)
    requires Decode(s).Some?
    ensures StringText(s, f) + after == [QUOTE] + (CharsText(Decode(s).value, f) + ([QUOTE] + after))
    ensures ScanBody(CharsText(Decode(s).value, f) + ([QUOTE] + after)) == Some(|CharsText(Decode(s).value, f)|)
    ensures Unescape(CharsText(Decode(s).value, f) + ([QUOTE] + after)) == Some(s)
  {
    DecodedNulFree(s);
    StringRoundTrip(Decode(s).value, f, after);
    EncodeAllDecode(s);
  }

  // ------------------------------------------------------- what the second pass rejects

  /** What stands between two escape boundaries: a raw byte, a short escape or a UTF-16 code unit. */
  datatype Piece = Plain | Unit(v: nat)

  function Pieces(s: seq<Byte>): (ps: seq<Piece>)
    requires ScanBody(s).Some?
    decreases |s|
  {
    if s[0] == QUOTE then []
    else if s[0] != BACKSLASH then [Plain] + Pieces(s[1..])
    else if s[1] != 0x75 then [Plain] + Pieces(s[2..])
    else [Unit(UValue(s))] + Pieces(s[6..])
  }

  predicate IsHigh(p: Piece) {
    p.Unit? && 0xD800 <= p.v <= 0xDBFF
  }

  predicate IsLow(p: Piece) {
    p.Unit? && 0xDC00 <= p.v <= 0xDFFF
  }

  /** Not a NUL; a high surrogate is followed by a low one, and a low one follows a high one. */
  ghost predicate PieceOk(ps: seq<Piece>, i: int)
    requires 0 <= i < |ps|
  {
    && ps[i] != Unit(0)
    && (IsHigh(ps[i]) ==> i + 1 < |ps| && IsLow(ps[i + 1]))
    && (IsLow(ps[i]) ==> i > 0 && IsHigh(ps[i - 1]))
  }

  ghost predicate WellPaired(ps: seq<Piece>) {
    forall i :: 0 <= i < |ps| ==> PieceOk(ps, i)
  }

  lemma WellPairedTail(ps: seq<Piece>, k: int)
    requires 0 < k <= |ps| && !IsHigh(ps[k - 1])
    ensures WellPaired(ps) <==> (forall i :: 0 <= i < k ==> PieceOk(ps, i)) && WellPaired(ps[k..])
  {
    var t := ps[k..];
    forall i | k <= i < |ps| ensures PieceOk(ps, i) <==> PieceOk(t, i - k) {
      assert ps[i] == t[i - k];
    }
    if WellPaired(ps) {
      forall i | 0 <= i < |t| ensures PieceOk(t, i) {
        assert PieceOk(ps, i + k);
      }
    }
  }

  lemma NothingIsWellPaired()
    ensures WellPaired([])
  {
  }

  lemma BadPiece(ps: seq<Piece>, i: int)
    requires 0 <= i < |ps| && !PieceOk(ps, i)
    ensures !WellPaired(ps)
  {
  }

  /** How one turn shows in the pieces: it takes one piece, or a surrogate pair. */
  lemma TurnPieces(s: seq<Byte>)
    requires ScanBody(s).Some? && s[0] != QUOTE
    ensures Turn(s).None? ==> Pieces(s) != [] && !PieceOk(Pieces(s), 0)
    ensures Turn(s).Some? ==>
              var k := Turn(s).value.1;
              var m := if k == 12 then 2 else 1;
              && m <= |Pieces(s)| && Pieces(s)[m..] == Pieces(s[k..]) && !IsHigh(Pieces(s)[m - 1])
              && forall i :: 0 <= i < m ==> PieceOk(Pieces(s), i)
  {
    hide Encode;
    hide UValue;
    if s[0] == BACKSLASH && s[1] == 0x75 {
      UTurnPieces(s);
    } else {
      assert Pieces(s)[1..] == Pieces(s[Turn(s).value.1..]);
    }
  }

  lemma UTurnPieces(s: seq<Byte>)
    requires ScanBody(s).Some? && s[0] == BACKSLASH && s[1] == 0x75
    ensures Turn(s).None? ==> Pieces(s) != [] && !PieceOk(Pieces(s), 0)
    ensures Turn(s).Some? ==>
              var k := Turn(s).value.1;
              var m := if k == 12 then 2 else 1;
              && m <= |Pieces(s)| && Pieces(s)[m..] == Pieces(s[k..]) && !IsHigh(Pieces(s)[m - 1])
              && forall i :: 0 <= i < m ==> PieceOk(Pieces(s), i)
  {
    hide Encode;
    hide UValue;
    hide ScanBody;
    ScanBackslash(s);
    var rest := s[6..];
    ScanBackslash(rest);
    var ps := Pieces(s);
    assert ps == [Unit(UValue(s))] + Pieces(rest) && ps[1..] == Pieces(rest);
    if IsHigh(ps[0]) && rest[0] == BACKSLASH && rest[1] == 0x75 {
      assert Pieces(rest) == [Unit(UValue(rest))] + Pieces(rest[6..]);
      assert rest[6..] == s[12..];
      assert ps[2..] == Pieces(s[12..]);
    }
  }

  /** Of the literals the first pass accepts, the second rejects exactly those with an unpaired surrogate
      or an escaped NUL. */
  lemma {:induction false} SecondPassRejects(s: seq<Byte>)
    requires ScanBody(s).Some?
    ensures Unescape(s).Some? <==> WellPaired(Pieces(s))
    decreases |s|
  {
    hide ScanBody;
    hide Turn;
    hide WellPaired;
    hide PieceOk;
    if s[0] == QUOTE {
      NothingIsWellPaired();
    } else {
      TurnPieces(s);
      if Turn(s).None? {
        BadPiece(Pieces(s), 0);
      } else {
        var k := Turn(s).value.1;
        SecondPassRejects(s[k..]);
        WellPairedTail(Pieces(s), if k == 12 then 2 else 1);
      }
    }
  }

  // ------------------------------------------------------- the second pass as a loop

  lemma PrependTwice(a: seq<Byte>, b: seq<Byte>, o: Option<seq<Byte>>)
    ensures Prepend(a, Prepend(b, o)) == Prepend(a + b, o)
  {
    if o.Some? {
      assert a + (b + o.value) == a + b + o.value;
    }
  }

  method DecodeTurn(s: seq<Byte>) returns (r: Option<(seq<Byte>, nat)>)
    requires ScanBody(s).Some? && s[0] != QUOTE
    ensures r == Turn(s)
  {
    hide UValue;
    hide Encode;
    if s[0] != BACKSLASH {
      return Some(([s[0]], 1));
    }
    if s[1] != 0x75 {
      return Some(([ShortValue(s[1])], 2));
    }
    var value := DecodeUnicodeEscape(s);
    var p := 6;
    if 0xD800 <= value <= 0xDBFF {
      if s[6] == BACKSLASH && s[7] == 0x75 {
        var value2 := DecodeUnicodeEscape(s[6..]);
        p := 12;
        if 0xDC00 <= value2 <= 0xDFFF {
          value := (value - 0xD800) * 1024 + (value2 - 0xDC00) + 0x10000;
        } else {
          return None;
        }
      } else {
        return None;
      }
    } else if 0xDC00 <= value <= 0xDFFF {
      return None;
    } else if value == 0 {
      return None;
    }
    return Some((Encode(value), p));
  }

  method DecodeLiteral(text: seq<Byte>) returns (r: Option<seq<Byte>>)
    requires ScanBody(text).Some?
    ensures r == Unescape(text)
  {
    hide ScanBody;
    hide Turn;
    var p, t := 0, [];
    assert text[0..] == text;
    PrependNothing(Unescape(text));
    while text[p] != QUOTE
      invariant 0 <= p < |text| && ScanBody(text[p..]).Some?
      invariant Unescape(text) == Prepend(t, Unescape(text[p..]))
      decreases |text| - p
    {
      assert text[p..][0] == text[p];
      var turn := DecodeTurn(text[p..]);
      if turn.None? {
        return None;
      }
      var (bytes, k) := turn.value;
      assert text[p..][k..] == text[p + k..];
      PrependTwice(t, bytes, Unescape(text[p + k..]));
      t, p := t + bytes, p + k;
    }
    assert text[p..][0] == QUOTE && t + [] == t;
    return Some(t);
  }

  lemma PrependNothing(o: Option<seq<Byte>>)
    ensures Prepend([], o) == o
  {
    assert o.Some? ==> [] + o.value == o.value;
  }

  lemma {:induction false} ScanEnds(s: seq<Byte>)
    requires ScanBody(s).Some?
    ensures ScanBody(s[..ScanBody(s).value + 1]) == ScanBody(s)
    decreases |s|
  {
    var n := ScanBody(s).value;
    if s[0] == QUOTE {
    } else {
      var k := if s[0] != BACKSLASH then 1 else if s[1] != 0x75 then 2 else 6;
      ScanEnds(s[k..]);
      assert s[..n + 1][k..] == s[k..][..n - k + 1];
    }
  }

  /** A turn depends on the text up to the next boundary only. */
  lemma SameTurn(s: seq<Byte>, t: seq<Byte>)
    requires ScanBody(s).Some? && ScanBody(t).Some? && s[0] == t[0] != QUOTE
    requires s[0] == BACKSLASH ==> s[1] == t[1]
    requires s[0] == BACKSLASH && s[1] == 0x75 ==>
               && UValue(s) == UValue(t) && s[6] == t[6]
               && (s[6] == BACKSLASH ==> s[7] == t[7])
               && (s[6] == BACKSLASH && s[7] == 0x75 ==>
                     IsUEscape(s[6..]) && IsUEscape(t[6..]) && UValue(s[6..]) == UValue(t[6..]))
    ensures Turn(s) == Turn(t)
  {
    hide ScanBody;
    hide UValue;
    hide Encode;
  }

  lemma TurnEnds(s: seq<Byte>)
    requires ScanBody(s).Some? && s[0] != QUOTE
    ensures ScanBody(s[..ScanBody(s).value + 1]) == ScanBody(s)
    ensures Turn(s[..ScanBody(s).value + 1]) == Turn(s)
  {
    hide Turn;
    hide UValue;
    hide ScanBody;
    var n := ScanBody(s).value;
    var t := s[..n + 1];
    ScanEnds(s);
    ScanBackslash(s);
    if s[0] == BACKSLASH && s[1] == 0x75 {
      SameUValue(s, t);
      var rest, rest' := s[6..], t[6..];
      assert rest' == rest[..n - 5];
      ScanBackslash(rest);
      if rest[0] == BACKSLASH && rest[1] == 0x75 {
        SameUValue(rest, rest');
      }
    }
    SameTurn(s, t);
  }

  lemma SameUValue(s: seq<Byte>, t: seq<Byte>)
    requires IsUEscape(s) && 6 <= |t| <= |s| && t == s[..|t|]
    ensures IsUEscape(t) && UValue(t) == UValue(s)
  {
    assert forall i :: 0 <= i < 6 ==> t[i] == s[i];
  }

  lemma TakeThenDrop(s: seq<Byte>, n: nat, k: nat)
    requires k <= n <= |s|
    ensures s[..n][k..] == s[k..][..n - k]
  {
  }

  lemma TakeAfterDrop(s: seq<Byte>, a: nat, n: nat)
    requires a + n <= |s|
    ensures s[a..][..n] == s[a..a + n]
  {
  }

  lemma DropTwice(s: seq<Byte>, a: nat, b: nat)
    requires a + b <= |s|
    ensures s[a..][b..] == s[a + b..]
  {
  }

  /** Neither pass looks past the closing quote. */
  lemma {:induction false} LiteralEnds(s: seq<Byte>)
    requires ScanBody(s).Some?
    ensures ScanBody(s[..ScanBody(s).value + 1]) == ScanBody(s)
    ensures Unescape(s[..ScanBody(s).value + 1]) == Unescape(s)
    decreases |s|
  {
    hide ScanBody;
    hide Turn;
    ScanEnds(s);
    var n := ScanBody(s).value;
    if s[0] == QUOTE {
    } else {
      TurnEnds(s);
      if Turn(s).Some? {
        var k := Turn(s).value.1;
        LiteralEnds(s[k..]);
        TakeThenDrop(s, n + 1, k);
      }
    }
  }

  // ------------------------------------------------------------------ dump_string

  /** Where dumped text goes; it never fails. */
  class Sink {
    var out: seq<Byte>

    constructor ()
      ensures out == []
    {
      out := [];
    }

    method Dump(text: seq<Byte>)
      modifies this
      ensures out == old(out) + text
    {
      out := out + text;
    }
  }

  lemma {:induction false} CharsTextAppend(a: seq<Scalar>, b: seq<Scalar>, f: DumpFlags)
    ensures CharsText(a + b, f) == CharsText(a, f) + CharsText(b, f)
    decreases |a|
  {
    hide CharText;
    if a == [] {
      assert a + b == b;
    } else {
      assert (a + b)[1..] == a[1..] + b;
      CharsTextAppend(a[1..], b, f);
    }
  }

  lemma {:induction false} PlainRun(run: seq<Scalar>, f: DumpFlags)
    requires forall cp <- run :: !NeedsEscape(cp, f)
    ensures CharsText(run, f) == EncodeAll(run)
    decreases |run|
  {
    if run == [] {
    } else {
      PlainRun(run[1..], f);
    }
  }

  /** The literal of a valid string. */
  function StringText(s: seq<Byte>, f: DumpFlags): (t: seq<Byte>)
    requires Decode(s).Some?
  {
    [QUOTE] + CharsText(Decode(s).value, f) + [QUOTE]
  }

  /** The characters before the first byte that is not UTF-8. */
  function GoodChars(s: seq<Byte>): (cps: seq<Scalar>)
    decreases |s|
  {
    if s == [] then []
    else
      match Next(s)
      case None => []
      case Some((cp, n)) =>
        NextIsCanonical(s);
        [cp] + GoodChars(s[n..])
  }

  /** The characters up to the last one that is escaped. */
  function UpToEscape(cps: seq<Scalar>, f: DumpFlags): (r: seq<Scalar>)
    decreases |cps|
  {
    if cps == [] || NeedsEscape(cps[|cps| - 1], f) then cps else UpToEscape(cps[..|cps| - 1], f)
  }

  /** What is written of a string that is not UTF-8: the stretch pending at the bad byte is lost, and no closing
      quote follows. */
  function BrokenText(s: seq<Byte>, f: DumpFlags): (t: seq<Byte>) {
    [QUOTE] + CharsText(UpToEscape(GoodChars(s), f), f)
  }

  lemma {:induction false} DropPlain(done: seq<Scalar>, run: seq<Scalar>, f: DumpFlags)
    requires done == [] || NeedsEscape(done[|done| - 1], f)
    requires forall c <- run :: !NeedsEscape(c, f)
    ensures UpToEscape(done + run, f) == done
    decreases |run|
  {
    hide NeedsEscape;
    if run == [] {
      assert done + run == done;
    } else {
      var shorter := run[..|run| - 1];
      assert run[|run| - 1] in run && forall c <- shorter :: c in run;
      assert (done + run)[..|done + run| - 1] == done + shorter;
      DropPlain(done, shorter, f);
    }
  }

  /** `s` up to `pos` decodes to `cps`, and what is left decides the rest. */
  ghost predicate DecodedSoFar(s: seq<Byte>, pos: int, cps: seq<Scalar>) {
    && 0 <= pos <= |s|
    && GoodChars(s) == cps + GoodChars(s[pos..])
    && (Decode(s).Some? <==> Decode(s[pos..]).Some?)
    && (Decode(s).Some? ==> Decode(s).value == cps + Decode(s[pos..]).value)
  }

  lemma DecodeUnfolds(t: seq<Byte>)
    requires t != []
    ensures Next(t).None? ==> Decode(t).None? && GoodChars(t) == []
    ensures Next(t).Some? ==>
              var (cp, n) := Next(t).value;
              && IsScalar(cp) && t[..n] == Encode(cp) && GoodChars(t) == [cp] + GoodChars(t[n..])
              && Decode(t) == if Decode(t[n..]).None? then None else Some([cp] + Decode(t[n..]).value)
  {
    hide Next;
    hide Encode;
    if Next(t).Some? {
      NextIsCanonical(t);
    }
  }

  lemma DecodeStep(s: seq<Byte>, pos: int, cps: seq<Scalar>, t: seq<Byte>)
    requires DecodedSoFar(s, pos, cps) && 0 <= pos < |s| && t == s[pos..]
    ensures Next(t).None? ==> Decode(s).None? && GoodChars(s) == cps
    ensures Next(t).Some? ==>
              var (cp, n) := Next(t).value;
              IsScalar(cp) && s[pos..pos + n] == Encode(cp) && DecodedSoFar(s, pos + n, cps + [cp])
  {
    hide Next;
    hide Encode;
    hide Decode;
    hide GoodChars;
    hide DecodedSoFar;
    DecodeUnfolds(t);
    if Next(t).Some? {
      var (cp, n) := Next(t).value;
      DropTwice(s, pos, n);
      TakeAfterDrop(s, pos, n);
      SoFarGrows(s, pos, cps, cp, n);
    } else {
      SoFarEnds(s, pos, cps);
    }
  }

  lemma SoFarEnds(s: seq<Byte>, pos: int, cps: seq<Scalar>)
    requires DecodedSoFar(s, pos, cps) && Decode(s[pos..]).None? && GoodChars(s[pos..]) == []
    ensures Decode(s).None? && GoodChars(s) == cps
  {
    hide Decode;
    hide GoodChars;
    assert cps + [] == cps;
  }

  lemma SoFarGrows(s: seq<Byte>, pos: int, cps: seq<Scalar>, cp: Scalar, n: nat)
    requires DecodedSoFar(s, pos, cps) && pos + n <= |s|
    requires GoodChars(s[pos..]) == [cp] + GoodChars(s[pos + n..])
    requires Decode(s[pos..]) ==
             if Decode(s[pos + n..]).None? then None else Some([cp] + Decode(s[pos + n..]).value)
    ensures DecodedSoFar(s, pos + n, cps + [cp])
  {
    hide Decode;
    hide GoodChars;
    Shift(cps, cp, GoodChars(s[pos + n..]));
    if Decode(s[pos + n..]).Some? {
      Shift(cps, cp, Decode(s[pos + n..]).value);
    }
  }

  lemma Shift<T>(a: seq<T>, x: T, b: seq<T>)
    ensures a + ([x] + b) == a + [x] + b
  {
  }

  lemma SingleChar(cp: Scalar, f: DumpFlags)
    ensures CharsText([cp], f) == CharText(cp, f) && EncodeAll([cp]) == Encode(cp)
  {
    assert [cp][1..] == [];
    assert CharText(cp, f) + [] == CharText(cp, f) && Encode(cp) + [] == Encode(cp);
  }

  /** The scan of one stretch that needs no escape: `s[str..pos]` holds `run`. */
  ghost predicate PlainStretch(s: seq<Byte>, str: int, pos: int, run: seq<Scalar>, f: DumpFlags) {
    0 <= str <= pos <= |s| && EncodeAll(run) == s[str..pos] && forall c <- run :: !NeedsEscape(c, f)
  }

  lemma StretchGrows(s: seq<Byte>, str: int, pos: int, run: seq<Scalar>, f: DumpFlags, cp: Scalar, end: int)
    requires PlainStretch(s, str, pos, run, f) && pos <= end <= |s| && s[pos..end] == Encode(cp) && !NeedsEscape(cp, f)
    ensures PlainStretch(s, str, end, run + [cp], f)
  {
    EncodeAllAppend(run, [cp]);
    SingleChar(cp, f);
    hide Encode;
    assert s[str..end] == s[str..pos] + s[pos..end];
  }

  /** The inner loop of dump_string: `end` stops at the end of the text or just past a character `cp` that
      must be escaped, `pos` before it. */
  method ScanStretch(s: CString, str: nat, f: DumpFlags, ghost done: seq<Scalar>)
    returns (ok: bool, pos: nat, end: nat, cp: Scalar, ghost run: seq<Scalar>)
    requires DecodedSoFar(s, str, done)
    ensures !ok ==> Decode(s).None? && GoodChars(s) == done + run && forall c <- run :: !NeedsEscape(c, f)
    ensures ok ==> str <= pos <= end <= |s| && PlainStretch(s, str, pos, run, f) && DecodedSoFar(s, pos, done + run)
    ensures ok && end == pos ==> pos == |s|
    ensures ok && end != pos ==> NeedsEscape(cp, f) && DecodedSoFar(s, end, done + run + [cp])
  {
    hide Encode;
    hide Next;
    hide Decode;
    hide GoodChars;
    hide NeedsEscape;
    hide PlainStretch;
    ok, pos, end, cp, run := true, str, str, 0, [];
    assert PlainStretch(s, str, pos, run, f) by { EmptyStretch(s, str, f); }
    assert done + run == done;
    while end < |s|
      invariant str <= pos == end <= |s| && PlainStretch(s, str, pos, run, f)
      invariant DecodedSoFar(s, pos, done + run)
      decreases |s| - pos
    {
      DecodeStep(s, pos, done + run, s[pos..]);
      var next := Next(s[pos..]);
      if next.None? {
        StretchIsPlain(s, str, pos, run, f);
        ok := false;
        return;
      }
      cp := next.value.0;
      end := pos + next.value.1;
      if NeedsEscape(cp, f) {
        return;
      }
      StretchGrows(s, str, pos, run, f, cp, end);
      assert done + (run + [cp]) == done + run + [cp];
      run := run + [cp];
      pos := end;
    }
  }

  lemma StretchIsPlain(s: seq<Byte>, str: int, pos: int, run: seq<Scalar>, f: DumpFlags)
    requires PlainStretch(s, str, pos, run, f)
    ensures forall c <- run :: !NeedsEscape(c, f)
  {
  }

  lemma EmptyStretch(s: seq<Byte>, str: nat, f: DumpFlags)
    requires str <= |s|
    ensures PlainStretch(s, str, str, [], f)
  {
  }

  lemma StretchText(s: seq<Byte>, str: int, pos: int, run: seq<Scalar>, f: DumpFlags, done: seq<Scalar>)
    requires PlainStretch(s, str, pos, run, f)
    ensures CharsText(done + run, f) == CharsText(done, f) + s[str..pos]
  {
    PlainRun(run, f);
    CharsTextAppend(done, run, f);
  }

  lemma EscapeAppends(done: seq<Scalar>, cp: Scalar, f: DumpFlags)
    requires NeedsEscape(cp, f)
    ensures CharsText(done + [cp], f) == CharsText(done, f) + EscapeText(cp)
  {
    SingleChar(cp, f);
    CharsTextAppend(done, [cp], f);
  }

  lemma BrokenAt(s: seq<Byte>, done: seq<Scalar>, run: seq<Scalar>, f: DumpFlags)
    requires GoodChars(s) == done + run && (done == [] || NeedsEscape(done[|done| - 1], f))
    requires forall c <- run :: !NeedsEscape(c, f)
    ensures BrokenText(s, f) == [QUOTE] + CharsText(done, f)
  {
    hide NeedsEscape;
    hide CharsText;
    hide GoodChars;
    DropPlain(done, run, f);
  }

  /** dump_string: fails exactly on text that is not UTF-8, with part of it written. Unescaped stretches `s[str..pos]`
      are written whole. */
  method DumpString(s: CString, sink: Sink, f: DumpFlags) returns (ok: bool)
    modifies sink
    ensures ok <==> Decode(s).Some?
    ensures ok ==> sink.out == old(sink.out) + StringText(s, f)
    ensures !ok ==> sink.out == old(sink.out) + BrokenText(s, f)
  {
    hide Decode;
    hide GoodChars;
    hide UpToEscape;
    hide CharsText;
    hide EscapeText;
    hide NeedsEscape;
    hide PlainStretch;
    hide BrokenText;
    hide StringText;
    hide DecodedSoFar;
    sink.Dump([QUOTE]);
    ghost var start := sink.out;
    var str := 0;
    ghost var done: seq<Scalar> := [];
    EmptyText(f);
    SoFarStarts(s);
    while true
      invariant 0 <= str <= |s| && DecodedSoFar(s, str, done)
      invariant sink.out == start + CharsText(done, f)
      invariant done == [] || NeedsEscape(done[|done| - 1], f)
      decreases |s| - str
    {
      var found, pos, end, cp, run := ScanStretch(s, str, f, done);
      if !found {
        BrokenAt(s, done, run, f);
        assert sink.out == old(sink.out) + ([QUOTE] + CharsText(done, f));
        return false;
      }
      StretchText(s, str, pos, run, f, done);
      if pos != str {
        sink.Dump(s[str..pos]);
      }
      done := done + run;
      assert sink.out == start + CharsText(done, f);
      if end == pos {
        break;
      }
      EscapeAppends(done, cp, f);
      sink.Dump(EscapeText(cp));
      done := done + [cp];
      str := end;
    }
    SoFarWhole(s, done, f);
    sink.Dump([QUOTE]);
    assert sink.out == old(sink.out) + ([QUOTE] + CharsText(done, f) + [QUOTE]);
    return true;
  }

  lemma SoFarStarts(s: seq<Byte>)
    ensures DecodedSoFar(s, 0, [])
  {
    hide Decode;
    hide GoodChars;
    assert s[0..] == s && [] + GoodChars(s) == GoodChars(s);
  }

  lemma SoFarWhole(s: seq<Byte>, cps: seq<Scalar>, f: DumpFlags)
    requires DecodedSoFar(s, |s|, cps)
    ensures Decode(s).Some? && StringText(s, f) == [QUOTE] + CharsText(cps, f) + [QUOTE]
  {
    hide CharsText;
    hide GoodChars;
    assert s[|s|..] == [] && cps + [] == cps;
  }

  lemma EmptyText(f: DumpFlags)
    ensures CharsText([], f) == [] && Decode([]) == Some([])
  {
  }
}
