/** The lexer and parser of load.c as functions of the bytes still to be read
    (sections 2.1 to 2.5 of RFC 4627). */
module JsonParse {
  import opened Bytes
  import opened Utf8
  import opened JsonString
  import opened Json

  datatype LoadFlags = LoadFlags(rejectDuplicates: bool, disableEofCheck: bool, decodeAny: bool)

  datatype Token =
    | Eof
    | Invalid
    | Punct(c: Byte)
    | StringTok(s: seq<Byte>)
    | IntegerTok(i: int)
    | RealTok(lexeme: seq<Byte>)
    | TrueTok
    | FalseTok
    | NullTok

  const COMMA := Punct(0x2C)
  const COLON := Punct(0x3A)
  const OPEN_ARRAY := Punct(0x5B)
  const CLOSE_ARRAY := Punct(0x5D)
  const OPEN_OBJECT := Punct(0x7B)
  const CLOSE_OBJECT := Punct(0x7D)

  // ------------------------------------------------------------------ lexer

  predicate IsSpace(c: int) {
    c == 0x20 || c == 0x09 || c == 0x0A || c == 0x0D
  }

  predicate IsDigit(c: int) {
    0x30 <= c <= 0x39
  }

  predicate IsAlpha(c: int) {
    0x41 <= c <= 0x5A || 0x61 <= c <= 0x7A
  }

  predicate IsPunct(c: int) {
    c == 0x7B || c == 0x7D || c == 0x5B || c == 0x5D || c == 0x3A || c == 0x2C
  }

  function SkipSpace(s: seq<Byte>): (r: seq<Byte>)
    ensures |r| <= |s| && (r != [] ==> !IsSpace(r[0]))
    decreases |s|
  {
    if s != [] && IsSpace(s[0]) then SkipSpace(s[1..]) else s
  }

  /** The length of the run of digits at the start. */
  function DigitRun(s: seq<Byte>): (n: nat)
    ensures n <= |s|
    decreases |s|
  {
    if s != [] && IsDigit(s[0]) then 1 + DigitRun(s[1..]) else 0
  }

  function AlphaRun(s: seq<Byte>): (n: nat)
    ensures n <= |s|
    decreases |s|
  {
    if s != [] && IsAlpha(s[0]) then 1 + AlphaRun(s[1..]) else 0
  }

  /** strtol in base 10 on a run of digits. */
  function DigitsValue(s: seq<Byte>): (v: int)
    decreases |s|
  {
    if s == [] then 0 else DigitsValue(s[..|s| - 1]) * 10 + (s[|s| - 1] as int - 0x30)
  }

  function NumberValue(s: seq<Byte>): (v: int) {
    if s != [] && s[0] == 0x2D then -DigitsValue(s[1..]) else DigitsValue(s)
  }

  function IntegerToken(text: seq<Byte>): (t: Token) {
    var v := NumberValue(text);
    if INT_MIN <= v <= INT_MAX then IntegerTok(v) else Invalid
  }

  /** The end of the integer part that starts at `i`, or None: a lone zero, or digits without a leading zero. */
  function IntegerPart(s: seq<Byte>, i: nat): (r: Option<nat>)
    requires i <= |s|
    ensures r.Some? ==> i < r.value <= |s|
  {
    if i == |s| || !IsDigit(s[i]) then None
    else if s[i] == 0x30 then if i + 1 < |s| && IsDigit(s[i + 1]) then None else Some(i + 1)
    else Some(i + DigitRun(s[i..]))
  }

  /** The end of an optional fraction and exponent that start at `i`, or None. */
  function FractionPart(s: seq<Byte>, i: nat): (r: Option<nat>)
    requires i <= |s|
    ensures r.Some? ==> i <= r.value <= |s|
  {
    if i == |s| || s[i] != 0x2E then Some(i)
    else if i + 1 == |s| || !IsDigit(s[i + 1]) then None
    else Some(i + 1 + DigitRun(s[i + 1..]))
  }

  function ExponentPart(s: seq<Byte>, i: nat): (r: Option<nat>)
    requires i <= |s|
    ensures r.Some? ==> i <= r.value <= |s|
  {
    if i == |s| || (s[i] != 0x45 && s[i] != 0x65) then Some(i)
    else
      var j := if i + 1 < |s| && (s[i + 1] == 0x2B || s[i + 1] == 0x2D) then i + 2 else i + 1;
      if j == |s| || !IsDigit(s[j]) then None else Some(j + DigitRun(s[j..]))
  }

  /** lex_scan_number on text that starts with a digit or a minus sign. */
  function LexNumber(s: seq<Byte>): (r: (Token, seq<Byte>))
    requires s != []
    ensures !r.0.Invalid? ==> |r.1| < |s|
  {
    match IntegerPart(s, if s[0] == 0x2D then 1 else 0)
    case None => (Invalid, [])
    case Some(n) =>
      if n == |s| || (s[n] != 0x2E && s[n] != 0x45 && s[n] != 0x65) then (IntegerToken(s[..n]), s[n..])
      else
        match FractionPart(s, n)
        case None => (Invalid, [])
        case Some(k) =>
          match ExponentPart(s, k)
          case None => (Invalid, [])
          case Some(e) => (RealTok(s[..e]), s[e..])
  }

  /** lex_scan_string on what follows the opening quote. */
  function LexString(s: seq<Byte>): (r: (Token, seq<Byte>))
    ensures !r.0.Invalid? ==> |r.1| < |s|
  {
    if ScanBody(s).None? then (Invalid, [])
    else
      match Unescape(s)
      case None => (Invalid, [])
      case Some(text) => (StringTok(text), s[ScanBody(s).value + 1..])
  }

  function WordToken(word: seq<Byte>): (t: Token) {
    if word == [0x74, 0x72, 0x75, 0x65] then TrueTok
    else if word == [0x66, 0x61, 0x6C, 0x73, 0x65] then FalseTok
    else if word == [0x6E, 0x75, 0x6C, 0x6C] then NullTok
    else Invalid
  }

  /** lex_scan, without the leading white space. `bad` says that undecodable bytes follow `s`. */
  function LexAt(s: seq<Byte>, bad: bool): (r: (Token, seq<Byte>))
    ensures !r.0.Invalid? && !r.0.Eof? ==> |r.1| < |s|
    ensures r.0.Eof? ==> r.1 == []
  {
    if s == [] then (if bad then Invalid else Eof, [])
    else if IsPunct(s[0]) then (Punct(s[0]), s[1..])
    else if s[0] == QUOTE then LexString(s[1..])
    else if IsDigit(s[0]) || s[0] == 0x2D then LexNumber(s)
    else if IsAlpha(s[0]) then (WordToken(s[..AlphaRun(s)]), s[AlphaRun(s)..])
    else (Invalid, [])
  }

  function Lex(s: seq<Byte>, bad: bool): (r: (Token, seq<Byte>))
    ensures !r.0.Invalid? && !r.0.Eof? ==> |r.1| < |s|
    ensures r.0.Eof? ==> r.1 == []
  {
    LexAt(SkipSpace(s), bad)
  }

  // ------------------------------------------------------------------ parser

  /** json_object_set_nocheck: replaces the value of an existing key, which keeps its serial. */
  function SetMember(ms: seq<Member>, key: seq<Byte>, serial: nat, value: Json): (r: seq<Member>) {
    match FindKey(ms, key)
    case Some(i) => ms[i := Member(key, ms[i].serial, value)]
    case None => ms + [Member(key, serial, value)]
  }

  /** Parses the value whose first token `tok` has been read. */
  function ParseValue(tok: Token, s: seq<Byte>, bad: bool, f: LoadFlags): (r: Option<(Json, seq<Byte>)>)
    ensures r.Some? ==> |r.value.1| <= |s|
    decreases |s|, 2
  {
    match tok
    case StringTok(text) => Some((String(text), s))
    case IntegerTok(i) => Some((Integer(i), s))
    case RealTok(lexeme) => Some((Real(lexeme), s))
    case TrueTok => Some((True, s))
    case FalseTok => Some((False, s))
    case NullTok => Some((Null, s))
    case Punct(c) =>
      if c == 0x7B then ParseObject(s, bad, f)
      else if c == 0x5B then ParseArray(s, bad, f)
      else None
    case _ => None
  }

  function ParseArray(s: seq<Byte>, bad: bool, f: LoadFlags): (r: Option<(Json, seq<Byte>)>)
    ensures r.Some? ==> |r.value.1| <= |s|
    decreases |s|, 1
  {
    var (tok, rest) := Lex(s, bad);
    if tok == CLOSE_ARRAY then Some((Array([]), rest))
    else if IsEnd(tok) then None
    else ParseElems([], tok, rest, bad, f)
  }

  /** No value, key or punctuation starts here. */
  predicate IsEnd(tok: Token) {
    tok.Eof? || tok.Invalid?
  }

  /** The loop of parse_array, with the elements read so far. */
  function ParseElems(done: seq<Json>, tok: Token, s: seq<Byte>, bad: bool, f: LoadFlags)
    : (r: Option<(Json, seq<Byte>)>)
    ensures r.Some? ==> |r.value.1| <= |s|
    decreases |s|, 3
  {
    match ParseValue(tok, s, bad, f)
    case None => None
    case Some((v, rest)) =>
      var (next, rest') := Lex(rest, bad);
      if next == COMMA then
        var (tok', rest'') := Lex(rest', bad);
        if IsEnd(tok') then None else ParseElems(done + [v], tok', rest'', bad, f)
      else if next == CLOSE_ARRAY then Some((Array(done + [v]), rest'))
      else None
  }

  function ParseObject(s: seq<Byte>, bad: bool, f: LoadFlags): (r: Option<(Json, seq<Byte>)>)
    ensures r.Some? ==> |r.value.1| <= |s|
    decreases |s|, 1
  {
    var (tok, rest) := Lex(s, bad);
    if tok == CLOSE_OBJECT then Some((Object([]), rest))
    else if IsEnd(tok) then None
    else ParseMembers([], 0, tok, rest, bad, f)
  }

  /** The loop of parse_object, with the members set so far and the next serial. */
  function ParseMembers(done: seq<Member>, serial: nat, tok: Token, s: seq<Byte>, bad: bool, f: LoadFlags)
    : (r: Option<(Json, seq<Byte>)>)
    ensures r.Some? ==> |r.value.1| <= |s|
    decreases |s|, 3
  {
    if !tok.StringTok? || (f.rejectDuplicates && FindKey(done, tok.s).Some?) then None
    else
      var (colon, rest) := Lex(s, bad);
      if colon != COLON then None
      else
        var (first, rest') := Lex(rest, bad);
        var parsed := if IsEnd(first) then None else ParseValue(first, rest', bad, f);
        if parsed.None? then None
        else
          var (v, rest'') := parsed.value;
          var done' := SetMember(done, tok.s, serial, v);
          var (next, after) := Lex(rest'', bad);
          if next == COMMA then
            var (tok', after') := Lex(after, bad);
            if IsEnd(tok') then None else ParseMembers(done', serial + 1, tok', after', bad, f)
          else if next == CLOSE_OBJECT then Some((Object(done'), after))
          else None
  }

  /** parse_json on a whole input. */
  function Parse(s: seq<Byte>, bad: bool, f: LoadFlags): (r: Option<Json>) {
    var (tok, rest) := Lex(s, bad);
    if !f.decodeAny && tok != OPEN_ARRAY && tok != OPEN_OBJECT then None
    else
      match ParseValue(tok, rest, bad, f)
      case None => None
      case Some((v, rest')) =>
        if !f.disableEofCheck && !Lex(rest', bad).0.Eof? then None else Some(v)
  }
}
