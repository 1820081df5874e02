/** What json_loads can return: strings and keys are NUL-free UTF-8, integers fit 64 bits, keys and serials of an
    object are distinct. */
module JsonLoaded {
  import opened Bytes
  import opened Utf8
  import opened JsonString
  import opened Json
  import opened JsonParse
  import opened JsonStream
  import opened JsonGrammar
  import opened JsonRoundTrip

  /** Proper, reals apart. */
  ghost predicate Loaded(v: Json) {
    match v
    case Integer(i) => INT_MIN <= i <= INT_MAX
    case String(s) => ValidText(s)
    case Array(elems) => forall e <- elems :: Loaded(e)
    case Object(members) =>
      && DistinctKeys(members) && DistinctSerials(members)
      && forall m <- members :: ValidText(m.key) && Loaded(m.value)
    case _ => true
  }

  // ------------------------------------------------------------------ valid text

  lemma AsciiNext(s: seq<Byte>)
    requires s != [] && s[0] < 0x80
    ensures Next(s) == Some((s[0], 1))
  {
  }

  lemma DropAscii(s: seq<Byte>)
    requires ValidText(s) && s != [] && s[0] < 0x80
    ensures ValidText(s[1..])
  {
    AsciiNext(s);
    hide Next;
  }

  lemma {:induction false} DropRun(s: seq<Byte>, n: nat)
    requires ValidText(s) && n <= |s| && forall i :: 0 <= i < n ==> s[i] < 0x80
    ensures ValidText(s[n..])
    decreases n
  {
    hide ValidText;
    if n == 0 {
      assert s[0..] == s;
    } else {
      DropAscii(s);
      DropRun(s[1..], n - 1);
      assert s[1..][n - 1..] == s[n..];
    }
  }

  /** A character in front of valid text. */
  lemma CharThenValid(cp: Scalar, t: seq<Byte>)
    requires cp != 0 && ValidText(t)
    ensures ValidText(Encode(cp) + t)
  {
    var f := DumpFlags(0, false, false, false, false, false, false);
    SingleChar(cp, f);
    DecodeEncodeAll([cp]);
    assert NulFree(Encode(cp));
    hide Decode;
    ValidConcat(Encode(cp), t);
  }

  lemma NextStays(s: seq<Byte>)
    requires ValidText(s) && s != [] && s[0] >= 0x80
    ensures Next(s).Some?
    ensures var (cp, n) := Next(s).value;
            && IsScalar(cp) && cp >= 0x80 && s[..n] == Encode(cp) && ValidText(s[n..])
            && forall i :: 0 <= i < n ==> s[i] >= 0x80
  {
    NextIsCanonical(s);
    var (cp, n) := Next(s).value;
    assert forall i :: 0 <= i < n ==> s[i] == Encode(cp)[i];
    hide Next;
  }

  // ------------------------------------------------------------------ strings

  lemma RawByte(s: seq<Byte>)
    requires ScanBody(s).Some? && s[0] >= 0x80
    ensures ScanBody(s[1..]).Some? && ScanBody(s) == Plus(1, ScanBody(s[1..]))
    ensures Unescape(s) == Prepend([s[0]], Unescape(s[1..]))
  {
    UnescapeTurn(s);
    hide Unescape;
  }

  /** Both passes copy a stretch of bytes above ASCII. */
  lemma {:induction false} RawStretch(s: seq<Byte>, n: nat)
    requires n <= |s| && ScanBody(s).Some? && forall i :: 0 <= i < n ==> s[i] >= 0x80
    ensures ScanBody(s[n..]).Some? && ScanBody(s) == Plus(n, ScanBody(s[n..]))
    ensures Unescape(s) == Prepend(s[..n], Unescape(s[n..]))
    decreases n
  {
    hide Unescape; hide ScanBody; hide Prepend;
    if n == 0 {
      assert s[0..] == s && s[..0] == [];
      PrependNothing(Unescape(s));
    } else {
      var t := s[1..];
      RawByte(s);
      RawStretch(t, n - 1);
      assert t[n - 1..] == s[n..] && [s[0]] + t[..n - 1] == s[..n];
      PrependTwice([s[0]], t[..n - 1], Unescape(s[n..]));
    }
  }

  lemma UnescapeTurn(s: seq<Byte>)
    requires ScanBody(s).Some? && s[0] != QUOTE
    ensures Unescape(s) ==
            if Turn(s).None? then None else Prepend(Turn(s).value.0, Unescape(s[Turn(s).value.1..]))
  {
    hide ScanBody; hide Turn;
  }

  /** A turn at an ASCII byte reads ASCII bytes and yields one character. */
  lemma AsciiTurn(s: seq<Byte>) returns (cp: Scalar)
    requires ScanBody(s).Some? && 0 != s[0] < 0x80 && s[0] != QUOTE && Turn(s).Some?
    ensures cp != 0 && Turn(s).value.0 == Encode(cp)
    ensures forall i :: 0 <= i < Turn(s).value.1 ==> s[i] < 0x80
  {
    if s[0] != BACKSLASH {
      cp := s[0];
    } else if s[1] != 0x75 {
      cp := ShortValue(s[1]);
    } else {
      cp := UnicodeTurn(s);
    }
  }

  lemma UnicodeTurn(s: seq<Byte>) returns (cp: Scalar)
    requires ScanBody(s).Some? && s[0] == BACKSLASH && s[1] == 0x75 && Turn(s).Some?
    ensures cp != 0 && Turn(s).value.0 == Encode(cp)
    ensures forall i :: 0 <= i < Turn(s).value.1 ==> s[i] < 0x80
  {
    ScanBackslash(s);
    hide Encode;
    var rest := s[6..];
    ScanBackslash(rest);
    hide ScanBody;
    UEscapeBounds(s);
    if Turn(s).value.1 == 6 {
      cp := UValue(s);
    } else {
      UEscapeBounds(rest);
      assert forall i :: 6 <= i < 12 ==> s[i] == rest[i - 6];
      cp := (UValue(s) - 0xD800) * 1024 + (UValue(rest) - 0xDC00) + 0x10000;
    }
  }

  lemma UEscapeBounds(s: seq<Byte>)
    requires IsUEscape(s)
    ensures UValue(s) < 0x10000 && forall i :: 0 <= i < 6 ==> s[i] < 0x80
  {
  }

  /** One step of reading valid text, whatever stands there. */
  lemma ReadChar(s: seq<Byte>) returns (cp: Scalar, k: nat)
    requires ValidText(s) && ScanBody(s).Some? && s[0] != QUOTE && Unescape(s).Some?
    ensures cp != 0 && 0 < k <= |s| && ValidText(s[k..])
    ensures ScanBody(s[k..]).Some? && ScanBody(s) == Plus(k, ScanBody(s[k..]))
    ensures Unescape(s) == Prepend(Encode(cp), Unescape(s[k..]))
  {
    hide Turn; hide Unescape; hide Encode; hide ScanBody; hide Decode; hide Next;
    UnescapeTurn(s);
    if s[0] < 0x80 {
      cp := AsciiTurn(s);
      k := Turn(s).value.1;
      DropRun(s, k);
    } else {
      NextStays(s);
      cp, k := Next(s).value.0, Next(s).value.1;
      RawStretch(s, k);
    }
  }

  lemma {:induction false} LiteralIsValid(s: seq<Byte>)
    requires ValidText(s) && ScanBody(s).Some? && Unescape(s).Some?
    ensures ValidText(Unescape(s).value) && ValidText(s[ScanBody(s).value + 1..])
    decreases |s|
  {
    hide ValidText; hide ScanBody; hide Encode; hide Unescape;
    if s[0] == QUOTE {
      AtQuote(s);
      DropAscii(s);
      NothingIsValid();
    } else {
      var cp, k := ReadChar(s);
      LiteralIsValid(s[k..]);
      CharThenValid(cp, Unescape(s[k..]).value);
      DropTwice(s, k, ScanBody(s).value - k + 1);
    }
  }

  lemma AtQuote(s: seq<Byte>)
    requires s != [] && s[0] == QUOTE
    ensures ScanBody(s) == Some(0) && Unescape(s) == Some([])
  {
  }

  lemma NothingIsValid()
    ensures ValidText([])
  {
  }

  // ------------------------------------------------------------------ tokens

  ghost predicate GoodToken(tok: Token) {
    match tok
    case StringTok(s) => ValidText(s)
    case IntegerTok(i) => INT_MIN <= i <= INT_MAX
    case _ => true
  }

  lemma {:induction false} SpaceSkipped(s: seq<Byte>)
    requires ValidText(s)
    ensures ValidText(SkipSpace(s))
    decreases |s|
  {
    hide ValidText;
    if s != [] && IsSpace(s[0]) {
      DropAscii(s);
      SpaceSkipped(s[1..]);
    } else {
      assert SkipSpace(s) == s;
    }
  }

  lemma {:induction false} AlphaRunIs(s: seq<Byte>)
    ensures forall i :: 0 <= i < AlphaRun(s) ==> IsAlpha(s[i])
    decreases |s|
  {
    if s == [] || !IsAlpha(s[0]) {
      assert AlphaRun(s) == 0;
    } else {
      AlphaRunIs(s[1..]);
      forall i | 0 <= i < AlphaRun(s) ensures IsAlpha(s[i]) {
        assert i > 0 ==> s[i] == s[1..][i - 1];
      }
    }
  }

  lemma DigitsAscii(t: seq<Byte>, k: nat)
    requires k <= |t| && IsDigits(t[k..])
    ensures forall i :: k <= i < |t| ==> t[i] < 0x80
  {
    forall i | k <= i < |t| ensures t[i] < 0x80 {
      assert t[k..][i - k] in t[k..];
    }
  }

  lemma NumberAscii(n: Number)
    requires IsNumber(n)
    ensures forall i :: 0 <= i < |NumberText(n)| ==> NumberText(n)[i] < 0x80
  {
    if n.whole != [0x30] {
      assert n.whole[0..] == n.whole;
      DigitsAscii(n.whole, 0);
    }
    if n.frac != [] {
      DigitsAscii(n.frac, 1);
    }
    if n.exp != [] {
      if IsDigits(n.exp[1..]) {
        DigitsAscii(n.exp, 1);
      } else {
        DigitsAscii(n.exp, 2);
      }
    }
  }

  lemma NumberIsGood(s: seq<Byte>)
    requires ValidText(s) && s != [] && !LexNumber(s).0.Invalid?
    ensures GoodToken(LexNumber(s).0) && ValidText(LexNumber(s).1)
  {
    hide ValidText; hide LexNumber; hide IsNumber;
    var n := NumberIsGrammatical(s);
    NumberAscii(n);
    var k := |NumberText(n)|;
    assert forall i :: 0 <= i < k ==> s[i] == NumberText(n)[i];
    DropRun(s, k);
    assert s[k..] == LexNumber(s).1;
  }

  lemma StringIsGood(s: seq<Byte>)
    requires ValidText(s) && !LexString(s).0.Invalid?
    ensures GoodToken(LexString(s).0) && ValidText(LexString(s).1)
  {
    hide ValidText;
    LiteralIsValid(s);
  }

  /** Reading a token from valid text yields a good token and leaves valid text. */
  lemma TokenIsGood(s: seq<Byte>, bad: bool)
    requires ValidText(s) && !IsEnd(Lex(s, bad).0)
    ensures GoodToken(Lex(s, bad).0) && ValidText(Lex(s, bad).1)
  {
    hide ValidText; hide LexString; hide LexNumber;
    SpaceSkipped(s);
    var t := SkipSpace(s);
    if IsPunct(t[0]) {
      DropAscii(t);
    } else if t[0] == QUOTE {
      DropAscii(t);
      StringIsGood(t[1..]);
    } else if IsDigit(t[0]) || t[0] == 0x2D {
      NumberIsGood(t);
    } else {
      AlphaRunIs(t);
      DropRun(t, AlphaRun(t));
    }
  }

  // ------------------------------------------------------------------ values

  ghost predicate GoodMembers(ms: seq<Member>, serial: nat) {
    && DistinctKeys(ms) && DistinctSerials(ms)
    && forall m <- ms :: m.serial < serial && ValidText(m.key) && Loaded(m.value)
  }

  lemma SetIsGood(ms: seq<Member>, key: seq<Byte>, serial: nat, value: Json)
    requires GoodMembers(ms, serial) && ValidText(key) && Loaded(value)
    ensures GoodMembers(SetMember(ms, key, serial, value), serial + 1)
  {
    hide ValidText; hide Loaded; hide FindKey;
    var r := SetMember(ms, key, serial, value);
    match FindKey(ms, key) {
      case Some(i) =>
        forall m | m in r ensures m.serial < serial + 1 && ValidText(m.key) && Loaded(m.value) {
          assert m in ms || m == Member(key, ms[i].serial, value);
          assert ms[i] in ms;
        }
      case None =>
        assert forall j :: 0 <= j < |ms| ==> ms[j] in ms;
    }
  }

  lemma {:induction false} ValueIsLoaded(tok: Token, s: seq<Byte>, bad: bool, f: LoadFlags)
    requires ValidText(s) && GoodToken(tok) && ParseValue(tok, s, bad, f).Some?
    ensures Loaded(ParseValue(tok, s, bad, f).value.0) && ValidText(ParseValue(tok, s, bad, f).value.1)
    decreases |s|, 2
  {
    hide ValidText; hide ParseArray; hide ParseObject;
    if tok == OPEN_ARRAY {
      ArrayIsLoaded(s, bad, f);
    } else if tok == OPEN_OBJECT {
      ObjectIsLoaded(s, bad, f);
    }
  }

  lemma {:induction false} ArrayIsLoaded(s: seq<Byte>, bad: bool, f: LoadFlags)
    requires ValidText(s) && ParseArray(s, bad, f).Some?
    ensures Loaded(ParseArray(s, bad, f).value.0) && ValidText(ParseArray(s, bad, f).value.1)
    decreases |s|, 1
  {
    hide ValidText; hide Lex; hide ParseElems; hide GoodToken;
    TokenIsGood(s, bad);
    var (tok, rest) := Lex(s, bad);
    if tok == CLOSE_ARRAY {
    } else {
      ElemsAreLoaded([], tok, rest, bad, f);
    }
  }

  lemma {:induction false} ElemsAreLoaded(done: seq<Json>, tok: Token, s: seq<Byte>, bad: bool, f: LoadFlags)
    requires ValidText(s) && GoodToken(tok) && ParseElems(done, tok, s, bad, f).Some?
    requires forall e <- done :: Loaded(e)
    ensures Loaded(ParseElems(done, tok, s, bad, f).value.0) && ValidText(ParseElems(done, tok, s, bad, f).value.1)
    decreases |s|, 3
  {
    hide ValidText; hide Lex; hide ParseValue; hide GoodToken;
    ValueIsLoaded(tok, s, bad, f);
    var (v, rest) := ParseValue(tok, s, bad, f).value;
    var (next, rest') := Lex(rest, bad);
    TokenIsGood(rest, bad);
    if next != COMMA {
    } else {
      var (tok', rest'') := Lex(rest', bad);
      TokenIsGood(rest', bad);
      ElemsAreLoaded(done + [v], tok', rest'', bad, f);
    }
  }

  lemma {:induction false} ObjectIsLoaded(s: seq<Byte>, bad: bool, f: LoadFlags)
    requires ValidText(s) && ParseObject(s, bad, f).Some?
    ensures Loaded(ParseObject(s, bad, f).value.0) && ValidText(ParseObject(s, bad, f).value.1)
    decreases |s|, 1
  {
    hide ValidText; hide Lex; hide ParseMembers; hide GoodToken;
    TokenIsGood(s, bad);
    var (tok, rest) := Lex(s, bad);
    if tok == CLOSE_OBJECT {
    } else {
      MembersAreLoaded([], 0, tok, rest, bad, f);
    }
  }

  lemma {:induction false} MembersAreLoaded(done: seq<Member>, serial: nat, tok: Token, s: seq<Byte>, bad: bool,
                                            f: LoadFlags)
    requires ValidText(s) && GoodToken(tok) && ParseMembers(done, serial, tok, s, bad, f).Some?
    requires GoodMembers(done, serial)
    ensures Loaded(ParseMembers(done, serial, tok, s, bad, f).value.0)
    ensures ValidText(ParseMembers(done, serial, tok, s, bad, f).value.1)
    decreases |s|, 3
  {
    hide ValidText; hide Lex; hide ParseValue; hide SetMember; hide DistinctKeys; hide DistinctSerials; hide FindKey;
    var (colon, rest) := Lex(s, bad);
    TokenIsGood(s, bad);
    var (first, rest') := Lex(rest, bad);
    TokenIsGood(rest, bad);
    ValueIsLoaded(first, rest', bad, f);
    var (v, rest'') := ParseValue(first, rest', bad, f).value;
    SetIsGood(done, tok.s, serial, v);
    var done' := SetMember(done, tok.s, serial, v);
    var (next, after) := Lex(rest'', bad);
    TokenIsGood(rest'', bad);
    if next != COMMA {
    } else {
      var (tok', after') := Lex(after, bad);
      TokenIsGood(after, bad);
      MembersAreLoaded(done', serial + 1, tok', after', bad, f);
    }
  }

  /** parse_json on valid text returns only such values. */
  lemma ParsedIsLoaded(s: seq<Byte>, bad: bool, f: LoadFlags)
    requires ValidText(s) && Parse(s, bad, f).Some?
    ensures Loaded(Parse(s, bad, f).value)
  {
    hide ValidText; hide Lex; hide ParseValue; hide GoodToken;
    var (tok, rest) := Lex(s, bad);
    if IsEnd(tok) {
      assert ParseValue(tok, rest, bad, f).None? by { NoValueAtEnd(tok, rest, bad, f); }
    } else {
      TokenIsGood(s, bad);
      ValueIsLoaded(tok, rest, bad, f);
    }
  }

  lemma NoValueAtEnd(tok: Token, s: seq<Byte>, bad: bool, f: LoadFlags)
    requires IsEnd(tok)
    ensures ParseValue(tok, s, bad, f).None?
  {
  }

  lemma {:induction false} DeliveredIsValid(s: seq<Byte>)
    ensures Decode(s[..GoodLength(s)]).Some?
    decreases |s|
  {
    hide Next;
    if s == [] || Next(s).None? {
      assert s[..0] == [];
    } else {
      var n := Next(s).value.1;
      var t := s[..GoodLength(s)];
      DeliveredIsValid(s[n..]);
      NextIsCanonical(s);
      assert t[n..] == s[n..][..GoodLength(s[n..])];
      assert t == Encode(Next(s).value.0) + t[n..];
      NextOfEncode(Next(s).value.0, t[n..]);
    }
  }

  /** Whatever bytes a C string holds, what json_loads returns from the part that is delivered is well formed. */
  lemma LoadReturnsLoaded(text: CString, f: LoadFlags)
    requires Parse(text[..GoodLength(text)], GoodLength(text) < |text|, f).Some?
    ensures Loaded(Parse(text[..GoodLength(text)], GoodLength(text) < |text|, f).value)
  {
    hide Parse;
    hide Decode;
    DeliveredIsValid(text);
    ParsedIsLoaded(text[..GoodLength(text)], GoodLength(text) < |text|, f);
  }

  ghost predicate NoReals(v: Json) {
    match v
    case Real(_) => false
    case Array(elems) => forall e <- elems :: NoReals(e)
    case Object(members) => forall m <- members :: NoReals(m.value)
    case _ => true
  }

  lemma {:induction false} LoadedIsProper(v: Json)
    requires Loaded(v) && NoReals(v)
    ensures Proper(v)
  {
    hide ValidText;
    match v
    case Array(elems) =>
      forall e | e in elems ensures Proper(e) {
        LoadedIsProper(e);
      }
    case Object(ms) =>
      forall m | m in ms ensures Proper(m.value) {
        LoadedIsProper(m.value);
      }
    case _ =>
  }

  /** The converse of the round trip: what was loaded can be dumped under any flags, and loading that gives an equal
      value again. */
  lemma LoadedCanBeDumped(text: CString, f: LoadFlags, df: DumpFlags, f': LoadFlags)
    requires Parse(text[..GoodLength(text)], GoodLength(text) < |text|, f).Some?
    requires NoReals(Parse(text[..GoodLength(text)], GoodLength(text) < |text|, f).value)
    requires f.decodeAny ==> f'.decodeAny
    ensures var v := Parse(text[..GoodLength(text)], GoodLength(text) < |text|, f).value;
            var dumped := Dump(v, df);
            && NulFree(dumped) && GoodLength(dumped) == |dumped|
            && Parse(dumped, false, f').Some? && Equal(v, Parse(dumped, false, f').value)
  {
    var s, bad := text[..GoodLength(text)], GoodLength(text) < |text|;
    LoadReturnsLoaded(text, f);
    var v := Parse(s, bad, f).value;
    if !f.decodeAny {
      ContainerIsParsed(s, bad, f);
    }
    hide *;
    LoadedIsProper(v);
    LoadsWhatWasDumped(v, df, f');
    RoundTrip(v, df, f');
  }

  lemma ContainerIsParsed(s: seq<Byte>, bad: bool, f: LoadFlags)
    requires Parse(s, bad, f).Some? && !f.decodeAny
    ensures Parse(s, bad, f).value.Array? || Parse(s, bad, f).value.Object?
  {
    hide Lex;
    var (tok, rest) := Lex(s, bad);
    if tok == OPEN_ARRAY {
      ArrayIsParsed(rest, bad, f);
    } else {
      ObjectIsParsed(rest, bad, f);
    }
  }

  lemma ArrayIsParsed(s: seq<Byte>, bad: bool, f: LoadFlags)
    requires ParseArray(s, bad, f).Some?
    ensures ParseArray(s, bad, f).value.0.Array?
  {
    hide Lex; hide ParseElems;
    var (tok, rest) := Lex(s, bad);
    if tok != CLOSE_ARRAY {
      ElemsAreParsed([], tok, rest, bad, f);
    }
  }

  lemma {:induction false} ElemsAreParsed(done: seq<Json>, tok: Token, s: seq<Byte>, bad: bool, f: LoadFlags)
    requires ParseElems(done, tok, s, bad, f).Some?
    ensures ParseElems(done, tok, s, bad, f).value.0.Array?
    decreases |s|
  {
    hide Lex; hide ParseValue;
    var (v, rest) := ParseValue(tok, s, bad, f).value;
    var (next, rest') := Lex(rest, bad);
    if next != COMMA {
    } else {
      var (tok', rest'') := Lex(rest', bad);
      ElemsAreParsed(done + [v], tok', rest'', bad, f);
    }
  }

  lemma ObjectIsParsed(s: seq<Byte>, bad: bool, f: LoadFlags)
    requires ParseObject(s, bad, f).Some?
    ensures ParseObject(s, bad, f).value.0.Object?
  {
    hide Lex; hide ParseMembers;
    var (tok, rest) := Lex(s, bad);
    if tok != CLOSE_OBJECT {
      MembersAreParsed([], 0, tok, rest, bad, f);
    }
  }

  lemma {:induction false} MembersAreParsed(done: seq<Member>, serial: nat, tok: Token, s: seq<Byte>, bad: bool,
                                            f: LoadFlags)
    requires ParseMembers(done, serial, tok, s, bad, f).Some?
    ensures ParseMembers(done, serial, tok, s, bad, f).value.0.Object?
    decreases |s|
  {
    hide Lex; hide ParseValue; hide SetMember; hide FindKey;
    var (colon, rest) := Lex(s, bad);
    var (first, rest') := Lex(rest, bad);
    var (v, rest'') := ParseValue(first, rest', bad, f).value;
    var (next, after) := Lex(rest'', bad);
    if next != COMMA {
    } else {
      var (tok', after') := Lex(after, bad);
      MembersAreParsed(SetMember(done, tok.s, serial, v), serial + 1, tok', after', bad, f);
    }
  }
}
