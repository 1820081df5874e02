/** load.c's lexer and recursive-descent parser, reading from a stream and proved to compute the
    functions of JsonParse. */
module JsonLexer {
  import opened Bytes
  import opened Utf8
  import opened JsonString
  import opened Json
  import opened JsonParse
  import opened JsonStream

  class Lexer {
    const stream: Stream
    var saved: seq<Byte>
    var token: Token

    ghost predicate Valid()
      reads stream, stream.buffer
    {
      stream.at <= GoodLength(stream.input) && stream.Valid() && stream.clean && NulFree(stream.input)
    }

    ghost function Rest(): (r: seq<Byte>)
      requires stream.at <= GoodLength(stream.input)
      reads stream`at
    {
      stream.Rest()
    }

    /** Undecodable bytes follow the deliverable ones. */
    ghost predicate Bad() {
      stream.Terminal() == STATE_ERROR
    }

    /** `whole` is the text of the current token as far as it can be read; its byte `i` has been read as `c`
        and saved, or `c` is the code at its end. */
    ghost predicate Cursor(whole: seq<Byte>, i: int, c: int)
      requires stream.at <= GoodLength(stream.input)
      reads `saved, stream, stream.buffer
    {
      && 0 <= i <= |whole|
      && (i < |whole| ==>
            c == Signed(whole[i]) && c != STATE_EOF && c != STATE_ERROR && c != 0
            && Rest() == whole[i + 1..] && saved == whole[..i + 1] && stream.CanUnget(c))
      && (i == |whole| ==> c == stream.Terminal() && Rest() == [] && saved == whole)
    }

    /** What the cursor tells about the current byte. */
    lemma CursorCode(whole: seq<Byte>, i: int, c: int)
      requires stream.at <= GoodLength(stream.input) && Cursor(whole, i, c)
      ensures 0 <= i <= |whole| && c == if i < |whole| then Signed(whole[i]) else stream.Terminal()
    {
    }

    constructor (text: CString)
      ensures Valid() && stream.input == text && stream.at == 0 && fresh(stream) && fresh(stream.buffer)
    {
      stream := new Stream(text);
      saved, token := [], Invalid;
    }

    /** lex_get: the next byte, not saved. */
    method Get() returns (c: int)
      requires Valid()
      modifies stream, stream.buffer
      ensures Valid()
      ensures old(Rest()) == [] ==> c == stream.Terminal() && Rest() == []
      ensures old(Rest()) != [] ==>
                && c == Signed(old(Rest())[0]) && c != STATE_EOF && c != STATE_ERROR && c != 0
                && Rest() == old(Rest())[1..] && stream.CanUnget(c)
    {
      hide GoodLength;
      c := stream.Get();
    }

    /** lex_get_save: moves on to the next byte of `whole`. */
    method Advance(ghost whole: seq<Byte>, ghost i: int, ghost was: int) returns (c: int)
      requires Valid() && Cursor(whole, i, was) && i < |whole|
      modifies `saved, stream, stream.buffer
      ensures Valid() && Cursor(whole, i + 1, c)
    {
      hide GoodLength;
      hide Stream.Valid;
      hide Signed;
      assert i + 1 < |whole| ==> whole[..i + 2] == whole[..i + 1] + [whole[i + 1]];
      c := Get();
      if c != STATE_EOF && c != STATE_ERROR {
        saved := saved + [Unsigned(c)];
      }
    }

    /** lex_unget_unsave: puts the byte at `i` back. */
    method Retreat(c: int, ghost whole: seq<Byte>, ghost i: int)
      requires Valid() && Cursor(whole, i, c)
      modifies `saved, stream`bufferPos, stream`line, stream`column, stream`position, stream`at, stream`clean
      ensures Valid() && Rest() == whole[i..] && saved == whole[..i]
    {
      hide GoodLength;
      hide Stream.Valid;
      if c != STATE_EOF && c != STATE_ERROR {
        stream.Unget(c);
        saved := saved[..|saved| - 1];
        hide Signed;
        assert whole[..i + 1][..i] == whole[..i];
      }
    }

    /** Reads on while there are digits. */
    method SkipDigits(c: int, ghost whole: seq<Byte>, ghost i: int) returns (c': int, ghost j: int)
      requires Valid() && Cursor(whole, i, c)
      modifies `saved, stream, stream.buffer
      ensures Valid() && j == i + DigitRun(whole[i..]) && Cursor(whole, j, c')
    {
      hide GoodLength;
      hide Stream.Valid;
      c', j := c, i;
      while IsDigit(c')
        invariant Valid() && Cursor(whole, j, c') && i <= j
        invariant j + DigitRun(whole[j..]) == i + DigitRun(whole[i..])
        decreases |whole| - j
      {
        assert whole[j..][1..] == whole[j + 1..];
        c' := Advance(whole, j, c');
        j := j + 1;
      }
    }
  
    /** The integer part of a number: a lone zero or digits without a leading zero. */
    method ScanInteger(c: int, ghost whole: seq<Byte>, ghost i: nat) returns (ok: bool, c': int)
      requires Valid() && Cursor(whole, i, c)
      modifies `saved, stream, stream.buffer
      ensures Valid() && (ok <==> IntegerPart(whole, i).Some?)
      ensures ok ==> Cursor(whole, IntegerPart(whole, i).value, c')
    {
      hide GoodLength;
      hide Stream.Valid;
      hide DigitRun;
      c' := c;
      if c == 0x30 {
        c' := Advance(whole, i, c);
        ok := !IsDigit(c');
      } else if IsDigit(c) {
        ghost var j;
        c', j := SkipDigits(c, whole, i);
        ok := true;
      } else {
        ok := false;
      }
    }

    method ScanFraction(c: int, ghost whole: seq<Byte>, ghost i: nat) returns (ok: bool, c': int)
      requires Valid() && Cursor(whole, i, c)
      modifies `saved, stream, stream.buffer
      ensures Valid() && (ok <==> FractionPart(whole, i).Some?)
      ensures ok ==> Cursor(whole, FractionPart(whole, i).value, c')
    {
      hide GoodLength;
      hide Stream.Valid;
      hide DigitRun;
      ok, c' := true, c;
      if c == 0x2E {
        c' := Advance(whole, i, c);
        if !IsDigit(c') {
          return false, c';
        }
        ghost var j;
        c', j := SkipDigits(c', whole, i + 1);
      }
    }

    method ScanExponent(c: int, ghost whole: seq<Byte>, ghost i: nat) returns (ok: bool, c': int)
      requires Valid() && Cursor(whole, i, c)
      modifies `saved, stream, stream.buffer
      ensures Valid() && (ok <==> ExponentPart(whole, i).Some?)
      ensures ok ==> Cursor(whole, ExponentPart(whole, i).value, c')
    {
      hide GoodLength;
      hide Stream.Valid;
      hide DigitRun;
      hide Cursor;
      ok, c' := true, c;
      CursorCode(whole, i, c);
      if c == 0x45 || c == 0x65 {
        c' := Advance(whole, i, c);
        ghost var j := i + 1;
        CursorCode(whole, j, c');
        if c' == 0x2B || c' == 0x2D {
          c' := Advance(whole, j, c');
          j := j + 1;
          CursorCode(whole, j, c');
        }
        if !IsDigit(c') {
          return false, c';
        }
        c', j := SkipDigits(c', whole, j);
      }
    }

    /** lex_scan_number; `c` is the first byte, already saved. */
    method ScanNumber(c: int, ghost whole: seq<Byte>)
      requires Valid() && whole != [] && Cursor(whole, 0, c)
      modifies this, stream, stream.buffer
      ensures Valid() && token == LexNumber(whole).0
      ensures !token.Invalid? ==> Rest() == LexNumber(whole).1
    {
      hide GoodLength;
      hide Stream.Valid;
      hide IntegerPart;
      hide FractionPart;
      hide ExponentPart;
      hide Cursor;
      hide IntegerToken;
      token := Invalid;
      var ok, c' := true, c;
      CursorCode(whole, 0, c);
      if c == 0x2D {
        c' := Advance(whole, 0, c);
      }
      ok, c' := ScanInteger(c', whole, if c == 0x2D then 1 else 0);
      if !ok {
        return;
      }
      ghost var n := IntegerPart(whole, if whole[0] == 0x2D then 1 else 0).value;
      CursorCode(whole, n, c');
      if c' != 0x2E && c' != 0x45 && c' != 0x65 {
        Retreat(c', whole, n);
        token := IntegerToken(saved);
        return;
      }
      ok, c' := ScanFraction(c', whole, n);
      if !ok {
        return;
      }
      ghost var k := FractionPart(whole, n).value;
      ok, c' := ScanExponent(c', whole, k);
      if !ok {
        return;
      }
      Retreat(c', whole, ExponentPart(whole, k).value);
      token := RealTok(saved);
    }
  
    /** The four hex digits of an escape. */
    method ScanHex(c: int, ghost whole: seq<Byte>, ghost i: nat) returns (ok: bool, c': int)
      requires Valid() && Cursor(whole, i, c)
      modifies `saved, stream, stream.buffer
      ensures Valid()
      ensures ok <==> i + 4 <= |whole| && forall k :: i <= k < i + 4 ==> IsHex(whole[k])
      ensures ok ==> Cursor(whole, i + 4, c')
    {
      hide GoodLength;
      hide Stream.Valid;
      hide Cursor;
      c' := c;
      CursorCode(whole, i, c);
      for k := 0 to 4
        invariant Valid() && Cursor(whole, i + k, c') && i + k <= |whole|
        invariant forall j :: i <= j < i + k ==> IsHex(whole[j])
      {
        CursorCode(whole, i + k, c');
        if !IsHex(c') {
          return false, c';
        }
        c' := Advance(whole, i + k, c');
        CursorCode(whole, i + k + 1, c');
      }
      ok := true;
    }

    /** One round of the first pass on the byte `c` at `i`, not a quote: `k` bytes on, or a lexical error. */
    method ScanPiece(c: int, ghost whole: seq<Byte>, ghost i: nat) returns (ok: bool, c': int, ghost k: nat)
      requires Valid() && Cursor(whole, i, c) && c != QUOTE
      modifies `saved, stream, stream.buffer
      ensures Valid() && (!ok ==> ScanBody(whole[i..]).None?)
      ensures ok ==> k > 0 && i + k <= |whole| && Cursor(whole, i + k, c')
      ensures ok ==> ScanBody(whole[i..]) == Plus(k, ScanBody(whole[i + k..]))
    {
      hide GoodLength;
      hide Stream.Valid;
      hide Cursor;
      hide ScanBody;
      ok, c', k := false, c, 0;
      CursorCode(whole, i, c);
      ScanUnfolds(whole, i);
      if c == STATE_ERROR || c == STATE_EOF {
        CodesEndText(whole, i, c);
        return;
      }
      if 0 <= c <= 0x1F {
        Retreat(c, whole, i);
        return;
      }
      if c == BACKSLASH {
        c' := Advance(whole, i, c);
        CursorCode(whole, i + 1, c');
        if c' == 0x75 {
          c' := Advance(whole, i + 1, c');
          CursorCode(whole, i + 2, c');
          ok, c' := ScanHex(c', whole, i + 2);
          k := 6;
        } else if IsShortEscape(c') {
          c' := Advance(whole, i + 1, c');
          ok, k := true, 2;
          CursorCode(whole, i + 2, c');
        }
      } else {
        c' := Advance(whole, i, c);
        ok, k := true, 1;
        CursorCode(whole, i + 1, c');
      }
    }

    lemma CodesEndText(whole: seq<Byte>, i: int, c: int)
      requires stream.at <= GoodLength(stream.input) && Cursor(whole, i, c)
      ensures c == STATE_ERROR || c == STATE_EOF <==> i == |whole|
    {
    }

    /** The first pass of lex_scan_string, from the opening quote at the start of `whole`. */
    method FirstPass(c: int, ghost whole: seq<Byte>) returns (ok: bool)
      requires Valid() && whole != [] && Cursor(whole, 0, c)
      modifies `saved, stream, stream.buffer
      ensures Valid() && (ok <==> ScanBody(whole[1..]).Some?)
      ensures ok ==> var n := ScanBody(whole[1..]).value; saved == whole[..n + 2] && Rest() == whole[n + 2..]
    {
      hide GoodLength;
      hide Stream.Valid;
      hide Cursor;
      hide ScanBody;
      var c' := Advance(whole, 0, c);
      ghost var i := 1;
      CursorCode(whole, 1, c');
      while c' != QUOTE
        invariant Valid() && 1 <= i <= |whole| && Cursor(whole, i, c')
        invariant ScanBody(whole[1..]) == Plus(i - 1, ScanBody(whole[i..]))
        decreases |whole| - i
      {
        ghost var k;
        ok, c', k := ScanPiece(c', whole, i);
        if !ok {
          return false;
        }
        i := i + k;
      }
      CursorCode(whole, i, c');
      ScanUnfolds(whole, i);
      AtByte(whole, i, c');
      return true;
    }

    lemma AtByte(whole: seq<Byte>, i: int, c: int)
      requires stream.at <= GoodLength(stream.input) && Cursor(whole, i, c) && i < |whole|
      ensures saved == whole[..i + 1] && Rest() == whole[i + 1..]
    {
    }

    /** lex_scan_string: the second pass reads the saved text. */
    method ScanString(c: int, ghost whole: seq<Byte>)
      requires Valid() && whole != [] && Cursor(whole, 0, c)
      modifies this, stream, stream.buffer
      ensures Valid() && token == LexString(whole[1..]).0
      ensures !token.Invalid? ==> Rest() == LexString(whole[1..]).1
    {
      hide GoodLength;
      hide Stream.Valid;
      hide Cursor;
      hide ScanBody;
      hide Unescape;
      token := Invalid;
      var ok := FirstPass(c, whole);
      if !ok {
        return;
      }
      ghost var s := whole[1..];
      ghost var n := ScanBody(s).value;
      assert saved[1..] == s[..n + 1] && s[n + 1..] == whole[n + 2..];
      LiteralEnds(s);
      var text := DecodeLiteral(saved[1..]);
      if text.Some? {
        token := StringTok(text.value);
      }
    }

    /** Reads on while there are letters. */
    method SkipLetters(c: int, ghost whole: seq<Byte>, ghost i: int) returns (c': int, ghost j: int)
      requires Valid() && Cursor(whole, i, c)
      modifies `saved, stream, stream.buffer
      ensures Valid() && j == i + AlphaRun(whole[i..]) && Cursor(whole, j, c')
    {
      hide GoodLength;
      hide Stream.Valid;
      c', j := c, i;
      while IsAlpha(c')
        invariant Valid() && Cursor(whole, j, c') && i <= j
        invariant j + AlphaRun(whole[j..]) == i + AlphaRun(whole[i..])
        decreases |whole| - j
      {
        assert whole[j..][1..] == whole[j + 1..];
        c' := Advance(whole, j, c');
        j := j + 1;
      }
    }

    /** `c` is the first byte of `t`, read but not saved, or the code when there is none. */
    ghost predicate Pending(t: seq<Byte>, c: int)
      requires stream.at <= GoodLength(stream.input)
      reads stream, stream.buffer
    {
      && (t == [] ==> c == stream.Terminal() && Rest() == [])
      && (t != [] ==>
            && c == Signed(t[0]) && c != STATE_EOF && c != STATE_ERROR && c != 0
            && Rest() == t[1..] && stream.CanUnget(c))
    }

    /** Skips white space. */
    method SkipSpaces() returns (c: int)
      requires Valid()
      modifies stream, stream.buffer
      ensures Valid() && Pending(SkipSpace(old(Rest())), c)
    {
      hide GoodLength;
      hide Stream.Valid;
      ghost var t := Rest();
      c := Get();
      while IsSpace(c)
        invariant Valid() && Pending(t, c) && SkipSpace(t) == SkipSpace(old(Rest()))
        decreases |t|
      {
        t := t[1..];
        c := Get();
      }
    }

    /** lex_scan: reads the next token. */
    method Scan()
      requires Valid()
      modifies this, stream, stream.buffer
      ensures Valid() && token == Lex(old(Rest()), Bad()).0
      ensures !token.Invalid? ==> Rest() == Lex(old(Rest()), Bad()).1
    {
      hide GoodLength;
      hide Stream.Valid;
      hide SkipSpace;
      hide LexString;
      hide LexNumber;
      hide WordToken;
      saved := [];
      ghost var t := SkipSpace(Rest());
      var c := SkipSpaces();
      if c == STATE_EOF {
        token := Eof;
        return;
      }
      if c == STATE_ERROR {
        token := Invalid;
        return;
      }
      saved := [Unsigned(c)];
      assert t != [] && t[..1] == [t[0]];
      assert Cursor(t, 0, c);
      if IsPunct(c) {
        token := Punct(c);
      } else if c == QUOTE {
        ScanString(c, t);
      } else if IsDigit(c) || c == 0x2D {
        ScanNumber(c, t);
      } else if IsAlpha(c) {
        ghost var j;
        c, j := SkipLetters(c, t, 0);
        assert t[0..] == t;
        Retreat(c, t, j);
        token := WordToken(saved);
      } else {
        token := Invalid;
      }
    }
  
    /** `r` and the bytes left are what `spec` says. */
    ghost predicate Agrees(r: Option<Json>, spec: Option<(Json, seq<Byte>)>)
      requires stream.at <= GoodLength(stream.input)
      reads stream`at
    {
      (r.Some? <==> spec.Some?) && (r.Some? ==> r.value == spec.value.0 && Rest() == spec.value.1)
    }

    /** parse_value, on a token already read; `bound` exceeds what is left after it. */
    method ReadValue(f: LoadFlags, ghost bound: nat) returns (r: Option<Json>)
      requires Valid() && (!IsEnd(token) ==> |Rest()| < bound)
      modifies this, stream, stream.buffer
      ensures Valid() && Agrees(r, ParseValue(old(token), old(Rest()), Bad(), f))
      decreases bound, 0
    {
      hide GoodLength;
      hide Stream.Valid;
      match token
      case StringTok(text) => r := Some(String(text));
      case IntegerTok(i) => r := Some(Integer(i));
      case RealTok(lexeme) => r := Some(Real(lexeme));
      case TrueTok => r := Some(True);
      case FalseTok => r := Some(False);
      case NullTok => r := Some(Null);
      case Punct(c) =>
        if c == 0x7B {
          r := ReadObject(f);
        } else if c == 0x5B {
          r := ReadArray(f);
        } else {
          r := None;
        }
      case _ => r := None;
    }

    /** parse_array, after the opening bracket. */
    method ReadArray(f: LoadFlags) returns (r: Option<Json>)
      requires Valid()
      modifies this, stream, stream.buffer
      ensures Valid() && Agrees(r, ParseArray(old(Rest()), Bad(), f))
      decreases |Rest()|, 1
    {
      hide GoodLength;
      hide Stream.Valid;
      hide Lex;
      ghost var s := Rest();
      Scan();
      if token == CLOSE_ARRAY {
        return Some(Array([]));
      }
      var elems := [];
      while !token.Eof?
        invariant Valid() && (!IsEnd(token) ==> |Rest()| < |s|)
        invariant ParseArray(s, Bad(), f) == if IsEnd(token) then None else ParseElems(elems, token, Rest(), Bad(), f)
        decreases if token.Invalid? then 0 else |Rest()| + 1
      {
        ghost var tok, rest := token, Rest();
        var elem := ReadValue(f, |s|);
        if elem.None? {
          return None;
        }
        elems := elems + [elem.value];
        Scan();
        if token != COMMA {
          break;
        }
        Scan();
      }
      if token != CLOSE_ARRAY {
        return None;
      }
      return Some(Array(elems));
    }

    /** parse_object, after the opening brace. */
    method ReadObject(f: LoadFlags) returns (r: Option<Json>)
      requires Valid()
      modifies this, stream, stream.buffer
      ensures Valid() && Agrees(r, ParseObject(old(Rest()), Bad(), f))
      decreases |Rest()|, 1
    {
      hide GoodLength;
      hide Stream.Valid;
      hide Lex;
      ghost var s := Rest();
      Scan();
      if token == CLOSE_OBJECT {
        return Some(Object([]));
      }
      var members, serial := [], 0;
      while true
        invariant Valid() && (!IsEnd(token) ==> |Rest()| < |s|)
        invariant ParseObject(s, Bad(), f) ==
                  if IsEnd(token) then None else ParseMembers(members, serial, token, Rest(), Bad(), f)
        decreases if IsEnd(token) then 0 else |Rest()| + 1
      {
        if !token.StringTok? {
          return None;
        }
        var key := token.s;
        if f.rejectDuplicates && FindKey(members, key).Some? {
          return None;
        }
        Scan();
        if token != COLON {
          return None;
        }
        Scan();
        var value := ReadValue(f, |s|);
        if value.None? {
          return None;
        }
        members := SetMember(members, key, serial, value.value);
        serial := serial + 1;
        Scan();
        if token != COMMA {
          break;
        }
        Scan();
      }
      if token != CLOSE_OBJECT {
        return None;
      }
      return Some(Object(members));
    }
  
    /** parse_json on a fresh lexer. */
    method ReadJson(f: LoadFlags) returns (r: Option<Json>)
      requires Valid()
      modifies this, stream, stream.buffer
      ensures r == Parse(old(Rest()), Bad(), f)
    {
      hide GoodLength;
      hide Stream.Valid;
      hide Lex;
      hide ParseElems;
      hide ParseMembers;
      Scan();
      if !f.decodeAny {
        if token != OPEN_ARRAY && token != OPEN_OBJECT {
          return None;
        }
      }
      r := ReadValue(f, |Rest()| + 1);
      if r.None? {
        return;
      }
      if !f.disableEofCheck {
        Scan();
        if token != Eof {
          return None;
        }
      }
    }
  }

  /** json_loads: parses the deliverable prefix of the text, remembering whether anything follows it. */
  method LoadString(text: CString, f: LoadFlags) returns (r: Option<Json>)
    ensures r == Parse(text[..GoodLength(text)], GoodLength(text) < |text|, f)
  {
    hide GoodLength;
    hide Parse;
    var lexer := new Lexer(text);
    assert lexer.Rest() == text[..GoodLength(text)];
    r := lexer.ReadJson(f);
  }

  lemma ScanUnfolds(whole: seq<Byte>, i: nat)
    requires i <= |whole|
    ensures var r := ScanBody(whole[i..]);
            if i == |whole| then r.None?
            else if whole[i] == QUOTE then r == Some(0)
            else if whole[i] <= 0x1F then r.None?
            else if whole[i] == BACKSLASH then
              if i + 1 == |whole| then r.None?
              else if whole[i + 1] == 0x75 then
                if i + 6 <= |whole| && forall k :: i + 2 <= k < i + 6 ==> IsHex(whole[k])
                then r == Plus(6, ScanBody(whole[i + 6..])) else r.None?
              else if IsShortEscape(whole[i + 1]) then r == Plus(2, ScanBody(whole[i + 2..]))
              else r.None?
            else r == Plus(1, ScanBody(whole[i + 1..]))
  {
    var s := whole[i..];
    if s != [] {
      assert s[1..] == whole[i + 1..];
      if |s| >= 2 {
        assert s[2..] == whole[i + 2..];
      }
      if |s| >= 6 {
        assert s[6..] == whole[i + 6..];
        assert IsUEscape(s) <==> s[0] == BACKSLASH && s[1] == 0x75 && forall k :: i + 2 <= k < i + 6 ==> IsHex(whole[k]);
      }
    }
  }
}
