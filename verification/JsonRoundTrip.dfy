/** Parsing dumped text gives the value back, for every layout and ordering flag. */
module JsonRoundTrip {
  import opened Bytes
  import opened Utf8
  import opened JsonString
  import opened Json
  import opened JsonParse
  import opened JsonStream

  /** What the parser builds from the text of a value: members in the order read, serials counted from 0. */
  function Renumber(v: Json): (r: Json)
    decreases v, 1
  {
    match v
    case Array(elems) => Array(RenumberElems(elems))
    case Object(members) => Object(RenumberMembers(members, 0))
    case _ => v
  }

  function RenumberElems(elems: seq<Json>): (r: seq<Json>)
    decreases elems, 0
  {
    if elems == [] then [] else [Renumber(elems[0])] + RenumberElems(elems[1..])
  }

  function RenumberMembers(members: seq<Member>, k: nat): (r: seq<Member>)
    decreases members, 0
  {
    if members == [] then []
    else [Member(members[0].key, k, Renumber(members[0].value))] + RenumberMembers(members[1..], k + 1)
  }

  /** Proper apart from the serials, which the text does not show. */
  ghost predicate Readable(v: Json) {
    match v
    case Integer(i) => INT_MIN <= i <= INT_MAX
    case Real(_) => false
    case String(s) => ValidText(s)
    case Array(elems) => forall e <- elems :: Readable(e)
    case Object(members) =>
      DistinctKeys(members) && forall m <- members :: ValidText(m.key) && Readable(m.value)
    case _ => true
  }

  // ------------------------------------------------------------------ tokens

  /** What may follow a number or a word without becoming part of it. */
  predicate Delimits(after: seq<Byte>) {
    after == [] || IsPunct(after[0]) || IsSpace(after[0])
  }

  lemma {:induction false} LexSkips(ws: seq<Byte>, t: seq<Byte>, bad: bool)
    requires forall b <- ws :: IsSpace(b)
    ensures Lex(ws + t, bad) == Lex(t, bad)
    decreases |ws|
  {
    hide LexAt;
    if ws == [] {
      assert ws + t == t;
    } else {
      assert (ws + t)[1..] == ws[1..] + t;
      LexSkips(ws[1..], t, bad);
    }
  }

  lemma IndentIsSpace(f: DumpFlags, depth: nat, space: bool)
    ensures forall b <- Indent(f, depth, space) :: IsSpace(b)
  {
  }

  lemma LexPunct(c: Byte, t: seq<Byte>, bad: bool)
    requires IsPunct(c)
    ensures Lex([c] + t, bad) == (Punct(c), t)
  {
  }

  /** White space from dump_indent, then a punctuation mark. */
  lemma LexIndentPunct(f: DumpFlags, depth: nat, space: bool, c: Byte, t: seq<Byte>, bad: bool)
    requires IsPunct(c)
    ensures Lex(Indent(f, depth, space) + ([c] + t), bad) == (Punct(c), t)
    ensures Delimits(Indent(f, depth, space) + ([c] + t))
  {
    IndentIsSpace(f, depth, space);
    LexSkips(Indent(f, depth, space), [c] + t, bad);
    LexPunct(c, t, bad);
    if Indent(f, depth, space) != [] {
      assert (Indent(f, depth, space) + ([c] + t))[0] == Indent(f, depth, space)[0];
    }
  }

  lemma LexLiteral(s: seq<Byte>, f: DumpFlags, after: seq<Byte>, bad: bool)
    requires ValidText(s)
    ensures Lex(StringLiteral(s, f) + after, bad) == (StringTok(s), after)
  {
    LiteralRoundTrip(s, f, after);
    var body := CharsText(Decode(s).value, f);
    hide ScanBody;
    hide Unescape;
    hide CharsText;
    hide Decode;
    var t := body + ([QUOTE] + after);
    assert t[|body| + 1..] == after;
    assert ([QUOTE] + t)[1..] == t;
  }

  lemma {:induction false} DigitRunOf(ds: seq<Byte>, after: seq<Byte>)
    requires (forall b <- ds :: IsDigit(b)) && (after == [] || !IsDigit(after[0]))
    ensures DigitRun(ds + after) == |ds|
    decreases |ds|
  {
    if ds == [] {
      assert ds + after == after;
    } else {
      assert (ds + after)[1..] == ds[1..] + after;
      DigitRunOf(ds[1..], after);
    }
  }

  lemma {:induction false} DigitsValueOf(n: nat)
    ensures DigitsValue(Digits(n)) == n
  {
    var ds := Digits(n);
    if n < 10 {
      assert ds[..0] == [];
    } else {
      DigitsValueOf(n / 10);
      assert ds[..|ds| - 1] == Digits(n / 10);
    }
  }

  lemma IntegerPartOf(s: seq<Byte>, start: nat, n: nat, after: seq<Byte>)
    requires start <= |s| && s[start..] == Digits(n) + after && (after == [] || !IsDigit(after[0]))
    ensures IntegerPart(s, start) == Some(start + |Digits(n)|)
  {
    var ds := Digits(n);
    assert s[start] == ds[0];
    DigitRunOf(ds, after);
    if n == 0 {
      assert ds == [0x30];
      assert start + 1 < |s| ==> s[start + 1] == after[0];
    }
  }

  lemma IntegerValueOf(i: int)
    ensures NumberValue(IntegerText(i)) == i
  {
    DigitsValueOf(if i < 0 then -i else i);
    hide DigitsValue;
    assert i < 0 ==> IntegerText(i)[1..] == Digits(-i);
    assert i >= 0 ==> Digits(i)[0] in Digits(i);
  }

  lemma IntegerTextParts(i: int, after: seq<Byte>)
    ensures var start, s := if i < 0 then 1 else 0, IntegerText(i) + after;
            && s[start..] == Digits(if i < 0 then -i else i) + after
            && |IntegerText(i)| == start + |Digits(if i < 0 then -i else i)|
            && (s[0] == 0x2D <==> i < 0) && (s[0] == 0x2D || 0x30 <= s[0] <= 0x39)
  {
    var ds := Digits(if i < 0 then -i else i);
    assert ds[0] in ds;
    hide Digits;
  }

  lemma LexIntegerNumber(i: int, after: seq<Byte>)
    requires INT_MIN <= i <= INT_MAX && Delimits(after)
    ensures LexNumber(IntegerText(i) + after) == (IntegerTok(i), after)
  {
    IntegerTextParts(i, after);
    IntegerValueOf(i);
    hide IntegerText;
    hide Digits;
    var n, start := if i < 0 then -i else i, if i < 0 then 1 else 0;
    var text := IntegerText(i);
    var s := text + after;
    IntegerPartOf(s, start, n, after);
    hide IntegerPart;
    hide NumberValue;
    assert s[..|text|] == text && s[|text|..] == after;
    assert after != [] ==> s[|text|] == after[0];
  }

  lemma LexInteger(i: int, after: seq<Byte>, bad: bool)
    requires INT_MIN <= i <= INT_MAX && Delimits(after)
    ensures Lex(IntegerText(i) + after, bad) == (IntegerTok(i), after)
  {
    IntegerTextParts(i, after);
    LexIntegerNumber(i, after);
    hide IntegerText;
    hide LexNumber;
    var s := IntegerText(i) + after;
    assert SkipSpace(s) == s;
  }

  lemma {:induction false} AlphaRunOf(word: seq<Byte>, after: seq<Byte>)
    requires (forall b <- word :: IsAlpha(b)) && (after == [] || !IsAlpha(after[0]))
    ensures AlphaRun(word + after) == |word|
    decreases |word|
  {
    if word == [] {
      assert word + after == after;
    } else {
      assert (word + after)[1..] == word[1..] + after;
      AlphaRunOf(word[1..], after);
    }
  }

  lemma LexWord(word: seq<Byte>, after: seq<Byte>, bad: bool)
    requires word != [] && (forall b <- word :: IsAlpha(b)) && Delimits(after)
    ensures Lex(word + after, bad) == (WordToken(word), after)
  {
    AlphaRunOf(word, after);
    hide AlphaRun;
    assert (word + after)[..|word|] == word && (word + after)[|word|..] == after;
  }

  // ------------------------------------------------------------------ values

  /** `text` followed by `after` is read as `v`, leaving `after`. */
  ghost predicate Reads(text: seq<Byte>, v: Json, after: seq<Byte>, bad: bool, lf: LoadFlags) {
    var (tok, rest) := Lex(text + after, bad);
    !IsEnd(tok) && tok != CLOSE_ARRAY && ParseValue(tok, rest, bad, lf) == Some((v, after))
  }

  ghost predicate ReadsElems(text: seq<Byte>, done: seq<Json>, vs: seq<Json>, after: seq<Byte>, bad: bool, lf: LoadFlags) {
    var (tok, rest) := Lex(text, bad);
    !IsEnd(tok) && tok != CLOSE_ARRAY && ParseElems(done, tok, rest, bad, lf) == Some((Array(done + vs), after))
  }

  ghost predicate ReadsMembers(text: seq<Byte>, done: seq<Member>, ms: seq<Member>, after: seq<Byte>, bad: bool, lf: LoadFlags) {
    var (tok, rest) := Lex(text, bad);
    tok.StringTok? && ParseMembers(done, |done|, tok, rest, bad, lf) == Some((Object(done + ms), after))
  }

  lemma ArrayUnfolds(s: seq<Byte>, bad: bool, lf: LoadFlags)
    ensures ParseValue(OPEN_ARRAY, s, bad, lf) ==
            var (tok, rest) := Lex(s, bad);
            if tok == CLOSE_ARRAY then Some((Array([]), rest))
            else if IsEnd(tok) then None
            else ParseElems([], tok, rest, bad, lf)
  {
    hide Lex;
    hide ParseElems;
  }

  lemma ObjectUnfolds(s: seq<Byte>, bad: bool, lf: LoadFlags)
    ensures ParseValue(OPEN_OBJECT, s, bad, lf) ==
            var (tok, rest) := Lex(s, bad);
            if tok == CLOSE_OBJECT then Some((Object([]), rest))
            else if IsEnd(tok) then None
            else ParseMembers([], 0, tok, rest, bad, lf)
  {
    hide Lex;
    hide ParseMembers;
  }

  lemma MembersUnfold(done: seq<Member>, serial: nat, key: seq<Byte>, s: seq<Byte>, bad: bool, lf: LoadFlags,
                      v: Json, tail: seq<Byte>)
    requires FindKey(done, key).None?
    requires var (colon, rest) := Lex(s, bad);
             var (first, rest') := Lex(rest, bad);
             colon == COLON && !IsEnd(first) && ParseValue(first, rest', bad, lf) == Some((v, tail))
    ensures ParseMembers(done, serial, StringTok(key), s, bad, lf) ==
            var done' := SetMember(done, key, serial, v);
            var (next, after) := Lex(tail, bad);
            if next == COMMA then
              var (tok', after') := Lex(after, bad);
              if IsEnd(tok') then None else ParseMembers(done', serial + 1, tok', after', bad, lf)
            else if next == CLOSE_OBJECT then Some((Object(done'), after))
            else None
  {
    hide Lex;
    hide FindKey;
    hide SetMember;
    hide ParseValue;
  }

  lemma WordReads(w: Json, f: DumpFlags, depth: nat, after: seq<Byte>, bad: bool, lf: LoadFlags)
    requires (w.Null? || w.True? || w.False?) && Delimits(after)
    ensures Reads(Text(w, f, depth), w, after, bad, lf)
  {
    LexWord(Text(w, f, depth), after, bad);
  }

  lemma StringReads(s: seq<Byte>, f: DumpFlags, after: seq<Byte>, bad: bool, lf: LoadFlags)
    requires ValidText(s)
    ensures Reads(StringLiteral(s, f), String(s), after, bad, lf)
  {
    LexLiteral(s, f, after, bad);
    hide Lex;
    hide StringLiteral;
  }

  lemma IntegerReads(i: int, after: seq<Byte>, bad: bool, lf: LoadFlags)
    requires INT_MIN <= i <= INT_MAX && Delimits(after)
    ensures Reads(IntegerText(i), Integer(i), after, bad, lf)
  {
    LexInteger(i, after, bad);
    hide Lex;
    hide IntegerText;
  }

  lemma LastElemReads(v: Json, text: seq<Byte>, f: DumpFlags, depth: nat, done: seq<Json>, after: seq<Byte>,
                      bad: bool, lf: LoadFlags)
    requires Reads(text, v, Indent(f, depth, false) + ([0x5D] + after), bad, lf)
    ensures ReadsElems(text + (Indent(f, depth, false) + ([0x5D] + after)), done, [v], after, bad, lf)
  {
    hide Lex;
    hide Indent;
    LexIndentPunct(f, depth, false, 0x5D, after, bad);
  }

  lemma NextElemReads(v: Json, text: seq<Byte>, f: DumpFlags, depth: nat, done: seq<Json>, more: seq<Byte>,
                      vs: seq<Json>, after: seq<Byte>, bad: bool, lf: LoadFlags)
    requires Reads(text, v, [0x2C] + (Indent(f, depth + 1, true) + more), bad, lf)
    requires ReadsElems(more, done + [v], vs, after, bad, lf)
    ensures ReadsElems(text + ([0x2C] + (Indent(f, depth + 1, true) + more)), done, [v] + vs, after, bad, lf)
  {
    hide Lex;
    hide Indent;
    LexPunct(0x2C, Indent(f, depth + 1, true) + more, bad);
    IndentIsSpace(f, depth + 1, true);
    LexSkips(Indent(f, depth + 1, true), more, bad);
    assert done + [v] + vs == done + ([v] + vs);
  }

  lemma {:induction false} ElemsRead(elems: seq<Json>, f: DumpFlags, depth: nat, done: seq<Json>, after: seq<Byte>,
                                     bad: bool, lf: LoadFlags)
    requires elems != [] && forall e <- elems :: Readable(e)
    ensures ReadsElems(ElemsText(elems, f, depth) + ([0x5D] + after), done, RenumberElems(elems), after, bad, lf)
    decreases elems, 0
  {
    hide Reads;
    hide ReadsElems;
    hide Text;
    hide Renumber;
    hide Indent;
    var v, text := Renumber(elems[0]), Text(elems[0], f, depth + 1);
    var close := [0x5D] + after;
    if |elems| == 1 {
      var tail := Indent(f, depth, false) + close;
      LexIndentPunct(f, depth, false, 0x5D, after, bad);
      ValueReads(elems[0], f, depth + 1, tail, bad, lf);
      LastElemReads(v, text, f, depth, done, after, bad, lf);
      assert ElemsText(elems, f, depth) + close == text + tail;
      assert RenumberElems(elems) == [v];
    } else {
      var more := ElemsText(elems[1..], f, depth) + close;
      var tail := [0x2C] + (Indent(f, depth + 1, true) + more);
      ValueReads(elems[0], f, depth + 1, tail, bad, lf);
      ElemsRead(elems[1..], f, depth, done + [v], after, bad, lf);
      NextElemReads(v, text, f, depth, done, more, RenumberElems(elems[1..]), after, bad, lf);
      assert ElemsText(elems, f, depth) + close == text + tail;
    }
  }

  lemma ArrayText(elems: seq<Json>, f: DumpFlags, depth: nat, after: seq<Byte>)
    requires elems != []
    ensures Text(Array(elems), f, depth) + after ==
            [0x5B] + (Indent(f, depth + 1, false) + (ElemsText(elems, f, depth) + ([0x5D] + after)))
  {
    hide Indent;
    hide ElemsText;
  }

  lemma ObjectText(ms: seq<Member>, f: DumpFlags, depth: nat, after: seq<Byte>)
    requires ms != []
    ensures Text(Object(ms), f, depth) + after ==
            [0x7B] + (Indent(f, depth + 1, false) + (MembersText(ms, f, depth) + ([0x7D] + after)))
  {
    hide Indent;
    hide MembersText;
  }

  lemma ArrayReads(elems: seq<Json>, f: DumpFlags, depth: nat, after: seq<Byte>, bad: bool, lf: LoadFlags)
    requires elems != []
    requires ReadsElems(ElemsText(elems, f, depth) + ([0x5D] + after), [], RenumberElems(elems), after, bad, lf)
    ensures Reads(Text(Array(elems), f, depth), Array(RenumberElems(elems)), after, bad, lf)
  {
    var more := ElemsText(elems, f, depth) + ([0x5D] + after);
    var body := Indent(f, depth + 1, false) + more;
    hide Text;
    hide ElemsText;
    hide RenumberElems;
    ArrayText(elems, f, depth, after);
    LexPunct(0x5B, body, bad);
    IndentIsSpace(f, depth + 1, false);
    LexSkips(Indent(f, depth + 1, false), more, bad);
    ArrayUnfolds(body, bad, lf);
    hide Lex;
    hide Indent;
    hide ParseValue;
    hide ParseElems;
    assert [] + RenumberElems(elems) == RenumberElems(elems);
  }

  lemma EmptyArrayReads(f: DumpFlags, depth: nat, after: seq<Byte>, bad: bool, lf: LoadFlags)
    ensures Reads(Text(Array([]), f, depth), Array([]), after, bad, lf)
  {
    assert Text(Array([]), f, depth) + after == [0x5B] + ([0x5D] + after);
    hide Text;
    LexPunct(0x5B, [0x5D] + after, bad);
    LexPunct(0x5D, after, bad);
    ArrayUnfolds([0x5D] + after, bad, lf);
    hide Lex;
    hide ParseValue;
  }

  // ------------------------------------------------------------------ objects

  ghost predicate FreshKeys(ms: seq<Member>, done: seq<Member>) {
    forall i, j :: 0 <= i < |ms| && 0 <= j < |done| ==> ms[i].key != done[j].key
  }

  lemma LexSeparator(f: DumpFlags, t: seq<Byte>, bad: bool)
    ensures var (colon, rest) := Lex(Separator(f) + t, bad); colon == COLON && Lex(rest, bad) == Lex(t, bad)
  {
    var space: seq<Byte> := if f.compact then [] else [0x20];
    assert Separator(f) + t == [0x3A] + (space + t);
    hide Separator;
    LexPunct(0x3A, space + t, bad);
    LexSkips(space, t, bad);
    hide Lex;
  }

  lemma KeysStayFresh(ms: seq<Member>, done: seq<Member>, m: Member)
    requires ms != [] && DistinctKeys(ms) && FreshKeys(ms, done) && m.key == ms[0].key
    ensures DistinctKeys(ms[1..]) && FreshKeys(ms[1..], done + [m])
    ensures forall x <- done :: x.key != m.key
  {
  }

  lemma NotFound(done: seq<Member>, key: seq<Byte>)
    requires forall m <- done :: m.key != key
    ensures FindKey(done, key).None?
  {
    hide FindKey;
    assert forall i :: 0 <= i < |done| ==> done[i] in done;
  }

  /** Reading `"key": value` up to the next comma or brace. */
  lemma PairReads(key: seq<Byte>, v: Json, text: seq<Byte>, f: DumpFlags, done: seq<Member>, tail: seq<Byte>,
                  bad: bool, lf: LoadFlags)
    requires ValidText(key) && Reads(text, v, tail, bad, lf) && forall m <- done :: m.key != key
    ensures var (tok, rest) := Lex(StringLiteral(key, f) + (Separator(f) + (text + tail)), bad);
            && tok == StringTok(key)
            && ParseMembers(done, |done|, tok, rest, bad, lf) ==
               var done' := done + [Member(key, |done|, v)];
               var (next, after) := Lex(tail, bad);
               if next == COMMA then
                 var (tok', after') := Lex(after, bad);
                 if IsEnd(tok') then None else ParseMembers(done', |done| + 1, tok', after', bad, lf)
               else if next == CLOSE_OBJECT then Some((Object(done'), after))
               else None
  {
    hide ParseMembers;
    hide ParseValue;
    hide StringLiteral;
    hide Separator;
    hide Lex;
    hide FindKey;
    hide ValidText;
    NotFound(done, key);
    LexLiteral(key, f, Separator(f) + (text + tail), bad);
    LexSeparator(f, text + tail, bad);
    MembersUnfold(done, |done|, key, Separator(f) + (text + tail), bad, lf, v, tail);
  }

  lemma LastMemberReads(key: seq<Byte>, v: Json, text: seq<Byte>, f: DumpFlags, depth: nat, done: seq<Member>,
                        after: seq<Byte>, bad: bool, lf: LoadFlags)
    requires ValidText(key) && forall m <- done :: m.key != key
    requires Reads(text, v, Indent(f, depth, false) + ([0x7D] + after), bad, lf)
    ensures ReadsMembers(StringLiteral(key, f) + (Separator(f) + (text + (Indent(f, depth, false) + ([0x7D] + after)))),
                         done, [Member(key, |done|, v)], after, bad, lf)
  {
    hide Lex;
    hide Indent;
    hide StringLiteral;
    hide Separator;
    hide ParseMembers;
    hide ParseValue;
    hide ValidText;
    PairReads(key, v, text, f, done, Indent(f, depth, false) + ([0x7D] + after), bad, lf);
    LexIndentPunct(f, depth, false, 0x7D, after, bad);
  }

  lemma NextMemberReads(key: seq<Byte>, v: Json, text: seq<Byte>, f: DumpFlags, depth: nat, done: seq<Member>,
                        more: seq<Byte>, ms: seq<Member>, after: seq<Byte>, bad: bool, lf: LoadFlags)
    requires ValidText(key) && forall m <- done :: m.key != key
    requires Reads(text, v, [0x2C] + (Indent(f, depth + 1, true) + more), bad, lf)
    requires ReadsMembers(more, done + [Member(key, |done|, v)], ms, after, bad, lf)
    ensures ReadsMembers(StringLiteral(key, f) + (Separator(f) + (text + ([0x2C] + (Indent(f, depth + 1, true) + more)))),
                         done, [Member(key, |done|, v)] + ms, after, bad, lf)
  {
    hide Lex;
    hide Indent;
    hide StringLiteral;
    hide Separator;
    hide ParseMembers;
    hide ParseValue;
    hide ValidText;
    PairReads(key, v, text, f, done, [0x2C] + (Indent(f, depth + 1, true) + more), bad, lf);
    LexPunct(0x2C, Indent(f, depth + 1, true) + more, bad);
    IndentIsSpace(f, depth + 1, true);
    LexSkips(Indent(f, depth + 1, true), more, bad);
    assert done + [Member(key, |done|, v)] + ms == done + ([Member(key, |done|, v)] + ms);
  }

  lemma Regroup<T>(a: seq<T>, b: seq<T>, c: seq<T>, d: seq<T>, e: seq<T>)
    ensures a + b + c + d + e == a + (b + (c + (d + e)))
  {
  }

  lemma MembersTextSplits(ms: seq<Member>, f: DumpFlags, depth: nat, close: seq<Byte>)
    requires ms != []
    ensures var tail := if |ms| == 1 then Indent(f, depth, false) + close
                        else [0x2C] + (Indent(f, depth + 1, true) + (MembersText(ms[1..], f, depth) + close));
            MembersText(ms, f, depth) + close ==
            StringLiteral(ms[0].key, f) + (Separator(f) + (Text(ms[0].value, f, depth + 1) + tail))
  {
    hide Text;
    hide Indent;
    hide StringLiteral;
    hide Separator;
    hide MembersText;
    var key, text := StringLiteral(ms[0].key, f), Text(ms[0].value, f, depth + 1);
    MembersTextUnfolds(ms, f, depth);
    if |ms| == 1 {
      Regroup(key, Separator(f), text, Indent(f, depth, false), close);
    } else {
      var more := MembersText(ms[1..], f, depth);
      Regroup(key, Separator(f), text, [0x2C] + Indent(f, depth + 1, true) + more, close);
      Comma([0x2C], Indent(f, depth + 1, true), more, close);
    }
  }

  lemma MembersTextUnfolds(ms: seq<Member>, f: DumpFlags, depth: nat)
    requires ms != []
    ensures MembersText(ms, f, depth) ==
            StringLiteral(ms[0].key, f) + Separator(f) + Text(ms[0].value, f, depth + 1) +
            if |ms| == 1 then Indent(f, depth, false)
            else [0x2C] + Indent(f, depth + 1, true) + MembersText(ms[1..], f, depth)
  {
  }

  lemma Comma<T>(a: seq<T>, b: seq<T>, c: seq<T>, d: seq<T>)
    ensures a + b + c + d == a + (b + (c + d))
  {
  }

  lemma {:induction false} MembersRead(ms: seq<Member>, f: DumpFlags, depth: nat, done: seq<Member>, after: seq<Byte>,
                                       bad: bool, lf: LoadFlags)
    requires ms != [] && DistinctKeys(ms) && FreshKeys(ms, done)
    requires forall m <- ms :: ValidText(m.key) && Readable(m.value)
    ensures ReadsMembers(MembersText(ms, f, depth) + ([0x7D] + after), done, RenumberMembers(ms, |done|), after, bad, lf)
    decreases ms, 0
  {
    hide Reads;
    hide ReadsMembers;
    hide Text;
    hide Renumber;
    hide Indent;
    hide StringLiteral;
    hide Separator;
    hide ValidText;
    hide Readable;
    hide MembersText;
    var key, v, text := ms[0].key, Renumber(ms[0].value), Text(ms[0].value, f, depth + 1);
    var member := Member(key, |done|, v);
    KeysStayFresh(ms, done, member);
    hide DistinctKeys;
    hide FreshKeys;
    var close := [0x7D] + after;
    MembersTextSplits(ms, f, depth, close);
    assert RenumberMembers(ms, |done|) == [member] + RenumberMembers(ms[1..], |done| + 1);
    hide RenumberMembers;
    if |ms| == 1 {
      LexIndentPunct(f, depth, false, 0x7D, after, bad);
      ValueReads(ms[0].value, f, depth + 1, Indent(f, depth, false) + close, bad, lf);
      LastMemberReads(key, v, text, f, depth, done, after, bad, lf);
      NoneRenumbered(|done| + 1);
      assert ms[1..] == [];
      assert RenumberMembers(ms, |done|) == [member];
    } else {
      var more := MembersText(ms[1..], f, depth) + close;
      ValueReads(ms[0].value, f, depth + 1, [0x2C] + (Indent(f, depth + 1, true) + more), bad, lf);
      assert forall m <- ms[1..] :: m in ms;
      MembersRead(ms[1..], f, depth, done + [member], after, bad, lf);
      NextMemberReads(key, v, text, f, depth, done, more, RenumberMembers(ms[1..], |done| + 1), after, bad, lf);
    }
  }

  lemma NoneRenumbered(n: nat)
    ensures RenumberMembers([], n) == []
  {
  }

  lemma ObjectReads(ms: seq<Member>, f: DumpFlags, depth: nat, after: seq<Byte>, bad: bool, lf: LoadFlags)
    requires ms != []
    requires ReadsMembers(MembersText(ms, f, depth) + ([0x7D] + after), [], RenumberMembers(ms, 0), after, bad, lf)
    ensures Reads(Text(Object(ms), f, depth), Object(RenumberMembers(ms, 0)), after, bad, lf)
  {
    var more := MembersText(ms, f, depth) + ([0x7D] + after);
    var body := Indent(f, depth + 1, false) + more;
    hide Text;
    hide MembersText;
    hide RenumberMembers;
    ObjectText(ms, f, depth, after);
    LexPunct(0x7B, body, bad);
    IndentIsSpace(f, depth + 1, false);
    LexSkips(Indent(f, depth + 1, false), more, bad);
    ObjectUnfolds(body, bad, lf);
    hide Lex;
    hide Indent;
    hide ParseValue;
    hide ParseMembers;
    assert [] + RenumberMembers(ms, 0) == RenumberMembers(ms, 0);
  }

  lemma EmptyObjectReads(f: DumpFlags, depth: nat, after: seq<Byte>, bad: bool, lf: LoadFlags)
    ensures Reads(Text(Object([]), f, depth), Object([]), after, bad, lf)
  {
    assert Text(Object([]), f, depth) + after == [0x7B] + ([0x7D] + after);
    hide Text;
    LexPunct(0x7B, [0x7D] + after, bad);
    LexPunct(0x7D, after, bad);
    ObjectUnfolds([0x7D] + after, bad, lf);
    hide Lex;
    hide ParseValue;
  }

  /** Every readable value is read back from its text, in any context that delimits it. */
  lemma {:induction false} ValueReads(w: Json, f: DumpFlags, depth: nat, after: seq<Byte>, bad: bool, lf: LoadFlags)
    requires Readable(w) && Delimits(after)
    ensures Reads(Text(w, f, depth), Renumber(w), after, bad, lf)
    decreases w, 1
  {
    hide Reads;
    hide ValidText;
    match w
    case Integer(i) => IntegerReads(i, after, bad, lf);
    case Real(_) =>
    case String(s) => StringReads(s, f, after, bad, lf);
    case Array(elems) =>
      if elems == [] {
        EmptyArrayReads(f, depth, after, bad, lf);
      } else {
        ElemsRead(elems, f, depth, [], after, bad, lf);
        ArrayReads(elems, f, depth, after, bad, lf);
      }
    case Object(ms) =>
      if ms == [] {
        EmptyObjectReads(f, depth, after, bad, lf);
      } else {
        MembersRead(ms, f, depth, [], after, bad, lf);
        ObjectReads(ms, f, depth, after, bad, lf);
      }
    case _ => WordReads(w, f, depth, after, bad, lf);
  }

  // ------------------------------------------------------------------ ordering keeps the value

  lemma ConsKeepsDistinct(m: Member, ms: seq<Member>)
    requires DistinctKeys(ms) && DistinctSerials(ms)
    requires forall x <- ms :: x.key != m.key && x.serial != m.serial
    ensures DistinctKeys([m] + ms) && DistinctSerials([m] + ms)
  {
  }

  lemma {:induction false} InsertKeepsDistinct(m: Member, ms: seq<Member>, f: DumpFlags)
    requires DistinctKeys(ms) && DistinctSerials(ms)
    requires forall x <- ms :: x.key != m.key && x.serial != m.serial
    ensures DistinctKeys(InsertOrdered(m, ms, f)) && DistinctSerials(InsertOrdered(m, ms, f))
    decreases |ms|
  {
    if ms != [] && !Before(m, ms[0], f) {
      hide Before;
      InsertKeepsDistinct(m, ms[1..], f);
      var tail := InsertOrdered(m, ms[1..], f);
      forall x <- tail ensures x.key != ms[0].key && x.serial != ms[0].serial {
        assert x in multiset(tail);
        assert x == m || x in ms[1..];
      }
      ConsKeepsDistinct(ms[0], tail);
    } else {
      ConsKeepsDistinct(m, ms);
    }
  }

  lemma {:induction false} OrderedKeepsDistinct(ms: seq<Member>, f: DumpFlags)
    requires DistinctKeys(ms) && DistinctSerials(ms)
    ensures DistinctKeys(Ordered(ms, f)) && DistinctSerials(Ordered(ms, f))
    decreases |ms|
  {
    if (!f.sortKeys && !f.preserveOrder) || ms == [] {
    } else {
      OrderedKeepsDistinct(ms[1..], f);
      var tail := Ordered(ms[1..], f);
      forall x <- tail ensures x.key != ms[0].key && x.serial != ms[0].serial {
        assert x in multiset(tail);
        assert x in ms[1..];
      }
      InsertKeepsDistinct(ms[0], tail, f);
    }
  }

  /** strcmp: at the first difference the smaller byte comes first, and a prefix comes before what continues it. */
  lemma {:induction false} StrLessMeans(a: seq<Byte>, b: seq<Byte>)
    ensures StrLess(a, b) <==>
            exists k :: 0 <= k <= |a| && k < |b| && a[..k] == b[..k] && (k == |a| || a[k] < b[k])
    decreases |a|
  {
    if a == [] || b == [] {
      assert a[..0] == [] == b[..0];
    } else {
      StrLessMeans(a[1..], b[1..]);
      if StrLess(a, b) {
        if a[0] < b[0] {
          assert a[..0] == b[..0];
        } else {
          var k :| 0 <= k <= |a[1..]| && k < |b[1..]| && a[1..][..k] == b[1..][..k] && (k == |a[1..]| || a[1..][k] < b[1..][k]);
          assert a[..k + 1] == [a[0]] + a[1..][..k] && b[..k + 1] == [b[0]] + b[1..][..k];
        }
      }
      if k :| 0 <= k <= |a| && k < |b| && a[..k] == b[..k] && (k == |a| || a[k] < b[k]) {
        if k > 0 {
          assert a[..k][0] == b[..k][0];
          assert a[1..][..k - 1] == a[..k][1..] && b[1..][..k - 1] == b[..k][1..];
        }
      }
    }
  }

  lemma {:induction false} StrLessTransitive(a: seq<Byte>, b: seq<Byte>, c: seq<Byte>)
    requires StrLess(a, b) && StrLess(b, c)
    ensures StrLess(a, c)
    decreases |a|
  {
    if a == [] || !(a[0] == b[0] == c[0]) {
    } else {
      StrLessTransitive(a[1..], b[1..], c[1..]);
    }
  }

  lemma {:induction false} StrLessTotal(a: seq<Byte>, b: seq<Byte>)
    requires a != b && !StrLess(a, b)
    ensures StrLess(b, a)
    decreases |a|
  {
    if a == [] || b == [] || a[0] != b[0] {
    } else {
      assert a == [a[0]] + a[1..] && b == [b[0]] + b[1..];
      StrLessTotal(a[1..], b[1..]);
    }
  }

  ghost predicate Sorted(ms: seq<Member>, f: DumpFlags) {
    forall i, j :: 0 <= i < j < |ms| ==>
      if f.sortKeys then StrLess(ms[i].key, ms[j].key) else ms[i].serial < ms[j].serial
  }

  ghost predicate InOrder(ms: seq<Member>, f: DumpFlags) {
    forall i, j :: 0 <= i < j < |ms| ==> Before(ms[i], ms[j], f)
  }

  lemma BeforeTransitive(a: Member, b: Member, c: Member, f: DumpFlags)
    requires Before(a, b, f) && Before(b, c, f)
    ensures Before(a, c, f)
  {
    if f.sortKeys {
      StrLessTransitive(a.key, b.key, c.key);
    }
  }

  lemma {:induction false} InsertSorts(m: Member, ms: seq<Member>, f: DumpFlags)
    requires InOrder(ms, f) && forall x <- ms :: x.key != m.key && x.serial != m.serial
    ensures InOrder(InsertOrdered(m, ms, f), f)
    decreases |ms|
  {
    hide StrLess;
    if ms == [] {
    } else if Before(m, ms[0], f) {
      forall x <- ms ensures Before(m, x, f) {
        if x != ms[0] {
          BeforeTransitive(m, ms[0], x, f);
        }
      }
    } else {
      if f.sortKeys {
        StrLessTotal(m.key, ms[0].key);
      }
      InsertSorts(m, ms[1..], f);
      var tail := InsertOrdered(m, ms[1..], f);
      forall x <- tail ensures Before(ms[0], x, f) {
        assert x in multiset(tail);
        if x != m {
          assert x in ms[1..];
        }
      }
    }
  }

  lemma {:induction false} OrderedIsInOrder(ms: seq<Member>, f: DumpFlags)
    requires (f.sortKeys || f.preserveOrder) && DistinctKeys(ms) && DistinctSerials(ms)
    ensures InOrder(Ordered(ms, f), f)
    decreases |ms|
  {
    if ms == [] {
    } else {
      OrderedIsInOrder(ms[1..], f);
      var tail := Ordered(ms[1..], f);
      forall x <- tail ensures x.key != ms[0].key && x.serial != ms[0].serial {
        assert x in multiset(tail);
        assert x in ms[1..];
      }
      InsertSorts(ms[0], tail, f);
    }
  }

  /** SORT_KEYS writes the members by key, PRESERVE_ORDER alone by the order of insertion. */
  lemma OrderedSorts(ms: seq<Member>, f: DumpFlags)
    requires (f.sortKeys || f.preserveOrder) && DistinctKeys(ms) && DistinctSerials(ms)
    ensures Sorted(Ordered(ms, f), f)
  {
    hide Ordered; hide StrLess;
    OrderedIsInOrder(ms, f);
    var r := Ordered(ms, f);
    assert forall i, j :: 0 <= i < j < |r| ==> Before(r[i], r[j], f);
  }

  /** Without the two flags the members keep the order of the hash table. */
  lemma UnsortedStays(ms: seq<Member>, f: DumpFlags)
    requires !f.sortKeys && !f.preserveOrder
    ensures Ordered(ms, f) == ms
  {
  }

  lemma {:induction false} RenumberElemsAt(elems: seq<Json>)
    ensures |RenumberElems(elems)| == |elems|
    ensures forall i :: 0 <= i < |elems| ==> RenumberElems(elems)[i] == Renumber(elems[i])
    decreases |elems|
  {
    hide Renumber;
    if elems == [] {
    } else {
      RenumberElemsAt(elems[1..]);
    }
  }

  lemma {:induction false} RenumberMembersAt(ms: seq<Member>, k: nat)
    ensures |RenumberMembers(ms, k)| == |ms|
    ensures forall i :: 0 <= i < |ms| ==>
              RenumberMembers(ms, k)[i] == Member(ms[i].key, k + i, Renumber(ms[i].value))
    decreases |ms|
  {
    hide Renumber;
    if ms == [] {
    } else {
      RenumberMembersAt(ms[1..], k + 1);
    }
  }

  lemma ArrangedDistinct(ms: seq<Member>, f: DumpFlags)
    requires DistinctKeys(ms) && DistinctSerials(ms)
    ensures DistinctKeys(ArrangeMembers(ms, f)) && DistinctSerials(ArrangeMembers(ms, f))
  {
    hide ArrangeMembers;
    var am := ArrangeMembers(ms, f);
    forall i | 0 <= i < |ms| ensures am[i].key == ms[i].key && am[i].serial == ms[i].serial {
      ArrangeMembersAt(ms, f);
    }
  }

  lemma {:induction false} ArrangedElemsReadable(elems: seq<Json>, f: DumpFlags)
    requires forall e <- elems :: Proper(e)
    ensures forall e <- ArrangeElems(elems, f) :: Readable(e)
    decreases elems, 0
  {
    hide Proper;
    hide Readable;
    hide Arrange;
    if elems == [] {
    } else {
      ArrangedIsReadable(elems[0], f);
      assert forall e <- elems[1..] :: e in elems;
      ArrangedElemsReadable(elems[1..], f);
    }
  }

  lemma {:induction false} ArrangedMembersReadable(ms: seq<Member>, f: DumpFlags)
    requires forall m <- ms :: ValidText(m.key) && Proper(m.value)
    ensures forall m <- ArrangeMembers(ms, f) :: ValidText(m.key) && Readable(m.value)
    decreases ms, 0
  {
    hide ValidText;
    hide Proper;
    hide Readable;
    hide Arrange;
    if ms == [] {
    } else {
      ArrangedIsReadable(ms[0].value, f);
      assert forall m <- ms[1..] :: m in ms;
      ArrangedMembersReadable(ms[1..], f);
    }
  }

  lemma {:induction false} ArrangedIsReadable(v: Json, f: DumpFlags)
    requires Proper(v)
    ensures Readable(Arrange(v, f))
    decreases v, 1
  {
    hide ValidText;
    hide ArrangeElems;
    hide ArrangeMembers;
    hide Ordered;
    match v
    case Array(elems) => ArrangedElemsReadable(elems, f);
    case Object(ms) =>
      var am := ArrangeMembers(ms, f);
      var om := Ordered(am, f);
      ArrangedDistinct(ms, f);
      OrderedKeepsDistinct(am, f);
      ArrangedMembersReadable(ms, f);
      forall m <- om ensures m in am {
        assert m in multiset(om);
      }
    case _ =>
  }

  lemma FindKeyUnique(ms: seq<Member>, j: nat)
    requires j < |ms| && DistinctKeys(ms)
    ensures FindKey(ms, ms[j].key) == Some(j)
  {
    var r := FindKey(ms, ms[j].key);
    assert ms[j] in ms;
  }

  lemma {:induction false} RenumberedEqual(v: Json, f: DumpFlags)
    requires Proper(v)
    ensures Equal(v, Renumber(Arrange(v, f)))
    decreases v
  {
    hide ArrangeElems; hide RenumberElems; hide ArrangeMembers; hide Ordered; hide RenumberMembers; hide FindKey;
    hide ValidText; hide DistinctKeys; hide DistinctSerials;
    match v
    case Array(elems) =>
      var r := ArrangeElems(elems, f);
      RenumberElemsAt(r);
      ArrangeElemsAt(elems, f);
      forall i | 0 <= i < |elems| ensures Equal(elems[i], RenumberElems(r)[i]) {
        assert elems[i] in elems;
        RenumberedEqual(elems[i], f);
      }
    case Object(ms) =>
      var om := Ordered(ArrangeMembers(ms, f), f);
      forall i | 0 <= i < |ms|
        ensures FindKey(RenumberMembers(om, 0), ms[i].key).Some?
        ensures Equal(ms[i].value, RenumberMembers(om, 0)[FindKey(RenumberMembers(om, 0), ms[i].key).value].value)
      {
        assert ms[i] in ms;
        MemberFound(ms, f, i);
        RenumberedEqual(ms[i].value, f);
      }
      RenumberMembersAt(om, 0);
      SameLength(om, ArrangeMembers(ms, f));
    case _ =>
  }

  lemma MemberFound(ms: seq<Member>, f: DumpFlags, i: nat)
    requires DistinctKeys(ms) && DistinctSerials(ms) && i < |ms|
    ensures var rm := RenumberMembers(Ordered(ArrangeMembers(ms, f), f), 0);
            var found := FindKey(rm, ms[i].key);
            found.Some? && rm[found.value].value == Renumber(Arrange(ms[i].value, f))
  {
    hide Arrange;
    hide ArrangeMembers;
    hide Ordered;
    hide Renumber;
    hide RenumberMembers;
    hide FindKey;
    var am := ArrangeMembers(ms, f);
    var om := Ordered(am, f);
    ArrangeMembersAt(ms, f);
    ArrangedDistinct(ms, f);
    OrderedKeepsDistinct(am, f);
    var j := IndexInOther(am, om, i);
    RenumberMembersAt(om, 0);
    FindKeyUnique(RenumberMembers(om, 0), j);
  }

  /** The law: for every proper value and every choice of dump and load flags, parsing the dumped text succeeds and
      gives an equal value, JSON_REJECT_DUPLICATES included. */
  lemma RoundTrip(v: Json, f: DumpFlags, lf: LoadFlags)
    requires Proper(v) && (lf.decodeAny || v.Array? || v.Object?)
    ensures Parse(Dump(v, f), false, lf) == Some(Renumber(Arrange(v, f)))
    ensures Equal(v, Renumber(Arrange(v, f)))
  {
    var w := Arrange(v, f);
    var text := Text(w, f, 0);
    ArrangedIsReadable(v, f);
    RenumberedEqual(v, f);
    hide Text;
    hide Renumber;
    hide ParseValue;
    ValueReads(w, f, 0, [], false, lf);
    assert text + [] == text;
    if w.Array? || w.Object? {
      ContainerStarts(w, f, lf);
    }
    assert Lex([], false) == (Eof, []);
    hide Lex;
  }

  lemma ContainerStarts(w: Json, f: DumpFlags, lf: LoadFlags)
    requires w.Array? || w.Object?
    ensures Lex(Text(w, f, 0), false).0 == if w.Array? then OPEN_ARRAY else OPEN_OBJECT
  {
    var text := Text(w, f, 0);
    assert text[0] == if w.Array? then 0x5B else 0x7B;
    assert text == [text[0]] + text[1..];
    LexPunct(text[0], text[1..], false);
  }

  // ------------------------------------------------------------------ dumped text is UTF-8

  lemma ValidConcat(a: seq<Byte>, b: seq<Byte>)
    requires ValidText(a) && ValidText(b)
    ensures ValidText(a + b)
  {
    EncodeAllDecode(a);
    EncodeAllDecode(b);
    EncodeAllAppend(Decode(a).value, Decode(b).value);
    DecodeEncodeAll(Decode(a).value + Decode(b).value);
  }

  lemma {:induction false} AsciiValid(s: seq<Byte>)
    requires forall i :: 0 <= i < |s| ==> 0 < s[i] < 0x80
    ensures ValidText(s)
    decreases |s|
  {
    if s == [] {
    } else {
      AsciiValid(s[1..]);
    }
  }

  lemma CharTextValid(cp: Scalar, f: DumpFlags)
    requires cp != 0
    ensures ValidText(CharText(cp, f))
  {
    if NeedsEscape(cp, f) {
      AsciiValid(EscapeText(cp));
    } else {
      SingleChar(cp, f);
      DecodeEncodeAll([cp]);
    }
  }

  lemma {:induction false} CharsTextValid(cps: seq<Scalar>, f: DumpFlags)
    requires 0 !in cps
    ensures ValidText(CharsText(cps, f))
    decreases |cps|
  {
    hide CharText;
    if cps == [] {
    } else {
      CharTextValid(cps[0], f);
      CharsTextValid(cps[1..], f);
      ValidConcat(CharText(cps[0], f), CharsText(cps[1..], f));
    }
  }

  lemma {:induction false} GoodCharsNulFree(s: seq<Byte>)
    requires NulFree(s)
    ensures 0 !in GoodChars(s)
    decreases |s|
  {
    hide Next;
    if s == [] || Next(s).None? {
      assert GoodChars(s) == [];
    } else {
      var (cp, n) := Next(s).value;
      NextIsCanonical(s);
      assert s[0] == Encode(cp)[0];
      hide Encode;
      GoodCharsNulFree(s[n..]);
    }
  }

  lemma {:induction false} UpToEscapeIsPart(cps: seq<Scalar>, f: DumpFlags)
    ensures forall c <- UpToEscape(cps, f) :: c in cps
    decreases |cps|
  {
    hide NeedsEscape;
    if cps == [] || NeedsEscape(cps[|cps| - 1], f) {
      assert UpToEscape(cps, f) == cps;
    } else {
      UpToEscapeIsPart(cps[..|cps| - 1], f);
    }
  }

  /** What is written for a C string is NUL-free UTF-8 even if the string is not. */
  lemma LiteralValid(s: seq<Byte>, f: DumpFlags)
    requires NulFree(s)
    ensures ValidText(StringLiteral(s, f))
  {
    hide NeedsEscape; hide CharsText; hide GoodChars; hide UpToEscape;
    AsciiValid([QUOTE]);
    if Decode(s).Some? {
      DecodedNulFree(s);
      CharsTextValid(Decode(s).value, f);
      ValidConcat([QUOTE], CharsText(Decode(s).value, f));
      ValidConcat([QUOTE] + CharsText(Decode(s).value, f), [QUOTE]);
    } else {
      var cps := UpToEscape(GoodChars(s), f);
      GoodCharsNulFree(s);
      UpToEscapeIsPart(GoodChars(s), f);
      CharsTextValid(cps, f);
      ValidConcat([QUOTE], CharsText(cps, f));
    }
  }

  lemma IndentValid(f: DumpFlags, depth: nat, space: bool)
    ensures ValidText(Indent(f, depth, space)) && ValidText([0x2C] + Indent(f, depth, space))
  {
    AsciiValid(Indent(f, depth, space));
    AsciiValid([0x2C] + Indent(f, depth, space));
  }

  lemma {:induction false} ElemsValid(elems: seq<Json>, f: DumpFlags, depth: nat)
    requires elems != [] && forall e <- elems :: Clean(e)
    ensures ValidText(ElemsText(elems, f, depth))
    decreases elems, 0
  {
    hide Text;
    hide ValidText;
    hide Indent;
    var text := Text(elems[0], f, depth + 1);
    TextValid(elems[0], f, depth + 1);
    IndentValid(f, depth, false);
    IndentValid(f, depth + 1, true);
    if |elems| == 1 {
      ValidConcat(text, Indent(f, depth, false));
    } else {
      ElemsValid(elems[1..], f, depth);
      var more := ElemsText(elems[1..], f, depth);
      ValidConcat([0x2C] + Indent(f, depth + 1, true), more);
      ValidConcat(text, [0x2C] + Indent(f, depth + 1, true) + more);
    }
  }

  lemma {:induction false} MembersValid(ms: seq<Member>, f: DumpFlags, depth: nat)
    requires ms != [] && forall m <- ms :: NulFree(m.key) && Clean(m.value)
    ensures ValidText(MembersText(ms, f, depth))
    decreases ms, 0
  {
    hide Text;
    hide ValidText;
    hide Indent;
    hide StringLiteral;
    var key, text := StringLiteral(ms[0].key, f), Text(ms[0].value, f, depth + 1);
    LiteralValid(ms[0].key, f);
    TextValid(ms[0].value, f, depth + 1);
    AsciiValid(Separator(f));
    IndentValid(f, depth, false);
    IndentValid(f, depth + 1, true);
    ValidConcat(key, Separator(f));
    ValidConcat(key + Separator(f), text);
    var head := key + Separator(f) + text;
    if |ms| == 1 {
      ValidConcat(head, Indent(f, depth, false));
    } else {
      MembersValid(ms[1..], f, depth);
      var more := MembersText(ms[1..], f, depth);
      ValidConcat([0x2C] + Indent(f, depth + 1, true), more);
      ValidConcat(head, [0x2C] + Indent(f, depth + 1, true) + more);
    }
  }

  lemma BracketsValid(open: Byte, f: DumpFlags, depth: nat, body: seq<Byte>, close: Byte)
    requires ValidText(body) && 0 < open < 0x80 && 0 < close < 0x80
    ensures ValidText([open] + Indent(f, depth, false) + body + [close])
  {
    hide ValidText;
    hide Indent;
    AsciiValid([open]);
    AsciiValid([close]);
    IndentValid(f, depth, false);
    ValidConcat([open], Indent(f, depth, false));
    ValidConcat([open] + Indent(f, depth, false), body);
    ValidConcat([open] + Indent(f, depth, false) + body, [close]);
  }

  lemma IntegerTextAscii(i: int)
    ensures forall k :: 0 <= k < |IntegerText(i)| ==> 0 < IntegerText(i)[k] < 0x80
  {
    var ds := Digits(if i < 0 then -i else i);
    forall k | 0 <= k < |ds| ensures 0x30 <= ds[k] <= 0x39 {
      assert ds[k] in ds;
    }
  }

  /** What is written is NUL-free UTF-8, so it is delivered whole, even if some key is not UTF-8. */
  lemma {:induction false} TextValid(w: Json, f: DumpFlags, depth: nat)
    requires Clean(w)
    ensures ValidText(Text(w, f, depth))
    decreases w, 1
  {
    match w
    case Integer(i) =>
      IntegerTextAscii(i);
      AsciiValid(IntegerText(i));
    case String(s) => LiteralValid(s, f);
    case Array(elems) =>
      if elems == [] {
        AsciiValid([0x5B, 0x5D]);
      } else {
        ElemsValid(elems, f, depth);
        BracketsValid(0x5B, f, depth + 1, ElemsText(elems, f, depth), 0x5D);
      }
    case Object(ms) =>
      if ms == [] {
        AsciiValid([0x7B, 0x7D]);
      } else {
        MembersValid(ms, f, depth);
        BracketsValid(0x7B, f, depth + 1, MembersText(ms, f, depth), 0x7D);
      }
    case _ => AsciiValid(Text(w, f, depth));
  }

  lemma {:induction false} ArrangedElemsClean(elems: seq<Json>, f: DumpFlags)
    requires forall e <- elems :: Clean(e)
    ensures forall e <- ArrangeElems(elems, f) :: Clean(e)
    decreases elems, 0
  {
    hide Clean; hide Arrange;
    if elems == [] {
      assert ArrangeElems(elems, f) == [];
    } else {
      ArrangedIsClean(elems[0], f);
      assert forall e <- elems[1..] :: e in elems;
      ArrangedElemsClean(elems[1..], f);
    }
  }

  lemma {:induction false} ArrangedMembersClean(ms: seq<Member>, f: DumpFlags)
    requires forall m <- ms :: NulFree(m.key) && Clean(m.value)
    ensures forall m <- ArrangeMembers(ms, f) :: NulFree(m.key) && Clean(m.value)
    decreases ms, 0
  {
    hide NulFree; hide Clean; hide Arrange;
    if ms == [] {
      assert ArrangeMembers(ms, f) == [];
    } else {
      ArrangedIsClean(ms[0].value, f);
      assert forall m <- ms[1..] :: m in ms;
      ArrangedMembersClean(ms[1..], f);
    }
  }

  lemma {:induction false} ArrangedIsClean(v: Json, f: DumpFlags)
    requires Clean(v)
    ensures Clean(Arrange(v, f))
    decreases v, 1
  {
    hide NulFree; hide ArrangeElems; hide ArrangeMembers; hide Ordered;
    match v
    case Array(elems) => ArrangedElemsClean(elems, f);
    case Object(ms) =>
      var am := ArrangeMembers(ms, f);
      ArrangedMembersClean(ms, f);
      forall m <- Ordered(am, f) ensures m in am {
        assert m in multiset(Ordered(am, f));
      }
    case _ =>
  }

  lemma {:induction false} ProperIsClean(v: Json)
    requires Proper(v)
    ensures Clean(v)
  {
    hide Decode;
    match v
    case Array(elems) =>
      forall e | e in elems ensures Clean(e) {
        ProperIsClean(e);
      }
    case Object(ms) =>
      forall m | m in ms ensures NulFree(m.key) && Clean(m.value) {
        ProperIsClean(m.value);
      }
    case _ =>
  }

  /** Dumped text is a C string that the stream delivers in full. */
  lemma DumpedIsDelivered(v: Json, f: DumpFlags)
    requires Clean(v)
    ensures NulFree(Dump(v, f)) && GoodLength(Dump(v, f)) == |Dump(v, f)|
  {
    ArrangedIsClean(v, f);
    TextValid(Arrange(v, f), f, 0);
    AllGood(Dump(v, f));
  }

  /** The law as json_loads sees it. */
  lemma LoadsWhatWasDumped(v: Json, f: DumpFlags, lf: LoadFlags)
    requires Proper(v) && (lf.decodeAny || v.Array? || v.Object?)
    ensures NulFree(Dump(v, f)) && GoodLength(Dump(v, f)) == |Dump(v, f)|
    ensures Parse(Dump(v, f)[..GoodLength(Dump(v, f))], GoodLength(Dump(v, f)) < |Dump(v, f)|, lf)
         == Some(Renumber(Arrange(v, f)))
    ensures Equal(v, Renumber(Arrange(v, f)))
  {
    hide *;
    ProperIsClean(v);
    DumpedIsDelivered(v, f);
    RoundTrip(v, f, lf);
    var t := Dump(v, f);
    assert t[..|t|] == t;
  }
}
