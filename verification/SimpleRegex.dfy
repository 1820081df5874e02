/** The simple regular expressions of Google Test: syntax check, backtracking matcher and the RE class. */
module SimpleRegex {
  import opened Bytes

  const SIZE_MAX := 0xFFFF_FFFF_FFFF_FFFF

  // ------------------------------------------------------------------ characters

  predicate IsInSet(ch: char, s: string) {
    ch != '\0' && ch in s
  }

  predicate IsAsciiDigit(ch: char) {
    '0' <= ch <= '9'
  }

  predicate IsAsciiPunct(ch: char) {
    IsInSet(ch, "^-!\"#$%&'()*+,./:;<=>?@[\\]_`{|}~")
  }

  predicate IsRepeat(ch: char) {
    IsInSet(ch, "?*+")
  }

  predicate IsAsciiWhiteSpace(ch: char) {
    IsInSet(ch, " \U{0C}\n\r\t\U{0B}")
  }

  predicate IsAsciiWordChar(ch: char) {
    'a' <= ch <= 'z' || 'A' <= ch <= 'Z' || '0' <= ch <= '9' || ch == '_'
  }

  predicate IsValidEscape(c: char) {
    IsAsciiPunct(c) || IsInSet(c, "dDfnrsStvwW")
  }

  predicate IsUnsupported(c: char) {
    IsInSet(c, "()[]{}|")
  }

  predicate AtomMatchesChar(escaped: bool, p: char, ch: char) {
    if escaped then
      match p
      case 'd' => IsAsciiDigit(ch)
      case 'D' => !IsAsciiDigit(ch)
      case 'f' => ch == '\U{0C}'
      case 'n' => ch == '\n'
      case 'r' => ch == '\r'
      case 's' => IsAsciiWhiteSpace(ch)
      case 'S' => !IsAsciiWhiteSpace(ch)
      case 't' => ch == '\t'
      case 'v' => ch == '\U{0B}'
      case 'w' => IsAsciiWordChar(ch)
      case 'W' => !IsAsciiWordChar(ch)
      case _ => IsAsciiPunct(p) && p == ch
    else
      (p == '.' && ch != '\n') || p == ch
  }

  // ------------------------------------------------------------------ syntax

  datatype Atom = Atom(escaped: bool, c: char)

  datatype Repeat = Once | Optional | Star | Plus

  datatype Piece = Piece(atom: Atom, repeat: Repeat)

  /** Pieces, perhaps anchored at the start (^) and at the end ($). */
  datatype Regex = Regex(head: bool, pieces: seq<Piece>, tail: bool)

  predicate WellFormedAtom(a: Atom) {
    if a.escaped then IsValidEscape(a.c)
    else a.c !in ['\0', '\\', '^', '$'] && !IsRepeat(a.c) && !IsUnsupported(a.c)
  }

  ghost predicate WellFormed(r: Regex) {
    forall p <- r.pieces :: WellFormedAtom(p.atom)
  }

  function AtomText(a: Atom): string {
    if a.escaped then ['\\', a.c] else [a.c]
  }

  function RepeatText(r: Repeat): string {
    match r
    case Once => ""
    case Optional => "?"
    case Star => "*"
    case Plus => "+"
  }

  function RepeatOf(c: char): Repeat {
    if c == '?' then Optional else if c == '*' then Star else Plus
  }

  /** The text of an expression. */
  function PiecesText(pieces: seq<Piece>, tail: bool): string {
    if pieces == [] then (if tail then "$" else "")
    else AtomText(pieces[0].atom) + RepeatText(pieces[0].repeat) + PiecesText(pieces[1..], tail)
  }

  function RegexText(r: Regex): string {
    (if r.head then "^" else "") + PiecesText(r.pieces, r.tail)
  }

  /** The atom at the front of the text and its length, if it is well formed. */
  function FirstAtom(s: string): Option<(Atom, nat)>
    ensures FirstAtom(s).Some? ==> 1 <= FirstAtom(s).value.1 <= |s|
  {
    if s == "" then None
    else if s[0] == '\\' then
      if |s| >= 2 && IsValidEscape(s[1]) then Some((Atom(true, s[1]), 2)) else None
    else if WellFormedAtom(Atom(false, s[0])) then Some((Atom(false, s[0]), 1))
    else None
  }

  /** The pieces and the final anchor that the text stands for. */
  function ParsePieces(s: string): Option<(seq<Piece>, bool)>
    decreases |s|
  {
    if s == "" then Some(([], false))
    else if s == "$" then Some(([], true))
    else
      match FirstAtom(s)
      case None => None
      case Some((atom, n)) =>
        var repeated := n < |s| && IsRepeat(s[n]);
        var rest := ParsePieces(if repeated then s[n + 1..] else s[n..]);
        if rest.None? then None
        else Some(([Piece(atom, if repeated then RepeatOf(s[n]) else Once)] + rest.value.0, rest.value.1))
  }

  function Parse(s: string): Option<Regex> {
    var head := s != "" && s[0] == '^';
    match ParsePieces(if head then s[1..] else s)
    case None => None
    case Some((pieces, tail)) => Some(Regex(head, pieces, tail))
  }

  lemma RepeatChars(c: char)
    ensures IsRepeat(c) <==> c == '?' || c == '*' || c == '+'
    ensures IsRepeat(c) ==> RepeatText(RepeatOf(c)) == [c]
  {
  }

  lemma AtomStart(a: Atom, rest: string)
    requires WellFormedAtom(a)
    ensures FirstAtom(AtomText(a) + rest) == Some((a, |AtomText(a)|))
    ensures AtomText(a)[0] != '$' && AtomText(a)[0] != '^' && !IsRepeat(AtomText(a)[0])
  {
    hide IsValidEscape; hide IsUnsupported;
    RepeatChars('\\');
  }

  lemma FirstAtomText(s: string)
    requires FirstAtom(s).Some?
    ensures var (a, n) := FirstAtom(s).value; WellFormedAtom(a) && AtomText(a) == s[..n]
  {
    hide IsValidEscape;
  }

  lemma PiecesStart(pieces: seq<Piece>, tail: bool)
    requires forall p <- pieces :: WellFormedAtom(p.atom)
    ensures var s := PiecesText(pieces, tail); s != "" ==> s[0] != '^' && !IsRepeat(s[0])
  {
    hide IsRepeat; hide WellFormedAtom;
    RepeatChars('$');
    if pieces != [] {
      AtomStart(pieces[0].atom, RepeatText(pieces[0].repeat) + PiecesText(pieces[1..], tail));
    }
  }

  lemma CutText(s: string, a: string, b: string, rest: string)
    requires s == a + (b + rest) && a != "" && |b| <= 1
    ensures s[0] == a[0]
    ensures b == "" ==> s[|a|..] == rest && (rest != "" ==> s[|a|] == rest[0])
    ensures b != "" ==> s[|a|] == b[0] && s[|a| + 1..] == rest
  {
  }

  lemma ParsePiece(s: string, atom: Atom, n: nat, rest: string, repeated: bool)
    requires FirstAtom(s) == Some((atom, n)) && s[0] != '$'
    requires repeated == (n < |s| && IsRepeat(s[n])) && rest == if repeated then s[n + 1..] else s[n..]
    ensures ParsePieces(s) ==
            if ParsePieces(rest).None? then None
            else
              Some(([Piece(atom, if repeated then RepeatOf(s[n]) else Once)] + ParsePieces(rest).value.0,
                    ParsePieces(rest).value.1))
  {
    hide IsRepeat; hide FirstAtom;
  }

  lemma ParseOfPiece(p: Piece, rest: string)
    requires WellFormedAtom(p.atom) && (rest != "" ==> !IsRepeat(rest[0])) && ParsePieces(rest).Some?
    ensures ParsePieces(AtomText(p.atom) + RepeatText(p.repeat) + rest) ==
            Some(([p] + ParsePieces(rest).value.0, ParsePieces(rest).value.1))
  {
    hide IsRepeat; hide WellFormedAtom; hide FirstAtom; hide ParsePieces; hide AtomText;
    var a, b := AtomText(p.atom), RepeatText(p.repeat);
    var s := a + (b + rest);
    assert s == a + b + rest;
    AtomStart(p.atom, b + rest);
    RepeatChars('?'); RepeatChars('*'); RepeatChars('+');
    CutText(s, a, b, rest);
    ParsePiece(s, p.atom, |a|, rest, p.repeat != Once);
  }

  /** Parsing undoes printing. */
  lemma {:induction false} ParseOfText(pieces: seq<Piece>, tail: bool)
    requires forall p <- pieces :: WellFormedAtom(p.atom)
    ensures ParsePieces(PiecesText(pieces, tail)) == Some((pieces, tail))
    decreases |pieces|
  {
    hide IsRepeat; hide WellFormedAtom; hide AtomText; hide RepeatText;
    if pieces == [] {
    } else {
      hide ParsePieces;
      ParseOfText(pieces[1..], tail);
      PiecesStart(pieces[1..], tail);
      ParseOfPiece(pieces[0], PiecesText(pieces[1..], tail));
      assert pieces == [pieces[0]] + pieces[1..];
    }
  }

  /** The first piece of a text that parses, and the rest. */
  lemma ParseStep(s: string) returns (p: Piece, t: string)
    requires ParsePieces(s).Some? && s != "" && s != "$"
    ensures WellFormedAtom(p.atom) && |t| < |s|
    ensures ParsePieces(t).Some?
    ensures ParsePieces(s) == Some(([p] + ParsePieces(t).value.0, ParsePieces(t).value.1))
    ensures s == AtomText(p.atom) + RepeatText(p.repeat) + t
    ensures p.repeat == Once ==> t == "" || !IsRepeat(t[0])
  {
    hide IsRepeat; hide WellFormedAtom; hide FirstAtom; hide AtomText;
    var (atom, n) := FirstAtom(s).value;
    FirstAtomText(s);
    var repeated := n < |s| && IsRepeat(s[n]);
    if repeated {
      RepeatChars(s[n]);
      p, t := Piece(atom, RepeatOf(s[n])), s[n + 1..];
      assert s == s[..n] + [s[n]] + t;
    } else {
      p, t := Piece(atom, Once), s[n..];
      assert s == s[..n] + "" + t;
    }
  }

  /** Printing undoes parsing. */
  lemma {:induction false} TextOfParse(s: string)
    requires ParsePieces(s).Some?
    ensures forall p <- ParsePieces(s).value.0 :: WellFormedAtom(p.atom)
    ensures PiecesText(ParsePieces(s).value.0, ParsePieces(s).value.1) == s
    decreases |s|
  {
    hide IsRepeat; hide WellFormedAtom; hide FirstAtom; hide AtomText; hide RepeatText;
    if s == "" || s == "$" {
    } else {
      var p, t := ParseStep(s);
      TextOfParse(t);
      hide ParsePieces;
      var rest := ParsePieces(t).value.0;
      assert ([p] + rest)[1..] == rest;
    }
  }

  /** The grammar is unambiguous, and Parse accepts exactly its sentences. */
  lemma Grammar(s: string, r: Regex)
    ensures Parse(s) == Some(r) <==> WellFormed(r) && RegexText(r) == s
  {
    hide IsRepeat; hide WellFormedAtom; hide ParsePieces; hide PiecesText;
    var head := s != "" && s[0] == '^';
    var t := if head then s[1..] else s;
    if WellFormed(r) && RegexText(r) == s {
      ParseOfText(r.pieces, r.tail);
      PiecesStart(r.pieces, r.tail);
      assert r.head == head;
      assert t == PiecesText(r.pieces, r.tail);
    }
    if Parse(s) == Some(r) {
      assert ParsePieces(t) == Some((r.pieces, r.tail));
      TextOfParse(t);
      assert head ==> s == ['^'] + t;
    }
  }

  // ------------------------------------------------------------------ the syntax check

  /** What the scan still accepts; `first`: nothing was read; `repeatable`: a repetition may follow. */
  ghost predicate ScanAccepts(s: string, first: bool, repeatable: bool)
    decreases |s|
  {
    if s == "" then true
    else if s[0] == '\\' then |s| >= 2 && IsValidEscape(s[1]) && ScanAccepts(s[2..], false, true)
    else if s[0] == '^' then first && ScanAccepts(s[1..], false, false)
    else if s[0] == '$' then |s| == 1
    else if IsUnsupported(s[0]) then false
    else if IsRepeat(s[0]) then repeatable && ScanAccepts(s[1..], false, false)
    else ScanAccepts(s[1..], false, true)
  }

  lemma PlainChars(c: char)
    requires c != '\0'
    ensures !(IsRepeat(c) && IsUnsupported(c))
    ensures c !in ['\\', '^', '$'] ==> (WellFormedAtom(Atom(false, c)) <==> !IsRepeat(c) && !IsUnsupported(c))
    ensures c in ['\\', '^', '$'] ==> !IsRepeat(c) && !IsUnsupported(c) && !WellFormedAtom(Atom(false, c))
  {
  }

  function SkipRepeat(s: string): string {
    if s != "" && IsRepeat(s[0]) then s[1..] else s
  }

  lemma ParseUnfolds(s: string, n: nat)
    requires '\0' !in s && 1 <= n <= |s| && s != "$"
    requires FirstAtom(s).Some? ==> n == FirstAtom(s).value.1
    ensures ParsePieces(s).Some? <==> FirstAtom(s).Some? && ParsePieces(SkipRepeat(s[n..])).Some?
  {
    hide IsRepeat; hide FirstAtom;
    if n < |s| {
      assert s[n..][0] == s[n] && s[n..][1..] == s[n + 1..];
    }
  }

  lemma RepeatStartsNothing(s: string)
    requires '\0' !in s && s != "" && IsRepeat(s[0])
    ensures ParsePieces(s).None?
  {
    PlainChars(s[0]);
  }

  lemma {:induction false} ScanMeansParse(s: string)
    requires '\0' !in s
    ensures ScanAccepts(s, false, false) <==> ParsePieces(s).Some?
    ensures ScanAccepts(s, false, true) <==> ParsePieces(SkipRepeat(s)).Some?
    decreases |s|
  {
    if s == "" || s == "$" {
      RepeatChars('$');
    } else {
      hide IsRepeat; hide WellFormedAtom; hide IsUnsupported; hide IsValidEscape; hide ParsePieces;
      PlainChars(s[0]);
      ScanMeansParse(s[1..]);
      if IsRepeat(s[0]) {
        RepeatStartsNothing(s);
      } else {
        assert SkipRepeat(s) == s;
        var n := if s[0] == '\\' && |s| >= 2 then 2 else 1;
        ParseUnfolds(s, n);
        if n == 2 {
          ScanMeansParse(s[2..]);
        } else if |s| == 1 {
          assert s == [s[0]];
        }
      }
    }
  }

  lemma ScanMeansRegex(s: string)
    requires '\0' !in s
    ensures ScanAccepts(s, true, false) <==> Parse(s).Some?
  {
    hide IsRepeat; hide WellFormedAtom; hide IsUnsupported; hide IsValidEscape; hide ParsePieces;
    ScanMeansParse(s);
    if s != "" {
      ScanMeansParse(s[1..]);
    }
  }

  /** Returns whether the text is a valid simple regular expression. */
  method ValidateRegex(regex: CharString) returns (isValid: bool)
    ensures isValid <==> Parse(regex).Some?
  {
    hide IsRepeat; hide IsUnsupported; hide IsValidEscape; hide Parse;
    ScanMeansRegex(regex);
    isValid := true;
    var prevRepeatable := false;
    var i := 0;
    assert regex[0..] == regex;
    while i < |regex|
      invariant 0 <= i <= |regex|
      invariant isValid && ScanAccepts(regex[i..], i == 0, prevRepeatable) <==> ScanAccepts(regex, true, false)
    {
      ghost var rest := regex[i..];
      assert rest[1..] == regex[i + 1..];
      if regex[i] == '\\' {
        i := i + 1;
        if i == |regex| {
          return false;
        }
        assert rest[2..] == regex[i + 1..];
        if !IsValidEscape(regex[i]) {
          isValid := false;
        }
        prevRepeatable := true;
      } else {
        var ch := regex[i];
        if ch == '^' && i > 0 {
          isValid := false;
        } else if ch == '$' && i + 1 < |regex| {
          isValid := false;
        } else if IsUnsupported(ch) {
          isValid := false;
        } else if IsRepeat(ch) && !prevRepeatable {
          isValid := false;
        }
        PlainChars(ch);
        SetChars(ch);
        prevRepeatable := !IsInSet(ch, "^$?*+");
      }
      i := i + 1;
    }
  }

  lemma SetChars(c: char)
    requires c != '\0'
    ensures IsInSet(c, "^$?*+") <==> c == '^' || c == '$' || IsRepeat(c)
  {
  }

  // ------------------------------------------------------------------ characters by their codes

  ghost predicate PunctCode(c: int) {
    33 <= c <= 47 || 58 <= c <= 64 || 91 <= c <= 96 || 123 <= c <= 126
  }

  ghost predicate WordCode(c: int) {
    48 <= c <= 57 || 65 <= c <= 90 || c == 95 || 97 <= c <= 122
  }

  ghost predicate SpaceCode(c: int) {
    9 <= c <= 13 || c == 32
  }

  /** The characters an atom stands for, by their codes. */
  ghost predicate InAtom(a: Atom, c: int) {
    var p := a.c as int;
    if !a.escaped then if p == 46 then c != 10 else c == p
    else if p == 100 then 48 <= c <= 57
    else if p == 68 then !(48 <= c <= 57)
    else if p == 115 then SpaceCode(c)
    else if p == 83 then !SpaceCode(c)
    else if p == 119 then WordCode(c)
    else if p == 87 then !WordCode(c)
    else if p == 102 then c == 12
    else if p == 110 then c == 10
    else if p == 114 then c == 13
    else if p == 116 then c == 9
    else if p == 118 then c == 11
    else PunctCode(p) && c == p
  }

  lemma PunctByCode(ch: char)
    ensures IsAsciiPunct(ch) <==> PunctCode(ch as int)
  {
  }

  /** AtomMatchesChar accepts exactly the characters of the atom. */
  lemma AtomByCode(a: Atom, ch: char)
    ensures AtomMatchesChar(a.escaped, a.c, ch) <==> InAtom(a, ch as int)
  {
    hide IsAsciiPunct;
    PunctByCode(a.c);
  }

  /** Which atoms there are: a backslash before a punctuation mark or one of dDfnrsStvwW, and any character but NUL, the
      backslash, the anchors, the repetitions and the brackets and bars that are not supported. */
  lemma AtomsByCode(a: Atom)
    ensures var c := a.c as int;
            WellFormedAtom(a) <==>
            if a.escaped then
              PunctCode(c) || c in {100, 68, 102, 110, 114, 115, 83, 116, 118, 119, 87}
            else
              c !in {0, 36, 40, 41, 42, 43, 63, 91, 92, 93, 94, 123, 124, 125}
  {
    hide IsAsciiPunct;
    PunctByCode(a.c);
  }

  // ------------------------------------------------------------------ the language

  ghost predicate AllMatch(a: Atom, t: string) {
    forall i :: 0 <= i < |t| ==> InAtom(a, t[i] as int)
  }

  ghost predicate InPiece(p: Piece, t: string) {
    && AllMatch(p.atom, t)
    && match p.repeat
       case Once => |t| == 1
       case Optional => |t| <= 1
       case Star => true
       case Plus => |t| >= 1
  }

  /** The language of a sequence of pieces. */
  ghost predicate InPieces(ps: seq<Piece>, t: string) {
    if ps == [] then t == ""
    else exists k :: 0 <= k <= |t| && InPiece(ps[0], t[..k]) && InPieces(ps[1..], t[k..])
  }

  /** Some prefix of `t` is in the language; all of `t` if the end is anchored. */
  ghost predicate HeadMatch(ps: seq<Piece>, tail: bool, t: string) {
    exists k :: 0 <= k <= |t| && InPieces(ps, t[..k]) && (tail ==> k == |t|)
  }

  /** Some substring of `t` is in the language, placed as the anchors demand. */
  ghost predicate SubstringMatch(r: Regex, t: string) {
    exists i, j :: 0 <= i <= j <= |t| && InPieces(r.pieces, t[i..j]) && (r.head ==> i == 0) && (r.tail ==> j == |t|)
  }

  lemma HeadMatchForward(ps: seq<Piece>, tail: bool, t: string) returns (i: nat)
    requires ps != [] && HeadMatch(ps, tail, t)
    ensures i <= |t| && InPiece(ps[0], t[..i]) && HeadMatch(ps[1..], tail, t[i..])
  {
    hide InPiece;
    var k :| 0 <= k <= |t| && InPieces(ps, t[..k]) && (tail ==> k == |t|);
    i :| 0 <= i <= k && InPiece(ps[0], t[..k][..i]) && InPieces(ps[1..], t[..k][i..]);
    assert t[..k][..i] == t[..i] && t[..k][i..] == t[i..][..k - i];
  }

  lemma HeadMatchBack(ps: seq<Piece>, tail: bool, t: string, i: nat)
    requires ps != [] && i <= |t| && InPiece(ps[0], t[..i]) && HeadMatch(ps[1..], tail, t[i..])
    ensures HeadMatch(ps, tail, t)
  {
    hide InPiece;
    var k :| 0 <= k <= |t[i..]| && InPieces(ps[1..], t[i..][..k]) && (tail ==> k == |t[i..]|);
    var whole := t[..i + k];
    assert whole[..i] == t[..i] && whole[i..] == t[i..][..k];
  }

  // ------------------------------------------------------------------ the matcher

  ghost predicate AtHead(regex: string, str: string)
    requires ParsePieces(regex).Some?
  {
    HeadMatch(ParsePieces(regex).value.0, ParsePieces(regex).value.1, str)
  }

  /** The piece takes the first `k` characters and the rest of the expression follows. */
  ghost predicate TakesThenRest(p: Piece, regex: string, str: string, k: nat)
    requires ParsePieces(regex).Some?
  {
    k <= |str| && InPiece(p, str[..k]) && AtHead(regex, str[k..])
  }

  lemma AtHeadStep(regex: string, p: Piece, rest: string, str: string)
    requires ParsePieces(regex).Some? && ParsePieces(rest).Some?
    requires ParsePieces(regex) == Some(([p] + ParsePieces(rest).value.0, ParsePieces(rest).value.1))
    ensures AtHead(regex, str) <==> exists k :: TakesThenRest(p, rest, str, k)
  {
    hide ParsePieces; hide InPiece; hide HeadMatch;
    var (ps, tail) := ParsePieces(regex).value;
    assert ps[0] == p && ps[1..] == ParsePieces(rest).value.0;
    if AtHead(regex, str) {
      var i := HeadMatchForward(ps, tail, str);
      assert TakesThenRest(p, rest, str, i);
    }
    if k: nat :| TakesThenRest(p, rest, str, k) {
      HeadMatchBack(ps, tail, str, k);
    }
  }

  lemma AtHeadEnds(str: string)
    ensures AtHead("", str)
    ensures AtHead("$", str) <==> str == ""
  {
    assert InPieces([], str[..0]);
    assert str == "" ==> InPieces([], str[..|str|]);
  }

  lemma OnceTakesOne(a: Atom, regex: string, str: string)
    requires ParsePieces(regex).Some?
    ensures (exists k :: TakesThenRest(Piece(a, Once), regex, str, k)) <==>
            str != "" && InAtom(a, str[0] as int) && AtHead(regex, str[1..])
  {
    hide ParsePieces; hide AtHead; hide InAtom;
    if k :| TakesThenRest(Piece(a, Once), regex, str, k) {
      assert str[..1][0] == str[0];
    }
    if str != "" && InAtom(a, str[0] as int) && AtHead(regex, str[1..]) {
      assert TakesThenRest(Piece(a, Once), regex, str, 1);
    }
  }

  /** Whether a repeated atom followed by the expression matches at the head. */
  method MatchRepetitionAndRegexAtHead(escaped: bool, c: char, repeat: char, regex: CharString, str: CharString) returns (r: bool)
    requires ParsePieces(regex).Some? && IsRepeat(repeat) && |str| < SIZE_MAX
    ensures r <==> exists k :: TakesThenRest(Piece(Atom(escaped, c), RepeatOf(repeat)), regex, str, k)
    decreases |regex|, 1
  {
    hide ParsePieces; hide AtHead; hide AtomMatchesChar; hide InAtom; hide IsRepeat;
    RepeatChars(repeat);
    ghost var p := Piece(Atom(escaped, c), RepeatOf(repeat));
    var minCount := if repeat == '+' then 1 else 0;
    var maxCount := if repeat == '?' then 1 else SIZE_MAX - 1;
    var i := 0;
    while i <= maxCount
      invariant 0 <= i <= |str| && i <= maxCount + 1
      invariant forall j :: 0 <= j < i ==> InAtom(p.atom, str[j] as int)
      invariant forall j :: 0 <= j < i ==> !TakesThenRest(p, regex, str, j)
      decreases maxCount + 1 - i
    {
      if i >= minCount {
        var tailMatches := MatchRegexAtHead(regex, str[i..]);
        if tailMatches {
          assert TakesThenRest(p, regex, str, i);
          return true;
        }
      }
      assert !TakesThenRest(p, regex, str, i);
      if i < |str| {
        AtomByCode(p.atom, str[i]);
      }
      if i == |str| || !AtomMatchesChar(escaped, c, str[i]) {
        assert forall k: nat :: i < k <= |str| ==> !AllMatch(p.atom, str[..k]) by {
          forall k: nat | i < k <= |str| ensures !AllMatch(p.atom, str[..k]) {
            assert str[..k][i] == str[i];
          }
        }
        return false;
      }
      i := i + 1;
    }
    assert forall k: nat :: TakesThenRest(p, regex, str, k) ==> k <= maxCount;
    return false;
  }

  /** Whether the expression matches a prefix of the string. */
  method MatchRegexAtHead(regex: CharString, str: CharString) returns (r: bool)
    requires ParsePieces(regex).Some? && |str| < SIZE_MAX
    ensures r <==> AtHead(regex, str)
    decreases |regex|, 0
  {
    hide AtHead; hide AtomMatchesChar; hide InAtom; hide IsRepeat; hide WellFormedAtom; hide TakesThenRest; hide FirstAtom;
    AtHeadEnds(str);
    if |regex| == 0 {
      return true;
    }
    if regex[0] == '$' {
      DollarIsLast(regex);
      return |str| == 0;
    }
    hide ParsePieces;
    ghost var p, t := ParseStep(regex);
    AtHeadStep(regex, p, t, str);
    var escaped := regex[0] == '\\';
    var at := if escaped then 1 else 0;
    AtomSplit(regex, p, t);
    if at + 1 < |regex| && IsRepeat(regex[at + 1]) {
      r := MatchRepetitionAndRegexAtHead(escaped, regex[at], regex[at + 1], regex[at + 2..], str);
    } else {
      OnceTakesOne(p.atom, t, str);
      if |str| > 0 {
        AtomByCode(p.atom, str[0]);
      }
      if |str| == 0 || !AtomMatchesChar(escaped, regex[at], str[0]) {
        return false;
      }
      r := MatchRegexAtHead(regex[at + 1..], str[1..]);
    }
  }

  lemma DollarIsLast(regex: string)
    requires ParsePieces(regex).Some? && regex != "" && regex[0] == '$'
    ensures regex == "$"
  {
    PlainChars('$');
  }

  /** Where the first piece and the rest stand in the text. */
  lemma AtomSplit(regex: string, p: Piece, t: string)
    requires regex == AtomText(p.atom) + RepeatText(p.repeat) + t && WellFormedAtom(p.atom)
    requires p.repeat == Once ==> t == "" || !IsRepeat(t[0])
    ensures var at := if regex[0] == '\\' then 1 else 0;
            && at < |regex| && p.atom == Atom(regex[0] == '\\', regex[at])
            && var repeated := at + 1 < |regex| && IsRepeat(regex[at + 1]);
               if repeated then p.repeat == RepeatOf(regex[at + 1]) && t == regex[at + 2..]
               else p.repeat == Once && t == regex[at + 1..]
  {
    hide IsRepeat;
    RepeatChars('?'); RepeatChars('*'); RepeatChars('+');
  }

  /** Whether the expression matches a substring. */
  method MatchRegexAnywhere(regex: CharString, str: CharString) returns (r: bool)
    requires Parse(regex).Some? && |str| < SIZE_MAX
    ensures r <==> SubstringMatch(Parse(regex).value, str)
  {
    hide ParsePieces; hide InPieces;
    ghost var re := Parse(regex).value;
    if |regex| > 0 && regex[0] == '^' {
      r := MatchRegexAtHead(regex[1..], str);
      HeadIsSubstring(re, str, 0);
      return r;
    }
    var i := 0;
    while true
      invariant 0 <= i <= |str|
      invariant forall k :: 0 <= k < i ==> !HeadMatch(re.pieces, re.tail, str[k..])
      decreases |str| - i
    {
      r := MatchRegexAtHead(regex, str[i..]);
      if r {
        HeadIsSubstring(re, str, i);
        return true;
      }
      if i == |str| {
        break;
      }
      i := i + 1;
    }
    if SubstringMatch(re, str) {
      SubstringIsHead(re, str);
    }
  }

  lemma HeadIsSubstring(r: Regex, str: string, i: nat)
    requires i <= |str|
    ensures HeadMatch(r.pieces, r.tail, str[i..]) && (r.head ==> i == 0) ==> SubstringMatch(r, str)
    ensures r.head && i == 0 ==> (SubstringMatch(r, str) <==> HeadMatch(r.pieces, r.tail, str[i..]))
  {
    hide InPieces;
    if HeadMatch(r.pieces, r.tail, str[i..]) {
      var k :| 0 <= k <= |str[i..]| && InPieces(r.pieces, str[i..][..k]) && (r.tail ==> k == |str[i..]|);
      assert str[i..][..k] == str[i..i + k];
    }
    if r.head && i == 0 && SubstringMatch(r, str) {
      SubstringIsHead(r, str);
      assert str[0..] == str;
    }
  }

  lemma SubstringIsHead(r: Regex, str: string)
    requires SubstringMatch(r, str)
    ensures exists i :: 0 <= i <= |str| && HeadMatch(r.pieces, r.tail, str[i..]) && (r.head ==> i == 0)
  {
    hide InPieces;
    var i, j :| 0 <= i <= j <= |str| && InPieces(r.pieces, str[i..j]) && (r.head ==> i == 0) && (r.tail ==> j == |str|);
    assert str[i..j] == str[i..][..j - i];
  }

  // ------------------------------------------------------------------ the RE class

  /** The last piece is an escaped '$' and no anchor follows. */
  predicate EndsInEscapedDollar(r: Regex) {
    !r.tail && r.pieces != [] && r.pieces[|r.pieces| - 1] == Piece(Atom(true, '$'), Once)
  }

  lemma {:induction false} TailText(pieces: seq<Piece>)
    ensures PiecesText(pieces, true) == PiecesText(pieces, false) + "$"
    decreases |pieces|
  {
    if pieces == [] {
    } else {
      TailText(pieces[1..]);
    }
  }

  ghost predicate EndsInDollar(s: string) {
    s != "" && s[|s| - 1] == '$'
  }

  lemma PieceEnd(p: Piece)
    requires WellFormedAtom(p.atom)
    ensures EndsInDollar(AtomText(p.atom) + RepeatText(p.repeat)) <==> p == Piece(Atom(true, '$'), Once)
  {
  }

  lemma {:induction false} LastChar(pieces: seq<Piece>)
    requires forall p <- pieces :: WellFormedAtom(p.atom)
    ensures EndsInDollar(PiecesText(pieces, false)) <==>
            pieces != [] && pieces[|pieces| - 1] == Piece(Atom(true, '$'), Once)
    decreases |pieces|
  {
    hide WellFormedAtom; hide RepeatText; hide AtomText;
    if pieces == [] {
    } else {
      PieceEnd(pieces[0]);
      LastChar(pieces[1..]);
      var front := AtomText(pieces[0].atom) + RepeatText(pieces[0].repeat);
      if |pieces| == 1 {
        assert front + "" == front;
      } else {
        AtomStart(pieces[1].atom, "");
        assert PiecesText(pieces[1..], false) != "";
      }
    }
  }

  function FullPattern(regex: string): string {
    (if regex == "" || regex[0] != '^' then "^" else "") + regex +
    (if regex == "" || regex[|regex| - 1] != '$' then "$" else "")
  }

  /** The full pattern anchors both ends, except that an escaped '$' at the end is taken for the anchor. */
  lemma FullPatternParses(regex: string)
    requires Parse(regex).Some?
    ensures var r := Parse(regex).value;
            Parse(FullPattern(regex)) == Some(Regex(true, r.pieces, !EndsInEscapedDollar(r)))
  {
    hide Parse; hide PiecesText; hide WellFormedAtom;
    var r := Parse(regex).value;
    Grammar(regex, r);
    LastChar(r.pieces);
    TailText(r.pieces);
    PiecesStart(r.pieces, r.tail);
    var full := Regex(true, r.pieces, !EndsInEscapedDollar(r));
    Grammar(FullPattern(regex), full);
    assert RegexText(full) == FullPattern(regex);
  }

  lemma WholeString(ps: seq<Piece>, tail: bool, str: string)
    ensures SubstringMatch(Regex(true, ps, tail), str) <==> HeadMatch(ps, tail, str)
    ensures tail ==> (HeadMatch(ps, tail, str) <==> InPieces(ps, str))
  {
    hide InPieces;
    HeadIsSubstring(Regex(true, ps, tail), str, 0);
    assert str[0..] == str && str[..|str|] == str;
  }

  /** What FullMatch decides: for a pattern that ends in an escaped '$' a prefix of the string is enough. */
  ghost predicate FullMatches(r: Regex, str: string) {
    if EndsInEscapedDollar(r) then HeadMatch(r.pieces, false, str) else InPieces(r.pieces, str)
  }

  method AnchorBothEnds(regex: CharString) returns (buffer: CharString)
    ensures buffer == FullPattern(regex)
  {
    buffer := "";
    if regex == "" || regex[0] != '^' {
      buffer := buffer + "^";
    }
    buffer := buffer + regex;
    if regex == "" || regex[|regex| - 1] != '$' {
      buffer := buffer + "$";
    }
  }

  class RE {
    const pattern: CharString
    const fullPattern: CharString
    const isValid: bool

    ghost predicate Valid() {
      && (isValid <==> Parse(pattern).Some?)
      && (isValid ==> fullPattern == FullPattern(pattern))
    }

    constructor (regex: CharString)
      ensures Valid() && pattern == regex
    {
      hide Parse; hide FullPattern;
      pattern := regex;
      var valid := ValidateRegex(regex);
      isValid := valid;
      if valid {
        var full := AnchorBothEnds(regex);
        fullPattern := full;
      } else {
        fullPattern := "";
      }
    }

    method FullMatch(str: CharString) returns (r: bool)
      requires Valid() && |str| < SIZE_MAX
      ensures r <==> Parse(pattern).Some? && FullMatches(Parse(pattern).value, str)
    {
      hide InPieces; hide Parse; hide SubstringMatch; hide FullPattern; hide EndsInEscapedDollar;
      if !isValid {
        return false;
      }
      FullPatternParses(pattern);
      r := MatchRegexAnywhere(fullPattern, str);
      ghost var re := Parse(pattern).value;
      WholeString(re.pieces, !EndsInEscapedDollar(re), str);
    }

    /** Whether some substring is in the language. */
    method PartialMatch(str: CharString) returns (r: bool)
      requires Valid() && |str| < SIZE_MAX
      ensures r <==> Parse(pattern).Some? && SubstringMatch(Parse(pattern).value, str)
    {
      if !isValid {
        return false;
      }
      r := MatchRegexAnywhere(pattern, str);
    }
  }

  // ------------------------------------------------------------------ when FullMatch is exact

  function SampleChar(a: Atom): char {
    if !a.escaped then a.c
    else
      match a.c
      case 'd' => '0'
      case 'D' => 'a'
      case 'f' => '\U{0C}'
      case 'n' => '\n'
      case 'r' => '\r'
      case 's' => ' '
      case 'S' => 'a'
      case 't' => '\t'
      case 'v' => '\U{0B}'
      case 'w' => 'a'
      case 'W' => ' '
      case _ => a.c
  }

  lemma SampleMatches(a: Atom)
    requires WellFormedAtom(a)
    ensures InAtom(a, SampleChar(a) as int) && SampleChar(a) != '\0'
  {
    AtomsByCode(a);
    hide WellFormedAtom;
  }

  /** Every well-formed sequence of pieces has a word. */
  lemma {:induction false} SampleWord(ps: seq<Piece>) returns (w: string)
    requires forall p <- ps :: WellFormedAtom(p.atom)
    ensures |w| == |ps| && '\0' !in w && InPieces(ps, w)
    decreases |ps|
  {
    hide WellFormedAtom; hide InAtom; hide SampleChar;
    if ps == [] {
      w := "";
    } else {
      var rest := SampleWord(ps[1..]);
      SampleMatches(ps[0].atom);
      w := [SampleChar(ps[0].atom)] + rest;
      assert w[..1] == [SampleChar(ps[0].atom)] && w[1..] == rest;
      assert InPiece(ps[0], w[..1]);
    }
  }

  lemma {:induction false} WordsEndInDollar(ps: seq<Piece>, t: string)
    requires ps != [] && ps[|ps| - 1] == Piece(Atom(true, '$'), Once) && InPieces(ps, t)
    ensures EndsInDollar(t)
    decreases |ps|
  {
    var k :| 0 <= k <= |t| && InPiece(ps[0], t[..k]) && InPieces(ps[1..], t[k..]);
    if |ps| == 1 {
      assert t[..1] == t;
      assert InAtom(Atom(true, '$'), t[..k][0] as int);
    } else {
      WordsEndInDollar(ps[1..], t[k..]);
    }
  }

  /** FullMatch decides membership of the whole string for every subject exactly when the pattern does not end in an
      escaped '$'. */
  lemma FullMatchExact(r: Regex)
    requires WellFormed(r)
    ensures !EndsInEscapedDollar(r) <==>
            forall str: CharString :: FullMatches(r, str) <==> InPieces(r.pieces, str)
  {
    hide WellFormedAtom;
    if EndsInEscapedDollar(r) {
      var w := SampleWord(r.pieces);
      var str: CharString := w + "x";
      assert str[..|w|] == w;
      assert FullMatches(r, str);
      if InPieces(r.pieces, str) {
        WordsEndInDollar(r.pieces, str);
      }
    }
  }

  lemma EscapedDollarParses()
    ensures Parse("\\$") == Some(Regex(false, [Piece(Atom(true, '$'), Once)], false))
  {
    hide Parse; hide ParsePieces;
    var p := Piece(Atom(true, '$'), Once);
    var r := Regex(false, [p], false);
    assert WellFormedAtom(p.atom);
    assert PiecesText([], false) == "";
    assert PiecesText([p], false) == "\\$";
    Grammar("\\$", r);
  }

  lemma SinglePiece(p: Piece, t: string)
    requires InPiece(p, t)
    ensures InPieces([p], t)
  {
    assert t[..|t|] == t && t[|t|..] == "";
  }

  /** The pattern "\$" denotes the string "$" alone, yet it fully matches "$x". */
  lemma EscapedDollarExample()
    ensures Parse("\\$").Some?
    ensures FullMatches(Parse("\\$").value, "$x") && !InPieces(Parse("\\$").value.pieces, "$x")
  {
    EscapedDollarParses();
    hide Parse; hide InPieces;
    var p := Piece(Atom(true, '$'), Once);
    SinglePiece(p, "$");
    var t := "$x";
    assert t[..1] == "$";
    if InPieces([p], t) {
      WordsEndInDollar([p], t);
    }
  }
}
