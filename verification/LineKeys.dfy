/** The keys of linenoise by their bytes: what each does to the text and the position of the cursor. */
module LineKeys {
  import opened Bytes
  import opened LineHistory
  import opened LineEdit

  ghost function Pos(l: Line): (n: nat) {
    |l.before|
  }

  /** The line with this text and the cursor in front of its character `pos`. */
  ghost function LineAt(text: string, pos: nat): (l: Line)
    requires pos <= |text|
    ensures l.Text() == text && Pos(l) == pos
  {
    assert text[..pos] + text[pos..] == text;
    Line(text[..pos], text[pos..])
  }

  lemma LineIsAt(l: Line)
    ensures l == LineAt(l.Text(), Pos(l))
  {
  }

  // ------------------------------------------------------------------ control bytes

  /** Bytes with a meaning of their own: Ctrl-C, Tab, Enter, the two history keys and Escape. */
  ghost predicate IsSpecial(c: int) {
    c in {3, 9, 13, 14, 16, 27}
  }

  /** What a byte does to the text and the position, Ctrl-W apart. */
  ghost function Effect(text: string, pos: nat, c: char, capacity: nat): (r: Line)
    requires pos <= |text|
  {
    var n := |text|;
    match c as int
    case 1 => LineAt(text, 0)
    case 2 => LineAt(text, if pos == 0 then 0 else pos - 1)
    case 4 => if pos == n then LineAt(text, pos) else LineAt(text[..pos] + text[pos + 1..], pos)
    case 5 => LineAt(text, n)
    case 6 => LineAt(text, if pos == n then n else pos + 1)
    case 8 => if pos == 0 then LineAt(text, 0) else LineAt(text[..pos - 1] + text[pos..], pos - 1)
    case 11 => LineAt(text[..pos], pos)
    case 12 => LineAt(text, pos)
    case 20 =>
      if pos == 0 || pos == n then LineAt(text, pos)
      else LineAt(text[pos - 1 := text[pos]][pos := text[pos - 1]], if pos == n - 1 then pos else pos + 1)
    case 21 => LineAt("", 0)
    case 127 => if pos == 0 then LineAt(text, 0) else LineAt(text[..pos - 1] + text[pos..], pos - 1)
    case _ => if n < capacity then LineAt(text[..pos] + [c] + text[pos..], pos + 1) else LineAt(text, pos)
  }

  lemma DeleteAt(l: Line)
    ensures var text, pos := l.Text(), Pos(l);
            Delete(l) == if pos == |text| then l else LineAt(text[..pos] + text[pos + 1..], pos)
  {
    var text, pos := l.Text(), Pos(l);
    if pos < |text| {
      assert text[pos + 1..] == l.after[1..] && text[..pos] == l.before;
    }
  }

  lemma BackspaceAt(l: Line)
    ensures var text, pos := l.Text(), Pos(l);
            Backspace(l) == if pos == 0 then l else LineAt(text[..pos - 1] + text[pos..], pos - 1)
  {
    var text, pos := l.Text(), Pos(l);
    if pos > 0 {
      assert text[..pos - 1] == l.before[..pos - 1] && text[pos..] == l.after;
    }
  }

  lemma MovesAt(l: Line)
    ensures var text, pos := l.Text(), Pos(l);
            && Left(l) == LineAt(text, if pos == 0 then 0 else pos - 1)
            && Right(l) == LineAt(text, if pos == |text| then pos else pos + 1)
  {
    var text, pos := l.Text(), Pos(l);
    assert text[..pos] == l.before && text[pos..] == l.after;
    if pos > 0 {
      assert text[..pos - 1] == l.before[..pos - 1] && text[pos - 1..] == [l.before[pos - 1]] + l.after;
    }
    if pos < |text| {
      assert text[..pos + 1] == l.before + [l.after[0]] && text[pos + 1..] == l.after[1..];
    }
  }

  lemma InsertAt(l: Line, c: char, capacity: nat)
    ensures var text, pos := l.Text(), Pos(l);
            Insert(l, c, capacity) ==
            if |text| < capacity then LineAt(text[..pos] + [c] + text[pos..], pos + 1) else l
  {
    var text, pos := l.Text(), Pos(l);
    assert text[..pos] == l.before && text[pos..] == l.after;
    var t := text[..pos] + [c] + text[pos..];
    assert t[..pos + 1] == l.before + [c] && t[pos + 1..] == l.after;
  }

  lemma TransposeAt(l: Line)
    ensures var text, pos := l.Text(), Pos(l);
            Transpose(l) ==
            if pos == 0 || pos == |text| then l
            else LineAt(text[pos - 1 := text[pos]][pos := text[pos - 1]], if pos == |text| - 1 then pos else pos + 1)
  {
    var text, pos := l.Text(), Pos(l);
    if 0 < pos < |text| {
      var t := text[pos - 1 := text[pos]][pos := text[pos - 1]];
      var front, a, b := l.before[..pos - 1], l.before[pos - 1], l.after[0];
      assert t == front + [b, a] + l.after[1..];
      assert t[..pos] == front + [b] && t[pos..] == [a] + l.after[1..];
      assert t[..pos + 1] == front + [b, a] && t[pos + 1..] == l.after[1..];
    }
  }

  /** Every byte that is not special acts on the text at the cursor as its code says. */
  lemma KeyActs(l: Line, c: char, capacity: nat)
    requires !IsSpecial(c as int) && c as int != 23
    ensures EditKey(l, KeyOf(c), capacity) == Effect(l.Text(), Pos(l), c, capacity)
  {
    hide Insert; hide Delete; hide Backspace; hide Left; hide Right; hide Transpose; hide LineAt; hide Line.Text;
    LineIsAt(l);
    EndsAt(l);
    match c as int
    case 1 | 5 | 11 | 12 | 21 =>
    case 2 | 6 => MovesAt(l);
    case 4 => DeleteAt(l);
    case 8 | 127 => BackspaceAt(l);
    case 20 => TransposeAt(l);
    case _ => InsertAt(l, c, capacity);
  }

  lemma EndsAt(l: Line)
    ensures LineAt(l.Text(), 0) == Line("", l.Text()) && LineAt(l.Text(), |l.Text()|) == Line(l.Text(), "")
    ensures LineAt(l.Text()[..Pos(l)], Pos(l)) == Line(l.before, "") && LineAt("", 0) == Line("", "")
  {
    var text, pos := l.Text(), Pos(l);
    assert text[..0] == "" && text[0..] == text && text[..|text|] == text && text[|text|..] == "";
    assert text[..pos] == l.before && l.before[..pos] == l.before && l.before[pos..] == "";
  }

  // ------------------------------------------------------------------ Ctrl-W

  /** `kept` is what is left before the cursor: blanks and then a word have gone. */
  ghost predicate WordCut(before: string, kept: string, word: string, blanks: string) {
    && before == kept + word + blanks
    && (forall c <- word :: c != ' ') && (forall c <- blanks :: c == ' ')
    && (kept == "" || (kept[|kept| - 1] == ' ' && word != ""))
  }

  lemma {:induction false} BlanksDropped(s: string) returns (blanks: string)
    ensures s == DropSpaces(s) + blanks && (forall c <- blanks :: c == ' ')
    ensures DropSpaces(s) == "" || DropSpaces(s)[|DropSpaces(s)| - 1] != ' '
    decreases |s|
  {
    if s == "" || s[|s| - 1] != ' ' {
      blanks := "";
    } else {
      var fewer := BlanksDropped(s[..|s| - 1]);
      blanks := fewer + [' '];
      assert s == s[..|s| - 1] + [' '];
    }
  }

  lemma {:induction false} WordDropped(s: string) returns (word: string)
    ensures s == DropWord(s) + word && (forall c <- word :: c != ' ')
    ensures DropWord(s) == "" || DropWord(s)[|DropWord(s)| - 1] == ' '
    decreases |s|
  {
    if s == "" || s[|s| - 1] == ' ' {
      word := "";
    } else {
      var fewer := WordDropped(s[..|s| - 1]);
      word := fewer + [s[|s| - 1]];
      assert s == s[..|s| - 1] + [s[|s| - 1]];
    }
  }

  lemma WordIsCut(l: Line) returns (word: string, blanks: string)
    ensures WordCut(l.before, DeletePrevWord(l).before, word, blanks) && DeletePrevWord(l).after == l.after
  {
    hide DropSpaces; hide DropWord;
    blanks := BlanksDropped(l.before);
    word := WordDropped(DropSpaces(l.before));
  }

  // ------------------------------------------------------------------ whole inputs

  /** A byte that is not special is served by its effect, and the rest of the input follows. */
  lemma ByteIsServed(s: Session, c: char, rest: string, callback: Completer, capacity: nat)
    requires SessionOk(s, capacity) && capacity >= 1 && '\0' !in [c] + rest
    requires !IsSpecial(c as int) && c as int != 23 && !(c as int == 4 && s.line.Text() == "")
    ensures var next := s.(line := Effect(s.line.Text(), Pos(s.line), c, capacity));
            SessionOk(next, capacity) && Serve(s, [c] + rest, callback, capacity) == Serve(next, rest, callback, capacity)
  {
    hide EditKey; hide Effect; hide Serve; hide SessionOk;
    KeyActs(s.line, c, capacity);
    ServeUnfolds(s, [c] + rest, callback, capacity);
    assert ([c] + rest)[1..] == rest;
    PlainByte(c, rest, s.line.Text(), callback);
  }

  lemma PlainByte(c: char, rest: string, text: string, callback: Completer)
    requires '\0' !in [c] + rest && !IsSpecial(c as int) && !(c as int == 4 && text == "")
    ensures NextEvent([c] + rest, text, callback) == Do(KeyOf(c), 1)
    ensures !KeyOf(c).KeyOlder? && !KeyOf(c).KeyNewer?
  {
  }

  ghost predicate IsText(w: string) {
    forall c <- w :: 32 <= c as int <= 126
  }

  /** Typed text lands before the cursor. */
  lemma {:induction false} TypedText(s: Session, w: string, rest: string, callback: Completer, capacity: nat)
    requires SessionOk(s, capacity) && capacity >= 1 && '\0' !in rest && IsText(w)
    requires |s.line.Text()| + |w| <= capacity
    ensures '\0' !in w + rest
    ensures var next := s.(line := Line(s.line.before + w, s.line.after));
            && SessionOk(next, capacity)
            && Serve(s, w + rest, callback, capacity) == Serve(next, rest, callback, capacity)
    decreases |w|
  {
    hide Serve; hide Effect; hide SessionOk;
    assert '\0' !in w;
    if w == "" {
      assert w + rest == rest && s.line.before + w == s.line.before;
    } else {
      assert w[0] in w && forall c <- w[1..] :: c in w;
      assert w + rest == [w[0]] + (w[1..] + rest);
      ByteIsServed(s, w[0], w[1..] + rest, callback, capacity);
      TypedStep(s.line, w[0], capacity);
      var next := s.(line := Line(s.line.before + [w[0]], s.line.after));
      TypedText(next, w[1..], rest, callback, capacity);
      assert s.line.before + [w[0]] + w[1..] == s.line.before + w;
    }
  }

  lemma TypedStep(l: Line, c: char, capacity: nat)
    requires 32 <= c as int <= 126 && |l.Text()| < capacity
    ensures Effect(l.Text(), Pos(l), c, capacity) == Line(l.before + [c], l.after)
  {
    var text, pos := l.Text(), Pos(l);
    assert text[..pos] == l.before && text[pos..] == l.after;
    var t := text[..pos] + [c] + text[pos..];
    assert t[..pos + 1] == l.before + [c] && t[pos + 1..] == l.after;
  }

  /** After typed text and Ctrl-B the next character lands before the last one; Enter takes the line as it is. */
  lemma TypedBeforeLast(entries: seq<CharString>, maxLen: nat, w: string, c: char, callback: Completer, capacity: nat)
    requires maxLen >= 1 && IsText(w) && w != "" && 32 <= c as int <= 126 && |w| < capacity
    ensures var input := w + ([2 as char] + ([c] + [13 as char]));
            && '\0' !in input
            && var (last, how) := Serve(Fresh(entries, maxLen), input, callback, capacity);
               how == Entered && last.line.Text() == w[..|w| - 1] + [c] + [w[|w| - 1]]
  {
    hide Serve; hide Effect; hide SessionOk;
    var s := Fresh(entries, maxLen);
    var n := |w| - 1;
    var enter := [13 as char];
    FreshIsOk(entries, maxLen, capacity);
    TypedText(s, w, [2 as char] + ([c] + enter), callback, capacity);
    var typed := s.(line := Line(w, ""));
    assert s.line.before + w == w;
    ByteIsServed(typed, 2 as char, [c] + enter, callback, capacity);
    BackOne(w, capacity);
    var back := s.(line := Line(w[..n], [w[n]]));
    ByteIsServed(back, c, enter, callback, capacity);
    TypedStep(back.line, c, capacity);
    var done := s.(line := Line(w[..n] + [c], [w[n]]));
    ServeUnfolds(done, enter, callback, capacity);
    assert NextEvent(enter, done.line.Text(), callback) == Stop(Entered);
  }

  lemma FreshIsOk(entries: seq<CharString>, maxLen: nat, capacity: nat)
    requires maxLen >= 1
    ensures SessionOk(Fresh(entries, maxLen), capacity)
  {
  }

  lemma BackOne(w: string, capacity: nat)
    requires w != ""
    ensures Line(w, "").Text() == w && Line(w[..|w| - 1], [w[|w| - 1]]).Text() == w
    ensures Effect(w, |w|, 2 as char, capacity) == Line(w[..|w| - 1], [w[|w| - 1]])
  {
    assert w + "" == w && w[..|w| - 1] + [w[|w| - 1]] == w && w[|w| - 1..] == [w[|w| - 1]];
  }

  // ------------------------------------------------------------------ escape sequences and history

  lemma EscapeEvent(second: char, third: char, rest: string, text: string, callback: Completer)
    requires '\0' !in [27 as char, second, third] + rest && !(second == '[' && '0' <= third <= '9')
    ensures NextEvent([27 as char, second, third] + rest, text, callback) ==
            match EscapeKey(second, third, third)
            case None => Ignore(3)
            case Some(key) => Do(key, 3)
    ensures ([27 as char, second, third] + rest)[3..] == rest
  {
    hide EscapeKey;
    var input := [27 as char, second, third] + rest;
    assert input[1] == second && input[2] == third;
  }

  /** The byte with the same meaning as Escape, `second`, `third`; 0 if there is none. */
  ghost function SameAs(second: int, third: int): (c: int) {
    if second == 91 then
      (match third
       case 65 => 16
       case 66 => 14
       case 67 => 6
       case 68 => 2
       case 72 => 1
       case 70 => 5
       case _ => 0)
    else if second == 79 then (match third case 72 => 1 case 70 => 5 case _ => 0)
    else 0
  }

  /** Arrow, home and end keys send sequences that act as control bytes; other sequences of three bytes do nothing. */
  lemma EscapeIsServed(s: Session, second: char, third: char, rest: string, callback: Completer, capacity: nat)
    requires SessionOk(s, capacity) && capacity >= 1 && '\0' !in [27 as char, second, third] + rest
    requires !(second == '[' && '0' <= third <= '9')
    ensures var c := SameAs(second as int, third as int);
            Serve(s, [27 as char, second, third] + rest, callback, capacity) ==
            if c == 0 then Serve(s, rest, callback, capacity) else Serve(s, [c as char] + rest, callback, capacity)
  {
    hide Serve; hide Press; hide SessionOk; hide NextEvent;
    var input, c := [27 as char, second, third] + rest, SameAs(second as int, third as int);
    EscapeEvent(second, third, rest, s.line.Text(), callback);
    ServeUnfolds(s, input, callback, capacity);
    if c != 0 {
      ServeUnfolds(s, [c as char] + rest, callback, capacity);
      assert ([c as char] + rest)[1..] == rest;
      ControlEvent(c, rest, s.line.Text(), callback);
    }
  }

  lemma ControlEvent(c: int, rest: string, text: string, callback: Completer)
    requires c in {1, 2, 5, 6, 14, 16} && '\0' !in rest
    ensures NextEvent([c as char] + rest, text, callback) == Do(KeyOf(c as char), 1)
  {
  }

  /** Escape, bracket, 3, tilde removes the character at the cursor; any other digit or end does nothing. */
  lemma DeleteIsServed(s: Session, digit: char, end: char, rest: string, callback: Completer, capacity: nat)
    requires SessionOk(s, capacity) && capacity >= 1 && '0' <= digit <= '9'
    requires '\0' !in [27 as char, '[', digit, end] + rest
    ensures var next := s.(line := Effect(s.line.Text(), Pos(s.line), 4 as char, capacity));
            && SessionOk(next, capacity)
            && Serve(s, [27 as char, '[', digit, end] + rest, callback, capacity) ==
                 Serve(if digit == '3' && end == '~' then next else s, rest, callback, capacity)
  {
    hide Serve;
    var input := [27 as char, '[', digit, end] + rest;
    assert input[1] == '[' && input[2] == digit && input[3] == end && input[4..] == rest;
    ServeUnfolds(s, input, callback, capacity);
    DeleteAt(s.line);
    LineIsAt(s.line);
    PressKeepsOk(s, KeyDelete, capacity);
  }

  /** Ctrl-P saves the line and shows the entry before it, Ctrl-N the one after it, with the cursor at the end. */
  lemma HistoryIsServed(s: Session, older: bool, rest: string, callback: Completer, capacity: nat)
    requires SessionOk(s, capacity) && capacity >= 1 && '\0' !in rest
    requires var k := if older then s.index + 1 else s.index - 1; 0 <= k < |s.entries|
    ensures var n, k := |s.entries|, if older then s.index + 1 else s.index - 1;
            var shown := s.entries[n - 1 - k];
            var kept := if |shown| < capacity then shown else shown[..capacity - 1];
            var next := Session(Line(kept, ""), s.entries[n - 1 - s.index := s.line.Text()], k);
            && SessionOk(next, capacity)
            && Serve(s, [if older then 16 as char else 14 as char] + rest, callback, capacity) ==
                 Serve(next, rest, callback, capacity)
  {
    hide Serve; hide NextEvent;
    var c := if older then 16 as char else 14 as char;
    ServeUnfolds(s, [c] + rest, callback, capacity);
    assert ([c] + rest)[1..] == rest;
    ControlEvent(c as int, rest, s.line.Text(), callback);
  }

  /** Enter, Ctrl-C, and Ctrl-D on an empty line end the session with the line as it is. */
  lemma EndsAreServed(s: Session, rest: string, callback: Completer, capacity: nat)
    requires SessionOk(s, capacity) && capacity >= 1 && '\0' !in rest
    ensures Serve(s, [13 as char] + rest, callback, capacity) == (s, Entered)
    ensures Serve(s, [3 as char] + rest, callback, capacity) == (s, Interrupted)
    ensures s.line.Text() == "" ==> Serve(s, [4 as char] + rest, callback, capacity) == (s, EndOfFile)
  {
    ServeUnfolds(s, [13 as char] + rest, callback, capacity);
    ServeUnfolds(s, [3 as char] + rest, callback, capacity);
    ServeUnfolds(s, [4 as char] + rest, callback, capacity);
    hide Serve;
  }

  // ------------------------------------------------------------------ completions

  function Tabs(k: nat): (s: string)
    ensures |s| == k && forall i :: 0 <= i < k ==> s[i] as int == 9
  {
    seq(k, _ => 9 as char)
  }

  /** A tab shows the first completion, each further one the next, then the line itself, and so round again; a character
      accepts what is shown and is typed behind it. */
  lemma CompletionIsServed(s: Session, k: nat, c: char, rest: string, callback: Completer, capacity: nat)
    requires SessionOk(s, capacity) && capacity >= 1 && '\0' !in rest && callback.Some?
    requires 32 <= c as int <= 126 && callback.value(s.line.Text()) != []
    ensures var offered := callback.value(s.line.Text());
            var shown := k % (|offered| + 1);
            var end := Serve(s, Tabs(k + 1) + ([c] + rest), callback, capacity);
            if shown == |offered| then end == Serve(s, [c] + rest, callback, capacity)
            else if |offered[shown]| >= capacity then end == (s, Overflowed)
            else
              && SessionOk(s.(line := Line(offered[shown], "")), capacity)
              && end == Serve(s.(line := Line(offered[shown], "")), [c] + rest, callback, capacity)
  {
    hide Serve; hide SessionOk;
    var input := Tabs(k + 1) + ([c] + rest);
    TabUnfolds(s, input, callback, capacity);
    var more := input[1..];
    assert more == Tabs(k) + ([c] + rest) && more[k] == c && more[k..] == [c] + rest;
    TabRunIs(more, k);
  }
}
