/** The line editor of linenoise: an array buffer that refines a cursor in a string. */
module LineEdit {
  import opened Bytes
  import opened Division
  import opened LineHistory

  // ------------------------------------------------------------------ a cursor in a string

  /** The text before and after the cursor. */
  datatype Line = Line(before: string, after: string) {
    function Text(): string {
      before + after
    }
  }

  function Insert(l: Line, c: char, capacity: nat): Line {
    if |l.before| + |l.after| < capacity then Line(l.before + [c], l.after) else l
  }

  function Left(l: Line): Line {
    if l.before == "" then l
    else Line(l.before[..|l.before| - 1], [l.before[|l.before| - 1]] + l.after)
  }

  function Right(l: Line): Line {
    if l.after == "" then l else Line(l.before + [l.after[0]], l.after[1..])
  }

  function Delete(l: Line): Line {
    if l.after == "" then l else Line(l.before, l.after[1..])
  }

  function Backspace(l: Line): Line {
    if l.before == "" then l else Line(l.before[..|l.before| - 1], l.after)
  }

  /** Exchanges the characters around the cursor and steps over them, unless the second one is the last. */
  function Transpose(l: Line): Line {
    if l.before == "" || l.after == "" then l
    else
      var front, a, b := l.before[..|l.before| - 1], l.before[|l.before| - 1], l.after[0];
      if |l.after| == 1 then Line(front + [b], [a]) else Line(front + [b, a], l.after[1..])
  }

  function DropSpaces(s: string): string {
    if s != "" && s[|s| - 1] == ' ' then DropSpaces(s[..|s| - 1]) else s
  }

  function DropWord(s: string): string {
    if s != "" && s[|s| - 1] != ' ' then DropWord(s[..|s| - 1]) else s
  }

  function DeletePrevWord(l: Line): Line {
    Line(DropWord(DropSpaces(l.before)), l.after)
  }

  // ------------------------------------------------------------------ a session

  /** The line being edited, the history and the entry shown, counted from the last. */
  datatype Session = Session(line: Line, entries: seq<CharString>, index: int)

  /** What a history line looks like in the buffer: the last cell of the buffer is never used for it. */
  function Recalled(s: string, capacity: nat): string
    requires capacity >= 1
  {
    if |s| < capacity then s else s[..capacity - 1]
  }

  ghost predicate SessionOk(s: Session, capacity: nat) {
    && |s.line.before| + |s.line.after| <= capacity
    && '\0' !in s.line.before && '\0' !in s.line.after
    && 0 <= s.index < |s.entries|
  }

  /** Saves the line into its entry and shows the entry before or after it, if there is one. */
  ghost function Recall(s: Session, older: bool, capacity: nat): (r: Session)
    requires SessionOk(s, capacity) && capacity >= 1
  {
    var n := |s.entries|;
    if n <= 1 then s
    else
      var saved := s.entries[n - 1 - s.index := s.line.Text()];
      var index := s.index + if older then 1 else -1;
      if index < 0 || index >= n then s.(entries := saved)
      else Session(Line(Recalled(saved[n - 1 - index], capacity), ""), saved, index)
  }

  datatype Key =
    | Type(c: char)
    | KeyBackspace | KeyDelete | KeyTranspose
    | KeyLeft | KeyRight | KeyHome | KeyEnd
    | KeyOlder | KeyNewer
    | KeyClearLine | KeyClearToEnd | KeyDeleteWord
    | KeyRefresh

  /** What a key does to the line; the history keys are not among these. */
  function EditKey(l: Line, key: Key, capacity: nat): (r: Line) {
    match key
    case Type(c) => Insert(l, c, capacity)
    case KeyBackspace => Backspace(l)
    case KeyDelete => Delete(l)
    case KeyTranspose => Transpose(l)
    case KeyLeft => Left(l)
    case KeyRight => Right(l)
    case KeyHome => Line("", l.Text())
    case KeyEnd => Line(l.Text(), "")
    case KeyClearLine => Line("", "")
    case KeyClearToEnd => Line(l.before, "")
    case KeyDeleteWord => DeletePrevWord(l)
    case _ => l
  }

  ghost function Press(s: Session, key: Key, capacity: nat): (r: Session)
    requires SessionOk(s, capacity) && capacity >= 1
  {
    if key.KeyOlder? || key.KeyNewer? then Recall(s, key.KeyOlder?, capacity)
    else s.(line := EditKey(s.line, key, capacity))
  }

  ghost predicate Typable(key: Key) {
    key.Type? ==> key.c != '\0'
  }

  lemma DropSpacesPrefix(s: string)
    ensures DropSpaces(s) <= s
  {
  }

  lemma DropWordPrefix(s: string)
    ensures DropWord(s) <= s
  {
  }

  lemma PressKeepsOk(s: Session, key: Key, capacity: nat)
    requires SessionOk(s, capacity) && capacity >= 1 && Typable(key)
    ensures SessionOk(Press(s, key, capacity), capacity)
  {
    DropSpacesPrefix(s.line.before);
    DropWordPrefix(DropSpaces(s.line.before));
  }

  /** Going to the older entry and back shows the line again, but without its last character if it filled the
      buffer. */
  lemma OlderThenNewer(s: Session, capacity: nat)
    requires SessionOk(s, capacity) && capacity >= 1 && s.index + 1 < |s.entries|
    ensures var up := Recall(s, true, capacity);
            && SessionOk(up, capacity)
            && var back := Recall(up, false, capacity);
               && back.index == s.index
               && (back.line.Text() == s.line.Text() <==> |s.line.Text()| < capacity)
               && (|s.line.Text()| == capacity ==> back.line.Text() == s.line.Text()[..capacity - 1])
               && back.entries[|s.entries| - 1 - s.index] == s.line.Text()
  {
    PressKeepsOk(s, KeyOlder, capacity);
    var up := Recall(s, true, capacity);
    assert up.line.Text() == up.line.before;
    var back := Recall(up, false, capacity);
    assert back.line.Text() == back.line.before;
  }

  // ------------------------------------------------------------------ the keys

  /** The key that a byte stands for; Enter, Ctrl-C, Tab and Escape are handled apart. */
  function KeyOf(c: char): Key {
    match c as int
    case 127 => KeyBackspace
    case 8 => KeyBackspace
    case 4 => KeyDelete
    case 20 => KeyTranspose
    case 2 => KeyLeft
    case 6 => KeyRight
    case 16 => KeyOlder
    case 14 => KeyNewer
    case 21 => KeyClearLine
    case 11 => KeyClearToEnd
    case 1 => KeyHome
    case 5 => KeyEnd
    case 12 => KeyRefresh
    case 23 => KeyDeleteWord
    case _ => Type(c)
  }

  /** The key that an escape sequence stands for, if any; `third` is read only after a digit. */
  function EscapeKey(first: char, second: char, third: char): Option<Key> {
    if first == '[' then
      if '0' <= second <= '9' then (if third == '~' && second == '3' then Some(KeyDelete) else None)
      else
        match second
        case 'A' => Some(KeyOlder)
        case 'B' => Some(KeyNewer)
        case 'C' => Some(KeyRight)
        case 'D' => Some(KeyLeft)
        case 'H' => Some(KeyHome)
        case 'F' => Some(KeyEnd)
        case _ => None
    else if first == 'O' then
      match second
      case 'H' => Some(KeyHome)
      case 'F' => Some(KeyEnd)
      case _ => None
    else None
  }

  /** How a session ends. A byte above 127 is a negative char; accepting a completion that does not fit leaves a length
      beyond the buffer, from where on nothing is modelled. */
  datatype Outcome = Entered | Interrupted | EndOfFile | InputEnds | NegativeChar | Overflowed

  /** The completions offered for a line, if a callback is set. */
  type Completer = Option<string -> seq<CharString>>

  function EscapeLength(input: string): nat
    requires |input| >= 3
  {
    if input[1] == '[' && '0' <= input[2] <= '9' then 4 else 3
  }

  /** What the next bytes of the input ask for; `read` of them are used up. */
  datatype Event =
    | Stop(how: Outcome)
    | Do(key: Key, read: nat)
    | Ignore(read: nat)
    | Accept(text: CharString, read: nat, last: bool)

  function TabRun(input: string): (n: nat)
    ensures n <= |input| && (forall k :: 0 <= k < n ==> input[k] as int == 9) && (n < |input| ==> input[n] as int != 9)
  {
    if input != "" && input[0] as int == 9 then 1 + TabRun(input[1..]) else 0
  }

  /** The completion that is accepted by what follows the first tab. The tabs go round a cycle whose extra place is the
      line itself; Escape accepts nothing. */
  function Choice(completions: seq<CharString>, input: string): (r: Option<CharString>)
    ensures completions == [] || TabRun(input) == |input| ==> r.None?
  {
    var tabs := TabRun(input);
    if completions == [] || tabs == |input| || input[tabs] as int == 27 then None
    else
      var shown := tabs % (|completions| + 1);
      if shown == |completions| then None else Some(completions[shown])
  }

  /** A tab with a callback; the byte that ends the choice is served next, unless it is a negative char. */
  function TabEvent(input: string, completions: seq<CharString>): (e: Event)
    requires input != ""
    ensures !e.Stop? ==> 1 <= e.read <= |input|
    ensures !e.Do?
  {
    if completions == [] then Ignore(1)
    else
      var tabs, choice := TabRun(input[1..]), Choice(completions, input[1..]);
      if 1 + tabs == |input| then Stop(InputEnds)
      else if choice.Some? then Accept(choice.value, 1 + tabs, input[1 + tabs] as int > 127)
      else if input[1 + tabs] as int > 127 then Stop(NegativeChar)
      else Ignore(1 + tabs)
  }

  /** The switch of linenoiseEdit. */
  function KeyEvent(input: string, lineEmpty: bool): (e: Event)
    requires input != "" && '\0' !in input
    ensures !e.Stop? ==> 1 <= e.read <= |input|
    ensures e.Do? ==> Typable(e.key)
    ensures !e.Accept? && (e.Stop? ==> !e.how.Overflowed?)
  {
    var c := input[0] as int;
    if c == 13 then Stop(Entered)
    else if c == 3 then Stop(Interrupted)
    else if c == 4 && lineEmpty then Stop(EndOfFile)
    else if c == 27 then
      if |input| < 3 || |input| < EscapeLength(input) then Stop(InputEnds)
      else
        var n := EscapeLength(input);
        match EscapeKey(input[1], input[2], input[n - 1])
        case None => Ignore(n)
        case Some(key) => Do(key, n)
    else Do(KeyOf(input[0]), 1)
  }

  function NextEvent(input: string, text: string, callback: Completer): (e: Event)
    requires input != "" && '\0' !in input
    ensures !e.Stop? ==> 1 <= e.read <= |input|
    ensures e.Do? ==> Typable(e.key)
  {
    if input[0] as int == 9 && callback.Some? then TabEvent(input, callback.value(text))
    else KeyEvent(input, text == "")
  }

  /** What a whole input does to a session: keys one after the other until one ends it. */
  ghost function Serve(s: Session, input: string, callback: Completer, capacity: nat): (r: (Session, Outcome))
    requires SessionOk(s, capacity) && capacity >= 1 && '\0' !in input
    ensures SessionOk(r.0, capacity)
    decreases |input|
  {
    if input == "" then (s, InputEnds)
    else
      match NextEvent(input, s.line.Text(), callback)
      case Stop(how) => (s, how)
      case Ignore(n) => Serve(s, input[n..], callback, capacity)
      case Do(key, n) =>
        PressKeepsOk(s, key, capacity);
        Serve(Press(s, key, capacity), input[n..], callback, capacity)
      case Accept(text, n, last) =>
        var s' := s.(line := Line(text, ""));
        if |text| >= capacity then (s, Overflowed)
        else if last then (s', NegativeChar)
        else Serve(s', input[n..], callback, capacity)
  }

  lemma ServeUnfolds(s: Session, input: string, callback: Completer, capacity: nat)
    requires SessionOk(s, capacity) && capacity >= 1 && '\0' !in input
    ensures input == "" ==> Serve(s, input, callback, capacity) == (s, InputEnds)
    ensures input != "" ==>
              var e := NextEvent(input, s.line.Text(), callback);
              && (e.Stop? ==> Serve(s, input, callback, capacity) == (s, e.how))
              && (e.Ignore? ==> Serve(s, input, callback, capacity) == Serve(s, input[e.read..], callback, capacity))
              && (e.Do? ==>
                    && SessionOk(Press(s, e.key, capacity), capacity)
                    && Serve(s, input, callback, capacity) ==
                         Serve(Press(s, e.key, capacity), input[e.read..], callback, capacity))
              && (e.Accept? ==>
                    var s' := s.(line := Line(e.text, ""));
                    if |e.text| >= capacity then Serve(s, input, callback, capacity) == (s, Overflowed)
                    else
                      && SessionOk(s', capacity)
                      && Serve(s, input, callback, capacity) ==
                           if e.last then (s', NegativeChar) else Serve(s', input[e.read..], callback, capacity))
  {
    hide Press; hide NextEvent;
    if input != "" {
      var e := NextEvent(input, s.line.Text(), callback);
      if e.Do? {
        PressKeepsOk(s, e.key, capacity);
      }
    }
  }

  /** A tab while a callback is set, in terms of the run of tabs and the choice they make. */
  lemma TabUnfolds(s: Session, input: string, callback: Completer, capacity: nat)
    requires SessionOk(s, capacity) && capacity >= 1 && '\0' !in input
    requires input != "" && input[0] as int == 9 && callback.Some?
    ensures var completions, rest := callback.value(s.line.Text()), input[1..];
            var tabs, choice := TabRun(rest), Choice(completions, rest);
            var end := Serve(s, input, callback, capacity);
            if completions == [] then end == Serve(s, rest, callback, capacity)
            else if tabs == |rest| then end == (s, InputEnds)
            else if choice.Some? && |choice.value| >= capacity then end == (s, Overflowed)
            else
              var s' := if choice.None? then s else s.(line := Line(choice.value, ""));
              && SessionOk(s', capacity)
              && end == if rest[tabs] as int > 127 then (s', NegativeChar)
                        else Serve(s', rest[tabs..], callback, capacity)
  {
    hide Serve; hide Choice; hide TabRun; hide KeyEvent; hide Press;
    ServeUnfolds(s, input, callback, capacity);
    var tabs := TabRun(input[1..]);
    assert input[1..][tabs..] == input[1 + tabs..];
  }

  /** What is left in the history: Enter, and Ctrl-D on an empty line, take the line being edited out of it. */
  ghost function AfterSession(s: Session, how: Outcome): (entries: seq<CharString>) {
    if s.entries != [] && (how.Entered? || how.EndOfFile?) then s.entries[..|s.entries| - 1] else s.entries
  }

  // ------------------------------------------------------------------ what a session leaves in the history

  /** The keys that a whole input presses. */
  ghost function Pressed(s: Session, input: string, callback: Completer, capacity: nat): (keys: seq<Key>)
    requires SessionOk(s, capacity) && capacity >= 1 && '\0' !in input
    decreases |input|
  {
    if input == "" then []
    else
      match NextEvent(input, s.line.Text(), callback)
      case Stop(how) => []
      case Ignore(n) => Pressed(s, input[n..], callback, capacity)
      case Do(key, n) =>
        PressKeepsOk(s, key, capacity);
        [key] + Pressed(Press(s, key, capacity), input[n..], callback, capacity)
      case Accept(text, n, last) =>
        if |text| >= capacity || last then []
        else Pressed(s.(line := Line(text, "")), input[n..], callback, capacity)
  }

  ghost predicate NoHistoryKey(keys: seq<Key>) {
    KeyOlder !in keys && KeyNewer !in keys
  }

  /** Only the two history keys change the history while a line is edited. */
  lemma {:induction false} EntriesStay(s: Session, input: string, callback: Completer, capacity: nat)
    requires SessionOk(s, capacity) && capacity >= 1 && '\0' !in input
    requires NoHistoryKey(Pressed(s, input, callback, capacity))
    ensures Serve(s, input, callback, capacity).0.entries == s.entries
    decreases |input|
  {
    hide NextEvent; hide EditKey; hide Recall;
    if input == "" {
    } else {
      match NextEvent(input, s.line.Text(), callback)
      case Stop(_) =>
      case Ignore(n) => EntriesStay(s, input[n..], callback, capacity);
      case Do(key, n) =>
        PressKeepsOk(s, key, capacity);
        assert key in Pressed(s, input, callback, capacity);
        EntriesStay(Press(s, key, capacity), input[n..], callback, capacity);
      case Accept(text, n, last) =>
        if |text| < capacity && !last {
          EntriesStay(s.(line := Line(text, "")), input[n..], callback, capacity);
        }
    }
  }

  ghost function Fresh(entries: seq<CharString>, maxLen: nat): (s: Session)
    requires maxLen >= 1
  {
    Session(Line("", ""), Added(entries, maxLen, ""), 0)
  }

  /** Whatever is typed, a session without history keys leaves the history as it was exactly when: ended by Enter or by
      Ctrl-D on an empty line, there was room for one more line and the last line was not empty; ended otherwise, the
      last line was empty. */
  lemma SessionKeepsHistory(entries: seq<CharString>, maxLen: nat, input: CharString, callback: Completer, capacity: nat)
    requires maxLen >= 1 && |entries| <= maxLen && capacity >= 1
    requires NoHistoryKey(Pressed(Fresh(entries, maxLen), input, callback, capacity))
    ensures var (last, how) := Serve(Fresh(entries, maxLen), input, callback, capacity);
            AfterSession(last, how) == entries <==>
              if how.Entered? || how.EndOfFile? then |entries| < maxLen && !EndsEmpty(entries) else EndsEmpty(entries)
  {
    EntriesStay(Fresh(entries, maxLen), input, callback, capacity);
    AddedThenDropped(entries, maxLen);
    AddedNotDropped(entries, maxLen);
    hide Serve; hide Pressed; hide NoHistoryKey;
  }

  /** Enter on a full history loses its oldest line; Ctrl-C leaves an empty line behind. */
  lemma SessionsThatChangeHistory(callback: Completer, capacity: nat)
    requires capacity >= 1
    ensures var full := Serve(Fresh(["a"], 1), [13 as char], callback, capacity);
            full.1 == Entered && AfterSession(full.0, full.1) == []
    ensures var left := Serve(Fresh(["a"], 2), [3 as char], callback, capacity);
            left.1 == Interrupted && AfterSession(left.0, left.1) == ["a", ""]
  {
    assert Fresh(["a"], 1).entries == [""];
    assert Fresh(["a"], 2).entries == ["a", ""];
  }

  /** Each tab goes one step around a cycle of `n` places. */
  method SkipTabs(input: string, n: nat) returns (tabs: nat, i: nat)
    requires n > 0
    ensures tabs == TabRun(input) && i == tabs % n
  {
    tabs, i := 0, 0;
    while tabs < |input| && input[tabs] as int == 9
      invariant 0 <= tabs <= |input| && forall k :: 0 <= k < tabs ==> input[k] as int == 9
      invariant i == tabs % n
    {
      NextInCycle(tabs, n);
      i := (i + 1) % n;
      tabs := tabs + 1;
    }
    TabRunIs(input, tabs);
  }

  lemma TabRunIs(input: string, n: nat)
    requires n <= |input| && (forall k :: 0 <= k < n ==> input[k] as int == 9) && (n < |input| ==> input[n] as int != 9)
    ensures TabRun(input) == n
  {
  }

  // ------------------------------------------------------------------ the buffer

  class Editor {
    const buf: array<char>
    const buflen: nat
    const history: History
    var pos: nat
    var len: nat
    var historyIndex: int

    ghost predicate BufferOk()
      reads `pos, `len, buf
    {
      && buf.Length == buflen + 1 && buflen >= 1
      && pos <= len <= buflen && buf[len] == '\0'
      && forall i :: 0 <= i < len ==> buf[i] != '\0'
    }

    ghost predicate Valid()
      reads this, buf, history
    {
      BufferOk() && history.Valid() && 0 <= historyIndex < |history.entries|
    }

    ghost function Cursor(): (l: Line)
      requires BufferOk()
      reads `pos, `len, buf
    {
      Line(buf[..pos], buf[pos..len])
    }

    ghost function View(): (s: Session)
      requires Valid()
      reads this, buf, history
    {
      Session(Cursor(), history.entries, historyIndex)
    }

    /** A session starts with an empty line, which becomes the last history entry. */
    constructor (buf: array<char>, history: History)
      requires buf.Length >= 2 && history.Valid()
      modifies buf, history
      ensures this.buf == buf && this.history == history && buflen == buf.Length - 1
      ensures Valid() && history.maxLen == old(history.maxLen)
      ensures View() == Fresh(old(history.entries), history.maxLen)
    {
      this.buf, this.history, buflen := buf, history, buf.Length - 1;
      pos, len, historyIndex := 0, 0, 0;
      new;
      buf[0] := '\0';
      var _ := history.Add("");
    }

    /** memmove within the buffer. */
    method Move(to: nat, from: nat, n: nat)
      requires to + n <= buf.Length && from + n <= buf.Length
      modifies buf
      ensures forall i :: 0 <= i < buf.Length ==>
                buf[i] == if to <= i < to + n then old(buf[i - to + from]) else old(buf[i])
    {
      forall i | to <= i < to + n {
        buf[i] := buf[i - to + from];
      }
    }

    method EditInsert(c: char)
      requires BufferOk() && c != '\0'
      modifies `pos, `len, buf
      ensures BufferOk() && Cursor() == Insert(old(Cursor()), c, buflen)
    {
      if len < buflen {
        if len == pos {
          buf[pos] := c;
          pos := pos + 1;
          len := len + 1;
          buf[len] := '\0';
          assert buf[..pos] == old(buf[..pos]) + [c];
        } else {
          InsertInside(c);
        }
      }
    }

    method InsertInside(c: char)
      requires BufferOk() && c != '\0' && pos < len < buflen
      modifies `pos, `len, buf
      ensures BufferOk() && Cursor() == Line(old(Cursor()).before + [c], old(Cursor()).after)
    {
      MakeRoom(c);
      len := len + 1;
      pos := pos + 1;
      assert buf[..pos] == buf[..len][..pos] && buf[pos..len] == buf[..len][pos..];
      assert forall i :: 0 <= i < len ==> buf[i] == buf[..len][i];
    }

    /** Moves what stands from the cursor on and puts the character there. */
    method MakeRoom(c: char)
      requires BufferOk() && c != '\0' && pos < len < buflen
      modifies buf
      ensures buf[..len + 1] == old(buf[..pos]) + [c] + old(buf[pos..len]) && buf[len + 1] == '\0'
      ensures '\0' !in buf[..len + 1]
    {
      Move(pos + 1, pos, len - pos);
      buf[pos] := c;
      buf[len + 1] := '\0';
    }

    method EditMoveLeft()
      requires BufferOk()
      modifies `pos
      ensures BufferOk() && Cursor() == Left(old(Cursor()))
    {
      if pos > 0 {
        pos := pos - 1;
      }
    }

    method EditMoveRight()
      requires BufferOk()
      modifies `pos
      ensures BufferOk() && Cursor() == Right(old(Cursor()))
    {
      if pos != len {
        pos := pos + 1;
      }
    }

    method EditMoveHome()
      requires BufferOk()
      modifies `pos
      ensures BufferOk() && Cursor() == Line("", old(Cursor()).Text())
    {
      if pos != 0 {
        pos := 0;
      }
    }

    method EditMoveEnd()
      requires BufferOk()
      modifies `pos
      ensures BufferOk() && Cursor() == Line(old(Cursor()).Text(), "")
    {
      if pos != len {
        pos := len;
      }
    }

    method EditDelete()
      requires BufferOk()
      modifies `len, buf
      ensures BufferOk() && Cursor() == Delete(old(Cursor()))
    {
      if len > 0 && pos < len {
        Move(pos, pos + 1, len - pos - 1);
        len := len - 1;
        buf[len] := '\0';
        assert buf[..pos] == old(buf[..pos]);
        assert buf[pos..len] == old(buf[pos + 1..len]);
      }
    }

    method EditBackspace()
      requires BufferOk()
      modifies `pos, `len, buf
      ensures BufferOk() && Cursor() == Backspace(old(Cursor()))
    {
      if pos > 0 && len > 0 {
        DropBefore();
        pos := pos - 1;
        len := len - 1;
        assert buf[..pos] == buf[..len][..pos] && buf[pos..len] == buf[..len][pos..];
        assert forall i :: 0 <= i < len ==> buf[i] == buf[..len][i];
      }
    }

    /** Moves what stands from the cursor on over the character before it. */
    method DropBefore()
      requires BufferOk() && pos > 0
      modifies buf
      ensures buf[..len - 1] == old(buf[..pos - 1] + buf[pos..len]) && buf[len - 1] == '\0'
      ensures '\0' !in buf[..len - 1]
    {
      Move(pos - 1, pos, len - pos);
      buf[len - 1] := '\0';
    }

    method EditTranspose()
      requires BufferOk()
      modifies `pos, buf
      ensures BufferOk() && Cursor() == Transpose(old(Cursor()))
    {
      if pos > 0 && pos < len {
        var aux := buf[pos - 1];
        buf[pos - 1] := buf[pos];
        buf[pos] := aux;
        if pos != len - 1 {
          pos := pos + 1;
        }
      }
    }

    /** Moves back over spaces and then over the word before them. */
    method SkipWordBack()
      requires BufferOk()
      modifies `pos
      ensures BufferOk() && pos <= old(pos) && buf[..pos] == DropWord(DropSpaces(buf[..old(pos)]))
    {
      ghost var before := buf[..pos];
      while pos > 0 && buf[pos - 1] == ' '
        invariant 0 <= pos <= old(pos)
        invariant DropSpaces(buf[..pos]) == DropSpaces(before)
      {
        assert buf[..pos][..pos - 1] == buf[..pos - 1];
        pos := pos - 1;
      }
      assert DropSpaces(before) == buf[..pos];
      while pos > 0 && buf[pos - 1] != ' '
        invariant 0 <= pos <= old(pos)
        invariant DropWord(buf[..pos]) == DropWord(DropSpaces(before))
      {
        assert buf[..pos][..pos - 1] == buf[..pos - 1];
        pos := pos - 1;
      }
    }

    method EditDeletePrevWord()
      requires BufferOk()
      modifies `pos, `len, buf
      ensures BufferOk() && Cursor() == DeletePrevWord(old(Cursor()))
    {
      hide DropWord; hide DropSpaces;
      var oldPos := pos;
      SkipWordBack();
      CloseGap(oldPos);
    }

    /** Removes the characters from the cursor up to `end`. */
    method CloseGap(end: nat)
      requires BufferOk() && pos <= end <= len
      modifies `len, buf
      ensures BufferOk() && Cursor() == Line(old(buf[..pos]), old(buf[end..len]))
    {
      var diff := end - pos;
      ghost var was := buf[..];
      MoveTail(end);
      len := len - diff;
      assert was[..pos] == old(buf[..pos]) && was[end..len + diff] == old(buf[end..len]);
      assert buf[..pos] == buf[..len][..pos] && buf[pos..len] == buf[..len][pos..];
      assert forall i :: 0 <= i < len ==> buf[i] == buf[..len][i];
    }

    /** Moves what stands from `end` on, with its terminator, to the cursor. */
    method MoveTail(end: nat)
      requires BufferOk() && pos <= end <= len
      modifies buf
      ensures buf[..len - (end - pos)] == old(buf[..pos] + buf[end..len]) && buf[len - (end - pos)] == '\0'
      ensures '\0' !in buf[..len - (end - pos)]
    {
      ghost var was, n := buf[..], len - (end - pos);
      Move(pos, end, len - end + 1);
      assert buf[..n] == was[..pos] + was[end..len];
      assert was[..pos] == old(buf[..pos]) && was[end..len] == old(buf[end..len]);
    }

    /** Copies the text into the buffer, which keeps at most `size - 1` characters of it: strncpy or snprintf. */
    method Copy(text: CharString, size: nat) returns (n: nat)
      requires 1 <= size < buf.Length
      modifies buf
      ensures n == if |text| < size then |text| else size - 1
      ensures buf[..n] == text[..n] && buf[n] == '\0'
    {
      n := if |text| < size then |text| else size - 1;
      for i := 0 to n
        invariant buf[..i] == text[..i]
      {
        buf[i] := text[i];
      }
      buf[n] := '\0';
    }

    method EditHistoryNext(older: bool)
      requires Valid()
      modifies `pos, `len, `historyIndex, buf, history`entries
      ensures Valid() && View() == Recall(old(View()), older, buflen)
    {
      if |history.entries| > 1 {
        SaveLine();
        var index := historyIndex + if older then 1 else -1;
        if index < 0 || index >= |history.entries| {
          return;
        }
        ShowEntry(index);
      }
    }

    /** Puts the entry into the buffer, with the cursor behind it. */
    method ShowEntry(index: int)
      requires Valid() && 0 <= index < |history.entries|
      modifies `pos, `len, `historyIndex, buf
      ensures Valid() && historyIndex == index
      ensures Cursor() == Line(Recalled(history.entries[|history.entries| - 1 - index], buflen), "")
    {
      historyIndex := index;
      len := Copy(history.entries[|history.entries| - 1 - historyIndex], buflen);
      pos := len;
    }

    method SaveLine()
      requires Valid()
      modifies history`entries
      ensures Valid() && Cursor() == old(Cursor())
      ensures history.entries == old(history.entries)[|old(history.entries)| - 1 - historyIndex := Cursor().Text()]
    {
      history.entries := history.entries[|history.entries| - 1 - historyIndex := buf[..len]];
      assert buf[..len] == buf[..pos] + buf[pos..len];
    }

    lemma ViewOk()
      requires Valid()
      ensures SessionOk(View(), buflen) && buflen >= 1
    {
    }

    /** A key that acts on the line alone. */
    method PressEditKey(key: Key)
      requires BufferOk() && Typable(key)
      modifies `pos, `len, buf
      ensures BufferOk() && Cursor() == EditKey(old(Cursor()), key, buflen)
    {
      hide BufferOk; hide Cursor; hide Transpose; hide Left; hide Right; hide DeletePrevWord;
      hide Insert; hide Delete; hide Backspace;
      match key
      case Type(c) => EditInsert(c);
      case KeyBackspace => EditBackspace();
      case KeyDelete => EditDelete();
      case KeyTranspose => EditTranspose();
      case KeyLeft => EditMoveLeft();
      case KeyRight => EditMoveRight();
      case KeyHome => EditMoveHome();
      case KeyEnd => EditMoveEnd();
      case KeyClearLine => ClearLine();
      case KeyClearToEnd => ClearToEnd();
      case KeyDeleteWord => EditDeletePrevWord();
      case KeyOlder | KeyNewer | KeyRefresh =>
    }

    /** One key of the switch in linenoiseEdit. */
    method PressKey(key: Key)
      requires Valid() && Typable(key)
      modifies `pos, `len, `historyIndex, buf, history`entries
      ensures Valid()
      ensures SessionOk(old(View()), buflen) && View() == Press(old(View()), key, buflen)
    {
      hide BufferOk; hide Cursor; hide Recall; hide EditKey; hide SessionOk;
      ViewOk();
      match key
      case KeyOlder => EditHistoryNext(true);
      case KeyNewer => EditHistoryNext(false);
      case _ => PressEditKey(key);
    }

    method ClearLine()
      requires BufferOk()
      modifies `pos, `len, buf
      ensures BufferOk() && Cursor() == Line("", "")
    {
      buf[0] := '\0';
      pos, len := 0, 0;
    }

    method ClearToEnd()
      requires BufferOk()
      modifies `len, buf
      ensures BufferOk() && Cursor() == Line(old(Cursor()).before, "")
    {
      buf[pos] := '\0';
      len := pos;
    }

    /** `start` has been served up to `rest`, and the session goes on unless `stop`. */
    ghost predicate Reached(start: Session, input: string, callback: Completer, stop: bool, how: Outcome, rest: string)
      requires SessionOk(start, buflen) && buflen >= 1 && '\0' !in input && '\0' !in rest
      reads this, buf, history
    {
      var end := Serve(start, input, callback, buflen);
      && history.Valid() && 0 <= historyIndex < |history.entries|
      && if stop && how.Overflowed? then !BufferOk() && end.1 == how && end.0.entries == history.entries
         else
           && BufferOk() && SessionOk(View(), buflen)
           && end == if stop then (View(), how) else Serve(View(), rest, callback, buflen)
    }

    /** A tab while a callback is set. The byte that ends the choice is left for the next turn. */
    method AdvanceTab(input: CharString, callback: Completer) returns (stop: bool, how: Outcome, read: nat)
      requires Valid() && input != "" && input[0] as int == 9 && callback.Some?
      modifies `pos, `len, buf
      ensures SessionOk(old(View()), buflen) && buflen >= 1 && 0 < read <= |input|
      ensures Reached(old(View()), input, callback, stop, how, input[read..])
    {
      hide Serve; hide SessionOk; hide Choice; hide TabRun; hide BufferOk; hide Cursor;
      ViewOk();
      LineText();
      TabUnfolds(View(), input, callback, buflen);
      var last, more, chosen := CompleteLine(callback.value(buf[..len]), input[1..]);
      ghost var rest := input[1..];
      if last.None? {
        return true, InputEnds, 1 + more;
      }
      assert more > 0 ==> last.value == input[more];
      if last.value == '\0' {
        return false, InputEnds, 1;
      }
      assert rest[more - 1..] == input[more..];
      if chosen.Some? && |chosen.value| >= buflen {
        return true, Overflowed, more;
      }
      if last.value as int > 127 {
        return true, NegativeChar, more;
      }
      return false, InputEnds, more;
    }

    /** One turn of the loop in linenoiseEdit. */
    method Advance(input: CharString, callback: Completer) returns (stop: bool, how: Outcome, read: nat)
      requires Valid()
      modifies `pos, `len, `historyIndex, buf, history`entries
      ensures SessionOk(old(View()), buflen) && buflen >= 1 && read <= |input| && (!stop ==> read > 0)
      ensures Reached(old(View()), input, callback, stop, how, input[read..])
    {
      hide Serve; hide SessionOk; hide KeyEvent; hide TabEvent; hide BufferOk; hide Cursor; hide Press;
      ViewOk();
      LineText();
      ServeUnfolds(View(), input, callback, buflen);
      if input == "" {
        return true, InputEnds, 0;
      }
      if input[0] as int == 9 && callback.Some? {
        stop, how, read := AdvanceTab(input, callback);
        return;
      }
      assert buf[..len] == "" <==> len == 0;
      var event := KeyEvent(input, len == 0);
      if event.Stop? {
        return true, event.how, 0;
      }
      if event.Do? {
        PressKey(event.key);
        ViewOk();
      }
      return false, InputEnds, event.read;
    }

    /** linenoiseEdit: the keys of the input until one ends the session. Enter, and Ctrl-D on an empty line, take the
        line being edited out of the history. */
    method EditLine(input: CharString, callback: Completer) returns (outcome: Outcome)
      requires Valid()
      modifies `pos, `len, `historyIndex, buf, history`entries
      ensures history.Valid() && SessionOk(old(View()), buflen)
      ensures var (last, how) := Serve(old(View()), input, callback, buflen);
              && outcome == how && history.entries == AfterSession(last, how)
              && (BufferOk() <==> !how.Overflowed?)
              && (BufferOk() ==> Cursor() == last.line)
    {
      hide Serve; hide SessionOk; hide BufferOk; hide Cursor;
      ViewOk();
      ghost var start := View();
      var rest: CharString := input;
      var stop := false;
      outcome := InputEnds;
      while !stop
        invariant Reached(start, input, callback, stop, outcome, rest)
        decreases !stop, |rest|
      {
        var read;
        stop, outcome, read := Advance(rest, callback);
        rest := rest[read..];
      }
      Finish(outcome);
    }

    /** Enter, and Ctrl-D on an empty line, take the line being edited out of the history. */
    method Finish(how: Outcome)
      requires history.Valid() && history.entries != []
      modifies history`entries
      ensures history.Valid()
      ensures history.entries == if how.Entered? || how.EndOfFile? then old(history.entries)[..|old(history.entries)| - 1]
                                 else old(history.entries)
    {
      if how.Entered? || how.EndOfFile? {
        history.Pop();
      }
    }

    /** snprintf of a completion: the length is that of the completion even where the buffer holds less of it. */
    method AcceptCompletion(text: CharString)
      requires BufferOk()
      modifies `pos, `len, buf
      ensures BufferOk() <==> |text| < buflen
      ensures |text| < buflen ==> Cursor() == Line(text, "")
    {
      var n := Copy(text, buflen);
      len, pos := |text|, |text|;
      assert |text| < buflen ==> buf[..n] == text;
      assert |text| >= buflen ==> n < len && buf[n] == '\0';
    }

    /** completeLine: goes round the completions with each tab until another key accepts the one shown or Escape
        refuses it. Returns the last byte read, if any, and the completion accepted. */
    method CompleteLine(completions: seq<CharString>, input: CharString)
      returns (last: Option<char>, read: nat, chosen: Option<CharString>)
      requires BufferOk()
      modifies `pos, `len, buf
      ensures chosen == Choice(completions, input)
      ensures completions == [] ==> last == Some('\0') && read == 0
      ensures completions != [] ==>
                var tabs := TabRun(input);
                if tabs == |input| then last.None? && read == tabs else last == Some(input[tabs]) && read == tabs + 1
      ensures BufferOk() <==> chosen.None? || |chosen.value| < buflen
      ensures BufferOk() ==> Cursor() == if chosen.None? then old(Cursor()) else Line(chosen.value, "")
    {
      if |completions| == 0 {
        return Some('\0'), 0, None;
      }
      var i;
      read, i := SkipTabs(input, |completions| + 1);
      if read == |input| {
        return None, read, None;
      }
      if input[read] as int != 27 && i < |completions| {
        AcceptCompletion(completions[i]);
        return Some(input[read]), read + 1, Some(completions[i]);
      }
      return Some(input[read]), read + 1, None;
    }

    lemma LineText()
      requires Valid()
      ensures len < buf.Length && View().line.Text() == buf[..len]
    {
    }
  }

  /** linenoiseEdit from its first line: a session on a buffer and a history. */
  method ReadLine(buf: array<char>, history: History, input: CharString, callback: Completer) returns (outcome: Outcome)
    requires buf.Length >= 2 && history.Valid()
    modifies buf, history
    ensures history.Valid() && history.maxLen == old(history.maxLen)
    ensures var entries, maxLen, capacity := old(history.entries), old(history.maxLen), buf.Length - 1;
            var (last, how) := Serve(Fresh(entries, maxLen), input, callback, capacity);
            && outcome == how && history.entries == AfterSession(last, how)
            && (NoHistoryKey(Pressed(Fresh(entries, maxLen), input, callback, capacity)) ==>
                  (history.entries == entries <==>
                     if how.Entered? || how.EndOfFile? then |entries| < maxLen && !EndsEmpty(entries)
                     else EndsEmpty(entries)))
  {
    hide Serve; hide Pressed; hide NoHistoryKey; hide AfterSession; hide EndsEmpty;
    ghost var entries, maxLen := history.entries, history.maxLen;
    var editor := new Editor(buf, history);
    outcome := editor.EditLine(input, callback);
    if NoHistoryKey(Pressed(Fresh(entries, maxLen), input, callback, buf.Length - 1)) {
      SessionKeepsHistory(entries, maxLen, input, callback, buf.Length - 1);
    }
  }
}
