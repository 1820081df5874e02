/** The command history of linenoise. */
module LineHistory {
  import opened Bytes

  /** `xs` is the end of `ys`. */
  ghost predicate IsSuffix<T>(xs: seq<T>, ys: seq<T>) {
    |xs| <= |ys| && xs == ys[|ys| - |xs|..]
  }

  /** Every line ever added, without immediate repetitions. */
  ghost function Logged(log: seq<CharString>, line: CharString): (r: seq<CharString>) {
    if log != [] && log[|log| - 1] == line then log else log + [line]
  }

  function LastOnes<T>(xs: seq<T>, n: nat): (r: seq<T>) {
    if |xs| <= n then xs else xs[|xs| - n..]
  }

  /** The history after a line was added. */
  function Added(entries: seq<CharString>, maxLen: nat, line: CharString): (r: seq<CharString>)
    requires maxLen >= 1
  {
    if entries != [] && entries[|entries| - 1] == line then entries else LastOnes(entries + [line], maxLen)
  }

  class History {
    var entries: seq<CharString>
    var maxLen: nat

    ghost predicate Valid()
      reads this
    {
      maxLen >= 1 && |entries| <= maxLen
    }

    constructor ()
      ensures Valid() && entries == [] && maxLen == 100
    {
      entries, maxLen := [], 100;
    }

    /** linenoiseHistoryAdd. */
    method Add(line: CharString) returns (added: bool)
      requires Valid()
      modifies this
      ensures Valid() && maxLen == old(maxLen)
      ensures entries == Added(old(entries), maxLen, line)
      ensures added <==> !(old(entries) != [] && old(entries)[|old(entries)| - 1] == line)
    {
      if |entries| > 0 && entries[|entries| - 1] == line {
        return false;
      }
      ghost var all := entries + [line];
      if |entries| == maxLen {
        assert all[|all| - maxLen..] == entries[1..] + [line];
        entries := entries[1..];
      }
      entries := entries + [line];
      return true;
    }

    /** linenoiseHistorySetMaxLen. */
    method SetMaxLen(len: int) returns (ok: bool)
      requires Valid()
      modifies this
      ensures Valid() && (ok <==> len >= 1)
      ensures ok ==> maxLen == len && entries == LastOnes(old(entries), len)
      ensures !ok ==> maxLen == old(maxLen) && entries == old(entries)
    {
      if len < 1 {
        return false;
      }
      var toCopy := |entries|;
      if len < toCopy {
        toCopy := len;
      }
      entries := entries[|entries| - toCopy..];
      maxLen := len;
      return true;
    }

    /** The end of a session: the line being edited leaves the history. */
    method Pop()
      requires Valid() && entries != []
      modifies `entries
      ensures Valid() && entries == old(entries)[..|old(entries)| - 1]
    {
      entries := entries[..|entries| - 1];
    }
  }

  // ------------------------------------------------------------------ whole runs

  datatype Operation = AddLine(line: CharString) | SetMax(len: int)

  datatype State = State(entries: seq<CharString>, maxLen: nat)

  ghost function Step(s: State, op: Operation): (r: State)
    requires s.maxLen >= 1
    ensures r.maxLen >= 1
  {
    match op
    case AddLine(line) => State(Added(s.entries, s.maxLen, line), s.maxLen)
    case SetMax(len) => if len < 1 then s else State(LastOnes(s.entries, len), len)
  }

  ghost function Run(s: State, ops: seq<Operation>): (r: State)
    requires s.maxLen >= 1
    ensures r.maxLen >= 1
  {
    if ops == [] then s else Step(Run(s, ops[..|ops| - 1]), ops[|ops| - 1])
  }

  ghost function Log(ops: seq<Operation>): (log: seq<CharString>) {
    if ops == [] then []
    else
      var before, last := Log(ops[..|ops| - 1]), ops[|ops| - 1];
      if last.AddLine? then Logged(before, last.line) else before
  }

  /** The history is the end of the log, and it is empty only if nothing was added. */
  ghost predicate Agrees(s: State, log: seq<CharString>) {
    |s.entries| <= s.maxLen && IsSuffix(s.entries, log) && (s.entries == [] <==> log == [])
  }

  lemma SuffixGrows<T>(xs: seq<T>, ys: seq<T>, x: T)
    requires IsSuffix(xs, ys)
    ensures IsSuffix(xs + [x], ys + [x])
  {
    assert (ys + [x])[|ys| - |xs|..] == ys[|ys| - |xs|..] + [x];
  }

  lemma LastOnesSuffix<T>(xs: seq<T>, ys: seq<T>, n: nat)
    requires IsSuffix(xs, ys)
    ensures IsSuffix(LastOnes(xs, n), ys) && |LastOnes(xs, n)| == if |xs| <= n then |xs| else n
  {
    if |xs| > n {
      assert ys[|ys| - |xs|..][|xs| - n..] == ys[|ys| - n..];
    }
  }

  lemma SameLast(s: State, log: seq<CharString>)
    requires Agrees(s, log)
    ensures s.entries != [] ==> log != [] && s.entries[|s.entries| - 1] == log[|log| - 1]
  {
  }

  lemma StepAgrees(s: State, log: seq<CharString>, op: Operation)
    requires s.maxLen >= 1 && Agrees(s, log)
    ensures Agrees(Step(s, op), if op.AddLine? then Logged(log, op.line) else log)
  {
    hide IsSuffix; hide LastOnes;
    SameLast(s, log);
    match op
    case AddLine(line) =>
      SuffixGrows(s.entries, log, line);
      LastOnesSuffix(s.entries + [line], log + [line], s.maxLen);
    case SetMax(len) =>
      if len >= 1 {
        LastOnesSuffix(s.entries, log, len);
      }
  }

  /** Under any mix of additions and changes of the maximum, the history is a suffix of the deduplicated log. */
  lemma {:induction false} HistoryIsSuffix(ops: seq<Operation>, maxLen: nat)
    requires maxLen >= 1
    ensures Agrees(Run(State([], maxLen), ops), Log(ops))
    decreases |ops|
  {
    if ops == [] {
    } else {
      HistoryIsSuffix(ops[..|ops| - 1], maxLen);
      StepAgrees(Run(State([], maxLen), ops[..|ops| - 1]), Log(ops[..|ops| - 1]), ops[|ops| - 1]);
    }
  }

  ghost predicate NoRepeats(lines: seq<CharString>) {
    forall i :: 0 < i < |lines| ==> lines[i - 1] != lines[i]
  }

  /** The line added last is always the last one logged, and no line is logged twice in a row. */
  lemma {:induction false} LogHasNoRepeats(ops: seq<Operation>)
    ensures NoRepeats(Log(ops))
    ensures ops != [] && ops[|ops| - 1].AddLine? ==> Log(ops) != [] && Log(ops)[|Log(ops)| - 1] == ops[|ops| - 1].line
    ensures ops != [] && ops[|ops| - 1].SetMax? ==> Log(ops) == Log(ops[..|ops| - 1])
    decreases |ops|
  {
    if ops == [] {
    } else {
      LogHasNoRepeats(ops[..|ops| - 1]);
    }
  }

  /** How many lines are kept, and the maximum: a line that does not repeat the last adds one up to the maximum, a new
      maximum cuts. */
  ghost function Kept(ops: seq<Operation>, maxLen: nat): (r: (nat, nat)) {
    if ops == [] then (0, maxLen)
    else
      var before, last := ops[..|ops| - 1], ops[|ops| - 1];
      var (n, max) := Kept(before, maxLen);
      match last
      case AddLine(line) => if Logged(Log(before), line) == Log(before) || n == max then (n, max) else (n + 1, max)
      case SetMax(len) => if len < 1 then (n, max) else (if n < len then n else len, len)
  }

  /** Together with HistoryIsSuffix: the history is exactly that many of the last lines logged. */
  lemma {:induction false} HistoryLength(ops: seq<Operation>, maxLen: nat)
    requires maxLen >= 1
    ensures var s := Run(State([], maxLen), ops); Kept(ops, maxLen) == (|s.entries|, s.maxLen)
    decreases |ops|
  {
    if ops == [] {
    } else {
      var before := ops[..|ops| - 1];
      HistoryLength(before, maxLen);
      HistoryIsSuffix(before, maxLen);
      hide Run; hide Log;
      StepLength(Run(State([], maxLen), before), Log(before), ops[|ops| - 1]);
      RunUnfolds(ops, maxLen);
    }
  }

  lemma RunUnfolds(ops: seq<Operation>, maxLen: nat)
    requires maxLen >= 1 && ops != []
    ensures Run(State([], maxLen), ops) == Step(Run(State([], maxLen), ops[..|ops| - 1]), ops[|ops| - 1])
  {
    hide Step;
  }

  lemma StepLength(s: State, log: seq<CharString>, op: Operation)
    requires s.maxLen >= 1 && Agrees(s, log)
    ensures var r := Step(s, op);
            match op
            case AddLine(line) =>
              r.maxLen == s.maxLen &&
              |r.entries| == if Logged(log, line) == log || |s.entries| == s.maxLen then |s.entries| else |s.entries| + 1
            case SetMax(len) =>
              if len < 1 then r == s
              else r.maxLen == len && |r.entries| == if |s.entries| < len then |s.entries| else len
  {
    SameLast(s, log);
    if op.AddLine? {
      assert Logged(log, op.line) == log <==> log != [] && log[|log| - 1] == op.line by {
        assert |log + [op.line]| != |log|;
      }
    }
  }

  /** Performs the operations one by one. */
  method Perform(h: History, ops: seq<Operation>)
    requires h.Valid()
    modifies h
    ensures h.Valid() && State(h.entries, h.maxLen) == Run(old(State(h.entries, h.maxLen)), ops)
  {
    ghost var start := State(h.entries, h.maxLen);
    for i := 0 to |ops|
      invariant h.Valid() && State(h.entries, h.maxLen) == Run(start, ops[..i])
    {
      assert ops[..i + 1][..i] == ops[..i];
      match ops[i]
      case AddLine(line) =>
        var _ := h.Add(line);
      case SetMax(len) =>
        var _ := h.SetMaxLen(len);
    }
    assert ops[..|ops|] == ops;
  }

  ghost predicate EndsEmpty(entries: seq<CharString>) {
    entries != [] && entries[|entries| - 1] == ""
  }

  /** The empty line that a session adds and drops again leaves no trace exactly when there was room for one more
      line and the last line was not itself empty. */
  lemma AddedThenDropped(entries: seq<CharString>, maxLen: nat)
    requires maxLen >= 1 && |entries| <= maxLen
    ensures var during := Added(entries, maxLen, "");
            during != [] && (during[..|during| - 1] == entries <==> |entries| < maxLen && !EndsEmpty(entries))
  {
    if |entries| < maxLen {
      assert (entries + [""])[..|entries|] == entries;
    }
  }

  /** The empty line that a session adds and does not drop stays, unless the last line was itself empty. */
  lemma AddedNotDropped(entries: seq<CharString>, maxLen: nat)
    requires maxLen >= 1 && |entries| <= maxLen
    ensures Added(entries, maxLen, "") == entries <==> EndsEmpty(entries)
    ensures EndsEmpty(Added(entries, maxLen, ""))
  {
  }
}
