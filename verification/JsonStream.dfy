/** The byte stream under load.c's lexer: a five-byte buffer that holds one whole UTF-8 sequence,
    with position counters and one-step push-back. */
module JsonStream {
  import opened Bytes
  import opened Utf8

  const STATE_OK := 0
  const STATE_EOF := -1
  const STATE_ERROR := -2
  const NEWLINE: Byte := 0x0A

  /** A char converted to int, as on platforms where char is signed. */
  function Signed(b: Byte): (c: int) {
    if b < 128 then b else b - 256
  }

  /** An int converted back to char. */
  function Unsigned(c: int): (b: Byte)
    ensures forall x: Byte :: c == Signed(x) ==> b == x
  {
    c % 256
  }

  /** How much of the input the stream can deliver: the longest prefix made of whole UTF-8 sequences. */
  function GoodLength(s: seq<Byte>): (n: nat)
    ensures n <= |s|
    decreases |s|
  {
    if s == [] || Next(s).None? then 0
    else Next(s).value.1 + GoodLength(s[Next(s).value.1..])
  }

  function LineOf(s: seq<Byte>): (n: nat)
    ensures n >= 1
    decreases |s|
  {
    if s == [] then 1
    else LineOf(s[..|s| - 1]) + if s[|s| - 1] == NEWLINE then 1 else 0
  }

  function ColumnOf(s: seq<Byte>): (n: nat)
    decreases |s|
  {
    if s == [] || s[|s| - 1] == NEWLINE then 0
    else ColumnOf(s[..|s| - 1]) + if CheckFirst(s[|s| - 1]) != 0 then 1 else 0
  }

  /** Code points since the last newline. */
  function CodePointsOnLine(cps: seq<Scalar>): (n: nat)
    decreases |cps|
  {
    if cps == [] || cps[|cps| - 1] == 0x0A then 0 else CodePointsOnLine(cps[..|cps| - 1]) + 1
  }

  lemma ColumnOfAppend(s: seq<Byte>, cp: Scalar)
    ensures ColumnOf(s + Encode(cp)) == if cp == 0x0A then 0 else ColumnOf(s) + 1
  {
    var e := Encode(cp);
    var lead := s + [e[0]];
    assert lead[..|s|] == s;
    assert ColumnOf(lead) == if cp == 0x0A then 0 else ColumnOf(s) + 1;
    if |e| == 1 {
      assert s + e == lead;
    } else {
      assert e[0] != NEWLINE && forall i :: 1 <= i < |e| ==> e[i] != NEWLINE && CheckFirst(e[i]) == 0;
      hide Encode;
      hide CheckFirst;
      TailKeepsColumn(lead, e[1..]);
      assert s + e == lead + e[1..];
    }
  }

  lemma {:induction false} TailKeepsColumn(s: seq<Byte>, tail: seq<Byte>)
    requires forall i :: 0 <= i < |tail| ==> tail[i] != NEWLINE && CheckFirst(tail[i]) == 0
    requires s != [] && s[|s| - 1] != NEWLINE
    ensures ColumnOf(s + tail) == ColumnOf(s)
    decreases |tail|
  {
    hide CheckFirst;
    if tail == [] {
      assert s + tail == s;
    } else {
      var k := |tail| - 1;
      assert (s + tail)[..|s| + k] == s + tail[..k];
      TailKeepsColumn(s, tail[..k]);
    }
  }

  /** The column counts characters, not bytes. */
  lemma {:induction false} ColumnCountsCodePoints(cps: seq<Scalar>)
    ensures ColumnOf(EncodeAll(cps)) == CodePointsOnLine(cps)
    decreases |cps|
  {
    if cps == [] {
    } else {
      var k := |cps| - 1;
      ColumnCountsCodePoints(cps[..k]);
      EncodeAllAppend(cps[..k], [cps[k]]);
      assert cps[..k] + [cps[k]] == cps;
      assert EncodeAll([cps[k]]) == Encode(cps[k]) by {
        assert [cps[k]][1..] == [] && Encode(cps[k]) + [] == Encode(cps[k]);
      }
      ColumnOfAppend(EncodeAll(cps[..k]), cps[k]);
    }
  }

  /** The whole input is deliverable exactly when it is valid UTF-8. */
  lemma {:induction false} AllGood(s: seq<Byte>)
    ensures GoodLength(s) == |s| <==> Decode(s).Some?
    decreases |s|
  {
    hide Next;
    if s == [] || Next(s).None? {
    } else {
      NextIsCanonical(s);
      AllGood(s[Next(s).value.1..]);
    }
  }

  /** Deliverable bytes are never mistaken for the two codes: 0xFF and 0xFE do not occur in UTF-8. */
  lemma {:induction false} GoodBytesAreNotCodes(s: seq<Byte>, i: nat)
    requires i < GoodLength(s)
    ensures s[i] < 0xF5
    decreases |s|
  {
    var n := Next(s).value.1;
    if i < n {
      NextIsCanonical(s);
      assert s[i] == s[..n][i];
    } else {
      GoodBytesAreNotCodes(s[n..], i - n);
    }
  }

  lemma GoodLengthStep(s: seq<Byte>, at: nat)
    requires at <= |s| && GoodLength(s) == at + GoodLength(s[at..])
    ensures at == |s| || Next(s[at..]).None? ==> GoodLength(s) == at
    ensures at < |s| && Next(s[at..]).Some? ==>
              var n := Next(s[at..]).value.1;
              at + n <= GoodLength(s) && GoodLength(s) == at + n + GoodLength(s[at + n..])
  {
    hide Next;
    if at < |s| && Next(s[at..]).Some? {
      var n := Next(s[at..]).value.1;
      assert s[at..][n..] == s[at + n..];
    }
  }

  /** Line, column and position after `s` has been delivered. */
  ghost predicate Counts(s: seq<Byte>, line: int, column: int, position: int) {
    position == |s| && line == LineOf(s) && column == ColumnOf(s)
  }

  lemma CountsForward(s: seq<Byte>, at: nat, line: int, column: int, position: int)
    requires at < |s| && Counts(s[..at], line, column, position)
    ensures if s[at] == NEWLINE then Counts(s[..at + 1], line + 1, 0, position + 1)
            else Counts(s[..at + 1], line, if CheckFirst(s[at]) != 0 then column + 1 else column, position + 1)
  {
    assert s[..at + 1][..at] == s[..at];
  }

  lemma CountsBack(s: seq<Byte>, at: nat, line: int, column: int, position: int, lastColumn: int)
    requires 0 < at <= |s| && Counts(s[..at], line, column, position)
    requires s[at - 1] == NEWLINE ==> lastColumn == ColumnOf(s[..at - 1])
    ensures if s[at - 1] == NEWLINE then Counts(s[..at - 1], line - 1, lastColumn, position - 1)
            else Counts(s[..at - 1], line, if CheckFirst(s[at - 1]) != 0 then column - 1 else column, position - 1)
  {
    assert s[..at][..at - 1] == s[..at - 1];
  }

  lemma ColumnIs(s: seq<Byte>, line: int, column: int, position: int)
    requires Counts(s, line, column, position)
    ensures column == ColumnOf(s)
  {
  }

  class Stream {
    const input: seq<Byte>
    const buffer: array<Byte>
    var fetched: nat
    var bufferPos: nat
    var state: int
    var line: int
    var column: int
    var lastColumn: int
    var position: int

    /** The length of the buffered sequence, and the number of input bytes delivered for good. */
    ghost var count: nat
    ghost var at: nat
    /** No NUL byte has been pushed back. */
    ghost var clean: bool

    ghost predicate Buffered()
      reads this, buffer
    {
      && buffer.Length == 5 && bufferPos <= count <= 4 && count <= fetched <= |input|
      && buffer[count] == 0
      && (forall i :: 0 <= i < count ==> buffer[i] == input[fetched - count + i])
      && (forall i :: 0 <= i < count && count != 1 ==> buffer[i] >= 0x80)
      && GoodLength(input) == fetched + GoodLength(input[fetched..])
    }

    /** Where the next byte comes from; a NUL at the buffer position counts as consumed. */
    ghost predicate Located()
      requires Buffered()
      reads this, buffer
    {
      && at == (if buffer[bufferPos] == 0 then fetched else fetched - count + bufferPos)
      && (clean ==> at == fetched - count + bufferPos)
    }

    ghost predicate Counting()
      reads this
    {
      && at <= |input| && Counts(input[..at], line, column, position)
      && (bufferPos > 0 && at > 0 && input[at - 1] == NEWLINE ==> lastColumn == ColumnOf(input[..at - 1]))
    }

    ghost predicate Valid()
      reads this, buffer
    {
      && at <= GoodLength(input) && buffer.Length == 5 && fetched <= |input|
      && (state == STATE_OK || (state == Terminal() && at == GoodLength(input)))
      && (state == STATE_OK ==> Buffered() && Located())
      && (clean ==> Counting())
    }

    /** What is still to be delivered, and the code that follows it. */
    ghost function Rest(): (r: seq<Byte>)
      requires at <= GoodLength(input)
      reads `at
    {
      input[at..GoodLength(input)]
    }

    ghost function Terminal(): (c: int) {
      if GoodLength(input) == |input| then STATE_EOF else STATE_ERROR
    }

    ghost predicate CanUnget(c: int)
      reads this, buffer
    {
      && state == STATE_OK && buffer.Length == 5 && 0 < bufferPos <= 4
      && c == Signed(buffer[bufferPos - 1])
    }

    constructor (input: seq<Byte>)
      ensures Valid() && this.input == input && fresh(buffer) && clean && at == 0 && state == STATE_OK
    {
      this.input := input;
      buffer := new Byte[5](_ => 0);
      fetched, bufferPos, state := 0, 0, STATE_OK;
      line, column, lastColumn, position := 1, 0, 0, 0;
      count, at, clean := 0, 0, true;
      new;
      assert input[0..] == input;
    }

    /** Reads the rest of an `n`-byte sequence; past the end of the input get returns EOF, stored as 0xFF. */
    method FetchTail(n: nat)
      requires buffer.Length == 5 && 1 <= n <= 4 && at < |input| && fetched == at + 1 && buffer[0] == input[at]
      modifies `fetched, buffer
      ensures fetched == if at + n < |input| then at + n else |input|
      ensures forall j :: 0 <= j < n ==> buffer[j] == if at + j < |input| then input[at + j] else 0xFF
    {
      for i := 1 to n
        invariant fetched == if at + i < |input| then at + i else |input|
        invariant forall j :: 0 <= j < i ==> buffer[j] == if at + j < |input| then input[at + j] else 0xFF
      {
        if fetched < |input| {
          buffer[i] := input[fetched];
          fetched := fetched + 1;
        } else {
          buffer[i] := 0xFF;
        }
      }
    }

    /** Completes a sequence that starts with a byte above 0x7F. */
    method FillSequence() returns (ok: bool)
      requires buffer.Length == 5 && at < |input| && fetched == at + 1 && buffer[0] == input[at] >= 0x80
      modifies `fetched, buffer
      ensures ok <==> Next(input[at..]).Some?
      ensures fetched <= |input|
      ensures ok ==> var n := Next(input[at..]).value.1;
                     && 2 <= n <= 4 && fetched == at + n && buffer[n] == 0
                     && forall i :: 0 <= i < n ==> buffer[i] == input[at + i] && buffer[i] >= 0x80
    {
      hide Next;
      hide CheckFull;
      NextByLead(input[at..]);
      var n := CheckFirst(buffer[0]);
      if n == 0 {
        return false;
      }
      FetchTail(n);
      var full := Utf8CheckFull(buffer[..n]);
      SequenceFetched(input, at, buffer[..n]);
      if full.None? {
        return false;
      }
      ghost var sequence := buffer[..n];
      assert forall i :: 0 <= i < n ==> sequence[i] == input[at + i] && sequence[i] >= 0x80;
      buffer[n] := 0;
      assert forall i :: 0 <= i < n ==> buffer[i] == sequence[i];
      return true;
    }

    /** Reads the next whole sequence into the buffer. */
    method Fill()
      requires state == STATE_OK && Buffered() && at == fetched
      modifies `fetched, `bufferPos, `state, `count, buffer
      ensures state == STATE_OK <==> at < GoodLength(input)
      ensures state != STATE_OK ==> state == Terminal() && at == GoodLength(input) && fetched <= |input|
      ensures bufferPos == 0 || bufferPos == old(bufferPos)
      ensures state == STATE_OK ==> Buffered() && bufferPos == 0 < count && fetched == at + count
    {
      hide GoodLength;
      hide Next;
      GoodLengthStep(input, fetched);
      if fetched == |input| {
        state := STATE_EOF;
        return;
      }
      var c := input[fetched];
      fetched := fetched + 1;
      buffer[0] := c;
      bufferPos := 0;
      NextByLead(input[at..]);
      if 0x80 <= c {
        var ok := FillSequence();
        if !ok {
          state := STATE_ERROR;
          return;
        }
        count := fetched - at;
      } else {
        buffer[1] := 0;
        count := 1;
      }
    }

    /** Counts one more byte. */
    method Count(b: Byte)
      requires at < |input| && b == input[at] && (clean ==> Counting())
      modifies `line, `column, `lastColumn, `position
      ensures clean ==> Counts(input[..at + 1], line, column, position)
      ensures clean && b == NEWLINE ==> lastColumn == ColumnOf(input[..at])
    {
      hide Counts;
      if clean {
        CountsForward(input, at, line, column, position);
        ColumnIs(input[..at], line, column, position);
      }
      position := position + 1;
      if b == NEWLINE {
        line := line + 1;
        lastColumn := column;
        column := 0;
      } else if CheckFirst(b) != 0 {
        column := column + 1;
      }
    }

    /** Hands out the byte at the buffer position and counts it. */
    method Deliver() returns (c: int)
      requires state == STATE_OK && Buffered() && bufferPos < count && at == fetched - count + bufferPos
      requires at < GoodLength(input) && (clean ==> Counting())
      modifies `bufferPos, `line, `column, `lastColumn, `position, `at
      ensures Valid() && at == old(at) + 1 && c == Signed(input[old(at)]) && CanUnget(c)
    {
      hide GoodLength;
      hide Counts;
      var b := buffer[bufferPos];
      assert b == input[at];
      Count(b);
      bufferPos := bufferPos + 1;
      at := at + 1;
      return Signed(b);
    }

    /** The next byte as a signed char, or a code when there is none. */
    method Get() returns (c: int)
      requires Valid()
      modifies this, buffer
      ensures Valid() && clean == old(clean)
      ensures old(Rest()) == [] ==> c == state == Terminal() && at == old(at)
      ensures old(Rest()) != [] ==> at == old(at) + 1 && c == Signed(old(Rest())[0]) && CanUnget(c)
      ensures old(Rest()) != [] ==> c != STATE_EOF && c != STATE_ERROR
    {
      hide GoodLength;
      hide Counts;
      if state != STATE_OK {
        return state;
      }
      if buffer[bufferPos] == 0 {
        Fill();
        if state != STATE_OK {
          return state;
        }
      }
      GoodBytesAreNotCodes(input, at);
      c := Deliver();
    }

    /** Takes the last byte out of the counters. */
    method Uncount(b: Byte)
      requires 0 < at <= |input| && b == input[at - 1] && bufferPos > 0 && (clean ==> Counting())
      modifies `line, `column, `position
      ensures clean ==> Counts(input[..at - 1], line, column, position)
    {
      hide Counts;
      if clean {
        CountsBack(input, at, line, column, position, lastColumn);
      }
      position := position - 1;
      if b == NEWLINE {
        line := line - 1;
        column := lastColumn;
      } else if CheckFirst(b) != 0 {
        column := column - 1;
      }
    }

    /** Takes the last byte back. A NUL cannot be delivered again: at the buffer position it reads as "empty". */
    method Unget(c: int)
      requires Valid() && (c == STATE_EOF || c == STATE_ERROR || CanUnget(c))
      modifies `bufferPos, `line, `column, `position, `at, `clean
      ensures Valid() && state == old(state)
      ensures c == STATE_EOF || c == STATE_ERROR ==> at == old(at) && clean == old(clean)
      ensures c != STATE_EOF && c != STATE_ERROR && c != 0 ==>
                clean == old(clean) && at == old(at) - 1 && c == Signed(Rest()[0])
      ensures c == 0 ==> at == old(at) && !clean
    {
      hide GoodLength;
      hide Counts;
      if c == STATE_EOF || c == STATE_ERROR {
        return;
      }
      assert buffer[bufferPos - 1] == input[at - 1];
      Uncount(buffer[bufferPos - 1]);
      bufferPos := bufferPos - 1;
      if c == 0 {
        clean := false;
      } else {
        at := at - 1;
        assert bufferPos > 0 ==> buffer[bufferPos - 1] == input[at - 1];
      }
    }
  }

  lemma NextByLead(s: seq<Byte>)
    requires s != []
    ensures CheckFirst(s[0]) == 0 ==> Next(s).None?
    ensures CheckFirst(s[0]) == 1 ==> Next(s) == Some((s[0], 1))
  {
  }

  lemma SequenceFetched(input: seq<Byte>, at: nat, buffer: seq<Byte>)
    requires at < |input| && 2 <= |buffer| <= 4 && |buffer| == CheckFirst(input[at])
    requires forall j :: 0 <= j < |buffer| ==> buffer[j] == if at + j < |input| then input[at + j] else 0xFF
    ensures CheckFull(buffer).Some? <==> Next(input[at..]).Some?
    ensures CheckFull(buffer).Some? ==>
              && at + |buffer| <= |input| && Next(input[at..]).value.1 == |buffer|
              && forall j :: 0 <= j < |buffer| ==> buffer[j] >= 0x80
  {
    var n := |buffer|;
    if at + n <= |input| {
      assert input[at..][..n] == buffer;
      if CheckFull(buffer).Some? {
        NextIsCanonical(input[at..]);
      }
    } else {
      assert buffer[n - 1] == 0xFF;
      LastNotContinuation(LeadPayload(buffer[0], n), buffer[1..]);
    }
  }

  lemma {:induction false} LastNotContinuation(v: nat, tail: seq<Byte>)
    requires tail != [] && tail[|tail| - 1] > 0xBF
    ensures Continue(v, tail).None?
    decreases |tail|
  {
    if |tail| <= 1 || !(0x80 <= tail[0] <= 0xBF) {
    } else {
      LastNotContinuation(v * 64 + tail[0] % 64, tail[1..]);
    }
  }

  /** Why push-back is promised for other bytes only: a NUL that is pushed back is gone. */
  method NulIsLost() returns (first: int, second: int)
    ensures first == 0 && second == STATE_EOF
  {
    var stream := new Stream([0]);
    assert Next([0]) == Some((0, 1)) && [0][1..] == [];
    assert GoodLength([0]) == 1;
    first := stream.Get();
    stream.Unget(first);
    second := stream.Get();
  }
}
