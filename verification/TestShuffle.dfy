/** What the shuffle of Google Test can do: the generator by its constants, and that every order of the range comes from
    exactly one sequence of choices. */
module TestShuffle {
  import opened TestRunner

  // ------------------------------------------------------------------ the generator

  lemma SameRemainder(x: nat)
    ensures x % UINT32 % MAX_RANGE == x % MAX_RANGE
  {
  }

  lemma SumRemainder(x: nat, y: nat)
    ensures (x % MAX_RANGE + y % MAX_RANGE) % MAX_RANGE == (x + y) % MAX_RANGE
  {
  }

  /** The generator is affine modulo 2^31 with these two values, which fix it on every state. */
  lemma GeneratorIsAffine(a: nat, b: nat)
    ensures NextState(0) == 12345 && NextState(1) == 1103527590
    ensures (NextState(a + b) + NextState(0)) % MAX_RANGE == (NextState(a) + NextState(b)) % MAX_RANGE
  {
    SameRemainder(1103515245 * (a + b) + 12345);
    SameRemainder(1103515245 * a + 12345);
    SameRemainder(1103515245 * b + 12345);
    SumRemainder(1103515245 * (a + b) + 12345, 12345);
    SumRemainder(1103515245 * a + 12345, 1103515245 * b + 12345);
  }

  // ------------------------------------------------------------------ choices

  /** The state after `k` draws. */
  function Drawn(state: nat, k: nat): (s: nat) {
    if k == 0 then state else NextState(Drawn(state, k - 1))
  }

  ghost predicate AreChoices(choices: seq<nat>, width: nat) {
    |choices| == (if width < 2 then 0 else width - 1) && forall k :: 0 <= k < |choices| ==> choices[k] < width - k
  }

  /** The range from `begin`, rearranged by exchanging its last element with the chosen one, and again in the range
      before it. */
  function Arranged(v: seq<int>, begin: nat, width: nat, choices: seq<nat>): (w: seq<int>)
    requires begin + width <= |v| && AreChoices(choices, width)
    ensures |w| == |v|
    decreases width
  {
    if width < 2 then v
    else Arranged(Swapped(v, begin + choices[0], begin + width - 1), begin, width - 1, choices[1..])
  }

  lemma {:induction false} DrawnFrom(state: nat, k: nat)
    ensures Drawn(NextState(state), k) == Drawn(state, k + 1)
    decreases k
  {
    hide NextState;
    if k == 0 {
      assert Drawn(state, 1) == NextState(Drawn(state, 0));
    } else {
      DrawnFrom(state, k - 1);
    }
  }

  /** The shuffle makes the choice number `k` with the draw number `k`, modulo the width that is left. */
  lemma {:induction false} ShuffleChooses(v: seq<int>, begin: nat, width: nat, state: nat) returns (choices: seq<nat>)
    requires begin + width <= |v|
    ensures AreChoices(choices, width)
    ensures forall k :: 0 <= k < |choices| ==> choices[k] == Drawn(state, k + 1) % (width - k)
    ensures FisherYates(v, begin, width, state) == (Arranged(v, begin, width, choices), Drawn(state, |choices|))
    decreases width
  {
    hide NextState; hide Swapped; hide Drawn;
    FisherYatesStep(v, begin, width, state);
    FirstDraw(state);
    if width < 2 {
      choices := [];
    } else {
      var s := NextState(state);
      var more := ShuffleChooses(Swapped(v, begin + s % width, begin + width - 1), begin, width - 1, s);
      choices := [s % width] + more;
      assert choices[1..] == more;
      forall k | 0 <= k < |choices| ensures choices[k] == Drawn(state, k + 1) % (width - k) {
        if k > 0 {
          assert choices[k] == more[k - 1];
          DrawnFrom(state, k);
        }
      }
      DrawnFrom(state, |more|);
    }
  }

  lemma FirstDraw(state: nat)
    ensures Drawn(state, 0) == state && Drawn(state, 1) == NextState(state)
  {
  }

  // ------------------------------------------------------------------ every order, once

  /** What is put last stays there. */
  lemma {:induction false} LastStays(v: seq<int>, begin: nat, width: nat, choices: seq<nat>, i: nat)
    requires begin + width <= |v| && AreChoices(choices, width) && begin + width <= i < |v|
    ensures Arranged(v, begin, width, choices)[i] == v[i]
    decreases width
  {
    if width < 2 {
    } else {
      LastStays(Swapped(v, begin + choices[0], begin + width - 1), begin, width - 1, choices[1..], i);
    }
  }

  function Exchanged(x: int, i: int, j: int): (y: int) {
    if x == i then j else if x == j then i else x
  }

  /** Undoing the first exchange leaves a rearrangement of the shorter range. */
  lemma ShorterRange(v: seq<int>, w: seq<int>, sigma: seq<int>, begin: nat, width: nat) returns (shorter: seq<int>)
    requires begin + width <= |v| && width >= 2 && Rearranged(v, w, sigma, begin, begin + width)
    ensures begin <= sigma[begin + width - 1] < begin + width
    ensures Rearranged(Swapped(v, sigma[begin + width - 1], begin + width - 1), w, shorter, begin, begin + width - 1)
  {
    var last := begin + width - 1;
    var o := sigma[last];
    shorter := seq(|v|, i requires 0 <= i < |v| => Exchanged(sigma[i], o, last));
    var v' := Swapped(v, o, last);
    forall i | 0 <= i < |v|
      ensures 0 <= shorter[i] < |v| && w[i] == v'[shorter[i]]
      ensures if begin <= i < last then begin <= shorter[i] < last else shorter[i] == i
    {
      assert i != last ==> sigma[i] != o;
    }
    forall i, j | 0 <= i < j < |v| ensures shorter[i] != shorter[j] {
      assert sigma[i] != sigma[j];
    }
  }

  /** Every rearrangement of the range comes from some sequence of choices. */
  lemma {:induction false} EveryOrderIsReached(v: seq<int>, w: seq<int>, sigma: seq<int>, begin: nat, width: nat)
    returns (choices: seq<nat>)
    requires begin + width <= |v| && Rearranged(v, w, sigma, begin, begin + width)
    ensures AreChoices(choices, width) && Arranged(v, begin, width, choices) == w
    decreases width
  {
    if width < 2 {
      choices := [];
      assert forall i :: 0 <= i < |v| ==> sigma[i] == i;
      assert w == v;
    } else {
      hide Rearranged;
      var shorter := ShorterRange(v, w, sigma, begin, width);
      var o := sigma[begin + width - 1];
      var more := EveryOrderIsReached(Swapped(v, o, begin + width - 1), w, shorter, begin, width - 1);
      choices := [o - begin] + more;
      assert choices[1..] == more;
    }
  }

  ghost predicate DistinctItems(v: seq<int>) {
    forall i, j :: 0 <= i < j < |v| ==> v[i] != v[j]
  }

  lemma SwapKeepsDistinct(v: seq<int>, i: nat, j: nat)
    requires i < |v| && j < |v| && DistinctItems(v)
    ensures DistinctItems(Swapped(v, i, j))
  {
  }

  /** The first choice shows in the last place. */
  lemma FirstChoiceShows(v: seq<int>, begin: nat, width: nat, choices: seq<nat>)
    requires begin + width <= |v| && AreChoices(choices, width) && width >= 2
    ensures AreChoices(choices[1..], width - 1)
    ensures Arranged(v, begin, width, choices) ==
            Arranged(Swapped(v, begin + choices[0], begin + width - 1), begin, width - 1, choices[1..])
    ensures Arranged(v, begin, width, choices)[begin + width - 1] == v[begin + choices[0]]
  {
    LastStays(Swapped(v, begin + choices[0], begin + width - 1), begin, width - 1, choices[1..], begin + width - 1);
  }

  /** Two different sequences of choices give different orders. */
  lemma {:induction false} EachOrderOnce(v: seq<int>, begin: nat, width: nat, a: seq<nat>, b: seq<nat>)
    requires begin + width <= |v| && DistinctItems(v) && AreChoices(a, width) && AreChoices(b, width)
    requires Arranged(v, begin, width, a) == Arranged(v, begin, width, b)
    ensures a == b
    decreases width
  {
    hide Arranged; hide Swapped;
    if width < 2 {
      assert a == [] == b;
    } else {
      FirstChoiceShows(v, begin, width, a);
      FirstChoiceShows(v, begin, width, b);
      assert v[begin + a[0]] == v[begin + b[0]];
      SwapKeepsDistinct(v, begin + a[0], begin + width - 1);
      EachOrderOnce(Swapped(v, begin + a[0], begin + width - 1), begin, width - 1, a[1..], b[1..]);
      assert a == [a[0]] + a[1..] && b == [b[0]] + b[1..];
    }
  }
}
