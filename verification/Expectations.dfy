/** Google Mock expectations: prerequisites, retirement, sequences and the handling of calls. */
module Expectations {
  import opened Bytes

  // ------------------------------------------------------------------ facts about all expectations

  /** What is known of one expectation. */
  datatype Fact = Fact(min: int, max: int, prereqs: seq<Expectation>, calls: nat, retired: bool)

  type Facts = map<Expectation, Fact>

  predicate SatisfiedBy(f: Fact) {
    f.min <= f.calls <= f.max
  }

  /** Prerequisites are older than what requires them. */
  ghost predicate Acyclic(facts: Facts) {
    forall e <- facts, p <- facts[e].prereqs :: p in facts && p.rank < e.rank
  }

  /** `x` is a prerequisite of `e`, at once or through others. */
  ghost predicate Ancestor(x: Expectation, e: Expectation, facts: Facts)
    requires Acyclic(facts) && e in facts
    decreases e.rank
  {
    x in facts[e].prereqs || exists p <- facts[e].prereqs :: Ancestor(x, p, facts)
  }

  ghost predicate RetiredClosed(facts: Facts)
    requires Acyclic(facts)
  {
    forall e <- facts, p <- facts[e].prereqs :: facts[e].retired ==> facts[p].retired
  }

  lemma {:induction false} AncestorOlder(x: Expectation, e: Expectation, facts: Facts)
    requires Acyclic(facts) && e in facts && Ancestor(x, e, facts)
    ensures x in facts && x.rank < e.rank
    decreases e.rank
  {
    if x in facts[e].prereqs {
    } else {
      var p :| p in facts[e].prereqs && Ancestor(x, p, facts);
      AncestorOlder(x, p, facts);
    }
  }

  /** Retirement reaches every ancestor of a retired expectation: the reason for the early return. */
  lemma {:induction false} RetiredAncestors(x: Expectation, e: Expectation, facts: Facts)
    requires Acyclic(facts) && RetiredClosed(facts) && e in facts && Ancestor(x, e, facts)
    requires forall p <- facts[e].prereqs :: facts[p].retired
    ensures x in facts && facts[x].retired
    decreases e.rank
  {
    if x in facts[e].prereqs {
    } else {
      var p :| p in facts[e].prereqs && Ancestor(x, p, facts);
      RetiredAncestors(x, p, facts);
    }
  }

  ghost predicate SamePrereqs(a: Facts, b: Facts) {
    a.Keys == b.Keys && forall e <- a :: a[e].prereqs == b[e].prereqs
  }

  lemma {:induction false} SameAncestors(x: Expectation, e: Expectation, a: Facts, b: Facts)
    requires Acyclic(a) && SamePrereqs(a, b) && e in a
    ensures Acyclic(b) && (Ancestor(x, e, a) <==> Ancestor(x, e, b))
    decreases e.rank
  {
    forall p | p in a[e].prereqs ensures Ancestor(x, p, a) <==> Ancestor(x, p, b) {
      SameAncestors(x, p, a, b);
    }
  }

  ghost function RetireAncestors(facts: Facts, e: Expectation): (r: Facts)
    requires Acyclic(facts) && e in facts
    ensures SamePrereqs(facts, r)
  {
    map x | x in facts :: if Ancestor(x, e, facts) then facts[x].(retired := true) else facts[x]
  }

  // ------------------------------------------------------------------ expectations

  class Expectation {
    const min: int
    const max: int
    const retiresOnSaturation: bool
    ghost const rank: nat
    var prereqs: seq<Expectation>
    var callCount: nat
    var retired: bool

    /** Times(Between(low, high)): bounds out of order are clamped. */
    constructor (low: int, high: int, retiresOnSaturation: bool, ghost rank: nat)
      ensures 0 <= min <= max
      ensures min == (if low >= 0 then low else 0) && max == if high >= min then high else min
      ensures this.retiresOnSaturation == retiresOnSaturation && this.rank == rank
      ensures prereqs == [] && callCount == 0 && !retired
    {
      min := if low >= 0 then low else 0;
      max := if high >= (if low >= 0 then low else 0) then high else if low >= 0 then low else 0;
      this.retiresOnSaturation, this.rank := retiresOnSaturation, rank;
      prereqs, callCount, retired := [], 0, false;
    }

    predicate IsSatisfied()
      reads this
    {
      min <= callCount <= max
    }

    predicate IsSaturated()
      reads this
    {
      callCount >= max
    }

    /** Retires exactly the ancestors. */
    method RetireAllPreRequisites(ghost facts: Facts)
      requires Acyclic(facts) && RetiredClosed(facts) && this in facts && Reflects(facts)
      modifies facts.Keys`retired
      ensures Reflects(RetireAncestors(facts, this))
      ensures RetiredClosed(RetireAncestors(facts, this))
      decreases rank
    {
      hide Ancestor; hide RetireAncestors; hide RetireUpTo; hide RetiredClosed; hide Acyclic; hide ThroughFirst;
      if retired {
        RetiredHasNone(facts, this);
        return;
      }
      UpToStart(facts, this);
      ghost var now := facts;
      for i := 0 to |prereqs|
        invariant prereqs == facts[this].prereqs
        invariant now == RetireUpTo(facts, this, i)
        invariant Reflects(now)
      {
        var prerequisite := prereqs[i];
        UpToKeepsClosed(facts, this, i);
        UpToStep(facts, this, i);
        if !prerequisite.retired {
          prerequisite.RetireAllPreRequisites(now);
          prerequisite.Retire(RetireAncestors(now, prerequisite));
          now := RetireUpTo(facts, this, i + 1);
        }
      }
      UpToEnd(facts, this);
    }

    /** Whether every ancestor is satisfied. */
    method AllPrerequisitesAreSatisfied(ghost facts: Facts) returns (r: bool)
      requires Acyclic(facts) && this in facts && Reflects(facts)
      ensures r <==> forall x <- facts :: Ancestor(x, this, facts) ==> x.min <= x.callCount <= x.max
      decreases rank
    {
      hide Ancestor; hide AncestorsSatisfied; hide Acyclic;
      CountsDecide(this, facts);
      SatisfiedByPrereqs(this, facts);
      for i := 0 to |prereqs|
        invariant forall k :: 0 <= k < i ==> PrereqFine(prereqs[k], facts)
      {
        PrereqKnown(this, i, facts);
        CountsDecide(prereqs[i], facts);
        if !prereqs[i].IsSatisfied() {
          return false;
        }
        var above := prereqs[i].AllPrerequisitesAreSatisfied(facts);
        if !above {
          return false;
        }
      }
      return true;
    }

    /** Adds the unsatisfied ancestors that are reached through satisfied ones not called yet. */
    method FindUnsatisfiedPrerequisites(result: set<Expectation>, ghost facts: Facts) returns (r: set<Expectation>)
      requires Acyclic(facts) && this in facts && Reflects(facts)
      ensures r == result + Blockers(this, facts)
      decreases rank
    {
      hide Acyclic; hide Blockers; hide BlockersUpTo;
      r := result;
      BlockersEnds(this, facts);
      for i := 0 to |prereqs|
        invariant r == result + BlockersUpTo(this, i, facts)
      {
        PrereqKnown(this, i, facts);
        BlockersStep(this, i, facts);
        if prereqs[i].IsSatisfied() {
          if prereqs[i].callCount == 0 {
            r := prereqs[i].FindUnsatisfiedPrerequisites(r, facts);
          }
        } else {
          r := r + {prereqs[i]};
        }
      }
    }

    /** An excessive call is only counted; any other retires the ancestors, and perhaps the expectation itself. */
    method GetActionForArguments(ghost facts: Facts)
      requires Inv(facts) && this in facts && Reflects(facts) && !retired
      modifies facts.Keys
      ensures Reflects(AfterCall(facts, this))
    {
      hide RetireAncestors; hide Acyclic; hide RetiredClosed; hide SatisfiedBy;
      if IsSaturated() {
        IncrementCallCount(facts);
      } else {
        HandleInTime(facts);
      }
    }

    method HandleInTime(ghost facts: Facts)
      requires Inv(facts) && this in facts && Reflects(facts) && !retired && callCount < max
      modifies facts.Keys
      ensures Reflects(AfterCall(facts, this))
    {
      hide Ancestor; hide RetireAncestors; hide Acyclic; hide RetiredClosed; hide SatisfiedBy; hide AfterCall;
      CountThenRetire(facts, this);
      AfterCallSteps(facts, this);
      hide Inv;
      IncrementCallCount(facts);
      hide Reflects;
      ghost var counted := facts[this := facts[this].(calls := callCount)];
      RetireAllPreRequisites(counted);
      ghost var next := RetireAncestors(counted, this);
      ReflectsMax(next, this);
      if retiresOnSaturation && IsSaturated() {
        Retire(next);
      }
    }

    method IncrementCallCount(ghost facts: Facts)
      requires this in facts && Reflects(facts)
      modifies `callCount
      ensures callCount == old(callCount) + 1
      ensures Reflects(facts[this := facts[this].(calls := callCount)])
    {
      callCount := callCount + 1;
    }

    method Retire(ghost facts: Facts)
      requires this in facts && Reflects(facts)
      modifies `retired
      ensures Reflects(facts[this := facts[this].(retired := true)])
    {
      retired := true;
    }
  }

  ghost predicate Reflects(facts: Facts)
    reads facts.Keys
  {
    forall e <- facts :: facts[e] == Fact(e.min, e.max, e.prereqs, e.callCount, e.retired)
  }

  lemma RetiredHasNone(facts: Facts, e: Expectation)
    requires Acyclic(facts) && RetiredClosed(facts) && e in facts && facts[e].retired
    ensures RetireAncestors(facts, e) == facts
  {
    forall x | x in facts && Ancestor(x, e, facts) ensures facts[x].retired {
      RetiredAncestors(x, e, facts);
    }
  }

  ghost predicate ThroughFirst(x: Expectation, e: Expectation, i: nat, facts: Facts)
    requires Acyclic(facts) && e in facts && i <= |facts[e].prereqs|
  {
    exists k :: 0 <= k < i && (x == facts[e].prereqs[k] || Ancestor(x, facts[e].prereqs[k], facts))
  }

  /** The first `i` prerequisites and their ancestors have been retired. */
  ghost function RetireUpTo(facts: Facts, e: Expectation, i: nat): (r: Facts)
    requires Acyclic(facts) && e in facts && i <= |facts[e].prereqs|
    ensures SamePrereqs(facts, r)
  {
    map x | x in facts :: if ThroughFirst(x, e, i, facts) then facts[x].(retired := true) else facts[x]
  }

  lemma UpToStart(facts: Facts, e: Expectation)
    requires Acyclic(facts) && e in facts
    ensures RetireUpTo(facts, e, 0) == facts
  {
  }

  lemma UpToKeepsClosed(facts: Facts, e: Expectation, i: nat)
    requires Acyclic(facts) && RetiredClosed(facts) && e in facts && i <= |facts[e].prereqs|
    ensures Acyclic(RetireUpTo(facts, e, i)) && RetiredClosed(RetireUpTo(facts, e, i))
  {
    var r := RetireUpTo(facts, e, i);
    forall y, p | y in r && p in r[y].prereqs && r[y].retired ensures r[p].retired {
      if ThroughFirst(y, e, i, facts) {
        var k :| 0 <= k < i && (y == facts[e].prereqs[k] || Ancestor(y, facts[e].prereqs[k], facts));
        AncestorThrough(p, y, facts[e].prereqs[k], facts);
      }
    }
  }

  /** A prerequisite of `y` is an ancestor of whatever `y` is an ancestor of. */
  lemma {:induction false} AncestorThrough(p: Expectation, y: Expectation, e: Expectation, facts: Facts)
    requires Acyclic(facts) && e in facts && y in facts && p in facts[y].prereqs
    requires y == e || Ancestor(y, e, facts)
    ensures Ancestor(p, e, facts)
    decreases e.rank
  {
    if y == e {
    } else {
      if y in facts[e].prereqs {
        assert Ancestor(p, y, facts);
      } else {
        var q :| q in facts[e].prereqs && Ancestor(y, q, facts);
        AncestorThrough(p, y, q, facts);
      }
    }
  }

  lemma UpToStep(facts: Facts, e: Expectation, i: nat)
    requires Acyclic(facts) && RetiredClosed(facts) && e in facts && i < |facts[e].prereqs|
    ensures var now, p := RetireUpTo(facts, e, i), facts[e].prereqs[i];
            && Acyclic(now) && p in now && p.rank < e.rank
            && p in RetireAncestors(now, p) && RetireAncestors(now, p)[p] == now[p]
            && RetireUpTo(facts, e, i + 1) ==
               if now[p].retired then now else RetireAncestors(now, p)[p := now[p].(retired := true)]
  {
    var now, p := RetireUpTo(facts, e, i), facts[e].prereqs[i];
    UpToKeepsClosed(facts, e, i);
    var next := RetireUpTo(facts, e, i + 1);
    var expected := if now[p].retired then now else RetireAncestors(now, p)[p := now[p].(retired := true)];
    if Ancestor(p, p, now) {
      AncestorOlder(p, p, now);
    }
    forall x | x in facts ensures next[x] == expected[x] {
      ThroughStep(x, e, i, facts);
      SameAncestors(x, p, facts, now);
      if now[p].retired && Ancestor(x, p, now) {
        RetiredAncestors(x, p, now);
      }
    }
  }

  lemma ThroughStep(x: Expectation, e: Expectation, i: nat, facts: Facts)
    requires Acyclic(facts) && e in facts && i < |facts[e].prereqs|
    ensures ThroughFirst(x, e, i + 1, facts) <==>
            ThroughFirst(x, e, i, facts) || x == facts[e].prereqs[i] || Ancestor(x, facts[e].prereqs[i], facts)
  {
  }

  lemma UpToEnd(facts: Facts, e: Expectation)
    requires Acyclic(facts) && RetiredClosed(facts) && e in facts
    ensures RetireUpTo(facts, e, |facts[e].prereqs|) == RetireAncestors(facts, e)
    ensures RetiredClosed(RetireAncestors(facts, e))
  {
    var n := |facts[e].prereqs|;
    forall x | x in facts ensures ThroughFirst(x, e, n, facts) <==> Ancestor(x, e, facts) {
      if Ancestor(x, e, facts) && x !in facts[e].prereqs {
        var p :| p in facts[e].prereqs && Ancestor(x, p, facts);
        var k :| 0 <= k < n && facts[e].prereqs[k] == p;
      }
    }
    UpToKeepsClosed(facts, e, n);
  }

  // ------------------------------------------------------------------ satisfied prerequisites

  ghost predicate AncestorsSatisfied(e: Expectation, facts: Facts)
    requires Acyclic(facts) && e in facts
  {
    forall x <- facts :: Ancestor(x, e, facts) ==> SatisfiedBy(facts[x])
  }

  /** Satisfied means: called often enough and not too often. */
  lemma CountsDecide(e: Expectation, facts: Facts)
    requires Acyclic(facts) && e in facts && Reflects(facts)
    ensures AncestorsSatisfied(e, facts) <==>
            forall x <- facts :: Ancestor(x, e, facts) ==> x.min <= x.callCount <= x.max
  {
    hide Ancestor;
  }

  ghost predicate PrereqFine(p: Expectation, facts: Facts)
    requires Acyclic(facts)
  {
    p in facts && SatisfiedBy(facts[p]) && AncestorsSatisfied(p, facts)
  }

  lemma PrereqKnown(e: Expectation, i: nat, facts: Facts)
    requires Acyclic(facts) && e in facts && i < |facts[e].prereqs|
    ensures facts[e].prereqs[i] in facts && facts[e].prereqs[i].rank < e.rank
  {
  }

  lemma SatisfiedByPrereqs(e: Expectation, facts: Facts)
    requires Acyclic(facts) && e in facts
    ensures AncestorsSatisfied(e, facts) <==>
            forall k :: 0 <= k < |facts[e].prereqs| ==> PrereqFine(facts[e].prereqs[k], facts)
  {
    var ps := facts[e].prereqs;
    if AncestorsSatisfied(e, facts) {
      forall k | 0 <= k < |ps| ensures PrereqFine(ps[k], facts) {
        forall x | x in facts && Ancestor(x, ps[k], facts) ensures SatisfiedBy(facts[x]) {
          assert Ancestor(x, e, facts);
        }
      }
    }
    if forall k :: 0 <= k < |ps| ==> PrereqFine(ps[k], facts) {
      forall x | x in facts && Ancestor(x, e, facts) ensures SatisfiedBy(facts[x]) {
        if x !in ps {
          var p :| p in ps && Ancestor(x, p, facts);
          assert PrereqFine(p, facts);
        }
      }
    }
  }

  /** `x` is unsatisfied and reached from `e` through satisfied expectations that were never called. */
  ghost predicate Blocks(x: Expectation, e: Expectation, facts: Facts)
    requires Acyclic(facts) && e in facts
    decreases e.rank, 0
  {
    exists p <- facts[e].prereqs :: BlocksAt(x, p, facts)
  }

  ghost predicate BlocksAt(x: Expectation, p: Expectation, facts: Facts)
    requires Acyclic(facts) && p in facts
    decreases p.rank, 1
  {
    if SatisfiedBy(facts[p]) then facts[p].calls == 0 && Blocks(x, p, facts) else x == p
  }

  ghost function Blockers(e: Expectation, facts: Facts): (r: set<Expectation>)
    requires Acyclic(facts) && e in facts
  {
    set x | x in facts && Blocks(x, e, facts)
  }

  ghost function BlockersUpTo(e: Expectation, i: nat, facts: Facts): (r: set<Expectation>)
    requires Acyclic(facts) && e in facts && i <= |facts[e].prereqs|
  {
    set x | x in facts && exists k :: 0 <= k < i && BlocksAt(x, facts[e].prereqs[k], facts)
  }

  lemma BlockersEnds(e: Expectation, facts: Facts)
    requires Acyclic(facts) && e in facts
    ensures BlockersUpTo(e, 0, facts) == {}
    ensures BlockersUpTo(e, |facts[e].prereqs|, facts) == Blockers(e, facts)
  {
    var ps := facts[e].prereqs;
    forall x | x in facts
      ensures Blocks(x, e, facts) <==> exists k :: 0 <= k < |ps| && BlocksAt(x, ps[k], facts)
    {
      if Blocks(x, e, facts) {
        var p :| p in ps && BlocksAt(x, p, facts);
        var k :| 0 <= k < |ps| && ps[k] == p;
      }
    }
  }

  lemma BlockersStep(e: Expectation, i: nat, facts: Facts)
    requires Acyclic(facts) && e in facts && i < |facts[e].prereqs|
    ensures var p := facts[e].prereqs[i];
            BlockersUpTo(e, i + 1, facts) == BlockersUpTo(e, i, facts) +
              (if !SatisfiedBy(facts[p]) then {p} else if facts[p].calls == 0 then Blockers(p, facts) else {})
  {
    hide Blocks;
    var ps := facts[e].prereqs;
    forall x | x in facts
      ensures (exists k :: 0 <= k < i + 1 && BlocksAt(x, ps[k], facts)) <==>
              (exists k :: 0 <= k < i && BlocksAt(x, ps[k], facts)) || BlocksAt(x, ps[i], facts)
    {
    }
  }

  lemma {:induction false} BlockersAreAncestors(x: Expectation, e: Expectation, facts: Facts)
    requires Acyclic(facts) && e in facts && Blocks(x, e, facts)
    ensures x in facts && Ancestor(x, e, facts) && !SatisfiedBy(facts[x])
    decreases e.rank
  {
    var p :| p in facts[e].prereqs && BlocksAt(x, p, facts);
    if !SatisfiedBy(facts[p]) {
    } else {
      BlockersAreAncestors(x, p, facts);
    }
  }

  /** Every satisfied expectation that was called has satisfied prerequisites. */
  ghost predicate CalledAreSettled(facts: Facts)
    requires Acyclic(facts)
  {
    forall e <- facts :: SatisfiedBy(facts[e]) && facts[e].calls > 0 ==> AncestorsSatisfied(e, facts)
  }

  lemma {:induction false} UnsatisfiedIsBlocked(x: Expectation, e: Expectation, facts: Facts)
    requires Acyclic(facts) && CalledAreSettled(facts) && e in facts
    requires x in facts && Ancestor(x, e, facts) && !SatisfiedBy(facts[x])
    ensures exists y :: y in facts && Blocks(y, e, facts)
    decreases e.rank
  {
    var p :| p in facts[e].prereqs && (x == p || Ancestor(x, p, facts));
    if SatisfiedBy(facts[p]) {
      assert facts[p].calls == 0;
      UnsatisfiedIsBlocked(x, p, facts);
      var y :| y in facts && Blocks(y, p, facts);
      assert BlocksAt(y, p, facts);
      assert Blocks(y, e, facts);
    } else {
      assert BlocksAt(p, p, facts);
      assert Blocks(p, e, facts);
    }
  }

  /** Skipping what lies behind a called expectation loses nothing. */
  lemma ShortcutLosesNothing(e: Expectation, facts: Facts)
    requires Acyclic(facts) && CalledAreSettled(facts) && e in facts
    ensures Blockers(e, facts) == {} <==> AncestorsSatisfied(e, facts)
    ensures forall x <- Blockers(e, facts) :: Ancestor(x, e, facts) && !SatisfiedBy(facts[x])
  {
    hide Ancestor; hide Blocks;
    forall x | x in Blockers(e, facts) ensures Ancestor(x, e, facts) && !SatisfiedBy(facts[x]) {
      BlockersAreAncestors(x, e, facts);
    }
    if x :| x in facts && Ancestor(x, e, facts) && !SatisfiedBy(facts[x]) {
      UnsatisfiedIsBlocked(x, e, facts);
      var y :| y in facts && Blocks(y, e, facts);
      assert y in Blockers(e, facts);
    }
  }

  // ------------------------------------------------------------------ whole runs

  /** A call handled by `e`; it is excessive if `e` was already saturated. */
  datatype Handled = Handled(e: Expectation, excessive: bool)

  ghost function Calls(log: seq<Handled>, x: Expectation): nat {
    if log == [] then 0 else Calls(log[..|log| - 1], x) + if log[|log| - 1].e == x then 1 else 0
  }

  /** What every step keeps. */
  ghost predicate Inv(facts: Facts) {
    && Acyclic(facts)
    && RetiredClosed(facts)
    && (forall e <- facts :: 0 <= facts[e].min <= facts[e].max)
    && (forall e <- facts :: facts[e].retired ==> SatisfiedBy(facts[e]))
    && (forall e <- facts, p <- facts[e].prereqs :: facts[e].calls >= 1 && facts[e].max >= 1 ==> facts[p].retired)
  }

  ghost predicate LogOk(facts: Facts, log: seq<Handled>)
    requires Acyclic(facts)
  {
    && (forall h <- log :: h.e in facts && (!h.excessive ==> facts[h.e].calls >= 1 && facts[h.e].max >= 1))
    && (forall x <- facts :: facts[x].calls == Calls(log, x))
    && (forall i, j :: 0 <= i < j < |log| && !log[i].excessive ==> !Ancestor(log[j].e, log[i].e, facts))
  }

  /** The call `i` retires `x`: it is handled in time by a successor of `x`, or by `x` itself if it retires on
      saturation and is saturated. */
  ghost predicate RetiresAt(x: Expectation, i: nat, facts: Facts, log: seq<Handled>)
    requires Acyclic(facts) && i < |log| && log[i].e in facts && x in facts
  {
    && !log[i].excessive
    && (Ancestor(x, log[i].e, facts) || (log[i].e == x && x.retiresOnSaturation && facts[x].calls >= facts[x].max))
  }

  ghost predicate RetiredByLog(x: Expectation, facts: Facts, log: seq<Handled>)
    requires Acyclic(facts) && x in facts && forall i :: 0 <= i < |log| ==> log[i].e in facts
  {
    exists i :: 0 <= i < |log| && RetiresAt(x, i, facts, log)
  }

  /** The log accounts for everything: who is retired, and which calls were excessive. */
  ghost predicate Accounted(facts: Facts, log: seq<Handled>)
    requires Acyclic(facts)
  {
    && (forall i :: 0 <= i < |log| ==> log[i].e in facts)
    && (forall x <- facts :: facts[x].retired <==> RetiredByLog(x, facts, log))
    && forall i :: 0 <= i < |log| ==> (log[i].excessive <==> Calls(log[..i], log[i].e) >= facts[log[i].e].max)
  }

  lemma CalledSettled(e: Expectation, facts: Facts)
    requires Inv(facts) && e in facts && facts[e].calls >= 1 && facts[e].max >= 1
    ensures forall x <- facts :: Ancestor(x, e, facts) ==> facts[x].retired && SatisfiedBy(facts[x])
  {
    forall x | x in facts && Ancestor(x, e, facts) ensures facts[x].retired {
      RetiredAncestors(x, e, facts);
    }
  }

  /** The invariant supplies the hypothesis of ShortcutLosesNothing. */
  lemma RunsAreSettled(facts: Facts)
    requires Inv(facts)
    ensures CalledAreSettled(facts)
  {
    forall e | e in facts && SatisfiedBy(facts[e]) && facts[e].calls > 0 ensures AncestorsSatisfied(e, facts) {
      CalledSettled(e, facts);
    }
  }

  /** GetActionForArguments. */
  ghost function AfterCall(facts: Facts, e: Expectation): (r: Facts)
    requires Acyclic(facts) && e in facts
    ensures SamePrereqs(facts, r)
  {
    var f := facts[e];
    if f.calls >= f.max then facts[e := f.(calls := f.calls + 1)]
    else
      RetireAncestors(facts, e)
      [e := f.(calls := f.calls + 1, retired := f.retired || (e.retiresOnSaturation && f.calls + 1 >= f.max))]
  }

  lemma ExcessKeepsInv(facts: Facts, e: Expectation)
    requires Inv(facts) && e in facts && !facts[e].retired && facts[e].calls >= facts[e].max
    ensures Inv(AfterCall(facts, e))
  {
    hide Ancestor;
  }

  lemma RetireKeepsInv(facts: Facts, e: Expectation)
    requires Inv(facts) && e in facts && AncestorsSatisfied(e, facts)
    ensures Inv(RetireAncestors(facts, e))
  {
    hide Ancestor;
    UpToEnd(facts, e);
  }

  lemma CountKeepsInv(facts: Facts, e: Expectation, retire: bool)
    requires Inv(facts) && e in facts && !facts[e].retired && facts[e].calls < facts[e].max
    requires forall p <- facts[e].prereqs :: facts[p].retired
    requires retire ==> facts[e].calls + 1 >= facts[e].max
    ensures Inv(facts[e := facts[e].(calls := facts[e].calls + 1, retired := retire)])
  {
    hide Ancestor;
  }

  lemma CallKeepsInv(facts: Facts, e: Expectation)
    requires Inv(facts) && e in facts && !facts[e].retired && AncestorsSatisfied(e, facts)
    ensures Inv(AfterCall(facts, e))
  {
    hide RetiredClosed; hide Acyclic; hide SatisfiedBy; hide AncestorsSatisfied; hide Ancestor;
    if facts[e].calls >= facts[e].max {
      ExcessKeepsInv(facts, e);
    } else {
      RetireKeepsInv(facts, e);
      PrereqsAreAncestors(e, facts);
      if Ancestor(e, e, facts) {
        AncestorOlder(e, e, facts);
      }
      hide Inv;
      CountKeepsInv(RetireAncestors(facts, e), e, e.retiresOnSaturation && facts[e].calls + 1 >= facts[e].max);
    }
  }

  lemma PrereqsAreAncestors(e: Expectation, facts: Facts)
    requires Acyclic(facts) && e in facts
    ensures forall p <- facts[e].prereqs :: Ancestor(p, e, facts)
  {
  }

  lemma CallsAppend(log: seq<Handled>, h: Handled, x: Expectation)
    ensures Calls(log + [h], x) == Calls(log, x) + if h.e == x then 1 else 0
  {
    assert (log + [h])[..|log|] == log;
  }

  /** No ancestor of an expectation that has handled a call can still be active. */
  lemma ActiveIsNoAncestor(e: Expectation, y: Expectation, facts: Facts)
    requires Inv(facts) && e in facts && !facts[e].retired
    requires y in facts && facts[y].calls >= 1 && facts[y].max >= 1
    ensures !Ancestor(e, y, facts)
  {
    CalledSettled(y, facts);
  }

  lemma CallKeepsLog(facts: Facts, log: seq<Handled>, e: Expectation)
    requires Inv(facts) && LogOk(facts, log) && e in facts && !facts[e].retired
    ensures SamePrereqs(facts, AfterCall(facts, e)) && Acyclic(AfterCall(facts, e))
    ensures LogOk(AfterCall(facts, e), log + [Handled(e, facts[e].calls >= facts[e].max)])
  {
    hide Ancestor; hide Calls; hide RetiredClosed; hide Acyclic; hide SatisfiedBy;
    SameAncestors(e, e, facts, AfterCall(facts, e));
    var next, h := AfterCall(facts, e), Handled(e, facts[e].calls >= facts[e].max);
    var log' := log + [h];
    forall x | x in facts ensures next[x].calls == Calls(log', x) {
      CallsAppend(log, h, x);
    }
    assert forall g <- log' :: g.e in facts && (!g.excessive ==> next[g.e].calls >= 1 && next[g.e].max >= 1);
    hide AfterCall; hide Inv;
    forall i, j | 0 <= i < j < |log'| && !log'[i].excessive ensures !Ancestor(log'[j].e, log'[i].e, next) {
      SameAncestors(log'[j].e, log'[i].e, facts, next);
      if j == |log| {
        ActiveIsNoAncestor(e, log[i].e, facts);
      }
    }
  }

  lemma RetiredByMore(x: Expectation, facts: Facts, log: seq<Handled>, h: Handled)
    requires Acyclic(facts) && x in facts && h.e in facts && forall i :: 0 <= i < |log| ==> log[i].e in facts
    ensures RetiredByLog(x, facts, log + [h]) <==>
            RetiredByLog(x, facts, log) || RetiresAt(x, |log|, facts, log + [h])
  {
    hide Ancestor;
    forall i | 0 <= i < |log| ensures RetiresAt(x, i, facts, log) <==> RetiresAt(x, i, facts, log + [h]) {
    }
    if RetiredByLog(x, facts, log) {
      var i :| 0 <= i < |log| && RetiresAt(x, i, facts, log);
      assert RetiresAt(x, i, facts, log + [h]);
    }
  }

  lemma RetiredSame(x: Expectation, a: Facts, b: Facts, log: seq<Handled>)
    requires Acyclic(a) && Acyclic(b) && x in a && x in b
    requires forall i :: 0 <= i < |log| ==> log[i].e in a && log[i].e in b
    requires forall i :: 0 <= i < |log| && !log[i].excessive ==>
               (Ancestor(x, log[i].e, a) <==> Ancestor(x, log[i].e, b))
    requires a[x].max == b[x].max && (a[x].calls >= a[x].max <==> b[x].calls >= b[x].max)
    ensures RetiredByLog(x, a, log) <==> RetiredByLog(x, b, log)
  {
    hide Ancestor;
    forall i | 0 <= i < |log| ensures RetiresAt(x, i, a, log) <==> RetiresAt(x, i, b, log) {
    }
  }

  lemma CallKeepsAccounted(facts: Facts, log: seq<Handled>, e: Expectation)
    requires Inv(facts) && LogOk(facts, log) && Accounted(facts, log) && e in facts && !facts[e].retired
    ensures SamePrereqs(facts, AfterCall(facts, e)) && Acyclic(AfterCall(facts, e))
    ensures Accounted(AfterCall(facts, e), log + [Handled(e, facts[e].calls >= facts[e].max)])
  {
    hide Ancestor; hide Calls; hide RetiredClosed; hide Acyclic; hide SatisfiedBy; hide RetiredByLog;
    SameAncestors(e, e, facts, AfterCall(facts, e));
    var next, h := AfterCall(facts, e), Handled(e, facts[e].calls >= facts[e].max);
    forall x | x in facts ensures next[x].retired <==> RetiredByLog(x, next, log + [h]) {
      RetiredAfterCall(x, facts, log, e);
    }
    forall i | 0 <= i <= |log| ensures (log + [h])[..i] == log[..i] {
    }
    assert log[..|log|] == log;
  }

  lemma RetiredAfterCall(x: Expectation, facts: Facts, log: seq<Handled>, e: Expectation)
    requires Inv(facts) && LogOk(facts, log) && Accounted(facts, log) && e in facts && !facts[e].retired && x in facts
    requires Acyclic(AfterCall(facts, e))
    ensures var next, h := AfterCall(facts, e), Handled(e, facts[e].calls >= facts[e].max);
            next[x].retired <==> RetiredByLog(x, next, log + [h])
  {
    hide Ancestor; hide Calls; hide RetiredClosed; hide Acyclic; hide SatisfiedBy;
    var next, h := AfterCall(facts, e), Handled(e, facts[e].calls >= facts[e].max);
    forall i | 0 <= i < |log| ensures Ancestor(x, log[i].e, facts) <==> Ancestor(x, log[i].e, next) {
      SameAncestors(x, log[i].e, facts, next);
    }
    SameAncestors(x, e, facts, next);
    RetiredByMore(x, next, log, h);
    if x != e {
      RetiredSame(x, facts, next, log);
    } else {
      NeverRetiredBefore(facts, log, e, next);
      if Ancestor(e, e, facts) {
        AncestorOlder(e, e, facts);
      }
    }
  }

  lemma AfterCallAt(facts: Facts, e: Expectation)
    requires Acyclic(facts) && e in facts && !facts[e].retired
    ensures var f, g := facts[e], AfterCall(facts, e)[e];
            g.max == f.max && g.calls == f.calls + 1 &&
            g.retired == (f.calls < f.max && e.retiresOnSaturation && f.calls + 1 >= f.max)
  {
    hide Ancestor; hide Acyclic; hide RetireAncestors;
  }

  /** No earlier call retires an expectation that is still active, now or after one more call of it. */
  lemma NeverRetiredBefore(facts: Facts, log: seq<Handled>, e: Expectation, next: Facts)
    requires Inv(facts) && LogOk(facts, log) && Accounted(facts, log) && e in facts && !facts[e].retired
    requires next == AfterCall(facts, e) && Acyclic(next)
    ensures RetiredByLog(e, next, log) ==> facts[e].calls < facts[e].max && e.retiresOnSaturation && next[e].retired
  {
    hide Ancestor; hide Calls; hide Acyclic; hide Inv; hide AfterCall;
    InvIsAcyclic(facts);
    AfterCallAt(facts, e);
    if RetiredByLog(e, next, log) {
      var i :| 0 <= i < |log| && RetiresAt(e, i, next, log);
      SameAncestors(e, log[i].e, facts, next);
      assert log[i] in log;
      ActiveIsNoAncestor(e, log[i].e, facts);
      assert !RetiresAt(e, i, facts, log);
    }
  }

  lemma InvIsAcyclic(facts: Facts)
    requires Inv(facts)
    ensures Acyclic(facts)
  {
  }

  /** Facts that differ only in the prerequisites of `e`, or that lack `e`, agree on the ancestors of whatever does not
      have `e` above it. */
  lemma {:induction false} AncestorsElsewhere(x: Expectation, y: Expectation, e: Expectation, a: Facts, b: Facts)
    requires Acyclic(a) && Acyclic(b) && y in a && y != e && !Ancestor(e, y, a)
    requires forall z <- a :: z != e ==> z in b && a[z].prereqs == b[z].prereqs
    ensures Ancestor(x, y, a) <==> Ancestor(x, y, b)
    decreases y.rank
  {
    forall p | p in a[y].prereqs ensures Ancestor(x, p, a) <==> Ancestor(x, p, b) {
      AncestorsElsewhere(x, p, e, a, b);
    }
  }

  lemma LogElsewhere(e: Expectation, a: Facts, b: Facts, log: seq<Handled>)
    requires Inv(a) && LogOk(a, log) && Acyclic(b) && b.Keys == a.Keys + {e}
    requires forall z <- a :: a[z].calls == b[z].calls && a[z].max == b[z].max
    requires forall z <- a :: z != e ==> a[z].prereqs == b[z].prereqs
    requires if e in a then !a[e].retired && a[e].calls == 0 else b[e].calls == 0
    ensures LogOk(b, log)
  {
    hide Calls; hide RetiredClosed; hide Acyclic; hide SatisfiedBy;
    if e !in a {
      NeverCalled(log, e, a);
    }
    forall i, j | 0 <= i < j < |log| && !log[i].excessive ensures !Ancestor(log[j].e, log[i].e, b) {
      if e in a {
        ActiveIsNoAncestor(e, log[i].e, a);
      } else if Ancestor(e, log[i].e, a) {
        AncestorOlder(e, log[i].e, a);
      }
      hide Inv;
      AncestorsElsewhere(log[j].e, log[i].e, e, a, b);
    }
  }

  lemma AccountedElsewhere(e: Expectation, a: Facts, b: Facts, log: seq<Handled>)
    requires Inv(a) && LogOk(a, log) && Accounted(a, log) && Acyclic(b) && b.Keys == a.Keys + {e}
    requires forall z <- a :: a[z].calls == b[z].calls && a[z].max == b[z].max && a[z].retired == b[z].retired
    requires forall z <- a :: z != e ==> a[z].prereqs == b[z].prereqs
    requires !b[e].retired && b[e].calls == 0
    ensures Accounted(b, log)
  {
    hide Calls; hide RetiredClosed; hide Acyclic; hide SatisfiedBy; hide Ancestor; hide RetiredByLog;
    forall i, x | 0 <= i < |log| && !log[i].excessive && x in b
      ensures Ancestor(x, log[i].e, a) <==> Ancestor(x, log[i].e, b)
    {
      if e in a {
        ActiveIsNoAncestor(e, log[i].e, a);
      } else if Ancestor(e, log[i].e, a) {
        AncestorOlder(e, log[i].e, a);
      }
      AncestorsElsewhere(x, log[i].e, e, a, b);
    }
    forall x | x in b ensures b[x].retired <==> RetiredByLog(x, b, log) {
      if x in a {
        RetiredSame(x, a, b, log);
      } else {
        NewIsActive(x, a, b, log);
      }
    }
  }

  lemma NewIsActive(e: Expectation, a: Facts, b: Facts, log: seq<Handled>)
    requires Acyclic(a) && Acyclic(b) && e !in a && e in b
    requires forall i :: 0 <= i < |log| ==> log[i].e in a && log[i].e in b
    requires forall i :: 0 <= i < |log| && !log[i].excessive ==>
               (Ancestor(e, log[i].e, a) <==> Ancestor(e, log[i].e, b))
    ensures !RetiredByLog(e, b, log)
  {
    hide Ancestor;
    if RetiredByLog(e, b, log) {
      var i :| 0 <= i < |log| && RetiresAt(e, i, b, log);
      AncestorOlder(e, log[i].e, a);
    }
  }

  lemma {:induction false} NeverCalled(log: seq<Handled>, e: Expectation, facts: Facts)
    requires e !in facts && forall h <- log :: h.e in facts
    ensures Calls(log, e) == 0
    decreases |log|
  {
    if log == [] {
    } else {
      NeverCalled(log[..|log| - 1], e, facts);
    }
  }

  lemma ExpectKeeps(facts: Facts, log: seq<Handled>, e: Expectation, f: Fact)
    requires Inv(facts) && LogOk(facts, log) && e !in facts
    requires 0 <= f.min <= f.max && f.prereqs == [] && f.calls == 0 && !f.retired
    requires Accounted(facts, log)
    ensures Inv(facts[e := f]) && LogOk(facts[e := f], log) && Accounted(facts[e := f], log)
  {
    hide Accounted;
    assert Inv(facts[e := f]);
    LogElsewhere(e, facts, facts[e := f], log);
    AccountedElsewhere(e, facts, facts[e := f], log);
  }

  lemma RequireKeeps(facts: Facts, log: seq<Handled>, e: Expectation, p: Expectation)
    requires Inv(facts) && LogOk(facts, log)
    requires e in facts && !facts[e].retired && facts[e].calls == 0
    requires p in facts && p.rank < e.rank && Accounted(facts, log)
    ensures var next := facts[e := facts[e].(prereqs := facts[e].prereqs + [p])];
            Inv(next) && LogOk(next, log) && Accounted(next, log)
  {
    hide Accounted;
    var next := facts[e := facts[e].(prereqs := facts[e].prereqs + [p])];
    assert Inv(next);
    LogElsewhere(e, facts, next, log);
    AccountedElsewhere(e, facts, next, log);
  }

  /** In every reachable state: whoever handles a call in time finds all calls of its ancestors behind it, each ancestor
      satisfied by the calls it had received by then. */
  lemma PrerequisitesComeFirst(facts: Facts, log: seq<Handled>, i: nat, x: Expectation)
    requires Inv(facts) && LogOk(facts, log) && i < |log| && !log[i].excessive
    requires x in facts && Ancestor(x, log[i].e, facts)
    ensures forall j :: 0 <= j < |log| && log[j].e == x ==> j < i
    ensures facts[x].min <= Calls(log[..i], x) <= facts[x].max
  {
    AncestorOlder(x, log[i].e, facts);
    CalledSettled(log[i].e, facts);
    hide Ancestor; hide Inv;
    CallsAfter(log, i, x);
  }

  lemma {:induction false} CallsAfter(log: seq<Handled>, i: nat, x: Expectation)
    requires i <= |log| && forall j :: i <= j < |log| ==> log[j].e != x
    ensures Calls(log, x) == Calls(log[..i], x)
    decreases |log|
  {
    if i == |log| {
      assert log[..i] == log;
    } else {
      CallsAfter(log[..|log| - 1], i, x);
      assert log[..|log| - 1][..i] == log[..i];
    }
  }

  // ------------------------------------------------------------------ sequences

  ghost predicate Chained(members: seq<Expectation>, facts: Facts) {
    && (forall m <- members :: m in facts)
    && forall k :: 0 < k < |members| ==> members[k - 1] in facts[members[k]].prereqs
  }

  class Sequence {
    var last: Expectation?
    ghost var members: seq<Expectation>

    ghost predicate Valid(facts: Facts)
      reads this
    {
      && Chained(members, facts)
      && if last == null then members == [] else members != [] && members[|members| - 1] == last
    }

    constructor ()
      ensures members == [] && last == null
    {
      last, members := null, [];
    }
  }

  ghost predicate PrereqsGrow(a: Facts, b: Facts) {
    forall e <- a :: e in b && a[e].prereqs <= b[e].prereqs
  }

  /** A chain stays one while prerequisites only grow. */
  lemma ChainGrows(members: seq<Expectation>, a: Facts, b: Facts)
    requires Chained(members, a) && PrereqsGrow(a, b)
    ensures Chained(members, b)
  {
  }

  /** Each member of a sequence has all earlier members as ancestors. */
  lemma {:induction false} SequenceIsOrdered(members: seq<Expectation>, i: nat, j: nat, facts: Facts)
    requires Acyclic(facts) && Chained(members, facts) && i < j < |members|
    ensures Ancestor(members[i], members[j], facts)
    decreases j
  {
    if i == j - 1 {
    } else {
      SequenceIsOrdered(members, i, j - 1, facts);
    }
  }

  /** Whatever is handled, the calls of a sequence come in its order: once a member handles a call in time, no earlier
      member handles another. */
  lemma CallsFollowSequence(facts: Facts, log: seq<Handled>, members: seq<Expectation>, i: nat, j: nat, a: nat, b: nat)
    requires Inv(facts) && LogOk(facts, log) && Chained(members, facts) && i < j < |members|
    requires a < |log| && log[a] == Handled(members[j], false)
    requires b < |log| && log[b].e == members[i]
    ensures b < a
  {
    SequenceIsOrdered(members, i, j, facts);
    PrerequisitesComeFirst(facts, log, a, members[i]);
  }

  // ------------------------------------------------------------------ the operations

  /** The calls so far let `e` handle another that it matches: none of them retired it, and each of its ancestors has
      been called as often as its bounds demand. */
  ghost predicate Allowed(e: Expectation, matches: set<Expectation>, facts: Facts, log: seq<Handled>)
    requires Acyclic(facts) && e in facts && forall i :: 0 <= i < |log| ==> log[i].e in facts
  {
    && e in matches && !RetiredByLog(e, facts, log)
    && forall x <- facts :: Ancestor(x, e, facts) ==> x.min <= Calls(log, x) <= x.max
  }

  /** All expectations of a test program and the calls they have handled. */
  class Registry {
    var all: seq<Expectation>
    ghost var facts: Facts
    ghost var log: seq<Handled>

    ghost predicate Valid()
      reads this, facts.Keys
    {
      && Reflects(facts)
      && (forall e <- facts :: e.rank < |all| && all[e.rank] == e)
      && (forall i :: 0 <= i < |all| ==> all[i] in facts && all[i].rank == i)
      && Inv(facts) && LogOk(facts, log) && Accounted(facts, log)
    }

    constructor ()
      ensures Valid() && all == [] && log == []
    {
      all, facts, log := [], map[], [];
    }

    /** EXPECT_CALL with a cardinality. */
    method Expect(low: int, high: int, retiresOnSaturation: bool) returns (e: Expectation)
      requires Valid()
      modifies this
      ensures Valid() && fresh(e) && all == old(all) + [e] && log == old(log)
      ensures facts == old(facts)[e := Fact(e.min, e.max, [], 0, false)] && PrereqsGrow(old(facts), facts)
    {
      hide Inv; hide LogOk; hide Accounted;
      e := new Expectation(low, high, retiresOnSaturation, |all|);
      ghost var f := Fact(e.min, e.max, [], 0, false);
      ExpectKeeps(facts, log, e, f);
      all := all + [e];
      facts := facts[e := f];
    }

    /** The expectation being specified gets one more immediate prerequisite. */
    method Require(e: Expectation, p: Expectation)
      requires Valid() && e in facts && e.callCount == 0 && !e.retired
      requires p in facts && p.rank < e.rank
      modifies `facts, e`prereqs
      ensures Valid() && facts.Keys == old(facts.Keys)
      ensures PrereqsGrow(old(facts), facts)
      ensures forall x <- facts :: x != e ==> facts[x] == old(facts)[x]
      ensures forall q :: q in facts[e].prereqs <==> q == p || q in old(facts)[e].prereqs
    {
      hide Inv; hide LogOk; hide Accounted;
      if p !in e.prereqs {
        RequireKeeps(facts, log, e, p);
        e.prereqs := e.prereqs + [p];
        facts := facts[e := facts[e].(prereqs := e.prereqs)];
      }
    }

    /** After(set): every member of the set becomes an immediate prerequisite. */
    method After(e: Expectation, set': seq<Expectation>)
      requires Valid() && e in facts && e.callCount == 0 && !e.retired
      requires forall p <- set' :: p in facts && p.rank < e.rank
      modifies `facts, e`prereqs
      ensures Valid() && facts.Keys == old(facts.Keys) && PrereqsGrow(old(facts), facts)
      ensures forall q :: q in facts[e].prereqs <==> q in old(facts)[e].prereqs || q in set'
      ensures forall x <- facts :: x != e ==> facts[x] == old(facts)[x]
    {
      hide Valid;
      for i := 0 to |set'|
        invariant Valid() && facts.Keys == old(facts.Keys) && PrereqsGrow(old(facts), facts)
        invariant forall q :: q in facts[e].prereqs <==> q in old(facts)[e].prereqs || q in set'[..i]
        invariant forall x <- facts :: x != e ==> facts[x] == old(facts)[x]
      {
        Require(e, set'[i]);
      }
    }

    /** InSequence: Sequence::AddExpectation. */
    method AddExpectation(s: Sequence, e: Expectation)
      requires Valid() && s.Valid(facts) && e in facts && e.callCount == 0 && !e.retired
      requires s.last != null && s.last != e ==> s.last.rank < e.rank
      modifies `facts, e`prereqs, s
      ensures Valid() && s.Valid(facts) && PrereqsGrow(old(facts), facts)
      ensures s.members == if old(s.last) == e then old(s.members) else old(s.members) + [e]
    {
      hide Inv; hide LogOk; hide Accounted;
      if s.last != e {
        if s.last != null {
          Require(e, s.last);
          ChainGrows(s.members, old(facts), facts);
        }
        s.last := e;
        s.members := s.members + [e];
      }
    }

    /** Of the expectations of one mock function, the newest that is active, whose prerequisites are satisfied and that
        matches the arguments. */
    method FindMatchingExpectation(declared: seq<Expectation>, matches: set<Expectation>) returns (r: Expectation?)
      requires Valid() && forall e <- declared :: e in facts
      ensures r == null ==> forall e <- declared :: !Handles(e, matches)
      ensures r != null ==>
                exists k :: 0 <= k < |declared| && declared[k] == r && Handles(r, matches) &&
                  forall j :: k < j < |declared| ==> !Handles(declared[j], matches)
    {
      hide Handles; hide Inv; hide LogOk; hide Accounted; hide Reflects;
      var i := |declared|;
      while i > 0
        invariant 0 <= i <= |declared|
        invariant forall j :: i <= j < |declared| ==> !Handles(declared[j], matches)
      {
        i := i - 1;
        var can := CanHandle(declared[i], matches);
        if can {
          return declared[i];
        }
      }
      return null;
    }

    /** ShouldHandleArguments. */
    method CanHandle(e: Expectation, matches: set<Expectation>) returns (can: bool)
      requires Valid() && e in facts
      ensures can <==> Handles(e, matches)
    {
      hide Ancestor; hide RetiredClosed; hide LogOk; hide Accounted;
      if e.retired {
        return false;
      }
      var satisfied := e.AllPrerequisitesAreSatisfied(facts);
      return satisfied && e in matches;
    }

    ghost predicate Handles(e: Expectation, matches: set<Expectation>)
      requires Valid() && e in facts
      reads this, facts.Keys
    {
      && !e.retired && e in matches
      && forall x <- facts :: Ancestor(x, e, facts) ==> x.min <= x.callCount <= x.max
    }

    /** A call of the mock function: of the expectations that match and that the log of earlier calls neither retires nor
        holds back, the newest handles it. */
    method Call(declared: seq<Expectation>, matches: set<Expectation>) returns (r: Expectation?)
      requires Valid() && forall e <- declared :: e in facts
      modifies this, facts.Keys
      ensures Valid() && all == old(all)
      ensures r == null ==> facts == old(facts) && log == old(log)
      ensures r == null <==> forall e <- declared :: !Allowed(e, matches, old(facts), old(log))
      ensures r != null ==>
                && (exists k :: 0 <= k < |declared| && declared[k] == r && Allowed(r, matches, old(facts), old(log)) &&
                      forall j :: k < j < |declared| ==> !Allowed(declared[j], matches, old(facts), old(log)))
                && facts == AfterCall(old(facts), r)
                && log == old(log) + [Handled(r, old(facts)[r].calls >= old(facts)[r].max)]
    {
      hide Inv; hide LogOk; hide AfterCall; hide AncestorsSatisfied; hide Reflects; hide Accounted; hide Allowed;
      hide Handles;
      LogIsKnown(facts, log);
      forall e | e in declared ensures Handles(e, matches) <==> Allowed(e, matches, facts, log) {
        LogDecides(e, matches);
      }
      r := FindMatchingExpectation(declared, matches);
      if r == null {
        return;
      }
      HandlerIsReady(r, matches);
      Handle(r);
    }

    lemma LogDecides(e: Expectation, matches: set<Expectation>)
      requires Valid() && e in facts
      ensures Handles(e, matches) <==> Allowed(e, matches, facts, log)
    {
      hide Ancestor; hide RetiredByLog; hide RetiredClosed; hide Calls;
    }

    lemma HandlerIsReady(e: Expectation, matches: set<Expectation>)
      requires Valid() && e in facts && Handles(e, matches)
      ensures !e.retired && AncestorsSatisfied(e, facts)
    {
      hide Ancestor; hide RetiredByLog; hide RetiredClosed; hide LogOk; hide Accounted; hide AncestorsSatisfied;
      CountsDecide(e, facts);
    }

    /** The expectation chosen handles the call. */
    method Handle(e: Expectation)
      requires Valid() && e in facts && !e.retired && AncestorsSatisfied(e, facts)
      modifies this, facts.Keys
      ensures Valid() && all == old(all)
      ensures facts == AfterCall(old(facts), e)
      ensures log == old(log) + [Handled(e, old(facts)[e].calls >= old(facts)[e].max)]
    {
      hide Inv; hide LogOk; hide Accounted; hide AfterCall; hide AncestorsSatisfied;
      CallKeepsInv(facts, e);
      CallKeepsLog(facts, log, e);
      CallKeepsAccounted(facts, log, e);
      log := log + [Handled(e, e.callCount >= e.max)];
      e.GetActionForArguments(facts);
      facts := AfterCall(facts, e);
    }
  }

  lemma LogIsKnown(facts: Facts, log: seq<Handled>)
    requires Inv(facts) && Accounted(facts, log)
    ensures Acyclic(facts) && forall i :: 0 <= i < |log| ==> log[i].e in facts
  {
  }

  lemma ReflectsMax(facts: Facts, e: Expectation)
    requires e in facts && Reflects(facts)
    ensures e.callCount == facts[e].calls && e.max == facts[e].max
  {
  }

  lemma AfterCallSteps(facts: Facts, e: Expectation)
    requires Inv(facts) && e in facts && !facts[e].retired && facts[e].calls < facts[e].max
    ensures var counted := facts[e := facts[e].(calls := facts[e].calls + 1)];
            && Acyclic(counted)
            && var next := RetireAncestors(counted, e);
               && e in next && next[e].calls == facts[e].calls + 1 && next[e].max == facts[e].max
               && AfterCall(facts, e) ==
                  if e.retiresOnSaturation && next[e].calls >= next[e].max
                  then next[e := next[e].(retired := true)] else next
  {
    hide Ancestor; hide Inv; hide RetireAncestors;
    CountThenRetire(facts, e);
  }

  /** Counting the call does not disturb the retirement of the ancestors. */
  lemma CountThenRetire(facts: Facts, e: Expectation)
    requires Inv(facts) && e in facts && !facts[e].retired && facts[e].calls < facts[e].max
    ensures var counted := facts[e := facts[e].(calls := facts[e].calls + 1)];
            && Acyclic(counted) && RetiredClosed(counted)
            && RetireAncestors(counted, e) == RetireAncestors(facts, e)[e := counted[e]]
  {
    hide Ancestor;
    var counted := facts[e := facts[e].(calls := facts[e].calls + 1)];
    forall x | x in facts ensures Ancestor(x, e, counted) <==> Ancestor(x, e, facts) {
      SameAncestors(x, e, facts, counted);
    }
    if Ancestor(e, e, facts) {
      AncestorOlder(e, e, facts);
    }
  }
}
