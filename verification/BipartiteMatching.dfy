/** Maximum bipartite matching by in-place augmenting-path search, as Google Mock
    uses it to pair the elements of a container with unordered matchers. */
module BipartiteMatching {
  import opened FiniteSets

  /** The sentinel for "no mate"; vector indices are never negative. */
  const UNUSED := -1

  /** Elements (left) against matchers (right); `matched[l][r]` is the edge. */
  datatype MatchMatrix = MatchMatrix(lhs: nat, rhs: nat, matched: seq<seq<bool>>) {
    ghost predicate Valid() {
      |matched| == lhs && forall l :: 0 <= l < lhs ==> |matched[l]| == rhs
    }

    predicate HasEdge(l: int, r: int)
      requires Valid()
    {
      0 <= l < lhs && 0 <= r < rhs && matched[l][r]
    }
  }

  type Graph = g: MatchMatrix | g.Valid() witness MatchMatrix(0, 0, [])

  // ---------------------------------------------------------------- matchings

  type Edges = set<(int, int)>

  ghost predicate IsMatching(g: Graph, m: Edges) {
    && (forall e <- m :: g.HasEdge(e.0, e.1))
    && (forall e <- m, f <- m :: e.0 == f.0 || e.1 == f.1 ==> e == f)
  }

  ghost predicate IsMaximumMatching(g: Graph, m: Edges) {
    IsMatching(g, m) && forall m': Edges :: IsMatching(g, m') ==> |m'| <= |m|
  }

  /** Every matcher gets an element of its own that it accepts. */
  ghost predicate IsPairing(g: Graph, element: seq<int>) {
    && |element| == g.rhs
    && (forall r :: 0 <= r < g.rhs ==> g.HasEdge(element[r], r))
    && (forall r, s :: 0 <= r < s < g.rhs ==> element[r] != element[s])
  }

  // ------------------------------------------------- the two mate vectors

  ghost predicate Shaped(g: Graph, left: seq<int>, right: seq<int>) {
    && |left| == g.lhs && |right| == g.rhs
    && (forall l :: 0 <= l < g.lhs ==> left[l] == UNUSED || g.HasEdge(l, left[l]))
    && (forall r :: 0 <= r < g.rhs ==> right[r] == UNUSED || 0 <= right[r] < g.lhs)
  }

  /** `left` and `right` refer to each other, except that `right[stale]` may still
      name a left node that has moved on. */
  ghost predicate MutualExcept(g: Graph, left: seq<int>, right: seq<int>, stale: int) {
    && Shaped(g, left, right)
    && (forall l :: 0 <= l < g.lhs && left[l] != UNUSED ==> right[left[l]] == l)
    && (forall r :: 0 <= r < g.rhs && r != stale && right[r] != UNUSED ==> left[right[r]] == r)
  }

  ghost predicate Mutual(g: Graph, left: seq<int>, right: seq<int>) {
    MutualExcept(g, left, right, UNUSED)
  }

  /** Right nodes from which no free right node can be reached: each is matched, and
      every neighbour of its mate is again in the set. */
  ghost predicate DeadEnd(g: Graph, right: seq<int>, dead: set<int>)
    requires |right| == g.rhs
  {
    forall r <- dead ::
      && 0 <= r < g.rhs && right[r] != UNUSED
      && (forall s :: g.HasEdge(right[r], s) ==> s in dead)
  }

  ghost predicate NeighboursIn(g: Graph, l: int, rs: set<int>) {
    forall r :: g.HasEdge(l, r) ==> r in rs
  }

  /** An alternating path from left node `l` to a free right node, given by its right nodes. */
  ghost predicate AugmentingPath(g: Graph, right: seq<int>, l: int, path: seq<int>)
    requires |right| == g.rhs
    decreases |path|
  {
    && path != [] && g.HasEdge(l, path[0])
    && if |path| == 1 then right[path[0]] == UNUSED
       else right[path[0]] != UNUSED && AugmentingPath(g, right, right[path[0]], path[1..])
  }

  lemma {:induction false} DeadEndBlocksPaths(g: Graph, right: seq<int>, dead: set<int>, l: int, path: seq<int>)
    requires |right| == g.rhs && DeadEnd(g, right, dead) && NeighboursIn(g, l, dead)
    ensures !AugmentingPath(g, right, l, path)
    decreases |path|
  {
    if !AugmentingPath(g, right, l, path) || |path| <= 1 {
    } else {
      DeadEndBlocksPaths(g, right, dead, right[path[0]], path[1..]);
    }
  }

  /** The nodes seen since `before` form a dead end relative to `after`. */
  ghost predicate Exhausted(g: Graph, right: seq<int>, before: set<int>, after: set<int>)
    requires |right| == g.rhs
  {
    forall r <- after - before ::
      0 <= r < g.rhs && right[r] != UNUSED && NeighboursIn(g, right[r], after)
  }

  lemma ExhaustedGrows(g: Graph, right: seq<int>, before: set<int>, entry: set<int>, after: set<int>, r: int)
    requires |right| == g.rhs && 0 <= r < g.rhs && right[r] != UNUSED && entry + {r} <= after
    requires Exhausted(g, right, before, entry) && Exhausted(g, right, entry + {r}, after)
    requires NeighboursIn(g, right[r], after)
    ensures Exhausted(g, right, before, after)
  {
    forall k <- after - before
      ensures 0 <= k < g.rhs && right[k] != UNUSED && NeighboursIn(g, right[k], after)
    {
      if k in entry {
        assert k in entry - before;
      } else if k != r {
        assert k in after - (entry + {r});
      }
    }
  }

  /** What one successful search from `l` does to the two vectors: `l` becomes matched, no other
      left node changes status, and only nodes seen by this search are touched. */
  ghost predicate Augmented(g: Graph, left: seq<int>, right: seq<int>, left': seq<int>, right': seq<int>,
                            before: set<int>, after: set<int>, l: int)
    requires |left| == |left'| == g.lhs && |right| == |right'| == g.rhs && 0 <= l < g.lhs
  {
    && MutualExcept(g, left', right', left[l])
    && left'[l] != UNUSED && left'[l] in after - before
    && (forall k :: 0 <= k < g.lhs && k != l ==> (left'[k] == UNUSED <==> left[k] == UNUSED))
    && (forall k :: 0 <= k < g.lhs && k != l && left'[k] != left[k] ==> left[k] in after - before)
    && (forall r :: 0 <= r < g.rhs && right'[r] != right[r] ==> r in after - before)
  }

  /** A successful search: it follows an augmenting path and leaves every dead end alone. */
  ghost predicate Success(g: Graph, left: seq<int>, right: seq<int>, left': seq<int>, right': seq<int>,
                          before: set<int>, after: set<int>, l: int, dead: set<int>, path: seq<int>)
    requires |left| == |left'| == g.lhs && |right| == |right'| == g.rhs && 0 <= l < g.lhs
    requires DeadEnd(g, right, dead)
  {
    && Augmented(g, left, right, left', right', before, after, l)
    && AugmentingPath(g, right, l, path)
    && (forall r <- dead :: right'[r] == right[r])
  }

  /** A failed search: nothing reachable from `l` is free. */
  ghost predicate Failure(g: Graph, right: seq<int>, before: set<int>, after: set<int>, l: int)
    requires |right| == g.rhs
  {
    && NeighboursIn(g, l, after) && Exhausted(g, right, before, after)
    && (before == {} ==> forall p :: !AugmentingPath(g, right, l, p))
  }

  lemma SuccessFree(g: Graph, left: seq<int>, right: seq<int>, before: set<int>, l: int, r: int, dead: set<int>)
    requires Mutual(g, left, right) && g.HasEdge(l, r) && r !in before && right[r] == UNUSED
    requires left[l] == UNUSED || left[l] in before
    requires DeadEnd(g, right, dead)
    ensures Success(g, left, right, left[l := r], right[r := l], before, before + {r}, l, dead, [r])
  {
  }

  lemma SuccessThrough(g: Graph, left: seq<int>, right: seq<int>, left': seq<int>, right': seq<int>,
                       before: set<int>, after: set<int>, l: int, r: int, dead: set<int>, rest: seq<int>)
    requires Mutual(g, left, right) && g.HasEdge(l, r) && r !in before && r !in dead && right[r] != UNUSED
    requires left[l] == UNUSED || left[l] in before
    requires |left'| == g.lhs && |right'| == g.rhs && before + {r} <= after
    requires DeadEnd(g, right, dead)
    requires Success(g, left, right, left', right', before + {r}, after, right[r], dead, rest)
    ensures Success(g, left, right, left'[l := r], right'[r := l], before, after, l, dead, [r] + rest)
  {
    var mate := right[r];
    assert left[mate] == r && mate != l;
    assert left'[l] == left[l];
    assert right'[r] == mate;
    assert ([r] + rest)[1..] == rest;
  }

  lemma WidenSuccess(g: Graph, left: seq<int>, right: seq<int>, left': seq<int>, right': seq<int>,
                     before: set<int>, entry: set<int>, after: set<int>, l: int, dead: set<int>, path: seq<int>)
    requires |left| == |left'| == g.lhs && |right| == |right'| == g.rhs && 0 <= l < g.lhs
    requires DeadEnd(g, right, dead) && before <= entry
    requires Success(g, left, right, left', right', entry, after, l, dead, path)
    ensures Success(g, left, right, left', right', before, after, l, dead, path)
  {
  }

  lemma FailureFromScan(g: Graph, right: seq<int>, before: set<int>, after: set<int>, l: int)
    requires |right| == g.rhs && NeighboursIn(g, l, after) && Exhausted(g, right, before, after)
    ensures Failure(g, right, before, after, l)
  {
    if before == {} {
      assert DeadEnd(g, right, after) by {
        assert forall r <- after :: r in after - before;
      }
      forall p ensures !AugmentingPath(g, right, l, p) {
        DeadEndBlocksPaths(g, right, after, l, p);
      }
    }
  }

  // ------------------------------------------------------- optimality

  ghost function EdgesOf(left: seq<int>): Edges {
    set l | 0 <= l < |left| && left[l] != UNUSED :: (l, left[l])
  }

  lemma EdgesOfIsMatching(g: Graph, left: seq<int>, right: seq<int>)
    requires Mutual(g, left, right)
    ensures IsMatching(g, EdgesOf(left))
  {
    var m := EdgesOf(left);
    forall e <- m, f <- m | e.0 == f.0 || e.1 == f.1
      ensures e == f
    {
      assert left[e.0] == e.1 && left[f.0] == f.1;
      assert right[e.1] == e.0 && right[f.1] == f.0;
    }
  }

  /** A set that maps one-to-one into another is no larger. */
  lemma {:induction false} InjectionBound(a: Edges, b: Edges, f: map<(int, int), (int, int)>)
    requires forall e <- a :: e in f && f[e] in b
    requires forall e <- a, e' <- a :: f[e] == f[e'] ==> e == e'
    ensures |a| <= |b|
  {
    if a == {} {
    } else {
      var e :| e in a;
      InjectionBound(a - {e}, b - {f[e]}, f);
    }
  }

  /** König's argument: when every unmatched left node has all its neighbours in a dead end, each edge of any
      other matching is charged to a distinct edge of this one, so this one is maximum. */
  lemma DeadEndGivesMaximum(g: Graph, left: seq<int>, right: seq<int>, dead: set<int>)
    requires Mutual(g, left, right) && DeadEnd(g, right, dead)
    requires forall l :: 0 <= l < g.lhs && left[l] == UNUSED ==> NeighboursIn(g, l, dead)
    ensures IsMaximumMatching(g, EdgesOf(left))
  {
    EdgesOfIsMatching(g, left, right);
    var m := EdgesOf(left);
    forall m': Edges | IsMatching(g, m')
      ensures |m'| <= |m|
    {
      var charge := map e: (int, int) | e in m' :: if e.1 in dead then (right[e.1], e.1) else (e.0, left[e.0]);
      forall e <- m'
        ensures charge[e] in m
        ensures e.1 in dead <==> charge[e].1 in dead
      {
        assert g.HasEdge(e.0, e.1);
        if e.1 in dead {
          assert left[right[e.1]] == e.1;
        } else {
          assert left[e.0] !in dead;
        }
      }
      InjectionBound(m', m, charge);
    }
  }

  ghost function Seen(seen: seq<bool>): set<int> {
    set r | 0 <= r < |seen| && seen[r]
  }

  /** The state between two searches: left nodes from `next` on are untouched, and each earlier
      node that stayed unmatched has all its neighbours in the dead end. */
  ghost predicate Searched(g: Graph, left: seq<int>, right: seq<int>, dead: set<int>, next: int) {
    && Mutual(g, left, right) && DeadEnd(g, right, dead)
    && (forall l :: 0 <= l && next <= l < g.lhs ==> left[l] == UNUSED)
    && (forall l :: 0 <= l < next && l < g.lhs && left[l] == UNUSED ==> NeighboursIn(g, l, dead))
  }

  lemma SearchSucceeded(g: Graph, left: seq<int>, right: seq<int>, left': seq<int>, right': seq<int>,
                        dead: set<int>, after: set<int>, l: nat)
    requires l < g.lhs && Searched(g, left, right, dead, l)
    requires |left'| == g.lhs && |right'| == g.rhs && Augmented(g, left, right, left', right', {}, after, l)
    requires forall r <- dead :: right'[r] == right[r]
    ensures Searched(g, left', right', dead, l + 1)
  {
    forall r <- dead
      ensures right'[r] != UNUSED && forall s :: g.HasEdge(right'[r], s) ==> s in dead
    {
      assert right'[r] == right[r];
    }
  }

  lemma SearchFailed(g: Graph, left: seq<int>, right: seq<int>, dead: set<int>, after: set<int>, l: nat)
    requires l < g.lhs && Searched(g, left, right, dead, l)
    requires NeighboursIn(g, l, after) && Exhausted(g, right, {}, after)
    ensures Searched(g, left, right, dead + after, l + 1)
  {
    assert forall r <- after :: r in after - {};
  }

  class MaxBipartiteMatchState {
    const graph: Graph
    const left: array<int>
    const right: array<int>

    ghost predicate Valid()
      reads left, right
    {
      left != right && left.Length == graph.lhs && right.Length == graph.rhs && Mutual(graph, left[..], right[..])
    }

    constructor (g: Graph)
      ensures graph == g && Valid() && fresh(left) && fresh(right)
      ensures forall l :: 0 <= l < g.lhs ==> left[l] == UNUSED
    {
      graph := g;
      left := new int[g.lhs](_ => UNUSED);
      right := new int[g.rhs](_ => UNUSED);
    }

    /** Depth-first search from `ilhs` for a free right node. `dead` is any dead end of the current
        matching; the search can never succeed through it. */
    method TryAugment(ilhs: nat, seen: array<bool>, ghost dead: set<int>) returns (ok: bool, ghost path: seq<int>)
      requires Valid() && ilhs < graph.lhs && seen.Length == graph.rhs
      requires left[ilhs] == UNUSED || seen[left[ilhs]]
      requires DeadEnd(graph, right[..], dead)
      modifies left, right, seen
      ensures Seen(old(seen[..])) <= Seen(seen[..])
      ensures ok ==> Success(graph, old(left[..]), old(right[..]), left[..], right[..],
                             Seen(old(seen[..])), Seen(seen[..]), ilhs, dead, path)
      ensures !ok ==> left[..] == old(left[..]) && right[..] == old(right[..])
      ensures !ok ==> Failure(graph, right[..], Seen(old(seen[..])), Seen(seen[..]), ilhs)
      ensures NeighboursIn(graph, ilhs, dead) ==> !ok
      decreases Below(graph.rhs) - Seen(seen[..])
    {
      ghost var L, R, before := left[..], right[..], Seen(seen[..]);
      for irhs := 0 to graph.rhs
        invariant left[..] == L && right[..] == R
        invariant before <= Seen(seen[..])
        invariant forall r :: 0 <= r < irhs && graph.HasEdge(ilhs, r) ==> r in Seen(seen[..])
        invariant Exhausted(graph, R, before, Seen(seen[..]))
      {
        if seen[irhs] || !graph.HasEdge(ilhs, irhs) {
          continue;
        }
        ghost var entry := Seen(seen[..]);
        seen[irhs] := true;
        assert Seen(seen[..]) == entry + {irhs};
        var mate := right[irhs];
        if mate == UNUSED {
          SuccessFree(graph, L, R, entry, ilhs, irhs, dead);
          left[ilhs], right[irhs] := irhs, ilhs;
          assert left[..] == L[ilhs := irhs] && right[..] == R[irhs := ilhs];
          WidenSuccess(graph, L, R, left[..], right[..], before, entry, Seen(seen[..]), ilhs, dead, [irhs]);
          return true, [irhs];
        }
        var found, rest := TryAugment(mate, seen, dead);
        if found {
          assert irhs !in dead;
          SuccessThrough(graph, L, R, left[..], right[..], entry, Seen(seen[..]), ilhs, irhs, dead, rest);
          ghost var L1, R1 := left[..], right[..];
          left[ilhs], right[irhs] := irhs, ilhs;
          assert left[..] == L1[ilhs := irhs] && right[..] == R1[irhs := ilhs];
          WidenSuccess(graph, L, R, left[..], right[..], before, entry, Seen(seen[..]), ilhs, dead, [irhs] + rest);
          return true, [irhs] + rest;
        }
        ExhaustedGrows(graph, R, before, entry, Seen(seen[..]), irhs);
      }
      FailureFromScan(graph, R, before, Seen(seen[..]), ilhs);
      return false, [];
    }

    /** One search per left node, in order, then the matched pairs. */
    method Compute() returns (result: seq<(int, int)>)
      requires Valid() && forall l :: 0 <= l < graph.lhs ==> left[l] == UNUSED
      modifies left, right
      ensures Valid()
      ensures Listed(result, EdgesOf(left[..]))
      ensures IsMaximumMatching(graph, EdgesOf(left[..]))
    {
      ghost var dead: set<int> := {};
      for ilhs := 0 to graph.lhs
        invariant Valid() && Searched(graph, left[..], right[..], dead, ilhs)
      {
        var seen := new bool[graph.rhs](_ => false);
        ghost var L, R := left[..], right[..];
        assert Seen(seen[..]) == {};
        var ok, _ := TryAugment(ilhs, seen, dead);
        if ok {
          SearchSucceeded(graph, L, R, left[..], right[..], dead, Seen(seen[..]), ilhs);
        } else {
          SearchFailed(graph, L, R, dead, Seen(seen[..]), ilhs);
          dead := dead + Seen(seen[..]);
        }
      }
      DeadEndGivesMaximum(graph, left[..], right[..], dead);
      result := MatchedPairs();
    }

    method MatchedPairs() returns (result: seq<(int, int)>)
      ensures Listed(result, EdgesOf(left[..]))
    {
      result := [];
      for ilhs := 0 to left.Length
        invariant Listed(result, EdgesOf(left[..ilhs]))
        invariant forall e <- result :: e.0 < ilhs
      {
        var irhs := left[ilhs];
        assert EdgesOf(left[..ilhs + 1]) == EdgesOf(left[..ilhs]) + if irhs == UNUSED then {} else {(ilhs, irhs)};
        if irhs == UNUSED {
          continue;
        }
        result := result + [(ilhs, irhs)];
      }
      assert left[..left.Length] == left[..];
    }
  }

  /** `pairs` lists the edges of `m` by increasing element, each once. */
  ghost predicate Listed(pairs: seq<(int, int)>, m: Edges) {
    && (forall e :: e in pairs <==> e in m)
    && (forall i, j :: 0 <= i < j < |pairs| ==> pairs[i].0 < pairs[j].0)
  }

  lemma {:induction false} ListedSize(pairs: seq<(int, int)>, m: Edges)
    requires Listed(pairs, m)
    ensures |pairs| == |m|
  {
    if pairs == [] {
      assert m == {};
    } else {
      var k := |pairs| - 1;
      assert pairs == pairs[..k] + [pairs[k]];
      assert pairs[k] in m;
      ListedSize(pairs[..k], m - {pairs[k]});
    }
  }

  method FindMaxBipartiteMatching(g: Graph) returns (pairs: seq<(int, int)>)
    ensures exists m :: Listed(pairs, m) && |pairs| == |m| && IsMaximumMatching(g, m)
  {
    var state := new MaxBipartiteMatchState(g);
    pairs := state.Compute();
    ListedSize(pairs, EdgesOf(state.left[..]));
  }

  ghost function Rights(m: Edges): set<int> {
    set e | e in m :: e.1
  }

  lemma {:induction false} RightsSize(g: Graph, m: Edges)
    requires IsMatching(g, m)
    ensures |Rights(m)| == |m| && Rights(m) <= Below(g.rhs)
  {
    if m == {} {
    } else {
      var e :| e in m;
      RightsSize(g, m - {e});
      assert Rights(m) == Rights(m - {e}) + {e.1};
    }
  }

  ghost function MateOf(m: Edges, r: int): (l: int)
    ensures r in Rights(m) ==> (l, r) in m
  {
    if r in Rights(m) then var e :| e in m && e.1 == r; e.0 else UNUSED
  }

  ghost function PairingEdges(element: seq<int>): Edges {
    set r | 0 <= r < |element| :: (element[r], r)
  }

  lemma CoverGivesPairing(g: Graph, m: Edges)
    requires IsMatching(g, m) && |m| == g.rhs
    ensures IsPairing(g, seq(g.rhs, r => MateOf(m, r)))
  {
    RightsSize(g, m);
    SubsetSize(Rights(m), Below(g.rhs));
    var mates := seq(g.rhs, r => MateOf(m, r));
    forall r | 0 <= r < g.rhs ensures (mates[r], r) in m {
      assert r in Below(g.rhs);
    }
    forall r, s | 0 <= r < s < g.rhs ensures mates[r] != mates[s] {
      assert (mates[r], r) in m && (mates[s], s) in m;
    }
    forall r | 0 <= r < g.rhs ensures g.HasEdge(mates[r], r) {
      assert (mates[r], r) in m;
    }
  }

  lemma PairingIsMatching(g: Graph, element: seq<int>)
    requires IsPairing(g, element)
    ensures IsMatching(g, PairingEdges(element)) && |PairingEdges(element)| == g.rhs
  {
    var p := PairingEdges(element);
    RightsSize(g, p);
    forall r <- Below(g.rhs) ensures r in Rights(p) {
      assert (element[r], r) in p;
    }
    assert Rights(p) == Below(g.rhs);
  }

  /** A maximum matching covers all matchers exactly when a pairing exists. */
  lemma MaximumCoversIffPairing(g: Graph, m: Edges)
    requires IsMaximumMatching(g, m)
    ensures |m| == g.rhs <==> exists element :: IsPairing(g, element)
  {
    if |m| == g.rhs {
      CoverGivesPairing(g, m);
    }
    RightsSize(g, m);
    SubsetSize(Rights(m), Below(g.rhs));
    forall element | IsPairing(g, element) ensures |m| == g.rhs {
      PairingIsMatching(g, element);
    }
  }

  method FindPairing(g: Graph) returns (result: bool)
    ensures result <==> exists element :: IsPairing(g, element)
  {
    var matches := FindMaxBipartiteMatching(g);
    ghost var m :| Listed(matches, m) && |matches| == |m| && IsMaximumMatching(g, m);
    MaximumCoversIffPairing(g, m);
    result := |matches| == g.rhs;
  }

  ghost predicate SomeMatcher(g: Graph, l: int) {
    exists r :: g.HasEdge(l, r)
  }

  ghost predicate SomeElement(g: Graph, r: int, upTo: int) {
    exists l :: l < upTo && g.HasEdge(l, r)
  }

  /** Every element has a matcher and every matcher an element. */
  ghost predicate NobodyIsolated(g: Graph) {
    && (forall l :: 0 <= l < g.lhs ==> SomeMatcher(g, l))
    && (forall r :: 0 <= r < g.rhs ==> SomeElement(g, r, g.lhs))
  }

  /** The cheap necessary check made before the search. */
  method VerifyAllElementsAndMatchersAreMatched(g: Graph) returns (result: bool)
    ensures result <==> NobodyIsolated(g)
  {
    var elementMatched := new bool[g.lhs](_ => false);
    var matcherMatched := new bool[g.rhs](_ => false);
    for l := 0 to g.lhs
      invariant forall k :: 0 <= k < l ==> (elementMatched[k] <==> SomeMatcher(g, k))
      invariant forall k :: l <= k < g.lhs ==> !elementMatched[k]
      invariant forall r :: 0 <= r < g.rhs ==> (matcherMatched[r] <==> SomeElement(g, r, l))
    {
      for r := 0 to g.rhs
        invariant forall k :: 0 <= k < l ==> (elementMatched[k] <==> SomeMatcher(g, k))
        invariant forall k :: l < k < g.lhs ==> !elementMatched[k]
        invariant elementMatched[l] <==> exists s :: 0 <= s < r && g.HasEdge(l, s)
        invariant forall s :: 0 <= s < r ==> (matcherMatched[s] <==> SomeElement(g, s, l + 1))
        invariant forall s :: r <= s < g.rhs ==> (matcherMatched[s] <==> SomeElement(g, s, l))
      {
        var matched := g.HasEdge(l, r);
        elementMatched[l] := elementMatched[l] || matched;
        matcherMatched[r] := matcherMatched[r] || matched;
      }
    }
    result := true;
    for r := 0 to g.rhs
      invariant result <==> forall s :: 0 <= s < r ==> matcherMatched[s]
    {
      if !matcherMatched[r] {
        result := false;
      }
    }
    ghost var matchersOk := result;
    for l := 0 to g.lhs
      invariant result <==> matchersOk && forall k :: 0 <= k < l ==> elementMatched[k]
    {
      if !elementMatched[l] {
        result := false;
      }
    }
  }

  /** With as many elements as matchers the cheap check never rejects a matrix that has a pairing. */
  lemma PairingPassesVerify(g: Graph, element: seq<int>)
    requires g.lhs == g.rhs && IsPairing(g, element)
    ensures NobodyIsolated(g)
  {
    ImageSize(element, g.rhs);
    forall l <- Image(element, g.rhs) ensures l in Below(g.lhs) {
      var r :| 0 <= r < g.rhs && element[r] == l;
      assert g.HasEdge(l, r);
    }
    SubsetSize(Image(element, g.rhs), Below(g.lhs));
    forall l | 0 <= l < g.lhs ensures SomeMatcher(g, l) {
      assert l in Below(g.lhs);
      var r :| 0 <= r < g.rhs && element[r] == l;
      assert g.HasEdge(l, r);
    }
    forall r | 0 <= r < g.rhs ensures SomeElement(g, r, g.lhs) {
      assert g.HasEdge(element[r], r);
    }
  }

  /** UnorderedElementsAre: true exactly when the counts agree and some permutation of the elements
      satisfies all the matchers. */
  method MatchAndExplain(g: Graph) returns (matches: bool)
    ensures matches <==> g.lhs == g.rhs && exists element :: IsPairing(g, element)
  {
    if g.lhs == 0 && g.rhs == 0 {
      assert IsPairing(g, []);
      return true;
    }
    if g.lhs != g.rhs {
      return false;
    }
    forall element | IsPairing(g, element)
      ensures NobodyIsolated(g)
    {
      PairingPassesVerify(g, element);
    }
    matches := VerifyAllElementsAndMatchersAreMatched(g);
    if matches {
      matches := FindPairing(g);
    }
  }
}
