/** Registration, shuffling and running of tests in Google Test. */
module TestRunner {
  import opened Bytes
  import opened FiniteSets
  import opened TestFilter

  // ------------------------------------------------------------------ permutations

  ghost predicate IsPermutation(p: seq<int>, n: nat) {
    && |p| == n
    && (forall i :: 0 <= i < n ==> 0 <= p[i] < n)
    && forall i, j :: 0 <= i < j < n ==> p[i] != p[j]
  }

  function Identity(n: nat): (p: seq<int>)
    ensures |p| == n && forall i :: 0 <= i < n ==> p[i] == i
    ensures IsPermutation(p, n)
  {
    seq(n, i => i)
  }

  /** An injective map of 0..n into itself misses nothing. */
  lemma PermutationHits(p: seq<int>, n: nat, x: int)
    requires IsPermutation(p, n) && 0 <= x < n
    ensures x in p
  {
    ImageSize(p, n);
    SubsetSize(Image(p, n), Below(n));
    assert x in Image(p, n);
  }

  // ------------------------------------------------------------------ random numbers and shuffling

  const MAX_RANGE := 0x8000_0000
  const UINT32 := 0x1_0000_0000

  /** The linear congruential generator, in 32-bit arithmetic. */
  function NextState(state: nat): (s: nat)
    ensures s < MAX_RANGE
  {
    (1103515245 * state + 12345) % UINT32 % MAX_RANGE
  }

  class Random {
    var state: nat

    constructor (seed: nat)
      ensures state == seed
    {
      state := seed;
    }

    method Reseed(seed: nat)
      modifies this
      ensures state == seed
    {
      state := seed;
    }

    /** A number in [0, range). */
    method Generate(range: nat) returns (r: nat)
      requires 0 < range <= MAX_RANGE
      modifies this
      ensures state == NextState(old(state)) && r == state % range && r < range
    {
      state := NextState(state);
      return state % range;
    }
  }

  /** `w` is `v` rearranged by `sigma`, which moves nothing out of or into [begin, end). */
  ghost predicate Rearranged(v: seq<int>, w: seq<int>, sigma: seq<int>, begin: int, end: int) {
    && |w| == |v| && IsPermutation(sigma, |v|)
    && (forall i :: 0 <= i < |v| ==> w[i] == v[sigma[i]])
    && (forall i :: 0 <= i < |v| ==> if begin <= i < end then begin <= sigma[i] < end else sigma[i] == i)
  }

  function Swapped(v: seq<int>, i: nat, j: nat): (w: seq<int>)
    requires i < |v| && j < |v|
    ensures |w| == |v|
  {
    v[i := v[j]][j := v[i]]
  }

  /** The shuffle as a function of the generator's state; returns the next state too. */
  function FisherYates(v: seq<int>, begin: nat, width: nat, state: nat): (r: (seq<int>, nat))
    requires begin + width <= |v|
    ensures |r.0| == |v|
    decreases width
  {
    if width < 2 then (v, state)
    else
      var s := NextState(state);
      FisherYates(Swapped(v, begin + s % width, begin + width - 1), begin, width - 1, s)
  }

  lemma FisherYatesStep(v: seq<int>, begin: nat, width: nat, state: nat)
    requires begin + width <= |v|
    ensures width < 2 ==> FisherYates(v, begin, width, state) == (v, state)
    ensures width >= 2 ==>
              var s := NextState(state);
              FisherYates(v, begin, width, state) ==
              FisherYates(Swapped(v, begin + s % width, begin + width - 1), begin, width - 1, s)
  {
    hide NextState; hide Swapped;
  }

  lemma RearrangedSwap(v: seq<int>, w: seq<int>, sigma: seq<int>, begin: int, end: int, i: nat, j: nat)
    requires Rearranged(v, w, sigma, begin, end) && 0 <= begin <= i < end && begin <= j < end <= |v|
    ensures |w| == |sigma| == |v| == |Swapped(w, i, j)| == |Swapped(sigma, i, j)|
    ensures Rearranged(v, Swapped(w, i, j), Swapped(sigma, i, j), begin, end)
  {
  }

  lemma RearrangedAtFirst(v: seq<int>, begin: int, end: int)
    ensures Rearranged(v, v, Identity(|v|), begin, end) && |Identity(|v|)| == |v|
  {
  }

  /** Shuffles the range by exchanging its last element with one chosen at random, and again in the range before it. */
  method ShuffleRange(random: Random, begin: int, end: int, v: seq<int>) returns (w: seq<int>, ghost sigma: seq<int>)
    requires 0 <= begin <= end <= |v| <= MAX_RANGE
    modifies random
    ensures Rearranged(v, w, sigma, begin, end)
    ensures (w, random.state) == FisherYates(v, begin, end - begin, old(random.state))
  {
    hide *;
    RearrangedAtFirst(v, begin, end);
    w, sigma := v, Identity(|v|);
    var width := end - begin;
    FisherYatesStep(w, begin, width, random.state);
    while width >= 2
      invariant 0 <= width <= end - begin && |w| == |sigma| == |v|
      invariant Rearranged(v, w, sigma, begin, end)
      invariant FisherYates(w, begin, width, random.state) == FisherYates(v, begin, end - begin, old(random.state))
    {
      FisherYatesStep(w, begin, width, random.state);
      var last := begin + width - 1;
      var offset := random.Generate(width);
      var selected := begin + offset;
      RearrangedSwap(v, w, sigma, begin, end, selected, last);
      w, sigma := Swapped(w, selected, last), Swapped(sigma, selected, last);
      width := width - 1;
    }
    FisherYatesStep(w, begin, width, random.state);
  }

  lemma RearrangedPermutation(v: seq<int>, w: seq<int>, sigma: seq<int>, begin: int, end: int)
    requires Rearranged(v, w, sigma, begin, end) && IsPermutation(v, |v|)
    ensures IsPermutation(w, |v|)
  {
    forall i, j | 0 <= i < j < |w| ensures w[i] != w[j] {
      assert sigma[i] != sigma[j];
    }
  }

  // ------------------------------------------------------------------ tests and test cases

  /** The members of `chosen`, in the order in which `order` lists them. */
  ghost function Picked(order: seq<int>, chosen: iset<int>): (r: seq<int>) {
    if order == [] then []
    else
      var last := order[|order| - 1];
      Picked(order[..|order| - 1], chosen) + if last in chosen then [last] else []
  }

  lemma PickedFromNothing(chosen: iset<int>)
    ensures Picked([], chosen) == []
  {
  }

  lemma PickedStep(order: seq<int>, i: nat, chosen: iset<int>)
    requires i < |order|
    ensures Picked(order[..i + 1], chosen) == Picked(order[..i], chosen) + if order[i] in chosen then [order[i]] else []
  {
    assert order[..i + 1][..i] == order[..i];
  }

  lemma {:induction false} PickedIs(order: seq<int>, chosen: iset<int>)
    requires forall i, j :: 0 <= i < j < |order| ==> order[i] != order[j]
    ensures forall x :: x in Picked(order, chosen) <==> x in order && x in chosen
    ensures forall a, b :: 0 <= a < b < |Picked(order, chosen)| ==> Picked(order, chosen)[a] != Picked(order, chosen)[b]
    decreases |order|
  {
    if order == [] {
      assert Picked(order, chosen) == [];
    } else {
      var n := |order| - 1;
      PickedIs(order[..n], chosen);
      assert order == order[..n] + [order[n]];
    }
  }

  function GetElementOr(v: seq<int>, i: int, default: int): (x: int) {
    if i < 0 || i >= |v| then default else v[i]
  }

  class TestInfo {
    const name: CharString
    var isDisabled: bool
    var matchesFilter: bool
    var shouldRun: bool

    constructor (name: CharString)
      ensures this.name == name && !isDisabled && !matchesFilter && !shouldRun
    {
      this.name := name;
      isDisabled, matchesFilter, shouldRun := false, false, false;
    }
  }

  class TestCase {
    const name: CharString
    var tests: seq<TestInfo>
    var indices: seq<int>
    var shouldRun: bool

    ghost predicate Valid()
      reads `tests, `indices
    {
      IsPermutation(indices, |tests|)
    }

    constructor (name: CharString)
      ensures Valid() && this.name == name && tests == [] && indices == [] && !shouldRun
    {
      this.name := name;
      tests, indices, shouldRun := [], [], false;
    }

    method AddTestInfo(test: TestInfo)
      requires Valid()
      modifies `tests, `indices
      ensures Valid() && tests == old(tests) + [test]
      ensures indices == old(indices) + [|old(tests)|]
      ensures old(indices) == Identity(|old(tests)|) ==> indices == Identity(|tests|)
    {
      tests := tests + [test];
      indices := indices + [|indices|];
    }

    method ShuffleTests(random: Random)
      requires Valid() && |tests| <= MAX_RANGE
      modifies `indices, random
      ensures Valid()
      ensures (indices, random.state) == FisherYates(old(indices), 0, |old(indices)|, old(random.state))
    {
      hide FisherYates; hide NextState; hide Rearranged;
      ghost var before := indices;
      ghost var sigma;
      indices, sigma := ShuffleRange(random, 0, |indices|, indices);
      RearrangedPermutation(before, indices, sigma, 0, |before|);
    }

    method UnshuffleTests()
      requires Valid()
      modifies `indices
      ensures indices == Identity(|tests|)
    {
      for i := 0 to |indices|
        invariant |indices| == |tests|
        invariant forall k :: 0 <= k < i ==> indices[k] == k
      {
        indices := indices[i := i];
      }
    }

    /** The tests that should run. */
    ghost function Chosen(): (xs: iset<int>)
      reads this, tests
    {
      iset x | shouldRun && 0 <= x < |tests| && tests[x].shouldRun
    }

    /** Runs every test that should run, each once, in the order of the indices; says which. */
    method Run() returns (ran: seq<int>)
      requires Valid()
      ensures ran == Picked(indices, Chosen())
      ensures forall x :: x in ran <==> shouldRun && 0 <= x < |tests| && tests[x].shouldRun
      ensures forall a, b :: 0 <= a < b < |ran| ==> ran[a] != ran[b]
    {
      hide Picked;
      ran := [];
      PickedIs(indices, Chosen());
      forall x | 0 <= x < |tests| ensures x in indices {
        PermutationHits(indices, |tests|, x);
      }
      if !shouldRun {
        NothingPicked(indices, Chosen());
        return;
      }
      PickedFromNothing(Chosen());
      for i := 0 to |indices|
        invariant ran == Picked(indices[..i], Chosen())
      {
        PickedStep(indices, i, Chosen());
        if tests[indices[i]].shouldRun {
          ran := ran + [indices[i]];
        }
      }
      assert indices[..|indices|] == indices;
    }
  }

  lemma {:induction false} NothingPicked(order: seq<int>, chosen: iset<int>)
    requires chosen == iset{}
    ensures Picked(order, chosen) == []
    decreases |order|
  {
    if order == [] {
    } else {
      NothingPicked(order[..|order| - 1], chosen);
    }
  }

  // ------------------------------------------------------------------ the unit test

  ghost predicate IsDeath(c: TestCase) {
    IsDeathTestName(c.name)
  }

  ghost function Deaths(cs: seq<TestCase>): (r: seq<TestCase>) {
    if cs == [] then []
    else Deaths(cs[..|cs| - 1]) + if IsDeath(cs[|cs| - 1]) then [cs[|cs| - 1]] else []
  }

  ghost function Others(cs: seq<TestCase>): (r: seq<TestCase>) {
    if cs == [] then []
    else Others(cs[..|cs| - 1]) + if IsDeath(cs[|cs| - 1]) then [] else [cs[|cs| - 1]]
  }

  /** Death-test cases stand first, each kind in order of registration; names are distinct. */
  ghost predicate Layout(cases: seq<TestCase>, lastDeath: int, registered: seq<TestCase>) {
    && -1 <= lastDeath < |cases|
    && (forall i :: 0 <= i < |cases| ==> (IsDeath(cases[i]) <==> i <= lastDeath))
    && |Deaths(registered)| == lastDeath + 1 && cases == Deaths(registered) + Others(registered)
    && forall i, j :: 0 <= i < j < |cases| ==> cases[i].name != cases[j].name
  }

  /** vector::insert. */
  function InsertAt<T>(s: seq<T>, at: int, x: T): (r: seq<T>)
    requires 0 <= at <= |s|
    ensures |r| == |s| + 1
    ensures forall i :: 0 <= i < |r| ==> r[i] == if i < at then s[i] else if i == at then x else s[i - 1]
  {
    s[..at] + [x] + s[at..]
  }

  lemma RegisterDeath(cases: seq<TestCase>, lastDeath: int, registered: seq<TestCase>, c: TestCase)
    requires Layout(cases, lastDeath, registered) && IsDeath(c)
    requires forall i :: 0 <= i < |cases| ==> cases[i].name != c.name
    ensures Layout(InsertAt(cases, lastDeath + 1, c), lastDeath + 1, registered + [c])
  {
    hide IsDeath;
    var cases', registered' := InsertAt(cases, lastDeath + 1, c), registered + [c];
    assert registered'[..|registered|] == registered;
    assert registered'[|registered'| - 1] == c;
    assert Deaths(registered') == Deaths(registered) + [c];
    assert Others(registered') == Others(registered);
    assert cases' == Deaths(registered') + Others(registered');
  }

  lemma RegisterOther(cases: seq<TestCase>, lastDeath: int, registered: seq<TestCase>, c: TestCase)
    requires Layout(cases, lastDeath, registered) && !IsDeath(c)
    requires forall i :: 0 <= i < |cases| ==> cases[i].name != c.name
    ensures Layout(InsertAt(cases, |cases|, c), lastDeath, registered + [c])
  {
    hide IsDeath;
    assert (registered + [c])[..|registered|] == registered;
    assert InsertAt(cases, |cases|, c) == cases + [c];
  }

  ghost predicate AllValid(cases: seq<TestCase>)
    reads cases`tests, cases`indices
  {
    forall i :: 0 <= i < |cases| ==> cases[i].Valid()
  }

  ghost predicate AllInOrder(cases: seq<TestCase>)
    reads cases`tests, cases`indices
  {
    forall i :: 0 <= i < |cases| ==> cases[i].indices == Identity(|cases[i].tests|)
  }

  lemma InsertKeepsAllValid(cases: seq<TestCase>, at: int, c: TestCase)
    requires AllValid(cases) && c.Valid() && 0 <= at <= |cases|
    requires AllInOrder(cases) && c.indices == Identity(|c.tests|)
    ensures AllValid(InsertAt(cases, at, c)) && AllInOrder(InsertAt(cases, at, c))
  {
    hide IsPermutation; hide Identity;
  }

  /** A permutation that never mixes death-test cases with others. */
  ghost predicate DeathsFirst(indices: seq<int>, n: nat, lastDeath: int) {
    && IsPermutation(indices, n)
    && forall i :: 0 <= i < n ==> (indices[i] <= lastDeath <==> i <= lastDeath)
  }

  ghost function IndexLists(cases: seq<TestCase>): (lists: seq<seq<int>>)
    reads cases`indices
    ensures |lists| == |cases| && forall i :: 0 <= i < |cases| ==> lists[i] == cases[i].indices
  {
    if cases == [] then [] else IndexLists(cases[..|cases| - 1]) + [cases[|cases| - 1].indices]
  }

  /** Shuffles one list after the other with one generator. */
  function ShuffledLists(lists: seq<seq<int>>, state: nat): (r: (seq<seq<int>>, nat))
    ensures |r.0| == |lists|
  {
    if lists == [] then ([], state)
    else
      var (before, s) := ShuffledLists(lists[..|lists| - 1], state);
      var (last, s') := FisherYates(lists[|lists| - 1], 0, |lists[|lists| - 1]|, s);
      (before + [last], s')
  }

  lemma IndexListsAt(cases: seq<TestCase>)
    ensures |IndexLists(cases)| == |cases| && forall i :: 0 <= i < |cases| ==> IndexLists(cases)[i] == cases[i].indices
  {
  }

  lemma NoListsShuffled(state: nat)
    ensures ShuffledLists([], state) == ([], state)
  {
  }

  lemma ShuffledStep(lists: seq<seq<int>>, i: nat, state: nat)
    requires i < |lists|
    ensures var before := ShuffledLists(lists[..i], state);
            var last := FisherYates(lists[i], 0, |lists[i]|, before.1);
            ShuffledLists(lists[..i + 1], state) == (before.0 + [last.0], last.1)
  {
    hide FisherYates;
    assert lists[..i + 1][..i] == lists[..i];
  }

  method ShuffleEach(cases: seq<TestCase>, random: Random)
    requires AllValid(cases) && forall c <- cases :: |c.tests| <= MAX_RANGE
    requires forall i, j :: 0 <= i < j < |cases| ==> cases[i] != cases[j]
    modifies cases`indices, random
    ensures AllValid(cases)
    ensures (IndexLists(cases), random.state) == ShuffledLists(old(IndexLists(cases)), old(random.state))
  {
    hide IsPermutation; hide FisherYates; hide NextState; hide ShuffledLists; hide IndexLists;
    NoListsShuffled(random.state);
    IndexListsAt(cases);
    ghost var lists, start := IndexLists(cases), random.state;
    for i := 0 to |cases|
      invariant AllValid(cases)
      invariant random.state == ShuffledLists(lists[..i], start).1 && |ShuffledLists(lists[..i], start).0| == i
      invariant forall k :: 0 <= k < |cases| ==>
                  cases[k].indices == if k < i then ShuffledLists(lists[..i], start).0[k] else lists[k]
    {
      ShuffledStep(lists, i, start);
      cases[i].ShuffleTests(random);
    }
    assert lists[..|cases|] == lists;
    IndexListsAt(cases);
    assert IndexLists(cases) == ShuffledLists(lists, start).0;
  }

  class UnitTest {
    const random: Random
    var cases: seq<TestCase>
    var indices: seq<int>
    var lastDeath: int
    /** The cases in the order of their registration. */
    ghost var registered: seq<TestCase>

    ghost predicate Valid()
      reads this, cases`tests, cases`indices
    {
      && Layout(cases, lastDeath, registered)
      && AllValid(cases)
      && DeathsFirst(indices, |cases|, lastDeath)
    }

    /** Cases and tests run in the order in which they were registered. */
    ghost predicate Unshuffled()
      reads `cases, `indices, cases`tests, cases`indices
    {
      indices == Identity(|cases|) && AllInOrder(cases)
    }

    constructor (random: Random)
      ensures Valid() && Unshuffled() && cases == [] && registered == [] && this.random == random
    {
      this.random := random;
      cases, indices, lastDeath, registered := [], [], -1, [];
    }

    method FindTestCase(name: CharString) returns (c: TestCase?)
      ensures c != null ==> c in cases && c.name == name
      ensures c == null ==> forall i :: 0 <= i < |cases| ==> cases[i].name != name
    {
      for i := 0 to |cases|
        invariant forall k :: 0 <= k < i ==> cases[k].name != name
      {
        if cases[i].name == name {
          return cases[i];
        }
      }
      return null;
    }

    /** The case of that name, registered now if it is new. Only while nothing is shuffled. */
    method GetTestCase(name: CharString) returns (c: TestCase)
      requires Valid() && Unshuffled()
      modifies this
      ensures Valid() && Unshuffled() && c in cases && c.name == name
      ensures if exists k <- old(cases) :: k.name == name then cases == old(cases) && registered == old(registered)
              else fresh(c) && c.tests == [] && registered == old(registered) + [c]
      ensures forall k <- old(cases) :: k in cases
    {
      hide Layout; hide IsDeath;
      var found := FindTestCase(name);
      if found != null {
        return found;
      }
      c := new TestCase(name);
      Register(c);
    }

    /** Death-test cases go behind the last one so far, others to the end. */
    method Register(c: TestCase)
      requires Valid() && Unshuffled() && c.Valid() && c.indices == Identity(|c.tests|)
      requires forall i :: 0 <= i < |cases| ==> cases[i].name != c.name
      modifies this
      ensures Valid() && Unshuffled() && registered == old(registered) + [c]
      ensures c in cases && forall k <- old(cases) :: k in cases
    {
      hide SomePattern; hide Layout; hide AllValid; hide AllInOrder; hide IsDeathTestName; hide DeathsFirst; hide Identity;
      hide InsertAt; hide IsPermutation;
      DeathTestNames(c.name);
      var isDeathTest := MatchesFilter(c.name, DEATH_TEST_CASE_FILTER);
      RegisterKeeps(cases, lastDeath, registered, c);
      registered := registered + [c];
      indices := indices + [|indices|];
      if isDeathTest {
        cases, lastDeath := InsertAt(cases, lastDeath + 1, c), lastDeath + 1;
      } else {
        cases := cases + [c];
      }
    }

    /** Registers a test with its case. */
    method AddTest(caseName: CharString, test: TestInfo)
      requires Valid() && Unshuffled()
      modifies this, cases
      ensures Valid() && Unshuffled()
      ensures forall c <- old(cases) ::
                c in cases && c.tests == old(c.tests) + if c.name == caseName then [test] else []
      ensures (exists c <- old(cases) :: c.name == caseName) ||
              exists c <- cases :: fresh(c) && c.name == caseName && c.tests == [test]
    {
      hide Layout; hide SomePattern;
      var c := GetTestCase(caseName);
      NamesAreDistinct(cases, lastDeath, registered);
      c.AddTestInfo(test);
    }

    /** Shuffles the death-test cases and the others apart. */
    method ShuffleCases()
      requires Layout(cases, lastDeath, registered) && DeathsFirst(indices, |cases|, lastDeath) && |cases| <= MAX_RANGE
      modifies `indices, random
      ensures DeathsFirst(indices, |cases|, lastDeath) && -1 <= lastDeath < |cases| == |old(indices)|
      ensures var deaths := FisherYates(old(indices), 0, lastDeath + 1, old(random.state));
              (indices, random.state) == FisherYates(deaths.0, lastDeath + 1, |cases| - lastDeath - 1, deaths.1)
    {
      hide *;
      LayoutBounds(cases, lastDeath, registered);
      IndexCount(indices, |cases|, lastDeath);
      ghost var before := indices;
      ghost var sigma;
      indices, sigma := ShuffleRange(random, 0, lastDeath + 1, indices);
      ShuffleKeepsDeathsFirst(before, indices, sigma, 0, lastDeath + 1, lastDeath);
      before := indices;
      indices, sigma := ShuffleRange(random, lastDeath + 1, |cases|, indices);
      ShuffleKeepsDeathsFirst(before, indices, sigma, lastDeath + 1, |cases|, lastDeath);
    }

    /** Shuffles the death-test cases, the others, and the tests inside each case. */
    method ShuffleTests()
      requires Valid() && |cases| <= MAX_RANGE && forall c <- cases :: |c.tests| <= MAX_RANGE
      modifies `indices, cases`indices, random
      ensures Valid() && -1 <= lastDeath < |cases| == |old(indices)|
      ensures var deaths := FisherYates(old(indices), 0, lastDeath + 1, old(random.state));
              var others := FisherYates(deaths.0, lastDeath + 1, |cases| - lastDeath - 1, deaths.1);
              && indices == others.0
              && (IndexLists(cases), random.state) == ShuffledLists(old(IndexLists(cases)), others.1)
    {
      hide Layout; hide AllValid; hide FisherYates; hide ShuffledLists; hide IndexLists; hide DeathsFirst; hide NextState;
      LayoutDistinct(cases, lastDeath, registered);
      ShuffleCases();
      ShuffleEach(cases, random);
    }

    /** Back to the order of registration, in the list of cases and in every case. */
    method UnshuffleTests()
      requires Valid()
      modifies `indices, cases`indices
      ensures Valid() && Unshuffled()
    {
      hide Layout;
      for i := 0 to |cases|
        invariant |indices| == |cases| && AllValid(cases)
        invariant forall k :: 0 <= k < i ==> indices[k] == k && cases[k].indices == Identity(|cases[k].tests|)
      {
        cases[i].UnshuffleTests();
        indices := indices[i := i];
      }
    }

    /** The case that listeners are shown at position `i`. */
    function TestCaseAt(i: int): (c: TestCase?)
      requires |indices| == |cases|
      reads `cases, `indices
    {
      var index := GetElementOr(indices, i, -1);
      if index < 0 then null else cases[i]
    }

    /** The case that runs at position `i`. */
    function MutableTestCaseAt(i: int): (c: TestCase?)
      requires IsPermutation(indices, |cases|)
      reads `cases, `indices
    {
      var index := GetElementOr(indices, i, -1);
      if index < 0 then null else cases[index]
    }

    /** Listeners are shown the order in which the cases run exactly when the cases are not shuffled. */
    lemma ListenersSeeRunOrder()
      requires Valid()
      ensures (forall i :: TestCaseAt(i) == MutableTestCaseAt(i)) <==> indices == Identity(|cases|)
    {
      hide IsDeath;
      if forall i :: TestCaseAt(i) == MutableTestCaseAt(i) {
        forall i | 0 <= i < |cases| ensures indices[i] == i {
          assert TestCaseAt(i) == MutableTestCaseAt(i);
          assert cases[i].name == cases[indices[i]].name;
        }
      }
    }

    ghost predicate ToRun(c: int, x: int)
      reads `cases, cases`tests, cases`shouldRun, set k <- cases, y <- k.tests :: y`shouldRun
    {
      && 0 <= c < |cases| && cases[c].shouldRun
      && 0 <= x < |cases[c].tests| && (Listed(cases, c, x); cases[c].tests[x].shouldRun)
    }

    ghost function Wanted(): (w: iset<(int, int)>)
      reads `cases, cases`tests, cases`shouldRun, set k <- cases, y <- k.tests :: y`shouldRun
    {
      iset c, x | ToRun(c, x) :: (c, x)
    }

    /** Runs the cases in the order of the indices, and the tests of each in the order of its own: exactly the selected
        tests of the cases that should run, each once, all death tests before all others. */
    method RunAllTests() returns (log: seq<(int, int)>)
      requires Valid()
      ensures log == RunLog(indices, IndexLists(cases), Wanted())
      ensures forall c, x :: (c, x) in log <==> ToRun(c, x)
      ensures forall a, b :: 0 <= a < b < |log| ==> log[a] != log[b]
      ensures DeathsRunFirst(log, cases)
    {
      hide Layout; hide IsDeath; hide AllValid; hide Progress; hide RunLog; hide IndexLists; hide Picked; hide Row;
      ghost var wanted, lists := Wanted(), IndexLists(cases);
      IndexListsAt(cases);
      log := [];
      NoProgress(wanted, lastDeath);
      NothingLogged(lists, wanted);
      for i := 0 to |cases|
        invariant Progress(log, indices[..i], wanted, lastDeath)
        invariant log == RunLog(indices[..i], lists, wanted)
      {
        var c := indices[i];
        assert cases[c].Valid() by { assert AllValid(cases); CaseValid(cases, c); }
        var ran := cases[c].Run();
        RowIs(c, cases[c].Chosen(), wanted);
        RunLogStep(indices, i, lists, wanted);
        ProgressStep(log, indices[..i], wanted, lastDeath, c, ran);
        assert indices[..i + 1] == indices[..i] + [c];
        log := log + Tagged(c, ran);
      }
      assert indices[..|cases|] == indices;
      forall c | 0 <= c < |cases| ensures c in indices {
        PermutationHits(indices, |cases|, c);
      }
      ProgressEnds(log, indices, wanted, cases, lastDeath, registered);
    }
  }

  ghost function Row(wanted: iset<(int, int)>, c: int): (xs: iset<int>) {
    iset x | (c, x) in wanted
  }

  lemma RowIs(c: int, chosen: iset<int>, wanted: iset<(int, int)>)
    requires forall x :: x in chosen <==> (c, x) in wanted
    ensures Row(wanted, c) == chosen
  {
    assert forall x :: x in Row(wanted, c) <==> x in chosen;
  }

  /** The wanted tests of one case, in the order of its list. */
  ghost function CaseLog(c: int, lists: seq<seq<int>>, wanted: iset<(int, int)>): (log: seq<(int, int)>) {
    if 0 <= c < |lists| then Tagged(c, Picked(lists[c], Row(wanted, c))) else []
  }

  /** The wanted tests of one case after the other. */
  ghost function RunLog(order: seq<int>, lists: seq<seq<int>>, wanted: iset<(int, int)>): (log: seq<(int, int)>) {
    if order == [] then []
    else RunLog(order[..|order| - 1], lists, wanted) + CaseLog(order[|order| - 1], lists, wanted)
  }

  lemma NothingLogged(lists: seq<seq<int>>, wanted: iset<(int, int)>)
    ensures RunLog([], lists, wanted) == []
  {
  }

  lemma RunLogStep(order: seq<int>, i: nat, lists: seq<seq<int>>, wanted: iset<(int, int)>)
    requires i < |order|
    ensures RunLog(order[..i + 1], lists, wanted) == RunLog(order[..i], lists, wanted) + CaseLog(order[i], lists, wanted)
  {
    hide CaseLog;
    assert order[..i + 1][..i] == order[..i];
  }

  lemma {:induction false} NothingWanted(order: seq<int>, lists: seq<seq<int>>, wanted: iset<(int, int)>)
    requires wanted == iset{}
    ensures RunLog(order, lists, wanted) == []
    decreases |order|
  {
    if order == [] {
    } else {
      NothingWanted(order[..|order| - 1], lists, wanted);
      var c := order[|order| - 1];
      if 0 <= c < |lists| {
        NothingPicked(lists[c], Row(wanted, c));
      }
    }
  }

  /** The order of the cases and that of the tests in each case: as registered, or shuffled from the seed, first the
      death-test cases, then the others, then the tests of each case. */
  ghost function RunOrder(lists: seq<seq<int>>, lastDeath: int, shuffle: bool, seed: nat): (r: (seq<int>, seq<seq<int>>))
    requires -1 <= lastDeath < |lists|
  {
    if !shuffle then (Identity(|lists|), lists)
    else
      var deaths := FisherYates(Identity(|lists|), 0, lastDeath + 1, seed);
      var others := FisherYates(deaths.0, lastDeath + 1, |lists| - lastDeath - 1, deaths.1);
      (others.0, ShuffledLists(lists, others.1).0)
  }

  lemma InsertKeepsMembers<T>(s: seq<T>, at: int, x: T)
    requires 0 <= at <= |s|
    ensures x in InsertAt(s, at, x) && forall k <- s :: k in InsertAt(s, at, x)
  {
    var r := InsertAt(s, at, x);
    assert r[at] == x;
    forall k | k in s ensures k in r {
      var i :| 0 <= i < |s| && s[i] == k;
      assert r[if i < at then i else i + 1] == k;
    }
  }

  lemma RegisterKeeps(cases: seq<TestCase>, lastDeath: int, registered: seq<TestCase>, c: TestCase)
    requires Layout(cases, lastDeath, registered) && AllValid(cases) && c.Valid()
    requires AllInOrder(cases) && c.indices == Identity(|c.tests|)
    requires forall i :: 0 <= i < |cases| ==> cases[i].name != c.name
    ensures -1 <= lastDeath < |cases|
    ensures IsDeath(c) ==>
              var more := InsertAt(cases, lastDeath + 1, c);
              && Layout(more, lastDeath + 1, registered + [c]) && AllValid(more) && AllInOrder(more)
              && c in more && (forall k <- cases :: k in more)
              && Identity(|cases|) + [|cases|] == Identity(|more|)
              && DeathsFirst(Identity(|more|), |more|, lastDeath + 1)
    ensures !IsDeath(c) ==>
              var more := cases + [c];
              && Layout(more, lastDeath, registered + [c]) && AllValid(more) && AllInOrder(more)
              && c in more && (forall k <- cases :: k in more)
              && Identity(|cases|) + [|cases|] == Identity(|more|)
              && DeathsFirst(Identity(|more|), |more|, lastDeath)
  {
    hide IsDeath; hide AllValid; hide AllInOrder; hide DeathsFirst; hide Layout; hide Identity;
    LayoutBounds(cases, lastDeath, registered);
    if IsDeath(c) {
      RegisterDeath(cases, lastDeath, registered, c);
      InsertKeepsAllValid(cases, lastDeath + 1, c);
      IdentityGrows(|cases|, lastDeath + 1);
      InsertKeepsMembers(cases, lastDeath + 1, c);
    } else {
      RegisterOther(cases, lastDeath, registered, c);
      InsertKeepsAllValid(cases, |cases|, c);
      IdentityGrows(|cases|, lastDeath);
      InsertKeepsMembers(cases, |cases|, c);
      assert InsertAt(cases, |cases|, c) == cases + [c];
    }
  }

  lemma Listed(cases: seq<TestCase>, c: int, x: int)
    requires 0 <= c < |cases| && 0 <= x < |cases[c].tests|
    ensures cases[c].tests[x] in set k <- cases, y <- k.tests :: y
  {
    assert cases[c] in cases;
    assert cases[c].tests[x] in cases[c].tests;
  }

  ghost predicate DeathsRunFirst(log: seq<(int, int)>, cases: seq<TestCase>) {
    && (forall e <- log :: 0 <= e.0 < |cases|)
    && forall a, b :: 0 <= a < b < |log| && IsDeath(cases[log[b].0]) ==> IsDeath(cases[log[a].0])
  }

  function Tagged(c: int, ran: seq<int>): (r: seq<(int, int)>)
    ensures |r| == |ran| && forall k :: 0 <= k < |ran| ==> r[k] == (c, ran[k])
  {
    seq(|ran|, k requires 0 <= k < |ran| => (c, ran[k]))
  }

  /** The log lists the wanted tests of the cases in `order`, each once, death tests first. */
  ghost predicate Progress(log: seq<(int, int)>, order: seq<int>, wanted: iset<(int, int)>, lastDeath: int) {
    && (forall c, x :: (c, x) in log <==> c in order && (c, x) in wanted)
    && (forall a, b :: 0 <= a < b < |log| ==> log[a] != log[b])
    && forall a, b :: 0 <= a < b < |log| && log[b].0 <= lastDeath ==> log[a].0 <= lastDeath
  }

  lemma ProgressStep(log: seq<(int, int)>, order: seq<int>, wanted: iset<(int, int)>, lastDeath: int,
                     c: int, ran: seq<int>)
    requires Progress(log, order, wanted, lastDeath) && c !in order
    requires forall x :: x in ran <==> (c, x) in wanted
    requires forall a, b :: 0 <= a < b < |ran| ==> ran[a] != ran[b]
    requires c <= lastDeath ==> forall o <- order :: o <= lastDeath
    ensures Progress(log + Tagged(c, ran), order + [c], wanted, lastDeath)
  {
    var more := log + Tagged(c, ran);
    forall c', x ensures (c', x) in more <==> c' in order + [c] && (c', x) in wanted {
      if c' == c && x in ran {
        var k :| 0 <= k < |ran| && ran[k] == x;
        assert more[|log| + k] == (c, x);
      }
      if (c', x) in log {
        var k :| 0 <= k < |log| && log[k] == (c', x);
        assert more[k] == (c', x);
      }
    }
    forall a, b | 0 <= a < b < |more| ensures more[a] != more[b] && (more[b].0 <= lastDeath ==> more[a].0 <= lastDeath) {
      if a < |log| {
        var (c', x) := log[a];
        assert (c', x) in log && c' in order;
      }
      if b >= |log| {
        assert more[b] == (c, ran[b - |log|]);
        if a >= |log| {
          assert more[a] == (c, ran[a - |log|]);
        }
      }
    }
  }

  lemma NoProgress(wanted: iset<(int, int)>, lastDeath: int)
    ensures Progress([], [], wanted, lastDeath)
  {
  }

  lemma CaseValid(cases: seq<TestCase>, c: int)
    requires AllValid(cases) && 0 <= c < |cases|
    ensures cases[c].Valid()
  {
  }

  lemma ProgressEnds(log: seq<(int, int)>, order: seq<int>, wanted: iset<(int, int)>,
                     cases: seq<TestCase>, lastDeath: int, registered: seq<TestCase>)
    requires Progress(log, order, wanted, lastDeath) && Layout(cases, lastDeath, registered)
    requires forall c, x :: (c, x) in wanted ==> 0 <= c < |cases| && c in order
    ensures forall c, x :: (c, x) in log <==> (c, x) in wanted
    ensures forall a, b :: 0 <= a < b < |log| ==> log[a] != log[b]
    ensures DeathsRunFirst(log, cases)
  {
    hide IsDeath;
    forall e | e in log ensures 0 <= e.0 < |cases| {
      var (c, x) := e;
      assert (c, x) in log && (c, x) in wanted;
    }
  }

  lemma IndexCount(indices: seq<int>, n: nat, lastDeath: int)
    requires DeathsFirst(indices, n, lastDeath)
    ensures |indices| == n
  {
  }

  lemma NamesAreDistinct(cases: seq<TestCase>, lastDeath: int, registered: seq<TestCase>)
    requires Layout(cases, lastDeath, registered)
    ensures forall a <- cases, b <- cases :: a.name == b.name ==> a == b
  {
    hide IsDeath;
  }

  lemma LayoutDistinct(cases: seq<TestCase>, lastDeath: int, registered: seq<TestCase>)
    requires Layout(cases, lastDeath, registered)
    ensures forall i, j :: 0 <= i < j < |cases| ==> cases[i] != cases[j]
  {
    hide IsDeath;
    forall i, j | 0 <= i < j < |cases| ensures cases[i] != cases[j] {
      assert cases[i].name != cases[j].name;
    }
  }

  lemma LayoutBounds(cases: seq<TestCase>, lastDeath: int, registered: seq<TestCase>)
    requires Layout(cases, lastDeath, registered)
    ensures -1 <= lastDeath < |cases|
  {
  }

  lemma ShuffleKeepsDeathsFirst(v: seq<int>, w: seq<int>, sigma: seq<int>, begin: int, end: int, lastDeath: int)
    requires Rearranged(v, w, sigma, begin, end) && DeathsFirst(v, |v|, lastDeath)
    requires 0 <= begin <= end <= |v| && (end == lastDeath + 1 || begin == lastDeath + 1)
    ensures DeathsFirst(w, |v|, lastDeath) && |w| == |v|
  {
    RearrangedPermutation(v, w, sigma, begin, end);
  }

  lemma IdentityGrows(n: nat, lastDeath: int)
    ensures Identity(n) + [n] == Identity(n + 1)
    ensures DeathsFirst(Identity(n + 1), n + 1, lastDeath)
  {
  }

  // ------------------------------------------------------------------ a state in which listeners see another order

  lemma {:induction false} NoDeaths(cs: seq<TestCase>)
    requires forall c <- cs :: !IsDeath(c)
    ensures Deaths(cs) == [] && Others(cs) == cs
    decreases |cs|
  {
    hide IsDeath;
    if cs == [] {
      assert Others(cs) == cs;
    } else {
      var n := |cs| - 1;
      NoDeaths(cs[..n]);
      assert cs == cs[..n] + [cs[n]] && cs[n] in cs;
    }
  }

  lemma ShortNameIsOrdinary(c: TestCase)
    requires |c.name| < 9
    ensures !IsDeath(c)
  {
    assert forall k :: 0 <= k <= |c.name| ==> |c.name[k..]| < 9;
  }

  lemma OrdinaryCases(cases: seq<TestCase>, lastDeath: int, registered: seq<TestCase>)
    requires Layout(cases, lastDeath, registered) && forall c <- registered :: |c.name| < 9
    ensures cases == registered && lastDeath == -1
  {
    hide IsDeath;
    forall c | c in registered ensures !IsDeath(c) {
      ShortNameIsOrdinary(c);
    }
    NoDeaths(registered);
  }

  lemma SwappedBySeedOne()
    ensures FisherYates([0, 1], 0, 2, 1) == ([1, 0], NextState(1))
  {
    assert NextState(1) == 1103527590;
    assert Swapped([0, 1], 0, 1) == [1, 0];
    FisherYatesStep([0, 1], 0, 2, 1);
    FisherYatesStep([1, 0], 0, 1, NextState(1));
  }

  method TwoCases(random: Random) returns (unit: UnitTest)
    ensures fresh(unit) && unit.random == random && unit.Valid() && unit.Unshuffled() && unit.lastDeath == -1
    ensures |unit.cases| == 2 && fresh(unit.cases[0]) && fresh(unit.cases[1])
    ensures unit.cases[0].tests == [] && unit.cases[1].tests == []
  {
    hide Layout; hide IsDeath; hide SomePattern; hide DeathsFirst; hide AllValid; hide AllInOrder; hide Identity;
    unit := new UnitTest(random);
    var a := unit.GetTestCase("a");
    assert unit.registered == [a];
    OrdinaryCases(unit.cases, unit.lastDeath, unit.registered);
    assert forall k <- unit.cases :: k.name == "a";
    var b := unit.GetTestCase("b");
    assert unit.registered == [a, b];
    OrdinaryCases(unit.cases, unit.lastDeath, unit.registered);
  }

  /** Two cases shuffled from seed 1: the first that listeners are shown is not the first to run. */
  method TwoCasesShuffled() returns (unit: UnitTest)
    ensures unit.Valid() && |unit.cases| == 2
    ensures unit.TestCaseAt(0) == unit.MutableTestCaseAt(1) != unit.TestCaseAt(1) == unit.MutableTestCaseAt(0)
  {
    hide Layout; hide FisherYates; hide NextState; hide ShuffledLists; hide IndexLists; hide AllValid; hide AllInOrder;
    var random := new Random(1);
    unit := TwoCases(random);
    LayoutDistinct(unit.cases, unit.lastDeath, unit.registered);
    assert unit.indices == [0, 1];
    unit.ShuffleTests();
    FisherYatesStep([0, 1], 0, 0, 1);
    SwappedBySeedOne();
  }
}
