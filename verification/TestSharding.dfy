/** Which tests a shard runs: FilterTests of Google Test. */
module TestSharding {
  import opened Bytes
  import opened Division
  import opened TestFilter
  import opened TestRunner

  /** What FilterTests reads from the flags and, if sharding is on, from the environment. */
  datatype Options = Options(filter: CharString, alsoRunDisabled: bool, shard: Option<(int, int)>)

  ghost predicate ValidOptions(o: Options) {
    o.shard.Some? ==> 0 <= o.shard.value.1 < o.shard.value.0
  }

  // ------------------------------------------------------------------ selection

  ghost predicate Disabled(caseName: string, testName: string) {
    IsDisabledName(caseName) || IsDisabledName(testName)
  }

  ghost predicate Accepted(caseName: string, testName: string, filter: string) {
    var fullName := caseName + "." + testName;
    Included(filter, fullName) && !Excluded(filter, fullName)
  }

  ghost predicate Runnable(caseName: string, testName: string, o: Options) {
    (o.alsoRunDisabled || !Disabled(caseName, testName)) && Accepted(caseName, testName, o.filter)
  }

  predicate ShouldRunTestOnShard(totalShards: int, shardIndex: int, testId: int)
    requires totalShards > 0
  {
    testId % totalShards == shardIndex
  }

  predicate OnShard(shard: Option<(int, int)>, testId: nat)
    requires shard.Some? ==> shard.value.0 > 0
  {
    shard.None? || ShouldRunTestOnShard(shard.value.0, shard.value.1, testId)
  }

  /** `row[j]`: test `j` of the case is runnable. */
  ghost function RunnableRow(caseName: string, tests: seq<TestInfo>, o: Options): (row: seq<bool>)
    ensures |row| == |tests| && forall j :: 0 <= j < |tests| ==> row[j] == Runnable(caseName, tests[j].name, o)
  {
    seq(|tests|, j requires 0 <= j < |tests| => Runnable(caseName, tests[j].name, o))
  }

  /** How many of the first `j` are runnable. */
  ghost function Count(row: seq<bool>, j: nat): (n: nat)
    requires j <= |row|
  {
    if j == 0 then 0 else Count(row, j - 1) + if row[j - 1] then 1 else 0
  }

  ghost function CountRows(table: seq<seq<bool>>, i: nat): (n: nat)
    requires i <= |table|
  {
    if i == 0 then 0 else CountRows(table, i - 1) + Count(table[i - 1], |table[i - 1]|)
  }

  /** The id of a runnable test: how many runnable ones come before it. */
  ghost function TestId(table: seq<seq<bool>>, i: nat, j: nat): (id: nat)
    requires i < |table| && j <= |table[i]|
  {
    CountRows(table, i) + Count(table[i], j)
  }

  ghost predicate Selected(table: seq<seq<bool>>, i: nat, j: nat, shard: Option<(int, int)>)
    requires i < |table| && j < |table[i]| && (shard.Some? ==> shard.value.0 > 0)
  {
    table[i][j] && OnShard(shard, TestId(table, i, j))
  }

  /** How many ids below `n` fall to the shard. */
  ghost function Share(n: nat, shard: Option<(int, int)>): (s: nat)
    requires shard.Some? ==> shard.value.0 > 0
  {
    if n == 0 then 0 else Share(n - 1, shard) + if OnShard(shard, n - 1) then 1 else 0
  }

  // ------------------------------------------------------------------ the shards together

  /** A runnable test runs on exactly one shard, any other on none. */
  lemma ShardsPartition(table: seq<seq<bool>>, i: nat, j: nat, total: int)
    requires i < |table| && j < |table[i]| && total > 0
    ensures table[i][j] ==>
              exists s :: 0 <= s < total && Selected(table, i, j, Some((total, s))) &&
                forall t :: 0 <= t < total && t != s ==> !Selected(table, i, j, Some((total, t)))
    ensures !table[i][j] ==> forall s :: 0 <= s < total ==> !Selected(table, i, j, Some((total, s)))
  {
    hide TestId;
    var s := TestId(table, i, j) % total;
    forall t | 0 <= t < total ensures Selected(table, i, j, Some((total, t))) <==> table[i][j] && t == s {
    }
    assert table[i][j] ==> Selected(table, i, j, Some((total, s)));
  }

  /** Shares are as even as they can be: the first n mod total shards get one test more. */
  lemma {:induction false} EvenShares(n: nat, total: int, s: int)
    requires 0 <= s < total
    ensures Share(n, Some((total, s))) == n / total + if s < n % total then 1 else 0
    decreases n
  {
    if n == 0 {
      DivModUnique(0, total, 0, 0);
    } else {
      EvenShares(n - 1, total, s);
      NextRemainder(n - 1, total);
    }
  }

  lemma SharesDifferByOne(n: nat, total: int, s: int, t: int)
    requires 0 <= s < total && 0 <= t < total
    ensures -1 <= Share(n, Some((total, s))) - Share(n, Some((total, t))) <= 1
  {
    EvenShares(n, total, s);
    EvenShares(n, total, t);
  }

  ghost function SumOfShares(n: nat, total: int, upTo: nat): (r: nat)
    requires total > 0
  {
    if upTo == 0 then 0 else SumOfShares(n, total, upTo - 1) + Share(n, Some((total, upTo - 1)))
  }

  lemma {:induction false} SumStep(n: nat, total: int, upTo: nat)
    requires total > 0 && n > 0
    ensures SumOfShares(n, total, upTo) == SumOfShares(n - 1, total, upTo) + if (n - 1) % total < upTo then 1 else 0
    decreases upTo
  {
    if upTo == 0 {
    } else {
      SumStep(n, total, upTo - 1);
    }
  }

  /** Every runnable test is counted by one shard. */
  lemma {:induction false} SharesSumToAll(n: nat, total: int)
    requires total > 0
    ensures SumOfShares(n, total, total) == n
    decreases n
  {
    if n == 0 {
      NothingToShare(total, total);
    } else {
      SumStep(n, total, total);
      SharesSumToAll(n - 1, total);
    }
  }

  lemma {:induction false} NothingToShare(total: int, upTo: nat)
    requires total > 0
    ensures SumOfShares(0, total, upTo) == 0
  {
    if upTo == 0 {
    } else {
      NothingToShare(total, upTo - 1);
    }
  }

  // ------------------------------------------------------------------ FilterTests

  /** The flags of a test case whose first test has id `base`. */
  ghost predicate Filtered(c: TestCase, row: seq<bool>, base: nat, o: Options)
    reads c`tests, c`shouldRun, c.tests
    requires ValidOptions(o)
  {
    && |row| == |c.tests|
    && (forall j :: 0 <= j < |row| ==> TestFiltered(c.tests[j], c.name, IdSelected(row, j, base, o), o))
    && (c.shouldRun <==> SomeSelected(row, |row|, base, o))
  }

  ghost predicate SomeSelected(row: seq<bool>, j: nat, base: nat, o: Options)
    requires j <= |row| && ValidOptions(o)
  {
    exists k :: 0 <= k < j && IdSelected(row, k, base, o)
  }

  ghost predicate IdSelected(row: seq<bool>, j: nat, base: nat, o: Options)
    requires j < |row| && ValidOptions(o)
  {
    row[j] && OnShard(o.shard, base + Count(row, j))
  }

  ghost predicate TestFiltered(t: TestInfo, caseName: string, selected: bool, o: Options)
    reads t
  {
    && (t.isDisabled <==> Disabled(caseName, t.name))
    && (t.matchesFilter <==> Accepted(caseName, t.name, o.filter))
    && t.shouldRun == selected
  }

  /** One test: sets its flags. */
  method FilterTest(t: TestInfo, caseName: CharString, o: Options, id: nat) returns (isRunnable: bool, isSelected: bool)
    requires ValidOptions(o)
    modifies t
    ensures isRunnable <==> Runnable(caseName, t.name, o)
    ensures isSelected <==> isRunnable && OnShard(o.shard, id)
    ensures TestFiltered(t, caseName, isSelected, o)
  {
    hide SomePattern; hide Included; hide Excluded; hide IsDisabledName;
    DisabledNames(caseName);
    DisabledNames(t.name);
    var caseDisabled := MatchesFilter(caseName, DISABLE_TEST_FILTER);
    var isDisabled := caseDisabled;
    if !isDisabled {
      isDisabled := MatchesFilter(t.name, DISABLE_TEST_FILTER);
    }
    t.isDisabled := isDisabled;
    var matchesFilter := FilterMatchesTest(caseName, t.name, o.filter);
    t.matchesFilter := matchesFilter;
    isRunnable := (o.alsoRunDisabled || !isDisabled) && matchesFilter;
    isSelected := isRunnable && OnShard(o.shard, id);
    t.shouldRun := isSelected;
  }

  ghost predicate Distinct(tests: seq<TestInfo>) {
    forall i, j :: 0 <= i < j < |tests| ==> tests[i] != tests[j]
  }

  lemma SomeSelectedStep(row: seq<bool>, j: nat, base: nat, o: Options)
    requires j <= |row| && ValidOptions(o)
    ensures !SomeSelected(row, 0, base, o)
    ensures j < |row| ==>
              (SomeSelected(row, j + 1, base, o) <==> SomeSelected(row, j, base, o) || IdSelected(row, j, base, o))
  {
  }

  lemma NothingCounted(row: seq<bool>)
    ensures Count(row, 0) == 0
  {
  }

  lemma CountStep(row: seq<bool>, j: nat, base: nat, o: Options)
    requires j < |row| && ValidOptions(o)
    ensures Count(row, j + 1) == Count(row, j) + if row[j] then 1 else 0
    ensures Share(base + Count(row, j + 1), o.shard) ==
            Share(base + Count(row, j), o.shard) + if IdSelected(row, j, base, o) then 1 else 0
  {
  }

  /** One test case: sets the flags of its tests and its own. */
  method FilterCase(c: TestCase, o: Options, base: nat, start: nat, ghost row: seq<bool>)
    returns (runnable: nat, selected: nat)
    requires ValidOptions(o) && Distinct(c.tests) && row == RunnableRow(c.name, c.tests, o)
    requires start == Share(base, o.shard)
    modifies c`shouldRun, c.tests
    ensures Filtered(c, row, base, o)
    ensures runnable == base + Count(row, |row|) && selected == Share(runnable, o.shard)
  {
    hide Runnable; hide OnShard; hide TestFiltered; hide SomeSelected; hide Count; hide Share;
    runnable, selected := base, start;
    c.shouldRun := false;
    SomeSelectedStep(row, 0, base, o);
    assert Count(row, 0) == 0 by { NothingCounted(row); }
    for j := 0 to |c.tests|
      invariant runnable == base + Count(row, j) && selected == Share(runnable, o.shard)
      invariant forall k :: 0 <= k < j ==> TestFiltered(c.tests[k], c.name, IdSelected(row, k, base, o), o)
      invariant c.shouldRun <==> SomeSelected(row, j, base, o)
    {
      var isRunnable, isSelected := FilterTest(c.tests[j], c.name, o, runnable);
      SomeSelectedStep(row, j, base, o);
      CountStep(row, j, base, o);
      runnable := runnable + if isRunnable then 1 else 0;
      selected := selected + if isSelected then 1 else 0;
      c.shouldRun := c.shouldRun || isSelected;
    }
  }

  /** The tests of each case; FilterTests does not change them. */
  type Lists = seq<seq<TestInfo>>

  ghost predicate HasLists(cases: seq<TestCase>, lists: Lists)
    reads cases`tests
  {
    |cases| == |lists| && forall i :: 0 <= i < |cases| ==> cases[i].tests == lists[i]
  }

  /** No case and no test is listed twice. */
  ghost predicate Separate(cases: seq<TestCase>, lists: Lists) {
    && (forall i :: 0 <= i < |lists| ==> Distinct(lists[i]))
    && (forall i, j :: 0 <= i < j < |cases| ==> cases[i] != cases[j])
    && forall i, j :: 0 <= i < j < |lists| ==> forall t <- lists[i] :: t !in lists[j]
  }

  ghost function AllTests(lists: Lists): (r: set<TestInfo>)
    ensures forall i, j :: 0 <= i < |lists| && 0 <= j < |lists[i]| ==> lists[i][j] in r
  {
    assert forall i, j :: 0 <= i < |lists| && 0 <= j < |lists[i]| ==> lists[i] in lists && lists[i][j] in lists[i];
    set list <- lists, t <- list :: t
  }

  ghost function Table(cases: seq<TestCase>, lists: Lists, o: Options): (table: seq<seq<bool>>)
    requires |cases| == |lists|
    ensures |table| == |cases|
    ensures forall i :: 0 <= i < |cases| ==> table[i] == RunnableRow(cases[i].name, lists[i], o)
  {
    seq(|cases|, i requires 0 <= i < |cases| => RunnableRow(cases[i].name, lists[i], o))
  }

  /** Sets the flags of all tests and cases; returns how many tests this process will run. */
  method FilterTests(cases: seq<TestCase>, o: Options, ghost lists: Lists) returns (selected: nat)
    requires ValidOptions(o) && HasLists(cases, lists) && Separate(cases, lists)
    modifies cases`shouldRun, AllTests(lists)
    ensures var table := Table(cases, lists, o);
            && selected == Share(CountRows(table, |table|), o.shard)
            && forall i :: 0 <= i < |cases| ==> Filtered(cases[i], table[i], CountRows(table, i), o)
  {
    hide Runnable; hide RunnableRow; hide TestFiltered; hide SomeSelected; hide IdSelected; hide Share; hide Count; hide AllTests;
    hide CountRows; hide Separate; hide Distinct;
    ghost var table := Table(cases, lists, o);
    var runnable: nat := 0;
    selected := 0;
    NothingShared(o);
    RowsStep(table, 0);
    for i := 0 to |cases|
      invariant runnable == CountRows(table, i) && selected == Share(runnable, o.shard)
      invariant forall k, j :: 0 <= k < i && 0 <= j < |lists[k]| ==>
                  TestFiltered(lists[k][j], cases[k].name, IdSelected(table[k], j, CountRows(table, k), o), o)
      invariant forall k :: 0 <= k < i ==>
                  (cases[k].shouldRun <==> SomeSelected(table[k], |table[k]|, CountRows(table, k), o))
    {
      EarlierAreElsewhere(cases, lists, i);
      RowsStep(table, i);
      runnable, selected := FilterCase(cases[i], o, runnable, selected, table[i]);
    }
  }

  lemma EarlierAreElsewhere(cases: seq<TestCase>, lists: Lists, i: nat)
    requires Separate(cases, lists) && i < |cases| == |lists|
    ensures Distinct(lists[i]) && forall k :: 0 <= k < i ==> cases[k] != cases[i]
    ensures forall k, j :: 0 <= k < i && 0 <= j < |lists[k]| ==> lists[k][j] !in lists[i]
  {
  }

  lemma RowsStep(table: seq<seq<bool>>, i: nat)
    requires i <= |table|
    ensures CountRows(table, 0) == 0
    ensures i < |table| ==> CountRows(table, i + 1) == CountRows(table, i) + Count(table[i], |table[i]|)
  {
  }

  lemma NothingShared(o: Options)
    requires ValidOptions(o)
    ensures Share(0, o.shard) == 0
  {
  }

  lemma {:induction false} ShareSome(n: nat, shard: Option<(int, int)>, id: nat)
    requires (shard.Some? ==> shard.value.0 > 0) && id < n && OnShard(shard, id)
    ensures Share(n, shard) > 0
    decreases n
  {
    hide OnShard;
    if id == n - 1 {
    } else {
      ShareSome(n - 1, shard, id);
    }
  }

  lemma {:induction false} CountGrows(row: seq<bool>, j: nat, k: nat)
    requires j <= k <= |row|
    ensures Count(row, j) <= Count(row, k)
    decreases k
  {
    if j == k {
    } else {
      CountGrows(row, j, k - 1);
    }
  }

  lemma {:induction false} RowsGrow(table: seq<seq<bool>>, i: nat, k: nat)
    requires i <= k <= |table|
    ensures CountRows(table, i) <= CountRows(table, k)
    decreases k
  {
    if i == k {
    } else {
      RowsGrow(table, i, k - 1);
    }
  }

  /** A process that counts no selected test has none. */
  lemma SelectedIsCounted(table: seq<seq<bool>>, i: nat, j: nat, shard: Option<(int, int)>)
    requires i < |table| && j < |table[i]| && (shard.Some? ==> shard.value.0 > 0)
    requires Selected(table, i, j, shard)
    ensures Share(CountRows(table, |table|), shard) > 0
  {
    CountGrows(table[i], j + 1, |table[i]|);
    RowsGrow(table, i + 1, |table|);
    ShareSome(CountRows(table, |table|), shard, TestId(table, i, j));
  }

  ghost predicate InTable(table: seq<seq<bool>>, c: int, x: int, shard: Option<(int, int)>)
    requires shard.Some? ==> shard.value.0 > 0
  {
    0 <= c < |table| && 0 <= x < |table[c]| && Selected(table, c, x, shard)
  }

  lemma FilteredRuns(unit: UnitTest, lists: Lists, o: Options, c: int, x: int)
    requires ValidOptions(o) && HasLists(unit.cases, lists)
    requires var table := Table(unit.cases, lists, o);
             forall i :: 0 <= i < |lists| ==> Filtered(unit.cases[i], table[i], CountRows(table, i), o)
    ensures unit.ToRun(c, x) <==> InTable(Table(unit.cases, lists, o), c, x, o.shard)
  {
    hide Runnable; hide OnShard; hide CountRows; hide Count; hide Disabled; hide Accepted;
    var table := Table(unit.cases, lists, o);
    if 0 <= c < |lists| && 0 <= x < |lists[c]| {
      assert Filtered(unit.cases[c], table[c], CountRows(table, c), o);
      assert TestFiltered(lists[c][x], unit.cases[c].name, IdSelected(table[c], x, CountRows(table, c), o), o);
    }
  }

  ghost function InTables(table: seq<seq<bool>>, shard: Option<(int, int)>): (w: iset<(int, int)>)
    requires shard.Some? ==> shard.value.0 > 0
  {
    iset c, x | InTable(table, c, x, shard) :: (c, x)
  }

  /** Unless disabled tests run too, no test runs that is disabled by its own name or that of its case; a test that is not
      and whose full name the filter accepts runs on exactly the shard that its number falls to. */
  ghost predicate RunsByName(log: seq<(int, int)>, cases: seq<TestCase>, lists: Lists, o: Options)
    requires ValidOptions(o) && |cases| == |lists|
  {
    && (forall c, x :: (c, x) in log ==>
          && 0 <= c < |lists| && 0 <= x < |lists[c]|
          && (o.alsoRunDisabled || (!IsDisabledName(cases[c].name) && !IsDisabledName(lists[c][x].name))))
    && forall c, x ::
         && 0 <= c < |lists| && 0 <= x < |lists[c]| && Accepted(cases[c].name, lists[c][x].name, o.filter)
         && (o.alsoRunDisabled || (!IsDisabledName(cases[c].name) && !IsDisabledName(lists[c][x].name)))
         ==> ((c, x) in log <==> OnShard(o.shard, TestId(Table(cases, lists, o), c, x)))
  }

  lemma SelectedByName(log: seq<(int, int)>, cases: seq<TestCase>, lists: Lists, o: Options)
    requires ValidOptions(o) && |cases| == |lists|
    requires forall c, x :: (c, x) in log <==> InTable(Table(cases, lists, o), c, x, o.shard)
    ensures RunsByName(log, cases, lists, o)
  {
    hide IsDisabledName; hide Accepted; hide OnShard; hide TestId;
  }

  /** One iteration of a test program: what runs is exactly the runnable tests whose id falls to the shard, each once,
      in the order of registration or the one shuffled from the seed, death tests first either way; afterwards the
      order is that of registration again. */
  method RunIteration(unit: UnitTest, o: Options, shuffle: bool, seed: nat, ghost lists: Lists)
    returns (log: seq<(int, int)>)
    requires unit.Valid() && unit.Unshuffled() && ValidOptions(o)
    requires HasLists(unit.cases, lists) && Separate(unit.cases, lists)
    requires |unit.cases| <= MAX_RANGE && forall c <- unit.cases :: |c.tests| <= MAX_RANGE
    modifies unit`indices, unit.cases`shouldRun, unit.cases`indices, AllTests(lists), unit.random
    ensures unit.Valid() && unit.Unshuffled() && -1 <= unit.lastDeath < |unit.cases|
    ensures var (order, inCase) := RunOrder(old(IndexLists(unit.cases)), unit.lastDeath, shuffle, seed);
            log == RunLog(order, inCase, InTables(Table(unit.cases, lists, o), o.shard))
    ensures forall a, b :: 0 <= a < b < |log| ==> log[a] != log[b]
    ensures DeathsRunFirst(log, unit.cases)
    ensures forall c, x :: (c, x) in log <==> InTable(Table(unit.cases, lists, o), c, x, o.shard)
    ensures RunsByName(log, unit.cases, lists, o)
  {
    hide Runnable; hide Table; hide Filtered; hide InTable; hide AllTests; hide Share; hide CountRows; hide DeathsRunFirst;
    hide IsDeath; hide RunOrder; hide RunLog; hide IndexLists; hide RunsByName; hide InTables; hide Separate;
    hide UnitTest.ToRun; hide UnitTest.Wanted; hide IsPermutation; hide Layout; hide DeathsFirst; hide Identity;
    LayoutBounds(unit.cases, unit.lastDeath, unit.registered);
    var selected := FilterTests(unit.cases, o, lists);
    WantedRuns(unit, lists, o);
    if selected == 0 {
      NothingRuns(unit.cases, lists, o);
      log := [];
      ghost var order := RunOrder(IndexLists(unit.cases), unit.lastDeath, shuffle, seed);
      NothingWanted(order.0, order.1, InTables(Table(unit.cases, lists, o), o.shard));
    } else {
      log := RunSelected(unit, shuffle, seed);
    }
    SelectedByName(log, unit.cases, lists, o);
  }

  lemma WantedRuns(unit: UnitTest, lists: Lists, o: Options)
    requires ValidOptions(o) && HasLists(unit.cases, lists)
    requires var table := Table(unit.cases, lists, o);
             forall i :: 0 <= i < |lists| ==> Filtered(unit.cases[i], table[i], CountRows(table, i), o)
    ensures forall c, x :: unit.ToRun(c, x) <==> InTable(Table(unit.cases, lists, o), c, x, o.shard)
    ensures unit.Wanted() == InTables(Table(unit.cases, lists, o), o.shard)
  {
    hide Filtered; hide InTable; hide UnitTest.ToRun; hide CountRows;
    forall c, x ensures unit.ToRun(c, x) <==> InTable(Table(unit.cases, lists, o), c, x, o.shard) {
      FilteredRuns(unit, lists, o, c, x);
    }
  }

  method RunSelected(unit: UnitTest, shuffle: bool, seed: nat) returns (log: seq<(int, int)>)
    requires unit.Valid() && unit.Unshuffled()
    requires |unit.cases| <= MAX_RANGE && forall c <- unit.cases :: |c.tests| <= MAX_RANGE
    modifies unit`indices, unit.cases`indices, unit.random
    ensures unit.Valid() && unit.Unshuffled() && -1 <= unit.lastDeath < |unit.cases|
    ensures var (order, inCase) := RunOrder(old(IndexLists(unit.cases)), unit.lastDeath, shuffle, seed);
            log == RunLog(order, inCase, unit.Wanted())
    ensures forall a, b :: 0 <= a < b < |log| ==> log[a] != log[b]
    ensures DeathsRunFirst(log, unit.cases)
    ensures forall c, x :: (c, x) in log <==> unit.ToRun(c, x)
  {
    hide DeathsRunFirst; hide IsDeath; hide UnitTest.ToRun; hide UnitTest.Valid; hide UnitTest.Unshuffled;
    hide FisherYates; hide ShuffledLists; hide IndexLists; hide RunOrder; hide RunLog; hide UnitTest.Wanted;
    UnshuffledOrder(unit, seed);
    if shuffle {
      ShuffleFrom(unit, seed);
    }
    log := unit.RunAllTests();
    unit.UnshuffleTests();
  }

  method ShuffleFrom(unit: UnitTest, seed: nat)
    requires unit.Valid() && unit.Unshuffled()
    requires |unit.cases| <= MAX_RANGE && forall c <- unit.cases :: |c.tests| <= MAX_RANGE
    modifies unit`indices, unit.cases`indices, unit.random
    ensures unit.Valid() && -1 <= unit.lastDeath < |unit.cases|
    ensures (unit.indices, IndexLists(unit.cases)) == RunOrder(old(IndexLists(unit.cases)), unit.lastDeath, true, seed)
  {
    hide UnitTest.Valid; hide UnitTest.Unshuffled; hide FisherYates; hide ShuffledLists; hide IndexLists; hide Identity;
    UnshuffledOrder(unit, seed);
    unit.random.Reseed(seed);
    unit.ShuffleTests();
  }

  /** Before anything is shuffled, the indices are those of the order without shuffling. */
  lemma UnshuffledOrder(unit: UnitTest, seed: nat)
    requires unit.Valid() && unit.Unshuffled()
    ensures -1 <= unit.lastDeath < |unit.cases| == |IndexLists(unit.cases)|
    ensures unit.indices == Identity(|unit.cases|)
    ensures RunOrder(IndexLists(unit.cases), unit.lastDeath, false, seed) == (unit.indices, IndexLists(unit.cases))
  {
    hide IndexLists; hide FisherYates; hide ShuffledLists; hide IsDeath; hide Identity;
    IndexListsAt(unit.cases);
  }

  lemma NothingRuns(cases: seq<TestCase>, lists: Lists, o: Options)
    requires ValidOptions(o) && |cases| == |lists|
    requires var table := Table(cases, lists, o); Share(CountRows(table, |table|), o.shard) == 0
    ensures forall c, x :: !InTable(Table(cases, lists, o), c, x, o.shard)
    ensures InTables(Table(cases, lists, o), o.shard) == iset{}
    ensures DeathsRunFirst([], cases)
  {
    hide Runnable; hide Share; hide CountRows; hide IsDeath;
    var table := Table(cases, lists, o);
    forall c, x | InTable(table, c, x, o.shard) ensures false {
      SelectedIsCounted(table, c, x, o.shard);
    }
  }
}
