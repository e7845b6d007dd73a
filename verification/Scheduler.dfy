/** Registration, filtering, shuffling and running of test cases. */
module Scheduler {
  import opened CStrings
  import Glob
  import opened Shuffling
  import opened Orders
  import opened Sharding

  // ----- Names -----

  ghost predicate IsDeath(testCaseName: string) {
    Glob.MatchesAny(Glob.Pieces(Glob.DEATH_TEST_CASE_FILTER), testCaseName)
  }

  ghost predicate IsDisabled(name: string) {
    Glob.MatchesAny(Glob.Pieces(Glob.DISABLE_TEST_FILTER), name)
  }

  datatype Flags = Flags(filter: CString, alsoRunDisabledTests: bool)

  ghost predicate Runnable(flags: Flags, testCaseName: string, testName: string) {
    && (flags.alsoRunDisabledTests || !(IsDisabled(testCaseName) || IsDisabled(testName)))
    && Glob.FilterSelects(flags.filter, testCaseName + "." + testName)
  }

  /** The death test case names, or the other names, in the order they were first requested. */
  ghost function FirstRequests(requests: seq<string>, death: bool): seq<string> {
    if requests == [] then []
    else
      var n := |requests| - 1;
      var before := FirstRequests(requests[..n], death);
      if IsDeath(requests[n]) == death && requests[n] !in before then before + [requests[n]] else before
  }

  lemma {:induction false} FirstRequestsAre(requests: seq<string>, death: bool)
    ensures var r := FirstRequests(requests, death);
            && Distinct(r)
            && (forall name :: name in r <==> name in requests && IsDeath(name) == death)
  {
    hide IsDeath;
    if requests == [] {
    } else {
      var n := |requests| - 1;
      FirstRequestsAre(requests[..n], death);
      assert requests == requests[..n] + [requests[n]];
    }
  }

  lemma FirstRequestsNext(requests: seq<string>, name: string, death: bool)
    ensures var before := FirstRequests(requests, death);
            FirstRequests(requests + [name], death) ==
            if IsDeath(name) == death && name !in before then before + [name] else before
  {
    assert (requests + [name])[..|requests|] == requests;
  }

  /** The order in which test cases stand: death test cases first, each group as first requested. */
  ghost function Registered(requests: seq<string>): seq<string> {
    FirstRequests(requests, true) + FirstRequests(requests, false)
  }

  /** Whatever the order of registration, the death test cases are exactly the first ones, and each
      requested name stands once. */
  lemma DeathCasesFirst(requests: seq<string>)
    ensures var names, deaths := Registered(requests), |FirstRequests(requests, true)|;
            && deaths <= |names|
            && (forall i | 0 <= i < |names| :: IsDeath(names[i]) <==> i < deaths)
            && (forall name :: name in names <==> name in requests)
            && Distinct(names)
  {
    hide IsDeath;
    FirstRequestsAre(requests, true);
    FirstRequestsAre(requests, false);
    var a, b := FirstRequests(requests, true), FirstRequests(requests, false);
    assert forall i | 0 <= i < |a| :: a[i] in a;
    assert forall i | 0 <= i < |b| :: b[i] in b;
  }

  // ----- Tests and test cases -----

  class TestInfo {
    const testCaseName: CString
    const name: CString
    var isDisabled: bool
    var matchesFilter: bool
    var shouldRun: bool

    constructor (testCaseName: CString, name: CString)
      ensures this.testCaseName == testCaseName && this.name == name && !shouldRun
    {
      this.testCaseName, this.name := testCaseName, name;
      isDisabled, matchesFilter, shouldRun := false, false, false;
    }

    /** Returns the tests that were run. */
    method Run() returns (ran: seq<TestInfo>)
      ensures ran == if shouldRun then [this] else []
    {
      if !shouldRun {
        return [];
      }
      return [this];
    }
  }

  ghost function Chosen(ts: seq<TestInfo>): set<TestInfo>
    reads ts`shouldRun
  {
    set t | t in ts && t.shouldRun
  }

  /** One row for each test, with the test itself when it is chosen. */
  ghost function Rows(ts: seq<TestInfo>, chosen: set<TestInfo>): (r: seq<seq<TestInfo>>)
    ensures |r| == |ts| && forall k | 0 <= k < |ts| :: r[k] == if ts[k] in chosen then [ts[k]] else []
  {
    seq(|ts|, k requires 0 <= k < |ts| => if ts[k] in chosen then [ts[k]] else [])
  }

  ghost function Picked(ts: seq<TestInfo>, chosen: set<TestInfo>): seq<TestInfo> {
    Flatten(Rows(ts, chosen))
  }

  lemma PickedConcat(a: seq<TestInfo>, b: seq<TestInfo>, chosen: set<TestInfo>)
    ensures Picked(a + b, chosen) == Picked(a, chosen) + Picked(b, chosen)
  {
    assert Rows(a + b, chosen) == Rows(a, chosen) + Rows(b, chosen);
    FlattenConcat(Rows(a, chosen), Rows(b, chosen));
  }

  /** Each chosen test is picked as often as it occurs. */
  lemma {:induction false} PickedOnce(ts: seq<TestInfo>, chosen: set<TestInfo>, t: TestInfo)
    ensures multiset(Picked(ts, chosen))[t] == if t in chosen then multiset(ts)[t] else 0
  {
    if ts == [] {
      assert Rows(ts, chosen) == [];
    } else {
      hide Picked;
      var before, last := ts[..|ts| - 1], ts[|ts| - 1];
      assert ts == before + [last];
      PickedOnce(before, chosen, t);
      PickedNext(before, last, chosen);
    }
  }

  lemma PickedNext(ts: seq<TestInfo>, t: TestInfo, chosen: set<TestInfo>)
    ensures Picked(ts + [t], chosen) == Picked(ts, chosen) + if t in chosen then [t] else []
  {
    hide Picked;
    PickedConcat(ts, [t], chosen);
    PickedSingle(t, chosen);
  }

  lemma PickedSingle(t: TestInfo, chosen: set<TestInfo>)
    ensures Picked([t], chosen) == if t in chosen then [t] else []
  {
    FlattenOne(Rows([t], chosen)[0]);
    assert Rows([t], chosen) == [Rows([t], chosen)[0]];
  }

  ghost predicate IsOrder(p: seq<nat>, n: nat) {
    multiset(p) == multiset(Ints(0, n))
  }

  lemma OrderIndexes(p: seq<nat>, n: nat)
    requires IsOrder(p, n)
    ensures |p| == n && Indexes(p, n)
  {
    assert |multiset(p)| == |p| && |multiset(Ints(0, n))| == n;
    forall k | 0 <= k < |p| ensures p[k] < n {
      assert p[k] in multiset(Ints(0, n));
    }
  }

  class TestCase {
    const name: CString
    const testIndices: Vector<nat>
    var testInfoList: seq<TestInfo>
    var shouldRun: bool

    constructor (name: CString)
      ensures this.name == name && testInfoList == [] && !shouldRun
      ensures fresh(testIndices) && Valid() && testIndices.elems == Ints(0, 0)
    {
      this.name := name;
      testInfoList, shouldRun := [], false;
      testIndices := new Vector<nat>();
    }

    ghost predicate Valid()
      reads this`testInfoList, testIndices`elems
    {
      && IsOrder(testIndices.elems, |testInfoList|)
      && Distinct(testInfoList)
      && forall t | t in testInfoList :: t.testCaseName == name
    }

    function GetMutableTestInfo(i: int): (t: TestInfo?)
      requires forall k | 0 <= k < |testIndices.elems| :: testIndices.elems[k] < |testInfoList|
      reads this`testInfoList, testIndices`elems
      ensures t == null <==> !(0 <= i < |testIndices.elems|)
    {
      var index := GetElementOr<int>(testIndices.elems, i, -1);
      if index < 0 then null else testInfoList[index]
    }

    method AddTestInfo(test: TestInfo)
      requires Valid() && test !in testInfoList && test.testCaseName == name
      modifies this`testInfoList, testIndices`elems
      ensures Valid() && testInfoList == old(testInfoList) + [test]
      ensures testIndices.elems == old(testIndices.elems) + [old(|testInfoList|)]
    {
      OrderIndexes(testIndices.elems, |testInfoList|);
      testInfoList := testInfoList + [test];
      testIndices.elems := testIndices.elems + [|testIndices.elems|];
      assert Ints(0, |testInfoList|) == Ints(0, old(|testInfoList|)) + [old(|testInfoList|)];
    }

    method ShuffleTests(random: Random)
      requires Valid() && |testInfoList| <= MAX_RANGE
      modifies random`state, testIndices`elems
      ensures Valid()
      ensures testIndices.elems == FisherYates(old(testIndices.elems), 0, Draws(old(random.state), |testInfoList|))
      ensures random.state == StateAfter(old(random.state), |testInfoList|)
    {
      OrderIndexes(testIndices.elems, |testInfoList|);
      ShufflePermutes(testIndices.elems, 0, Draws(random.state, |testInfoList|));
      Shuffle(random, testIndices);
    }

    method UnshuffleTests()
      requires Valid()
      modifies testIndices`elems
      ensures Valid() && testIndices.elems == Ints(0, |testInfoList|)
    {
      OrderIndexes(testIndices.elems, |testInfoList|);
      for i := 0 to |testIndices.elems|
        invariant |testIndices.elems| == |testInfoList| && testIndices.elems[..i] == Ints(0, i)
      {
        testIndices.elems := testIndices.elems[i := i];
      }
      assert testIndices.elems[..|testInfoList|] == testIndices.elems;
    }

    /** The chosen tests in the order of the indices. */
    ghost function Running(): seq<TestInfo>
      requires Valid()
      reads this`testInfoList, this`shouldRun, testIndices`elems, testInfoList`shouldRun
    {
      OrderIndexes(testIndices.elems, |testInfoList|);
      if shouldRun then Picked(Permute(testInfoList, testIndices.elems), Chosen(testInfoList)) else []
    }

    /** Runs the chosen tests, each of them once, in the order of the indices. */
    method Run() returns (ran: seq<TestInfo>)
      requires Valid()
      ensures ran == Running()
    {
      OrderIndexes(testIndices.elems, |testInfoList|);
      ran := [];
      if !shouldRun {
        return;
      }
      ghost var order, chosen := Permute(testInfoList, testIndices.elems), Chosen(testInfoList);
      for i := 0 to |testInfoList|
        invariant ran == Picked(order[..i], chosen)
      {
        var test := GetMutableTestInfo(i);
        var now := test.Run();
        PickedNext(order[..i], order[i], chosen);
        assert order[..i + 1] == order[..i] + [order[i]];
        ran := ran + now;
      }
      assert order[..|testInfoList|] == order;
    }
  }

  /** Running in any order runs the same tests. */
  lemma PickedSame(ts: seq<TestInfo>, p: seq<nat>, chosen: set<TestInfo>)
    requires IsOrder(p, |ts|)
    ensures Indexes(p, |ts|) && multiset(Picked(Permute(ts, p), chosen)) == multiset(Picked(ts, chosen))
  {
    OrderIndexes(p, |ts|);
    var rows := Rows(ts, chosen);
    assert Rows(Permute(ts, p), chosen) == Permute(rows, p);
    PermuteSame(rows, p, Ints(0, |ts|));
    PermuteIdentity(rows);
    FlattenSame(Permute(rows, p), rows);
  }

  lemma {:induction false} PickedNone(ts: seq<TestInfo>, chosen: set<TestInfo>)
    requires forall t | t in ts :: t !in chosen
    ensures Picked(ts, chosen) == []
  {
    if ts == [] {
    } else {
      var n := |ts| - 1;
      PickedNone(ts[..n], chosen);
      assert Rows(ts, chosen)[..n] == Rows(ts[..n], chosen);
    }
  }

  ghost function PickedRows(lists: seq<seq<TestInfo>>, chosen: set<TestInfo>): (r: seq<seq<TestInfo>>)
    ensures |r| == |lists| && forall i | 0 <= i < |lists| :: r[i] == Picked(lists[i], chosen)
  {
    seq(|lists|, i requires 0 <= i < |lists| => Picked(lists[i], chosen))
  }

  lemma {:induction false} PickedFlat(lists: seq<seq<TestInfo>>, chosen: set<TestInfo>)
    ensures Flatten(PickedRows(lists, chosen)) == Picked(Flatten(lists), chosen)
  {
    if lists == [] {
      PickedNone([], chosen);
      assert PickedRows(lists, chosen) == [];
    } else {
      var n := |lists| - 1;
      hide Picked;
      PickedFlat(lists[..n], chosen);
      PickedConcat(Flatten(lists[..n]), lists[n], chosen);
      assert PickedRows(lists, chosen)[..n] == PickedRows(lists[..n], chosen);
    }
  }

  lemma DistinctConcat<T>(a: seq<T>, b: seq<T>)
    requires Distinct(a) && Distinct(b) && forall x | x in a :: x !in b
    ensures Distinct(a + b)
  {
    forall i, j | 0 <= i < j < |a + b| ensures (a + b)[i] != (a + b)[j] {
      if i < |a| <= j {
        assert a[i] in a && b[j - |a|] in b;
      }
    }
  }

  lemma {:induction false} DistinctCount<T>(s: seq<T>, x: T)
    requires Distinct(s)
    ensures multiset(s)[x] == if x in s then 1 else 0
  {
    if s == [] {
    } else {
      var n := |s| - 1;
      DistinctCount(s[..n], x);
      assert s == s[..n] + [s[n]];
    }
  }

  // ----- The test program -----

  function Names(cs: seq<TestCase>): (r: seq<string>)
    ensures |r| == |cs| && forall i | 0 <= i < |cs| :: r[i] == cs[i].name
  {
    seq(|cs|, i requires 0 <= i < |cs| => cs[i].name)
  }

  /** The indices of the death test cases, the first d, come before the others. */
  ghost predicate Grouped(p: seq<nat>, d: nat, n: nat) {
    && |p| == n && d <= n
    && multiset(p[..d]) == multiset(Ints(0, d))
    && multiset(p[d..]) == multiset(Ints(d, n))
  }

  lemma GroupedIndexes(p: seq<nat>, d: nat, n: nat)
    requires Grouped(p, d, n)
    ensures IsOrder(p, n) && forall k | 0 <= k < n :: p[k] < n && (p[k] < d <==> k < d)
  {
    assert p == p[..d] + p[d..] && Ints(0, n) == Ints(0, d) + Ints(d, n);
    forall k | 0 <= k < n ensures p[k] < n && (p[k] < d <==> k < d) {
      if k < d {
        assert p[..d][k] in multiset(Ints(0, d));
      } else {
        assert p[d..][k - d] in multiset(Ints(d, n));
      }
    }
  }

  lemma GroupedSize(p: seq<nat>, d: nat, n: nat)
    requires Grouped(p, d, n)
    ensures |p| == n && d <= n
  {
  }

  lemma GroupedIdentity(d: nat, n: nat)
    requires d <= n
    ensures Grouped(Ints(0, n), d, n)
  {
    assert Ints(0, n)[..d] == Ints(0, d) && Ints(0, n)[d..] == Ints(d, n);
  }

  /** Shuffling each group keeps the groups apart. */
  lemma GroupedShuffle(p: seq<nat>, d: nat, n: nat, death: bool, ds: seq<nat>)
    requires Grouped(p, d, n) && Fits(ds)
    requires var width := if death then d else n - d; |ds| == if width < 2 then 0 else width - 1
    ensures Grouped(FisherYates(p, if death then 0 else d, ds), d, n)
  {
    ShufflePermutes(p, if death then 0 else d, ds);
    GroupedPermuted(p, FisherYates(p, if death then 0 else d, ds), d, n, death);
  }

  /** Rearranging one group leaves both groups what they were. */
  lemma GroupedPermuted(p: seq<nat>, r: seq<nat>, d: nat, n: nat, death: bool)
    requires Grouped(p, d, n) && |r| == n && multiset(r) == multiset(p)
    requires forall k | 0 <= k < n :: (if death then k >= d else k < d) ==> r[k] == p[k]
    ensures Grouped(r, d, n)
  {
    if death {
      RangePermutes(r, p, 0, d);
      assert r[..d] == r[0..d] && p[..d] == p[0..d] && r[d..] == p[d..];
    } else {
      RangePermutes(r, p, d, n);
      assert r[d..] == r[d..n] && p[d..] == p[d..n] && r[..d] == p[..d];
    }
  }

  ghost function Lists(cs: seq<TestCase>): (r: seq<seq<TestInfo>>)
    reads cs`testInfoList
    decreases |cs|
    ensures |r| == |cs| && forall i | 0 <= i < |cs| :: r[i] == cs[i].testInfoList
  {
    if cs == [] then [] else Lists(cs[..|cs| - 1]) + [cs[|cs| - 1].testInfoList]
  }

  ghost function AllTests(cs: seq<TestCase>): seq<TestInfo>
    reads cs`testInfoList
  {
    Flatten(Lists(cs))
  }

  ghost predicate CasesValid(cs: seq<TestCase>)
    reads cs`testInfoList, (set c | c in cs :: c.testIndices)`elems
  {
    Distinct(Names(cs)) && forall i | 0 <= i < |cs| :: cs[i].Valid()
  }

  lemma AllTestsIn(cs: seq<TestCase>, t: TestInfo)
    ensures t in AllTests(cs) <==> exists i | 0 <= i < |cs| :: t in cs[i].testInfoList
  {
    FlattenContains(Lists(cs), t);
    assert forall i | 0 <= i < |cs| :: Lists(cs)[i] == cs[i].testInfoList;
  }

  /** No test is registered twice. */
  lemma {:induction false} AllTestsDistinct(cs: seq<TestCase>)
    requires CasesValid(cs)
    ensures Distinct(AllTests(cs))
    decreases |cs|
  {
    if cs == [] {
    } else {
      var n := |cs| - 1;
      hide TestCase.Valid;
      assert forall i | 0 <= i < n :: Names(cs[..n])[i] == Names(cs)[i];
      AllTestsDistinct(cs[..n]);
      assert Lists(cs)[..n] == Lists(cs[..n]);
      var before, last := AllTests(cs[..n]), cs[n].testInfoList;
      assert AllTests(cs) == before + last;
      ValidTests(cs[n]);
      forall t | t in before ensures t !in last {
        AllTestsIn(cs[..n], t);
        var i :| 0 <= i < n && t in cs[i].testInfoList;
        ValidTests(cs[i]);
        assert Names(cs)[i] != Names(cs)[n];
      }
      DistinctConcat(before, last);
    }
  }

  lemma ValidTests(c: TestCase)
    requires c.Valid()
    ensures Distinct(c.testInfoList) && forall t | t in c.testInfoList :: t.testCaseName == c.name
  {
  }

  /** A test case is to run exactly when one of its tests is. */
  ghost predicate Consistent(cs: seq<TestCase>)
    reads cs`testInfoList, cs`shouldRun, (set c, t | c in cs && t in c.testInfoList :: t)`shouldRun
  {
    forall i | 0 <= i < |cs| :: cs[i].shouldRun <==> exists t | t in cs[i].testInfoList :: t.shouldRun
  }

  ghost predicate CaseConsistent(c: TestCase)
    reads c`testInfoList, c`shouldRun, c.testInfoList`shouldRun
  {
    c.shouldRun <==> exists t | t in c.testInfoList :: t.shouldRun
  }

  ghost function RunningRows(cs: seq<TestCase>): (r: seq<seq<TestInfo>>)
    requires forall i | 0 <= i < |cs| :: cs[i].Valid()
    reads *
    decreases |cs|
    ensures |r| == |cs| && forall i | 0 <= i < |cs| :: r[i] == cs[i].Running()
  {
    if cs == [] then [] else RunningRows(cs[..|cs| - 1]) + [cs[|cs| - 1].Running()]
  }

  /** In the order of registration, the chosen tests run. */
  lemma SlotsPicked(cs: seq<TestCase>)
    requires CasesValid(cs) && Consistent(cs)
    ensures multiset(Flatten(RunningRows(cs))) == multiset(Picked(AllTests(cs), Chosen(AllTests(cs))))
  {
    hide TestCase.Valid, TestCase.Running, Chosen, Consistent, Picked, Flatten;
    var slots, chosen := RunningRows(cs), Chosen(AllTests(cs));
    var picked := PickedRows(Lists(cs), chosen);
    forall i | 0 <= i < |cs| ensures multiset(slots[i]) == multiset(picked[i]) {
      RunningPicked(cs, i);
    }
    FlattenRows(slots, picked);
    PickedFlat(Lists(cs), chosen);
  }

  /** One row for each case, its chosen tests, in the order of the indices. */
  ghost predicate RowsInOrder(rows: seq<seq<TestInfo>>, cs: seq<TestCase>, order: seq<nat>)
    requires forall i | 0 <= i < |cs| :: cs[i].Valid()
    reads *
  {
    && |rows| == |cs| == |order| && Indexes(order, |cs|)
    && forall k | 0 <= k < |cs| :: rows[k] == cs[order[k]].Running()
  }

  /** Any order runs the same tests. */
  lemma RunsSame(cs: seq<TestCase>, order: seq<nat>, rows: seq<seq<TestInfo>>)
    requires CasesValid(cs) && IsOrder(order, |cs|) && |rows| == |cs| == |order|
    requires Indexes(order, |cs|) && forall k | 0 <= k < |cs| :: rows[k] == cs[order[k]].Running()
    ensures multiset(Flatten(rows)) == multiset(Flatten(RunningRows(cs)))
  {
    hide TestCase.Valid, TestCase.Running, Flatten;
    var slots := RunningRows(cs);
    PermuteIs(slots, order, rows);
    PermuteSame(slots, order, Ints(0, |cs|));
    PermuteIdentity(slots);
    FlattenSame(rows, slots);
  }

  /** Each chosen test runs once, and no other test does. */
  lemma RunsOnce(cs: seq<TestCase>, ran: seq<TestInfo>, t: TestInfo)
    requires CasesValid(cs) && Consistent(cs)
    requires multiset(ran) == multiset(Flatten(RunningRows(cs)))
    ensures multiset(ran)[t] == if t in AllTests(cs) && t.shouldRun then 1 else 0
  {
    hide TestCase.Valid, TestCase.Running, Chosen, Consistent, Picked, Flatten;
    SlotsPicked(cs);
    AllTestsDistinct(cs);
    PickedDistinct(AllTests(cs), multiset(ran), t);
  }

  lemma PickedDistinct(ts: seq<TestInfo>, ran: multiset<TestInfo>, t: TestInfo)
    requires Distinct(ts) && ran == multiset(Picked(ts, Chosen(ts)))
    ensures ran[t] == if t in ts && t.shouldRun then 1 else 0
  {
    PickedOnce(ts, Chosen(ts), t);
    DistinctCount(ts, t);
  }

  lemma RunningPicked(cs: seq<TestCase>, i: nat)
    requires CasesValid(cs) && Consistent(cs) && i < |cs|
    ensures multiset(cs[i].Running()) == multiset(Picked(cs[i].testInfoList, Chosen(AllTests(cs))))
  {
    var c, chosen := cs[i], Chosen(AllTests(cs));
    forall t | t in c.testInfoList ensures t in chosen <==> t in Chosen(c.testInfoList) {
      AllTestsIn(cs, t);
    }
    assert Rows(c.testInfoList, chosen) == Rows(c.testInfoList, Chosen(c.testInfoList));
    if c.shouldRun {
      PickedSame(c.testInfoList, c.testIndices.elems, Chosen(c.testInfoList));
    } else {
      PickedNone(c.testInfoList, chosen);
    }
  }

  lemma RunningIn(c: TestCase, t: TestInfo)
    requires c.Valid() && t in c.Running()
    ensures t in c.testInfoList
  {
    OrderIndexes(c.testIndices.elems, |c.testInfoList|);
    PickedOnce(Permute(c.testInfoList, c.testIndices.elems), Chosen(c.testInfoList), t);
  }

  /** A test that runs belongs to a case of the rows it is in. */
  lemma RowOf(cs: seq<TestCase>, order: seq<nat>, rows: seq<seq<TestInfo>>, lo: nat, hi: nat, t: TestInfo)
      returns (k: nat)
    requires CasesValid(cs) && lo <= hi <= |order| == |cs| == |rows|
    requires Indexes(order, |cs|) && forall k | 0 <= k < |cs| :: rows[k] == cs[order[k]].Running()
    requires t in Flatten(rows[lo..hi])
    ensures lo <= k < hi && t.testCaseName == cs[order[k]].name
  {
    hide TestCase.Running, Flatten;
    FlattenContains(rows[lo..hi], t);
    var i :| 0 <= i < hi - lo && t in rows[lo..hi][i];
    k := lo + i;
    RunningIn(cs[order[k]], t);
  }

  /** Grouped orders run the death tests first. */
  lemma DeathTestsFirst(cs: seq<TestCase>, order: seq<nat>, rows: seq<seq<TestInfo>>, d: nat) returns (deaths: nat)
    requires CasesValid(cs) && Grouped(order, d, |cs|) && |rows| == |cs|
    requires Indexes(order, |cs|) && forall k | 0 <= k < |cs| :: rows[k] == cs[order[k]].Running()
    requires forall i | 0 <= i < |cs| :: IsDeath(cs[i].name) <==> i < d
    ensures var ran := Flatten(rows);
            deaths <= |ran| && forall k | 0 <= k < |ran| :: IsDeath(ran[k].testCaseName) <==> k < deaths
  {
    hide IsDeath, Flatten, TestCase.Running;
    GroupedIndexes(order, d, |cs|);
    hide CasesValid, Grouped;
    var n := |cs|;
    var a, b := Flatten(rows[0..d]), Flatten(rows[d..n]);
    FlattenConcat(rows[0..d], rows[d..n]);
    assert rows == rows[0..d] + rows[d..n];
    deaths := |a|;
    forall i | 0 <= i < |a| ensures IsDeath(a[i].testCaseName) {
      var k := RowOf(cs, order, rows, 0, d, a[i]);
    }
    forall i | 0 <= i < |b| ensures !IsDeath(b[i].testCaseName) {
      var k := RowOf(cs, order, rows, d, n, b[i]);
    }
  }

  /** Requesting a name again changes nothing. */
  lemma Known(requests: seq<string>, name: string)
    requires name in Registered(requests)
    ensures FirstRequests(requests + [name], true) == FirstRequests(requests, true)
    ensures Registered(requests + [name]) == Registered(requests)
  {
    hide IsDeath;
    DeathCasesFirst(requests);
    FirstRequestsAre(requests, true);
    FirstRequestsAre(requests, false);
    FirstRequestsNext(requests, name, true);
    FirstRequestsNext(requests, name, false);
  }

  /** A new name goes to the end of its group. */
  lemma Unknown(requests: seq<string>, name: string)
    requires name !in Registered(requests)
    ensures forall death :: FirstRequests(requests + [name], death) ==
              FirstRequests(requests, death) + if IsDeath(name) == death then [name] else []
  {
    hide IsDeath;
    FirstRequestsNext(requests, name, true);
    FirstRequestsNext(requests, name, false);
  }

  /** Inserting the new case at the end of its group keeps the order of registration. */
  lemma RegisteredNext(requests: seq<string>, name: string, cs: seq<TestCase>, c: TestCase, k: nat)
    requires Names(cs) == Registered(requests) && name !in Names(cs) && c.name == name
    requires k == if IsDeath(name) then |FirstRequests(requests, true)| else |cs|
    ensures Inserted(Names(cs), name, k) == Registered(requests + [name])
    ensures |FirstRequests(requests + [name], true)| == |FirstRequests(requests, true)| + if IsDeath(name) then 1 else 0
  {
    hide IsDeath, FirstRequests;
    Unknown(requests, name);
    var a, b := FirstRequests(requests, true), FirstRequests(requests, false);
    assert (a + b)[..|a|] == a && (a + b)[|a|..] == b;
  }

  /** No two test cases share their index vector, and none shares it with the test program. */
  ghost predicate Apart(cs: seq<TestCase>, indices: Vector<nat>) {
    && (forall i, j | 0 <= i < j < |cs| :: cs[i] != cs[j] && cs[i].testIndices != cs[j].testIndices)
    && (forall i | 0 <= i < |cs| :: cs[i].testIndices != indices)
  }

  ghost predicate TestsInOrder(cs: seq<TestCase>)
    reads cs`testInfoList, (set c | c in cs :: c.testIndices)`elems
  {
    forall i | 0 <= i < |cs| :: cs[i].testIndices.elems == Ints(0, |cs[i].testInfoList|)
  }

  function Inserted<T>(s: seq<T>, x: T, k: nat): (r: seq<T>)
    requires k <= |s|
    ensures |r| == |s| + 1
  {
    s[..k] + [x] + s[k..]
  }

  /** One more test case, the others as before. */
  ghost predicate Adds(cs: seq<TestCase>, c: TestCase, more: seq<TestCase>) {
    exists k | 0 <= k <= |cs| :: more == Inserted(cs, c, k)
  }

  lemma InsertedKeeps(cs: seq<TestCase>, c: TestCase, k: nat, indices: Vector<nat>)
    requires CasesValid(cs) && Apart(cs, indices) && c.Valid() && c.name !in Names(cs) && k <= |cs|
    requires c.testIndices != indices && forall i | 0 <= i < |cs| :: cs[i].testIndices != c.testIndices
    requires TestsInOrder(cs) && c.testIndices.elems == Ints(0, |c.testInfoList|)
    ensures var all := Inserted(cs, c, k);
            && CasesValid(all) && Apart(all, indices) && TestsInOrder(all)
            && Names(all) == Inserted(Names(cs), c.name, k) && c in all
  {
    hide TestCase.Valid;
    var all := Inserted(cs, c, k);
    forall i | 0 <= i < |all| ensures all[i] == if i < k then cs[i] else if i == k then c else cs[i - 1] {
    }
    assert Names(all) == Inserted(Names(cs), c.name, k);
    DistinctInserted(Names(cs), c.name, k);
    forall i | 0 <= i < |cs| ensures cs[i] != c && cs[i].Valid() {
      assert Names(cs)[i] == cs[i].name;
    }
  }

  lemma DistinctInserted<T>(s: seq<T>, x: T, k: nat)
    requires Distinct(s) && x !in s && k <= |s|
    ensures Distinct(Inserted(s, x, k))
  {
    var r := Inserted(s, x, k);
    forall i | 0 <= i < |r| ensures r[i] == if i < k then s[i] else if i == k then x else s[i - 1] {
    }
  }

  lemma FlattenAdds(lists: seq<seq<TestInfo>>, k: nat, test: TestInfo)
    requires k < |lists|
    ensures forall t :: t in Flatten(lists[k := lists[k] + [test]]) <==> t in Flatten(lists) || t == test
  {
    var more := lists[k := lists[k] + [test]];
    assert lists == lists[..k] + [lists[k]] + lists[k + 1..];
    assert more == lists[..k] + [lists[k] + [test]] + lists[k + 1..];
    hide Flatten;
    FlattenMiddle(lists[..k], lists[k], lists[k + 1..]);
    FlattenMiddle(lists[..k], lists[k] + [test], lists[k + 1..]);
  }

  /** A test case without tests adds none. */
  lemma InsertedTests(cs: seq<TestCase>, c: TestCase, k: nat)
    requires c.testInfoList == [] && k <= |cs|
    ensures AllTests(Inserted(cs, c, k)) == AllTests(cs)
  {
    hide Flatten;
    var lists := Lists(cs);
    assert lists == lists[..k] + lists[k..];
    assert Lists(Inserted(cs, c, k)) == lists[..k] + [[]] + lists[k..];
    FlattenMiddle(lists[..k], [], lists[k..]);
    FlattenConcat(lists[..k], lists[k..]);
  }

  /** The generator's state once the first k test cases have been shuffled. */
  ghost function StateAt(cs: seq<TestCase>, state: nat, k: nat): nat
    requires k <= |cs|
    reads cs`testInfoList
  {
    if k == 0 then state else StateAfter(StateAt(cs, state, k - 1), |cs[k - 1].testInfoList|)
  }

  ghost function TestOrders(cs: seq<TestCase>): (r: seq<seq<nat>>)
    reads (set c | c in cs :: c.testIndices)`elems
    decreases |cs|
    ensures |r| == |cs| && forall k | 0 <= k < |cs| :: r[k] == cs[k].testIndices.elems
  {
    if cs == [] then [] else TestOrders(cs[..|cs| - 1]) + [cs[|cs| - 1].testIndices.elems]
  }

  /** The tests of the first i test cases have been shuffled, one case after the other. */
  ghost predicate EachShuffled(cs: seq<TestCase>, orders: seq<seq<nat>>, state: nat, i: nat)
    reads cs`testInfoList, (set c | c in cs :: c.testIndices)`elems
  {
    && i <= |cs| == |orders|
    && forall k | 0 <= k < |cs| ::
         cs[k].testIndices.elems ==
         if k < i then FisherYates(orders[k], 0, Draws(StateAt(cs, state, k), |orders[k]|)) else orders[k]
  }

  lemma NoneShuffled(cs: seq<TestCase>, state: nat)
    ensures EachShuffled(cs, TestOrders(cs), state, 0) && StateAt(cs, state, 0) == state
  {
  }

  lemma CasesValidSizes(cs: seq<TestCase>)
    requires CasesValid(cs)
    ensures forall k | 0 <= k < |cs| :: |cs[k].testIndices.elems| == |cs[k].testInfoList|
  {
    hide TestCase.Valid;
    forall k | 0 <= k < |cs| ensures |cs[k].testIndices.elems| == |cs[k].testInfoList| {
      ValidSize(cs[k]);
    }
  }

  lemma ValidSize(c: TestCase)
    requires c.Valid()
    ensures |c.testIndices.elems| == |c.testInfoList|
  {
    OrderIndexes(c.testIndices.elems, |c.testInfoList|);
  }

  /** Which tests match the filter and are not disabled. */
  ghost function RunnableTests(ts: seq<TestInfo>, flags: Flags): (r: seq<bool>)
    ensures |r| == |ts| && forall k | 0 <= k < |ts| :: r[k] == Runnable(flags, ts[k].testCaseName, ts[k].name)
  {
    seq(|ts|, k requires 0 <= k < |ts| => Runnable(flags, ts[k].testCaseName, ts[k].name))
  }

  ghost function SelectedCount(ts: seq<TestInfo>, flags: Flags, sharding: ReactionToSharding): nat
    requires InRange(sharding)
  {
    CountTrue(Selection(RunnableTests(ts, flags), sharding))
  }

  /** The tests carry the verdicts of the filter and of the sharding. */
  ghost predicate Filtered(ts: seq<TestInfo>, flags: Flags, sharding: ReactionToSharding)
    requires InRange(sharding)
    reads ts`isDisabled, ts`matchesFilter, ts`shouldRun
  {
    forall k | 0 <= k < |ts| ::
      && ts[k].isDisabled == (IsDisabled(ts[k].testCaseName) || IsDisabled(ts[k].name))
      && ts[k].matchesFilter == Glob.FilterSelects(flags.filter, ts[k].testCaseName + "." + ts[k].name)
      && ts[k].shouldRun == Selection(RunnableTests(ts, flags), sharding)[k]
  }

  const MAX_RANDOM_SEED: nat := 99999

  /** The seed that the flag asks for, 0 standing for one from the clock; in 32-bit unsigned arithmetic. */
  function GetRandomSeedFromFlag(randomSeedFlag: int, timeInMillis: int): (seed: nat)
    requires -0x8000_0000 <= randomSeedFlag <= 0x7FFF_FFFF
    ensures 1 <= seed <= 99999
  {
    var rawSeed := (if randomSeedFlag == 0 then timeInMillis else randomSeedFlag) % UINT_RANGE;
    (rawSeed - 1) % UINT_RANGE % MAX_RANDOM_SEED + 1
  }

  /** A valid seed is kept; any other number is brought into range in steps of 99999. */
  lemma SeedFromFlagMeans(randomSeedFlag: int, timeInMillis: int)
    requires -0x8000_0000 <= randomSeedFlag <= 0x7FFF_FFFF
    ensures var seed, clock := GetRandomSeedFromFlag(randomSeedFlag, timeInMillis), timeInMillis % 0x1_0000_0000;
            && (1 <= randomSeedFlag <= 99999 ==> seed == randomSeedFlag)
            && (randomSeedFlag >= 1 ==> seed == (randomSeedFlag - 1) % 99999 + 1)
            && (randomSeedFlag < 0 ==> seed == (randomSeedFlag - 1 + 0x1_0000_0000) % 99999 + 1)
            && (randomSeedFlag == 0 && clock != 0 ==> seed == (clock - 1) % 99999 + 1)
            && (randomSeedFlag == 0 && clock == 0 ==> seed == 10246)
  {
    var raw := if randomSeedFlag == 0 then timeInMillis else randomSeedFlag;
    var rest := raw % 0x1_0000_0000;
    if randomSeedFlag != 0 {
      Unsigned(raw);
    }
    Unsigned(rest - 1);
  }

  /** Conversion to 32-bit unsigned. */
  lemma Unsigned(n: int)
    requires -0x1_0000_0000 <= n < 0x1_0000_0000
    ensures n % 0x1_0000_0000 == if n < 0 then n + 0x1_0000_0000 else n
  {
  }

  /** The seed of repetition i: the seeds go round from 1 to 99999. */
  function SeedAt(seed: nat, i: nat): (s: nat)
    requires 1 <= seed <= 99999
    ensures 1 <= s <= 99999
  {
    (seed - 1 + i) % 99999 + 1
  }

  function GetNextRandomSeed(seed: nat): (next: nat)
    requires 1 <= seed <= MAX_RANDOM_SEED
    ensures 1 <= next <= MAX_RANDOM_SEED
    ensures forall first, i: nat | 1 <= first <= 99999 && seed == SeedAt(first, i) :: next == SeedAt(first, i + 1)
  {
    if seed + 1 > MAX_RANDOM_SEED then 1 else seed + 1
  }

  /** The run holds each selected test once and no other test, death tests first. */
  ghost predicate IsFullRun(ran: seq<TestInfo>, all: seq<TestInfo>, flags: Flags, sharding: ReactionToSharding)
    requires InRange(sharding)
  {
    && (forall k | 0 <= k < |all| ::
          multiset(ran)[all[k]] == if Selection(RunnableTests(all, flags), sharding)[k] then 1 else 0)
    && (forall t | t in ran :: t in all)
    && (forall i, j | 0 <= i < j < |ran| :: IsDeath(ran[j].testCaseName) ==> IsDeath(ran[i].testCaseName))
  }

  // ----- What a run is due to be -----

  /** The tests that match the filter, are not disabled and fall to this shard. */
  ghost function Selected(all: seq<TestInfo>, flags: Flags, sharding: ReactionToSharding): set<TestInfo>
    requires InRange(sharding)
  {
    set k | 0 <= k < |all| && Runnable(flags, all[k].testCaseName, all[k].name)
      && DealtHere(RunnableTests(all, flags), sharding, k) :: all[k]
  }

  /** Where a seed puts n test cases: the first d, the death test cases, are shuffled first, then the others. */
  ghost function CaseOrder(seed: nat, d: nat, n: nat): (p: seq<nat>)
    requires d <= n
    ensures Grouped(p, d, n)
  {
    GroupedIdentity(d, n);
    GroupedShuffle(Ints(0, n), d, n, true, Draws(seed, d));
    var deaths := FisherYates(Ints(0, n), 0, Draws(seed, d));
    GroupedShuffle(deaths, d, n, false, Draws(StateAfter(seed, d), n - d));
    FisherYates(deaths, d, Draws(StateAfter(seed, d), n - d))
  }

  /** Where the generator puts the m tests of a test case. */
  ghost function TestOrder(state: nat, m: nat): (p: seq<nat>)
    ensures IsOrder(p, m) && |p| == m && Indexes(p, m)
  {
    ShufflePermutes(Ints(0, m), 0, Draws(state, m));
    OrderIndexes(FisherYates(Ints(0, m), 0, Draws(state, m)), m);
    FisherYates(Ints(0, m), 0, Draws(state, m))
  }

  /** The generator's state when it comes to the tests of case k: those before it have been shuffled. */
  ghost function StateBefore(lists: seq<seq<TestInfo>>, state: nat, k: nat): nat
    requires k <= |lists|
  {
    if k == 0 then state else StateAfter(StateBefore(lists, state, k - 1), |lists[k - 1]|)
  }

  ghost function ShuffledRow(lists: seq<seq<TestInfo>>, k: nat, state: nat, chosen: set<TestInfo>): seq<TestInfo>
    requires k < |lists|
  {
    Picked(Permute(lists[k], TestOrder(StateBefore(lists, state, k), |lists[k]|)), chosen)
  }

  /** The chosen tests of each case, cases and tests in the orders that the seed leads to. */
  ghost function ShuffledRows(lists: seq<seq<TestInfo>>, d: nat, chosen: set<TestInfo>, seed: nat)
    : (rows: seq<seq<TestInfo>>)
    requires d <= |lists|
    ensures |rows| == |lists|
  {
    var n := |lists|;
    var order := CaseOrder(seed, d, n);
    GroupedIndexes(order, d, n);
    var state := StateAfter(StateAfter(seed, d), n - d);
    seq(n, k requires 0 <= k < n => ShuffledRow(lists, order[k], state, chosen))
  }

  /** A run of the chosen tests: in registration order, or in the order that the seed leads to. */
  ghost function DueRun(lists: seq<seq<TestInfo>>, d: nat, chosen: set<TestInfo>, shuffle: bool, seed: nat)
    : seq<TestInfo>
    requires d <= |lists|
  {
    if shuffle then Flatten(ShuffledRows(lists, d, chosen, seed)) else Picked(Flatten(lists), chosen)
  }

  /** The tests carry exactly the choice. */
  lemma FilteredChooses(all: seq<TestInfo>, flags: Flags, sharding: ReactionToSharding)
    requires InRange(sharding) && Filtered(all, flags, sharding)
    ensures forall t | t in all :: t.shouldRun <==> t in Selected(all, flags, sharding)
  {
    hide Runnable, IsDisabled, Glob.FilterSelects, DealtHere;
    forall k | 0 <= k < |all|
      ensures all[k].shouldRun <==>
              Runnable(flags, all[k].testCaseName, all[k].name) && DealtHere(RunnableTests(all, flags), sharding, k)
    {
      SelectionAt(RunnableTests(all, flags), sharding, k);
    }
  }

  lemma NothingChosen(all: seq<TestInfo>, flags: Flags, sharding: ReactionToSharding)
    requires InRange(sharding) && Filtered(all, flags, sharding) && SelectedCount(all, flags, sharding) == 0
    ensures Selected(all, flags, sharding) == {}
  {
    hide Runnable, IsDisabled, Glob.FilterSelects, DealtHere;
    FilteredChooses(all, flags, sharding);
    NoneTrue(Selection(RunnableTests(all, flags), sharding));
    forall t ensures t !in Selected(all, flags, sharding) {
      if t in all {
        var k :| 0 <= k < |all| && all[k] == t;
        assert !Selection(RunnableTests(all, flags), sharding)[k];
      }
    }
  }

  lemma {:induction false} FlattenEmpties<T>(rows: seq<seq<T>>)
    requires forall k | 0 <= k < |rows| :: rows[k] == []
    ensures Flatten(rows) == []
  {
    if rows == [] {
    } else {
      FlattenEmpties(rows[..|rows| - 1]);
    }
  }

  lemma NothingDue(lists: seq<seq<TestInfo>>, d: nat, shuffle: bool, seed: nat)
    requires d <= |lists|
    ensures DueRun(lists, d, {}, shuffle, seed) == []
  {
    PickedNone(Flatten(lists), {});
    if shuffle {
      var rows := ShuffledRows(lists, d, {}, seed);
      forall k | 0 <= k < |rows| ensures rows[k] == [] {
        var order := CaseOrder(seed, d, |lists|);
        GroupedIndexes(order, d, |lists|);
        var c := order[k];
        var state := StateAfter(StateAfter(seed, d), |lists| - d);
        PickedNone(Permute(lists[c], TestOrder(StateBefore(lists, state, c), |lists[c]|)), {});
      }
      FlattenEmpties(rows);
    }
  }

  /** What a case runs is its part of the choice. */
  lemma RunningChosen(cs: seq<TestCase>, i: nat, chosen: set<TestInfo>)
    requires CasesValid(cs) && Consistent(cs) && i < |cs|
    requires forall t | t in AllTests(cs) :: t.shouldRun <==> t in chosen
    ensures |cs[i].testIndices.elems| == |cs[i].testInfoList| && Indexes(cs[i].testIndices.elems, |cs[i].testInfoList|)
    ensures cs[i].Running() == Picked(Permute(cs[i].testInfoList, cs[i].testIndices.elems), chosen)
  {
    var c := cs[i];
    OrderIndexes(c.testIndices.elems, |c.testInfoList|);
    var order := Permute(c.testInfoList, c.testIndices.elems);
    forall t | t in order ensures t in c.testInfoList && (t in chosen <==> t.shouldRun) {
      var k :| 0 <= k < |order| && order[k] == t;
      assert t == c.testInfoList[c.testIndices.elems[k]];
      AllTestsIn(cs, t);
    }
    if c.shouldRun {
      assert Rows(order, chosen) == Rows(order, Chosen(c.testInfoList));
    } else {
      PickedNone(order, chosen);
    }
  }

  /** In registration order, the run is the one due without shuffling. */
  lemma PlainRunIsDue(cs: seq<TestCase>, order: seq<nat>, rows: seq<seq<TestInfo>>, chosen: set<TestInfo>)
    requires CasesValid(cs) && Consistent(cs) && TestsInOrder(cs) && order == Ints(0, |cs|)
    requires RowsInOrder(rows, cs, order)
    requires forall t | t in AllTests(cs) :: t.shouldRun <==> t in chosen
    ensures Flatten(rows) == Picked(Flatten(Lists(cs)), chosen)
  {
    hide TestCase.Valid, TestCase.Running, Consistent, Picked, Flatten, AllTests;
    forall k | 0 <= k < |cs| ensures rows[k] == Picked(cs[k].testInfoList, chosen) {
      RunningChosen(cs, k, chosen);
      PermuteIdentity(cs[k].testInfoList);
    }
    assert rows == PickedRows(Lists(cs), chosen);
    PickedFlat(Lists(cs), chosen);
  }

  /** After a shuffle of the registration order, the run is the one due for the seed. */
  lemma ShuffledRunIsDue(cs: seq<TestCase>, d: nat, order: seq<nat>, rows: seq<seq<TestInfo>>,
                         chosen: set<TestInfo>, seed: nat)
    requires CasesValid(cs) && Consistent(cs) && d <= |cs| && order == CaseOrder(seed, d, |cs|)
    requires ShuffledFrom(cs, StateAfter(StateAfter(seed, d), |cs| - d))
    requires RowsInOrder(rows, cs, order)
    requires forall t | t in AllTests(cs) :: t.shouldRun <==> t in chosen
    ensures Flatten(rows) == Flatten(ShuffledRows(Lists(cs), d, chosen, seed))
  {
    hide TestCase.Valid, TestCase.Running, Consistent, Picked, Flatten, AllTests, TestOrder, CaseOrder, StateBefore;
    var lists, state := Lists(cs), StateAfter(StateAfter(seed, d), |cs| - d);
    forall k | 0 <= k < |cs| ensures rows[k] == ShuffledRow(lists, order[k], state, chosen) {
      RunningChosen(cs, order[k], chosen);
    }
    assert rows == ShuffledRows(lists, d, chosen, seed);
  }

  /** Each case has the order that the generator gives its tests, one case after the other. */
  ghost predicate ShuffledFrom(cs: seq<TestCase>, state: nat)
    reads cs`testInfoList, (set c | c in cs :: c.testIndices)`elems
  {
    forall k | 0 <= k < |cs| ::
      cs[k].testIndices.elems == TestOrder(StateBefore(Lists(cs), state, k), |cs[k].testInfoList|)
  }

  lemma {:induction false} StateAtIs(cs: seq<TestCase>, state: nat, k: nat)
    requires k <= |cs|
    ensures StateAt(cs, state, k) == StateBefore(Lists(cs), state, k)
  {
    if k == 0 {
    } else {
      StateAtIs(cs, state, k - 1);
    }
  }

  /** Shuffling tests that stand in registration order gives them the orders that are due. */
  lemma EachShuffledIs(cs: seq<TestCase>, orders: seq<seq<nat>>, state: nat)
    requires EachShuffled(cs, orders, state, |cs|)
    requires |orders| == |cs| && forall k | 0 <= k < |cs| :: orders[k] == Ints(0, |cs[k].testInfoList|)
    ensures ShuffledFrom(cs, state)
  {
    hide FisherYates, Draws, StateAt, StateBefore, StateAfter;
    forall k | 0 <= k < |cs|
      ensures cs[k].testIndices.elems == TestOrder(StateBefore(Lists(cs), state, k), |cs[k].testInfoList|)
    {
      StateAtIs(cs, state, k);
    }
  }

  class UnitTestImpl {
    const testCaseIndices: Vector<nat>
    const random: Random
    var testCases: seq<TestCase>
    var lastDeathTestCase: int
    /** Every name that a test case was ever requested for. */
    ghost var requests: seq<string>

    constructor (seed: nat)
      ensures Valid() && Unshuffled() && requests == [] && testCases == []
      ensures fresh(testCaseIndices) && fresh(random) && random.state == seed
    {
      testCaseIndices := new Vector<nat>();
      random := new Random(seed);
      testCases, lastDeathTestCase, requests := [], -1, [];
    }

    ghost predicate Valid()
      reads this, testCaseIndices`elems, testCases`testInfoList, (set c | c in testCases :: c.testIndices)`elems
    {
      && Names(testCases) == Registered(requests)
      && lastDeathTestCase + 1 == |FirstRequests(requests, true)|
      && CasesValid(testCases)
      && Apart(testCases, testCaseIndices)
      && Grouped(testCaseIndices.elems, lastDeathTestCase + 1, |testCases|)
    }

    ghost predicate Unshuffled()
      reads this, testCaseIndices`elems, testCases`testInfoList, (set c | c in testCases :: c.testIndices)`elems
    {
      testCaseIndices.elems == Ints(0, |testCases|) && TestsInOrder(testCases)
    }

    /** The death test cases occupy exactly the first slots. */
    lemma DeathSlots()
      requires Valid()
      ensures forall i | 0 <= i < |testCases| :: IsDeath(testCases[i].name) <==> i <= lastDeathTestCase
    {
      DeathCasesFirst(requests);
      assert forall i | 0 <= i < |testCases| :: testCases[i].name == Names(testCases)[i];
    }

    /** Finds the test case with a name, or creates it. */
    method GetTestCase(name: CString) returns (found: TestCase)
      requires Valid() && Unshuffled()
      modifies this`testCases, this`lastDeathTestCase, this`requests, testCaseIndices`elems
      ensures Valid() && Unshuffled() && requests == old(requests) + [name]
      ensures found in testCases && found.name == name
      ensures testCases == old(testCases) ||
              (fresh(found) && fresh(found.testIndices) && found.testInfoList == [] &&
                  Adds(old(testCases), found, testCases))
      ensures AllTests(testCases) == old(AllTests(testCases))
    {
      hide IsDeath, CasesValid, Apart, TestCase.Valid, Registered, FirstRequests, Grouped, TestsInOrder, Adds, AllTests;
      for i := 0 to |testCases|
        invariant forall k | 0 <= k < i :: testCases[k].name != name
      {
        if testCases[i].name == name {
          found := testCases[i];
          assert Names(testCases)[i] == name;
          Known(requests, name);
          requests := requests + [name];
          return;
        }
      }
      found := CreateTestCase(name);
    }

    method CreateTestCase(name: CString) returns (created: TestCase)
      requires Valid() && Unshuffled() && name !in Names(testCases)
      modifies this`testCases, this`lastDeathTestCase, this`requests, testCaseIndices`elems
      ensures Valid() && Unshuffled() && requests == old(requests) + [name]
      ensures created in testCases && created.name == name
      ensures fresh(created) && fresh(created.testIndices) && created.testInfoList == []
      ensures Adds(old(testCases), created, testCases) && AllTests(testCases) == old(AllTests(testCases))
    {
      hide CasesValid, Apart, TestCase.Valid, Registered, FirstRequests, Grouped, TestsInOrder, Glob.MatchesAny;
      hide Glob.Pieces, AllTests;
      created := new TestCase(name);
      var isDeath := Glob.MatchesFilter(name, Glob.DEATH_TEST_CASE_FILTER);
      InsertTestCase(created, isDeath);
    }

    /** A new death test case goes after the last one, any other to the end. */
    method InsertTestCase(created: TestCase, isDeath: bool)
      requires Valid() && Unshuffled() && created.name !in Names(testCases) && isDeath == IsDeath(created.name)
      requires created.Valid() && created.testInfoList == [] && created.testIndices.elems == Ints(0, 0)
      requires created.testIndices != testCaseIndices
      requires forall i | 0 <= i < |testCases| :: testCases[i].testIndices != created.testIndices
      modifies this`testCases, this`lastDeathTestCase, this`requests, testCaseIndices`elems
      ensures Valid() && Unshuffled() && requests == old(requests) + [created.name]
      ensures created in testCases && Adds(old(testCases), created, testCases)
      ensures AllTests(testCases) == old(AllTests(testCases))
    {
      hide IsDeath, CasesValid, Apart, TestCase.Valid, Registered, FirstRequests, TestsInOrder, AllTests, Names;
      hide Inserted, Grouped, Ints;
      GroupedSize(testCaseIndices.elems, lastDeathTestCase + 1, |testCases|);
      ghost var cs, k := testCases, if isDeath then lastDeathTestCase + 1 else |testCases|;
      RegisteredNext(requests, created.name, cs, created, k);
      PlaceTestCase(created, isDeath, k);
      requests := requests + [created.name];
      InsertedKeeps(cs, created, k, testCaseIndices);
      InsertedTests(cs, created, k);
      AppendIndex();
      GroupedIdentity(lastDeathTestCase + 1, |testCases|);
    }

    method PlaceTestCase(created: TestCase, isDeath: bool, ghost k: nat)
      requires -1 <= lastDeathTestCase < |testCases| && k == if isDeath then lastDeathTestCase + 1 else |testCases|
      modifies this`testCases, this`lastDeathTestCase
      ensures testCases == Inserted(old(testCases), created, k)
      ensures lastDeathTestCase == old(lastDeathTestCase) + if isDeath then 1 else 0
    {
      if isDeath {
        lastDeathTestCase := lastDeathTestCase + 1;
        testCases := testCases[..lastDeathTestCase] + [created] + testCases[lastDeathTestCase..];
      } else {
        testCases := testCases + [created];
      }
    }

    method AppendIndex()
      requires CasesValid(testCases) && TestsInOrder(testCases) && Apart(testCases, testCaseIndices)
      requires |testCases| > 0 && testCaseIndices.elems == Ints(0, |testCases| - 1)
      modifies testCaseIndices`elems
      ensures CasesValid(testCases) && TestsInOrder(testCases)
      ensures testCaseIndices.elems == Ints(0, |testCases|)
    {
      hide TestCase.Valid;
      testCaseIndices.elems := testCaseIndices.elems + [|testCaseIndices.elems|];
    }

    /** Registers a test with the test case it names. */
    method AddTestInfo(test: TestInfo)
      requires Valid() && Unshuffled() && test !in AllTests(testCases)
      modifies this`testCases, this`lastDeathTestCase, this`requests, testCaseIndices`elems
      modifies testCases`testInfoList, (set c | c in testCases :: c.testIndices)`elems
      ensures Valid() && Unshuffled() && requests == old(requests) + [test.testCaseName]
      ensures forall t: TestInfo :: t in AllTests(testCases) <==> t in old(AllTests(testCases)) || t == test
    {
      hide CasesValid, Apart, TestCase.Valid, Registered, FirstRequests, Grouped, TestsInOrder, AllTests;
      var testCase := GetTestCase(test.testCaseName);
      AddTo(testCase, test);
    }

    method AddTo(testCase: TestCase, test: TestInfo)
      requires CasesValid(testCases) && TestsInOrder(testCases) && Apart(testCases, testCaseIndices)
      requires testCase in testCases && test.testCaseName == testCase.name && test !in AllTests(testCases)
      modifies testCase`testInfoList, testCase.testIndices`elems
      ensures CasesValid(testCases) && TestsInOrder(testCases) && testCaseIndices.elems == old(testCaseIndices.elems)
      ensures forall t: TestInfo :: t in AllTests(testCases) <==> t in old(AllTests(testCases)) || t == test
    {
      hide Flatten, TestCase.Valid, CasesValid, TestsInOrder, Apart;
      ghost var lists := Lists(testCases);
      ghost var k :| 0 <= k < |testCases| && testCases[k] == testCase;
      assert test !in testCase.testInfoList by { AllTestsIn(testCases, test); }
      AddAt(testCase, test, k);
      FlattenAdds(lists, k, test);
    }

    method AddAt(testCase: TestCase, test: TestInfo, ghost k: nat)
      requires CasesValid(testCases) && TestsInOrder(testCases) && Apart(testCases, testCaseIndices)
      requires k < |testCases| && testCases[k] == testCase
      requires test.testCaseName == testCase.name && test !in testCase.testInfoList
      modifies testCase`testInfoList, testCase.testIndices`elems
      ensures CasesValid(testCases) && TestsInOrder(testCases) && testCaseIndices.elems == old(testCaseIndices.elems)
      ensures var lists := old(Lists(testCases)); Lists(testCases) == lists[k := lists[k] + [test]]
    {
      hide TestCase.Valid;
      ghost var n := |testCase.testInfoList|;
      assert forall i | 0 <= i < |testCases| && i != k ::
          testCases[i] != testCase && testCases[i].testIndices != testCase.testIndices;
      testCase.AddTestInfo(test);
      assert Ints(0, n + 1) == Ints(0, n) + [n];
    }

    function GetMutableTestCase(i: int): (c: TestCase?)
      requires forall k | 0 <= k < |testCaseIndices.elems| :: testCaseIndices.elems[k] < |testCases|
      reads this, testCaseIndices`elems
    {
      var index := GetElementOr<int>(testCaseIndices.elems, i, -1);
      if index < 0 then null else testCases[index]
    }

    /** The read-only accessor checks the index vector but does not follow it. */
    function GetTestCaseAt(i: int): (c: TestCase?)
      requires |testCaseIndices.elems| == |testCases|
      reads this, testCaseIndices`elems
    {
      var index := GetElementOr<int>(testCaseIndices.elems, i, -1);
      if index < 0 then null else testCases[i]
    }

    /** The two accessors agree exactly while the test cases are in registration order. */
    lemma AccessorsAgree()
      requires Valid()
      ensures |testCaseIndices.elems| == |testCases| && Indexes(testCaseIndices.elems, |testCases|)
      ensures (forall i: nat :: GetTestCaseAt(i) == GetMutableTestCase(i)) <==>
          testCaseIndices.elems == Ints(0, |testCases|)
    {
      hide CasesValid, Registered, FirstRequests, Grouped;
      var order, n := testCaseIndices.elems, |testCases|;
      assert Grouped(order, lastDeathTestCase + 1, n);
      GroupedSize(order, lastDeathTestCase + 1, n);
      GroupedIndexes(order, lastDeathTestCase + 1, n);
      if forall i: nat :: GetTestCaseAt(i) == GetMutableTestCase(i) {
        forall i | 0 <= i < n ensures order[i] == i {
          assert GetTestCaseAt(i) == GetMutableTestCase(i);
        }
      }
    }

    /** Runs every test case in the order of the indices: each chosen test runs once, and death tests run first. */
    method RunTestCases() returns (ran: seq<TestInfo>, ghost deaths: nat, ghost rows: seq<seq<TestInfo>>)
      requires Valid() && Consistent(testCases)
      ensures ran == Flatten(rows) && RowsInOrder(rows, testCases, testCaseIndices.elems)
      ensures forall t: TestInfo :: multiset(ran)[t] == if t in AllTests(testCases) && t.shouldRun then 1 else 0
      ensures deaths <= |ran| && forall k | 0 <= k < |ran| :: IsDeath(ran[k].testCaseName) <==> k < deaths
    {
      hide TestCase.Running, Consistent, Apart, IsDeath, Flatten, AllTests, Registered, FirstRequests;
      DeathSlots();
      ghost var d, order := lastDeathTestCase + 1, testCaseIndices.elems;
      GroupedIndexes(order, d, |testCases|);
      ran := [];
      rows := [];
      FlattenNone<TestInfo>();
      for i := 0 to |testCases|
        invariant ran == Flatten(rows) && |rows| == i
        invariant forall k | 0 <= k < i :: rows[k] == testCases[order[k]].Running()
      {
        var testCase := GetMutableTestCase(i);
        var now := testCase.Run();
        FlattenConcat(rows, [now]);
        FlattenOne(now);
        ran := ran + now;
        rows := rows + [now];
      }
      deaths := DeathTestsFirst(testCases, order, rows, d);
      RunsSame(testCases, order, rows);
      forall t: TestInfo ensures multiset(ran)[t] == if t in AllTests(testCases) && t.shouldRun then 1 else 0 {
        RunsOnce(testCases, ran, t);
      }
    }

    // ----- Shuffling -----

    ghost predicate Sizes()
      reads this, testCases`testInfoList
    {
      |testCases| <= MAX_RANGE && forall i | 0 <= i < |testCases| :: |testCases[i].testInfoList| <= MAX_RANGE
    }

    /** Shuffles the death test cases, the other test cases, and the tests inside each. */
    method ShuffleTests()
      requires Valid() && Sizes()
      modifies random`state, testCaseIndices`elems, (set c | c in testCases :: c.testIndices)`elems
      ensures Valid()
      ensures var d, n, state := lastDeathTestCase + 1, |testCases|, old(random.state);
              testCaseIndices.elems ==
                FisherYates(FisherYates(old(testCaseIndices.elems), 0, Draws(state, d)), d,
                    Draws(StateAfter(state, d), n - d))
      ensures var d, n := lastDeathTestCase + 1, |testCases|;
              var state := StateAfter(StateAfter(old(random.state), d), n - d);
              EachShuffled(testCases, old(TestOrders(testCases)), state, n)
    {
      hide CasesValid, Apart, Grouped, Registered, FirstRequests, FisherYates, Draws, StateAfter, EachShuffled, Fits;
      hide Names, TestOrders, StateAt, Sizes;
      ShuffleCases();
      ShuffleEach();
    }

    method ShuffleEach()
      requires CasesValid(testCases) && Apart(testCases, testCaseIndices) && Sizes()
      modifies random`state, (set c | c in testCases :: c.testIndices)`elems
      ensures CasesValid(testCases) && testCaseIndices.elems == old(testCaseIndices.elems)
      ensures EachShuffled(testCases, old(TestOrders(testCases)), old(random.state), |testCases|)
    {
      hide CasesValid, Apart, EachShuffled;
      ghost var orders, state := TestOrders(testCases), random.state;
      NoneShuffled(testCases, state);
      for i := 0 to |testCases|
        invariant CasesValid(testCases) && testCaseIndices.elems == old(testCaseIndices.elems)
        invariant random.state == StateAt(testCases, state, i) && EachShuffled(testCases, orders, state, i)
      {
        assert testCases[i] in testCases;
        ShuffleAt(i, orders, state);
      }
    }

    method ShuffleCases()
      requires Valid() && Sizes()
      modifies random`state, testCaseIndices`elems
      ensures CasesValid(testCases) && Grouped(testCaseIndices.elems, lastDeathTestCase + 1, |testCases|)
      ensures TestOrders(testCases) == old(TestOrders(testCases))
      ensures var d, n, state := lastDeathTestCase + 1, |testCases|, old(random.state);
              testCaseIndices.elems ==
                FisherYates(FisherYates(old(testCaseIndices.elems), 0, Draws(state, d)), d,
                    Draws(StateAfter(state, d), n - d))
      ensures random.state ==
          StateAfter(StateAfter(old(random.state), lastDeathTestCase + 1), |testCases| - (lastDeathTestCase + 1))
    {
      hide TestCase.Valid, Registered, FirstRequests, IsDeath, Names, FisherYates, Draws, StateAfter, Fits, Grouped;
      ShuffleIndices();
    }

    method ShuffleIndices()
      requires lastDeathTestCase >= -1 && Grouped(testCaseIndices.elems, lastDeathTestCase + 1, |testCases|) && Sizes()
      modifies random`state, testCaseIndices`elems
      ensures Grouped(testCaseIndices.elems, lastDeathTestCase + 1, |testCases|)
      ensures var d, n, state := lastDeathTestCase + 1, |testCases|, old(random.state);
              testCaseIndices.elems ==
                FisherYates(FisherYates(old(testCaseIndices.elems), 0, Draws(state, d)), d,
                    Draws(StateAfter(state, d), n - d))
      ensures random.state ==
          StateAfter(StateAfter(old(random.state), lastDeathTestCase + 1), |testCases| - (lastDeathTestCase + 1))
    {
      hide FisherYates, Draws, StateAfter, Fits, Grouped;
      ShuffleGroup(0, lastDeathTestCase + 1, true);
      ShuffleGroup(lastDeathTestCase + 1, |testCases|, false);
    }

    /** Shuffles one group of the test cases. */
    method ShuffleGroup(begin: int, end: int, ghost death: bool)
      requires lastDeathTestCase >= -1 && Grouped(testCaseIndices.elems, lastDeathTestCase + 1, |testCases|) && Sizes()
      requires if death then begin == 0 && end == lastDeathTestCase + 1
               else begin == lastDeathTestCase + 1 && end == |testCases|
      modifies random`state, testCaseIndices`elems
      ensures Grouped(testCaseIndices.elems, lastDeathTestCase + 1, |testCases|)
      ensures begin <= end &&
          testCaseIndices.elems == FisherYates(old(testCaseIndices.elems), begin, Draws(old(random.state), end - begin))
      ensures random.state == StateAfter(old(random.state), end - begin)
    {
      hide FisherYates, Draws, StateAfter, Fits, Grouped;
      ghost var d, n, order := lastDeathTestCase + 1, |testCases|, testCaseIndices.elems;
      GroupedSize(order, d, n);
      GroupedShuffle(order, d, n, death, Draws(random.state, end - begin));
      ShuffleRange(random, begin, end, testCaseIndices);
    }

    method ShuffleAt(i: nat, ghost orders: seq<seq<nat>>, ghost state: nat)
      requires CasesValid(testCases) && Apart(testCases, testCaseIndices) && Sizes() && i < |testCases|
      requires random.state == StateAt(testCases, state, i) && EachShuffled(testCases, orders, state, i)
      modifies random`state, testCases[i].testIndices`elems
      ensures CasesValid(testCases) && testCaseIndices.elems == old(testCaseIndices.elems)
      ensures random.state == StateAt(testCases, state, i + 1) && EachShuffled(testCases, orders, state, i + 1)
    {
      hide CasesValid, Apart, FisherYates, Draws, StateAfter, Fits;
      ShuffleOne(i);
    }

    method ShuffleOne(i: nat)
      requires CasesValid(testCases) && Apart(testCases, testCaseIndices) && Sizes() && i < |testCases|
      modifies random`state, testCases[i].testIndices`elems
      ensures CasesValid(testCases) && testCaseIndices.elems == old(testCaseIndices.elems)
      ensures random.state == StateAfter(old(random.state), |testCases[i].testInfoList|)
      ensures |old(testCases[i].testIndices.elems)| == |testCases[i].testInfoList|
      ensures forall k | 0 <= k < |testCases| :: var was := old(testCases[k].testIndices.elems);
                testCases[k].testIndices.elems ==
                if k == i then FisherYates(was, 0, Draws(old(random.state), |was|)) else was
    {
      hide TestCase.Valid, FisherYates, Draws, StateAfter, Fits;
      CasesValidSizes(testCases);
      testCases[i].ShuffleTests(random);
    }

    /** Restores the order of registration. */
    method UnshuffleTests()
      requires Valid()
      modifies testCaseIndices`elems, (set c | c in testCases :: c.testIndices)`elems
      ensures Valid() && Unshuffled()
    {
      hide CasesValid, Grouped, Registered, FirstRequests;
      GroupedSize(testCaseIndices.elems, lastDeathTestCase + 1, |testCases|);
      UnshuffleEach();
      GroupedIdentity(lastDeathTestCase + 1, |testCases|);
    }

    method UnshuffleEach()
      requires CasesValid(testCases) && Apart(testCases, testCaseIndices) && |testCaseIndices.elems| == |testCases|
      modifies testCaseIndices`elems, (set c | c in testCases :: c.testIndices)`elems
      ensures CasesValid(testCases) && Unshuffled()
    {
      hide CasesValid, Apart;
      for i := 0 to |testCases|
        invariant CasesValid(testCases)
        invariant |testCaseIndices.elems| == |testCases| && testCaseIndices.elems[..i] == Ints(0, i)
        invariant forall k | 0 <= k < i :: testCases[k].testIndices.elems == Ints(0, |testCases[k].testInfoList|)
      {
        assert testCases[i] in testCases;
        UnshuffleAt(i);
      }
      assert testCaseIndices.elems[..|testCases|] == testCaseIndices.elems;
    }

    method UnshuffleAt(i: nat)
      requires CasesValid(testCases) && Apart(testCases, testCaseIndices)
      requires i < |testCases| == |testCaseIndices.elems|
      modifies testCaseIndices`elems, testCases[i].testIndices`elems
      ensures CasesValid(testCases) && testCaseIndices.elems == old(testCaseIndices.elems)[i := i]
      ensures forall k | 0 <= k < |testCases| ::
                testCases[k].testIndices.elems ==
                if k == i then Ints(0, |testCases[k].testInfoList|) else old(testCases[k].testIndices.elems)
    {
      hide TestCase.Valid;
      testCases[i].UnshuffleTests();
      testCaseIndices.elems := testCaseIndices.elems[i := i];
    }

    // ----- Filtering -----

    /** Decides for one test, the runnable ones so far being numbered from 0. */
    method FilterTest(testCaseName: CString, test: TestInfo, flags: Flags, sharding: ReactionToSharding,
                      numRunnable: nat, ghost done: seq<TestInfo>)
      returns (isRunnable: bool, isSelected: bool)
      requires InRange(sharding) && Filtered(done, flags, sharding) && test !in done &&
          testCaseName == test.testCaseName
      requires numRunnable == CountTrue(RunnableTests(done, flags))
      modifies test
      ensures Filtered(done + [test], flags, sharding) && isSelected == test.shouldRun
      ensures CountTrue(RunnableTests(done + [test], flags)) == numRunnable + if isRunnable then 1 else 0
      ensures SelectedCount(done + [test], flags, sharding) ==
          SelectedCount(done, flags, sharding) + if isSelected then 1 else 0
    {
      hide Glob.MatchesAny, Glob.Pieces, Glob.FilterSelects, CountTrue, Selection;
      var isDisabled := Glob.MatchesFilter(testCaseName, Glob.DISABLE_TEST_FILTER);
      if !isDisabled {
        isDisabled := Glob.MatchesFilter(test.name, Glob.DISABLE_TEST_FILTER);
      }
      test.isDisabled := isDisabled;
      var matchesFilter := Glob.FilterMatchesTest(testCaseName, test.name, flags.filter);
      test.matchesFilter := matchesFilter;
      isRunnable := (flags.alsoRunDisabledTests || !isDisabled) && matchesFilter;
      isSelected := isRunnable && OnThisShard(sharding, numRunnable);
      test.shouldRun := isSelected;
      FilteredNext(done, test, flags, sharding);
    }

    method FilterCase(testCase: TestCase, flags: Flags, sharding: ReactionToSharding,
                      runnable: nat, selected: nat, ghost done: seq<TestInfo>)
      returns (numRunnable: nat, numSelected: nat)
      requires InRange(sharding) && Filtered(done, flags, sharding) && testCase.Valid()
      requires forall t | t in testCase.testInfoList :: t !in done
      requires runnable == CountTrue(RunnableTests(done, flags)) && selected == SelectedCount(done, flags, sharding)
      modifies testCase`shouldRun, testCase.testInfoList
      ensures Filtered(done + testCase.testInfoList, flags, sharding) && CaseConsistent(testCase)
      ensures numRunnable == CountTrue(RunnableTests(done + testCase.testInfoList, flags))
      ensures numSelected == SelectedCount(done + testCase.testInfoList, flags, sharding)
    {
      hide CountTrue, RunnableTests, SelectedCount, Filtered;
      numRunnable, numSelected := runnable, selected;
      testCase.shouldRun := false;
      ghost var list := testCase.testInfoList;
      ghost var d := done;
      for j := 0 to |testCase.testInfoList|
        invariant testCase.testInfoList == list && testCase.Valid() && d == done + list[..j]
        invariant Filtered(d, flags, sharding) && numRunnable == CountTrue(RunnableTests(d, flags))
        invariant numSelected == SelectedCount(d, flags, sharding)
        invariant testCase.shouldRun <==> exists t | t in list[..j] :: t.shouldRun
      {
        var test := testCase.testInfoList[j];
        assert list[..j + 1] == list[..j] + [test] && test !in list[..j];
        var isRunnable, isSelected := FilterTest(testCase.name, test, flags, sharding, numRunnable, d);
        d := d + [test];
        numRunnable := numRunnable + if isRunnable then 1 else 0;
        numSelected := numSelected + if isSelected then 1 else 0;
        testCase.shouldRun := testCase.shouldRun || isSelected;
      }
      assert list[..|list|] == list;
    }

    /** Decides for every test, in the order of registration, whether it is to run here; returns how many are. */
    method FilterTests(flags: Flags, sharding: ReactionToSharding) returns (numSelected: nat)
      requires CasesValid(testCases) && Apart(testCases, testCaseIndices) && InRange(sharding)
      modifies testCases`shouldRun, AllTests(testCases)
      ensures Filtered(AllTests(testCases), flags, sharding) && Consistent(testCases)
      ensures numSelected == SelectedCount(AllTests(testCases), flags, sharding)
    {
      hide CasesValid, CountTrue, RunnableTests, SelectedCount, Filtered, Flatten, Apart, CaseConsistent;
      ghost var lists, done := Lists(testCases), [];
      StartFiltering(flags, sharding);
      var numRunnable := 0;
      numSelected := 0;
      for i := 0 to |testCases|
        invariant done == Flatten(lists[..i])
        invariant Filtered(done, flags, sharding) && numRunnable == CountTrue(RunnableTests(done, flags))
        invariant numSelected == SelectedCount(done, flags, sharding)
        invariant forall k | 0 <= k < i :: CaseConsistent(testCases[k])
      {
        numRunnable, numSelected := FilterAt(testCases[i], i, flags, sharding, numRunnable, numSelected, done);
        done := done + testCases[i].testInfoList;
      }
      assert lists[..|testCases|] == lists;
      AllConsistent(testCases);
    }

    method FilterAt(testCase: TestCase, ghost i: nat, flags: Flags, sharding: ReactionToSharding,
                    runnable: nat, selected: nat, ghost done: seq<TestInfo>)
      returns (numRunnable: nat, numSelected: nat)
      requires CasesValid(testCases) && InRange(sharding) && i < |testCases| && testCase == testCases[i]
      requires done == Flatten(Lists(testCases)[..i]) && Filtered(done, flags, sharding)
      requires runnable == CountTrue(RunnableTests(done, flags)) && selected == SelectedCount(done, flags, sharding)
      requires forall k | 0 <= k < i :: CaseConsistent(testCases[k])
      modifies testCase`shouldRun, AllTests(testCases)
      ensures var next := done + testCase.testInfoList;
              && next == Flatten(Lists(testCases)[..i + 1]) && Filtered(next, flags, sharding)
              && numRunnable == CountTrue(RunnableTests(next, flags))
              && numSelected == SelectedCount(next, flags, sharding)
      ensures forall k | 0 <= k <= i :: CaseConsistent(testCases[k])
    {
      hide CasesValid, CountTrue, RunnableTests, SelectedCount, Filtered, Flatten, AllTests, CaseConsistent;
      NextTests(testCases, i);
      numRunnable, numSelected := FilterCase(testCase, flags, sharding, runnable, selected, done);
    }

    // ----- Whole runs -----

    /** The run of the chosen tests that is due, given how the test cases are registered. */
    ghost function Due(chosen: set<TestInfo>, shuffle: bool, seed: nat): seq<TestInfo>
      requires -1 <= lastDeathTestCase < |testCases|
      reads this, testCases`testInfoList
    {
      DueRun(Lists(testCases), lastDeathTestCase + 1, chosen, shuffle, seed)
    }

    /** Filters the tests once and then runs them repeatedly, each time in registration order or
        newly shuffled; returns what each repetition ran. */
    method RunAllTests(flags: Flags, sharding: ReactionToSharding, shuffle: bool, repeat: nat,
                       randomSeedFlag: int, timeInMillis: int)
      returns (runs: seq<seq<TestInfo>>)
      requires Valid() && Unshuffled() && Sizes() && InRange(sharding)
      requires -0x8000_0000 <= randomSeedFlag <= 0x7FFF_FFFF
      modifies testCases`shouldRun, AllTests(testCases)
      modifies random`state, testCaseIndices`elems, (set c | c in testCases :: c.testIndices)`elems
      ensures Valid() && Unshuffled() && |runs| == repeat
      ensures forall i | 0 <= i < repeat :: IsFullRun(runs[i], AllTests(testCases), flags, sharding)
      ensures forall i | 0 <= i < repeat ::
          var seed := (GetRandomSeedFromFlag(randomSeedFlag, timeInMillis) - 1 + i) % 99999 + 1;
          runs[i] == Due(Selected(AllTests(testCases), flags, sharding), shuffle, if shuffle then seed else 0)
    {
      hide Valid, Unshuffled, IsFullRun, Filtered, AllTests, Consistent, SelectedCount, CasesValid, Apart, Due;
      hide Selected, GetRandomSeedFromFlag;
      assert CasesValid(testCases) && Apart(testCases, testCaseIndices) by { ValidParts(); }
      var numSelected := FilterTests(flags, sharding);
      var seed := if shuffle then GetRandomSeedFromFlag(randomSeedFlag, timeInMillis) else 0;
      runs := Repeat(numSelected > 0, shuffle, repeat, seed, flags, sharding, AllTests(testCases));
    }

    method Repeat(hasTestsToRun: bool, shuffle: bool, repeat: nat, seed: nat,
                  ghost flags: Flags, ghost sharding: ReactionToSharding, ghost all: seq<TestInfo>)
      returns (runs: seq<seq<TestInfo>>)
      requires Valid() && Unshuffled() && Sizes() && InRange(sharding) && all == AllTests(testCases)
      requires Filtered(all, flags, sharding) && Consistent(testCases)
      requires if shuffle then 1 <= seed <= MAX_RANDOM_SEED else seed == 0
      requires hasTestsToRun == (SelectedCount(all, flags, sharding) > 0)
      modifies random`state, testCaseIndices`elems, (set c | c in testCases :: c.testIndices)`elems
      ensures Valid() && Unshuffled() && |runs| == repeat
      ensures forall i | 0 <= i < repeat :: IsFullRun(runs[i], all, flags, sharding)
      ensures -1 <= lastDeathTestCase < |testCases|
      ensures forall i | 0 <= i < repeat ::
          runs[i] == Due(Selected(all, flags, sharding), shuffle, if shuffle then SeedAt(seed, i) else 0)
    {
      hide Valid, Unshuffled, IsFullRun, Filtered, AllTests, Consistent, SelectedCount, Due, Selected;
      ValidSizes();
      var randomSeed := seed;
      runs := [];
      for i := 0 to repeat
        invariant Valid() && Unshuffled() && |runs| == i
        invariant all == AllTests(testCases) && Filtered(all, flags, sharding) && Consistent(testCases)
        invariant forall k | 0 <= k < i :: IsFullRun(runs[k], all, flags, sharding)
        invariant randomSeed == if shuffle then SeedAt(seed, i) else 0
        invariant forall k | 0 <= k < i ::
            runs[k] == Due(Selected(all, flags, sharding), shuffle, if shuffle then SeedAt(seed, k) else 0)
      {
        var ran := RunIteration(hasTestsToRun, shuffle, randomSeed, flags, sharding, all);
        runs := runs + [ran];
        if shuffle {
          randomSeed := GetNextRandomSeed(randomSeed);
        }
      }
    }

    lemma ValidSizes()
      requires Valid()
      ensures -1 <= lastDeathTestCase < |testCases|
    {
      GroupedSize(testCaseIndices.elems, lastDeathTestCase + 1, |testCases|);
    }

    lemma ValidParts()
      requires Valid()
      ensures CasesValid(testCases) && Apart(testCases, testCaseIndices)
    {
    }

    method RunIteration(hasTestsToRun: bool, shuffle: bool, randomSeed: nat,
                        ghost flags: Flags, ghost sharding: ReactionToSharding, ghost all: seq<TestInfo>)
      returns (ran: seq<TestInfo>)
      requires Valid() && Unshuffled() && Sizes() && InRange(sharding) && all == AllTests(testCases)
      requires Filtered(all, flags, sharding) && Consistent(testCases)
      requires hasTestsToRun == (SelectedCount(all, flags, sharding) > 0)
      modifies random`state, testCaseIndices`elems, (set c | c in testCases :: c.testIndices)`elems
      ensures Valid() && Unshuffled() && IsFullRun(ran, all, flags, sharding)
      ensures -1 <= lastDeathTestCase < |testCases|
      ensures ran == Due(Selected(all, flags, sharding), shuffle, randomSeed)
    {
      hide Valid, Unshuffled, IsFullRun, Filtered, AllTests, Consistent, SelectedCount, IsDeath, Selected, Due;
      ValidSizes();
      FilteredChooses(all, flags, sharding);
      ran := [];
      if hasTestsToRun {
        ghost var deaths;
        ran, deaths := RunOnce(shuffle, randomSeed, Selected(all, flags, sharding), all);
        FullRun(all, ran, deaths, flags, sharding);
      } else {
        NothingToRun(all, flags, sharding);
        NothingChosen(all, flags, sharding);
        NothingIsDue(shuffle, randomSeed);
      }
      UnshuffleTests();
    }

    lemma NothingIsDue(shuffle: bool, seed: nat)
      requires -1 <= lastDeathTestCase < |testCases|
      ensures Due({}, shuffle, seed) == []
    {
      NothingDue(Lists(testCases), lastDeathTestCase + 1, shuffle, seed);
    }

    method RunOnce(shuffle: bool, randomSeed: nat, ghost chosen: set<TestInfo>, ghost all: seq<TestInfo>)
      returns (ran: seq<TestInfo>, ghost deaths: nat)
      requires Valid() && Unshuffled() && Sizes() && Consistent(testCases) && all == AllTests(testCases)
      requires forall t | t in all :: t.shouldRun <==> t in chosen
      modifies random`state, testCaseIndices`elems, (set c | c in testCases :: c.testIndices)`elems
      ensures Valid() && -1 <= lastDeathTestCase < |testCases| && ran == Due(chosen, shuffle, randomSeed)
      ensures forall t: TestInfo :: multiset(ran)[t] == if t in all && t.shouldRun then 1 else 0
      ensures deaths <= |ran| && forall k | 0 <= k < |ran| :: IsDeath(ran[k].testCaseName) <==> k < deaths
    {
      hide Valid, Unshuffled, Sizes, Lists, Flatten, AllTests, IsDeath, Consistent, RowsInOrder, Due, ShuffledAnew;
      ValidSizes();
      if shuffle {
        random.Reseed(randomSeed);
        ShuffleFrom(randomSeed);
      }
      ghost var rows;
      ran, deaths, rows := RunTestCases();
      if shuffle {
        ShuffledIsDue(rows, chosen, randomSeed);
      } else {
        PlainIsDue(rows, chosen, randomSeed);
      }
    }

    /** The orders are those that the seed leads to. */
    ghost predicate ShuffledAnew(seed: nat)
      reads this, testCaseIndices`elems, testCases`testInfoList, (set c | c in testCases :: c.testIndices)`elems
    {
      var d, n := lastDeathTestCase + 1, |testCases|;
      && 0 <= d <= n
      && testCaseIndices.elems == CaseOrder(seed, d, n)
      && ShuffledFrom(testCases, StateAfter(StateAfter(seed, d), n - d))
    }

    method ShuffleFrom(ghost seed: nat)
      requires Valid() && Unshuffled() && Sizes() && random.state == seed
      modifies random`state, testCaseIndices`elems, (set c | c in testCases :: c.testIndices)`elems
      ensures Valid() && ShuffledAnew(seed)
    {
      hide Valid, Unshuffled, Sizes, FisherYates, Draws, Fits, StateAfter, EachShuffled, TestOrders, ShuffledFrom;
      hide Lists, Grouped, TestsInOrder;
      ValidSizes();
      ghost var orders, n := TestOrders(testCases), |testCases|;
      UnshuffledOrders();
      ShuffleTests();
      ghost var d := lastDeathTestCase + 1;
      EachShuffledIs(testCases, orders, StateAfter(StateAfter(seed, d), n - d));
    }

    lemma UnshuffledOrders()
      requires Unshuffled()
      ensures testCaseIndices.elems == Ints(0, |testCases|) && |TestOrders(testCases)| == |testCases|
      ensures forall k | 0 <= k < |testCases| :: TestOrders(testCases)[k] == Ints(0, |testCases[k].testInfoList|)
    {
    }

    lemma ShuffledIsDue(rows: seq<seq<TestInfo>>, chosen: set<TestInfo>, seed: nat)
      requires Valid() && Consistent(testCases) && ShuffledAnew(seed)
      requires RowsInOrder(rows, testCases, testCaseIndices.elems)
      requires forall t | t in AllTests(testCases) :: t.shouldRun <==> t in chosen
      ensures -1 <= lastDeathTestCase < |testCases| && Flatten(rows) == Due(chosen, true, seed)
    {
      hide Valid, CasesValid, ShuffledFrom, RowsInOrder, Consistent, AllTests, Flatten;
      ValidParts();
      ShuffledRunIsDue(testCases, lastDeathTestCase + 1, testCaseIndices.elems, rows, chosen, seed);
    }

    lemma PlainIsDue(rows: seq<seq<TestInfo>>, chosen: set<TestInfo>, seed: nat)
      requires Valid() && Consistent(testCases) && Unshuffled()
      requires RowsInOrder(rows, testCases, testCaseIndices.elems)
      requires forall t | t in AllTests(testCases) :: t.shouldRun <==> t in chosen
      ensures -1 <= lastDeathTestCase < |testCases| && Flatten(rows) == Due(chosen, false, seed)
    {
      hide Valid, CasesValid, RowsInOrder, Consistent, AllTests, Flatten, TestsInOrder;
      ValidParts();
      ValidSizes();
      PlainRunIsDue(testCases, testCaseIndices.elems, rows, chosen);
    }
  }

  /** One more test: its number is the count of the runnable ones before it. */
  lemma FilteredNext(done: seq<TestInfo>, test: TestInfo, flags: Flags, sharding: ReactionToSharding)
    requires InRange(sharding) && Filtered(done, flags, sharding)
    requires test.isDisabled == (IsDisabled(test.testCaseName) || IsDisabled(test.name))
    requires test.matchesFilter == Glob.FilterSelects(flags.filter, test.testCaseName + "." + test.name)
    requires var b := Runnable(flags, test.testCaseName, test.name);
             test.shouldRun == (b && OnThisShard(sharding, CountTrue(RunnableTests(done, flags))))
    ensures Filtered(done + [test], flags, sharding)
    ensures CountTrue(RunnableTests(done + [test], flags)) ==
            CountTrue(RunnableTests(done, flags)) + if Runnable(flags, test.testCaseName, test.name) then 1 else 0
    ensures SelectedCount(done + [test], flags, sharding) ==
        SelectedCount(done, flags, sharding) + if test.shouldRun then 1 else 0
  {
    hide Selection, CountTrue, Runnable, IsDisabled, Glob.FilterSelects;
    var b := Runnable(flags, test.testCaseName, test.name);
    var before := RunnableTests(done, flags);
    assert RunnableTests(done + [test], flags) == before + [b];
    SelectionNext(before, b, sharding);
    SelectionNext(Selection(before, sharding), test.shouldRun, sharding);
  }

  lemma StartFiltering(flags: Flags, sharding: ReactionToSharding)
    requires InRange(sharding)
    ensures Filtered([], flags, sharding) && CountTrue(RunnableTests([], flags)) == 0 &&
        SelectedCount([], flags, sharding) == 0
    ensures Flatten<TestInfo>([][..0]) == []
  {
  }

  lemma AllConsistent(cs: seq<TestCase>)
    requires forall k | 0 <= k < |cs| :: CaseConsistent(cs[k])
    ensures Consistent(cs)
  {
  }

  lemma FlattenPrefix<T>(rows: seq<seq<T>>, i: nat)
    requires i < |rows|
    ensures Flatten(rows[..i + 1]) == Flatten(rows[..i]) + rows[i]
  {
    assert rows[..i + 1][..i] == rows[..i];
  }

  /** The tests of the next case are none of those before it. */
  lemma NextTests(cs: seq<TestCase>, i: nat)
    requires CasesValid(cs) && i < |cs|
    ensures var lists, tests := Lists(cs), cs[i].testInfoList;
            && Flatten(lists[..i + 1]) == Flatten(lists[..i]) + tests
            && (forall j | 0 <= j < |tests| :: tests[j] !in Flatten(lists[..i]) && tests[j] in AllTests(cs))
    ensures forall k, j | 0 <= k < i && 0 <= j < |cs[k].testInfoList| :: cs[k].testInfoList[j] !in cs[i].testInfoList
    ensures cs[i].Valid() && forall k | 0 <= k < i :: cs[k] != cs[i]
  {
    hide Flatten, AllTests;
    var lists, tests := Lists(cs), cs[i].testInfoList;
    FlattenPrefix(lists, i);
    forall k | 0 <= k < i
      ensures cs[k] != cs[i] && forall t | t in cs[k].testInfoList :: t !in tests
    {
      assert Names(cs)[k] != Names(cs)[i];
      ValidTests(cs[k]);
      ValidTests(cs[i]);
    }
    forall j | 0 <= j < |tests| ensures tests[j] !in Flatten(lists[..i]) && tests[j] in AllTests(cs) {
      FlattenContains(lists[..i], tests[j]);
      AllTestsIn(cs, tests[j]);
    }
  }

  lemma FullRun(all: seq<TestInfo>, ran: seq<TestInfo>, deaths: nat, flags: Flags, sharding: ReactionToSharding)
    requires InRange(sharding) && Filtered(all, flags, sharding)
    requires forall t: TestInfo :: multiset(ran)[t] == if t in all && t.shouldRun then 1 else 0
    requires deaths <= |ran| && forall k | 0 <= k < |ran| :: IsDeath(ran[k].testCaseName) <==> k < deaths
    ensures IsFullRun(ran, all, flags, sharding)
  {
    hide IsDeath, Selection, RunnableTests, Glob.FilterSelects, IsDisabled;
    forall t | t in ran ensures t in all {
      assert t in multiset(ran);
    }
    forall k | 0 <= k < |all|
      ensures multiset(ran)[all[k]] == if Selection(RunnableTests(all, flags), sharding)[k] then 1 else 0
    {
      assert all[k] in all;
    }
  }

  /** Over all shards of a run, each runnable test runs on exactly one of them and the others on none. */
  lemma ShardsRunEachTestOnce(runs: seq<seq<TestInfo>>, all: seq<TestInfo>, flags: Flags, k: nat)
    requires k < |all| && runs != []
    requires forall s | 0 <= s < |runs| :: IsFullRun(runs[s], all, flags, HONOR_SHARDING_PROTOCOL(|runs|, s))
    ensures Runnable(flags, all[k].testCaseName, all[k].name) <==> exists s | 0 <= s < |runs| :: all[k] in runs[s]
    ensures forall s, t | 0 <= s < t < |runs| :: !(all[k] in runs[s] && all[k] in runs[t])
  {
    hide Selection, Runnable, IsDeath;
    var runnable := RunnableTests(all, flags);
    ShardsPartition(runnable, |runs|, k);
    forall s | 0 <= s < |runs| ensures Picks(runnable, |runs|, s, k) <==> all[k] in runs[s] {
      assert multiset(runs[s])[all[k]] == if Picks(runnable, |runs|, s, k) then 1 else 0;
      assert all[k] in runs[s] <==> all[k] in multiset(runs[s]);
    }
  }

  /** When nothing is selected, the empty run is full. */
  lemma NothingToRun(all: seq<TestInfo>, flags: Flags, sharding: ReactionToSharding)
    requires InRange(sharding) && SelectedCount(all, flags, sharding) == 0
    ensures IsFullRun([], all, flags, sharding)
  {
    NoneTrue(Selection(RunnableTests(all, flags), sharding));
  }

  lemma {:induction false} NoneTrue(bs: seq<bool>)
    requires CountTrue(bs) == 0
    ensures forall k | 0 <= k < |bs| :: !bs[k]
  {
    if bs == [] {
    } else {
      NoneTrue(bs[..|bs| - 1]);
    }
  }

  lemma FlattenNone<T>()
    ensures Flatten<T>([]) == []
  {
  }

  // ----- A shuffle after which the accessors differ -----

  /** With the smallest seed, two test cases change places. */
  lemma SwapsTwo(order: seq<nat>, state: nat, d: nat)
    requires order == [0, 1] && state == 1 && d == 0
    ensures FisherYates(FisherYates(order, 0, Draws(state, d)), d, Draws(StateAfter(state, d), 2 - d)) == [1, 0]
  {
    assert NextState(1) % 2 == 0;
    assert Draws(1, 2) == [0];
    var once := Swap([0, 1], 0, 1);
    assert once == [1, 0] && [0][1..] == [];
    assert FisherYates(once, 0, []) == once;
  }

  lemma ShortNamesAreNoDeathTests(name: string)
    requires |name| < 9
    ensures !IsDeath(name)
  {
    Glob.DeathTestNames(name);
  }

  lemma TwoRequests()
    ensures FirstRequests(["A", "B"], true) == [] && Registered(["A", "B"]) == ["A", "B"]
  {
    hide IsDeath;
    ShortNamesAreNoDeathTests("A");
    ShortNamesAreNoDeathTests("B");
    assert [] + ["A"] == ["A"] && ["A"] + ["B"] == ["A", "B"];
    assert FirstRequests([], true) == [] && FirstRequests([], false) == [];
    FirstRequestsNext([], "A", true);
    FirstRequestsNext([], "A", false);
    FirstRequestsNext(["A"], "B", true);
    FirstRequestsNext(["A"], "B", false);
  }

  /** A program with two test cases, neither a death test case. */
  method TwoCases() returns (impl: UnitTestImpl)
    ensures impl.Valid() && impl.Unshuffled() && |impl.testCases| == 2 && impl.Sizes()
    ensures impl.lastDeathTestCase == -1 && impl.random.state == 1
    ensures fresh(impl.testCaseIndices) && fresh(impl.random)
    ensures forall c | c in impl.testCases :: fresh(c.testIndices)
    ensures impl.testCases[0] != impl.testCases[1]
  {
    hide IsDeath, FirstRequests, Registered, CasesValid, Grouped, Adds, AllTests, TestsInOrder;
    impl := new UnitTestImpl(1);
    var a := impl.GetTestCase("A");
    AddsFirst(a, impl.testCases);
    var b := impl.GetTestCase("B");
    AddsSecond(a, b, impl.testCases);
    assert impl.requests == ["A", "B"];
    TwoRequests();
  }

  /** A reachable program in which the read-only accessor returns another test case than the one that runs first. */
  method AccessorsDiffer() returns (impl: UnitTestImpl)
    ensures impl.Valid() && impl.testCaseIndices.elems == [1, 0] && |impl.testCases| == 2
    ensures impl.GetTestCaseAt(0) != impl.GetMutableTestCase(0)
  {
    hide UnitTestImpl.Valid, UnitTestImpl.Sizes, EachShuffled, TestsInOrder, TestOrders;
    hide FisherYates, Draws, StateAfter, Fits, StateAt;
    impl := TwoCases();
    assert impl.testCaseIndices.elems == [0, 1];
    SwapsTwo(impl.testCaseIndices.elems, impl.random.state, impl.lastDeathTestCase + 1);
    impl.ShuffleTests();
  }

  lemma AddsFirst(a: TestCase, cs: seq<TestCase>)
    requires Adds([], a, cs)
    ensures cs == [a]
  {
  }

  lemma AddsSecond(a: TestCase, b: TestCase, cs: seq<TestCase>)
    requires Adds([a], b, cs) || cs == [a]
    ensures cs == [a] || cs == [a, b] || cs == [b, a]
  {
  }
}
