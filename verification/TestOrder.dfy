/** The order of test cases: registration, shuffling, running and unshuffling. */
module TestOrder {
  import opened Wrappers
  import opened TestShuffle

  function Identity(n: nat): (s: seq<nat>)
    ensures |s| == n && forall i :: 0 <= i < n ==> s[i] == i
  {
    seq(n, i => i)
  }

  /** A list of the numbers below its length, each once. */
  ghost predicate Order(s: seq<nat>) {
    multiset(s) == multiset(Identity(|s|))
  }

  /** The first `first` places hold the numbers below `first`. */
  ghost predicate Blocks(s: seq<nat>, first: nat) {
    forall i :: 0 <= i < |s| ==> (s[i] < first <==> i < first)
  }

  lemma {:induction false} OrderBounds(s: seq<nat>)
    requires Order(s)
    ensures forall i :: 0 <= i < |s| ==> s[i] < |s|
  {
    forall i | 0 <= i < |s|
      ensures s[i] < |s|
    {
      assert s[i] in multiset(s);
      assert s[i] in Identity(|s|);
    }
  }

  lemma {:induction false} IdentityOrder(n: nat, first: nat)
    ensures Order(Identity(n)) && Blocks(Identity(n), first)
  {
  }

  /** An order shuffled within a range is an order, and keeps the blocks the range is one of. */
  lemma {:induction false} ShuffledOrder(s: seq<nat>, begin: nat, end: nat, state: nat)
    requires begin <= end <= |s| && Order(s)
    ensures Order(RangeShuffled(s, begin, end, state))
  {
    RangePermutes(s, begin, end, state);
  }

  lemma {:induction false} ShuffledBlocks(s: seq<nat>, begin: nat, end: nat, state: nat, first: nat)
    requires begin <= end <= |s| && Blocks(s, first) && (first <= begin || end <= first)
    ensures Blocks(RangeShuffled(s, begin, end, state), first)
  {
    var r := RangeShuffled(s, begin, end, state);
    RangePermutes(s, begin, end, state);
    hide RangeShuffled;
    forall i | 0 <= i < |r|
      ensures r[i] < first <==> i < first
    {
      var j := SamePart(s, r, begin, end, i);
    }
  }

  /** What has come to a place was in the same part before. */
  lemma {:induction false} SamePart(s: seq<nat>, r: seq<nat>, begin: nat, end: nat, i: nat) returns (j: nat)
    requires begin <= end <= |s| == |r| && i < |r|
    requires r[..begin] == s[..begin] && r[end..] == s[end..] && multiset(r[begin..end]) == multiset(s[begin..end])
    ensures j < |s| && s[j] == r[i] && (j < begin <==> i < begin) && (j < end <==> i < end)
  {
    if i < begin {
      assert r[..begin][i] == s[..begin][i];
      j := i;
    } else if i >= end {
      assert r[end..][i - end] == s[end..][i - end];
      j := i;
    } else {
      assert r[begin..end][i - begin] in multiset(r[begin..end]);
      var k :| 0 <= k < end - begin && s[begin..end][k] == r[i];
      j := begin + k;
    }
  }

  // -------------------------------------------------- going through a list in an order

  predicate Within(order: seq<nat>, n: nat) {
    forall i :: 0 <= i < |order| ==> order[i] < n
  }

  function Picked<E>(v: seq<E>, order: seq<nat>): (r: seq<E>)
    requires Within(order, |v|)
    ensures |r| == |order| && forall i :: 0 <= i < |r| ==> r[i] == v[order[i]]
  {
    seq(|order|, i requires 0 <= i < |order| => v[order[i]])
  }

  lemma {:induction false} PickedSwap<E>(v: seq<E>, order: seq<nat>, i: nat, j: nat)
    requires Within(order, |v|) && i < |order| && j < |order|
    ensures Within(Swapped(order, i, j), |v|)
    ensures Picked(v, Swapped(order, i, j)) == Swapped(Picked(v, order), i, j)
  {
  }

  lemma {:induction false} PickedArranged<E>(v: seq<E>, order: seq<nat>, width: nat, cs: seq<nat>)
    requires Within(order, |v|) && width <= |order| && Choices(cs, width)
    ensures Within(Arranged(order, width, cs), |v|)
    ensures Picked(v, Arranged(order, width, cs)) == Arranged(Picked(v, order), width, cs)
    decreases width
  {
    hide Swapped, Picked, Within;
    if width >= 2 {
      PickedSwap(v, order, cs[0], width - 1);
      PickedArranged(v, Swapped(order, cs[0], width - 1), width - 1, cs[1..]);
    }
  }

  /** Going through a list in an order visits every element exactly once. */
  lemma {:induction false} VisitsOnce<E>(v: seq<E>, order: seq<nat>)
    requires |order| == |v| && Order(order)
    ensures Within(order, |v|) && multiset(Picked(v, order)) == multiset(v)
  {
    OrderBounds(order);
    var id, n := Identity(|v|), |v|;
    assert order[n..] == id[n..] && order[..n] == order && id[..n] == id;
    var cs := EveryOrderArises(id, order, n);
    PickedArranged(v, id, n, cs);
    assert Picked(v, id) == v;
    ArrangedPermutes(v, n, cs);
    assert v[..n] == v && Arranged(v, n, cs)[..n] == Arranged(v, n, cs);
  }

  class TestCase {
    const name: string
    var tests: seq<string>
    var indices: seq<nat>

    ghost predicate Valid()
      reads this
    {
      |indices| == |tests| <= MAX_RANGE && Order(indices)
    }

    ghost predicate Unshuffled()
      reads this
    {
      indices == Identity(|tests|)
    }

    constructor (name: string)
      ensures this.name == name && tests == [] && Valid() && Unshuffled()
    {
      this.name := name;
      tests, indices := [], [];
    }

    /** The test at place `i` of the order to run them in. */
    method GetMutableTestInfo(i: int) returns (test: Option<string>)
      requires Valid()
      ensures 0 <= i < |tests| ==> indices[i] < |tests| && test == Some(tests[indices[i]])
      ensures !(0 <= i < |tests|) ==> test == None
    {
      OrderBounds(indices);
      var index := if i < 0 || i >= |indices| then -1 else indices[i];
      test := if index < 0 then None else Some(tests[index]);
    }

    method AddTestInfo(test: string)
      requires Valid() && Unshuffled() && |tests| < MAX_RANGE
      modifies this
      ensures Valid() && Unshuffled() && tests == old(tests) + [test]
    {
      tests := tests + [test];
      indices := indices + [|indices|];
      assert indices == Identity(|tests|);
    }

    /** Runs the tests, answering which ones in which order. */
    method Run() returns (run: seq<string>)
      requires Valid()
      ensures multiset(run) == multiset(tests)
      ensures Within(indices, |tests|) && run == Picked(tests, indices)
    {
      run := [];
      VisitsOnce(tests, indices);
      for i := 0 to |tests|
        invariant |run| == i && forall j :: 0 <= j < i ==> run[j] == tests[indices[j]]
      {
        var test := GetMutableTestInfo(i);
        run := run + [test.value];
      }
      assert run == Picked(tests, indices);
    }

    method ShuffleTests(random: Random)
      requires Valid()
      modifies this`indices, random
      ensures Valid() && indices == TestsShuffled(old(indices), old(random.state))
      ensures random.state == Drawn(old(random.state), |tests|)
    {
      ShuffledOrder(indices, 0, |indices|, random.state);
      indices := ShuffleRange(random, 0, |indices|, indices);
    }

    method UnshuffleTests()
      requires Valid()
      modifies this`indices
      ensures Valid() && Unshuffled()
    {
      var i := 0;
      while i < |indices|
        invariant i <= |indices| == |tests| && forall j :: 0 <= j < i ==> indices[j] == j
      {
        indices := indices[i := i];
        i := i + 1;
      }
      assert indices == Identity(|tests|);
    }
  }

  // ------------------------------------------------------------------ the registry

  function Chosen(names: seq<string>, isDeath: string -> bool, death: bool): seq<string> {
    if names == [] then [] else
      var n := |names| - 1;
      Chosen(names[..n], isDeath, death) + if isDeath(names[n]) == death then [names[n]] else []
  }

  lemma {:induction false} RegisteredOne(names: seq<string>, name: string, isDeath: string -> bool)
    ensures Chosen(names + [name], isDeath, isDeath(name)) == Chosen(names, isDeath, isDeath(name)) + [name]
    ensures Chosen(names + [name], isDeath, !isDeath(name)) == Chosen(names, isDeath, !isDeath(name))
  {
    assert (names + [name])[..|names|] == names;
  }

  function Names(cs: seq<TestCase>): (names: seq<string>)
    ensures |names| == |cs| && forall i :: 0 <= i < |cs| ==> names[i] == cs[i].name
  {
    seq(|cs|, i requires 0 <= i < |cs| => cs[i].name)
  }

  lemma {:induction false} NamesAppend(cs: seq<TestCase>, c: TestCase)
    ensures Names(cs + [c]) == Names(cs) + [c.name]
  {
  }

  /** The death tests come first, each kind in the order of registration. */
  ghost predicate Listed(cases: seq<TestCase>, first: nat, registered: seq<string>, isDeath: string -> bool) {
    && first <= |cases| <= MAX_RANGE
    && (forall i, j :: 0 <= i < j < |cases| ==> cases[i].name != cases[j].name)
    && Names(cases[..first]) == Chosen(registered, isDeath, true)
    && Names(cases[first..]) == Chosen(registered, isDeath, false)
  }

  lemma {:induction false} ListedSize(cases: seq<TestCase>, first: nat, registered: seq<string>,
          isDeath: string -> bool)
    requires Listed(cases, first, registered, isDeath)
    ensures first <= |cases| <= MAX_RANGE && forall i, j :: 0 <= i < j < |cases| ==> cases[i] != cases[j]
  {
  }

  lemma {:induction false} ListDeath(cases: seq<TestCase>, first: nat, registered: seq<string>,
          isDeath: string -> bool, c: TestCase)
    requires Listed(cases, first, registered, isDeath) && |cases| < MAX_RANGE && isDeath(c.name)
    requires forall d :: d in cases ==> d.name != c.name
    ensures Listed(cases[..first] + [c] + cases[first..], first + 1, registered + [c.name], isDeath)
  {
    var all := cases[..first] + [c] + cases[first..];
    assert all[..first + 1] == cases[..first] + [c] && all[first + 1..] == cases[first..];
    RegisteredOne(registered, c.name, isDeath);
    NamesAppend(cases[..first], c);
    StayDistinct(cases, first, c);
    hide Names, Chosen;
  }

  lemma {:induction false} StayDistinct(cases: seq<TestCase>, first: nat, c: TestCase)
    requires first <= |cases| && (forall d :: d in cases ==> d.name != c.name)
    requires forall i, j :: 0 <= i < j < |cases| ==> cases[i].name != cases[j].name
    ensures var all := cases[..first] + [c] + cases[first..];
            |all| == |cases| + 1 && forall i, j :: 0 <= i < j < |all| ==> all[i].name != all[j].name
  {
    var all := cases[..first] + [c] + cases[first..];
    forall i, j | 0 <= i < j < |all|
      ensures all[i].name != all[j].name
    {
      var i', j' := if i < first then i else i - 1, if j < first then j else j - 1;
      assert i != first ==> all[i] == cases[i'] && all[i] in cases;
      assert j != first ==> all[j] == cases[j'] && all[j] in cases;
    }
  }

  lemma {:induction false} ListOther(cases: seq<TestCase>, first: nat, registered: seq<string>,
          isDeath: string -> bool, c: TestCase)
    requires Listed(cases, first, registered, isDeath) && |cases| < MAX_RANGE && !isDeath(c.name)
    requires forall d :: d in cases ==> d.name != c.name
    ensures Listed(cases + [c], first, registered + [c.name], isDeath)
  {
    var all := cases + [c];
    assert all[..first] == cases[..first] && all[first..] == cases[first..] + [c];
    RegisteredOne(registered, c.name, isDeath);
    NamesAppend(cases[first..], c);
    hide Names, Chosen;
  }

  class UnitTest {
    const isDeath: string -> bool
    const random: Random
    var cases: seq<TestCase>
    var indices: seq<nat>
    var lastDeath: int
    ghost var registered: seq<string>

    ghost predicate Valid()
      reads this, cases
    {
      && -1 <= lastDeath && Listed(cases, lastDeath + 1, registered, isDeath)
      && |indices| == |cases| && Order(indices) && Blocks(indices, lastDeath + 1)
      && forall c :: c in cases ==> c.Valid()
    }

    ghost predicate Unshuffled()
      reads this, cases
    {
      indices == Identity(|cases|) && forall c :: c in cases ==> c.Unshuffled()
    }

    constructor (isDeath: string -> bool, random: Random)
      ensures Valid() && Unshuffled() && cases == [] && registered == []
      ensures this.isDeath == isDeath && this.random == random
    {
      this.isDeath, this.random := isDeath, random;
      cases, indices, lastDeath, registered := [], [], -1, [];
    }

    /** Finds the test case with a name, or registers one: a death test after those there are, any other at the end. */
    method GetTestCase(name: string) returns (tc: TestCase)
      requires Valid() && Unshuffled() && |cases| < MAX_RANGE
      modifies this
      ensures Valid() && Unshuffled() && tc in cases && tc.name == name
      ensures if name in old(Names(cases)) then cases == old(cases) && registered == old(registered)
              else fresh(tc) && tc.tests == [] && registered == old(registered) + [name] &&
                   cases == if isDeath(name) then old(cases[..lastDeath + 1]) + [tc] + old(cases[lastDeath + 1..])
                            else old(cases) + [tc]
    {
      hide Listed, Order, Blocks, Names, Chosen;
      for i := 0 to |cases|
        invariant forall j :: 0 <= j < i ==> cases[j].name != name
      {
        if cases[i].name == name {
          assert Names(cases)[i] == name;
          return cases[i];
        }
      }
      ListedSize(cases, lastDeath + 1, registered, isDeath);
      tc := new TestCase(name);
      if isDeath(name) {
        ListDeath(cases, lastDeath + 1, registered, isDeath, tc);
        lastDeath := lastDeath + 1;
        cases := cases[..lastDeath] + [tc] + cases[lastDeath..];
      } else {
        ListOther(cases, lastDeath + 1, registered, isDeath, tc);
        cases := cases + [tc];
      }
      indices := indices + [|indices|];
      registered := registered + [name];
      assert indices == Identity(|cases|);
      IdentityOrder(|cases|, lastDeath + 1);
    }

    /** The test case at place `i` of the order to run them in. */
    method GetMutableTestCase(i: int) returns (tc: TestCase?)
      requires Valid()
      ensures 0 <= i < |cases| ==> indices[i] < |cases| && tc == cases[indices[i]]
      ensures !(0 <= i < |cases|) ==> tc == null
    {
      OrderBounds(indices);
      var index := if i < 0 || i >= |indices| then -1 else indices[i];
      tc := if index < 0 then null else cases[index];
    }

    /** What listeners are shown as the test case at place `i`: whatever the order, the one registered there. */
    method GetTestCaseAt(i: int) returns (tc: TestCase?)
      requires Valid()
      ensures tc == if 0 <= i < |cases| then cases[i] else null
    {
      var index := if i < 0 || i >= |indices| then -1 else indices[i];
      tc := if index < 0 then null else cases[i];
    }

    /** The cases as listeners go through them. */
    method ShownCases() returns (shown: seq<TestCase>)
      requires Valid()
      ensures shown == cases
    {
      shown := [];
      for i := 0 to |cases|
        invariant shown == cases[..i]
      {
        var tc := GetTestCaseAt(i);
        shown := shown + [tc];
      }
    }

    /** Shuffles the death tests among themselves, then the others, then the tests of every case. */
    method ShuffleTests()
      requires Valid()
      modifies this`indices, random, (set c | c in cases)`indices
      ensures Valid() && indices == CasesShuffled(old(indices), lastDeath + 1, old(random.state))
      ensures var state := Drawn(Drawn(old(random.state), lastDeath + 1), |cases| - (lastDeath + 1));
              forall k :: 0 <= k < |cases| ==> cases[k].indices == TestsShuffled(old(cases[k].indices),
                                                                                 StateFor(Sizes(cases), k, state))
    {
      hide Order, Blocks, Listed, CasesShuffled, TestsShuffled, Drawn, StateFor, Sizes, TestCase.Valid;
      ListedSize(cases, lastDeath + 1, registered, isDeath);
      ShuffleCases();
      ShuffleEach();
    }

    method ShuffleCases()
      requires 0 <= lastDeath + 1 <= |cases| == |indices| <= MAX_RANGE && Order(indices) &&
               Blocks(indices, lastDeath + 1)
      modifies this`indices, random
      ensures Order(indices) && Blocks(indices, lastDeath + 1)
      ensures indices == CasesShuffled(old(indices), lastDeath + 1, old(random.state))
      ensures random.state == Drawn(Drawn(old(random.state), lastDeath + 1), |cases| - (lastDeath + 1))
    {
      hide Order, Blocks, RangeShuffled, Drawn;
      CasesOrder(indices, lastDeath + 1, random.state);
      indices := ShuffleRange(random, 0, lastDeath + 1, indices);
      indices := ShuffleRange(random, lastDeath + 1, |cases|, indices);
    }

    method ShuffleEach()
      requires forall i, j :: 0 <= i < j < |cases| ==> cases[i] != cases[j]
      requires forall c :: c in cases ==> c.Valid()
      modifies random, (set c | c in cases)`indices
      ensures forall c :: c in cases ==> c.Valid()
      ensures forall k :: 0 <= k < |cases| ==>
              cases[k].indices == TestsShuffled(old(cases[k].indices), StateFor(Sizes(cases), k, old(random.state)))
    {
      hide TestCase.Valid, RangeShuffled, Drawn, TestsShuffled, Sizes, StateFor;
      ghost var sizes, state, was := Sizes(cases), random.state, cases;
      StateSteps(sizes, 0, state);
      for i := 0 to |cases|
        invariant cases == was && random.state == StateFor(sizes, i, state)
        invariant forall k :: 0 <= k < |was| ==> was[k].Valid()
        invariant forall k :: i <= k < |was| ==> was[k].indices == old(was[k].indices)
        invariant forall k :: 0 <= k < i ==>
                  was[k].indices == TestsShuffled(old(was[k].indices), StateFor(sizes, k, state))
      {
        StateSteps(sizes, i, state);
        cases[i].ShuffleTests(random);
      }
    }

    /** Restores the order of registration. */
    method UnshuffleTests()
      requires Valid()
      modifies this`indices, (set c | c in cases)`indices
      ensures Valid() && Unshuffled()
    {
      hide Order, Blocks, Listed;
      ListedSize(cases, lastDeath + 1, registered, isDeath);
      for i := 0 to |cases|
        invariant |indices| == |cases| && forall k :: 0 <= k < i ==> indices[k] == k
        invariant forall k :: 0 <= k < |cases| ==> cases[k].Valid() && (k < i ==> cases[k].Unshuffled())
      {
        cases[i].UnshuffleTests();
        indices := indices[i := i];
      }
      assert indices == Identity(|cases|);
      IdentityOrder(|cases|, lastDeath + 1);
    }

    /** Runs every test case once, in the order they are in now. */
    method RunCases() returns (run: seq<(TestCase, seq<string>)>)
      requires Valid()
      ensures Within(indices, |cases|) && |run| == |cases| && Complete(run, cases, isDeath)
      ensures forall i :: 0 <= i < |run| ==> RunOf(cases[indices[i]], run[i])
    {
      hide Listed, Order, Complete;
      run := [];
      InOrder(indices, |cases|);
      for i := 0 to |cases|
        invariant |run| == i && forall j :: 0 <= j < i ==> RunOf(cases[indices[j]], run[j])
      {
        var tc := GetMutableTestCase(i);
        var tests := tc.Run();
        run := run + [(tc, tests)];
      }
      RunComplete(run, cases, indices, lastDeath + 1, registered, isDeath);
    }

    /** Runs all tests `repeat` times, each time shuffled from a new seed if so asked. */
    method RunAllTests(repeat: nat, shuffle: bool, seed: nat) returns (runs: seq<seq<(TestCase, seq<string>)>>)
      requires Valid() && Unshuffled() && 1 <= seed <= MAX_SEED
      modifies this`indices, random, (set c | c in cases)`indices
      ensures Valid() && Unshuffled()
      ensures |runs| == repeat && forall i :: 0 <= i < repeat ==> Complete(runs[i], cases, isDeath)
      ensures forall i :: 0 <= i < repeat ==>
              if shuffle then ShuffledRun(runs[i], cases, lastDeath + 1, SeedAt(seed, i)) else PlainRun(runs[i], cases)
    {
      hide Complete, ShuffledRun, PlainRun, Valid, Unshuffled, SeedAt;
      Sized();
      SeedSteps(seed, 0);
      ghost var was, first := cases, lastDeath + 1;
      runs := [];
      var randomSeed := seed;
      for i := 0 to repeat
        invariant Valid() && Unshuffled() && cases == was && lastDeath + 1 == first &&
                  (shuffle ==> randomSeed == SeedAt(seed, i))
        invariant |runs| == i && forall j :: 0 <= j < i ==> Complete(runs[j], was, isDeath)
        invariant forall j :: 0 <= j < i ==>
                    if shuffle then ShuffledRun(runs[j], was, first, SeedAt(seed, j)) else PlainRun(runs[j], was)
      {
        var _, run := RunOnce(shuffle, randomSeed);
        runs := runs + [run];
        SeedSteps(seed, i);
        if shuffle {
          randomSeed := if randomSeed + 1 > MAX_SEED then 1 else randomSeed + 1;
        }
      }
    }

    lemma {:induction false} Sized()
      requires Valid()
      ensures -1 <= lastDeath < |cases| == |indices| <= MAX_RANGE
      ensures forall i, j :: 0 <= i < j < |cases| ==> cases[i] != cases[j]
    {
    }

    lemma {:induction false} FirstDeath()
      requires Valid() && forall c :: c in cases ==> !isDeath(c.name)
      ensures lastDeath == -1
    {
      NoDeaths(cases, lastDeath + 1, registered, isDeath);
    }

    /** Shuffles from a seed. */
    method ShuffleFrom(seed: nat)
      requires Valid() && Unshuffled() && seed < UINT32
      modifies this`indices, random, (set c | c in cases)`indices
      ensures Valid() && indices == CasesShuffled(Identity(|cases|), lastDeath + 1, seed)
      ensures var state := Drawn(Drawn(seed, lastDeath + 1), |cases| - (lastDeath + 1));
              forall k :: 0 <= k < |cases| ==>
                cases[k].indices == TestsShuffled(Identity(|cases[k].tests|), StateFor(Sizes(cases), k, state))
    {
      hide Listed, Order, Blocks, CasesShuffled, TestsShuffled, StateFor, Drawn;
      ListedSize(cases, lastDeath + 1, registered, isDeath);
      assert forall k :: 0 <= k < |cases| ==> cases[k].Unshuffled();
      assert forall k :: 0 <= k < |cases| ==> cases[k].indices == Identity(|cases[k].tests|);
      hide TestCase.Unshuffled, Unshuffled, Sizes;
      random.Reseed(seed);
      ShuffleTests();
    }

    /** One iteration. Listeners are shown the cases once they have been shuffled. */
    method RunOnce(shuffle: bool, seed: nat) returns (shown: seq<TestCase>, run: seq<(TestCase, seq<string>)>)
      requires Valid() && Unshuffled() && (shuffle ==> seed < UINT32)
      modifies this`indices, random, (set c | c in cases)`indices
      ensures Valid() && Unshuffled() && Complete(run, cases, isDeath)
      ensures if shuffle then ShuffledRun(run, cases, lastDeath + 1, seed) else PlainRun(run, cases)
      ensures shown == cases && (shown == CasesOf(run) <==> (shuffle ==> AllLast(|cases|, lastDeath + 1, seed)))
    {
      hide Complete, ShuffledRun, PlainRun, Valid, CasesShuffled, TestsShuffled, StateFor, Drawn, RunOf, AllLast;
      hide TestCase.Unshuffled, Sizes, Within;
      Sized();
      ghost var first := lastDeath + 1;
      if shuffle {
        ShuffleFrom(seed);
      }
      shown := ShownCases();
      run := RunCases();
      if shuffle {
        RunShuffled(run, cases, indices, first, seed);
        ListenersSeeOrder(run, cases, first, seed);
      } else {
        RunPlain(run, cases, indices);
        PlainIsShown(run, cases);
      }
      UnshuffleTests();
    }
  }

  lemma {:induction false} RunShuffled(run: seq<(TestCase, seq<string>)>, cases: seq<TestCase>, indices: seq<nat>,
          first: nat, seed: nat)
    requires first <= |cases| == |indices| == |run| && Within(indices, |cases|)
    requires indices == CasesShuffled(Identity(|cases|), first, seed)
    requires var state := Drawn(Drawn(seed, first), |cases| - first);
             forall k :: 0 <= k < |cases| ==>
               cases[k].indices == TestsShuffled(Identity(|cases[k].tests|), StateFor(Sizes(cases), k, state))
    requires forall i :: 0 <= i < |run| ==> RunOf(cases[indices[i]], run[i])
    ensures ShuffledRun(run, cases, first, seed)
  {
    hide CasesShuffled, TestsShuffled, StateFor, Drawn;
    forall i | 0 <= i < |run|
      ensures ShuffledCase(run[i], cases, indices[i], first, seed)
    {
      assert RunOf(cases[indices[i]], run[i]);
    }
  }

  lemma {:induction false} PlainIsShown(run: seq<(TestCase, seq<string>)>, cases: seq<TestCase>)
    requires PlainRun(run, cases)
    ensures cases == CasesOf(run)
  {
  }

  lemma {:induction false} RunPlain(run: seq<(TestCase, seq<string>)>, cases: seq<TestCase>, indices: seq<nat>)
    requires indices == Identity(|cases|) && |run| == |cases| && forall c :: c in cases ==> c.Unshuffled()
    requires forall i :: 0 <= i < |run| ==> RunOf(cases[indices[i]], run[i])
    ensures PlainRun(run, cases)
  {
    forall i | 0 <= i < |run|
      ensures run[i] == (cases[i], cases[i].tests)
    {
      assert RunOf(cases[indices[i]], run[i]) && cases[i] in cases;
      assert Picked(cases[i].tests, Identity(|cases[i].tests|)) == cases[i].tests;
    }
  }

  const MAX_SEED: nat := 99999

  /** The seed of the `i`-th iteration. */
  function SeedAt(seed: nat, i: nat): (r: nat)
    requires 1 <= seed <= MAX_SEED
    ensures 1 <= r <= MAX_SEED
  {
    if i == 0 then seed else
      var s := SeedAt(seed, i - 1);
      if s + 1 > MAX_SEED then 1 else s + 1
  }

  lemma {:induction false} SeedSteps(seed: nat, i: nat)
    requires 1 <= seed <= MAX_SEED
    ensures SeedAt(seed, 0) == seed
    ensures var s := SeedAt(seed, i); SeedAt(seed, i + 1) == if s + 1 > MAX_SEED then 1 else s + 1
  {
  }

  /** The seeds go round from 1 to the largest, so that each of them comes up in its turn. */
  lemma {:induction false} SeedsGoRound(seed: nat, i: nat)
    requires 1 <= seed <= MAX_SEED
    ensures SeedAt(seed, i) == 1 + (seed - 1 + i) % MAX_SEED
  {
    if i > 0 {
      SeedsGoRound(seed, i - 1);
      var n, r := seed - 1 + (i - 1), (seed - 1 + (i - 1)) % MAX_SEED;
      assert n + 1 == n / MAX_SEED * MAX_SEED + (r + 1);
    }
  }

  lemma {:induction false} EverySeedComes(seed: nat, other: nat) returns (i: nat)
    requires 1 <= seed <= MAX_SEED && 1 <= other <= MAX_SEED
    ensures i < MAX_SEED && SeedAt(seed, i) == other
  {
    i := if other >= seed then other - seed else other + MAX_SEED - seed;
    SeedsGoRound(seed, i);
  }

  /** The cases in the order of registration, with their tests in that order. */
  ghost predicate PlainRun(run: seq<(TestCase, seq<string>)>, cases: seq<TestCase>)
    reads (set c | c in cases)`tests
  {
    |run| == |cases| && forall i :: 0 <= i < |run| ==> run[i] == (cases[i], cases[i].tests)
  }

  /** The order of cases and tests that a seed gives. It depends on nothing else. */
  ghost predicate ShuffledRun(run: seq<(TestCase, seq<string>)>, cases: seq<TestCase>, first: nat, seed: nat)
    requires first <= |cases|
    reads (set c | c in cases)`tests
  {
    var places := CasesShuffled(Identity(|cases|), first, seed);
    && |run| == |cases| && Within(places, |cases|)
    && forall i :: 0 <= i < |run| ==> ShuffledCase(run[i], cases, places[i], first, seed)
  }

  ghost predicate ShuffledCase(r: (TestCase, seq<string>), cases: seq<TestCase>, k: nat, first: nat, seed: nat)
    requires first <= |cases| && k < |cases|
    reads (set c | c in cases)`tests
  {
    var state := StateFor(Sizes(cases), k, Drawn(Drawn(seed, first), |cases| - first));
    var places := TestsShuffled(Identity(|cases[k].tests|), state);
    r.0 == cases[k] && Within(places, |cases[k].tests|) && r.1 == Picked(cases[k].tests, places)
  }

  /** A run can be repeated from its seed alone, however many iterations there were before it. */
  lemma {:induction false} SameSeedSameRun(run: seq<(TestCase, seq<string>)>, run': seq<(TestCase, seq<string>)>,
                                           cases: seq<TestCase>, first: nat, seed: nat)
    requires first <= |cases| && ShuffledRun(run, cases, first, seed) && ShuffledRun(run', cases, first, seed)
    ensures run == run'
  {
    hide CasesShuffled, StateFor, TestsShuffled, Drawn;
    forall i | 0 <= i < |run|
      ensures run[i] == run'[i]
    {
      var k := CasesShuffled(Identity(|cases|), first, seed)[i];
      assert ShuffledCase(run[i], cases, k, first, seed) && ShuffledCase(run'[i], cases, k, first, seed);
    }
  }

  /** One test case run: each of its tests once. */
  ghost predicate RunOf(c: TestCase, r: (TestCase, seq<string>))
    reads c
  {
    r.0 == c && Within(c.indices, |c.tests|) && r.1 == Picked(c.tests, c.indices) && multiset(r.1) == multiset(c.tests)
  }

  function CasesOf(run: seq<(TestCase, seq<string>)>): (cs: seq<TestCase>)
    ensures |cs| == |run| && forall i :: 0 <= i < |run| ==> cs[i] == run[i].0
  {
    seq(|run|, i requires 0 <= i < |run| => run[i].0)
  }

  /** Every case has been run exactly once, with all its tests, and no death test after any other. */
  ghost predicate Complete(run: seq<(TestCase, seq<string>)>, cases: seq<TestCase>, isDeath: string -> bool)
    reads (set c | c in cases)`tests
  {
    && multiset(CasesOf(run)) == multiset(cases)
    && (forall r :: r in run ==> r.0 in cases && multiset(r.1) == multiset(r.0.tests))
    && forall i, j :: 0 <= i < j < |run| && isDeath(run[j].0.name) ==> isDeath(run[i].0.name)
  }

  lemma {:induction false} InOrder(s: seq<nat>, n: nat)
    requires Order(s) && |s| == n
    ensures Within(s, n)
  {
    OrderBounds(s);
  }

  lemma {:induction false} ChosenAre(names: seq<string>, isDeath: string -> bool, death: bool)
    ensures forall x :: x in Chosen(names, isDeath, death) ==> isDeath(x) == death
  {
    if names != [] {
      ChosenAre(names[..|names| - 1], isDeath, death);
    }
  }

  lemma {:induction false} DeathsFirst(cases: seq<TestCase>, first: nat, registered: seq<string>,
          isDeath: string -> bool)
    requires Listed(cases, first, registered, isDeath)
    ensures forall k :: 0 <= k < |cases| ==> (isDeath(cases[k].name) <==> k < first)
  {
    ChosenAre(registered, isDeath, true);
    ChosenAre(registered, isDeath, false);
    forall k | 0 <= k < |cases|
      ensures isDeath(cases[k].name) <==> k < first
    {
      if k < first {
        assert Names(cases[..first])[k] == cases[k].name;
      } else {
        assert Names(cases[first..])[k - first] == cases[k].name;
      }
    }
  }

  lemma {:induction false} RunComplete(run: seq<(TestCase, seq<string>)>, cases: seq<TestCase>, indices: seq<nat>,
          first: nat,
                                       registered: seq<string>, isDeath: string -> bool)
    requires Listed(cases, first, registered, isDeath) && Order(indices) && Blocks(indices, first)
    requires |run| == |indices| == |cases| && Within(indices, |cases|)
    requires forall i :: 0 <= i < |run| ==> RunOf(cases[indices[i]], run[i])
    ensures Complete(run, cases, isDeath)
  {
    VisitsOnce(cases, indices);
    DeathsFirst(cases, first, registered, isDeath);
    hide Listed, Order;
    assert CasesOf(run) == Picked(cases, indices);
    forall r | r in run
      ensures r.0 in cases && multiset(r.1) == multiset(r.0.tests)
    {
      var i :| 0 <= i < |run| && run[i] == r;
      assert RunOf(cases[indices[i]], run[i]);
    }
    forall i, j | 0 <= i < j < |run| && isDeath(run[j].0.name)
      ensures isDeath(run[i].0.name)
    {
      assert RunOf(cases[indices[i]], run[i]) && RunOf(cases[indices[j]], run[j]);
    }
  }

  /** The places of the cases after shuffling, from a state of the generator. */
  function CasesShuffled(s: seq<nat>, first: nat, state: nat): (r: seq<nat>)
    requires first <= |s|
    ensures |r| == |s|
  {
    RangeShuffled(RangeShuffled(s, 0, first, state), first, |s|, Drawn(state, first))
  }

  lemma {:induction false} CasesOrder(s: seq<nat>, first: nat, state: nat)
    requires first <= |s| && Order(s) && Blocks(s, first)
    ensures var r := CasesShuffled(s, first, state); Order(r) && Blocks(r, first)
  {
    hide Order, Blocks, RangeShuffled, Drawn;
    ShuffledOrder(s, 0, first, state);
    ShuffledBlocks(s, 0, first, state, first);
    var t := RangeShuffled(s, 0, first, state);
    ShuffledOrder(t, first, |s|, Drawn(state, first));
    ShuffledBlocks(t, first, |s|, Drawn(state, first), first);
  }

  /** How many tests the cases have. */
  function Sizes(cases: seq<TestCase>): (sizes: seq<nat>)
    reads (set c | c in cases)`tests
    ensures |sizes| == |cases| && forall k :: 0 <= k < |cases| ==> sizes[k] == |cases[k].tests|
  {
    if cases == [] then [] else
      var n := |cases| - 1;
      Sizes(cases[..n]) + [|cases[n].tests|]
  }

  /** The generator's state when the tests of case `k` are shuffled. */
  function StateFor(sizes: seq<nat>, k: nat, state: nat): nat
    requires k <= |sizes|
  {
    if k == 0 then state else Drawn(StateFor(sizes, k - 1, state), sizes[k - 1])
  }

  /** How many numbers are drawn for that many cases: one less than there are tests, for each. */
  function NumbersFor(sizes: seq<nat>, k: nat): nat
    requires k <= |sizes|
  {
    if k == 0 then 0 else NumbersFor(sizes, k - 1) + if sizes[k - 1] < 2 then 0 else sizes[k - 1] - 1
  }

  /** No number is drawn twice or left out from one case to the next. */
  lemma {:induction false} StateCounted(sizes: seq<nat>, k: nat, state: nat)
    requires k <= |sizes|
    ensures StateFor(sizes, k, state) == After(state, NumbersFor(sizes, k))
  {
    hide Next, Drawn;
    if k > 0 {
      StateCounted(sizes, k - 1, state);
      var n := if sizes[k - 1] < 2 then 0 else sizes[k - 1] - 1;
      DrawsAll(StateFor(sizes, k - 1, state), sizes[k - 1]);
      AfterSum(state, NumbersFor(sizes, k - 1), n);
    }
  }

  lemma {:induction false} AfterSum(state: nat, m: nat, n: nat)
    ensures After(After(state, m), n) == After(state, m + n)
    decreases m
  {
    hide Next;
    if m > 0 {
      AfterSum(Next(state), m - 1, n);
    }
  }

  lemma {:induction false} StateSteps(sizes: seq<nat>, k: nat, state: nat)
    ensures StateFor(sizes, 0, state) == state
    ensures k < |sizes| ==> StateFor(sizes, k + 1, state) == Drawn(StateFor(sizes, k, state), sizes[k])
  {
  }

  /** The places of the tests of a case after shuffling. */
  function TestsShuffled(s: seq<nat>, state: nat): seq<nat> {
    RangeShuffled(s, 0, |s|, state)
  }

  /** The tests of a case stay in the order of registration exactly when every draw picks the last place. */
  lemma {:induction false} TestsKeptIffLast(n: nat, state: nat)
    ensures TestsShuffled(Identity(n), state) == Identity(n) <==> Draws(state, n) == LastPlaces(n)
  {
    RangeKeptIffLast(Identity(n), 0, n, state);
  }

  lemma {:induction false} TwoTests(state: nat)
    ensures TestsShuffled(Identity(2), state) == if Next(state) % 2 == 1 then [0, 1] else [1, 0]
  {
    PairKeptIffOdd(Identity(2), 0, state);
    assert Identity(2) == [0, 1];
  }

  /** Four tests are never run in this order, whatever the seed. */
  lemma {:induction false} NeverInThisOrder(state: nat)
    ensures TestsShuffled(Identity(4), state) != [2, 1, 3, 0]
  {
    var id, p, cs := Identity(4), [2, 1, 3, 0], [0, 0, 1];
    assert id == [0, 1, 2, 3];
    assert Arranged(id, 4, cs) == p by { FourSwaps(); }
    assert id[0..4] == id && id[..0] == [] && id[4..] == [];
    if TestsShuffled(id, state) == p {
      OrdersDiffer(id, 4, Draws(state, 4), cs);
      EvenDrawsAgree(state, 4, 0, 2);
    }
  }

  lemma {:induction false} FourSwaps()
    ensures Arranged([0, 1, 2, 3], 4, [0, 0, 1]) == [2, 1, 3, 0]
  {
    assert Swapped([0, 1, 2, 3], 0, 3) == [3, 1, 2, 0];
    assert Swapped([3, 1, 2, 0], 0, 2) == [2, 1, 3, 0];
    assert Swapped([2, 1, 3, 0], 1, 1) == [2, 1, 3, 0];
    assert [0, 0, 1][1..] == [0, 1] && [0, 1][1..] == [1];
    assert Arranged([2, 1, 3, 0], 2, [1]) == [2, 1, 3, 0];
    assert Arranged([3, 1, 2, 0], 3, [0, 1]) == Arranged([2, 1, 3, 0], 2, [1]);
  }

  /** Whatever the order of a case's tests, some draws bring it about. */
  lemma {:induction false} EveryTestOrder(s: seq<nat>, n: nat) returns (cs: seq<nat>)
    requires Order(s) && |s| == n
    ensures Choices(cs, n) && forall state :: Draws(state, n) == cs ==> TestsShuffled(Identity(n), state) == s
  {
    var id := Identity(n);
    assert s[n..] == id[n..] && s[..n] == s && id[..n] == id;
    cs := EveryOrderArises(id, s, n);
    hide Arranged, Draws;
    forall state | Draws(state, n) == cs
      ensures TestsShuffled(id, state) == s
    {
      assert id[0..n] == id && id[..0] == [];
    }
  }

  // ------------------------------------------------------------- what listeners are shown

  /** Every number drawn for either block of cases picks the last place there is. */
  predicate AllLast(n: nat, first: nat, seed: nat)
    requires first <= n
  {
    Draws(seed, first) == LastPlaces(first) && Draws(Drawn(seed, first), n - first) == LastPlaces(n - first)
  }

  lemma {:induction false} PlacesKept(n: nat, first: nat, seed: nat)
    requires first <= n
    ensures CasesShuffled(Identity(n), first, seed) == Identity(n) <==> AllLast(n, first, seed)
  {
    var id, state := Identity(n), Drawn(seed, first);
    var t := RangeShuffled(id, 0, first, seed);
    var r := RangeShuffled(t, first, n, state);
    RangePermutes(id, 0, first, seed);
    RangePermutes(t, first, n, state);
    RangeKeptIffLast(id, 0, first, seed);
    RangeKeptIffLast(id, first, n, state);
    hide RangeShuffled, Draws, Drawn, LastPlaces;
    if r == id {
      assert t == t[..first] + t[first..] == id[..first] + id[first..] == id;
    }
  }

  /** The order of registration, which is what listeners are shown, is that of a shuffled run if and only if every draw
    * picks the last place.
    */
  lemma {:induction false} ListenersSeeOrder(run: seq<(TestCase, seq<string>)>, cases: seq<TestCase>, first: nat,
          seed: nat)
    requires first <= |cases| && ShuffledRun(run, cases, first, seed)
    requires forall i, j :: 0 <= i < j < |cases| ==> cases[i] != cases[j]
    ensures cases == CasesOf(run) <==> AllLast(|cases|, first, seed)
  {
    PlacesKept(|cases|, first, seed);
    hide AllLast, CasesShuffled, StateFor, TestsShuffled, Drawn;
    var places := CasesShuffled(Identity(|cases|), first, seed);
    forall i | 0 <= i < |run|
      ensures run[i].0 == cases[places[i]]
    {
      assert ShuffledCase(run[i], cases, places[i], first, seed);
    }
    if cases == CasesOf(run) {
      forall i | 0 <= i < |cases|
        ensures places[i] == i
      {
        assert cases[places[i]] == CasesOf(run)[i] == cases[i];
      }
      assert places == Identity(|cases|);
    }
  }

  /** Two cases with seed 1: the one registered first is run last, and listeners are shown it first. */
  method ListenersMisled() returns (a: TestCase, b: TestCase, shown: seq<TestCase>, run: seq<TestCase>)
    ensures a != b && shown == [a, b] && run == [b, a]
  {
    hide UnitTest.Valid, UnitTest.Unshuffled, Listed, ShuffledRun, PlainRun, Complete, AllLast, Order, Blocks;
    var random := new Random(1);
    var unit := new UnitTest(name => false, random);
    a := unit.GetTestCase("a");
    b := unit.GetTestCase("b");
    unit.FirstDeath();
    assert unit.cases == [a, b];
    var r;
    shown, r := unit.RunOnce(true, 1);
    assert unit.lastDeath + 1 == 0 && unit.cases == [a, b];
    RunSwapped(r, a, b);
    run := CasesOf(r);
  }

  lemma {:induction false} RunSwapped(run: seq<(TestCase, seq<string>)>, a: TestCase, b: TestCase)
    requires ShuffledRun(run, [a, b], 0, 1)
    ensures CasesOf(run) == [b, a]
  {
    TwoSwapped();
    hide CasesShuffled;
    assert ShuffledCase(run[0], [a, b], 1, 0, 1) && ShuffledCase(run[1], [a, b], 0, 0, 1);
  }

  lemma {:induction false} NoDeaths(cases: seq<TestCase>, first: nat, registered: seq<string>, isDeath: string -> bool)
    requires Listed(cases, first, registered, isDeath) && forall c :: c in cases ==> !isDeath(c.name)
    ensures first == 0
  {
    DeathsFirst(cases, first, registered, isDeath);
    hide Listed;
    ListedSize(cases, first, registered, isDeath);
    assert |cases| > 0 ==> (isDeath(cases[0].name) <==> 0 < first);
    assert |cases| > 0 ==> cases[0] in cases;
  }

  /** Two cases of one kind change places if and only if the generator's first number is even. */
  lemma {:induction false} TwoCases(seed: nat)
    ensures CasesShuffled(Identity(2), 0, seed) == if Next(seed) % 2 == 1 then [0, 1] else [1, 0]
  {
    var s := Identity(2);
    assert Drawn(seed, 0) == seed;
    assert RangeShuffled(s, 0, 0, seed) == s by { assert Arranged(s[0..0], 0, Draws(seed, 0)) == []; }
    PairKeptIffOdd(s, 0, seed);
    assert s == [0, 1];
  }

  lemma {:induction false} TwoSwapped()
    ensures CasesShuffled(Identity(2), 0, 1) == [1, 0]
    ensures CasesShuffled(Identity(2), 0, 2) == [0, 1]
  {
    TwoCases(1);
    TwoCases(2);
    assert Next(1) % 2 == 0 && Next(2) % 2 == 1;
  }
}
