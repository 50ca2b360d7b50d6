/** The test runner: it owns the result store and clears and fills it around a
    run. The store maps a test to an optional result:
      - the key is absent: the test has not run;
      - the key maps to None: the test is in progress;
      - the key maps to Some(r): the test finished with result r. */
module Runners {
  import opened TestTrees
  import opened Filters

  /** NUnit's TestStatus. `Unrecognized` stands for any other value the enum
      can be given, which the dock must still display. */
  datatype TestStatus = Inconclusive | Skipped | Passed | Warning | Failed | Unrecognized(code: int)

  /** What the dock reads of NUnit's ITestResult. Strings NUnit may leave null
      are options. */
  datatype TestResult = TestResult(
    test: nat,
    name: string,
    status: TestStatus,
    passCount: nat,
    message: Option<string>,
    output: Option<string>,
    stackTrace: Option<string>)

  type Store = map<nat, Option<TestResult>>

  /** Every key is a test of the tree, and a finished entry holds that test's
      own result. */
  ghost predicate StoreValid(tree: Tree, store: Store) {
    forall k | k in store :: k < |tree| && (store[k].Some? ==> store[k].value.test == k)
  }

  /** The store after a run's clearing step: the entries of tests that pass the
      filter are gone and every other entry is kept as it was. */
  function Cleared(tree: Tree, store: Store, filter: TestFilter): (r: Store)
    requires WellFormed(tree) && StoreValid(tree, store)
    ensures StoreValid(tree, r)
    ensures forall k | k in r :: k in store && r[k] == store[k] && !Pass(tree, filter, k)
    ensures forall k | k in store && !Pass(tree, filter, k) :: k in r
  {
    map k | k in store && !Pass(tree, filter, k) :: store[k]
  }

  /** The store after a start event: the test is in progress, nothing else
      changed. */
  function Started(store: Store, t: nat): (r: Store)
    ensures t in r && r[t] == None
    ensures forall k | k != t :: (k in r <==> k in store) && (k in r ==> r[k] == store[k])
  {
    store[t := None]
  }

  /** The store after a finish event: the result replaces whatever the test
      had, nothing else changed. */
  function Finished(store: Store, result: TestResult): (r: Store)
    ensures result.test in r && r[result.test] == Some(result)
    ensures forall k | k != result.test :: (k in r <==> k in store) && (k in r ==> r[k] == store[k])
  {
    store[result.test := Some(result)]
  }

  /** Clearing with MatchEverything empties the store. */
  lemma ClearingEverythingEmpties(tree: Tree, store: Store)
    requires WellFormed(tree) && StoreValid(tree, store)
    ensures Cleared(tree, store, MatchEverything) == map[]
  {
    var r := Cleared(tree, store, MatchEverything);
    forall k | k in r ensures false {
      MatchEverythingPassesAll(tree, k);
    }
  }

  /** Clearing the descendants of the root empties the store too. */
  lemma ClearingRootEmpties(tree: Tree, store: Store)
    requires WellFormed(tree) && StoreValid(tree, store)
    ensures Cleared(tree, store, MatchDescendantsOf(0)) == map[]
  {
    var r := Cleared(tree, store, MatchDescendantsOf(0));
    forall k | k in r ensures false {
      RootIsAncestorOfAll(tree, k);
    }
  }

  /** Clearing twice with one filter is clearing once. */
  lemma ClearingIsIdempotent(tree: Tree, store: Store, filter: TestFilter)
    requires WellFormed(tree) && StoreValid(tree, store)
    ensures Cleared(tree, Cleared(tree, store, filter), filter) == Cleared(tree, store, filter)
  {
  }

  /** A test's entry is decided by its last event: a finish after a start
      leaves the result, a start after a finish leaves it in progress. */
  lemma LastEventWins(store: Store, result: TestResult)
    ensures Finished(Started(store, result.test), result)[result.test] == Some(result)
    ensures Started(Finished(store, result), result.test)[result.test] == None
    ensures Finished(Started(store, result.test), result) == Finished(store, result)
  {
  }

  class TestRunner {
    /** The loaded test tree; an empty arena stands for "no loaded test". */
    const tree: Tree
    /** `_testResults`. */
    var results: Store

    ghost predicate Valid()
      reads this
    {
      WellFormed(tree) && StoreValid(tree, results)
    }

    /** Loads the tests; no test has a result yet. */
    constructor (loaded: Tree)
      requires WellFormed(loaded)
      ensures Valid() && tree == loaded && results == map[]
    {
      tree := loaded;
      results := map[];
    }

    /** Clears the results of every test that passes `filter`. Each cleared
        test is returned once, in some order. */
    method StartTestRun(filter: TestFilter) returns (setups: seq<nat>)
      requires Valid()
      modifies this
      ensures Valid()
      ensures results == Cleared(tree, old(results), filter)
      ensures forall k :: k in setups <==> k in old(results) && Pass(tree, filter, k)
      ensures forall i, j | 0 <= i < j < |setups| :: setups[i] != setups[j]
    {
      var testsToClear := set k | k in results && Pass(tree, filter, k);
      var remaining := testsToClear;
      setups := [];
      while remaining != {}
        invariant remaining <= testsToClear
        invariant results == old(results) - (testsToClear - remaining)
        invariant forall k :: k in setups <==> k in testsToClear - remaining
        invariant forall i, j | 0 <= i < j < |setups| :: setups[i] != setups[j]
        decreases remaining
      {
        var test :| test in remaining;
        results := results - {test};
        setups := setups + [test];
        remaining := remaining - {test};
      }
      assert results == Cleared(tree, old(results), filter);
    }

    /** The runner's start handler. */
    method WhenTestStarted(t: nat)
      requires Valid() && t < |tree|
      modifies this
      ensures Valid()
      ensures results == Started(old(results), t)
    {
      results := results[t := None];
    }

    /** The runner's finish handler. */
    method WhenTestFinished(testResult: TestResult)
      requires Valid() && testResult.test < |tree|
      modifies this
      ensures Valid()
      ensures results == Finished(old(results), testResult)
    {
      results := results[testResult.test := Some(testResult)];
    }

    /** Reports whether a test tree is loaded, and its root. */
    method TryGetTestTree() returns (found: bool, testTree: Option<nat>)
      requires Valid()
      ensures found <==> testTree.Some?
      ensures found <==> |tree| > 0
      ensures found ==> testTree.value < |tree| && Parent(tree, testTree.value).None?
    {
      testTree := if |tree| > 0 then Some(0) else None;
      found := testTree != None;
    }

    /** Looks a test up in the store: found iff it is a key, and the value is
        the stored entry (None while in progress, and None when not found). */
    method TryGetTestResult(t: nat) returns (found: bool, testResult: Option<TestResult>)
      ensures found <==> t in results
      ensures found ==> testResult == results[t]
      ensures !found ==> testResult == None
    {
      found := t in results;
      testResult := if found then results[t] else None;
    }
  }
}
