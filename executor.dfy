/**
 * `SmartParallelExecutor`'s bookkeeping: which path each execution group takes,
 * the statistics it keeps and the results it collects. Testing an element is the
 * `Tester` oracle; the thread pool is not modelled, so what a parallel group
 * delivers is an argument.
 */
module Executor {
  import opened Wrappers
  import opened Models
  import opened Grouping

  /** How testing one element ended: with a result, or with an exception and its message. */
  datatype Attempt = Completed(result: TestResult) | Raised(message: string)

  /** Recording, testing an element and capturing its API calls, as one oracle. */
  type Tester = InteractiveElement -> Attempt

  /** `_test_element_safe`: an exception becomes a failed result carrying its message. */
  function TestSafe(e: InteractiveElement, a: Attempt): (r: TestResult)
    ensures a.Completed? ==> r == a.result
    ensures a.Raised? ==> r.element == e && !r.success && r.apisCalled == [] && r.error == Some(a.message)
  {
    match a
    case Completed(result) => result
    case Raised(message) => TestResult(e, false, [], Some(message), None, false)
  }

  /** The results of testing `es` one after another. */
  function SequentialResults(es: seq<InteractiveElement>, test: Tester): (rs: seq<TestResult>)
    ensures |rs| == |es|
    ensures forall k :: 0 <= k < |es| ==> rs[k] == TestSafe(es[k], test(es[k]))
  {
    if es == [] then [] else SequentialResults(es[..|es| - 1], test) + [TestSafe(es[|es| - 1], test(es[|es| - 1]))]
  }

  /** A group goes to the thread pool exactly when it may run in parallel and has more than one element. */
  predicate RunsParallel(group: ExecutionGroup) {
    group.canParallel && |group.elements| > 1
  }

  /** What one group adds to the results: the pool's results, or one result per element in order. */
  function GroupResults(group: ExecutionGroup, test: Tester, pooled: seq<TestResult>): seq<TestResult> {
    if RunsParallel(group) then pooled else SequentialResults(group.elements, test)
  }

  /** The results of the groups in turn. */
  function AllResults(groups: seq<ExecutionGroup>, test: Tester, pooled: seq<seq<TestResult>>): seq<TestResult>
    requires |pooled| == |groups|
  {
    if groups == [] then []
    else AllResults(groups[..|groups| - 1], test, pooled[..|groups| - 1]) + GroupResults(groups[|groups| - 1], test, pooled[|groups| - 1])
  }

  /** The elements of the groups that take path `parallel`. */
  function PathSize(groups: seq<ExecutionGroup>, parallel: bool): nat {
    if groups == [] then 0
    else PathSize(groups[..|groups| - 1], parallel) + (if RunsParallel(groups[|groups| - 1]) == parallel then |groups[|groups| - 1].elements| else 0)
  }

  /** The elements of all the groups. */
  function TotalSize(groups: seq<ExecutionGroup>): nat {
    if groups == [] then 0 else TotalSize(groups[..|groups| - 1]) + |groups[|groups| - 1].elements|
  }

  /** Every element is counted on exactly one path. */
  lemma {:induction false} PathsCoverAll(groups: seq<ExecutionGroup>)
    ensures PathSize(groups, true) + PathSize(groups, false) == TotalSize(groups)
  {
    if groups != [] {
      PathsCoverAll(groups[..|groups| - 1]);
    }
  }

  /** Without parallel groups every element yields exactly one result, whatever the pool would deliver. */
  lemma {:induction false} SequentialOneResultEach(groups: seq<ExecutionGroup>, test: Tester, pooled: seq<seq<TestResult>>)
    requires |pooled| == |groups|
    requires forall k :: 0 <= k < |groups| ==> !RunsParallel(groups[k])
    ensures |AllResults(groups, test, pooled)| == TotalSize(groups)
  {
    if groups != [] {
      SequentialOneResultEach(groups[..|groups| - 1], test, pooled[..|groups| - 1]);
    }
  }

  /** The number of successful results. */
  function SuccessCount(rs: seq<TestResult>): (n: nat)
    ensures n <= |rs|
  {
    if rs == [] then 0 else SuccessCount(rs[..|rs| - 1]) + (if rs[|rs| - 1].success then 1 else 0)
  }

  /** The number of failed results. */
  function FailureCount(rs: seq<TestResult>): (n: nat)
    ensures n <= |rs|
  {
    if rs == [] then 0 else FailureCount(rs[..|rs| - 1]) + (if rs[|rs| - 1].success then 0 else 1)
  }

  /** In the execution report, successes and failures add up to the total. */
  lemma {:induction false} SuccessPlusFailure(rs: seq<TestResult>)
    ensures SuccessCount(rs) + FailureCount(rs) == |rs|
  {
    if rs != [] {
      SuccessPlusFailure(rs[..|rs| - 1]);
    }
  }

  /** Every result succeeded exactly when all of them count as successes, and none did exactly when none count. */
  lemma {:induction false} SuccessCountExtremes(rs: seq<TestResult>)
    ensures SuccessCount(rs) == |rs| <==> forall i :: 0 <= i < |rs| ==> rs[i].success
    ensures SuccessCount(rs) == 0 <==> forall i :: 0 <= i < |rs| ==> !rs[i].success
  {
    if rs != [] {
      var init := rs[..|rs| - 1];
      SuccessCountExtremes(init);
      assert forall i :: 0 <= i < |init| ==> init[i] == rs[i];
    }
  }

  /** `get_execution_report`'s counts. */
  datatype ExecutionReport = ExecutionReport(totalResults: nat, successCount: nat, failureCount: nat)

  function Report(rs: seq<TestResult>): (r: ExecutionReport)
    ensures r.totalResults == |rs| && r.successCount + r.failureCount == r.totalResults
    ensures r.successCount == SuccessCount(rs) && r.failureCount == FailureCount(rs)
  {
    SuccessPlusFailure(rs);
    ExecutionReport(|rs|, SuccessCount(rs), FailureCount(rs))
  }

  /** Some of the first `n` answers is true. */
  predicate AnyBefore(answers: seq<bool>, n: int) {
    exists j :: 0 <= j < n && j < |answers| && answers[j]
  }

  lemma AnyBeforePush(answers: seq<bool>, k: nat)
    requires k < |answers|
    ensures AnyBefore(answers, k + 1) <==> AnyBefore(answers, k) || answers[k]
  {
    if AnyBefore(answers, k + 1) && !answers[k] {
      var j :| 0 <= j < k + 1 && j < |answers| && answers[j];
      assert j < k;
    }
  }

  lemma GroupsPush(groups: seq<ExecutionGroup>, test: Tester, pooled: seq<seq<TestResult>>, k: nat)
    requires |pooled| == |groups| && k < |groups|
    ensures AllResults(groups[..k + 1], test, pooled[..k + 1]) == AllResults(groups[..k], test, pooled[..k]) + GroupResults(groups[k], test, pooled[k])
  {
    assert groups[..k + 1][..k] == groups[..k];
    assert pooled[..k + 1][..k] == pooled[..k];
  }

  lemma PathSizePush(groups: seq<ExecutionGroup>, k: nat)
    requires k < |groups|
    ensures PathSize(groups[..k + 1], true) == PathSize(groups[..k], true) + (if RunsParallel(groups[k]) then |groups[k].elements| else 0)
    ensures PathSize(groups[..k + 1], false) == PathSize(groups[..k], false) + (if RunsParallel(groups[k]) then 0 else |groups[k].elements|)
  {
    assert groups[..k + 1][..k] == groups[..k];
  }

  /** The executor's statistics and results at one moment. */
  datatype Tally = Tally(results: seq<TestResult>, groupsExecuted: nat, elementsParallel: nat, elementsSequential: nat, conflictsDetected: nat, fallbackTriggered: bool)

  /** Where the group loop stands after the first `k` groups, from `start`. */
  ghost function Expected(start: Tally, groups: seq<ExecutionGroup>, test: Tester, pooled: seq<seq<TestResult>>, fallback: seq<bool>, k: nat): Tally
    requires |pooled| == |groups| && k <= |groups|
  {
    Tally(
      start.results + AllResults(groups[..k], test, pooled[..k]),
      start.groupsExecuted + k,
      start.elementsParallel + PathSize(groups[..k], true),
      start.elementsSequential + PathSize(groups[..k], false),
      start.conflictsDetected,
      start.fallbackTriggered || AnyBefore(fallback, k))
  }

  /** The tally after `_execute_group` runs `group`. */
  function Step(t: Tally, group: ExecutionGroup, test: Tester, pooled: seq<TestResult>): Tally {
    Tally(
      t.results + GroupResults(group, test, pooled),
      t.groupsExecuted + 1,
      t.elementsParallel + (if RunsParallel(group) then |group.elements| else 0),
      t.elementsSequential + (if RunsParallel(group) then 0 else |group.elements|),
      t.conflictsDetected,
      t.fallbackTriggered)
  }

  /** The tally after the detector answered `fallback`. */
  function Flag(t: Tally, fallback: bool): Tally {
    t.(fallbackTriggered := t.fallbackTriggered || fallback)
  }

  lemma ExpectedStep(start: Tally, groups: seq<ExecutionGroup>, test: Tester, pooled: seq<seq<TestResult>>, fallback: seq<bool>, k: nat)
    requires |pooled| == |groups| && |fallback| == |groups| && k < |groups|
    ensures Expected(start, groups, test, pooled, fallback, k + 1)
      == Flag(Step(Expected(start, groups, test, pooled, fallback, k), groups[k], test, pooled[k]), fallback[k])
  {
    ExpectedStepResults(start, groups, test, pooled, fallback, k);
    ExpectedStepCounts(start, groups, test, pooled, fallback, k);
    AnyBeforePush(fallback, k);
  }

  lemma ExpectedStepResults(start: Tally, groups: seq<ExecutionGroup>, test: Tester, pooled: seq<seq<TestResult>>, fallback: seq<bool>, k: nat)
    requires |pooled| == |groups| && |fallback| == |groups| && k < |groups|
    ensures Expected(start, groups, test, pooled, fallback, k + 1).results
      == Expected(start, groups, test, pooled, fallback, k).results + GroupResults(groups[k], test, pooled[k])
  {
    GroupsPush(groups, test, pooled, k);
    var done := AllResults(groups[..k], test, pooled[..k]);
    var added := GroupResults(groups[k], test, pooled[k]);
    assert (start.results + done) + added == start.results + (done + added);
  }

  lemma ExpectedStepCounts(start: Tally, groups: seq<ExecutionGroup>, test: Tester, pooled: seq<seq<TestResult>>, fallback: seq<bool>, k: nat)
    requires |pooled| == |groups| && |fallback| == |groups| && k < |groups|
    ensures Expected(start, groups, test, pooled, fallback, k + 1).elementsParallel
      == Expected(start, groups, test, pooled, fallback, k).elementsParallel + (if RunsParallel(groups[k]) then |groups[k].elements| else 0)
    ensures Expected(start, groups, test, pooled, fallback, k + 1).elementsSequential
      == Expected(start, groups, test, pooled, fallback, k).elementsSequential + (if RunsParallel(groups[k]) then 0 else |groups[k].elements|)
  {
    PathSizePush(groups, k);
  }

  class SmartExecutor {
    var results: seq<TestResult>
    var groupsExecuted: nat
    var elementsParallel: nat
    var elementsSequential: nat
    /** Present in the statistics but never updated. */
    var conflictsDetected: nat
    var fallbackTriggered: bool

    constructor()
      ensures results == [] && groupsExecuted == 0 && elementsParallel == 0 && elementsSequential == 0
      ensures conflictsDetected == 0 && !fallbackTriggered
    {
      results := [];
      groupsExecuted := 0;
      elementsParallel := 0;
      elementsSequential := 0;
      conflictsDetected := 0;
      fallbackTriggered := false;
    }

    /** `_execute_sequential`: one result per element, in order. */
    method ExecuteSequential(group: ExecutionGroup, test: Tester)
      modifies this
      ensures results == old(results) + SequentialResults(group.elements, test)
      ensures elementsSequential == old(elementsSequential) + |group.elements|
      ensures groupsExecuted == old(groupsExecuted) && elementsParallel == old(elementsParallel)
      ensures conflictsDetected == old(conflictsDetected) && fallbackTriggered == old(fallbackTriggered)
    {
      elementsSequential := elementsSequential + |group.elements|;
      var es := group.elements;
      for k := 0 to |es|
        invariant results == old(results) + SequentialResults(es[..k], test)
        invariant elementsSequential == old(elementsSequential) + |es|
        invariant groupsExecuted == old(groupsExecuted) && elementsParallel == old(elementsParallel)
        invariant conflictsDetected == old(conflictsDetected) && fallbackTriggered == old(fallbackTriggered)
      {
        assert es[..k + 1][..k] == es[..k];
        var r := TestSafe(es[k], test(es[k]));
        results := results + [r];
      }
      assert es[..|es|] == es;
    }

    /** `_execute_group`: count the group, then take the parallel or the sequential path. */
    method ExecuteGroup(group: ExecutionGroup, test: Tester, pooled: seq<TestResult>)
      modifies this
      ensures groupsExecuted == old(groupsExecuted) + 1
      ensures RunsParallel(group) ==> elementsParallel == old(elementsParallel) + |group.elements| && elementsSequential == old(elementsSequential)
      ensures !RunsParallel(group) ==> elementsSequential == old(elementsSequential) + |group.elements| && elementsParallel == old(elementsParallel)
      ensures results == old(results) + GroupResults(group, test, pooled)
      ensures conflictsDetected == old(conflictsDetected) && fallbackTriggered == old(fallbackTriggered)
      ensures Now() == Step(old(Now()), group, test, pooled)
    {
      groupsExecuted := groupsExecuted + 1;
      if group.canParallel && |group.elements| > 1 {
        elementsParallel := elementsParallel + |group.elements|;
        results := results + pooled;
      } else {
        ExecuteSequential(group, test);
      }
    }

    /**
     * The execution stage of `execute`: every group in turn, with `fallback[k]` the
     * detector's answer after group `k`. The answer only sets the statistic; the
     * results do not depend on it.
     */
    method ExecuteGroups(groups: seq<ExecutionGroup>, test: Tester, pooled: seq<seq<TestResult>>, fallback: seq<bool>)
      requires |pooled| == |groups| && |fallback| == |groups|
      modifies this
      ensures results == old(results) + AllResults(groups, test, pooled)
      ensures groupsExecuted == old(groupsExecuted) + |groups|
      ensures elementsParallel == old(elementsParallel) + PathSize(groups, true)
      ensures elementsSequential == old(elementsSequential) + PathSize(groups, false)
      ensures fallbackTriggered <==> old(fallbackTriggered) || AnyBefore(fallback, |groups|)
      ensures conflictsDetected == old(conflictsDetected)
    {
      ghost var start := Now();
      for k := 0 to |groups|
        invariant Now() == Expected(start, groups, test, pooled, fallback, k)
      {
        RunGroupAt(start, groups, test, pooled, fallback, k);
      }
      assert groups[..|groups|] == groups;
      assert pooled[..|groups|] == pooled;
    }

    /** The statistics and results as they stand. */
    ghost function Now(): Tally
      reads this
    {
      Tally(results, groupsExecuted, elementsParallel, elementsSequential, conflictsDetected, fallbackTriggered)
    }

    /** One pass of the group loop of `execute`: run group `k`, then ask the detector. */
    method RunGroupAt(ghost start: Tally, groups: seq<ExecutionGroup>, test: Tester, pooled: seq<seq<TestResult>>, fallback: seq<bool>, k: nat)
      requires |pooled| == |groups| && |fallback| == |groups| && k < |groups|
      requires Now() == Expected(start, groups, test, pooled, fallback, k)
      modifies this
      ensures Now() == Expected(start, groups, test, pooled, fallback, k + 1)
    {
      ExpectedStep(start, groups, test, pooled, fallback, k);
      ExecuteGroup(groups[k], test, pooled[k]);
      if fallback[k] {
        fallbackTriggered := true;
      }
    }

    /** `get_execution_report`. */
    function ExecutionCounts(): (r: ExecutionReport)
      reads this
      ensures r.totalResults == |results| && r.successCount + r.failureCount == |results|
      ensures r.successCount == SuccessCount(results) && r.failureCount == FailureCount(results)
    {
      Report(results)
    }
  }
}
