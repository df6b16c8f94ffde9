/** The counters of the JUnit and text reports. */
module Reports {
  import opened Runner

  function FailedSteps(steps: seq<StepResult>): nat {
    if steps == [] then 0 else FailedSteps(steps[..|steps| - 1]) + if steps[|steps| - 1].passed then 0 else 1
  }

  function TotalSteps(rs: seq<ScenarioResult>): nat {
    if rs == [] then 0 else TotalSteps(rs[..|rs| - 1]) + |rs[|rs| - 1].steps|
  }

  function TotalFailedSteps(rs: seq<ScenarioResult>): nat {
    if rs == [] then 0 else TotalFailedSteps(rs[..|rs| - 1]) + FailedSteps(rs[|rs| - 1].steps)
  }

  function FailedScenarios(rs: seq<ScenarioResult>): nat {
    if rs == [] then 0 else FailedScenarios(rs[..|rs| - 1]) + if rs[|rs| - 1].passed then 0 else 1
  }

  function Sum(counts: seq<(nat, nat)>): (nat, nat) {
    if counts == [] then (0, 0)
    else
      var (tests, failures) := Sum(counts[..|counts| - 1]);
      (tests + counts[|counts| - 1].0, failures + counts[|counts| - 1].1)
  }

  method JUnitCounters(rs: seq<ScenarioResult>) returns (totalTests: nat, totalFailures: nat, suites: seq<(nat, nat)>)
    ensures totalTests == TotalSteps(rs) && totalFailures == TotalFailedSteps(rs)
    ensures |suites| == |rs| && Sum(suites) == (totalTests, totalFailures)
    ensures forall i | 0 <= i < |rs| :: suites[i] == (|rs[i].steps|, FailedSteps(rs[i].steps))
  {
    totalTests, totalFailures, suites := 0, 0, [];
    for i := 0 to |rs|
      invariant totalTests == TotalSteps(rs[..i]) && totalFailures == TotalFailedSteps(rs[..i]) && |suites| == i
      invariant forall k | 0 <= k < i :: suites[k] == (|rs[k].steps|, FailedSteps(rs[k].steps))
      invariant Sum(suites) == (totalTests, totalFailures)
    {
      var steps := rs[i].steps;
      var suiteFailures := 0;
      for j := 0 to |steps|
        invariant suiteFailures == FailedSteps(steps[..j])
      {
        assert steps[..j + 1][..j] == steps[..j];
        if !steps[j].passed {
          suiteFailures := suiteFailures + 1;
        }
      }
      assert steps[..|steps|] == steps;
      assert rs[..i + 1][..i] == rs[..i];
      SumStep(suites, (|steps|, suiteFailures));
      suites := suites + [(|steps|, suiteFailures)];
      totalTests, totalFailures := totalTests + |steps|, totalFailures + suiteFailures;
    }
    assert rs[..|rs|] == rs;
  }

  lemma SumStep(counts: seq<(nat, nat)>, c: (nat, nat))
    ensures Sum(counts + [c]) == (Sum(counts).0 + c.0, Sum(counts).1 + c.1)
  {
    assert (counts + [c])[..|counts|] == counts;
  }

  method TextCounters(rs: seq<ScenarioResult>) returns (passed: nat, failed: nat)
    ensures failed == FailedScenarios(rs) && passed + failed == |rs|
  {
    passed, failed := 0, 0;
    for i := 0 to |rs|
      invariant failed == FailedScenarios(rs[..i]) && passed + failed == i
    {
      assert rs[..i + 1][..i] == rs[..i];
      if rs[i].passed {
        passed := passed + 1;
      } else {
        failed := failed + 1;
      }
    }
    assert rs[..|rs|] == rs;
  }

  lemma {:induction false} AllPassedNoFailures(steps: seq<StepResult>)
    requires forall k | 0 <= k < |steps| :: steps[k].passed
    ensures FailedSteps(steps) == 0
  {
    if steps != [] {
      AllPassedNoFailures(steps[..|steps| - 1]);
    }
  }

  /** A result the runner makes has one failed step if it failed and none if it passed. */
  lemma FailedStepsOfResult(r: ScenarioResult)
    requires WellFormed(r)
    ensures FailedSteps(r.steps) == if r.passed then 0 else 1
  {
    if r.steps != [] {
      AllPassedNoFailures(r.steps[..|r.steps| - 1]);
    }
  }

  /** Over any results the runner produced, JUnit's failures and the text report's failed scenarios are one number. */
  lemma {:induction false} ReportsAgree(rs: seq<ScenarioResult>)
    requires forall r | r in rs :: WellFormed(r)
    ensures TotalFailedSteps(rs) == FailedScenarios(rs)
  {
    if rs != [] {
      FailedStepsOfResult(rs[|rs| - 1]);
      ReportsAgree(rs[..|rs| - 1]);
    }
  }

  function Reported(runs: seq<Setup>): seq<ScenarioResult> {
    seq(|runs|, i requires 0 <= i < |runs| => Report(runs[i]))
  }

  /** The failed steps counted are those that are marked as failed. */
  lemma {:induction false} FailedStepsCount(steps: seq<StepResult>)
    ensures FailedSteps(steps) == |set i | 0 <= i < |steps| && !steps[i].passed|
  {
    if steps != [] {
      var n := |steps| - 1;
      FailedStepsCount(steps[..n]);
      var front := set i | 0 <= i < n && !steps[..n][i].passed;
      var all := set i | 0 <= i < |steps| && !steps[i].passed;
      assert all == if steps[n].passed then front else front + {n};
    }
  }

  /** A passing run is reported with a test for each step and no failure, a failing one with exactly one failure, in the
      last test. */
  lemma RunCounted(s: Setup)
    ensures var r := Report(s);
            && |r.steps| == (if r.passed then |s.steps| else PassedSteps(s) + 1)
            && FailedSteps(r.steps) == (if r.passed then 0 else 1)
  {
    ReportMeaning(s);
    FailedStepsOfResult(Report(s));
  }

  /** So for any scenarios run against any registrars: failures equal failing scenarios, in both reports. */
  lemma RunsReportedAlike(runs: seq<Setup>)
    ensures TotalFailedSteps(Reported(runs)) == FailedScenarios(Reported(runs))
  {
    forall r | r in Reported(runs) ensures WellFormed(r) {
      var i :| 0 <= i < |runs| && Reported(runs)[i] == r;
      ReportMeaning(runs[i]);
    }
    ReportsAgree(Reported(runs));
  }
}
