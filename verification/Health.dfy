/**
 Device health: threads that record the outcome of device calls, and the probe that brings a device back,
 share an error counter and a flag.  Every atomic operation is one step, in any order.
 */
module Health {

  /** What the probe does next: look, store the flag, or store the counter. */
  datatype Probe = Looking | Restoring | Clearing

  /**
   `errs` and `healthy` are shared.  `marking` holds the threads that are about to store the flag.
   `count` and `probe` belong to the probe, and `seen` lists the answers it got from the device.
   */
  datatype State = State(errs: nat, healthy: bool, marking: set<nat>, probe: Probe, count: nat, seen: seq<bool>)

  datatype Limits = Limits(maxErrors: nat, recovery: nat)

  datatype Step =
    | Fail(thread: nat, gone: bool)  // adds to the counter after a device error; `gone`: no such device
    | MarkDown(thread: nat)          // stores that the device is not healthy
    | Answered(thread: nat)          // clears the counter: the device answered
    | Look(answer: bool)             // the probe loads the flag and asks an unhealthy device
    | Restore                        // the probe stores that the device is healthy
    | Clear                          // the probe clears the counter

  predicate Enabled(s: State, step: Step)
  {
    match step
    case Fail(t, _) => t !in s.marking
    case MarkDown(t) => t in s.marking
    case Answered(t) => t !in s.marking
    case Look(_) => s.probe.Looking?
    case Restore => s.probe.Restoring?
    case Clear => s.probe.Clearing?
  }

  function Apply(s: State, l: Limits, step: Step): State
    requires Enabled(s, step)
  {
    match step
    case Fail(t, gone) =>
      s.(errs := s.errs + 1, marking := if gone || s.errs + 1 >= l.maxErrors then s.marking + {t} else s.marking)
    case MarkDown(t) => s.(healthy := false, marking := s.marking - {t})
    case Answered(_) => s.(errs := 0)
    case Look(answer) =>
      if s.healthy then s
      else if !answer then s.(count := 0, seen := s.seen + [false])
      else if s.count + 1 >= l.recovery then s.(count := s.count + 1, probe := Restoring, seen := s.seen + [true])
      else s.(count := s.count + 1, seen := s.seen + [true])
    case Restore => s.(healthy := true, probe := Clearing)
    case Clear => s.(errs := 0, count := 0, probe := Looking)
  }

  const Start := State(0, true, {}, Looking, 0, [])

  /** The state after a run; a step that cannot be taken is passed over. */
  function Run(l: Limits, steps: seq<Step>): State
  {
    if steps == [] then Start
    else
      var s, step := Run(l, steps[..|steps| - 1]), steps[|steps| - 1];
      if Enabled(s, step) then Apply(s, l, step) else s
  }

  /** The last k answers were all successful. */
  predicate Streak(seen: seq<bool>, k: nat)
  {
    k <= |seen| && forall i :: |seen| - k <= i < |seen| ==> seen[i]
  }

  predicate Inv(s: State, l: Limits)
  {
    && (s.errs >= l.maxErrors && s.healthy ==> s.marking != {} || s.probe.Clearing?)
    && Streak(s.seen, s.count)
    && (s.probe.Looking? ==> s.count < l.recovery)
    && (!s.probe.Looking? ==> s.count >= l.recovery)
  }

  /** A device at the threshold is marked healthy only while a store is still on its way, in every interleaving. */
  lemma {:induction false} RunInv(l: Limits, steps: seq<Step>)
    requires l.maxErrors > 0 && l.recovery > 0
    ensures Inv(Run(l, steps), l)
  {
    if steps == [] {
    } else {
      var s, step := Run(l, steps[..|steps| - 1]), steps[|steps| - 1];
      RunInv(l, steps[..|steps| - 1]);
      if Enabled(s, step) && step.Fail? {
        assert step.thread in s.marking + {step.thread};
      }
    }
  }

  predicate Quiescent(s: State) { s.marking == {} && s.probe.Looking? }

  /** When nobody is in the middle of anything, a device at the threshold is marked. */
  lemma ThresholdMarked(l: Limits, steps: seq<Step>)
    requires l.maxErrors > 0 && l.recovery > 0 && Quiescent(Run(l, steps))
    ensures Run(l, steps).errs >= l.maxErrors ==> !Run(l, steps).healthy
  {
    RunInv(l, steps);
  }

  /** The probe brings a device back only after enough successful answers in a row. */
  lemma RestoreEarned(l: Limits, steps: seq<Step>)
    requires l.maxErrors > 0 && l.recovery > 0 && Run(l, steps).probe.Restoring?
    ensures Streak(Run(l, steps).seen, l.recovery)
  {
    RunInv(l, steps);
  }

  /* ---------- when a device is marked ---------- */

  /** Step i of the run is taken and stores the mark. */
  predicate Marks(l: Limits, steps: seq<Step>, i: nat)
    requires i < |steps|
  {
    steps[i].MarkDown? && Enabled(Run(l, steps[..i]), steps[i])
  }

  /** Step i of the run is taken and the probe removes the mark. */
  predicate Restores(l: Limits, steps: seq<Step>, i: nat)
    requires i < |steps|
  {
    steps[i].Restore? && Enabled(Run(l, steps[..i]), steps[i])
  }

  /** Step i stored the mark and nothing removed it up to step n. */
  ghost predicate MarkStands(l: Limits, steps: seq<Step>, i: nat, n: nat)
    requires i < n <= |steps|
  {
    Marks(l, steps, i) && forall j :: i < j < n ==> !Restores(l, steps, j)
  }

  /** One step of a run. */
  lemma RunStep(l: Limits, steps: seq<Step>, n: nat)
    requires n < |steps|
    ensures var s := Run(l, steps[..n]);
            Run(l, steps[..n + 1]) == if Enabled(s, steps[n]) then Apply(s, l, steps[n]) else s
  {
    assert steps[..n + 1][..n] == steps[..n];
  }

  /** How often the probe looks. */
  function Looks(steps: seq<Step>): nat
  {
    if steps == [] then 0 else (if steps[0].Look? then 1 else 0) + Looks(steps[1..])
  }

  /**
   The probe does bring a device back: once it is marked, as many looks as are still missing, whatever the recording
   threads do in between, bring the probe to its restore, unless one of them fails.
   */
  lemma {:induction false} LooksRestore(l: Limits, steps: seq<Step>, n: nat) returns (m: nat)
    requires l.maxErrors > 0 && l.recovery > 0 && n <= |steps|
    requires !Run(l, steps[..n]).healthy && Run(l, steps[..n]).probe.Looking?
    requires Look(false) !in steps[n..] && Looks(steps[n..]) >= l.recovery - Run(l, steps[..n]).count
    ensures n < m <= |steps| && Run(l, steps[..m]).probe.Restoring? && Run(l, steps[..m] + [Restore]).healthy
    decreases |steps| - n
  {
    RunInv(l, steps[..n]);
    hide Inv;
    RunStep(l, steps, n);
    assert steps[n..][0] == steps[n] && steps[n..][1..] == steps[n + 1..];
    if Run(l, steps[..n + 1]).probe.Restoring? {
      m := n + 1;
      assert (steps[..m] + [Restore])[..m] == steps[..m];
    } else {
      m := LooksRestore(l, steps, n + 1);
    }
  }

  lemma {:induction false} MarkedAt(l: Limits, steps: seq<Step>, n: nat)
    requires n <= |steps|
    ensures !Run(l, steps[..n]).healthy <==> exists i :: 0 <= i < n && MarkStands(l, steps, i, n)
  {
    if n == 0 {
    } else {
      var k := n - 1;
      MarkedAt(l, steps, k);
      RunStep(l, steps, k);
      hide Run;
      var s := Run(l, steps[..k]);
      if Marks(l, steps, k) {
        assert MarkStands(l, steps, k, n);
      } else if Restores(l, steps, k) {
      } else {
        assert Run(l, steps[..n]).healthy == s.healthy;
        forall i | 0 <= i < k ensures MarkStands(l, steps, i, n) <==> MarkStands(l, steps, i, k) {
        }
      }
    }
  }

  /**
   A device is marked exactly if a mark was stored and the probe has not restored it since: whatever the
   recorders do besides, no answered call ever takes the mark away.
   */
  lemma MarkedExactly(l: Limits, steps: seq<Step>)
    ensures !Run(l, steps).healthy <==> exists i :: 0 <= i < |steps| && MarkStands(l, steps, i, |steps|)
  {
    assert steps[..|steps|] == steps;
    MarkedAt(l, steps, |steps|);
  }

  /** The mark may stay without the errors: one answered call clears the counter, not the flag. */
  lemma MarkedBelowThreshold(l: Limits)
    requires l.maxErrors > 0 && l.recovery > 0
    ensures var s := Run(l, [Fail(0, true), MarkDown(0), Answered(0)]); Quiescent(s) && s.errs == 0 && !s.healthy
  {
    var steps := [Fail(0, true), MarkDown(0), Answered(0)];
    RunStep(l, steps, 0);
    RunStep(l, steps, 1);
    RunStep(l, steps, 2);
    assert steps[..0] == [] && steps[..3] == steps;
    var s1, s2 := Run(l, steps[..1]), Run(l, steps[..2]);
    assert s1 == State(1, true, {0}, Looking, 0, []);
    hide Run;
    assert s1.marking - {0} == {};
    assert s2 == State(1, false, {}, Looking, 0, []);
  }

  function Failures(n: nat): seq<Step> { seq(n, _ => Fail(0, false)) }

  lemma {:induction false} FailuresRun(l: Limits, n: nat)
    requires 0 < n <= l.maxErrors
    ensures Run(l, Failures(n)) == Start.(errs := n, marking := if n == l.maxErrors then {0} else {})
  {
    var steps := Failures(n);
    assert steps[..n - 1] == Failures(n - 1);
    if n == 1 {
    } else {
      FailuresRun(l, n - 1);
    }
  }

  /** In between the threshold and its mark the device still counts as healthy: quiescence is needed. */
  lemma MarkOnItsWay(l: Limits)
    requires l.maxErrors > 0
    ensures var s := Run(l, Failures(l.maxErrors)); s.errs >= l.maxErrors && s.healthy && !Quiescent(s)
  {
    FailuresRun(l, l.maxErrors);
  }
}
