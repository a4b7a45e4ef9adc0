/** What really happens in some run: every way of giving up, targets left behind in a successful session,
    and two targets working at once. */
module SessionOutcomes {
  import opened Api
  import opened SessionCheck
  import opened SessionReconcile
  import opened SessionProtocol
  import opened SessionTheorems
  import opened SessionTermination

  /** Some run ends in `s`. */
  ghost predicate Arrives(e: Setup, s: SessionStatus) {
    exists states, events :: Run(e, states, events) && states[|events|] == s
  }

  lemma Onward(e: Setup, s: SessionStatus, ev: Event, s': SessionStatus)
    requires Arrives(e, s) && Step(e, s, ev, s')
    ensures Arrives(e, s')
  {
    var states, events :| Run(e, states, events) && states[|events|] == s;
    assert Run(e, states + [s'], events + [ev]);
  }

  lemma ArrivesInv(e: Setup, s: SessionStatus)
    requires Arrives(e, s)
    ensures Inv(e, s)
  {
    var states, events :| Run(e, states, events) && states[|events|] == s;
    Reachable(e, states, events, |events|);
  }

  // ---------- A run to any target in any phase ----------

  predicate IsPhase(p: Phase) {
    p in {INITIALIZING_PHASE, RUNNING_PHASE, FINALIZE_PHASE}
  }

  /** The session in phase `p` with the targets before `k` done, target `k` as given, and those behind it
      still to be served. */
  function Line(e: Setup, p: Phase, k: nat, state: SessionState, tries: int): SessionStatus {
    SessionStatus(p.wait, 1, seq(|e.conf|, i requires 0 <= i < |e.conf| =>
      InitialTarget(e.conf[i], 1).(
        state := if i < k then DoneState(p) else if i == k then state else p.current,
        tries := if i == k then tries else 1)))
  }

  /** A Reconcile of an active session, by what the loop decides on. */
  lemma Reconciled(e: Setup, s: SessionStatus, k: nat) returns (s': SessionStatus)
    requires Arrives(e, s) && Active(s.state) && |s.targets| == |e.conf|
    requires Decides(s.targets, PhaseOf(s.state), k)
    ensures Arrives(e, s') && s' == ReconcileStep(e.kind, e.conf, s, false, 1)
    ensures Meaning(s.targets, e.conf, PhaseOf(s.state), 1, k, JobBefore(s.targets, k),
                    Check(s.targets, e.conf, PhaseOf(s.state), 1))
  {
    s' := ReconcileStep(e.kind, e.conf, s, false, 1);
    CheckMeaning(s.targets, e.conf, PhaseOf(s.state), 1, k);
    Onward(e, s, Reconcile(false, 1), s');
  }

  /** The controller sets target `k` working, for the first time or again. */
  lemma Starts(e: Setup, p: Phase, k: nat, state: SessionState, tries: int)
    requires IsPhase(p) && k < |e.conf| && Arrives(e, Line(e, p, k, state, tries))
    requires state == p.current || (state == Failure && tries < e.conf[k].retry)
    ensures Arrives(e, Line(e, p, k, p.wait, if state == Failure then tries + 1 else tries))
  {
    var s := Line(e, p, k, state, tries);
    var s' := Reconciled(e, s, k);
    assert s'.targets == Line(e, p, k, p.wait, if state == Failure then tries + 1 else tries).targets;
  }

  lemma Reports(e: Setup, p: Phase, k: nat, tries: int, answer: SessionState)
    requires IsPhase(p) && k < |e.conf| && Arrives(e, Line(e, p, k, p.wait, tries)) && MayReport(p.wait, answer)
    ensures Arrives(e, Line(e, p, k, answer, tries))
  {
    var s := Line(e, p, k, p.wait, tries);
    assert Report(s, k, answer).targets == Line(e, p, k, answer, tries).targets;
    Onward(e, s, Sidecar(k, answer), Report(s, k, answer));
  }

  /** When all targets are done the next phase begins. */
  lemma NextPhase(e: Setup, p: Phase, q: Phase)
    requires IsPhase(p) && IsPhase(q) && q.current == DoneState(p) && e.conf != []
    requires Arrives(e, Line(e, p, |e.conf| - 1, DoneState(p), 1))
    ensures Arrives(e, Line(e, q, 0, q.current, 1))
  {
    var s := Line(e, p, |e.conf| - 1, DoneState(p), 1);
    var s' := Reconciled(e, s, |e.conf|);
    assert s'.targets == Line(e, q, 0, q.current, 1).targets;
  }

  lemma Created(e: Setup)
    requires e.conf != []
    ensures Arrives(e, Line(e, INITIALIZING_PHASE, 0, Unset, 1))
  {
    var tick, s := Reconcile(false, 1), SessionStatus(New, 1, []);
    assert Run(e, [CREATED], []);
    Onward(e, CREATED, tick, s);
    var s' := ReconcileStep(e.kind, e.conf, s, false, 1);
    assert s'.targets == Line(e, INITIALIZING_PHASE, 0, Unset, 1).targets;
    Onward(e, s, tick, s');
  }

  /** Every target gets to work in every phase, at its first try. */
  lemma {:induction false} Serves(e: Setup, p: Phase, k: nat)
    requires IsPhase(p) && k < |e.conf|
    ensures Arrives(e, Line(e, p, k, p.wait, 1))
    decreases Rank(INITIALIZING_PHASE.wait) - Rank(p.wait), k
  {
    if k > 0 {
      Serves(e, p, k - 1);
      Reports(e, p, k - 1, 1, DoneState(p));
      assert Line(e, p, k - 1, DoneState(p), 1).targets == Line(e, p, k, p.current, 1).targets;
    } else if p == INITIALIZING_PHASE {
      Created(e);
    } else {
      var before := if p == RUNNING_PHASE then INITIALIZING_PHASE else RUNNING_PHASE;
      Serves(e, before, |e.conf| - 1);
      Reports(e, before, |e.conf| - 1, 1, DoneState(before));
      NextPhase(e, before, p);
    }
    Starts(e, p, k, p.current, 1);
  }

  // ---------- Giving up ----------

  /** How a session ends that gives up in phase `p`. */
  function EndOf(p: Phase): SessionState {
    if p == FINALIZE_PHASE then Success else Failure
  }

  lemma GivesUp(e: Setup, p: Phase, k: nat, tries: int) returns (s: SessionStatus)
    requires IsPhase(p) && k < |e.conf| && Arrives(e, Line(e, p, k, Failure, tries)) && tries >= e.conf[k].retry
    ensures Arrives(e, s) && s.state == EndOf(p) && GaveUpAt(s.targets, e.conf, p, k)
  {
    var line := Line(e, p, k, Failure, tries);
    assert Exhausted(line.targets, e.conf, k) && !JobBefore(line.targets, k);
    s := Reconciled(e, line, k);
    assert s.targets == line.targets;
  }

  /** A target that fails whenever it is tried uses up its tries, and then the session ends. */
  lemma {:induction false} FailsToTheEnd(e: Setup, p: Phase, k: nat, tries: int) returns (s: SessionStatus)
    requires IsPhase(p) && k < |e.conf| && Arrives(e, Line(e, p, k, p.wait, tries))
    ensures Arrives(e, s) && s.state == EndOf(p) && GaveUpAt(s.targets, e.conf, p, k)
    decreases e.conf[k].retry - tries
  {
    Reports(e, p, k, tries, Failure);
    if tries < e.conf[k].retry {
      Starts(e, p, k, Failure, tries);
      s := FailsToTheEnd(e, p, k, tries + 1);
    } else {
      s := GivesUp(e, p, k, tries);
    }
  }

  /** In every phase the session can give up on every target. */
  lemma GivesUpAnywhere(e: Setup, p: Phase, k: nat) returns (s: SessionStatus)
    requires IsPhase(p) && k < |e.conf|
    ensures Arrives(e, s) && s.state == EndOf(p) && GaveUpAt(s.targets, e.conf, p, k)
  {
    Serves(e, p, k);
    s := FailsToTheEnd(e, p, k, 1);
  }

  // ---------- Which outcomes occur ----------

  lemma OneTargetIsNotLeftBehind(e: Setup, s: SessionStatus)
    requires Arrives(e, s) && s.state == Success && StillWaiting(s)
    ensures |e.conf| >= 2
  {
    var states, events :| Run(e, states, events) && states[|events|] == s;
    LeftBehind(e, states, events, |events|);
    ArrivesInv(e, s);
    var i :| 0 <= i < |s.targets| && s.targets[i].state == Waiting;
    var k: nat :| Exhausted(s.targets, e.conf, k);
    assert i != k;
  }

  lemma EndsNeedTargets(e: Setup, s: SessionStatus)
    requires Arrives(e, s) && s.state in {Success, Failure}
    ensures e.conf != []
  {
    var states, events :| Run(e, states, events) && states[|events|] == s;
    if e.conf == [] {
      NoTargetsNoEnd(e, states, events, |events|);
    }
  }

  lemma AllSucceed(e: Setup) returns (s: SessionStatus)
    requires e.conf != []
    ensures Arrives(e, s) && s.state == Success && AllIn(s.targets, e.conf, Success)
  {
    var last := |e.conf| - 1;
    Serves(e, FINALIZE_PHASE, last);
    Reports(e, FINALIZE_PHASE, last, 1, Success);
    s := Reconciled(e, Line(e, FINALIZE_PHASE, last, Success, 1), |e.conf|);
  }

  /** With a target a session can fail and can finalize everything; with two it can also succeed although
      a target was never finalized, and with fewer it cannot. */
  lemma OutcomesOccurIff(e: Setup)
    ensures (exists s :: Arrives(e, s) && s.state == Failure) <==> e.conf != []
    ensures (exists s :: Arrives(e, s) && s.state == Success && AllIn(s.targets, e.conf, Success)) <==> e.conf != []
    ensures (exists s :: Arrives(e, s) && s.state == Success && StillWaiting(s)) <==> |e.conf| >= 2
  {
    if e.conf != [] {
      var f := GivesUpAnywhere(e, INITIALIZING_PHASE, 0);
      var a := AllSucceed(e);
    }
    if |e.conf| >= 2 {
      var w := GivesUpAnywhere(e, FINALIZE_PHASE, 0);
      ArrivesInv(e, w);
      assert w.targets[1].state == Waiting;
    }
    forall s | Arrives(e, s) && s.state in {Success, Failure} ensures e.conf != [] {
      EndsNeedTargets(e, s);
    }
    forall s | Arrives(e, s) && s.state == Success && StillWaiting(s) ensures |e.conf| >= 2 {
      OneTargetIsNotLeftBehind(e, s);
    }
  }

  // ---------- Two targets at once ----------

  /** While the job of target `k` runs, the next target is already being finalized. */
  lemma HandsOver(e: Setup, k: nat) returns (s: SessionStatus)
    requires k + 1 < |e.conf|
    ensures Arrives(e, s) && s.state == Finalize && |s.targets| == |e.conf|
    ensures forall j :: 0 <= j < k ==> s.targets[j].state == Success
    ensures s.targets[k].state == WaitingForJob && s.targets[k].tries == 1
    ensures s.targets[k + 1].state == Finalize
  {
    Serves(e, FINALIZE_PHASE, k);
    Reports(e, FINALIZE_PHASE, k, 1, WaitingForJob);
    s := Line(e, FINALIZE_PHASE, k, WaitingForJob, 1);
    assert s.targets[k].state == WaitingForJob;
    s := Reconciled(e, s, k + 1);
  }

  /** If that job fails and a try is left, both work. */
  lemma Overlaps(e: Setup, k: nat) returns (s: SessionStatus)
    requires k + 1 < |e.conf| && e.jobsMayFail && e.conf[k].retry > 1
    ensures Arrives(e, s) && !OneBusy(s.targets)
  {
    var w := HandsOver(e, k);
    var f := Report(w, k, Failure);
    Onward(e, w, Job(k, false), f);
    s := Reconciled(e, f, k);
    assert Busy(s.targets[k]) && Busy(s.targets[k + 1]);
  }

  /** A configuration never has two targets working at once if and only if its jobs cannot fail or no
      target but the last may be tried again. */
  lemma OneAtATimeIff(e: Setup)
    ensures (forall s :: Arrives(e, s) ==> OneBusy(s.targets)) <==>
            !e.jobsMayFail || forall i :: 0 <= i < |e.conf| - 1 ==> e.conf[i].retry <= 1
  {
    if MayOverlap(e) {
      var k: nat :| k < |e.conf| - 1 && e.conf[k].retry > 1;
      var s := Overlaps(e, k);
    } else {
      forall s | Arrives(e, s) ensures OneBusy(s.targets) {
        var states, events :| Run(e, states, events) && states[|events|] == s;
        OneAtATime(e, states, events, |events|);
      }
    }
  }
}
