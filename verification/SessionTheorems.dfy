/** What every run of the session protocol keeps, in every interleaving. */
module SessionTheorems {
  import opened Api
  import opened SessionCheck
  import opened SessionReconcile
  import opened SessionProtocol

  // ---------- One target at a time, in index order ----------

  predicate Busy(t: TargetStatus) {
    t.state in {Initializing, Running, Finalize}
  }

  ghost predicate OneBusy(ts: seq<TargetStatus>) {
    forall i, j :: 0 <= i < j < |ts| ==> !(Busy(ts[i]) && Busy(ts[j]))
  }

  /** A target whose job failed would be set working again although one behind it may be working. */
  predicate MayOverlap(e: Setup) {
    e.jobsMayFail && exists i :: 0 <= i < |e.conf| - 1 && e.conf[i].retry > 1
  }

  /** Nothing in front of a target that is being or has been finalized is still working or waiting. */
  ghost predicate FinalizedInOrder(ts: seq<TargetStatus>) {
    forall i, j :: 0 <= i < j < |ts| && ts[j].state != Waiting ==> ts[i].state in {Success, WaitingForJob, Failure}
  }

  lemma CheckFinalizesInOrder(e: Setup, s: SessionStatus, now: int)
    requires Inv(e, s) && s.state == Finalize && FinalizedInOrder(s.targets) && !MayOverlap(e)
    ensures FinalizedInOrder(Check(s.targets, e.conf, FINALIZE_PHASE, now).targets)
  {
    CheckMeaning(s.targets, e.conf, FINALIZE_PHASE, now, Decider(s.targets, FINALIZE_PHASE, 0));
  }

  lemma StepFinalizesInOrder(e: Setup, s: SessionStatus, ev: Event, s': SessionStatus)
    requires Inv(e, s) && Step(e, s, ev, s') && !MayOverlap(e)
    requires s.state in {Finalize, Success} ==> FinalizedInOrder(s.targets)
    ensures s'.state in {Finalize, Success} ==> FinalizedInOrder(s'.targets)
  {
    if ev.Reconcile? {
      if s.state == Finalize {
        CheckFinalizesInOrder(e, s, ev.now);
      } else if Active(s.state) {
        CheckKeeps(e, s.targets, PhaseOf(s.state), ev.now);
      }
    }
  }

  lemma {:induction false} FinalizesInOrder(e: Setup, states: seq<SessionStatus>, events: seq<Event>, k: nat)
    requires Run(e, states, events) && k < |states| && !MayOverlap(e)
    ensures states[k].state in {Finalize, Success} ==> FinalizedInOrder(states[k].targets)
  {
    if k > 0 {
      FinalizesInOrder(e, states, events, k - 1);
      Reachable(e, states, events, k - 1);
      StepFinalizesInOrder(e, states[k - 1], events[k - 1], states[k]);
    }
  }

  /** One target works at a time, unless the configuration lets a failed job overlap with a later target.
      Unless a job may have failed, the list reads settled targets, then at most one that works or failed,
      then targets still to be served. */
  lemma OneAtATime(e: Setup, states: seq<SessionStatus>, events: seq<Event>, k: nat)
    requires Run(e, states, events) && k < |states|
    ensures !MayOverlap(e) || states[k].state !in {Finalize, Success} ==> OneBusy(states[k].targets)
    ensures Active(states[k].state) && (e.jobsMayFail ==> states[k].state != Finalize) ==>
              InOrder(states[k].targets, PhaseOf(states[k].state))
    ensures !MayOverlap(e) && states[k].state in {Finalize, Success} ==> FinalizedInOrder(states[k].targets)
    ensures (e.jobsMayFail ==> states[k].state != Success) ==>
              forall i :: 0 <= i < |states[k].targets| && Busy(states[k].targets[i]) ==>
                states[k].targets[i].state == states[k].state
  {
    Reachable(e, states, events, k);
    forall i: nat | i < |states[k].targets| && Busy(states[k].targets[i])
      ensures states[k].targets[i].state == states[k].state || (e.jobsMayFail && states[k].state == Success)
    {
      BusyTells(e, states[k], i);
    }
    if !MayOverlap(e) {
      FinalizesInOrder(e, states, events, k);
    }
  }

  // ---------- Retry budget ----------

  /** All one step can do to one target. */
  ghost predicate TargetMove(e: Setup, s: SessionStatus, t: TargetStatus, t': TargetStatus, i: nat)
    requires i < |e.conf|
  {
    || t' == t
    || (t.state == s.state && MayReport(t.state, t'.state) && t' == t.(state := t'.state))
    || (Active(s.state) && t.state == PhaseOf(s.state).current && t' == t.(state := s.state))
    || (Active(s.state) && t.state == Failure && t.tries < e.conf[i].retry &&
        t' == t.(state := s.state, tries := t.tries + 1, startTime := t'.startTime))
    || (t.state == WaitingForJob && t' == t.(state := Success))
    || (e.jobsMayFail && s.state in {Finalize, Success} && t.state == WaitingForJob && t' == t.(state := Failure))
    || (e.jobsMayFail && s.state == Success && t.state == Finalize && MayReport(Finalize, t'.state) &&
        t' == t.(state := t'.state))
  }

  /** The target list of a step: created once, and otherwise moved target by target. */
  ghost predicate Moves(e: Setup, s: SessionStatus, s': SessionStatus)
    requires |s.targets| <= |e.conf|
  {
    if s.state == New && s'.state == Initializing
    then exists now :: s'.targets == InitialTargets(e.conf, now)
    else
      && |s'.targets| == |s.targets|
      && forall i :: 0 <= i < |s.targets| ==> TargetMove(e, s, s.targets[i], s'.targets[i], i)
  }

  /** A status keeps describing its target, and its start time is set anew by a restart and by nothing else. */
  ghost predicate Stamped(ev: Event, t: TargetStatus, t': TargetStatus) {
    && t'.backupType == t.backupType && t'.targetName == t.targetName && t'.targetKind == t.targetKind
    && if t'.tries == t.tries then t'.startTime == t.startTime else ev.Reconcile? && t'.startTime == ev.now
  }

  lemma StepMovesTargets(e: Setup, s: SessionStatus, ev: Event, s': SessionStatus)
    requires Inv(e, s) && Step(e, s, ev, s')
    ensures Moves(e, s, s')
    ensures forall i :: 0 <= i < |s.targets| && i < |s'.targets| ==> Stamped(ev, s.targets[i], s'.targets[i])
  {
    match ev
    case Reconcile(ongoing, now) =>
      if Active(s.state) {
        var p := PhaseOf(s.state);
        CheckMeaning(s.targets, e.conf, p, now, Decider(s.targets, p, 0));
      }
    case Sidecar(i, answer) => BusyTells(e, s, i);
    case Job(i, ok) => BusyTells(e, s, i);
    case Idle =>
  }

  ghost predicate FailedAt(states: seq<SessionStatus>, i: nat, k: nat)
    requires k < |states|
  {
    i < |states[k].targets| && states[k].targets[i].state == Failure
  }

  /** How often target `i` left Failure, and how often it entered it, up to step `k`. */
  ghost function Restarts(states: seq<SessionStatus>, i: nat, k: nat): nat
    requires k < |states|
  {
    if k == 0 then 0
    else Restarts(states, i, k - 1) + if FailedAt(states, i, k - 1) && !FailedAt(states, i, k) then 1 else 0
  }

  ghost function Failures(states: seq<SessionStatus>, i: nat, k: nat): nat
    requires k < |states|
  {
    if k == 0 then 0
    else Failures(states, i, k - 1) + if !FailedAt(states, i, k - 1) && FailedAt(states, i, k) then 1 else 0
  }

  lemma {:induction false} NothingBeforeInit(e: Setup, states: seq<SessionStatus>, events: seq<Event>, i: nat, k: nat)
    requires Run(e, states, events) && k < |states| && |states[k].targets| == 0 && i < |e.conf|
    ensures Restarts(states, i, k) == Failures(states, i, k) == 0
  {
    Reachable(e, states, events, k);
    if k > 0 {
      Reachable(e, states, events, k - 1);
      StepMovesTargets(e, states[k - 1], events[k - 1], states[k]);
      NothingBeforeInit(e, states, events, i, k - 1);
    }
  }

  /** Tries are never reset between phases: a target is restarted tries - 1 times over the whole
      session, and it fails at most max(1, retry) times. */
  lemma {:induction false} RetryBudget(e: Setup, states: seq<SessionStatus>, events: seq<Event>, i: nat, k: nat)
    requires Run(e, states, events) && k < |states| && i < |states[k].targets|
    ensures i < |e.conf| && 1 <= states[k].targets[i].tries <= Max(1, e.conf[i].retry)
    ensures Restarts(states, i, k) == states[k].targets[i].tries - 1
    ensures Failures(states, i, k) == Restarts(states, i, k) + if FailedAt(states, i, k) then 1 else 0
    ensures Failures(states, i, k) <= Max(1, e.conf[i].retry)
  {
    Reachable(e, states, events, k);
    if k > 0 {
      Reachable(e, states, events, k - 1);
      StepMovesTargets(e, states[k - 1], events[k - 1], states[k]);
      if i < |states[k - 1].targets| {
        RetryBudget(e, states, events, i, k - 1);
        assert TargetMove(e, states[k - 1], states[k - 1].targets[i], states[k].targets[i], i);
      } else {
        NothingBeforeInit(e, states, events, i, k - 1);
      }
    }
  }

  // ---------- Phase barriers ----------

  /** States of a target or a session beyond the first and beyond the second barrier. */
  const PAST_FIRST := {Running, Waiting, Finalize, WaitingForJob, Success}
  const PAST_SECOND := {Finalize, WaitingForJob, Success}

  /** Some earlier state of the run had every target in `reached` at the same time. */
  ghost predicate AllHadReached(e: Setup, states: seq<SessionStatus>, k: nat, session: SessionState,
                                reached: SessionState)
    requires k <= |states|
  {
    exists m :: 0 <= m < k && states[m].state == session && AllIn(states[m].targets, e.conf, reached)
  }

  ghost predicate Somewhere(s: SessionStatus, states: set<SessionState>) {
    s.state in states || exists i :: 0 <= i < |s.targets| && s.targets[i].state in states
  }

  /** The only ways a session changes its state; leaving a phase never edits a target. */
  ghost predicate Advances(e: Setup, s: SessionStatus, s': SessionStatus)
    requires |s.targets| <= |e.conf|
  {
    || s'.state == s.state
    || (s.state == Unset && s'.state == New)
    || (s.state == New && s'.state == Initializing)
    || (s.state == Initializing && s'.state == Running && s'.targets == s.targets &&
        AllIn(s.targets, e.conf, Initialized))
    || (s.state == Running && s'.state == Finalize && s'.targets == s.targets && AllIn(s.targets, e.conf, Waiting))
    || (s.state == Finalize && s'.state == Success && s'.targets == s.targets &&
        (AllIn(s.targets, e.conf, Success) || exists k: nat :: Exhausted(s.targets, e.conf, k)))
    || (s.state in {Initializing, Running} && s'.state == Failure && s'.targets == s.targets &&
        exists k: nat :: Exhausted(s.targets, e.conf, k))
  }

  /** Advancing needs every target to be done, giving up needs one without tries left; a session starts when
      a Reconcile finds no other backup, and only then, and is stamped when it is first seen. */
  lemma StepAdvances(e: Setup, s: SessionStatus, ev: Event, s': SessionStatus)
    requires Inv(e, s) && Step(e, s, ev, s')
    ensures Advances(e, s, s')
    ensures s.state == New ==> (s'.state == Initializing <==> ev.Reconcile? && !ev.ongoing)
    ensures s.state == New && s'.state == Initializing ==> AsConfigured(s'.targets, e.conf, ev.now)
    ensures s.state == New && s'.state != Initializing ==> s' == s
    ensures s.state == Unset ==> s' == if ev.Reconcile? then s.(state := New, startTime := ev.now) else s
    ensures s.state != Unset ==> s'.startTime == s.startTime
  {
    if ev.Reconcile? && Active(s.state) {
      CheckKeeps(e, s.targets, PhaseOf(s.state), ev.now);
    }
  }

  /** No session leaves New before a Reconcile has found the guard clear. */
  lemma {:induction false} GuardHolds(e: Setup, states: seq<SessionStatus>, events: seq<Event>, k: nat)
    requires Run(e, states, events) && k < |states|
    ensures states[k].state !in {Unset, New} ==>
              exists m :: 0 <= m < k && states[m].state == New && events[m].Reconcile? && !events[m].ongoing
  {
    if k > 0 {
      GuardHolds(e, states, events, k - 1);
      Reachable(e, states, events, k - 1);
      StepAdvances(e, states[k - 1], events[k - 1], states[k]);
    }
  }

  /** In every state of every run the statuses are those of the configured targets, in order. */
  lemma {:induction false} StatusesDescribeTargets(e: Setup, states: seq<SessionStatus>, events: seq<Event>, k: nat)
    requires Run(e, states, events) && k < |states|
    ensures |states[k].targets| == if states[k].state in {Unset, New} then 0 else |e.conf|
    ensures forall i :: 0 <= i < |states[k].targets| ==> Describes(states[k].targets[i], e.conf[i])
  {
    Reachable(e, states, events, k);
    if k > 0 {
      StatusesDescribeTargets(e, states, events, k - 1);
      Reachable(e, states, events, k - 1);
      StepMovesTargets(e, states[k - 1], events[k - 1], states[k]);
      StepAdvances(e, states[k - 1], events[k - 1], states[k]);
      forall i | 0 <= i < |states[k].targets| ensures Describes(states[k].targets[i], e.conf[i]) {
        if i < |states[k - 1].targets| {
          assert Stamped(events[k - 1], states[k - 1].targets[i], states[k].targets[i]);
        }
      }
    }
  }

  /** Where a step can produce a state beyond a barrier, the session was beyond it already. */
  lemma BarrierStep(e: Setup, s: SessionStatus, s': SessionStatus)
    requires |s.targets| <= |e.conf| && Moves(e, s, s') && Advances(e, s, s')
    ensures Somewhere(s', PAST_FIRST) && !Somewhere(s, PAST_FIRST) ==>
              s.state == Initializing && AllIn(s.targets, e.conf, Initialized)
    ensures Somewhere(s', PAST_SECOND) && !Somewhere(s, PAST_SECOND) ==>
              s.state == Running && AllIn(s.targets, e.conf, Waiting)
  {
  }

  /** No target runs before all were initialized together; no target finalizes, and no session
      succeeds, before all had finished their backup together. */
  lemma {:induction false} PhaseBarriers(e: Setup, states: seq<SessionStatus>, events: seq<Event>, k: nat)
    requires Run(e, states, events) && k < |states|
    ensures Somewhere(states[k], PAST_FIRST) ==>
              AllHadReached(e, states, k, Initializing, Initialized)
    ensures Somewhere(states[k], PAST_SECOND) ==>
              AllHadReached(e, states, k, Running, Waiting)
  {
    if k > 0 {
      PhaseBarriers(e, states, events, k - 1);
      Reachable(e, states, events, k - 1);
      StepMovesTargets(e, states[k - 1], events[k - 1], states[k]);
      StepAdvances(e, states[k - 1], events[k - 1], states[k]);
      BarrierStep(e, states[k - 1], states[k]);
    }
  }

  // ---------- Outcomes ----------

  function Rank(state: SessionState): nat {
    match state
    case Unset => 5
    case New => 4
    case Initializing => 3
    case Running => 2
    case Finalize => 1
    case _ => 0
  }

  /** A session that gave up never changes again, and neither does one that succeeded, unless a
      snapshot job may still fail. */
  lemma TerminalIsAbsorbing(e: Setup, s: SessionStatus, ev: Event, s': SessionStatus)
    requires Inv(e, s) && s.state in {Success, Failure} && Step(e, s, ev, s')
    ensures s'.state == s.state
    ensures s.state == Failure || !e.jobsMayFail ==> s' == s
  {
  }

  /** Session states only move forward; a session that reached Finalize can only end in Success. */
  lemma {:induction false} ForwardOnly(e: Setup, states: seq<SessionStatus>, events: seq<Event>, k: nat, m: nat)
    requires Run(e, states, events) && k <= m < |states|
    ensures Rank(states[m].state) <= Rank(states[k].state)
    ensures states[k].state in {Finalize, Success} ==> states[m].state in {Finalize, Success}
    ensures states[k].state == Failure ==> states[m] == states[k]
    ensures states[k].state == Success && !e.jobsMayFail ==> states[m] == states[k]
  {
    if k < m {
      ForwardOnly(e, states, events, k, m - 1);
      Reachable(e, states, events, m - 1);
      StepAdvances(e, states[m - 1], events[m - 1], states[m]);
      if states[m - 1].state in {Success, Failure} {
        TerminalIsAbsorbing(e, states[m - 1], events[m - 1], states[m]);
      }
    }
  }

  ghost predicate StillWaiting(s: SessionStatus) {
    exists i :: 0 <= i < |s.targets| && s.targets[i].state == Waiting
  }

  ghost predicate Spoiled(e: Setup, s: SessionStatus) {
    exists k: nat :: Exhausted(s.targets, e.conf, k)
  }

  lemma LeftBehindStep(e: Setup, s: SessionStatus, s': SessionStatus)
    requires Inv(e, s) && Moves(e, s, s') && Advances(e, s, s') && s'.state == Success
    requires s.state == Success && StillWaiting(s) ==> Spoiled(e, s)
    ensures StillWaiting(s') ==> Spoiled(e, s')
  {
    if s.state == Success && StillWaiting(s') {
      var i :| 0 <= i < |s'.targets| && s'.targets[i].state == Waiting;
      assert TargetMove(e, s, s.targets[i], s'.targets[i], i);
      var j: nat :| Exhausted(s.targets, e.conf, j);
      assert TargetMove(e, s, s.targets[j], s'.targets[j], j);
      assert Exhausted(s'.targets, e.conf, j);
    } else if StillWaiting(s') {
      assert s'.targets == s.targets;
    }
  }

  /** A successful session leaves a target waiting only behind one that failed for the last time. */
  lemma {:induction false} LeftBehind(e: Setup, states: seq<SessionStatus>, events: seq<Event>, k: nat)
    requires Run(e, states, events) && k < |states|
    ensures states[k].state == Success && StillWaiting(states[k]) ==> Spoiled(e, states[k])
  {
    if k > 0 && states[k].state == Success {
      LeftBehind(e, states, events, k - 1);
      Reachable(e, states, events, k - 1);
      StepMovesTargets(e, states[k - 1], events[k - 1], states[k]);
      StepAdvances(e, states[k - 1], events[k - 1], states[k]);
      LeftBehindStep(e, states[k - 1], states[k]);
    }
  }

  /** Every ending is justified: a failed session has a target without tries left and never reached
      Finalize; a successful one has finalized every target up to at most one exhausted failure, and all
      the targets behind that failure had finished their backup. Even if jobs may fail, a target is left
      waiting only in a session with an exhausted one. */
  lemma OutcomesAreJustified(e: Setup, states: seq<SessionStatus>, events: seq<Event>, k: nat)
    requires Run(e, states, events) && k < |states|
    ensures states[k].state == Failure ==>
              && (GaveUp(states[k].targets, e.conf, INITIALIZING_PHASE) ||
                  GaveUp(states[k].targets, e.conf, RUNNING_PHASE))
              && forall m :: 0 <= m <= k ==> states[m].state != Finalize
    ensures states[k].state == Success ==> AllHadReached(e, states, k, Running, Waiting)
    ensures states[k].state == Success && StillWaiting(states[k]) ==> Spoiled(e, states[k])
    ensures states[k].state == Success && !e.jobsMayFail ==>
              AllIn(states[k].targets, e.conf, Success) || GaveUp(states[k].targets, e.conf, FINALIZE_PHASE)
  {
    Reachable(e, states, events, k);
    PhaseBarriers(e, states, events, k);
    LeftBehind(e, states, events, k);
    forall m: nat | m <= k && states[m].state == Finalize
      ensures states[k].state != Failure
    {
      ForwardOnly(e, states, events, m, k);
    }
  }

  // ---------- One machine, two reconcilers ----------

  /** Backup and restore sessions have exactly the same runs. */
  lemma {:induction false} SameRuns(e: Setup, states: seq<SessionStatus>, events: seq<Event>)
    ensures Run(e.(kind := Backup), states, events) <==> Run(e.(kind := Restore), states, events)
  {
    var b, r := e.(kind := Backup), e.(kind := Restore);
    forall k: nat | Run(b, states, events) && k < |events|
      ensures Step(r, states[k], events[k], states[k + 1])
    {
      Reachable(b, states, events, k);
    }
    forall k: nat | Run(r, states, events) && k < |events|
      ensures Step(b, states[k], events[k], states[k + 1])
    {
      Reachable(r, states, events, k);
    }
  }
}
