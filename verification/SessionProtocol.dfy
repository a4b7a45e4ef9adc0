/** The session protocol as a transition system: the controller, one sidecar per target and the
    snapshot jobs act in any order on the stored status. */
module SessionProtocol {
  import opened Api
  import opened SessionCheck
  import opened SessionReconcile

  /** Which reconciler runs, and with what configuration. Snapshot jobs succeed unless `jobsMayFail`. */
  datatype Setup = Setup(kind: Kind, conf: seq<Target>, jobsMayFail: bool)

  datatype Event =
    | Reconcile(ongoing: bool, now: int)
    | Sidecar(target: nat, answer: SessionState)
    | Job(target: nat, ok: bool)
    | Idle

  /** What the sidecar of a busy target may report. */
  predicate MayReport(state: SessionState, answer: SessionState) {
    match state
    case Initializing => answer in {Initialized, Failure}
    case Running => answer in {Waiting, Failure}
    case Finalize => answer in {Success, Failure, WaitingForJob}
    case _ => false
  }

  function Report(s: SessionStatus, i: nat, answer: SessionState): SessionStatus
    requires i < |s.targets|
  {
    s.(targets := s.targets[i := s.targets[i].(state := answer)])
  }

  /** Reconcile indexes the configured targets by status position, so it needs one for every status. */
  predicate Step(e: Setup, s: SessionStatus, ev: Event, s': SessionStatus) {
    match ev
    case Reconcile(ongoing, now) => |s.targets| <= |e.conf| && s' == ReconcileStep(e.kind, e.conf, s, ongoing, now)
    case Sidecar(i, answer) =>
      i < |s.targets| && MayReport(s.targets[i].state, answer) && s' == Report(s, i, answer)
    case Job(i, ok) =>
      && i < |s.targets| && s.targets[i].state == WaitingForJob && (ok || e.jobsMayFail)
      && s' == Report(s, i, if ok then Success else Failure)
    case Idle => s' == s
  }

  const CREATED := SessionStatus(Unset, 0, [])

  /** A finite run from a session that has just been created. */
  ghost predicate Run(e: Setup, states: seq<SessionStatus>, events: seq<Event>) {
    && |states| == |events| + 1
    && states[0] == CREATED
    && (forall k :: 0 <= k < |events| ==> Step(e, states[k], events[k], states[k + 1]))
  }

  // ---------- The invariant ----------

  /** The phase a session state stands for. */
  predicate Active(state: SessionState) {
    state in {Initializing, Running, Finalize}
  }

  function PhaseOf(state: SessionState): (p: Phase)
    requires Active(state)
    ensures WellFormed(p) && p.wait == state
  {
    match state
    case Initializing => INITIALIZING_PHASE
    case Running => RUNNING_PHASE
    case _ => FINALIZE_PHASE
  }

  /** The state a target ends a phase in, and starts the next one from. */
  function DoneState(p: Phase): SessionState {
    match p.wait
    case Initializing => Initialized
    case Running => Waiting
    case _ => Success
  }

  predicate Settled(t: TargetStatus, p: Phase) {
    t.state == DoneState(p) || (p == FINALIZE_PHASE && t.state == WaitingForJob)
  }

  /** Targets are served in index order: whatever stands in front of a target that has left the
      current state is settled. */
  ghost predicate InOrder(ts: seq<TargetStatus>, p: Phase) {
    forall i, j :: 0 <= i < j < |ts| && ts[j].state != p.current ==> Settled(ts[i], p)
  }

  ghost predicate Vocabulary(ts: seq<TargetStatus>, p: Phase) {
    forall i :: 0 <= i < |ts| ==>
      ts[i].state in {p.current, p.wait, Failure} || Settled(ts[i], p)
  }

  /** The status list of a session that gave up on target `k`. */
  ghost predicate GaveUpAt(ts: seq<TargetStatus>, conf: seq<Target>, p: Phase, k: nat) {
    && Exhausted(ts, conf, k)
    && (forall j :: 0 <= j < k ==> ts[j].state == DoneState(p))
    && (forall j :: k < j < |ts| ==> ts[j].state == p.current)
  }

  ghost predicate GaveUp(ts: seq<TargetStatus>, conf: seq<Target>, p: Phase) {
    exists k: nat :: GaveUpAt(ts, conf, p, k)
  }

  ghost predicate AllIn(ts: seq<TargetStatus>, conf: seq<Target>, state: SessionState) {
    |ts| == |conf| && forall i :: 0 <= i < |ts| ==> ts[i].state == state
  }

  function Max(a: int, b: int): int { if a < b then b else a }

  ghost predicate WithinBudget(ts: seq<TargetStatus>, conf: seq<Target>) {
    |ts| <= |conf| && forall i :: 0 <= i < |ts| ==> 1 <= ts[i].tries <= Max(1, conf[i].retry)
  }

  ghost predicate Inv(e: Setup, s: SessionStatus) {
    && |s.targets| == (if s.state in {Unset, New} then 0 else |e.conf|)
    && WithinBudget(s.targets, e.conf)
    && match s.state
       case Unset => true
       case New => true
       case Initializing => Vocabulary(s.targets, INITIALIZING_PHASE) && InOrder(s.targets, INITIALIZING_PHASE)
       case Running => Vocabulary(s.targets, RUNNING_PHASE) && InOrder(s.targets, RUNNING_PHASE)
       case Finalize =>
         Vocabulary(s.targets, FINALIZE_PHASE) && (!e.jobsMayFail ==> InOrder(s.targets, FINALIZE_PHASE))
       case Success =>
         && Vocabulary(s.targets, FINALIZE_PHASE)
         && (!e.jobsMayFail ==>
               AllIn(s.targets, e.conf, Success) || GaveUp(s.targets, e.conf, FINALIZE_PHASE))
       case Failure =>
         GaveUp(s.targets, e.conf, INITIALIZING_PHASE) || GaveUp(s.targets, e.conf, RUNNING_PHASE)
       case _ => false
  }

  /** The list a check leaves behind keeps budget, vocabulary and order. */
  lemma VerdictKeepsList(ts: seq<TargetStatus>, conf: seq<Target>, p: Phase, now: int, k: nat, v: Verdict)
    requires p in {INITIALIZING_PHASE, RUNNING_PHASE, FINALIZE_PHASE}
    requires |ts| == |conf| && Decides(ts, p, k) && Meaning(ts, conf, p, now, k, JobBefore(ts, k), v)
    requires WithinBudget(ts, conf) && Vocabulary(ts, p)
    ensures WithinBudget(v.targets, conf) && Vocabulary(v.targets, p)
    ensures InOrder(ts, p) ==> InOrder(v.targets, p)
  {
  }

  /** The answer of a check: stay, advance when every target is done, or give up on an exhausted one. */
  lemma VerdictAnswers(ts: seq<TargetStatus>, conf: seq<Target>, p: Phase, now: int, k: nat, v: Verdict)
    requires p in {INITIALIZING_PHASE, RUNNING_PHASE, FINALIZE_PHASE}
    requires |ts| == |conf| && Decides(ts, p, k) && Meaning(ts, conf, p, now, k, JobBefore(ts, k), v)
    requires Vocabulary(ts, p)
    ensures v.result in {Unset, p.wait, p.next, Failure}
    ensures v.result in {Unset, p.next, Failure} ==> v.targets == ts
    ensures v.result == p.next ==> |ts| > 0 && AllIn(ts, conf, DoneState(p))
    ensures v.result == Failure ==> Exhausted(ts, conf, k)
    ensures v.result == Failure && InOrder(ts, p) ==> GaveUpAt(ts, conf, p, k)
  {
  }

  /** One check of an active session keeps the order and either stays, advances or gives up. */
  lemma CheckKeeps(e: Setup, ts: seq<TargetStatus>, p: Phase, now: int)
    requires p in {INITIALIZING_PHASE, RUNNING_PHASE, FINALIZE_PHASE}
    requires |ts| == |e.conf| && WithinBudget(ts, e.conf) && Vocabulary(ts, p)
    ensures var v := Check(ts, e.conf, p, now);
            && |v.targets| == |ts| && WithinBudget(v.targets, e.conf) && Vocabulary(v.targets, p)
            && (InOrder(ts, p) ==> InOrder(v.targets, p))
            && v.result in {Unset, p.wait, p.next, Failure}
            && (v.result in {Unset, p.next, Failure} ==> v.targets == ts)
            && (v.result == p.next ==> |ts| > 0 && AllIn(ts, e.conf, DoneState(p)))
            && (v.result == Failure ==> exists k: nat :: Exhausted(ts, e.conf, k))
            && (v.result == Failure && InOrder(ts, p) ==> GaveUp(ts, e.conf, p))
  {
    var k := Decider(ts, p, 0);
    var v := Check(ts, e.conf, p, now);
    CheckMeaning(ts, e.conf, p, now, k);
    VerdictKeepsList(ts, e.conf, p, now, k, v);
    VerdictAnswers(ts, e.conf, p, now, k, v);
  }

  /** A report settles a working target or fails it, so the order survives unless a settled target fails. */
  lemma ReportKeeps(ts: seq<TargetStatus>, p: Phase, i: nat, answer: SessionState)
    requires p in {INITIALIZING_PHASE, RUNNING_PHASE, FINALIZE_PHASE}
    requires i < |ts| && Vocabulary(ts, p)
    requires answer == Failure || Settled(ts[i].(state := answer), p)
    ensures var ts' := ts[i := ts[i].(state := answer)];
            && Vocabulary(ts', p)
            && (InOrder(ts, p) && ts[i].state != p.current && (answer == Failure ==> !Settled(ts[i], p)) ==>
                  InOrder(ts', p))
  {
  }

  lemma ReconcileKeepsInv(e: Setup, s: SessionStatus, ongoing: bool, now: int)
    requires Inv(e, s)
    ensures Inv(e, ReconcileStep(e.kind, e.conf, s, ongoing, now))
  {
    if Active(s.state) {
      CheckKeeps(e, s.targets, PhaseOf(s.state), now);
    }
  }

  /** A working target tells the state of the session, except for what a failed job may leave over. */
  lemma BusyTells(e: Setup, s: SessionStatus, i: nat)
    requires Inv(e, s) && i < |s.targets|
    ensures s.targets[i].state in {Initializing, Running} ==> s.targets[i].state == s.state
    ensures s.targets[i].state in {Finalize, WaitingForJob} ==>
              s.state == Finalize || (s.state == Success && e.jobsMayFail)
  {
  }

  lemma StepKeepsInv(e: Setup, s: SessionStatus, ev: Event, s': SessionStatus)
    requires Inv(e, s) && Step(e, s, ev, s')
    ensures Inv(e, s')
  {
    match ev
    case Reconcile(ongoing, now) => ReconcileKeepsInv(e, s, ongoing, now);
    case Sidecar(i, answer) =>
      BusyTells(e, s, i);
      ReportKeeps(s.targets, PhaseOf(s.targets[i].state), i, answer);
    case Job(i, ok) =>
      BusyTells(e, s, i);
      ReportKeeps(s.targets, FINALIZE_PHASE, i, if ok then Success else Failure);
    case Idle =>
  }

  /** Every state of every run satisfies the invariant. */
  lemma {:induction false} Reachable(e: Setup, states: seq<SessionStatus>, events: seq<Event>, k: nat)
    requires Run(e, states, events) && k < |states|
    ensures Inv(e, states[k])
  {
    if k > 0 {
      Reachable(e, states, events, k - 1);
      StepKeepsInv(e, states[k - 1], events[k - 1], states[k]);
    }
  }
}
