/** The session part of the BackupSession and RestoreSession reconcilers. */
module SessionReconcile {
  import opened Api
  import opened SessionCheck

  /** Which of the two reconcilers: they differ in the last case of the switch and in the pruning. */
  datatype Kind = Backup | Restore

  /** Status().Update runs only when the switch produced a state; otherwise the edits are dropped. */
  function Commit(s: SessionStatus, v: Verdict): SessionStatus {
    if v.result == Unset then s else s.(state := v.result, targets := v.targets)
  }

  /** A finalize failure is not a failure of the backup. */
  function Forgive(v: Verdict): Verdict {
    if v.result == Failure then v.(result := Success) else v
  }

  /** The stored status after one undisturbed Reconcile; `ongoing` is what isBackupOngoing answers. */
  function ReconcileStep(kind: Kind, conf: seq<Target>, s: SessionStatus, ongoing: bool, now: int): SessionStatus
    requires |s.targets| <= |conf|
  {
    match s.state
    case New =>
      if ongoing then s else s.(state := Initializing, targets := InitialTargets(conf, now))
    case Initializing => Commit(s, Check(s.targets, conf, INITIALIZING_PHASE, now))
    case Running => Commit(s, Check(s.targets, conf, RUNNING_PHASE, now))
    case Finalize => Commit(s, Forgive(Check(s.targets, conf, FINALIZE_PHASE, now)))
    case Success => s
    case Failure => s
    case Unset => s.(state := New, startTime := now)
    case _ => if kind.Backup? then s.(state := New, startTime := now) else s
  }

  /** A client's copy of a session, edited in place before it is written back. */
  class SessionObject {
    var state: SessionState
    var startTime: int
    var targets: array<TargetStatus>

    constructor (s: SessionStatus)
      ensures Status() == s && fresh(targets)
    {
      state := s.state;
      startTime := s.startTime;
      targets := new TargetStatus[|s.targets|](i requires 0 <= i < |s.targets| => s.targets[i]);
      new;
      assert targets[..] == s.targets;
    }

    ghost function Status(): SessionStatus
      reads this, targets
    {
      SessionStatus(state, startTime, targets[..])
    }
  }

  /** The status subresource as the API server holds it. */
  class StatusStore {
    var stored: SessionStatus

    constructor (s: SessionStatus)
      ensures stored == s
    {
      stored := s;
    }

    method Get() returns (session: SessionObject)
      ensures fresh(session) && fresh(session.targets) && session.Status() == stored
    {
      session := new SessionObject(stored);
    }

    method UpdateStatus(session: SessionObject)
      modifies this
      ensures stored == session.Status()
    {
      stored := SessionStatus(session.state, session.startTime, session.targets[..]);
    }
  }

  /** Reconcile of a BackupSession: `requeue` is the 30 s retry, `prune` says cleanupSessions was called. */
  method ReconcileBackup(api: StatusStore, conf: seq<Target>, ongoing: bool, now: int)
    returns (requeue: bool, prune: bool)
    requires |api.stored.targets| <= |conf|
    modifies api
    ensures api.stored == ReconcileStep(Backup, conf, old(api.stored), ongoing, now)
    ensures requeue <==> old(api.stored.state) == New && ongoing
    ensures requeue ==> api.stored == old(api.stored)
    ensures prune <==> old(api.stored.state) == Success
  {
    requeue, prune := false, false;
    var session := api.Get();
    var newState := Unset;
    match session.state {
      case New =>
        if ongoing {
          requeue := true;
          return;
        }
        var tss := InitSession(conf, now);
        session.targets := new TargetStatus[|tss|](i requires 0 <= i < |tss| => tss[i]);
        newState := Initializing;
        assert session.targets[..] == InitialTargets(conf, now);
      case Initializing => newState := CheckInitialized(session.targets, conf, now);
      case Running => newState := CheckWaiting(session.targets, conf, now);
      case Finalize =>
        newState := CheckSuccess(session.targets, conf, now);
        if newState == Failure {
          newState := Success;
        }
      case Success => prune := true;
      case Failure =>
      case _ =>
        newState := New;
        session.startTime := now;
    }
    if newState != Unset {
      session.state := newState;
      api.UpdateStatus(session);
    }
  }

  /** Reconcile of a RestoreSession. */
  method ReconcileRestore(api: StatusStore, conf: seq<Target>, ongoing: bool, now: int)
    returns (requeue: bool)
    requires |api.stored.targets| <= |conf|
    modifies api
    ensures api.stored == ReconcileStep(Restore, conf, old(api.stored), ongoing, now)
    ensures requeue <==> old(api.stored.state) == New && ongoing
    ensures requeue ==> api.stored == old(api.stored)
  {
    requeue := false;
    var session := api.Get();
    var newState := Unset;
    match session.state {
      case New =>
        if ongoing {
          requeue := true;
          return;
        }
        var tss := InitSession(conf, now);
        session.targets := new TargetStatus[|tss|](i requires 0 <= i < |tss| => tss[i]);
        newState := Initializing;
        assert session.targets[..] == InitialTargets(conf, now);
      case Initializing => newState := CheckInitialized(session.targets, conf, now);
      case Running => newState := CheckWaiting(session.targets, conf, now);
      case Finalize =>
        newState := CheckSuccess(session.targets, conf, now);
        if newState == Failure {
          newState := Success;
        }
      case Success =>
      case Failure =>
      case Unset =>
        newState := New;
        session.startTime := now;
      case _ =>
    }
    if newState != Unset {
      session.state := newState;
      api.UpdateStatus(session);
    }
  }

  /** The states only the default case of the BackupSession switch reacts to. */
  predicate Stray(state: SessionState) {
    state in {Initialized, Waiting, WaitingForJob} || state.Other?
  }

  /** The two switches do the same on a status, whatever the guard and the clock say, exactly when the
      session state is none of the stray ones: then one starts the session anew and the other waits. */
  lemma SwitchesAgreeIff(conf: seq<Target>, s: SessionStatus)
    requires |s.targets| <= |conf|
    ensures (forall ongoing, now ::
               ReconcileStep(Backup, conf, s, ongoing, now) == ReconcileStep(Restore, conf, s, ongoing, now))
            <==> !Stray(s.state)
    ensures Stray(s.state) ==> forall ongoing, now ::
              && ReconcileStep(Backup, conf, s, ongoing, now) == s.(state := New, startTime := now)
              && ReconcileStep(Restore, conf, s, ongoing, now) == s
  {
    if Stray(s.state) {
      assert ReconcileStep(Backup, conf, s, false, 0).state == New;
      assert ReconcileStep(Restore, conf, s, false, 0) == s;
    }
  }
}
