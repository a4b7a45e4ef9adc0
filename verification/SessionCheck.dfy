/** `checkSessionState`, its three wrappers and `initSession` (controllers/session.go). */
module SessionCheck {
  import opened Api

  /** The three states a call of `checkSessionState` is parameterised with. */
  datatype Phase = Phase(current: SessionState, wait: SessionState, next: SessionState)

  const INITIALIZING_PHASE := Phase(Unset, Initializing, Running)
  const RUNNING_PHASE := Phase(Initialized, Running, Finalize)
  const FINALIZE_PHASE := Phase(Waiting, Finalize, Success)

  /** No two of the states the switch distinguishes coincide, so its order does not matter. */
  predicate WellFormed(p: Phase) {
    && p.current != p.wait
    && p.current !in {Failure, WaitingForJob}
    && p.wait !in {Failure, WaitingForJob, Unset}
    && p.next !in {Failure, Unset}
    && p.next != p.wait
  }

  /** What one call leaves behind: the edited target list and the session state it asks for. */
  datatype Verdict = Verdict(targets: seq<TargetStatus>, result: SessionState)

  function Start(t: TargetStatus, p: Phase): TargetStatus {
    t.(state := p.wait)
  }

  function Restart(t: TargetStatus, p: Phase, now: int): TargetStatus {
    t.(state := p.wait, tries := t.tries + 1, startTime := now)
  }

  /** The loop from index `i` on, with the deferred override applied on the way back. */
  function CheckFrom(ts: seq<TargetStatus>, conf: seq<Target>, p: Phase, now: int, i: nat): Verdict
    requires i <= |ts| <= |conf|
    decreases |ts| - i
  {
    if i == |ts| then Verdict(ts, Unset)
    else if ts[i].state == p.current then Verdict(ts[i := Start(ts[i], p)], p.wait)
    else if ts[i].state == Failure then
      if ts[i].tries < conf[i].retry
      then Verdict(ts[i := Restart(ts[i], p, now)], p.wait)
      else Verdict(ts, Failure)
    else if ts[i].state == p.wait then Verdict(ts, Unset)
    else if ts[i].state == WaitingForJob then CheckFrom(ts, conf, p, now, i + 1).(result := p.wait)
    else if i == |ts| - 1 then Verdict(ts, p.next)
    else CheckFrom(ts, conf, p, now, i + 1)
  }

  function Check(ts: seq<TargetStatus>, conf: seq<Target>, p: Phase, now: int): Verdict
    requires |ts| <= |conf|
  {
    CheckFrom(ts, conf, p, now, 0)
  }

  /** The loop itself, editing the status slice in place; `jobPending` is the registered `defer`. */
  method CheckSessionState(tss: array<TargetStatus>, conf: seq<Target>, p: Phase, now: int)
    returns (sessionState: SessionState)
    requires tss.Length <= |conf|
    modifies tss
    ensures Verdict(tss[..], sessionState) == Check(old(tss[..]), conf, p, now)
  {
    ghost var was := tss[..];
    var jobPending := false;
    sessionState := Unset;
    var i := 0;
    while i < tss.Length
      invariant 0 <= i <= tss.Length
      invariant tss[..] == was && sessionState == Unset
      invariant Check(was, conf, p, now) ==
                var v := CheckFrom(was, conf, p, now, i); if jobPending then v.(result := p.wait) else v
    {
      var targetStatus := tss[i];
      if targetStatus.state == p.current {
        tss[i] := Start(targetStatus, p);
        sessionState := p.wait;
        break;
      } else if targetStatus.state == Failure {
        if targetStatus.tries < conf[i].retry {
          tss[i] := Restart(targetStatus, p, now);
          sessionState := p.wait;
        } else {
          sessionState := Failure;
        }
        break;
      } else if targetStatus.state == p.wait {
        break;
      } else if targetStatus.state == WaitingForJob {
        jobPending := true;
      } else if i == tss.Length - 1 {
        sessionState := p.next;
        break;
      }
      i := i + 1;
    }
    if jobPending {
      sessionState := p.wait;
    }
  }

  method CheckInitialized(tss: array<TargetStatus>, conf: seq<Target>, now: int) returns (sessionState: SessionState)
    requires tss.Length <= |conf|
    modifies tss
    ensures Verdict(tss[..], sessionState) == Check(old(tss[..]), conf, INITIALIZING_PHASE, now)
  {
    sessionState := CheckSessionState(tss, conf, Phase(Unset, Initializing, Running), now);
  }

  method CheckWaiting(tss: array<TargetStatus>, conf: seq<Target>, now: int) returns (sessionState: SessionState)
    requires tss.Length <= |conf|
    modifies tss
    ensures Verdict(tss[..], sessionState) == Check(old(tss[..]), conf, RUNNING_PHASE, now)
  {
    sessionState := CheckSessionState(tss, conf, Phase(Initialized, Running, Finalize), now);
  }

  method CheckSuccess(tss: array<TargetStatus>, conf: seq<Target>, now: int) returns (sessionState: SessionState)
    requires tss.Length <= |conf|
    modifies tss
    ensures Verdict(tss[..], sessionState) == Check(old(tss[..]), conf, FINALIZE_PHASE, now)
  {
    sessionState := CheckSessionState(tss, conf, Phase(Waiting, Finalize, Success), now);
  }

  // ---------- What the verdict means, without following the loop ----------

  /** A target the loop walks past. */
  predicate Passed(t: TargetStatus, p: Phase) {
    t.state !in {p.current, p.wait, Failure}
  }

  /** `k` is the first target the loop does not walk past, or the end of the list. */
  ghost predicate Decides(ts: seq<TargetStatus>, p: Phase, k: nat) {
    && k <= |ts|
    && (forall j :: 0 <= j < k ==> Passed(ts[j], p))
    && (k < |ts| ==> !Passed(ts[k], p))
  }

  ghost function Decider(ts: seq<TargetStatus>, p: Phase, i: nat): (k: nat)
    requires i <= |ts|
    requires forall j :: 0 <= j < i ==> Passed(ts[j], p)
    ensures Decides(ts, p, k) && i <= k
    decreases |ts| - i
  {
    if i == |ts| || !Passed(ts[i], p) then i else Decider(ts, p, i + 1)
  }

  /** A snapshot job is still running for a target in front of `k`. */
  ghost predicate JobBefore(ts: seq<TargetStatus>, k: nat)
    requires k <= |ts|
  {
    exists j :: 0 <= j < k && ts[j].state == WaitingForJob
  }

  /** The target at `k` is to be set working: it is next in line, or it failed with tries left. */
  ghost predicate Startable(ts: seq<TargetStatus>, conf: seq<Target>, p: Phase, k: nat)
    requires |ts| <= |conf|
  {
    k < |ts| && (ts[k].state == p.current || (ts[k].state == Failure && ts[k].tries < conf[k].retry))
  }

  /** The target at `k` failed and has no try left. */
  ghost predicate Exhausted(ts: seq<TargetStatus>, conf: seq<Target>, k: nat) {
    k < |ts| <= |conf| && ts[k].state == Failure && ts[k].tries >= conf[k].retry
  }

  /** At most the deciding target changes, and only into the wait state; the answer depends on that
      target alone unless a pending job in front of it masks it. */
  ghost predicate Meaning(ts: seq<TargetStatus>, conf: seq<Target>, p: Phase, now: int, k: nat,
                          masked: bool, v: Verdict)
    requires |ts| <= |conf| && k <= |ts|
  {
    && |v.targets| == |ts|
    && (forall j :: 0 <= j < |ts| && (j != k || !Startable(ts, conf, p, k)) ==> v.targets[j] == ts[j])
    && (Startable(ts, conf, p, k) ==>
          v.targets[k] ==
          if ts[k].state == Failure then ts[k].(state := p.wait, tries := ts[k].tries + 1, startTime := now)
          else ts[k].(state := p.wait))
    && v.result ==
       (if masked || Startable(ts, conf, p, k) then p.wait
        else if Exhausted(ts, conf, k) then Failure
        else if k == |ts| && |ts| > 0 then p.next
        else Unset)
  }

  lemma {:induction false} CheckFromMeaning(ts: seq<TargetStatus>, conf: seq<Target>, p: Phase, now: int,
                                            i: nat, k: nat)
    requires WellFormed(p) && i <= k <= |ts| <= |conf| && Decides(ts, p, k)
    requires i == |ts| ==> i == 0
    ensures Meaning(ts, conf, p, now, k, exists j :: i <= j < k && ts[j].state == WaitingForJob,
                    CheckFrom(ts, conf, p, now, i))
    decreases |ts| - i
  {
    if i == |ts| || i == k {
    } else if i == |ts| - 1 {
      assert ts[i].state == WaitingForJob ==> CheckFrom(ts, conf, p, now, i + 1) == Verdict(ts, Unset);
    } else {
      CheckFromMeaning(ts, conf, p, now, i + 1, k);
    }
  }

  /** The loop, its in-place edit and its `defer`, said declaratively. */
  lemma CheckMeaning(ts: seq<TargetStatus>, conf: seq<Target>, p: Phase, now: int, k: nat)
    requires WellFormed(p) && |ts| <= |conf| && Decides(ts, p, k)
    ensures Meaning(ts, conf, p, now, k, JobBefore(ts, k), Check(ts, conf, p, now))
  {
    CheckFromMeaning(ts, conf, p, now, 0, k);
  }

  /** A changed target list always comes with an answer, so the caller writes it back. */
  lemma ChangesAreReported(ts: seq<TargetStatus>, conf: seq<Target>, p: Phase, now: int)
    requires WellFormed(p) && |ts| <= |conf|
    ensures Check(ts, conf, p, now).targets != ts ==> Check(ts, conf, p, now).result == p.wait
  {
    CheckMeaning(ts, conf, p, now, Decider(ts, p, 0));
  }

  // ---------- initSession ----------

  function InitialTarget(target: Target, now: int): TargetStatus {
    TargetStatus(target.backupType, target.targetName, target.targetKind, Unset, now, 1)
  }

  function InitialTargets(targets: seq<Target>, now: int): seq<TargetStatus> {
    seq(|targets|, i requires 0 <= i < |targets| => InitialTarget(targets[i], now))
  }

  /** The status belongs to the target. */
  predicate Describes(t: TargetStatus, target: Target) {
    t.backupType == target.backupType && t.targetName == target.targetName && t.targetKind == target.targetKind
  }

  /** One status for every target, in order, that has not been started and is at its first try. */
  ghost predicate AsConfigured(tss: seq<TargetStatus>, targets: seq<Target>, now: int) {
    && |tss| == |targets|
    && forall i :: 0 <= i < |tss| ==>
         Describes(tss[i], targets[i]) && tss[i].state == Unset && tss[i].startTime == now && tss[i].tries == 1
  }

  method InitSession(targets: seq<Target>, now: int) returns (tss: seq<TargetStatus>)
    ensures tss == InitialTargets(targets, now)
    ensures AsConfigured(tss, targets, now)
  {
    tss := [];
    for i := 0 to |targets|
      invariant |tss| == i
      invariant forall j :: 0 <= j < i ==> tss[j] == InitialTarget(targets[j], now)
    {
      tss := tss + [TargetStatus(targets[i].backupType, targets[i].targetName, targets[i].targetKind, Unset, now, 1)];
    }
  }
}
