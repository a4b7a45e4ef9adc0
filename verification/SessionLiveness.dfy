/** Sessions whose parties keep acting do end: infinite behaviours of the protocol under fairness. */
module SessionLiveness {
  import opened Api
  import opened SessionCheck
  import opened SessionReconcile
  import opened SessionProtocol
  import opened SessionTheorems
  import opened SessionTermination

  /** An infinite behaviour: the stored status at every moment, and the event that comes next. */
  ghost predicate Behaviour(e: Setup, st: nat -> SessionStatus, ev: nat -> Event) {
    && st(0) == CREATED
    && forall k: nat :: Step(e, st(k), ev(k), st(k + 1))
  }

  /** From `k` on, a Reconcile that finds the guard clear comes again. */
  ghost predicate ReconciledAfter(ev: nat -> Event, k: nat) {
    exists m: nat :: k <= m && ev(m).Reconcile? && !ev(m).ongoing
  }

  ghost predicate KeepsReconciling(ev: nat -> Event) {
    forall k: nat :: ReconciledAfter(ev, k)
  }

  /** What the target does not do on its own account: it works, or a job of its own runs. */
  predicate Pending(t: TargetStatus) {
    Busy(t) || t.state == WaitingForJob
  }

  /** The sidecar or the job of target `i` reports after `k`, if one is due. */
  ghost predicate ReportedAfter(st: nat -> SessionStatus, k: nat, i: nat) {
    i < |st(k).targets| && Pending(st(k).targets[i]) ==>
      exists m: nat :: k <= m && (i < |st(m).targets| ==> st(m).targets[i] != st(k).targets[i])
  }

  ghost predicate KeepsReporting(st: nat -> SessionStatus) {
    forall k: nat, i: nat :: ReportedAfter(st, k, i)
  }

  lemma {:induction false} AlwaysInv(e: Setup, st: nat -> SessionStatus, ev: nat -> Event, k: nat)
    requires Behaviour(e, st, ev)
    ensures Inv(e, st(k))
  {
    if k > 0 {
      AlwaysInv(e, st, ev, k - 1);
      assert Step(e, st(k - 1), ev(k - 1), st(k - 1 + 1));
      StepKeepsInv(e, st(k - 1), ev(k - 1), st(k));
    }
  }

  lemma {:induction false} MeasureNeverRises(e: Setup, st: nat -> SessionStatus, ev: nat -> Event, k: nat, m: nat)
    requires Behaviour(e, st, ev) && k <= m
    ensures Measure(e, st(m)) <= Measure(e, st(k))
    ensures st(m) != st(k) ==> Measure(e, st(m)) < Measure(e, st(k))
  {
    if k < m {
      MeasureNeverRises(e, st, ev, k, m - 1);
      AlwaysInv(e, st, ev, m - 1);
      assert Step(e, st(m - 1), ev(m - 1), st(m - 1 + 1));
      if st(m) != st(m - 1) {
        StepDecreases(e, st(m - 1), ev(m - 1), st(m));
      }
    }
  }

  ghost predicate StaysFrom(st: nat -> SessionStatus, m: nat) {
    forall k: nat :: m <= k ==> st(k) == st(m)
  }

  /** The status stops changing, fair or not. */
  lemma {:induction false} ComesToRest(e: Setup, st: nat -> SessionStatus, ev: nat -> Event, k: nat)
    returns (m: nat)
    requires Behaviour(e, st, ev)
    ensures k <= m && StaysFrom(st, m)
    decreases Measure(e, st(k))
  {
    m := k;
    if !StaysFrom(st, k) {
      var j: nat :| k <= j && st(j) != st(k);
      MeasureNeverRises(e, st, ev, k, j);
      m := ComesToRest(e, st, ev, j);
    }
  }

  /** A Reconcile with a clear guard changes a session that has not ended, or something is due. */
  lemma WaitsForAReport(e: Setup, s: SessionStatus, now: int) returns (i: nat)
    requires Inv(e, s) && e.conf != [] && s.state !in {Success, Failure}
    requires ReconcileStep(e.kind, e.conf, s, false, now) == s
    ensures i < |s.targets| && Pending(s.targets[i])
  {
    var p := PhaseOf(s.state);
    var k := Decider(s.targets, p, 0);
    ReconcileWaitsIff(e, s, false, now, k);
    if k < |s.targets| && s.targets[k].state == s.state {
      i := k;
    } else {
      i :| i < k && s.targets[i].state == WaitingForJob;
    }
  }

  /** So an unfinished session at rest has a report that never comes. */
  lemma UnfinishedIsNotReported(e: Setup, st: nat -> SessionStatus, ev: nat -> Event, m: nat) returns (i: nat)
    requires Behaviour(e, st, ev) && e.conf != [] && KeepsReconciling(ev)
    requires StaysFrom(st, m) && st(m).state !in {Success, Failure}
    ensures !ReportedAfter(st, m, i)
  {
    AlwaysInv(e, st, ev, m);
    assert ReconciledAfter(ev, m);
    var r: nat :| m <= r && ev(r).Reconcile? && !ev(r).ongoing;
    assert Step(e, st(r), ev(r), st(r + 1)) && st(r) == st(m) == st(r + 1);
    i := WaitsForAReport(e, st(m), ev(r).now);
  }

  /** If Reconcile keeps running and everything that is due is reported at some time, the session ends in
      Success or Failure and then stays as it is. */
  lemma FairSessionsEnd(e: Setup, st: nat -> SessionStatus, ev: nat -> Event) returns (m: nat)
    requires Behaviour(e, st, ev) && e.conf != [] && KeepsReconciling(ev) && KeepsReporting(st)
    ensures st(m).state in {Success, Failure} && StaysFrom(st, m)
  {
    m := ComesToRest(e, st, ev, 0);
    if st(m).state !in {Success, Failure} {
      var i := UnfinishedIsNotReported(e, st, ev, m);
    }
  }
}
