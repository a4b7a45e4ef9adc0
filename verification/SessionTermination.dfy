/** Every run of the session protocol comes to an end, and only in Success or Failure. */
module SessionTermination {
  import opened Api
  import opened SessionCheck
  import opened SessionReconcile
  import opened SessionProtocol
  import opened SessionTheorems

  // ---------- The measure ----------

  function Sum(xs: seq<nat>): nat {
    if xs == [] then 0 else xs[0] + Sum(xs[1..])
  }

  lemma {:induction false} SumBelow(xs: seq<nat>, ys: seq<nat>)
    requires |xs| == |ys| && forall i :: 0 <= i < |xs| ==> xs[i] <= ys[i]
    ensures Sum(xs) <= Sum(ys)
    ensures xs != ys ==> Sum(xs) < Sum(ys)
  {
    if xs != [] {
      SumBelow(xs[1..], ys[1..]);
      assert xs == [xs[0]] + xs[1..] && ys == [ys[0]] + ys[1..];
    }
  }

  lemma {:induction false} SumUpdate(xs: seq<nat>, i: nat, v: nat)
    requires i < |xs|
    ensures Sum(xs[i := v]) == Sum(xs) - xs[i] + v
  {
    if i > 0 {
      SumUpdate(xs[1..], i - 1, v);
      assert xs[i := v][1..] == xs[1..][i - 1 := v];
    } else {
      assert xs[i := v][1..] == xs[1..];
    }
  }

  /** Steps one restart costs: failing and starting again, and handing over to a job once more if
      that job may fail in turn. */
  function RestartCost(e: Setup): nat {
    if e.jobsMayFail then 3 else 2
  }

  /** Steps a target has still to go, not counting restarts; a failed one counts by the phase it failed in. */
  function Distance(e: Setup, session: SessionState, state: SessionState): nat {
    match state
    case Unset => 7
    case Initializing => 6
    case Initialized => 5
    case Running => 4
    case Waiting => 3
    case Finalize => 2
    case WaitingForJob => 1
    case Failure =>
      (match session
       case Initializing => 5
       case Running => 3
       case Finalize => 3 - RestartCost(e)
       case _ => 0)
    case _ => 0
  }

  function TriesLeft(tries: int, retry: int): nat {
    Max(0, Max(1, retry) - tries)
  }

  function TargetWeight(e: Setup, session: SessionState, t: TargetStatus, retry: int): nat {
    Distance(e, session, t.state) + RestartCost(e) * TriesLeft(t.tries, retry)
  }

  function Weights(e: Setup, s: SessionStatus): seq<nat> {
    seq(|e.conf|, i requires 0 <= i < |e.conf| =>
      if i < |s.targets| then TargetWeight(e, s.state, s.targets[i], e.conf[i].retry)
      else 7 + RestartCost(e) * TriesLeft(1, e.conf[i].retry))
  }

  function Measure(e: Setup, s: SessionStatus): nat {
    Rank(s.state) + Sum(Weights(e, s))
  }

  /** 5 + sum over the targets of 7 + 2 * max(0, retry - 1), with 3 for 2 if jobs may fail. */
  function Bound(e: Setup): nat {
    5 + Sum(seq(|e.conf|, i requires 0 <= i < |e.conf| => 7 + RestartCost(e) * Max(0, e.conf[i].retry - 1)))
  }

  lemma TargetWeighsLess(e: Setup, s: SessionStatus, t: TargetStatus, t': TargetStatus, i: nat)
    requires i < |e.conf| && TargetMove(e, s, t, t', i) && 1 <= t.tries <= Max(1, e.conf[i].retry)
    ensures TargetWeight(e, s.state, t', e.conf[i].retry) <= TargetWeight(e, s.state, t, e.conf[i].retry)
    ensures t' != t ==> TargetWeight(e, s.state, t', e.conf[i].retry) < TargetWeight(e, s.state, t, e.conf[i].retry)
  {
  }

  /** While the session keeps its state, a move of some target makes the sum smaller. */
  lemma MovesWeighLess(e: Setup, s: SessionStatus, s': SessionStatus)
    requires Inv(e, s) && Moves(e, s, s') && s'.state == s.state
    ensures s'.targets != s.targets ==> Sum(Weights(e, s')) < Sum(Weights(e, s))
  {
    forall i | 0 <= i < |s.targets|
      ensures Weights(e, s')[i] <= Weights(e, s)[i]
      ensures s'.targets[i] != s.targets[i] ==> Weights(e, s')[i] < Weights(e, s)[i]
    {
      assert TargetMove(e, s, s.targets[i], s'.targets[i], i);
      TargetWeighsLess(e, s, s.targets[i], s'.targets[i], i);
    }
    SumBelow(Weights(e, s'), Weights(e, s));
    if s'.targets != s.targets {
      var i :| 0 <= i < |s.targets| && s'.targets[i] != s.targets[i];
      assert Weights(e, s')[i] < Weights(e, s)[i];
    }
  }

  lemma AdvancingWeighsNoMore(e: Setup, s: SessionStatus, s': SessionStatus)
    requires Inv(e, s) && Moves(e, s, s') && Advances(e, s, s') && s'.state != s.state
    ensures Sum(Weights(e, s')) <= Sum(Weights(e, s)) && Rank(s'.state) < Rank(s.state)
  {
    SumBelow(Weights(e, s'), Weights(e, s));
  }

  /** Every step that changes the stored status, whoever takes it, decreases the measure. */
  lemma StepDecreases(e: Setup, s: SessionStatus, ev: Event, s': SessionStatus)
    requires Inv(e, s) && Step(e, s, ev, s') && s' != s
    ensures Measure(e, s') < Measure(e, s)
  {
    StepMovesTargets(e, s, ev, s');
    StepAdvances(e, s, ev, s');
    if s'.state == s.state {
      MovesWeighLess(e, s, s');
    } else {
      AdvancingWeighsNoMore(e, s, s');
    }
  }

  /** How many of the first `k` steps changed the stored status. */
  ghost function Changes(states: seq<SessionStatus>, k: nat): nat
    requires k < |states|
  {
    if k == 0 then 0 else Changes(states, k - 1) + if states[k] != states[k - 1] then 1 else 0
  }

  /** No interleaving changes the status more often than the bound. */
  lemma {:induction false} RunsTerminate(e: Setup, states: seq<SessionStatus>, events: seq<Event>, k: nat)
    requires Run(e, states, events) && k < |states|
    ensures Changes(states, k) + Measure(e, states[k]) <= Bound(e)
  {
    if k == 0 {
      assert Weights(e, CREATED) ==
             seq(|e.conf|, i requires 0 <= i < |e.conf| => 7 + RestartCost(e) * Max(0, e.conf[i].retry - 1));
    } else {
      RunsTerminate(e, states, events, k - 1);
      Reachable(e, states, events, k - 1);
      if states[k] != states[k - 1] {
        StepDecreases(e, states[k - 1], events[k - 1], states[k]);
      }
    }
  }

  // ---------- Deadlock freedom ----------

  /** A check of an active session leaves the status alone exactly when there is no target at all, the
      deciding target is still working, or a pending job holds back an advance or a failure. */
  lemma ReconcileWaitsIff(e: Setup, s: SessionStatus, ongoing: bool, now: int, k: nat)
    requires Inv(e, s) && Active(s.state) && Decides(s.targets, PhaseOf(s.state), k)
    ensures ReconcileStep(e.kind, e.conf, s, ongoing, now) == s <==>
              || s.targets == []
              || (k < |s.targets| && s.targets[k].state == s.state)
              || (JobBefore(s.targets, k) && !Startable(s.targets, e.conf, PhaseOf(s.state), k))
  {
    var p := PhaseOf(s.state);
    CheckMeaning(s.targets, e.conf, p, now, k);
    assert p.next != s.state;
  }

  /** Some event changes the status of any session that has not ended. */
  lemma Progress(e: Setup, s: SessionStatus) returns (ev: Event, s': SessionStatus)
    requires Inv(e, s) && e.conf != [] && s.state !in {Success, Failure}
    ensures Step(e, s, ev, s') && s' != s
  {
    ev := Reconcile(false, s.startTime + 1);
    s' := ReconcileStep(e.kind, e.conf, s, false, s.startTime + 1);
    if s' == s {
      var p := PhaseOf(s.state);
      var k := Decider(s.targets, p, 0);
      ReconcileWaitsIff(e, s, false, s.startTime + 1, k);
      if k < |s.targets| && s.targets[k].state == s.state {
        ev, s' := Sidecar(k, Failure), Report(s, k, Failure);
        assert s'.targets[k] != s.targets[k];
      } else {
        var j :| 0 <= j < k && s.targets[j].state == WaitingForJob;
        ev, s' := Job(j, true), Report(s, j, Success);
        assert s'.targets[j] != s.targets[j];
      }
    }
  }

  ghost predicate Stuck(e: Setup, s: SessionStatus) {
    forall ev, s' :: Step(e, s, ev, s') ==> s' == s
  }

  /** A run that nothing can continue has ended, and nothing continues a run that has ended. */
  lemma StuckIffEnded(e: Setup, states: seq<SessionStatus>, events: seq<Event>)
    requires Run(e, states, events) && e.conf != []
    ensures Stuck(e, states[|events|]) ==> states[|events|].state in {Success, Failure}
    ensures !e.jobsMayFail ==> (Stuck(e, states[|events|]) <==> states[|events|].state in {Success, Failure})
  {
    var s := states[|events|];
    Reachable(e, states, events, |events|);
    if s.state in {Success, Failure} {
      if !e.jobsMayFail {
        forall ev, s' | Step(e, s, ev, s') ensures s' == s {
          TerminalIsAbsorbing(e, s, ev, s');
        }
      }
    } else {
      var ev, s' := Progress(e, s);
    }
  }

  /** From every reachable state the session can still be brought to an end. */
  lemma {:induction false} CanFinish(e: Setup, states: seq<SessionStatus>, events: seq<Event>)
    returns (states': seq<SessionStatus>, events': seq<Event>)
    requires Run(e, states, events) && e.conf != []
    ensures Run(e, states', events') && states <= states'
    ensures states'[|events'|].state in {Success, Failure}
    decreases Measure(e, states[|events|])
  {
    Reachable(e, states, events, |events|);
    states', events' := states, events;
    if states[|events|].state !in {Success, Failure} {
      var ev, s' := Progress(e, states[|events|]);
      StepDecreases(e, states[|events|], ev, s');
      StepKeepsInv(e, states[|events|], ev, s');
      states', events' := CanFinish(e, states + [s'], events + [ev]);
    }
  }

  /** Without targets no session ever ends: the loop has no last target to answer for. */
  lemma {:induction false} NoTargetsNoEnd(e: Setup, states: seq<SessionStatus>, events: seq<Event>, k: nat)
    requires Run(e, states, events) && k < |states| && e.conf == []
    ensures states[k].state in {Unset, New, Initializing}
  {
    if k > 0 {
      NoTargetsNoEnd(e, states, events, k - 1);
    }
  }

  ghost predicate CanEnd(e: Setup) {
    exists states: seq<SessionStatus>, events: seq<Event> ::
      Run(e, states, events) && states[|events|].state in {Success, Failure}
  }

  lemma EndsIffTargets(e: Setup)
    ensures CanEnd(e) <==> e.conf != []
  {
    if e.conf != [] {
      var states, events := CanFinish(e, [CREATED], []);
    }
    forall states: seq<SessionStatus>, events: seq<Event> | Run(e, states, events) && e.conf == []
      ensures states[|events|].state !in {Success, Failure}
    {
      NoTargetsNoEnd(e, states, events, |events|);
    }
  }
}
