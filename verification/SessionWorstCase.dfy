/** The bound on the length of a run is attained, whatever the configuration. */
module SessionWorstCase {
  import opened Api
  import opened SessionCheck
  import opened SessionReconcile
  import opened SessionProtocol
  import opened SessionTheorems
  import opened SessionTermination

  /** The slowest session uses up every try as early as it can, or as late if its jobs may fail. */
  ghost predicate Spent(e: Setup, t: TargetStatus, retry: int) {
    match t.state
    case Unset => true
    case Initializing => true
    case Failure => t.tries < retry
    case Success => TriesLeft(t.tries, retry) == 0
    case _ => e.jobsMayFail || TriesLeft(t.tries, retry) == 0
  }

  ghost predicate Slow(e: Setup, s: SessionStatus) {
    && Inv(e, s) && s.state != Failure
    && (forall i :: 0 <= i < |s.targets| ==> Spent(e, s.targets[i], e.conf[i].retry))
    && (e.jobsMayFail ==> forall i :: 0 <= i < |s.targets| && s.targets[i].state == Failure ==> s.state == Finalize)
    && (!e.jobsMayFail ==>
          forall i :: 0 <= i < |s.targets| && s.targets[i].state == Failure ==> s.state == Initializing)
    && (s.state == Success ==> AllIn(s.targets, e.conf, Success))
  }

  /** Only target `i` differs, and it is one step closer to the end. */
  ghost predicate OneCloser(e: Setup, s: SessionStatus, s': SessionStatus, i: nat) {
    && |s.targets| == |s'.targets| == |e.conf| && i < |e.conf|
    && s' == s.(targets := s.targets[i := s'.targets[i]])
    && TargetWeight(e, s.state, s'.targets[i], e.conf[i].retry) ==
       TargetWeight(e, s.state, s.targets[i], e.conf[i].retry) - 1
  }

  lemma OneCloserWeighsOneLess(e: Setup, s: SessionStatus, s': SessionStatus, i: nat)
    requires OneCloser(e, s, s', i)
    ensures Measure(e, s') == Measure(e, s) - 1
  {
    var w := TargetWeight(e, s.state, s'.targets[i], e.conf[i].retry);
    assert Weights(e, s') == Weights(e, s)[i := w];
    SumUpdate(Weights(e, s), i, w);
  }

  /** A step that moves one target by one and nothing else. */
  lemma OneTargetStep(e: Setup, s: SessionStatus, ev: Event, s': SessionStatus, i: nat)
    requires Slow(e, s) && Step(e, s, ev, s') && Active(s.state) && OneCloser(e, s, s', i)
    requires Spent(e, s'.targets[i], e.conf[i].retry)
    requires s'.targets[i].state == Failure ==> s.state == if e.jobsMayFail then Finalize else Initializing
    ensures Measure(e, s') == Measure(e, s) - 1 && Slow(e, s')
  {
    StepKeepsInv(e, s, ev, s');
    OneCloserWeighsOneLess(e, s, s', i);
  }

  lemma SameWeights(e: Setup, s: SessionStatus, s': SessionStatus)
    requires s'.targets == s.targets || (s.targets == [] && exists now :: s'.targets == InitialTargets(e.conf, now))
    requires forall i :: 0 <= i < |s.targets| ==> s.targets[i].state != Failure
    ensures Weights(e, s') == Weights(e, s)
  {
  }

  /** A step of the session itself, with the targets as they are. */
  lemma SessionStep(e: Setup, s: SessionStatus, ev: Event, s': SessionStatus)
    requires Slow(e, s) && Step(e, s, ev, s') && s'.state != s.state && Rank(s'.state) == Rank(s.state) - 1
    requires s.state == New || s'.targets == s.targets
    requires s.state == New ==> exists now :: s'.targets == InitialTargets(e.conf, now)
    requires Active(s.state) ==> forall i :: 0 <= i < |s.targets| ==> s.targets[i].state != Failure
    requires s'.state == Success ==> AllIn(s.targets, e.conf, Success)
    requires s'.state != Failure
    ensures Measure(e, s') == Measure(e, s) - 1 && Slow(e, s')
  {
    StepKeepsInv(e, s, ev, s');
    SameWeights(e, s, s');
  }

  /** What the sidecar of a working target reports in the slowest session. */
  lemma SlowReport(e: Setup, s: SessionStatus, i: nat) returns (ev: Event, s': SessionStatus)
    requires Slow(e, s) && Active(s.state) && i < |s.targets| && s.targets[i].state == s.state
    ensures Step(e, s, ev, s') && Measure(e, s') == Measure(e, s) - 1 && Slow(e, s')
  {
    var t := s.targets[i];
    var answer :=
      if s.state == Initializing then
        if !e.jobsMayFail && TriesLeft(t.tries, e.conf[i].retry) > 0 then Failure else Initialized
      else if s.state == Running then Waiting
      else WaitingForJob;
    ev, s' := Sidecar(i, answer), Report(s, i, answer);
    OneTargetStep(e, s, ev, s', i);
  }

  lemma SlowJob(e: Setup, s: SessionStatus, i: nat) returns (ev: Event, s': SessionStatus)
    requires Slow(e, s) && s.state == Finalize && i < |s.targets| && s.targets[i].state == WaitingForJob
    ensures Step(e, s, ev, s') && Measure(e, s') == Measure(e, s) - 1 && Slow(e, s')
  {
    var ok := !(e.jobsMayFail && TriesLeft(s.targets[i].tries, e.conf[i].retry) > 0);
    ev, s' := Job(i, ok), Report(s, i, if ok then Success else Failure);
    OneTargetStep(e, s, ev, s', i);
  }

  /** The controller sets a target working. */
  lemma SlowStart(e: Setup, s: SessionStatus, k: nat) returns (ev: Event, s': SessionStatus)
    requires Slow(e, s) && Active(s.state) && Decides(s.targets, PhaseOf(s.state), k)
    requires k < |s.targets| && s.targets[k].state != s.state
    ensures Step(e, s, ev, s') && Measure(e, s') == Measure(e, s) - 1 && Slow(e, s')
  {
    var p := PhaseOf(s.state);
    CheckMeaning(s.targets, e.conf, p, 1, k);
    ev, s' := Reconcile(false, 1), ReconcileStep(e.kind, e.conf, s, false, 1);
    assert Spent(e, s.targets[k], e.conf[k].retry);
    assert Startable(s.targets, e.conf, p, k);
    assert s'.targets == s.targets[k := s'.targets[k]];
    OneTargetStep(e, s, ev, s', k);
  }

  /** The controller advances the session. */
  lemma SlowAdvance(e: Setup, s: SessionStatus) returns (ev: Event, s': SessionStatus)
    requires Slow(e, s) && Active(s.state) && s.targets != []
    requires Decides(s.targets, PhaseOf(s.state), |s.targets|) && !JobBefore(s.targets, |s.targets|)
    ensures Step(e, s, ev, s') && Measure(e, s') == Measure(e, s) - 1 && Slow(e, s')
  {
    var p := PhaseOf(s.state);
    CheckMeaning(s.targets, e.conf, p, 1, |s.targets|);
    VerdictAnswers(s.targets, e.conf, p, 1, |s.targets|, Check(s.targets, e.conf, p, 1));
    ev, s' := Reconcile(false, 1), ReconcileStep(e.kind, e.conf, s, false, 1);
    SessionStep(e, s, ev, s');
  }

  /** As long as the slowest session has not ended, some step brings it just one closer to the end. */
  lemma SlowStep(e: Setup, s: SessionStatus) returns (ev: Event, s': SessionStatus)
    requires Slow(e, s) && e.conf != [] && s.state != Success
    ensures Step(e, s, ev, s') && Measure(e, s') == Measure(e, s) - 1 && Slow(e, s')
  {
    if s.state in {Unset, New} {
      ev, s' := Reconcile(false, 1), ReconcileStep(e.kind, e.conf, s, false, 1);
      SessionStep(e, s, ev, s');
    } else {
      var k := Decider(s.targets, PhaseOf(s.state), 0);
      if k < |s.targets| {
        if s.targets[k].state == s.state {
          ev, s' := SlowReport(e, s, k);
        } else {
          ev, s' := SlowStart(e, s, k);
        }
      } else if JobBefore(s.targets, k) {
        var j: nat :| j < k && s.targets[j].state == WaitingForJob;
        ev, s' := SlowJob(e, s, j);
      } else {
        ev, s' := SlowAdvance(e, s);
      }
    }
  }

  lemma {:induction false} SumOfZeros(xs: seq<nat>)
    requires forall i :: 0 <= i < |xs| ==> xs[i] == 0
    ensures Sum(xs) == 0
  {
    if xs != [] {
      SumOfZeros(xs[1..]);
    }
  }

  lemma NothingLeft(e: Setup, s: SessionStatus)
    requires Slow(e, s) && s.state == Success
    ensures Measure(e, s) == 0
  {
    SumOfZeros(Weights(e, s));
  }

  lemma {:induction false} SamePrefix(states: seq<SessionStatus>, s: SessionStatus, k: nat)
    requires k < |states|
    ensures Changes(states + [s], k) == Changes(states, k)
  {
    if k > 0 {
      SamePrefix(states, s, k - 1);
    }
  }

  lemma OneMoreChange(e: Setup, states: seq<SessionStatus>, events: seq<Event>, ev: Event, s': SessionStatus)
    requires Run(e, states, events) && Step(e, states[|events|], ev, s') && s' != states[|events|]
    ensures Run(e, states + [s'], events + [ev])
    ensures Changes(states + [s'], |events| + 1) == Changes(states, |events|) + 1
  {
    SamePrefix(states, s', |events|);
  }

  lemma {:induction false} SlowRun(e: Setup, states: seq<SessionStatus>, events: seq<Event>)
    returns (states': seq<SessionStatus>, events': seq<Event>)
    requires Run(e, states, events) && e.conf != [] && Slow(e, states[|events|])
    requires Changes(states, |events|) + Measure(e, states[|events|]) == Bound(e)
    ensures Run(e, states', events') && states'[|events'|].state == Success
    ensures Changes(states', |events'|) == Bound(e)
    decreases Measure(e, states[|events|])
  {
    var s := states[|events|];
    if s.state == Success {
      NothingLeft(e, s);
      states', events' := states, events;
    } else {
      var ev, s' := SlowStep(e, s);
      OneMoreChange(e, states, events, ev, s');
      assert (states + [s'])[|events + [ev]|] == s';
      states', events' := SlowRun(e, states + [s'], events + [ev]);
    }
  }

  /** Some run changes the status exactly as often as the bound allows, and ends in Success. */
  lemma BoundIsAttained(e: Setup) returns (states: seq<SessionStatus>, events: seq<Event>)
    requires e.conf != []
    ensures Run(e, states, events) && states[|events|].state == Success
    ensures Changes(states, |events|) == Bound(e)
  {
    states, events := [CREATED], [];
    assert Weights(e, CREATED) ==
           seq(|e.conf|, i requires 0 <= i < |e.conf| => 7 + RestartCost(e) * Max(0, e.conf[i].retry - 1));
    states, events := SlowRun(e, states, events);
  }
}
