/** Reconcile is not atomic: it reads the status, computes, and writes the whole status back, while
    sidecars and jobs do the same. The API server rejects a write whose base version is stale
    (Kubernetes API Conventions, section "Concurrency Control and Consistency"). */
module SessionOptimistic {
  import opened Api
  import opened SessionReconcile
  import opened SessionProtocol
  import opened SessionTheorems
  import opened SessionTermination
  import opened SessionOutcomes

  /** A status together with its resource version: what the server holds, and what a client read. */
  datatype Versioned = Versioned(status: SessionStatus, version: nat)

  /** The copies the clients are working on; sidecars and jobs are told apart by their target. */
  datatype World = World(
    server: Versioned,
    controller: Option<Versioned>,
    sidecars: map<nat, Versioned>,
    jobs: map<nat, Versioned>)

  datatype Action =
    | ReadController
    | WriteController(ongoing: bool, now: int)
    | ReadSidecar(target: nat)
    | WriteSidecar(target: nat, answer: SessionState)
    | ReadJob(target: nat)
    | WriteJob(target: nat, ok: bool)

  /** A write based on `base`: rejected when stale, and without a new version when nothing changes. */
  function Put(server: Versioned, base: Versioned, status: SessionStatus): Versioned {
    if base.version != server.version || status == server.status then server
    else Versioned(status, server.version + 1)
  }

  predicate Act(e: Setup, w: World, a: Action, w': World) {
    match a
    case ReadController => w' == w.(controller := Some(w.server))
    case WriteController(ongoing, now) =>
      && w.controller.Some?
      && var base := w.controller.value;
         && |base.status.targets| <= |e.conf|
         && w' == w.(controller := None,
                     server := Put(w.server, base, ReconcileStep(e.kind, e.conf, base.status, ongoing, now)))
    case ReadSidecar(i) => w' == w.(sidecars := w.sidecars[i := w.server])
    case WriteSidecar(i, answer) =>
      && i in w.sidecars
      && var base := w.sidecars[i];
         && i < |base.status.targets|
         && MayReport(base.status.targets[i].state, answer)
         && w' == w.(sidecars := w.sidecars - {i}, server := Put(w.server, base, Report(base.status, i, answer)))
    case ReadJob(i) => w' == w.(jobs := w.jobs[i := w.server])
    case WriteJob(i, ok) =>
      && i in w.jobs
      && var base := w.jobs[i];
         && i < |base.status.targets|
         && base.status.targets[i].state == WaitingForJob
         && (ok || e.jobsMayFail)
         && w' == w.(jobs := w.jobs - {i},
                     server := Put(w.server, base, Report(base.status, i, if ok then Success else Failure)))
  }

  /** Every copy in the system, the server's included. */
  ghost predicate HeldCopy(w: World, c: Versioned) {
    || c == w.server
    || w.controller == Some(c)
    || (exists i :: i in w.sidecars && w.sidecars[i] == c)
    || (exists i :: i in w.jobs && w.jobs[i] == c)
  }

  ghost predicate FineRun(e: Setup, worlds: seq<World>, actions: seq<Action>) {
    && |worlds| == |actions| + 1
    && worlds[0] == World(Versioned(CREATED, 0), None, map[], map[])
    && (forall k :: 0 <= k < |actions| ==> Act(e, worlds[k], actions[k], worlds[k + 1]))
  }

  /** A copy is never newer than the server, and a copy with the server's version is the server's status. */
  ghost predicate Coherent(w: World) {
    forall c :: HeldCopy(w, c) ==>
      c.version <= w.server.version && (c.version == w.server.version ==> c == w.server)
  }

  /** The copies after an action were copies before, or are the server's new one. */
  lemma NoNewCopies(e: Setup, w: World, a: Action, w': World, c: Versioned)
    requires Act(e, w, a, w') && HeldCopy(w', c) && c != w'.server
    ensures HeldCopy(w, c)
  {
  }

  /** The atomic event an action amounts to: reads and rejected writes are idle steps. */
  ghost function Abstract(w: World, a: Action): Event {
    match a
    case WriteController(ongoing, now) =>
      if w.controller.Some? && w.controller.value == w.server then Reconcile(ongoing, now) else Idle
    case WriteSidecar(i, answer) =>
      if i in w.sidecars && w.sidecars[i] == w.server then Sidecar(i, answer) else Idle
    case WriteJob(i, ok) =>
      if i in w.jobs && w.jobs[i] == w.server then Job(i, ok) else Idle
    case _ => Idle
  }

  lemma ActRefinesStep(e: Setup, w: World, a: Action, w': World)
    requires Coherent(w) && Act(e, w, a, w')
    ensures Step(e, w.server.status, Abstract(w, a), w'.server.status)
    ensures Coherent(w')
  {
    assert HeldCopy(w, w.server);
    match a {
      case WriteController(ongoing, now) => assert HeldCopy(w, w.controller.value);
      case WriteSidecar(i, answer) => assert HeldCopy(w, w.sidecars[i]);
      case WriteJob(i, ok) => assert HeldCopy(w, w.jobs[i]);
      case _ =>
    }
    forall c | HeldCopy(w', c)
      ensures c.version <= w'.server.version && (c.version == w'.server.version ==> c == w'.server)
    {
      if c != w'.server {
        NoNewCopies(e, w, a, w', c);
      }
    }
  }

  ghost function Statuses(worlds: seq<World>): seq<SessionStatus> {
    seq(|worlds|, k requires 0 <= k < |worlds| => worlds[k].server.status)
  }

  ghost function Events(worlds: seq<World>, actions: seq<Action>): seq<Event>
    requires |worlds| == |actions| + 1
  {
    seq(|actions|, k requires 0 <= k < |actions| => Abstract(worlds[k], actions[k]))
  }

  lemma {:induction false} StaysCoherent(e: Setup, worlds: seq<World>, actions: seq<Action>, k: nat)
    requires FineRun(e, worlds, actions) && k < |worlds|
    ensures Coherent(worlds[k])
  {
    if k > 0 {
      StaysCoherent(e, worlds, actions, k - 1);
      ActRefinesStep(e, worlds[k - 1], actions[k - 1], worlds[k]);
    }
  }

  /** Whatever the interleaving of reads and writes, the stored statuses form a run of the atomic protocol. */
  lemma OptimisticRefinesAtomic(e: Setup, worlds: seq<World>, actions: seq<Action>)
    requires FineRun(e, worlds, actions)
    ensures Run(e, Statuses(worlds), Events(worlds, actions))
  {
    forall k: nat | k < |actions|
      ensures Step(e, worlds[k].server.status, Abstract(worlds[k], actions[k]), worlds[k + 1].server.status)
    {
      StaysCoherent(e, worlds, actions, k);
      ActRefinesStep(e, worlds[k], actions[k], worlds[k + 1]);
    }
  }

  /** Every new version is a status change, so versions are bounded like changes. */
  lemma {:induction false} VersionsCountChanges(e: Setup, worlds: seq<World>, actions: seq<Action>, k: nat)
    requires FineRun(e, worlds, actions) && k < |worlds|
    ensures worlds[k].server.version == Changes(Statuses(worlds), k)
  {
    if k > 0 {
      VersionsCountChanges(e, worlds, actions, k - 1);
    }
  }

  /** So the guarantees of the atomic protocol hold of what the API server stores. */
  lemma OptimisticSafety(e: Setup, worlds: seq<World>, actions: seq<Action>, k: nat)
    requires FineRun(e, worlds, actions) && k < |worlds|
    ensures Inv(e, worlds[k].server.status)
    ensures !MayOverlap(e) ==> OneBusy(worlds[k].server.status.targets)
    ensures Somewhere(worlds[k].server.status, PAST_FIRST) ==>
              AllHadReached(e, Statuses(worlds), k, Initializing, Initialized)
    ensures Somewhere(worlds[k].server.status, PAST_SECOND) ==>
              AllHadReached(e, Statuses(worlds), k, Running, Waiting)
    ensures worlds[k].server.version <= Bound(e)
  {
    var states, events := Statuses(worlds), Events(worlds, actions);
    OptimisticRefinesAtomic(e, worlds, actions);
    Reachable(e, states, events, k);
    OneAtATime(e, states, events, k);
    PhaseBarriers(e, states, events, k);
    RunsTerminate(e, states, events, k);
    VersionsCountChanges(e, worlds, actions, k);
  }

  // ---------- Liveness ----------

  lemma Extend(e: Setup, worlds: seq<World>, actions: seq<Action>, a: Action, w: World)
    returns (worlds': seq<World>, actions': seq<Action>)
    requires FineRun(e, worlds, actions) && Act(e, worlds[|actions|], a, w)
    ensures FineRun(e, worlds', actions') && worlds <= worlds' && worlds'[|actions'|] == w
  {
    worlds', actions' := worlds + [w], actions + [a];
  }

  /** An event of the atomic protocol is a fresh read followed by a write that is not stale. */
  lemma ReadAndWrite(e: Setup, worlds: seq<World>, actions: seq<Action>, ev: Event, s': SessionStatus)
    returns (worlds': seq<World>, actions': seq<Action>)
    requires FineRun(e, worlds, actions)
    requires Step(e, worlds[|actions|].server.status, ev, s') && s' != worlds[|actions|].server.status
    ensures FineRun(e, worlds', actions') && worlds <= worlds' && worlds'[|actions'|].server.status == s'
  {
    var w := worlds[|actions|];
    var server := Versioned(s', w.server.version + 1);
    match ev
    case Reconcile(ongoing, now) =>
      var held := w.(controller := Some(w.server));
      worlds', actions' := Extend(e, worlds, actions, ReadController, held);
      worlds', actions' := Extend(e, worlds', actions', WriteController(ongoing, now),
                                  held.(controller := None, server := server));
    case Sidecar(i, answer) =>
      var held := w.(sidecars := w.sidecars[i := w.server]);
      worlds', actions' := Extend(e, worlds, actions, ReadSidecar(i), held);
      worlds', actions' := Extend(e, worlds', actions', WriteSidecar(i, answer),
                                  held.(sidecars := held.sidecars - {i}, server := server));
    case Job(i, ok) =>
      var held := w.(jobs := w.jobs[i := w.server]);
      worlds', actions' := Extend(e, worlds, actions, ReadJob(i), held);
      worlds', actions' := Extend(e, worlds', actions', WriteJob(i, ok),
                                  held.(jobs := held.jobs - {i}, server := server));
  }

  /** Whatever copies are still held and however stale they are, the session can be brought to an end. */
  lemma {:induction false} OptimisticCanFinish(e: Setup, worlds: seq<World>, actions: seq<Action>)
    returns (worlds': seq<World>, actions': seq<Action>)
    requires FineRun(e, worlds, actions) && e.conf != []
    ensures FineRun(e, worlds', actions') && worlds <= worlds'
    ensures worlds'[|actions'|].server.status.state in {Success, Failure}
    decreases Measure(e, worlds[|actions|].server.status)
  {
    var s := worlds[|actions|].server.status;
    OptimisticSafety(e, worlds, actions, |actions|);
    worlds', actions' := worlds, actions;
    if s.state !in {Success, Failure} {
      var ev, s' := Progress(e, s);
      StepDecreases(e, s, ev, s');
      worlds', actions' := ReadAndWrite(e, worlds, actions, ev, s');
      worlds', actions' := OptimisticCanFinish(e, worlds', actions');
    }
  }

  // ---------- Why the version is checked ----------

  lemma {:induction false} MeasureFalls(e: Setup, states: seq<SessionStatus>, events: seq<Event>, m: nat, k: nat)
    requires Run(e, states, events) && m <= k < |states|
    ensures Measure(e, states[k]) <= Measure(e, states[m])
  {
    if m < k {
      MeasureFalls(e, states, events, m, k - 1);
      Reachable(e, states, events, k - 1);
      if states[k] != states[k - 1] {
        StepDecreases(e, states[k - 1], events[k - 1], states[k]);
      }
    }
  }

  /** The one target in which the two differ is further from the end in `s'`. */
  lemma FurtherBack(e: Setup, s: SessionStatus, s': SessionStatus, k: nat)
    requires k + 1 < |e.conf| == |s.targets| && s.state == Finalize
    requires s.targets[k].state == WaitingForJob && s.targets[k + 1].state == Success
    requires s' == s.(targets := s.targets[k := s.targets[k].(state := Success)]
                                          [k + 1 := s.targets[k + 1].(state := Finalize)])
    ensures Measure(e, s') > Measure(e, s)
  {
    var done, back := Weights(e, s)[k] - 1, Weights(e, s)[k + 1] + 2;
    SumUpdate(Weights(e, s), k, done);
    SumUpdate(Weights(e, s)[k := done], k + 1, back);
    assert Weights(e, s') == Weights(e, s)[k := done][k + 1 := back];
  }

  /** In every configuration with two targets it can happen that a job and a sidecar read the same status
      and report one after the other. A job that wrote its copy back unchecked would take the next target
      from Success back to Finalize, where no run gets from what is stored. */
  lemma BlindWritesLoseReports(e: Setup, k: nat) returns (read: SessionStatus)
    requires k + 1 < |e.conf|
    ensures Arrives(e, read) && |read.targets| == |e.conf|
    ensures var stored := Report(read, k + 1, Success);
            var blind := Report(read, k, Success);
            && Step(e, read, Sidecar(k + 1, Success), stored)
            && Step(e, read, Job(k, true), blind)
            && forall states, events, m, n ::
                 Run(e, states, events) && 0 <= m <= n < |states| && states[m] == stored ==> states[n] != blind
  {
    read := HandsOver(e, k);
    var stored, blind := Report(read, k + 1, Success), Report(read, k, Success);
    assert blind.targets == stored.targets[k := stored.targets[k].(state := Success)]
                                          [k + 1 := stored.targets[k + 1].(state := Finalize)];
    FurtherBack(e, stored, blind, k);
    forall states, events, m: nat, n: nat |
      Run(e, states, events) && m <= n < |states| && states[m] == stored
      ensures states[n] != blind
    {
      MeasureFalls(e, states, events, m, n);
    }
  }
}
