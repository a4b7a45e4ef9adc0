/** Running `cleanupSessions` after every backup, against running it once at the end. */
module RetentionHistory {
  import opened Api
  import opened Retention
  import opened RetentionPruning
  import opened RetentionPolicy
  import opened RetentionOrder
  import opened RetentionStore
  import opened RetentionTwice

  /** Sessions cleanupSessions leaves alone: those of other configurations and those without success. */
  ghost predicate Foreign(m0: map<string, BackupSession>, conf: string) {
    forall n :: n in m0 ==> m0[n].name == n && !(m0[n].conf == conf && m0[n].state == Success)
  }

  predicate Belongs(m0: map<string, BackupSession>, conf: string, x: BackupSession) {
    x.conf == conf && x.state == Success && x.name !in m0
  }

  /** Successful backups of the configuration, newest first, no two in the same second, under new names. */
  ghost predicate History(m0: map<string, BackupSession>, conf: string, s: seq<BackupSession>) {
    Sequenced(s) && forall x :: x in s ==> Belongs(m0, conf, x)
  }

  /** The store holds the foreign sessions and exactly the given ones of the configuration. */
  ghost predicate Holds(m: map<string, BackupSession>, m0: map<string, BackupSession>, own: seq<BackupSession>) {
    && (forall n :: n in m <==> n in m0 || Named(own, n))
    && (forall x :: x in own ==> x.name in m && m[x.name] == x)
    && (forall n :: n in m0 ==> n in m && m[n] == m0[n])
  }

  /** The early return of cleanupSessions counts foreign successes, too. */
  ghost predicate Crowded(m0: map<string, BackupSession>) {
    exists n :: n in m0 && m0[n].state == Success
  }

  // ---------- One cleanup ----------

  lemma OwnIsHistory(m0: map<string, BackupSession>, conf: string, own: seq<BackupSession>,
                     m: map<string, BackupSession>, order: seq<BackupSession>)
    requires Foreign(m0, conf) && History(m0, conf, own) && Holds(m, m0, own)
    requires Listing(m, order) && NewestFirst(order)
    ensures Own(order, conf) == own
  {
    forall x ensures multiset(Own(order, conf))[x] == multiset(own)[x] {
      OwnCounts(order, conf, x);
      OnceEach(own, x);
      if x.name in m && Named(own, x.name) {
        var y :| y in own && y.name == x.name;
      }
    }
    OwnIsPart(order, conf);
    ApartSortsAlike(Own(order, conf), own);
  }

  /** How many sessions are listed, as far as it matters. */
  lemma ListedMany(m0: map<string, BackupSession>, conf: string, own: seq<BackupSession>,
                   m: map<string, BackupSession>, order: seq<BackupSession>)
    requires Foreign(m0, conf) && History(m0, conf, own) && Holds(m, m0, own)
    requires Listing(m, order) && own != []
    ensures |order| >= 2 <==> |own| >= 2 || Crowded(m0)
  {
    assert own[0] in own && multiset(order)[own[0]] == 1;
    var a :| 0 <= a < |order| && order[a] == own[0];
    if |own| >= 2 {
      assert own[1] in own && multiset(order)[own[1]] == 1;
      assert own[1] in order && own[0].name != own[1].name;
    } else if Crowded(m0) {
      var n :| n in m0 && m0[n].state == Success;
      assert multiset(order)[m0[n]] == 1;
      assert m0[n] in order && m0[n] != own[0];
    }
    if |own| == 1 && |order| >= 2 {
      ListedOnce(m, order);
      var x := order[if a == 0 then 1 else 0];
      assert x in order && x.name != own[0].name;
      assert x.name in m0 && m0[x.name].state == Success;
    }
  }

  lemma PrunedHolds(m0: map<string, BackupSession>, own: seq<BackupSession>, kept: seq<BackupSession>,
                    m: map<string, BackupSession>, m': map<string, BackupSession>)
    requires Holds(m, m0, own) && Pruned(m, m', own, kept)
    requires forall n :: Named(own, n) ==> n !in m0
    requires forall n :: Named(kept, n) ==> Named(own, n)
    ensures Holds(m', m0, kept)
  {
  }

  /** A cleanup prunes the backups of the configuration, unless the first one is alone in the namespace. */
  lemma PassOnHistory(conf: BackupConfiguration, m0: map<string, BackupSession>, own: seq<BackupSession>,
                      m: map<string, BackupSession>, order: seq<BackupSession>, m': map<string, BackupSession>)
    requires Foreign(m0, conf.name) && History(m0, conf.name, own) && Holds(m, m0, own)
    requires Pass(conf, m, order, m')
    ensures Holds(m', m0, if |own| >= 2 || Crowded(m0) then Prune(conf.keep, own) else own)
  {
    OwnIsHistory(m0, conf.name, own, m, order);
    if own != [] {
      ListedMany(m0, conf.name, own, m, order);
    }
    var kept := Prune(conf.keep, own);
    forall n | Named(kept, n) ensures Named(own, n) {
      PruneKeepsNames(Initial(conf.keep), own, n);
    }
    if |order| >= 2 {
      PrunedHolds(m0, own, kept, m, m');
    }
  }

  // ---------- Many cleanups ----------

  function Stored(m: map<string, BackupSession>, x: BackupSession): map<string, BackupSession> {
    m[x.name := x]
  }

  ghost predicate CleanedAfter(conf: BackupConfiguration, m: map<string, BackupSession>, x: BackupSession,
                               m': map<string, BackupSession>) {
    exists order :: Pass(conf, Stored(m, x), order, m')
  }

  /** Each backup is stored and the cleanup runs, oldest backup first. */
  ghost predicate CleanedEachTime(conf: BackupConfiguration, m0: map<string, BackupSession>,
                                  s: seq<BackupSession>, m: map<string, BackupSession>)
    decreases |s|
  {
    if s == [] then m == m0
    else exists m1 :: CleanedEachTime(conf, m0, s[1..], m1) && CleanedAfter(conf, m1, s[0], m)
  }

  /** The backups that are left then; `crowded` says that others are listed with them. */
  function LeftEachTime(keep: Keep, crowded: bool, s: seq<BackupSession>): seq<BackupSession> {
    if s == [] then []
    else
      var own := [s[0]] + LeftEachTime(keep, crowded, s[1..]);
      if |own| >= 2 || crowded then Prune(keep, own) else own
  }

  lemma HistorySplit(m0: map<string, BackupSession>, conf: string, x: BackupSession, s: seq<BackupSession>)
    ensures History(m0, conf, [x] + s) <==> Leads(x, s) && History(m0, conf, s) && Belongs(m0, conf, x)
  {
    SequencedSplit(x, s);
    assert forall y :: y in [x] + s <==> y == x || y in s;
  }

  lemma {:induction false} PruneIsHistory(m0: map<string, BackupSession>, conf: string, c: Counters,
                                          s: seq<BackupSession>)
    requires History(m0, conf, s)
    ensures History(m0, conf, PruneFrom(c, s))
    ensures forall x :: Leads(x, s) ==> Leads(x, PruneFrom(c, s))
    decreases |s|
  {
    if s != [] {
      var y, rest := s[0].(keep := KeepText(c, s[0].start)), PruneFrom(Next(c, s[0].start), s[1..]);
      assert s == [s[0]] + s[1..];
      HistorySplit(m0, conf, s[0], s[1..]);
      PruneIsHistory(m0, conf, Next(c, s[0].start), s[1..]);
      HistorySplit(m0, conf, y, rest);
      forall x | Leads(x, s) ensures Leads(x, PruneFrom(c, s)) {
        assert s[0] in s && Leads(x, s[1..]);
      }
    }
  }

  /** What is left is a history, and so it is together with the next backup. */
  lemma {:induction false} LeftIsHistory(keep: Keep, crowded: bool, m0: map<string, BackupSession>, conf: string,
                                         s: seq<BackupSession>)
    requires History(m0, conf, s)
    ensures History(m0, conf, LeftEachTime(keep, crowded, s))
    ensures forall x :: Leads(x, s) ==> Leads(x, LeftEachTime(keep, crowded, s))
    ensures s != [] ==> History(m0, conf, [s[0]] + LeftEachTime(keep, crowded, s[1..]))
    decreases |s|
  {
    if s != [] {
      var left := LeftEachTime(keep, crowded, s[1..]);
      assert s == [s[0]] + s[1..];
      HistorySplit(m0, conf, s[0], s[1..]);
      LeftIsHistory(keep, crowded, m0, conf, s[1..]);
      HistorySplit(m0, conf, s[0], left);
      PruneIsHistory(m0, conf, Initial(keep), [s[0]] + left);
      forall x | Leads(x, s) ensures Leads(x, [s[0]] + left) {
        assert s[0] in s && Leads(x, s[1..]);
      }
    }
  }

  lemma StoredToo(m0: map<string, BackupSession>, conf: string, x: BackupSession, own: seq<BackupSession>,
                  m: map<string, BackupSession>)
    requires History(m0, conf, [x] + own) && Holds(m, m0, own)
    ensures Holds(Stored(m, x), m0, [x] + own)
  {
    HistorySplit(m0, conf, x, own);
    forall n ensures Named([x] + own, n) <==> n == x.name || Named(own, n) {
      NamedSplit(x, own, n);
    }
  }

  lemma NextHolds(conf: BackupConfiguration, m0: map<string, BackupSession>, s: seq<BackupSession>,
                  m: map<string, BackupSession>, m': map<string, BackupSession>)
    requires Foreign(m0, conf.name) && History(m0, conf.name, s) && s != []
    requires Holds(m, m0, LeftEachTime(conf.keep, Crowded(m0), s[1..])) && CleanedAfter(conf, m, s[0], m')
    ensures Holds(m', m0, LeftEachTime(conf.keep, Crowded(m0), s))
  {
    var own := [s[0]] + LeftEachTime(conf.keep, Crowded(m0), s[1..]);
    var order :| Pass(conf, Stored(m, s[0]), order, m');
    LeftIsHistory(conf.keep, Crowded(m0), m0, conf.name, s);
    StoredToo(m0, conf.name, s[0], LeftEachTime(conf.keep, Crowded(m0), s[1..]), m);
    PassOnHistory(conf, m0, own, Stored(m, s[0]), order, m');
  }

  lemma HistoryTail(m0: map<string, BackupSession>, conf: string, s: seq<BackupSession>)
    requires History(m0, conf, s) && s != []
    ensures History(m0, conf, s[1..])
  {
    assert s == [s[0]] + s[1..];
    HistorySplit(m0, conf, s[0], s[1..]);
  }

  /** Whatever the policy and the dates, this is what cleanupSessions leaves in the store. */
  lemma {:induction false} CleanedHolds(conf: BackupConfiguration, m0: map<string, BackupSession>,
                                        s: seq<BackupSession>, m: map<string, BackupSession>)
    requires Foreign(m0, conf.name) && History(m0, conf.name, s) && CleanedEachTime(conf, m0, s, m)
    ensures Holds(m, m0, LeftEachTime(conf.keep, Crowded(m0), s))
    decreases |s|
  {
    if s == [] {
      assert LeftEachTime(conf.keep, Crowded(m0), s) == [];
    } else {
      var m1 :| CleanedEachTime(conf, m0, s[1..], m1) && CleanedAfter(conf, m1, s[0], m);
      HistoryTail(m0, conf.name, s);
      CleanedHolds(conf, m0, s[1..], m1);
      NextHolds(conf, m0, s, m1, m);
    }
  }

  lemma HoldsAlike(m0: map<string, BackupSession>, own: seq<BackupSession>,
                   m: map<string, BackupSession>, m': map<string, BackupSession>)
    requires Holds(m, m0, own) && Holds(m', m0, own)
    ensures m == m'
  {
  }

  // ---------- When the early return does not matter ----------

  ghost predicate AllKept(keep: Keep, s: seq<BackupSession>) {
    forall i :: 0 <= i < |s| ==> Tagged(Initial(keep), s[i].start)
  }

  /** Every backup but the newest is tagged by the first pass that sees it as the newest. */
  ghost predicate KeptOnArrival(keep: Keep, s: seq<BackupSession>) {
    s != [] ==> AllKept(keep, s[1..])
  }

  ghost predicate SameButTags(p: seq<BackupSession>, q: seq<BackupSession>) {
    |p| == |q| && forall i :: 0 <= i < |p| ==> p[i].(keep := "") == q[i].(keep := "")
  }

  lemma {:induction false} OldTagsDoNotMatter(c: Counters, p: seq<BackupSession>, q: seq<BackupSession>)
    requires SameButTags(p, q)
    ensures PruneFrom(c, p) == PruneFrom(c, q)
    decreases |p|
  {
    if p != [] {
      assert p[0].(keep := "") == q[0].(keep := "");
      var tags := KeepText(c, p[0].start);
      assert p[0].(keep := tags) == p[0].(keep := "").(keep := tags);
      assert q[0].(keep := tags) == q[0].(keep := "").(keep := tags);
      OldTagsDoNotMatter(Next(c, p[0].start), p[1..], q[1..]);
    }
  }

  lemma {:induction false} LeftDiffersInTags(keep: Keep, crowded: bool, s: seq<BackupSession>)
    requires AllKept(keep, s)
    ensures SameButTags(LeftEachTime(keep, crowded, s), PruneEachTime(keep, s))
    ensures s != [] ==> PruneEachTime(keep, s) != []
    decreases |s|
  {
    if s != [] {
      var left, pruned := LeftEachTime(keep, crowded, s[1..]), PruneEachTime(keep, s[1..]);
      LeftDiffersInTags(keep, crowded, s[1..]);
      assert Tagged(Initial(keep), ([s[0]] + pruned)[0].start);
      if left == [] {
        assert [s[0]] + left == [s[0]] + pruned == [s[0]];
        PruneOne(Initial(keep), s[0]);
      } else {
        OldTagsDoNotMatter(Initial(keep), [s[0]] + left, [s[0]] + pruned);
      }
    }
  }

  /** With others listed, or with every earlier backup kept, the code leaves what the loop alone would leave. */
  lemma LeftIsPruned(keep: Keep, crowded: bool, s: seq<BackupSession>)
    requires |s| >= 2 && KeptOnArrival(keep, s)
    ensures LeftEachTime(keep, crowded, s) == PruneEachTime(keep, s)
  {
    var left, pruned := LeftEachTime(keep, crowded, s[1..]), PruneEachTime(keep, s[1..]);
    LeftDiffersInTags(keep, crowded, s[1..]);
    OldTagsDoNotMatter(Initial(keep), [s[0]] + left, [s[0]] + pruned);
  }

  lemma {:induction false} CrowdedIsPruned(keep: Keep, s: seq<BackupSession>)
    ensures LeftEachTime(keep, true, s) == PruneEachTime(keep, s)
    decreases |s|
  {
    if s != [] {
      CrowdedIsPruned(keep, s[1..]);
    }
  }

  /** A history of lists that can be pruned early, in which the early return does not matter. */
  ghost predicate Sound(keep: Keep, m0: map<string, BackupSession>, conf: string, s: seq<BackupSession>) {
    && Foreign(m0, conf) && History(m0, conf, s) && SafeThroughout(keep, s)
    && (Crowded(m0) || KeptOnArrival(keep, s))
  }

  lemma LeftEachTimeIsPrune(keep: Keep, m0: map<string, BackupSession>, conf: string, s: seq<BackupSession>)
    requires Sound(keep, m0, conf, s)
    ensures LeftEachTime(keep, Crowded(m0), s) == if |s| >= 2 || Crowded(m0) then Prune(keep, s) else s
  {
    OnlineEqualsOffline(keep, s);
    if Crowded(m0) {
      CrowdedIsPruned(keep, s);
    } else if |s| >= 2 {
      LeftIsPruned(keep, false, s);
    } else if s != [] {
      assert s[1..] == [] && [s[0]] + [] == s;
    }
  }

  /** Cleaning up after every backup leaves the very same store as cleaning up once at the end, whatever
      other sessions there are, if every list on the way is safe to prune, and another success is listed
      or every earlier backup is kept by the first cleanup that sees it. */
  lemma CleaningOnceSuffices(conf: BackupConfiguration, m0: map<string, BackupSession>, s: seq<BackupSession>,
                             m: map<string, BackupSession>, all: map<string, BackupSession>,
                             order: seq<BackupSession>, m': map<string, BackupSession>)
    requires Sound(conf.keep, m0, conf.name, s) && CleanedEachTime(conf, m0, s, m)
    requires Holds(all, m0, s) && Pass(conf, all, order, m')
    ensures m == m'
  {
    CleanedHolds(conf, m0, s, m);
    LeftEachTimeIsPrune(conf.keep, m0, conf.name, s);
    PassOnHistory(conf, m0, s, all, order, m');
    HoldsAlike(m0, LeftEachTime(conf.keep, Crowded(m0), s), m, m');
  }

  // ---------- When it does ----------

  lemma ListsOwn(m0: map<string, BackupSession>, conf: string, own: seq<BackupSession>,
                 m: map<string, BackupSession>)
    requires Foreign(m0, conf) && !Crowded(m0) && History(m0, conf, own) && Holds(m, m0, own)
    ensures Listing(m, own)
  {
    forall x ensures multiset(own)[x] == if x.name in m && m[x.name] == x && x.state == Success then 1 else 0 {
      OnceEach(own, x);
      if x.name in m && Named(own, x.name) {
        var y :| y in own && y.name == x.name;
      }
    }
  }

  /** Over a history that is alone, the cleanup can do what it does. */
  lemma SomePass(conf: BackupConfiguration, m0: map<string, BackupSession>, own: seq<BackupSession>,
                 m: map<string, BackupSession>) returns (m': map<string, BackupSession>)
    requires Foreign(m0, conf.name) && !Crowded(m0) && History(m0, conf.name, own) && Holds(m, m0, own)
    ensures Pass(conf, m, own, m')
  {
    ListsOwn(m0, conf.name, own, m);
    assert NewestFirst(own) && Distinct(own);
    OwnIsHistory(m0, conf.name, own, m, own);
    if |own| < 2 {
      m' := m;
    } else {
      HandleAllPrunes(m, Initial(conf.keep), own);
      m' := HandleAll(m, Initial(conf.keep), own);
    }
  }

  lemma {:induction false} SomeCleaning(conf: BackupConfiguration, m0: map<string, BackupSession>,
                                        s: seq<BackupSession>) returns (m: map<string, BackupSession>)
    requires Foreign(m0, conf.name) && !Crowded(m0) && History(m0, conf.name, s)
    ensures CleanedEachTime(conf, m0, s, m)
    decreases |s|
  {
    m := m0;
    if s != [] {
      var left := LeftEachTime(conf.keep, false, s[1..]);
      HistoryTail(m0, conf.name, s);
      var m1 := SomeCleaning(conf, m0, s[1..]);
      CleanedHolds(conf, m0, s[1..], m1);
      LeftIsHistory(conf.keep, false, m0, conf.name, s);
      StoredToo(m0, conf.name, s[0], left, m1);
      m := SomePass(conf, m0, [s[0]] + left, Stored(m1, s[0]));
      assert CleanedAfter(conf, m1, s[0], m);
    }
  }

  lemma {:induction false} NothingTagged(keep: Keep, s: seq<BackupSession>)
    requires forall i :: 0 <= i < |s| ==> !Tagged(Initial(keep), s[i].start)
    ensures Prune(keep, s) == [] && PruneEachTime(keep, s) == []
    decreases |s|
  {
    if s != [] {
      assert Next(Initial(keep), s[0].start) == Initial(keep);
      NothingTagged(keep, s[1..]);
      assert [s[0]] + [] == [s[0]];
      PruneOne(Initial(keep), s[0]);
    }
  }

  lemma OddOneIsLeft(keep: Keep, s: seq<BackupSession>)
    requires |s| == 3 && forall i :: 0 <= i < 3 ==> !Tagged(Initial(keep), s[i].start)
    ensures LeftEachTime(keep, false, s) == [s[0]]
  {
    NothingTagged(keep, s[1..]);
    assert s[2..] == [s[2]] && s[1..][1..] == s[2..] && s[2..][1..] == [];
    assert LeftEachTime(keep, false, s[2..]) == [s[2]] + [] == [s[2]];
    assert [s[1]] + [s[2]] == s[1..];
    assert LeftEachTime(keep, false, s[1..]) == [];
    assert [s[0]] + [] == [s[0]];
  }

  lemma {:induction false} FreshFor(names: set<string>) returns (name: string)
    ensures name != [] && forall x :: x in names ==> |x| < |name|
    decreases |names|
  {
    name := "n";
    if names != {} {
      var x :| x in names;
      var longer := FreshFor(names - {x});
      name := longer + x;
    }
  }

  /** Three backups in three seconds, none of which any class would take first. */
  lemma IdleBackups(keep: Keep, m0: map<string, BackupSession>, conf: string) returns (s: seq<BackupSession>)
    requires !KeepsArrivals(keep)
    ensures |s| == 3 && Dated(s) && History(m0, conf, s)
    ensures forall x :: x in s ==>
              && !Tagged(Initial(keep), x.start) && x.start.weekday != 0 && x.start.month == 1
              && x.start.day == x.start.yearDay == IdleDay(keep)
  {
    var n := FreshFor(m0.Keys);
    var t0 := NotTaken(keep, 0);
    var t1 := NotTaken(keep, 1);
    var t2 := NotTaken(keep, 2);
    s := [BackupSession(n + "22", conf, Success, t2, ""),
          BackupSession(n + "1", conf, Success, t1, ""),
          BackupSession(n, conf, Success, t0, "")];
    forall x | x in s ensures x.name !in m0 {
      assert |x.name| >= |n|;
    }
  }

  lemma ArrivalsAreKept(keep: Keep, s: seq<BackupSession>)
    requires KeepsArrivals(keep) && Dated(s)
    ensures AllKept(keep, s) && KeptOnArrival(keep, s)
  {
    forall i | 0 <= i < |s| ensures Tagged(Initial(keep), s[i].start) {
      assert s[i] in s;
      KeptOnArrivalIff(keep);
    }
  }

  /** Policies under which a safe list never starts with a backup that no class takes. */
  predicate SelfCorrecting(keep: Keep) {
    keep.daily >= 2 || (keep.daily == 1 && keep.monthly >= 2)
  }

  lemma SafeArrivalsAreKept(keep: Keep, s: seq<BackupSession>)
    requires SelfCorrecting(keep) && Dated(s) && SafeThroughout(keep, s)
    ensures KeptOnArrival(keep, s)
  {
    forall i | 0 <= i < |s| - 1 ensures s[1..][i] == s[i + 1] && Tagged(Initial(keep), s[1..][i].start) {
      var older := s[i + 1..];
      assert s[i + 1] in s && older[0] == s[i + 1] && SafeToPrune(keep, older);
      assert keep.daily >= 2 ==> FirstIsSafe(Daily, Initial(keep), older);
      assert keep.monthly >= 2 ==> FirstIsSafe(Monthly, Initial(keep), older);
    }
  }

  lemma {:induction false} NoneCollides(keep: Keep, tag: Tag, s: seq<BackupSession>)
    requires !KeepsArrivals(keep) && !SelfCorrecting(keep) && Quota(keep, tag) >= 2
    requires forall x :: x in s ==>
               && x.start.weekday != 0 && x.start.month == 1
               && x.start.day == x.start.yearDay == IdleDay(keep)
    requires Dated(s)
    ensures NoCollision(tag, s)
    decreases |s|
  {
    if s != [] {
      assert s[0] in s;
      NoneCollides(keep, tag, s[1..]);
    }
  }

  lemma IdleBackupsAreSafe(keep: Keep, s: seq<BackupSession>)
    requires !KeepsArrivals(keep) && !SelfCorrecting(keep)
    requires forall x :: x in s ==>
               && x.start.weekday != 0 && x.start.month == 1
               && x.start.day == x.start.yearDay == IdleDay(keep)
    requires Dated(s)
    ensures SafeThroughout(keep, s)
  {
    forall i | 1 <= i <= |s| ensures SafeToPrune(keep, s[i..]) {
      forall tag: Tag | Quota(keep, tag) >= 2 ensures FirstIsSafe(tag, Initial(keep), s[i..]) {
        NoneCollides(keep, tag, s[i..]);
        FirstDiffersIsSafe(tag, Initial(keep), s[i..]);
      }
    }
  }

  lemma {:induction false} AllStored(m0: map<string, BackupSession>, conf: string, s: seq<BackupSession>)
    returns (all: map<string, BackupSession>)
    requires History(m0, conf, s)
    ensures Holds(all, m0, s)
    decreases |s|
  {
    all := m0;
    if s != [] {
      HistoryTail(m0, conf, s);
      var rest := AllStored(m0, conf, s[1..]);
      assert s == [s[0]] + s[1..];
      StoredToo(m0, conf, s[0], s[1..], rest);
      all := Stored(rest, s[0]);
    }
  }

  /** Not to keep arrivals matters: for any policy that does not, in any namespace without another success,
      three backups in three seconds leave the last one if the cleanup runs each time, although the loop
      would have deleted each of them at once and a single cleanup deletes all three. */
  lemma EarlyReturnKeepsOne(conf: BackupConfiguration, m0: map<string, BackupSession>)
    returns (s: seq<BackupSession>, m: map<string, BackupSession>, all: map<string, BackupSession>)
    requires Foreign(m0, conf.name) && !Crowded(m0) && !KeepsArrivals(conf.keep)
    ensures |s| == 3 && Dated(s) && History(m0, conf.name, s)
    ensures CleanedEachTime(conf, m0, s, m) && Holds(m, m0, [s[0]])
    ensures Holds(all, m0, s) && Pass(conf, all, s, m0)
    ensures PruneEachTime(conf.keep, s) == Prune(conf.keep, s) == []
    ensures !SelfCorrecting(conf.keep) ==> SafeThroughout(conf.keep, s)
  {
    s := IdleBackups(conf.keep, m0, conf.name);
    assert forall i :: 0 <= i < 3 ==> s[i] in s;
    m := SomeCleaning(conf, m0, s);
    CleanedHolds(conf, m0, s, m);
    OddOneIsLeft(conf.keep, s);
    NothingTagged(conf.keep, s);
    all := AllStored(m0, conf.name, s);
    var m' := SomePass(conf, m0, s, all);
    PassOnHistory(conf, m0, s, all, s, m');
    assert Holds(m0, m0, []);
    HoldsAlike(m0, [], m', m0);
    if !SelfCorrecting(conf.keep) {
      IdleBackupsAreSafe(conf.keep, s);
    }
  }

  // ---------- The policies ----------

  /** After two or more backups with a cleanup each, the store is what the loop alone would have left. */
  ghost predicate LikeLoopAlone(conf: BackupConfiguration, m0: map<string, BackupSession>,
                                s: seq<BackupSession>, m: map<string, BackupSession>) {
    Dated(s) && |s| >= 2 && History(m0, conf.name, s) && CleanedEachTime(conf, m0, s, m) ==>
      Holds(m, m0, PruneEachTime(conf.keep, s))
  }

  lemma EarlyReturnHarmless(conf: BackupConfiguration, m0: map<string, BackupSession>,
                            s: seq<BackupSession>, m: map<string, BackupSession>)
    requires Foreign(m0, conf.name) && (Crowded(m0) || KeepsArrivals(conf.keep))
    ensures LikeLoopAlone(conf, m0, s, m)
  {
    if Dated(s) && |s| >= 2 && History(m0, conf.name, s) && CleanedEachTime(conf, m0, s, m) {
      CleanedHolds(conf, m0, s, m);
      if Crowded(m0) {
        CrowdedIsPruned(conf.keep, s);
      } else {
        ArrivalsAreKept(conf.keep, s);
        LeftIsPruned(conf.keep, false, s);
      }
    }
  }

  lemma LeftMeansMore(m0: map<string, BackupSession>, conf: string, s: seq<BackupSession>,
                      m: map<string, BackupSession>)
    requires s != [] && History(m0, conf, s) && Holds(m, m0, [s[0]])
    ensures m != m0 && !Holds(m, m0, [])
  {
    assert s[0] in [s[0]] && s[0] in s;
    assert s[0].name in m && s[0].name !in m0 && !Named([], s[0].name);
  }

  lemma EarlyReturnHarms(conf: BackupConfiguration, m0: map<string, BackupSession>)
    returns (s: seq<BackupSession>, m: map<string, BackupSession>)
    requires Foreign(m0, conf.name) && !Crowded(m0) && !KeepsArrivals(conf.keep)
    ensures !LikeLoopAlone(conf, m0, s, m)
  {
    var all;
    s, m, all := EarlyReturnKeepsOne(conf, m0);
    LeftMeansMore(m0, conf.name, s, m);
  }

  /** In every namespace the early return makes no difference, for any backups, if and only if another
      success is listed or the policy keeps every arrival. */
  lemma EarlyReturnHarmlessIff(conf: BackupConfiguration, m0: map<string, BackupSession>)
    requires Foreign(m0, conf.name)
    ensures (forall s, m :: LikeLoopAlone(conf, m0, s, m)) <==> Crowded(m0) || KeepsArrivals(conf.keep)
  {
    if Crowded(m0) || KeepsArrivals(conf.keep) {
      forall s, m ensures LikeLoopAlone(conf, m0, s, m) {
        EarlyReturnHarmless(conf, m0, s, m);
      }
    } else {
      var s, m := EarlyReturnHarms(conf, m0);
    }
  }

  /** Cleaning up after every backup left `m`, and cleaning up once leaves the same. */
  ghost predicate LikeCleaningOnce(conf: BackupConfiguration, m0: map<string, BackupSession>,
                                   s: seq<BackupSession>, m: map<string, BackupSession>) {
    Dated(s) && History(m0, conf.name, s) && SafeThroughout(conf.keep, s) && CleanedEachTime(conf, m0, s, m) ==>
      forall all, order, m' :: Holds(all, m0, s) && Pass(conf, all, order, m') ==> m == m'
  }

  lemma CleaningOnceIsEnough(conf: BackupConfiguration, m0: map<string, BackupSession>,
                             s: seq<BackupSession>, m: map<string, BackupSession>)
    requires Foreign(m0, conf.name)
    requires Crowded(m0) || KeepsArrivals(conf.keep) || SelfCorrecting(conf.keep)
    ensures LikeCleaningOnce(conf, m0, s, m)
  {
    if Dated(s) && History(m0, conf.name, s) && SafeThroughout(conf.keep, s) && CleanedEachTime(conf, m0, s, m) {
      if KeepsArrivals(conf.keep) {
        ArrivalsAreKept(conf.keep, s);
      } else if SelfCorrecting(conf.keep) {
        SafeArrivalsAreKept(conf.keep, s);
      }
      forall all, order, m' | Holds(all, m0, s) && Pass(conf, all, order, m') ensures m == m' {
        CleaningOnceSuffices(conf, m0, s, m, all, order, m');
      }
    }
  }

  /** In every namespace cleaning up after every backup and cleaning up once lead to the same store, for all
      histories of safe lists, if and only if another success is listed, the policy keeps every arrival, or
      no list is safe that starts with an arrival it does not keep. */
  lemma CleaningOnceSufficesIff(conf: BackupConfiguration, m0: map<string, BackupSession>)
    requires Foreign(m0, conf.name)
    ensures (forall s, m :: LikeCleaningOnce(conf, m0, s, m)) <==>
            Crowded(m0) || KeepsArrivals(conf.keep) || SelfCorrecting(conf.keep)
  {
    if Crowded(m0) || KeepsArrivals(conf.keep) || SelfCorrecting(conf.keep) {
      forall s, m ensures LikeCleaningOnce(conf, m0, s, m) {
        CleaningOnceIsEnough(conf, m0, s, m);
      }
    } else {
      var s, m, all := EarlyReturnKeepsOne(conf, m0);
      LeftMeansMore(m0, conf.name, s, m);
      assert !LikeCleaningOnce(conf, m0, s, m);
    }
  }
}
