/** `cleanupSessions` as it runs: list, sort in place, walk with five counters, delete or relabel. */
module RetentionStore {
  import opened Api
  import opened Calendar
  import opened Strings
  import opened Retention
  import opened RetentionContract
  import opened RetentionPruning

  /** `xs` lists every successful session of `m` once, in any order. */
  ghost predicate Listing(m: map<string, BackupSession>, xs: seq<BackupSession>) {
    forall x :: multiset(xs)[x] == if x.name in m && m[x.name] == x && x.state == Success then 1 else 0
  }

  /** The listed sessions of one configuration, in order. */
  function Own(xs: seq<BackupSession>, conf: string): seq<BackupSession> {
    if xs == [] then []
    else (if xs[0].conf == conf then [xs[0]] else []) + Own(xs[1..], conf)
  }

  /** `m'` is `m` after a pass that looked at `own` and kept `kept`: the rest of `own` is gone, what was
      kept carries its new tags, and everything else is untouched. */
  ghost predicate Pruned(m: map<string, BackupSession>, m': map<string, BackupSession>,
                         own: seq<BackupSession>, kept: seq<BackupSession>) {
    && (forall n :: n in m' <==> n in m && (Named(own, n) ==> Named(kept, n)))
    && (forall x :: x in kept ==> x.name in m' && m'[x.name] == x)
    && (forall n :: n in m && !Named(own, n) ==> n in m' && m'[n] == m[n])
  }

  /** One call of cleanupSessions, with the order the sort happened to produce. */
  ghost predicate Pass(conf: BackupConfiguration, m: map<string, BackupSession>, order: seq<BackupSession>,
                       m': map<string, BackupSession>) {
    && Listing(m, order) && NewestFirst(order)
    && if |order| < 2 then m' == m
       else Pruned(m, m', Own(order, conf.name), Prune(conf.keep, Own(order, conf.name)))
  }

  /** The stored sessions after the loop body ran for one session of the configuration. */
  function Handle(m: map<string, BackupSession>, c: Counters, x: BackupSession): map<string, BackupSession> {
    if Tagged(c, x.start) then m[x.name := x.(keep := KeepText(c, x.start))] else m - {x.name}
  }

  function HandleAll(m: map<string, BackupSession>, c: Counters, own: seq<BackupSession>): map<string, BackupSession>
    decreases |own|
  {
    if own == [] then m else HandleAll(Handle(m, c, own[0]), Next(c, own[0].start), own[1..])
  }

  lemma NamedSplit(x: BackupSession, s: seq<BackupSession>, n: string)
    ensures Named([x] + s, n) <==> n == x.name || Named(s, n)
  {
  }

  lemma HandleOne(m: map<string, BackupSession>, m': map<string, BackupSession>, c: Counters, x: BackupSession,
                  rest: seq<BackupSession>, kept: seq<BackupSession>)
    requires x.name in m && !Named(rest, x.name) && !Named(kept, x.name)
    requires Pruned(Handle(m, c, x), m', rest, kept)
    ensures var y := x.(keep := KeepText(c, x.start));
            Pruned(m, m', [x] + rest, (if Tagged(c, x.start) then [y] else []) + kept)
  {
    var y := x.(keep := KeepText(c, x.start));
    assert [] + kept == kept;
    forall n ensures Named([x] + rest, n) <==> n == x.name || Named(rest, n) {
      NamedSplit(x, rest, n);
    }
    forall n ensures Named([y] + kept, n) <==> n == x.name || Named(kept, n) {
      NamedSplit(y, kept, n);
    }
  }

  /** Handling the sessions one by one prunes the store as a whole. */
  lemma {:induction false} HandleAllPrunes(m: map<string, BackupSession>, c: Counters, own: seq<BackupSession>)
    requires Distinct(own) && forall x :: x in own ==> x.name in m
    ensures Pruned(m, HandleAll(m, c, own), own, PruneFrom(c, own))
    decreases |own|
  {
    if own != [] {
      var x, rest := own[0], own[1..];
      var m1, c1 := Handle(m, c, x), Next(c, x.start);
      assert own == [x] + rest;
      assert !Named(rest, x.name);
      HandleAllPrunes(m1, c1, rest);
      forall n | Named(PruneFrom(c1, rest), n) ensures n != x.name {
        PruneKeepsNames(c1, rest, n);
      }
      HandleOne(m, HandleAll(m, c, own), c, x, rest, PruneFrom(c1, rest));
    }
  }

  lemma NextOwn(order: seq<BackupSession>, i: nat, conf: string)
    requires i < |order|
    ensures order[i].conf != conf ==> Own(order[i..], conf) == Own(order[i + 1..], conf)
    ensures order[i].conf == conf ==>
              Own(order[i..], conf) != [] && Own(order[i..], conf)[0] == order[i] &&
              Own(order[i..], conf)[1..] == Own(order[i + 1..], conf)
  {
  }

  lemma {:induction false} OwnIsFilter(xs: seq<BackupSession>, conf: string, x: BackupSession)
    ensures x in Own(xs, conf) <==> x in xs && x.conf == conf
  {
    if xs != [] {
      OwnIsFilter(xs[1..], conf, x);
    }
  }

  lemma {:induction false} OwnKeepsOrder(xs: seq<BackupSession>, conf: string)
    ensures Distinct(xs) ==> Distinct(Own(xs, conf))
    ensures NewestFirst(xs) ==> NewestFirst(Own(xs, conf))
  {
    if xs != [] {
      var rest := Own(xs[1..], conf);
      OwnKeepsOrder(xs[1..], conf);
      forall i | 0 <= i < |rest|
        ensures Distinct(xs) ==> rest[i].name != xs[0].name
        ensures NewestFirst(xs) ==> rest[i].start.unix <= xs[0].start.unix
      {
        OwnIsFilter(xs[1..], conf, rest[i]);
        var j :| 0 <= j < |xs[1..]| && xs[1..][j] == rest[i];
        assert xs[j + 1] == rest[i];
      }
    }
  }

  lemma OwnIsPart(xs: seq<BackupSession>, conf: string)
    ensures forall x :: x in Own(xs, conf) <==> x in xs && x.conf == conf
    ensures Distinct(xs) ==> Distinct(Own(xs, conf))
    ensures NewestFirst(xs) ==> NewestFirst(Own(xs, conf))
  {
    OwnKeepsOrder(xs, conf);
    forall x ensures x in Own(xs, conf) <==> x in xs && x.conf == conf {
      OwnIsFilter(xs, conf, x);
    }
  }

  lemma TwiceCountsTwo<T>(xs: seq<T>, i: nat, j: nat)
    requires i < j < |xs| && xs[i] == xs[j]
    ensures multiset(xs)[xs[i]] >= 2
  {
    assert xs == xs[..j] + [xs[j]] + xs[j + 1..];
    assert xs[i] in xs[..j];
  }

  /** No name is listed twice, and every listed session is stored under its name. */
  lemma ListedOnce(m: map<string, BackupSession>, xs: seq<BackupSession>)
    requires Listing(m, xs)
    ensures Distinct(xs)
    ensures forall x :: x in xs ==> x.name in m && m[x.name] == x && x.state == Success
  {
    forall x | x in xs ensures x.name in m && m[x.name] == x && x.state == Success {
      assert x in multiset(xs);
    }
    forall i, j | 0 <= i < j < |xs| ensures xs[i].name != xs[j].name {
      if xs[i].name == xs[j].name {
        TwiceCountsTwo(xs, i, j);
      }
    }
  }

  /** Session `j` of the list is as the pass promises: gone if no class tags it, and otherwise stored under its
      name with nothing changed but its Keep, which names its tags. */
  ghost predicate Treated(keep: Keep, own: seq<BackupSession>, j: nat, m': map<string, BackupSession>)
    requires j < |own|
  {
    var name := own[j].name;
    if Survives(keep, own, j)
    then name in m' && m'[name] == own[j].(keep := m'[name].keep) && ReadsAs(keep, own, j, m'[name].keep)
    else name !in m'
  }

  lemma PrunedTreats(keep: Keep, m: map<string, BackupSession>, m': map<string, BackupSession>,
                     own: seq<BackupSession>, j: nat)
    requires Pruned(m, m', own, Prune(keep, own)) && Distinct(own) && j < |own| && own[j].name in m
    ensures Treated(keep, own, j, m')
  {
    assert own[j] in own && Named(own, own[j].name);
    if Survives(keep, own, j) {
      SurvivesIfTagged(keep, own, j);
      EntriesAreIn(Initial(keep), own, j);
      EntryReads(keep, own, j);
    } else if Named(Prune(keep, own), own[j].name) {
      var x :| x in Prune(keep, own) && x.name == own[j].name;
      var i := OnlyEntriesAreIn(Initial(keep), own, x);
      SurvivesIfTagged(keep, own, i);
    }
  }

  /** What one cleanup leaves, in terms of the stored sessions: those of other configurations and those without
      success stay as they are, the successful ones of the configuration are deleted or relabelled. */
  lemma PassMeaning(conf: BackupConfiguration, m: map<string, BackupSession>, order: seq<BackupSession>,
                    m': map<string, BackupSession>, name: string)
    requires Pass(conf, m, order, m') && |order| >= 2 && name in m && m[name].name == name
    ensures if m[name].conf == conf.name && m[name].state == Success
            then exists j :: 0 <= j < |Own(order, conf.name)| && Own(order, conf.name)[j] == m[name] &&
                   Treated(conf.keep, Own(order, conf.name), j, m')
            else name in m' && m'[name] == m[name]
    ensures m'.Keys <= m.Keys
  {
    var own := Own(order, conf.name);
    OwnIsPart(order, conf.name);
    ListedOnce(m, order);
    if m[name].conf == conf.name && m[name].state == Success {
      assert multiset(order)[m[name]] == 1;
      assert m[name] in own;
      var j: nat :| j < |own| && own[j] == m[name];
      PrunedTreats(conf.keep, m, m', own, j);
    } else {
      assert !Named(own, name);
    }
  }

  /** The tags of one session, class by class, and the counters afterwards. */
  method TagSession(c: Counters, start: Time) returns (c': Counters, keep: seq<string>, deleteSession: bool)
    ensures c' == Next(c, start) && keep == Label(c, start) && deleteSession == !Tagged(c, start)
  {
    var Counters(lastBackups, dailyBackups, weeklyBackups, monthlyBackups, yearlyBackups) := c;
    deleteSession := true;
    keep := [];
    if lastBackups.counter > 0 {
      lastBackups := lastBackups.(counter := lastBackups.counter - 1);
      keep := keep + ["last"];
      deleteSession := false;
    }
    assert lastBackups == After(Last, c.last, start) && keep == Tagging(Last, c.last, start)
        && deleteSession == !Takes(Last, c.last, start);
    ghost var before, untagged := keep, deleteSession;
    if dailyBackups.counter > 0 {
      if start.yearDay != dailyBackups.last.yearDay {
        dailyBackups := KeepBackup(dailyBackups.counter - 1, start);
        keep := keep + ["daily"];
        deleteSession := false;
      }
    }
    assert dailyBackups == After(Daily, c.daily, start) && keep == before + Tagging(Daily, c.daily, start)
        && deleteSession == (untagged && !Takes(Daily, c.daily, start));
    before, untagged := keep, deleteSession;
    if weeklyBackups.counter > 0 {
      if start.weekday == 0 && start.yearDay != weeklyBackups.last.yearDay {
        weeklyBackups := KeepBackup(weeklyBackups.counter - 1, start);
        keep := keep + ["weekly"];
        deleteSession := false;
      }
    }
    assert weeklyBackups == After(Weekly, c.weekly, start) && keep == before + Tagging(Weekly, c.weekly, start)
        && deleteSession == (untagged && !Takes(Weekly, c.weekly, start));
    before, untagged := keep, deleteSession;
    if monthlyBackups.counter > 0 {
      if start.day == 1 && start.month != monthlyBackups.last.month {
        monthlyBackups := KeepBackup(monthlyBackups.counter - 1, start);
        keep := keep + ["monthly"];
        deleteSession := false;
      }
    }
    assert monthlyBackups == After(Monthly, c.monthly, start) && keep == before + Tagging(Monthly, c.monthly, start)
        && deleteSession == (untagged && !Takes(Monthly, c.monthly, start));
    before, untagged := keep, deleteSession;
    if yearlyBackups.counter > 0 {
      if start.yearDay == 1 && start.year != yearlyBackups.last.year {
        yearlyBackups := KeepBackup(yearlyBackups.counter - 1, start);
        keep := keep + ["yearly"];
        deleteSession := false;
      }
    }
    assert yearlyBackups == After(Yearly, c.yearly, start) && keep == before + Tagging(Yearly, c.yearly, start)
        && deleteSession == (untagged && !Takes(Yearly, c.yearly, start));
    c' := Counters(lastBackups, dailyBackups, weeklyBackups, monthlyBackups, yearlyBackups);
  }

  ghost predicate SortedTo(items: array<BackupSession>, n: nat)
    requires n <= items.Length
    reads items
  {
    forall a, b :: 0 <= a < b < n ==> items[a].start.unix >= items[b].start.unix
  }

  method Swap(items: array<BackupSession>, j: nat)
    requires 0 < j < items.Length
    modifies items
    ensures items[j - 1] == old(items[j]) && items[j] == old(items[j - 1])
    ensures forall k :: 0 <= k < items.Length && k != j - 1 && k != j ==> items[k] == old(items[k])
    ensures multiset(items[..]) == multiset(old(items[..]))
  {
    items[j - 1], items[j] := items[j], items[j - 1];
  }

  /** Moves item `n` in front of the older ones before it. */
  method Insert(items: array<BackupSession>, n: nat)
    requires n < items.Length && SortedTo(items, n)
    modifies items
    ensures SortedTo(items, n + 1) && multiset(items[..]) == multiset(old(items[..]))
  {
    var j := n;
    while j > 0 && items[j - 1].start.unix < items[j].start.unix
      invariant 0 <= j <= n
      invariant forall a, b :: 0 <= a < b <= n && b != j ==> items[a].start.unix >= items[b].start.unix
      invariant multiset(items[..]) == multiset(old(items[..]))
    {
      Swap(items, j);
      j := j - 1;
    }
  }

  /** sort.Slice by descending start second; nothing is promised about ties. */
  method SortNewestFirst(items: array<BackupSession>)
    modifies items
    ensures NewestFirst(items[..]) && multiset(items[..]) == multiset(old(items[..]))
  {
    for n := 0 to items.Length
      invariant SortedTo(items, n) && multiset(items[..]) == multiset(old(items[..]))
    {
      Insert(items, n);
    }
  }

  /** The BackupSessions of one namespace, as the API server holds them. */
  class SessionStore {
    var sessions: map<string, BackupSession>

    ghost predicate Valid()
      reads this
    {
      forall n :: n in sessions ==> sessions[n].name == n
    }

    constructor (sessions: map<string, BackupSession>)
      requires forall n :: n in sessions ==> sessions[n].name == n
      ensures Valid() && this.sessions == sessions
    {
      this.sessions := sessions;
    }

    method ListSuccess() returns (items: array<BackupSession>)
      requires Valid()
      ensures fresh(items) && Listing(sessions, items[..])
    {
      var found: seq<BackupSession> := [];
      var todo := sessions.Keys;
      while todo != {}
        invariant todo <= sessions.Keys
        invariant forall x :: multiset(found)[x] ==
                    if x.name in sessions && x.name !in todo && sessions[x.name] == x && x.state == Success
                    then 1 else 0
        decreases todo
      {
        var n :| n in todo;
        todo := todo - {n};
        if sessions[n].state == Success {
          found := found + [sessions[n]];
        }
      }
      items := new BackupSession[|found|](i requires 0 <= i < |found| => found[i]);
      assert items[..] == found;
    }

    method Delete(name: string)
      modifies this
      ensures sessions == old(sessions) - {name}
    {
      sessions := sessions - {name};
    }

    method UpdateStatus(session: BackupSession)
      modifies this
      ensures sessions == old(sessions)[session.name := session]
    {
      sessions := sessions[session.name := session];
    }

    /** The loop of cleanupSessions over the sorted items. */
    method WalkSessions(items: array<BackupSession>, conf: BackupConfiguration)
      requires Valid()
      modifies this
      ensures Valid() && sessions == HandleAll(old(sessions), Initial(conf.keep), Own(items[..], conf.name))
    {
      var c := Initial(conf.keep);
      ghost var order := items[..];
      assert order[0..] == order;
      for i := 0 to items.Length
        invariant Valid()
        invariant HandleAll(sessions, c, Own(order[i..], conf.name)) ==
                  HandleAll(old(sessions), Initial(conf.keep), Own(order, conf.name))
      {
        var session := items[i];
        NextOwn(order, i, conf.name);
        if session.conf != conf.name {
          continue;
        }
        ghost var after := Handle(sessions, c, session);
        var c', keep, deleteSession := TagSession(c, session.start);
        c := c';
        if deleteSession {
          Delete(session.name);
        } else {
          session := session.(keep := Join(keep, ','));
          UpdateStatus(session);
        }
        assert sessions == after;
      }
    }

    method CleanupSessions(conf: BackupConfiguration) returns (ghost order: seq<BackupSession>)
      requires Valid()
      modifies this
      ensures Valid() && Pass(conf, old(sessions), order, sessions)
    {
      var items := ListSuccess();
      order := items[..];
      if items.Length < 2 {
        return;
      }
      SortNewestFirst(items);
      order := items[..];
      ListedOnce(sessions, order);
      OwnIsPart(order, conf.name);
      HandleAllPrunes(sessions, Initial(conf.keep), Own(order, conf.name));
      WalkSessions(items, conf);
    }
  }
}
