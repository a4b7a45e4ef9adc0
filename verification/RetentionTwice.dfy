/** Running `cleanupSessions` again, over the stored sessions as the first run left them. */
module RetentionTwice {
  import opened Api
  import opened Retention
  import opened RetentionContract
  import opened RetentionPruning
  import opened RetentionOrder
  import opened RetentionStore

  lemma {:induction false} OwnCounts(xs: seq<BackupSession>, conf: string, x: BackupSession)
    ensures multiset(Own(xs, conf))[x] == if x.conf == conf then multiset(xs)[x] else 0
  {
    if xs != [] {
      OwnCounts(xs[1..], conf, x);
      assert xs == [xs[0]] + xs[1..];
    }
  }

  lemma OnceEach(s: seq<BackupSession>, x: BackupSession)
    requires Distinct(s)
    ensures multiset(s)[x] == if x in s then 1 else 0
  {
    if x in s {
      var i :| 0 <= i < |s| && s[i] == x;
      assert s == s[..i] + [x] + s[i + 1..];
      assert x !in s[..i] && x !in s[i + 1..];
    }
  }

  lemma {:induction false} PruneIsDistinct(c: Counters, s: seq<BackupSession>)
    requires Distinct(s)
    ensures Distinct(PruneFrom(c, s))
    decreases |s|
  {
    if s != [] {
      var c' := Next(c, s[0].start);
      PruneIsDistinct(c', s[1..]);
      forall x | x in PruneFrom(c', s[1..]) ensures x.name != s[0].name {
        assert Named(PruneFrom(c', s[1..]), x.name);
        PruneKeepsNames(c', s[1..], x.name);
      }
    }
  }

  lemma ListedOwn(m: map<string, BackupSession>, order: seq<BackupSession>, conf: string, x: BackupSession)
    requires Listing(m, order) && x.name in m && m[x.name] == x && x.state == Success && x.conf == conf
    ensures x in Own(order, conf)
  {
    assert multiset(order)[x] == 1;
    OwnIsPart(order, conf);
  }

  /** What is still listed for the configuration is what the first pass kept. */
  lemma SurvivorsAreListed(conf: BackupConfiguration, m: map<string, BackupSession>, order: seq<BackupSession>,
                           m': map<string, BackupSession>, x: BackupSession)
    requires Pass(conf, m, order, m') && |order| >= 2
    ensures x in Prune(conf.keep, Own(order, conf.name)) <==>
            x.name in m' && m'[x.name] == x && x.state == Success && x.conf == conf.name
  {
    var own := Own(order, conf.name);
    var kept := Prune(conf.keep, own);
    OwnIsPart(order, conf.name);
    ListedOnce(m, order);
    if x in kept {
      var j := OnlyEntriesAreIn(Initial(conf.keep), own, x);
      assert own[j] in own;
    }
    if x.name in m' && m'[x.name] == x && x.state == Success && x.conf == conf.name {
      if x.name in m && m[x.name] == x {
        ListedOwn(m, order, conf.name, x);
      }
      assert Named(own, x.name);
      var y :| y in kept && y.name == x.name;
    }
  }

  lemma ListedAgain(conf: BackupConfiguration, m: map<string, BackupSession>, order: seq<BackupSession>,
                    m': map<string, BackupSession>, order': seq<BackupSession>)
    requires Pass(conf, m, order, m') && |order| >= 2 && Listing(m', order')
    ensures multiset(Own(order', conf.name)) == multiset(Prune(conf.keep, Own(order, conf.name)))
  {
    var own, kept := Own(order', conf.name), Prune(conf.keep, Own(order, conf.name));
    ListedOnce(m, order);
    OwnIsPart(order, conf.name);
    PruneIsDistinct(Initial(conf.keep), Own(order, conf.name));
    forall x ensures multiset(own)[x] == multiset(kept)[x] {
      OwnCounts(order', conf.name, x);
      OnceEach(kept, x);
      SurvivorsAreListed(conf, m, order, m', x);
    }
  }

  lemma SameListing(m: map<string, BackupSession>, p: seq<BackupSession>, q: seq<BackupSession>)
    requires Listing(m, p) && Listing(m, q)
    ensures |p| == |q|
  {
    assert forall x :: multiset(p)[x] == multiset(q)[x];
    SameSize(p, q);
  }

  lemma SameNames(q: seq<BackupSession>, k: seq<BackupSession>)
    requires |q| == |k| && forall i :: 0 <= i < |q| ==> k[i].name == q[i].name
    ensures forall n :: Named(q, n) ==> Named(k, n)
  {
  }

  lemma SecondWalk(conf: BackupConfiguration, m: map<string, BackupSession>, order: seq<BackupSession>,
                   m': map<string, BackupSession>, order': seq<BackupSession>)
    requires Pass(conf, m, order, m') && |order| >= 2 && OneClock(order)
    requires Listing(m', order') && NewestFirst(order')
    ensures var q := Own(order', conf.name);
            && (forall n :: Named(q, n) ==> Named(Prune(conf.keep, q), n))
            && (Apart(q) ==> Prune(conf.keep, q) == q)
  {
    var own, q := Own(order, conf.name), Own(order', conf.name);
    OwnIsPart(order, conf.name);
    OwnIsPart(order', conf.name);
    ListedAgain(conf, m, order, m', order');
    assert Resorted(conf.keep, own, q);
    SecondPass(conf.keep, own, q);
    SameNames(q, Prune(conf.keep, q));
  }

  lemma SameStore(m: map<string, BackupSession>, m': map<string, BackupSession>, order: seq<BackupSession>,
                  conf: string, kept: seq<BackupSession>)
    requires Listing(m, order) && Pruned(m, m', Own(order, conf), kept)
    requires forall n :: Named(Own(order, conf), n) ==> Named(kept, n)
    ensures m'.Keys == m.Keys
    ensures kept == Own(order, conf) ==> m' == m
  {
    if kept == Own(order, conf) {
      OwnIsPart(order, conf);
      ListedOnce(m, order);
      forall n | n in m ensures m'[n] == m[n] {
        if Named(kept, n) {
          var x :| x in kept && x.name == n;
        }
      }
    }
  }

  /** A second cleanup deletes nothing, whatever order its sort produces; it changes no stored session
      at all if no two of this configuration started in the same second. */
  lemma SecondCleanup(conf: BackupConfiguration,
                      m: map<string, BackupSession>, order: seq<BackupSession>,
                      m': map<string, BackupSession>, order': seq<BackupSession>,
                      m'': map<string, BackupSession>)
    requires Pass(conf, m, order, m') && Pass(conf, m', order', m'') && OneClock(order)
    ensures m''.Keys == m'.Keys
    ensures Apart(Own(order', conf.name)) ==> m'' == m'
  {
    if |order'| >= 2 {
      if |order| < 2 {
        SameListing(m, order, order');
      } else {
        SecondWalk(conf, m, order, m', order');
        SameStore(m', m'', order', conf.name, Prune(conf.keep, Own(order', conf.name)));
      }
    }
  }
}
