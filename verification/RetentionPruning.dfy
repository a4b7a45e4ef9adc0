/** Pruning twice, and pruning between two backups instead of once at the end. */
module RetentionPruning {
  import opened Api
  import opened Calendar
  import opened Retention
  import opened RetentionContract

  // ---------- Three runs side by side ----------
  //
  // `c0` prunes a list, `a` runs over the same list with fewer counters left, and `b` runs over what
  // `c0` left. The three are compared class by class.

  ghost predicate SameLast(tag: Tag, k: KeepBackup, k': KeepBackup) {
    Key(tag, k.last) == Key(tag, k'.last)
  }

  /** A class of `a` remembers what the class of `c0` remembers, or has strictly less left. */
  ghost predicate Behind(tag: Tag, k0: KeepBackup, k: KeepBackup) {
    k.counter > 0 ==> k.counter <= k0.counter && (SameLast(tag, k0, k) || k.counter < k0.counter)
  }

  ghost predicate Alike(tag: Tag, k: KeepBackup, k': KeepBackup) {
    k.counter == k'.counter && (k.counter > 0 ==> SameLast(tag, k, k'))
  }

  /** The first session the class looks at survives, unless it differs from what the class remembers. */
  predicate FirstIsSafe(tag: Tag, c: Counters, s: seq<BackupSession>)
    decreases |s|
  {
    if s == [] then true
    else if Candidate(tag, s[0].start)
    then Key(tag, s[0].start) != Key(tag, c.Get(tag).last) || Tagged(c, s[0].start)
    else FirstIsSafe(tag, Next(c, s[0].start), s[1..])
  }

  ghost predicate InStep(tag: Tag, c0: Counters, a: Counters, b: Counters, s: seq<BackupSession>) {
    && Behind(tag, c0.Get(tag), a.Get(tag))
    && Alike(tag, a.Get(tag), b.Get(tag))
    && (SameLast(tag, c0.Get(tag), a.Get(tag)) || a.Get(tag).counter <= 0 || FirstIsSafe(tag, c0, s))
  }

  /** One session, one class: what `a` takes survives `c0`, and the relation is kept. */
  lemma ClassStep(tag: Tag, c0: Counters, a: Counters, b: Counters, s: seq<BackupSession>)
    requires s != [] && InStep(tag, c0, a, b, s)
    ensures var t := s[0].start;
            && (Takes(tag, a.Get(tag), t) ==> Tagged(c0, t))
            && (Takes(tag, a.Get(tag), t) <==> Takes(tag, b.Get(tag), t))
            && (Tagged(c0, t) ==> InStep(tag, Next(c0, t), Next(a, t), Next(b, t), s[1..]))
            && (!Tagged(c0, t) ==> InStep(tag, Next(c0, t), Next(a, t), b, s[1..]))
  {
  }

  lemma LabelsFollowTags(a: Counters, b: Counters, t: Time)
    requires forall tag :: Takes(tag, a.Get(tag), t) <==> Takes(tag, b.Get(tag), t)
    ensures Label(a, t) == Label(b, t) && Tagged(a, t) == Tagged(b, t)
  {
    assert forall tag :: a.Get(tag) == a.Get(tag) && Takes(tag, a.Get(tag), t) == Takes(tag, b.Get(tag), t);
    assert a.Get(Last) == a.last && a.Get(Daily) == a.daily && a.Get(Weekly) == a.weekly
        && a.Get(Monthly) == a.monthly && a.Get(Yearly) == a.yearly;
    assert b.Get(Last) == b.last && b.Get(Daily) == b.daily && b.Get(Weekly) == b.weekly
        && b.Get(Monthly) == b.monthly && b.Get(Yearly) == b.yearly;
  }

  lemma {:induction false} PruneInStep(c0: Counters, a: Counters, b: Counters, s: seq<BackupSession>)
    requires forall tag :: InStep(tag, c0, a, b, s)
    ensures PruneFrom(b, PruneFrom(c0, s)) == PruneFrom(a, s)
    decreases |s|
  {
    if s != [] {
      var t := s[0].start;
      var c0', a' := Next(c0, t), Next(a, t);
      var b' := if Tagged(c0, t) then Next(b, t) else b;
      forall tag: Tag
        ensures InStep(tag, c0', a', b', s[1..])
        ensures Takes(tag, a.Get(tag), t) ==> Tagged(c0, t)
        ensures Takes(tag, a.Get(tag), t) <==> Takes(tag, b.Get(tag), t)
      {
        ClassStep(tag, c0, a, b, s);
      }
      PruneInStep(c0', a', b', s[1..]);
      LabelsFollowTags(a, b, t);
      TaggedMeaning(a, t);
      var rest := PruneFrom(c0', s[1..]);
      if Tagged(c0, t) {
        var kept := s[0].(keep := KeepText(c0, t));
        assert PruneFrom(c0, s) == [kept] + rest;
        assert ([kept] + rest)[1..] == rest;
      } else {
        assert PruneFrom(c0, s) == rest;
      }
    }
  }

  // ---------- Idempotence ----------

  /** A second pass over the survivors deletes nothing and assigns the same tags. */
  lemma PruneIsIdempotent(keep: Keep, s: seq<BackupSession>)
    ensures Prune(keep, Prune(keep, s)) == Prune(keep, s)
  {
    PruneInStep(Initial(keep), Initial(keep), Initial(keep), s);
  }

  // ---------- Pruning early ----------

  /** What a pass over `s` must not lose: for every class with at least two tags to give, the first
      session it looks at, should that one look like the zero time. */
  predicate SafeToPrune(keep: Keep, s: seq<BackupSession>) {
    forall tag :: Quota(keep, tag) >= 2 ==> FirstIsSafe(tag, Initial(keep), s)
  }

  lemma {:induction false} PruneFromConcat(c: Counters, n: seq<BackupSession>, s: seq<BackupSession>)
    ensures PruneFrom(c, n + s) == PruneFrom(c, n) + PruneFrom(StateAt(c, n, |n|), s)
    decreases |n|
  {
    if n == [] {
      assert n + s == s;
    } else {
      var c' := Next(c, n[0].start);
      assert (n + s)[0] == n[0] && (n + s)[1..] == n[1..] + s;
      PruneFromConcat(c', n[1..], s);
      StateShift(c, n, |n| - 1);
      assert PruneFrom(c, n + s) == PruneFrom(c, n) + PruneFrom(StateAt(c', n[1..], |n| - 1), s);
    }
  }

  lemma {:induction false} TakingCosts(c: Counters, n: seq<BackupSession>, i: nat, tag: Tag)
    requires i <= |n|
    ensures var k, k' := c.Get(tag), StateAt(c, n, i).Get(tag);
            k'.counter <= k.counter && (k'.last == k.last || k'.counter < k.counter)
  {
    if i > 0 {
      TaggedMeaning(StateAt(c, n, i - 1), n[i - 1].start);
      TakingCosts(c, n, i - 1, tag);
    }
  }

  /** Pruning before the newer sessions `n` arrive leaves exactly what one pruning afterwards leaves. */
  lemma PruneEarly(keep: Keep, n: seq<BackupSession>, s: seq<BackupSession>)
    requires SafeToPrune(keep, s)
    ensures Prune(keep, n + Prune(keep, s)) == Prune(keep, n + s)
  {
    var c0 := Initial(keep);
    var a := StateAt(c0, n, |n|);
    PruneFromConcat(c0, n, s);
    PruneFromConcat(c0, n, Prune(keep, s));
    forall tag: Tag ensures InStep(tag, c0, a, a, s) {
      TakingCosts(c0, n, |n|, tag);
      assert c0.Get(tag).counter == Quota(keep, tag);
    }
    PruneInStep(c0, a, a, s);
  }

  /** Pruning after every backup, newest first in `s`. */
  function PruneEachTime(keep: Keep, s: seq<BackupSession>): seq<BackupSession>
    decreases |s|
  {
    if s == [] then [] else Prune(keep, [s[0]] + PruneEachTime(keep, s[1..]))
  }

  /** Every list a next backup is added to is safe. */
  ghost predicate SafeThroughout(keep: Keep, s: seq<BackupSession>) {
    forall i :: 1 <= i <= |s| ==> SafeToPrune(keep, s[i..])
  }

  lemma SafeTail(keep: Keep, s: seq<BackupSession>)
    requires SafeThroughout(keep, s) && s != []
    ensures SafeThroughout(keep, s[1..]) && SafeToPrune(keep, s[1..])
  {
    forall i | 1 <= i <= |s[1..]| ensures SafeToPrune(keep, s[1..][i..]) {
      assert s[1..][i..] == s[i + 1..];
    }
  }

  /** Over any history, pruning after every single backup ends with the same sessions and tags as
      pruning once at the end, as long as every pruning on the way was safe. */
  lemma {:induction false} OnlineEqualsOffline(keep: Keep, s: seq<BackupSession>)
    requires SafeThroughout(keep, s)
    ensures PruneEachTime(keep, s) == Prune(keep, s)
    decreases |s|
  {
    if s != [] {
      SafeTail(keep, s);
      OnlineEqualsOffline(keep, s[1..]);
      PruneEarly(keep, [s[0]], s[1..]);
      assert [s[0]] + s[1..] == s;
    }
  }

  // ---------- When pruning early loses a session ----------

  ghost predicate Distinct(s: seq<BackupSession>) {
    forall i, j :: 0 <= i < j < |s| ==> s[i].name != s[j].name
  }

  /** A successful backup of the configuration, made after all sessions of the list. */
  ghost predicate Newer(n: BackupSession, s: seq<BackupSession>, conf: string) {
    && n.conf == conf && n.state == Success && Gregorian(n.start)
    && forall x :: x in s ==> x.start.unix < n.start.unix && x.name != n.name
  }

  ghost predicate Named(s: seq<BackupSession>, name: string) {
    exists x :: x in s && x.name == name
  }

  lemma {:induction false} PruneKeepsNames(c: Counters, s: seq<BackupSession>, name: string)
    requires Named(PruneFrom(c, s), name)
    ensures Named(s, name)
    decreases |s|
  {
    var x :| x in PruneFrom(c, s) && x.name == name;
    var j := OnlyEntriesAreIn(c, s, x);
    assert s[j] in s;
  }

  /** Where the first session a class looks at is not safe, a run that remembers something else and
      still counts takes it, and the pass does not. */
  lemma {:induction false} UnsafeIsLost(tag: Tag, c0: Counters, a: Counters,
                                        s: seq<BackupSession>) returns (name: string)
    requires Distinct(s) && !FirstIsSafe(tag, c0, s)
    requires a.Get(tag).counter > 0 && !SameLast(tag, c0.Get(tag), a.Get(tag))
    ensures Named(PruneFrom(a, s), name) && !Named(PruneFrom(c0, s), name) && Named(s, name)
    decreases |s|
  {
    var t := s[0].start;
    TaggedMeaning(c0, t);
    TaggedMeaning(a, t);
    if Candidate(tag, t) {
      name := s[0].name;
      assert Takes(tag, a.Get(tag), t);
      assert PruneFrom(a, s)[0].name == name && s[0] in s;
      if Named(PruneFrom(c0, s), name) {
        PruneKeepsNames(Next(c0, t), s[1..], name);
      }
    } else {
      name := UnsafeIsLost(tag, Next(c0, t), Next(a, t), s[1..]);
      assert Named(PruneFrom(a, s), name);
      assert s[0].name != name;
      var x :| x in s[1..] && x.name == name;
      assert x in s;
    }
  }

  lemma {:induction false} FreshName(s: seq<BackupSession>) returns (name: string)
    ensures |name| > 0 && forall x :: x in s ==> |x.name| < |name|
  {
    name := "n";
    if s != [] {
      name := FreshName(s[1..]);
      name := name + s[0].name;
      forall x | x in s ensures |x.name| < |name| {
        assert x == s[0] || x in s[1..];
      }
    }
  }

  lemma {:induction false} LaterYear(s: seq<BackupSession>) returns (y: int)
    ensures y > 1 && forall x :: x in s ==> x.start.unix < SECONDS_PER_DAY * YearStart(y)
  {
    y := 2;
    if s != [] {
      var z := LaterYear(s[1..]);
      y := if s[0].start.unix < z then z else s[0].start.unix + 2;
      YearsAreLong(1, z);
      YearsAreLong(z, y);
      YearsAreLong(1, y);
      forall x | x in s ensures x.start.unix < SECONDS_PER_DAY * YearStart(y) {
        assert x == s[0] || x in s[1..];
      }
    }
  }

  lemma NextMultiple(w: int) returns (k: int)
    ensures 2 <= k <= 8 && (w + k) % 7 == 0
  {
    k := if w % 7 == 6 then 8 else 7 - w % 7;
  }

  /** In every year each class has a candidate that does not look like the zero time. */
  lemma CandidateInYear(tag: Tag, y: int) returns (t: Time)
    requires y > 1 && !tag.Last?
    ensures Gregorian(t) && t.unix >= SECONDS_PER_DAY * YearStart(y)
    ensures Candidate(tag, t) && Key(tag, t) != Key(tag, ZERO_TIME)
  {
    match tag {
      case Daily => t := Midnight(y, 1, 2);
      case Weekly =>
        var k := NextMultiple(YearStart(y));
        t := Midnight(y, 1, k);
      case Monthly => t := Midnight(y, 2, 1);
      case Yearly => t := Midnight(y, 1, 1);
    }
  }

  /** A newer session the class would take, remembering something else than the zero time. */
  lemma NewerCandidate(tag: Tag, s: seq<BackupSession>, conf: string) returns (n: BackupSession)
    requires !tag.Last?
    ensures Newer(n, s, conf) && Candidate(tag, n.start) && Key(tag, n.start) != Key(tag, ZERO_TIME)
  {
    var y := LaterYear(s);
    var t := CandidateInYear(tag, y);
    var name := FreshName(s);
    n := BackupSession(name, conf, Success, t, "");
  }

  lemma LastIsSafe(keep: Keep, s: seq<BackupSession>)
    requires keep.last >= 2
    ensures FirstIsSafe(Last, Initial(keep), s)
  {
  }

  lemma UnsafeLosesOne(keep: Keep, s: seq<BackupSession>, conf: string, tag: Tag) returns (n: BackupSession)
    requires Distinct(s) && !tag.Last? && Quota(keep, tag) >= 2 && !FirstIsSafe(tag, Initial(keep), s)
    ensures Newer(n, s, conf) && Prune(keep, [n] + Prune(keep, s)) != Prune(keep, [n] + s)
  {
    var c0 := Initial(keep);
    n := NewerCandidate(tag, s, conf);
    TaggedMeaning(c0, n.start);
    PruneFromConcat(c0, [n], s);
    var a := StateAt(c0, [n], 1);
    assert a == Next(c0, n.start) && a.Get(tag) == KeepBackup(Quota(keep, tag) - 1, n.start);
    var name := UnsafeIsLost(tag, c0, a, s);
    var x :| x in PruneFrom(a, s) && x.name == name;
    assert x in Prune(keep, [n] + s);
    assert !Named([n] + Prune(keep, s), name);
    if Named(Prune(keep, [n] + Prune(keep, s)), name) {
      PruneKeepsNames(c0, [n] + Prune(keep, s), name);
    }
  }

  /** Exactly the safe lists of a configuration can be pruned before its next backup without changing what
      is left after it. */
  lemma PruneEarlyIff(keep: Keep, s: seq<BackupSession>, conf: string)
    requires Distinct(s)
    ensures SafeToPrune(keep, s) <==>
            forall n :: Newer(n, s, conf) ==> Prune(keep, [n] + Prune(keep, s)) == Prune(keep, [n] + s)
  {
    if SafeToPrune(keep, s) {
      forall n: BackupSession ensures Prune(keep, [n] + Prune(keep, s)) == Prune(keep, [n] + s) {
        PruneEarly(keep, [n], s);
      }
    } else {
      if keep.last >= 2 {
        LastIsSafe(keep, s);
      }
      var tag :| Quota(keep, tag) >= 2 && !FirstIsSafe(tag, Initial(keep), s);
      var n := UnsafeLosesOne(keep, s, conf, tag);
    }
  }

  /** The first session a class looks at does not look like the zero time. */
  predicate NoCollision(tag: Tag, s: seq<BackupSession>)
    decreases |s|
  {
    if s == [] then true
    else if Candidate(tag, s[0].start) then Key(tag, s[0].start) != Key(tag, ZERO_TIME)
    else NoCollision(tag, s[1..])
  }

  lemma {:induction false} FirstDiffersIsSafe(tag: Tag, c: Counters, s: seq<BackupSession>)
    requires NoCollision(tag, s) && Key(tag, c.Get(tag).last) == Key(tag, ZERO_TIME)
    ensures FirstIsSafe(tag, c, s)
    decreases |s|
  {
    if s != [] && !Candidate(tag, s[0].start) {
      TaggedMeaning(c, s[0].start);
      FirstDiffersIsSafe(tag, Next(c, s[0].start), s[1..]);
    }
  }

  /** In particular a list is safe if the newest daily, weekly, monthly and yearly candidates do not
      fall on the year day, month or year of the zero time. */
  lemma NoCollisionIsSafe(keep: Keep, s: seq<BackupSession>)
    requires forall tag: Tag :: tag == Last || NoCollision(tag, s)
    ensures SafeToPrune(keep, s)
  {
    forall tag: Tag | Quota(keep, tag) >= 2 ensures FirstIsSafe(tag, Initial(keep), s) {
      if !tag.Last? {
        FirstDiffersIsSafe(tag, Initial(keep), s);
      }
    }
  }

  lemma PruneOne(c: Counters, x: BackupSession)
    ensures PruneFrom(c, [x]) == if Tagged(c, x.start) then [x.(keep := KeepText(c, x.start))] else []
  {
    assert [x][1..] == [] && PruneFrom(Next(c, x.start), []) == [];
  }

  /** Not every list is safe. In any year, a policy of two daily sessions deletes the backup of a 1 January
      that is alone in its list; had the pass waited for the backup of the next day, both would be kept. */
  lemma NewYearIsLost(y: int, conf: string) returns (x: BackupSession, n: BackupSession)
    requires y > 1
    ensures Gregorian(x.start) && x.start.year == y && x.start.month == 1 && x.start.day == 1
    ensures Newer(n, [x], conf) && n.start.year == y && n.start.month == 1 && n.start.day == 2
    ensures var keep := Keep(0, 2, 0, 0, 0);
            && !SafeToPrune(keep, [x]) && Prune(keep, [x]) == []
            && Prune(keep, [n] + Prune(keep, [x])) == [n.(keep := "daily")]
            && Prune(keep, [n, x]) == [n.(keep := "daily"), x.(keep := "daily")]
  {
    var keep := Keep(0, 2, 0, 0, 0);
    var first, second := Moment(y, 1, 1, 0), Moment(y, 1, 2, 0);
    MomentIsGregorian(y, 1, 1, 0);
    MomentIsGregorian(y, 1, 2, 0);
    x, n := BackupSession("x", conf, Success, first, ""), BackupSession("n", conf, Success, second, "");
    PruneOne(Initial(keep), x);
    PruneOne(Initial(keep), n);
    PruneOne(Next(Initial(keep), n.start), x);
    assert !FirstIsSafe(Daily, Initial(keep), [x]);
    assert [n] + Prune(keep, [x]) == [n] && [n, x][1..] == [x];
  }
}
