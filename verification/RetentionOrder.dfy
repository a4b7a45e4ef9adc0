/** `sort.Slice` is not stable: sessions started in the same second may come in any order. A second
    pass over the survivors nevertheless deletes nothing, in whatever order they are then sorted. */
module RetentionOrder {
  import opened Api
  import opened Retention
  import opened RetentionContract
  import opened RetentionPruning

  function Units(s: seq<BackupSession>): seq<int> {
    seq(|s|, i requires 0 <= i < |s| => s[i].start.unix)
  }

  ghost predicate Descending(xs: seq<int>) {
    forall i, j :: 0 <= i < j < |xs| ==> xs[i] >= xs[j]
  }

  function Without<T>(xs: seq<T>, j: nat): seq<T>
    requires j < |xs|
  {
    xs[..j] + xs[j + 1..]
  }

  lemma MultisetWithout<T>(xs: seq<T>, j: nat)
    requires j < |xs|
    ensures multiset(Without(xs, j)) == multiset(xs) - multiset{xs[j]}
  {
    assert xs == xs[..j] + [xs[j]] + xs[j + 1..];
  }

  lemma SameSize<T>(xs: seq<T>, ys: seq<T>)
    requires multiset(xs) == multiset(ys)
    ensures |xs| == |ys|
  {
    assert |multiset(xs)| == |xs|;
  }

  lemma SameHead(xs: seq<int>, ys: seq<int>)
    requires Descending(xs) && Descending(ys) && multiset(xs) == multiset(ys) && xs != [] && ys != []
    ensures xs[0] == ys[0]
  {
    assert xs[0] in multiset(ys) && ys[0] in multiset(xs);
    var i :| 0 <= i < |ys| && ys[i] == xs[0];
    var j :| 0 <= j < |xs| && xs[j] == ys[0];
  }

  lemma Tails(xs: seq<int>, ys: seq<int>)
    requires Descending(xs) && Descending(ys) && multiset(xs) == multiset(ys) && xs != [] && ys != []
    ensures xs[0] == ys[0] && Descending(xs[1..]) && Descending(ys[1..]) && multiset(xs[1..]) == multiset(ys[1..])
  {
    SameHead(xs, ys);
    MultisetWithout(xs, 0);
    MultisetWithout(ys, 0);
    assert Without(xs, 0) == xs[1..] && Without(ys, 0) == ys[1..];
  }

  lemma {:induction false} SortedIsUnique(xs: seq<int>, ys: seq<int>)
    requires Descending(xs) && Descending(ys) && multiset(xs) == multiset(ys)
    ensures xs == ys
  {
    SameSize(xs, ys);
    if xs != [] {
      Tails(xs, ys);
      SortedIsUnique(xs[1..], ys[1..]);
      assert xs == [xs[0]] + xs[1..] && ys == [ys[0]] + ys[1..];
    }
  }

  lemma UnitsWithout(p: seq<BackupSession>, j: nat)
    requires j < |p|
    ensures Units(Without(p, j)) == Without(Units(p), j) && Units(p)[j] == p[j].start.unix
  {
  }

  lemma MultisetBack<T>(xs: seq<T>, i: nat, ys: seq<T>, j: nat)
    requires i < |xs| && j < |ys| && xs[i] == ys[j]
    requires multiset(Without(xs, i)) == multiset(Without(ys, j))
    ensures multiset(xs) == multiset(ys)
  {
    assert xs == xs[..i] + [xs[i]] + xs[i + 1..];
    assert ys == ys[..j] + [ys[j]] + ys[j + 1..];
    assert multiset(xs) == multiset(Without(xs, i)) + multiset{xs[i]};
    assert multiset(ys) == multiset(Without(ys, j)) + multiset{ys[j]};
  }

  lemma {:induction false} UnitsPermute(p: seq<BackupSession>, q: seq<BackupSession>)
    requires multiset(p) == multiset(q)
    ensures multiset(Units(p)) == multiset(Units(q))
    decreases |p|
  {
    SameSize(p, q);
    if p != [] {
      assert p[0] in multiset(q);
      var j :| 0 <= j < |q| && q[j] == p[0];
      MultisetWithout(p, 0);
      MultisetWithout(q, j);
      UnitsPermute(Without(p, 0), Without(q, j));
      UnitsWithout(p, 0);
      UnitsWithout(q, j);
      MultisetBack(Units(p), 0, Units(q), j);
    } else {
      assert Units(p) == Units(q);
    }
  }

  /** The pass sees nothing of a session but its start. */
  lemma {:induction false} StartsDecide(c: Counters, p: seq<BackupSession>, q: seq<BackupSession>)
    requires |p| == |q| && forall i :: 0 <= i < |p| ==> p[i].start == q[i].start
    ensures |PruneFrom(c, p)| == |PruneFrom(c, q)|
    decreases |p|
  {
    if p != [] {
      StartsDecide(Next(c, p[0].start), p[1..], q[1..]);
    }
  }

  lemma {:induction false} PruneIsShorter(c: Counters, s: seq<BackupSession>)
    ensures |PruneFrom(c, s)| <= |s|
    ensures |PruneFrom(c, s)| == |s| ==>
              forall i :: 0 <= i < |s| ==> KeptAt(c, s, i) && PruneFrom(c, s)[i] == EntryAt(c, s, i)
    decreases |s|
  {
    if s != [] {
      var c' := Next(c, s[0].start);
      PruneIsShorter(c', s[1..]);
      if |PruneFrom(c, s)| == |s| {
        forall i | 0 <= i < |s| ensures KeptAt(c, s, i) && PruneFrom(c, s)[i] == EntryAt(c, s, i) {
          if i > 0 {
            EntryShift(c, s, i);
            assert PruneFrom(c, s)[i] == PruneFrom(c', s[1..])[i - 1];
          }
        }
      }
    }
  }

  lemma {:induction false} PruneKeepsStarts(c: Counters, s: seq<BackupSession>, k: int)
    requires NewestFirst(s) && forall i :: 0 <= i < |s| ==> s[i].start.unix <= k
    ensures NewestFirst(PruneFrom(c, s))
    ensures forall x :: x in PruneFrom(c, s) ==> x.start.unix <= k && exists y :: y in s && y.start == x.start
    decreases |s|
  {
    if s != [] {
      PruneKeepsStarts(Next(c, s[0].start), s[1..], s[0].start.unix);
      forall x | x in PruneFrom(c, s) ensures x.start.unix <= k && exists y :: y in s && y.start == x.start {
        if x in PruneFrom(Next(c, s[0].start), s[1..]) {
          var y :| y in s[1..] && y.start == x.start;
          assert y in s;
        } else {
          assert s[0] in s && x.start == s[0].start;
        }
      }
    }
  }

  /** Equal instants read the same on the calendar. */
  ghost predicate OneClock(s: seq<BackupSession>) {
    forall x, y :: x in s && y in s && x.start.unix == y.start.unix ==> x.start == y.start
  }

  /** `q` is what sorting the survivors of `s` may yield before a second pass. */
  ghost predicate Resorted(keep: Keep, s: seq<BackupSession>, q: seq<BackupSession>) {
    NewestFirst(s) && OneClock(s) && NewestFirst(q) && multiset(q) == multiset(Prune(keep, s))
  }

  lemma ResortedKeepsStarts(keep: Keep, s: seq<BackupSession>, q: seq<BackupSession>)
    requires Resorted(keep, s, q)
    ensures |q| == |Prune(keep, s)| && forall i :: 0 <= i < |q| ==> q[i].start == Prune(keep, s)[i].start
  {
    var k := Prune(keep, s);
    PruneKeepsStarts(Initial(keep), s, if s == [] then 0 else s[0].start.unix);
    UnitsPermute(q, k);
    SortedIsUnique(Units(q), Units(k));
    assert |q| == |Units(q)| == |Units(k)| == |k|;
    forall i | 0 <= i < |q| ensures q[i].start == k[i].start {
      assert Units(q)[i] == Units(k)[i];
      assert q[i] in multiset(q) && k[i] in k;
      assert q[i] in k;
      var x :| x in s && x.start == q[i].start;
      var y :| y in s && y.start == k[i].start;
    }
  }

  ghost predicate Apart(s: seq<BackupSession>) {
    forall i, j :: 0 <= i < j < |s| ==> s[i].start.unix != s[j].start.unix
  }

  lemma ApartSortsAlike(p: seq<BackupSession>, q: seq<BackupSession>)
    requires NewestFirst(p) && NewestFirst(q) && Apart(q) && multiset(p) == multiset(q)
    ensures p == q
  {
    UnitsPermute(p, q);
    SortedIsUnique(Units(p), Units(q));
    assert |p| == |Units(p)| == |Units(q)| == |q|;
    forall i | 0 <= i < |p| ensures p[i] == q[i] {
      assert Units(p)[i] == Units(q)[i];
      assert p[i] in multiset(q);
      var j :| 0 <= j < |q| && q[j] == p[i];
    }
  }

  lemma ApartMeansSame(keep: Keep, s: seq<BackupSession>, q: seq<BackupSession>)
    requires Resorted(keep, s, q) && Apart(q)
    ensures q == Prune(keep, s)
  {
    PruneKeepsStarts(Initial(keep), s, if s == [] then 0 else s[0].start.unix);
    ApartSortsAlike(Prune(keep, s), q);
  }

  /** The second pass keeps every survivor, and if no two started in the same second it also leaves
      every tag alone. */
  lemma SecondPass(keep: Keep, s: seq<BackupSession>, q: seq<BackupSession>)
    requires Resorted(keep, s, q)
    ensures forall i :: 0 <= i < |q| ==> Survives(keep, q, i)
    ensures |Prune(keep, q)| == |q| && forall i :: 0 <= i < |q| ==> Prune(keep, q)[i].name == q[i].name
    ensures Apart(q) ==> Prune(keep, q) == q
  {
    ResortedKeepsStarts(keep, s, q);
    PruneIsIdempotent(keep, s);
    StartsDecide(Initial(keep), q, Prune(keep, s));
    PruneIsShorter(Initial(keep), q);
    forall i: nat | i < |q| ensures Survives(keep, q, i) {
      SurvivesIfTagged(keep, q, i);
    }
    if Apart(q) {
      ApartMeansSame(keep, s, q);
    }
  }
}
