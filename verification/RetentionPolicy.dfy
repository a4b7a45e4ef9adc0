/** What can be said of every list of backups from the retention policy alone. */
module RetentionPolicy {
  import opened Api
  import opened Calendar
  import opened Retention
  import opened RetentionPruning

  /** Gregorian starts after the year of the zero time. */
  ghost predicate Dated(s: seq<BackupSession>) {
    forall x :: x in s ==> Gregorian(x.start) && x.start.year > 1
  }

  predicate Before(x: BackupSession, y: BackupSession) {
    x.start.unix > y.start.unix && x.name != y.name
  }

  /** Newest first, no two in the same second or under the same name. */
  ghost predicate Sequenced(s: seq<BackupSession>) {
    forall i, j :: 0 <= i < j < |s| ==> Before(s[i], s[j])
  }

  ghost predicate Leads(x: BackupSession, s: seq<BackupSession>) {
    forall y :: y in s ==> Before(x, y)
  }

  lemma SequencedSplit(x: BackupSession, s: seq<BackupSession>)
    ensures Sequenced([x] + s) <==> Leads(x, s) && Sequenced(s)
  {
    var xs := [x] + s;
    assert xs[0] == x && forall i :: 0 <= i < |s| ==> xs[i + 1] == s[i];
    if Sequenced(xs) {
      forall y | y in s ensures Before(x, y) {
        var i :| 0 <= i < |s| && s[i] == y;
        assert Before(xs[0], xs[i + 1]);
      }
      forall i, j | 0 <= i < j < |s| ensures Before(s[i], s[j]) {
        assert Before(xs[i + 1], xs[j + 1]);
      }
    }
  }

  /** Unary names for example backups. */
  function Example(n: nat, start: Time): BackupSession {
    BackupSession(seq(n, _ => 'b'), "", Success, start, "")
  }

  /** In year 2 the first two days of January are a Tuesday and a Wednesday. */
  lemma SecondYear(k: int, second: int) returns (t: Time)
    requires k in {1, 2} && 0 <= second < SECONDS_PER_DAY
    ensures Gregorian(t) && t.year == 2 && t.month == 1 && t.day == t.yearDay == k && t.weekday == k + 1
    ensures t.unix == SECONDS_PER_DAY * (364 + k) + second
  {
    assert YearStart(2) == 365;
    t := Moment(2, 1, k, second);
    MomentIsGregorian(2, 1, k, second);
  }

  // ---------- Which policies keep every backup on arrival ----------

  predicate KeepsArrivals(keep: Keep) {
    keep.last >= 1 || (keep.daily >= 1 && keep.yearly >= 1)
  }

  /** A day of January of year 2 on which no class of a policy that does not keep arrivals takes a session. */
  function IdleDay(keep: Keep): int {
    if keep.daily <= 0 then 2 else 1
  }

  lemma NotTaken(keep: Keep, second: int) returns (t: Time)
    requires !KeepsArrivals(keep) && 0 <= second < SECONDS_PER_DAY
    ensures Gregorian(t) && t.year == 2 && t.month == 1 && t.day == t.yearDay == IdleDay(keep) && t.weekday != 0
    ensures t.unix == SECONDS_PER_DAY * (364 + IdleDay(keep)) + second
    ensures !Tagged(Initial(keep), t)
  {
    t := SecondYear(IdleDay(keep), second);
  }

  /** Every backup is tagged by the first pass that sees it as the newest if and only if the policy has a
      `last`, or both a `daily` and a `yearly` session. */
  lemma KeptOnArrivalIff(keep: Keep)
    ensures (forall t :: Gregorian(t) && t.year > 1 ==> Tagged(Initial(keep), t)) <==> KeepsArrivals(keep)
  {
    if !KeepsArrivals(keep) {
      var t := NotTaken(keep, 0);
    }
  }

  // ---------- Which policies make every list safe to prune ----------

  predicate AlwaysSafe(keep: Keep) {
    && keep.weekly <= 1
    && (keep.monthly <= 1 || keep.yearly >= 1)
    && (keep.daily <= 1 || keep.last >= 1 || keep.yearly >= 1)
  }

  lemma {:induction false} YearsDoNotCollide(s: seq<BackupSession>)
    requires Dated(s)
    ensures NoCollision(Yearly, s)
  {
    if s != [] {
      assert s[0] in s;
      YearsDoNotCollide(s[1..]);
    }
  }

  /** A 1 January is a candidate for the yearly tag, too. */
  lemma {:induction false} YearlySavesMonthly(c: Counters, s: seq<BackupSession>)
    requires Dated(s) && c.yearly.counter > 0 && c.yearly.last.year == 1 && c.monthly.last.month == 1
    ensures FirstIsSafe(Monthly, c, s)
    decreases |s|
  {
    if s != [] {
      assert s[0] in s;
      if !Candidate(Monthly, s[0].start) {
        YearlySavesMonthly(Next(c, s[0].start), s[1..]);
      }
    }
  }

  lemma SafePolicy(keep: Keep, s: seq<BackupSession>)
    requires AlwaysSafe(keep) && Dated(s)
    ensures SafeToPrune(keep, s)
  {
    forall tag: Tag | Quota(keep, tag) >= 2 ensures FirstIsSafe(tag, Initial(keep), s) {
      match tag {
        case Last => LastIsSafe(keep, s);
        case Daily => assert s != [] ==> s[0] in s;
        case Monthly => YearlySavesMonthly(Initial(keep), s);
        case Yearly =>
          YearsDoNotCollide(s);
          FirstDiffersIsSafe(Yearly, Initial(keep), s);
        case Weekly => assert false;
      }
    }
  }

  /** A 1 January. */
  predicate NewYear(t: Time, weekday: int) {
    t.month == t.day == t.yearDay == 1 && t.weekday == weekday
  }

  /** New Years on a Tuesday, in different years, and behind them one on a Sunday. */
  ghost predicate NewYears(s: seq<BackupSession>)
    decreases |s|
  {
    if |s| <= 1 then |s| == 1 && NewYear(s[0].start, 0)
    else NewYear(s[0].start, 2) && s[0].start.year > s[1].start.year && NewYears(s[1..])
  }

  /** The other New Years use up the `last` and `yearly` tags, so nothing saves the Sunday. */
  lemma {:induction false} NewYearsAreUnsafe(c: Counters, s: seq<BackupSession>)
    requires NewYears(s) && c.last.counter < |s| && c.yearly.counter < |s|
    requires c.yearly.last.year == 1 < s[0].start.year || c.yearly.last.year > s[0].start.year
    requires Dated(s)
    requires c.daily.last.yearDay == c.weekly.last.yearDay == c.monthly.last.month == 1
    ensures !FirstIsSafe(Weekly, c, s)
    decreases |s|
  {
    if |s| > 1 {
      NewYearsAreUnsafe(Next(c, s[0].start), s[1..]);
    }
  }

  lemma CycleStart(n: nat)
    ensures YearStart(2 + 400 * n) == 365 + DAYS_PER_CYCLE * n
  {
    assert YearStart(2) == 365;
    CycleShift(2, n);
  }

  /** 400 years are a whole number of weeks. */
  lemma SameWeekday(n: nat)
    ensures (365 + DAYS_PER_CYCLE * n + 1) % 7 == 2
  {
    assert 365 + DAYS_PER_CYCLE * n + 1 == 7 * (20871 * n + 52) + 2;
  }

  lemma TuesdayNewYear(n: nat) returns (t: Time)
    ensures Gregorian(t) && NewYear(t, 2) && t.year == 2 + 400 * n
    ensures t.unix == SECONDS_PER_DAY * (365 + DAYS_PER_CYCLE * n)
  {
    CycleStart(n);
    SameWeekday(n);
    t := Midnight(2 + 400 * n, 1, 1);
  }

  lemma SundayNewYear() returns (t: Time)
    ensures Gregorian(t) && NewYear(t, 0) && t.year == 6 && t.unix == SECONDS_PER_DAY * 1826
  {
    assert YearStart(6) == 1826;
    t := Midnight(6, 1, 1);
  }

  /** The years 2 + 400 n start on a Tuesday, year 6 starts on a Sunday. */
  lemma {:induction false} SomeNewYears(n: nat) returns (s: seq<BackupSession>)
    ensures NewYears(s) && |s| == n + 1 && Dated(s) && Sequenced(s)
    ensures s[0].start.year == if n == 0 then 6 else 2 + 400 * n
    ensures forall x :: x in s ==>
              |x.name| <= n && x.start.unix <= SECONDS_PER_DAY * (1826 + DAYS_PER_CYCLE * n)
  {
    if n == 0 {
      var t := SundayNewYear();
      s := [Example(0, t)];
    } else {
      var t := TuesdayNewYear(n);
      var rest := SomeNewYears(n - 1);
      s := [Example(n, t)] + rest;
      assert s[1..] == rest;
      SequencedSplit(Example(n, t), rest);
    }
  }

  /** A 2 or 3 January of each of several years, not the same day in two years in a row, and behind
      them a 1 January on a Tuesday. */
  ghost predicate Januaries(s: seq<BackupSession>)
    decreases |s|
  {
    if |s| <= 1 then |s| == 1 && NewYear(s[0].start, 2)
    else
      && 2 <= s[0].start.day == s[0].start.yearDay != s[1].start.yearDay
      && Januaries(s[1..])
  }

  /** They use up the `last` and `daily` tags, so nothing saves the 1 January. */
  lemma {:induction false} JanuariesAreUnsafe(c: Counters, s: seq<BackupSession>)
    requires Januaries(s) && c.last.counter < |s| && c.daily.counter < |s|
    requires |s| > 1 && c.daily.counter > 0 ==> c.daily.last.yearDay != s[0].start.yearDay
    requires c.yearly.counter <= 0 && c.monthly.last.month == 1
    ensures !FirstIsSafe(Monthly, c, s)
    decreases |s|
  {
    if |s| > 1 {
      JanuariesAreUnsafe(Next(c, s[0].start), s[1..]);
    }
  }

  lemma EarlyJanuary(n: nat, k: int) returns (t: Time)
    requires k in {2, 3}
    ensures Gregorian(t) && t.year == 2 + 400 * n && t.day == t.yearDay == k
    ensures t.unix == SECONDS_PER_DAY * (364 + k + DAYS_PER_CYCLE * n)
  {
    CycleStart(n);
    t := Midnight(2 + 400 * n, 1, k);
  }

  lemma {:induction false} SomeJanuaries(n: nat) returns (s: seq<BackupSession>)
    ensures Januaries(s) && |s| == n + 1 && Dated(s) && Sequenced(s)
    ensures if n == 0 then s[0].start.yearDay == 1 else s[0].start.yearDay in {2, 3}
    ensures forall x :: x in s ==>
              |x.name| <= n && x.start.unix <= SECONDS_PER_DAY * (367 + DAYS_PER_CYCLE * n)
  {
    if n == 0 {
      var t := SecondYear(1, 0);
      s := [Example(0, t)];
    } else {
      var rest := SomeJanuaries(n - 1);
      var t := EarlyJanuary(n, if rest[0].start.yearDay == 2 then 3 else 2);
      s := [Example(n, t)] + rest;
      assert s[1..] == rest;
      SequencedSplit(Example(n, t), rest);
    }
  }

  function Most(a: int, b: int): nat {
    if a <= 0 && b <= 0 then 0 else if a < b then b else a
  }

  lemma UnsafeList(keep: Keep) returns (s: seq<BackupSession>, tag: Tag)
    requires !AlwaysSafe(keep)
    ensures Dated(s) && Sequenced(s) && Quota(keep, tag) >= 2 && !FirstIsSafe(tag, Initial(keep), s)
  {
    if keep.weekly >= 2 {
      s := SomeNewYears(Most(keep.last, keep.yearly));
      tag := Weekly;
      NewYearsAreUnsafe(Initial(keep), s);
    } else if keep.monthly >= 2 && keep.yearly <= 0 {
      s := SomeJanuaries(Most(keep.last, keep.daily));
      tag := Monthly;
      JanuariesAreUnsafe(Initial(keep), s);
    } else {
      s := SomeJanuaries(0);
      tag := Daily;
    }
  }

  /** Every list of backups is safe to prune, whatever its dates, if and only if the policy has at most one
      weekly session, a yearly one if it has two monthly ones, and a last or a yearly one if it has two
      daily ones. */
  lemma AlwaysSafeIff(keep: Keep)
    ensures (forall s :: Dated(s) && Distinct(s) && NewestFirst(s) ==> SafeToPrune(keep, s)) <==> AlwaysSafe(keep)
  {
    if AlwaysSafe(keep) {
      forall s | Dated(s) ensures SafeToPrune(keep, s) {
        SafePolicy(keep, s);
      }
    } else {
      var s, tag := UnsafeList(keep);
    }
  }
}
