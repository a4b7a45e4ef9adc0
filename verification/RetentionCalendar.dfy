/** When the day, week, month and year classes do what their names say, although they compare only a
    day of the year, a month or a year. */
module RetentionCalendar {
  import opened Api
  import opened Calendar
  import opened Retention

  ghost predicate GregorianTimes(s: seq<BackupSession>) {
    forall i :: 0 <= i < |s| ==> Gregorian(s[i].start)
  }

  function DayOf(x: BackupSession): int {
    Day(x.start.unix)
  }

  lemma SameDaySameKey(tag: Tag, x: BackupSession, y: BackupSession)
    requires Gregorian(x.start) && Gregorian(y.start) && DayOf(x) == DayOf(y)
    ensures Key(tag, x.start) == Key(tag, y.start)
  {
    GregorianIff(x.start);
    GregorianIff(y.start);
  }

  // ---------- What the classes are meant to do ----------

  /** The days of the candidates among the first `i` sessions. */
  ghost function DaysBefore(tag: Tag, s: seq<BackupSession>, i: nat): set<int>
    requires i <= |s|
  {
    if i == 0 then {}
    else DaysBefore(tag, s, i - 1) + if Candidate(tag, s[i - 1].start) then {DayOf(s[i - 1])} else {}
  }

  /** Session `i` is the newest candidate of its day, and its day is one of the `n` most recent ones. */
  ghost predicate NewestOfRecentDays(tag: Tag, n: int, s: seq<BackupSession>, i: nat)
    requires i < |s|
  {
    Candidate(tag, s[i].start) && DayOf(s[i]) !in DaysBefore(tag, s, i) && |DaysBefore(tag, s, i)| < n
  }

  // ---------- What they do ----------

  /** The candidate just before `i`, or -1. */
  function LatestBefore(tag: Tag, s: seq<BackupSession>, i: nat): (p: int)
    requires i <= |s|
    ensures -1 <= p < i && (p >= 0 ==> Candidate(tag, s[p].start))
  {
    if i == 0 then -1
    else if Candidate(tag, s[i - 1].start) then i - 1
    else LatestBefore(tag, s, i - 1)
  }

  /** The key the class compares candidate `i` with while it still counts. */
  function KeyBefore(tag: Tag, s: seq<BackupSession>, i: nat): int
    requires i <= |s|
  {
    var p := LatestBefore(tag, s, i);
    if p < 0 then Key(tag, ZERO_TIME) else Key(tag, s[p].start)
  }

  lemma {:induction false} RemembersLatest(tag: Tag, n: int, s: seq<BackupSession>, i: nat)
    requires i <= |s| && !tag.Last? && Counting(tag, n, s, i).counter > 0
    ensures Key(tag, Counting(tag, n, s, i).last) == KeyBefore(tag, s, i)
  {
    if i > 0 {
      RemembersLatest(tag, n, s, i - 1);
    }
  }

  /** In a list sorted by time, a day seen before is the day of the latest candidate. */
  lemma {:induction false} SeenDayIsLatest(tag: Tag, s: seq<BackupSession>, i: nat, d: int)
    requires i <= |s| && NewestFirst(s)
    requires forall j :: 0 <= j < i ==> d <= DayOf(s[j])
    ensures var p := LatestBefore(tag, s, i);
            d in DaysBefore(tag, s, i) <==> p >= 0 && DayOf(s[p]) == d
    ensures |DaysBefore(tag, s, i)| <= i
  {
    if i > 0 {
      SeenDayIsLatest(tag, s, i - 1, d);
      SeenDayIsLatest(tag, s, i - 1, DayOf(s[i - 1]));
    }
  }

  /** If the key of candidate `i` is the one remembered, its day is the day of the candidate before. */
  ghost predicate TellsDay(tag: Tag, s: seq<BackupSession>, i: nat)
    requires i < |s|
  {
    Candidate(tag, s[i].start) && Key(tag, s[i].start) == KeyBefore(tag, s, i) ==>
      var p := LatestBefore(tag, s, i); p >= 0 && DayOf(s[p]) == DayOf(s[i])
  }

  /** Consecutive candidates with the same key lie on the same day, and the first one does not look
      like the zero time. */
  ghost predicate KeysTellDays(tag: Tag, s: seq<BackupSession>) {
    forall i: nat :: i < |s| ==> TellsDay(tag, s, i)
  }

  /** The class has used up one of its `n` tags for every day seen, or has none left. */
  ghost predicate CountsDays(tag: Tag, n: int, s: seq<BackupSession>, i: nat)
    requires i <= |s|
  {
    var k := Counting(tag, n, s, i).counter;
    if k > 0 then k == n - |DaysBefore(tag, s, i)| else |DaysBefore(tag, s, i)| >= n
  }

  lemma TagsDays(tag: Tag, n: int, s: seq<BackupSession>, i: nat)
    requires !tag.Last? && i < |s| && NewestFirst(s) && GregorianTimes(s) && KeysTellDays(tag, s)
    requires CountsDays(tag, n, s, i)
    ensures Takes(tag, Counting(tag, n, s, i), s[i].start) <==> NewestOfRecentDays(tag, n, s, i)
  {
    assert TellsDay(tag, s, i);
    SeenDayIsLatest(tag, s, i, DayOf(s[i]));
    if Counting(tag, n, s, i).counter > 0 {
      RemembersLatest(tag, n, s, i);
      var p := LatestBefore(tag, s, i);
      if p >= 0 && DayOf(s[p]) == DayOf(s[i]) {
        SameDaySameKey(tag, s[p], s[i]);
      }
    }
  }

  lemma CountsOn(tag: Tag, n: int, s: seq<BackupSession>, i: nat)
    requires i < |s| && CountsDays(tag, n, s, i)
    requires Takes(tag, Counting(tag, n, s, i), s[i].start) <==> NewestOfRecentDays(tag, n, s, i)
    ensures CountsDays(tag, n, s, i + 1)
  {
    var before := DaysBefore(tag, s, i);
    if Candidate(tag, s[i].start) {
      assert DayOf(s[i]) !in before ==> |before + {DayOf(s[i])}| == |before| + 1;
      assert DayOf(s[i]) in before ==> before + {DayOf(s[i])} == before;
    } else {
      assert before + {} == before;
    }
  }

  lemma CountsStep(tag: Tag, n: int, s: seq<BackupSession>, i: nat)
    requires !tag.Last? && i < |s| && NewestFirst(s) && GregorianTimes(s) && KeysTellDays(tag, s)
    requires CountsDays(tag, n, s, i)
    ensures CountsDays(tag, n, s, i + 1)
  {
    TagsDays(tag, n, s, i);
    CountsOn(tag, n, s, i);
  }

  lemma NothingCounted(tag: Tag, n: int, s: seq<BackupSession>)
    ensures CountsDays(tag, n, s, 0)
  {
    assert DaysBefore(tag, s, 0) == {} && Counting(tag, n, s, 0).counter == n;
  }

  lemma {:induction false} AlwaysCountsDays(tag: Tag, n: int, s: seq<BackupSession>, i: nat)
    requires !tag.Last? && i <= |s| && NewestFirst(s) && GregorianTimes(s) && KeysTellDays(tag, s)
    ensures CountsDays(tag, n, s, i)
  {
    if i > 0 {
      AlwaysCountsDays(tag, n, s, i - 1);
      CountsStep(tag, n, s, i - 1);
    } else {
      NothingCounted(tag, n, s);
    }
  }

  /** A class tags exactly the newest session of each of its most recent days, for every quota, if and
      only if its keys tell the days of consecutive candidates apart. */
  lemma TagsNewestOfDaysIff(tag: Tag, s: seq<BackupSession>)
    requires !tag.Last? && NewestFirst(s) && GregorianTimes(s)
    ensures KeysTellDays(tag, s) <==>
            forall n, i: nat :: i < |s| ==>
              (Takes(tag, Counting(tag, n, s, i), s[i].start) <==> NewestOfRecentDays(tag, n, s, i))
  {
    if KeysTellDays(tag, s) {
      forall n, i: nat | i < |s|
        ensures Takes(tag, Counting(tag, n, s, i), s[i].start) <==> NewestOfRecentDays(tag, n, s, i)
      {
        AlwaysCountsDays(tag, n, s, i);
        TagsDays(tag, n, s, i);
      }
    } else {
      var i: nat :| i < |s| && !TellsDay(tag, s, i);
      var n := |s| + 1;
      SeenDayIsLatest(tag, s, i, DayOf(s[i]));
      if Counting(tag, n, s, i).counter > 0 {
        RemembersLatest(tag, n, s, i);
      }
      assert NewestOfRecentDays(tag, n, s, i) && !Takes(tag, Counting(tag, n, s, i), s[i].start);
    }
  }

  // ---------- The Gregorian reason ----------

  lemma KeyRecurs(tag: Tag, x: BackupSession, y: BackupSession)
    requires !tag.Last? && Gregorian(x.start) && Gregorian(y.start)
    requires Candidate(tag, x.start) && Candidate(tag, y.start) && Key(tag, x.start) == Key(tag, y.start)
    requires DayOf(y) <= DayOf(x)
    ensures DayOf(x) == DayOf(y) || (!tag.Yearly? && DayOf(x) - DayOf(y) >= 365)
  {
    GregorianIff(x.start);
    GregorianIff(y.start);
    if DayOf(y) < DayOf(x) {
      match tag {
        case Daily => YearDayRecurs(DayOf(y), DayOf(x));
        case Weekly => YearDayRecurs(DayOf(y), DayOf(x));
        case Monthly => MonthRecurs(DayOf(y), DayOf(x));
        case Yearly => NewYearIsUnique(DayOf(y), DayOf(x));
      }
    }
  }

  /** Candidate `i` is less than 365 days older than the one before it; the newest one does not look
      like the zero time. */
  predicate Close(tag: Tag, s: seq<BackupSession>, i: nat)
    requires i < |s|
  {
    Candidate(tag, s[i].start) ==>
      var p := LatestBefore(tag, s, i);
      if p < 0 then Key(tag, s[i].start) != Key(tag, ZERO_TIME)
      else tag.Yearly? || DayOf(s[p]) - DayOf(s[i]) < 365
  }

  /** Keys tell days as long as no two consecutive candidates are a year apart; the yearly class needs
      no such limit. */
  lemma CloseCandidatesTellDays(tag: Tag, s: seq<BackupSession>)
    requires !tag.Last? && NewestFirst(s) && GregorianTimes(s)
    requires forall i: nat :: i < |s| ==> Close(tag, s, i)
    ensures KeysTellDays(tag, s)
  {
    forall i: nat | i < |s| ensures TellsDay(tag, s, i) {
      assert Close(tag, s, i);
      var p := LatestBefore(tag, s, i);
      if Candidate(tag, s[i].start) && p >= 0 && Key(tag, s[i].start) == Key(tag, s[p].start) {
        KeyRecurs(tag, s[p], s[i]);
      }
    }
  }

  lemma NewYearsDay(t: Time)
    requires Gregorian(t)
    ensures t.month == 1 && t.day == 1 ==> t.yearDay == 1
  {
  }

  lemma DaysDescend(s: seq<BackupSession>, i: nat, j: nat)
    requires NewestFirst(s) && i <= j < |s|
    ensures DayOf(s[i]) >= DayOf(s[j])
  {
  }

  lemma CloseWithinAYear(s: seq<BackupSession>, tag: Tag, j: nat)
    requires tag in {Daily, Weekly, Monthly} && NewestFirst(s) && j < |s|
    requires DayOf(s[0]) - DayOf(s[|s| - 1]) < 365
    requires s[j].start.yearDay != 1 && Gregorian(s[j].start)
    ensures Close(tag, s, j)
  {
    NewYearsDay(s[j].start);
    DaysDescend(s, j, |s| - 1);
    var p := LatestBefore(tag, s, j);
    if p >= 0 {
      DaysDescend(s, 0, p);
    }
  }

  /** For sessions of less than a year, none of them on a 1 January, the daily, weekly and monthly tags
      are exactly the newest sessions of the most recent days, Sundays and firsts of the month. */
  lemma CalendarCorrect(keep: Keep, s: seq<BackupSession>, tag: Tag, i: nat)
    requires tag in {Daily, Weekly, Monthly} && NewestFirst(s) && GregorianTimes(s) && i < |s|
    requires DayOf(s[0]) - DayOf(s[|s| - 1]) < 365
    requires forall j :: 0 <= j < |s| ==> s[j].start.yearDay != 1
    ensures TagsAt(keep, s, tag, i) <==> NewestOfRecentDays(tag, Quota(keep, tag), s, i)
  {
    forall j: nat | j < |s| ensures Close(tag, s, j) {
      CloseWithinAYear(s, tag, j);
    }
    CloseCandidatesTellDays(tag, s);
    AlwaysCountsDays(tag, Quota(keep, tag), s, i);
    TagsDays(tag, Quota(keep, tag), s, i);
  }

  lemma SameYearDayIsMissed(s: seq<BackupSession>)
    requires |s| == 2 && s[0].start.yearDay == s[1].start.yearDay != 1 && DayOf(s[0]) != DayOf(s[1])
    ensures !KeysTellDays(Daily, s)
    ensures var keep := Keep(0, 2, 0, 0, 0);
            && TagsAt(keep, s, Daily, 0) && !TagsAt(keep, s, Daily, 1)
            && NewestOfRecentDays(Daily, 2, s, 1) && !Survives(keep, s, 1)
  {
    assert LatestBefore(Daily, s, 1) == 0 && !TellsDay(Daily, s, 1);
    assert Counting(Daily, 2, s, 0) == KeepBackup(2, ZERO_TIME);
    assert Counting(Daily, 2, s, 1) == KeepBackup(1, s[0].start);
    assert DaysBefore(Daily, s, 0) == {} && DaysBefore(Daily, s, 1) == {DayOf(s[0])};
    forall tag: Tag | tag != Daily ensures Counting(tag, 0, s, 1) == KeepBackup(0, ZERO_TIME) {
      assert Counting(tag, 0, s, 0) == KeepBackup(0, ZERO_TIME);
    }
  }

  /** A year is the limit: of the backups of the 2 January of two consecutive years only the newer one is
      tagged, although the policy has two daily sessions and they are the only two days. */
  lemma YearApartIsMissed(y: int, conf: string) returns (s: seq<BackupSession>)
    ensures |s| == 2 && s[0].conf == s[1].conf == conf && NewestFirst(s) && GregorianTimes(s)
    ensures forall i :: 0 <= i < 2 ==> s[i].start.year == y + 1 - i && s[i].start.month == 1 && s[i].start.day == 2
    ensures DayOf(s[0]) - DayOf(s[1]) == if Leap(y) then 366 else 365
    ensures !KeysTellDays(Daily, s)
    ensures var keep := Keep(0, 2, 0, 0, 0);
            && TagsAt(keep, s, Daily, 0) && !TagsAt(keep, s, Daily, 1)
            && NewestOfRecentDays(Daily, 2, s, 1) && !Survives(keep, s, 1)
  {
    var newer, older := Moment(y + 1, 1, 2, 0), Moment(y, 1, 2, 0);
    MomentIsGregorian(y + 1, 1, 2, 0);
    MomentIsGregorian(y, 1, 2, 0);
    s := [BackupSession("newer", conf, Success, newer, ""), BackupSession("older", conf, Success, older, "")];
    YearLength(y);
    assert DayOf(s[0]) == YearStart(y + 1) + 1 && DayOf(s[1]) == YearStart(y) + 1;
    SameYearDayIsMissed(s);
  }
}
