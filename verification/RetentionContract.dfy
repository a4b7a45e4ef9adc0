/** What one retention pass promises, and how it reacts to a more generous policy. */
module RetentionContract {
  import opened Api
  import opened Calendar
  import opened Strings
  import opened Retention

  // ---------- Quotas ----------

  /** How many of the first `i` sessions got the tag. */
  function Used(keep: Keep, s: seq<BackupSession>, tag: Tag, i: nat): nat
    requires i <= |s|
  {
    if i == 0 then 0 else Used(keep, s, tag, i - 1) + if TagsAt(keep, s, tag, i - 1) then 1 else 0
  }

  /** No class hands out more tags than the policy says, and none at all for a negative count. */
  lemma {:induction false} QuotaRespected(keep: Keep, s: seq<BackupSession>, tag: Tag, i: nat)
    requires i <= |s|
    ensures Used(keep, s, tag, i) + Counting(tag, Quota(keep, tag), s, i).counter == Quota(keep, tag)
    ensures Used(keep, s, tag, i) <= if Quota(keep, tag) > 0 then Quota(keep, tag) else 0
  {
    if i > 0 {
      QuotaRespected(keep, s, tag, i - 1);
    }
  }

  /** The tag `last` goes to exactly the newest sessions, so those always survive. */
  lemma {:induction false} NewestSurvive(keep: Keep, s: seq<BackupSession>, i: nat)
    requires i < |s|
    ensures TagsAt(keep, s, Last, i) <==> i < keep.last
    ensures i < keep.last ==> Survives(keep, s, i)
    ensures i <= keep.last ==> Counting(Last, Quota(keep, Last), s, i).counter == keep.last - i
    ensures i > keep.last ==> Counting(Last, Quota(keep, Last), s, i).counter <= 0
  {
    if i > 0 {
      NewestSurvive(keep, s, i - 1);
    }
  }

  /** The newest session is measured against the zero time: it misses its daily tag on a 1 January, and its
      monthly tag on the first day of that month. */
  lemma FirstSessionTags(keep: Keep, s: seq<BackupSession>)
    requires s != []
    ensures TagsAt(keep, s, Daily, 0) <==> keep.daily > 0 && s[0].start.yearDay != 1
    ensures TagsAt(keep, s, Weekly, 0) <==> keep.weekly > 0 && s[0].start.weekday == 0 && s[0].start.yearDay != 1
    ensures TagsAt(keep, s, Monthly, 0) <==> keep.monthly > 0 && s[0].start.day == 1 && s[0].start.month != 1
    ensures TagsAt(keep, s, Yearly, 0) <==> keep.yearly > 0 && s[0].start.yearDay == 1 && s[0].start.year != 1
  {
  }

  // ---------- Tagged or deleted ----------

  /** Session `j` as it is stored back after the pass, and whether it is. */
  function EntryAt(c: Counters, s: seq<BackupSession>, j: nat): BackupSession
    requires j < |s|
  {
    s[j].(keep := KeepText(StateAt(c, s, j), s[j].start))
  }

  predicate KeptAt(c: Counters, s: seq<BackupSession>, j: nat)
    requires j < |s|
  {
    Tagged(StateAt(c, s, j), s[j].start)
  }

  lemma {:induction false} StateShift(c: Counters, s: seq<BackupSession>, j: nat)
    requires j < |s|
    ensures StateAt(c, s, j + 1) == StateAt(Next(c, s[0].start), s[1..], j)
  {
    if j > 0 {
      StateShift(c, s, j - 1);
    }
  }

  lemma EntryShift(c: Counters, s: seq<BackupSession>, j: nat)
    requires 0 < j < |s|
    ensures EntryAt(c, s, j) == EntryAt(Next(c, s[0].start), s[1..], j - 1)
    ensures KeptAt(c, s, j) == KeptAt(Next(c, s[0].start), s[1..], j - 1)
  {
    StateShift(c, s, j - 1);
  }

  lemma {:induction false} EntriesAreIn(c: Counters, s: seq<BackupSession>, j: nat)
    requires j < |s| && KeptAt(c, s, j)
    ensures EntryAt(c, s, j) in PruneFrom(c, s)
    decreases |s|
  {
    if j > 0 {
      EntryShift(c, s, j);
      EntriesAreIn(Next(c, s[0].start), s[1..], j - 1);
    }
  }

  lemma {:induction false} OnlyEntriesAreIn(c: Counters, s: seq<BackupSession>, x: BackupSession) returns (j: nat)
    requires x in PruneFrom(c, s)
    ensures j < |s| && KeptAt(c, s, j) && x == EntryAt(c, s, j)
    decreases |s|
  {
    if Tagged(c, s[0].start) && x == EntryAt(c, s, 0) {
      j := 0;
    } else {
      j := OnlyEntriesAreIn(Next(c, s[0].start), s[1..], x);
      j := j + 1;
      EntryShift(c, s, j);
    }
  }

  lemma SurvivesIfTagged(keep: Keep, s: seq<BackupSession>, j: nat)
    requires j < |s|
    ensures Survives(keep, s, j) <==> KeptAt(Initial(keep), s, j)
  {
    var c := StateAt(Initial(keep), s, j);
    TaggedMeaning(c, s[j].start);
    forall tag: Tag ensures Takes(tag, c.Get(tag), s[j].start) <==> TagsAt(keep, s, tag, j) {
      ClassesAreIndependent(Initial(keep), s, j, tag);
    }
  }

  function Word(there: bool, word: string): seq<string> {
    if there then [word] else []
  }

  /** The words for the five classes, in the order of the loop. */
  function Words(last: bool, daily: bool, weekly: bool, monthly: bool, yearly: bool): seq<string> {
    Word(last, "last") + Word(daily, "daily") + Word(weekly, "weekly") + Word(monthly, "monthly")
    + Word(yearly, "yearly")
  }

  lemma WordsHaveNoComma(last: bool, daily: bool, weekly: bool, monthly: bool, yearly: bool)
    ensures forall w :: w in Words(last, daily, weekly, monthly, yearly) ==>
              w in {"last", "daily", "weekly", "monthly", "yearly"} && ',' !in w
  {
    assert ',' !in "last";
    assert ',' !in "daily";
    assert ',' !in "weekly";
    assert ',' !in "monthly";
    assert ',' !in "yearly";
  }

  lemma LabelIsWords(c: Counters, start: Time)
    ensures Label(c, start) ==
            Words(Takes(Last, c.last, start), Takes(Daily, c.daily, start), Takes(Weekly, c.weekly, start),
                  Takes(Monthly, c.monthly, start), Takes(Yearly, c.yearly, start))
  {
  }

  /** At its commas the text splits into the names of the tags session `j` got, once each and in this order. */
  ghost predicate ReadsAs(keep: Keep, s: seq<BackupSession>, j: nat, text: string)
    requires j < |s|
  {
    Split(text, ',') ==
    Words(TagsAt(keep, s, Last, j), TagsAt(keep, s, Daily, j), TagsAt(keep, s, Weekly, j),
          TagsAt(keep, s, Monthly, j), TagsAt(keep, s, Yearly, j))
  }

  lemma EntryReads(keep: Keep, s: seq<BackupSession>, j: nat)
    requires j < |s| && KeptAt(Initial(keep), s, j)
    ensures ReadsAs(keep, s, j, EntryAt(Initial(keep), s, j).keep)
  {
    var c, t := StateAt(Initial(keep), s, j), s[j].start;
    forall tag: Tag ensures Takes(tag, c.Get(tag), t) <==> TagsAt(keep, s, tag, j) {
      ClassesAreIndependent(Initial(keep), s, j, tag);
    }
    assert c.last == c.Get(Last) && c.daily == c.Get(Daily) && c.weekly == c.Get(Weekly)
        && c.monthly == c.Get(Monthly) && c.yearly == c.Get(Yearly);
    LabelIsWords(c, t);
    WordsHaveNoComma(Takes(Last, c.last, t), Takes(Daily, c.daily, t), Takes(Weekly, c.weekly, t),
                     Takes(Monthly, c.monthly, t), Takes(Yearly, c.yearly, t));
    SplitsBack(Label(c, t), ',');
  }

  /** The pass keeps a session exactly when some class tags it; the session is then unchanged but for its
      Keep, which names exactly those tags. */
  lemma KeptIffTagged(keep: Keep, s: seq<BackupSession>, x: BackupSession)
    ensures x in Prune(keep, s) <==>
            exists j :: 0 <= j < |s| && Survives(keep, s, j) && x == s[j].(keep := x.keep) &&
              ReadsAs(keep, s, j, x.keep)
  {
    var c := Initial(keep);
    if x in Prune(keep, s) {
      var j := OnlyEntriesAreIn(c, s, x);
      SurvivesIfTagged(keep, s, j);
      EntryReads(keep, s, j);
    }
    forall j: nat | j < |s| && Survives(keep, s, j) && x == s[j].(keep := x.keep) && ReadsAs(keep, s, j, x.keep)
      ensures x in Prune(keep, s)
    {
      SurvivesIfTagged(keep, s, j);
      EntryReads(keep, s, j);
      JoinsBack(x.keep, ',');
      JoinsBack(EntryAt(c, s, j).keep, ',');
      EntriesAreIn(c, s, j);
    }
  }

  lemma CountWord(there: bool, word: string, w: string)
    ensures multiset(Word(there, word))[w] == if there && w == word then 1 else 0
  {
  }

  lemma CountWords(last: bool, daily: bool, weekly: bool, monthly: bool, yearly: bool, w: string)
    ensures multiset(Words(last, daily, weekly, monthly, yearly))[w] ==
            if (w == "last" && last) || (w == "daily" && daily) || (w == "weekly" && weekly)
               || (w == "monthly" && monthly) || (w == "yearly" && yearly) then 1 else 0
  {
    CountWord(last, "last", w);
    CountWord(daily, "daily", w);
    CountWord(weekly, "weekly", w);
    CountWord(monthly, "monthly", w);
    CountWord(yearly, "yearly", w);
    assert "last"[0] == 'l' && "daily"[0] == 'd' && "weekly"[0] == 'w' && "monthly"[0] == 'm' && "yearly"[0] == 'y';
  }

  /** So each of the five words is in the Keep of a kept session once if the class of that name tagged it,
      and not at all otherwise, and there is no other word. */
  lemma KeepNamesTags(keep: Keep, s: seq<BackupSession>, x: BackupSession) returns (j: nat)
    requires x in Prune(keep, s)
    ensures j < |s| && x == s[j].(keep := x.keep)
    ensures forall w :: multiset(Split(x.keep, ','))[w] ==
              if (w == "last" && TagsAt(keep, s, Last, j)) || (w == "daily" && TagsAt(keep, s, Daily, j))
                 || (w == "weekly" && TagsAt(keep, s, Weekly, j)) || (w == "monthly" && TagsAt(keep, s, Monthly, j))
                 || (w == "yearly" && TagsAt(keep, s, Yearly, j)) then 1 else 0
  {
    KeptIffTagged(keep, s, x);
    j :| 0 <= j < |s| && Survives(keep, s, j) && x == s[j].(keep := x.keep) && ReadsAs(keep, s, j, x.keep);
    forall w {
      CountWords(TagsAt(keep, s, Last, j), TagsAt(keep, s, Daily, j), TagsAt(keep, s, Weekly, j),
                 TagsAt(keep, s, Monthly, j), TagsAt(keep, s, Yearly, j), w);
    }
  }

  // ---------- Yearly tags ----------

  ghost predicate YearsDescend(s: seq<BackupSession>) {
    forall i, j :: 0 <= i < j < |s| ==> s[i].start.year >= s[j].start.year
  }

  /** Between two sessions, the year a class remembers lies between theirs. */
  lemma {:induction false} YearlyRemembers(keep: Keep, s: seq<BackupSession>, i: nat, j: nat)
    requires YearsDescend(s) && i < j < |s| && TagsAt(keep, s, Yearly, i)
    ensures s[j].start.year <= Counting(Yearly, Quota(keep, Yearly), s, j).last.year <= s[i].start.year
  {
    if i < j - 1 {
      YearlyRemembers(keep, s, i, j - 1);
    }
  }

  /** Yearly tags go to strictly decreasing years. */
  lemma YearlyTagsDecrease(keep: Keep, s: seq<BackupSession>, i: nat, j: nat)
    requires NewestFirst(s) && forall k :: 0 <= k < |s| ==> Gregorian(s[k].start)
    requires i < j < |s| && TagsAt(keep, s, Yearly, i) && TagsAt(keep, s, Yearly, j)
    ensures s[j].start.year < s[i].start.year
  {
    forall m, n | 0 <= m < n < |s| ensures s[m].start.year >= s[n].start.year {
      GregorianIff(s[m].start);
      GregorianIff(s[n].start);
      YearsFollowDays(Day(s[n].start.unix), Day(s[m].start.unix));
    }
    YearlyRemembers(keep, s, i, j);
  }

  // ---------- Monotonicity ----------

  ghost predicate NoStricter(keep: Keep, keep': Keep) {
    forall tag :: Quota(keep, tag) <= Quota(keep', tag)
  }

  /** Of two runs of a class, the one with more left follows the other as long as that one counts. */
  lemma {:induction false} RunsInStep(keep: Keep, keep': Keep, s: seq<BackupSession>, tag: Tag, i: nat)
    requires NoStricter(keep, keep') && i <= |s|
    ensures var k, k' := Counting(tag, Quota(keep, tag), s, i), Counting(tag, Quota(keep', tag), s, i);
            k.counter <= k'.counter && (k.counter > 0 ==> k.last == k'.last)
  {
    if i > 0 {
      RunsInStep(keep, keep', s, tag, i - 1);
    }
  }

  /** Raising counters never takes a tag away, and never deletes a session that was kept. */
  lemma GenerousKeepsMore(keep: Keep, keep': Keep, s: seq<BackupSession>, i: nat)
    requires NoStricter(keep, keep') && i < |s|
    ensures forall tag :: TagsAt(keep, s, tag, i) ==> TagsAt(keep', s, tag, i)
    ensures Survives(keep, s, i) ==> Survives(keep', s, i)
  {
    forall tag | TagsAt(keep, s, tag, i) ensures TagsAt(keep', s, tag, i) {
      RunsInStep(keep, keep', s, tag, i);
    }
  }
}
