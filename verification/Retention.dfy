/** The retention loop of `cleanupSessions` as a function over the sessions of one configuration,
    newest first (controllers/backupsession_controller_helper.go). */
module Retention {
  import opened Api
  import opened Calendar
  import opened Strings

  datatype BackupSession = BackupSession(name: string, conf: string, state: SessionState, start: Time, keep: string)

  datatype Tag = Last | Daily | Weekly | Monthly | Yearly

  function TagName(tag: Tag): string {
    match tag
    case Last => "last"
    case Daily => "daily"
    case Weekly => "weekly"
    case Monthly => "monthly"
    case Yearly => "yearly"
  }

  /** The sessions a class looks at. */
  predicate Candidate(tag: Tag, start: Time) {
    match tag
    case Last => true
    case Daily => true
    case Weekly => start.weekday == 0
    case Monthly => start.day == 1
    case Yearly => start.yearDay == 1
  }

  /** What a class compares with the session it took last; `Last` compares nothing. */
  function Key(tag: Tag, start: Time): int {
    match tag
    case Last => 0
    case Daily => start.yearDay
    case Weekly => start.yearDay
    case Monthly => start.month
    case Yearly => start.year
  }

  datatype KeepBackup = KeepBackup(counter: int, last: Time)

  datatype Counters = Counters(
    last: KeepBackup,
    daily: KeepBackup,
    weekly: KeepBackup,
    monthly: KeepBackup,
    yearly: KeepBackup)
  {
    function Get(tag: Tag): KeepBackup {
      match tag
      case Last => last
      case Daily => daily
      case Weekly => weekly
      case Monthly => monthly
      case Yearly => yearly
    }
  }

  function Quota(keep: Keep, tag: Tag): int {
    match tag
    case Last => keep.last
    case Daily => keep.daily
    case Weekly => keep.weekly
    case Monthly => keep.monthly
    case Yearly => keep.yearly
  }

  function Initial(keep: Keep): Counters {
    Counters(
      KeepBackup(keep.last, ZERO_TIME),
      KeepBackup(keep.daily, ZERO_TIME),
      KeepBackup(keep.weekly, ZERO_TIME),
      KeepBackup(keep.monthly, ZERO_TIME),
      KeepBackup(keep.yearly, ZERO_TIME))
  }

  /** Whether a class with state `k` tags a session. */
  predicate Takes(tag: Tag, k: KeepBackup, start: Time) {
    k.counter > 0 && Candidate(tag, start) && (tag.Last? || Key(tag, start) != Key(tag, k.last))
  }

  function After(tag: Tag, k: KeepBackup, start: Time): KeepBackup {
    if Takes(tag, k, start)
    then KeepBackup(k.counter - 1, if tag.Last? then k.last else start)
    else k
  }

  function Next(c: Counters, start: Time): Counters {
    Counters(
      After(Last, c.last, start),
      After(Daily, c.daily, start),
      After(Weekly, c.weekly, start),
      After(Monthly, c.monthly, start),
      After(Yearly, c.yearly, start))
  }

  /** Some class tags the session, so it is not deleted. */
  predicate Tagged(c: Counters, start: Time) {
    || Takes(Last, c.last, start)
    || Takes(Daily, c.daily, start)
    || Takes(Weekly, c.weekly, start)
    || Takes(Monthly, c.monthly, start)
    || Takes(Yearly, c.yearly, start)
  }

  lemma TaggedMeaning(c: Counters, start: Time)
    ensures Tagged(c, start) <==> exists tag :: Takes(tag, c.Get(tag), start)
    ensures forall tag: Tag :: Next(c, start).Get(tag) == After(tag, c.Get(tag), start)
  {
    if Tagged(c, start) {
      var tag :=
        if Takes(Last, c.last, start) then Last
        else if Takes(Daily, c.daily, start) then Daily
        else if Takes(Weekly, c.weekly, start) then Weekly
        else if Takes(Monthly, c.monthly, start) then Monthly
        else Yearly;
      assert Takes(tag, c.Get(tag), start);
    }
  }

  function Tagging(tag: Tag, k: KeepBackup, start: Time): seq<string> {
    if Takes(tag, k, start) then [TagName(tag)] else []
  }

  function Label(c: Counters, start: Time): seq<string> {
    Tagging(Last, c.last, start)
    + Tagging(Daily, c.daily, start)
    + Tagging(Weekly, c.weekly, start)
    + Tagging(Monthly, c.monthly, start)
    + Tagging(Yearly, c.yearly, start)
  }

  /** What is stored as the session's Keep. */
  function KeepText(c: Counters, start: Time): string {
    Join(Label(c, start), ',')
  }

  /** The sessions the loop keeps, relabelled, when it starts with counters `c`. */
  function PruneFrom(c: Counters, s: seq<BackupSession>): seq<BackupSession>
    decreases |s|
  {
    if s == [] then []
    else
      (if Tagged(c, s[0].start) then [s[0].(keep := KeepText(c, s[0].start))] else [])
      + PruneFrom(Next(c, s[0].start), s[1..])
  }

  function Prune(keep: Keep, s: seq<BackupSession>): seq<BackupSession> {
    PruneFrom(Initial(keep), s)
  }

  /** The state of one class after the first `i` sessions, on its own. */
  function ClassAt(tag: Tag, k: KeepBackup, s: seq<BackupSession>, i: nat): KeepBackup
    requires i <= |s|
  {
    if i == 0 then k else After(tag, ClassAt(tag, k, s, i - 1), s[i - 1].start)
  }

  /** The same for a class that starts with `n` tags to give. */
  function Counting(tag: Tag, n: int, s: seq<BackupSession>, i: nat): KeepBackup
    requires i <= |s|
  {
    ClassAt(tag, KeepBackup(n, ZERO_TIME), s, i)
  }

  /** Session `i` gets the tag in the pass with this policy. */
  predicate TagsAt(keep: Keep, s: seq<BackupSession>, tag: Tag, i: nat)
    requires i < |s|
  {
    Takes(tag, Counting(tag, Quota(keep, tag), s, i), s[i].start)
  }

  /** The counters after the first `i` sessions. */
  function StateAt(c: Counters, s: seq<BackupSession>, i: nat): Counters
    requires i <= |s|
  {
    if i == 0 then c else Next(StateAt(c, s, i - 1), s[i - 1].start)
  }

  /** The five classes run side by side without touching each other. */
  lemma {:induction false} ClassesAreIndependent(c: Counters, s: seq<BackupSession>, i: nat, tag: Tag)
    requires i <= |s|
    ensures StateAt(c, s, i).Get(tag) == ClassAt(tag, c.Get(tag), s, i)
  {
    if i > 0 {
      ClassesAreIndependent(c, s, i - 1, tag);
    }
  }

  /** Some class tags session `i`. */
  ghost predicate Survives(keep: Keep, s: seq<BackupSession>, i: nat)
    requires i < |s|
  {
    exists tag :: TagsAt(keep, s, tag, i)
  }

  ghost predicate NewestFirst(s: seq<BackupSession>) {
    forall i, j :: 0 <= i < j < |s| ==> s[i].start.unix >= s[j].start.unix
  }
}
