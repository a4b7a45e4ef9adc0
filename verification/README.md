# A verified model of formol

Formol is a Kubernetes operator that backs up the volumes of workloads. This project models the parts
of it that decide something and proves what they guarantee:

- **The session protocol** (`Session*.dfy`). A backup or restore session drives its targets through
  initializing, running and finalizing, one target at a time, with a retry counter per target, while
  sidecars and snapshot jobs report concurrently. `SessionCheck` and `SessionReconcile` are the code, in
  place and with its deferred override; `SessionProtocol` is the transition system it forms with its
  environment; the other modules prove what every interleaving keeps, which outcomes really occur, that
  every run ends and after how many status changes at most, that sessions whose parties keep acting do end,
  and that optimistic, version-checked writes refine the atomic protocol.
- **Retention** (`Calendar.dfy`, `Retention*.dfy`). One pass over the successful sessions of a namespace,
  newest first, with five counters. `RetentionStore` is the code; the other modules prove the contract of
  a pass, monotonicity, idempotence, when pruning early is lossless, that cleaning up after every backup
  amounts to one cleanup at the end, and when the calendar classes mean what their names say.
- **The sidecar** (`Pod.dfy`, `PathMatching.dfy`, `Sidecar*.dfy`). Injection of a sidecar container into
  the workloads of a configuration, the matching of backup paths with volume mounts, and the removal.
  `Sidecar` and `PathMatching` are the code; `SidecarUndo` proves exactly when the removal undoes the
  injection, `SidecarTags` what it does to an env in every other case, `SidecarVolumes` which volumes come in
  and whether every mount finds its own, `SidecarServes` what the sidecar gets to see, and `SidecarPathList`
  when it can read its list of paths.

`dafny verify dfyconfig.toml` checks everything.

## Assumptions

- The configuration does not change during a session. Its target list and the status list are aligned by
  index, as the code relies on; a Reconcile step needs a configured target for every status.
- A sidecar answers for a working target only: it reports the phase done or failed, and in Finalize it may
  hand over to a snapshot job (`WaitingForJob`). The code does not contain the jobs. A comment says that
  they finish the target; `Setup.jobsMayFail` adds jobs that fail. Results that need jobs to succeed say so.
- The answer of `isBackupOngoing` is a parameter, and so are the current time and the clock's zone. A
  `time.Time` is a record of the second it denotes and of what its calendar methods answer, so most of
  retention holds for any zone; results about real days ask for times that read like the Gregorian calendar.
  The second is called `unix`; it is counted on the zone's wall clock and from the zero time, which differs
  from Unix() by a constant, and the code only compares it.
- Calls to the API server succeed, apart from stale versions, missing repositories and missing workloads.
- Deleting a BackupSession removes it from the list.
- Go's integers are unbounded here. `Try` only grows while it is below `Retry`, and the retention counters
  only shrink while they are positive, so neither can wrap around.
- Paths and mount paths are absolute and given by their components.

## Where the code and its comments differ

- A target that fails goes back to the wait state of the current phase with `Try` incremented, not to
  `New`; when its tries are used up the session gives up and the other targets stay where they are, they
  are not moved to Finalize (controllers/backupsession_controller.go:105-118).
- In Finalize a target that fails for the last time ends the session in Success although the targets after
  it have not been finalized. `OutcomesAreJustified` says what is left behind, `GivesUpAnywhere` that it can
  happen at every target, and `OutcomesOccurIff` that leaving one behind needs two targets.
- With failing jobs two targets can be working at once, if one that is not the last has a try left
  (`OneAtATimeIff`).
- A configuration without targets leaves its sessions in Initializing for ever (`EndsIffTargets`).
- The BackupSession reconciler restarts a session with an unexpected state, the RestoreSession reconciler
  ignores it (`SwitchesAgreeIff`); neither happens in any run (`SameRuns`).
- The retention classes start from Go's zero time, so the newest session is not tagged `daily` if it
  started on a 1 January, nor `monthly` if it started on the first of January (`FirstSessionTags`). Whether
  pruning then can lose a session that a later pass would have kept is decided by `PruneEarlyIff`;
  `NewYearIsLost` is a loss, and `AlwaysSafeIff` names the policies that know none.
- Daily and weekly tags compare only the day of the year, monthly ones only the month
  (`TagsNewestOfDaysIff`), so backups exactly a year apart share a tag (`YearApartIsMissed`).
- cleanupSessions returns early when fewer than two successful sessions are listed. For which policies and
  namespaces that makes no difference is decided by `EarlyReturnHarmlessIff`; for all others
  `EarlyReturnKeepsOne` builds stores in which a backup stays that a single cleanup deletes.
- A mount is matched with a backup path as soon as they agree in some component, even if the components
  before it differ (`StrayMountIsChosen`). The sidecar is then told to back up a path of its own file system
  (`StaysInBackupDirIff`). A mount at the root is never matched with a path below it
  (`RootMountIsIgnored`).
- If a target names a container twice and two FORMOL_TARGET entries stand before another entry, the removal
  doubles that entry (`UserEntriesKeptIff`, `EntryIsDoubled`).
- A path that no mount agrees with gets a mount without a name, so the pod template mounts a volume it does not
  have (`MountsResolveIff`).
- The paths of the sidecar are joined with colons, so a colon in a path cuts it in two
  (`PathListSurvivesIff`, `ColonCutsPath`).
- If a target names several containers of a pod, the sidecar is left with the mounts of the last one only
  (`SidecarServesLastHit`).

## Model

| member | source | states |
|---|---|---|
| SessionCheck.CheckSessionState | controllers/session.go:52-96 | the in-place loop with its `defer` leaves the list and returns the state that the recursive specification names |
| SessionCheck.CheckInitialized | controllers/session.go:98-100 | the same for the states of the initializing phase |
| SessionCheck.CheckWaiting | controllers/session.go:102-104 | the same for the states of the running phase |
| SessionCheck.CheckSuccess | controllers/session.go:106-108 | the same for the states of the finalizing phase |
| SessionCheck.CheckMeaning | controllers/session.go:58-95 | only the first target that is not passed over decides: it alone may change, only into the wait state and with one more try after a failure; a job pending before it masks an advance and a final failure alike |
| SessionCheck.ChangesAreReported | controllers/session.go:52-96 | an edited list always comes with a non-empty answer, so the caller's write is never skipped after an edit |
| SessionCheck.InitSession | controllers/session.go:36-50 | one status per configured target, in order, with its name, kind and backup type, not started, at its first try, stamped with the time |
| SessionReconcile.ReconcileBackup | controllers/backupsession_controller.go:93-144 | the stored status afterwards is that of one protocol step; requeued exactly when New behind an ongoing backup, and then nothing is written; pruning called exactly in Success |
| SessionReconcile.ReconcileRestore | controllers/restoresession_controller.go:65-111 | the same for restore sessions, which ignore unknown states |
| SessionReconcile.SwitchesAgreeIff | controllers/restoresession_controller.go:95-102 | the two reconcilers do the same on a status, whatever guard and clock, if and only if its session state is not one that only the default case catches; on those one starts anew and the other does nothing |
| SessionProtocol.CheckKeeps | controllers/session.go:58-95 | a check keeps retry budget, vocabulary and serving order; it advances only when all targets are done and gives up only on an exhausted one |
| SessionProtocol.StepKeepsInv | controllers/backupsession_controller.go:93-142 | every controller, sidecar and job step keeps the invariant |
| SessionProtocol.Reachable | controllers/backupsession_controller.go:93-142 | every state of every run satisfies the invariant |
| SessionTheorems.OneAtATime | controllers/session.go:58-94 | in every run at most one target works at any time, unless a failed job of a target with a try left may overlap with a later one; unless a job may have failed it works in the phase of the session, and the list reads settled targets, one active, then waiting ones |
| SessionOutcomes.OneAtATimeIff | controllers/session.go:58-94 | no run of a configuration ever has two targets at work if and only if its jobs cannot fail or no target but the last has more than one try |
| SessionTheorems.StepMovesTargets | controllers/session.go:60-76 | a step moves a target only by a start, a restart with a try left, or a report; a restart stamps it and nothing else does |
| SessionTheorems.StatusesDescribeTargets | controllers/session.go:36-50 | in every state of every run the statuses are those of the configured targets, in order |
| SessionTheorems.RetryBudget | controllers/session.go:65-75 | over all phases together, tries stay between 1 and max(1, Retry), restarts equal tries minus one, and failures number at most max(1, Retry) |
| SessionTheorems.StepAdvances | controllers/backupsession_controller.go:93-122 | the only edges between session states and what all targets must have reported to take them; New is left exactly by a Reconcile that finds no other backup, with fresh statuses, and the session is stamped once |
| SessionTheorems.GuardHolds | controllers/backupsession_controller.go:94-102 | in no run does a session get past New before a Reconcile found the guard clear |
| SessionTheorems.PhaseBarriers | controllers/session.go:98-108 | no target runs unless all were initialized at one earlier moment; none finalizes, and no session succeeds, unless all were waiting at one earlier moment |
| SessionTheorems.TerminalIsAbsorbing | controllers/backupsession_controller.go:123-128 | nothing changes a failed session, nor a successful one unless jobs may fail |
| SessionTheorems.ForwardOnly | controllers/backupsession_controller.go:93-134 | session states only move forward, and from Finalize only to Success |
| SessionTheorems.OutcomesAreJustified | controllers/backupsession_controller.go:105-122 | Failure only with an exhausted target and never after Finalize; Success only with all targets finalized up to one exhausted failure in front of targets whose backup is done; a target left waiting only with an exhausted one, also if jobs fail |
| SessionOutcomes.GivesUpAnywhere | controllers/session.go:65-75 | conversely, in every phase and for every target some run gives up just there, with the targets before it done and those behind it not served: in Failure, or in Success if the phase is Finalize |
| SessionOutcomes.OutcomesOccurIff | controllers/backupsession_controller.go:105-122 | sessions of a configuration can fail, and can finalize everything, if and only if it has a target; they can succeed with a target still waiting if and only if it has two |
| SessionTheorems.SameRuns | controllers/restoresession_controller.go:65-110 | backup and restore sessions have exactly the same runs |
| SessionTermination.StepDecreases | controllers/session.go:60-76 | every step that changes the status, whoever takes it, decreases an explicit measure |
| SessionTermination.RunsTerminate | controllers/session.go:65-75 | no interleaving changes the status more than 5 + sum of (7 + 2 max(0, Retry - 1)) times, or with 3 for 2 if jobs may fail |
| SessionTermination.ReconcileWaitsIff | controllers/session.go:76-95 | a check of an active session leaves the status alone if and only if there is no target, the deciding one is working, or a pending job holds back an advance or a failure |
| SessionTermination.Progress | controllers/session.go:58-95 | some event changes every session that has targets and has not ended |
| SessionTermination.StuckIffEnded | controllers/backupsession_controller.go:93-142 | a run nothing can continue has ended in Success or Failure, and if jobs succeed nothing continues one that has |
| SessionTermination.CanFinish | controllers/backupsession_controller.go:93-142 | every run can be continued to an end |
| SessionLiveness.FairSessionsEnd | controllers/backupsession_controller.go:93-142 | every infinite behaviour in which Reconcile runs again and again with a clear guard, and every working target and pending job is reported at some time, reaches Success or Failure and then never changes again |
| SessionTermination.EndsIffTargets | controllers/session.go:88-95 | sessions of a configuration can end if and only if it has a target |
| SessionWorstCase.BoundIsAttained | controllers/session.go:65-75 | for every configuration with a target some run uses up the bound exactly and ends in Success |
| SessionOptimistic.OptimisticRefinesAtomic | controllers/backupsession_controller.go:135-142 | with reads and version-checked writes of controller, sidecars and jobs interleaved in any way, the stored statuses form a run of the atomic protocol |
| SessionOptimistic.OptimisticSafety | controllers/backupsession_controller.go:135-142 | so the invariant, one working target under the same condition, and both phase barriers hold of what is stored, and the resource version is bounded |
| SessionOptimistic.OptimisticCanFinish | controllers/backupsession_controller.go:135-142 | whatever stale copies are held, every such run can be continued until the stored session has ended |
| SessionOptimistic.BlindWritesLoseReports | controllers/backupsession_controller.go:138-141 | in every configuration with two targets a reachable status is read by a job and by a sidecar such that writing both back unchecked ends in a status that no run reaches from what was stored |
| Calendar.DateRoundTrip | controllers/backupsession_controller_helper.go:59-86 | the calendar methods read back year, month, day and year day of the date a day number was made from |
| Calendar.UnixEpoch | controllers/backupsession_controller_helper.go:68 | day count, weekday and leap years agree with the Unix epoch and the year 2000 |
| Calendar.MonthLengths | controllers/backupsession_controller_helper.go:77 | every month has its length |
| Calendar.YearDayRecurs | controllers/backupsession_controller_helper.go:59 | the same YearDay on two days means at least 365 days between them |
| Calendar.MonthRecurs | controllers/backupsession_controller_helper.go:77 | so does the first of the same month, on either side of a leap day |
| Calendar.GregorianIff | controllers/backupsession_controller_helper.go:59-86 | a time that reads like the Gregorian calendar, stated without recursion, is the computed reading, and the other way round |
| Retention.ClassesAreIndependent | controllers/backupsession_controller_helper.go:50-93 | each of the five classes runs as if it were alone |
| RetentionContract.QuotaRespected | controllers/backupsession_controller_helper.go:52-93 | no class hands out more than max(0, Keep.x) tags |
| RetentionContract.NewestSurvive | controllers/backupsession_controller_helper.go:52-57 | the tag `last` goes to exactly the newest Keep.Last sessions, which always survive |
| RetentionContract.FirstSessionTags | controllers/backupsession_controller_helper.go:58-93 | which calendar tags the newest session gets, exactly: none that the zero time shares with it |
| RetentionContract.KeptIffTagged | controllers/backupsession_controller_helper.go:94-105 | a session survives if and only if some class tags it; nothing of it changes but its Keep, which at its commas reads as the names of exactly those tags, in the order of the classes |
| RetentionContract.KeepNamesTags | controllers/backupsession_controller_helper.go:52-101 | so "last", "daily", "weekly", "monthly" and "yearly" are in the Keep of a kept session once if the class of that name tagged it, not at all otherwise, and nothing else is |
| RetentionContract.YearlyTagsDecrease | controllers/backupsession_controller_helper.go:85-93 | yearly tags go to strictly decreasing years |
| RetentionContract.GenerousKeepsMore | controllers/backupsession_controller_helper.go:41-93 | raising any counters never takes a tag or a kept session away |
| RetentionPruning.PruneIsIdempotent | controllers/backupsession_controller_helper.go:46-106 | a second pass deletes nothing and assigns the same tags |
| RetentionPruning.PruneEarly | controllers/backupsession_controller_helper.go:40-106 | pruning a safe list before any newer sessions arrive leaves the same sessions and tags as pruning afterwards |
| RetentionPruning.PruneEarlyIff | controllers/backupsession_controller_helper.go:40-106 | it does so for every newer backup of the configuration if and only if, for each class with two or more tags, the first session it looks at survives or does not look like the zero time |
| RetentionPruning.NewYearIsLost | controllers/backupsession_controller_helper.go:58-65 | in every year a lone backup of 1 January is such a loss under a policy of two daily sessions: it is deleted, and would be kept if the pass came after the next backup |
| RetentionPruning.NoCollisionIsSafe | controllers/backupsession_controller_helper.go:59-86 | a list whose newest candidates do not collide with the zero time is safe |
| RetentionPolicy.AlwaysSafeIff | controllers/backupsession_controller_helper.go:41-93 | every list of backups, whatever its dates, is safe if and only if the policy has at most one weekly session, a yearly one if it has two monthly ones, and a last or a yearly one if it has two daily ones |
| RetentionPruning.OnlineEqualsOffline | controllers/backupsession_controller_helper.go:40-106 | over any history of safe lists, running the loop after every backup equals running it once at the end |
| RetentionHistory.CleanedHolds | controllers/backupsession_controller_helper.go:19-107 | what any history of backups leaves in the store with cleanupSessions after each, whatever the policy, the dates and the other sessions |
| RetentionHistory.CleaningOnceSuffices | controllers/backupsession_controller_helper.go:19-107 | the same for cleanupSessions with its early return: both end in the very same store if another success is listed, or every backup but the newest is kept by its first cleanup |
| RetentionHistory.CleaningOnceSufficesIff | controllers/backupsession_controller_helper.go:19-107 | in a given namespace that is so for every history of safe lists if and only if another success is listed, the policy keeps every arrival, or has two daily sessions or one daily and two monthly ones |
| RetentionHistory.EarlyReturnHarmlessIff | controllers/backupsession_controller_helper.go:25-29 | after any two or more backups the store is the one the loop without the early return would have left, if and only if another success is listed or the policy keeps every arrival |
| RetentionPolicy.KeptOnArrivalIff | controllers/backupsession_controller_helper.go:50-93 | a policy keeps every arrival, that is every backup is tagged by its first cleanup, if and only if it has a last session, or both a daily and a yearly one |
| RetentionHistory.EarlyReturnKeepsOne | controllers/backupsession_controller_helper.go:25-29 | for every other policy, and beside any sessions without a listed success, three real backups and stores in which cleaning up each time leaves the last one and a single cleanup none |
| RetentionCalendar.TagsNewestOfDaysIff | controllers/backupsession_controller_helper.go:58-93 | a class tags exactly the newest session of each of its most recent days, for every quota, if and only if equal keys of consecutive candidates mean equal days and the newest candidate does not look like the zero time |
| RetentionCalendar.CloseCandidatesTellDays | controllers/backupsession_controller_helper.go:58-93 | that is so when consecutive candidates are less than 365 days apart, and for yearly tags always |
| RetentionCalendar.CalendarCorrect | controllers/backupsession_controller_helper.go:58-84 | for sessions of less than a year and none on a 1 January, daily, weekly and monthly tags are the newest sessions of the most recent days, Sundays and firsts of a month |
| RetentionCalendar.YearApartIsMissed | controllers/backupsession_controller_helper.go:58-65 | a year is the limit: of the backups of 2 January of any two consecutive years the older one gets no daily tag, with two to give and no other day |
| RetentionOrder.SecondPass | controllers/backupsession_controller_helper.go:31-33 | however an unstable sort orders the survivors, a second pass keeps all of them, with the same tags if no two started in the same second |
| RetentionStore.TagSession | controllers/backupsession_controller_helper.go:50-93 | the five `if`s update the counters, collect the tags and decide on deletion as the five classes say |
| RetentionStore.SortNewestFirst | controllers/backupsession_controller_helper.go:31-33 | the items end up as a descending permutation |
| RetentionStore.SessionStore.ListSuccess | controllers/backupsession_controller_helper.go:20-24 | the list holds every successful session once |
| RetentionStore.HandleAllPrunes | controllers/backupsession_controller_helper.go:94-105 | deleting and relabelling one by one leaves the untagged sessions gone, the tagged ones relabelled and all others untouched |
| RetentionStore.SessionStore.WalkSessions | controllers/backupsession_controller_helper.go:46-106 | the loop handles exactly the sessions of this configuration, in order |
| RetentionStore.SessionStore.CleanupSessions | controllers/backupsession_controller_helper.go:19-107 | the stored sessions afterwards are those of one pass over some descending order of the successful ones, or unchanged if there are fewer than two |
| RetentionStore.PassMeaning | controllers/backupsession_controller_helper.go:19-107 | of the stored sessions those of other configurations and those without success stay as they are, and each successful one of the configuration is gone if no class tags it and otherwise stored with its tags in Keep |
| RetentionTwice.SecondCleanup | controllers/backupsession_controller_helper.go:19-107 | a second cleanup of the stored sessions deletes nothing, and changes nothing if no two sessions started in the same second |
| PathMatching.MatchMount | api/v1alpha1/common.go:65-75 | the innermost loop switches to a mount exactly when it agrees with the path deeper than any before |
| PathMatching.MatchPath | api/v1alpha1/common.go:59-76 | mount and sidecar path are those of the chosen mount, or empty if none agrees anywhere |
| PathMatching.GetVolumeMounts | api/v1alpha1/common.go:54-81 | both result lists align with the paths; each entry carries name and subpath of the first of the mounts that agree with the cleaned path in the deepest component, is read-only, lies in a directory numbered like the path, and tells the components below the mount; without such a mount it is empty |
| PathMatching.CleanLaws | api/v1alpha1/common.go:62 | cleaning drops empty and "." components, lets ".." take back the component before it and stay at the root, and leaves clean paths alone |
| PathMatching.SpellingDoesNotMatter | api/v1alpha1/common.go:62 | two spellings of a path get the same mount and the same sidecar path |
| PathMatching.ChosenIsDeepest | api/v1alpha1/common.go:64-76 | the chosen mount agrees with the path in the deepest component, and is the first to do so |
| PathMatching.ClosestIff | api/v1alpha1/common.go:64-76 | for any mounts and any path it is the mount that contains the path most closely, first among equals, if and only if every mount beside the path that agrees with it somewhere loses to one that contains it and the closest one agrees deeper than the other containing ones |
| PathMatching.TidyClosestIff | api/v1alpha1/common.go:64-76 | for mount paths that are clean up to trailing separators, the root included, the second half only says that the root is not the only mount containing the path |
| PathMatching.ClosestIfNoStray | api/v1alpha1/common.go:64-76 | in particular when no mount is the root and every mount contains the path or agrees with it nowhere |
| PathMatching.SidecarPathIsRest | api/v1alpha1/common.go:70-73 | for a path on the mount the sidecar path is the backup directory followed by exactly the components below the mount; for any other path it is the rest after the common components, from the root |
| PathMatching.StaysInBackupDirIff | api/v1alpha1/common.go:72-73 | so it lies in the backup directory if and only if the mount contains the path or that rest begins with its name |
| PathMatching.RootMountIsIgnored | api/v1alpha1/common.go:65-68 | a mount at the root is never chosen for a path below it |
| PathMatching.StrayMountIsChosen | api/v1alpha1/common.go:66-68 | the condition is needed: a mount that does not contain the path is chosen |
| PathMatching.StrayPathLeavesBackupDir | api/v1alpha1/common.go:72-73 | the stray mount above is a case in which it does not |
| Sidecar.GetSharedPath | api/v1alpha1/common.go:26-52 | the shared volume is added unless present, and mounted in the container and the sidecar under the share path |
| Sidecar.InjectHit | controllers/backupconfiguration_controller_helpers.go:256-273 | the effect of one matching target container on pod and sidecar |
| Sidecar.InjectHits | controllers/backupconfiguration_controller_helpers.go:255-274 | the inner loop, with the container copy it works from |
| Sidecar.Inject | controllers/backupconfiguration_controller_helpers.go:249-289 | the whole second branch: tags, sidecar, repository volume and shared process namespace |
| Sidecar.Cluster.AddSidecar | controllers/backupconfiguration_controller_helpers.go:212-298 | the stored workload gets its sidecar, or the configured image if it has one; nothing changes on an error |
| Sidecar.Cluster.AddSidecars | controllers/backupconfiguration_controller.go:125-131 | the loop over the targets, stopping at the first error |
| SidecarVolumes.AddedVolumes | controllers/backupconfiguration_controller_helpers.go:275-284 | exactly these volumes are added: the shared one if a backup by job finds a container and there is none yet, and the repository's, with its own source, if it is local |
| SidecarVolumes.AddedMounts | api/v1alpha1/common.go:43-46 | exactly these mounts are added to a container: in a backup by job one of the shared volume for each time the target names it, under its share path |
| SidecarVolumes.MountsResolveIff | controllers/backupconfiguration_controller_helpers.go:249-289 | if every mount named a volume of the pod before, then all of them do afterwards, the sidecar's included, if and only if an online backup has no path that no mount of the container served agrees with |
| SidecarVolumes.SidecarServesNothing | controllers/backupconfiguration_controller_helpers.go:249-285 | a sidecar whose target names no container of the pod mounts the repository at most |
| Sidecar.UntagContainer | controllers/backupconfiguration_controller_helpers.go:138-151 | removal of the tag entries of one container, including the swap with the last entry and the aliased slice |
| Sidecar.RemoveTags | controllers/backupconfiguration_controller_helpers.go:136-154 | the same for every container, nothing else changes |
| Sidecar.RemoveSidecar | controllers/backupconfiguration_controller_helpers.go:173-202 | sidecar containers, shared mounts, formol's volumes and tags are gone |
| Sidecar.Cluster.DeleteSidecar | controllers/backupconfiguration_controller_helpers.go:135-210 | the stored workloads after the loop over the targets, stopping at the first error |
| SidecarUndo.AddedExtends | controllers/backupconfiguration_controller_helpers.go:249-289 | injection only appends: a tag with its own name to the containers the target names, shared mounts, formol's volumes, and as last container the sidecar, with its image, arguments, privilege, target name and namespace |
| SidecarUndo.AddedRefreshes | controllers/backupconfiguration_controller_helpers.go:238-247 | if there is a sidecar, nothing changes but the image of the first one |
| SidecarUndo.AddedOnce | controllers/backupconfiguration_controller_helpers.go:238-247 | adding the sidecar again, for whatever target, changes nothing |
| SidecarUndo.StripsLast | controllers/backupconfiguration_controller_helpers.go:138-151 | a tag in last place is taken off exactly, however often the target names the container |
| SidecarUndo.StripLengths | controllers/backupconfiguration_controller_helpers.go:138-151 | an env without tag is left alone, one with a tag gets shorter |
| SidecarTags.StripMeaning | controllers/backupconfiguration_controller_helpers.go:138-151 | which entry stands where after a target has been dealt with: a tag in last place is cut off, otherwise as many tags as there are namings are overwritten by the last entry, which is cut off once |
| SidecarTags.OnlyTagIsRemoved | controllers/backupconfiguration_controller_helpers.go:138-151 | the only tag of an env goes, however often the container is named; every other entry stays, those before it in place |
| SidecarTags.OneNamingTakesOneTag | controllers/backupconfiguration_controller_helpers.go:138-151 | of several tags a single naming takes exactly one and nothing else |
| SidecarTags.UserEntriesKeptIff | controllers/backupconfiguration_controller_helpers.go:138-151 | the entries that are not tags all stay, as often as they were there, if and only if the target does not name the container twice with two tags before an entry that is none |
| SidecarTags.EntryIsDoubled | controllers/backupconfiguration_controller_helpers.go:138-151 | the condition is needed: then the last entry is there twice |
| SidecarTags.AllTagsGoneIff | controllers/backupconfiguration_controller_helpers.go:138-151 | exactly when no tag is left |
| SidecarTags.RemovalKeepsUsers | controllers/backupconfiguration_controller_helpers.go:164-202 | whatever was done to a pod, the removal for any targets leaves its other containers in order, with their own mounts and without losing an entry that is not a tag, and its own volumes |
| SidecarTags.DeletionKeepsUsers | controllers/backupconfiguration_controller_helpers.go:135-210 | the same for every workload that is reached; the others stay as they are |
| SidecarUndo.UndoPodIff | controllers/backupconfiguration_controller_helpers.go:164-202 | removal for all targets of a pod restores it, up to the shared process namespace, if and only if it held nothing of formol's and no later target names a container with a FORMOL_TARGET of its own |
| SidecarUndo.UndoIff | controllers/backupconfiguration_controller.go:125-131 | the same for a whole cluster, any target list and any number of rounds; workloads that are not reached are untouched |
| SidecarUndo.UndoClean | controllers/backupconfiguration_controller_helpers.go:135-298 | in particular every pod without anything of formol's is restored exactly |
| SidecarServes.SidecarServesLastHit | controllers/backupconfiguration_controller_helpers.go:254-285 | the sidecar ends up with the mounts, and the effective BACKUP_PATHS, of the last container the target names |
| SidecarPathList.RenderReads | api/v1alpha1/common.go:73 | a listed path reads at its slashes as its components; the root is a single slash and a missing path the empty string |
| SidecarPathList.PathListSurvivesIff | controllers/backupconfiguration_controller_helpers.go:265-268 | splitting BACKUP_PATHS at its colons gives the paths back if and only if there is one and no component of any has a colon in it |
| SidecarPathList.BackupPathsSurvive | controllers/backupconfiguration_controller_helpers.go:264-268 | so it does, whatever the mounts, if no configured path has a colon in it |
| SidecarPathList.ColonCutsPath | controllers/backupconfiguration_controller_helpers.go:265-268 | a path with a colon is read as two |

## Left out

- Finalizers, owner references, RBAC, cron jobs and the status flags of a BackupConfiguration: single-branch calls to the API server.
- deleteSnapshots: builds one job from a filtered list.
- Mutual exclusion between sessions: `isBackupOngoing` only sees sessions in Running, so nothing is claimed across sessions.
- Changes of the configuration during a session, and targets of kind Pod, for which the code has no pod template.
- Failing API calls other than stale versions, missing repositories and missing workloads.
- The sidecar program, restic and volume snapshots: not in this repository, present as environment steps only.
- `SnapshotId` and `Duration` of a target status: written by the sidecar only.
- Aliasing of Go slices is modelled for the env slice in removeTags; elsewhere slices are values.
- Relative and empty backup paths and mount paths.
