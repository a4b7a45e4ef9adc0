/** The custom resources the operator works on, reduced to the fields its logic reads or writes. */
module Api {

  datatype Option<+T> = None | Some(value: T)

  /** `SessionState` is a Go string: `Unset` is "" and `Other` any value outside the declared constants. */
  datatype SessionState =
    | Unset
    | New
    | Initializing
    | Initialized
    | Running
    | Waiting
    | WaitingForJob
    | Finalize
    | Success
    | Failure
    | Other(text: string)

  datatype BackupType = SnapshotKind | OnlineKind | JobKind

  datatype TargetKind = Deployment | StatefulSet

  /** An absolute path, split at its separators, without the empty component in front of the first one:
      the root is [""], and [] stands for no path at all. */
  type Path = seq<string>

  /** `paths` are the paths to back up. */
  datatype TargetContainer = TargetContainer(name: string, paths: seq<Path>, sharePath: Path)

  datatype Target = Target(
    backupType: BackupType,
    targetKind: TargetKind,
    targetName: string,
    containers: seq<TargetContainer>,
    retry: int)

  datatype Keep = Keep(last: int, daily: int, weekly: int, monthly: int, yearly: int)

  datatype BackupConfiguration = BackupConfiguration(
    name: string,
    image: string,
    keep: Keep,
    targets: seq<Target>)

  datatype TargetStatus = TargetStatus(
    backupType: BackupType,
    targetName: string,
    targetKind: TargetKind,
    state: SessionState,
    startTime: int,
    tries: int)

  /** The status shared by BackupSession and RestoreSession. */
  datatype SessionStatus = SessionStatus(
    state: SessionState,
    startTime: int,
    targets: seq<TargetStatus>)
}
