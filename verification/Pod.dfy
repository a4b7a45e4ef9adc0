/** Pod templates, as far as the operator looks at them. */
module Pod {
  import opened Api

  const SIDECARCONTAINER_NAME := "formol"
  const TARGETCONTAINER_TAG := "FORMOL_TARGET"
  const TARGET_NAME := "TARGET_NAME"
  const POD_NAMESPACE := "POD_NAMESPACE"
  const BACKUP_PATHS := "BACKUP_PATHS"
  const BACKUP_PREFIX_PATH := "backup"
  const FORMOL_SHARED_VOLUME := "formol-shared"
  const RESTIC_REPO_VOLUME := "restic-volume"
  const RESTIC_REPO_PATH: Path := ["restic-repo"]

  datatype EnvVar = EnvVar(name: string, value: string, fieldPath: string)

  datatype VolumeMount = VolumeMount(name: string, mountPath: Path, subPath: string, readOnly: bool)

  datatype Volume = Volume(name: string, source: string)

  /** `other` stands for all the fields the operator never touches. */
  datatype Container = Container(
    name: string,
    image: string,
    args: seq<string>,
    env: seq<EnvVar>,
    volumeMounts: seq<VolumeMount>,
    privileged: bool,
    other: string)

  datatype PodTemplate = PodTemplate(
    containers: seq<Container>,
    volumes: seq<Volume>,
    shareProcessNamespace: Option<bool>,
    other: string)

  /** A client's copy of a pod template, edited in place. */
  class PodSpec {
    var containers: seq<Container>
    var volumes: seq<Volume>
    var shareProcessNamespace: Option<bool>
    const other: string

    constructor (t: PodTemplate)
      ensures Template() == t
    {
      containers := t.containers;
      volumes := t.volumes;
      shareProcessNamespace := t.shareProcessNamespace;
      other := t.other;
    }

    function Template(): PodTemplate
      reads this
    {
      PodTemplate(containers, volumes, shareProcessNamespace, other)
    }
  }
}
