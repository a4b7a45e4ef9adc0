/** `addSidecar`, `GetSharedPath`, `GetSidecar`, `DeleteSidecar` and `removeTags`, and the loop over the
    targets that calls `addSidecar`. */
module Sidecar {
  import opened Api
  import opened Pod
  import opened PathMatching
  import opened Strings

  /** A repository; a local one brings the volume source of its backend. */
  datatype Repo = Repo(local: Option<string>)

  datatype WorkloadKey = WorkloadKey(kind: TargetKind, name: string)

  function KeyOf(target: Target): WorkloadKey {
    WorkloadKey(target.targetKind, target.targetName)
  }

  // ---------- Injection ----------

  function TagOf(c: Container): EnvVar {
    EnvVar(TARGETCONTAINER_TAG, c.name, "")
  }

  function SharedMount(tc: TargetContainer): VolumeMount {
    VolumeMount(FORMOL_SHARED_VOLUME, tc.sharePath, "", false)
  }

  predicate HasVolume(volumes: seq<Volume>, name: string) {
    exists i :: 0 <= i < |volumes| && volumes[i].name == name
  }

  function ShareVolume(volumes: seq<Volume>): seq<Volume> {
    if HasVolume(volumes, FORMOL_SHARED_VOLUME) then volumes
    else volumes + [Volume(FORMOL_SHARED_VOLUME, "emptyDir")]
  }

  /** GetSharedPath: the pod shares a volume with the sidecar under the target's share path. */
  method GetSharedPath(pod: PodSpec, index: nat, tc: TargetContainer) returns (vms: seq<VolumeMount>)
    requires index < |pod.containers|
    modifies pod
    ensures vms == [SharedMount(tc)]
    ensures pod.Template() == old(pod.Template()).(
              volumes := ShareVolume(old(pod.volumes)),
              containers := old(pod.containers)[index := old(pod.containers)[index].(
                volumeMounts := old(pod.containers)[index].volumeMounts + [SharedMount(tc)])])
  {
    var addSharedVol := true;
    for i := 0 to |pod.volumes|
      invariant addSharedVol == !HasVolume(pod.volumes[..i], FORMOL_SHARED_VOLUME)
    {
      assert pod.volumes[..i + 1] == pod.volumes[..i] + [pod.volumes[i]];
      if pod.volumes[i].name == FORMOL_SHARED_VOLUME {
        assert pod.volumes[..i + 1][i].name == FORMOL_SHARED_VOLUME;
        addSharedVol := false;
      } else {
        assert forall j :: 0 <= j < i ==> pod.volumes[..i + 1][j] == pod.volumes[..i][j];
      }
    }
    assert pod.volumes[..|pod.volumes|] == pod.volumes;
    if addSharedVol {
      pod.volumes := pod.volumes + [Volume(FORMOL_SHARED_VOLUME, "emptyDir")];
    }
    var c := pod.containers[index];
    pod.containers := pod.containers[index := c.(volumeMounts := c.volumeMounts + [SharedMount(tc)])];
    vms := [SharedMount(tc)];
  }

  function Slashed(components: seq<string>): string {
    if components == [] then "" else "/" + components[0] + Slashed(components[1..])
  }

  function Render(p: Option<seq<string>>): string {
    match p
    case None => ""
    case Some(components) => if components == [] then "/" else Slashed(components)
  }

  function RenderAll(paths: seq<Option<seq<string>>>): seq<string> {
    seq(|paths|, i requires 0 <= i < |paths| => Render(paths[i]))
  }

  /** strings.Join with the path list separator. */
  function JoinPaths(paths: seq<Option<seq<string>>>): string {
    Join(RenderAll(paths), ':')
  }

  function GetSidecar(image: string, target: Target): Container {
    Container(
      SIDECARCONTAINER_NAME, image, ["server"],
      [EnvVar(TARGET_NAME, target.targetName, ""), EnvVar(POD_NAMESPACE, "", "metadata.namespace")],
      [], true, "")
  }

  /** The pod and the sidecar as the injection has left them so far. */
  datatype Draft = Draft(pod: PodTemplate, sidecar: Container)

  /** One target container found: `container` is the copy taken when the outer loop reached it. */
  function Hit(d: Draft, i: nat, container: Container, tc: TargetContainer, backupType: BackupType): (r: Draft)
    requires i < |d.pod.containers|
    ensures |r.pod.containers| == |d.pod.containers|
  {
    var c := d.pod.containers[i].(env := container.env + [TagOf(container)]);
    match backupType
    case OnlineKind =>
      Draft(d.pod.(containers := d.pod.containers[i := c]),
            d.sidecar.(
              env := d.sidecar.env +
                [EnvVar(BACKUP_PATHS, JoinPaths(SidecarPaths(container.volumeMounts, tc.paths)), "")],
              volumeMounts := SidecarMounts(container.volumeMounts, tc.paths)))
    case JobKind =>
      Draft(d.pod.(containers := d.pod.containers[i := c.(volumeMounts := c.volumeMounts + [SharedMount(tc)])],
                   volumes := ShareVolume(d.pod.volumes)),
            d.sidecar.(volumeMounts := [SharedMount(tc)]))
    case SnapshotKind => Draft(d.pod.(containers := d.pod.containers[i := c]), d.sidecar)
  }

  function HitsFrom(d: Draft, i: nat, container: Container, tcs: seq<TargetContainer>,
                    backupType: BackupType): (r: Draft)
    requires i < |d.pod.containers|
    ensures |r.pod.containers| == |d.pod.containers|
    decreases |tcs|
  {
    if tcs == [] then d
    else HitsFrom(if tcs[0].name == container.name then Hit(d, i, container, tcs[0], backupType) else d,
                  i, container, tcs[1..], backupType)
  }

  function InjectFrom(d: Draft, i: nat, target: Target): Draft
    requires i <= |d.pod.containers|
    decreases |d.pod.containers| - i
  {
    if i == |d.pod.containers| then d
    else InjectFrom(HitsFrom(d, i, d.pod.containers[i], target.containers, target.backupType), i + 1, target)
  }

  /** The repository volume, and the finished sidecar as the last container. */
  function Finish(d: Draft, repo: Repo): PodTemplate {
    match repo.local
    case Some(source) =>
      d.pod.(
        containers := d.pod.containers + [d.sidecar.(volumeMounts := d.sidecar.volumeMounts +
          [VolumeMount(RESTIC_REPO_VOLUME, RESTIC_REPO_PATH, "", false)])],
        volumes := d.pod.volumes + [Volume(RESTIC_REPO_VOLUME, source)],
        shareProcessNamespace := Some(true))
    case None =>
      d.pod.(containers := d.pod.containers + [d.sidecar], shareProcessNamespace := Some(true))
  }

  function SidecarIndex(cs: seq<Container>, i: nat): (r: int)
    requires i <= |cs|
    ensures r == -1 || (i <= r < |cs| && cs[r].name == SIDECARCONTAINER_NAME)
    ensures forall j :: i <= j < (if r < 0 then |cs| else r) ==> cs[j].name != SIDECARCONTAINER_NAME
    decreases |cs| - i
  {
    if i == |cs| then -1 else if cs[i].name == SIDECARCONTAINER_NAME then i else SidecarIndex(cs, i + 1)
  }

  /** The pod after addSidecar. */
  function Added(pod: PodTemplate, image: string, target: Target, repo: Repo): PodTemplate {
    var r := SidecarIndex(pod.containers, 0);
    if r >= 0 then pod.(containers := pod.containers[r := pod.containers[r].(image := image)])
    else Finish(InjectFrom(Draft(pod, GetSidecar(image, target)), 0, target), repo)
  }

  // ---------- Removal ----------

  function DropSharedMounts(vms: seq<VolumeMount>): seq<VolumeMount> {
    if vms == [] then []
    else (if vms[0].name == FORMOL_SHARED_VOLUME then [] else [vms[0]]) + DropSharedMounts(vms[1..])
  }

  predicate FormolVolume(v: Volume) {
    v.name == RESTIC_REPO_VOLUME || v.name == FORMOL_SHARED_VOLUME
  }

  function DropFormolVolumes(vs: seq<Volume>): seq<Volume> {
    if vs == [] then []
    else (if FormolVolume(vs[0]) then [] else [vs[0]]) + DropFormolVolumes(vs[1..])
  }

  function DropSidecars(cs: seq<Container>): seq<Container> {
    if cs == [] then []
    else
      (if cs[0].name == SIDECARCONTAINER_NAME then []
       else [cs[0].(volumeMounts := DropSharedMounts(cs[0].volumeMounts))])
      + DropSidecars(cs[1..])
  }

  function TagIndex(env: seq<EnvVar>, j: nat): (r: int)
    requires j <= |env|
    ensures r == -1 || (j <= r < |env| && env[r].name == TARGETCONTAINER_TAG)
    ensures forall k :: j <= k < (if r < 0 then |env| else r) ==> env[k].name != TARGETCONTAINER_TAG
    decreases |env| - j
  {
    if j == |env| then -1 else if env[j].name == TARGETCONTAINER_TAG then j else TagIndex(env, j + 1)
  }

  /** An env slice and the array behind it: the copy of the loop variable keeps seeing that array. */
  datatype EnvSlice = EnvSlice(backing: seq<EnvVar>, env: seq<EnvVar>)

  /** Removing one tag: the last entry if it is one, else the first found is overwritten by the last entry. */
  function Strip(e: EnvSlice): EnvSlice {
    var n := |e.backing|;
    if n > 1 && e.backing[n - 1].name == TARGETCONTAINER_TAG then EnvSlice(e.backing, e.backing[..n - 1])
    else
      var j := TagIndex(e.backing, 0);
      if j < 0 then e
      else
        var backing := e.backing[j := e.backing[n - 1]];
        EnvSlice(backing, backing[..n - 1])
  }

  function StripFor(e: EnvSlice, name: string, tcs: seq<TargetContainer>): EnvSlice
    decreases |tcs|
  {
    if tcs == [] then e else StripFor(if tcs[0].name == name then Strip(e) else e, name, tcs[1..])
  }

  function Untagged(c: Container, target: Target): Container {
    c.(env := StripFor(EnvSlice(c.env, c.env), c.name, target.containers).env)
  }

  function UntagAll(cs: seq<Container>, target: Target): seq<Container> {
    seq(|cs|, i requires 0 <= i < |cs| => Untagged(cs[i], target))
  }

  /** The pod after DeleteSidecar has dealt with one target. */
  function Removed(pod: PodTemplate, target: Target): PodTemplate {
    pod.(
      containers := UntagAll(DropSidecars(pod.containers), target),
      volumes := DropFormolVolumes(pod.volumes))
  }

  // ---------- The methods on one pod ----------

  method FindTag(env: seq<EnvVar>) returns (j: int)
    ensures j == TagIndex(env, 0)
  {
    j := 0;
    while j < |env| && env[j].name != TARGETCONTAINER_TAG
      invariant 0 <= j <= |env| && TagIndex(env, j) == TagIndex(env, 0)
    {
      j := j + 1;
    }
    if j == |env| {
      j := -1;
    }
  }

  /** The two inner loops for one container; `env` is the loop variable's slice of it. */
  method UntagContainer(pod: PodSpec, i: nat, target: Target)
    requires i < |pod.containers|
    modifies pod
    ensures pod.Template() == old(pod.Template()).(
              containers := old(pod.containers)[i := Untagged(old(pod.containers)[i], target)])
  {
    var container := pod.containers[i];
    var env := container.env;
    for t := 0 to |target.containers|
      invariant i < |pod.containers|
      invariant pod.Template() == old(pod.Template()).(
                  containers := old(pod.containers)[i := container.(env := pod.containers[i].env)])
      invariant StripFor(EnvSlice(env, pod.containers[i].env), container.name, target.containers[t..]) ==
                StripFor(EnvSlice(container.env, container.env), container.name, target.containers)
    {
      assert target.containers[t..][0] == target.containers[t];
      assert target.containers[t..][1..] == target.containers[t + 1..];
      if target.containers[t].name == container.name {
        ghost var slice := EnvSlice(env, pod.containers[i].env);
        if |env| > 1 && env[|env| - 1].name == TARGETCONTAINER_TAG {
          pod.containers := pod.containers[i := pod.containers[i].(env := env[..|env| - 1])];
        } else {
          var j := FindTag(env);
          if j >= 0 {
            env := env[j := env[|env| - 1]];
            pod.containers := pod.containers[i := pod.containers[i].(env := env[..|env| - 1])];
          }
        }
        assert EnvSlice(env, pod.containers[i].env) == Strip(slice);
      }
    }
    assert target.containers[|target.containers|..] == [];
  }

  method RemoveTags(pod: PodSpec, target: Target)
    modifies pod
    ensures pod.Template() == old(pod.Template()).(containers := UntagAll(old(pod.containers), target))
  {
    ghost var was := pod.containers;
    for i := 0 to |pod.containers|
      invariant |pod.containers| == |was|
      invariant pod.Template() == old(pod.Template()).(containers := pod.containers)
      invariant forall k :: 0 <= k < |was| ==> pod.containers[k] == if k < i then Untagged(was[k], target) else was[k]
    {
      UntagContainer(pod, i, target);
    }
    assert pod.containers == UntagAll(was, target);
  }

  method FindSidecar(cs: seq<Container>) returns (res: int)
    ensures res == SidecarIndex(cs, 0)
  {
    res := -1;
    for i := 0 to |cs|
      invariant SidecarIndex(cs, i) == SidecarIndex(cs, 0)
    {
      if cs[i].name == SIDECARCONTAINER_NAME {
        return i;
      }
    }
  }

  /** One target container: tag it and extend the sidecar according to the kind of backup. */
  method InjectHit(pod: PodSpec, sidecar: Container, i: nat, container: Container, tc: TargetContainer,
                   backupType: BackupType)
    returns (sidecar': Container)
    requires i < |pod.containers|
    modifies pod
    ensures Draft(pod.Template(), sidecar') == Hit(Draft(old(pod.Template()), sidecar), i, container, tc, backupType)
  {
    sidecar' := sidecar;
    pod.containers := pod.containers[i := pod.containers[i].(env := container.env + [TagOf(container)])];
    match backupType {
      case OnlineKind =>
        var sidecarPaths, vms := GetVolumeMounts(container.volumeMounts, tc.paths);
        sidecar' := sidecar'.(
          env := sidecar'.env + [EnvVar(BACKUP_PATHS, JoinPaths(sidecarPaths), "")],
          volumeMounts := vms);
      case JobKind =>
        var vms := GetSharedPath(pod, i, tc);
        sidecar' := sidecar'.(volumeMounts := vms);
      case SnapshotKind =>
    }
  }

  /** The inner loop over the target's containers. */
  method InjectHits(pod: PodSpec, sidecar: Container, i: nat, target: Target) returns (sidecar': Container)
    requires i < |pod.containers|
    modifies pod
    ensures Draft(pod.Template(), sidecar') ==
            HitsFrom(Draft(old(pod.Template()), sidecar), i, old(pod.containers)[i],
                     target.containers, target.backupType)
  {
    var container := pod.containers[i];
    sidecar' := sidecar;
    ghost var goal := HitsFrom(Draft(pod.Template(), sidecar), i, container, target.containers, target.backupType);
    for t := 0 to |target.containers|
      invariant i < |pod.containers|
      invariant HitsFrom(Draft(pod.Template(), sidecar'), i, container,
                         target.containers[t..], target.backupType) == goal
    {
      assert target.containers[t..][0] == target.containers[t];
      assert target.containers[t..][1..] == target.containers[t + 1..];
      if target.containers[t].name == container.name {
        sidecar' := InjectHit(pod, sidecar', i, container, target.containers[t], target.backupType);
      }
    }
    assert target.containers[|target.containers|..] == [];
  }

  /** The second branch of addSidecar: build the sidecar and add it to the pod. */
  method Inject(pod: PodSpec, image: string, target: Target, repo: Repo)
    modifies pod
    ensures pod.Template() ==
            Finish(InjectFrom(Draft(old(pod.Template()), GetSidecar(image, target)), 0, target), repo)
  {
    var sidecar := GetSidecar(image, target);
    ghost var goal := InjectFrom(Draft(pod.Template(), sidecar), 0, target);
    ghost var n := |pod.containers|;
    for i := 0 to |pod.containers|
      invariant |pod.containers| == n
      invariant InjectFrom(Draft(pod.Template(), sidecar), i, target) == goal
    {
      sidecar := InjectHits(pod, sidecar, i, target);
    }
    if repo.local.Some? {
      sidecar := sidecar.(volumeMounts := sidecar.volumeMounts +
        [VolumeMount(RESTIC_REPO_VOLUME, RESTIC_REPO_PATH, "", false)]);
      pod.volumes := pod.volumes + [Volume(RESTIC_REPO_VOLUME, repo.local.value)];
    }
    pod.containers := pod.containers + [sidecar];
    pod.shareProcessNamespace := Some(true);
  }

  method RestoreMounts(vms: seq<VolumeMount>) returns (restored: seq<VolumeMount>)
    ensures restored == DropSharedMounts(vms)
  {
    restored := [];
    for i := 0 to |vms|
      invariant restored + DropSharedMounts(vms[i..]) == DropSharedMounts(vms)
    {
      assert vms[i..][0] == vms[i] && vms[i..][1..] == vms[i + 1..];
      if vms[i].name == FORMOL_SHARED_VOLUME {
        assert DropSharedMounts(vms[i..]) == DropSharedMounts(vms[i + 1..]);
        continue;
      }
      restored := restored + [vms[i]];
    }
    assert vms[|vms|..] == [];
  }

  method RestoreContainers(cs: seq<Container>) returns (restored: seq<Container>)
    ensures restored == DropSidecars(cs)
  {
    restored := [];
    for i := 0 to |cs|
      invariant restored + DropSidecars(cs[i..]) == DropSidecars(cs)
    {
      assert cs[i..][0] == cs[i] && cs[i..][1..] == cs[i + 1..];
      if cs[i].name == SIDECARCONTAINER_NAME {
        assert DropSidecars(cs[i..]) == DropSidecars(cs[i + 1..]);
        continue;
      }
      var vms := RestoreMounts(cs[i].volumeMounts);
      restored := restored + [cs[i].(volumeMounts := vms)];
    }
    assert cs[|cs|..] == [];
  }

  method RestoreVolumes(vs: seq<Volume>) returns (restored: seq<Volume>)
    ensures restored == DropFormolVolumes(vs)
  {
    restored := [];
    for i := 0 to |vs|
      invariant restored + DropFormolVolumes(vs[i..]) == DropFormolVolumes(vs)
    {
      assert vs[i..][0] == vs[i] && vs[i..][1..] == vs[i + 1..];
      if vs[i].name == RESTIC_REPO_VOLUME || vs[i].name == FORMOL_SHARED_VOLUME {
        assert DropFormolVolumes(vs[i..]) == DropFormolVolumes(vs[i + 1..]);
        continue;
      }
      restored := restored + [vs[i]];
    }
    assert vs[|vs|..] == [];
  }

  /** The body of the loop in DeleteSidecar. */
  method RemoveSidecar(pod: PodSpec, target: Target)
    modifies pod
    ensures pod.Template() == Removed(old(pod.Template()), target)
  {
    pod.containers := RestoreContainers(pod.containers);
    pod.volumes := RestoreVolumes(pod.volumes);
    RemoveTags(pod, target);
  }

  // ---------- The cluster ----------

  /** The pods after the loop over the targets: it stops at the first missing workload. */
  function AddedAll(pods: map<WorkloadKey, PodTemplate>, image: string, targets: seq<Target>,
                    repo: Repo): map<WorkloadKey, PodTemplate>
    decreases |targets|
  {
    if targets == [] || KeyOf(targets[0]) !in pods then pods
    else AddedAll(pods[KeyOf(targets[0]) := Added(pods[KeyOf(targets[0])], image, targets[0], repo)],
                  image, targets[1..], repo)
  }

  function RemovedAll(pods: map<WorkloadKey, PodTemplate>, targets: seq<Target>): map<WorkloadKey, PodTemplate>
    decreases |targets|
  {
    if targets == [] || KeyOf(targets[0]) !in pods then pods
    else RemovedAll(pods[KeyOf(targets[0]) := Removed(pods[KeyOf(targets[0])], targets[0])], targets[1..])
  }

  class Cluster {
    var pods: map<WorkloadKey, PodTemplate>

    constructor (pods: map<WorkloadKey, PodTemplate>)
      ensures this.pods == pods
    {
      this.pods := pods;
    }

    method Get(key: WorkloadKey) returns (pod: PodSpec?)
      ensures key in pods <==> pod != null
      ensures pod != null ==> fresh(pod) && pod.Template() == pods[key]
    {
      if key in pods {
        pod := new PodSpec(pods[key]);
      } else {
        pod := null;
      }
    }

    method Update(key: WorkloadKey, pod: PodSpec)
      modifies this
      ensures pods == old(pods)[key := pod.Template()]
    {
      pods := pods[key := pod.Template()];
    }

    /** The first `if`: a sidecar is already there. */
    method RefreshImage(key: WorkloadKey, pod: PodSpec, res: nat, image: string)
      requires key in pods && pod.Template() == pods[key]
      requires res < |pod.containers|
      modifies this, pod
      ensures pods == old(pods)[key := old(pods)[key].(containers :=
                old(pods)[key].containers[res := old(pods)[key].containers[res].(image := image)])]
    {
      ghost var was := pods[key];
      if pod.containers[res].image != image {
        pod.containers := pod.containers[res := pod.containers[res].(image := image)];
        Update(key, pod);
      } else {
        assert was.containers[res := was.containers[res].(image := image)] == was.containers;
      }
    }

    method AddSidecar(image: string, target: Target, repo: Option<Repo>) returns (ok: bool)
      modifies this
      ensures ok <==> repo.Some? && WorkloadKey(target.targetKind, target.targetName) in old(pods)
      ensures pods == if ok then old(pods)[KeyOf(target) := Added(old(pods)[KeyOf(target)], image, target, repo.value)]
                      else old(pods)
    {
      if repo.None? {
        return false;
      }
      var pod := Get(KeyOf(target));
      if pod == null {
        return false;
      }
      var res := FindSidecar(pod.containers);
      if res != -1 {
        RefreshImage(KeyOf(target), pod, res, image);
      } else {
        Inject(pod, image, target, repo.value);
        Update(KeyOf(target), pod);
      }
      ok := true;
    }

    /** The loop over the targets in Reconcile; it stops at the first error. */
    method AddSidecars(image: string, targets: seq<Target>, repo: Option<Repo>) returns (ok: bool)
      modifies this
      ensures repo.Some? ==> pods == AddedAll(old(pods), image, targets, repo.value)
      ensures ok <==> (repo.Some? && forall t :: t in targets ==> KeyOf(t) in old(pods)) || targets == []
      ensures repo.None? ==> pods == old(pods)
    {
      ghost var was := pods;
      ok := true;
      for i := 0 to |targets|
        invariant ok && pods.Keys == was.Keys && (i > 0 ==> repo.Some?)
        invariant forall t :: t in targets[..i] ==> KeyOf(t) in was
        invariant repo.Some? ==>
                    AddedAll(pods, image, targets[i..], repo.value) == AddedAll(was, image, targets, repo.value)
        invariant repo.None? ==> pods == was
      {
        assert targets[i..][0] == targets[i] && targets[i..][1..] == targets[i + 1..];
        assert targets[i] in targets;
        ok := AddSidecar(image, targets[i], repo);
        if !ok {
          return;
        }
        assert targets[..i + 1] == targets[..i] + [targets[i]];
      }
      assert targets[..|targets|] == targets && targets[|targets|..] == [];
    }

    method DeleteSidecar(targets: seq<Target>, repo: Option<Repo>) returns (ok: bool)
      modifies this
      ensures repo.Some? ==> pods == RemovedAll(old(pods), targets)
      ensures ok <==>
              repo.Some? && forall t :: t in targets ==> WorkloadKey(t.targetKind, t.targetName) in old(pods)
      ensures repo.None? ==> pods == old(pods)
    {
      if repo.None? {
        return false;
      }
      ghost var was := pods;
      for i := 0 to |targets|
        invariant pods.Keys == was.Keys
        invariant forall t :: t in targets[..i] ==> KeyOf(t) in was
        invariant RemovedAll(pods, targets[i..]) == RemovedAll(was, targets)
      {
        assert targets[i..][0] == targets[i] && targets[i..][1..] == targets[i + 1..];
        assert targets[i] in targets;
        var pod := Get(KeyOf(targets[i]));
        if pod == null {
          return false;
        }
        RemoveSidecar(pod, targets[i]);
        Update(KeyOf(targets[i]), pod);
        assert targets[..i + 1] == targets[..i] + [targets[i]];
      }
      assert targets[..|targets|] == targets && targets[|targets|..] == [];
      ok := true;
    }
  }
}
