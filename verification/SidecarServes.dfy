/** What the injected sidecar sees of the pod: the paths of the last target container that matched. */
module SidecarServes {
  import opened Api
  import opened Pod
  import opened PathMatching
  import opened Sidecar
  import opened SidecarUndo

  /** The sidecar's mounts, and for online backups the BACKUP_PATHS that counts, are those of `tc` in `c`. */
  ghost predicate Serves(sidecar: Container, c: Container, tc: TargetContainer, bt: BackupType) {
    match bt
    case OnlineKind =>
      && sidecar.volumeMounts == SidecarMounts(c.volumeMounts, tc.paths)
      && sidecar.env != []
      && sidecar.env[|sidecar.env| - 1] == EnvVar(BACKUP_PATHS, JoinPaths(SidecarPaths(c.volumeMounts, tc.paths)), "")
    case JobKind => sidecar.volumeMounts == [SharedMount(tc)]
    case SnapshotKind => sidecar.volumeMounts == []
  }

  /** `t` is the last entry of `tcs` for the container. */
  ghost predicate LastNamed(tcs: seq<TargetContainer>, name: string, t: nat) {
    t < |tcs| && tcs[t].name == name && !Names(tcs[t + 1..], name)
  }

  ghost function LastIndex(tcs: seq<TargetContainer>, name: string): (t: nat)
    requires Names(tcs, name)
    ensures LastNamed(tcs, name, t)
  {
    NamesSplit(tcs, name);
    if Names(tcs[1..], name) then
      var t := LastIndex(tcs[1..], name);
      assert tcs[t + 2..] == tcs[1..][t + 1..];
      t + 1
    else 0
  }

  /** A snapshot backup adds nothing to the sidecar. */
  predicate Bare(sidecar: Container, bt: BackupType) {
    bt.SnapshotKind? ==> sidecar.volumeMounts == []
  }

  lemma {:induction false} HitsServe(d: Draft, i: nat, c: Container, tcs: seq<TargetContainer>, bt: BackupType)
    requires i < |d.pod.containers| && Bare(d.sidecar, bt)
    ensures var r := HitsFrom(d, i, c, tcs, bt);
            && Bare(r.sidecar, bt)
            && (forall k :: 0 <= k < |d.pod.containers| && k != i ==> r.pod.containers[k] == d.pod.containers[k])
            && if Names(tcs, c.name)
               then Serves(r.sidecar, c, tcs[LastIndex(tcs, c.name)], bt)
               else r.sidecar == d.sidecar
    decreases |tcs|
  {
    if tcs != [] {
      NamesSplit(tcs, c.name);
      var d' := if tcs[0].name == c.name then Hit(d, i, c, tcs[0], bt) else d;
      HitsServe(d', i, c, tcs[1..], bt);
      if Names(tcs, c.name) && !Names(tcs[1..], c.name) {
        assert LastIndex(tcs, c.name) == 0;
      }
    }
  }

  /** `k` is the last container of the pod that the target names. */
  ghost predicate LastHit(cs: seq<Container>, tcs: seq<TargetContainer>, k: nat) {
    && k < |cs|
    && Names(tcs, cs[k].name)
    && forall m :: k < m < |cs| ==> !Names(tcs, cs[m].name)
  }

  lemma {:induction false} InjectLeavesSidecar(d: Draft, i: nat, target: Target)
    requires i <= |d.pod.containers| && Bare(d.sidecar, target.backupType)
    requires forall m :: i <= m < |d.pod.containers| ==> !Names(target.containers, d.pod.containers[m].name)
    ensures InjectFrom(d, i, target).sidecar == d.sidecar
    decreases |d.pod.containers| - i
  {
    if i < |d.pod.containers| {
      var d' := HitsFrom(d, i, d.pod.containers[i], target.containers, target.backupType);
      HitsServe(d, i, d.pod.containers[i], target.containers, target.backupType);
      InjectLeavesSidecar(d', i + 1, target);
    }
  }

  lemma {:induction false} InjectServes(d: Draft, i: nat, target: Target, k: nat)
    requires i <= k < |d.pod.containers| && LastHit(d.pod.containers, target.containers, k)
    requires Bare(d.sidecar, target.backupType)
    ensures var c := d.pod.containers[k];
            Serves(InjectFrom(d, i, target).sidecar, c,
                   target.containers[LastIndex(target.containers, c.name)], target.backupType)
    decreases k - i
  {
    var d' := HitsFrom(d, i, d.pod.containers[i], target.containers, target.backupType);
    HitsServe(d, i, d.pod.containers[i], target.containers, target.backupType);
    if i < k {
      InjectServes(d', i + 1, target, k);
    } else {
      InjectLeavesSidecar(d', i + 1, target);
    }
  }

  /** Every match overwrites the sidecar's mounts, so only the last container the target names is
      served: its mounts carry its paths, and the last BACKUP_PATHS lists them in the same order. A
      local repository is mounted after them. */
  lemma SidecarServesLastHit(pod: PodTemplate, image: string, target: Target, repo: Repo, k: nat)
    requires NoSidecar(pod.containers) && LastHit(pod.containers, target.containers, k)
    ensures var cs := Added(pod, image, target, repo).containers;
            var c := pod.containers[k];
            var repoMounts :=
              if repo.local.Some? then [VolumeMount(RESTIC_REPO_VOLUME, RESTIC_REPO_PATH, "", false)] else [];
            |cs| == |pod.containers| + 1 &&
            exists vms :: cs[|pod.containers|].volumeMounts == vms + repoMounts &&
              Serves(cs[|pod.containers|].(volumeMounts := vms), c,
                     target.containers[LastIndex(target.containers, c.name)], target.backupType)
  {
    var d := Draft(pod, GetSidecar(image, target));
    InjectServes(d, 0, target, k);
    InjectExtends(d, 0, target);
    var sidecar := InjectFrom(d, 0, target).sidecar;
    var last := Added(pod, image, target, repo).containers[|pod.containers|];
    assert sidecar.volumeMounts + [] == sidecar.volumeMounts;
    assert last.(volumeMounts := sidecar.volumeMounts) == sidecar;
  }
}
