/** Which volumes the injection adds, and whether every mount then finds its volume. */
module SidecarVolumes {
  import opened Api
  import opened Pod
  import opened PathMatching
  import opened Sidecar
  import opened SidecarUndo
  import opened SidecarServes

  // ---------- The volumes ----------

  /** The target names a container of the pod. */
  ghost predicate Hits(cs: seq<Container>, tcs: seq<TargetContainer>) {
    exists k :: 0 <= k < |cs| && Names(tcs, cs[k].name)
  }

  lemma ShareTwice(vs: seq<Volume>)
    ensures HasVolume(ShareVolume(vs), FORMOL_SHARED_VOLUME)
    ensures ShareVolume(ShareVolume(vs)) == ShareVolume(vs)
  {
    if !HasVolume(vs, FORMOL_SHARED_VOLUME) {
      assert ShareVolume(vs)[|vs|].name == FORMOL_SHARED_VOLUME;
    }
  }

  /** The mounts the entries for a container add to it in a backup by job: one for each, under its share path. */
  function SharedFor(tcs: seq<TargetContainer>, name: string): seq<VolumeMount> {
    if tcs == [] then []
    else
      (if tcs[0].name == name then [VolumeMount(FORMOL_SHARED_VOLUME, tcs[0].sharePath, "", false)] else [])
      + SharedFor(tcs[1..], name)
  }

  /** All that changes of the pod is the volumes and container `i`, and of that its env and its mounts. */
  ghost predicate Mounted(d: Draft, r: Draft, i: nat, volumes: seq<Volume>, mounts: seq<VolumeMount>)
    requires i < |d.pod.containers|
  {
    && |r.pod.containers| == |d.pod.containers| && r.pod.containers == d.pod.containers[i := r.pod.containers[i]]
    && r.pod.containers[i].volumeMounts == d.pod.containers[i].volumeMounts + mounts
    && r.pod.volumes == volumes
  }

  lemma HitMounts(d: Draft, i: nat, c: Container, tc: TargetContainer, bt: BackupType)
    requires i < |d.pod.containers|
    ensures Mounted(d, Hit(d, i, c, tc, bt), i,
                    if bt.JobKind? then ShareVolume(d.pod.volumes) else d.pod.volumes,
                    if bt.JobKind? then [VolumeMount(FORMOL_SHARED_VOLUME, tc.sharePath, "", false)] else [])
  {
    var r := Hit(d, i, c, tc, bt);
    assert d.pod.containers[i].volumeMounts + [] == d.pod.containers[i].volumeMounts;
  }

  lemma MountedTwice(d: Draft, d': Draft, r: Draft, i: nat, volumes: seq<Volume>, mounts: seq<VolumeMount>,
                     volumes': seq<Volume>, mounts': seq<VolumeMount>)
    requires i < |d.pod.containers| && Mounted(d, d', i, volumes, mounts) && Mounted(d', r, i, volumes', mounts')
    ensures Mounted(d, r, i, volumes', mounts + mounts')
  {
  }

  lemma {:induction false} HitsMount(d: Draft, i: nat, c: Container, tcs: seq<TargetContainer>, bt: BackupType)
    requires i < |d.pod.containers|
    ensures Mounted(d, HitsFrom(d, i, c, tcs, bt), i,
                    if bt.JobKind? && Names(tcs, c.name) then ShareVolume(d.pod.volumes) else d.pod.volumes,
                    if bt.JobKind? then SharedFor(tcs, c.name) else [])
    decreases |tcs|
  {
    var vs := d.pod.volumes;
    if tcs == [] {
      assert d.pod.containers[i].volumeMounts + [] == d.pod.containers[i].volumeMounts;
    } else if tcs[0].name == c.name {
      var d' := Hit(d, i, c, tcs[0], bt);
      NamesSplit(tcs, c.name);
      ShareTwice(vs);
      HitMounts(d, i, c, tcs[0], bt);
      HitsMount(d', i, c, tcs[1..], bt);
      MountedTwice(d, d', HitsFrom(d', i, c, tcs[1..], bt), i,
                   if bt.JobKind? then ShareVolume(vs) else vs,
                   if bt.JobKind? then [VolumeMount(FORMOL_SHARED_VOLUME, tcs[0].sharePath, "", false)] else [],
                   if bt.JobKind? then ShareVolume(vs) else vs,
                   if bt.JobKind? then SharedFor(tcs[1..], c.name) else []);
    } else {
      NamesSplit(tcs, c.name);
      HitsMount(d, i, c, tcs[1..], bt);
      assert [] + SharedFor(tcs[1..], c.name) == SharedFor(tcs[1..], c.name);
    }
  }

  lemma HitsSplit(cs: seq<Container>, i: nat, tcs: seq<TargetContainer>)
    requires i < |cs|
    ensures Hits(cs[i..], tcs) <==> Names(tcs, cs[i].name) || Hits(cs[i + 1..], tcs)
  {
    if Hits(cs[i + 1..], tcs) {
      var k :| 0 <= k < |cs[i + 1..]| && Names(tcs, cs[i + 1..][k].name);
      assert cs[i..][k + 1] == cs[i + 1..][k];
    }
    if Names(tcs, cs[i].name) {
      assert cs[i..][0] == cs[i];
    }
    if Hits(cs[i..], tcs) && !Names(tcs, cs[i].name) {
      var k :| 0 <= k < |cs[i..]| && Names(tcs, cs[i..][k].name);
      assert cs[i + 1..][k - 1] == cs[i..][k];
    }
  }

  lemma {:induction false} InjectMounts(d: Draft, i: nat, target: Target)
    requires i <= |d.pod.containers|
    ensures var r := InjectFrom(d, i, target);
            && |r.pod.containers| == |d.pod.containers|
            && r.pod.volumes == (if target.backupType.JobKind? && Hits(d.pod.containers[i..], target.containers)
                                 then ShareVolume(d.pod.volumes) else d.pod.volumes)
            && (forall k :: 0 <= k < i ==> r.pod.containers[k] == d.pod.containers[k])
            && forall k :: i <= k < |d.pod.containers| ==>
                 r.pod.containers[k].volumeMounts ==
                 d.pod.containers[k].volumeMounts +
                   if target.backupType.JobKind? then SharedFor(target.containers, d.pod.containers[k].name) else []
    decreases |d.pod.containers| - i
  {
    if i < |d.pod.containers| {
      var c := d.pod.containers[i];
      var d' := HitsFrom(d, i, c, target.containers, target.backupType);
      HitsMount(d, i, c, target.containers, target.backupType);
      HitsSplit(d.pod.containers, i, target.containers);
      ShareTwice(d.pod.volumes);
      assert d'.pod.containers[i + 1..] == d.pod.containers[i + 1..];
      InjectMounts(d', i + 1, target);
    }
  }

  /** Exactly these volumes are added: the shared one if a backup by job finds a container and there is none
      yet, and the repository's, with its own source, if the repository is local. */
  lemma AddedVolumes(pod: PodTemplate, image: string, target: Target, repo: Repo)
    requires NoSidecar(pod.containers)
    ensures Added(pod, image, target, repo).volumes ==
            pod.volumes
            + (if target.backupType.JobKind? && Hits(pod.containers, target.containers) &&
                  !HasVolume(pod.volumes, FORMOL_SHARED_VOLUME)
               then [Volume(FORMOL_SHARED_VOLUME, "emptyDir")] else [])
            + (if repo.local.Some? then [Volume(RESTIC_REPO_VOLUME, repo.local.value)] else [])
  {
    var d := Draft(pod, GetSidecar(image, target));
    InjectMounts(d, 0, target);
    assert pod.containers[0..] == pod.containers;
    assert pod.volumes + [] + [] == pod.volumes;
  }

  /** Exactly these mounts are added to the containers of the pod. */
  lemma AddedMounts(pod: PodTemplate, image: string, target: Target, repo: Repo, k: nat)
    requires NoSidecar(pod.containers) && k < |pod.containers|
    ensures |Added(pod, image, target, repo).containers| == |pod.containers| + 1
    ensures Added(pod, image, target, repo).containers[k].volumeMounts ==
            pod.containers[k].volumeMounts +
              if target.backupType.JobKind? then SharedFor(target.containers, pod.containers[k].name) else []
  {
    InjectMounts(Draft(pod, GetSidecar(image, target)), 0, target);
  }

  /** A sidecar that serves no container mounts at most the repository, and is told no paths. */
  lemma SidecarServesNothing(pod: PodTemplate, image: string, target: Target, repo: Repo)
    requires NoSidecar(pod.containers) && !Hits(pod.containers, target.containers)
    ensures var cs := Added(pod, image, target, repo).containers;
            && |cs| == |pod.containers| + 1
            && cs[|pod.containers|].volumeMounts ==
               (if repo.local.Some? then [VolumeMount(RESTIC_REPO_VOLUME, RESTIC_REPO_PATH, "", false)] else [])
            && |cs[|pod.containers|].env| == 2
  {
    var d := Draft(pod, GetSidecar(image, target));
    InjectLeavesSidecar(d, 0, target);
    InjectExtends(d, 0, target);
  }

  // ---------- Whether every mount finds its volume ----------

  ghost predicate Resolved(vms: seq<VolumeMount>, vs: seq<Volume>) {
    forall m :: 0 <= m < |vms| ==> HasVolume(vs, vms[m].name)
  }

  ghost predicate MountsResolve(pod: PodTemplate) {
    forall k :: 0 <= k < |pod.containers| ==> Resolved(pod.containers[k].volumeMounts, pod.volumes)
  }

  lemma MoreVolumes(vms: seq<VolumeMount>, vs: seq<Volume>, more: seq<Volume>)
    ensures Resolved(vms, vs) ==> Resolved(vms, vs + more)
  {
    forall m | 0 <= m < |vms| && HasVolume(vs, vms[m].name) ensures HasVolume(vs + more, vms[m].name) {
      var i :| 0 <= i < |vs| && vs[i].name == vms[m].name;
      assert (vs + more)[i] == vs[i];
    }
  }

  lemma {:induction false} SharedForShared(tcs: seq<TargetContainer>, name: string)
    ensures forall m :: 0 <= m < |SharedFor(tcs, name)| ==> SharedFor(tcs, name)[m].name == FORMOL_SHARED_VOLUME
    ensures SharedFor(tcs, name) != [] <==> Names(tcs, name)
    decreases |tcs|
  {
    if tcs != [] {
      SharedForShared(tcs[1..], name);
      NamesSplit(tcs, name);
    }
  }

  /** Every path is matched by some mount of the container. */
  ghost predicate AllMatched(mounts: seq<VolumeMount>, paths: seq<Path>) {
    forall i :: 0 <= i < |paths| ==> !NoneAgrees(mounts, Cleaned(paths[i]))
  }

  /** A matched path is served from a volume of the container, an unmatched one from the volume without name. */
  lemma SidecarMountsResolve(mounts: seq<VolumeMount>, paths: seq<Path>, vs: seq<Volume>)
    requires Resolved(mounts, vs)
    ensures Resolved(SidecarMounts(mounts, paths), vs) <==> AllMatched(mounts, paths) || HasVolume(vs, "")
  {
    forall i: nat | i < |paths|
      ensures if NoneAgrees(mounts, Cleaned(paths[i])) then SidecarMounts(mounts, paths)[i].name == ""
              else HasVolume(vs, SidecarMounts(mounts, paths)[i].name)
    {
      CleanTwice(paths[i]);
      EntriesServeRight(mounts, paths, i);
    }
    assert |SidecarMounts(mounts, paths)| == |paths|;
  }

  lemma {:induction false} HitsHaveLast(cs: seq<Container>, tcs: seq<TargetContainer>) returns (k: nat)
    requires Hits(cs, tcs)
    ensures LastHit(cs, tcs, k)
  {
    var n := |cs| - 1;
    if Names(tcs, cs[n].name) {
      k := n;
    } else {
      k := HitsHaveLast(cs[..n], tcs);
    }
  }

  lemma SharedVolumePresent(pod: PodTemplate, image: string, target: Target, repo: Repo)
    requires NoSidecar(pod.containers) && target.backupType.JobKind? && Hits(pod.containers, target.containers)
    ensures HasVolume(Added(pod, image, target, repo).volumes, FORMOL_SHARED_VOLUME)
  {
    var vs := Added(pod, image, target, repo).volumes;
    AddedVolumes(pod, image, target, repo);
    if HasVolume(pod.volumes, FORMOL_SHARED_VOLUME) {
      var i :| 0 <= i < |pod.volumes| && pod.volumes[i].name == FORMOL_SHARED_VOLUME;
      assert vs[i] == pod.volumes[i];
    } else {
      assert vs[|pod.volumes|].name == FORMOL_SHARED_VOLUME;
    }
  }

  /** The containers of the pod find all their volumes after the injection if they did before. */
  lemma ContainersResolve(pod: PodTemplate, image: string, target: Target, repo: Repo, k: nat)
    requires NoSidecar(pod.containers) && MountsResolve(pod) && k < |pod.containers|
    ensures var p := Added(pod, image, target, repo);
            k < |p.containers| && Resolved(p.containers[k].volumeMounts, p.volumes)
  {
    var p := Added(pod, image, target, repo);
    var name := pod.containers[k].name;
    AddedVolumes(pod, image, target, repo);
    AddedMounts(pod, image, target, repo, k);
    assert p.volumes == pod.volumes + p.volumes[|pod.volumes|..];
    MoreVolumes(pod.containers[k].volumeMounts, pod.volumes, p.volumes[|pod.volumes|..]);
    SharedForShared(target.containers, name);
    if target.backupType.JobKind? && Names(target.containers, name) {
      SharedVolumePresent(pod, image, target, repo);
    }
  }

  /** So does the repository's mount. */
  lemma RepositoryResolves(pod: PodTemplate, image: string, target: Target, repo: Repo)
    requires NoSidecar(pod.containers) && repo.local.Some?
    ensures HasVolume(Added(pod, image, target, repo).volumes, RESTIC_REPO_VOLUME)
  {
    var vs := Added(pod, image, target, repo).volumes;
    AddedVolumes(pod, image, target, repo);
    assert vs[|vs| - 1].name == RESTIC_REPO_VOLUME;
  }

  lemma NamelessIsOld(pod: PodTemplate, image: string, target: Target, repo: Repo)
    requires NoSidecar(pod.containers)
    ensures HasVolume(Added(pod, image, target, repo).volumes, "") <==> HasVolume(pod.volumes, "")
  {
    var vs := Added(pod, image, target, repo).volumes;
    AddedVolumes(pod, image, target, repo);
    if HasVolume(pod.volumes, "") {
      var i :| 0 <= i < |pod.volumes| && pod.volumes[i].name == "";
      assert vs[i].name == "";
    }
    if HasVolume(vs, "") {
      var i :| 0 <= i < |vs| && vs[i].name == "";
      assert i < |pod.volumes|;
    }
  }

  lemma ResolvedConcat(vms: seq<VolumeMount>, more: seq<VolumeMount>, vs: seq<Volume>)
    ensures Resolved(vms + more, vs) <==> Resolved(vms, vs) && Resolved(more, vs)
  {
    var both := vms + more;
    assert forall m :: 0 <= m < |vms| ==> both[m] == vms[m];
    assert forall m :: 0 <= m < |more| ==> both[|vms| + m] == more[m];
  }

  /** An online backup finds a mount for every path it asks of container `k`; a volume without name would also
      do. */
  ghost predicate PathsMatched(pod: PodTemplate, target: Target, k: nat)
    requires k < |pod.containers| && Names(target.containers, pod.containers[k].name)
  {
    var c := pod.containers[k];
    target.backupType.OnlineKind? ==>
      || AllMatched(c.volumeMounts, target.containers[LastIndex(target.containers, c.name)].paths)
      || HasVolume(pod.volumes, "")
  }

  /** The sidecar's own mounts find their volumes exactly when an online backup leaves no path unmatched. */
  lemma SidecarResolvesIff(pod: PodTemplate, image: string, target: Target, repo: Repo, k: nat)
    requires NoSidecar(pod.containers) && MountsResolve(pod) && LastHit(pod.containers, target.containers, k)
    ensures var p := Added(pod, image, target, repo);
            |p.containers| == |pod.containers| + 1 &&
            (Resolved(p.containers[|pod.containers|].volumeMounts, p.volumes) <==> PathsMatched(pod, target, k))
  {
    var p := Added(pod, image, target, repo);
    var c := pod.containers[k];
    var tc := target.containers[LastIndex(target.containers, c.name)];
    SidecarServesLastHit(pod, image, target, repo, k);
    AddedVolumes(pod, image, target, repo);
    var repoMounts := if repo.local.Some? then [VolumeMount(RESTIC_REPO_VOLUME, RESTIC_REPO_PATH, "", false)] else [];
    var sidecar := p.containers[|pod.containers|];
    var vms :| sidecar.volumeMounts == vms + repoMounts &&
               Serves(sidecar.(volumeMounts := vms), c, tc, target.backupType);
    if repo.local.Some? {
      RepositoryResolves(pod, image, target, repo);
    }
    ResolvedConcat(vms, repoMounts, p.volumes);
    match target.backupType {
      case OnlineKind =>
        assert p.volumes == pod.volumes + p.volumes[|pod.volumes|..];
        MoreVolumes(c.volumeMounts, pod.volumes, p.volumes[|pod.volumes|..]);
        SidecarMountsResolve(c.volumeMounts, tc.paths, p.volumes);
        NamelessIsOld(pod, image, target, repo);
      case JobKind => SharedVolumePresent(pod, image, target, repo);
      case SnapshotKind =>
    }
  }

  lemma SidecarContainerResolves(pod: PodTemplate, image: string, target: Target, repo: Repo)
    requires NoSidecar(pod.containers) && MountsResolve(pod)
    ensures var p := Added(pod, image, target, repo);
            |p.containers| == |pod.containers| + 1 &&
            (Resolved(p.containers[|pod.containers|].volumeMounts, p.volumes) <==>
               forall k: nat :: LastHit(pod.containers, target.containers, k) ==> PathsMatched(pod, target, k))
  {
    var p := Added(pod, image, target, repo);
    forall k: nat | LastHit(pod.containers, target.containers, k)
      ensures |p.containers| == |pod.containers| + 1
      ensures Resolved(p.containers[|pod.containers|].volumeMounts, p.volumes) <==> PathsMatched(pod, target, k)
    {
      SidecarResolvesIff(pod, image, target, repo, k);
    }
    if Hits(pod.containers, target.containers) {
      var k := HitsHaveLast(pod.containers, target.containers);
    } else {
      SidecarServesNothing(pod, image, target, repo);
      if repo.local.Some? {
        RepositoryResolves(pod, image, target, repo);
      }
    }
  }

  /** If every mount of the pod names a volume of the pod, then every mount does so after the injection, the
      sidecar's included, exactly when it is not an online backup with a path that no mount of the container
      served agrees with. */
  lemma MountsResolveIff(pod: PodTemplate, image: string, target: Target, repo: Repo)
    requires NoSidecar(pod.containers) && MountsResolve(pod)
    ensures MountsResolve(Added(pod, image, target, repo)) <==>
            forall k: nat :: LastHit(pod.containers, target.containers, k) ==> PathsMatched(pod, target, k)
  {
    var p := Added(pod, image, target, repo);
    var n := |pod.containers|;
    SidecarContainerResolves(pod, image, target, repo);
    forall k: nat | k < n ensures Resolved(p.containers[k].volumeMounts, p.volumes) {
      ContainersResolve(pod, image, target, repo, k);
    }
    assert MountsResolve(p) <==> Resolved(p.containers[n].volumeMounts, p.volumes);
  }
}
