/** Removing the sidecar undoes its injection: exactly when, and for any list of targets. */
module SidecarUndo {
  import opened Api
  import opened Pod
  import opened Sidecar

  ghost predicate Names(tcs: seq<TargetContainer>, name: string) {
    exists k :: 0 <= k < |tcs| && tcs[k].name == name
  }

  predicate AllShared(vms: seq<VolumeMount>) {
    forall k :: 0 <= k < |vms| ==> vms[k].name == FORMOL_SHARED_VOLUME
  }

  predicate NoneShared(vms: seq<VolumeMount>) {
    forall k :: 0 <= k < |vms| ==> vms[k].name != FORMOL_SHARED_VOLUME
  }

  predicate AllFormol(vs: seq<Volume>) {
    forall k :: 0 <= k < |vs| ==> FormolVolume(vs[k])
  }

  predicate NoneFormol(vs: seq<Volume>) {
    forall k :: 0 <= k < |vs| ==> !FormolVolume(vs[k])
  }

  predicate NoSidecar(cs: seq<Container>) {
    forall k :: 0 <= k < |cs| ==> cs[k].name != SIDECARCONTAINER_NAME
  }

  // ---------- What the injection adds ----------

  predicate OnlySharedAdded(vms: seq<VolumeMount>, vms': seq<VolumeMount>) {
    vms <= vms' && AllShared(vms'[|vms|..])
  }

  predicate OnlyFormolAdded(vs: seq<Volume>, vs': seq<Volume>) {
    vs <= vs' && AllFormol(vs'[|vs|..])
  }

  /** A container with shared mounts added and, if `tagged`, the tag as the last entry of its env. */
  ghost predicate Extended(c: Container, c': Container, tagged: bool) {
    && c' == c.(env := c'.env, volumeMounts := c'.volumeMounts)
    && c'.env == (if tagged then c.env + [EnvVar(TARGETCONTAINER_TAG, c.name, "")] else c.env)
    && OnlySharedAdded(c.volumeMounts, c'.volumeMounts)
  }

  /** Nothing of the sidecar changes but its mounts and its env, which may get BACKUP_PATHS entries. */
  predicate SidecarGrows(c: Container, c': Container) {
    && c' == c.(env := c'.env, volumeMounts := c'.volumeMounts)
    && c.env <= c'.env && forall k :: |c.env| <= k < |c'.env| ==> c'.env[k].name == BACKUP_PATHS
  }

  /** The sidecar container for a target, but for its mounts and the paths it is told. */
  predicate IsSidecarOf(c: Container, image: string, target: Target) {
    && c.name == SIDECARCONTAINER_NAME && c.image == image && c.args == ["server"] && c.privileged && c.other == ""
    && |c.env| >= 2
    && c.env[0] == EnvVar(TARGET_NAME, target.targetName, "")
    && c.env[1] == EnvVar(POD_NAMESPACE, "", "metadata.namespace")
    && forall k :: 2 <= k < |c.env| ==> c.env[k].name == BACKUP_PATHS
  }

  lemma {:induction false} HitsExtend(d: Draft, i: nat, c: Container, tcs: seq<TargetContainer>,
                                      bt: BackupType, tagged: bool)
    requires i < |d.pod.containers| && Extended(c, d.pod.containers[i], tagged)
    ensures var r := HitsFrom(d, i, c, tcs, bt);
            && Extended(c, r.pod.containers[i], tagged || Names(tcs, c.name))
            && r.pod == d.pod.(containers := d.pod.containers[i := r.pod.containers[i]], volumes := r.pod.volumes)
            && OnlyFormolAdded(d.pod.volumes, r.pod.volumes)
            && SidecarGrows(d.sidecar, r.sidecar)
    decreases |tcs|
  {
    if tcs != [] {
      var d' := if tcs[0].name == c.name then Hit(d, i, c, tcs[0], bt) else d;
      HitsExtend(d', i, c, tcs[1..], bt, tagged || tcs[0].name == c.name);
      assert Names(tcs, c.name) <==> tcs[0].name == c.name || Names(tcs[1..], c.name) by {
        if Names(tcs[1..], c.name) {
          var k :| 0 <= k < |tcs[1..]| && tcs[1..][k].name == c.name;
          assert tcs[k + 1].name == c.name;
        }
      }
    }
  }

  lemma {:induction false} InjectExtends(d: Draft, i: nat, target: Target)
    requires i <= |d.pod.containers|
    ensures var r := InjectFrom(d, i, target);
            && |r.pod.containers| == |d.pod.containers|
            && (forall k :: 0 <= k < i ==> r.pod.containers[k] == d.pod.containers[k])
            && (forall k :: i <= k < |d.pod.containers| ==>
                  Extended(d.pod.containers[k], r.pod.containers[k],
                           Names(target.containers, d.pod.containers[k].name)))
            && r.pod == d.pod.(containers := r.pod.containers, volumes := r.pod.volumes)
            && OnlyFormolAdded(d.pod.volumes, r.pod.volumes)
            && SidecarGrows(d.sidecar, r.sidecar)
    decreases |d.pod.containers| - i
  {
    if i < |d.pod.containers| {
      var c := d.pod.containers[i];
      HitsExtend(d, i, c, target.containers, target.backupType, false);
      InjectExtends(HitsFrom(d, i, c, target.containers, target.backupType), i + 1, target);
    }
  }

  /** A pod without sidecar gets its containers extended and the sidecar as the last one. */
  lemma AddedExtends(pod: PodTemplate, image: string, target: Target, repo: Repo)
    requires NoSidecar(pod.containers)
    ensures var r := Added(pod, image, target, repo);
            && |r.containers| == |pod.containers| + 1
            && (forall k :: 0 <= k < |pod.containers| ==>
                  Extended(pod.containers[k], r.containers[k], Names(target.containers, pod.containers[k].name)))
            && IsSidecarOf(r.containers[|pod.containers|], image, target)
            && OnlyFormolAdded(pod.volumes, r.volumes)
            && r.shareProcessNamespace == Some(true) && r.other == pod.other
  {
    InjectExtends(Draft(pod, GetSidecar(image, target)), 0, target);
  }

  // ---------- What the removal takes away ----------

  lemma {:induction false} DropMounts(vms: seq<VolumeMount>, added: seq<VolumeMount>)
    requires AllShared(added)
    ensures DropSharedMounts(vms + added) == DropSharedMounts(vms)
    ensures |DropSharedMounts(vms)| <= |vms|
    ensures DropSharedMounts(vms) == vms <==> NoneShared(vms)
  {
    if vms != [] {
      DropMounts(vms[1..], added);
      assert (vms + added)[1..] == vms[1..] + added;
    } else if added != [] {
      DropMounts([], added[1..]);
      assert vms + added == added && [] + added[1..] == added[1..];
    }
  }

  lemma {:induction false} DropVolumes(vs: seq<Volume>, added: seq<Volume>)
    requires AllFormol(added)
    ensures DropFormolVolumes(vs + added) == DropFormolVolumes(vs)
    ensures |DropFormolVolumes(vs)| <= |vs| && NoneFormol(DropFormolVolumes(vs))
    ensures DropFormolVolumes(vs) == vs <==> NoneFormol(vs)
  {
    if vs != [] {
      DropVolumes(vs[1..], added);
      assert (vs + added)[1..] == vs[1..] + added;
    } else if added != [] {
      DropVolumes([], added[1..]);
      assert vs + added == added && [] + added[1..] == added[1..];
    }
  }

  function Unshared(c: Container): Container {
    c.(volumeMounts := DropSharedMounts(c.volumeMounts))
  }

  function UnsharedAll(cs: seq<Container>): seq<Container> {
    seq(|cs|, i requires 0 <= i < |cs| => Unshared(cs[i]))
  }

  lemma {:induction false} DropsSidecars(cs: seq<Container>)
    ensures |DropSidecars(cs)| <= |cs| && NoSidecar(DropSidecars(cs))
    ensures !NoSidecar(cs) ==> |DropSidecars(cs)| < |cs|
    ensures NoSidecar(cs) ==> DropSidecars(cs) == UnsharedAll(cs)
  {
    if cs != [] {
      DropsSidecars(cs[1..]);
    }
  }

  lemma {:induction false} DropsLastSidecar(cs: seq<Container>, sidecar: Container)
    requires NoSidecar(cs) && sidecar.name == SIDECARCONTAINER_NAME
    ensures DropSidecars(cs + [sidecar]) == UnsharedAll(cs)
  {
    if cs == [] {
      assert cs + [sidecar] == [sidecar];
    } else {
      DropsLastSidecar(cs[1..], sidecar);
      assert (cs + [sidecar])[1..] == cs[1..] + [sidecar];
    }
  }

  // ---------- Tags ----------

  ghost predicate HasTag(env: seq<EnvVar>) {
    exists k :: 0 <= k < |env| && env[k].name == TARGETCONTAINER_TAG
  }

  function StripEnv(env: seq<EnvVar>, name: string, tcs: seq<TargetContainer>): seq<EnvVar> {
    StripFor(EnvSlice(env, env), name, tcs).env
  }

  lemma NamesSplit(tcs: seq<TargetContainer>, name: string)
    requires tcs != []
    ensures Names(tcs, name) <==> tcs[0].name == name || Names(tcs[1..], name)
  {
  }

  /** However often a target names the container, one entry at most goes. */
  lemma {:induction false} StripsOne(e: EnvSlice, name: string, tcs: seq<TargetContainer>)
    requires e.backing != [] && |e.env| == |e.backing| - 1
    ensures |StripFor(e, name, tcs).env| == |e.env|
    decreases |tcs|
  {
    if tcs != [] {
      StripsOne(if tcs[0].name == name then Strip(e) else e, name, tcs[1..]);
    }
  }

  lemma {:induction false} StripLengths(env: seq<EnvVar>, name: string, tcs: seq<TargetContainer>)
    ensures |StripEnv(env, name, tcs)| <= |env|
    ensures !HasTag(env) || !Names(tcs, name) ==> StripEnv(env, name, tcs) == env
    ensures HasTag(env) && Names(tcs, name) ==> |StripEnv(env, name, tcs)| < |env|
    decreases |tcs|
  {
    if tcs != [] {
      NamesSplit(tcs, name);
      var e := EnvSlice(env, env);
      if tcs[0].name == name && HasTag(env) {
        StripsOne(Strip(e), name, tcs[1..]);
      } else {
        StripLengths(env, name, tcs[1..]);
      }
    }
  }

  /** A tag in last place is taken off again, however often the target names the container. */
  lemma {:induction false} StripsLast(env: seq<EnvVar>, tag: EnvVar, e: seq<EnvVar>, name: string,
                                      tcs: seq<TargetContainer>)
    requires tag.name == TARGETCONTAINER_TAG
    requires e == env || (e == env + [tag] && Names(tcs, name))
    ensures StripFor(EnvSlice(env + [tag], e), name, tcs).env == env
    decreases |tcs|
  {
    if tcs != [] {
      NamesSplit(tcs, name);
      if tcs[0].name == name {
        assert Strip(EnvSlice(env + [tag], e)) == EnvSlice(env + [tag], env);
        StripsLast(env, tag, env, name, tcs[1..]);
      } else {
        StripsLast(env, tag, e, name, tcs[1..]);
      }
    }
  }

  // ---------- One pod, all the targets on it ----------

  function RemovedBy(pod: PodTemplate, ts: seq<Target>): PodTemplate
    decreases |ts|
  {
    if ts == [] then pod else RemovedBy(Removed(pod, ts[0]), ts[1..])
  }

  function StrippedBy(env: seq<EnvVar>, name: string, ts: seq<Target>): seq<EnvVar>
    decreases |ts|
  {
    if ts == [] then env else StrippedBy(StripEnv(env, name, ts[0].containers), name, ts[1..])
  }

  ghost predicate NamedBy(ts: seq<Target>, name: string) {
    exists k :: 0 <= k < |ts| && Names(ts[k].containers, name)
  }

  lemma NamedBySplit(ts: seq<Target>, name: string)
    requires ts != []
    ensures NamedBy(ts, name) <==> Names(ts[0].containers, name) || NamedBy(ts[1..], name)
  {
  }

  /** Removals leave an env alone exactly when it has no tag or no target names the container. */
  lemma {:induction false} StrippedByIff(env: seq<EnvVar>, name: string, ts: seq<Target>)
    ensures |StrippedBy(env, name, ts)| <= |env|
    ensures StrippedBy(env, name, ts) == env <==> !(HasTag(env) && NamedBy(ts, name))
    decreases |ts|
  {
    if ts != [] {
      NamedBySplit(ts, name);
      StripLengths(env, name, ts[0].containers);
      StrippedByIff(StripEnv(env, name, ts[0].containers), name, ts[1..]);
    }
  }

  lemma {:induction false} RemovedByMeaning(pod: PodTemplate, ts: seq<Target>)
    requires NoSidecar(pod.containers) && NoneFormol(pod.volumes)
    requires forall k :: 0 <= k < |pod.containers| ==> NoneShared(pod.containers[k].volumeMounts)
    ensures var r := RemovedBy(pod, ts);
            && |r.containers| == |pod.containers|
            && r == pod.(containers := r.containers)
            && forall k :: 0 <= k < |pod.containers| ==>
                 r.containers[k] ==
                 pod.containers[k].(env := StrippedBy(pod.containers[k].env, pod.containers[k].name, ts))
    decreases |ts|
  {
    if ts != [] {
      var pod' := Removed(pod, ts[0]);
      DropsSidecars(pod.containers);
      DropVolumes(pod.volumes, []);
      assert pod.volumes + [] == pod.volumes;
      forall k | 0 <= k < |pod.containers| ensures Unshared(pod.containers[k]) == pod.containers[k] {
        DropMounts(pod.containers[k].volumeMounts, []);
      }
      assert UnsharedAll(pod.containers) == pod.containers;
      RemovedByMeaning(pod', ts[1..]);
    }
  }

  /** A container that was extended loses the shared mounts and the tag again. */
  lemma ExtendedIsRestored(c: Container, c': Container, target: Target)
    requires Extended(c, c', Names(target.containers, c.name))
    ensures Untagged(Unshared(c'), target) == Unshared(c)
  {
    assert c'.volumeMounts == c.volumeMounts + c'.volumeMounts[|c.volumeMounts|..];
    DropMounts(c.volumeMounts, c'.volumeMounts[|c.volumeMounts|..]);
    if Names(target.containers, c.name) {
      StripsLast(c.env, TagOf(c), c'.env, c.name, target.containers);
    } else {
      StripLengths(c'.env, c.name, target.containers);
    }
  }

  /** The pod after the first removal, if there was no sidecar before the injection. */
  lemma FirstRemoval(pod: PodTemplate, image: string, target: Target, repo: Repo)
    requires NoSidecar(pod.containers)
    ensures Removed(Added(pod, image, target, repo), target) ==
            pod.(containers := UnsharedAll(pod.containers), volumes := DropFormolVolumes(pod.volumes),
                 shareProcessNamespace := Some(true))
  {
    AddedExtends(pod, image, target, repo);
    var p := Added(pod, image, target, repo);
    var n := |pod.containers|;
    assert p.containers == p.containers[..n] + [p.containers[n]];
    DropsLastSidecar(p.containers[..n], p.containers[n]);
    assert p.volumes == pod.volumes + p.volumes[|pod.volumes|..];
    DropVolumes(pod.volumes, p.volumes[|pod.volumes|..]);
    var r := Removed(p, target);
    forall k | 0 <= k < n ensures r.containers[k] == UnsharedAll(pod.containers)[k] {
      assert Extended(pod.containers[k], p.containers[k], Names(target.containers, pod.containers[k].name));
      ExtendedIsRestored(pod.containers[k], p.containers[k], target);
    }
    assert r.containers == UnsharedAll(pod.containers);
  }

  /** What a pod must look like for the removal to restore it: nothing of formol's in it, and a
      FORMOL_TARGET variable only in containers that no later target of the same workload names. */
  ghost predicate Undoable(pod: PodTemplate, ts: seq<Target>)
    requires ts != []
  {
    && NoSidecar(pod.containers)
    && NoneFormol(pod.volumes)
    && forall k :: 0 <= k < |pod.containers| ==>
         NoneShared(pod.containers[k].volumeMounts) &&
         !(HasTag(pod.containers[k].env) && NamedBy(ts[1..], pod.containers[k].name))
  }

  lemma {:induction false} RemovedByShrinks(pod: PodTemplate, ts: seq<Target>)
    ensures |RemovedBy(pod, ts).containers| <= |pod.containers|
    ensures |RemovedBy(pod, ts).volumes| <= |pod.volumes|
    ensures ts != [] && !NoSidecar(pod.containers) ==> |RemovedBy(pod, ts).containers| < |pod.containers|
    ensures ts != [] && NoSidecar(pod.containers) ==> |RemovedBy(pod, ts).containers| == |pod.containers|
    decreases |ts|
  {
    if ts != [] {
      DropsSidecars(pod.containers);
      DropVolumes(pod.volumes, []);
      RemovedByShrinks(Removed(pod, ts[0]), ts[1..]);
    }
  }

  lemma {:induction false} MountsStayShort(pod: PodTemplate, ts: seq<Target>, k: nat)
    requires NoSidecar(pod.containers) && k < |pod.containers|
    ensures |RemovedBy(pod, ts).containers| == |pod.containers|
    ensures |RemovedBy(pod, ts).containers[k].volumeMounts| <= |pod.containers[k].volumeMounts|
    decreases |ts|
  {
    if ts != [] {
      DropsSidecars(pod.containers);
      DropMounts(pod.containers[k].volumeMounts, []);
      MountsStayShort(Removed(pod, ts[0]), ts[1..], k);
    }
  }

  lemma {:induction false} UnsharedIsShorter(c: Container)
    ensures !NoneShared(c.volumeMounts) ==> |Unshared(c).volumeMounts| < |c.volumeMounts|
    decreases |c.volumeMounts|
  {
    if c.volumeMounts != [] {
      DropMounts(c.volumeMounts[1..], []);
      UnsharedIsShorter(c.(volumeMounts := c.volumeMounts[1..]));
    }
  }

  lemma {:induction false} VolumesShrink(vs: seq<Volume>)
    ensures !NoneFormol(vs) ==> |DropFormolVolumes(vs)| < |vs|
  {
    if vs != [] {
      DropVolumes(vs[1..], []);
      VolumesShrink(vs[1..]);
    }
  }

  lemma SidecarIsLost(pod: PodTemplate, image: string, ts: seq<Target>, repo: Repo)
    requires ts != [] && !NoSidecar(pod.containers)
    ensures |RemovedBy(Added(pod, image, ts[0], repo), ts).containers| < |pod.containers|
  {
    var p := Added(pod, image, ts[0], repo);
    var r := SidecarIndex(pod.containers, 0);
    assert p.containers[r].name == SIDECARCONTAINER_NAME && |p.containers| == |pod.containers|;
    RemovedByShrinks(p, ts);
  }

  /** The pod is clean of formol's volumes and mounts, so the first removal restored all but the flag. */
  lemma UndoCleanIff(pod: PodTemplate, first: PodTemplate, ts: seq<Target>)
    requires ts != [] && NoSidecar(pod.containers) && NoneFormol(pod.volumes)
    requires forall k :: 0 <= k < |pod.containers| ==> NoneShared(pod.containers[k].volumeMounts)
    requires first == pod.(shareProcessNamespace := Some(true))
    ensures RemovedBy(first, ts[1..]) == first <==> Undoable(pod, ts)
  {
    var result := RemovedBy(first, ts[1..]);
    RemovedByMeaning(first, ts[1..]);
    forall k | 0 <= k < |pod.containers|
      ensures result.containers[k] == pod.containers[k] <==>
              !(HasTag(pod.containers[k].env) && NamedBy(ts[1..], pod.containers[k].name))
    {
      StrippedByIff(pod.containers[k].env, pod.containers[k].name, ts[1..]);
    }
    if Undoable(pod, ts) {
      assert result.containers == pod.containers;
    }
  }

  /** A volume or mount of formol's that was there before is gone for good. */
  lemma UnsharedIsLost(pod: PodTemplate, first: PodTemplate, ts: seq<Target>)
    requires NoSidecar(pod.containers)
    requires first.containers == UnsharedAll(pod.containers) && first.volumes == DropFormolVolumes(pod.volumes)
    ensures !NoneFormol(pod.volumes) ==> RemovedBy(first, ts).volumes != pod.volumes
    ensures forall k :: 0 <= k < |pod.containers| && !NoneShared(pod.containers[k].volumeMounts) ==>
              RemovedBy(first, ts).containers != pod.containers
  {
    VolumesShrink(pod.volumes);
    RemovedByShrinks(first, ts);
    forall k: nat | k < |pod.containers| && !NoneShared(pod.containers[k].volumeMounts)
      ensures RemovedBy(first, ts).containers != pod.containers
    {
      UnsharedIsShorter(pod.containers[k]);
      MountsStayShort(first, ts, k);
    }
  }

  lemma KeepsClean(pod: PodTemplate)
    requires NoneFormol(pod.volumes)
    requires forall k :: 0 <= k < |pod.containers| ==> NoneShared(pod.containers[k].volumeMounts)
    ensures DropFormolVolumes(pod.volumes) == pod.volumes && UnsharedAll(pod.containers) == pod.containers
  {
    DropVolumes(pod.volumes, []);
    forall k | 0 <= k < |pod.containers| ensures Unshared(pod.containers[k]) == pod.containers[k] {
      DropMounts(pod.containers[k].volumeMounts, []);
    }
  }

  /** Injecting for the first target and removing for all of them restores the pod, up to the shared
      process namespace, exactly when it is undoable. */
  lemma UndoPodIff(pod: PodTemplate, image: string, ts: seq<Target>, repo: Repo)
    requires ts != []
    ensures RemovedBy(Added(pod, image, ts[0], repo), ts) == pod.(shareProcessNamespace := Some(true)) <==>
            Undoable(pod, ts)
  {
    if !NoSidecar(pod.containers) {
      SidecarIsLost(pod, image, ts, repo);
    } else {
      FirstRemoval(pod, image, ts[0], repo);
      var first := Removed(Added(pod, image, ts[0], repo), ts[0]);
      UnsharedIsLost(pod, first, ts[1..]);
      if NoneFormol(pod.volumes) &&
         forall k :: 0 <= k < |pod.containers| ==> NoneShared(pod.containers[k].volumeMounts)
      {
        KeepsClean(pod);
        UndoCleanIff(pod, first, ts);
      }
    }
  }

  // ---------- All the workloads ----------

  /** The targets that live in one workload, in order. */
  function On(targets: seq<Target>, key: WorkloadKey): seq<Target> {
    if targets == [] then []
    else (if KeyOf(targets[0]) == key then [targets[0]] else []) + On(targets[1..], key)
  }

  ghost predicate AllPresent(pods: map<WorkloadKey, PodTemplate>, targets: seq<Target>) {
    forall k :: 0 <= k < |targets| ==> KeyOf(targets[k]) in pods
  }

  lemma SidecarAt(cs: seq<Container>, r: nat)
    requires r < |cs| && cs[r].name == SIDECARCONTAINER_NAME
    requires forall k :: 0 <= k < r ==> cs[k].name != SIDECARCONTAINER_NAME
    ensures SidecarIndex(cs, 0) == r
  {
  }

  /** If there is a sidecar already, nothing of the pod changes but the image of the first one. */
  lemma AddedRefreshes(pod: PodTemplate, image: string, target: Target, repo: Repo, r: nat)
    requires r < |pod.containers| && pod.containers[r].name == SIDECARCONTAINER_NAME
    requires forall k :: 0 <= k < r ==> pod.containers[k].name != SIDECARCONTAINER_NAME
    ensures var p := Added(pod, image, target, repo);
            && p == pod.(containers := p.containers) && |p.containers| == |pod.containers|
            && p.containers[r] == pod.containers[r].(image := image)
            && forall k :: 0 <= k < |p.containers| && k != r ==> p.containers[k] == pod.containers[k]
  {
    SidecarAt(pod.containers, r);
  }

  /** After addSidecar the first sidecar of the pod has the configured image. */
  lemma AddedHasImage(pod: PodTemplate, image: string, target: Target, repo: Repo)
    ensures var cs := Added(pod, image, target, repo).containers;
            var r := SidecarIndex(cs, 0);
            r >= 0 && cs[r].image == image
  {
    var p := Added(pod, image, target, repo);
    var r := SidecarIndex(pod.containers, 0);
    if r >= 0 {
      SidecarAt(p.containers, r);
    } else {
      AddedExtends(pod, image, target, repo);
      forall k | 0 <= k < |pod.containers| ensures p.containers[k].name != SIDECARCONTAINER_NAME {
        assert Extended(pod.containers[k], p.containers[k], Names(target.containers, pod.containers[k].name));
      }
      SidecarAt(p.containers, |pod.containers|);
    }
  }

  /** Once a pod has its sidecar, adding it again changes nothing, for whatever target. */
  lemma AddedOnce(pod: PodTemplate, image: string, target: Target, again: Target, repo: Repo)
    ensures var p := Added(pod, image, target, repo); Added(p, image, again, repo) == p
  {
    var p := Added(pod, image, target, repo);
    AddedHasImage(pod, image, target, repo);
    var r := SidecarIndex(p.containers, 0);
    assert p.containers[r := p.containers[r].(image := image)] == p.containers;
  }

  ghost predicate Injected(pods: map<WorkloadKey, PodTemplate>, pods': map<WorkloadKey, PodTemplate>,
                           image: string, targets: seq<Target>, repo: Repo) {
    && pods'.Keys == pods.Keys
    && forall key :: key in pods ==>
         pods'[key] == if On(targets, key) == [] then pods[key] else Added(pods[key], image, On(targets, key)[0], repo)
  }

  /** Of several targets in one workload the first one decides what is injected. */
  lemma {:induction false} AddedAllInjects(pods: map<WorkloadKey, PodTemplate>, image: string,
                                           targets: seq<Target>, repo: Repo)
    requires AllPresent(pods, targets)
    ensures Injected(pods, AddedAll(pods, image, targets, repo), image, targets, repo)
    decreases |targets|
  {
    if targets != [] {
      var key := KeyOf(targets[0]);
      var pods1 := pods[key := Added(pods[key], image, targets[0], repo)];
      AddedAllInjects(pods1, image, targets[1..], repo);
      if On(targets[1..], key) != [] {
        AddedOnce(pods[key], image, targets[0], On(targets[1..], key)[0], repo);
      }
    }
  }

  /** Running the loop `rounds` times. */
  function AddedRounds(pods: map<WorkloadKey, PodTemplate>, image: string, targets: seq<Target>,
                       repo: Repo, rounds: nat): map<WorkloadKey, PodTemplate>
  {
    if rounds == 0 then pods else AddedAll(AddedRounds(pods, image, targets, repo, rounds - 1), image, targets, repo)
  }

  lemma {:induction false} RoundsInject(pods: map<WorkloadKey, PodTemplate>, image: string,
                                        targets: seq<Target>, repo: Repo, rounds: nat)
    requires AllPresent(pods, targets) && rounds > 0
    ensures Injected(pods, AddedRounds(pods, image, targets, repo, rounds), image, targets, repo)
  {
    var before := AddedRounds(pods, image, targets, repo, rounds - 1);
    if rounds > 1 {
      RoundsInject(pods, image, targets, repo, rounds - 1);
      forall key | key in pods && On(targets, key) != []
        ensures Added(before[key], image, On(targets, key)[0], repo) == before[key]
      {
        AddedOnce(pods[key], image, On(targets, key)[0], On(targets, key)[0], repo);
      }
    }
    AddedAllInjects(before, image, targets, repo);
  }

  lemma {:induction false} RemovedAllMeaning(pods: map<WorkloadKey, PodTemplate>, targets: seq<Target>)
    requires AllPresent(pods, targets)
    ensures var r := RemovedAll(pods, targets);
            r.Keys == pods.Keys && forall key :: key in pods ==> r[key] == RemovedBy(pods[key], On(targets, key))
    decreases |targets|
  {
    if targets != [] {
      var first := KeyOf(targets[0]);
      var pods1 := pods[first := Removed(pods[first], targets[0])];
      RemovedAllMeaning(pods1, targets[1..]);
      forall key | key in pods
        ensures RemovedBy(pods[key], On(targets, key)) == RemovedBy(pods1[key], On(targets[1..], key))
      {
        if key == first {
          assert On(targets, key) == [targets[0]] + On(targets[1..], key);
          assert On(targets, key)[1..] == On(targets[1..], key);
        } else {
          assert On(targets, key) == [] + On(targets[1..], key);
          assert On(targets, key) == On(targets[1..], key);
        }
      }
    }
  }

  /** The targets in front of the first one whose workload is missing; both loops stop there. */
  function Reached(pods: map<WorkloadKey, PodTemplate>, targets: seq<Target>): seq<Target> {
    if targets == [] || KeyOf(targets[0]) !in pods then [] else [targets[0]] + Reached(pods, targets[1..])
  }

  lemma {:induction false} SameReach(pods: map<WorkloadKey, PodTemplate>,
                                     pods': map<WorkloadKey, PodTemplate>, targets: seq<Target>)
    requires pods.Keys == pods'.Keys
    ensures Reached(pods, targets) == Reached(pods', targets) && AllPresent(pods, Reached(pods, targets))
    decreases |targets|
  {
    if targets != [] && KeyOf(targets[0]) in pods {
      SameReach(pods, pods', targets[1..]);
    }
  }

  lemma {:induction false} AddingStops(pods: map<WorkloadKey, PodTemplate>, image: string,
                                       targets: seq<Target>, repo: Repo)
    ensures AddedAll(pods, image, targets, repo) == AddedAll(pods, image, Reached(pods, targets), repo)
    ensures AddedAll(pods, image, targets, repo).Keys == pods.Keys
    decreases |targets|
  {
    if targets != [] && KeyOf(targets[0]) in pods {
      var pods1 := pods[KeyOf(targets[0]) := Added(pods[KeyOf(targets[0])], image, targets[0], repo)];
      SameReach(pods, pods1, targets[1..]);
      AddingStops(pods1, image, targets[1..], repo);
      assert Reached(pods, targets)[1..] == Reached(pods1, targets[1..]);
    }
  }

  lemma {:induction false} RemovingStops(pods: map<WorkloadKey, PodTemplate>, targets: seq<Target>)
    ensures RemovedAll(pods, targets) == RemovedAll(pods, Reached(pods, targets))
    decreases |targets|
  {
    if targets != [] && KeyOf(targets[0]) in pods {
      var pods1 := pods[KeyOf(targets[0]) := Removed(pods[KeyOf(targets[0])], targets[0])];
      SameReach(pods, pods1, targets[1..]);
      RemovingStops(pods1, targets[1..]);
      assert Reached(pods, targets)[1..] == Reached(pods1, targets[1..]);
    }
  }

  lemma {:induction false} RoundsStop(pods: map<WorkloadKey, PodTemplate>, image: string,
                                      targets: seq<Target>, repo: Repo, rounds: nat)
    ensures AddedRounds(pods, image, targets, repo, rounds) ==
            AddedRounds(pods, image, Reached(pods, targets), repo, rounds)
    ensures AddedRounds(pods, image, targets, repo, rounds).Keys == pods.Keys
  {
    if rounds > 0 {
      var before := AddedRounds(pods, image, targets, repo, rounds - 1);
      RoundsStop(pods, image, targets, repo, rounds - 1);
      SameReach(pods, before, targets);
      AddingStops(before, image, targets, repo);
    }
  }

  /** Injecting one or more times and then removing leaves every workload that is not reached alone, and
      restores any other one, up to the shared process namespace, exactly when it is undoable. */
  lemma UndoIff(pods: map<WorkloadKey, PodTemplate>, image: string, targets: seq<Target>, repo: Repo,
                rounds: nat, key: WorkloadKey)
    requires rounds > 0 && key in pods
    ensures var r := RemovedAll(AddedRounds(pods, image, targets, repo, rounds), targets);
            var here := On(Reached(pods, targets), key);
            && r.Keys == pods.Keys
            && (here == [] ==> r[key] == pods[key])
            && (here != [] ==>
                  (r[key] == pods[key].(shareProcessNamespace := Some(true)) <==> Undoable(pods[key], here)))
  {
    var reached := Reached(pods, targets);
    var injected := AddedRounds(pods, image, targets, repo, rounds);
    RoundsStop(pods, image, targets, repo, rounds);
    SameReach(pods, injected, targets);
    RemovingStops(injected, targets);
    RoundsInject(pods, image, reached, repo, rounds);
    RemovedAllMeaning(injected, reached);
    if On(reached, key) != [] {
      UndoPodIff(pods[key], image, On(reached, key), repo);
    }
  }

  /** In particular every pod without anything of formol's is restored, for any target list. */
  lemma UndoClean(pods: map<WorkloadKey, PodTemplate>, image: string, targets: seq<Target>, repo: Repo,
                  rounds: nat, key: WorkloadKey)
    requires rounds > 0 && key in pods && On(Reached(pods, targets), key) != []
    requires NoSidecar(pods[key].containers) && NoneFormol(pods[key].volumes)
    requires forall k :: 0 <= k < |pods[key].containers| ==>
               NoneShared(pods[key].containers[k].volumeMounts) && !HasTag(pods[key].containers[k].env)
    ensures var r := RemovedAll(AddedRounds(pods, image, targets, repo, rounds), targets);
            key in r && r[key] == pods[key].(shareProcessNamespace := Some(true))
  {
    UndoIff(pods, image, targets, repo, rounds, key);
  }
}
