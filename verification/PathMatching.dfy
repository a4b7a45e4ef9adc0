/** `GetVolumeMounts` (api/v1alpha1/common.go): which mount a path to back up lies on, and where the
    sidecar finds that path. */
module PathMatching {
  import opened Api
  import opened Pod

  // ---------- Paths ----------

  function Components(p: Path): seq<string> {
    [""] + p
  }

  /** Walking `components` down from `stack`, as filepath.Clean does on an absolute path. */
  function Walk(stack: seq<string>, components: seq<string>): seq<string>
    decreases |components|
  {
    if components == [] then stack
    else
      var c := components[0];
      Walk(if c in {"", "."} then stack
           else if c != ".." then stack + [c]
           else if stack == [] then []
           else stack[..|stack| - 1],
           components[1..])
  }

  /** A path without empty, "." and ".." components; the root is []. */
  function Clean(p: Path): seq<string> {
    Walk([], p)
  }

  /** filepath.Clean of an absolute path. */
  function Cleaned(p: Path): Path {
    if Clean(p) == [] then [""] else Clean(p)
  }

  function Common(base: seq<string>, target: seq<string>): (k: nat)
    ensures k <= |base| && k <= |target| && base[..k] == target[..k]
    ensures k < |base| && k < |target| ==> base[k] != target[k]
  {
    if base == [] || target == [] || base[0] != target[0] then 0 else
      var k := Common(base[1..], target[1..]);
      assert base[..k + 1] == [base[0]] + base[1..][..k] && target[..k + 1] == [target[0]] + target[1..][..k];
      k + 1
  }

  function Ups(n: nat): seq<string> {
    seq(n, _ => "..")
  }

  /** filepath.Rel between cleaned absolute paths. */
  function Rel(base: seq<string>, target: seq<string>): seq<string> {
    var k := Common(base, target);
    Ups(|base| - k) + target[k..]
  }

  function Decimal(n: nat): string {
    if n < 10 then ["0123456789"[n]] else Decimal(n / 10) + ["0123456789"[n % 10]]
  }

  function BackupDir(i: nat): string {
    BACKUP_PREFIX_PATH + Decimal(i)
  }

  /** Where the sidecar finds `path` when the volume mounted at `mountPath` is mounted at /backup<i>. */
  function SidecarPath(i: nat, mountPath: Path, path: Path): seq<string> {
    Walk([BackupDir(i)], Rel(Clean(mountPath), Clean(path)))
  }

  // ---------- The choice of a mount ----------

  /** The last component below `j` at which the two agree, not counting the one in front of the root. */
  function ScoreBelow(mount: seq<string>, path: seq<string>, j: nat): (r: nat)
    requires j <= |mount|
    ensures r == 0 || (r < j && r < |path| && mount[r] == path[r])
    ensures forall k :: r < k < j && k < |path| ==> mount[k] != path[k]
  {
    if j == 0 then 0
    else if j - 1 < |path| && mount[j - 1] == path[j - 1] then j - 1
    else ScoreBelow(mount, path, j - 1)
  }

  function Score(mountPath: Path, path: Path): nat {
    ScoreBelow(Components(mountPath), Components(path), |mountPath| + 1)
  }

  function MountScore(mounts: seq<VolumeMount>, path: Path, j: nat): nat
    requires j < |mounts|
  {
    Score(mounts[j].mountPath, path)
  }

  /** The score of the mount settled on so far. */
  function Best(mounts: seq<VolumeMount>, path: Path, b: int): nat
    requires -1 <= b < |mounts|
  {
    if b < 0 then 0 else MountScore(mounts, path, b)
  }

  /** The mount the loops settle on among the first `m`, or -1. */
  function Chosen(mounts: seq<VolumeMount>, path: Path, m: nat): (b: int)
    requires m <= |mounts|
    ensures -1 <= b < m
    ensures b >= 0 ==> MountScore(mounts, path, b) > 0
  {
    if m == 0 then -1
    else
      var b := Chosen(mounts, path, m - 1);
      if MountScore(mounts, path, m - 1) > Best(mounts, path, b) then m - 1 else b
  }

  /** It is the first mount among those that agree with the path deepest. */
  lemma {:induction false} ChosenIsDeepest(mounts: seq<VolumeMount>, path: Path, m: nat, j: nat)
    requires j < m <= |mounts|
    ensures var b := Chosen(mounts, path, m);
            if b < 0 then MountScore(mounts, path, j) == 0
            else if j < b then MountScore(mounts, path, j) < MountScore(mounts, path, b)
            else MountScore(mounts, path, j) <= MountScore(mounts, path, b)
  {
    var b := Chosen(mounts, path, m - 1);
    if j < m - 1 {
      ChosenIsDeepest(mounts, path, m - 1, j);
      assert MountScore(mounts, path, j) <= Best(mounts, path, b);
    }
    if MountScore(mounts, path, m - 1) > Best(mounts, path, b) {
      assert Chosen(mounts, path, m) == m - 1;
    } else {
      assert Chosen(mounts, path, m) == b;
    }
  }

  const NO_MOUNT := VolumeMount("", [], "", true)

  /** The sidecar's mount and path for path number `i`, given the chosen mount. */
  function MountFor(mounts: seq<VolumeMount>, i: nat, b: int): VolumeMount
    requires -1 <= b < |mounts|
  {
    if b < 0 then NO_MOUNT else VolumeMount(mounts[b].name, [BackupDir(i)], mounts[b].subPath, true)
  }

  function PathFor(mounts: seq<VolumeMount>, path: Path, i: nat, b: int): Option<seq<string>>
    requires -1 <= b < |mounts|
  {
    if b < 0 then None else Some(SidecarPath(i, mounts[b].mountPath, path))
  }

  /** The innermost loop: compares one mount with the path, component by component. */
  method MatchMount(mounts: seq<VolumeMount>, path: Path, i: nat, m: nat,
                    longest: nat, sidecarPath: Option<seq<string>>, vm: VolumeMount)
    returns (longest': nat, sidecarPath': Option<seq<string>>, vm': VolumeMount)
    requires m < |mounts| && vm.readOnly
    ensures var s := MountScore(mounts, path, m);
            if s > longest
            then longest' == s && vm' == MountFor(mounts, i, m) && sidecarPath' == PathFor(mounts, path, i, m)
            else longest' == longest && vm' == vm && sidecarPath' == sidecarPath
  {
    longest', sidecarPath', vm' := longest, sidecarPath, vm;
    var splitPath, splitMountPath := Components(path), Components(mounts[m].mountPath);
    for j := 0 to |splitMountPath|
      invariant var s := ScoreBelow(splitMountPath, splitPath, j);
                if s > longest
                then longest' == s && vm' == MountFor(mounts, i, m) && sidecarPath' == PathFor(mounts, path, i, m)
                else longest' == longest && vm' == vm && sidecarPath' == sidecarPath
    {
      if j < |splitPath| && splitMountPath[j] == splitPath[j] && j > longest' {
        longest' := j;
        vm' := vm'.(name := mounts[m].name, mountPath := [BackupDir(i)], subPath := mounts[m].subPath);
        sidecarPath' := Some(SidecarPath(i, mounts[m].mountPath, path));
      }
    }
  }

  /** One path: the loop over the mounts, with the longest agreement so far. */
  method MatchPath(mounts: seq<VolumeMount>, path: Path, i: nat)
    returns (sidecarPath: Option<seq<string>>, vm: VolumeMount)
    ensures vm == MountFor(mounts, i, Chosen(mounts, path, |mounts|))
    ensures sidecarPath == PathFor(mounts, path, i, Chosen(mounts, path, |mounts|))
  {
    vm := VolumeMount("", [], "", true);
    sidecarPath := None;
    var longest := 0;
    for m := 0 to |mounts|
      invariant var b := Chosen(mounts, path, m);
                && longest == Best(mounts, path, b)
                && vm == MountFor(mounts, i, b) && sidecarPath == PathFor(mounts, path, i, b)
    {
      ghost var b, b' := Chosen(mounts, path, m), Chosen(mounts, path, m + 1);
      assert b' == if MountScore(mounts, path, m) > longest then m else b;
      longest, sidecarPath, vm := MatchMount(mounts, path, i, m, longest, sidecarPath, vm);
      assert longest == Best(mounts, path, b');
    }
  }

  /** The mount the loops settle on for path number `i`. */
  function ChosenFor(mounts: seq<VolumeMount>, paths: seq<Path>, i: nat): (b: int)
    requires i < |paths|
    ensures -1 <= b < |mounts|
  {
    Chosen(mounts, Cleaned(paths[i]), |mounts|)
  }

  function SidecarPaths(mounts: seq<VolumeMount>, paths: seq<Path>): seq<Option<seq<string>>> {
    seq(|paths|, i requires 0 <= i < |paths| =>
      PathFor(mounts, Cleaned(paths[i]), i, ChosenFor(mounts, paths, i)))
  }

  function SidecarMounts(mounts: seq<VolumeMount>, paths: seq<Path>): seq<VolumeMount> {
    seq(|paths|, i requires 0 <= i < |paths| => MountFor(mounts, i, ChosenFor(mounts, paths, i)))
  }

  // ---------- When the choice is the mount the path lies on ----------

  predicate Contains(mountPath: Path, path: Path) {
    Clean(mountPath) <= Clean(path)
  }

  /** The path lies on mount `j`. */
  predicate LiesOn(mounts: seq<VolumeMount>, path: Path, j: nat)
    requires j < |mounts|
  {
    Contains(mounts[j].mountPath, path)
  }

  function Depth(mounts: seq<VolumeMount>, j: nat): nat
    requires j < |mounts|
  {
    |Clean(mounts[j].mountPath)|
  }

  /** Of the first `m` mounts the one that contains the path most closely, the first one among equals; -1
      if none does. */
  ghost predicate ClosestOf(mounts: seq<VolumeMount>, path: Path, m: nat, k: int)
    requires m <= |mounts|
  {
    && -1 <= k < m
    && (k < 0 ==> forall j: nat :: j < m ==> !LiesOn(mounts, path, j))
    && (k >= 0 ==>
          && LiesOn(mounts, path, k)
          && forall j: nat :: j < m && LiesOn(mounts, path, j) ==>
               Depth(mounts, j) < Depth(mounts, k) || (Depth(mounts, j) == Depth(mounts, k) && k <= j))
  }

  ghost predicate Closest(mounts: seq<VolumeMount>, path: Path, k: int) {
    ClosestOf(mounts, path, |mounts|, k)
  }

  lemma {:induction false} SomeIsClosest(mounts: seq<VolumeMount>, path: Path, m: nat) returns (k: int)
    requires m <= |mounts|
    ensures ClosestOf(mounts, path, m, k)
  {
    k := -1;
    if m > 0 {
      k := SomeIsClosest(mounts, path, m - 1);
      if LiesOn(mounts, path, m - 1) && (k < 0 || Depth(mounts, m - 1) > Depth(mounts, k)) {
        k := m - 1;
      }
    }
  }

  predicate Beats(mounts: seq<VolumeMount>, path: Path, a: nat, b: nat)
    requires a < |mounts| && b < |mounts|
  {
    || MountScore(mounts, path, a) > MountScore(mounts, path, b)
    || (MountScore(mounts, path, a) == MountScore(mounts, path, b) && a < b)
  }

  /** A mount beside the path that nevertheless agrees with it in some component loses to one that
      contains the path. */
  ghost predicate StrayLoses(mounts: seq<VolumeMount>, path: Path, s: nat)
    requires s < |mounts|
  {
    !LiesOn(mounts, path, s) && MountScore(mounts, path, s) > 0 ==>
      exists c: nat :: c < |mounts| && LiesOn(mounts, path, c) && Beats(mounts, path, c, s)
  }

  /** Of the mounts that contain the path, the closest one also agrees with it deepest. */
  ghost predicate CloserScoresMore(mounts: seq<VolumeMount>, path: Path) {
    forall k: nat :: k < |mounts| && Closest(mounts, path, k) ==>
      && MountScore(mounts, path, k) > 0
      && forall c: nat :: c < |mounts| && c != k && LiesOn(mounts, path, c) ==> Beats(mounts, path, k, c)
  }

  lemma ChosenBeatsAll(mounts: seq<VolumeMount>, path: Path, s: nat)
    requires s < |mounts|
    ensures var b := Chosen(mounts, path, |mounts|);
            if b < 0 then MountScore(mounts, path, s) == 0 else b == s || Beats(mounts, path, b, s)
  {
    ChosenIsDeepest(mounts, path, |mounts|, s);
  }

  lemma ClosestWins(mounts: seq<VolumeMount>, path: Path)
    requires Closest(mounts, path, Chosen(mounts, path, |mounts|))
    ensures forall s: nat :: s < |mounts| ==> StrayLoses(mounts, path, s)
    ensures CloserScoresMore(mounts, path)
  {
    forall s: nat | s < |mounts| ensures StrayLoses(mounts, path, s) {
      ChosenBeatsAll(mounts, path, s);
    }
    forall k: nat, c: nat | k < |mounts| && Closest(mounts, path, k) && c < |mounts| && LiesOn(mounts, path, c)
      ensures MountScore(mounts, path, k) > 0 && (c != k ==> Beats(mounts, path, k, c))
    {
      assert k == Chosen(mounts, path, |mounts|);
      ChosenBeatsAll(mounts, path, c);
    }
  }

  lemma WinnerIsClosest(mounts: seq<VolumeMount>, path: Path)
    requires forall s: nat :: s < |mounts| ==> StrayLoses(mounts, path, s)
    requires CloserScoresMore(mounts, path)
    ensures Closest(mounts, path, Chosen(mounts, path, |mounts|))
  {
    var b := Chosen(mounts, path, |mounts|);
    var k := SomeIsClosest(mounts, path, |mounts|);
    forall s: nat | s < |mounts| ensures b >= 0 ==> !Beats(mounts, path, s, b) {
      ChosenBeatsAll(mounts, path, s);
    }
    if k >= 0 {
      var closest: nat := k;
      assert Closest(mounts, path, closest);
      ChosenBeatsAll(mounts, path, closest);
    }
    if b >= 0 {
      assert StrayLoses(mounts, path, b);
    }
  }

  /** The loops compare components position by position, not prefixes. They choose the closest containing
      mount exactly when every stray mount loses to a containing one and the closest containing one
      agrees with the path deeper than the other containing ones. */
  lemma ClosestIff(mounts: seq<VolumeMount>, path: Path)
    ensures Closest(mounts, path, Chosen(mounts, path, |mounts|)) <==>
            && (forall s: nat :: s < |mounts| ==> StrayLoses(mounts, path, s))
            && CloserScoresMore(mounts, path)
  {
    if Closest(mounts, path, Chosen(mounts, path, |mounts|)) {
      ClosestWins(mounts, path);
    } else if (forall s: nat :: s < |mounts| ==> StrayLoses(mounts, path, s)) && CloserScoresMore(mounts, path) {
      WinnerIsClosest(mounts, path);
    }
  }

  // ---------- Mount paths as they are usually written ----------

  predicate Plain(component: string) {
    component != "" && component != "." && component != ".."
  }

  predicate AllPlain(components: seq<string>) {
    forall k :: 0 <= k < |components| ==> Plain(components[k])
  }

  /** A cleaned absolute path other than the root. */
  predicate CleanBelowRoot(p: Path) {
    p != [] && AllPlain(p)
  }

  /** Cleaned up to empty and "." components at the end, as in "/data/"; the root is one. */
  predicate Tidy(p: Path) {
    Clean(p) <= p && forall k :: |Clean(p)| <= k < |p| ==> p[k] in {"", "."}
  }

  lemma {:induction false} WalkClean(stack: seq<string>, components: seq<string>)
    requires AllPlain(components)
    ensures Walk(stack, components) == stack + components
    decreases |components|
  {
    if components != [] {
      assert Plain(components[0]);
      WalkClean(stack + [components[0]], components[1..]);
    }
  }

  /** A tidy mount that contains the path scores its depth. */
  lemma ContainerScore(mountPath: Path, path: Path)
    requires Tidy(mountPath) && CleanBelowRoot(path) && Contains(mountPath, path)
    ensures Score(mountPath, path) == |Clean(mountPath)|
  {
    var n := |Clean(mountPath)|;
    WalkClean([], path);
    assert Clean(path) == path;
    assert Components(mountPath)[n] == Components(path)[n];
    forall j | n < j < |Components(mountPath)| && j < |Components(path)|
      ensures Components(mountPath)[j] != Components(path)[j]
    {
      assert Plain(path[j - 1]);
    }
  }

  /** Mounts contain the path, but all of them are mounted at the root. */
  ghost predicate OnlyRootContains(mounts: seq<VolumeMount>, path: Path) {
    && (exists j: nat :: j < |mounts| && LiesOn(mounts, path, j))
    && forall j: nat :: j < |mounts| && LiesOn(mounts, path, j) ==> Depth(mounts, j) == 0
  }

  /** Depth decides among the mounts that contain the path, except for the root, which scores nothing. */
  lemma OnlyRootScoresNothing(mounts: seq<VolumeMount>, path: Path)
    requires forall j: nat :: j < |mounts| && LiesOn(mounts, path, j) ==>
               MountScore(mounts, path, j) == Depth(mounts, j)
    ensures CloserScoresMore(mounts, path) <==> !OnlyRootContains(mounts, path)
  {
    var k := SomeIsClosest(mounts, path, |mounts|);
    if k >= 0 {
      var closest: nat := k;
      assert Closest(mounts, path, closest);
      assert OnlyRootContains(mounts, path) <==> Depth(mounts, closest) == 0;
    }
  }

  /** With tidy mount paths only strays and the root can go wrong. */
  lemma TidyClosestIff(mounts: seq<VolumeMount>, path: Path)
    requires CleanBelowRoot(path) && forall m :: m in mounts ==> Tidy(m.mountPath)
    ensures Closest(mounts, path, Chosen(mounts, path, |mounts|)) <==>
            && (forall s: nat :: s < |mounts| ==> StrayLoses(mounts, path, s))
            && !OnlyRootContains(mounts, path)
  {
    forall j: nat | j < |mounts| && LiesOn(mounts, path, j)
      ensures MountScore(mounts, path, j) == Depth(mounts, j)
    {
      assert mounts[j] in mounts;
      ContainerScore(mounts[j].mountPath, path);
    }
    OnlyRootScoresNothing(mounts, path);
    ClosestIff(mounts, path);
  }

  /** In particular when every mount contains the path or agrees with it nowhere, and none is the root. */
  lemma ClosestIfNoStray(mounts: seq<VolumeMount>, path: Path)
    requires CleanBelowRoot(path)
    requires forall m :: m in mounts ==>
               Tidy(m.mountPath) && Clean(m.mountPath) != [] &&
               (Contains(m.mountPath, path) || Score(m.mountPath, path) == 0)
    ensures Closest(mounts, path, Chosen(mounts, path, |mounts|))
  {
    forall s: nat | s < |mounts| ensures StrayLoses(mounts, path, s) && Depth(mounts, s) > 0 {
      assert mounts[s] in mounts;
    }
    TidyClosestIff(mounts, path);
  }

  /** A mount at the root contains every path but is never chosen for one below it. */
  lemma RootMountIsIgnored(path: Path)
    requires CleanBelowRoot(path)
    ensures Contains([""], path) && Score([""], path) == 0
  {
  }

  /** A path on no mount at all is still matched with a mount that has one component in common. */
  lemma StrayMountIsChosen()
    ensures var mounts := [VolumeMount("v", ["x", "data"], "", false)];
            Chosen(mounts, ["y", "data", "f"], 1) == 0 && Closest(mounts, ["y", "data", "f"], -1)
  {
    var path, mountPath: Path := ["y", "data", "f"], ["x", "data"];
    var mounts := [VolumeMount("v", mountPath, "", false)];
    assert Components(mountPath)[2] == Components(path)[2] == "data";
    assert Score(mountPath, path) == 2;
    WalkClean([], path);
    WalkClean([], mountPath);
    assert Clean(path) == path && Clean(mountPath) == mountPath && mountPath[0] != path[0];
    assert !LiesOn(mounts, path, 0);
  }

  // ---------- Where the sidecar finds the path ----------

  lemma {:induction false} WalkIsPlain(stack: seq<string>, components: seq<string>)
    requires AllPlain(stack)
    ensures AllPlain(Walk(stack, components))
    decreases |components|
  {
    if components != [] {
      var c := components[0];
      WalkIsPlain(if c in {"", "."} then stack
                  else if c != ".." then stack + [c]
                  else if stack == [] then []
                  else stack[..|stack| - 1],
                  components[1..]);
    }
  }

  /** As many ".." components as the stack is deep lead to the root, and no further. */
  lemma {:induction false} WalkUp(stack: seq<string>, n: nat, rest: seq<string>)
    requires n >= |stack|
    ensures Walk(stack, Ups(n) + rest) == Walk([], rest)
    decreases n
  {
    var up := Ups(n);
    if n == 0 {
      assert up + rest == rest && stack == [];
    } else {
      assert up[0] == "..";
      assert (up + rest)[1..] == Ups(n - 1) + rest;
      WalkUp(if stack == [] then [] else stack[..|stack| - 1], n - 1, rest);
    }
  }

  lemma {:induction false} CommonWithPrefix(base: seq<string>, target: seq<string>)
    ensures Common(base, target) == |base| <==> base <= target
  {
    if base <= target && base != [] {
      CommonWithPrefix(base[1..], target[1..]);
    }
  }

  lemma WalkDown(dir: string, base: seq<string>, target: seq<string>)
    requires AllPlain(target) && base <= target
    ensures Walk([dir], Rel(base, target)) == [dir] + target[|base|..]
  {
    CommonWithPrefix(base, target);
    assert Rel(base, target) == target[|base|..];
    WalkClean([dir], target[|base|..]);
  }

  lemma WalkUpAndDown(dir: string, n: nat, rest: seq<string>)
    requires n > 0 && AllPlain(rest)
    ensures Walk([dir], Ups(n) + rest) == rest
  {
    WalkUp([dir], n, rest);
    WalkClean([], rest);
    assert [] + rest == rest;
  }

  lemma WalkBeside(dir: string, base: seq<string>, target: seq<string>)
    requires AllPlain(target) && !(base <= target)
    ensures Walk([dir], Rel(base, target)) == target[Common(base, target)..]
  {
    var k := Common(base, target);
    CommonWithPrefix(base, target);
    WalkUpAndDown(dir, |base| - k, target[k..]);
  }

  /** For a path on the mount the sidecar path is /backup<i> followed by exactly the components below the
      mount. For any other path it is the rest of the path after what the two have in common, taken from
      the root of the sidecar's own file system. */
  lemma SidecarPathIsRest(i: nat, mountPath: Path, path: Path)
    ensures SidecarPath(i, mountPath, path) ==
            var rest := Clean(path)[Common(Clean(mountPath), Clean(path))..];
            if Contains(mountPath, path) then [BackupDir(i)] + rest else rest
    ensures Contains(mountPath, path) ==>
              Clean(mountPath) + SidecarPath(i, mountPath, path)[1..] == Clean(path)
  {
    WalkIsPlain([], path);
    CommonWithPrefix(Clean(mountPath), Clean(path));
    if Contains(mountPath, path) {
      WalkDown(BackupDir(i), Clean(mountPath), Clean(path));
    } else {
      WalkBeside(BackupDir(i), Clean(mountPath), Clean(path));
    }
  }

  /** So the sidecar path stays below /backup<i> only for a path on the mount, unless the rest of the path
      happens to begin with that name. */
  lemma StaysInBackupDirIff(i: nat, mountPath: Path, path: Path)
    ensures [BackupDir(i)] <= SidecarPath(i, mountPath, path) <==>
            || Contains(mountPath, path)
            || [BackupDir(i)] <= Clean(path)[Common(Clean(mountPath), Clean(path))..]
  {
    SidecarPathIsRest(i, mountPath, path);
  }

  /** The stray mount above makes the sidecar back up a path of its own file system. */
  lemma StrayPathLeavesBackupDir()
    ensures SidecarPath(0, ["x", "data"], ["y", "data", "f"]) == ["y", "data", "f"]
  {
  }

  // ---------- What cleaning a path means ----------

  lemma {:induction false} WalkThrough(stack: seq<string>, p: seq<string>, q: seq<string>)
    ensures Walk(stack, p + q) == Walk(Walk(stack, p), q)
    decreases |p|
  {
    if p == [] {
      assert p + q == q;
    } else {
      var c := p[0];
      assert (p + q)[1..] == p[1..] + q;
      WalkThrough(if c in {"", "."} then stack
                  else if c != ".." then stack + [c]
                  else if stack == [] then []
                  else stack[..|stack| - 1],
                  p[1..], q);
    }
  }

  lemma CleanSkips(p: Path, c: string, q: Path)
    requires c in {"", "."}
    ensures Clean(p + [c] + q) == Clean(p + q)
  {
    WalkThrough([], p, [c] + q);
    WalkThrough([], p, q);
    assert p + [c] + q == p + ([c] + q) && ([c] + q)[1..] == q;
  }

  lemma WalkReturns(stack: seq<string>, c: string, q: seq<string>)
    requires Plain(c)
    ensures Walk(stack, [c, ".."] + q) == Walk(stack, q)
  {
    assert ([c, ".."] + q)[1..] == [".."] + q && ([".."] + q)[1..] == q;
    assert (stack + [c])[..|stack + [c]| - 1] == stack;
  }

  lemma CleanReturns(p: Path, c: string, q: Path)
    requires Plain(c)
    ensures Clean(p + [c, ".."] + q) == Clean(p + q)
  {
    WalkThrough([], p, [c, ".."] + q);
    WalkThrough([], p, q);
    WalkReturns(Clean(p), c, q);
    assert p + [c, ".."] + q == p + ([c, ".."] + q);
  }

  lemma CleanStays(q: Path)
    ensures Clean([".."] + q) == Clean(q)
  {
    assert ([".."] + q)[1..] == q;
  }

  /** Empty and "." components do not count, a ".." takes back the plain component before it, at the root it
      stays there, and a path of plain components is clean. */
  lemma CleanLaws(p: Path, c: string, q: Path)
    ensures c in {"", "."} ==> Clean(p + [c] + q) == Clean(p + q)
    ensures Plain(c) ==> Clean(p + [c, ".."] + q) == Clean(p + q)
    ensures Clean([".."] + q) == Clean(q)
    ensures AllPlain(Clean(p)) && (AllPlain(p) ==> Clean(p) == p)
  {
    if c in {"", "."} {
      CleanSkips(p, c, q);
    } else if Plain(c) {
      CleanReturns(p, c, q);
    }
    CleanStays(q);
    WalkIsPlain([], p);
    if AllPlain(p) {
      WalkClean([], p);
      assert [] + p == p;
    }
  }

  // ---------- What the result lists hold ----------

  function Digit(c: char): nat {
    if '0' <= c <= '9' then c as int - '0' as int else 0
  }

  /** The number a string of digits stands for. */
  function Number(digits: string): nat {
    if digits == "" then 0 else 10 * Number(digits[..|digits| - 1]) + Digit(digits[|digits| - 1])
  }

  lemma {:induction false} DecimalIsNumber(n: nat)
    ensures Decimal(n) != "" && (forall c :: c in Decimal(n) ==> '0' <= c <= '9') && Number(Decimal(n)) == n
  {
    if n >= 10 {
      DecimalIsNumber(n / 10);
      assert Decimal(n)[..|Decimal(n)| - 1] == Decimal(n / 10);
    } else {
      assert Decimal(n)[..0] == "";
    }
  }

  /** A directory "backup" with the number of the path, so no two paths share one. */
  ghost predicate DirectoryOf(i: nat, dir: Path) {
    && |dir| == 1 && "backup" <= dir[0]
    && (forall c :: c in dir[0][6..] ==> '0' <= c <= '9') && Number(dir[0][6..]) == i
  }

  lemma BackupDirNumber(i: nat)
    ensures DirectoryOf(i, [BackupDir(i)])
  {
    DecimalIsNumber(i);
    assert BackupDir(i)[6..] == Decimal(i);
  }

  /** The cleaned path as the source compares it: the root keeps one empty component. */
  predicate ComparedAs(path: Path, p: Path) {
    if Clean(path) == [] then p == [""] else p == Clean(path)
  }

  /** Component `d`, counted from 1 below the root, is the same in both. */
  predicate Agree(mountPath: Path, p: Path, d: int) {
    1 <= d <= |mountPath| && d <= |p| && mountPath[d - 1] == p[d - 1]
  }

  /** Mount `j` agrees with the path in component `d`; no mount agrees in a deeper one, and no earlier mount
      in that one. */
  ghost predicate FirstDeepest(mounts: seq<VolumeMount>, p: Path, j: int, d: int) {
    && 0 <= j < |mounts| && Agree(mounts[j].mountPath, p, d)
    && forall k, l :: 0 <= k < |mounts| && Agree(mounts[k].mountPath, p, l) ==> l < d || (l == d && j <= k)
  }

  ghost predicate NoneAgrees(mounts: seq<VolumeMount>, p: Path) {
    forall k, l :: 0 <= k < |mounts| ==> !Agree(mounts[k].mountPath, p, l)
  }

  /** The volume of mount `j` is mounted read-only in a directory of its own, and there the path is what lies
      below the mount; a path beside the mount is looked for from the root. */
  ghost predicate ServedFrom(mount: VolumeMount, path: Path, i: nat, vm: VolumeMount, found: Option<seq<string>>) {
    && vm.name == mount.name && vm.subPath == mount.subPath && vm.readOnly && DirectoryOf(i, vm.mountPath)
    && found.Some?
    && (Clean(mount.mountPath) <= Clean(path) ==> found.value == vm.mountPath + Clean(path)[|Clean(mount.mountPath)|..])
    && (!(Clean(mount.mountPath) <= Clean(path)) ==>
          exists k :: 0 <= k < |Clean(mount.mountPath)| && k <= |Clean(path)| && found.value == Clean(path)[k..] &&
            Clean(mount.mountPath)[..k] == Clean(path)[..k] &&
            (k < |Clean(path)| ==> Clean(mount.mountPath)[k] != Clean(path)[k]))
  }

  /** What the code promises of path number `i`. */
  ghost predicate ServedRight(mounts: seq<VolumeMount>, path: Path, i: nat, vm: VolumeMount,
                              found: Option<seq<string>>)
  {
    forall p :: ComparedAs(path, p) ==>
      && ((exists k, l :: 0 <= k < |mounts| && Agree(mounts[k].mountPath, p, l)) ==>
            exists j, d :: FirstDeepest(mounts, p, j, d) && ServedFrom(mounts[j], path, i, vm, found))
      && (NoneAgrees(mounts, p) ==> vm == VolumeMount("", [], "", true) && found == None)
  }

  lemma ScoreIsDeepest(mountPath: Path, p: Path)
    ensures Score(mountPath, p) > 0 ==> Agree(mountPath, p, Score(mountPath, p))
    ensures forall l :: Agree(mountPath, p, l) ==> l <= Score(mountPath, p)
  {
    forall l | Agree(mountPath, p, l) ensures l <= Score(mountPath, p) {
      assert Components(mountPath)[l] == Components(p)[l];
    }
  }

  lemma ChosenIsFirstDeepest(mounts: seq<VolumeMount>, p: Path)
    ensures var b := Chosen(mounts, p, |mounts|);
            if b < 0 then NoneAgrees(mounts, p) else FirstDeepest(mounts, p, b, MountScore(mounts, p, b))
  {
    var b := Chosen(mounts, p, |mounts|);
    forall k, l | 0 <= k < |mounts| && Agree(mounts[k].mountPath, p, l)
      ensures b >= 0 && (l < MountScore(mounts, p, b) || (l == MountScore(mounts, p, b) && b <= k))
    {
      ScoreIsDeepest(mounts[k].mountPath, p);
      ChosenIsDeepest(mounts, p, |mounts|, k);
    }
    if b >= 0 {
      ScoreIsDeepest(mounts[b].mountPath, p);
    }
  }

  lemma CleanTwice(path: Path)
    ensures ComparedAs(path, Cleaned(path)) && Clean(Cleaned(path)) == Clean(path)
  {
    WalkIsPlain([], path);
    if Clean(path) != [] {
      WalkClean([], Clean(path));
      assert [] + Clean(path) == Clean(path);
    } else {
      assert [""][1..] == [];
    }
  }

  lemma MountIsServed(mounts: seq<VolumeMount>, path: Path, i: nat, b: int)
    requires 0 <= b < |mounts|
    ensures ServedFrom(mounts[b], path, i, MountFor(mounts, i, b), PathFor(mounts, Cleaned(path), i, b))
  {
    var base, target := Clean(mounts[b].mountPath), Clean(path);
    BackupDirNumber(i);
    CleanTwice(path);
    SidecarPathIsRest(i, mounts[b].mountPath, Cleaned(path));
    CommonWithPrefix(base, target);
    if !(base <= target) {
      var k := Common(base, target);
      assert base[..k] == target[..k];
    }
  }

  /** For every path the entry serves the first of the mounts that agree with the path deepest, with the name
      and subpath of that mount; a path no mount agrees with gets an empty mount. */
  lemma EntriesServeRight(mounts: seq<VolumeMount>, paths: seq<Path>, i: nat)
    requires i < |paths|
    ensures ServedRight(mounts, paths[i], i, SidecarMounts(mounts, paths)[i], SidecarPaths(mounts, paths)[i])
  {
    var path := Cleaned(paths[i]);
    var b := ChosenFor(mounts, paths, i);
    CleanTwice(paths[i]);
    ChosenIsFirstDeepest(mounts, path);
    if b >= 0 {
      MountIsServed(mounts, paths[i], i, b);
    }
  }

  lemma AllServeRight(mounts: seq<VolumeMount>, paths: seq<Path>)
    ensures forall i :: 0 <= i < |paths| ==>
              ServedRight(mounts, paths[i], i, SidecarMounts(mounts, paths)[i], SidecarPaths(mounts, paths)[i])
  {
    forall i | 0 <= i < |paths|
      ensures ServedRight(mounts, paths[i], i, SidecarMounts(mounts, paths)[i], SidecarPaths(mounts, paths)[i])
    {
      EntriesServeRight(mounts, paths, i);
    }
  }

  /** How a path is written does not matter. */
  lemma SpellingDoesNotMatter(mounts: seq<VolumeMount>, paths: seq<Path>, paths': seq<Path>)
    requires |paths| == |paths'| && forall i :: 0 <= i < |paths| ==> Clean(paths[i]) == Clean(paths'[i])
    ensures SidecarMounts(mounts, paths) == SidecarMounts(mounts, paths')
    ensures SidecarPaths(mounts, paths) == SidecarPaths(mounts, paths')
  {
    assert forall i :: 0 <= i < |paths| ==> Cleaned(paths[i]) == Cleaned(paths'[i]);
  }

  /** Both result lists align with the paths. */
  method GetVolumeMounts(mounts: seq<VolumeMount>, paths: seq<Path>)
    returns (sidecarPaths: seq<Option<seq<string>>>, vms: seq<VolumeMount>)
    ensures sidecarPaths == SidecarPaths(mounts, paths) && vms == SidecarMounts(mounts, paths)
    ensures |sidecarPaths| == |vms| == |paths|
    ensures forall i :: 0 <= i < |paths| ==> ServedRight(mounts, paths[i], i, vms[i], sidecarPaths[i])
  {
    sidecarPaths, vms := [], [];
    ghost var goals, goalMounts := SidecarPaths(mounts, paths), SidecarMounts(mounts, paths);
    for i := 0 to |paths|
      invariant sidecarPaths == goals[..i] && vms == goalMounts[..i]
    {
      var path := Cleaned(paths[i]);
      var sidecarPath, vm := MatchPath(mounts, path, i);
      assert sidecarPath == goals[i] && vm == goalMounts[i];
      vms := vms + [vm];
      sidecarPaths := sidecarPaths + [sidecarPath];
    }
    assert sidecarPaths == goals && vms == goalMounts;
    AllServeRight(mounts, paths);
  }
}
