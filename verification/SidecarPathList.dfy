/** What the sidecar can read from BACKUP_PATHS: one string that lists all its paths. */
module SidecarPathList {
  import opened Api
  import opened Pod
  import opened PathMatching
  import opened Sidecar
  import opened Strings

  /** No component has a colon in it. */
  ghost predicate NoColon(path: Option<seq<string>>) {
    path.Some? ==> forall c :: c in path.value ==> ':' !in c
  }

  lemma {:induction false} SlashedColon(components: seq<string>)
    ensures ':' in Slashed(components) <==> exists c :: c in components && ':' in c
  {
    if components != [] {
      SlashedColon(components[1..]);
      assert components == [components[0]] + components[1..];
    }
  }

  lemma RenderedColon(path: Option<seq<string>>)
    ensures ':' in Render(path) <==> !NoColon(path)
  {
    if path.Some? {
      SlashedColon(path.value);
    }
  }

  lemma {:induction false} SlashedIsJoin(components: seq<string>)
    requires components != []
    ensures Slashed(components) == ['/'] + Join(components, '/')
  {
    if |components| == 1 {
      assert Slashed(components[1..]) == "";
      assert Slashed(components) == ['/'] + components[0];
    } else {
      SlashedIsJoin(components[1..]);
    }
  }

  /** A listed path is absolute and reads at its slashes as its components; the root is a single slash, and a
      path without a mount is the empty string. */
  lemma RenderReads(components: seq<string>)
    requires forall c :: c in components ==> '/' !in c
    ensures components != [] ==> Split(Render(Some(components)), '/') == [""] + components
    ensures Render(Some([])) == "/" && Render(None) == ""
  {
    if components != [] {
      SlashedIsJoin(components);
      SplitsBack(components, '/');
      assert Slashed(components) == "" + ['/'] + Join(components, '/');
      FirstPiece("", Join(components, '/'), '/');
    }
  }

  /** Splitting BACKUP_PATHS gives the paths back if and only if there is one and no component of any has a
      colon in it. */
  lemma PathListSurvivesIff(paths: seq<Option<seq<string>>>)
    ensures Split(JoinPaths(paths), ':') == RenderAll(paths) <==>
            paths != [] && forall p :: p in paths ==> NoColon(p)
  {
    SplitJoinIff(RenderAll(paths), ':');
    forall i | 0 <= i < |paths| ensures ':' !in RenderAll(paths)[i] <==> NoColon(paths[i]) {
      RenderedColon(paths[i]);
    }
    if forall x :: x in RenderAll(paths) ==> ':' !in x {
      forall p | p in paths ensures NoColon(p) {
        var i :| 0 <= i < |paths| && paths[i] == p;
        assert RenderAll(paths)[i] in RenderAll(paths);
      }
    }
  }

  /** A path with a colon reads as two paths. */
  lemma ColonCutsPath()
    ensures Split(JoinPaths([Some(["backup0", "a:b"])]), ':') == ["/backup0/a", "b"]
  {
    var components := ["backup0", "a:b"];
    assert components[1..] == ["a:b"] && components[1..][1..] == [];
    assert Slashed(components) == "/" + "backup0" + ("/" + "a:b" + "");
    assert Slashed(components) == "/backup0/a" + [':'] + "b";
    FirstPiece("/backup0/a", "b", ':');
    OnePiece("b", ':');
  }

  // ---------- The paths the code puts there ----------

  lemma {:induction false} WalkInvents(stack: seq<string>, components: seq<string>)
    ensures forall c :: c in Walk(stack, components) ==> c in stack || c in components
    decreases |components|
  {
    if components != [] {
      var c := components[0];
      var next := if c in {"", "."} then stack
                  else if c != ".." then stack + [c]
                  else if stack == [] then []
                  else stack[..|stack| - 1];
      WalkInvents(next, components[1..]);
    }
  }

  lemma {:induction false} DecimalHasNoColon(n: nat)
    ensures ':' !in Decimal(n)
  {
    if n >= 10 {
      DecimalHasNoColon(n / 10);
    }
  }

  lemma SidecarPathHasNoColon(i: nat, mountPath: Path, path: Path)
    requires forall c :: c in path ==> ':' !in c
    ensures NoColon(Some(SidecarPath(i, mountPath, Cleaned(path))))
  {
    var base, target := Clean(mountPath), Clean(Cleaned(path));
    DecimalHasNoColon(i);
    WalkInvents([], path);
    WalkInvents([], Cleaned(path));
    WalkInvents([BackupDir(i)], Rel(base, target));
    forall c | c in Rel(base, target) ensures ':' !in c {
      assert c == ".." || c in target;
    }
  }

  /** If no component of the configured paths has a colon in it, BACKUP_PATHS splits into what the sidecar is
      to back up, path by path, whatever the mounts. */
  lemma BackupPathsSurvive(mounts: seq<VolumeMount>, paths: seq<Path>)
    requires paths != [] && forall p, c :: p in paths && c in p ==> ':' !in c
    ensures Split(JoinPaths(SidecarPaths(mounts, paths)), ':') == RenderAll(SidecarPaths(mounts, paths))
  {
    var listed := SidecarPaths(mounts, paths);
    forall p | p in listed ensures NoColon(p) {
      var i :| 0 <= i < |paths| && listed[i] == p;
      var b := ChosenFor(mounts, paths, i);
      assert paths[i] in paths;
      if b >= 0 {
        SidecarPathHasNoColon(i, mounts[b].mountPath, paths[i]);
      }
    }
    PathListSurvivesIff(listed);
  }
}
