/** What the removal of tags does to an env: which entries go, which stay, and where they then stand. */
module SidecarTags {
  import opened Api
  import opened Pod
  import opened Sidecar
  import opened SidecarUndo

  predicate IsTag(v: EnvVar) {
    v.name == TARGETCONTAINER_TAG
  }

  /** How many of the first `i` entries are tags. */
  function TagsBefore(env: seq<EnvVar>, i: nat): nat
    requires i <= |env|
  {
    if i == 0 then 0 else TagsBefore(env, i - 1) + if IsTag(env[i - 1]) then 1 else 0
  }

  function TagsIn(env: seq<EnvVar>): nat {
    TagsBefore(env, |env|)
  }

  /** How often the target names the container. */
  function Namings(tcs: seq<TargetContainer>, name: string): nat {
    if tcs == [] then 0 else (if tcs[0].name == name then 1 else 0) + Namings(tcs[1..], name)
  }

  function Least(a: nat, b: nat): nat {
    if a < b then a else b
  }

  /** The env with its first `t` tags overwritten by its last entry. */
  function Overwritten(env: seq<EnvVar>, t: nat): seq<EnvVar> {
    seq(|env|, i requires 0 <= i < |env| =>
      if IsTag(env[i]) && TagsBefore(env, i) < t then env[|env| - 1] else env[i])
  }

  // ---------- Counting tags ----------

  lemma {:induction false} TagsGrow(env: seq<EnvVar>, i: nat, j: nat)
    requires i < j <= |env|
    ensures TagsBefore(env, i) + (if IsTag(env[i]) then 1 else 0) <= TagsBefore(env, j)
  {
    if i < j - 1 {
      TagsGrow(env, i, j - 1);
    }
  }

  /** The tag that has `t` tags before it. */
  lemma {:induction false} TagAt(env: seq<EnvVar>, n: nat, t: nat) returns (j: nat)
    requires n <= |env| && t < TagsBefore(env, n)
    ensures j < n && IsTag(env[j]) && TagsBefore(env, j) == t
  {
    if TagsBefore(env, n - 1) == t {
      j := n - 1;
    } else {
      j := TagAt(env, n - 1, t);
    }
  }

  lemma NoTags(env: seq<EnvVar>)
    ensures TagsIn(env) == 0 <==> !HasTag(env)
  {
    if TagsIn(env) > 0 {
      var j := TagAt(env, |env|, 0);
    }
    if HasTag(env) {
      var k :| 0 <= k < |env| && env[k].name == TARGETCONTAINER_TAG;
      TagsGrow(env, k, |env|);
    }
  }

  lemma {:induction false} TagsOfPrefix(env: seq<EnvVar>, n: nat, i: nat)
    requires i <= n <= |env|
    ensures TagsBefore(env[..n], i) == TagsBefore(env, i)
  {
    if i > 0 {
      TagsOfPrefix(env, n, i - 1);
    }
  }

  // ---------- One naming after the other ----------

  lemma StillTag(env: seq<EnvVar>, t: nat, i: nat)
    requires env != [] && !IsTag(env[|env| - 1]) && i < |env|
    ensures IsTag(Overwritten(env, t)[i]) <==> IsTag(env[i]) && TagsBefore(env, i) >= t
  {
  }

  lemma IndexFinds(b: seq<EnvVar>, k: nat)
    requires k < |b| && IsTag(b[k])
    ensures 0 <= TagIndex(b, 0) <= k && IsTag(b[TagIndex(b, 0)])
  {
  }

  /** The first tag that is left has `t` tags before it. */
  lemma FirstLeft(env: seq<EnvVar>, t: nat) returns (j: nat)
    requires env != [] && !IsTag(env[|env| - 1]) && t < TagsIn(env)
    ensures j < |env| && IsTag(env[j]) && TagsBefore(env, j) == t
    ensures TagIndex(Overwritten(env, t), 0) == j
  {
    j := TagAt(env, |env|, t);
    StillTag(env, t, j);
    var b := Overwritten(env, t);
    IndexFinds(b, j);
    var i := TagIndex(b, 0);
    StillTag(env, t, i);
    if i < j {
      TagsGrow(env, i, j);
    }
  }

  lemma NoneLeft(env: seq<EnvVar>)
    requires env != [] && !IsTag(env[|env| - 1])
    ensures TagIndex(Overwritten(env, TagsIn(env)), 0) == -1
  {
    var j := TagIndex(Overwritten(env, TagsIn(env)), 0);
    if j >= 0 {
      StillTag(env, TagsIn(env), j);
      TagsGrow(env, j, |env|);
    }
  }

  lemma NextOverwritten(env: seq<EnvVar>, t: nat, j: nat)
    requires j < |env| && IsTag(env[j]) && TagsBefore(env, j) == t
    ensures Overwritten(env, t)[j := env[|env| - 1]] == Overwritten(env, t + 1)
  {
    forall i | 0 <= i < |env| && i != j && IsTag(env[i]) ensures TagsBefore(env, i) != t {
      if i < j {
        TagsGrow(env, i, j);
      } else {
        TagsGrow(env, j, i);
      }
    }
  }

  /** The slice after `t` tags have been overwritten. */
  function After(env: seq<EnvVar>, t: nat): EnvSlice
    requires env != []
  {
    EnvSlice(Overwritten(env, t), if t == 0 then env else Overwritten(env, t)[..|env| - 1])
  }

  lemma StripsFirst(e: EnvSlice)
    requires e.backing != [] && !IsTag(e.backing[|e.backing| - 1])
    ensures var n, j := |e.backing|, TagIndex(e.backing, 0);
            Strip(e) ==
            if j < 0 then e
            else EnvSlice(e.backing[j := e.backing[n - 1]], e.backing[j := e.backing[n - 1]][..n - 1])
  {
  }

  lemma StripNext(env: seq<EnvVar>, t: nat)
    requires env != [] && !IsTag(env[|env| - 1]) && t <= TagsIn(env)
    ensures Strip(After(env, t)) == After(env, if t < TagsIn(env) then t + 1 else t)
  {
    assert Overwritten(env, t)[|env| - 1] == env[|env| - 1];
    StripsFirst(After(env, t));
    if t < TagsIn(env) {
      var j := FirstLeft(env, t);
      NextOverwritten(env, t, j);
    } else {
      NoneLeft(env);
    }
  }

  function StripAgain(e: EnvSlice, k: nat): EnvSlice
    decreases k
  {
    if k == 0 then e else StripAgain(Strip(e), k - 1)
  }

  lemma {:induction false} NamingsStrip(e: EnvSlice, name: string, tcs: seq<TargetContainer>)
    ensures StripFor(e, name, tcs) == StripAgain(e, Namings(tcs, name))
    decreases |tcs|
  {
    if tcs != [] {
      if tcs[0].name == name {
        NamingsStrip(Strip(e), name, tcs[1..]);
      } else {
        NamingsStrip(e, name, tcs[1..]);
      }
    }
  }

  /** If stripping leads through the slices `f(0)`, `f(1)`, … and stops at `f(end)`, so does repeated stripping. */
  lemma {:induction false} StripThrough(f: nat -> EnvSlice, end: nat, t: nat, k: nat)
    requires t <= end && Strip(f(end)) == f(end)
    requires forall i: nat :: i < end ==> Strip(f(i)) == f(i + 1)
    ensures StripAgain(f(t), k) == f(Least(t + k, end))
    decreases k
  {
    if k > 0 {
      StripThrough(f, end, if t < end then t + 1 else t, k - 1);
    }
  }

  /** The slices of `env` as a function, which stripping steps through. */
  lemma Slices(env: seq<EnvVar>) returns (f: nat -> EnvSlice)
    requires env != [] && !IsTag(env[|env| - 1])
    ensures forall t: nat :: f(t) == After(env, t)
    ensures Strip(f(TagsIn(env))) == f(TagsIn(env))
    ensures forall t: nat :: t < TagsIn(env) ==> Strip(f(t)) == f(t + 1)
  {
    f := (t: nat) => After(env, t);
    StripNext(env, TagsIn(env));
    forall t: nat | t < TagsIn(env) ensures Strip(f(t)) == f(t + 1) {
      StripNext(env, t);
    }
  }

  lemma StripTimes(env: seq<EnvVar>, k: nat)
    requires env != [] && !IsTag(env[|env| - 1])
    ensures StripAgain(After(env, 0), k) == After(env, Least(k, TagsIn(env)))
  {
    var f := Slices(env);
    StripThrough(f, TagsIn(env), 0, k);
  }

  lemma {:induction false} NamingsNames(tcs: seq<TargetContainer>, name: string)
    ensures Namings(tcs, name) > 0 <==> Names(tcs, name)
  {
    if tcs != [] {
      NamesSplit(tcs, name);
      NamingsNames(tcs[1..], name);
    }
  }

  // ---------- What a target does to an env ----------

  /** Nothing without a tag or a naming. A tag in last place is cut off, and nothing else happens. Otherwise as
      many tags as there are namings are overwritten by the last entry, and that entry is cut off once. */
  lemma StripMeaning(env: seq<EnvVar>, name: string, tcs: seq<TargetContainer>)
    ensures var k := Least(Namings(tcs, name), TagsIn(env));
            StripEnv(env, name, tcs) ==
            if k == 0 then env
            else if IsTag(env[|env| - 1]) then env[..|env| - 1]
            else Overwritten(env, k)[..|env| - 1]
  {
    var n := |env|;
    NamingsNames(tcs, name);
    NoTags(env);
    if Least(Namings(tcs, name), TagsIn(env)) == 0 {
      StripLengths(env, name, tcs);
    } else if IsTag(env[n - 1]) {
      assert env == env[..n - 1] + [env[n - 1]];
      StripsLast(env[..n - 1], env[n - 1], env, name, tcs);
    } else {
      assert Overwritten(env, 0) == env;
      NamingsStrip(After(env, 0), name, tcs);
      StripTimes(env, Namings(tcs, name));
    }
  }

  // ---------- The entries of the user ----------

  lemma UpdateCounts(env: seq<EnvVar>, j: nat, x: EnvVar)
    requires j < |env|
    ensures multiset(env[j := x]) == multiset(env) - multiset{env[j]} + multiset{x}
  {
  }

  /** Overwriting one tag more takes that tag out and puts the last entry in. */
  lemma OverwrittenStep(env: seq<EnvVar>, t: nat) returns (j: nat)
    requires env != [] && !IsTag(env[|env| - 1]) && 0 < t <= TagsIn(env)
    ensures j < |env| && IsTag(env[j])
    ensures multiset(Overwritten(env, t)) ==
            multiset(Overwritten(env, t - 1)) - multiset{env[j]} + multiset{env[|env| - 1]}
  {
    j := TagAt(env, |env|, t - 1);
    NextOverwritten(env, t - 1, j);
    assert Overwritten(env, t - 1)[j] == env[j];
    UpdateCounts(Overwritten(env, t - 1), j, env[|env| - 1]);
  }

  lemma CountStep(a: multiset<EnvVar>, b: multiset<EnvVar>, tag: EnvVar, last: EnvVar, v: EnvVar)
    requires b == a - multiset{tag} + multiset{last} && v != tag
    ensures b[v] == a[v] + if v == last then 1 else 0
  {
  }

  lemma {:induction false} OverwrittenCounts(env: seq<EnvVar>, t: nat, v: EnvVar)
    requires env != [] && !IsTag(env[|env| - 1]) && t <= TagsIn(env) && !IsTag(v)
    ensures multiset(Overwritten(env, t))[v] == multiset(env)[v] + if v == env[|env| - 1] then t else 0
  {
    if t == 0 {
      assert Overwritten(env, 0) == env;
    } else {
      var j := OverwrittenStep(env, t);
      OverwrittenCounts(env, t - 1, v);
      CountStep(multiset(Overwritten(env, t - 1)), multiset(Overwritten(env, t)), env[j], env[|env| - 1], v);
    }
  }

  lemma LastOff(env: seq<EnvVar>)
    requires env != []
    ensures multiset(env[..|env| - 1]) == multiset(env) - multiset{env[|env| - 1]}
  {
    assert env == env[..|env| - 1] + [env[|env| - 1]];
  }

  lemma OverwrittenOffCounts(env: seq<EnvVar>, k: nat, v: EnvVar)
    requires env != [] && !IsTag(env[|env| - 1]) && 0 < k <= TagsIn(env) && !IsTag(v)
    ensures multiset(Overwritten(env, k)[..|env| - 1])[v] ==
            multiset(env)[v] + if v == env[|env| - 1] then k - 1 else 0
  {
    OverwrittenCounts(env, k, v);
    LastOff(Overwritten(env, k));
    assert Overwritten(env, k)[|env| - 1] == env[|env| - 1];
  }

  /** Every entry that is not a tag stays as often as it was there; only the last one is multiplied if several
      namings find several tags in front of it. */
  lemma UserEntries(env: seq<EnvVar>, name: string, tcs: seq<TargetContainer>, v: EnvVar)
    requires !IsTag(v)
    ensures var k := Least(Namings(tcs, name), TagsIn(env));
            multiset(StripEnv(env, name, tcs))[v] ==
            multiset(env)[v] + if k > 0 && v == env[|env| - 1] then k - 1 else 0
  {
    var k := Least(Namings(tcs, name), TagsIn(env));
    StripMeaning(env, name, tcs);
    if k > 0 && IsTag(env[|env| - 1]) {
      LastOff(env);
    } else if k > 0 {
      OverwrittenOffCounts(env, k, v);
    }
  }

  /** The user's entries are kept, each as often as before. */
  ghost predicate UserEntriesKept(env: seq<EnvVar>, env': seq<EnvVar>) {
    forall v :: !IsTag(v) ==> multiset(env')[v] == multiset(env)[v]
  }

  /** That is so exactly unless the target names the container twice and two tags stand before an entry that is
      none. */
  lemma UserEntriesKeptIff(env: seq<EnvVar>, name: string, tcs: seq<TargetContainer>)
    ensures UserEntriesKept(env, StripEnv(env, name, tcs)) <==>
            !(Namings(tcs, name) >= 2 && TagsIn(env) >= 2 && !IsTag(env[|env| - 1]))
  {
    forall v | !IsTag(v)
      ensures multiset(StripEnv(env, name, tcs))[v] ==
              multiset(env)[v] + var k := Least(Namings(tcs, name), TagsIn(env));
                if k > 0 && v == env[|env| - 1] then k - 1 else 0
    {
      UserEntries(env, name, tcs, v);
    }
    if Least(Namings(tcs, name), TagsIn(env)) >= 2 && !IsTag(env[|env| - 1]) {
      UserEntries(env, name, tcs, env[|env| - 1]);
    }
  }

  /** Two tags, two namings: the last entry is there twice afterwards. */
  lemma EntryIsDoubled(x: EnvVar, value: string, name: string, tc: TargetContainer)
    requires !IsTag(x) && tc.name == name
    ensures var tag := EnvVar(TARGETCONTAINER_TAG, value, "");
            StripEnv([tag, tag, x], name, [tc, tc]) == [x, x]
  {
    var tag := EnvVar(TARGETCONTAINER_TAG, value, "");
    var env := [tag, tag, x];
    assert env[..3] == env && env[..0] == [];
    assert TagsBefore(env, 1) == 1 && TagsBefore(env, 2) == 2 && TagsBefore(env, 3) == 2;
    assert [tc, tc][1..] == [tc] && [tc][1..] == [] && Namings([], name) == 0;
    assert Namings([tc], name) == 1;
    assert Namings([tc, tc], name) == 2;
    StripMeaning(env, name, [tc, tc]);
    assert Overwritten(env, 2) == [x, x, x];
  }

  // ---------- The tags ----------

  lemma {:induction false} TagsReplaced(env: seq<EnvVar>, j: nat, x: EnvVar, i: nat)
    requires j < |env| && IsTag(env[j]) && !IsTag(x) && i <= |env|
    ensures TagsBefore(env[j := x], i) == TagsBefore(env, i) - if j < i then 1 else 0
  {
    if i > 0 {
      TagsReplaced(env, j, x, i - 1);
      if j < i - 1 {
        TagsGrow(env, j, i - 1);
      }
    }
  }

  lemma {:induction false} OverwrittenTags(env: seq<EnvVar>, t: nat)
    requires env != [] && !IsTag(env[|env| - 1]) && t <= TagsIn(env)
    ensures TagsIn(Overwritten(env, t)) == TagsIn(env) - t
  {
    if t == 0 {
      assert Overwritten(env, 0) == env;
    } else {
        var j := TagAt(env, |env|, t - 1);
      OverwrittenTags(env, t - 1);
      NextOverwritten(env, t - 1, j);
      assert Overwritten(env, t - 1)[j] == env[j];
      TagsReplaced(Overwritten(env, t - 1), j, env[|env| - 1], |env|);
    }
  }

  /** How many tags are left. */
  lemma TagsLeft(env: seq<EnvVar>, name: string, tcs: seq<TargetContainer>)
    ensures var k := Least(Namings(tcs, name), TagsIn(env));
            TagsIn(StripEnv(env, name, tcs)) ==
            TagsIn(env) - if k > 0 && IsTag(env[|env| - 1]) then 1 else k
  {
    var k, n := Least(Namings(tcs, name), TagsIn(env)), |env|;
    StripMeaning(env, name, tcs);
    if k > 0 && IsTag(env[n - 1]) {
      TagsOfPrefix(env, n - 1, n - 1);
    } else if k > 0 {
      OverwrittenTags(env, k);
      TagsOfPrefix(Overwritten(env, k), n - 1, n - 1);
      assert Overwritten(env, k)[n - 1] == env[n - 1];
    }
  }

  /** No tag is left exactly if there was none, or the container is named and there was one, or it is named as
      often as there were tags and the last entry is none. */
  lemma AllTagsGoneIff(env: seq<EnvVar>, name: string, tcs: seq<TargetContainer>)
    ensures !HasTag(StripEnv(env, name, tcs)) <==>
            || !HasTag(env)
            || (Names(tcs, name) && (TagsIn(env) == 1 || (!IsTag(env[|env| - 1]) && Namings(tcs, name) >= TagsIn(env))))
  {
    NoTags(env);
    NoTags(StripEnv(env, name, tcs));
    NamingsNames(tcs, name);
    TagsLeft(env, name, tcs);
  }

  lemma PrefixStays(env: seq<EnvVar>, j: nat, x: EnvVar)
    requires j < |env| - 1
    ensures env[j := x][..|env| - 1][..j] == env[..j]
  {
  }

  lemma LastForTagCounts(env: seq<EnvVar>, j: nat)
    requires j < |env| - 1
    ensures multiset(env[j := env[|env| - 1]][..|env| - 1]) == multiset(env) - multiset{env[j]}
  {
    var last, rest := env[|env| - 1], env[j + 1..|env| - 1];
    assert env == env[..j] + [env[j]] + rest + [last];
    assert env[j := last][..|env| - 1] == env[..j] + [last] + rest;
  }

  lemma LastForTag(env: seq<EnvVar>, j: nat)
    requires j < |env| - 1
    ensures var env' := env[j := env[|env| - 1]][..|env| - 1];
            multiset(env') == multiset(env) - multiset{env[j]} && env'[..j] == env[..j]
  {
    PrefixStays(env, j, env[|env| - 1]);
    LastForTagCounts(env, j);
  }

  lemma OneOverwritten(env: seq<EnvVar>, j: nat)
    requires j < |env| && IsTag(env[j]) && TagsBefore(env, j) == 0
    ensures Overwritten(env, 1) == env[j := env[|env| - 1]]
  {
    assert Overwritten(env, 0) == env;
    NextOverwritten(env, 0, j);
  }

  lemma OneTag(env: seq<EnvVar>, j: nat)
    requires j < |env| && forall i :: 0 <= i < |env| ==> (IsTag(env[i]) <==> i == j)
    ensures TagsBefore(env, j) == 0 && TagsIn(env) == 1
  {
    if TagsBefore(env, j) > 0 {
      var i := TagAt(env, j, 0);
    }
    TagsGrow(env, j, |env|);
    if TagsIn(env) >= 2 {
      var k := TagAt(env, |env|, 1);
    }
  }

  /** The only tag goes, however often the container is named: everything else stays, and what stood before the
      tag stays in place. */
  lemma OnlyTagIsRemoved(env: seq<EnvVar>, name: string, tcs: seq<TargetContainer>, j: nat)
    requires j < |env| && Names(tcs, name) && forall i :: 0 <= i < |env| ==> (IsTag(env[i]) <==> i == j)
    ensures var env' := StripEnv(env, name, tcs);
            && !HasTag(env')
            && multiset(env') == multiset(env) - multiset{env[j]}
            && j <= |env'| && env'[..j] == env[..j]
            && env' == if j == |env| - 1 then env[..j] else env[j := env[|env| - 1]][..|env| - 1]
  {
    NamingsNames(tcs, name);
    OneTag(env, j);
    AllTagsGoneIff(env, name, tcs);
    StripMeaning(env, name, tcs);
    if j < |env| - 1 {
      OneOverwritten(env, j);
      LastForTag(env, j);
    } else {
      LastOff(env);
    }
  }

  /** A single naming takes exactly one tag, and nothing else, out of an env that has any. */
  lemma OneNamingTakesOneTag(env: seq<EnvVar>, name: string, tcs: seq<TargetContainer>) returns (j: nat)
    requires Namings(tcs, name) == 1 && HasTag(env)
    ensures j < |env| && IsTag(env[j])
    ensures var env' := StripEnv(env, name, tcs);
            multiset(env') == multiset(env) - multiset{env[j]} && j <= |env'| && env'[..j] == env[..j]
  {
    NoTags(env);
    StripMeaning(env, name, tcs);
    if IsTag(env[|env| - 1]) {
      j := |env| - 1;
      LastOff(env);
    } else {
        j := TagAt(env, |env|, 0);
      OneOverwritten(env, j);
      LastForTag(env, j);
    }
  }

  // ---------- Whole pods ----------

  /** The containers that are not sidecars. */
  function Users(cs: seq<Container>): seq<Container> {
    if cs == [] then [] else (if cs[0].name == SIDECARCONTAINER_NAME then [] else [cs[0]]) + Users(cs[1..])
  }

  /** Mounts that are not of the shared volume, and volumes that are not formol's. */
  function UserMounts(vms: seq<VolumeMount>): seq<VolumeMount> {
    if vms == [] then [] else (if vms[0].name == "formol-shared" then [] else [vms[0]]) + UserMounts(vms[1..])
  }

  function UserVolumes(vs: seq<Volume>): seq<Volume> {
    if vs == [] then []
    else (if vs[0].name in {"restic-volume", "formol-shared"} then [] else [vs[0]]) + UserVolumes(vs[1..])
  }

  lemma {:induction false} UserMountsStay(vms: seq<VolumeMount>)
    ensures DropSharedMounts(vms) == UserMounts(vms) && UserMounts(UserMounts(vms)) == UserMounts(vms)
  {
    if vms != [] {
      UserMountsStay(vms[1..]);
      assert ([vms[0]] + UserMounts(vms[1..]))[1..] == UserMounts(vms[1..]);
      assert [] + UserMounts(vms[1..]) == UserMounts(vms[1..]);
    }
  }

  lemma {:induction false} UserVolumesStay(vs: seq<Volume>)
    ensures DropFormolVolumes(vs) == UserVolumes(vs) && UserVolumes(UserVolumes(vs)) == UserVolumes(vs)
  {
    if vs != [] {
      UserVolumesStay(vs[1..]);
      assert ([vs[0]] + UserVolumes(vs[1..]))[1..] == UserVolumes(vs[1..]);
      assert [] + UserVolumes(vs[1..]) == UserVolumes(vs[1..]);
    }
  }

  lemma {:induction false} UsersStay(cs: seq<Container>)
    ensures |DropSidecars(cs)| == |Users(cs)|
    ensures forall k :: 0 <= k < |Users(cs)| ==>
              && Users(cs)[k].name != SIDECARCONTAINER_NAME
              && DropSidecars(cs)[k] == Users(cs)[k].(volumeMounts := UserMounts(Users(cs)[k].volumeMounts))
  {
    if cs != [] {
      UsersStay(cs[1..]);
      UserMountsStay(cs[0].volumeMounts);
    }
  }

  lemma {:induction false} UsersAlone(cs: seq<Container>)
    requires forall k :: 0 <= k < |cs| ==> cs[k].name != SIDECARCONTAINER_NAME
    ensures Users(cs) == cs
  {
    if cs != [] {
      UsersAlone(cs[1..]);
    }
  }

  /** No entry of the user is lost. */
  ghost predicate NoUserEntryLost(env: seq<EnvVar>, env': seq<EnvVar>) {
    forall v :: !IsTag(v) ==> multiset(env)[v] <= multiset(env')[v]
  }

  /** A container after a removal: its mounts are those of the user, its env has all that is the user's. */
  ghost predicate Relieved(c: Container, c': Container) {
    && c' == c.(env := c'.env, volumeMounts := UserMounts(c.volumeMounts))
    && NoUserEntryLost(c.env, c'.env)
  }

  lemma RemovedRelieves(pod: PodTemplate, target: Target)
    ensures var r := Removed(pod, target);
            && |r.containers| == |Users(pod.containers)|
            && (forall k :: 0 <= k < |r.containers| ==> Relieved(Users(pod.containers)[k], r.containers[k]))
            && (forall k :: 0 <= k < |r.containers| ==> r.containers[k].name != SIDECARCONTAINER_NAME)
            && r.volumes == UserVolumes(pod.volumes)
            && r.shareProcessNamespace == pod.shareProcessNamespace && r.other == pod.other
  {
    UsersStay(pod.containers);
    UserVolumesStay(pod.volumes);
    var r := Removed(pod, target);
    forall k | 0 <= k < |r.containers| ensures Relieved(Users(pod.containers)[k], r.containers[k]) {
      var c := Users(pod.containers)[k];
      forall v | !IsTag(v) ensures multiset(c.env)[v] <= multiset(r.containers[k].env)[v] {
        UserEntries(c.env, c.name, target.containers, v);
      }
    }
  }

  /** Whatever was done to a pod, after the removal for any targets it has its containers without the sidecars,
      in order, each with the user's mounts and without losing an entry of the user's, and the user's volumes. */
  lemma {:induction false} RemovalKeepsUsers(pod: PodTemplate, ts: seq<Target>)
    requires ts != []
    ensures var r := RemovedBy(pod, ts);
            && |r.containers| == |Users(pod.containers)|
            && (forall k :: 0 <= k < |r.containers| ==> Relieved(Users(pod.containers)[k], r.containers[k]))
            && r.volumes == UserVolumes(pod.volumes)
            && r.shareProcessNamespace == pod.shareProcessNamespace && r.other == pod.other
    decreases |ts|
  {
    var first := Removed(pod, ts[0]);
    RemovedRelieves(pod, ts[0]);
    if |ts| > 1 {
      RemovalKeepsUsers(first, ts[1..]);
      UsersAlone(first.containers);
      UserVolumesStay(pod.volumes);
      forall k | 0 <= k < |first.containers|
        ensures Relieved(Users(pod.containers)[k], RemovedBy(first, ts[1..]).containers[k])
      {
        assert Relieved(first.containers[k], RemovedBy(first, ts[1..]).containers[k]);
        UserMountsStay(Users(pod.containers)[k].volumeMounts);
      }
    } else {
      assert ts[1..] == [];
    }
  }

  /** So it is with every workload the removal reaches; the others stay as they are. */
  lemma DeletionKeepsUsers(pods: map<WorkloadKey, PodTemplate>, targets: seq<Target>, key: WorkloadKey)
    requires key in pods
    ensures var pods' := RemovedAll(pods, targets);
            && pods'.Keys == pods.Keys
            && if On(Reached(pods, targets), key) == [] then pods'[key] == pods[key]
               else
                 && |pods'[key].containers| == |Users(pods[key].containers)|
                 && (forall k :: 0 <= k < |pods'[key].containers| ==>
                       Relieved(Users(pods[key].containers)[k], pods'[key].containers[k]))
                 && pods'[key].volumes == UserVolumes(pods[key].volumes)
                 && pods'[key].shareProcessNamespace == pods[key].shareProcessNamespace
  {
    SameReach(pods, pods, targets);
    RemovingStops(pods, targets);
    RemovedAllMeaning(pods, Reached(pods, targets));
    if On(Reached(pods, targets), key) != [] {
      RemovalKeepsUsers(pods[key], On(Reached(pods, targets), key));
    }
  }
}
