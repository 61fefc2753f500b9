/**
 * The build driver: building the local dependencies that changed, picking
 * the JAR to run, and the names of the pre- and post-command hooks.
 */
module Commands {
  import opened Wrappers
  import opened Text
  import opened Hash
  import opened Pom
  import opened DotEnv

  // ---------------------------------------------------------------- buildLocalDependencies

  /** One `mvn` process: its working directory and its arguments. */
  datatype Invocation = Invocation(dir: string, args: seq<string>)

  /** Whether a `mvn` process started this way exits successfully. */
  type Mvn = Invocation -> bool

  /** `clean install`, followed by `-DskipTests` when tests are skipped. */
  function InstallArgs(skipTests: bool): seq<string>
  {
    if skipTests then ["clean", "install", "-DskipTests"] else ["clean", "install"]
  }

  /**
   * How a run ends: the dependency whose build failed (the error returned),
   * the hash files afterwards, and the `mvn` processes started, in order.
   */
  datatype Run = Run(failed: Option<string>, disk: Disk, builds: seq<Invocation>)

  /** The environment one driver run sees: hashing, `mvn`, and which `pom.xml` files exist. */
  datatype BuildEnv = BuildEnv(host: Host, mvn: Mvn, existing: set<string>, skipTests: bool)

  /** A dependency directory counts only when it holds a `pom.xml`. */
  predicate HasPom(env: BuildEnv, dep: string)
  {
    JoinPath(dep, "pom.xml") in env.existing
  }

  /** The `mvn clean install [-DskipTests]` process for one dependency. */
  function Install(env: BuildEnv, dep: string): Invocation
  {
    Invocation(dep, InstallArgs(env.skipTests))
  }

  /** The record of `dep` in `disk` says its tree is unchanged. */
  predicate UpToDate(h: Host, disk: Disk, dep: string)
  {
    !ShouldRebuildDependency(h, disk, dep).rebuild
  }

  /** What the loop body does with a dependency directory that has a `pom.xml`. */
  datatype Pass = Unchanged | Built(disk: Disk) | BuildFailed

  /** How the loop body treats a dependency with a `pom.xml`, given the hash files so far. */
  type Policy = (Disk, string) -> Pass

  /**
   * The loop body after the `pom.xml` check: skip an unchanged tree (a failed
   * check counts as changed), otherwise build, and commit the new hash after
   * a successful build, ignoring a failed commit.
   */
  function PassFor(env: BuildEnv, disk: Disk, dep: string): Pass
  {
    var d := ShouldRebuildDependency(env.host, disk, dep);
    var shouldRebuild := d.rebuild || d.failed;
    if !shouldRebuild then Unchanged
    else if !env.mvn(Install(env, dep)) then BuildFailed
    else Built(UpdateSrcHash(env.host, disk, dep).disk)
  }

  /** A dependency is skipped exactly when it is up to date; a commit happens only after `mvn` succeeds. */
  lemma PassForFacts(env: BuildEnv, disk: Disk, dep: string)
    ensures var s := PassFor(env, disk, dep);
      && (s.Unchanged? <==> UpToDate(env.host, disk, dep))
      && (s.BuildFailed? <==> !UpToDate(env.host, disk, dep) && !env.mvn(Install(env, dep)))
      && (s.Built? ==> env.mvn(Install(env, dep)) && s.disk == UpdateSrcHash(env.host, disk, dep).disk)
  {
    SkipIffUpToDate(env.host, disk, dep);
    var d := ShouldRebuildDependency(env.host, disk, dep);
    if !(d.rebuild || d.failed) {
      assert PassFor(env, disk, dep) == Unchanged;
    } else if !env.mvn(Install(env, dep)) {
      assert PassFor(env, disk, dep) == BuildFailed;
    } else {
      assert PassFor(env, disk, dep) == Built(UpdateSrcHash(env.host, disk, dep).disk);
    }
  }

  /** A failed check always asks for a rebuild, so the loop skips exactly the up-to-date dependencies. */
  lemma SkipIffUpToDate(h: Host, disk: Disk, dep: string)
    ensures var d := ShouldRebuildDependency(h, disk, dep);
      !(d.rebuild || d.failed) <==> UpToDate(h, disk, dep)
  {
  }

  /** The loop over `deps` in order, from the hash files `disk` and the builds so far. */
  function Loop(env: BuildEnv, pass: Policy, deps: seq<string>, disk: Disk, builds: seq<Invocation>): Run
    decreases |deps|
  {
    if deps == [] then Run(None, disk, builds)
    else if !HasPom(env, deps[0]) then Loop(env, pass, deps[1..], disk, builds)
    else
      match pass(disk, deps[0])
      case Unchanged => Loop(env, pass, deps[1..], disk, builds)
      case Built(disk') => Loop(env, pass, deps[1..], disk', builds + [Install(env, deps[0])])
      case BuildFailed => Run(Some(deps[0]), disk, builds + [Install(env, deps[0])])
  }

  function PolicyOf(env: BuildEnv): Policy
  {
    (disk: Disk, dep: string) => PassFor(env, disk, dep)
  }

  /** The run `buildLocalDependencies` performs over `deps`. */
  function BuildFrom(env: BuildEnv, deps: seq<string>, disk: Disk, builds: seq<Invocation>): Run
  {
    Loop(env, PolicyOf(env), deps, disk, builds)
  }

  /** `buildLocalDependencies`. */
  method BuildLocalDependencies(env: BuildEnv, pom: PomFile, currentDir: string, disk0: Disk)
    returns (err: Option<string>, disk: Disk, builds: seq<Invocation>)
    ensures Run(err, disk, builds) == BuildFrom(env, LocalDependencies(pom, currentDir, env.existing), disk0, [])
  {
    var deps := GetLocalDependencies(pom, currentDir, env.existing);
    disk, builds := disk0, [];
    if |deps| == 0 {
      return None, disk, builds;
    }
    var i := 0;
    while i < |deps|
      invariant 0 <= i <= |deps|
      invariant BuildFrom(env, deps, disk0, []) == BuildFrom(env, deps[i..], disk, builds)
    {
      var failed;
      failed, disk, builds := BuildOne(env, deps, i, disk, builds);
      if failed {
        return Some(deps[i]), disk, builds;
      }
      i := i + 1;
    }
    return None, disk, builds;
  }

  /** One iteration of the loop of `buildLocalDependencies`, as one step of `BuildFrom`. */
  method BuildOne(env: BuildEnv, deps: seq<string>, i: nat, disk0: Disk, builds0: seq<Invocation>)
    returns (failed: bool, disk: Disk, builds: seq<Invocation>)
    requires i < |deps|
    ensures failed ==> BuildFrom(env, deps[i..], disk0, builds0) == Run(Some(deps[i]), disk, builds)
    ensures !failed ==> BuildFrom(env, deps[i..], disk0, builds0) == BuildFrom(env, deps[i + 1..], disk, builds)
  {
    assert deps[i..][1..] == deps[i + 1..];
    BuildFromStep(env, deps[i..], disk0, builds0);
    var depPath := deps[i];
    disk, builds := disk0, builds0;
    if JoinPath(depPath, "pom.xml") in env.existing {
      var d := ShouldRebuildDependency(env.host, disk, depPath);
      var shouldRebuild := d.rebuild;
      if d.failed {
        shouldRebuild := true;
      }
      if shouldRebuild {
        var inv := Invocation(depPath, InstallArgs(env.skipTests));
        builds := builds + [inv];
        if !env.mvn(inv) {
          return true, disk, builds;
        }
        disk := UpdateSrcHash(env.host, disk, depPath).disk;
      }
    }
    return false, disk, builds;
  }

  /** One step of `BuildFrom`, by what the loop body does with the first dependency. */
  lemma BuildFromStep(env: BuildEnv, deps: seq<string>, disk: Disk, builds: seq<Invocation>)
    requires deps != []
    ensures !HasPom(env, deps[0]) ==> BuildFrom(env, deps, disk, builds) == BuildFrom(env, deps[1..], disk, builds)
    ensures HasPom(env, deps[0]) && PassFor(env, disk, deps[0]).Unchanged? ==>
              BuildFrom(env, deps, disk, builds) == BuildFrom(env, deps[1..], disk, builds)
    ensures HasPom(env, deps[0]) && PassFor(env, disk, deps[0]).Built? ==>
              BuildFrom(env, deps, disk, builds)
              == BuildFrom(env, deps[1..], PassFor(env, disk, deps[0]).disk, builds + [Install(env, deps[0])])
    ensures HasPom(env, deps[0]) && PassFor(env, disk, deps[0]).BuildFailed? ==>
              BuildFrom(env, deps, disk, builds) == Run(Some(deps[0]), disk, builds + [Install(env, deps[0])])
  {
    assert PolicyOf(env)(disk, deps[0]) == PassFor(env, disk, deps[0]);
  }

  /** Every process started is `mvn clean install [-DskipTests]` in a listed dependency that has a `pom.xml`. */
  lemma {:induction false} BuildsAreInstalls(env: BuildEnv, pass: Policy, deps: seq<string>, disk: Disk, builds: seq<Invocation>)
    ensures var r := Loop(env, pass, deps, disk, builds);
      && |builds| <= |r.builds| && r.builds[..|builds|] == builds
      && forall k :: |builds| <= k < |r.builds| ==>
           r.builds[k] == Install(env, r.builds[k].dir) && r.builds[k].dir in deps && HasPom(env, r.builds[k].dir)
    decreases |deps|
  {
    if deps != [] {
      var r := Loop(env, pass, deps, disk, builds);
      var inv := Install(env, deps[0]);
      var next := builds;
      if !HasPom(env, deps[0]) || pass(disk, deps[0]).Unchanged? {
        BuildsAreInstalls(env, pass, deps[1..], disk, builds);
      } else if pass(disk, deps[0]).Built? {
        next := builds + [inv];
        BuildsAreInstalls(env, pass, deps[1..], pass(disk, deps[0]).disk, next);
        assert r.builds[..|next|][..|builds|] == builds;
      } else {
        next := builds + [inv];
        assert r.builds == next;
      }
      forall k | |builds| <= k < |r.builds|
        ensures r.builds[k] == Install(env, r.builds[k].dir) && r.builds[k].dir in deps && HasPom(env, r.builds[k].dir)
      {
        if k < |next| {
          assert r.builds[k] == next[k] == inv;
        } else {
          assert r.builds[k].dir in deps[1..];
        }
      }
    }
  }

  /** The policy reports a build as failed exactly when `mvn` fails. */
  ghost predicate Honest(env: BuildEnv, pass: Policy)
  {
    forall disk, dep :: (pass(disk, dep).Built? ==> env.mvn(Install(env, dep)))
                        && (pass(disk, dep).BuildFailed? ==> !env.mvn(Install(env, dep)))
  }

  lemma PolicyOfHonest(env: BuildEnv)
    ensures Honest(env, PolicyOf(env))
  {
    forall disk, dep ensures (PolicyOf(env)(disk, dep).Built? ==> env.mvn(Install(env, dep)))
                             && (PolicyOf(env)(disk, dep).BuildFailed? ==> !env.mvn(Install(env, dep)))
    {
      PassForFacts(env, disk, dep);
    }
  }

  /** If the run failed, its last process is the failing build of the dependency reported, started after `builds`. */
  predicate AbortedBy(env: BuildEnv, r: Run, builds: seq<Invocation>)
  {
    r.failed.Some? ==> && |r.builds| > |builds|
                       && r.builds[|r.builds| - 1] == Install(env, r.failed.value)
                       && !env.mvn(r.builds[|r.builds| - 1])
  }

  /** A failed build aborts the run: the failing process, for the dependency reported, is the last one started. */
  lemma {:induction false} FailureIsLast(env: BuildEnv, pass: Policy, deps: seq<string>, disk: Disk, builds: seq<Invocation>)
    requires Honest(env, pass)
    ensures AbortedBy(env, Loop(env, pass, deps, disk, builds), builds)
    decreases |deps|
  {
    if deps != [] {
      var r := Loop(env, pass, deps, disk, builds);
      var inv := Install(env, deps[0]);
      if !HasPom(env, deps[0]) || pass(disk, deps[0]).Unchanged? {
        FailureIsLast(env, pass, deps[1..], disk, builds);
      } else if pass(disk, deps[0]).Built? {
        FailureIsLast(env, pass, deps[1..], pass(disk, deps[0]).disk, builds + [inv]);
      } else {
        assert !env.mvn(inv);
        assert r == Run(Some(deps[0]), disk, builds + [inv]);
      }
    }
  }

  /** Every process of the run but a failing last one succeeded. */
  lemma {:induction false} EarlierBuildsSucceeded(env: BuildEnv, pass: Policy, deps: seq<string>, disk: Disk, builds: seq<Invocation>)
    requires Honest(env, pass)
    ensures var r := Loop(env, pass, deps, disk, builds);
      && (forall k :: |builds| <= k < |r.builds| - 1 ==> env.mvn(r.builds[k]))
      && (r.failed.None? ==> forall k :: |builds| <= k < |r.builds| ==> env.mvn(r.builds[k]))
    decreases |deps|, 1
  {
    if deps != [] {
      if !HasPom(env, deps[0]) || pass(disk, deps[0]).Unchanged? {
        EarlierBuildsSucceeded(env, pass, deps[1..], disk, builds);
      } else if pass(disk, deps[0]).Built? {
        EarlierBuildsAfterBuild(env, pass, deps, disk, builds);
      } else {
        assert Loop(env, pass, deps, disk, builds) == Run(Some(deps[0]), disk, builds + [Install(env, deps[0])]);
      }
    }
  }

  /** The inductive step of `EarlierBuildsSucceeded` when the first dependency is built successfully. */
  lemma {:induction false} EarlierBuildsAfterBuild(env: BuildEnv, pass: Policy, deps: seq<string>, disk: Disk, builds: seq<Invocation>)
    requires Honest(env, pass)
    requires deps != [] && HasPom(env, deps[0]) && pass(disk, deps[0]).Built?
    ensures var r := Loop(env, pass, deps, disk, builds);
      && (forall k :: |builds| <= k < |r.builds| - 1 ==> env.mvn(r.builds[k]))
      && (r.failed.None? ==> forall k :: |builds| <= k < |r.builds| ==> env.mvn(r.builds[k]))
    decreases |deps|, 0
  {
    var next, disk' := builds + [Install(env, deps[0])], pass(disk, deps[0]).disk;
    var rr := Loop(env, pass, deps[1..], disk', next);
    assert Loop(env, pass, deps, disk, builds) == rr;
    assert env.mvn(rr.builds[|builds|]) by {
      BuildsAreInstalls(env, pass, deps[1..], disk', next);
      assert rr.builds[..|next|][|builds|] == next[|builds|];
    }
    EarlierBuildsSucceeded(env, pass, deps[1..], disk', next);
  }

  /** No listed dependency with a `pom.xml`: no process starts and no hash file changes. */
  lemma {:induction false} NothingToBuild(env: BuildEnv, pass: Policy, deps: seq<string>, disk: Disk, builds: seq<Invocation>)
    requires forall k :: 0 <= k < |deps| ==> !HasPom(env, deps[k])
    ensures Loop(env, pass, deps, disk, builds) == Run(None, disk, builds)
    decreases |deps|
  {
    if deps != [] {
      assert !HasPom(env, deps[0]);
      NothingToBuild(env, pass, deps[1..], disk, builds);
    }
  }

  /** `disk2` differs from `disk1` at most at `q`. */
  ghost predicate OnlyChanges(disk1: Disk, disk2: Disk, q: string)
  {
    forall p :: p != q ==> (p in disk2 <==> p in disk1) && (p in disk1 ==> disk2[p] == disk1[p])
  }

  /** A build writes no hash file but its dependency's own. */
  ghost predicate Framed(pass: Policy)
  {
    forall disk, dep :: pass(disk, dep).Built? ==> OnlyChanges(disk, pass(disk, dep).disk, HashFilePath(dep))
  }

  lemma PolicyOfFramed(env: BuildEnv)
    ensures Framed(PolicyOf(env))
  {
    forall disk, dep | PolicyOf(env)(disk, dep).Built?
      ensures OnlyChanges(disk, PolicyOf(env)(disk, dep).disk, HashFilePath(dep))
    {
      PassForFacts(env, disk, dep);
      var d := UpdateSrcHash(env.host, disk, dep).disk;
      assert PolicyOf(env)(disk, dep).disk == d;
      forall p | p != HashFilePath(dep)
        ensures (p in d <==> p in disk) && (p in disk ==> d[p] == disk[p])
      {
      }
    }
  }

  /** The run touches no hash file but those of the listed dependencies. */
  lemma {:induction false} BuildFrame(env: BuildEnv, pass: Policy, deps: seq<string>, disk: Disk, builds: seq<Invocation>, p: string)
    requires Framed(pass)
    requires forall k :: 0 <= k < |deps| ==> HashFilePath(deps[k]) != p
    ensures var r := Loop(env, pass, deps, disk, builds);
      (p in r.disk <==> p in disk) && (p in disk ==> r.disk[p] == disk[p])
    decreases |deps|
  {
    if deps != [] {
      assert HashFilePath(deps[0]) != p;
      if !HasPom(env, deps[0]) || pass(disk, deps[0]).Unchanged? {
        BuildFrame(env, pass, deps[1..], disk, builds, p);
      } else if pass(disk, deps[0]).Built? {
        BuildFrame(env, pass, deps[1..], pass(disk, deps[0]).disk, builds + [Install(env, deps[0])], p);
      }
    }
  }

  /** Whether a dependency is up to date depends only on its own hash file. */
  lemma UpToDateLocal(h: Host, disk1: Disk, disk2: Disk, dep: string)
    requires HashFilePath(dep) in disk1 <==> HashFilePath(dep) in disk2
    requires HashFilePath(dep) in disk1 ==> disk1[HashFilePath(dep)] == disk2[HashFilePath(dep)]
    ensures UpToDate(h, disk1, dep) <==> UpToDate(h, disk2, dep)
  {
    assert LoadHashStore(disk1, dep) == LoadHashStore(disk2, dep);
  }

  /** The hash files of distinct positions of `deps` are distinct. */
  predicate DistinctHashFiles(deps: seq<string>)
  {
    forall i, j :: 0 <= i < j < |deps| ==> HashFilePath(deps[i]) != HashFilePath(deps[j])
  }

  /** Every fingerprint can be computed (neither walk fails) and every record written. */
  predicate Healthy(h: Host, deps: seq<string>)
  {
    forall k :: 0 <= k < |deps| ==>
      h.tree(deps[k]).java.Walked? && h.tree(deps[k]).resources.Walked? && h.write(HashFilePath(deps[k])) == WriteOk
  }

  lemma HealthyTail(h: Host, deps: seq<string>)
    requires deps != [] && DistinctHashFiles(deps) && Healthy(h, deps)
    ensures DistinctHashFiles(deps[1..]) && Healthy(h, deps[1..])
    ensures SrcHashOf(h.digest, h.tree(deps[0])).SrcHashOk? && h.write(HashFilePath(deps[0])) == WriteOk
    ensures forall k :: 0 <= k < |deps[1..]| ==> HashFilePath(deps[1..][k]) != HashFilePath(deps[0])
  {
    var rest := deps[1..];
    forall i, j | 0 <= i < j < |rest| ensures HashFilePath(rest[i]) != HashFilePath(rest[j]) {
      assert rest[i] == deps[i + 1] && rest[j] == deps[j + 1];
    }
    forall k | 0 <= k < |rest|
      ensures h.tree(rest[k]).java.Walked? && h.tree(rest[k]).resources.Walked? && h.write(HashFilePath(rest[k])) == WriteOk
      ensures HashFilePath(rest[k]) != HashFilePath(deps[0])
    {
      assert rest[k] == deps[k + 1];
    }
  }

  /** After a run without failures on a healthy host, every dependency with a `pom.xml` is up to date. */
  lemma {:induction false} RunLeavesUpToDate(env: BuildEnv, deps: seq<string>, disk: Disk, builds: seq<Invocation>)
    requires DistinctHashFiles(deps) && Healthy(env.host, deps)
    requires BuildFrom(env, deps, disk, builds).failed.None?
    ensures forall k :: 0 <= k < |deps| && HasPom(env, deps[k]) ==>
              UpToDate(env.host, BuildFrom(env, deps, disk, builds).disk, deps[k])
    decreases |deps|
  {
    if deps != [] {
      var dep, rest := deps[0], deps[1..];
      HealthyTail(env.host, deps);
      var r := BuildFrom(env, deps, disk, builds);
      var disk', builds' := ContinuedRun(env, deps, disk, builds);
      RunLeavesUpToDate(env, rest, disk', builds');
      if HasPom(env, dep) {
        HeadLeftUpToDate(env, deps, disk, builds);
      }
      forall k | 0 <= k < |deps| && HasPom(env, deps[k])
        ensures UpToDate(env.host, r.disk, deps[k])
      {
        if k > 0 {
          assert deps[k] == rest[k - 1];
        }
      }
    }
  }

  /** A run that does not fail at its first dependency goes on as a run over the rest. */
  lemma ContinuedRun(env: BuildEnv, deps: seq<string>, disk: Disk, builds: seq<Invocation>)
    returns (disk': Disk, builds': seq<Invocation>)
    requires deps != [] && BuildFrom(env, deps, disk, builds).failed.None?
    ensures BuildFrom(env, deps, disk, builds) == BuildFrom(env, deps[1..], disk', builds')
  {
    var s := if HasPom(env, deps[0]) then PassFor(env, disk, deps[0]) else Unchanged;
    disk' := if s.Built? then s.disk else disk;
    builds' := if s.Built? then builds + [Install(env, deps[0])] else builds;
  }

  /** The first dependency of such a run is up to date at its end: it was either skipped or committed, and nothing later touches its record. */
  lemma HeadLeftUpToDate(env: BuildEnv, deps: seq<string>, disk: Disk, builds: seq<Invocation>)
    requires deps != [] && DistinctHashFiles(deps) && Healthy(env.host, deps) && HasPom(env, deps[0])
    requires BuildFrom(env, deps, disk, builds).failed.None?
    ensures UpToDate(env.host, BuildFrom(env, deps, disk, builds).disk, deps[0])
  {
    var dep, rest := deps[0], deps[1..];
    HealthyTail(env.host, deps);
    PolicyOfFramed(env);
    PassForFacts(env, disk, dep);
    var r := BuildFrom(env, deps, disk, builds);
    var s := PassFor(env, disk, dep);
    if s.Unchanged? {
      assert r == BuildFrom(env, rest, disk, builds);
      BuildFrame(env, PolicyOf(env), rest, disk, builds, HashFilePath(dep));
      UpToDateLocal(env.host, disk, r.disk, dep);
    } else {
      assert s.Built?;
      CommitThenCheck(env.host, disk, dep);
      assert r == BuildFrom(env, rest, s.disk, builds + [Install(env, dep)]);
      BuildFrame(env, PolicyOf(env), rest, s.disk, builds + [Install(env, dep)], HashFilePath(dep));
      UpToDateLocal(env.host, s.disk, r.disk, dep);
    }
  }

  /** With every dependency up to date, a run starts no process and changes nothing. */
  lemma {:induction false} UpToDateRunIsQuiet(env: BuildEnv, deps: seq<string>, disk: Disk, builds: seq<Invocation>)
    requires forall k :: 0 <= k < |deps| && HasPom(env, deps[k]) ==> UpToDate(env.host, disk, deps[k])
    ensures BuildFrom(env, deps, disk, builds) == Run(None, disk, builds)
    decreases |deps|
  {
    if deps != [] {
      if HasPom(env, deps[0]) {
        assert UpToDate(env.host, disk, deps[0]);
        PassForFacts(env, disk, deps[0]);
      }
      UpToDateRunIsQuiet(env, deps[1..], disk, builds);
    }
  }

  /**
   * Incremental builds: on a healthy host, a second run right after a run
   * without failures starts no `mvn` process.
   */
  lemma SecondRunIsQuiet(env: BuildEnv, deps: seq<string>, disk: Disk)
    requires DistinctHashFiles(deps) && Healthy(env.host, deps)
    requires BuildFrom(env, deps, disk, []).failed.None?
    ensures var disk' := BuildFrom(env, deps, disk, []).disk;
      BuildFrom(env, deps, disk', []) == Run(None, disk', [])
  {
    RunLeavesUpToDate(env, deps, disk, []);
    UpToDateRunIsQuiet(env, deps, BuildFrom(env, deps, disk, []).disk, []);
  }

  // ---------------------------------------------------------------- findJarFile

  /** An entry of `os.ReadDir(target)`; `modTime` is `None` when `os.Stat` of it fails. */
  datatype DirEntry = DirEntry(name: string, isDir: bool, modTime: Option<int>)

  /** A JAR the loop considers: a non-directory named `*.jar` that can be stat'ed, in the given class. */
  predicate Candidate(e: DirEntry, original: bool)
  {
    !e.isDir && HasSuffix(e.name, ".jar") && e.modTime.Some? && (HasPrefix(e.name, "original-") <==> original)
  }

  /** The candidate of its class the loop keeps: the first one with the latest time. */
  function Newest(es: seq<DirEntry>, original: bool): (r: Option<nat>)
    ensures r.Some? ==> r.value < |es| && Candidate(es[r.value], original)
  {
    if es == [] then None
    else
      var init := es[..|es| - 1];
      var e := es[|es| - 1];
      var r0 := Newest(init, original);
      assert r0.Some? ==> init[r0.value] == es[r0.value];
      if !Candidate(e, original) then r0
      else if r0.None? || e.modTime.value > es[r0.value].modTime.value then Some(|es| - 1)
      else r0
  }

  /**
   * The kept candidate is the latest of its class, strictly later than every
   * candidate before it (`After` keeps the first of equal times), and there
   * is none only when the class is empty.
   */
  lemma {:induction false} NewestIsLatest(es: seq<DirEntry>, original: bool)
    ensures var r := Newest(es, original);
      && (r.Some? ==> forall k :: 0 <= k < |es| && Candidate(es[k], original) ==>
                        es[k].modTime.value <= es[r.value].modTime.value)
      && (r.Some? ==> forall k :: 0 <= k < r.value && Candidate(es[k], original) ==>
                        es[k].modTime.value < es[r.value].modTime.value)
      && (r.None? <==> forall k :: 0 <= k < |es| ==> !Candidate(es[k], original))
  {
    if es != [] {
      var init := es[..|es| - 1];
      NewestIsLatest(init, original);
      assert forall k :: 0 <= k < |init| ==> init[k] == es[k];
    }
  }

  /** The JAR `findJarFile` returns: the newest non-`original-` one, else the newest `original-` one, else "". */
  function ChosenJar(targetDir: string, entries: Option<seq<DirEntry>>): string
  {
    match entries
    case None => ""
    case Some(es) =>
      match Newest(es, false)
      case Some(k) => JoinPath(targetDir, es[k].name)
      case None =>
        match Newest(es, true)
        case Some(k) => JoinPath(targetDir, es[k].name)
        case None => ""
  }

  /** `findJarFile`: one pass keeping the newest JAR of each class; `entries` is `None` when the directory cannot be read. */
  method FindJarFile(targetDir: string, entries: Option<seq<DirEntry>>) returns (jar: string)
    ensures jar == ChosenJar(targetDir, entries)
  {
    if entries.None? {
      return "";
    }
    var es := entries.value;
    var latestJar, latestTime := "", 0;
    var latestOriginalJar, latestOriginalTime := "", 0;
    var i := 0;
    while i < |es|
      invariant 0 <= i <= |es|
      invariant Tracked(targetDir, es[..i], false, latestJar, latestTime)
      invariant Tracked(targetDir, es[..i], true, latestOriginalJar, latestOriginalTime)
    {
      var entry := es[i];
      TrackStep(targetDir, es, i, false, latestJar, latestTime);
      TrackStep(targetDir, es, i, true, latestOriginalJar, latestOriginalTime);
      if !entry.isDir && HasSuffix(entry.name, ".jar") {
        var jarPath := JoinPath(targetDir, entry.name);
        if entry.modTime.Some? {
          var modTime := entry.modTime.value;
          var isOriginal := HasPrefix(entry.name, "original-");
          if isOriginal {
            if latestOriginalJar == "" || modTime > latestOriginalTime {
              latestOriginalJar, latestOriginalTime := jarPath, modTime;
            }
          } else {
            if latestJar == "" || modTime > latestTime {
              latestJar, latestTime := jarPath, modTime;
            }
          }
        }
      }
      i := i + 1;
    }
    assert es[..i] == es;
    if latestJar != "" {
      return latestJar;
    }
    return latestOriginalJar;
  }

  /** The loop's pair for one class: "" and the zero time before any candidate, else the kept JAR and its time. */
  predicate Tracked(targetDir: string, seen: seq<DirEntry>, original: bool, jar: string, time: int)
  {
    match Newest(seen, original)
    case None => jar == "" && time == 0
    case Some(k) => jar == JoinPath(targetDir, seen[k].name) && jar != "" && time == seen[k].modTime.value
  }

  /** One step of `Newest` over a growing prefix. */
  lemma NewestStep(es: seq<DirEntry>, i: nat, original: bool)
    requires i < |es|
    ensures var r0, e := Newest(es[..i], original), es[i];
      Newest(es[..i + 1], original)
        == if !Candidate(e, original) then r0
           else if r0.None? || e.modTime.value > es[r0.value].modTime.value then Some(i)
           else r0
  {
    assert es[..i + 1][..i] == es[..i];
    var r0 := Newest(es[..i], original);
    if r0.Some? {
      assert es[..i][r0.value] == es[r0.value];
    }
  }

  /** How one entry moves the pair the loop keeps for a class. */
  lemma TrackStep(targetDir: string, es: seq<DirEntry>, i: nat, original: bool, jar: string, time: int)
    requires i < |es| && Tracked(targetDir, es[..i], original, jar, time)
    ensures var takes := Candidate(es[i], original) && (jar == "" || es[i].modTime.value > time);
      && (takes ==> Tracked(targetDir, es[..i + 1], original, JoinPath(targetDir, es[i].name), es[i].modTime.value))
      && (!takes ==> Tracked(targetDir, es[..i + 1], original, jar, time))
  {
    NewestStep(es, i, original);
    var r0 := Newest(es[..i], original);
    if r0.Some? {
      assert es[..i + 1][r0.value] == es[..i][r0.value];
    }
    assert es[..i + 1][i] == es[i];
  }

  /** A non-`original-` JAR, whenever there is one, wins over every `original-` JAR. */
  lemma PrefersNonOriginal(targetDir: string, es: seq<DirEntry>, k: nat)
    requires k < |es| && Candidate(es[k], false)
    ensures exists j :: 0 <= j < |es| && Candidate(es[j], false) && ChosenJar(targetDir, Some(es)) == JoinPath(targetDir, es[j].name)
  {
    NewestIsLatest(es, false);
    var j := Newest(es, false).value;
    assert Candidate(es[j], false);
  }

  /** The chosen JAR is never older than another candidate of its class, and ties go to the first in directory order. */
  lemma ChosenIsNewest(es: seq<DirEntry>, original: bool, j: nat, k: nat)
    requires j < |es| && k < |es| && Candidate(es[k], original)
    requires Newest(es, original) == Some(j)
    ensures es[k].modTime.value <= es[j].modTime.value
    ensures k < j ==> es[k].modTime.value < es[j].modTime.value
  {
    NewestIsLatest(es, original);
  }

  // ---------------------------------------------------------------- pre- and post-command hooks

  /** `prefix + strings.ToUpper(name[:1]) + name[1:]`; Go slices a non-empty name here. */
  function HookName(prefix: string, commandName: string): string
    requires commandName != []
  {
    prefix + [ToUpperAscii(commandName[0])] + commandName[1..]
  }

  /** Two commands share a hook exactly when they differ at most in the case of their first letter. */
  lemma HookNameCollides(prefix: string, a: string, b: string)
    requires a != [] && b != []
    ensures (HookName(prefix, a) == HookName(prefix, b))
              <==> (ToUpperAscii(a[0]) == ToUpperAscii(b[0]) && a[1..] == b[1..])
  {
    var ha, hb := HookName(prefix, a), HookName(prefix, b);
    if ha == hb {
      assert ha[|prefix|] == hb[|prefix|];
      assert ha[|prefix| + 1..] == a[1..] && hb[|prefix| + 1..] == b[1..];
    }
  }

  /** The outcome of a hook: the script that ran, if any, and whether the call returned no error. */
  datatype HookRun = HookRun(ran: Option<string>, ok: bool)

  /**
   * Look up the hook and run it, with its variables expanded, through the
   * shell oracle; no hook means nothing runs and no error.
   */
  method RunHook(pom: PomFile, prefix: string, commandName: string, environ: Environment, shell: string -> bool) returns (r: HookRun)
    requires commandName != []
    ensures r.ran.None? <==> HookName(prefix, commandName) !in Scripts(pom)
    ensures r.ran.Some? ==> r.ran.value == Scripts(pom)[HookName(prefix, commandName)] && (r.ok <==> shell(ExpandEnvVars(r.ran.value, environ)))
    ensures r.ran.None? ==> r.ok
  {
    var scripts := GetScriptsFromPom(pom);
    var hookName := HookName(prefix, commandName);
    if hookName in scripts {
      var script := scripts[hookName];
      return HookRun(Some(script), shell(ExpandEnvVars(script, environ)));
    }
    return HookRun(None, true);
  }

  /** `runPreScript`. */
  method RunPreScript(pom: PomFile, commandName: string, environ: Environment, shell: string -> bool) returns (r: HookRun)
    requires commandName != []
    ensures r.ran.None? <==> HookName("pre", commandName) !in Scripts(pom)
    ensures r.ran.Some? ==> r.ran.value == Scripts(pom)[HookName("pre", commandName)] && (r.ok <==> shell(ExpandEnvVars(r.ran.value, environ)))
    ensures r.ran.None? ==> r.ok
  {
    r := RunHook(pom, "pre", commandName, environ, shell);
  }

  /** `runPostScript`. */
  method RunPostScript(pom: PomFile, commandName: string, environ: Environment, shell: string -> bool) returns (r: HookRun)
    requires commandName != []
    ensures r.ran.None? <==> HookName("post", commandName) !in Scripts(pom)
    ensures r.ran.Some? ==> r.ran.value == Scripts(pom)[HookName("post", commandName)] && (r.ok <==> shell(ExpandEnvVars(r.ran.value, environ)))
    ensures r.ran.None? ==> r.ok
  {
    r := RunHook(pom, "post", commandName, environ, shell);
  }
}
