/**
 * Watch mode: the configuration read from `pom.xml`, the directories put
 * under watch, the event filter and debounce of the watch loop, the handler
 * run for one change, and the `mvn` arguments and output filter it uses.
 */
module Watch {
  import opened Wrappers
  import opened Text
  import opened Hash
  import opened Pom
  import opened Commands
  import opened DotEnv

  // ---------------------------------------------------------------- WatchConfig, loadWatchConfig

  const MaxDuration: int := 0x7FFF_FFFF_FFFF_FFFF
  const MinDuration: int := -0x8000_0000_0000_0000

  /** A `time.Duration`: a signed 64-bit count of nanoseconds. */
  type Duration = d: int | MinDuration <= d <= MaxDuration

  const Second: Duration := 1_000_000_000

  /** `WatchConfig`. */
  datatype WatchConfig = WatchConfig(
    watchDirs: string,
    buildCommand: string,
    skipTests: bool,
    debounceTime: Duration,
    postCommand: string)

  /** The configuration before any property of `pom.xml` is applied. */
  const DefaultConfig := WatchConfig("src/main/java src/main/resources", "compile", true, 2 * Second, "")

  /** `time.ParseDuration`, which the model does not interpret: `None` is a parse error. */
  type DurationParser = string -> Option<Duration>

  /**
   * `loadWatchConfig`: start from the defaults and let each non-empty
   * `watch.*` property override its field. Tests are run only for the exact
   * value `false`; the debounce property is read as seconds, and a value that
   * does not parse keeps the default.
   */
  method LoadWatchConfig(pom: PomFile, parseDuration: DurationParser) returns (config: WatchConfig)
    ensures var dirs := GetProperty(pom, "watch.dirs");
      config.watchDirs == if dirs != "" then dirs else DefaultConfig.watchDirs
    ensures var cmd := GetProperty(pom, "watch.buildCommand");
      config.buildCommand == if cmd != "" then cmd else DefaultConfig.buildCommand
    ensures !config.skipTests <==> GetProperty(pom, "watch.skipTests") == "false"
    ensures var debounce := GetProperty(pom, "watch.debounceTime");
      config.debounceTime ==
        if debounce != "" && parseDuration(debounce + "s").Some? then parseDuration(debounce + "s").value
        else DefaultConfig.debounceTime
    ensures var post := GetProperty(pom, "watch.postCommand");
      config.postCommand == if post != "" then post else DefaultConfig.postCommand
    ensures config.watchDirs != [] && config.buildCommand != []
    ensures pom.PomUnreadable? ==> config == DefaultConfig
  {
    config := DefaultConfig;
    var dirs := GetProperty(pom, "watch.dirs");
    if dirs != "" {
      config := config.(watchDirs := dirs);
    }
    var cmd := GetProperty(pom, "watch.buildCommand");
    if cmd != "" {
      config := config.(buildCommand := cmd);
    }
    var skipTests := GetProperty(pom, "watch.skipTests");
    if skipTests == "false" {
      config := config.(skipTests := false);
    }
    var debounce := GetProperty(pom, "watch.debounceTime");
    if debounce != "" {
      var d := parseDuration(debounce + "s");
      if d.Some? {
        config := config.(debounceTime := d.value);
      }
    }
    var post := GetProperty(pom, "watch.postCommand");
    if post != "" {
      config := config.(postCommand := post);
    }
  }

  // ---------------------------------------------------------------- runMvnBuild, filterOutput

  /** The arguments of `runMvnBuild`: the words of the command, then `-DskipTests` when tests are skipped. */
  function MvnBuildArgs(command: string, skipTests: bool): (args: seq<string>)
    ensures |args| == |Fields(command)| + (if skipTests then 1 else 0)
    ensures args[..|Fields(command)|] == Fields(command)
    ensures skipTests ==> args[|args| - 1] == "-DskipTests"
  {
    Fields(command) + (if skipTests then ["-DskipTests"] else [])
  }

  /** The default configuration builds with `mvn compile -DskipTests`. */
  lemma DefaultBuildArgs()
    ensures MvnBuildArgs(DefaultConfig.buildCommand, DefaultConfig.skipTests) == ["compile", "-DskipTests"]
  {
    var s := DefaultConfig.buildCommand;
    assert NoSpace(s) by {
      forall i | 0 <= i < |s|
        ensures !IsSpace(s[i])
      {
        assert s[i] in "compile";
      }
    }
    FieldsOfWord(s);
  }

  /**
   * `runMvnBuild`: start `mvn` in the project directory with the build
   * arguments and report whether it exited successfully.
   */
  method RunMvnBuild(mvn: Mvn, currentDir: string, command: string, skipTests: bool)
    returns (success: bool, build: Invocation)
    ensures build.dir == currentDir
    ensures build.args == MvnBuildArgs(command, skipTests)
    ensures success == mvn(build)
  {
    var args := Fields(command);
    if skipTests {
      args := args + ["-DskipTests"];
    }
    build := Invocation(currentDir, args);
    success := mvn(build);
  }

  /** The line predicate of `filterOutput`: the line mentions one of five keywords. */
  predicate Shown(line: string)
  {
    || Contains(line, "ERROR")
    || Contains(line, "BUILD")
    || Contains(line, "Compiling")
    || Contains(line, "SUCCESS")
    || Contains(line, "FAILURE")
  }

  /** The lines of `lines` that `filterOutput` prints, in order. */
  function ShownLines(lines: seq<string>): seq<string>
  {
    if lines == [] then []
    else ShownLines(lines[..|lines| - 1]) + (if Shown(lines[|lines| - 1]) then [lines[|lines| - 1]] else [])
  }

  /** `filterOutput` over the lines the scanner yields: print exactly the lines that are shown. */
  method FilterOutput(lines: seq<string>) returns (printed: seq<string>)
    ensures printed == ShownLines(lines)
  {
    printed := [];
    var i := 0;
    while i < |lines|
      invariant 0 <= i <= |lines|
      invariant printed == ShownLines(lines[..i])
    {
      assert lines[..i + 1][..i] == lines[..i];
      if Shown(lines[i]) {
        printed := printed + [lines[i]];
      }
      i := i + 1;
    }
    assert lines[..|lines|] == lines;
  }

  /** A line is printed exactly when it is one of the output lines and mentions a keyword. */
  lemma {:induction false} ShownLinesMembers(lines: seq<string>, x: string)
    ensures x in ShownLines(lines) <==> (x in lines && Shown(x))
    decreases |lines|
  {
    if lines != [] {
      var init := lines[..|lines| - 1];
      ShownLinesMembers(init, x);
      assert lines == init + [lines[|lines| - 1]];
    }
  }

  /** Filtering printed output again prints the same lines. */
  lemma {:induction false} ShownLinesIdempotent(lines: seq<string>)
    ensures ShownLines(ShownLines(lines)) == ShownLines(lines)
    decreases |lines|
  {
    if lines != [] {
      var init := lines[..|lines| - 1];
      var last := lines[|lines| - 1];
      ShownLinesIdempotent(init);
      var s := ShownLines(init);
      assert lines[..|lines| - 1] == init;
      if Shown(last) {
        assert ShownLines(lines) == s + [last];
        assert (s + [last])[..|s + [last]| - 1] == s;
        assert ShownLines(s + [last]) == ShownLines(s) + [last];
      } else {
        assert ShownLines(lines) == s + [];
        assert s + [] == s;
      }
    }
  }

  // ---------------------------------------------------------------- watch roots

  /** The project's watch directories, each joined to the project directory. */
  function ProjectRoots(currentDir: string, dirs: seq<string>): (r: seq<string>)
    ensures |r| == |dirs|
    ensures forall i :: 0 <= i < |dirs| ==> r[i] == JoinPath(currentDir, dirs[i])
  {
    seq(|dirs|, i requires 0 <= i < |dirs| => JoinPath(currentDir, dirs[i]))
  }

  /** For each dependency in order, its `src/main/java` and `src/main/resources` directories. */
  function DepRoots(deps: seq<string>): (r: seq<string>)
    ensures |r| == 2 * |deps|
  {
    if deps == [] then []
    else DepRoots(deps[..|deps| - 1]) + [JoinPath(deps[|deps| - 1], JavaRoot), JoinPath(deps[|deps| - 1], ResourcesRoot)]
  }

  /** The paths of `ps` that exist, in order. */
  function Existing(ps: seq<string>, existing: set<string>): seq<string>
  {
    if ps == [] then []
    else Existing(ps[..|ps| - 1], existing) + (if ps[|ps| - 1] in existing then [ps[|ps| - 1]] else [])
  }

  /** The directories the watcher is given, in the order they are added. */
  function WatchRootsOf(config: WatchConfig, currentDir: string, localDeps: seq<string>, existing: set<string>): seq<string>
  {
    Existing(ProjectRoots(currentDir, Fields(config.watchDirs)) + DepRoots(localDeps), existing)
  }

  lemma {:induction false} ExistingAppend(a: seq<string>, b: seq<string>, existing: set<string>)
    ensures Existing(a + b, existing) == Existing(a, existing) + Existing(b, existing)
    decreases |b|
  {
    if b == [] {
      assert a + b == a;
    } else {
      var init := b[..|b| - 1];
      ExistingAppend(a, init, existing);
      assert (a + b)[..|a + b| - 1] == a + init;
    }
  }

  lemma {:induction false} ExistingMembers(ps: seq<string>, existing: set<string>, x: string)
    ensures x in Existing(ps, existing) <==> (x in ps && x in existing)
    decreases |ps|
  {
    if ps != [] {
      ExistingMembers(ps[..|ps| - 1], existing, x);
      assert ps == ps[..|ps| - 1] + [ps[|ps| - 1]];
    }
  }

  lemma {:induction false} DepRootsMembers(deps: seq<string>, x: string)
    ensures x in DepRoots(deps) <==>
              exists dep :: dep in deps && (x == JoinPath(dep, JavaRoot) || x == JoinPath(dep, ResourcesRoot))
    decreases |deps|
  {
    if deps != [] {
      var init := deps[..|deps| - 1];
      var last := deps[|deps| - 1];
      DepRootsMembers(init, x);
      assert deps == init + [last];
      if x == JoinPath(last, JavaRoot) || x == JoinPath(last, ResourcesRoot) {
        assert last in deps;
      }
      if exists dep :: dep in deps && (x == JoinPath(dep, JavaRoot) || x == JoinPath(dep, ResourcesRoot)) {
        var dep :| dep in deps && (x == JoinPath(dep, JavaRoot) || x == JoinPath(dep, ResourcesRoot));
        if dep != last {
          assert dep in init;
        }
      }
    }
  }

  /**
   * A directory is watched exactly when it exists and is either one of the
   * configured watch directories under the project or a source root of a
   * local dependency.
   */
  lemma WatchRootsMembers(config: WatchConfig, currentDir: string, localDeps: seq<string>, existing: set<string>, x: string)
    ensures x in WatchRootsOf(config, currentDir, localDeps, existing) <==>
              && x in existing
              && ((exists dir :: dir in Fields(config.watchDirs) && x == JoinPath(currentDir, dir))
                  || (exists dep :: dep in localDeps && (x == JoinPath(dep, JavaRoot) || x == JoinPath(dep, ResourcesRoot))))
  {
    var dirs := Fields(config.watchDirs);
    var p := ProjectRoots(currentDir, dirs);
    ExistingMembers(p + DepRoots(localDeps), existing, x);
    DepRootsMembers(localDeps, x);
    if x in p {
      var i :| 0 <= i < |p| && p[i] == x;
      assert dirs[i] in dirs;
    }
    if exists dir :: dir in dirs && x == JoinPath(currentDir, dir) {
      var dir :| dir in dirs && x == JoinPath(currentDir, dir);
      var i :| 0 <= i < |dirs| && dirs[i] == dir;
      assert p[i] == x;
    }
  }

  lemma ExistingStep(ps: seq<string>, x: string, existing: set<string>)
    ensures Existing(ps + [x], existing) == Existing(ps, existing) + (if x in existing then [x] else [])
  {
    assert (ps + [x])[..|ps|] == ps;
  }

  lemma ProjectRootsStep(currentDir: string, dirs: seq<string>, i: nat)
    requires i < |dirs|
    ensures ProjectRoots(currentDir, dirs[..i + 1]) == ProjectRoots(currentDir, dirs[..i]) + [JoinPath(currentDir, dirs[i])]
  {
  }

  lemma DepRootsStep(p: seq<string>, deps: seq<string>, j: nat)
    requires j < |deps|
    ensures p + DepRoots(deps[..j + 1]) == (p + DepRoots(deps[..j]) + [JoinPath(deps[j], JavaRoot)]) + [JoinPath(deps[j], ResourcesRoot)]
  {
    assert deps[..j + 1][..j] == deps[..j];
  }

  /** One iteration of the dependency loop of `startWatcher`, on the specification side. */
  lemma ExistingDepStep(p: seq<string>, deps: seq<string>, j: nat, existing: set<string>)
    requires j < |deps|
    ensures var main := JoinPath(deps[j], JavaRoot);
            var resources := JoinPath(deps[j], ResourcesRoot);
            Existing(p + DepRoots(deps[..j + 1]), existing)
            == Existing(p + DepRoots(deps[..j]), existing)
               + (if main in existing then [main] else [])
               + (if resources in existing then [resources] else [])
  {
    var before := p + DepRoots(deps[..j]);
    var main := JoinPath(deps[j], JavaRoot);
    DepRootsStep(p, deps, j);
    ExistingStep(before, main, existing);
    ExistingStep(before + [main], JoinPath(deps[j], ResourcesRoot), existing);
  }

  /** The first registration loop of `startWatcher`: the configured directories under the project. */
  method AddProjectRoots(currentDir: string, dirs: seq<string>, existing: set<string>)
    returns (roots: seq<string>)
    ensures roots == Existing(ProjectRoots(currentDir, dirs), existing)
  {
    roots := [];
    var i := 0;
    while i < |dirs|
      invariant 0 <= i <= |dirs|
      invariant roots == Existing(ProjectRoots(currentDir, dirs[..i]), existing)
    {
      var dirPath := JoinPath(currentDir, dirs[i]);
      ProjectRootsStep(currentDir, dirs, i);
      ExistingStep(ProjectRoots(currentDir, dirs[..i]), dirPath, existing);
      if dirPath in existing {
        roots := roots + [dirPath];
      }
      i := i + 1;
    }
    assert dirs[..i] == dirs;
  }

  /**
   * The second registration loop of `startWatcher`: the source roots of each
   * local dependency, appended to the roots `roots0` registered from `p`.
   */
  method AddDepRoots(p: seq<string>, localDeps: seq<string>, existing: set<string>, roots0: seq<string>)
    returns (roots: seq<string>)
    requires roots0 == Existing(p, existing)
    ensures roots == Existing(p + DepRoots(localDeps), existing)
  {
    roots := roots0;
    assert p + DepRoots(localDeps[..0]) == p;
    var j := 0;
    while j < |localDeps|
      invariant 0 <= j <= |localDeps|
      invariant roots == Existing(p + DepRoots(localDeps[..j]), existing)
    {
      var dep := localDeps[j];
      var srcMain := JoinPath(dep, JavaRoot);
      var srcResources := JoinPath(dep, ResourcesRoot);
      ExistingDepStep(p, localDeps, j, existing);
      if srcMain in existing {
        roots := roots + [srcMain];
      }
      if srcResources in existing {
        roots := roots + [srcResources];
      }
      j := j + 1;
    }
    assert localDeps[..j] == localDeps;
  }

  /** Watch-root registration at the start of `startWatcher`. */
  method WatchRoots(config: WatchConfig, currentDir: string, localDeps: seq<string>, existing: set<string>)
    returns (roots: seq<string>)
    ensures roots == WatchRootsOf(config, currentDir, localDeps, existing)
  {
    var dirs := Fields(config.watchDirs);
    roots := AddProjectRoots(currentDir, dirs, existing);
    roots := AddDepRoots(ProjectRoots(currentDir, dirs), localDeps, existing, roots);
  }

  // ---------------------------------------------------------------- the event filter and debounce

  /** fsnotify's operation bits. */
  const Create: bv32 := 1
  const Write: bv32 := 2
  const Remove: bv32 := 4
  const Rename: bv32 := 8
  const Chmod: bv32 := 16

  /** One fsnotify event: the path it concerns and its operation bits. */
  datatype Event = Event(name: string, op: bv32)

  /**
   * An event as the loop receives it: the clock reading when it is taken
   * from the channel, and the clock reading `time.Now()` gives once its
   * handler has returned, were it handled. Times are in nanoseconds.
   */
  datatype Arrival = Arrival(event: Event, receivedAt: int, handlerDoneAt: int)

  /** What the `select` of the watch loop receives next: an event, a watcher error, or an end (a signal or a closed channel). */
  datatype Input = FileEvent(arrival: Arrival) | WatcherError | Stop

  /** The event mentions a write, a creation, a removal or a rename. */
  predicate Qualifies(op: bv32)
  {
    op & (Write | Create | Remove | Rename) != 0
  }

  /** A permission change alone is not a relevant event; a write always is. */
  lemma QualifyingOps(op: bv32)
    ensures !Qualifies(Chmod)
    ensures Qualifies(op | Write) && Qualifies(op | Create) && Qualifies(op | Remove) && Qualifies(op | Rename)
  {
  }

  /** Whether an event qualifies does not depend on its permission-change bit. */
  lemma ChmodBitIrrelevant(op: bv32)
    ensures Qualifies(op) <==> Qualifies(op & !Chmod)
  {
  }

  /**
   * `time.Since(lastBuild)` at `now`; `None` is the zero `time.Time`, for
   * which the difference saturates at the largest duration.
   */
  function Elapsed(lastBuild: Option<int>, now: int): int
  {
    match lastBuild
    case None => MaxDuration
    case Some(t) => now - t
  }

  /** The input neither ends the loop nor reaches the handler, whatever the clock says. */
  predicate Quiet(x: Input)
  {
    x.WatcherError? || (x.FileEvent? && !Qualifies(x.arrival.event.op))
  }

  /** The events the watch loop hands to `handleFileChange`, in order, starting from `lastBuild`. */
  function Handled(debounce: Duration, inputs: seq<Input>, lastBuild: Option<int>): seq<Arrival>
    decreases |inputs|
  {
    if inputs == [] then []
    else
      match inputs[0]
      case Stop => []
      case WatcherError => Handled(debounce, inputs[1..], lastBuild)
      case FileEvent(a) =>
        if !Qualifies(a.event.op) || Elapsed(lastBuild, a.receivedAt) < debounce then
          Handled(debounce, inputs[1..], lastBuild)
        else
          [a] + Handled(debounce, inputs[1..], Some(a.handlerDoneAt))
  }

  /**
   * `startWatcher`: register the watch roots, then run the loop over the
   * inputs, dropping irrelevant events and events inside the debounce window,
   * and restarting the window when the handler returns.
   */
  method StartWatcher(config: WatchConfig, currentDir: string, localDeps: seq<string>, existing: set<string>,
                      inputs: seq<Input>)
    returns (roots: seq<string>, handled: seq<Arrival>)
    ensures roots == WatchRootsOf(config, currentDir, localDeps, existing)
    ensures handled == Handled(config.debounceTime, inputs, None)
  {
    roots := WatchRoots(config, currentDir, localDeps, existing);
    ghost var d := config.debounceTime;
    var lastBuild: Option<int> := None;
    handled := [];
    var i := 0;
    while i < |inputs|
      invariant 0 <= i <= |inputs|
      invariant Handled(d, inputs, None) == handled + Handled(d, inputs[i..], lastBuild)
    {
      assert inputs[i..][1..] == inputs[i + 1..];
      match inputs[i] {
        case Stop =>
          return;
        case WatcherError =>
        case FileEvent(a) =>
          if Qualifies(a.event.op) && !(Elapsed(lastBuild, a.receivedAt) < config.debounceTime) {
            handled := handled + [a];
            lastBuild := Some(a.handlerDoneAt);
          }
      }
      i := i + 1;
    }
  }

  /** Each handled event came in as an input and qualifies. */
  lemma {:induction false} HandledQualify(debounce: Duration, inputs: seq<Input>, lastBuild: Option<int>, a: Arrival)
    requires a in Handled(debounce, inputs, lastBuild)
    ensures FileEvent(a) in inputs && Qualifies(a.event.op)
    decreases |inputs|
  {
    assert inputs != [];
    var rest := inputs[1..];
    assert inputs == [inputs[0]] + rest;
    match inputs[0]
    case WatcherError => HandledQualify(debounce, rest, lastBuild, a);
    case FileEvent(b) =>
      if !Qualifies(b.event.op) || Elapsed(lastBuild, b.receivedAt) < debounce {
        HandledQualify(debounce, rest, lastBuild, a);
      } else if a != b {
        HandledQualify(debounce, rest, Some(b.handlerDoneAt), a);
      }
  }

  /** The debounce guarantee: consecutive handled events, and the first against `lastBuild`. */
  predicate Spaced(debounce: Duration, r: seq<Arrival>, lastBuild: Option<int>)
  {
    && (lastBuild.Some? && r != [] ==> r[0].receivedAt - lastBuild.value >= debounce)
    && (forall k :: 0 < k < |r| ==> r[k].receivedAt - r[k - 1].handlerDoneAt >= debounce)
  }

  /**
   * A handled event is received at least the debounce time after the
   * previous handler returned; the window is measured from the end of the
   * previous rebuild.
   */
  lemma {:induction false} HandledAreSpaced(debounce: Duration, inputs: seq<Input>, lastBuild: Option<int>)
    ensures Spaced(debounce, Handled(debounce, inputs, lastBuild), lastBuild)
    decreases |inputs|
  {
    if inputs != [] {
      var rest := inputs[1..];
      match inputs[0]
      case Stop =>
      case WatcherError => HandledAreSpaced(debounce, rest, lastBuild);
      case FileEvent(a) =>
        if !Qualifies(a.event.op) || Elapsed(lastBuild, a.receivedAt) < debounce {
          HandledAreSpaced(debounce, rest, lastBuild);
        } else {
          var tail := Handled(debounce, rest, Some(a.handlerDoneAt));
          HandledAreSpaced(debounce, rest, Some(a.handlerDoneAt));
          var r := [a] + tail;
          assert Handled(debounce, inputs, lastBuild) == r;
          forall k | 0 < k < |r|
            ensures r[k].receivedAt - r[k - 1].handlerDoneAt >= debounce
          {
            if k == 1 {
              assert r[k] == tail[0];
            } else {
              assert r[k] == tail[k - 1] && r[k - 1] == tail[k - 2];
            }
          }
        }
    }
  }

  /** Irrelevant events and watcher errors change nothing: removing one leaves the handled events as they were. */
  lemma {:induction false} QuietInputIgnored(debounce: Duration, a: seq<Input>, x: Input, b: seq<Input>, lastBuild: Option<int>)
    requires Quiet(x)
    ensures Handled(debounce, a + [x] + b, lastBuild) == Handled(debounce, a + b, lastBuild)
    decreases |a|
  {
    if a == [] {
      assert [x] + b == a + [x] + b;
      assert ([x] + b)[1..] == b;
      assert a + b == b;
    } else {
      assert (a + [x] + b)[1..] == a[1..] + [x] + b;
      assert (a + b)[1..] == a[1..] + b;
      assert (a + [x] + b)[0] == a[0] == (a + b)[0];
      match a[0]
      case Stop =>
      case WatcherError => QuietInputIgnored(debounce, a[1..], x, b, lastBuild);
      case FileEvent(e) =>
        QuietInputIgnored(debounce, a[1..], x, b, lastBuild);
        QuietInputIgnored(debounce, a[1..], x, b, Some(e.handlerDoneAt));
    }
  }

  /** The first relevant event after a quiet stretch is always handled: the window starts out open. */
  lemma {:induction false} FirstQualifyingHandled(debounce: Duration, inputs: seq<Input>, k: nat)
    requires k < |inputs| && inputs[k].FileEvent? && Qualifies(inputs[k].arrival.event.op)
    requires forall j :: 0 <= j < k ==> Quiet(inputs[j])
    ensures Handled(debounce, inputs, None) != []
    ensures Handled(debounce, inputs, None)[0] == inputs[k].arrival
    decreases k
  {
    if k > 0 {
      assert Quiet(inputs[0]);
      var rest := inputs[1..];
      assert Handled(debounce, inputs, None) == Handled(debounce, rest, None);
      FirstQualifyingHandled(debounce, rest, k - 1);
    }
  }

  /** The debounce filter lets the event through when the loop's state is `lastBuild`. */
  predicate LetsThrough(debounce: Duration, lastBuild: Option<int>, e: Arrival)
  {
    Qualifies(e.event.op) && Elapsed(lastBuild, e.receivedAt) >= debounce
  }

  /** The loop's `lastBuild` after the inputs, starting from `lastBuild`. */
  function LastBuildAfter(debounce: Duration, inputs: seq<Input>, lastBuild: Option<int>): Option<int>
    decreases |inputs|
  {
    if inputs == [] then lastBuild
    else
      match inputs[0]
      case Stop => lastBuild
      case WatcherError => LastBuildAfter(debounce, inputs[1..], lastBuild)
      case FileEvent(a) =>
        if LetsThrough(debounce, lastBuild, a) then LastBuildAfter(debounce, inputs[1..], Some(a.handlerDoneAt))
        else LastBuildAfter(debounce, inputs[1..], lastBuild)
  }

  /** No input of `a` ends the loop. */
  predicate NoStop(a: seq<Input>)
  {
    forall j :: 0 <= j < |a| ==> !a[j].Stop?
  }

  /** The window restarts when a handler returns: `lastBuild` is the end of the last handled event's handler, if any. */
  lemma {:induction false} LastBuildIsLastHandled(debounce: Duration, a: seq<Input>, lastBuild: Option<int>)
    requires NoStop(a)
    ensures var h := Handled(debounce, a, lastBuild);
      && (h == [] ==> LastBuildAfter(debounce, a, lastBuild) == lastBuild)
      && (h != [] ==> LastBuildAfter(debounce, a, lastBuild) == Some(h[|h| - 1].handlerDoneAt))
    decreases |a|
  {
    if a != [] {
      assert !a[0].Stop?;
      var rest := a[1..];
      assert NoStop(rest) by {
        forall j | 0 <= j < |rest| ensures !rest[j].Stop? { assert rest[j] == a[j + 1]; }
      }
      match a[0]
      case WatcherError => LastBuildIsLastHandled(debounce, rest, lastBuild);
      case FileEvent(x) =>
        if LetsThrough(debounce, lastBuild, x) {
          LastBuildIsLastHandled(debounce, rest, Some(x.handlerDoneAt));
        } else {
          LastBuildIsLastHandled(debounce, rest, lastBuild);
        }
    }
  }

  /** Handling `a` then `b` is handling `a`, then `b` from the state `a` leaves. */
  lemma {:induction false} HandledAppend(debounce: Duration, a: seq<Input>, b: seq<Input>, lastBuild: Option<int>)
    requires NoStop(a)
    ensures Handled(debounce, a + b, lastBuild)
            == Handled(debounce, a, lastBuild) + Handled(debounce, b, LastBuildAfter(debounce, a, lastBuild))
    decreases |a|
  {
    if a == [] {
      assert a + b == b;
    } else {
      var rest := a[1..];
      assert (a + b)[0] == a[0] && (a + b)[1..] == rest + b;
      assert !a[0].Stop?;
      assert NoStop(rest) by {
        forall j | 0 <= j < |rest| ensures !rest[j].Stop? { assert rest[j] == a[j + 1]; }
      }
      match a[0]
      case WatcherError => HandledAppend(debounce, rest, b, lastBuild);
      case FileEvent(x) =>
        if LetsThrough(debounce, lastBuild, x) {
          var s := Some(x.handlerDoneAt);
          HandledAppend(debounce, rest, b, s);
          ConcatAssoc([x], Handled(debounce, rest, s), Handled(debounce, b, LastBuildAfter(debounce, rest, s)));
        } else {
          HandledAppend(debounce, rest, b, lastBuild);
        }
    }
  }

  /**
   * Both directions of the debounce filter at one event: after inputs `a`
   * that do not stop the loop, the event `e` is handled exactly when the
   * filter lets it through from the state `a` leaves, and an event that is
   * not let through is dropped, not queued: the rest continues from the
   * same state.
   */
  lemma HandledAtEvent(debounce: Duration, a: seq<Input>, e: Arrival, b: seq<Input>, lastBuild: Option<int>)
    requires NoStop(a)
    ensures var s := LastBuildAfter(debounce, a, lastBuild);
      LetsThrough(debounce, s, e) ==>
        Handled(debounce, a + [FileEvent(e)] + b, lastBuild)
        == Handled(debounce, a, lastBuild) + [e] + Handled(debounce, b, Some(e.handlerDoneAt))
    ensures var s := LastBuildAfter(debounce, a, lastBuild);
      !LetsThrough(debounce, s, e) ==>
        Handled(debounce, a + [FileEvent(e)] + b, lastBuild)
        == Handled(debounce, a, lastBuild) + Handled(debounce, b, s)
  {
    var s := LastBuildAfter(debounce, a, lastBuild);
    ConcatAssoc(a, [FileEvent(e)], b);
    HandledAppend(debounce, a, [FileEvent(e)] + b, lastBuild);
    assert ([FileEvent(e)] + b)[0] == FileEvent(e) && ([FileEvent(e)] + b)[1..] == b;
    ConcatAssoc(Handled(debounce, a, lastBuild), [e], Handled(debounce, b, Some(e.handlerDoneAt)));
  }

  /** Nothing after an end of the loop is handled. */
  lemma {:induction false} StopEndsWatching(debounce: Duration, a: seq<Input>, b: seq<Input>, lastBuild: Option<int>)
    ensures Handled(debounce, a + [Stop] + b, lastBuild) == Handled(debounce, a, lastBuild)
    decreases |a|
  {
    if a != [] {
      assert (a + [Stop] + b)[1..] == a[1..] + [Stop] + b;
      assert (a + [Stop] + b)[0] == a[0];
      StopEndsWatching(debounce, a[1..], b, lastBuild);
      if a[0].FileEvent? {
        StopEndsWatching(debounce, a[1..], b, Some(a[0].arrival.handlerDoneAt));
      }
    } else {
      assert a + [Stop] + b == [Stop] + b;
    }
  }

  // ---------------------------------------------------------------- handleFileChange

  /** The first local dependency, in list order, whose path is a string prefix of `name`. */
  function ChosenDep(localDeps: seq<string>, name: string): (r: Option<string>)
    ensures r.Some? ==> r.value in localDeps && HasPrefix(name, r.value)
    ensures r.None? <==> forall dep :: dep in localDeps ==> !HasPrefix(name, dep)
  {
    if localDeps == [] then None
    else if HasPrefix(name, localDeps[0]) then Some(localDeps[0])
    else ChosenDep(localDeps[1..], name)
  }

  /** The chosen dependency is the first one that is a prefix, and no later one is considered. */
  lemma {:induction false} ChosenDepIsFirst(localDeps: seq<string>, name: string, k: nat)
    requires k < |localDeps| && HasPrefix(name, localDeps[k])
    requires forall j :: 0 <= j < k ==> !HasPrefix(name, localDeps[j])
    ensures ChosenDep(localDeps, name) == Some(localDeps[k])
    decreases k
  {
    if k > 0 {
      ChosenDepIsFirst(localDeps[1..], name, k - 1);
    }
  }

  /**
   * The match is a plain string prefix: a dependency listed first claims
   * every path that extends its own, including paths under a sibling whose
   * name extends its name and that is listed later.
   */
  lemma PrefixClaimsSibling(dep: string, extra: string, later: seq<string>)
    ensures ChosenDep([dep] + later, dep + extra) == Some(dep)
  {
    assert ([dep] + later)[0] == dep;
    assert (dep + extra)[..|dep|] == dep;
  }

  /** `/w/lib` claims a change under `/w/library`. */
  lemma LibClaimsLibrary()
    ensures ChosenDep(["/w/lib", "/w/library"], "/w/library/src/A.java") == Some("/w/lib")
  {
    PrefixClaimsSibling("/w/lib", "rary/src/A.java", ["/w/library"]);
    assert ["/w/lib"] + ["/w/library"] == ["/w/lib", "/w/library"];
    assert "/w/lib" + "rary/src/A.java" == "/w/library/src/A.java";
  }

  /** What happened to the dependency the change belongs to. */
  datatype DepStep = NoDep | DepSkipped | DepLinked | DepFailed

  /**
   * The effect of one call of `handleFileChange`: the dependency the change
   * belongs to and what became of it, the hash files afterwards, the `mvn`
   * processes started, and the post command handed to the shell, with its
   * variables expanded, if any.
   */
  datatype Handling = Handling(dep: Option<string>, step: DepStep, disk: Disk, builds: seq<Invocation>, post: Option<string>)

  /**
   * The dependency branch of `handleFileChange`: skip an unchanged tree (a
   * failed check counts as changed), otherwise `mvn clean install` it and,
   * after a successful build, commit its new hash, ignoring a failed commit.
   */
  method LinkDependency(host: Host, mvn: Mvn, skipTests: bool, dep: string, disk0: Disk)
    returns (step: DepStep, disk: Disk, builds: seq<Invocation>)
    ensures step != NoDep
    ensures step == DepSkipped <==> UpToDate(host, disk0, dep)
    ensures step == DepFailed <==> !UpToDate(host, disk0, dep) && !mvn(Invocation(dep, InstallArgs(skipTests)))
    ensures step == DepLinked ==> disk == UpdateSrcHash(host, disk0, dep).disk
    ensures step != DepLinked ==> disk == disk0
    ensures step == DepSkipped ==> builds == []
    ensures step != DepSkipped ==> builds == [Invocation(dep, InstallArgs(skipTests))]
  {
    var d := ShouldRebuildDependency(host, disk0, dep);
    var shouldRebuild := d.rebuild;
    if d.failed {
      shouldRebuild := true;
    }
    if !shouldRebuild {
      return DepSkipped, disk0, [];
    }
    var inv := Invocation(dep, InstallArgs(skipTests));
    if !mvn(inv) {
      return DepFailed, disk0, [inv];
    }
    var saved := UpdateSrcHash(host, disk0, dep);
    return DepLinked, saved.disk, [inv];
  }

  /** The search loop of `handleFileChange`: the first dependency whose path prefixes the changed file. */
  method FindChangedDep(localDeps: seq<string>, name: string) returns (dep: Option<string>)
    ensures dep == ChosenDep(localDeps, name)
  {
    var i := 0;
    while i < |localDeps|
      invariant 0 <= i <= |localDeps|
      invariant ChosenDep(localDeps, name) == ChosenDep(localDeps[i..], name)
    {
      assert localDeps[i..][1..] == localDeps[i + 1..];
      if HasPrefix(name, localDeps[i]) {
        return Some(localDeps[i]);
      }
      i := i + 1;
    }
    return None;
  }

  /**
   * `handleFileChange`: rebuild and re-hash the dependency the change belongs
   * to when it changed, giving up if that build fails; otherwise rebuild the
   * project, and run the post command after a successful build.
   */
  method HandleFileChange(event: Event, config: WatchConfig, localDeps: seq<string>, currentDir: string,
                          host: Host, mvn: Mvn, environ: Environment, disk0: Disk)
    returns (r: Handling)
    ensures r.dep == ChosenDep(localDeps, event.name)
    ensures r.step == NoDep <==> r.dep.None?
    ensures r.step == DepSkipped <==> r.dep.Some? && UpToDate(host, disk0, r.dep.value)
    ensures r.step == DepFailed <==>
              r.dep.Some? && !UpToDate(host, disk0, r.dep.value) && !mvn(Invocation(r.dep.value, InstallArgs(config.skipTests)))
    ensures r.step == DepLinked ==> r.disk == UpdateSrcHash(host, disk0, r.dep.value).disk
    ensures r.step != DepLinked ==> r.disk == disk0
    ensures r.step == DepFailed ==> r.builds == [Invocation(r.dep.value, InstallArgs(config.skipTests))] && r.post == None
    ensures r.step == DepLinked ==>
              r.builds == [Invocation(r.dep.value, InstallArgs(config.skipTests)),
                           Invocation(currentDir, MvnBuildArgs(config.buildCommand, config.skipTests))]
    ensures r.step == NoDep || r.step == DepSkipped ==>
              r.builds == [Invocation(currentDir, MvnBuildArgs(config.buildCommand, config.skipTests))]
    ensures r.post.Some? <==>
              r.step != DepFailed && mvn(Invocation(currentDir, MvnBuildArgs(config.buildCommand, config.skipTests)))
              && config.postCommand != ""
    ensures r.post.Some? ==> r.post.value == ExpandEnvVars(config.postCommand, environ)
  {
    var dep := FindChangedDep(localDeps, event.name);
    var step := NoDep;
    var disk := disk0;
    var builds: seq<Invocation> := [];
    if dep.Some? {
      step, disk, builds := LinkDependency(host, mvn, config.skipTests, dep.value, disk0);
      if step == DepFailed {
        return Handling(dep, DepFailed, disk, builds, None);
      }
    }

    var success, project := RunMvnBuild(mvn, currentDir, config.buildCommand, config.skipTests);
    if step == DepLinked {
      assert builds == [Invocation(dep.value, InstallArgs(config.skipTests))];
      builds := [builds[0], project];
    } else {
      builds := [project];
    }
    var post := None;
    if success && config.postCommand != "" {
      post := Some(ExpandEnvVars(config.postCommand, environ));
    }
    return Handling(dep, step, disk, builds, post);
  }
}
