/** The interception session of `clade/intercept.py`: choosing the interception
    artifact, building the child environment, the PATH shim directory of the
    fallback mode, the manually written first record, and the order of effects
    of `execute`. The host (platform, file system, `which`, environment) is an
    explicit parameter. */
module Intercept {

  import opened Wrappers
  import opened Text

  /** Field separator of a command-log line. */
  const Delimiter: string := "||"

  const MissingCommandMessage: string := "Build command is mising"

  /** `sys.platform` values the session distinguishes. */
  const Linux: string := "linux"
  const Darwin: string := "darwin"
  const Windows: string := "win32"

  /** The exceptions the session raises before launching anything. */
  datatype InterceptError =
    | NotImplemented(platform: string)  // NotImplementedError: no native mode on this platform
    | LibinterceptorNotFound            // RuntimeError("libinterceptor is not found")
    | WrapperNotFound                   // RuntimeError("wrapper is not found")
    | ListDirFailed(dir: string)        // OSError from os.listdir on a PATH entry
    | EmptyCommand                      // IndexError on command[0]

  /** What the session observes of its host. */
  datatype Host = Host(
    platform: string,                   // sys.platform
    packageDir: string,                 // os.path.dirname(__file__)
    existing: set<string>,              // os.path.exists
    listing: map<string, seq<string>>,  // os.listdir; a directory absent here cannot be listed
    executable: set<string>,            // os.access(path, os.X_OK)
    which: map<string, string>,         // shutil.which; a name absent here resolves to None
    cwd: string,                        // os.getcwd()
    environ: map<string, string>)       // os.environ

  /** `d.get(k, default)` */
  function Get(d: map<string, string>, k: string, default: string): string {
    if k in d then d[k] else default
  }

  /** `os.path.join(a, b)` on POSIX. */
  function PathJoin(a: string, b: string): (r: string)
    ensures StartsWith(b, "/") ==> r == b
    ensures !StartsWith(b, "/") ==> exists sep :: (sep == "" || sep == "/") && r == a + sep + b
  {
    if |b| > 0 && b[0] == '/' then b
    else if a == "" || a[|a| - 1] == '/' then a + b
    else a + "/" + b
  }

  function ArtifactPath(h: Host, name: string): string {
    PathJoin(PathJoin(h.packageDir, "libinterceptor"), name)
  }

  // ---------------------------------------------------------------------------
  // Artifact selection

  /** `__find_libinterceptor`: the preload library of the native mode. */
  function FindLibinterceptor(h: Host): (r: Result<string, InterceptError>)
    ensures h.platform != Linux && h.platform != Darwin ==> r == Failure(NotImplemented(h.platform))
    ensures h.platform == Linux ==>
              if ArtifactPath(h, "libinterceptor.so") in h.existing
              then r == Success(ArtifactPath(h, "libinterceptor.so"))
              else r == Failure(LibinterceptorNotFound)
    ensures h.platform == Darwin ==>
              if ArtifactPath(h, "libinterceptor.dylib") in h.existing
              then r == Success(ArtifactPath(h, "libinterceptor.dylib"))
              else r == Failure(LibinterceptorNotFound)
  {
    if h.platform != Linux && h.platform != Darwin then Failure(NotImplemented(h.platform))
    else
      var lib := ArtifactPath(h, if h.platform == Linux then "libinterceptor.so" else "libinterceptor.dylib");
      if lib !in h.existing then Failure(LibinterceptorNotFound) else Success(lib)
  }

  /** `__find_wrapper`: the generic wrapper executable of the fallback mode,
      looked up on every platform. */
  function FindWrapper(h: Host): (r: Result<string, InterceptError>)
    ensures r.Success? <==> ArtifactPath(h, "wrapper") in h.existing
    ensures r.Success? ==> r.value == ArtifactPath(h, "wrapper")
    ensures r.Failure? ==> r.error == WrapperNotFound
  {
    var wrapper := ArtifactPath(h, "wrapper");
    if wrapper !in h.existing then Failure(WrapperNotFound) else Success(wrapper)
  }

  // ---------------------------------------------------------------------------
  // The shim directory of the fallback mode

  /** The fresh wrapper directory: link name to link target, the names in the
      order their links were created, and the counter of created links. */
  datatype ShimDir = ShimDir(links: map<string, string>, created: seq<string>, counter: nat)

  /** `os.pathsep`: ';' on Windows, ':' on every other platform. */
  function PathSep(h: Host): char {
    if h.platform == Windows then ';' else ':'
  }

  /** The directories `PATH` names: `os.environ.get("PATH", "").split(os.pathsep)`. */
  function PathDirs(h: Host): (r: seq<string>)
    ensures Join(r, [PathSep(h)]) == Get(h.environ, "PATH", "")
    ensures forall d :: d in r ==> PathSep(h) !in d
  {
    SplitJoin(Get(h.environ, "PATH", ""), PathSep(h));
    Split(Get(h.environ, "PATH", ""), PathSep(h))
  }

  /** `os.listdir(d)` succeeds: the host lists `d`, and `d` is not the empty
      path, which never names a directory. */
  predicate Listable(h: Host, d: string) {
    d != "" && d in h.listing
  }

  /** One directory entry: an executable entry gets a link to the wrapper unless
      a link of that name exists already (FileExistsError is skipped). */
  function AddEntry(h: Host, wrapper: string, sh: ShimDir, dir: string, f: string): ShimDir {
    if PathJoin(dir, f) !in h.executable then sh
    else if f in sh.links then sh
    else ShimDir(sh.links[f := wrapper], sh.created + [f], sh.counter + 1)
  }

  function LinkEntries(h: Host, wrapper: string, sh: ShimDir, dir: string, files: seq<string>): ShimDir
    decreases |files|
  {
    if |files| == 0 then sh
    else LinkEntries(h, wrapper, AddEntry(h, wrapper, sh, dir, files[0]), dir, files[1..])
  }

  /** The scan of every PATH directory; a directory that cannot be listed aborts it. */
  function LinkDirs(h: Host, wrapper: string, sh: ShimDir, dirs: seq<string>): Result<ShimDir, InterceptError>
    decreases |dirs|
  {
    if |dirs| == 0 then Success(sh)
    else if !Listable(h, dirs[0]) then Failure(ListDirFailed(dirs[0]))
    else LinkDirs(h, wrapper, LinkEntries(h, wrapper, sh, dirs[0], h.listing[dirs[0]]), dirs[1..])
  }

  // Reference definition of the shim directory.

  /** The entries of `files` that are executable in `dir`, in listing order. */
  function ExecutableIn(h: Host, dir: string, files: seq<string>): (r: seq<string>)
    ensures forall n :: n in r <==> n in files && PathJoin(dir, n) in h.executable
  {
    if |files| == 0 then []
    else
      assert files == [files[0]] + files[1..];
      (if PathJoin(dir, files[0]) in h.executable then [files[0]] else []) + ExecutableIn(h, dir, files[1..])
  }

  predicate AllListable(h: Host, dirs: seq<string>) {
    forall d :: d in dirs ==> Listable(h, d)
  }

  /** All executable names on the PATH, in scan order, repetitions included. */
  function ExecutableNames(h: Host, dirs: seq<string>): (r: seq<string>)
    requires AllListable(h, dirs)
    ensures forall n :: n in r <==>
              exists d :: d in dirs && n in h.listing[d] && PathJoin(d, n) in h.executable
  {
    if |dirs| == 0 then []
    else
      var rest := ExecutableNames(h, dirs[1..]);
      assert dirs == [dirs[0]] + dirs[1..];
      assert Listable(h, dirs[0]);
      ExecutableIn(h, dirs[0], h.listing[dirs[0]]) + rest
  }

  /** Each element of `s` once, at its first occurrence. */
  function FirstOccurrences(s: seq<string>): (r: seq<string>)
    ensures NoDup(r)
    ensures forall x :: x in r <==> x in s
  {
    if |s| == 0 then []
    else
      var init := s[..|s| - 1];
      var last := s[|s| - 1];
      assert s == init + [last];
      var p := FirstOccurrences(init);
      if last in init then p else p + [last]
  }

  /** The shim directory the scan produces from the executable names `ns`. */
  function Canonical(wrapper: string, ns: seq<string>): ShimDir {
    var firsts := FirstOccurrences(ns);
    ShimDir(map n | n in ns :: wrapper, firsts, |firsts|)
  }

  lemma AddEntryCanonical(h: Host, wrapper: string, ns: seq<string>, dir: string, f: string)
    ensures AddEntry(h, wrapper, Canonical(wrapper, ns), dir, f)
            == Canonical(wrapper, ns + (if PathJoin(dir, f) in h.executable then [f] else []))
  {
    if PathJoin(dir, f) in h.executable {
      var ns' := ns + [f];
      assert ns'[..|ns'| - 1] == ns;
      assert (map n | n in ns' :: wrapper) == (map n | n in ns :: wrapper)[f := wrapper];
    } else {
      assert ns + [] == ns;
    }
  }

  lemma {:induction false} LinkEntriesCanonical(h: Host, wrapper: string, ns: seq<string>, dir: string, files: seq<string>)
    ensures LinkEntries(h, wrapper, Canonical(wrapper, ns), dir, files)
            == Canonical(wrapper, ns + ExecutableIn(h, dir, files))
    decreases |files|
  {
    if |files| == 0 {
      assert ns + [] == ns;
    } else {
      var step := if PathJoin(dir, files[0]) in h.executable then [files[0]] else [];
      var later := ExecutableIn(h, dir, files[1..]);
      calc {
        LinkEntries(h, wrapper, Canonical(wrapper, ns), dir, files);
        LinkEntries(h, wrapper, AddEntry(h, wrapper, Canonical(wrapper, ns), dir, files[0]), dir, files[1..]);
        { AddEntryCanonical(h, wrapper, ns, dir, files[0]); }
        LinkEntries(h, wrapper, Canonical(wrapper, ns + step), dir, files[1..]);
        { LinkEntriesCanonical(h, wrapper, ns + step, dir, files[1..]); }
        Canonical(wrapper, ns + step + later);
        { assert ExecutableIn(h, dir, files) == step + later;
          assert ns + step + later == ns + ExecutableIn(h, dir, files); }
        Canonical(wrapper, ns + ExecutableIn(h, dir, files));
      }
    }
  }

  /** The index of the first directory that cannot be listed. */
  predicate FirstUnlistable(h: Host, dirs: seq<string>, i: int) {
    && 0 <= i < |dirs|
    && !Listable(h, dirs[i])
    && forall j :: 0 <= j < i ==> Listable(h, dirs[j])
  }

  lemma {:induction false} LinkDirsCanonical(h: Host, wrapper: string, ns: seq<string>, dirs: seq<string>)
    ensures AllListable(h, dirs) ==>
              LinkDirs(h, wrapper, Canonical(wrapper, ns), dirs)
              == Success(Canonical(wrapper, ns + ExecutableNames(h, dirs)))
    ensures !AllListable(h, dirs) ==>
              exists i :: FirstUnlistable(h, dirs, i)
                          && LinkDirs(h, wrapper, Canonical(wrapper, ns), dirs) == Failure(ListDirFailed(dirs[i]))
    decreases |dirs|
  {
    if |dirs| == 0 {
      assert ns + [] == ns;
    } else {
      assert dirs == [dirs[0]] + dirs[1..];
      if !Listable(h, dirs[0]) {
        assert FirstUnlistable(h, dirs, 0);
      } else {
        var here := ExecutableIn(h, dirs[0], h.listing[dirs[0]]);
        LinkEntriesCanonical(h, wrapper, ns, dirs[0], h.listing[dirs[0]]);
        LinkDirsCanonical(h, wrapper, ns + here, dirs[1..]);
        if AllListable(h, dirs) {
          assert ns + here + ExecutableNames(h, dirs[1..]) == ns + ExecutableNames(h, dirs);
        } else {
          var i :| FirstUnlistable(h, dirs[1..], i)
                   && LinkDirs(h, wrapper, Canonical(wrapper, ns + here), dirs[1..]) == Failure(ListDirFailed(dirs[1..][i]));
          assert dirs[i + 1] == dirs[1..][i];
          forall j | 0 <= j < i + 1 ensures Listable(h, dirs[j]) {
            if j > 0 {
              assert dirs[j] == dirs[1..][j - 1];
            }
          }
          assert FirstUnlistable(h, dirs, i + 1);
        }
      }
    }
  }

  /** `__crete_wrappers`: the scan over the PATH directories into a fresh, empty
      directory. It succeeds exactly when every PATH entry can be listed; then a
      name is linked exactly when some PATH directory lists an executable entry
      of that name, every link targets the wrapper, links are created once per
      name at its first occurrence in PATH order (later ones are skipped), and
      the counter equals the number of links. */
  function CreateWrappers(h: Host, wrapper: string): (r: Result<ShimDir, InterceptError>)
    ensures r.Success? <==> AllListable(h, PathDirs(h))
    ensures r.Failure? ==> exists i :: FirstUnlistable(h, PathDirs(h), i) && r.error == ListDirFailed(PathDirs(h)[i])
    ensures r.Success? ==>
              && (forall n :: n in r.value.links <==>
                    exists d :: d in PathDirs(h) && Listable(h, d) && n in h.listing[d] && PathJoin(d, n) in h.executable)
              && (forall n :: n in r.value.links ==> r.value.links[n] == wrapper)
              && r.value.created == FirstOccurrences(ExecutableNames(h, PathDirs(h)))
              && r.value.counter == |r.value.links|
  {
    var dirs := PathDirs(h);
    var none: seq<string> := [];
    assert (map n | n in none :: wrapper) == map[];
    assert Canonical(wrapper, none) == ShimDir(map[], [], 0);
    LinkDirsCanonical(h, wrapper, none, dirs);
    var r := LinkDirs(h, wrapper, ShimDir(map[], [], 0), dirs);
    if AllListable(h, dirs) then
      var names := ExecutableNames(h, dirs);
      assert none + names == names;
      var firsts := FirstOccurrences(names);
      NoDupCard(firsts);
      assert r.value.links.Keys == Elems(firsts);
      r
    else
      r
  }

  /** With PATH unset, the scan lists the empty path and fails on it. */
  lemma UnsetPathFails(h: Host, wrapper: string)
    requires "PATH" !in h.environ
    ensures CreateWrappers(h, wrapper) == Failure(ListDirFailed(""))
  {
    assert PathDirs(h) == [""];
    assert FirstUnlistable(h, PathDirs(h), 0);
  }

  /** An empty PATH entry (a leading, doubled or trailing separator) makes the
      whole scan fail: it fails on that entry or on an earlier one. */
  lemma EmptyPathEntryFails(h: Host, wrapper: string)
    requires "" in PathDirs(h)
    ensures CreateWrappers(h, wrapper).Failure?
  {
    assert !Listable(h, "");
  }

  // ---------------------------------------------------------------------------
  // The child environment

  /** The keys `__setup_env` assigns in each mode. */
  function AssignedKeys(fallback: bool, platform: string): set<string> {
    if fallback then {"PATH", "CLADE_INTERCEPT_FALLBACK"}
    else if platform == Darwin then {"DYLD_INSERT_LIBRARIES", "DYLD_FORCE_FLAT_NAMESPACE", "CLADE_INTERCEPT"}
    else if platform == Linux then {"LD_PRELOAD", "CLADE_INTERCEPT"}
    else {"CLADE_INTERCEPT"}
  }

  /** `__setup_env`: a copy of the inherited environment with the mode's keys
      set; `artifact` is the library (native) or the wrapper (fallback) and
      `shimDir` the directory the fallback scan filled. The shim directory is
      put before PATH with a literal ':' on every platform, although PATH was
      split on `os.pathsep`. */
  function SetupEnv(h: Host, fallback: bool, artifact: string, output: string, shimDir: string): (r: map<string, string>)
    ensures r.Keys == h.environ.Keys + AssignedKeys(fallback, h.platform)
    ensures forall k :: k in h.environ && k !in AssignedKeys(fallback, h.platform) ==> r[k] == h.environ[k]
    ensures !fallback && h.platform == Linux ==>
              r["LD_PRELOAD"] == artifact && r["CLADE_INTERCEPT"] == output
    ensures !fallback && h.platform == Darwin ==>
              && r["DYLD_INSERT_LIBRARIES"] == artifact
              && r["DYLD_FORCE_FLAT_NAMESPACE"] == "1"
              && r["CLADE_INTERCEPT"] == output
    ensures fallback ==>
              r["PATH"] == shimDir + ":" + Get(h.environ, "PATH", "") && r["CLADE_INTERCEPT_FALLBACK"] == output
  {
    var env := h.environ;
    var env := if !fallback then
      (if h.platform == Darwin then env["DYLD_INSERT_LIBRARIES" := artifact]["DYLD_FORCE_FLAT_NAMESPACE" := "1"]
       else if h.platform == Linux then env["LD_PRELOAD" := artifact]
       else env)
    else env["PATH" := shimDir + ":" + Get(h.environ, "PATH", "")];
    if !fallback then env["CLADE_INTERCEPT" := output] else env["CLADE_INTERCEPT_FALLBACK" := output]
  }

  // ---------------------------------------------------------------------------
  // The session

  /** A constructed `Interceptor`. `shims` is present in fallback mode only. */
  datatype Interceptor = Interceptor(
    command: seq<string>,
    output: string,
    fallback: bool,
    artifact: string,
    shims: Option<ShimDir>,
    env: map<string, string>)

  /** `Interceptor.__init__`; `output` is already absolute and `tmpDir` is the
      fresh directory `tempfile.mkdtemp` returned. The command is not checked. */
  function NewInterceptor(h: Host, command: seq<string>, output: string, fallback: bool, tmpDir: string)
    : (r: Result<Interceptor, InterceptError>)
    ensures !fallback ==>
              if FindLibinterceptor(h).Failure? then r == Failure(FindLibinterceptor(h).error)
              else r.Success? && r.value.artifact == FindLibinterceptor(h).value && r.value.shims.None?
    ensures fallback && ArtifactPath(h, "wrapper") !in h.existing ==> r == Failure(WrapperNotFound)
    ensures fallback && ArtifactPath(h, "wrapper") in h.existing ==>
              && (r.Success? <==> AllListable(h, PathDirs(h)))
              && (r.Failure? ==> r.error == CreateWrappers(h, ArtifactPath(h, "wrapper")).error)
              && (r.Success? ==> r.value.artifact == ArtifactPath(h, "wrapper")
                                 && r.value.shims == Some(CreateWrappers(h, ArtifactPath(h, "wrapper")).value))
    ensures r.Success? ==>
              && r.value.command == command && r.value.output == output && r.value.fallback == fallback
              && r.value.env == SetupEnv(h, fallback, r.value.artifact, output, tmpDir)
  {
    if fallback then
      var wrapper :- FindWrapper(h);
      var shims :- CreateWrappers(h, wrapper);
      Success(Interceptor(command, output, true, wrapper, Some(shims), SetupEnv(h, true, wrapper, output, tmpDir)))
    else
      var lib :- FindLibinterceptor(h);
      Success(Interceptor(command, output, false, lib, None, SetupEnv(h, false, lib, output, tmpDir)))
  }

  /** A constructed session only points its child at artifacts that exist: the
      preload variable names the library found, and every shim links to the
      wrapper found. */
  lemma NewInterceptorArtifactExists(h: Host, command: seq<string>, output: string, fallback: bool, tmpDir: string)
    requires NewInterceptor(h, command, output, fallback, tmpDir).Success?
    ensures var i := NewInterceptor(h, command, output, fallback, tmpDir).value;
            && i.artifact in h.existing
            && (!fallback ==> h.platform == Linux || h.platform == Darwin)
            && (!fallback && h.platform == Linux ==> i.env["LD_PRELOAD"] in h.existing)
            && (!fallback && h.platform == Darwin ==> i.env["DYLD_INSERT_LIBRARIES"] in h.existing)
            && (fallback ==> i.shims.Some? && forall n :: n in i.shims.value.links ==> i.shims.value.links[n] in h.existing)
  {
  }

  /** The manually written first record:
      `DELIMITER.join([os.getcwd(), which] + command) + "\n"`. */
  function FirstCommandLine(cwd: string, which: string, command: seq<string>): (line: string)
    ensures |line| > 0 && line[|line| - 1] == '\n'
    ensures (forall f :: f in [cwd, which] + command ==> '|' !in f) ==>
              SplitFields(line[..|line| - 1]) == [cwd, which] + command
  {
    var fields := [cwd, which] + command;
    var body := Join(fields, Delimiter);
    var line := body + "\n";
    assert line[..|line| - 1] == body;
    if forall f :: f in fields ==> '|' !in f then
      SplitFieldsJoin(fields);
      line
    else
      line
  }

  /** `shutil.which` found the program: a result that is None or empty is falsy. */
  predicate Resolves(h: Host, program: string) {
    program in h.which && h.which[program] != ""
  }

  /** What `execute` does, in order. */
  datatype Effect =
    | AppendLine(path: string, line: string)               // one line appended to the command log
    | Launch(command: seq<string>, env: map<string, string>) // subprocess.run(command, env=env)

  /** `execute`: in native mode the first record is appended, when `which`
      resolves the program, before the command is launched; the fallback mode
      writes nothing itself. An empty command fails on `command[0]`. */
  function Execute(i: Interceptor, h: Host): (r: Result<seq<Effect>, InterceptError>)
    ensures |i.command| == 0 <==> r == Failure(EmptyCommand)
    ensures r.Success? ==>
              && |r.value| >= 1
              && r.value[|r.value| - 1] == Launch(i.command, i.env)
              && (forall k :: 0 <= k < |r.value| - 1 ==> r.value[k].AppendLine?)
    ensures r.Success? ==> (|r.value| == 2 <==> !i.fallback && Resolves(h, i.command[0]))
    ensures r.Success? && (i.fallback || !Resolves(h, i.command[0])) ==> r.value == [Launch(i.command, i.env)]
    ensures r.Success? && !i.fallback && Resolves(h, i.command[0]) ==>
              r.value == [AppendLine(i.output, FirstCommandLine(h.cwd, h.which[i.command[0]], i.command)),
                          Launch(i.command, i.env)]
  {
    if |i.command| == 0 then Failure(EmptyCommand)
    else
      var first := if !i.fallback && Resolves(h, i.command[0])
        then [AppendLine(i.output, FirstCommandLine(h.cwd, h.which[i.command[0]], i.command))]
        else [];
      Success(first + [Launch(i.command, i.env)])
  }

  /** The record `execute` appends reads back, split on the delimiter, as the
      working directory, the resolved program and the command. */
  lemma ExecuteRecordSplitsBack(i: Interceptor, h: Host)
    requires Execute(i, h).Success? && |Execute(i, h).value| == 2
    requires forall f :: f in [h.cwd, h.which[i.command[0]]] + i.command ==> '|' !in f
    ensures Execute(i, h).value[0].AppendLine?
    ensures var line := Execute(i, h).value[0].line;
            && |line| > 0 && line[|line| - 1] == '\n'
            && SplitFields(line[..|line| - 1]) == [h.cwd, h.which[i.command[0]]] + i.command
  {
  }

  // ---------------------------------------------------------------------------
  // Command line

  /** The arguments argparse produced; argparse itself is not modelled. */
  datatype CliArgs = CliArgs(output: string, debug: bool, fallback: bool, command: seq<string>)

  /** The check `parse_args` adds after argparse: an empty trailing command exits. */
  function ParseArgs(args: CliArgs): (r: Result<CliArgs, string>)
    ensures r.Failure? <==> |args.command| == 0
    ensures r.Failure? ==> r.error == MissingCommandMessage
    ensures r.Success? ==> r.value == args
  {
    if |args.command| == 0 then Failure(MissingCommandMessage) else Success(args)
  }

  datatype MainOutcome =
    | Exited(message: string)       // sys.exit(message) from parse_args
    | Raised(error: InterceptError) // an exception escaped the session
    | Ran(effects: seq<Effect>)     // execute ran; the exit code is the child's

  /** `main`: parse, construct the session, execute. */
  function Main(h: Host, args: CliArgs, tmpDir: string): (r: MainOutcome)
    ensures |args.command| == 0 ==> r == Exited(MissingCommandMessage)
    ensures |args.command| > 0 ==>
              && !r.Exited?
              && (r.Ran? <==> NewInterceptor(h, args.command, args.output, args.fallback, tmpDir).Success?)
              && (r.Ran? ==> |r.effects| > 0 && r.effects[|r.effects| - 1].Launch?
                             && r.effects[|r.effects| - 1].command == args.command)
    ensures |args.command| > 0 && r.Raised? ==>
              r.error == NewInterceptor(h, args.command, args.output, args.fallback, tmpDir).error
    ensures |args.command| > 0 && r.Ran? ==>
              r.effects == Execute(NewInterceptor(h, args.command, args.output, args.fallback, tmpDir).value, h).value
  {
    match ParseArgs(args)
    case Failure(message) => Exited(message)
    case Success(a) =>
      match NewInterceptor(h, a.command, a.output, a.fallback, tmpDir)
      case Failure(e) => Raised(e)
      case Success(i) =>
        match Execute(i, h)
        case Failure(e) => Raised(e)
        case Success(effects) => Ran(effects)
  }
}
