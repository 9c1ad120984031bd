# Clade interception core in Dafny

Clade intercepts the commands a build runs and writes one record per command
to a command log. This project models the parts of that pipeline that decide
what ends up recorded and how it is read back:

- **Parent-id graph** (`pid_graph.dfy`, module `PidGraph`). `PidGraph.parse`
  makes one forward pass over the command log. It records each command's
  parent id (`pid_by_id`) and the chain of its ancestor ids, nearest first
  (`graph`).
- **Ancestry filter** (`pid_filter.dfy`, module `PidFilter`).
  `filter_cmds_by_pid` sorts a subset of commands by numeric id, which is a
  stable sort. It then drops every command that has an ancestor among the
  subset commands processed before it.
- **Interception session** (`intercept.dfy`, module `Intercept`). This covers:
  - choosing the preload library (native mode) or the wrapper executable
    (fallback mode);
  - the PATH shim directory of the fallback mode;
  - the child environment;
  - the first record that native mode writes by hand;
  - the order of effects of `execute`;
  - the empty-command check of the command line.
- **Preset merging** (`presets.dfy`, module `Presets`). `merge_preset_to_conf`
  layers a configuration over a named preset. That preset is in turn layered
  over the preset it `extends`.
- **Program version** (`version.dfy`, module `Version`). `get_program_version`
  strips the output. For gcc it also drops the copyright notice.
- **Shared helpers.** `text.dfy` (module `Text`) implements the forms of
  Python's string methods the code uses: `s.split(c)` with a one-character
  separator, `str.join`, the no-argument `str.strip`, `startswith`, and
  splitting on `"||"`. `wrappers.dfy` provides `Option` and `Result`.

Everything the code takes from the host is a parameter, the datatype `Host`:
- the platform;
- the package directory;
- `os.path.exists`, `os.listdir` and `os.access`;
- `shutil.which`;
- the working directory and `os.environ`.

Other inputs are parameters too:
- the presets table (instead of `presets.json`);
- the loaded graph (instead of `pid_graph.json`);
- the captured output of a version query (absent when the run failed: it
  could not start, exited non-zero, or its output could not be decoded).

Ids and pids are natural numbers. The log stores them as strings, but the
filter sorts them with `int()`.

The main operations are paired with a reference definition and lemmas that connect
the two:
- `parse` is related to parent-pointer ancestry (`Ancestors`).
- The filter loop is related to a declarative "kept" predicate (`Kept`,
  `Dedup`).
- The shim scan is related to the first occurrences of the executable names
  on the PATH (`Canonical`).
- Preset merging is related to a stack of layers where the first layer that
  has a key wins (`Resolve`, `Layers`).

What the code does in the corner cases, which the model follows:

- **Unlistable PATH directories.** `__crete_wrappers` calls `os.listdir` on
  every PATH entry without a guard (clade/intercept.py:93). One entry that
  cannot be listed therefore aborts the scan and the session; `CreateWrappers`
  models that as `ListDirFailed`. The empty path cannot be listed either. An
  unset PATH splits into the single entry `""`, and an empty PATH entry (a
  leading, doubled or trailing separator) is one too, so in both cases the
  fallback mode fails (`UnsetPathFails`, `EmptyPathEntryFails`).
- **PATH separators.** PATH is split on `os.pathsep` (clade/intercept.py:88),
  which is ';' on Windows and ':' elsewhere. The shim directory is put in front
  of PATH with a literal ':' on every platform (clade/intercept.py:117).
- **Misordered logs.** `parse` checks nothing about the order of the log
  (clade/extensions/pid_graph.py:45-48):
  - a record whose parent has no entry yet gets the one-element chain `[pid]`;
  - a repeated id overwrites the earlier entry.

  `Step` and `ParsePidByIdLastWins` model exactly that. The ordering of the log
  is a premise of the ancestry lemma, not an error path.
- **Subset commands missing from the graph.** `filter_cmds_by_pid` indexes the
  graph without a guard (clade/extensions/pid_graph.py:88). It raises
  `KeyError` on the first subset command, in id order, that has no graph
  entry. `FilterCmdsByPid` returns `KeyError` with the smallest missing id.

## Model

| member | source | states |
|---|---|---|
| PidGraph.Step | clade/extensions/pid_graph.py:46-48 | Processing one record records its parent and sets its chain to the parent followed by the parent's chain as known at that moment (empty when the parent has no entry). Every other entry is unchanged. |
| PidGraph.Parse | clade/extensions/pid_graph.py:41-58 | The dumped maps are the ones the loop builds, so the ancestry and chain-head lemmas about the loop apply to them; their keys are exactly the previously known ids plus the ids of the log. Both in-memory maps are empty afterwards. |
| PidGraph.ParsePidByIdLastWins | clade/extensions/pid_graph.py:45-46 | After the pass, every id maps to the parent of the last record carrying it. Ids the log does not mention keep their earlier value. |
| PidGraph.ParseChainHeads | clade/extensions/pid_graph.py:45-48 | Every chain the pass writes is non-empty and starts with that id's recorded parent. Both maps have the same keys. |
| PidGraph.ParseBuildsAncestry | clade/extensions/pid_graph.py:45-48 | The log may have strictly increasing ids and parents below their children. Then one pass from empty maps gives every id a chain equal to its full parent-pointer ancestry. |
| PidFilter.SortById | clade/extensions/pid_graph.py:87 | The sort by numeric id yields an id-ordered permutation of its input. |
| PidFilter.SortStable | clade/extensions/pid_graph.py:87 | The sort is stable: the commands that share an id keep their input order. |
| PidFilter.FilterCmdsByPid | clade/extensions/pid_graph.py:81-93 | Fails exactly when some subset command's id is missing from the graph, reporting the smallest missing id (the KeyError at line 88). Otherwise returns the commands of the id-sorted subset that have no earlier subset member among their ancestors. |
| PidFilter.FilterKeptIff | clade/extensions/pid_graph.py:87-91 | A command is in the output if and only if no command processed before it in id order, kept or dropped, has its id in the command's chain. |
| PidFilter.FilterOrdered | clade/extensions/pid_graph.py:85-93 | The output is a subsequence of the input sorted by id, so it is in ascending id order. |
| PidFilter.FilterOutputFromInput | clade/extensions/pid_graph.py:85-93 | Every output command is an input command whose id has an entry in the graph. |
| PidFilter.FilterKeepsSmallest | clade/extensions/pid_graph.py:84-89 | On a non-empty subset wholly in the graph, the command with the smallest id is always kept and comes first. |
| PidFilter.FilterIndependentInput | clade/extensions/pid_graph.py:84-93 | When no subset id occurs in any subset command's chain, nothing is dropped and the output is the subset sorted by id. |
| PidFilter.FilterIdempotent | clade/extensions/pid_graph.py:81-93 | Filtering an already filtered list returns it unchanged. |
| PidFilter.ExampleParse | clade/extensions/pid_graph.py:45-48 | One pass over the example log (make runs sh, sh runs gcc, make runs a second gcc) from empty maps gives each command the chain of its ancestors: 1 to [0], 2 to [1, 0], 3 to [2, 1, 0], 4 to [1, 0]. |
| PidFilter.ExampleFilterAll | clade/extensions/pid_graph.py:81-93 | make runs sh, sh runs gcc and make runs a second gcc. Filtering all four commands keeps make alone. |
| PidFilter.ExampleFilterGcc | clade/extensions/pid_graph.py:81-93 | Filtering only the two gcc commands keeps both, because neither is the other's ancestor. |
| Intercept.FindLibinterceptor | clade/intercept.py:54-67 | Linux uses `libinterceptor.so` and macOS uses `libinterceptor.dylib`, under the package's `libinterceptor` directory. A missing file is an error. Any other `sys.platform` value fails with NotImplemented naming that value. |
| Intercept.FindWrapper | clade/intercept.py:69-77 | On every platform, succeeds with the path of `libinterceptor/wrapper` exactly when that file exists. Otherwise it fails with WrapperNotFound. |
| Intercept.PathDirs | clade/intercept.py:88 | The PATH directories joined back with `os.pathsep` (';' on Windows, ':' elsewhere) give PATH (empty when unset), and no directory contains that separator. |
| Intercept.CreateWrappers | clade/intercept.py:79-103 | Succeeds exactly when every PATH directory can be listed (the empty path never can); otherwise it reports the first one that cannot. A link is created under a name exactly when some PATH directory holds an executable entry of that name, and every link targets the wrapper. Links are created once per name, in PATH order (later ones are skipped), and the counter equals the number of links. |
| Intercept.UnsetPathFails | clade/intercept.py:88-93 | With PATH unset, the scan lists the empty path and fails with ListDirFailed(""). |
| Intercept.EmptyPathEntryFails | clade/intercept.py:88-93 | A PATH with an empty entry makes the scan fail. |
| Intercept.SetupEnv | clade/intercept.py:105-128 | The child environment is the inherited one plus each mode's keys, and no other key changes. Linux sets LD_PRELOAD and macOS sets DYLD_INSERT_LIBRARIES and DYLD_FORCE_FLAT_NAMESPACE=1; both set CLADE_INTERCEPT. Fallback puts the shim directory before PATH, joined with ':' on every platform, and sets CLADE_INTERCEPT_FALLBACK. |
| Intercept.NewInterceptor | clade/intercept.py:41-52 | Native mode fails exactly as the library lookup fails. Fallback mode fails with WrapperNotFound when the wrapper is missing, and otherwise with the scan's error when a PATH directory cannot be listed. On success the session keeps the command, output and mode, carries the environment built for its artifact, and in fallback mode holds exactly the shim directory the scan built. |
| Intercept.NewInterceptorArtifactExists | clade/intercept.py:54-77 | A constructed session points its child only at files that exist: LD_PRELOAD (Linux) or DYLD_INSERT_LIBRARIES (macOS) names an existing library, and in fallback mode every shim links to the existing wrapper. Native mode succeeds only on Linux and macOS. |
| Intercept.FirstCommandLine | clade/intercept.py:130-138 | The hand-written record ends in a newline. When no field contains a vertical bar, splitting it on the double-bar delimiter gives back the working directory, the resolved program and the command. |
| Intercept.Execute | clade/intercept.py:140-153 | An empty command fails. Otherwise the launch of the command with the session environment is the last effect. It is preceded by exactly one append to the output log if and only if the mode is native and `which` resolves the program, and that append holds the first record. Otherwise the launch is the only effect. |
| Intercept.ExecuteRecordSplitsBack | clade/intercept.py:130-148 | The record `execute` appends ends in a newline and, when no field contains a vertical bar, splits on the double-bar delimiter into the working directory, the resolved program and the command. |
| Intercept.ParseArgs | clade/intercept.py:166-169 | An empty command exits with "Build command is mising"; any other arguments pass through unchanged. |
| Intercept.Main | clade/intercept.py:172-182 | An empty command exits before a session exists. Otherwise the session runs exactly when it can be constructed, and a construction error is the one raised. The effects are exactly those of `execute` on the constructed session, so the last one launches the given command in the session's environment. |
| Presets.MergePresetToConf | clade/utils.py:62-81 | An unknown name fails with "not found". On success the result is the configuration layered over the chain of presets, where the first layer holding a key wins. The configuration's own entries win, and the named preset's other entries are retained. Running out of calls happens exactly when the extends chain repeats a preset, as Python's unbounded recursion does on a cycle. |
| Presets.MergeSucceeds | clade/utils.py:62-81 | The merge succeeds when every preset on the `extends` chain is in the table, every truthy `extends` is a preset name, and the chain does not repeat a preset. |
| Presets.MergeNonStringParent | clade/utils.py:68-77 | When the `extends` chain, at any depth, reaches a truthy `extends` that is not a string, the merge fails: with TypeError (Unhashable) for a list or an object, and as "not found" naming the value otherwise. |
| Presets.MergeWithoutParent | clade/utils.py:73-81 | A preset with a falsy `extends` is exactly updated with the configuration. |
| Presets.MergeUnknownParent | clade/utils.py:70-77 | When the `extends` chain, at any depth, names a preset the table lacks, the merge fails like an unknown top-level name, naming that preset. |
| Presets.PresetOverridesParent | clade/utils.py:74-79 | The parent's entries all reach the result. They survive unless the preset itself or the configuration sets the same key. |
| Version.StripCopyright | clade/utils.py:107-108 | The result is a prefix of the input. Either it is the whole input, or the input continues with "\nCopyright" right after it, at the first such occurrence. The result contains no "\nCopyright". |
| Version.ProgramVersion | clade/utils.py:100-109 | A failed run gives "unknown". Output not starting with "gcc" is returned stripped. A gcc version is cut before its first "\nCopyright". |
| Text.Strip | clade/utils.py:105 | The result is a slice of the input, with only whitespace (Python's `isspace`) removed on either side. It neither starts nor ends with whitespace. |
| Text.SplitJoin | clade/intercept.py:88 | Splitting on a character and joining back with it gives the original string, and no piece contains the separator. |
| Text.SplitFieldsJoin | clade/intercept.py:138 | Fields joined by the double-bar delimiter, none of which contains a vertical bar, split back into exactly those fields. |

## Left out

- Process and file I/O are parameters or left out. This covers `subprocess.run`, `subprocess.check_output`, `tempfile.mkdtemp`, `shutil.rmtree`, `os.makedirs`, `os.symlink`, appending to the log file, and `json` dump/load.
- The child's exit code is left out. `Main` ends with the list of effects, and the exit code is whatever the launched child returns.
- `os.path.abspath` of the output path is not modelled; the output path is taken as already absolute.
- `argparse` itself is not modelled. `ParseArgs` starts from the parsed arguments and models only the empty-command check.
- Logging, the debug flag, the graphviz picture of the graph, `load_pid_graph`/`load_pid_by_id` file handling, and `get_clade_version` are left out. None of them affects the recorded commands.
- `clade/libinterceptor/wrapper.c` is not part of this model. It is the wrapper executable of the fallback mode: `__find_wrapper` looks up `libinterceptor/wrapper` (clade/intercept.py:70), and every shim links to it (clade/intercept.py:96). It writes the records of the commands the shims catch.
- The preload libraries `libinterceptor.so` and `libinterceptor.dylib`, which write the records in native mode, are not part of this model either; the model only checks that they exist and names them in the environment.
- PidGraph.Parse: the `@Extension.prepare` decorator (clade/extensions/pid_graph.py:41) and the `get_last_id(cmds_file, raise_exception=True)` call that only feeds the log message (clade/extensions/pid_graph.py:43) are left out. Either can raise before the loop; the model starts at the loop.
- Intercept.PathJoin: models POSIX `os.path.join` only. On Windows, where only the fallback mode is available, `os.path.join` is `ntpath.join`, which is not modelled; the separator `os.pathsep` itself is modelled (`PathSep`).
- Concurrency is left out. This includes concurrent runs racing to create the same link; the model's skip-on-existing rule covers the outcome within one scan.
- Presets.MergePresetToConf: Python's recursion limit (about 1000 frames) is replaced by one call per preset in the table. An acyclic chain longer than the interpreter's limit, which Python would reject, succeeds in the model.
- Presets.MergePresetToConf: JSON numbers are integers only; floating point is not modelled.
- Intercept.Execute: in fallback mode an empty command fails inside `subprocess.run` rather than on `command[0]`. Both are reported as the same `EmptyCommand` error.
