# marn, modelled in Dafny

marn is a command-line wrapper around Maven. Its core is an incremental
rebuild engine with these parts:

- **Fingerprints.** Each dependency project gets a SHA-256 fingerprint over the files under `src/main/java` and `src/main/resources`.
- **Fingerprint store.** One JSON file per project, `<project>/.marn/src-hash.json`.
- **Rebuild decision.** The decision fails open: whenever something goes wrong, it says "rebuild".
- **Local-dependency resolver.** Configured paths come first, then SNAPSHOT siblings that have a `pom.xml`. Duplicates are removed.
- **Dependency build loop.** It skips unchanged dependencies, aborts on the first failed build, and commits a fingerprint only after a successful build.
- **JAR chooser** for `run`.
- **Hook names** used around commands.
- **Watch mode.** It reads its configuration, watches directories, filters and debounces events, and runs the change handler.
- **`.env` loader and expansion.** The loader reads the `.env` file, and `${NAME}` / `$NAME` expansion is applied to shell commands.

The project models that core and proves properties of it.

## Modules

Each module sits in its own file and the files import each other. Together they model the Go files named in the table below:

- `wrappers.dfy`: `Option`.
- `text.dfy`: the Go `strings`, `filepath.Join` and `sort.Strings` behaviour the core relies on, and the map-update fold `Overwrite` (`m[k] = v` for a sequence of pairs).
- `hash.dfy`: `Hash`, for src/hash.go.
- `pom.dfy`: `Pom`, for the regular-expression scanners and the dependency resolver of src/pom.go.
- `commands.dfy`: `Commands`, for `buildLocalDependencies`, `findJarFile` and the hooks of src/commands.go.
- `watch.dfy`: `Watch`, for src/watch.go.
- `env.dfy`: `DotEnv`, for src/env.go.

## How the outside world is represented

- **The file system.** It appears through what the core observes of it:
  - a project's source tree is the sequence of entries the walk callback
    receives (directory, regular file with its content or an unreadable
    one, access error);
  - the fingerprint store is a map from hash-file path to what that file
    holds (`Stored`, `Corrupt`, `Unreadable`; absent means missing);
  - the existence checks (`os.Stat`) are a set of existing paths;
  - `os.ReadDir` is a sequence of directory entries, or `None`.
- **SHA-256 plus hex encoding** is an uninterpreted `Digester` whose results
  are never empty.
- **Writing the store** has an outcome per hash-file path:
  - success;
  - directory creation fails;
  - opening fails;
  - the write is interrupted after truncating the file, which leaves it
    corrupt.
- **`mvn`** is an oracle: a function from (directory, arguments) to success.
- **The shell** is an oracle from the expanded command text to success.
- **`time.ParseDuration`** is an oracle.
- **The process environment** is a `map<string, string>`.
- **The watch loop** is a fold over the sequence of inputs its `select`
  receives: file events, watcher errors, and an end (signal or closed
  channel). Each event carries two clock readings: when it is received,
  and when `time.Now()` reads after its handler returns.

## Behaviour worth noting

- **Loading a corrupt store.** A corrupt or unreadable store makes `loadHashStore` return an error (src/hash.go:113-121); only a missing file loads as the empty record. Every caller turns that error into "rebuild".
- **Writing the store.** The store is written with a plain `os.WriteFile` (src/hash.go:141), not through a temporary file and a rename. An interrupted write therefore leaves a truncated file. The next load fails, and the next check rebuilds (`Hash.InterruptedCommitForcesRebuild`).
- **Walk failures.** The walk callback returns `nil` on every path (src/hash.go:39-64), so `filepath.Walk` never reports an error and the error branch at src/hash.go:66-68 cannot be taken. A missing or unreadable root contributes nothing. The model keeps a `WalkFailed` input anyway, so the fail-open branches of the callers stay covered.
- **The debounce window.** `lastBuild` is set after `handleFileChange` returns (src/watch.go:201-202), so the window runs from the end of the previous handler, not from its start (`Watch.HandledAreSpaced`).
- **A failed dependency build in watch mode.** A failed dependency build returns before the project rebuild (src/watch.go:274-277), so the project is not rebuilt after it.
- **Which dependency a change belongs to.** A change belongs to the first dependency whose path is a plain string prefix of the changed path (src/watch.go:227-233). A dependency `/w/lib` therefore also claims changes under `/w/library` (`Watch.PrefixClaimsSibling`).
- **Expansion passes.** `expandEnvVars` runs its second pass over the output of the first. A value substituted for `${NAME}` is therefore expanded again if it contains `$NAME` (`DotEnv.ValuesAreRescanned`).

## Model

| member | source | states |
|---|---|---|
| Text.TrimSpace | src/pom.go:59 | the result neither starts nor ends with white space, is no longer than the input, and an input without white space at its ends comes back unchanged |
| Text.TrimSpaceIs | src/pom.go:59 | the result of `TrimSpace` is the input with exactly its leading white space and trailing white space removed: the infix that starts right after the leading white space and is followed only by white space |
| Text.Fields | src/pom.go:112 | every field is non-empty and free of white space; with `FieldsSplit`, `FieldsOfSpaces` and `FieldsOfWord`, the fields are the maximal non-space runs in order |
| Text.FieldsSplit | src/pom.go:112 | a white-space character separates fields: the fields of `a + [c] + b` are those of `a` followed by those of `b` |
| Text.FieldsOfSpaces | src/pom.go:112 | a string of white space alone has no fields |
| Text.FieldsOfWord | src/watch.go:317 | a non-empty word without white space is its own only field |
| Text.JoinPath | src/pom.go:135-136 | the result is `dir + "/" + name`, or `dir + name` when `dir` already ends in `/`; an empty part gives the other; so it ends with the name and starts with the directory |
| Text.ToUpperAscii | src/commands.go:428 | a lower-case ASCII letter maps to the same letter in upper case, every other character to itself |
| Text.LexLeReflexive | src/hash.go:72 | the string order of `sort.Strings` is reflexive |
| Text.LexLeTotal | src/hash.go:72 | the string order is total |
| Text.LexLeAntisymmetric | src/hash.go:72 | the string order is antisymmetric |
| Text.LexLeTransitive | src/hash.go:72 | the string order is transitive |
| Text.InsertSorted | src/hash.go:72 | inserting into a sorted sequence keeps it sorted |
| Text.SortStrings | src/hash.go:72 | the sorted paths are in order and are a permutation of the paths collected |
| Text.SortedUnique | src/hash.go:72 | two sorted arrangements of the same multiset of strings are equal |
| Text.SortDependsOnlyOnMultiset | src/hash.go:72 | sorting gives the same sequence for any enumeration order of the same paths |
| Text.NoDupSameSetSameMultiset | src/hash.go:72 | two duplicate-free sequences with the same elements are permutations of each other |
| Text.OverwriteAppend | src/pom.go:56-61 | assigning the pairs of `a + b` equals assigning `a` and then `b` |
| Text.OverwriteKeys | src/hash.go:60 | after the assignments the keys are the old keys plus every assigned key |
| Text.OverwriteLastWins | src/pom.go:59 | a key holds the value of the last pair that assigned it |
| Text.OverwriteUntouched | src/hash.go:60 | a key no pair assigns keeps its membership and value |
| Hash.Contribution | src/hash.go:40-61 | an entry contributes exactly one pair `(relPath, digest)` when it is a readable regular file, and nothing when it is a directory, gets an access error, or cannot be read |
| Hash.Recorded | src/hash.go:38-64 | definition: the pairs one walk records, in visiting order; characterised by `RecordedComeFromFiles`, `FilesAreRecorded`, `SkippedEntryContributesNothing` and `RecordedAppend`, and computed by `RecordWalk` |
| Hash.Paths | src/hash.go:61 | definition of `allFilePaths`: one path per recorded pair (its ensures), each at the pair's position (`PathsAt`); with `TableKeysArePaths` they are the table's keys |
| Hash.Table | src/hash.go:60 | definition of `fileHashes`: the map the recorded pairs assign in order; characterised by `TableKeysArePaths` and `TableHoldsEachPair` |
| Hash.PathsAt | src/hash.go:61 | `allFilePaths` holds the path of each recorded pair, at the same position |
| Hash.SrcHashOf | src/hash.go:27-82 | a computed combined hash is never empty |
| Hash.RecordedAppend | src/hash.go:38-69 | what is recorded from two walks in sequence is the concatenation of what each records |
| Hash.RecordWalk | src/hash.go:39-64 | the walk callback appends the recorded paths in visiting order to `allFilePaths` and assigns each pair into `fileHashes` |
| Hash.VisitEntry | src/hash.go:39-63 | one callback invocation adds the entry's pair, if it is a readable regular file, to both `fileHashes` and `allFilePaths`, and otherwise changes neither |
| Hash.DigestPairs | src/hash.go:75-80 | the combined hash is the digest of every path immediately followed by its file hash, in the given order |
| Hash.CalculateSrcHash | src/hash.go:27-82 | `calculateSrcHash` returns the fingerprint of the tree: an error for a failed walk, otherwise the digest over the sorted recorded paths and the table |
| Hash.TableKeysArePaths | src/hash.go:60-61 | the keys of `fileHashes` are exactly the paths collected in `allFilePaths` |
| Hash.TableHoldsEachPair | src/hash.go:60 | when no path repeats, each collected path maps to its own file hash |
| Hash.RecordedComeFromFiles | src/hash.go:44-61 | every recorded pair comes from a readable regular file of the walk, with its digest |
| Hash.FilesAreRecorded | src/hash.go:44-61 | every readable regular file of the walk is recorded with its digest |
| Hash.SkippedEntryContributesNothing | src/hash.go:40-52 | inserting a directory, an access error or an unreadable file anywhere in a walk changes nothing recorded |
| Hash.MissingRootsYieldNoFiles | src/hash.go:39-42 | two missing source roots give a successful fingerprint with no files and no error |
| Hash.CombinedHashIgnoresOrder | src/hash.go:72-78 | two walks that record the same paths (as a multiset) and the same table give the same fingerprint, whatever the visiting order |
| Hash.CombinedHashDependsOnlyOnFiles | src/hash.go:72-78 | when no path repeats, the combined hash depends only on the `relPath -> fileHash` map |
| Hash.HashFilePath | src/hash.go:22-24 | the store path is `<project>/.marn/src-hash.json` (no extra `/` after a project path that ends in one, and just `.marn/src-hash.json` for an empty project path) |
| Hash.LoadHashStore | src/hash.go:101-124 | a missing file loads as the empty store of the project; loading fails exactly when the file exists but is corrupt or unreadable |
| Hash.SaveHashStore | src/hash.go:127-142 | saving succeeds exactly when the write succeeds, and no other store file changes |
| Hash.SaveThenLoad | src/hash.go:127-142 | loading after a successful save returns the saved store |
| Hash.UpdateSrcHash | src/hash.go:169-182 | the commit succeeds exactly when the fingerprint and the write both succeed, and touches no other project's store |
| Hash.ShouldRebuildDependency | src/hash.go:199-222 | a failed fingerprint gives `(true, "", "", err)`; otherwise the current hash is returned, the stored hash is returned as loaded (`""` for a store that fails to load or holds no hash), and the answer is "skip" exactly when the store loads with a non-empty hash equal to the current one |
| Hash.HasSrcChanged | src/hash.go:146-166 | an error is reported exactly when the fingerprint fails |
| Hash.HasSrcChangedAgrees | src/hash.go:146-166 | `hasSrcChanged` gives the same verdict and the same error as `shouldRebuildDependency` for every input |
| Hash.CommitThenCheck | src/hash.go:169-182 | after a successful commit, with the tree unchanged, `shouldRebuildDependency` says no rebuild |
| Hash.InterruptedCommitForcesRebuild | src/hash.go:141 | a commit whose write is interrupted leaves a store that fails to load, so the next check rebuilds |
| Hash.SrcHashDisplay | src/hash.go:185-195 | "" displays as "none"; otherwise the display is a prefix of the hash of length eight, or of the whole hash when shorter |
| Pom.ElementAt | src/pom.go:74-75 | a match found at a position is a `<name>value</name>` element there, with no `<` in the value |
| Pom.ElementAtComplete | src/pom.go:74-75 | every element at a position is the one found there |
| Pom.FirstElement | src/pom.go:74-75 | the match found is the leftmost element at or after the start, and no match means no element at all |
| Pom.GetPropertyIsLeftmost | src/pom.go:67-82 | the value of a property is the trimmed text of its leftmost element |
| Pom.GetPropertyAbsent | src/pom.go:68-71 | an unreadable POM or a missing element gives "" |
| Pom.GetProperty | src/pom.go:67-82 | definition of `getProperty`; characterised by `GetPropertyIsLeftmost` and `GetPropertyAbsent` |
| Pom.ScriptAt | src/pom.go:53 | a script match found at a position is a well-formed `<script.NAME>BODY</script.X>` element there |
| Pom.ScriptAtComplete | src/pom.go:53 | every script element at a position is the match found there |
| Pom.ScriptMatches | src/pom.go:54 | every match is a script element at or after the start, and matches are ordered and do not overlap |
| Pom.ScriptMatchesLeftmost | src/pom.go:54 | no script element lies before the first match |
| Pom.GetScriptsFromPom | src/pom.go:44-64 | the scripts map is the fold of `scripts[name] = TrimSpace(body)` over the matches in order |
| Pom.Scripts | src/pom.go:44-64 | definition of the scripts map as a fold over the matches; computed by `GetScriptsFromPom` and characterised by `AssignedScripts` |
| Pom.AssignedScripts | src/pom.go:56-61 | the script names are exactly the names matched, and each holds the trimmed body of its last match |
| Pom.ParentDir | src/pom.go:135 | the parent directory is everything before the last `/`, no `/` following it, or `/` for a top-level entry, and `""` for a path without `/` |
| Pom.SnapshotSiblingsMembers | src/pom.go:130-143 | a sibling path is collected exactly when some dependency's version contains `SNAPSHOT` and its sibling directory holds a `pom.xml` |
| Pom.DedupElements | src/pom.go:146-157 | removing duplicates keeps exactly the same elements |
| Pom.DedupNoDup | src/pom.go:146-157 | the result has no duplicates |
| Pom.DedupOfNoDup | src/pom.go:146-157 | a duplicate-free list comes back unchanged |
| Pom.DedupPrefix | src/pom.go:146-157 | the deduplicated prefix is a prefix of the deduplicated whole (first occurrences are kept in order) |
| Pom.GetLocalDependencies | src/pom.go:105-158 | the method returns the configured fields, and for a parsed POM the SNAPSHOT siblings after them, with duplicates removed |
| Pom.LocalDependencies | src/pom.go:105-158 | definition of the resolved dependency list; computed by `GetLocalDependencies` and characterised by `LocalDependenciesNoDup`, `LocalDependenciesMembers`, `LocalDependenciesConfiguredFirst` and `LocalDependenciesUnparsed` |
| Pom.AppendSiblings | src/pom.go:130-143 | the SNAPSHOT loop appends, in dependency order, the sibling directory of every SNAPSHOT dependency whose `pom.xml` exists |
| Pom.RemoveDuplicates | src/pom.go:146-157 | the `seen`-map loop keeps the first occurrence of each path, in order |
| Pom.LocalDependenciesNoDup | src/pom.go:146-157 | for a parsed POM the resolved list has no duplicates |
| Pom.LocalDependenciesMembers | src/pom.go:109-143 | for a parsed POM a path is resolved exactly when it is configured or is a SNAPSHOT sibling with a `pom.xml` |
| Pom.LocalDependenciesConfiguredFirst | src/pom.go:109-115 | the configured paths come first, in order |
| Pom.LocalDependenciesUnparsed | src/pom.go:118-127 | an unreadable or unparsable POM yields just the configured paths, and an unreadable one yields none |
| Commands.PassForFacts | src/commands.go:326-365 | a dependency is skipped exactly when it is up to date; its build fails exactly when it is stale and `mvn` fails; the commit comes only after a successful `mvn` |
| Commands.BuildLocalDependencies | src/commands.go:312-373 | the loop produces the run of the specification over the resolved dependencies: error, store files and `mvn` processes |
| Commands.PassFor | src/commands.go:326-367 | definition of one pass of the loop body; characterised by `PassForFacts`, `PolicyOfHonest` and `PolicyOfFramed` |
| Commands.BuildFrom | src/commands.go:321-373 | definition of the run over the dependencies; computed by `BuildLocalDependencies` and characterised by `BuildFromStep`, `BuildsAreInstalls`, `FailureIsLast`, `EarlierBuildsSucceeded`, `NothingToBuild`, `BuildFrame`, `RunLeavesUpToDate` and `SecondRunIsQuiet` |
| Commands.BuildOne | src/commands.go:321-368 | one iteration of the loop either ends the run with the dependency's failure or leaves the rest of the run to the remaining dependencies |
| Commands.BuildFromStep | src/commands.go:323-367 | a dependency without a `pom.xml` or up to date is passed over; a successful build adds its process and commits its hash; a failed build ends the run after its process |
| Commands.BuildsAreInstalls | src/commands.go:321-359 | every process started is `mvn clean install [-DskipTests]` in a listed dependency that has a `pom.xml` |
| Commands.PolicyOfHonest | src/commands.go:356-359 | the loop body reports a failure exactly when the `mvn` process it started failed |
| Commands.FailureIsLast | src/commands.go:356-359 | a run that reports an error stops at the failing dependency, whose build is the last process started |
| Commands.EarlierBuildsSucceeded | src/commands.go:356-365 | every build before the last succeeded, and in a run without an error every build succeeded |
| Commands.EarlierBuildsAfterBuild | src/commands.go:356-365 | the same, once the first dependency built successfully |
| Commands.NothingToBuild | src/commands.go:315-324 | with no dependency holding a `pom.xml`, nothing is started and nothing changes |
| Commands.PolicyOfFramed | src/commands.go:362 | the loop body changes at most the store file of its own dependency |
| Commands.BuildFrame | src/commands.go:321-369 | a store file that belongs to none of the dependencies is left as it was |
| Commands.UpToDateLocal | src/hash.go:199-222 | whether a dependency is up to date depends only on its own store file |
| Commands.RunLeavesUpToDate | src/commands.go:321-369 | after a run without an error (fingerprints and writes succeeding), every dependency with a `pom.xml` is up to date |
| Commands.HeadLeftUpToDate | src/commands.go:326-365 | after a run without an error (store files distinct, walks and writes succeeding), the first dependency, when it has a `pom.xml`, is up to date, whichever dependencies follow it |
| Commands.UpToDateRunIsQuiet | src/commands.go:337-341 | when every dependency is up to date, the loop starts nothing and changes nothing |
| Commands.SecondRunIsQuiet | src/commands.go:312-373 | running the dependency build again right after a run without an error starts no process |
| Commands.NewestIsLatest | src/commands.go:390-415 | the JAR picked in a class has the latest modification time, strictly later than every earlier candidate; there is none exactly when the class is empty |
| Commands.Newest | src/commands.go:390-415 | definition of the JAR the loop keeps in one class; it is a candidate of that class (its ensures), and `NewestIsLatest` pins which one |
| Commands.ChosenJar | src/commands.go:377-423 | definition of what `findJarFile` returns; computed by `FindJarFile` and characterised by `PrefersNonOriginal` and `ChosenIsNewest` |
| Commands.FindJarFile | src/commands.go:377-423 | the loop over the entries returns the chosen JAR: the newest non-`original-` JAR, else the newest `original-` one, else "" |
| Commands.PrefersNonOriginal | src/commands.go:417-422 | when a non-`original-` JAR exists, the chosen JAR is one of them |
| Commands.ChosenIsNewest | src/commands.go:402-411 | no candidate of the class is newer than the one chosen, and an earlier one is strictly older |
| Commands.HookNameCollides | src/commands.go:428-441 | two command names give the same hook name exactly when they agree after upper-casing their first letter |
| Commands.HookName | src/commands.go:428 | definition of a hook name; characterised by `HookNameCollides` |
| Commands.RunHook | src/commands.go:426-449 | a hook runs exactly when its name is in the scripts map; it is the mapped script, expanded, and the result is the shell's; no hook gives no error |
| Commands.RunPreScript | src/commands.go:426-436 | the `pre` hook of the command, as above |
| Commands.RunPostScript | src/commands.go:439-449 | the `post` hook of the command, as above |
| Watch.LoadWatchConfig | src/watch.go:74-108 | every non-empty property overrides its default; tests are run only for exactly `false`; a debounce that does not parse as seconds keeps 2s; directories and command are never empty; an unreadable POM gives the defaults |
| Watch.MvnBuildArgs | src/watch.go:317-320 | the arguments are the words of the command, followed by `-DskipTests` exactly when tests are skipped |
| Watch.DefaultBuildArgs | src/watch.go:75-81 | the default configuration builds with `compile -DskipTests` |
| Watch.RunMvnBuild | src/watch.go:314-339 | one process in the project directory with the build arguments; success is its exit status |
| Watch.FilterOutput | src/watch.go:342-353 | the printed lines are exactly the output lines that are shown, in order |
| Watch.ShownLinesMembers | src/watch.go:344-350 | a line is printed exactly when it is an output line containing `ERROR`, `BUILD`, `Compiling`, `SUCCESS` or `FAILURE` |
| Watch.ShownLinesIdempotent | src/watch.go:344-350 | filtering filtered output changes nothing |
| Watch.ShownLines | src/watch.go:344-350 | definition of the printed lines; computed by `FilterOutput` and characterised by `ShownLinesMembers` and `ShownLinesIdempotent` |
| Watch.ExistingMembers | src/watch.go:155-170 | a candidate root is registered exactly when it exists |
| Watch.DepRootsMembers | src/watch.go:161-162 | the dependency roots are exactly the `src/main/java` and `src/main/resources` directories of the dependencies |
| Watch.WatchRootsMembers | src/watch.go:152-172 | a directory is registered exactly when it exists and is a configured watch directory under the project or a source root of a local dependency |
| Watch.WatchRootsOf | src/watch.go:152-172 | definition of the registered roots; computed by `WatchRoots` and characterised by `WatchRootsMembers`, `ExistingMembers` and `DepRootsMembers` |
| Watch.WatchRoots | src/watch.go:152-172 | the two registration loops produce the registered roots in order |
| Watch.AddProjectRoots | src/watch.go:152-158 | the first loop registers, in order, the configured directories under the project that exist |
| Watch.AddDepRoots | src/watch.go:161-172 | the second loop adds, in order, the existing `src/main/java` and `src/main/resources` of each dependency |
| Watch.QualifyingOps | src/watch.go:191-193 | a pure permission change is ignored, and any event with a write, create, remove or rename bit qualifies |
| Watch.ChmodBitIrrelevant | src/watch.go:191 | whether an event qualifies does not depend on its permission-change bit |
| Watch.Qualifies | src/watch.go:191 | definition of a relevant event; characterised by `QualifyingOps` and `ChmodBitIrrelevant` |
| Watch.Elapsed | src/watch.go:196 | definition of `time.Since(lastBuild)`, saturating for the zero time; used by `LetsThrough` and by `FirstQualifyingHandled` |
| Watch.LetsThrough | src/watch.go:191-198 | definition of the filter and debounce test; with `HandledAtEvent` an event is handled exactly when it passes |
| Watch.Handled | src/watch.go:179-216 | definition of the events handed to the handler; computed by `StartWatcher` and characterised by `HandledAtEvent`, `HandledAppend`, `HandledQualify`, `HandledAreSpaced`, `QuietInputIgnored` and `StopEndsWatching` |
| Watch.StartWatcher | src/watch.go:141-218 | the watcher registers the roots and hands to the handler exactly the events the debounce filter lets through, in order; with `HandledAtEvent`, `HandledAppend` and `LastBuildIsLastHandled`, an event is handled exactly when its operation qualifies and the debounce interval has passed since the handler for the previous handled event finished |
| Watch.HandledQualify | src/watch.go:191-193 | every handled event was received and qualifies |
| Watch.HandledAreSpaced | src/watch.go:179-202 | each handled event is received at least the debounce time after the previous handler returned |
| Watch.QuietInputIgnored | src/watch.go:191-193 | deleting an irrelevant event or a watcher error from the input leaves the handled events unchanged; it does not move the clock |
| Watch.FirstQualifyingHandled | src/watch.go:179 | the first qualifying event is always handled, since the window starts open |
| Watch.StopEndsWatching | src/watch.go:205-216 | nothing after a signal or a closed channel is handled |
| Watch.LastBuildIsLastHandled | src/watch.go:201-202 | the loop's `lastBuild` is the end of the last handled event's handler, or its starting value when nothing was handled |
| Watch.HandledAppend | src/watch.go:179-216 | handling `a + b` is handling `a`, then `b` from the state `a` leaves, while nothing in `a` stops the loop |
| Watch.HandledAtEvent | src/watch.go:179-202 | after inputs that do not stop the loop, an event is handled exactly when the filter lets it through from the state they leave; otherwise it is dropped, not queued, and the rest continues from that state |
| Watch.ChosenDep | src/watch.go:227-234 | a chosen dependency is a listed one that prefixes the path; none is chosen exactly when no listed dependency prefixes it |
| Watch.ChosenDepIsFirst | src/watch.go:227-234 | the chosen dependency is the first in list order that prefixes the path |
| Watch.FindChangedDep | src/watch.go:227-234 | the search loop stops at the chosen dependency, or finds none |
| Watch.PrefixClaimsSibling | src/watch.go:229 | a dependency listed first claims every path that extends its string, including paths under a later sibling whose name extends its own |
| Watch.LibClaimsLibrary | src/watch.go:229 | `/w/lib` claims a change under `/w/library` |
| Watch.LinkDependency | src/watch.go:241-286 | the dependency is skipped exactly when up to date, its build fails exactly when stale and `mvn` fails, and its hash is committed only after a successful build |
| Watch.HandleFileChange | src/watch.go:221-311 | the first prefixing dependency is linked; after a link failure nothing else happens; otherwise the project is rebuilt, and the expanded post command runs exactly when the build succeeds and one is configured |
| DotEnv.ParseLineCases | src/env.go:28-39 | a line gives nothing exactly when, trimmed, it is empty, starts with `#` or has no `=`; a key never contains `=` |
| DotEnv.ParseLine | src/env.go:28-44 | definition of one line's parse; characterised by `ParseLineCases`, `ParseLineRoundTrip` and `ParseLineQuoted` |
| DotEnv.Assign | src/env.go:46-49 | definition of one line's effect; characterised by `NeverOverrides`, `UnnamedUntouched` and `FirstSettingWins`, and computed by `LoadLine` |
| DotEnv.ApplyLines | src/env.go:27-51 | definition of the effect of the scanned lines in order; computed by `LoadEnvFile` and characterised by `NeverOverrides`, `UnnamedUntouched` and `FirstSettingWins` |
| DotEnv.ParseLineRoundTrip | src/env.go:36-44 | `key=value` parses back to the pair for a plain key and a trimmed, unquoted value |
| DotEnv.ParseLineQuoted | src/env.go:42-44 | a value wrapped in matching quotes parses back to exactly what was inside them |
| DotEnv.LoadLine | src/env.go:28-49 | one line sets its variable only when it is unset or empty and `os.Setenv` accepts it |
| DotEnv.LoadEnvFile | src/env.go:12-54 | a missing file changes nothing and reports nothing; an unopenable one reports an error; otherwise the lines are applied in order and a scanner error is reported |
| DotEnv.NeverOverrides | src/env.go:47-49 | a variable that already has a non-empty value keeps it |
| DotEnv.UnnamedUntouched | src/env.go:36-49 | a variable no line names keeps its value or stays unset |
| DotEnv.FirstSettingWins | src/env.go:47-49 | an unset or empty variable ends up with the first non-empty value the file gives it |
| DotEnv.NameLength | src/env.go:71 | the name taken is the longest run of `[A-Za-z0-9_]` |
| DotEnv.BraceEnd | src/env.go:59 | a `${...}` match ends at the first `}` and encloses at least one character |
| DotEnv.NoDollarUnchanged | src/env.go:57-82 | text without `$` comes back unchanged |
| DotEnv.ExpandEnvVars | src/env.go:57-82 | definition: the second pass over the output of the first; characterised by `NoDollarUnchanged`, `BracedRescanned`, `EmptyBracesKept` and `ValuesAreRescanned` |
| DotEnv.ExpandBraced | src/env.go:59-67 | definition of the first pass; characterised by `BracedReference` |
| DotEnv.ExpandNames | src/env.go:71-79 | definition of the second pass; characterised by `NameReference` and `LoneDollarKept` |
| DotEnv.BracedReference | src/env.go:59-67 | `${NAME}` is replaced by the value of `NAME`, or by "" when it is unset or empty |
| DotEnv.BracedRescanned | src/env.go:57-82 | after the first pass replaces `${NAME}`, the second pass runs over the value together with the rest of the once-expanded text |
| DotEnv.NameReference | src/env.go:71-79 | `$NAME` with the whole name is replaced by the value of `NAME`, or by "" |
| DotEnv.LoneDollarKept | src/env.go:71 | a `$` not followed by a letter or `_` is kept |
| DotEnv.EmptyBracesKept | src/env.go:59 | `${}` is not a reference and survives both passes |
| DotEnv.ValuesAreRescanned | src/env.go:69-79 | a value inserted by the first pass is expanded again by the second |

## Left out

- Process execution is not modelled: `exec.Command` for `mvn`, the shell (bash or PowerShell with its alias script), `java`, and the process killers. `mvn` and the shell are oracles. The choice of `mvn.cmd` on Windows (src/utils.go) is not modelled.
- Output is not modelled: all printing, colours, `printHashComparison`, `printWatchBanner`, and the relative paths computed for messages.
- SHA-256, hex encoding and JSON marshalling are replaced by the `Digester` and a store map. So are the `os.MkdirAll`/`os.WriteFile` details, apart from their outcomes.
- `filepath.Walk`, `filepath.Rel` and `filepath.Abs` are not modelled. Walk entries arrive already relative and in visiting order. Sibling paths are taken as `ParentDir(currentDir)/artifactId` without making them absolute or cleaning `..`. `Text.JoinPath` joins already-clean relative names only.
- Hash.SaveHashStore: `os.WriteFile` (src/hash.go:141) also reports the error of closing the file after a complete write, which leaves a correct store behind an error; the model has no such outcome. The error reaches only `updateSrcHash`, whose callers print a warning and carry on (src/commands.go:362-365, src/watch.go:280-283), so no property changes.
- Hash.SrcHashDisplay: `hash[:8]` (src/hash.go:191) slices bytes, while the model slices characters. The two agree on the hex digests it is given, and the result is only printed.
- Pom.ParentDir: a path without `/` gives `""`, where `filepath.Dir` gives `"."`. The directory it is applied to comes from `os.Getwd`, which is absolute, so that case does not arise.
- `xml.Unmarshal` is not modelled. The POM is given with its parse result (`Option<Project>`).
- Regular expressions are modelled only as far as the scanners need. In a property name, `.` matches any character except a newline. No other metacharacter of a property name is interpreted.
- `time.ParseDuration` is an oracle. The saturation of `time.Time.Sub` for very large differences is modelled only for the zero `lastBuild`.
- fsnotify, the goroutines of `runMvnBuild`/`filterOutput`, `select` scheduling and signal handling are concurrency and are not modelled. The loop is a fold over the received inputs.
- `addDirRecursive` is out: registering each directory registers that root only, not its subdirectories. It also calls `watcher.Add` only for directories (src/watch.go:356-369), while `Watch.WatchRootsOf` registers every existing path: a `watch.dirs` entry that names a regular file is watched in the model and not in the code, because `existing` does not record whether a path is a directory.
- Commands.BuildOne: one `host.tree(dep)` serves both the check before `mvn` (src/commands.go:326) and `updateSrcHash` after it (src/commands.go:362). The code walks the tree twice with the build in between, so a source edit made during the build is committed as built and the next run skips that dependency. The model cannot express such an edit. The same holds for `Commands.PassFor` and `Watch.LinkDependency` (src/watch.go:243 and src/watch.go:280).
- Commands.BuildLocalDependencies: store files and trees are keyed by path strings, so two spellings of one directory (a configured `../lib`, src/pom.go:112, and the absolute sibling `/w/lib`, src/pom.go:139-140) both survive the string dedup and get two independent stores. In the code they share one `.marn/src-hash.json`, so once the first is built the second is skipped as up to date; the model builds both. `DistinctHashFiles` rules out only distinct strings with equal store paths, not distinct spellings of one directory.
- Watch.StartWatcher: it returns the events handed to `handleFileChange` but does not thread the store files and processes of successive handler calls. `Watch.HandleFileChange` models one call on its own, because the source trees change between events.
- `bufio.Scanner` line splitting and its 64 KiB token limit are not modelled. The lines are given, together with whether the scan stopped on an error.
- `os.Setenv` follows its Unix rules. The Windows and Plan 9 rules are not modelled.
- `strings.ToUpper` is modelled for ASCII letters only.
- Commands.HookName: requires a non-empty command name. The source slices `commandName[:1]`, which panics on an empty name, and every caller passes a fixed non-empty name.
- The other command handlers (`buildProject`, `runProject`, `watchMode`'s initial build and so on), `getArtifactID`, `getMainClass`, the CLI in src/main.go, the installer and the colour files are out. They sequence the modelled operations, do I/O or call `os.Exit`.
- Commands.RunLeavesUpToDate: assumes that the dependencies' store files are distinct and that their source walks and store writes succeed (`DistinctHashFiles`, `Healthy`). Without these assumptions the property does not hold.
- Commands.SecondRunIsQuiet: makes the same assumptions, for the same reason.
