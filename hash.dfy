/**
 * Source fingerprints and their store (src/hash.go).
 *
 * A project's fingerprint is computed from the files under its two source
 * roots, `src/main/java` and `src/main/resources`. Every readable regular
 * file contributes the pair `relPath -> fileHash`; the combined hash digests
 * those pairs in sorted path order. The store is one JSON file per project,
 * `<project>/.marn/src-hash.json`, modelled as an entry of a map from
 * hash-file path to what that file holds.
 */
module Hash {
  import opened Wrappers
  import opened Text

  /** SHA-256 followed by hex encoding, left uninterpreted: all the model uses is that it never yields "". */
  type Digester = d: string -> string | forall s :: d(s) != [] witness (s: string) => "0"

  /** What one call of the walk callback receives for one path. */
  datatype EntryKind =
    | Directory
      /** `content` is None when the file cannot be opened or read to the end. */
    | RegularFile(content: Option<string>)
      /** The callback is handed a non-nil error (a missing root is reported this way). */
    | AccessError

  /** One visited path, already made relative to the project root. */
  datatype WalkEntry = WalkEntry(relPath: string, kind: EntryKind)

  /** `filepath.Walk` of one root: the entries in visiting order, or a failure of the walk itself. */
  datatype RootWalk = Walked(entries: seq<WalkEntry>) | WalkFailed

  /** The current state of a project's two source roots. */
  datatype SourceTree = SourceTree(java: RootWalk, resources: RootWalk)

  const JavaRoot := "src/main/java"
  const ResourcesRoot := "src/main/resources"

  /** The walk of a root directory that does not exist: the callback sees one error and records nothing. */
  function MissingRoot(root: string): RootWalk
  {
    Walked([WalkEntry(root, AccessError)])
  }

  /** The `relPath -> fileHash` pair an entry contributes, if any. */
  function Contribution(d: Digester, e: WalkEntry): (ps: seq<(string, string)>)
    ensures |ps| <= 1
    ensures ps != [] <==> e.kind.RegularFile? && e.kind.content.Some?
    ensures ps != [] ==> ps[0] == (e.relPath, d(e.kind.content.value))
  {
    match e.kind
    case RegularFile(Some(c)) => [(e.relPath, d(c))]
    case _ => []
  }

  /** The pairs the walk callback records, in visiting order. */
  function Recorded(d: Digester, entries: seq<WalkEntry>): (ps: seq<(string, string)>)
  {
    if entries == [] then []
    else Recorded(d, entries[..|entries| - 1]) + Contribution(d, entries[|entries| - 1])
  }

  /** `allFilePaths`: the paths of the recorded pairs, in the same order. */
  function Paths(ps: seq<(string, string)>): (r: seq<string>)
    ensures |r| == |ps|
  {
    if ps == [] then [] else Paths(ps[..|ps| - 1]) + [ps[|ps| - 1].0]
  }

  lemma {:induction false} PathsAt(ps: seq<(string, string)>)
    ensures forall i :: 0 <= i < |ps| ==> Paths(ps)[i] == ps[i].0
  {
    if ps != [] {
      PathsAt(ps[..|ps| - 1]);
    }
  }

  /** `fileHashes`: the map built from the recorded pairs. */
  function Table(ps: seq<(string, string)>): map<string, string>
  {
    Overwrite(map[], ps)
  }

  /** Go's map index: the zero value "" for a missing key. */
  function Lookup(m: map<string, string>, k: string): string
  {
    if k in m then m[k] else ""
  }

  /** The bytes written to the combined hasher: each path followed by its hash. */
  function HashInput(paths: seq<string>, files: map<string, string>): string
  {
    if paths == [] then []
    else HashInput(paths[..|paths| - 1], files) + paths[|paths| - 1] + Lookup(files, paths[|paths| - 1])
  }

  function AllEntries(t: SourceTree): seq<WalkEntry>
    requires t.java.Walked? && t.resources.Walked?
  {
    t.java.entries + t.resources.entries
  }

  datatype SrcHash = SrcHashOk(combined: string, files: map<string, string>) | SrcHashErr

  /** What `calculateSrcHash` returns for a tree. */
  function SrcHashOf(d: Digester, t: SourceTree): (r: SrcHash)
    ensures r.SrcHashOk? ==> r.combined != []
  {
    if t.java.WalkFailed? || t.resources.WalkFailed? then SrcHashErr
    else
      var ps := Recorded(d, AllEntries(t));
      SrcHashOk(d(HashInput(SortStrings(Paths(ps)), Table(ps))), Table(ps))
  }

  lemma {:induction false} RecordedAppend(d: Digester, a: seq<WalkEntry>, b: seq<WalkEntry>)
    ensures Recorded(d, a + b) == Recorded(d, a) + Recorded(d, b)
    decreases |b|
  {
    if b == [] {
      assert a + b == a;
    } else {
      var b', x := b[..|b| - 1], b[|b| - 1];
      assert b == b' + [x];
      assert a + b == (a + b') + [x];
      RecordedSnoc(d, a + b', x);
      RecordedSnoc(d, b', x);
      RecordedAppend(d, a, b');
      ConcatAssoc(Recorded(d, a), Recorded(d, b'), Contribution(d, x));
    }
  }

  lemma RecordedSnoc(d: Digester, es: seq<WalkEntry>, e: WalkEntry)
    ensures Recorded(d, es + [e]) == Recorded(d, es) + Contribution(d, e)
  {
    assert (es + [e])[..|es|] == es;
  }

  lemma RecordedOne(d: Digester, e: WalkEntry)
    ensures Recorded(d, [e]) == Contribution(d, e)
  {
    assert [e][..0] == [];
  }

  lemma {:induction false} PathsAppend(a: seq<(string, string)>, b: seq<(string, string)>)
    ensures Paths(a + b) == Paths(a) + Paths(b)
    decreases |b|
  {
    if b == [] {
      assert a + b == a;
    } else {
      var b' := b[..|b| - 1];
      assert (a + b)[..|a + b| - 1] == a + b';
      PathsAppend(a, b');
    }
  }

  lemma SinglePath(q: (string, string))
    ensures Paths([q]) == [q.0]
  {
    assert [q][..0] == [];
  }

  /**
   * One `filepath.Walk` of a root whose callback records every readable
   * regular file into `fileHashes` and `allFilePaths` and skips the rest.
   */
  method RecordWalk(d: Digester, entries: seq<WalkEntry>,
                    fileHashes0: map<string, string>, allFilePaths0: seq<string>)
    returns (fileHashes: map<string, string>, allFilePaths: seq<string>)
    ensures allFilePaths == allFilePaths0 + Paths(Recorded(d, entries))
    ensures fileHashes == Overwrite(fileHashes0, Recorded(d, entries))
  {
    fileHashes, allFilePaths := fileHashes0, allFilePaths0;
    var j := 0;
    while j < |entries|
      invariant 0 <= j <= |entries|
      invariant allFilePaths == allFilePaths0 + Paths(Recorded(d, entries[..j]))
      invariant fileHashes == Overwrite(fileHashes0, Recorded(d, entries[..j]))
    {
      var fileHashes', allFilePaths' := VisitEntry(d, entries[j], fileHashes, allFilePaths);
      WalkStep(d, entries, j, fileHashes0, allFilePaths0, fileHashes, allFilePaths, fileHashes', allFilePaths');
      fileHashes, allFilePaths := fileHashes', allFilePaths';
      j := j + 1;
    }
    assert entries[..j] == entries;
  }

  /** The callback for one visited entry. */
  method VisitEntry(d: Digester, e: WalkEntry,
                    fileHashes0: map<string, string>, allFilePaths0: seq<string>)
    returns (fileHashes: map<string, string>, allFilePaths: seq<string>)
    ensures allFilePaths == allFilePaths0 + Paths(Contribution(d, e))
    ensures fileHashes == Overwrite(fileHashes0, Contribution(d, e))
  {
    if e.kind.RegularFile? && e.kind.content.Some? {
      var fileHash := d(e.kind.content.value);
      assert Contribution(d, e) == [(e.relPath, fileHash)];
      SinglePath((e.relPath, fileHash));
      OverwriteOne(fileHashes0, (e.relPath, fileHash));
      fileHashes := fileHashes0[e.relPath := fileHash];
      allFilePaths := allFilePaths0 + [e.relPath];
    } else {
      assert Contribution(d, e) == [];
      fileHashes, allFilePaths := fileHashes0, allFilePaths0;
    }
  }

  /** Visiting one more entry extends what has been recorded by that entry's contribution. */
  lemma WalkStep(d: Digester, entries: seq<WalkEntry>, j: nat,
                 m0: map<string, string>, p0: seq<string>,
                 m: map<string, string>, p: seq<string>,
                 m': map<string, string>, p': seq<string>)
    requires j < |entries|
    requires p == p0 + Paths(Recorded(d, entries[..j]))
    requires m == Overwrite(m0, Recorded(d, entries[..j]))
    requires p' == p + Paths(Contribution(d, entries[j]))
    requires m' == Overwrite(m, Contribution(d, entries[j]))
    ensures p' == p0 + Paths(Recorded(d, entries[..j + 1]))
    ensures m' == Overwrite(m0, Recorded(d, entries[..j + 1]))
  {
    assert entries[..j + 1][..j] == entries[..j];
    var done, c := Recorded(d, entries[..j]), Contribution(d, entries[j]);
    assert Recorded(d, entries[..j + 1]) == done + c;
    PathsAppend(done, c);
    ConcatAssoc(p0, Paths(done), Paths(c));
    OverwriteAppend(m0, done, c);
  }

  lemma HashInputStep(paths: seq<string>, k: nat, files: map<string, string>)
    requires k < |paths|
    ensures HashInput(paths[..k + 1], files) == HashInput(paths[..k], files) + paths[k] + Lookup(files, paths[k])
  {
    assert paths[..k + 1][..k] == paths[..k];
  }

  /** The hasher loop: write each path and its hash, in the given order, then take the digest. */
  method DigestPairs(d: Digester, paths: seq<string>, fileHashes: map<string, string>) returns (combined: string)
    ensures combined == d(HashInput(paths, fileHashes))
  {
    var written := "";
    var k := 0;
    while k < |paths|
      invariant 0 <= k <= |paths|
      invariant written == HashInput(paths[..k], fileHashes)
    {
      var relPath := paths[k];
      HashInputStep(paths, k, fileHashes);
      written := written + relPath + Lookup(fileHashes, relPath);
      k := k + 1;
    }
    assert paths[..k] == paths;
    combined := d(written);
  }

  /** `calculateSrcHash`: walk both roots, record the pairs, sort the paths, digest. */
  method CalculateSrcHash(d: Digester, t: SourceTree) returns (r: SrcHash)
    ensures r == SrcHashOf(d, t)
  {
    var srcDirs := [t.java, t.resources];
    var fileHashes: map<string, string> := map[];
    var allFilePaths: seq<string> := [];
    ghost var visited: seq<WalkEntry> := [];
    var i := 0;
    while i < 2
      invariant 0 <= i <= 2
      invariant i >= 1 ==> t.java.Walked?
      invariant i == 2 ==> t.resources.Walked?
      invariant visited == if i == 0 then [] else if i == 1 then t.java.entries else AllEntries(t)
      invariant allFilePaths == Paths(Recorded(d, visited))
      invariant fileHashes == Table(Recorded(d, visited))
    {
      if srcDirs[i].WalkFailed? {
        return SrcHashErr;
      }
      var entries := srcDirs[i].entries;
      fileHashes, allFilePaths := RecordWalk(d, entries, fileHashes, allFilePaths);
      RecordedAppend(d, visited, entries);
      PathsAppend(Recorded(d, visited), Recorded(d, entries));
      OverwriteAppend(map[], Recorded(d, visited), Recorded(d, entries));
      assert i == 0 ==> [] + entries == t.java.entries;
      visited := visited + entries;
      i := i + 1;
    }
    var sorted := SortStrings(allFilePaths);
    var combined := DigestPairs(d, sorted, fileHashes);
    r := SrcHashOk(combined, fileHashes);
  }

  /** The key set of `fileHashes` is exactly the set of paths in `allFilePaths`. */
  lemma {:induction false} TableKeysArePaths(ps: seq<(string, string)>)
    ensures forall p :: p in Table(ps) <==> p in Paths(ps)
  {
    if ps != [] {
      TableKeysArePaths(ps[..|ps| - 1]);
      assert Paths(ps) == Paths(ps[..|ps| - 1]) + [ps[|ps| - 1].0];
    }
  }

  /** With distinct paths, every recorded path is mapped to the hash recorded with it. */
  lemma {:induction false} TableHoldsEachPair(ps: seq<(string, string)>)
    requires NoDup(Paths(ps))
    ensures forall k :: 0 <= k < |ps| ==> ps[k].0 in Table(ps) && Table(ps)[ps[k].0] == ps[k].1
  {
    PathsAt(ps);
    if ps != [] {
      PathsAt(ps[..|ps| - 1]);
      var init := ps[..|ps| - 1];
      assert NoDup(Paths(init)) by {
        forall i, j | 0 <= i < j < |init| ensures Paths(init)[i] != Paths(init)[j] {
          assert Paths(ps)[i] != Paths(ps)[j];
        }
      }
      TableHoldsEachPair(init);
      forall k | 0 <= k < |ps| - 1 ensures ps[k].0 != ps[|ps| - 1].0 {
        assert Paths(ps)[k] != Paths(ps)[|ps| - 1];
      }
    }
  }

  /** Every recorded pair comes from a readable regular file, carrying the digest of its content. */
  lemma {:induction false} RecordedComeFromFiles(d: Digester, entries: seq<WalkEntry>)
    ensures forall q :: q in Recorded(d, entries) ==>
              exists e :: e in entries && e.kind.RegularFile? && e.kind.content.Some?
                          && q == (e.relPath, d(e.kind.content.value))
  {
    if entries != [] {
      var init := entries[..|entries| - 1];
      RecordedComeFromFiles(d, init);
      forall q | q in Recorded(d, entries)
        ensures exists e :: e in entries && e.kind.RegularFile? && e.kind.content.Some?
                            && q == (e.relPath, d(e.kind.content.value))
      {
        if q in Recorded(d, init) {
          var e :| e in init && e.kind.RegularFile? && e.kind.content.Some?
                   && q == (e.relPath, d(e.kind.content.value));
          assert e in entries;
        } else {
          assert entries[|entries| - 1] in entries;
        }
      }
    }
  }

  /** Every readable regular file is recorded. */
  lemma {:induction false} FilesAreRecorded(d: Digester, entries: seq<WalkEntry>)
    ensures forall e :: e in entries && e.kind.RegularFile? && e.kind.content.Some? ==>
              (e.relPath, d(e.kind.content.value)) in Recorded(d, entries)
  {
    if entries != [] {
      var init := entries[..|entries| - 1];
      FilesAreRecorded(d, init);
      assert entries == init + [entries[|entries| - 1]];
    }
  }

  /** Directories, entries reported with an error and unreadable files contribute nothing and raise nothing. */
  lemma SkippedEntryContributesNothing(d: Digester, a: seq<WalkEntry>, e: WalkEntry, b: seq<WalkEntry>)
    requires !(e.kind.RegularFile? && e.kind.content.Some?)
    ensures Recorded(d, a + [e] + b) == Recorded(d, a + b)
  {
    RecordedAppend(d, a + [e], b);
    RecordedAppend(d, a, [e]);
    RecordedAppend(d, a, b);
    RecordedOne(d, e);
    assert Recorded(d, a) + [] == Recorded(d, a);
  }

  /** A missing source root yields zero files. */
  lemma MissingRootsYieldNoFiles(d: Digester, root1: string, root2: string)
    ensures SrcHashOf(d, SourceTree(MissingRoot(root1), MissingRoot(root2))).SrcHashOk?
    ensures SrcHashOf(d, SourceTree(MissingRoot(root1), MissingRoot(root2))).files == map[]
  {
    var e1, e2 := WalkEntry(root1, AccessError), WalkEntry(root2, AccessError);
    RecordedAppend(d, [e1], [e2]);
    RecordedOne(d, e1);
    RecordedOne(d, e2);
    assert Recorded(d, [e1] + [e2]) == [];
    assert Paths([]) == [] && Table([]) == map[];
  }

  /** The combined hash depends only on which paths were recorded and on `fileHashes`, not on the visiting order. */
  lemma CombinedHashIgnoresOrder(d: Digester, t1: SourceTree, t2: SourceTree)
    requires t1.java.Walked? && t1.resources.Walked? && t2.java.Walked? && t2.resources.Walked?
    requires multiset(Paths(Recorded(d, AllEntries(t1)))) == multiset(Paths(Recorded(d, AllEntries(t2))))
    requires Table(Recorded(d, AllEntries(t1))) == Table(Recorded(d, AllEntries(t2)))
    ensures SrcHashOf(d, t1) == SrcHashOf(d, t2)
  {
    SortDependsOnlyOnMultiset(Paths(Recorded(d, AllEntries(t1))), Paths(Recorded(d, AllEntries(t2))));
  }

  /**
   * Walks that record each path once and end with the same `relPath -> fileHash`
   * map give the same combined hash, whatever order the files were visited in.
   */
  lemma {:induction false} CombinedHashDependsOnlyOnFiles(d: Digester, t1: SourceTree, t2: SourceTree)
    requires SrcHashOf(d, t1).SrcHashOk? && SrcHashOf(d, t2).SrcHashOk?
    requires NoDup(Paths(Recorded(d, AllEntries(t1)))) && NoDup(Paths(Recorded(d, AllEntries(t2))))
    requires SrcHashOf(d, t1).files == SrcHashOf(d, t2).files
    ensures SrcHashOf(d, t1).combined == SrcHashOf(d, t2).combined
  {
    var ps1 := Recorded(d, AllEntries(t1));
    var ps2 := Recorded(d, AllEntries(t2));
    TableKeysArePaths(ps1);
    TableKeysArePaths(ps2);
    NoDupSameSetSameMultiset(Paths(ps1), Paths(ps2));
    CombinedHashIgnoresOrder(d, t1, t2);
  }

  // ---------------------------------------------------------------- the store

  /** The JSON record `{projectPath, srcHash, files}`. */
  datatype HashStore = HashStore(projectPath: string, srcHash: string, files: map<string, string>)

  /** What a hash file holds: a record, bytes that do not unmarshal, or a file that cannot be read. */
  datatype StoreFile = Stored(store: HashStore) | Corrupt | Unreadable

  /** Hash-file path to its content; a path that is not a key has no file. */
  type Disk = map<string, StoreFile>

  /** How one `saveHashStore` ends, as the file system decides it. */
  datatype WriteOutcome =
    | WriteOk
    | MkdirFailed
    | OpenFailed
      /** `os.WriteFile` truncated the file and then failed: what is left does not unmarshal. */
    | WriteInterrupted

  /** The digest, each project's current source tree, and how a write to each hash file ends. */
  datatype Host = Host(digest: Digester, tree: string -> SourceTree, write: string -> WriteOutcome)

  /** The store's name under a project: `.marn/src-hash.json`. */
  const StoreName := ".marn/src-hash.json"

  /**
   * `getHashFilePath`: `<project>/.marn/src-hash.json`. Joining the two
   * elements one at a time gives the same clean path as joining them at once.
   */
  function HashFilePath(projectPath: string): (r: string)
    ensures HasSuffix(r, StoreName)
    ensures projectPath != [] ==> HasPrefix(r, projectPath)
    ensures projectPath == [] ==> r == StoreName
    ensures projectPath != [] && projectPath[|projectPath| - 1] != '/' ==> r == projectPath + "/" + StoreName
    ensures projectPath != [] && projectPath[|projectPath| - 1] == '/' ==> r == projectPath + StoreName
  {
    JoinPath(projectPath, StoreName)
  }

  datatype LoadResult = Loaded(store: HashStore) | LoadFailed

  /** `loadHashStore`: a missing file is an empty store; an unreadable or corrupt one is an error. */
  function LoadHashStore(disk: Disk, projectPath: string): (r: LoadResult)
    ensures HashFilePath(projectPath) !in disk ==> r == Loaded(HashStore(projectPath, "", map[]))
    ensures r.LoadFailed? <==> HashFilePath(projectPath) in disk && !disk[HashFilePath(projectPath)].Stored?
  {
    var path := HashFilePath(projectPath);
    if path !in disk then Loaded(HashStore(projectPath, "", map[]))
    else match disk[path]
      case Stored(s) => Loaded(s)
      case _ => LoadFailed
  }

  datatype SaveResult = SaveResult(disk: Disk, ok: bool)

  /** `saveHashStore`: `MkdirAll` then a plain `os.WriteFile` (no temporary file, no rename). */
  function SaveHashStore(disk: Disk, store: HashStore, outcome: WriteOutcome): (r: SaveResult)
    ensures r.ok <==> outcome == WriteOk
    ensures forall p :: p != HashFilePath(store.projectPath) ==>
              (p in r.disk <==> p in disk) && (p in disk ==> r.disk[p] == disk[p])
  {
    var path := HashFilePath(store.projectPath);
    match outcome
    case WriteOk => SaveResult(disk[path := Stored(store)], true)
    case MkdirFailed => SaveResult(disk, false)
    case OpenFailed => SaveResult(disk, false)
    case WriteInterrupted => SaveResult(disk[path := Corrupt], false)
  }

  /** A successful save is read back by the next load. */
  lemma SaveThenLoad(disk: Disk, store: HashStore)
    ensures LoadHashStore(SaveHashStore(disk, store, WriteOk).disk, store.projectPath) == Loaded(store)
  {
  }

  /** `updateSrcHash`: recompute the fingerprint and overwrite the project's record. */
  function UpdateSrcHash(h: Host, disk: Disk, projectPath: string): (r: SaveResult)
    ensures r.ok <==> SrcHashOf(h.digest, h.tree(projectPath)).SrcHashOk? && h.write(HashFilePath(projectPath)) == WriteOk
    ensures forall p :: p != HashFilePath(projectPath) ==>
              (p in r.disk <==> p in disk) && (p in disk ==> r.disk[p] == disk[p])
  {
    match SrcHashOf(h.digest, h.tree(projectPath))
    case SrcHashErr => SaveResult(disk, false)
    case SrcHashOk(combined, files) =>
      SaveHashStore(disk, HashStore(projectPath, combined, files), h.write(HashFilePath(projectPath)))
  }

  /** `(shouldRebuild, currentHash, storedHash, err != nil)`. */
  datatype Decision = Decision(rebuild: bool, currentHash: string, storedHash: string, failed: bool)

  /** `shouldRebuildDependency`: fails open toward rebuilding. */
  function ShouldRebuildDependency(h: Host, disk: Disk, projectPath: string): (r: Decision)
    ensures r.failed <==> SrcHashOf(h.digest, h.tree(projectPath)).SrcHashErr?
    ensures r.failed ==> r == Decision(true, "", "", true)
    ensures !r.rebuild <==>
              && SrcHashOf(h.digest, h.tree(projectPath)).SrcHashOk?
              && LoadHashStore(disk, projectPath).Loaded?
              && LoadHashStore(disk, projectPath).store.srcHash != ""
              && SrcHashOf(h.digest, h.tree(projectPath)).combined == LoadHashStore(disk, projectPath).store.srcHash
    ensures !r.failed ==> r.currentHash == SrcHashOf(h.digest, h.tree(projectPath)).combined
    ensures !r.rebuild ==> r.currentHash == r.storedHash != ""
    ensures !r.failed && LoadHashStore(disk, projectPath).Loaded? && LoadHashStore(disk, projectPath).store.srcHash != "" ==>
              r.storedHash == LoadHashStore(disk, projectPath).store.srcHash
    ensures !r.failed && (LoadHashStore(disk, projectPath).LoadFailed? || LoadHashStore(disk, projectPath).store.srcHash == "") ==>
              r.storedHash == ""
  {
    match SrcHashOf(h.digest, h.tree(projectPath))
    case SrcHashErr => Decision(true, "", "", true)
    case SrcHashOk(currentHash, _) =>
      match LoadHashStore(disk, projectPath)
      case LoadFailed => Decision(true, currentHash, "", false)
      case Loaded(store) =>
        if store.srcHash == "" then Decision(true, currentHash, "", false)
        else Decision(currentHash != store.srcHash, currentHash, store.srcHash, false)
  }

  /** `(changed, err != nil)`. */
  datatype Change = Change(changed: bool, failed: bool)

  /** `hasSrcChanged`. */
  function HasSrcChanged(h: Host, disk: Disk, projectPath: string): (r: Change)
    ensures r.failed <==> SrcHashOf(h.digest, h.tree(projectPath)).SrcHashErr?
  {
    match SrcHashOf(h.digest, h.tree(projectPath))
    case SrcHashErr => Change(true, true)
    case SrcHashOk(currentHash, _) =>
      match LoadHashStore(disk, projectPath)
      case LoadFailed => Change(true, false)
      case Loaded(store) =>
        if store.srcHash == "" then Change(true, false)
        else Change(currentHash != store.srcHash, false)
  }

  /** `hasSrcChanged` and `shouldRebuildDependency` always agree on the verdict. */
  lemma HasSrcChangedAgrees(h: Host, disk: Disk, projectPath: string)
    ensures HasSrcChanged(h, disk, projectPath).changed == ShouldRebuildDependency(h, disk, projectPath).rebuild
    ensures HasSrcChanged(h, disk, projectPath).failed == ShouldRebuildDependency(h, disk, projectPath).failed
  {
  }

  /** Commit then check: after a successful `updateSrcHash` on an unchanged tree, nothing needs rebuilding. */
  lemma CommitThenCheck(h: Host, disk: Disk, projectPath: string)
    requires UpdateSrcHash(h, disk, projectPath).ok
    ensures !ShouldRebuildDependency(h, UpdateSrcHash(h, disk, projectPath).disk, projectPath).rebuild
  {
  }

  /** A write that dies after truncating the file leaves a store that fails to load, so the next check rebuilds. */
  lemma InterruptedCommitForcesRebuild(h: Host, disk: Disk, projectPath: string)
    requires SrcHashOf(h.digest, h.tree(projectPath)).SrcHashOk?
    requires h.write(HashFilePath(projectPath)) == WriteInterrupted
    ensures LoadHashStore(UpdateSrcHash(h, disk, projectPath).disk, projectPath) == LoadFailed
    ensures ShouldRebuildDependency(h, UpdateSrcHash(h, disk, projectPath).disk, projectPath).rebuild
  {
  }

  /** `getSrcHashDisplay`: "none" for no hash, otherwise at most the first 8 characters. */
  function SrcHashDisplay(hash: string): (r: string)
    ensures hash == [] ==> r == "none"
    ensures hash != [] ==> HasPrefix(hash, r) && |r| == if |hash| > 8 then 8 else |hash|
  {
    if hash == [] then "none"
    else if |hash| > 8 then hash[..8]
    else hash
  }
}
