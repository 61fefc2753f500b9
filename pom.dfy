/**
 * The readers of `pom.xml`: the `getProperty` and `getScriptsFromPom` regular
 * expressions written out as scanners, and the discovery of local dependencies.
 */
module Pom {
  import opened Wrappers
  import opened Text

  datatype Dependency = Dependency(groupId: string, artifactId: string, version: string)

  /** The parts of the unmarshalled `POM` record that the core reads. */
  datatype Project = Project(artifactId: string, dependencies: seq<Dependency>)

  /**
   * `pom.xml` as `os.ReadFile` and `xml.Unmarshal` see it: unreadable, or its
   * text together with the outcome of unmarshalling that text (`None`: an error).
   */
  datatype PomFile = PomUnreadable | PomText(content: string, parsed: Option<Project>)

  // ---------------------------------------------------------------- getProperty

  /**
   * `s` matches the pattern `name` spliced into the expression unescaped:
   * a `.` of the name stands for any character but a newline, as in RE2,
   * and every other character stands for itself.
   */
  predicate MatchesName(s: string, name: string)
  {
    |s| == |name| && forall k :: 0 <= k < |s| ==> if name[k] == '.' then s[k] != '\n' else s[k] == name[k]
  }

  /** At position `i` of `s` stands `lead`, then text matching `name`, then `>`. */
  predicate TagAt(s: string, i: nat, lead: string, name: string)
  {
    && i + |lead| + |name| + 1 <= |s|
    && s[i..i + |lead|] == lead
    && MatchesName(s[i + |lead|..i + |lead| + |name|], name)
    && s[i + |lead| + |name|] == '>'
  }

  /** The expression `<name>([^<]*)</name>` matches at position `i` of `s`, capturing `v`. */
  predicate ElementWith(s: string, name: string, i: nat, v: string)
  {
    var j := i + |name| + 2;
    && TagAt(s, i, "<", name)
    && j + |v| <= |s|
    && s[j..j + |v|] == v
    && '<' !in v
    && TagAt(s, j + |v|, "</", name)
  }

  /** The match of `<name>([^<]*)</name>` anchored at `i`, if there is one; there is at most one. */
  function ElementAt(s: string, name: string, i: nat): (r: Option<string>)
    requires i <= |s|
    ensures r.Some? ==> ElementWith(s, name, i, r.value)
  {
    if !TagAt(s, i, "<", name) then None
    else
      var j := i + |name| + 2;
      var k := IndexFrom(s, j, '<');
      if TagAt(s, k, "</", name) then Some(s[j..k]) else None
  }

  /** There is at most one match anchored at a position, and `ElementAt` finds it. */
  lemma ElementAtComplete(s: string, name: string, i: nat)
    requires i <= |s|
    ensures forall v :: ElementWith(s, name, i, v) ==> ElementAt(s, name, i) == Some(v)
  {
    forall v | ElementWith(s, name, i, v)
      ensures ElementAt(s, name, i) == Some(v)
    {
      var j := i + |name| + 2;
      assert s[j + |v|] == "</"[0];
      forall m | j <= m < j + |v|
        ensures s[m] != '<'
      {
        assert s[m] == v[m - j];
      }
      IndexFromIs(s, j, '<', j + |v|);
    }
  }

  /** The leftmost match at or after `i`: its position and its capture. */
  function FirstElement(s: string, name: string, i: nat): (r: Option<(nat, string)>)
    requires i <= |s|
    ensures r.Some? ==> i <= r.value.0 && ElementWith(s, name, r.value.0, r.value.1)
    ensures r.Some? ==> forall k: nat, w :: i <= k < r.value.0 ==> !ElementWith(s, name, k, w)
    ensures r.None? ==> forall k: nat, w :: i <= k ==> !ElementWith(s, name, k, w)
    decreases |s| - i
  {
    ElementAtComplete(s, name, i);
    match ElementAt(s, name, i)
    case Some(v) => Some((i, v))
    case None => if i == |s| then None else FirstElement(s, name, i + 1)
  }

  /** `getProperty`: the trimmed capture of the first `<name>...</name>`, or "". */
  function GetProperty(pom: PomFile, name: string): string
  {
    match pom
    case PomUnreadable => ""
    case PomText(content, _) =>
      match FirstElement(content, name, 0)
      case Some((_, v)) => TrimSpace(v)
      case None => ""
  }

  /** The leftmost element decides the property, trimmed. */
  lemma GetPropertyIsLeftmost(pom: PomFile, name: string, p: nat, v: string)
    requires pom.PomText? && ElementWith(pom.content, name, p, v)
    requires forall k: nat, w :: k < p ==> !ElementWith(pom.content, name, k, w)
    ensures GetProperty(pom, name) == TrimSpace(v)
  {
    var s := pom.content;
    var r := FirstElement(s, name, 0);
    assert r.Some?;
    assert r.value.0 == p;
    ElementAtComplete(s, name, p);
  }

  /** No matching element, or no readable file, gives "". */
  lemma GetPropertyAbsent(pom: PomFile, name: string)
    requires pom.PomText? ==> forall k: nat, w :: !ElementWith(pom.content, name, k, w)
    ensures GetProperty(pom, name) == ""
  {
  }

  // ---------------------------------------------------------------- getScriptsFromPom

  /** One match of `<script\.([^>]+)>([^<]*)</script\.[^>]+>` spanning `s[start..end]`. */
  datatype ScriptMatch = ScriptMatch(start: nat, name: string, body: string, end: nat)

  const ScriptOpen := "<script."
  const ScriptClose := "</script."

  predicate ScriptWith(s: string, m: ScriptMatch)
  {
    var a := m.start + 8;
    var b := a + |m.name| + 1;
    var c := b + |m.body|;
    && c + 10 < m.end <= |s|
    && s[m.start..a] == ScriptOpen
    && m.name != [] && '>' !in m.name && s[a..a + |m.name|] == m.name && s[a + |m.name|] == '>'
    && '<' !in m.body && s[b..c] == m.body
    && s[c..c + 9] == ScriptClose
    && '>' !in s[c + 9..m.end - 1] && s[m.end - 1] == '>'
  }

  /** The match anchored at `i`, if there is one. */
  function ScriptAt(s: string, i: nat): (r: Option<ScriptMatch>)
    requires i <= |s|
    ensures r.Some? ==> r.value.start == i && ScriptWith(s, r.value)
  {
    if !(i + 8 <= |s| && s[i..i + 8] == ScriptOpen) then None
    else ScriptNamed(s, i, IndexFrom(s, i + 8, '>'))
  }

  /** The opening `<script.` stands at `i`, and `g` is the first `>` after it. */
  function ScriptNamed(s: string, i: nat, g: nat): (r: Option<ScriptMatch>)
    requires i + 8 <= g <= |s| && s[i..i + 8] == ScriptOpen
    requires forall m :: i + 8 <= m < g ==> s[m] != '>'
    requires g < |s| ==> s[g] == '>'
    ensures r.Some? ==> r.value.start == i && ScriptWith(s, r.value)
  {
    if g == i + 8 || g == |s| then None
    else ScriptBodied(s, i, g, IndexFrom(s, g + 1, '<'))
  }

  /** The name `s[i + 8..g]` is non-empty, and `c` is the first `<` after its `>`. */
  function ScriptBodied(s: string, i: nat, g: nat, c: nat): (r: Option<ScriptMatch>)
    requires i + 8 < g < c <= |s| && s[i..i + 8] == ScriptOpen && s[g] == '>'
    requires forall m :: i + 8 <= m < g ==> s[m] != '>'
    requires forall m :: g + 1 <= m < c ==> s[m] != '<'
    ensures r.Some? ==> r.value.start == i && ScriptWith(s, r.value)
  {
    if !(c + 9 <= |s| && s[c..c + 9] == ScriptClose) then None
    else ScriptClosed(s, i, g, c, IndexFrom(s, c + 9, '>'))
  }

  /** `</script.` stands at `c`, and `e` is the first `>` after it. */
  function ScriptClosed(s: string, i: nat, g: nat, c: nat, e: nat): (r: Option<ScriptMatch>)
    requires i + 8 < g < c && c + 9 <= e <= |s| && s[i..i + 8] == ScriptOpen && s[g] == '>'
    requires s[c..c + 9] == ScriptClose
    requires forall m :: i + 8 <= m < g ==> s[m] != '>'
    requires forall m :: g + 1 <= m < c ==> s[m] != '<'
    requires forall m :: c + 9 <= m < e ==> s[m] != '>'
    requires e < |s| ==> s[e] == '>'
    ensures r.Some? ==> r.value.start == i && ScriptWith(s, r.value)
  {
    if e == c + 9 || e == |s| then None
    else
      NotInSlice(s, i + 8, g, '>');
      NotInSlice(s, g + 1, c, '<');
      NotInSlice(s, c + 9, e, '>');
      Some(ScriptMatch(i, s[i + 8..g], s[g + 1..c], e + 1))
  }

  lemma ScriptNameEnd(s: string, m: ScriptMatch)
    requires ScriptWith(s, m)
    ensures IndexFrom(s, m.start + 8, '>') == m.start + 8 + |m.name|
  {
    var a := m.start + 8;
    forall k | a <= k < a + |m.name| ensures s[k] != '>' { assert s[k] == m.name[k - a]; }
    IndexFromIs(s, a, '>', a + |m.name|);
  }

  lemma ScriptBodyEnd(s: string, m: ScriptMatch)
    requires ScriptWith(s, m)
    ensures IndexFrom(s, m.start + 9 + |m.name|, '<') == m.start + 9 + |m.name| + |m.body|
  {
    var b := m.start + 9 + |m.name|;
    var c := b + |m.body|;
    forall k | b <= k < c ensures s[k] != '<' { assert s[k] == m.body[k - b]; }
    assert s[c] == ScriptClose[0];
    IndexFromIs(s, b, '<', c);
  }

  lemma ScriptCloseEnd(s: string, m: ScriptMatch)
    requires ScriptWith(s, m)
    ensures IndexFrom(s, m.start + 18 + |m.name| + |m.body|, '>') == m.end - 1
  {
    var c := m.start + 9 + |m.name| + |m.body|;
    forall k | c + 9 <= k < m.end - 1 ensures s[k] != '>' { assert s[k] == s[c + 9..m.end - 1][k - (c + 9)]; }
    IndexFromIs(s, c + 9, '>', m.end - 1);
  }

  /** Where the three searches of `ScriptAt` stop on a match. */
  lemma ScriptBoundaries(s: string, m: ScriptMatch)
    requires ScriptWith(s, m)
    ensures IndexFrom(s, m.start + 8, '>') == m.start + 8 + |m.name|
    ensures IndexFrom(s, m.start + 9 + |m.name|, '<') == m.start + 9 + |m.name| + |m.body|
    ensures IndexFrom(s, m.start + 18 + |m.name| + |m.body|, '>') == m.end - 1
  {
    ScriptNameEnd(s, m);
    ScriptBodyEnd(s, m);
    ScriptCloseEnd(s, m);
  }

  lemma ScriptClosedComplete(s: string, m: ScriptMatch)
    requires ScriptWith(s, m)
    ensures var g := m.start + 8 + |m.name|;
      ScriptClosed(s, m.start, g, g + 1 + |m.body|, m.end - 1) == Some(m)
  {
    var g := m.start + 8 + |m.name|;
    ScriptBoundaries(s, m);
    assert s[m.start + 8..g] == m.name && s[g + 1..g + 1 + |m.body|] == m.body;
  }

  lemma ScriptBodiedComplete(s: string, m: ScriptMatch)
    requires ScriptWith(s, m)
    ensures var g := m.start + 8 + |m.name|;
      ScriptBodied(s, m.start, g, g + 1 + |m.body|) == Some(m)
  {
    ScriptBoundaries(s, m);
    ScriptClosedComplete(s, m);
  }

  lemma ScriptNamedComplete(s: string, m: ScriptMatch)
    requires ScriptWith(s, m)
    ensures ScriptNamed(s, m.start, m.start + 8 + |m.name|) == Some(m)
  {
    var g := m.start + 8 + |m.name|;
    assert IndexFrom(s, g + 1, '<') == g + 1 + |m.body| by {
      ScriptBoundaries(s, m);
    }
    ScriptBodiedComplete(s, m);
  }

  /** Every match anchored at a position is the one `ScriptAt` finds there. */
  lemma ScriptAtComplete(s: string, m: ScriptMatch)
    requires ScriptWith(s, m)
    ensures ScriptAt(s, m.start) == Some(m)
  {
    ScriptBoundaries(s, m);
    ScriptNamedComplete(s, m);
  }

  /** `FindAllStringSubmatch`: the leftmost match, then the leftmost one after its end, and so on. */
  function ScriptMatches(s: string, i: nat): (r: seq<ScriptMatch>)
    requires i <= |s|
    ensures forall k :: 0 <= k < |r| ==> ScriptWith(s, r[k]) && i <= r[k].start
    ensures forall k :: 0 < k < |r| ==> r[k - 1].end <= r[k].start
    decreases |s| - i
  {
    if i == |s| then []
    else
      match ScriptAt(s, i)
      case Some(m) => [m] + ScriptMatches(s, m.end)
      case None => ScriptMatches(s, i + 1)
  }

  /** No match is skipped: a position before the first reported match anchors none. */
  lemma {:induction false} ScriptMatchesLeftmost(s: string, i: nat, m: ScriptMatch)
    requires i <= m.start && ScriptWith(s, m)
    ensures ScriptMatches(s, i) != [] && ScriptMatches(s, i)[0].start <= m.start
    decreases |s| - i
  {
    if ScriptAt(s, i).None? {
      if i == m.start {
        ScriptAtComplete(s, m);
      } else {
        ScriptMatchesLeftmost(s, i + 1, m);
      }
    }
  }

  /** The `name -> trimmed body` assignments in the order the loop performs them. */
  function Assignments(ms: seq<ScriptMatch>): (r: seq<(string, string)>)
  {
    seq(|ms|, k requires 0 <= k < |ms| => (ms[k].name, TrimSpace(ms[k].body)))
  }

  function Matches(pom: PomFile): seq<ScriptMatch>
  {
    if pom.PomUnreadable? then [] else ScriptMatches(pom.content, 0)
  }

  /** The script table: every match's assignment applied in order. */
  function Scripts(pom: PomFile): map<string, string>
  {
    Overwrite(map[], Assignments(Matches(pom)))
  }

  lemma AssignmentsStep(ms: seq<ScriptMatch>, i: nat)
    requires i < |ms|
    ensures Overwrite(map[], Assignments(ms[..i + 1]))
            == Overwrite(map[], Assignments(ms[..i]))[ms[i].name := TrimSpace(ms[i].body)]
  {
    var q := (ms[i].name, TrimSpace(ms[i].body));
    assert Assignments(ms[..i + 1]) == Assignments(ms[..i]) + [q];
    OverwriteAppend(map[], Assignments(ms[..i]), [q]);
    OverwriteOne(Overwrite(map[], Assignments(ms[..i])), q);
  }

  /** `getScriptsFromPom`: fill the map one match at a time. */
  method GetScriptsFromPom(pom: PomFile) returns (scripts: map<string, string>)
    ensures scripts == Scripts(pom)
  {
    scripts := map[];
    if pom.PomUnreadable? {
      return;
    }
    var matches := ScriptMatches(pom.content, 0);
    var i := 0;
    while i < |matches|
      invariant 0 <= i <= |matches|
      invariant scripts == Overwrite(map[], Assignments(matches[..i]))
    {
      var match_ := matches[i];
      AssignmentsStep(matches, i);
      scripts := scripts[match_.name := TrimSpace(match_.body)];
      i := i + 1;
    }
    assert matches[..i] == matches;
  }

  /** After the assignments, the names are the keys, and each holds the trimmed body of its last match. */
  lemma AssignedScripts(ms: seq<ScriptMatch>)
    ensures forall n :: n in Overwrite(map[], Assignments(ms)) <==> exists k :: 0 <= k < |ms| && ms[k].name == n
    ensures forall k :: 0 <= k < |ms| && (forall j :: k < j < |ms| ==> ms[j].name != ms[k].name)
              ==> Overwrite(map[], Assignments(ms))[ms[k].name] == TrimSpace(ms[k].body)
  {
    forall n ensures n in Overwrite(map[], Assignments(ms)) <==> exists k :: 0 <= k < |ms| && ms[k].name == n {
      AssignedScriptNames(ms, n);
    }
    forall k | 0 <= k < |ms| && (forall j :: k < j < |ms| ==> ms[j].name != ms[k].name)
      ensures Overwrite(map[], Assignments(ms))[ms[k].name] == TrimSpace(ms[k].body)
    {
      AssignedScriptBody(ms, k);
    }
  }

  lemma AssignedScriptNames(ms: seq<ScriptMatch>, n: string)
    ensures n in Overwrite(map[], Assignments(ms)) <==> exists k :: 0 <= k < |ms| && ms[k].name == n
  {
    var ps := Assignments(ms);
    OverwriteKeys(map[], ps);
    if UpdatesKey(ps, n) {
      var k :| 0 <= k < |ps| && ps[k].0 == n;
      assert ms[k].name == n;
    }
    if exists k :: 0 <= k < |ms| && ms[k].name == n {
      var k :| 0 <= k < |ms| && ms[k].name == n;
      assert ps[k].0 == n;
    }
  }

  lemma AssignedScriptBody(ms: seq<ScriptMatch>, k: nat)
    requires k < |ms| && forall j :: k < j < |ms| ==> ms[j].name != ms[k].name
    ensures ms[k].name in Overwrite(map[], Assignments(ms))
            && Overwrite(map[], Assignments(ms))[ms[k].name] == TrimSpace(ms[k].body)
  {
    AssignedScriptNames(ms, ms[k].name);
    var ps := Assignments(ms);
    forall j | k < j < |ps| ensures ps[j].0 != ps[k].0 {
      assert ms[j].name != ms[k].name;
    }
    OverwriteLastWins(map[], ps, k);
  }

  // ---------------------------------------------------------------- getLocalDependencies

  /** `filepath.Dir` of a clean path: everything before its last `/`, the root for a top-level entry. */
  function ParentDir(dir: string): (r: string)
    ensures HasPrefix(dir, r)
    ensures '/' !in dir ==> r == []
    ensures '/' in dir && r != "/" ==>
              0 < |r| < |dir| && dir[|r|] == '/' && forall i :: |r| < i < |dir| ==> dir[i] != '/'
    ensures r == "/" ==> dir[0] == '/' && forall i :: 1 < i < |dir| ==> dir[i] != '/'
  {
    if dir == [] then []
    else if dir[|dir| - 1] == '/' then (if |dir| == 1 then dir else dir[..|dir| - 1])
    else ParentDir(dir[..|dir| - 1])
  }

  /** `filepath.Join(currentDir, "..", artifactId)` for a clean `currentDir`. */
  function SiblingPath(currentDir: string, artifactId: string): string
  {
    JoinPath(ParentDir(currentDir), artifactId)
  }

  /** A declared dependency is a local sibling: a SNAPSHOT whose sibling directory has a `pom.xml`. */
  predicate LocalSibling(dep: Dependency, currentDir: string, existing: set<string>)
  {
    Contains(dep.version, "SNAPSHOT") && JoinPath(SiblingPath(currentDir, dep.artifactId), "pom.xml") in existing
  }

  /** The sibling paths the second loop appends, in declaration order. */
  function SnapshotSiblings(ds: seq<Dependency>, currentDir: string, existing: set<string>): seq<string>
  {
    if ds == [] then []
    else
      var last := ds[|ds| - 1];
      var r0 := SnapshotSiblings(ds[..|ds| - 1], currentDir, existing);
      if LocalSibling(last, currentDir, existing) then r0 + [SiblingPath(currentDir, last.artifactId)] else r0
  }

  lemma SnapshotSiblingsStep(ds: seq<Dependency>, i: nat, currentDir: string, existing: set<string>)
    requires i < |ds|
    ensures SnapshotSiblings(ds[..i + 1], currentDir, existing)
            == SnapshotSiblings(ds[..i], currentDir, existing)
               + if LocalSibling(ds[i], currentDir, existing) then [SiblingPath(currentDir, ds[i].artifactId)] else []
  {
    assert ds[..i + 1][..i] == ds[..i];
  }

  /** A declared dependency contributes exactly when it is a local sibling, and it contributes its sibling path. */
  lemma {:induction false} SnapshotSiblingsMembers(ds: seq<Dependency>, currentDir: string, existing: set<string>)
    ensures forall x :: x in SnapshotSiblings(ds, currentDir, existing)
                        <==> exists k :: 0 <= k < |ds| && LocalSibling(ds[k], currentDir, existing)
                                         && x == SiblingPath(currentDir, ds[k].artifactId)
  {
    if ds != [] {
      var init := ds[..|ds| - 1];
      SnapshotSiblingsMembers(init, currentDir, existing);
      assert forall k :: 0 <= k < |init| ==> init[k] == ds[k];
    }
  }

  /** The first occurrence of each element, in order. */
  function Dedup(s: seq<string>): seq<string>
  {
    if s == [] then []
    else
      var r := Dedup(s[..|s| - 1]);
      if s[|s| - 1] in r then r else r + [s[|s| - 1]]
  }

  lemma {:induction false} DedupElements(s: seq<string>)
    ensures forall x :: x in Dedup(s) <==> x in s
  {
    if s != [] {
      DedupElements(s[..|s| - 1]);
      assert s == s[..|s| - 1] + [s[|s| - 1]];
    }
  }

  lemma {:induction false} DedupNoDup(s: seq<string>)
    ensures NoDup(Dedup(s))
  {
    if s != [] {
      DedupNoDup(s[..|s| - 1]);
    }
  }

  /** A list without duplicates comes back unchanged. */
  lemma {:induction false} DedupOfNoDup(s: seq<string>)
    requires NoDup(s)
    ensures Dedup(s) == s
  {
    if s != [] {
      var init := s[..|s| - 1];
      assert NoDup(init) by {
        forall i, j | 0 <= i < j < |init| ensures init[i] != init[j] { assert init[i] == s[i] && init[j] == s[j]; }
      }
      DedupOfNoDup(init);
      forall i | 0 <= i < |init|
        ensures init[i] != s[|s| - 1]
      {
        assert init[i] == s[i];
      }
      assert s == init + [s[|s| - 1]];
    }
  }

  /** Appending never reorders or removes what was already kept: the first occurrences keep their relative order. */
  lemma {:induction false} DedupPrefix(a: seq<string>, b: seq<string>)
    ensures |Dedup(a)| <= |Dedup(a + b)| && Dedup(a + b)[..|Dedup(a)|] == Dedup(a)
    decreases |b|
  {
    if b == [] {
      assert a + b == a;
    } else {
      var b' := b[..|b| - 1];
      assert (a + b)[..|a + b| - 1] == a + b';
      DedupPrefix(a, b');
    }
  }

  /** What `getLocalDependencies` returns. */
  function LocalDependencies(pom: PomFile, currentDir: string, existing: set<string>): seq<string>
  {
    var configured := Fields(GetProperty(pom, "watch.localDeps"));
    match pom
    case PomText(_, Some(p)) => Dedup(configured + SnapshotSiblings(p.dependencies, currentDir, existing))
    case _ => configured
  }

  /** `getLocalDependencies`: configured entries, then local SNAPSHOT siblings, then deduplication. */
  method GetLocalDependencies(pom: PomFile, currentDir: string, existing: set<string>) returns (uniqueDeps: seq<string>)
    ensures uniqueDeps == LocalDependencies(pom, currentDir, existing)
  {
    var deps: seq<string> := [];
    var configuredDeps := GetProperty(pom, "watch.localDeps");
    if configuredDeps != "" {
      deps := Fields(configuredDeps);
    }
    if pom.PomUnreadable? || pom.parsed.None? {
      return deps;
    }
    deps := AppendSiblings(deps, pom.parsed.value.dependencies, currentDir, existing);
    uniqueDeps := RemoveDuplicates(deps);
  }

  /** The second loop: append the sibling path of each local SNAPSHOT dependency. */
  method AppendSiblings(deps0: seq<string>, ds: seq<Dependency>, currentDir: string, existing: set<string>)
    returns (deps: seq<string>)
    ensures deps == deps0 + SnapshotSiblings(ds, currentDir, existing)
  {
    deps := deps0;
    var i := 0;
    while i < |ds|
      invariant 0 <= i <= |ds|
      invariant deps == deps0 + SnapshotSiblings(ds[..i], currentDir, existing)
    {
      var dep := ds[i];
      SnapshotSiblingsStep(ds, i, currentDir, existing);
      if Contains(dep.version, "SNAPSHOT") {
        var siblingPath := SiblingPath(currentDir, dep.artifactId);
        if JoinPath(siblingPath, "pom.xml") in existing {
          deps := deps + [siblingPath];
        }
      }
      i := i + 1;
    }
    assert ds[..i] == ds;
  }

  /** The third loop: keep each path the first time it is seen. */
  method RemoveDuplicates(deps: seq<string>) returns (uniqueDeps: seq<string>)
    ensures uniqueDeps == Dedup(deps)
  {
    var seen: set<string> := {};
    uniqueDeps := [];
    var k := 0;
    while k < |deps|
      invariant 0 <= k <= |deps|
      invariant uniqueDeps == Dedup(deps[..k])
      invariant forall x :: x in seen <==> x in deps[..k]
    {
      var dep := deps[k];
      assert deps[..k + 1] == deps[..k] + [dep];
      DedupElements(deps[..k]);
      if dep !in seen {
        seen := seen + {dep};
        uniqueDeps := uniqueDeps + [dep];
      }
      k := k + 1;
    }
    assert deps[..k] == deps;
  }

  /** When the file parses, the result has no duplicates. */
  lemma LocalDependenciesNoDup(pom: PomFile, currentDir: string, existing: set<string>)
    requires pom.PomText? && pom.parsed.Some?
    ensures NoDup(LocalDependencies(pom, currentDir, existing))
  {
    var p := pom.parsed.value;
    DedupNoDup(Fields(GetProperty(pom, "watch.localDeps")) + SnapshotSiblings(p.dependencies, currentDir, existing));
  }

  /**
   * When the file parses, a path is in the result exactly when it is a
   * configured entry or the sibling path of a local SNAPSHOT dependency.
   */
  lemma LocalDependenciesMembers(pom: PomFile, currentDir: string, existing: set<string>, x: string)
    requires pom.PomText? && pom.parsed.Some?
    ensures var ds := pom.parsed.value.dependencies;
      (x in LocalDependencies(pom, currentDir, existing))
        <==> (x in Fields(GetProperty(pom, "watch.localDeps"))
             || exists k :: 0 <= k < |ds| && LocalSibling(ds[k], currentDir, existing)
                            && x == SiblingPath(currentDir, ds[k].artifactId))
  {
    var configured := Fields(GetProperty(pom, "watch.localDeps"));
    var siblings := SnapshotSiblings(pom.parsed.value.dependencies, currentDir, existing);
    SnapshotSiblingsMembers(pom.parsed.value.dependencies, currentDir, existing);
    DedupElements(configured + siblings);
    assert x in configured + siblings <==> x in configured || x in siblings;
  }

  /**
   * The configured entries come first, in their order; when they are distinct
   * they come verbatim, before any sibling-derived path.
   */
  lemma LocalDependenciesConfiguredFirst(pom: PomFile, currentDir: string, existing: set<string>)
    ensures var configured := Fields(GetProperty(pom, "watch.localDeps"));
      var r := LocalDependencies(pom, currentDir, existing);
      && |Dedup(configured)| <= |r|
      && (pom.PomText? && pom.parsed.Some? ==> r[..|Dedup(configured)|] == Dedup(configured))
      && (NoDup(configured) ==> |configured| <= |r| && r[..|configured|] == configured)
  {
    var configured := Fields(GetProperty(pom, "watch.localDeps"));
    var r := LocalDependencies(pom, currentDir, existing);
    if pom.PomText? && pom.parsed.Some? {
      DedupPrefix(configured, SnapshotSiblings(pom.parsed.value.dependencies, currentDir, existing));
      if NoDup(configured) {
        DedupOfNoDup(configured);
      }
    } else {
      assert r == configured;
      DedupLength(configured);
      assert r[..|configured|] == configured;
    }
  }

  lemma {:induction false} DedupLength(s: seq<string>)
    ensures |Dedup(s)| <= |s|
  {
    if s != [] {
      DedupLength(s[..|s| - 1]);
    }
  }

  /** When the file is unreadable or does not unmarshal, the configured list comes back as is, duplicates included. */
  lemma LocalDependenciesUnparsed(pom: PomFile, currentDir: string, existing: set<string>)
    requires pom.PomUnreadable? || pom.parsed.None?
    ensures LocalDependencies(pom, currentDir, existing) == Fields(GetProperty(pom, "watch.localDeps"))
    ensures pom.PomUnreadable? ==> LocalDependencies(pom, currentDir, existing) == []
  {
  }
}
