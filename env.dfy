/**
 * The `.env` file loaded into the process environment before a command
 * runs, and the `${NAME}` / `$NAME` expansion applied to shell commands.
 */
module DotEnv {
  import opened Wrappers
  import opened Text

  /** The process environment. */
  type Environment = map<string, string>

  /** `os.Getenv`: the value, or "" when the variable is unset. */
  function Getenv(env: Environment, key: string): string
  {
    if key in env then env[key] else ""
  }

  // ---------------------------------------------------------------- loadEnvFile

  /** A value of at least two characters wrapped in matching double or single quotes. */
  predicate Quoted(v: string)
  {
    |v| >= 2 && ((v[0] == '"' && v[|v| - 1] == '"') || (v[0] == '\'' && v[|v| - 1] == '\''))
  }

  /** Remove one pair of matching quotes. */
  function Unquote(v: string): string
  {
    if Quoted(v) then v[1..|v| - 1] else v
  }

  /** Trimming cannot introduce a character. */
  lemma TrimSpaceKeepsOut(s: string, c: char)
    requires c !in s
    ensures c !in TrimSpace(s)
  {
    var a := LeadingSpaces(s);
    var t := s[a..];
    var b := a + |t| - TrailingSpaces(t);
    assert TrimSpace(s) == s[a..b];
    forall m | 0 <= m < b - a
      ensures s[a..b][m] != c
    {
      assert s[a..b][m] == s[a + m];
    }
  }

  /**
   * One line of the file: trimmed; blank lines, comments and lines without
   * `=` give nothing; otherwise the trimmed text before the first `=` and
   * the trimmed, unquoted text after it.
   */
  function ParseLine(line: string): Option<(string, string)>
  {
    var t := TrimSpace(line);
    if t == [] || HasPrefix(t, "#") then None
    else
      var k := IndexFrom(t, 0, '=');
      if k == |t| then None
      else Some((TrimSpace(t[..k]), Unquote(TrimSpace(t[k + 1..]))))
  }

  /** A line gives nothing exactly when it is blank, a comment, or has no `=`; a key never holds `=`. */
  lemma ParseLineCases(line: string)
    ensures var t := TrimSpace(line);
      ParseLine(line).None? <==> (t == [] || t[0] == '#' || '=' !in t)
    ensures ParseLine(line).Some? ==> '=' !in ParseLine(line).value.0
  {
    var t := TrimSpace(line);
    if t != [] && !HasPrefix(t, "#") {
      var k := IndexFrom(t, 0, '=');
      if k < |t| {
        NotInSlice(t, 0, k, '=');
        TrimSpaceKeepsOut(t[..k], '=');
      } else {
        NotInSlice(t, 0, k, '=');
        assert t[0..k] == t;
      }
    }
  }

  /** A key that reads back as itself: non-empty, already trimmed, no `=`, not a comment. */
  predicate PlainKey(k: string)
  {
    k != [] && TrimSpace(k) == k && '=' !in k && k[0] != '#'
  }

  /** Facts about `key=value` text shared by the two round trips below. */
  lemma ParseAssignment(k: string, v: string)
    requires PlainKey(k)
    requires v == [] || (!IsSpace(v[0]) && !IsSpace(v[|v| - 1]))
    ensures ParseLine(k + "=" + v) == Some((k, Unquote(TrimSpace(v))))
  {
    var t := k + "=" + v;
    assert !IsSpace(t[0]) && !IsSpace(t[|t| - 1]);
    assert TrimSpace(t) == t;
    assert !HasPrefix(t, "#");
    NotInSlice(k, 0, |k|, '=') by {
      forall m | 0 <= m < |k|
        ensures k[m] != '='
      {
        assert k[m] in k;
      }
    }
    IndexFromIs(t, 0, '=', |k|);
    assert t[..|k|] == k;
    assert t[|k| + 1..] == v;
  }

  /** Writing `key=value` and parsing it back gives the pair, for an unquoted trimmed value. */
  lemma ParseLineRoundTrip(k: string, v: string)
    requires PlainKey(k)
    requires TrimSpace(v) == v && !Quoted(v)
    ensures ParseLine(k + "=" + v) == Some((k, v))
  {
    ParseAssignment(k, v);
  }

  /** A quoted value comes back verbatim, spaces, `=` and inner quotes included. */
  lemma ParseLineQuoted(k: string, v: string, q: char)
    requires PlainKey(k)
    requires q == '"' || q == '\''
    ensures ParseLine(k + "=" + ([q] + v + [q])) == Some((k, v))
  {
    var w := [q] + v + [q];
    assert !IsSpace(w[0]) && !IsSpace(w[|w| - 1]);
    assert TrimSpace(w) == w;
    assert Quoted(w);
    assert w[1..|w| - 1] == v;
    ParseAssignment(k, w);
  }

  /** What `os.Setenv` accepts on Unix: a non-empty key without `=` or NUL, and a value without NUL. */
  predicate SetenvAccepts(key: string, value: string)
  {
    key != [] && '=' !in key && '\0' !in key && '\0' !in value
  }

  /** The effect of one line: set a parsed variable unless it already has a non-empty value. */
  function Assign(env: Environment, line: string): Environment
  {
    match ParseLine(line)
    case None => env
    case Some((key, value)) =>
      if Getenv(env, key) == "" && SetenvAccepts(key, value) then env[key := value] else env
  }

  /** The environment after the lines, in order. */
  function ApplyLines(env: Environment, lines: seq<string>): Environment
    decreases |lines|
  {
    if lines == [] then env else ApplyLines(Assign(env, lines[0]), lines[1..])
  }

  /**
   * The `.env` file of the project: absent, present but not openable, or
   * the lines the scanner yields, and whether the scanner stopped on an error.
   */
  datatype EnvFile = Missing | Unopenable | Scanned(lines: seq<string>, scanFailed: bool)

  /** The effect of a line that parses to `(key, value)`. */
  lemma AssignParsed(env: Environment, text: string, key: string, value: string)
    requires ParseLine(text) == Some((key, value))
    ensures Assign(env, text) == if Getenv(env, key) == "" && SetenvAccepts(key, value) then env[key := value] else env
  {
  }

  /** The body of the scanner loop of `loadEnvFile`, for one line. */
  method LoadLine(env0: Environment, text: string) returns (env: Environment)
    ensures env == Assign(env0, text)
  {
    env := env0;
    var line := TrimSpace(text);
    if line == "" || HasPrefix(line, "#") {
      return;
    }
    var k := IndexFrom(line, 0, '=');
    if k < |line| {
      var key := TrimSpace(line[..k]);
      var value := Unquote(TrimSpace(line[k + 1..]));
      assert ParseLine(text) == Some((key, value));
      AssignParsed(env0, text, key, value);
      if Getenv(env, key) == "" && SetenvAccepts(key, value) {
        env := env[key := value];
      }
    } else {
      assert ParseLine(text) == None;
    }
  }

  /** `loadEnvFile`, returning whether it reports an error and the environment afterwards. */
  method LoadEnvFile(file: EnvFile, env0: Environment) returns (err: bool, env: Environment)
    ensures file.Missing? ==> !err && env == env0
    ensures file.Unopenable? ==> err && env == env0
    ensures file.Scanned? ==> err == file.scanFailed && env == ApplyLines(env0, file.lines)
  {
    env := env0;
    match file {
      case Missing =>
        return false, env;
      case Unopenable =>
        return true, env;
      case Scanned(lines, scanFailed) =>
        var i := 0;
        while i < |lines|
          invariant 0 <= i <= |lines|
          invariant ApplyLines(env0, lines) == ApplyLines(env, lines[i..])
        {
          assert lines[i..][1..] == lines[i + 1..];
          env := LoadLine(env, lines[i]);
          i := i + 1;
        }
        return scanFailed, env;
    }
  }

  /** Some line parses to `key`. */
  predicate Assigns(lines: seq<string>, key: string)
  {
    exists i :: 0 <= i < |lines| && ParseLine(lines[i]).Some? && ParseLine(lines[i]).value.0 == key
  }

  /** A variable that already has a non-empty value is never overwritten. */
  lemma {:induction false} NeverOverrides(env: Environment, lines: seq<string>, key: string)
    requires Getenv(env, key) != ""
    ensures key in ApplyLines(env, lines) && ApplyLines(env, lines)[key] == env[key]
    decreases |lines|
  {
    if lines != [] {
      var env' := Assign(env, lines[0]);
      assert key in env' && env'[key] == env[key];
      NeverOverrides(env', lines[1..], key);
    }
  }

  /** A variable that no line names keeps its value, or stays unset. */
  lemma {:induction false} UnnamedUntouched(env: Environment, lines: seq<string>, key: string)
    requires !Assigns(lines, key)
    ensures (key in ApplyLines(env, lines) <==> key in env)
    ensures key in env ==> ApplyLines(env, lines)[key] == env[key]
    decreases |lines|
  {
    if lines != [] {
      var env' := Assign(env, lines[0]);
      assert (key in env' <==> key in env) && (key in env ==> env'[key] == env[key]);
      UnnamedUntouched(env', lines[1..], key);
    }
  }

  /** The line gives `key` a non-empty value that `os.Setenv` takes. */
  predicate Sets(line: string, key: string)
  {
    match ParseLine(line)
    case None => false
    case Some((k, v)) => k == key && v != "" && SetenvAccepts(k, v)
  }

  /** Line `i` is the first line that sets `key`. */
  predicate FirstSetting(lines: seq<string>, key: string, i: nat)
  {
    i < |lines| && Sets(lines[i], key) && forall j :: 0 <= j < i ==> !Sets(lines[j], key)
  }

  /** A line that does not set `key` leaves it unset or empty. */
  lemma AssignKeepsEmpty(env: Environment, line: string, key: string)
    requires Getenv(env, key) == "" && !Sets(line, key)
    ensures Getenv(Assign(env, line), key) == ""
  {
  }

  /** A line that sets `key` gives an unset or empty variable that value. */
  lemma AssignSets(env: Environment, line: string, key: string)
    requires Getenv(env, key) == "" && Sets(line, key)
    ensures Getenv(Assign(env, line), key) == ParseLine(line).value.1 != ""
  {
  }

  /** Line `i > 0` is the first setting of `key`: the first line does not set it, and in the tail it is line `i - 1`. */
  lemma FirstSettingTail(lines: seq<string>, key: string, i: nat)
    requires FirstSetting(lines, key, i) && i > 0
    ensures !Sets(lines[0], key)
    ensures FirstSetting(lines[1..], key, i - 1) && lines[1..][i - 1] == lines[i]
  {
    forall j | 0 <= j < i - 1
      ensures !Sets(lines[1..][j], key)
    {
      TailAt(lines, j);
    }
    TailAt(lines, i - 1);
  }

  /** For a variable that is unset or empty, the first non-empty value the file gives it wins. */
  lemma {:induction false} FirstSettingWins(env: Environment, lines: seq<string>, key: string, i: nat)
    requires Getenv(env, key) == ""
    requires FirstSetting(lines, key, i)
    ensures Getenv(ApplyLines(env, lines), key) == ParseLine(lines[i]).value.1
    decreases i
  {
    var env' := Assign(env, lines[0]);
    assert ApplyLines(env, lines) == ApplyLines(env', lines[1..]);
    if i == 0 {
      AssignSets(env, lines[0], key);
      NeverOverrides(env', lines[1..], key);
    } else {
      FirstSettingTail(lines, key, i);
      AssignKeepsEmpty(env, lines[0], key);
      FirstSettingWins(env', lines[1..], key, i - 1);
    }
  }

  // ---------------------------------------------------------------- expandEnvVars

  /** `[A-Za-z_]`. */
  predicate NameStart(c: char)
  {
    ('A' <= c <= 'Z') || ('a' <= c <= 'z') || c == '_'
  }

  /** `[A-Za-z0-9_]`. */
  predicate NameChar(c: char)
  {
    NameStart(c) || ('0' <= c <= '9')
  }

  /** Length of the longest prefix of `s` made of name characters. */
  function NameLength(s: string): (n: nat)
    ensures n <= |s|
    ensures forall i :: 0 <= i < n ==> NameChar(s[i])
    ensures n < |s| ==> !NameChar(s[n])
  {
    if s != [] && NameChar(s[0]) then 1 + NameLength(s[1..]) else 0
  }

  /** The index of the closing brace when `s` starts with a `${NAME}` reference, with `NAME` non-empty and brace-free. */
  function BraceEnd(s: string): (r: Option<nat>)
    ensures r.Some? ==> 3 <= r.value < |s| && s[0] == '$' && s[1] == '{' && s[r.value] == '}'
    ensures r.Some? ==> forall m :: 2 <= m < r.value ==> s[m] != '}'
    ensures r.None? && |s| >= 3 && s[0] == '$' && s[1] == '{' ==>
              (s[2] == '}' || forall m :: 2 <= m < |s| ==> s[m] != '}')
  {
    if |s| >= 3 && s[0] == '$' && s[1] == '{' && s[2] != '}' then
      var j := IndexFrom(s, 2, '}');
      if j < |s| then Some(j) else None
    else None
  }

  /** The first pass: every `${NAME}`, leftmost first, replaced by the variable's value. */
  function ExpandBraced(s: string, env: Environment): string
    decreases |s|
  {
    if s == [] then []
    else
      match BraceEnd(s)
      case Some(j) => Getenv(env, s[2..j]) + ExpandBraced(s[j + 1..], env)
      case None => [s[0]] + ExpandBraced(s[1..], env)
  }

  /** The second pass: every `$NAME`, with the longest name, replaced by the variable's value. */
  function ExpandNames(s: string, env: Environment): string
    decreases |s|
  {
    if s == [] then []
    else if |s| >= 2 && s[0] == '$' && NameStart(s[1]) then
      var n := 1 + NameLength(s[1..]);
      Getenv(env, s[1..n]) + ExpandNames(s[n..], env)
    else [s[0]] + ExpandNames(s[1..], env)
  }

  /** `expandEnvVars`. */
  function ExpandEnvVars(text: string, env: Environment): string
  {
    ExpandNames(ExpandBraced(text, env), env)
  }

  lemma {:induction false} BracedIdentity(s: string, env: Environment)
    requires '$' !in s
    ensures ExpandBraced(s, env) == s
    decreases |s|
  {
    if s != [] {
      assert s[0] in s;
      assert forall c :: c in s[1..] ==> c in s;
      BracedIdentity(s[1..], env);
    }
  }

  lemma {:induction false} NamesIdentity(s: string, env: Environment)
    requires '$' !in s
    ensures ExpandNames(s, env) == s
    decreases |s|
  {
    if s != [] {
      assert s[0] in s;
      assert forall c :: c in s[1..] ==> c in s;
      NamesIdentity(s[1..], env);
    }
  }

  /** Text without a `$` comes back unchanged, whatever the environment. */
  lemma NoDollarUnchanged(text: string, env: Environment)
    requires '$' !in text
    ensures ExpandEnvVars(text, env) == text
  {
    BracedIdentity(text, env);
    NamesIdentity(text, env);
  }

  /** `${NAME}` is replaced by the value of `NAME`, or by nothing when it is unset or empty. */
  lemma BracedReference(name: string, rest: string, env: Environment)
    requires name != [] && '}' !in name
    ensures ExpandBraced("${" + name + "}" + rest, env) == Getenv(env, name) + ExpandBraced(rest, env)
  {
    var s := "${" + name + "}" + rest;
    var j := 2 + |name|;
    assert s[2] == name[0];
    forall m | 2 <= m < j
      ensures s[m] != '}'
    {
      assert s[m] == name[m - 2];
    }
    IndexFromIs(s, 2, '}', j);
    assert BraceEnd(s) == Some(j);
    assert s[2..j] == name;
    assert s[j + 1..] == rest;
  }

  /** `$NAME` with the whole name is replaced by the variable's value, or by nothing when it is unset or empty. */
  lemma NameReference(name: string, rest: string, env: Environment)
    requires name != [] && NameStart(name[0])
    requires forall i :: 0 <= i < |name| ==> NameChar(name[i])
    requires rest == [] || !NameChar(rest[0])
    ensures ExpandNames("$" + name + rest, env) == Getenv(env, name) + ExpandNames(rest, env)
  {
    var s := "$" + name + rest;
    NameLengthIs(s[1..], |name|);
    assert s[1..][..|name|] == name;
    assert s[1..1 + |name|] == name;
    assert s[1 + |name|..] == rest;
  }

  lemma {:induction false} NameLengthIs(s: string, n: nat)
    requires n <= |s|
    requires forall i :: 0 <= i < n ==> NameChar(s[i])
    requires n == |s| || !NameChar(s[n])
    ensures NameLength(s) == n
    decreases n
  {
    if n > 0 {
      NameLengthIs(s[1..], n - 1);
    }
  }

  /** A `$` not followed by a letter or `_` stays, in the second pass. */
  lemma LoneDollarKept(rest: string, env: Environment)
    requires rest == [] || !NameStart(rest[0])
    ensures ExpandNames("$" + rest, env) == "$" + ExpandNames(rest, env)
  {
    assert ("$" + rest)[1..] == rest;
  }

  /** `${}` is no reference: it survives both passes. */
  lemma EmptyBracesKept(env: Environment)
    ensures ExpandEnvVars("${}", env) == "${}"
  {
    assert BraceEnd("${}") == None;
    assert "${}"[1..] == "{}";
    assert ExpandBraced("{}", env) == "{}" by {
      assert "{}"[1..] == "}";
      assert ExpandBraced("}", env) == "}" by {
        assert "}"[1..] == [];
      }
    }
    NamesIdentity("{}", env);
    LoneDollarKept("{}", env);
  }

  /** The value substituted for `${NAME}` goes through the second pass together with the rest. */
  lemma BracedRescanned(name: string, rest: string, env: Environment)
    requires name != [] && '}' !in name
    ensures ExpandEnvVars("${" + name + "}" + rest, env) == ExpandNames(Getenv(env, name) + ExpandBraced(rest, env), env)
  {
    BracedReference(name, rest, env);
  }

  /** A value substituted in the first pass is scanned again by the second. */
  lemma ValuesAreRescanned()
    ensures ExpandEnvVars("${A}", map["A" := "$B", "B" := "x"]) == "x"
  {
    var env := map["A" := "$B", "B" := "x"];
    BracedRescanned("A", "", env);
    assert "${" + "A" + "}" + "" == "${A}";
    assert ExpandBraced("", env) == "";
    NameReference("B", "", env);
    assert "$" + "B" + "" == "$B";
  }
}
