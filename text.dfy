/**
 * The pieces of Go's `strings` and `path/filepath` packages that the build
 * wrapper relies on, stated on `seq<char>`: white space as `unicode.IsSpace`
 * defines it, `TrimSpace`, `Fields`, `HasPrefix`, `HasSuffix`, `Contains`,
 * `filepath.Join` of two clean components, and the byte-wise string order
 * used by `sort.Strings`.
 */
module Text {

  /** `unicode.IsSpace`: the Latin-1 spaces plus the Unicode category Z spaces. */
  predicate IsSpace(c: char)
  {
    || c == ' ' || c == '\t' || c == '\n' || c == '\U{000B}' || c == '\U{000C}' || c == '\r'
    || c == '\U{0085}' || c == '\U{00A0}' || c == '\U{1680}'
    || ('\U{2000}' <= c <= '\U{200A}')
    || c == '\U{2028}' || c == '\U{2029}' || c == '\U{202F}' || c == '\U{205F}' || c == '\U{3000}'
  }

  predicate NoSpace(s: string)
  {
    forall i :: 0 <= i < |s| ==> !IsSpace(s[i])
  }

  /** `strings.HasPrefix`. */
  predicate HasPrefix(s: string, prefix: string)
  {
    |prefix| <= |s| && s[..|prefix|] == prefix
  }

  /** `strings.HasSuffix`. */
  predicate HasSuffix(s: string, suffix: string)
  {
    |suffix| <= |s| && s[|s| - |suffix|..] == suffix
  }

  /** `strings.Contains`: `sub` occurs somewhere in `s`. */
  predicate Contains(s: string, sub: string)
    decreases |s|
  {
    HasPrefix(s, sub) || (s != [] && Contains(s[1..], sub))
  }

  /** Number of leading white-space characters of `s`. */
  function LeadingSpaces(s: string): (n: nat)
    ensures n <= |s|
    ensures forall i :: 0 <= i < n ==> IsSpace(s[i])
    ensures n < |s| ==> !IsSpace(s[n])
  {
    if s != [] && IsSpace(s[0]) then 1 + LeadingSpaces(s[1..]) else 0
  }

  /** Number of trailing white-space characters of `s`. */
  function TrailingSpaces(s: string): (n: nat)
    ensures n <= |s|
    ensures forall i :: |s| - n <= i < |s| ==> IsSpace(s[i])
    ensures n < |s| ==> !IsSpace(s[|s| - 1 - n])
  {
    if s != [] && IsSpace(s[|s| - 1]) then 1 + TrailingSpaces(s[..|s| - 1]) else 0
  }

  /**
   * `strings.TrimSpace`: `s` with its leading white space (`LeadingSpaces`)
   * and its trailing white space removed; nothing else is removed, and what
   * is left neither starts nor ends with white space.
   */
  function TrimSpace(s: string): (r: string)
    ensures |r| <= |s|
    ensures r == [] || (!IsSpace(r[0]) && !IsSpace(r[|r| - 1]))
    ensures s == [] || (!IsSpace(s[0]) && !IsSpace(s[|s| - 1])) ==> r == s
  {
    var a := LeadingSpaces(s);
    var t := s[a..];
    var b := a + |t| - TrailingSpaces(t);
    assert s[a..b] == t[..|t| - TrailingSpaces(t)];
    s[a..b]
  }

  /**
   * What `TrimSpace` keeps: the text between the leading white space and a
   * tail made only of white space.
   */
  lemma TrimSpaceIs(s: string)
    ensures LeadingSpaces(s) + |TrimSpace(s)| <= |s|
    ensures TrimSpace(s) == s[LeadingSpaces(s)..LeadingSpaces(s) + |TrimSpace(s)|]
    ensures forall i :: LeadingSpaces(s) + |TrimSpace(s)| <= i < |s| ==> IsSpace(s[i])
  {
    var a := LeadingSpaces(s);
    var t := s[a..];
    var b := a + |t| - TrailingSpaces(t);
    assert TrimSpace(s) == s[a..b];
    forall i | b <= i < |s|
      ensures IsSpace(s[i])
    {
      assert s[i] == t[i - a];
    }
  }

  /** Number of leading non-space characters of `s`. */
  function WordLength(s: string): (n: nat)
    ensures n <= |s|
    ensures NoSpace(s[..n])
    ensures n < |s| ==> IsSpace(s[n])
    ensures NoSpace(s) ==> n == |s|
  {
    if s != [] && !IsSpace(s[0]) then
      var n := 1 + WordLength(s[1..]);
      assert s[..n] == [s[0]] + s[1..][..n - 1];
      n
    else 0
  }

  /** `strings.Fields`: the maximal runs of non-space characters, in order. */
  function Fields(s: string): (r: seq<string>)
    ensures forall i :: 0 <= i < |r| ==> r[i] != [] && NoSpace(r[i])
    decreases |s|
  {
    var t := s[LeadingSpaces(s)..];
    if t == [] then []
    else
      var n := WordLength(t);
      assert t[0] == s[LeadingSpaces(s)];
      [t[..n]] + Fields(t[n..])
  }

  /** A single word is its own only field. */
  lemma FieldsOfWord(s: string)
    requires s != [] && NoSpace(s)
    ensures Fields(s) == [s]
  {
    assert LeadingSpaces(s) == 0;
    assert s[0..] == s;
    assert WordLength(s) == |s|;
    assert s[..|s|] == s;
    assert s[|s|..] == [];
    assert Fields([]) == [];
  }

  /** Concatenation is associative; stated once so that proofs about nested sequences need not rediscover it. */
  lemma ConcatAssoc<T>(x: seq<T>, y: seq<T>, z: seq<T>)
    ensures (x + y) + z == x + (y + z)
  {
  }

  /** Slicing a concatenation inside its first part. */
  lemma SliceConcat<T>(u: seq<T>, v: seq<T>, p: nat)
    requires p <= |u|
    ensures (u + v)[..p] == u[..p]
    ensures (u + v)[p..] == u[p..] + v
  {
  }

  /** Leading white space contributes nothing to the count beyond itself. */
  lemma {:induction false} LeadingSpacesDrop(x: string, k: nat)
    requires k <= |x| && forall i :: 0 <= i < k ==> IsSpace(x[i])
    ensures LeadingSpaces(x) == k + LeadingSpaces(x[k..])
  {
    if k > 0 {
      LeadingSpacesDrop(x[1..], k - 1);
      assert x[1..][k - 1..] == x[k..];
    }
  }

  /** An element of the tail is the next element of the whole. */
  lemma TailAt<T>(s: seq<T>, k: nat)
    requires k + 1 < |s|
    ensures s[1..][k] == s[k + 1]
  {
  }

  /** A suffix of a suffix is a suffix of the whole. */
  lemma SuffixOfSuffix<T>(x: seq<T>, k: nat, m: nat)
    requires k + m <= |x|
    ensures x[k..][m..] == x[k + m..]
  {
  }

  /** The fields depend only on what follows the leading white space. */
  lemma FieldsOfRest(x: string, y: string)
    requires x[LeadingSpaces(x)..] == y[LeadingSpaces(y)..]
    ensures Fields(x) == Fields(y)
  {
  }

  /** Leading white space does not change the fields. */
  lemma FieldsDropSpaces(x: string, k: nat)
    requires k <= |x| && forall i :: 0 <= i < k ==> IsSpace(x[i])
    ensures Fields(x) == Fields(x[k..])
  {
    LeadingSpacesDrop(x, k);
    SuffixOfSuffix(x, k, LeadingSpaces(x[k..]));
    FieldsOfRest(x, x[k..]);
  }

  /** A word that already ends inside `u`, or at a space that starts `v`, is not lengthened by `v`. */
  lemma {:induction false} WordLengthAppend(u: string, v: string)
    requires WordLength(u) < |u| || (v != [] && IsSpace(v[0]))
    ensures WordLength(u + v) == WordLength(u)
  {
    if u == [] {
      assert u + v == v;
    } else if !IsSpace(u[0]) {
      SliceConcat(u, v, 1);
      WordLengthAppend(u[1..], v);
    }
  }

  /** A string that starts with a word: that word, then the fields of the rest. */
  lemma FieldsWordStep(t: string)
    requires t != [] && !IsSpace(t[0])
    ensures Fields(t) == [t[..WordLength(t)]] + Fields(t[WordLength(t)..])
  {
    assert LeadingSpaces(t) == 0;
    assert t[0..] == t;
  }

  /** White space alone has no fields. */
  lemma FieldsOfSpaces(s: string)
    requires forall i :: 0 <= i < |s| ==> IsSpace(s[i])
    ensures Fields(s) == []
  {
    LeadingSpacesDrop(s, |s|);
    assert s[|s|..] == [];
  }

  /**
   * A white-space character separates fields: the fields of `a + [c] + b`
   * are those of `a` followed by those of `b`. With `FieldsOfSpaces` and
   * `FieldsOfWord` this determines `Fields` on every string.
   */
  lemma {:induction false} FieldsSplit(a: string, c: char, b: string)
    requires IsSpace(c)
    ensures Fields(a + [c] + b) == Fields(a) + Fields(b)
    decreases |a|, 1
  {
    var x := a + [c] + b;
    var p := LeadingSpaces(a);
    ConcatAssoc(a, [c], b);
    SliceConcat(a, [c] + b, p);
    ConcatAssoc(a[p..], [c], b);
    forall i | 0 <= i < p
      ensures IsSpace(x[i])
    {
      assert x[i] == a[i];
    }
    FieldsDropSpaces(x, p);
    FieldsDropSpaces(a, p);
    if p == |a| {
      assert a[p..] == [];
      FieldsDropSpaces([c] + b, 1);
      assert ([c] + b)[1..] == b;
      FieldsOfSpaces(a[p..]);
    } else {
      FieldsSplitWord(a[p..], c, b);
    }
  }

  /** `FieldsSplit` when `a` starts with a word. */
  lemma {:induction false} FieldsSplitWord(a: string, c: char, b: string)
    requires a != [] && !IsSpace(a[0]) && IsSpace(c)
    ensures Fields(a + [c] + b) == Fields(a) + Fields(b)
    decreases |a|, 0
  {
    var t := a + [c] + b;
    var w := WordLength(a);
    ConcatAssoc(a, [c], b);
    WordLengthAppend(a, [c] + b);
    SliceConcat(a, [c] + b, w);
    ConcatAssoc(a[w..], [c], b);
    FieldsWordStep(t);
    FieldsWordStep(a);
    FieldsSplit(a[w..], c, b);
    ConcatAssoc([a[..w]], Fields(a[w..]), Fields(b));
  }

  /** Index of the first `c` in `s` at or after `i`, or `|s|` when there is none. */
  function IndexFrom(s: string, i: nat, c: char): (k: nat)
    requires i <= |s|
    ensures i <= k <= |s|
    ensures forall m :: i <= m < k ==> s[m] != c
    ensures k < |s| ==> s[k] == c
    decreases |s| - i
  {
    if i == |s| || s[i] == c then i else IndexFrom(s, i + 1, c)
  }

  /** Any index `k` with `c` at `k` and no `c` in between is the one `IndexFrom` finds. */
  lemma IndexFromIs(s: string, i: nat, c: char, k: nat)
    requires i <= k < |s| && s[k] == c
    requires forall m :: i <= m < k ==> s[m] != c
    ensures IndexFrom(s, i, c) == k
  {
  }

  /** No `c` at the indices `i..j` means no `c` in the slice. */
  lemma NotInSlice(s: string, i: nat, j: nat, c: char)
    requires i <= j <= |s|
    requires forall m :: i <= m < j ==> s[m] != c
    ensures c !in s[i..j]
  {
    forall m | 0 <= m < j - i
      ensures s[i..j][m] != c
    {
      assert s[i..j][m] == s[i + m];
    }
  }

  /** `strings.ToUpper` on one ASCII character. */
  function ToUpperAscii(c: char): (u: char)
    ensures 'a' <= c <= 'z' ==> 'A' <= u <= 'Z' && u as int - 'A' as int == c as int - 'a' as int
    ensures !('a' <= c <= 'z') ==> u == c
  {
    if 'a' <= c <= 'z' then (c as int - 32) as char else c
  }

  /** `filepath.Join(dir, name)` for a `name` that is already clean and relative. */
  function JoinPath(dir: string, name: string): (r: string)
    ensures HasSuffix(r, name)
    ensures dir != [] ==> HasPrefix(r, dir)
    ensures dir == [] ==> r == name
    ensures name == [] ==> r == dir
    ensures dir != [] && name != [] && dir[|dir| - 1] != '/' ==> r == dir + "/" + name
    ensures dir != [] && name != [] && dir[|dir| - 1] == '/' ==> r == dir + name
  {
    if dir == [] then name
    else if name == [] then dir
    else if dir[|dir| - 1] == '/' then dir + name
    else dir + "/" + name
  }

  /** Go's `<=` on strings: byte-wise, which for UTF-8 text is code-point order. */
  predicate LexLe(a: string, b: string)
  {
    a == [] || (b != [] && (a[0] < b[0] || (a[0] == b[0] && LexLe(a[1..], b[1..]))))
  }

  lemma {:induction false} LexLeReflexive(a: string)
    ensures LexLe(a, a)
  {
    if a != [] { LexLeReflexive(a[1..]); }
  }

  lemma {:induction false} LexLeTotal(a: string, b: string)
    ensures LexLe(a, b) || LexLe(b, a)
  {
    if a != [] && b != [] && a[0] == b[0] {
      LexLeTotal(a[1..], b[1..]);
    }
  }

  lemma {:induction false} LexLeAntisymmetric(a: string, b: string)
    requires LexLe(a, b) && LexLe(b, a)
    ensures a == b
  {
    if a != [] && b != [] {
      LexLeAntisymmetric(a[1..], b[1..]);
      assert a == [a[0]] + a[1..] && b == [b[0]] + b[1..];
    }
  }

  lemma {:induction false} LexLeTransitive(a: string, b: string, c: string)
    requires LexLe(a, b) && LexLe(b, c)
    ensures LexLe(a, c)
  {
    if a != [] && b != [] && c != [] && a[0] == b[0] == c[0] {
      LexLeTransitive(a[1..], b[1..], c[1..]);
    }
  }

  predicate Sorted(s: seq<string>)
  {
    forall i, j :: 0 <= i < j < |s| ==> LexLe(s[i], s[j])
  }

  predicate NoDup<T(==)>(s: seq<T>)
  {
    forall i, j :: 0 <= i < j < |s| ==> s[i] != s[j]
  }

  /** Inserts `x` before the first element it does not exceed. */
  function Insert(x: string, s: seq<string>): (r: seq<string>)
    ensures multiset(r) == multiset(s) + multiset{x}
  {
    if s == [] then [x]
    else if LexLe(x, s[0]) then [x] + s
    else
      assert s == [s[0]] + s[1..];
      [s[0]] + Insert(x, s[1..])
  }

  lemma {:induction false} InsertSorted(x: string, s: seq<string>)
    requires Sorted(s)
    ensures Sorted(Insert(x, s))
  {
    if s == [] {
    } else if LexLe(x, s[0]) {
      forall j | 0 < j < |s| ensures LexLe(x, s[j]) {
        LexLeTransitive(x, s[0], s[j]);
      }
    } else {
      var t := Insert(x, s[1..]);
      InsertSorted(x, s[1..]);
      LexLeTotal(x, s[0]);
      assert s == [s[0]] + s[1..];
      forall j | 0 <= j < |t| ensures LexLe(s[0], t[j]) {
        assert t[j] in multiset(t);
        if t[j] != x {
          assert t[j] in multiset(s[1..]);
          var k :| 0 <= k < |s[1..]| && s[1..][k] == t[j];
          assert s[k + 1] == t[j];
        }
      }
    }
  }

  /** `sort.Strings`, as an insertion sort: sorted, and a permutation of its input. */
  function SortStrings(s: seq<string>): (r: seq<string>)
    ensures Sorted(r)
    ensures multiset(r) == multiset(s)
  {
    if s == [] then []
    else
      assert s == [s[0]] + s[1..];
      InsertSorted(s[0], SortStrings(s[1..]));
      Insert(s[0], SortStrings(s[1..]))
  }

  lemma SortedHeadIsLeast(a: seq<string>, x: string)
    requires Sorted(a) && x in multiset(a)
    ensures LexLe(a[0], x)
  {
    var i :| 0 <= i < |a| && a[i] == x;
    if i == 0 { LexLeReflexive(x); }
  }

  /** A sorted arrangement of a multiset of strings is unique. */
  lemma {:induction false} SortedUnique(a: seq<string>, b: seq<string>)
    requires Sorted(a) && Sorted(b) && multiset(a) == multiset(b)
    ensures a == b
    decreases |a|
  {
    assert |b| == |a| by { assert |multiset(a)| == |multiset(b)|; }
    if a != [] {
      assert a[0] == b[0] by {
        SortedHeadIsLeast(a, b[0]);
        SortedHeadIsLeast(b, a[0]);
        LexLeAntisymmetric(a[0], b[0]);
      }
      assert Sorted(a[1..]) && Sorted(b[1..]) by {
        SortedTail(a);
        SortedTail(b);
      }
      assert multiset(a[1..]) == multiset(b[1..]) by {
        MultisetTail(a);
        MultisetTail(b);
      }
      SortedUnique(a[1..], b[1..]);
      assert a == [a[0]] + a[1..] && b == [b[0]] + b[1..];
    }
  }

  lemma SortedTail(a: seq<string>)
    requires Sorted(a) && a != []
    ensures Sorted(a[1..])
  {
    forall i, j | 0 <= i < j < |a[1..]| ensures LexLe(a[1..][i], a[1..][j]) {
      assert a[1..][i] == a[i + 1] && a[1..][j] == a[j + 1];
    }
  }

  lemma MultisetTail<T>(a: seq<T>)
    requires a != []
    ensures multiset(a[1..]) == multiset(a) - multiset{a[0]}
  {
    assert a == [a[0]] + a[1..];
  }

  /** The order `sort.Strings` produces depends only on which strings it is given. */
  lemma SortDependsOnlyOnMultiset(a: seq<string>, b: seq<string>)
    requires multiset(a) == multiset(b)
    ensures SortStrings(a) == SortStrings(b)
  {
    SortedUnique(SortStrings(a), SortStrings(b));
  }

  lemma {:induction false} NoDupCount<T>(a: seq<T>, x: T)
    requires NoDup(a)
    ensures multiset(a)[x] == if x in a then 1 else 0
  {
    if a != [] {
      assert a == [a[0]] + a[1..];
      assert NoDup(a[1..]) by {
        forall i, j | 0 <= i < j < |a[1..]| ensures a[1..][i] != a[1..][j] {
          assert a[1..][i] == a[i + 1] && a[1..][j] == a[j + 1];
        }
      }
      NoDupCount(a[1..], x);
      assert a[0] !in a[1..];
      assert multiset(a) == multiset{a[0]} + multiset(a[1..]);
    }
  }

  /** Two duplicate-free sequences holding the same elements are permutations of each other. */
  lemma NoDupSameSetSameMultiset<T>(a: seq<T>, b: seq<T>)
    requires NoDup(a) && NoDup(b) && forall x :: x in a <==> x in b
    ensures multiset(a) == multiset(b)
  {
    forall x ensures multiset(a)[x] == multiset(b)[x] {
      NoDupCount(a, x);
      NoDupCount(b, x);
    }
  }

  /** The map `m` after `m[k] = v` for each pair of `ps` in order: a later pair overwrites an earlier one. */
  function Overwrite<K, V>(m: map<K, V>, ps: seq<(K, V)>): map<K, V>
  {
    if ps == [] then m else Overwrite(m, ps[..|ps| - 1])[ps[|ps| - 1].0 := ps[|ps| - 1].1]
  }

  lemma {:induction false} OverwriteAppend<K, V>(m: map<K, V>, a: seq<(K, V)>, b: seq<(K, V)>)
    ensures Overwrite(m, a + b) == Overwrite(Overwrite(m, a), b)
    decreases |b|
  {
    if b == [] {
      assert a + b == a;
    } else {
      var b' := b[..|b| - 1];
      assert (a + b)[..|a + b| - 1] == a + b';
      OverwriteAppend(m, a, b');
    }
  }

  lemma OverwriteOne<K, V>(m: map<K, V>, q: (K, V))
    ensures Overwrite(m, [q]) == m[q.0 := q.1]
  {
    assert [q][..0] == [];
  }

  /** Some pair of `ps` has key `k`. */
  predicate UpdatesKey<K(==), V>(ps: seq<(K, V)>, k: K)
  {
    exists i :: 0 <= i < |ps| && ps[i].0 == k
  }

  /** The keys after the updates are the old keys and the updated ones. */
  lemma {:induction false} OverwriteKeys<K, V>(m: map<K, V>, ps: seq<(K, V)>)
    ensures forall k :: k in Overwrite(m, ps) <==> k in m || UpdatesKey(ps, k)
  {
    if ps != [] {
      var init := ps[..|ps| - 1];
      OverwriteKeys(m, init);
      forall k
        ensures UpdatesKey(ps, k) <==> UpdatesKey(init, k) || k == ps[|ps| - 1].0
      {
        if UpdatesKey(init, k) {
          var i :| 0 <= i < |init| && init[i].0 == k;
          assert ps[i].0 == k;
        }
        if UpdatesKey(ps, k) && k != ps[|ps| - 1].0 {
          var i :| 0 <= i < |ps| && ps[i].0 == k;
          assert init[i].0 == k;
        }
      }
    }
  }

  /** Each key holds the value of the last pair that updated it. */
  lemma {:induction false} OverwriteLastWins<K, V>(m: map<K, V>, ps: seq<(K, V)>, i: nat)
    requires i < |ps|
    requires forall j :: i < j < |ps| ==> ps[j].0 != ps[i].0
    ensures ps[i].0 in Overwrite(m, ps) && Overwrite(m, ps)[ps[i].0] == ps[i].1
  {
    if i < |ps| - 1 {
      var init := ps[..|ps| - 1];
      assert init[i] == ps[i];
      OverwriteLastWins(m, init, i);
    }
  }

  /** A key no pair updates keeps its old value. */
  lemma {:induction false} OverwriteUntouched<K, V>(m: map<K, V>, ps: seq<(K, V)>, k: K)
    requires forall j :: 0 <= j < |ps| ==> ps[j].0 != k
    ensures (k in Overwrite(m, ps) <==> k in m) && (k in m ==> Overwrite(m, ps)[k] == m[k])
  {
    if ps != [] {
      OverwriteUntouched(m, ps[..|ps| - 1], k);
    }
  }
}
