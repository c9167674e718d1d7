/** The Python `str` operations the scraper, the server and the line cleaner rely on,
    over Dafny strings (sequences of Unicode scalar values, like Python 3 `str`). */
module Text {

  /** Python's `str.isspace()` on one character; the regular-expression class `\s`
      and `str.strip()` without arguments use the same characters (0x09-0x0D,
      0x1C-0x1F, the space, 0x85, 0xA0, 0x1680, 0x2000-0x200A, 0x2028, 0x2029,
      0x202F, 0x205F, 0x3000). */
  predicate IsSpace(c: char) {
    || c == ' ' || '\t' <= c <= '\r' || '\U{1C}' <= c <= '\U{1F}'
    || c == '\U{85}' || c == '\U{A0}' || c == '\U{1680}' || '\U{2000}' <= c <= '\U{200A}'
    || c == '\U{2028}' || c == '\U{2029}' || c == '\U{202F}' || c == '\U{205F}' || c == '\U{3000}'
  }

  /** The whitespace characters as a set. */
  const WHITESPACE: set<char> := set c: char | IsSpace(c)

  /** The characters `str.splitlines()` ends a line at ("\r\n" counts as one break). */
  const LINE_BREAKS: set<char> := {
    '\n', '\r', '\U{0B}', '\U{0C}', '\U{1C}', '\U{1D}', '\U{1E}', '\U{85}', '\U{2028}', '\U{2029}'
  }


  // ---------------------------------------------------------------------------
  // Prefixes, substrings, counting

  /** `s.startswith(p)` */
  predicate StartsWith(s: string, p: string) {
    |p| <= |s| && s[..|p|] == p
  }

  /** `p in s` for strings: p occurs somewhere in s. */
  predicate Contains(s: string, p: string)
    decreases |s|
  {
    StartsWith(s, p) || (s != [] && Contains(s[1..], p))
  }

  /** `s.count(c)` for a one-character argument. */
  function CountChar(s: string, c: char): nat
    decreases |s|
  {
    if s == [] then 0 else (if s[0] == c then 1 else 0) + CountChar(s[1..], c)
  }

  /** An occurrence of p in s makes s hold at least as many c's as p does. */
  lemma {:induction false} CountCharContains(s: string, p: string, c: char)
    requires Contains(s, p)
    ensures CountChar(s, c) >= CountChar(p, c)
    decreases |s|
  {
    if StartsWith(s, p) {
      CountCharPrefix(s, |p|, c);
    } else {
      CountCharContains(s[1..], p, c);
    }
  }

  lemma {:induction false} CountCharPrefix(s: string, n: nat, c: char)
    requires n <= |s|
    ensures CountChar(s, c) >= CountChar(s[..n], c)
    decreases n
  {
    if n > 0 {
      assert s[..n][1..] == s[1..][..n - 1];
      CountCharPrefix(s[1..], n - 1, c);
    }
  }

  lemma {:induction false} CountCharSuffix(s: string, n: nat, c: char)
    requires n <= |s|
    ensures CountChar(s, c) >= CountChar(s[n..], c)
    decreases n
  {
    if n > 0 {
      assert s[n..] == s[1..][n - 1..];
      CountCharSuffix(s[1..], n - 1, c);
    }
  }

  /** Two adjacent occurrences of c make s count at least two. */
  lemma {:induction false} CountCharPair(s: string, n: nat, c: char)
    requires n + 1 < |s| && s[n] == c && s[n + 1] == c
    ensures CountChar(s, c) >= 2
    decreases n
  {
    if n > 0 {
      CountCharPair(s[1..], n - 1, c);
    } else {
      assert s[1..][0] == c;
    }
  }

  // ---------------------------------------------------------------------------
  // strip, lower, replace, split, join

  /** `s.lstrip(cs)` */
  function TrimLeft(s: string, cs: set<char>): (r: string)
    ensures |r| <= |s| && r == s[|s| - |r|..]
    ensures r == [] || r[0] !in cs
    ensures Without(r, cs) == Without(s, cs)
    decreases |s|
  {
    if s != [] && s[0] in cs then TrimLeft(s[1..], cs) else s
  }

  /** `s.rstrip(cs)` */
  function TrimRight(s: string, cs: set<char>): (r: string)
    ensures |r| <= |s| && r == s[..|r|]
    ensures r == [] || r[|r| - 1] !in cs
    ensures Without(r, cs) == Without(s, cs)
    decreases |s|
  {
    if s != [] && s[|s| - 1] in cs then
      WithoutAppend(s[..|s| - 1], [s[|s| - 1]], cs);
      assert s == s[..|s| - 1] + [s[|s| - 1]];
      TrimRight(s[..|s| - 1], cs)
    else
      s
  }

  /** `s.strip(cs)`: the slice of s left after dropping every leading and trailing
      character in cs; nothing outside cs is dropped. */
  function StripChars(s: string, cs: set<char>): (r: string)
    ensures |r| <= |s|
    ensures r == [] || (r[0] !in cs && r[|r| - 1] !in cs)
    ensures Without(r, cs) == Without(s, cs)
  {
    TrimRight(TrimLeft(s, cs), cs)
  }

  /** `s.strip()` */
  function Strip(s: string): (r: string)
    ensures |r| <= |s|
    ensures r == [] || (!IsSpace(r[0]) && !IsSpace(r[|r| - 1]))
    ensures Without(r, WHITESPACE) == Without(s, WHITESPACE)
  {
    StripChars(s, WHITESPACE)
  }

  /** A string with no whitespace at either end is its own `strip()`. */
  lemma StripUnchanged(s: string)
    requires s == [] || (!IsSpace(s[0]) && !IsSpace(s[|s| - 1]))
    ensures Strip(s) == s
  {
    assert TrimLeft(s, WHITESPACE) == s;
  }

  /** A string that `strip()` does not empty keeps a visible character. */
  lemma StripNonEmpty(s: string)
    requires Strip(s) != []
    ensures Without(s, WHITESPACE) != []
  {
    var t := Strip(s);
    assert Without(t, WHITESPACE) == [t[0]] + Without(t[1..], WHITESPACE);
  }

  /** `strip()` only drops characters: whatever it keeps was in its argument. */
  lemma StripKeeps(s: string)
    ensures forall c :: c in Strip(s) ==> c in s
  {
    var l := TrimLeft(s, WHITESPACE);
    var r := TrimRight(l, WHITESPACE);
    forall c | c in r
      ensures c in s
    {
      var i :| 0 <= i < |r| && r[i] == c;
      assert r[i] == l[i] == s[|s| - |l| + i];
    }
  }

  /** s with every character of cs removed, the others kept in order. */
  function Without(s: string, cs: set<char>): (r: string)
    decreases |s|
  {
    if s == [] then [] else (if s[0] in cs then [] else [s[0]]) + Without(s[1..], cs)
  }

  lemma {:induction false} WithoutAppend(a: string, b: string, cs: set<char>)
    ensures Without(a + b, cs) == Without(a, cs) + Without(b, cs)
    decreases |a|
  {
    if a != [] {
      assert (a + b)[0] == a[0] && (a + b)[1..] == a[1..] + b;
      WithoutAppend(a[1..], b, cs);
    } else {
      assert a + b == b;
    }
  }

  /** A slice of s made only of cs characters leaves nothing once cs is removed. */
  lemma {:induction false} WithoutAll(s: string, cs: set<char>)
    requires forall i :: 0 <= i < |s| ==> s[i] in cs
    ensures Without(s, cs) == []
    decreases |s|
  {
    if s != [] {
      WithoutAll(s[1..], cs);
    }
  }

  /** ASCII case mapping of `str.lower()`. */
  function LowerChar(c: char): char {
    if 'A' <= c <= 'Z' then (c as int + 32) as char else c
  }

  /** `s.lower()`, restricted to the ASCII letters. */
  function Lower(s: string): (r: string)
    ensures |r| == |s|
    ensures forall i :: 0 <= i < |s| ==> r[i] == LowerChar(s[i])
  {
    seq(|s|, i requires 0 <= i < |s| => LowerChar(s[i]))
  }

  lemma LowerIdempotent(s: string)
    ensures Lower(Lower(s)) == Lower(s)
  {
  }

  /** `s.replace(p, rep)`: every non-overlapping occurrence of p, scanned from the
      left, replaced by rep. */
  function ReplaceAll(s: string, p: string, rep: string): string
    requires p != []
    decreases |s|
  {
    if |s| < |p| then s
    else if s[..|p|] == p then rep + ReplaceAll(s[|p|..], p, rep)
    else [s[0]] + ReplaceAll(s[1..], p, rep)
  }

  lemma {:induction false} ReplaceAllAbsent(s: string, p: string, rep: string)
    requires p != [] && !Contains(s, p)
    ensures ReplaceAll(s, p, rep) == s
    decreases |s|
  {
    if |s| >= |p| {
      ReplaceAllAbsent(s[1..], p, rep);
    }
  }

  /** Replacing p by nothing in p + t leaves t when t holds no p. */
  lemma ReplaceLeading(p: string, t: string)
    requires p != [] && !Contains(t, p)
    ensures ReplaceAll(p + t, p, "") == t
  {
    var u := p + t;
    assert u[..|p|] == p && u[|p|..] == t;
    ReplaceAllAbsent(t, p, "");
  }

  /** `s.split(c)[0]`: the part of s before the first c. */
  function BeforeFirst(s: string, c: char): (r: string)
    ensures |r| <= |s| && r == s[..|r|]
    ensures c !in r
    ensures |r| < |s| ==> s[|r|] == c
    decreases |s|
  {
    if s == [] || s[0] == c then [] else [s[0]] + BeforeFirst(s[1..], c)
  }

  /** `sep.join(parts)` */
  function Join(parts: seq<string>, sep: string): string
    decreases |parts|
  {
    if parts == [] then ""
    else if |parts| == 1 then parts[0]
    else parts[0] + sep + Join(parts[1..], sep)
  }

  /** Every character of a join comes from the separator or from one of the parts. */
  lemma {:induction false} JoinKeeps(parts: seq<string>, sep: string)
    ensures forall c :: c in Join(parts, sep) ==> c in sep || exists k :: 0 <= k < |parts| && c in parts[k]
    decreases |parts|
  {
    if |parts| > 1 {
      JoinKeeps(parts[1..], sep);
      forall c | c in Join(parts[1..], sep) && c !in sep
        ensures exists k :: 0 <= k < |parts| && c in parts[k]
      {
        var k :| 0 <= k < |parts[1..]| && c in parts[1..][k];
        assert c in parts[k + 1];
      }
    }
  }

  /** A join of non-empty parts starts with the first part's first character, ends
      with the last part's last character, and is at least as long as its first part. */
  lemma {:induction false} JoinEnds(parts: seq<string>, sep: string)
    requires parts != [] && forall k :: 0 <= k < |parts| ==> parts[k] != []
    ensures |Join(parts, sep)| >= |parts[0]|
    ensures Join(parts, sep)[0] == parts[0][0]
    ensures Join(parts, sep)[|Join(parts, sep)| - 1] == parts[|parts| - 1][|parts[|parts| - 1]| - 1]
    decreases |parts|
  {
    if |parts| > 1 {
      JoinEnds(parts[1..], sep);
      var rest := Join(parts[1..], sep);
      assert Join(parts, sep) == (parts[0] + sep) + rest;
    }
  }

  // ---------------------------------------------------------------------------
  // str.split()

  /** Length of the first word of s: the index of its first whitespace character, or |s|. */
  function WordLength(s: string): (n: nat)
    ensures n <= |s|
    ensures forall j :: 0 <= j < n ==> !IsSpace(s[j])
    ensures n < |s| ==> IsSpace(s[n])
    decreases |s|
  {
    if s == [] || IsSpace(s[0]) then 0 else 1 + WordLength(s[1..])
  }

  /** `s.split()`: the maximal runs of non-whitespace characters of s, in order. */
  function Words(s: string): (r: seq<string>)
    ensures forall k :: 0 <= k < |r| ==> r[k] != []
    ensures forall k, j :: 0 <= k < |r| && 0 <= j < |r[k]| ==> !IsSpace(r[k][j])
    decreases |s|
  {
    if s == [] then []
    else if IsSpace(s[0]) then Words(s[1..])
    else
      var n := WordLength(s);
      [s[..n]] + Words(s[n..])
  }

  /** A string has no words exactly when it is all whitespace. */
  lemma {:induction false} WordsNone(s: string)
    ensures Words(s) == [] <==> forall i :: 0 <= i < |s| ==> IsSpace(s[i])
    decreases |s|
  {
    if s != [] && IsSpace(s[0]) {
      WordsNone(s[1..]);
      if forall i :: 0 <= i < |s[1..]| ==> IsSpace(s[1..][i]) {
        forall i | 0 <= i < |s|
          ensures IsSpace(s[i])
        {
          if i > 0 {
            assert s[i] == s[1..][i - 1];
          }
        }
      }
    }
  }

  /** A one-letter word at the front of s is split off on its own. */
  lemma ShortWord(s: string)
    requires s != [] && !IsSpace(s[0]) && (|s| == 1 || IsSpace(s[1]))
    ensures Words(s) == [[s[0]]] + Words(s[1..])
  {
    assert WordLength(s) == 1;
    assert s[..1] == [s[0]];
  }

  /** A word of two or more letters at the front of s is its first letter followed
      by the first word of the rest. */
  lemma LongWord(s: string)
    requires |s| > 1 && !IsSpace(s[0]) && !IsSpace(s[1])
    ensures Words(s[1..]) != []
    ensures Words(s) == [[s[0]] + Words(s[1..])[0]] + Words(s[1..])[1..]
  {
    var t := s[1..];
    var n := WordLength(s);
    assert n == 1 + WordLength(t);
    assert s[..n] == [s[0]] + t[..n - 1];
    assert s[n..] == t[n - 1..];
  }

  /** Joining with a separator after a part that starts with c is c followed by the
      join with that part shortened. */
  lemma JoinFirstChar(c: char, w: string, ws: seq<string>, sep: string)
    ensures Join([[c] + w] + ws, sep) == [c] + Join([w] + ws, sep)
  {
    if ws != [] {
      assert ([[c] + w] + ws)[1..] == ws;
      assert ([w] + ws)[1..] == ws;
    }
  }

  /** Joining a first part with a non-empty rest puts the separator between them. */
  lemma JoinCons(w: string, ws: seq<string>, sep: string)
    requires ws != []
    ensures Join([w] + ws, sep) == w + sep + Join(ws, sep)
  {
    assert ([w] + ws)[1..] == ws;
  }

  // ---------------------------------------------------------------------------
  // str.splitlines()

  /** Length of the first line of s: the index of its first line break, or |s|. */
  function LineLength(s: string): (n: nat)
    ensures n <= |s|
    ensures forall j :: 0 <= j < n ==> s[j] !in LINE_BREAKS
    ensures n < |s| ==> s[n] in LINE_BREAKS
    decreases |s|
  {
    if s == [] || s[0] in LINE_BREAKS then 0 else 1 + LineLength(s[1..])
  }

  /** `s.splitlines()`: the lines of s without their breaks; a final break does not
      start an empty last line, and "\r\n" is a single break. */
  function SplitLines(s: string): (r: seq<string>)
    ensures forall i, j :: 0 <= i < |r| && 0 <= j < |r[i]| ==> r[i][j] !in LINE_BREAKS
    ensures s == [] <==> r == []
    decreases |s|
  {
    if s == [] then []
    else
      var n := LineLength(s);
      if n == |s| then [s]
      else
        var width := if s[n] == '\r' && n + 1 < |s| && s[n + 1] == '\n' then 2 else 1;
        [s[..n]] + SplitLines(s[n + width..])
  }

  /** A non-empty string without line breaks is a single line. */
  lemma SplitLinesSingle(s: string)
    requires s != [] && forall j :: 0 <= j < |s| ==> s[j] !in LINE_BREAKS
    ensures SplitLines(s) == [s]
  {
    assert LineLength(s) == |s|;
  }

  // ---------------------------------------------------------------------------
  // Python's string order and sorted(set)

  /** `a < b` on Python strings: lexicographic by code point, a proper prefix first. */
  predicate StrLess(a: string, b: string)
    decreases |a|
  {
    if a == [] then b != []
    else if b == [] then false
    else if a[0] != b[0] then a[0] < b[0]
    else StrLess(a[1..], b[1..])
  }

  lemma {:induction false} StrLessIrreflexive(a: string)
    ensures !StrLess(a, a)
    decreases |a|
  {
    if a != [] {
      StrLessIrreflexive(a[1..]);
    }
  }

  lemma {:induction false} StrLessAsymmetric(a: string, b: string)
    ensures StrLess(a, b) ==> !StrLess(b, a)
    decreases |a|
  {
    if a != [] && b != [] && a[0] == b[0] {
      StrLessAsymmetric(a[1..], b[1..]);
    }
  }

  lemma {:induction false} StrLessTransitive(a: string, b: string, c: string)
    ensures StrLess(a, b) && StrLess(b, c) ==> StrLess(a, c)
    decreases |a|
  {
    if a != [] && b != [] && c != [] && a[0] == b[0] && b[0] == c[0] {
      StrLessTransitive(a[1..], b[1..], c[1..]);
    }
  }

  lemma {:induction false} StrLessTotal(a: string, b: string)
    ensures a == b || StrLess(a, b) || StrLess(b, a)
    decreases |a|
  {
    if a != [] && b != [] && a[0] == b[0] {
      StrLessTotal(a[1..], b[1..]);
      if a[1..] == b[1..] {
        assert a == [a[0]] + a[1..] && b == [b[0]] + b[1..];
      }
    }
  }

  /** A common prefix does not change how two strings compare. */
  lemma {:induction false} StrLessCommonPrefix(p: string, a: string, b: string)
    ensures StrLess(p + a, p + b) <==> StrLess(a, b)
    decreases |p|
  {
    if p != [] {
      assert (p + a)[1..] == p[1..] + a && (p + b)[1..] == p[1..] + b;
      StrLessCommonPrefix(p[1..], a, b);
    } else {
      assert p + a == a && p + b == b;
    }
  }

  /** Every element of the sequence is smaller than every later one: sorted and
      free of duplicates. */
  predicate StrictlySorted(r: seq<string>) {
    forall i, j :: 0 <= i < j < |r| ==> StrLess(r[i], r[j])
  }

  predicate IsLeast(m: string, s: set<string>) {
    m in s && forall y :: y in s && y != m ==> StrLess(m, y)
  }

  lemma {:induction false} LeastExists(s: set<string>)
    requires s != {}
    ensures exists m :: IsLeast(m, s)
    decreases |s|
  {
    var x :| x in s;
    if s == {x} {
      assert IsLeast(x, s);
    } else {
      LeastExists(s - {x});
      var m :| IsLeast(m, s - {x});
      StrLessTotal(m, x);
      if StrLess(m, x) {
        assert IsLeast(m, s);
      } else {
        forall y | y in s && y != x
          ensures StrLess(x, y)
        {
          StrLessTransitive(x, m, y);
        }
        assert IsLeast(x, s);
      }
    }
  }

  /** At most one element of a set is its least. */
  lemma LeastUnique(s: set<string>)
    ensures forall m, n :: IsLeast(m, s) && IsLeast(n, s) ==> m == n
  {
    forall m, n | IsLeast(m, s) && IsLeast(n, s)
      ensures m == n
    {
      StrLessAsymmetric(m, n);
    }
  }

  /** `sorted(s)` for a set of strings: its elements in ascending order, each once. */
  function SortedSet(s: set<string>): (r: seq<string>)
    ensures StrictlySorted(r)
    ensures forall x :: x in r <==> x in s
    ensures |r| == |s|
    decreases |s|
  {
    if s == {} then []
    else
      LeastExists(s);
      LeastUnique(s);
      var m :| IsLeast(m, s);
      var rest := SortedSet(s - {m});
      assert forall j :: 0 <= j < |rest| ==> rest[j] in rest && rest[j] in s - {m};
      [m] + rest
  }
}
