/** Python string operations the toolkit relies on: `str.strip`, `str.split`
    and `str.join`, over Dafny strings (sequences of characters). */
module Text {

  /** The characters for which Python's `str.isspace()` holds; `s.strip()`
      with no argument removes exactly these from both ends. */
  const Whitespace: set<char> :=
    {'\t', '\n', '\U{000B}', '\U{000C}', '\r', '\U{001C}', '\U{001D}', '\U{001E}', '\U{001F}',
     ' ', '\U{0085}', '\U{00A0}', '\U{1680}',
     '\U{2000}', '\U{2001}', '\U{2002}', '\U{2003}', '\U{2004}', '\U{2005}', '\U{2006}',
     '\U{2007}', '\U{2008}', '\U{2009}', '\U{200A}',
     '\U{2028}', '\U{2029}', '\U{202F}', '\U{205F}', '\U{3000}'}

  /** `s` neither starts nor ends with a character of `cs`. */
  predicate Unpadded(s: string, cs: set<char>)
  {
    s == [] || (s[0] !in cs && s[|s| - 1] !in cs)
  }

  /** `s.lstrip(chars)`: drops the longest prefix made only of characters in `cs`. */
  function StripLeft(s: string, cs: set<char>): (r: string)
    ensures |r| <= |s| && r == s[|s| - |r|..]
    ensures forall k :: 0 <= k < |s| - |r| ==> s[k] in cs
    ensures r == [] || r[0] !in cs
  {
    if s != [] && s[0] in cs then StripLeft(s[1..], cs) else s
  }

  /** `s.rstrip(chars)`: drops the longest suffix made only of characters in `cs`. */
  function StripRight(s: string, cs: set<char>): (r: string)
    ensures |r| <= |s| && r == s[..|r|]
    ensures forall k :: |r| <= k < |s| ==> s[k] in cs
    ensures r == [] || r[|r| - 1] !in cs
  {
    if s != [] && s[|s| - 1] in cs then StripRight(s[..|s| - 1], cs) else s
  }

  /** `s.strip(chars)`: the result neither starts nor ends with a character
      of `cs`. */
  function Strip(s: string, cs: set<char>): (r: string)
    ensures |r| <= |s|
    ensures Unpadded(r, cs)
  {
    StripRight(StripLeft(s, cs), cs)
  }

  /** The strip of `s` is empty exactly when every character of `s` is in `cs`. */
  lemma StripEmpty(s: string, cs: set<char>)
    ensures Strip(s, cs) == [] <==> forall k :: 0 <= k < |s| ==> s[k] in cs
  {
    var t := StripLeft(s, cs);
    if Strip(s, cs) == [] {
      assert t == [];
    }
  }

  /** Stripping a string that has no strippable character at either end
      leaves it unchanged. */
  lemma StripUnpadded(s: string, cs: set<char>)
    requires Unpadded(s, cs)
    ensures Strip(s, cs) == s
  {
  }

  /** Stripping is idempotent. */
  lemma StripIdempotent(s: string, cs: set<char>)
    ensures Strip(Strip(s, cs), cs) == Strip(s, cs)
  {
    StripUnpadded(Strip(s, cs), cs);
  }

  /** `lstrip` removes a whole leading run of characters from `cs`. */
  lemma {:induction false} StripLeftRun(a: string, b: string, cs: set<char>)
    requires forall k :: 0 <= k < |a| ==> a[k] in cs
    requires b == [] || b[0] !in cs
    ensures StripLeft(a + b, cs) == b
  {
    if a != [] {
      assert (a + b)[1..] == a[1..] + b;
      StripLeftRun(a[1..], b, cs);
    }
  }

  /** `rstrip` removes a whole trailing run of characters from `cs`. */
  lemma {:induction false} StripRightRun(b: string, z: string, cs: set<char>)
    requires forall k :: 0 <= k < |z| ==> z[k] in cs
    requires b == [] || b[|b| - 1] !in cs
    ensures StripRight(b + z, cs) == b
  {
    if z != [] {
      var z' := z[..|z| - 1];
      assert (b + z)[..|b + z| - 1] == b + z';
      StripRightRun(b, z', cs);
    }
  }

  /** `strip` removes whole runs at both ends: padding a string that neither
      starts nor ends with a character of `cs` by such runs is undone. */
  lemma StripRuns(a: string, m: string, z: string, cs: set<char>)
    requires forall k :: 0 <= k < |a| ==> a[k] in cs
    requires forall k :: 0 <= k < |z| ==> z[k] in cs
    requires m != [] && m[0] !in cs && m[|m| - 1] !in cs
    ensures Strip(a + m + z, cs) == m
  {
    assert a + m + z == a + (m + z);
    StripLeftRun(a, m + z, cs);
    StripRightRun(m, z, cs);
  }

  /** `any(c in s for c in cs)`: some character of `s` is one of `cs`. */
  predicate ContainsAny(s: string, cs: set<char>)
  {
    s != [] && (s[0] in cs || ContainsAny(s[1..], cs))
  }

  /** `ContainsAny` holds exactly when some position of `s` holds a character of `cs`. */
  lemma {:induction false} ContainsAnyAt(s: string, cs: set<char>)
    ensures ContainsAny(s, cs) <==> exists i :: 0 <= i < |s| && s[i] in cs
  {
    if s != [] {
      ContainsAnyAt(s[1..], cs);
      if !ContainsAny(s, cs) {
        forall i | 0 <= i < |s| ensures s[i] !in cs {
          if i > 0 { assert s[i] == s[1..][i - 1]; }
        }
      } else if s[0] !in cs {
        var i :| 0 <= i < |s[1..]| && s[1..][i] in cs;
        assert s[i + 1] in cs;
      }
    }
  }

  /** `s.split(sep)`: the pieces between occurrences of `sep`; there is always
      at least one piece and no piece contains `sep`. */
  function Split(s: string, sep: char): (parts: seq<string>)
    ensures |parts| >= 1
    ensures forall i :: 0 <= i < |parts| ==> sep !in parts[i]
  {
    if s == [] then [[]]
    else
      var rest := Split(s[1..], sep);
      if s[0] == sep then [[]] + rest
      else [[s[0]] + rest[0]] + rest[1..]
  }

  /** `sep.join(parts)`. */
  function Join(parts: seq<string>, sep: char): string
  {
    if |parts| == 0 then []
    else if |parts| == 1 then parts[0]
    else parts[0] + [sep] + Join(parts[1..], sep)
  }

  /** A string without the separator splits into itself alone. */
  lemma {:induction false} SplitWithoutSeparator(s: string, sep: char)
    requires sep !in s
    ensures Split(s, sep) == [s]
  {
    if s != [] {
      SplitWithoutSeparator(s[1..], sep);
      assert [s[0]] + s[1..] == s;
    }
  }

  /** Splitting at the first separator. */
  lemma {:induction false} SplitAtFirst(a: string, sep: char, b: string)
    requires sep !in a
    ensures Split(a + [sep] + b, sep) == [a] + Split(b, sep)
  {
    if a == [] {
      assert a + [sep] + b == [sep] + b;
      assert ([sep] + b)[1..] == b;
    } else {
      var s := a + [sep] + b;
      assert s[1..] == a[1..] + [sep] + b;
      SplitAtFirst(a[1..], sep, b);
      assert [a[0]] + a[1..] == a;
    }
  }

  /** Splitting undoes joining when no part contains the separator. */
  lemma {:induction false} SplitJoin(parts: seq<string>, sep: char)
    requires |parts| >= 1
    requires forall i :: 0 <= i < |parts| ==> sep !in parts[i]
    ensures Split(Join(parts, sep), sep) == parts
  {
    if |parts| == 1 {
      SplitWithoutSeparator(parts[0], sep);
    } else {
      SplitJoin(parts[1..], sep);
      SplitAtFirst(parts[0], sep, Join(parts[1..], sep));
      assert [parts[0]] + parts[1..] == parts;
    }
  }
}
