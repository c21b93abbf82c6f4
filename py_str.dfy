/**
 * The two Python string builtins the footer scraper relies on: `str.strip()`
 * with no argument and `str.split(sep)` with a one-character separator.
 */
module PyStr {

  /**
   * The characters Python's `str.isspace()` accepts, which is the set that
   * `str.strip()` removes: the ASCII control range 0x09-0x0D, the file, group,
   * record and unit separators 0x1C-0x1F, the space, NEXT LINE, NO-BREAK SPACE
   * and the Unicode space separators and line/paragraph separators.
   */
  predicate IsSpace(c: char)
  {
    ('\U{0009}' <= c <= '\U{000D}') || ('\U{001C}' <= c <= '\U{0020}') ||
    c == '\U{0085}' || c == '\U{00A0}' || c == '\U{1680}' ||
    ('\U{2000}' <= c <= '\U{200A}') || c == '\U{2028}' || c == '\U{2029}' ||
    c == '\U{202F}' || c == '\U{205F}' || c == '\U{3000}'
  }

  predicate AllSpace(s: string)
  {
    forall i :: 0 <= i < |s| ==> IsSpace(s[i])
  }

  /** A string with no whitespace at either end. */
  predicate Trimmed(s: string)
  {
    s == [] || (!IsSpace(s[0]) && !IsSpace(s[|s| - 1]))
  }

  /** `s.lstrip()`: drops the leading whitespace; `TrimStartSuffix` shows it drops nothing else. */
  function TrimStart(s: string): (r: string)
    ensures |r| <= |s|
    ensures AllSpace(s[..|s| - |r|])
    ensures r == [] || !IsSpace(r[0])
    decreases |s|
  {
    if |s| > 0 && IsSpace(s[0]) then
      var r := TrimStart(s[1..]);
      assert s[..|s| - |r|] == [s[0]] + s[1..][..|s| - 1 - |r|];
      r
    else s
  }

  /**
   * What `TrimStart` keeps is the tail of its input. This is a lemma rather
   * than a postcondition: as a postcondition it equates every trimmed string
   * with a slice of its input, which sets the solver instantiating nested
   * slices without end.
   */
  lemma {:induction false} TrimStartSuffix(s: string)
    ensures TrimStart(s) == s[|s| - |TrimStart(s)|..]
    decreases |s|
  {
    if |s| > 0 && IsSpace(s[0]) {
      var r := TrimStart(s[1..]);
      TrimStartSuffix(s[1..]);
      assert s[1..][|s| - 1 - |r|..] == s[|s| - |r|..];
    }
  }

  /** `s.rstrip()`: drops the trailing whitespace and nothing else. */
  function TrimEnd(s: string): (r: string)
    ensures |r| <= |s| && r == s[..|r|]
    ensures AllSpace(s[|r|..])
    ensures r == [] || !IsSpace(r[|r| - 1])
    decreases |s|
  {
    if |s| > 0 && IsSpace(s[|s| - 1]) then
      var r := TrimEnd(s[..|s| - 1]);
      assert s[|r|..] == s[..|s| - 1][|r|..] + [s[|s| - 1]];
      r
    else s
  }

  /**
   * `s.strip()`: the middle part of `s` that is left once the whitespace at
   * both ends is removed; it starts and ends with a non-space character.
   */
  function Strip(s: string): (r: string)
    ensures Trimmed(r) && |r| <= |s|
  {
    TrimEnd(TrimStart(s))
  }

  /** What `Strip` removes is whitespace at the two ends, and only that. */
  lemma StripIsInfix(s: string)
    ensures exists i, j :: 0 <= i <= j <= |s| && Strip(s) == s[i..j] && AllSpace(s[..i]) && AllSpace(s[j..])
  {
    var t := TrimStart(s);
    var r := TrimEnd(t);
    var i := |s| - |t|;
    TrimStartSuffix(s);
    assert r == s[i..i + |r|];
    assert s[i + |r|..] == t[|r|..];
  }

  /** A trimmed string is its own strip. */
  lemma StripTrimmed(s: string)
    requires Trimmed(s)
    ensures Strip(s) == s
  {
  }

  /** Stripping twice is stripping once. */
  lemma StripIdempotent(s: string)
    ensures Strip(Strip(s)) == Strip(s)
  {
    StripTrimmed(Strip(s));
  }

  /** A trailing whitespace character is stripped off a trimmed string. */
  lemma StripTrailingSpace(t: string, c: char)
    requires t != [] && Trimmed(t) && IsSpace(c)
    ensures Strip(t + [c]) == t
  {
    var s := t + [c];
    assert TrimStart(s) == s;
    assert s[..|s| - 1] == t;
    assert TrimEnd(s) == TrimEnd(t);
  }

  /**
   * `s.split(sep)`: the maximal runs of `s` between occurrences of `sep`,
   * so `"".split(sep) == [""]` and there is always one more piece than
   * there are separators.
   */
  function Split(s: string, sep: char): (r: seq<string>)
    ensures |r| >= 1
    ensures forall p :: p in r ==> sep !in p
    decreases |s|
  {
    if |s| == 0 then [""]
    else
      var rest := Split(s[1..], sep);
      if s[0] == sep then [""] + rest
      else [[s[0]] + rest[0]] + rest[1..]
  }

  /** `sep.join(parts)`, the inverse of `Split`. */
  function Join(parts: seq<string>, sep: char): string
    requires |parts| >= 1
    decreases |parts|
  {
    if |parts| == 1 then parts[0]
    else parts[0] + [sep] + Join(parts[1..], sep)
  }

  lemma {:induction false} JoinHead(a: string, parts: seq<string>, sep: char)
    requires |parts| >= 1
    ensures Join([a + parts[0]] + parts[1..], sep) == a + Join(parts, sep)
  {
    var q := [a + parts[0]] + parts[1..];
    assert q[1..] == parts[1..];
  }

  /** Joining the pieces of a split gives back the string. */
  lemma {:induction false} JoinSplit(s: string, sep: char)
    ensures Join(Split(s, sep), sep) == s
    decreases |s|
  {
    if |s| > 0 {
      var rest := Split(s[1..], sep);
      JoinSplit(s[1..], sep);
      if s[0] == sep {
        assert ([""] + rest)[1..] == rest;
        assert s == [sep] + s[1..];
      } else {
        JoinHead([s[0]], rest, sep);
        assert s == [s[0]] + s[1..];
      }
    }
  }

  /** A separator-free prefix lands in the first piece. */
  lemma {:induction false} SplitPrefix(a: string, t: string, sep: char)
    requires sep !in a
    ensures Split(a + t, sep) == [a + Split(t, sep)[0]] + Split(t, sep)[1..]
    decreases |a|
  {
    var r := Split(t, sep);
    if |a| > 0 {
      var s := a + t;
      assert s[1..] == a[1..] + t;
      SplitPrefix(a[1..], t, sep);
      var rest := Split(s[1..], sep);
      assert rest[0] == a[1..] + r[0] && rest[1..] == r[1..];
      assert s[0] == a[0] && a[0] != sep;
      assert Split(s, sep) == [[a[0]] + rest[0]] + rest[1..];
      assert [a[0]] + (a[1..] + r[0]) == a + r[0];
    } else {
      assert a + t == t && a + r[0] == r[0];
      assert r == [r[0]] + r[1..];
    }
  }

  /** A string without the separator is a single piece. */
  lemma SplitNoSep(s: string, sep: char)
    requires sep !in s
    ensures Split(s, sep) == [s]
  {
    SplitPrefix(s, "", sep);
    assert s + "" == s;
  }

  /** Splitting a join gives back the separator-free pieces. */
  lemma {:induction false} SplitJoin(parts: seq<string>, sep: char)
    requires |parts| >= 1
    requires forall p :: p in parts ==> sep !in p
    ensures Split(Join(parts, sep), sep) == parts
    decreases |parts|
  {
    if |parts| == 1 {
      SplitPrefix(parts[0], "", sep);
      assert parts[0] + "" == parts[0];
    } else {
      var tail := Join(parts[1..], sep);
      assert parts[1..][0] in parts;
      SplitJoin(parts[1..], sep);
      var t := [sep] + tail;
      assert t[1..] == tail;
      assert Split(t, sep) == [""] + parts[1..];
      SplitPrefix(parts[0], t, sep);
      assert parts[0] + [sep] + tail == parts[0] + t;
      assert parts[0] + "" == parts[0];
    }
  }
}
