/** String helpers the application leans on: ASCII case folding (`str.upper`,
    case-insensitive matching), substring containment (`str.contains` read as
    a plain substring test) and Python's `str.strip`. */
module Text {

  /** ASCII lower-casing of one character; every other character is kept. */
  function LowerChar(c: char): char {
    if 'A' <= c <= 'Z' then (c as int - 'A' as int + 'a' as int) as char else c
  }

  /** ASCII upper-casing of one character; every other character is kept. */
  function UpperChar(c: char): char {
    if 'a' <= c <= 'z' then (c as int - 'a' as int + 'A' as int) as char else c
  }

  function Lower(s: string): (r: string)
    ensures |r| == |s|
    ensures forall i :: 0 <= i < |s| ==> r[i] == LowerChar(s[i])
  {
    if s == [] then [] else [LowerChar(s[0])] + Lower(s[1..])
  }

  function Upper(s: string): (r: string)
    ensures |r| == |s|
    ensures forall i :: 0 <= i < |s| ==> r[i] == UpperChar(s[i])
  {
    if s == [] then [] else [UpperChar(s[0])] + Upper(s[1..])
  }

  predicate IsPrefix(p: string, s: string) {
    |p| <= |s| && s[..|p|] == p
  }

  /** Python's `p in s`: some window of `s` spells `p`. */
  predicate Contains(s: string, p: string)
    decreases |s|
  {
    IsPrefix(p, s) || (s != [] && Contains(s[1..], p))
  }

  /** `p` occurs in `s` starting at index `i`. */
  predicate OccursAt(s: string, p: string, i: int) {
    0 <= i <= |s| - |p| && s[i..i + |p|] == p
  }

  /** The index-based reading of `Contains`. */
  lemma {:induction false} ContainsAt(s: string, p: string)
    ensures Contains(s, p) <==> exists i :: OccursAt(s, p, i)
    decreases |s|
  {
    if IsPrefix(p, s) {
      assert OccursAt(s, p, 0);
    }
    if s != [] {
      ContainsAt(s[1..], p);
      if Contains(s[1..], p) {
        var i :| OccursAt(s[1..], p, i);
        assert s[i + 1..i + 1 + |p|] == s[1..][i..i + |p|];
        assert OccursAt(s, p, i + 1);
      }
      if i :| OccursAt(s, p, i) {
        if i > 0 {
          assert s[1..][i - 1..i - 1 + |p|] == s[i..i + |p|];
          assert OccursAt(s[1..], p, i - 1);
        } else {
          assert IsPrefix(p, s);
        }
      }
    } else {
      if i :| OccursAt(s, p, i) {
        assert IsPrefix(p, s);
      }
    }
  }

  lemma SliceOfSlice(s: string, a: int, b: int, c: int, d: int)
    requires 0 <= a <= b <= |s| && 0 <= c <= d <= b - a
    ensures s[a..b][c..d] == s[a + c..a + d]
  {
    forall k | 0 <= k < d - c
      ensures s[a..b][c..d][k] == s[a + c..a + d][k]
    {
    }
  }

  /** A window of a window is a window. */
  lemma ContainsTransitive(s: string, t: string, u: string)
    requires Contains(s, t) && Contains(t, u)
    ensures Contains(s, u)
  {
    ContainsAt(s, t);
    ContainsAt(t, u);
    var i :| OccursAt(s, t, i);
    var j :| OccursAt(t, u, j);
    SliceOfSlice(s, i, i + |t|, j, j + |u|);
    assert OccursAt(s, u, i + j);
    ContainsAt(s, u);
  }

  /** Case-insensitive containment, the `case=False` mode of pandas. */
  predicate ContainsIgnoringCase(s: string, p: string) {
    Contains(Lower(s), Lower(p))
  }

  /** Every string contains itself, whatever its letter case. */
  lemma ContainsIgnoringCaseSelf(s: string)
    ensures ContainsIgnoringCase(s, s)
  {
    assert Lower(s)[..|Lower(s)|] == Lower(s);
  }

  /** Characters for which Python's `str.isspace` holds, restricted to Latin-1. */
  const Whitespace: set<char> :=
    {' ', '\t', '\n', '\r', '\U{0B}', '\U{0C}', '\U{1C}', '\U{1D}', '\U{1E}', '\U{1F}', '\U{85}', '\U{A0}'}

  /** Drops leading characters that are in `cs`. */
  function TrimStart(s: string, cs: set<char>): (r: string)
    ensures |r| <= |s| && r == s[|s| - |r|..]
    ensures r == [] || r[0] !in cs
    ensures forall i :: 0 <= i < |s| - |r| ==> s[i] in cs
  {
    if s != [] && s[0] in cs then TrimStart(s[1..], cs) else s
  }

  /** Drops trailing characters that are in `cs`. */
  function TrimEnd(s: string, cs: set<char>): (r: string)
    ensures |r| <= |s| && r == s[..|r|]
    ensures r == [] || r[|r| - 1] !in cs
    ensures forall i :: |r| <= i < |s| ==> s[i] in cs
  {
    if s != [] && s[|s| - 1] in cs then TrimEnd(s[..|s| - 1], cs) else s
  }

  /** Python's `s.strip(cs)`. */
  function Strip(s: string, cs: set<char>): string {
    TrimEnd(TrimStart(s, cs), cs)
  }

  /** True iff `s` neither starts nor ends with a character of `cs`. */
  predicate Bare(s: string, cs: set<char>) {
    s == [] || (s[0] !in cs && s[|s| - 1] !in cs)
  }

  /** `r` is the window `s[i..j]`, and every character cut off before or
      after it is in `cs`. */
  predicate Cut(s: string, r: string, cs: set<char>, i: int, j: int) {
    && 0 <= i <= j <= |s| && r == s[i..j]
    && (forall k :: 0 <= k < i ==> s[k] in cs)
    && (forall k :: j <= k < |s| ==> s[k] in cs)
  }

  /** `r` is what stripping the characters `cs` from `s` should leave: a
      bare window of `s` with only characters of `cs` cut off. */
  ghost predicate Trimmed(s: string, r: string, cs: set<char>) {
    Bare(r, cs) && exists i, j :: Cut(s, r, cs, i, j)
  }

  /** A prefix of a suffix is a window. */
  lemma PrefixOfSuffix(s: string, t: string, r: string)
    requires |t| <= |s| && t == s[|s| - |t|..]
    requires |r| <= |t| && r == t[..|r|]
    ensures Contains(s, r)
  {
    var i := |s| - |t|;
    SliceOfSlice(s, i, |s|, 0, |r|);
    assert OccursAt(s, r, i);
    ContainsAt(s, r);
  }

  /** Cutting a run of `cs` off the front and then a run of `cs` off the
      back leaves a cut of the original. */
  lemma CutOfParts(s: string, t: string, r: string, cs: set<char>)
    requires |t| <= |s| && t == s[|s| - |t|..]
    requires forall k :: 0 <= k < |s| - |t| ==> s[k] in cs
    requires |r| <= |t| && r == t[..|r|]
    requires forall k :: |r| <= k < |t| ==> t[k] in cs
    ensures Cut(s, r, cs, |s| - |t|, |s| - |t| + |r|)
  {
    var i := |s| - |t|;
    SliceOfSlice(s, i, |s|, 0, |r|);
    forall k | i + |r| <= k < |s|
      ensures s[k] in cs
    {
      assert s[k] == t[k - i];
    }
  }

  /** Where the strip cuts: after the leading run and before the trailing
      run of characters of `cs`. */
  lemma StripCut(s: string, cs: set<char>)
    ensures Cut(s, Strip(s, cs), cs, |s| - |TrimStart(s, cs)|, |s| - |TrimStart(s, cs)| + |Strip(s, cs)|)
  {
    var t := TrimStart(s, cs);
    CutOfParts(s, t, TrimEnd(t, cs), cs);
  }

  /** The result of a strip is bare of the stripped characters, is a window
      of the input, and only characters of `cs` were cut off around it. */
  lemma StripSpec(s: string, cs: set<char>)
    ensures Bare(Strip(s, cs), cs)
    ensures Contains(s, Strip(s, cs))
    ensures Trimmed(s, Strip(s, cs), cs)
  {
    var t := TrimStart(s, cs);
    var r := TrimEnd(t, cs);
    if r != [] {
      assert r[0] == t[0];
    }
    PrefixOfSuffix(s, t, r);
    StripCut(s, cs);
  }

  /** A bare, non-empty window's cut lies inside any other cut of `s`. */
  lemma CutInside(s: string, r1: string, r2: string, cs: set<char>, i1: int, j1: int, i2: int, j2: int)
    requires Bare(r1, cs) && r1 != []
    requires Cut(s, r1, cs, i1, j1) && Cut(s, r2, cs, i2, j2)
    ensures i2 <= i1 && j1 <= j2
  {
    assert s[i1] == r1[0];
    assert s[j1 - 1] == r1[|r1| - 1];
  }

  /** There is only one way to strip: any bare window with only characters
      of `cs` cut off is the result of `Strip`. */
  lemma StripIsTheTrim(s: string, r: string, cs: set<char>)
    requires Trimmed(s, r, cs)
    ensures Strip(s, cs) == r
  {
    StripSpec(s, cs);
    var q := Strip(s, cs);
    var i1, j1 :| Cut(s, q, cs, i1, j1);
    var i2, j2 :| Cut(s, r, cs, i2, j2);
    if q != [] {
      CutInside(s, q, r, cs, i1, j1, i2, j2);
    }
    if r != [] {
      CutInside(s, r, q, cs, i2, j2, i1, j1);
    }
  }

  /** A leading stripped character in front of a bare start is removed alone. */
  lemma TrimStartOne(c: char, t: string, cs: set<char>)
    requires c in cs && (t == [] || t[0] !in cs)
    ensures TrimStart([c] + t, cs) == t
  {
    assert ([c] + t)[1..] == t;
  }

  /** A trailing stripped character after a bare end is removed alone. */
  lemma TrimEndOne(t: string, c: char, cs: set<char>)
    requires c in cs && (t == [] || t[|t| - 1] !in cs)
    ensures TrimEnd(t + [c], cs) == t
  {
    assert (t + [c])[..|t|] == t;
  }

  /** Stripping leaves a string that is already bare unchanged. */
  lemma StripBare(s: string, cs: set<char>)
    requires Bare(s, cs)
    ensures Strip(s, cs) == s
  {
  }
}
