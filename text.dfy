/** The few Python string operations the modelled code relies on:
    str.find, str.split(sep, maxsplit), str.splitlines, str.replace,
    str.join and os.path.join. */
module Text {
  import opened Wrappers

  /** sep occurs in s starting at index i. */
  predicate OccursAt(s: string, sep: string, i: int) {
    0 <= i && i + |sep| <= |s| && s[i..i + |sep|] == sep
  }

  /** Leftmost occurrence of sep in s at or after from, as str.find(sep, from). */
  function FindFrom(s: string, sep: string, from: nat): (r: Option<nat>)
    ensures r.Some? ==> from <= r.value && OccursAt(s, sep, r.value)
    ensures r.Some? ==> forall j :: from <= j < r.value ==> !OccursAt(s, sep, j)
    ensures r.None? ==> forall j :: from <= j ==> !OccursAt(s, sep, j)
    decreases |s| - from
  {
    if from + |sep| > |s| then None
    else if OccursAt(s, sep, from) then Some(from)
    else FindFrom(s, sep, from + 1)
  }

  function Find(s: string, sep: string): (r: Option<nat>)
    ensures r.Some? ==> OccursAt(s, sep, r.value) && forall j :: 0 <= j < r.value ==> !OccursAt(s, sep, j)
    ensures r.None? ==> forall j :: 0 <= j ==> !OccursAt(s, sep, j)
  {
    FindFrom(s, sep, 0)
  }

  /** str.join: the parts with sep between consecutive ones. */
  function Join(parts: seq<string>, sep: string): string
  {
    if |parts| == 0 then ""
    else if |parts| == 1 then parts[0]
    else parts[0] + sep + Join(parts[1..], sep)
  }

  /** str.split(sep, maxsplit): cut at the leftmost occurrences of sep, at most maxsplit times. */
  function SplitAtMost(s: string, sep: string, maxsplit: nat): (parts: seq<string>)
    requires |sep| > 0
    ensures 1 <= |parts| <= maxsplit + 1
    decreases maxsplit
  {
    if maxsplit == 0 then [s]
    else match Find(s, sep)
      case None => [s]
      case Some(i) => [s[..i]] + SplitAtMost(s[i + |sep|..], sep, maxsplit - 1)
  }

  /** Splitting and joining again with the same separator gives back the string. */
  lemma {:induction false} JoinSplit(s: string, sep: string, maxsplit: nat)
    requires |sep| > 0
    ensures Join(SplitAtMost(s, sep, maxsplit), sep) == s
    decreases maxsplit
  {
    if maxsplit > 0 && Find(s, sep).Some? {
      JoinSplit(AfterCut(s, sep), sep, maxsplit - 1);
      JoinSplitStep(s, sep, maxsplit);
    } else {
      SplitNoCut(s, sep, maxsplit);
    }
  }

  /** What follows the first occurrence of sep. */
  function AfterCut(s: string, sep: string): string
    requires Find(s, sep).Some?
  {
    s[Find(s, sep).value + |sep|..]
  }

  /** One step of JoinSplit: if the rest after the first cut rejoins, so does s. */
  lemma JoinSplitStep(s: string, sep: string, maxsplit: nat)
    requires |sep| > 0 && maxsplit > 0 && Find(s, sep).Some?
    requires Join(SplitAtMost(AfterCut(s, sep), sep, maxsplit - 1), sep) == AfterCut(s, sep)
    ensures Join(SplitAtMost(s, sep, maxsplit), sep) == s
  {
    SplitUnfold(s, sep, maxsplit);
    JoinAround(s, sep, Find(s, sep).value, SplitAtMost(s, sep, maxsplit),
               SplitAtMost(AfterCut(s, sep), sep, maxsplit - 1));
  }

  lemma SplitNoCut(s: string, sep: string, maxsplit: nat)
    requires |sep| > 0 && (maxsplit == 0 || Find(s, sep).None?)
    ensures SplitAtMost(s, sep, maxsplit) == [s]
  {
  }

  /** Putting back the separator found at index i, in front of the rejoined rest. */
  lemma JoinAround(s: string, sep: string, i: nat, parts: seq<string>, tail: seq<string>)
    requires OccursAt(s, sep, i) && |tail| >= 1 && parts == [s[..i]] + tail
    requires Join(tail, sep) == s[i + |sep|..]
    ensures Join(parts, sep) == s
  {
    assert parts[1..] == tail;
    SliceAround(s, i, |sep|);
  }

  lemma SliceAround(s: string, i: nat, n: nat)
    requires i + n <= |s|
    ensures s == s[..i] + s[i..i + n] + s[i + n..]
  {
  }

  lemma SplitUnfold(s: string, sep: string, maxsplit: nat)
    requires |sep| > 0 && maxsplit > 0 && Find(s, sep).Some?
    ensures SplitAtMost(s, sep, maxsplit) == [s[..Find(s, sep).value]] + SplitAtMost(AfterCut(s, sep), sep, maxsplit - 1)
  {
  }

  /** The line boundaries of Python's str.splitlines. */
  predicate IsLineBreak(c: char) {
    c in {'\n', '\r', '\U{0B}', '\U{0C}', '\U{1C}', '\U{1D}', '\U{1E}', '\U{85}', '\U{2028}', '\U{2029}'}
  }

  /** Index of the first line boundary at or after from, or |s| when there is none. */
  function FirstBreak(s: string, from: nat): (r: nat)
    requires from <= |s|
    ensures from <= r <= |s|
    ensures r < |s| ==> IsLineBreak(s[r])
    ensures forall j :: from <= j < r ==> !IsLineBreak(s[j])
    decreases |s| - from
  {
    if from == |s| || IsLineBreak(s[from]) then from else FirstBreak(s, from + 1)
  }

  /** str.splitlines(): "\r\n" is one boundary, a final boundary opens no empty line. */
  function SplitLines(s: string): seq<string>
    decreases |s|
  {
    if |s| == 0 then []
    else
      var i := FirstBreak(s, 0);
      if i == |s| then [s]
      else
        var width := if s[i] == '\r' && i + 1 < |s| && s[i + 1] == '\n' then 2 else 1;
        [s[..i]] + SplitLines(s[i + width..])
  }

  /** Lines that are non-empty and free of boundaries come back from their
      newline-joined text unchanged. */
  lemma {:induction false} SplitLinesJoin(lines: seq<string>)
    requires forall k :: 0 <= k < |lines| ==> |lines[k]| > 0
    requires forall k, j :: 0 <= k < |lines| && 0 <= j < |lines[k]| ==> !IsLineBreak(lines[k][j])
    ensures SplitLines(Join(lines, "\n")) == lines
  {
    if |lines| == 1 {
      assert FirstBreak(lines[0], 0) == |lines[0]|;
    } else if |lines| > 1 {
      var s := Join(lines, "\n");
      var n := |lines[0]|;
      assert s == lines[0] + "\n" + Join(lines[1..], "\n");
      assert s[n] == '\n';
      assert forall j :: 0 <= j < n ==> s[j] == lines[0][j];
      FirstBreakAt(s, n);
      assert s[..n] == lines[0];
      assert s[n + 1..] == Join(lines[1..], "\n");
      SplitLinesJoin(lines[1..]);
    }
  }

  lemma FirstBreakAt(s: string, n: nat)
    requires n < |s| && IsLineBreak(s[n])
    requires forall j :: 0 <= j < n ==> !IsLineBreak(s[j])
    ensures FirstBreak(s, 0) == n
  {
  }

  /** str.replace(pat, rep): every non-overlapping occurrence, scanning left to right. */
  function ReplaceAll(s: string, pat: string, rep: string): string
    requires |pat| > 0
    decreases |s|
  {
    if |s| < |pat| then s
    else if s[..|pat|] == pat then rep + ReplaceAll(s[|pat|..], pat, rep)
    else [s[0]] + ReplaceAll(s[1..], pat, rep)
  }

  /** Removing pat from x + pat gives back x when pat's first character does not occur in x. */
  lemma {:induction false} RemoveTrailing(x: string, pat: string)
    requires |pat| > 0
    requires forall j :: 0 <= j < |x| ==> x[j] != pat[0]
    ensures ReplaceAll(x + pat, pat, "") == x
    decreases |x|
  {
    var s := x + pat;
    if |x| == 0 {
      assert s[..|pat|] == pat;
      assert s[|pat|..] == [];
    } else {
      assert s[0] == x[0] != pat[0];
      assert s[..|pat|] != pat;
      assert s[1..] == x[1..] + pat;
      RemoveTrailing(x[1..], pat);
      assert [x[0]] + x[1..] == x;
    }
  }

  /** The characters str.isspace() accepts outside the range U+2000 to U+200A. */
  const Spaces: set<char> := {' ', '\t', '\n', '\U{0B}', '\U{0C}', '\r', '\U{1C}', '\U{1D}', '\U{1E}', '\U{1F}', '\U{85}', '\U{A0}',
          '\U{1680}', '\U{2028}', '\U{2029}', '\U{202F}', '\U{205F}', '\U{3000}'}

  /** The characters str.isspace() accepts. */
  predicate IsSpace(c: char) {
    c in Spaces || ('\U{2000}' <= c <= '\U{200A}')
  }

  function StripLeft(s: string): (r: string)
    ensures |r| <= |s| && r == s[|s| - |r|..]
    ensures |r| > 0 ==> !IsSpace(r[0])
    ensures forall j :: 0 <= j < |s| - |r| ==> IsSpace(s[j])
  {
    if |s| > 0 && IsSpace(s[0]) then StripLeft(s[1..]) else s
  }

  function StripRight(s: string): (r: string)
    ensures |r| <= |s| && r == s[..|r|]
    ensures |r| > 0 ==> !IsSpace(r[|r| - 1])
    ensures forall j :: |r| <= j < |s| ==> IsSpace(s[j])
  {
    if |s| > 0 && IsSpace(s[|s| - 1]) then StripRight(s[..|s| - 1]) else s
  }

  /** str.strip(): the white space at both ends removed. What is kept is
      one slice of s, with nothing but white space on either side of it. */
  function Strip(s: string): (r: string)
    ensures |r| <= |s|
    ensures |r| > 0 ==> !IsSpace(r[0]) && !IsSpace(r[|r| - 1])
    ensures exists i, j ::
              && 0 <= i <= j <= |s| && r == s[i..j]
              && (forall k :: 0 <= k < i ==> IsSpace(s[k]))
              && (forall k :: j <= k < |s| ==> IsSpace(s[k]))
  {
    SliceBetweenSpaces(s, StripLeft(s), StripRight(StripLeft(s)));
    StripRight(StripLeft(s))
  }

  /** A suffix l of s after white space only, and a prefix r of l before white
      space only: r is a slice of s with only white space around it. */
  lemma SliceBetweenSpaces(s: string, l: string, r: string)
    requires |l| <= |s| && l == s[|s| - |l|..] && forall k :: 0 <= k < |s| - |l| ==> IsSpace(s[k])
    requires |r| <= |l| && r == l[..|r|] && forall k :: |r| <= k < |l| ==> IsSpace(l[k])
    requires |l| > 0 ==> !IsSpace(l[0])
    requires |r| > 0 ==> !IsSpace(r[|r| - 1])
    ensures |r| > 0 ==> !IsSpace(r[0]) && !IsSpace(r[|r| - 1])
    ensures exists i, j ::
              && 0 <= i <= j <= |s| && r == s[i..j]
              && (forall k :: 0 <= k < i ==> IsSpace(s[k]))
              && (forall k :: j <= k < |s| ==> IsSpace(s[k]))
  {
    var i := |s| - |l|;
    var j := i + |r|;
    assert |r| > 0 ==> r[0] == l[0];
    assert r == s[i..j];
    forall k | j <= k < |s|
      ensures IsSpace(s[k])
    {
      assert s[k] == l[k - i];
    }
  }

  /** A string without white space at its ends is its own strip. */
  lemma StripClean(s: string)
    requires |s| > 0 ==> !IsSpace(s[0]) && !IsSpace(s[|s| - 1])
    ensures Strip(s) == s
  {
  }

  /** Splitting once at sep: the text before the first occurrence and the
      text after it, or the whole string when sep does not occur. */
  lemma SplitOnce(s: string, sep: string)
    requires |sep| > 0
    ensures Find(s, sep).None? ==> SplitAtMost(s, sep, 1) == [s]
    ensures Find(s, sep).Some? ==> var i := Find(s, sep).value;
      SplitAtMost(s, sep, 1) == [s[..i], s[i + |sep|..]]
  {
  }

  /** Find of a single character: the index of its first occurrence, or
      None exactly when it does not occur. */
  lemma FindChar(s: string, c: char)
    ensures Find(s, [c]).Some? ==> var i := Find(s, [c]).value;
      i < |s| && s[i] == c && c !in s[..i]
    ensures Find(s, [c]).None? <==> c !in s
  {
    if Find(s, [c]).Some? {
      var i := Find(s, [c]).value;
      assert s[i..i + 1] == [c];
      forall j | 0 <= j < i ensures s[..i][j] != c {
        assert !OccursAt(s, [c], j);
        assert s[j..j + 1] == [s[j]];
      }
    } else {
      forall j | 0 <= j < |s| ensures s[j] != c {
        assert !OccursAt(s, [c], j);
        assert s[j..j + 1] == [s[j]];
      }
    }
  }

  /** In x + [c] + y with c absent from x, the first c is the one after x. */
  lemma FindAfter(x: string, c: char, y: string)
    requires c !in x
    ensures Find(x + [c] + y, [c]) == Some(|x|)
  {
    var s := x + [c] + y;
    assert s[|x|..|x| + 1] == [c];
    assert OccursAt(s, [c], |x|);
    forall j | 0 <= j < |x| ensures !OccursAt(s, [c], j) {
      assert s[j] == x[j];
      assert s[j..j + 1] == [x[j]];
    }
  }

  /** posixpath.join(a, b): an absolute b replaces a; otherwise one '/' separates them. */
  function OsPathJoin(a: string, b: string): (r: string)
    ensures |b| > 0 && b[0] != '/' && |a| > 0 && a[|a| - 1] != '/' ==> r == a + "/" + b
  {
    if |b| > 0 && b[0] == '/' then b
    else if |a| == 0 || a[|a| - 1] == '/' then a + b
    else a + "/" + b
  }
}
