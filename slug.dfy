/** sanitize_filename (scripts/manage_events.py:94-99): a title turned into
    the slug of an event's file name. */
module Slug {

  function LowerChar(c: char): char {
    if 'A' <= c <= 'Z' then (c as int - 'A' as int + 'a' as int) as char else c
  }

  /** str.lower() on the ASCII letters. */
  function Lower(s: string): (r: string)
    ensures |r| == |s| && forall i :: 0 <= i < |s| ==> r[i] == LowerChar(s[i])
  {
    if |s| == 0 then [] else [LowerChar(s[0])] + Lower(s[1..])
  }

  /** str.replace(' ', '-'): every space becomes a dash. */
  function SpacesToDashes(s: string): (r: string)
    ensures |r| == |s| && forall i :: 0 <= i < |s| ==> r[i] == (if s[i] == ' ' then '-' else s[i])
  {
    if |s| == 0 then [] else [if s[0] == ' ' then '-' else s[0]] + SpacesToDashes(s[1..])
  }

  /** The characters a slug may hold: [a-z0-9-]. */
  predicate SlugChar(c: char) {
    'a' <= c <= 'z' || '0' <= c <= '9' || c == '-'
  }

  /** re.sub(r'[^a-z0-9-]', '', s): every other character dropped. */
  function KeepSlugChars(s: string): (r: string)
    ensures |r| <= |s|
    ensures forall i :: 0 <= i < |r| ==> SlugChar(r[i])
    ensures |s| == 1 ==> r == (if SlugChar(s[0]) then s else "")
  {
    if |s| == 0 then []
    else if SlugChar(s[0]) then [s[0]] + KeepSlugChars(s[1..])
    else KeepSlugChars(s[1..])
  }

  /** re.sub(r'-+', '-', s): every run of dashes becomes one dash. */
  function CollapseDashes(s: string): (r: string)
    ensures |r| <= |s|
    ensures forall i :: 0 <= i < |r| ==> r[i] in s
    ensures |s| > 0 ==> |r| > 0 && r[0] == s[0]
  {
    if |s| < 2 then s
    else if s[0] == '-' && s[1] == '-' then CollapseDashes(s[1..])
    else [s[0]] + CollapseDashes(s[1..])
  }

  /** sanitize_filename: lower-case, spaces to dashes, foreign characters
      dropped, runs of dashes collapsed. */
  function Sanitize(title: string): (r: string)
    ensures IsSlug(r)
  {
    var kept := KeepSlugChars(SpacesToDashes(Lower(title)));
    CollapseNoDoubleDash(kept);
    CollapseDashes(kept)
  }

  /** The filter works character by character: filtering a concatenation
      is filtering each part. With the one-character case of KeepSlugChars
      this fixes the result for every input. */
  lemma {:induction false} KeepSlugCharsAppend(x: string, y: string)
    ensures KeepSlugChars(x + y) == KeepSlugChars(x) + KeepSlugChars(y)
    decreases |x|
  {
    if |x| > 0 {
      assert (x + y)[0] == x[0];
      assert (x + y)[1..] == x[1..] + y;
      KeepSlugCharsAppend(x[1..], y);
    } else {
      assert x + y == y;
    }
  }

  /** Each run of dashes becomes one dash: a double dash anywhere collapses
      as a single dash would. With CollapseFixed this fixes the result for
      every input. */
  lemma {:induction false} CollapseRun(x: string, y: string)
    ensures CollapseDashes(x + "--" + y) == CollapseDashes(x + "-" + y)
    decreases |x|
  {
    var s := x + "--" + y;
    var t := x + "-" + y;
    if |x| == 0 {
      assert s == "--" + y && t == "-" + y;
      assert s[1..] == t;
    } else {
      assert s[0] == t[0] == x[0];
      assert s[1] == t[1];
      assert s[1..] == x[1..] + "--" + y;
      assert t[1..] == x[1..] + "-" + y;
      CollapseRun(x[1..], y);
    }
  }

  /** Two dashes in a row occur nowhere in s. */
  predicate NoDoubleDash(s: string) {
    forall i :: 0 <= i < |s| - 1 ==> !(s[i] == '-' && s[i + 1] == '-')
  }

  /** A well-formed slug: only slug characters and never two dashes in a row. */
  predicate IsSlug(s: string) {
    (forall i :: 0 <= i < |s| ==> SlugChar(s[i])) && NoDoubleDash(s)
  }

  /** Collapsing leaves no two dashes in a row. */
  lemma {:induction false} CollapseNoDoubleDash(s: string)
    ensures NoDoubleDash(CollapseDashes(s))
    decreases |s|
  {
    if |s| >= 2 {
      CollapseNoDoubleDash(s[1..]);
      if !(s[0] == '-' && s[1] == '-') {
        var t := CollapseDashes(s[1..]);
        var r := [s[0]] + t;
        assert t[0] == s[1];
        forall i | 0 <= i < |r| - 1 ensures !(r[i] == '-' && r[i + 1] == '-') {
          if i > 0 {
            assert r[i] == t[i - 1] && r[i + 1] == t[i];
          }
        }
      }
    }
  }

  /** The characters of s other than dashes, in order. */
  function Undashed(s: string): string {
    if |s| == 0 then [] else (if s[0] == '-' then [] else [s[0]]) + Undashed(s[1..])
  }

  /** Collapsing removes dashes only: every other character survives, in order. */
  lemma {:induction false} CollapseKeepsText(s: string)
    ensures Undashed(CollapseDashes(s)) == Undashed(s)
    decreases |s|
  {
    if |s| >= 2 {
      CollapseKeepsText(s[1..]);
      if !(s[0] == '-' && s[1] == '-') {
        var t := CollapseDashes(s[1..]);
        assert ([s[0]] + t)[1..] == t;
      }
    }
  }

  /** Collapsing changes nothing exactly when there is no run to collapse. */
  lemma {:induction false} CollapseFixed(s: string)
    ensures CollapseDashes(s) == s <==> NoDoubleDash(s)
    decreases |s|
  {
    CollapseNoDoubleDash(s);
    if |s| >= 2 {
      CollapseFixed(s[1..]);
      if s[0] == '-' && s[1] == '-' {
        assert |CollapseDashes(s)| < |s|;
      } else {
        var t := s[1..];
        assert NoDoubleDash(s) ==> NoDoubleDash(t) by {
          if NoDoubleDash(s) {
            forall i | 0 <= i < |t| - 1 ensures !(t[i] == '-' && t[i + 1] == '-') {
              assert t[i] == s[i + 1] && t[i + 1] == s[i + 2];
            }
          }
        }
        assert s == [s[0]] + t;
      }
    }
  }

  /** Filtering changes nothing exactly when every character is already allowed. */
  lemma {:induction false} KeepFixed(s: string)
    ensures KeepSlugChars(s) == s <==> forall i :: 0 <= i < |s| ==> SlugChar(s[i])
    decreases |s|
  {
    if |s| > 0 {
      KeepFixed(s[1..]);
      if SlugChar(s[0]) {
        assert s == [s[0]] + s[1..];
        assert forall i :: 0 < i < |s| ==> s[i] == s[1..][i - 1];
      } else {
        assert |KeepSlugChars(s)| < |s|;
      }
    }
  }

  /** A title with a capital, a double space and a punctuation mark:
      "A  b!" becomes "a-b". */
  lemma SanitizeExample()
    ensures Sanitize("A  b!") == "a-b"
  {
    ExampleSpaced();
    ExampleKept();
    ExampleCollapsed();
  }

  lemma ExampleSpaced()
    ensures SpacesToDashes(Lower("A  b!")) == "a--b" + "!"
  {
    assert Lower("A  b!") == "a  b!";
  }

  lemma ExampleKept()
    ensures KeepSlugChars("a--b" + "!") == "a" + "--" + "b"
  {
    KeepSlugCharsAppend("a--b", "!");
    assert KeepSlugChars("!") == "";
    KeepFixed("a--b");
  }

  lemma ExampleCollapsed()
    ensures CollapseDashes("a" + "--" + "b") == "a-b"
  {
    CollapseRun("a", "b");
    CollapseFixed("a" + "-" + "b");
  }

  /** A well-formed slug passes through every step unchanged. */
  lemma SlugFixed(s: string)
    requires IsSlug(s)
    ensures Sanitize(s) == s
  {
    assert Lower(s) == s;
    assert SpacesToDashes(s) == s;
    KeepFixed(s);
    CollapseFixed(s);
  }

  /** sanitize_filename is idempotent. */
  lemma SanitizeIdempotent(title: string)
    ensures Sanitize(Sanitize(title)) == Sanitize(title)
  {
    SlugFixed(Sanitize(title));
  }
}
