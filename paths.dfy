/** The slice of pathlib.PurePosixPath that lifeline/git.py:28-37 relies on:
    parsing, str(), parent, name, absolute() and relative_to(). */
module Paths {
  import opened Wrappers
  import opened Text

  /** A parsed path: whether it starts at '/', and its components (never
      empty, never ".", never containing '/'). */
  datatype Path = Path(absolute: bool, parts: seq<string>)

  predicate ValidPart(c: string) {
    c != "" && c != "." && '/' !in c
  }

  predicate ValidPath(p: Path) {
    forall k :: 0 <= k < |p.parts| ==> ValidPart(p.parts[k])
  }

  /** The component a piece between slashes contributes: empty pieces and "."
      vanish. */
  function Piece(c: string): seq<string> {
    if c == "" || c == "." then [] else [c]
  }

  function Components(s: string): (r: seq<string>)
    ensures forall k :: 0 <= k < |r| ==> ValidPart(r[k])
    decreases |s|
  {
    FindChar(s, '/');
    match Find(s, "/")
    case None => Piece(s)
    case Some(i) => Piece(s[..i]) + Components(s[i + 1..])
  }

  /** Path(s): a leading '/' makes it absolute; repeated slashes and "."
      components are dropped. */
  function Parse(s: string): Path {
    Path(|s| > 0 && s[0] == '/', Components(s))
  }

  /** str(path). */
  function Str(p: Path): string {
    if p.absolute then "/" + Join(p.parts, "/")
    else if |p.parts| == 0 then "."
    else Join(p.parts, "/")
  }

  /** path.parent: the path without its last component. */
  function Parent(p: Path): (r: Path)
    ensures r.absolute == p.absolute
    ensures |p.parts| > 0 ==> r.parts + [p.parts[|p.parts| - 1]] == p.parts
    ensures |p.parts| == 0 ==> r == p
  {
    if |p.parts| == 0 then p else Path(p.absolute, p.parts[..|p.parts| - 1])
  }

  /** path.name: the last component, or "" for a path without one. */
  function Name(p: Path): (r: string)
    ensures |p.parts| > 0 ==> Parent(p).parts + [r] == p.parts
    ensures |p.parts| == 0 ==> r == ""
  {
    if |p.parts| == 0 then "" else p.parts[|p.parts| - 1]
  }

  /** path.absolute(): a relative path is taken from cwd, an absolute one
      unchanged; ".." is not resolved. */
  function Absolute(p: Path, cwd: Path): (r: Path)
    requires cwd.absolute
    ensures r.absolute
    ensures p.absolute ==> r == p
    ensures !p.absolute ==> r.parts == cwd.parts + p.parts
  {
    if p.absolute then p else Path(true, cwd.parts + p.parts)
  }

  predicate IsPrefix<T(==)>(xs: seq<T>, ys: seq<T>) {
    |xs| <= |ys| && ys[..|xs|] == xs
  }

  /** path.relative_to(root): the components after root's, or ValueError when
      root is not a leading run of the path's components. */
  function RelativeTo(p: Path, root: Path): (r: Result<Path, Failure>)
    ensures r.Ok? <==> p.absolute == root.absolute && IsPrefix(root.parts, p.parts)
    ensures r.Ok? ==> !r.value.absolute && root.parts + r.value.parts == p.parts
  {
    if p.absolute == root.absolute && IsPrefix(root.parts, p.parts) then
      assert root.parts + p.parts[|root.parts|..] == p.parts;
      Ok(Path(false, p.parts[|root.parts|..]))
    else Err(ValueError("'" + Str(p) + "' is not in the subpath of '" + Str(root) + "'"))
  }

  lemma NoSlash(s: string)
    requires '/' !in s
    ensures Find(s, "/").None?
  {
    FindChar(s, '/');
  }

  /** Valid components joined with '/' split back into the same components. */
  lemma {:induction false} ComponentsJoin(parts: seq<string>)
    requires forall k :: 0 <= k < |parts| ==> ValidPart(parts[k])
    ensures Components(Join(parts, "/")) == parts
  {
    if |parts| == 0 {
      assert Components("") == [];
    } else if |parts| == 1 {
      NoSlash(parts[0]);
    } else {
      var rest := Join(parts[1..], "/");
      assert Join(parts, "/") == parts[0] + ['/'] + rest;
      FindAfter(parts[0], '/', rest);
      assert (parts[0] + ['/'] + rest)[..|parts[0]|] == parts[0];
      assert (parts[0] + ['/'] + rest)[|parts[0]| + 1..] == rest;
      ComponentsJoin(parts[1..]);
      assert parts == [parts[0]] + parts[1..];
    }
  }

  /** Printing a well-formed path and parsing the text gives the path back. */
  lemma ParseStr(p: Path)
    requires ValidPath(p)
    ensures Parse(Str(p)) == p
  {
    ComponentsJoin(p.parts);
    if p.absolute {
      var s := Str(p);
      FindAfter("", '/', Join(p.parts, "/"));
      assert [] + ['/'] + Join(p.parts, "/") == s;
      assert s[1..] == Join(p.parts, "/");
    } else if |p.parts| == 0 {
      NoSlash(".");
    } else {
      assert Join(p.parts, "/")[0] == p.parts[0][0] by {
        JoinStartsWithFirst(p.parts);
      }
    }
  }

  lemma JoinStartsWithFirst(parts: seq<string>)
    requires |parts| > 0 && |parts[0]| > 0
    ensures |Join(parts, "/")| > 0 && Join(parts, "/")[0] == parts[0][0]
  {
  }

  /** Joining a leading run of the components gives a leading part of the
      text: the string test of git.py:36 lets every path under root through. */
  lemma {:induction false} JoinPrefix(root: seq<string>, rest: seq<string>)
    requires |root| > 0
    ensures |rest| == 0 ==> Join(root + rest, "/") == Join(root, "/")
    ensures |rest| > 0 ==> Join(root + rest, "/") == Join(root, "/") + "/" + Join(rest, "/")
  {
    if |root| == 1 {
      if |rest| > 0 {
        assert (root + rest)[1..] == rest;
      } else {
        assert root + rest == root;
      }
    } else {
      JoinPrefix(root[1..], rest);
      assert (root + rest)[1..] == root[1..] + rest;
    }
  }

  /** A path under root (component-wise) starts with root's text. */
  lemma UnderRootStartsWithRoot(p: Path, root: Path)
    requires p.absolute && root.absolute && IsPrefix(root.parts, p.parts)
    ensures IsPrefix(Str(root), Str(p))
  {
    var rest := p.parts[|root.parts|..];
    assert root.parts + rest == p.parts;
    if |root.parts| > 0 {
      JoinPrefix(root.parts, rest);
    }
  }
}
