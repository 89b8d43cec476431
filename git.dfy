/** lifeline/git.py: whether the repository is clean, and add_event_to_git,
    which stages one event file and records it as one commit dated at the
    event. */
module LifelineGit {
  import opened Wrappers
  import opened Text
  import opened Dates
  import opened Paths
  import opened Timeline
  import opened Repository

  /** is_repo_clean: neither dirty nor holding untracked files. */
  function IsRepoClean(repo: Repo): (clean: bool)
    reads repo
    ensures clean <==> repo.index == repo.head && repo.worktree == repo.index
  {
    CleanIff(repo.head, repo.index, repo.worktree);
    !(repo.IsDirty() || repo.UntrackedFiles() != {})
  }

  /** The repository add_event_to_git opens when none is given: the parent of
      the file's parent directory. */
  function DefaultRepoPath(filePath: string): string {
    Str(Parent(Parent(Parse(filePath))))
  }

  /** For a file two or more components deep, the default repository is the
      path without its last two components ("." for "events/x.md"). */
  lemma DefaultRepoPathIsGrandparent(filePath: string)
    requires |Parse(filePath).parts| >= 2
    ensures var p := Parse(filePath);
      Parse(DefaultRepoPath(filePath)) == Path(p.absolute, p.parts[..|p.parts| - 2])
  {
    var p := Parse(filePath);
    var g := Parent(Parent(p));
    assert g.parts == p.parts[..|p.parts| - 2];
    ParseStr(g);
  }

  /** The relativisation of git.py:34-37 as written: the string test
      `abs_file_path.startswith(repo_root)` guards `relative_to`, which raises
      when the root is a string prefix but not a directory prefix. */
  function RelativiseAsWritten(filePath: string, root: string, cwd: Path): (r: Result<string, Failure>)
    requires cwd.absolute
  {
    var absFile := Str(Absolute(Parse(filePath), cwd));
    var absRoot := Str(Absolute(Parse(root), cwd));
    if IsPrefix(absRoot, absFile) then
      match RelativeTo(Parse(absFile), Parse(absRoot))
      case Ok(rel) => Ok(Str(rel))
      case Err(e) => Err(e)
    else Ok(filePath)
  }

  /** The relativisation as intended: the path relative to the root when it
      lies under the root directory, the path as given otherwise. */
  function Relativise(filePath: string, root: string, cwd: Path): string
    requires cwd.absolute
  {
    var absFile := Absolute(Parse(filePath), cwd);
    var absRoot := Absolute(Parse(root), cwd);
    if IsPrefix(absRoot.parts, absFile.parts) then Str(Path(false, absFile.parts[|absRoot.parts|..]))
    else filePath
  }

  /** A sibling directory whose name extends the root's passes the string
      test, and relative_to then raises: "/repo2/a.md" against the root "/repo". */
  lemma SiblingDirectoryRaises(cwd: Path)
    requires cwd.absolute
    ensures RelativiseAsWritten("/repo2/a.md", "/repo", cwd).Err?
  {
    SiblingPaths();
    assert IsPrefix("/repo", "/repo2/a.md");
    var pf := Path(true, ["repo2", "a.md"]);
    assert RelativeTo(pf, Path(true, ["repo"])).Err? by {
      assert pf.parts[..1] == ["repo2"];
    }
  }

  /** The two paths of SiblingDirectoryRaises, parsed and printed. */
  lemma SiblingPaths()
    ensures Parse("/repo2/a.md") == Path(true, ["repo2", "a.md"]) && Str(Path(true, ["repo2", "a.md"])) == "/repo2/a.md"
    ensures Parse("/repo") == Path(true, ["repo"]) && Str(Path(true, ["repo"])) == "/repo"
  {
    var pf := Path(true, ["repo2", "a.md"]);
    var pr := Path(true, ["repo"]);
    assert Join(pf.parts, "/") == "repo2" + "/" + Join(["a.md"], "/");
    assert Str(pf) == "/repo2/a.md";
    assert Str(pr) == "/repo";
    ParseStr(pf);
    ParseStr(pr);
  }

  /** The intended relativisation agrees with the code wherever the code does
      not raise, and gives a path that, under the root, is the file again. */
  lemma RelativiseAgrees(filePath: string, root: string, cwd: Path)
    requires cwd.absolute && ValidPath(cwd)
    ensures RelativiseAsWritten(filePath, root, cwd).Ok? ==>
      RelativiseAsWritten(filePath, root, cwd).value == Relativise(filePath, root, cwd)
    ensures var absFile := Absolute(Parse(filePath), cwd);
      var absRoot := Absolute(Parse(root), cwd);
      IsPrefix(absRoot.parts, absFile.parts) ==>
        RelativiseAsWritten(filePath, root, cwd).Ok? &&
        absRoot.parts + Parse(Relativise(filePath, root, cwd)).parts == absFile.parts
  {
    var absFile := Absolute(Parse(filePath), cwd);
    var absRoot := Absolute(Parse(root), cwd);
    assert ValidPath(absFile) && ValidPath(absRoot);
    ParseStr(absFile);
    ParseStr(absRoot);
    if IsPrefix(absRoot.parts, absFile.parts) {
      UnderRootStartsWithRoot(absFile, absRoot);
      var rel := Path(false, absFile.parts[|absRoot.parts|..]);
      assert absRoot.parts + rel.parts == absFile.parts;
      ParseStr(rel);
    }
  }

  /** The commit message: "Add event: <title>" for a non-empty title,
      "Add event from <file name>" otherwise. */
  function AddEventMessage(title: Option<string>, filePath: string): (m: string)
    ensures title.Some? && title.value != "" ==> m == "Add event: " + title.value
    ensures (title.None? || title.value == "") ==> m == "Add event from " + Name(Parse(filePath))
  {
    if title.Some? && title.value != "" then "Add event: " + title.value
    else "Add event from " + Name(Parse(filePath))
  }

  /** The message tests/test_git.py:73 expects. */
  lemma TitledMessage()
    ensures AddEventMessage(Some("Test Event"), "events/2024-01-01_test-event.md") == "Add event: Test Event"
  {
  }

  /** The commit dates add_event_to_git asks for: midnight of the event date
      when one is given, the current time otherwise; an event date strptime
      rejects raises. */
  function CommitStamp(eventDate: Option<string>, now: Moment): (r: Result<Moment, Failure>)
    ensures eventDate.None? || eventDate.value == "" ==> r == Ok(now)
    ensures eventDate.Some? && eventDate.value != "" ==>
      match Strptime(eventDate.value)
      case Ok(d) => r == Ok(Midnight(d))
      case Err(e) => r == Err(e)
  {
    if eventDate.None? || eventDate.value == "" then Ok(now)
    else match Strptime(eventDate.value)
      case Ok(d) => Ok(Midnight(d))
      case Err(e) => Err(e)
  }

  /** add_event_to_git on an opened repository: relativise the path, stage
      the file, then commit it with the message and the stamp, author date
      and commit date alike. A failed stage or an invalid date raises and
      appends nothing (the file stays staged after a bad date). */
  method AddEventToGit(repo: Repo, filePath: string, eventDate: Option<string>, title: Option<string>,
                       cwd: Path, now: Moment, newId: CommitId)
    returns (r: Result<Commit, Failure>)
    requires repo.Valid() && !HasId(repo.commits, newId) && cwd.absolute
    modifies repo
    ensures repo.Valid()
    ensures var rel := Relativise(filePath, repo.root, cwd);
      r.Ok? <==> rel in old(repo.worktree) && CommitStamp(eventDate, now).Ok?
    ensures var rel := Relativise(filePath, repo.root, cwd);
      rel in old(repo.worktree) ==> repo.index == old(repo.index)[rel := old(repo.worktree)[rel]]
    ensures Relativise(filePath, repo.root, cwd) !in old(repo.worktree) ==> repo.index == old(repo.index)
    ensures r.Ok? ==> var rel := Relativise(filePath, repo.root, cwd);
      var stamp := CommitStamp(eventDate, now).value;
      r.value == Commit(newId, AddEventMessage(title, rel), stamp, stamp) &&
      repo.commits == old(repo.commits) + [r.value] && repo.head == repo.index
    ensures r.Err? ==> repo.commits == old(repo.commits) && repo.head == old(repo.head)
    ensures repo.worktree == old(repo.worktree) && repo.branch == old(repo.branch)
    ensures repo.branches == old(repo.branches) && repo.rebasing == old(repo.rebasing)
  {
    var rel := Relativise(filePath, repo.root, cwd);
    var added := repo.IndexAdd(rel);
    if added.Err? {
      return Err(added.error);
    }
    var message := AddEventMessage(title, rel);
    var stamp := CommitStamp(eventDate, now);
    if stamp.Err? {
      return Err(stamp.error);
    }
    var c := repo.IndexCommit(message, stamp.value, stamp.value, newId);
    return Ok(c);
  }
}
