/** An in-memory git repository: the current branch's commits, the tree of
    its last commit, the staging index and the working tree. It stands for
    what GitPython (lifeline/git.py) and the git command line
    (scripts/manage_events.py) read and change. */
module Repository {
  import opened Wrappers
  import opened Dates
  import opened Timeline

  /** File path (relative to the working tree) to file content. */
  type FileTree = map<string, string>

  datatype Commit = Commit(id: CommitId, message: string, authored: Moment, committed: Moment)

  /** How the interactive rebase ends: the reorder goes through, or git stops
      on a conflict and waits for the user. */
  datatype RewriteOutcome = Success | Conflict

  /** The timeline `git log --format=%H %aI --reverse` shows: hash and author date. */
  function Entries(cs: seq<Commit>): (r: seq<Entry>)
    ensures |r| == |cs| && forall k :: 0 <= k < |cs| ==> r[k] == Entry(cs[k].id, cs[k].authored)
  {
    seq(|cs|, k requires 0 <= k < |cs| => Entry(cs[k].id, cs[k].authored))
  }

  /** A commit appended at the tip adds its entry at the end of the log and
      leaves the earlier entries as they were: commits made one after another
      read in the order they were made. */
  lemma EntriesAppend(prior: seq<Commit>, c: Commit)
    ensures Entries(prior + [c]) == Entries(prior) + [Entry(c.id, c.authored)]
  {
  }

  predicate DistinctIds(cs: seq<Commit>) {
    forall i, j :: 0 <= i < j < |cs| ==> cs[i].id != cs[j].id
  }

  predicate HasId(cs: seq<Commit>, id: CommitId) {
    exists k :: 0 <= k < |cs| && cs[k].id == id
  }

  /** Position of the commit with hash id. */
  function IndexOf(cs: seq<Commit>, id: CommitId): (r: Option<nat>)
    ensures r.Some? ==> r.value < |cs| && cs[r.value].id == id
    ensures r.Some? ==> forall j :: 0 <= j < r.value ==> cs[j].id != id
    ensures r.None? <==> !HasId(cs, id)
  {
    if |cs| == 0 then None
    else if cs[0].id == id then Some(0)
    else match IndexOf(cs[1..], id)
      case None => None
      case Some(k) => Some(k + 1)
  }

  /** The tip commit moved to index k, every other commit kept in order. */
  function MoveTip<T>(cs: seq<T>, k: nat): (r: seq<T>)
    requires k < |cs|
    ensures |r| == |cs| && r[k] == cs[|cs| - 1]
    ensures r[..k] == cs[..k] && r[k + 1..] == cs[k..|cs| - 1]
  {
    InsertAt(cs[..|cs| - 1], cs[|cs| - 1], k)
  }

  /** The index or the tracked files differ from the last commit: is_dirty()
      with its defaults (staged changes, or tracked files changed or deleted
      in the working tree; untracked files do not count). */
  predicate Dirty(head: FileTree, index: FileTree, worktree: FileTree) {
    index != head || exists f :: f in index && (f !in worktree || worktree[f] != index[f])
  }

  /** untracked_files: working-tree files the index does not know. */
  function Untracked(index: FileTree, worktree: FileTree): set<string> {
    set f | f in worktree && f !in index
  }

  /** is_repo_clean (lifeline/git.py:12): clean exactly when the index matches
      the last commit and the working tree matches the index, file for file. */
  lemma CleanIff(head: FileTree, index: FileTree, worktree: FileTree)
    ensures !(Dirty(head, index, worktree) || Untracked(index, worktree) != {})
      <==> index == head && worktree == index
  {
    if !(Dirty(head, index, worktree) || Untracked(index, worktree) != {}) {
      forall f | f in worktree ensures f in index {
        assert f !in Untracked(index, worktree);
      }
      assert worktree.Keys == index.Keys;
      assert forall f :: f in index ==> worktree[f] == index[f];
    }
  }

  /** `git rebase -i <upstream>^` as the script issues it: the parent of the
      insertion point must exist, so an insertion point at the root commit
      fails; otherwise the reorder (tip moved to just before the insertion
      point) or a conflict. */
  function RebaseOntoParent(cs: seq<Commit>, upstream: CommitId, outcome: RewriteOutcome): (r: Result<seq<Commit>, Failure>)
    ensures r.Ok? ==> IndexOf(cs, upstream).Some? && IndexOf(cs, upstream).value > 0 &&
                      r.value == MoveTip(cs, IndexOf(cs, upstream).value)
    ensures IndexOf(cs, upstream) == Some(0) ==> r.Err?
    ensures outcome == Conflict ==> r.Err?
  {
    match IndexOf(cs, upstream)
    case None => Err(GitError("invalid upstream '" + upstream + "^'"))
    case Some(k) =>
      if k == 0 then Err(GitError("invalid upstream '" + upstream + "^'"))
      else if outcome == Conflict then Err(GitError("could not apply " + cs[|cs| - 1].id))
      else Ok(MoveTip(cs, k))
  }

  /** The rewrite the script means: the tip moved to just before index k,
      using `git rebase -i --root` when k is the root commit. */
  function RebaseBefore(cs: seq<Commit>, k: nat, outcome: RewriteOutcome): (r: Result<seq<Commit>, Failure>)
    requires k < |cs|
    ensures r.Ok? <==> outcome == Success
    ensures r.Ok? ==> r.value == MoveTip(cs, k)
  {
    match outcome
    case Conflict => Err(GitError("could not apply " + cs[|cs| - 1].id))
    case Success => Ok(MoveTip(cs, k))
  }

  /** The root commit has no parent, so the script's rebase fails for it
      whatever the user does; the intended rewrite succeeds. */
  lemma RootRebaseFails(cs: seq<Commit>)
    requires |cs| > 0
    ensures RebaseOntoParent(cs, cs[0].id, Success).Err?
    ensures RebaseBefore(cs, 0, Success) == Ok(MoveTip(cs, 0))
  {
    assert IndexOf(cs, cs[0].id) == Some(0);
  }

  /** Moving the tip is placing it: when the tip's author date picks index k
      as its slot in the earlier commits, the timeline after the move is
      Timeline.Place of the tip's entry. */
  lemma MoveTipIsPlace(prior: seq<Commit>, tip: Commit)
    ensures var k := Slot(Entries(prior), tip.authored);
      Entries(MoveTip(prior + [tip], k)) == Place(Entries(prior), Entry(tip.id, tip.authored))
  {
    var cs := prior + [tip];
    var k := Slot(Entries(prior), tip.authored);
    assert cs[..|cs| - 1] == prior;
    var moved := MoveTip(cs, k);
    var placed := Place(Entries(prior), Entry(tip.id, tip.authored));
    assert |Entries(moved)| == |placed|;
    forall j | 0 <= j < |placed| ensures Entries(moved)[j] == placed[j] {
      if j < k {
        assert moved[j] == prior[j];
      } else if j > k {
        assert moved[j] == moved[k + 1..][j - k - 1] == prior[j - 1];
      }
    }
  }

  class Repo {
    /** The current branch's commits, oldest first. */
    var commits: seq<Commit>
    /** The tree of the last commit. */
    var head: FileTree
    var index: FileTree
    var worktree: FileTree
    var branches: set<string>
    var branch: string
    /** git stopped in the middle of a rebase. */
    var rebasing: bool
    /** repo.working_dir, an absolute path. */
    const root: string

    ghost predicate Valid()
      reads this
    {
      branch in branches && DistinctIds(commits)
    }

    /** git init: no commits, nothing staged, an empty working tree. */
    constructor Init(root: string, branch: string)
      ensures Valid() && this.root == root && this.branch == branch && branches == {branch}
      ensures commits == [] && head == map[] && index == map[] && worktree == map[] && !rebasing
    {
      this.root := root;
      this.branch := branch;
      branches := {branch};
      commits := [];
      head := map[];
      index := map[];
      worktree := map[];
      rebasing := false;
    }

    /** repo.is_dirty() */
    predicate IsDirty()
      reads this
    {
      Dirty(head, index, worktree)
    }

    /** repo.untracked_files */
    function UntrackedFiles(): set<string>
      reads this
    {
      Untracked(index, worktree)
    }

    /** Writing a file in the working tree (open(path, 'w') and its write calls). */
    method WriteFile(path: string, content: string)
      modifies this
      ensures worktree == old(worktree)[path := content]
      ensures commits == old(commits) && head == old(head) && index == old(index)
      ensures branches == old(branches) && branch == old(branch) && rebasing == old(rebasing)
    {
      worktree := worktree[path := content];
    }

    /** repo.index.add([path]) and `git add path`: the file's current content
      is staged; a path missing from the working tree raises. */
    method IndexAdd(path: string) returns (r: Result<(), Failure>)
      modifies this
      ensures r.Ok? <==> path in old(worktree)
      ensures r.Ok? ==> index == old(index)[path := old(worktree)[path]]
      ensures r.Err? ==> r.error == FileError(path) && index == old(index)
      ensures commits == old(commits) && head == old(head) && worktree == old(worktree)
      ensures branches == old(branches) && branch == old(branch) && rebasing == old(rebasing)
    {
      if path !in worktree {
        return Err(FileError(path));
      }
      index := index[path := worktree[path]];
      return Ok(());
    }

    /** repo.index.commit(message, author_date, commit_date): always records
      the index as a new commit at the tip, even when nothing changed. */
    method IndexCommit(message: string, authored: Moment, committed: Moment, newId: CommitId) returns (c: Commit)
      requires Valid() && !HasId(commits, newId)
      modifies this
      ensures Valid()
      ensures c == Commit(newId, message, authored, committed)
      ensures commits == old(commits) + [c] && head == old(index)
      ensures index == old(index) && worktree == old(worktree)
      ensures branches == old(branches) && branch == old(branch) && rebasing == old(rebasing)
    {
      c := Commit(newId, message, authored, committed);
      commits := commits + [c];
      head := index;
    }

    /** `git commit -m message`: author and committer dated now; refused
      when the index holds nothing new. */
    method CommitCommand(message: string, now: Moment, newId: CommitId) returns (r: Result<Commit, Failure>)
      requires Valid() && !HasId(commits, newId)
      modifies this
      ensures Valid()
      ensures r.Ok? <==> old(index) != old(head)
      ensures r.Ok? ==> r.value == Commit(newId, message, now, now) &&
                        commits == old(commits) + [r.value] && head == old(index)
      ensures r.Err? ==> r.error.GitError? && commits == old(commits) && head == old(head)
      ensures index == old(index) && worktree == old(worktree)
      ensures branches == old(branches) && branch == old(branch) && rebasing == old(rebasing)
    {
      if index == head {
        return Err(GitError("Git command failed: nothing to commit"));
      }
      var c := IndexCommit(message, now, now, newId);
      return Ok(c);
    }

    /** `git checkout -b name`: a new branch at the current commit, switched
      to; an existing name is refused. */
    method CheckoutNewBranch(name: string) returns (r: Result<(), Failure>)
      requires Valid()
      modifies this
      ensures Valid()
      ensures r.Ok? <==> name !in old(branches)
      ensures r.Ok? ==> branches == old(branches) + {name} && branch == name
      ensures r.Err? ==> r.error.GitError? && branches == old(branches) && branch == old(branch)
      ensures commits == old(commits) && head == old(head) && index == old(index) && worktree == old(worktree)
      ensures rebasing == old(rebasing)
    {
      if name in branches {
        return Err(GitError("Git command failed: a branch named '" + name + "' already exists"));
      }
      branches := branches + {name};
      branch := name;
      return Ok(());
    }

    /** `git rebase -i <upstream>^`: refused while an earlier rebase is paused
      and with uncommitted changes; then the outcome of RebaseOntoParent. A
      conflict leaves the branch where it was and git waiting in the middle
      of the rebase. */
    method RebaseInteractive(upstream: CommitId, outcome: RewriteOutcome) returns (r: Result<(), Failure>)
      requires Valid()
      modifies this
      ensures Valid()
      ensures old(rebasing) || old(IsDirty()) ==> r.Err? && commits == old(commits) && rebasing == old(rebasing)
      ensures !old(rebasing) && !old(IsDirty()) ==> match RebaseOntoParent(old(commits), upstream, outcome)
        case Ok(cs) => r.Ok? && commits == cs && !rebasing
        case Err(e) => r == Err(e) && commits == old(commits) &&
                       rebasing == (outcome == Conflict && IndexOf(old(commits), upstream).Some? &&
                                    IndexOf(old(commits), upstream).value > 0)
      ensures head == old(head) && index == old(index) && worktree == old(worktree)
      ensures branches == old(branches) && branch == old(branch)
    {
      if rebasing {
        return Err(GitError("Git command failed: there is already a rebase in progress"));
      }
      if IsDirty() {
        return Err(GitError("Git command failed: cannot rebase: You have unstaged changes."));
      }
      var res := RebaseOntoParent(commits, upstream, outcome);
      match res
      case Ok(cs) =>
        MoveTipKeepsIds(commits, IndexOf(commits, upstream).value);
        commits := cs;
        return Ok(());
      case Err(e) =>
        if outcome == Conflict && IndexOf(commits, upstream).Some? && IndexOf(commits, upstream).value > 0 {
          rebasing := true;
        }
        return Err(e);
    }
  }

  /** Reordering keeps the hashes distinct. */
  lemma MoveTipKeepsIds(cs: seq<Commit>, k: nat)
    requires k < |cs| && DistinctIds(cs)
    ensures DistinctIds(MoveTip(cs, k))
  {
    var r := MoveTip(cs, k);
    var n := |cs|;
    var pos := (j: int) => if j < k then j else if j == k then n - 1 else j - 1;
    assert forall j :: 0 <= j < n ==> r[j] == cs[pos(j)] by {
      forall j | 0 <= j < n ensures r[j] == cs[pos(j)] {
        if j < k {
          assert r[j] == r[..k][j];
        } else if j > k {
          assert r[j] == r[k + 1..][j - k - 1];
        }
      }
    }
    forall i, j | 0 <= i < j < n ensures r[i].id != r[j].id {
      assert pos(i) != pos(j);
    }
  }
}
