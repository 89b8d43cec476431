/** scripts/manage_events.py: the file name, file text and commit message of
    create_event, and its decision to rebase a past event into place. The
    timeline search itself is Timeline.FindInsertionPoint, the log parsing
    CommitLog.GetCommitDates and sanitize_filename Slug.Sanitize. */
module ManageEvents {
  import opened Wrappers
  import opened Text
  import opened Dates
  import opened Slug
  import opened Timeline
  import opened Repository
  import Events

  const EventsDir := "events"

  /** The event file name of line 119: "<date>-<slug>.md". */
  function ScriptFilename(dateStr: string, slug: string): string {
    dateStr + "-" + slug + ".md"
  }

  /** The path `events/<date>-<slug>.md` for the parsed date and the title. */
  function ScriptPath(d: CalendarDate, title: string): string
    requires ValidDate(d)
  {
    EventsDir + "/" + ScriptFilename(FormatDate(d), Sanitize(title))
  }

  /** The commit message of lines 177-178; the double quotes are part of the
      argument git receives, so they are part of the message. */
  function ScriptCommitMessage(title: string, dateStr: string): string {
    "\"event: " + title + " (" + dateStr + ")\""
  }

  /** The front matter lines 133-136 write. */
  function FrontMatter(title: string, eventType: string, dateStr: string, description: string): string {
    "title: " + title + "\n" + "type: " + eventType + "\n" + "date: " + dateStr + "\n" +
    "description: " + description + "\n"
  }

  /** The text of an event file without media (lines 131-146). */
  function EventFileText(title: string, eventType: string, dateStr: string, description: string): string {
    "---\n" + FrontMatter(title, eventType, dateStr, description) + "---\n\n" +
    "# " + title + "\n\n" + description + "\n\n"
  }

  /** The whole state of the repository is as it was. */
  twostate predicate Untouched(repo: Repo)
    reads repo
  {
    repo.commits == old(repo.commits) && repo.head == old(repo.head) && repo.index == old(repo.index) &&
    repo.worktree == old(repo.worktree) && repo.branches == old(repo.branches) &&
    repo.branch == old(repo.branch) && repo.rebasing == old(repo.rebasing)
  }

  /** The exceptions create_event catches (line 197). */
  predicate Caught(f: Failure) {
    f.ValueError? || f.GitError?
  }

  /** As written, the search of line 184 runs on a log that holds at least
      the event commit just made, with offset-aware dates, against the naive
      date strptime gave: it raises a TypeError that create_event does not
      catch. */
  lemma PastEventRaises(prior: seq<Commit>, c: Commit, d: CalendarDate)
    ensures var r := SearchAsWritten(Entries(prior + [c]), true, Stamp(Midnight(d), false));
      r.Err? && !Caught(r.error)
  {
    NaiveTargetRaises(Entries(prior + [c]), Stamp(Midnight(d), false));
  }

  /** A name is given for `--branch` (Python truthiness of branch_name). */
  predicate BranchGiven(branchName: Option<string>) {
    branchName.Some? && branchName.value != ""
  }

  /** The file name is the date, '-', a slug and ".md"; it has no '/', and
      the date at its head reads back as the date it was made from. */
  lemma ScriptFilenameParts(d: CalendarDate, title: string)
    requires ValidDate(d)
    ensures var name := ScriptFilename(FormatDate(d), Sanitize(title));
      |name| >= 14 && ValidateDate(name[..10]) == Ok(d) && name[10] == '-' &&
      IsSlug(name[11..|name| - 3]) && name[|name| - 3..] == ".md" && '/' !in name
  {
    var ds := FormatDate(d);
    var slug := Sanitize(title);
    var name := ScriptFilename(ds, slug);
    ParseFormatted(d);
    DateChars(ds);
    assert name[..10] == ds;
    assert name[11..|name| - 3] == slug;
    forall i | 0 <= i < |name| ensures name[i] != '/' {
      if i < 10 {
        assert name[i] == ds[i];
      } else if 10 < i < |name| - 3 {
        assert name[i] == slug[i - 11];
      }
    }
  }

  /** The commit message ends with the date in parentheses and quotes. */
  lemma MessageEndsWithDate(title: string, d: CalendarDate)
    requires ValidDate(d)
    ensures var m := ScriptCommitMessage(title, FormatDate(d));
      |m| >= 22 && m[..8] == "\"event: " && m[|m| - 13..] == "(" + FormatDate(d) + ")\""
  {
    var ds := FormatDate(d);
    var m := ScriptCommitMessage(title, ds);
    assert m == "\"event: " + title + " " + ("(" + ds + ")\"");
  }

  /** The file the script writes passes the front-matter guard of
      lifeline's Event.from_file: its first part is empty (the file opens
      with "---") and the whole text is the parts joined again. */
  lemma ScriptFileReadable(title: string, eventType: string, dateStr: string, description: string, filePath: string)
    ensures Events.SplitFrontMatter(EventFileText(title, eventType, dateStr, description), filePath).Ok?
  {
    var fm := FrontMatter(title, eventType, dateStr, description);
    var text := EventFileText(title, eventType, dateStr, description);
    var j := 4 + |fm|;
    assert text == "---\n" + fm + "---\n\n" + ("# " + title + "\n\n" + description + "\n\n");
    assert text[0..3] == "---";
    assert text[j..j + 3] == "---";
    assert OccursAt(text, "---", 0) && OccursAt(text, "---", j);
    assert Events.TwoMarkers(text);
  }

  /** The hash the script hands to `git rebase -i <hash>^` (lines 182-188):
      only for an event dated before now and outside a new branch, the first
      commit of cs dated strictly after the event. */
  function RebaseTarget(cs: seq<Commit>, target: Moment, now: Moment, branchGiven: bool): (r: Option<CommitId>)
    ensures r.Some? ==> target < now && !branchGiven
    ensures r.Some? ==> (exists k :: 0 <= k < |cs| && cs[k].id == r.value && cs[k].authored > target &&
                           forall j :: 0 <= j < k ==> cs[j].authored <= target)
    ensures target < now && !branchGiven ==>
      (r.None? <==> forall j :: 0 <= j < |cs| ==> cs[j].authored <= target)
  {
    if target < now && !branchGiven then
      match FirstLater(Entries(cs), target)
      case None => None
      case Some(k) => Some(cs[k].id)
    else None
  }

  /** The branch after the event commit c has been made on top of prior and
      the rebase decision has run, in a clean working tree: unchanged when
      there is no target, otherwise what `git rebase -i <target>^` gives. */
  function ScriptRewrite(prior: seq<Commit>, c: Commit, target: Moment, now: Moment, branchGiven: bool,
                         outcome: RewriteOutcome): Result<seq<Commit>, Failure>
  {
    var cs := prior + [c];
    match RebaseTarget(cs, target, now, branchGiven)
    case None => Ok(cs)
    case Some(up) => RebaseOntoParent(cs, up, outcome)
  }

  /** A rewrite is attempted only for an event before now with no branch
      given; otherwise the new commit simply stays at the tip. */
  lemma RewriteOnlyForPastEvents(prior: seq<Commit>, c: Commit, target: Moment, now: Moment, branchGiven: bool,
                                 outcome: RewriteOutcome)
    requires !(target < now) || branchGiven
    ensures ScriptRewrite(prior, c, target, now, branchGiven, outcome) == Ok(prior + [c])
  {
    assert RebaseTarget(prior + [c], target, now, branchGiven).None?;
  }

  /** The search runs after the commit at line 178 and so also sees that
      commit; as it is dated later than the event, the search over the
      extended timeline ends exactly at the event's slot in the timeline as
      it was before the commit. */
  lemma SearchAfterCommit(prior: seq<Entry>, e: Entry, target: Moment)
    requires e.date > target
    ensures FirstLater(prior + [e], target) == Some(Slot(prior, target))
  {
    var s := prior + [e];
    var k := Slot(prior, target);
    assert s[k].date > target;
    var r := FirstLater(s, target);
    assert r.Some?;
    assert forall j :: 0 <= j < k ==> s[j].date <= target;
  }

  /** In a branch with distinct hashes, looking a commit's hash up finds
      that commit. */
  lemma IndexOfOwnId(cs: seq<Commit>, k: nat)
    requires k < |cs| && DistinctIds(cs)
    ensures IndexOf(cs, cs[k].id) == Some(k)
  {
    assert HasId(cs, cs[k].id);
  }

  /** What the script does to a past event committed at now: with k the
      event's slot in the timeline before the commit, the rebase goes
      through exactly when the user completes it and k is not the root
      commit's slot, and then the new commit (still carrying its wall-clock
      date) sits at index k. */
  lemma ScriptRewriteAtSlot(prior: seq<Commit>, c: Commit, target: Moment, outcome: RewriteOutcome)
    requires target < c.authored && DistinctIds(prior + [c])
    ensures var k := Slot(Entries(prior), target);
      var r := ScriptRewrite(prior, c, target, c.authored, false, outcome);
      (r.Ok? <==> outcome == Success && k > 0) &&
      (r.Ok? ==> r.value == MoveTip(prior + [c], k))
  {
    var cs := prior + [c];
    var k := Slot(Entries(prior), target);
    EntriesAppend(prior, c);
    SearchAfterCommit(Entries(prior), Entry(c.id, c.authored), target);
    assert RebaseTarget(cs, target, c.authored, false) == Some(cs[k].id);
    IndexOfOwnId(cs, k);
  }

  /** An insertion point at the first commit of the branch (the event is
      older than every commit, or the branch had no commit before it) makes
      the script's rebase fail whatever the user does: the root commit has
      no parent. */
  lemma RootInsertionFails(prior: seq<Commit>, c: Commit, target: Moment, outcome: RewriteOutcome)
    requires target < c.authored && DistinctIds(prior + [c])
    requires forall j :: 0 <= j < |prior| ==> prior[j].authored > target
    ensures ScriptRewrite(prior, c, target, c.authored, false, outcome).Err?
  {
    ScriptRewriteAtSlot(prior, c, target, outcome);
    assert Slot(Entries(prior), target) == 0 by {
      if |prior| > 0 {
        assert Entries(prior)[0].date > target;
      }
    }
  }

  /** The script's rewrite leaves the timeline out of date order whenever it
      moves anything: the new commit keeps its commit-time date and lands in
      front of a commit dated between the event and now. */
  lemma WallClockBreaksOrder(prior: seq<Commit>, c: Commit, target: Moment)
    requires target < c.authored && DistinctIds(prior + [c])
    requires Slot(Entries(prior), target) > 0
    requires Slot(Entries(prior), target) < |prior| && prior[Slot(Entries(prior), target)].authored < c.authored
    ensures var r := ScriptRewrite(prior, c, target, c.authored, false, Success);
      r.Ok? && !Sorted(Entries(r.value))
  {
    var k := Slot(Entries(prior), target);
    ScriptRewriteAtSlot(prior, c, target, Success);
    var r := ScriptRewrite(prior, c, target, c.authored, false, Success).value;
    assert r[k] == c;
    assert r[k + 1] == r[k + 1..][0] == prior[k];
    assert Entries(r)[k].date > Entries(r)[k + 1].date;
  }

  /** Two commits dated day 1 and day 10, an event on day 5 created on day
      100: after the rebase the log reads 1, 100, 10. */
  lemma WallClockExample()
    ensures var a := Commit("a", "", 1, 1);
      var b := Commit("b", "", 10, 10);
      var c := Commit("c", "", 100, 100);
      var r := ScriptRewrite([a, b], c, 5, 100, false, Success);
      r.Ok? && r.value == [a, c, b] && !Sorted(Entries(r.value))
  {
    var a := Commit("a", "", 1, 1);
    var b := Commit("b", "", 10, 10);
    var c := Commit("c", "", 100, 100);
    var es := Entries([a, b]);
    assert es[0].date <= 5 && es[1].date > 5;
    assert Slot(es, 5) == 1;
    assert DistinctIds([a, b] + [c]) by {
      assert [a, b] + [c] == [a, b, c];
    }
    ScriptRewriteAtSlot([a, b], c, 5, Success);
    assert MoveTip([a, b] + [c], 1) == [a, c, b];
    assert Entries([a, c, b])[1].date > Entries([a, c, b])[2].date;
  }

  /** The rewrite the script means: the event commit, dated at the event,
      moved to just before the first commit dated after it, using
      `git rebase -i --root` when that is the first commit; when no earlier
      commit is dated after it there is nothing to move and no rebase. */
  function IntendedRewrite(prior: seq<Commit>, c: Commit, outcome: RewriteOutcome): Result<seq<Commit>, Failure> {
    var k := Slot(Entries(prior), c.authored);
    if k == |prior| then Ok(prior + [c])
    else RebaseBefore(prior + [c], k, outcome)
  }

  /** The intended rewrite goes through exactly when the user completes it,
      root or not, or when there is nothing to move; then the timeline is
      the earlier one with the event placed after every commit of its day or
      before, the hashes stay distinct, and a timeline in date order stays in
      date order. */
  lemma IntendedRewriteSorted(prior: seq<Commit>, c: Commit, outcome: RewriteOutcome)
    requires DistinctIds(prior + [c])
    ensures IntendedRewrite(prior, c, outcome).Ok? <==>
      outcome == Success || Slot(Entries(prior), c.authored) == |prior|
    ensures IntendedRewrite(prior, c, outcome).Ok? ==>
      var r := IntendedRewrite(prior, c, outcome).value;
      Entries(r) == Place(Entries(prior), Entry(c.id, c.authored)) && DistinctIds(r) &&
      (Sorted(Entries(prior)) ==> Sorted(Entries(r)))
  {
    var k := Slot(Entries(prior), c.authored);
    if IntendedRewrite(prior, c, outcome).Ok? {
      MoveTipIsPlace(prior, c);
      MoveTipKeepsIds(prior + [c], k);
      if k == |prior| {
        TipStays(prior + [c]);
      }
      if Sorted(Entries(prior)) {
        PlaceSorted(Entries(prior), Entry(c.id, c.authored));
      }
    }
  }

  /** Moving the tip to where it already is changes nothing. */
  lemma TipStays<T>(cs: seq<T>)
    requires |cs| > 0
    ensures MoveTip(cs, |cs| - 1) == cs
  {
    var r := MoveTip(cs, |cs| - 1);
    assert r[..|cs| - 1] == cs[..|cs| - 1];
    assert r == r[..|cs| - 1] + [r[|cs| - 1]];
    assert cs == cs[..|cs| - 1] + [cs[|cs| - 1]];
  }

  /** The latest event, and the first event of a branch, need no rewrite:
      the intended rewrite leaves the event at the tip whatever the rebase
      would have done. */
  lemma IntendedLatestStays(prior: seq<Commit>, c: Commit, outcome: RewriteOutcome)
    requires forall j :: 0 <= j < |prior| ==> prior[j].authored <= c.authored
    ensures IntendedRewrite(prior, c, outcome) == Ok(prior + [c])
  {
    assert FirstLater(Entries(prior), c.authored).None?;
  }

  /** create_event: parse and reformat the date, create the branch when one
      is given, write and stage the event file, commit it dated now, then
      for a past event outside a new branch rebase it before the first later
      commit. Any ValueError or GitError ends it with False; a failed rebase
      leaves the commit made. The log the search reads is the current
      branch's timeline; `outcome` stands for how the interactive rebase
      ends. */
  method CreateEvent(repo: Repo, dateStr: string, title: string, eventType: string, description: string,
                     branchName: Option<string>, now: Moment, newId: CommitId, outcome: RewriteOutcome)
    returns (ok: bool)
    requires repo.Valid() && !HasId(repo.commits, newId)
    modifies repo
    ensures repo.Valid()
    ensures ok ==> Strptime(dateStr).Ok?
    ensures Strptime(dateStr).Err? ==> Untouched(repo)
    ensures Strptime(dateStr).Ok? && BranchGiven(branchName) && branchName.value in old(repo.branches) ==>
      !ok && Untouched(repo)
    ensures Strptime(dateStr).Ok? && !(BranchGiven(branchName) && branchName.value in old(repo.branches)) ==>
      var d := Strptime(dateStr).value;
      var path := ScriptPath(d, title);
      var text := EventFileText(title, eventType, FormatDate(d), description);
      repo.worktree == old(repo.worktree)[path := text] && repo.index == old(repo.index)[path := text] &&
      repo.branches == old(repo.branches) + (if BranchGiven(branchName) then {branchName.value} else {}) &&
      repo.branch == (if BranchGiven(branchName) then branchName.value else old(repo.branch)) &&
      repo.head == (if repo.index != old(repo.head) then repo.index else old(repo.head)) &&
      (repo.index == old(repo.head) ==> !ok && repo.commits == old(repo.commits) && repo.rebasing == old(repo.rebasing)) &&
      (repo.index != old(repo.head) ==>
        var c := Commit(newId, ScriptCommitMessage(title, FormatDate(d)), now, now);
        var cs := old(repo.commits) + [c];
        var target := RebaseTarget(cs, Midnight(d), now, BranchGiven(branchName));
        var blocked := old(repo.rebasing) || Dirty(repo.index, repo.index, repo.worktree);
        (target.Some? && blocked ==> !ok && repo.commits == cs && repo.rebasing == old(repo.rebasing)) &&
        (target.None? ==> repo.rebasing == old(repo.rebasing)) &&
        (target.Some? && !blocked ==>
           repo.rebasing == (outcome == Conflict && IndexOf(cs, target.value).Some? && IndexOf(cs, target.value).value > 0)) &&
        (target.None? || !blocked ==>
           var r := ScriptRewrite(old(repo.commits), c, Midnight(d), now, BranchGiven(branchName), outcome);
           ok == r.Ok? && repo.commits == (if r.Ok? then r.value else cs)))
  {
    var parsed := Strptime(dateStr);
    if parsed.Err? {
      return false;
    }
    var d := parsed.value;
    var ds := FormatDate(d);
    var given := BranchGiven(branchName);
    if given {
      var created := repo.CheckoutNewBranch(branchName.value);
      if created.Err? {
        return false;
      }
    }
    var path := EventsDir + "/" + ScriptFilename(ds, Sanitize(title));
    var committed := StageAndCommit(repo, path, EventFileText(title, eventType, ds, description),
                                    ScriptCommitMessage(title, ds), now, newId);
    if committed.Err? {
      return false;
    }
    ok := RebaseIfPast(repo, Midnight(d), now, given, outcome);
  }

  /** Lines 131 and 171-178: write the file, `git add` it, `git commit` it
      dated now; the commit is refused when the staged tree is the last
      commit's. */
  method StageAndCommit(repo: Repo, path: string, text: string, message: string, now: Moment, newId: CommitId)
    returns (r: Result<Commit, Failure>)
    requires repo.Valid() && !HasId(repo.commits, newId)
    modifies repo
    ensures repo.Valid()
    ensures repo.worktree == old(repo.worktree)[path := text] && repo.index == old(repo.index)[path := text]
    ensures r.Ok? <==> repo.index != old(repo.head)
    ensures r.Ok? ==> r.value == Commit(newId, message, now, now) &&
                      repo.commits == old(repo.commits) + [r.value] && repo.head == repo.index
    ensures r.Err? ==> repo.commits == old(repo.commits) && repo.head == old(repo.head)
    ensures repo.branches == old(repo.branches) && repo.branch == old(repo.branch) && repo.rebasing == old(repo.rebasing)
  {
    repo.WriteFile(path, text);
    var added := repo.IndexAdd(path);
    assert added.Ok?;  // the file was just written, so staging it cannot fail
    r := repo.CommitCommand(message, now, newId);
  }

  /** Lines 182-193, run right after the event commit: for a past event
      outside a new branch, `git rebase -i <point>^` at the first commit
      dated after the event; a failed rebase gives False. */
  method RebaseIfPast(repo: Repo, target: Moment, now: Moment, given: bool, outcome: RewriteOutcome)
    returns (ok: bool)
    requires repo.Valid()
    modifies repo
    ensures repo.Valid()
    ensures RebaseTarget(old(repo.commits), target, now, given).None? ==> ok && Untouched(repo)
    ensures RebaseTarget(old(repo.commits), target, now, given).Some? && (old(repo.rebasing) || old(repo.IsDirty())) ==>
      !ok && repo.commits == old(repo.commits) && repo.rebasing == old(repo.rebasing)
    ensures RebaseTarget(old(repo.commits), target, now, given).Some? && !old(repo.rebasing) && !old(repo.IsDirty()) ==>
      var up := RebaseTarget(old(repo.commits), target, now, given).value;
      (match RebaseOntoParent(old(repo.commits), up, outcome)
       case Ok(cs) => ok && repo.commits == cs
       case Err(_) => !ok && repo.commits == old(repo.commits)) &&
      repo.rebasing == (outcome == Conflict && IndexOf(old(repo.commits), up).Some? && IndexOf(old(repo.commits), up).value > 0)
    ensures repo.head == old(repo.head) && repo.index == old(repo.index) && repo.worktree == old(repo.worktree)
    ensures repo.branches == old(repo.branches) && repo.branch == old(repo.branch)
  {
    ok := true;
    if target < now && !given {
      var point := FindInsertionPoint(Entries(repo.commits), target);
      if point.Some? {
        var rebased := repo.RebaseInteractive(point.value, outcome);
        ok := rebased.Ok?;
      }
    }
  }
}
