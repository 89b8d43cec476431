# life-timeline: the commit timeline of life events, in Dafny

life-timeline keeps a person's life events as Markdown files in a git
repository. Each event is one commit. The commits are supposed to read
oldest event first. This project models the parts of the repository that
decide names, validate records and place commits on that timeline.

- `scripts/manage_events.py`:
  - `get_commit_dates` parses the `git log --format=%H %aI --reverse` output;
  - `find_insertion_point` searches the timeline;
  - `sanitize_filename` makes a slug of the title;
  - `create_event` builds the file name, file text and commit message, then decides whether to rebase.
- `lifeline/utils.py`: date and event-type validation, the default types and the `<date>_<slug>.md` file name.
- `lifeline/event.py`: the fields the `Event` constructor derives, `path`, `media_dir` and the front-matter guard of `from_file`.
- `lifeline/git.py`: `is_repo_clean` and `add_event_to_git`, over an in-memory repository.

Modules and files:

| file | module | what it holds |
|---|---|---|
| `wrappers.dfy` | `Wrappers` | `Option`, `Result`, and `Failure`, which stands for Python's `ValueError`, git failures and a missing file |
| `text.dfy` | `Text` | `str.find`, `str.split(sep, n)`, `str.splitlines`, `str.strip`, `str.replace`, `str.join`, `os.path.join` |
| `dates.dfy` | `Dates` | the grammar `strptime(s, "%Y-%m-%d")` accepts, `strftime`, and midnight of a date on an ordered time scale |
| `timeline.dfy` | `Timeline` | the timeline as `seq<Entry>`, the insertion-point search (a loop and its specification), and placing an event |
| `commit_log.dfy` | `CommitLog` | the parsing loop of `get_commit_dates` and its specification, plus the render/parse round trip |
| `slug.dfy` | `Slug` | `sanitize_filename` |
| `paths.dfy` | `Paths` | the part of `pathlib` that `add_event_to_git` uses |
| `repository.dfy` | `Repository` | class `Repo`: the branch's commits, the last commit's tree, the index, the working tree and branches; `git add`, `commit`, `checkout -b` and `rebase -i` |
| `utils.dfy` | `Utils` | `lifeline/utils.py` |
| `event.dfy` | `Events` | `lifeline/event.py` |
| `git.dfy` | `LifelineGit` | `lifeline/git.py` |
| `manage_events.dfy` | `ManageEvents` | `create_event` of `scripts/manage_events.py` |

Design choices:

- **Time.** A moment is an `int` on one ordered scale. `Dates.Midnight` maps a date to a moment that respects date order; it is not the count of seconds since an epoch.
- **Outside inputs become parameters.** The clock (`now`), the hash git picks (`newId`), the library calls `slugify` and `fromisoformat`, and how the interactive rebase ends (`RewriteOutcome`: `Success` or `Conflict`) are all parameters.
- **The log is a function of the branch.** The log `create_event` reads is `Repository.Entries` of the current branch's commits. `CommitLog` proves separately that parsing the rendered log gives those entries back.
- **The search runs after the commit.** `create_event` searches the timeline after it has made the event commit, dated now (line 184). `ManageEvents.SearchAfterCommit` restates that search in terms of the timeline before the commit: it ends at the event's slot in the earlier timeline.

Where the docstrings and the code disagree, the model follows the code. The docstrings at `lifeline/utils.py:16`, `:65` and `:69` promise `YYYY-MM-DD` dates and `YYYY-MM-DD_slugified-title.md` file names.

- `scripts/manage_events.py:119` joins date and slug with `-`; `lifeline/utils.py:77` joins them with `_`.
- The date grammar is the one `strptime` implements, so it also accepts `2024-1-5` and a day written with a leading space. It is not exactly `YYYY-MM-DD`.
- `get_event_filename` builds the name from the date string as given, not from a reformatted date.

## Model

| member | source | states |
|---|---|---|
| Text.Join | lifeline/git.py:34-37 | `str.join`: the parts with the separator between consecutive ones; JoinSplit, SplitLinesJoin and Paths.ComponentsJoin are its round trips |
| Text.JoinSplit | scripts/manage_events.py:74 | joining the parts of `str.split(sep, n)` with `sep` gives the string back |
| Text.SplitOnce | scripts/manage_events.py:74 | `split(' ', 1)` is the whole line when there is no space, otherwise the text before and after the first space |
| Text.SplitLinesJoin | scripts/manage_events.py:72 | non-empty lines without line breaks come back from their newline-joined text by `splitlines` |
| Text.SplitLines | scripts/manage_events.py:72 | `str.splitlines`: cut at each line boundary, "\r\n" counting as one, with no empty line after a final boundary; SplitLinesJoin is its round trip with newline-joined lines |
| Text.Strip | scripts/manage_events.py:75 | the stripped text is one slice of the input with only whitespace before and after it, and neither end of the slice is whitespace |
| Text.StripLeft | scripts/manage_events.py:75 | the result is a suffix, everything removed is whitespace, and what is left does not start with whitespace |
| Text.StripRight | scripts/manage_events.py:75 | the result is a prefix, everything removed is whitespace, and what is left does not end with whitespace |
| Text.StripClean | scripts/manage_events.py:75 | a text with no whitespace at either end is left unchanged by strip |
| Text.FindChar | scripts/manage_events.py:74 | `find` of one character gives its first occurrence, and nothing exactly when the character is absent |
| Text.FindAfter | lifeline/git.py:37 | in `x + c + y` with `c` not in `x`, the first `c` is the one right after `x` |
| Text.Find | lifeline/event.py:63 | `str.find`: an occurrence with none before it, or none at all |
| Text.SplitAtMost | lifeline/event.py:63 | `str.split(sep, n)` gives between 1 and n+1 parts |
| Text.OsPathJoin | lifeline/event.py:40 | `os.path.join(a, b)` is `a + "/" + b` for a relative, non-empty `b` and an `a` not ending in '/' |
| Text.ReplaceAll | lifeline/event.py:45 | `str.replace(pat, rep)`: every non-overlapping occurrence, scanning left to right; RemoveTrailing gives its value on a file name |
| Text.RemoveTrailing | lifeline/event.py:45 | replacing every ".md" by "" in `x + ".md"`, where `x` has no '.', gives `x` |
| Dates.MatchMonth | lifeline/utils.py:28 | `%m` matches one or two digits whose value is a month 1-12 |
| Dates.MatchDay | lifeline/utils.py:28 | `%d` matches one or two characters (digits, or a space and a digit) whose value is 1-31 |
| Dates.Strptime | lifeline/utils.py:28 | an accepted string is 8 to 10 characters, starts with a digit, has '-' at index 4 and names a real calendar date; a rejected one raises ValueError |
| Dates.DateChars | lifeline/utils.py:28 | an accepted string holds only digits, '-' and spaces |
| Dates.ValidateDate | lifeline/utils.py:14-32 | accepts exactly what strptime accepts, returns the same date, and otherwise raises ValueError with the "Invalid date format" message |
| Dates.ParseFormatted | scripts/manage_events.py:110-111 | the `strftime` text of a valid date parses back to that date |
| Dates.FormattedParsed | scripts/manage_events.py:110-111 | a ten-character accepted date without a space is already its own `strftime` text |
| Dates.FormatDate | scripts/manage_events.py:110-111 | `strftime("%Y-%m-%d")` of a valid date is ten characters with '-' at indexes 4 and 7; ParseFormatted is its round trip |
| Dates.Midnight | lifeline/utils.py:28 | the naive datetime `strptime` returns is at 00:00:00 of its date (a whole number of days); MidnightOrder gives its order |
| Dates.MidnightOrder | scripts/manage_events.py:183 | comparing two midnights compares the dates, and equal midnights mean equal dates |
| Timeline.FirstLater | scripts/manage_events.py:87-92 | the first index whose date is strictly after the target, with every earlier date at or before it; none exactly when every date is at or before it |
| Timeline.FindInsertionPoint | scripts/manage_events.py:81-92 | the loop returns None for an empty list and exactly when every commit is dated at or before the target; otherwise it returns the hash of the first commit dated strictly after it, equal to what FirstLater selects |
| Timeline.InsertAt | scripts/manage_events.py:188 | the inserted element is at index k, with the elements before and after it kept |
| Timeline.Slot | scripts/manage_events.py:87-90 | the slot is after every commit dated at or before the target and at the first one dated after it |
| Timeline.SlotSplitsSorted | scripts/manage_events.py:87-90 | on a sorted timeline everything from the slot on is dated after the target |
| Timeline.Place | scripts/manage_events.py:181-188 | the timeline with the event inserted at its slot, which is where the intended rewrite leaves the event commit; the Place lemmas below state what that keeps |
| Timeline.PlaceSorted | scripts/manage_events.py:181-188 | placing an event in a sorted timeline keeps it sorted |
| Timeline.PlaceTieBreak | scripts/manage_events.py:89 | the placed event follows every commit of its own date (strict `>`), and on a sorted timeline precedes only later ones |
| Timeline.PlaceKeepsOthers | scripts/manage_events.py:188 | removing the placed event gives the timeline back, and the multiset grows by exactly that event |
| Timeline.PlaceLatest | scripts/manage_events.py:84-92 | an event dated no earlier than every commit is appended at the tip |
| Timeline.PlaceAll | tests/test_git.py:124-135 | events placed one after another, in the order given; PlaceAllSorted, PlaceAllPermutation and PlaceAllAppend state what that keeps |
| Timeline.PlaceAllSorted | tests/test_git.py:124-135 | placing any sequence of events into a sorted timeline leaves it sorted |
| Timeline.PlaceAllPermutation | tests/test_git.py:124-135 | placing events loses and duplicates nothing |
| Timeline.PlaceAllAppend | tests/test_git.py:103-122 | placing `xs + ys` is placing `xs`, then `ys` |
| Timeline.PlaceKeepsPrecedes | scripts/manage_events.py:188 | placing an event keeps the relative order of any two commits |
| Timeline.PlaceAllKeepsPrecedes | scripts/manage_events.py:188 | so do repeated placements |
| Timeline.PlaceKeepsMember | scripts/manage_events.py:188 | a placed timeline keeps every commit |
| Timeline.PlaceAllKeepsMember | scripts/manage_events.py:188 | so do repeated placements |
| Timeline.PlaceAfterNotLater | scripts/manage_events.py:89 | an event placed into a sorted timeline comes after every commit dated no later than it |
| Timeline.SameDayStable | scripts/manage_events.py:89 | of two events added in turn, the earlier-added one stays first when it is dated no later than the other |
| Timeline.StableParts | scripts/manage_events.py:89 | the same, for a sequence split around the two events |
| Timeline.LastPlacedIsMember | scripts/manage_events.py:188 | the last event placed is in the result |
| Timeline.ThreeEventScenario | tests/test_git.py:124-135 | the order the test asserts (January, February, March) for events of March, January and February added in that order, reached when every event goes through the intended insertion |
| Timeline.Later | scripts/manage_events.py:89 | `date > target_date` compares two datetimes only when both are naive or both offset-aware, and otherwise raises TypeError |
| Timeline.SearchAsWritten | scripts/manage_events.py:87-92 | the loop of find_insertion_point with the awareness of both sides kept: the first hash dated after the target, or the first comparison's TypeError |
| Timeline.NaiveTargetRaises | scripts/manage_events.py:88-89 | a non-empty log of offset-aware dates against a naive target raises TypeError at the first comparison |
| Timeline.LikeWithLikeAgrees | scripts/manage_events.py:87-92 | comparing like with like, the search never raises and returns the hash at FirstLater's index, or nothing |
| CommitLog.ParseLine | scripts/manage_events.py:74-76 | a parsed line yields a hash with no space, followed by one space, and a date that `fromisoformat` reads from the stripped rest; a line without a space raises the unpack ValueError |
| CommitLog.Filled | scripts/manage_events.py:72-73 | only non-empty lines are kept |
| CommitLog.ParseLog | scripts/manage_events.py:71-77 | the specification of the parsing loop: every non-empty line parsed in order by ParseLine, the first failure propagated; ParseLogLines states it line by line |
| CommitLog.ParseLogLines | scripts/manage_events.py:71-77 | parsing succeeds exactly when every non-empty line parses, and then the k-th entry is the k-th non-empty line's parse, in log order |
| CommitLog.GetCommitDates | scripts/manage_events.py:64-79 | the result is the parse of the output's `splitlines`, and empty output gives the empty list |
| CommitLog.CollectEntries | scripts/manage_events.py:71-77 | the appending loop computes the specification ParseLog |
| CommitLog.PrependNothing | scripts/manage_events.py:71 | prepending nothing to a parse result leaves it unchanged |
| CommitLog.PrependTwice | scripts/manage_events.py:76 | appending one more entry composes with what was already collected |
| CommitLog.ParseRenderedLine | scripts/manage_events.py:74-76 | a rendered `%H %aI` line parses back to its entry |
| CommitLog.ParseRenderedLines | scripts/manage_events.py:71-77 | rendered lines parse back to the entries |
| CommitLog.RenderedLinesClean | scripts/manage_events.py:72 | rendered lines are non-empty and free of line breaks |
| CommitLog.ParseRenderedLog | scripts/manage_events.py:67-77 | the log text git prints for a timeline parses back to that timeline, in order |
| Slug.Lower | scripts/manage_events.py:96 | every character is lowered (ASCII), and the length is kept |
| Slug.SpacesToDashes | scripts/manage_events.py:96 | every space becomes '-', and nothing else changes |
| Slug.KeepSlugChars | scripts/manage_events.py:97 | `re.sub(r'[^a-z0-9-]', '', s)`: only a-z, 0-9 and '-' remain, and a single character is kept exactly when it is one of them |
| Slug.KeepSlugCharsAppend | scripts/manage_events.py:97 | the filter works character by character: filtering `x + y` is filtering `x`, then `y` |
| Slug.KeepFixed | scripts/manage_events.py:97 | filtering leaves a text unchanged exactly when it has only slug characters |
| Slug.CollapseDashes | scripts/manage_events.py:98 | `re.sub(r'-+', '-', s)`: no longer than the input, built from its characters, with the first character kept; CollapseNoDoubleDash, CollapseKeepsText, CollapseRun and CollapseFixed give the rest |
| Slug.CollapseNoDoubleDash | scripts/manage_events.py:98 | after collapsing, no two dashes are adjacent |
| Slug.CollapseKeepsText | scripts/manage_events.py:98 | collapsing removes only dashes |
| Slug.CollapseFixed | scripts/manage_events.py:98 | collapsing leaves a text unchanged exactly when it has no double dash |
| Slug.CollapseRun | scripts/manage_events.py:98 | a run of dashes anywhere collapses like a single dash: `x + "--" + y` collapses as `x + "-" + y` |
| Slug.Sanitize | scripts/manage_events.py:94-99 | the output has only a-z, 0-9 and '-', and never two '-' in a row |
| Slug.SanitizeExample | scripts/manage_events.py:94-99 | "A  b!" becomes "a-b": lowered, the two spaces a single dash, the '!' dropped |
| Slug.SlugFixed | scripts/manage_events.py:94-99 | a slug is its own sanitized form |
| Slug.SanitizeIdempotent | scripts/manage_events.py:94-99 | sanitizing twice equals sanitizing once |
| Paths.Parse | lifeline/git.py:34-35 | `Path(s)`: absolute exactly when s starts with '/', with the components Components gives |
| Paths.Str | lifeline/git.py:34-37 | `str(path)`: '/' and the components joined by '/' for an absolute path, "." for an empty relative one; ParseStr is its round trip |
| Paths.Name | lifeline/git.py:43 | `path.name`: the last component, which Parent drops, and "" for a path without one |
| Paths.Components | lifeline/git.py:34-35 | parsed components are non-empty, never ".", and free of '/' |
| Paths.Parent | lifeline/git.py:29 | the parent drops the last component and keeps whether the path is absolute |
| Paths.Absolute | lifeline/git.py:34-35 | `absolute()` keeps an absolute path and prefixes a relative one with the working directory |
| Paths.RelativeTo | lifeline/git.py:37 | `relative_to` succeeds exactly when root's components lead the path's; then root + result is the path, and otherwise ValueError |
| Paths.NoSlash | lifeline/git.py:34 | a text without '/' has no '/' to find |
| Paths.ComponentsJoin | lifeline/git.py:34-37 | valid components joined with '/' parse back to themselves |
| Paths.ParseStr | lifeline/git.py:34-37 | `Path(str(p)) == p` for a well-formed path |
| Paths.JoinStartsWithFirst | lifeline/git.py:36 | a joined path starts with its first component's first character |
| Paths.JoinPrefix | lifeline/git.py:36 | joining `root + rest` is root's text, '/', then rest's text |
| Paths.UnderRootStartsWithRoot | lifeline/git.py:36 | a path under root, component-wise, starts with root's text |
| Repository.Entries | scripts/manage_events.py:67-68 | one entry per commit, holding its hash and author date, in branch order |
| Repository.EntriesAppend | lifeline/git.py:49-51 | a commit appended at the tip, by `index.commit` here or by `git commit` at scripts/manage_events.py:178, adds its entry at the end of the log and keeps the earlier entries, so commits read in the order they were made |
| Repository.IndexOf | scripts/manage_events.py:188 | the first commit with the hash, or none exactly when no commit has it |
| Repository.MoveTip | scripts/manage_events.py:188 | the tip is moved to index k, with the commits before k and from k on kept in order |
| Repository.CleanIff | lifeline/git.py:12 | not dirty and no untracked files, exactly when index = last commit and working tree = index |
| Repository.RebaseOntoParent | scripts/manage_events.py:188 | success means the hash exists, is not the root, and the tip moved in front of it; the root or a conflict fails |
| Repository.RebaseBefore | scripts/manage_events.py:181-188 | the intended rewrite succeeds exactly when the user completes it, and moves the tip to k |
| Repository.RootRebaseFails | scripts/manage_events.py:188 | for a non-empty branch, `rebase -i <root>^` fails even when completed, while the intended rewrite to the root succeeds |
| Repository.MoveTipIsPlace | scripts/manage_events.py:181-188 | moving the tip to its date's slot is Timeline.Place of its entry |
| Repository.MoveTipKeepsIds | scripts/manage_events.py:188 | reordering keeps hashes distinct |
| Repository.Repo.Init | tests/test_git.py:25 | a fresh repository has one branch, no commits and empty trees |
| Repository.Repo.WriteFile | scripts/manage_events.py:131 | writing changes one working-tree file and nothing else |
| Repository.Repo.IndexAdd | lifeline/git.py:40 | stages the file's working-tree content, and raises for a missing file, changing nothing else |
| Repository.Repo.IndexCommit | lifeline/git.py:49 | appends exactly one commit with the given message and dates at the tip; the last commit's tree becomes the index, and nothing else changes |
| Repository.Repo.CommitCommand | scripts/manage_events.py:178 | `git commit` appends one commit dated now, or fails when nothing is staged |
| Repository.Repo.CheckoutNewBranch | scripts/manage_events.py:59-61 | `checkout -b` adds the branch and switches to it, or fails if the branch exists |
| Repository.Repo.RebaseInteractive | scripts/manage_events.py:188 | refused, changing nothing, while a rebase is already paused or the tree is dirty; otherwise the branch becomes RebaseOntoParent's result, or stays put on failure, with a conflict leaving git mid-rebase |
| Utils.ValidateEventType | lifeline/utils.py:35-57 | returns its argument unchanged exactly when it is allowed (the defaults when no list is given), otherwise ValueError naming the allowed types |
| Utils.DefaultTypesAccepted | lifeline/utils.py:11 | with no list, exactly life, education, work, travel and health pass |
| Utils.GetEventFilename | lifeline/utils.py:60-77 | an invalid date raises first; otherwise the name starts with the date string and '_' and ends in ".md" |
| Events.NewEvent | lifeline/event.py:20-35 | succeeds exactly when the date is valid and the type is a default one (date error first); keeps the date string verbatim; the filename is get_event_filename's |
| Events.EventPath | lifeline/event.py:40 | `os.path.join(EVENTS_DIR, filename)`; EventPathIsUnderEvents gives its value |
| Events.MediaDir | lifeline/event.py:45 | `os.path.join(EVENTS_DIR, filename.replace('.md', ''))`; MediaDirDropsExtension gives its value |
| Events.EventPathIsUnderEvents | lifeline/event.py:37-40 | an event's path is "events/" + filename |
| Events.MediaDirDropsExtension | lifeline/event.py:42-45 | an event's media directory is "events/<date>_<slug>", when the slug has no '.' |
| Events.SplitFrontMatter | lifeline/event.py:63-65 | succeeds exactly when "---" occurs twice without overlap, with three parts joining back to the content; otherwise ValueError naming the file |
| Events.SplitCount | lifeline/event.py:63-64 | `split('---', 2)` gives three parts exactly when there are two markers |
| Events.OccursShift | lifeline/event.py:63 | an occurrence in a suffix is an occurrence in the whole text, shifted |
| LifelineGit.IsRepoClean | lifeline/git.py:1-12 | clean exactly when the index matches the last commit and the working tree matches the index |
| LifelineGit.DefaultRepoPath | lifeline/git.py:28-29 | `str(Path(file).parent.parent)`; DefaultRepoPathIsGrandparent states which path that is |
| LifelineGit.DefaultRepoPathIsGrandparent | lifeline/git.py:28-29 | the default repository is the path without its last two components |
| LifelineGit.SiblingDirectoryRaises | lifeline/git.py:33-37 | "/repo2/a.md" passes the string test against root "/repo", and then relative_to raises |
| LifelineGit.RelativiseAsWritten | lifeline/git.py:33-37 | the code as written: a string-prefix test guards `relative_to`, whose ValueError is the result when the root is a string prefix but not a directory prefix |
| LifelineGit.Relativise | lifeline/git.py:33-37 | as intended: the path relative to the root when the root's components lead the file's, the path as given otherwise |
| LifelineGit.RelativiseAgrees | lifeline/git.py:33-37 | the corrected relativisation agrees with the code wherever the code does not raise, and it gives back the file under the root |
| LifelineGit.AddEventMessage | lifeline/git.py:43 | "Add event: <title>" for a non-empty title, otherwise "Add event from <file name>" |
| LifelineGit.TitledMessage | tests/test_git.py:73 | the test's title gives "Add event: Test Event" |
| LifelineGit.CommitStamp | lifeline/git.py:46-51 | midnight of the event date when one is given, now otherwise; a date strptime rejects raises |
| LifelineGit.AddEventToGit | lifeline/git.py:14-51 | stages the relativised file when it exists and leaves the index as it was when it does not; on success appends exactly one commit with the chosen message and equal author and commit dates, earlier commits unchanged; otherwise appends nothing; the working tree, branches and paused-rebase flag are unchanged |
| ManageEvents.ScriptFilename | scripts/manage_events.py:118-119 | `f"{date_str}-{slug}.md"`; ScriptFilenameParts states its parts |
| ManageEvents.ScriptCommitMessage | scripts/manage_events.py:177-178 | the `-m` argument: `event: <title> (<date>)` wrapped in double quotes; MessageEndsWithDate states its shape |
| ManageEvents.EventFileText | scripts/manage_events.py:131-146 | the file text: front matter between two "---" lines, then the title heading and the description; ScriptFileReadable is its partner |
| ManageEvents.ScriptFilenameParts | scripts/manage_events.py:110-119 | the file name is the reformatted date, which parses back to the event date, then '-', a slug and ".md", with no '/' |
| ManageEvents.MessageEndsWithDate | scripts/manage_events.py:177-178 | the message starts `"event: ` and ends with the date in parentheses and the closing quote |
| ManageEvents.ScriptFileReadable | scripts/manage_events.py:131-146 | the file the script writes passes Event.from_file's front-matter guard |
| ManageEvents.RebaseTarget | scripts/manage_events.py:181-188 | a target exists only for an event before now with no branch; it is the first commit dated after the event, and none exactly when no commit is |
| ManageEvents.ScriptRewrite | scripts/manage_events.py:181-193 | the branch after the event commit and the rebase decision: unchanged without a target, otherwise what `rebase -i <target>^` gives; the lemmas below state when it succeeds and where the commit lands |
| ManageEvents.RewriteOnlyForPastEvents | scripts/manage_events.py:183 | for an event not in the past, or with a branch, the new commit just stays at the tip |
| ManageEvents.SearchAfterCommit | scripts/manage_events.py:184 | the search after the commit ends at the event's slot in the timeline as it was before the commit |
| ManageEvents.IndexOfOwnId | scripts/manage_events.py:188 | with distinct hashes, a commit's hash finds that commit |
| ManageEvents.ScriptRewriteAtSlot | scripts/manage_events.py:181-193 | the script's rebase succeeds exactly when completed and the slot is not 0, and then it moves the new commit to the slot |
| ManageEvents.RootInsertionFails | scripts/manage_events.py:184-193 | an event older than every commit, or the first event of a branch, makes the rebase fail |
| ManageEvents.WallClockBreaksOrder | scripts/manage_events.py:178-188 | a completed rebase leaves the timeline out of date order when a commit dated between the event and now follows the slot |
| ManageEvents.WallClockExample | scripts/manage_events.py:178-188 | commits dated 1 and 10, an event on day 5 created on day 100: the log reads 1, 100, 10 |
| ManageEvents.IntendedRewrite | scripts/manage_events.py:181-193 | the corrected rewrite: no rebase when the event already belongs at the tip, otherwise the event commit moved to its slot, from the root if need be |
| ManageEvents.IntendedRewriteSorted | scripts/manage_events.py:181-193 | the corrected rewrite succeeds exactly when the rebase completes or there is nothing to move (the slot is the tip), even at the root; the result is Timeline.Place of the event, keeps hashes distinct, and keeps a sorted timeline sorted |
| ManageEvents.IntendedLatestStays | scripts/manage_events.py:87-92 | an event dated no earlier than every commit needs no rebase: the corrected rewrite leaves the branch as the commit made it, whatever the rebase outcome |
| ManageEvents.PastEventRaises | scripts/manage_events.py:184-197 | as written, the search for any past event runs on a log holding at least the event commit and raises a TypeError, which neither ValueError nor GitError catches |
| ManageEvents.StageAndCommit | scripts/manage_events.py:131-178 | writes and stages the file, then commits it dated now, or fails when the staged tree equals the last commit's |
| ManageEvents.RebaseIfPast | scripts/manage_events.py:181-195 | no target leaves everything as it was and gives True; a paused rebase or a dirty tree gives False and changes nothing; otherwise the commits are what `rebase -i <target>^` gives, and the rebase is left paused exactly on a conflict at a non-root target |
| ManageEvents.CreateEvent | scripts/manage_events.py:101-199 | an invalid date or an existing branch name changes nothing and gives False; otherwise the file is written and staged, the head moves to the index exactly when the commit is made, and the commit and the rebase go as ScriptRewrite describes, with the paused-rebase flag as RebaseIfPast leaves it |

## Left out

- `ensure_git_config`, `run_git_command` (its subprocess plumbing and debug output), `get_current_branch`, `list_events`, `list_branches`, `main` and the click CLI: process plumbing and printing, with no effect on the timeline.
- Media files in `create_event` (the media directory, the copying, the media lines of the file): file-system work.
- `Event.save`, `Event.create_media_dir`, `to_markdown` (Jinja2), `ensure_events_dir`, and the YAML parse in `from_file`: file I/O and libraries. Only the `---` split guard is modelled.
- `get_repo`, `create_branch`, `checkout_branch` and `add_past_event` of `lifeline/git.py` are not part of this model; their bodies are not in the file.
- python-slugify's `slugify` and `datetime.fromisoformat` are function parameters. Neither library is part of this model.
- CommitLog.GetCommitDates: the `except GitError` of line 78 is unreachable, because line 69 passes `check=False`; the model has no such path.
- ManageEvents.CreateEvent: the search at line 184 compares moments like with like, as Timeline.FindInsertionPoint does. As written, line 89 raises TypeError there; see Findings (ManageEvents.PastEventRaises).
- ManageEvents.CreateEvent: the interactive editor of `git rebase -i` is not modelled. `Success` stands for the user moving the event commit in front of the insertion point; `Conflict` stands for any failure.
- Repository.Repo.RebaseInteractive: replayed commits keep their hashes; new hashes and committer dates are not modelled.
- Repository.Repo.CheckoutNewBranch: the new branch shares the commit list. Histories of other branches are not tracked.
- Dates.Strptime: only ASCII digits are accepted, and the ValueError messages are approximated. The real `strptime` also matches other Unicode digits.
- Slug.Lower: lowers ASCII only. Python's `str.lower` covers all of Unicode.
- Paths.Parse: the special case of a leading `//` is not modelled, and `..` is not resolved (as in `pathlib`).
- ManageEvents.CreateEvent: follows the script as written, so it uses ScriptRewrite. The corrected rewrite, IntendedRewrite, is proved to keep the timeline in order but is not wired into the method.
- LifelineGit.AddEventToGit: uses the corrected relativisation `Relativise`. The code as written is `RelativiseAsWritten`; see Findings.
- Dates.Midnight: an order-preserving day number, not seconds since an epoch. Only comparisons of moments matter here.

## Findings

| source | as written | input that shows it | evidently intended | confidence | as-written member | corrected member |
|---|---|---|---|---|---|---|
| scripts/manage_events.py:89 | the offset-aware dates `fromisoformat` reads from `%aI` (line 76) are compared with the naive date `strptime` gives (line 110); Python raises TypeError for that comparison, and the `except` at line 197 catches only ValueError and GitError | any event dated before now, created without a branch: the log holds at least the event commit just made, so the first comparison raises | compare like with like (both naive, or both aware), so the search returns the first later commit (Timeline.LikeWithLikeAgrees ties the two) | not executed | ManageEvents.PastEventRaises | Timeline.FindInsertionPoint |
| scripts/manage_events.py:178-188 | once line 89 compares like with like (first row): the event commit is dated now, and the rebase only moves it | commits dated 1 and 10, event dated 5 created at 100: the log reads 1, 100, 10 | the commit carries the event date (as `lifeline/git.py:46-49` does), so the moved commit keeps the timeline in date order | not executed | ManageEvents.WallClockBreaksOrder | ManageEvents.IntendedRewriteSorted |
| scripts/manage_events.py:184-188 | once line 89 compares like with like (first row): `git rebase -i <point>^` needs a parent of the insertion point | a past event older than every commit, or the first event in a fresh repository: the point is the root commit | rebase from the root (`--root`) when the insertion point is the first commit | not executed | ManageEvents.RootInsertionFails | ManageEvents.IntendedRewriteSorted |
| lifeline/git.py:36-37 | a string-prefix test guards `relative_to` | file "/repo2/a.md" in a repository at "/repo": relative_to raises ValueError | relativise only paths inside the root directory, component-wise | not executed | LifelineGit.SiblingDirectoryRaises | LifelineGit.RelativiseAgrees |
