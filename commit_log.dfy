/** get_commit_dates (scripts/manage_events.py:64-79): the output of
    `git log --format=%H %aI --reverse`, one commit per line, oldest first,
    read into the timeline. */
module CommitLog {
  import opened Wrappers
  import opened Text
  import opened Dates
  import opened Timeline

  /** datetime.fromisoformat: the moment an ISO 8601 timestamp denotes, or
      None where it raises. The library parser is not part of this model. */
  type DateParser = string -> Option<Moment>

  const UnpackMessage := "not enough values to unpack (expected 2, got 1)"

  function IsoFormatMessage(s: string): string {
    "Invalid isoformat string: '" + s + "'"
  }

  /** One non-empty log line: `line.split(' ', 1)` unpacked into the hash and
      the date text, the date text stripped and parsed. A line without a space
      fails to unpack. */
  function ParseLine(line: string, parseDate: DateParser): (r: Result<Entry, Failure>)
    ensures r.Ok? ==> var n := |r.value.id|;
      ' ' !in r.value.id && n < |line| && line[..n] == r.value.id && line[n] == ' ' &&
      parseDate(Strip(line[n + 1..])) == Some(r.value.date)
    ensures ' ' !in line ==> r == Err(ValueError(UnpackMessage))
  {
    SplitOnce(line, " ");
    FindChar(line, ' ');
    var parts := SplitAtMost(line, " ", 1);
    if |parts| != 2 then Err(ValueError(UnpackMessage))
    else
      var dateText := Strip(parts[1]);
      match parseDate(dateText)
      case None => Err(ValueError(IsoFormatMessage(dateText)))
      case Some(m) => Ok(Entry(parts[0], m))
  }

  /** The non-empty lines, in order: the ones the loop looks at. */
  function Filled(lines: seq<string>): (r: seq<string>)
    ensures |r| <= |lines|
    ensures forall k :: 0 <= k < |r| ==> r[k] != ""
  {
    if |lines| == 0 then []
    else if lines[0] == "" then Filled(lines[1..])
    else [lines[0]] + Filled(lines[1..])
  }

  /** Every non-empty line read in order with `read`, the first failure
      propagated. */
  function ReadLines(lines: seq<string>, read: string -> Result<Entry, Failure>): Result<seq<Entry>, Failure>
  {
    if |lines| == 0 then Ok([])
    else if lines[0] == "" then ReadLines(lines[1..], read)
    else match read(lines[0])
      case Err(e) => Err(e)
      case Ok(c) =>
        match ReadLines(lines[1..], read)
        case Err(e) => Err(e)
        case Ok(cs) => Ok([c] + cs)
  }

  /** The specification of the loop: every non-empty line parsed in order, the
      first failure propagated. */
  function ParseLog(lines: seq<string>, parseDate: DateParser): Result<seq<Entry>, Failure>
  {
    ReadLines(lines, l => ParseLine(l, parseDate))
  }

  /** One commit per non-empty line, in log order: the log reads as a whole
      exactly when every non-empty line does, and then entry k is what line k
      of the non-empty lines reads as. */
  lemma {:induction false} ParseLogLines(lines: seq<string>, parseDate: DateParser)
    ensures var r := ParseLog(lines, parseDate);
      r.Ok? <==> forall k :: 0 <= k < |Filled(lines)| ==> ParseLine(Filled(lines)[k], parseDate).Ok?
    ensures var r := ParseLog(lines, parseDate);
      r.Ok? ==> (|r.value| == |Filled(lines)| &&
                 forall k :: 0 <= k < |r.value| ==> ParseLine(Filled(lines)[k], parseDate) == Ok(r.value[k]))
  {
    ReadLinesByLine(lines, l => ParseLine(l, parseDate));
  }

  /** ReadLines, line by line: Ok exactly when every non-empty line reads,
      and then entry k is what non-empty line k reads as. */
  ghost predicate LineByLine(lines: seq<string>, read: string -> Result<Entry, Failure>) {
    var r := ReadLines(lines, read);
    (r.Ok? <==> forall k :: 0 <= k < |Filled(lines)| ==> read(Filled(lines)[k]).Ok?) &&
    (r.Ok? ==> (|r.value| == |Filled(lines)| &&
                forall k :: 0 <= k < |r.value| ==> read(Filled(lines)[k]) == Ok(r.value[k])))
  }

  lemma {:induction false} ReadLinesByLine(lines: seq<string>, read: string -> Result<Entry, Failure>)
    ensures LineByLine(lines, read)
  {
    if |lines| > 0 {
      ReadLinesByLine(lines[1..], read);
      if lines[0] == "" {
        assert Filled(lines) == Filled(lines[1..]);
      } else {
        assert Filled(lines) == [lines[0]] + Filled(lines[1..]);
        ConsLines(lines[0], Filled(lines[1..]), ReadLines(lines[1..], read), read);
      }
    }
  }

  /** The step of ReadLinesByLine for a non-empty first line, stated without
      ReadLines so that its proof stays small. */
  lemma ConsLines(first: string, rest: seq<string>, tail: Result<seq<Entry>, Failure>, read: string -> Result<Entry, Failure>)
    requires tail.Ok? <==> forall k :: 0 <= k < |rest| ==> read(rest[k]).Ok?
    requires tail.Ok? ==> (|tail.value| == |rest| &&
                           forall k :: 0 <= k < |rest| ==> read(rest[k]) == Ok(tail.value[k]))
    ensures var f := [first] + rest;
      var r := match read(first) case Err(e) => Err(e) case Ok(c) => Prepend([c], tail);
      (r.Ok? <==> forall k :: 0 <= k < |f| ==> read(f[k]).Ok?) &&
      (r.Ok? ==> (|r.value| == |f| && forall k :: 0 <= k < |f| ==> read(f[k]) == Ok(r.value[k])))
  {
    var f := [first] + rest;
    assert f[0] == first;
    assert forall k :: 0 < k < |f| ==> f[k] == rest[k - 1];
    if read(first).Ok? {
      if tail.Ok? {
        var r := [read(first).value] + tail.value;
        assert forall k :: 0 < k < |r| ==> r[k] == tail.value[k - 1];
      } else {
        var k :| 0 <= k < |rest| && !read(rest[k]).Ok?;
        assert f[k + 1] == rest[k];
      }
    }
  }

  lemma PrependNothing(rest: Result<seq<Entry>, Failure>)
    ensures Prepend([], rest) == rest
  {
    if rest.Ok? {
      assert [] + rest.value == rest.value;
    }
  }

  /** Prefix the entries already collected to the outcome of the rest. */
  function Prepend(done: seq<Entry>, rest: Result<seq<Entry>, Failure>): Result<seq<Entry>, Failure> {
    match rest
    case Ok(cs) => Ok(done + cs)
    case Err(e) => Err(e)
  }

  /** get_commit_dates: the stripped standard output of `git log` split into
      lines, empty lines skipped, the others appended in order. A failing
      `git log` (a repository without commits) prints nothing and gives the
      empty list. */
  method GetCommitDates(output: string, parseDate: DateParser) returns (r: Result<seq<Entry>, Failure>)
    ensures r == ParseLog(SplitLines(output), parseDate)
    ensures output == "" ==> r == Ok([])
  {
    r := CollectEntries(SplitLines(output), parseDate);
  }

  /** The loop of get_commit_dates over the lines of the log. */
  method CollectEntries(lines: seq<string>, parseDate: DateParser) returns (r: Result<seq<Entry>, Failure>)
    ensures r == ParseLog(lines, parseDate)
  {
    var commits: seq<Entry> := [];
    var i := 0;
    assert lines[i..] == lines;
    PrependNothing(ParseLog(lines, parseDate));
    while i < |lines|
      invariant 0 <= i <= |lines|
      invariant ParseLog(lines, parseDate) == Prepend(commits, ParseLog(lines[i..], parseDate))
    {
      ParseLogStep(lines, i, parseDate);
      var line := lines[i];
      if line != "" {
        var parsed := ParseLine(line, parseDate);
        if parsed.Err? {
          return Err(parsed.error);
        }
        PrependTwice(commits, parsed.value, ParseLog(lines[i + 1..], parseDate));
        commits := commits + [parsed.value];
      }
      i := i + 1;
    }
    assert lines[i..] == [];
    assert commits + [] == commits;
    return Ok(commits);
  }

  lemma ParseLogStep(lines: seq<string>, i: nat, parseDate: DateParser)
    requires i < |lines|
    ensures ParseLog(lines[i..], parseDate) ==
      if lines[i] == "" then ParseLog(lines[i + 1..], parseDate)
      else match ParseLine(lines[i], parseDate)
        case Err(e) => Err(e)
        case Ok(c) => Prepend([c], ParseLog(lines[i + 1..], parseDate))
  {
    assert lines[i..][0] == lines[i] && lines[i..][1..] == lines[i + 1..];
  }

  lemma PrependTwice(done: seq<Entry>, c: Entry, rest: Result<seq<Entry>, Failure>)
    ensures Prepend(done, Prepend([c], rest)) == Prepend(done + [c], rest)
  {
    if rest.Ok? {
      assert done + ([c] + rest.value) == (done + [c]) + rest.value;
    }
  }

  /** The log line git prints for one commit, given how it formats dates. */
  function RenderLine(e: Entry, formatDate: Moment -> string): string {
    e.id + " " + formatDate(e.date)
  }

  function RenderLog(es: seq<Entry>, formatDate: Moment -> string): seq<string> {
    if |es| == 0 then [] else [RenderLine(es[0], formatDate)] + RenderLog(es[1..], formatDate)
  }

  /** Hashes have no spaces or line breaks and formatted dates no line breaks. */
  predicate WellFormedLog(es: seq<Entry>, formatDate: Moment -> string) {
    forall k :: 0 <= k < |es| ==>
      |es[k].id| > 0 && ' ' !in es[k].id &&
      (forall j :: 0 <= j < |es[k].id| ==> !IsLineBreak(es[k].id[j])) &&
      (forall j :: 0 <= j < |formatDate(es[k].date)| ==> !IsLineBreak(formatDate(es[k].date)[j]))
  }

  /** A log line reads back as the commit it was printed for. */
  lemma ParseRenderedLine(e: Entry, formatDate: Moment -> string, parseDate: DateParser)
    requires ' ' !in e.id
    requires parseDate(Strip(formatDate(e.date))) == Some(e.date)
    ensures ParseLine(RenderLine(e, formatDate), parseDate) == Ok(e)
  {
    var line := RenderLine(e, formatDate);
    FindAfter(e.id, ' ', formatDate(e.date));
    SplitOnce(line, " ");
    assert line[..|e.id|] == e.id;
    assert line[|e.id| + 1..] == formatDate(e.date);
    assert SplitAtMost(line, " ", 1) == [e.id, formatDate(e.date)];
  }

  /** Reading the printed log gives back the commits, in order, whenever the
      date parser inverts the date format. */
  lemma {:induction false} ParseRenderedLog(es: seq<Entry>, formatDate: Moment -> string, parseDate: DateParser)
    requires WellFormedLog(es, formatDate)
    requires forall k :: 0 <= k < |es| ==> parseDate(Strip(formatDate(es[k].date))) == Some(es[k].date)
    ensures ParseLog(SplitLines(Join(RenderLog(es, formatDate), "\n")), parseDate) == Ok(es)
  {
    var lines := RenderLog(es, formatDate);
    RenderedLinesClean(es, formatDate);
    SplitLinesJoin(lines);
    ParseRenderedLines(es, formatDate, parseDate);
  }

  lemma {:induction false} RenderedLinesClean(es: seq<Entry>, formatDate: Moment -> string)
    requires WellFormedLog(es, formatDate)
    ensures var lines := RenderLog(es, formatDate);
      |lines| == |es| &&
      (forall k :: 0 <= k < |lines| ==> |lines[k]| > 0) &&
      (forall k, j :: 0 <= k < |lines| && 0 <= j < |lines[k]| ==> !IsLineBreak(lines[k][j]))
  {
    if |es| > 0 {
      RenderedLinesClean(es[1..], formatDate);
      var e := es[0];
      var line := RenderLine(e, formatDate);
      forall j | 0 <= j < |line| ensures !IsLineBreak(line[j]) {
        if j < |e.id| {
          assert line[j] == e.id[j];
        } else if j > |e.id| {
          assert line[j] == formatDate(e.date)[j - |e.id| - 1];
        }
      }
    }
  }

  lemma {:induction false} ParseRenderedLines(es: seq<Entry>, formatDate: Moment -> string, parseDate: DateParser)
    requires forall k :: 0 <= k < |es| ==> |es[k].id| > 0 && ' ' !in es[k].id
    requires forall k :: 0 <= k < |es| ==> parseDate(Strip(formatDate(es[k].date))) == Some(es[k].date)
    ensures ParseLog(RenderLog(es, formatDate), parseDate) == Ok(es)
  {
    if |es| > 0 {
      ParseRenderedLines(es[1..], formatDate, parseDate);
      ParseRenderedCons(es[0], es[1..], formatDate, parseDate);
      assert [es[0]] + es[1..] == es;
    }
  }

  /** The step of ParseRenderedLines: one more commit in front. */
  lemma ParseRenderedCons(e: Entry, rest: seq<Entry>, formatDate: Moment -> string, parseDate: DateParser)
    requires |e.id| > 0 && ' ' !in e.id
    requires parseDate(Strip(formatDate(e.date))) == Some(e.date)
    requires ParseLog(RenderLog(rest, formatDate), parseDate) == Ok(rest)
    ensures ParseLog(RenderLog([e] + rest, formatDate), parseDate) == Ok([e] + rest)
  {
    assert ([e] + rest)[1..] == rest;
    ParseRenderedLine(e, formatDate, parseDate);
    ParseLogCons(RenderLine(e, formatDate), RenderLog(rest, formatDate), parseDate);
  }

  /** ParseLog on a non-empty first line followed by the rest. */
  lemma ParseLogCons(first: string, rest: seq<string>, parseDate: DateParser)
    requires first != ""
    ensures ParseLine(first, parseDate).Err? ==>
      ParseLog([first] + rest, parseDate) == Err(ParseLine(first, parseDate).error)
    ensures ParseLine(first, parseDate).Ok? ==>
      ParseLog([first] + rest, parseDate) == Prepend([ParseLine(first, parseDate).value], ParseLog(rest, parseDate))
  {
    assert ([first] + rest)[1..] == rest;
  }
}
