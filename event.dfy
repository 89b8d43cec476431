/** lifeline/event.py: an Event record, the fields its constructor derives,
    its path and media directory, and the front-matter split of from_file. */
module Events {
  import opened Wrappers
  import opened Text
  import opened Dates
  import opened Utils

  datatype Event = Event(
    title: string,
    date: CalendarDate,
    dateStr: string,
    eventType: string,
    description: string,
    filename: string)

  /** Event(title, date, event_type, description): the date is validated
      first, then the type against the default types, then the file name is
      derived; the date string is kept as given. */
  function NewEvent(title: string, date: string, eventType: string, description: string, slugify: Slugifier)
    : (r: Result<Event, Failure>)
    ensures r.Ok? <==> ValidateDate(date).Ok? && eventType in DEFAULT_EVENT_TYPES
    ensures ValidateDate(date).Err? ==> r == Err(ValueError(InvalidDateMessage(date)))
    ensures ValidateDate(date).Ok? && eventType !in DEFAULT_EVENT_TYPES ==>
      r == Err(ValueError(InvalidTypeMessage(eventType, DEFAULT_EVENT_TYPES)))
    ensures r.Ok? ==> (r.value.title == title && r.value.dateStr == date && r.value.eventType == eventType &&
                       r.value.description == description && r.value.date == ValidateDate(date).value &&
                       Ok(r.value.filename) == GetEventFilename(date, title, slugify))
  {
    match ValidateDate(date)
    case Err(e) => Err(e)
    case Ok(d) =>
      match ValidateEventType(eventType, None)
      case Err(e) => Err(e)
      case Ok(t) =>
        match GetEventFilename(date, title, slugify)
        case Err(e) => Err(e)
        case Ok(name) => Ok(Event(title, d, date, t, description, name))
  }

  /** The path property: os.path.join(EVENTS_DIR, filename). */
  function EventPath(e: Event): string {
    OsPathJoin(EVENTS_DIR, e.filename)
  }

  /** The media_dir property: os.path.join(EVENTS_DIR, filename with every
      ".md" removed). */
  function MediaDir(e: Event): string {
    OsPathJoin(EVENTS_DIR, ReplaceAll(e.filename, ".md", ""))
  }

  /** A constructed event lives at "events/<filename>". */
  lemma EventPathIsUnderEvents(title: string, date: string, eventType: string, description: string, slugify: Slugifier)
    requires NewEvent(title, date, eventType, description, slugify).Ok?
    ensures var e := NewEvent(title, date, eventType, description, slugify).value;
      EventPath(e) == "events/" + e.filename
  {
    var e := NewEvent(title, date, eventType, description, slugify).value;
    assert e.filename[0] == date[0];
  }

  /** A constructed event's media directory is "events/<date>_<slug>", its
      file name without the extension, provided the slug has no '.'. */
  lemma MediaDirDropsExtension(title: string, date: string, eventType: string, description: string, slugify: Slugifier)
    requires NewEvent(title, date, eventType, description, slugify).Ok?
    requires '.' !in slugify(title)
    ensures var e := NewEvent(title, date, eventType, description, slugify).value;
      MediaDir(e) == "events/" + date + "_" + slugify(title)
  {
    var e := NewEvent(title, date, eventType, description, slugify).value;
    var stem := date + "_" + slugify(title);
    assert e.filename == stem + ".md";
    StemHasNoDot(date, slugify(title));
    assert stem[0] == date[0];
    MediaDirOfStem(e, stem);
  }

  /** An event file named "<stem>.md", the stem free of '.' and not absolute,
      has its media directory at "events/<stem>". */
  lemma MediaDirOfStem(e: Event, stem: string)
    requires e.filename == stem + ".md" && |stem| > 0 && stem[0] != '/'
    requires forall j :: 0 <= j < |stem| ==> stem[j] != '.'
    ensures MediaDir(e) == "events/" + stem
  {
    RemoveTrailing(stem, ".md");
  }

  /** "<date>_<slug>" has no '.' when the slug has none. */
  lemma StemHasNoDot(date: string, slug: string)
    requires ValidateDate(date).Ok? && '.' !in slug
    ensures forall j :: 0 <= j < |date + "_" + slug| ==> (date + "_" + slug)[j] != '.'
  {
    var stem := date + "_" + slug;
    DateChars(date);
    forall j | 0 <= j < |stem| ensures stem[j] != '.' {
      if j < |date| {
        assert stem[j] == date[j];
      } else if j > |date| {
        assert stem[j] == slug[j - |date| - 1];
      }
    }
  }

  /** "---" occurs twice without overlap. */
  ghost predicate TwoMarkers(content: string) {
    exists i, j :: OccursAt(content, "---", i) && OccursAt(content, "---", j) && i + 3 <= j
  }

  /** The guard of from_file: `content.split('---', 2)` must give three parts,
      otherwise ValueError naming the file. The parts, joined again with
      "---", are the whole content. */
  function SplitFrontMatter(content: string, filePath: string): (r: Result<seq<string>, Failure>)
    ensures r.Ok? <==> TwoMarkers(content)
    ensures r.Err? ==> r.error == ValueError("Invalid event file format: " + filePath)
    ensures r.Ok? ==> |r.value| == 3 && Join(r.value, "---") == content
  {
    SplitCount(content);
    JoinSplit(content, "---", 2);
    var parts := SplitAtMost(content, "---", 2);
    if |parts| < 3 then Err(ValueError("Invalid event file format: " + filePath))
    else Ok(parts)
  }

  lemma OccursShift(s: string, a: nat, x: int)
    requires a <= |s|
    ensures OccursAt(s[a..], "---", x) <==> x >= 0 && OccursAt(s, "---", a + x)
  {
    if x >= 0 && a + x + 3 <= |s| {
      assert s[a..][x..x + 3] == s[a + x..a + x + 3];
    }
  }

  /** split('---', 2) gives three parts exactly when there are two markers. */
  lemma SplitCount(content: string)
    ensures |SplitAtMost(content, "---", 2)| == 3 <==> TwoMarkers(content)
  {
    SplitThree(content);
    TwoMarkersFound(content);
  }

  /** Three parts exactly when "---" is found, and found again after it. */
  lemma SplitThree(content: string)
    ensures |SplitAtMost(content, "---", 2)| == 3 <==>
      Find(content, "---").Some? && Find(AfterCut(content, "---"), "---").Some?
  {
    if Find(content, "---").Some? {
      SplitUnfold(content, "---", 2);
      SplitOnce(AfterCut(content, "---"), "---");
    } else {
      SplitNoCut(content, "---", 2);
    }
  }

  /** Two markers exactly when "---" is found, and found again after it. */
  lemma TwoMarkersFound(content: string)
    ensures TwoMarkers(content) <==>
      Find(content, "---").Some? && Find(AfterCut(content, "---"), "---").Some?
  {
    var f := Find(content, "---");
    if f.Some? {
      var a := f.value + 3;
      var g := Find(content[a..], "---");
      if g.Some? {
        OccursShift(content, a, g.value);
        assert OccursAt(content, "---", a + g.value);
      } else if TwoMarkers(content) {
        var i, j :| OccursAt(content, "---", i) && OccursAt(content, "---", j) && i + 3 <= j;
        OccursShift(content, a, j - a);
        assert false;
      }
    }
  }
}
