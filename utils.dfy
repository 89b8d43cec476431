/** lifeline/utils.py: the events directory, the default event types, and
    the validation and file-name helpers of the lifeline package. */
module Utils {
  import opened Wrappers
  import opened Text
  import opened Dates

  const EVENTS_DIR := "events"

  const DEFAULT_EVENT_TYPES: seq<string> := ["life", "education", "work", "travel", "health"]

  /** python-slugify's slugify(); the library is not part of this model. */
  type Slugifier = string -> string

  function InvalidTypeMessage(eventType: string, allowed: seq<string>): string {
    "Invalid event type: " + eventType + ". Allowed types: " + Join(allowed, ", ")
  }

  /** The list validate_event_type checks against: the given one, or the
      defaults when none is given (an empty list stays empty). */
  function AllowedTypes(allowedTypes: Option<seq<string>>): seq<string> {
    match allowedTypes
    case None => DEFAULT_EVENT_TYPES
    case Some(types) => types
  }

  /** validate_event_type: the type itself when allowed, ValueError naming the
      allowed types otherwise. */
  function ValidateEventType(eventType: string, allowedTypes: Option<seq<string>>): (r: Result<string, Failure>)
    ensures r.Ok? <==> eventType in AllowedTypes(allowedTypes)
    ensures r.Ok? ==> r.value == eventType
    ensures r.Err? ==> r.error == ValueError(InvalidTypeMessage(eventType, AllowedTypes(allowedTypes)))
  {
    var allowed := AllowedTypes(allowedTypes);
    if eventType !in allowed then Err(ValueError(InvalidTypeMessage(eventType, allowed)))
    else Ok(eventType)
  }

  /** Without a list, exactly the five default types pass. */
  lemma DefaultTypesAccepted(eventType: string)
    ensures ValidateEventType(eventType, None).Ok? <==>
      eventType in {"life", "education", "work", "travel", "health"}
  {
  }

  /** get_event_filename: the date is validated first, then
      "<date>_<slug>.md" is built from the date string as given: the name
      starts with the date string and '_' and ends in ".md". */
  function GetEventFilename(dateStr: string, title: string, slugify: Slugifier): (r: Result<string, Failure>)
    ensures r.Ok? <==> ValidateDate(dateStr).Ok?
    ensures r.Err? ==> r.error == ValueError(InvalidDateMessage(dateStr))
    ensures r.Ok? ==> var n := |dateStr|;
      |r.value| >= n + 4 && r.value[..n] == dateStr && r.value[n] == '_' && r.value[|r.value| - 3..] == ".md"
  {
    match ValidateDate(dateStr)
    case Err(e) => Err(e)
    case Ok(_) => Ok(dateStr + "_" + slugify(title) + ".md")
  }
}
