/** The chronological commit timeline: commits oldest first, each with its
    author date, and the search for the commit a past event belongs before
    (scripts/manage_events.py:81-92). */
module Timeline {
  import opened Wrappers
  import opened Dates

  /** A full commit hash. */
  type CommitId = string

  /** One commit of the timeline: its hash and its author date. */
  datatype Entry = Entry(id: CommitId, date: Moment)

  /** Every commit is dated no later than the commits after it. */
  predicate Sorted(s: seq<Entry>) {
    forall i, j :: 0 <= i < j < |s| ==> s[i].date <= s[j].date
  }

  /** Index of the first commit, oldest first, dated strictly after target. */
  function FirstLater(s: seq<Entry>, target: Moment): (r: Option<nat>)
    ensures r.Some? ==> r.value < |s| && s[r.value].date > target
    ensures r.Some? ==> forall j :: 0 <= j < r.value ==> s[j].date <= target
    ensures r.None? <==> forall j :: 0 <= j < |s| ==> s[j].date <= target
  {
    if |s| == 0 then None
    else if s[0].date > target then Some(0)
    else match FirstLater(s[1..], target)
      case None => None
      case Some(k) => Some(k + 1)
  }

  /** find_insertion_point over the commits get_commit_dates listed: the hash
      of the first commit dated strictly after target, or None. */
  method FindInsertionPoint(commits: seq<Entry>, target: Moment) returns (point: Option<CommitId>)
    ensures point.None? <==> forall j :: 0 <= j < |commits| ==> commits[j].date <= target
    ensures point.Some? ==> (exists k :: 0 <= k < |commits| && commits[k].id == point.value &&
                               commits[k].date > target && forall j :: 0 <= j < k ==> commits[j].date <= target)
    ensures point == (match FirstLater(commits, target)
                      case None => None
                      case Some(k) => Some(commits[k].id))
  {
    if |commits| == 0 {
      return None;
    }
    var i := 0;
    while i < |commits|
      invariant 0 <= i <= |commits|
      invariant forall j :: 0 <= j < i ==> commits[j].date <= target
    {
      if commits[i].date > target {
        return Some(commits[i].id);
      }
      i := i + 1;
    }
    return None;
  }

  /** A datetime as Python holds it: a moment, and whether it carries a UTC
      offset. `fromisoformat` of a `%aI` date gives an offset-aware one,
      `strptime(s, '%Y-%m-%d')` a naive one. */
  datatype Stamp = Stamp(moment: Moment, aware: bool)

  /** `a > b` on datetimes: an offset-aware and a naive operand raise TypeError. */
  function Later(a: Stamp, b: Stamp): (r: Result<bool, Failure>)
    ensures r.Ok? <==> a.aware == b.aware
    ensures r.Ok? ==> (r.value <==> a.moment > b.moment)
    ensures r.Err? ==> r.error.TypeError?
  {
    if a.aware != b.aware then Err(TypeError("can't compare offset-naive and offset-aware datetimes"))
    else Ok(a.moment > b.moment)
  }

  /** find_insertion_point with the comparison of line 89 as Python makes
      it: every log date has the awareness logAware, the target its own. */
  function SearchAsWritten(commits: seq<Entry>, logAware: bool, target: Stamp): Result<Option<CommitId>, Failure> {
    if |commits| == 0 then Ok(None)
    else match Later(Stamp(commits[0].date, logAware), target)
      case Err(e) => Err(e)
      case Ok(later) =>
        if later then Ok(Some(commits[0].id)) else SearchAsWritten(commits[1..], logAware, target)
  }

  /** The log's offset-aware dates against a naive target: the first
      comparison raises, so any non-empty log raises TypeError. */
  lemma NaiveTargetRaises(commits: seq<Entry>, target: Stamp)
    requires |commits| > 0 && !target.aware
    ensures SearchAsWritten(commits, true, target).Err?
    ensures SearchAsWritten(commits, true, target).error.TypeError?
  {
  }

  /** Compared like with like, the search is FirstLater's: the hash of the
      first commit dated strictly after the target, or None. */
  lemma {:induction false} LikeWithLikeAgrees(commits: seq<Entry>, aware: bool, target: Moment)
    ensures SearchAsWritten(commits, aware, Stamp(target, aware)) ==
      Ok(match FirstLater(commits, target) case None => None case Some(k) => Some(commits[k].id))
    decreases |commits|
  {
    if |commits| > 0 && commits[0].date <= target {
      LikeWithLikeAgrees(commits[1..], aware, target);
    }
  }

  /** s with x inserted so that it sits at index k. */
  function InsertAt<T>(s: seq<T>, x: T, k: nat): (r: seq<T>)
    requires k <= |s|
    ensures |r| == |s| + 1 && r[k] == x
    ensures forall j :: 0 <= j < k ==> r[j] == s[j]
    ensures forall j :: k < j < |r| ==> r[j] == s[j - 1]
  {
    s[..k] + [x] + s[k..]
  }

  /** Where a commit dated target belongs: before the first later commit,
      after everything else. */
  function Slot(s: seq<Entry>, target: Moment): (k: nat)
    ensures k <= |s|
    ensures forall j :: 0 <= j < k ==> s[j].date <= target
    ensures k < |s| ==> s[k].date > target
  {
    match FirstLater(s, target)
    case None => |s|
    case Some(k) => k
  }

  /** The intended rewrite: the event's commit, dated at the event, moved to
      just before the insertion point (appended when there is none); every
      other commit keeps its relative order. */
  function Place(s: seq<Entry>, e: Entry): seq<Entry> {
    InsertAt(s, e, Slot(s, e.date))
  }

  /** On a sorted timeline every commit from the slot on is later than target. */
  lemma SlotSplitsSorted(s: seq<Entry>, target: Moment)
    requires Sorted(s)
    ensures forall j :: Slot(s, target) <= j < |s| ==> s[j].date > target
  {
    var k := Slot(s, target);
    forall j | k <= j < |s| ensures s[j].date > target {
      assert s[k].date <= s[j].date;
    }
  }

  /** Placing an event keeps a sorted timeline sorted. */
  lemma PlaceSorted(s: seq<Entry>, e: Entry)
    requires Sorted(s)
    ensures Sorted(Place(s, e))
  {
    var k := Slot(s, e.date);
    var r := Place(s, e);
    SlotSplitsSorted(s, e.date);
    forall i, j | 0 <= i < j < |r| ensures r[i].date <= r[j].date {
      if j < k {
        assert r[i] == s[i] && r[j] == s[j];
      } else if j == k {
        assert r[i] == s[i];
      } else if i < k {
        assert r[i] == s[i] && r[j] == s[j - 1];
      } else if i == k {
        assert r[j] == s[j - 1];
      } else {
        assert r[i] == s[i - 1] && r[j] == s[j - 1];
      }
    }
  }

  /** The tie-break: everything before the placed event is dated no later than
      it (so same-day commits stay in front of it), and on a sorted timeline
      everything after it is strictly later. */
  lemma PlaceTieBreak(s: seq<Entry>, e: Entry)
    ensures var k := Slot(s, e.date); var r := Place(s, e);
      r[k] == e && forall j :: 0 <= j < k ==> r[j].date <= e.date
    ensures Sorted(s) ==> var k := Slot(s, e.date); var r := Place(s, e);
      forall j :: k < j < |r| ==> r[j].date > e.date
  {
    if Sorted(s) {
      SlotSplitsSorted(s, e.date);
    }
  }

  /** Nothing is lost or duplicated: taking the placed event out again gives
      back the timeline, and the multiset of commits grows by exactly it. */
  lemma PlaceKeepsOthers(s: seq<Entry>, e: Entry)
    ensures var k := Slot(s, e.date); var r := Place(s, e);
      |r| == |s| + 1 && r[..k] + r[k + 1..] == s
    ensures multiset(Place(s, e)) == multiset(s) + multiset{e}
  {
    var k := Slot(s, e.date);
    var r := Place(s, e);
    assert r == s[..k] + [e] + s[k..];
    assert r[..k] == s[..k];
    assert r[k + 1..] == s[k..];
    assert s == s[..k] + s[k..];
    calc {
      multiset(r);
      multiset(s[..k]) + multiset{e} + multiset(s[k..]);
      { assert multiset(s) == multiset(s[..k]) + multiset(s[k..]); }
      multiset(s) + multiset{e};
    }
  }

  /** An event dated no earlier than every commit is appended at the tip:
      no rewrite is needed and the timeline grows by one. */
  lemma PlaceLatest(s: seq<Entry>, e: Entry)
    requires forall j :: 0 <= j < |s| ==> s[j].date <= e.date
    ensures Place(s, e) == s + [e]
  {
    assert FirstLater(s, e.date).None?;
    assert s[..|s|] == s && s[|s|..] == [];
  }

  /** The events placed one after another, in the order they were added. */
  function PlaceAll(s: seq<Entry>, es: seq<Entry>): seq<Entry>
    decreases |es|
  {
    if |es| == 0 then s else PlaceAll(Place(s, es[0]), es[1..])
  }

  /** Events added in any date order leave a sorted timeline sorted; in
      particular, starting from an empty history. */
  lemma {:induction false} PlaceAllSorted(s: seq<Entry>, es: seq<Entry>)
    requires Sorted(s)
    ensures Sorted(PlaceAll(s, es))
    decreases |es|
  {
    if |es| > 0 {
      PlaceSorted(s, es[0]);
      PlaceAllSorted(Place(s, es[0]), es[1..]);
    }
  }

  /** Every commit and every added event is in the result exactly as often as before. */
  lemma {:induction false} PlaceAllPermutation(s: seq<Entry>, es: seq<Entry>)
    ensures multiset(PlaceAll(s, es)) == multiset(s) + multiset(es)
    decreases |es|
  {
    if |es| > 0 {
      PlaceKeepsOthers(s, es[0]);
      PlaceAllPermutation(Place(s, es[0]), es[1..]);
      MultisetCons(es);
    }
  }

  lemma MultisetCons(es: seq<Entry>)
    requires |es| > 0
    ensures multiset(es) == multiset{es[0]} + multiset(es[1..])
  {
    assert es == [es[0]] + es[1..];
  }

  lemma {:induction false} PlaceAllAppend(s: seq<Entry>, xs: seq<Entry>, ys: seq<Entry>)
    ensures PlaceAll(s, xs + ys) == PlaceAll(PlaceAll(s, xs), ys)
    decreases |xs|
  {
    if |xs| == 0 {
      assert xs + ys == ys;
    } else {
      assert (xs + ys)[0] == xs[0];
      assert (xs + ys)[1..] == xs[1..] + ys;
      PlaceAllAppend(Place(s, xs[0]), xs[1..], ys);
    }
  }

  /** x comes somewhere before y in s. */
  predicate Precedes(s: seq<Entry>, x: Entry, y: Entry) {
    exists i, j :: 0 <= i < j < |s| && s[i] == x && s[j] == y
  }

  lemma PlaceKeepsPrecedes(s: seq<Entry>, e: Entry, x: Entry, y: Entry)
    requires Precedes(s, x, y)
    ensures Precedes(Place(s, e), x, y)
  {
    var i, j :| 0 <= i < j < |s| && s[i] == x && s[j] == y;
    var i' := PlaceIndex(s, e, i);
    var j' := PlaceIndex(s, e, j);
    assert 0 <= i' < j' < |Place(s, e)|;
  }

  /** Where the commit at index i of s ends up once e is placed: the index
      moves up by one from the slot on. */
  lemma PlaceIndex(s: seq<Entry>, e: Entry, i: nat) returns (i': nat)
    requires i < |s|
    ensures i' == (if i < Slot(s, e.date) then i else i + 1)
    ensures i' < |Place(s, e)| && Place(s, e)[i'] == s[i]
  {
    i' := if i < Slot(s, e.date) then i else i + 1;
  }

  lemma {:induction false} PlaceAllKeepsPrecedes(s: seq<Entry>, es: seq<Entry>, x: Entry, y: Entry)
    requires Precedes(s, x, y)
    ensures Precedes(PlaceAll(s, es), x, y)
    decreases |es|
  {
    if |es| > 0 {
      PlaceKeepsPrecedes(s, es[0], x, y);
      PlaceAllKeepsPrecedes(Place(s, es[0]), es[1..], x, y);
    }
  }

  lemma PlaceKeepsMember(s: seq<Entry>, e: Entry, x: Entry)
    requires x in s
    ensures x in Place(s, e)
  {
    PlaceKeepsOthers(s, e);
    assert x in multiset(s);
  }

  lemma {:induction false} PlaceAllKeepsMember(s: seq<Entry>, es: seq<Entry>, x: Entry)
    requires x in s
    ensures x in PlaceAll(s, es)
    decreases |es|
  {
    if |es| > 0 {
      PlaceKeepsMember(s, es[0], x);
      PlaceAllKeepsMember(Place(s, es[0]), es[1..], x);
    }
  }

  /** On a sorted timeline, an event lands after every commit dated no later than it. */
  lemma PlaceAfterNotLater(s: seq<Entry>, a: Entry, b: Entry)
    requires Sorted(s) && a in s && a.date <= b.date
    ensures Precedes(Place(s, b), a, b)
  {
    var k := Slot(s, b.date);
    var i :| 0 <= i < |s| && s[i] == a;
    SlotSplitsSorted(s, b.date);
    assert i < k;
    assert Place(s, b)[i] == a && Place(s, b)[k] == b;
  }

  /** Stability: of two events added to a sorted timeline, the one added first
      ends up first whenever it is not dated later; two events of the same day
      keep the order in which they were added. */
  lemma SameDayStable(s: seq<Entry>, es: seq<Entry>, i: nat, j: nat)
    requires Sorted(s) && i < j < |es| && es[i].date <= es[j].date
    ensures Precedes(PlaceAll(s, es), es[i], es[j])
  {
    SplitAround(es, i, j);
    StableParts(s, es[..i], es[i], es[i + 1..j], es[j], es[j + 1..]);
  }

  lemma SplitAround(es: seq<Entry>, i: nat, j: nat)
    requires i < j < |es|
    ensures es == (es[..i] + [es[i]]) + es[i + 1..j] + [es[j]] + es[j + 1..]
  {
    assert es[..j] == (es[..i] + [es[i]]) + es[i + 1..j];
    assert es == es[..j] + [es[j]] + es[j + 1..];
  }

  lemma StableParts(s: seq<Entry>, before: seq<Entry>, a: Entry, middle: seq<Entry>, b: Entry, after: seq<Entry>)
    requires Sorted(s) && a.date <= b.date
    ensures Precedes(PlaceAll(s, (before + [a]) + middle + [b] + after), a, b)
  {
    var front := before + [a];
    PlaceAllAppend(s, front + middle + [b], after);
    PlaceAllAppend(s, front + middle, [b]);
    PlaceAllAppend(s, front, middle);
    var s1 := PlaceAll(s, front);
    var s2 := PlaceAll(s1, middle);
    LastPlacedIsMember(s, before, a);
    PlaceAllSorted(s, front);
    PlaceAllSorted(s1, middle);
    PlaceAllKeepsMember(s1, middle, a);
    assert PlaceAll(s2, [b]) == Place(s2, b);
    PlaceAfterNotLater(s2, a, b);
    PlaceAllKeepsPrecedes(Place(s2, b), after, a, b);
  }

  lemma LastPlacedIsMember(s: seq<Entry>, before: seq<Entry>, a: Entry)
    ensures a in PlaceAll(s, before + [a])
  {
    PlaceAllAppend(s, before, [a]);
    var p := PlaceAll(s, before);
    assert PlaceAll(p, [a]) == Place(p, a);
    assert Place(p, a)[Slot(p, a.date)] == a;
  }

  /** The order tests/test_git.py:124-135 asserts for events dated
      2024-03-01, 2024-01-01 and 2024-02-01, added in that order, reached
      when every event goes through the intended insertion. (In the test the
      first two go through add_event_to_git, which appends in call order;
      add_past_event is not part of this model.) */
  lemma ThreeEventScenario()
    ensures var march := Entry("f", Midnight(CalendarDate(2024, 3, 1)));
      var january := Entry("p", Midnight(CalendarDate(2024, 1, 1)));
      var february := Entry("m", Midnight(CalendarDate(2024, 2, 1)));
      PlaceAll([], [march, january, february]) == [january, february, march]
  {
    var march := Entry("f", Midnight(CalendarDate(2024, 3, 1)));
    var january := Entry("p", Midnight(CalendarDate(2024, 1, 1)));
    var february := Entry("m", Midnight(CalendarDate(2024, 2, 1)));
    assert january.date < february.date < march.date;
    var s1 := Place([], march);
    assert s1 == [march];
    assert FirstLater(s1, january.date) == Some(0);
    var s2 := Place(s1, january);
    assert s2 == [january, march];
    assert FirstLater(s2[1..], february.date) == Some(0);
    assert FirstLater(s2, february.date) == Some(1);
    assert Place(s2, february) == [january, february, march];
    assert PlaceAll([], [march, january, february]) == PlaceAll(s1, [january, february]);
    assert PlaceAll(s1, [january, february]) == PlaceAll(s2, [february]);
  }
}
