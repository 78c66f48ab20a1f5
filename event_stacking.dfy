/**
  The row stacker of src/utils/eventStacking.ts: events are sorted by start date and
  then by duration, and each one takes the lowest row in which its visual span (its
  month columns, widened to fit its title) collides with no event placed before it.
  Columns here are month indexes into the grid.
*/
module EventStacking {
  import opened Types
  import opened DateUtils
  import opened Sorting

  const COLUMN_WIDTH: int := 32
  const MIN_EVENT_WIDTH: int := 120

  datatype Columns = Columns(start: int, end: int)

  /** `getEventColumns`: the grid positions of the event's start and end months. A start
      month outside the grid falls back to column 0; an end month outside it stays -1. */
  function EventColumns(e: Event, months: seq<Month>): (c: Columns)
    requires HasIsoDates(e)
    ensures months == [] ==> c == Columns(0, 0)
    ensures months != [] ==> 0 <= c.start < |months| && -1 <= c.end < |months|
    ensures months != [] ==> (MonthOf(e.startDate) in months ==> months[c.start] == MonthOf(e.startDate))
    ensures months != [] ==> (MonthOf(e.startDate) !in months ==> c.start == 0)
    ensures months != [] ==> (MonthOf(e.endDate) !in months <==> c.end == -1)
    ensures months != [] ==> (MonthOf(e.endDate) in months ==> 0 <= c.end && months[c.end] == MonthOf(e.endDate))
  {
    if months == [] then Columns(0, 0)
    else
      var s, t := MonthOf(e.startDate), MonthOf(e.endDate);
      Columns(Max(0, IndexOfMonth(months, s.year, s.month)),
              Min(|months| - 1, IndexOfMonth(months, t.year, t.month)))
  }

  /** `calculateTitleWidth`: the number of 32-pixel columns that hold the larger of
      120 pixels and 8 pixels per title character, rounded up. */
  function TitleColumns(title: string): (n: int)
    ensures n >= 4
    ensures (n - 1) * COLUMN_WIDTH < Max(MIN_EVENT_WIDTH, |title| * 8) <= n * COLUMN_WIDTH
  {
    var width := Max(MIN_EVENT_WIDTH, |title| * 8);
    (width + COLUMN_WIDTH - 1) / COLUMN_WIDTH
  }

  /** The last column the event occupies on screen: its end month or the end of its title. */
  function VisualEnd(c: Columns, title: string): (v: int)
    ensures v >= c.end && v >= c.start + 3
    ensures v == c.end || v == c.start + TitleColumns(title) - 1
  {
    Max(c.end, c.start + TitleColumns(title) - 1)
  }

  datatype Placement = Placement(event: Event, startColumn: int, endColumn: int, visualEndColumn: int, stackIndex: nat)

  /** The closed spans [startColumn, visualEndColumn] share a column. */
  predicate Overlaps(p: Placement, q: Placement) {
    p.startColumn <= q.visualEndColumn && q.startColumn <= p.visualEndColumn
  }

  /** `hasCollision`: some existing placement is in the same row and overlaps. */
  predicate HasCollision(p: Placement, existing: seq<Placement>) {
    exists i | 0 <= i < |existing| :: existing[i].stackIndex == p.stackIndex && Overlaps(p, existing[i])
  }

  /** Every placement is in a row below the number of placements. */
  predicate RowsBelow(ps: seq<Placement>) {
    forall i :: 0 <= i < |ps| ==> ps[i].stackIndex < |ps|
  }

  /** The `while (!placed)` search from row `k` up: the first row without a collision. */
  function FirstFreeRow(p: Placement, ps: seq<Placement>, k: nat): (row: nat)
    requires RowsBelow(ps) && k <= |ps|
    ensures k <= row <= |ps|
    ensures !HasCollision(p.(stackIndex := row), ps)
    ensures forall j :: k <= j < row ==> HasCollision(p.(stackIndex := j), ps)
    decreases |ps| - k
  {
    if !HasCollision(p.(stackIndex := k), ps) then k
    else
      CollisionRowBelow(p.(stackIndex := k), ps);
      FirstFreeRow(p, ps, k + 1)
  }

  lemma CollisionRowBelow(p: Placement, ps: seq<Placement>)
    requires RowsBelow(ps) && HasCollision(p, ps)
    ensures p.stackIndex < |ps|
  {
    var i :| 0 <= i < |ps| && ps[i].stackIndex == p.stackIndex && Overlaps(p, ps[i]);
  }

  /** One iteration of the placement loop: the event's columns, its visual end and the
      first free row given the earlier placements. */
  function PlaceOne(e: Event, months: seq<Month>, ps: seq<Placement>): (p: Placement)
    requires HasIsoDates(e) && RowsBelow(ps)
    ensures p.event == e && p.stackIndex <= |ps|
  {
    var c := EventColumns(e, months);
    var candidate := Placement(e, c.start, c.end, VisualEnd(c, e.title), 0);
    candidate.(stackIndex := FirstFreeRow(candidate, ps, 0))
  }

  /** The placements after the loop has run over `s`. */
  function PlaceAll(s: seq<Event>, months: seq<Month>): (ps: seq<Placement>)
    requires AllIsoDates(s)
    ensures |ps| == |s|
    ensures forall i :: 0 <= i < |s| ==> ps[i].event == s[i] && ps[i].stackIndex <= i
  {
    if s == [] then []
    else
      AllIsoDatesPrefix(s, |s| - 1);
      var prev := PlaceAll(s[..|s| - 1], months);
      prev + [PlaceOne(s[|s| - 1], months, prev)]
  }

  /** The i-th placement is computed from the i placements before it. */
  lemma {:induction false} PlaceAllStep(s: seq<Event>, months: seq<Month>, j: nat)
    requires AllIsoDates(s)
    requires j < |s|
    ensures AllIsoDates(s[..j])
    ensures PlaceAll(s, months)[..j] == PlaceAll(s[..j], months)
    ensures PlaceAll(s, months)[j] == PlaceOne(s[j], months, PlaceAll(s, months)[..j])
  {
    var init := s[..|s| - 1];
    AllIsoDatesPrefix(s, j);
    PlaceAllLast(s, months);
    var prev := PlaceAll(init, months);
    SnocIndex(prev, PlaceOne(s[|s| - 1], months, prev), j);
    if j < |s| - 1 {
      PlaceAllStep(init, months, j);
      PrefixOfPrefix(s, |s| - 1, j);
    }
  }

  /** The last placement is computed from the ones before it. */
  lemma PlaceAllLast(s: seq<Event>, months: seq<Month>)
    requires AllIsoDates(s) && s != []
    ensures AllIsoDates(s[..|s| - 1])
    ensures PlaceAll(s, months) ==
      PlaceAll(s[..|s| - 1], months) + [PlaceOne(s[|s| - 1], months, PlaceAll(s[..|s| - 1], months))]
  {
    AllIsoDatesPrefix(s, |s| - 1);
  }

  /** Growing the prefix by one runs one more placement. */
  lemma PlaceAllSnoc(s: seq<Event>, months: seq<Month>, i: nat)
    requires AllIsoDates(s) && i < |s|
    ensures AllIsoDates(s[..i]) && AllIsoDates(s[..i + 1]) && HasIsoDates(s[i])
    ensures RowsBelow(PlaceAll(s[..i], months))
    ensures PlaceAll(s[..i + 1], months) == PlaceAll(s[..i], months) + [PlaceOne(s[i], months, PlaceAll(s[..i], months))]
  {
    AllIsoDatesPrefix(s, i);
    AllIsoDatesPrefix(s, i + 1);
    PlaceAllLast(s[..i + 1], months);
    PrefixOfPrefix(s, i + 1, i);
  }

  /** No two events in one row have overlapping visual spans. */
  lemma RowsDisjoint(s: seq<Event>, months: seq<Month>)
    requires AllIsoDates(s)
    ensures var ps := PlaceAll(s, months);
      forall i, j :: 0 <= i < j < |ps| && ps[i].stackIndex == ps[j].stackIndex ==> !Overlaps(ps[i], ps[j])
  {
    var ps := PlaceAll(s, months);
    forall i, j | 0 <= i < j < |ps| && ps[i].stackIndex == ps[j].stackIndex
      ensures !Overlaps(ps[i], ps[j])
    {
      PlaceAllStep(s, months, j);
      var before := ps[..j];
      assert !HasCollision(ps[j], before);
      assert before[i] == ps[i];
    }
  }

  /** First fit: an event in row k collides, in each row below k, with an event placed
      before it. */
  lemma FirstFit(s: seq<Event>, months: seq<Month>)
    requires AllIsoDates(s)
    ensures var ps := PlaceAll(s, months);
      forall j, k :: 0 <= j < |ps| && 0 <= k < ps[j].stackIndex ==> HasCollision(ps[j].(stackIndex := k), ps[..j])
  {
    var ps := PlaceAll(s, months);
    forall j, k | 0 <= j < |ps| && 0 <= k < ps[j].stackIndex
      ensures HasCollision(ps[j].(stackIndex := k), ps[..j])
    {
      PlaceAllStep(s, months, j);
      var c := EventColumns(s[j], months);
      var candidate := Placement(s[j], c.start, c.end, VisualEnd(c, s[j].title), 0);
      assert ps[j].(stackIndex := k) == candidate.(stackIndex := k);
    }
  }

  /** The visual span of every placement starts at its start column and reaches at least
      three columns further and at least to its end column. */
  lemma PlacementSpans(s: seq<Event>, months: seq<Month>)
    requires AllIsoDates(s)
    ensures var ps := PlaceAll(s, months);
      forall j :: 0 <= j < |ps| ==>
        var c := EventColumns(s[j], months);
        ps[j].startColumn == c.start && ps[j].endColumn == c.end &&
        ps[j].visualEndColumn >= c.start + 3 && ps[j].visualEndColumn >= c.end
  {
    var ps := PlaceAll(s, months);
    forall j | 0 <= j < |ps|
      ensures ps[j].startColumn == EventColumns(s[j], months).start
      ensures ps[j].endColumn == EventColumns(s[j], months).end
      ensures ps[j].visualEndColumn >= EventColumns(s[j], months).start + 3
      ensures ps[j].visualEndColumn >= EventColumns(s[j], months).end
    {
      PlaceAllStep(s, months, j);
    }
  }

  /** Two events that start in the same column never share a row. */
  lemma SameStartDifferentRows(s: seq<Event>, months: seq<Month>)
    requires AllIsoDates(s)
    ensures var ps := PlaceAll(s, months);
      forall i, j :: 0 <= i < j < |ps| && ps[i].startColumn == ps[j].startColumn ==> ps[i].stackIndex != ps[j].stackIndex
  {
    RowsDisjoint(s, months);
    PlacementSpans(s, months);
  }

  /** The comparator of the sort: start date first, then duration. With equal starts a
      shorter duration is an earlier end, so the key orders by start and then by end. */
  function SortKey(e: Event): int {
    if HasIsoDates(e) then DateKey(e.startDate) * 100000000 + DateKey(e.endDate) else 0
  }

  lemma SortKeyOrder(a: Event, b: Event)
    requires HasIsoDates(a) && HasIsoDates(b)
    ensures SortKey(a) <= SortKey(b) <==>
      DateKey(a.startDate) < DateKey(b.startDate) ||
      (DateKey(a.startDate) == DateKey(b.startDate) && DateKey(a.endDate) <= DateKey(b.endDate))
  {
    var sa, sb, ea, eb := DateKey(a.startDate), DateKey(b.startDate), DateKey(a.endDate), DateKey(b.endDate);
    if sa < sb {
      assert sa * 100000000 + ea < (sa + 1) * 100000000 <= sb * 100000000 + eb;
    } else if sb < sa {
      assert sb * 100000000 + eb < (sb + 1) * 100000000 <= sa * 100000000 + ea;
    }
  }

  /** An event with its row (`StackedEvent`). */
  datatype StackedEvent = StackedEvent(event: Event, stackIndex: nat)

  function ToStacked(ps: seq<Placement>): (r: seq<StackedEvent>)
    ensures |r| == |ps|
    ensures forall i :: 0 <= i < |ps| ==> r[i] == StackedEvent(ps[i].event, ps[i].stackIndex)
  {
    seq(|ps|, i requires 0 <= i < |ps| => StackedEvent(ps[i].event, ps[i].stackIndex))
  }

  function EventsOf(r: seq<StackedEvent>): (events: seq<Event>)
    ensures |events| == |r|
    ensures forall i :: 0 <= i < |r| ==> events[i] == r[i].event
  {
    seq(|r|, i requires 0 <= i < |r| => r[i].event)
  }

  lemma SortedHasIsoDates(events: seq<Event>)
    requires AllIsoDates(events)
    ensures AllIsoDates(SortByKey(events, SortKey))
  {
    var sorted := SortByKey(events, SortKey);
    forall i | 0 <= i < |sorted| ensures IsValidDateFormat(sorted[i].startDate) && IsValidDateFormat(sorted[i].endDate) {
      assert sorted[i] in multiset(sorted);
      var j :| 0 <= j < |events| && events[j] == sorted[i];
    }
  }

  /** What `calculateEventStacks` returns. */
  function Stacks(events: seq<Event>, months: seq<Month>): seq<StackedEvent>
    requires AllIsoDates(events)
  {
    if events == [] then []
    else
      SortedHasIsoDates(events);
      ToStacked(PlaceAll(SortByKey(events, SortKey), months))
  }

  /** The stacked events are the input events, each once and unchanged, in the order of
      the stable sort by start date and then duration. */
  lemma StacksAreSortedEvents(events: seq<Event>, months: seq<Month>)
    requires AllIsoDates(events)
    ensures EventsOf(Stacks(events, months)) == SortByKey(events, SortKey)
    ensures |Stacks(events, months)| == |events|
    ensures multiset(EventsOf(Stacks(events, months))) == multiset(events)
    ensures forall i, j :: 0 <= i < j < |events| ==>
      SortKey(Stacks(events, months)[i].event) <= SortKey(Stacks(events, months)[j].event)
    ensures forall k :: WithKey(EventsOf(Stacks(events, months)), SortKey, k) == WithKey(events, SortKey, k)
  {
    StacksEvents(events, months);
    var r := Stacks(events, months);
    var sorted := SortByKey(events, SortKey);
    assert forall i :: 0 <= i < |r| ==> r[i].event == sorted[i];
    forall k ensures WithKey(sorted, SortKey, k) == WithKey(events, SortKey, k) {
      SortStable(events, SortKey, k);
    }
  }

  lemma StacksEvents(events: seq<Event>, months: seq<Month>)
    requires AllIsoDates(events)
    ensures EventsOf(Stacks(events, months)) == SortByKey(events, SortKey)
  {
    if events != [] {
      SortedHasIsoDates(events);
      var sorted := SortByKey(events, SortKey);
      var ps := PlaceAll(sorted, months);
      assert Stacks(events, months) == ToStacked(ps);
      StackedEventsOf(ps, sorted);
    } else {
      assert SortByKey(events, SortKey) == [];
      assert EventsOf([]) == [];
    }
  }

  lemma StackedEventsOf(ps: seq<Placement>, events: seq<Event>)
    requires |ps| == |events| && forall i :: 0 <= i < |ps| ==> ps[i].event == events[i]
    ensures EventsOf(ToStacked(ps)) == events
  {
    var es := EventsOf(ToStacked(ps));
    assert forall i :: 0 <= i < |es| ==> es[i] == events[i];
  }

  /** The row of the i-th stacked event is at most i. */
  lemma StackIndexBound(events: seq<Event>, months: seq<Month>)
    requires AllIsoDates(events)
    ensures forall i :: 0 <= i < |Stacks(events, months)| ==> Stacks(events, months)[i].stackIndex <= i
  {
    if events != [] {
      SortedHasIsoDates(events);
    }
  }

  /** One pass of the `for` loop of `calculateEventStacks`: the row search of the inner
      `while (!placed)` loop and the push of the new placement. */
  method PlaceEvent(event: Event, months: seq<Month>, placements: seq<Placement>) returns (next: seq<Placement>)
    requires HasIsoDates(event) && RowsBelow(placements)
    ensures next == placements + [PlaceOne(event, months, placements)]
  {
    var columns := EventColumns(event, months);
    var visualEnd := Max(columns.end, columns.start + TitleColumns(event.title) - 1);
    var stackIndex := 0;
    var placed := false;
    next := placements;
    ghost var candidate := Placement(event, columns.start, columns.end, visualEnd, 0);
    while !placed
      invariant !placed ==> next == placements && stackIndex <= |placements|
      invariant !placed ==> FirstFreeRow(candidate, placements, stackIndex) == FirstFreeRow(candidate, placements, 0)
      invariant placed ==> next == placements + [PlaceOne(event, months, placements)]
      decreases if placed then 0 else |placements| - stackIndex + 1
    {
      var placement := Placement(event, columns.start, columns.end, visualEnd, stackIndex);
      assert placement == candidate.(stackIndex := stackIndex);
      if !HasCollision(placement, next) {
        next := next + [placement];
        placed := true;
      } else {
        CollisionRowBelow(placement, next);
        stackIndex := stackIndex + 1;
      }
    }
  }

  /** `calculateEventStacks`. */
  method CalculateEventStacks(events: seq<Event>, months: seq<Month>) returns (result: seq<StackedEvent>)
    requires AllIsoDates(events)
    ensures result == Stacks(events, months)
  {
    if |events| == 0 {
      return [];
    }
    var sorted := SortByKey(events, SortKey);
    SortedHasIsoDates(events);
    var placements: seq<Placement> := [];
    for i := 0 to |sorted|
      invariant AllIsoDates(sorted[..i])
      invariant placements == PlaceAll(sorted[..i], months)
    {
      PlaceAllSnoc(sorted, months, i);
      placements := PlaceEvent(sorted[i], months, placements);
    }
    assert sorted[..|sorted|] == sorted;
    result := ToStacked(placements);
  }
}
