/**
  The older, overlap-based estimate of category lane heights
  (src/hooks/useCategoryHeights.ts): the largest number of events that a single event
  overlaps (counting itself), turned into a pixel height per category. The category list
  is a parameter (the constant the hook imports is not defined by the constants module).
*/
module CategoryHeights {
  import opened Types
  import opened DateUtils
  import opened Sorting
  import opened TimelineLayout

  /** `doEventsOverlap`: the closed date intervals meet, with the dates compared by their
      positional day keys. An event whose dates are not in "YYYY-MM-DD" shape overlaps
      nothing, as an Invalid Date does in the source; the shape test does not check the
      month and day ranges. */
  predicate EventsOverlap(a: Event, b: Event) {
    HasIsoDates(a) && HasIsoDates(b) &&
    DateKey(a.startDate) <= DateKey(b.endDate) && DateKey(a.endDate) >= DateKey(b.startDate)
  }

  lemma EventsOverlapSymmetric(a: Event, b: Event)
    ensures EventsOverlap(a, b) <==> EventsOverlap(b, a)
  {
  }

  /** An event overlaps itself exactly when both its dates have the "YYYY-MM-DD" shape and it does not end before it
      starts. */
  lemma EventsOverlapReflexive(e: Event)
    ensures EventsOverlap(e, e) <==> HasIsoDates(e) && DateKey(e.startDate) <= DateKey(e.endDate)
  {
  }

  /** For intervals that do not run backwards the test is interval intersection: the later
      start is not after the earlier end. */
  lemma EventsOverlapIsIntersection(a: Event, b: Event)
    requires HasIsoDates(a) && HasIsoDates(b)
    requires DateKey(a.startDate) <= DateKey(a.endDate) && DateKey(b.startDate) <= DateKey(b.endDate)
    ensures EventsOverlap(a, b) <==>
      Max(DateKey(a.startDate), DateKey(b.startDate)) <= Min(DateKey(a.endDate), DateKey(b.endDate))
  {
  }

  /** The sort key of the start-date sort. A date not in "YYYY-MM-DD" shape gets 0; the
      result below does not depend on the order anyway. */
  function StartKey(e: Event): int {
    if IsValidDateFormat(e.startDate) then DateKey(e.startDate) else 0
  }

  /** The inner loop's count after `n` steps: positions `j < n`, other than `i`, whose event
      overlaps `s[i]`. */
  function CountOthers(s: seq<Event>, i: int, n: nat): (c: nat)
    requires 0 <= i < |s| && n <= |s|
    ensures c <= n && (i < n ==> c <= n - 1)
  {
    if n == 0 then 0
    else CountOthers(s, i, n - 1) + (if i != n - 1 && EventsOverlap(s[i], s[n - 1]) then 1 else 0)
  }

  /** One plus the number of other events that event `i` overlaps. */
  function Degree(s: seq<Event>, i: int): (d: nat)
    requires 0 <= i < |s|
    ensures 1 <= d <= |s|
  {
    1 + CountOthers(s, i, |s|)
  }

  /** The outer loop's maximum after `n` steps. */
  function MaxDegreeUpTo(s: seq<Event>, n: nat): (m: nat)
    requires n <= |s|
    ensures 1 <= m && (n > 0 ==> m <= |s|)
    ensures forall i :: 0 <= i < n ==> Degree(s, i) <= m
    ensures n > 0 ==> exists i :: 0 <= i < n && m == Degree(s, i)
  {
    if n == 0 then 1
    else
      var prev, d := MaxDegreeUpTo(s, n - 1), Degree(s, n - 1);
      if d >= prev then d else prev
  }

  /** `getMaxOverlappingEvents`. */
  function MaxOverlapping(events: seq<Event>): (m: nat)
    ensures m == 0 <==> events == []
    ensures events != [] ==> 1 <= m <= |events|
  {
    if events == [] then 0
    else
      var sorted := SortByKey(events, StartKey);
      MaxDegreeUpTo(sorted, |sorted|)
  }

  /** `getMaxOverlappingEvents`, with its nested loops (the inner one is
      `CurrentOverlap`). */
  method GetMaxOverlappingEvents(events: seq<Event>) returns (m: nat)
    ensures m == MaxOverlapping(events)
  {
    if |events| == 0 {
      return 0;
    }
    var sortedEvents := SortByKey(events, StartKey);
    var maxOverlap := 1;
    for i := 0 to |events|
      invariant maxOverlap == MaxDegreeUpTo(sortedEvents, i)
    {
      var currentOverlap := CurrentOverlap(sortedEvents, i);
      assert MaxDegreeUpTo(sortedEvents, i + 1) == Max(MaxDegreeUpTo(sortedEvents, i), Degree(sortedEvents, i));
      maxOverlap := Max(maxOverlap, currentOverlap);
    }
    return maxOverlap;
  }

  /** The inner loop: one plus the events other than `i` that overlap event `i`. */
  method CurrentOverlap(sortedEvents: seq<Event>, i: int) returns (currentOverlap: nat)
    requires 0 <= i < |sortedEvents|
    ensures currentOverlap == Degree(sortedEvents, i)
  {
    currentOverlap := 1;
    for j := 0 to |sortedEvents|
      invariant currentOverlap == 1 + CountOthers(sortedEvents, i, j)
    {
      var overlaps := i != j && EventsOverlap(sortedEvents[i], sortedEvents[j]);
      assert CountOthers(sortedEvents, i, j + 1) == CountOthers(sortedEvents, i, j) + (if overlaps then 1 else 0);
      if overlaps {
        currentOverlap := currentOverlap + 1;
      }
    }
  }

  // ---------------------------------------------------------------------------
  // The result does not depend on the order of the events
  // ---------------------------------------------------------------------------

  /** The events of `s` that overlap `x`, counted. */
  function CountOverlapping(x: Event, s: seq<Event>): nat {
    if s == [] then 0
    else CountOverlapping(x, s[..|s| - 1]) + (if EventsOverlap(x, s[|s| - 1]) then 1 else 0)
  }

  lemma {:induction false} CountOverlappingAppend(x: Event, a: seq<Event>, b: seq<Event>)
    ensures CountOverlapping(x, a + b) == CountOverlapping(x, a) + CountOverlapping(x, b)
  {
    if b == [] {
      assert a + b == a;
    } else {
      assert (a + b)[..|a + b| - 1] == a + b[..|b| - 1];
      CountOverlappingAppend(x, a, b[..|b| - 1]);
    }
  }

  /** The count depends only on the multiset of events. */
  lemma {:induction false} CountOverlappingPermutation(x: Event, a: seq<Event>, b: seq<Event>)
    requires multiset(a) == multiset(b)
    ensures CountOverlapping(x, a) == CountOverlapping(x, b)
    decreases |a|
  {
    if a == [] {
      assert |multiset(b)| == 0;
    } else {
      var y := a[|a| - 1];
      var a' := a[..|a| - 1];
      assert a == a' + [y];
      assert y in multiset(b);
      var k :| 0 <= k < |b| && b[k] == y;
      var b' := b[..k] + b[k + 1..];
      MultisetRemove(b, k);
      assert multiset(a') == multiset(a) - multiset{y};
      CountOverlappingPermutation(x, a', b');
      CountRemove(x, b, k);
    }
  }

  lemma MultisetRemove(b: seq<Event>, k: int)
    requires 0 <= k < |b|
    ensures multiset(b[..k] + b[k + 1..]) == multiset(b) - multiset{b[k]}
  {
    assert b == b[..k] + [b[k]] + b[k + 1..];
  }

  /** Taking one event out lowers the count by its own contribution. */
  lemma CountRemove(x: Event, b: seq<Event>, k: int)
    requires 0 <= k < |b|
    ensures CountOverlapping(x, b) ==
      CountOverlapping(x, b[..k] + b[k + 1..]) + (if EventsOverlap(x, b[k]) then 1 else 0)
  {
    assert b == b[..k] + [b[k]] + b[k + 1..];
    CountOverlappingAppend(x, b[..k] + [b[k]], b[k + 1..]);
    CountOverlappingAppend(x, b[..k], [b[k]]);
    CountOverlappingAppend(x, b[..k], b[k + 1..]);
    assert [b[k]][..0] == [];
  }

  /** One more position in the prefix adds that position's contribution. */
  lemma CountOverlappingSnoc(x: Event, s: seq<Event>, n: nat)
    requires n < |s|
    ensures CountOverlapping(x, s[..n + 1]) == CountOverlapping(x, s[..n]) + (if EventsOverlap(x, s[n]) then 1 else 0)
  {
    assert s[..n + 1][..n] == s[..n];
    assert s[..n + 1][n] == s[n];
  }

  lemma CountOthersIsCount(s: seq<Event>, i: int, n: nat)
    requires 0 <= i < |s| && n <= |s|
    ensures CountOthers(s, i, n) + (if i < n && EventsOverlap(s[i], s[i]) then 1 else 0) ==
      CountOverlapping(s[i], s[..n])
  {
    OthersBridge(s, i, n);
    OverlappingBridge(s[i], s[..n]);
    OthersIsCountBy(EventsOverlap, s, i, n);
  }

  // The same counts for an arbitrary overlap test: the counting argument does not
  // depend on what the test is, and stated this way the solver is not drawn into dates.

  function CountOthersBy(ov: (Event, Event) -> bool, s: seq<Event>, i: int, n: nat): nat
    requires 0 <= i < |s| && n <= |s|
  {
    if n == 0 then 0
    else CountOthersBy(ov, s, i, n - 1) + (if i != n - 1 && ov(s[i], s[n - 1]) then 1 else 0)
  }

  function CountOverlappingBy(ov: (Event, Event) -> bool, x: Event, s: seq<Event>): nat {
    if s == [] then 0
    else CountOverlappingBy(ov, x, s[..|s| - 1]) + (if ov(x, s[|s| - 1]) then 1 else 0)
  }

  lemma {:induction false} OthersBridge(s: seq<Event>, i: int, n: nat)
    requires 0 <= i < |s| && n <= |s|
    ensures CountOthers(s, i, n) == CountOthersBy(EventsOverlap, s, i, n)
  {
    if n > 0 {
      OthersBridge(s, i, n - 1);
    }
  }

  lemma {:induction false} OverlappingBridge(x: Event, s: seq<Event>)
    ensures CountOverlapping(x, s) == CountOverlappingBy(EventsOverlap, x, s)
    decreases |s|
  {
    if s != [] {
      OverlappingBridge(x, s[..|s| - 1]);
    }
  }

  lemma {:induction false} OthersIsCountBy(ov: (Event, Event) -> bool, s: seq<Event>, i: int, n: nat)
    requires 0 <= i < |s| && n <= |s|
    ensures CountOthersBy(ov, s, i, n) + (if i < n && ov(s[i], s[i]) then 1 else 0) ==
      CountOverlappingBy(ov, s[i], s[..n])
  {
    if n == 0 {
      assert s[..0] == [];
    } else {
      OthersIsCountBy(ov, s, i, n - 1);
      assert s[..n][..n - 1] == s[..n - 1];
      assert s[..n][n - 1] == s[n - 1];
    }
  }

  /** The degree of an event is determined by the event and the multiset it is in. */
  lemma DegreeByValue(s: seq<Event>, i: int)
    requires 0 <= i < |s|
    ensures Degree(s, i) + (if EventsOverlap(s[i], s[i]) then 1 else 0) == 1 + CountOverlapping(s[i], s)
  {
    CountOthersIsCount(s, i, |s|);
    assert s[..|s|] == s;
  }

  lemma MaxDegreeAtMost(a: seq<Event>, b: seq<Event>)
    requires multiset(a) == multiset(b) && a != []
    ensures MaxDegreeUpTo(a, |a|) <= MaxDegreeUpTo(b, |b|)
  {
    var i :| 0 <= i < |a| && MaxDegreeUpTo(a, |a|) == Degree(a, i);
    assert a[i] in multiset(b);
    var j :| 0 <= j < |b| && b[j] == a[i];
    DegreeByValue(a, i);
    DegreeByValue(b, j);
    CountOverlappingPermutation(a[i], a, b);
  }

  /** Any reordering of the events gives the same maximum. */
  lemma MaxDegreePermutation(a: seq<Event>, b: seq<Event>)
    requires multiset(a) == multiset(b) && a != []
    ensures MaxDegreeUpTo(a, |a|) == MaxDegreeUpTo(b, |b|)
  {
    assert |b| == |multiset(b)| == |multiset(a)| == |a|;
    MaxDegreeAtMost(a, b);
    MaxDegreeAtMost(b, a);
  }

  /** `getMaxOverlappingEvents` does not depend on the order of its input, and its sort
      changes nothing: the result is the largest degree in the input as given. */
  lemma MaxOverlappingOrderFree(a: seq<Event>, b: seq<Event>)
    requires multiset(a) == multiset(b)
    ensures MaxOverlapping(a) == MaxOverlapping(b)
    ensures a != [] ==> MaxOverlapping(a) == MaxDegreeUpTo(a, |a|)
  {
    if a != [] {
      assert |b| == |multiset(b)| == |multiset(a)| == |a|;
      MaxDegreePermutation(SortByKey(a, StartKey), a);
      MaxDegreePermutation(SortByKey(b, StartKey), a);
    } else {
      assert |b| == |multiset(b)| == 0;
    }
  }

  /** The result is one plus the largest number of other events that a single event
      overlaps; this is a pairwise count, not the largest set of events overlapping at one
      time. */
  lemma MaxOverlappingIsLargestDegree(events: seq<Event>)
    requires events != []
    ensures forall i :: 0 <= i < |events| ==> Degree(events, i) <= MaxOverlapping(events)
    ensures exists i :: 0 <= i < |events| && Degree(events, i) == MaxOverlapping(events)
  {
    MaxOverlappingOrderFree(events, events);
  }

  // ---------------------------------------------------------------------------
  // Heights
  // ---------------------------------------------------------------------------

  const MIN_CATEGORY_HEIGHT: int := 72
  const EVENT_HEIGHT: int := 32
  const EVENT_GAP: int := 2

  /** The lane height for a maximum overlap of `maxOverlap` events. */
  function HeightFor(maxOverlap: nat): (h: int)
    ensures h >= MIN_CATEGORY_HEIGHT
    ensures maxOverlap <= 2 ==> h == MIN_CATEGORY_HEIGHT
    ensures maxOverlap >= 3 ==> h == 34 * maxOverlap - 2
  {
    var heightFromEvents := if maxOverlap > 0 then maxOverlap * EVENT_HEIGHT + (maxOverlap - 1) * EVENT_GAP else 0;
    Max(MIN_CATEGORY_HEIGHT, heightFromEvents)
  }

  lemma HeightMonotone(a: nat, b: nat)
    requires a <= b
    ensures HeightFor(a) <= HeightFor(b)
  {
  }

  datatype CategoryHeight = CategoryHeight(id: string, height: int)

  /** `useCategoryHeights`: one height per category, in category order, each from that
      category's events only. */
  function CategoryHeightsOf(events: seq<Event>, categories: seq<CategoryConfig>): (r: seq<CategoryHeight>)
    ensures |r| == |categories|
    ensures forall i :: 0 <= i < |categories| ==>
      r[i].id == categories[i].id &&
      r[i].height == HeightFor(MaxOverlapping(EventsOfCategory(events, categories[i].id)))
  {
    seq(|categories|, i requires 0 <= i < |categories| =>
      CategoryHeight(categories[i].id, HeightFor(MaxOverlapping(EventsOfCategory(events, categories[i].id)))))
  }

  /** A category with no events, or whose events overlap at most one other, gets the
      minimum height. */
  lemma CategoryHeightMinimum(events: seq<Event>, categories: seq<CategoryConfig>, i: int)
    requires 0 <= i < |categories|
    requires |EventsOfCategory(events, categories[i].id)| <= 2
    ensures CategoryHeightsOf(events, categories)[i].height == MIN_CATEGORY_HEIGHT
  {
  }
}
