/**
  The lane composer of src/components/Timeline/Timeline.tsx: the visible categories and
  their events, the month grid of those events, and for each visible category a lane
  with its stacked events, a height from its deepest row and a running vertical offset.
*/
module TimelineLayout {
  import opened Types
  import opened DateUtils
  import opened TimelineRange
  import opened EventStacking

  const EVENT_HEIGHT: int := 36
  const STACK_SPACING: int := 0
  const CATEGORY_PADDING: int := 8
  const MIN_LANE_HEIGHT: int := 80

  /** `categories.filter(cat => cat.visible)`. */
  function VisibleCategories(categories: seq<CategoryConfig>): (r: seq<CategoryConfig>)
    ensures |r| <= |categories|
    ensures forall c :: c in r <==> c in categories && c.visible
  {
    if categories == [] then []
    else (if categories[0].visible then [categories[0]] else []) + VisibleCategories(categories[1..])
  }

  /** The filter keeps the order and the repeats of the list: it distributes over
      concatenation, and one category is kept exactly when it is visible. */
  lemma {:induction false} VisibleCategoriesAppend(a: seq<CategoryConfig>, b: seq<CategoryConfig>)
    ensures VisibleCategories(a + b) == VisibleCategories(a) + VisibleCategories(b)
  {
    if a == [] {
      assert a + b == b;
    } else {
      assert (a + b)[1..] == a[1..] + b;
      VisibleCategoriesAppend(a[1..], b);
    }
  }

  lemma VisibleCategoriesSingle(c: CategoryConfig)
    ensures VisibleCategories([c]) == (if c.visible then [c] else [])
  {
    assert [c][1..] == [];
  }

  /** Some category in the list has this id. */
  predicate HasCategoryId(categories: seq<CategoryConfig>, id: string) {
    exists i | 0 <= i < |categories| :: categories[i].id == id
  }

  /** `events.filter(event => categories.some(cat => cat.id === event.category))`. */
  function EventsInCategories(events: seq<Event>, categories: seq<CategoryConfig>): (r: seq<Event>)
    ensures |r| <= |events|
    ensures forall e :: e in r <==> e in events && HasCategoryId(categories, e.category)
  {
    if events == [] then []
    else
      (if HasCategoryId(categories, events[0].category) then [events[0]] else []) +
      EventsInCategories(events[1..], categories)
  }

  /** `events.filter(event => event.category === id)`. */
  function EventsOfCategory(events: seq<Event>, id: string): (r: seq<Event>)
    ensures |r| <= |events|
    ensures forall e :: e in r <==> e in events && e.category == id
  {
    if events == [] then []
    else (if events[0].category == id then [events[0]] else []) + EventsOfCategory(events[1..], id)
  }

  /** An event is laid out exactly when some visible category has its category id. */
  lemma VisibleEventsExactly(events: seq<Event>, categories: seq<CategoryConfig>, e: Event)
    ensures e in EventsInCategories(events, VisibleCategories(categories)) <==>
      e in events && exists c :: c in categories && c.visible && c.id == e.category
  {
    var visible := VisibleCategories(categories);
    if e in events && HasCategoryId(visible, e.category) {
      var i :| 0 <= i < |visible| && visible[i].id == e.category;
      assert visible[i] in visible;
    }
    if exists c :: c in categories && c.visible && c.id == e.category {
      var c :| c in categories && c.visible && c.id == e.category;
      assert c in visible;
      var i :| 0 <= i < |visible| && visible[i] == c;
    }
  }

  /** Filters keep the well-formedness of the dates. */
  lemma FiltersKeepIsoDates(events: seq<Event>, categories: seq<CategoryConfig>, id: string)
    requires AllIsoDates(events)
    ensures AllIsoDates(EventsInCategories(events, categories))
    ensures AllIsoDates(EventsOfCategory(events, id))
  {
    var a, b := EventsInCategories(events, categories), EventsOfCategory(events, id);
    forall i | 0 <= i < |a| ensures IsValidDateFormat(a[i].startDate) && IsValidDateFormat(a[i].endDate) {
      assert a[i] in a;
      var j :| 0 <= j < |events| && events[j] == a[i];
    }
    forall i | 0 <= i < |b| ensures IsValidDateFormat(b[i].startDate) && IsValidDateFormat(b[i].endDate) {
      assert b[i] in b;
      var j :| 0 <= j < |events| && events[j] == b[i];
    }
  }

  /** `Math.max(...stackedEvents.map(event => event.stackIndex), 0)`. */
  function MaxStack(stacked: seq<StackedEvent>): (m: nat)
    ensures forall i :: 0 <= i < |stacked| ==> stacked[i].stackIndex <= m
    ensures stacked == [] ==> m == 0
    ensures stacked != [] ==> exists i :: 0 <= i < |stacked| && stacked[i].stackIndex == m
  {
    if stacked == [] then 0
    else
      var rest := MaxStack(stacked[1..]);
      if stacked[0].stackIndex >= rest then stacked[0].stackIndex else rest
  }

  /** A lane is one row per stack level plus padding, and never below 80 pixels. */
  function LaneHeight(maxStack: nat): (h: int)
    ensures h >= MIN_LANE_HEIGHT
    ensures h >= (maxStack + 1) * (EVENT_HEIGHT + STACK_SPACING) + CATEGORY_PADDING
    ensures h == MIN_LANE_HEIGHT || h == (maxStack + 1) * (EVENT_HEIGHT + STACK_SPACING) + CATEGORY_PADDING
  {
    Max((maxStack + 1) * (EVENT_HEIGHT + STACK_SPACING) + CATEGORY_PADDING, MIN_LANE_HEIGHT)
  }

  lemma LaneHeightMonotone(a: nat, b: nat)
    requires a <= b
    ensures LaneHeight(a) <= LaneHeight(b)
  {
  }

  /** One or two rows fit in the minimum height. */
  lemma LaneHeightShallow(maxStack: nat)
    ensures maxStack <= 1 <==> LaneHeight(maxStack) == MIN_LANE_HEIGHT
  {
  }

  datatype Lane = Lane(id: string, height: int, offset: int, events: seq<StackedEvent>)

  datatype Layout = Layout(lanes: seq<Lane>, totalHeight: int)

  /** The stacked events of category `id`. */
  function LaneEvents(events: seq<Event>, id: string, months: seq<Month>): seq<StackedEvent>
    requires AllIsoDates(events)
  {
    FiltersKeepIsoDates(events, [], id);
    Stacks(EventsOfCategory(events, id), months)
  }

  function LaneHeightOf(events: seq<Event>, id: string, months: seq<Month>): int
    requires AllIsoDates(events)
  {
    LaneHeight(MaxStack(LaneEvents(events, id, months)))
  }

  /** The sum of the heights of the first `n` lanes. */
  function OffsetBefore(categories: seq<CategoryConfig>, events: seq<Event>, months: seq<Month>, n: nat): (o: int)
    requires AllIsoDates(events) && n <= |categories|
    ensures o >= MIN_LANE_HEIGHT * n
  {
    if n == 0 then 0
    else OffsetBefore(categories, events, months, n - 1) + LaneHeightOf(events, categories[n - 1].id, months)
  }

  /** The lane of the `i`-th category. */
  function LaneAt(categories: seq<CategoryConfig>, events: seq<Event>, months: seq<Month>, i: nat): Lane
    requires AllIsoDates(events) && i < |categories|
  {
    Lane(categories[i].id, LaneHeightOf(events, categories[i].id, months),
         OffsetBefore(categories, events, months, i), LaneEvents(events, categories[i].id, months))
  }

  /** The `categoryData` of a list of visible categories and their events. */
  function Lanes(categories: seq<CategoryConfig>, events: seq<Event>, months: seq<Month>): (lanes: seq<Lane>)
    requires AllIsoDates(events)
    ensures |lanes| == |categories|
    ensures forall i :: 0 <= i < |categories| ==> lanes[i] == LaneAt(categories, events, months, i)
  {
    seq(|categories|, i requires 0 <= i < |categories| => LaneAt(categories, events, months, i))
  }

  /** Lanes follow one another: the first starts at 0, each next one where the previous
      one ends. */
  lemma LanesStack(categories: seq<CategoryConfig>, events: seq<Event>, months: seq<Month>)
    requires AllIsoDates(events)
    ensures var lanes := Lanes(categories, events, months);
      (lanes != [] ==> lanes[0].offset == 0) &&
      forall i :: 0 <= i < |lanes| - 1 ==> lanes[i + 1].offset == lanes[i].offset + lanes[i].height
    ensures var lanes := Lanes(categories, events, months);
      forall i :: 0 <= i < |lanes| ==> lanes[i].height >= MIN_LANE_HEIGHT && lanes[i].offset >= MIN_LANE_HEIGHT * i
  {
  }

  /** Each lane belongs to its category and holds exactly that category's events,
      stacked. */
  lemma LaneContents(categories: seq<CategoryConfig>, events: seq<Event>, months: seq<Month>)
    requires AllIsoDates(events)
    ensures var lanes := Lanes(categories, events, months);
      forall i :: 0 <= i < |lanes| ==>
        lanes[i].id == categories[i].id &&
        multiset(EventsOf(lanes[i].events)) == multiset(EventsOfCategory(events, categories[i].id))
  {
    var lanes := Lanes(categories, events, months);
    forall i | 0 <= i < |lanes|
      ensures multiset(EventsOf(lanes[i].events)) == multiset(EventsOfCategory(events, categories[i].id))
    {
      FiltersKeepIsoDates(events, [], categories[i].id);
      assert lanes[i].events == LaneEvents(events, categories[i].id, months);
      StacksAreSortedEvents(EventsOfCategory(events, categories[i].id), months);
    }
  }

  /** The layout: `currentOffset || 80` is the total height. */
  function LayoutOf(categories: seq<CategoryConfig>, events: seq<Event>): Layout
    requires AllIsoDates(events)
  {
    var visibleCategories := VisibleCategories(categories);
    var visibleEvents := EventsInCategories(events, visibleCategories);
    FiltersKeepIsoDates(events, visibleCategories, "");
    var range := CalculateTimelineRange(visibleEvents);
    var months := MonthsRange(range.startYear, range.endYear);
    var total := OffsetBefore(visibleCategories, visibleEvents, months, |visibleCategories|);
    Layout(Lanes(visibleCategories, visibleEvents, months), if total == 0 then MIN_LANE_HEIGHT else total)
  }

  /** The sum of all lane heights is where the last lane ends. */
  lemma SumIsLastLaneEnd(categories: seq<CategoryConfig>, events: seq<Event>, months: seq<Month>)
    requires AllIsoDates(events) && categories != []
    ensures var lanes := Lanes(categories, events, months); var n := |categories|;
      OffsetBefore(categories, events, months, n) == lanes[n - 1].offset + lanes[n - 1].height
  {
    var n := |categories|;
    assert Lanes(categories, events, months)[n - 1] == LaneAt(categories, events, months, n - 1);
  }

  /** The total height is the sum of the lane heights, or 80 with no visible category. */
  lemma TotalHeight(categories: seq<CategoryConfig>, events: seq<Event>)
    requires AllIsoDates(events)
    ensures var layout := LayoutOf(categories, events);
      (layout.lanes == [] ==> layout.totalHeight == MIN_LANE_HEIGHT) &&
      (layout.lanes != [] ==> layout.totalHeight == layout.lanes[|layout.lanes| - 1].offset + layout.lanes[|layout.lanes| - 1].height)
  {
    var visibleCategories := VisibleCategories(categories);
    var visibleEvents := EventsInCategories(events, visibleCategories);
    FiltersKeepIsoDates(events, visibleCategories, "");
    var range := CalculateTimelineRange(visibleEvents);
    var months := MonthsRange(range.startYear, range.endYear);
    if visibleCategories != [] {
      SumIsLastLaneEnd(visibleCategories, visibleEvents, months);
    }
  }

  /** The body of the `visibleCategories.map(...)` callback for one category. */
  method BuildLane(category: CategoryConfig, visibleEvents: seq<Event>, months: seq<Month>, currentOffset: int)
    returns (lane: Lane)
    requires AllIsoDates(visibleEvents)
    ensures lane == Lane(category.id, LaneHeightOf(visibleEvents, category.id, months), currentOffset,
                         LaneEvents(visibleEvents, category.id, months))
  {
    var categoryEvents := EventsOfCategory(visibleEvents, category.id);
    FiltersKeepIsoDates(visibleEvents, [], category.id);
    var stackedEvents := CalculateEventStacks(categoryEvents, months);
    var maxStack := MaxStack(stackedEvents);
    var height := (maxStack + 1) * (EVENT_HEIGHT + STACK_SPACING) + CATEGORY_PADDING;
    lane := Lane(category.id, Max(height, MIN_LANE_HEIGHT), currentOffset, stackedEvents);
  }

  /** The `visibleCategories.map(...)` loop with its running `currentOffset`. */
  method ComposeLanes(visibleCategories: seq<CategoryConfig>, visibleEvents: seq<Event>, months: seq<Month>)
    returns (data: seq<Lane>, currentOffset: int)
    requires AllIsoDates(visibleEvents)
    ensures data == Lanes(visibleCategories, visibleEvents, months)
    ensures currentOffset == OffsetBefore(visibleCategories, visibleEvents, months, |visibleCategories|)
  {
    currentOffset := 0;
    data := [];
    for i := 0 to |visibleCategories|
      invariant |data| == i
      invariant forall j :: 0 <= j < i ==> data[j] == LaneAt(visibleCategories, visibleEvents, months, j)
      invariant currentOffset == OffsetBefore(visibleCategories, visibleEvents, months, i)
    {
      var lane := BuildLane(visibleCategories[i], visibleEvents, months, currentOffset);
      LaneStep(visibleCategories, visibleEvents, months, i);
      currentOffset := currentOffset + lane.height;
      LanesSnoc(data, lane, visibleCategories, visibleEvents, months);
      data := data + [lane];
    }
    LanesFromAt(data, visibleCategories, visibleEvents, months);
  }

  /** The lane built for the `i`-th category at the running offset, and the next offset. */
  lemma LaneStep(categories: seq<CategoryConfig>, events: seq<Event>, months: seq<Month>, i: nat)
    requires AllIsoDates(events) && i < |categories|
    ensures LaneAt(categories, events, months, i) ==
      Lane(categories[i].id, LaneHeightOf(events, categories[i].id, months),
           OffsetBefore(categories, events, months, i), LaneEvents(events, categories[i].id, months))
    ensures OffsetBefore(categories, events, months, i + 1) ==
      OffsetBefore(categories, events, months, i) + LaneHeightOf(events, categories[i].id, months)
  {
  }

  lemma LanesSnoc(data: seq<Lane>, lane: Lane, categories: seq<CategoryConfig>, events: seq<Event>, months: seq<Month>)
    requires AllIsoDates(events) && |data| < |categories|
    requires forall j :: 0 <= j < |data| ==> data[j] == LaneAt(categories, events, months, j)
    requires lane == LaneAt(categories, events, months, |data|)
    ensures forall j :: 0 <= j <= |data| ==> (data + [lane])[j] == LaneAt(categories, events, months, j)
  {
  }

  lemma LanesFromAt(data: seq<Lane>, categories: seq<CategoryConfig>, events: seq<Event>, months: seq<Month>)
    requires AllIsoDates(events) && |data| == |categories|
    requires forall j :: 0 <= j < |data| ==> data[j] == LaneAt(categories, events, months, j)
    ensures data == Lanes(categories, events, months)
  {
  }

  /** `categoryData`, with the month grid of the visible events. */
  method ComposeLayout(categories: seq<CategoryConfig>, events: seq<Event>) returns (layout: Layout)
    requires AllIsoDates(events)
    ensures layout == LayoutOf(categories, events)
  {
    var visibleCategories := VisibleCategories(categories);
    var visibleEvents := EventsInCategories(events, visibleCategories);
    FiltersKeepIsoDates(events, visibleCategories, "");
    var months := GetTimelineMonths(visibleEvents);
    var data, currentOffset := ComposeLanes(visibleCategories, visibleEvents, months);
    layout := Layout(data, if currentOffset == 0 then MIN_LANE_HEIGHT else currentOffset);
  }
}
