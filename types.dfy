/**
  The data model of the timeline (src/types/event.ts, src/types/timeline.ts) and the
  constants it is built from (src/constants/categories.ts, src/constants/scales.ts).
*/
module Types {

  datatype Option<T> = None | Some(value: T)

  /** A timeline event. The dates are ISO date strings ("YYYY-MM-DD"); the category is a
      category id. */
  datatype Event = Event(id: string, title: string, startDate: string, endDate: string, category: string)

  /** An event without its id (`Omit<TimelineEvent, 'id'>`), as the import and form code produce it. */
  datatype EventData = EventData(title: string, startDate: string, endDate: string, category: string)

  function DataOf(e: Event): EventData {
    EventData(e.title, e.startDate, e.endDate, e.category)
  }

  function WithId(d: EventData, id: string): Event {
    Event(id, d.title, d.startDate, d.endDate, d.category)
  }

  /** The events' data, without ids, in order. */
  function DataOfAll(events: seq<Event>): (r: seq<EventData>)
    ensures |r| == |events|
    ensures forall i :: 0 <= i < |events| ==> r[i] == DataOf(events[i])
  {
    if events == [] then [] else [DataOf(events[0])] + DataOfAll(events[1..])
  }

  /** A category lane; `labelText` is the source's `label` (a reserved word in Dafny). */
  datatype CategoryConfig = CategoryConfig(id: string, labelText: string, color: string, visible: bool)

  /** A grid column: a calendar month, `month` counted from 0 (January) to 11. */
  datatype Month = Month(year: int, month: int)

  /** Appending leaves the earlier elements and every prefix of them in place. */
  lemma PrefixOfPrefix<T>(s: seq<T>, n: nat, j: nat)
    requires j <= n <= |s|
    ensures s[..n][..j] == s[..j]
  {
  }

  lemma AppendAssociative<T>(a: seq<T>, b: seq<T>, c: seq<T>)
    ensures (a + b) + c == a + (b + c)
  {
  }

  lemma SnocIndex<T>(a: seq<T>, x: T, j: nat)
    requires j <= |a|
    ensures (a + [x])[..j] == a[..j]
    ensures j < |a| ==> (a + [x])[j] == a[j]
    ensures j == |a| ==> (a + [x])[j] == x && (a + [x])[..j] == a
  {
  }

  function Max(a: int, b: int): int { if a >= b then a else b }

  function Min(a: int, b: int): int { if a <= b then a else b }

  /** `months.findIndex(m => m.year === year && m.month === month)`: the first matching
      position, or -1 when there is none. */
  function IndexOfMonth(months: seq<Month>, year: int, month: int): (i: int)
    ensures -1 <= i < |months|
    ensures i == -1 <==> Month(year, month) !in months
    ensures i >= 0 ==> months[i] == Month(year, month)
    ensures forall j :: 0 <= j < i ==> months[j] != Month(year, month)
  {
    if months == [] then -1
    else if months[0] == Month(year, month) then 0
    else
      var k := IndexOfMonth(months[1..], year, month);
      assert months == [months[0]] + months[1..];
      if k == -1 then -1 else k + 1
  }

  datatype ScaleName = Large | Small

  /** Pixel widths of one month and of one quarter-month column. */
  datatype TimelineScale = TimelineScale(value: ScaleName, monthWidth: real, quarterWidth: real)

  function ScaleOf(name: ScaleName): (s: TimelineScale)
    ensures s.value == name
    ensures s.quarterWidth * 4.0 == s.monthWidth
  {
    match name
    case Large => TimelineScale(Large, 32.0, 8.0)
    case Small => TimelineScale(Small, 26.0, 6.5)
  }

  const MAX_TITLE_LENGTH: nat := 55

  /** The four category colours, in palette order. */
  const PALETTE: seq<string> := ["#A770EC", "#FF7D05", "#259E23", "#4196E4"]

  const DEFAULT_CATEGORIES: seq<CategoryConfig> := [
    CategoryConfig("category_1", "Category 1", PALETTE[0], true),
    CategoryConfig("category_2", "Category 2", PALETTE[1], true),
    CategoryConfig("category_3", "Category 3", PALETTE[2], true),
    CategoryConfig("category_4", "Category 4", PALETTE[3], true)
  ]
}
