/**
  The table editor of components/Timeline/EventTableEditor.tsx. Its state
  (`activeCategory`, `emptyRows`, `draftEvents`, `hasChanges`) is the fields of an
  `EventTableEditor`; `crypto.randomUUID()` becomes a fresh-id parameter, and
  `onEventsChange` becomes the list `ApplyChanges` returns.
*/
module EventTableEditorModel {
  import opened Types
  import opened Strings

  const MAX_EMPTY_ROWS: nat := 10

  /** A `Partial<TimelineEvent>` as the inputs build it: the fields that are set. */
  datatype Change = Change(title: Option<string>, startDate: Option<string>,
                           endDate: Option<string>, category: Option<string>)

  function Pick(o: Option<string>, s: string): string {
    if o.Some? then o.value else s
  }

  /** `{ ...event, ...changes }`. */
  function Merge(e: Event, changes: Change): (r: Event)
    ensures r.id == e.id
    ensures changes == Change(None, None, None, None) ==> r == e
  {
    Event(e.id, Pick(changes.title, e.title), Pick(changes.startDate, e.startDate),
          Pick(changes.endDate, e.endDate), Pick(changes.category, e.category))
  }

  /** `isValidEvent`: a title that is not blank, a start date and a category. */
  predicate IsValidEvent(e: Event) {
    Trim(e.title) != [] && e.startDate != [] && e.category != []
  }

  /** A row in which nothing that counts has been entered (the end date does not count). */
  predicate IsBlankRow(e: Event) {
    Trim(e.title) == [] && e.startDate == [] && e.category == []
  }

  /** `canApplyChanges`. */
  function CanApply(hasChanges: bool, drafts: seq<Event>, emptyRows: seq<Event>): (r: bool)
    ensures r <==>
      (hasChanges && (forall i :: 0 <= i < |drafts| ==> IsValidEvent(drafts[i])) &&
       forall i :: 0 <= i < |emptyRows| ==> IsValidEvent(emptyRows[i]) || IsBlankRow(emptyRows[i]))
  {
    if !hasChanges then false
    else
      var allEventsValid := forall i :: 0 <= i < |drafts| ==> IsValidEvent(drafts[i]);
      var allEmptyRowsValid := forall i :: 0 <= i < |emptyRows| ==>
        var hasAnyField := Trim(emptyRows[i].title) != [] || emptyRows[i].startDate != [] || emptyRows[i].category != [];
        if hasAnyField then IsValidEvent(emptyRows[i]) else true;
      allEventsValid && allEmptyRowsValid
  }

  /** The events of one category, in order. */
  function OfCategory(events: seq<Event>, category: string): seq<Event> {
    if events == [] then []
    else
      var last := events[|events| - 1];
      OfCategory(events[..|events| - 1], category) + (if last.category == category then [last] else [])
  }

  lemma {:induction false} OfCategoryExactly(events: seq<Event>, category: string, e: Event)
    ensures e in OfCategory(events, category) <==> e in events && e.category == category
  {
    if events != [] {
      var init := events[..|events| - 1];
      OfCategoryExactly(init, category, e);
      assert events == init + [events[|events| - 1]];
    }
  }

  /** `displayEvents`: the drafts of the active category (all of them when there is none;
      an empty id counts as none), then every empty row. */
  function DisplayEvents(drafts: seq<Event>, activeCategory: Option<string>, emptyRows: seq<Event>): seq<Event> {
    var filtered := if activeCategory.None? || activeCategory.value == [] then drafts
                    else OfCategory(drafts, activeCategory.value);
    filtered + emptyRows
  }

  /** The display ends with all the empty rows; in front of them are exactly the drafts
      that pass the category filter. */
  lemma DisplayEventsShape(drafts: seq<Event>, activeCategory: Option<string>, emptyRows: seq<Event>, e: Event)
    ensures var d := DisplayEvents(drafts, activeCategory, emptyRows);
      |d| >= |emptyRows| && d[|d| - |emptyRows|..] == emptyRows &&
      (e in d[..|d| - |emptyRows|] <==>
         e in drafts && (activeCategory.None? || activeCategory.value == [] || e.category == activeCategory.value))
  {
    var d := DisplayEvents(drafts, activeCategory, emptyRows);
    if activeCategory.Some? && activeCategory.value != [] {
      OfCategoryExactly(drafts, activeCategory.value, e);
      assert d[..|d| - |emptyRows|] == OfCategory(drafts, activeCategory.value);
    } else {
      assert d[..|d| - |emptyRows|] == drafts;
    }
  }

  /** `rows.findIndex(row => row.id === id)`. */
  function RowIndex(rows: seq<Event>, id: string): (i: int)
    ensures -1 <= i < |rows|
    ensures i == -1 <==> forall j :: 0 <= j < |rows| ==> rows[j].id != id
    ensures i >= 0 ==> rows[i].id == id && forall j :: 0 <= j < i ==> rows[j].id != id
  {
    if rows == [] then -1
    else if rows[0].id == id then 0
    else
      var k := RowIndex(rows[1..], id);
      assert forall j :: 1 <= j < |rows| ==> rows[j] == rows[1..][j - 1];
      if k == -1 then -1 else k + 1
  }

  /** `rows.filter(row => row.id !== id)`. */
  function RemoveId(rows: seq<Event>, id: string): (r: seq<Event>)
    ensures |r| <= |rows|
  {
    if rows == [] then []
    else
      var last := rows[|rows| - 1];
      RemoveId(rows[..|rows| - 1], id) + (if last.id == id then [] else [last])
  }

  lemma {:induction false} RemoveIdExactly(rows: seq<Event>, id: string, e: Event)
    ensures e in RemoveId(rows, id) <==> e in rows && e.id != id
  {
    if rows != [] {
      var init := rows[..|rows| - 1];
      RemoveIdExactly(init, id, e);
      assert rows == init + [rows[|rows| - 1]];
    }
  }

  /** `draftEvents.map(evt => evt.id === id ? { ...evt, ...changes } : evt)`. */
  function MergeById(events: seq<Event>, id: string, changes: Change): (r: seq<Event>)
    ensures |r| == |events|
    ensures forall i :: 0 <= i < |events| ==> r[i] == if events[i].id == id then Merge(events[i], changes) else events[i]
  {
    if events == [] then [] else
      [if events[0].id == id then Merge(events[0], changes) else events[0]] + MergeById(events[1..], id, changes)
  }

  /** An edited empty row turned into an event: a fresh id, and the start date for a
      missing end date. */
  function Promote(row: Event, freshId: string): (e: Event)
    ensures e.id == freshId && DataOf(e).title == row.title && e.startDate == row.startDate
    ensures e.endDate == (if row.endDate == [] then row.startDate else row.endDate)
    ensures e.category == row.category
  {
    Event(freshId, row.title, row.startDate, if row.endDate != [] then row.endDate else row.startDate, row.category)
  }

  /** The change made by the start-date input: an end date that is set and earlier (as a
      string) than the new start is moved up to it. */
  function StartDateChange(event: Event, newDate: string): Change {
    Change(None, Some(newDate),
           Some(if event.endDate != [] && LexLess(event.endDate, newDate) then newDate else event.endDate), None)
  }

  /** After a start-date change the end date is empty or not before the start. */
  lemma StartDateChangeOrdersDates(event: Event, newDate: string)
    ensures var e := Merge(event, StartDateChange(event, newDate));
      e.startDate == newDate && (e.endDate == [] || !LexLess(e.endDate, e.startDate)) &&
      e.title == event.title && e.category == event.category &&
      (e.endDate == event.endDate || LexLess(event.endDate, newDate))
  {
    LexLessIrreflexive(newDate);
  }

  class EventTableEditor {
    var activeCategory: Option<string>
    var emptyRows: seq<Event>
    var draftEvents: seq<Event>
    var hasChanges: bool

    /** At most ten empty rows at a time. */
    predicate Valid()
      reads this
    {
      |emptyRows| <= MAX_EMPTY_ROWS
    }

    constructor(events: seq<Event>)
      ensures activeCategory == None && emptyRows == [] && draftEvents == events && !hasChanges && Valid()
    {
      activeCategory := None;
      emptyRows := [];
      draftEvents := events;
      hasChanges := false;
    }

    /** The effect when the modal opens: the drafts start again from the events. */
    method Open(events: seq<Event>)
      modifies this
      ensures draftEvents == events && emptyRows == [] && !hasChanges && activeCategory == old(activeCategory)
      ensures Valid()
    {
      draftEvents := events;
      emptyRows := [];
      hasChanges := false;
    }

    method SetActiveCategory(category: Option<string>)
      modifies this
      ensures activeCategory == category && emptyRows == old(emptyRows)
      ensures draftEvents == old(draftEvents) && hasChanges == old(hasChanges)
    {
      activeCategory := category;
    }

    method DeleteEvent(eventId: string)
      modifies this
      ensures draftEvents == RemoveId(old(draftEvents), eventId) && hasChanges
      ensures emptyRows == old(emptyRows) && activeCategory == old(activeCategory)
    {
      draftEvents := RemoveId(draftEvents, eventId);
      hasChanges := true;
    }

    /** `handleEventChange`. An empty row takes the change and, once valid, leaves the
        empty rows and joins the drafts; any other id edits the drafts. */
    method EventChange(id: string, changes: Change, freshId: string)
      requires Valid()
      modifies this
      ensures hasChanges && activeCategory == old(activeCategory) && Valid()
      ensures var k := RowIndex(old(emptyRows), id);
        k == -1 ==> draftEvents == MergeById(old(draftEvents), id, changes) && emptyRows == old(emptyRows)
      ensures var k := RowIndex(old(emptyRows), id);
        k >= 0 && !IsValidEvent(Merge(old(emptyRows)[k], changes)) ==>
          draftEvents == old(draftEvents) && emptyRows == old(emptyRows)[k := Merge(old(emptyRows)[k], changes)]
      ensures var k := RowIndex(old(emptyRows), id);
        k >= 0 && IsValidEvent(Merge(old(emptyRows)[k], changes)) ==>
          draftEvents == old(draftEvents) + [Promote(Merge(old(emptyRows)[k], changes), freshId)] &&
          emptyRows == RemoveId(old(emptyRows)[k := Merge(old(emptyRows)[k], changes)], id)
    {
      var emptyRowIndex := RowIndex(emptyRows, id);
      if emptyRowIndex != -1 {
        var updatedEmptyRows := emptyRows[emptyRowIndex := Merge(emptyRows[emptyRowIndex], changes)];
        emptyRows := updatedEmptyRows;
        var updatedRow := updatedEmptyRows[emptyRowIndex];
        if IsValidEvent(updatedRow) {
          draftEvents := draftEvents + [Promote(updatedRow, freshId)];
          emptyRows := RemoveId(updatedEmptyRows, id);
        }
      } else {
        draftEvents := MergeById(draftEvents, id, changes);
      }
      hasChanges := true;
    }

    /** `handleAddRow`: a blank row, only while fewer than ten exist. */
    method AddRow(freshId: string)
      requires Valid()
      modifies this
      ensures |old(emptyRows)| < MAX_EMPTY_ROWS ==> emptyRows == old(emptyRows) + [Event(freshId, [], [], [], [])]
      ensures |old(emptyRows)| >= MAX_EMPTY_ROWS ==> emptyRows == old(emptyRows)
      ensures draftEvents == old(draftEvents) && hasChanges == old(hasChanges) && Valid()
      ensures activeCategory == old(activeCategory)
    {
      if |emptyRows| < MAX_EMPTY_ROWS {
        emptyRows := emptyRows + [Event(freshId, [], [], [], [])];
      }
    }

    /** `handleDeleteEmptyRow`; unlike the other edits it leaves `hasChanges` alone. */
    method DeleteEmptyRow(rowId: string)
      requires Valid()
      modifies this
      ensures emptyRows == RemoveId(old(emptyRows), rowId) && Valid()
      ensures draftEvents == old(draftEvents) && hasChanges == old(hasChanges)
      ensures activeCategory == old(activeCategory)
    {
      emptyRows := RemoveId(emptyRows, rowId);
    }

    /** The delete button of a displayed row. */
    method DeleteRow(id: string)
      requires Valid()
      modifies this
      ensures (exists i :: 0 <= i < |old(emptyRows)| && old(emptyRows)[i].id == id) ==>
        emptyRows == RemoveId(old(emptyRows), id) && draftEvents == old(draftEvents) && hasChanges == old(hasChanges)
      ensures (forall i :: 0 <= i < |old(emptyRows)| ==> old(emptyRows)[i].id != id) ==>
        draftEvents == RemoveId(old(draftEvents), id) && emptyRows == old(emptyRows) && hasChanges
      ensures activeCategory == old(activeCategory) && Valid()
    {
      if RowIndex(emptyRows, id) != -1 {
        DeleteEmptyRow(id);
      } else {
        DeleteEvent(id);
      }
    }

    /** `handleApplyChanges`: the drafts are handed on (and the modal closed) only when
        the changes can be applied. */
    method ApplyChanges() returns (forwarded: Option<seq<Event>>)
      ensures forwarded.Some? <==> CanApply(hasChanges, draftEvents, emptyRows)
      ensures forwarded.Some? ==> forwarded.value == draftEvents
    {
      if !CanApply(hasChanges, draftEvents, emptyRows) {
        return None;
      }
      return Some(draftEvents);
    }
  }

  /** A promoted row is a valid event, and no row with its id is left among the empty
      rows. */
  lemma PromotedRowLeaves(rows: seq<Event>, k: nat, changes: Change, id: string, freshId: string)
    requires k < |rows| && rows[k].id == id && IsValidEvent(Merge(rows[k], changes))
    ensures IsValidEvent(Promote(Merge(rows[k], changes), freshId))
    ensures forall e :: e in RemoveId(rows[k := Merge(rows[k], changes)], id) ==> e.id != id
  {
    forall e | e in RemoveId(rows[k := Merge(rows[k], changes)], id) ensures e.id != id {
      RemoveIdExactly(rows[k := Merge(rows[k], changes)], id, e);
    }
  }
}
