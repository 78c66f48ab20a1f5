/**
  The event list of src/hooks/useEvents.ts. The React state `events` is the field of an
  `EventStore`; each callback replaces it. `crypto.randomUUID()` becomes a fresh-id
  parameter, and `alert` becomes a returned flag.
*/
module UseEvents {
  import opened Types

  /** `prev.map(event => event.id === updatedEvent.id ? updatedEvent : event)`. */
  function ReplaceById(events: seq<Event>, updated: Event): (r: seq<Event>)
    ensures |r| == |events|
  {
    if events == [] then []
    else [if events[0].id == updated.id then updated else events[0]] + ReplaceById(events[1..], updated)
  }

  /** Every event with the updated id is replaced, and every other one stays. */
  lemma {:induction false} ReplaceByIdAt(events: seq<Event>, updated: Event, i: nat)
    requires i < |events|
    ensures ReplaceById(events, updated)[i] == if events[i].id == updated.id then updated else events[i]
  {
    if i > 0 {
      ReplaceByIdAt(events[1..], updated, i - 1);
    }
  }

  /** An update whose id is absent changes nothing. */
  lemma {:induction false} ReplaceAbsentId(events: seq<Event>, updated: Event)
    requires forall e :: e in events ==> e.id != updated.id
    ensures ReplaceById(events, updated) == events
  {
    if events != [] {
      assert forall e :: e in events[1..] ==> e in events;
      ReplaceAbsentId(events[1..], updated);
    }
  }

  /** The duplicate test of `addEvents`: some existing event has the same title, dates
      and category. */
  predicate IsDuplicate(existing: seq<Event>, e: Event) {
    exists x :: x in existing && DataOf(x) == DataOf(e)
  }

  /** `eventsWithIds.filter(newEvent => !isDuplicate)`. */
  function Survivors(batch: seq<Event>, existing: seq<Event>): seq<Event> {
    if batch == [] then []
    else
      var last := batch[|batch| - 1];
      Survivors(batch[..|batch| - 1], existing) + (if IsDuplicate(existing, last) then [] else [last])
  }

  lemma {:induction false} SurvivorsExactly(batch: seq<Event>, existing: seq<Event>, e: Event)
    ensures e in Survivors(batch, existing) <==> e in batch && !IsDuplicate(existing, e)
  {
    if batch != [] {
      var init := batch[..|batch| - 1];
      SurvivorsExactly(init, existing, e);
      assert batch == init + [batch[|batch| - 1]];
    }
  }

  /** The survivors are in batch order, repeats kept: the filter distributes over
      concatenation, and one event survives exactly when it is not a duplicate. */
  lemma {:induction false} SurvivorsAppend(a: seq<Event>, b: seq<Event>, existing: seq<Event>)
    ensures Survivors(a + b, existing) == Survivors(a, existing) + Survivors(b, existing)
  {
    if b == [] {
      assert a + b == a;
    } else {
      var init := b[..|b| - 1];
      assert (a + b)[..|a + b| - 1] == a + init;
      assert (a + b)[|a + b| - 1] == b[|b| - 1];
      SurvivorsAppend(a, init, existing);
    }
  }

  lemma SurvivorsSingle(e: Event, existing: seq<Event>)
    ensures Survivors([e], existing) == (if IsDuplicate(existing, e) then [] else [e])
  {
    assert [e][..0] == [];
  }

  /** Only duplicates of existing events are dropped: a batch none of whose events is
      already there survives whole, repeats included. */
  lemma {:induction false} BatchKeepsOwnRepeats(batch: seq<Event>, existing: seq<Event>)
    requires forall i :: 0 <= i < |batch| ==> !IsDuplicate(existing, batch[i])
    ensures Survivors(batch, existing) == batch
  {
    if batch != [] {
      BatchKeepsOwnRepeats(batch[..|batch| - 1], existing);
    }
  }

  /** Each event of the batch with its fresh id. */
  function WithIds(batch: seq<EventData>, ids: seq<string>): (r: seq<Event>)
    requires |ids| == |batch|
    ensures |r| == |batch|
    ensures forall i :: 0 <= i < |batch| ==> r[i] == WithId(batch[i], ids[i])
  {
    if batch == [] then [] else [WithId(batch[0], ids[0])] + WithIds(batch[1..], ids[1..])
  }

  /** The list after `addEvents`: unchanged for an empty batch or when every new event is
      a duplicate, otherwise extended by the survivors. */
  function AddedEvents(prev: seq<Event>, batch: seq<Event>): seq<Event> {
    if batch == [] then prev
    else
      var unique := Survivors(batch, prev);
      if unique == [] then prev else prev + unique
  }

  /** The old list is always a prefix of the new one, and the added part is the
      survivors of the batch, in batch order with repeats kept (the empty cases included). */
  lemma AddedEventsExtends(prev: seq<Event>, batch: seq<Event>)
    ensures var r := AddedEvents(prev, batch);
      r == prev + Survivors(batch, prev) &&
      prev <= r && (forall e :: e in r[|prev|..] <==> e in batch && !IsDuplicate(prev, e))
  {
    if batch == [] {
      assert Survivors(batch, prev) == [];
    }
    assert prev + [] == prev;
    forall e ensures e in AddedEvents(prev, batch)[|prev|..] <==> e in batch && !IsDuplicate(prev, e) {
      SurvivorsExactly(batch, prev, e);
    }
  }

  class EventStore {
    var events: seq<Event>

    constructor()
      ensures events == []
    {
      events := [];
    }

    /** `addEvent`: the event with a fresh id goes to the end. */
    method AddEvent(event: EventData, freshId: string)
      modifies this
      ensures events == old(events) + [WithId(event, freshId)]
    {
      events := events + [WithId(event, freshId)];
    }

    method UpdateEvent(updatedEvent: Event)
      modifies this
      ensures events == ReplaceById(old(events), updatedEvent)
    {
      events := ReplaceById(events, updatedEvent);
    }

    /** `addEvents`; `allDuplicates` says whether the "already exist" alert was shown. */
    method AddEvents(newEvents: seq<EventData>, freshIds: seq<string>) returns (allDuplicates: bool)
      requires |freshIds| == |newEvents|
      modifies this
      ensures events == AddedEvents(old(events), WithIds(newEvents, freshIds))
      ensures allDuplicates <==> newEvents != [] && Survivors(WithIds(newEvents, freshIds), old(events)) == []
    {
      allDuplicates := false;
      if |newEvents| == 0 {
        return;
      }
      var eventsWithIds := WithIds(newEvents, freshIds);
      var uniqueEvents := Survivors(eventsWithIds, events);
      if |uniqueEvents| == 0 {
        allDuplicates := true;
        return;
      }
      events := events + uniqueEvents;
    }

    method ClearEvents()
      modifies this
      ensures events == []
    {
      events := [];
    }
  }
}
