/**
  The diff-based save of src/utils/saveEvents.ts: the client's events are compared with
  the server's rows of the same timeline and sorted into rows to insert, rows to update
  and ids to delete. The queries themselves are replaced by `Apply`, which does to a list
  of rows what the UPDATE, DELETE and INSERT statements do to the table.

  A server row is an `Event` whose fields are the columns `id`, `title`, `start_date`,
  `end_date` and `category`.
*/
module SaveEvents {
  import opened Types

  /** No two rows share an id. */
  predicate UniqueIds(s: seq<Event>) {
    forall i, j :: 0 <= i < j < |s| ==> s[i].id != s[j].id
  }

  function IdsOf(s: seq<Event>): set<string> {
    set e | e in s :: e.id
  }

  /** `new Map(serverEvents.map(e => [e.id, e]))`: a later row replaces an earlier one
      with the same id. */
  function ServerMap(server: seq<Event>): (m: map<string, Event>)
    ensures m.Keys == IdsOf(server)
    ensures forall id :: id in m ==> m[id] in server && m[id].id == id
  {
    if server == [] then map[]
    else
      var init := server[..|server| - 1];
      var last := server[|server| - 1];
      assert server == init + [last];
      ServerMap(init)[last.id := last]
  }

  /** With unique ids the map holds every row under its own id. */
  lemma ServerMapHolds(server: seq<Event>, r: Event)
    requires UniqueIds(server) && r in server
    ensures r.id in ServerMap(server) && ServerMap(server)[r.id] == r
  {
    var m := ServerMap(server);
    var x :| x in server && x == m[r.id];
    var i :| 0 <= i < |server| && server[i] == r;
    var j :| 0 <= j < |server| && server[j] == x;
  }

  /** The update condition: some column differs from the client's field. */
  predicate Differs(existing: Event, event: Event) {
    existing.title != event.title || existing.startDate != event.startDate ||
    existing.endDate != event.endDate || existing.category != event.category
  }

  /** The client events without a server row, in client order. */
  function Inserts(client: seq<Event>, serverMap: map<string, Event>): seq<Event> {
    if client == [] then []
    else
      var last := client[|client| - 1];
      Inserts(client[..|client| - 1], serverMap) + (if last.id !in serverMap then [last] else [])
  }

  /** The client events whose server row differs, in client order. */
  function Updates(client: seq<Event>, serverMap: map<string, Event>): seq<Event> {
    if client == [] then []
    else
      var last := client[|client| - 1];
      Updates(client[..|client| - 1], serverMap) +
      (if last.id in serverMap && Differs(serverMap[last.id], last) then [last] else [])
  }

  /** `serverEvents.filter(e => !clientIds.has(e.id)).map(e => e.id)`. */
  function DeleteIds(server: seq<Event>, clientIds: set<string>): seq<string> {
    if server == [] then []
    else
      var last := server[|server| - 1];
      DeleteIds(server[..|server| - 1], clientIds) + (if last.id !in clientIds then [last.id] else [])
  }

  datatype SavePlan = SavePlan(toInsert: seq<Event>, toUpdate: seq<Event>, toDeleteIds: seq<string>)

  function PlanOf(client: seq<Event>, server: seq<Event>): SavePlan {
    SavePlan(Inserts(client, ServerMap(server)), Updates(client, ServerMap(server)),
             DeleteIds(server, IdsOf(client)))
  }

  /** Step 2 of `saveTimelineEvents`: the classification loop and the delete filter. */
  method Classify(client: seq<Event>, server: seq<Event>) returns (plan: SavePlan)
    ensures plan == PlanOf(client, server)
  {
    var serverMap := ServerMap(server);
    var clientIds := IdsOf(client);
    var toInsert: seq<Event> := [];
    var toUpdate: seq<Event> := [];
    for k := 0 to |client|
      invariant toInsert == Inserts(client[..k], serverMap)
      invariant toUpdate == Updates(client[..k], serverMap)
    {
      var event := client[k];
      assert client[..k + 1][..k] == client[..k];
      if event.id !in serverMap {
        toInsert := toInsert + [event];
      } else if Differs(serverMap[event.id], event) {
        toUpdate := toUpdate + [event];
      }
    }
    assert client[..|client|] == client;
    plan := SavePlan(toInsert, toUpdate, DeleteIds(server, clientIds));
  }

  // ---------------------------------------------------------------------------
  // What the three lists hold
  // ---------------------------------------------------------------------------

  lemma {:induction false} InsertsExactly(client: seq<Event>, serverMap: map<string, Event>, e: Event)
    ensures e in Inserts(client, serverMap) <==> e in client && e.id !in serverMap
  {
    if client != [] {
      var init := client[..|client| - 1];
      InsertsExactly(init, serverMap, e);
      assert client == init + [client[|client| - 1]];
    }
  }

  /** `toInsert` is in client order, repeats kept: the classification distributes over
      concatenation, and one event is inserted exactly when the server lacks its id. */
  lemma {:induction false} InsertsAppend(a: seq<Event>, b: seq<Event>, serverMap: map<string, Event>)
    ensures Inserts(a + b, serverMap) == Inserts(a, serverMap) + Inserts(b, serverMap)
  {
    if b == [] {
      assert a + b == a;
    } else {
      var init := b[..|b| - 1];
      assert (a + b)[..|a + b| - 1] == a + init;
      assert (a + b)[|a + b| - 1] == b[|b| - 1];
      InsertsAppend(a, init, serverMap);
    }
  }

  lemma InsertsSingle(e: Event, serverMap: map<string, Event>)
    ensures Inserts([e], serverMap) == (if e.id !in serverMap then [e] else [])
  {
    assert [e][..0] == [];
  }

  lemma {:induction false} UpdatesExactly(client: seq<Event>, serverMap: map<string, Event>, e: Event)
    ensures e in Updates(client, serverMap) <==>
      e in client && e.id in serverMap && Differs(serverMap[e.id], e)
  {
    if client != [] {
      var init := client[..|client| - 1];
      UpdatesExactly(init, serverMap, e);
      assert client == init + [client[|client| - 1]];
    }
  }

  lemma {:induction false} DeleteIdsExactly(server: seq<Event>, clientIds: set<string>, id: string)
    ensures id in DeleteIds(server, clientIds) <==> id in IdsOf(server) && id !in clientIds
  {
    if server != [] {
      var init := server[..|server| - 1];
      var last := server[|server| - 1];
      DeleteIdsExactly(init, clientIds, id);
      assert server == init + [last];
      assert IdsOf(server) == IdsOf(init) + {last.id};
    }
  }

  /** `toDeleteIds` is in server order, repeats kept: the filter distributes over
      concatenation, and one row's id is deleted exactly when the client lacks it. */
  lemma {:induction false} DeleteIdsAppend(a: seq<Event>, b: seq<Event>, clientIds: set<string>)
    ensures DeleteIds(a + b, clientIds) == DeleteIds(a, clientIds) + DeleteIds(b, clientIds)
  {
    if b == [] {
      assert a + b == a;
    } else {
      var init := b[..|b| - 1];
      assert (a + b)[..|a + b| - 1] == a + init;
      assert (a + b)[|a + b| - 1] == b[|b| - 1];
      DeleteIdsAppend(a, init, clientIds);
    }
  }

  lemma DeleteIdsSingle(e: Event, clientIds: set<string>)
    ensures DeleteIds([e], clientIds) == (if e.id !in clientIds then [e.id] else [])
  {
    assert [e][..0] == [];
  }

  /** No client event is both inserted and updated, and one equal to its server row is
      neither. */
  lemma InsertAndUpdateDisjoint(client: seq<Event>, server: seq<Event>, e: Event)
    ensures var plan := PlanOf(client, server);
      !(e in plan.toInsert && e in plan.toUpdate) &&
      (e.id in ServerMap(server) && ServerMap(server)[e.id] == e ==>
        e !in plan.toInsert && e !in plan.toUpdate)
  {
    InsertsExactly(client, ServerMap(server), e);
    UpdatesExactly(client, ServerMap(server), e);
  }

  /** No deleted id is a client id. */
  lemma DeletesAreNotClientIds(client: seq<Event>, server: seq<Event>, e: Event)
    requires e in client
    ensures e.id !in PlanOf(client, server).toDeleteIds
  {
    DeleteIdsExactly(server, IdsOf(client), e.id);
  }

  /** An empty client list deletes every server row and writes nothing. */
  lemma {:induction false} EmptyClientDeletesAll(server: seq<Event>)
    ensures PlanOf([], server) == SavePlan([], [], IdsInOrder(server))
  {
    assert IdsOf([]) == {};
    EveryIdDeleted(server);
  }

  /** The ids of the rows, in row order. */
  function IdsInOrder(s: seq<Event>): (ids: seq<string>)
    ensures |ids| == |s|
    ensures forall i :: 0 <= i < |s| ==> ids[i] == s[i].id
  {
    if s == [] then [] else IdsInOrder(s[..|s| - 1]) + [s[|s| - 1].id]
  }

  lemma {:induction false} EveryIdDeleted(server: seq<Event>)
    ensures DeleteIds(server, {}) == IdsInOrder(server)
  {
    if server != [] {
      EveryIdDeleted(server[..|server| - 1]);
    }
  }

  // ---------------------------------------------------------------------------
  // Applying the plan
  // ---------------------------------------------------------------------------

  /** A row after the update statements: `update(...).eq('id', event.id)` for each
      update in turn, so the last update with the row's id decides its columns. */
  function UpdateRow(r: Event, updates: seq<Event>): (u: Event)
    ensures u.id == r.id
  {
    if updates == [] then r
    else
      var last := updates[|updates| - 1];
      if last.id == r.id then last else UpdateRow(r, updates[..|updates| - 1])
  }

  function UpdateRows(rows: seq<Event>, updates: seq<Event>): (r: seq<Event>)
    ensures |r| == |rows|
    ensures forall i :: 0 <= i < |rows| ==> r[i] == UpdateRow(rows[i], updates)
  {
    if rows == [] then [] else [UpdateRow(rows[0], updates)] + UpdateRows(rows[1..], updates)
  }

  /** `delete().in('id', toDeleteIds)`. */
  function DeleteRows(rows: seq<Event>, ids: seq<string>): seq<Event> {
    if rows == [] then []
    else
      var last := rows[|rows| - 1];
      DeleteRows(rows[..|rows| - 1], ids) + (if last.id in ids then [] else [last])
  }

  /** The table after UPDATE, then DELETE, then INSERT. */
  function Apply(server: seq<Event>, plan: SavePlan): seq<Event> {
    DeleteRows(UpdateRows(server, plan.toUpdate), plan.toDeleteIds) + plan.toInsert
  }

  /** The row is not touched by updates with other ids. */
  lemma {:induction false} UpdateRowUntouched(r: Event, updates: seq<Event>)
    requires forall u :: u in updates ==> u.id != r.id
    ensures UpdateRow(r, updates) == r
  {
    if updates != [] {
      var init := updates[..|updates| - 1];
      assert forall u :: u in init ==> u in updates;
      UpdateRowUntouched(r, init);
    }
  }

  /** The row takes the columns of its one update. */
  lemma {:induction false} UpdateRowTaken(r: Event, updates: seq<Event>, c: Event)
    requires c in updates && c.id == r.id
    requires forall u :: u in updates && u.id == r.id ==> u == c
    ensures UpdateRow(r, updates) == c
  {
    var init := updates[..|updates| - 1];
    var last := updates[|updates| - 1];
    assert updates == init + [last];
    if last.id != r.id {
      assert c in init;
      assert forall u :: u in init ==> u in updates;
      UpdateRowTaken(r, init, c);
    }
  }

  lemma {:induction false} DeleteRowsExactly(rows: seq<Event>, ids: seq<string>, e: Event)
    ensures e in DeleteRows(rows, ids) <==> e in rows && e.id !in ids
  {
    if rows != [] {
      var init := rows[..|rows| - 1];
      DeleteRowsExactly(init, ids, e);
      assert rows == init + [rows[|rows| - 1]];
    }
  }

  /** Deleting keeps a subsequence, so distinct ids stay distinct. */
  lemma {:induction false} DeleteRowsUnique(rows: seq<Event>, ids: seq<string>)
    requires UniqueIds(rows)
    ensures UniqueIds(DeleteRows(rows, ids))
  {
    if rows != [] {
      var init := rows[..|rows| - 1];
      var last := rows[|rows| - 1];
      DeleteRowsUnique(init, ids);
      forall e | e in DeleteRows(init, ids) ensures e.id != last.id {
        DeleteRowsExactly(init, ids, e);
      }
    }
  }

  lemma {:induction false} InsertsUnique(client: seq<Event>, serverMap: map<string, Event>)
    requires UniqueIds(client)
    ensures UniqueIds(Inserts(client, serverMap))
  {
    if client != [] {
      var init := client[..|client| - 1];
      var last := client[|client| - 1];
      InsertsUnique(init, serverMap);
      forall e | e in Inserts(init, serverMap) ensures e.id != last.id {
        InsertsExactly(init, serverMap, e);
      }
    }
  }

  /** The client event with a given id. */
  lemma ClientEventOf(client: seq<Event>, c: Event, u: Event)
    requires UniqueIds(client) && c in client && u in client && u.id == c.id
    ensures u == c
  {
  }

  /** An update with a client event's id is that event. */
  lemma UpdatesWithId(client: seq<Event>, serverMap: map<string, Event>, c: Event)
    requires UniqueIds(client) && c in client
    ensures forall u :: u in Updates(client, serverMap) && u.id == c.id ==> u == c
  {
    forall u | u in Updates(client, serverMap) && u.id == c.id ensures u == c {
      UpdatesExactly(client, serverMap, u);
      ClientEventOf(client, c, u);
    }
  }

  /** A server row after the updates is the client event with its id, when there is
      one. */
  lemma UpdatedServerRow(client: seq<Event>, server: seq<Event>, r: Event, c: Event)
    requires UniqueIds(client) && UniqueIds(server) && r in server && c in client && c.id == r.id
    ensures UpdateRow(r, PlanOf(client, server).toUpdate) == c
  {
    var sm := ServerMap(server);
    var updates := Updates(client, sm);
    ServerMapHolds(server, r);
    UpdatesWithId(client, sm, c);
    UpdatesExactly(client, sm, c);
    if Differs(r, c) {
      UpdateRowTaken(r, updates, c);
    } else {
      UpdateRowUntouched(r, updates);
    }
  }

  /** A server row whose id the client does not hold is left as it is by the updates. */
  lemma UntouchedServerRow(client: seq<Event>, server: seq<Event>, r: Event)
    requires r.id !in IdsOf(client)
    ensures UpdateRow(r, PlanOf(client, server).toUpdate) == r
  {
    forall u | u in PlanOf(client, server).toUpdate ensures u.id != r.id {
      UpdatesExactly(client, ServerMap(server), u);
    }
    UpdateRowUntouched(r, PlanOf(client, server).toUpdate);
  }

  /** The rows that survive the delete are the updated server rows with client ids. */
  lemma KeptRow(client: seq<Event>, server: seq<Event>, e: Event)
    requires UniqueIds(client) && UniqueIds(server)
    ensures var plan := PlanOf(client, server);
      e in DeleteRows(UpdateRows(server, plan.toUpdate), plan.toDeleteIds) <==>
        e in client && e.id in IdsOf(server)
  {
    var plan := PlanOf(client, server);
    var updated := UpdateRows(server, plan.toUpdate);
    DeleteRowsExactly(updated, plan.toDeleteIds, e);
    DeleteIdsExactly(server, IdsOf(client), e.id);
    if e in updated && e.id !in plan.toDeleteIds {
      var i :| 0 <= i < |updated| && updated[i] == e;
      var c :| c in client && c.id == e.id;
      UpdatedServerRow(client, server, server[i], c);
    }
    if e in client && e.id in IdsOf(server) {
      var r :| r in server && r.id == e.id;
      UpdatedServerRow(client, server, r, e);
      var i :| 0 <= i < |server| && server[i] == r;
      assert updated[i] == e;
    }
  }

  /** Applying the plan to the server rows gives the client's events: every client event
      is a row and every row is a client event, with no id twice, when neither side
      holds an id twice. */
  lemma SaveRoundTrip(client: seq<Event>, server: seq<Event>)
    requires UniqueIds(client) && UniqueIds(server)
    ensures var rows := Apply(server, PlanOf(client, server));
      (forall e :: e in rows <==> e in client) && UniqueIds(rows)
  {
    var plan := PlanOf(client, server);
    var kept := DeleteRows(UpdateRows(server, plan.toUpdate), plan.toDeleteIds);
    var rows := Apply(server, plan);
    forall e ensures e in rows <==> e in client {
      KeptRow(client, server, e);
      InsertsExactly(client, ServerMap(server), e);
    }
    RowsUnique(client, server, kept, plan.toInsert);
  }

  lemma RowsUnique(client: seq<Event>, server: seq<Event>, kept: seq<Event>, inserts: seq<Event>)
    requires UniqueIds(client) && UniqueIds(server)
    requires kept == DeleteRows(UpdateRows(server, PlanOf(client, server).toUpdate), PlanOf(client, server).toDeleteIds)
    requires inserts == PlanOf(client, server).toInsert
    ensures UniqueIds(kept + inserts)
  {
    UpdatedRowsUnique(server, PlanOf(client, server).toUpdate);
    DeleteRowsUnique(UpdateRows(server, PlanOf(client, server).toUpdate), PlanOf(client, server).toDeleteIds);
    InsertsUnique(client, ServerMap(server));
    forall i, j | 0 <= i < |kept| && 0 <= j < |inserts| ensures kept[i].id != inserts[j].id {
      KeptRow(client, server, kept[i]);
      InsertsExactly(client, ServerMap(server), inserts[j]);
    }
    UniqueAppend(kept, inserts);
  }

  lemma UpdatedRowsUnique(rows: seq<Event>, updates: seq<Event>)
    requires UniqueIds(rows)
    ensures UniqueIds(UpdateRows(rows, updates))
  {
  }

  lemma UniqueAppend(a: seq<Event>, b: seq<Event>)
    requires UniqueIds(a) && UniqueIds(b)
    requires forall i, j :: 0 <= i < |a| && 0 <= j < |b| ==> a[i].id != b[j].id
    ensures UniqueIds(a + b)
  {
    var s := a + b;
    forall i, j | 0 <= i < j < |s| ensures s[i].id != s[j].id {
      if j < |a| {
        assert s[i] == a[i] && s[j] == a[j];
      } else if i >= |a| {
        assert s[i] == b[i - |a|] && s[j] == b[j - |a|];
      } else {
        assert s[i] == a[i] && s[j] == b[j - |a|];
      }
    }
  }
}
