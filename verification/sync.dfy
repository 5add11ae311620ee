/**
 * The sync procedures of src/pages/Events/sync.ts: the fetch results are
 * given (index i of `responses` belongs to `events[i]`), each procedure
 * changes one table in place and reports failures to the error-modal log.
 */
module Sync {
  import opened Responses
  import opened Matching
  import opened Tables
  import opened Store

  // ---------------------------------------------------------------------------
  // The cached entities. Dates and the registration data are carried as the
  // text the server sends; nothing here interprets them.

  /** The server-owned fields of an event. */
  datatype EventFields = EventFields(title: string, date: string)

  /** The server-owned fields of a registration form. */
  datatype RegformFields = RegformFields(title: string, isOpen: bool, registrationCount: int, checkedInCount: int)

  /** The server-owned fields of a participant. */
  datatype ParticipantFields = ParticipantFields(
    fullName: string, registrationDate: string, registrationData: string, state: string,
    checkinSecret: string, checkedIn: bool, checkedInDt: Option<string>, occupiedSlots: int,
    price: real, currency: string, formattedPrice: string, isPaid: bool)

  /** An event row (its parent is its server); it has no local-only fields. */
  type EventRow = Row<EventFields, ()>

  /** A regform row (its parent is its event); it has no local-only fields. */
  type RegformRow = Row<RegformFields, ()>

  /** A participant row (its parent is its regform); its local-only field is `notes`. */
  type ParticipantRow = Row<ParticipantFields, string>

  /** What the server returns for an event. */
  datatype EventData = EventData(id: int, title: string, startDt: string)

  /** What the server returns for a registration form. */
  datatype RegformData = RegformData(id: int, title: string, isOpen: bool, registrationCount: int, checkedInCount: int)

  /** What the server returns for a participant. */
  datatype ParticipantData = ParticipantData(
    id: int, fullName: string, registrationDate: string, registrationData: string, state: string,
    checkinSecret: string, checkedIn: bool, checkedInDt: Option<string>, occupiedSlots: int,
    price: real, currency: string, formattedPrice: string, isPaid: bool)

  const EventsMessage: string := "Something went wrong when updating events"
  const RegformsMessage: string := "Something went wrong when updating registration forms"
  const RegformMessage: string := "Something went wrong when updating registration form"
  const ParticipantsMessage: string := "Something went wrong when updating participants"
  const ParticipantMessage: string := "Something went wrong when updating participant"

  /** The notes a participant inserted by a sync starts with. */
  const NewParticipantNotes: string := ""

  // ---------------------------------------------------------------------------
  // Update payloads: the server's `id` becomes `indicoId`, the rest is copied.

  function RegformPayload(d: RegformData): (r: Remote<RegformFields>)
    ensures r.indicoId == d.id
  {
    Remote(d.id, RegformFields(d.title, d.isOpen, d.registrationCount, d.checkedInCount))
  }

  function ParticipantPayload(d: ParticipantData): (r: Remote<ParticipantFields>)
    ensures r.indicoId == d.id
  {
    Remote(d.id, ParticipantFields(
      d.fullName, d.registrationDate, d.registrationData, d.state, d.checkinSecret, d.checkedIn,
      d.checkedInDt, d.occupiedSlots, d.price, d.currency, d.formattedPrice, d.isPaid))
  }

  function RegformPayloads(ds: seq<RegformData>): (r: seq<Remote<RegformFields>>)
    ensures |r| == |ds| && forall i :: 0 <= i < |ds| ==> r[i] == RegformPayload(ds[i])
  {
    seq(|ds|, i requires 0 <= i < |ds| => RegformPayload(ds[i]))
  }

  function ParticipantPayloads(ds: seq<ParticipantData>): (r: seq<Remote<ParticipantFields>>)
    ensures |r| == |ds| && forall i :: 0 <= i < |ds| ==> r[i] == ParticipantPayload(ds[i])
  {
    seq(|ds|, i requires 0 <= i < |ds| => ParticipantPayload(ds[i]))
  }

  /** `update(id, {indicoId: id, title, date})` with an event record: only those three fields change. */
  function RefreshEvent(row: EventRow, d: EventData): (r: EventRow)
    ensures r == row.(indicoId := d.id, data := EventFields(d.title, d.startDt))
  {
    row.WithRemote(Remote(d.id, EventFields(d.title, d.startDt)))
  }

  /** `update(id, {indicoId: id, title, isOpen, registrationCount, checkedInCount})`. */
  function RefreshRegform(row: RegformRow, d: RegformData): (r: RegformRow)
    ensures r.id == row.id && r.parentId == row.parentId && r.deleted == row.deleted
    ensures r.indicoId == d.id && r.data == RegformFields(d.title, d.isOpen, d.registrationCount, d.checkedInCount)
  {
    row.WithRemote(RegformPayload(d))
  }

  // ---------------------------------------------------------------------------
  // Outcome routing of one fetched item.

  /**
   * The table after the outcome of one item fetch: on success the stored row
   * is refreshed, on status 404 it is soft-deleted, on any other failure the
   * table is left alone. A missing key is skipped.
   */
  function ItemAfter<F, L, D>(rows: map<nat, Row<F, L>>, key: nat, response: Response<D>, refresh: (Row<F, L>, D) -> Row<F, L>): map<nat, Row<F, L>> {
    match response
    case Ok(d) => if key in rows then rows[key := refresh(rows[key], d)] else rows
    case Failed(f) => if f.status == 404 then SoftDeleteRow(rows, key) else rows
  }

  /** The modals the outcome of one item fetch shows: only a failure other than 404 can show one. */
  function ItemModals<D>(response: Response<D>, msg: string): seq<ErrorModal> {
    if response.Failed? && response.failure.status != 404 then ModalsOf(HandleError(response.failure, msg)) else []
  }

  /** `handleError(response, msg, errorModal)`: shows the modal `HandleError` classifies, if any. */
  method ReportError(response: FailedResponse, msg: string, modals: ModalLog)
    modifies modals
    ensures modals.shown == old(modals.shown) + ModalsOf(HandleError(response, msg))
  {
    var m := HandleError(response, msg);
    if m.Some? {
      modals.Show(m.value);
    }
  }

  /**
   * The routing of one item, store and modals together: a 404 only flags the
   * row, shows nothing; a network failure or a cancellation changes nothing
   * and shows nothing; any other failure changes nothing and shows exactly
   * one modal titled `msg`.
   */
  lemma RoutingOutcome<F, L, D>(rows: map<nat, Row<F, L>>, key: nat, response: Response<D>, refresh: (Row<F, L>, D) -> Row<F, L>, msg: string)
    ensures var after := ItemAfter(rows, key, response, refresh);
      var shown := ItemModals(response, msg);
      && (response.Failed? && response.failure.status == 404 ==>
            shown == [] && after.Keys == rows.Keys && (key in rows ==> after[key] == rows[key].(deleted := 1)))
      && (response.Failed? && response.failure.status != 404 ==> after == rows)
      && (shown != [] <==> response.Failed? && response.failure.status != 404 && !response.failure.network && !response.failure.aborted)
      && |shown| <= 1
      && (forall j :: 0 <= j < |shown| ==> shown[j].title == msg)
  {
  }

  /** An item outcome touches no other key, and never its key's parent or local fields. */
  lemma ItemAfterFrame<F, L, D>(rows: map<nat, Row<F, L>>, key: nat, response: Response<D>, refresh: (Row<F, L>, D) -> Row<F, L>, k: nat)
    requires forall r: Row<F, L>, d: D :: refresh(r, d).id == r.id
    ensures var after := ItemAfter(rows, key, response, refresh);
      && (k in after <==> k in rows)
      && (k in rows && k != key ==> after[k] == rows[k])
      && (k in rows ==> after[k].id == rows[k].id)
  {
  }

  /** An item outcome keeps every row under its own key. */
  lemma ItemAfterValid<F, L, D>(st: TableState<F, L>, key: nat, response: Response<D>, refresh: (Row<F, L>, D) -> Row<F, L>)
    requires ValidState(st)
    requires forall r: Row<F, L>, d: D :: refresh(r, d).id == r.id
    ensures ValidState(TableState(ItemAfter(st.rows, key, response, refresh), st.nextId))
  {
  }

  // ---------------------------------------------------------------------------
  // syncEvents / syncEvent

  /** The events table after the responses are applied in order, response i to `events[i]`. */
  function EventsAfter(rows: map<nat, EventRow>, events: seq<EventRow>, responses: seq<Response<EventData>>): map<nat, EventRow>
    requires |events| == |responses|
  {
    if events == [] then rows
    else
      var n := |events| - 1;
      ItemAfter(EventsAfter(rows, events[..n], responses[..n]), events[n].id, responses[n], RefreshEvent)
  }

  /** The modals the responses show, in order; each is titled with the events message. */
  function EventsModals(responses: seq<Response<EventData>>): (r: seq<ErrorModal>)
    ensures |r| <= |responses|
    ensures forall j :: 0 <= j < |r| ==> r[j].title == EventsMessage
    ensures r == [] <==> forall i :: 0 <= i < |responses| ==> ItemModals(responses[i], EventsMessage) == []
  {
    if responses == [] then []
    else
      var n := |responses| - 1;
      var init := responses[..n];
      assert forall i :: 0 <= i < n ==> init[i] == responses[i];
      RoutingOutcome(map[], 0, responses[n], RefreshEvent, EventsMessage);
      EventsModals(init) + ItemModals(responses[n], EventsMessage)
  }

  /** `syncEvents`: each response is routed to its own event, in order. */
  method SyncEvents(events: seq<EventRow>, responses: seq<Response<EventData>>, table: Table<EventFields, ()>, modals: ModalLog)
    requires |responses| == |events| && table.Valid()
    modifies table, modals
    ensures table.Valid() && table.nextId == old(table.nextId)
    ensures table.rows == EventsAfter(old(table.rows), events, responses)
    ensures modals.shown == old(modals.shown) + EventsModals(responses)
  {
    for i := 0 to |responses|
      invariant table.Valid() && table.nextId == old(table.nextId)
      invariant table.rows == EventsAfter(old(table.rows), events[..i], responses[..i])
      invariant modals.shown == old(modals.shown) + EventsModals(responses[..i])
    {
      ghost var before := table.rows;
      match responses[i] {
        case Ok(d) =>
          table.Update(events[i].id, Remote(d.id, EventFields(d.title, d.startDt)));
        case Failed(f) =>
          if f.status == 404 {
            table.SoftDelete(events[i].id);
          } else {
            ReportError(f, EventsMessage, modals);
          }
      }
      assert table.rows == ItemAfter(before, events[i].id, responses[i], RefreshEvent);
      assert events[..i + 1][..i] == events[..i] && responses[..i + 1][..i] == responses[..i];
    }
    assert events[..|events|] == events && responses[..|responses|] == responses;
  }

  /** `syncEvent`: `syncEvents` on the one event. */
  method SyncEvent(event: EventRow, response: Response<EventData>, table: Table<EventFields, ()>, modals: ModalLog)
    requires table.Valid()
    modifies table, modals
    ensures table.Valid() && table.nextId == old(table.nextId)
    ensures table.rows == ItemAfter(old(table.rows), event.id, response, RefreshEvent)
    ensures modals.shown == old(modals.shown) + ItemModals(response, EventsMessage)
  {
    SyncEvents([event], [response], table, modals);
    assert [event][..0] == [] && [response][..0] == [];
  }

  /** Responses of other events never touch a row that no listed event names. */
  lemma {:induction false} EventsAfterFrame(rows: map<nat, EventRow>, events: seq<EventRow>, responses: seq<Response<EventData>>, k: nat)
    requires |events| == |responses|
    requires forall i :: 0 <= i < |events| ==> events[i].id != k
    ensures var after := EventsAfter(rows, events, responses);
      (k in after <==> k in rows) && (k in rows ==> after[k] == rows[k])
  {
    if events != [] {
      var n := |events| - 1;
      EventsAfterFrame(rows, events[..n], responses[..n], k);
      ItemAfterFrame(EventsAfter(rows, events[..n], responses[..n]), events[n].id, responses[n], RefreshEvent, k);
    }
  }

  /** The outcome of one item at its own key depends only on the row stored there. */
  lemma ItemAfterLocal<F, L, D>(r1: map<nat, Row<F, L>>, r2: map<nat, Row<F, L>>, key: nat, response: Response<D>, refresh: (Row<F, L>, D) -> Row<F, L>)
    requires (key in r1 <==> key in r2) && (key in r1 ==> r1[key] == r2[key])
    ensures var a1 := ItemAfter(r1, key, response, refresh);
      var a2 := ItemAfter(r2, key, response, refresh);
      (key in a1 <==> key in a2) && (key in a1 ==> a1[key] == a2[key])
  {
  }

  /**
   * With distinct local ids, the row of `events[i]` ends up exactly as its own
   * response alone makes it: the batch is the per-event routing, in parallel.
   */
  lemma {:induction false} EventsAfterOwn(rows: map<nat, EventRow>, events: seq<EventRow>, responses: seq<Response<EventData>>, i: nat)
    requires |events| == |responses| && i < |events|
    requires forall a, b :: 0 <= a < b < |events| ==> events[a].id != events[b].id
    ensures var key := events[i].id;
      var after := EventsAfter(rows, events, responses);
      var alone := ItemAfter(rows, key, responses[i], RefreshEvent);
      (key in after <==> key in alone) && (key in after ==> after[key] == alone[key])
  {
    var n := |events| - 1;
    var before := EventsAfter(rows, events[..n], responses[..n]);
    if i == n {
      EventsAfterFrame(rows, events[..n], responses[..n], events[i].id);
      ItemAfterLocal(before, rows, events[i].id, responses[i], RefreshEvent);
    } else {
      EventsAfterOwn(rows, events[..n], responses[..n], i);
      ItemAfterFrame(before, events[n].id, responses[n], RefreshEvent, events[i].id);
    }
  }

  // ---------------------------------------------------------------------------
  // syncRegforms / syncRegform

  /**
   * `syncRegforms`: on success one transaction reconciles the regforms of
   * `event` with the server's list without inserting any; on failure the
   * table is untouched and the failure is reported.
   */
  method SyncRegforms(event: EventRow, response: Response<seq<RegformData>>, table: Table<RegformFields, ()>, modals: ModalLog)
    requires table.Valid()
    modifies table, modals
    ensures table.Valid()
    ensures response.Ok? ==>
      table.State() == Reconcile(old(table.State()), event.id, RegformPayloads(response.data), false, ())
      && modals.shown == old(modals.shown)
    ensures response.Failed? ==>
      table.State() == old(table.State())
      && modals.shown == old(modals.shown) + ModalsOf(HandleError(response.failure, RegformsMessage))
  {
    match response {
      case Ok(data) =>
        ghost var st := table.State();
        var existing := table.Where(event.id);
        var remote := RegformPayloads(data);
        var s := Split(existing, remote, IndicoIdOf, RemoteIdOf);
        table.BulkSoftDelete(KeysOf(s.onlyExisting));
        table.BulkUpdate(ChangesOf(s.common));
        ReconcileIsApply(st, event.id, remote, false, ());
      case Failed(f) =>
        ReportError(f, RegformsMessage, modals);
    }
  }

  /** With unique server ids, a second `syncRegforms` on the same successful response changes nothing. */
  lemma SyncRegformsIdempotent(st: TableState<RegformFields, ()>, event: EventRow, data: seq<RegformData>)
    requires ValidState(st)
    requires forall i, j :: 0 <= i < j < |data| ==> data[i].id != data[j].id
    ensures var once := Reconcile(st, event.id, RegformPayloads(data), false, ());
      Reconcile(once, event.id, RegformPayloads(data), false, ()) == once
  {
    ReconcileIdempotent(st, event.id, RegformPayloads(data), false, ());
  }

  /** `syncRegform`: the outcome of the one fetch is routed to `regform`'s row. */
  method SyncRegform(regform: RegformRow, response: Response<RegformData>, table: Table<RegformFields, ()>, modals: ModalLog)
    requires table.Valid()
    modifies table, modals
    ensures table.Valid() && table.nextId == old(table.nextId)
    ensures table.rows == ItemAfter(old(table.rows), regform.id, response, RefreshRegform)
    ensures modals.shown == old(modals.shown) + ItemModals(response, RegformMessage)
  {
    match response {
      case Ok(d) =>
        table.Update(regform.id, RegformPayload(d));
      case Failed(f) =>
        if f.status == 404 {
          table.SoftDelete(regform.id);
        } else {
          ReportError(f, RegformMessage, modals);
        }
    }
  }

  // ---------------------------------------------------------------------------
  // syncParticipants / syncParticipant

  /**
   * `syncParticipants`: on success one transaction reconciles the
   * participants of `regform` with the server's list, inserting the new ones
   * with empty notes; on failure the table is untouched and the failure is
   * reported.
   */
  method SyncParticipants(regform: RegformRow, response: Response<seq<ParticipantData>>, table: Table<ParticipantFields, string>, modals: ModalLog)
    requires table.Valid()
    modifies table, modals
    ensures table.Valid()
    ensures response.Ok? ==>
      table.State() == Reconcile(old(table.State()), regform.id, ParticipantPayloads(response.data), true, NewParticipantNotes)
      && modals.shown == old(modals.shown)
    ensures response.Failed? ==>
      table.State() == old(table.State())
      && modals.shown == old(modals.shown) + ModalsOf(HandleError(response.failure, ParticipantsMessage))
  {
    match response {
      case Ok(data) =>
        ghost var st := table.State();
        var existing := table.Where(regform.id);
        var remote := ParticipantPayloads(data);
        var s := Split(existing, remote, IndicoIdOf, RemoteIdOf);
        table.BulkSoftDelete(KeysOf(s.onlyExisting));
        table.BulkAdd(NewRows(s.onlyNew, regform.id, NewParticipantNotes));
        table.BulkUpdate(ChangesOf(s.common));
        ReconcileIsApply(st, regform.id, remote, true, NewParticipantNotes);
      case Failed(f) =>
        ReportError(f, ParticipantsMessage, modals);
    }
  }

  /** With unique server ids, a second `syncParticipants` on the same successful response changes nothing. */
  lemma SyncParticipantsIdempotent(st: TableState<ParticipantFields, string>, regform: RegformRow, data: seq<ParticipantData>)
    requires ValidState(st)
    requires forall i, j :: 0 <= i < j < |data| ==> data[i].id != data[j].id
    ensures var once := Reconcile(st, regform.id, ParticipantPayloads(data), true, NewParticipantNotes);
      Reconcile(once, regform.id, ParticipantPayloads(data), true, NewParticipantNotes) == once
  {
    ReconcileIdempotent(st, regform.id, ParticipantPayloads(data), true, NewParticipantNotes);
  }

  /**
   * `syncParticipant`: the outcome of the one fetch is routed to
   * `participant`'s row; on success the row becomes what `updateParticipant`
   * makes of it, which keeps the row's key.
   */
  method SyncParticipant(participant: ParticipantRow, response: Response<ParticipantData>,
                         updateParticipant: (ParticipantRow, ParticipantData) -> ParticipantRow,
                         table: Table<ParticipantFields, string>, modals: ModalLog)
    requires table.Valid()
    requires forall r, d :: updateParticipant(r, d).id == r.id
    modifies table, modals
    ensures table.Valid() && table.nextId == old(table.nextId)
    ensures table.rows == ItemAfter(old(table.rows), participant.id, response, updateParticipant)
    ensures modals.shown == old(modals.shown) + ItemModals(response, ParticipantMessage)
  {
    match response {
      case Ok(d) =>
        if participant.id in table.rows {
          table.Replace(participant.id, updateParticipant(table.rows[participant.id], d));
        }
      case Failed(f) =>
        if f.status == 404 {
          table.SoftDelete(participant.id);
        } else {
          ReportError(f, ParticipantMessage, modals);
        }
    }
  }
}
