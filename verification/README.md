# Event, regform and participant sync of the Indico check-in app

This project models the reconciliation layer of the Indico check-in
progressive web app, `src/pages/Events/sync.ts`. The app keeps a local cache
of events, registration forms (regforms) and participants, and brings it in
line with what an Indico server returns:

- `split` matches a local list and a server list by `indicoId`. It returns the
  local-only elements, the server-only elements and the matched pairs.
- `syncRegforms` and `syncParticipants` fetch the children of one parent. On
  success they reconcile the parent's rows in one transaction:
  - local-only rows are soft-deleted (`deleted: 1`);
  - server-only participants are inserted (regforms are never inserted);
  - matched rows get the server-owned fields.
- `syncEvents`/`syncEvent`, `syncRegform` and `syncParticipant` fetch single
  items and route each outcome:
  - success refreshes the row;
  - status 404 soft-deletes it;
  - any other failure goes to `handleError`.
- `handleError` ignores network failures and cancellations. Any other failure
  shows one error modal, with the error's message or the status line.

Modules:

- `Responses` (`responses.dfy`): fetch outcomes, `handleError` as a function,
  and the decimal status text with its read-back.
- `Matching` (`matching.dfy`): `split`, on values, generic in the two element
  types and their id functions.
- `Tables` (`tables.dfy`): one generic row type for the three tables, the
  store operations as functions, and the reconcile step `Reconcile` with its
  properties.
  - A row holds its local key, `indicoId` and parent key, the server-owned
    fields, the local-only fields (a participant's `notes`) and the
    soft-delete flag.
  - A table is a map from local key to row, plus the next key the
    auto-increment hands out.
- `Store` (`store.dfy`): the store as objects. `Table` is a class whose
  methods change its rows in place, and `ModalLog` collects the modals shown.
- `Sync` (`sync.dfy`): the entities, their server records, and the six sync
  procedures as methods over a `Table` and a `ModalLog`. The fetch results are
  given as inputs.

## Model

| member | source | states |
|---|---|---|
| Responses.HandleError | src/pages/Events/sync.ts:230-240 | no modal exactly when the failure is a network failure or a cancellation; otherwise the title is the message passed in, and the content is the error's message when an error object is present, else a status line that reads back as the response status |
| Responses.IntText | src/pages/Events/sync.ts:238 | renders a status as decimal digits with a sign; `Responses.IntTextRoundTrip` proves the text reads back as the status |
| Responses.StatusContent | src/pages/Events/sync.ts:238 | the status line `Response status: <status>`; `Responses.StatusContentRoundTrip` proves it names its status |
| Responses.ModalsOf | src/pages/Events/sync.ts:230-240 | the callback is called at most once, and not at all exactly when `handleError` shows nothing |
| Responses.StatusContentRoundTrip | src/pages/Events/sync.ts:238 | `Response status: ${status}` is longer than its prefix and reads back as the status it was made from |
| Responses.IntTextRoundTrip | src/pages/Events/sync.ts:238 | the decimal text of any integer status, sign included, reads back as that integer |
| Responses.NatTextRoundTrip | src/pages/Events/sync.ts:238 | the digits of a natural number read back as that number |
| Responses.NegativeTextRoundTrip | src/pages/Events/sync.ts:238 | a minus sign followed by the digits of n reads back as -n |
| Responses.NonNegativeTextRoundTrip | src/pages/Events/sync.ts:238 | the digits of n, unsigned, read back as n |
| Matching.IndexById | src/pages/Events/sync.ts:17-31 | the lookup object built by `reduce` has exactly the ids of the list as keys, and each key maps to an element with that id |
| Matching.IndexByIdElements | src/pages/Events/sync.ts:25-31 | every value in the lookup object is an element of the list |
| Matching.IndexByIdLastWins | src/pages/Events/sync.ts:25-31 | the lookup object keeps the last element with each id |
| Matching.FilterById | src/pages/Events/sync.ts:33-35 | the filter keeps exactly the elements whose id is, or is not, in the key set |
| Matching.Split | src/pages/Events/sync.ts:16-37 | `onlyExisting` holds exactly the elements of `a` whose id is not in `b`; `onlyNew` holds exactly the elements of `b` whose id is not in `a`; each element of `a` whose id is in `b` appears as the first side of a pair of `common`; both sides of a pair share an id, and the second is the lookup object's entry |
| Matching.FilterComplement | src/pages/Events/sync.ts:33-35 | the keep filter and the drop filter together hold every element of the list exactly once |
| Matching.FilterCount | src/pages/Events/sync.ts:33-35 | the two complementary filters have lengths adding up to the list's length |
| Matching.FilterConcat | src/pages/Events/sync.ts:33-35 | filtering keeps the input order, because it distributes over concatenation |
| Matching.SplitKeepsOrder | src/pages/Events/sync.ts:33-35 | `onlyExisting`, the first sides of `common`, and `onlyNew` are the order-keeping filters of their input lists |
| Matching.SplitCoversExisting | src/pages/Events/sync.ts:33-35 | every element of `a` is in exactly one of `onlyExisting` and the first sides of `common` |
| Matching.SplitCoversNew | src/pages/Events/sync.ts:34-35 | with unique ids in `b`, every element of `b` is in exactly one of `onlyNew` and the second sides of `common`, and no second side comes from outside `b` |
| Matching.SplitCoversNewAt | src/pages/Events/sync.ts:34-35 | the same, for one element of `b` |
| Matching.SplitPairsLastOccurrence | src/pages/Events/sync.ts:25-35 | when `b` repeats an id, the matched pair holds its last occurrence |
| Tables.LastChange | src/pages/Events/sync.ts:194-195 | there is no payload for a key exactly when none is listed for it, and a found payload is one listed for that key |
| Tables.Scope | src/pages/Events/sync.ts:148 | the parent query `where(...).toArray()`, in key order; `Tables.ScopeMember` proves it holds exactly the stored rows of the parent |
| Tables.SoftDeleteRow | src/pages/Events/sync.ts:55 | `update(id, {deleted: 1})`, skipping a missing key; `Sync.RoutingOutcome` states its effect |
| Tables.UpdateRow | src/pages/Events/sync.ts:53 | `update(id, payload)`, skipping a missing key; `Sync.RefreshEvent` and `Sync.RefreshRegform` state which fields change |
| Tables.SoftDeleteAll | src/pages/Events/sync.ts:183-184 | the `bulkUpdate` of `{deleted: 1}`, one key after another; `Tables.SoftDeleteAllAt` gives each key's row |
| Tables.UpdateAll | src/pages/Events/sync.ts:194-195 | the `bulkUpdate` of the payloads, in order; `Tables.UpdateAllAt` gives each key's row |
| Tables.AddAll | src/pages/Events/sync.ts:186-192 | the `bulkAdd` under fresh auto-increment keys; `Tables.AddAllAt` gives each key's row |
| Tables.Apply | src/pages/Events/sync.ts:182-195 | the three bulk operations in the source's order; `Tables.ApplyAt` and `Tables.ApplyValid` state the result key by key |
| Tables.Reconcile | src/pages/Events/sync.ts:180-195 | the reconcile-and-apply transaction; its meaning is stated by `Tables.ReconcileExistingRow`, `Tables.ReconcileAddedRow`, `Tables.ReconcileKeys`, `Tables.ReconcileValid` and `Tables.ReconcileIdempotent` |
| Tables.SoftDeleteAllAt | src/pages/Events/sync.ts:183-184 | the bulk soft-delete keeps the set of keys and sets `deleted: 1` on exactly the listed rows, changing nothing else |
| Tables.UpdateAllAt | src/pages/Events/sync.ts:194-195 | the bulk update keeps the set of keys, and each row takes the last payload listed for it or stays as it was |
| Tables.AddAllAt | src/pages/Events/sync.ts:186-192 | the bulk add keeps the old rows and stores the i-th new row under the i-th fresh key |
| Tables.SoftDeleteAllValid | src/pages/Events/sync.ts:183-184 | a bulk soft-delete keeps every row under its own key |
| Tables.UpdateAllValid | src/pages/Events/sync.ts:194-195 | a bulk update keeps every row under its own key |
| Tables.AddAllValid | src/pages/Events/sync.ts:186-192 | a bulk add keeps every row under its own key, below the advanced counter |
| Tables.ApplyAt | src/pages/Events/sync.ts:182-195 | after the three bulk operations in order, the keys are the old ones plus one fresh key per added row; an old row is soft-deleted if listed and then takes its last payload |
| Tables.ReconciledRow | src/pages/Events/sync.ts:183-195 | reconciling one row keeps its key, parent and local fields, and never clears a soft-delete |
| Tables.ScopeMember | src/pages/Events/sync.ts:148 | the rows the parent query returns are exactly the stored rows of that parent |
| Tables.ScopeIdsOfScope | src/pages/Events/sync.ts:148 | the ids of the queried rows are the server ids of the parent's rows |
| Tables.OnlyExistingKeys | src/pages/Events/sync.ts:180-184 | the soft-deletes go exactly to the rows of the parent whose server id is no longer listed |
| Tables.CommonChange | src/pages/Events/sync.ts:180-195 | a key gets a payload exactly when its row belongs to the parent and is still listed, and the payload is the last server record with that id |
| Tables.ChangeKeysBelow | src/pages/Events/sync.ts:194-195 | every update payload goes to a key that exists before the insert |
| Tables.ReconcileExistingRow | src/pages/Events/sync.ts:180-195 | every existing row survives the reconcile step, as its reconciled row |
| Tables.ApplyValid | src/pages/Events/sync.ts:182-195 | the three bulk operations keep every row under its own key, below the counter |
| Tables.ApplyNewRow | src/pages/Events/sync.ts:186-192 | the i-th inserted record is stored under `next + i` with the local defaults |
| Tables.ReconcileAddedRow | src/pages/Events/sync.ts:186-192 | the i-th server-only record, when inserted, is stored under the i-th fresh key with parent, defaults and `deleted: 0` |
| Tables.ReconcileAddedRowBelow | src/pages/Events/sync.ts:186-192 | the same, given that all payloads go to old keys |
| Tables.ReconcileKeys | src/pages/Events/sync.ts:180-195 | the counter advances by the number of inserted rows, and the keys are the old ones plus the fresh ones |
| Tables.ReconcileValid | src/pages/Events/sync.ts:180-195 | the reconcile step keeps every row under its own key |
| Tables.ReconcileOtherParents | src/pages/Events/sync.ts:148 | rows of other parents are left exactly as they were |
| Tables.ReconcileSoftDeletes | src/pages/Events/sync.ts:183-184 | a row of the parent that the server no longer lists only gets `deleted: 1`; all its other fields stay |
| Tables.ReconcileUpdatesMatched | src/pages/Events/sync.ts:194-195 | a row that the server still lists takes only the server fields of the last record with its id, so local notes, parent and a soft-delete survive |
| Tables.ReconcileAddsNothing | src/pages/Events/sync.ts:90-97 | without inserts (regforms), the keys and the counter stay |
| Tables.ReconcileInsertsOnlyNew | src/pages/Events/sync.ts:186-192 | an inserted row has the parent, `deleted: 0` and the local default; its server id is listed by the server and was held by no row of the parent, soft-deleted ones included |
| Tables.ReconcileCoversRemote | src/pages/Events/sync.ts:180-192 | after a participant sync, every listed server record has a row of the parent with its id |
| Tables.ReconcileNothingNewTwice | src/pages/Events/sync.ts:180-192 | a second reconcile against the same records finds nothing server-only |
| Tables.ReconcileStableExisting | src/pages/Events/sync.ts:183-195 | an existing row after the reconcile step is unchanged by reconciling it again |
| Tables.ReconcileStableAdded | src/pages/Events/sync.ts:186-195 | with unique server ids, an inserted row is unchanged by reconciling it again |
| Tables.ReconciledRowIdempotent | src/pages/Events/sync.ts:194-195 | reconciling a reconciled row again against the same records leaves it unchanged |
| Tables.ReconcileStable | src/pages/Events/sync.ts:180-195 | with unique server ids, every row after the reconcile step is already reconciled |
| Tables.ReconcileTwiceKeys | src/pages/Events/sync.ts:186-192 | a second reconcile hands out no key and keeps the key set |
| Tables.ReconcileTwiceRows | src/pages/Events/sync.ts:180-195 | with unique server ids, a second reconcile leaves every row as the first left it |
| Tables.ReconcileIdempotent | src/pages/Events/sync.ts:180-195 | with unique server ids, reconciling twice leaves the same table as reconciling once |
| Store.Table.Where | src/pages/Events/sync.ts:148 | the query returns only stored rows of the parent, and every stored row of the parent |
| Store.Table.Update | src/pages/Events/sync.ts:53 | an in-place update applies the payload to the row under the key and keeps the table valid |
| Store.Table.SoftDelete | src/pages/Events/sync.ts:55 | an in-place `{deleted: 1}` update marks only the row under the key |
| Store.Table.Replace | src/pages/Events/sync.ts:222 | the success path of `updateParticipant` stores the new row under its own key |
| Store.Table.BulkSoftDelete | src/pages/Events/sync.ts:183-184 | the table becomes the bulk soft-delete of its old rows, and stays valid |
| Store.Table.BulkUpdate | src/pages/Events/sync.ts:194-195 | the table becomes the bulk update of its old rows, and stays valid |
| Store.Table.BulkAdd | src/pages/Events/sync.ts:186-192 | the new rows get fresh keys, the counter advances by their number, and the table stays valid |
| Store.ModalLog.Show | src/pages/Events/sync.ts:236-238 | a modal shown is appended to what the user has been shown |
| Sync.RegformPayload | src/pages/Events/sync.ts:81-89 | the payload's `indicoId` is the server record's `id` |
| Sync.ParticipantPayload | src/pages/Events/sync.ts:149-179 | the payload's `indicoId` is the server record's `id` |
| Sync.RefreshEvent | src/pages/Events/sync.ts:52-53 | a successful event fetch changes only `indicoId`, `title` and `date` |
| Sync.RefreshRegform | src/pages/Events/sync.ts:118-125 | a successful regform fetch changes only `indicoId`, `title`, `isOpen`, `registrationCount` and `checkedInCount` |
| Sync.ItemAfter | src/pages/Events/sync.ts:51-58 | the routing of one fetch outcome to its row, shared by `syncEvents`, `syncRegform` and `syncParticipant`; `Sync.RoutingOutcome`, `Sync.ItemAfterFrame` and `Sync.ItemAfterValid` state its meaning |
| Sync.ItemModals | src/pages/Events/sync.ts:56-58 | the modals one outcome shows; `Sync.RoutingOutcome` states exactly when there is one |
| Sync.EventsAfter | src/pages/Events/sync.ts:50-59 | the events table after the loop, response i applied to `events[i]` in order; `Sync.EventsAfterFrame` and `Sync.EventsAfterOwn` state its meaning |
| Sync.ReportError | src/pages/Events/sync.ts:230-240 | the modals shown grow by exactly what `handleError` decides |
| Sync.RoutingOutcome | src/pages/Events/sync.ts:50-59 | a 404 only sets `deleted: 1` and shows nothing; a failure other than 404 changes no row; a modal is shown exactly for a failure other than 404 that is neither a network failure nor a cancellation; at most one modal, titled with the message |
| Sync.ItemAfterFrame | src/pages/Events/sync.ts:50-59 | one item's outcome keeps the key set and every other row, and never changes a row's key |
| Sync.ItemAfterValid | src/pages/Events/sync.ts:50-59 | one item's outcome keeps every row under its own key |
| Sync.ItemAfterLocal | src/pages/Events/sync.ts:50-59 | one item's outcome at its key depends only on the row stored there |
| Sync.EventsModals | src/pages/Events/sync.ts:50-59 | at most one modal per response, all titled with the events message, and none exactly when no response calls for one |
| Sync.SyncEvents | src/pages/Events/sync.ts:39-60 | the loop routes response i to `events[i]` in order, and the modals grow by those the responses call for |
| Sync.EventsAfterFrame | src/pages/Events/sync.ts:50-59 | a row that no listed event names is not touched |
| Sync.EventsAfterOwn | src/pages/Events/sync.ts:50-59 | with distinct local ids, response i only affects `events[i]`, whose row ends as that response alone makes it |
| Sync.SyncEvent | src/pages/Events/sync.ts:62-64 | a one-event `syncEvents` routes its one response to that event |
| Sync.SyncRegforms | src/pages/Events/sync.ts:66-102 | on success the table becomes the reconcile step without inserts, and nothing is shown; on failure the table is unchanged and the failure goes to `handleError` |
| Sync.SyncRegformsIdempotent | src/pages/Events/sync.ts:79-98 | with unique server ids, a second `syncRegforms` on the same response changes nothing |
| Sync.SyncRegform | src/pages/Events/sync.ts:104-131 | the fetch outcome is routed to the regform's row: refresh, soft-delete, or `handleError` |
| Sync.SyncParticipants | src/pages/Events/sync.ts:133-200 | on success the table becomes the reconcile step with inserts carrying empty notes, and nothing is shown; on failure the table is unchanged and the failure goes to `handleError` |
| Sync.SyncParticipantsIdempotent | src/pages/Events/sync.ts:180-195 | with unique server ids, a second `syncParticipants` on the same response changes nothing |
| Sync.SyncParticipant | src/pages/Events/sync.ts:202-228 | the fetch outcome is routed to the participant's row: `updateParticipant`, soft-delete, or `handleError` |

## Left out

- Network calls (`getEvent`, `getRegforms`, `getRegform`, `getParticipants`,
  `getParticipant`) and the `AbortSignal` are not modelled. Their results are
  inputs, and a cancellation shows up only as the `aborted` flag.
- `Promise.all` concurrency is not modelled. `syncEvents` receives the
  responses as a sequence, where index i belongs to `events[i]`.
- The store transaction of `syncRegforms` and `syncParticipants` is one
  atomic step. Failures inside the store and asynchronous interleaving are
  not modelled.
- src/db/db.ts is not part of this model. It does not define the `Event`,
  `Regform` and `Participant` types or the `updateParticipant` function that
  sync.ts imports; its table declarations have other fields. The fields here
  come from what sync.ts reads and writes.
- Responses.IntText: the status is an unbounded integer printed in full
  decimal digits; a JavaScript template literal prints magnitudes of 10^21
  and more in exponent form, which is not modelled.
- Dates, `checkedInDt` and the `registrationData` payload are uninterpreted
  strings. `price` is a real number, with no floating-point rounding.
- The auto-increment of the store is a counter that hands out keys in order,
  starting at 1.
  - The parent query returns rows in primary-key order.
  - The order of a compound index is not modelled.
- Sync.SyncParticipant: `updateParticipant` is a function parameter that must
  keep a row's key, because its source is not shown. Only the routing around
  it is modelled.
- Sync.EventsAfterOwn: it assumes the events passed in have distinct local
  ids. With a repeated id, the responses for it are applied to its row in
  order, as `Sync.SyncEvents` states.
- Matching.SplitCoversNew: it holds only for server lists with unique ids.
  With a repeated id, `Matching.SplitPairsLastOccurrence` says which record
  is paired.
- Where the code and the app's documented behaviour differ, the model
  follows the code:
  - a 404 on a list fetch (`syncRegforms`, `syncParticipants`) goes to
    `handleError`, because these two have no 404 branch;
  - the modal's content is the error's message, even when that message is
    empty;
  - in the single-item syncs the 404 test comes before the network and
    cancellation tests, so a 404 always soft-deletes;
  - regforms the server lists but the cache lacks are never inserted.
