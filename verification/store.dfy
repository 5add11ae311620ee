/**
 * The local store as the sync procedures of src/pages/Events/sync.ts use it:
 * a table whose rows the store operations change in place, and the
 * error-modal callback, which only ever appends to what the user is shown.
 */
module Store {
  import opened Responses
  import opened Tables

  /** One table of the store, with its auto-increment counter. */
  class Table<F, L> {
    var rows: map<nat, Row<F, L>>
    var nextId: nat

    function State(): TableState<F, L>
      reads this
    {
      TableState(rows, nextId)
    }

    predicate Valid()
      reads this
    {
      ValidState(State())
    }

    /** An empty table; the auto-increment hands out 1 first. */
    constructor ()
      ensures rows == map[] && nextId == 1 && Valid()
    {
      rows := map[];
      nextId := 1;
    }

    /** `where({parentId: parent}).toArray()`: exactly the stored rows of `parent`, in key order. */
    function Where(parent: nat): (r: seq<Row<F, L>>)
      reads this
      requires Valid()
      ensures forall i :: 0 <= i < |r| ==> r[i].id in rows && rows[r[i].id] == r[i] && r[i].parentId == parent
      ensures forall k :: k in rows && rows[k].parentId == parent ==> rows[k] in r
    {
      var r := Scope(rows, parent, nextId);
      forall i | 0 <= i < |r| ensures r[i].id in rows && rows[r[i].id] == r[i] && r[i].parentId == parent {
        ScopeMember(rows, parent, nextId, r[i]);
      }
      forall k | k in rows && rows[k].parentId == parent ensures rows[k] in r {
        ScopeMember(rows, parent, nextId, rows[k]);
      }
      r
    }

    /** `update(key, {indicoId, ...data})`. */
    method Update(key: nat, changes: Remote<F>)
      requires Valid()
      modifies this
      ensures rows == UpdateRow(old(rows), key, changes) && nextId == old(nextId)
      ensures Valid()
    {
      rows := UpdateRow(rows, key, changes);
    }

    /** `update(key, {deleted: 1})`. */
    method SoftDelete(key: nat)
      requires Valid()
      modifies this
      ensures rows == SoftDeleteRow(old(rows), key) && nextId == old(nextId)
      ensures Valid()
    {
      rows := SoftDeleteRow(rows, key);
    }

    /** Stores `row` in place of the row under `key`: the success path of `updateParticipant`. */
    method Replace(key: nat, row: Row<F, L>)
      requires Valid() && key in rows && row.id == key
      modifies this
      ensures rows == old(rows)[key := row] && nextId == old(nextId)
      ensures Valid()
    {
      rows := rows[key := row];
    }

    /** `bulkUpdate` of `{deleted: 1}` for the given keys. */
    method BulkSoftDelete(keys: seq<nat>)
      requires Valid()
      modifies this
      ensures rows == SoftDeleteAll(old(rows), keys) && nextId == old(nextId)
      ensures Valid()
    {
      SoftDeleteAllValid(State(), keys);
      rows := SoftDeleteAll(rows, keys);
    }

    /** `bulkUpdate` with the given payloads. */
    method BulkUpdate(changes: seq<(nat, Remote<F>)>)
      requires Valid()
      modifies this
      ensures rows == UpdateAll(old(rows), changes) && nextId == old(nextId)
      ensures Valid()
    {
      UpdateAllValid(State(), changes);
      rows := UpdateAll(rows, changes);
    }

    /** `bulkAdd`: the new rows get the next keys the auto-increment hands out. */
    method BulkAdd(news: seq<Row<F, L>>)
      requires Valid()
      modifies this
      ensures rows == AddAll(old(rows), old(nextId), news) && nextId == old(nextId) + |news|
      ensures Valid()
    {
      AddAllValid(State(), news);
      rows := AddAll(rows, nextId, news);
      nextId := nextId + |news|;
    }
  }

  /** The error-modal callback: the modals shown so far, in order. */
  class ModalLog {
    var shown: seq<ErrorModal>

    constructor ()
      ensures shown == []
    {
      shown := [];
    }

    method Show(m: ErrorModal)
      modifies this
      ensures shown == old(shown) + [m]
    {
      shown := shown + [m];
    }
  }
}
