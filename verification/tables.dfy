/**
 * The local tables and the reconcile-and-apply step of `syncRegforms` and
 * `syncParticipants` in src/pages/Events/sync.ts, stated on values.
 *
 * A row of any of the three tables (events, regforms, participants) is a
 * `Row<F, L>`: its local key `id`, the server's `indicoId`, the key of its
 * parent (the server of an event, the event of a regform, the regform of a
 * participant), the server-owned fields `data`, the local-only fields `local`
 * (a participant's `notes`) and the soft-delete flag. An update payload built
 * from a server record is a `Remote<F>`: an `indicoId` and the server-owned
 * fields, exactly the objects the source hands to `update` and `bulkUpdate`.
 */
module Tables {
  import opened Responses
  import opened Matching

  /** The store's boolean: 0 or 1. */
  type IDBBoolean = b: int | 0 <= b <= 1

  datatype Remote<F> = Remote(indicoId: int, data: F)

  datatype Row<F, L> = Row(id: nat, indicoId: int, parentId: nat, data: F, local: L, deleted: IDBBoolean)
  {
    /** The row after `update(id, {indicoId, ...data})`. */
    function WithRemote(r: Remote<F>): Row<F, L> {
      this.(indicoId := r.indicoId, data := r.data)
    }

    /** The row after `update(id, {deleted: 1})`. */
    function SoftDeleted(): Row<F, L> {
      this.(deleted := 1)
    }
  }

  function IndicoIdOf<F, L>(row: Row<F, L>): int {
    row.indicoId
  }

  function RemoteIdOf<F>(r: Remote<F>): int {
    r.indicoId
  }

  /** A table: its rows by local key, and the next key its auto-increment hands out. */
  datatype TableState<F, L> = TableState(rows: map<nat, Row<F, L>>, nextId: nat)

  /** Every row is stored under its own key, and every key is below the next one handed out. */
  predicate ValidState<F, L>(st: TableState<F, L>) {
    forall k :: k in st.rows ==> k < st.nextId && st.rows[k].id == k
  }

  // ---------------------------------------------------------------------------
  // The store operations the reconcile step uses, as functions on the rows.

  /**
   * `where({parentId: parent}).toArray()` over the keys below `n`: the rows
   * whose parent is `parent`, in primary-key order.
   */
  function Scope<F, L>(rows: map<nat, Row<F, L>>, parent: nat, n: nat): seq<Row<F, L>> {
    if n == 0 then []
    else Scope(rows, parent, n - 1) + (if n - 1 in rows && rows[n - 1].parentId == parent then [rows[n - 1]] else [])
  }

  /** `update(k, {deleted: 1})`: a missing key is skipped. */
  function SoftDeleteRow<F, L>(rows: map<nat, Row<F, L>>, k: nat): map<nat, Row<F, L>> {
    if k in rows then rows[k := rows[k].SoftDeleted()] else rows
  }

  /** `update(k, {indicoId, ...data})`: a missing key is skipped. */
  function UpdateRow<F, L>(rows: map<nat, Row<F, L>>, k: nat, r: Remote<F>): map<nat, Row<F, L>> {
    if k in rows then rows[k := rows[k].WithRemote(r)] else rows
  }

  /** `bulkUpdate` with `{deleted: 1}` for every key in `keys`, in order. */
  function SoftDeleteAll<F, L>(rows: map<nat, Row<F, L>>, keys: seq<nat>): map<nat, Row<F, L>> {
    if keys == [] then rows
    else SoftDeleteRow(SoftDeleteAll(rows, keys[..|keys| - 1]), keys[|keys| - 1])
  }

  /** The last payload `changes` holds for key `k`, if any. */
  function LastChange<F>(changes: seq<(nat, Remote<F>)>, k: nat): (r: Option<Remote<F>>)
    ensures r.None? <==> forall i :: 0 <= i < |changes| ==> changes[i].0 != k
    ensures r.Some? ==> exists i :: 0 <= i < |changes| && changes[i].0 == k && changes[i].1 == r.value
  {
    if changes == [] then None
    else if changes[|changes| - 1].0 == k then Some(changes[|changes| - 1].1)
    else
      var init := changes[..|changes| - 1];
      assert forall i :: 0 <= i < |init| ==> init[i] == changes[i];
      LastChange(init, k)
  }

  /** `bulkUpdate` with the given payloads, applied in order. */
  function UpdateAll<F, L>(rows: map<nat, Row<F, L>>, changes: seq<(nat, Remote<F>)>): map<nat, Row<F, L>> {
    if changes == [] then rows
    else UpdateRow(UpdateAll(rows, changes[..|changes| - 1]), changes[|changes| - 1].0, changes[|changes| - 1].1)
  }

  /** `bulkAdd`: the i-th new row is stored, keyed, under the auto-increment key `next + i`. */
  function AddAll<F, L>(rows: map<nat, Row<F, L>>, next: nat, news: seq<Row<F, L>>): map<nat, Row<F, L>> {
    if news == [] then rows
    else
      var k := next + |news| - 1;
      AddAll(rows, next, news[..|news| - 1])[k := news[|news| - 1].(id := k)]
  }

  /** A soft-delete keeps the keys and marks exactly the rows it lists. */
  lemma {:induction false} SoftDeleteAllAt<F, L>(rows: map<nat, Row<F, L>>, keys: seq<nat>, k: nat)
    ensures k in SoftDeleteAll(rows, keys) <==> k in rows
    ensures k in rows ==> SoftDeleteAll(rows, keys)[k] == if k in keys then rows[k].SoftDeleted() else rows[k]
  {
    if keys != [] {
      var init := keys[..|keys| - 1];
      SoftDeleteAllAt(rows, init, k);
      assert keys == init + [keys[|keys| - 1]];
    }
  }

  /** An update keeps the keys, and each row ends with the last payload listed for it. */
  lemma {:induction false} UpdateAllAt<F, L>(rows: map<nat, Row<F, L>>, changes: seq<(nat, Remote<F>)>, k: nat)
    ensures k in UpdateAll(rows, changes) <==> k in rows
    ensures k in rows ==>
      UpdateAll(rows, changes)[k] == if LastChange(changes, k).Some? then rows[k].WithRemote(LastChange(changes, k).value) else rows[k]
  {
    if changes != [] {
      var init := changes[..|changes| - 1];
      UpdateAllAt(rows, init, k);
      if changes[|changes| - 1].0 != k {
        assert LastChange(changes, k) == LastChange(init, k);
      }
    }
  }

  /** An add keeps the old keys and stores the i-th new row under `next + i`. */
  lemma {:induction false} AddAllAt<F, L>(rows: map<nat, Row<F, L>>, next: nat, news: seq<Row<F, L>>, k: nat)
    requires forall j :: j in rows ==> j < next
    ensures k in AddAll(rows, next, news) <==> k in rows || next <= k < next + |news|
    ensures k in rows ==> AddAll(rows, next, news)[k] == rows[k]
    ensures next <= k < next + |news| ==> AddAll(rows, next, news)[k] == news[k - next].(id := k)
  {
    if news != [] {
      var init := news[..|news| - 1];
      AddAllAt(rows, next, init, k);
    }
  }

  /** A soft-delete keeps every row under its own key. */
  lemma {:induction false} SoftDeleteAllValid<F, L>(st: TableState<F, L>, keys: seq<nat>)
    requires ValidState(st)
    ensures ValidState(TableState(SoftDeleteAll(st.rows, keys), st.nextId))
  {
    forall k | k in SoftDeleteAll(st.rows, keys) ensures k < st.nextId && SoftDeleteAll(st.rows, keys)[k].id == k {
      SoftDeleteAllAt(st.rows, keys, k);
    }
  }

  /** An update keeps every row under its own key. */
  lemma {:induction false} UpdateAllValid<F, L>(st: TableState<F, L>, changes: seq<(nat, Remote<F>)>)
    requires ValidState(st)
    ensures ValidState(TableState(UpdateAll(st.rows, changes), st.nextId))
  {
    forall k | k in UpdateAll(st.rows, changes) ensures k < st.nextId && UpdateAll(st.rows, changes)[k].id == k {
      UpdateAllAt(st.rows, changes, k);
    }
  }

  /** An add from the next key on keeps every row under its own key, below the advanced next key. */
  lemma {:induction false} AddAllValid<F, L>(st: TableState<F, L>, news: seq<Row<F, L>>)
    requires ValidState(st)
    ensures ValidState(TableState(AddAll(st.rows, st.nextId, news), st.nextId + |news|))
  {
    forall k | k in AddAll(st.rows, st.nextId, news) ensures k < st.nextId + |news| && AddAll(st.rows, st.nextId, news)[k].id == k {
      AddAllAt(st.rows, st.nextId, news, k);
    }
  }

  // ---------------------------------------------------------------------------
  // The reconcile step.

  /** `onlyExisting.map(r => r.id)`: the keys the soft-deletes go to. */
  function KeysOf<F, L>(rows: seq<Row<F, L>>): (ks: seq<nat>)
    ensures |ks| == |rows| && forall i :: 0 <= i < |rows| ==> ks[i] == rows[i].id
  {
    seq(|rows|, i requires 0 <= i < |rows| => rows[i].id)
  }

  /** `common.map(([{id}, data]) => ({key: id, changes: data}))`. */
  function ChangesOf<F, L>(common: seq<(Row<F, L>, Remote<F>)>): (cs: seq<(nat, Remote<F>)>)
    ensures |cs| == |common| && forall i :: 0 <= i < |common| ==> cs[i] == (common[i].0.id, common[i].1)
  {
    seq(|common|, i requires 0 <= i < |common| => (common[i].0.id, common[i].1))
  }

  /**
   * The records `bulkAdd` receives: each remote-only record with the local
   * defaults (`local`, `deleted: 0`) and the parent key filled in. The key is
   * a placeholder that the auto-increment replaces.
   */
  function NewRows<F, L>(news: seq<Remote<F>>, parent: nat, local: L): (rs: seq<Row<F, L>>)
    ensures |rs| == |news|
    ensures forall i :: 0 <= i < |news| ==> rs[i] == Row(0, news[i].indicoId, parent, news[i].data, local, 0)
  {
    seq(|news|, i requires 0 <= i < |news| => Row(0, news[i].indicoId, parent, news[i].data, local, 0))
  }

  /** The partition the reconcile step works from. */
  function PartitionOf<F, L>(st: TableState<F, L>, parent: nat, remote: seq<Remote<F>>): Partition<Row<F, L>, Remote<F>> {
    Split(Scope(st.rows, parent, st.nextId), remote, IndicoIdOf, RemoteIdOf)
  }

  /**
   * The three bulk operations of one transaction, in the source's order:
   * soft-delete `deletes`, add `added` from key `next` on, update with `changes`.
   */
  function Apply<F, L>(rows: map<nat, Row<F, L>>, next: nat, deletes: seq<nat>, added: seq<Row<F, L>>, changes: seq<(nat, Remote<F>)>): map<nat, Row<F, L>> {
    UpdateAll(AddAll(SoftDeleteAll(rows, deletes), next, added), changes)
  }

  /**
   * One reconcile-and-apply transaction for the children of `parent`: the
   * local-only rows are soft-deleted, then (when `insertNew`, as for
   * participants) the remote-only records are added with `localDefault`, then
   * the matched rows get their remote payload. Without `insertNew` no add
   * is issued, which is the same as adding nothing.
   */
  function Reconcile<F, L>(st: TableState<F, L>, parent: nat, remote: seq<Remote<F>>, insertNew: bool, localDefault: L): TableState<F, L> {
    var s := PartitionOf(st, parent, remote);
    var added := if insertNew then NewRows(s.onlyNew, parent, localDefault) else [];
    TableState(Apply(st.rows, st.nextId, KeysOf(s.onlyExisting), added, ChangesOf(s.common)), st.nextId + |added|)
  }

  /**
   * One key after a transaction: the keys are the old ones and one fresh key
   * per added row; an old row is soft-deleted if listed and then given its
   * last payload if it has one; an added row without a payload is stored as added.
   */
  lemma {:induction false} ApplyAt<F, L>(rows: map<nat, Row<F, L>>, next: nat, deletes: seq<nat>, added: seq<Row<F, L>>, changes: seq<(nat, Remote<F>)>, k: nat)
    requires forall j :: j in rows ==> j < next
    ensures k in Apply(rows, next, deletes, added, changes) <==> k in rows || next <= k < next + |added|
    ensures k in rows ==>
      var r := if k in deletes then rows[k].SoftDeleted() else rows[k];
      var c := LastChange(changes, k);
      Apply(rows, next, deletes, added, changes)[k] == if c.Some? then r.WithRemote(c.value) else r
    ensures next <= k < next + |added| ==>
      var r := added[k - next].(id := k);
      var c := LastChange(changes, k);
      Apply(rows, next, deletes, added, changes)[k] == if c.Some? then r.WithRemote(c.value) else r
  {
    var afterDelete := SoftDeleteAll(rows, deletes);
    var afterAdd := AddAll(afterDelete, next, added);
    forall j | j in afterDelete ensures j < next {
      SoftDeleteAllAt(rows, deletes, j);
    }
    SoftDeleteAllAt(rows, deletes, k);
    AddAllAt(afterDelete, next, added, k);
    UpdateAllAt(afterAdd, changes, k);
  }

  /**
   * What reconciliation does to one existing row, on its own: rows of other
   * parents are left alone, a row whose `indicoId` the server still lists gets
   * the last server record with that id, and any other row is soft-deleted.
   */
  function ReconciledRow<F, L>(row: Row<F, L>, parent: nat, index: map<int, Remote<F>>): (r: Row<F, L>)
    ensures r.id == row.id && r.parentId == row.parentId && r.local == row.local
    ensures row.deleted == 1 ==> r.deleted == 1
  {
    if row.parentId != parent then row
    else if row.indicoId in index then row.WithRemote(index[row.indicoId])
    else row.SoftDeleted()
  }

  /** The server ids of the rows of `parent`. */
  function ScopeIds<F, L>(rows: map<nat, Row<F, L>>, parent: nat): set<int> {
    set k | k in rows && rows[k].parentId == parent :: rows[k].indicoId
  }

  // ---------------------------------------------------------------------------
  // Lemmas: the reconcile step, key by key.

  lemma {:induction false} ScopeMember<F, L>(rows: map<nat, Row<F, L>>, parent: nat, n: nat, x: Row<F, L>)
    requires forall k :: k in rows ==> rows[k].id == k
    ensures x in Scope(rows, parent, n) <==> x.id < n && x.id in rows && rows[x.id] == x && x.parentId == parent
  {
    if n > 0 {
      ScopeMember(rows, parent, n - 1, x);
    }
  }

  lemma {:induction false} ScopeIdsOfScope<F, L>(st: TableState<F, L>, parent: nat)
    requires ValidState(st)
    ensures Ids(Scope(st.rows, parent, st.nextId), IndicoIdOf) == ScopeIds(st.rows, parent)
  {
    var s := Scope(st.rows, parent, st.nextId);
    forall v | v in Ids(s, IndicoIdOf) ensures v in ScopeIds(st.rows, parent) {
      var i :| 0 <= i < |s| && IndicoIdOf(s[i]) == v;
      ScopeMember(st.rows, parent, st.nextId, s[i]);
    }
    forall v | v in ScopeIds(st.rows, parent) ensures v in Ids(s, IndicoIdOf) {
      var k :| k in st.rows && st.rows[k].parentId == parent && st.rows[k].indicoId == v;
      ScopeMember(st.rows, parent, st.nextId, st.rows[k]);
      InIds(s, IndicoIdOf, st.rows[k]);
    }
  }

  /** The soft-deletes go exactly to the rows of `parent` whose id the server no longer lists. */
  lemma {:induction false} OnlyExistingKeys<F, L>(st: TableState<F, L>, parent: nat, remote: seq<Remote<F>>, k: nat)
    requires ValidState(st)
    ensures k in KeysOf(PartitionOf(st, parent, remote).onlyExisting) <==>
              k in st.rows && st.rows[k].parentId == parent && st.rows[k].indicoId !in Ids(remote, RemoteIdOf)
  {
    var a := Scope(st.rows, parent, st.nextId);
    var s := PartitionOf(st, parent, remote);
    var ks := KeysOf(s.onlyExisting);
    if k in ks {
      var i :| 0 <= i < |ks| && ks[i] == k;
      ScopeMember(st.rows, parent, st.nextId, s.onlyExisting[i]);
    }
    if k in st.rows && st.rows[k].parentId == parent && st.rows[k].indicoId !in Ids(remote, RemoteIdOf) {
      ScopeMember(st.rows, parent, st.nextId, st.rows[k]);
      var j :| 0 <= j < |a| && a[j] == st.rows[k];
      var i :| 0 <= i < |s.onlyExisting| && s.onlyExisting[i] == a[j];
      assert ks[i] == k;
    }
  }

  /** The matched rows are exactly the rows of `parent` the server still lists, each with its last server record. */
  lemma {:induction false} CommonChange<F, L>(st: TableState<F, L>, parent: nat, remote: seq<Remote<F>>, k: nat)
    requires ValidState(st)
    ensures var c := LastChange(ChangesOf(PartitionOf(st, parent, remote).common), k);
      && (c.Some? <==> k in st.rows && st.rows[k].parentId == parent && st.rows[k].indicoId in Ids(remote, RemoteIdOf))
      && (c.Some? ==> c.value == IndexById(remote, RemoteIdOf)[st.rows[k].indicoId])
  {
    var a := Scope(st.rows, parent, st.nextId);
    var s := PartitionOf(st, parent, remote);
    var cs := ChangesOf(s.common);
    var c := LastChange(cs, k);
    if c.Some? {
      var i :| 0 <= i < |cs| && cs[i].0 == k && cs[i].1 == c.value;
      ScopeMember(st.rows, parent, st.nextId, s.common[i].0);
    }
    if k in st.rows && st.rows[k].parentId == parent && st.rows[k].indicoId in Ids(remote, RemoteIdOf) {
      ScopeMember(st.rows, parent, st.nextId, st.rows[k]);
      var j :| 0 <= j < |a| && a[j] == st.rows[k];
      assert a[j] in Firsts(s.common);
      var i :| 0 <= i < |s.common| && Firsts(s.common)[i] == a[j];
      assert cs[i].0 == k;
    }
  }

  /** The reconcile step is one transaction over the partition of the rows of `parent`. */
  lemma {:induction false} ReconcileIsApply<F, L>(st: TableState<F, L>, parent: nat, remote: seq<Remote<F>>, insertNew: bool, localDefault: L)
    ensures var s := PartitionOf(st, parent, remote);
      var added := if insertNew then NewRows(s.onlyNew, parent, localDefault) else [];
      Reconcile(st, parent, remote, insertNew, localDefault).rows == Apply(st.rows, st.nextId, KeysOf(s.onlyExisting), added, ChangesOf(s.common))
  {
  }

  /** Every payload of the reconcile step goes to an existing key. */
  lemma {:induction false} ChangeKeysBelow<F, L>(st: TableState<F, L>, parent: nat, remote: seq<Remote<F>>)
    requires ValidState(st)
    ensures var cs := ChangesOf(PartitionOf(st, parent, remote).common);
      forall j :: 0 <= j < |cs| ==> cs[j].0 < st.nextId
  {
    var s := PartitionOf(st, parent, remote);
    var cs := ChangesOf(s.common);
    forall j | 0 <= j < |cs| ensures cs[j].0 < st.nextId {
      ScopeMember(st.rows, parent, st.nextId, s.common[j].0);
    }
  }

  /** An existing row after the reconcile step is its `ReconciledRow`. */
  lemma {:induction false} ReconcileExistingRow<F, L>(st: TableState<F, L>, parent: nat, remote: seq<Remote<F>>, insertNew: bool, localDefault: L, k: nat)
    requires ValidState(st) && k in st.rows
    ensures var r := Reconcile(st, parent, remote, insertNew, localDefault);
      k in r.rows && r.rows[k] == ReconciledRow(st.rows[k], parent, IndexById(remote, RemoteIdOf))
  {
    var s := PartitionOf(st, parent, remote);
    var added := if insertNew then NewRows(s.onlyNew, parent, localDefault) else [];
    OnlyExistingKeys(st, parent, remote, k);
    CommonChange(st, parent, remote, k);
    ApplyAt(st.rows, st.nextId, KeysOf(s.onlyExisting), added, ChangesOf(s.common), k);
    ReconcileIsApply(st, parent, remote, insertNew, localDefault);
  }

  /** A transaction stores every row under its own key, below the next free key. */
  lemma {:induction false} ApplyValid<F, L>(rows: map<nat, Row<F, L>>, next: nat, deletes: seq<nat>, added: seq<Row<F, L>>, changes: seq<(nat, Remote<F>)>)
    requires forall k :: k in rows ==> k < next && rows[k].id == k
    ensures var a := Apply(rows, next, deletes, added, changes);
      forall k :: k in a ==> k < next + |added| && a[k].id == k
  {
    var a := Apply(rows, next, deletes, added, changes);
    forall k | k in a ensures k < next + |added| && a[k].id == k {
      ApplyAt(rows, next, deletes, added, changes, k);
    }
  }

  /** The i-th inserted record is stored under `next + i` with the local defaults, when no payload goes to a new key. */
  lemma {:induction false} ApplyNewRow<F, L>(rows: map<nat, Row<F, L>>, next: nat, deletes: seq<nat>, news: seq<Remote<F>>, parent: nat, localDefault: L, changes: seq<(nat, Remote<F>)>, i: nat)
    requires forall j :: j in rows ==> j < next
    requires forall j :: 0 <= j < |changes| ==> changes[j].0 < next
    requires i < |news|
    ensures var a := Apply(rows, next, deletes, NewRows(news, parent, localDefault), changes);
      next + i in a && a[next + i] == Row(next + i, news[i].indicoId, parent, news[i].data, localDefault, 0)
  {
    ApplyAt(rows, next, deletes, NewRows(news, parent, localDefault), changes, next + i);
  }

  /** The i-th remote-only record, when inserted, is stored under `nextId + i` with the local defaults. */
  lemma {:induction false} ReconcileAddedRow<F, L>(st: TableState<F, L>, parent: nat, remote: seq<Remote<F>>, localDefault: L, i: nat)
    requires ValidState(st) && i < |PartitionOf(st, parent, remote).onlyNew|
    ensures var r := Reconcile(st, parent, remote, true, localDefault);
      var n := PartitionOf(st, parent, remote).onlyNew[i];
      st.nextId + i in r.rows && r.rows[st.nextId + i] == Row(st.nextId + i, n.indicoId, parent, n.data, localDefault, 0)
  {
    ChangeKeysBelow(st, parent, remote);
    ReconcileAddedRowBelow(st, parent, remote, localDefault, i);
  }

  lemma {:induction false} ReconcileAddedRowBelow<F, L>(st: TableState<F, L>, parent: nat, remote: seq<Remote<F>>, localDefault: L, i: nat)
    requires ValidState(st) && i < |PartitionOf(st, parent, remote).onlyNew|
    requires var cs := ChangesOf(PartitionOf(st, parent, remote).common); forall j :: 0 <= j < |cs| ==> cs[j].0 < st.nextId
    ensures var r := Reconcile(st, parent, remote, true, localDefault);
      var n := PartitionOf(st, parent, remote).onlyNew[i];
      st.nextId + i in r.rows && r.rows[st.nextId + i] == Row(st.nextId + i, n.indicoId, parent, n.data, localDefault, 0)
  {
    var s := PartitionOf(st, parent, remote);
    ApplyNewRow(st.rows, st.nextId, KeysOf(s.onlyExisting), s.onlyNew, parent, localDefault, ChangesOf(s.common), i);
    ReconcileIsApply(st, parent, remote, true, localDefault);
  }

  /** The reconcile step keeps every key and adds only the keys it hands out. */
  lemma {:induction false} ReconcileKeys<F, L>(st: TableState<F, L>, parent: nat, remote: seq<Remote<F>>, insertNew: bool, localDefault: L)
    requires ValidState(st)
    ensures var r := Reconcile(st, parent, remote, insertNew, localDefault);
      && r.nextId == st.nextId + (if insertNew then |PartitionOf(st, parent, remote).onlyNew| else 0)
      && forall k :: k in r.rows <==> k in st.rows || st.nextId <= k < r.nextId
  {
    var s := PartitionOf(st, parent, remote);
    var added := if insertNew then NewRows(s.onlyNew, parent, localDefault) else [];
    forall k: nat ensures k in Apply(st.rows, st.nextId, KeysOf(s.onlyExisting), added, ChangesOf(s.common)) <==> k in st.rows || st.nextId <= k < st.nextId + |added| {
      ApplyAt(st.rows, st.nextId, KeysOf(s.onlyExisting), added, ChangesOf(s.common), k);
    }
    ReconcileIsApply(st, parent, remote, insertNew, localDefault);
  }

  /** The reconcile step keeps every row under its own key and below the next key. */
  lemma {:induction false} ReconcileValid<F, L>(st: TableState<F, L>, parent: nat, remote: seq<Remote<F>>, insertNew: bool, localDefault: L)
    requires ValidState(st)
    ensures ValidState(Reconcile(st, parent, remote, insertNew, localDefault))
  {
    var s := PartitionOf(st, parent, remote);
    var added := if insertNew then NewRows(s.onlyNew, parent, localDefault) else [];
    ApplyValid(st.rows, st.nextId, KeysOf(s.onlyExisting), added, ChangesOf(s.common));
    ReconcileIsApply(st, parent, remote, insertNew, localDefault);
  }

  // ---------------------------------------------------------------------------
  // Lemmas: what the reconcile step promises.

  /** Rows of other parents are left exactly as they were. */
  lemma {:induction false} ReconcileOtherParents<F, L>(st: TableState<F, L>, parent: nat, remote: seq<Remote<F>>, insertNew: bool, localDefault: L, k: nat)
    requires ValidState(st) && k in st.rows && st.rows[k].parentId != parent
    ensures var r := Reconcile(st, parent, remote, insertNew, localDefault);
      k in r.rows && r.rows[k] == st.rows[k]
  {
    ReconcileExistingRow(st, parent, remote, insertNew, localDefault, k);
  }

  /** A row the server no longer lists is only flagged as deleted: it stays, with all its fields. */
  lemma {:induction false} ReconcileSoftDeletes<F, L>(st: TableState<F, L>, parent: nat, remote: seq<Remote<F>>, insertNew: bool, localDefault: L, k: nat)
    requires ValidState(st) && k in st.rows && st.rows[k].parentId == parent
    requires forall j :: 0 <= j < |remote| ==> remote[j].indicoId != st.rows[k].indicoId
    ensures var r := Reconcile(st, parent, remote, insertNew, localDefault);
      k in r.rows && r.rows[k] == st.rows[k].(deleted := 1)
  {
    ReconcileExistingRow(st, parent, remote, insertNew, localDefault, k);
    assert st.rows[k].indicoId !in IndexById(remote, RemoteIdOf);
  }

  /**
   * A row the server still lists takes the server-owned fields of the last
   * record with its id, and keeps its key, parent, local fields and flag: a
   * soft-deleted row is not revived, and local notes survive.
   */
  lemma {:induction false} ReconcileUpdatesMatched<F, L>(st: TableState<F, L>, parent: nat, remote: seq<Remote<F>>, insertNew: bool, localDefault: L, k: nat, j: nat)
    requires ValidState(st) && k in st.rows && st.rows[k].parentId == parent
    requires j < |remote| && remote[j].indicoId == st.rows[k].indicoId && LastWithId(remote, RemoteIdOf, j)
    ensures var r := Reconcile(st, parent, remote, insertNew, localDefault);
      k in r.rows && r.rows[k] == st.rows[k].(data := remote[j].data)
  {
    ReconcileExistingRow(st, parent, remote, insertNew, localDefault, k);
    IndexByIdLastWins(remote, RemoteIdOf, j);
  }

  /** Without `insertNew` (regforms) nothing is added: the keys and the next key stay. */
  lemma {:induction false} ReconcileAddsNothing<F, L>(st: TableState<F, L>, parent: nat, remote: seq<Remote<F>>, localDefault: L)
    requires ValidState(st)
    ensures var r := Reconcile(st, parent, remote, false, localDefault);
      r.nextId == st.nextId && r.rows.Keys == st.rows.Keys
  {
    ReconcileKeys(st, parent, remote, false, localDefault);
  }

  /**
   * An inserted row belongs to `parent`, is not deleted, carries the local
   * defaults, and has a server id that is in `remote` and that no row of
   * `parent` had: a record is never inserted twice.
   */
  lemma {:induction false} ReconcileInsertsOnlyNew<F, L>(st: TableState<F, L>, parent: nat, remote: seq<Remote<F>>, localDefault: L, i: nat)
    requires ValidState(st) && i < |PartitionOf(st, parent, remote).onlyNew|
    ensures var rows := Reconcile(st, parent, remote, true, localDefault).rows;
      && st.nextId + i in rows
      && rows[st.nextId + i].parentId == parent && rows[st.nextId + i].deleted == 0 && rows[st.nextId + i].local == localDefault
      && rows[st.nextId + i].indicoId in Ids(remote, RemoteIdOf)
      && rows[st.nextId + i].indicoId !in ScopeIds(st.rows, parent)
  {
    var s := PartitionOf(st, parent, remote);
    ReconcileAddedRow(st, parent, remote, localDefault, i);
    ScopeIdsOfScope(st, parent);
    InIds(remote, RemoteIdOf, s.onlyNew[i]);
  }

  /** After the reconcile step with `insertNew`, every server record has a row of `parent` with its id. */
  lemma {:induction false} ReconcileCoversRemote<F, L>(st: TableState<F, L>, parent: nat, remote: seq<Remote<F>>, localDefault: L, j: nat)
    requires ValidState(st) && j < |remote|
    ensures remote[j].indicoId in ScopeIds(Reconcile(st, parent, remote, true, localDefault).rows, parent)
  {
    var r := Reconcile(st, parent, remote, true, localDefault);
    var id := remote[j].indicoId;
    if id in ScopeIds(st.rows, parent) {
      var k :| k in st.rows && st.rows[k].parentId == parent && st.rows[k].indicoId == id;
      ReconcileExistingRow(st, parent, remote, true, localDefault, k);
      InIds(remote, RemoteIdOf, remote[j]);
      assert r.rows[k].indicoId == id && r.rows[k].parentId == parent;
    } else {
      var s := PartitionOf(st, parent, remote);
      ScopeIdsOfScope(st, parent);
      assert remote[j] in s.onlyNew;
      var i :| 0 <= i < |s.onlyNew| && s.onlyNew[i] == remote[j];
      ReconcileAddedRow(st, parent, remote, localDefault, i);
      assert r.rows[st.nextId + i].indicoId == id;
    }
  }

  /** A second reconcile step against the same records finds nothing new to insert. */
  lemma {:induction false} ReconcileNothingNewTwice<F, L>(st: TableState<F, L>, parent: nat, remote: seq<Remote<F>>, localDefault: L)
    requires ValidState(st)
    ensures PartitionOf(Reconcile(st, parent, remote, true, localDefault), parent, remote).onlyNew == []
  {
    var r := Reconcile(st, parent, remote, true, localDefault);
    var s := PartitionOf(r, parent, remote);
    if s.onlyNew != [] {
      ReconcileValid(st, parent, remote, true, localDefault);
      ScopeIdsOfScope(r, parent);
      var j :| 0 <= j < |remote| && remote[j] == s.onlyNew[0];
      ReconcileCoversRemote(st, parent, remote, localDefault, j);
      assert false;
    }
  }

  /** Reconciling a reconciled row against the same records changes nothing. */
  lemma {:induction false} ReconciledRowIdempotent<F, L>(row: Row<F, L>, parent: nat, remote: seq<Remote<F>>)
    ensures var index := IndexById(remote, RemoteIdOf);
      ReconciledRow(ReconciledRow(row, parent, index), parent, index) == ReconciledRow(row, parent, index)
  {
    var index := IndexById(remote, RemoteIdOf);
    if row.parentId == parent && row.indicoId in index {
      assert index[row.indicoId].indicoId == row.indicoId;
    }
  }

  /** An existing row after the reconcile step is already reconciled. */
  lemma {:induction false} ReconcileStableExisting<F, L>(st: TableState<F, L>, parent: nat, remote: seq<Remote<F>>, insertNew: bool, localDefault: L, k: nat)
    requires ValidState(st) && k in st.rows
    ensures var r := Reconcile(st, parent, remote, insertNew, localDefault);
      k in r.rows && ReconciledRow(r.rows[k], parent, IndexById(remote, RemoteIdOf)) == r.rows[k]
  {
    ReconcileExistingRow(st, parent, remote, insertNew, localDefault, k);
    ReconciledRowIdempotent(st.rows[k], parent, remote);
  }

  /** With unique server ids, an inserted row is already reconciled: it holds the record stored under its id. */
  lemma {:induction false} ReconcileStableAdded<F, L>(st: TableState<F, L>, parent: nat, remote: seq<Remote<F>>, localDefault: L, i: nat)
    requires ValidState(st) && UniqueIds(remote, RemoteIdOf) && i < |PartitionOf(st, parent, remote).onlyNew|
    ensures var r := Reconcile(st, parent, remote, true, localDefault);
      st.nextId + i in r.rows && ReconciledRow(r.rows[st.nextId + i], parent, IndexById(remote, RemoteIdOf)) == r.rows[st.nextId + i]
  {
    var s := PartitionOf(st, parent, remote);
    ReconcileAddedRow(st, parent, remote, localDefault, i);
    var j :| 0 <= j < |remote| && remote[j] == s.onlyNew[i];
    assert LastWithId(remote, RemoteIdOf, j);
    IndexByIdLastWins(remote, RemoteIdOf, j);
  }

  /** With unique server ids, every row after the reconcile step is already reconciled. */
  lemma {:induction false} ReconcileStable<F, L>(st: TableState<F, L>, parent: nat, remote: seq<Remote<F>>, insertNew: bool, localDefault: L, k: nat)
    requires ValidState(st) && UniqueIds(remote, RemoteIdOf)
    requires k in Reconcile(st, parent, remote, insertNew, localDefault).rows
    ensures var r := Reconcile(st, parent, remote, insertNew, localDefault);
      ReconciledRow(r.rows[k], parent, IndexById(remote, RemoteIdOf)) == r.rows[k]
  {
    ReconcileKeys(st, parent, remote, insertNew, localDefault);
    if k in st.rows {
      ReconcileStableExisting(st, parent, remote, insertNew, localDefault, k);
    } else {
      var i := k - st.nextId;
      assert insertNew && 0 <= i < |PartitionOf(st, parent, remote).onlyNew|;
      ReconcileStableAdded(st, parent, remote, localDefault, i);
    }
  }

  /** A second reconcile step against the same records hands out no key. */
  lemma {:induction false} ReconcileTwiceKeys<F, L>(st: TableState<F, L>, parent: nat, remote: seq<Remote<F>>, insertNew: bool, localDefault: L)
    requires ValidState(st)
    ensures var r := Reconcile(st, parent, remote, insertNew, localDefault);
      var r2 := Reconcile(r, parent, remote, insertNew, localDefault);
      r2.nextId == r.nextId && r2.rows.Keys == r.rows.Keys
  {
    ReconcileValid(st, parent, remote, insertNew, localDefault);
    ReconcileKeys(Reconcile(st, parent, remote, insertNew, localDefault), parent, remote, insertNew, localDefault);
    if insertNew {
      ReconcileNothingNewTwice(st, parent, remote, localDefault);
    }
  }

  /** With unique server ids, a second reconcile step leaves every row as the first one left it. */
  lemma {:induction false} ReconcileTwiceRows<F, L>(st: TableState<F, L>, parent: nat, remote: seq<Remote<F>>, insertNew: bool, localDefault: L)
    requires ValidState(st) && UniqueIds(remote, RemoteIdOf)
    ensures var r := Reconcile(st, parent, remote, insertNew, localDefault);
      var r2 := Reconcile(r, parent, remote, insertNew, localDefault);
      forall k :: k in r.rows ==> k in r2.rows && r2.rows[k] == r.rows[k]
  {
    var r := Reconcile(st, parent, remote, insertNew, localDefault);
    var r2 := Reconcile(r, parent, remote, insertNew, localDefault);
    ReconcileValid(st, parent, remote, insertNew, localDefault);
    forall k | k in r.rows ensures k in r2.rows && r2.rows[k] == r.rows[k] {
      ReconcileExistingRow(r, parent, remote, insertNew, localDefault, k);
      ReconcileStable(st, parent, remote, insertNew, localDefault, k);
    }
  }

  /**
   * With unique server ids, the reconcile step is idempotent: a second sync
   * against the same records leaves the table as the first one left it.
   */
  lemma {:induction false} ReconcileIdempotent<F, L>(st: TableState<F, L>, parent: nat, remote: seq<Remote<F>>, insertNew: bool, localDefault: L)
    requires ValidState(st) && UniqueIds(remote, RemoteIdOf)
    ensures var r := Reconcile(st, parent, remote, insertNew, localDefault);
      Reconcile(r, parent, remote, insertNew, localDefault) == r
  {
    var r := Reconcile(st, parent, remote, insertNew, localDefault);
    var r2 := Reconcile(r, parent, remote, insertNew, localDefault);
    ReconcileTwiceKeys(st, parent, remote, insertNew, localDefault);
    ReconcileTwiceRows(st, parent, remote, insertNew, localDefault);
    assert r2.rows == r.rows;
  }
}
