/** The physical delta table of one scenario table, and a statement's lazily resolved map of
    the keys it references. */
module DeltaStore {
  import opened Values
  import opened KeyedDelta
  import opened KeyedConstraints

  /** State of one key in the delta table; row id -1 is a row this statement has written. */
  datatype KeyInfo = KeyInfo(op: Op, rowId: int)

  const PENDING: int := -1

  /** The index leads to every row by its key. */
  ghost predicate Indexed(rows: map<int, Change>, index: map<Key, int>) {
    && (forall id :: id in rows ==> 0 <= id && rows[id].row.key in index && index[rows[id].row.key] == id)
    && (forall k :: k in index ==> index[k] in rows && rows[index[k]].row.key == k)
  }

  function Stored(rows: map<int, Change>, index: map<Key, int>): Delta
    requires Indexed(rows, index)
  {
    map k | k in index :: rows[index[k]]
  }

  /** Some index of us holds the values of row. */
  predicate Clashes(us: seq<Constraint>, rows: map<int, Change>, row: Row) {
    exists u, id :: u in us && id in rows && Clash(u, rows[id].row, row)
  }

  lemma FreeIffNoClash(us: seq<Constraint>, rows: map<int, Change>, index: map<Key, int>, row: Row)
    requires Indexed(rows, index)
    ensures Free(us, Stored(rows, index), row) <==> !Clashes(us, rows, row)
  {
    var stored := Stored(rows, index);
    if Clashes(us, rows, row) {
      var u, id :| u in us && id in rows && Clash(u, rows[id].row, row);
      var k := rows[id].row.key;
      assert u in us && k in stored && stored[k] == rows[id] && Clash(u, stored[k].row, row);
      assert !Free(us, stored, row);
    }
    if !Free(us, stored, row) {
      var u, k :| u in us && k in stored && Clash(u, stored[k].row, row);
      var id := index[k];
      assert id in rows && Clash(u, rows[id].row, row);
      assert Clashes(us, rows, row);
    }
  }

  lemma StoredOneMore(rows: map<int, Change>, index: map<Key, int>, id: int, c: Change)
    requires Indexed(rows, index) && 0 <= id && id !in rows && c.row.key !in index
    ensures Indexed(rows[id := c], index[c.row.key := id])
    ensures Stored(rows[id := c], index[c.row.key := id]) == Stored(rows, index)[c.row.key := c]
  {
  }

  /** Unique indexes over the key and over each mirrored constraint. */
  class DeltaTable {
    const us: seq<Constraint>
    var rows: map<int, Change>
    var index: map<Key, int>
    var nextId: int

    ghost predicate Valid()
      reads this
    {
      && nextId >= 0 && Indexed(rows, index)
      && (forall id :: id in rows ==> id < nextId)
      && UniqueAll(us, Stored(rows, index))
    }

    ghost function Delta(): Delta
      requires Valid()
      reads this
    {
      Stored(rows, index)
    }

    constructor (us: seq<Constraint>)
      ensures Valid() && Delta() == map[] && this.us == us
    {
      this.us := us;
      rows, index, nextId := map[], map[], 0;
    }

    /** The PRIMARY KEY index: the op and the row id stored under a key. */
    method Lookup(k: Key) returns (hit: Option<KeyInfo>)
      requires Valid()
      ensures hit.Some? <==> k in Delta()
      ensures hit.Some? ==> hit.value == KeyInfo(Delta()[k].op, index[k])
    {
      hit := if k in index then Some(KeyInfo(rows[index[k]].op, index[k])) else None;
    }

    method Remove(id: int)
      requires Valid() && id in rows
      modifies this
      ensures Valid() && rows == old(rows) - {id} && index == old(index) - {old(rows)[id].row.key}
      ensures nextId == old(nextId)
    {
      UniqueWithin(us, Stored(rows - {id}, index - {rows[id].row.key}), Stored(rows, index));
      index := index - {rows[id].row.key};
      rows := rows - {id};
    }

    /** Refused when an index - the key's or a mirrored one - already holds the row's values. */
    method Append(c: Change) returns (ok: bool)
      requires Valid()
      modifies this
      ensures Valid() && (ok <==> c.row.key !in old(index) && UniqueAll(us, old(Delta())[c.row.key := c]))
      ensures ok ==> Delta() == old(Delta())[c.row.key := c]
      ensures ok ==> forall k :: k in old(index) ==> k in index && index[k] == old(index)[k]
      ensures !ok ==> rows == old(rows) && index == old(index)
    {
      if c.row.key in index { return false; }
      FreeIffNoClash(us, rows, index, c.row);
      UniqueOneMore(us, Stored(rows, index), c);
      ok := !Clashes(us, rows, c.row);
      if ok {
        StoredOneMore(rows, index, nextId, c);
        rows, index, nextId := rows[nextId := c], index[c.row.key := nextId], nextId + 1;
      }
    }
  }

  /** The version of the table that a transaction works on. */
  method Copy(table: DeltaTable) returns (copy: DeltaTable)
    requires table.Valid()
    ensures fresh(copy) && copy.Valid() && copy.us == table.us && copy.Delta() == table.Delta()
  {
    copy := new DeltaTable(table.us);
    copy.rows, copy.index, copy.nextId := table.rows, table.index, table.nextId;
  }

  /** done: the keys the statement has changed; cur: the delta with those changes.  On the
      keys it knows, the map is the delta at statement start plus the statement's changes. */
  ghost predicate InSync(indexed: bool, keys: map<Key, KeyInfo>, resolved: set<Key>, index: map<Key, int>,
                         stored: Delta,
                         cur: Delta, done: set<Key>) {
    && (forall k :: k in keys ==> k in cur && keys[k].op == cur[k].op)
    && (forall k :: k in keys ==>
          if k in done then keys[k].rowId == PENDING else k in index && keys[k].rowId == index[k])
    && (forall k :: k in cur && (!indexed || k in resolved) ==> k in keys)
    && (forall k :: indexed && (k in done || k in keys) ==> k in resolved)
    && (forall k :: k !in done ==> (k in cur <==> k in stored) && (k in cur ==> cur[k] == stored[k]))
    && stored.Keys == index.Keys
  }

  lemma SyncAfterWrite(indexed: bool, keys: map<Key, KeyInfo>, resolved: set<Key>, index: map<Key, int>, stored: Delta,
                       cur: Delta, done: set<Key>, c: Change)
    requires InSync(indexed, keys, resolved, index, stored, cur, done) && (indexed ==> c.row.key in resolved)
    ensures InSync(indexed, keys[c.row.key := KeyInfo(c.op, PENDING)], resolved, index, stored, cur[c.row.key := c],
                   done + {c.row.key})
  {
  }

  /** A key the map knows and the statement has not changed carries its real row id. */
  lemma KnownRowId(indexed: bool, keys: map<Key, KeyInfo>, resolved: set<Key>, index: map<Key, int>, stored: Delta,
                   cur: Delta, done: set<Key>, k: Key)
    requires InSync(indexed, keys, resolved, index, stored, cur, done) && k in keys && k !in done
    ensures k in index && keys[k].rowId == index[k] && k in cur
  {
  }

  /** After a flush the table holds the statement's progress; untouched rows kept their ids. */
  lemma SyncAfterFlush(indexed: bool, keys: map<Key, KeyInfo>, resolved: set<Key>, index: map<Key, int>, stored: Delta,
                       cur: Delta, done: set<Key>, flushed: map<Key, int>)
    requires InSync(indexed, keys, resolved, index, stored, cur, done) && flushed.Keys == cur.Keys
    requires forall k :: k in cur && k !in done ==> k in index && flushed[k] == index[k]
    ensures InSync(indexed, keys, resolved, flushed, cur, cur, done)
  {
  }

  lemma SyncAfterDrop(indexed: bool, keys: map<Key, KeyInfo>, resolved: set<Key>, index: map<Key, int>, stored: Delta,
                      cur: Delta, done: set<Key>, k: Key)
    requires InSync(indexed, keys, resolved, index, stored, cur, done) && k in keys
    ensures InSync(indexed, keys - {k}, resolved, index, stored, cur - {k}, done + {k})
  {
  }

  /** A statement's view of the delta.  With a key index the keys are probed on demand, each
      once; without one the whole delta is loaded when the statement starts. */
  class DeltaKeyMap {
    const table: DeltaTable
    const indexed: bool
    var keys: map<Key, KeyInfo>
    var resolved: set<Key>

    predicate Known(k: Key)
      reads this`resolved
    {
      !indexed || k in resolved
    }

    ghost predicate Synced(cur: Delta, done: set<Key>)
      reads this, table
    {
      table.Valid() && InSync(indexed, keys, resolved, table.index, table.Delta(), cur, done)
    }

    constructor (table: DeltaTable, indexed: bool)
      requires table.Valid()
      ensures this.table == table && this.indexed == indexed
      ensures Synced(table.Delta(), {})
    {
      this.table, this.indexed := table, indexed;
      resolved := {};
      keys :=
        if indexed then map[]
        else map k | k in table.index :: KeyInfo(table.rows[table.index[k]].op, table.index[k]);
    }

    /** One probe of the key index, before the statement changes the key. */
    method ResolveKey(k: Key, ghost cur: Delta, ghost done: set<Key>)
      requires Synced(cur, done) && indexed
      modifies this
      ensures Synced(cur, done) && resolved == old(resolved) + {k}
      ensures k in old(resolved) ==> keys == old(keys)
      ensures keys - {k} == old(keys) - {k}
    {
      if k !in resolved {
        var hit := table.Lookup(k);
        resolved := resolved + {k};
        if hit.Some? {
          keys := keys[k := hit.value];
        }
      }
    }

    /** Resolves the keys a chunk references; keys known before are left as they are. */
    method Resolve(chunk: seq<Key>, ghost cur: Delta, ghost done: set<Key>)
      requires Synced(cur, done)
      modifies this
      ensures Synced(cur, done)
      ensures old(resolved) <= resolved && forall i :: 0 <= i < |chunk| ==> Known(chunk[i])
    {
      if !indexed { return; }
      for i := 0 to |chunk|
        invariant Synced(cur, done) && old(resolved) <= resolved
        invariant forall j :: 0 <= j < i ==> chunk[j] in resolved
      {
        ResolveKey(chunk[i], cur, done);
      }
    }
  }

  // ----- pending removals and appends of one chunk -----

  ghost function KeptRows(rows: map<int, Change>, index: map<Key, int>, removes: seq<int>): Delta
    requires forall k :: k in index ==> index[k] in rows
  {
    map k | k in index && index[k] !in removes :: rows[index[k]]
  }

  /** cur is what the table will hold once the pending removals and appends are flushed. */
  ghost predicate Pending(rows: map<int, Change>, index: map<Key, int>, removes: seq<int>, appends: seq<Change>,
                          cur: Delta)
    requires Indexed(rows, index)
  {
    && (forall i :: 0 <= i < |removes| ==> removes[i] in rows)
    && (forall i, j :: 0 <= i < j < |removes| ==> removes[i] != removes[j])
    && DistinctKeys(appends)
    && KeptRows(rows, index, removes).Keys !! DeltaOf(appends).Keys
    && cur == KeptRows(rows, index, removes) + DeltaOf(appends)
  }

  lemma NothingPending(rows: map<int, Change>, index: map<Key, int>)
    requires Indexed(rows, index)
    ensures Pending(rows, index, [], [], Stored(rows, index))
  {
    assert KeptRows(rows, index, []) == Stored(rows, index);
  }

  lemma {:induction false} DeltaOfKeys(appends: seq<Change>)
    ensures forall i :: 0 <= i < |appends| ==> appends[i].row.key in DeltaOf(appends)
    ensures forall k :: k in DeltaOf(appends) ==> exists i :: 0 <= i < |appends| && appends[i].row.key == k
  {
    if appends != [] {
      var n := |appends| - 1;
      DeltaOfKeys(appends[..n]);
      forall i | 0 <= i < |appends| ensures appends[i].row.key in DeltaOf(appends) {
        assert i < n ==> appends[..n][i] == appends[i];
      }
      forall k | k in DeltaOf(appends) ensures exists i :: 0 <= i < |appends| && appends[i].row.key == k {
        if k != appends[n].row.key {
          var i :| 0 <= i < n && appends[..n][i].row.key == k;
          assert appends[i].row.key == k;
        }
      }
    }
  }

  lemma DeltaOfStep(appends: seq<Change>, i: nat)
    requires i < |appends| && DistinctKeys(appends)
    ensures DeltaOf(appends[..i + 1]) == DeltaOf(appends[..i])[appends[i].row.key := appends[i]]
    ensures appends[i].row.key !in DeltaOf(appends[..i]) && appends[i].row.key in DeltaOf(appends)
  {
    assert appends[..i + 1][..i] == appends[..i];
    DeltaOfKeys(appends[..i]);
    DeltaOfKeys(appends);
  }

  lemma KeyIsNew(appends: seq<Change>, k: Key, i: nat)
    requires k !in DeltaOf(appends) && i < |appends|
    ensures appends[i].row.key != k
  {
    DeltaOfKeys(appends);
  }

  lemma DistinctKeysOneMore(appends: seq<Change>, c: Change)
    requires DistinctKeys(appends) && c.row.key !in DeltaOf(appends)
    ensures DistinctKeys(appends + [c])
    ensures DeltaOf(appends + [c]) == DeltaOf(appends)[c.row.key := c]
  {
    forall i | 0 <= i < |appends| ensures appends[i].row.key != c.row.key { KeyIsNew(appends, c.row.key, i); }
    assert (appends + [c])[..|appends|] == appends;
  }

  /** One more append, of a key the delta will not hold otherwise. */
  lemma PendAppend(rows: map<int, Change>, index: map<Key, int>, removes: seq<int>, appends: seq<Change>, cur: Delta,
                   c: Change)
    requires Indexed(rows, index) && Pending(rows, index, removes, appends, cur) && c.row.key !in cur
    ensures Pending(rows, index, removes, appends + [c], cur[c.row.key := c])
  {
    DistinctKeysOneMore(appends, c);
  }

  /** One more removal, of a row that was neither removed nor appended by the statement. */
  lemma PendRemove(rows: map<int, Change>, index: map<Key, int>, removes: seq<int>, appends: seq<Change>, cur: Delta,
                   k: Key)
    requires Indexed(rows, index) && Pending(rows, index, removes, appends, cur)
    requires k in cur && k !in DeltaOf(appends)
    ensures k in index && index[k] >= 0
    ensures Pending(rows, index, removes + [index[k]], appends, cur - {k})
  {
    var more := removes + [index[k]];
    assert forall i :: 0 <= i < |removes| ==> removes[i] != index[k];
    forall j ensures j in KeptRows(rows, index, more) <==> j in KeptRows(rows, index, removes) && j != k {
      if j in index { assert index[j] in more <==> index[j] in removes || index[j] == index[k]; }
    }
    assert KeptRows(rows, index, more) == KeptRows(rows, index, removes) - {k};
  }

  lemma KeptAfterRemove(rows: map<int, Change>, index: map<Key, int>, k: Key, rest: seq<int>)
    requires k in index && forall j :: j in index ==> index[j] in rows && rows[index[j]].row.key == j
    ensures forall j :: j in index - {k} ==> (index - {k})[j] in rows - {index[k]}
    ensures KeptRows(rows - {index[k]}, index - {k}, rest) == KeptRows(rows, index, [index[k]] + rest)
  {
  }

  method FlushDeletes(table: DeltaTable, removes: seq<int>)
    requires table.Valid()
    requires forall i :: 0 <= i < |removes| ==> removes[i] in table.rows
    requires forall i, j :: 0 <= i < j < |removes| ==> removes[i] != removes[j]
    modifies table
    ensures table.Valid() && table.Delta() == old(KeptRows(table.rows, table.index, removes))
    ensures forall k :: k in table.index ==> k in old(table.index) && table.index[k] == old(table.index)[k]
  {
    assert removes[0..] == removes;
    for i := 0 to |removes|
      invariant table.Valid()
      invariant forall j :: i <= j < |removes| ==> removes[j] in table.rows
      invariant KeptRows(table.rows, table.index, removes[i..]) == old(KeptRows(table.rows, table.index, removes))
      invariant forall k :: k in table.index ==> k in old(table.index) && table.index[k] == old(table.index)[k]
    {
      assert removes[i..] == [removes[i]] + removes[i + 1..];
      ghost var k := table.rows[removes[i]].row.key;
      assert k in table.index && table.index[k] == removes[i];
      KeptAfterRemove(table.rows, table.index, k, removes[i + 1..]);
      table.Remove(removes[i]);
    }
    assert removes[|removes|..] == [];
  }

  lemma UpdateAfterMerge(a: Delta, b: Delta, k: Key, c: Change)
    ensures (a + b)[k := c] == a + b[k := c]
  {
  }

  lemma OneMoreWithin(kept: Delta, m: Delta, k: Key, c: Change, big: Delta)
    requires k !in kept && k !in m && Within(kept + m[k := c], big)
    ensures Within(kept + m, big)
  {
    forall j | j in kept + m ensures j in big && (kept + m)[j] == big[j] {
      assert j in kept + m[k := c] && (kept + m[k := c])[j] == (kept + m)[j];
    }
  }

  lemma PrefixWithin(kept: Delta, appends: seq<Change>, i: nat)
    requires DistinctKeys(appends) && kept.Keys !! DeltaOf(appends).Keys && i <= |appends|
    ensures Within(kept + DeltaOf(appends[..i]), kept + DeltaOf(appends))
    decreases |appends| - i
  {
    if i == |appends| {
      assert appends[..i] == appends;
    } else {
      DeltaOfStep(appends, i);
      PrefixWithin(kept, appends, i + 1);
      OneMoreWithin(kept, DeltaOf(appends[..i]), appends[i].row.key, appends[i], kept + DeltaOf(appends));
    }
  }

  /** Accepted exactly when every index stays unique with all rows in. */
  method FlushAppends(table: DeltaTable, appends: seq<Change>) returns (ok: bool)
    requires table.Valid() && DistinctKeys(appends) && table.Delta().Keys !! DeltaOf(appends).Keys
    modifies table
    ensures ok <==> UniqueAll(table.us, old(table.Delta()) + DeltaOf(appends))
    ensures ok ==> table.Valid() && table.Delta() == old(table.Delta()) + DeltaOf(appends)
    ensures ok ==> forall k :: k in old(table.index) ==> k in table.index && table.index[k] == old(table.index)[k]
  {
    ok := true;
    ghost var kept := table.Delta();
    for i := 0 to |appends|
      invariant ok && table.Valid()
      invariant table.Delta() == kept + DeltaOf(appends[..i])
      invariant forall k :: k in old(table.index) ==> k in table.index && table.index[k] == old(table.index)[k]
    {
      DeltaOfStep(appends, i);
      assert appends[i].row.key !in kept;
      UpdateAfterMerge(kept, DeltaOf(appends[..i]), appends[i].row.key, appends[i]);
      ok := table.Append(appends[i]);
      if !ok {
        PrefixRefuses(table.us, kept, appends, i + 1);
        return;
      }
    }
    assert appends[..|appends|] == appends;
  }

  lemma PrefixRefuses(us: seq<Constraint>, kept: Delta, appends: seq<Change>, i: nat)
    requires DistinctKeys(appends) && kept.Keys !! DeltaOf(appends).Keys && i <= |appends|
    ensures UniqueAll(us, kept + DeltaOf(appends)) ==> UniqueAll(us, kept + DeltaOf(appends[..i]))
  {
    PrefixWithin(kept, appends, i);
    if UniqueAll(us, kept + DeltaOf(appends)) {
      UniqueWithin(us, kept + DeltaOf(appends[..i]), kept + DeltaOf(appends));
    }
  }

  /** Deletes first, then appends: the key index accepts every replacement row, the mirrored
      indexes exactly those that leave them unique, and rows the statement left alone keep
      their row ids. */
  method Flush(table: DeltaTable, removes: seq<int>, appends: seq<Change>, ghost cur: Delta) returns (ok: bool)
    requires table.Valid() && Pending(table.rows, table.index, removes, appends, cur)
    modifies table
    ensures ok <==> UniqueAll(table.us, cur)
    ensures ok ==> table.Valid() && table.Delta() == cur && table.index.Keys == cur.Keys
    ensures ok ==> forall k :: k in cur && k !in DeltaOf(appends) ==>
              k in old(table.index)
              && table.index[k] == old(table.index)[k]
    ensures ok ==> Pending(table.rows, table.index, [], [], cur)
  {
    FlushDeletes(table, removes);
    ok := FlushAppends(table, appends);
    if ok {
      assert table.Delta().Keys == table.index.Keys;
      NothingPending(table.rows, table.index);
    }
  }
}
