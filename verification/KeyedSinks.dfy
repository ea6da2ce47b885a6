/** The write sinks of a keyed scenario table.  One object is the state of one statement; its
    chunks arrive one by one.  Each sink refines the abstract statement fold of KeyedDelta. */
module KeyedSinks {
  import opened Values
  import opened KeyedDelta
  import opened DeltaStore
  import opened TouchedRows
  import opened KeyedConstraints
  import opened KeyedUnique

  /** Anything but Applied aborts the statement, and its transaction undoes it. */
  datatype Outcome = Applied | DoubleTouch | DuplicateInScenario | DuplicateInBase | UniqueInScenario | UniqueInBase

  /** A row an UPDATE or DELETE read: origin 1 is a delta row, origin 0 a base row. */
  datatype UpdateInput = UpdateInput(fromDelta: bool, assign: Assign)
  datatype DeleteInput = DeleteInput(fromDelta: bool, key: Key)

  predicate FromScan(start: Delta, fromDelta: bool, k: Key) {
    if fromDelta then Visible(start, k) else k !in start
  }

  function Assigns(chunk: seq<UpdateInput>): (r: seq<Assign>)
    ensures |r| == |chunk| && forall i :: 0 <= i < |chunk| ==> r[i] == chunk[i].assign
  {
    seq(|chunk|, i requires 0 <= i < |chunk| => chunk[i].assign)
  }

  function ReadKeys(chunk: seq<UpdateInput>): (r: seq<Key>)
    ensures |r| == |chunk| && forall i :: 0 <= i < |chunk| ==> r[i] == chunk[i].assign.at
  {
    seq(|chunk|, i requires 0 <= i < |chunk| => chunk[i].assign.at)
  }

  function ImageKeys(chunk: seq<UpdateInput>): (r: seq<Key>)
    ensures |r| == |chunk| && forall i :: 0 <= i < |chunk| ==> r[i] == chunk[i].assign.image.key
  {
    seq(|chunk|, i requires 0 <= i < |chunk| => chunk[i].assign.image.key)
  }

  function Keys(chunk: seq<DeleteInput>): (r: seq<Key>)
    ensures |r| == |chunk| && forall i :: 0 <= i < |chunk| ==> r[i] == chunk[i].key
  {
    seq(|chunk|, i requires 0 <= i < |chunk| => chunk[i].key)
  }

  predicate AnyIn(verify: seq<Key>, probe: set<Key>) {
    exists k :: k in verify && k in probe
  }

  /** The statement has changed the delta at the keys of done only. */
  ghost predicate SameExcept(start: Delta, cur: Delta, done: set<Key>) {
    forall k :: k !in done ==> (k in cur <==> k in start) && (k in cur ==> cur[k] == start[k])
  }

  lemma PutBack(m: Delta, k: Key, c: Change)
    ensures (m - {k})[k := c] == m[k := c]
  {
  }

  /** What scheduling the removal of k's delta row does to the sink's bookkeeping. */
  lemma DropFacts(rows: map<int, Change>, index: map<Key, int>, indexed: bool, keys: map<Key, KeyInfo>,
                  resolved: set<Key>, removes: seq<int>, appends: seq<Change>,
                  start: Delta, cur: Delta, done: set<Key>, k: Key)
    requires Indexed(rows, index) && InSync(indexed, keys, resolved, index, Stored(rows, index), cur, done)
    requires Pending(rows, index, removes, appends, cur) && DeltaOf(appends).Keys <= done
             && SameExcept(start, cur, done)
    requires k in keys && k !in done
    ensures InSync(indexed, keys - {k}, resolved, index, Stored(rows, index), cur - {k}, done + {k})
    ensures Pending(rows, index, removes + [keys[k].rowId], appends, cur - {k})
    ensures DeltaOf(appends).Keys <= done + {k} && SameExcept(start, cur - {k}, done + {k})
    ensures PENDING !in removes + [keys[k].rowId]
  {
    KnownRowId(indexed, keys, resolved, index, Stored(rows, index), cur, done, k);
    PendRemove(rows, index, removes, appends, cur, k);
    SyncAfterDrop(indexed, keys, resolved, index, Stored(rows, index), cur, done, k);
  }

  /** The same for a new delta row. */
  lemma AddFacts(rows: map<int, Change>, index: map<Key, int>, indexed: bool, keys: map<Key, KeyInfo>,
                 resolved: set<Key>, removes: seq<int>, appends: seq<Change>,
                 start: Delta, cur: Delta, done: set<Key>, c: Change)
    requires Indexed(rows, index) && InSync(indexed, keys, resolved, index, Stored(rows, index), cur, done)
    requires Pending(rows, index, removes, appends, cur) && DeltaOf(appends).Keys <= done
             && SameExcept(start, cur, done)
    requires c.row.key !in cur && (indexed ==> c.row.key in resolved)
    ensures var k := c.row.key;
            && InSync(indexed, keys[k := KeyInfo(c.op, PENDING)], resolved, index, Stored(rows, index), cur[k := c],
                      done + {k})
            && Pending(rows, index, removes, appends + [c], cur[k := c])
            && DeltaOf(appends + [c]).Keys <= done + {k} && SameExcept(start, cur[k := c], done + {k})
  {
    SyncAfterWrite(indexed, keys, resolved, index, Stored(rows, index), cur, done, c);
    PendAppend(rows, index, removes, appends, cur, c);
    DistinctKeysOneMore(appends, c);
  }

  /** The key map answers for every key it has resolved. */
  lemma KeyAnswer(indexed: bool, keys: map<Key, KeyInfo>, resolved: set<Key>, index: map<Key, int>, stored: Delta,
                  cur: Delta, done: set<Key>, k: Key)
    requires InSync(indexed, keys, resolved, index, stored, cur, done) && (indexed ==> k in resolved)
    ensures (k in keys <==> k in cur) && (k in keys ==> keys[k].op == cur[k].op)
  {
  }

  /** The statement fold with the base probe put off to the end of the chunk: it accepts when
      the fold without a base accepts and no freshly claimed key is a base key. */
  ghost predicate ProbedLater(probe: set<Key>, p: Progress, rows: seq<Assign>, verify: seq<Key>, q: Progress) {
    UpdateRows({}, p, rows) == Some(q) &&
    UpdateRows(probe, p, rows) == if AnyIn(verify, probe) then None else Some(q)
  }

  lemma ProbeOneMore(probe: set<Key>, p: Progress, rows: seq<Assign>, i: nat, verify: seq<Key>, q: Progress)
    requires i < |rows| && ProbedLater(probe, p, rows[..i], verify, q)
    ensures var a := rows[i];
            var next := UpdateRow({}, q, a);
            var more := verify + if a.Moves() && a.image.key !in q.delta then [a.image.key] else [];
            && (next.Some? ==> ProbedLater(probe, p, rows[..i + 1], more, next.value))
            && (next.None? ==> UpdateRows(probe, p, rows).None? && UpdateRows({}, p, rows).None?)
  {
    var a := rows[i];
    UpdatePrefix(probe, p, rows, i);
    UpdatePrefix({}, p, rows, i);
    var claimed := if a.Moves() && a.image.key !in q.delta then [a.image.key] else [];
    assert AnyIn(verify + claimed, probe) <==> AnyIn(verify, probe) || AnyIn(claimed, probe);
    if UpdateRow({}, q, a).None? {
      RejectedPrefixRejects(probe, p, rows, i + 1);
      RejectedPrefixRejects({}, p, rows, i + 1);
    } else if claimed != [] {
      assert claimed[0] == a.image.key;
    }
  }

  /** Why the sink refuses a row: one of its keys was touched before, or else the key it moves to
      is visible. */
  predicate RefusedFor(p: Progress, a: Assign, o: Outcome) {
    if a.at in p.touched || (a.image.key != a.at && a.image.key in p.touched) then o == DoubleTouch
    else o == DuplicateInScenario && a.image.key != a.at && Visible(p.delta, a.image.key)
  }

  /** The verdict on one row, and what an accepted one leaves. */
  lemma RowVerdict(p: Progress, a: Assign)
    ensures UpdateRow({}, p, a).Some? <==>
            a.at !in p.touched
            && (a.Moves() ==> a.image.key !in p.touched && !Visible(p.delta, a.image.key))
    ensures UpdateRow({}, p, a).Some? ==>
              UpdateRow({}, p, a).value.delta == (if a.Moves() then Claim(Vacate(p.delta, a.at), a.image)
                                                  else Rewrite(p.delta, a.image))
              && UpdateRow({}, p, a).value.touched == p.touched + a.Touches()
  {
    if !a.Moves() { assert a.Touches() == {a.at}; }
  }

  /** The first row that is refused says why the chunk is. */
  ghost predicate FirstRefusal(p: Progress, rows: seq<Assign>, o: Outcome) {
    exists i :: 0 <= i < |rows| && UpdateRows({}, p, rows[..i]).Some?
        && RefusedFor(UpdateRows({}, p, rows[..i]).value, rows[i], o)
  }

  function RowKeys(chunk: seq<Row>): (r: seq<Key>)
    ensures |r| == |chunk| && forall i :: 0 <= i < |chunk| ==> r[i] == chunk[i].key
  {
    seq(|chunk|, i requires 0 <= i < |chunk| => chunk[i].key)
  }

  /** An INSERT leaves every key it has changed visible. */
  ghost predicate AllVisible(cur: Delta, done: set<Key>) {
    forall k :: k in done ==> Visible(cur, k)
  }

  lemma ClaimedIsVisible(cur: Delta, done: set<Key>, row: Row)
    requires AllVisible(cur, done)
    ensures AllVisible(Claim(cur, row), done + {row.key}) && (row.key in done ==> Visible(cur, row.key))
  {
  }

  ghost predicate InsertedLater(probe: set<Key>, delta: Delta, rows: seq<Row>, verify: seq<Key>, cur: Delta) {
    InsertRows({}, delta, rows) == Some(cur) &&
    InsertRows(probe, delta, rows) == if AnyIn(verify, probe) then None else Some(cur)
  }

  lemma InsertOneMore(probe: set<Key>, delta: Delta, rows: seq<Row>, i: nat, verify: seq<Key>, cur: Delta)
    requires i < |rows| && InsertedLater(probe, delta, rows[..i], verify, cur)
    ensures var more := verify + if rows[i].key in cur then [] else [rows[i].key];
            && (!Visible(cur, rows[i].key) ==> InsertedLater(probe, delta, rows[..i + 1], more, Claim(cur, rows[i])))
            && (Visible(cur, rows[i].key) ==> InsertRows(probe, delta, rows).None? && InsertRows({}, delta, rows).None?)
  {
    var k := rows[i].key;
    InsertPrefix(probe, delta, rows, i);
    InsertPrefix({}, delta, rows, i);
    var claimed := if k in cur then [] else [k];
    assert AnyIn(verify + claimed, probe) <==> AnyIn(verify, probe) || AnyIn(claimed, probe);
    if Visible(cur, k) {
      RejectedInsertPrefix(probe, delta, rows, i + 1);
      RejectedInsertPrefix({}, delta, rows, i + 1);
    } else if claimed != [] {
      assert claimed[0] == k;
    }
  }

  /** Rows of an UPDATE that needs no touch tracking: no row repeats and no key moves. */
  predicate InPlace(chunk: seq<UpdateInput>, from: nat, done: set<Key>) {
    && (forall i :: from <= i < |chunk| ==> chunk[i].assign.at !in done && !chunk[i].assign.Moves())
    && (forall i, j :: from <= i < j < |chunk| ==> chunk[i].assign.at != chunk[j].assign.at)
  }

  lemma InPlaceNext(chunk: seq<UpdateInput>, i: nat, done: set<Key>)
    requires i < |chunk|
    ensures InPlace(chunk, i, done) ==> chunk[i].assign.at !in done && !chunk[i].assign.Moves()
                                        && InPlace(chunk, i + 1, done + chunk[i].assign.Touches())
  {
  }

  predicate AllDeletes(touched: map<Key, bool>) {
    forall k :: k in touched ==> touched[k]
  }

  predicate DistinctFrom(chunk: seq<DeleteInput>, done: set<Key>) {
    && (forall i :: 0 <= i < |chunk| ==> chunk[i].key !in done)
    && (forall i, j :: 0 <= i < j < |chunk| ==> chunk[i].key != chunk[j].key)
  }

  lemma KeysPrefix(chunk: seq<DeleteInput>, i: nat)
    requires i < |chunk|
    ensures Keys(chunk[..i + 1]) == Keys(chunk[..i]) + [chunk[i].key]
  {
  }

  lemma DeletePrefix(p: Progress, keys: seq<Key>, k: Key)
    ensures DeleteRows(p, keys + [k]) == DeleteRow(DeleteRows(p, keys), k)
  {
    assert (keys + [k])[..|keys|] == keys;
  }

  lemma KeySetSnoc(keys: seq<Key>, k: Key)
    ensures KeySet(keys + [k]) == KeySet(keys) + {k}
  {
  }

  /** The doomed rows of a chunk prefix: each key once, none deleted before, same effect. */
  ghost predicate Doomed(p: Progress, chunk: seq<DeleteInput>, doomed: seq<DeleteInput>) {
    && DistinctFrom(doomed, p.touched)
    && DeleteRows(p, Keys(doomed)) == DeleteRows(p, Keys(chunk))
  }

  lemma DoomedOneMore(p: Progress, chunk: seq<DeleteInput>, i: nat, doomed: seq<DeleteInput>)
    requires i < |chunk| && Doomed(p, chunk[..i], doomed)
    ensures var k := chunk[i].key;
            if k in p.touched + KeySet(Keys(doomed)) then Doomed(p, chunk[..i + 1], doomed)
            else Doomed(p, chunk[..i + 1], doomed + [chunk[i]])
                 && KeySet(Keys(doomed + [chunk[i]])) == KeySet(Keys(doomed)) + {k}
  {
    var d := chunk[i];
    KeysPrefix(chunk, i);
    DeletePrefix(p, Keys(chunk[..i]), d.key);
    TouchedByDeletes(p, Keys(doomed), d.key);
    if d.key !in p.touched + KeySet(Keys(doomed)) {
      DistinctOneMore(doomed, p.touched, d);
      DeletePrefix(p, Keys(doomed), d.key);
      KeySetSnoc(Keys(doomed), d.key);
    }
  }

  lemma DistinctOneMore(doomed: seq<DeleteInput>, done: set<Key>, d: DeleteInput)
    requires DistinctFrom(doomed, done) && d.key !in done + KeySet(Keys(doomed))
    ensures DistinctFrom(doomed + [d], done) && Keys(doomed + [d]) == Keys(doomed) + [d.key]
  {
    assert forall j :: 0 <= j < |doomed| ==> Keys(doomed)[j] in KeySet(Keys(doomed));
  }

  lemma DistinctDeletes(p: Progress, doomed: seq<DeleteInput>, i: nat)
    requires i < |doomed| && DistinctFrom(doomed, p.touched)
    ensures doomed[i].key !in DeleteRows(p, Keys(doomed[..i])).touched
    ensures DeleteRows(p, Keys(doomed[..i + 1])) == DeleteRow(DeleteRows(p, Keys(doomed[..i])), doomed[i].key)
  {
    KeysPrefix(doomed, i);
    DeletePrefix(p, Keys(doomed[..i]), doomed[i].key);
    TouchedByDeletes(p, Keys(doomed[..i]), doomed[i].key);
  }

  lemma TouchedAfterDeletes(p: Progress, keys: seq<Key>)
    ensures DeleteRows(p, keys).touched == p.touched + KeySet(keys)
  {
    forall k ensures k in DeleteRows(p, keys).touched <==> k in p.touched + KeySet(keys) {
      TouchedByDeletes(p, keys, k);
    }
  }

  lemma {:induction false} TouchedByDeletes(p: Progress, keys: seq<Key>, k: Key)
    ensures k in DeleteRows(p, keys).touched <==> k in p.touched || k in keys
  {
    if keys != [] {
      var n := |keys| - 1;
      TouchedByDeletes(p, keys[..n], k);
      assert keys == keys[..n] + [keys[n]];
    }
  }

  class KeyedSink {
    const table: DeltaTable
    const deltaKeys: DeltaKeyMap
    const touched: TouchedRows
    /** Double-touch tracking: the child can repeat rows, or the statement can move keys. */
    const track: bool
    const base: Table
    /** The base has a PRIMARY KEY on exactly the key columns; probe holds what it reports. */
    const keyIndex: bool
    const probe: set<Key> := if keyIndex then base.Keys else {}
    /** Unique indexes of the base that are not constraints: probed, but neither mirrored on the
        delta nor watched for changes. */
    const created: seq<Constraint>
    var removes: seq<int>
    var appends: seq<Change>
    var verify: seq<Key>
    var affected: nat
    /** The delta when the statement began; the keys changed since; the delta by now. */
    ghost const start: Delta
    ghost var done: set<Key>
    ghost var cur: Delta

    ghost predicate Valid()
      reads this, table, deltaKeys
    {
      && deltaKeys.table == table && table.Valid()
      && deltaKeys.Synced(cur, done)
      && Pending(table.rows, table.index, removes, appends, cur)
      && DeltaOf(appends).Keys <= done
      && SameExcept(start, cur, done)
    }

    /** Between chunks nothing is pending: the table itself holds the statement's progress. */
    ghost predicate Ready()
      reads this, table, deltaKeys, touched
    {
      && Valid() && removes == [] && appends == [] && verify == []
      && table.Delta() == cur
      && (track ==> touched.keys.Keys == done)
    }

    constructor (table: DeltaTable, indexed: bool, track: bool, base: Table, keyIndex: bool, created: seq<Constraint>)
      requires table.Valid()
      ensures Ready() && fresh(deltaKeys) && fresh(touched)
      ensures this.table == table && this.track == track && this.base == base && this.keyIndex == keyIndex
              && this.created == created
      ensures done == {} && cur == start == table.Delta() && affected == 0
    {
      this.table, this.track, this.base, this.keyIndex, this.created := table, track, base, keyIndex, created;
      deltaKeys := new DeltaKeyMap(table, indexed);
      touched := new TouchedRows();
      removes, appends, verify, affected := [], [], [], 0;
      start, done, cur := table.Delta(), {}, table.Delta();
    }

    /** Schedules the removal of the delta row of a key the statement has not changed yet.  Its
        row id is a real one: -1 never enters the removal list. */
    method DropRow(k: Key)
      requires Valid() && k in deltaKeys.keys && k !in done
      modifies this`removes, this`done, this`cur, deltaKeys`keys
      ensures Valid() && done == old(done) + {k} && cur == old(cur) - {k}
      ensures PENDING !in removes
    {
      var id := deltaKeys.keys[k].rowId;
      DropFacts(table.rows, table.index, deltaKeys.indexed, deltaKeys.keys, deltaKeys.resolved, removes, appends,
                start, cur, done, k);
      removes, deltaKeys.keys, cur, done := removes + [id], deltaKeys.keys - {k}, cur - {k}, done + {k};
    }

    /** Adds a delta row under a key the delta does not hold. */
    method AddRow(c: Change)
      requires Valid() && c.row.key !in cur && deltaKeys.Known(c.row.key)
      modifies this`appends, this`done, this`cur, deltaKeys`keys
      ensures Valid() && done == old(done) + {c.row.key}
      ensures cur == old(cur)[c.row.key := c]
    {
      AddFacts(table.rows, table.index, deltaKeys.indexed, deltaKeys.keys, deltaKeys.resolved, removes, appends,
               start, cur, done, c);
      appends, deltaKeys.keys := appends + [c], deltaKeys.keys[c.row.key := KeyInfo(c.op, PENDING)];
      cur, done := cur[c.row.key := c], done + {c.row.key};
    }

    /** Replaces a delta row: remove and append, as indexed columns cannot change in place. */
    method ReplaceRow(c: Change)
      requires Valid() && c.row.key in deltaKeys.keys && c.row.key !in done
      modifies this`removes, this`appends, this`done, this`cur, deltaKeys`keys
      ensures Valid() && done == old(done) + {c.row.key} && cur == old(cur)[c.row.key := c]
    {
      PutBack(cur, c.row.key, c);
      DropRow(c.row.key);
      AddRow(c);
    }

    /** DELETE of one visible row, and the old side of a key move. */
    method VacateKey(fromDelta: bool, k: Key)
      requires Valid() && deltaKeys.Known(k) && k !in done && FromScan(start, fromDelta, k)
      modifies this`removes, this`appends, this`done, this`cur, deltaKeys`keys
      ensures Valid() && done == old(done) + {k} && cur == Vacate(old(cur), k)
    {
      if !fromDelta {
        AddRow(Change(D, Tombstone(k)));
      } else if deltaKeys.keys[k].op == U {
        ReplaceRow(Change(D, Tombstone(k)));
      } else {
        DropRow(k);
      }
    }

    /** INSERT of one row, and the new side of a key move; base collisions are probed later. */
    method ClaimKey(row: Row) returns (ok: bool)
      requires Valid() && deltaKeys.Known(row.key) && (row.key in done ==> Visible(cur, row.key))
      modifies this`removes, this`appends, this`verify, this`done, this`cur, deltaKeys`keys
      ensures ok <==> !Visible(old(cur), row.key)
      ensures ok ==> Valid() && done == old(done) + {row.key} && cur == Claim(old(cur), row)
      ensures ok ==> verify == old(verify) + if row.key in old(cur) then [] else [row.key]
    {
      KeyAnswer(deltaKeys.indexed, deltaKeys.keys, deltaKeys.resolved, table.index, table.Delta(), cur, done, row.key);
      if row.key in deltaKeys.keys {
        if deltaKeys.keys[row.key].op != D {
          return false;
        }
        ReplaceRow(Change(U, row));
      } else {
        verify := verify + [row.key];
        AddRow(Change(I, row));
      }
      return true;
    }

    /** UPDATE of one visible row that keeps its key. */
    method RewriteRow(fromDelta: bool, row: Row)
      requires Valid() && deltaKeys.Known(row.key) && row.key !in done && FromScan(start, fromDelta, row.key)
      modifies this`removes, this`appends, this`done, this`cur, deltaKeys`keys
      ensures Valid() && done == old(done) + {row.key} && cur == Rewrite(old(cur), row)
    {
      if !fromDelta {
        AddRow(Change(U, row));
      } else {
        ReplaceRow(Change(deltaKeys.keys[row.key].op, row));
      }
    }

    /** A key move is a DELETE of the old key and an INSERT of the new one. */
    method MoveRow(fromDelta: bool, a: Assign) returns (ok: bool)
      requires Valid() && deltaKeys.Known(a.at) && deltaKeys.Known(a.image.key) && a.Moves()
      requires a.at !in done && a.image.key !in done && FromScan(start, fromDelta, a.at)
      modifies this`removes, this`appends, this`verify, this`done, this`cur, deltaKeys`keys
      ensures ok <==> !Visible(old(cur), a.image.key)
      ensures ok ==> Valid() && done == old(done) + a.Touches() && cur == Claim(Vacate(old(cur), a.at), a.image)
      ensures ok ==> verify == old(verify) + if a.image.key in old(cur) then [] else [a.image.key]
    {
      VacateKey(fromDelta, a.at);
      ok := ClaimKey(a.image);
    }

    /** Records a touch by an UPDATE, when the statement tracks touches. */
    method Touch(k: Key) returns (ok: bool)
      modifies touched`keys
      ensures ok <==> !track || k !in old(touched.keys)
      ensures ok && track ==> touched.keys.Keys == old(touched.keys).Keys + {k}
      ensures !track ==> touched.keys == old(touched.keys)
    {
      if !track { return true; }
      var t := touched.TouchKey(k, false);
      return t == First;
    }

    /** One row of an UPDATE: a touch check, then the matrix. */
    method UpdateOne(r: UpdateInput) returns (o: Outcome)
      requires Valid() && deltaKeys.Known(r.assign.at) && deltaKeys.Known(r.assign.image.key)
      requires FromScan(start, r.fromDelta, r.assign.at)
      requires if track then touched.keys.Keys == done else r.assign.at !in done && !r.assign.Moves()
      modifies this`removes, this`appends, this`verify, this`affected, this`done, this`cur, deltaKeys`keys, touched`keys
      ensures o == Applied <==> UpdateRow({}, Progress(old(cur), old(done)), r.assign).Some?
      ensures o == Applied ==>
                Valid() && UpdateRow({}, Progress(old(cur), old(done)), r.assign)
                == Some(Progress(cur, done))
      ensures o == Applied ==> affected == old(affected) + 1 && (track ==> touched.keys.Keys == done)
      ensures o == Applied ==> verify == old(verify) + if r.assign.Moves()
              && r.assign.image.key !in old(cur) then [r.assign.image.key] else []
      ensures o != Applied ==> RefusedFor(Progress(old(cur), old(done)), r.assign, o)
    {
      var at, row := r.assign.at, r.assign.image;
      RowVerdict(Progress(cur, done), r.assign);
      var first := Touch(at);
      if !first { return DoubleTouch; }
      if row.key == at {
        RewriteRow(r.fromDelta, row);
        o := Applied;
      } else {
        o := MoveOne(r);
        if o != Applied { return; }
      }
      affected := affected + 1;
    }

    /** A row that moves its key touches the new key as well. */
    method MoveOne(r: UpdateInput) returns (o: Outcome)
      requires Valid() && deltaKeys.Known(r.assign.at) && deltaKeys.Known(r.assign.image.key) && r.assign.Moves()
      requires FromScan(start, r.fromDelta, r.assign.at) && r.assign.at !in done
      requires track && touched.keys.Keys == done + {r.assign.at}
      modifies this`removes, this`appends, this`verify, this`done, this`cur, deltaKeys`keys, touched`keys
      ensures o == Applied <==> r.assign.image.key !in old(done) && !Visible(old(cur), r.assign.image.key)
      ensures o == Applied ==> Valid() && cur == Claim(Vacate(old(cur), r.assign.at), r.assign.image)
      ensures o == Applied ==> done == old(done) + r.assign.Touches() && touched.keys.Keys == done
      ensures o == Applied ==> verify == old(verify) + if r.assign.image.key in old(cur) then []
              else [r.assign.image.key]
      ensures o == DoubleTouch <==> r.assign.image.key in old(done)
      ensures o == DuplicateInScenario <==> r.assign.image.key !in old(done) && Visible(old(cur), r.assign.image.key)
    {
      var unseen := Touch(r.assign.image.key);
      if !unseen { return DoubleTouch; }
      var ok := MoveRow(r.fromDelta, r.assign);
      o := if ok then Applied else DuplicateInScenario;
    }

    /** Ends a chunk: the pending removals and appends reach the table, unless they break one of
        its mirrored indexes. */
    method FlushChunk() returns (ok: bool)
      requires Valid() && (track ==> touched.keys.Keys == done)
      modifies this`removes, this`appends, this`verify, table
      ensures ok <==> UniqueAll(table.us, cur)
      ensures ok ==> Ready()
    {
      ghost var index, stored := table.index, table.Delta();
      ok := Flush(table, removes, appends, cur);
      if !ok { return; }
      SyncAfterFlush(deltaKeys.indexed, deltaKeys.keys, deltaKeys.resolved, index, stored, cur, done, table.index);
      removes, appends, verify := [], [], [];
    }

    /** The row loop of an UPDATE chunk. */
    method ApplyUpdates(chunk: seq<UpdateInput>) returns (o: Outcome)
      requires Valid() && verify == [] && (track ==> touched.keys.Keys == done)
      requires forall i :: 0 <= i < |chunk| ==> FromScan(start, chunk[i].fromDelta, chunk[i].assign.at)
      requires forall i :: 0 <= i < |chunk| ==>
                 deltaKeys.Known(chunk[i].assign.at)
                 && deltaKeys.Known(chunk[i].assign.image.key)
      requires !track ==> InPlace(chunk, 0, done)
      modifies this`removes, this`appends, this`verify, this`affected, this`done, this`cur, deltaKeys`keys, touched`keys
      ensures o == Applied ==> ProbedLater(probe, Progress(old(cur), old(done)), Assigns(chunk), verify,
                                           Progress(cur, done))
      ensures o == Applied ==> Valid() && (track ==> touched.keys.Keys == done) && affected == old(affected) + |chunk|
      ensures o != Applied ==> UpdateRows(probe, Progress(old(cur), old(done)), Assigns(chunk)).None?
                               && UpdateRows({}, Progress(old(cur), old(done)), Assigns(chunk)).None?
                               && FirstRefusal(Progress(old(cur), old(done)), Assigns(chunk), o)
    {
      ghost var rows, p := Assigns(chunk), Progress(cur, done);
      for i := 0 to |chunk|
        invariant Valid() && (track ==> touched.keys.Keys == done)
        invariant ProbedLater(probe, p, rows[..i], verify, Progress(cur, done))
        invariant affected == old(affected) + i
        invariant !track ==> InPlace(chunk, i, done)
      {
        InPlaceNext(chunk, i, done);
        o := UpdateNext(chunk, i, p);
        if o != Applied { return; }
      }
      assert rows[..|chunk|] == rows;
      o := Applied;
    }

    /** Row i of an UPDATE chunk, on top of the rows before it. */
    method UpdateNext(chunk: seq<UpdateInput>, i: nat, ghost p: Progress) returns (o: Outcome)
      requires Valid() && i < |chunk| && FromScan(start, chunk[i].fromDelta, chunk[i].assign.at)
      requires deltaKeys.Known(chunk[i].assign.at) && deltaKeys.Known(chunk[i].assign.image.key)
      requires if track then touched.keys.Keys == done else chunk[i].assign.at !in done && !chunk[i].assign.Moves()
      requires ProbedLater(probe, p, Assigns(chunk)[..i], verify, Progress(cur, done))
      modifies this`removes, this`appends, this`verify, this`affected, this`done, this`cur, deltaKeys`keys, touched`keys
      ensures o == Applied ==> Valid() && ProbedLater(probe, p, Assigns(chunk)[..i + 1], verify, Progress(cur, done))
      ensures o == Applied ==>
                affected == old(affected) + 1 && (track ==> touched.keys.Keys == done)
                && done == old(done) + chunk[i].assign.Touches()
      ensures o != Applied ==> UpdateRows(probe, p, Assigns(chunk)).None? && UpdateRows({}, p, Assigns(chunk)).None?
                               && FirstRefusal(p, Assigns(chunk), o)
    {
      ProbeOneMore(probe, p, Assigns(chunk), i, verify, Progress(cur, done));
      ghost var before := Progress(cur, done);
      o := UpdateOne(chunk[i]);
      if o != Applied {
        assert UpdateRows({}, p, Assigns(chunk)[..i]) == Some(before) && RefusedFor(before, Assigns(chunk)[i], o);
      }
    }

    /** The rows of an UPDATE chunk as the statement read them. */
    method FetchOld(chunk: seq<UpdateInput>) returns (was: seq<Row>)
      requires table.Valid()
      requires forall i :: 0 <= i < |chunk| ==> ReadAt(base, table.Delta(), chunk[i])
      ensures |was| == |chunk| && forall i :: 0 <= i < |chunk| ==> WasAt(base, table.Delta(), chunk[i], was[i])
    {
      was := [];
      for i := 0 to |chunk|
        invariant |was| == i && forall j :: 0 <= j < i ==> WasAt(base, table.Delta(), chunk[j], was[j])
      {
        var at := chunk[i].assign.at;
        assert ReadAt(base, table.Delta(), chunk[i]);
        was := was + [if chunk[i].fromDelta then table.rows[table.index[at]].row else base[at]];
      }
    }

    /** Probes the base's unique indexes with the rows whose unique values changed. */
    method ProbeUpdates(chunk: seq<UpdateInput>, ghost p: Progress) returns (ok: bool, changed: seq<Row>)
      requires Valid() && p.delta == table.Delta() && table.us != [] && Guarded(table.us, base, p.delta)
      requires forall i :: 0 <= i < |chunk| ==> ReadAt(base, p.delta, chunk[i])
      ensures IsChangedRows(table.us, View(base, p.delta), Assigns(chunk), changed)
      ensures UpdateRows(base.Keys, p, Assigns(chunk)) == Some(Progress(cur, done)) ==>
                (ok <==> forall u :: u in table.us + created ==> ProbePasses(u, base, Replaced(cur), changed))
    {
      var was := FetchOld(chunk);
      changed := ChangedRows(table.us, View(base, p.delta), Assigns(chunk), was);
      var stored := ScanRows(table);
      var baseScan := ScanBaseRows(base);
      ok := ProbeSecondary(table.us + created, stored, appends, keyIndex, base, baseScan, changed);
      ReadsAreInView(base, p.delta, chunk);
      if UpdateRows(base.Keys, p, Assigns(chunk)) == Some(Progress(cur, done)) {
        KeptIsStored(table.rows, table.index, removes);
        PendingMaskIsExact(base, p, Assigns(chunk), KeptRows(table.rows, table.index, removes), appends);
      }
    }

    /** The checks against the base: values first, then the keys. */
    method CheckUpdates(chunk: seq<UpdateInput>, ghost p: Progress) returns (o: Outcome)
      requires Valid() && p.delta == table.Delta() && ProbedLater(probe, p, Assigns(chunk), verify, Progress(cur, done))
      requires table.us != [] ==> Guarded(table.us, base, p.delta) && forall i ::
                 0 <= i < |chunk|
                 ==> ReadAt(base, p.delta, chunk[i])
      ensures o == Applied ==> UpdateRows(probe, p, Assigns(chunk)) == Some(Progress(cur, done))
      ensures o == Applied || (o == UniqueInBase && table.us != []) || (o == DuplicateInBase && AnyIn(verify, probe))
      ensures table.us == [] || Inv(base, cur) ==>
                (o == Applied && UniqueAll(table.us, cur) <==>
                 !AnyIn(verify, probe) && UpdatePasses(table.us, created, base, p.delta, Assigns(chunk), cur))
      ensures o == Applied && UniqueAll(table.us, cur) && table.us != [] && Inv(base, cur)
              ==> Guarded(table.us, base, cur)
    {
      if table.us != [] {
        var passed, changed := ProbeUpdates(chunk, p);
        if !AnyIn(verify, probe) && Inv(base, cur) {
          UpdateVerdict(table.us, created, base, p, chunk, Progress(cur, done), changed);
        }
        if !passed { return UniqueInBase; }
      }
      o := if AnyIn(verify, probe) then DuplicateInBase else Applied;
    }

    /** Resolves the old and the new keys of a chunk. */
    method ResolveUpdates(chunk: seq<UpdateInput>)
      requires Ready()
      modifies deltaKeys
      ensures Ready()
      ensures forall i :: 0 <= i < |chunk| ==>
                deltaKeys.Known(chunk[i].assign.at)
                && deltaKeys.Known(chunk[i].assign.image.key)
    {
      deltaKeys.Resolve(ReadKeys(chunk), cur, done);
      deltaKeys.Resolve(ImageKeys(chunk), cur, done);
      assert forall j :: 0 <= j < |chunk| ==>
        deltaKeys.Known(ReadKeys(chunk)[j])
        && deltaKeys.Known(ImageKeys(chunk)[j]);
    }

    /** One chunk of an UPDATE, with its checks in order: touches and keys of the scenario, values
        in the base, keys in the base, values in the scenario.  The verdict is exact as long as
        the invariant survives, which a key index on the base ensures. */
    method UpdateChunk(chunk: seq<UpdateInput>) returns (o: Outcome)
      requires Ready()
      requires forall i :: 0 <= i < |chunk| ==> FromScan(start, chunk[i].fromDelta, chunk[i].assign.at)
      requires !track ==> InPlace(chunk, 0, done)
      requires table.us != [] ==> Guarded(table.us, base, cur)
                                  && forall i :: 0 <= i < |chunk| ==> chunk[i].assign.at in View(base, start)
      modifies this, table, deltaKeys, touched`keys
      ensures var q := UpdateRows(probe, Progress(old(cur), old(done)), Assigns(chunk));
              && (o == Applied ==> Ready() && q == Some(Progress(cur, done)))
              && (q.Some? && (table.us == [] || Inv(base, q.value.delta)) ==>
                  (o == Applied <==> UpdatePasses(table.us, created, base, old(cur), Assigns(chunk), q.value.delta)))
      ensures var p := Progress(old(cur), old(done));
              && (o == DoubleTouch || o == DuplicateInScenario <==> UpdateRows({}, p, Assigns(chunk)).None?)
              && (o == DoubleTouch || o == DuplicateInScenario ==> FirstRefusal(p, Assigns(chunk), o))
              && (o == DuplicateInBase ==> UpdateRows(probe, p, Assigns(chunk)).None?)
              && (o == UniqueInScenario ==>
                  UpdateRows(probe, p, Assigns(chunk)).Some?
                  && !UniqueAll(table.us, UpdateRows(probe, p, Assigns(chunk)).value.delta))
      ensures o == Applied ==> affected == old(affected) + |chunk|
      ensures o == Applied && table.us != [] && Inv(base, cur) ==> Guarded(table.us, base, cur)
    {
      ghost var p := Progress(cur, done);
      ResolveUpdates(chunk);
      o := ApplyUpdates(chunk);
      if o != Applied { return; }
      if table.us != [] { AcceptedReads(base, start, p, chunk); }
      o := CheckUpdates(chunk, p);
      if o != Applied { return; }
      var flushed := FlushChunk();
      if !flushed { o := UniqueInScenario; }
    }

    /** Drops the rows whose key the statement has deleted before (a join matched it again). */
    method PickDoomed(chunk: seq<DeleteInput>, ghost p: Progress) returns (doomed: seq<DeleteInput>)
      requires p.touched == done
      requires if track then touched.keys.Keys == done && AllDeletes(touched.keys) else DistinctFrom(chunk, done)
      modifies touched`keys
      ensures DistinctFrom(doomed, done) && forall d :: d in doomed ==> d in chunk
      ensures DeleteRows(p, Keys(doomed)) == DeleteRows(p, Keys(chunk))
      ensures track ==> touched.keys.Keys == done + KeySet(Keys(doomed)) && AllDeletes(touched.keys)
    {
      if !track { return chunk; }
      doomed := [];
      for i := 0 to |chunk|
        invariant Doomed(p, chunk[..i], doomed)
        invariant forall d :: d in doomed ==> d in chunk
        invariant touched.keys.Keys == done + KeySet(Keys(doomed)) && AllDeletes(touched.keys)
      {
        DoomedOneMore(p, chunk, i, doomed);
        var t := touched.TouchKey(chunk[i].key, true);
        if t == First { doomed := doomed + [chunk[i]]; }
      }
      assert chunk[..|chunk|] == chunk;
    }

    /** Tombstones or drops every doomed row. */
    method ApplyDoomed(doomed: seq<DeleteInput>)
      requires Valid() && DistinctFrom(doomed, done)
      requires forall d :: d in doomed ==> deltaKeys.Known(d.key) && FromScan(start, d.fromDelta, d.key)
      modifies this`removes, this`appends, this`affected, this`done, this`cur, deltaKeys`keys
      ensures Valid() && DeleteRows(Progress(old(cur), old(done)), Keys(doomed)) == Progress(cur, done)
      ensures affected - old(affected) == |done| - |old(done)|
    {
      ghost var p := Progress(cur, done);
      for i := 0 to |doomed|
        invariant Valid()
        invariant DeleteRows(p, Keys(doomed[..i])) == Progress(cur, done)
        invariant affected - old(affected) == |done| - |p.touched|
      {
        DistinctDeletes(p, doomed, i);
        assert doomed[i] in doomed;
        VacateKey(doomed[i].fromDelta, doomed[i].key);
        affected := affected + 1;
      }
      assert doomed[..|doomed|] == doomed;
    }

    /** One chunk of a DELETE: first the touch checks pick the doomed rows, then each is applied. */
    method DeleteChunk(chunk: seq<DeleteInput>) returns (o: Outcome)
      requires Ready()
      requires forall d :: d in chunk ==> FromScan(start, d.fromDelta, d.key)
      requires if track then AllDeletes(touched.keys) else DistinctFrom(chunk, done)
      modifies this, table, deltaKeys, touched`keys
      ensures var q := DeleteRows(Progress(old(cur), old(done)), Keys(chunk));
              && (o == Applied <==> UniqueAll(table.us, q.delta))
              && (o == Applied ==> Ready() && q == Progress(cur, done))
      ensures o == Applied ==> affected - old(affected) == |done| - |old(done)|
      ensures o == Applied && track ==> AllDeletes(touched.keys)
    {
      ghost var p := Progress(cur, done);
      deltaKeys.Resolve(Keys(chunk), cur, done);
      assert forall i :: 0 <= i < |chunk| ==> deltaKeys.Known(Keys(chunk)[i]);
      var doomed := PickDoomed(chunk, p);
      ApplyDoomed(doomed);
      TouchedAfterDeletes(p, Keys(doomed));
      var flushed := FlushChunk();
      o := if flushed then Applied else UniqueInScenario;
    }

    /** The classification loop of an INSERT chunk. */
    method ClassifyRows(chunk: seq<Row>) returns (ok: bool)
      requires Valid() && verify == [] && AllVisible(cur, done)
      requires forall i :: 0 <= i < |chunk| ==> deltaKeys.Known(chunk[i].key)
      modifies this`removes, this`appends, this`verify, this`done, this`cur, deltaKeys`keys
      ensures ok ==> Valid() && InsertedLater(probe, old(cur), chunk, verify, cur) && AllVisible(cur, done)
      ensures !ok ==> InsertRows(probe, old(cur), chunk).None? && InsertRows({}, old(cur), chunk).None?
    {
      ghost var delta := cur;
      for i := 0 to |chunk|
        invariant Valid()
        invariant InsertedLater(probe, delta, chunk[..i], verify, cur)
        invariant AllVisible(cur, done)
      {
        InsertOneMore(probe, delta, chunk, i, verify, cur);
        ClaimedIsVisible(cur, done, chunk[i]);
        ok := ClaimKey(chunk[i]);
        if !ok { return; }
      }
      assert chunk[..|chunk|] == chunk;
      ok := true;
    }

    /** The checks against the base: keys first, then the values of every row. */
    method CheckInserts(chunk: seq<Row>, ghost before: Delta) returns (o: Outcome)
      requires Valid() && before == table.Delta() && InsertedLater(probe, before, chunk, verify, cur)
      requires WellKeyed(base) && (table.us != [] ==> Guarded(table.us, base, before))
      ensures o == Applied ==> InsertRows(probe, before, chunk) == Some(cur)
      ensures o == DuplicateInBase <==> AnyIn(verify, probe)
      ensures o == Applied || o == UniqueInBase || o == DuplicateInBase
      ensures table.us == [] || Inv(base, cur) ==>
                (o == Applied && UniqueAll(table.us, cur) <==>
                 !AnyIn(verify, probe) && InsertPasses(table.us, created, base, before, chunk, cur))
      ensures o == Applied && UniqueAll(table.us, cur) && table.us != [] && Inv(base, cur)
              ==> Guarded(table.us, base, cur)
    {
      if AnyIn(verify, probe) { return DuplicateInBase; }
      if table.us + created != [] {
        var stored := ScanRows(table);
        var baseScan := ScanBaseRows(base);
        var passed := ProbeSecondary(table.us + created, stored, [], keyIndex, base, baseScan, chunk);
        if table.us == [] || Inv(base, cur) { InsertVerdict(table.us, created, base, before, chunk, cur); }
        assert ReplacedRows([]) == {};
        if !passed { return UniqueInBase; }
      }
      o := Applied;
    }

    /** Resolves the keys of a chunk. */
    method ResolveInserts(chunk: seq<Row>)
      requires Ready()
      modifies deltaKeys
      ensures Ready() && forall i :: 0 <= i < |chunk| ==> deltaKeys.Known(chunk[i].key)
    {
      deltaKeys.Resolve(RowKeys(chunk), cur, done);
      assert forall i :: 0 <= i < |chunk| ==> deltaKeys.Known(RowKeys(chunk)[i]);
    }

    /** Checks the classified rows, then replaces tombstones and appends. */
    method FinishInserts(chunk: seq<Row>, ghost before: Delta) returns (o: Outcome)
      requires Valid() && !track && before == table.Delta() && InsertedLater(probe, before, chunk, verify, cur)
      requires WellKeyed(base) && (table.us != [] ==> Guarded(table.us, base, before))
      modifies this`removes, this`appends, this`verify, this`affected, table
      ensures o == Applied ==> Ready() && !AnyIn(old(verify), probe) && affected == old(affected) + |chunk|
      ensures o == DuplicateInBase <==> AnyIn(old(verify), probe)
      ensures o == UniqueInScenario ==> !UniqueAll(table.us, cur)
      ensures o != DoubleTouch && o != DuplicateInScenario
      ensures table.us == [] || Inv(base, cur) ==>
                (o == Applied <==>
                  !AnyIn(old(verify), probe)
                  && InsertPasses(table.us, created, base, before, chunk, cur))
      ensures o == Applied && table.us != [] && Inv(base, cur) ==> Guarded(table.us, base, cur)
    {
      o := CheckInserts(chunk, before);
      if o != Applied { return; }
      var flushed := FlushChunk();
      if !flushed { return UniqueInScenario; }
      affected := affected + |chunk|;
    }

    /** One chunk of an INSERT: classify every row against the key map, probe the base for the
        new keys and for all unique values, then replace tombstones and append.  The verdict is
        exact as long as the invariant survives. */
    method InsertChunk(chunk: seq<Row>) returns (o: Outcome)
      requires Ready() && !track && AllVisible(cur, done)
      requires WellKeyed(base) && (table.us != [] ==> Guarded(table.us, base, cur))
      modifies this, table, deltaKeys
      ensures var q := InsertRows(probe, old(cur), chunk);
              && (o == Applied ==> Ready() && q == Some(cur))
              && (q.Some? && (table.us == [] || Inv(base, q.value)) ==>
                  (o == Applied <==> InsertPasses(table.us, created, base, old(cur), chunk, q.value)))
              && (o == DuplicateInScenario <==> InsertRows({}, old(cur), chunk).None?)
              && (o == DuplicateInBase <==> InsertRows({}, old(cur), chunk).Some? && q.None?)
              && (o == UniqueInScenario ==> q.Some? && !UniqueAll(table.us, q.value))
      ensures o == Applied ==> AllVisible(cur, done) && affected == old(affected) + |chunk|
      ensures o == Applied && table.us != [] && Inv(base, cur) ==> Guarded(table.us, base, cur)
    {
      ghost var before := cur;
      ResolveInserts(chunk);
      var ok := ClassifyRows(chunk);
      o := DuplicateInScenario;
      if ok { o := FinishInserts(chunk, before); }
    }
  }

  /** The base row of a key the delta holds as I, read on its own: the sink takes it for an
      untouched base row and appends a second change under the key, which the key index refuses. */
  method WriteShadowed(table: DeltaTable, c: Change) returns (ok: bool)
    requires table.Valid() && c.row.key in table.Delta()
    modifies table
    ensures !ok && table.Valid() && table.Delta() == old(table.Delta())
  {
    ok := table.Append(c);
  }

  // ----- what the UPDATE checks see -----

  /** The row is in the view, and its origin says where. */
  predicate ReadAt(base: Table, delta: Delta, r: UpdateInput) {
    FromScan(delta, r.fromDelta, r.assign.at) && (!r.fromDelta ==> r.assign.at in base)
  }

  predicate WasAt(base: Table, delta: Delta, r: UpdateInput, was: Row) {
    r.assign.at in View(base, delta) && was == View(base, delta)[r.assign.at]
  }

  lemma ReadsAreInView(base: Table, delta: Delta, chunk: seq<UpdateInput>)
    requires forall i :: 0 <= i < |chunk| ==> ReadAt(base, delta, chunk[i])
    ensures forall a :: a in Assigns(chunk) ==> a.at in View(base, delta)
  {
    forall a | a in Assigns(chunk) ensures a.at in View(base, delta) {
      var i :| 0 <= i < |chunk| && Assigns(chunk)[i] == a;
      assert ReadAt(base, delta, chunk[i]);
    }
  }

  /** The rows of the delta table, in some order. */
  method ScanRows(table: DeltaTable) returns (rows: seq<Change>)
    requires table.Valid()
    ensures ReplacedRows(rows) == Replaced(table.Delta())
  {
    rows := [];
    var rest := table.index.Keys;
    assert table.Delta() - rest == map[];
    while rest != {}
      invariant rest <= table.index.Keys
      invariant ReplacedRows(rows) == Replaced(table.Delta() - rest)
      decreases rest
    {
      var k :| k in rest;
      ScanOneMore(table.Delta(), rest, rows, k);
      rows, rest := rows + [table.rows[table.index[k]]], rest - {k};
    }
    assert table.Delta() - rest == table.Delta();
  }

  /** The rows of the base, in some order. */
  method ScanBaseRows(base: Table) returns (rows: seq<Row>)
    requires WellKeyed(base)
    ensures forall r :: r in rows <==> r.key in base && base[r.key] == r
  {
    rows := [];
    var rest := base.Keys;
    while rest != {}
      invariant rest <= base.Keys
      invariant forall r :: r in rows <==> r.key in base && base[r.key] == r && r.key !in rest
      decreases rest
    {
      var k :| k in rest;
      rows, rest := rows + [base[k]], rest - {k};
    }
  }

  lemma ScanOneMore(stored: Delta, rest: set<Key>, rows: seq<Change>, k: Key)
    requires k in stored && k in rest && stored[k].row.key == k && ReplacedRows(rows) == Replaced(stored - rest)
    ensures ReplacedRows(rows + [stored[k]]) == Replaced(stored - (rest - {k}))
  {
    ReplacedOneMore(rows + [stored[k]], |rows|);
    assert (rows + [stored[k]])[..|rows|] == rows && (rows + [stored[k]])[..|rows| + 1] == rows + [stored[k]];
  }

  lemma KeptIsStored(rows: map<int, Change>, index: map<Key, int>, removes: seq<int>)
    requires Indexed(rows, index)
    ensures forall k :: k in KeptRows(rows, index, removes) ==>
              k in Stored(rows, index)
              && KeptRows(rows, index, removes)[k] == Stored(rows, index)[k]
  {
  }

  /** Rows that the touch checks let pass still read as they did when the statement began. */
  lemma AcceptedReads(base: Table, start: Delta, p: Progress, chunk: seq<UpdateInput>)
    requires UpdateRows({}, p, Assigns(chunk)).Some? && SameExcept(start, p.delta, p.touched)
    requires forall i :: 0 <= i < |chunk| ==>
               FromScan(start, chunk[i].fromDelta, chunk[i].assign.at)
               && chunk[i].assign.at in View(base, start)
    ensures forall i :: 0 <= i < |chunk| ==> ReadAt(base, p.delta, chunk[i])
  {
    UpdateFrame({}, p, Assigns(chunk));
    forall i | 0 <= i < |chunk| ensures ReadAt(base, p.delta, chunk[i]) {
      assert Assigns(chunk)[i] in Assigns(chunk);
    }
  }

  /** What the value checks ask of an UPDATE chunk that leaves q, and of an INSERT chunk. */
  ghost predicate UpdatePasses(us: seq<Constraint>, created: seq<Constraint>, base: Table, delta: Delta,
                               rows: seq<Assign>, q: Delta) {
    Clear(us, base, q) && UpdateProbes(us, created, base, View(base, delta), rows, Replaced(q))
  }

  ghost predicate InsertPasses(us: seq<Constraint>, created: seq<Constraint>, base: Table, delta: Delta,
                               rows: seq<Row>, q: Delta) {
    Clear(us, base, q) && forall x :: x in created ==> ProbePasses(x, base, Replaced(delta), rows)
  }

  lemma InsertVerdict(us: seq<Constraint>, created: seq<Constraint>, base: Table, delta: Delta, rows: seq<Row>,
                      q: Delta)
    requires InsertRows({}, delta, rows) == Some(q) && (us != [] ==> Guarded(us, base, delta) && Inv(base, q))
    ensures UniqueAll(us, q) && (forall u :: u in us + created ==> ProbePasses(u, base, Replaced(delta), rows)) <==>
            InsertPasses(us, created, base, delta, rows, q)
    ensures us != [] ==> TombstonesAreBlank(q)
  {
    if us != [] {
      InsertsWithoutBaseKey(base, delta, rows);
      InsertChecks(us, base, delta, rows);
    }
  }

  lemma UpdateVerdict(us: seq<Constraint>, created: seq<Constraint>, base: Table, p: Progress,
                      chunk: seq<UpdateInput>, q: Progress, changed: seq<Row>)
    requires us != [] && Guarded(us, base, p.delta) && UpdateRows({}, p, Assigns(chunk)) == Some(q)
             && Inv(base, q.delta)
    requires forall i :: 0 <= i < |chunk| ==> ReadAt(base, p.delta, chunk[i])
    requires IsChangedRows(us, View(base, p.delta), Assigns(chunk), changed)
    ensures UpdateRows(base.Keys, p, Assigns(chunk)) == Some(q) && TombstonesAreBlank(q.delta)
    ensures UniqueAll(us, q.delta) && (forall u ::
              u in us + created
              ==> ProbePasses(u, base, Replaced(q.delta), changed)) <==>
            UpdatePasses(us, created, base, p.delta, Assigns(chunk), q.delta)
  {
    ReadsAreInView(base, p.delta, chunk);
    UpdatesWithoutBaseKey(base, p, Assigns(chunk));
    UpdateChecks(us, base, p, Assigns(chunk), changed);
    ProbesOfChanged(us, created, base, View(base, p.delta), Assigns(chunk), Replaced(q.delta), changed);
  }

  /** With a key index on the base the invariant survives every accepted chunk. */
  lemma ChunkKeepsInv(base: Table, start: Delta, p: Progress, chunk: seq<UpdateInput>)
    requires Inv(base, p.delta) && SameExcept(start, p.delta, p.touched)
    requires forall i :: 0 <= i < |chunk| ==> chunk[i].assign.at in View(base, start)
    requires UpdateRows(base.Keys, p, Assigns(chunk)).Some?
    ensures Inv(base, UpdateRows(base.Keys, p, Assigns(chunk)).value.delta)
  {
    var rows := Assigns(chunk);
    forall a | a in rows ensures a.at in p.touched || a.at in View(base, p.delta) {
      var i :| 0 <= i < |rows| && rows[i] == a;
      assert chunk[i].assign.at in View(base, start);
    }
    UpdatesAsUnprobed(base.Keys, p, rows);
    UpdatesWithoutBaseKey(base, p, rows);
  }
}
