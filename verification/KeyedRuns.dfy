/** Whole statements, in any number of chunks, and whole runs of statements on a keyed
    scenario table whose base has a PRIMARY KEY. */
module KeyedRuns {
  import opened Values
  import opened KeyedDelta
  import opened DeltaStore
  import opened TouchedRows
  import opened KeyedSinks
  import opened KeyedConstraints
  import opened KeyedUnique
  import opened Sequences

  lemma {:induction false} ChunkRowsAreRows<T>(chunks: seq<seq<T>>, i: nat, x: T)
    requires i < |chunks| && x in chunks[i]
    ensures x in Flatten(chunks)
  {
    if i < |chunks| - 1 {
      ChunkRowsAreRows(chunks[..|chunks| - 1], i, x);
    }
  }

  /** What the scan reports of a row it hands to a sink: the row is in the view, and its
      origin says whether the delta or the base holds it. */
  predicate Reads(base: Table, start: Delta, fromDelta: bool, k: Key) {
    k in View(base, start) && (fromDelta <==> k in start)
  }

  lemma AssignsOfConcat(a: seq<UpdateInput>, b: seq<UpdateInput>)
    ensures Assigns(a + b) == Assigns(a) + Assigns(b)
  {
  }

  lemma KeysOfConcat(a: seq<DeleteInput>, b: seq<DeleteInput>)
    ensures Keys(a + b) == Keys(a) + Keys(b)
  {
  }

  lemma {:induction false} FlattenSplit<T>(chunks: seq<seq<T>>, i: nat)
    requires i < |chunks|
    ensures exists rest :: Flatten(chunks) == Flatten(chunks[..i]) + chunks[i] + rest
  {
    if i == |chunks| - 1 {
      assert Flatten(chunks) == Flatten(chunks[..i]) + chunks[i] + [];
    } else {
      var n := |chunks| - 1;
      FlattenSplit(chunks[..n], i);
      assert chunks[..n][..i] == chunks[..i];
      var rest :| Flatten(chunks[..n]) == Flatten(chunks[..i]) + chunks[i] + rest;
      assert Flatten(chunks) == Flatten(chunks[..i]) + chunks[i] + (rest + chunks[n]);
    }
  }

  lemma {:induction false} TouchedByUpdates(probe: set<Key>, p: Progress, rows: seq<Assign>)
    requires UpdateRows(probe, p, rows).Some? && forall i :: 0 <= i < |rows| ==> !rows[i].Moves()
    ensures forall k :: k in UpdateRows(probe, p, rows).value.touched ==>
              k in p.touched
              || exists i :: 0 <= i < |rows| && rows[i].at == k
  {
    if rows != [] {
      var n := |rows| - 1;
      TouchedByUpdates(probe, p, rows[..n]);
      forall k | k in UpdateRows(probe, p, rows).value.touched && k !in p.touched
        ensures exists i :: 0 <= i < |rows| && rows[i].at == k
      {
        if k != rows[n].at {
          var i :| 0 <= i < n && rows[..n][i].at == k;
          assert rows[i].at == k;
        }
      }
    }
  }

  lemma {:induction false} ChunkPosition<T>(chunks: seq<seq<T>>, i: nat)
    requires i < |chunks|
    ensures var before, all := Flatten(chunks[..i]), Flatten(chunks);
            && |before| + |chunks[i]| <= |all|
            && (forall j :: 0 <= j < |before| ==> before[j] == all[j])
            && (forall j :: 0 <= j < |chunks[i]| ==> chunks[i][j] == all[|before| + j])
  {
    FlattenSplit(chunks, i);
  }

  lemma InPlaceAfter(all: seq<UpdateInput>, n: nat, chunk: seq<UpdateInput>, done: set<Key>)
    requires InPlace(all, 0, {}) && n + |chunk| <= |all|
    requires forall j :: 0 <= j < |chunk| ==> chunk[j] == all[n + j]
    requires forall k :: k in done ==> exists j :: 0 <= j < n && all[j].assign.at == k
    ensures InPlace(chunk, 0, done)
  {
  }

  /** In a stream that neither repeats rows nor moves keys, a chunk's keys are all new. */
  lemma InPlaceChunk(probe: set<Key>, p: Progress, chunks: seq<seq<UpdateInput>>, i: nat, done: set<Key>)
    requires i < |chunks| && InPlace(Flatten(chunks), 0, {}) && p.touched == {}
    requires var q := UpdateRows(probe, p, Assigns(Flatten(chunks[..i]))); q.Some? && q.value.touched == done
    ensures InPlace(chunks[i], 0, done)
  {
    var before, all := Flatten(chunks[..i]), Flatten(chunks);
    ChunkPosition(chunks, i);
    var rows := Assigns(before);
    TouchedByUpdates(probe, p, rows);
    forall k | k in done ensures exists j :: 0 <= j < |before| && all[j].assign.at == k {
      var j :| 0 <= j < |rows| && rows[j].at == k;
      assert all[j].assign.at == k;
    }
    InPlaceAfter(all, |before|, chunks[i], done);
  }

  lemma DistinctAfter(all: seq<DeleteInput>, n: nat, chunk: seq<DeleteInput>, done: set<Key>)
    requires DistinctFrom(all, {}) && n + |chunk| <= |all|
    requires forall j :: 0 <= j < |chunk| ==> chunk[j] == all[n + j]
    requires forall k :: k in done ==> exists j :: 0 <= j < n && all[j].key == k
    ensures DistinctFrom(chunk, done)
  {
  }

  lemma DistinctChunk(p: Progress, chunks: seq<seq<DeleteInput>>, i: nat, done: set<Key>)
    requires i < |chunks| && DistinctFrom(Flatten(chunks), {}) && p.touched == {}
    requires DeleteRows(p, Keys(Flatten(chunks[..i]))).touched == done
    ensures DistinctFrom(chunks[i], done)
  {
    ChunkPosition(chunks, i);
    var before, all := Flatten(chunks[..i]), Flatten(chunks);
    forall k | k in done ensures exists j :: 0 <= j < |before| && all[j].key == k {
      TouchedByDeletes(p, Keys(before), k);
      var j :| 0 <= j < |before| && Keys(before)[j] == k;
      assert all[j].key == k;
    }
    DistinctAfter(all, |before|, chunks[i], done);
  }

  /** The delta once the first i chunks have been folded in, if they are accepted. */
  ghost function AfterChunks(base: Table, start: Delta, chunks: seq<seq<UpdateInput>>, i: nat): Option<Progress>
    requires i <= |chunks|
  {
    UpdateRows(base.Keys, Progress(start, {}), Assigns(Flatten(chunks[..i])))
  }

  /** Every chunk leaves the constraints satisfied. */
  ghost predicate StaysClear(us: seq<Constraint>, base: Table, start: Delta, chunks: seq<seq<UpdateInput>>, n: nat)
    requires n <= |chunks|
  {
    forall i :: 0 <= i <= n && AfterChunks(base, start, chunks, i).Some?
        ==> Clear(us, base, AfterChunks(base, start, chunks, i).value.delta)
  }

  lemma ChunkReads(base: Table, start: Delta, chunks: seq<seq<UpdateInput>>, i: nat)
    requires i < |chunks| && forall r :: r in Flatten(chunks) ==> Reads(base, start, r.fromDelta, r.assign.at)
    ensures forall j :: 0 <= j < |chunks[i]| ==>
              FromScan(start, chunks[i][j].fromDelta, chunks[i][j].assign.at)
              && chunks[i][j].assign.at in View(base, start)
  {
    forall j | 0 <= j < |chunks[i]| ensures Reads(base, start, chunks[i][j].fromDelta, chunks[i][j].assign.at) {
      ChunkRowsAreRows(chunks, i, chunks[i][j]);
    }
  }

  lemma NextChunk(base: Table, start: Delta, chunks: seq<seq<UpdateInput>>, i: nat)
    requires i < |chunks| && AfterChunks(base, start, chunks, i).Some?
    ensures |Flatten(chunks[..i + 1])| == |Flatten(chunks[..i])| + |chunks[i]|
    ensures AfterChunks(base, start, chunks, i + 1)
            == UpdateRows(base.Keys, AfterChunks(base, start, chunks, i).value, Assigns(chunks[i]))
  {
    FlattenStep(chunks, i);
    AssignsOfConcat(Flatten(chunks[..i]), chunks[i]);
    UpdateInChunks(base.Keys, Progress(start, {}), Assigns(Flatten(chunks[..i])), Assigns(chunks[i]));
  }

  lemma RefusedChunk(us: seq<Constraint>, base: Table, start: Delta, chunks: seq<seq<UpdateInput>>, i: nat)
    requires i <= |chunks|
    requires var q := AfterChunks(base, start, chunks, i); q.None? || !Clear(us, base, q.value.delta)
    ensures UpdateRows(base.Keys, Progress(start, {}), Assigns(Flatten(chunks))).None?
            || !StaysClear(us, base, start, chunks, |chunks|)
  {
    if AfterChunks(base, start, chunks, i).None? { RejectedChunkRejects(base.Keys, Progress(start, {}), chunks, i); }
  }

  /** p is the progress after i chunks, all of them accepted. */
  ghost predicate Accepted(us: seq<Constraint>, base: Table, start: Delta, chunks: seq<seq<UpdateInput>>, i: nat,
                           p: Progress) {
    && i <= |chunks| && AfterChunks(base, start, chunks, i) == Some(p) && StaysClear(us, base, start, chunks, i)
    && (us != [] ==> Guarded(us, base, p.delta))
  }

  lemma NothingYet(us: seq<Constraint>, base: Table, start: Delta, chunks: seq<seq<UpdateInput>>)
    requires Guarded(us, base, start)
    ensures Accepted(us, base, start, chunks, 0, Progress(start, {}))
  {
    assert AfterChunks(base, start, chunks, 0) == Some(Progress(start, {}));
  }

  lemma AcceptedOneMore(us: seq<Constraint>, base: Table, start: Delta, chunks: seq<seq<UpdateInput>>, i: nat,
                        p: Progress, q: Progress)
    requires i < |chunks| && Accepted(us, base, start, chunks, i, p)
             && UpdateRows(base.Keys, p, Assigns(chunks[i])) == Some(q)
    requires Clear(us, base, q.delta) && (us != [] ==> Guarded(us, base, q.delta))
    ensures Accepted(us, base, start, chunks, i + 1, q)
            && |Flatten(chunks[..i + 1])| == |Flatten(chunks[..i])| + |chunks[i]|
  {
    NextChunk(base, start, chunks, i);
  }

  lemma AllAccepted(us: seq<Constraint>, base: Table, start: Delta, chunks: seq<seq<UpdateInput>>, p: Progress)
    requires Accepted(us, base, start, chunks, |chunks|, p)
    ensures UpdateRows(base.Keys, Progress(start, {}), Assigns(Flatten(chunks))) == Some(p)
    ensures StaysClear(us, base, start, chunks, |chunks|) && |Flatten(chunks[..|chunks|])| == |Flatten(chunks)|
  {
    assert chunks[..|chunks|] == chunks;
  }

  /** The sink's part of an UPDATE, chunk by chunk. */
  method RunUpdate(table: DeltaTable, base: Table, indexed: bool, track: bool, chunks: seq<seq<UpdateInput>>)
    returns (o: Outcome, affected: nat)
    requires table.Valid() && Guarded(table.us, base, table.Delta())
    requires forall r :: r in Flatten(chunks) ==> Reads(base, table.Delta(), r.fromDelta, r.assign.at)
    requires !track ==> InPlace(Flatten(chunks), 0, {})
    modifies table
    ensures var q := UpdateRows(base.Keys, Progress(old(table.Delta()), {}), Assigns(Flatten(chunks)));
            && (o == Applied <==> q.Some? && StaysClear(table.us, base, old(table.Delta()), chunks, |chunks|))
            && (o == Applied ==> table.Valid() && table.Delta() == q.value.delta && affected == |Flatten(chunks)|)
    ensures o == Applied && table.us != [] ==> Guarded(table.us, base, table.Delta())
  {
    ghost var start := table.Delta();
    var sink := new KeyedSink(table, indexed, track, base, true, []);
    o := Applied;
    NothingYet(table.us, base, start, chunks);
    for i := 0 to |chunks|
      invariant sink.table == table && sink.Ready() && sink.start == start && sink.base == base && sink.keyIndex
                && sink.created == [] && sink.track == track
      invariant fresh(sink) && fresh(sink.deltaKeys) && fresh(sink.touched)
      invariant Accepted(table.us, base, start, chunks, i, Progress(sink.cur, sink.done))
      invariant sink.affected == |Flatten(chunks[..i])| && o == Applied
    {
      ghost var p := Progress(sink.cur, sink.done);
      ChunkReads(base, start, chunks, i);
      if !track { InPlaceChunk(base.Keys, Progress(start, {}), chunks, i, sink.done); }
      if table.us != [] && UpdateRows(base.Keys, p, Assigns(chunks[i])).Some? {
        ChunkKeepsInv(base, start, p, chunks[i]);
      }
      o := sink.UpdateChunk(chunks[i]);
      if o != Applied {
        affected := 0;
        NextChunk(base, start, chunks, i);
        RefusedChunk(table.us, base, start, chunks, i + 1);
        return;
      }
      AcceptedOneMore(table.us, base, start, chunks, i, p, Progress(sink.cur, sink.done));
    }
    AllAccepted(table.us, base, start, chunks, Progress(sink.cur, sink.done));
    affected := sink.affected;
  }

  /** UPDATE: accepted exactly when its rows are compatible with the view, whatever their order
      and chunks, and every chunk leaves the constraints satisfied; then the view is the
      simultaneous update of the view before. */
  method ExecuteUpdate(table: DeltaTable, base: Table, indexed: bool, track: bool, chunks: seq<seq<UpdateInput>>)
    returns (o: Outcome, affected: nat)
    requires table.Valid() && Guarded(table.us, base, table.Delta())
    requires forall r :: r in Flatten(chunks) ==> Reads(base, table.Delta(), r.fromDelta, r.assign.at)
    requires !track ==> InPlace(Flatten(chunks), 0, {})
    modifies table
    ensures o == Applied <==> Compatible(View(base, old(table.Delta())), Assigns(Flatten(chunks)))
                              && StaysClear(table.us, base, old(table.Delta()), chunks, |chunks|)
    ensures o == Applied ==>
              && table.Valid() && Guarded(table.us, base, table.Delta()) && affected == |Flatten(chunks)|
              && Simultaneous(View(base, old(table.Delta())), Set(Assigns(Flatten(chunks))), View(base, table.Delta()))
    ensures o == Applied ==> Some(table.Delta()) == Folded(base, old(table.Delta()), Assigns(Flatten(chunks)))
  {
    ghost var start := table.Delta();
    o, affected := RunUpdate(table, base, indexed, track, chunks);
    RowsAreInView(base, start, Flatten(chunks));
    UpdateIsSimultaneous(base, start, Assigns(Flatten(chunks)));
  }

  ghost function Folded(base: Table, start: Delta, rows: seq<Assign>): Option<Delta> {
    var q := UpdateRows(base.Keys, Progress(start, {}), rows);
    if q.Some? then Some(q.value.delta) else None
  }

  lemma RowsAreInView(base: Table, start: Delta, rows: seq<UpdateInput>)
    requires forall r :: r in rows ==> Reads(base, start, r.fromDelta, r.assign.at)
    ensures forall a :: a in Assigns(rows) ==> a.at in View(base, start)
  {
    forall a | a in Assigns(rows) ensures a.at in View(base, start) {
      var i :| 0 <= i < |rows| && Assigns(rows)[i] == a;
      assert rows[i] in rows;
    }
  }

  lemma {:induction false} RejectedChunkRejects(probe: set<Key>, p: Progress, chunks: seq<seq<UpdateInput>>, i: nat)
    requires i <= |chunks| && UpdateRows(probe, p, Assigns(Flatten(chunks[..i]))).None?
    ensures UpdateRows(probe, p, Assigns(Flatten(chunks))).None?
    decreases |chunks| - i
  {
    if i == |chunks| {
      assert chunks[..i] == chunks;
    } else {
      FlattenStep(chunks, i);
      AssignsOfConcat(Flatten(chunks[..i]), chunks[i]);
      UpdateInChunks(probe, p, Assigns(Flatten(chunks[..i])), Assigns(chunks[i]));
      RejectedChunkRejects(probe, p, chunks, i + 1);
    }
  }

  lemma DeleteChunkStep(p: Progress, chunks: seq<seq<DeleteInput>>, i: nat)
    requires i < |chunks|
    ensures DeleteRows(p, Keys(Flatten(chunks[..i + 1])))
            == DeleteRows(DeleteRows(p, Keys(Flatten(chunks[..i]))), Keys(chunks[i]))
  {
    FlattenStep(chunks, i);
    KeysOfConcat(Flatten(chunks[..i]), chunks[i]);
    DeleteInChunks(p, Keys(Flatten(chunks[..i])), Keys(chunks[i]));
  }

  lemma DeleteChunkScan(start: Delta, chunks: seq<seq<DeleteInput>>, i: nat)
    requires i < |chunks| && forall r :: r in Flatten(chunks) ==> FromScan(start, r.fromDelta, r.key)
    ensures forall d :: d in chunks[i] ==> FromScan(start, d.fromDelta, d.key)
  {
    forall d | d in chunks[i] ensures FromScan(start, d.fromDelta, d.key) { ChunkRowsAreRows(chunks, i, d); }
  }

  lemma ChunkKeysInView(base: Table, start: Delta, chunks: seq<seq<DeleteInput>>, i: nat)
    requires i < |chunks| && forall k :: k in Keys(Flatten(chunks)) ==> k in View(base, start)
    ensures forall k :: k in Keys(chunks[i]) ==> k in View(base, start)
  {
    var all := Keys(Flatten(chunks));
    forall k | k in Keys(chunks[i]) ensures k in View(base, start) {
      var j :| 0 <= j < |chunks[i]| && chunks[i][j].key == k;
      ChunkRowsAreRows(chunks, i, chunks[i][j]);
      var n :| 0 <= n < |Flatten(chunks)| && Flatten(chunks)[n] == chunks[i][j];
      assert all[n] == k;
    }
  }

  /** The rows a DELETE may still meet are visible. */
  ghost predicate Remaining(base: Table, start: Delta, p: Progress) {
    forall k :: k in View(base, start) ==> k in p.touched || k in View(base, p.delta)
  }

  lemma DeletedChunk(us: seq<Constraint>, base: Table, start: Delta, p: Progress, keys: seq<Key>)
    requires Guarded(us, base, p.delta) && Remaining(base, start, p) && forall k :: k in keys ==> k in View(base, start)
    ensures var q := DeleteRows(p, keys);
            Guarded(us, base, q.delta) && UniqueAll(us, q.delta) && Remaining(base, start, q)
  {
    DeleteKeepsGuarded(us, base, p, keys);
    GuardedIsIndexed(us, base, DeleteRows(p, keys).delta);
  }

  /** q is the progress after i chunks. */
  ghost predicate DeletedSoFar(us: seq<Constraint>, base: Table, start: Delta, chunks: seq<seq<DeleteInput>>, i: nat,
                               q: Progress) {
    && i <= |chunks| && DeleteRows(Progress(start, {}), Keys(Flatten(chunks[..i]))) == q
    && Guarded(us, base, q.delta) && Remaining(base, start, q)
  }

  lemma NextDeletes(us: seq<Constraint>, base: Table, start: Delta, chunks: seq<seq<DeleteInput>>, i: nat, q: Progress)
    requires i < |chunks| && DeletedSoFar(us, base, start, chunks, i, q)
    requires forall r :: r in Flatten(chunks) ==> FromScan(start, r.fromDelta, r.key)
    requires forall k :: k in Keys(Flatten(chunks)) ==> k in View(base, start)
    ensures forall d :: d in chunks[i] ==> FromScan(start, d.fromDelta, d.key)
    ensures DistinctFrom(Flatten(chunks), {}) ==> DistinctFrom(chunks[i], q.touched)
    ensures var next := DeleteRows(q, Keys(chunks[i]));
            UniqueAll(us, next.delta) && DeletedSoFar(us, base, start, chunks, i + 1, next)
  {
    DeleteChunkStep(Progress(start, {}), chunks, i);
    DeleteChunkScan(start, chunks, i);
    ChunkKeysInView(base, start, chunks, i);
    DeletedChunk(us, base, start, q, Keys(chunks[i]));
    if DistinctFrom(Flatten(chunks), {}) { DistinctChunk(Progress(start, {}), chunks, i, q.touched); }
  }

  lemma NoneDeleted(us: seq<Constraint>, base: Table, start: Delta, chunks: seq<seq<DeleteInput>>)
    requires Guarded(us, base, start)
    ensures DeletedSoFar(us, base, start, chunks, 0, Progress(start, {}))
  {
    assert chunks[..0] == [];
  }

  lemma AllDeleted(us: seq<Constraint>, base: Table, start: Delta, chunks: seq<seq<DeleteInput>>, q: Progress)
    requires DeletedSoFar(us, base, start, chunks, |chunks|, q)
    ensures Guarded(us, base, q.delta) && q == DeleteRows(Progress(start, {}), Keys(Flatten(chunks)))
  {
    assert chunks[..|chunks|] == chunks;
  }

  /** The sink's part of a DELETE, chunk by chunk; no check ever refuses it. */
  method RunDelete(table: DeltaTable, base: Table, indexed: bool, track: bool, chunks: seq<seq<DeleteInput>>)
    returns (affected: int)
    requires table.Valid() && Guarded(table.us, base, table.Delta())
    requires forall r :: r in Flatten(chunks) ==> FromScan(table.Delta(), r.fromDelta, r.key)
    requires forall k :: k in Keys(Flatten(chunks)) ==> k in View(base, table.Delta())
    requires !track ==> DistinctFrom(Flatten(chunks), {})
    modifies table
    ensures table.Valid() && Guarded(table.us, base, table.Delta())
    ensures var q := DeleteRows(Progress(old(table.Delta()), {}), Keys(Flatten(chunks)));
            table.Delta() == q.delta && affected == |q.touched|
  {
    ghost var start := table.Delta();
    var sink := new KeyedSink(table, indexed, track, base, true, []);
    NoneDeleted(table.us, base, start, chunks);
    for i := 0 to |chunks|
      invariant sink.table == table && sink.Ready() && sink.start == start && sink.track == track
      invariant fresh(sink) && fresh(sink.deltaKeys) && fresh(sink.touched)
      invariant DeletedSoFar(table.us, base, start, chunks, i, Progress(sink.cur, sink.done))
      invariant (track ==> AllDeletes(sink.touched.keys)) && sink.affected == |sink.done|
    {
      NextDeletes(table.us, base, start, chunks, i, Progress(sink.cur, sink.done));
      var o := sink.DeleteChunk(chunks[i]);
      assert o == Applied;
    }
    AllDeleted(table.us, base, start, chunks, Progress(sink.cur, sink.done));
    affected := sink.affected;
  }

  /** DELETE: always succeeds, removes exactly the matched keys, and counts each once even
      when a join matched it several times. */
  method ExecuteDelete(table: DeltaTable, base: Table, indexed: bool, track: bool, chunks: seq<seq<DeleteInput>>)
    returns (affected: int)
    requires table.Valid() && Guarded(table.us, base, table.Delta())
    requires forall r :: r in Flatten(chunks) ==> Reads(base, table.Delta(), r.fromDelta, r.key)
    requires !track ==> DistinctFrom(Flatten(chunks), {})
    modifies table
    ensures table.Valid() && Guarded(table.us, base, table.Delta())
    ensures table.Delta() == DeleteRows(Progress(old(table.Delta()), {}), Keys(Flatten(chunks))).delta
    ensures View(base, table.Delta()) == View(base, old(table.Delta())) - KeySet(Keys(Flatten(chunks)))
    ensures affected == |KeySet(Keys(Flatten(chunks)))|
  {
    ghost var start, rows := table.Delta(), Flatten(chunks);
    ReadsAreFromScan(base, start, rows);
    affected := RunDelete(table, base, indexed, track, chunks);
    DeleteRemovesKeys(base, start, Keys(rows));
    TouchedAfterDeletes(Progress(start, {}), Keys(rows));
  }

  lemma ReadsAreFromScan(base: Table, start: Delta, rows: seq<DeleteInput>)
    requires forall r :: r in rows ==> Reads(base, start, r.fromDelta, r.key)
    ensures forall r :: r in rows ==> FromScan(start, r.fromDelta, r.key)
    ensures forall k :: k in Keys(rows) ==> k in View(base, start)
  {
    var keys := Keys(rows);
    forall k | k in keys ensures k in View(base, start) {
      var i :| 0 <= i < |keys| && keys[i] == k;
      assert rows[i] in rows;
    }
  }

  /** An INSERT of all the rows satisfies the constraints. */
  ghost predicate InsertsClear(us: seq<Constraint>, base: Table, start: Delta, rows: seq<Row>) {
    var q := InsertRows(base.Keys, start, rows);
    q.Some? && Clear(us, base, q.value)
  }

  lemma RefusedInsert(us: seq<Constraint>, base: Table, start: Delta, chunks: seq<seq<Row>>, i: nat)
    requires Guarded(us, base, start) && i <= |chunks| && !InsertsClear(us, base, start, Flatten(chunks[..i]))
    ensures !InsertsClear(us, base, start, Flatten(chunks))
  {
    var all := Flatten(chunks);
    FlattenBeginning(chunks, i);
    if InsertsClear(us, base, start, all) {
      if us == [] {
        RejectedInsertPrefix(base.Keys, start, all, |Flatten(chunks[..i])|);
      } else {
        InsertBeginningsAreClear(us, base, start, all, |Flatten(chunks[..i])|);
      }
    }
  }

  lemma FlattenBeginning<T>(chunks: seq<seq<T>>, i: nat)
    requires i <= |chunks|
    ensures |Flatten(chunks[..i])| <= |Flatten(chunks)|
            && Flatten(chunks)[..|Flatten(chunks[..i])|] == Flatten(chunks[..i])
  {
    if i == |chunks| {
      assert chunks[..i] == chunks;
    } else {
      FlattenSplit(chunks, i);
    }
  }

  /** delta holds the rows of the first i chunks, all of them accepted. */
  ghost predicate InsertedSoFar(us: seq<Constraint>, base: Table, start: Delta, chunks: seq<seq<Row>>, i: nat,
                                delta: Delta) {
    && i <= |chunks| && InsertRows(base.Keys, start, Flatten(chunks[..i])) == Some(delta)
    && Guarded(us, base, delta)
  }

  lemma NextInserts(us: seq<Constraint>, base: Table, start: Delta, chunks: seq<seq<Row>>, i: nat, delta: Delta)
    requires i < |chunks| && Guarded(us, base, start) && InsertedSoFar(us, base, start, chunks, i, delta)
    ensures |Flatten(chunks[..i + 1])| == |Flatten(chunks[..i])| + |chunks[i]|
    ensures var q := InsertRows(base.Keys, delta, chunks[i]);
            && (q.Some? && us != [] ==> Inv(base, q.value))
            && (q.Some? && Clear(us, base, q.value) ==> InsertedSoFar(us, base, start, chunks, i + 1, q.value))
            && (q.None? || !Clear(us, base, q.value) ==> !InsertsClear(us, base, start, Flatten(chunks)))
  {
    FlattenStep(chunks, i);
    InsertInChunks(base.Keys, start, Flatten(chunks[..i]), chunks[i]);
    InsertAddsRows(base, delta, chunks[i]);
    var q := InsertRows(base.Keys, delta, chunks[i]);
    if q.Some? && us != [] { InsertHasShape(base, delta, chunks[i]); }
    if q.None? || !Clear(us, base, q.value) { RefusedInsert(us, base, start, chunks, i + 1); }
  }

  lemma AllInserted(us: seq<Constraint>, base: Table, start: Delta, chunks: seq<seq<Row>>, delta: Delta)
    requires InsertedSoFar(us, base, start, chunks, |chunks|, delta)
    ensures InsertRows(base.Keys, start, Flatten(chunks)) == Some(delta)
            && InsertsClear(us, base, start, Flatten(chunks))
    ensures |Flatten(chunks[..|chunks|])| == |Flatten(chunks)|
  {
    assert chunks[..|chunks|] == chunks;
    if us == [] { assert Clear(us, base, delta); }
  }

  /** The sink's part of an INSERT, chunk by chunk. */
  method RunInsert(table: DeltaTable, base: Table, indexed: bool, chunks: seq<seq<Row>>)
      returns (o: Outcome, affected: nat)
    requires table.Valid() && Guarded(table.us, base, table.Delta())
    modifies table
    ensures o == Applied <==> InsertsClear(table.us, base, old(table.Delta()), Flatten(chunks))
    ensures o == Applied ==> table.Valid() && Guarded(table.us, base, table.Delta()) && affected == |Flatten(chunks)|
                             && Some(table.Delta()) == InsertRows(base.Keys, old(table.Delta()), Flatten(chunks))
  {
    ghost var start := table.Delta();
    var sink := new KeyedSink(table, indexed, false, base, true, []);
    o := Applied;
    for i := 0 to |chunks|
      invariant sink.table == table && sink.Ready() && sink.base == base && sink.keyIndex && sink.created == []
                && !sink.track
      invariant fresh(sink) && fresh(sink.deltaKeys) && fresh(sink.touched)
      invariant InsertedSoFar(table.us, base, start, chunks, i, sink.cur)
      invariant AllVisible(sink.cur, sink.done) && sink.affected == |Flatten(chunks[..i])| && o == Applied
    {
      NextInserts(table.us, base, start, chunks, i, sink.cur);
      o := sink.InsertChunk(chunks[i]);
      if o != Applied {
        affected := 0;
        return;
      }
    }
    AllInserted(table.us, base, start, chunks, sink.cur);
    affected := sink.affected;
  }

  /** INSERT: accepted exactly when no key is in the view, no key repeats and the constraints
      hold of the result, whatever the chunks. */
  method ExecuteInsert(table: DeltaTable, base: Table, indexed: bool, chunks: seq<seq<Row>>)
    returns (o: Outcome, affected: nat)
    requires table.Valid() && Guarded(table.us, base, table.Delta())
    modifies table
    ensures o == Applied <==> Insertable(View(base, old(table.Delta())), Flatten(chunks))
                              && InsertsClear(table.us, base, old(table.Delta()), Flatten(chunks))
    ensures o == Applied ==>
              && table.Valid() && Guarded(table.us, base, table.Delta()) && affected == |Flatten(chunks)|
              && View(base, table.Delta()) == WithRows(View(base, old(table.Delta())), Flatten(chunks))
    ensures o == Applied ==> Some(table.Delta()) == InsertRows(base.Keys, old(table.Delta()), Flatten(chunks))
  {
    InsertAddsRows(base, table.Delta(), Flatten(chunks));
    o, affected := RunInsert(table, base, indexed, chunks);
  }

  // ----- runs -----

  /** A statement decides from the table it sees which rows it writes; the plan hands them to
      the sink in chunks. */
  datatype Statement =
    | Insert(rows: Table -> seq<seq<Row>>)
    | Update(assigns: Table -> seq<seq<Assign>>)
    | Delete(keys: Table -> seq<seq<Key>>)

  function Matching(t: Table, rows: seq<Assign>): (r: seq<Assign>)
    ensures forall a :: a in r ==> a.at in t
  {
    if rows == [] then []
    else Matching(t, rows[..|rows| - 1]) + if rows[|rows| - 1].at in t then [rows[|rows| - 1]] else []
  }

  function MatchingKeys(t: Table, keys: seq<Key>): (r: seq<Key>)
    ensures forall k :: k in r ==> k in t
  {
    if keys == [] then []
    else MatchingKeys(t, keys[..|keys| - 1]) + if keys[|keys| - 1] in t then [keys[|keys| - 1]] else []
  }

  /** The chunks an UPDATE or DELETE sink is handed. */
  function UpdateInputs(base: Table, delta: Delta, chunks: seq<seq<Assign>>): seq<seq<UpdateInput>> {
    if chunks == [] then []
    else
      var rows := Matching(View(base, delta), chunks[|chunks| - 1]);
      UpdateInputs(base, delta, chunks[..|chunks| - 1])
          + [seq(|rows|, i requires 0 <= i < |rows| => UpdateInput(rows[i].at in delta, rows[i]))]
  }

  function DeleteInputs(base: Table, delta: Delta, chunks: seq<seq<Key>>): seq<seq<DeleteInput>> {
    if chunks == [] then []
    else
      var keys := MatchingKeys(View(base, delta), chunks[|chunks| - 1]);
      DeleteInputs(base, delta, chunks[..|chunks| - 1])
          + [seq(|keys|, i requires 0 <= i < |keys| => DeleteInput(keys[i] in delta, keys[i]))]
  }

  function Matched(t: Table, chunks: seq<seq<Assign>>): seq<Assign> {
    if chunks == [] then [] else Matched(t, chunks[..|chunks| - 1]) + Matching(t, chunks[|chunks| - 1])
  }

  function MatchedKeys(t: Table, chunks: seq<seq<Key>>): seq<Key> {
    if chunks == [] then [] else MatchedKeys(t, chunks[..|chunks| - 1]) + MatchingKeys(t, chunks[|chunks| - 1])
  }

  lemma {:induction false} InputsAreMatched(base: Table, delta: Delta, chunks: seq<seq<Assign>>)
    ensures var inputs := UpdateInputs(base, delta, chunks);
            && |inputs| == |chunks| && Assigns(Flatten(inputs)) == Matched(View(base, delta), chunks)
            && forall r :: r in Flatten(inputs) ==> Reads(base, delta, r.fromDelta, r.assign.at)
  {
    if chunks != [] {
      var n := |chunks| - 1;
      InputsAreMatched(base, delta, chunks[..n]);
      var inputs := UpdateInputs(base, delta, chunks);
      assert inputs[..n] == UpdateInputs(base, delta, chunks[..n]);
      AssignsOfConcat(Flatten(inputs[..n]), inputs[n]);
      assert Assigns(inputs[n]) == Matching(View(base, delta), chunks[n]);
      forall r: UpdateInput | r in inputs[n] ensures Reads(base, delta, r.fromDelta, r.assign.at) {
        var i :| 0 <= i < |inputs[n]| && inputs[n][i] == r;
        assert Matching(View(base, delta), chunks[n])[i] == r.assign;
      }
    }
  }

  lemma {:induction false} DeleteInputsAreMatched(base: Table, delta: Delta, chunks: seq<seq<Key>>)
    ensures var inputs := DeleteInputs(base, delta, chunks);
            && |inputs| == |chunks| && Keys(Flatten(inputs)) == MatchedKeys(View(base, delta), chunks)
            && forall r :: r in Flatten(inputs) ==> Reads(base, delta, r.fromDelta, r.key)
  {
    if chunks != [] {
      var n := |chunks| - 1;
      DeleteInputsAreMatched(base, delta, chunks[..n]);
      var inputs := DeleteInputs(base, delta, chunks);
      assert inputs[..n] == DeleteInputs(base, delta, chunks[..n]);
      KeysOfConcat(Flatten(inputs[..n]), inputs[n]);
      assert Keys(inputs[n]) == MatchingKeys(View(base, delta), chunks[n]);
      forall r: DeleteInput | r in inputs[n] ensures Reads(base, delta, r.fromDelta, r.key) {
        var i :| 0 <= i < |inputs[n]| && inputs[n][i] == r;
        assert MatchingKeys(View(base, delta), chunks[n])[i] == r.key;
      }
    }
  }

  lemma {:induction false} InputsPrefix(base: Table, delta: Delta, chunks: seq<seq<Assign>>, i: nat)
    requires i <= |chunks|
    ensures |UpdateInputs(base, delta, chunks)| == |chunks|
            && UpdateInputs(base, delta, chunks)[..i] == UpdateInputs(base, delta, chunks[..i])
  {
    if i == |chunks| {
      assert chunks[..i] == chunks;
      InputsInit(base, delta, chunks);
    } else {
      var n := |chunks| - 1;
      InputsPrefix(base, delta, chunks[..n], i);
      assert chunks[..n][..i] == chunks[..i];
      InputsInit(base, delta, chunks);
      var inputs := UpdateInputs(base, delta, chunks);
      assert inputs[..i] == inputs[..n][..i];
    }
  }

  lemma {:induction false} InputsInit(base: Table, delta: Delta, chunks: seq<seq<Assign>>)
    ensures |UpdateInputs(base, delta, chunks)| == |chunks|
    ensures chunks != [] ==>
              UpdateInputs(base, delta, chunks)[..|chunks| - 1]
              == UpdateInputs(base, delta, chunks[..|chunks| - 1])
  {
    if chunks != [] { InputsInit(base, delta, chunks[..|chunks| - 1]); }
  }

  /** The rows of a plan that find their key in the table: what a plain UPDATE is about. */
  function Hits(t: Table, rows: seq<Assign>): set<Assign> {
    set a | a in rows && a.at in t
  }

  /** Two of them share a key they read or write, or one moves onto a key of the table. */
  predicate Collides(t: Table, rows: seq<Assign>) {
    || (exists i, j :: 0 <= i < j < |rows| && rows[i].at in t && rows[j].at in t
                       && {rows[i].at, rows[i].image.key} * {rows[j].at, rows[j].image.key} != {})
    || (exists i :: 0 <= i < |rows| && rows[i].at in t && rows[i].image.key != rows[i].at && rows[i].image.key in t)
  }

  /** Each chunk leaves the plain table unique. */
  ghost predicate StaysUnique(us: seq<Constraint>, t: Table, chunks: seq<seq<Assign>>) {
    forall i, mid :: 0 <= i <= |chunks| && Simultaneous(t, Hits(t, Flatten(chunks[..i])), mid) ==> UniqueUnder(us, mid)
  }

  /** The statement on a plain table with a key and UNIQUE constraints us, in terms of all the
      rows it was planned with; a rejected one changes nothing. */
  ghost predicate PlainStep(us: seq<Constraint>, t: Table, s: Statement, after: Table) {
    match s
    case Insert(plan) =>
      var more := WithRows(t, Flatten(plan(t)));
      after == if Insertable(t, Flatten(plan(t))) && UniqueUnder(us, more) then more else t
    case Update(plan) =>
      var rows := Flatten(plan(t));
      if !Collides(t, rows) && StaysUnique(us, t, plan(t)) then Simultaneous(t, Hits(t, rows), after) else after == t
    case Delete(plan) => after == t - KeySet(Flatten(plan(t)))
  }

  // ----- the sinks are handed exactly those rows -----

  lemma {:induction false} MatchingConcat(t: Table, a: seq<Assign>, b: seq<Assign>)
    ensures Matching(t, a + b) == Matching(t, a) + Matching(t, b)
  {
    if b == [] {
      assert a + b == a;
    } else {
      var n := |b| - 1;
      MatchingConcat(t, a, b[..n]);
      assert (a + b)[..|a + b| - 1] == a + b[..n];
    }
  }

  lemma {:induction false} MatchedIsMatching(t: Table, chunks: seq<seq<Assign>>)
    ensures Matched(t, chunks) == Matching(t, Flatten(chunks))
  {
    if chunks != [] {
      var n := |chunks| - 1;
      MatchedIsMatching(t, chunks[..n]);
      MatchingConcat(t, Flatten(chunks[..n]), chunks[n]);
    }
  }

  lemma {:induction false} MatchingIsHits(t: Table, rows: seq<Assign>)
    ensures Set(Matching(t, rows)) == Hits(t, rows)
  {
    if rows != [] {
      var n := |rows| - 1;
      MatchingIsHits(t, rows[..n]);
      assert rows == rows[..n] + [rows[n]];
      var init, more := Matching(t, rows[..n]), if rows[n].at in t then [rows[n]] else [];
      forall a ensures a in Set(init + more) <==> a in Hits(t, rows) {
        assert a in Set(init) <==> a in Hits(t, rows[..n]);
      }
    }
  }

  /** One more row collides with the rows before it, or it does not. */
  lemma CollidesOneMore(t: Table, init: seq<Assign>, a: Assign)
    ensures Collides(t, init + [a]) <==>
              Collides(t, init)
              || (a.at in t && ((exists b :: b in Hits(t, init) && !(b.Touches() !! a.Touches()))
                                || (a.Moves() && a.image.key in t)))
  {
    var rows, n := init + [a], |init|;
    forall i | 0 <= i < n ensures rows[i] == init[i] {}
    assert rows[n] == a;
    if Collides(t, init) {
      if i, j :| 0 <= i < j < n && init[i].at in t && init[j].at in t
                 && {init[i].at, init[i].image.key} * {init[j].at, init[j].image.key} != {} {
        assert rows[i] == init[i] && rows[j] == init[j];
      } else {
        var i :| 0 <= i < n && init[i].at in t && init[i].image.key != init[i].at && init[i].image.key in t;
        assert rows[i] == init[i];
      }
    }
    LastCollides(t, init, a);
  }

  lemma LastCollides(t: Table, init: seq<Assign>, a: Assign)
    ensures (exists b :: b in Hits(t, init) && !(b.Touches() !! a.Touches())) <==>
            exists i :: 0 <= i < |init| && init[i].at in t
                        && {init[i].at, init[i].image.key} * {a.at, a.image.key} != {}
  {
    if b :| b in Hits(t, init) && !(b.Touches() !! a.Touches()) {
      var i :| 0 <= i < |init| && init[i] == b;
      var k :| k in b.Touches() && k in a.Touches();
      assert k in {init[i].at, init[i].image.key} * {a.at, a.image.key};
    }
    if i :| 0 <= i < |init| && init[i].at in t && {init[i].at, init[i].image.key} * {a.at, a.image.key} != {} {
      var b := init[i];
      var k :| k in {b.at, b.image.key} * {a.at, a.image.key};
      assert k in b.Touches() && k in a.Touches();
      assert b in Hits(t, init) && !(b.Touches() !! a.Touches());
    }
  }

  lemma {:induction false} CompatibleIffNoCollision(t: Table, rows: seq<Assign>)
    ensures Compatible(t, Matching(t, rows)) <==> !Collides(t, rows)
  {
    if rows != [] {
      var n := |rows| - 1;
      var init, a := rows[..n], rows[n];
      assert rows == init + [a];
      CompatibleIffNoCollision(t, init);
      CollidesOneMore(t, init, a);
      MatchingIsHits(t, init);
      var some := Matching(t, init);
      if a.at in t {
        assert (some + [a])[..|some|] == some && Matching(t, rows) == some + [a];
        CompatibleOneMore(t, some + [a]);
        TouchesAny(some, a);
        assert Set(some) == Hits(t, init);
      } else {
        assert some + [] == some;
      }
    }
  }

  lemma TouchesAny(rows: seq<Assign>, a: Assign)
    ensures TouchedBy(rows) !! a.Touches() <==> !exists b :: b in Set(rows) && !(b.Touches() !! a.Touches())
  {
    if k :| k in TouchedBy(rows) && k in a.Touches() {
      var b :| b in rows && k in b.Touches();
      assert b in Set(rows) && k in b.Touches() * a.Touches();
    }
    if b :| b in Set(rows) && !(b.Touches() !! a.Touches()) {
      var k :| k in b.Touches() && k in a.Touches();
      assert k in TouchedBy(rows);
    }
  }

  /** What the sink of an UPDATE is handed, against the whole plan. */
  lemma MatchedIsExact(t: Table, chunks: seq<seq<Assign>>)
    ensures Set(Matched(t, chunks)) == Hits(t, Flatten(chunks))
    ensures Compatible(t, Matched(t, chunks)) <==> !Collides(t, Flatten(chunks))
  {
    MatchedIsMatching(t, chunks);
    MatchingIsHits(t, Flatten(chunks));
    CompatibleIffNoCollision(t, Flatten(chunks));
  }

  lemma {:induction false} MatchingKeysAre(t: Table, keys: seq<Key>)
    ensures forall k :: k in MatchingKeys(t, keys) <==> k in keys && k in t
  {
    if keys != [] {
      MatchingKeysAre(t, keys[..|keys| - 1]);
      assert keys == keys[..|keys| - 1] + [keys[|keys| - 1]];
    }
  }

  /** And the sink of a DELETE. */
  lemma {:induction false} MatchedKeysAre(t: Table, chunks: seq<seq<Key>>)
    ensures forall k :: k in MatchedKeys(t, chunks) <==> k in Flatten(chunks) && k in t
  {
    if chunks != [] {
      MatchedKeysAre(t, chunks[..|chunks| - 1]);
      MatchingKeysAre(t, chunks[|chunks| - 1]);
    }
  }

  /** The statement on the scenario: it reads the view and writes the delta. */
  ghost function ScenarioStep(us: seq<Constraint>, base: Table, delta: Delta, s: Statement): Delta {
    var view := View(base, delta);
    match s
    case Insert(plan) =>
      if InsertsClear(us, base, delta, Flatten(plan(view)))
          then InsertRows(base.Keys, delta, Flatten(plan(view))).value else delta
    case Update(plan) =>
      var inputs := UpdateInputs(base, delta, plan(view));
      var q := Folded(base, delta, Assigns(Flatten(inputs)));
      if q.Some? && StaysClear(us, base, delta, inputs, |inputs|) then q.value else delta
    case Delete(plan) => DeleteRows(Progress(delta, {}), MatchedKeys(view, plan(view))).delta
  }

  /** Between statements the host may change the base. */
  datatype Event = Do(s: Statement) | HostChange(base: Table)

  datatype World = World(base: Table, delta: Delta)

  ghost function Step(us: seq<Constraint>, w: World, e: Event): World {
    match e
    case Do(s) => World(w.base, ScenarioStep(us, w.base, w.delta, s))
    case HostChange(base) => World(base, w.delta)
  }

  ghost function ScenarioRun(us: seq<Constraint>, w: World, run: seq<Event>): World {
    if run == [] then w else Step(us, ScenarioRun(us, w, run[..|run| - 1]), run[|run| - 1])
  }

  /** Every host change leaves the changelog fitting: it adds no key the scenario inserted - and,
      under constraints, none of the scenario's other conditions is broken. */
  ghost predicate HostFits(us: seq<Constraint>, w: World, run: seq<Event>) {
    forall i :: 0 <= i < |run| && run[i].HostChange? ==> Guarded(us, run[i].base, ScenarioRun(us, w, run[..i]).delta)
  }

  lemma HostFitsPrefix(us: seq<Constraint>, w: World, run: seq<Event>, n: nat)
    requires n <= |run| && HostFits(us, w, run)
    ensures HostFits(us, w, run[..n])
  {
    forall i | 0 <= i < n && run[..n][i].HostChange?
      ensures Guarded(us, run[..n][i].base, ScenarioRun(us, w, run[..n][..i]).delta)
    {
      assert run[..n][..i] == run[..i];
    }
  }

  /** One event on the plain table; touched are the keys the scenario has changes for. */
  ghost predicate PlainEvent(us: seq<Constraint>, touched: set<Key>, t: Table, e: Event, after: Table) {
    match e
    case Do(s) => PlainStep(us, t, s, after)
    case HostChange(base) => after == Rebased(t, touched, base)
  }

  /** tables is the history of a plain table under the run. */
  ghost predicate PlainHistory(us: seq<Constraint>, w: World, tables: seq<Table>, run: seq<Event>) {
    |tables| == |run| + 1 && tables[0] == View(w.base, w.delta) &&
    forall i :: 0 <= i < |run| ==> PlainEvent(us, ScenarioRun(us, w, run[..i]).delta.Keys, tables[i], run[i],
                                              tables[i + 1])
  }

  lemma HistoryPrefix(us: seq<Constraint>, w: World, tables: seq<Table>, run: seq<Event>)
    requires run != [] && PlainHistory(us, w, tables, run)
    ensures var n := |run| - 1;
            && PlainHistory(us, w, tables[..n + 1], run[..n])
            && PlainEvent(us, ScenarioRun(us, w, run[..n]).delta.Keys, tables[n], run[n], tables[n + 1])
  {
    var n := |run| - 1;
    forall i | 0 <= i < n
      ensures PlainEvent(us, ScenarioRun(us, w, run[..n][..i]).delta.Keys, tables[..n + 1][i], run[..n][i],
                         tables[..n + 1][i + 1])
    {
      assert run[..n][..i] == run[..i];
    }
  }

  /** Constraints that no tombstone can trip. */
  predicate SeePayload(us: seq<Constraint>) {
    forall u :: u in us ==> HasPayloadColumn(u)
  }

  lemma ClearIsUnique(us: seq<Constraint>, base: Table, delta: Delta)
    ensures Clear(us, base, delta) ==> UniqueUnder(us, View(base, delta))
    ensures SeePayload(us) && UniqueUnder(us, View(base, delta)) ==> Clear(us, base, delta)
  {
    if SeePayload(us) {
      forall u | u in us ensures NoTombstoneConflict(u, delta) { PayloadColumnsSuffice(u, delta); }
    }
  }

  lemma InsertStepRefines(us: seq<Constraint>, base: Table, delta: Delta, s: Statement)
    requires Guarded(us, base, delta) && s.Insert?
    ensures var after := ScenarioStep(us, base, delta, s);
            && Guarded(us, base, after)
            && (after == delta || PlainStep(us, View(base, delta), s, View(base, after)))
            && (SeePayload(us) ==> PlainStep(us, View(base, delta), s, View(base, after)))
  {
    var rows := Flatten(s.rows(View(base, delta)));
    InsertAddsRows(base, delta, rows);
    var q := InsertRows(base.Keys, delta, rows);
    if q.Some? {
      if us != [] { InsertHasShape(base, delta, rows); }
      ClearIsUnique(us, base, q.value);
    }
  }

  lemma DeleteStepRefines(us: seq<Constraint>, base: Table, delta: Delta, s: Statement)
    requires Guarded(us, base, delta) && s.Delete?
    ensures var after := ScenarioStep(us, base, delta, s);
            Guarded(us, base, after) && PlainStep(us, View(base, delta), s, View(base, after))
  {
    var keys := MatchedKeys(View(base, delta), s.keys(View(base, delta)));
    MatchedKeysAre(View(base, delta), s.keys(View(base, delta)));
    DeleteRemovesKeys(base, delta, keys);
    DeleteKeepsGuarded(us, base, Progress(delta, {}), keys);
  }

  lemma {:induction false} MatchedAreIn(t: Table, chunks: seq<seq<Assign>>)
    ensures forall a :: a in Matched(t, chunks) ==> a.at in t
  {
    if chunks != [] { MatchedAreIn(t, chunks[..|chunks| - 1]); }
  }

  /** After i chunks of a compatible UPDATE the view is the simultaneous update by their rows. */
  lemma AfterChunksShow(base: Table, delta: Delta, chunks: seq<seq<Assign>>, i: nat)
    requires Overlay(base, delta) && i <= |chunks| && !Collides(View(base, delta), Flatten(chunks))
    ensures var inputs := UpdateInputs(base, delta, chunks);
            && |inputs| == |chunks| && AfterChunks(base, delta, inputs, i).Some?
            && Simultaneous(View(base, delta), Hits(View(base, delta), Flatten(chunks[..i])),
                            View(base, AfterChunks(base, delta, inputs, i).value.delta))
  {
    var view, inputs := View(base, delta), UpdateInputs(base, delta, chunks);
    InputsAreMatched(base, delta, chunks);
    MatchedAreIn(view, chunks);
    MatchedIsExact(view, chunks);
    UpdateIsSimultaneous(base, delta, Matched(view, chunks));
    if AfterChunks(base, delta, inputs, i).None? { RejectedChunkRejects(base.Keys, Progress(delta, {}), inputs, i); }
    InputsPrefix(base, delta, chunks, i);
    InputsAreMatched(base, delta, chunks[..i]);
    MatchedAreIn(view, chunks[..i]);
    MatchedIsExact(view, chunks[..i]);
    UpdateIsSimultaneous(base, delta, Matched(view, chunks[..i]));
  }

  lemma StaysClearIsUnique(us: seq<Constraint>, base: Table, delta: Delta, chunks: seq<seq<Assign>>)
    requires Overlay(base, delta) && !Collides(View(base, delta), Flatten(chunks))
    requires |UpdateInputs(base, delta, chunks)| == |chunks|
    ensures var clear := StaysClear(us, base, delta, UpdateInputs(base, delta, chunks), |chunks|);
            && (clear ==> StaysUnique(us, View(base, delta), chunks))
            && (SeePayload(us) && StaysUnique(us, View(base, delta), chunks) ==> clear)
  {
    var view, inputs := View(base, delta), UpdateInputs(base, delta, chunks);
    if StaysClear(us, base, delta, inputs, |chunks|) {
      forall i, mid | 0 <= i <= |chunks| && Simultaneous(view, Hits(view, Flatten(chunks[..i])), mid)
        ensures UniqueUnder(us, mid)
      {
        AfterChunksShow(base, delta, chunks, i);
        SimultaneousIsUnique(view, Hits(view, Flatten(chunks[..i])), mid,
                             View(base, AfterChunks(base, delta, inputs, i).value.delta));
        ClearIsUnique(us, base, AfterChunks(base, delta, inputs, i).value.delta);
      }
    }
    if SeePayload(us) && StaysUnique(us, view, chunks) {
      forall i | 0 <= i <= |chunks| && AfterChunks(base, delta, inputs, i).Some?
        ensures Clear(us, base, AfterChunks(base, delta, inputs, i).value.delta)
      {
        AfterChunksShow(base, delta, chunks, i);
        ClearIsUnique(us, base, AfterChunks(base, delta, inputs, i).value.delta);
      }
    }
  }

  lemma FoldedIsGuarded(us: seq<Constraint>, base: Table, delta: Delta, inputs: seq<seq<UpdateInput>>)
    requires Guarded(us, base, delta) && forall r ::
               r in Flatten(inputs)
               ==> Reads(base, delta, r.fromDelta, r.assign.at)
    requires Folded(base, delta, Assigns(Flatten(inputs))).Some? && StaysClear(us, base, delta, inputs, |inputs|)
    ensures Guarded(us, base, Folded(base, delta, Assigns(Flatten(inputs))).value)
  {
    RowsAreInView(base, delta, Flatten(inputs));
    FoldKeepsInv(us, base, delta, Assigns(Flatten(inputs)));
    AfterAllChunks(base, delta, inputs);
  }

  lemma AfterAllChunks(base: Table, delta: Delta, inputs: seq<seq<UpdateInput>>)
    ensures AfterChunks(base, delta, inputs, |inputs|)
            == UpdateRows(base.Keys, Progress(delta, {}), Assigns(Flatten(inputs)))
  {
    assert inputs[..|inputs|] == inputs;
  }

  lemma FoldKeepsInv(us: seq<Constraint>, base: Table, delta: Delta, rows: seq<Assign>)
    requires Guarded(us, base, delta) && (forall a :: a in rows ==> a.at in View(base, delta))
             && Folded(base, delta, rows).Some?
    ensures Overlay(base, Folded(base, delta, rows).value)
    ensures us != [] ==>
              Inv(base, Folded(base, delta, rows).value)
              && TombstonesAreBlank(Folded(base, delta, rows).value)
  {
    UpdateIsSimultaneous(base, delta, rows);
    if us != [] { ChunkHasShape(base, Progress(delta, {}), rows); }
  }

  lemma UpdateStepRefines(us: seq<Constraint>, base: Table, delta: Delta, s: Statement)
    requires Guarded(us, base, delta) && s.Update?
    ensures var after := ScenarioStep(us, base, delta, s);
            && Guarded(us, base, after)
            && (after == delta || PlainStep(us, View(base, delta), s, View(base, after)))
            && (SeePayload(us) ==> PlainStep(us, View(base, delta), s, View(base, after)))
  {
    var view := View(base, delta);
    var chunks, inputs := s.assigns(view), UpdateInputs(base, delta, s.assigns(view));
    InputsAreMatched(base, delta, chunks);
    MatchedAreIn(view, chunks);
    MatchedIsExact(view, chunks);
    UpdateIsSimultaneous(base, delta, Matched(view, chunks));
    if !Collides(view, Flatten(chunks)) {
      StaysClearIsUnique(us, base, delta, chunks);
      if StaysClear(us, base, delta, inputs, |inputs|) { FoldedIsGuarded(us, base, delta, inputs); }
    }
  }

  /** One statement on the scenario is the same statement on the plain table; a constraint
      over key columns alone can only make it refuse more. */
  lemma StepRefines(us: seq<Constraint>, base: Table, delta: Delta, s: Statement)
    requires Guarded(us, base, delta)
    ensures var after := ScenarioStep(us, base, delta, s);
            && Guarded(us, base, after)
            && (after == delta || PlainStep(us, View(base, delta), s, View(base, after)))
            && (SeePayload(us) ==> PlainStep(us, View(base, delta), s, View(base, after)))
  {
    match s
    case Insert(_) => InsertStepRefines(us, base, delta, s);
    case Update(_) => UpdateStepRefines(us, base, delta, s);
    case Delete(_) => DeleteStepRefines(us, base, delta, s);
  }

  /** An UPDATE reaches every row it was planned with: refused when two of the planned rows that
      exist share a key, or one moves onto an existing key, it leaves the view alone; otherwise,
      unless a constraint refuses it, every one of them ends with its image, and every row that
      none of them reads or writes stays. */
  lemma UpdateReachesItsRows(us: seq<Constraint>, base: Table, delta: Delta, plan: Table -> seq<seq<Assign>>)
    requires Guarded(us, base, delta)
    ensures var view, rows := View(base, delta), Flatten(plan(View(base, delta)));
            var after := View(base, ScenarioStep(us, base, delta, Update(plan)));
            var refused :=
              || (exists i, j :: 0 <= i < j < |rows| && rows[i].at in view && rows[j].at in view
                                 && {rows[i].at, rows[i].image.key} * {rows[j].at, rows[j].image.key} != {})
              || (exists i :: 0 <= i < |rows| && rows[i].at in view && rows[i].image.key != rows[i].at
                              && rows[i].image.key in view);
            && (refused ==> after == view)
            && (!refused ==>
                  (us != [] && after == view)
                  || ((forall a :: a in rows && a.at in view ==>
                         a.image.key in after && after[a.image.key] == a.image
                         && (a.image.key != a.at ==> a.at !in after))
                      && forall k ::
                           k in view && (forall a :: a in rows && a.at in view ==> k != a.at && k != a.image.key)
                           ==> k in after && after[k] == view[k]))
  {
    UpdateStepRefines(us, base, delta, Update(plan));
    var view, rows := View(base, delta), Flatten(plan(View(base, delta)));
    var after := View(base, ScenarioStep(us, base, delta, Update(plan)));
    if !Collides(view, rows) && !(us != [] && after == view) {
      if us == [] { assert StaysUnique(us, view, plan(view)); }
      assert Simultaneous(view, Hits(view, rows), after);
      HitsAreThere(view, rows, after);
    }
  }

  lemma HitsAreThere(view: Table, rows: seq<Assign>, after: Table)
    requires Simultaneous(view, Hits(view, rows), after) && !Collides(view, rows)
    ensures forall a :: a in rows && a.at in view ==>
              a.image.key in after && after[a.image.key] == a.image && (a.image.key != a.at ==> a.at !in after)
    ensures forall k :: k in view && (forall a :: a in rows && a.at in view ==> k != a.at && k != a.image.key) ==>
              k in after && after[k] == view[k]
  {
    forall a | a in rows && a.at in view
      ensures a.image.key in after && after[a.image.key] == a.image && (a.image.key != a.at ==> a.at !in after)
    {
      assert a in Hits(view, rows) && a.image.key in NewKeys(Hits(view, rows)) && a.at in OldKeys(Hits(view, rows));
      forall b | b in Hits(view, rows) ensures a.image.key != a.at ==> b.image.key != a.at {
        if a.image.key != a.at && b.image.key == a.at { LandingCollides(view, rows, a, b); }
      }
    }
  }

  lemma LandingCollides(view: Table, rows: seq<Assign>, a: Assign, b: Assign)
    requires a in rows && b in rows && a.at in view && b.at in view && a.image.key != a.at && b.image.key == a.at
    ensures Collides(view, rows)
  {
    var i :| 0 <= i < |rows| && rows[i] == a;
    var j :| 0 <= j < |rows| && rows[j] == b;
    if b.at == a.at {
      assert a.at in {rows[i].at, rows[i].image.key} * {rows[j].at, rows[j].image.key};
      assert i < j || j < i;
    }
  }

  /** t is what becomes of the view when every planned row that exists is replaced at once. */
  ghost predicate Replaces(view: Table, rows: seq<Assign>, t: Table) {
    && (forall k :: k in t <==> (exists a :: a in rows && a.at in view && a.image.key == k)
                                || (k in view && forall a :: a in rows && a.at in view ==> a.at != k))
    && (forall a :: a in rows && a.at in view ==> t[a.image.key] == a.image)
    && (forall k :: k in view && k in t && (forall a :: a in rows && a.at in view ==> a.image.key != k)
          ==> t[k] == view[k])
  }

  /** Two rows of the table hold the same values under a constraint. */
  ghost predicate HoldsPair(us: seq<Constraint>, t: Table) {
    exists u, j, k :: u in us && j in t && k in t && j != k && Clash(u, t[j], t[k])
  }

  lemma KeysOfHits(view: Table, rows: seq<Assign>, k: Key)
    ensures k in NewKeys(Hits(view, rows)) <==> exists a :: a in rows && a.at in view && a.image.key == k
    ensures k in OldKeys(Hits(view, rows)) <==> exists a :: a in rows && a.at in view && a.at == k
  {
    if a :| a in rows && a.at in view && a.image.key == k { assert a in Hits(view, rows); }
    if a :| a in rows && a.at in view && a.at == k { assert a in Hits(view, rows); }
  }

  lemma ReplacedAtOnce(view: Table, rows: seq<Assign>, t: Table)
    requires Replaces(view, rows, t)
    ensures Simultaneous(view, Hits(view, rows), t)
  {
    var hits := Hits(view, rows);
    forall k ensures k in t <==> k in NewKeys(hits) || (k in view && k !in OldKeys(hits)) { KeysOfHits(view, rows, k); }
    forall k | k in view && k in t && k !in NewKeys(hits) ensures t[k] == view[k] { KeysOfHits(view, rows, k); }
  }

  lemma AtOnceReplaces(view: Table, rows: seq<Assign>, t: Table)
    requires Simultaneous(view, Hits(view, rows), t)
    ensures Replaces(view, rows, t)
  {
    var hits := Hits(view, rows);
    forall k
      ensures k in t <==> (exists a :: a in rows && a.at in view && a.image.key == k)
                          || (k in view && forall a :: a in rows && a.at in view ==> a.at != k)
    {
      KeysOfHits(view, rows, k);
    }
    forall a | a in rows && a.at in view ensures a.image.key in t && t[a.image.key] == a.image { assert a in hits; }
    forall k | k in view && k in t && (forall a :: a in rows && a.at in view ==> a.image.key != k)
      ensures t[k] == view[k]
    {
      KeysOfHits(view, rows, k);
    }
  }

  lemma ReplacesIsSimultaneous(view: Table, rows: seq<Assign>, t: Table)
    ensures Replaces(view, rows, t) <==> Simultaneous(view, Hits(view, rows), t)
  {
    if Replaces(view, rows, t) { ReplacedAtOnce(view, rows, t); }
    if Simultaneous(view, Hits(view, rows), t) { AtOnceReplaces(view, rows, t); }
  }

  /** Under constraints that no tombstone can trip, an UPDATE that no key refuses is applied
      exactly when no beginning of its chunks leaves two rows with the same values. */
  lemma UpdateIsAppliedIff(us: seq<Constraint>, base: Table, delta: Delta, plan: Table -> seq<seq<Assign>>)
    requires Guarded(us, base, delta) && SeePayload(us)
    ensures var view, chunks := View(base, delta), plan(View(base, delta));
            var after := View(base, ScenarioStep(us, base, delta, Update(plan)));
            if Collides(view, Flatten(chunks)) then after == view
            else if exists i, mid :: 0 <= i <= |chunks| && Replaces(view, Flatten(chunks[..i]), mid)
                                     && HoldsPair(us, mid) then after == view
            else Replaces(view, Flatten(chunks), after)
  {
    UpdateStepRefines(us, base, delta, Update(plan));
    var view, chunks := View(base, delta), plan(View(base, delta));
    PairsOnTheWay(us, view, chunks);
    ReplacesIsSimultaneous(view, Flatten(chunks), View(base, ScenarioStep(us, base, delta, Update(plan))));
  }

  lemma PairsOnTheWay(us: seq<Constraint>, view: Table, chunks: seq<seq<Assign>>)
    ensures StaysUnique(us, view, chunks) <==>
            !exists i, mid :: 0 <= i <= |chunks| && Replaces(view, Flatten(chunks[..i]), mid) && HoldsPair(us, mid)
  {
    forall i, mid | 0 <= i <= |chunks|
      ensures Replaces(view, Flatten(chunks[..i]), mid) <==> Simultaneous(view, Hits(view, Flatten(chunks[..i])), mid)
    {
      ReplacesIsSimultaneous(view, Flatten(chunks[..i]), mid);
    }
    forall mid ensures HoldsPair(us, mid) <==> !UniqueUnder(us, mid) { PairIsNotUnique(us, mid); }
  }

  lemma PairIsNotUnique(us: seq<Constraint>, t: Table)
    ensures HoldsPair(us, t) <==> !UniqueUnder(us, t)
  {
    if !UniqueUnder(us, t) {
      var u :| u in us && !UniqueTable(u, t);
      var j, k :| j in t && k in t && j != k && Clash(u, t[j], t[k]);
    }
    if u, j, k :| u in us && j in t && k in t && j != k && Clash(u, t[j], t[k]) { assert !UniqueTable(u, t); }
  }

  /** An INSERT that no key refuses is applied exactly when what it would leave holds no two rows
      with the same values. */
  lemma InsertIsAppliedIff(us: seq<Constraint>, base: Table, delta: Delta, plan: Table -> seq<seq<Row>>)
      returns (wanted: Table)
    requires Guarded(us, base, delta) && SeePayload(us)
    requires Insertable(View(base, delta), Flatten(plan(View(base, delta))))
    ensures var view, rows := View(base, delta), Flatten(plan(View(base, delta)));
            && (forall k :: k in wanted <==> k in view || exists r :: r in rows && r.key == k)
            && (forall r :: r in rows ==> wanted[r.key] == r) && (forall k :: k in view ==> wanted[k] == view[k])
            && View(base, ScenarioStep(us, base, delta, Insert(plan))) ==
               if HoldsPair(us, wanted) then view else wanted
  {
    InsertStepRefines(us, base, delta, Insert(plan));
    var view, rows := View(base, delta), Flatten(plan(View(base, delta)));
    wanted := WithRows(view, rows);
    RowsAreThere(view, rows);
    PairIsNotUnique(us, wanted);
  }

  /** An INSERT brings every row it was planned with, or is refused: for a key of the view, a
      repeated key, or a constraint. */
  lemma InsertReachesItsRows(us: seq<Constraint>, base: Table, delta: Delta, plan: Table -> seq<seq<Row>>)
    requires Guarded(us, base, delta)
    ensures var view, rows := View(base, delta), Flatten(plan(View(base, delta)));
            var after := View(base, ScenarioStep(us, base, delta, Insert(plan)));
            var refused := (exists i :: 0 <= i < |rows| && rows[i].key in view)
                           || (exists i, j :: 0 <= i < j < |rows| && rows[i].key == rows[j].key);
            && (refused ==> after == view)
            && (!refused ==> (us != [] && after == view)
                             || ((forall r :: r in rows ==> r.key in after && after[r.key] == r)
                                 && (forall k :: k in view ==> k in after && after[k] == view[k])
                                 && (forall k :: k in after ==> k in view || exists r :: r in rows && r.key == k)))
  {
    InsertStepRefines(us, base, delta, Insert(plan));
    var view, rows := View(base, delta), Flatten(plan(View(base, delta)));
    var after := View(base, ScenarioStep(us, base, delta, Insert(plan)));
    if Insertable(view, rows) && !(us != [] && after == view) {
      InsertAddsRows(base, delta, rows);
      assert after == WithRows(view, rows);
      RowsAreThere(view, rows);
    }
  }

  lemma RowsAreThere(view: Table, rows: seq<Row>)
    requires Insertable(view, rows)
    ensures forall r :: r in rows ==> r.key in WithRows(view, rows) && WithRows(view, rows)[r.key] == r
    ensures forall k :: k in view ==> k in WithRows(view, rows) && WithRows(view, rows)[k] == view[k]
    ensures forall k :: k in WithRows(view, rows) ==> k in view || exists r :: r in rows && r.key == k
  {
    forall r | r in rows ensures r.key in WithRows(view, rows) && WithRows(view, rows)[r.key] == r {
      var i :| 0 <= i < |rows| && rows[i] == r;
      WithRowsHit(view, rows, i);
    }
    forall k | k in view ensures k in WithRows(view, rows) && WithRows(view, rows)[k] == view[k] {
      forall r | r in rows ensures r.key != k {
        var i :| 0 <= i < |rows| && rows[i] == r;
      }
      WithRowsMiss(view, rows, k);
    }
    forall k | k in WithRows(view, rows) ensures k in view || exists r :: r in rows && r.key == k {
      if !exists r :: r in rows && r.key == k { WithRowsMiss(view, rows, k); }
    }
  }

  /** A DELETE reaches every key it was planned with. */
  lemma DeleteReachesItsKeys(us: seq<Constraint>, base: Table, delta: Delta, plan: Table -> seq<seq<Key>>, k: Key)
    requires Guarded(us, base, delta)
    ensures var view, after := View(base, delta), View(base, ScenarioStep(us, base, delta, Delete(plan)));
            if k in Flatten(plan(view)) then k !in after
            else (k in after <==> k in view) && (k in view ==> after[k] == view[k])
  {
    DeleteStepRefines(us, base, delta, Delete(plan));
  }

  lemma PlainStepIsDeterministic(us: seq<Constraint>, t: Table, s: Statement, a: Table, b: Table)
    requires PlainStep(us, t, s, a) && PlainStep(us, t, s, b)
    ensures a == b
  {
    if s.Update? {
      var rows := Flatten(s.assigns(t));
      if !Collides(t, rows) && StaysUnique(us, t, s.assigns(t)) { SimultaneousIsUnique(t, Hits(t, rows), a, b); }
    }
  }

  lemma {:induction false} RunKeepsGuarded(us: seq<Constraint>, w: World, run: seq<Event>)
    requires Guarded(us, w.base, w.delta) && HostFits(us, w, run)
    ensures var after := ScenarioRun(us, w, run); Guarded(us, after.base, after.delta)
  {
    if run != [] {
      var n := |run| - 1;
      HostFitsPrefix(us, w, run, n);
      RunKeepsGuarded(us, w, run[..n]);
      var before := ScenarioRun(us, w, run[..n]);
      if run[n].Do? { StepRefines(us, before.base, before.delta, run[n].s); }
    }
  }

  /** Over every run of statements, with the host changing the base in between, the invariants
      hold and the view is the plain table that went through the same statements and changes. */
  lemma {:induction false} RunsRefinePlainTable(us: seq<Constraint>, w: World, run: seq<Event>, tables: seq<Table>)
    requires Guarded(us, w.base, w.delta) && HostFits(us, w, run) && SeePayload(us) && PlainHistory(us, w, tables, run)
    ensures var after := ScenarioRun(us, w, run);
            Guarded(us, after.base, after.delta) && View(after.base, after.delta) == tables[|run|]
  {
    RunKeepsGuarded(us, w, run);
    if run != [] {
      var n := |run| - 1;
      HostFitsPrefix(us, w, run, n);
      HistoryPrefix(us, w, tables, run);
      RunsRefinePlainTable(us, w, run[..n], tables[..n + 1]);
      RunKeepsGuarded(us, w, run[..n]);
      EventRefines(us, ScenarioRun(us, w, run[..n]), run[n], tables[n + 1]);
    }
  }

  lemma EventRefines(us: seq<Constraint>, w: World, e: Event, after: Table)
    requires Guarded(us, w.base, w.delta) && SeePayload(us)
             && PlainEvent(us, w.delta.Keys, View(w.base, w.delta), e, after)
    ensures View(Step(us, w, e).base, Step(us, w, e).delta) == after
  {
    match e
    case Do(s) =>
      StepRefines(us, w.base, w.delta, s);
      PlainStepIsDeterministic(us, View(w.base, w.delta), s, after, View(w.base, ScenarioStep(us, w.base, w.delta, s)));
    case HostChange(base) => HostChangeShows(w.base, base, w.delta);
  }

  // ----- runs on the stored table -----

  /** Each statement in its own transaction: it works on a version of the delta table, which is
      published when it succeeds and dropped when it is refused. */
  method CommitInsert(table: DeltaTable, base: Table, indexed: bool, chunks: seq<seq<Row>>) returns (next: DeltaTable)
    requires table.Valid() && Guarded(table.us, base, table.Delta())
    ensures next.Valid() && next.us == table.us
    ensures next.Delta() == if InsertsClear(table.us, base, table.Delta(), Flatten(chunks))
                            then InsertRows(base.Keys, table.Delta(), Flatten(chunks)).value else table.Delta()
  {
    var work := Copy(table);
    InsertAddsRows(base, table.Delta(), Flatten(chunks));
    var o, affected := ExecuteInsert(work, base, indexed, chunks);
    next := if o == Applied then work else table;
  }

  method CommitUpdate(table: DeltaTable, base: Table, indexed: bool, inputs: seq<seq<UpdateInput>>)
      returns (next: DeltaTable)
    requires table.Valid() && Guarded(table.us, base, table.Delta())
    requires forall r :: r in Flatten(inputs) ==> Reads(base, table.Delta(), r.fromDelta, r.assign.at)
    ensures next.Valid() && next.us == table.us
    ensures var q := Folded(base, table.Delta(), Assigns(Flatten(inputs)));
            next.Delta() == if q.Some? && StaysClear(table.us, base, table.Delta(), inputs, |inputs|) then q.value
                else table.Delta()
  {
    var work := Copy(table);
    RowsAreInView(base, table.Delta(), Flatten(inputs));
    UpdateIsSimultaneous(base, table.Delta(), Assigns(Flatten(inputs)));
    var o, affected := ExecuteUpdate(work, base, indexed, true, inputs);
    next := if o == Applied then work else table;
  }

  method ExecuteStatement(table: DeltaTable, base: Table, indexed: bool, s: Statement) returns (next: DeltaTable)
    requires table.Valid() && Guarded(table.us, base, table.Delta())
    ensures next.Valid() && next.us == table.us && next.Delta() == ScenarioStep(table.us, base, table.Delta(), s)
  {
    var delta := Stored(table.rows, table.index);
    var view := View(base, delta);
    match s {
      case Insert(plan) =>
        next := CommitInsert(table, base, indexed, plan(view));
      case Update(plan) =>
        InputsAreMatched(base, delta, plan(view));
        next := CommitUpdate(table, base, indexed, UpdateInputs(base, delta, plan(view)));
      case Delete(plan) =>
        DeleteInputsAreMatched(base, delta, plan(view));
        next := Copy(table);
        var affected := ExecuteDelete(next, base, indexed, true, DeleteInputs(base, delta, plan(view)));
    }
  }

  /** A run of statements on the stored delta table, the host changing the base in between:
      whatever is refused or accepted on the way, it ends with the delta of the abstract run, so
      with the view of the plain table. */
  method ExecuteRun(table: DeltaTable, base: Table, indexed: bool, run: seq<Event>, ghost tables: seq<Table>)
    returns (last: DeltaTable, live: Table)
    requires table.Valid() && Guarded(table.us, base, table.Delta())
             && HostFits(table.us, World(base, table.Delta()), run)
    ensures last.Valid() && last.us == table.us && World(live, last.Delta())
            == ScenarioRun(table.us, World(base, table.Delta()), run)
    ensures Guarded(table.us, live, last.Delta())
    ensures SeePayload(table.us) && PlainHistory(table.us, World(base, table.Delta()), tables, run) ==>
              View(live, last.Delta()) == tables[|run|]
  {
    ghost var us, w := table.us, World(base, table.Delta());
    last, live := table, base;
    RunKeepsGuarded(us, w, run);
    RunShowsPlainTable(us, w, run, tables);
    for i := 0 to |run|
      invariant last.Valid() && last.us == us && World(live, last.Delta()) == ScenarioRun(us, w, run[..i])
    {
      RunOneMore(us, w, run, i);
      match run[i] {
        case Do(s) => last := ExecuteStatement(last, live, indexed, s);
        case HostChange(other) => live := other;
      }
    }
    assert run[..|run|] == run;
  }

  lemma RunOneMore(us: seq<Constraint>, w: World, run: seq<Event>, i: nat)
    requires Guarded(us, w.base, w.delta) && HostFits(us, w, run) && i < |run|
    ensures var before := ScenarioRun(us, w, run[..i]);
            Guarded(us, before.base, before.delta) && ScenarioRun(us, w, run[..i + 1]) == Step(us, before, run[i])
  {
    assert run[..i + 1][..i] == run[..i];
    HostFitsPrefix(us, w, run, i);
    RunKeepsGuarded(us, w, run[..i]);
  }

  lemma RunShowsPlainTable(us: seq<Constraint>, w: World, run: seq<Event>, tables: seq<Table>)
    requires Guarded(us, w.base, w.delta) && HostFits(us, w, run)
    ensures SeePayload(us) && PlainHistory(us, w, tables, run) ==>
              View(ScenarioRun(us, w, run).base, ScenarioRun(us, w, run).delta) == tables[|run|]
  {
    if SeePayload(us) && PlainHistory(us, w, tables, run) { RunsRefinePlainTable(us, w, run, tables); }
  }
}
