/** UPDATE, DELETE and INSERT on a keyless scenario table.  A join may hand a sink the same
    copy several times; the row number tells that apart from several equal copies. */
module BagDml {
  import opened Values
  import opened BagDelta
  import opened BagUnique
  import opened TouchedRows
  import opened Sequences

  /** A row a sink receives: the scan's row number, the copy's value, and for an UPDATE the
      new image. */
  datatype BagInput<T> = BagInput(rowno: Option<int>, value: T, image: T)

  /** Every row refers to a row the statement's scan numbered. */
  ghost predicate FromScan<T>(scan: seq<T>, rows: seq<BagInput<T>>) {
    && Numbered(rows)
    && forall i :: 0 <= i < |rows| ==> rows[i].rowno.value < |scan| && rows[i].value == scan[rows[i].rowno.value]
  }

  predicate HasRowno<T>(r: BagInput<T>) {
    r.rowno.Some? && r.rowno.value >= 0
  }

  predicate Numbered<T>(rows: seq<BagInput<T>>) {
    forall i :: 0 <= i < |rows| ==> HasRowno(rows[i])
  }

  function Rownos<T>(rows: seq<BagInput<T>>): set<nat>
    requires Numbered(rows)
  {
    if rows == [] then {} else Rownos(rows[..|rows| - 1]) + {rows[|rows| - 1].rowno.value}
  }

  function Images<T>(rows: seq<BagInput<T>>): multiset<T> {
    if rows == [] then multiset{} else Images(rows[..|rows| - 1]) + multiset{rows[|rows| - 1].image}
  }

  /** The copies of a scan with the given row numbers. */
  function Pick<T>(scan: seq<T>, rownos: set<nat>): multiset<T> {
    if scan == [] then multiset{}
    else
      var n := |scan| - 1;
      Pick(scan[..n], rownos) + if n in rownos then multiset{scan[n]} else multiset{}
  }

  /** The rows that touch their copy first, in order: what a DELETE applies. */
  function FirstTouches<T(==)>(log: seq<BagInput<T>>, rows: seq<BagInput<T>>): (r: seq<BagInput<T>>)
    requires Numbered(log) && Numbered(rows)
    ensures Numbered(r)
    ensures Distinct(log) ==> Distinct(r)
    ensures Rownos(r) == Rownos(log) + Rownos(rows)
  {
    if rows == [] then log
    else
      var n := |rows| - 1;
      var init := FirstTouches(log, rows[..n]);
      if rows[n].rowno.value in Rownos(init) then init
      else
        assert (init + [rows[n]])[..|init|] == init;
        init + [rows[n]]
  }

  predicate Distinct<T>(rows: seq<BagInput<T>>)
    requires Numbered(rows)
  {
    rows == [] || (Distinct(rows[..|rows| - 1]) && rows[|rows| - 1].rowno.value !in Rownos(rows[..|rows| - 1]))
  }

  lemma RownosStep<T>(rows: seq<BagInput<T>>, r: BagInput<T>)
    requires Numbered(rows) && HasRowno(r)
    ensures Rownos(rows + [r]) == Rownos(rows) + {r.rowno.value}
    ensures Distinct(rows + [r]) <==> Distinct(rows) && r.rowno.value !in Rownos(rows)
  {
    assert (rows + [r])[..|rows|] == rows;
  }

  lemma TouchesStep<T>(log: seq<BagInput<T>>, rows: seq<BagInput<T>>, r: BagInput<T>)
    requires Numbered(log) && Numbered(rows) && HasRowno(r)
    ensures var init := FirstTouches(log, rows);
            FirstTouches(log, rows + [r]) == if r.rowno.value in Rownos(init) then init else init + [r]
  {
    assert (rows + [r])[..|rows|] == rows;
  }

  /** Chunk boundaries do not matter. */
  lemma {:induction false} TouchesConcat<T>(log: seq<BagInput<T>>, a: seq<BagInput<T>>, b: seq<BagInput<T>>)
    requires Numbered(log) && Numbered(a) && Numbered(b) && Numbered(a + b)
    ensures FirstTouches(log, a + b) == FirstTouches(FirstTouches(log, a), b)
  {
    if b == [] {
      assert a + b == a;
    } else {
      var n := |b| - 1;
      TouchesConcat(log, a, b[..n]);
      assert a + b == (a + b[..n]) + [b[n]] && b == b[..n] + [b[n]];
      TouchesStep(log, a + b[..n], b[n]);
      TouchesStep(FirstTouches(log, a), b[..n], b[n]);
    }
  }

  /** Distinct rows all survive, and only they do. */
  lemma {:induction false} TouchesDistinct<T>(rows: seq<BagInput<T>>)
    requires Numbered(rows)
    ensures Distinct(rows) <==> FirstTouches([], rows) == rows
    ensures |FirstTouches([], rows)| <= |rows|
  {
    if rows != [] {
      var n := |rows| - 1;
      TouchesDistinct(rows[..n]);
      assert Rownos<T>([]) + Rownos(rows[..n]) == Rownos(rows[..n]);
      assert rows == rows[..n] + [rows[n]];
      if !Distinct(rows[..n]) && rows[n].rowno.value !in Rownos(rows[..n]) {
        assert (FirstTouches([], rows[..n]) + [rows[n]])[..|FirstTouches([], rows[..n])|]
               == FirstTouches([], rows[..n]);
      }
    }
  }

  lemma {:induction false} DistinctSize<T>(rows: seq<BagInput<T>>)
    requires Numbered(rows) && Distinct(rows)
    ensures |rows| == |Rownos(rows)|
  {
    if rows != [] { DistinctSize(rows[..|rows| - 1]); }
  }

  lemma {:induction false} DistinctPrefix<T>(rows: seq<BagInput<T>>, i: nat)
    requires i <= |rows| && Numbered(rows) && Distinct(rows)
    ensures Distinct(rows[..i])
    decreases |rows|
  {
    if i == |rows| {
      assert rows[..i] == rows;
    } else {
      DistinctPrefix(rows[..|rows| - 1], i);
      assert rows[..|rows| - 1][..i] == rows[..i];
    }
  }

  lemma {:induction false} TouchesFromScan<T>(scan: seq<T>, rows: seq<BagInput<T>>)
    requires FromScan(scan, rows)
    ensures FromScan(scan, FirstTouches([], rows))
  {
    if rows != [] { TouchesFromScan(scan, rows[..|rows| - 1]); }
  }

  /** The delta rows a DELETE appends for its log. */
  function Deletes<T>(log: seq<BagInput<T>>): seq<BagRow<T>> {
    if log == [] then [] else Deletes(log[..|log| - 1]) + [BagRow(Del, log[|log| - 1].value, 1)]
  }

  /** The delta rows an UPDATE appends: the old row out, the new image in, one copy each. */
  function Replaces<T>(log: seq<BagInput<T>>): seq<BagRow<T>> {
    if log == [] then []
    else
      var r := log[|log| - 1];
      Replaces(log[..|log| - 1]) + [BagRow(Del, r.value, 1), BagRow(Ins, r.image, 1)]
  }

  lemma LogStep<T>(start: seq<BagRow<T>>, log: seq<BagInput<T>>, r: BagInput<T>)
    ensures start + Deletes(log + [r]) == start + Deletes(log) + [BagRow(Del, r.value, 1)]
    ensures start + Replaces(log + [r]) == start + Replaces(log) + [BagRow(Del, r.value, 1), BagRow(Ins, r.image, 1)]
  {
    assert (log + [r])[..|log|] == log;
  }

  lemma AppendRow<T>(delta: seq<BagRow<T>>, r: BagRow<T>)
    ensures Deleted(delta + [r]) == Deleted(delta) + if r.op == Del then Copies(r.value, r.count) else multiset{}
    ensures Inserted(delta + [r]) == Inserted(delta) + if r.op == Ins then Copies(r.value, r.count) else multiset{}
  {
    assert (delta + [r])[..|delta|] == delta;
  }

  lemma OneCopy<T>(v: T)
    ensures Copies(v, 1) == multiset{v}
  {
  }

  lemma AddSwap<T>(a: multiset<T>, b: multiset<T>, c: multiset<T>)
    ensures (a + b) + c == (a + c) + b
  {
  }

  lemma {:induction false} PickIsPart<T>(scan: seq<T>, rownos: set<nat>)
    ensures Pick(scan, rownos) <= multiset(scan)
  {
    if scan != [] {
      var n := |scan| - 1;
      PickIsPart(scan[..n], rownos);
      assert scan == scan[..n] + [scan[n]];
    }
  }

  lemma {:induction false} PickSame<T>(scan: seq<T>, a: set<nat>, b: set<nat>)
    requires forall i :: 0 <= i < |scan| ==> (i in a <==> i in b)
    ensures Pick(scan, a) == Pick(scan, b)
  {
    if scan != [] { PickSame(scan[..|scan| - 1], a, b); }
  }

  lemma {:induction false} PickOneMore<T>(scan: seq<T>, rownos: set<nat>, i: nat)
    requires i !in rownos && i < |scan|
    ensures Pick(scan, rownos + {i}) == Pick(scan, rownos) + multiset{scan[i]}
  {
    var n := |scan| - 1;
    if i == n {
      PickSame(scan[..n], rownos + {i}, rownos);
    } else {
      PickOneMore(scan[..n], rownos, i);
      AddSwap(Pick(scan[..n], rownos), multiset{scan[i]}, if n in rownos then multiset{scan[n]} else multiset{});
    }
  }

  lemma {:induction false} PickNothing<T>(scan: seq<T>)
    ensures Pick(scan, {}) == multiset{}
  {
    if scan != [] { PickNothing(scan[..|scan| - 1]); }
  }

  /** A DELETE's rows take exactly the picked copies out. */
  lemma {:induction false} DeletesPick<T>(scan: seq<T>, log: seq<BagInput<T>>)
    requires FromScan(scan, log) && Distinct(log)
    ensures Deleted(Deletes(log)) == Pick(scan, Rownos(log)) && Inserted(Deletes(log)) == multiset{}
  {
    if log == [] {
      PickNothing(scan);
    } else {
      var n := |log| - 1;
      DeletesPick(scan, log[..n]);
      PickOneMore(scan, Rownos(log[..n]), log[n].rowno.value);
      AppendRow(Deletes(log[..n]), BagRow(Del, log[n].value, 1));
      OneCopy(log[n].value);
    }
  }

  lemma AppendPair<T>(delta: seq<BagRow<T>>, v: T, w: T)
    ensures Deleted(delta + [BagRow(Del, v, 1), BagRow(Ins, w, 1)]) == Deleted(delta) + multiset{v}
    ensures Inserted(delta + [BagRow(Del, v, 1), BagRow(Ins, w, 1)]) == Inserted(delta) + multiset{w}
  {
    var mid := delta + [BagRow(Del, v, 1)];
    AppendRow(delta, BagRow(Del, v, 1));
    AppendRow(mid, BagRow(Ins, w, 1));
    assert delta + [BagRow(Del, v, 1), BagRow(Ins, w, 1)] == mid + [BagRow(Ins, w, 1)];
    OneCopy(v);
    OneCopy(w);
  }

  /** An UPDATE's rows take exactly the picked copies out and put the images in. */
  lemma {:induction false} ReplacesPick<T>(scan: seq<T>, log: seq<BagInput<T>>)
    requires FromScan(scan, log) && Distinct(log)
    ensures Deleted(Replaces(log)) == Pick(scan, Rownos(log)) && Inserted(Replaces(log)) == Images(log)
  {
    if log == [] {
      PickNothing(scan);
    } else {
      var n := |log| - 1;
      ReplacesPick(scan, log[..n]);
      PickOneMore(scan, Rownos(log[..n]), log[n].rowno.value);
      AppendPair(Replaces(log[..n]), log[n].value, log[n].image);
    }
  }

  /** Taking existing copies out and putting others in, on the merged bag. */
  lemma ViewAfter<T(!new)>(base: multiset<T>, start: seq<BagRow<T>>, more: seq<BagRow<T>>, scan: seq<T>,
                           picked: set<nat>, news: multiset<T>)
    requires BagInv(base, start) && multiset(scan) <= BagView(base, start)
    requires Deleted(more) == Pick(scan, picked) && Inserted(more) == news
    ensures BagInv(base, start + more)
    ensures BagView(base, start + more) == BagView(base, start) - Pick(scan, picked) + news
  {
    DeltaConcat(start, more);
    PickIsPart(scan, picked);
  }

  // ----- one chunk of an UPDATE on the merged bag -----

  function OldValues<T>(rows: seq<BagInput<T>>): (r: seq<T>)
    ensures |r| == |rows|
  {
    seq(|rows|, i requires 0 <= i < |rows| => rows[i].value)
  }

  function NewImages<T>(rows: seq<BagInput<T>>): (r: seq<T>)
    ensures |r| == |rows|
  {
    seq(|rows|, i requires 0 <= i < |rows| => rows[i].image)
  }

  lemma {:induction false} ReplacesConcat<T>(a: seq<BagInput<T>>, b: seq<BagInput<T>>)
    ensures Replaces(a + b) == Replaces(a) + Replaces(b)
  {
    if b == [] {
      assert a + b == a && Replaces(a) + [] == Replaces(a);
    } else {
      var n := |b| - 1;
      ReplacesConcat(a, b[..n]);
      assert (a + b)[..|a + b| - 1] == a + b[..n];
    }
  }

  lemma LastOne<T>(s: seq<T>)
    requires s != []
    ensures multiset(s) == multiset(s[..|s| - 1]) + multiset{s[|s| - 1]}
  {
    assert s == s[..|s| - 1] + [s[|s| - 1]];
  }

  lemma LastInput<T>(rows: seq<BagInput<T>>)
    requires rows != []
    ensures var n := |rows| - 1;
            && multiset(OldValues(rows)) == multiset(OldValues(rows[..n])) + multiset{rows[n].value}
            && multiset(NewImages(rows)) == multiset(NewImages(rows[..n])) + multiset{rows[n].image}
  {
    var n := |rows| - 1;
    LastOne(OldValues(rows));
    LastOne(NewImages(rows));
    assert OldValues(rows)[..n] == OldValues(rows[..n]) && NewImages(rows)[..n] == NewImages(rows[..n]);
  }

  lemma {:induction false} ReplacesAre<T>(rows: seq<BagInput<T>>)
    ensures Deleted(Replaces(rows)) == multiset(OldValues(rows))
            && Inserted(Replaces(rows)) == multiset(NewImages(rows))
  {
    if rows != [] {
      var n := |rows| - 1;
      ReplacesAre(rows[..n]);
      AppendPair(Replaces(rows[..n]), rows[n].value, rows[n].image);
      LastInput(rows);
    }
  }

  lemma BeginningFromScan<T>(scan: seq<T>, log: seq<BagInput<T>>, rows: seq<BagInput<T>>)
    requires FromScan(scan, log + rows) && Distinct(log + rows)
    ensures FromScan(scan, log) && Distinct(log)
  {
    assert (log + rows)[..|log|] == log;
    forall i | 0 <= i < |log|
      ensures HasRowno(log[i]) && log[i].rowno.value < |scan| && log[i].value == scan[log[i].rowno.value]
    {
      assert (log + rows)[i] == log[i];
    }
    DistinctPrefix(log + rows, |log|);
  }

  lemma PartOfRest<T>(view: multiset<T>, gone: multiset<T>, part: multiset<T>, news: multiset<T>)
    requires gone + part <= view
    ensures part <= view - gone + news
  {
  }

  /** The merged bag once the UPDATE has applied the rows of log. */
  function Updated(base: multiset<Tuple>, start: seq<BagRow<Tuple>>, log: seq<BagInput<Tuple>>): multiset<Tuple> {
    BagView(base, start + Replaces(log))
  }

  lemma OldValuesRemain(base: multiset<Tuple>, start: seq<BagRow<Tuple>>, scan: seq<Tuple>, log: seq<BagInput<Tuple>>,
                        rows: seq<BagInput<Tuple>>)
    requires BagInv(base, start) && multiset(scan) <= BagView(base, start)
    requires FromScan(scan, log + rows) && Distinct(log + rows)
    ensures BagInv(base, start + Replaces(log)) && multiset(OldValues(rows)) <= Updated(base, start, log)
  {
    BeginningFromScan(scan, log, rows);
    ReplacesPick(scan, log);
    ViewAfter(base, start, Replaces(log), scan, Rownos(log), Images(log));
    ReplacesPick(scan, log + rows);
    ReplacesConcat(log, rows);
    ReplacesAre(rows);
    DeltaConcat(Replaces(log), Replaces(rows));
    PickIsPart(scan, Rownos(log + rows));
    PartOfRest(BagView(base, start), Pick(scan, Rownos(log)), multiset(OldValues(rows)), Images(log));
  }

  lemma Regroup<T>(a: seq<T>, b: seq<T>, c: seq<T>)
    ensures (a + b) + c == a + (b + c)
  {
  }

  /** What the probe of one chunk judges is the merged bag after the chunk. */
  lemma ChunkIsJudged(base: multiset<Tuple>, start: seq<BagRow<Tuple>>, log: seq<BagInput<Tuple>>,
                      rows: seq<BagInput<Tuple>>)
    requires BagInv(base, start + Replaces(log)) && multiset(OldValues(rows)) <= Updated(base, start, log)
    ensures After(base, start + Replaces(log), OldValues(rows), NewImages(rows)) == Updated(base, start, log + rows)
  {
    var flushed, written := start + Replaces(log), Replaces(rows);
    ReplacesAre(rows);
    AfterIsTheView(base, flushed, written, OldValues(rows), NewImages(rows));
    ReplacesConcat(log, rows);
    Regroup(start, Replaces(log), written);
  }

  class BagSink {
    var delta: seq<BagRow<Tuple>>
    const touched: TouchedRows
    const track: bool
    /** The unique indexes of the base. */
    const indexes: seq<Index>
    var affected: nat
    /** The delta at statement start and the rows applied so far. */
    ghost const start: seq<BagRow<Tuple>>
    ghost var log: seq<BagInput<Tuple>>

    /** The marks are the applied rows, each marked as this kind of statement marks it. */
    ghost predicate Marked(isDelete: bool)
      requires Numbered(log) && touched.Valid()
      reads this, touched
    {
      track ==> touched.Rownos() == map n | n in Rownos(log) :: isDelete
    }

    ghost predicate Valid(isDelete: bool)
      reads this, touched
    {
      && touched.Valid() && Numbered(log) && affected == |log|
      && delta == start + (if isDelete then Deletes(log) else Replaces(log))
      && Marked(isDelete)
    }

    constructor (delta: seq<BagRow<Tuple>>, track: bool, indexes: seq<Index>)
      ensures Valid(true) && Valid(false) && fresh(touched)
      ensures start == delta && this.track == track && this.indexes == indexes && log == []
    {
      this.delta, this.track, this.indexes, affected := delta, track, indexes, 0;
      touched := new TouchedRows();
      start, log := delta, [];
      new;
      assert start + [] == start;
    }

    method DeleteOne(r: BagInput<Tuple>)
      requires Valid(true) && HasRowno(r) && (!track ==> r.rowno.value !in Rownos(log))
      modifies this`delta, this`affected, this`log, touched`rownoTouched, touched`rownoDeleted
      ensures Valid(true)
      ensures log == if r.rowno.value in Rownos(old(log)) then old(log) else old(log) + [r]
    {
      if track {
        var t := touched.TouchRowno(r.rowno, true);
        if t == Repeated { return; }
      }
      LogStep(start, log, r);
      RownosStep(log, r);
      delta := delta + [BagRow(Del, r.value, 1)];
      log := log + [r];
      affected := affected + 1;
    }

    /** One row of an UPDATE: D(old), I(new), one copy each; a repeated copy throws. */
    method UpdateOne(r: BagInput<Tuple>) returns (ok: bool)
      requires Valid(false) && HasRowno(r) && (!track ==> r.rowno.value !in Rownos(log))
      modifies this`delta, this`affected, this`log, touched`rownoTouched, touched`rownoDeleted
      ensures ok <==> r.rowno.value !in Rownos(old(log))
      ensures ok ==> Valid(false) && log == old(log) + [r]
    {
      if track {
        var t := touched.TouchRowno(r.rowno, false);
        if t != First { return false; }
      }
      LogStep(start, log, r);
      RownosStep(log, r);
      delta := delta + [BagRow(Del, r.value, 1), BagRow(Ins, r.image, 1)];
      log := log + [r];
      affected := affected + 1;
      return true;
    }

    /** One chunk of a DELETE: the rows that touch their copy first. */
    method DeleteChunk(rows: seq<BagInput<Tuple>>)
      requires Valid(true) && Numbered(rows)
      requires !track ==> Numbered(log + rows) && Distinct(log + rows)
      modifies this`delta, this`affected, this`log, touched`rownoTouched, touched`rownoDeleted
      ensures Valid(true) && log == FirstTouches(old(log), rows)
    {
      ghost var before := log;
      for i := 0 to |rows|
        invariant Valid(true) && log == FirstTouches(before, rows[..i])
        invariant !track ==> log == before + rows[..i]
      {
        NextTouch(before, rows, i, track);
        DeleteOne(rows[i]);
      }
      assert rows[..|rows|] == rows;
    }

    /** The row loop of an UPDATE chunk. */
    method ApplyUpdates(rows: seq<BagInput<Tuple>>) returns (ok: bool)
      requires Valid(false) && Numbered(rows) && Distinct(log)
      requires !track ==> Numbered(log + rows) && Distinct(log + rows)
      modifies this`delta, this`affected, this`log, touched`rownoTouched, touched`rownoDeleted
      ensures Numbered(old(log) + rows) && (ok <==> Distinct(old(log) + rows))
      ensures ok ==> Valid(false) && log == old(log) + rows
    {
      ghost var before := log;
      assert before + rows[..0] == before;
      for i := 0 to |rows|
        invariant Valid(false) && log == before + rows[..i] && Distinct(log)
      {
        assert before + rows[..i + 1] == log + [rows[i]];
        assert Numbered(before + rows);
        if Distinct(before + rows) { PrefixIsNew(before, rows, i); }
        RownosStep(log, rows[i]);
        ok := UpdateOne(rows[i]);
        if !ok { return; }
      }
      assert rows[..|rows|] == rows;
      ok := true;
    }

    /** One chunk of an UPDATE: applied exactly when no copy repeats and the merged bag stays
        unique under every index. */
    method UpdateChunk(rows: seq<BagInput<Tuple>>, ghost base: multiset<Tuple>, ghost scan: seq<Tuple>)
        returns (ok: bool)
      requires Valid(false) && Distinct(log) && (!track ==> FromScan(scan, log + rows) && Distinct(log + rows))
      requires BagInv(base, start) && multiset(scan) <= BagView(base, start) && FromScan(scan, log + rows)
               && Numbered(rows)
      requires Obeys(indexes, base, delta)
      modifies this`delta, this`affected, this`log, touched`rownoTouched, touched`rownoDeleted
      ensures ok <==> Distinct(old(log) + rows) && Clear(indexes, Updated(base, start, old(log) + rows))
      ensures ok ==> Valid(false) && log == old(log) + rows && Obeys(indexes, base, delta)
    {
      ghost var before := log;
      var flushed := delta;
      ok := ApplyUpdates(rows);
      if !ok { return; }
      OldValuesRemain(base, start, scan, before, rows);
      ChunkIsJudged(base, start, before, rows);
      if indexes != [] { ok := ProbeKeyless(indexes, base, flushed, OldValues(rows), NewImages(rows)); }
    }
  }

  /** What row i does to the log, and that it touches a new copy when repeats are excluded. */
  lemma NextTouch<T>(log: seq<BagInput<T>>, rows: seq<BagInput<T>>, i: nat, track: bool)
    requires i < |rows| && Numbered(log) && Numbered(rows)
    requires !track ==> Numbered(log + rows) && Distinct(log + rows) && FirstTouches(log, rows[..i]) == log + rows[..i]
    ensures var init, r := FirstTouches(log, rows[..i]), rows[i];
            && FirstTouches(log, rows[..i + 1]) == (if r.rowno.value in Rownos(init) then init else init + [r])
            && (!track ==> r.rowno.value !in Rownos(init) && init + [r] == log + rows[..i + 1])
  {
    assert rows[..i + 1] == rows[..i] + [rows[i]];
    TouchesStep(log, rows[..i], rows[i]);
    if !track { PrefixIsNew(log, rows, i); }
  }

  lemma PrefixIsNew<T>(log: seq<BagInput<T>>, rows: seq<BagInput<T>>, i: nat)
    requires i < |rows| && Numbered(rows) && Numbered(log + rows) && Distinct(log + rows)
    ensures Numbered(log + rows[..i]) && rows[i].rowno.value !in Rownos(log + rows[..i])
  {
    DistinctPrefix(log + rows, |log| + i + 1);
    assert (log + rows)[..|log| + i + 1] == (log + rows[..i]) + [rows[i]];
    RownosStep(log + rows[..i], rows[i]);
  }

  lemma {:induction false} FlattenPrefix<T>(chunks: seq<seq<T>>, i: nat)
    requires i <= |chunks|
    ensures |Flatten(chunks[..i])| <= |Flatten(chunks)|
            && Flatten(chunks)[..|Flatten(chunks[..i])|] == Flatten(chunks[..i])
    decreases |chunks| - i
  {
    if i == |chunks| {
      assert chunks[..i] == chunks;
    } else {
      FlattenPrefix(chunks, i + 1);
      FlattenStep(chunks, i);
    }
  }

  lemma NumberedConcat<T>(a: seq<BagInput<T>>, b: seq<BagInput<T>>)
    requires Numbered(a + b)
    ensures Numbered(a) && Numbered(b)
  {
    forall k | 0 <= k < |a| ensures HasRowno(a[k]) { assert HasRowno((a + b)[k]) && (a + b)[k] == a[k]; }
    forall k | 0 <= k < |b| ensures HasRowno(b[k]) { assert HasRowno((a + b)[|a| + k]) && (a + b)[|a| + k] == b[k]; }
  }

  /** The rows up to chunk i, its own rows, and both together are numbered. */
  lemma NumberedChunk<T>(chunks: seq<seq<BagInput<T>>>, i: nat)
    requires i < |chunks| && Numbered(Flatten(chunks))
    ensures Numbered(Flatten(chunks[..i])) && Numbered(chunks[i]) && Numbered(Flatten(chunks[..i]) + chunks[i])
    ensures Flatten(chunks[..i + 1]) == Flatten(chunks[..i]) + chunks[i]
    ensures Distinct(Flatten(chunks)) ==> Distinct(Flatten(chunks[..i]) + chunks[i])
  {
    FlattenStep(chunks, i);
    FlattenPrefix(chunks, i + 1);
    var all, n := Flatten(chunks), |Flatten(chunks[..i + 1])|;
    assert all == all[..n] + all[n..];
    NumberedConcat(all[..n], all[n..]);
    NumberedConcat(Flatten(chunks[..i]), chunks[i]);
    if Distinct(all) { DistinctPrefix(all, n); }
  }

  /** The sink's part of a DELETE, chunk by chunk. */
  method RunDelete(start: seq<BagRow<Tuple>>, track: bool, chunks: seq<seq<BagInput<Tuple>>>)
    returns (delta: seq<BagRow<Tuple>>, affected: nat)
    requires Numbered(Flatten(chunks)) && (!track ==> Distinct(Flatten(chunks)))
    ensures delta == start + Deletes(FirstTouches([], Flatten(chunks)))
    ensures affected == |FirstTouches([], Flatten(chunks))|
  {
    var sink := new BagSink(start, track, []);
    for i := 0 to |chunks|
      invariant fresh(sink) && fresh(sink.touched) && sink.Valid(true) && sink.start == start && sink.track == track
      invariant Numbered(Flatten(chunks[..i])) && sink.log == FirstTouches([], Flatten(chunks[..i]))
      invariant !track ==> sink.log == Flatten(chunks[..i])
    {
      NumberedChunk(chunks, i);
      TouchesConcat([], Flatten(chunks[..i]), chunks[i]);
      sink.DeleteChunk(chunks[i]);
      if !track { TouchesDistinct(Flatten(chunks[..i + 1])); }
    }
    assert chunks[..|chunks|] == chunks;
    delta, affected := sink.delta, sink.affected;
  }

  /** DELETE, whatever the join repeats and however its rows are chunked: exactly the distinct
      matched copies leave the merged bag, each is counted once, no value is deleted more often
      than it exists, and what was unique stays so. */
  method ExecuteDelete(ghost base: multiset<Tuple>, start: seq<BagRow<Tuple>>, track: bool, ghost scan: seq<Tuple>,
                       chunks: seq<seq<BagInput<Tuple>>>, ghost indexes: seq<Index>)
    returns (delta: seq<BagRow<Tuple>>, affected: nat)
    requires BagInv(base, start) && multiset(scan) <= BagView(base, start) && Obeys(indexes, base, start)
    requires FromScan(scan, Flatten(chunks)) && (!track ==> Distinct(Flatten(chunks)))
    ensures BagInv(base, delta) && affected == |Rownos(Flatten(chunks))| && Obeys(indexes, base, delta)
    ensures BagView(base, delta) == BagView(base, start) - Pick(scan, Rownos(Flatten(chunks)))
  {
    delta, affected := RunDelete(start, track, chunks);
    DeleteIsPick(base, start, scan, Flatten(chunks));
    forall k | 0 <= k < |indexes| ensures Obeyed(indexes[k], base, delta) {
      PartIsUnique(indexes[k].columns, BagView(base, delta), BagView(base, start));
    }
  }

  lemma PartIsUnique(u: seq<nat>, small: multiset<Tuple>, big: multiset<Tuple>)
    requires small <= big && UniqueBag(u, big)
    ensures UniqueBag(u, small)
  {
    forall t | t != "" ensures TupleCount(u, small, t) <= 1 {
      CountAdd(u, small, big - small, t);
      assert big == small + (big - small);
    }
  }

  lemma DeleteIsPick<T(!new)>(base: multiset<T>, start: seq<BagRow<T>>, scan: seq<T>, rows: seq<BagInput<T>>)
    requires BagInv(base, start) && multiset(scan) <= BagView(base, start) && FromScan(scan, rows)
    ensures var delta := start + Deletes(FirstTouches([], rows));
            BagInv(base, delta) && BagView(base, delta) == BagView(base, start) - Pick(scan, Rownos(rows))
    ensures |FirstTouches([], rows)| == |Rownos(rows)|
  {
    var log := FirstTouches([], rows);
    TouchesFromScan(scan, rows);
    DistinctSize(log);
    assert Rownos(log) == Rownos(rows);
    DeletesPick(scan, log);
    ViewAfter(base, start, Deletes(log), scan, Rownos(rows), multiset{});
  }

  /** Every one of the first n chunks leaves the merged bag unique under every index. */
  ghost predicate StaysClear(indexes: seq<Index>, base: multiset<Tuple>, start: seq<BagRow<Tuple>>,
                             chunks: seq<seq<BagInput<Tuple>>>, n: nat)
    requires n <= |chunks|
  {
    forall i :: 0 <= i <= n ==> Clear(indexes, Updated(base, start, Flatten(chunks[..i])))
  }

  lemma ChunkFromScan<T>(scan: seq<T>, chunks: seq<seq<BagInput<T>>>, i: nat)
    requires i < |chunks| && FromScan(scan, Flatten(chunks))
    ensures Flatten(chunks[..i + 1]) == Flatten(chunks[..i]) + chunks[i]
            && FromScan(scan, Flatten(chunks[..i]) + chunks[i])
    ensures Numbered(chunks[i]) && Numbered(Flatten(chunks[..i]))
    ensures Distinct(Flatten(chunks)) ==> Distinct(Flatten(chunks[..i]) + chunks[i])
  {
    NumberedChunk(chunks, i);
    FlattenPrefix(chunks, i + 1);
    var all, some := Flatten(chunks), Flatten(chunks[..i]) + chunks[i];
    forall k | 0 <= k < |some| ensures some[k].rowno.value < |scan| && some[k].value == scan[some[k].rowno.value] {
      assert all[..|some|][k] == all[k];
    }
  }

  lemma NothingUpdated(base: multiset<Tuple>, start: seq<BagRow<Tuple>>, indexes: seq<Index>)
    requires Obeys(indexes, base, start)
    ensures Updated(base, start, []) == BagView(base, start) && Clear(indexes, Updated(base, start, []))
  {
    assert start + [] == start;
    forall k | 0 <= k < |indexes| ensures UniqueBag(indexes[k].columns, BagView(base, start)) {
      assert Obeyed(indexes[k], base, start);
    }
  }

  /** The first i chunks have been applied, all of them accepted. */
  ghost predicate Applied(indexes: seq<Index>, base: multiset<Tuple>, start: seq<BagRow<Tuple>>,
                          chunks: seq<seq<BagInput<Tuple>>>, i: nat,
                          log: seq<BagInput<Tuple>>)
  {
    && i <= |chunks| && log == Flatten(chunks[..i]) && Numbered(log) && Distinct(log)
    && StaysClear(indexes, base, start, chunks, i)
  }

  lemma NextChunk(indexes: seq<Index>, base: multiset<Tuple>, start: seq<BagRow<Tuple>>, scan: seq<Tuple>,
                  chunks: seq<seq<BagInput<Tuple>>>, i: nat, log: seq<BagInput<Tuple>>)
    requires i < |chunks| && FromScan(scan, Flatten(chunks)) && Applied(indexes, base, start, chunks, i, log)
    ensures FromScan(scan, log + chunks[i]) && Numbered(chunks[i])
            && (Distinct(Flatten(chunks)) ==> Distinct(log + chunks[i]))
    ensures Distinct(log + chunks[i]) && Clear(indexes, Updated(base, start, log + chunks[i])) <==>
            Applied(indexes, base, start, chunks, i + 1, log + chunks[i])
    ensures Distinct(Flatten(chunks)) && StaysClear(indexes, base, start, chunks, |chunks|) ==>
            Applied(indexes, base, start, chunks, i + 1, log + chunks[i])
  {
    ChunkFromScan(scan, chunks, i);
  }

  /** The sink's part of an UPDATE, chunk by chunk. */
  method RunUpdate(start: seq<BagRow<Tuple>>, track: bool, chunks: seq<seq<BagInput<Tuple>>>, indexes: seq<Index>,
                   ghost base: multiset<Tuple>, ghost scan: seq<Tuple>)
    returns (ok: bool, delta: seq<BagRow<Tuple>>, affected: nat)
    requires BagInv(base, start) && multiset(scan) <= BagView(base, start) && Obeys(indexes, base, start)
    requires FromScan(scan, Flatten(chunks)) && (!track ==> Distinct(Flatten(chunks)))
    ensures ok <==> Distinct(Flatten(chunks)) && StaysClear(indexes, base, start, chunks, |chunks|)
    ensures ok ==>
              delta == start + Replaces(Flatten(chunks)) && affected == |Flatten(chunks)|
              && Obeys(indexes, base, delta)
  {
    var sink := new BagSink(start, track, indexes);
    NothingUpdated(base, start, indexes);
    for i := 0 to |chunks|
      invariant fresh(sink) && fresh(sink.touched) && sink.Valid(false) && sink.start == start && sink.track == track
      invariant sink.indexes == indexes && Obeys(indexes, base, sink.delta)
      invariant Applied(indexes, base, start, chunks, i, sink.log)
    {
      NextChunk(indexes, base, start, scan, chunks, i, sink.log);
      ok := sink.UpdateChunk(chunks[i], base, scan);
      if !ok { return false, start, 0; }
    }
    assert chunks[..|chunks|] == chunks;
    return true, sink.delta, sink.affected;
  }

  /** UPDATE replaces each matched copy once, or throws: exactly when a copy is matched twice or
      some chunk leaves the merged bag with two equal tuples in an index. */
  method ExecuteUpdate(ghost base: multiset<Tuple>, start: seq<BagRow<Tuple>>, track: bool, ghost scan: seq<Tuple>,
                       chunks: seq<seq<BagInput<Tuple>>>, indexes: seq<Index>)
    returns (ok: bool, delta: seq<BagRow<Tuple>>, affected: nat)
    requires BagInv(base, start) && multiset(scan) <= BagView(base, start) && Obeys(indexes, base, start)
    requires FromScan(scan, Flatten(chunks)) && (!track ==> Distinct(Flatten(chunks)))
    ensures ok <==> Distinct(Flatten(chunks)) && StaysClear(indexes, base, start, chunks, |chunks|)
    ensures ok ==> BagInv(base, delta) && affected == |Flatten(chunks)| && Obeys(indexes, base, delta)
    ensures ok ==>
              BagView(base, delta) == BagView(base, start) - Pick(scan, Rownos(Flatten(chunks)))
              + Images(Flatten(chunks))
  {
    ok, delta, affected := RunUpdate(start, track, chunks, indexes, base, scan);
    if ok {
      ReplacesPick(scan, Flatten(chunks));
      ViewAfter(base, start, Replaces(Flatten(chunks)), scan, Rownos(Flatten(chunks)), Images(Flatten(chunks)));
    }
  }

  /** The delta rows an INSERT appends. */
  function Additions<T>(rows: seq<T>): seq<BagRow<T>> {
    if rows == [] then [] else Additions(rows[..|rows| - 1]) + [BagRow(Ins, rows[|rows| - 1], 1)]
  }

  lemma {:induction false} AdditionsAdd<T>(rows: seq<T>)
    ensures Inserted(Additions(rows)) == multiset(rows) && Deleted(Additions(rows)) == multiset{}
  {
    if rows != [] {
      var n := |rows| - 1;
      AdditionsAdd(rows[..n]);
      AppendRow(Additions(rows[..n]), BagRow(Ins, rows[n], 1));
      OneCopy(rows[n]);
      assert rows == rows[..n] + [rows[n]];
    }
  }

  lemma InsertAdds<T(!new)>(base: multiset<T>, start: seq<BagRow<T>>, rows: seq<T>)
    requires BagInv(base, start)
    ensures BagInv(base, start + Additions(rows))
    ensures BagView(base, start + Additions(rows)) == BagView(base, start) + multiset(rows)
  {
    AdditionsAdd(rows);
    DeltaConcat(start, Additions(rows));
  }

  method AppendRows(delta: seq<BagRow<Tuple>>, rows: seq<Tuple>) returns (more: seq<BagRow<Tuple>>)
    ensures more == delta + Additions(rows)
  {
    more := delta;
    for i := 0 to |rows|
      invariant more == delta + Additions(rows[..i])
    {
      assert rows[..i + 1][..i] == rows[..i];
      more := more + [BagRow(Ins, rows[i], 1)];
    }
    assert rows[..|rows|] == rows;
  }

  lemma NothingPending(base: multiset<Tuple>, delta: seq<BagRow<Tuple>>, rows: seq<Tuple>)
    ensures After(base, delta, [], rows) == BagView(base, delta) + multiset(rows)
  {
  }

  /** One chunk of an INSERT: applied exactly when the merged bag stays unique. */
  method InsertChunk(delta: seq<BagRow<Tuple>>, rows: seq<Tuple>, indexes: seq<Index>, ghost base: multiset<Tuple>)
    returns (ok: bool, more: seq<BagRow<Tuple>>)
    requires BagInv(base, delta) && Obeys(indexes, base, delta)
    ensures ok <==> Clear(indexes, BagView(base, delta) + multiset(rows))
    ensures ok ==> more == delta + Additions(rows)
  {
    NothingPending(base, delta, rows);
    ok, more := true, delta;
    if indexes != [] { ok := ProbeKeyless(indexes, base, delta, [], rows); }
    if ok { more := AppendRows(delta, rows); }
  }

  lemma StillObeyed(indexes: seq<Index>, base: multiset<Tuple>, delta: seq<BagRow<Tuple>>, more: seq<BagRow<Tuple>>)
    requires Obeys(indexes, base, delta) && Clear(indexes, BagView(base, more))
    ensures Obeys(indexes, base, more)
  {
    forall k | 0 <= k < |indexes| ensures Obeyed(indexes[k], base, more) { assert Obeyed(indexes[k], base, delta); }
  }

  lemma PrefixClear(indexes: seq<Index>, small: multiset<Tuple>, big: multiset<Tuple>)
    requires small <= big
    ensures Clear(indexes, big) ==> Clear(indexes, small)
  {
    if Clear(indexes, big) {
      forall k | 0 <= k < |indexes| ensures UniqueBag(indexes[k].columns, small) {
        PartIsUnique(indexes[k].columns, small, big);
      }
    }
  }

  lemma ChunksAdd(view: multiset<Tuple>, chunks: seq<seq<Tuple>>, i: nat)
    requires i < |chunks|
    ensures view + multiset(Flatten(chunks[..i + 1])) == view + multiset(Flatten(chunks[..i])) + multiset(chunks[i])
    ensures view + multiset(Flatten(chunks[..i + 1])) <= view + multiset(Flatten(chunks))
  {
    FlattenStep(chunks, i);
    FlattenPrefix(chunks, i + 1);
    var all, n := Flatten(chunks), |Flatten(chunks[..i + 1])|;
    assert all == all[..n] + all[n..];
  }

  /** INSERT adds its rows to the merged bag, or throws: exactly when the result holds two equal
      tuples in an index, wherever the chunks begin. */
  method ExecuteInsert(ghost base: multiset<Tuple>, start: seq<BagRow<Tuple>>, chunks: seq<seq<Tuple>>,
                       indexes: seq<Index>)
    returns (ok: bool, delta: seq<BagRow<Tuple>>)
    requires BagInv(base, start) && Obeys(indexes, base, start)
    ensures ok <==> Clear(indexes, BagView(base, start) + multiset(Flatten(chunks)))
    ensures ok ==> BagInv(base, delta) && Obeys(indexes, base, delta)
    ensures ok ==> BagView(base, delta) == BagView(base, start) + multiset(Flatten(chunks))
  {
    delta := start;
    NothingUpdated(base, start, indexes);
    for i := 0 to |chunks|
      invariant BagInv(base, delta) && Obeys(indexes, base, delta)
      invariant BagView(base, delta) == BagView(base, start) + multiset(Flatten(chunks[..i]))
                && Clear(indexes, BagView(base, delta))
    {
      ChunksAdd(BagView(base, start), chunks, i);
      PrefixClear(indexes, BagView(base, start) + multiset(Flatten(chunks[..i + 1])),
                  BagView(base, start) + multiset(Flatten(chunks)));
      ghost var before := delta;
      ok, delta := InsertChunk(delta, chunks[i], indexes, base);
      if !ok { return; }
      InsertAdds(base, before, chunks[i]);
      StillObeyed(indexes, base, before, delta);
    }
    assert chunks[..|chunks|] == chunks;
    ok := true;
  }

  // ----- exchanging unique values -----

  lemma CountSingle(u: seq<nat>, v: Tuple, t: string)
    ensures TupleCount(u, multiset{v}, t) == One(u, v, t)
  {
    assert multiset{} + multiset{v} == multiset{v};
    CountAddOne(u, multiset{}, v, t);
  }

  lemma CountPair(u: seq<nat>, v: Tuple, w: Tuple, t: string)
    ensures TupleCount(u, multiset{v} + multiset{w}, t) == One(u, v, t) + One(u, w, t)
  {
    CountSingle(u, v, t);
    CountAddOne(u, multiset{v}, w, t);
  }

  /** Two rows that exchange their tuples in one chunk leave every count as it was. */
  lemma SwapKeepsUnique(u: seq<nat>, bag: multiset<Tuple>, v: Tuple, w: Tuple, v2: Tuple, w2: Tuple)
    requires multiset{v} + multiset{w} <= bag && UniqueBag(u, bag)
    requires TupleOf(u, v2) == TupleOf(u, w) && TupleOf(u, w2) == TupleOf(u, v)
    ensures UniqueBag(u, bag - (multiset{v} + multiset{w}) + (multiset{v2} + multiset{w2}))
  {
    var kept := bag - (multiset{v} + multiset{w});
    forall t | t != "" ensures TupleCount(u, kept + (multiset{v2} + multiset{w2}), t) <= 1 {
      CountSubtract(u, bag, multiset{v} + multiset{w}, t);
      CountAdd(u, kept, multiset{v2} + multiset{w2}, t);
      CountPair(u, v, w, t);
      CountPair(u, v2, w2, t);
    }
  }

  /** With a chunk border between them the first row alone already breaks the index. */
  lemma HalfASwapIsNotUnique(u: seq<nat>, bag: multiset<Tuple>, v: Tuple, w: Tuple, v2: Tuple)
    requires multiset{v} + multiset{w} <= bag && TupleOf(u, v2) == TupleOf(u, w) != ""
    ensures !UniqueBag(u, bag - multiset{v} + multiset{v2})
  {
    var t, kept := TupleOf(u, w), bag - multiset{v};
    assert w in kept;
    Swap(kept, w, w);
    CountAddOne(u, kept - multiset{w}, w, t);
    CountAddOne(u, kept, v2, t);
  }
}
