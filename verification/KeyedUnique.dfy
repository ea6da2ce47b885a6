/** Secondary UNIQUE constraints of a keyed scenario table, judged in three parts: the base's
    own indexes, the UNIQUE indexes mirrored on the delta, and a probe of written rows against
    base rows the scenario has not replaced.  Together they accept the writes that leave the
    merged relation unique, less those that a tombstone stands in the way of. */
module KeyedUnique {
  import opened Values
  import opened KeyedDelta
  import opened DeltaStore
  import opened KeyedConstraints

  predicate TombstonesAreBlank(delta: Delta) {
    forall k :: k in delta && delta[k].op == D ==> delta[k].row == Tombstone(k)
  }

  /** A tombstone holds its key and NULLs, so only a constraint on key columns alone, with no
      NULL among them, can see it. */
  lemma TombstoneConflictIff(u: Constraint, k: Key, b: Row)
    ensures Clash(u, Tombstone(k), b) <==>
            !HasPayloadColumn(u) && forall i :: 0 <= i < |u| ==> Cell(b, u[i]) == Cell(Tombstone(k), u[i]) != Null
  {
    var t := Tombstone(k);
    if c :| c in u && c.InPayload? {
      var i :| 0 <= i < |u| && u[i] == c;
      assert Cells(t, u)[i] == Null;
    }
    if Clash(u, t, b) {
      forall i | 0 <= i < |u| ensures Cell(b, u[i]) == Cell(t, u[i]) != Null {
        assert Cells(b, u)[i] == Cells(t, u)[i];
      }
    }
    if forall i :: 0 <= i < |u| ==> Cell(b, u[i]) == Cell(t, u[i]) != Null { assert Cells(b, u) == Cells(t, u); }
  }

  /** No deleted key has its values taken by another row of the delta. */
  ghost predicate NoTombstoneConflict(u: Constraint, delta: Delta) {
    forall j, k :: j in delta && k in delta && j != k && delta[j].op == D ==> !Clash(u, Tombstone(j), delta[k].row)
  }

  lemma PayloadColumnsSuffice(u: Constraint, delta: Delta)
    requires HasPayloadColumn(u)
    ensures NoTombstoneConflict(u, delta)
  {
    forall j, k | j in delta && k in delta && j != k && delta[j].op == D ensures !Clash(u, Tombstone(j), delta[k].row) {
      TombstoneConflictIff(u, j, delta[k].row);
    }
  }

  /** The mirrored index judges the rows a reader sees, and the tombstones against them. */
  lemma MirrorSplits(u: Constraint, delta: Delta)
    requires TombstonesAreBlank(delta)
    ensures UniqueDelta(u, delta) <==> UniqueVisible(u, delta) && NoTombstoneConflict(u, delta)
  {
    if UniqueVisible(u, delta) && NoTombstoneConflict(u, delta) {
      forall j, k | j in delta && k in delta && j != k ensures !Clash(u, delta[j].row, delta[k].row) {
        if delta[j].op == D { assert delta[j].row == Tombstone(j); }
        else if delta[k].op == D { assert delta[k].row == Tombstone(k) && !Clash(u, Tombstone(k), delta[j].row); }
        else { assert Visible(delta, j) && Visible(delta, k); }
      }
    }
    if UniqueDelta(u, delta) {
      forall j, k | j in delta && k in delta && j != k && delta[j].op == D ensures !Clash(u, Tombstone(j), delta[k].row)
      {
        assert delta[j].row == Tombstone(j);
      }
    }
  }

  function Replaced(delta: Delta): set<Key> {
    set k | k in delta && delta[k].op != I
  }

  /** No probed row holds the values of a base row outside the replaced keys. */
  ghost predicate ProbePasses(u: Constraint, base: Table, replaced: set<Key>, rows: seq<Row>) {
    forall r, b :: r in rows && b in base && b !in replaced ==> !Clash(u, r, base[b])
  }

  ghost predicate NoLiveCollision(u: Constraint, base: Table, delta: Delta) {
    forall k, b :: Visible(delta, k) && b in base && b !in Replaced(delta) ==> !Clash(u, delta[k].row, base[b])
  }

  /** The view is unique exactly when the visible delta rows are and none of them collides with
      a live base row. */
  lemma UniquenessSplits(u: Constraint, base: Table, delta: Delta)
    requires Inv(base, delta) && UniqueTable(u, base)
    ensures UniqueTable(u, View(base, delta)) <==> UniqueVisible(u, delta) && NoLiveCollision(u, base, delta)
  {
    var view := View(base, delta);
    if UniqueTable(u, view) {
      forall j, k | Visible(delta, j) && Visible(delta, k) && j != k ensures !Clash(u, delta[j].row, delta[k].row) {
        assert j in view && k in view && view[j] == delta[j].row && view[k] == delta[k].row;
      }
      forall k, b | Visible(delta, k) && b in base && b !in Replaced(delta) ensures !Clash(u, delta[k].row, base[b]) {
        assert k in view && b in view && k != b && view[k] == delta[k].row && view[b] == base[b];
      }
    }
    if UniqueVisible(u, delta) && NoLiveCollision(u, base, delta) {
      forall j, k | j in view && k in view && j != k ensures !Clash(u, view[j], view[k]) {
        if Visible(delta, k) && !Visible(delta, j) {
          assert j in base && j !in Replaced(delta);
          assert !Clash(u, delta[k].row, base[j]);
        } else if Visible(delta, j) && !Visible(delta, k) {
          assert k in base && k !in Replaced(delta);
          assert !Clash(u, delta[j].row, base[k]);
        }
      }
    }
  }

  /** The checks accept exactly the deltas whose view is unique and whose tombstones are clear
      of every other row: on a constraint with a payload column that is uniqueness itself, on
      one over key columns alone it can refuse a write that leaves the view unique. */
  lemma ChecksAcceptIff(u: Constraint, base: Table, delta: Delta)
    requires Inv(base, delta) && TombstonesAreBlank(delta) && UniqueTable(u, base)
    ensures UniqueDelta(u, delta) && NoLiveCollision(u, base, delta) <==>
            UniqueTable(u, View(base, delta)) && NoTombstoneConflict(u, delta)
    ensures HasPayloadColumn(u) ==> NoTombstoneConflict(u, delta)
  {
    MirrorSplits(u, delta);
    UniquenessSplits(u, base, delta);
    if HasPayloadColumn(u) { PayloadColumnsSuffice(u, delta); }
  }

  /** PRIMARY KEY (a, b) and UNIQUE (a): after a DELETE of (a, b) the row (a, c) may be inserted
      again as far as keys, probe and the new view go, and the mirrored index refuses it. */
  lemma KeyOnlyUniqueIsRefused(a: Value, b: Value, c: Value)
    requires a != Null && b != c
    ensures var u, gone, again := [InKey(0)], Row(Key([a, b]), []), Row(Key([a, c]), []);
            var base := map[gone.key := gone];
            var deleted := map[gone.key := Change(D, Tombstone(gone.key))];
            var q := InsertRows(base.Keys, deleted, [again]);
            && Vacate(map[], gone.key) == deleted && Inv(base, deleted) && TombstonesAreBlank(deleted)
            && UniqueTable(u, base) && UniqueTable(u, View(base, deleted))
            && q.Some? && ProbePasses(u, base, Replaced(deleted), [again])
            && View(base, q.value) == map[again.key := again] && UniqueTable(u, View(base, q.value))
            && !UniqueDelta(u, q.value)
  {
    var u, gone, again := [InKey(0)], Row(Key([a, b]), []), Row(Key([a, c]), []);
    var base, deleted := map[gone.key := gone], map[gone.key := Change(D, Tombstone(gone.key))];
    assert again.key.parts[1] != gone.key.parts[1];
    assert [again][..0] == [];
    var q := deleted[again.key := Change(I, again)];
    assert InsertRows(base.Keys, deleted, [again]) == Some(q);
    assert View(base, q) == map[again.key := again];
    TombstoneConflictIff(u, gone.key, again);
    assert q[gone.key].row == Tombstone(gone.key) && q[again.key].row == again;
  }

  // ----- the probe -----

  method CollectReplaced(delta: seq<Change>, pending: seq<Change>, keyIndex: bool, base: Table, baseScan: seq<Row>)
    returns (masked: seq<Row>)
    requires WellKeyed(base) && (!keyIndex ==> forall r :: r in baseScan <==> r.key in base && base[r.key] == r)
    ensures forall r :: r in masked <==>
              r.key in base && base[r.key] == r
              && r.key in ReplacedRows(delta) + ReplacedRows(pending)
  {
    var keys := {};
    for i := 0 to |delta|
      invariant keys == ReplacedRows(delta[..i])
    {
      ReplacedOneMore(delta, i);
      if delta[i].op == D || delta[i].op == U { keys := keys + {delta[i].row.key}; }
    }
    assert delta[..|delta|] == delta;
    for i := 0 to |pending|
      invariant keys == ReplacedRows(delta) + ReplacedRows(pending[..i])
    {
      ReplacedOneMore(pending, i);
      if pending[i].op == D || pending[i].op == U { keys := keys + {pending[i].row.key}; }
    }
    assert pending[..|pending|] == pending;
    masked := [];
    if keyIndex {
      var rest := keys;
      while rest != {}
        invariant rest <= keys
        invariant forall r :: r in masked <==> r.key in base && base[r.key] == r && r.key in keys - rest
        decreases rest
      {
        var k :| k in rest;
        if k in base { masked := masked + [base[k]]; }
        rest := rest - {k};
      }
    } else {
      for i := 0 to |baseScan|
        invariant forall r :: r in masked <==> r in baseScan[..i] && r.key in keys
      {
        if baseScan[i].key in keys { masked := masked + [baseScan[i]]; }
      }
      assert baseScan[..|baseScan|] == baseScan;
    }
  }

  function ReplacedRows(rows: seq<Change>): set<Key> {
    set c | c in rows && c.op != I :: c.row.key
  }

  lemma ReplacedOneMore(rows: seq<Change>, i: nat)
    requires i < |rows|
    ensures ReplacedRows(rows[..i + 1]) == ReplacedRows(rows[..i]) + if rows[i].op == I then {} else {rows[i].row.key}
  {
    assert rows[..i + 1] == rows[..i] + [rows[i]];
  }

  /** An index probe: some row holds the tuple of an index entry that is not masked. */
  predicate IndexRejects(u: Constraint, base: Table, masked: seq<Row>, rows: seq<Row>) {
    exists r, b :: r in rows && b in base && base[b] !in masked && Clash(u, r, base[b])
  }

  /** The probe first tries every index unmasked; only a collision makes it build the mask. */
  method ProbeSecondary(us: seq<Constraint>, delta: seq<Change>, pending: seq<Change>, keyIndex: bool, base: Table,
                        baseScan: seq<Row>,
                        rows: seq<Row>)
    returns (ok: bool)
    requires WellKeyed(base) && (!keyIndex ==> forall r :: r in baseScan <==> r.key in base && base[r.key] == r)
    ensures ok <==> forall u :: u in us ==> ProbePasses(u, base, ReplacedRows(delta) + ReplacedRows(pending), rows)
  {
    var collides := false;
    for i := 0 to |us|
      invariant collides <==> exists j :: 0 <= j < i && IndexRejects(us[j], base, [], rows)
    {
      collides := collides || IndexRejects(us[i], base, [], rows);
    }
    if !collides {
      forall u | u in us ensures ProbePasses(u, base, ReplacedRows(delta) + ReplacedRows(pending), rows) {
        var j :| 0 <= j < |us| && us[j] == u;
        assert !IndexRejects(us[j], base, [], rows);
      }
      return true;
    }
    var masked := CollectReplaced(delta, pending, keyIndex, base, baseScan);
    ok := true;
    for i := 0 to |us|
      invariant ok <==> forall j :: 0 <= j < i ==> ProbePasses(us[j], base,
                ReplacedRows(delta) + ReplacedRows(pending), rows)
    {
      MaskedProbe(us[i], base, masked, ReplacedRows(delta) + ReplacedRows(pending), rows);
      ok := ok && !IndexRejects(us[i], base, masked, rows);
    }
  }

  lemma MaskedProbe(u: Constraint, base: Table, masked: seq<Row>, replaced: set<Key>, rows: seq<Row>)
    requires WellKeyed(base) && forall r :: r in masked <==> r.key in base && base[r.key] == r && r.key in replaced
    ensures IndexRejects(u, base, masked, rows) <==> !ProbePasses(u, base, replaced, rows)
  {
    forall b | b in base ensures base[b] in masked <==> b in replaced {
    }
  }

  // ----- an UPDATE chunk -----

  ghost predicate AgreeExceptOn(m: Delta, n: Delta, ks: set<Key>) {
    forall j :: j !in ks ==> (j in m <==> j in n) && (j in m ==> m[j] == n[j])
  }

  /** What a chunk of UPDATE rows does to the delta, key by key: replaced base rows stay
      replaced, every row's image is in the delta, every base row that was read is replaced,
      and the other visible delta rows are untouched. */
  ghost predicate ChunkShape(base: Table, before: Progress, rows: seq<Assign>, after: Progress) {
    && Replaced(before.delta) <= Replaced(after.delta)
    && (forall a :: a in rows ==> Visible(after.delta, a.image.key) && after.delta[a.image.key].row == a.image)
    && (forall a :: a in rows && a.at in base ==> a.at in Replaced(after.delta))
    && (forall k :: Visible(after.delta, k) ==>
          (exists a :: a in rows && a.image.key == k)
              || (Visible(before.delta, k) && after.delta[k] == before.delta[k]))
    && AgreeExceptOn(before.delta, after.delta, after.touched)
    && (forall a :: a in rows ==> a.Touches() <= after.touched)
  }

  ghost predicate StepShape(base: Table, p: Progress, a: Assign, q: Progress) {
    && Replaced(p.delta) <= Replaced(q.delta)
    && Visible(q.delta, a.image.key) && q.delta[a.image.key].row == a.image
    && (a.at in base ==> a.at in Replaced(q.delta))
    && (a.Moves() ==> !Visible(q.delta, a.at))
    && AgreeExceptOn(p.delta, q.delta, a.Touches())
    && q.touched == p.touched + a.Touches() && p.touched !! a.Touches()
  }

  lemma StepHasShape(base: Table, p: Progress, a: Assign, q: Progress)
    requires Inv(base, p.delta) && TombstonesAreBlank(p.delta)
    requires a.at in View(base, p.delta) && UpdateRow(base.Keys, p, a) == Some(q)
    ensures Inv(base, q.delta) && TombstonesAreBlank(q.delta) && StepShape(base, p, a, q)
  {
    UpdateRowOnView(base, p, a);
    if a.Moves() { MoveHasShape(base, p.delta, a); } else { RewriteHasShape(base, p.delta, a.image); }
  }

  lemma RewriteHasShape(base: Table, delta: Delta, row: Row)
    requires Inv(base, delta) && TombstonesAreBlank(delta) && row.key in View(base, delta)
    ensures var q := Rewrite(delta, row);
            && TombstonesAreBlank(q) && Replaced(delta) <= Replaced(q)
            && Visible(q, row.key) && q[row.key].row == row && (row.key in base ==> row.key in Replaced(q))
            && AgreeExceptOn(delta, q, {row.key})
  {
  }

  lemma MoveHasShape(base: Table, delta: Delta, a: Assign)
    requires Inv(base, delta) && TombstonesAreBlank(delta) && a.at in View(base, delta) && a.Moves()
    requires !Visible(delta, a.image.key)
    ensures var q := Claim(Vacate(delta, a.at), a.image);
            && TombstonesAreBlank(q) && Replaced(delta) <= Replaced(q)
            && Visible(q, a.image.key) && q[a.image.key].row == a.image && (a.at in base ==> a.at in Replaced(q))
            && !Visible(q, a.at) && AgreeExceptOn(delta, q, a.Touches())
  {
    VacateHasShape(base, delta, a.at);
    ClaimHasShape(Vacate(delta, a.at), a.image);
  }

  lemma VacateHasShape(base: Table, delta: Delta, k: Key)
    requires Inv(base, delta) && TombstonesAreBlank(delta) && k in View(base, delta)
    ensures var q := Vacate(delta, k);
            && TombstonesAreBlank(q) && Replaced(delta) <= Replaced(q) && (k in base ==> k in Replaced(q))
            && !Visible(q, k) && AgreeExceptOn(delta, q, {k})
  {
  }

  lemma ClaimHasShape(delta: Delta, row: Row)
    requires TombstonesAreBlank(delta) && !Visible(delta, row.key)
    ensures var q := Claim(delta, row);
            && TombstonesAreBlank(q) && Replaced(delta) <= Replaced(q) && Replaced(q) <= Replaced(delta)
            && Visible(q, row.key) && q[row.key].row == row && AgreeExceptOn(delta, q, {row.key})
  {
  }

  lemma ShapeOneMore(base: Table, before: Progress, rows: seq<Assign>, mid: Progress, a: Assign, after: Progress)
    requires ChunkShape(base, before, rows, mid) && StepShape(base, mid, a, after)
    ensures ChunkShape(base, before, rows + [a], after)
  {
    var more := rows + [a];
    assert a.at in a.Touches() && a.image.key in a.Touches();
    forall b | b in rows ensures Visible(after.delta, b.image.key) && after.delta[b.image.key].row == b.image {
      assert b.image.key in b.Touches();
    }
    forall k | Visible(after.delta, k)
      ensures (exists b :: b in more && b.image.key == k)
              || (Visible(before.delta, k) && after.delta[k] == before.delta[k])
    {
      if k == a.image.key {
        assert a in more;
      } else {
        assert k !in a.Touches() && Visible(mid.delta, k) && after.delta[k] == mid.delta[k];
        if b :| b in rows && b.image.key == k { assert b in more; }
      }
    }
  }

  lemma {:induction false} ChunkHasShape(base: Table, p: Progress, rows: seq<Assign>)
    requires Inv(base, p.delta) && TombstonesAreBlank(p.delta)
    requires forall a :: a in rows ==> a.at in View(base, p.delta)
    requires UpdateRows(base.Keys, p, rows).Some?
    ensures var q := UpdateRows(base.Keys, p, rows).value;
            ChunkShape(base, p, rows, q) && Inv(base, q.delta) && TombstonesAreBlank(q.delta)
  {
    if rows != [] {
      var n := |rows| - 1;
      var init, a := rows[..n], rows[n];
      assert rows == init + [a];
      ChunkHasShape(base, p, init);
      var mid := UpdateRows(base.Keys, p, init).value;
      assert a.at in View(base, mid.delta);
      StepHasShape(base, mid, a, UpdateRows(base.Keys, p, rows).value);
      ShapeOneMore(base, p, init, mid, a, UpdateRows(base.Keys, p, rows).value);
    }
  }

  /** The unique values of a row changed under some constraint. */
  predicate Changed(us: seq<Constraint>, before: Row, after: Row) {
    exists u :: u in us && Cells(before, u) != Cells(after, u)
  }

  ghost predicate IsChangedRows(us: seq<Constraint>, view: Table, rows: seq<Assign>, changed: seq<Row>) {
    forall r :: r in changed <==> exists a ::
      a in rows && a.image == r && a.at in view
      && Changed(us, view[a.at], a.image)
  }

  /** The filter of the UPDATE sink: only rows whose unique values changed are probed.  was
      holds the rows as they were read. */
  method ChangedRows(us: seq<Constraint>, ghost view: Table, rows: seq<Assign>, was: seq<Row>)
      returns (changed: seq<Row>)
    requires |was| == |rows| && forall i :: 0 <= i < |rows| ==> rows[i].at in view && was[i] == view[rows[i].at]
    ensures IsChangedRows(us, view, rows, changed)
  {
    changed := [];
    for i := 0 to |rows|
      invariant IsChangedRows(us, view, rows[..i], changed)
    {
      assert rows[..i + 1] == rows[..i] + [rows[i]];
      if Changed(us, was[i], rows[i].image) { changed := changed + [rows[i].image]; }
    }
    assert rows[..|rows|] == rows;
  }

  /** Skipping rows whose unique values did not change is sound: an unchanged value collides
      with no live base row, as the view was unique before. */
  lemma UnchangedRowsPass(us: seq<Constraint>, u: Constraint, base: Table, p: Progress, rows: seq<Assign>,
                          q: Progress, a: Assign)
    requires Inv(base, p.delta) && Inv(base, q.delta) && ChunkShape(base, p, rows, q)
    requires u in us && UniqueTable(u, View(base, p.delta))
    requires a in rows && a.at in View(base, p.delta) && !Changed(us, View(base, p.delta)[a.at], a.image)
    ensures forall b :: b in base && b !in Replaced(q.delta) ==> !Clash(u, a.image, base[b])
  {
    var view := View(base, p.delta);
    assert Cells(view[a.at], u) == Cells(a.image, u);
    forall b | b in base && b !in Replaced(q.delta) ensures !Clash(u, a.image, base[b]) {
      assert b in view && view[b] == base[b] && b != a.at;
    }
  }

  lemma UntouchedRowsPass(u: Constraint, base: Table, p: Progress, q: Progress, k: Key)
    requires Inv(base, p.delta) && Inv(base, q.delta) && Replaced(p.delta) <= Replaced(q.delta)
    requires UniqueTable(u, View(base, p.delta))
    requires Visible(p.delta, k) && Visible(q.delta, k) && q.delta[k] == p.delta[k]
    ensures forall b :: b in base && b !in Replaced(q.delta) ==> !Clash(u, q.delta[k].row, base[b])
  {
    var view := View(base, p.delta);
    forall b | b in base && b !in Replaced(q.delta) ensures !Clash(u, q.delta[k].row, base[b]) {
      assert b in view && view[b] == base[b] && view[k] == q.delta[k].row && b != k;
    }
  }

  /** After an UPDATE chunk the delta's mirrored index accepts its rows and the probe of the
      changed rows passes if and only if the view is unique under u and no tombstone is in the
      way. */
  lemma ChunkIsUniqueIff(us: seq<Constraint>, u: Constraint, base: Table, p: Progress, rows: seq<Assign>,
                         changed: seq<Row>)
    requires Inv(base, p.delta) && TombstonesAreBlank(p.delta)
    requires forall a :: a in rows ==> a.at in View(base, p.delta)
    requires UpdateRows(base.Keys, p, rows).Some?
    requires u in us && UniqueTable(u, base) && UniqueTable(u, View(base, p.delta))
    requires IsChangedRows(us, View(base, p.delta), rows, changed)
    ensures var q := UpdateRows(base.Keys, p, rows).value.delta;
            UniqueDelta(u, q) && ProbePasses(u, base, Replaced(q), changed) <==>
              UniqueTable(u, View(base, q))
              && NoTombstoneConflict(u, q)
  {
    var q := UpdateRows(base.Keys, p, rows).value;
    ChunkHasShape(base, p, rows);
    ChecksAcceptIff(u, base, q.delta);
    if NoLiveCollision(u, base, q.delta) {
      forall r, b | r in changed && b in base && b !in Replaced(q.delta) ensures !Clash(u, r, base[b]) {
        var a :| a in rows && a.image == r;
        assert Visible(q.delta, a.image.key);
      }
    }
    if ProbePasses(u, base, Replaced(q.delta), changed) {
      forall k, b | Visible(q.delta, k) && b in base && b !in Replaced(q.delta)
        ensures !Clash(u, q.delta[k].row, base[b])
      {
        if a :| a in rows && a.image.key == k {
          if Changed(us, View(base, p.delta)[a.at], a.image) {
            assert a.image in changed;
          } else {
            UnchangedRowsPass(us, u, base, p, rows, q, a);
          }
        } else {
          UntouchedRowsPass(u, base, p, q, k);
        }
      }
    }
  }

  /** The replaced keys the probe masks, flushed rows plus pending ones, are those of the
      delta the chunk is about to leave. */
  lemma PendingMaskIsExact(base: Table, p: Progress, rows: seq<Assign>, kept: Delta, appends: seq<Change>)
    requires Inv(base, p.delta) && TombstonesAreBlank(p.delta)
    requires forall a :: a in rows ==> a.at in View(base, p.delta)
    requires UpdateRows(base.Keys, p, rows).Some?
    requires UpdateRows(base.Keys, p, rows).value.delta == kept + DeltaOf(appends)
    requires DistinctKeys(appends) && kept.Keys !! DeltaOf(appends).Keys
    requires forall k :: k in kept ==> k in p.delta && kept[k] == p.delta[k]
    ensures Replaced(p.delta) + ReplacedRows(appends) == Replaced(UpdateRows(base.Keys, p, rows).value.delta)
  {
    ChunkHasShape(base, p, rows);
    ReplacedOfAppends(appends);
    var q := kept + DeltaOf(appends);
    assert Replaced(q) == Replaced(kept) + Replaced(DeltaOf(appends)) by {
      assert forall k :: k in kept ==> q[k] == kept[k];
    }
    assert Replaced(kept) <= Replaced(p.delta);
  }

  lemma {:induction false} ReplacedOfAppends(appends: seq<Change>)
    requires DistinctKeys(appends)
    ensures Replaced(DeltaOf(appends)) == ReplacedRows(appends)
  {
    if appends != [] {
      var n := |appends| - 1;
      ReplacedOfAppends(appends[..n]);
      DeltaOfStep(appends, n);
      assert appends[..n + 1] == appends;
      ReplacedOneMore(appends, n);
    }
  }

  // ----- an INSERT chunk -----

  ghost predicate InsertShape(before: Delta, rows: seq<Row>, after: Delta) {
    && Replaced(before) == Replaced(after)
    && (forall r :: r in rows ==> Visible(after, r.key) && after[r.key].row == r)
    && (forall k :: Visible(after, k) ==>
      (exists r :: r in rows && r.key == k)
      || (Visible(before, k) && after[k] == before[k]))
  }

  lemma InsertShapeOneMore(delta: Delta, init: seq<Row>, mid: Delta, r: Row)
    requires InsertShape(delta, init, mid) && TombstonesAreBlank(mid) && !Visible(mid, r.key)
    ensures InsertShape(delta, init + [r], Claim(mid, r)) && TombstonesAreBlank(Claim(mid, r))
  {
    ClaimHasShape(mid, r);
    var after, rows := Claim(mid, r), init + [r];
    forall b | b in rows ensures Visible(after, b.key) && after[b.key].row == b {
      if b != r { assert b in init && b.key != r.key; }
    }
    forall k | Visible(after, k)
      ensures (exists b :: b in rows && b.key == k) || (Visible(delta, k) && after[k] == delta[k])
    {
      if k == r.key { assert r in rows; }
      else if b :| b in init && b.key == k { assert b in rows; }
    }
  }

  lemma {:induction false} InsertHasShape(base: Table, delta: Delta, rows: seq<Row>)
    requires TombstonesAreBlank(delta) && InsertRows(base.Keys, delta, rows).Some?
    ensures var after := InsertRows(base.Keys, delta, rows).value;
            InsertShape(delta, rows, after) && TombstonesAreBlank(after)
  {
    if rows != [] {
      var n := |rows| - 1;
      assert rows == rows[..n] + [rows[n]];
      InsertHasShape(base, delta, rows[..n]);
      InsertShapeOneMore(delta, rows[..n], InsertRows(base.Keys, delta, rows[..n]).value, rows[n]);
    }
  }

  /** After an INSERT chunk, re-inserts over tombstones included, the same equivalence. */
  lemma InsertIsUniqueIff(u: Constraint, base: Table, delta: Delta, rows: seq<Row>)
    requires Inv(base, delta) && TombstonesAreBlank(delta) && InsertRows(base.Keys, delta, rows).Some?
    requires UniqueTable(u, base) && UniqueTable(u, View(base, delta))
    ensures var after := InsertRows(base.Keys, delta, rows).value;
            UniqueDelta(u, after) && ProbePasses(u, base, Replaced(delta), rows) <==>
            UniqueTable(u, View(base, after)) && NoTombstoneConflict(u, after)
  {
    var after := InsertRows(base.Keys, delta, rows).value;
    InsertAddsRows(base, delta, rows);
    InsertHasShape(base, delta, rows);
    ChecksAcceptIff(u, base, after);
    if NoLiveCollision(u, base, after) {
      forall r, b | r in rows && b in base && b !in Replaced(delta) ensures !Clash(u, r, base[b]) {
        assert Visible(after, r.key);
      }
    }
    if ProbePasses(u, base, Replaced(delta), rows) {
      forall k, b | Visible(after, k) && b in base && b !in Replaced(after) ensures !Clash(u, after[k].row, base[b]) {
        if !(exists r :: r in rows && r.key == k) {
          UntouchedRowsPass(u, base, Progress(delta, {}), Progress(after, {}), k);
        }
      }
    }
  }

  // ----- all constraints of a table -----

  /** What the checks leave behind: a unique view, and tombstones clear of every other row. */
  ghost predicate Clear(us: seq<Constraint>, base: Table, delta: Delta) {
    forall u :: u in us ==> UniqueTable(u, View(base, delta)) && NoTombstoneConflict(u, delta)
  }

  ghost predicate Guarded(us: seq<Constraint>, base: Table, delta: Delta) {
    Overlay(base, delta) && (us != [] ==>
      Inv(base, delta) && TombstonesAreBlank(delta) && UniqueUnder(us, base)
      && Clear(us, base, delta))
  }

  /** Where a scenario begins: without changes all conditions come down to the base's own. */
  lemma NoChangesAreGuarded(us: seq<Constraint>, base: Table)
    ensures Guarded(us, base, map[]) <==>
            && (forall k :: k in base ==> base[k].key == k)
            && forall u, j, k :: u in us && j in base && k in base && j != k ==> !Clash(u, base[j], base[k])
  {
    assert View(base, map[]) == base;
    if UniqueUnder(us, base) {
      forall u, j, k | u in us && j in base && k in base && j != k ensures !Clash(u, base[j], base[k]) {
        assert UniqueTable(u, base);
      }
    }
  }

  lemma GuardedIsIndexed(us: seq<Constraint>, base: Table, delta: Delta)
    requires Guarded(us, base, delta)
    ensures UniqueAll(us, delta)
  {
    forall u | u in us ensures UniqueDelta(u, delta) { ChecksAcceptIff(u, base, delta); }
  }

  /** Both checks over all constraints, for an UPDATE chunk and for an INSERT chunk. */
  lemma UpdateChecks(us: seq<Constraint>, base: Table, p: Progress, rows: seq<Assign>, changed: seq<Row>)
    requires us != [] && Guarded(us, base, p.delta)
    requires forall a :: a in rows ==> a.at in View(base, p.delta)
    requires UpdateRows(base.Keys, p, rows).Some? && IsChangedRows(us, View(base, p.delta), rows, changed)
    ensures var q := UpdateRows(base.Keys, p, rows).value.delta;
            && Inv(base, q) && TombstonesAreBlank(q)
            && (UniqueAll(us, q) && (forall u :: u in us ==> ProbePasses(u, base, Replaced(q), changed))
                <==> Clear(us, base, q))
  {
    ChunkHasShape(base, p, rows);
    forall u | u in us { ChunkIsUniqueIff(us, u, base, p, rows, changed); }
  }

  lemma InsertChecks(us: seq<Constraint>, base: Table, delta: Delta, rows: seq<Row>)
    requires us != [] && Guarded(us, base, delta) && InsertRows(base.Keys, delta, rows).Some?
    ensures var q := InsertRows(base.Keys, delta, rows).value;
            && Inv(base, q) && TombstonesAreBlank(q)
            && (UniqueAll(us, q) && (forall u :: u in us ==> ProbePasses(u, base, Replaced(delta), rows))
                <==> Clear(us, base, q))
  {
    InsertAddsRows(base, delta, rows);
    InsertHasShape(base, delta, rows);
    forall u | u in us { InsertIsUniqueIff(u, base, delta, rows); }
  }

  // ----- unique indexes that are not constraints -----

  /** Of the rows whose values changed under us, none holds the values of a base row outside the
      replaced keys, under any of the indexes. */
  ghost predicate UpdateProbes(us: seq<Constraint>, indexes: seq<Constraint>, base: Table, view: Table,
                               rows: seq<Assign>, replaced: set<Key>) {
    forall x, a, b :: x in indexes && a in rows && a.at in view && Changed(us, view[a.at], a.image) && b in base
        && b !in replaced
      ==> !Clash(x, a.image, base[b])
  }

  lemma ProbesOfChanged(us: seq<Constraint>, indexes: seq<Constraint>, base: Table, view: Table, rows: seq<Assign>,
                        replaced: set<Key>,
                        changed: seq<Row>)
    requires IsChangedRows(us, view, rows, changed)
    ensures (forall x :: x in indexes ==> ProbePasses(x, base, replaced, changed))
            <==> UpdateProbes(us, indexes, base, view, rows, replaced)
  {
    if forall x :: x in indexes ==> ProbePasses(x, base, replaced, changed) {
      forall x, a, b | x in indexes && a in rows && a.at in view && Changed(us, view[a.at], a.image) && b in base
          && b !in replaced
        ensures !Clash(x, a.image, base[b])
      {
        assert a.image in changed && ProbePasses(x, base, replaced, changed);
      }
    }
    if UpdateProbes(us, indexes, base, view, rows, replaced) {
      forall x, r, b | x in indexes && r in changed && b in base && b !in replaced ensures !Clash(x, r, base[b]) {
        var a :| a in rows && a.image == r && a.at in view && Changed(us, view[a.at], a.image);
      }
    }
  }

  /** An index made by CREATE UNIQUE INDEX is probed but not mirrored: where an INSERT passes, the
      view is unique under it exactly when the visible delta rows are, which nothing checks. */
  lemma CreatedIndexIff(u: Constraint, base: Table, delta: Delta, rows: seq<Row>)
    requires Inv(base, delta) && TombstonesAreBlank(delta) && InsertRows(base.Keys, delta, rows).Some?
    requires UniqueTable(u, base) && NoLiveCollision(u, base, delta) && ProbePasses(u, base, Replaced(delta), rows)
    ensures var after := InsertRows(base.Keys, delta, rows).value;
            NoLiveCollision(u, base, after) && (UniqueTable(u, View(base, after)) <==> UniqueVisible(u, after))
  {
    var after := InsertRows(base.Keys, delta, rows).value;
    InsertAddsRows(base, delta, rows);
    InsertHasShape(base, delta, rows);
    forall k, b | Visible(after, k) && b in base && b !in Replaced(after) ensures !Clash(u, after[k].row, base[b]) {
      if !(exists r :: r in rows && r.key == k) { assert Visible(delta, k) && after[k] == delta[k]; }
    }
    UniquenessSplits(u, base, after);
  }

  /** So one INSERT may bring two rows with the same values. */
  lemma CreatedIndexLetsRowsShare(j: Key, k: Key, x: Value)
    requires j != k && x != Null
    ensures var u, rows := [InPayload(0)], [Row(j, [x]), Row(k, [x])];
            var q := InsertRows({}, map[], rows);
            && q.Some? && ProbePasses(u, map[], {}, rows) && UniqueTable(u, map[])
                && !UniqueTable(u, View(map[], q.value))
  {
    var u, rows := [InPayload(0)], [Row(j, [x]), Row(k, [x])];
    assert rows[..1][..0] == [] && rows[..1] == [rows[0]];
    var q := map[j := Change(I, rows[0]), k := Change(I, rows[1])];
    assert InsertRows({}, map[], rows[..1]) == Some(map[j := Change(I, rows[0])]);
    assert InsertRows({}, map[], rows) == Some(q);
    var view := View(map[], q);
    assert view[j] == rows[0] && view[k] == rows[1] && Cells(rows[0], u) == [x] == Cells(rows[1], u);
  }

  /** Nor is it watched: an UPDATE of its column alone is not probed, whatever the base holds. */
  lemma CreatedIndexIsNotWatched(us: seq<Constraint>, base: Table, delta: Delta, rows: seq<Assign>,
                                 indexes: seq<Constraint>, replaced: set<Key>)
    requires forall a, u ::
               a in rows && a.at in View(base, delta) && u in us
               ==> Cells(View(base, delta)[a.at], u) == Cells(a.image, u)
    ensures UpdateProbes(us, indexes, base, View(base, delta), rows, replaced)
  {
  }

  /** Where every index is one of the constraints, the checks of the constraints cover it. */
  lemma CoveredIndexesPass(us: seq<Constraint>, indexes: seq<Constraint>, base: Table, delta: Delta, view: Table,
                           rows: seq<Assign>)
    requires Inv(base, delta) && UniqueUnder(us, base) && Clear(us, base, delta) && forall x :: x in indexes ==> x in us
    requires forall a :: a in rows ==> Visible(delta, a.image.key) && delta[a.image.key].row == a.image
    ensures UpdateProbes(us, indexes, base, view, rows, Replaced(delta))
  {
    forall x | x in indexes ensures NoLiveCollision(x, base, delta) { UniquenessSplits(x, base, delta); }
  }

  // ----- DELETE needs no check, INSERT no particular chunks -----

  lemma KeyCells(u: Constraint, a: Row)
    requires !HasPayloadColumn(u)
    ensures Cells(a, u) == Cells(Tombstone(a.key), u)
  {
    assert forall i :: 0 <= i < |u| ==> u[i] in u && u[i].InKey?;
  }

  lemma TombstonesDiffer(u: Constraint, base: Table, j: Key, k: Key)
    requires WellKeyed(base) && UniqueTable(u, base) && j in base && k in base && j != k
    ensures !Clash(u, Tombstone(j), Tombstone(k))
  {
    TombstoneConflictIff(u, j, Tombstone(k));
    if !HasPayloadColumn(u) {
      KeyCells(u, base[j]);
      KeyCells(u, base[k]);
      assert !Clash(u, base[j], base[k]);
    }
  }

  /** A tombstone conflicts with another row only if the row it stands for would have. */
  lemma TombstoneOfVisible(u: Constraint, a: Row, b: Row)
    requires !Clash(u, a, b)
    ensures !Clash(u, Tombstone(a.key), b)
  {
    TombstoneConflictIff(u, a.key, b);
    if !HasPayloadColumn(u) { KeyCells(u, a); }
  }

  lemma VacateKeepsClear(u: Constraint, base: Table, delta: Delta, k: Key)
    requires Inv(base, delta) && TombstonesAreBlank(delta) && k in View(base, delta)
    requires UniqueTable(u, base) && UniqueTable(u, View(base, delta)) && NoTombstoneConflict(u, delta)
    ensures UniqueTable(u, View(base, Vacate(delta, k))) && NoTombstoneConflict(u, Vacate(delta, k))
  {
    VacateIsDelete(base, delta, k);
    var view, q := View(base, delta), Vacate(delta, k);
    forall i, j | i in q && j in q && i != j && q[i].op == D ensures !Clash(u, Tombstone(i), q[j].row) {
      if i == k { TombstoneOfVacated(u, base, delta, k, j); }
      else if j == k { TombstonesDiffer(u, base, i, k); }
      else { assert delta[i] == q[i] && delta[j] == q[j]; }
    }
  }

  lemma TombstoneOfVacated(u: Constraint, base: Table, delta: Delta, k: Key, j: Key)
    requires Inv(base, delta) && TombstonesAreBlank(delta) && k in View(base, delta) && k in base && j in delta
             && j != k
    requires UniqueTable(u, base) && UniqueTable(u, View(base, delta))
    ensures !Clash(u, Tombstone(k), delta[j].row)
  {
    var view := View(base, delta);
    if delta[j].op == D {
      assert delta[j].row == Tombstone(j);
      TombstonesDiffer(u, base, k, j);
    } else {
      assert j in view && view[j] == delta[j].row && view[k].key == k;
      TombstoneOfVisible(u, view[k], view[j]);
    }
  }

  /** A DELETE never meets a constraint: it leaves the view unique and the indexes as well. */
  lemma {:induction false} DeleteKeepsGuarded(us: seq<Constraint>, base: Table, p: Progress, keys: seq<Key>)
    requires Guarded(us, base, p.delta) && forall k :: k in keys ==> k in p.touched || k in View(base, p.delta)
    ensures Guarded(us, base, DeleteRows(p, keys).delta)
    ensures forall k :: k in View(base, p.delta) ==>
              k in DeleteRows(p, keys).touched
              || k in View(base, DeleteRows(p, keys).delta)
    ensures p.touched <= DeleteRows(p, keys).touched
  {
    if keys != [] {
      var n := |keys| - 1;
      assert keys == keys[..n] + [keys[n]];
      DeleteKeepsGuarded(us, base, p, keys[..n]);
      var mid, k := DeleteRows(p, keys[..n]), keys[n];
      if k !in mid.touched {
        VacateIsDelete(base, mid.delta, k);
        if us != [] { VacateHasShape(base, mid.delta, k); }
        forall u | u in us { VacateKeepsClear(u, base, mid.delta, k); }
      }
    }
  }

  /** One inserted row less leaves no new conflict. */
  lemma ClearBeforeClaim(u: Constraint, base: Table, delta: Delta, row: Row)
    requires Inv(base, delta) && TombstonesAreBlank(delta) && row.key !in View(base, delta) && UniqueTable(u, base)
    requires UniqueTable(u, View(base, Claim(delta, row))) && NoTombstoneConflict(u, Claim(delta, row))
    ensures UniqueTable(u, View(base, delta)) && NoTombstoneConflict(u, delta)
  {
    ClaimIsInsert(base, delta, row);
    var view, q := View(base, delta), Claim(delta, row);
    assert forall i :: i in view ==> View(base, q)[i] == view[i];
    forall i, j | i in delta && j in delta && i != j && delta[i].op == D ensures !Clash(u, Tombstone(i), delta[j].row) {
      if delta[j].op == D {
        assert delta[j].row == Tombstone(j);
        TombstonesDiffer(u, base, i, j);
      } else if i == row.key {
        assert View(base, q)[i] == row && View(base, q)[j] == delta[j].row;
        TombstoneOfVisible(u, row, delta[j].row);
      } else {
        assert q[i] == delta[i] && q[j] == delta[j];
      }
    }
  }

  /** Where a whole INSERT passes, each of its beginnings passes: chunk borders do not matter. */
  lemma {:induction false} InsertBeginningsAreClear(us: seq<Constraint>, base: Table, delta: Delta, rows: seq<Row>,
                                                    i: nat)
    requires us != [] && Guarded(us, base, delta) && i <= |rows| && InsertRows(base.Keys, delta, rows).Some?
    requires Clear(us, base, InsertRows(base.Keys, delta, rows).value)
    ensures var q := InsertRows(base.Keys, delta, rows[..i]); q.Some? && Clear(us, base, q.value)
    decreases |rows|
  {
    if i == |rows| {
      assert rows[..i] == rows;
    } else {
      var n := |rows| - 1;
      var mid := InsertRows(base.Keys, delta, rows[..n]).value;
      InsertAddsRows(base, delta, rows[..n]);
      InsertHasShape(base, delta, rows[..n]);
      ClaimableMeansAbsent(base, mid, rows[n].key);
      forall u | u in us { ClearBeforeClaim(u, base, mid, rows[n]); }
      InsertBeginningsAreClear(us, base, delta, rows[..n], i);
      assert rows[..n][..i] == rows[..i];
    }
  }

  // ----- a swap of unique values -----

  predicate PayloadOnly(u: Constraint) {
    forall c :: c in u ==> c.InPayload?
  }

  /** Two rows that exchange their payloads in one chunk are accepted: the update is
      compatible and the view stays unique, so by the equivalence no check fires. */
  lemma SwapIsAccepted(u: Constraint, base: Table, delta: Delta, j: Key, k: Key)
    requires Inv(base, delta) && TombstonesAreBlank(delta) && j != k
    requires j in View(base, delta) && k in View(base, delta)
    requires PayloadOnly(u) && HasPayloadColumn(u) && UniqueTable(u, base) && UniqueTable(u, View(base, delta))
    ensures var view := View(base, delta);
            var q := UpdateRows(base.Keys, Progress(delta, {}),
                                [Assign(j, Row(j, view[k].payload)), Assign(k, Row(k, view[j].payload))]);
            q.Some? && UniqueTable(u, View(base, q.value.delta)) && UniqueDelta(u, q.value.delta)
  {
    var view := View(base, delta);
    var a, b := Assign(j, Row(j, view[k].payload)), Assign(k, Row(k, view[j].payload));
    UpdateIsSimultaneous(base, delta, [a, b]);
    var q := UpdateRows(base.Keys, Progress(delta, {}), [a, b]).value;
    var after := View(base, q.delta);
    TwoRowsInPlace(view, a, b, after);
    SameCells(u, a.image, view[k]);
    SameCells(u, b.image, view[j]);
    SwappedIsUnique(u, view, after, j, k);
    ChunkHasShape(base, Progress(delta, {}), [a, b]);
    ChecksAcceptIff(u, base, q.delta);
  }

  lemma TwoRowsInPlace(view: Table, a: Assign, b: Assign, after: Table)
    requires Simultaneous(view, Set([a, b]), after) && !a.Moves() && !b.Moves() && a.at in view && b.at in view
    ensures after.Keys == view.Keys && after[a.at] == a.image && after[b.at] == b.image
    ensures forall i :: i in view && i != a.at && i != b.at ==> after[i] == view[i]
  {
    assert Set([a, b]) == {a, b};
    assert NewKeys({a, b}) == {a.at, b.at} && OldKeys({a, b}) == {a.at, b.at};
  }

  lemma SameCells(u: Constraint, a: Row, b: Row)
    requires PayloadOnly(u) && a.payload == b.payload
    ensures Cells(a, u) == Cells(b, u)
  {
    assert forall i :: 0 <= i < |u| ==> u[i] in u;
  }

  lemma SwappedIsUnique(u: Constraint, view: Table, after: Table, j: Key, k: Key)
    requires UniqueTable(u, view) && j in view && k in view && j != k
    requires after.Keys == view.Keys && forall i :: i in view && i != j && i != k ==> after[i] == view[i]
    requires Cells(after[j], u) == Cells(view[k], u) && Cells(after[k], u) == Cells(view[j], u)
    ensures UniqueTable(u, after)
  {
    forall x, y | x in after && y in after && x != y ensures !Clash(u, after[x], after[y]) {
      var x0 := if x == j then k else if x == k then j else x;
      var y0 := if y == j then k else if y == k then j else y;
      assert !Clash(u, view[x0], view[y0]);
    }
  }

  /** The same exchange with a chunk border between its rows is refused: after the first row
      both keys hold the same values. */
  lemma SwapAcrossChunksIsRefused(u: Constraint, base: Table, delta: Delta, j: Key, k: Key)
    requires Inv(base, delta) && j != k && j in View(base, delta) && k in View(base, delta)
    requires PayloadOnly(u) && Null !in Cells(View(base, delta)[k], u)
    ensures var first := UpdateRows(base.Keys, Progress(delta, {}), [Assign(j, Row(j, View(base, delta)[k].payload))]);
            first.Some? && !Clear([u], base, first.value.delta)
  {
    var view, a := View(base, delta), Assign(j, Row(j, View(base, delta)[k].payload));
    assert [a][..0] == [];
    UpdateRowOnView(base, Progress(delta, {}), a);
    var after := View(base, Rewrite(delta, a.image));
    RewriteIsUpdate(base, delta, a.image);
    SameCells(u, a.image, view[k]);
    assert after[j] == a.image && after[k] == view[k] && Clash(u, after[j], after[k]);
    assert u in [u];
  }
}
