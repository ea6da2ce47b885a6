/** Merging a keyed delta back into its base: the three-way conflict rule, the merged table,
    and the three writings of the same decision - the host's loop, the statements run against
    a foreign base, and the preview query. */
module KeyedMerge {
  import opened Values
  import opened KeyedDelta
  import opened KeyedConstraints

  datatype Policy = Abort | Ours | Theirs

  function At(r: Row, i: nat): Value {
    if i < |r.payload| then r.payload[i] else Null
  }

  /** Some non-key column is distinct. */
  predicate Differs(width: nat, a: Row, b: Row) {
    exists i :: 0 <= i < width && At(a, i) != At(b, i)
  }

  /** The base as the merge finds it, with its unique indexes beside the key's, and the snapshot
      the merge compares it with, if the scenario has one of its own. */
  datatype Site = Site(base: Table, snapshot: Option<Table>, width: nat, uniques: seq<Constraint>)

  predicate Drifted(s: Site, k: Key) {
    s.snapshot.Some? && k in s.base && k in s.snapshot.value && Differs(s.width, s.base[k], s.snapshot.value[k])
  }

  /** The base changed underneath the scenario. */
  predicate Conflict(s: Site, c: Change) {
    (c.op == I && c.row.key in s.base) || (c.op == U && c.row.key !in s.base) || Drifted(s, c.row.key)
  }

  predicate Applies(s: Site, policy: Policy, c: Change) {
    policy == Theirs ==> !Conflict(s, c)
  }

  /** The base after the merge, key by key: applied changes win, everything else stays. */
  function MergedTable(s: Site, policy: Policy, delta: Delta): Table {
    map k | k in s.base.Keys + delta.Keys
            && (if k in delta && Applies(s, policy, delta[k]) then delta[k].op != D else k in s.base)
      :: if k in delta && Applies(s, policy, delta[k]) then delta[k].row else s.base[k]
  }

  ghost predicate AnyConflict(s: Site, delta: Delta) {
    exists k :: k in delta && Conflict(s, delta[k])
  }

  // ----- what the policies mean -----

  /** 'ours': the base shows the scenario's row on every touched key and itself elsewhere. */
  lemma OursMeansScenario(s: Site, delta: Delta)
    ensures MergedTable(s, Ours, delta) == View(s.base, delta)
    ensures forall k :: k in delta ==> (k in MergedTable(s, Ours, delta) <==> delta[k].op != D)
    ensures forall k :: k in delta && delta[k].op != D ==> MergedTable(s, Ours, delta)[k] == delta[k].row
    ensures forall k :: k !in delta ==> (k in MergedTable(s, Ours, delta) <==> k in s.base)
    ensures forall k :: k !in delta && k in s.base ==> MergedTable(s, Ours, delta)[k] == s.base[k]
  {
    var merged, view := MergedTable(s, Ours, delta), View(s.base, delta);
    assert merged.Keys == view.Keys;
    assert forall k :: k in merged ==> merged[k] == view[k];
  }

  function Clean(s: Site, delta: Delta): Delta {
    map k | k in delta && !Conflict(s, delta[k]) :: delta[k]
  }

  /** 'theirs' is the merge of the changes that do not conflict. */
  lemma TheirsMeansCleanChanges(s: Site, delta: Delta)
    ensures MergedTable(s, Theirs, delta) == View(s.base, Clean(s, delta))
    ensures forall k :: k in delta && Conflict(s, delta[k]) ==> (k in MergedTable(s, Theirs, delta) <==> k in s.base)
    ensures forall k ::
              k in delta && Conflict(s, delta[k]) && k in s.base
              ==> MergedTable(s, Theirs, delta)[k] == s.base[k]
  {
    var merged, view := MergedTable(s, Theirs, delta), View(s.base, Clean(s, delta));
    assert merged.Keys == view.Keys;
    assert forall k :: k in merged ==> merged[k] == view[k];
  }

  /** Without a conflict the policies agree. */
  lemma PolicyMattersOnlyOnConflict(s: Site, delta: Delta, p: Policy, q: Policy)
    requires !AnyConflict(s, delta)
    ensures MergedTable(s, p, delta) == MergedTable(s, q, delta) == View(s.base, delta)
  {
    OursMeansScenario(s, delta);
    assert MergedTable(s, p, delta) == MergedTable(s, Ours, delta);
    assert MergedTable(s, q, delta) == MergedTable(s, Ours, delta);
  }

  /** The base did not move: it equals the snapshot, if there is one. */
  predicate Unmoved(s: Site, delta: Delta) {
    Inv(s.base, delta) && (s.snapshot.Some? ==> s.snapshot.value == s.base)
  }

  /** What a scenario shows: source is the table it reads instead of the live base - its own
      snapshot, that of the nearest materialized scenario it branches from, or a pinned base. */
  function Shown(source: Option<Table>, live: Table, delta: Delta): Table {
    View(if source.Some? then source.value else live, delta)
  }

  /** On an unmoved base no change conflicts, every policy gives the view, and the invariant
      holds for whatever is written next.  The merge writes the live base and empties the delta,
      but never writes what else the scenario may read: it still shows the same if and only if
      it reads the live base or its changes change nothing of what it reads.  Whether the merge
      has a snapshot to compare with plays no part in that. */
  lemma MergeOnUnmovedBase(s: Site, source: Option<Table>, delta: Delta, policy: Policy)
    requires Unmoved(s, delta)
    ensures !AnyConflict(s, delta)
    ensures MergedTable(s, policy, delta) == View(s.base, delta)
    ensures Inv(MergedTable(s, policy, delta), map[])
    ensures Shown(source, MergedTable(s, policy, delta), map[]) == Shown(source, s.base, delta) <==>
            (source.Some? ==> Idle(source.value, delta))
  {
    assert forall k :: k in delta ==> !Conflict(s, delta[k]);
    PolicyMattersOnlyOnConflict(s, delta, policy, Ours);
    ViewIsBaseIffIdle(View(s.base, delta), map[]);
    if source.Some? {
      ViewIsBaseIffIdle(source.value, map[]);
      ViewIsBaseIffIdle(source.value, delta);
    }
  }

  // ----- counting over the rows of the delta table -----

  /** SELECT count(*) FROM rows WHERE p. */
  function CountWhere(rows: seq<Change>, p: Change -> bool): nat {
    if rows == [] then 0 else CountWhere(rows[..|rows| - 1], p) + if p(rows[|rows| - 1]) then 1 else 0
  }

  lemma {:induction false} CountWhereSame(rows: seq<Change>, p: Change -> bool, q: Change -> bool)
    requires forall c :: c in rows ==> p(c) == q(c)
    ensures CountWhere(rows, p) == CountWhere(rows, q)
  {
    if rows != [] {
      assert rows[|rows| - 1] in rows;
      assert forall c :: c in rows[..|rows| - 1] ==> c in rows;
      CountWhereSame(rows[..|rows| - 1], p, q);
    }
  }

  lemma {:induction false} CountWhereAny(rows: seq<Change>, p: Change -> bool)
    ensures CountWhere(rows, p) > 0 <==> exists c :: c in rows && p(c)
  {
    if rows != [] {
      var n := |rows| - 1;
      CountWhereAny(rows[..n], p);
      assert rows == rows[..n] + [rows[n]];
    }
  }

  lemma {:induction false} CountWhereSplit(rows: seq<Change>, p: Change -> bool, a: Change -> bool, b: Change -> bool)
    requires forall c :: c in rows ==> (p(c) <==> a(c) || b(c)) && !(a(c) && b(c))
    ensures CountWhere(rows, p) == CountWhere(rows, a) + CountWhere(rows, b)
  {
    if rows != [] {
      assert rows[|rows| - 1] in rows;
      assert forall c :: c in rows[..|rows| - 1] ==> c in rows;
      CountWhereSplit(rows[..|rows| - 1], p, a, b);
    }
  }

  /** What a merge of one table reports. */
  datatype Report = Refused | Violated | Done(table: Table, conflicts: nat, applied: nat, changed: bool)

  predicate Counted(s: Site, policy: Policy, c: Change) {
    Applies(s, policy, c) && (c.op != D || c.row.key in s.base)
  }

  /** The specification all writings meet, before any index has a say. */
  function Resolved(s: Site, policy: Policy, rows: seq<Change>): Report {
    var conflicts := CountWhere(rows, (c: Change) => Conflict(s, c));
    if policy == Abort && conflicts > 0 then Refused
    else
      var applied := CountWhere(rows, (c: Change) => Counted(s, policy, c));
      Done(MergedTable(s, policy, DeltaOf(rows)), conflicts, applied, applied > 0)
  }

  /** What the host does: its appends are judged by the unique indexes of the base. */
  function Outcome(s: Site, policy: Policy, rows: seq<Change>): Report {
    var r := Resolved(s, policy, rows);
    if r.Done? && !UniqueUnder(s.uniques, r.table) then Violated else r
  }

  lemma RefusedIffConflict(s: Site, policy: Policy, rows: seq<Change>)
    requires DistinctKeys(rows)
    ensures Resolved(s, policy, rows).Refused? <==> policy == Abort && AnyConflict(s, DeltaOf(rows))
    ensures !Resolved(s, policy, rows).Violated?
  {
    CountWhereAny(rows, (c: Change) => Conflict(s, c));
    DeltaOfHolds(rows);
    if c :| c in rows && Conflict(s, c) { assert DeltaOf(rows)[c.row.key] == c; }
  }

  /** 'abort' succeeds exactly when no change conflicts and the view is unique under the base's
      indexes; then it reports zero conflicts and applies the whole changelog. */
  lemma AbortIsAllOrNothing(s: Site, rows: seq<Change>)
    requires DistinctKeys(rows)
    ensures Outcome(s, Abort, rows).Refused? <==> AnyConflict(s, DeltaOf(rows))
    ensures Outcome(s, Abort, rows).Done? <==>
              !AnyConflict(s, DeltaOf(rows))
              && UniqueUnder(s.uniques, View(s.base, DeltaOf(rows)))
    ensures Outcome(s, Abort, rows).Done? ==> Outcome(s, Abort, rows).conflicts == 0 &&
                                              Outcome(s, Abort, rows).table == View(s.base, DeltaOf(rows))
  {
    RefusedIffConflict(s, Abort, rows);
    if !AnyConflict(s, DeltaOf(rows)) { PolicyMattersOnlyOnConflict(s, DeltaOf(rows), Abort, Ours); }
  }

  // ----- the same in terms of the rows alone -----

  /** Between rows of full width any differing value is a difference, wherever it stands. */
  lemma AnyColumnCounts(width: nat, a: Row, b: Row)
    requires |a.payload| == width == |b.payload|
    ensures Differs(width, a, b) <==> a.payload != b.payload
    ensures forall i :: 0 <= i < width ==> At(a, i) == a.payload[i]
  {
    if a.payload != b.payload {
      var i :| 0 <= i < width && a.payload[i] != b.payload[i];
      assert At(a, i) != At(b, i);
    }
  }

  /** 'abort' is refused for a conflict exactly when some change inserts a present key, updates a
      missing one, or touches a row of which some column differs from the snapshot. */
  lemma AbortRefusesStaleChanges(s: Site, rows: seq<Change>)
    ensures Outcome(s, Abort, rows).Refused? <==>
            exists c :: c in rows &&
              var k := c.row.key;
              || (c.op == I && k in s.base) || (c.op == U && k !in s.base)
              || (s.snapshot.Some? && k in s.base && k in s.snapshot.value
                  && exists i :: 0 <= i < s.width && At(s.base[k], i) != At(s.snapshot.value[k], i))
  {
    CountWhereAny(rows, (c: Change) => Conflict(s, c));
  }

  /** Under 'theirs' the base keeps exactly what such a change touches; any other change, and
      under 'ours' every change, takes effect. */
  lemma StaleChangeStays(s: Site, policy: Policy, rows: seq<Change>, c: Change)
    requires DistinctKeys(rows) && c in rows
    ensures var k, merged := c.row.key, MergedTable(s, policy, DeltaOf(rows));
            var stale :=
              || (c.op == I && k in s.base) || (c.op == U && k !in s.base)
              || (s.snapshot.Some? && k in s.base && k in s.snapshot.value
                  && exists i :: 0 <= i < s.width && At(s.base[k], i) != At(s.snapshot.value[k], i));
            if policy == Theirs && stale then (k in merged <==> k in s.base) && (k in s.base ==> merged[k] == s.base[k])
            else (k in merged <==> c.op != D) && (c.op != D ==> merged[k] == c.row)
  {
    DeltaOfHolds(rows);
    var i :| 0 <= i < |rows| && rows[i] == c;
    assert DeltaOf(rows)[c.row.key] == c;
  }

  /** A key without a change keeps its row under every policy. */
  lemma UntouchedStays(s: Site, policy: Policy, rows: seq<Change>, k: Key)
    requires forall c :: c in rows ==> c.row.key != k
    ensures var merged := MergedTable(s, policy, DeltaOf(rows));
            (k in merged <==> k in s.base) && (k in s.base ==> merged[k] == s.base[k])
  {
    NotInDelta(rows, k);
  }

  lemma {:induction false} NotInDelta(rows: seq<Change>, k: Key)
    requires forall c :: c in rows ==> c.row.key != k
    ensures k !in DeltaOf(rows)
  {
    if rows != [] {
      assert rows[|rows| - 1] in rows && forall c :: c in rows[..|rows| - 1] ==> c in rows;
      NotInDelta(rows[..|rows| - 1], k);
    }
  }

  function Those(rows: seq<Change>, p: Change -> bool): set<Change> {
    set c | c in rows && p(c)
  }

  lemma ThoseOneMore(rows: seq<Change>, c: Change, p: Change -> bool)
    requires c !in rows
    ensures Those(rows + [c], p) == Those(rows, p) + (if p(c) then {c} else {}) && c !in Those(rows, p)
  {
  }

  lemma {:induction false} CountIsSize(rows: seq<Change>, p: Change -> bool)
    requires DistinctKeys(rows)
    ensures CountWhere(rows, p) == |Those(rows, p)|
  {
    if rows == [] {
      assert Those(rows, p) == {};
    } else {
      var n := |rows| - 1;
      CountIsSize(rows[..n], p);
      assert rows == rows[..n] + [rows[n]];
      ThoseOneMore(rows[..n], rows[n], p);
    }
  }

  /** What is reported: each stale change once as a conflict, each effective change once as
      applied. */
  lemma ReportCountsChanges(s: Site, policy: Policy, rows: seq<Change>)
      returns (stale: set<Change>, effective: set<Change>)
    requires DistinctKeys(rows) && Outcome(s, policy, rows).Done?
    ensures forall c :: c in stale <==>
              c in rows &&
              var k := c.row.key;
              || (c.op == I && k in s.base) || (c.op == U && k !in s.base)
              || (s.snapshot.Some? && k in s.base && k in s.snapshot.value
                  && exists i :: 0 <= i < s.width && At(s.base[k], i) != At(s.snapshot.value[k], i))
    ensures forall c :: c in effective <==>
              c in rows && !(policy == Theirs && c in stale) && (c.op != D || c.row.key in s.base)
    ensures Outcome(s, policy, rows).conflicts == |stale| && Outcome(s, policy, rows).applied == |effective|
    ensures Outcome(s, policy, rows).changed <==> effective != {}
  {
    stale, effective := Those(rows, (c: Change) => Conflict(s, c)), Those(rows, (c: Change) => Counted(s, policy, c));
    CountIsSize(rows, (c: Change) => Conflict(s, c));
    CountIsSize(rows, (c: Change) => Counted(s, policy, c));
  }

  // ----- the preview -----

  /** The preview's CASE expression for one delta row. */
  predicate PreviewConflict(s: Site, c: Change) {
    var present := c.row.key in s.base;
    match c.op
    case I => present
    case U => !present || Drifted(s, c.row.key)
    case D => Drifted(s, c.row.key)
  }

  lemma PreviewMatchesMerge(s: Site, c: Change)
    ensures PreviewConflict(s, c) <==> Conflict(s, c)
  {
  }

  /** A merge with 'abort' is refused for a conflict exactly when some preview row has
      conflict = true, and succeeds exactly when none has and the view is unique under the base's
      indexes, which the preview does not consult. */
  lemma AbortSucceedsIffPreviewIsClean(s: Site, rows: seq<Change>)
    requires DistinctKeys(rows)
    ensures Outcome(s, Abort, rows).Refused? <==> exists c :: c in rows && PreviewConflict(s, c)
    ensures Outcome(s, Abort, rows).Done? <==>
            (forall c :: c in rows ==> !PreviewConflict(s, c)) && UniqueUnder(s.uniques, View(s.base, DeltaOf(rows)))
  {
    CountWhereAny(rows, (c: Change) => Conflict(s, c));
    AbortIsAllOrNothing(s, rows);
  }

  // ----- the statements run against a foreign base -----

  /** The conflict predicate of the foreign statements. */
  predicate ForeignConflict(s: Site, c: Change) {
    || (c.op == I && c.row.key in s.base)
    || (c.op == U && c.row.key !in s.base)
    || ((c.op == U || c.op == D) && Drifted(s, c.row.key))
  }

  /** Rows of the temporary conflict table match by key. */
  predicate InConflicts(s: Site, rows: seq<Change>, c: Change) {
    exists x :: x in rows && ForeignConflict(s, x) && x.row.key == c.row.key
  }

  predicate Filtered(s: Site, policy: Policy, rows: seq<Change>, c: Change) {
    policy == Theirs ==> !InConflicts(s, rows, c)
  }

  function DoomedKeys(s: Site, policy: Policy, rows: seq<Change>): set<Key> {
    set c | c in rows && (c.op != I || policy == Ours) && Filtered(s, policy, rows, c) :: c.row.key
  }

  predicate Inserted(s: Site, policy: Policy, rows: seq<Change>, c: Change) {
    c.op != D && Filtered(s, policy, rows, c)
  }

  /** INSERT INTO t SELECT the rows that satisfy p. */
  function InsertInto(t: Table, rows: seq<Change>, p: Change -> bool): Table {
    if rows == [] then t
    else
      var before, c := InsertInto(t, rows[..|rows| - 1], p), rows[|rows| - 1];
      if p(c) then before[c.row.key := c.row] else before
  }

  /** The statements in order: count conflicts, count D hits, DELETE, INSERT. */
  function ForeignMerge(s: Site, policy: Policy, rows: seq<Change>): Report {
    var conflicts := CountWhere(rows, (c: Change) => ForeignConflict(s, c));
    if policy == Abort && conflicts > 0 then Refused
    else
      var hits := CountWhere(rows, (c: Change) => c.op == D && c.row.key in s.base && Filtered(s, policy, rows, c));
      var kept := s.base - DoomedKeys(s, policy, rows);
      var inserted := CountWhere(rows, (c: Change) => Inserted(s, policy, rows, c));
      var merged := InsertInto(kept, rows, (c: Change) => Inserted(s, policy, rows, c));
      Done(merged, conflicts, inserted + hits, inserted > 0 || kept != s.base)
  }

  lemma FilteredIsApplies(s: Site, policy: Policy, rows: seq<Change>, c: Change)
    requires DistinctKeys(rows) && c in rows
    ensures Filtered(s, policy, rows, c) <==> Applies(s, policy, c)
  {
    assert Conflict(s, c) <==> ForeignConflict(s, c);
    var i :| 0 <= i < |rows| && rows[i] == c;
    if x :| x in rows && x.row.key == c.row.key {
      var j :| 0 <= j < |rows| && rows[j] == x;
      assert i == j;
    }
    if ForeignConflict(s, c) { assert InConflicts(s, rows, c); }
  }

  lemma {:induction false} InsertIntoMiss(t: Table, rows: seq<Change>, p: Change -> bool, k: Key)
    requires forall c :: c in rows && p(c) ==> c.row.key != k
    ensures k in InsertInto(t, rows, p) <==> k in t
    ensures k in t ==> InsertInto(t, rows, p)[k] == t[k]
  {
    if rows != [] {
      var n := |rows| - 1;
      assert rows[n] in rows && forall c :: c in rows[..n] ==> c in rows;
      InsertIntoMiss(t, rows[..n], p, k);
    }
  }

  lemma {:induction false} InsertIntoHit(t: Table, rows: seq<Change>, p: Change -> bool, i: nat)
    requires DistinctKeys(rows) && i < |rows| && p(rows[i])
    ensures rows[i].row.key in InsertInto(t, rows, p) && InsertInto(t, rows, p)[rows[i].row.key] == rows[i].row
  {
    if i < |rows| - 1 { InsertIntoHit(t, rows[..|rows| - 1], p, i); }
  }

  /** Every inserted row lands on a key the deletes left free: no duplicate keys in the lake. */
  lemma InsertsNeverCollide(s: Site, policy: Policy, rows: seq<Change>, c: Change)
    requires DistinctKeys(rows) && ForeignMerge(s, policy, rows).Done?
    requires c in rows && Inserted(s, policy, rows, c)
    ensures c.row.key !in s.base - DoomedKeys(s, policy, rows)
  {
    if policy == Abort { CountWhereAny(rows, (x: Change) => ForeignConflict(s, x)); }
    FilteredIsApplies(s, policy, rows, c);
    if c.op == I && policy != Ours {
      assert !ForeignConflict(s, c);
    } else {
      assert c.row.key in DoomedKeys(s, policy, rows);
    }
  }

  lemma ForeignTable(s: Site, policy: Policy, rows: seq<Change>, k: Key)
    requires DistinctKeys(rows) && ForeignMerge(s, policy, rows).Done?
    ensures var merged, foreign := MergedTable(s, policy, DeltaOf(rows)), ForeignMerge(s, policy, rows).table;
            (k in merged <==> k in foreign) && (k in merged ==> merged[k] == foreign[k])
  {
    var delta := DeltaOf(rows);
    var p := (c: Change) => Inserted(s, policy, rows, c);
    DeltaOfHolds(rows);
    var kept := s.base - DoomedKeys(s, policy, rows);
    if policy == Abort { CountWhereAny(rows, (x: Change) => ForeignConflict(s, x)); }
    if k in delta {
      var i :| 0 <= i < |rows| && rows[i] == delta[k];
      FilteredIsApplies(s, policy, rows, delta[k]);
      OneRowPerKey(rows, i);
      if p(rows[i]) { InsertIntoHit(kept, rows, p, i); } else { InsertIntoMiss(kept, rows, p, k); }
      assert k in DoomedKeys(s, policy, rows) <==>
        (rows[i].op != I || policy == Ours)
        && Filtered(s, policy, rows, rows[i]);
    } else {
      forall x | x in rows ensures x.row.key != k {
        var i :| 0 <= i < |rows| && rows[i] == x;
      }
      InsertIntoMiss(kept, rows, p, k);
      assert k !in DoomedKeys(s, policy, rows);
    }
  }

  lemma OneRowPerKey(rows: seq<Change>, i: nat)
    requires DistinctKeys(rows) && i < |rows|
    ensures forall c :: c in rows && c.row.key == rows[i].row.key ==> c == rows[i]
  {
  }

  lemma ForeignCounts(s: Site, policy: Policy, rows: seq<Change>)
    requires DistinctKeys(rows)
    ensures CountWhere(rows, (c: Change) => ForeignConflict(s, c)) == CountWhere(rows, (c: Change) => Conflict(s, c))
    ensures CountWhere(rows, (c: Change) => Inserted(s, policy, rows, c)) +
            CountWhere(rows, (c: Change) => c.op == D && c.row.key in s.base && Filtered(s, policy, rows, c)) ==
            CountWhere(rows, (c: Change) => Counted(s, policy, c))
  {
    CountWhereSame(rows, (c: Change) => ForeignConflict(s, c), (c: Change) => Conflict(s, c));
    forall c | c in rows ensures Filtered(s, policy, rows, c) <==> Applies(s, policy, c) {
      FilteredIsApplies(s, policy, rows, c);
    }
    CountWhereSplit(rows, (c: Change) => Counted(s, policy, c), (c: Change) => Inserted(s, policy, rows, c),
                    (c: Change) => c.op == D && c.row.key in s.base && Filtered(s, policy, rows, c));
  }

  /** The loop on the host and the statements on the lake decide alike. */
  lemma ForeignMergeMeetsSpec(s: Site, policy: Policy, rows: seq<Change>)
    requires DistinctKeys(rows)
    ensures ForeignMerge(s, policy, rows) == Resolved(s, policy, rows)
  {
    ForeignCounts(s, policy, rows);
    if ForeignMerge(s, policy, rows).Done? {
      var merged, foreign := MergedTable(s, policy, DeltaOf(rows)), ForeignMerge(s, policy, rows).table;
      forall k ensures (k in merged <==> k in foreign) && (k in merged ==> merged[k] == foreign[k]) {
        ForeignTable(s, policy, rows, k);
      }
      assert merged == foreign;
      ForeignChanged(s, policy, rows);
    }
  }

  /** Rows were inserted or deleted exactly when rows were applied. */
  lemma ForeignChanged(s: Site, policy: Policy, rows: seq<Change>)
    requires DistinctKeys(rows) && ForeignMerge(s, policy, rows).Done?
    ensures ForeignMerge(s, policy, rows).changed <==> ForeignMerge(s, policy, rows).applied > 0
  {
    var p := (c: Change) => Inserted(s, policy, rows, c);
    var hit := (c: Change) => c.op == D && c.row.key in s.base && Filtered(s, policy, rows, c);
    CountWhereAny(rows, p);
    CountWhereAny(rows, hit);
    var doomed := DoomedKeys(s, policy, rows);
    if k :| k in s.base && k in doomed {
      var c :| c in rows && (c.op != I || policy == Ours) && Filtered(s, policy, rows, c) && c.row.key == k;
      assert p(c) || hit(c);
    } else {
      assert s.base - doomed == s.base;
    }
    if c :| c in rows && hit(c) { assert c.row.key in doomed && c.row.key !in s.base - doomed; }
  }
}
