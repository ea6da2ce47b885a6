/** When the unique indexes of a host base let a merge pass: exactly when the rows it writes
    hold no values of rows it leaves.  The preview does not look at that. */
module KeyedMergeUnique {
  import opened Values
  import opened KeyedDelta
  import opened KeyedConstraints
  import opened KeyedUnique
  import opened KeyedMerge

  /** The merge writes the scenario's row of k. */
  predicate Writes(s: Site, policy: Policy, delta: Delta, k: Key) {
    Visible(delta, k) && Applies(s, policy, delta[k])
  }

  /** The merge leaves the base's row of k as it is. */
  predicate Leaves(s: Site, policy: Policy, delta: Delta, k: Key) {
    k in s.base && !(k in delta && Applies(s, policy, delta[k]))
  }

  ghost predicate DistinctWrites(u: Constraint, s: Site, policy: Policy, delta: Delta) {
    forall j, k :: Writes(s, policy, delta, j) && Writes(s, policy, delta, k) && j != k
        ==> !Clash(u, delta[j].row, delta[k].row)
  }

  /** No row that stays in the base holds the values of a written one. */
  ghost predicate NoHolder(u: Constraint, s: Site, policy: Policy, delta: Delta) {
    forall k, b :: Writes(s, policy, delta, k) && Leaves(s, policy, delta, b) ==> !Clash(u, delta[k].row, s.base[b])
  }

  lemma MergedIsUniqueIff(u: Constraint, s: Site, policy: Policy, delta: Delta)
    requires UniqueTable(u, s.base)
    ensures UniqueTable(u, MergedTable(s, policy, delta)) <==>
              DistinctWrites(u, s, policy, delta)
              && NoHolder(u, s, policy, delta)
  {
    var merged := MergedTable(s, policy, delta);
    forall k ensures k in merged <==> Writes(s, policy, delta, k) || Leaves(s, policy, delta, k) {}
    if UniqueTable(u, merged) {
      forall j, k | Writes(s, policy, delta, j) && Writes(s, policy, delta, k) && j != k
        ensures !Clash(u, delta[j].row, delta[k].row)
      {
        assert merged[j] == delta[j].row && merged[k] == delta[k].row;
      }
      forall k, b | Writes(s, policy, delta, k) && Leaves(s, policy, delta, b)
        ensures !Clash(u, delta[k].row, s.base[b])
      {
        assert merged[k] == delta[k].row && merged[b] == s.base[b] && k != b;
      }
    }
    if DistinctWrites(u, s, policy, delta) && NoHolder(u, s, policy, delta) {
      forall j, k | j in merged && k in merged && j != k ensures !Clash(u, merged[j], merged[k]) {
        if Writes(s, policy, delta, j) && Leaves(s, policy, delta, k) { assert !Clash(u, delta[j].row, s.base[k]); }
        if Leaves(s, policy, delta, j) && Writes(s, policy, delta, k) { assert !Clash(u, delta[k].row, s.base[j]); }
      }
    }
  }

  lemma VisibleMeansDistinctWrites(u: Constraint, s: Site, policy: Policy, delta: Delta)
    requires UniqueVisible(u, delta)
    ensures DistinctWrites(u, s, policy, delta)
  {
  }

  /** The host's merge of a table whose base obeys its indexes, and whose visible delta rows do:
      it succeeds exactly when 'abort' meets no conflict and no row that stays in the base holds
      the values of a written one. */
  lemma MergeSucceedsIff(s: Site, policy: Policy, rows: seq<Change>)
    requires DistinctKeys(rows) && UniqueUnder(s.uniques, s.base) && forall u ::
               u in s.uniques
               ==> UniqueVisible(u, DeltaOf(rows))
    ensures Outcome(s, policy, rows).Done? <==>
            !(policy == Abort && AnyConflict(s, DeltaOf(rows))) && forall u ::
              u in s.uniques
              ==> NoHolder(u, s, policy, DeltaOf(rows))
  {
    RefusedIffConflict(s, policy, rows);
    forall u | u in s.uniques
      ensures UniqueTable(u, MergedTable(s, policy, DeltaOf(rows))) <==> NoHolder(u, s, policy, DeltaOf(rows))
    {
      MergedIsUniqueIff(u, s, policy, DeltaOf(rows));
      VisibleMeansDistinctWrites(u, s, policy, DeltaOf(rows));
    }
  }

  /** On an unmoved base it always succeeds: the statements kept the view unique. */
  lemma UnmovedMergeSucceeds(s: Site, policy: Policy, rows: seq<Change>)
    requires DistinctKeys(rows) && Unmoved(s, DeltaOf(rows)) && Clear(s.uniques, s.base, DeltaOf(rows))
    ensures Outcome(s, policy, rows).Done? && Outcome(s, policy, rows).table == View(s.base, DeltaOf(rows))
  {
    MergeOnUnmovedBase(s, None, DeltaOf(rows), policy);
    RefusedIffConflict(s, policy, rows);
  }

  /** A row that stays and holds the values of a written one makes the merge fail. */
  lemma HeldValueFails(s: Site, policy: Policy, rows: seq<Change>, u: Constraint, k: Key, b: Key)
    requires DistinctKeys(rows) && !(policy == Abort && AnyConflict(s, DeltaOf(rows)))
    requires u in s.uniques && UniqueTable(u, s.base)
    requires Writes(s, policy, DeltaOf(rows), k) && Leaves(s, policy, DeltaOf(rows), b)
             && Clash(u, DeltaOf(rows)[k].row, s.base[b])
    ensures Outcome(s, policy, rows) == Violated
  {
    MergedIsUniqueIff(u, s, policy, DeltaOf(rows));
    RefusedIffConflict(s, policy, rows);
  }

  /** When every row of the base is touched, 'ours' leaves none to stand in the way. */
  lemma OursReplacesAll(s: Site, rows: seq<Change>)
    requires DistinctKeys(rows) && UniqueUnder(s.uniques, s.base) && forall u ::
               u in s.uniques
               ==> UniqueVisible(u, DeltaOf(rows))
    requires s.base.Keys <= DeltaOf(rows).Keys
    ensures Outcome(s, Ours, rows).Done?
  {
    assert forall b :: !Leaves(s, Ours, DeltaOf(rows), b);
    MergeSucceedsIff(s, Ours, rows);
  }

  /** The scenario inserted (k, x); later the host inserted (h, x).  No key conflicts, the preview
      is clean, and the merge fails under every policy. */
  lemma HostTookTheValue(k: Key, h: Key, x: Value, policy: Policy)
    requires k != h && x != Null
    ensures var u, base, rows := [InPayload(0)], map[h := Row(h, [x])], [Change(I, Row(k, [x]))];
            var s := Site(base, None, 1, [u]);
            && DistinctKeys(rows) && Inv(base, DeltaOf(rows)) && UniqueTable(u, base) && UniqueDelta(u, DeltaOf(rows))
            && (forall c :: c in rows ==> !PreviewConflict(s, c))
            && Outcome(s, policy, rows) == Violated
  {
    var u, base, rows := [InPayload(0)], map[h := Row(h, [x])], [Change(I, Row(k, [x]))];
    var s := Site(base, None, 1, [u]);
    assert rows[..0] == [];
    assert DeltaOf(rows) == map[k := rows[0]];
    assert Cells(rows[0].row, u) == [x] == Cells(base[h], u);
    HeldValueFails(s, policy, rows, u, k, h);
  }

  /** A materialized scenario swapped x and y; then another column of k's row drifted in the base. */
  function SwapSite(j: Key, k: Key, x: Value, y: Value, a: Value, b: Value, c: Value): Site {
    Site(map[j := Row(j, [x, a]), k := Row(k, [y, c])], Some(map[j := Row(j, [x, a]), k := Row(k, [y, b])]), 2,
         [[InPayload(0)]])
  }

  function SwapRows(j: Key, k: Key, x: Value, y: Value, a: Value, b: Value): seq<Change> {
    [Change(U, Row(j, [y, a])), Change(U, Row(k, [x, b]))]
  }

  /** 'theirs' keeps that row and with it one half of the swap, which no longer fits. */
  lemma HalfASwapDoesNotFit(j: Key, k: Key, x: Value, y: Value, a: Value, b: Value, c: Value)
    requires j != k && x != y && x != Null && y != Null && b != c
    ensures var s, rows := SwapSite(j, k, x, y, a, b, c), SwapRows(j, k, x, y, a, b);
            && DistinctKeys(rows) && Inv(s.base, DeltaOf(rows))
            && UniqueTable([InPayload(0)], s.base) && UniqueDelta([InPayload(0)], DeltaOf(rows))
            && Outcome(s, Abort, rows) == Refused && Outcome(s, Theirs, rows) == Violated
                && Outcome(s, Ours, rows).Done?
  {
    var s, rows := SwapSite(j, k, x, y, a, b, c), SwapRows(j, k, x, y, a, b);
    SwapDelta(rows);
    SwapObeys(j, k, x, y, a, b, c);
    SwapConflicts(j, k, x, y, a, b, c);
    RefusedIffConflict(s, Abort, rows);
    SwapUnderTheirs(j, k, x, y, a, b, c);
    SwapUnderOurs(j, k, x, y, a, b, c);
    assert k in DeltaOf(rows) && DeltaOf(rows)[k] == rows[1];
  }

  lemma SwapDelta(rows: seq<Change>)
    requires |rows| == 2 && rows[0].row.key != rows[1].row.key
    ensures DistinctKeys(rows) && DeltaOf(rows) == map[rows[0].row.key := rows[0], rows[1].row.key := rows[1]]
  {
    assert rows[..1][..0] == [] && rows[..1] == [rows[0]];
    assert DeltaOf(rows[..1]) == map[rows[0].row.key := rows[0]];
  }

  lemma TwoRowsObey(u: Constraint, a: Row, b: Row)
    requires a.key != b.key && Cells(a, u) != Cells(b, u)
    ensures UniqueTable(u, map[a.key := a, b.key := b])
  {
  }

  lemma TwoChangesObey(u: Constraint, c: Change, d: Change)
    requires c.row.key != d.row.key && Cells(c.row, u) != Cells(d.row, u)
    ensures UniqueDelta(u, map[c.row.key := c, d.row.key := d]) && UniqueVisible(u, map[c.row.key := c, d.row.key := d])
  {
  }

  lemma SwapConflicts(j: Key, k: Key, x: Value, y: Value, a: Value, b: Value, c: Value)
    requires j != k && b != c
    ensures var s, rows := SwapSite(j, k, x, y, a, b, c), SwapRows(j, k, x, y, a, b);
            !Conflict(s, rows[0]) && Conflict(s, rows[1])
  {
    var s := SwapSite(j, k, x, y, a, b, c);
    assert At(s.snapshot.value[k], 1) != At(s.base[k], 1);
  }

  lemma SwapObeys(j: Key, k: Key, x: Value, y: Value, a: Value, b: Value, c: Value)
    requires j != k && x != y && b != c
    ensures var s, u, rows := SwapSite(j, k, x, y, a, b, c), [InPayload(0)], SwapRows(j, k, x, y, a, b);
            && Inv(s.base, DeltaOf(rows)) && UniqueTable(u, s.base) && UniqueDelta(u, DeltaOf(rows))
                && UniqueVisible(u, DeltaOf(rows))
            && DeltaOf(rows) == map[j := rows[0], k := rows[1]]
  {
    var s, u, rows := SwapSite(j, k, x, y, a, b, c), [InPayload(0)], SwapRows(j, k, x, y, a, b);
    SwapDelta(rows);
    assert Cells(s.base[j], u) == [x] && Cells(s.base[k], u) == [y];
    assert Cells(rows[0].row, u) == [y] && Cells(rows[1].row, u) == [x];
    TwoRowsObey(u, s.base[j], s.base[k]);
    TwoChangesObey(u, rows[0], rows[1]);
  }

  lemma SwapUnderTheirs(j: Key, k: Key, x: Value, y: Value, a: Value, b: Value, c: Value)
    requires j != k && x != y && y != Null && b != c
    ensures Outcome(SwapSite(j, k, x, y, a, b, c), Theirs, SwapRows(j, k, x, y, a, b)) == Violated
  {
    var s, u, rows := SwapSite(j, k, x, y, a, b, c), [InPayload(0)], SwapRows(j, k, x, y, a, b);
    SwapDelta(rows);
    SwapObeys(j, k, x, y, a, b, c);
    SwapConflicts(j, k, x, y, a, b, c);
    assert Cells(rows[0].row, u) == [y] == Cells(s.base[k], u);
    HeldValueFails(s, Theirs, rows, u, j, k);
  }

  lemma SwapUnderOurs(j: Key, k: Key, x: Value, y: Value, a: Value, b: Value, c: Value)
    requires j != k && x != y && b != c
    ensures Outcome(SwapSite(j, k, x, y, a, b, c), Ours, SwapRows(j, k, x, y, a, b)).Done?
  {
    SwapDelta(SwapRows(j, k, x, y, a, b));
    SwapObeys(j, k, x, y, a, b, c);
    OursReplacesAll(SwapSite(j, k, x, y, a, b, c), SwapRows(j, k, x, y, a, b));
  }
}

/** The same for keyless tables: the entries of an index are counted tuples. */
module BagMergeUnique {
  import opened Values
  import opened BagDelta
  import opened BagScan
  import opened BagUnique
  import opened KeyedMerge
  import opened BagMerge

  /** The entry of a row in the unique index over some columns. */
  function Entry(columns: seq<nat>): Tuple -> string {
    (row: Tuple) => TupleOf(columns, row)
  }

  /** Counting at most one copy per tuple is having no two rows with the same entry. */
  lemma CountingIsUniqueBy(columns: seq<nat>, b: multiset<Tuple>)
    ensures UniqueBag(columns, b) <==> UniqueBy(Entry(columns), b)
  {
    if UniqueBag(columns, b) {
      forall v, w | v in b && w in b - multiset{v} && Entry(columns)(v) != ""
        ensures Entry(columns)(v) != Entry(columns)(w)
      {
        if TupleOf(columns, v) == TupleOf(columns, w) { TwoCount(columns, b, v, w); }
      }
    }
    if t: string :| t != "" && TupleCount(columns, b, t) > 1 {
      var v, w := TwoRows(columns, b, t);
      assert Entry(columns)(v) == Entry(columns)(w) == t;
    }
  }

  ghost function Gone<T(!new)>(s: BagSite<T>, policy: Policy): multiset<T> {
    BagOf(ValuesOf(s.delta), Dels(s, policy))
  }

  ghost function Added<T(!new)>(s: BagSite<T>, policy: Policy): multiset<T> {
    BagOf(ValuesOf(s.delta), Adds(s, policy))
  }

  lemma MovedAt<T(!new)>(s: BagSite<T>, policy: Policy, v: T)
    requires policy == Abort ==> !BagDrifted(Look(s, v))
    ensures Gone(s, policy)[v] <= Bag(s.base)[v]
    ensures TargetBag(s, policy)[v] == (Bag(s.base) - Gone(s, policy) + Added(s, policy))[v]
  {
    BagOfCount(ValuesOf(s.delta), Dels(s, policy), v);
    BagOfCount(ValuesOf(s.delta), Adds(s, policy), v);
    NetOutside(s.delta, v);
    TargetBagCount(s, policy, v);
    BagCount(s.base, v);
    StepsAgree(policy, Look(s, v));
  }

  /** The merged bag is the base less what the merge deletes plus what it appends. */
  lemma TargetIsMoved<T(!new)>(s: BagSite<T>, policy: Policy)
    requires policy == Abort ==> !AnyDrift(s)
    ensures Gone(s, policy) <= Bag(s.base) && TargetBag(s, policy) == Bag(s.base) - Gone(s, policy) + Added(s, policy)
  {
    forall v ensures Gone(s, policy)[v] <= Bag(s.base)[v]
                     && TargetBag(s, policy)[v] == (Bag(s.base) - Gone(s, policy) + Added(s, policy))[v] {
      MovedAt(s, policy, v);
    }
  }

  // ----- what the report says, in terms of the copies alone -----

  /** How many copies of a value the base ends with: where the base lost or gained copies of a
      deleted value since the snapshot, 'ours' counts from the snapshot and the other policies
      leave the base alone; anywhere else the net is applied. */
  lemma TargetsAre<T(!new)>(s: BagSite<T>, policy: Policy, after: seq<Copy<T>>, v: T)
    requires AllReach(s, policy, after)
    ensures var net, now := Net(s.delta, v), Occ(s.base, v);
            var drifted := net < 0 && s.snapshot.Some? && now != Occ(s.snapshot.value, v);
            Occ(after, v) == if !drifted then (if now + net > 0 then now + net else 0)
                             else if policy != Ours then now
                             else if Occ(s.snapshot.value, v) + net > 0 then Occ(s.snapshot.value, v) + net else 0
  {
    assert Occ(after, v) == Target(policy, Look(s, v));
  }

  lemma GoneAndAddedAreApart<T(!new)>(s: BagSite<T>, policy: Policy, v: T)
    requires policy == Abort ==> !BagDrifted(Look(s, v))
    ensures Gone(s, policy)[v] == 0 || Added(s, policy)[v] == 0
  {
    BagOfCount(ValuesOf(s.delta), Dels(s, policy), v);
    BagOfCount(ValuesOf(s.delta), Adds(s, policy), v);
  }

  lemma MovedIsTheDifference<T(!new)>(s: BagSite<T>, policy: Policy)
    requires policy == Abort ==> !AnyDrift(s)
    ensures Gone(s, policy) == Bag(s.base) - TargetBag(s, policy)
    ensures Added(s, policy) == TargetBag(s, policy) - Bag(s.base)
  {
    TargetIsMoved(s, policy);
    forall v ensures Gone(s, policy)[v] == 0 || Added(s, policy)[v] == 0 { GoneAndAddedAreApart(s, policy, v); }
    ApartIsTheDifference(Bag(s.base), Gone(s, policy), Added(s, policy));
  }

  lemma ApartIsTheDifference<T>(base: multiset<T>, gone: multiset<T>, added: multiset<T>)
    requires gone <= base && forall v :: gone[v] == 0 || added[v] == 0
    ensures gone == base - (base - gone + added) && added == base - gone + added - base
  {
  }

  /** The report counts every value whose copies drifted once, and as deleted and inserted
      exactly the copies that the base lost and gained - so nothing is both. */
  lemma BagReportCountsCopies<T(!new)>(s: BagSite<T>, policy: Policy, after: seq<Copy<T>>) returns (drifted: set<T>)
    requires BagOutcome(s, policy).BagDone? && AllReach(s, policy, after)
    ensures forall v :: v in drifted <==>
              Net(s.delta, v) < 0 && s.snapshot.Some? && Occ(s.base, v) != Occ(s.snapshot.value, v)
    ensures BagOutcome(s, policy).conflicts == |drifted|
    ensures BagOutcome(s, policy).deleted == |Bag(s.base) - Bag(after)|
    ensures BagOutcome(s, policy).inserted == |Bag(after) - Bag(s.base)|
  {
    drifted := set v | v in ValuesOf(s.delta) && BagDrifted(Look(s, v));
    forall v ensures v in drifted <==> BagDrifted(Look(s, v)) { NetOutside(s.delta, v); }
    SumOfBits(ValuesOf(s.delta), Drifts(s), drifted);
    ReachedIsTargetBag(s, policy, after);
    MovedIsTheDifference(s, policy);
    BagOfSize(ValuesOf(s.delta), Dels(s, policy));
    BagOfSize(ValuesOf(s.delta), Adds(s, policy));
  }

  lemma MergedTupleCount(columns: seq<nat>, s: BagSite<Tuple>, policy: Policy, t: string)
    requires policy == Abort ==> !AnyDrift(s)
    ensures TupleCount(columns, TargetBag(s, policy), t) ==
            TupleCount(columns, Bag(s.base), t) - TupleCount(columns, Gone(s, policy), t)
                + TupleCount(columns, Added(s, policy), t)
  {
    TargetIsMoved(s, policy);
    CountSubtract(columns, Bag(s.base), Gone(s, policy), t);
    CountAdd(columns, Bag(s.base) - Gone(s, policy), Added(s, policy), t);
  }

  /** For every tuple: the copies that stay plus the copies appended are at most one. */
  ghost predicate TuplesFit(columns: seq<nat>, s: BagSite<Tuple>, policy: Policy) {
    forall t :: t != "" ==>
      TupleCount(columns, Bag(s.base), t) - TupleCount(columns, Gone(s, policy), t)
          + TupleCount(columns, Added(s, policy), t) <= 1
  }

  lemma FitMeansUnique(columns: seq<nat>, s: BagSite<Tuple>, policy: Policy)
    requires policy == Abort ==> !AnyDrift(s)
    ensures TuplesFit(columns, s, policy) <==> UniqueBy(Entry(columns), TargetBag(s, policy))
  {
    CountingIsUniqueBy(columns, TargetBag(s, policy));
    forall t ensures TupleCount(columns, TargetBag(s, policy), t) ==
                     TupleCount(columns, Bag(s.base), t) - TupleCount(columns, Gone(s, policy), t)
                         + TupleCount(columns, Added(s, policy), t) {
      MergedTupleCount(columns, s, policy, t);
    }
  }

  lemma FitMeansAllUnique(s: BagSite<Tuple>, policy: Policy, columns: seq<seq<nat>>)
    requires |s.indexes| == |columns| && forall i :: 0 <= i < |columns| ==> s.indexes[i] == Entry(columns[i])
    requires policy == Abort ==> !AnyDrift(s)
    ensures (forall i :: 0 <= i < |columns| ==> TuplesFit(columns[i], s, policy))
            <==> UniqueByAll(s.indexes, TargetBag(s, policy))
  {
    forall i | 0 <= i < |columns|
      ensures TuplesFit(columns[i], s, policy) <==> UniqueBy(s.indexes[i], TargetBag(s, policy))
    {
      FitMeansUnique(columns[i], s, policy);
    }
  }

  /** The host's merge of a keyless table succeeds exactly when 'abort' meets no drifted value and
      every tuple of every index fits. */
  lemma BagMergeSucceedsIff(s: BagSite<Tuple>, policy: Policy, columns: seq<seq<nat>>)
    requires |s.indexes| == |columns| && forall i :: 0 <= i < |columns| ==> s.indexes[i] == Entry(columns[i])
    ensures BagOutcome(s, policy).BagDone? <==>
            !(policy == Abort && AnyDrift(s)) && forall i :: 0 <= i < |columns| ==> TuplesFit(columns[i], s, policy)
  {
    if !(policy == Abort && AnyDrift(s)) { FitMeansAllUnique(s, policy, columns); }
  }

  /** On a base that did not move the merge succeeds: the statements kept the view unique. */
  lemma UnmovedBagMergeSucceeds<T(!new)>(s: BagSite<T>, policy: Policy)
    requires s.snapshot.Some? ==> Bag(s.snapshot.value) == Bag(s.base)
    requires UniqueByAll(s.indexes, BagView(Bag(s.base), s.delta))
    ensures BagOutcome(s, policy).BagDone? && TargetBag(s, policy) == BagView(Bag(s.base), s.delta)
  {
    UnmovedMeansNoDrift(s);
    TargetIsView(s, policy);
  }

  lemma OneCopyOneRow(v: Tuple, w: Tuple)
    ensures Bag([Copy(Some(0), w)]) == multiset{w}
    ensures BagDelta.Inserted([BagRow(Ins, v, 1)]) == multiset{v} && BagDelta.Deleted([BagRow(Ins, v, 1)]) == multiset{}
  {
    assert [Copy(Some(0), w)][..0] == [] && [BagRow(Ins, v, 1)][..0] == [];
  }

  lemma TwoWithOneEntry(e: Tuple -> string, v: Tuple, w: Tuple)
    requires e(v) == e(w) != ""
    ensures UniqueBy(e, multiset{w}) && !UniqueBy(e, multiset{w} + multiset{v})
  {
    var both := multiset{w} + multiset{v};
    assert both - multiset{v} == multiset{w};
    assert v in both && w in both - multiset{v};
  }

  /** The scenario inserted v; later the host inserted w with the same entry.  The preview flags
      nothing and the merge fails under every policy. */
  lemma HostTookTheTuple(columns: seq<nat>, v: Tuple, w: Tuple, policy: Policy)
    requires TupleOf(columns, v) == TupleOf(columns, w) != ""
    ensures var s := BagSite([Copy(Some(0), w)], None, [BagRow(Ins, v, 1)], [Entry(columns)]);
            && UniqueByAll(s.indexes, Bag(s.base)) && BagInv(Bag(s.base), s.delta)
            && (forall x :: PreviewCopies(s, x) > 0 ==> !PreviewFlag(s, x))
            && BagOutcome(s, policy) == BagViolated
  {
    var s := BagSite([Copy(Some(0), w)], None, [BagRow(Ins, v, 1)], [Entry(columns)]);
    OneCopyOneRow(v, w);
    TwoWithOneEntry(Entry(columns), v, w);
    TargetIsView(s, policy);
    assert s.indexes[0] == Entry(columns);
    assert TargetBag(s, policy) == multiset{w} + multiset{v};
  }
}
