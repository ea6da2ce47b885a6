/** scenario_diff of a keyed table: the delta-only form, the generic form over two merged
    relations, and the summary counts. */
module Diff {
  import opened Values
  import opened KeyedDelta
  import opened KeyedMerge

  /** One output row; col is a non-key column. */
  datatype DiffRow =
    | Added(key: Key)
    | Removed(key: Key)
    | Modified(key: Key, col: nat, before: Value, after: Value)

  /** A row of the generic diff: only in b, only in a, or a differing column of both. */
  predicate InGeneric(width: nat, a: Table, b: Table, r: DiffRow) {
    match r
    case Added(k) => k in b && k !in a
    case Removed(k) => k in a && k !in b
    case Modified(k, col, x, y) => k in a && k in b && col < width && x == At(a[k], col) && y == At(b[k], col) && x != y
  }

  /** A row of the two-argument diff: an I row, a D row, or a differing column of a U row
      joined with the base. */
  predicate InDelta(width: nat, base: Table, delta: Delta, r: DiffRow) {
    match r
    case Added(k) => k in delta && delta[k].op == I
    case Removed(k) => k in delta && delta[k].op == D
    case Modified(k, col, x, y) =>
      k in delta && delta[k].op == U && k in base && col < width &&
      x == At(base[k], col) && y == At(delta[k].row, col) && x != y
  }

  ghost function GenericDiff(width: nat, a: Table, b: Table): iset<DiffRow> {
    iset r: DiffRow | InGeneric(width, a, b, r)
  }

  ghost function DeltaDiff(width: nat, base: Table, delta: Delta): iset<DiffRow> {
    iset r: DiffRow | InDelta(width, base, delta, r)
  }

  lemma DiffRowAgrees(width: nat, base: Table, delta: Delta, r: DiffRow)
    requires Inv(base, delta)
    ensures r in DeltaDiff(width, base, delta) <==> r in GenericDiff(width, base, View(base, delta))
  {
    var k := r.key;
    assert k in View(base, delta) <==> Visible(delta, k) || (k in base && !Suppressed(delta, k));
  }

  /** The delta is the diff exactly when I keys are new to the base and U and D keys are in it. */
  lemma DeltaIsTheDiff(width: nat, base: Table, delta: Delta)
    requires WellKeyed(base) && OwnKeys(delta)
    ensures DeltaDiff(width, base, delta) == GenericDiff(width, base, View(base, delta)) <==> Inv(base, delta)
  {
    var d, g := DeltaDiff(width, base, delta), GenericDiff(width, base, View(base, delta));
    if Inv(base, delta) {
      forall r: DiffRow ensures r in d <==> r in g { DiffRowAgrees(width, base, delta, r); }
    } else {
      var k :| k in delta && !(delta[k].op == I <==> k !in base);
      assert Added(k) in d <==> delta[k].op == I;
      assert Removed(k) in d <==> delta[k].op == D;
      if delta[k].op == D {
        assert Removed(k) !in g;
      } else {
        assert !(Added(k) in d <==> Added(k) in g);
      }
    }
  }

  function Swapped(r: DiffRow): DiffRow {
    match r
    case Added(k) => Removed(k)
    case Removed(k) => Added(k)
    case Modified(k, col, x, y) => Modified(k, col, y, x)
  }

  /** Swapping the sides swaps added with removed and old with new, and nothing else. */
  lemma SwapSides(width: nat, a: Table, b: Table, r: DiffRow)
    ensures r in GenericDiff(width, a, b) <==> Swapped(r) in GenericDiff(width, b, a)
    ensures Swapped(Swapped(r)) == r
  {
  }

  /** Same non-key columns, up to width. */
  predicate SameRow(width: nat, a: Row, b: Row) {
    !Differs(width, a, b)
  }

  /** A diff loses nothing but the columns of added rows, of which it lists only the keys: two
      tables with the same diff against a have the same keys, and the same columns on every
      key of a. */
  lemma DiffDetermines(width: nat, a: Table, b: Table, c: Table)
    requires GenericDiff(width, a, b) == GenericDiff(width, a, c)
    ensures b.Keys == c.Keys && forall k :: k in b && k in a ==> SameRow(width, b[k], c[k])
  {
    var g := GenericDiff(width, a, b);
    forall k ensures k in b <==> k in c {
      assert Added(k) in g <==> Added(k) in GenericDiff(width, a, c);
      assert Removed(k) in g <==> Removed(k) in GenericDiff(width, a, c);
    }
    forall k, i: nat | k in b && k in a && i < width ensures At(b[k], i) == At(c[k], i) {
      var x := At(a[k], i);
      assert Modified(k, i, x, At(b[k], i)) in g <==> x != At(b[k], i);
      assert Modified(k, i, x, At(b[k], i)) in GenericDiff(width, a, c) <==>
        x != At(b[k], i)
        && At(b[k], i) == At(c[k], i);
      assert Modified(k, i, x, At(c[k], i)) in GenericDiff(width, a, c) <==> x != At(c[k], i);
      assert Modified(k, i, x, At(c[k], i)) in g <==> x != At(c[k], i) && At(b[k], i) == At(c[k], i);
    }
  }

  // ----- the summary -----

  function KeysWith(delta: Delta, op: Op): set<Key> {
    set k | k in delta && delta[k].op == op
  }

  /** count(*) FILTER (_op = ...) per op. */
  datatype Summary = Summary(added: nat, modified: nat, removed: nat)

  function Summarize(delta: Delta): Summary {
    Summary(|KeysWith(delta, I)|, |KeysWith(delta, U)|, |KeysWith(delta, D)|)
  }

  /** The summary counts the keys that the view gained and those that it lost. */
  lemma SummaryCountsKeys(base: Table, delta: Delta)
    requires Inv(base, delta)
    ensures Summarize(delta).added == |View(base, delta).Keys - base.Keys|
    ensures Summarize(delta).removed == |base.Keys - View(base, delta).Keys|
  {
    GainedAndLost(base, delta);
  }

  lemma GainedAndLost(base: Table, delta: Delta)
    requires Inv(base, delta)
    ensures View(base, delta).Keys - base.Keys == KeysWith(delta, I)
    ensures base.Keys - View(base, delta).Keys == KeysWith(delta, D)
  {
  }

  /** So it accounts for the change in size. */
  lemma SummaryCountsRows(base: Table, delta: Delta)
    requires Inv(base, delta)
    ensures |View(base, delta)| - |base| == Summarize(delta).added - Summarize(delta).removed
  {
    var view, news, gone := View(base, delta), KeysWith(delta, I), KeysWith(delta, D);
    ViewKeys(base, delta);
    SizeStep(base.Keys, gone, news);
    assert |view.Keys| == |view| && |base.Keys| == |base|;
  }

  lemma ViewKeys(base: Table, delta: Delta)
    requires Inv(base, delta)
    ensures View(base, delta).Keys == (base.Keys - KeysWith(delta, D)) + KeysWith(delta, I)
    ensures KeysWith(delta, D) <= base.Keys && KeysWith(delta, I) !! base.Keys
  {
    var right := (base.Keys - KeysWith(delta, D)) + KeysWith(delta, I);
    forall k ensures k in View(base, delta).Keys <==> k in right {}
  }

  lemma SizeStep<T>(all: set<T>, gone: set<T>, news: set<T>)
    requires gone <= all && news !! all
    ensures |(all - gone) + news| == |all| - |gone| + |news|
  {
  }

  function ModifiedKeys(width: nat, base: Table, delta: Delta): set<Key> {
    set k | k in delta && delta[k].op == U && k in base && Differs(width, base[k], delta[k].row)
  }

  /** A key has 'modified' rows in the diff exactly when it is one of these; the summary counts
      every U row, so it agrees with the diff exactly when every U row changes some column. */
  lemma SummaryCountsModified(width: nat, base: Table, delta: Delta)
    requires Inv(base, delta)
    ensures forall k :: k in ModifiedKeys(width, base, delta) <==>
                        exists col: nat, x, y :: Modified(k, col, x, y) in DeltaDiff(width, base, delta)
    ensures |ModifiedKeys(width, base, delta)| <= Summarize(delta).modified
    ensures |ModifiedKeys(width, base, delta)| == Summarize(delta).modified <==>
            forall k :: k in delta && delta[k].op == U ==> Differs(width, base[k], delta[k].row)
  {
    var keys, all := ModifiedKeys(width, base, delta), KeysWith(delta, U);
    forall k ensures k in keys <==> exists col: nat, x, y :: Modified(k, col, x, y) in DeltaDiff(width, base, delta) {
      if k in keys {
        var i :| 0 <= i < width && At(base[k], i) != At(delta[k].row, i);
        assert Modified(k, i, At(base[k], i), At(delta[k].row, i)) in DeltaDiff(width, base, delta);
      }
    }
    assert keys <= all;
    SubsetSize(keys, all);
    if forall k :: k in delta && delta[k].op == U ==> Differs(width, base[k], delta[k].row) {
      forall k | k in all ensures k in keys {}
    }
    if keys == all {
      forall k | k in delta && delta[k].op == U ensures Differs(width, base[k], delta[k].row) { assert k in all; }
    }
  }

  lemma SubsetSize<T>(a: set<T>, b: set<T>)
    requires a <= b
    ensures |a| <= |b| && (|a| == |b| <==> a == b)
  {
    assert b == a + (b - a);
  }
}

/** scenario_diff of a keyless table. */
module BagDiff {
  import opened BagDelta
  import opened BagScan
  import opened BagMerge
  import opened BagMergeExecute

  /** Copies the delta-only form lists: the positive and the negative nets. */
  ghost function NetAdded<T(!new)>(delta: seq<BagRow<T>>): T -> nat {
    v => NatMax(Net(delta, v))
  }

  ghost function NetRemoved<T(!new)>(delta: seq<BagRow<T>>): T -> nat {
    v => NatMax(-Net(delta, v))
  }

  /** Removing and adding what the generic form lists turns one side into the other, and no
      smaller pair of bags does. */
  lemma DiffIsExact<T>(a: multiset<T>, b: multiset<T>)
    ensures a - (a - b) + (b - a) == b
    ensures (a - b) * (b - a) == multiset{}
    ensures forall removed: multiset<T>, added: multiset<T> ::
              removed <= a && a - removed + added == b
              ==> a - b <= removed && b - a <= added
  {
    forall removed: multiset<T>, added: multiset<T> | removed <= a && a - removed + added == b
      ensures a - b <= removed && b - a <= added
    {
      SmallestDiff(a, b, removed, added);
    }
  }

  lemma SmallestDiff<T>(a: multiset<T>, b: multiset<T>, removed: multiset<T>, added: multiset<T>)
    requires removed <= a && a - removed + added == b
    ensures a - b <= removed && b - a <= added
  {
    assert forall v :: b[v] == a[v] - removed[v] + added[v];
  }

  ghost function AddedBag<T(!new)>(delta: seq<BagRow<T>>): multiset<T> {
    BagOf(ValuesOf(delta), NetAdded(delta))
  }

  ghost function RemovedBag<T(!new)>(delta: seq<BagRow<T>>): multiset<T> {
    BagOf(ValuesOf(delta), NetRemoved(delta))
  }

  lemma NetBags<T(!new)>(delta: seq<BagRow<T>>, v: T)
    ensures AddedBag(delta)[v] == NatMax(Net(delta, v)) && RemovedBag(delta)[v] == NatMax(-Net(delta, v))
  {
    BagOfCount(ValuesOf(delta), NetAdded(delta), v);
    BagOfCount(ValuesOf(delta), NetRemoved(delta), v);
    NetOutside(delta, v);
  }

  /** For every base and delta, taking the copies that the delta-only diff lists as removed out
      of the base and putting those it lists as added in gives the merged bag; the removed ones
      are all there exactly when the invariant holds. */
  lemma DeltaDiffApplies<T(!new)>(base: multiset<T>, delta: seq<BagRow<T>>)
    ensures base - RemovedBag(delta) + AddedBag(delta) == BagView(base, delta)
    ensures RemovedBag(delta) <= base <==> BagInv(base, delta)
    ensures RemovedBag(delta) * AddedBag(delta) == multiset{}
  {
    forall v ensures (base - RemovedBag(delta) + AddedBag(delta))[v] == BagView(base, delta)[v] {
      AppliedAtValue(base, delta, v);
    }
    RemovedFitsIff(base, delta);
    forall v ensures (RemovedBag(delta) * AddedBag(delta))[v] == 0 { NetBags(delta, v); }
  }

  lemma AppliedAtValue<T(!new)>(base: multiset<T>, delta: seq<BagRow<T>>, v: T)
    ensures (base - RemovedBag(delta) + AddedBag(delta))[v] == BagView(base, delta)[v]
  {
    NetBags(delta, v);
    ViewCount(base, delta, v);
    TakeThenAdd(base, RemovedBag(delta), AddedBag(delta), v);
  }

  lemma TakeThenAdd<T>(base: multiset<T>, removed: multiset<T>, added: multiset<T>, v: T)
    ensures Count(base - removed + added, v) == NatMax(Count(base, v) - Count(removed, v)) + Count(added, v)
  {
  }

  lemma RemovedFitsIff<T(!new)>(base: multiset<T>, delta: seq<BagRow<T>>)
    ensures RemovedBag(delta) <= base <==> BagInv(base, delta)
  {
    BagInvMeansNet(base, delta);
    forall v ensures RemovedBag(delta)[v] <= base[v] <==> Net(delta, v) >= -Count(base, v) { NetBags(delta, v); }
  }

  /** The nets are the bag difference of base and merged bag exactly when no value is deleted
      more often than it exists. */
  lemma NetsAreTheDiff<T(!new)>(base: multiset<T>, delta: seq<BagRow<T>>)
    ensures var view := BagView(base, delta);
            (forall v :: NetAdded(delta)(v) == (view - base)[v] && NetRemoved(delta)(v) == (base - view)[v])
                <==> BagInv(base, delta)
  {
    var view := BagView(base, delta);
    BagInvMeansNet(base, delta);
    forall v ensures (NetAdded(delta)(v) == (view - base)[v] && NetRemoved(delta)(v) == (base - view)[v])
      <==> Net(delta, v) >= -Count(base, v)
    {
      ViewCount(base, delta, v);
    }
  }

  ghost function CountIn<T(!new)>(b: multiset<T>): T -> nat {
    v => b[v]
  }

  lemma {:induction false} SizeIsSum<T(!new)>(b: multiset<T>, values: set<T>)
    requires forall v :: v in b ==> v in values
    ensures |b| == Sum(values, CountIn(b))
    decreases |b|
  {
    if b == multiset{} {
      SumNothing(values, CountIn(b));
    } else {
      var v :| v in b;
      SizeIsSum(b - multiset{v}, values);
      SumOneMore(values, v, CountIn(b - multiset{v}), CountIn(b));
    }
  }

  lemma {:induction false} ValueCovered<T>(delta: seq<BagRow<T>>, v: T)
    requires v in Inserted(delta) || v in Deleted(delta)
    ensures v in ValuesOf(delta)
  {
    var n := |delta| - 1;
    assert delta == delta[..n] + [delta[n]];
    if v != delta[n].value { ValueCovered(delta[..n], v); }
  }

  lemma {:induction false} SumBoth<T>(values: set<T>, a: T -> nat, b: T -> nat, c: T -> nat, d: T -> nat)
    requires forall v :: v in values ==> a(v) + b(v) == c(v) + d(v)
    ensures Sum(values, a) + Sum(values, b) == Sum(values, c) + Sum(values, d)
  {
    if v :| v in values {
      SumWithout(values, v, a);
      SumWithout(values, v, b);
      SumWithout(values, v, c);
      SumWithout(values, v, d);
      SumBoth(values - {v}, a, b, c, d);
    }
  }

  /** rows_added minus rows_removed of the summary is the change in size of the merged bag. */
  lemma BagSummaryCountsRows<T(!new)>(base: multiset<T>, delta: seq<BagRow<T>>)
    requires BagInv(base, delta)
    ensures |BagView(base, delta)| - |base| ==
            Sum(ValuesOf(delta), NetAdded(delta)) - Sum(ValuesOf(delta), NetRemoved(delta))
  {
    var values := ValuesOf(delta);
    forall v | v in Inserted(delta) || v in Deleted(delta) ensures v in values { ValueCovered(delta, v); }
    SizeIsSum(Inserted(delta), values);
    SizeIsSum(Deleted(delta), values);
    forall v ensures NetAdded(delta)(v) + CountIn(Deleted(delta))(v)
      == NetRemoved(delta)(v) + CountIn(Inserted(delta))(v)
    {
      NetIsDifference(delta, v);
    }
    SumBoth(values, NetAdded(delta), CountIn(Deleted(delta)), NetRemoved(delta), CountIn(Inserted(delta)));
    SizesBalance(base, Inserted(delta), Deleted(delta));
  }

  lemma SizesBalance<T>(base: multiset<T>, ins: multiset<T>, del: multiset<T>)
    requires del <= base + ins
    ensures |base + ins - del| == |base| + |ins| - |del|
  {
    var all := base + ins;
    var left := all - del;
    assert left + del == all;
    assert |left + del| == |left| + |del|;
    assert |all| == |base| + |ins|;
  }

  /** Each side of the summary counts the copies that the merged bag gained, or lost. */
  lemma BagSummaryCountsCopies<T(!new)>(base: multiset<T>, delta: seq<BagRow<T>>)
    requires BagInv(base, delta)
    ensures Sum(ValuesOf(delta), NetAdded(delta)) == |BagView(base, delta) - base|
    ensures Sum(ValuesOf(delta), NetRemoved(delta)) == |base - BagView(base, delta)|
  {
    var view := BagView(base, delta);
    NetsAreTheDiff(base, delta);
    forall v ensures AddedBag(delta)[v] == (view - base)[v] && RemovedBag(delta)[v] == (base - view)[v] {
      NetBags(delta, v);
      assert NetAdded(delta)(v) == (view - base)[v] && NetRemoved(delta)(v) == (base - view)[v];
    }
    assert AddedBag(delta) == view - base && RemovedBag(delta) == base - view;
    BagOfSize(ValuesOf(delta), NetAdded(delta));
    BagOfSize(ValuesOf(delta), NetRemoved(delta));
  }
}
