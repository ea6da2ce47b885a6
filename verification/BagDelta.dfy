/** The keyless (bag) delta changelog: rows have no identity but their value, so the delta
    records inserted and deleted copies with multiplicities and readers take the net. */
module BagDelta {

  datatype BagOp = Ins | Del
  datatype BagRow<T> = BagRow(op: BagOp, value: T, count: nat)

  function Copies<T>(v: T, n: nat): multiset<T> {
    multiset{}[v := n]
  }

  function Inserted<T>(delta: seq<BagRow<T>>): multiset<T> {
    if delta == [] then multiset{}
    else
      var r := delta[|delta| - 1];
      Inserted(delta[..|delta| - 1]) + if r.op == Ins then Copies(r.value, r.count) else multiset{}
  }

  function Deleted<T>(delta: seq<BagRow<T>>): multiset<T> {
    if delta == [] then multiset{}
    else
      var r := delta[|delta| - 1];
      Deleted(delta[..|delta| - 1]) + if r.op == Del then Copies(r.value, r.count) else multiset{}
  }

  function Signed<T(==)>(r: BagRow<T>, v: T): int {
    var n: int := r.count;
    if r.value != v then 0 else if r.op == Ins then n else -n
  }

  function Count<T(==)>(b: multiset<T>, v: T): int {
    b[v]
  }

  /** The signed sum a reader accumulates for one value. */
  function Net<T(==)>(delta: seq<BagRow<T>>, v: T): int {
    if delta == [] then 0
    else
      var r := delta[|delta| - 1];
      Net(delta[..|delta| - 1], v) + Signed(r, v)
  }

  lemma {:induction false} NetIsDifference<T>(delta: seq<BagRow<T>>, v: T)
    ensures Net(delta, v) == Count(Inserted(delta), v) - Count(Deleted(delta), v)
  {
    if delta != [] { NetIsDifference(delta[..|delta| - 1], v); }
  }

  /** The merged bag as the diff writes it: base UNION ALL inserted copies, EXCEPT ALL deleted
      copies, which is multiset difference (section 7.13 of ISO/IEC 9075-2:2003). */
  function BagView<T>(base: multiset<T>, delta: seq<BagRow<T>>): multiset<T> {
    base + Inserted(delta) - Deleted(delta)
  }

  function NatMax(a: int): nat {
    if a > 0 then a else 0
  }

  /** For every base and delta the merged bag holds max(0, base + net) copies of each value. */
  lemma ViewCount<T>(base: multiset<T>, delta: seq<BagRow<T>>, v: T)
    ensures BagView(base, delta)[v] == NatMax(Count(base, v) + Net(delta, v))
  {
    NetIsDifference(delta, v);
  }

  /** Every value nets out, or takes copies away where there are none. */
  ghost predicate BagIdle<T(!new)>(base: multiset<T>, delta: seq<BagRow<T>>) {
    forall v :: Net(delta, v) == 0 || (Net(delta, v) < 0 && base[v] == 0)
  }

  lemma BagViewIsBaseIffIdle<T(!new)>(base: multiset<T>, delta: seq<BagRow<T>>)
    ensures BagView(base, delta) == base <==> BagIdle(base, delta)
  {
    var view := BagView(base, delta);
    forall v ensures view[v] == NatMax(Count(base, v) + Net(delta, v)) { ViewCount(base, delta, v); }
    if BagIdle(base, delta) {
      forall v ensures view[v] == base[v] { assert Net(delta, v) == 0 || (Net(delta, v) < 0 && base[v] == 0); }
    }
  }

  /** No more copies are deleted than exist: net(v) >= -base(v) for every value. */
  ghost predicate BagInv<T(!new)>(base: multiset<T>, delta: seq<BagRow<T>>) {
    Deleted(delta) <= base + Inserted(delta)
  }

  lemma BagInvMeansNet<T(!new)>(base: multiset<T>, delta: seq<BagRow<T>>)
    ensures BagInv(base, delta) <==> forall v :: Net(delta, v) >= -Count(base, v)
  {
    forall v ensures Net(delta, v) == Count(Inserted(delta), v) - Count(Deleted(delta), v) {
      NetIsDifference(delta, v);
    }
    if forall v :: Net(delta, v) >= -Count(base, v) {
      forall v ensures Deleted(delta)[v] <= (base + Inserted(delta))[v] {
        assert Net(delta, v) >= -Count(base, v);
      }
    }
  }

  lemma {:induction false} DeltaConcat<T>(a: seq<BagRow<T>>, b: seq<BagRow<T>>)
    ensures Inserted(a + b) == Inserted(a) + Inserted(b)
    ensures Deleted(a + b) == Deleted(a) + Deleted(b)
  {
    if b == [] {
      assert a + b == a;
    } else {
      var n := |b| - 1;
      assert (a + b)[..|a + b| - 1] == a + b[..n];
      DeltaConcat(a, b[..n]);
    }
  }
}

/** The scan of a keyless scenario table. */
module BagScan {
  import opened BagDelta
  import opened Values
  import opened Sequences

  /** A scanned row: its physical row id, NULL for a delta row, and its value. */
  datatype Copy<T> = Copy(rowid: Option<nat>, value: T)

  /** How many copies of v a row sequence holds. */
  function Occ<T(==)>(s: seq<Copy<T>>, v: T): nat {
    if s == [] then 0 else Occ(s[..|s| - 1], v) + if s[|s| - 1].value == v then 1 else 0
  }

  function Budget<T(==)>(b: map<T, nat>, v: T): nat {
    if v in b then b[v] else 0
  }

  /** Swallows the first b(v) copies of each value, in scan order: a copy survives when at
      least b(v) copies of its value came before it. */
  function Keep<T(==)>(s: seq<Copy<T>>, b: map<T, nat>): seq<Copy<T>> {
    if s == [] then []
    else
      var init, c := s[..|s| - 1], s[|s| - 1];
      Keep(init, b) + if Occ(init, c.value) < Budget(b, c.value) then [] else [c]
  }

  lemma OccStep<T>(s: seq<Copy<T>>, c: Copy<T>, v: T)
    ensures Occ(s + [c], v) == Occ(s, v) + if c.value == v then 1 else 0
  {
    assert (s + [c])[..|s|] == s;
  }

  lemma KeepStep<T>(s: seq<Copy<T>>, c: Copy<T>, b: map<T, nat>)
    ensures Keep(s + [c], b) == Keep(s, b) + if Occ(s, c.value) < Budget(b, c.value) then [] else [c]
  {
    assert (s + [c])[..|s|] == s;
  }

  lemma {:induction false} OccConcat<T>(s: seq<Copy<T>>, t: seq<Copy<T>>, v: T)
    ensures Occ(s + t, v) == Occ(s, v) + Occ(t, v)
  {
    if t == [] {
      assert s + t == s;
    } else {
      var init, c := t[..|t| - 1], t[|t| - 1];
      OccConcat(s, init, v);
      assert s + t == (s + init) + [c];
      OccStep(s + init, c, v);
    }
  }

  lemma {:induction false} KeepCount<T>(s: seq<Copy<T>>, b: map<T, nat>, v: T)
    ensures Occ(Keep(s, b), v) == NatMax(Occ(s, v) - Budget(b, v))
  {
    if s != [] {
      var init, c := s[..|s| - 1], s[|s| - 1];
      KeepCount(init, b, v);
      if Occ(init, c.value) >= Budget(b, c.value) {
        OccStep(Keep(init, b), c, v);
      } else {
        assert Keep(s, b) == Keep(init, b);
      }
    }
  }

  /** A filter on values, evaluated row by row. */
  function FilterValues<T>(p: T -> bool, s: seq<Copy<T>>): seq<Copy<T>> {
    if s == [] then []
    else FilterValues(p, s[..|s| - 1]) + if p(s[|s| - 1].value) then [s[|s| - 1]] else []
  }

  lemma FilterValuesStep<T>(p: T -> bool, s: seq<Copy<T>>, c: Copy<T>)
    ensures FilterValues(p, s + [c]) == FilterValues(p, s) + if p(c.value) then [c] else []
  {
    assert (s + [c])[..|s|] == s;
  }

  lemma {:induction false} FilterValuesCount<T>(p: T -> bool, s: seq<Copy<T>>, v: T)
    ensures Occ(FilterValues(p, s), v) == if p(v) then Occ(s, v) else 0
  {
    if s != [] {
      var init, c := s[..|s| - 1], s[|s| - 1];
      FilterValuesCount(p, init, v);
      if p(c.value) {
        OccStep(FilterValues(p, init), c, v);
      } else {
        assert FilterValues(p, s) == FilterValues(p, init);
      }
    }
  }

  /** Filters on values may run in storage, before the budget: the same copies survive. */
  lemma {:induction false} ValueFilterCommutes<T>(p: T -> bool, s: seq<Copy<T>>, b: map<T, nat>)
    ensures Keep(FilterValues(p, s), b) == FilterValues(p, Keep(s, b))
  {
    if s != [] {
      var init, c := s[..|s| - 1], s[|s| - 1];
      ValueFilterCommutes(p, init, b);
      if p(c.value) {
        FilterValuesCount(p, init, c.value);
        KeepStep(FilterValues(p, init), c, b);
      } else {
        assert FilterValues(p, s) == FilterValues(p, init);
      }
      if Occ(init, c.value) >= Budget(b, c.value) {
        FilterValuesStep(p, Keep(init, b), c);
      } else {
        assert Keep(s, b) == Keep(init, b);
      }
    }
  }

  /** A row-id filter below the budget would pick which copy is swallowed: with copies at row
      ids 0, 1 and 2 and one deletion, the row at 1 is lost.  Hence such filters run after it. */
  lemma RowidFilterDoesNotCommute(v: int)
    ensures var a, b, c := Copy(Some(0), v), Copy(Some(1), v), Copy(Some(2), v);
            Keep([b], map[v := 1]) == [] && b in Keep([a, b, c], map[v := 1])
  {
    var a, b, c := Copy(Some(0), v), Copy(Some(1), v), Copy(Some(2), v);
    var budget := map[v := 1 as nat];
    assert [] + [b] == [b] && [] + [a] == [a] && [a] + [b] == [a, b] && [a, b] + [c] == [a, b, c];
    KeepStep([], b, budget);
    OccStep([], a, v);
    KeepStep([a], b, budget);
    KeepStep([a, b], c, budget);
  }

  class BagScanState<T(==,!new)> {
    /** Base copies still to be swallowed, per value. */
    var suppressBudget: map<T, nat>
    var nextRowno: nat
    ghost var budget: map<T, nat>
    ghost var scanned: seq<Copy<T>>

    ghost predicate Valid()
      reads this
    {
      && suppressBudget.Keys == budget.Keys
      && (forall v :: v in budget ==> suppressBudget[v] == NatMax(budget[v] - Occ(scanned, v)))
    }

    constructor ()
      ensures Valid() && budget == map[] && scanned == [] && nextRowno == 0
    {
      suppressBudget, nextRowno := map[], 0;
      budget, scanned := map[], [];
    }

    /** Aggregates the delta: positive nets become rows, negative nets the budget. */
    method InitBag(delta: seq<BagRow<T>>) returns (rows: seq<Copy<T>>)
      requires Valid() && scanned == []
      modifies this`suppressBudget, this`budget, this`nextRowno
      ensures Valid() && nextRowno == |rows| && forall i :: 0 <= i < |rows| ==> rows[i].rowid.None?
      ensures forall v :: Occ(rows, v) == NatMax(Net(delta, v))
      ensures forall v :: Budget(budget, v) == NatMax(-Net(delta, v))
    {
      var nets := Aggregate(delta);
      rows := PositiveNets(nets);
      suppressBudget := map v | v in nets && nets[v] < 0 :: -nets[v];
      budget := suppressBudget;
      nextRowno := |rows|;
      assert forall v :: Net(delta, v) == if v in nets then nets[v] else 0;
    }

    /** Swallows budgeted copies of one base chunk.  What is kept depends on the whole scan so
        far, not on where chunks begin.  The kept rows take the next row numbers. */
    method EmitBaseChunk(chunk: seq<Copy<T>>) returns (kept: seq<Copy<T>>, start: nat)
      requires Valid()
      modifies this`suppressBudget, this`nextRowno, this`scanned
      ensures Valid() && scanned == old(scanned) + chunk
      ensures Keep(scanned, budget) == Keep(old(scanned), budget) + kept
      ensures start == old(nextRowno) && nextRowno == start + |kept|
    {
      kept := [];
      for i := 0 to |chunk|
        invariant Valid() && scanned == old(scanned) + chunk[..i]
        invariant Keep(scanned, budget) == Keep(old(scanned), budget) + kept
        invariant nextRowno == old(nextRowno)
      {
        var c := chunk[i];
        assert old(scanned) + chunk[..i + 1] == scanned + [c];
        KeepStep(scanned, c, budget);
        var swallowed := Swallow(c);
        if !swallowed { kept := kept + [c]; }
      }
      assert chunk[..|chunk|] == chunk;
      start := nextRowno;
      nextRowno := nextRowno + |kept|;
    }

    method Swallow(c: Copy<T>) returns (swallowed: bool)
      requires Valid()
      modifies this`suppressBudget, this`scanned
      ensures Valid() && scanned == old(scanned) + [c]
      ensures swallowed <==> Occ(old(scanned), c.value) < Budget(budget, c.value)
    {
      swallowed := c.value in suppressBudget && suppressBudget[c.value] > 0;
      forall v ensures Occ(scanned + [c], v) == Occ(scanned, v) + if c.value == v then 1 else 0 {
        OccStep(scanned, c, v);
      }
      if swallowed {
        suppressBudget := suppressBudget[c.value := suppressBudget[c.value] - 1];
      }
      scanned := scanned + [c];
    }
  }

  /** The counter after a series of range requests. */
  function CounterAfter(first: nat, requests: seq<nat>): nat {
    if requests == [] then first else CounterAfter(first, requests[..|requests| - 1]) + requests[|requests| - 1]
  }

  lemma {:induction false} CounterGrows(first: nat, requests: seq<nat>, i: nat)
    requires i <= |requests|
    ensures first <= CounterAfter(first, requests[..i]) <= CounterAfter(first, requests)
  {
    if i == |requests| {
      assert requests[..i] == requests;
      if i > 0 { CounterGrows(first, requests[..i - 1], 0); }
    } else {
      CounterGrows(first, requests[..|requests| - 1], i);
      assert requests[..|requests| - 1][..i] == requests[..i];
    }
  }

  /** Row numbers never repeat within a scan: delta rows take 0 to first - 1, and however the
      threads interleave their requests, request i's range lies below request j's. */
  lemma RownosAreDistinct(first: nat, requests: seq<nat>, i: nat, j: nat, x: nat, y: nat)
    requires i < j < |requests| && x < requests[i] && y < requests[j]
    ensures first <= CounterAfter(first, requests[..i]) + x < CounterAfter(first, requests[..j]) + y
  {
    CounterGrows(first, requests[..i], 0);
    CounterGrows(first, requests[..j], i + 1);
    assert requests[..j][..i + 1] == requests[..i + 1] && requests[..i + 1][..i] == requests[..i];
    assert requests[..i][..0] == [];
  }

  method Aggregate<T(==,!new)>(delta: seq<BagRow<T>>) returns (nets: map<T, int>)
    ensures forall v :: v in nets ==> nets[v] == Net(delta, v)
    ensures forall v :: v !in nets ==> Net(delta, v) == 0
  {
    nets := map[];
    for i := 0 to |delta|
      invariant forall v :: v in nets ==> nets[v] == Net(delta[..i], v)
      invariant forall v :: v !in nets ==> Net(delta[..i], v) == 0
    {
      assert delta[..i + 1][..i] == delta[..i];
      var r := delta[i];
      var before := if r.value in nets then nets[r.value] else 0;
      nets := nets[r.value := before + Signed(r, r.value)];
    }
    assert delta[..|delta|] == delta;
  }

  /** Copies that the scan makes up itself: rows of the delta have no base row id. */
  function Repeat<T>(v: T, n: nat): (s: seq<Copy<T>>)
    ensures |s| == n && forall i :: 0 <= i < n ==> s[i].rowid.None? && s[i].value == v
  {
    if n == 0 then [] else Repeat(v, n - 1) + [Copy(None, v)]
  }

  lemma {:induction false} RepeatCount<T>(v: T, n: nat, w: T)
    ensures Occ(Repeat(v, n), w) == if v == w then n else 0
  {
    if n > 0 {
      RepeatCount(v, n - 1, w);
      OccStep(Repeat(v, n - 1), Copy(None, v), w);
    }
  }

  /** The rows emitted for positive nets, in whatever order the aggregation table lists them. */
  method PositiveNets<T(==,!new)>(nets: map<T, int>) returns (rows: seq<Copy<T>>)
    ensures forall v :: Occ(rows, v) == if v in nets then NatMax(nets[v]) else 0
    ensures forall i :: 0 <= i < |rows| ==> rows[i].rowid.None?
  {
    rows := [];
    var rest := nets.Keys;
    while rest != {}
      invariant rest <= nets.Keys
      invariant forall v :: Occ(rows, v) == if v in nets && v !in rest then NatMax(nets[v]) else 0
      invariant forall i :: 0 <= i < |rows| ==> rows[i].rowid.None?
      decreases rest
    {
      var v :| v in rest;
      var more := Repeat(v, NatMax(nets[v]));
      forall w ensures Occ(rows + more, w) == Occ(rows, w) + if v == w then NatMax(nets[v]) else 0 {
        OccConcat(rows, more, w);
        RepeatCount(v, NatMax(nets[v]), w);
      }
      rows := rows + more;
      rest := rest - {v};
    }
  }

  lemma Reassociate<T>(a: seq<T>, b: seq<T>, c: seq<T>)
    ensures a + b + c == a + (b + c)
  {
  }

  /** The whole scan: for any split of the base into chunks it yields exactly
      max(0, base(v) + net(v)) copies of each value, and swallows the first base copies. */
  method ScanBag<T(==,!new)>(delta: seq<BagRow<T>>, chunks: seq<seq<Copy<T>>>)
    returns (out: seq<Copy<T>>, ghost rows: seq<Copy<T>>, ghost budget: map<T, nat>)
    ensures out == rows + Keep(Flatten(chunks), budget) && forall i :: 0 <= i < |rows| ==> rows[i].rowid.None?
    ensures forall v :: Budget(budget, v) == NatMax(-Net(delta, v))
    ensures forall v :: Occ(out, v) == NatMax(Occ(Flatten(chunks), v) + Net(delta, v))
  {
    var state := new BagScanState<T>();
    out := state.InitBag(delta);
    rows, budget := out, state.budget;
    for i := 0 to |chunks|
      invariant fresh(state) && state.Valid() && state.budget == budget
      invariant state.scanned == Flatten(chunks[..i]) && out == rows + Keep(Flatten(chunks[..i]), budget)
    {
      assert chunks[..i + 1][..i] == chunks[..i];
      var kept, start := state.EmitBaseChunk(chunks[i]);
      Reassociate(rows, Keep(Flatten(chunks[..i]), budget), kept);
      out := out + kept;
    }
    assert chunks[..|chunks|] == chunks;
    ScanCounts(delta, rows, Flatten(chunks), budget);
  }

  lemma ScanCounts<T(!new)>(delta: seq<BagRow<T>>, rows: seq<Copy<T>>, base: seq<Copy<T>>, budget: map<T, nat>)
    requires forall v :: Occ(rows, v) == NatMax(Net(delta, v))
    requires forall v :: Budget(budget, v) == NatMax(-Net(delta, v))
    ensures forall v :: Occ(rows + Keep(base, budget), v) == NatMax(Occ(base, v) + Net(delta, v))
  {
    forall v ensures Occ(rows + Keep(base, budget), v) == NatMax(Occ(base, v) + Net(delta, v)) {
      OccConcat(rows, Keep(base, budget), v);
      KeepCount(base, budget, v);
    }
  }

  /** The bag a row sequence lists. */
  function Bag<T>(s: seq<Copy<T>>): multiset<T> {
    if s == [] then multiset{} else Bag(s[..|s| - 1]) + multiset{s[|s| - 1].value}
  }

  lemma {:induction false} BagCount<T>(s: seq<Copy<T>>, v: T)
    ensures Bag(s)[v] == Occ(s, v)
  {
    if s != [] { BagCount(s[..|s| - 1], v); }
  }

  lemma SameCounts<T(!new)>(a: multiset<T>, b: multiset<T>)
    requires forall v :: a[v] == b[v]
    ensures a == b
  {
  }

  lemma ViewAtValue<T>(b: multiset<T>, delta: seq<BagRow<T>>, v: T, n: int)
    requires Count(b, v) == n
    ensures BagView(b, delta)[v] == NatMax(n + Net(delta, v))
  {
    ViewCount(b, delta, v);
  }

  /** The scan and the relation the diff writes with EXCEPT ALL are the same bag, for every
      base and delta. */
  lemma ScanIsExceptAll<T(!new)>(delta: seq<BagRow<T>>, base: seq<Copy<T>>, out: seq<Copy<T>>)
    requires forall v :: Occ(out, v) == NatMax(Occ(base, v) + Net(delta, v))
    ensures Bag(out) == BagView(Bag(base), delta)
  {
    var view := BagView(Bag(base), delta);
    forall v ensures Bag(out)[v] == view[v] {
      assert Occ(out, v) == NatMax(Occ(base, v) + Net(delta, v));
      BagCount(out, v);
      BagCount(base, v);
      ViewAtValue(Bag(base), delta, v, Occ(base, v));
    }
    SameCounts(Bag(out), view);
  }
}
