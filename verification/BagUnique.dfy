/** Secondary UNIQUE constraints of a keyless scenario table.  A bag delta cannot mirror an
    index, so the sink counts tuples on the merged bag. */
module BagUnique {
  import opened Values
  import opened BagDelta
  import KeyCodec

  datatype Tuple = Tuple(values: seq<Value>)

  function Cell(row: Tuple, c: nat): Value {
    if c < |row.values| then row.values[c] else Null
  }

  /** The values of one unique index in a row. */
  function Cells(u: seq<nat>, row: Tuple): seq<Value> {
    if u == [] then [] else Cells(u[..|u| - 1], row) + [Cell(row, u[|u| - 1])]
  }

  /** Their encoding; "" when one of them is NULL. */
  function TupleOf(u: seq<nat>, row: Tuple): string {
    if Null in Cells(u, row) then "" else KeyCodec.Key(Cells(u, row))
  }

  lemma {:induction false} CellsPrefix(u: seq<nat>, row: Tuple, c: nat)
    requires c <= |u|
    ensures Cells(u[..c], row) <= Cells(u, row)
    decreases |u|
  {
    if c == |u| {
      assert u[..c] == u;
    } else {
      CellsPrefix(u[..|u| - 1], row, c);
      assert u[..|u| - 1][..c] == u[..c];
    }
  }

  method ComputeTuple(u: seq<nat>, row: Tuple) returns (key: string)
    ensures key == TupleOf(u, row)
  {
    key := "";
    for c := 0 to |u|
      invariant Null !in Cells(u[..c], row) && key == KeyCodec.Key(Cells(u[..c], row))
    {
      assert u[..c + 1][..c] == u[..c];
      var value := Cell(row, u[c]);
      if value.Null? {
        CellsPrefix(u, row, c + 1);
        assert Null in Cells(u[..c + 1], row);
        return "";
      }
      KeyCodec.KeyOfOneMore(Cells(u[..c], row), value);
      key := key + KeyCodec.EncodeValue(value);
    }
    assert u[..|u|] == u;
  }

  /** Encoded tuples tell NULL-free tuples apart, and none of them is "". */
  lemma TupleMeansValues(u: seq<nat>, a: Tuple, b: Tuple)
    requires u != []
    ensures TupleOf(u, a) == "" <==> Null in Cells(u, a)
    ensures TupleOf(u, a) != "" ==> (TupleOf(u, a) == TupleOf(u, b) <==> Cells(u, a) == Cells(u, b))
  {
    var x, y := Cells(u, a), Cells(u, b);
    if KeyCodec.Key(x) == "" { KeyCodec.KeyIsInjective(x, []); }
    if KeyCodec.Key(x) == KeyCodec.Key(y) { KeyCodec.KeyIsInjective(x, y); }
  }

  lemma {:induction false} CellsAt(u: seq<nat>, row: Tuple)
    ensures |Cells(u, row)| == |u|
    ensures forall i :: 0 <= i < |u| ==> Cells(u, row)[i] == if u[i] < |row.values| then row.values[u[i]] else Null
  {
    if u != [] { CellsAt(u[..|u| - 1], row); }
  }

  /** Two rows share a tuple of an index when they hold the same value, and no NULL, in each of
      its columns. */
  lemma SharedTupleMeans(u: seq<nat>, a: Tuple, b: Tuple)
    requires u != []
    ensures TupleOf(u, a) != "" && TupleOf(u, a) == TupleOf(u, b) <==>
            forall c :: c in u ==> c < |a.values| && c < |b.values| && a.values[c] == b.values[c] && a.values[c] != Null
  {
    TupleMeansValues(u, a, b);
    CellsAt(u, a);
    CellsAt(u, b);
    var x, y := Cells(u, a), Cells(u, b);
    if Null !in x && x == y {
      forall c | c in u ensures c < |a.values| && c < |b.values| && a.values[c] == b.values[c] && a.values[c] != Null {
        var i :| 0 <= i < |u| && u[i] == c;
        assert x[i] == y[i] && x[i] in x;
      }
    }
    if forall c :: c in u ==> c < |a.values| && c < |b.values| && a.values[c] == b.values[c] && a.values[c] != Null {
      forall i | 0 <= i < |u| ensures x[i] == y[i] && x[i] != Null { assert u[i] in u; }
    }
  }

  function One(u: seq<nat>, v: Tuple, t: string): nat {
    if TupleOf(u, v) == t then 1 else 0
  }

  /** How many rows of a bag hold tuple t. */
  ghost function TupleCount(u: seq<nat>, b: multiset<Tuple>, t: string): nat
    decreases |b|
  {
    if b == multiset{} then 0
    else
      var v :| v in b;
      One(u, v, t) + TupleCount(u, b - multiset{v}, t)
  }

  lemma Swap(b: multiset<Tuple>, v: Tuple, p: Tuple)
    requires p in b
    ensures (b + multiset{v}) - multiset{p} == (b - multiset{p}) + multiset{v}
    ensures b == (b - multiset{p}) + multiset{p}
  {
  }

  lemma Cancel(b: multiset<Tuple>, v: Tuple)
    ensures (b + multiset{v}) - multiset{v} == b
  {
  }

  lemma {:induction false} CountAddOne(u: seq<nat>, b: multiset<Tuple>, v: Tuple, t: string)
    ensures TupleCount(u, b + multiset{v}, t) == TupleCount(u, b, t) + One(u, v, t)
    decreases |b|
  {
    var c := b + multiset{v};
    var p :| p in c && TupleCount(u, c, t) == One(u, p, t) + TupleCount(u, c - multiset{p}, t);
    if p == v {
      Cancel(b, v);
    } else {
      Swap(b, v, p);
      CountAddOne(u, b - multiset{p}, v, t);
      CountAddOne(u, b - multiset{p}, p, t);
    }
  }

  lemma AddOneRight(a: multiset<Tuple>, b: multiset<Tuple>, v: Tuple)
    requires v in b
    ensures a + b == (a + (b - multiset{v})) + multiset{v} && b == (b - multiset{v}) + multiset{v}
  {
  }

  lemma {:induction false} CountAdd(u: seq<nat>, a: multiset<Tuple>, b: multiset<Tuple>, t: string)
    ensures TupleCount(u, a + b, t) == TupleCount(u, a, t) + TupleCount(u, b, t)
    decreases |b|
  {
    if b == multiset{} {
      assert a + b == a;
    } else {
      var v :| v in b;
      var c := b - multiset{v};
      AddOneRight(a, b, v);
      CountAdd(u, a, c, t);
      CountAddOne(u, c, v, t);
      CountAddOne(u, a + c, v, t);
    }
  }

  lemma CountSubtract(u: seq<nat>, a: multiset<Tuple>, b: multiset<Tuple>, t: string)
    requires b <= a
    ensures TupleCount(u, a - b, t) == TupleCount(u, a, t) - TupleCount(u, b, t)
  {
    assert a == (a - b) + b;
    CountAdd(u, a - b, b, t);
  }

  lemma OneMoreCopy(v: Tuple, n: nat)
    ensures Copies(v, 0) == multiset{} && Copies(v, n + 1) == Copies(v, n) + multiset{v}
  {
  }

  lemma {:induction false} CountCopies(u: seq<nat>, v: Tuple, n: nat, t: string)
    ensures TupleCount(u, Copies(v, n), t) == if TupleOf(u, v) == t then n else 0
  {
    if n == 0 {
      OneMoreCopy(v, 0);
    } else {
      OneMoreCopy(v, n - 1);
      CountCopies(u, v, n - 1, t);
      CountAddOne(u, Copies(v, n - 1), v, t);
    }
  }

  /** Every NULL-free tuple is held at most once. */
  ghost predicate UniqueBag(u: seq<nat>, b: multiset<Tuple>) {
    forall t :: t != "" ==> TupleCount(u, b, t) <= 1
  }

  ghost predicate TwoAgree(u: seq<nat>, b: multiset<Tuple>, v: Tuple, w: Tuple) {
    v in b && w in b - multiset{v} && Null !in Cells(u, v) && Cells(u, v) == Cells(u, w)
  }

  /** That is: no two rows agree on a NULL-free tuple. */
  lemma UniqueMeansNoTwoRows(u: seq<nat>, b: multiset<Tuple>)
    requires u != []
    ensures UniqueBag(u, b) <==> forall v, w :: !TwoAgree(u, b, v, w)
  {
    if v, w :| TwoAgree(u, b, v, w) {
      TwoCount(u, b, v, w);
      TupleMeansValues(u, v, w);
    }
    if t: string :| t != "" && TupleCount(u, b, t) > 1 {
      var v, w := TwoRows(u, b, t);
      TupleMeansValues(u, v, w);
      assert TwoAgree(u, b, v, w);
    }
  }

  lemma TwoCount(u: seq<nat>, b: multiset<Tuple>, v: Tuple, w: Tuple)
    requires v in b && w in b - multiset{v} && TupleOf(u, v) == TupleOf(u, w)
    ensures TupleCount(u, b, TupleOf(u, v)) > 1
  {
    var t := TupleOf(u, v);
    Swap(b, v, v);
    CountAddOne(u, b - multiset{v}, v, t);
    Swap(b - multiset{v}, w, w);
    CountAddOne(u, b - multiset{v} - multiset{w}, w, t);
  }

  lemma {:induction false} OneRow(u: seq<nat>, b: multiset<Tuple>, t: string) returns (v: Tuple)
    requires TupleCount(u, b, t) > 0
    ensures v in b && TupleOf(u, v) == t
    decreases |b|
  {
    v :| v in b;
    if TupleOf(u, v) != t {
      Swap(b, v, v);
      CountAddOne(u, b - multiset{v}, v, t);
      v := OneRow(u, b - multiset{v}, t);
    }
  }

  lemma TwoRows(u: seq<nat>, b: multiset<Tuple>, t: string) returns (v: Tuple, w: Tuple)
    requires TupleCount(u, b, t) > 1
    ensures v in b && w in b - multiset{v} && TupleOf(u, v) == t && TupleOf(u, w) == t
  {
    v := OneRow(u, b, t);
    Swap(b, v, v);
    CountAddOne(u, b - multiset{v}, v, t);
    w := OneRow(u, b - multiset{v}, t);
  }

  // ----- counting in row order -----

  function Held(u: seq<nat>, rows: seq<Tuple>, t: string): nat {
    if rows == [] then 0 else Held(u, rows[..|rows| - 1], t) + One(u, rows[|rows| - 1], t)
  }

  lemma HeldStep(u: seq<nat>, rows: seq<Tuple>, i: nat)
    requires i < |rows|
    ensures rows[..i + 1][..i] == rows[..i]
    ensures forall t :: Held(u, rows[..i + 1], t) == Held(u, rows[..i], t) + One(u, rows[i], t)
  {
    assert rows[..i + 1][..i] == rows[..i];
  }

  lemma LastIn(rows: seq<Tuple>)
    requires rows != []
    ensures multiset(rows) == multiset(rows[..|rows| - 1]) + multiset{rows[|rows| - 1]}
  {
    assert rows == rows[..|rows| - 1] + [rows[|rows| - 1]];
  }

  lemma {:induction false} HeldIsCount(u: seq<nat>, rows: seq<Tuple>, t: string)
    ensures TupleCount(u, multiset(rows), t) == Held(u, rows, t)
  {
    if rows != [] {
      var n := |rows| - 1;
      HeldIsCount(u, rows[..n], t);
      LastIn(rows);
      CountAddOne(u, multiset(rows[..n]), rows[n], t);
    }
  }

  function SignedTuple(u: seq<nat>, r: BagRow<Tuple>, t: string): int {
    var n: int := r.count;
    if TupleOf(u, r.value) != t then 0 else if r.op == Ins then n else -n
  }

  /** Inserted minus deleted copies per tuple. */
  function NetTuple(u: seq<nat>, delta: seq<BagRow<Tuple>>, t: string): int {
    if delta == [] then 0 else NetTuple(u, delta[..|delta| - 1], t) + SignedTuple(u, delta[|delta| - 1], t)
  }

  lemma CountSide(u: seq<nat>, b: multiset<Tuple>, r: BagRow<Tuple>, counted: bool, t: string)
    ensures TupleCount(u, b + if counted then Copies(r.value, r.count) else multiset{}, t) ==
            TupleCount(u, b, t) + if counted && TupleOf(u, r.value) == t then r.count else 0
  {
    CountCopies(u, r.value, r.count, t);
    CountAdd(u, b, if counted then Copies(r.value, r.count) else multiset{}, t);
  }

  lemma {:induction false} NetTupleIsDifference(u: seq<nat>, delta: seq<BagRow<Tuple>>, t: string)
    ensures NetTuple(u, delta, t) == TupleCount(u, Inserted(delta), t) - TupleCount(u, Deleted(delta), t)
  {
    if delta != [] {
      var init, r := delta[..|delta| - 1], delta[|delta| - 1];
      NetTupleIsDifference(u, init, t);
      CountSide(u, Inserted(init), r, r.op == Ins, t);
      CountSide(u, Deleted(init), r, r.op == Del, t);
    }
  }

  /** The merged bag's tuple counts, as the probe adds them up. */
  lemma ViewTupleCount(u: seq<nat>, base: multiset<Tuple>, delta: seq<BagRow<Tuple>>, t: string)
    requires BagInv(base, delta)
    ensures TupleCount(u, BagView(base, delta), t) == TupleCount(u, base, t) + NetTuple(u, delta, t)
  {
    NetTupleIsDifference(u, delta, t);
    CountAdd(u, base, Inserted(delta), t);
    CountSubtract(u, base + Inserted(delta), Deleted(delta), t);
  }

  // ----- the probe -----

  function Tuples(u: seq<nat>, rows: seq<Tuple>): seq<string> {
    if rows == [] then [] else Tuples(u, rows[..|rows| - 1]) + [TupleOf(u, rows[|rows| - 1])]
  }

  /** The NULL-free tuples of the rows. */
  function TuplesOf(u: seq<nat>, rows: seq<Tuple>): (r: set<string>)
    ensures "" !in r
  {
    if rows == [] then {}
    else
      var t := TupleOf(u, rows[|rows| - 1]);
      TuplesOf(u, rows[..|rows| - 1]) + if t == "" then {} else {t}
  }

  lemma {:induction false} TupleAt(u: seq<nat>, rows: seq<Tuple>, i: nat)
    requires i < |rows|
    ensures |Tuples(u, rows)| == |rows| && Tuples(u, rows)[i] == TupleOf(u, rows[i])
    ensures TupleOf(u, rows[i]) != "" ==> TupleOf(u, rows[i]) in TuplesOf(u, rows)
  {
    if i < |rows| - 1 { TupleAt(u, rows[..|rows| - 1], i); }
    else if i > 0 { TupleAt(u, rows[..|rows| - 1], i - 1); }
  }

  function Enter(net: map<string, int>, t: string): (r: map<string, int>)
    ensures r.Keys == net.Keys + if t == "" then {} else {t}
    ensures forall s :: s in r ==> r[s] == if s in net then net[s] else 0
  {
    if t != "" && t !in net then net[t := 0] else net
  }

  function Bump(net: map<string, int>, t: string, more: int): (r: map<string, int>)
    ensures r.Keys == net.Keys
    ensures forall s :: s in r ==> r[s] == net[s] + if s == t then more else 0
  {
    if t in net then net[t := net[t] + more] else net
  }

  ghost predicate AllZero(net: map<string, int>) {
    forall t :: t in net ==> net[t] == 0
  }

  /** Candidate tuples of the new rows. */
  method Candidates(u: seq<nat>, rows: seq<Tuple>) returns (tuples: seq<string>, net: map<string, int>)
    ensures tuples == Tuples(u, rows) && net.Keys == TuplesOf(u, rows) && AllZero(net)
  {
    tuples, net := [], map[];
    for i := 0 to |rows|
      invariant tuples == Tuples(u, rows[..i]) && net.Keys == TuplesOf(u, rows[..i]) && AllZero(net)
    {
      assert rows[..i + 1][..i] == rows[..i];
      var t := ComputeTuple(u, rows[i]);
      tuples := tuples + [t];
      net := Enter(net, t);
    }
    assert rows[..|rows|] == rows;
  }

  /** The scenario side: net copies per candidate, flushed rows and pending deletes. */
  method ScenarioSide(u: seq<nat>, delta: seq<BagRow<Tuple>>, pending: seq<Tuple>, candidates: map<string, int>)
    returns (net: map<string, int>)
    requires AllZero(candidates)
    ensures net.Keys == candidates.Keys
    ensures forall t :: t in net ==> net[t] == NetTuple(u, delta, t) - Held(u, pending, t)
  {
    var flushed := CountFlushed(u, delta, candidates);
    net := DiscountPending(u, pending, flushed);
  }

  method CountFlushed(u: seq<nat>, delta: seq<BagRow<Tuple>>, candidates: map<string, int>)
      returns (net: map<string, int>)
    requires AllZero(candidates)
    ensures net.Keys == candidates.Keys
    ensures forall t :: t in net ==> net[t] == NetTuple(u, delta, t)
  {
    net := candidates;
    for i := 0 to |delta|
      invariant net.Keys == candidates.Keys
      invariant forall t :: t in net ==> net[t] == NetTuple(u, delta[..i], t)
    {
      assert delta[..i + 1][..i] == delta[..i];
      var t := ComputeTuple(u, delta[i].value);
      net := Bump(net, t, SignedTuple(u, delta[i], t));
    }
    assert delta[..|delta|] == delta;
  }

  method DiscountPending(u: seq<nat>, pending: seq<Tuple>, flushed: map<string, int>) returns (net: map<string, int>)
    ensures net.Keys == flushed.Keys
    ensures forall t :: t in net ==> net[t] == flushed[t] - Held(u, pending, t)
  {
    net := flushed;
    for i := 0 to |pending|
      invariant net.Keys == flushed.Keys
      invariant forall t :: t in net ==> net[t] == flushed[t] - Held(u, pending[..i], t)
    {
      assert pending[..i + 1][..i] == pending[..i];
      var t := ComputeTuple(u, pending[i]);
      net := Bump(net, t, -1);
    }
    assert pending[..|pending|] == pending;
  }

  /** The base side: which rows collide with the base's unique index.  One probe of the whole
      chunk settles the common case; only when it throws is each row probed alone. */
  method BaseSide(index: set<string>, tuples: seq<string>) returns (inBase: seq<bool>)
    ensures |inBase| == |tuples|
    ensures forall i :: 0 <= i < |tuples| ==> (inBase[i] <==> tuples[i] != "" && tuples[i] in index)
  {
    var collision := exists i :: 0 <= i < |tuples| && tuples[i] != "" && tuples[i] in index;
    inBase := seq(|tuples|, _ => false);
    if collision {
      for i := 0 to |tuples|
        invariant |inBase| == |tuples|
        invariant forall j :: 0 <= j < i ==> (inBase[j] <==> tuples[j] != "" && tuples[j] in index)
        invariant forall j :: i <= j < |tuples| ==> !inBase[j]
      {
        if tuples[i] != "" && tuples[i] in index { inBase := inBase[i := true]; }
      }
    }
  }

  function Bit(b: bool): int {
    if b then 1 else 0
  }

  /** Copies of a tuple the merged bag holds once the pending rows are gone. */
  function Standing(u: seq<nat>, index: set<string>, delta: seq<BagRow<Tuple>>, pending: seq<Tuple>, t: string): int {
    Bit(t in index) + NetTuple(u, delta, t) - Held(u, pending, t)
  }

  /** The row finds its tuple absent from the merged bag and from the rows added before it. */
  predicate Fits(u: seq<nat>, index: set<string>, delta: seq<BagRow<Tuple>>, pending: seq<Tuple>, earlier: seq<Tuple>,
                 row: Tuple) {
    var t := TupleOf(u, row);
    t == "" || Standing(u, index, delta, pending, t) + Held(u, earlier, t) <= 0
  }

  predicate AllFit(u: seq<nat>, index: set<string>, delta: seq<BagRow<Tuple>>, pending: seq<Tuple>, rows: seq<Tuple>) {
    rows == [] ||
    (AllFit(u, index, delta, pending, rows[..|rows| - 1])
        && Fits(u, index, delta, pending, rows[..|rows| - 1], rows[|rows| - 1]))
  }

  lemma {:induction false} AllFitPrefix(u: seq<nat>, index: set<string>, delta: seq<BagRow<Tuple>>,
                                        pending: seq<Tuple>, rows: seq<Tuple>, i: nat)
    requires i < |rows| && AllFit(u, index, delta, pending, rows)
    ensures Fits(u, index, delta, pending, rows[..i], rows[i])
  {
    if i < |rows| - 1 {
      AllFitPrefix(u, index, delta, pending, rows[..|rows| - 1], i);
      assert rows[..|rows| - 1][..i] == rows[..i];
    }
  }

  lemma {:induction false} NothingToCheck(u: seq<nat>, index: set<string>, delta: seq<BagRow<Tuple>>,
                                          pending: seq<Tuple>, rows: seq<Tuple>)
    requires TuplesOf(u, rows) == {}
    ensures AllFit(u, index, delta, pending, rows)
  {
    if rows != [] {
      NothingToCheck(u, index, delta, pending, rows[..|rows| - 1]);
      TupleAt(u, rows, |rows| - 1);
    }
  }

  method ProbeIndex(u: seq<nat>, index: set<string>, delta: seq<BagRow<Tuple>>, pending: seq<Tuple>, rows: seq<Tuple>)
    returns (ok: bool)
    ensures ok <==> AllFit(u, index, delta, pending, rows)
  {
    var tuples, net := Candidates(u, rows);
    if net == map[] {
      NothingToCheck(u, index, delta, pending, rows);
      return true;
    }
    net := ScenarioSide(u, delta, pending, net);
    if |rows| > 0 { TupleAt(u, rows, 0); }
    var inBase := BaseSide(index, tuples);
    ok := CheckRows(u, index, delta, pending, rows, tuples, inBase, net);
  }

  /** Each row needs its tuple to be absent, counting the rows of this chunk before it. */
  method CheckRows(u: seq<nat>, index: set<string>, ghost delta: seq<BagRow<Tuple>>, ghost pending: seq<Tuple>,
                   rows: seq<Tuple>, tuples: seq<string>, inBase: seq<bool>, net: map<string, int>)
    returns (ok: bool)
    requires tuples == Tuples(u, rows) && |inBase| == |tuples| == |rows|
    requires forall i :: 0 <= i < |tuples| ==> (inBase[i] <==> tuples[i] != "" && tuples[i] in index)
    requires net.Keys == TuplesOf(u, rows)
    requires forall t :: t in net ==> net[t] == NetTuple(u, delta, t) - Held(u, pending, t)
    ensures ok <==> AllFit(u, index, delta, pending, rows)
  {
    var held := net;
    for i := 0 to |rows|
      invariant held.Keys == net.Keys && AllFit(u, index, delta, pending, rows[..i])
      invariant forall t :: t in held ==> held[t] == net[t] + Held(u, rows[..i], t)
    {
      TupleAt(u, rows, i);
      var t := tuples[i];
      if t != "" {
        assert held[t] == net[t] + Held(u, rows[..i], t);
        if Bit(inBase[i]) + held[t] > 0 {
          if AllFit(u, index, delta, pending, rows) { AllFitPrefix(u, index, delta, pending, rows, i); }
          return false;
        }
        held := Bump(held, t, 1);
      }
      HeldStep(u, rows, i);
    }
    assert rows[..|rows|] == rows;
    return true;
  }

  /** The base's own unique index: the NULL-free tuples of the base, each held once. */
  ghost predicate Indexes(index: set<string>, u: seq<nat>, base: multiset<Tuple>) {
    forall t :: t != "" ==> TupleCount(u, base, t) == Bit(t in index)
  }

  /** The merged bag once the chunk's deletes and inserts are in the delta. */
  function After(base: multiset<Tuple>, delta: seq<BagRow<Tuple>>, pending: seq<Tuple>,
                 rows: seq<Tuple>): multiset<Tuple> {
    BagView(base, delta) - multiset(pending) + multiset(rows)
  }

  lemma AfterCount(u: seq<nat>, index: set<string>, base: multiset<Tuple>, delta: seq<BagRow<Tuple>>,
                   pending: seq<Tuple>, rows: seq<Tuple>, t: string)
    requires BagInv(base, delta) && multiset(pending) <= BagView(base, delta)
    requires Indexes(index, u, base) && t != ""
    ensures TupleCount(u, After(base, delta, pending, rows), t)
            == Standing(u, index, delta, pending, t) + Held(u, rows, t)
    ensures 0 <= Standing(u, index, delta, pending, t) <= TupleCount(u, BagView(base, delta), t)
  {
    ViewTupleCount(u, base, delta, t);
    CountSubtract(u, BagView(base, delta), multiset(pending), t);
    HeldIsCount(u, pending, t);
    HeldIsCount(u, rows, t);
    CountAdd(u, BagView(base, delta) - multiset(pending), multiset(rows), t);
  }

  lemma {:induction false} HeldGrows(u: seq<nat>, rows: seq<Tuple>, i: nat, t: string)
    requires i <= |rows|
    ensures Held(u, rows[..i], t) <= Held(u, rows, t)
    decreases |rows|
  {
    if i == |rows| {
      assert rows[..i] == rows;
    } else {
      HeldGrows(u, rows[..|rows| - 1], i, t);
      assert rows[..|rows| - 1][..i] == rows[..i];
    }
  }

  lemma {:induction false} LastHolder(u: seq<nat>, rows: seq<Tuple>, t: string) returns (i: nat)
    requires Held(u, rows, t) > 0
    ensures i < |rows| && TupleOf(u, rows[i]) == t && Held(u, rows[..i], t) == Held(u, rows, t) - 1
  {
    i := |rows| - 1;
    if TupleOf(u, rows[i]) != t {
      i := LastHolder(u, rows[..|rows| - 1], t);
      assert rows[..|rows| - 1][..i] == rows[..i];
    }
  }

  lemma HolderCounts(u: seq<nat>, rows: seq<Tuple>, i: nat)
    requires i < |rows|
    ensures Held(u, rows[..i], TupleOf(u, rows[i])) + 1 <= Held(u, rows, TupleOf(u, rows[i]))
  {
    HeldStep(u, rows, i);
    HeldGrows(u, rows, i + 1, TupleOf(u, rows[i]));
  }

  /** Checking rows one by one accepts a chunk exactly when the merged bag stays unique. */
  lemma ProbeIsExact(u: seq<nat>, index: set<string>, base: multiset<Tuple>, delta: seq<BagRow<Tuple>>,
                     pending: seq<Tuple>, rows: seq<Tuple>)
    requires BagInv(base, delta) && multiset(pending) <= BagView(base, delta)
    requires Indexes(index, u, base) && UniqueBag(u, BagView(base, delta))
    ensures AllFit(u, index, delta, pending, rows) <==> UniqueBag(u, After(base, delta, pending, rows))
  {
    var after := After(base, delta, pending, rows);
    if UniqueBag(u, after) { UniqueFits(u, index, base, delta, pending, rows, |rows|); }
    assert rows[..|rows|] == rows;
    if t: string :| t != "" && TupleCount(u, after, t) > 1 {
      AfterCount(u, index, base, delta, pending, rows, t);
      assert TupleCount(u, BagView(base, delta), t) <= 1;
      var i := LastHolder(u, rows, t);
      if AllFit(u, index, delta, pending, rows) { AllFitPrefix(u, index, delta, pending, rows, i); }
    }
  }

  lemma {:induction false} UniqueFits(u: seq<nat>, index: set<string>, base: multiset<Tuple>,
                                      delta: seq<BagRow<Tuple>>, pending: seq<Tuple>, rows: seq<Tuple>, i: nat)
    requires BagInv(base, delta) && multiset(pending) <= BagView(base, delta) && Indexes(index, u, base)
    requires i <= |rows| && UniqueBag(u, After(base, delta, pending, rows))
    ensures AllFit(u, index, delta, pending, rows[..i])
  {
    if i > 0 {
      UniqueFits(u, index, base, delta, pending, rows, i - 1);
      assert rows[..i][..i - 1] == rows[..i - 1];
      var t := TupleOf(u, rows[i - 1]);
      if t != "" {
        AfterCount(u, index, base, delta, pending, rows, t);
        HolderCounts(u, rows, i - 1);
      }
    }
  }

  /** A unique index: its columns and the tuples the base holds. */
  datatype Index = Index(columns: seq<nat>, tuples: set<string>)

  /** The index belongs to the base, and the merged bag obeys it so far. */
  ghost predicate Obeyed(x: Index, base: multiset<Tuple>, delta: seq<BagRow<Tuple>>) {
    Indexes(x.tuples, x.columns, base) && UniqueBag(x.columns, BagView(base, delta))
  }

  ghost predicate Stays(x: Index, base: multiset<Tuple>, delta: seq<BagRow<Tuple>>, pending: seq<Tuple>,
                        rows: seq<Tuple>) {
    UniqueBag(x.columns, After(base, delta, pending, rows))
  }

  ghost predicate AllStay(indexes: seq<Index>, base: multiset<Tuple>, delta: seq<BagRow<Tuple>>, pending: seq<Tuple>,
                          rows: seq<Tuple>) {
    indexes == [] ||
    (AllStay(indexes[..|indexes| - 1], base, delta, pending, rows)
        && Stays(indexes[|indexes| - 1], base, delta, pending, rows))
  }

  /** The bag holds every tuple of every index at most once. */
  ghost predicate Clear(indexes: seq<Index>, bag: multiset<Tuple>) {
    forall k :: 0 <= k < |indexes| ==> UniqueBag(indexes[k].columns, bag)
  }

  /** The indexes belong to the base, and the merged bag obeys them. */
  ghost predicate Obeys(indexes: seq<Index>, base: multiset<Tuple>, delta: seq<BagRow<Tuple>>) {
    forall k :: 0 <= k < |indexes| ==> Obeyed(indexes[k], base, delta)
  }

  /** Where a scenario begins: an unchanged base obeys its own indexes. */
  lemma NoChangesObey(indexes: seq<Index>, base: multiset<Tuple>)
    ensures BagInv(base, [])
    ensures Obeys(indexes, base, []) <==>
            forall k :: 0 <= k < |indexes| ==> Indexes(indexes[k].tuples, indexes[k].columns, base)
  {
    assert BagView(base, []) == base;
    forall k | 0 <= k < |indexes| && Indexes(indexes[k].tuples, indexes[k].columns, base)
      ensures Obeyed(indexes[k], base, [])
    {
    }
    if Obeys(indexes, base, []) {
      forall k | 0 <= k < |indexes| ensures Indexes(indexes[k].tuples, indexes[k].columns, base) {
        assert Obeyed(indexes[k], base, []);
      }
    }
  }

  lemma {:induction false} AllStayMeansClear(indexes: seq<Index>, base: multiset<Tuple>, delta: seq<BagRow<Tuple>>,
                                             pending: seq<Tuple>,
                                             rows: seq<Tuple>)
    ensures AllStay(indexes, base, delta, pending, rows) <==> Clear(indexes, After(base, delta, pending, rows))
  {
    if indexes != [] {
      var n := |indexes| - 1;
      AllStayMeansClear(indexes[..n], base, delta, pending, rows);
      assert forall k :: 0 <= k < n ==> indexes[..n][k] == indexes[k];
    }
  }

  lemma {:induction false} AllStayPrefix(indexes: seq<Index>, i: nat, base: multiset<Tuple>,
                                         delta: seq<BagRow<Tuple>>, pending: seq<Tuple>, rows: seq<Tuple>)
    requires i < |indexes|
    ensures AllStay(indexes, base, delta, pending, rows) ==> Stays(indexes[i], base, delta, pending, rows)
  {
    if i < |indexes| - 1 { AllStayPrefix(indexes[..|indexes| - 1], i, base, delta, pending, rows); }
  }

  /** The probe of one chunk against every secondary unique index of the base: it accepts the
      chunk if and only if the merged bag after the chunk's deletes and inserts still holds
      every NULL-free tuple of every index at most once. */
  method ProbeKeyless(indexes: seq<Index>, ghost base: multiset<Tuple>, delta: seq<BagRow<Tuple>>,
                      pending: seq<Tuple>, rows: seq<Tuple>)
    returns (ok: bool)
    requires BagInv(base, delta) && multiset(pending) <= BagView(base, delta)
    requires Obeys(indexes, base, delta)
    ensures ok <==> Clear(indexes, After(base, delta, pending, rows))
  {
    AllStayMeansClear(indexes, base, delta, pending, rows);
    for k := 0 to |indexes|
      invariant AllStay(indexes[..k], base, delta, pending, rows)
    {
      assert indexes[..k + 1][..k] == indexes[..k];
      AllStayPrefix(indexes, k, base, delta, pending, rows);
      ok := ProbeOne(indexes[k], base, delta, pending, rows);
      if !ok { return; }
    }
    assert indexes[..|indexes|] == indexes;
    ok := true;
  }

  method ProbeOne(x: Index, ghost base: multiset<Tuple>, delta: seq<BagRow<Tuple>>, pending: seq<Tuple>,
                  rows: seq<Tuple>)
    returns (ok: bool)
    requires BagInv(base, delta) && multiset(pending) <= BagView(base, delta) && Obeyed(x, base, delta)
    ensures ok <==> Stays(x, base, delta, pending, rows)
  {
    ProbeIsExact(x.columns, x.tuples, base, delta, pending, rows);
    ok := ProbeIndex(x.columns, x.tuples, delta, pending, rows);
  }

  /** The bag the probe judges is the merged bag of the delta the sink then writes. */
  lemma AfterIsTheView(base: multiset<Tuple>, delta: seq<BagRow<Tuple>>, written: seq<BagRow<Tuple>>,
                       pending: seq<Tuple>, rows: seq<Tuple>)
    requires BagInv(base, delta) && multiset(pending) <= BagView(base, delta)
    requires Deleted(written) == multiset(pending) && Inserted(written) == multiset(rows)
    ensures BagView(base, delta + written) == After(base, delta, pending, rows)
    ensures BagInv(base, delta + written)
  {
    DeltaConcat(delta, written);
  }
}
