/** The host's merge of one keyless delta table: nets, base copies and snapshot counts are
    collected in loops, then the first copies of each value are deleted by row id. */
module BagMergeExecute {
  import opened Values
  import opened BagDelta
  import opened BagScan
  import opened KeyedMerge
  import opened BagMerge

  predicate DistinctRowids<T>(s: seq<Copy<T>>) {
    forall i, j :: 0 <= i < j < |s| ==> s[i].rowid != s[j].rowid
  }

  /** The row ids of a value's copies, in scan order. */
  function RowidsOf<T(==)>(s: seq<Copy<T>>, v: T): seq<Option<nat>> {
    if s == [] then []
    else RowidsOf(s[..|s| - 1], v) + if s[|s| - 1].value == v then [s[|s| - 1].rowid] else []
  }

  lemma {:induction false} RowidsAt<T>(s: seq<Copy<T>>, v: T, i: nat)
    requires i < |s| && s[i].value == v
    ensures Occ(s[..i], v) < |RowidsOf(s, v)| == Occ(s, v) && RowidsOf(s, v)[Occ(s[..i], v)] == s[i].rowid
  {
    var n := |s| - 1;
    if i < n {
      RowidsAt(s[..n], v, i);
      assert s[..n][..i] == s[..i];
    } else {
      RowidsCount(s[..n], v);
    }
  }

  lemma {:induction false} RowidsCount<T>(s: seq<Copy<T>>, v: T)
    ensures |RowidsOf(s, v)| == Occ(s, v)
  {
    if s != [] { RowidsCount(s[..|s| - 1], v); }
  }

  lemma {:induction false} RowidIndex<T>(s: seq<Copy<T>>, v: T, j: nat) returns (i: nat)
    requires j < |RowidsOf(s, v)|
    ensures i < |s| && s[i].value == v && s[i].rowid == RowidsOf(s, v)[j] && Occ(s[..i], v) == j
  {
    var n := |s| - 1;
    RowidsCount(s[..n], v);
    if j < |RowidsOf(s[..n], v)| {
      i := RowidIndex(s[..n], v, j);
      assert s[..n][..i] == s[..i];
    } else {
      i := n;
    }
  }

  /** Deleting the first row ids of a value takes exactly its first copies in scan order. */
  lemma FirstRowids<T>(s: seq<Copy<T>>, v: T, n: nat, i: nat)
    requires DistinctRowids(s) && n <= |RowidsOf(s, v)| && i < |s|
    ensures s[i].rowid in RowidsOf(s, v)[..n] <==> s[i].value == v && Occ(s[..i], v) < n
  {
    if s[i].value == v {
      RowidsAt(s, v, i);
      if Occ(s[..i], v) < n { assert RowidsOf(s, v)[..n][Occ(s[..i], v)] == s[i].rowid; }
    }
    if s[i].rowid in RowidsOf(s, v)[..n] {
      var j :| 0 <= j < n && RowidsOf(s, v)[j] == s[i].rowid;
      var k := RowidIndex(s, v, j);
      assert s[k].rowid == s[i].rowid;
    }
  }

  /** What the delete statement leaves. */
  function Without<T>(s: seq<Copy<T>>, doomed: set<Option<nat>>): seq<Copy<T>> {
    if s == [] then []
    else Without(s[..|s| - 1], doomed) + if s[|s| - 1].rowid in doomed then [] else [s[|s| - 1]]
  }

  /** Deleting by collected row ids is swallowing the first copies, as the scan does. */
  lemma {:induction false} WithoutIsKeep<T>(s: seq<Copy<T>>, doomed: set<Option<nat>>, b: map<T, nat>)
    requires forall i :: 0 <= i < |s| ==> (s[i].rowid in doomed <==> Occ(s[..i], s[i].value) < Budget(b, s[i].value))
    ensures Without(s, doomed) == Keep(s, b)
  {
    if s != [] {
      var n := |s| - 1;
      forall i | 0 <= i < n
        ensures s[..n][i].rowid in doomed <==> Occ(s[..n][..i], s[..n][i].value) < Budget(b, s[..n][i].value)
      {
        assert s[..n][..i] == s[..i];
      }
      WithoutIsKeep(s[..n], doomed, b);
    }
  }

  /** Base copies of each deleted value, by scanning the base once. */
  method CollectBase<T(==,!new)>(base: seq<Copy<T>>, nets: map<T, int>) returns (rowids: map<T, seq<Option<nat>>>)
    ensures rowids.Keys == nets.Keys
    ensures forall v :: v in nets ==> rowids[v] == if nets[v] < 0 then RowidsOf(base, v) else []
  {
    rowids := map v | v in nets :: [];
    for i := 0 to |base|
      invariant rowids.Keys == nets.Keys
      invariant forall v :: v in nets ==> rowids[v] == if nets[v] < 0 then RowidsOf(base[..i], v) else []
    {
      assert base[..i + 1][..i] == base[..i];
      var v := base[i].value;
      if v in nets && nets[v] < 0 { rowids := rowids[v := rowids[v] + [base[i].rowid]]; }
    }
    assert base[..|base|] == base;
  }

  /** Snapshot copies of each deleted value. */
  method CountSnapshot<T(==,!new)>(mat: seq<Copy<T>>, nets: map<T, int>) returns (snap: map<T, nat>)
    ensures snap.Keys == nets.Keys
    ensures forall v :: v in nets ==> snap[v] == if nets[v] < 0 then Occ(mat, v) else 0
  {
    snap := map v | v in nets :: 0;
    for i := 0 to |mat|
      invariant snap.Keys == nets.Keys
      invariant forall v :: v in nets ==> snap[v] == if nets[v] < 0 then Occ(mat[..i], v) else 0
    {
      assert mat[..i + 1][..i] == mat[..i];
      var v := mat[i].value;
      if v in nets && nets[v] < 0 { snap := snap[v := snap[v] + 1]; }
    }
    assert mat[..|mat|] == mat;
  }

  /** The branches for one value. */
  method StepValue(policy: Policy, x: Value3) returns (conflict: bool, del: nat, add: nat)
    ensures conflict <==> BagDrifted(x)
    ensures !(conflict && policy == Abort) ==> Step(del, add) == HostStep(policy, x)
  {
    if x.net >= 0 { return false, 0, x.net; }
    del := Min(-x.net, x.now);
    add := 0;
    conflict := x.snap.Some? && x.now != x.snap.value;
    if conflict {
      if policy == Abort { return; }
      if policy == Theirs {
        del := 0;
      } else {
        var signed: int := x.snap.value + x.net;
        var target: nat := if signed > 0 then signed else 0;
        del := if x.now > target then x.now - target else 0;
        add := if target > x.now then target - x.now else 0;
      }
    }
  }

  /** The listed row ids are the first dels(v) of every value done so far. */
  ghost predicate Marks<T(!new)>(base: seq<Copy<T>>, listed: seq<Option<nat>>, done: set<T>, dels: T -> nat) {
    forall i :: 0 <= i < |base| ==>
      (base[i].rowid in listed <==> base[i].value in done && Occ(base[..i], base[i].value) < dels(base[i].value))
  }

  lemma MarkOneMore<T(!new)>(base: seq<Copy<T>>, listed: seq<Option<nat>>, done: set<T>, dels: T -> nat, v: T)
    requires DistinctRowids(base) && Marks(base, listed, done, dels) && v !in done && dels(v) <= |RowidsOf(base, v)|
    ensures Marks(base, listed + RowidsOf(base, v)[..dels(v)], done + {v}, dels)
  {
    var more := RowidsOf(base, v)[..dels(v)];
    forall i | 0 <= i < |base|
      ensures base[i].rowid in listed + more <==>
              base[i].value in done + {v} && Occ(base[..i], base[i].value) < dels(base[i].value)
    {
      FirstRowids(base, v, dels(v), i);
    }
  }

  /** Row lists, copy counts and nets as collected for one value. */
  function Collected<T(==)>(nets: map<T, int>, rowids: map<T, seq<Option<nat>>>, snap: Option<map<T, nat>>,
                            v: T): Value3
    requires v in nets && v in rowids && (snap.Some? ==> v in snap.value)
  {
    Value3(nets[v], |rowids[v]|, if snap.Some? then Some(snap.value[v]) else None)
  }

  ghost predicate Gathered<T(!new)>(s: BagSite<T>, nets: map<T, int>, rowids: map<T, seq<Option<nat>>>,
                                    snap: Option<map<T, nat>>) {
    && rowids.Keys == nets.Keys && (snap.Some? <==> s.snapshot.Some?) && (snap.Some? ==> snap.value.Keys == nets.Keys)
    && (forall v :: v in nets ==> nets[v] == Net(s.delta, v))
    && (forall v :: v in nets && nets[v] < 0 ==>
      rowids[v] == RowidsOf(s.base, v)
      && (snap.Some? ==> snap.value[v] == Occ(s.snapshot.value, v)))
  }

  lemma CollectedStep<T(!new)>(s: BagSite<T>, policy: Policy, nets: map<T, int>, rowids: map<T, seq<Option<nat>>>,
                               snap: Option<map<T, nat>>, v: T)
    requires Gathered(s, nets, rowids, snap) && v in nets
    ensures var x := Collected(nets, rowids, snap, v);
            && HostStep(policy, x) == HostStep(policy, Look(s, v))
            && (BagDrifted(x) <==> BagDrifted(Look(s, v)))
            && (x.net < 0 ==> HostStep(policy, x).del <= |RowidsOf(s.base, v)| && rowids[v] == RowidsOf(s.base, v))
            && (x.net >= 0 ==> HostStep(policy, x).del == 0)
  {
    RowidsCount(s.base, v);
  }

  /** The loop's lists and counts once the values in done are handled: del(v) row ids listed,
      add(v) copies to append, bad(v) conflicts. */
  ghost predicate PlannedBy<T(!new)>(base: seq<Copy<T>>, del: T -> nat, add: T -> nat, bad: T -> nat, done: set<T>,
                                     listed: seq<Option<nat>>, adds: map<T, nat>, conflicts: nat) {
    && Marks(base, listed, done, del) && |listed| == Sum(done, del)
    && adds.Keys == done && (forall v :: v in adds ==> adds[v] == add(v))
    && conflicts == Sum(done, bad)
  }

  ghost predicate Planned<T(!new)>(s: BagSite<T>, policy: Policy, done: set<T>, listed: seq<Option<nat>>,
                                   adds: map<T, nat>, conflicts: nat) {
    PlannedBy(s.base, Dels(s, policy), Adds(s, policy), Drifts(s), done, listed, adds, conflicts)
  }

  lemma PlannedOneMore<T(!new)>(base: seq<Copy<T>>, del: T -> nat, add: T -> nat, bad: T -> nat, done: set<T>,
                                listed: seq<Option<nat>>,
                                adds: map<T, nat>, conflicts: nat, v: T)
    requires PlannedBy(base, del, add, bad, done, listed, adds, conflicts) && v !in done && DistinctRowids(base)
    requires del(v) <= |RowidsOf(base, v)|
    ensures PlannedBy(base, del, add, bad, done + {v}, listed + RowidsOf(base, v)[..del(v)], adds[v := add(v)],
                      conflicts + bad(v))
  {
    MarkOneMore(base, listed, done, del, v);
    assert (done + {v}) - {v} == done;
    SumWithout(done + {v}, v, del);
    SumWithout(done + {v}, v, bad);
  }

  ghost predicate NoDriftIn<T(!new)>(s: BagSite<T>, values: set<T>) {
    forall v :: v in values ==> !BagDrifted(Look(s, v))
  }

  /** Per value, in whatever order the table of nets lists them: conflicts, deletes, appends. */
  method PlanValues<T(==,!new)>(ghost s: BagSite<T>, policy: Policy, nets: map<T, int>,
                                rowids: map<T, seq<Option<nat>>>, snap: Option<map<T, nat>>)
    returns (ok: bool, listed: seq<Option<nat>>, adds: map<T, nat>, conflicts: nat)
    requires Gathered(s, nets, rowids, snap) && DistinctRowids(s.base)
    ensures ok <==> policy != Abort || NoDriftIn(s, nets.Keys)
    ensures ok ==> Planned(s, policy, nets.Keys, listed, adds, conflicts)
  {
    listed, adds, conflicts, ok := [], map[], 0, true;
    var rest := nets.Keys;
    while rest != {}
      invariant ok && rest <= nets.Keys && Planned(s, policy, nets.Keys - rest, listed, adds, conflicts)
      invariant policy == Abort ==> NoDriftIn(s, nets.Keys - rest)
      decreases rest
    {
      var v :| v in rest;
      OneDone(nets.Keys, rest, v);
      ok, listed, adds, conflicts := PlanValue(s, policy, nets, rowids, snap, v, nets.Keys - rest, listed, adds,
                                               conflicts);
      if !ok { return; }
      rest := rest - {v};
    }
    assert nets.Keys - rest == nets.Keys;
  }

  lemma OneDone<T>(all: set<T>, rest: set<T>, v: T)
    requires rest <= all && v in rest
    ensures all - (rest - {v}) == (all - rest) + {v} && v !in all - rest && v in all
  {
  }

  method PlanValue<T(==,!new)>(ghost s: BagSite<T>, policy: Policy, nets: map<T, int>,
                               rowids: map<T, seq<Option<nat>>>, snap: Option<map<T, nat>>,
                               v: T, ghost done: set<T>, listed0: seq<Option<nat>>, adds0: map<T, nat>, conflicts0: nat)
    returns (ok: bool, listed: seq<Option<nat>>, adds: map<T, nat>, conflicts: nat)
    requires Gathered(s, nets, rowids, snap) && DistinctRowids(s.base) && v in nets && v !in done
    requires Planned(s, policy, done, listed0, adds0, conflicts0)
    ensures ok <==> !(policy == Abort && BagDrifted(Look(s, v)))
    ensures ok ==> Planned(s, policy, done + {v}, listed, adds, conflicts)
  {
    CollectedStep(s, policy, nets, rowids, snap, v);
    var conflict, del, add := StepValue(policy, Collected(nets, rowids, snap, v));
    if conflict && policy == Abort { return false, [], map[], 0; }
    PlannedOneMore(s.base, Dels(s, policy), Adds(s, policy), Drifts(s), done, listed0, adds0, conflicts0, v);
    assert del == 0 ==> listed0 + RowidsOf(s.base, v)[..del] == listed0;
    ok, adds := true, adds0[v := add];
    listed := if del > 0 then listed0 + rowids[v][..del] else listed0;
    conflicts := if conflict then conflicts0 + 1 else conflicts0;
  }

  // ----- lengths as sums of counts -----

  ghost function Counts<T(!new)>(s: seq<Copy<T>>): T -> nat {
    v => Occ(s, v)
  }

  lemma {:induction false} SumOneMore<T>(values: set<T>, v: T, f: T -> nat, g: T -> nat)
    requires v in values && g(v) == f(v) + 1 && forall w :: w in values && w != v ==> g(w) == f(w)
    ensures Sum(values, g) == Sum(values, f) + 1
  {
    SumWithout(values, v, f);
    SumWithout(values, v, g);
    SumSame(values - {v}, f, g);
  }

  lemma {:induction false} LengthIsSum<T(!new)>(s: seq<Copy<T>>, values: set<T>)
    requires forall i :: 0 <= i < |s| ==> s[i].value in values
    ensures |s| == Sum(values, Counts(s))
  {
    if s == [] {
      SumNothing(values, Counts(s));
    } else {
      var n := |s| - 1;
      LengthIsSum(s[..n], values);
      SumOneMore(values, s[n].value, Counts(s[..n]), Counts(s));
    }
  }

  lemma {:induction false} SumNothing<T>(values: set<T>, f: T -> nat)
    requires forall v :: v in values ==> f(v) == 0
    ensures Sum(values, f) == 0
  {
    if v :| v in values {
      SumWithout(values, v, f);
      SumNothing(values - {v}, f);
    }
  }

  // ----- appending -----

  /** Appends the planned copies of every value. */
  method AppendCopies<T(==,!new)>(adds: map<T, nat>) returns (rows: seq<Copy<T>>)
    ensures forall v :: Occ(rows, v) == Budget(adds, v)
    ensures forall i :: 0 <= i < |rows| ==> rows[i].value in adds
  {
    rows := [];
    var rest := adds.Keys;
    while rest != {}
      invariant rest <= adds.Keys
      invariant forall v :: Occ(rows, v) == if v in rest then 0 else Budget(adds, v)
      invariant forall i :: 0 <= i < |rows| ==> rows[i].value in adds
      decreases rest
    {
      var v :| v in rest;
      var more := Repeat(v, adds[v]);
      RepeatValues(v, adds[v]);
      forall w ensures Occ(rows + more, w) == Occ(rows, w) + if v == w then adds[v] else 0 {
        OccConcat(rows, more, w);
        RepeatCount(v, adds[v], w);
      }
      rows := rows + more;
      rest := rest - {v};
    }
  }

  lemma {:induction false} RepeatValues<T>(v: T, n: nat)
    ensures forall i :: 0 <= i < n ==> Repeat(v, n)[i].value == v
  {
    if n > 0 { RepeatValues(v, n - 1); }
  }

  // ----- the whole merge of one table -----

  lemma NetsAreTheValues<T(!new)>(s: BagSite<T>, nets: map<T, int>, f: T -> nat)
    requires forall v :: v in nets ==> nets[v] == Net(s.delta, v)
    requires forall v :: v !in nets ==> Net(s.delta, v) == 0
    requires forall v :: Net(s.delta, v) == 0 ==> f(v) == 0
    ensures Sum(nets.Keys, f) == Sum(ValuesOf(s.delta), f)
  {
    var all := nets.Keys + ValuesOf(s.delta);
    forall v | v in all - ValuesOf(s.delta) ensures f(v) == 0 { NetOutside(s.delta, v); }
    SumZero(nets.Keys, all, f);
    SumZero(ValuesOf(s.delta), all, f);
  }

  /** Every entry at most once, position by position. */
  ghost predicate UniqueEntries<T>(e: T -> string, s: seq<Copy<T>>) {
    forall i, j :: 0 <= i < j < |s| && e(s[i].value) != "" ==> e(s[i].value) != e(s[j].value)
  }

  lemma BagAppend<T>(s: seq<Copy<T>>, c: Copy<T>)
    ensures Bag(s + [c]) == Bag(s) + multiset{c.value}
  {
    assert (s + [c])[..|s|] == s;
  }

  lemma RemoveThenAdd<T>(b: multiset<T>, v: T, w: T)
    requires v in b
    ensures (b + multiset{w}) - multiset{v} == (b - multiset{v}) + multiset{w}
  {
  }

  lemma {:induction false} OneInBag<T>(s: seq<Copy<T>>, i: nat)
    requires i < |s|
    ensures s[i].value in Bag(s)
  {
    if i < |s| - 1 { OneInBag(s[..|s| - 1], i); }
  }

  lemma {:induction false} TwoInBag<T>(s: seq<Copy<T>>, i: nat, j: nat)
    requires i < j < |s|
    ensures s[i].value in Bag(s) && s[j].value in Bag(s) - multiset{s[i].value}
  {
    var n := |s| - 1;
    var init, v := Bag(s[..n]), s[i].value;
    OneInBag(s[..n], i);
    RemoveThenAdd(init, v, s[n].value);
    assert Bag(s) - multiset{v} == (init - multiset{v}) + multiset{s[n].value};
    if j < n {
      TwoInBag(s[..n], i, j);
      assert s[j].value in init - multiset{v};
    }
  }

  lemma {:induction false} BagHolds<T>(s: seq<Copy<T>>, v: T) returns (i: nat)
    requires v in Bag(s)
    ensures i < |s| && s[i].value == v
  {
    var n := |s| - 1;
    if s[n].value == v { i := n; } else { i := BagHolds(s[..n], v); }
  }

  lemma {:induction false} BagHoldsTwo<T>(s: seq<Copy<T>>, v: T, w: T) returns (i: nat, j: nat)
    requires v in Bag(s) && w in Bag(s) - multiset{v}
    ensures i < |s| && j < |s| && i != j && s[i].value == v && s[j].value == w
  {
    var n := |s| - 1;
    assert Bag(s) == Bag(s[..n]) + multiset{s[n].value};
    if s[n].value == v {
      i := n;
      assert Bag(s) - multiset{v} == Bag(s[..n]);
      j := BagHolds(s[..n], w);
    } else if s[n].value == w {
      j := n;
      i := BagHolds(s[..n], v);
    } else {
      assert w in Bag(s[..n]) - multiset{v};
      i, j := BagHoldsTwo(s[..n], v, w);
    }
  }

  lemma EntriesAreUnique<T(!new)>(e: T -> string, s: seq<Copy<T>>)
    ensures UniqueEntries(e, s) <==> UniqueBy(e, Bag(s))
  {
    if UniqueBy(e, Bag(s)) {
      forall i, j | 0 <= i < j < |s| && e(s[i].value) != "" ensures e(s[i].value) != e(s[j].value) {
        TwoInBag(s, i, j);
      }
    }
    if UniqueEntries(e, s) {
      forall v, w | v in Bag(s) && w in Bag(s) - multiset{v} && e(v) != "" ensures e(v) != e(w) {
        var i, j := BagHoldsTwo(s, v, w);
        assert i < j || j < i;
      }
    }
  }

  function EntrySet<T>(e: T -> string, s: seq<Copy<T>>): set<string> {
    set i | 0 <= i < |s| && e(s[i].value) != "" :: e(s[i].value)
  }

  lemma EntriesOneMore<T>(e: T -> string, s: seq<Copy<T>>, c: Copy<T>)
    requires UniqueEntries(e, s)
    ensures UniqueEntries(e, s + [c]) <==> e(c.value) == "" || e(c.value) !in EntrySet(e, s)
    ensures EntrySet(e, s + [c]) == EntrySet(e, s) + if e(c.value) == "" then {} else {e(c.value)}
  {
    var more := s + [c];
    assert forall i :: 0 <= i < |s| ==> more[i] == s[i];
    assert more[|s|] == c;
    if e(c.value) in EntrySet(e, s) {
      var i :| 0 <= i < |s| && e(s[i].value) != "" && e(s[i].value) == e(c.value);
      assert e(more[i].value) == e(more[|s|].value);
    }
    forall x ensures x in EntrySet(e, more) <==> x in EntrySet(e, s) || (x == e(c.value) && x != "") {
      if x in EntrySet(e, s) {
        var i :| 0 <= i < |s| && e(s[i].value) != "" && e(s[i].value) == x;
        assert e(more[i].value) == x;
      }
      if x == e(c.value) && x != "" { assert e(more[|s|].value) == x; }
    }
  }

  lemma UniqueBeginning<T>(e: T -> string, s: seq<Copy<T>>, n: nat)
    requires n <= |s|
    ensures UniqueEntries(e, s) ==> UniqueEntries(e, s[..n])
  {
  }

  /** One unique index judges the appended rows, one after the other. */
  method JudgeAppends<T(==,!new)>(e: T -> string, left: seq<Copy<T>>, news: seq<Copy<T>>) returns (ok: bool)
    requires UniqueEntries(e, left)
    ensures ok <==> UniqueEntries(e, left + news)
  {
    var held := EntrySet(e, left);
    assert left + news[..0] == left;
    for i := 0 to |news|
      invariant held == EntrySet(e, left + news[..i]) && UniqueEntries(e, left + news[..i])
    {
      assert left + news[..i + 1] == (left + news[..i]) + [news[i]];
      assert (left + news)[..|left| + i + 1] == left + news[..i + 1];
      EntriesOneMore(e, left + news[..i], news[i]);
      UniqueBeginning(e, left + news, |left| + i + 1);
      var entry := e(news[i].value);
      if entry != "" && entry in held {
        return false;
      }
      if entry != "" { held := held + {entry}; }
    }
    assert news[..|news|] == news;
    ok := true;
  }

  lemma {:induction false} WithoutIsPart<T>(s: seq<Copy<T>>, doomed: set<Option<nat>>)
    ensures Bag(Without(s, doomed)) <= Bag(s)
  {
    if s != [] {
      var n := |s| - 1;
      WithoutIsPart(s[..n], doomed);
      if s[n].rowid in doomed {
        assert Without(s[..n], doomed) + [] == Without(s[..n], doomed);
      } else {
        BagAppend(Without(s[..n], doomed), s[n]);
      }
    }
  }

  lemma UniqueByPart<T(!new)>(e: T -> string, small: multiset<T>, big: multiset<T>)
    requires small <= big && UniqueBy(e, big)
    ensures UniqueBy(e, small)
  {
    forall v, w | v in small && w in small - multiset{v} && e(v) != "" ensures e(v) != e(w) {
      assert v in big && w in big - multiset{v};
    }
  }

  /** All of them, over a base that obeys them. */
  method JudgeAll<T(==,!new)>(indexes: seq<T -> string>, base: seq<Copy<T>>, doomed: set<Option<nat>>,
                              news: seq<Copy<T>>)
    returns (ok: bool)
    requires UniqueByAll(indexes, Bag(base))
    ensures ok <==> UniqueByAll(indexes, Bag(Without(base, doomed) + news))
  {
    for i := 0 to |indexes|
      invariant forall j :: 0 <= j < i ==> UniqueBy(indexes[j], Bag(Without(base, doomed) + news))
    {
      ok := JudgeOne(indexes[i], base, doomed, news);
      if !ok { return; }
    }
    ok := true;
  }

  method JudgeOne<T(==,!new)>(e: T -> string, base: seq<Copy<T>>, doomed: set<Option<nat>>, news: seq<Copy<T>>)
      returns (ok: bool)
    requires UniqueBy(e, Bag(base))
    ensures ok <==> UniqueBy(e, Bag(Without(base, doomed) + news))
  {
    WithoutIsPart(base, doomed);
    UniqueByPart(e, Bag(Without(base, doomed)), Bag(base));
    EntriesAreUnique(e, Without(base, doomed));
    EntriesAreUnique(e, Without(base, doomed) + news);
    ok := JudgeAppends(e, Without(base, doomed), news);
  }

  /** The host's merge of one keyless table: refused when 'abort' meets a drifted value or when
      an index refuses an appended row; otherwise every value ends at its target, with the
      specified counts. */
  method MergeBagTable<T(==,!new)>(base: seq<Copy<T>>, mat: Option<seq<Copy<T>>>, delta: seq<BagRow<T>>,
                                   indexes: seq<T -> string>,
                                   policy: Policy)
    returns (r: BagReport, after: seq<Copy<T>>)
    requires DistinctRowids(base) && UniqueByAll(indexes, Bag(base))
    ensures var s := BagSite(base, mat, delta, indexes);
            && r == BagOutcome(s, policy)
            && (if r.BagDone? then AllReach(s, policy, after) && UniqueByAll(indexes, Bag(after)) else after == base)
  {
    ghost var s := BagSite(base, mat, delta, indexes);
    var nets, rowids, snap := Gather(base, mat, delta, indexes);
    var ok, listed, adds, conflicts := PlanValues(s, policy, nets, rowids, snap);
    DriftsAreNets(s, nets);
    if !ok { return BagRefused, base; }
    var doomed := set id | id in listed;
    var news := AppendCopies(adds);
    TotalsAreRight(s, policy, nets, listed, adds, conflicts, news);
    TargetsAreReached(s, policy, nets, listed, adds, conflicts, doomed, news);
    ReachedIsTargetBag(s, policy, Without(base, doomed) + news);
    ok := JudgeAll(indexes, base, doomed, news);
    if !ok { return BagViolated, base; }
    return BagDone(conflicts, |listed|, |news|), Without(base, doomed) + news;
  }

  method Gather<T(==,!new)>(base: seq<Copy<T>>, mat: Option<seq<Copy<T>>>, delta: seq<BagRow<T>>,
                            ghost indexes: seq<T -> string>)
    returns (nets: map<T, int>, rowids: map<T, seq<Option<nat>>>, snap: Option<map<T, nat>>)
    ensures Gathered(BagSite(base, mat, delta, indexes), nets, rowids, snap)
    ensures forall v :: v !in nets ==> Net(delta, v) == 0
  {
    nets := Aggregate(delta);
    rowids := CollectBase(base, nets);
    snap := None;
    if mat.Some? {
      var counts := CountSnapshot(mat.value, nets);
      snap := Some(counts);
    }
  }

  lemma DriftsAreNets<T(!new)>(s: BagSite<T>, nets: map<T, int>)
    requires forall v :: v !in nets ==> Net(s.delta, v) == 0
    ensures AnyDrift(s) <==> !NoDriftIn(s, nets.Keys)
  {
    if v :| BagDrifted(Look(s, v)) { assert v in nets; }
  }

  lemma TotalsAreRight<T(!new)>(s: BagSite<T>, policy: Policy, nets: map<T, int>, listed: seq<Option<nat>>,
                                adds: map<T, nat>,
                                conflicts: nat, news: seq<Copy<T>>)
    requires Planned(s, policy, nets.Keys, listed, adds, conflicts)
    requires forall v :: v in nets ==> nets[v] == Net(s.delta, v)
    requires forall v :: v !in nets ==> Net(s.delta, v) == 0
    requires forall v :: Occ(news, v) == Budget(adds, v)
    requires forall i :: 0 <= i < |news| ==> news[i].value in adds
    ensures conflicts == Sum(ValuesOf(s.delta), Drifts(s)) && |listed| == Sum(ValuesOf(s.delta), Dels(s, policy))
    ensures |news| == Sum(ValuesOf(s.delta), Adds(s, policy))
  {
    NetsAreTheValues(s, nets, Drifts(s));
    NetsAreTheValues(s, nets, Dels(s, policy));
    NetsAreTheValues(s, nets, Adds(s, policy));
    LengthIsSum(news, adds.Keys);
    SumSame(adds.Keys, Counts(news), Adds(s, policy));
  }

  lemma DoomedIsKeep<T(!new)>(s: BagSite<T>, policy: Policy, values: set<T>, listed: seq<Option<nat>>,
                              doomed: set<Option<nat>>, b: map<T, nat>)
    requires Marks(s.base, listed, values, Dels(s, policy)) && doomed == set id | id in listed
    requires b == map v | v in values :: Dels(s, policy)(v)
    ensures Without(s.base, doomed) == Keep(s.base, b)
  {
    WithoutIsKeep(s.base, doomed, b);
  }

  lemma TargetAt<T(!new)>(s: BagSite<T>, policy: Policy, left: seq<Copy<T>>, news: seq<Copy<T>>, v: T)
    requires policy == Abort ==> !BagDrifted(Look(s, v))
    requires Occ(left, v) == NatMax(Occ(s.base, v) - Dels(s, policy)(v)) && Occ(news, v) == Adds(s, policy)(v)
    ensures Occ(left + news, v) == Target(policy, Look(s, v))
  {
    OccConcat(left, news, v);
    StepsAgree(policy, Look(s, v));
  }

  lemma NothingToDo<T(!new)>(s: BagSite<T>, policy: Policy, v: T)
    ensures Net(s.delta, v) == 0 ==> Dels(s, policy)(v) == 0 && Adds(s, policy)(v) == 0 && Drifts(s)(v) == 0
  {
  }

  lemma TargetsAreReached<T(!new)>(s: BagSite<T>, policy: Policy, nets: map<T, int>, listed: seq<Option<nat>>,
                                   adds: map<T, nat>,
                                   conflicts: nat, doomed: set<Option<nat>>, news: seq<Copy<T>>)
    requires Planned(s, policy, nets.Keys, listed, adds, conflicts) && doomed == set id | id in listed
    requires forall v :: v !in nets ==> Net(s.delta, v) == 0
    requires forall v :: Occ(news, v) == Budget(adds, v)
    requires policy == Abort ==> !AnyDrift(s)
    ensures AllReach(s, policy, Without(s.base, doomed) + news)
  {
    var b := map v | v in nets.Keys :: Dels(s, policy)(v);
    DoomedIsKeep(s, policy, nets.Keys, listed, doomed, b);
    forall v ensures Occ(Keep(s.base, b) + news, v) == Target(policy, Look(s, v)) {
      NothingToDo(s, policy, v);
      KeepTarget(s, policy, b, news, v);
    }
  }

  lemma KeepTarget<T(!new)>(s: BagSite<T>, policy: Policy, b: map<T, nat>, news: seq<Copy<T>>, v: T)
    requires policy == Abort ==> !BagDrifted(Look(s, v))
    requires Budget(b, v) == Dels(s, policy)(v) && Occ(news, v) == Adds(s, policy)(v)
    ensures Occ(Keep(s.base, b) + news, v) == Target(policy, Look(s, v))
  {
    KeepCount(s.base, b, v);
    TargetAt(s, policy, Keep(s.base, b), news, v);
  }
}
