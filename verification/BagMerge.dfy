/** Merging a keyless delta back into its base: net multiplicities per value against the base
    and the creation snapshot, written once as the host's loop and once as the plan that the
    statements on a foreign base compute. */
module BagMerge {
  import opened Values
  import opened BagDelta
  import opened BagScan
  import opened KeyedMerge

  /** One value: its net in the delta, its copies in the base now, and in the snapshot. */
  datatype Value3 = Value3(net: int, now: nat, snap: Option<nat>)

  /** A deleted value whose base count differs from its snapshot count. */
  predicate BagDrifted(x: Value3) {
    x.net < 0 && x.snap.Some? && x.now != x.snap.value
  }

  /** How many copies the base ends with. */
  function Target(policy: Policy, x: Value3): nat {
    if !BagDrifted(x) then NatMax(x.now + x.net)
    else if policy == Ours then NatMax(x.snap.value + x.net)
    else x.now
  }

  // ----- the two arithmetics -----

  function Min(a: int, b: int): int { if a < b then a else b }

  function Max(a: int, b: int): int { if a < b then b else a }

  /** The foreign plan's delete expression. */
  function PlannedDel(policy: Policy, net: int, now: int, snap: int): int {
    var target := Max(snap + net, 0);
    if policy == Ours then
      if net >= 0 then 0 else if now != snap then Max(now - target, 0) else Min(-net, now)
    else
      if net >= 0 || now != snap then 0 else Min(-net, now)
  }

  /** The foreign plan's insert expression. */
  function PlannedAdd(policy: Policy, net: int, now: int, snap: int): int {
    var target := Max(snap + net, 0);
    if policy == Ours then
      if net > 0 then net else if now != snap then Max(target - now, 0) else 0
    else
      Max(net, 0)
  }

  datatype Step = Step(del: nat, add: nat)

  /** The host's branches for one value. */
  function HostStep(policy: Policy, x: Value3): Step {
    if x.net >= 0 then Step(0, x.net)
    else if BagDrifted(x) then
      if policy == Theirs then Step(0, 0)
      else
        var signed: int := x.snap.value + x.net;
        var target: nat := if signed > 0 then signed else 0;
        Step(if x.now > target then x.now - target else 0, if target > x.now then target - x.now else 0)
    else Step(Min(-x.net, x.now), 0)
  }

  /** The plan rows: zero nets are not listed, and counts are only taken for negative nets. */
  function ForeignStep(policy: Policy, x: Value3): Step
    requires x.snap.Some?
  {
    var del, add := PlannedDel(policy, x.net, x.now, x.snap.value), PlannedAdd(policy, x.net, x.now, x.snap.value);
    if x.net == 0 then Step(0, 0)
    else if x.net > 0 then Step(0, x.net)
    else Step(Max(del, 0), Max(add, 0))
  }

  /** Both writings delete and add the same copies of a value, never more than exist, and end
      at the target; under 'abort' this is asked only when nothing drifted. */
  lemma StepsAgree(policy: Policy, x: Value3)
    requires policy == Abort ==> !BagDrifted(x)
    ensures x.snap.Some? ==> ForeignStep(policy, x) == HostStep(policy, x)
    ensures x.snap.Some? && x.net < 0 ==> PlannedDel(policy, x.net, x.now, x.snap.value) >= 0
    ensures HostStep(policy, x).del <= x.now
    ensures x.now - HostStep(policy, x).del + HostStep(policy, x).add == Target(policy, x)
  {
  }

  // ----- one table -----

  /** One entry of each unique index of the base per row; "" is no entry. */
  datatype BagSite<!T> = BagSite(base: seq<Copy<T>>, snapshot: Option<seq<Copy<T>>>, delta: seq<BagRow<T>>,
                                 indexes: seq<T -> string>)

  /** No two rows of the bag have the same entry. */
  ghost predicate UniqueBy<T(!new)>(e: T -> string, b: multiset<T>) {
    forall v, w :: v in b && w in b - multiset{v} && e(v) != "" ==> e(v) != e(w)
  }

  ghost predicate UniqueByAll<T(!new)>(indexes: seq<T -> string>, b: multiset<T>) {
    forall i :: 0 <= i < |indexes| ==> UniqueBy(indexes[i], b)
  }

  function Look<T(==)>(s: BagSite<T>, v: T): Value3 {
    Value3(Net(s.delta, v), Occ(s.base, v), if s.snapshot.Some? then Some(Occ(s.snapshot.value, v)) else None)
  }

  ghost predicate AnyDrift<T(!new)>(s: BagSite<T>) {
    exists v :: BagDrifted(Look(s, v))
  }

  ghost predicate AllReach<T(!new)>(s: BagSite<T>, policy: Policy, after: seq<Copy<T>>) {
    forall v :: Occ(after, v) == Target(policy, Look(s, v))
  }

  /** What a scenario shows that reads source instead of the live base, if there is one. */
  function BagShown<T>(source: Option<multiset<T>>, live: multiset<T>, delta: seq<BagRow<T>>): multiset<T> {
    BagView(if source.Some? then source.value else live, delta)
  }

  /** On a base that did not move nothing drifts and the merged bag is the view; the scenario
      shows the same afterwards if and only if it reads the live base or its nets change nothing
      of what it reads, whether or not the merge has a snapshot to compare with. */
  lemma UnmovedBagBecomesView<T(!new)>(s: BagSite<T>, source: Option<multiset<T>>, policy: Policy, after: seq<Copy<T>>)
    requires AllReach(s, policy, after)
    requires s.snapshot.Some? ==> Bag(s.snapshot.value) == Bag(s.base)
    ensures !AnyDrift(s) && Bag(after) == BagView(Bag(s.base), s.delta) && BagInv(Bag(after), [])
    ensures BagShown(source, Bag(after), []) == BagShown(source, Bag(s.base), s.delta) <==>
            (source.Some? ==> BagIdle(source.value, s.delta))
  {
    UnmovedMeansNoDrift(s);
    NoDriftBecomesView(s, policy, after);
    SnapshotShowsIffIdle(Bag(after), [], Bag(after));
    if source.Some? { SnapshotShowsIffIdle(source.value, s.delta, Bag(after)); }
  }

  /** Where nothing drifted every policy gives the view. */
  lemma NoDriftBecomesView<T(!new)>(s: BagSite<T>, policy: Policy, after: seq<Copy<T>>)
    requires AllReach(s, policy, after) && forall v :: !BagDrifted(Look(s, v))
    ensures Bag(after) == BagView(Bag(s.base), s.delta)
  {
    forall v ensures Occ(after, v) == NatMax(Occ(s.base, v) + Net(s.delta, v)) {
      assert !BagDrifted(Look(s, v)) && Occ(after, v) == Target(policy, Look(s, v));
    }
    ScanIsExceptAll(s.delta, s.base, after);
  }

  lemma UnmovedMeansNoDrift<T(!new)>(s: BagSite<T>)
    requires s.snapshot.Some? ==> Bag(s.snapshot.value) == Bag(s.base)
    ensures forall v :: !BagDrifted(Look(s, v))
  {
    forall v ensures !BagDrifted(Look(s, v)) {
      BagCount(s.base, v);
      if s.snapshot.Some? { BagCount(s.snapshot.value, v); }
    }
  }

  lemma SnapshotShowsIffIdle<T(!new)>(base: multiset<T>, delta: seq<BagRow<T>>, after: multiset<T>)
    ensures BagView(base, []) == BagView(base, delta) <==> BagIdle(base, delta)
    ensures BagView(after, []) == after && BagInv(after, [])
  {
    BagViewIsBaseIffIdle(base, delta);
    BagViewIsBaseIffIdle(base, []);
    BagViewIsBaseIffIdle(after, []);
  }

  /** The preview lists |net| copies of each value, all flagged alike. */
  function PreviewCopies<T(==)>(s: BagSite<T>, v: T): nat {
    Max(Net(s.delta, v), -Net(s.delta, v))
  }

  predicate PreviewFlag<T(==)>(s: BagSite<T>, v: T) {
    s.snapshot.Some? && Net(s.delta, v) < 0 && Occ(s.base, v) != Occ(s.snapshot.value, v)
  }

  /** No previewed copy is a conflict exactly when nothing drifted. */
  lemma PreviewIsCleanIffNoDrift<T(!new)>(s: BagSite<T>)
    ensures (forall v :: PreviewCopies(s, v) > 0 ==> !PreviewFlag(s, v)) <==> !AnyDrift(s)
  {
    forall v ensures BagDrifted(Look(s, v)) <==> PreviewCopies(s, v) > 0 && PreviewFlag(s, v) {}
    if AnyDrift(s) {
      var v :| BagDrifted(Look(s, v));
      assert PreviewCopies(s, v) > 0 && PreviewFlag(s, v);
    }
  }

  /** Inserted and deleted copies cancel; the preview lists what is left over on either side. */
  lemma PreviewListsTheRest<T(!new)>(s: BagSite<T>, v: T)
    ensures PreviewCopies(s, v) ==
            (BagDelta.Inserted(s.delta) - BagDelta.Deleted(s.delta))[v]
                + (BagDelta.Deleted(s.delta) - BagDelta.Inserted(s.delta))[v]
  {
    NetIsDifference(s.delta, v);
  }

  // ----- sums over the values of a delta -----

  ghost function Sum<T>(values: set<T>, f: T -> nat): nat {
    if values == {} then 0
    else
      var v :| v in values;
      f(v) + Sum(values - {v}, f)
  }

  lemma {:induction false} SumWithout<T>(values: set<T>, v: T, f: T -> nat)
    requires v in values
    ensures Sum(values, f) == f(v) + Sum(values - {v}, f)
  {
    var w :| w in values && Sum(values, f) == f(w) + Sum(values - {w}, f);
    if w != v {
      SumWithout(values - {w}, v, f);
      SumWithout(values - {v}, w, f);
      assert values - {w} - {v} == values - {v} - {w};
    }
  }

  lemma {:induction false} SumZero<T>(values: set<T>, more: set<T>, f: T -> nat)
    requires values <= more && forall v :: v in more - values ==> f(v) == 0
    ensures Sum(values, f) == Sum(more, f)
    decreases more - values
  {
    if more - values == {} {
      forall v | v in more ensures v in values { assert v !in more - values; }
      assert values == more;
    } else {
      var v :| v in more - values;
      SumWithout(more, v, f);
      SumZero(values, more - {v}, f);
    }
  }

  lemma {:induction false} SumSame<T>(values: set<T>, f: T -> nat, g: T -> nat)
    requires forall v :: v in values ==> f(v) == g(v)
    ensures Sum(values, f) == Sum(values, g)
  {
    if v :| v in values {
      SumWithout(values, v, f);
      SumWithout(values, v, g);
      SumSame(values - {v}, f, g);
    }
  }

  lemma SizeWith<T>(b: multiset<T>, v: T, n: nat)
    requires v !in b
    ensures |b[v := n]| == |b| + n
  {
    assert b[v := n] == b + Copies(v, n);
    CopiesSize(v, n);
  }

  lemma {:induction false} CopiesSize<T>(v: T, n: nat)
    ensures |Copies(v, n)| == n
  {
    if n == 0 {
      assert Copies(v, 0) == multiset{};
    } else {
      CopiesSize(v, n - 1);
      assert Copies(v, n) == Copies(v, n - 1) + multiset{v};
    }
  }

  /** The bag of f(v) copies of each of the values. */
  ghost function BagOf<T>(values: set<T>, f: T -> nat): multiset<T> {
    if values == {} then multiset{}
    else
      var v :| v in values;
      BagOf(values - {v}, f)[v := f(v)]
  }

  lemma {:induction false} BagOfCount<T>(values: set<T>, f: T -> nat, v: T)
    ensures BagOf(values, f)[v] == if v in values then f(v) else 0
  {
    if values != {} {
      var w :| w in values && BagOf(values, f) == BagOf(values - {w}, f)[w := f(w)];
      BagOfCount(values - {w}, f, v);
    }
  }

  lemma {:induction false} BagOfSize<T>(values: set<T>, f: T -> nat)
    ensures |BagOf(values, f)| == Sum(values, f)
  {
    if values != {} {
      var w :| w in values && BagOf(values, f) == BagOf(values - {w}, f)[w := f(w)];
      BagOfSize(values - {w}, f);
      BagOfCount(values - {w}, f, w);
      SizeWith(BagOf(values - {w}, f), w, f(w));
      SumWithout(values, w, f);
    }
  }

  /** A sum of zeros and ones counts the ones. */
  lemma {:induction false} SumOfBits<T>(values: set<T>, f: T -> nat, ones: set<T>)
    requires ones <= values && forall v :: v in values ==> f(v) == if v in ones then 1 else 0
    ensures Sum(values, f) == |ones|
  {
    if v :| v in values {
      SumWithout(values, v, f);
      SumOfBits(values - {v}, f, ones - {v});
      if v in ones { assert ones == (ones - {v}) + {v}; } else { assert ones - {v} == ones; }
    } else {
      assert ones == {};
    }
  }

  function ValuesOf<T>(delta: seq<BagRow<T>>): set<T> {
    set r | r in delta :: r.value
  }

  ghost function Targets<T(!new)>(s: BagSite<T>, policy: Policy): T -> nat {
    v => Target(policy, Look(s, v))
  }

  /** The bag in which every value is at its target. */
  ghost function TargetBag<T(!new)>(s: BagSite<T>, policy: Policy): multiset<T> {
    BagOf(ValuesOf(s.delta) + (set v | v in Bag(s.base)), Targets(s, policy))
  }

  lemma TargetBagCount<T(!new)>(s: BagSite<T>, policy: Policy, v: T)
    ensures TargetBag(s, policy)[v] == Target(policy, Look(s, v))
  {
    BagOfCount(ValuesOf(s.delta) + (set w | w in Bag(s.base)), Targets(s, policy), v);
    NetOutside(s.delta, v);
    BagCount(s.base, v);
  }

  /** Reaching the targets fixes the merged bag. */
  lemma ReachedIsTargetBag<T(!new)>(s: BagSite<T>, policy: Policy, after: seq<Copy<T>>)
    ensures AllReach(s, policy, after) <==> Bag(after) == TargetBag(s, policy)
  {
    forall v ensures Bag(after)[v] == Occ(after, v) && TargetBag(s, policy)[v] == Target(policy, Look(s, v)) {
      BagCount(after, v);
      TargetBagCount(s, policy, v);
    }
    if AllReach(s, policy, after) {
      forall v ensures Bag(after)[v] == TargetBag(s, policy)[v] {
        assert Occ(after, v) == Target(policy, Look(s, v));
      }
    }
  }

  lemma EmptyDeltaKeepsBag<T(!new)>(s: BagSite<T>, policy: Policy)
    requires s.delta == []
    ensures TargetBag(s, policy) == Bag(s.base)
  {
    forall v ensures TargetBag(s, policy)[v] == Bag(s.base)[v] {
      TargetBagCount(s, policy, v);
      BagCount(s.base, v);
    }
  }

  ghost function Dels<T(!new)>(s: BagSite<T>, policy: Policy): T -> nat {
    v => HostStep(policy, Look(s, v)).del
  }

  ghost function Adds<T(!new)>(s: BagSite<T>, policy: Policy): T -> nat {
    v => HostStep(policy, Look(s, v)).add
  }

  ghost function Drifts<T(!new)>(s: BagSite<T>): T -> nat {
    v => if BagDrifted(Look(s, v)) then 1 else 0
  }

  /** What a keyless merge reports: copies deleted and inserted, drifted values. */
  datatype BagReport = BagRefused | BagViolated | BagDone(conflicts: nat, deleted: nat, inserted: nat)

  /** The report every writing meets, before any index has a say. */
  ghost function BagResolved<T(!new)>(s: BagSite<T>, policy: Policy): BagReport {
    var values := ValuesOf(s.delta);
    if policy == Abort && AnyDrift(s) then BagRefused
    else BagDone(Sum(values, Drifts(s)), Sum(values, Dels(s, policy)), Sum(values, Adds(s, policy)))
  }

  /** What the host reports: its appends are judged by the unique indexes of the base. */
  ghost function BagOutcome<T(!new)>(s: BagSite<T>, policy: Policy): BagReport {
    var r := BagResolved(s, policy);
    if r.BagDone? && !UniqueByAll(s.indexes, TargetBag(s, policy)) then BagViolated else r
  }

  /** Where nothing drifted the target bag is the view, under every policy. */
  lemma TargetIsView<T(!new)>(s: BagSite<T>, policy: Policy)
    requires !AnyDrift(s)
    ensures TargetBag(s, policy) == BagView(Bag(s.base), s.delta)
  {
    forall v ensures TargetBag(s, policy)[v] == BagView(Bag(s.base), s.delta)[v] {
      assert !BagDrifted(Look(s, v));
      TargetAtValue(s, policy, v);
    }
  }

  lemma TargetAtValue<T(!new)>(s: BagSite<T>, policy: Policy, v: T)
    requires !BagDrifted(Look(s, v))
    ensures TargetBag(s, policy)[v] == BagView(Bag(s.base), s.delta)[v]
  {
    TargetBagCount(s, policy, v);
    BagCount(s.base, v);
    ViewCount(Bag(s.base), s.delta, v);
  }

  /** 'abort' is refused for a conflict exactly when a previewed copy is flagged, and succeeds
      exactly when none is and the view is unique under the base's indexes. */
  lemma BagAbortIffPreviewIsClean<T(!new)>(s: BagSite<T>)
    ensures BagOutcome(s, Abort).BagRefused? <==> exists v :: PreviewCopies(s, v) > 0 && PreviewFlag(s, v)
    ensures BagOutcome(s, Abort).BagDone? <==>
            (forall v :: PreviewCopies(s, v) > 0 ==> !PreviewFlag(s, v))
                && UniqueByAll(s.indexes, BagView(Bag(s.base), s.delta))
  {
    PreviewIsCleanIffNoDrift(s);
    if !AnyDrift(s) { TargetIsView(s, Abort); }
  }

  lemma {:induction false} NetOutside<T>(delta: seq<BagRow<T>>, v: T)
    ensures v !in ValuesOf(delta) ==> Net(delta, v) == 0
  {
    if delta != [] {
      var n := |delta| - 1;
      NetOutside(delta[..n], v);
      assert delta == delta[..n] + [delta[n]];
    }
  }
}
