/** The statements that merge a keyless delta into a foreign base: a plan table of deletes and
    inserts per value, a delete of the lowest row ids (or, when a user column hides the row
    id, of every copy followed by re-inserting the survivors), and the insert. */
module BagMergeForeign {
  import opened Values
  import opened BagDelta
  import opened BagScan
  import opened KeyedMerge
  import opened BagMerge
  import opened BagMergeExecute

  /** GROUP BY value, nets other than zero. */
  function Groups<T(==)>(delta: seq<BagRow<T>>): set<T> {
    set v | v in ValuesOf(delta) && Net(delta, v) != 0
  }

  ghost function PlanDel<T(!new)>(s: BagSite<T>, policy: Policy): T -> nat
    requires s.snapshot.Some?
  {
    v => ForeignStep(policy, Look(s, v)).del
  }

  ghost function PlanAdd<T(!new)>(s: BagSite<T>, policy: Policy): T -> nat
    requires s.snapshot.Some?
  {
    v => ForeignStep(policy, Look(s, v)).add
  }

  ghost function Affected<T(!new)>(s: BagSite<T>, policy: Policy): set<T>
    requires s.snapshot.Some?
  {
    set v | v in Groups(s.delta) && PlanDel(s, policy)(v) > 0
  }

  /** DELETE ... WHERE EXISTS: every copy of the values. */
  function DropValues<T(==)>(s: seq<Copy<T>>, values: set<T>): seq<Copy<T>> {
    if s == [] then []
    else DropValues(s[..|s| - 1], values) + if s[|s| - 1].value in values then [] else [s[|s| - 1]]
  }

  lemma {:induction false} DropValuesCount<T>(s: seq<Copy<T>>, values: set<T>, v: T)
    ensures Occ(DropValues(s, values), v) == if v in values then 0 else Occ(s, v)
  {
    if s != [] {
      var init, c := s[..|s| - 1], s[|s| - 1];
      DropValuesCount(init, values, v);
      if c.value in values {
        assert DropValues(s, values) == DropValues(init, values);
      } else {
        OccStep(DropValues(init, values), c, v);
      }
    }
  }

  /** INSERT ... SELECT unnest(range(f)): f(v) copies of each value. */
  ghost function Unnest<T>(values: set<T>, f: T -> nat): seq<Copy<T>> {
    if values == {} then []
    else
      var v :| v in values;
      Repeat(v, f(v)) + Unnest(values - {v}, f)
  }

  lemma {:induction false} UnnestCount<T>(values: set<T>, f: T -> nat, w: T)
    ensures Occ(Unnest(values, f), w) == if w in values then f(w) else 0
    ensures |Unnest(values, f)| == Sum(values, f)
  {
    if values != {} {
      var v :| v in values && Unnest(values, f) == Repeat(v, f(v)) + Unnest(values - {v}, f);
      UnnestCount(values - {v}, f, w);
      OccConcat(Repeat(v, f(v)), Unnest(values - {v}, f), w);
      RepeatCount(v, f(v), w);
      SumWithout(values, v, f);
    }
  }

  /** row_number() OVER (PARTITION BY value ORDER BY rowid) <= del picks the first copies. */
  ghost function DeleteLowest<T(!new)>(s: BagSite<T>, policy: Policy): seq<Copy<T>>
    requires s.snapshot.Some?
  {
    Keep(s.base, map v | v in Groups(s.delta) :: PlanDel(s, policy)(v))
  }

  ghost function Survivors<T(!new)>(s: BagSite<T>, policy: Policy): T -> nat
    requires s.snapshot.Some?
  {
    v => NatMax(Occ(s.base, v) - PlanDel(s, policy)(v))
  }

  ghost function DeleteAndReinsert<T(!new)>(s: BagSite<T>, policy: Policy): seq<Copy<T>>
    requires s.snapshot.Some?
  {
    DropValues(s.base, Affected(s, policy)) + Unnest(Affected(s, policy), Survivors(s, policy))
  }

  datatype ForeignResult<T> = Conflicting | RolledBack | Committed(report: BagReport, after: seq<Copy<T>>)

  /** The statements in order, with the counts they compare before going on. */
  ghost function ForeignBag<T(!new)>(s: BagSite<T>, policy: Policy, shadowed: bool): ForeignResult<T>
    requires s.snapshot.Some?
  {
    var groups := Groups(s.delta);
    var conflicts := Sum(groups, Drifts(s));
    if conflicts > 0 && policy == Abort then Conflicting
    else
      var planned := Sum(groups, PlanDel(s, policy));
      var left := LeftBy(s, policy, shadowed);
      var removed := |s.base| - |DropValues(s.base, Affected(s, policy))|;
      if shadowed && removed != Sum(Affected(s, policy), Counts(s.base)) then RolledBack
      else if !shadowed && |s.base| - |left| != planned then RolledBack
      else
        var news := Unnest(groups, PlanAdd(s, policy));
        Committed(BagDone(conflicts, planned, |news|), left + news)
  }

  // ----- the two deletes -----

  lemma PlanIsHostStep<T(!new)>(s: BagSite<T>, policy: Policy, v: T)
    requires s.snapshot.Some? && (policy == Abort ==> !AnyDrift(s))
    ensures PlanDel(s, policy)(v) == Dels(s, policy)(v) <= Occ(s.base, v)
    ensures PlanAdd(s, policy)(v) == Adds(s, policy)(v)
    ensures Occ(s.base, v) - Dels(s, policy)(v) + Adds(s, policy)(v) == Target(policy, Look(s, v))
    ensures Net(s.delta, v) == 0 ==> Dels(s, policy)(v) == 0 && Adds(s, policy)(v) == 0 && Drifts(s)(v) == 0
  {
    StepsAgree(policy, Look(s, v));
  }

  lemma Outside<T(!new)>(s: BagSite<T>, policy: Policy, v: T)
    requires s.snapshot.Some? && v !in Groups(s.delta)
    ensures Net(s.delta, v) == 0 && PlanDel(s, policy)(v) == 0 && PlanAdd(s, policy)(v) == 0
            && v !in Affected(s, policy)
  {
    NetOutside(s.delta, v);
  }

  lemma LowestCount<T(!new)>(s: BagSite<T>, policy: Policy, v: T)
    requires s.snapshot.Some?
    ensures Occ(DeleteLowest(s, policy), v) == NatMax(Occ(s.base, v) - PlanDel(s, policy)(v))
  {
    if v !in Groups(s.delta) { Outside(s, policy, v); }
    KeepCount(s.base, map w | w in Groups(s.delta) :: PlanDel(s, policy)(w), v);
  }

  lemma DropThenUnnest<T(!new)>(s: seq<Copy<T>>, values: set<T>, f: T -> nat, v: T)
    ensures Occ(DropValues(s, values) + Unnest(values, f), v) == if v in values then f(v) else Occ(s, v)
  {
    DropValuesCount(s, values, v);
    UnnestCount(values, f, v);
    OccConcat(DropValues(s, values), Unnest(values, f), v);
  }

  lemma ReinsertCount<T(!new)>(s: BagSite<T>, policy: Policy, v: T)
    requires s.snapshot.Some?
    ensures Occ(DeleteAndReinsert(s, policy), v) == NatMax(Occ(s.base, v) - PlanDel(s, policy)(v))
  {
    if v !in Groups(s.delta) { Outside(s, policy, v); }
    DropThenUnnest(s.base, Affected(s, policy), Survivors(s, policy), v);
  }

  /** Deleting the lowest row ids, and deleting every copy and re-inserting the survivors,
      leave the same number of copies of every value. */
  lemma DeletesAgree<T(!new)>(s: BagSite<T>, policy: Policy, v: T)
    requires s.snapshot.Some?
    ensures Occ(DeleteLowest(s, policy), v) == Occ(DeleteAndReinsert(s, policy), v)
            == NatMax(Occ(s.base, v) - PlanDel(s, policy)(v))
  {
    LowestCount(s, policy, v);
    ReinsertCount(s, policy, v);
  }

  function BaseValues<T>(s: seq<Copy<T>>): set<T> {
    set c | c in s :: c.value
  }

  lemma {:induction false} SumDifference<T>(values: set<T>, f: T -> nat, g: T -> nat, h: T -> nat)
    requires forall v :: v in values ==> f(v) == g(v) + h(v)
    ensures Sum(values, f) == Sum(values, g) + Sum(values, h)
  {
    if v :| v in values {
      SumWithout(values, v, f);
      SumWithout(values, v, g);
      SumWithout(values, v, h);
      SumDifference(values - {v}, f, g, h);
    }
  }

  lemma {:induction false} KeepIsPart<T>(s: seq<Copy<T>>, b: map<T, nat>)
    ensures forall c :: c in Keep(s, b) ==> c in s
  {
    if s != [] {
      KeepIsPart(s[..|s| - 1], b);
      assert s == s[..|s| - 1] + [s[|s| - 1]];
    }
  }

  lemma {:induction false} DropIsPart<T>(s: seq<Copy<T>>, values: set<T>)
    ensures forall c :: c in DropValues(s, values) ==> c in s
  {
    if s != [] {
      DropIsPart(s[..|s| - 1], values);
      assert s == s[..|s| - 1] + [s[|s| - 1]];
    }
  }

  /** If a part of s lacks exactly gone(v) copies of each value, it is shorter by their sum. */
  lemma ShorterBy<T(!new)>(s: seq<Copy<T>>, part: seq<Copy<T>>, values: set<T>, gone: T -> nat)
    requires forall c :: c in part ==> c in s
    requires forall v :: Occ(part, v) + gone(v) == Occ(s, v)
    requires forall v :: v !in values ==> gone(v) == 0
    ensures |s| - |part| == Sum(values, gone)
  {
    var all := BaseValues(s) + values;
    LengthIsSum(s, all);
    LengthIsSum(part, all);
    SumDifference(all, Counts(s), Counts(part), gone);
    SumZero(values, all, gone);
  }

  lemma LowestExactly<T(!new)>(s: BagSite<T>, policy: Policy, v: T)
    requires s.snapshot.Some? && (policy == Abort ==> !AnyDrift(s))
    ensures Occ(DeleteLowest(s, policy), v) + PlanDel(s, policy)(v) == Occ(s.base, v)
    ensures v !in Groups(s.delta) ==> PlanDel(s, policy)(v) == 0
  {
    PlanIsHostStep(s, policy, v);
    LowestCount(s, policy, v);
    if v !in Groups(s.delta) { Outside(s, policy, v); }
  }

  /** The window delete removes exactly the planned number of rows: no roll-back. */
  lemma NeverOverDeletes<T(!new)>(s: BagSite<T>, policy: Policy)
    requires s.snapshot.Some? && (policy == Abort ==> !AnyDrift(s))
    ensures |s.base| - |DeleteLowest(s, policy)| == Sum(Groups(s.delta), PlanDel(s, policy))
  {
    var groups, left := Groups(s.delta), DeleteLowest(s, policy);
    KeepIsPart(s.base, map v | v in groups :: PlanDel(s, policy)(v));
    forall v
      ensures Occ(left, v) + PlanDel(s, policy)(v) == Occ(s.base, v)
      ensures v !in groups ==> PlanDel(s, policy)(v) == 0
    {
      LowestExactly(s, policy, v);
    }
    ShorterBy(s.base, left, groups, PlanDel(s, policy));
  }

  /** Deleting every copy of the affected values removes exactly the counted copies. */
  lemma RemovesTheExpected<T(!new)>(s: BagSite<T>, policy: Policy)
    requires s.snapshot.Some?
    ensures |s.base| - |DropValues(s.base, Affected(s, policy))| == Sum(Affected(s, policy), Counts(s.base))
  {
    var values := Affected(s, policy);
    var gone := (v: T) => if v in values then Occ(s.base, v) else 0;
    DropIsPart(s.base, values);
    forall v ensures Occ(DropValues(s.base, values), v) + gone(v) == Occ(s.base, v) {
      DropValuesCount(s.base, values, v);
    }
    ShorterBy(s.base, DropValues(s.base, values), values, gone);
    SumSame(values, gone, Counts(s.base));
  }

  lemma GroupSums<T(!new)>(s: BagSite<T>, policy: Policy)
    requires s.snapshot.Some? && (policy == Abort ==> !AnyDrift(s))
    ensures Sum(Groups(s.delta), PlanDel(s, policy)) == Sum(ValuesOf(s.delta), Dels(s, policy))
    ensures Sum(Groups(s.delta), PlanAdd(s, policy)) == Sum(ValuesOf(s.delta), Adds(s, policy))
  {
    forall v
      ensures PlanDel(s, policy)(v) == Dels(s, policy)(v) && PlanAdd(s, policy)(v) == Adds(s, policy)(v)
      ensures Net(s.delta, v) == 0 ==> Dels(s, policy)(v) == 0 && Adds(s, policy)(v) == 0
    {
      PlanIsHostStep(s, policy, v);
    }
    SumSame(Groups(s.delta), PlanDel(s, policy), Dels(s, policy));
    SumSame(Groups(s.delta), PlanAdd(s, policy), Adds(s, policy));
    SumZero(Groups(s.delta), ValuesOf(s.delta), Dels(s, policy));
    SumZero(Groups(s.delta), ValuesOf(s.delta), Adds(s, policy));
  }

  lemma ConflictSum<T(!new)>(s: BagSite<T>)
    ensures Sum(Groups(s.delta), Drifts(s)) == Sum(ValuesOf(s.delta), Drifts(s))
    ensures Sum(Groups(s.delta), Drifts(s)) > 0 <==> AnyDrift(s)
  {
    SumZero(Groups(s.delta), ValuesOf(s.delta), Drifts(s));
    if v :| BagDrifted(Look(s, v)) {
      NetOutside(s.delta, v);
      SumWithout(Groups(s.delta), v, Drifts(s));
    } else {
      SumNothing(Groups(s.delta), Drifts(s));
    }
  }

  /** The foreign statements meet the host's specification - same refusals, same counts, same
      targets - with either delete, and their count checks never roll the merge back. */
  lemma ForeignBagMeetsSpec<T(!new)>(s: BagSite<T>, policy: Policy, shadowed: bool)
    requires s.snapshot.Some?
    ensures var r := ForeignBag(s, policy, shadowed);
            && (r.Conflicting? <==> BagResolved(s, policy).BagRefused?) && !r.RolledBack?
            && (r.Committed? ==> r.report == BagResolved(s, policy) && AllReach(s, policy, r.after))
  {
    ConflictSum(s);
    if policy == Abort && AnyDrift(s) { return; }
    NeverOverDeletes(s, policy);
    RemovesTheExpected(s, policy);
    GroupSums(s, policy);
    UnnestLength(Groups(s.delta), PlanAdd(s, policy));
    ForeignReaches(s, policy, shadowed);
  }

  lemma UnnestLength<T>(values: set<T>, f: T -> nat)
    ensures |Unnest(values, f)| == Sum(values, f)
  {
    if v :| v in values { UnnestCount(values, f, v); }
  }

  ghost function LeftBy<T(!new)>(s: BagSite<T>, policy: Policy, shadowed: bool): seq<Copy<T>>
    requires s.snapshot.Some?
  {
    if shadowed then DeleteAndReinsert(s, policy) else DeleteLowest(s, policy)
  }

  lemma PlanAddCount<T(!new)>(s: BagSite<T>, policy: Policy, v: T)
    requires s.snapshot.Some?
    ensures Occ(Unnest(Groups(s.delta), PlanAdd(s, policy)), v) == PlanAdd(s, policy)(v)
  {
    UnnestCount(Groups(s.delta), PlanAdd(s, policy), v);
    if v !in Groups(s.delta) { Outside(s, policy, v); }
  }

  lemma LeftCount<T(!new)>(s: BagSite<T>, policy: Policy, shadowed: bool, v: T)
    requires s.snapshot.Some?
    ensures Occ(LeftBy(s, policy, shadowed), v) == NatMax(Occ(s.base, v) - PlanDel(s, policy)(v))
  {
    DeletesAgree(s, policy, v);
  }

  lemma PlanBalances<T(!new)>(s: BagSite<T>, policy: Policy, v: T)
    requires s.snapshot.Some? && (policy == Abort ==> !AnyDrift(s))
    ensures NatMax(Occ(s.base, v) - PlanDel(s, policy)(v)) + PlanAdd(s, policy)(v) == Target(policy, Look(s, v))
  {
    PlanIsHostStep(s, policy, v);
  }

  lemma ForeignReachesAt<T(!new)>(s: BagSite<T>, policy: Policy, shadowed: bool, v: T)
    requires s.snapshot.Some? && (policy == Abort ==> !AnyDrift(s))
    ensures Occ(LeftBy(s, policy, shadowed) + Unnest(Groups(s.delta), PlanAdd(s, policy)), v)
            == Target(policy, Look(s, v))
  {
    LeftCount(s, policy, shadowed, v);
    PlanAddCount(s, policy, v);
    PlanBalances(s, policy, v);
    OccConcat(LeftBy(s, policy, shadowed), Unnest(Groups(s.delta), PlanAdd(s, policy)), v);
  }

  lemma ForeignReaches<T(!new)>(s: BagSite<T>, policy: Policy, shadowed: bool)
    requires s.snapshot.Some? && (policy == Abort ==> !AnyDrift(s))
    ensures AllReach(s, policy, LeftBy(s, policy, shadowed) + Unnest(Groups(s.delta), PlanAdd(s, policy)))
  {
    forall v ensures Occ(LeftBy(s, policy, shadowed) + Unnest(Groups(s.delta), PlanAdd(s, policy)), v)
      == Target(policy, Look(s, v))
    {
      ForeignReachesAt(s, policy, shadowed, v);
    }
  }
}
