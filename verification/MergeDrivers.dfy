/** A whole merge: every delta table of a scenario, on the host and against a foreign base,
    and the preview over all of them.  Any error rolls the whole merge back. */
module MergeDrivers {
  import opened Values
  import opened KeyedDelta
  import opened KeyedConstraints
  import opened KeyedMerge
  import opened BagDelta
  import opened BagScan
  import opened BagMerge
  import opened BagMergeForeign

  datatype Content<!T> = Keyed(site: Site, rows: seq<Change>) | Keyless(bag: BagSite<T>)

  /** One delta table; its base table may have been dropped since. */
  datatype Job<!T> = Job(hasBase: bool, content: Content<T>)

  /** A base table after the merge. */
  datatype Merged<T> = MergedKeyed(table: Table) | MergedBag(copies: multiset<T>)

  /** What a merge has done so far: the reported counts, and the bases it leaves, table by table. */
  datatype Totals<T> = Totals(tablesChanged: nat, rowsApplied: nat, conflicts: nat, bases: seq<Merged<T>>)

  predicate IsEmpty<T>(c: Content<T>) {
    match c
    case Keyed(_, rows) => rows == []
    case Keyless(bag) => bag.delta == []
  }

  function AddTable<T>(t: Totals<T>, changed: bool, applied: nat, conflicts: nat, after: Merged<T>): Totals<T> {
    Totals(t.tablesChanged + if changed then 1 else 0, t.rowsApplied + applied, t.conflicts + conflicts,
           t.bases + [after])
  }

  function Unchanged<T>(c: Content<T>): Merged<T> {
    match c
    case Keyed(site, _) => MergedKeyed(site.base)
    case Keyless(bag) => MergedBag(Bag(bag.base))
  }

  /** A table that is skipped. */
  function SkipTable<T>(j: Job<T>, t: Totals<T>): Totals<T> {
    if j.hasBase then AddTable(t, false, 0, 0, Unchanged(j.content)) else t
  }

  /** One table on the host; judged: the unique indexes of its base judge the appended rows. */
  ghost function HostTable<T(!new)>(c: Content<T>, policy: Policy, judged: bool, t: Totals<T>): Option<Totals<T>> {
    match c
    case Keyed(site, rows) =>
      var o := if judged then Outcome(site, policy, rows) else Resolved(site, policy, rows);
      if !o.Done? then None else Some(AddTable(t, o.changed, o.applied, o.conflicts, MergedKeyed(o.table)))
    case Keyless(bag) =>
      var o := if judged then BagOutcome(bag, policy) else BagResolved(bag, policy);
      if !o.BagDone? then None
      else Some(AddTable(t, o.deleted + o.inserted > 0, o.deleted + o.inserted, o.conflicts,
                         MergedBag(TargetBag(bag, policy))))
  }

  /** The same table by the statements on the foreign base. */
  ghost function ForeignTable<T(!new)>(c: Content<T>, policy: Policy, shadowed: bool, t: Totals<T>): Option<Totals<T>>
    requires c.Keyless? ==> c.bag.snapshot.Some?
  {
    match c
    case Keyed(site, rows) =>
      var o := ForeignMerge(site, policy, rows);
      if !o.Done? then None else Some(AddTable(t, o.changed, o.applied, o.conflicts, MergedKeyed(o.table)))
    case Keyless(bag) =>
      var o := ForeignBag(bag, policy, shadowed);
      if !o.Committed? then None
      else
        var n := o.report.deleted + o.report.inserted;
        Some(AddTable(t, n > 0, n, o.report.conflicts, MergedBag(Bag(o.after))))
  }

  /** The host skips an empty delta before it looks for the base table. */
  ghost function HostJob<T(!new)>(j: Job<T>, policy: Policy, judged: bool, t: Totals<T>): Option<Totals<T>> {
    if IsEmpty(j.content) then Some(SkipTable(j, t))
    else if !j.hasBase then None
    else HostTable(j.content, policy, judged, t)
  }

  ghost function HostMerge<T(!new)>(jobs: seq<Job<T>>, policy: Policy, judged: bool): Option<Totals<T>> {
    if jobs == [] then Some(Totals(0, 0, 0, []))
    else
      var before := HostMerge(jobs[..|jobs| - 1], policy, judged);
      if before.None? then None else HostJob(jobs[|jobs| - 1], policy, judged, before.value)
  }

  /** The foreign merge looks for the base table first. */
  ghost function ForeignMergeAll<T(!new)>(jobs: seq<Job<T>>, policy: Policy, shadowed: bool): Option<Totals<T>>
    requires Pinned(jobs)
  {
    if jobs == [] then Some(Totals(0, 0, 0, []))
    else
      var before, j := ForeignMergeAll(jobs[..|jobs| - 1], policy, shadowed), jobs[|jobs| - 1];
      if before.None? || !j.hasBase then None
      else ForeignTable(j.content, policy, shadowed, before.value)
  }

  /** A foreign base is always read at the scenario's creation time. */
  ghost predicate Pinned<T>(jobs: seq<Job<T>>) {
    forall j :: j in jobs ==> if j.content.Keyed? then j.content.site.snapshot.Some? && DistinctKeys(j.content.rows)
                              else j.content.bag.snapshot.Some?
  }

  predicate VanishedUnused<T>(j: Job<T>) {
    !j.hasBase && IsEmpty(j.content)
  }

  lemma EmptyTableAddsNothing<T(!new)>(c: Content<T>, policy: Policy, t: Totals<T>)
    requires IsEmpty(c)
    ensures HostTable(c, policy, false, t) == Some(AddTable(t, false, 0, 0, Unchanged(c)))
  {
    match c
    case Keyed(site, _) => assert MergedTable(site, policy, map[]) == site.base;
    case Keyless(bag) =>
      EmptyDeltaKeepsBag(bag, policy);
      forall v ensures !BagDrifted(Look(bag, v)) {}
  }

  lemma TablesAgree<T(!new)>(c: Content<T>, policy: Policy, shadowed: bool, t: Totals<T>)
    requires c.Keyed? ==> DistinctKeys(c.rows)
    requires c.Keyless? ==> c.bag.snapshot.Some?
    ensures ForeignTable(c, policy, shadowed, t) == HostTable(c, policy, false, t)
  {
    match c
    case Keyed(site, rows) => ForeignMergeMeetsSpec(site, policy, rows);
    case Keyless(bag) => BagsAgree(bag, policy, shadowed);
  }

  lemma BagsAgree<T(!new)>(bag: BagSite<T>, policy: Policy, shadowed: bool)
    requires bag.snapshot.Some?
    ensures var o, want := ForeignBag(bag, policy, shadowed), BagResolved(bag, policy);
            if want.BagRefused? then !o.Committed?
            else o.Committed? && o.report == want && Bag(o.after) == TargetBag(bag, policy)
  {
    ForeignBagMeetsSpec(bag, policy, shadowed);
    var o := ForeignBag(bag, policy, shadowed);
    if o.Committed? { ReachedIsTargetBag(bag, policy, o.after); }
  }

  /** The merged base would break one of its unique indexes. */
  ghost predicate Breaks<T(!new)>(j: Job<T>, policy: Policy) {
    j.hasBase && !IsEmpty(j.content) &&
    match j.content
    case Keyed(site, rows) => !UniqueUnder(site.uniques, MergedTable(site, policy, DeltaOf(rows)))
    case Keyless(bag) => !UniqueByAll(bag.indexes, TargetBag(bag, policy))
  }

  lemma JudgedJob<T(!new)>(j: Job<T>, policy: Policy, t: Totals<T>)
    ensures HostJob(j, policy, true, t) == if Breaks(j, policy) then None else HostJob(j, policy, false, t)
  {
  }

  lemma BreaksOneMore<T(!new)>(init: seq<Job<T>>, j: Job<T>, policy: Policy)
    ensures (exists x :: x in init + [j] && Breaks(x, policy)) <==>
            (exists x :: x in init && Breaks(x, policy)) || Breaks(j, policy)
  {
    if x :| x in init && Breaks(x, policy) { assert x in init + [j]; }
    if Breaks(j, policy) { assert j in init + [j]; }
  }

  /** The indexes of the host's bases only refuse: they change no merge that they let pass. */
  lemma {:induction false} IndexesOnlyRefuse<T(!new)>(jobs: seq<Job<T>>, policy: Policy)
    ensures HostMerge(jobs, policy, true) ==
            if exists j :: j in jobs && Breaks(j, policy) then None else HostMerge(jobs, policy, false)
  {
    if jobs != [] {
      var init, j := jobs[..|jobs| - 1], jobs[|jobs| - 1];
      IndexesOnlyRefuse(init, policy);
      BreaksOneMore(init, j, policy);
      assert init + [j] == jobs;
      var before := HostMerge(init, policy, false);
      if before.Some? { JudgedJob(j, policy, before.value); }
    }
  }

  /** Host loop and foreign statements refuse the same merges, report the same totals and leave
      the same bases, with two exceptions: the foreign merge also refuses when the base table of
      an empty delta is gone, and the host when a merged base would break a unique index. */
  lemma HostAndForeignAgree<T(!new)>(jobs: seq<Job<T>>, policy: Policy, shadowed: bool)
    requires Pinned(jobs)
    ensures ForeignMergeAll(jobs, policy, shadowed) ==
            if exists j :: j in jobs && VanishedUnused(j) then None else HostMerge(jobs, policy, false)
    ensures HostMerge(jobs, policy, true) ==
            if exists j :: j in jobs && Breaks(j, policy) then None else HostMerge(jobs, policy, false)
  {
    UnjudgedAgree(jobs, policy, shadowed);
    IndexesOnlyRefuse(jobs, policy);
  }

  lemma {:induction false} UnjudgedAgree<T(!new)>(jobs: seq<Job<T>>, policy: Policy, shadowed: bool)
    requires Pinned(jobs)
    ensures ForeignMergeAll(jobs, policy, shadowed) ==
            if exists j :: j in jobs && VanishedUnused(j) then None else HostMerge(jobs, policy, false)
  {
    if jobs != [] {
      var init, j := jobs[..|jobs| - 1], jobs[|jobs| - 1];
      assert jobs == init + [j];
      UnjudgedAgree(init, policy, shadowed);
      assert (exists x :: x in jobs && VanishedUnused(x)) <==>
        (exists x :: x in init && VanishedUnused(x))
        || VanishedUnused(j);
      var before := HostMerge(init, policy, false);
      if before.Some? {
        TablesAgree(j.content, policy, shadowed, before.value);
        if IsEmpty(j.content) { EmptyTableAddsNothing(j.content, policy, before.value); }
      }
    }
  }

  // ----- the preview over all tables -----

  /** Some preview row of the table has conflict = true; tables whose base is gone list none. */
  ghost predicate Flags<T(!new)>(j: Job<T>) {
    j.hasBase &&
    match j.content
    case Keyed(site, rows) => exists c :: c in rows && PreviewConflict(site, c)
    case Keyless(bag) => exists v :: PreviewCopies(bag, v) > 0 && PreviewFlag(bag, v)
  }

  predicate VanishedInUse<T>(j: Job<T>) {
    !j.hasBase && !IsEmpty(j.content)
  }

  /** What the scenario shows over the live base is not unique under the base's indexes. */
  ghost predicate ViewBreaks<T(!new)>(j: Job<T>) {
    j.hasBase && !IsEmpty(j.content) &&
    match j.content
    case Keyed(site, rows) => !UniqueUnder(site.uniques, View(site.base, DeltaOf(rows)))
    case Keyless(bag) => !UniqueByAll(bag.indexes, BagView(Bag(bag.base), bag.delta))
  }

  /** The table stands in the way of an 'abort' merge. */
  ghost predicate Stands<T(!new)>(j: Job<T>) {
    Flags(j) || VanishedInUse(j) || ViewBreaks(j)
  }

  ghost predicate KeyedOnce<T>(jobs: seq<Job<T>>) {
    forall j :: j in jobs && j.content.Keyed? ==> DistinctKeys(j.content.rows)
  }

  lemma StandsIffRefused<T(!new)>(j: Job<T>, t: Totals<T>)
    requires j.hasBase && (j.content.Keyed? ==> DistinctKeys(j.content.rows))
    ensures !IsEmpty(j.content) ==> (Flags(j) || ViewBreaks(j) <==> HostTable(j.content, Abort, true, t).None?)
    ensures IsEmpty(j.content) ==> !Flags(j) && !ViewBreaks(j)
  {
    match j.content
    case Keyed(site, rows) => AbortSucceedsIffPreviewIsClean(site, rows);
    case Keyless(bag) => BagAbortIffPreviewIsClean(bag);
  }

  /** A merge with 'abort' succeeds exactly when no preview row is a conflict, no table with
      changes has lost its base, and no changed view breaks a unique index of its base. */
  lemma {:induction false} AbortIffPreviewIsClean<T(!new)>(jobs: seq<Job<T>>)
    requires KeyedOnce(jobs)
    ensures HostMerge(jobs, Abort, true).Some? <==> forall j :: j in jobs ==> !Stands(j)
  {
    if jobs != [] {
      var init, j := jobs[..|jobs| - 1], jobs[|jobs| - 1];
      assert jobs == init + [j];
      AbortIffPreviewIsClean(init);
      assert (forall x :: x in jobs ==> !Stands(x)) <==> (forall x :: x in init ==> !Stands(x)) && !Stands(j);
      var before := HostMerge(init, Abort, true);
      if j.hasBase { StandsIffRefused(j, if before.Some? then before.value else Totals(0, 0, 0, [])); }
    }
  }

  /** Under 'abort' a merge that succeeds met no conflict. */
  lemma {:induction false} AbortMeansNoConflict<T(!new)>(jobs: seq<Job<T>>, judged: bool)
    ensures HostMerge(jobs, Abort, judged).Some? ==> HostMerge(jobs, Abort, judged).value.conflicts == 0
  {
    if jobs != [] && HostMerge(jobs, Abort, judged).Some? {
      var j := jobs[|jobs| - 1];
      AbortMeansNoConflict(jobs[..|jobs| - 1], judged);
      if j.content.Keyless? && !IsEmpty(j.content) {
        NoDriftNoConflicts(j.content.bag);
      }
    }
  }

  lemma NoDriftNoConflicts<T(!new)>(bag: BagSite<T>)
    requires !AnyDrift(bag)
    ensures Sum(ValuesOf(bag.delta), Drifts(bag)) == 0
  {
    ConflictSum(bag);
  }

  // ----- what a whole merge adds up to -----

  /** Two parts of a merge, put together: both must pass, the counts add, and the bases follow
      one another. */
  function Together<T>(a: Option<Totals<T>>, b: Option<Totals<T>>): Option<Totals<T>> {
    if a.None? || b.None? then None
    else Some(Totals(a.value.tablesChanged + b.value.tablesChanged, a.value.rowsApplied + b.value.rowsApplied,
                     a.value.conflicts + b.value.conflicts, a.value.bases + b.value.bases))
  }

  lemma TableAdds<T>(t: Totals<T>, u: Totals<T>, changed: bool, applied: nat, conflicts: nat, after: Merged<T>)
    ensures AddTable(Together(Some(t), Some(u)).value, changed, applied, conflicts, after) ==
            Together(Some(t), Some(AddTable(u, changed, applied, conflicts, after))).value
  {
    assert (t.bases + u.bases) + [after] == t.bases + (u.bases + [after]);
  }

  lemma KeyedTableAdds<T(!new)>(site: Site, rows: seq<Change>, policy: Policy, judged: bool, t: Totals<T>, u: Totals<T>)
    ensures HostTable(Keyed(site, rows), policy, judged, Together(Some(t), Some(u)).value) ==
            Together(Some(t), HostTable(Keyed(site, rows), policy, judged, u))
  {
    var o := if judged then Outcome(site, policy, rows) else Resolved(site, policy, rows);
    if o.Done? { TableAdds(t, u, o.changed, o.applied, o.conflicts, MergedKeyed(o.table)); }
  }

  lemma KeylessTableAdds<T(!new)>(bag: BagSite<T>, policy: Policy, judged: bool, t: Totals<T>, u: Totals<T>)
    ensures HostTable(Keyless(bag), policy, judged, Together(Some(t), Some(u)).value) ==
            Together(Some(t), HostTable(Keyless(bag), policy, judged, u))
  {
    var o := if judged then BagOutcome(bag, policy) else BagResolved(bag, policy);
    if o.BagDone? {
      TableAdds(t, u, o.deleted + o.inserted > 0, o.deleted + o.inserted, o.conflicts,
                MergedBag(TargetBag(bag, policy)));
    }
  }

  lemma JobAdds<T(!new)>(j: Job<T>, policy: Policy, judged: bool, t: Totals<T>, u: Totals<T>)
    ensures HostJob(j, policy, judged, Together(Some(t), Some(u)).value) ==
            Together(Some(t), HostJob(j, policy, judged, u))
  {
    TableAdds(t, u, false, 0, 0, Unchanged(j.content));
    match j.content
    case Keyed(site, rows) => KeyedTableAdds(site, rows, policy, judged, t, u);
    case Keyless(bag) => KeylessTableAdds(bag, policy, judged, t, u);
  }

  lemma FirstTable<T>(changed: bool, applied: nat, conflicts: nat, after: Merged<T>)
    ensures AddTable(Totals(0, 0, 0, []), changed, applied, conflicts, after) ==
            Totals(if changed then 1 else 0, applied, conflicts, [after])
  {
  }

  lemma NothingBefore<T(!new)>(j: Job<T>, policy: Policy, judged: bool)
    ensures HostMerge([j], policy, judged) == HostJob(j, policy, judged, Totals(0, 0, 0, []))
  {
    assert [j][..|[j]| - 1] == [];
    assert HostMerge<T>([], policy, judged) == Some(Totals(0, 0, 0, []));
  }

  /** No table's merge depends on the others: a merge passes exactly when both of its parts pass,
      and reports their sum. */
  lemma {:induction false} MergeAddsUp<T(!new)>(a: seq<Job<T>>, b: seq<Job<T>>, policy: Policy, judged: bool)
    ensures HostMerge(a + b, policy, judged) == Together(HostMerge(a, policy, judged), HostMerge(b, policy, judged))
  {
    var t := HostMerge(a, policy, judged);
    if b == [] {
      assert a + b == a && (t.Some? ==> t.value.bases + [] == t.value.bases);
    } else {
      var init, j := b[..|b| - 1], b[|b| - 1];
      assert (a + b)[..|a + b| - 1] == a + init && (a + b)[|a + b| - 1] == j;
      MergeAddsUp(a, init, policy, judged);
      var u := HostMerge(init, policy, judged);
      if t.Some? && u.Some? { JobAdds(j, policy, judged, t.value, u.value); }
    }
  }

  /** The order of the tables changes neither the verdict nor a count, and leaves every table
      the same base. */
  lemma OrderOfTables<T(!new)>(a: seq<Job<T>>, b: seq<Job<T>>, policy: Policy, judged: bool)
    ensures var x, y := HostMerge(a + b, policy, judged), HostMerge(b + a, policy, judged);
            if x.None? then y.None?
            else y.Some? && y.value.tablesChanged == x.value.tablesChanged && y.value.rowsApplied == x.value.rowsApplied
                 && y.value.conflicts == x.value.conflicts && multiset(y.value.bases) == multiset(x.value.bases)
  {
    MergeAddsUp(a, b, policy, judged);
    MergeAddsUp(b, a, policy, judged);
  }

  /** A merge of one keyed table: an empty delta passes and changes nothing, a delta without its
      base is refused, any other table reports what its own merge does. */
  lemma MergeOfOneKeyed<T(!new)>(hasBase: bool, site: Site, rows: seq<Change>, policy: Policy)
    ensures var job: Job<T> := Job(hasBase, Keyed(site, rows));
            var o := Outcome(site, policy, rows);
            HostMerge([job], policy, true) ==
            if rows == [] then Some(Totals(0, 0, 0, if hasBase then [MergedKeyed(site.base)] else []))
            else if !hasBase || !o.Done? then None
            else Some(Totals(if o.changed then 1 else 0, o.applied, o.conflicts, [MergedKeyed(o.table)]))
  {
    NothingBefore<T>(Job(hasBase, Keyed(site, rows)), policy, true);
    FirstTable<T>(false, 0, 0, MergedKeyed(site.base));
    var o := Outcome(site, policy, rows);
    if o.Done? { FirstTable<T>(o.changed, o.applied, o.conflicts, MergedKeyed(o.table)); }
  }

  /** The same for a keyless table. */
  lemma MergeOfOneKeyless<T(!new)>(hasBase: bool, bag: BagSite<T>, policy: Policy)
    ensures var job := Job(hasBase, Keyless(bag));
            var o := BagOutcome(bag, policy);
            HostMerge([job], policy, true) ==
            if bag.delta == [] then Some(Totals(0, 0, 0, if hasBase then [MergedBag(Bag(bag.base))] else []))
            else if !hasBase || !o.BagDone? then None
            else Some(Totals(if o.deleted + o.inserted == 0 then 0 else 1, o.deleted + o.inserted, o.conflicts,
                             [MergedBag(TargetBag(bag, policy))]))
  {
    NothingBefore(Job(hasBase, Keyless(bag)), policy, true);
    FirstTable(false, 0, 0, MergedBag(Bag(bag.base)));
    var o := BagOutcome(bag, policy);
    if o.BagDone? {
      FirstTable(o.deleted + o.inserted > 0, o.deleted + o.inserted, o.conflicts, MergedBag(TargetBag(bag, policy)));
    }
  }
}
