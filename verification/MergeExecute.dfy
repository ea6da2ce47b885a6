/** The host's merge of one keyed delta table: the row loop, the deletes by row id and the
    appends, on a stored base table. */
module MergeExecute {
  import opened Values
  import opened KeyedDelta
  import opened KeyedMerge
  import opened KeyedConstraints

  function Contents(rows: map<nat, Row>, index: map<Key, nat>): Table
    requires forall k :: k in index ==> index[k] in rows
  {
    map k | k in index :: rows[index[k]]
  }

  /** A stored table with a PRIMARY KEY on the key columns and further unique indexes. */
  class StoredTable {
    const uniques: seq<Constraint>
    var rows: map<nat, Row>
    var nextId: nat
    /** The PRIMARY KEY index; the merge scans instead of using it. */
    ghost var index: map<Key, nat>

    ghost predicate Valid()
      reads this
    {
      && (forall id :: id in rows ==> id < nextId && rows[id].key in index && index[rows[id].key] == id)
      && (forall k :: k in index ==> index[k] in rows && rows[index[k]].key == k)
      && UniqueUnder(uniques, Contents(rows, index))
    }

    ghost function Table(): Table
      requires Valid()
      reads this
    {
      Contents(rows, index)
    }

    /** One scan: row ids and rows of the wanted keys, in whatever order the scan lists them. */
    method Resolve(wanted: set<Key>) returns (ids: map<Key, nat>, found: map<Key, Row>)
      requires Valid()
      ensures forall k :: k in ids <==> k in wanted && k in Table()
      ensures forall k :: k in ids ==> k in index && ids[k] == index[k]
      ensures found.Keys == ids.Keys && forall k :: k in found ==> found[k] == Table()[k]
    {
      ids, found := map[], map[];
      var rest := rows.Keys;
      while rest != {}
        invariant rest <= rows.Keys
        invariant forall k :: k in ids <==> k in wanted && k in index && index[k] !in rest
        invariant forall k :: k in ids ==> k in index && ids[k] == index[k]
        invariant found.Keys == ids.Keys && forall k :: k in found ==> found[k] == rows[index[k]]
        decreases rest
      {
        var id :| id in rest;
        var k := rows[id].key;
        if k in wanted { ids, found := ids[k := id], found[k := rows[id]]; }
        rest := rest - {id};
      }
    }

    method Delete(id: nat)
      requires Valid() && id in rows
      modifies this
      ensures Valid() && rows == old(rows) - {id} && index == old(index) - {old(rows)[id].key}
      ensures Table() == old(Table()) - {old(rows)[id].key}
    {
      UniquePart(uniques, Contents(rows - {id}, index - {rows[id].key}), Contents(rows, index));
      index := index - {rows[id].key};
      rows := rows - {id};
    }

    /** Refused when a unique index holds the row's values. */
    method Append(row: Row) returns (ok: bool)
      requires Valid() && row.key !in Table()
      modifies this
      ensures ok <==> UniqueUnder(uniques, old(Table())[row.key := row])
      ensures ok ==> Valid() && Table() == old(Table())[row.key := row]
    {
      UniqueTableOneMore(uniques, Table(), row);
      TakenByRow(uniques, rows, index, row);
      ok := !exists u, id :: u in uniques && id in rows && Clash(u, rows[id], row);
      if ok {
        assert Contents(rows[nextId := row], index[row.key := nextId]) == Table()[row.key := row];
        rows, index, nextId := rows[nextId := row], index[row.key := nextId], nextId + 1;
      }
    }

    /** Deletes the rows of distinct present keys, by row id. */
    method DeleteAll(ids: seq<nat>, ghost keys: seq<Key>)
      requires Valid() && |ids| == |keys| && Distinct(keys)
      requires forall i :: 0 <= i < |ids| ==> keys[i] in index && index[keys[i]] == ids[i]
      modifies this
      ensures Valid() && Table() == old(Table()) - KeySet(keys)
    {
      for i := 0 to |ids|
        invariant Valid() && Table() == old(Table()) - KeySet(keys[..i])
        invariant forall j :: i <= j < |ids| ==> keys[j] in index && index[keys[j]] == ids[j]
      {
        assert keys[..i + 1][..i] == keys[..i];
        Delete(ids[i]);
      }
      assert keys[..|keys|] == keys;
    }

    /** Appends rows of distinct absent keys: accepted exactly when the indexes stay unique. */
    method AppendAll(news: seq<Row>) returns (ok: bool)
      requires Valid() && DistinctRows(news)
      requires forall i :: 0 <= i < |news| ==> news[i].key !in Table()
      modifies this
      ensures ok <==> UniqueUnder(uniques, WithRows(old(Table()), news))
      ensures ok ==> Valid() && Table() == WithRows(old(Table()), news)
    {
      ghost var before := Table();
      for i := 0 to |news|
        invariant Valid() && Table() == WithRows(before, news[..i])
        invariant forall j :: i <= j < |news| ==> news[j].key !in Table()
      {
        assert news[..i + 1][..i] == news[..i];
        ok := Append(news[i]);
        if !ok {
          PrefixIsPart(before, news, i + 1);
          if UniqueUnder(uniques, WithRows(before, news)) {
            UniquePart(uniques, WithRows(before, news[..i + 1]), WithRows(before, news));
          }
          return;
        }
      }
      assert news[..|news|] == news;
      ok := true;
    }
  }

  lemma TakenByRow(us: seq<Constraint>, rows: map<nat, Row>, index: map<Key, nat>, row: Row)
    requires forall id :: id in rows ==> rows[id].key in index && index[rows[id].key] == id
    requires forall k :: k in index ==> index[k] in rows && rows[index[k]].key == k
    ensures Taken(us, Contents(rows, index), row) <==> exists u, id :: u in us && id in rows && Clash(u, rows[id], row)
  {
    var t := Contents(rows, index);
    if u, k :| u in us && k in t && Clash(u, t[k], row) {
      var id := index[k];
      assert id in rows && Clash(u, rows[id], row);
    }
    if u, id :| u in us && id in rows && Clash(u, rows[id], row) {
      var k := rows[id].key;
      assert k in t && t[k] == rows[id] && Clash(u, t[k], row);
    }
  }

  lemma PrefixIsPart(t: Table, rows: seq<Row>, i: nat)
    requires DistinctRows(rows) && i <= |rows| && forall j :: 0 <= j < |rows| ==> rows[j].key !in t
    ensures PartOf(WithRows(t, rows[..i]), WithRows(t, rows))
    decreases |rows| - i
  {
    if i == |rows| {
      assert rows[..i] == rows;
    } else {
      PrefixIsPart(t, rows, i + 1);
      assert rows[..i + 1][..i] == rows[..i];
      WithRowsMiss(t, rows[..i], rows[i].key);
    }
  }

  predicate Distinct(keys: seq<Key>) {
    forall i, j :: 0 <= i < j < |keys| ==> keys[i] != keys[j]
  }

  // ----- the row loop -----

  function Wanted(rows: seq<Change>): set<Key> {
    set c | c in rows :: c.row.key
  }

  /** All columns of a row in order, key columns first. */
  function Columns(r: Row, width: nat): seq<Value> {
    r.key.parts + seq(width, i requires 0 <= i < width => At(r, i))
  }

  /** Column by column, key columns included. */
  method HasDrifted(snap: Row, now: Row, width: nat) returns (drift: bool)
    requires snap.key == now.key
    ensures drift <==> Differs(width, now, snap)
  {
    var a, b := Columns(snap, width), Columns(now, width);
    for col := 0 to |a|
      invariant forall i :: 0 <= i < col ==> a[i] == b[i]
    {
      if a[col] != b[col] {
        assert At(now, col - |now.key.parts|) != At(snap, col - |snap.key.parts|);
        return true;
      }
    }
    forall i | 0 <= i < width ensures At(now, i) == At(snap, i) {
      assert a[|snap.key.parts| + i] == b[|now.key.parts| + i];
    }
    return false;
  }

  /** The keys whose base row the loop deletes, and the rows it appends, in loop order. */
  function Doomed(s: Site, policy: Policy, rows: seq<Change>): seq<Key> {
    if rows == [] then []
    else
      var c := rows[|rows| - 1];
      Doomed(s, policy, rows[..|rows| - 1]) + if Applies(s, policy, c) && c.row.key in s.base then [c.row.key] else []
  }

  function Appended(s: Site, policy: Policy, rows: seq<Change>): seq<Row> {
    if rows == [] then []
    else
      var c := rows[|rows| - 1];
      Appended(s, policy, rows[..|rows| - 1]) + if Applies(s, policy, c) && c.op != D then [c.row] else []
  }

  datatype Plan = Stopped | Plan(toDelete: seq<nat>, appends: seq<Row>, conflicts: nat, applied: nat)

  /** What the scans resolved for the delta's keys. */
  datatype Lookup = Lookup(ids: map<Key, nat>, now: map<Key, Row>, snapshot: Option<map<Key, Row>>)

  predicate SameAt(m: map<Key, Row>, t: Table, k: Key) {
    (k in m <==> k in t) && (k in m ==> m[k] == t[k])
  }

  predicate ResolvedAt(l: Lookup, s: Site, k: Key) {
    && (k in l.ids <==> k in s.base) && (l.snapshot.Some? <==> s.snapshot.Some?)
    && (l.snapshot.Some? ==> SameAt(l.now, s.base, k) && SameAt(l.snapshot.value, s.snapshot.value, k))
  }

  predicate KeyedSite(s: Site) {
    WellKeyed(s.base) && (s.snapshot.Some? ==> WellKeyed(s.snapshot.value))
  }

  method Classify(ghost s: Site, c: Change, width: nat, l: Lookup) returns (conflict: bool)
    requires s.width == width && KeyedSite(s) && ResolvedAt(l, s, c.row.key)
    ensures conflict <==> Conflict(s, c)
  {
    var k := c.row.key;
    var inBase, drift := k in l.ids, false;
    if l.snapshot.Some? && inBase && k in l.snapshot.value {
      drift := HasDrifted(l.snapshot.value[k], l.now[k], width);
    }
    conflict := (c.op == I && inBase) || (c.op == U && !inBase) || drift;
  }

  function IdsOf(ids: map<Key, nat>, keys: seq<Key>): seq<nat> {
    if keys == [] then []
    else
      var k := keys[|keys| - 1];
      IdsOf(ids, keys[..|keys| - 1]) + if k in ids then [ids[k]] else []
  }

  lemma IdsOfOneMore(ids: map<Key, nat>, keys: seq<Key>, k: Key)
    requires k in ids
    ensures IdsOf(ids, keys + [k]) == IdsOf(ids, keys) + [ids[k]]
  {
    assert (keys + [k])[..|keys|] == keys;
  }

  /** One round of the row loop, once the row is known to conflict or not. */
  function AddRow(p: Plan, conflict: bool, policy: Policy, ids: map<Key, nat>, c: Change): Plan
    requires p.Plan?
  {
    var conflicts := p.conflicts + if conflict then 1 else 0;
    if conflict && policy == Theirs then p.(conflicts := conflicts)
    else
      Plan(p.toDelete + if c.row.key in ids then [ids[c.row.key]] else [],
           p.appends + if c.op != D then [c.row] else [], conflicts,
           p.applied + if c.op != D || c.row.key in ids then 1 else 0)
  }

  function Collect(s: Site, policy: Policy, ids: map<Key, nat>, rows: seq<Change>): (p: Plan)
    ensures p.Plan?
  {
    if rows == [] then Plan([], [], 0, 0)
    else
      var c := rows[|rows| - 1];
      AddRow(Collect(s, policy, ids, rows[..|rows| - 1]), Conflict(s, c), policy, ids, c)
  }

  lemma {:induction false} CollectConflicts(s: Site, policy: Policy, ids: map<Key, nat>, rows: seq<Change>)
    ensures Collect(s, policy, ids, rows).conflicts == CountWhere(rows, (c: Change) => Conflict(s, c))
  {
    if rows != [] { CollectConflicts(s, policy, ids, rows[..|rows| - 1]); }
  }

  /** The loop's accumulators, each on its own. */
  lemma {:induction false} CollectMeans(s: Site, policy: Policy, ids: map<Key, nat>, rows: seq<Change>)
    requires forall c :: c in rows ==> (c.row.key in ids <==> c.row.key in s.base)
    ensures var p := Collect(s, policy, ids, rows);
            && p.toDelete == IdsOf(ids, Doomed(s, policy, rows)) && p.appends == Appended(s, policy, rows)
            && p.applied == CountWhere(rows, (c: Change) => Counted(s, policy, c))
  {
    if rows != [] {
      var init, c := rows[..|rows| - 1], rows[|rows| - 1];
      assert c in rows && forall x :: x in init ==> x in rows;
      CollectMeans(s, policy, ids, init);
      if c.row.key in ids { IdsOfOneMore(ids, Doomed(s, policy, init), c.row.key); }
      assert Doomed(s, policy, init) + [] == Doomed(s, policy, init)
             && Appended(s, policy, init) + [] == Appended(s, policy, init);
    }
  }

  /** One round: classify the row, resolve a conflict by policy, extend the lists. */
  method PlanRow(ghost s: Site, policy: Policy, width: nat, l: Lookup, c: Change, p: Plan) returns (q: Plan)
    requires s.width == width && KeyedSite(s) && ResolvedAt(l, s, c.row.key) && p.Plan?
    ensures q == if policy == Abort && Conflict(s, c) then Stopped else AddRow(p, Conflict(s, c), policy, l.ids, c)
  {
    var conflict := Classify(s, c, width, l);
    var toDelete, appends, conflicts, applied := p.toDelete, p.appends, p.conflicts, p.applied;
    if conflict {
      if policy == Abort { return Stopped; }
      conflicts := conflicts + 1;
      if policy == Theirs { return Plan(toDelete, appends, conflicts, applied); }
    }
    if c.row.key in l.ids { toDelete := toDelete + [l.ids[c.row.key]]; }
    if c.op != D { appends := appends + [c.row]; }
    if c.op != D || c.row.key in l.ids { applied := applied + 1; }
    return Plan(toDelete, appends, conflicts, applied);
  }

  /** The row loop. */
  method PlanRows(ghost s: Site, policy: Policy, width: nat, l: Lookup, rows: seq<Change>) returns (plan: Plan)
    requires s.width == width && KeyedSite(s) && forall i :: 0 <= i < |rows| ==> ResolvedAt(l, s, rows[i].row.key)
    ensures plan.Stopped? <==> policy == Abort && CountWhere(rows, (c: Change) => Conflict(s, c)) > 0
    ensures plan.Plan? ==> plan == Collect(s, policy, l.ids, rows)
  {
    plan := Plan([], [], 0, 0);
    for i := 0 to |rows|
      invariant plan.Plan? && plan == Collect(s, policy, l.ids, rows[..i])
      invariant policy == Abort ==> plan.conflicts == 0
    {
      assert rows[..i + 1][..i] == rows[..i];
      plan := PlanRow(s, policy, width, l, rows[i], plan);
      if plan.Stopped? {
        AnyConflictCounts(s, rows, i);
        return;
      }
    }
    assert rows[..|rows|] == rows;
    CollectConflicts(s, policy, l.ids, rows);
  }

  lemma AnyConflictCounts(s: Site, rows: seq<Change>, i: nat)
    requires i < |rows| && Conflict(s, rows[i])
    ensures CountWhere(rows, (c: Change) => Conflict(s, c)) > 0
  {
    CountWhereAny(rows, (c: Change) => Conflict(s, c));
  }

  lemma ResolvedRows(s: Site, l: Lookup, rows: seq<Change>)
    requires forall i :: 0 <= i < |rows| ==> ResolvedAt(l, s, rows[i].row.key)
    ensures forall c :: c in rows ==> (c.row.key in l.ids <==> c.row.key in s.base)
  {
  }

  // ----- from the lists to the merged table -----

  lemma {:induction false} DoomedAre(s: Site, policy: Policy, rows: seq<Change>)
    requires DistinctKeys(rows)
    ensures Distinct(Doomed(s, policy, rows))
    ensures forall k :: k in Doomed(s, policy, rows) <==> exists c ::
              c in rows && c.row.key == k
              && Applies(s, policy, c) && k in s.base
  {
    if rows != [] {
      var n := |rows| - 1;
      DoomedAre(s, policy, rows[..n]);
      assert rows == rows[..n] + [rows[n]];
    }
  }

  lemma {:induction false} AppendedAre(s: Site, policy: Policy, rows: seq<Change>)
    requires DistinctKeys(rows)
    ensures DistinctRows(Appended(s, policy, rows))
    ensures forall r :: r in Appended(s, policy, rows) <==> exists c ::
              c in rows && c.row == r
              && Applies(s, policy, c) && c.op != D
  {
    if rows != [] {
      var n := |rows| - 1;
      AppendedAre(s, policy, rows[..n]);
      assert rows == rows[..n] + [rows[n]];
      forall r | r in Appended(s, policy, rows[..n]) ensures r.key != rows[n].row.key {
        var c :| c in rows[..n] && c.row == r;
      }
    }
  }

  lemma MergeAt(s: Site, policy: Policy, rows: seq<Change>, k: Key)
    requires DistinctKeys(rows)
    ensures var delta := DeltaOf(rows);
            && (k in delta ==> delta[k] in rows && delta[k].row.key == k)
            && (forall c :: c in rows && c.row.key == k ==> k in delta && delta[k] == c)
  {
    DeltaOfHolds(rows);
  }

  function Vacated(s: Site, policy: Policy, rows: seq<Change>): Table {
    s.base - KeySet(Doomed(s, policy, rows))
  }

  lemma ListsGiveMergeAt(s: Site, policy: Policy, rows: seq<Change>, k: Key)
    requires DistinctKeys(rows)
    ensures var merged, got := MergedTable(s, policy, DeltaOf(rows)),
            WithRows(Vacated(s, policy, rows), Appended(s, policy, rows));
            (k in merged <==> k in got) && (k in merged ==> merged[k] == got[k])
  {
    var news, delta := Appended(s, policy, rows), DeltaOf(rows);
    DoomedAre(s, policy, rows);
    AppendedAre(s, policy, rows);
    MergeAt(s, policy, rows, k);
    if k in delta && Applies(s, policy, delta[k]) && delta[k].op != D {
      assert delta[k].row in news;
      var i :| 0 <= i < |news| && news[i] == delta[k].row;
      WithRowsHit(Vacated(s, policy, rows), news, i);
    } else {
      WithRowsMiss(Vacated(s, policy, rows), news, k);
    }
  }

  /** Deleting the doomed keys and appending the collected rows gives the merged table. */
  lemma ListsGiveMerge(s: Site, policy: Policy, rows: seq<Change>)
    requires DistinctKeys(rows)
    ensures WithRows(Vacated(s, policy, rows), Appended(s, policy, rows)) == MergedTable(s, policy, DeltaOf(rows))
  {
    var merged, got := MergedTable(s, policy, DeltaOf(rows)),
        WithRows(Vacated(s, policy, rows), Appended(s, policy, rows));
    forall k ensures (k in merged <==> k in got) && (k in merged ==> merged[k] == got[k]) {
      ListsGiveMergeAt(s, policy, rows, k);
    }
  }

  lemma AppendsAreFree(s: Site, policy: Policy, rows: seq<Change>)
    requires DistinctKeys(rows)
    ensures forall r :: r in Appended(s, policy, rows) ==> r.key !in Vacated(s, policy, rows)
  {
    DoomedAre(s, policy, rows);
    AppendedAre(s, policy, rows);
    forall r | r in Appended(s, policy, rows) ensures r.key !in Vacated(s, policy, rows) {
      var c :| c in rows && c.row == r && Applies(s, policy, c) && c.op != D;
      if r.key in s.base { assert r.key in Doomed(s, policy, rows); }
    }
  }

  lemma {:induction false} IdsOfAt(ids: map<Key, nat>, keys: seq<Key>)
    requires forall k :: k in keys ==> k in ids
    ensures |IdsOf(ids, keys)| == |keys| && forall i :: 0 <= i < |keys| ==> IdsOf(ids, keys)[i] == ids[keys[i]]
  {
    if keys != [] {
      assert keys[|keys| - 1] in keys && forall k :: k in keys[..|keys| - 1] ==> k in keys;
      IdsOfAt(ids, keys[..|keys| - 1]);
    }
  }

  /** Rows are appended or deleted exactly when rows are applied. */
  lemma {:induction false} CollectChanges(s: Site, policy: Policy, ids: map<Key, nat>, rows: seq<Change>)
    ensures Collect(s, policy, ids, rows).applied > 0 <==>
            Collect(s, policy, ids, rows).toDelete != [] || Collect(s, policy, ids, rows).appends != []
  {
    if rows != [] { CollectChanges(s, policy, ids, rows[..|rows| - 1]); }
  }

  /** The two tables as the conflict rule sees them. */
  ghost function SiteOf(base: StoredTable, mat: StoredTable?, width: nat): Site
    requires base.Valid() && (mat != null ==> mat.Valid())
    reads base, mat
  {
    Site(base.Table(), if mat == null then None else Some(mat.Table()), width, base.uniques)
  }

  method LookUpAll(base: StoredTable, mat: StoredTable?, rows: seq<Change>, width: nat) returns (l: Lookup)
    requires base.Valid() && (mat != null ==> mat.Valid())
    ensures KeyedSite(SiteOf(base, mat, width))
    ensures forall i :: 0 <= i < |rows| ==> ResolvedAt(l, SiteOf(base, mat, width), rows[i].row.key)
    ensures forall k :: k in l.ids ==> k in base.index && l.ids[k] == base.index[k]
  {
    var wanted := Wanted(rows);
    var ids, now := base.Resolve(wanted);
    var snapshot: Option<map<Key, Row>> := None;
    if mat != null {
      var matIds, found := mat.Resolve(wanted);
      snapshot := Some(found);
    }
    l := Lookup(ids, now, snapshot);
    forall i | 0 <= i < |rows| ensures rows[i].row.key in wanted { assert rows[i] in rows; }
  }

  /** The host's merge of one keyed table: on the stored base, by row ids, it reaches exactly
      the specified outcome.  A refused merge leaves the base alone: the transaction takes back
      what was done before an index refused a row. */
  method MergeKeyedTable(base: StoredTable, mat: StoredTable?, rows: seq<Change>, width: nat, policy: Policy)
    returns (r: MergeReport)
    requires base.Valid() && (mat != null ==> mat.Valid()) && base != mat && DistinctKeys(rows)
    modifies base
    ensures base.Valid() && (!r.Merged? ==> base.Table() == old(base.Table()))
    ensures Outcome(old(SiteOf(base, mat, width)), policy, rows) ==
            match r
            case Conflicting => Refused
            case NotUnique => Violated
            case Merged(conflicts, applied, changed) => Done(base.Table(), conflicts, applied, changed)
  {
    ghost var s := SiteOf(base, mat, width);
    var l := LookUpAll(base, mat, rows, width);
    var plan := PlanRows(s, policy, width, l, rows);
    if plan.Stopped? { return Conflicting; }
    PlanIsUsable(s, policy, l, rows);
    PlanIsRight(s, policy, l, rows);
    var ok := ApplyPlan(base, plan, Doomed(s, policy, rows));
    r := if ok then Merged(plan.conflicts, plan.applied, plan.toDelete != [] || plan.appends != []) else NotUnique;
  }

  datatype MergeReport = Conflicting | NotUnique | Merged(conflicts: nat, applied: nat, changed: bool)

  /** Deletes, then appends, all or nothing. */
  method ApplyPlan(base: StoredTable, plan: Plan, ghost doomed: seq<Key>) returns (ok: bool)
    requires base.Valid() && plan.Plan? && |plan.toDelete| == |doomed| && Distinct(doomed) && DistinctRows(plan.appends)
    requires forall i :: 0 <= i < |doomed| ==> doomed[i] in base.index && plan.toDelete[i] == base.index[doomed[i]]
    requires forall i :: 0 <= i < |plan.appends| ==> plan.appends[i].key !in base.Table() - KeySet(doomed)
    modifies base
    ensures base.Valid() && (ok <==> UniqueUnder(base.uniques,
                                                 WithRows(old(base.Table()) - KeySet(doomed), plan.appends)))
    ensures base.Table() == if ok then WithRows(old(base.Table()) - KeySet(doomed), plan.appends) else old(base.Table())
  {
    var rows, nextId := base.rows, base.nextId;
    ghost var index := base.index;
    base.DeleteAll(plan.toDelete, doomed);
    ok := base.AppendAll(plan.appends);
    if !ok { base.rows, base.nextId, base.index := rows, nextId, index; }
  }

  /** What the deletes and the appends need of a finished plan. */
  lemma PlanIsUsable(s: Site, policy: Policy, l: Lookup, rows: seq<Change>)
    requires DistinctKeys(rows) && forall i :: 0 <= i < |rows| ==> ResolvedAt(l, s, rows[i].row.key)
    ensures var p, doomed := Collect(s, policy, l.ids, rows), Doomed(s, policy, rows);
            && |p.toDelete| == |doomed| && Distinct(doomed) && DistinctRows(p.appends)
            && (forall i :: 0 <= i < |doomed| ==> doomed[i] in l.ids && p.toDelete[i] == l.ids[doomed[i]])
            && (forall i :: 0 <= i < |p.appends| ==> p.appends[i].key !in Vacated(s, policy, rows))
  {
    ResolvedRows(s, l, rows);
    CollectMeans(s, policy, l.ids, rows);
    DoomedAre(s, policy, rows);
    AppendedAre(s, policy, rows);
    AppendsAreFree(s, policy, rows);
    IdsOfAt(l.ids, Doomed(s, policy, rows));
  }

  /** A finished plan reaches the specified outcome. */
  lemma PlanIsRight(s: Site, policy: Policy, l: Lookup, rows: seq<Change>)
    requires DistinctKeys(rows) && forall i :: 0 <= i < |rows| ==> ResolvedAt(l, s, rows[i].row.key)
    requires !(policy == Abort && CountWhere(rows, (c: Change) => Conflict(s, c)) > 0)
    ensures var p := Collect(s, policy, l.ids, rows);
            Resolved(s, policy, rows) ==
              Done(WithRows(Vacated(s, policy, rows), p.appends), p.conflicts, p.applied, p.toDelete != []
                  || p.appends != [])
  {
    ResolvedRows(s, l, rows);
    CollectMeans(s, policy, l.ids, rows);
    CollectConflicts(s, policy, l.ids, rows);
    CollectChanges(s, policy, l.ids, rows);
    ListsGiveMerge(s, policy, rows);
  }
}
