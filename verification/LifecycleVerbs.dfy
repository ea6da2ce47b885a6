/** The registry table with its scan loops, the parent-chain walks, and the lifecycle verbs that
    update registry rows and physical tables step by step. */
module LifecycleVerbs {
  import opened Values
  import opened KeyedDelta
  import opened Lifecycle
  import opened Decimal

  function EntriesOf(rows: seq<Entry>): map<nat, Entry> {
    if rows == [] then map[] else EntriesOf(rows[..|rows| - 1])[rows[|rows| - 1].id := rows[|rows| - 1]]
  }

  predicate DistinctIds(rows: seq<Entry>) {
    forall i, j :: 0 <= i < j < |rows| ==> rows[i].id != rows[j].id
  }

  lemma {:induction false} EntriesAt(rows: seq<Entry>)
    requires DistinctIds(rows)
    ensures forall i :: 0 <= i < |rows| ==> rows[i].id in EntriesOf(rows) && EntriesOf(rows)[rows[i].id] == rows[i]
    ensures forall id :: id in EntriesOf(rows) ==> exists i :: 0 <= i < |rows| && rows[i].id == id
  {
    if rows != [] {
      var n := |rows| - 1;
      EntriesAt(rows[..n]);
      assert rows == rows[..n] + [rows[n]];
    }
  }

  lemma {:induction false} EntriesUpdated(rows: seq<Entry>, i: nat, e: Entry)
    requires DistinctIds(rows) && i < |rows| && e.id == rows[i].id
    ensures EntriesOf(rows[i := e]) == EntriesOf(rows)[e.id := e]
  {
    var n := |rows| - 1;
    if i < n {
      EntriesUpdated(rows[..n], i, e);
      assert rows[i := e][..n] == rows[..n][i := e];
    } else {
      assert rows[i := e][..n] == rows[..n];
    }
  }

  lemma {:induction false} EntriesConcat(a: seq<Entry>, b: seq<Entry>)
    ensures EntriesOf(a + b) == EntriesOf(a) + EntriesOf(b)
  {
    if b == [] {
      assert a + b == a;
    } else {
      var n := |b| - 1;
      assert (a + b)[..|a + b| - 1] == a + b[..n];
      EntriesConcat(a, b[..n]);
    }
  }

  lemma {:induction false} OnlyTheirs(rows: seq<Entry>, id: nat)
    requires forall i :: 0 <= i < |rows| ==> rows[i].id != id
    ensures id !in EntriesOf(rows)
  {
    if rows != [] { OnlyTheirs(rows[..|rows| - 1], id); }
  }

  lemma DropOne(a: map<nat, Entry>, e: Entry, b: map<nat, Entry>)
    requires e.id !in a && e.id !in b
    ensures (a + (map[e.id := e] + b)) - {e.id} == a + b
  {
  }

  lemma RemoveMiddle(a: seq<Entry>, e: Entry, b: seq<Entry>)
    requires e.id !in EntriesOf(a) && e.id !in EntriesOf(b)
    ensures EntriesOf(a + b) == EntriesOf(a + ([e] + b)) - {e.id}
  {
    EntriesConcat(a, [e] + b);
    EntriesConcat([e], b);
    EntriesConcat(a, b);
    assert [e][..0] == [];
    assert EntriesOf([e]) == map[e.id := e];
    DropOne(EntriesOf(a), e, EntriesOf(b));
  }

  lemma AroundMiddle(rows: seq<Entry>, i: nat)
    requires i < |rows|
    ensures rows == rows[..i] + ([rows[i]] + rows[i + 1..])
  {
  }

  lemma EntriesRemoved(rows: seq<Entry>, i: nat)
    requires DistinctIds(rows) && i < |rows|
    ensures EntriesOf(rows[..i] + rows[i + 1..]) == EntriesOf(rows) - {rows[i].id}
  {
    OnlyTheirs(rows[..i], rows[i].id);
    OnlyTheirs(rows[i + 1..], rows[i].id);
    AroundMiddle(rows, i);
    RemoveMiddle(rows[..i], rows[i], rows[i + 1..]);
  }

  class Registry {
    var rows: seq<Entry>
    var nextId: nat

    ghost predicate Valid()
      reads this
    {
      DistinctIds(rows) && forall i :: 0 <= i < |rows| ==> rows[i].id < nextId
    }

    ghost function Entries(): map<nat, Entry>
      reads this
    {
      EntriesOf(rows)
    }

    constructor ()
      ensures Valid() && Entries() == map[] && nextId == 0
    {
      rows, nextId := [], 0;
    }

    /** The first row with the name. */
    method Lookup(name: string) returns (r: Option<Entry>)
      requires Valid()
      ensures r.Some? ==> r.value.id in Entries() && Entries()[r.value.id] == r.value && r.value.name == name
      ensures r.None? ==> forall id :: id in Entries() ==> Entries()[id].name != name
    {
      EntriesAt(rows);
      for i := 0 to |rows|
        invariant forall j :: 0 <= j < i ==> rows[j].name != name
      {
        if rows[i].name == name { return Some(rows[i]); }
      }
      return None;
    }

    method LookupById(id: nat) returns (r: Option<Entry>)
      requires Valid()
      ensures r == if id in Entries() then Some(Entries()[id]) else None
    {
      EntriesAt(rows);
      for i := 0 to |rows|
        invariant forall j :: 0 <= j < i ==> rows[j].id != id
      {
        if rows[i].id == id { return Some(rows[i]); }
      }
      return None;
    }

    method HasChildren(id: nat) returns (found: bool)
      requires Valid()
      ensures found <==> exists c :: c in Entries() && Entries()[c].parent == Some(id)
    {
      EntriesAt(rows);
      found := false;
      for i := 0 to |rows|
        invariant forall j :: 0 <= j < i ==> rows[j].parent != Some(id)
      {
        if rows[i].parent == Some(id) {
          assert Entries()[rows[i].id] == rows[i];
          return true;
        }
      }
    }

    method FindRow(id: nat) returns (i: nat)
      requires Valid() && id in Entries()
      ensures i < |rows| && rows[i].id == id
    {
      EntriesAt(rows);
      for k := 0 to |rows|
        invariant forall j :: 0 <= j < k ==> rows[j].id != id
      {
        if rows[k].id == id { return k; }
      }
      assert false;
    }

    method Insert(e: Entry)
      requires Valid() && e.id == nextId
      modifies this
      ensures Valid() && Entries() == old(Entries())[e.id := e] && nextId == old(nextId) + 1
    {
      assert (rows + [e])[..|rows|] == rows;
      rows := rows + [e];
      nextId := nextId + 1;
    }

    method Delete(id: nat)
      requires Valid() && id in Entries()
      modifies this`rows
      ensures Valid() && Entries() == old(Entries()) - {id}
    {
      var i := FindRow(id);
      EntriesRemoved(rows, i);
      rows := rows[..i] + rows[i + 1..];
    }

    method Update(id: nat, e: Entry)
      requires Valid() && id in Entries() && e.id == id
      modifies this`rows
      ensures Valid() && Entries() == old(Entries())[id := e]
    {
      var i := FindRow(id);
      EntriesUpdated(rows, i, e);
      rows := rows[i := e];
    }
  }

  // ----- the walks along the parent chain -----

  /** The diff's walk has no bound; it ends because parents are older. */
  method WalkToBase(registry: Registry, entry: Entry) returns (base: Option<nat>)
    requires registry.Valid() && ParentsLive(registry.Entries())
    requires entry.id in registry.Entries() && registry.Entries()[entry.id] == entry
    requires forall id :: id in registry.Entries() ==> registry.Entries()[id].id == id
    ensures base == Nearest(registry.Entries(), entry.id)
  {
    var current := entry;
    while true
      invariant current.id in registry.Entries() && registry.Entries()[current.id] == current
      invariant Nearest(registry.Entries(), current.id) == Nearest(registry.Entries(), entry.id)
      decreases current.id
    {
      if current.materialized { return Some(current.id); }
      if current.parent.None? { return None; }
      var next := registry.LookupById(current.parent.value);
      if next.None? { return None; }
      current := next.value;
    }
  }

  datatype Attach = CycleDetected | Base(id: Option<nat>)

  const MAX_HOPS: nat := 1000

  /** ATTACH's walk counts its hops and calls more than 1000 a cycle.  There is none: it throws
      exactly on longer chains, and otherwise finds what the diff's walk finds. */
  method WalkOnAttach(registry: Registry, entry: Entry) returns (r: Attach)
    requires registry.Valid() && ParentsLive(registry.Entries())
    requires entry.id in registry.Entries() && registry.Entries()[entry.id] == entry
    requires forall id :: id in registry.Entries() ==> registry.Entries()[id].id == id
    ensures r.CycleDetected? <==> Hops(registry.Entries(), entry.id) > MAX_HOPS
    ensures r.Base? ==> r.id == Nearest(registry.Entries(), entry.id)
  {
    var current, depth: nat := entry, 0;
    while true
      invariant current.id in registry.Entries() && registry.Entries()[current.id] == current
      invariant Nearest(registry.Entries(), current.id) == Nearest(registry.Entries(), entry.id)
      invariant depth <= MAX_HOPS && depth + Hops(registry.Entries(), current.id) == Hops(registry.Entries(), entry.id)
      decreases current.id
    {
      if current.materialized { return Base(Some(current.id)); }
      if current.parent.None? { return Base(None); }
      var next := registry.LookupById(current.parent.value);
      depth := depth + 1;
      if depth > MAX_HOPS { return CycleDetected; }
      if next.None? { return Base(None); }
      current := next.value;
    }
  }

  // ----- chains of any length -----

  /** The name of the n-th scenario of a chain. */
  function ChainName(n: nat): string {
    "s" + ToString(n)
  }

  function ChainEvent(n: nat): Event {
    Event.Create(ChainName(n), false, if n == 0 then None else Some(n - 1))
  }

  /** Creates n scenarios, each branched from the one before. */
  function Chain(n: nat): seq<Event> {
    if n == 0 then [] else Chain(n - 1) + [ChainEvent(n - 1)]
  }

  lemma {:induction false} LongerNumeral(m: nat, n: nat)
    requires m <= n
    ensures |ToString(m)| <= |ToString(n)|
  {
    if m >= 10 { LongerNumeral(m / 10, n / 10); }
  }

  lemma ChainNameIsValid(m: nat, n: nat)
    requires m <= n && |ChainName(n)| <= 63
    ensures ValidName(ChainName(m)) && |ChainName(m)| <= 63
  {
    LongerNumeral(m, n);
    var s := ToString(m);
    forall i | 1 <= i < |ChainName(m)| ensures '0' <= ChainName(m)[i] <= '9' { assert ChainName(m)[i] == s[i - 1]; }
  }

  lemma ChainNameIsNew(m: nat, n: nat)
    ensures ChainName(m) == ChainName(n) ==> m == n
  {
    if ChainName(m) == ChainName(n) {
      assert ChainName(m)[1..] == ToString(m) && ChainName(n)[1..] == ToString(n);
      ParseUndoesToString(m);
      ParseUndoesToString(n);
    }
  }

  /** What the registry holds after the chain of n events. */
  ghost predicate IsChain(s: State, n: nat) {
    && s.nextId == n && (forall id: nat :: id in s.entries <==> id < n)
    && forall id :: id in s.entries ==>
      s.entries[id]
      == Entry(id, ChainName(id), false, false, if id == 0 then None else Some(id - 1), false)
  }

  lemma ChainStep(s: State, n: nat)
    requires IsChain(s, n) && |ChainName(n)| <= 63
    ensures IsChain(Step(s, ChainEvent(n)), n + 1)
  {
    ChainNameIsValid(n, n);
    forall id | id in s.entries ensures s.entries[id].name != ChainName(n) { ChainNameIsNew(id, n); }
  }

  lemma {:induction false} ChainRuns(live: map<string, Table>, n: nat)
    requires n > 0 ==> |ChainName(n - 1)| <= 63
    ensures IsChain(Run(Init(live), Chain(n)), n)
  {
    if n > 0 {
      if n > 1 { ChainNameIsValid(n - 2, n - 1); }
      ChainRuns(live, n - 1);
      ChainStep(Run(Init(live), Chain(n - 1)), n - 1);
      var events := Chain(n);
      assert events[..|events| - 1] == Chain(n - 1) && events[|events| - 1] == ChainEvent(n - 1);
    }
  }

  lemma {:induction false} ChainHops(s: State, n: nat, id: nat)
    requires IsChain(s, n) && ParentsLive(s.entries) && id < n
    ensures Hops(s.entries, id) == id && Nearest(s.entries, id) == None
    decreases id
  {
    if id > 0 { ChainHops(s, n, id - 1); }
  }

  /** As long as its name fits, a run of create events reaches a scenario n hops from its root. */
  lemma ChainsOfAnyLength(live: map<string, Table>, n: nat)
    requires |ChainName(n)| <= 63
    ensures var s := Run(Init(live), Chain(n + 1));
            Lifecycle.Inv(s) && n in s.entries && Hops(s.entries, n) == n && Nearest(s.entries, n) == None
  {
    ChainRuns(live, n + 1);
    RunKeepsInv(live, Chain(n + 1));
    ChainHops(Run(Init(live), Chain(n + 1)), n + 1, n);
  }

  /** So the false report is reachable: 1002 creations, each a legal branch of the one before. */
  lemma FalseCycleIsReachable(live: map<string, Table>)
    ensures var s := Run(Init(live), Chain(1002));
            Lifecycle.Inv(s) && 1001 in s.entries && Hops(s.entries, 1001) > MAX_HOPS
                && Nearest(s.entries, 1001) == None
  {
    assert ToString(100) == ToString(10) + ['0'] && ToString(1001) == ToString(100) + ['1'];
    ChainsOfAnyLength(live, 1001);
  }

  // ----- the verbs -----

  class Host {
    const registry: Registry
    var live: map<string, Table>
    var deltas: map<Slot, Delta>
    var mats: map<Slot, Table>

    ghost function State(): State
      reads this, registry
    {
      Lifecycle.State.State(live, registry.Entries(), deltas, mats, registry.nextId)
    }

    ghost predicate Valid()
      reads this, registry
    {
      registry.Valid() && Lifecycle.Inv(State()) && NamesUnique(State())
    }

    constructor (live: map<string, Table>)
      ensures Valid() && fresh(registry) && State() == Init(live)
    {
      registry := new Registry();
      this.live, deltas, mats := live, map[], map[];
    }

    /** create and branch. */
    method Create(name: string, materialized: bool, from: Option<string>) returns (ok: bool, parent: Option<nat>)
      requires Valid()
      modifies this, registry
      ensures Valid()
      ensures ok <==> ValidName(name) && !(from.Some? && materialized) && !NameTaken(old(State()), name)
                      && (from.Some? ==> NameTaken(old(State()), from.value))
      ensures ok ==> State() == CreateStep(old(State()), name, materialized, parent) && (parent.Some? <==> from.Some?)
      ensures ok && parent.Some? ==>
                parent.value in old(State()).entries
                && old(State()).entries[parent.value].name == from.value
      ensures !ok ==> State() == old(State())
    {
      parent := None;
      if !ValidName(name) || (from.Some? && materialized) { return false, None; }
      var taken := registry.Lookup(name);
      if taken.Some? { return false, None; }
      if from.Some? {
        var p := registry.Lookup(from.value);
        if p.None? { return false, None; }
        parent := Some(p.value.id);
      }
      CreateWith(name, materialized, parent);
      ok := true;
    }

    method CreateWith(name: string, materialized: bool, parent: Option<nat>)
      requires Valid() && CanCreate(State(), name, materialized, parent)
      modifies this, registry
      ensures Valid() && State() == CreateStep(old(State()), name, materialized, parent)
    {
      ghost var before := State();
      var id := registry.nextId;
      registry.Insert(Entry(id, name, materialized, false, parent, false));
      CopyTables(id, materialized, parent, before);
      CopiesAreCreate(before, name, materialized, parent, State());
    }

    method Freeze(name: string) returns (ok: bool, ghost id: nat)
      requires Valid()
      modifies registry
      ensures Valid() && (ok <==> NameTaken(old(State()), name))
      ensures ok ==>
                id in old(State()).entries && old(State()).entries[id].name == name
                && State() == FreezeStep(old(State()), id)
      ensures !ok ==> State() == old(State())
    {
      var e := registry.Lookup(name);
      if e.None? { return false, 0; }
      StepKeepsInv(State(), Event.Freeze(e.value.id));
      StepKeepsNames(State(), Event.Freeze(e.value.id));
      registry.Update(e.value.id, e.value.(frozen := true));
      return true, e.value.id;
    }

    /** Refused when unknown or already merged. */
    method Unfreeze(name: string) returns (ok: bool, ghost id: nat)
      requires Valid()
      modifies registry
      ensures Valid() && (ok <==> exists x :: Named(old(State()), name, x) && !old(State()).entries[x].merged)
      ensures ok ==> Named(old(State()), name, id) && State() == UnfreezeStep(old(State()), id)
      ensures !ok ==> State() == old(State())
    {
      var e := registry.Lookup(name);
      if e.None? || e.value.merged { return false, 0; }
      assert Named(State(), name, e.value.id);
      StepKeepsInv(State(), Event.Unfreeze(e.value.id));
      StepKeepsNames(State(), Event.Unfreeze(e.value.id));
      registry.Update(e.value.id, e.value.(frozen := false));
      return true, e.value.id;
    }

    /** Refused when unknown, while attached, or while others branch from it.  attached holds
        the scenarios that some database of this instance has attached. */
    method Drop(name: string, attached: set<string>) returns (ok: bool, ghost id: nat)
      requires Valid()
      modifies this, registry
      ensures Valid() && (ok <==> name !in attached && exists x ::
                Named(old(State()), name, x)
                && !HasChild(old(State()), x))
      ensures ok ==> Named(old(State()), name, id) && State() == DropStep(old(State()), id)
      ensures !ok ==> State() == old(State())
    {
      var e := registry.Lookup(name);
      if e.None? { return false, 0; }
      if name in attached { return false, 0; }
      assert Named(State(), name, e.value.id);
      var children := registry.HasChildren(e.value.id);
      if children { return false, 0; }
      Erase(e.value.id);
      return true, e.value.id;
    }

    method Erase(id: nat)
      requires Valid() && id in State().entries && !HasChild(State(), id)
      modifies this, registry
      ensures Valid() && State() == DropStep(old(State()), id)
    {
      DropKeepsInv(State(), id);
      StepKeepsNames(State(), Event.Drop(id));
      DropTables(id);
      registry.Delete(id);
    }

    /** Drops the scenario's delta and snapshot tables one by one. */
    method DropTables(id: nat)
      modifies this`deltas, this`mats
      ensures deltas == map x | x in old(deltas) && x.id != id :: old(deltas)[x]
      ensures mats == map x | x in old(mats) && x.id != id :: old(mats)[x]
    {
      var toDrop := set x | x in deltas.Keys + mats.Keys && x.id == id;
      while toDrop != {}
        invariant forall x :: x in toDrop ==> x.id == id
        invariant forall x :: x in deltas <==> x in old(deltas) && (x.id == id ==> x in toDrop)
        invariant forall x :: x in mats <==> x in old(mats) && (x.id == id ==> x in toDrop)
        invariant forall x :: x in deltas ==> deltas[x] == old(deltas)[x]
        invariant forall x :: x in mats ==> mats[x] == old(mats)[x]
        decreases toDrop
      {
        var x :| x in toDrop;
        deltas, mats := deltas - {x}, mats - {x};
        toDrop := toDrop - {x};
      }
    }

    /** For every table of the live base: take a snapshot, copy the parent's delta. */
    method CopyTables(id: nat, materialized: bool, parent: Option<nat>, ghost before: State)
      requires before.live == live && before.deltas == deltas && before.mats == mats
      requires forall x :: x in deltas || x in mats ==> x.id < id
      requires parent.Some? ==> parent.value < id
      modifies this`deltas, this`mats
      ensures DeltasCopied(before, deltas, id, parent, {}) && MatsCopied(before, mats, id, materialized, {})
    {
      var rest := live.Keys;
      while rest != {}
        invariant rest <= live.Keys
        invariant DeltasCopied(before, deltas, id, parent, rest) && MatsCopied(before, mats, id, materialized, rest)
        decreases rest
      {
        var t :| t in rest;
        DeltaCopyStep(before, deltas, id, parent, rest, t);
        MatCopyStep(before, mats, id, materialized, rest, t);
        if materialized { mats := mats[Slot(id, t) := live[t]]; }
        if parent.Some? && Slot(parent.value, t) in deltas {
          deltas := deltas[Slot(id, t) := deltas[Slot(parent.value, t)]];
        }
        rest := rest - {t};
      }
    }
  }

  ghost predicate Named(s: State, name: string, id: nat) {
    id in s.entries && s.entries[id].name == name
  }

  /** A delta the branch has inherited when the tables in rest are still to come. */
  predicate Inherits(s: State, id: nat, parent: Option<nat>, rest: set<string>, x: Slot) {
    x.id == id && x.table in s.live && x.table !in rest && parent.Some? && Slot(parent.value, x.table) in s.deltas
  }

  ghost predicate DeltasCopied(s: State, deltas: map<Slot, Delta>, id: nat, parent: Option<nat>, rest: set<string>) {
    && (forall x :: x in deltas <==> x in s.deltas || Inherits(s, id, parent, rest, x))
    && (forall x :: x in s.deltas ==> deltas[x] == s.deltas[x])
    && (forall x :: Inherits(s, id, parent, rest, x) ==> deltas[x] == s.deltas[Slot(parent.value, x.table)])
    && (forall x :: x in s.deltas ==> x.id < id) && (parent.Some? ==> parent.value < id)
  }

  lemma DeltaCopyStep(s: State, deltas: map<Slot, Delta>, id: nat, parent: Option<nat>, rest: set<string>, t: string)
    requires DeltasCopied(s, deltas, id, parent, rest) && t in rest && rest <= s.live.Keys
    ensures var more := if parent.Some? && Slot(parent.value, t) in deltas
            then deltas[Slot(id, t) := deltas[Slot(parent.value, t)]] else deltas;
            DeltasCopied(s, more, id, parent, rest - {t})
  {
    forall x: Slot ensures Inherits(s, id, parent, rest - {t}, x) <==>
                     Inherits(s, id, parent, rest, x)
                         || (x == Slot(id, t) && parent.Some? && Slot(parent.value, t) in s.deltas) {}
    if parent.Some? {
      assert Slot(parent.value, t) in deltas <==> Slot(parent.value, t) in s.deltas;
    }
  }

  predicate Copied(s: State, id: nat, rest: set<string>, x: Slot) {
    x.id == id && x.table in s.live && x.table !in rest
  }

  ghost predicate MatsCopied(s: State, mats: map<Slot, Table>, id: nat, materialized: bool, rest: set<string>) {
    && (forall x :: x in mats <==> x in s.mats || (materialized && Copied(s, id, rest, x)))
    && (forall x :: x in s.mats ==> mats[x] == s.mats[x])
    && (forall x :: materialized && Copied(s, id, rest, x) ==> mats[x] == s.live[x.table])
    && (forall x :: x in s.mats ==> x.id < id)
  }

  lemma MatCopyStep(s: State, mats: map<Slot, Table>, id: nat, materialized: bool, rest: set<string>, t: string)
    requires MatsCopied(s, mats, id, materialized, rest) && t in rest && rest <= s.live.Keys
    ensures var more := if materialized then mats[Slot(id, t) := s.live[t]] else mats;
            MatsCopied(s, more, id, materialized, rest - {t})
  {
    forall x: Slot ensures Copied(s, id, rest - {t}, x) <==> Copied(s, id, rest, x) || x == Slot(id, t) {}
  }

  lemma CopiesAreCreate(s: State, name: string, materialized: bool, parent: Option<nat>, after: State)
    requires Lifecycle.Inv(s) && NamesUnique(s) && CanCreate(s, name, materialized, parent)
    requires after.live == s.live && after.nextId == s.nextId + 1
    requires after.entries == s.entries[s.nextId := Entry(s.nextId, name, materialized, false, parent, false)]
    requires DeltasCopied(s, after.deltas, s.nextId, parent, {})
             && MatsCopied(s, after.mats, s.nextId, materialized, {})
    ensures after == CreateStep(s, name, materialized, parent) && Lifecycle.Inv(after) && NamesUnique(after)
  {
    DeltasAreCreate(s, name, materialized, parent, after.deltas);
    MatsAreCreate(s, name, materialized, parent, after.mats);
    CreateKeepsInv(s, name, materialized, parent);
    StepKeepsNames(s, Event.Create(name, materialized, parent));
  }

  lemma DeltasAreCreate(s: State, name: string, materialized: bool, parent: Option<nat>, deltas: map<Slot, Delta>)
    requires DeltasCopied(s, deltas, s.nextId, parent, {})
    ensures deltas == CreateStep(s, name, materialized, parent).deltas
  {
    var want := CreateStep(s, name, materialized, parent).deltas;
    forall x ensures (x in deltas <==> x in want) && (x in deltas ==> deltas[x] == want[x]) {
      assert Inherits(s, s.nextId, parent, {}, x) <==> x in Inherited(s, parent);
    }
  }

  lemma MatsAreCreate(s: State, name: string, materialized: bool, parent: Option<nat>, mats: map<Slot, Table>)
    requires MatsCopied(s, mats, s.nextId, materialized, {})
    ensures mats == CreateStep(s, name, materialized, parent).mats
  {
    var want := CreateStep(s, name, materialized, parent).mats;
    forall x ensures (x in mats <==> x in want) && (x in mats ==> mats[x] == want[x]) {
      assert materialized && Copied(s, s.nextId, {}, x) <==> x in Snapshots(s, materialized);
    }
  }
}
