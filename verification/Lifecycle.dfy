/** Scenarios over their whole life: the registry, the delta and snapshot tables each scenario
    owns, and what a reader sees through a chain of branches. */
module Lifecycle {
  import opened Values
  import opened KeyedDelta

  /** A registry row. */
  datatype Entry = Entry(id: nat, name: string, materialized: bool, frozen: bool, parent: Option<nat>, merged: bool)

  /** A physical table of a scenario: s<id>_delta_<table> or s<id>_mat_<table>. */
  datatype Slot = Slot(id: nat, table: string)

  datatype State = State(live: map<string, Table>, entries: map<nat, Entry>, deltas: map<Slot, Delta>,
                         mats: map<Slot, Table>, nextId: nat)

  predicate HasChild(s: State, id: nat) {
    exists c :: c in s.entries && s.entries[c].parent == Some(id)
  }

  function DeltaAt(s: State, id: nat, table: string): Delta {
    if Slot(id, table) in s.deltas then s.deltas[Slot(id, table)] else map[]
  }

  // ----- the verbs -----

  function Slots(id: nat, tables: set<string>): (r: set<Slot>)
    ensures forall x :: x in r <==> x.id == id && x.table in tables
  {
    var r := set t | t in tables :: Slot(id, t);
    assert forall x: Slot :: x.id == id && x.table in tables ==> x == Slot(id, x.table);
    r
  }

  /** The delta tables a branch gets: of the live tables, those its parent has a delta for. */
  function Inherited(s: State, parent: Option<nat>): set<Slot> {
    if parent.None? then {} else Slots(s.nextId, set t | t in s.live && Slot(parent.value, t) in s.deltas)
  }

  /** The snapshot tables a materialized scenario gets: every live table. */
  function Snapshots(s: State, materialized: bool): set<Slot> {
    if materialized then Slots(s.nextId, s.live.Keys) else {}
  }

  /** create, or branch when there is a parent: a registry row, snapshots of the live tables if
      materialized, and copies of the parent's deltas for the tables that exist now. */
  function CreateStep(s: State, name: string, materialized: bool, parent: Option<nat>): State {
    var id := s.nextId;
    State(s.live, s.entries[id := Entry(id, name, materialized, false, parent, false)],
          map x | x in s.deltas.Keys + Inherited(s, parent)
            :: if x in Inherited(s, parent) then s.deltas[Slot(parent.value, x.table)] else s.deltas[x],
          map x | x in s.mats.Keys + Snapshots(s, materialized)
            :: if x in Snapshots(s, materialized) then s.live[x.table] else s.mats[x],
          id + 1)
  }

  /** Any write through a scenario; refused when it is frozen. */
  function WriteStep(s: State, id: nat, table: string, delta: Delta): State {
    if id !in s.entries || s.entries[id].frozen then s else s.(deltas := s.deltas[Slot(id, table) := delta])
  }

  function FreezeStep(s: State, id: nat): State {
    if id !in s.entries then s else s.(entries := s.entries[id := s.entries[id].(frozen := true)])
  }

  /** Refused on a merged scenario: its changelog is closed. */
  function UnfreezeStep(s: State, id: nat): State {
    if id !in s.entries || s.entries[id].merged then s
        else s.(entries := s.entries[id := s.entries[id].(frozen := false)])
  }

  predicate CanMerge(s: State, id: nat) {
    id in s.entries && !s.entries[id].merged && !s.entries[id].frozen && !HasChild(s, id)
  }

  /** The base becomes live; the scenario's deltas are emptied, it is frozen and marked merged. */
  function MergeStep(s: State, id: nat, live: map<string, Table>): State {
    if !CanMerge(s, id) then s
    else State(live, s.entries[id := s.entries[id].(frozen := true, merged := true)],
               map x | x in s.deltas :: if x.id == id then map[] else s.deltas[x], s.mats, s.nextId)
  }

  /** Refused while other scenarios branch from it. */
  function DropStep(s: State, id: nat): State {
    if id !in s.entries || HasChild(s, id) then s
    else State(s.live, s.entries - {id}, map x | x in s.deltas && x.id != id :: s.deltas[x],
               map x | x in s.mats && x.id != id :: s.mats[x], s.nextId)
  }

  predicate IsAlpha(c: char) {
    'a' <= c <= 'z' || 'A' <= c <= 'Z'
  }

  predicate ValidName(name: string) {
    && 0 < |name| <= 63 && (IsAlpha(name[0]) || name[0] == '_')
    && forall i :: 0 <= i < |name| ==> IsAlpha(name[i]) || '0' <= name[i] <= '9' || name[i] == '_'
  }

  /** Names one character at a time: a letter or '_' is a name, a name of fewer than 63 characters
      goes on with a letter, a digit or '_', and there are no others. */
  lemma NameRules(name: string, c: char)
    ensures !ValidName("")
    ensures ValidName([c]) <==> 'a' <= c <= 'z' || 'A' <= c <= 'Z' || c == '_'
    ensures name != "" ==>
              (ValidName(name + [c]) <==>
               ValidName(name) && |name| < 63 && ('a' <= c <= 'z' || 'A' <= c <= 'Z' || c == '_' || '0' <= c <= '9'))
  {
    var more := name + [c];
    assert more[|name|] == c && forall i :: 0 <= i < |name| ==> more[i] == name[i];
  }

  predicate NameTaken(s: State, name: string) {
    exists id :: id in s.entries && s.entries[id].name == name
  }

  /** A parent must exist, and a branch is never a materialized copy. */
  predicate CanCreate(s: State, name: string, materialized: bool, parent: Option<nat>) {
    ValidName(name) && !NameTaken(s, name) && (parent.Some? ==> !materialized && parent.value in s.entries)
  }

  datatype Event =
    | Create(name: string, materialized: bool, parent: Option<nat>)
    | Write(id: nat, table: string, delta: Delta)
    | Freeze(id: nat)
    | Unfreeze(id: nat)
    | Merge(id: nat, mergedLive: map<string, Table>)
    | Drop(id: nat)
    | BaseChange(live: map<string, Table>)

  function Step(s: State, e: Event): State {
    match e
    case Create(name, materialized, parent) =>
      if CanCreate(s, name, materialized, parent) then CreateStep(s, name, materialized, parent) else s
    case Write(id, table, delta) => WriteStep(s, id, table, delta)
    case Freeze(id) => FreezeStep(s, id)
    case Unfreeze(id) => UnfreezeStep(s, id)
    case Merge(id, live) => MergeStep(s, id, live)
    case Drop(id) => DropStep(s, id)
    case BaseChange(live) => s.(live := live)
  }

  function Run(s: State, events: seq<Event>): State {
    if events == [] then s else Step(Run(s, events[..|events| - 1]), events[|events| - 1])
  }

  function Init(live: map<string, Table>): State {
    State(live, map[], map[], map[], 0)
  }

  // ----- the invariant -----

  /** Parents are live and older: their ids are smaller. */
  predicate ParentsLive(entries: map<nat, Entry>) {
    forall id :: id in entries && entries[id].parent.Some? ==>
      entries[id].parent.value in entries
      && entries[id].parent.value < id
  }

  /** Only the root of a chain can be materialized. */
  predicate BranchesOverlay(entries: map<nat, Entry>) {
    forall id :: id in entries && entries[id].materialized ==> entries[id].parent.None?
  }

  predicate OwnIds(s: State) {
    forall id :: id in s.entries ==> s.entries[id].id == id && id < s.nextId
  }

  predicate NamesUnique(s: State) {
    forall a, b :: a in s.entries && b in s.entries && s.entries[a].name == s.entries[b].name ==> a == b
  }

  /** Physical tables belong to live scenarios, snapshots to materialized ones. */
  predicate NoOrphans(s: State) {
    && (forall x :: x in s.deltas ==> x.id in s.entries)
    && (forall x :: x in s.mats ==> x.id in s.entries && s.entries[x.id].materialized)
  }

  predicate MergedIsClosed(s: State) {
    && (forall id :: id in s.entries && s.entries[id].merged ==> s.entries[id].frozen)
    && (forall x :: x in s.deltas && x.id in s.entries && s.entries[x.id].merged ==> s.deltas[x] == map[])
  }

  predicate Inv(s: State) {
    ParentsLive(s.entries) && BranchesOverlay(s.entries) && OwnIds(s) && NoOrphans(s) && MergedIsClosed(s)
  }

  lemma CreateKeepsInv(s: State, name: string, materialized: bool, parent: Option<nat>)
    requires Inv(s) && (parent.Some? ==> !materialized && parent.value in s.entries)
    ensures Inv(CreateStep(s, name, materialized, parent))
  {
  }

  lemma DropKeepsInv(s: State, id: nat)
    requires Inv(s)
    ensures Inv(DropStep(s, id))
  {
    var t := DropStep(s, id);
    forall x | x in t.entries && t.entries[x].parent.Some? ensures t.entries[x].parent.value in t.entries {
      assert s.entries[x].parent.value in s.entries;
      if t.entries[x].parent.value == id { assert s.entries[x].parent == Some(id); }
    }
  }

  lemma MergeKeepsInv(s: State, id: nat, live: map<string, Table>)
    requires Inv(s)
    ensures Inv(MergeStep(s, id, live))
  {
  }

  lemma WriteKeepsInv(s: State, id: nat, table: string, delta: Delta)
    requires Inv(s)
    ensures Inv(WriteStep(s, id, table, delta))
  {
  }

  lemma FreezeKeepsInv(s: State, id: nat)
    requires Inv(s)
    ensures Inv(FreezeStep(s, id))
  {
  }

  lemma UnfreezeKeepsInv(s: State, id: nat)
    requires Inv(s)
    ensures Inv(UnfreezeStep(s, id))
  {
  }

  lemma StepKeepsInv(s: State, e: Event)
    requires Inv(s)
    ensures Inv(Step(s, e))
  {
    match e
    case Create(name, materialized, parent) =>
      if CanCreate(s, name, materialized, parent) { CreateKeepsInv(s, name, materialized, parent); }
    case Write(id, table, delta) => WriteKeepsInv(s, id, table, delta);
    case Freeze(id) => FreezeKeepsInv(s, id);
    case Unfreeze(id) => UnfreezeKeepsInv(s, id);
    case Drop(id) => DropKeepsInv(s, id);
    case Merge(id, live) => MergeKeepsInv(s, id, live);
    case BaseChange(_) =>
  }

  lemma StepKeepsNames(s: State, e: Event)
    requires NamesUnique(s)
    ensures NamesUnique(Step(s, e))
  {
    var t := Step(s, e);
    forall a, b | a in t.entries && b in t.entries && t.entries[a].name == t.entries[b].name ensures a == b {
      if a in s.entries && b in s.entries { assert s.entries[a].name == s.entries[b].name; }
    }
  }

  lemma {:induction false} RunKeepsInv(live: map<string, Table>, events: seq<Event>)
    ensures Inv(Run(Init(live), events)) && NamesUnique(Run(Init(live), events))
  {
    if events != [] {
      RunKeepsInv(live, events[..|events| - 1]);
      StepKeepsInv(Run(Init(live), events[..|events| - 1]), events[|events| - 1]);
      StepKeepsNames(Run(Init(live), events[..|events| - 1]), events[|events| - 1]);
    }
  }

  /** Merged or gone, and never back. */
  predicate Closed(s: State, id: nat) {
    id < s.nextId && (id in s.entries ==> s.entries[id].merged)
  }

  lemma StepKeepsClosed(s: State, e: Event, id: nat)
    requires Inv(s) && Closed(s, id)
    ensures Closed(Step(s, e), id)
  {
  }

  lemma {:induction false} RunKeepsClosed(s: State, events: seq<Event>, id: nat)
    requires Inv(s) && Closed(s, id)
    ensures Inv(Run(s, events)) && Closed(Run(s, events), id)
  {
    if events != [] {
      var init, e := events[..|events| - 1], events[|events| - 1];
      RunKeepsClosed(s, init, id);
      StepKeepsInv(Run(s, init), e);
      StepKeepsClosed(Run(s, init), e, id);
    }
  }

  /** A merged scenario stays merged, frozen and empty through any further run, until it is
      dropped, and its id never comes back. */
  lemma MergedForever(s: State, events: seq<Event>, id: nat)
    requires Inv(s) && id in s.entries && s.entries[id].merged
    ensures var after := Run(s, events);
            id in after.entries ==>
              after.entries[id].merged && after.entries[id].frozen
              && forall t :: DeltaAt(after, id, t) == map[]
  {
    RunKeepsClosed(s, events, id);
    var after := Run(s, events);
    if id in after.entries {
      forall t ensures DeltaAt(after, id, t) == map[] {
        if Slot(id, t) in after.deltas { assert after.deltas[Slot(id, t)] == map[]; }
      }
    }
  }

  // ----- what each verb does -----

  /** No event of the run unfreezes or drops the scenario. */
  ghost predicate LeavesFrozen(events: seq<Event>, id: nat) {
    forall i :: 0 <= i < |events| ==> events[i] != Unfreeze(id) && events[i] != Drop(id)
  }

  /** A frozen scenario keeps its changelog through writes, merges and whatever else happens,
      until it is unfrozen or dropped. */
  lemma {:induction false} FrozenIsUntouched(s: State, events: seq<Event>, id: nat)
    requires Inv(s) && id in s.entries && s.entries[id].frozen && LeavesFrozen(events, id)
    ensures var after := Run(s, events);
            && Inv(after) && id in after.entries && after.entries[id] == s.entries[id]
            && forall t :: DeltaAt(after, id, t) == DeltaAt(s, id, t)
  {
    if events != [] {
      var init, e := events[..|events| - 1], events[|events| - 1];
      FrozenIsUntouched(s, init, id);
      StepKeepsInv(Run(s, init), e);
      FrozenStep(Run(s, init), e, id);
    }
  }

  lemma FrozenStep(s: State, e: Event, id: nat)
    requires Inv(s) && id in s.entries && s.entries[id].frozen && e != Unfreeze(id) && e != Drop(id)
    ensures id in Step(s, e).entries && Step(s, e).entries[id] == s.entries[id]
    ensures forall t :: DeltaAt(Step(s, e), id, t) == DeltaAt(s, id, t)
  {
    match e
    case Create(name, materialized, parent) =>
      if CanCreate(s, name, materialized, parent) {
        forall t ensures DeltaAt(Step(s, e), id, t) == DeltaAt(s, id, t) {
          CreateKeepsSlot(s, name, materialized, parent, Slot(id, t));
        }
      }
    case Drop(other) =>
    case Merge(other, live) =>
    case Write(other, table, delta) =>
    case Freeze(other) =>
    case Unfreeze(other) =>
    case BaseChange(_) =>
  }

  /** So a freeze freezes: from then on nothing but unfreezing or dropping touches the changelog. */
  lemma FreezeFreezes(s: State, id: nat, events: seq<Event>)
    requires Inv(s) && id in s.entries && LeavesFrozen(events, id)
    ensures var after := Run(Step(s, Freeze(id)), events);
            && id in after.entries && after.entries[id].frozen && after.entries[id] == s.entries[id].(frozen := true)
            && forall t :: DeltaAt(after, id, t) == DeltaAt(s, id, t)
  {
    StepKeepsInv(s, Freeze(id));
    FrozenIsUntouched(Step(s, Freeze(id)), events, id);
  }

  /** And an unfreeze opens: whatever an unmerged scenario's state was, a write after it lands. */
  lemma UnfreezeOpens(s: State, id: nat, table: string, delta: Delta)
    requires Inv(s) && id in s.entries && !s.entries[id].merged
    ensures var open := Step(s, Unfreeze(id));
            && open == s.(entries := s.entries[id := s.entries[id].(frozen := false)])
            && DeltaAt(Step(open, Write(id, table, delta)), id, table) == delta
            && Inv(open) && id in open.entries
            && Shows(Step(open, Write(id, table, delta)), id, table) ==
               if BaseOf(s, id, table).None? then None else Some(View(BaseOf(s, id, table).value, delta))
  {
    var open := Step(s, Unfreeze(id));
    StepKeepsInv(s, Unfreeze(id));
    NearestKeeps(s.entries, open.entries, id);
    WriteShows(open, id, table, delta);
  }

  /** A merge is refused exactly for a missing, merged, frozen or branched scenario; otherwise the
      base becomes what was merged, and the scenario is closed: merged, frozen and empty. */
  lemma MergeCloses(s: State, id: nat, live: map<string, Table>)
    requires Inv(s)
    ensures var after := Step(s, Merge(id, live));
            if id !in s.entries || s.entries[id].merged || s.entries[id].frozen
               || (exists c :: c in s.entries && s.entries[c].parent == Some(id)) then after == s
            else
              && after.live == live && after.mats == s.mats && after.nextId == s.nextId
              && after.entries == s.entries[id := s.entries[id].(frozen := true, merged := true)]
              && (forall t :: DeltaAt(after, id, t) == map[])
              && forall other, t :: other != id ==> DeltaAt(after, other, t) == DeltaAt(s, other, t)
  {
  }

  /** A drop is refused exactly for a missing or branched scenario; otherwise nothing of it stays
      and nothing else changes. */
  lemma DropForgets(s: State, id: nat)
    requires Inv(s)
    ensures var after := Step(s, Drop(id));
            if id !in s.entries || (exists c :: c in s.entries && s.entries[c].parent == Some(id)) then after == s
            else
              && after.live == s.live && after.nextId == s.nextId && after.entries == s.entries - {id}
              && (forall x :: x in after.deltas || x in after.mats ==> x.id != id)
              && (forall x: Slot :: x.id != id ==>
                (x in after.deltas <==> x in s.deltas)
                && (x in after.mats <==> x in s.mats))
              && (forall x :: x in after.deltas ==> after.deltas[x] == s.deltas[x])
              && forall x :: x in after.mats ==> after.mats[x] == s.mats[x]
  {
  }

  /** A new scenario without a parent shows the base as it is, in either mode. */
  lemma CreatedShowsBase(s: State, name: string, materialized: bool, t: string)
    requires Inv(s) && ValidName(name) && forall id :: id in s.entries ==> s.entries[id].name != name
    ensures var id, made := s.nextId, Step(s, Create(name, materialized, None));
            && Inv(made) && made.entries == s.entries[id := Entry(id, name, materialized, false, None, false)]
            && made.live == s.live && DeltaAt(made, id, t) == map[]
            && Shows(made, id, t) == (if t in s.live then Some(s.live[t]) else None)
  {
    CreateKeepsInv(s, name, materialized, None);
    var id, made := s.nextId, Step(s, Create(name, materialized, None));
    assert !NameTaken(s, name) && made == CreateStep(s, name, materialized, None);
    assert Slot(id, t) !in s.deltas && DeltaAt(made, id, t) == map[];
    assert Slot(id, t) in made.mats <==> materialized && t in s.live;
    if t in s.live { ViewIsBaseIffIdle(s.live[t], map[]); }
  }

  /** While it has no changes and no parent, a change of the base shows in a scenario exactly if it
      is not a materialized copy. */
  lemma UnchangedFollowsBase(s: State, id: nat, other: map<string, Table>, t: string)
    requires Inv(s) && id in s.entries && s.entries[id].parent.None? && DeltaAt(s, id, t) == map[]
    ensures var changed := Step(s, BaseChange(other));
            && Inv(changed) && changed == s.(live := other)
            && Shows(changed, id, t) ==
               if s.entries[id].materialized then Shows(s, id, t) else if t in other then Some(other[t]) else None
  {
    StepKeepsInv(s, BaseChange(other));
    if t in other { ViewIsBaseIffIdle(other[t], map[]); }
  }

  // ----- what a scenario shows -----

  /** The nearest materialized scenario on the parent chain, itself included. */
  function Nearest(entries: map<nat, Entry>, id: nat): Option<nat>
    requires ParentsLive(entries) && id in entries
  {
    var e := entries[id];
    if e.materialized then Some(id) else if e.parent.None? then None else Nearest(entries, e.parent.value)
  }

  /** How many times the walk moves to a parent. */
  function Hops(entries: map<nat, Entry>, id: nat): nat
    requires ParentsLive(entries) && id in entries
  {
    var e := entries[id];
    if e.materialized || e.parent.None? then 0 else 1 + Hops(entries, e.parent.value)
  }

  /** The base table a scenario reads; None when it has no such table. */
  function BaseOf(s: State, id: nat, table: string): Option<Table>
    requires ParentsLive(s.entries) && id in s.entries
  {
    var m := Nearest(s.entries, id);
    if m.None? then (if table in s.live then Some(s.live[table]) else None)
    else if Slot(m.value, table) in s.mats then Some(s.mats[Slot(m.value, table)]) else None
  }

  function Shows(s: State, id: nat, table: string): Option<Table>
    requires ParentsLive(s.entries) && id in s.entries
  {
    var b := BaseOf(s, id, table);
    if b.None? then None else Some(View(b.value, DeltaAt(s, id, table)))
  }

  lemma {:induction false} NearestIsOlder(entries: map<nat, Entry>, id: nat)
    requires ParentsLive(entries) && id in entries
    ensures Nearest(entries, id).Some? ==>
              Nearest(entries, id).value in entries
              && entries[Nearest(entries, id).value].materialized
    decreases id
  {
    if !entries[id].materialized && entries[id].parent.Some? { NearestIsOlder(entries, entries[id].parent.value); }
  }

  /** The chain depends only on the rows' modes and parents. */
  lemma {:induction false} NearestKeeps(a: map<nat, Entry>, b: map<nat, Entry>, id: nat)
    requires ParentsLive(a) && ParentsLive(b) && id in a
    requires forall x :: x in a && x <= id ==>
               x in b && b[x].materialized == a[x].materialized
               && b[x].parent == a[x].parent
    ensures Nearest(b, id) == Nearest(a, id)
    decreases id
  {
    if !a[id].materialized && a[id].parent.Some? { NearestKeeps(a, b, a[id].parent.value); }
  }

  // ----- branching -----

  /** Every table the parent has changed still exists in the base. */
  ghost predicate WrittenTablesExist(s: State, parent: nat) {
    forall t :: DeltaAt(s, parent, t) != map[] ==> t in s.live
  }

  /** A branch inherits the whole changelog exactly when every table the parent has changed
      still exists in the base: the verb enumerates the live tables. */
  lemma BranchInheritsChangelogIff(s: State, name: string, parent: nat)
    requires Inv(s) && parent in s.entries
    ensures (forall t :: DeltaAt(CreateStep(s, name, false, Some(parent)), s.nextId, t) == DeltaAt(s, parent, t)) <==>
            WrittenTablesExist(s, parent)
  {
    var after, id := CreateStep(s, name, false, Some(parent)), s.nextId;
    forall t ensures DeltaAt(after, id, t) == if t in s.live then DeltaAt(s, parent, t) else map[] {
      NewDelta(s, name, parent, t);
    }
  }

  lemma NewDelta(s: State, name: string, parent: nat, t: string)
    requires Inv(s) && parent in s.entries
    ensures DeltaAt(CreateStep(s, name, false, Some(parent)), s.nextId, t) == if t in s.live
            then DeltaAt(s, parent, t) else map[]
  {
    var after, id := CreateStep(s, name, false, Some(parent)), s.nextId;
    assert Slot(id, t) !in s.deltas;
    assert Slot(id, t) in after.deltas <==> t in s.live && Slot(parent, t) in s.deltas;
  }

  lemma BranchBase(s: State, name: string, parent: nat, t: string)
    requires Inv(s) && parent in s.entries
    ensures var after := CreateStep(s, name, false, Some(parent));
            && Inv(after) && s.nextId in after.entries && parent in after.entries
            && BaseOf(after, s.nextId, t) == BaseOf(after, parent, t) == BaseOf(s, parent, t)
  {
    var after := CreateStep(s, name, false, Some(parent));
    CreateKeepsInv(s, name, false, Some(parent));
    NearestKeeps(s.entries, after.entries, parent);
  }

  /** The changes of the parent that its branch would not get change nothing. */
  ghost predicate LostChangesAreIdle(s: State, parent: nat)
    requires ParentsLive(s.entries) && parent in s.entries
  {
    forall t :: t !in s.live && BaseOf(s, parent, t).Some? ==> Idle(BaseOf(s, parent, t).value, DeltaAt(s, parent, t))
  }

  lemma BranchShowsTable(s: State, name: string, parent: nat, t: string)
    requires Inv(s) && parent in s.entries
    ensures var after := CreateStep(s, name, false, Some(parent));
            && Inv(after) && s.nextId in after.entries && parent in after.entries
            && Shows(after, parent, t) == Shows(s, parent, t)
            && (Shows(after, s.nextId, t) == Shows(s, parent, t) <==>
                 (t !in s.live && BaseOf(s, parent, t).Some? ==>
                    Idle(BaseOf(s, parent, t).value, DeltaAt(s, parent, t))))
  {
    BranchBase(s, name, parent, t);
    CreateKeepsSlot(s, name, false, Some(parent), Slot(parent, t));
    NewDelta(s, name, parent, t);
    if BaseOf(s, parent, t).Some? {
      ViewIsBaseIffIdle(BaseOf(s, parent, t).value, DeltaAt(s, parent, t));
      ViewIsBaseIffIdle(BaseOf(s, parent, t).value, map[]);
    }
  }

  /** A branch shows exactly what its parent shows, and leaves the parent's view alone, if and
      only if the changes it does not inherit change nothing - as when it inherits them all. */
  lemma BranchShowsParent(s: State, name: string, parent: nat)
    requires Inv(s) && parent in s.entries
    ensures var after := CreateStep(s, name, false, Some(parent));
            && Inv(after) && s.nextId in after.entries && parent in after.entries
            && (forall t :: Shows(after, parent, t) == Shows(s, parent, t))
            && ((forall t :: Shows(after, s.nextId, t) == Shows(s, parent, t)) <==> LostChangesAreIdle(s, parent))
    ensures WrittenTablesExist(s, parent) || Nearest(s.entries, parent).None? ==> LostChangesAreIdle(s, parent)
  {
    BranchBase(s, name, parent, "");
    forall t { BranchShowsTable(s, name, parent, t); }
  }

  /** A materialized scenario 0 that added a row to a table since dropped from the base. */
  function Vanished(row: Row): State {
    State(map[], map[0 := Entry(0, "p", true, false, None, false)],
          map[Slot(0, "t") := map[row.key := Change(I, row)]], map[Slot(0, "t") := map[]], 1)
  }

  lemma VanishedShows(row: Row)
    ensures Inv(Vanished(row)) && Shows(Vanished(row), 0, "t") == Some(map[row.key := row])
  {
    var delta := map[row.key := Change(I, row)];
    assert View(map[], delta) == map[row.key := row];
    assert DeltaAt(Vanished(row), 0, "t") == delta;
    assert BaseOf(Vanished(row), 0, "t") == Some(map[]);
  }

  /** When the condition fails the branch can differ: a materialized parent changed a table
      that has since been dropped from the base, and its branch does not show the change. */
  lemma BranchMayLoseChanges(row: Row)
    ensures var s := Vanished(row);
            var after := CreateStep(s, "c", false, Some(0));
            && Inv(s) && Inv(after)
            && Shows(s, 0, "t") == Some(map[row.key := row]) && Shows(after, 1, "t") == Some(map[])
  {
    var s := Vanished(row);
    VanishedShows(row);
    var after := CreateStep(s, "c", false, Some(0));
    CreateKeepsInv(s, "c", false, Some(0));
    assert DeltaAt(after, 1, "t") == map[] by { assert Slot(1, "t") !in after.deltas; }
    assert Nearest(after.entries, 1) == Nearest(after.entries, 0) == Some(0);
    assert BaseOf(after, 1, "t") == Some(map[]);
    assert View(map[], map[]) == map[];
  }

  // ----- isolation -----

  /** A write changes what its own scenario shows for that table, and nothing else anywhere. */
  lemma WritesAreIsolated(s: State, id: nat, table: string, delta: Delta, other: nat, t: string)
    requires Inv(s) && other in s.entries && (other != id || t != table)
    ensures other in WriteStep(s, id, table, delta).entries
    ensures Shows(WriteStep(s, id, table, delta), other, t) == Shows(s, other, t)
  {
  }

  /** Through the writing scenario itself the table shows its base under the new changelog. */
  lemma WriteShows(s: State, id: nat, table: string, delta: Delta)
    requires Inv(s) && id in s.entries
    ensures id in WriteStep(s, id, table, delta).entries
    ensures Shows(WriteStep(s, id, table, delta), id, table) ==
            if BaseOf(s, id, table).None? then None
            else Some(View(BaseOf(s, id, table).value, if s.entries[id].frozen then DeltaAt(s, id, table) else delta))
  {
  }

  ghost predicate SlotKept(s: State, after: State, x: Slot) {
    && (x in after.mats <==> x in s.mats) && (x in s.mats ==> after.mats[x] == s.mats[x])
    && DeltaAt(after, x.id, x.table) == DeltaAt(s, x.id, x.table)
  }

  lemma CreateKeepsSlot(s: State, name: string, materialized: bool, parent: Option<nat>, x: Slot)
    requires OwnIds(s) && x.id in s.entries
    ensures SlotKept(s, CreateStep(s, name, materialized, parent), x)
  {
    assert Slot(x.id, x.table) == x && x !in Inherited(s, parent) && x !in Snapshots(s, materialized);
  }

  lemma DropKeepsSlot(s: State, id: nat, x: Slot)
    requires x.id in DropStep(s, id).entries
    ensures SlotKept(s, DropStep(s, id), x)
  {
    assert Slot(x.id, x.table) == x;
  }

  lemma MergeKeepsSlot(s: State, id: nat, live: map<string, Table>, x: Slot)
    requires x.id != id
    ensures SlotKept(s, MergeStep(s, id, live), x)
  {
    assert Slot(x.id, x.table) == x;
  }

  lemma FreezeKeepsTables(s: State, id: nat)
    ensures FreezeStep(s, id).deltas == UnfreezeStep(s, id).deltas == s.deltas
    ensures FreezeStep(s, id).mats == UnfreezeStep(s, id).mats == s.mats
  {
  }

  /** The tables of a scenario that the event is not about are left alone. */
  lemma SlotsSurvive(s: State, e: Event, x: Slot)
    requires Inv(s) && x.id in s.entries && x.id in Step(s, e).entries && !e.Write? && (e.Merge? ==> e.id != x.id)
    ensures SlotKept(s, Step(s, e), x)
  {
    match e
    case Create(name, materialized, parent) =>
      if CanCreate(s, name, materialized, parent) { CreateKeepsSlot(s, name, materialized, parent, x); }
    case Drop(id) => DropKeepsSlot(s, id, x);
    case Merge(id, live) => MergeKeepsSlot(s, id, live, x);
    case Freeze(id) => FreezeKeepsTables(s, id);
    case Unfreeze(id) => FreezeKeepsTables(s, id);
    case BaseChange(_) =>
  }

  /** Snapshots never change while their scenario lives. */
  lemma SnapshotsSurvive(s: State, e: Event, x: Slot)
    requires Inv(s) && x.id in s.entries && x.id in Step(s, e).entries
    ensures (x in Step(s, e).mats <==> x in s.mats) && (x in s.mats ==> Step(s, e).mats[x] == s.mats[x])
  {
    if !e.Write? && !(e.Merge? && e.id == x.id) { SlotsSurvive(s, e, x); }
  }

  /** Neither do freezing, unfreezing, branching from it or dropping others change what a
      scenario shows; merging others and base changes do so only through the live base. */
  lemma OtherVerbsKeepShows(s: State, e: Event, other: nat, t: string)
    requires Inv(s) && other in s.entries && other in Step(s, e).entries
    requires !e.Write? && (e.Merge? ==> e.id != other)
    ensures Inv(Step(s, e))
    ensures Step(s, e).live == s.live || Nearest(s.entries, other).Some?
            ==> Shows(Step(s, e), other, t) == Shows(s, other, t)
  {
    StepKeepsInv(s, e);
    ChainSurvives(s, e, other);
    SlotsSurvive(s, e, Slot(other, t));
    var m := Nearest(s.entries, other);
    if m.Some? {
      NearestIsOlder(s.entries, other);
      SnapshotsSurvive(s, e, Slot(m.value, t));
    }
    SameShows(s, Step(s, e), other, t);
  }

  lemma SameShows(s: State, after: State, id: nat, t: string)
    requires ParentsLive(s.entries) && ParentsLive(after.entries) && id in s.entries && id in after.entries
    requires Nearest(after.entries, id) == Nearest(s.entries, id) && DeltaAt(after, id, t) == DeltaAt(s, id, t)
    requires var m := Nearest(s.entries, id);
             m.Some? ==> (Slot(m.value, t) in after.mats <==> Slot(m.value, t) in s.mats) &&
                         (Slot(m.value, t) in s.mats ==> after.mats[Slot(m.value, t)] == s.mats[Slot(m.value, t)])
    ensures after.live == s.live || Nearest(s.entries, id).Some? ==> Shows(after, id, t) == Shows(s, id, t)
  {
  }

  lemma {:induction false} ChainSurvives(s: State, e: Event, other: nat)
    requires Inv(s) && Inv(Step(s, e)) && other in s.entries && other in Step(s, e).entries
    ensures Nearest(Step(s, e).entries, other) == Nearest(s.entries, other)
    ensures Nearest(s.entries, other).Some? ==> Nearest(s.entries, other).value in Step(s, e).entries
    decreases other
  {
    var after := Step(s, e);
    assert after.entries[other].materialized == s.entries[other].materialized
           && after.entries[other].parent == s.entries[other].parent;
    if !s.entries[other].materialized && s.entries[other].parent.Some? {
      ChainSurvives(s, e, s.entries[other].parent.value);
    }
  }

  // ----- what the merged scenario shows -----

  /** The live base after a merge without conflict: every table becomes the view over it. */
  function MergedLive(s: State, id: nat): map<string, Table> {
    map t | t in s.live :: View(s.live[t], DeltaAt(s, id, t))
  }

  lemma MergedKeepsChain(s: State, id: nat)
    requires Inv(s) && CanMerge(s, id)
    ensures var after := MergeStep(s, id, MergedLive(s, id));
            && Inv(after) && id in after.entries && Nearest(after.entries, id) == Nearest(s.entries, id)
  {
    var after := MergeStep(s, id, MergedLive(s, id));
    MergeKeepsInv(s, id, MergedLive(s, id));
    NearestKeeps(s.entries, after.entries, id);
  }

  lemma MergedShowsTable(s: State, id: nat, t: string)
    requires Inv(s) && CanMerge(s, id)
    ensures var after := MergeStep(s, id, MergedLive(s, id));
            && Inv(after) && id in after.entries
            && (Shows(after, id, t) == Shows(s, id, t) <==>
                 (Nearest(s.entries, id).Some? && BaseOf(s, id, t).Some? ==>
                    Idle(BaseOf(s, id, t).value, DeltaAt(s, id, t))))
  {
    MergedKeepsChain(s, id);
    var after := MergeStep(s, id, MergedLive(s, id));
    assert DeltaAt(after, id, t) == map[];
    if Nearest(s.entries, id).None? {
      if t in s.live { ViewIsBaseIffIdle(MergedLive(s, id)[t], map[]); }
    } else if BaseOf(s, id, t).Some? {
      ViewIsBaseIffIdle(BaseOf(s, id, t).value, DeltaAt(s, id, t));
      ViewIsBaseIffIdle(BaseOf(s, id, t).value, map[]);
    }
  }

  /** After its changes went into the base and its deltas were emptied, a scenario that reads
      the live base still shows what it showed.  One that reads a snapshot falls back to it:
      the merge writes the live tables and never the snapshots, so the views agree if and only
      if every change was idle on its snapshot. */
  lemma MergedShowsSameIff(s: State, id: nat)
    requires Inv(s) && CanMerge(s, id)
    ensures var after := MergeStep(s, id, MergedLive(s, id));
            && Inv(after) && id in after.entries
            && ((forall t :: Shows(after, id, t) == Shows(s, id, t)) <==>
                 (Nearest(s.entries, id).Some? ==>
                    forall t :: BaseOf(s, id, t).Some? ==> Idle(BaseOf(s, id, t).value, DeltaAt(s, id, t))))
  {
    MergedKeepsChain(s, id);
    forall t { MergedShowsTable(s, id, t); }
  }

  /** A materialized scenario 0, taken from an empty table, that added a row. */
  function Copied(row: Row): State {
    Vanished(row).(live := map["t" := map[]])
  }

  /** It shows the row before the merge; after it the base has the row and the scenario not. */
  lemma MergedCopyFallsBack(row: Row)
    ensures var s := Copied(row);
            && Inv(s) && CanMerge(s, 0) && KeyedDelta.Inv(s.live["t"], DeltaAt(s, 0, "t"))
            && Shows(s, 0, "t") == Some(map[row.key := row])
            && var after := MergeStep(s, 0, MergedLive(s, 0));
               Inv(after) && after.live["t"] == map[row.key := row] && Shows(after, 0, "t") == Some(map[])
  {
    var s := Copied(row);
    VanishedShows(row);
    MergedKeepsChain(s, 0);
    assert DeltaAt(s, 0, "t") == map[row.key := Change(I, row)];
    assert View(map[], DeltaAt(s, 0, "t")) == map[row.key := row];
    assert View(map[], map[]) == map[];
  }

  /** A branch 1 of a materialized scenario 0, whose empty copy it reads, that added a row. */
  function BranchOfCopy(row: Row): State {
    State(map["t" := map[]],
          map[0 := Entry(0, "p", true, false, None, false), 1 := Entry(1, "c", false, false, Some(0), false)],
          map[Slot(1, "t") := map[row.key := Change(I, row)]], map[Slot(0, "t") := map[]], 2)
  }

  lemma BranchOfCopyIsLegal(row: Row)
    ensures Inv(BranchOfCopy(row)) && CanMerge(BranchOfCopy(row), 1)
  {
  }

  lemma BranchOfCopyReads(row: Row)
    requires ParentsLive(BranchOfCopy(row).entries)
    ensures var s := BranchOfCopy(row);
            && Nearest(s.entries, 1) == Some(0) && BaseOf(s, 1, "t") == Some(map[])
            && DeltaAt(s, 1, "t") == map[row.key := Change(I, row)]
  {
    assert Nearest(BranchOfCopy(row).entries, 0) == Some(0);
  }

  /** It has no snapshot of its own for the merge to compare with, and still falls back: to its
      parent's copy, which the merge never writes. */
  lemma MergedBranchFallsBack(row: Row)
    ensures var s := BranchOfCopy(row);
            && Inv(s) && CanMerge(s, 1) && !s.entries[1].materialized
            && Shows(s, 1, "t") == Some(map[row.key := row])
            && var after := MergeStep(s, 1, MergedLive(s, 1));
               Inv(after) && 1 in after.entries && after.live["t"] == map[row.key := row]
                   && Shows(after, 1, "t") == Some(map[])
  {
    var s := BranchOfCopy(row);
    BranchOfCopyIsLegal(row);
    BranchOfCopyReads(row);
    MergedKeepsChain(s, 1);
    assert View(map[], DeltaAt(s, 1, "t")) == map[row.key := row];
    assert View(map[], map[]) == map[];
  }
}
