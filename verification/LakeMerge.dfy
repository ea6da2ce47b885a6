/** The two-commit merge into a lake: the lake apply commits on its own connection, then the
    host transaction empties the delta and marks the scenario merged.  Either side may fail or
    crash between the two, and merges are retried. */
module LakeMerge {
  import opened Values
  import opened MergeTag
  import opened Sequences

  /** What a lake commit did; emptied below records which delta the bookkeeping emptied. */
  datatype Work<D> = Apply(who: Identity, delta: D) | Other
  datatype Commit<D> = Commit(extra: string, work: Work<D>)

  datatype Scen<D> = Scen(who: Identity, delta: D, merged: bool, frozen: bool, emptied: Option<D>)

  /** One merge attempt at a time: it reads one delta state, applies it, then books it. */
  datatype Phase<D> = Idle | Started(id: nat, seen: D) | Applied(id: nat, seen: D, counts: Counts)

  /** tagged: the base is a DuckLake; other catalogs have no commit metadata. */
  datatype State<D> = State(tagged: bool, empty: D, lake: seq<Commit<D>>, scens: map<nat, Scen<D>>, phase: Phase<D>,
                            nextId: nat)

  datatype Event<D> =
    | Create(created: int, delta: D)
    | Write(id: nat, delta: D)
    | SetFrozen(id: nat, frozen: bool)
    | Drop(id: nat)
    | OtherCommit(extra: string)
    | Begin(id: nat)
    | LakeStep(ok: bool, counts: Counts)
    | HostStep(ok: bool)
    | Crash

  /** How tags are written and read: the fingerprint of a delta, the text of a tag, what a
      merge reads from a commit under an identity, and which texts are tags at all. */
  datatype Codec<!D> = Codec(fp: D -> string, write: (Identity, D, Counts) -> string,
                             read: (string, Identity) -> Option<Reading>, isTag: string -> bool)

  /** Fingerprints tell deltas apart, a tag is read back under its own identity and under no
      other, and other texts read as nothing. */
  ghost predicate Good<D(!new)>(codec: Codec<D>) {
    && (forall d, e :: codec.fp(d) == codec.fp(e) ==> d == e)
    && (forall who, other, d, n :: codec.read(codec.write(other, d, n), who) ==
          if who == other then Some(Reading(codec.fp(d), Some(n))) else None)
    && (forall extra, who :: !codec.isTag(extra) ==> codec.read(extra, who) == None)
  }

  function TagCodec<D>(fp: D -> string): Codec<D> {
    Codec(fp, (who, d, n) => Tag(who, fp(d), n),
          (extra, who) => if StartsWith(extra, Search(who)) then Some(ReadTag(extra, who)) else None,
          extra => StartsWith(extra, STEM))
  }

  /** The tags the merge writes are good, for fingerprints that tell deltas apart and hold no
      space. */
  lemma TagCodecIsGood<D(!new)>(fp: D -> string)
    requires forall d :: ' ' !in fp(d)
    requires forall d, e :: fp(d) == fp(e) ==> d == e
    ensures Good(TagCodec(fp))
  {
    var codec := TagCodec(fp);
    forall who, other, d, n
      ensures codec.read(codec.write(other, d, n), who) == if who == other then Some(Reading(codec.fp(d), Some(n)))
              else None
    {
      SearchFindsOneIdentity(who, other, fp(d), n);
      if who == other { ReadUndoesTag(who, fp(d), n); }
    }
    forall extra, who | !codec.isTag(extra) ensures codec.read(extra, who) == None {
      if StartsWith(extra, Search(who)) { StemBeginsSearch(extra, who); }
    }
  }

  lemma StemBeginsSearch(extra: string, who: Identity)
    requires StartsWith(extra, Search(who))
    ensures StartsWith(extra, STEM)
  {
    assert Search(who)[..|STEM|] == STEM;
    assert extra[..|STEM|] == extra[..|Search(who)|][..|STEM|];
  }

  predicate Busy<D>(s: State<D>, id: nat) {
    !s.phase.Idle? && s.phase.id == id
  }

  /** The latest commit that reads as a tag of the identity. */
  function FindPrior<D>(lake: seq<Commit<D>>, codec: Codec<D>, who: Identity): Option<Reading> {
    if lake == [] then None
    else
      var r := codec.read(lake[|lake| - 1].extra, who);
      if r.Some? then r else FindPrior(lake[..|lake| - 1], codec, who)
  }

  function BeginMerge<D>(s: State<D>, id: nat): State<D> {
    if !s.phase.Idle? || id !in s.scens || s.scens[id].merged || s.scens[id].frozen then s
    else s.(phase := Started(id, s.scens[id].delta))
  }

  /** ok is false when the apply is refused (a conflict under 'abort', a vanished base table)
      or its transaction fails; then the lake rolls back. */
  function ApplyToLake<D>(s: State<D>, codec: Codec<D>, ok: bool, counts: Counts): State<D>
    requires s.phase.Started?
  {
    var id, seen := s.phase.id, s.phase.seen;
    if id !in s.scens then s.(phase := Idle)
    else
      var who := s.scens[id].who;
      var prior := if s.tagged then FindPrior(s.lake, codec, who) else None;
      if prior.Some? then
        if prior.value.fingerprint != codec.fp(seen) || prior.value.counts.None? then s.(phase := Idle)
        else s.(phase := Applied(id, seen, prior.value.counts.value))
      else if !ok then s.(phase := Idle)
      else
        var extra := if s.tagged then codec.write(who, seen, counts) else "";
        s.(lake := s.lake + [Commit(extra, Apply(who, seen))], phase := Applied(id, seen, counts))
  }

  /** Empty the delta, MarkMerged, SetFrozen - in one host transaction, or not at all. */
  function BookOnHost<D>(s: State<D>, ok: bool): State<D>
    requires s.phase.Applied?
  {
    if !ok || s.phase.id !in s.scens then s.(phase := Idle)
    else
      var scen := s.scens[s.phase.id];
      var booked := scen.(delta := s.empty, merged := true, frozen := true, emptied := Some(scen.delta));
      s.(scens := s.scens[s.phase.id := booked], phase := Idle)
  }

  /** Refused events leave the state alone. */
  function Step<D>(s: State<D>, codec: Codec<D>, e: Event<D>): State<D> {
    match e
    case Create(created, delta) =>
      s.(scens := s.scens[s.nextId := Scen(Identity(s.nextId, created), delta, false, false, None)],
         nextId := s.nextId + 1)
    case Write(id, delta) =>
      if id !in s.scens || s.scens[id].frozen || Busy(s, id) then s
      else s.(scens := s.scens[id := s.scens[id].(delta := delta)])
    case SetFrozen(id, frozen) =>
      if id !in s.scens || (!frozen && s.scens[id].merged) || Busy(s, id) then s
      else s.(scens := s.scens[id := s.scens[id].(frozen := frozen)])
    case Drop(id) =>
      if Busy(s, id) then s else s.(scens := s.scens - {id})
    case OtherCommit(extra) =>
      if codec.isTag(extra) then s else s.(lake := s.lake + [Commit(extra, Other)])
    case Begin(id) => BeginMerge(s, id)
    case LakeStep(ok, counts) => if s.phase.Started? then ApplyToLake(s, codec, ok, counts) else s
    case HostStep(ok) => if s.phase.Applied? then BookOnHost(s, ok) else s
    case Crash => s.(phase := Idle)
  }

  function Init<D>(tagged: bool, empty: D): State<D> {
    State(tagged, empty, [], map[], Idle, 0)
  }

  function Run<D>(s: State<D>, codec: Codec<D>, events: seq<Event<D>>): State<D> {
    if events == [] then s else Step(Run(s, codec, events[..|events| - 1]), codec, events[|events| - 1])
  }

  // ----- the invariant -----

  /** A commit carries the tag of what it applied; other commits carry no tag. */
  ghost predicate Labelled<D(!new)>(c: Commit<D>, codec: Codec<D>) {
    match c.work
    case Apply(who, delta) => exists n :: c.extra == codec.write(who, delta, n)
    case Other => !codec.isTag(c.extra)
  }

  ghost predicate AppliedTo<D>(lake: seq<Commit<D>>, who: Identity) {
    exists i :: 0 <= i < |lake| && lake[i].work.Apply? && lake[i].work.who == who
  }

  ghost predicate Recorded<D>(lake: seq<Commit<D>>, who: Identity, delta: D) {
    exists i :: 0 <= i < |lake| && lake[i].work == Apply(who, delta)
  }

  ghost predicate OncePerIdentity<D>(lake: seq<Commit<D>>) {
    forall i, j :: 0 <= i < j < |lake| && lake[i].work.Apply? && lake[j].work.Apply?
        ==> lake[i].work.who != lake[j].work.who
  }

  ghost predicate LakeInv<D(!new)>(s: State<D>, codec: Codec<D>) {
    && OncePerIdentity(s.lake)
    && (forall i :: 0 <= i < |s.lake| ==> Labelled(s.lake[i], codec))
    && (forall i :: 0 <= i < |s.lake| && s.lake[i].work.Apply? ==> s.lake[i].work.who.id < s.nextId)
  }

  ghost predicate ScenInv<D>(s: State<D>, id: nat)
    requires id in s.scens
  {
    var c := s.scens[id];
    && c.who.id == id < s.nextId
    && (c.merged ==> c.frozen && c.delta == s.empty && c.emptied.Some? && Recorded(s.lake, c.who, c.emptied.value))
  }

  ghost predicate PhaseInv<D>(s: State<D>) {
    !s.phase.Idle? ==>
      && s.phase.id in s.scens && s.scens[s.phase.id].delta == s.phase.seen && !s.scens[s.phase.id].merged
      && (s.phase.Applied? ==> Recorded(s.lake, s.scens[s.phase.id].who, s.phase.seen))
  }

  ghost predicate Inv<D(!new)>(s: State<D>, codec: Codec<D>) {
    s.tagged && LakeInv(s, codec) && (forall id :: id in s.scens ==> ScenInv(s, id)) && PhaseInv(s)
  }

  /** A labelled commit reads as a tag of an identity exactly when it applied that identity. */
  lemma ReadsIffApplied<D(!new)>(c: Commit<D>, codec: Codec<D>, who: Identity)
    requires Labelled(c, codec) && Good(codec)
    ensures codec.read(c.extra, who).Some? <==> c.work.Apply? && c.work.who == who
  {
    if c.work.Apply? {
      var n :| c.extra == codec.write(c.work.who, c.work.delta, n);
    }
  }

  /** The search finds the commit that applied the identity, if there is one. */
  lemma {:induction false} PriorIsTheApply<D(!new)>(lake: seq<Commit<D>>, codec: Codec<D>, who: Identity)
    requires Good(codec) && forall i :: 0 <= i < |lake| ==> Labelled(lake[i], codec)
    ensures FindPrior(lake, codec, who).Some? <==> AppliedTo(lake, who)
    ensures FindPrior(lake, codec, who).Some? ==> Holds(lake, codec, who, FindPrior(lake, codec, who))
  {
    if lake != [] {
      var n := |lake| - 1;
      ReadsIffApplied(lake[n], codec, who);
      if codec.read(lake[n].extra, who).None? {
        PriorIsTheApply(lake[..n], codec, who);
        DropLast(lake, who);
        if FindPrior(lake[..n], codec, who).Some? {
          var i :| 0 <= i < n && lake[..n][i].work.Apply? && lake[..n][i].work.who == who &&
                   codec.read(lake[..n][i].extra, who) == FindPrior(lake[..n], codec, who);
          assert lake[i] == lake[..n][i];
        }
      }
    }
  }

  ghost predicate Holds<D>(lake: seq<Commit<D>>, codec: Codec<D>, who: Identity, r: Option<Reading>) {
    exists i :: 0 <= i < |lake| && lake[i].work.Apply? && lake[i].work.who == who && codec.read(lake[i].extra, who) == r
  }

  lemma DropLast<D>(lake: seq<Commit<D>>, who: Identity)
    requires lake != [] && !(lake[|lake| - 1].work.Apply? && lake[|lake| - 1].work.who == who)
    ensures AppliedTo(lake, who) <==> AppliedTo(lake[..|lake| - 1], who)
  {
    var n := |lake| - 1;
    if AppliedTo(lake, who) {
      var i :| 0 <= i < |lake| && lake[i].work.Apply? && lake[i].work.who == who;
      assert lake[..n][i] == lake[i];
    }
    if AppliedTo(lake[..n], who) {
      var i :| 0 <= i < n && lake[..n][i].work.Apply? && lake[..n][i].work.who == who;
      assert lake[i] == lake[..n][i];
    }
  }

  /** What the tag check of an attempt sees: nothing, or the one apply with its counts. */
  lemma PriorReads<D(!new)>(s: State<D>, codec: Codec<D>, who: Identity) returns (i: nat, n: Counts)
    requires LakeInv(s, codec) && Good(codec) && AppliedTo(s.lake, who)
    ensures i < |s.lake| && s.lake[i].work.Apply? && s.lake[i].work.who == who
    ensures s.lake[i].extra == codec.write(who, s.lake[i].work.delta, n)
    ensures FindPrior(s.lake, codec, who) == Some(Reading(codec.fp(s.lake[i].work.delta), Some(n)))
  {
    PriorIsTheApply(s.lake, codec, who);
    i :| 0 <= i < |s.lake| && s.lake[i].work.Apply? && s.lake[i].work.who == who
        && codec.read(s.lake[i].extra, who) == FindPrior(s.lake, codec, who);
    assert Labelled(s.lake[i], codec);
    n :| s.lake[i].extra == codec.write(who, s.lake[i].work.delta, n);
  }

  // ----- every step keeps the invariant -----

  lemma RecordedGrows<D>(lake: seq<Commit<D>>, c: Commit<D>)
    ensures forall who, d :: Recorded(lake, who, d) ==> Recorded(lake + [c], who, d)
  {
    forall who, d | Recorded(lake, who, d) ensures Recorded(lake + [c], who, d) {
      var i :| 0 <= i < |lake| && lake[i].work == Apply(who, d);
      assert (lake + [c])[i] == lake[i];
    }
  }

  lemma ScensSurviveCommit<D(!new)>(s: State<D>, codec: Codec<D>, c: Commit<D>, t: State<D>)
    requires Inv(s, codec) && t.lake == s.lake + [c] && t.scens == s.scens && t.empty == s.empty && t.nextId == s.nextId
    ensures forall id :: id in t.scens ==> ScenInv(t, id)
  {
    RecordedGrows(s.lake, c);
    forall id | id in t.scens ensures ScenInv(t, id) { assert ScenInv(s, id); }
  }

  lemma ApplyKeepsInv<D(!new)>(s: State<D>, codec: Codec<D>, ok: bool, counts: Counts)
    requires Inv(s, codec) && Good(codec) && s.phase.Started?
    ensures Inv(ApplyToLake(s, codec, ok, counts), codec)
  {
    var who, seen := s.scens[s.phase.id].who, s.phase.seen;
    var t := ApplyToLake(s, codec, ok, counts);
    PriorIsTheApply(s.lake, codec, who);
    if AppliedTo(s.lake, who) {
      var i, n := PriorReads(s, codec, who);
      if codec.fp(s.lake[i].work.delta) == codec.fp(seen) { assert s.lake[i].work == Apply(who, seen); }
      forall id | id in t.scens ensures ScenInv(t, id) { assert ScenInv(s, id); }
    } else if ok {
      FreshApplyKeepsInv(s, codec, counts, t);
    } else {
      forall id | id in t.scens ensures ScenInv(t, id) { assert ScenInv(s, id); }
    }
  }

  lemma FreshApplyKeepsInv<D(!new)>(s: State<D>, codec: Codec<D>, counts: Counts, t: State<D>)
    requires Inv(s, codec) && s.phase.Started? && !AppliedTo(s.lake, s.scens[s.phase.id].who)
    requires var id, seen := s.phase.id, s.phase.seen;
             var who := s.scens[id].who;
             t == s.(lake := s.lake + [Commit(codec.write(who, seen, counts), Apply(who, seen))],
                     phase := Applied(id, seen, counts))
    ensures Inv(t, codec)
  {
    var who, seen := s.scens[s.phase.id].who, s.phase.seen;
    var c := Commit(codec.write(who, seen, counts), Apply(who, seen));
    assert Labelled(c, codec) && ScenInv(s, s.phase.id);
    ScensSurviveCommit(s, codec, c, t);
    NewApplyKeepsLake(s, codec, c, t);
    assert t.lake[|s.lake|].work == Apply(who, seen);
  }

  lemma NewApplyKeepsLake<D(!new)>(s: State<D>, codec: Codec<D>, c: Commit<D>, t: State<D>)
    requires LakeInv(s, codec) && Labelled(c, codec) && t.lake == s.lake + [c] && t.nextId == s.nextId
    requires c.work.Apply? ==> !AppliedTo(s.lake, c.work.who) && c.work.who.id < s.nextId
    ensures LakeInv(t, codec)
  {
  }

  lemma BookKeepsInv<D(!new)>(s: State<D>, codec: Codec<D>, ok: bool)
    requires Inv(s, codec) && s.phase.Applied?
    ensures Inv(BookOnHost(s, ok), codec)
  {
    var t := BookOnHost(s, ok);
    forall id | id in t.scens ensures ScenInv(t, id) { assert ScenInv(s, id); }
  }

  lemma OtherKeepsInv<D(!new)>(s: State<D>, codec: Codec<D>, c: Commit<D>, t: State<D>)
    requires Inv(s, codec) && t == s.(lake := s.lake + [c]) && c.work.Other? && !codec.isTag(c.extra)
    ensures Inv(t, codec)
  {
    RecordedGrows(s.lake, c);
    ScensSurviveCommit(s, codec, c, t);
    NewApplyKeepsLake(s, codec, c, t);
  }

  lemma StepKeepsInv<D(!new)>(s: State<D>, codec: Codec<D>, e: Event<D>)
    requires Inv(s, codec) && Good(codec)
    ensures Inv(Step(s, codec, e), codec)
  {
    var t := Step(s, codec, e);
    match e
    case LakeStep(ok, counts) => if s.phase.Started? { ApplyKeepsInv(s, codec, ok, counts); }
    case HostStep(ok) => if s.phase.Applied? { BookKeepsInv(s, codec, ok); }
    case OtherCommit(extra) => if !codec.isTag(extra) { OtherKeepsInv(s, codec, Commit(extra, Other), t); }
    case _ =>
      forall id | id in t.scens ensures ScenInv(t, id) { if id in s.scens { assert ScenInv(s, id); } }
  }

  lemma {:induction false} RunKeepsInv<D(!new)>(empty: D, codec: Codec<D>, events: seq<Event<D>>)
    requires Good(codec)
    ensures Inv(Run(Init(true, empty), codec, events), codec)
  {
    if events != [] {
      RunKeepsInv(empty, codec, events[..|events| - 1]);
      StepKeepsInv(Run(Init(true, empty), codec, events[..|events| - 1]), codec, events[|events| - 1]);
    }
  }

  // ----- safety over all runs -----

  /** Over every run with crashes, failed steps, retries and writes in between, the lake gets
      at most one apply per scenario identity. */
  lemma AtMostOneApply<D(!new)>(empty: D, codec: Codec<D>, events: seq<Event<D>>, i: nat, j: nat)
    requires Good(codec)
    requires var lake := Run(Init(true, empty), codec, events).lake;
             i < |lake| && j < |lake| && lake[i].work.Apply? && lake[j].work.Apply?
                 && lake[i].work.who == lake[j].work.who
    ensures i == j
  {
    RunKeepsInv(empty, codec, events);
  }

  /** A merged scenario has exactly one apply in the lake, of the very delta that was emptied,
      and it stays frozen and empty. */
  lemma MergedMeansAppliedOnce<D(!new)>(empty: D, codec: Codec<D>, events: seq<Event<D>>, id: nat) returns (i: nat)
    requires Good(codec)
    requires var s := Run(Init(true, empty), codec, events); id in s.scens && s.scens[id].merged
    ensures var s := Run(Init(true, empty), codec, events);
            && s.scens[id].frozen && s.scens[id].delta == empty && s.scens[id].emptied.Some?
            && i < |s.lake| && s.lake[i].work == Apply(s.scens[id].who, s.scens[id].emptied.value)
            && forall j :: 0 <= j < |s.lake| && s.lake[j].work.Apply? && s.lake[j].work.who == s.scens[id].who
                ==> j == i
  {
    RunKeepsInv(empty, codec, events);
    RunKeepsEmpty(true, empty, codec, events);
    var s := Run(Init(true, empty), codec, events);
    assert ScenInv(s, id);
    i :| 0 <= i < |s.lake| && s.lake[i].work == Apply(s.scens[id].who, s.scens[id].emptied.value);
  }

  lemma {:induction false} RunKeepsEmpty<D>(tagged: bool, empty: D, codec: Codec<D>, events: seq<Event<D>>)
    ensures Run(Init(tagged, empty), codec, events).empty == empty
  {
    if events != [] { RunKeepsEmpty(tagged, empty, codec, events[..|events| - 1]); }
  }

  /** A scenario that can still be merged. */
  predicate Open<D>(s: State<D>, id: nat) {
    s.phase.Idle? && id in s.scens && !s.scens[id].merged && !s.scens[id].frozen
  }

  /** Retrying after the lake committed: on the delta that was applied, the lake stays as it is
      and the attempt carries on with the counts the tag holds; on any other delta the merge is
      refused and nothing changes. */
  lemma RetryNeverReapplies<D(!new)>(s: State<D>, codec: Codec<D>, id: nat, ok: bool, counts: Counts)
      returns (i: nat, n: Counts)
    requires Inv(s, codec) && Good(codec) && Open(s, id) && AppliedTo(s.lake, s.scens[id].who)
    ensures i < |s.lake| && s.lake[i].work.Apply? && s.lake[i].work.who == s.scens[id].who
    ensures s.lake[i].extra == codec.write(s.scens[id].who, s.lake[i].work.delta, n)
    ensures Step(Step(s, codec, Begin(id)), codec, LakeStep(ok, counts)) ==
            if s.scens[id].delta == s.lake[i].work.delta then s.(phase := Applied(id, s.scens[id].delta, n)) else s
  {
    i, n := PriorReads(s, codec, s.scens[id].who);
  }

  /** The first attempt reports its own counts: they are what a retry will read back. */
  lemma FirstApplyRecordsItsCounts<D(!new)>(s: State<D>, codec: Codec<D>, id: nat, counts: Counts)
    requires Inv(s, codec) && Good(codec) && Open(s, id) && !AppliedTo(s.lake, s.scens[id].who)
    ensures var t := Step(Step(s, codec, Begin(id)), codec, LakeStep(true, counts));
            && t.phase == Applied(id, s.scens[id].delta, counts)
            && t.lake == s.lake + [Commit(codec.write(s.scens[id].who, s.scens[id].delta, counts),
                                          Apply(s.scens[id].who, s.scens[id].delta))]
            && Step(Step(Step(t, codec, Crash), codec, Begin(id)), codec, LakeStep(true, Counts(0, 0, 0))) == t
  {
    var who, d := s.scens[id].who, s.scens[id].delta;
    PriorIsTheApply(s.lake, codec, who);
    var t := Step(Step(s, codec, Begin(id)), codec, LakeStep(true, counts));
    assert t.lake[..|s.lake|] == s.lake;
    assert FindPrior(t.lake, codec, who) == Some(Reading(codec.fp(d), Some(counts)));
  }

  // ----- an undisturbed attempt completes -----

  /** The first attempt applies the delta to the lake once, and books it. */
  lemma AttemptCompletes<D(!new)>(s: State<D>, codec: Codec<D>, id: nat, n: Counts)
    requires Inv(s, codec) && Good(codec) && Open(s, id) && !AppliedTo(s.lake, s.scens[id].who)
    ensures var who, d := s.scens[id].who, s.scens[id].delta;
            var t := Step(Step(Step(s, codec, Begin(id)), codec, LakeStep(true, n)), codec, HostStep(true));
            && t.phase == Idle && t.scens.Keys == s.scens.Keys && t.nextId == s.nextId
            && t.scens[id].merged && t.scens[id].frozen && t.scens[id].delta == s.empty
            && t.scens[id].emptied == Some(d) && t.scens[id].who == who
            && (forall other :: other in s.scens && other != id ==> t.scens[other] == s.scens[other])
            && t.lake == s.lake + [Commit(codec.write(who, d, n), Apply(who, d))]
  {
    FirstApplyRecordsItsCounts(s, codec, id, n);
  }

  /** So does an attempt that finds the delta already in the lake, after a crash between the two
      commits: whatever its own lake step would have done, the lake stays as it is. */
  lemma RetryCompletes<D(!new)>(s: State<D>, codec: Codec<D>, id: nat, n: Counts, ok: bool, again: Counts)
    requires Inv(s, codec) && Good(codec) && Open(s, id) && !AppliedTo(s.lake, s.scens[id].who)
    ensures var who, d := s.scens[id].who, s.scens[id].delta;
            var crashed := Step(Step(Step(s, codec, Begin(id)), codec, LakeStep(true, n)), codec, Crash);
            var t := Step(Step(Step(crashed, codec, Begin(id)), codec, LakeStep(ok, again)), codec, HostStep(true));
            && crashed == s.(lake := s.lake + [Commit(codec.write(who, d, n), Apply(who, d))])
            && t.phase == Idle && t.scens.Keys == s.scens.Keys && t.lake == crashed.lake
            && t.scens[id].merged && t.scens[id].frozen && t.scens[id].delta == s.empty
            && t.scens[id].emptied == Some(d) && t.scens[id].who == who
            && (forall other :: other in s.scens && other != id ==> t.scens[other] == s.scens[other])
  {
    var who, d := s.scens[id].who, s.scens[id].delta;
    PriorIsTheApply(s.lake, codec, who);
    var crashed := Step(Step(Step(s, codec, Begin(id)), codec, LakeStep(true, n)), codec, Crash);
    assert crashed.lake[..|s.lake|] == s.lake;
    assert FindPrior(crashed.lake, codec, who) == Some(Reading(codec.fp(d), Some(n)));
  }

  /** Over any run: append the three steps of an attempt to a run that leaves the scenario open
      and unapplied, and it is merged. */
  lemma EveryOpenScenarioCanBeMerged<D(!new)>(empty: D, codec: Codec<D>, events: seq<Event<D>>, id: nat, n: Counts)
    requires Good(codec)
    requires var s := Run(Init(true, empty), codec, events); Open(s, id) && !AppliedTo(s.lake, s.scens[id].who)
    ensures var s := Run(Init(true, empty), codec, events);
            var t := Run(Init(true, empty), codec, events + [Begin(id), LakeStep(true, n), HostStep(true)]);
            && id in t.scens && t.scens[id].merged && t.scens[id].frozen && t.scens[id].delta == empty
            && t.scens[id].emptied == Some(s.scens[id].delta) && t.phase == Idle
  {
    RunKeepsInv(empty, codec, events);
    RunKeepsEmpty(true, empty, codec, events);
    var init := Init(true, empty);
    AttemptCompletes(Run(init, codec, events), codec, id, n);
    RunOneMore(init, codec, events, Begin(id));
    RunOneMore(init, codec, events + [Begin(id)], LakeStep(true, n));
    RunOneMore(init, codec, events + [Begin(id)] + [LakeStep(true, n)], HostStep(true));
    assert events + [Begin(id), LakeStep(true, n), HostStep(true)]
           == events + [Begin(id)] + [LakeStep(true, n)] + [HostStep(true)];
  }

  lemma RunOneMore<D>(s: State<D>, codec: Codec<D>, events: seq<Event<D>>, e: Event<D>)
    ensures Run(s, codec, events + [e]) == Step(Run(s, codec, events), codec, e)
  {
    assert (events + [e])[..|events|] == events;
  }

  /** A side that fails leaves what it had: a refused apply everything, refused bookkeeping all
      but the lake. */
  lemma FailuresRollBack<D(!new)>(s: State<D>, codec: Codec<D>, id: nat, n: Counts)
    requires Inv(s, codec) && Good(codec) && Open(s, id) && !AppliedTo(s.lake, s.scens[id].who)
    ensures Step(Step(s, codec, Begin(id)), codec, LakeStep(false, n)) == s
    ensures var t := Step(Step(Step(s, codec, Begin(id)), codec, LakeStep(true, n)), codec, HostStep(false));
            t == s.(lake := t.lake) && |t.lake| == |s.lake| + 1
  {
    PriorIsTheApply(s.lake, codec, s.scens[id].who);
  }

  /** Between attempts a scenario takes writes exactly while it is not frozen, unfreezing is
      refused exactly once it is merged, and a new scenario starts open with what it is given. */
  lemma VerbsDoTheirWork<D>(s: State<D>, codec: Codec<D>, id: nat, delta: D, created: int)
    requires s.phase.Idle? && id in s.scens && s.nextId !in s.scens
    ensures Step(s, codec, Write(id, delta)).scens ==
            if s.scens[id].frozen then s.scens else s.scens[id := s.scens[id].(delta := delta)]
    ensures Step(s, codec, SetFrozen(id, true)).scens[id].frozen
    ensures Step(s, codec, SetFrozen(id, false)).scens[id].frozen <==> s.scens[id].merged && s.scens[id].frozen
    ensures Step(s, codec, Drop(id)).scens == s.scens - {id}
    ensures var t := Step(s, codec, Create(created, delta));
            && Open(t, s.nextId) && t.scens[s.nextId].delta == delta && t.scens - {s.nextId} == s.scens
            && t.scens[s.nextId].who == Identity(s.nextId, created) && t.nextId == s.nextId + 1
  {
    assert s.scens[s.nextId := Step(s, codec, Create(created, delta)).scens[s.nextId]] - {s.nextId} == s.scens;
  }

  /** Only an open scenario can be merged: on any other, or while an attempt is under way, the
      start of an attempt changes nothing, and neither side takes a step without one. */
  lemma OnlyOpenScenariosAreMerged<D>(s: State<D>, codec: Codec<D>, id: nat, ok: bool, n: Counts)
    ensures Step(s, codec, Begin(id)) == s <==>
            !s.phase.Idle? || id !in s.scens || s.scens[id].merged || s.scens[id].frozen
    ensures s.phase.Idle? ==> Step(s, codec, LakeStep(ok, n)) == s && Step(s, codec, HostStep(ok)) == s
  {
  }

  /** Without commit metadata the guarantee is lost: a crash between the two commits and a
      retry apply the same delta twice. */
  lemma UntaggedBaseMayApplyTwice(codec: Codec<int>)
    ensures var n := Counts(1, 1, 0);
            var run := [Create(0, 7), Begin(0), LakeStep(true, n), Crash, Begin(0), LakeStep(true, n)];
            var lake := Run(Init(false, 0), codec, run).lake;
            |lake| == 2 && lake[0].work == lake[1].work == Apply(Identity(0, 0), 7)
  {
    var n := Counts(1, 1, 0);
    var s0 := Init(false, 0);
    var s1 := Step(s0, codec, Create(0, 7));
    var s2 := Step(s1, codec, Begin(0));
    var s3 := Step(s2, codec, LakeStep(true, n));
    var s4 := Step(s3, codec, Crash);
    var s5 := Step(s4, codec, Begin(0));
    var s6 := Step(s5, codec, LakeStep(true, n));
    var run := [Create(0, 7), Begin(0), LakeStep(true, n), Crash, Begin(0), LakeStep(true, n)];
    assert run[..6] == run && run[..6][..5] == run[..5] && run[..5][..4] == run[..4] && run[..4][..3] == run[..3];
    assert run[..3][..2] == run[..2] && run[..2][..1] == run[..1] && run[..1][..0] == [];
    assert Run(s0, codec, run[..1]) == s1;
    assert Run(s0, codec, run[..2]) == s2;
    assert Run(s0, codec, run[..3]) == s3;
    assert Run(s0, codec, run[..4]) == s4;
    assert Run(s0, codec, run[..5]) == s5;
    assert Run(s0, codec, run[..6]) == s6;
  }
}
