/** The merge-on-read scan of a keyed scenario table.  Every way the scan suppresses replaced
    base rows, and the point-lookup shortcut, emit the same rows: those of the view, each once,
    exactly as long as no key that the scenario inserted has appeared in the base. */
module KeyedScan {
  import opened Values
  import opened KeyedDelta
  import opened KeyHashSets
  import opened Sequences

  // ----- sequences of rows as bags -----

  function Filter<T>(p: T -> bool, s: seq<T>): seq<T> {
    if s == [] then [] else Filter(p, s[..|s| - 1]) + if p(s[|s| - 1]) then [s[|s| - 1]] else []
  }

  lemma {:induction false} FilterCount<T>(p: T -> bool, s: seq<T>, x: T)
    ensures multiset(Filter(p, s))[x] == if p(x) then multiset(s)[x] else 0
  {
    if s != [] {
      var n := |s| - 1;
      assert s == s[..n] + [s[n]];
      FilterCount(p, s[..n], x);
    }
  }

  lemma FilterStep<T>(p: T -> bool, s: seq<T>, i: nat)
    requires i < |s|
    ensures Filter(p, s[..i + 1]) == Filter(p, s[..i]) + if p(s[i]) then [s[i]] else []
  {
    assert s[..i + 1][..i] == s[..i];
  }

  lemma {:induction false} FilterConcat<T>(p: T -> bool, a: seq<T>, b: seq<T>)
    ensures Filter(p, a + b) == Filter(p, a) + Filter(p, b)
  {
    if b == [] {
      assert a + b == a;
    } else {
      var n := |b| - 1;
      assert (a + b)[..|a + b| - 1] == a + b[..n];
      FilterConcat(p, a, b[..n]);
    }
  }

  /** The I/U rows of a delta scan, in scan order. */
  function Emitted(delta: seq<Change>): seq<Row> {
    if delta == [] then []
    else Emitted(delta[..|delta| - 1]) + if delta[|delta| - 1].op != D then [delta[|delta| - 1].row] else []
  }

  lemma {:induction false} EmittedCount(delta: seq<Change>, r: Row)
    ensures multiset(Emitted(delta))[r] == multiset(delta)[Change(I, r)] + multiset(delta)[Change(U, r)]
  {
    if delta != [] {
      var n := |delta| - 1;
      assert delta == delta[..n] + [delta[n]];
      EmittedCount(delta[..n], r);
    }
  }

  ghost predicate ListsTable(t: Table, s: seq<Row>) {
    forall r :: multiset(s)[r] == if r.key in t && t[r.key] == r then 1 else 0
  }

  ghost predicate ListsDelta(d: Delta, s: seq<Change>) {
    forall c :: multiset(s)[c] == if c.row.key in d && d[c.row.key] == c then 1 else 0
  }

  ghost predicate ListsMatching(t: Table, p: Row -> bool, s: seq<Row>) {
    forall r :: multiset(s)[r] == if r.key in t && t[r.key] == r && p(r) then 1 else 0
  }

  function Live(d: Delta): Row -> bool {
    (r: Row) => !Suppressed(d, r.key)
  }

  /** How often the merged relation holds a row: once as a visible delta row, once as a base
      row that no U or D change hides. */
  function ShownCount(base: Table, d: Delta, r: Row): nat {
    (if Visible(d, r.key) && d[r.key].row == r then 1 else 0) +
    (if !Suppressed(d, r.key) && r.key in base && base[r.key] == r then 1 else 0)
  }

  ghost predicate ListsMerged(base: Table, d: Delta, p: Row -> bool, s: seq<Row>) {
    forall r :: multiset(s)[r] == if p(r) then ShownCount(base, d, r) else 0
  }

  /** No key the scenario inserted has since appeared in the base. */
  predicate NoShadowedInsert(base: Table, d: Delta) {
    forall k :: k in d && d[k].op == I ==> k !in base
  }

  lemma ScanCount(base: Table, d: Delta, delta: seq<Change>, baseScan: seq<Row>, r: Row)
    requires ListsDelta(d, delta) && ListsTable(base, baseScan)
    ensures multiset(Emitted(delta) + Filter(Live(d), baseScan))[r] == ShownCount(base, d, r)
  {
    EmittedCount(delta, r);
    FilterCount(Live(d), baseScan, r);
  }

  lemma ShownOnce(base: Table, d: Delta, r: Row)
    requires WellKeyed(base) && OwnKeys(d) && NoShadowedInsert(base, d)
    ensures ShownCount(base, d, r) == if r.key in View(base, d) && View(base, d)[r.key] == r then 1 else 0
  {
  }

  /** Delta rows first, then the base rows that are not suppressed: this lists the view, each
      row once, exactly when no inserted key has appeared in the base. */
  lemma ScanIsViewIff(base: Table, d: Delta, delta: seq<Change>, baseScan: seq<Row>)
    requires WellKeyed(base) && OwnKeys(d) && ListsDelta(d, delta) && ListsTable(base, baseScan)
    ensures ListsTable(View(base, d), Emitted(delta) + Filter(Live(d), baseScan)) <==> NoShadowedInsert(base, d)
  {
    if NoShadowedInsert(base, d) {
      UnshadowedScan(base, d, delta, baseScan);
    } else {
      ShadowedScan(base, d, delta, baseScan);
    }
  }

  lemma UnshadowedScan(base: Table, d: Delta, delta: seq<Change>, baseScan: seq<Row>)
    requires WellKeyed(base) && OwnKeys(d) && ListsDelta(d, delta) && ListsTable(base, baseScan)
             && NoShadowedInsert(base, d)
    ensures ListsTable(View(base, d), Emitted(delta) + Filter(Live(d), baseScan))
  {
    ScanCounts(base, d, delta, baseScan);
    CountsAreView(base, d, Emitted(delta) + Filter(Live(d), baseScan));
  }

  lemma ScanCounts(base: Table, d: Delta, delta: seq<Change>, baseScan: seq<Row>)
    requires ListsDelta(d, delta) && ListsTable(base, baseScan)
    ensures forall r :: multiset(Emitted(delta) + Filter(Live(d), baseScan))[r] == ShownCount(base, d, r)
  {
    forall r: Row ensures multiset(Emitted(delta) + Filter(Live(d), baseScan))[r] == ShownCount(base, d, r) {
      ScanCount(base, d, delta, baseScan, r);
    }
  }

  lemma CountsAreView(base: Table, d: Delta, out: seq<Row>)
    requires WellKeyed(base) && OwnKeys(d) && NoShadowedInsert(base, d)
    requires forall r :: multiset(out)[r] == ShownCount(base, d, r)
    ensures ListsTable(View(base, d), out)
  {
    forall r: Row ensures multiset(out)[r] == if r.key in View(base, d) && View(base, d)[r.key] == r then 1 else 0 {
      ShownOnce(base, d, r);
    }
  }

  lemma ShadowedScan(base: Table, d: Delta, delta: seq<Change>, baseScan: seq<Row>)
    requires WellKeyed(base) && OwnKeys(d) && ListsDelta(d, delta) && ListsTable(base, baseScan)
             && !NoShadowedInsert(base, d)
    ensures !ListsTable(View(base, d), Emitted(delta) + Filter(Live(d), baseScan))
  {
    var k :| k in d && d[k].op == I && k in base;
    ScanCount(base, d, delta, baseScan, base[k]);
    ShadowedRowIsExtra(base, d, k);
  }

  /** The base row of such a key is listed although the view does not hold it, or twice. */
  lemma ShadowedRowIsExtra(base: Table, d: Delta, k: Key)
    requires WellKeyed(base) && OwnKeys(d) && k in d && d[k].op == I && k in base
    ensures ShownCount(base, d, base[k]) > if View(base, d)[k] == base[k] then 1 else 0
  {
    assert base[k].key == k && k in View(base, d) && View(base, d)[k] == d[k].row;
  }

  /** The host inserts a key the scenario has inserted before: a scan emits two rows of it. */
  lemma ShadowedInsertShowsTwice(key: Key, ours: seq<Value>, theirs: seq<Value>)
    requires ours != theirs
    ensures var base, d := map[key := Row(key, theirs)], map[key := Change(I, Row(key, ours))];
            && ListsDelta(d, [Change(I, Row(key, ours))]) && ListsTable(base, [Row(key, theirs)])
            && Emitted([Change(I, Row(key, ours))]) + Filter(Live(d), [Row(key, theirs)])
                == [Row(key, ours), Row(key, theirs)]
  {
    var d := map[key := Change(I, Row(key, ours))];
    assert [Change(I, Row(key, ours))][..0] == [] && [Row(key, theirs)][..0] == [];
    assert Filter(Live(d), [Row(key, theirs)]) == [Row(key, theirs)];
  }

  // ----- suppression strategies -----

  class SuppressionState {
    /** The delta's key index, as an exact lookup. */
    const index: Delta
    const hash: Key -> Hash
    var suppressedKeys: set<Key>
    var probeSuppression: bool
    var hashPrefilter: bool
    const hashes: KeyHashSet

    constructor (index: Delta, hash: Key -> Hash)
      ensures this.index == index && this.hash == hash && fresh(hashes) && hashes.Valid() && hashes.Contents() == {}
      ensures suppressedKeys == {} && !probeSuppression && !hashPrefilter
    {
      this.index, this.hash := index, hash;
      hashes := new KeyHashSet();
      suppressedKeys, probeSuppression, hashPrefilter := {}, false, false;
    }

    /** keys are the replaced keys this state hides; every strategy hides the same ones. */
    ghost predicate Hides(keys: set<Key>)
      reads this, hashes
    {
      && hashes.Valid()
      && (probeSuppression ==> forall k :: k in keys <==>
        Suppressed(index, k)
        && (hashPrefilter ==> Normalize(hash(k)) in hashes.Contents()))
      && (!probeSuppression ==> suppressedKeys == keys)
    }

    /** No key index on the delta: the replaced keys are kept as strings. */
    method CollectStrings(delta: seq<Change>)
      requires suppressedKeys == {} && !probeSuppression && hashes.Valid()
      modifies this`suppressedKeys
      ensures Hides(set c | c in delta && c.op != I :: c.row.key)
    {
      for i := 0 to |delta|
        invariant suppressedKeys == set c | c in delta[..i] && c.op != I :: c.row.key
      {
        assert delta[..i + 1] == delta[..i] + [delta[i]];
        if delta[i].op == U || delta[i].op == D {
          suppressedKeys := suppressedKeys + {delta[i].row.key};
        }
      }
      assert delta[..|delta|] == delta;
    }

    /** Hashes the replaced keys, up to a limit; past it the set is dropped and every base row
        probes the index. */
    method CollectHashes(delta: seq<Change>, limit: nat)
      requires suppressedKeys == {} && !probeSuppression && !hashPrefilter && hashes.Valid() && hashes.Contents() == {}
      requires ListsDelta(index, delta) && forall k :: k in index ==> index[k].row.key == k
      modifies this`probeSuppression, this`hashPrefilter, hashes
      ensures Hides(set k | k in index && index[k].op != I)
    {
      var hasReplacements, hashing := false, limit > 0;
      for i := 0 to |delta|
        invariant hashes.Valid()
        invariant hasReplacements <==> exists j :: 0 <= j < i && delta[j].op != I
        invariant hashing ==> forall j ::
                    0 <= j < i && delta[j].op != I
                    ==> Normalize(hash(delta[j].row.key)) in hashes.Contents()
      {
        if delta[i].op == I { continue; }
        hasReplacements := true;
        if !hashing { continue; }
        hashes.Insert(hash(delta[i].row.key));
        if hashes.count > limit {
          hashing := false;
          hashes.Clear();
        }
      }
      probeSuppression := hasReplacements;
      hashPrefilter := hasReplacements && hashing;
      ReplacedKeysAreListed(index, delta);
    }

    /** Hides the rows of one base chunk; false when nothing is left of it. */
    method EmitBaseChunk(chunk: seq<Row>, ghost keys: set<Key>) returns (kept: seq<Row>, any: bool)
      requires Hides(keys)
      ensures kept == Filter(NotIn(keys), chunk)
      ensures any <==> kept != []
    {
      kept := [];
      for i := 0 to |chunk|
        invariant kept == Filter(NotIn(keys), chunk[..i])
      {
        FilterStep(NotIn(keys), chunk, i);
        var k := chunk[i].key;
        var hidden := false;
        if probeSuppression {
          var candidate := true;
          if hashPrefilter { candidate := hashes.Contains(hash(k)); }
          hidden := candidate && Suppressed(index, k);
        } else {
          hidden := k in suppressedKeys;
        }
        if !hidden { kept := kept + [chunk[i]]; }
      }
      assert chunk[..|chunk|] == chunk;
      any := kept != [];
    }
  }

  lemma ReplacedKeysAreListed(d: Delta, delta: seq<Change>)
    requires ListsDelta(d, delta)
    ensures forall k :: k in d && d[k].row.key == k && d[k].op != I ==> exists j ::
              0 <= j < |delta|
              && delta[j].op != I && delta[j].row.key == k
    ensures forall j :: 0 <= j < |delta| ==> delta[j].row.key in d && d[delta[j].row.key] == delta[j]
  {
    forall k | k in d && d[k].row.key == k && d[k].op != I
      ensures exists j :: 0 <= j < |delta| && delta[j].op != I && delta[j].row.key == k
    {
      assert multiset(delta)[d[k]] == 1;
      assert d[k] in delta;
    }
    forall j | 0 <= j < |delta| ensures delta[j].row.key in d && d[delta[j].row.key] == delta[j] {
      assert delta[j] in multiset(delta);
    }
  }

  /** A full scan: delta rows, then every base chunk through the suppression of choice. */
  method ScanParts(base: Table, d: Delta, hash: Key -> Hash, delta: seq<Change>, baseChunks: seq<seq<Row>>,
                   keyIndex: bool, limit: nat)
    returns (deltaRows: seq<Row>, baseRows: seq<Row>)
    requires OwnKeys(d) && ListsDelta(d, delta)
    ensures deltaRows == Emitted(delta) && baseRows == Filter(Live(d), Flatten(baseChunks))
  {
    var state := new SuppressionState(d, hash);
    ghost var keys := set k | k in d && d[k].op != I;
    if keyIndex {
      state.CollectHashes(delta, limit);
    } else {
      state.CollectStrings(delta);
      ReplacedKeysAreListed(d, delta);
      assert (set c | c in delta && c.op != I :: c.row.key) == keys;
    }
    deltaRows := EmitDelta(delta);
    baseRows := ScanBase(state, keys, [], baseChunks);
    SameFilter(NotIn(keys), Live(d), Flatten(baseChunks));
  }

  /** Its output lists the view exactly when no inserted key has appeared in the base. */
  method ScanAll(base: Table, d: Delta, hash: Key -> Hash, delta: seq<Change>, baseChunks: seq<seq<Row>>,
                 keyIndex: bool, limit: nat)
    returns (out: seq<Row>)
    requires WellKeyed(base) && OwnKeys(d) && ListsDelta(d, delta) && ListsTable(base, Flatten(baseChunks))
    ensures out == Emitted(delta) + Filter(Live(d), Flatten(baseChunks))
    ensures ListsTable(View(base, d), out) <==> NoShadowedInsert(base, d)
  {
    var deltaRows, baseRows := ScanParts(base, d, hash, delta, baseChunks, keyIndex, limit);
    out := deltaRows + baseRows;
    ScanIsViewIff(base, d, delta, Flatten(baseChunks));
  }

  method EmitDelta(delta: seq<Change>) returns (out: seq<Row>)
    ensures out == Emitted(delta)
  {
    out := [];
    for i := 0 to |delta|
      invariant out == Emitted(delta[..i])
    {
      assert delta[..i + 1][..i] == delta[..i];
      if delta[i].op == I || delta[i].op == U { out := out + [delta[i].row]; }
    }
    assert delta[..|delta|] == delta;
  }

  /** The base rows that keys do not hide. */
  ghost function NotIn(keys: set<Key>): Row -> bool {
    (r: Row) => r.key !in keys
  }

  lemma KeptStep(start: seq<Row>, p: Row -> bool, chunks: seq<seq<Row>>, i: nat)
    requires i < |chunks|
    ensures start + Filter(p, Flatten(chunks[..i + 1]))
            == start + Filter(p, Flatten(chunks[..i])) + Filter(p, chunks[i])
  {
    FlattenStep(chunks, i);
    FilterConcat(p, Flatten(chunks[..i]), chunks[i]);
  }

  method ScanBase(state: SuppressionState, ghost keys: set<Key>, start: seq<Row>, baseChunks: seq<seq<Row>>)
      returns (out: seq<Row>)
    requires state.Hides(keys)
    ensures out == start + Filter(NotIn(keys), Flatten(baseChunks))
  {
    out := start;
    for i := 0 to |baseChunks|
      invariant out == start + Filter(NotIn(keys), Flatten(baseChunks[..i]))
    {
      KeptStep(start, NotIn(keys), baseChunks, i);
      var kept, any := state.EmitBaseChunk(baseChunks[i], keys);
      if any { out := out + kept; }
    }
    assert baseChunks[..|baseChunks|] == baseChunks;
  }

  lemma {:induction false} SameFilter<T>(p: T -> bool, q: T -> bool, s: seq<T>)
    requires forall x :: x in s ==> p(x) == q(x)
    ensures Filter(p, s) == Filter(q, s)
  {
    if s != [] {
      SameFilter(p, q, s[..|s| - 1]);
    }
  }

  // ----- point lookups -----

  /** The filters pushed into a scan.  Optional filters are checked again above it. */
  datatype ColumnFilter =
    | Equal(constant: Value)
    | In(values: seq<Value>)
    | And(children: seq<ColumnFilter>)
    | Optional(child: Option<ColumnFilter>)
    | Other(test: Value -> bool)

  predicate Satisfies(f: ColumnFilter, v: Value) {
    match f
    case Equal(c) => v == c && v != Null
    case In(values) => v in values && v != Null
    case And(children) => forall i :: 0 <= i < |children| ==> Satisfies(children[i], v)
    case Optional(child) => child.Some? ==> Satisfies(child.value, v)
    case Other(test) => test(v)
  }

  /** The values a filter pins its column to, when it pins it. */
  function PointFilterValues(f: ColumnFilter): Option<seq<Value>> {
    match f
    case Equal(c) => Some([c])
    case In(values) => Some(values)
    case And(children) => FirstPin(children)
    case Optional(child) => if child.Some? then PointFilterValues(child.value) else None
    case Other(_) => None
  }

  function FirstPin(children: seq<ColumnFilter>): Option<seq<Value>> {
    if children == [] then None
    else
      var first := PointFilterValues(children[0]);
      if first.Some? then first else FirstPin(children[1..])
  }

  /** A pinned column holds one of the pinned values in every row the filter accepts. */
  lemma {:induction false} PinsAreComplete(f: ColumnFilter, v: Value)
    requires PointFilterValues(f).Some? && Satisfies(f, v)
    ensures v in PointFilterValues(f).value
  {
    match f
    case Equal(c) =>
    case In(values) =>
    case And(children) => FirstPinIsComplete(children, v);
    case Optional(child) => PinsAreComplete(child.value, v);
    case Other(_) =>
  }

  lemma {:induction false} FirstPinIsComplete(children: seq<ColumnFilter>, v: Value)
    requires FirstPin(children).Some? && forall i :: 0 <= i < |children| ==> Satisfies(children[i], v)
    ensures v in FirstPin(children).value
  {
    if PointFilterValues(children[0]).Some? {
      PinsAreComplete(children[0], v);
    } else {
      assert forall i :: 0 <= i < |children[1..]| ==> children[1..][i] == children[i + 1];
      FirstPinIsComplete(children[1..], v);
    }
  }

  /** The filter names the values of its column. */
  predicate NamesValues(f: ColumnFilter) {
    match f
    case Equal(_) => true
    case In(_) => true
    case And(children) => exists i :: 0 <= i < |children| && NamesValues(children[i])
    case Optional(child) => child.Some? && NamesValues(child.value)
    case Other(_) => false
  }

  /** Values are extracted from exactly the filters that name some: an equality, an IN list, or a
      conjunction or optional filter that holds one. */
  lemma {:induction false} PinsIffNamed(f: ColumnFilter)
    ensures PointFilterValues(f).Some? <==> NamesValues(f)
    ensures forall c :: f == Equal(c) ==> PointFilterValues(f) == Some([c])
    ensures forall values :: f == In(values) ==> PointFilterValues(f) == Some(values)
    decreases f
  {
    match f
    case And(children) => FirstPinIffNamed(children);
    case Optional(child) => if child.Some? { PinsIffNamed(child.value); }
    case _ =>
  }

  lemma {:induction false} FirstPinIffNamed(children: seq<ColumnFilter>)
    ensures FirstPin(children).Some? <==> exists i :: 0 <= i < |children| && NamesValues(children[i])
    decreases children
  {
    if children != [] {
      PinsIffNamed(children[0]);
      FirstPinIffNamed(children[1..]);
      assert forall i :: 0 <= i < |children[1..]| ==> children[1..][i] == children[i + 1];
      if i :| 0 < i < |children| && NamesValues(children[i]) { assert NamesValues(children[1..][i - 1]); }
    }
  }

  function Product(pins: seq<seq<Value>>): nat {
    if pins == [] then 1 else |pins[0]| * Product(pins[1..])
  }

  /** Row number n of the cross product, first column fastest. */
  function CrossRow(pins: seq<seq<Value>>, n: nat): (parts: seq<Value>)
    requires forall k :: 0 <= k < |pins| ==> pins[k] != []
    ensures |parts| == |pins| && forall k :: 0 <= k < |pins| ==> parts[k] in pins[k]
  {
    if pins == [] then []
    else
      assert forall k :: 0 <= k < |pins[1..]| ==> pins[1..][k] == pins[k + 1];
      [pins[0][n % |pins[0]|]] + CrossRow(pins[1..], n / |pins[0]|)
  }

  /** The mixed-radix enumeration reaches every combination of pinned values. */
  lemma {:induction false} CrossProductCovers(pins: seq<seq<Value>>, parts: seq<Value>) returns (n: nat)
    requires |parts| == |pins| && forall k :: 0 <= k < |pins| ==> pins[k] != [] && parts[k] in pins[k]
    ensures n < Product(pins) && CrossRow(pins, n) == parts
  {
    if pins == [] {
      n := 0;
    } else {
      var more, tail := pins[1..], parts[1..];
      assert forall k :: 0 <= k < |more| ==> more[k] == pins[k + 1] && tail[k] == parts[k + 1];
      var rest := CrossProductCovers(more, tail);
      n := CoverFirst(pins, parts, rest);
    }
  }

  lemma CoverFirst(pins: seq<seq<Value>>, parts: seq<Value>, rest: nat) returns (n: nat)
    requires pins != [] && |parts| == |pins| && parts[0] in pins[0]
    requires (forall k :: 0 <= k < |pins| ==> pins[k] != [])
             && (forall k :: 0 <= k < |pins[1..]| ==> pins[1..][k] != [])
    requires rest < Product(pins[1..]) && CrossRow(pins[1..], rest) == parts[1..]
    ensures n < Product(pins) && CrossRow(pins, n) == parts
  {
    var i :| 0 <= i < |pins[0]| && pins[0][i] == parts[0];
    n := MixedNumber(|pins[0]|, i, rest, Product(pins[1..]));
    CrossRowDigits(pins, n, i, rest);
    assert parts == [parts[0]] + parts[1..];
  }

  lemma CrossRowDigits(pins: seq<seq<Value>>, n: nat, i: nat, rest: nat)
    requires pins != [] && (forall k :: 0 <= k < |pins| ==> pins[k] != [])
    requires n % |pins[0]| == i && n / |pins[0]| == rest
    ensures forall k :: 0 <= k < |pins[1..]| ==> pins[1..][k] != []
    ensures CrossRow(pins, n) == [pins[0][i]] + CrossRow(pins[1..], rest)
  {
    assert forall k :: 0 <= k < |pins[1..]| ==> pins[1..][k] == pins[k + 1];
  }

  /** The number with low digit i and high part rest. */
  lemma MixedNumber(size: nat, i: nat, rest: nat, count: nat) returns (n: nat)
    requires i < size && rest < count
    ensures n < size * count && n % size == i && n / size == rest
  {
    n := i + size * rest;
    MixedDigits(size, i, rest);
    MixedBound(size, i, rest, count);
  }

  lemma {:induction false} TimesAtLeast(size: nat, d: nat)
    requires d >= 1
    ensures size * d >= size
  {
    if d > 1 { TimesAtLeast(size, d - 1); }
  }

  lemma Distribute(size: int, q: int, d: int)
    ensures size * (q + d) == size * q + size * d
  {
  }

  lemma MixedBound(size: nat, i: nat, rest: nat, count: nat)
    requires i < size && rest < count
    ensures i + size * rest < size * count
  {
    Distribute(size, rest, count - rest);
    TimesAtLeast(size, count - rest);
  }

  lemma MixedDigits(size: nat, i: nat, rest: nat)
    requires i < size
    ensures (i + size * rest) % size == i && (i + size * rest) / size == rest
  {
    QuotientIsUnique(size, (i + size * rest) / size, (i + size * rest) % size, rest, i);
  }

  lemma QuotientIsUnique(size: nat, p: nat, r: nat, q: nat, i: nat)
    requires r < size && i < size && size * p + r == size * q + i
    ensures p == q && r == i
  {
    if p > q {
      Distribute(size, q, p - q);
      TimesAtLeast(size, p - q);
    } else if p < q {
      Distribute(size, p, q - p);
      TimesAtLeast(size, q - p);
    }
  }

  lemma CrossRowStep(pins: seq<seq<Value>>, k: nat, rest: nat, parts: seq<Value>)
    requires k < |pins| && forall j :: 0 <= j < |pins| ==> pins[j] != []
    ensures parts + CrossRow(pins[k..], rest) == parts + [pins[k][rest % |pins[k]|]]
            + CrossRow(pins[k + 1..], rest / |pins[k]|)
  {
    assert pins[k..][0] == pins[k] && pins[k..][1..] == pins[k + 1..];
    var digit, tail := [pins[k][rest % |pins[k]|]], CrossRow(pins[k + 1..], rest / |pins[k]|);
    assert CrossRow(pins[k..], rest) == digit + tail;
    assert parts + (digit + tail) == parts + digit + tail;
  }

  /** One point key, digit by digit. */
  method PointKey(pins: seq<seq<Value>>, row: nat) returns (parts: seq<Value>)
    requires forall k :: 0 <= k < |pins| ==> pins[k] != []
    ensures parts == CrossRow(pins, row)
  {
    parts := [];
    var rest: nat := row;
    for k := 0 to |pins|
      invariant parts + CrossRow(pins[k..], rest) == CrossRow(pins, row)
    {
      CrossRowStep(pins, k, rest, parts);
      parts := parts + [pins[k][rest % |pins[k]|]];
      rest := rest / |pins[k]|;
    }
    assert pins[|pins|..] == [];
  }

  method AddPoint(state: SuppressionState, key: Key, out: seq<Row>) returns (more: seq<Row>)
    requires state.hashes.Valid() && key in state.index
    modifies state.hashes
    ensures state.hashes.Valid()
    ensures state.hashes.Contents() == old(state.hashes.Contents()) + if state.index[key].op == I then {}
            else {Normalize(state.hash(key))}
    ensures more == out + if state.index[key].op == D then [] else [state.index[key].row]
  {
    more := out;
    if state.index[key].op == U || state.index[key].op == D {
      state.hashes.Insert(state.hash(key));
    }
    if state.index[key].op == I || state.index[key].op == U {
      more := more + [state.index[key].row];
    }
  }

  /** Looks the point keys up one by one; a key that an IN list repeats is skipped. */
  method LookUpPoints(state: SuppressionState, pins: seq<seq<Value>>) returns (out: seq<Row>)
    requires state.hashes.Valid() && state.hashes.Contents() == {}
    requires (forall k :: 0 <= k < |pins| ==> pins[k] != []) && forall k ::
               k in state.index
               ==> state.index[k].row.key == k
    modifies state.hashes
    ensures state.hashes.Valid()
    ensures SeenPoints(state.index, state.hash, state.hashes.Contents(),
                       PointKeys(pins, Product(pins)) * state.index.Keys, out)
  {
    out := [];
    var seen: set<Key> := {};
    for n := 0 to Product(pins)
      invariant seen == PointKeys(pins, n) * state.index.Keys
      invariant state.hashes.Valid() && SeenPoints(state.index, state.hash, state.hashes.Contents(), seen, out)
    {
      PointKeysStep(pins, n, state.index.Keys);
      var parts := PointKey(pins, n);
      var key := Key(parts);
      if key !in state.index || key in seen { continue; }
      SeenOneMore(state.index, state.hash, state.hashes.Contents(), seen, out, key);
      seen := seen + {key};
      out := AddPoint(state, key, out);
    }
  }

  /** Emits the visible delta rows of the point keys and hides the replaced ones among them. */
  method InitPoints(state: SuppressionState, pins: seq<seq<Value>>) returns (out: seq<Row>, ghost hidden: set<Key>)
    requires state.suppressedKeys == {} && !state.probeSuppression && state.hashes.Valid()
             && state.hashes.Contents() == {}
    requires (forall k :: 0 <= k < |pins| ==> pins[k] != []) && forall k ::
               k in state.index
               ==> state.index[k].row.key == k
    modifies state`probeSuppression, state`hashPrefilter, state.hashes
    ensures EmitsPoints(state.index, PointKeys(pins, Product(pins)), out)
    ensures state.Hides(hidden) && forall k :: k in hidden ==> Suppressed(state.index, k)
    ensures forall k :: k in PointKeys(pins, Product(pins)) && Suppressed(state.index, k) ==> k in hidden
  {
    out := LookUpPoints(state, pins);
    OccupiedIsCardinality(state.hashes.slots);
    state.hashPrefilter := state.hashes.count > 0;
    state.probeSuppression := state.hashPrefilter;
    hidden := if state.hashPrefilter then set k | k in state.index && state.index[k].op != I
        && Normalize(state.hash(k)) in state.hashes.Contents() else {};
  }

  /** seen are the points handled so far: their rows are out, their replaced keys hashed. */
  ghost predicate SeenPoints(d: Delta, hash: Key -> Hash, hashed: set<Hash>, seen: set<Key>, out: seq<Row>) {
    && EmitsPoints(d, seen, out)
    && (forall k :: k in seen && Suppressed(d, k) ==> Normalize(hash(k)) in hashed)
  }

  lemma SeenOneMore(d: Delta, hash: Key -> Hash, hashed: set<Hash>, seen: set<Key>, out: seq<Row>, key: Key)
    requires SeenPoints(d, hash, hashed, seen, out) && key in d && d[key].row.key == key && key !in seen
    ensures SeenPoints(d, hash, hashed + (if d[key].op == I then {} else {Normalize(hash(key))}), seen + {key},
                       out + if d[key].op == D then [] else [d[key].row])
  {
    var more := out + if d[key].op == D then [] else [d[key].row];
    forall r: Row
      ensures multiset(more)[r] == if r.key in seen + {key} && Visible(d, r.key) && d[r.key].row == r then 1 else 0
    {
      assert multiset(more)[r] == multiset(out)[r] + if d[key].op != D && d[key].row == r then 1 else 0;
    }
  }

  ghost predicate EmitsPoints(d: Delta, points: set<Key>, out: seq<Row>) {
    forall r :: multiset(out)[r] == if r.key in points && Visible(d, r.key) && d[r.key].row == r then 1 else 0
  }

  ghost function PointKeys(pins: seq<seq<Value>>, count: nat): set<Key>
    requires forall k :: 0 <= k < |pins| ==> pins[k] != []
  {
    set n: nat | n < count :: Key(CrossRow(pins, n))
  }

  lemma PointKeysStep(pins: seq<seq<Value>>, n: nat, known: set<Key>)
    requires forall k :: 0 <= k < |pins| ==> pins[k] != []
    ensures var key := Key(CrossRow(pins, n));
            PointKeys(pins, n + 1) * known == PointKeys(pins, n) * known + if key in known then {key} else {}
  {
    assert PointKeys(pins, n + 1) == PointKeys(pins, n) + {Key(CrossRow(pins, n))};
  }

  /** Every row the pins admit has its key among the looked-up ones. */
  ghost predicate Pinned(pins: seq<seq<Value>>, r: Row) {
    |r.key.parts| == |pins| && forall k :: 0 <= k < |pins| ==> r.key.parts[k] in pins[k]
  }

  lemma PinnedKeysAreLookedUp(pins: seq<seq<Value>>, r: Row)
    requires (forall k :: 0 <= k < |pins| ==> pins[k] != []) && Pinned(pins, r)
    ensures r.key in PointKeys(pins, Product(pins))
  {
    var n := CrossProductCovers(pins, r.key.parts);
    assert Key(CrossRow(pins, n)) == r.key;
  }

  /** The point-lookup scan.  query is the filter evaluated above the scan; the delta side and
      the base side may each apply any weaker part of it, or nothing at all.  After the query
      is applied again, the output is the filtered merged relation, as a full scan gives it. */
  method ScanPoints(base: Table, d: Delta, hash: Key -> Hash, pins: seq<seq<Value>>, baseChunks: seq<seq<Row>>,
                    query: Row -> bool, weakDelta: Row -> bool, weakBase: Row -> bool)
    returns (out: seq<Row>)
    requires WellKeyed(base) && OwnKeys(d) && ListsTable(base, Flatten(baseChunks))
    requires forall k :: 0 <= k < |pins| ==> pins[k] != []
    requires forall r :: query(r) ==> Pinned(pins, r) && weakDelta(r) && weakBase(r)
    ensures ListsMerged(base, d, query, Filter(query, out))
  {
    var state := new SuppressionState(d, hash);
    var points, hidden := InitPoints(state, pins);
    var filtered := seq(|baseChunks|, i requires 0 <= i < |baseChunks| => Filter(weakBase, baseChunks[i]));
    var rows := ScanBase(state, hidden, [], filtered);
    out := Filter(weakDelta, points) + rows;
    FilteredChunks(weakBase, baseChunks, filtered);
    forall r ensures multiset(Filter(query, out))[r] == if query(r) then ShownCount(base, d, r) else 0 {
      PointRowCount(base, d, pins, points, hidden, Flatten(baseChunks), query, weakDelta, weakBase, r);
    }
  }

  lemma PointRowCount(base: Table, d: Delta, pins: seq<seq<Value>>, points: seq<Row>, hidden: set<Key>,
                      baseScan: seq<Row>,
                      query: Row -> bool, weakDelta: Row -> bool, weakBase: Row -> bool, r: Row)
    requires ListsTable(base, baseScan) && forall k :: 0 <= k < |pins| ==> pins[k] != []
    requires query(r) ==> Pinned(pins, r) && weakDelta(r) && weakBase(r)
    requires EmitsPoints(d, PointKeys(pins, Product(pins)), points)
    requires forall k :: k in hidden ==> Suppressed(d, k)
    requires forall k :: k in PointKeys(pins, Product(pins)) && Suppressed(d, k) ==> k in hidden
    ensures var live := (r: Row) => r.key !in hidden;
            multiset(Filter(query, Filter(weakDelta, points) + ([] + Filter(live, Filter(weakBase, baseScan)))))[r]
            == if query(r) then ShownCount(base, d, r) else 0
  {
    var live := (r: Row) => r.key !in hidden;
    var left, right := Filter(weakDelta, points), Filter(live, Filter(weakBase, baseScan));
    assert [] + right == right;
    FilterCount(query, left + right, r);
    if query(r) {
      FilterCount(weakDelta, points, r);
      FilterCount(live, Filter(weakBase, baseScan), r);
      FilterCount(weakBase, baseScan, r);
      PinnedKeysAreLookedUp(pins, r);
      assert multiset(left + right)[r] == multiset(points)[r] + if r.key in hidden then 0 else multiset(baseScan)[r];
    }
  }

  lemma {:induction false} FilteredChunks<T>(p: T -> bool, chunks: seq<seq<T>>, filtered: seq<seq<T>>)
    requires |filtered| == |chunks| && forall i :: 0 <= i < |chunks| ==> filtered[i] == Filter(p, chunks[i])
    ensures Flatten(filtered) == Filter(p, Flatten(chunks))
  {
    if chunks != [] {
      var n := |chunks| - 1;
      FilteredChunks(p, chunks[..n], filtered[..n]);
      FilterConcat(p, Flatten(chunks[..n]), chunks[n]);
    }
  }

  // ----- choosing the pins -----

  const MAX_POINT_KEYS: nat := 2048

  datatype PushedFilter = PushedFilter(column: nat, filter: ColumnFilter)

  /** For each key column the first pushed filter that pins it; None when the scan must read
      the whole delta. */
  method ChoosePins(filters: seq<PushedFilter>, columns: nat) returns (pins: Option<seq<seq<Value>>>)
    ensures pins.Some? ==> |pins.value| == columns && 0 < Product(pins.value) <= MAX_POINT_KEYS
    ensures pins.None? ==> CannotPin(filters, columns)
    ensures pins.Some? ==> forall k :: 0 <= k < columns ==> pins.value[k] != [] && PinnedBy(filters, k, pins.value[k])
  {
    var chosen: seq<seq<Value>> := [];
    var count := 1;
    for k := 0 to columns
      invariant |chosen| == k && count == Product(chosen) && 0 < count <= MAX_POINT_KEYS
      invariant forall j :: 0 <= j < k ==> chosen[j] != [] && PinnedBy(filters, j, chosen[j])
    {
      var values := PinColumn(filters, k);
      ProductOneMore(chosen, values);
      count := count * |values|;
      if values == [] || count > MAX_POINT_KEYS {
        if values != [] { TooMany(filters, chosen, values, columns); }
        return None;
      }
      chosen := chosen + [values];
    }
    pins := Some(chosen);
  }

  /** The values of the first filter that pins key column `k`, none without one. */
  method PinColumn(filters: seq<PushedFilter>, k: nat) returns (values: seq<Value>)
    ensures values == [] ==> NamesNone(filters, k)
    ensures values != [] ==> PinnedBy(filters, k, values)
  {
    values := [];
    for i := 0 to |filters|
      invariant values == [] ==> NamesNone(filters[..i], k)
      invariant values != [] ==> PinnedBy(filters, k, values)
    {
      if values == [] && filters[i].column == k {
        var pinned := PointFilterValues(filters[i].filter);
        if pinned.Some? { values := pinned.value; }
      }
      assert filters[..i + 1] == filters[..i] + [filters[i]];
    }
    assert filters[..|filters|] == filters;
  }

  lemma TooMany(filters: seq<PushedFilter>, chosen: seq<seq<Value>>, values: seq<Value>, columns: nat)
    requires |chosen| < columns && PinnedBy(filters, |chosen|, values)
    requires forall j :: 0 <= j < |chosen| ==> PinnedBy(filters, j, chosen[j])
    requires Product(chosen + [values]) > MAX_POINT_KEYS
    ensures CannotPin(filters, columns)
  {
    var all := chosen + [values];
    forall j | 0 <= j < |all| ensures PinnedBy(filters, j, all[j]) {}
  }

  /** No filter on the column names any value. */
  predicate NamesNone(filters: seq<PushedFilter>, k: nat) {
    forall i :: 0 <= i < |filters| ==> !Usable(filters[i], k)
  }

  predicate Usable(f: PushedFilter, k: nat) {
    f.column == k && PointFilterValues(f.filter).Some? && PointFilterValues(f.filter).value != []
  }

  /** A key column has no filter that names values, or the pinned values of the first columns
      already make too many keys. */
  ghost predicate CannotPin(filters: seq<PushedFilter>, columns: nat) {
    || (exists k: nat :: k < columns && NamesNone(filters, k))
    || (exists some: seq<seq<Value>> :: 0 < |some| <= columns && Product(some) > 2048
                                        && forall j :: 0 <= j < |some| ==> PinnedBy(filters, j, some[j]))
  }

  ghost predicate PinnedBy(filters: seq<PushedFilter>, k: nat, values: seq<Value>) {
    exists i :: 0 <= i < |filters| && filters[i].column == k && PointFilterValues(filters[i].filter) == Some(values)
  }

  lemma {:induction false} ProductOneMore(pins: seq<seq<Value>>, values: seq<Value>)
    ensures Product(pins + [values]) == Product(pins) * |values|
  {
    if pins == [] {
      assert ([] + [values])[1..] == [];
    } else {
      assert (pins + [values])[1..] == pins[1..] + [values];
      ProductOneMore(pins[1..], values);
      assert |pins[0]| * (Product(pins[1..]) * |values|) == |pins[0]| * Product(pins[1..]) * |values|;
    }
  }

  /** The chosen pins admit every row that satisfies the pushed filters. */
  lemma ChosenPinsAdmit(filters: seq<PushedFilter>, pins: seq<seq<Value>>, r: Row)
    requires |r.key.parts| == |pins| && forall k :: 0 <= k < |pins| ==> PinnedBy(filters, k, pins[k])
    requires forall i ::
               0 <= i < |filters| && filters[i].column < |pins|
               ==> Satisfies(filters[i].filter, r.key.parts[filters[i].column])
    ensures Pinned(pins, r)
  {
    forall k | 0 <= k < |pins| ensures r.key.parts[k] in pins[k] {
      assert PinnedBy(filters, k, pins[k]);
      var i :| 0 <= i < |filters| && filters[i].column == k && PointFilterValues(filters[i].filter) == Some(pins[k]);
      PinsAreComplete(filters[i].filter, r.key.parts[k]);
    }
  }

  // ----- a filtered scan, whichever branch it takes -----

  /** The pushed filters on key columns hold for the row. */
  ghost predicate PassesFilters(filters: seq<PushedFilter>, columns: nat, r: Row) {
    && |r.key.parts| == columns
    && forall i :: 0 <= i < |filters| && filters[i].column < columns
        ==> Satisfies(filters[i].filter, r.key.parts[filters[i].column])
  }

  lemma FilterTwice<T>(query: T -> bool, weak: T -> bool, s: seq<T>, r: T)
    requires query(r) ==> weak(r)
    ensures multiset(Filter(query, Filter(weak, s)))[r] == if query(r) then multiset(s)[r] else 0
  {
    FilterCount(query, Filter(weak, s), r);
    FilterCount(weak, s, r);
  }

  lemma FullScanFiltered(base: Table, d: Delta, delta: seq<Change>, baseScan: seq<Row>, query: Row -> bool,
                         weakDelta: Row -> bool, weakBase: Row -> bool)
    requires ListsDelta(d, delta) && ListsTable(base, baseScan) && forall r :: query(r) ==> weakDelta(r) && weakBase(r)
    ensures ListsMerged(base, d, query, Filter(query,
                                               Filter(weakDelta, Emitted(delta))
                                               + Filter(weakBase, Filter(Live(d), baseScan))))
  {
    var left, right := Emitted(delta), Filter(Live(d), baseScan);
    FilterConcat(query, Filter(weakDelta, left), Filter(weakBase, right));
    forall r ensures multiset(Filter(query, Filter(weakDelta, left)) + Filter(query, Filter(weakBase, right)))[r]
      == if query(r) then ShownCount(base, d, r) else 0
    {
      FilterTwice(query, weakDelta, left, r);
      FilterTwice(query, weakBase, right, r);
      ScanCount(base, d, delta, baseScan, r);
    }
  }

  lemma MergedIsView(base: Table, d: Delta, p: Row -> bool, s: seq<Row>)
    requires WellKeyed(base) && OwnKeys(d) && NoShadowedInsert(base, d) && ListsMerged(base, d, p, s)
    ensures ListsMatching(View(base, d), p, s)
  {
    forall r: Row ensures multiset(s)[r] == if r.key in View(base, d) && View(base, d)[r.key] == r && p(r) then 1 else 0
    {
      ShownOnce(base, d, r);
    }
  }

  /** A scan with pushed filters: a point lookup when they pin every key column to few values,
      a full scan otherwise.  Either way, filtered again above, it lists the filtered merged
      relation - the filtered view as long as no inserted key has appeared in the base. */
  method ScanFiltered(base: Table, d: Delta, hash: Key -> Hash, delta: seq<Change>, baseChunks: seq<seq<Row>>,
                      keyIndex: bool, limit: nat, filters: seq<PushedFilter>, columns: nat,
                      query: Row -> bool, weakDelta: Row -> bool, weakBase: Row -> bool)
    returns (out: seq<Row>)
    requires WellKeyed(base) && OwnKeys(d) && ListsDelta(d, delta) && ListsTable(base, Flatten(baseChunks))
    requires forall r :: query(r) ==> PassesFilters(filters, columns, r) && weakDelta(r) && weakBase(r)
    ensures ListsMerged(base, d, query, Filter(query, out))
    ensures NoShadowedInsert(base, d) ==> ListsMatching(View(base, d), query, Filter(query, out))
  {
    var pins: Option<seq<seq<Value>>> := None;
    if keyIndex { pins := ChoosePins(filters, columns); }
    if pins.Some? {
      forall r | query(r) ensures Pinned(pins.value, r) { ChosenPinsAdmit(filters, pins.value, r); }
      out := ScanPoints(base, d, hash, pins.value, baseChunks, query, weakDelta, weakBase);
    } else {
      var deltaRows, baseRows := ScanParts(base, d, hash, delta, baseChunks, keyIndex, limit);
      out := Filter(weakDelta, deltaRows) + Filter(weakBase, baseRows);
      FullScanFiltered(base, d, delta, Flatten(baseChunks), query, weakDelta, weakBase);
    }
    if NoShadowedInsert(base, d) { MergedIsView(base, d, query, Filter(query, out)); }
  }
}
