/** The keyed delta changelog: at most one change per key, laid over a base table.  This is
    the abstract level: the op-transition matrix on finite maps, statement folds, and the
    plain keyed table they stand for. */
module KeyedDelta {
  import opened Values

  datatype Key = Key(parts: seq<Value>)

  /** A row; payload columns past the end of the list read as NULL. */
  datatype Row = Row(key: Key, payload: seq<Value>)

  type Table = map<Key, Row>

  datatype Op = I | U | D
  datatype Change = Change(op: Op, row: Row)
  type Delta = map<Key, Change>

  /** A tombstone keeps its key; every other column is NULL. */
  function Tombstone(k: Key): Row {
    Row(k, [])
  }

  predicate Visible(delta: Delta, k: Key) {
    k in delta && delta[k].op != D
  }

  predicate Suppressed(delta: Delta, k: Key) {
    k in delta && delta[k].op != I
  }

  /** The merged relation: the I/U rows plus the base rows whose key has no U/D change. */
  function View(base: Table, delta: Delta): Table {
    map k | k in base.Keys + delta.Keys && (Visible(delta, k) || (k in base && !Suppressed(delta, k)))
      :: if Visible(delta, k) then delta[k].row else base[k]
  }

  /** Every change already says what the table says. */
  predicate Idle(base: Table, delta: Delta) {
    forall k :: k in delta ==> if delta[k].op == D then k !in base else k in base && base[k] == delta[k].row
  }

  /** A delta can be dropped from a scenario without a trace exactly when it is idle. */
  lemma ViewIsBaseIffIdle(base: Table, delta: Delta)
    ensures View(base, delta) == base <==> Idle(base, delta)
  {
    var view := View(base, delta);
    if Idle(base, delta) {
      assert view.Keys == base.Keys && forall k :: k in base ==> view[k] == base[k];
    }
    if view == base {
      forall k | k in delta ensures if delta[k].op == D then k !in base else k in base && base[k] == delta[k].row {
        assert k in view <==> delta[k].op != D;
      }
    }
  }

  predicate WellKeyed(t: Table) {
    forall k :: k in t ==> t[k].key == k
  }

  predicate OwnKeys(delta: Delta) {
    forall k :: k in delta ==> delta[k].row.key == k
  }

  /** What the statements rest on: no key the scenario inserted is in the base.  The host may
      change anything else underneath. */
  predicate Overlay(base: Table, delta: Delta) {
    WellKeyed(base) && forall k :: k in delta ==> delta[k].row.key == k && (delta[k].op == I ==> k !in base)
  }

  /** The same on a base that did not move: I keys are not in it, U and D keys are. */
  predicate Inv(base: Table, delta: Delta) {
    WellKeyed(base) && forall k :: k in delta ==> delta[k].row.key == k && (delta[k].op == I <==> k !in base)
  }

  // ----- the op-transition matrix -----

  /** UPDATE of a visible row that keeps its key. */
  function Rewrite(delta: Delta, row: Row): Delta {
    delta[row.key := Change(if row.key in delta then delta[row.key].op else U, row)]
  }

  /** DELETE of a visible row: an I change vanishes, anything else leaves a tombstone. */
  function Vacate(delta: Delta, k: Key): Delta {
    if k in delta && delta[k].op == I then delta - {k} else delta[k := Change(D, Tombstone(k))]
  }

  /** A row claims a key that is not visible: over a tombstone it is an update of the base row. */
  function Claim(delta: Delta, row: Row): Delta {
    delta[row.key := Change(if row.key in delta then U else I, row)]
  }

  /** probe holds the keys that the base's key index reports: every base key, or none when
      the base has no PRIMARY KEY on exactly the key columns. */
  predicate CanClaim(probe: set<Key>, delta: Delta, k: Key) {
    !Visible(delta, k) && (k in delta || k !in probe)
  }

  // ----- statements, one row at a time -----

  /** One row of an UPDATE: the key it was read under and its complete new image. */
  datatype Assign = Assign(at: Key, image: Row) {
    predicate Moves() { image.key != at }
    function Touches(): set<Key> { {at, image.key} }
  }

  datatype Progress = Progress(delta: Delta, touched: set<Key>)

  function UpdateRow(probe: set<Key>, p: Progress, a: Assign): Option<Progress> {
    if a.at in p.touched then None
    else if !a.Moves() then Some(Progress(Rewrite(p.delta, a.image), p.touched + {a.at}))
    else if a.image.key in p.touched || !CanClaim(probe, p.delta, a.image.key) then None
    else Some(Progress(Claim(Vacate(p.delta, a.at), a.image), p.touched + a.Touches()))
  }

  function UpdateRows(probe: set<Key>, p: Progress, rows: seq<Assign>): Option<Progress> {
    if rows == [] then Some(p)
    else
      var before := UpdateRows(probe, p, rows[..|rows| - 1]);
      if before.None? then None else UpdateRow(probe, before.value, rows[|rows| - 1])
  }

  /** A repeated DELETE of a key is skipped. */
  function DeleteRow(p: Progress, k: Key): Progress {
    if k in p.touched then p else Progress(Vacate(p.delta, k), p.touched + {k})
  }

  function DeleteRows(p: Progress, keys: seq<Key>): Progress {
    if keys == [] then p else DeleteRow(DeleteRows(p, keys[..|keys| - 1]), keys[|keys| - 1])
  }

  function InsertRow(probe: set<Key>, delta: Delta, row: Row): Option<Delta> {
    if CanClaim(probe, delta, row.key) then Some(Claim(delta, row)) else None
  }

  function InsertRows(probe: set<Key>, delta: Delta, rows: seq<Row>): Option<Delta> {
    if rows == [] then Some(delta)
    else
      var before := InsertRows(probe, delta, rows[..|rows| - 1]);
      if before.None? then None else InsertRow(probe, before.value, rows[|rows| - 1])
  }

  // ----- folds over prefixes and chunks -----

  lemma UpdatePrefix(probe: set<Key>, p: Progress, rows: seq<Assign>, i: nat)
    requires i < |rows|
    ensures var before := UpdateRows(probe, p, rows[..i]);
            UpdateRows(probe, p, rows[..i + 1]) == if before.None? then None
                else UpdateRow(probe, before.value, rows[i])
  {
    assert rows[..i + 1][..i] == rows[..i];
  }

  lemma {:induction false} RejectedPrefixRejects(probe: set<Key>, p: Progress, rows: seq<Assign>, i: nat)
    requires i <= |rows| && UpdateRows(probe, p, rows[..i]).None?
    ensures UpdateRows(probe, p, rows).None?
    decreases |rows| - i
  {
    if i == |rows| {
      assert rows[..i] == rows;
    } else {
      UpdatePrefix(probe, p, rows, i);
      RejectedPrefixRejects(probe, p, rows, i + 1);
    }
  }

  lemma InsertPrefix(probe: set<Key>, delta: Delta, rows: seq<Row>, i: nat)
    requires i < |rows|
    ensures var before := InsertRows(probe, delta, rows[..i]);
            InsertRows(probe, delta, rows[..i + 1]) == if before.None? then None
                else InsertRow(probe, before.value, rows[i])
  {
    assert rows[..i + 1][..i] == rows[..i];
  }

  lemma {:induction false} RejectedInsertPrefix(probe: set<Key>, delta: Delta, rows: seq<Row>, i: nat)
    requires i <= |rows| && InsertRows(probe, delta, rows[..i]).None?
    ensures InsertRows(probe, delta, rows).None?
    decreases |rows| - i
  {
    if i == |rows| {
      assert rows[..i] == rows;
    } else {
      InsertPrefix(probe, delta, rows, i);
      RejectedInsertPrefix(probe, delta, rows, i + 1);
    }
  }

  /** Chunk borders are invisible to a statement. */
  lemma {:induction false} UpdateInChunks(probe: set<Key>, p: Progress, a: seq<Assign>, b: seq<Assign>)
    ensures var first := UpdateRows(probe, p, a);
            UpdateRows(probe, p, a + b) == if first.None? then None else UpdateRows(probe, first.value, b)
  {
    if b == [] {
      assert a + b == a;
    } else {
      var n := |b| - 1;
      UpdateInChunks(probe, p, a, b[..n]);
      assert (a + b)[..|a + b| - 1] == a + b[..n];
    }
  }

  lemma {:induction false} DeleteInChunks(p: Progress, a: seq<Key>, b: seq<Key>)
    ensures DeleteRows(p, a + b) == DeleteRows(DeleteRows(p, a), b)
  {
    if b == [] {
      assert a + b == a;
    } else {
      var n := |b| - 1;
      DeleteInChunks(p, a, b[..n]);
      assert (a + b)[..|a + b| - 1] == a + b[..n];
    }
  }

  lemma {:induction false} InsertInChunks(probe: set<Key>, delta: Delta, a: seq<Row>, b: seq<Row>)
    ensures var first := InsertRows(probe, delta, a);
            InsertRows(probe, delta, a + b) == if first.None? then None else InsertRows(probe, first.value, b)
  {
    if b == [] {
      assert a + b == a;
    } else {
      var n := |b| - 1;
      InsertInChunks(probe, delta, a, b[..n]);
      assert (a + b)[..|a + b| - 1] == a + b[..n];
    }
  }

  // ----- each row of the matrix against the plain table -----

  ghost predicate AgreeExceptAt<X>(m: map<Key, X>, n: map<Key, X>, k: Key) {
    forall j :: j != k ==> (j in m <==> j in n) && (j in m ==> m[j] == n[j])
  }

  /** A change at one key is a change of the view at that key only. */
  lemma ViewIsLocal(base: Table, delta: Delta, after: Delta, k: Key)
    requires AgreeExceptAt(delta, after, k)
    ensures AgreeExceptAt(View(base, delta), View(base, after), k)
  {
    forall j | j != k ensures Visible(delta, j) == Visible(after, j) && Suppressed(delta, j) == Suppressed(after, j) {
    }
  }

  lemma EqualIfSameAt(view: Table, after: Table, k: Key)
    requires AgreeExceptAt(view, after, k)
    ensures k !in after ==> after == view - {k}
    ensures k in after ==> after == view[k := after[k]]
  {
  }

  /** The transitions keep the invariant and act on the view like the plain operation. */
  lemma RewriteIsUpdate(base: Table, delta: Delta, row: Row)
    requires Overlay(base, delta) && row.key in View(base, delta)
    ensures Overlay(base, Rewrite(delta, row)) && (Inv(base, delta) ==> Inv(base, Rewrite(delta, row)))
    ensures View(base, Rewrite(delta, row)) == View(base, delta)[row.key := row]
  {
    ViewIsLocal(base, delta, Rewrite(delta, row), row.key);
    EqualIfSameAt(View(base, delta), View(base, Rewrite(delta, row)), row.key);
  }

  lemma VacateIsDelete(base: Table, delta: Delta, k: Key)
    requires Overlay(base, delta) && k in View(base, delta)
    ensures Overlay(base, Vacate(delta, k)) && (Inv(base, delta) ==> Inv(base, Vacate(delta, k)))
    ensures View(base, Vacate(delta, k)) == View(base, delta) - {k}
  {
    ViewIsLocal(base, delta, Vacate(delta, k), k);
    EqualIfSameAt(View(base, delta), View(base, Vacate(delta, k)), k);
  }

  lemma ClaimIsInsert(base: Table, delta: Delta, row: Row)
    requires Overlay(base, delta) && row.key !in View(base, delta)
    ensures Overlay(base, Claim(delta, row)) && (Inv(base, delta) ==> Inv(base, Claim(delta, row)))
    ensures View(base, Claim(delta, row)) == View(base, delta)[row.key := row]
  {
    ViewIsLocal(base, delta, Claim(delta, row), row.key);
    EqualIfSameAt(View(base, delta), View(base, Claim(delta, row)), row.key);
  }

  /** With a base PRIMARY KEY the collision check is exactly "the key is not in the view". */
  lemma ClaimableMeansAbsent(base: Table, delta: Delta, k: Key)
    requires Overlay(base, delta)
    ensures CanClaim(base.Keys, delta, k) <==> k !in View(base, delta)
  {
  }

  lemma UpdateRowOnView(base: Table, p: Progress, a: Assign)
    requires Overlay(base, p.delta) && (a.at !in p.touched ==> a.at in View(base, p.delta))
    ensures var view := View(base, p.delta);
            var q := UpdateRow(base.Keys, p, a);
            && (q.Some? <==> a.at !in p.touched && (a.Moves() ==> a.image.key !in p.touched && a.image.key !in view))
            && (q.Some? ==>
              Overlay(base, q.value.delta) && (Inv(base, p.delta) ==> Inv(base, q.value.delta))
              && q.value.touched == p.touched + a.Touches()
              && View(base, q.value.delta) == (view - {a.at})[a.image.key := a.image])
  {
    var view := View(base, p.delta);
    ClaimableMeansAbsent(base, p.delta, a.image.key);
    if UpdateRow(base.Keys, p, a).Some? {
      if a.Moves() {
        VacateIsDelete(base, p.delta, a.at);
        ClaimIsInsert(base, Vacate(p.delta, a.at), a.image);
        assert Claim(Vacate(p.delta, a.at), a.image).Keys == Vacate(p.delta, a.at).Keys + {a.image.key};
      } else {
        RewriteIsUpdate(base, p.delta, a.image);
        assert view[a.at := a.image] == (view - {a.at})[a.at := a.image];
      }
    }
  }

  // ----- a whole UPDATE: rejected or simultaneous, in any order -----

  predicate Compatible(view: Table, rows: seq<Assign>) {
    && (forall i, j :: 0 <= i < j < |rows| ==> rows[i].Touches() !! rows[j].Touches())
    && (forall i :: 0 <= i < |rows| && rows[i].Moves() ==> rows[i].image.key !in view)
  }

  function NewKeys(rows: set<Assign>): set<Key> { set a | a in rows :: a.image.key }

  function OldKeys(rows: set<Assign>): set<Key> { set a | a in rows :: a.at }

  /** after is the view with every row of the statement replaced at once. */
  ghost predicate Simultaneous(view: Table, rows: set<Assign>, after: Table) {
    && (forall k :: k in after <==> k in NewKeys(rows) || (k in view && k !in OldKeys(rows)))
    && (forall a :: a in rows ==> after[a.image.key] == a.image)
    && (forall k :: k in view && k in after && k !in NewKeys(rows) ==> after[k] == view[k])
  }

  lemma SimultaneousIsUnique(view: Table, rows: set<Assign>, after: Table, other: Table)
    requires Simultaneous(view, rows, after) && Simultaneous(view, rows, other)
    ensures after == other
  {
    forall k | k in after ensures after[k] == other[k] {
      if k in NewKeys(rows) {
        var a :| a in rows && a.image.key == k;
        assert after[a.image.key] == other[a.image.key];
      }
    }
  }

  function Set(rows: seq<Assign>): set<Assign> { set a | a in rows }

  function TouchedBy(rows: seq<Assign>): set<Key> { set a, k | a in rows && k in a.Touches() :: k }

  lemma TouchedByOneMore(rows: seq<Assign>)
    requires rows != []
    ensures TouchedBy(rows) == TouchedBy(rows[..|rows| - 1]) + rows[|rows| - 1].Touches()
    ensures Set(rows) == Set(rows[..|rows| - 1]) + {rows[|rows| - 1]}
  {
    assert rows == rows[..|rows| - 1] + [rows[|rows| - 1]];
  }

  lemma KeysOneMore(rows: set<Assign>, a: Assign)
    requires forall b :: b in rows ==> b.Touches() !! a.Touches()
    ensures NewKeys(rows + {a}) == NewKeys(rows) + {a.image.key} && OldKeys(rows + {a}) == OldKeys(rows) + {a.at}
    ensures a.at !in OldKeys(rows) && a.at !in NewKeys(rows)
    ensures a.image.key !in NewKeys(rows) && a.image.key !in OldKeys(rows)
  {
    assert a.at in a.Touches() && a.image.key in a.Touches();
    assert forall b :: b in rows ==> b.at in b.Touches() && b.image.key in b.Touches();
    assert a in rows + {a};
    assert forall b :: b in rows ==> b in rows + {a};
  }

  /** The key bookkeeping of one more row, on plain sets. */
  lemma StepKeys(view: Table, before: Table, news: set<Key>, olds: set<Key>, a: Assign)
    requires forall k :: k in before <==> k in news || (k in view && k !in olds)
    requires a.at !in news && a.image.key !in olds
    ensures forall k :: k in (before - {a.at})[a.image.key := a.image]
              <==> k in news + {a.image.key} || (k in view && k !in olds + {a.at})
  {
  }

  lemma SimultaneousOneMore(view: Table, rows: set<Assign>, a: Assign, before: Table)
    requires a.at in view && Simultaneous(view, rows, before)
    requires forall b :: b in rows ==> b.Touches() !! a.Touches()
    ensures Simultaneous(view, rows + {a}, (before - {a.at})[a.image.key := a.image])
  {
    KeysOneMore(rows, a);
    StepKeys(view, before, NewKeys(rows), OldKeys(rows), a);
    StepImages(rows, before, a);
  }

  lemma StepImages(rows: set<Assign>, before: Table, a: Assign)
    requires forall b :: b in rows ==> b.image.key in before && before[b.image.key] == b.image
    requires a.at !in NewKeys(rows) && a.image.key !in NewKeys(rows)
    ensures forall b :: b in rows + {a} ==>
              var after := (before - {a.at})[a.image.key := a.image];
              b.image.key in after && after[b.image.key] == b.image
  {
    forall b | b in rows ensures b.image.key != a.at && b.image.key != a.image.key {
      assert b.image.key in NewKeys(rows);
    }
  }

  /** An UPDATE over rows of the view is accepted exactly when no two of its rows touch a
      common key and no moved row lands on a visible key; then the view is updated
      simultaneously, however the rows were ordered. */
  lemma {:induction false} UpdateIsSimultaneous(base: Table, delta: Delta, rows: seq<Assign>)
    requires Overlay(base, delta) && forall a :: a in rows ==> a.at in View(base, delta)
    ensures var q := UpdateRows(base.Keys, Progress(delta, {}), rows);
            && (q.Some? <==> Compatible(View(base, delta), rows))
            && (q.Some? ==>
              Overlay(base, q.value.delta) && (Inv(base, delta) ==> Inv(base, q.value.delta))
              && q.value.touched == TouchedBy(rows)
              && Simultaneous(View(base, delta), Set(rows), View(base, q.value.delta)))
  {
    var view := View(base, delta);
    if rows == [] {
      assert Simultaneous(view, {}, view);
    } else {
      var n := |rows| - 1;
      var init, a := rows[..n], rows[n];
      UpdateIsSimultaneous(base, delta, init);
      TouchedByOneMore(rows);
      CompatibleOneMore(view, rows);
      var p := UpdateRows(base.Keys, Progress(delta, {}), init);
      if p.Some? {
        UntouchedKeysAreUnchanged(view, init, View(base, p.value.delta));
        UpdateRowOnView(base, p.value, a);
        if UpdateRow(base.Keys, p.value, a).Some? {
          RowsBeforeAreDisjoint(init, a);
          SimultaneousOneMore(view, Set(init), a, View(base, p.value.delta));
        }
      }
    }
  }

  lemma CompatibleOneMore(view: Table, rows: seq<Assign>)
    requires rows != []
    ensures var init, a := rows[..|rows| - 1], rows[|rows| - 1];
            Compatible(view, rows) <==>
              Compatible(view, init) && TouchedBy(init) !! a.Touches()
              && (a.Moves() ==> a.image.key !in view)
  {
    var init, a := rows[..|rows| - 1], rows[|rows| - 1];
    assert rows == init + [a];
    DisjointFromAll(init, a);
    if Compatible(view, rows) {
      forall i | 0 <= i < |init| ensures init[i].Touches() !! a.Touches() {
        assert rows[i].Touches() !! rows[|init|].Touches();
      }
      forall i, j | 0 <= i < j < |init| ensures init[i].Touches() !! init[j].Touches() {
        assert rows[i].Touches() !! rows[j].Touches();
      }
      assert forall i :: 0 <= i < |init| ==> rows[i] == init[i];
    }
  }

  lemma DisjointFromAll(rows: seq<Assign>, a: Assign)
    ensures TouchedBy(rows) !! a.Touches() <==> forall i :: 0 <= i < |rows| ==> rows[i].Touches() !! a.Touches()
  {
    if TouchedBy(rows) !! a.Touches() {
      forall i, k | 0 <= i < |rows| && k in rows[i].Touches() ensures k !in a.Touches() {
        assert k in TouchedBy(rows);
      }
    }
  }

  lemma RowsBeforeAreDisjoint(rows: seq<Assign>, a: Assign)
    requires TouchedBy(rows) !! a.Touches()
    ensures forall b :: b in Set(rows) ==> b.Touches() !! a.Touches()
  {
    forall b, k | b in rows && k in b.Touches() ensures k !in a.Touches() {
      assert k in TouchedBy(rows);
    }
  }

  lemma UntouchedKeysAreUnchanged(view: Table, rows: seq<Assign>, after: Table)
    requires Simultaneous(view, Set(rows), after)
    ensures forall k :: k !in TouchedBy(rows) ==> (k in after <==> k in view) && (k in view ==> after[k] == view[k])
  {
    forall k | k !in TouchedBy(rows) ensures k !in NewKeys(Set(rows)) && k !in OldKeys(Set(rows)) {
      assert forall a :: a in rows ==> a.at in a.Touches() && a.image.key in a.Touches();
    }
  }

  /** Order does not matter: a permutation of the rows is accepted as well, with one result. */
  lemma UpdateIsOrderIndependent(base: Table, delta: Delta, rows: seq<Assign>, perm: seq<Assign>)
    requires Overlay(base, delta) && forall a :: a in rows ==> a.at in View(base, delta)
    requires multiset(rows) == multiset(perm)
    ensures var q := UpdateRows(base.Keys, Progress(delta, {}), rows);
            var r := UpdateRows(base.Keys, Progress(delta, {}), perm);
            (q.Some? <==> r.Some?) && (q.Some? ==> View(base, q.value.delta) == View(base, r.value.delta))
  {
    forall a ensures a in rows <==> a in perm {
      assert a in multiset(rows) <==> a in rows;
      assert a in multiset(perm) <==> a in perm;
    }
    UpdateIsSimultaneous(base, delta, rows);
    UpdateIsSimultaneous(base, delta, perm);
    assert Set(rows) == Set(perm);
    if Compatible(View(base, delta), rows) {
      CompatiblePermuted(View(base, delta), rows, perm);
      SimultaneousIsUnique(View(base, delta), Set(rows),
                           View(base, UpdateRows(base.Keys, Progress(delta, {}), rows).value.delta),
                           View(base, UpdateRows(base.Keys, Progress(delta, {}), perm).value.delta));
    }
    if Compatible(View(base, delta), perm) { CompatiblePermuted(View(base, delta), perm, rows); }
  }

  lemma CompatiblePermuted(view: Table, rows: seq<Assign>, perm: seq<Assign>)
    requires Compatible(view, rows) && multiset(rows) == multiset(perm)
    ensures Compatible(view, perm)
  {
    forall i ensures 0 <= i < |perm| ==> perm[i] in rows {
      if 0 <= i < |perm| { assert perm[i] in multiset(perm); }
    }
    forall i, j | 0 <= i < j < |perm| ensures perm[i].Touches() !! perm[j].Touches() {
      if perm[i] == perm[j] {
        RepeatedElement(perm, i, j);
        RepeatedInSequence(rows, perm[i]);
        assert false;
      } else {
        var x :| 0 <= x < |rows| && rows[x] == perm[i];
        var y :| 0 <= y < |rows| && rows[y] == perm[j];
        assert rows[if x < y then x else y].Touches() !! rows[if x < y then y else x].Touches();
      }
    }
  }

  lemma RepeatedElement<T>(s: seq<T>, i: nat, j: nat)
    requires i < j < |s| && s[i] == s[j]
    ensures multiset(s)[s[i]] >= 2
  {
    assert s == s[..j] + [s[j]] + s[j + 1..];
    assert s[i] in s[..j];
  }

  lemma {:induction false} RepeatedInSequence(rows: seq<Assign>, a: Assign)
    requires multiset(rows)[a] >= 2
    ensures exists i, j ::
              0 <= i < j < |rows| && rows[i] == a && rows[j] == a
              && !(rows[i].Touches() !! rows[j].Touches())
  {
    var n := |rows| - 1;
    assert rows == rows[..n] + [rows[n]];
    assert a.at in a.Touches();
    if rows[n] == a {
      assert a in multiset(rows[..n]);
      var i :| 0 <= i < n && rows[i] == a;
      assert rows[i] == a && rows[n] == a;
    } else {
      RepeatedInSequence(rows[..n], a);
      var i, j :| 0 <= i < j < n && rows[..n][i] == a && rows[..n][j] == a;
      assert rows[i] == a && rows[j] == a;
    }
  }

  // ----- a whole DELETE and a whole INSERT -----

  function KeySet(keys: seq<Key>): set<Key> {
    set k | k in keys
  }

  lemma KeySetOneMore(keys: seq<Key>)
    requires keys != []
    ensures KeySet(keys) == KeySet(keys[..|keys| - 1]) + {keys[|keys| - 1]}
  {
    assert keys == keys[..|keys| - 1] + [keys[|keys| - 1]];
  }

  /** A DELETE over keys of the view always succeeds and removes exactly those keys, once each. */
  lemma {:induction false} DeleteRemovesKeys(base: Table, delta: Delta, keys: seq<Key>)
    requires Overlay(base, delta) && forall k :: k in keys ==> k in View(base, delta)
    ensures var q := DeleteRows(Progress(delta, {}), keys);
            && Overlay(base, q.delta) && (Inv(base, delta) ==> Inv(base, q.delta)) && q.touched == KeySet(keys)
            && View(base, q.delta) == View(base, delta) - KeySet(keys)
  {
    if keys != [] {
      var init, k := keys[..|keys| - 1], keys[|keys| - 1];
      KeySetOneMore(keys);
      DeleteRemovesKeys(base, delta, init);
      var p := DeleteRows(Progress(delta, {}), init);
      if k !in p.touched {
        VacateIsDelete(base, p.delta, k);
      }
    }
  }

  predicate Insertable(view: Table, rows: seq<Row>) {
    && (forall i :: 0 <= i < |rows| ==> rows[i].key !in view)
    && (forall i, j :: 0 <= i < j < |rows| ==> rows[i].key != rows[j].key)
  }

  function WithRows(view: Table, rows: seq<Row>): Table {
    if rows == [] then view else WithRows(view, rows[..|rows| - 1])[rows[|rows| - 1].key := rows[|rows| - 1]]
  }

  predicate DistinctRows(rows: seq<Row>) {
    forall i, j :: 0 <= i < j < |rows| ==> rows[i].key != rows[j].key
  }

  lemma {:induction false} WithRowsMiss(t: Table, rows: seq<Row>, k: Key)
    requires forall r :: r in rows ==> r.key != k
    ensures k in WithRows(t, rows) <==> k in t
    ensures k in t ==> WithRows(t, rows)[k] == t[k]
  {
    if rows != [] {
      var n := |rows| - 1;
      assert rows[n] in rows && forall r :: r in rows[..n] ==> r in rows;
      WithRowsMiss(t, rows[..n], k);
    }
  }

  lemma {:induction false} WithRowsHit(t: Table, rows: seq<Row>, i: nat)
    requires DistinctRows(rows) && i < |rows|
    ensures rows[i].key in WithRows(t, rows) && WithRows(t, rows)[rows[i].key] == rows[i]
  {
    if i < |rows| - 1 { WithRowsHit(t, rows[..|rows| - 1], i); }
  }

  function KeysOf(rows: seq<Row>): set<Key> {
    if rows == [] then {} else KeysOf(rows[..|rows| - 1]) + {rows[|rows| - 1].key}
  }

  /** An INSERT is rejected for its keys exactly when a key is already in the view or repeats. */
  lemma {:induction false} InsertAddsRows(base: Table, delta: Delta, rows: seq<Row>)
    requires Overlay(base, delta)
    ensures var q := InsertRows(base.Keys, delta, rows);
            && (q.Some? <==> Insertable(View(base, delta), rows))
            && (q.Some? ==>
              Overlay(base, q.value) && (Inv(base, delta) ==> Inv(base, q.value))
              && View(base, q.value) == WithRows(View(base, delta), rows))
  {
    if rows != [] {
      var view, init, row := View(base, delta), rows[..|rows| - 1], rows[|rows| - 1];
      InsertAddsRows(base, delta, init);
      InsertableOneMore(view, rows);
      WithRowsKeys(view, init);
      var p := InsertRows(base.Keys, delta, init);
      if p.Some? {
        ClaimableMeansAbsent(base, p.value, row.key);
        if row.key !in View(base, p.value) {
          ClaimIsInsert(base, p.value, row);
        }
      }
    }
  }

  lemma {:induction false} WithRowsKeys(view: Table, rows: seq<Row>)
    ensures WithRows(view, rows).Keys == view.Keys + KeysOf(rows)
  {
    if rows != [] {
      WithRowsKeys(view, rows[..|rows| - 1]);
    }
  }

  lemma {:induction false} KeysOfMembers(rows: seq<Row>, k: Key)
    ensures k in KeysOf(rows) <==> exists i :: 0 <= i < |rows| && rows[i].key == k
  {
    if rows != [] {
      var init := rows[..|rows| - 1];
      KeysOfMembers(init, k);
      assert forall i :: 0 <= i < |init| ==> init[i] == rows[i];
      if exists i :: 0 <= i < |rows| && rows[i].key == k {
        var i :| 0 <= i < |rows| && rows[i].key == k;
        assert i < |init| ==> init[i].key == k;
      }
    }
  }

  lemma InsertableOneMore(view: Table, rows: seq<Row>)
    requires rows != []
    ensures var init, row := rows[..|rows| - 1], rows[|rows| - 1];
            Insertable(view, rows) <==> Insertable(view, init) && row.key !in view && row.key !in KeysOf(init)
  {
    var init, row := rows[..|rows| - 1], rows[|rows| - 1];
    KeysOfMembers(init, row.key);
    assert forall i :: 0 <= i < |init| ==> init[i] == rows[i];
  }

  /** Without a base PRIMARY KEY an insert over an untouched base key is accepted; the
      invariant survives an accepted insert exactly when that did not happen. */
  lemma InsertWithoutBaseKey(base: Table, delta: Delta, row: Row)
    requires Inv(base, delta) && InsertRow({}, delta, row).Some?
    ensures Inv(base, InsertRow({}, delta, row).value) <==> !(row.key in base && row.key !in delta)
  {
    var after := InsertRow({}, delta, row).value;
    assert row.key in after;
    assert forall k :: k in after && k != row.key ==> k in delta && after[k] == delta[k];
  }

  lemma {:induction false} InsertsOwnKeys(probe: set<Key>, delta: Delta, rows: seq<Row>)
    requires OwnKeys(delta) && InsertRows(probe, delta, rows).Some?
    ensures OwnKeys(InsertRows(probe, delta, rows).value)
  {
    if rows != [] { InsertsOwnKeys(probe, delta, rows[..|rows| - 1]); }
  }

  lemma InvBeforeClaim(base: Table, delta: Delta, row: Row)
    requires OwnKeys(delta) && !Visible(delta, row.key) && Inv(base, Claim(delta, row))
    ensures Inv(base, delta) && CanClaim(base.Keys, delta, row.key)
  {
    var after := Claim(delta, row);
    assert row.key in after;
    forall k | k in delta ensures delta[k].op == I <==> k !in base { assert k in after; }
  }

  /** The same for a whole INSERT: its delta keeps the invariant exactly when a PRIMARY KEY on
      the base would have let it pass. */
  lemma {:induction false} InsertsWithoutBaseKey(base: Table, delta: Delta, rows: seq<Row>)
    requires Inv(base, delta) && InsertRows({}, delta, rows).Some?
    ensures Inv(base, InsertRows({}, delta, rows).value)
            <==> InsertRows(base.Keys, delta, rows) == InsertRows({}, delta, rows)
  {
    if rows != [] {
      var init, row := rows[..|rows| - 1], rows[|rows| - 1];
      var mid := InsertRows({}, delta, init).value;
      InsertsWithoutBaseKey(base, delta, init);
      InsertsOwnKeys({}, delta, init);
      if Inv(base, Claim(mid, row)) { InvBeforeClaim(base, mid, row); }
      if InsertRows(base.Keys, delta, rows).Some? {
        InsertsAsUnprobed(base.Keys, delta, init);
        InsertWithoutBaseKey(base, mid, row);
      }
    }
  }

  lemma {:induction false} InsertsAsUnprobed(probe: set<Key>, delta: Delta, rows: seq<Row>)
    ensures InsertRows(probe, delta, rows).Some? ==> InsertRows({}, delta, rows) == InsertRows(probe, delta, rows)
  {
    if rows != [] { InsertsAsUnprobed(probe, delta, rows[..|rows| - 1]); }
  }

  lemma {:induction false} UpdatesAsUnprobed(probe: set<Key>, p: Progress, rows: seq<Assign>)
    ensures UpdateRows(probe, p, rows).Some? ==> UpdateRows({}, p, rows) == UpdateRows(probe, p, rows)
  {
    if rows != [] { UpdatesAsUnprobed(probe, p, rows[..|rows| - 1]); }
  }

  /** An accepted UPDATE read untouched keys only and leaves what it did not touch alone. */
  lemma {:induction false} UpdateFrame(probe: set<Key>, p: Progress, rows: seq<Assign>)
    requires UpdateRows(probe, p, rows).Some?
    ensures p.touched <= UpdateRows(probe, p, rows).value.touched
    ensures forall a :: a in rows ==> a.at !in p.touched
    ensures forall k ::
              k !in UpdateRows(probe, p, rows).value.touched
              ==> SameAt(p.delta, UpdateRows(probe, p, rows).value.delta, k)
  {
    if rows != [] {
      var n := |rows| - 1;
      UpdateFrame(probe, p, rows[..n]);
      assert rows == rows[..n] + [rows[n]];
    }
  }

  predicate SameAt(m: Delta, n: Delta, k: Key) {
    (k in m <==> k in n) && (k in m ==> m[k] == n[k])
  }

  /** The invariant at one key. */
  predicate FitsAt(base: Table, delta: Delta, k: Key) {
    k in delta ==> delta[k].row.key == k && (delta[k].op == I <==> k !in base)
  }

  lemma InvBeforeRow(base: Table, start: Delta, p: Progress, a: Assign)
    requires Inv(base, start) && UpdateRow({}, p, a).Some? && Inv(base, UpdateRow({}, p, a).value.delta)
    requires forall k :: k !in p.touched ==> SameAt(start, p.delta, k)
    ensures Inv(base, p.delta) && UpdateRow(base.Keys, p, a) == UpdateRow({}, p, a)
  {
    var after := UpdateRow({}, p, a).value.delta;
    forall k | k in p.delta ensures FitsAt(base, p.delta, k) {
      if k in a.Touches() {
        assert SameAt(start, p.delta, k) && FitsAt(base, start, k);
      } else {
        assert FitsAt(base, after, k);
      }
    }
    assert FitsAt(base, after, a.image.key);
  }

  /** Without a base PRIMARY KEY an UPDATE may move a row onto an untouched base key; its delta
      keeps the invariant exactly when a PRIMARY KEY would have let it pass. */
  lemma {:induction false} UpdatesWithoutBaseKey(base: Table, p: Progress, rows: seq<Assign>)
    requires Inv(base, p.delta) && UpdateRows({}, p, rows).Some?
    requires forall a :: a in rows ==> a.at in p.touched || a.at in View(base, p.delta)
    ensures Inv(base, UpdateRows({}, p, rows).value.delta)
            <==> UpdateRows(base.Keys, p, rows) == UpdateRows({}, p, rows)
  {
    if rows != [] {
      var init, a := rows[..|rows| - 1], rows[|rows| - 1];
      assert rows == init + [a];
      var mid := UpdateRows({}, p, init).value;
      UpdatesWithoutBaseKey(base, p, init);
      UpdateFrame({}, p, rows);
      UpdateFrame({}, p, init);
      if Inv(base, UpdateRows({}, p, rows).value.delta) { InvBeforeRow(base, p.delta, mid, a); }
      if UpdateRows(base.Keys, p, rows).Some? {
        UpdatesAsUnprobed(base.Keys, p, init);
        assert SameAt(p.delta, mid.delta, a.at);
        UpdateRowOnView(base, mid, a);
      }
    }
  }

  /** The statement order rule is stricter than simultaneous update: exchanging two keys is
      rejected although the simultaneous result would be a table again. */
  lemma KeySwapIsRejected(base: Table, delta: Delta, a: Row, b: Row)
    requires Overlay(base, delta) && a.key in View(base, delta) && b.key in View(base, delta) && a.key != b.key
    ensures UpdateRows(base.Keys, Progress(delta, {}),
                       [Assign(a.key, Row(b.key, a.payload)), Assign(b.key, Row(a.key, b.payload))]).None?
  {
    var rows := [Assign(a.key, Row(b.key, a.payload)), Assign(b.key, Row(a.key, b.payload))];
    UpdateIsSimultaneous(base, delta, rows);
    assert rows[0].Moves() && rows[0].image.key in View(base, delta);
  }

  // ----- the host changes the base underneath -----

  /** What a plain table becomes when the host replaces the base: keys that the scenario touched
      stay as they are, all others follow the base. */
  function Rebased(t: Table, touched: set<Key>, base: Table): Table {
    map k | k in t.Keys + base.Keys && (if k in touched then k in t else k in base)
      :: if k in touched then t[k] else base[k]
  }

  lemma HostChangeShows(base: Table, other: Table, delta: Delta)
    ensures View(other, delta) == Rebased(View(base, delta), delta.Keys, other)
  {
    var view, rebased := View(other, delta), Rebased(View(base, delta), delta.Keys, other);
    forall k ensures (k in view <==> k in rebased) && (k in view ==> view[k] == rebased[k]) {
      if k in delta { assert k in View(base, delta) <==> Visible(delta, k); }
    }
  }

  /** The host may replace the base as it likes, as long as it adds no key the scenario inserted. */
  lemma OverlayAfterHostChange(base: Table, other: Table, delta: Delta)
    requires Overlay(base, delta) && WellKeyed(other)
    ensures Overlay(other, delta) <==> forall k :: k in delta && delta[k].op == I ==> k !in other
  {
    if forall k :: k in delta && delta[k].op == I ==> k !in other {
      forall k | k in delta ensures delta[k].row.key == k && (delta[k].op == I ==> k !in other) {}
    }
  }

  /** If it does, the base row is shadowed.  Deleting the scenario's row uncovers it; only a
      statement that goes on to delete the base row as well removes the key. */
  lemma DeletesOfShadowedKey(base: Table, delta: Delta, k: Key)
    requires WellKeyed(base) && k in delta && delta[k].op == I && k in base
    ensures View(base, Vacate(delta, k)) == View(base, delta)[k := base[k]]
    ensures View(base, Vacate(Vacate(delta, k), k)) == View(base, delta) - {k}
  {
    var once := Vacate(delta, k);
    ViewIsLocal(base, delta, once, k);
    EqualIfSameAt(View(base, delta), View(base, once), k);
    ViewIsLocal(base, delta, Vacate(once, k), k);
    EqualIfSameAt(View(base, delta), View(base, Vacate(once, k)), k);
  }

  /** Updating the scenario's row of a shadowed key leaves it shadowed. */
  lemma UpdateOfShadowedKey(base: Table, delta: Delta, row: Row)
    requires row.key in delta && delta[row.key].op == I && row.key in base
    ensures View(base, Rewrite(delta, row)) == View(base, delta)[row.key := row] && Rewrite(delta, row)[row.key].op == I
  {
    ViewIsLocal(base, delta, Rewrite(delta, row), row.key);
    EqualIfSameAt(View(base, delta), View(base, Rewrite(delta, row)), row.key);
  }

  // ----- the rows of a delta table -----

  predicate DistinctKeys(rows: seq<Change>) {
    forall i, j :: 0 <= i < j < |rows| ==> rows[i].row.key != rows[j].row.key
  }

  function DeltaOf(rows: seq<Change>): Delta {
    if rows == [] then map[]
    else
      var c := rows[|rows| - 1];
      DeltaOf(rows[..|rows| - 1])[c.row.key := c]
  }

  lemma {:induction false} DeltaOfHolds(rows: seq<Change>)
    requires DistinctKeys(rows)
    ensures forall i :: 0 <= i < |rows| ==>
              rows[i].row.key in DeltaOf(rows)
              && DeltaOf(rows)[rows[i].row.key] == rows[i]
    ensures forall k :: k in DeltaOf(rows) ==> DeltaOf(rows)[k] in rows && DeltaOf(rows)[k].row.key == k
  {
    if rows != [] {
      var n := |rows| - 1;
      DeltaOfHolds(rows[..n]);
      assert forall i :: 0 <= i < n ==> rows[..n][i] == rows[i];
    }
  }
}
