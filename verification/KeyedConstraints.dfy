/** UNIQUE constraints on keyed rows, and the indexes that the delta table mirrors from its base. */
module KeyedConstraints {
  import opened Values
  import opened KeyedDelta

  datatype Column = InKey(i: nat) | InPayload(i: nat)
  type Constraint = seq<Column>

  function Cell(row: Row, c: Column): Value {
    match c
    case InKey(i) => if i < |row.key.parts| then row.key.parts[i] else Null
    case InPayload(i) => if i < |row.payload| then row.payload[i] else Null
  }

  function Cells(row: Row, u: Constraint): seq<Value> {
    seq(|u|, i requires 0 <= i < |u| => Cell(row, u[i]))
  }

  /** Tuples with a NULL never conflict. */
  predicate Clash(u: Constraint, a: Row, b: Row) {
    Cells(a, u) == Cells(b, u) && Null !in Cells(a, u)
  }

  /** Two rows clash when every column of the constraint, in the key or in the payload, holds the
      same value in both, and none of them is NULL. */
  lemma ClashMeans(u: Constraint, a: Row, b: Row)
    ensures Clash(u, a, b) <==>
            && (forall i: nat :: InKey(i) in u ==>
                  i < |a.key.parts| && i < |b.key.parts| && a.key.parts[i] == b.key.parts[i] && a.key.parts[i] != Null)
            && (forall i: nat :: InPayload(i) in u ==>
                  i < |a.payload| && i < |b.payload| && a.payload[i] == b.payload[i] && a.payload[i] != Null)
  {
    if Clash(u, a, b) {
      forall c | c in u ensures Cell(a, c) == Cell(b, c) && Cell(a, c) != Null {
        var n :| 0 <= n < |u| && u[n] == c;
        assert Cells(a, u)[n] == Cells(b, u)[n] && Cells(a, u)[n] in Cells(a, u);
      }
    } else {
      if Cells(a, u) == Cells(b, u) {
        var n :| 0 <= n < |u| && Cells(a, u)[n] == Null;
        assert u[n] in u && Cell(a, u[n]) == Null;
      } else {
        var n :| 0 <= n < |u| && Cells(a, u)[n] != Cells(b, u)[n];
        assert u[n] in u && Cell(a, u[n]) != Cell(b, u[n]);
      }
    }
  }

  predicate HasPayloadColumn(u: Constraint) {
    exists c :: c in u && c.InPayload?
  }

  predicate UniqueTable(u: Constraint, t: Table) {
    forall j, k :: j in t && k in t && j != k ==> !Clash(u, t[j], t[k])
  }

  predicate UniqueUnder(us: seq<Constraint>, t: Table) {
    forall u :: u in us ==> UniqueTable(u, t)
  }

  /** The delta rows a reader sees hold distinct values. */
  ghost predicate UniqueVisible(u: Constraint, delta: Delta) {
    forall j, k :: Visible(delta, j) && Visible(delta, k) && j != k ==> !Clash(u, delta[j].row, delta[k].row)
  }

  /** The mirrored index of the delta covers every delta row, tombstones included. */
  ghost predicate UniqueDelta(u: Constraint, delta: Delta) {
    forall j, k :: j in delta && k in delta && j != k ==> !Clash(u, delta[j].row, delta[k].row)
  }

  ghost predicate UniqueAll(us: seq<Constraint>, delta: Delta) {
    forall u :: u in us ==> UniqueDelta(u, delta)
  }

  ghost predicate Within(small: Delta, big: Delta) {
    forall k :: k in small ==> k in big && small[k] == big[k]
  }

  lemma UniqueWithin(us: seq<Constraint>, small: Delta, big: Delta)
    requires Within(small, big) && UniqueAll(us, big)
    ensures UniqueAll(us, small)
  {
    forall u | u in us ensures UniqueDelta(u, small) { OneUniqueWithin(u, small, big); }
  }

  lemma OneUniqueWithin(u: Constraint, small: Delta, big: Delta)
    requires Within(small, big) && UniqueDelta(u, big)
    ensures UniqueDelta(u, small)
  {
  }

  /** No index of us holds the values of row. */
  ghost predicate Free(us: seq<Constraint>, delta: Delta, row: Row) {
    forall u, k :: u in us && k in delta ==> !Clash(u, delta[k].row, row)
  }

  lemma UniqueOneMore(us: seq<Constraint>, delta: Delta, c: Change)
    requires c.row.key !in delta && UniqueAll(us, delta)
    ensures UniqueAll(us, delta[c.row.key := c]) <==> Free(us, delta, c.row)
  {
    var more := delta[c.row.key := c];
    if Free(us, delta, c.row) {
      forall u | u in us ensures UniqueDelta(u, more) {
        assert forall k :: k in delta ==> !Clash(u, delta[k].row, c.row);
      }
    }
    if UniqueAll(us, more) {
      forall u, k | u in us && k in delta ensures !Clash(u, delta[k].row, c.row) {
        assert UniqueDelta(u, more) && more[k] == delta[k] && more[c.row.key] == c;
      }
    }
  }

  // ----- the indexes of a table -----

  /** Some index of us holds the values of row. */
  predicate Taken(us: seq<Constraint>, t: Table, row: Row) {
    exists u, k :: u in us && k in t && Clash(u, t[k], row)
  }

  lemma UniqueTableOneMore(us: seq<Constraint>, t: Table, row: Row)
    requires row.key !in t && UniqueUnder(us, t)
    ensures UniqueUnder(us, t[row.key := row]) <==> !Taken(us, t, row)
  {
    var more := t[row.key := row];
    if Taken(us, t, row) {
      var u, k :| u in us && k in t && Clash(u, t[k], row);
      assert more[k] == t[k] && more[row.key] == row && k != row.key;
      assert !UniqueTable(u, more);
    } else {
      forall u | u in us ensures UniqueTable(u, more) {
        assert forall k :: k in t ==> !Clash(u, t[k], row);
      }
    }
  }

  ghost predicate PartOf(small: Table, big: Table) {
    forall k :: k in small ==> k in big && small[k] == big[k]
  }

  lemma UniquePart(us: seq<Constraint>, small: Table, big: Table)
    requires PartOf(small, big) && UniqueUnder(us, big)
    ensures UniqueUnder(us, small)
  {
    forall u | u in us ensures UniqueTable(u, small) { OneUniquePart(u, small, big); }
  }

  lemma OneUniquePart(u: Constraint, small: Table, big: Table)
    requires PartOf(small, big) && UniqueTable(u, big)
    ensures UniqueTable(u, small)
  {
  }
}
