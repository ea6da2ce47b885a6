/** When a statement tracks the rows it touches: a plan that only scans, filters and projects
    hands no row to the sink twice, and an UPDATE that assigns no key column moves no key. */
module UpdatePlans {
  import opened Values
  import opened KeyedDelta
  import opened KeyedSinks
  import KeyedScan
  import BagDelta
  import BagDml

  datatype Kind = TableScan | Filter | Projection | OtherKind

  /** A physical plan below a sink. */
  datatype Plan = Node(kind: Kind, children: seq<Plan>)

  /** Joins, and anything unexpected, may repeat rows. */
  predicate CanRepeatRows(plan: Plan) {
    plan.kind == OtherKind || exists i :: 0 <= i < |plan.children| && CanRepeatRows(plan.children[i])
  }

  /** Every operator of the plan scans, filters or projects. */
  predicate OnlyRowByRow(plan: Plan) {
    && plan.kind in {TableScan, Filter, Projection}
    && forall i :: 0 <= i < |plan.children| ==> OnlyRowByRow(plan.children[i])
  }

  /** Tracking is chosen for no more plans than it must be: exactly those that hold a join, or
      anything else that is not row by row. */
  lemma {:induction false} RepeatsIffNotRowByRow(plan: Plan)
    ensures CanRepeatRows(plan) <==> !OnlyRowByRow(plan)
    decreases plan
  {
    forall i | 0 <= i < |plan.children| ensures CanRepeatRows(plan.children[i]) <==> !OnlyRowByRow(plan.children[i]) {
      RepeatsIffNotRowByRow(plan.children[i]);
    }
  }

  predicate Subsequence<R(==)>(a: seq<R>, b: seq<R>) {
    if a == [] then true
    else if b == [] then false
    else
      var m, n := |a| - 1, |b| - 1;
      (a[m] == b[n] && Subsequence(a[..m], b[..n])) || Subsequence(a, b[..n])
  }

  /** out is what the plan may emit over a scan, rows by identity: a filter drops rows, a
      projection keeps them all, anything else is unknown. */
  ghost predicate Emits<R(!new)>(plan: Plan, scan: seq<R>, out: seq<R>) {
    match plan.kind
    case TableScan => Subsequence(out, scan)
    case Filter => |plan.children| == 1 && exists mid :: Emits(plan.children[0], scan, mid) && Subsequence(out, mid)
    case Projection => |plan.children| == 1 && Emits(plan.children[0], scan, out)
    case OtherKind => true
  }

  ghost predicate Once<R>(s: seq<R>) {
    forall i, j :: 0 <= i < j < |s| ==> s[i] != s[j]
  }

  lemma {:induction false} SubsequenceMembers<R>(a: seq<R>, b: seq<R>)
    requires Subsequence(a, b)
    ensures forall x :: x in a ==> x in b
  {
    if a != [] {
      var m, n := |a| - 1, |b| - 1;
      assert a == a[..m] + [a[m]] && b == b[..n] + [b[n]];
      if a[m] == b[n] && Subsequence(a[..m], b[..n]) {
        SubsequenceMembers(a[..m], b[..n]);
      } else {
        SubsequenceMembers(a, b[..n]);
      }
    }
  }

  lemma {:induction false} SubsequenceOnce<R>(a: seq<R>, b: seq<R>)
    requires Subsequence(a, b) && Once(b)
    ensures Once(a)
  {
    if a != [] {
      var m, n := |a| - 1, |b| - 1;
      assert Once(b[..n]);
      if a[m] == b[n] && Subsequence(a[..m], b[..n]) {
        SubsequenceOnce(a[..m], b[..n]);
        SubsequenceMembers(a[..m], b[..n]);
        forall i | 0 <= i < m ensures a[i] != a[m] { assert a[..m][i] in b[..n]; }
      } else {
        SubsequenceOnce(a, b[..n]);
      }
    }
  }

  /** A plan that cannot repeat rows emits each row of the scan at most once. */
  lemma {:induction false} NoRepeats<R(!new)>(plan: Plan, scan: seq<R>, out: seq<R>)
    requires !CanRepeatRows(plan) && Emits(plan, scan, out) && Once(scan)
    ensures Once(out) && forall x :: x in out ==> x in scan
    decreases plan
  {
    match plan.kind
    case TableScan =>
      SubsequenceOnce(out, scan);
      SubsequenceMembers(out, scan);
    case Filter =>
      var mid :| Emits(plan.children[0], scan, mid) && Subsequence(out, mid);
      NoRepeats(plan.children[0], scan, mid);
      SubsequenceOnce(out, mid);
      SubsequenceMembers(out, mid);
    case Projection => NoRepeats(plan.children[0], scan, out);
  }

  /** The choice made for an UPDATE; a DELETE tracks when its plan can repeat rows. */
  method PlanUpdate(plan: Plan, columns: seq<nat>, keyColumns: seq<nat>) returns (track: bool)
    ensures track <==> CanRepeatRows(plan) || exists c :: c in columns && c in keyColumns
  {
    track := CanRepeatRows(plan);
    for i := 0 to |columns|
      invariant track <==> CanRepeatRows(plan) || exists c :: c in columns[..i] && c in keyColumns
    {
      assert columns[..i + 1] == columns[..i] + [columns[i]];
      for k := 0 to |keyColumns|
        invariant track <==>
                    CanRepeatRows(plan) || (exists c :: c in columns[..i] && c in keyColumns)
                    || columns[i] in keyColumns[..k]
      {
        assert keyColumns[..k + 1] == keyColumns[..k] + [keyColumns[k]];
        if keyColumns[k] == columns[i] { track := true; }
      }
      assert keyColumns[..|keyColumns|] == keyColumns;
    }
    assert columns[..|columns|] == columns;
  }

  /** The image keeps the columns that the UPDATE does not assign; key part i is in column
      keyColumns[i]. */
  predicate KeepsOthers(columns: seq<nat>, keyColumns: seq<nat>, a: Assign) {
    && |a.at.parts| == |keyColumns| == |a.image.key.parts|
    && forall i :: 0 <= i < |keyColumns| && keyColumns[i] !in columns ==> a.image.key.parts[i] == a.at.parts[i]
  }

  /** So an UPDATE that does not track needs no tracking: no row repeats and no key moves. */
  lemma UntrackedUpdateIsInPlace(plan: Plan, columns: seq<nat>, keyColumns: seq<nat>, scan: seq<Key>,
                                 rows: seq<UpdateInput>)
    requires !CanRepeatRows(plan) && !exists c :: c in columns && c in keyColumns
    requires Once(scan) && Emits(plan, scan, ReadKeys(rows))
    requires forall i :: 0 <= i < |rows| ==> KeepsOthers(columns, keyColumns, rows[i].assign)
    ensures InPlace(rows, 0, {})
  {
    NoRepeats(plan, scan, ReadKeys(rows));
    forall i | 0 <= i < |rows| ensures !rows[i].assign.Moves() {
      var a := rows[i].assign;
      assert KeepsOthers(columns, keyColumns, a);
      assert forall k :: 0 <= k < |keyColumns| ==> keyColumns[k] in keyColumns;
      assert a.image.key.parts == a.at.parts;
    }
    forall i, j | 0 <= i < j < |rows| ensures rows[i].assign.at != rows[j].assign.at {
      assert ReadKeys(rows)[i] != ReadKeys(rows)[j];
    }
  }

  lemma UntrackedDeleteIsDistinct(plan: Plan, scan: seq<Key>, rows: seq<DeleteInput>)
    requires !CanRepeatRows(plan) && Once(scan) && Emits(plan, scan, Keys(rows))
    ensures DistinctFrom(rows, {})
  {
    NoRepeats(plan, scan, Keys(rows));
    forall i, j | 0 <= i < j < |rows| ensures rows[i].key != rows[j].key { assert Keys(rows)[i] != Keys(rows)[j]; }
  }

  /** The scan of a table lists each key once when it lists the view: as long as no inserted key
      has appeared in the base. */
  lemma ScanListsKeysOnce(t: Table, rows: seq<Row>)
    requires KeyedScan.ListsTable(t, rows)
    ensures forall i, j :: 0 <= i < j < |rows| ==> rows[i].key != rows[j].key
  {
    forall i, j | 0 <= i < j < |rows| ensures rows[i].key != rows[j].key {
      assert rows[i] in multiset(rows) && rows[j] in multiset(rows);
      if rows[i] == rows[j] { TwiceCounts(rows, i, j); }
    }
  }

  lemma TwiceCounts<R>(s: seq<R>, i: nat, j: nat)
    requires i < j < |s| && s[i] == s[j]
    ensures multiset(s)[s[i]] >= 2
  {
    assert s == s[..j] + s[j..];
    assert s[i] in multiset(s[..j]) && s[j] in multiset(s[j..]) by { assert s[..j][i] == s[i] && s[j..][0] == s[j]; }
  }

  function Rownos<T>(rows: seq<BagDml.BagInput<T>>): seq<int>
    requires BagDml.Numbered(rows)
  {
    seq(|rows|, i requires 0 <= i < |rows| => rows[i].rowno.value)
  }

  /** On a keyless table the scan numbers its rows, so the numbers do not repeat either. */
  lemma {:induction false} UntrackedBagIsDistinct<T>(rows: seq<BagDml.BagInput<T>>)
    requires BagDml.Numbered(rows) && Once(Rownos(rows))
    ensures BagDml.Distinct(rows) && forall n :: n in BagDml.Rownos(rows) <==> exists i ::
              0 <= i < |rows|
              && rows[i].rowno.value == n
  {
    if rows != [] {
      var m := |rows| - 1;
      assert Rownos(rows[..m]) == Rownos(rows)[..m];
      UntrackedBagIsDistinct(rows[..m]);
      forall i | 0 <= i < m ensures rows[i].rowno.value != rows[m].rowno.value {
        assert Rownos(rows)[i] != Rownos(rows)[m];
      }
    }
  }

  lemma UntrackedBagStatement<T(!new)>(plan: Plan, scan: seq<int>, rows: seq<BagDml.BagInput<T>>)
    requires !CanRepeatRows(plan) && BagDml.Numbered(rows) && Once(scan) && Emits(plan, scan, Rownos(rows))
    ensures BagDml.Distinct(rows)
  {
    NoRepeats(plan, scan, Rownos(rows));
    UntrackedBagIsDistinct(rows);
  }
}
