/** Decimal numerals, as std::to_string and std::stoull write and read them. */
module Decimal {

  function DigitChar(d: nat): (c: char)
    requires d < 10
    ensures '0' <= c <= '9'
  {
    '0' + d as char
  }

  function ToString(n: nat): (s: string)
    ensures s != "" && forall i :: 0 <= i < |s| ==> '0' <= s[i] <= '9'
  {
    if n < 10 then [DigitChar(n)] else ToString(n / 10) + [DigitChar(n % 10)]
  }

  predicate IsNumeral(s: string) {
    forall i :: 0 <= i < |s| ==> '0' <= s[i] <= '9'
  }

  function Parse(s: string): nat
    requires IsNumeral(s)
  {
    if s == "" then 0 else Parse(s[..|s| - 1]) * 10 + (s[|s| - 1] - '0') as nat
  }

  lemma {:induction false} ParseUndoesToString(n: nat)
    ensures Parse(ToString(n)) == n
  {
    var s := ToString(n);
    if n >= 10 {
      ParseUndoesToString(n / 10);
      assert s[..|s| - 1] == ToString(n / 10);
    } else {
      assert s[..0] == "";
    }
  }

  /** Splitting at the first separator is unambiguous when the left part holds none. */
  lemma FirstSeparator(a: string, x: string, b: string, y: string, sep: char)
    requires a + [sep] + x == b + [sep] + y && sep !in a && sep !in b
    ensures a == b && x == y
  {
    var left, right := a + [sep] + x, b + [sep] + y;
    assert left[|a|] == sep && right[|b|] == sep;
    assert forall i :: 0 <= i < |a| ==> left[i] == a[i] != sep;
    assert forall i :: 0 <= i < |b| ==> right[i] == b[i] != sep;
    assert left[..|a|] == a && right[..|b|] == b;
    assert left[|a| + 1..] == x && right[|b| + 1..] == y;
  }

  /** A numeral followed by a separator determines the number and what follows. */
  lemma NumeralThenSeparator(n: nat, x: string, m: nat, y: string, sep: char)
    requires ToString(n) + [sep] + x == ToString(m) + [sep] + y && !('0' <= sep <= '9')
    ensures n == m && x == y
  {
    FirstSeparator(ToString(n), x, ToString(m), y, sep);
    ParseUndoesToString(n);
    ParseUndoesToString(m);
  }
}

/** Key strings and internal table names. */
module KeyCodec {
  import opened Decimal
  import opened Values
  import opened Sequences

  function EncodeValue(v: Value): string {
    match v
    case Null => "N|"
    case Text(s) => ToString(|s|) + ":" + s
  }

  function Key(values: seq<Value>): string {
    if values == [] then "" else EncodeValue(values[0]) + Key(values[1..])
  }

  lemma {:induction false} KeyOfOneMore(values: seq<Value>, v: Value)
    ensures Key(values + [v]) == Key(values) + EncodeValue(v)
  {
    if values == [] {
      assert ([] + [v])[1..] == [];
    } else {
      assert (values + [v])[1..] == values[1..] + [v];
      KeyOfOneMore(values[1..], v);
    }
  }

  function Project(row: seq<Value>, keyPositions: seq<nat>): (values: seq<Value>)
    requires forall i :: 0 <= i < |keyPositions| ==> keyPositions[i] < |row|
    ensures |values| == |keyPositions|
    ensures forall i :: 0 <= i < |keyPositions| ==> values[i] == row[keyPositions[i]]
  {
    seq(|keyPositions|, i requires 0 <= i < |keyPositions| => row[keyPositions[i]])
  }

  lemma Regroup3(key: string, size: string, text: string)
    ensures key + size + ":" + text == key + (size + ":" + text)
  {
  }

  /** The key of one chunk row, built column by column. */
  method MakeKey(row: seq<Value>, keyPositions: seq<nat>) returns (key: string)
    requires forall i :: 0 <= i < |keyPositions| ==> keyPositions[i] < |row|
    ensures key == Key(Project(row, keyPositions))
  {
    ghost var values := Project(row, keyPositions);
    key := "";
    for i := 0 to |keyPositions|
      invariant key == Key(values[..i])
    {
      var value := row[keyPositions[i]];
      KeyOfOneMore(values[..i], value);
      assert values[..i + 1] == values[..i] + [value];
      if value.Null? {
        key := key + "N|";
        continue;
      }
      var text := value.s;
      Regroup3(key, ToString(|text|), text);
      key := key + ToString(|text|);
      key := key + ":";
      key := key + text;
    }
    assert values[..|keyPositions|] == values;
  }

  /** No encoded value is a proper prefix of another one. */
  lemma ValueIsSelfDelimiting(v: Value, x: string, w: Value, y: string)
    requires EncodeValue(v) + x == EncodeValue(w) + y
    ensures v == w && x == y
  {
    FirstChar(v, x);
    FirstChar(w, y);
    if v.Text? && w.Text? {
      Regroup(v.s, x);
      Regroup(w.s, y);
      NumeralThenSeparator(|v.s|, v.s + x, |w.s|, w.s + y, ':');
      SameSplit(v.s, x, w.s, y);
    } else if v.Null? && w.Null? {
      SameSplit("N|", x, "N|", y);
    }
  }

  lemma FirstChar(v: Value, x: string)
    ensures EncodeValue(v) + x != "" && ((EncodeValue(v) + x)[0] == 'N' <==> v.Null?)
  {
    assert (EncodeValue(v) + x)[0] == EncodeValue(v)[0];
  }

  lemma Regroup(s: string, x: string)
    ensures ToString(|s|) + ":" + s + x == ToString(|s|) + [':'] + (s + x)
  {
  }

  lemma SameSplit(a: string, x: string, b: string, y: string)
    requires a + x == b + y && |a| == |b|
    ensures a == b && x == y
  {
    assert (a + x)[..|a|] == a && (b + y)[..|b|] == b;
    assert (a + x)[|a|..] == x && (b + y)[|b|..] == y;
  }

  /** Key strings identify value tuples: equal strings mean equal tuples, of any lengths. */
  lemma {:induction false} KeyIsInjective(a: seq<Value>, b: seq<Value>)
    requires Key(a) == Key(b)
    ensures a == b
  {
    if a != [] && b != [] {
      ValueIsSelfDelimiting(a[0], Key(a[1..]), b[0], Key(b[1..]));
      KeyIsInjective(a[1..], b[1..]);
      assert a == [a[0]] + a[1..] && b == [b[0]] + b[1..];
    }
  }

  // ----- internal tables of the scenarios -----

  datatype Internal = Delta(id: nat, logical: string) | Mat(id: nat, logical: string)

  function Prefix(id: nat, kind: string): string {
    "s" + ToString(id) + "_" + kind + "_"
  }

  function PhysicalName(t: Internal): string {
    match t
    case Delta(id, logical) => Prefix(id, "delta") + logical
    case Mat(id, logical) => Prefix(id, "mat") + logical
  }

  /** "s1_delta_" does not select the tables of scenario 11, nor any materialized copy. */
  lemma PrefixSelectsOneScenario(t: Internal, id: nat)
    ensures StartsWith(PhysicalName(t), Prefix(id, "delta")) <==> t.Delta? && t.id == id
    ensures StartsWith(PhysicalName(t), Prefix(id, "mat")) <==> t.Mat? && t.id == id
    ensures t.Delta? ==> PhysicalName(t)[|Prefix(t.id, "delta")|..] == t.logical
  {
    PrefixOfKind(t, id, "delta");
    PrefixOfKind(t, id, "mat");
  }

  function Kind(t: Internal): string {
    if t.Delta? then "delta" else "mat"
  }

  /** A physical name, read from its second character, is a numeral and the rest. */
  lemma NameShape(name: string, id: nat, kind: string, rest: string)
    requires name == Prefix(id, kind) + rest
    ensures name != "" && name[1..] == ToString(id) + ['_'] + (kind + "_" + rest)
  {
  }

  lemma PrefixOfKind(t: Internal, id: nat, kind: string)
    requires kind == "delta" || kind == "mat"
    ensures StartsWith(PhysicalName(t), Prefix(id, kind)) <==> Kind(t) == kind && t.id == id
  {
    var name, prefix := PhysicalName(t), Prefix(id, kind);
    if StartsWith(name, prefix) {
      var rest := name[|prefix|..];
      NameShape(name, id, kind, rest);
      NameShape(name, t.id, Kind(t), t.logical);
      NumeralThenSeparator(id, kind + "_" + rest, t.id, Kind(t) + "_" + t.logical, '_');
      assert (kind + "_" + rest)[0] == kind[0] && (Kind(t) + "_" + t.logical)[0] == Kind(t)[0];
    }
  }

  /** Physical names never clash, so every delta or copy belongs to one scenario and table. */
  lemma PhysicalNamesAreDistinct(t: Internal, u: Internal)
    requires PhysicalName(t) == PhysicalName(u)
    ensures t == u
  {
    PrefixSelectsOneScenario(t, t.id);
    PrefixSelectsOneScenario(u, t.id);
    var prefix := Prefix(t.id, Kind(t));
    assert PhysicalName(t) == prefix + t.logical && PhysicalName(u) == prefix + u.logical;
    assert (prefix + t.logical)[|prefix|..] == t.logical && (prefix + u.logical)[|prefix|..] == u.logical;
  }

  /** Dropping a scenario collects its own tables and no other scenario's. */
  method TablesToDrop(tables: seq<Internal>, id: nat) returns (drop: seq<string>)
    ensures forall t :: t in tables ==> (PhysicalName(t) in drop <==> t.id == id)
    ensures forall n :: n in drop ==> exists t :: t in tables && PhysicalName(t) == n
  {
    var deltaPrefix, matPrefix := Prefix(id, "delta"), Prefix(id, "mat");
    drop := [];
    for i := 0 to |tables|
      invariant forall j :: 0 <= j < i ==> (tables[j].id == id ==> PhysicalName(tables[j]) in drop)
      invariant forall n :: n in drop ==> exists j :: 0 <= j < i && PhysicalName(tables[j]) == n && tables[j].id == id
    {
      PrefixSelectsOneScenario(tables[i], id);
      var name := PhysicalName(tables[i]);
      if StartsWith(name, deltaPrefix) || StartsWith(name, matPrefix) {
        drop := drop + [name];
      }
    }
    forall t | t in tables && PhysicalName(t) in drop ensures t.id == id {
      var j :| 0 <= j < |tables| && PhysicalName(tables[j]) == PhysicalName(t) && tables[j].id == id;
      PhysicalNamesAreDistinct(t, tables[j]);
    }
  }


  /** The formats, by example. */
  lemma KeyFormat()
    ensures Key([Text("ab"), Null, Text("")]) == "2:abN|0:"
    ensures PhysicalName(Delta(7, "t")) == "s7_delta_t" && PhysicalName(Mat(12, "t")) == "s12_mat_t"
  {
    assert ToString(12) == ToString(1) + ['2'];
    assert [Text("ab"), Null, Text("")][1..] == [Null, Text("")] && [Null, Text("")][1..] == [Text("")];
    assert [Text("")][1..] == [];
  }
}
