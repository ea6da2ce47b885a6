/** The tag a merge leaves on its lake commit: the scenario's identity, a fingerprint of the
    delta and the reported counts, as one line of text that a later merge reads back. */
module MergeTag {
  import opened Decimal
  import opened Values
  import opened Sequences

  datatype Identity = Identity(id: nat, created: int)
  datatype Counts = Counts(tablesChanged: nat, rowsApplied: nat, conflicts: nat)

  function Signed(n: int): string {
    if n < 0 then "-" + ToString(-n) else ToString(n)
  }

  const STEM := "anofox_scenario.merge/v1 scenario="

  function Prefix(who: Identity): string {
    STEM + (ToString(who.id) + (" created=" + Signed(who.created)))
  }

  function Field(key: string, value: string): string {
    key + "=" + value
  }

  function Fields(fingerprint: string, c: Counts): seq<string> {
    [Field("delta", fingerprint), Field("tables_changed", ToString(c.tablesChanged)),
     Field("rows_applied", ToString(c.rowsApplied)), Field("conflicts_resolved", ToString(c.conflicts))]
  }

  function Join(fields: seq<string>): string {
    if fields == [] then "" else " " + (fields[0] + Join(fields[1..]))
  }

  function Tag(who: Identity, fingerprint: string, c: Counts): string {
    Prefix(who) + Join(Fields(fingerprint, c))
  }

  lemma ToStringIsInjective(n: nat, m: nat)
    requires ToString(n) == ToString(m)
    ensures n == m
  {
    ParseUndoesToString(n);
    ParseUndoesToString(m);
  }

  lemma SignedIsInjective(n: int, m: int)
    requires Signed(n) == Signed(m)
    ensures n == m
  {
    SignShows(n);
    SignShows(m);
    if n < 0 {
      assert Signed(n)[1..] == ToString(-n) && Signed(m)[1..] == ToString(-m);
      ToStringIsInjective(-n, -m);
    } else {
      ToStringIsInjective(n, m);
    }
  }

  lemma SignShows(n: int)
    ensures Signed(n) != "" && (Signed(n)[0] == '-' <==> n < 0)
  {
  }

  lemma NoSpaces(n: int)
    ensures ' ' !in Signed(n)
  {
  }

  /** The text searched for: the identity and the space that ends it. */
  function Search(who: Identity): string {
    Prefix(who) + " "
  }

  /** A tag is found by its own identity and by no other, whatever the numbers' digits share. */
  lemma SearchFindsOneIdentity(who: Identity, other: Identity, fingerprint: string, c: Counts)
    ensures StartsWith(Tag(other, fingerprint, c), Search(who)) <==> who == other
  {
    var fields := Fields(fingerprint, c);
    var rest := fields[0] + Join(fields[1..]);
    assert Join(fields) == " " + rest;
    assert Tag(other, fingerprint, c) == Search(other) + rest;
    if who == other {
      assert (Search(who) + rest)[..|Search(who)|] == Search(who);
    }
    if StartsWith(Tag(other, fingerprint, c), Search(who)) {
      var tail := Tag(other, fingerprint, c)[|Search(who)|..];
      assert Search(who) + tail == Search(other) + rest;
      SearchIsInjective(who, tail, other, rest);
    }
  }

  lemma SearchIsInjective(a: Identity, x: string, b: Identity, y: string)
    requires Search(a) + x == Search(b) + y
    ensures a == b && x == y
  {
    SearchShape(a, x);
    SearchShape(b, y);
    var afterA, afterB := "created=" + Signed(a.created) + " " + x, "created=" + Signed(b.created) + " " + y;
    Cut(STEM, ToString(a.id) + [' '] + afterA, ToString(b.id) + [' '] + afterB);
    NoSpaces(a.id);
    NoSpaces(b.id);
    FirstSeparator(ToString(a.id), afterA, ToString(b.id), afterB, ' ');
    ToStringIsInjective(a.id, b.id);
    Cut("created=", Signed(a.created) + [' '] + x, Signed(b.created) + [' '] + y);
    NoSpaces(a.created);
    NoSpaces(b.created);
    FirstSeparator(Signed(a.created), x, Signed(b.created), y, ' ');
    SignedIsInjective(a.created, b.created);
  }

  lemma SearchShape(who: Identity, x: string)
    ensures Search(who) + x == STEM + (ToString(who.id) + [' '] + ("created=" + Signed(who.created) + " " + x))
    ensures "created=" + Signed(who.created) + " " + x == "created=" + (Signed(who.created) + [' '] + x)
  {
    assert " created=" == [' '] + "created=";
  }

  lemma Cut(prefix: string, x: string, y: string)
    requires prefix + x == prefix + y
    ensures x == y
  {
    assert (prefix + x)[|prefix|..] == x && (prefix + y)[|prefix|..] == y;
  }

  // ----- reading the fields back -----

  /** Splits at every space. */
  function Split(s: string): seq<string> {
    if ' ' !in s then [s]
    else
      var i := Find(s, ' ');
      [s[..i]] + Split(s[i + 1..])
  }

  function Find(s: string, c: char): (i: nat)
    requires c in s
    ensures i < |s| && s[i] == c && c !in s[..i]
  {
    if s[0] == c then 0 else
      assert s == [s[0]] + s[1..];
      var i := Find(s[1..], c);
      assert s[..i + 1] == [s[0]] + s[1..][..i];
      i + 1
  }

  /** The part before and after the first '='. */
  method ReadFields(fields: seq<string>) returns (kv: map<string, string>)
    ensures kv == Pairs(fields)
  {
    kv := map[];
    for i := 0 to |fields|
      invariant kv == Pairs(fields[..i])
    {
      assert fields[..i + 1][..i] == fields[..i];
      var field := fields[i];
      if '=' in field {
        var eq := Find(field, '=');
        kv := kv[field[..eq] := field[eq + 1..]];
      }
    }
    assert fields[..|fields|] == fields;
  }

  function Pairs(fields: seq<string>): map<string, string> {
    if fields == [] then map[]
    else
      var before, field := Pairs(fields[..|fields| - 1]), fields[|fields| - 1];
      if '=' in field then before[field[..Find(field, '=')] := field[Find(field, '=') + 1..]] else before
  }

  lemma FindAfter(key: string, value: string)
    requires '=' !in key
    ensures '=' in key + "=" + value && Find(key + "=" + value, '=') == |key|
    ensures (key + "=" + value)[..|key|] == key && (key + "=" + value)[|key| + 1..] == value
  {
    var s := key + "=" + value;
    assert s[|key|] == '=' && s[..|key|] == key && s[|key| + 1..] == value;
    FindIs(s, '=', |key|);
  }

  lemma {:induction false} FindIs(s: string, c: char, i: nat)
    requires i < |s| && s[i] == c && c !in s[..i]
    ensures Find(s, c) == i
  {
    if i > 0 {
      assert s[0] == s[..i][0] && s[1..][..i - 1] == s[..i][1..];
      FindIs(s[1..], c, i - 1);
    }
  }

  lemma SplitOne(field: string, rest: string)
    requires ' ' !in field
    ensures Split(field + (" " + rest)) == [field] + Split(rest)
  {
    var s := field + (" " + rest);
    assert s[|field|] == ' ' && s[..|field|] == field && s[|field| + 1..] == rest;
    FindIs(s, ' ', |field|);
  }

  function LeadingDigits(s: string): (d: string)
    ensures IsNumeral(d)
  {
    if s == "" || !('0' <= s[0] <= '9') then "" else [s[0]] + LeadingDigits(s[1..])
  }

  /** std::stoull: the leading digits; it throws when there are none. */
  function Stoull(s: string): Option<nat> {
    if LeadingDigits(s) == "" then None else Some(Parse(LeadingDigits(s)))
  }

  lemma {:induction false} AllDigits(s: string)
    requires IsNumeral(s)
    ensures LeadingDigits(s) == s
  {
    if s != "" { AllDigits(s[1..]); }
  }

  lemma StoullUndoesToString(n: nat)
    ensures Stoull(ToString(n)) == Some(n)
  {
    AllDigits(ToString(n));
    ParseUndoesToString(n);
  }

  function Get(kv: map<string, string>, key: string): string {
    if key in kv then kv[key] else ""
  }

  /** What a later merge reads from a tag: the fingerprint, and the counts unless a number is
      missing. */
  datatype Reading = Reading(fingerprint: string, counts: Option<Counts>)

  function ReadingOf(kv: map<string, string>): Reading {
    var t, r, c := Stoull(Get(kv, "tables_changed")), Stoull(Get(kv, "rows_applied")),
        Stoull(Get(kv, "conflicts_resolved"));
    Reading(Get(kv, "delta"), if t.Some? && r.Some? && c.Some? then Some(Counts(t.value, r.value, c.value)) else None)
  }

  function ReadTag(info: string, who: Identity): Reading
    requires StartsWith(info, Search(who))
  {
    ReadingOf(Pairs(Split(info[|Search(who)|..])))
  }

  method ParseTag(info: string, who: Identity) returns (r: Reading)
    requires StartsWith(info, Search(who))
    ensures r == ReadTag(info, who)
  {
    var kv := ReadFields(Split(info[|Prefix(who)| + 1..]));
    r := ReadingOf(kv);
  }

  lemma PairsStep(fields: seq<string>, key: string, value: string)
    requires '=' !in key
    ensures Pairs(fields + [Field(key, value)]) == Pairs(fields)[key := value]
  {
    FindAfter(key, value);
    assert (fields + [Field(key, value)])[..|fields|] == fields;
  }

  lemma FourPairs(f: seq<string>, k: seq<string>, v: seq<string>)
    requires |f| == |k| == |v| == 4
    requires forall i :: 0 <= i < 4 ==> f[i] == Field(k[i], v[i]) && '=' !in k[i]
    ensures Pairs(f) == map[][k[0] := v[0]][k[1] := v[1]][k[2] := v[2]][k[3] := v[3]]
  {
    assert f[..0] == [] && f[..1] == f[..0] + [f[0]] && f[..2] == f[..1] + [f[1]];
    assert f[..3] == f[..2] + [f[2]] && f == f[..3] + [f[3]];
    PairsStep(f[..0], k[0], v[0]);
    PairsStep(f[..1], k[1], v[1]);
    PairsStep(f[..2], k[2], v[2]);
    PairsStep(f[..3], k[3], v[3]);
  }

  predicate Words(fields: seq<string>) {
    forall i :: 0 <= i < |fields| ==> ' ' !in fields[i]
  }

  lemma {:induction false} SplitUndoesJoin(fields: seq<string>)
    requires fields != [] && Words(fields)
    ensures Split(fields[0] + Join(fields[1..])) == fields
  {
    var rest := fields[1..];
    assert fields == [fields[0]] + rest;
    if rest == [] {
      assert fields[0] + Join(rest) == fields[0];
    } else {
      SplitUndoesJoin(rest);
      SplitOne(fields[0], rest[0] + Join(rest[1..]));
    }
  }

  lemma FieldsMap(fingerprint: string, c: Counts)
    ensures Pairs(Fields(fingerprint, c)) ==
            map[]["delta" := fingerprint]["tables_changed" := ToString(c.tablesChanged)]
               ["rows_applied" := ToString(c.rowsApplied)]["conflicts_resolved" := ToString(c.conflicts)]
  {
    var k := ["delta", "tables_changed", "rows_applied", "conflicts_resolved"];
    var v := [fingerprint, ToString(c.tablesChanged), ToString(c.rowsApplied), ToString(c.conflicts)];
    FourPairs(Fields(fingerprint, c), k, v);
  }

  lemma FieldsRead(fingerprint: string, c: Counts)
    ensures ReadingOf(Pairs(Fields(fingerprint, c))) == Reading(fingerprint, Some(c))
  {
    FieldsMap(fingerprint, c);
    StoullUndoesToString(c.tablesChanged);
    StoullUndoesToString(c.rowsApplied);
    StoullUndoesToString(c.conflicts);
    assert "delta" != "tables_changed" && "delta" != "rows_applied" && "delta" != "conflicts_resolved";
    assert "tables_changed" != "rows_applied" && "tables_changed" != "conflicts_resolved"
           && "rows_applied" != "conflicts_resolved";
  }

  lemma FieldIsWord(key: string, value: string)
    requires ' ' !in key && ' ' !in value
    ensures ' ' !in Field(key, value)
  {
  }

  lemma FieldsAreWords(fingerprint: string, c: Counts)
    requires ' ' !in fingerprint
    ensures Words(Fields(fingerprint, c))
  {
    FieldIsWord("delta", fingerprint);
    FieldIsWord("tables_changed", ToString(c.tablesChanged));
    FieldIsWord("rows_applied", ToString(c.rowsApplied));
    FieldIsWord("conflicts_resolved", ToString(c.conflicts));
  }

  /** Reading undoes writing: the fingerprint and the counts come back as they were. */
  lemma ReadUndoesTag(who: Identity, fingerprint: string, c: Counts)
    requires ' ' !in fingerprint
    ensures StartsWith(Tag(who, fingerprint, c), Search(who))
    ensures ReadTag(Tag(who, fingerprint, c), who) == Reading(fingerprint, Some(c))
  {
    SearchFindsOneIdentity(who, who, fingerprint, c);
    AfterSearch(who, fingerprint, c);
    FieldsAreWords(fingerprint, c);
    SplitUndoesJoin(Fields(fingerprint, c));
    FieldsRead(fingerprint, c);
  }

  lemma AfterSearch(who: Identity, fingerprint: string, c: Counts)
    ensures |Search(who)| <= |Tag(who, fingerprint, c)|
    ensures Tag(who, fingerprint, c)[|Search(who)|..] == Fields(fingerprint, c)[0] + Join(Fields(fingerprint, c)[1..])
  {
    var f := Fields(fingerprint, c);
    assert Tag(who, fingerprint, c) == Search(who) + (f[0] + Join(f[1..]));
  }

  /** The format of a tag. */
  lemma TagFormat(who: Identity, fingerprint: string, c: Counts)
    ensures Tag(who, fingerprint, c) ==
            ("anofox_scenario.merge/v1 scenario=" + (ToString(who.id) + (" created=" + Signed(who.created))))
            + (" " + ("delta" + "=" + fingerprint)
               + (" " + ("tables_changed" + "=" + ToString(c.tablesChanged))
                  + (" " + ("rows_applied" + "=" + ToString(c.rowsApplied))
                     + (" " + ("conflicts_resolved" + "=" + ToString(c.conflicts))))))
  {
    JoinFour(Field("delta", fingerprint), Field("tables_changed", ToString(c.tablesChanged)),
             Field("rows_applied", ToString(c.rowsApplied)), Field("conflicts_resolved", ToString(c.conflicts)));
  }

  lemma JoinFour(a: string, b: string, c: string, d: string)
    ensures Join([a, b, c, d]) == " " + a + (" " + b + (" " + c + (" " + d)))
  {
    assert [a, b, c, d][1..] == [b, c, d] && [b, c, d][1..] == [c, d] && [c, d][1..] == [d] && [d][1..] == [];
    assert Join([d]) == " " + d;
    assert Join([c, d]) == " " + c + (" " + d);
    assert Join([b, c, d]) == " " + b + (" " + c + (" " + d));
  }

  // ----- tags of other writers -----

  /** Field number i sets the key to the value, and no later field sets the key. */
  ghost predicate SetsLast(fields: seq<string>, i: nat, key: string, value: string)
    requires i < |fields|
  {
    && fields[i] == key + "=" + value
    && forall j, other :: i < j < |fields| ==> fields[j] != key + "=" + other
  }

  /** Of several fields with one key the last one counts; a field without '=' counts for none. */
  lemma {:induction false} LastFieldCounts(fields: seq<string>, i: nat, key: string, value: string)
    requires i < |fields| && '=' !in key && SetsLast(fields, i, key, value)
    ensures key in Pairs(fields) && Pairs(fields)[key] == value
  {
    var n := |fields| - 1;
    FindAfter(key, value);
    if i < n {
      assert SetsLast(fields[..n], i, key, value);
      LastFieldCounts(fields[..n], i, key, value);
      if '=' in fields[n] { assert fields[n] == KeyPart(fields[n]) + "=" + fields[n][Find(fields[n], '=') + 1..]; }
    }
  }

  function KeyPart(field: string): string
    requires '=' in field
  {
    field[..Find(field, '=')]
  }

  /** Only fields set keys. */
  lemma {:induction false} OnlyFieldsCount(fields: seq<string>, key: string) returns (i: nat)
    requires key in Pairs(fields)
    ensures i < |fields| && fields[i] == key + "=" + Pairs(fields)[key]
  {
    var n := |fields| - 1;
    if '=' in fields[n] && KeyPart(fields[n]) == key {
      i := n;
      assert fields[n] == KeyPart(fields[n]) + "=" + fields[n][Find(fields[n], '=') + 1..];
    } else {
      i := OnlyFieldsCount(fields[..n], key);
    }
  }

  /** A number is read from the digits a text begins with. */
  lemma {:induction false} StoullMeans(digits: string, rest: string)
    requires IsNumeral(digits) && (rest == "" || !('0' <= rest[0] <= '9'))
    ensures Stoull(digits + rest) == if digits == "" then None else Some(Parse(digits))
  {
    LeadingDigitsAre(digits, rest);
  }

  lemma {:induction false} LeadingDigitsAre(digits: string, rest: string)
    requires IsNumeral(digits) && (rest == "" || !('0' <= rest[0] <= '9'))
    ensures LeadingDigits(digits + rest) == digits
  {
    if digits == "" {
      assert digits + rest == rest;
    } else {
      assert (digits + rest)[1..] == digits[1..] + rest;
      LeadingDigitsAre(digits[1..], rest);
    }
  }

  /** The counts of a tag are unknown exactly when one of the three numbers is missing or does not
      begin with a digit; a missing fingerprint reads as "". */
  lemma IncompleteTag(kv: map<string, string>)
    ensures ReadingOf(kv).counts.None? <==>
            exists key :: key in ["tables_changed", "rows_applied", "conflicts_resolved"]
              && (key in kv ==> kv[key] == "" || !('0' <= kv[key][0] <= '9'))
    ensures ReadingOf(kv).fingerprint == if "delta" in kv then kv["delta"] else ""
  {
    var keys := ["tables_changed", "rows_applied", "conflicts_resolved"];
    assert keys[0] in keys && keys[1] in keys && keys[2] in keys;
    forall key | key in keys
      ensures Stoull(Get(kv, key)).None? <==> key in kv ==> kv[key] == "" || !('0' <= kv[key][0] <= '9')
    {
    }
  }
}
