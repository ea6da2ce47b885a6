/** Logical table names: a schema and a table name written as one string, in the manner of
    SQL delimited identifiers (section 5.2 of ISO/IEC 9075-2).  The main schema is implied;
    a part is quoted only when it holds the separator or starts with a quote. */
module NameCodec {

  const DEFAULT_SCHEMA := "main"

  import opened Values

  function DoubleQuotes(s: string): string {
    if s == "" then "" else (if s[0] == '"' then "\"\"" else [s[0]]) + DoubleQuotes(s[1..])
  }

  predicate NeedsQuotes(part: string) {
    '.' in part || (part != "" && part[0] == '"')
  }

  function EncodeNamePart(part: string): string {
    if NeedsQuotes(part) then "\"" + DoubleQuotes(part) + "\"" else part
  }

  function EncodeLogicalName(schemaName: string, tableName: string): string {
    if schemaName == DEFAULT_SCHEMA then EncodeNamePart(tableName)
    else EncodeNamePart(schemaName) + "." + EncodeNamePart(tableName)
  }

  /** The quoted part whose text starts at i: its unquoted text and the position after the
      closing quote, or None when the text is not a well-formed quoted part. */
  function ScanQuoted(name: string, i: nat, stopAtDot: bool): (r: Option<(string, nat)>)
    requires i <= |name|
    ensures r.Some? ==> i < r.value.1 <= |name|
    ensures r.Some? && r.value.1 < |name| ==> name[r.value.1] == '.'
    decreases |name| - i
  {
    if i == |name| then None
    else if name[i] != '"' then Prepend([name[i]], ScanQuoted(name, i + 1, stopAtDot))
    else if i + 1 < |name| && name[i + 1] == '"' then Prepend("\"", ScanQuoted(name, i + 2, stopAtDot))
    else if i + 1 == |name| || (stopAtDot && name[i + 1] == '.') then Some(("", i + 1))
    else None
  }

  function Prepend(part: string, rest: Option<(string, nat)>): Option<(string, nat)> {
    if rest.None? then None else Some((part + rest.value.0, rest.value.1))
  }

  function FindDot(name: string, pos: nat): (end: nat)
    requires pos <= |name|
    ensures pos <= end <= |name| && '.' !in name[pos..end]
    ensures end < |name| ==> name[end] == '.'
    decreases |name| - pos
  {
    if pos == |name| || name[pos] == '.' then pos else FindDot(name, pos + 1)
  }

  function DecodedPart(name: string, pos: nat, stopAtDot: bool): (r: (string, nat))
    requires pos <= |name|
    ensures pos <= r.1 <= |name|
    ensures stopAtDot && r.1 < |name| ==> name[r.1] == '.'
  {
    var quoted := if pos < |name| && name[pos] == '"' then ScanQuoted(name, pos + 1, stopAtDot) else None;
    if quoted.Some? then quoted.value
    else
      var end := if stopAtDot then FindDot(name, pos) else |name|;
      (name[pos..end], end)
  }

  /** Reads one name part with a cursor. */
  method DecodeNamePart(name: string, pos: nat, stopAtDot: bool) returns (part: string, next: nat)
    requires pos <= |name|
    ensures (part, next) == DecodedPart(name, pos, stopAtDot)
  {
    if pos < |name| && name[pos] == '"' {
      part := "";
      var i := pos + 1;
      PrependNothing(ScanQuoted(name, i, stopAtDot));
      while i < |name|
        invariant pos + 1 <= i <= |name|
        invariant ScanQuoted(name, pos + 1, stopAtDot) == Prepend(part, ScanQuoted(name, i, stopAtDot))
      {
        ghost var before := part;
        if name[i] == '"' {
          if i + 1 < |name| && name[i + 1] == '"' {
            part := part + "\"";
            i := i + 2;
            PrependTwice(before, "\"", ScanQuoted(name, i, stopAtDot));
            continue;
          }
          if i + 1 == |name| || (stopAtDot && name[i + 1] == '.') {
            assert part + "" == part;
            return part, i + 1;
          }
          break;
        }
        part := part + [name[i]];
        i := i + 1;
        PrependTwice(before, [name[i - 1]], ScanQuoted(name, i, stopAtDot));
      }
    }
    next := if stopAtDot then FindDot(name, pos) else |name|;
    part := name[pos..next];
  }

  lemma PrependNothing(rest: Option<(string, nat)>)
    ensures Prepend("", rest) == rest
  {
    if rest.Some? { assert "" + rest.value.0 == rest.value.0; }
  }

  lemma PrependTwice(a: string, b: string, rest: Option<(string, nat)>)
    ensures Prepend(a, Prepend(b, rest)) == Prepend(a + b, rest)
  {
    if rest.Some? { assert a + (b + rest.value.0) == a + b + rest.value.0; }
  }

  function Split(name: string): (r: (string, string)) {
    var first := DecodedPart(name, 0, true);
    if first.1 >= |name| then (DEFAULT_SCHEMA, first.0)
    else (first.0, DecodedPart(name, first.1 + 1, false).0)
  }

  method SplitLogicalName(name: string) returns (schemaName: string, tableName: string)
    ensures (schemaName, tableName) == Split(name)
  {
    var first, pos := DecodeNamePart(name, 0, true);
    if pos >= |name| {
      return DEFAULT_SCHEMA, first;
    }
    var second, end := DecodeNamePart(name, pos + 1, false);
    return first, second;
  }

  /** Text that was quoted by the encoder is read back up to its closing quote. */
  lemma {:induction false} ScanUndoesDoubling(name: string, i: nat, part: string, rest: string, stopAtDot: bool)
    requires i <= |name| && name[i..] == DoubleQuotes(part) + "\"" + rest
    requires rest == "" || (stopAtDot && rest[0] == '.')
    ensures ScanQuoted(name, i, stopAtDot) == Some((part, |name| - |rest|))
    decreases |part|
  {
    if part == "" {
      assert name[i..] == "\"" + rest;
      assert name[i] == name[i..][0];
      assert rest != "" ==> name[i + 1] == name[i..][1];
    } else {
      var step := if part[0] == '"' then 2 else 1;
      assert name[i] == name[i..][0];
      assert step == 2 ==> name[i + 1] == name[i..][1];
      assert name[i + step..] == name[i..][step..];
      assert name[i..][step..] == DoubleQuotes(part[1..]) + "\"" + rest;
      ScanUndoesDoubling(name, i + step, part[1..], rest, stopAtDot);
      assert [part[0]] + part[1..] == part;
    }
  }

  lemma {:induction false} FindDotSkips(name: string, pos: nat, end: nat)
    requires pos <= end <= |name| && '.' !in name[pos..end]
    requires end < |name| ==> name[end] == '.'
    ensures FindDot(name, pos) == end
    decreases end - pos
  {
    if pos < end {
      assert name[pos] == name[pos..end][0];
      assert name[pos + 1..end] == name[pos..end][1..];
      FindDotSkips(name, pos + 1, end);
    }
  }

  /** From pos on the name reads: a delimited part, and then its end - or, where another part may
      follow, a separator. */
  ghost predicate Delimited(name: string, pos: nat, stopAtDot: bool, part: string, rest: string)
    requires pos <= |name|
  {
    name[pos..] == "\"" + DoubleQuotes(part) + "\"" + rest && (rest == "" || (stopAtDot && rest[0] == '.'))
  }

  /** How any text is read: a well-formed delimited part is unquoted. */
  lemma DelimitedPart(name: string, pos: nat, stopAtDot: bool, part: string, rest: string)
    requires pos <= |name| && Delimited(name, pos, stopAtDot, part, rest)
    ensures DecodedPart(name, pos, stopAtDot) == (part, |name| - |rest|)
  {
    assert name[pos] == name[pos..][0] && name[pos + 1..] == name[pos..][1..] == DoubleQuotes(part) + "\"" + rest;
    ScanUndoesDoubling(name, pos + 1, part, rest, stopAtDot);
  }

  /** One encoded part, followed by nothing or by the separator, decodes to itself. */
  lemma PartRoundTrip(name: string, pos: nat, part: string, rest: string, stopAtDot: bool)
    requires pos <= |name| && name[pos..] == EncodeNamePart(part) + rest
    requires rest == "" || (stopAtDot && rest[0] == '.')
    ensures DecodedPart(name, pos, stopAtDot) == (part, |name| - |rest|)
  {
    if NeedsQuotes(part) {
      DelimitedPart(name, pos, stopAtDot, part, rest);
    } else {
      PlainPartRoundTrip(name, pos, part, rest, stopAtDot);
    }
  }

  lemma PlainPartRoundTrip(name: string, pos: nat, part: string, rest: string, stopAtDot: bool)
    requires pos <= |name| && name[pos..] == part + rest && !NeedsQuotes(part)
    requires rest == "" || (stopAtDot && rest[0] == '.')
    ensures DecodedPart(name, pos, stopAtDot) == (part, |name| - |rest|)
  {
    var end := |name| - |rest|;
    assert name[pos..end] == name[pos..][..|part|] == part;
    assert pos < |name| ==> name[pos] == name[pos..][0];
    assert rest != "" ==> name[end] == name[pos..][|part|];
    if stopAtDot { FindDotSkips(name, pos, end); }
  }

  /** Splitting undoes encoding, for every schema and table name. */
  lemma SplitUndoesEncode(schemaName: string, tableName: string)
    ensures Split(EncodeLogicalName(schemaName, tableName)) == (schemaName, tableName)
  {
    var name := EncodeLogicalName(schemaName, tableName);
    assert name[0..] == name;
    if schemaName == DEFAULT_SCHEMA {
      assert name == EncodeNamePart(tableName) + "";
      PartRoundTrip(name, 0, tableName, "", true);
    } else {
      var rest := "." + EncodeNamePart(tableName);
      assert name == EncodeNamePart(schemaName) + rest;
      PartRoundTrip(name, 0, schemaName, rest, true);
      var pos := |name| - |rest|;
      assert name[pos + 1..] == EncodeNamePart(tableName) + "";
      PartRoundTrip(name, pos + 1, tableName, "", false);
    }
  }

  /** Two different tables never share a logical name. */
  lemma EncodeIsInjective(s1: string, t1: string, s2: string, t2: string)
    requires EncodeLogicalName(s1, t1) == EncodeLogicalName(s2, t2)
    ensures s1 == s2 && t1 == t2
  {
    SplitUndoesEncode(s1, t1);
    SplitUndoesEncode(s2, t2);
  }

  /** Re-encoding a split name, as the diff does with names typed by a user, reaches its
      canonical spelling in one step and keeps the table it names. */
  lemma CanonicalSpelling(name: string)
    ensures var (s, t) := Split(name);
            var canonical := EncodeLogicalName(s, t);
            Split(canonical) == Split(name)
            && EncodeLogicalName(Split(canonical).0, Split(canonical).1) == canonical
  {
    var (s, t) := Split(name);
    SplitUndoesEncode(s, t);
  }


  /** The format, by example: a name holds quotes only where it must. */
  lemma NameFormat()
    ensures EncodeLogicalName("main", "t") == "t" && EncodeLogicalName("s", "t") == "s.t"
    ensures EncodeLogicalName("main", "a.b") == "\"a.b\"" && EncodeLogicalName("main", "\"") == "\"\"\"\""
    ensures EncodeLogicalName("main", "a\"") == "a\""
  {
    assert "a.b"[1..] == ".b" && ".b"[1..] == "b" && "b"[1..] == "" && "\""[1..] == "";
    assert DoubleQuotes("b") == "b" && DoubleQuotes(".b") == ".b" && DoubleQuotes("a.b") == "a.b";
  }

  // ----- names that were typed, not encoded -----

  lemma {:induction false} ScannedIsDelimited(name: string, i: nat, stopAtDot: bool)
      returns (part: string, rest: string)
    requires i <= |name| && ScanQuoted(name, i, stopAtDot).Some?
    ensures name[i..] == DoubleQuotes(part) + "\"" + rest && (rest == "" || (stopAtDot && rest[0] == '.'))
    decreases |name| - i
  {
    if name[i] == '"' && !(i + 1 < |name| && name[i + 1] == '"') {
      part, rest := "", name[i + 1..];
      assert name[i..] == "\"" + rest;
    } else {
      var n := if name[i] == '"' then 2 else 1;
      var more;
      more, rest := ScannedIsDelimited(name, i + n, stopAtDot);
      part := [name[i]] + more;
      assert part[1..] == more && name[i..] == name[i..i + n] + name[i + n..];
      assert name[i..i + n] == if n == 2 then "\"\"" else [name[i]];
    }
  }

  /** Everything else, an unbalanced quote included, is taken as it stands - up to the next
      separator where another part may follow. */
  lemma PlainPart(name: string, pos: nat, stopAtDot: bool)
    requires pos <= |name| && forall x, y :: !Delimited(name, pos, stopAtDot, x, y)
    ensures var (plain, end) := DecodedPart(name, pos, stopAtDot);
            && pos <= end <= |name| && plain == name[pos..end]
            && (if stopAtDot then '.' !in plain && (end < |name| ==> name[end] == '.') else end == |name|)
  {
    if pos < |name| && name[pos] == '"' && ScanQuoted(name, pos + 1, stopAtDot).Some? {
      var x, y := ScannedIsDelimited(name, pos + 1, stopAtDot);
      assert name[pos..] == [name[pos]] + name[pos + 1..];
      assert Delimited(name, pos, stopAtDot, x, y);
    }
  }
}
