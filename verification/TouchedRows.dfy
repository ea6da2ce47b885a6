/** Double-touch detection: the target rows one statement has already modified.  Keyed
    tables record the key; keyless tables record the row number in two growable bitmaps. */
module TouchedRows {
  import opened Values
  import opened KeyedDelta

  /** First: apply it.  Repeated: a DELETE of a deleted row, skip it.  Refused: the statement
      modifies a row twice.  Invalid: no usable row number. */
  datatype Touch = First | Repeated | Refused | Invalid

  /** The rule on a finite map from touched row to "touched by a DELETE". */
  function Record<K>(touched: map<K, bool>, k: K, isDelete: bool): (map<K, bool>, Touch) {
    if k !in touched then (touched[k := isDelete], First)
    else if isDelete && touched[k] then (touched, Repeated)
    else (touched, Refused)
  }

  /** The rule in words: the first touch of a row applies and is remembered with its kind; only a
      DELETE of a row that a DELETE touched is skipped; every other second touch is refused, and
      a touch that does not apply leaves the record alone. */
  lemma RecordRules<K>(touched: map<K, bool>, k: K, isDelete: bool)
    ensures var (after, t) := Record(touched, k, isDelete);
            && (t == First <==> k !in touched)
            && (t == Repeated <==> k in touched && touched[k] && isDelete)
            && t != Invalid
            && (t == First ==> after == touched[k := isDelete]) && (t != First ==> after == touched)
  {
  }

  function Resize(bits: seq<bool>, size: nat): (r: seq<bool>)
    requires |bits| <= size
    ensures |r| == size
    ensures forall i :: 0 <= i < size ==> r[i] == (i < |bits| && bits[i])
  {
    bits + seq(size - |bits|, _ => false)
  }

  class TouchedRows {
    var keys: map<Key, bool>
    var rownoTouched: seq<bool>
    var rownoDeleted: seq<bool>

    ghost predicate Valid()
      reads this
    {
      |rownoTouched| == |rownoDeleted|
    }

    /** What the two bitmaps stand for. */
    ghost function Rownos(): map<nat, bool>
      requires Valid()
      reads this
    {
      map i: nat | 0 <= i < |rownoTouched| && rownoTouched[i] :: rownoDeleted[i]
    }

    constructor ()
      ensures Valid() && keys == map[] && Rownos() == map[]
    {
      keys, rownoTouched, rownoDeleted := map[], [], [];
    }

    method TouchKey(key: Key, isDelete: bool) returns (t: Touch)
      modifies this`keys
      ensures (keys, t) == Record(old(keys), key, isDelete)
    {
      if key !in keys {
        keys := keys[key := isDelete];
        return First;
      }
      if isDelete && keys[key] {
        return Repeated;
      }
      return Refused;
    }

    /** Growing the bitmaps never changes the map they stand for. */
    method TouchRowno(rowno: Option<int>, isDelete: bool) returns (t: Touch)
      requires Valid()
      modifies this`rownoTouched, this`rownoDeleted
      ensures Valid()
      ensures rowno.None? || rowno.value < 0 ==> t == Invalid && Rownos() == old(Rownos())
      ensures rowno.Some? && rowno.value >= 0 ==> (Rownos(), t) == Record(old(Rownos()), rowno.value, isDelete)
    {
      if rowno.None? || rowno.value < 0 {
        return Invalid;
      }
      var slot: nat := rowno.value;
      if slot >= |rownoTouched| {
        var size := if slot + 1 > |rownoTouched| * 2 then slot + 1 else |rownoTouched| * 2;
        rownoTouched := Resize(rownoTouched, size);
        rownoDeleted := Resize(rownoDeleted, size);
      }
      assert Rownos() == old(Rownos());
      if !rownoTouched[slot] {
        rownoTouched := rownoTouched[slot := true];
        rownoDeleted := rownoDeleted[slot := isDelete];
        assert Rownos() == old(Rownos())[slot := isDelete];
        return First;
      }
      if isDelete && rownoDeleted[slot] {
        return Repeated;
      }
      return Refused;
    }
  }
}
