/** The open-addressing set of 64-bit key hashes that prefilters base rows during a keyed
    scan: linear probing over a power-of-two table, kept at most half full, with 0 as the
    empty-slot mark.  The class refines a mathematical set of normalized hashes. */
module KeyHashSets {

  type Hash = h: nat | h < 0x1_0000_0000_0000_0000

  const EMPTY: Hash := 0
  const FIRST_SIZE: nat := 1024

  function Normalize(h: Hash): Hash {
    if h == 0 then 1 else h
  }

  /** Bitwise AND on naturals. */
  function BitAnd(a: nat, b: nat): nat {
    if a == 0 || b == 0 then 0 else (a % 2) * (b % 2) + 2 * BitAnd(a / 2, b / 2)
  }

  function Pow2(k: nat): (p: nat)
    ensures p > 0
  {
    if k == 0 then 1 else 2 * Pow2(k - 1)
  }

  /** Masking with 2^k - 1 is the remainder modulo 2^k. */
  lemma {:induction false} MaskIsRemainder(a: nat, k: nat)
    ensures BitAnd(a, Pow2(k) - 1) == a % Pow2(k)
  {
    if k > 0 && a > 0 {
      HalfOfMask(k);
      MaskIsRemainder(a / 2, k - 1);
      RemainderOfHalves(a, Pow2(k - 1));
      assert BitAnd(a, Pow2(k) - 1) == (a % 2) * 1 + 2 * BitAnd(a / 2, Pow2(k - 1) - 1);
    } else if k > 0 {
      RemainderIs(a, Pow2(k), 0, 0);
    }
  }

  lemma RemainderOfHalves(a: nat, p: nat)
    requires p > 0
    ensures a % (2 * p) == a % 2 + 2 * ((a / 2) % p)
  {
    var half := a / 2;
    var q, r := half / p, half % p;
    assert half == p * q + r;
    var rest := a % 2 + 2 * r;
    assert a == 2 * half + a % 2;
    assert a == (2 * p) * q + rest && 0 <= rest < 2 * p;
    RemainderIs(a, 2 * p, q, rest);
  }

  lemma RemainderIs(a: nat, m: nat, q: int, rest: nat)
    requires m > 0 && a == m * q + rest && rest < m
    ensures a % m == rest
  {
    var x := a / m;
    assert m * (x - q) == m * x - m * q == rest - a % m;
    SmallMultiple(m, x - q);
  }

  lemma SmallMultiple(m: int, d: int)
    requires 0 - m < m * d < m
    ensures d == 0
  {
    if d > 0 { NotSmaller(m, d); }
    if d < 0 { NotSmaller(m, -d); }
  }

  lemma NotSmaller(m: int, d: int)
    requires m > 0 && d > 0
    ensures m * d >= m
  {
  }

  /** Masking with 2^k - 1 stays inside a table of 2^k slots and leaves slot numbers alone. */
  lemma {:induction false} MaskStaysInTable(a: nat, k: nat)
    ensures BitAnd(a, Pow2(k) - 1) < Pow2(k)
    ensures a < Pow2(k) ==> BitAnd(a, Pow2(k) - 1) == a
  {
    if k > 0 && a > 0 {
      HalfOfMask(k);
      MaskStaysInTable(a / 2, k - 1);
    }
  }

  /** Masking the table size itself wraps to slot 0. */
  lemma {:induction false} MaskWraps(k: nat)
    ensures BitAnd(Pow2(k), Pow2(k) - 1) == 0
  {
    if k > 0 {
      HalfOfMask(k);
      MaskWraps(k - 1);
    }
  }

  lemma HalfOfMask(k: nat)
    requires k > 0
    ensures (Pow2(k) - 1) / 2 == Pow2(k - 1) - 1 && (Pow2(k) - 1) % 2 == 1
    ensures Pow2(k) / 2 == Pow2(k - 1) && Pow2(k) % 2 == 0
  {
  }

  /** j lies on the cyclic probe path that starts at home and stops before pos. */
  predicate OnPath(home: int, j: int, pos: int) {
    if home <= pos then home <= j < pos else home <= j || j < pos
  }

  function Occupied(s: seq<Hash>): (n: nat)
    ensures n <= |s|
  {
    if s == [] then 0 else Occupied(s[..|s| - 1]) + if s[|s| - 1] == EMPTY then 0 else 1
  }

  ghost function Elements(s: seq<Hash>): set<Hash> {
    set i | 0 <= i < |s| && s[i] != EMPTY :: s[i]
  }

  ghost predicate Distinct(s: seq<Hash>) {
    forall i, j :: 0 <= i < j < |s| && s[i] != EMPTY ==> s[i] != s[j]
  }

  /** Every stored hash can be reached from its home slot without crossing an empty slot. */
  ghost predicate Reachable(s: seq<Hash>, mask: nat) {
    forall i, j {:trigger s[i], s[j]} ::
      0 <= i < |s| && s[i] != EMPTY && 0 <= j < |s| && OnPath(BitAnd(s[i], mask), j, i) ==> s[j] != EMPTY
  }

  lemma {:induction false} HasEmptySlot(s: seq<Hash>)
    requires Occupied(s) < |s|
    ensures exists i :: 0 <= i < |s| && s[i] == EMPTY
  {
    if s[|s| - 1] != EMPTY {
      HasEmptySlot(s[..|s| - 1]);
      var i :| 0 <= i < |s| - 1 && s[..|s| - 1][i] == EMPTY;
      assert s[i] == EMPTY;
    }
  }

  lemma {:induction false} OccupiedAfterFill(s: seq<Hash>, pos: nat, h: Hash)
    requires pos < |s| && s[pos] == EMPTY && h != EMPTY
    ensures Occupied(s[pos := h]) == Occupied(s) + 1
  {
    var n := |s| - 1;
    if pos < n {
      OccupiedAfterFill(s[..n], pos, h);
      assert s[pos := h][..n] == s[..n][pos := h];
    } else {
      assert s[pos := h][..n] == s[..n];
    }
  }

  lemma {:induction false} OccupiedOfEmptyTable(s: seq<Hash>)
    requires forall i :: 0 <= i < |s| ==> s[i] == EMPTY
    ensures Occupied(s) == 0
  {
    if s != [] { OccupiedOfEmptyTable(s[..|s| - 1]); }
  }

  /** The stored count is the size of the abstract set. */
  lemma {:induction false} OccupiedIsCardinality(s: seq<Hash>)
    requires Distinct(s)
    ensures Occupied(s) == |Elements(s)|
  {
    if s != [] {
      var n := |s| - 1;
      OccupiedIsCardinality(s[..n]);
      if s[n] != EMPTY {
        assert Elements(s) == Elements(s[..n]) + {s[n]};
      } else {
        assert Elements(s) == Elements(s[..n]);
      }
    }
  }

  /** h is absent and its probe path ends at the empty slot pos. */
  ghost predicate CanPlace(s: seq<Hash>, mask: nat, pos: nat, h: Hash) {
    && pos < |s| && s[pos] == EMPTY && h != EMPTY
    && h !in Elements(s)
    && (forall j :: 0 <= j < |s| && OnPath(BitAnd(h, mask), j, pos) ==> s[j] != EMPTY)
  }

  lemma FillKeepsReachable(s: seq<Hash>, mask: nat, pos: nat, h: Hash)
    requires Reachable(s, mask) && CanPlace(s, mask, pos, h)
    ensures Reachable(s[pos := h], mask)
  {
    var t := s[pos := h];
    forall i, j | 0 <= i < |t| && t[i] != EMPTY && 0 <= j < |t| && OnPath(BitAnd(t[i], mask), j, i)
      ensures t[j] != EMPTY
    {
      if i != pos && j != pos {
        assert s[i] == t[i] && s[j] == t[j];
      }
    }
  }

  lemma FillAddsElement(s: seq<Hash>, mask: nat, pos: nat, h: Hash)
    requires Distinct(s) && CanPlace(s, mask, pos, h)
    ensures Distinct(s[pos := h]) && Elements(s[pos := h]) == Elements(s) + {h}
  {
    var t := s[pos := h];
    assert t[pos] == h;
    forall i | 0 <= i < |s| && s[i] != EMPTY ensures s[i] in Elements(t) && s[i] != h && i != pos {
      assert t[i] == s[i] && s[i] in Elements(s);
    }
    forall i, j | 0 <= i < j < |t| && t[i] != EMPTY ensures t[i] != t[j] {
      if i != pos && j != pos { assert t[i] == s[i] && t[j] == s[j]; }
    }
  }

  /** A path that ends at an empty slot without meeting h proves that h is not stored. */
  lemma EmptySlotEndsSearch(s: seq<Hash>, mask: nat, pos: nat, h: Hash)
    requires Reachable(s, mask) && pos < |s| && s[pos] == EMPTY && h != EMPTY && BitAnd(h, mask) < |s|
    requires forall j :: 0 <= j < |s| && OnPath(BitAnd(h, mask), j, pos) ==> s[j] != h
    ensures h !in Elements(s)
  {
    forall q | 0 <= q < |s| ensures s[q] != h {
      assert OnPath(BitAnd(h, mask), q, pos) || q == pos || OnPath(BitAnd(h, mask), pos, q);
    }
  }

  lemma TableSize()
    ensures Pow2(10) == FIRST_SIZE
  {
    assert Pow2(5) == 32;
  }

  lemma {:induction false} SubsetIsNoLarger(a: set<Hash>, b: set<Hash>)
    requires a <= b
    ensures |a| <= |b|
  {
    if a != {} {
      var x :| x in a;
      SubsetIsNoLarger(a - {x}, b - {x});
    }
  }

  /** A table whose elements all come from t stores no more of them than t does. */
  lemma FewerElementsFewerSlots(s: seq<Hash>, t: seq<Hash>)
    requires Distinct(s) && Distinct(t) && Elements(s) <= Elements(t)
    ensures Occupied(s) <= Occupied(t)
  {
    OccupiedIsCardinality(s);
    OccupiedIsCardinality(t);
    SubsetIsNoLarger(Elements(s), Elements(t));
  }

  /** The probe loop.  It ends because the table always keeps an empty slot. */
  method WalkPath(s: seq<Hash>, mask: nat, ghost bits: nat, h: Hash) returns (pos: nat)
    requires |s| == Pow2(bits) && mask == Pow2(bits) - 1
    requires exists e :: 0 <= e < |s| && s[e] == EMPTY
    ensures pos < |s| && (s[pos] == h || s[pos] == EMPTY)
    ensures forall j :: 0 <= j < |s| && OnPath(BitAnd(h, mask), j, pos) ==> s[j] != EMPTY && s[j] != h
  {
    ghost var e :| 0 <= e < |s| && s[e] == EMPTY;
    MaskStaysInTable(h, bits);
    pos := BitAnd(h, mask);
    ghost var home := pos;
    ghost var left := |s|;
    while s[pos] != EMPTY
      invariant pos < |s| && left == |s| - if home <= pos then pos - home else pos - home + |s|
      invariant forall j :: 0 <= j < |s| && OnPath(home, j, pos) ==> s[j] != EMPTY && s[j] != h
      decreases left
    {
      if s[pos] == h { return; }
      assert !OnPath(home, e, pos) && e != pos;
      MaskStaysInTable(pos + 1, bits);
      MaskWraps(bits);
      pos := BitAnd(pos + 1, mask);
      left := left - 1;
    }
  }

  class KeyHashSet {
    var slots: seq<Hash>
    var count: nat
    var mask: nat
    ghost var bits: nat

    ghost predicate Valid()
      reads this
    {
      && (slots == [] ==> count == 0 && mask == 0)
      && (slots != [] ==> |slots| == Pow2(bits) >= FIRST_SIZE && mask == Pow2(bits) - 1)
      && count == Occupied(slots)
      && 2 * count <= |slots|
      && Distinct(slots)
      && Reachable(slots, mask)
    }

    ghost function Contents(): set<Hash>
      reads this
    {
      Elements(slots)
    }

    constructor ()
      ensures Valid() && Contents() == {}
    {
      slots, count, mask, bits := [], 0, 0, 0;
    }

    method Clear()
      modifies this
      ensures Valid() && Contents() == {}
    {
      slots, count, mask := [], 0, 0;
    }

    predicate MustGrow()
      reads this
    {
      (count + 1) * 2 > |slots|
    }

    /** The slot that holds h, or the empty slot where its search ends. */
    method Probe(h: Hash) returns (pos: nat)
      requires Valid() && slots != [] && h != EMPTY
      ensures pos < |slots| && (slots[pos] == h || CanPlace(slots, mask, pos, h))
    {
      HasEmptySlot(slots);
      MaskStaysInTable(h, bits);
      pos := WalkPath(slots, mask, bits, h);
      if slots[pos] == EMPTY {
        EmptySlotEndsSearch(slots, mask, pos, h);
      }
    }

    /** The tail of Insert: store h unless it is already there. */
    method Place(h: Hash)
      requires Valid() && !MustGrow() && h != EMPTY
      modifies this
      ensures Valid() && Contents() == old(Contents()) + {h}
      ensures |slots| == |old(slots)| && count <= old(count) + 1 && bits == old(bits)
    {
      var pos := Probe(h);
      if slots[pos] != h {
        OccupiedAfterFill(slots, pos, h);
        FillKeepsReachable(slots, mask, pos, h);
        FillAddsElement(slots, mask, pos, h);
        slots := slots[pos := h];
        count := count + 1;
      } else {
        assert h in Elements(slots);
      }
    }

    method Insert(hash: Hash)
      requires Valid()
      modifies this
      ensures Valid() && Contents() == old(Contents()) + {Normalize(hash)}
      ensures !old(MustGrow()) ==> |slots| == |old(slots)| && bits == old(bits)
      ensures count <= old(count) + 1
      decreases if MustGrow() then 2 else 0
    {
      if MustGrow() {
        Grow();
      }
      Place(Normalize(hash));
    }

    /** Doubles the table and re-inserts the stored hashes; no re-insertion grows again,
        which is why the recursion between Insert and Grow ends. */
    method Grow()
      requires Valid() && MustGrow()
      modifies this
      ensures Valid() && !MustGrow()
      ensures Contents() == old(Contents()) && count == old(count)
      ensures |slots| == if old(slots) == [] then FIRST_SIZE else 2 * |old(slots)|
      decreases 1
    {
      var oldSlots := slots;
      ghost var oldCount := count;
      var size := if |oldSlots| == 0 then FIRST_SIZE else |oldSlots| * 2;
      slots := seq(size, _ => EMPTY);
      mask := size - 1;
      count := 0;
      bits := if |oldSlots| == 0 then 10 else bits + 1;
      TableSize();
      OccupiedOfEmptyTable(slots);
      for i := 0 to |oldSlots|
        invariant Valid() && |slots| == size
        invariant Contents() == set j | 0 <= j < i && oldSlots[j] != EMPTY :: oldSlots[j]
      {
        FewerElementsFewerSlots(slots, oldSlots);
        if oldSlots[i] != EMPTY {
          Insert(oldSlots[i]);
        }
      }
      OccupiedIsCardinality(slots);
      OccupiedIsCardinality(oldSlots);
    }

    method Contains(hash: Hash) returns (found: bool)
      requires Valid()
      ensures found <==> Normalize(hash) in Contents()
    {
      if count == 0 {
        OccupiedIsCardinality(slots);
        return false;
      }
      var h := Normalize(hash);
      var pos := Probe(h);
      return slots[pos] == h;
    }
  }

  /** What a hit means: the hash itself was inserted, or 0 and 1 were confused.  So there are
      no false negatives, and the only false positives come from normalization. */
  lemma HitsAreExactUpToNormalization(hashes: set<Hash>, h: Hash)
    ensures (exists x :: x in hashes && Normalize(x) == Normalize(h))
            <==> h in hashes || (h == 0 && 1 in hashes) || (h == 1 && 0 in hashes)
  {
    if h in hashes { assert Normalize(h) == Normalize(h); }
    var zero: Hash := 0;
    var one: Hash := 1;
    assert Normalize(zero) == Normalize(one);
  }
}
