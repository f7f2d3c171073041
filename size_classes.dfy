/** The size-class lookup of the small-object allocator: two constant tables
    and the ceiling division that turns a byte count into a table index. */
module SizeClasses {

  /** Block sizes are multiples of this many bytes. */
  const QUANTIZATION: nat := 8
  const NUM_CLASSES: nat := 10
  /** A request whose size, header included, exceeds this is a big allocation. */
  const LARGEST_SIZE_CLASS: nat := 448
  const FIRST_PAGE_SIZE: nat := 512
  const MAX_PAGE_SIZE: nat := 4096
  /** Size of the header in front of a small block (one 64-bit word). */
  const SMALL_HEADER: nat := 8
  /** The largest capacity that afree treats as a small block. */
  const LARGEST_SMALL_CAPACITY: nat := LARGEST_SIZE_CLASS - SMALL_HEADER

  /** Block size of each class, in units of QUANTIZATION bytes. */
  const CLASS_SIZES: seq<nat> := [2, 3, 4, 6, 10, 14, 18, 26, 34, 56]

  /** The entry of CLASS_SIZES for class c, found by walking the table from
      entry i on. */
  function UnitsFrom(i: nat, c: nat): nat
    requires i <= c < NUM_CLASSES
    decreases c - i
  {
    if i == c then CLASS_SIZES[i] else UnitsFrom(i + 1, c)
  }

  /** Block size of class c, in units of QUANTIZATION bytes. */
  function ClassUnits(c: nat): nat
    requires c < NUM_CLASSES
  {
    UnitsFrom(0, c)
  }

  lemma {:induction false} UnitsFromAt(i: nat, c: nat)
    requires i <= c < NUM_CLASSES
    ensures UnitsFrom(i, c) == CLASS_SIZES[c]
    decreases c - i
  {
    if i < c {
      UnitsFromAt(i + 1, c);
    }
  }

  /** The walk finds the table entry of the class. */
  lemma ClassUnitsAt(c: nat)
    requires c < NUM_CLASSES
    ensures ClassUnits(c) == CLASS_SIZES[c]
  {
    UnitsFromAt(0, c);
  }

  /** Class of each quantised size 0 ..= 56, written as the three rows of the
      original table. */
  const SIZE_TO_CLASS: seq<nat> :=
    [0, 0, 0, 1, 2, 3, 3, 4, 4, 4, 4, 5, 5, 5, 5, 6, 6, 6, 6] +
    [7, 7, 7, 7, 7, 7, 7, 7, 8, 8, 8, 8, 8, 8, 8, 8, 9, 9, 9] +
    [9, 9, 9, 9, 9, 9, 9, 9, 9, 9, 9, 9, 9, 9, 9, 9, 9, 9, 9]

  /** Number of QUANTIZATION-byte units needed for `bytes` (rounded up). */
  function Quantize(bytes: nat): nat {
    (bytes + QUANTIZATION - 1) / QUANTIZATION
  }

  /** Bytes of one block of class c. */
  function Chunk(c: nat): nat
    requires c < NUM_CLASSES
  {
    ClassUnits(c) * QUANTIZATION
  }

  /** What the table promises about the quantised size q. */
  ghost predicate EntryOk(q: nat)
    requires q < |SIZE_TO_CLASS|
  {
    var c := SIZE_TO_CLASS[q];
    && c < NUM_CLASSES
    && q <= CLASS_SIZES[c]
    && (c == 0 || CLASS_SIZES[c - 1] < q)
    && (q + 1 < |SIZE_TO_CLASS| ==> c <= SIZE_TO_CLASS[q + 1])
  }

  /** Every entry from lo up to (not including) hi is as promised. */
  ghost predicate TableOkIn(lo: nat, hi: nat)
    decreases hi - lo
  {
    lo >= hi || lo >= |SIZE_TO_CLASS| || (EntryOk(lo) && TableOkIn(lo + 1, hi))
  }

  /** The table is checked by evaluation, eight entries at a time. */
  lemma TableLow(lo: nat)
    requires lo in {0, 8}
    ensures TableOkIn(lo, lo + 8)
  {
    if lo == 0 {
      assert TableOkIn(0, 8);
    } else {
      assert TableOkIn(8, 16);
    }
  }

  lemma TableMid(lo: nat)
    requires lo in {16, 24}
    ensures TableOkIn(lo, lo + 8)
  {
    if lo == 16 {
      assert TableOkIn(16, 24);
    } else {
      assert TableOkIn(24, 32);
    }
  }

  lemma TableHigh(lo: nat)
    requires lo in {32, 40, 48, 56}
    ensures TableOkIn(lo, lo + 8)
  {
    if lo == 32 {
      assert TableOkIn(32, 40);
    } else if lo == 40 {
      assert TableOkIn(40, 48);
    } else if lo == 48 {
      assert TableOkIn(48, 56);
    } else {
      assert TableOkIn(56, 64);
    }
  }

  lemma {:induction false} TableOkAt(lo: nat, hi: nat, k: nat)
    requires TableOkIn(lo, hi) && lo <= k < hi && k < |SIZE_TO_CLASS|
    ensures EntryOk(k)
    decreases k - lo
  {
    if lo < k {
      TableOkAt(lo + 1, hi, k);
    }
  }

  /** For every quantised size q in 0 ..= 56 the class is a valid index, its
      block holds q units, it is the smallest class that does, and the table
      never decreases. */
  lemma EntrySound(q: nat)
    requires q <= 56
    ensures q < |SIZE_TO_CLASS|
    ensures SIZE_TO_CLASS[q] < NUM_CLASSES
    ensures q <= CLASS_SIZES[SIZE_TO_CLASS[q]]
    ensures SIZE_TO_CLASS[q] == 0 || CLASS_SIZES[SIZE_TO_CLASS[q] - 1] < q
    ensures q < 56 ==> SIZE_TO_CLASS[q] <= SIZE_TO_CLASS[q + 1]
  {
    var lo := q / 8 * 8;
    if lo < 16 {
      TableLow(lo);
    } else if lo < 32 {
      TableMid(lo);
    } else {
      TableHigh(lo);
    }
    TableOkAt(lo, lo + 8, q);
  }

  lemma QuantizeCovers(bytes: nat)
    ensures bytes <= Quantize(bytes) * QUANTIZATION
    ensures bytes <= LARGEST_SIZE_CLASS ==> Quantize(bytes) <= 56
  {
  }

  /** Class sizes strictly increase, so the smaller class has the smaller
      block. */
  lemma ClassSizesIncrease(i: nat, j: nat)
    requires i < j < NUM_CLASSES
    ensures ClassUnits(i) < ClassUnits(j)
  {
    ClassUnitsAt(i);
    ClassUnitsAt(j);
  }

  /** The first class from c on whose block holds q units, given that no
      class before c does. */
  function FirstFit(q: nat, c: nat): (r: nat)
    requires q <= ClassUnits(NUM_CLASSES - 1) && c < NUM_CLASSES
    requires c == 0 || ClassUnits(c - 1) < q
    ensures c <= r < NUM_CLASSES && q <= ClassUnits(r)
    ensures r == 0 || ClassUnits(r - 1) < q
    decreases NUM_CLASSES - c
  {
    if q <= ClassUnits(c) then c else FirstFit(q, c + 1)
  }

  /** Exactly one class holds q units while the class below it does not. */
  lemma FitUnique(q: nat, a: nat, b: nat)
    requires a < NUM_CLASSES && q <= ClassUnits(a) && (a == 0 || ClassUnits(a - 1) < q)
    requires b < NUM_CLASSES && q <= ClassUnits(b) && (b == 0 || ClassUnits(b - 1) < q)
    ensures a == b
  {
    if a < b {
      if a < b - 1 {
        ClassSizesIncrease(a, b - 1);
      }
    } else if b < a {
      if b < a - 1 {
        ClassSizesIncrease(b, a - 1);
      }
    }
  }

  /** The class a small request of `totalSmall` bytes (header included) is
      served from: the smallest class whose block holds the request. */
  function ClassOf(totalSmall: nat): (c: nat)
    requires totalSmall <= LARGEST_SIZE_CLASS
    ensures c < NUM_CLASSES
    ensures totalSmall <= Chunk(c)
    ensures c == 0 || Chunk(c - 1) < totalSmall
  {
    QuantizeCovers(totalSmall);
    ClassUnitsAt(NUM_CLASSES - 1);
    FirstFit(Quantize(totalSmall), 0)
  }

  /** The first-fit search agrees with the lookup table for every small
      request: the class is SIZE_TO_CLASS at the quantised size. */
  lemma ClassOfTable(totalSmall: nat)
    requires totalSmall <= LARGEST_SIZE_CLASS
    ensures Quantize(totalSmall) < |SIZE_TO_CLASS|
    ensures ClassOf(totalSmall) == SIZE_TO_CLASS[Quantize(totalSmall)]
  {
    var q := Quantize(totalSmall);
    QuantizeCovers(totalSmall);
    EntrySound(q);
    var c := SIZE_TO_CLASS[q];
    ClassUnitsAt(c);
    if c > 0 {
      ClassUnitsAt(c - 1);
    }
    ClassUnitsAt(NUM_CLASSES - 1);
    var a := FirstFit(q, 0);
    assert ClassOf(totalSmall) == a;
    FitUnique(q, a, c);
  }

  /** A class whose predecessor is too small for t comes no later than any
      class that holds t. */
  lemma ClassMinimal(t: nat, a: nat, d: nat)
    requires a < NUM_CLASSES && (a == 0 || Chunk(a - 1) < t)
    requires d < NUM_CLASSES && t <= Chunk(d)
    ensures a <= d
  {
    if d + 1 < a {
      ClassSizesIncrease(d, a - 1);
    }
  }

  /** A larger request never lands in a smaller class. */
  lemma ClassMonotone(t1: nat, t2: nat)
    requires t1 <= t2 <= LARGEST_SIZE_CLASS
    ensures ClassOf(t1) <= ClassOf(t2)
  {
    ClassMinimal(t1, ClassOf(t1), ClassOf(t2));
  }

  /** The class that afree pushes a small block of `capacity` bytes onto: the
      same computation as the allocation path, applied to the stamped capacity. */
  function FreeClassOf(capacity: nat): (c: nat)
    requires capacity <= LARGEST_SMALL_CAPACITY
    ensures c < NUM_CLASSES
  {
    ClassOf(capacity + SMALL_HEADER)
  }

  /** afree routes a block back to the class the allocation path used for the
      same size: an allocation of size*count bytes stamps capacity size*count,
      and freeing it selects exactly that class; the class block holds it. */
  lemma FreeRoutesToAllocClass(total: nat)
    requires total + SMALL_HEADER <= LARGEST_SIZE_CLASS
    ensures total <= LARGEST_SMALL_CAPACITY
    ensures FreeClassOf(total) == ClassOf(total + SMALL_HEADER)
    ensures total + SMALL_HEADER <= Chunk(FreeClassOf(total))
  {
  }

  /** Every block is at least the 16-byte minimum and at most the largest class. */
  lemma ChunkBounds(c: nat)
    requires c < NUM_CLASSES
    ensures 16 <= Chunk(c) <= LARGEST_SIZE_CLASS
    ensures Chunk(c) % QUANTIZATION == 0
  {
    ClassUnitsAt(c);
  }
}
