/** Runs of clear bits in a bit sequence: what the packed bitmap is specified by. */
module BitRuns {
  import opened Arith

  predicate IsFreeRun(bits: seq<bool>, start: nat, n: nat) {
    start + n <= |bits| && forall i :: start <= i < start + n ==> !bits[i]
  }

  /** The lowest clear run of length `n` at or after `from`; a run of length zero is never found. */
  function FindRun(bits: seq<bool>, n: nat, from: nat): (r: Option<nat>)
    ensures r.Some? ==> n > 0 && from <= r.value && IsFreeRun(bits, r.value, n)
    ensures r.Some? ==> forall s :: from <= s < r.value ==> !IsFreeRun(bits, s, n)
    ensures r.None? && n > 0 ==> forall s :: from <= s ==> !IsFreeRun(bits, s, n)
    decreases |bits| - from
  {
    if n == 0 || from + n > |bits| then None
    else if IsFreeRun(bits, from, n) then Some(from)
    else FindRun(bits, n, from + 1)
  }

  function FirstRun(bits: seq<bool>, n: nat): Option<nat> {
    FindRun(bits, n, 0)
  }

  /** Any search result with the two defining properties is the one `FirstRun` gives. */
  lemma FirstRunUnique(bits: seq<bool>, n: nat, r: Option<nat>)
    requires n == 0 ==> r.None?
    requires n > 0 && r.None? ==> forall s :: !IsFreeRun(bits, s, n)
    requires r.Some? ==> IsFreeRun(bits, r.value, n) && forall s :: 0 <= s < r.value ==> !IsFreeRun(bits, s, n)
    ensures r == FirstRun(bits, n)
  {
    var f := FirstRun(bits, n);
    if r.Some? && f.Some? {
      assert r.value <= f.value && f.value <= r.value;
    }
  }

  /** The run found is clear and inside the bits, and no clear run of that positive length starts below it. */
  lemma FirstRunIsLowest(bits: seq<bool>, n: nat, p: nat)
    ensures var r := FirstRun(bits, n);
            && (r.Some? ==> n > 0 && r.value + n <= |bits| && forall i :: r.value <= i < r.value + n ==> !bits[i])
            && (n > 0 && p + n <= |bits| && (forall i :: p <= i < p + n ==> !bits[i]) ==> r.Some? && r.value <= p)
  {
    var r := FirstRun(bits, n);
    assert r.Some? ==> IsFreeRun(bits, r.value, n);
    if n > 0 && p + n <= |bits| && forall i :: p <= i < p + n ==> !bits[i] {
      assert IsFreeRun(bits, p, n);
    }
  }

  /** No clear run of length `n` ends at or before position `i`. */
  ghost predicate NoRunEndsBy(bits: seq<bool>, n: nat, i: nat) {
    n > 0 ==> forall s :: 0 <= s && s + n <= i ==> !IsFreeRun(bits, s, n)
  }

  /** Exactly `k` clear bits stand directly before position `i`. */
  ghost predicate TrailingFree(bits: seq<bool>, i: nat, k: nat)
    requires i <= |bits|
  {
    && k <= i
    && (forall j :: i - k <= j < i ==> !bits[j])
    && (k < i ==> bits[i - k - 1])
  }

  /** What one more bit does to the two facts the search loop keeps. */
  lemma RunStep(bits: seq<bool>, n: nat, i: nat, k: nat)
    requires i < |bits| && NoRunEndsBy(bits, n, i) && TrailingFree(bits, i, k) && (n > 0 ==> k < n)
    ensures TrailingFree(bits, i + 1, if bits[i] then 0 else k + 1)
    ensures n > 0 && (bits[i] || k + 1 < n) ==> NoRunEndsBy(bits, n, i + 1)
    ensures n > 0 && !bits[i] && k + 1 == n ==>
              IsFreeRun(bits, i - k, n) && forall s :: 0 <= s < i - k ==> !IsFreeRun(bits, s, n)
  {
    if n > 0 && (bits[i] || k + 1 < n) {
      forall s | 0 <= s && s + n <= i + 1
        ensures !IsFreeRun(bits, s, n)
      {
        if s + n == i + 1 {
          assert bits[i] || bits[i - k - 1];
        }
      }
    }
  }

  function WriteRange(bits: seq<bool>, start: nat, n: nat, value: bool): (r: seq<bool>)
    ensures |r| == |bits|
    ensures forall i :: 0 <= i < |bits| ==> r[i] == if start <= i < start + n then value else bits[i]
  {
    seq(|bits|, i requires 0 <= i < |bits| => if start <= i < start + n then value else bits[i])
  }

  function UsedSet(bits: seq<bool>): set<nat> {
    set i: nat | i < |bits| && bits[i]
  }

  function FreeCount(bits: seq<bool>): nat
  {
    UsedSetBound(bits);
    |bits| - |UsedSet(bits)|
  }

  lemma UsedSetBound(bits: seq<bool>)
    ensures |UsedSet(bits)| <= |bits|
  {
    PageRangeSize(0, |bits|);
    SubsetSize(UsedSet(bits), PageRange(0, |bits|));
  }

  lemma UsedSetSnoc(bits: seq<bool>, i: nat)
    requires i < |bits|
    ensures |UsedSet(bits[..i + 1])| == |UsedSet(bits[..i])| + if bits[i] then 1 else 0
  {
    if bits[i] {
      assert UsedSet(bits[..i + 1]) == UsedSet(bits[..i]) + {i};
    } else {
      assert UsedSet(bits[..i + 1]) == UsedSet(bits[..i]);
    }
  }

  lemma WriteRangeUsedSet(bits: seq<bool>, start: nat, n: nat)
    requires start + n <= |bits|
    ensures UsedSet(WriteRange(bits, start, n, true)) == UsedSet(bits) + PageRange(start, n)
    ensures UsedSet(WriteRange(bits, start, n, false)) == UsedSet(bits) - PageRange(start, n)
  {
  }

  /** Taking a free run costs exactly its length, and clearing it again gives the original bits. */
  lemma TakeAndReturn(bits: seq<bool>, start: nat, n: nat)
    requires IsFreeRun(bits, start, n)
    ensures var taken := WriteRange(bits, start, n, true);
            && FreeCount(taken) == FreeCount(bits) - n
            && WriteRange(taken, start, n, false) == bits
  {
    WriteRangeUsedSet(bits, start, n);
    PageRangeSize(start, n);
    assert UsedSet(bits) !! PageRange(start, n);
  }
}

/** The packed bitmap of helper/bitmap and the bit operations of types/bit. */
module PackedBitmap {
  import opened Arith
  import opened BitRuns

  /** Bit `k` of a byte. */
  predicate Bit(b: bv8, k: bv3) {
    (b >> k) & 1 == 1
  }

  function ByteBit(b: bv8, k: nat): bool
    requires k < 8
  {
    Bit(b, k as bv3)
  }

  function BitRead(bytes: seq<bv8>, page: nat): bool
    requires page / 8 < |bytes|
  {
    ByteBit(bytes[page / 8], page % 8)
  }

  /** The first `count` bits of the packed bytes. */
  function Unpack(bytes: seq<bv8>, count: nat): (bits: seq<bool>)
    requires count <= 8 * |bytes|
    ensures |bits| == count
    ensures forall i :: 0 <= i < count ==> bits[i] == BitRead(bytes, i)
  {
    seq(count, i requires 0 <= i < count => BitRead(bytes, i))
  }

  lemma MaskedByte(b: bv8, k: bv3, j: bv3)
    ensures ((b | ((1 as bv8) << k)) >> j) & 1 == (if j == k then 1 else (b >> j) & 1)
    ensures ((b & !((1 as bv8) << k)) >> j) & 1 == (if j == k then 0 else (b >> j) & 1)
  {
  }

  lemma DistinctShifts(k: nat, j: nat)
    requires k < 8 && j < 8
    ensures (k as bv3 == j as bv3) == (k == j)
  {
  }

  /** `bit_set` and `bit_clear` on one byte. */
  function PutBit(b: bv8, k: bv3, value: bool): bv8 {
    if value then b | ((1 as bv8) << k) else b & !((1 as bv8) << k)
  }

  lemma PutBitRead(b: bv8, k: bv3, value: bool, j: bv3)
    ensures Bit(PutBit(b, k, value), j) == if j == k then value else Bit(b, j)
  {
    MaskedByte(b, k, j);
  }

  function WriteByte(b: bv8, k: nat, value: bool): bv8
    requires k < 8
  {
    PutBit(b, k as bv3, value)
  }

  lemma WriteByteBit(b: bv8, k: nat, value: bool, j: nat)
    requires k < 8 && j < 8
    ensures ByteBit(WriteByte(b, k, value), j) == if j == k then value else ByteBit(b, j)
  {
    hide Bit, PutBit;
    DistinctShifts(k, j);
    PutBitRead(b, k as bv3, value, j as bv3);
  }

  /** `bit_write`: one bit of one byte changes, every other bit of every byte keeps its value. */
  method BitWrite(bytes: array<bv8>, page: nat, value: bool)
    requires page < 8 * bytes.Length
    modifies bytes
    ensures forall j: nat :: j < 8 * bytes.Length ==>
              BitRead(bytes[..], j) == if j == page then value else BitRead(old(bytes[..]), j)
  {
    ghost var before := bytes[..];
    bytes[page / 8] := WriteByte(bytes[page / 8], page % 8, value);
    forall j: nat | j < 8 * bytes.Length
      ensures BitRead(bytes[..], j) == if j == page then value else BitRead(before, j)
    {
      if j / 8 == page / 8 {
        assert (j == page) == (j % 8 == page % 8);
        WriteByteBit(before[page / 8], page % 8, value, j % 8);
      }
    }
  }

  class Bitmap {
    var bytes: array<bv8>
    var count: nat

    ghost predicate Valid()
      reads this
    {
      count <= 8 * bytes.Length
    }

    ghost function Bits(): seq<bool>
      requires Valid()
      reads this, bytes
    {
      Unpack(bytes[..], count)
    }

    constructor (storage: array<bv8>, count: nat)
      requires count <= 8 * storage.Length
      ensures Valid() && bytes == storage && this.count == count
    {
      bytes := storage;
      this.count := count;
    }

    method Read(page: nat) returns (used: bool)
      requires Valid() && page < count
      ensures used == Bits()[page]
    {
      used := ByteBit(bytes[page / 8], page % 8);
      assert used == BitRead(bytes[..], page);
    }

    method Write(page: nat, value: bool)
      requires Valid() && page < count
      modifies bytes
      ensures Valid() && Bits() == old(Bits())[page := value]
    {
      BitWrite(bytes, page, value);
    }

    method Clear()
      requires Valid()
      modifies bytes
      ensures Valid() && Bits() == WriteRange(old(Bits()), 0, count, false)
    {
      for i := 0 to count
        invariant Bits() == WriteRange(old(Bits()), 0, i, false)
      {
        Write(i, false);
      }
    }

    method WriteBitsInRangeFrom(range: nat, startBit: nat, state: bool)
      requires Valid() && startBit + range <= count
      modifies bytes
      ensures Valid() && Bits() == WriteRange(old(Bits()), startBit, range, state)
    {
      for i := startBit to range + startBit
        invariant Bits() == WriteRange(old(Bits()), startBit, i - startBit, state)
      {
        Write(i, state);
      }
    }

    /** Succeeds exactly when a clear run of `range > 0` bits exists, and then gives the lowest one. */
    method FindFreeRange(range: nat) returns (start: nat, success: bool)
      requires Valid()
      ensures success <==> range > 0 && exists s :: IsFreeRun(Bits(), s, range)
      ensures success ==> IsFreeRun(Bits(), start, range)
      ensures success ==> forall s :: 0 <= s < start ==> !IsFreeRun(Bits(), s, range)
      ensures !success ==> start == 0
      ensures FirstRun(Bits(), range) == if success then Some(start) else None
    {
      ghost var bits := Bits();
      var foundFree, firstFree := 0, 0;
      success := false;
      for i := 0 to count
        invariant foundFree <= i && (range > 0 ==> foundFree < range)
        invariant foundFree > 0 ==> firstFree == i - foundFree
        invariant NoRunEndsBy(bits, range, i) && TrailingFree(bits, i, foundFree)
      {
        var used := Read(i);
        RunStep(bits, range, i, foundFree);
        if !used {
          if foundFree == 0 {
            firstFree := i;
          }
          foundFree := foundFree + 1;
          if foundFree == range {
            FirstRunUnique(bits, range, Some(firstFree));
            return firstFree, true;
          }
        } else {
          foundFree := 0;
        }
      }
      start := 0;
      FirstRunUnique(bits, range, None);
    }
  }
}
