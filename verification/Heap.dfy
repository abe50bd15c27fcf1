/** heap.cpp over bytes: headers of 63-bit length and used bit, chained through the region. */
module HeapMemory {
  import opened Arith
  import opened Words
  import opened HeapBlocks

  /** `MemoryBlockHeader`: the length in the low 63 bits, the used flag above. */
  function HeaderWord(b: Block): nat
    requires b.length < TWO_63
  {
    b.length + if b.used then TWO_63 else 0
  }

  function HeaderAt(mem: seq<Byte>, p: nat): Block
    requires p + HEADER <= |mem|
  {
    var w := FromLE(mem[p..p + HEADER]);
    Block(w % TWO_63, w / TWO_63 == 1)
  }

  lemma HeaderReadBack(mem: seq<Byte>, p: nat, b: Block)
    requires p + HEADER <= |mem| && b.length < TWO_63
    ensures HeaderAt(Store(mem, p, ToLE(HeaderWord(b), HEADER)), p) == b
  {
    var w := HeaderWord(b);
    Pow256Eight();
    ReadBack(w, HEADER);
    var mem' := Store(mem, p, ToLE(w, HEADER));
    assert mem'[p..p + HEADER] == ToLE(w, HEADER);
  }

  const TWO_56: nat := 0x100_0000_0000_0000

  /** The used flag is the top bit of the header's last byte; the other 63 bits are the length, low bytes first. */
  lemma HeaderBits(mem: seq<Byte>, p: nat)
    requires p + HEADER <= |mem|
    ensures HeaderAt(mem, p).used <==> mem[p + 7] >= 128
    ensures HeaderAt(mem, p).length == FromLE(mem[p..p + 7]) + TWO_56 * (mem[p + 7] % 128)
  {
    var low, high := mem[p..p + 7], [mem[p + 7]];
    assert mem[p..p + HEADER] == low + high;
    LittleEndian(low, high);
    LittleEndian(high, []);
    WriteBack(low);
    SeventhPower();
    hide FromLE, Pow256;
    TopBit(FromLE(low), mem[p + 7]);
  }

  lemma TopBit(low: nat, top: Byte)
    requires low < TWO_56
    ensures var w := low + TWO_56 * top;
            (w / TWO_63 == 1 <==> top >= 128) && w % TWO_63 == low + TWO_56 * (top % 128)
  {
  }

  lemma SeventhPower()
    ensures Pow256(7) == TWO_56
  {
    assert Pow256(4) == 0x1_0000_0000;
    assert Pow256(7) == 256 * (256 * (256 * Pow256(4)));
  }

  /** The headers from `off` are those of `bs`, one after the other, and the last block ends at `end`. */
  ghost predicate Chain(mem: seq<Byte>, off: nat, bs: seq<Block>, end: nat)
    decreases |bs|
  {
    if bs == [] then off == end
    else off + HEADER <= |mem| && HeaderAt(mem, off) == bs[0] && Chain(mem, off + HEADER + bs[0].length, bs[1..], end)
  }

  lemma {:induction false} ChainEnds(mem: seq<Byte>, off: nat, bs: seq<Block>, end: nat)
    requires Chain(mem, off, bs, end)
    ensures end == off + Span(bs)
    decreases |bs|
  {
    if bs != [] {
      ChainEnds(mem, off + HEADER + bs[0].length, bs[1..], end);
    }
  }

  lemma {:induction false} ChainConcat(mem: seq<Byte>, off: nat, a: seq<Block>, b: seq<Block>, end: nat)
    ensures Chain(mem, off, a + b, end) <==> Chain(mem, off, a, off + Span(a)) && Chain(mem, off + Span(a), b, end)
    decreases |a|
  {
    if a == [] {
      assert a + b == b;
    } else {
      assert (a + b)[1..] == a[1..] + b;
      ChainConcat(mem, off + HEADER + a[0].length, a[1..], b, end);
    }
  }

  ghost predicate SameBytes(mem: seq<Byte>, mem': seq<Byte>, lo: nat, hi: nat) {
    hi <= |mem| == |mem'| && forall k :: lo <= k < hi ==> mem'[k] == mem[k]
  }

  ghost predicate SameOutside(mem: seq<Byte>, mem': seq<Byte>, lo: nat, hi: nat) {
    lo <= hi && SameBytes(mem, mem', 0, lo) && SameBytes(mem, mem', hi, |mem|)
  }

  lemma SameHeader(mem: seq<Byte>, mem': seq<Byte>, p: nat)
    requires SameBytes(mem, mem', p, p + HEADER)
    ensures HeaderAt(mem', p) == HeaderAt(mem, p)
  {
    assert mem'[p..p + HEADER] == mem[p..p + HEADER];
  }

  /** A chain depends only on the bytes it covers. */
  lemma {:induction false} ChainFrame(mem: seq<Byte>, mem': seq<Byte>, off: nat, bs: seq<Block>, end: nat)
    requires Chain(mem, off, bs, end) && SameBytes(mem, mem', off, end)
    ensures Chain(mem', off, bs, end)
    decreases |bs|
  {
    if bs != [] {
      ChainEnds(mem, off, bs, end);
      SameHeader(mem, mem', off);
      ChainFrame(mem, mem', off + HEADER + bs[0].length, bs[1..], end);
    }
  }

  /** Block `i` is found at its offset. */
  lemma ChainAt(mem: seq<Byte>, bs: seq<Block>, end: nat, i: nat)
    requires Chain(mem, 0, bs, end) && i < |bs|
    ensures OffsetOf(bs, i) + HEADER <= |mem| && HeaderAt(mem, OffsetOf(bs, i)) == bs[i]
    ensures OffsetOf(bs, i + 1) == OffsetOf(bs, i) + HEADER + bs[i].length <= end
    ensures OffsetOf(bs, i + 1) == end <==> i + 1 == |bs|
  {
    assert bs == bs[..i] + bs[i..] && bs[i..][0] == bs[i];
    ChainConcat(mem, 0, bs[..i], bs[i..], end);
    ChainEnds(mem, 0, bs, end);
    LiveAround(bs, i, i + 1);
    assert bs[i..i + 1] == [bs[i]];
    LiveOne(bs[i], 0);
    if i + 1 < |bs| {
      assert bs[i + 1..] != [];
    } else {
      assert bs[..i + 1] == bs;
    }
  }

  /** Rewriting the bytes under the blocks `lo .. hi` to another chain over the same bytes. */
  lemma ChainReplace(mem: seq<Byte>, mem': seq<Byte>, bs: seq<Block>, end: nat, lo: nat, hi: nat, mid: seq<Block>)
    requires Chain(mem, 0, bs, end) && lo <= hi <= |bs| && end == |mem|
    requires SameOutside(mem, mem', OffsetOf(bs, lo), OffsetOf(bs, hi))
    requires Chain(mem', OffsetOf(bs, lo), mid, OffsetOf(bs, hi))
    ensures Chain(mem', 0, Replace(bs, lo, hi, mid), end)
  {
    hide HeaderAt, SameBytes;
    var l, h := OffsetOf(bs, lo), OffsetOf(bs, hi);
    assert bs == bs[..hi] + bs[hi..] && bs[..hi] == bs[..lo] + bs[lo..hi];
    ChainConcat(mem, 0, bs[..hi], bs[hi..], end);
    ChainConcat(mem, 0, bs[..lo], bs[lo..hi], h);
    ChainEnds(mem, l, bs[lo..hi], h);
    ChainEnds(mem, h, bs[hi..], end);
    ChainFrame(mem, mem', 0, bs[..lo], l);
    ChainFrame(mem, mem', h, bs[hi..], end);
    ChainEnds(mem', l, mid, h);
    ChainConcat(mem', 0, bs[..lo], mid, h);
    SpanConcat(bs[..lo], mid);
    ChainConcat(mem', 0, bs[..lo] + mid, bs[hi..], end);
  }

  /** The payload bytes of the live blocks are the same. */
  ghost predicate PayloadsKept(mem: seq<Byte>, mem': seq<Byte>, live: map<nat, nat>) {
    && |mem| == |mem'|
    && forall a, k :: a in live && a + HEADER <= k < a + HEADER + live[a] && k < |mem| ==> mem'[k] == mem[k]
  }

  /** A free block's bytes belong to no live block. */
  lemma FreeBytesNotLive(bs: seq<Block>, i: nat, a: nat)
    requires i < |bs| && !bs[i].used && a in Live(bs)
    ensures a + HEADER + Live(bs)[a] <= OffsetOf(bs, i) || OffsetOf(bs, i) + HEADER + bs[i].length <= a
  {
    LiveAround(bs, i, i + 1);
    assert bs[i..i + 1] == [bs[i]];
    LiveOne(bs[i], OffsetOf(bs, i));
    LiveBounds(bs[..i], 0);
    LiveBounds(bs[i + 1..], OffsetOf(bs, i + 1));
    hide LiveFrom;
    assert a in LiveFrom(bs[..i], 0) || a in LiveFrom(bs[i + 1..], OffsetOf(bs, i + 1));
  }

  /** Programs may write the payload of a live block: no header is there, so the chain survives. */
  lemma PayloadWriteKeepsChain(mem: seq<Byte>, mem': seq<Byte>, bs: seq<Block>, i: nat)
    requires Chain(mem, 0, bs, |mem|) && i < |bs|
    requires SameOutside(mem, mem', OffsetOf(bs, i) + HEADER, OffsetOf(bs, i) + HEADER + bs[i].length)
    ensures Chain(mem', 0, bs, |mem|)
  {
    ChainAt(mem, bs, |mem|, i);
    var p := OffsetOf(bs, i);
    SameHeader(mem, mem', p);
    ChainOne(mem', p, bs[i]);
    assert SameOutside(mem, mem', p, p + HEADER + bs[i].length);
    hide Chain, OffsetOf, HeaderAt, SameOutside;
    ChainReplace(mem, mem', bs, |mem|, i, i + 1, [bs[i]]);
    assert Replace(bs, i, i + 1, [bs[i]]) == bs;
  }

  lemma ChainOne(mem: seq<Byte>, p: nat, b: Block)
    requires p + HEADER <= |mem| && HeaderAt(mem, p) == b
    ensures Chain(mem, p, [b], p + HEADER + b.length)
  {
    assert [b][1..] == [];
  }

  lemma ChainTwo(mem: seq<Byte>, p: nat, b: Block, c: Block)
    requires p + HEADER + b.length + HEADER <= |mem| && HeaderAt(mem, p) == b
             && HeaderAt(mem, p + HEADER + b.length) == c
    ensures Chain(mem, p, [b, c], p + HEADER + b.length + HEADER + c.length)
  {
    ChainOne(mem, p + HEADER + b.length, c);
    assert [b, c][1..] == [c];
  }

  // ----- the allocator -----

  class Heap {
    var mem: array<Byte>           // the region from heapStartPtr to heapEndPtr; pointers are offsets into it
    ghost var blocks: seq<Block>

    ghost predicate Valid()
      reads this, mem
    {
      && HEADER <= mem.Length < TWO_63
      && Chain(mem[..], 0, blocks, mem.Length)
      && HeapBlocks.Valid(blocks, mem.Length)
    }

    method ReadHeader(p: nat) returns (b: Block)
      requires p + HEADER <= mem.Length
      ensures b == HeaderAt(mem[..], p)
    {
      var w := ReadWord(mem, p);
      assert mem[p..p + 8] == mem[..][p..p + HEADER];
      b := Block(w % TWO_63, w / TWO_63 == 1);
    }

    method WriteHeader(p: nat, b: Block)
      requires p + HEADER <= mem.Length && b.length < TWO_63
      modifies mem
      ensures HeaderAt(mem[..], p) == b && SameOutside(old(mem[..]), mem[..], p, p + HEADER)
    {
      HeaderReadBack(mem[..], p, b);
      WriteWord(mem, p, HeaderWord(b));
    }

    /** `init_heap_alloc` over the reserved region. */
    constructor InitHeapAlloc(region: array<Byte>)
      requires HEADER <= region.Length < TWO_63
      modifies region
      ensures Valid() && mem == region && blocks == InitialBlocks(region.Length)
    {
      mem := region;
      blocks := InitialBlocks(region.Length);
      new;
      WriteHeader(0, Block(region.Length - HEADER, false));
      ChainOne(mem[..], 0, Block(region.Length - HEADER, false));
      InitialValid(region.Length);
    }

    /** `get_next_heap_block` */
    method GetNextHeapBlock(p: nat) returns (next: nat)
      requires p + HEADER <= mem.Length
      ensures next == p + HEADER + HeaderAt(mem[..], p).length
    {
      var b := ReadHeader(p);
      next := p + HEADER + b.length;
    }

    /** `get_prev_heap_block`: the unique block that ends where block `i` starts. */
    method GetPrevHeapBlock(p: nat, ghost i: nat) returns (prev: Option<nat>)
      requires Chain(mem[..], 0, blocks, mem.Length) && i < |blocks| && p == OffsetOf(blocks, i)
      ensures prev == if i == 0 then None else Some(OffsetOf(blocks, i - 1))
    {
      var loop := 0;
      ghost var j := 0;
      while loop < p
        invariant j <= i && loop == OffsetOf(blocks, j) && (i > 0 ==> j < i)
        decreases i - j
      {
        OffsetsIncrease(blocks, j, i);
        ChainAt(mem[..], blocks, mem.Length, j);
        var next := GetNextHeapBlock(loop);
        OffsetsIncrease(blocks, j + 1, i);
        if next == p {
          return Some(loop);
        }
        loop, j := next, j + 1;
      }
      OffsetsIncrease(blocks, j, i);
      prev := None;
    }

    /** The headers that `malloc` writes into a block of `oldLength` bytes that it takes. */
    method CarveHeaders(curr: nat, size: nat, oldLength: nat)
      requires size <= oldLength < TWO_63 && curr + HEADER + oldLength <= mem.Length
      modifies mem
      ensures Chain(mem[..], curr, Carve(Block(oldLength, false), size), curr + HEADER + oldLength)
      ensures SameOutside(old(mem[..]), mem[..], curr, curr + HEADER + oldLength)
    {
      hide HeaderAt, Chain;
      WriteHeader(curr, Block(size, true));
      if oldLength > size + HEADER {
        var next := GetNextHeapBlock(curr);
        var nextLength := oldLength - size - HEADER;
        if nextLength <= HEADER {
          WriteHeader(curr, Block(oldLength, true));
          ChainOne(mem[..], curr, Block(oldLength, true));
        } else {
          ghost var between := mem[..];
          WriteHeader(next, Block(nextLength, false));
          SameHeader(between, mem[..], curr);
          ChainTwo(mem[..], curr, Block(size, true), Block(nextLength, false));
        }
      } else {
        WriteHeader(curr, Block(oldLength, true));
        ChainOne(mem[..], curr, Block(oldLength, true));
      }
    }

    /** The search of `malloc`: the lowest block that fits. */
    method FindFit(size: nat) returns (curr: Option<nat>, ghost i: nat)
      requires Valid()
      ensures curr.Some? ==> FirstFit(blocks, size) == Some(i) && curr.value == OffsetOf(blocks, i)
      ensures curr.None? ==> FirstFit(blocks, size).None?
    {
      hide HeaderAt, NoAdjacentFree;
      var p := 0;
      i := 0;
      ChainAt(mem[..], blocks, mem.Length, 0);
      var header := ReadHeader(p);
      while header.length < size || header.used
        invariant i < |blocks| && p == OffsetOf(blocks, i) && header == blocks[i]
        invariant forall j :: 0 <= j < i ==> !Fits(blocks[j], size)
        decreases |blocks| - i
      {
        ChainAt(mem[..], blocks, mem.Length, i);
        p := GetNextHeapBlock(p);
        if p >= mem.Length {
          return None, i;
        }
        i := i + 1;
        ChainAt(mem[..], blocks, mem.Length, i);
        header := ReadHeader(p);
      }
      curr := Some(p);
    }

    /** `malloc`: the offset of the payload, `None` for nullptr. Payloads of live blocks are not touched. */
    method Malloc(size: nat) returns (p: Option<nat>)
      requires Valid()
      modifies this, mem
      ensures Valid() && mem == old(mem)
      ensures (blocks, p) == HeapBlocks.Malloc(old(blocks), size)
      ensures PayloadsKept(old(mem[..]), mem[..], Live(old(blocks)))
    {
      hide HeaderAt, Live, NoAdjacentFree, OffsetOf, SameOutside, Span, PayloadsKept;
      var curr, i := FindFit(size);
      if curr.None? {
        AllKept(mem[..], Live(blocks));
        return None;
      }
      ChainAt(mem[..], blocks, mem.Length, i);
      var header := ReadHeader(curr.value);
      CarveHeaders(curr.value, size, header.length);
      ChainReplace(old(mem[..]), mem[..], blocks, mem.Length, i, i + 1, Carve(blocks[i], size));
      OutsideFreeBlock(old(mem[..]), mem[..], blocks, i);
      MallocOutcome(blocks, size, mem.Length);
      blocks := Replace(blocks, i, i + 1, Carve(blocks[i], size));
      p := Some(curr.value + HEADER);
    }

    /** The first half of `try_defragment_page`. */
    method DefragmentRight(p: nat, ghost i: nat)
      requires Chain(mem[..], 0, blocks, mem.Length) && mem.Length < TWO_63 && i < |blocks| && p == OffsetOf(blocks, i)
      modifies this`blocks, mem
      ensures Chain(mem[..], 0, blocks, mem.Length) && blocks == MergeRight(old(blocks), i)
      ensures SameOutside(old(mem[..]), mem[..], p, p + HEADER) && p == OffsetOf(blocks, i)
    {
      hide HeaderAt, Chain;
      ChainAt(mem[..], blocks, mem.Length, i);
      var right := GetNextHeapBlock(p);
      if right < mem.Length {
        ChainAt(mem[..], blocks, mem.Length, i + 1);
        var header := ReadHeader(right);
        if !header.used {
          var own := ReadHeader(p);
          var merged := Block(own.length + header.length + HEADER, own.used);
          WriteHeader(p, merged);
          ChainOne(mem[..], p, merged);
          WiderOutside(old(mem[..]), mem[..], p, p + HEADER, OffsetOf(blocks, i + 2));
          ChainReplace(old(mem[..]), mem[..], blocks, mem.Length, i, i + 2, [merged]);
          blocks := MergeRight(blocks, i);
          assert blocks[..i] == old(blocks)[..i];
        }
      }
    }

    /** The second half of `try_defragment_page`. */
    method DefragmentLeft(p: nat, ghost i: nat)
      requires Chain(mem[..], 0, blocks, mem.Length) && mem.Length < TWO_63 && i < |blocks| && p == OffsetOf(blocks, i)
      modifies this`blocks, mem
      ensures Chain(mem[..], 0, blocks, mem.Length) && blocks == MergeLeft(old(blocks), i)
      ensures if FreeAt(old(blocks), i - 1)
              then var q := OffsetOf(old(blocks), i - 1); SameOutside(old(mem[..]), mem[..], q, q + HEADER)
              else mem[..] == old(mem[..])
    {
      hide HeaderAt, Chain;
      var left := GetPrevHeapBlock(p, i);
      if left.None? {
        return;
      }
      ChainAt(mem[..], blocks, mem.Length, i);
      ChainAt(mem[..], blocks, mem.Length, i - 1);
      var header := ReadHeader(left.value);
      if !header.used {
        var own := ReadHeader(p);
        var merged := Block(header.length + own.length + HEADER, header.used);
        WriteHeader(left.value, merged);
        ChainOne(mem[..], left.value, merged);
        WiderOutside(old(mem[..]), mem[..], left.value, left.value + HEADER, OffsetOf(blocks, i + 1));
        ChainReplace(old(mem[..]), mem[..], blocks, mem.Length, i - 1, i + 1, [merged]);
        blocks := MergeLeft(blocks, i);
      }
    }

    /** `free`: the block of the live payload pointer `p` is merged with its free neighbours. */
    method Free(p: nat)
      requires Valid() && p >= HEADER && p - HEADER in Live(blocks)
      modifies this`blocks, mem
      ensures Valid() && blocks == FreePtr(old(blocks), p)
      ensures PayloadsKept(old(mem[..]), mem[..], Live(blocks))
    {
      var q := p - HEADER;
      IndexOfLive(blocks, 0, q);
      hide HeaderAt, Chain, Live, NoAdjacentFree, OffsetOf, Span, MergeLeft, MergeRight;
      ghost var i := IndexAt(blocks, 0, q).value;
      ghost var bs, m0 := blocks, mem[..];
      FreePtrOutcome(blocks, p, mem.Length);
      ChainAt(mem[..], blocks, mem.Length, i);
      var header := ReadHeader(q);
      WriteHeader(q, header.(used := false));
      ChainOne(mem[..], q, header.(used := false));
      ghost var m1 := mem[..];
      WiderOutside(m0, m1, q, q + HEADER, OffsetOf(blocks, i + 1));
      ChainReplace(m0, m1, blocks, mem.Length, i, i + 1, [header.(used := false)]);
      blocks := MarkFree(blocks, i);
      SameOffsets(bs, blocks, i);
      DefragmentRight(q, i);
      ghost var m2, b2 := mem[..], blocks;
      DefragmentLeft(q, i);
      LeftUntouched(bs, i);
      FreeKeepsPayloads(m0, m1, m2, mem[..], bs, i, q);
    }
  }

  lemma AllKept(mem: seq<Byte>, live: map<nat, nat>)
    ensures PayloadsKept(mem, mem, live)
  {
  }

  lemma WiderOutside(mem: seq<Byte>, mem': seq<Byte>, lo: nat, hi: nat, hi': nat)
    requires SameOutside(mem, mem', lo, hi) && hi <= hi' <= |mem|
    ensures SameOutside(mem, mem', lo, hi')
  {
  }

  lemma SameOffsets(bs: seq<Block>, bs': seq<Block>, i: nat)
    requires i < |bs| && bs' == MarkFree(bs, i)
    ensures OffsetOf(bs', i) == OffsetOf(bs, i)
  {
    assert bs'[..i] == bs[..i];
  }

  /** Marking block `i` and merging to its right leaves the blocks before it. */
  lemma LeftUntouched(bs: seq<Block>, i: nat)
    requires i < |bs|
    ensures var b2 := MergeRight(MarkFree(bs, i), i);
            (FreeAt(b2, i - 1) <==> FreeAt(bs, i - 1)) && (i > 0 ==> OffsetOf(b2, i - 1) == OffsetOf(bs, i - 1))
  {
    hide Span;
    var b2 := MergeRight(MarkFree(bs, i), i);
    assert b2[..i] == bs[..i];
    if i > 0 {
      assert b2[i - 1] == b2[..i][i - 1] == bs[i - 1];
      assert b2[..i - 1] == bs[..i - 1];
    }
  }

  /** The header writes of `free` lie in the freed block and in a free one, never in another live payload. */
  lemma FreeKeepsPayloads(m0: seq<Byte>, m1: seq<Byte>, m2: seq<Byte>, m3: seq<Byte>, bs: seq<Block>, i: nat, q: nat)
    requires i < |bs| && q == OffsetOf(bs, i) && q in Live(bs)
    requires SameOutside(m0, m1, q, q + HEADER) && SameOutside(m1, m2, q, q + HEADER)
    requires if FreeAt(bs, i - 1)
             then var l := OffsetOf(bs, i - 1); SameOutside(m2, m3, l, l + HEADER)
             else m3 == m2
    ensures forall live: map<nat, nat> :: live == Live(bs) - {q} ==> PayloadsKept(m0, m3, live)
  {
    hide LiveFrom, OffsetOf, Span;
    LiveBounds(bs, 0);
    forall live: map<nat, nat>, a, k |
      live == Live(bs) - {q} && a in live && a + HEADER <= k < a + HEADER + live[a] && k < |m0|
      ensures m3[k] == m0[k]
    {
      assert a in Live(bs) && Live(bs)[a] == live[a];
      assert k < q || q + HEADER <= k;
      if FreeAt(bs, i - 1) {
        FreeBytesNotLive(bs, i - 1, a);
      }
    }
  }

  lemma OutsideFreeBlock(mem: seq<Byte>, mem': seq<Byte>, bs: seq<Block>, i: nat)
    requires i < |bs| && !bs[i].used && SameOutside(mem, mem', OffsetOf(bs, i), OffsetOf(bs, i) + HEADER + bs[i].length)
    ensures PayloadsKept(mem, mem', Live(bs))
  {
    hide LiveFrom, OffsetOf, Span;
    forall a, k | a in Live(bs) && a + HEADER <= k < a + HEADER + Live(bs)[a] && k < |mem|
      ensures mem'[k] == mem[k]
    {
      FreeBytesNotLive(bs, i, a);
    }
  }

  /** Offsets grow strictly with the index. */
  lemma {:induction false} OffsetsIncrease(bs: seq<Block>, i: nat, j: nat)
    requires i <= j <= |bs|
    ensures OffsetOf(bs, i) <= OffsetOf(bs, j) && (i < j ==> OffsetOf(bs, i) < OffsetOf(bs, j))
  {
    assert bs[..j] == bs[..i] + bs[i..j];
    SpanConcat(bs[..i], bs[i..j]);
  }
}
