/**
 * The kernel heap as a list of blocks: first-fit `malloc` with splitting, `free` with merging, and
 * the fact that the block list is determined by the live blocks alone.
 */
module HeapBlocks {
  import opened Arith

  const HEADER: nat := 8

  datatype Block = Block(length: nat, used: bool)

  /** Bytes covered by the blocks, headers included. */
  function Span(bs: seq<Block>): nat {
    if bs == [] then 0 else HEADER + bs[0].length + Span(bs[1..])
  }

  lemma {:induction false} SpanConcat(a: seq<Block>, b: seq<Block>)
    ensures Span(a + b) == Span(a) + Span(b)
  {
    if a == [] {
      assert a + b == b;
    } else {
      assert (a + b)[1..] == a[1..] + b;
      SpanConcat(a[1..], b);
    }
  }

  ghost predicate NoAdjacentFree(bs: seq<Block>) {
    forall i :: 0 <= i && i + 1 < |bs| ==> bs[i].used || bs[i + 1].used
  }

  /** The invariant of the heap of `total` bytes. */
  ghost predicate Valid(bs: seq<Block>, total: nat) {
    Span(bs) == total && NoAdjacentFree(bs)
  }

  /** The live blocks: offset of the header -> payload length, for blocks that start at `off`. */
  function LiveFrom(bs: seq<Block>, off: nat): map<nat, nat> {
    if bs == [] then map[]
    else
      var rest := LiveFrom(bs[1..], off + HEADER + bs[0].length);
      if bs[0].used then rest[off := bs[0].length] else rest
  }

  function Live(bs: seq<Block>): map<nat, nat> {
    LiveFrom(bs, 0)
  }

  /** Live blocks lie inside the region and do not overlap, headers included. */
  lemma {:induction false} LiveBounds(bs: seq<Block>, off: nat)
    ensures forall k :: k in LiveFrom(bs, off) ==> off <= k && k + HEADER + LiveFrom(bs, off)[k] <= off + Span(bs)
    ensures forall k, l :: k in LiveFrom(bs, off) && l in LiveFrom(bs, off) && k < l ==>
              k + HEADER + LiveFrom(bs, off)[k] <= l
  {
    if bs != [] {
      LiveBounds(bs[1..], off + HEADER + bs[0].length);
    }
  }

  lemma {:induction false} LiveConcat(a: seq<Block>, b: seq<Block>, off: nat)
    ensures LiveFrom(a + b, off) == LiveFrom(a, off) + LiveFrom(b, off + Span(a))
    ensures LiveFrom(a, off).Keys !! LiveFrom(b, off + Span(a)).Keys
  {
    if a == [] {
      assert a + b == b;
    } else {
      var next := off + HEADER + a[0].length;
      assert (a + b)[1..] == a[1..] + b;
      assert off + Span(a) == next + Span(a[1..]);
      LiveConcat(a[1..], b, next);
      LiveBounds(b, off + Span(a));
      var ra: map<nat, nat> := LiveFrom(a[1..], next);
      var rb: map<nat, nat> := LiveFrom(b, off + Span(a));
      var both: map<nat, nat> := ra + rb;
      assert off !in rb;
      assert both[off := a[0].length] == ra[off := a[0].length] + rb;
    }
  }

  lemma LiveOne(b: Block, off: nat)
    ensures Span([b]) == HEADER + b.length
    ensures LiveFrom([b], off) == if b.used then map[off := b.length] else map[]
  {
    assert [b][1..] == [];
    assert LiveFrom([], off + HEADER + b.length) == map[];
  }

  lemma LiveTwo(b: Block, c: Block, off: nat)
    ensures Span([b, c]) == 2 * HEADER + b.length + c.length
    ensures LiveFrom([b, c], off) == LiveFrom([b], off) + LiveFrom([c], off + HEADER + b.length)
  {
    assert [b, c] == [b] + [c];
    LiveOne(b, off);
    LiveOne(c, off);
    SpanConcat([b], [c]);
    LiveConcat([b], [c], off);
  }

  // ----- the canonical form -----

  /** The least live offset is that of the first used block. */
  lemma FirstLive(bs: seq<Block>, off: nat)
    requires NoAdjacentFree(bs) && bs != [] && !bs[0].used
    ensures |bs| == 1 ==> LiveFrom(bs, off) == map[]
    ensures |bs| > 1 ==>
              var a := off + HEADER + bs[0].length;
              a in LiveFrom(bs, off) && forall k :: k in LiveFrom(bs, off) ==> a <= k
  {
    if |bs| > 1 {
      LiveBounds(bs[1..], off + HEADER + bs[0].length);
    }
  }

  lemma UsedFirst(s: seq<Block>, t: seq<Block>, off: nat)
    requires s != [] && t != [] && LiveFrom(s, off) == LiveFrom(t, off)
    ensures s[0].used == t[0].used
    ensures s[0].used ==>
              && s[0] == t[0]
              && LiveFrom(s[1..], off + HEADER + s[0].length) == LiveFrom(t[1..], off + HEADER + s[0].length)
  {
    LiveBounds(s[1..], off + HEADER + s[0].length);
    LiveBounds(t[1..], off + HEADER + t[0].length);
    assert s[0].used <==> off in LiveFrom(s, off);
    assert t[0].used <==> off in LiveFrom(t, off);
    if s[0].used {
      assert LiveFrom(s, off)[off] == s[0].length;
      assert LiveFrom(t, off)[off] == t[0].length;
      var rs, rt := LiveFrom(s[1..], off + HEADER + s[0].length), LiveFrom(t[1..], off + HEADER + s[0].length);
      assert rs == LiveFrom(s, off) - {off};
      assert rt == LiveFrom(t, off) - {off};
    }
  }

  /** Two valid block lists over the same bytes with the same live blocks are the same list. */
  lemma {:induction false} Canonical(s: seq<Block>, t: seq<Block>, off: nat)
    requires NoAdjacentFree(s) && NoAdjacentFree(t) && Span(s) == Span(t) && LiveFrom(s, off) == LiveFrom(t, off)
    ensures s == t
    decreases |s|
  {
    if s != [] && t != [] {
      UsedFirst(s, t, off);
      if s[0].used {
        Canonical(s[1..], t[1..], off + HEADER + s[0].length);
      } else {
        FirstLive(s, off);
        FirstLive(t, off);
        if |s| == 1 {
          assert |t| == 1;
          assert Span(s) == HEADER + s[0].length && Span(t) == HEADER + t[0].length;
        } else {
          assert |t| > 1;
          assert s[0] == t[0];
          Canonical(s[1..], t[1..], off + HEADER + s[0].length);
        }
      }
      assert s == [s[0]] + s[1..] && t == [t[0]] + t[1..];
    }
  }

  // ----- malloc -----

  predicate Fits(b: Block, size: nat) {
    !b.used && b.length >= size
  }

  /** The lowest block that is free and long enough. */
  function FirstFit(bs: seq<Block>, size: nat): (r: Option<nat>)
    ensures r.Some? ==> r.value < |bs| && Fits(bs[r.value], size) && forall i :: 0 <= i < r.value ==> !Fits(bs[i], size)
    ensures r.None? ==> forall i :: 0 <= i < |bs| ==> !Fits(bs[i], size)
  {
    if bs == [] then None
    else if Fits(bs[0], size) then Some(0)
    else
      match FirstFit(bs[1..], size)
      case None =>
        assert forall i :: 0 < i < |bs| ==> bs[i] == bs[1..][i - 1];
        None
      case Some(i) =>
        assert forall i :: 0 < i < |bs| ==> bs[i] == bs[1..][i - 1];
        Some(i + 1)
  }

  /** The block cut in two when the remainder is worth it: its payload must exceed one header. */
  function Carve(b: Block, size: nat): seq<Block>
    requires b.length >= size
  {
    if b.length > size + HEADER && b.length - size - HEADER > HEADER
    then [Block(size, true), Block(b.length - size - HEADER, false)]
    else [Block(b.length, true)]
  }

  function Replace(bs: seq<Block>, lo: nat, hi: nat, mid: seq<Block>): seq<Block>
    requires lo <= hi <= |bs|
  {
    bs[..lo] + mid + bs[hi..]
  }

  function OffsetOf(bs: seq<Block>, i: nat): nat
    requires i <= |bs|
  {
    Span(bs[..i])
  }

  /** `malloc`: the new blocks and the offset of the payload; `None` is nullptr. */
  function Malloc(bs: seq<Block>, size: nat): (seq<Block>, Option<nat>) {
    match FirstFit(bs, size)
    case None => (bs, None)
    case Some(i) => (Replace(bs, i, i + 1, Carve(bs[i], size)), Some(OffsetOf(bs, i) + HEADER))
  }

  /** The live map of a list around the blocks `lo .. hi`. */
  lemma LiveAround(bs: seq<Block>, lo: nat, hi: nat)
    requires lo <= hi <= |bs|
    ensures var l, o := Span(bs[..lo]), Span(bs[..hi]);
            && o == l + Span(bs[lo..hi]) && Span(bs) == o + Span(bs[hi..])
            && Live(bs) == LiveFrom(bs[..lo], 0) + LiveFrom(bs[lo..hi], l) + LiveFrom(bs[hi..], o)
            && LiveFrom(bs[..lo], 0).Keys !! LiveFrom(bs[lo..hi], l).Keys !! LiveFrom(bs[hi..], o).Keys
  {
    hide LiveFrom, Span;
    assert bs == bs[..hi] + bs[hi..] && bs[..hi] == bs[..lo] + bs[lo..hi];
    SpanConcat(bs[..hi], bs[hi..]);
    SpanConcat(bs[..lo], bs[lo..hi]);
    LiveConcat(bs[..hi], bs[hi..], 0);
    LiveConcat(bs[..lo], bs[lo..hi], 0);
  }

  /** Replacing blocks by others of the same span replaces their live blocks and leaves the rest. */
  lemma LiveReplace(bs: seq<Block>, lo: nat, hi: nat, mid: seq<Block>)
    requires lo <= hi <= |bs| && Span(mid) == Span(bs[lo..hi])
    ensures var r := Replace(bs, lo, hi, mid);
            && Span(r) == Span(bs)
            && Live(r) == (Live(bs) - LiveFrom(bs[lo..hi], Span(bs[..lo])).Keys) + LiveFrom(mid, Span(bs[..lo]))
  {
    hide LiveFrom, Span;
    var r := Replace(bs, lo, hi, mid);
    assert r[..lo] == bs[..lo] && r[lo..lo + |mid|] == mid && r[lo + |mid|..] == bs[hi..];
    LiveAround(bs, lo, hi);
    LiveAround(r, lo, lo + |mid|);
  }

  /** A block cut in two covers the same bytes and is live at the same offset. */
  lemma CarveLive(b: Block, size: nat, off: nat)
    requires Fits(b, size)
    ensures Span(Carve(b, size)) == Span([b])
    ensures var l := if b.length > size + 2 * HEADER then size else b.length;
            && LiveFrom(Carve(b, size), off) == map[off := l] && LiveFrom([b], off) == map[]
  {
    var c := Carve(b, size);
    LiveOne(b, off);
    LiveOne(c[0], off);
    if |c| == 2 {
      LiveTwo(c[0], c[1], off);
      LiveOne(c[1], off + HEADER + c[0].length);
    }
  }

  /**
   * `malloc` is complete first-fit. It fails, changing nothing, exactly when no free block is long enough; otherwise
   * it uses the lowest one, and the heap gains one live block there, of exactly `size` bytes when more than two
   * headers would remain, and else of all the bytes of the free block.
   */
  lemma MallocOutcome(bs: seq<Block>, size: nat, total: nat)
    requires Valid(bs, total)
    ensures var (bs', r) := Malloc(bs, size);
            && Valid(bs', total)
            && (r.None? <==> forall i :: 0 <= i < |bs| ==> bs[i].used || bs[i].length < size)
            && (r.None? ==> bs' == bs)
            && (r.Some? ==> exists i: nat :: i < |bs| && Gained(bs, bs', size, r.value, i))
  {
    var f := FirstFit(bs, size);
    if f.Some? {
      MallocGains(bs, size, f.value);
      var c := Carve(bs[f.value], size);
      NoAdjacentAfterCarve(bs, f.value, size);
    }
  }

  /**
   * In the lowest block `i` that is free and long enough the heap gained the live block whose payload starts at `p`.
   * Behind it a free block begins when the rest is longer than two headers.
   */
  ghost predicate Gained(bs: seq<Block>, bs': seq<Block>, size: nat, p: nat, i: nat)
    requires i < |bs|
  {
    && p == OffsetOf(bs, i) + HEADER && !bs[i].used && bs[i].length >= size
    && (forall j :: 0 <= j < i ==> bs[j].used || bs[j].length < size)
    && p - HEADER !in Live(bs) && p - HEADER in Live(bs')
    && Live(bs') == Live(bs)[p - HEADER := if bs[i].length > size + 2 * HEADER then size else bs[i].length]
    && bs' == bs[..i] + (if bs[i].length > size + 2 * HEADER
                         then [Block(size, true), Block(bs[i].length - size - HEADER, false)]
                         else [Block(bs[i].length, true)]) + bs[i + 1..]
    && (bs[i].length > size + 2 * HEADER ==> FreeBlockAt(bs', p + size, bs[i].length - size - HEADER))
  }

  /** A free block of `length` bytes has its header at the offset `off`. */
  ghost predicate FreeBlockAt(bs: seq<Block>, off: nat, length: nat) {
    exists k: nat :: k < |bs| && OffsetOf(bs, k) == off && bs[k] == Block(length, false)
  }

  lemma MallocGains(bs: seq<Block>, size: nat, i: nat)
    requires FirstFit(bs, size) == Some(i)
    ensures var (bs', r) := Malloc(bs, size);
            i < |bs| && r.Some? && Span(bs') == Span(bs) && Gained(bs, bs', size, r.value, i)
  {
    FitOf(bs, size, i);
    CarvedLive(bs, size, i);
    CarvedShape(bs, size, i);
    NotLiveWhereFree(bs, i);
    hide LiveFrom, Span, Carve, FirstFit, Live, Replace, FreeBlockAt, Malloc, OffsetOf;
  }

  /** The list after the cut, and the remainder behind the new block. */
  lemma CarvedShape(bs: seq<Block>, size: nat, i: nat)
    requires i < |bs| && Fits(bs[i], size)
    ensures var bs' := Replace(bs, i, i + 1, Carve(bs[i], size));
            var split := bs[i].length > size + 2 * HEADER;
            && bs' == bs[..i] + (if split then [Block(size, true), Block(bs[i].length - size - HEADER, false)]
                                 else [Block(bs[i].length, true)]) + bs[i + 1..]
            && (split ==> FreeBlockAt(bs', OffsetOf(bs, i) + HEADER + size, bs[i].length - size - HEADER))
  {
    hide Span;
    if bs[i].length > size + 2 * HEADER {
      var bs' := Replace(bs, i, i + 1, Carve(bs[i], size));
      assert bs'[..i + 1] == bs[..i] + [Block(size, true)];
      SpanConcat(bs[..i], [Block(size, true)]);
      LiveOne(Block(size, true), 0);
      assert OffsetOf(bs', i + 1) == OffsetOf(bs, i) + HEADER + size;
      assert bs'[i + 1] == Block(bs[i].length - size - HEADER, false);
    }
  }

  lemma FitOf(bs: seq<Block>, size: nat, i: nat)
    requires FirstFit(bs, size) == Some(i)
    ensures i < |bs| && Fits(bs[i], size) && forall j :: 0 <= j < i ==> !Fits(bs[j], size)
    ensures Malloc(bs, size) == (Replace(bs, i, i + 1, Carve(bs[i], size)), Some(OffsetOf(bs, i) + HEADER))
  {
  }

  /** Cutting the block adds it to the live ones. */
  lemma CarvedLive(bs: seq<Block>, size: nat, i: nat)
    requires i < |bs| && Fits(bs[i], size)
    ensures var bs' := Replace(bs, i, i + 1, Carve(bs[i], size));
            var off := OffsetOf(bs, i);
            && Span(bs') == Span(bs) && off in Live(bs')
            && Live(bs') == Live(bs)[off := if bs[i].length > size + 2 * HEADER then size else bs[i].length]
  {
    hide LiveFrom, Span, Carve;
    var off := Span(bs[..i]);
    assert bs[i..i + 1] == [bs[i]];
    CarveLive(bs[i], size, off);
    LiveReplace(bs, i, i + 1, Carve(bs[i], size));
    LiveOne(bs[i], off);
    assert OffsetOf(bs, i) == off;
    assert Live(bs) - {} == Live(bs);
  }

  lemma NotLiveWhereFree(bs: seq<Block>, i: nat)
    requires i < |bs| && !bs[i].used
    ensures OffsetOf(bs, i) !in Live(bs)
  {
    hide LiveFrom, Span;
    var off := Span(bs[..i]);
    assert bs[i..i + 1] == [bs[i]];
    LiveAround(bs, i, i + 1);
    LiveBounds(bs[..i], 0);
    LiveBounds(bs[i + 1..], off + Span([bs[i]]));
    LiveOne(bs[i], off);
    assert OffsetOf(bs, i) == off;
  }

  lemma NoAdjacentAfterCarve(bs: seq<Block>, i: nat, size: nat)
    requires NoAdjacentFree(bs) && i < |bs| && Fits(bs[i], size)
    ensures NoAdjacentFree(Replace(bs, i, i + 1, Carve(bs[i], size)))
  {
    var c := Carve(bs[i], size);
    var r := Replace(bs, i, i + 1, c);
    forall k | 0 <= k && k + 1 < |r|
      ensures r[k].used || r[k + 1].used
    {
      if k + 1 < i {
        assert r[k] == bs[k] && r[k + 1] == bs[k + 1];
      } else if k >= i + |c| - 1 {
        var k' := k - |c| + 1;
        assert r[k + 1] == bs[k' + 1];
        if k == i + |c| - 1 {
          assert k' == i;
        } else {
          assert r[k] == bs[k'];
        }
      }
    }
  }

  // ----- free -----

  predicate FreeAt(bs: seq<Block>, i: int) {
    0 <= i < |bs| && !bs[i].used
  }

  function MarkFree(bs: seq<Block>, i: nat): seq<Block>
    requires i < |bs|
  {
    Replace(bs, i, i + 1, [Block(bs[i].length, false)])
  }

  function MergeRight(bs: seq<Block>, i: nat): (r: seq<Block>)
    requires i < |bs|
    ensures i < |r|
  {
    if FreeAt(bs, i + 1) then
      Replace(bs, i, i + 2, [Block(bs[i].length + bs[i + 1].length + HEADER, bs[i].used)])
    else bs
  }

  function MergeLeft(bs: seq<Block>, i: nat): seq<Block>
    requires i < |bs|
  {
    if FreeAt(bs, i - 1) then
      Replace(bs, i - 1, i + 1, [Block(bs[i - 1].length + bs[i].length + HEADER, false)])
    else bs
  }

  /** `free` of block `i`: first the right neighbour is merged in, then the result into the left one. */
  function Free(bs: seq<Block>, i: nat): seq<Block>
    requires i < |bs|
  {
    MergeLeft(MergeRight(MarkFree(bs, i), i), i)
  }

  /** The two merges together turn the block and its free neighbours into one free block. */
  function Coalesced(bs: seq<Block>, i: nat): seq<Block>
    requires i < |bs|
  {
    var lo := if FreeAt(bs, i - 1) then i - 1 else i;
    var hi := if FreeAt(bs, i + 1) then i + 2 else i + 1;
    Replace(bs, lo, hi, [Block(Span(bs[lo..hi]) - HEADER, false)])
  }

  lemma FreeIsCoalesced(bs: seq<Block>, i: nat)
    requires i < |bs|
    ensures Free(bs, i) == Coalesced(bs, i)
  {
    FreeShape(bs, i);
    CoalescedShape(bs, i);
    hide Free, Coalesced;
  }

  /** The length of the free block that takes the place of block `i` and its free neighbours. */
  function MergedLength(bs: seq<Block>, i: nat): nat
    requires i < |bs|
  {
    (if FreeAt(bs, i - 1) then bs[i - 1].length + HEADER else 0) + bs[i].length
    + (if FreeAt(bs, i + 1) then bs[i + 1].length + HEADER else 0)
  }

  lemma CoalescedShape(bs: seq<Block>, i: nat)
    requires i < |bs|
    ensures var lo := if FreeAt(bs, i - 1) then i - 1 else i;
            var hi := if FreeAt(bs, i + 1) then i + 2 else i + 1;
            Coalesced(bs, i) == bs[..lo] + [Block(MergedLength(bs, i), false)] + bs[hi..]
  {
    var lo := if FreeAt(bs, i - 1) then i - 1 else i;
    var hi := if FreeAt(bs, i + 1) then i + 2 else i + 1;
    SpanUpToThree(bs, lo, hi);
    hide Span;
  }

  lemma FreeShape(bs: seq<Block>, i: nat)
    requires i < |bs|
    ensures var lo := if FreeAt(bs, i - 1) then i - 1 else i;
            var hi := if FreeAt(bs, i + 1) then i + 2 else i + 1;
            Free(bs, i) == bs[..lo] + [Block(MergedLength(bs, i), false)] + bs[hi..]
  {
    MarkAndMergeRight(bs, i);
    hide MergeRight, MarkFree, Free;
    var right := FreeAt(bs, i + 1);
    var mid := Block(bs[i].length + (if right then bs[i + 1].length + HEADER else 0), false);
    MergedWithLeft(bs, i, mid, bs[if right then i + 2 else i + 1..]);
  }

  /** The second merge, after the first one gave `mid` and the blocks behind it. */
  lemma MergedWithLeft(bs: seq<Block>, i: nat, mid: Block, tail: seq<Block>)
    requires i < |bs| && MergeRight(MarkFree(bs, i), i) == bs[..i] + [mid] + tail
    ensures Free(bs, i) ==
              if FreeAt(bs, i - 1) then bs[..i - 1] + [Block(bs[i - 1].length + mid.length + HEADER, false)] + tail
              else bs[..i] + [mid] + tail
  {
    hide MergeRight, MarkFree, MergeLeft;
    var front := bs[..i];
    MergeLeftShape(front, mid, tail);
    if i > 0 {
      assert front[i - 1] == bs[i - 1] && front[..i - 1] == bs[..i - 1];
    }
  }

  /** What merging to the left makes of a block between its neighbours. */
  lemma MergeLeftShape(front: seq<Block>, mid: Block, tail: seq<Block>)
    ensures var n := |front|;
            MergeLeft(front + [mid] + tail, n) ==
              if FreeAt(front, n - 1) then
                front[..n - 1] + [Block(front[n - 1].length + mid.length + HEADER, false)] + tail
              else front + [mid] + tail
  {
    var n, s := |front|, front + [mid] + tail;
    assert s[n] == mid && s[n + 1..] == tail;
    if n > 0 {
      assert s[n - 1] == front[n - 1] && s[..n - 1] == front[..n - 1];
    }
  }

  lemma MarkAndMergeRight(bs: seq<Block>, i: nat)
    requires i < |bs|
    ensures var right := FreeAt(bs, i + 1);
            MergeRight(MarkFree(bs, i), i) ==
            bs[..i] + [Block(bs[i].length + (if right then bs[i + 1].length + HEADER else 0), false)]
            + bs[if right then i + 2 else i + 1..]
  {
    var s1 := MarkFree(bs, i);
    assert s1[i] == Block(bs[i].length, false) && s1[..i] == bs[..i] && s1[i + 1..] == bs[i + 1..];
    if i + 1 < |bs| {
      assert s1[i + 1] == bs[i + 1] && s1[i + 2..] == bs[i + 2..];
    }
  }

  lemma SpanUpToThree(bs: seq<Block>, lo: nat, hi: nat)
    requires lo < hi <= |bs| && hi <= lo + 3
    ensures Span(bs[lo..hi]) == HEADER + bs[lo].length + (if lo + 1 < hi then HEADER + bs[lo + 1].length else 0)
                                + (if lo + 2 < hi then HEADER + bs[lo + 2].length else 0)
  {
    var s := bs[lo..hi];
    if |s| == 1 {
      assert s == [s[0]];
      LiveOne(s[0], 0);
    } else if |s| == 2 {
      assert s == [s[0], s[1]];
      LiveTwo(s[0], s[1], 0);
    } else {
      assert s == [s[0], s[1]] + [s[2]];
      LiveTwo(s[0], s[1], 0);
      LiveOne(s[2], 0);
      SpanConcat([s[0], s[1]], [s[2]]);
    }
  }

  /** `free` of a live block keeps the invariant and removes exactly that block from the live ones. */
  lemma FreeOutcome(bs: seq<Block>, i: nat, total: nat)
    requires Valid(bs, total) && i < |bs| && bs[i].used
    ensures Valid(Free(bs, i), total)
    ensures Live(Free(bs, i)) == Live(bs) - {OffsetOf(bs, i)}
  {
    hide Free, Coalesced, Valid, Live, OffsetOf;
    FreeIsCoalesced(bs, i);
    CoalescedOutcome(bs, i, total);
  }

  lemma CoalescedOutcome(bs: seq<Block>, i: nat, total: nat)
    requires Valid(bs, total) && i < |bs| && bs[i].used
    ensures Valid(Coalesced(bs, i), total)
    ensures Live(Coalesced(bs, i)) == Live(bs) - {OffsetOf(bs, i)}
  {
    var lo := if FreeAt(bs, i - 1) then i - 1 else i;
    var hi := if FreeAt(bs, i + 1) then i + 2 else i + 1;
    MergedLive(bs, lo, i, hi);
    NoAdjacentAfterMerge(bs, lo, i, hi);
    hide LiveFrom, Live, Span, NoAdjacentFree, OffsetOf, Replace;
    MergedOutcome(bs, lo, hi, OffsetOf(bs, i));
  }

  /** One free block in the place of some that hold one live block. */
  lemma MergedOutcome(bs: seq<Block>, lo: nat, hi: nat, off: nat)
    requires lo <= hi <= |bs| && Span(bs[lo..hi]) >= HEADER && LiveFrom(bs[lo..hi], Span(bs[..lo])).Keys == {off}
    ensures var r := Replace(bs, lo, hi, [Block(Span(bs[lo..hi]) - HEADER, false)]);
            Span(r) == Span(bs) && Live(r) == Live(bs) - {off}
  {
    hide LiveFrom, Live, Span, Replace;
    var merged := Block(Span(bs[lo..hi]) - HEADER, false);
    LiveOne(merged, Span(bs[..lo]));
    LiveReplace(bs, lo, hi, [merged]);
    assert (Live(bs) - {off}) + map[] == Live(bs) - {off};
  }

  lemma NoAdjacentAfterMerge(bs: seq<Block>, lo: nat, i: nat, hi: nat)
    requires NoAdjacentFree(bs) && lo <= i < hi <= |bs|
    requires lo == (if FreeAt(bs, i - 1) then i - 1 else i) && hi == if FreeAt(bs, i + 1) then i + 2 else i + 1
    ensures forall b :: NoAdjacentFree(Replace(bs, lo, hi, [b]))
  {
    forall b, k | 0 <= k && k + 1 < |Replace(bs, lo, hi, [b])|
      ensures Replace(bs, lo, hi, [b])[k].used || Replace(bs, lo, hi, [b])[k + 1].used
    {
      var r := Replace(bs, lo, hi, [b]);
      if k + 1 < lo {
        assert r[k] == bs[k] && r[k + 1] == bs[k + 1];
      } else if k + 1 == lo {
        assert r[k] == bs[k];
      } else if k == lo {
        assert r[k + 1] == bs[hi];
      } else {
        var k' := k - 1 + hi - lo;
        assert r[k] == bs[k'] && r[k + 1] == bs[k' + 1];
      }
    }
  }

  /** Of the merged blocks only the freed one was live. */
  lemma MergedLive(bs: seq<Block>, lo: nat, i: nat, hi: nat)
    requires lo <= i < hi <= |bs| && bs[i].used && i <= lo + 1 && hi <= i + 2
    requires forall k :: lo <= k < hi && k != i ==> !bs[k].used
    ensures Span(bs[lo..hi]) >= HEADER
    ensures LiveFrom(bs[lo..hi], Span(bs[..lo])).Keys == {OffsetOf(bs, i)}
  {
    hide LiveFrom, Span;
    var off := Span(bs[..lo]);
    var left, right := bs[lo..i], bs[i + 1..hi];
    assert bs[lo..hi] == left + ([bs[i]] + right) && bs[..i] == bs[..lo] + left;
    SpanConcat(bs[..lo], left);
    SpanConcat(left, [bs[i]] + right);
    SpanConcat([bs[i]], right);
    LiveConcat(left, [bs[i]] + right, off);
    LiveConcat([bs[i]], right, off + Span(left));
    LiveOne(bs[i], off + Span(left));
    FreeOrNone(left, off);
    FreeOrNone(right, off + Span(left) + Span([bs[i]]));
  }

  lemma FreeOrNone(bs: seq<Block>, off: nat)
    requires |bs| <= 1 && forall b :: b in bs ==> !b.used
    ensures LiveFrom(bs, off) == map[]
  {
    if |bs| == 1 {
      assert bs == [bs[0]];
      LiveOne(bs[0], off);
    }
  }

  // ----- consequences of the canonical form -----

  /** The index of the block whose header is at `a`. */
  function IndexAt(bs: seq<Block>, off: nat, a: nat): Option<nat> {
    if bs == [] || a < off then None
    else if a == off then Some(0)
    else
      match IndexAt(bs[1..], off + HEADER + bs[0].length, a)
      case None => None
      case Some(i) => Some(i + 1)
  }

  lemma {:induction false} IndexOfLive(bs: seq<Block>, off: nat, a: nat)
    requires a in LiveFrom(bs, off)
    ensures var r := IndexAt(bs, off, a);
            && r.Some? && r.value < |bs| && bs[r.value] == Block(LiveFrom(bs, off)[a], true)
            && off + OffsetOf(bs, r.value) == a
  {
    LiveBounds(bs[1..], off + HEADER + bs[0].length);
    if a != off {
      IndexOfLive(bs[1..], off + HEADER + bs[0].length, a);
      var i := IndexAt(bs[1..], off + HEADER + bs[0].length, a).value;
      assert bs[..i + 1] == [bs[0]] + bs[1..][..i];
      assert bs[..i + 1][1..] == bs[1..][..i];
    } else {
      assert a !in LiveFrom(bs[1..], off + HEADER + bs[0].length);
    }
  }

  /** `free` of the payload pointer `p`. */
  function FreePtr(bs: seq<Block>, p: nat): seq<Block>
    requires p >= HEADER && p - HEADER in Live(bs)
  {
    IndexOfLive(bs, 0, p - HEADER);
    Free(bs, IndexAt(bs, 0, p - HEADER).value)
  }

  lemma FreePtrOutcome(bs: seq<Block>, p: nat, total: nat)
    requires Valid(bs, total) && p >= HEADER && p - HEADER in Live(bs)
    ensures Valid(FreePtr(bs, p), total)
    ensures Live(FreePtr(bs, p)) == Live(bs) - {p - HEADER}
  {
    IndexOfLive(bs, 0, p - HEADER);
    FreeOutcome(bs, IndexAt(bs, 0, p - HEADER).value, total);
  }

  /** Allocating and freeing the result restores the exact block list. */
  lemma MallocThenFree(bs: seq<Block>, size: nat, total: nat)
    requires Valid(bs, total) && Malloc(bs, size).1.Some?
    ensures var (bs', r) := Malloc(bs, size);
            r.value >= HEADER && r.value - HEADER in Live(bs') && FreePtr(bs', r.value) == bs
  {
    hide Malloc, LiveFrom, FreePtr;
    MallocOutcome(bs, size, total);
    var (bs', r) := Malloc(bs, size);
    FreePtrOutcome(bs', r.value, total);
    assert Live(bs') - {r.value - HEADER} == Live(bs);
    Canonical(FreePtr(bs', r.value), bs, 0);
  }

  /** Freeing two live blocks commutes. */
  lemma FreesCommute(bs: seq<Block>, p: nat, q: nat, total: nat)
    requires Valid(bs, total) && p != q && p >= HEADER && q >= HEADER && p - HEADER in Live(bs)
             && q - HEADER in Live(bs)
    ensures q - HEADER in Live(FreePtr(bs, p)) && p - HEADER in Live(FreePtr(bs, q))
    ensures FreePtr(FreePtr(bs, p), q) == FreePtr(FreePtr(bs, q), p)
  {
    hide FreePtr, LiveFrom, NoAdjacentFree, Span;
    FreePtrOutcome(bs, p, total);
    FreePtrOutcome(bs, q, total);
    FreePtrOutcome(FreePtr(bs, p), q, total);
    FreePtrOutcome(FreePtr(bs, q), p, total);
    assert Live(bs) - {p - HEADER} - {q - HEADER} == Live(bs) - {q - HEADER} - {p - HEADER};
    Canonical(FreePtr(FreePtr(bs, p), q), FreePtr(FreePtr(bs, q), p), 0);
  }

  function InitialBlocks(total: nat): seq<Block>
    requires total >= HEADER
  {
    [Block(total - HEADER, false)]
  }

  lemma InitialValid(total: nat)
    requires total >= HEADER
    ensures Valid(InitialBlocks(total), total) && Live(InitialBlocks(total)) == map[]
  {
    LiveOne(Block(total - HEADER, false), 0);
  }

  // ----- runs -----

  datatype Op = Alloc(size: nat) | Release(p: nat)

  /** Frees of pointers that are not live are not calls the kernel's callers may make; they are skipped. */
  function Step(bs: seq<Block>, op: Op): seq<Block> {
    match op
    case Alloc(size) => Malloc(bs, size).0
    case Release(p) => if p >= HEADER && p - HEADER in Live(bs) then FreePtr(bs, p) else bs
  }

  function Run(bs: seq<Block>, ops: seq<Op>): seq<Block>
    decreases |ops|
  {
    if ops == [] then bs else Run(Step(bs, ops[0]), ops[1..])
  }

  lemma StepKeeps(bs: seq<Block>, op: Op, total: nat)
    requires Valid(bs, total)
    ensures Valid(Step(bs, op), total)
    ensures forall a :: a in Live(bs) && op != Release(a + HEADER) ==>
              a in Live(Step(bs, op)) && Live(Step(bs, op))[a] == Live(bs)[a]
  {
    match op {
      case Alloc(size) => MallocOutcome(bs, size, total);
      case Release(p) =>
        if p >= HEADER && p - HEADER in Live(bs) {
          FreePtrOutcome(bs, p, total);
        }
    }
  }

  /**
   * Over every run: the blocks tile the heap exactly, no two free blocks are neighbours, live blocks
   * are disjoint, and a block stays live with its length until it is itself released.
   */
  lemma {:induction false} RunKeeps(bs: seq<Block>, ops: seq<Op>, total: nat)
    requires Valid(bs, total)
    ensures var bs' := Run(bs, ops);
            && Valid(bs', total)
            && (forall a, b :: a in Live(bs') && b in Live(bs') && a < b ==> a + HEADER + Live(bs')[a] <= b)
            && (forall a :: a in Live(bs') ==> a + HEADER + Live(bs')[a] <= total)
            && (forall a :: a in Live(bs) && Release(a + HEADER) !in ops ==>
                  a in Live(bs') && Live(bs')[a] == Live(bs)[a])
    decreases |ops|
  {
    if ops == [] {
      LiveBounds(bs, 0);
    } else {
      StepKeeps(bs, ops[0], total);
      RunKeeps(Step(bs, ops[0]), ops[1..], total);
    }
  }

  /** Whatever was allocated and freed in whatever order: with nothing live the heap is one free block. */
  lemma NothingLiveIsInitial(ops: seq<Op>, total: nat)
    requires total >= HEADER && Live(Run(InitialBlocks(total), ops)) == map[]
    ensures Run(InitialBlocks(total), ops) == InitialBlocks(total)
  {
    InitialValid(total);
    RunKeeps(InitialBlocks(total), ops, total);
    Canonical(Run(InitialBlocks(total), ops), InitialBlocks(total), 0);
  }

  /** Releasing all live blocks, in any order, gives the single initial free block. */
  lemma FreeAll(bs: seq<Block>, ps: seq<nat>, total: nat)
    requires total >= HEADER && Valid(bs, total)
    requires forall a :: a in Live(bs) ==> a + HEADER in ps
    ensures Run(bs, seq(|ps|, i requires 0 <= i < |ps| => Release(ps[i]))) == InitialBlocks(total)
  {
    FreeSome(bs, ps, total);
    InitialValid(total);
    Canonical(Run(bs, seq(|ps|, i requires 0 <= i < |ps| => Release(ps[i]))), InitialBlocks(total), 0);
  }

  lemma {:induction false} FreeSome(bs: seq<Block>, ps: seq<nat>, total: nat)
    requires Valid(bs, total)
    ensures var bs' := Run(bs, seq(|ps|, i requires 0 <= i < |ps| => Release(ps[i])));
            Valid(bs', total) && forall a :: a in Live(bs') ==> a in Live(bs) && a + HEADER !in ps
    decreases |ps|
  {
    hide FreePtr, LiveFrom, NoAdjacentFree, Span;
    if ps != [] {
      var ops := seq(|ps|, i requires 0 <= i < |ps| => Release(ps[i]));
      var rest := ps[1..];
      assert ops[1..] == seq(|rest|, i requires 0 <= i < |rest| => Release(rest[i]));
      StepKeeps(bs, ops[0], total);
      var p := ps[0];
      if p >= HEADER && p - HEADER in Live(bs) {
        FreePtrOutcome(bs, p, total);
      }
      FreeSome(Step(bs, ops[0]), rest, total);
    }
  }
}
