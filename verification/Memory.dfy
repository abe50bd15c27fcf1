/** Bytes, 64-bit little-endian words, and the word-wise loops of memory.cpp. */
module Words {
  import opened Arith

  type Byte = b: nat | b < 256

  function FromLE(s: seq<Byte>): nat {
    if s == [] then 0 else s[0] + 256 * FromLE(s[1..])
  }

  function ToLE(v: nat, n: nat): (s: seq<Byte>)
    ensures |s| == n
  {
    if n == 0 then [] else [v % 256] + ToLE(v / 256, n - 1)
  }

  function Pow256(n: nat): nat {
    if n == 0 then 1 else 256 * Pow256(n - 1)
  }

  lemma {:induction false} ReadBack(v: nat, n: nat)
    requires v < Pow256(n)
    ensures FromLE(ToLE(v, n)) == v
  {
    if n > 0 {
      ReadBack(v / 256, n - 1);
      assert ToLE(v, n)[1..] == ToLE(v / 256, n - 1);
    }
  }

  lemma {:induction false} WriteBack(s: seq<Byte>)
    ensures FromLE(s) < Pow256(|s|) && ToLE(FromLE(s), |s|) == s
  {
    if s != [] {
      WriteBack(s[1..]);
      assert FromLE(s) / 256 == FromLE(s[1..]) && FromLE(s) % 256 == s[0];
    }
  }

  /** Little-endian order: the first bytes are the low ones, and one byte is its own value. */
  lemma {:induction false} LittleEndian(low: seq<Byte>, high: seq<Byte>)
    ensures FromLE(low + high) == FromLE(low) + Pow256(|low|) * FromLE(high)
    ensures |low| == 1 ==> FromLE(low) == low[0]
  {
    if low == [] {
      assert low + high == high;
    } else {
      assert (low + high)[1..] == low[1..] + high;
      LowFirst(low + high);
      LowFirst(low);
      hide FromLE;
      LittleEndian(low[1..], high);
      Associate(Pow256(|low| - 1), FromLE(high));
    }
  }

  lemma LowFirst(s: seq<Byte>)
    requires s != []
    ensures FromLE(s) == s[0] + 256 * FromLE(s[1..])
    ensures |s| == 1 ==> FromLE(s[1..]) == 0
  {
  }

  lemma Associate(p: nat, v: nat)
    ensures 256 * (p * v) == 256 * p * v
  {
  }

  lemma Pow256Eight()
    ensures Pow256(8) == TWO_64
  {
    assert Pow256(4) == 0x1_0000_0000;
    assert Pow256(8) == 256 * (256 * (256 * (256 * Pow256(4))));
  }

  /** `w` written over `s` at `p`. */
  function Store(s: seq<Byte>, p: nat, w: seq<Byte>): (r: seq<Byte>)
    requires p + |w| <= |s|
    ensures |r| == |s|
    ensures forall k :: 0 <= k < |s| ==> r[k] == if p <= k < p + |w| then w[k - p] else s[k]
  {
    s[..p] + w + s[p + |w|..]
  }

  lemma StoreTwice(s: seq<Byte>, p: nat, a: seq<Byte>, b: seq<Byte>)
    requires p + |a| + |b| <= |s|
    ensures Store(Store(s, p, a), p + |a|, b) == Store(s, p, a + b)
  {
  }

  /** A 64-bit load. */
  method ReadWord(a: array<Byte>, p: nat) returns (v: nat)
    requires p + 8 <= a.Length
    ensures v == FromLE(a[p..p + 8]) && v < TWO_64
  {
    v := FromLE(a[p..p + 8]);
    WriteBack(a[p..p + 8]);
    Pow256Eight();
  }

  /** A 64-bit store. */
  method WriteWord(a: array<Byte>, p: nat, v: nat)
    requires p + 8 <= a.Length
    modifies a
    ensures a[..] == Store(old(a[..]), p, ToLE(v, 8))
  {
    var w := ToLE(v, 8);
    for i := 0 to 8
      invariant a[..] == Store(old(a[..]), p, w[..i])
    {
      a[p + i] := w[i];
    }
    assert w[..8] == w;
  }
}

module MemoryLoops {
  import opened Arith
  import opened Words

  const ONES: nat := 0x0101_0101_0101_0101

  function Copies(value: Byte, n: nat): (s: seq<Byte>)
    ensures |s| == n && forall i :: 0 <= i < n ==> s[i] == value
  {
    seq(n, _ => value)
  }

  /** Multiplying a byte by 0x0101010101010101 gives the word of eight such bytes. */
  lemma ClonedByte(value: Byte)
    ensures value * ONES < TWO_64 && ToLE(value * ONES, 8) == Copies(value, 8)
  {
    var s := Copies(value, 8);
    FromCopies(value, 8);
    assert FromCopiesValue(8) == ONES;
    WriteBack(s);
    Pow256Eight();
  }

  function FromCopiesValue(n: nat): nat {
    if n == 0 then 0 else 1 + 256 * FromCopiesValue(n - 1)
  }

  lemma {:induction false} FromCopies(value: Byte, n: nat)
    ensures FromLE(Copies(value, n)) == value * FromCopiesValue(n)
  {
    if n > 0 {
      FromCopies(value, n - 1);
      assert Copies(value, n)[1..] == Copies(value, n - 1);
    }
  }

  /** Appending one more piece to what was written so far. */
  lemma StoreMore(before: seq<Byte>, p: nat, s: seq<Byte>, i: nat, j: nat)
    requires i <= j <= |s| && p + |s| <= |before|
    ensures Store(Store(before, p, s[..i]), p + i, s[i..j]) == Store(before, p, s[..j])
  {
    StoreTwice(before, p, s[..i], s[i..j]);
    assert s[..i] + s[i..j] == s[..j];
  }

  lemma WholePiece(before: seq<Byte>, p: nat, s: seq<Byte>)
    requires p + |s| <= |before|
    ensures Store(before, p, s[..0]) == before && s[..|s|] == s
  {
  }

  /** The word loop of `memory_fill`. */
  method FillWords(a: array<Byte>, target: nat, value: Byte, count64: nat, ghost s: seq<Byte>)
    requires s == Copies(value, |s|) && 8 * count64 <= |s| && target + |s| <= a.Length
    modifies a
    ensures a[..] == Store(old(a[..]), target, s[..8 * count64])
  {
    hide Store, ToLE;
    var value64 := value * ONES;
    ClonedByte(value);
    ghost var before := a[..];
    WholePiece(before, target, s);
    for i := 0 to count64
      invariant a[..] == Store(before, target, s[..8 * i])
    {
      WriteWord(a, target + 8 * i, value64);
      assert s[8 * i..8 * i + 8] == Copies(value, 8);
      StoreMore(before, target, s, 8 * i, 8 * i + 8);
    }
  }

  /** A one-byte store. */
  method WriteByte(a: array<Byte>, p: nat, b: Byte)
    requires p < a.Length
    modifies a
    ensures a[..] == Store(old(a[..]), p, [b])
  {
    a[p] := b;
  }

  /** `memory_fill`: the word loop and the tail together write exactly `n` bytes of `value`. */
  method MemoryFill(a: array<Byte>, target: nat, value: Byte, n: nat)
    requires target + n <= a.Length
    modifies a
    ensures a[..] == Store(old(a[..]), target, Copies(value, n))
  {
    var count64 := n / 8;
    FillWords(a, target, value, count64, Copies(value, n));
    FillTail(a, target, value, 8 * count64, n, Copies(value, n), old(a[..]));
  }

  /** The remaining bytes of `memory_fill`. */
  method FillTail(a: array<Byte>, target: nat, value: Byte, done: nat, n: nat, ghost s: seq<Byte>,
                  ghost before: seq<Byte>)
    requires s == Copies(value, n) && done <= n && target + n <= a.Length == |before|
    requires a[..] == Store(before, target, s[..done])
    modifies a
    ensures a[..] == Store(before, target, s)
  {
    hide Store;
    WholePiece(before, target, s);
    for i := done to n
      invariant a[..] == Store(before, target, s[..i])
    {
      WriteByte(a, target + i, value);
      assert s[i..i + 1] == [value];
      StoreMore(before, target, s, i, i + 1);
    }
  }

  /** Bytes from `lo` on that a store of `w` at `p` does not reach. */
  lemma OutsideStore(before: seq<Byte>, p: nat, w: seq<Byte>, lo: nat, hi: nat)
    requires p + |w| <= |before| && lo <= hi <= |before| && (p + |w| <= lo || hi <= p)
    ensures Store(before, p, w)[lo..hi] == before[lo..hi]
  {
  }

  /** The rest of the bytes `s` to be copied is still in place. */
  ghost predicate Rest(src: seq<Byte>, from: nat, s: seq<Byte>, k: nat) {
    k <= |s| && from + |s| <= |src| && src[from + k..from + |s|] == s[k..]
  }

  lemma RestPiece(src: seq<Byte>, from: nat, s: seq<Byte>, k: nat, n: nat)
    requires Rest(src, from, s, k) && k + n <= |s|
    ensures src[from + k..from + k + n] == s[k..k + n] && Rest(src, from, s, k + n)
  {
    assert src[from + k..from + |s|][..n] == src[from + k..from + k + n] && s[k..][..n] == s[k..k + n];
    assert src[from + k..from + |s|][n..] == src[from + k + n..from + |s|] && s[k..][n..] == s[k + n..];
  }

  /** A store behind or away from the rest leaves it. */
  lemma RestStays(src: seq<Byte>, from: nat, s: seq<Byte>, k: nat, p: nat, w: seq<Byte>)
    requires Rest(src, from, s, k) && p + |w| <= |src| && (p + |w| <= from + k || from + |s| <= p)
    ensures Rest(Store(src, p, w), from, s, k)
  {
    OutsideStore(src, p, w, from + k, from + |s|);
  }

  // ----- memory_copy -----

  /** Where piece `k` of a copy begins: `c` words, then single bytes. */
  function Begin(c: nat, k: nat): nat {
    if k <= c then 8 * k else 8 * c + (k - c)
  }

  /** The target after `k` pieces, each read whole before it is written; within one array it is read from the target. */
  function Moved(target: seq<Byte>, source: seq<Byte>, same: bool, to: nat, from: nat, c: nat, k: nat): (r: seq<Byte>)
    requires to + Begin(c, k) <= |target| && from + Begin(c, k) <= |source| && (same ==> |source| == |target|)
    ensures |r| == |target|
    decreases k
  {
    if k == 0 then target
    else
      var t := Moved(target, source, same, to, from, c, k - 1);
      var lo, hi := Begin(c, k - 1), Begin(c, k);
      Store(t, to + lo, (if same then t else source)[from + lo..from + hi])
  }

  /** What `memory_copy` makes of the target. */
  function Copied(target: seq<Byte>, source: seq<Byte>, same: bool, to: nat, from: nat, n: nat): seq<Byte>
    requires to + n <= |target| && from + n <= |source| && (same ==> |source| == |target|)
  {
    AllPieces(n);
    Moved(target, source, same, to, from, n / 8, n / 8 + n % 8)
  }

  lemma AllPieces(n: nat)
    ensures Begin(n / 8, n / 8 + n % 8) == n == 8 * (n / 8) + n % 8
  {
  }

  /** Copying `n` more bytes from the rest, which may be a part of the target itself. */
  lemma PieceMoved(before: seq<Byte>, to: nat, s: seq<Byte>, k: nat, w: seq<Byte>, source: seq<Byte>, from: nat,
                   target: seq<Byte>, after: seq<Byte>, same: bool)
    requires Rest(source, from, s, k) && k + |w| <= |s| && w == s[k..k + |w|] && to + |s| <= |before|
             && from + |s| <= |source|
    requires target == Store(before, to, s[..k]) && after == Store(target, to + k, w)
    requires Forward(same, to, from, |s|) && (same ==> source == target)
    ensures after == Store(before, to, s[..k + |w|]) && Rest(source, from, s, k + |w|)
            && (same ==> Rest(after, from, s, k + |w|))
  {
    hide Store, Rest;
    RestPiece(source, from, s, k, |w|);
    StoreMore(before, to, s, k, k + |w|);
    if same {
      RestStays(target, from, s, k + |w|, to + k, w);
    }
  }

  /** Within one array the target does not start inside the source, behind its first byte. */
  ghost predicate Forward(same: bool, to: nat, from: nat, n: nat) {
    same ==> to <= from || from + n <= to
  }

  lemma RestAtStart(source: seq<Byte>, from: nat, n: nat)
    requires from + n <= |source|
    ensures Rest(source, from, source[from..from + n], 0)
  {
  }

  lemma BeginGrows(c: nat, k: nat)
    requires 0 < k
    ensures Begin(c, k - 1) < Begin(c, k)
  {
  }

  lemma MovedAtStart(target: seq<Byte>, source: seq<Byte>, same: bool, to: nat, from: nat, c: nat)
    requires to <= |target| && from <= |source| && (same ==> |source| == |target|)
    ensures Moved(target, source, same, to, from, c, 0) == target
  {
  }

  lemma MovedOnce(target: seq<Byte>, source: seq<Byte>, same: bool, to: nat, from: nat, c: nat, k: nat, t: seq<Byte>)
    requires to + Begin(c, k) <= |target| && from + Begin(c, k) <= |source| && (same ==> |source| == |target|)
    requires 0 < k && Begin(c, k - 1) < Begin(c, k) && t == Moved(target, source, same, to, from, c, k - 1)
    ensures Moved(target, source, same, to, from, c, k)
         == Store(t, to + Begin(c, k - 1), (if same then t else source)[from + Begin(c, k - 1)..from + Begin(c, k)])
  {
    hide Store, Begin;
  }

  /** As long as no piece overwrites what later ones read, the pieces together are one store. */
  lemma {:induction false} MovedRight(target: seq<Byte>, source: seq<Byte>, same: bool, to: nat, from: nat,
                                      n: nat, c: nat, k: nat)
    requires to + n <= |target| && from + n <= |source| && Begin(c, k) <= n
    requires Forward(same, to, from, n) && (same ==> source == target)
    ensures var w := source[from..from + n];
            var t := Moved(target, source, same, to, from, c, k);
            && t == Store(target, to, w[..Begin(c, k)])
            && Rest(if same then t else source, from, w, Begin(c, k))
    decreases k
  {
    hide Store, Rest, Forward, Moved;
    var w := source[from..from + n];
    if k == 0 {
      MovedAtStart(target, source, same, to, from, c);
      WholePiece(target, to, w);
      RestAtStart(source, from, n);
    } else {
      BeginGrows(c, k);
      hide Begin;
      MovedRight(target, source, same, to, from, n, c, k - 1);
      var t := Moved(target, source, same, to, from, c, k - 1);
      MovedOnce(target, source, same, to, from, c, k, t);
      NextPiece(target, to, w, Begin(c, k - 1), Begin(c, k), if same then t else source, from, t,
                Moved(target, source, same, to, from, c, k), same);
    }
  }

  lemma NextPiece(before: seq<Byte>, to: nat, s: seq<Byte>, lo: nat, hi: nat, source: seq<Byte>, from: nat,
                  target: seq<Byte>, after: seq<Byte>, same: bool)
    requires Rest(source, from, s, lo) && lo <= hi <= |s| && to + |s| <= |before| && from + |s| <= |source|
    requires target == Store(before, to, s[..lo]) && after == Store(target, to + lo, source[from + lo..from + hi])
    requires Forward(same, to, from, |s|) && (same ==> source == target)
    ensures after == Store(before, to, s[..hi]) && Rest(if same then after else source, from, s, hi)
  {
    hide Store, Rest, Forward;
    RestPiece(source, from, s, lo, hi - lo);
    PieceMoved(before, to, s, lo, s[lo..hi], source, from, target, after, same);
  }

  /**
   * A copy is right between two arrays, within one when the target does not start inside the source, and for one word.
   */
  lemma CopiedRight(target: seq<Byte>, source: seq<Byte>, same: bool, to: nat, from: nat, n: nat)
    requires to + n <= |target| && from + n <= |source| && (same ==> source == target)
    requires Forward(same, to, from, n) || n == 8
    ensures Copied(target, source, same, to, from, n) == Store(target, to, source[from..from + n])
  {
    hide Store, Forward, Moved;
    if Forward(same, to, from, n) {
      AllPieces(n);
      hide Begin;
      MovedRight(target, source, same, to, from, n, n / 8, n / 8 + n % 8);
      WholePiece(target, to, source[from..from + n]);
    } else {
      MovedAtStart(target, source, same, to, from, 1);
      MovedOnce(target, source, same, to, from, 1, 1, target);
    }
  }

  // ----- where a copy within one array goes wrong -----

  /** A byte 1 at `p` among zeros. */
  function Marked(length: nat, p: nat): (s: seq<Byte>)
    ensures |s| == length && forall i :: 0 <= i < length ==> s[i] == if i == p then 1 else 0
  {
    seq(length, i => if i == p then 1 else 0)
  }

  /** The first byte of the source, counted from its start, that is overwritten before it is read. */
  function Spoiled(to: nat, from: nat, n: nat): nat
    requires from < to
  {
    var first := Begin(n / 8, 1);
    if to - from >= first then to - from else first
  }

  lemma FirstFits(n: nat)
    requires n > 1 && n != 8
    ensures 0 < Begin(n / 8, 1) < n
  {
  }

  lemma FirstPiece(c: nat, k: nat)
    requires 0 < k
    ensures 0 == Begin(c, 0) < Begin(c, 1) <= Begin(c, k)
  {
  }

  /** Which byte stands at `p` after a store of `w` at `q`. */
  lemma MarkStored(t: seq<Byte>, q: nat, w: seq<Byte>, p: nat)
    requires q + |w| <= |t| && p < |t|
    ensures Store(t, q, w)[p] == if q <= p < q + |w| then w[p - q] else t[p]
  {
  }

  /**
   * One piece: the first one makes the copy that spoils byte `j`, the piece that holds byte `j` carries the copy on.
   */
  lemma MarkMoves(t: seq<Byte>, to: nat, from: nat, first: nat, j: nat, lo: nat, hi: nat)
    requires from < to && first > 0 && j == (if to - from >= first then to - from else first)
    requires lo < hi && to + hi <= |t| && to + j < |t| && (if lo == 0 then hi == first else first <= lo)
    requires if lo == 0 then t[from + j - (to - from)] == 1 else t[from + j] == 1 && (j < lo ==> t[to + j] == 1)
    ensures var r := Store(t, to + lo, t[from + lo..from + hi]);
            r[from + j] == 1 && (j < hi ==> r[to + j] == 1)
  {
    hide Store;
    var w := t[from + lo..from + hi];
    MarkStored(t, to + lo, w, from + j);
    MarkStored(t, to + lo, w, to + j);
  }

  /** The mark is copied to a place that a later piece reads. */
  lemma {:induction false} MarkTravels(s: seq<Byte>, to: nat, from: nat, c: nat, j: nat, k: nat)
    requires 0 < k && from < to && to + Begin(c, k) <= |s| && to + j < |s|
    requires j == if to - from >= Begin(c, 1) then to - from else Begin(c, 1)
    requires s[from + j - (to - from)] == 1
    ensures var t := Moved(s, s, true, to, from, c, k);
            t[from + j] == 1 && (j < Begin(c, k) ==> t[to + j] == 1)
    decreases k
  {
    hide Moved, Store;
    FirstPiece(c, k);
    BeginGrows(c, k);
    var t := Moved(s, s, true, to, from, c, k - 1);
    MovedOnce(s, s, true, to, from, c, k, t);
    if k == 1 {
      MovedAtStart(s, s, true, to, from, c);
    } else {
      FirstPiece(c, k - 1);
      hide Begin;
      MarkTravels(s, to, from, c, j, k - 1);
    }
    MarkMoves(t, to, from, Begin(c, 1), j, Begin(c, k - 1), Begin(c, k));
  }

  lemma CopiedWrong(length: nat, to: nat, from: nat, n: nat)
    requires from < to < from + n && to + n <= length && n != 8
    ensures var j := Spoiled(to, from, n);
            && to - from <= j < n
            && var s := Marked(length, from + j - (to - from));
            Copied(s, s, true, to, from, n) != Store(s, to, s[from..from + n])
  {
    hide Moved, Store, Begin;
    FirstFits(n);
    AllPieces(n);
    var j := Spoiled(to, from, n);
    var s := Marked(length, from + j - (to - from));
    MarkTravels(s, to, from, n / 8, j, n / 8 + n % 8);
    MarkStored(s, to, s[from..from + n], to + j);
    assert Copied(s, s, true, to, from, n)[to + j] == 1;
    assert Store(s, to, s[from..from + n])[to + j] == s[from + j] == 0;
  }

  ghost predicate CopiesRight(length: nat, to: nat, from: nat, n: nat)
    requires to + n <= length && from + n <= length
  {
    forall s: seq<Byte> :: |s| == length ==> Copied(s, s, true, to, from, n) == Store(s, to, s[from..from + n])
  }

  /**
   * Within one array, and so as `memmove`, `memory_copy` copies all contents right exactly when the target does not
   * start inside the source behind its first byte, or when exactly one word is copied.
   */
  lemma CopyIsRightIff(length: nat, to: nat, from: nat, n: nat)
    requires to + n <= length && from + n <= length
    ensures CopiesRight(length, to, from, n) <==> to <= from || from + n <= to || n == 8
  {
    if to <= from || from + n <= to || n == 8 {
      forall s: seq<Byte> | |s| == length
        ensures Copied(s, s, true, to, from, n) == Store(s, to, s[from..from + n])
      {
        CopiedRight(s, s, true, to, from, n);
      }
    } else {
      CopiedWrong(length, to, from, n);
      var j := Spoiled(to, from, n);
      assert |Marked(length, from + j - (to - from))| == length;
    }
  }

  /** Nine bytes moved up by one: the last one is a second copy of the eighth. */
  lemma OverlapExample()
    ensures var s := [1, 2, 3, 4, 5, 6, 7, 8, 9, 10];
            && Copied(s, s, true, 1, 0, 9) == [1, 1, 2, 3, 4, 5, 6, 7, 8, 8]
            && Store(s, 1, s[0..9]) == [1, 1, 2, 3, 4, 5, 6, 7, 8, 9]
  {
    hide Store, Moved;
    var s: seq<Byte> := [1, 2, 3, 4, 5, 6, 7, 8, 9, 10];
    var t: seq<Byte> := [1, 1, 2, 3, 4, 5, 6, 7, 8, 10];
    MovedAtStart(s, s, true, 1, 0, 1);
    MovedOnce(s, s, true, 1, 0, 1, 1, s);
    OverlapStores();
    MovedOnce(s, s, true, 1, 0, 1, 2, t);
  }

  lemma OverlapStores()
    ensures var s := [1, 2, 3, 4, 5, 6, 7, 8, 9, 10];
            var t := [1, 1, 2, 3, 4, 5, 6, 7, 8, 10];
            && Store(s, 1, s[0..8]) == t
            && Store(t, 9, t[8..9]) == [1, 1, 2, 3, 4, 5, 6, 7, 8, 8]
            && Store(s, 1, s[0..9]) == [1, 1, 2, 3, 4, 5, 6, 7, 8, 9]
  {
  }

  // ----- the loops -----

  lemma PartOfArray(a: array<Byte>, lo: nat, hi: nat)
    requires lo <= hi <= a.Length
    ensures a[lo..hi] == a[..][lo..hi]
  {
  }

  /** Loading a word and storing it moves its eight bytes. */
  method MoveWord(dest: array<Byte>, p: nat, src: array<Byte>, q: nat, ghost w: seq<Byte>)
    requires p + 8 <= dest.Length && q + 8 <= src.Length && w == src[q..q + 8]
    modifies dest
    ensures dest[..] == Store(old(dest[..]), p, w) && (dest != src ==> src[..] == old(src[..]))
  {
    hide Store, ToLE, FromLE;
    var word := ReadWord(src, q);
    WriteBack(w);
    WriteWord(dest, p, word);
  }

  /** Moving one byte. */
  method MoveByte(dest: array<Byte>, p: nat, src: array<Byte>, q: nat, ghost w: seq<Byte>)
    requires p < dest.Length && q < src.Length && w == src[q..q + 1]
    modifies dest
    ensures dest[..] == Store(old(dest[..]), p, w) && (dest != src ==> src[..] == old(src[..]))
  {
    assert w == [src[q]];
    hide Store;
    WriteByte(dest, p, src[q]);
  }

  lemma WordPiece(c: nat, i: nat)
    requires i < c
    ensures Begin(c, i) == 8 * i && Begin(c, i + 1) == 8 * i + 8 <= 8 * c
  {
  }

  lemma BytePiece(c: nat, i: nat)
    ensures Begin(c, c + i) == 8 * c + i
  {
  }

  /** The word loop of `memory_copy`. */
  method CopyWords(dest: array<Byte>, to: nat, src: array<Byte>, from: nat, count64: nat)
    requires to + 8 * count64 <= dest.Length && from + 8 * count64 <= src.Length
    modifies dest
    ensures dest[..] == Moved(old(dest[..]), old(src[..]), dest == src, to, from, count64, count64)
    ensures dest != src ==> src[..] == old(src[..])
  {
    hide Store, Moved;
    ghost var target, source := dest[..], src[..];
    MovedAtStart(target, source, dest == src, to, from, count64);
    for i := 0 to count64
      invariant dest[..] == Moved(target, source, dest == src, to, from, count64, i)
      invariant dest != src ==> src[..] == source
    {
      ghost var t := dest[..];
      WordPiece(count64, i);
      PartOfArray(src, from + 8 * i, from + 8 * i + 8);
      MovedOnce(target, source, dest == src, to, from, count64, i + 1, t);
      hide Begin;
      MoveWord(dest, to + 8 * i, src, from + 8 * i, src[from + 8 * i..from + 8 * i + 8]);
    }
  }

  /** The remaining bytes of `memory_copy`. */
  method CopyTail(dest: array<Byte>, to: nat, src: array<Byte>, from: nat, c: nat, tail: nat,
                  ghost target: seq<Byte>, ghost source: seq<Byte>)
    requires to + 8 * c + tail <= dest.Length == |target| && from + 8 * c + tail <= src.Length == |source|
    requires dest[..] == Moved(target, source, dest == src, to, from, c, c)
    requires dest != src ==> src[..] == source
    modifies dest
    ensures dest[..] == Moved(target, source, dest == src, to, from, c, c + tail)
  {
    hide Store, Moved;
    for i := 0 to tail
      invariant dest[..] == Moved(target, source, dest == src, to, from, c, c + i)
      invariant dest != src ==> src[..] == source
    {
      ghost var t := dest[..];
      var p, q := to + 8 * c + i, from + 8 * c + i;
      BytePiece(c, i);
      BytePiece(c, i + 1);
      PartOfArray(src, q, q + 1);
      MovedOnce(target, source, dest == src, to, from, c, c + i + 1, t);
      hide Begin;
      MoveByte(dest, p, src, q, src[q..q + 1]);
    }
  }

  /** `memory_copy`: word by word and then byte by byte, within one array or between two. */
  method MemoryCopy(dest: array<Byte>, to: nat, src: array<Byte>, from: nat, n: nat)
    requires to + n <= dest.Length && from + n <= src.Length
    modifies dest
    ensures dest[..] == Copied(old(dest[..]), old(src[..]), dest == src, to, from, n)
    ensures Forward(dest == src, to, from, n) || n == 8
            ==> dest[..] == Store(old(dest[..]), to, old(src[from..from + n]))
  {
    hide Store, Moved, Forward;
    ghost var target, source := dest[..], src[..];
    AllPieces(n);
    PartOfArray(src, from, from + n);
    CopyWords(dest, to, src, from, n / 8);
    CopyTail(dest, to, src, from, n / 8, n % 8, target, source);
    if Forward(dest == src, to, from, n) || n == 8 {
      CopiedRight(target, source, dest == src, to, from, n);
    }
  }
}
