/** Directory slots and the entries decoded from them. */
module FatDirectory {
  import opened Words

  const SLOT_SIZE: nat := 32
  const DOT: Byte := 46
  const SPACE: Byte := 32

  type Slot = s: seq<Byte> | |s| == SLOT_SIZE witness seq(SLOT_SIZE, _ => 0)

  datatype Entry = Entry(name: string, size: nat, isDirectory: bool, firstCluster: nat)

  const CLEARED: Entry := Entry("", 0, false, 0)

  /** How the text of a long-name piece and of an 8.3 name is read from a slot. */
  datatype NameDecoder = NameDecoder(longPart: Slot -> string, shortName: Slot -> string)

  datatype Kind = End | Skipped | LongPart | File

  function Attribute(s: Slot, bit: nat): bool
    requires bit < 8
  {
    s[11] / Power2(bit) % 2 == 1
  }

  function Power2(n: nat): (p: nat)
    ensures p > 0
  {
    if n == 0 then 1 else 2 * Power2(n - 1)
  }

  /** The four low attribute bits mark a long-name piece, bit 3 alone a volume label. */
  function KindOf(s: Slot): Kind {
    if s[0] == 0 then End
    else if s[0] == DOT && s[1] == SPACE then Skipped
    else if s[0] == DOT && s[1] == DOT && s[2] == SPACE then Skipped
    else if Attribute(s, 0) && Attribute(s, 1) && Attribute(s, 2) && Attribute(s, 3) then LongPart
    else if Attribute(s, 3) then Skipped
    else File
  }

  /** The fields of a file slot, under the given name. */
  function EntryOf(s: Slot, name: string): Entry {
    Entry(name, FromLE(s[28..32]), Attribute(s, 4), FromLE(s[20..22]) * 65536 + FromLE(s[26..28]))
  }

  /**
   * A file slot with the given fields; `times` and `date` are the bytes before and between the halves of the cluster
   * number.
   */
  function FileSlot(name: seq<Byte>, attributes: Byte, times: seq<Byte>, date: seq<Byte>, cluster: nat, size: nat): Slot
    requires |name| == 11 && |times| == 8 && |date| == 4
  {
    name + [attributes] + times + ToLE(cluster / 65536, 2) + date + ToLE(cluster % 65536, 2) + ToLE(size, 4)
  }

  lemma SlotParts(name: seq<Byte>, attributes: Byte, times: seq<Byte>, date: seq<Byte>, cluster: nat, size: nat)
    requires |name| == 11 && |times| == 8 && |date| == 4
    ensures var s := FileSlot(name, attributes, times, date, cluster, size);
            && s[..11] == name && s[11] == attributes
            && s[20..22] == ToLE(cluster / 65536, 2) && s[26..28] == ToLE(cluster % 65536, 2)
            && s[28..32] == ToLE(size, 4)
  {
    hide ToLE;
  }

  /** Reading a file slot gives back its 32-bit size and cluster number and its directory bit. */
  lemma SlotReadBack(name: seq<Byte>, attributes: Byte, times: seq<Byte>, date: seq<Byte>, cluster: nat, size: nat,
                     text: string)
    requires |name| == 11 && |times| == 8 && |date| == 4 && cluster < Pow256(4) && size < Pow256(4)
    ensures EntryOf(FileSlot(name, attributes, times, date, cluster, size), text)
         == Entry(text, size, attributes / 16 % 2 == 1, cluster)
  {
    SlotParts(name, attributes, times, date, cluster, size);
    hide ToLE, FromLE, FileSlot;
    ClusterHalves(cluster);
    ReadBack(cluster / 65536, 2);
    ReadBack(cluster % 65536, 2);
    ReadBack(size, 4);
    DirectoryBit();
  }

  lemma ClusterHalves(cluster: nat)
    requires cluster < Pow256(4)
    ensures cluster / 65536 < Pow256(2) && cluster % 65536 < Pow256(2)
            && cluster / 65536 * 65536 + cluster % 65536 == cluster
  {
    assert Pow256(2) == 65536;
    assert Pow256(4) == 256 * (256 * Pow256(2));
  }

  lemma DirectoryBit()
    ensures Power2(4) == 16
  {
    assert Power2(2) == 4;
  }

  /**
   * A slot is an end mark when its first byte is 0, and skipped when its name is "." or ".." before a space; else the
   * four low attribute bits, all set, make it a long-name piece, and bit 3 without them a volume label.
   */
  lemma KindByBytes(s: Slot)
    ensures KindOf(s) == End <==> s[0] == 0
    ensures KindOf(s) == LongPart <==> s[0] != 0 && !DotName(s) && s[11] % 16 == 15
    ensures KindOf(s) == File <==> s[0] != 0 && !DotName(s) && s[11] / 8 % 2 == 0
  {
    DirectoryBit();
    LowBits(s[11]);
  }

  /** The name starts with ". " or ".. ". */
  ghost predicate DotName(s: Slot) {
    s[..2] == [46, 32] || s[..3] == [46, 46, 32]
  }

  lemma LowBits(a: Byte)
    ensures a % 16 == 15 <==> a % 2 == 1 && a / 2 % 2 == 1 && a / 4 % 2 == 1 && a / 8 % 2 == 1
  {
    LowPair(a);
    LowPair(a / 4);
    LowNibble(a / 4 / 4, a / 4 % 4, a % 4);
    HalfQuarter(a);
  }

  lemma LowNibble(h: nat, q: nat, r: nat)
    requires q < 4 && r < 4
    ensures (4 * (4 * h + q) + r) % 16 == 4 * q + r
  {
    assert 4 * (4 * h + q) + r == 16 * h + (4 * q + r);
  }

  lemma HalfQuarter(a: nat)
    ensures a / 4 / 2 == a / 8
  {
  }

  lemma LowPair(a: nat)
    ensures a % 4 == a % 2 + 2 * (a / 2 % 2)
  {
    var half := a / 2;
    LowTwo(half / 2, half % 2, a % 2);
  }

  lemma LowTwo(h: nat, b: nat, c: nat)
    requires b < 2 && c < 2
    ensures (2 * (2 * h + b) + c) % 4 == c + 2 * b
  {
    assert 2 * (2 * h + b) + c == 4 * h + (c + 2 * b);
  }

  /** The slots before the end mark. */
  function Listed(slots: seq<Slot>): (r: seq<Slot>)
    ensures |r| <= |slots| && r == slots[..|r|]
    ensures forall i :: 0 <= i < |r| ==> KindOf(r[i]) != End
    ensures |r| < |slots| ==> KindOf(slots[|r|]) == End
  {
    if slots == [] || KindOf(slots[0]) == End then [] else [slots[0]] + Listed(slots[1..])
  }

  /** The long-name pieces since the last file slot. */
  function Pieces(slots: seq<Slot>): seq<Slot> {
    if slots == [] then []
    else
      var front, last := slots[..|slots| - 1], slots[|slots| - 1];
      match KindOf(last)
      case File => []
      case LongPart => Pieces(front) + [last]
      case _ => Pieces(front)
  }

  function Text(dec: NameDecoder, pieces: seq<Slot>): string {
    if pieces == [] then "" else Text(dec, pieces[..|pieces| - 1]) + dec.longPart(pieces[|pieces| - 1])
  }

  /** The pieces, in the order in which they stand on the disk, give the name; without pieces the 8.3 name does. */
  function NameOf(dec: NameDecoder, pieces: seq<Slot>, file: Slot): string {
    if pieces == [] then dec.shortName(file) else Text(dec, pieces)
  }

  /** One entry for each file slot. */
  function Files(dec: NameDecoder, slots: seq<Slot>): (r: seq<Entry>)
    ensures |r| <= |slots|
  {
    if slots == [] then []
    else
      var front, last := slots[..|slots| - 1], slots[|slots| - 1];
      if KindOf(last) == File then Files(dec, front) + [EntryOf(last, NameOf(dec, Pieces(front), last))]
      else Files(dec, front)
  }

  lemma SlotSnoc(dec: NameDecoder, front: seq<Slot>, last: Slot)
    ensures Files(dec, front + [last])
         == if KindOf(last) == File then Files(dec, front) + [EntryOf(last, NameOf(dec, Pieces(front), last))]
            else Files(dec, front)
    ensures Pieces(front + [last])
         == match KindOf(last) case File => [] case LongPart => Pieces(front) + [last] case _ => Pieces(front)
  {
    assert (front + [last])[..|front|] == front;
  }

  lemma PieceSnoc(dec: NameDecoder, pieces: seq<Slot>, last: Slot)
    ensures Text(dec, pieces + [last]) == Text(dec, pieces) + dec.longPart(last)
  {
    assert (pieces + [last])[..|pieces|] == pieces;
  }

  /** What a directory stores about one file: its long-name pieces and its slot. */
  datatype Record = Record(pieces: seq<Slot>, file: Slot)

  ghost predicate IsRecord(r: Record) {
    KindOf(r.file) == File && forall i :: 0 <= i < |r.pieces| ==> KindOf(r.pieces[i]) == LongPart
  }

  ghost predicate AreRecords(rs: seq<Record>) {
    forall i :: 0 <= i < |rs| ==> IsRecord(rs[i])
  }

  function Encode(rs: seq<Record>): seq<Slot> {
    if rs == [] then [] else Encode(rs[..|rs| - 1]) + rs[|rs| - 1].pieces + [rs[|rs| - 1].file]
  }

  function Decoded(dec: NameDecoder, r: Record): Entry {
    EntryOf(r.file, NameOf(dec, r.pieces, r.file))
  }

  lemma {:induction false} AppendPieces(dec: NameDecoder, front: seq<Slot>, pieces: seq<Slot>)
    requires forall i :: 0 <= i < |pieces| ==> KindOf(pieces[i]) == LongPart
    ensures Files(dec, front + pieces) == Files(dec, front) && Pieces(front + pieces) == Pieces(front) + pieces
  {
    hide Files, Pieces, KindOf;
    if pieces == [] {
      assert front + pieces == front && Pieces(front) + pieces == Pieces(front);
    } else {
      var n := |pieces| - 1;
      AppendPieces(dec, front, pieces[..n]);
      SlotSnoc(dec, front + pieces[..n], pieces[n]);
      assert front + pieces == front + pieces[..n] + [pieces[n]];
      assert Pieces(front) + pieces == Pieces(front) + pieces[..n] + [pieces[n]];
    }
  }

  function DecodedAll(dec: NameDecoder, rs: seq<Record>): (es: seq<Entry>)
    ensures |es| == |rs|
  {
    seq(|rs|, i requires 0 <= i < |rs| => Decoded(dec, rs[i]))
  }

  lemma DecodedSnoc(dec: NameDecoder, rs: seq<Record>)
    requires rs != []
    ensures DecodedAll(dec, rs) == DecodedAll(dec, rs[..|rs| - 1]) + [Decoded(dec, rs[|rs| - 1])]
  {
    hide Decoded;
  }

  lemma OneRecordMore(dec: NameDecoder, front: seq<Slot>, r: Record)
    requires IsRecord(r) && Pieces(front) == []
    ensures Files(dec, front + r.pieces + [r.file]) == Files(dec, front) + [Decoded(dec, r)]
    ensures Pieces(front + r.pieces + [r.file]) == []
  {
    hide Files, Pieces, KindOf, EntryOf, NameOf;
    AppendPieces(dec, front, r.pieces);
    SlotSnoc(dec, front + r.pieces, r.file);
    assert [] + r.pieces == r.pieces;
  }

  /** The text of several long-name pieces is that of each, one behind the other. */
  lemma {:induction false} TextConcat(dec: NameDecoder, a: seq<Slot>, b: seq<Slot>)
    ensures Text(dec, a + b) == Text(dec, a) + Text(dec, b)
    ensures |b| == 1 ==> Text(dec, b) == dec.longPart(b[0])
    decreases |b|
  {
    if b == [] {
      assert a + b == a;
    } else {
      var n := |b| - 1;
      assert (a + b)[..|a + b| - 1] == a + b[..n];
      TextConcat(dec, a, b[..n]);
    }
  }

  /**
   * Reading back a directory written as records gives one entry per record, in order: with the record's own long name,
   * or the 8.3 name of its slot when it has none, and the fields of its slot.
   */
  lemma DecodeOfEncoded(dec: NameDecoder, rs: seq<Record>)
    requires AreRecords(rs)
    ensures var es := Files(dec, Encode(rs));
            && |es| == |rs|
            && forall i :: 0 <= i < |rs| ==>
                 && es[i].name == (if rs[i].pieces == [] then dec.shortName(rs[i].file) else Text(dec, rs[i].pieces))
                 && es[i] == EntryOf(rs[i].file, es[i].name)
  {
    RecordsDecoded(dec, rs);
  }

  lemma {:induction false} RecordsDecoded(dec: NameDecoder, rs: seq<Record>)
    requires AreRecords(rs)
    ensures Files(dec, Encode(rs)) == DecodedAll(dec, rs) && Pieces(Encode(rs)) == []
  {
    if rs == [] {
      NoSlots(dec);
    } else {
      hide Files, Pieces, Decoded, DecodedAll, IsRecord;
      var n := |rs| - 1;
      RecordsDecoded(dec, rs[..n]);
      OneRecordMore(dec, Encode(rs[..n]), rs[n]);
      DecodedSnoc(dec, rs);
    }
  }

  /** The slots that are neither dot entries nor volume labels. */
  function WithoutSkipped(slots: seq<Slot>): seq<Slot> {
    if slots == [] then []
    else
      var s := slots[|slots| - 1];
      WithoutSkipped(slots[..|slots| - 1]) + if KindOf(s) == Skipped then [] else [s]
  }

  /** Dot entries and volume labels have no effect, wherever they stand. */
  lemma {:induction false} SkippedHaveNoEffect(dec: NameDecoder, slots: seq<Slot>)
    ensures Files(dec, WithoutSkipped(slots)) == Files(dec, slots)
    ensures Pieces(WithoutSkipped(slots)) == Pieces(slots)
  {
    hide KindOf, EntryOf, NameOf, Files, Pieces;
    if slots != [] {
      var n := |slots| - 1;
      SkippedHaveNoEffect(dec, slots[..n]);
      assert slots == slots[..n] + [slots[n]];
      SlotSnoc(dec, slots[..n], slots[n]);
      SlotSnoc(dec, WithoutSkipped(slots[..n]), slots[n]);
      assert WithoutSkipped(slots[..n]) + [] == WithoutSkipped(slots[..n]);
    }
  }

  /** The state of the decoding loop after the slots `seen`: the element being built holds the pieces so far. */
  ghost predicate Progress(dec: NameDecoder, seen: seq<Slot>, out: seq<Entry>, count: nat, gotLongName: bool) {
    && count <= |seen| && count <= |out|
    && out[..count] == Files(dec, seen)
    && (count < |out| ==> out[count] == Entry(Text(dec, Pieces(seen)), 0, false, 0))
    && (forall k :: count < k < |out| ==> out[k] == CLEARED)
    && (gotLongName <==> Pieces(seen) != [])
  }

  lemma PartSeen(dec: NameDecoder, seen: seq<Slot>, out: seq<Entry>, count: nat, got: bool, s: Slot)
    requires Progress(dec, seen, out, count, got) && count < |out| && KindOf(s) == LongPart
    ensures Progress(dec, seen + [s], out[count := out[count].(name := out[count].name + dec.longPart(s))], count, true)
  {
    hide Files, Pieces, Text, KindOf, EntryOf;
    SlotSnoc(dec, seen, s);
    PieceSnoc(dec, Pieces(seen), s);
  }

  lemma FileSeen(dec: NameDecoder, seen: seq<Slot>, out: seq<Entry>, count: nat, got: bool, s: Slot)
    requires Progress(dec, seen, out, count, got) && count < |out| && KindOf(s) == File
    ensures Progress(dec, seen + [s],
              out[count := EntryOf(s, if got then out[count].name else dec.shortName(s))], count + 1, false)
  {
    hide Files, Pieces, Text, KindOf, EntryOf;
    SlotSnoc(dec, seen, s);
    NoSlots(dec);
    var e := EntryOf(s, if got then out[count].name else dec.shortName(s));
    assert out[count := e][..count + 1] == out[..count] + [e];
  }

  lemma SkippedSeen(dec: NameDecoder, seen: seq<Slot>, out: seq<Entry>, count: nat, got: bool, s: Slot)
    requires Progress(dec, seen, out, count, got) && KindOf(s) == Skipped
    ensures Progress(dec, seen + [s], out, count, got)
  {
    hide Files, Pieces, Text, KindOf, EntryOf;
    SlotSnoc(dec, seen, s);
  }

  /** One round of the decoding loop. */
  method DecodeSlot(dec: NameDecoder, s: Slot, outEntries: array<Entry>, count: nat, gotLongName: bool,
                    ghost seen: seq<Slot>)
    returns (newCount: nat, newGot: bool)
    requires Progress(dec, seen, outEntries[..], count, gotLongName)
    requires count < outEntries.Length && KindOf(s) != End
    modifies outEntries
    ensures count <= newCount <= count + 1 && Progress(dec, seen + [s], outEntries[..], newCount, newGot)
  {
    hide KindOf, EntryOf, Files, Pieces, Text, Progress;
    newCount, newGot := count, gotLongName;
    ghost var before := outEntries[..];
    if KindOf(s) == LongPart {
      PartSeen(dec, seen, before, count, gotLongName, s);
      var name := outEntries[count].name + dec.longPart(s);
      outEntries[count] := outEntries[count].(name := name);
      newGot := true;
    } else if KindOf(s) == File {
      FileSeen(dec, seen, before, count, gotLongName, s);
      var name := if gotLongName then outEntries[count].name else dec.shortName(s);
      newGot := false;
      outEntries[count] := EntryOf(s, name);
      newCount := count + 1;
    } else {
      SkippedSeen(dec, seen, before, count, gotLongName, s);
    }
  }

  /**
   * `get_entries_in_dir`, on an output array that was cleared and has one element per slot: every write stays in
   * that array, and its first `outEntryCount` elements are the decoded entries.
   */
  method GetEntriesInDir(dec: NameDecoder, slots: seq<Slot>, outEntries: array<Entry>) returns (outEntryCount: nat)
    requires outEntries.Length == |slots| && forall k :: 0 <= k < |slots| ==> outEntries[k] == CLEARED
    modifies outEntries
    ensures outEntryCount <= |slots| && outEntries[..outEntryCount] == Files(dec, Listed(slots))
  {
    outEntryCount := 0;
    var gotLongName := false;
    NoSlots(dec);
    assert Progress(dec, slots[..0], outEntries[..], outEntryCount, gotLongName);
    hide KindOf, EntryOf, Files, Pieces, Text, Progress, Listed;
    var i := 0;
    while i < |slots|
      invariant i <= |slots| && |Listed(slots)| >= i
      invariant outEntryCount <= i && Progress(dec, slots[..i], outEntries[..], outEntryCount, gotLongName)
    {
      EndIsFirst(slots, i);
      if KindOf(slots[i]) == End {
        break;
      }
      outEntryCount, gotLongName := DecodeSlot(dec, slots[i], outEntries, outEntryCount, gotLongName, slots[..i]);
      assert slots[..i + 1] == slots[..i] + [slots[i]];
      i := i + 1;
    }
    assert Listed(slots) == slots[..i];
    ProgressMeans(dec, slots[..i], outEntries[..], outEntryCount, gotLongName);
    assert outEntries[..][..outEntryCount] == outEntries[..outEntryCount];
  }

  lemma ProgressMeans(dec: NameDecoder, seen: seq<Slot>, out: seq<Entry>, count: nat, gotLongName: bool)
    requires Progress(dec, seen, out, count, gotLongName)
    ensures count <= |out| && out[..count] == Files(dec, seen)
  {
  }

  lemma NoSlots(dec: NameDecoder)
    ensures Files(dec, []) == [] && Pieces([]) == [] && Text(dec, []) == ""
  {
  }

  lemma EndIsFirst(slots: seq<Slot>, i: nat)
    requires i < |slots| && |Listed(slots)| >= i
    ensures |Listed(slots)| == i <==> KindOf(slots[i]) == End
  {
  }
}

/** `find_entry` and `get_entries`. */
module FatLookup {
  import opened Arith
  import opened Words
  import opened Disks
  import opened FatLayout
  import opened FatChains
  import opened FatDirectory
  import opened Splitting

  const MAX_PATH_DEPTH: nat := 64

  function Slots(bytes: seq<Byte>): (r: seq<Slot>)
    ensures |r| == |bytes| / SLOT_SIZE
  {
    seq(|bytes| / SLOT_SIZE, i requires 0 <= i < |bytes| / SLOT_SIZE => bytes[SLOT_SIZE * i..SLOT_SIZE * i + SLOT_SIZE])
  }

  function Join(slots: seq<Slot>): seq<Byte> {
    if slots == [] then [] else slots[0] + Join(slots[1..])
  }

  lemma SlotsConcat(a: seq<Byte>, b: seq<Byte>)
    requires |a| % SLOT_SIZE == 0
    ensures Slots(a + b) == Slots(a) + Slots(b)
  {
    var n := |a| / SLOT_SIZE;
    assert |a| == SLOT_SIZE * n && |Slots(a + b)| == n + |Slots(b)|;
    forall i | 0 <= i < |Slots(a + b)|
      ensures Slots(a + b)[i] == (Slots(a) + Slots(b))[i]
    {
      if i < n {
        SlotOfFirst(a, b, i);
      } else {
        SlotOfSecond(a, b, n, i - n);
      }
    }
  }

  lemma SlotOfFirst(a: seq<Byte>, b: seq<Byte>, i: nat)
    requires SLOT_SIZE * i + SLOT_SIZE <= |a|
    ensures i < |Slots(a)| && i < |Slots(a + b)| && Slots(a + b)[i] == Slots(a)[i]
  {
    assert (a + b)[SLOT_SIZE * i..SLOT_SIZE * i + SLOT_SIZE] == a[SLOT_SIZE * i..SLOT_SIZE * i + SLOT_SIZE];
  }

  lemma SlotOfSecond(a: seq<Byte>, b: seq<Byte>, n: nat, k: nat)
    requires |a| == SLOT_SIZE * n && SLOT_SIZE * k + SLOT_SIZE <= |b|
    ensures k < |Slots(b)| && n + k < |Slots(a + b)| && Slots(a + b)[n + k] == Slots(b)[k]
  {
    var at := SLOT_SIZE * (n + k);
    assert (a + b)[at..at + SLOT_SIZE] == b[SLOT_SIZE * k..SLOT_SIZE * k + SLOT_SIZE];
  }

  lemma OneSlot(s: Slot)
    ensures Slots(s) == [s]
  {
    assert s[0..SLOT_SIZE] == s;
  }

  lemma {:induction false} SlotsOfJoin(slots: seq<Slot>)
    ensures |Join(slots)| == SLOT_SIZE * |slots| && Slots(Join(slots)) == slots
  {
    if slots != [] {
      SlotsOfJoin(slots[1..]);
      SlotsConcat(slots[0], Join(slots[1..]));
      OneSlot(slots[0]);
      assert slots == [slots[0]] + slots[1..];
    }
  }

  /** The slots, one behind the other, are the bytes of the directory. */
  lemma {:induction false} SlotsJoin(bytes: seq<Byte>)
    requires |bytes| % SLOT_SIZE == 0
    ensures Join(Slots(bytes)) == bytes
    decreases |bytes|
  {
    if bytes == [] {
      assert Slots(bytes) == [];
    } else {
      var first: seq<Byte>, rest: seq<Byte> := bytes[..SLOT_SIZE], bytes[SLOT_SIZE..];
      assert bytes == first + rest;
      SlotsJoin(rest);
      SlotsConcat(first, rest);
      var slot: Slot := first;
      OneSlot(slot);
      hide Slots;
      assert ([slot] + Slots(rest))[1..] == Slots(rest);
    }
  }

  /** A mounted volume: the disk, the driver context and the way names are read. */
  datatype Volume = Volume(disk: Disk, ctx: Context, dec: NameDecoder)

  /** The entries of a directory; only its first cluster is read. */
  function DirEntries(v: Volume, cluster: nat): seq<Entry> {
    if IsDataCluster(cluster) then Files(v.dec, Listed(Slots(ReadCluster(v.disk, v.ctx, cluster)))) else []
  }

  /** Slots up to an end mark are listed. */
  lemma {:induction false} ListedUpTo(slots: seq<Slot>, rest: seq<Slot>)
    requires forall i :: 0 <= i < |slots| ==> KindOf(slots[i]) != End
    requires rest == [] || KindOf(rest[0]) == End
    ensures Listed(slots + rest) == slots
    decreases |slots|
  {
    hide KindOf;
    if slots == [] {
      assert slots + rest == rest;
    } else {
      ListedUpTo(slots[1..], rest);
      assert (slots + rest)[1..] == slots[1..] + rest;
    }
  }

  lemma {:induction false} RecordsHaveNoEnd(rs: seq<Record>)
    requires AreRecords(rs)
    ensures forall i :: 0 <= i < |Encode(rs)| ==> KindOf(Encode(rs)[i]) != End
  {
    hide KindOf;
    if rs != [] {
      var n := |rs| - 1;
      assert IsRecord(rs[n]);
      RecordsHaveNoEnd(rs[..n]);
    }
  }

  /**
   * A directory whose first cluster holds the slots of some records, and behind them nothing or an end mark, is read
   * back as the entries of those records.
   */
  lemma DirectoryReadBack(v: Volume, cluster: nat, rs: seq<Record>, rest: seq<Byte>)
    requires IsDataCluster(cluster) && AreRecords(rs)
    requires ReadCluster(v.disk, v.ctx, cluster) == Join(Encode(rs)) + rest
    requires rest == [] || (|rest| >= SLOT_SIZE && rest[0] == 0)
    ensures DirEntries(v, cluster) == DecodedAll(v.dec, rs)
  {
    hide KindOf, Files, Encode, Join, Slots, ReadCluster, DecodedAll, AreRecords;
    SlotsOfJoin(Encode(rs));
    SlotsConcat(Join(Encode(rs)), rest);
    EndFirst(rest);
    RecordsHaveNoEnd(rs);
    ListedUpTo(Encode(rs), Slots(rest));
    RecordsDecoded(v.dec, rs);
  }

  lemma EndFirst(rest: seq<Byte>)
    requires rest == [] || (|rest| >= SLOT_SIZE && rest[0] == 0)
    ensures Slots(rest) == [] || KindOf(Slots(rest)[0]) == End
  {
  }

  /** The first entry of that name, among the directories only if `dirsOnly`. */
  function FirstMatch(entries: seq<Entry>, name: string, dirsOnly: bool): Option<Entry> {
    if entries == [] then None
    else if (dirsOnly ==> entries[0].isDirectory) && entries[0].name == name then Some(entries[0])
    else FirstMatch(entries[1..], name, dirsOnly)
  }

  /** The entry `e` stands at `i`, has that name, and no earlier one does; with `dirsOnly` only directories count. */
  ghost predicate FirstNamedAt(entries: seq<Entry>, name: string, dirsOnly: bool, e: Entry, i: nat) {
    && i < |entries| && entries[i] == e && e.name == name && (dirsOnly ==> e.isDirectory)
    && forall k :: 0 <= k < i ==> entries[k].name != name || (dirsOnly && !entries[k].isDirectory)
  }

  ghost predicate FirstNamed(entries: seq<Entry>, name: string, dirsOnly: bool, e: Entry) {
    exists i: nat :: FirstNamedAt(entries, name, dirsOnly, e, i)
  }

  /** `FirstMatch` is the entry of that name with the lowest index, and none exactly when no entry has that name. */
  lemma FirstMatchIsFirst(entries: seq<Entry>, name: string, dirsOnly: bool)
    ensures var r := FirstMatch(entries, name, dirsOnly);
            && (forall e :: r == Some(e) <==> FirstNamed(entries, name, dirsOnly, e))
            && (r == None <==>
                  forall k :: 0 <= k < |entries| ==> entries[k].name != name || (dirsOnly && !entries[k].isDirectory))
  {
    var i := 0;
    while i < |entries| && (entries[i].name != name || (dirsOnly && !entries[i].isDirectory))
      invariant i <= |entries|
      invariant forall k :: 0 <= k < i ==> entries[k].name != name || (dirsOnly && !entries[k].isDirectory)
    {
      i := i + 1;
    }
    FirstMatchAt(entries, name, dirsOnly, i);
    hide FirstMatch;
    if i < |entries| {
      assert FirstNamedAt(entries, name, dirsOnly, entries[i], i);
    }
  }

  lemma {:induction false} FirstMatchAt(entries: seq<Entry>, name: string, dirsOnly: bool, i: nat)
    requires i <= |entries|
    requires forall k :: 0 <= k < i ==> entries[k].name != name || (dirsOnly && !entries[k].isDirectory)
    requires i < |entries| ==> entries[i].name == name && (dirsOnly ==> entries[i].isDirectory)
    ensures FirstMatch(entries, name, dirsOnly) == if i < |entries| then Some(entries[i]) else None
    decreases i
  {
    if i > 0 {
      FirstMatchAt(entries[1..], name, dirsOnly, i - 1);
    }
  }

  /** A first match of any kind that is a directory is also the first directory of that name. */
  lemma {:induction false} FirstDirectory(entries: seq<Entry>, name: string)
    requires var m := FirstMatch(entries, name, false); m.Some? && m.value.isDirectory
    ensures FirstMatch(entries, name, true) == FirstMatch(entries, name, false)
  {
    if entries[0].name != name {
      FirstDirectory(entries[1..], name);
    }
  }

  /** Resolution from a directory: directories for all parts but the last, an entry of any kind for the last. */
  function Resolve(v: Volume, cluster: nat, parts: seq<string>): Option<Entry>
    requires parts != []
    decreases |parts|
  {
    if |parts| == 1 then FirstMatch(DirEntries(v, cluster), parts[0], false)
    else
      match FirstMatch(DirEntries(v, cluster), parts[0], true)
      case None => None
      case Some(e) => Resolve(v, e.firstCluster, parts[1..])
  }

  /** The directory reached by a path of directories. */
  function Descend(v: Volume, cluster: nat, parts: seq<string>): Option<nat>
    decreases |parts|
  {
    if parts == [] then Some(cluster)
    else
      match FirstMatch(DirEntries(v, cluster), parts[0], true)
      case None => None
      case Some(e) => Descend(v, e.firstCluster, parts[1..])
  }

  /** Resolving a longer path is resolving its tail in the directory that its head reaches. */
  lemma {:induction false} ResolveAppend(v: Volume, cluster: nat, head: seq<string>, tail: seq<string>)
    requires tail != []
    ensures Resolve(v, cluster, head + tail)
         == match Descend(v, cluster, head) case None => None case Some(c) => Resolve(v, c, tail)
    decreases |head|
  {
    hide FirstMatch, DirEntries;
    if head == [] {
      assert head + tail == tail;
    } else {
      assert (head + tail)[1..] == head[1..] + tail;
      var m := FirstMatch(DirEntries(v, cluster), head[0], true);
      if m.Some? {
        ResolveAppend(v, m.value.firstCluster, head[1..], tail);
      }
    }
  }

  /** A path that resolves to a directory also descends into it. */
  lemma {:induction false} DescendToDirectory(v: Volume, cluster: nat, parts: seq<string>)
    requires parts != []
    requires var r := Resolve(v, cluster, parts); r.Some? && r.value.isDirectory
    ensures Descend(v, cluster, parts) == Some(Resolve(v, cluster, parts).value.firstCluster)
    decreases |parts|
  {
    hide FirstMatch, DirEntries;
    if |parts| == 1 {
      FirstDirectory(DirEntries(v, cluster), parts[0]);
      assert parts[1..] == [];
    } else {
      DescendToDirectory(v, FirstMatch(DirEntries(v, cluster), parts[0], true).value.firstCluster, parts[1..]);
    }
  }

  // ----- what resolution finds, by names alone -----

  /** The cluster of the directory reached after the directories `dirs`. */
  function Reached(cluster: nat, dirs: seq<Entry>): nat {
    if dirs == [] then cluster else dirs[|dirs| - 1].firstCluster
  }

  /** From `cluster` on, `dirs` are directories of these names, each the first of its name where it is looked up. */
  ghost predicate Leads(v: Volume, cluster: nat, names: seq<string>, dirs: seq<Entry>)
    decreases |names|
  {
    if names == [] then dirs == []
    else
      && dirs != [] && FirstNamed(DirEntries(v, cluster), names[0], true, dirs[0])
      && Leads(v, dirs[0].firstCluster, names[1..], dirs[1..])
  }

  /** Directories of the earlier parts' names lead to where `e` is the first entry of the last part's name. */
  ghost predicate FoundBy(v: Volume, cluster: nat, parts: seq<string>, dirs: seq<Entry>, e: Entry)
    requires parts != []
  {
    && Leads(v, cluster, parts[..|parts| - 1], dirs)
    && FirstNamed(DirEntries(v, Reached(cluster, dirs)), parts[|parts| - 1], false, e)
  }

  lemma {:induction false} DescendDirs(v: Volume, cluster: nat, names: seq<string>) returns (dirs: seq<Entry>)
    requires Descend(v, cluster, names).Some?
    ensures Leads(v, cluster, names, dirs) && Reached(cluster, dirs) == Descend(v, cluster, names).value
    decreases |names|
  {
    hide FirstNamed, DirEntries, FirstMatch;
    if names == [] {
      dirs := [];
    } else {
      var d := FirstMatch(DirEntries(v, cluster), names[0], true).value;
      FirstMatchIsFirst(DirEntries(v, cluster), names[0], true);
      var rest := DescendDirs(v, d.firstCluster, names[1..]);
      dirs := [d] + rest;
      assert dirs[1..] == rest;
    }
  }

  lemma {:induction false} LeadsDescend(v: Volume, cluster: nat, names: seq<string>, dirs: seq<Entry>)
    requires Leads(v, cluster, names, dirs)
    ensures Descend(v, cluster, names) == Some(Reached(cluster, dirs))
    decreases |names|
  {
    hide FirstNamed, DirEntries, FirstMatch;
    if names != [] {
      FirstMatchIsFirst(DirEntries(v, cluster), names[0], true);
      LeadsDescend(v, dirs[0].firstCluster, names[1..], dirs[1..]);
    }
  }

  /** Resolution is a descent through the parts but the last, and a search for the last. */
  lemma ResolveLast(v: Volume, cluster: nat, parts: seq<string>)
    requires parts != []
    ensures var n := |parts| - 1;
            Resolve(v, cluster, parts)
            == match Descend(v, cluster, parts[..n])
               case None => None
               case Some(c) => FirstMatch(DirEntries(v, c), parts[n], false)
  {
    hide FirstMatch, DirEntries, Descend;
    var n := |parts| - 1;
    assert parts == parts[..n] + [parts[n]];
    ResolveAppend(v, cluster, parts[..n], [parts[n]]);
  }

  /** An entry is found exactly when directories lead to where it is the first of its name. */
  lemma FoundIff(v: Volume, cluster: nat, parts: seq<string>, e: Entry)
    requires parts != []
    ensures Resolve(v, cluster, parts) == Some(e) <==> exists dirs :: FoundBy(v, cluster, parts, dirs, e)
  {
    hide FirstNamed, DirEntries, FirstMatch, Leads, Reached, Resolve, Descend;
    ResolveLast(v, cluster, parts);
    var n := |parts| - 1;
    if Descend(v, cluster, parts[..n]).Some? {
      var c := Descend(v, cluster, parts[..n]).value;
      var dirs := DescendDirs(v, cluster, parts[..n]);
      FirstMatchIsFirst(DirEntries(v, c), parts[n], false);
      assert FirstNamed(DirEntries(v, c), parts[n], false, e) ==> FoundBy(v, cluster, parts, dirs, e);
    }
    if dirs :| FoundBy(v, cluster, parts, dirs, e) {
      LeadsDescend(v, cluster, parts[..n], dirs);
    }
  }

  /** Where a part that is not the last names no directory, nothing is found. */
  lemma NoDirectoryNoEntry(v: Volume, cluster: nat, parts: seq<string>, k: nat, dirs: seq<Entry>)
    requires k + 1 < |parts| && Leads(v, cluster, parts[..k], dirs)
    requires forall e :: e in DirEntries(v, Reached(cluster, dirs)) ==> e.name != parts[k] || !e.isDirectory
    ensures Resolve(v, cluster, parts) == None
  {
    hide FirstNamed, DirEntries, FirstMatch, Leads, Reached, Descend;
    assert parts == parts[..k] + parts[k..];
    LeadsDescend(v, cluster, parts[..k], dirs);
    ResolveAppend(v, cluster, parts[..k], parts[k..]);
    FirstMatchIsFirst(DirEntries(v, Reached(cluster, dirs)), parts[k], true);
  }

  /** One leading slash is dropped. */
  function Normalized(path: string): string {
    if path != "" && path[0] == '/' then path[1..] else path
  }

  predicate IsRootPath(path: string) {
    path == "/"
  }

  function Root(v: Volume): Entry {
    Entry("", 0, true, v.ctx.rootCluster)
  }

  /** What `find_entry` finds. */
  function Find(v: Volume, path: string): Option<Entry> {
    var p := Normalized(path);
    if p == "" || IsRootPath(p) then Some(Root(v)) else Resolve(v, v.ctx.rootCluster, Split(p, '/'))
  }

  /** What `get_entries` lists. */
  function List(v: Volume, path: string): seq<Entry> {
    match Find(v, path)
    case Some(e) => if e.isDirectory then DirEntries(v, e.firstCluster) else []
    case None => []
  }

  /** The empty path, "/" and "//" give the root directory. */
  lemma FindRoot(v: Volume, path: string)
    requires path == "" || path == "/" || path == "//"
    ensures Find(v, path) == Some(Entry("", 0, true, v.ctx.rootCluster))
  {
    assert "//"[1..] == "/";
  }

  lemma FindBelowRoot(v: Volume, path: string, rel: string)
    requires rel != "" && rel != "/" && (path == "/" + rel || (path == rel && rel[0] != '/'))
    ensures Find(v, path) == Resolve(v, v.ctx.rootCluster, Split(rel, '/'))
  {
    hide Split, Resolve;
    assert ("/" + rel)[1..] == rel;
  }

  /**
   * Any other path, with or without one leading slash: an entry is found exactly when it is the first with the name of
   * the last part in the directory to which directories of the earlier parts' names lead from the root.
   */
  lemma FindIff(v: Volume, path: string, rel: string, e: Entry)
    requires rel != "" && rel != "/" && (path == "/" + rel || (path == rel && rel[0] != '/'))
    ensures Find(v, path) == Some(e) <==> exists dirs :: FoundBy(v, v.ctx.rootCluster, Split(rel, '/'), dirs, e)
  {
    hide Split, Resolve, Find, FoundBy;
    FindBelowRoot(v, path, rel);
    FoundIff(v, v.ctx.rootCluster, Split(rel, '/'), e);
  }

  /** And nothing is found when one of the earlier parts names no directory there. */
  lemma FindMissing(v: Volume, path: string, rel: string, k: nat, dirs: seq<Entry>)
    requires rel != "" && rel != "/" && (path == "/" + rel || (path == rel && rel[0] != '/'))
    requires k + 1 < |Split(rel, '/')| && Leads(v, v.ctx.rootCluster, Split(rel, '/')[..k], dirs)
    requires forall e :: e in DirEntries(v, Reached(v.ctx.rootCluster, dirs)) ==>
               e.name != Split(rel, '/')[k] || !e.isDirectory
    ensures Find(v, path) == None
  {
    hide Split, Resolve, Leads, DirEntries, Reached, Find;
    FindBelowRoot(v, path, rel);
    NoDirectoryNoEntry(v, v.ctx.rootCluster, Split(rel, '/'), k, dirs);
  }

  /** A directory is listed with all its entries, and anything else with none. */
  lemma ListMeans(v: Volume, path: string)
    ensures (exists e :: Find(v, path) == Some(e) && e.isDirectory && List(v, path) == DirEntries(v, e.firstCluster))
            || (List(v, path) == [] && forall e :: Find(v, path) == Some(e) ==> !e.isDirectory)
  {
    hide Find, DirEntries;
    var r := Find(v, path);
    if r.Some? && r.value.isDirectory {
      assert r == Some(r.value);
    }
  }

  /** A slash in front of a relative path changes nothing. */
  lemma LeadingSlash(v: Volume, path: string)
    requires path == "" || path[0] != '/'
    ensures Find(v, "/" + path) == Find(v, path)
  {
    assert ("/" + path)[1..] == path;
  }

  /** Lookup composes: below a path that is a directory, the rest is resolved in that directory. */
  lemma FindBelow(v: Volume, dir: string, rest: string)
    requires dir != "" && dir[0] != '/'
    requires var d := Find(v, dir); d.Some? && d.value.isDirectory
    ensures Find(v, dir + "/" + rest) == Resolve(v, Find(v, dir).value.firstCluster, Split(rest, '/'))
  {
    hide Split, Resolve, Descend;
    SplitAppend(dir, rest, '/');
    DescendToDirectory(v, v.ctx.rootCluster, Split(dir, '/'));
    ResolveAppend(v, v.ctx.rootCluster, Split(dir, '/'), Split(rest, '/'));
  }

  /** Listing and lookup agree: a name is found below a directory exactly as its listing has it first. */
  lemma ListingAgrees(v: Volume, dir: string, name: string)
    requires dir != "" && dir[0] != '/' && '/' !in name
    requires var d := Find(v, dir); d.Some? && d.value.isDirectory
    ensures Find(v, dir + "/" + name) == FirstMatch(List(v, dir), name, false)
  {
    hide Split, FirstMatch, DirEntries;
    FindBelow(v, dir, name);
    SplitOfPlain(name, '/');
  }

  lemma RootListingAgrees(v: Volume, name: string)
    requires name != "" && '/' !in name
    ensures Find(v, "/" + name) == FirstMatch(List(v, "/"), name, false)
  {
    hide Split, FirstMatch, DirEntries;
    SplitOfPlain(name, '/');
    assert ("/" + name)[1..] == name;
  }

  /** On a volume without empty names a path with an empty part, such as a trailing slash, finds nothing. */
  lemma {:induction false} EmptyPartNotFound(v: Volume, cluster: nat, parts: seq<string>)
    requires "" in parts
    requires forall c: nat, e | e in DirEntries(v, c) :: e.name != ""
    ensures Resolve(v, cluster, parts) == None
    decreases |parts|
  {
    hide DirEntries;
    if parts[0] == "" {
      NoEmptyName(DirEntries(v, cluster), false);
      NoEmptyName(DirEntries(v, cluster), true);
    } else {
      var m := FirstMatch(DirEntries(v, cluster), parts[0], true);
      if m.Some? {
        EmptyPartNotFound(v, m.value.firstCluster, parts[1..]);
      }
    }
  }

  lemma {:induction false} NoEmptyName(entries: seq<Entry>, dirsOnly: bool)
    requires forall e | e in entries :: e.name != ""
    ensures FirstMatch(entries, "", dirsOnly) == None
  {
    if entries != [] {
      NoEmptyName(entries[1..], dirsOnly);
    }
  }

  /** `read_dir_entries` into a freshly cleared array, as every caller uses it. */
  method ReadDirEntries(v: Volume, cluster: nat) returns (outEntries: array<Entry>, outEntryCount: nat)
    requires Usable(v.ctx)
    ensures fresh(outEntries) && outEntries.Length == v.ctx.clusterSizeInBytes / SLOT_SIZE
    ensures outEntryCount <= outEntries.Length && outEntries[..outEntryCount] == DirEntries(v, cluster)
  {
    hide Slots, Files, Listed, ReadCluster;
    outEntries := new Entry[v.ctx.clusterSizeInBytes / SLOT_SIZE](_ => CLEARED);
    outEntryCount := 0;
    if cluster < 2 || cluster >= EOC_START {
      return;
    }
    var tempBuffer := ReadSectors(v.disk, ClusterToLba(v.ctx, cluster), v.ctx.sectorsPerCluster);
    ClusterRead(v, cluster);
    outEntryCount := GetEntriesInDir(v.dec, Slots(tempBuffer), outEntries);
  }

  lemma ClusterRead(v: Volume, cluster: nat)
    ensures ReadCluster(v.disk, v.ctx, cluster)
            == ReadSectors(v.disk, ClusterToLba(v.ctx, cluster), v.ctx.sectorsPerCluster)
  {
  }

  /** The search loops of `find_entry`. */
  method Search(entries: array<Entry>, count: nat, name: string, dirsOnly: bool) returns (m: Option<Entry>)
    requires count <= entries.Length
    ensures m == FirstMatch(entries[..count], name, dirsOnly)
  {
    var j := 0;
    while j < count
      invariant j <= count
      invariant forall k :: 0 <= k < j ==> entries[k].name != name || (dirsOnly && !entries[k].isDirectory)
    {
      if (dirsOnly ==> entries[j].isDirectory) && entries[j].name == name {
        FirstMatchAt(entries[..count], name, dirsOnly, j);
        return Some(entries[j]);
      }
      j := j + 1;
    }
    FirstMatchAt(entries[..count], name, dirsOnly, count);
    m := None;
  }

  /** `find_entry`, for paths whose parts fit its table. */
  method FindEntry(v: Volume, path: string) returns (result: Option<Entry>)
    requires Usable(v.ctx) && |Split(Normalized(path), '/')| <= MAX_PATH_DEPTH
    ensures result == Find(v, path)
  {
    hide DirEntries, FirstMatch, Split, Usable;
    var normalizedPath := path;
    if path != "" && path[0] == '/' {
      normalizedPath := path[1..];
    }
    if normalizedPath == "" || IsRootPath(normalizedPath) {
      return Some(Root(v));
    }
    var pathSections, splitCount := StrSplit(normalizedPath, '/');
    var currCluster := v.ctx.rootCluster;
    assert pathSections[0..] == pathSections;
    for i := 0 to splitCount - 1
      invariant Resolve(v, v.ctx.rootCluster, pathSections) == Resolve(v, currCluster, pathSections[i..])
    {
      assert pathSections[i..][1..] == pathSections[i + 1..];
      var entries, entryCount := ReadDirEntries(v, currCluster);
      var found := Search(entries, entryCount, pathSections[i], true);
      if found == None {
        return None;
      }
      currCluster := found.value.firstCluster;
    }
    var entries, entryCount := ReadDirEntries(v, currCluster);
    result := Search(entries, entryCount, pathSections[splitCount - 1], false);
  }

  /** `get_entries`. */
  method GetEntries(v: Volume, path: string) returns (outEntries: array?<Entry>, count: nat)
    requires Usable(v.ctx) && |Split(Normalized(path), '/')| <= MAX_PATH_DEPTH
    ensures outEntries == null ==> count == 0 && List(v, path) == []
    ensures outEntries != null ==> count <= outEntries.Length && outEntries[..count] == List(v, path)
  {
    hide Split, DirEntries, Find, Usable;
    var dir := FindEntry(v, path);
    if dir == None || !dir.value.isDirectory {
      return null, 0;
    }
    outEntries, count := ReadDirEntries(v, dir.value.firstCluster);
  }
}
