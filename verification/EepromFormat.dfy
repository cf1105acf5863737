/**
 The EEPROM partitions of the firmware flash (unit/eeprom.c), described declaratively:
 where a block's bytes lie, what an index entry means, and which block a lookup must return.
 */
module EepromFormat {
  import opened Bytes
  import opened BitMath

  datatype Layout = SG | NSG
  datatype PartitionType = EELITE | EEFULL

  /** A partition starts at `base` of the flash image. */
  datatype Partition = Partition(base: nat, layout: Layout) {
    function Size(): nat {
      if layout == SG then 2 * PARTITION_BLOCK_SIZE else 4 * PARTITION_BLOCK_SIZE
    }

    function EntrySize(): nat {
      if layout == SG then 16 else 32
    }

    function EntryCount(): nat {
      Size() / EntrySize() - 1
    }

    predicate Fits(flash: seq<Byte>) {
      base + Size() <= |flash|
    }

    /** Offset of an index entry; entries grow down from the end, below the header for NSG. */
    function EntryOffset(number: nat): (offset: nat)
      requires 1 <= number <= EntryCount()
      ensures offset + EntrySize() <= Size() && Aligned(offset)
    {
      assert Size() - 16 * number == 16 * (Size() / 16 - number);
      assert Size() - 32 * number - 32 == 32 * (Size() / 32 - number - 1);
      if layout == SG then Size() - 16 * number else Size() - 32 * number - 32
    }

    /** Entries start at multiples of their size. */
    predicate Aligned(offset: nat) {
      if layout == SG then offset % 16 == 0 else offset % 32 == 0
    }
  }

  const PARTITION_BLOCK_SIZE: nat := 0x1_0000
  const PARTITION_MARKER: Word32 := 0xFFFF_FFF0
  const STATE_MASK: Word32 := 0xAAAA_AAAA
  const STATE_FREE: Word32 := 0xAAAA_AAAA
  const STATE_WRITING: Word32 := 0xAAAA_AAA8
  const STATE_VALID: Word32 := 0xAAAA_AA80
  const STATE_OBSOLETE: Word32 := 0xAAAA_AA00
  const EEFULL_ID_BASE: nat := 5000
  const INLINE_CAPACITY: nat := 0x200

  // ----- striped inline storage

  /** The k-th offset whose bit 4 is clear. */
  function Slot(k: nat): (offset: nat)
    ensures offset / 16 % 2 == 0
  {
    32 * (k / 16) + k % 16
  }

  /** Slots are strictly increasing, and every offset with bit 4 clear is one. */
  lemma SlotsIncrease(j: nat, k: nat)
    requires j < k
    ensures Slot(j) < Slot(k)
  {
    if j / 16 == k / 16 {
      assert j % 16 < k % 16;
    } else {
      assert j / 16 + 1 <= k / 16;
    }
  }

  lemma SlotOnto(offset: nat)
    requires offset / 16 % 2 == 0
    ensures Slot(offset / 32 * 16 + offset % 16) == offset
  {
    var a, r := offset / 32, offset % 32;
    assert offset == a * 32 + r;
    if r >= 16 {
      QuotientIs(offset, 16, 2 * a + 1, r - 16);
      assert false;
    } else {
      QuotientIs(offset, 16, 2 * a, r);
      QuotientIs(a * 16 + r, 16, a, r);
    }
  }

  /** `size` inline bytes fit below an entry when it has a row of its own for each 16 of them and one more. */
  predicate InlineFits(entryOffset: nat, size: nat) {
    entryOffset >= 32 * (size / 16 + 1)
  }

  /** Inline bytes fill the slots right below the 16 bytes before the entry, last byte last. */
  function InlineOffset(entryOffset: nat, size: nat, i: nat): (offset: nat)
    requires InlineFits(entryOffset, size) && i < size
  {
    Slot(entryOffset / 2 - size + i)
  }

  lemma InlineLastByte(entryOffset: nat, size: nat)
    requires entryOffset % 32 == 0 && InlineFits(entryOffset, size) && 0 < size
    ensures InlineOffset(entryOffset, size, size - 1) == entryOffset - 17
  {
    var k := entryOffset / 2 - 1;
    assert entryOffset == 32 * (entryOffset / 32);
    assert k == 16 * (entryOffset / 32 - 1) + 15;
  }

  lemma InlineBelowEntry(entryOffset: nat, size: nat, i: nat)
    requires entryOffset % 32 == 0 && InlineFits(entryOffset, size) && i < size
    ensures InlineOffset(entryOffset, size, i) <= entryOffset - 17
  {
    InlineLastByte(entryOffset, size);
    if i < size - 1 {
      SlotsIncrease(entryOffset / 2 - size + i, entryOffset / 2 - 1);
    }
  }

  // ----- one index entry

  datatype Outcome = Ok(contents: seq<Byte>, version: Byte) | NotFound | NoPartition | Invalid

  function At(flash: seq<Byte>, p: Partition, offset: nat): Byte
    requires p.Fits(flash) && offset < p.Size()
  {
    flash[p.base + offset]
  }

  function WordAt(flash: seq<Byte>, p: Partition, offset: nat): Word32
    requires p.Fits(flash) && offset + 4 <= p.Size()
  {
    Word32At(flash, p.base + offset)
  }

  function HalfAt(flash: seq<Byte>, p: Partition, offset: nat): nat
    requires p.Fits(flash) && offset + 2 <= p.Size()
  {
    Word16(flash[p.base + offset], flash[p.base + offset + 1])
  }

  function InlineLimit(t: PartitionType): nat {
    if t == EEFULL then 0x200 else 0x10
  }

  function StoredSize(flash: seq<Byte>, p: Partition, t: PartitionType, entry: nat): Word32
    requires p.Fits(flash) && entry + p.EntrySize() <= p.Size()
  {
    if p.layout == NSG && t == EELITE then HalfAt(flash, p, entry + 8) else WordAt(flash, p, entry + 8)
  }

  /** The bytes an entry refers to, metadata included; None when they do not lie inside the partition. */
  function Stored(flash: seq<Byte>, p: Partition, t: PartitionType, entry: nat): (r: Option<seq<Byte>>)
    requires p.Fits(flash) && entry + p.EntrySize() <= p.Size() && p.Aligned(entry)
    ensures r.Some? ==> 0 < |r.value| <= p.Size()
  {
    var size := StoredSize(flash, p, t, entry);
    if size == 0 then None
    else if p.layout == NSG && size <= InlineLimit(t) then
      if !InlineFits(entry, size) then None
      else Some(seq(size, i requires 0 <= i < size =>
                  (InlineBelowEntry(entry, size, i); At(flash, p, InlineOffset(entry, size, i)))))
    else
      var offset := WordAt(flash, p, entry + 12);
      if offset + size > p.Size() then None
      else Some(flash[p.base + offset..p.base + offset + size])
  }

  /** Versions with the top bit set carry six bytes of metadata, except the erased value. */
  function MetadataSize(version: Byte): (n: nat)
    ensures 1 <= n
  {
    if version >= 0x80 && version != 0xFF then 6 else 1
  }

  /**
   What the stored bytes say: EEFULL leads with its version, SG EELITE ends with it, NSG EELITE has it
   in the entry.
   */
  function Decoded(flash: seq<Byte>, p: Partition, t: PartitionType, entry: nat): Outcome
    requires p.Fits(flash) && entry + p.EntrySize() <= p.Size() && p.Aligned(entry)
  {
    match Stored(flash, p, t, entry)
    case None => Invalid
    case Some(bytes) =>
      if t == EEFULL then
        var metadata := MetadataSize(bytes[0]);
        if |bytes| < metadata then Invalid
        else Ok(bytes[1..1 + |bytes| - metadata], bytes[0])
      else if p.layout == SG then Ok(bytes[..|bytes| - 1], bytes[|bytes| - 1])
      else Ok(bytes, At(flash, p, entry + 7))
  }

  datatype Kind = Broken | Free | Other | Match

  function StateAt(flash: seq<Byte>, p: Partition, entry: nat): nat
    requires p.Fits(flash) && entry + p.EntrySize() <= p.Size()
  {
    And(WordAt(flash, p, entry), STATE_MASK)
  }

  predicate KnownState(state: nat) {
    state == STATE_FREE || state == STATE_WRITING || state == STATE_VALID || state == STATE_OBSOLETE
  }

  function EntryId(flash: seq<Byte>, p: Partition, t: PartitionType, entry: nat): nat
    requires p.Fits(flash) && entry + p.EntrySize() <= p.Size()
  {
    if p.layout == NSG && t == EELITE then HalfAt(flash, p, entry + 4) else WordAt(flash, p, entry + 4)
  }

  /** EELITE numbers blocks below 5000; EEFULL from 5000, stored less that base. */
  predicate IdInRange(t: PartitionType, id: nat) {
    if t == EELITE then id < EEFULL_ID_BASE else id + EEFULL_ID_BASE < WORD
  }

  function BlockId(t: PartitionType, id: nat): nat {
    if t == EELITE then id else id + EEFULL_ID_BASE
  }

  /**
   What an entry is to a lookup of `id`. An unreadable entry ends an SG search but is skipped in NSG,
   and so is a free one.
   */
  function KindOf(flash: seq<Byte>, p: Partition, t: PartitionType, id: nat, entry: nat): Kind
    requires p.Fits(flash) && entry + p.EntrySize() <= p.Size()
  {
    var state, entryId := StateAt(flash, p, entry), EntryId(flash, p, t, entry);
    if !KnownState(state) then (if p.layout == SG then Broken else Other)
    else if state == STATE_FREE && p.layout == SG then Free
    else if state != STATE_VALID then Other
    else if !IdInRange(t, entryId) then (if p.layout == SG then Broken else Other)
    else if BlockId(t, entryId) == id then Match
    else Other
  }

  function KindAt(flash: seq<Byte>, p: Partition, t: PartitionType, id: nat, number: nat): Kind
    requires p.Fits(flash) && 1 <= number <= p.EntryCount()
  {
    KindOf(flash, p, t, id, p.EntryOffset(number))
  }

  function DecodedAt(flash: seq<Byte>, p: Partition, t: PartitionType, number: nat): Outcome
    requires p.Fits(flash) && 1 <= number <= p.EntryCount()
  {
    Decoded(flash, p, t, p.EntryOffset(number))
  }

  // ----- a partition

  ghost predicate Matches(flash: seq<Byte>, p: Partition, t: PartitionType, id: nat, k: nat)
    requires p.Fits(flash)
  {
    1 <= k <= p.EntryCount() && KindAt(flash, p, t, id, k) == Match
  }

  /** Entry `k` is the first that is not simply passed over. */
  ghost predicate Decides(flash: seq<Byte>, p: Partition, t: PartitionType, id: nat, k: nat)
    requires p.Fits(flash)
  {
    && 1 <= k <= p.EntryCount()
    && KindAt(flash, p, t, id, k) != Other
    && forall j :: 1 <= j < k ==> KindAt(flash, p, t, id, j) == Other
  }

  /** SG: the first entry that is free, broken or matching settles the search. */
  ghost predicate SgFinds(flash: seq<Byte>, p: Partition, t: PartitionType, id: nat, o: Outcome)
    requires p.Fits(flash)
  {
    || (exists k: nat :: Decides(flash, p, t, id, k) &&
          o == match KindAt(flash, p, t, id, k)
               case Broken => Invalid
               case Free => NotFound
               case _ => DecodedAt(flash, p, t, k))
    || (o == NotFound && forall j :: 1 <= j <= p.EntryCount() ==> KindAt(flash, p, t, id, j) == Other)
  }

  /** NSG: the last matching entry wins, provided every matching entry decodes. */
  ghost predicate NsgFinds(flash: seq<Byte>, p: Partition, t: PartitionType, id: nat, o: Outcome)
    requires p.Fits(flash)
  {
    if exists k: nat :: Matches(flash, p, t, id, k) && DecodedAt(flash, p, t, k) == Invalid then o == Invalid
    else
      || (exists k: nat :: Matches(flash, p, t, id, k) && o == DecodedAt(flash, p, t, k)
            && forall j: nat :: Matches(flash, p, t, id, j) ==> j <= k)
      || (o == NotFound && forall j: nat :: !Matches(flash, p, t, id, j))
  }

  ghost predicate PartitionFinds(flash: seq<Byte>, p: Partition, t: PartitionType, id: nat, o: Outcome)
    requires p.Fits(flash)
  {
    if p.layout == SG then SgFinds(flash, p, t, id, o) else NsgFinds(flash, p, t, id, o)
  }

  // ----- the flash image

  function NameOf(t: PartitionType): (name: seq<Byte>)
    ensures |name| == 8
  {
    if t == EELITE then [0x45, 0x45, 0x4C, 0x49, 0x54, 0x45, 0, 0]
    else [0x45, 0x45, 0x46, 0x55, 0x4C, 0x4C, 0, 0]
  }

  /** A header names the type, carries the marker and is padded with erased bytes; bytes 8 and 9 are free. */
  ghost predicate HeaderAt(flash: seq<Byte>, at: nat, size: nat, name: seq<Byte>)
    requires at + size <= |flash| && 16 <= size
  {
    && flash[at..at + 8] == name
    && Word16(flash[at + 10], flash[at + 11]) == 0
    && Word32At(flash, at + 12) == PARTITION_MARKER
    && forall i :: at + 16 <= i < at + size ==> flash[i] == 0xFF
  }

  /** An SG partition starts at the flash block that holds its header; an NSG one ends with it, three blocks later. */
  ghost function PartitionAt(flash: seq<Byte>, t: PartitionType, index: nat): (r: Option<Partition>)
    requires (index + 1) * PARTITION_BLOCK_SIZE <= |flash|
    ensures r.Some? ==> r.value.Fits(flash)
  {
    var offset := index * PARTITION_BLOCK_SIZE;
    if offset + 2 * PARTITION_BLOCK_SIZE <= |flash| && HeaderAt(flash, offset, 16, NameOf(t)) then
      Some(Partition(offset, SG))
    else if index >= 3 && HeaderAt(flash, offset + PARTITION_BLOCK_SIZE - 32, 32, NameOf(t)) then
      Some(Partition(offset - 3 * PARTITION_BLOCK_SIZE, NSG))
    else None
  }

  ghost predicate IsPartition(flash: seq<Byte>, t: PartitionType, i: nat) {
    (i + 1) * PARTITION_BLOCK_SIZE <= |flash| && PartitionAt(flash, t, i).Some?
  }

  /** Partition `i` of the image reports `o`. */
  ghost predicate Reports(flash: seq<Byte>, t: PartitionType, id: nat, i: nat, o: Outcome) {
    IsPartition(flash, t, i) && PartitionFinds(flash, PartitionAt(flash, t, i).value, t, id, o)
  }

  /** No partition before `i` has the block. */
  ghost predicate NoneBefore(flash: seq<Byte>, t: PartitionType, id: nat, i: nat) {
    forall j: nat :: j < i && IsPartition(flash, t, j) ==> Reports(flash, t, id, j, NotFound)
  }

  /** The first partition that has something to say decides; without one the block, or any partition, is missing. */
  ghost predicate Lookup(flash: seq<Byte>, t: PartitionType, id: nat, o: Outcome) {
    || (exists i: nat :: Reports(flash, t, id, i, o) && o != NotFound && NoneBefore(flash, t, id, i))
    || (&& (forall j: nat :: IsPartition(flash, t, j) ==> Reports(flash, t, id, j, NotFound))
        && o == if exists j: nat :: IsPartition(flash, t, j) then NotFound else NoPartition)
  }
}
