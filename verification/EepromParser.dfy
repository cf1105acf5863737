/**
 The parser itself (unit/eeprom.c). Offsets are 32-bit unsigned in the source; here they are
 naturals, so every subtraction and every index below is checked never to go out of range.
 */
module EepromParser {
  import opened Bytes
  import opened BitMath
  import opened EepromFormat

  datatype Result = ResultOk | PartitionNotFound | BlockNotFound | ResultInvalid

  /** Where a block's data pointer leads. */
  datatype Source = Nowhere | InFlash(offset: nat) | InlineData

  /** struct eeprom_block. */
  datatype Block = Block(source: Source, size: nat, version: nat, inlineData: seq<Byte>)

  /** The data range lies inside the partition, or is the inline buffer within its capacity. */
  ghost predicate Inside(p: Partition, b: Block) {
    match b.source
    case Nowhere => false
    case InFlash(offset) => p.base <= offset && offset + b.size <= p.base + p.Size()
    case InlineData => b.size <= INLINE_CAPACITY && b.size <= |b.inlineData|
  }

  /** The bytes the caller will read through the block. */
  ghost function Contents(flash: seq<Byte>, p: Partition, b: Block): seq<Byte>
    requires p.Fits(flash) && Inside(p, b)
  {
    if b.source == InlineData then b.inlineData[..b.size]
    else flash[b.source.offset..b.source.offset + b.size]
  }

  /** A decoder's verdict and block say the same as an outcome. */
  ghost predicate Delivers(flash: seq<Byte>, p: Partition, ok: bool, b: Block, o: Outcome)
    requires p.Fits(flash)
  {
    && ok == o.Ok?
    && (ok ==> Inside(p, b) && Contents(flash, p, b) == o.contents && b.version == o.version)
    && (!ok ==> o == Invalid)
  }

  // ----- the striped address arithmetic

  /** align_nsg_data_offset: bit 4 set means the middle of a gap, so go on to the next row. */
  function AlignNsgDataOffset(offset: nat): nat {
    if And(offset, 0x10) == 0 then offset else offset + 0x20 - And(offset, 0x1F)
  }

  lemma AlignByDivision(offset: nat)
    ensures AlignNsgDataOffset(offset) == if offset / 16 % 2 == 0 then offset else offset + 32 - offset % 32
  {
    hide And;
    SmallPowers();
    MaskBit(offset, 0x10);
    LowBits(offset, 0x20);
  }

  /** nsg_data_byte_offset. */
  function NsgDataByteOffset(offset: nat, index: nat): nat {
    var chunkOffset := And(offset, 0xF);
    offset + index + (chunkOffset + index) / 16 * 16
  }

  lemma ByteOffsetByDivision(offset: nat, index: nat)
    ensures NsgDataByteOffset(offset, index) == offset + index + (offset % 16 + index) / 16 * 16
  {
    SmallPowers();
    LowBits(offset, 0x10);
    hide And;
  }

  /** The offset the copy loop reads its i-th byte from. */
  function CopyOffset(storedOffset: nat, sourceOffset: nat, i: nat): nat {
    NsgDataByteOffset(storedOffset, sourceOffset + i)
  }

  function ReservedSize(storedSize: nat): nat {
    16 + storedSize + (storedSize - storedSize % 16)
  }

  /** From an offset with bit 4 clear, indexing walks the slots. */
  lemma ByteOffsetWalksSlots(k: nat, index: nat)
    ensures NsgDataByteOffset(Slot(k), index) == Slot(k + index)
  {
    hide NsgDataByteOffset;
    ByteOffsetByDivision(Slot(k), index);
    var q, r := k / 16, k % 16;
    var rows, left := (r + index) / 16, (r + index) % 16;
    QuotientIs(Slot(k), 16, 2 * q, r);
    QuotientIs(k + index, 16, q + rows, left);
  }

  lemma SlotInRow(m: nat, r: nat)
    requires r < 16
    ensures Slot(16 * (m + 1) - r) == if r == 0 then 32 * (m + 1) else 32 * m + 16 - r
  {
    if r == 0 {
      QuotientIs(16 * (m + 1), 16, m + 1, 0);
    } else {
      QuotientIs(16 * (m + 1) - r, 16, m, 16 - r);
    }
  }

  lemma AlignInRow(m: nat, r: nat)
    requires r < 16
    ensures AlignNsgDataOffset(32 * m + 16 - r) == if r == 0 then 32 * (m + 1) else 32 * m + 16 - r
  {
    hide AlignNsgDataOffset;
    AlignByDivision(32 * m + 16 - r);
    if r == 0 {
      QuotientIs(32 * m + 16, 16, 2 * m + 1, 0);
      QuotientIs(32 * m + 16, 32, m, 16);
    } else {
      QuotientIs(32 * m + 16 - r, 16, 2 * m, 16 - r);
    }
  }

  lemma RowsFit(n: nat, q: nat, r: nat)
    requires r < 16
    ensures 32 * n >= 16 + 32 * q + r <==> n >= q + 1
  {}

  lemma ReservedRows(size: nat)
    ensures ReservedSize(size) == 16 + 32 * (size / 16) + size % 16
  {}

  /** The space check is exactly the row count, and the aligned start is the slot `size` before the entry. */
  lemma InlineArithmetic(entryOffset: nat, size: nat)
    requires entryOffset % 32 == 0
    ensures entryOffset >= ReservedSize(size) <==> InlineFits(entryOffset, size)
    ensures InlineFits(entryOffset, size) ==>
              AlignNsgDataOffset(entryOffset - ReservedSize(size)) == Slot(entryOffset / 2 - size)
  {
    hide Slot, AlignNsgDataOffset, ReservedSize;
    var n, q, r := entryOffset / 32, size / 16, size % 16;
    ReservedRows(size);
    RowsFit(n, q, r);
    if InlineFits(entryOffset, size) {
      var m: nat := n - q - 1;
      SlotInRow(m, r);
      AlignInRow(m, r);
      assert entryOffset - ReservedSize(size) == 32 * m + 16 - r;
      assert entryOffset / 2 - size == 16 * (m + 1) - r;
    }
  }

  /**
   Striped storage of any accepted size: the byte map only hits offsets with bit 4 clear, rises
   strictly, and puts the last byte 17 below the entry.
   */
  lemma StripedMap(entryOffset: nat, size: nat, i: nat)
    requires entryOffset % 32 == 0 && entryOffset >= ReservedSize(size) && i < size
    ensures var start := AlignNsgDataOffset(entryOffset - ReservedSize(size));
            && InlineFits(entryOffset, size)
            && NsgDataByteOffset(start, i) == InlineOffset(entryOffset, size, i)
            && NsgDataByteOffset(start, i) / 16 % 2 == 0
            && NsgDataByteOffset(start, size - 1) == entryOffset - 17
            && entryOffset - ReservedSize(size) <= NsgDataByteOffset(start, i) <= entryOffset - 17
            && (i + 1 < size ==> NsgDataByteOffset(start, i) < NsgDataByteOffset(start, i + 1))
  {
    hide Slot, NsgDataByteOffset, AlignNsgDataOffset, ReservedSize;
    InlineArithmetic(entryOffset, size);
    var k := entryOffset / 2 - size;
    assert entryOffset / 2 >= size;
    ByteOffsetWalksSlots(k, i);
    ByteOffsetWalksSlots(k, size - 1);
    ByteOffsetWalksSlots(k, i + 1);
    InlineLastByte(entryOffset, size);
    InlineBelowEntry(entryOffset, size, i);
    SlotsIncrease(k + i, k + i + 1);
    NeverBackwards(entryOffset - ReservedSize(size), i);
  }

  lemma NeverBackwards(offset: nat, index: nat)
    ensures offset <= NsgDataByteOffset(AlignNsgDataOffset(offset), index)
  {
    hide AlignNsgDataOffset, NsgDataByteOffset;
    AlignByDivision(offset);
    ByteOffsetByDivision(AlignNsgDataOffset(offset), index);
  }

  // ----- decoding one entry

  lemma SliceGrows(s: seq<Byte>, a: nat, b: nat)
    requires a <= b < |s|
    ensures s[a..b + 1] == s[a..b] + [s[b]]
  {}

  /** partition_header_matches. */
  method PartitionHeaderMatches(flash: seq<Byte>, at: nat, size: nat, name: seq<Byte>) returns (ok: bool)
    requires at + size <= |flash| && 16 <= size && |name| == 8
    ensures ok == HeaderAt(flash, at, size, name)
  {
    hide Word16, Word32At;
    for i := 0 to 8
      invariant flash[at..at + i] == name[0..i]
    {
      if flash[at + i] != name[i] {
        assert flash[at..at + 8][i] != name[i];
        return false;
      }
      SliceGrows(flash, at, at + i);
      SliceGrows(name, 0, i);
    }
    assert name[0..8] == name;
    if Word16(flash[at + 10], flash[at + 11]) != 0 {
      return false;
    }
    if Word32At(flash, at + 12) != PARTITION_MARKER {
      return false;
    }
    for i := 16 to size
      invariant forall k :: at + 16 <= k < at + i ==> flash[k] == 0xFF
    {
      if flash[at + i] != 0xFF {
        return false;
      }
    }
    return true;
  }

  lemma SliceOfSlice(s: seq<Byte>, a: nat, n: nat, i: nat, k: nat)
    requires a + n <= |s| && i + k <= n
    ensures s[a..a + n][i..i + k] == s[a + i..a + i + k]
  {
    var x, y := s[a..a + n][i..i + k], s[a + i..a + i + k];
    assert |x| == |y|;
    forall j | 0 <= j < k
      ensures x[j] == y[j]
    {
    }
  }

  /** Bytes stored in one piece. */
  lemma StoredInOnePiece(flash: seq<Byte>, p: Partition, t: PartitionType, entry: nat)
    requires p.Fits(flash) && entry + p.EntrySize() <= p.Size() && p.Aligned(entry)
    requires p.layout == SG || StoredSize(flash, p, t, entry) > InlineLimit(t)
    ensures var size, offset := StoredSize(flash, p, t, entry), WordAt(flash, p, entry + 12);
            Stored(flash, p, t, entry) == if size == 0 || offset + size > p.Size() then None
                                          else Some(flash[p.base + offset..p.base + offset + size])
  {
    hide StoredSize, WordAt;
  }

  const EXTENDED_VERSION_FLAG: nat := 0x80

  /** The flag test of the source is a comparison on bytes. */
  lemma FlagByComparison(version: Byte)
    ensures MetadataSize(version) == if And(version, EXTENDED_VERSION_FLAG) != 0 && version != 0xFF then 6 else 1
  {
    hide And;
    SmallPowers();
    MaskBit(version, 0x80);
  }

  /** EEFULL data in one piece: version first, data after it. */
  method DecodeLeadingVersion(flash: seq<Byte>, p: Partition, t: PartitionType, entry: nat,
                              offset: nat, storedSize: nat, block: Block)
    returns (ok: bool, result: Block)
    requires p.Fits(flash) && entry + p.EntrySize() <= p.Size() && p.Aligned(entry)
    requires t == EEFULL && 0 < storedSize && offset + storedSize <= p.Size()
    requires Stored(flash, p, t, entry) == Some(flash[p.base + offset..p.base + offset + storedSize])
    ensures |result.inlineData| == |block.inlineData|
    ensures Delivers(flash, p, ok, result, Decoded(flash, p, t, entry))
  {
    hide Stored, MetadataSize, And;
    result := block;
    var start := p.base + offset;
    ghost var bytes := flash[start..start + storedSize];
    var version := flash[start];
    var metadata := if And(version, EXTENDED_VERSION_FLAG) != 0 && version != 0xFF then 6 else 1;
    FlagByComparison(version);
    assert bytes[0] == version;
    if storedSize < metadata {
      return false, result;
    }
    result := result.(source := InFlash(start + 1), size := storedSize - metadata, version := version);
    SliceOfSlice(flash, start, storedSize, 1, storedSize - metadata);
    return true, result;
  }

  /** decode_sg_block. */
  method DecodeSgBlock(flash: seq<Byte>, p: Partition, t: PartitionType, entry: nat, block: Block)
    returns (ok: bool, result: Block)
    requires p.Fits(flash) && p.layout == SG && entry + 16 <= p.Size() && p.Aligned(entry)
    ensures |result.inlineData| == |block.inlineData|
    ensures Delivers(flash, p, ok, result, Decoded(flash, p, t, entry))
  {
    hide WordAt, Stored, MetadataSize;
    StoredInOnePiece(flash, p, t, entry);
    result := block;
    var storedSize := WordAt(flash, p, entry + 8);
    var offset := WordAt(flash, p, entry + 12);
    if storedSize == 0 {
      return false, result;
    }
    if offset >= p.Size() {
      return false, result;
    }
    if storedSize > p.Size() - offset {
      return false, result;
    }
    if t == EEFULL {
      ok, result := DecodeLeadingVersion(flash, p, t, entry, offset, storedSize, block);
      return ok, result;
    }
    var start := p.base + offset;
    result := result.(source := InFlash(start), size := storedSize - 1, version := flash[start + (storedSize - 1)]);
    SliceOfSlice(flash, start, storedSize, 0, storedSize - 1);
    return true, result;
  }

  /** copy_nsg_inline_block. */
  method CopyNsgInlineBlock(flash: seq<Byte>, p: Partition, storedOffset: nat, sourceOffset: nat, size: nat,
                            block: Block)
    returns (ok: bool, result: Block)
    requires p.Fits(flash) && |block.inlineData| == INLINE_CAPACITY
    ensures |result.inlineData| == INLINE_CAPACITY
    ensures ok <==> size <= INLINE_CAPACITY &&
                    forall i: nat :: i < size ==> CopyOffset(storedOffset, sourceOffset, i) < p.Size()
    ensures ok ==> result == block.(source := InlineData, inlineData := result.inlineData)
    ensures ok ==> forall i: nat :: i < size ==>
              result.inlineData[i] == At(flash, p, CopyOffset(storedOffset, sourceOffset, i))
  {
    hide CopyOffset;
    result := block;
    if size > INLINE_CAPACITY {
      return false, result;
    }
    for i := 0 to size
      invariant |result.inlineData| == INLINE_CAPACITY
      invariant result == block.(inlineData := result.inlineData)
      invariant forall k: nat :: k < i ==> CopyOffset(storedOffset, sourceOffset, k) < p.Size()
      invariant forall k: nat :: k < i ==>
                  result.inlineData[k] == At(flash, p, CopyOffset(storedOffset, sourceOffset, k))
    {
      var offset := CopyOffset(storedOffset, sourceOffset, i);
      if offset >= p.Size() {
        return false, result;
      }
      result := result.(inlineData := result.inlineData[i := At(flash, p, offset)]);
    }
    result := result.(source := InlineData);
    return true, result;
  }

  /** Reading back through the map yields the stored bytes, so neither failure of the copy can happen. */
  lemma InlineBytes(flash: seq<Byte>, p: Partition, t: PartitionType, entry: nat, size: nat)
    requires p.Fits(flash) && p.layout == NSG && entry + 32 <= p.Size() && p.Aligned(entry)
    requires size == StoredSize(flash, p, t, entry) && 0 < size <= InlineLimit(t) && entry >= ReservedSize(size)
    ensures var start := AlignNsgDataOffset(entry - ReservedSize(size));
            var bytes := Stored(flash, p, t, entry);
            && bytes.Some? && |bytes.value| == size
            && forall i: nat :: i < size ==>
                 NsgDataByteOffset(start, i) < p.Size() && bytes.value[i] == At(flash, p, NsgDataByteOffset(start, i))
  {
    hide NsgDataByteOffset, AlignNsgDataOffset, StoredSize, Slot;
    InlineArithmetic(entry, size);
    var start := AlignNsgDataOffset(entry - ReservedSize(size));
    var bytes := Stored(flash, p, t, entry);
    forall i: nat | i < size
      ensures NsgDataByteOffset(start, i) < p.Size() && bytes.value[i] == At(flash, p, NsgDataByteOffset(start, i))
    {
      StripedMap(entry, size, i);
    }
  }

  lemma NothingStored(flash: seq<Byte>, p: Partition, t: PartitionType, entry: nat)
    requires p.Fits(flash) && entry + p.EntrySize() <= p.Size() && p.Aligned(entry)
    ensures StoredSize(flash, p, t, entry) == 0 ==> Stored(flash, p, t, entry) == None
  {}

  /** decode_nsg_block. */
  method DecodeNsgBlock(flash: seq<Byte>, p: Partition, t: PartitionType, entry: nat, block: Block)
    returns (ok: bool, result: Block)
    requires p.Fits(flash) && p.layout == NSG && entry + 32 <= p.Size() && p.Aligned(entry)
    requires |block.inlineData| == INLINE_CAPACITY
    ensures |result.inlineData| == INLINE_CAPACITY
    ensures Delivers(flash, p, ok, result, Decoded(flash, p, t, entry))
  {
    hide WordAt, HalfAt, Stored, MetadataSize;
    NothingStored(flash, p, t, entry);
    result := block;
    var storedSize := if t == EEFULL then WordAt(flash, p, entry + 8) else HalfAt(flash, p, entry + 8);
    if storedSize == 0 {
      return false, result;
    }
    var inlineLimit := if t == EEFULL then 0x200 else 0x10;
    var isInline := storedSize <= inlineLimit;
    if isInline {
      ok, result := DecodeInline(flash, p, t, entry, storedSize, block);
      return ok, result;
    }
    StoredInOnePiece(flash, p, t, entry);
    var storedOffset := WordAt(flash, p, entry + 12);
    if storedOffset >= p.Size() {
      return false, result;
    }
    if storedSize > p.Size() - storedOffset {
      return false, result;
    }
    if t == EEFULL {
      ok, result := DecodeLeadingVersion(flash, p, t, entry, storedOffset, storedSize, block);
      return ok, result;
    }
    result := result.(source := InFlash(p.base + storedOffset), size := storedSize, version := At(flash, p, entry + 7));
    return true, result;
  }

  /** The inline branches of decode_nsg_block. */
  method DecodeInline(flash: seq<Byte>, p: Partition, t: PartitionType, entry: nat, storedSize: nat, block: Block)
    returns (ok: bool, result: Block)
    requires p.Fits(flash) && p.layout == NSG && entry + 32 <= p.Size() && p.Aligned(entry)
    requires storedSize == StoredSize(flash, p, t, entry) && 0 < storedSize <= InlineLimit(t)
    requires |block.inlineData| == INLINE_CAPACITY
    ensures |result.inlineData| == INLINE_CAPACITY
    ensures Delivers(flash, p, ok, result, Decoded(flash, p, t, entry))
  {
    hide StoredSize, NsgDataByteOffset, AlignNsgDataOffset, ReservedSize, At, And;
    result := block;
    InlineArithmetic(entry, storedSize);
    if entry < ReservedSize(storedSize) {
      assert Stored(flash, p, t, entry) == None;
      return false, result;
    }
    var storedOffset := AlignNsgDataOffset(entry - ReservedSize(storedSize));
    InlineBytes(flash, p, t, entry, storedSize);
    ghost var bytes := Stored(flash, p, t, entry).value;
    hide Stored;
    if t == EEFULL {
      var versionOffset := NsgDataByteOffset(storedOffset, 0);
      if versionOffset >= p.Size() {
        assert false;
        return false, result;
      }
      var version := At(flash, p, versionOffset);
      var metadata := if And(version, EXTENDED_VERSION_FLAG) != 0 && version != 0xFF then 6 else 1;
      FlagByComparison(version);
      if storedSize < metadata {
        return false, result;
      }
      result := result.(size := storedSize - metadata, version := version);
      ok, result := CopyNsgInlineBlock(flash, p, storedOffset, 1, result.size, result);
      assert result.inlineData[..result.size] == bytes[1..1 + |bytes| - metadata];
    } else {
      result := result.(size := storedSize, version := At(flash, p, entry + 7));
      ok, result := CopyNsgInlineBlock(flash, p, storedOffset, 0, result.size, result);
      assert result.inlineData[..result.size] == bytes;
    }
  }

  // ----- searching a partition

  /** What find_partition_block reports for an outcome. */
  ghost predicate Says(flash: seq<Byte>, p: Partition, result: Result, matched: bool, b: Block, o: Outcome)
    requires p.Fits(flash)
  {
    match o
    case Ok(_, _) => result == ResultOk && matched && Delivers(flash, p, true, b, o)
    case NotFound => result == BlockNotFound && !matched
    case NoPartition => false
    case Invalid => result == ResultInvalid
  }

  /** Everything before `number` has been passed over or, in NSG, the last match is in the block. */
  ghost predicate Scanned(flash: seq<Byte>, p: Partition, t: PartitionType, id: nat, number: nat,
                          matched: bool, b: Block, last: nat)
    requires p.Fits(flash)
  {
    && 1 <= number <= p.EntryCount() + 1
    && (p.layout == SG ==> !matched && forall j :: 1 <= j < number ==> KindAt(flash, p, t, id, j) == Other)
    && (forall j: nat :: j < number && Matches(flash, p, t, id, j) ==>
        DecodedAt(flash, p, t, j).Ok? && matched && j <= last)
    && (matched ==>
          && last < number && Matches(flash, p, t, id, last)
          && Delivers(flash, p, true, b, DecodedAt(flash, p, t, last)))
  }

  lemma ScanSkips(flash: seq<Byte>, p: Partition, t: PartitionType, id: nat, number: nat, matched: bool, b: Block,
                  last: nat)
    requires p.Fits(flash) && number <= p.EntryCount()
    requires Scanned(flash, p, t, id, number, matched, b, last)
    requires KindAt(flash, p, t, id, number) == Other
    ensures Scanned(flash, p, t, id, number + 1, matched, b, last)
  {
    hide KindAt, DecodedAt, Delivers;
  }

  lemma ScanTakes(flash: seq<Byte>, p: Partition, t: PartitionType, id: nat, number: nat, matched: bool, b: Block,
                  last: nat, b': Block)
    requires p.Fits(flash) && number <= p.EntryCount() && p.layout == NSG
    requires Scanned(flash, p, t, id, number, matched, b, last)
    requires KindAt(flash, p, t, id, number) == Match
    requires Delivers(flash, p, true, b', DecodedAt(flash, p, t, number))
    ensures Scanned(flash, p, t, id, number + 1, true, b', number)
  {
    hide KindAt, DecodedAt;
    assert DecodedAt(flash, p, t, number).Ok?;
    hide Delivers;
  }

  lemma ScanStops(flash: seq<Byte>, p: Partition, t: PartitionType, id: nat, number: nat, matched: bool, b: Block,
                  last: nat, o: Outcome)
    requires p.Fits(flash) && number <= p.EntryCount()
    requires Scanned(flash, p, t, id, number, matched, b, last)
    requires match KindAt(flash, p, t, id, number)
             case Broken => p.layout == SG && o == Invalid
             case Free => p.layout == SG && o == NotFound
             case Match => o == DecodedAt(flash, p, t, number) && (p.layout == SG || o == Invalid)
             case Other => false
    ensures PartitionFinds(flash, p, t, id, o)
  {
    hide KindAt, DecodedAt, Delivers;
    if p.layout == SG {
      assert Decides(flash, p, t, id, number);
    } else {
      assert Matches(flash, p, t, id, number) && DecodedAt(flash, p, t, number) == Invalid;
    }
  }

  lemma ScanEnds(flash: seq<Byte>, p: Partition, t: PartitionType, id: nat, matched: bool, b: Block, last: nat)
    requires p.Fits(flash)
    requires Scanned(flash, p, t, id, p.EntryCount() + 1, matched, b, last)
    ensures PartitionFinds(flash, p, t, id, if matched then DecodedAt(flash, p, t, last) else NotFound)
  {
    hide KindAt, DecodedAt, Delivers;
  }

  const MAXIMUM_WORD: nat := 0xFFFF_FFFF

  /** How the loop of find_partition_block takes one entry, test by test. */
  method ClassifyEntry(flash: seq<Byte>, p: Partition, t: PartitionType, id: nat, entry: nat) returns (kind: Kind)
    requires p.Fits(flash) && entry + p.EntrySize() <= p.Size()
    ensures kind == KindOf(flash, p, t, id, entry)
  {
    hide WordAt, HalfAt, And;
    var state := And(WordAt(flash, p, entry), STATE_MASK);
    if !(state == STATE_FREE || state == STATE_WRITING || state == STATE_VALID || state == STATE_OBSOLETE) {
      if p.layout == SG {
        return Broken;
      }
      return Other;
    }
    if p.layout == SG && state == STATE_FREE {
      return Free;
    }
    if state != STATE_VALID {
      return Other;
    }
    var shortBlockId := p.layout == NSG && t == EELITE;
    var entryId: nat := if shortBlockId then HalfAt(flash, p, entry + 4) else WordAt(flash, p, entry + 4);
    var maximumId := if t == EELITE then EEFULL_ID_BASE - 1 else MAXIMUM_WORD - EEFULL_ID_BASE;
    if entryId > maximumId {
      if p.layout == SG {
        return Broken;
      }
      return Other;
    }
    if t == EEFULL {
      entryId := entryId + EEFULL_ID_BASE;
    }
    if entryId != id {
      return Other;
    }
    return Match;
  }

  lemma EntryPlaces(p: Partition, number: nat)
    requires 1 <= number <= p.EntryCount()
    ensures p.EntryOffset(number) == p.Size() - p.EntrySize() * number - if p.layout == NSG then p.EntrySize() else 0
  {}

  /** find_partition_block. */
  method FindPartitionBlock(flash: seq<Byte>, p: Partition, t: PartitionType, id: nat, block: Block)
    returns (result: Result, b: Block, matched: bool, ghost o: Outcome)
    requires p.Fits(flash) && |block.inlineData| == INLINE_CAPACITY
    ensures |b.inlineData| == INLINE_CAPACITY
    ensures PartitionFinds(flash, p, t, id, o)
    ensures Says(flash, p, result, matched, b, o)
  {
    hide KindOf, Decoded, Scanned, PartitionFinds, Inside, Contents;
    matched, b := false, block;
    ghost var last: nat := 0;
    var number := 1;
    NothingScanned(flash, p, t, id, b);
    var entrySize := if p.layout == NSG then 32 else 16;
    var entryCount := p.Size() / entrySize - 1;
    while number <= entryCount
      invariant 1 <= number <= p.EntryCount() + 1 && |b.inlineData| == INLINE_CAPACITY
      invariant Scanned(flash, p, t, id, number, matched, b, last)
      invariant p.layout == SG ==> !matched
    {
      var offset := p.Size() - entrySize * number;
      if p.layout == NSG {
        offset := offset - entrySize;
      }
      EntryPlaces(p, number);
      var kind := ClassifyEntry(flash, p, t, id, offset);
      if kind == Broken {
        BrokenIsSg(flash, p, t, id, number);
        o := Invalid;
        ScanStops(flash, p, t, id, number, matched, b, last, o);
        return ResultInvalid, b, matched, o;
      }
      if kind == Free {
        BrokenIsSg(flash, p, t, id, number);
        o := NotFound;
        ScanStops(flash, p, t, id, number, matched, b, last, o);
        return if matched then ResultOk else BlockNotFound, b, matched, o;
      }
      if kind == Other {
        ScanSkips(flash, p, t, id, number, matched, b, last);
        number := number + 1;
        continue;
      }
      ghost var before, already := b, matched;
      matched := true;
      o := DecodedAt(flash, p, t, number);
      var ok;
      if p.layout == NSG {
        ok, b := DecodeNsgBlock(flash, p, t, offset, b);
      } else {
        ok, b := DecodeSgBlock(flash, p, t, offset, b);
      }
      if !ok {
        ScanStops(flash, p, t, id, number, already, before, last, o);
        return ResultInvalid, b, matched, o;
      }
      if p.layout == SG {
        ScanStops(flash, p, t, id, number, already, before, last, o);
        return ResultOk, b, matched, o;
      }
      ScanTakes(flash, p, t, id, number, already, before, last, b);
      last := number;
      number := number + 1;
    }
    ScanEnds(flash, p, t, id, matched, b, last);
    LastTaken(flash, p, t, id, matched, b, last);
    o := if matched then DecodedAt(flash, p, t, last) else NotFound;
    return if matched then ResultOk else BlockNotFound, b, matched, o;
  }

  lemma NothingScanned(flash: seq<Byte>, p: Partition, t: PartitionType, id: nat, b: Block)
    requires p.Fits(flash)
    ensures Scanned(flash, p, t, id, 1, false, b, 0)
  {
    hide KindAt;
  }

  lemma LastTaken(flash: seq<Byte>, p: Partition, t: PartitionType, id: nat, matched: bool, b: Block, last: nat)
    requires p.Fits(flash)
    requires Scanned(flash, p, t, id, p.EntryCount() + 1, matched, b, last)
    ensures matched ==> 1 <= last <= p.EntryCount() && Delivers(flash, p, true, b, DecodedAt(flash, p, t, last))
  {
    hide KindAt, DecodedAt, Delivers;
  }

  lemma BrokenIsSg(flash: seq<Byte>, p: Partition, t: PartitionType, id: nat, number: nat)
    requires p.Fits(flash) && 1 <= number <= p.EntryCount()
    ensures KindAt(flash, p, t, id, number) in {Broken, Free} ==> p.layout == SG
  {
    hide StateAt, EntryId;
  }

  // ----- searching the flash image

  /** The partition, if any, whose header find_flash_block looks for at one flash block. */
  method FindPartition(flash: seq<Byte>, t: PartitionType, index: nat) returns (found: Option<Partition>)
    requires (index + 1) * PARTITION_BLOCK_SIZE <= |flash|
    ensures found == PartitionAt(flash, t, index)
  {
    hide HeaderAt;
    var name := NameOf(t);
    var offset := index * PARTITION_BLOCK_SIZE;
    var sgFits := |flash| >= 2 * PARTITION_BLOCK_SIZE && offset <= |flash| - 2 * PARTITION_BLOCK_SIZE;
    var matches := false;
    if sgFits {
      matches := PartitionHeaderMatches(flash, offset, 16, name);
    }
    if matches {
      return Some(Partition(offset, SG));
    }
    var canBeNsg := offset >= 3 * PARTITION_BLOCK_SIZE;
    if canBeNsg {
      matches := PartitionHeaderMatches(flash, offset + PARTITION_BLOCK_SIZE - 32, 32, name);
    }
    if canBeNsg && matches {
      return Some(Partition(offset - 3 * PARTITION_BLOCK_SIZE, NSG));
    }
    return None;
  }

  /** Every partition below `index` has reported that the block is not there. */
  ghost predicate Passed(flash: seq<Byte>, t: PartitionType, id: nat, index: nat, partitionFound: bool) {
    && (forall j: nat :: j < index && IsPartition(flash, t, j) ==> Reports(flash, t, id, j, NotFound))
    && (partitionFound <==> exists j: nat :: j < index && IsPartition(flash, t, j))
  }

  lemma PassedNext(flash: seq<Byte>, t: PartitionType, id: nat, index: nat, partitionFound: bool)
    requires Passed(flash, t, id, index, partitionFound)
    requires IsPartition(flash, t, index) ==> Reports(flash, t, id, index, NotFound)
    ensures Passed(flash, t, id, index + 1, partitionFound || IsPartition(flash, t, index))
  {
    hide Reports, PartitionAt;
  }

  lemma PassedAll(flash: seq<Byte>, t: PartitionType, id: nat, index: nat, partitionFound: bool)
    requires Passed(flash, t, id, index, partitionFound) && (index + 1) * PARTITION_BLOCK_SIZE > |flash|
    ensures Lookup(flash, t, id, if partitionFound then NotFound else NoPartition)
  {
    hide Reports, PartitionAt;
    forall j: nat
      ensures IsPartition(flash, t, j) ==> j < index
    {
    }
  }

  lemma PassedStops(flash: seq<Byte>, t: PartitionType, id: nat, index: nat, partitionFound: bool, o: Outcome)
    requires Passed(flash, t, id, index, partitionFound)
    requires Reports(flash, t, id, index, o) && o != NotFound
    ensures Lookup(flash, t, id, o)
  {
    hide Reports;
  }

  /** What eeprom_find_block_in_memory reports for an outcome. */
  ghost predicate Answers(flash: seq<Byte>, t: PartitionType, result: Result, b: Block, o: Outcome) {
    match o
    case Ok(_, _) =>
      result == ResultOk &&
      exists j: nat :: IsPartition(flash, t, j) && Delivers(flash, PartitionAt(flash, t, j).value, true, b, o)
    case NotFound => result == BlockNotFound
    case NoPartition => result == PartitionNotFound
    case Invalid => result == ResultInvalid
  }

  /** The caller is told what the image says: the verdict and the block belong to the outcome of the lookup. */
  ghost predicate Reported(flash: seq<Byte>, t: PartitionType, id: nat, result: Result, b: Block) {
    exists o: Outcome :: Lookup(flash, t, id, o) && Answers(flash, t, result, b, o)
  }

  /** find_flash_block with the final choice of eeprom_find_block_in_memory. */
  method FindFlashBlock(flash: seq<Byte>, t: PartitionType, id: nat, block: Block)
    returns (result: Result, b: Block)
    requires |block.inlineData| == INLINE_CAPACITY
    ensures Reported(flash, t, id, result, b)
  {
    hide Lookup, Passed, PartitionAt, PartitionFinds, Delivers, Reports;
    b := block;
    var partitionFound, matched := false, false;
    var index := 0;
    var count := |flash| / PARTITION_BLOCK_SIZE;
    NothingPassed(flash, t, id);
    while index < count
      invariant index <= count && |b.inlineData| == INLINE_CAPACITY
      invariant Passed(flash, t, id, index, partitionFound)
    {
      var partition := FindPartition(flash, t, index);
      if partition == None {
        PassedNext(flash, t, id, index, partitionFound);
        index := index + 1;
        continue;
      }
      var r;
      ghost var o;
      r, b, matched, o := FindPartitionBlock(flash, partition.value, t, id, b);
      ItReports(flash, t, id, index, o);
      if r == ResultInvalid {
        PassedStops(flash, t, id, index, partitionFound, o);
        return r, b;
      }
      if matched {
        PassedStops(flash, t, id, index, partitionFound, o);
        return ResultOk, b;
      }
      PassedNext(flash, t, id, index, partitionFound);
      partitionFound := true;
      index := index + 1;
    }
    PassedAll(flash, t, id, index, partitionFound);
    ghost var missing := if partitionFound then NotFound else NoPartition;
    result := if partitionFound then BlockNotFound else PartitionNotFound;
    assert Lookup(flash, t, id, missing) && Answers(flash, t, result, b, missing);
  }

  lemma NothingPassed(flash: seq<Byte>, t: PartitionType, id: nat)
    ensures Passed(flash, t, id, 0, false)
  {}

  lemma ItReports(flash: seq<Byte>, t: PartitionType, id: nat, index: nat, o: Outcome)
    ensures IsPartition(flash, t, index) && PartitionFinds(flash, PartitionAt(flash, t, index).value, t, id, o) ==>
              Reports(flash, t, id, index, o)
  {
    hide PartitionFinds, PartitionAt;
  }

  /**
   eeprom_find_block_in_memory: a bad type code or a null pointer is invalid, everything else is the
   declarative lookup.
   */
  method EepromFindBlockInMemory(data: Option<seq<Byte>>, typeCode: nat, id: Word32, block: Option<Block>)
    returns (result: Result, b: Option<Block>)
    requires block.Some? ==> |block.value.inlineData| == INLINE_CAPACITY
    ensures typeCode >= 2 || data == None || block == None ==> result == ResultInvalid && b == block
    ensures typeCode < 2 && data.Some? && block.Some? ==>
              var t := if typeCode == 0 then EELITE else EEFULL;
              b.Some? && Reported(data.value, t, id, result, b.value)
  {
    b := block;
    if typeCode >= 2 {
      return ResultInvalid, b;
    }
    if data == None || block == None {
      return ResultInvalid, b;
    }
    var found;
    result, found := FindFlashBlock(data.value, if typeCode == 0 then EELITE else EEFULL, id, block.value);
    b := Some(found);
  }

  ghost predicate Covers(flash: seq<Byte>, p: Partition, b: Block)
    requires b.source.InFlash?
  {
    p.base <= b.source.offset && b.source.offset + b.size <= p.base + p.Size() <= |flash|
  }

  /** On success the data lies inside a partition of the image, or in the inline buffer within its capacity. */
  lemma FoundDataInside(flash: seq<Byte>, t: PartitionType, id: nat, b: Block)
    requires Reported(flash, t, id, ResultOk, b)
    ensures b.source.InFlash? ==>
              exists j: nat :: IsPartition(flash, t, j) && Covers(flash, PartitionAt(flash, t, j).value, b)
    ensures !b.source.InFlash? ==> b.source == InlineData && b.size <= INLINE_CAPACITY
  {
    hide PartitionAt, Lookup;
  }

  // ----- the lookup is a function of the image

  lemma DecidesFirst(flash: seq<Byte>, p: Partition, t: PartitionType, id: nat, j: nat, k: nat)
    requires p.Fits(flash) && Decides(flash, p, t, id, j) && Decides(flash, p, t, id, k)
    ensures j <= k
  {
    hide KindAt;
  }

  lemma SgFindsOne(flash: seq<Byte>, p: Partition, t: PartitionType, id: nat, a: Outcome, b: Outcome)
    requires p.Fits(flash) && SgFinds(flash, p, t, id, a) && SgFinds(flash, p, t, id, b)
    ensures a == b
  {
    hide KindAt, DecodedAt;
    if (exists k: nat :: Decides(flash, p, t, id, k)) {
      var k: nat :| Decides(flash, p, t, id, k);
      forall j: nat | Decides(flash, p, t, id, j)
        ensures j == k
      {
        DecidesFirst(flash, p, t, id, j, k);
        DecidesFirst(flash, p, t, id, k, j);
      }
    }
  }

  lemma NsgFindsOne(flash: seq<Byte>, p: Partition, t: PartitionType, id: nat, a: Outcome, b: Outcome)
    requires p.Fits(flash) && NsgFinds(flash, p, t, id, a) && NsgFinds(flash, p, t, id, b)
    ensures a == b
  {
    hide Matches, DecodedAt;
  }

  lemma PartitionFindsOne(flash: seq<Byte>, p: Partition, t: PartitionType, id: nat, a: Outcome, b: Outcome)
    requires p.Fits(flash) && PartitionFinds(flash, p, t, id, a) && PartitionFinds(flash, p, t, id, b)
    ensures a == b
  {
    hide SgFinds, NsgFinds;
    if p.layout == SG {
      SgFindsOne(flash, p, t, id, a, b);
    } else {
      NsgFindsOne(flash, p, t, id, a, b);
    }
  }

  /** At most one outcome satisfies the declarative lookup, so the parser's answer is fully determined. */
  lemma LookupOne(flash: seq<Byte>, t: PartitionType, id: nat, a: Outcome, b: Outcome)
    requires Lookup(flash, t, id, a) && Lookup(flash, t, id, b)
    ensures a == b
  {
    hide PartitionAt, PartitionFinds;
    forall i: nat, x, y | Reports(flash, t, id, i, x) && Reports(flash, t, id, i, y)
      ensures x == y
    {
      PartitionFindsOne(flash, PartitionAt(flash, t, i).value, t, id, x, y);
    }
    hide Reports, IsPartition;
    if i: nat :| Reports(flash, t, id, i, a) && a != NotFound && NoneBefore(flash, t, id, i) {
      assert IsPartition(flash, t, i) by { IsReporting(flash, t, id, i, a); }
      if k: nat :| Reports(flash, t, id, k, b) && b != NotFound && NoneBefore(flash, t, id, k) {
        assert IsPartition(flash, t, k) by { IsReporting(flash, t, id, k, b); }
        assert i == k;
      }
    } else if k: nat :| Reports(flash, t, id, k, b) && b != NotFound && NoneBefore(flash, t, id, k) {
      assert IsPartition(flash, t, k) by { IsReporting(flash, t, id, k, b); }
    }
  }

  lemma IsReporting(flash: seq<Byte>, t: PartitionType, id: nat, i: nat, o: Outcome)
    ensures Reports(flash, t, id, i, o) ==> IsPartition(flash, t, i)
  {
    hide PartitionFinds, PartitionAt;
  }

  /** The bytes behind a block's data pointer. */
  ghost function DataOf(flash: seq<Byte>, b: Block): seq<Byte> {
    if b.source.InFlash? && b.source.offset + b.size <= |flash| then flash[b.source.offset..b.source.offset + b.size]
    else if b.source.InlineData? && b.size <= |b.inlineData| then b.inlineData[..b.size]
    else []
  }

  lemma DataIsContents(flash: seq<Byte>, t: PartitionType, result: Result, b: Block, o: Outcome)
    requires Answers(flash, t, result, b, o)
    ensures o.Ok? <==> result == ResultOk
    ensures o.Ok? ==> DataOf(flash, b) == o.contents && b.version == o.version
  {
    hide PartitionAt;
  }

  /** Two reports for the same image and block id agree on the verdict, the version and every byte of the data. */
  lemma ReportedOnce(flash: seq<Byte>, t: PartitionType, id: nat, result: Result, b: Block, result': Result, b': Block)
    requires Reported(flash, t, id, result, b) && Reported(flash, t, id, result', b')
    ensures result == result'
    ensures result == ResultOk ==> DataOf(flash, b) == DataOf(flash, b') && b.version == b'.version
  {
    hide Lookup, DataOf;
    var o :| Lookup(flash, t, id, o) && Answers(flash, t, result, b, o);
    var o' :| Lookup(flash, t, id, o') && Answers(flash, t, result', b', o');
    LookupOne(flash, t, id, o, o');
    DataIsContents(flash, t, result, b, o);
    DataIsContents(flash, t, result', b', o');
  }
}
