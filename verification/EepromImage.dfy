/**
 Flash images written out byte by byte, and what the parser reports for them. Everything an image
 is required to hold is stated in literal bytes and offsets here, apart from the format's own
 definitions.
 */
module EepromImage {
  import opened Bytes
  import opened BitMath
  import opened EepromFormat
  import opened EepromParser

  // ----- the vocabulary of images

  /** The letters EELITE or EEFULL and two zeros. */
  function NameBytes(t: PartitionType): (s: seq<Byte>)
    ensures |s| == 8 && s[0] == 0x45
  {
    match t
    case EELITE => [0x45, 0x45, 0x4C, 0x49, 0x54, 0x45, 0, 0]
    case EEFULL => [0x45, 0x45, 0x46, 0x55, 0x4C, 0x4C, 0, 0]
  }

  /** Bytes 0 to 7 are the name, 10 and 11 zero, 12 to 15 the marker. */
  ghost predicate IsHeader(flash: seq<Byte>, at: nat, t: PartitionType)
    requires at + 16 <= |flash|
  {
    && flash[at..at + 8] == NameBytes(t)
    && flash[at + 10..at + 16] == [0, 0, 0xF0, 0xFF, 0xFF, 0xFF]
  }

  /** In none of the 64 KiB blocks below `index` does a header start with its letter E. */
  ghost predicate NoHeaderBelow(flash: seq<Byte>, index: nat)
    requires 0x1_0000 * index <= |flash|
  {
    forall j: nat :: j < index ==> flash[0x1_0000 * j] != 0x45 && flash[0x1_0000 * j + 0xFFE0] != 0x45
  }

  datatype State = Erased | Writing | Current | Obsolete | Damaged

  /** Only every second bit counts: those with odd numbers. */
  function StateOf(flash: seq<Byte>, at: nat): State
    requires at + 4 <= |flash|
  {
    if OddBits(flash[at + 1]) != 0xAA || OddBits(flash[at + 2]) != 0xAA || OddBits(flash[at + 3]) != 0xAA then Damaged
    else if OddBits(flash[at]) == 0xAA then Erased
    else if OddBits(flash[at]) == 0xA8 then Writing
    else if OddBits(flash[at]) == 0x80 then Current
    else if OddBits(flash[at]) == 0 then Obsolete
    else Damaged
  }

  lemma StateBytes(flash: seq<Byte>, at: nat)
    requires at + 4 <= |flash|
    ensures flash[at..at + 4] == [0xFF, 0xFF, 0xFF, 0xFF] ==> StateOf(flash, at) == Erased
    ensures flash[at..at + 4] == [0xA8, 0xAA, 0xAA, 0xAA] ==> StateOf(flash, at) == Writing
    ensures flash[at..at + 4] == [0x80, 0xAA, 0xAA, 0xAA] ==> StateOf(flash, at) == Current
    ensures flash[at..at + 4] == [0x00, 0xAA, 0xAA, 0xAA] ==> StateOf(flash, at) == Obsolete
    ensures flash[at..at + 4] == [0x20, 0xAA, 0xAA, 0xAA] ==> StateOf(flash, at) == Damaged
  {
    hide OddBits;
    var s := flash[at..at + 4];
    assert s[0] == flash[at] && s[1] == flash[at + 1] && s[2] == flash[at + 2] && s[3] == flash[at + 3];
    OddBitsOfBytes();
  }

  lemma OddBitsOfBytes()
    ensures OddBits(0xFF) == 0xAA && OddBits(0xAA) == 0xAA && OddBits(0xA8) == 0xA8
    ensures OddBits(0x80) == 0x80 && OddBits(0) == 0 && OddBits(0x20) == 0x20
  {}

  predicate StorableId(t: PartitionType, storedId: nat) {
    if t == EELITE then storedId < 5000 else storedId + 5000 < 0x1_0000_0000
  }

  function PublicId(t: PartitionType, storedId: nat): nat {
    if t == EELITE then storedId else storedId + 5000
  }

  /** The version comes first, the data next, then five bytes of metadata when the version asks for them. */
  predicate VersionFirst(stored: seq<Byte>, contents: seq<Byte>, version: Byte) {
    && |stored| == 1 + |contents| + (if 0x80 <= version < 0xFF then 5 else 0)
    && stored[0] == version
    && stored[1..1 + |contents|] == contents
  }

  // ----- reading literal bytes

  lemma WordIs(flash: seq<Byte>, at: nat, n: Word32)
    requires at + 4 <= |flash| && flash[at..at + 4] == Le32(n)
    ensures Word32At(flash, at) == n
  {
    hide FromLe, LeBytes;
    FourBytes();
    LeRoundTrip(n, 4);
  }

  lemma HalfIs(flash: seq<Byte>, at: nat, n: nat)
    requires n < 0x1_0000 && at + 2 <= |flash| && flash[at..at + 2] == Le16(n)
    ensures Word16(flash[at], flash[at + 1]) == n
  {
    var s := flash[at..at + 2];
    assert s[0] == flash[at] && s[1] == flash[at + 1];
    hide Word16;
  }

  lemma MaskedBytes(a: Byte, b: Byte, c: Byte, d: Byte)
    ensures And(FromLe([a, b, c, d]), 0xAAAA_AAAA)
         == OddBits(a) + 0x100 * (OddBits(b) + 0x100 * (OddBits(c) + 0x100 * OddBits(d)))
  {
    hide And, OddBits, FromLe;
    Le32Bytes(a, b, c, d);
    AndBytes(a, b + 0x100 * (c + 0x100 * d), 0xAA, 0xAA_AAAA);
    AndBytes(b, c + 0x100 * d, 0xAA, 0xAAAA);
    AndBytes(c, d, 0xAA, 0xAA);
    MaskOddBits(a);
    MaskOddBits(b);
    MaskOddBits(c);
    MaskOddBits(d);
  }

  /** The state word, read bit by bit. */
  lemma StateRead(flash: seq<Byte>, p: Partition, entry: nat)
    requires p.Fits(flash) && entry + p.EntrySize() <= p.Size()
    ensures var state := StateAt(flash, p, entry);
            match StateOf(flash, p.base + entry)
            case Erased => state == STATE_FREE
            case Writing => state == STATE_WRITING
            case Current => state == STATE_VALID
            case Obsolete => state == STATE_OBSOLETE
            case Damaged => !KnownState(state)
  {
    var at := p.base + entry;
    var a, b, c, d := flash[at], flash[at + 1], flash[at + 2], flash[at + 3];
    hide And, OddBits, FromLe;
    assert flash[at..at + 4] == [a, b, c, d];
    MaskedBytes(a, b, c, d);
  }

  lemma SameNames(t: PartitionType)
    ensures NameOf(t) == NameBytes(t)
  {}

  lemma HeaderRead(flash: seq<Byte>, at: nat, t: PartitionType)
    requires at + 16 <= |flash| && IsHeader(flash, at, t)
    ensures HeaderAt(flash, at, 16, NameOf(t))
  {
    SameNames(t);
    hide Word32At, FromLe;
    var s := flash[at + 10..at + 16];
    assert s[0] == flash[at + 10] && s[1] == flash[at + 11];
    assert s[2..] == flash[at + 12..at + 16];
    Le32Bytes(0xF0, 0xFF, 0xFF, 0xFF);
    WordIs(flash, at + 12, 0xFFFF_FFF0);
  }

  lemma NotAHeader(flash: seq<Byte>, at: nat, size: nat, t: PartitionType)
    requires at + size <= |flash| && 16 <= size && flash[at] != 0x45
    ensures !HeaderAt(flash, at, size, NameOf(t))
  {
    hide Word32At, Word16;
    assert flash[at..at + 8][0] == flash[at];
    assert NameOf(t)[0] == 0x45;
  }

  lemma NoPartitionHere(flash: seq<Byte>, t: PartitionType, j: nat)
    requires 0x1_0000 * j + 0x1_0000 <= |flash|
    requires flash[0x1_0000 * j] != 0x45 && flash[0x1_0000 * j + 0xFFE0] != 0x45
    ensures !IsPartition(flash, t, j)
  {
    hide HeaderAt, NameOf;
    var offset := 0x1_0000 * j;
    if offset + 0x2_0000 <= |flash| {
      NotAHeader(flash, offset, 16, t);
    }
    NotAHeader(flash, offset + 0xFFE0, 32, t);
  }

  lemma NothingBelow(flash: seq<Byte>, t: PartitionType, id: nat, index: nat)
    requires 0x1_0000 * index <= |flash| && NoHeaderBelow(flash, index)
    ensures NoneBefore(flash, t, id, index)
  {
    hide IsPartition, Reports;
    forall j: nat | j < index
      ensures !IsPartition(flash, t, j)
    {
      NoPartitionHere(flash, t, j);
    }
  }

  // ----- SG

  /** Entry `number` of the partition at `base`: 16 bytes, counted down from the end of its 128 KiB. */
  function SgEntry(base: nat, number: nat): nat
    requires 1 <= number <= 0x1FFF
  {
    base + 0x2_0000 - 16 * number
  }

  /** A row that says: block `storedId` is the `size` bytes at `offset`. */
  ghost predicate SgRow(flash: seq<Byte>, at: nat, storedId: Word32, size: Word32, offset: Word32)
    requires at + 16 <= |flash|
  {
    && StateOf(flash, at) == Current
    && flash[at + 4..at + 8] == Le32(storedId)
    && flash[at + 8..at + 12] == Le32(size)
    && flash[at + 12..at + 16] == Le32(offset)
  }

  /** A row that is being written or obsolete, or holds another block. */
  ghost predicate SgOtherRow(flash: seq<Byte>, at: nat, t: PartitionType, storedId: Word32)
    requires at + 16 <= |flash|
  {
    || StateOf(flash, at) == Writing
    || StateOf(flash, at) == Obsolete
    || (StateOf(flash, at) == Current
        && exists other: Word32 :: other != storedId && StorableId(t, other) && flash[at + 4..at + 8] == Le32(other))
  }

  /** The bytes an SG row refers to: EELITE ends with the version, EEFULL leads with it. */
  predicate SgStores(t: PartitionType, stored: seq<Byte>, contents: seq<Byte>, version: Byte) {
    if t == EELITE then stored == contents + [version] else VersionFirst(stored, contents, version)
  }

  lemma SgRowMatches(flash: seq<Byte>, p: Partition, t: PartitionType, entry: nat, storedId: Word32, size: Word32,
                     offset: Word32)
    requires p.layout == SG && p.Fits(flash) && entry + 16 <= p.Size()
    requires SgRow(flash, p.base + entry, storedId, size, offset) && StorableId(t, storedId)
    ensures KindOf(flash, p, t, PublicId(t, storedId), entry) == Match
    ensures WordAt(flash, p, entry + 8) == size && WordAt(flash, p, entry + 12) == offset
  {
    hide StateOf, StateAt, Word32At, Le32;
    var at := p.base + entry;
    StateRead(flash, p, entry);
    WordIs(flash, at + 4, storedId);
    WordIs(flash, at + 8, size);
    WordIs(flash, at + 12, offset);
  }

  lemma SgOtherRowPassedOver(flash: seq<Byte>, p: Partition, t: PartitionType, entry: nat, storedId: Word32)
    requires p.layout == SG && p.Fits(flash) && entry + 16 <= p.Size()
    requires SgOtherRow(flash, p.base + entry, t, storedId)
    ensures KindOf(flash, p, t, PublicId(t, storedId), entry) == Other
  {
    hide StateOf, StateAt, Word32At, Le32;
    StateRead(flash, p, entry);
    var at := p.base + entry;
    if StateOf(flash, at) == Current {
      var other: Word32 :| other != storedId && StorableId(t, other) && flash[at + 4..at + 8] == Le32(other);
      WordIs(flash, at + 4, other);
    }
  }

  lemma SgRowDecodes(flash: seq<Byte>, p: Partition, t: PartitionType, entry: nat, stored: seq<Byte>, offset: Word32,
                     contents: seq<Byte>, version: Byte)
    requires p.layout == SG && p.Fits(flash) && entry + 16 <= p.Size() && p.Aligned(entry)
    requires WordAt(flash, p, entry + 8) == |stored| && WordAt(flash, p, entry + 12) == offset
    requires offset + |stored| <= 0x2_0000 && flash[p.base + offset..p.base + offset + |stored|] == stored
    requires SgStores(t, stored, contents, version)
    ensures Decoded(flash, p, t, entry) == Ok(contents, version)
  {
    hide WordAt;
    assert Stored(flash, p, t, entry) == Some(stored);
    if t == EELITE {
      assert stored[..|stored| - 1] == contents;
    }
  }

  /** The partition at block `index`, reached by a lookup that finds no other before it. */
  ghost predicate SgImage(flash: seq<Byte>, t: PartitionType, index: nat) {
    && 0x1_0000 * index + 0x2_0000 <= |flash|
    && NoHeaderBelow(flash, index)
    && IsHeader(flash, 0x1_0000 * index, t)
  }

  lemma SgPartitionAt(flash: seq<Byte>, t: PartitionType, index: nat)
    requires SgImage(flash, t, index)
    ensures IsPartition(flash, t, index) && PartitionAt(flash, t, index) == Some(Partition(0x1_0000 * index, SG))
  {
    hide IsHeader, HeaderAt, NameOf;
    HeaderRead(flash, 0x1_0000 * index, t);
  }

  lemma SgDecidedBy(flash: seq<Byte>, t: PartitionType, index: nat, storedId: Word32, k: nat)
    requires SgImage(flash, t, index) && 1 <= k <= 0x1FFF
    requires forall j :: 1 <= j < k ==> SgOtherRow(flash, SgEntry(0x1_0000 * index, j), t, storedId)
    ensures var p := Partition(0x1_0000 * index, SG);
            && p.EntryCount() == 0x1FFF
            && p.Fits(flash)
            && (forall j :: 1 <= j < k ==> KindAt(flash, p, t, PublicId(t, storedId), j) == Other)
  {
    hide SgOtherRow, KindOf, IsHeader, NoHeaderBelow;
    var p := Partition(0x1_0000 * index, SG);
    forall j | 1 <= j < k
      ensures KindAt(flash, p, t, PublicId(t, storedId), j) == Other
    {
      assert p.base + p.EntryOffset(j) == SgEntry(p.base, j);
      SgOtherRowPassedOver(flash, p, t, p.EntryOffset(j), storedId);
    }
  }

  /** SG: the first row that holds the block, reached over rows that do not, gives its data and version. */
  lemma SgBlockFound(flash: seq<Byte>, t: PartitionType, index: nat, k: nat, storedId: Word32, stored: seq<Byte>,
                     offset: Word32, contents: seq<Byte>, version: Byte)
    requires SgImage(flash, t, index) && 1 <= k <= 0x1FFF
    requires forall j :: 1 <= j < k ==> SgOtherRow(flash, SgEntry(0x1_0000 * index, j), t, storedId)
    requires offset + |stored| <= 0x2_0000
    requires SgRow(flash, SgEntry(0x1_0000 * index, k), storedId, |stored|, offset) && StorableId(t, storedId)
    requires flash[0x1_0000 * index + offset..0x1_0000 * index + offset + |stored|] == stored
    requires SgStores(t, stored, contents, version)
    ensures Lookup(flash, t, PublicId(t, storedId), Ok(contents, version))
  {
    hide IsHeader, NoHeaderBelow, SgOtherRow, SgRow, KindOf, Decoded, SgStores, PartitionAt, IsPartition, NoneBefore,
         StorableId, PublicId;
    var p, id := Partition(0x1_0000 * index, SG), PublicId(t, storedId);
    SgDecidedBy(flash, t, index, storedId, k);
    assert p.base + p.EntryOffset(k) == SgEntry(p.base, k);
    SgRowMatches(flash, p, t, p.EntryOffset(k), storedId, |stored|, offset);
    SgRowDecodes(flash, p, t, p.EntryOffset(k), stored, offset, contents, version);
    assert Decides(flash, p, t, id, k);
    SgPartitionAt(flash, t, index);
    NothingBelow(flash, t, id, index);
  }

  /** A damaged row, or one whose block number no partition of this type can have. */
  ghost predicate SgBrokenRow(flash: seq<Byte>, at: nat, t: PartitionType)
    requires at + 16 <= |flash|
  {
    || StateOf(flash, at) == Damaged
    || (StateOf(flash, at) == Current
        && exists other: Word32 :: !StorableId(t, other) && flash[at + 4..at + 8] == Le32(other))
  }

  /** A row whose bytes are none, do not lie in the partition, or do not hold the metadata their version asks for. */
  ghost predicate SgUselessRow(flash: seq<Byte>, base: nat, at: nat, t: PartitionType, storedId: Word32)
    requires at + 16 <= |flash| && base + 0x2_0000 <= |flash|
  {
    exists size: Word32, offset: Word32 ::
      && SgRow(flash, at, storedId, size, offset)
      && (size == 0 || offset + size > 0x2_0000 || (t == EEFULL && size < 6 && 0x80 <= flash[base + offset] < 0xFF))
  }

  lemma SgBrokenRowSeen(flash: seq<Byte>, p: Partition, t: PartitionType, entry: nat, id: nat)
    requires p.layout == SG && p.Fits(flash) && entry + 16 <= p.Size()
    requires SgBrokenRow(flash, p.base + entry, t)
    ensures KindOf(flash, p, t, id, entry) == Broken
  {
    hide StateOf, StateAt, Word32At, Le32;
    StateRead(flash, p, entry);
    var at := p.base + entry;
    if StateOf(flash, at) == Current {
      var other: Word32 :| !StorableId(t, other) && flash[at + 4..at + 8] == Le32(other);
      WordIs(flash, at + 4, other);
    }
  }

  lemma SgUselessRowSeen(flash: seq<Byte>, p: Partition, t: PartitionType, entry: nat, storedId: Word32)
    requires p.layout == SG && p.Fits(flash) && entry + 16 <= p.Size() && p.Aligned(entry)
    requires SgUselessRow(flash, p.base, p.base + entry, t, storedId) && StorableId(t, storedId)
    ensures KindOf(flash, p, t, PublicId(t, storedId), entry) == Match
    ensures Decoded(flash, p, t, entry) == Invalid
  {
    hide SgRow, WordAt, KindOf;
    var size: Word32, offset: Word32 :|
      && SgRow(flash, p.base + entry, storedId, size, offset)
      && (size == 0 || offset + size > 0x2_0000
          || (t == EEFULL && size < 6 && 0x80 <= flash[p.base + offset] < 0xFF));
    SgRowMatches(flash, p, t, entry, storedId, size, offset);
  }

  lemma SgErasedRowSeen(flash: seq<Byte>, p: Partition, t: PartitionType, entry: nat, id: nat)
    requires p.layout == SG && p.Fits(flash) && entry + 16 <= p.Size()
    requires StateOf(flash, p.base + entry) == Erased
    ensures KindOf(flash, p, t, id, entry) == Free
  {
    hide StateOf, StateAt, Word32At;
    StateRead(flash, p, entry);
  }

  /** SG: the same search ends in an error at a row that is broken, or that holds the block and is useless. */
  lemma SgBlockInvalid(flash: seq<Byte>, t: PartitionType, index: nat, k: nat, storedId: Word32)
    requires SgImage(flash, t, index) && 1 <= k <= 0x1FFF && StorableId(t, storedId)
    requires forall j :: 1 <= j < k ==> SgOtherRow(flash, SgEntry(0x1_0000 * index, j), t, storedId)
    requires SgBrokenRow(flash, SgEntry(0x1_0000 * index, k), t)
      || SgUselessRow(flash, 0x1_0000 * index, SgEntry(0x1_0000 * index, k), t, storedId)
    ensures Lookup(flash, t, PublicId(t, storedId), Invalid)
  {
    hide IsHeader, NoHeaderBelow, SgOtherRow, KindOf, Decoded, PartitionAt, IsPartition, NoneBefore, SgBrokenRow,
         SgUselessRow, StorableId, PublicId;
    var p, id := Partition(0x1_0000 * index, SG), PublicId(t, storedId);
    SgDecidedBy(flash, t, index, storedId, k);
    assert p.base + p.EntryOffset(k) == SgEntry(p.base, k);
    if SgBrokenRow(flash, SgEntry(0x1_0000 * index, k), t) {
      SgBrokenRowSeen(flash, p, t, p.EntryOffset(k), id);
    } else {
      SgUselessRowSeen(flash, p, t, p.EntryOffset(k), storedId);
    }
    assert Decides(flash, p, t, id, k);
    SgPartitionAt(flash, t, index);
    NothingBelow(flash, t, id, index);
  }

  /** SG: an erased row ends the index; in an image with no other partition the block is not there. */
  lemma SgBlockMissing(flash: seq<Byte>, t: PartitionType, index: nat, k: nat, storedId: Word32)
    requires SgImage(flash, t, index) && 1 <= k <= 0x1FFF
    requires |flash| == 0x1_0000 * index + 0x2_0000 && flash[0x1_0000 * index + 0x1_FFE0] != 0x45
    requires flash[0x1_0000 * index + 0x1_0000] != 0x45
    requires forall j :: 1 <= j < k ==> SgOtherRow(flash, SgEntry(0x1_0000 * index, j), t, storedId)
    requires StateOf(flash, SgEntry(0x1_0000 * index, k)) == Erased
    ensures Lookup(flash, t, PublicId(t, storedId), NotFound)
  {
    hide IsHeader, SgOtherRow, KindOf, Decoded, PartitionAt, IsPartition, StateOf, PublicId;
    var p, id := Partition(0x1_0000 * index, SG), PublicId(t, storedId);
    SgDecidedBy(flash, t, index, storedId, k);
    assert p.base + p.EntryOffset(k) == SgEntry(p.base, k);
    SgErasedRowSeen(flash, p, t, p.EntryOffset(k), id);
    assert Decides(flash, p, t, id, k);
    SgPartitionAt(flash, t, index);
    NoPartitionHere(flash, t, index + 1);
    forall j: nat | IsPartition(flash, t, j)
      ensures j == index
    {
      if j < index {
        NoPartitionHere(flash, t, j);
      }
      PartitionInImage(flash, t, j);
    }
  }

  lemma PartitionInImage(flash: seq<Byte>, t: PartitionType, j: nat)
    requires IsPartition(flash, t, j)
    ensures 0x1_0000 * j + 0x1_0000 <= |flash|
  {
    hide PartitionAt;
  }

  /** An image without a header has no partition, whatever the block. */
  lemma NoPartitionAtAll(flash: seq<Byte>, t: PartitionType, id: nat)
    requires NoHeaderBelow(flash, |flash| / 0x1_0000)
    ensures Lookup(flash, t, id, NoPartition)
  {
    hide IsPartition, Reports;
    forall j: nat
      ensures !IsPartition(flash, t, j)
    {
      if j < |flash| / 0x1_0000 {
        NoPartitionHere(flash, t, j);
      } else if IsPartition(flash, t, j) {
        PartitionInImage(flash, t, j);
      }
    }
  }

  // ----- NSG

  /** The partition that ends with block `index`: 256 KiB, the header in its last 32 bytes. */
  ghost predicate NsgImage(flash: seq<Byte>, t: PartitionType, index: nat) {
    && 3 <= index && 0x1_0000 * index + 0x1_0000 <= |flash|
    && NoHeaderBelow(flash, index)
    && flash[0x1_0000 * index] != 0x45
    && IsHeader(flash, 0x1_0000 * index + 0xFFE0, t)
    && forall i :: 0x1_0000 * index + 0xFFF0 <= i < 0x1_0000 * index + 0x1_0000 ==> flash[i] == 0xFF
  }

  /** The row at `at` is current and carries the block's number, in two bytes for EELITE and four for EEFULL. */
  ghost predicate NsgNames(flash: seq<Byte>, at: nat, t: PartitionType, storedId: Word32)
    requires at + 32 <= |flash| && StorableId(t, storedId)
  {
    && StateOf(flash, at) == Current
    && if t == EELITE then flash[at + 4..at + 6] == Le16(storedId) else flash[at + 4..at + 8] == Le32(storedId)
  }

  predicate NsgSize(flash: seq<Byte>, at: nat, t: PartitionType, size: Word32)
    requires at + 32 <= |flash|
  {
    if t == EELITE then size < 0x1_0000 && flash[at + 8..at + 10] == Le16(size)
    else flash[at + 8..at + 12] == Le32(size)
  }

  predicate Small(t: PartitionType, size: nat) {
    if t == EELITE then size <= 16 else size <= 512
  }

  /** Small blocks end 17 bytes before their row and fill the first halves of the rows above it, backwards. */
  ghost predicate StoredAbove(flash: seq<Byte>, at: nat, stored: seq<Byte>)
    requires at <= |flash|
  {
    && 16 + |stored| + 16 * (|stored| / 16) <= at
    && forall d: nat :: d < |stored| ==> flash[at - 17 - 32 * (d / 16) - d % 16] == stored[|stored| - 1 - d]
  }

  /** Row `r` of the partition at `base` holds these bytes, above it or at an offset. */
  ghost predicate NsgStores(flash: seq<Byte>, base: nat, r: nat, t: PartitionType, stored: seq<Byte>)
    requires base + 0x4_0000 <= |flash| && r <= 0x1FFE
  {
    && 0 < |stored| <= 0x4_0000 && NsgSize(flash, base + 32 * r, t, |stored|)
    && if Small(t, |stored|) then StoredAbove(flash[base..], 32 * r, stored)
       else exists offset: Word32 ::
              && offset + |stored| <= 0x4_0000
              && flash[base + 32 * r + 12..base + 32 * r + 16] == Le32(offset)
              && flash[base + offset..base + offset + |stored|] == stored
  }

  /** EELITE keeps the version in byte 7 of the row, EEFULL before the data. */
  ghost predicate NsgHolds(flash: seq<Byte>, base: nat, r: nat, t: PartitionType, stored: seq<Byte>,
                           contents: seq<Byte>, version: Byte)
    requires base + 0x4_0000 <= |flash| && r <= 0x1FFE
  {
    && NsgStores(flash, base, r, t, stored)
    && if t == EELITE then contents == stored && flash[base + 32 * r + 7] == version
       else VersionFirst(stored, contents, version)
  }

  lemma HalfFrom(flash: seq<Byte>, at: nat)
    requires at + 2 <= |flash|
    ensures flash[at..at + 2] == Le16(Word16(flash[at], flash[at + 1]))
  {
    Le16Bytes(flash[at], flash[at + 1]);
    hide Le16, LeBytes;
  }

  lemma WordFrom(flash: seq<Byte>, at: nat)
    requires at + 4 <= |flash|
    ensures flash[at..at + 4] == Le32(Word32At(flash, at))
  {
    hide FromLe, LeBytes;
    FourBytes();
    LeRoundTrip(Word32At(flash, at), 4);
    FromLeInjective(flash[at..at + 4], Le32(Word32At(flash, at)));
  }

  lemma NsgMatchIff(flash: seq<Byte>, p: Partition, t: PartitionType, entry: nat, storedId: Word32)
    requires p.layout == NSG && p.Fits(flash) && entry + 32 <= p.Size() && StorableId(t, storedId)
    ensures KindOf(flash, p, t, PublicId(t, storedId), entry) == Match <==>
            NsgNames(flash, p.base + entry, t, storedId)
  {
    hide StateOf, StateAt, Word32At, Word16, Le16, Le32;
    var at := p.base + entry;
    StateRead(flash, p, entry);
    HalfFrom(flash, at + 4);
    WordFrom(flash, at + 4);
    if flash[at + 4..at + 8] == Le32(storedId) {
      WordIs(flash, at + 4, storedId);
    }
    if t == EELITE && flash[at + 4..at + 6] == Le16(storedId) {
      HalfIs(flash, at + 4, storedId);
    }
  }

  lemma NsgSizeRead(flash: seq<Byte>, p: Partition, t: PartitionType, entry: nat, size: Word32)
    requires p.layout == NSG && p.Fits(flash) && entry + 32 <= p.Size()
    requires NsgSize(flash, p.base + entry, t, size)
    ensures StoredSize(flash, p, t, entry) == size
  {
    hide Word32At, Word16, Le16, Le32;
    var at := p.base + entry;
    if t == EELITE {
      HalfIs(flash, at + 8, size);
    } else {
      WordIs(flash, at + 8, size);
    }
  }

  lemma FitsAbove(r: nat, size: nat)
    ensures InlineFits(32 * r, size) <==> 16 + size + 16 * (size / 16) <= 32 * r
  {}

  /** Counted from the end, inline bytes run backwards through the rows above. */
  lemma InlineFromEnd(r: nat, size: nat, d: nat)
    requires d < size && InlineFits(32 * r, size)
    ensures InlineOffset(32 * r, size, size - 1 - d) == 32 * r - 17 - 32 * (d / 16) - d % 16
  {
    var a, b := d / 16, d % 16;
    assert a <= size / 16;
    SlotFromEnd(r, a, b);
  }

  lemma SlotFromEnd(r: nat, a: nat, b: nat)
    requires a < r && b < 16
    ensures Slot(16 * r - 1 - (16 * a + b)) == 32 * r - 17 - 32 * a - b
  {
    QuotientIs(16 * (r - 1 - a) + (15 - b), 16, r - 1 - a, 15 - b);
  }

  lemma AboveAt(flash: seq<Byte>, base: nat, r: nat, stored: seq<Byte>, i: nat)
    requires base + 32 * r <= |flash| && StoredAbove(flash[base..], 32 * r, stored) && i < |stored|
    ensures InlineFits(32 * r, |stored|)
    ensures InlineOffset(32 * r, |stored|, i) <= 32 * r - 17
    ensures flash[base + InlineOffset(32 * r, |stored|, i)] == stored[i]
  {
    hide InlineOffset, InlineFits;
    var d := |stored| - 1 - i;
    FitsAbove(r, |stored|);
    InlineFromEnd(r, |stored|, d);
    assert flash[base..][32 * r - 17 - 32 * (d / 16) - d % 16] == stored[|stored| - 1 - d];
  }

  lemma NsgSmallRead(flash: seq<Byte>, p: Partition, t: PartitionType, r: nat, stored: seq<Byte>)
    requires p.layout == NSG && p.Fits(flash) && r <= 0x1FFE && 32 * r + 32 <= p.Size() && p.Aligned(32 * r)
    requires 0 < |stored| && Small(t, |stored|) && StoredAbove(flash[p.base..], 32 * r, stored)
    requires StoredSize(flash, p, t, 32 * r) == |stored|
    ensures Stored(flash, p, t, 32 * r) == Some(stored)
  {
    hide StoredSize, InlineOffset, InlineFits, StoredAbove;
    AboveAt(flash, p.base, r, stored, 0);
    var found := Stored(flash, p, t, 32 * r);
    forall i: nat | i < |stored|
      ensures found.value[i] == stored[i]
    {
      AboveAt(flash, p.base, r, stored, i);
      assert found.value[i] == At(flash, p, InlineOffset(32 * r, |stored|, i));
    }
    assert found.value == stored;
  }

  lemma NsgStoredRead(flash: seq<Byte>, p: Partition, t: PartitionType, r: nat, stored: seq<Byte>)
    requires p.layout == NSG && p.Fits(flash) && r <= 0x1FFE
    requires NsgStores(flash, p.base, r, t, stored)
    ensures 32 * r + 32 <= p.Size() && p.Aligned(32 * r)
    ensures Stored(flash, p, t, 32 * r) == Some(stored)
  {
    hide Word32At, Le32, NsgSize, StoredSize, InlineFits, StoredAbove;
    var entry, size := 32 * r, |stored|;
    NsgSizeRead(flash, p, t, entry, size);
    if Small(t, size) {
      NsgSmallRead(flash, p, t, r, stored);
    } else {
      var offset: Word32 :|
        && offset + size <= 0x4_0000
        && flash[p.base + entry + 12..p.base + entry + 16] == Le32(offset)
        && flash[p.base + offset..p.base + offset + size] == stored;
      WordIs(flash, p.base + entry + 12, offset);
    }
  }

  lemma NsgDecodes(flash: seq<Byte>, p: Partition, t: PartitionType, r: nat, stored: seq<Byte>, contents: seq<Byte>,
                   version: Byte)
    requires p.layout == NSG && p.Fits(flash) && r <= 0x1FFE
    requires NsgHolds(flash, p.base, r, t, stored, contents, version)
    ensures 32 * r + 32 <= p.Size() && p.Aligned(32 * r)
    ensures Decoded(flash, p, t, 32 * r) == Ok(contents, version)
  {
    hide NsgStores, Stored;
    NsgStoredRead(flash, p, t, r, stored);
  }

  ghost predicate NsgDecodable(flash: seq<Byte>, base: nat, r: nat, t: PartitionType)
    requires base + 0x4_0000 <= |flash| && r <= 0x1FFE
  {
    exists stored, contents, version :: NsgHolds(flash, base, r, t, stored, contents, version)
  }

  lemma NsgHeaderAt(flash: seq<Byte>, t: PartitionType, index: nat)
    requires NsgImage(flash, t, index)
    ensures HeaderAt(flash, 0x1_0000 * index + 0xFFE0, 32, NameOf(t))
  {
    hide Word32At, Word16, NameOf, NoHeaderBelow;
    HeaderRead(flash, 0x1_0000 * index + 0xFFE0, t);
  }

  lemma NsgPartitionAt(flash: seq<Byte>, t: PartitionType, index: nat)
    requires NsgImage(flash, t, index)
    ensures IsPartition(flash, t, index)
    ensures PartitionAt(flash, t, index) == Some(Partition(0x1_0000 * (index - 3), NSG))
  {
    hide IsHeader, HeaderAt, NameOf;
    NsgHeaderAt(flash, t, index);
    if 0x1_0000 * index + 0x2_0000 <= |flash| {
      NotAHeader(flash, 0x1_0000 * index, 16, t);
    }
  }

  /** Matching entries by their rows: entry `k` is row 0x1FFF - k. */
  lemma NsgMatchingRows(flash: seq<Byte>, p: Partition, t: PartitionType, storedId: Word32, k: nat)
    requires p.layout == NSG && p.Fits(flash) && StorableId(t, storedId)
    ensures p.EntryCount() == 0x1FFF
    ensures 1 <= k <= 0x1FFF ==>
              && p.EntryOffset(k) == 32 * (0x1FFF - k)
              && (Matches(flash, p, t, PublicId(t, storedId), k) <==>
                  NsgNames(flash, p.base + 32 * (0x1FFF - k), t, storedId))
  {
    hide NsgNames, KindOf, StorableId, PublicId;
    if 1 <= k <= 0x1FFF {
      NsgMatchIff(flash, p, t, p.EntryOffset(k), storedId);
    }
  }

  lemma NsgRowDecodes(flash: seq<Byte>, p: Partition, t: PartitionType, k: nat)
    requires p.layout == NSG && p.Fits(flash) && 1 <= k <= 0x1FFF && NsgDecodable(flash, p.base, 0x1FFF - k, t)
    ensures k <= p.EntryCount() && DecodedAt(flash, p, t, k) != Invalid
  {
    hide NsgHolds, Decoded;
    var stored, contents, version :| NsgHolds(flash, p.base, 0x1FFF - k, t, stored, contents, version);
    NsgDecodes(flash, p, t, 0x1FFF - k, stored, contents, version);
  }

  /** No row but `r` and those after it names the block, and every row that names it decodes. */
  ghost predicate LowestRow(flash: seq<Byte>, base: nat, r: nat, t: PartitionType, storedId: Word32)
    requires base + 0x4_0000 <= |flash| && r <= 0x1FFE && StorableId(t, storedId)
  {
    forall x: nat :: x <= 0x1FFE && NsgNames(flash, base + 32 * x, t, storedId) ==>
      r <= x && NsgDecodable(flash, base, x, t)
  }

  lemma NsgPartitionFinds(flash: seq<Byte>, p: Partition, t: PartitionType, r: nat, storedId: Word32,
                          stored: seq<Byte>, contents: seq<Byte>, version: Byte)
    requires p.layout == NSG && p.Fits(flash) && r <= 0x1FFE && StorableId(t, storedId)
    requires NsgNames(flash, p.base + 32 * r, t, storedId)
    requires NsgHolds(flash, p.base, r, t, stored, contents, version)
    requires LowestRow(flash, p.base, r, t, storedId)
    ensures NsgFinds(flash, p, t, PublicId(t, storedId), Ok(contents, version))
  {
    hide NsgNames, NsgHolds, NsgDecodable, KindAt, Decoded, StorableId, PublicId, Matches, LowestRow;
    var id, k := PublicId(t, storedId), 0x1FFF - r;
    NsgMatchingRows(flash, p, t, storedId, k);
    NsgDecodes(flash, p, t, r, stored, contents, version);
    forall j: nat | Matches(flash, p, t, id, j)
      ensures 1 <= j <= p.EntryCount() && j <= k && DecodedAt(flash, p, t, j) != Invalid
    {
      MatchInRange(flash, p, t, id, j);
      NsgMatchingRows(flash, p, t, storedId, j);
      LowestRowAt(flash, p.base, r, t, storedId, 0x1FFF - j);
      NsgRowDecodes(flash, p, t, j);
    }
  }

  lemma MatchInRange(flash: seq<Byte>, p: Partition, t: PartitionType, id: nat, k: nat)
    requires p.Fits(flash) && Matches(flash, p, t, id, k)
    ensures 1 <= k <= p.EntryCount()
  {
    hide KindAt;
  }

  lemma LowestRowAt(flash: seq<Byte>, base: nat, r: nat, t: PartitionType, storedId: Word32, x: nat)
    requires base + 0x4_0000 <= |flash| && r <= 0x1FFE && StorableId(t, storedId)
    requires LowestRow(flash, base, r, t, storedId) && x <= 0x1FFE && NsgNames(flash, base + 32 * x, t, storedId)
    ensures r <= x && NsgDecodable(flash, base, x, t)
  {
    hide NsgNames, NsgDecodable;
  }

  /** NSG: among the rows that name the block the one nearest the start of the partition gives data and version. */
  lemma NsgBlockFound(flash: seq<Byte>, t: PartitionType, index: nat, r: nat, storedId: Word32, stored: seq<Byte>,
                      contents: seq<Byte>, version: Byte)
    requires NsgImage(flash, t, index) && r <= 0x1FFE && StorableId(t, storedId)
    requires NsgNames(flash, 0x1_0000 * (index - 3) + 32 * r, t, storedId)
    requires NsgHolds(flash, 0x1_0000 * (index - 3), r, t, stored, contents, version)
    requires LowestRow(flash, 0x1_0000 * (index - 3), r, t, storedId)
    ensures Lookup(flash, t, PublicId(t, storedId), Ok(contents, version))
  {
    hide IsHeader, NoHeaderBelow, NsgNames, NsgHolds, LowestRow, NsgFinds, StorableId, PublicId, IsPartition,
         PartitionAt, NoneBefore;
    var p := Partition(0x1_0000 * (index - 3), NSG);
    NsgPartitionFinds(flash, p, t, r, storedId, stored, contents, version);
    NsgPartitionAt(flash, t, index);
    NothingBelow(flash, t, PublicId(t, storedId), index);
  }

  /**
   A row whose bytes are none, or do not fit above it, or do not lie in the partition, or are too few for
   the metadata their version asks for.
   */
  ghost predicate NsgUseless(flash: seq<Byte>, base: nat, r: nat, t: PartitionType)
    requires base + 0x4_0000 <= |flash| && r <= 0x1FFE
  {
    exists size: Word32 ::
      && NsgSize(flash, base + 32 * r, t, size)
      && (|| size == 0
          || (Small(t, size) && 16 + size + 16 * (size / 16) > 32 * r)
          || (!Small(t, size) && exists offset: Word32 ::
                && flash[base + 32 * r + 12..base + 32 * r + 16] == Le32(offset)
                && offset + size > 0x4_0000)
          || (t == EEFULL && size < 6 && exists stored ::
                && |stored| == size && NsgStores(flash, base, r, t, stored) && 0x80 <= stored[0] < 0xFF))
  }

  lemma NsgUselessSeen(flash: seq<Byte>, p: Partition, t: PartitionType, r: nat)
    requires p.layout == NSG && p.Fits(flash) && r <= 0x1FFE && NsgUseless(flash, p.base, r, t)
    ensures 32 * r + 32 <= p.Size() && p.Aligned(32 * r)
    ensures Decoded(flash, p, t, 32 * r) == Invalid
  {
    hide NsgSize, StoredSize, InlineFits, Le32, Word32At, NsgStores;
    var at := p.base + 32 * r;
    var size: Word32 :|
      && NsgSize(flash, at, t, size)
      && (|| size == 0
          || (Small(t, size) && 16 + size + 16 * (size / 16) > 32 * r)
          || (!Small(t, size) && exists offset: Word32 ::
                && flash[at + 12..at + 16] == Le32(offset)
                && offset + size > 0x4_0000)
          || (t == EEFULL && size < 6 && exists stored ::
                && |stored| == size && NsgStores(flash, p.base, r, t, stored) && 0x80 <= stored[0] < 0xFF));
    NsgSizeRead(flash, p, t, 32 * r, size);
    if size == 0 {
    } else if Small(t, size) && 16 + size + 16 * (size / 16) > 32 * r {
      FitsAbove(r, size);
    } else if !Small(t, size) && exists offset: Word32 :: flash[at + 12..at + 16] == Le32(offset)
                                                        && offset + size > 0x4_0000 {
      var offset: Word32 :| flash[at + 12..at + 16] == Le32(offset) && offset + size > 0x4_0000;
      WordIs(flash, at + 12, offset);
    } else {
      var stored :| |stored| == size && NsgStores(flash, p.base, r, t, stored) && 0x80 <= stored[0] < 0xFF;
      NsgStoredRead(flash, p, t, r, stored);
    }
  }

  lemma NsgPartitionInvalid(flash: seq<Byte>, p: Partition, t: PartitionType, r: nat, storedId: Word32)
    requires p.layout == NSG && p.Fits(flash) && r <= 0x1FFE && StorableId(t, storedId)
    requires NsgNames(flash, p.base + 32 * r, t, storedId) && NsgUseless(flash, p.base, r, t)
    ensures NsgFinds(flash, p, t, PublicId(t, storedId), Invalid)
  {
    hide NsgNames, NsgUseless, StorableId, PublicId, KindAt, Decoded, Matches;
    NsgUselessSeen(flash, p, t, r);
    NsgMatchingRows(flash, p, t, storedId, 0x1FFF - r);
    MatchInRange(flash, p, t, PublicId(t, storedId), 0x1FFF - r);
    assert DecodedAt(flash, p, t, 0x1FFF - r) == Invalid;
  }

  /** NSG: one useless row among those that name the block makes the lookup fail, wherever it lies. */
  lemma NsgBlockInvalid(flash: seq<Byte>, t: PartitionType, index: nat, r: nat, storedId: Word32)
    requires NsgImage(flash, t, index) && r <= 0x1FFE && StorableId(t, storedId)
    requires NsgNames(flash, 0x1_0000 * (index - 3) + 32 * r, t, storedId)
    requires NsgUseless(flash, 0x1_0000 * (index - 3), r, t)
    ensures Lookup(flash, t, PublicId(t, storedId), Invalid)
  {
    hide IsHeader, NoHeaderBelow, NsgNames, NsgUseless, NsgFinds, StorableId, PublicId, IsPartition, PartitionAt,
         NoneBefore;
    NsgPartitionInvalid(flash, Partition(0x1_0000 * (index - 3), NSG), t, r, storedId);
    NsgPartitionAt(flash, t, index);
    NothingBelow(flash, t, PublicId(t, storedId), index);
  }

  /** What a caller of the parser sees. */
  ghost predicate CallerSees(flash: seq<Byte>, t: PartitionType, id: nat, contents: seq<Byte>, version: Byte) {
    forall result, b :: Reported(flash, t, id, result, b) ==>
      result == ResultOk && DataOf(flash, b) == contents && b.version == version
  }

  lemma SeenByCaller(flash: seq<Byte>, t: PartitionType, id: nat, contents: seq<Byte>, version: Byte)
    requires Lookup(flash, t, id, Ok(contents, version))
    ensures CallerSees(flash, t, id, contents, version)
  {
    hide Lookup, DataOf, Answers;
    forall result, b | Reported(flash, t, id, result, b)
      ensures result == ResultOk && DataOf(flash, b) == contents && b.version == version
    {
      var o :| Lookup(flash, t, id, o) && Answers(flash, t, result, b, o);
      LookupOne(flash, t, id, o, Ok(contents, version));
      DataIsContents(flash, t, result, b, o);
    }
  }

  /** The other outcomes, as the caller is told them. */
  lemma ToldCaller(flash: seq<Byte>, t: PartitionType, id: nat, result: Result, b: Block)
    requires Reported(flash, t, id, result, b)
    ensures Lookup(flash, t, id, Invalid) ==> result == ResultInvalid
    ensures Lookup(flash, t, id, NotFound) ==> result == BlockNotFound
    ensures Lookup(flash, t, id, NoPartition) ==> result == PartitionNotFound
  {
    hide Lookup;
    var o :| Lookup(flash, t, id, o) && Answers(flash, t, result, b, o);
    hide Answers;
    forall x | Lookup(flash, t, id, x)
      ensures x == o
    {
      LookupOne(flash, t, id, x, o);
    }
    OutcomeTold(flash, t, result, b, o);
  }

  lemma OutcomeTold(flash: seq<Byte>, t: PartitionType, result: Result, b: Block, o: Outcome)
    requires Answers(flash, t, result, b, o)
    ensures o == Invalid ==> result == ResultInvalid
    ensures o == NotFound ==> result == BlockNotFound
    ensures o == NoPartition ==> result == PartitionNotFound
  {
    hide PartitionAt, IsPartition;
  }

  // ----- images with one block

  function Blank(n: nat): seq<Byte> {
    seq(n, _ => 0xFF)
  }

  function HeaderBytes(t: PartitionType): (s: seq<Byte>)
    ensures |s| == 16
  {
    NameBytes(t) + [0xFF, 0xFF, 0, 0, 0xF0, 0xFF, 0xFF, 0xFF]
  }

  /** Header, data, erased space and one row. */
  function SgBuilt(t: PartitionType, storedId: Word32, stored: seq<Byte>): (flash: seq<Byte>)
    requires |stored| <= 0x1_FFE0
    ensures |flash| == 0x2_0000
  {
    HeaderBytes(t) + stored + Blank(0x1_FFE0 - |stored|)
    + ([0x80, 0xAA, 0xAA, 0xAA] + Le32(storedId) + Le32(|stored|) + Le32(16))
  }

  lemma SgBuiltRow(t: PartitionType, storedId: Word32, stored: seq<Byte>)
    requires |stored| <= 0x1_FFE0
    ensures SgRow(SgBuilt(t, storedId, stored), 0x1_FFF0, storedId, |stored|, 16)
  {
    hide StateOf, Le32;
    var flash := SgBuilt(t, storedId, stored);
    var row: seq<Byte> := [0x80, 0xAA, 0xAA, 0xAA] + Le32(storedId) + Le32(|stored|) + Le32(16);
    assert flash[0x1_FFF0..] == row;
    assert flash[0x1_FFF0..0x1_FFF4] == row[..4] == [0x80, 0xAA, 0xAA, 0xAA];
    StateBytes(flash, 0x1_FFF0);
    assert flash[0x1_FFF4..0x1_FFF8] == row[4..8] == Le32(storedId);
    assert flash[0x1_FFF8..0x1_FFFC] == row[8..12] == Le32(|stored|);
    assert flash[0x1_FFFC..0x2_0000] == row[12..16] == Le32(16);
  }

  /** SG, block by block: what is written into an image is what the caller of the parser gets. */
  lemma SgRoundTrip(t: PartitionType, storedId: Word32, stored: seq<Byte>, contents: seq<Byte>, version: Byte)
    requires StorableId(t, storedId) && |stored| <= 0x1_FFE0 && SgStores(t, stored, contents, version)
    ensures CallerSees(SgBuilt(t, storedId, stored), t, PublicId(t, storedId), contents, version)
  {
    hide StorableId, PublicId, SgRow, Le32, Blank, CallerSees, SgStores, Lookup;
    var flash := SgBuilt(t, storedId, stored);
    SgBuiltRow(t, storedId, stored);
    SgBuiltHeader(t, storedId, stored);
    SgStoresSome(t, stored, contents, version);
    assert flash[16..16 + |stored|] == stored;
    SgBlockFound(flash, t, 0, 1, storedId, stored, 16, contents, version);
    SeenByCaller(flash, t, PublicId(t, storedId), contents, version);
  }

  lemma SgBuiltHeader(t: PartitionType, storedId: Word32, stored: seq<Byte>)
    requires |stored| <= 0x1_FFE0
    ensures SgImage(SgBuilt(t, storedId, stored), t, 0)
  {
    hide Le32, Blank;
    var flash, h := SgBuilt(t, storedId, stored), HeaderBytes(t);
    assert flash[0..8] == h[..8] && flash[10..16] == h[10..16];
  }

  lemma SgStoresSome(t: PartitionType, stored: seq<Byte>, contents: seq<Byte>, version: Byte)
    requires SgStores(t, stored, contents, version)
    ensures 0 < |stored|
  {}

  /** The bytes of a row: state, number, version where it has a place there, size; the rest is erased. */
  function NsgRowBytes(t: PartitionType, storedId: Word32, version: Byte, size: nat): (row: seq<Byte>)
    requires StorableId(t, storedId) && size <= 12
    ensures |row| == 32
  {
    if t == EELITE then [0x80, 0xAA, 0xAA, 0xAA] + Le16(storedId) + [0xFF, version] + Le16(size) + Blank(22)
    else [0x80, 0xAA, 0xAA, 0xAA] + Le32(storedId) + Le32(size) + Blank(20)
  }

  /** Erased space, up to twelve bytes of data, the gap below them, one row, header. */
  function NsgBuilt(t: PartitionType, storedId: Word32, stored: seq<Byte>, version: Byte): (flash: seq<Byte>)
    requires StorableId(t, storedId) && |stored| <= 12
    ensures |flash| == 0x4_0000
  {
    Blank(0x3_FFB0 - |stored|) + stored + Blank(16) + NsgRowBytes(t, storedId, version, |stored|)
    + (HeaderBytes(t) + Blank(16))
  }

  lemma NsgBuiltHeader(t: PartitionType, storedId: Word32, stored: seq<Byte>, version: Byte)
    requires StorableId(t, storedId) && |stored| <= 12
    ensures NsgImage(NsgBuilt(t, storedId, stored, version), t, 3)
  {
    hide StorableId, NsgRowBytes;
    var flash, h := NsgBuilt(t, storedId, stored, version), HeaderBytes(t);
    assert flash[0x3_FFE0..0x3_FFE8] == h[..8] && flash[0x3_FFEA..0x3_FFF0] == h[10..16];
  }

  lemma NsgBuiltRow(t: PartitionType, storedId: Word32, stored: seq<Byte>, version: Byte)
    requires StorableId(t, storedId) && |stored| <= 12
    ensures var flash := NsgBuilt(t, storedId, stored, version);
            && NsgNames(flash, 0x3_FFC0, t, storedId) && NsgSize(flash, 0x3_FFC0, t, |stored|)
            && (t == EELITE ==> flash[0x3_FFC7] == version)
  {
    hide StateOf, Le32, Le16, HeaderBytes;
    var flash := NsgBuilt(t, storedId, stored, version);
    var row := NsgRowBytes(t, storedId, version, |stored|);
    assert flash[0x3_FFC0..0x3_FFC4] == row[..4] == [0x80, 0xAA, 0xAA, 0xAA];
    StateBytes(flash, 0x3_FFC0);
    if t == EELITE {
      assert flash[0x3_FFC4..0x3_FFC6] == row[4..6] == Le16(storedId);
      assert flash[0x3_FFC8..0x3_FFCA] == row[8..10] == Le16(|stored|);
      assert flash[0x3_FFC7] == row[7];
    } else {
      assert flash[0x3_FFC4..0x3_FFC8] == row[4..8] == Le32(storedId);
      assert flash[0x3_FFC8..0x3_FFCC] == row[8..12] == Le32(|stored|);
    }
  }

  lemma NsgBuiltData(t: PartitionType, storedId: Word32, stored: seq<Byte>, version: Byte)
    requires StorableId(t, storedId) && 0 < |stored| <= 12
    ensures NsgStores(NsgBuilt(t, storedId, stored, version), 0, 0x1FFE, t, stored)
  {
    hide StorableId, NsgRowBytes, NsgNames, HeaderBytes;
    NsgBuiltRow(t, storedId, stored, version);
    var flash := NsgBuilt(t, storedId, stored, version);
    assert flash[0..] == flash;
    forall d: nat | d < |stored|
      ensures flash[0x3_FFC0 - 17 - 32 * (d / 16) - d % 16] == stored[|stored| - 1 - d]
    {
      assert d / 16 == 0 && d % 16 == d;
    }
  }

  lemma NsgBuiltBlank(t: PartitionType, storedId: Word32, stored: seq<Byte>, version: Byte, x: nat)
    requires StorableId(t, storedId) && |stored| <= 12 && x <= 0x1FFD
    ensures !NsgNames(NsgBuilt(t, storedId, stored, version), 32 * x, t, storedId)
  {
    hide StorableId, NsgRowBytes, HeaderBytes, StateOf;
    var flash := NsgBuilt(t, storedId, stored, version);
    assert flash[32 * x..32 * x + 4] == [0xFF, 0xFF, 0xFF, 0xFF];
    StateBytes(flash, 32 * x);
  }

  /** NSG, block by block: data right above its row, found with the version from the row or from the data. */
  lemma NsgRoundTrip(t: PartitionType, storedId: Word32, stored: seq<Byte>, contents: seq<Byte>, version: Byte)
    requires StorableId(t, storedId) && 0 < |stored| <= 12
    requires if t == EELITE then contents == stored else VersionFirst(stored, contents, version)
    ensures CallerSees(NsgBuilt(t, storedId, stored, version), t, PublicId(t, storedId), contents, version)
  {
    hide StorableId, PublicId, NsgBuilt, NsgNames, NsgStores, NsgSize, VersionFirst, CallerSees, Lookup;
    var flash := NsgBuilt(t, storedId, stored, version);
    NsgBuiltHeader(t, storedId, stored, version);
    NsgBuiltRow(t, storedId, stored, version);
    NsgBuiltData(t, storedId, stored, version);
    assert NsgHolds(flash, 0, 0x1FFE, t, stored, contents, version);
    assert LowestRow(flash, 0, 0x1FFE, t, storedId) by {
      forall x: nat | x <= 0x1FFD
        ensures !NsgNames(flash, 32 * x, t, storedId)
      {
        NsgBuiltBlank(t, storedId, stored, version, x);
      }
    }
    NsgBlockFound(flash, t, 3, 0x1FFE, storedId, stored, contents, version);
    SeenByCaller(flash, t, PublicId(t, storedId), contents, version);
  }
}
