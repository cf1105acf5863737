/**
 The host end of the loader (boot.py) driving the device, and what the two achieve together:
 whatever the payload, the device ends up holding it.
 */
module Loader {
  import opened Bytes
  import opened Memory
  import opened Frames
  import opened Preloader
  import Crc32
  import Lz4Format
  import Lz4Decoder
  import Lz4Encoder

  // ----- compress, then decompress

  /** The device's decompressor undoes the host's compressor, for any data and any place that does not overlap. */
  method DecompressCompressed(memory: array<Byte>, input: Word32, inputSize: Word32, output: Word32,
                              data: seq<Byte>, ghost block: Lz4Format.Block)
    returns (ok: bool)
    requires memory.Length == WORD && |data| < WORD
    requires Lz4Encoder.GreedyBlock(data, block)
    requires forall s <- block.sequences :: Lz4Format.WellFormed(s)
    requires Range(memory[..], input, inputSize) == Lz4Format.BlockBytes(block)
    requires Disjoint(input, inputSize, output, |data|)
    modifies memory
    ensures ok && Range(memory[..], output, |data|) == data
    ensures SameOutside(old(memory[..]), memory[..], output, |data|)
  {
    hide Lz4Encoder.GreedyBlock, Lz4Format.BlockBytes, Lz4Format.Decode, Disjoint, Range, SameOutside;
    Lz4Encoder.GreedyBlockDecodes(data, block);
    ok := Lz4Decoder.Decompress(memory, input, inputSize, output, |data|);
  }

  // ----- every frame is answered once, in order

  function Answers(f: Frame): nat {
    if f.Noise? then 0 else 1
  }

  function AnswersOf(fs: seq<Frame>): nat {
    if fs == [] then 0 else AnswersOf(fs[..|fs| - 1]) + Answers(fs[|fs| - 1])
  }

  lemma AnswerLength(m: seq<Byte>, f: Frame, m': seq<Byte>, status: seq<Byte>)
    requires Serves(m, f, m', status)
    ensures |status| == Answers(f)
  {
    hide Decompressed, Written, Mappable, Crc32.ChecksumWord;
  }

  /** The k-th step of a run has just served the k-th frame, and the rest of the stream is still whole. */
  ghost predicate InStep(fs: seq<Frame>, trace: seq<State>, k: nat)
    requires forall f <- fs :: Sendable(f)
  {
    && k < |trace| && k <= |fs|
    && trace[k].rx == EncodeAll(fs[k..])
    && |trace[k].tx| == |trace[0].tx| + AnswersOf(fs[..k])
    && (k > 0 ==>
          && trace[k - 1].tx <= trace[k].tx
          && Serves(trace[k - 1].memory, fs[k - 1], trace[k].memory, trace[k].tx[|trace[k - 1].tx|..]))
  }

  /** However sizes and checksums are declared, a run over encoded frames never loses the frame boundaries. */
  lemma {:induction false} Synchronised(fs: seq<Frame>, trace: seq<State>, k: nat)
    requires forall f <- fs :: Sendable(f) && !f.Goto?
    requires IsRun(trace) && trace[0].rx == EncodeAll(fs)
    requires k < |trace|
    ensures InStep(fs, trace, k)
    decreases k
  {
    hide Serves, Parse, Encode, Sendable;
    if k == 0 {
      assert fs[0..] == fs && fs[..0] == [];
    } else {
      Synchronised(fs, trace, k - 1);
      var before, after, rest := trace[k - 1], trace[k], fs[k - 1..];
      assert Step(before, after);
      if rest == [] {
        NothingToParse();
      } else {
        var f := rest[0];
        assert f == fs[k - 1] && rest[1..] == fs[k..];
        ParseEncode(f, EncodeAll(fs[k..]));
        AnswerLength(before.memory, f, after.memory, after.tx[|before.tx|..]);
        assert fs[..k][..k - 1] == fs[..k - 1] && fs[..k][k - 1] == f;
      }
    }
  }

  lemma NothingToParse()
    ensures Parse([]) == Incomplete
  {}

  lemma {:induction false} AllAnswered(fs: seq<Frame>)
    requires forall f <- fs :: !f.Noise?
    ensures AnswersOf(fs) == |fs|
    decreases |fs|
  {
    if fs != [] {
      AllAnswered(fs[..|fs| - 1]);
      assert fs[|fs| - 1] in fs;
    }
  }

  /** A run that can go no further has answered every frame exactly once. */
  lemma StreamAnswered(fs: seq<Frame>, trace: seq<State>)
    requires forall f <- fs :: Sendable(f) && !f.Goto? && !f.Noise?
    requires IsRun(trace) && trace[0].rx == EncodeAll(fs)
    requires Parse(trace[|trace| - 1].rx).Incomplete?
    ensures |trace| == |fs| + 1
    ensures trace[|fs|].rx == []
    ensures |trace[|fs|].tx| == |trace[0].tx| + |fs|
  {
    hide Serves, Parse, Encode, Sendable, Step;
    var k := |trace| - 1;
    Synchronised(fs, trace, k);
    AllAnswered(fs[..k]);
    MoreToParse(fs[k..]);
  }

  lemma MoreToParse(fs: seq<Frame>)
    requires forall f <- fs :: Sendable(f)
    ensures fs != [] ==> Parse(EncodeAll(fs)).Parsed?
  {
    hide Parse, Encode, Sendable;
    if fs != [] {
      ParseEncode(fs[0], EncodeAll(fs[1..]));
    }
  }

  // ----- the payload

  const SRAM_START: Word32 := 0x0008_0000
  const SRAM_END: Word32 := 0x0009_8000
  const EXTRAM_ADDRESS: Word32 := 0xB000_0000
  const EXTRAM_SIZE: Word32 := 0x0200_0000

  /** The regions boot.py accepts for a payload. */
  predicate FitsRegion(address: Word32, size: nat) {
    || (SRAM_START <= address < SRAM_END && size <= SRAM_END - address)
    || (EXTRAM_ADDRESS <= address < EXTRAM_ADDRESS + EXTRAM_SIZE && size <= EXTRAM_ADDRESS + EXTRAM_SIZE - address)
  }

  /** Internal memory from 512 KiB on, 96 KiB of it, and 32 MiB of external memory. */
  lemma Regions(address: Word32, size: nat)
    ensures FitsRegion(address, size) <==>
            || (0x0008_0000 <= address < 0x0009_8000 && address + size <= 0x0009_8000)
            || (0xB000_0000 <= address < 0xB200_0000 && address + size <= 0xB200_0000)
  {}

  /** What boot.py sends for one block: compressed if that is shorter, raw otherwise. */
  ghost predicate HostFrame(address: Word32, data: seq<Byte>, f: Frame) {
    exists b: Lz4Format.Block :: ChosenFrame(address, data, b, f)
  }

  ghost predicate ChosenFrame(address: Word32, data: seq<Byte>, b: Lz4Format.Block, f: Frame) {
    && Lz4Encoder.GreedyBlock(data, b)
    && (forall s <- b.sequences :: Lz4Format.WellFormed(s))
    && var compressed := Lz4Format.BlockBytes(b);
       f == if |compressed| < |data| then WriteLz4(address, compressed, |data| % WORD, Crc32.ChecksumWord(data))
            else WriteRam(address, data, Crc32.ChecksumWord(data))
  }

  /** Every host frame passes the device's size checks and decodes to its block. */
  lemma HostFrameFits(address: Word32, data: seq<Byte>, f: Frame)
    requires HostFrame(address, data, f) && |data| <= BLOCK_SIZE
    ensures Sendable(f) && !f.Goto? && !f.Noise?
    ensures f == WriteRam(address, data, Crc32.ChecksumWord(data)) ||
            (f.WriteLz4? && f.address == address && f.outputSize == |data| && f.crc == Crc32.ChecksumWord(data)
             && |f.compressed| < BLOCK_SIZE && Lz4Format.Decode(f.compressed) == Some(data))
  {
    hide Lz4Format.Decode, Crc32.ChecksumWord, Lz4Encoder.GreedyBlock, Lz4Format.WellFormed, Lz4Format.BlockBytes;
    var b :| ChosenFrame(address, data, b, f);
    Lz4Encoder.GreedyBlockDecodes(data, b);
  }

  /** The bytes of a write frame that stand for its block. */
  function DataField(f: Frame): seq<Byte>
    requires f.WriteLz4? || f.WriteRam?
  {
    if f.WriteLz4? then f.compressed else f.data
  }

  /** Of the two forms of a block the host sends the shorter one, and the raw one when they are equally long. */
  lemma ShorterFormSent(address: Word32, data: seq<Byte>, b: Lz4Format.Block, f: Frame)
    requires HostFrame(address, data, f) && Lz4Encoder.GreedyBlock(data, b)
    ensures forall s <- b.sequences :: Lz4Format.WellFormed(s)
    ensures f.WriteLz4? || f.WriteRam?
    ensures f.WriteLz4? <==> |Lz4Format.BlockBytes(b)| < |data|
    ensures |DataField(f)| == Min(|Lz4Format.BlockBytes(b)|, |data|)
    ensures DataField(f) == data || DataField(f) == Lz4Format.BlockBytes(b)
  {
    hide Lz4Encoder.GreedyBlock, Lz4Format.BlockBytes, Crc32.ChecksumWord, Lz4Format.WellFormed;
    var c :| ChosenFrame(address, data, c, f);
    Lz4Encoder.GreedyBlockUnique(data, b, c);
  }

  /** "abcd" five times, to the start of the internal memory: the bytes on the wire up to the checksum. */
  lemma SampleOnTheWire(data: seq<Byte>, f: Frame)
    requires data == Lz4Encoder.SAMPLE + Lz4Encoder.SAMPLE + Lz4Encoder.SAMPLE + Lz4Encoder.SAMPLE + Lz4Encoder.SAMPLE
    requires HostFrame(0x0008_0000, data, f)
    ensures Sendable(f)
    ensures Encode(f) == [0x4C, 0, 0, 8, 0, 13, 0, 0, 0, 20, 0, 0, 0]
                         + [0x47, 0x61, 0x62, 0x63, 0x64, 0x04, 0x00, 0x50, 0x64, 0x61, 0x62, 0x63, 0x64]
                         + Le32(Crc32.ChecksumWord(data))
  {
    hide Lz4Encoder.GreedyBlock, Lz4Format.BlockBytes, Crc32.ChecksumWord, Lz4Format.WellFormed, Le32;
    var b :| ChosenFrame(0x0008_0000, data, b, f);
    Lz4Encoder.SampleBlock(data, b);
    Le32Bytes(0, 0, 8, 0);
    Le32Bytes(13, 0, 0, 0);
    Le32Bytes(20, 0, 0, 0);
  }

  /** Outside the scratch block, memory is `m0` with `data` stored from `address` on. */
  ghost predicate Loaded(m0: seq<Byte>, m: seq<Byte>, address: Word32, data: seq<Byte>) {
    && |m0| == |m| == WORD
    && forall i: Word32 :: Offset(DTCM_ADDRESS, i) >= BLOCK_SIZE ==>
         m[i] == if Offset(address, i) < |data| then data[Offset(address, i)] else m0[i]
  }

  lemma RegionAvoidsScratch(address: Word32, size: nat, a: nat, n: nat)
    requires FitsRegion(address, size) && a + n <= size && a + address < WORD
    ensures Disjoint(DTCM_ADDRESS, BLOCK_SIZE, address + a, n)
  {}

  /** One block, raw or compressed, extends what is loaded and is answered with success. */
  lemma BlockLoaded(m0: seq<Byte>, m: seq<Byte>, m': seq<Byte>, address: Word32, before: seq<Byte>, block: seq<Byte>,
                    f: Frame, status: seq<Byte>)
    requires FitsRegion(address, |before| + |block|)
    requires |block| <= BLOCK_SIZE && address + |before| < WORD
    requires Loaded(m0, m, address, before)
    requires HostFrame(address + |before|, block, f) && Serves(m, f, m', status)
    ensures Loaded(m0, m', address, before + block)
    ensures status == [STATUS_SUCCESS]
  {
    hide Lz4Format.Decode, Crc32.ChecksumWord, HostFrame;
    HostFrameFits(address + |before|, block, f);
    RegionAvoidsScratch(address, |before| + |block|, |before|, |block|);
    BlockStored(m, m', address + |before|, block, f, status);
    LoadedGrows(m0, m, m', address, before, block);
  }

  lemma LoadedGrows(m0: seq<Byte>, m: seq<Byte>, m': seq<Byte>, address: Word32, before: seq<Byte>, block: seq<Byte>)
    requires FitsRegion(address, |before| + |block|) && address + |before| < WORD
    requires Loaded(m0, m, address, before)
    requires Loaded(m, m', address + |before|, block)
    ensures Loaded(m0, m', address, before + block)
  {}

  lemma BlockStored(m: seq<Byte>, m': seq<Byte>, at: Word32, block: seq<Byte>, f: Frame, status: seq<Byte>)
    requires |block| <= BLOCK_SIZE
    requires Disjoint(DTCM_ADDRESS, BLOCK_SIZE, at, |block|)
    requires f == WriteRam(at, block, Crc32.ChecksumWord(block)) ||
             (f.WriteLz4? && f.address == at && f.outputSize == |block| && f.crc == Crc32.ChecksumWord(block)
              && |f.compressed| < BLOCK_SIZE && Lz4Format.Decode(f.compressed) == Some(block))
    requires Serves(m, f, m', status)
    ensures Loaded(m, m', at, block)
    ensures status == [STATUS_SUCCESS]
  {
    hide Lz4Format.Decode, Crc32.ChecksumWord;
    if f.WriteLz4? {
      assert Disjoint(DTCM_ADDRESS, |f.compressed|, at, |block|);
      var ok: bool :| Decompressed(m, m', at, f.compressed, |block|, f.crc, ok) && status == [StatusOf(ok)];
      assert ok;
      var stored := Range(m', at, |block|);
      forall i: Word32 | Offset(DTCM_ADDRESS, i) >= BLOCK_SIZE
        ensures m'[i] == if Offset(at, i) < |block| then block[Offset(at, i)] else m[i]
      {
        if Offset(at, i) < |block| {
          assert Addr(at, Offset(at, i)) == i;
          assert stored[Offset(at, i)] == block[Offset(at, i)];
        }
      }
    }
  }

  /** Bytes covered by the first `k` blocks. */
  function Upto(data: seq<Byte>, k: nat): (n: nat)
    ensures n <= |data|
  {
    Min(k * BLOCK_SIZE, |data|)
  }

  function BlockAt(data: seq<Byte>, k: nat): seq<Byte> {
    data[Upto(data, k)..Upto(data, k + 1)]
  }

  /** What boot.py sends for the k-th block of a payload. */
  ghost predicate FrameOf(address: Word32, data: seq<Byte>, k: nat, f: Frame) {
    address + Upto(data, k) < WORD && HostFrame(address + Upto(data, k), BlockAt(data, k), f)
  }

  /** The frames preloader_write_payload sends, one for each 4 KiB of payload. */
  ghost predicate PayloadFrames(address: Word32, data: seq<Byte>, fs: seq<Frame>) {
    && FitsRegion(address, |data|)
    && (|fs| - 1) * BLOCK_SIZE < |data| <= |fs| * BLOCK_SIZE
    && forall k: nat :: k < |fs| ==> FrameOf(address, data, k, fs[k])
  }

  /** One frame for every 4096 bytes begun, each for at most 4096 of them. */
  lemma PayloadFrameCount(address: Word32, data: seq<Byte>, fs: seq<Frame>, k: nat)
    requires PayloadFrames(address, data, fs) && k < |fs|
    ensures |fs| == (|data| + 4095) / 4096
    ensures 4096 * k < |data|
    ensures HostFrame(address + 4096 * k, data[4096 * k..Min(4096 * k + 4096, |data|)], fs[k])
  {
    hide HostFrame;
  }

  lemma PayloadFramesSendable(address: Word32, data: seq<Byte>, fs: seq<Frame>)
    requires PayloadFrames(address, data, fs)
    ensures forall f <- fs :: Sendable(f) && !f.Goto? && !f.Noise?
  {
    hide HostFrame, Sendable;
    forall f | f in fs
      ensures Sendable(f) && !f.Goto? && !f.Noise?
    {
      var k: nat :| k < |fs| && fs[k] == f;
      assert |BlockAt(data, k)| <= BLOCK_SIZE;
      HostFrameFits(address + Upto(data, k), BlockAt(data, k), f);
    }
  }

  lemma BlocksJoin(data: seq<Byte>, k: nat)
    ensures data[..Upto(data, k)] + BlockAt(data, k) == data[..Upto(data, k + 1)]
    ensures |BlockAt(data, k)| <= BLOCK_SIZE
  {}

  /** After k frames exactly the first k blocks are in memory, each acknowledged. */
  lemma {:induction false} PayloadProgress(address: Word32, data: seq<Byte>, fs: seq<Frame>, trace: seq<State>, k: nat)
    requires PayloadFrames(address, data, fs)
    requires forall f <- fs :: Sendable(f) && !f.Goto? && !f.Noise?
    requires IsRun(trace) && trace[0].rx == EncodeAll(fs) && |trace[0].memory| == WORD
    requires k < |trace|
    ensures k <= |fs|
    ensures Loaded(trace[0].memory, trace[k].memory, address, data[..Upto(data, k)])
    ensures trace[k].tx == trace[0].tx + seq(k, _ => STATUS_SUCCESS)
    decreases k
  {
    hide Serves, Parse, Encode, Sendable, Step, HostFrame, BlockAt, EncodeAll, AnswersOf;
    Synchronised(fs, trace, k);
    if k > 0 {
      PayloadProgress(address, data, fs, trace, k - 1);
      var before, after := trace[k - 1], trace[k];
      var n := Upto(data, k - 1);
      BlocksJoin(data, k - 1);
      assert |data[..n]| == n;
      BlockLoaded(trace[0].memory, before.memory, after.memory, address, data[..n], BlockAt(data, k - 1),
                  fs[k - 1], after.tx[|before.tx|..]);
      assert after.tx == before.tx + [STATUS_SUCCESS];
    }
  }

  /**
   End to end: any run of the device over the host's frames that can go no further has
   acknowledged every block and delivered the payload.
   */
  lemma PayloadDelivered(address: Word32, data: seq<Byte>, fs: seq<Frame>, trace: seq<State>)
    requires PayloadFrames(address, data, fs)
    requires forall f <- fs :: Sendable(f)
    requires IsRun(trace) && trace[0].rx == EncodeAll(fs) && |trace[0].memory| == WORD
    requires Parse(trace[|trace| - 1].rx).Incomplete?
    ensures var last := trace[|trace| - 1];
            && Delivered(trace[0].memory, last.memory, address, data)
            && last.rx == []
            && last.tx == trace[0].tx + seq(|fs|, _ => STATUS_SUCCESS)
  {
    hide Serves, Parse, Encode, Sendable, Step, HostFrame, EncodeAll, Loaded, Delivered, BlockAt;
    PayloadFramesSendable(address, data, fs);
    StreamAnswered(fs, trace);
    PayloadProgress(address, data, fs, trace, |fs|);
    assert data[..Upto(data, |fs|)] == data;
    LoadedRange(trace[0].memory, trace[|fs|].memory, address, data);
  }

  /** The payload is in place, and memory is otherwise untouched but for the scratch block. */
  ghost predicate Delivered(m0: seq<Byte>, m: seq<Byte>, address: Word32, data: seq<Byte>) {
    && |m0| == |m| == WORD && |data| < WORD
    && Range(m, address, |data|) == data
    && forall i: Word32 :: Offset(address, i) >= |data| && Offset(DTCM_ADDRESS, i) >= BLOCK_SIZE ==> m[i] == m0[i]
  }

  /** Delivered, in absolute addresses: the payload, and everything else but 4 KiB from 01002000 on. */
  lemma DeliveredBytes(m0: seq<Byte>, m: seq<Byte>, address: Word32, data: seq<Byte>, i: nat)
    requires Delivered(m0, m, address, data) && FitsRegion(address, |data|) && i < 0x1_0000_0000
    ensures m[address..address + |data|] == data
    ensures !(address <= i < address + |data|) && !(0x0100_2000 <= i < 0x0100_3000) ==> m[i] == m0[i]
  {
    RangeIsSlice(m, address, |data|);
    hide Range;
    var j: Word32 := i;
    assert Offset(address, j) >= |data| && Offset(DTCM_ADDRESS, j) >= BLOCK_SIZE ==> m[j] == m0[j];
  }

  lemma LoadedRange(m0: seq<Byte>, m: seq<Byte>, address: Word32, data: seq<Byte>)
    requires Loaded(m0, m, address, data) && FitsRegion(address, |data|)
    ensures Delivered(m0, m, address, data)
  {
    forall k | 0 <= k < |data|
      ensures m[Addr(address, k)] == data[k]
    {
      assert Offset(address, Addr(address, k)) == k;
    }
  }

  /** A raw block damaged in at most four consecutive bytes on the way is refused. */
  lemma CorruptedWriteRefused(m: seq<Byte>, m': seq<Byte>, address: Word32, before: seq<Byte>, sent: seq<Byte>,
                              received: seq<Byte>, after: seq<Byte>, status: seq<Byte>)
    requires |sent| == |received| <= 4 && sent != received
    requires Serves(m, WriteRam(address, before + received + after, Crc32.ChecksumWord(before + sent + after)), m',
        status)
    ensures status == [STATUS_FAILURE]
  {
    hide Crc32.ChecksumWord, Written;
    Crc32.CorruptionDetected(before, sent, received, after);
  }

  // ----- the host's procedures, run against the device

  /** expect_byte: lets the device work off what was written and reads the one status it sends. */
  method ExpectSuccess(device: Device, ghost f: Frame) returns (ok: bool)
    requires device.Valid() && Sendable(f) && !f.Goto? && !f.Noise?
    requires device.rx == Encode(f)
    modifies device, device.memory
    ensures device.rx == [] && old(device.tx) <= device.tx
    ensures Serves(old(device.memory[..]), f, device.memory[..], device.tx[|old(device.tx)|..])
    ensures ok == (device.tx == old(device.tx) + [STATUS_SUCCESS])
  {
    hide Serves, Parse, Encode, Sendable, Step;
    var sent := |device.tx|;
    ghost var fs := [f];
    assert fs[1..] == [];
    assert EncodeAll([]) == [];
    assert EncodeAll(fs) == Encode(f) + [];
    var outcome, trace := device.Run();
    NoGotoInside(f, trace, outcome, State(device.memory[..], device.rx, device.tx));
    StreamAnswered(fs, trace);
    Synchronised(fs, trace, 1);
    ok := |device.tx| > sent && device.tx[sent] == STATUS_SUCCESS;
  }

  lemma NoGotoInside(f: Frame, trace: seq<State>, outcome: Outcome, now: State)
    requires Sendable(f) && !f.Goto? && !f.Noise?
    requires IsRun(trace) && trace[0].rx == Encode(f) && EndsWith(trace[|trace| - 1], outcome, now)
    ensures outcome.Blocked?
  {
    hide Serves, Parse, Encode, Sendable;
    ghost var fs := [f];
    assert fs[1..] == [];
    assert EncodeAll([]) == [];
    assert EncodeAll(fs) == Encode(f) + [];
    var k := |trace| - 1;
    Synchronised(fs, trace, k);
    if k == 0 {
      assert Encode(f) + [] == Encode(f);
      ParseEncode(f, []);
    } else {
      assert fs[k..] == [];
      NothingToParse();
    }
  }

  /** The host's end of the line: what it writes arrives at the device, and `sent` keeps all of it. */
  class Port {
    const device: Device
    var sent: seq<Byte>

    constructor (device: Device)
      ensures this.device == device && sent == []
    {
      this.device := device;
      sent := [];
    }

    method Write(bytes: seq<Byte>)
      modifies this, device`rx
      ensures sent == old(sent) + bytes && device.rx == old(device.rx) + bytes
    {
      sent := sent + bytes;
      device.rx := device.rx + bytes;
    }
  }

  /** preloader_init_extram: the window boot.py asks for is one the device can map. */
  method PreloaderInitExtram(port: Port) returns (ok: bool)
    requires port.device.Valid() && port.device.rx == []
    modifies port, port.device, port.device.memory
    ensures ok && port.device.rx == [] && port.device.memory[..] == old(port.device.memory[..])
    ensures port.device.tx == old(port.device.tx) + [STATUS_SUCCESS]
    ensures port.sent == old(port.sent) + Encode(InitExtram(0xB000_0000, 0x0200_0000))
  {
    hide Serves, Le32, Mappable;
    var device := port.device;
    ghost var f, m := InitExtram(EXTRAM_ADDRESS, EXTRAM_SIZE), device.memory[..];
    port.Write([CMD_INIT_EXTRAM] + Le32(EXTRAM_ADDRESS) + Le32(EXTRAM_SIZE));
    ok := ExpectSuccess(device, f);
    MappableBounds();
    WindowServed(m, f, device.memory[..], device.tx[|old(device.tx)|..]);
    assert device.tx == old(device.tx) + device.tx[|old(device.tx)|..];
  }

  lemma WindowServed(m: seq<Byte>, f: Frame, m': seq<Byte>, status: seq<Byte>)
    requires f.InitExtram? && Mappable(f.address, f.size) && Serves(m, f, m', status)
    ensures m' == m && status == [STATUS_SUCCESS]
  {
    hide Mappable;
  }

  /** preloader_write. */
  method PreloaderWrite(port: Port, address: Word32, data: seq<Byte>) returns (ok: bool)
    requires port.device.Valid() && port.device.rx == [] && |data| < WORD
    modifies port, port.device, port.device.memory
    ensures port.device.rx == [] && old(port.device.tx) <= port.device.tx
    ensures port.sent == old(port.sent) + Encode(WriteRam(address, data, Crc32.ChecksumWord(data)))
    ensures Serves(old(port.device.memory[..]), WriteRam(address, data, Crc32.ChecksumWord(data)),
                   port.device.memory[..], port.device.tx[|old(port.device.tx)|..])
    ensures ok == (port.device.tx == old(port.device.tx) + [STATUS_SUCCESS])
  {
    hide Serves, Crc32.ChecksumWord, Le32;
    var crc := Crc32.ChecksumWord(data);
    ghost var wire := [CMD_RAM_WRITE] + Le32(address) + Le32(|data|);
    port.Write([CMD_RAM_WRITE] + Le32(address) + Le32(|data|));
    port.Write(data);
    port.Write(Le32(crc));
    assert port.sent == old(port.sent) + (wire + data + Le32(crc));
    ok := ExpectSuccess(port.device, WriteRam(address, data, crc));
  }

  /** preloader_write_lz4. */
  method PreloaderWriteLz4(port: Port, address: Word32, data: seq<Byte>, compressed: seq<Byte>) returns (ok: bool)
    requires port.device.Valid() && port.device.rx == [] && |data| < WORD && |compressed| < WORD
    modifies port, port.device, port.device.memory
    ensures port.device.rx == [] && old(port.device.tx) <= port.device.tx
    ensures port.sent == old(port.sent) + Encode(WriteLz4(address, compressed, |data|, Crc32.ChecksumWord(data)))
    ensures Serves(old(port.device.memory[..]), WriteLz4(address, compressed, |data|, Crc32.ChecksumWord(data)),
                   port.device.memory[..], port.device.tx[|old(port.device.tx)|..])
    ensures ok == (port.device.tx == old(port.device.tx) + [STATUS_SUCCESS])
  {
    hide Serves, Crc32.ChecksumWord, Le32;
    var crc := Crc32.ChecksumWord(data);
    ghost var wire := [CMD_WRITE_RAM_LZ4] + Le32(address) + Le32(|compressed|) + Le32(|data|);
    port.Write([CMD_WRITE_RAM_LZ4] + Le32(address) + Le32(|compressed|) + Le32(|data|));
    port.Write(compressed);
    port.Write(Le32(crc));
    assert port.sent == old(port.sent) + (wire + compressed + Le32(crc));
    ok := ExpectSuccess(port.device, WriteLz4(address, compressed, |data|, crc));
  }

  /** One turn of the payload loop: compressed if that is shorter, raw otherwise. */
  method WriteBlock(port: Port, address: Word32, ghost m0: seq<Byte>, ghost before: seq<Byte>, block: seq<Byte>,
                    at: Word32)
    returns (ok: bool, ghost f: Frame)
    requires port.device.Valid() && port.device.rx == [] && at == address + |before|
    requires FitsRegion(address, |before| + |block|) && |block| <= BLOCK_SIZE
    requires Loaded(m0, port.device.memory[..], address, before)
    modifies port, port.device, port.device.memory
    ensures ok && port.device.rx == [] && port.device.tx == old(port.device.tx) + [STATUS_SUCCESS]
    ensures HostFrame(at, block, f) && Sendable(f) && port.sent == old(port.sent) + Encode(f)
    ensures Loaded(m0, port.device.memory[..], address, before + block)
  {
    hide Serves, Loaded, HostFrame, Encode, Lz4Encoder.GreedyBlock, Lz4Format.Decode, Lz4Format.BlockBytes,
         Lz4Format.WellFormed, Crc32.ChecksumWord;
    var device := port.device;
    ghost var m := device.memory[..];
    var compressed, chosen := Lz4Encoder.CompressBlock(block);
    f := if |compressed| < |block| then WriteLz4(at, compressed, |block|, Crc32.ChecksumWord(block))
         else WriteRam(at, block, Crc32.ChecksumWord(block));
    FrameIsChosen(at, block, chosen, f);
    if |compressed| < |block| {
      ok := PreloaderWriteLz4(port, at, block, compressed);
    } else {
      ok := PreloaderWrite(port, at, block);
    }
    BlockLoaded(m0, m, device.memory[..], address, before, block, f, device.tx[|old(device.tx)|..]);
    assert device.tx == old(device.tx) + device.tx[|old(device.tx)|..];
  }

  lemma {:induction false} EncodeAllAppend(fs: seq<Frame>, f: Frame)
    requires (forall g <- fs :: Sendable(g)) && Sendable(f)
    ensures forall g <- fs + [f] :: Sendable(g)
    ensures EncodeAll(fs + [f]) == EncodeAll(fs) + Encode(f)
    decreases |fs|
  {
    hide Encode, Sendable;
    var all := fs + [f];
    if fs == [] {
      assert all[1..] == [];
      assert EncodeAll([]) == [];
    } else {
      assert all[0] == fs[0] && all[1..] == fs[1..] + [f];
      EncodeAllAppend(fs[1..], f);
    }
  }

  /** The first blocks have been sent, each in the frame boot.py chooses for it. */
  ghost predicate BlocksSent(address: Word32, data: seq<Byte>, fs: seq<Frame>, wire: seq<Byte>) {
    && (forall f <- fs :: Sendable(f))
    && (forall k: nat :: k < |fs| ==> FrameOf(address, data, k, fs[k]))
    && wire == EncodeAll(fs)
  }

  lemma NextBlockSent(address: Word32, data: seq<Byte>, fs: seq<Frame>, wire: seq<Byte>, f: Frame)
    requires BlocksSent(address, data, fs, wire) && FrameOf(address, data, |fs|, f) && Sendable(f)
    ensures BlocksSent(address, data, fs + [f], wire + Encode(f))
  {
    hide FrameOf, Encode, Sendable, EncodeAll;
    EncodeAllAppend(fs, f);
  }

  /** preloader_write_payload: never raises, sends the chosen frames and leaves the payload in place. */
  method PreloaderWritePayload(port: Port, address: Word32, data: seq<Byte>) returns (ok: bool, ghost fs: seq<Frame>)
    requires port.device.Valid() && port.device.rx == [] && FitsRegion(address, |data|)
    modifies port, port.device, port.device.memory
    ensures ok
    ensures PayloadFrames(address, data, fs)
    ensures forall f <- fs :: Sendable(f)
    ensures port.sent == old(port.sent) + EncodeAll(fs)
    ensures port.device.rx == []
    ensures Delivered(old(port.device.memory[..]), port.device.memory[..], address, data)
    ensures port.device.tx == old(port.device.tx) + seq(|fs|, _ => STATUS_SUCCESS)
  {
    hide Loaded, Delivered, BlocksSent, HostFrame, Sendable, Encode, EncodeAll;
    var device := port.device;
    ghost var m0 := device.memory[..];
    NothingLoaded(m0, address);
    assert data[..0] == [];
    var offset := 0;
    fs := [];
    ghost var wire: seq<Byte> := [];
    NothingSent(address, data);
    while offset < |data|
      invariant offset == Upto(data, |fs|) && (|fs| - 1) * BLOCK_SIZE < |data|
      invariant device.rx == []
      invariant device.tx == old(device.tx) + seq(|fs|, _ => STATUS_SUCCESS)
      invariant Loaded(m0, device.memory[..], address, data[..offset])
      invariant BlocksSent(address, data, fs, wire) && port.sent == old(port.sent) + wire
    {
      var end := Min(offset + BLOCK_SIZE, |data|);
      ghost var f;
      ok, f := WriteBlock(port, address, m0, data[..offset], data[offset..end], address + offset);
      assert data[..offset] + data[offset..end] == data[..end];
      if !ok {
        return;
      }
      assert data[offset..end] == BlockAt(data, |fs|);
      NextBlockSent(address, data, fs, wire, f);
      fs, wire := fs + [f], wire + Encode(f);
      offset := end;
    }
    assert data[..offset] == data;
    LoadedRange(m0, device.memory[..], address, data);
    AllBlocksSent(address, data, fs, wire);
    ok := true;
  }

  lemma NothingSent(address: Word32, data: seq<Byte>)
    ensures BlocksSent(address, data, [], [])
  {}

  lemma AllBlocksSent(address: Word32, data: seq<Byte>, fs: seq<Frame>, wire: seq<Byte>)
    requires BlocksSent(address, data, fs, wire) && FitsRegion(address, |data|)
    requires (|fs| - 1) * BLOCK_SIZE < |data| <= |fs| * BLOCK_SIZE
    ensures PayloadFrames(address, data, fs)
    ensures forall f <- fs :: Sendable(f)
    ensures wire == EncodeAll(fs)
  {
    hide FrameOf, Encode, Sendable, EncodeAll;
  }

  lemma NothingLoaded(m: seq<Byte>, address: Word32)
    requires |m| == WORD
    ensures Loaded(m, m, address, [])
  {}

  lemma FrameIsChosen(address: Word32, data: seq<Byte>, b: Lz4Format.Block, f: Frame)
    requires |data| < WORD && ChosenFrame(address, data, b, f)
    ensures HostFrame(address, data, f)
  {
    hide ChosenFrame;
  }
}
