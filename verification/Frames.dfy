/** The loader's wire protocol: what the host sends, what the device reads, and what each frame does. */
module Frames {
  import opened BitMath
  import opened Bytes
  import opened Memory
  import Crc32
  import Lz4Format
  import Lz4Decoder

  const CMD_PING: Byte := 0x41
  const CMD_INIT_EXTRAM: Byte := 0x45
  const CMD_GOTO: Byte := 0x47
  const CMD_SET_SPEED: Byte := 0x48
  const CMD_WRITE_RAM_LZ4: Byte := 0x4C
  const CMD_RAM_WRITE: Byte := 0x57

  const STATUS_FAILURE: Byte := 0x1C
  const STATUS_PONG: Byte := 0x52
  const STATUS_SUCCESS: Byte := 0xC1

  const DTCM_ADDRESS: Word32 := 0x0100_2000
  const BLOCK_SIZE: nat := 0x1000

  datatype Frame =
    | Ping
    | InitExtram(address: Word32, size: Word32)
    | Goto(address: Word32)
    | SetSpeed(baudRate: Word32, skipped: seq<Byte>)
    | WriteLz4(address: Word32, compressed: seq<Byte>, outputSize: Word32, crc: Word32)
    | WriteRam(address: Word32, data: seq<Byte>, crc: Word32)
    | Noise(value: Byte)

  predicate IsCommand(b: Byte) {
    b == CMD_PING || b == CMD_INIT_EXTRAM || b == CMD_GOTO || b == CMD_SET_SPEED || b == CMD_WRITE_RAM_LZ4
    || b == CMD_RAM_WRITE
  }

  /** Frames that can be put on the wire: sizes are 32-bit, and only what is not a command is noise. */
  ghost predicate Sendable(f: Frame) {
    match f
    case WriteLz4(_, compressed, _, _) => |compressed| < WORD
    case WriteRam(_, data, _) => |data| < WORD
    case SetSpeed(_, skipped) => CMD_PING !in skipped
    case Noise(b) => !IsCommand(b)
    case _ => true
  }

  function Encode(f: Frame): seq<Byte>
    requires Sendable(f)
  {
    match f
    case Ping => [CMD_PING]
    case InitExtram(address, size) => [CMD_INIT_EXTRAM] + Le32(address) + Le32(size)
    case Goto(address) => [CMD_GOTO] + Le32(address)
    case SetSpeed(baudRate, skipped) => [CMD_SET_SPEED] + Le32(baudRate) + skipped + [CMD_PING]
    case WriteLz4(address, compressed, outputSize, crc) =>
      [CMD_WRITE_RAM_LZ4] + Le32(address) + Le32(|compressed|) + Le32(outputSize) + compressed + Le32(crc)
    case WriteRam(address, data, crc) =>
      [CMD_RAM_WRITE] + Le32(address) + Le32(|data|) + data + Le32(crc)
    case Noise(b) => [b]
  }

  /** Requests without data byte by byte: the command byte, then words least significant byte first. */
  lemma RequestBytes()
    ensures Encode(Ping) == [0x41]
    ensures Encode(Goto(0xB012_3456)) == [0x47, 0x56, 0x34, 0x12, 0xB0]
    ensures Encode(SetSpeed(0x0018_6A00, [])) == [0x48, 0x00, 0x6A, 0x18, 0x00, 0x41]
    ensures Encode(InitExtram(0xB012_3456, 0x0018_6A00)) == [0x45, 0x56, 0x34, 0x12, 0xB0, 0x00, 0x6A, 0x18, 0x00]
  {
    hide Le32;
    Le32Bytes(0x56, 0x34, 0x12, 0xB0);
    Le32Bytes(0x00, 0x6A, 0x18, 0x00);
  }

  lemma WriteHeads(n: Byte, outputSize: Byte)
    ensures [CMD_RAM_WRITE] + Le32(0xB012_3456) + Le32(n) == [0x57, 0x56, 0x34, 0x12, 0xB0, n, 0, 0, 0]
    ensures [CMD_WRITE_RAM_LZ4] + Le32(0xB012_3456) + Le32(n) + Le32(outputSize)
         == [0x4C, 0x56, 0x34, 0x12, 0xB0, n, 0, 0, 0, outputSize, 0, 0, 0]
  {
    hide Le32;
    Le32Bytes(0x56, 0x34, 0x12, 0xB0);
    Le32Bytes(n, 0, 0, 0);
    Le32Bytes(outputSize, 0, 0, 0);
  }

  /** Requests with data: address, sizes, data, checksum. */
  lemma WriteBytes(data: seq<Byte>, outputSize: Byte)
    requires |data| < 0x100
    ensures Encode(WriteRam(0xB012_3456, data, 0xCBF4_3926))
         == [0x57, 0x56, 0x34, 0x12, 0xB0, |data|, 0, 0, 0] + data + [0x26, 0x39, 0xF4, 0xCB]
    ensures Encode(WriteLz4(0xB012_3456, data, outputSize, 0xCBF4_3926))
         == [0x4C, 0x56, 0x34, 0x12, 0xB0, |data|, 0, 0, 0, outputSize, 0, 0, 0] + data + [0x26, 0x39, 0xF4, 0xCB]
  {
    hide Le32;
    WriteHeads(|data|, outputSize);
    Le32Bytes(0x26, 0x39, 0xF4, 0xCB);
  }

  /** A frame found at the front of the stream, and what follows it. */
  datatype Parsed = Incomplete | Parsed(frame: Frame, rest: seq<Byte>)

  /** The device's view of a command byte and the stream after it. */
  function ParseBody(command: Byte, body: seq<Byte>): Parsed {
    if command == CMD_PING then Parsed(Ping, body)
    else if command == CMD_INIT_EXTRAM then
      if |body| < 8 then Incomplete
      else Parsed(InitExtram(Word32At(body, 0), Word32At(body, 4)), body[8..])
    else if command == CMD_GOTO then
      if |body| < 4 then Incomplete
      else Parsed(Goto(Word32At(body, 0)), body[4..])
    else if command == CMD_SET_SPEED then
      if |body| < 4 || CMD_PING !in body[4..] then Incomplete
      else
        var n := FirstOf(CMD_PING, body[4..]);
        Parsed(SetSpeed(Word32At(body, 0), body[4..4 + n]), body[5 + n..])
    else if command == CMD_WRITE_RAM_LZ4 then
      if |body| < 12 then Incomplete
      else
        var end := 12 + Word32At(body, 4);
        if |body| < end + 4 then Incomplete
        else Parsed(WriteLz4(Word32At(body, 0), body[12..end], Word32At(body, 8), Word32At(body, end)), body[end + 4..])
    else if command == CMD_RAM_WRITE then
      if |body| < 8 then Incomplete
      else
        var end := 8 + Word32At(body, 4);
        if |body| < end + 4 then Incomplete
        else Parsed(WriteRam(Word32At(body, 0), body[8..end], Word32At(body, end)), body[end + 4..])
    else Parsed(Noise(command), body)
  }

  function Parse(rx: seq<Byte>): Parsed {
    if rx == [] then Incomplete else ParseBody(rx[0], rx[1..])
  }

  // ----- what a frame does

  /** A window the memory controller can map: 4 KiB to 128 MiB, a power of two, naturally aligned. */
  predicate Mappable(address: Word32, size: Word32) {
    0x1000 <= size <= 0x0800_0000 && PowerOfTwo(size) && address % size == 0
  }

  /** Both bounds are met, the next powers of two outside them are not; so is what the host asks for. */
  lemma MappableBounds()
    ensures Mappable(0xB000_0000, 0x0200_0000)
    ensures Mappable(0xB000_0000, 0x1000) && !Mappable(0xB000_0000, 0x800)
    ensures Mappable(0xB000_0000, 0x0800_0000) && !Mappable(0xB000_0000, 0x1000_0000)
    ensures !Mappable(0xB000_0000, 0x3000) && !Mappable(0xB000_0800, 0x1000)
  {
    hide PowerOfTwo;
    SmallPowers();
    Times256(2);
    Times256(0x200);
    Times256(0x2_0000);
    Times256(8);
    Times256(0x800);
    Times256(0x8_0000);
    Times256(0x10);
    Times256(0x30);
  }

  function StatusOf(ok: bool): Byte {
    if ok then STATUS_SUCCESS else STATUS_FAILURE
  }

  /** Effect of a compressed block that passes the size checks. */
  ghost predicate Decompressed(m: seq<Byte>, m': seq<Byte>, address: Word32, compressed: seq<Byte>,
                               outputSize: nat, crc: Word32, ok: bool)
  {
    && |m| == |m'| == WORD
    && |compressed| <= BLOCK_SIZE && outputSize <= BLOCK_SIZE
    && (forall i: Word32 :: Offset(address, i) >= outputSize && Offset(DTCM_ADDRESS, i) >= |compressed| ==>
        m'[i] == m[i])
    && (ok ==> Crc32.ChecksumWord(Range(m', address, outputSize)) == crc)
    && (Disjoint(DTCM_ADDRESS, |compressed|, address, outputSize) ==>
          var bytes := Lz4Format.Decode(compressed);
          && ok == (bytes.Some? && |bytes.value| == outputSize && Crc32.ChecksumWord(bytes.value) == crc)
          && (ok ==> Range(m', address, outputSize) == bytes.value))
  }

  /** Serving `f` takes memory from `m` to `m'` and answers with `status`. */
  ghost predicate Serves(m: seq<Byte>, f: Frame, m': seq<Byte>, status: seq<Byte>) {
    match f
    case Ping => m' == m && status == [STATUS_PONG]
    case SetSpeed(_, _) => m' == m && status == [STATUS_PONG]
    case InitExtram(address, size) => m' == m && status == [StatusOf(Mappable(address, size))]
    case Goto(_) => m' == m && status == [STATUS_SUCCESS]
    case Noise(_) => m' == m && status == []
    case WriteRam(address, data, crc) =>
      Written(m, m', address, data) && status == [StatusOf(crc == Crc32.ChecksumWord(data))]
    case WriteLz4(address, compressed, outputSize, crc) =>
      if |compressed| > BLOCK_SIZE || outputSize > BLOCK_SIZE then m' == m && status == [STATUS_FAILURE]
      else exists ok: bool :: Decompressed(m, m', address, compressed, outputSize, crc, ok) && status == [StatusOf(ok)]
  }

  /** The answers byte by byte. */
  lemma StatusBytes(m: seq<Byte>, m': seq<Byte>, data: seq<Byte>, address: Word32, crc: Word32, status: seq<Byte>)
    requires Serves(m, WriteRam(address, data, crc), m', status)
    ensures status == if crc == Crc32.ChecksumWord(data) then [0xC1] else [0x1C]
    ensures Serves(m, Ping, m, [0x52]) && Serves(m, SetSpeed(address, []), m, [0x52])
    ensures Serves(m, Goto(address), m, [0xC1])
  {
    hide Crc32.ChecksumWord, Written;
  }

  // ----- the two ends agree on framing

  lemma FirstPingAfter(skipped: seq<Byte>, rest: seq<Byte>)
    requires CMD_PING !in skipped
    ensures var s := skipped + [CMD_PING] + rest;
            s[|skipped|] == CMD_PING && CMD_PING in s && FirstOf(CMD_PING, s) == |skipped|
  {
    var s := skipped + [CMD_PING] + rest;
    assert s[..|skipped|] == skipped;
    FirstOfUnique(CMD_PING, s, |skipped|);
  }

  lemma Word32Prefix(n: Word32, rest: seq<Byte>)
    ensures Word32At(Le32(n) + rest, 0) == n
  {
    assert [] + Le32(n) + rest == Le32(n) + rest;
    Le32RoundTrip(n, [], rest);
  }

  lemma ParseSetSpeed(baudRate: Word32, skipped: seq<Byte>, rest: seq<Byte>, body: seq<Byte>)
    requires CMD_PING !in skipped
    requires body == Le32(baudRate) + (skipped + [CMD_PING] + rest)
    ensures ParseBody(CMD_SET_SPEED, body) == Parsed(SetSpeed(baudRate, skipped), rest)
  {
    hide Le32, Word32At, FirstOf;
    Word32Prefix(baudRate, skipped + [CMD_PING] + rest);
    assert body[4..] == skipped + [CMD_PING] + rest;
    FirstPingAfter(skipped, rest);
    assert body[4..4 + |skipped|] == skipped && body[5 + |skipped|..] == rest;
  }

  lemma ParseInitExtram(address: Word32, size: Word32, rest: seq<Byte>, body: seq<Byte>)
    requires body == Le32(address) + Le32(size) + rest
    ensures ParseBody(CMD_INIT_EXTRAM, body) == Parsed(InitExtram(address, size), rest)
  {
    hide Le32, Word32At;
    assert body == Le32(address) + (Le32(size) + rest);
    Word32Prefix(address, Le32(size) + rest);
    Le32RoundTrip(size, Le32(address), rest);
    assert body[8..] == rest;
  }

  lemma ParseWriteRam(address: Word32, data: seq<Byte>, crc: Word32, rest: seq<Byte>, body: seq<Byte>)
    requires |data| < WORD
    requires body == Le32(address) + Le32(|data|) + data + Le32(crc) + rest
    ensures ParseBody(CMD_RAM_WRITE, body) == Parsed(WriteRam(address, data, crc), rest)
  {
    hide Le32, Word32At;
    var a, size, end := Le32(address), Le32(|data|), Le32(crc);
    assert body == a + (size + data + end + rest);
    Word32Prefix(address, size + data + end + rest);
    assert body == a + size + (data + end + rest);
    Le32RoundTrip(|data|, a, data + end + rest);
    var head := a + size + data;
    Le32RoundTrip(crc, head, rest);
    assert |head| == 8 + |data|;
    assert body[8..8 + |data|] == data;
    assert body[8 + |data| + 4..] == rest;
  }

  lemma ParseWriteLz4(address: Word32, compressed: seq<Byte>, outputSize: Word32, crc: Word32, rest: seq<Byte>,
                      body: seq<Byte>)
    requires |compressed| < WORD
    requires body == Le32(address) + Le32(|compressed|) + Le32(outputSize) + compressed + Le32(crc) + rest
    ensures ParseBody(CMD_WRITE_RAM_LZ4, body) == Parsed(WriteLz4(address, compressed, outputSize, crc), rest)
  {
    hide Le32, Word32At;
    var a, size, out, end := Le32(address), Le32(|compressed|), Le32(outputSize), Le32(crc);
    var tail := compressed + end + rest;
    assert body == a + (size + out + tail);
    Word32Prefix(address, size + out + tail);
    assert body == a + size + (out + tail);
    Le32RoundTrip(|compressed|, a, out + tail);
    var two := a + size;
    assert body == two + out + tail;
    Le32RoundTrip(outputSize, two, tail);
    var head := two + out + compressed;
    Le32RoundTrip(crc, head, rest);
    assert |head| == 12 + |compressed|;
    assert body[12..12 + |compressed|] == compressed;
    assert body[12 + |compressed| + 4..] == rest;
  }

  lemma ParseAfterCommand(command: Byte, rx: seq<Byte>, body: seq<Byte>)
    requires rx == [command] + body
    ensures Parse(rx) == ParseBody(command, body)
  {
    hide ParseBody;
    assert rx[0] == command && rx[1..] == body;
  }

  lemma ParseEncodedLz4(f: Frame, rest: seq<Byte>)
    requires f.WriteLz4? && Sendable(f)
    ensures Parse(Encode(f) + rest) == Parsed(f, rest)
  {
    hide Le32, ParseBody, Parse;
    var body := Le32(f.address) + Le32(|f.compressed|) + Le32(f.outputSize) + f.compressed + Le32(f.crc) + rest;
    assert Encode(f) + rest == [CMD_WRITE_RAM_LZ4] + body;
    ParseAfterCommand(CMD_WRITE_RAM_LZ4, Encode(f) + rest, body);
    ParseWriteLz4(f.address, f.compressed, f.outputSize, f.crc, rest, body);
  }

  lemma ParseEncodedRam(f: Frame, rest: seq<Byte>)
    requires f.WriteRam? && Sendable(f)
    ensures Parse(Encode(f) + rest) == Parsed(f, rest)
  {
    hide Le32, ParseBody, Parse;
    var body := Le32(f.address) + Le32(|f.data|) + f.data + Le32(f.crc) + rest;
    assert Encode(f) + rest == [CMD_RAM_WRITE] + body;
    ParseAfterCommand(CMD_RAM_WRITE, Encode(f) + rest, body);
    ParseWriteRam(f.address, f.data, f.crc, rest, body);
  }

  lemma ParseEncodedSpeed(f: Frame, rest: seq<Byte>)
    requires f.SetSpeed? && Sendable(f)
    ensures Parse(Encode(f) + rest) == Parsed(f, rest)
  {
    hide Le32, ParseBody, Parse;
    var body := Le32(f.baudRate) + (f.skipped + [CMD_PING] + rest);
    assert Encode(f) + rest == [CMD_SET_SPEED] + body;
    ParseAfterCommand(CMD_SET_SPEED, Encode(f) + rest, body);
    ParseSetSpeed(f.baudRate, f.skipped, rest, body);
  }

  /** The device recovers exactly the frame the host sent, whatever follows it. */
  lemma ParseEncode(f: Frame, rest: seq<Byte>)
    requires Sendable(f)
    ensures Parse(Encode(f) + rest) == Parsed(f, rest)
  {
    hide Le32, ParseBody, Parse;
    var rx := Encode(f) + rest;
    match f {
      case WriteRam(_, _, _) => ParseEncodedRam(f, rest);
      case WriteLz4(_, _, _, _) => ParseEncodedLz4(f, rest);
      case SetSpeed(_, _) => ParseEncodedSpeed(f, rest);
      case InitExtram(address, size) =>
        var body := Le32(address) + Le32(size) + rest;
        assert rx == [CMD_INIT_EXTRAM] + body;
        ParseAfterCommand(CMD_INIT_EXTRAM, rx, body);
        ParseInitExtram(address, size, rest, body);
      case Goto(address) =>
        assert rx == [CMD_GOTO] + (Le32(address) + rest);
        ParseAfterCommand(CMD_GOTO, rx, Le32(address) + rest);
        ParseShort(f, rest);
      case _ =>
        ParseAfterCommand(Encode(f)[0], rx, rest);
        ParseShort(f, rest);
    }
  }

  lemma ParseShort(f: Frame, rest: seq<Byte>)
    requires Sendable(f)
    ensures f.Ping? ==> ParseBody(CMD_PING, rest) == Parsed(f, rest)
    ensures f.Noise? ==> ParseBody(f.value, rest) == Parsed(f, rest)
    ensures f.Goto? ==> ParseBody(CMD_GOTO, Le32(f.address) + rest) == Parsed(f, rest)
  {
    hide Le32, Word32At;
    if f.Goto? {
      Word32Prefix(f.address, rest);
      assert (Le32(f.address) + rest)[4..] == rest;
    }
  }

  function EncodeAll(fs: seq<Frame>): seq<Byte>
    requires forall f <- fs :: Sendable(f)
  {
    if fs == [] then [] else Encode(fs[0]) + EncodeAll(fs[1..])
  }
}
