/**
 The device end of the loader (preloader/src/main.c and the byte loops of lib/usart.c).
 `rx` holds every byte that will still arrive; a read that runs past its end blocks for good.
 */
module Preloader {
  import opened BitMath
  import opened Bytes
  import opened Memory
  import opened Frames
  import Crc32
  import Lz4Format
  import Lz4Decoder

  datatype Outcome = Blocked | Served | Jumped(entry: Word32)

  class Device {
    const memory: array<Byte>
    var rx: seq<Byte>
    var tx: seq<Byte>
    /** The external memory window last set up, and the line speed last selected. */
    var window: Option<(Word32, Word32)>
    var baudRate: Option<Word32>

    ghost predicate Valid() {
      memory.Length == WORD
    }

    // ----- lib/usart.c

    /** usart_putc. */
    method PutByte(value: Byte)
      modifies this`tx
      ensures tx == old(tx) + [value]
    {
      tx := tx + [value];
    }

    /** usart_read into memory: takes whatever the FIFO holds, batch by batch. */
    method ReadInto(address: Word32, size: Word32) returns (ok: bool)
      requires Valid()
      modifies this`rx, memory
      ensures var n := Min(size, |old(rx)|);
              && ok == (n == size)
              && rx == old(rx)[n..]
              && Written(old(memory[..]), memory[..], address, old(rx)[..n])
    {
      hide Written, Addr;
      ghost var all := rx;
      WrittenNothing(memory[..], address);
      var offset := 0;
      assert all[..0] == [];
      while offset < size
        invariant offset <= size && offset <= |all|
        invariant rx == all[offset..]
        invariant Written(old(memory[..]), memory[..], address, all[..offset])
      {
        if rx == [] {
          return false;
        }
        var level: nat :| 1 <= level <= |rx|;
        var batch := Min(size - offset, level);
        ghost var start := offset;
        for i := 0 to batch
          invariant offset == start + i
          invariant rx == all[offset..]
          invariant Written(old(memory[..]), memory[..], address, all[..offset])
        {
          ghost var before := memory[..];
          memory[Addr(address, offset)] := rx[0];
          WrittenByte(old(memory[..]), before, address, all[..offset], rx[0]);
          assert all[..offset + 1] == all[..offset] + [all[offset]];
          rx := rx[1..];
          offset := offset + 1;
        }
      }
      return true;
    }

    /** usart_read into a local 32-bit variable. */
    method ReadWord() returns (ok: bool, word: Word32)
      modifies this`rx
      ensures ok == (|old(rx)| >= 4)
      ensures rx == old(rx)[Min(4, |old(rx)|)..]
      ensures ok ==> word == Word32At(old(rx), 0)
    {
      if |rx| < 4 {
        rx := [];
        return false, 0;
      }
      word := Word32At(rx, 0);
      rx := rx[4..];
      ok := true;
    }

    /** usart_getc. */
    method GetByte() returns (ok: bool, value: Byte)
      modifies this`rx
      ensures ok == (old(rx) != [])
      ensures ok ==> value == old(rx)[0] && rx == old(rx)[1..]
      ensures !ok ==> rx == old(rx)
    {
      if rx == [] {
        return false, 0;
      }
      ok, value := true, rx[0];
      rx := rx[1..];
    }

    /** discard_data: drains `size` bytes through a 256-byte buffer. */
    method Discard(size: Word32) returns (ok: bool)
      modifies this`rx
      ensures var n := Min(size, |old(rx)|); ok == (n == size) && rx == old(rx)[n..]
    {
      var offset := 0;
      while offset < size
        invariant offset <= size && offset <= |old(rx)|
        invariant rx == old(rx)[offset..]
      {
        var batch := Min(size - offset, 256);
        if |rx| < batch {
          rx := [];
          return false;
        }
        rx := rx[batch..];
        offset := offset + batch;
      }
      return true;
    }

    // ----- the commands, each called after its command byte

    /** cmd_ping. */
    method CmdPing() returns (outcome: Outcome)
      requires Valid()
      modifies this`tx
      ensures Answered(ParseBody(CMD_PING, rx), memory[..], memory[..], old(tx), tx, rx, outcome)
    {
      PutByte(STATUS_PONG);
      outcome := Served;
    }

    /** cmd_init_extram. */
    method CmdInitExtram() returns (outcome: Outcome)
      requires Valid()
      modifies this`rx, this`tx, this`window
      ensures Answered(ParseBody(CMD_INIT_EXTRAM, old(rx)), old(memory[..]), memory[..], old(tx), tx, rx, outcome)
      ensures window == WindowAfter(old(window), ParseBody(CMD_INIT_EXTRAM, old(rx)))
    {
      hide Word32At, Crc32.Checksum, And, PowerOfTwo;
      ghost var body := rx;
      var ok, address := ReadWord();
      if !ok { return Blocked; }
      var size;
      ok, size := ReadWord();
      if !ok { return Blocked; }
      Word32AtDrop(body, 4);
      outcome := Served;
      if size < 0x0000_1000 || size > 0x0800_0000 {
        PutByte(STATUS_FAILURE);
        return;
      }
      SingleBit(size);
      if And(size, size - 1) != 0 {
        PutByte(STATUS_FAILURE);
        return;
      }
      LowBits(address, size);
      if And(address, size - 1) != 0 {
        PutByte(STATUS_FAILURE);
        return;
      }
      window := Some((address, size));
      PutByte(STATUS_SUCCESS);
    }

    /** cmd_set_speed: everything up to the next ping is line noise at the new speed. */
    method CmdSetSpeed() returns (outcome: Outcome)
      requires Valid()
      modifies this`rx, this`tx, this`baudRate
      ensures Answered(ParseBody(CMD_SET_SPEED, old(rx)), old(memory[..]), memory[..], old(tx), tx, rx, outcome)
      ensures baudRate == if |old(rx)| >= 4 then Some(Word32At(old(rx), 0)) else old(baudRate)
    {
      hide Word32At;
      ghost var body := rx;
      var ok, speed := ReadWord();
      if !ok { return Blocked; }
      baudRate := Some(speed);
      ghost var line := rx;
      ghost var n := 0;
      var value: Byte := 0;
      while value != CMD_PING
        invariant 0 <= n <= |line| && rx == line[n..]
        invariant value != CMD_PING ==> CMD_PING !in line[..n]
        invariant value == CMD_PING ==> n > 0 && line[n - 1] == CMD_PING && CMD_PING !in line[..n - 1]
        invariant memory[..] == old(memory[..]) && tx == old(tx) && baudRate == Some(speed)
        decreases |line| - n, value != CMD_PING
      {
        ok, value := GetByte();
        if !ok {
          assert line[..n] == line;
          return Blocked;
        }
        assert line[..n + 1] == line[..n] + [line[n]];
        n := n + 1;
      }
      FirstOfUnique(CMD_PING, line, n - 1);
      PutByte(STATUS_PONG);
      outcome := Served;
    }

    /** cmd_goto: the status goes out, then control leaves the loader. */
    method CmdGoto() returns (outcome: Outcome)
      requires Valid()
      modifies this`rx, this`tx
      ensures Answered(ParseBody(CMD_GOTO, old(rx)), old(memory[..]), memory[..], old(tx), tx, rx, outcome)
    {
      hide Word32At;
      var ok, address := ReadWord();
      if !ok { return Blocked; }
      PutByte(STATUS_SUCCESS);
      outcome := Jumped(address);
    }

    /** Receives `size` bytes into memory, 256 at a time. */
    method Receive(address: Word32, size: Word32) returns (ok: bool)
      requires Valid()
      modifies this`rx, memory
      ensures var n := Min(size, |old(rx)|);
              && ok == (n == size)
              && rx == old(rx)[n..]
              && Written(old(memory[..]), memory[..], address, old(rx)[..n])
    {
      hide Written;
      ghost var all := rx;
      WrittenNothing(memory[..], address);
      assert all[..0] == [];
      var offset := 0;
      while offset < size
        invariant offset <= size && offset <= |all|
        invariant rx == all[offset..]
        invariant Written(old(memory[..]), memory[..], address, all[..offset])
      {
        var batch := Min(size - offset, 256);
        ghost var before := memory[..];
        var whole := ReadInto(Addr(address, offset), batch);
        ghost var n := Min(batch, |all| - offset);
        WrittenThen(old(memory[..]), before, memory[..], address, all[..offset], all[offset..][..n]);
        assert all[..offset] + all[offset..][..n] == all[..offset + n];
        if !whole {
          assert offset + n == |all|;
          return false;
        }
        offset := offset + batch;
      }
      return true;
    }

    /** The checksum register over `size` bytes of memory, 256 at a time. */
    method ChecksumOf(address: Word32, size: Word32) returns (crc: bv32)
      requires Valid()
      ensures crc == Crc32.Update(Crc32.INITIAL, Range(memory[..], address, size))
    {
      hide Crc32.Update, Range, Crc32.INITIAL;
      ghost var m := memory[..];
      crc := Crc32.INITIAL;
      Crc32.UpdateNothing(crc, m, address);
      var offset := 0;
      while offset < size
        invariant offset <= size
        invariant crc == Crc32.Update(Crc32.INITIAL, Range(m, address, offset))
      {
        var batch := Min(size - offset, 256);
        RangeConcat(m, address, offset, batch);
        Crc32.UpdateConcat(Crc32.INITIAL, Range(m, address, offset), Range(m, Addr(address, offset), batch));
        crc := Crc32.UpdateRange(crc, memory, Addr(address, offset), batch);
        offset := offset + batch;
      }
    }

    /** cmd_ram_write. */
    method CmdRamWrite() returns (outcome: Outcome)
      requires Valid()
      modifies this`rx, this`tx, memory
      ensures Answered(ParseBody(CMD_RAM_WRITE, old(rx)), old(memory[..]), memory[..], old(tx), tx, rx, outcome)
    {
      hide Word32At, Written, Range, Crc32.Checksum, Crc32.Update, Crc32.Not;
      ghost var body := rx;
      var ok, address := ReadWord();
      if !ok { return Blocked; }
      var size;
      ok, size := ReadWord();
      if !ok { return Blocked; }
      Word32AtDrop(body, 4);
      assert rx == body[8..];
      ok := Receive(address, size);
      if !ok { return Blocked; }
      ghost var data := body[8..8 + size];
      assert data == body[8..][..size];
      assert rx == body[8 + size..];
      var receivedCrc;
      ok, receivedCrc := ReadWord();
      if !ok { return Blocked; }
      Word32AtDrop(body, |data| + 8);
      var crc := ChecksumOf(address, size);
      WrittenRange(old(memory[..]), memory[..], address, data);
      Crc32.ComplementIsChecksum(data);
      outcome := Served;
      if receivedCrc != Crc32.Not(crc) as int {
        PutByte(STATUS_FAILURE);
        return;
      }
      PutByte(STATUS_SUCCESS);
    }

    /** cmd_write_ram_lz4: oversized requests are drained, the rest goes through the scratch block. */
    method CmdWriteRamLz4() returns (outcome: Outcome)
      requires Valid()
      modifies this`rx, this`tx, memory
      ensures Answered(ParseBody(CMD_WRITE_RAM_LZ4, old(rx)), old(memory[..]), memory[..], old(tx), tx, rx, outcome)
    {
      hide Word32At, Written, Range, Decompressed, Disjoint, SameOutside, ParseBody, Crc32.Checksum, Crc32.Update,
           Crc32.Not, Lz4Decoder.NoWrap, Lz4Decoder.Fills;
      ghost var body := rx;
      ghost var m0 := memory[..];
      ShortWriteLz4(body);
      var ok, address := ReadWord();
      if !ok { return Blocked; }
      var compressedSize;
      ok, compressedSize := ReadWord();
      if !ok { return Blocked; }
      Word32AtDrop(body, 4);
      var outputSize;
      ok, outputSize := ReadWord();
      if !ok { return Blocked; }
      Word32AtDrop(body, 8);
      assert rx == body[12..];

      ParsedWriteLz4(body, compressedSize);
      ghost var m1 := m0;
      var valid := false;
      if compressedSize > BLOCK_SIZE || outputSize > BLOCK_SIZE {
        ok := Discard(compressedSize);
        if !ok { return Blocked; }
      } else {
        ok := ReadInto(DTCM_ADDRESS, compressedSize);
        if !ok { return Blocked; }
        m1 := memory[..];
        ScratchFilled(m0, m1, body[12..][..compressedSize]);
        valid := Lz4Decoder.Decompress(memory, DTCM_ADDRESS, compressedSize, address, outputSize);
      }
      ghost var compressed := body[12..][..compressedSize];
      ghost var decoded := valid;
      var receivedCrc;
      ok, receivedCrc := ReadWord();
      if !ok { return Blocked; }
      if valid {
        var crc := Crc32.UpdateRange(Crc32.INITIAL, memory, address, outputSize);
        Crc32.ComplementIsChecksum(Range(memory[..], address, outputSize));
        valid := receivedCrc == Crc32.Not(crc) as int;
      }
      if compressedSize <= BLOCK_SIZE && outputSize <= BLOCK_SIZE {
        BlockServed(m0, m1, memory[..], address, compressed, outputSize, receivedCrc, decoded, valid);
      }
      PutByte(StatusOf(valid));
      outcome := Served;
    }

    // ----- the dispatch loop

    /** One turn of the loop in main: any other byte is dropped without an answer. */
    method Dispatch() returns (outcome: Outcome)
      requires Valid()
      modifies this, memory
      ensures Answered(Parse(old(rx)), old(memory[..]), memory[..], old(tx), tx, rx, outcome)
      ensures window == WindowAfter(old(window), Parse(old(rx)))
      ensures baudRate == SpeedAfter(old(baudRate), old(rx))
      ensures old(rx) == [] ==> rx == [] && memory[..] == old(memory[..])
    {
      hide ParseBody, Serves, Word32At;
      FrameOfCommand(rx);
      var ok, command := GetByte();
      if !ok { return Blocked; }
      if command == CMD_PING {
        outcome := CmdPing();
      } else if command == CMD_INIT_EXTRAM {
        outcome := CmdInitExtram();
      } else if command == CMD_GOTO {
        outcome := CmdGoto();
      } else if command == CMD_SET_SPEED {
        outcome := CmdSetSpeed();
      } else if command == CMD_WRITE_RAM_LZ4 {
        outcome := CmdWriteRamLz4();
      } else if command == CMD_RAM_WRITE {
        outcome := CmdRamWrite();
      } else {
        NoiseServed(command, rx, memory[..]);
        assert tx[|tx|..] == [];
        outcome := Served;
      }
    }

    /** The loop itself: serves frames until the stream runs dry or control leaves through a goto. */
    method Run() returns (outcome: Outcome, ghost trace: seq<State>)
      requires Valid()
      modifies this, memory
      ensures IsRun(trace)
      ensures trace[0] == State(old(memory[..]), old(rx), old(tx))
      ensures EndsWith(trace[|trace| - 1], outcome, State(memory[..], rx, tx))
    {
      hide Parse, Serves;
      trace := [State(memory[..], rx, tx)];
      while true
        invariant IsRun(trace)
        invariant trace[0] == State(old(memory[..]), old(rx), old(tx))
        invariant trace[|trace| - 1] == State(memory[..], rx, tx)
        decreases |rx|
      {
        ghost var before := trace[|trace| - 1];
        ParseShrinks(rx);
        outcome := Dispatch();
        if outcome.Blocked? { return; }
        if outcome.Jumped? {
          GotoServed(before.memory, Parse(before.rx).frame, memory[..], tx[|before.tx|..]);
          return;
        }
        ghost var after := State(memory[..], rx, tx);
        assert Step(before, after);
        trace := trace + [after];
      }
    }
  }

  /** The external memory window once a frame has been served: only a mappable request moves it. */
  function WindowAfter(window: Option<(Word32, Word32)>, p: Parsed): Option<(Word32, Word32)> {
    if p.Parsed? && p.frame.InitExtram? && Mappable(p.frame.address, p.frame.size) then
      Some((p.frame.address, p.frame.size))
    else window
  }

  /** The line speed after one turn of the loop: a speed command selects its rate as soon as that has arrived. */
  function SpeedAfter(baudRate: Option<Word32>, rx: seq<Byte>): Option<Word32> {
    if |rx| >= 5 && rx[0] == CMD_SET_SPEED then Some(Word32At(rx, 1)) else baudRate
  }

  /** Only its own command byte makes a window request. */
  lemma FrameOfCommand(rx: seq<Byte>)
    ensures var p := Parse(rx); p.Parsed? && p.frame.InitExtram? ==> rx[0] == CMD_INIT_EXTRAM
    ensures |rx| >= 5 ==> Word32At(rx[1..], 0) == Word32At(rx, 1)
  {
    hide Word32At, FirstOf;
    Word32AtDrop(rx, 1);
  }

  lemma NoiseServed(command: Byte, rest: seq<Byte>, m: seq<Byte>)
    requires !IsCommand(command)
    ensures ParseBody(command, rest) == Parsed(Noise(command), rest)
    ensures Serves(m, Noise(command), m, [])
  {}

  lemma GotoServed(m: seq<Byte>, f: Frame, m': seq<Byte>, status: seq<Byte>)
    requires Serves(m, f, m', status) && f.Goto?
    ensures m' == m && status == [STATUS_SUCCESS]
  {}

  lemma ParseShrinks(rx: seq<Byte>)
    ensures Parse(rx).Parsed? ==> |Parse(rx).rest| < |rx|
  {
    hide Word32At, FirstOf;
  }

  // ----- runs

  datatype State = State(memory: seq<Byte>, rx: seq<Byte>, tx: seq<Byte>)

  /** The loop stops only inside an incomplete frame, or after a goto. */
  ghost predicate EndsWith(last: State, outcome: Outcome, now: State) {
    match outcome
    case Served => false
    case Blocked => Parse(last.rx).Incomplete? && now.tx == last.tx && (last.rx == [] ==> now == last)
    case Jumped(entry) =>
      && Parse(last.rx) == Parsed(Goto(entry), now.rx)
      && now.memory == last.memory && now.tx == last.tx + [STATUS_SUCCESS]
  }

  /** One frame is consumed whole and answered. */
  ghost predicate Step(s: State, s': State) {
    var p := Parse(s.rx);
    && p.Parsed? && !p.frame.Goto?
    && s'.rx == p.rest
    && s.tx <= s'.tx
    && Serves(s.memory, p.frame, s'.memory, s'.tx[|s.tx|..])
  }

  ghost predicate IsRun(trace: seq<State>) {
    && trace != []
    && forall i :: 0 <= i < |trace| - 1 ==> Step(trace[i], trace[i + 1])
  }

  lemma ShortWriteLz4(body: seq<Byte>)
    ensures |body| < 12 ==> ParseBody(CMD_WRITE_RAM_LZ4, body) == Incomplete
  {}

  /** The LZ4 frame, cut up the way the device consumes it. */
  lemma ParsedWriteLz4(body: seq<Byte>, compressedSize: nat)
    requires |body| >= 12 && Word32At(body, 4) == compressedSize
    ensures |body| >= 16 + compressedSize ==>
              ParseBody(CMD_WRITE_RAM_LZ4, body) ==
              Parsed(WriteLz4(Word32At(body, 0), body[12..][..compressedSize], Word32At(body, 8),
                              Word32At(body[12..][compressedSize..], 0)),
                     body[12..][compressedSize..][4..])
    ensures |body| < 16 + compressedSize ==> ParseBody(CMD_WRITE_RAM_LZ4, body) == Incomplete
  {
    hide Word32At;
    if |body| >= 16 + compressedSize {
      assert body[12..][..compressedSize] == body[12..12 + compressedSize];
      assert body[12..][compressedSize..] == body[12 + compressedSize..];
      Word32AtDrop(body, 12 + compressedSize);
      assert body[12 + compressedSize..][4..] == body[12 + compressedSize + 4..];
    }
  }

  lemma BlockServed(m0: seq<Byte>, m1: seq<Byte>, m2: seq<Byte>, address: Word32, compressed: seq<Byte>,
                    outputSize: Word32, crc: Word32, decoded: bool, ok: bool)
    requires |compressed| <= BLOCK_SIZE && outputSize <= BLOCK_SIZE
    requires Written(m0, m1, DTCM_ADDRESS, compressed)
    requires SameOutside(m1, m2, address, outputSize)
    requires Disjoint(DTCM_ADDRESS, |compressed|, address, outputSize) ==>
               && decoded == Lz4Decoder.Fills(compressed, outputSize)
               && (decoded ==> Range(m2, address, outputSize) == Lz4Format.Decode(compressed).value)
    requires ok == (decoded && crc == Crc32.ChecksumWord(Range(m2, address, outputSize)))
    ensures Decompressed(m0, m2, address, compressed, outputSize, crc, ok)
  {
    hide Range, Lz4Format.Decode, Disjoint, Crc32.ChecksumWord;
  }

  lemma ScratchFilled(m: seq<Byte>, m': seq<Byte>, compressed: seq<Byte>)
    requires Written(m, m', DTCM_ADDRESS, compressed) && |compressed| <= BLOCK_SIZE
    ensures Range(m', DTCM_ADDRESS, |compressed|) == compressed
    ensures Lz4Decoder.NoWrap(compressed)
  {
    WrittenRange(m, m', DTCM_ADDRESS, compressed);
  }

  /** How a command must leave the device, given what its bytes parse to. */
  ghost predicate Answered(p: Parsed, m: seq<Byte>, m': seq<Byte>, tx: seq<Byte>, tx': seq<Byte>, rx': seq<Byte>,
                           outcome: Outcome) {
    match p
    case Incomplete => outcome == Blocked && tx' == tx
    case Parsed(f, rest) =>
      && rx' == rest
      && outcome == (if f.Goto? then Jumped(f.address) else Served)
      && tx <= tx'
      && Serves(m, f, m', tx'[|tx|..])
  }

  lemma Word32AtDrop(s: seq<Byte>, n: nat)
    ensures n + 4 <= |s| ==> Word32At(s[n..], 0) == Word32At(s, n)
  {
    if n + 4 <= |s| {
      assert s[n..][0..4] == s[n..n + 4];
    }
  }
}
