/** The device's decompressor (preloader/src/lz4.c), working in place on device memory with 32-bit counters. */
module Lz4Decoder {
  import opened Bytes
  import opened Memory
  import opened Lz4Format

  /** Input sizes for which no length counter can reach 2^32. */
  const SAFE_INPUT: nat := 0x100_0000

  function AddWrapped(a: Word32, b: Word32): Word32 {
    (a + b) % WORD
  }

  lemma AddWrappedSum(sum: nat, value: Byte)
    ensures AddWrapped(sum % WORD, value) == (sum + value) % WORD
  {}

  lemma ExtendStep(data: seq<Byte>, at: nat, value: nat)
    requires at <= |data|
    ensures ExtendLength(data, at, value)
         == if at == |data| then None
            else if data[at] == 0xFF then ExtendLength(data, at + 1, value + 0xFF)
            else Some(Length(value + data[at], at + 1))
  {}

  lemma ParseLengthOf(data: seq<Byte>, at: nat, nibble: nat)
    requires at <= |data|
    ensures ParseLength(data, at, nibble) == if nibble != 0xF then Some(Length(nibble, at))
      else ExtendLength(data, at, nibble)
  {}

  /** Continues a length nibble of 15; the sum is kept in 32 bits. */
  method ReadLength(memory: array<Byte>, input: Word32, inputSize: Word32, at: Word32, nibble: Word32)
    returns (ok: bool, next: Word32, length: Word32)
    requires memory.Length == WORD && at <= inputSize && nibble <= 0xF
    ensures at <= next <= inputSize
    ensures var parsed := ParseLength(Range(memory[..], input, inputSize), at, nibble);
            && ok == parsed.Some?
            && (ok ==> next == parsed.value.next && length == parsed.value.value % WORD)
  {
    hide Range, Addr, ExtendLength, ParseLength, AddWrapped;
    ghost var data := Range(memory[..], input, inputSize);
    ParseLengthOf(data, at, nibble);
    next, length := at, nibble;
    if nibble != 0xF {
      return true, next, length;
    }
    ghost var sum: nat := nibble;
    var value: Byte := 0xFF;
    while value == 0xFF
      invariant at <= next <= inputSize
      invariant length == sum % WORD
      invariant value == 0xFF ==> ExtendLength(data, next, sum) == ExtendLength(data, at, nibble)
      invariant value != 0xFF ==> ExtendLength(data, at, nibble) == Some(Length(sum, next))
      decreases inputSize - next, value
    {
      ExtendStep(data, next, sum);
      if next == inputSize {
        return false, next, length;
      }
      RangeAt(memory[..], input, inputSize, next);
      value := memory[Addr(input, next)];
      next := next + 1;
      AddWrappedSum(sum, value);
      length := AddWrapped(length, value);
      sum := sum + value;
    }
    return true, next, length;
  }

  lemma WrittenAt(m: seq<Byte>, m': seq<Byte>, a: Word32, data: seq<Byte>, k: nat)
    requires Written(m, m', a, data) && k < |data|
    ensures m'[Addr(a, k)] == data[k]
  {
    assert Offset(a, Addr(a, k)) == k;
  }

  lemma RangeAt(m: seq<Byte>, a: Word32, n: nat, k: nat)
    requires |m| == WORD && k < n < WORD
    ensures Range(m, a, n)[k] == m[Addr(a, k)]
  {}

  /** Copies `size` bytes from the input to the end of the output. */
  method CopyLiterals(memory: array<Byte>, input: Word32, inputSize: Word32, from: Word32,
                      output: Word32, ghost base: seq<Byte>, ghost done: seq<Byte>, at: Word32, size: Word32)
    returns (ghost copied: seq<Byte>)
    requires memory.Length == WORD && from + size <= inputSize && at + size < WORD
    requires Written(base, memory[..], output, done) && |done| == at
    modifies memory
    ensures |copied| == size
    ensures Written(base, memory[..], output, done + copied)
    ensures Disjoint(input, inputSize, output, at + size) ==>
              copied == Range(old(memory[..]), input, inputSize)[from..from + size]
  {
    hide Written, Disjoint, Range, Addr, Offset;
    ghost var data := Range(memory[..], input, inputSize);
    ghost var separate := Disjoint(input, inputSize, output, at + size);
    copied := [];
    assert done + copied == done;
    assert data[from..from] == [];
    var i := 0;
    while i < size
      invariant i <= size && |copied| == i
      invariant Written(base, memory[..], output, done + copied)
      invariant separate ==> Range(memory[..], input, inputSize) == data
      invariant separate ==> copied == data[from..from + i]
    {
      ghost var before := memory[..];
      RangeAt(before, input, inputSize, from + i);
      var value := memory[Addr(input, from + i)];
      memory[Addr(output, at + i)] := value;
      WrittenByte(base, before, output, done + copied, value);
      if separate {
        OneByteElsewhere(before, memory[..], input, inputSize, output, at + size, at + i);
      }
      assert done + copied + [value] == done + (copied + [value]);
      assert data[from..from + (i + 1)] == data[from..from + i] + [data[from + i]];
      copied := copied + [value];
      i := i + 1;
    }
  }

  lemma OneByteElsewhere(m: seq<Byte>, m': seq<Byte>, input: Word32, inputSize: Word32,
                         output: Word32, room: Word32, k: nat)
    requires |m| == |m'| == WORD && k < room
    requires m' == m[Addr(output, k) := m'[Addr(output, k)]]
    requires Disjoint(input, inputSize, output, room)
    ensures Range(m', input, inputSize) == Range(m, input, inputSize)
  {
    forall j | 0 <= j < inputSize
      ensures m'[Addr(input, j)] == m[Addr(input, j)]
    {
      var i := Addr(input, j);
      assert Offset(input, i) == j;
      assert Offset(output, Addr(output, k)) == k;
    }
  }

  /** Repeats the last `distance` output bytes byte by byte, reading what it has just written. */
  method CopyBack(memory: array<Byte>, output: Word32, ghost base: seq<Byte>, ghost done: seq<Byte>,
                  at: Word32, distance: Word32, size: Word32)
    requires memory.Length == WORD && 0 < distance <= at && at + size < WORD
    requires Written(base, memory[..], output, done) && |done| == at
    modifies memory
    ensures Written(base, memory[..], output, CopyMatch(done, distance, size))
  {
    hide Written, Addr, Offset;
    ghost var now := done;
    var i := 0;
    while i < size
      invariant i <= size && |now| == at + i
      invariant Written(base, memory[..], output, now)
      invariant CopyMatch(now, distance, size - i) == CopyMatch(done, distance, size)
    {
      ghost var before := memory[..];
      WrittenAt(base, before, output, now, at + i - distance);
      var value := memory[Addr(output, at + i - distance)];
      memory[Addr(output, at + i)] := value;
      WrittenByte(base, before, output, now, value);
      now := now + [value];
      i := i + 1;
    }
  }

  /** The lengths met on the way to `Decode(data)` fit 32 bits. */
  ghost predicate NoWrap(data: seq<Byte>) {
    |data| <= SAFE_INPUT || (Decode(data).Some? && |Decode(data).value| < WORD)
  }

  lemma WrittenElsewhere(m: seq<Byte>, m': seq<Byte>, input: Word32, inputSize: Word32, output: Word32, data: seq<Byte>)
    requires Written(m, m', output, data)
    requires Disjoint(input, inputSize, output, |data|)
    ensures Range(m', input, inputSize) == Range(m, input, inputSize)
  {
    forall j | 0 <= j < inputSize
      ensures m'[Addr(input, j)] == m[Addr(input, j)]
    {
      assert Offset(input, Addr(input, j)) == j;
    }
  }

  /** The decoder has consumed `data[..at]` and produced `out`. */
  ghost predicate Decoding(data: seq<Byte>, at: nat, out: seq<Byte>) {
    at <= |data| && NoWrap(data) && DecodeFrom(data, at, out) == Decode(data)
  }

  lemma LiteralSizeFits(data: seq<Byte>, at: nat, out: seq<Byte>)
    requires Decoding(data, at, out) && at < |data| < WORD
    ensures var length := ParseLength(data, at + 1, data[at] / 16);
            length.Some? ==> length.value.value < WORD
  {
    hide ParseLength, ExpandBlock, ParseBlock, Apply;
    DecodeStep(data, at, out);
  }

  lemma MatchSizeFits(data: seq<Byte>, at: nat, out: seq<Byte>)
    requires Decoding(data, at, out) && at < |data| < WORD
    ensures var item := ParseItem(data, at);
            item.Match? ==> item.sequence.size < WORD
  {
    hide ParseLength, ExpandBlock, ParseBlock, CopyMatch;
    DecodeStep(data, at, out);
  }

  /** The block decodes, to exactly `size` bytes. */
  ghost predicate Fills(data: seq<Byte>, size: nat) {
    Decode(data).Some? && |Decode(data).value| == size
  }

  lemma MalformedFails(data: seq<Byte>, at: nat, out: seq<Byte>, size: nat)
    requires Decoding(data, at, out) && at < |data|
    requires ParseItem(data, at).Malformed?
    ensures !Fills(data, size)
  {
    hide ParseItem, DecodeFrom, Decode;
    DecodeStep(data, at, out);
  }

  lemma BadMatchFails(data: seq<Byte>, at: nat, out: seq<Byte>, size: nat)
    requires Decoding(data, at, out) && at < |data|
    requires var item := ParseItem(data, at);
             item.Match? && (Apply(out, item.sequence).None? ||
                             |out| + |item.sequence.literals| + item.sequence.size > size)
    ensures !Fills(data, size)
  {
    hide ParseItem, DecodeFrom, Decode;
    DecodeStep(data, at, out);
  }

  lemma TailDecodes(data: seq<Byte>, at: nat, out: seq<Byte>, size: nat)
    requires Decoding(data, at, out) && at < |data|
    requires ParseItem(data, at).Tail?
    ensures Decode(data) == Some(out + ParseItem(data, at).tail)
  {
    hide ParseItem, DecodeFrom, Decode;
    DecodeStep(data, at, out);
  }

  lemma MatchDecodes(data: seq<Byte>, at: nat, out: seq<Byte>)
    requires Decoding(data, at, out) && at < |data|
    requires var item := ParseItem(data, at); item.Match? && Apply(out, item.sequence).Some?
    ensures Decoding(data, ParseItem(data, at).next, Apply(out, ParseItem(data, at).sequence).value)
  {
    hide ParseItem, DecodeFrom, Decode, NoWrap, Apply;
    DecodeStep(data, at, out);
  }

  lemma EndDecodes(data: seq<Byte>, out: seq<Byte>)
    requires Decoding(data, |data|, out)
    ensures Decode(data) == Some(out)
  {
    hide Decode;
    assert ParseBlock(data, |data|) == Some(Block([], []));
    assert out + [] == out;
  }

  lemma LiteralsOverflow(data: seq<Byte>, at: nat, out: seq<Byte>, size: nat)
    requires Decoding(data, at, out) && at < |data|
    requires var length := ParseLength(data, at + 1, data[at] / 16);
             length.Some? && |out| + length.value.value > size
    ensures !Fills(data, size)
  {
    hide ParseLength, DecodeFrom, Decode;
    DecodeStep(data, at, out);
  }

  lemma WrittenInside(m: seq<Byte>, m': seq<Byte>, input: Word32, inputSize: Word32, output: Word32, room: Word32,
                      data: seq<Byte>)
    requires Written(m, m', output, data) && |data| <= room
    ensures SameOutside(m, m', output, room)
    ensures Range(m', output, |data|) == data
    ensures Disjoint(input, inputSize, output, room) ==> Range(m', input, inputSize) == Range(m, input, inputSize)
  {
    if Disjoint(input, inputSize, output, room) {
      WrittenElsewhere(m, m', input, inputSize, output, data);
    }
  }

  /** The literal length field at the token, with the bytes it announces. */
  ghost predicate LiteralsAt(data: seq<Byte>, at: nat, literals: seq<Byte>, end: nat)
    requires at < |data|
  {
    var length := ParseLength(data, at + 1, data[at] / 16);
    && length.Some? && end == length.value.next + length.value.value <= |data|
    && literals == data[length.value.next..end]
  }

  /** Why the literals at the token cannot be taken with `room` bytes of output left. */
  ghost predicate NoLiterals(data: seq<Byte>, at: nat, room: int)
    requires at < |data|
  {
    var length := ParseLength(data, at + 1, data[at] / 16);
    length.None? || length.value.value > |data| - length.value.next || length.value.value > room
  }

  ghost predicate SizeFits(data: seq<Byte>, at: nat, nibble: nat, extra: nat)
    requires at <= |data|
  {
    var length := ParseLength(data, at, nibble);
    length.Some? ==> length.value.value + extra < WORD
  }

  /** Where the decoder works: `data` is the input, `out` has been written over `base`. */
  ghost predicate Working(m: seq<Byte>, base: seq<Byte>, input: Word32, data: seq<Byte>,
                          output: Word32, room: Word32, out: seq<Byte>) {
    && |m| == |base| == WORD && |data| < WORD
    && Written(base, m, output, out) && |out| <= room
    && (Disjoint(input, |data|, output, room) ==> Range(base, input, |data|) == data && Range(m, input, |data|) == data)
  }

  /** First half of the loop: the token, the literal length and the literals. */
  method TakeLiterals(memory: array<Byte>, input: Word32, inputSize: Word32, output: Word32, outputSize: Word32,
                      i: Word32, o: Word32, ghost base: seq<Byte>, ghost data: seq<Byte>, ghost out: seq<Byte>)
    returns (ok: bool, token: Byte, end: Word32, produced: Word32, ghost literals: seq<Byte>)
    requires memory.Length == WORD && |data| == inputSize && i < inputSize && o == |out|
    requires Working(memory[..], base, input, data, output, outputSize, out)
    modifies memory
    ensures i < end <= inputSize && produced == |out + literals|
    ensures Working(memory[..], base, input, data, output, outputSize, out + literals)
    ensures Disjoint(input, inputSize, output, outputSize) ==>
              && token == data[i]
              && (SizeFits(data, i + 1, token / 16, 0) ==>
                    if ok then LiteralsAt(data, i, literals, end) else NoLiterals(data, i, outputSize - o))
  {
    hide ParseLength, Disjoint, Written, Range, Addr, Offset;
    literals := [];
    assert out + literals == out;
    RangeAt(memory[..], input, inputSize, i);
    token := memory[Addr(input, i)];
    var more, next, literalSize := ReadLength(memory, input, inputSize, i + 1, token / 16);
    end, produced := next, o;
    if !more || literalSize > inputSize - next || literalSize > outputSize - o {
      return false, token, end, produced, literals;
    }
    literals := CopyLiterals(memory, input, inputSize, next, output, base, out, o, literalSize);
    end, produced := next + literalSize, o + literalSize;
    DisjointPrefixIf(input, inputSize, output, outputSize, o + literalSize);
    WrittenInside(base, memory[..], input, inputSize, output, outputSize, out + literals);
    return true, token, end, produced, literals;
  }

  lemma DisjointPrefixIf(a: Word32, n: nat, b: Word32, k: nat, k': nat)
    requires k' <= k
    ensures Disjoint(a, n, b, k) ==> Disjoint(a, n, b, k')
  {}

  /** Why no match can be taken after the literals ending at `end`. */
  ghost predicate NoMatch(data: seq<Byte>, end: nat, nibble: nat, produced: nat, room: nat)
    requires end < |data|
  {
    |data| - end < 2 ||
    var distance, length := Word16(data[end], data[end + 1]), ParseLength(data, end + 2, nibble);
    distance == 0 || distance > produced || length.None? || produced + length.value.value + 4 > room
  }

  ghost predicate MatchAt(data: seq<Byte>, end: nat, nibble: nat, distance: nat, size: nat, next: nat)
    requires end < |data|
  {
    && |data| - end >= 2 && 4 <= size
    && distance == Word16(data[end], data[end + 1])
    && ParseLength(data, end + 2, nibble) == Some(Length(size - 4, next))
  }

  lemma AddFits(v: nat, extra: nat)
    requires extra < WORD
    ensures v + extra < WORD ==> AddWrapped(v % WORD, extra) == v + extra
  {}

  /** Second half of the loop: the distance, the match length and the copy. */
  method TakeMatch(memory: array<Byte>, input: Word32, inputSize: Word32, output: Word32, outputSize: Word32,
                   nibble: Word32, i: Word32, o: Word32, ghost base: seq<Byte>, ghost data: seq<Byte>,
                   ghost out: seq<Byte>)
    returns (ok: bool, next: Word32, produced: Word32, ghost distance: nat, ghost size: nat)
    requires memory.Length == WORD && |data| == inputSize && i < inputSize && o == |out| && nibble <= 0xF
    requires Working(memory[..], base, input, data, output, outputSize, out)
    modifies memory
    ensures i < next <= inputSize
    ensures ok ==> 0 < distance <= |out| && produced == |out| + size
    ensures Working(memory[..], base, input, data, output, outputSize,
                    if ok then CopyMatch(out, distance, size) else out)
    ensures Disjoint(input, inputSize, output, outputSize) &&
            (i + 2 <= inputSize ==> SizeFits(data, i + 2, nibble, 4)) ==>
              if ok then 4 <= size && MatchAt(data, i, nibble, distance, size, next)
              else NoMatch(data, i, nibble, |out|, outputSize)
  {
    hide ParseLength, Disjoint, Written, Range, Addr, Offset, CopyMatch, Word16, AddWrapped;
    next, produced, distance, size := inputSize, o, 0, 0;
    if inputSize - i < 2 {
      return false, next, produced, distance, size;
    }
    RangeAt(memory[..], input, inputSize, i);
    RangeAt(memory[..], input, inputSize, i + 1);
    var matchOffset: Word32 := Word16(memory[Addr(input, i)], memory[Addr(input, i + 1)]);
    if matchOffset == 0 || matchOffset > o {
      return false, next, produced, distance, size;
    }
    var more, after, length := ReadLength(memory, input, inputSize, i + 2, nibble);
    var matchSize: Word32 := AddWrapped(length, 4);
    ghost var parsed := ParseLength(data, i + 2, nibble);
    if parsed.Some? { AddFits(parsed.value.value, 4); }
    if !more || matchSize > outputSize - o {
      return false, next, produced, distance, size;
    }
    CopyBack(memory, output, base, out, o, matchOffset, matchSize);
    next, produced, distance, size := after, o + matchSize, matchOffset, matchSize;
    WrittenInside(base, memory[..], input, inputSize, output, outputSize, CopyMatch(out, distance, size));
    return true, next, produced, distance, size;
  }

  // ----- what each outcome of the loop body says about the whole block

  lemma LiteralsFit(data: seq<Byte>, at: nat, out: seq<Byte>)
    requires Decoding(data, at, out) && at < |data| < WORD
    ensures SizeFits(data, at + 1, data[at] / 16, 0)
  {
    hide Decoding, ParseLength;
    LiteralSizeFits(data, at, out);
  }

  lemma NoLiteralsFails(data: seq<Byte>, at: nat, out: seq<Byte>, size: nat)
    requires Decoding(data, at, out) && at < |data|
    requires NoLiterals(data, at, size - |out|)
    ensures !Fills(data, size)
  {
    hide Decoding, ParseLength, ParseItem, Fills;
    ItemShape(data, at);
    if ParseItem(data, at).Malformed? {
      MalformedFails(data, at, out, size);
    } else {
      LiteralsOverflow(data, at, out, size);
    }
  }

  lemma LastLiterals(data: seq<Byte>, at: nat, out: seq<Byte>, literals: seq<Byte>)
    requires Decoding(data, at, out) && at < |data|
    requires LiteralsAt(data, at, literals, |data|)
    ensures Decode(data) == Some(out + literals)
  {
    hide Decoding, ParseLength, ParseItem, Decode;
    ItemShape(data, at);
    TailDecodes(data, at, out, |data|);
  }

  lemma MatchFits(data: seq<Byte>, at: nat, out: seq<Byte>, literals: seq<Byte>, end: nat)
    requires Decoding(data, at, out) && at < |data| < WORD
    requires LiteralsAt(data, at, literals, end) && end + 2 <= |data|
    ensures SizeFits(data, end + 2, data[at] % 16, 4)
  {
    hide Decoding, ParseLength, ParseItem, Word16;
    ItemShape(data, at);
    MatchSizeFits(data, at, out);
  }

  lemma NoMatchFails(data: seq<Byte>, at: nat, out: seq<Byte>, literals: seq<Byte>, end: nat, size: nat)
    requires Decoding(data, at, out) && at < |data|
    requires LiteralsAt(data, at, literals, end) && end < |data|
    requires NoMatch(data, end, data[at] % 16, |out + literals|, size)
    ensures !Fills(data, size)
  {
    hide Decoding, ParseLength, ParseItem, Word16, Fills, CopyMatch;
    ItemShape(data, at);
    if ParseItem(data, at).Malformed? {
      MalformedFails(data, at, out, size);
    } else {
      BadMatchFails(data, at, out, size);
    }
  }

  lemma MatchContinues(data: seq<Byte>, at: nat, out: seq<Byte>, literals: seq<Byte>, end: nat,
                       distance: nat, size: nat, next: nat)
    requires Decoding(data, at, out) && at < |data|
    requires LiteralsAt(data, at, literals, end) && end < |data|
    requires MatchAt(data, end, data[at] % 16, distance, size, next) && 0 < distance <= |out + literals|
    ensures Decoding(data, next, CopyMatch(out + literals, distance, size))
  {
    hide Decoding, ParseLength, ParseItem, Word16, CopyMatch;
    ItemShape(data, at);
    MatchDecodes(data, at, out);
  }

  lemma WorkingStarts(m: seq<Byte>, input: Word32, inputSize: Word32, output: Word32, room: Word32)
    requires |m| == WORD
    ensures var data := Range(m, input, inputSize);
            && Working(m, m, input, data, output, room, [])
            && (NoWrap(data) ==> Decoding(data, 0, []))
  {
    hide NoWrap, Range;
    WrittenNothing(m, output);
  }

  lemma WorkingEnds(m: seq<Byte>, base: seq<Byte>, input: Word32, data: seq<Byte>, output: Word32, room: Word32,
                    out: seq<Byte>)
    requires Working(m, base, input, data, output, room, out)
    ensures SameOutside(base, m, output, room)
    ensures Range(m, output, |out|) == out
  {
    WrittenRange(base, m, output, out);
  }

  /**
   lz4_decompress: accepts exactly when the block decodes to `outputSize` bytes, and then those
   bytes are what it wrote. It always ends and never writes outside the output range.
   */
  method Decompress(memory: array<Byte>, input: Word32, inputSize: Word32, output: Word32, outputSize: Word32)
    returns (ok: bool)
    requires memory.Length == WORD
    modifies memory
    ensures SameOutside(old(memory[..]), memory[..], output, outputSize)
    ensures var data := Range(old(memory[..]), input, inputSize);
            Disjoint(input, inputSize, output, outputSize) && NoWrap(data) ==>
              && ok == Fills(data, outputSize)
              && (ok ==> Range(memory[..], output, outputSize) == Decode(data).value)
  {
    hide Range, Disjoint, NoWrap, Decoding, Working, LiteralsAt, NoLiterals, SizeFits, NoMatch, MatchAt,
         SameOutside, Decode, CopyMatch;
    ghost var base := memory[..];
    ghost var data := Range(base, input, inputSize);
    ghost var good := Disjoint(input, inputSize, output, outputSize) && NoWrap(data);
    ghost var out: seq<Byte> := [];
    WorkingStarts(base, input, inputSize, output, outputSize);
    var i: Word32, o: Word32 := 0, 0;
    while i < inputSize
      invariant i <= inputSize && o == |out|
      invariant Working(memory[..], base, input, data, output, outputSize, out)
      invariant good ==> Decoding(data, i, out)
    {
      if good { LiteralsFit(data, i, out); }
      var more, token, end, produced, literals :=
        TakeLiterals(memory, input, inputSize, output, outputSize, i, o, base, data, out);
      WorkingEnds(memory[..], base, input, data, output, outputSize, out + literals);
      if !more {
        if good { NoLiteralsFails(data, i, out, outputSize); }
        return false;
      }
      o := produced;
      if end == inputSize {
        if good { LastLiterals(data, i, out, literals); }
        return o == outputSize;
      }
      if good && end + 2 <= inputSize { MatchFits(data, i, out, literals, end); }
      var matched, next, total, distance, size :=
        TakeMatch(memory, input, inputSize, output, outputSize, token % 16, end, o, base, data, out + literals);
      if !matched {
        WorkingEnds(memory[..], base, input, data, output, outputSize, out + literals);
        if good { NoMatchFails(data, i, out, literals, end, outputSize); }
        return false;
      }
      if good { MatchContinues(data, i, out, literals, end, distance, size, next); }
      out := CopyMatch(out + literals, distance, size);
      o := total;
      i := next;
    }
    WorkingEnds(memory[..], base, input, data, output, outputSize, out);
    if good { EndDecodes(data, out); }
    return o == outputSize;
  }
}
