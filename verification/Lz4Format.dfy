/**
 The LZ4 Block Format Description as a grammar and its meaning, independent of both
 the encoder (boot.py) and the decoder (preloader/src/lz4.c).
 A block is a list of sequences followed by a literal-only tail.
 */
module Lz4Format {
  import opened Bytes
  import opened BitMath

  datatype Sequence = Sequence(literals: seq<Byte>, distance: nat, size: nat)
  datatype Block = Block(sequences: seq<Sequence>, tail: seq<Byte>)

  // ----- meaning: what a block expands to

  /** A match copies byte by byte from `distance` back, so it may read bytes it has just written. */
  function CopyMatch(output: seq<Byte>, distance: nat, size: nat): (r: seq<Byte>)
    requires 0 < distance <= |output|
    ensures |r| == |output| + size
    ensures output <= r
    decreases size
  {
    if size == 0 then output
    else CopyMatch(output + [output[|output| - distance]], distance, size - 1)
  }

  /** The byte-wise copy is the periodic extension of the last `distance` bytes. */
  lemma {:induction false} CopyMatchIsPeriodic(output: seq<Byte>, distance: nat, size: nat, i: nat)
    requires 0 < distance <= |output|
    requires i < size
    ensures CopyMatch(output, distance, size)[|output| + i] == output[|output| - distance + i % distance]
    decreases size
  {
    var next := output + [output[|output| - distance]];
    var whole := CopyMatch(output, distance, size);
    assert whole == CopyMatch(next, distance, size - 1);
    if i == 0 {
      assert next <= whole;
      assert whole[|output|] == next[|output|];
      assert 0 % distance == 0;
    } else {
      CopyMatchIsPeriodic(next, distance, size - 1, i - 1);
      PredecessorModulo(i, distance);
    }
  }

  lemma PredecessorModulo(i: nat, d: nat)
    requires 0 < i && 0 < d
    ensures if (i - 1) % d == d - 1 then i % d == 0 else i % d == (i - 1) % d + 1
  {
    var q, r := (i - 1) / d, (i - 1) % d;
    assert i == q * d + (r + 1);
    if r == d - 1 {
      assert i == (q + 1) * d;
      RemainderUnique(i, d, q + 1, 0);
    } else {
      RemainderUnique(i, d, q, r + 1);
    }
  }

  /** Literals, then the match; None when the match reaches before the start of the output. */
  function Apply(output: seq<Byte>, s: Sequence): (r: Option<seq<Byte>>)
    ensures r.Some? ==> output <= r.value && |r.value| == |output| + |s.literals| + s.size
  {
    var mid := output + s.literals;
    if s.distance == 0 || s.distance > |mid| then None
    else Some(CopyMatch(mid, s.distance, s.size))
  }

  /** The bytes a block stands for after `output`; None when a match reaches before the start. */
  function Expand(output: seq<Byte>, sequences: seq<Sequence>): (r: Option<seq<Byte>>)
    ensures r.Some? ==> output <= r.value
    decreases |sequences|
  {
    if sequences == [] then Some(output)
    else
      match Apply(output, sequences[0])
      case None => None
      case Some(next) => Expand(next, sequences[1..])
  }

  function ExpandBlock(output: seq<Byte>, block: Block): (r: Option<seq<Byte>>) {
    match Expand(output, block.sequences)
    case None => None
    case Some(bytes) => Some(bytes + block.tail)
  }

  // ----- syntax: parsing

  /** The value continued by a length field whose nibble was `base`, and the offset after it. */
  datatype Length = Length(value: nat, next: nat)

  /** Adds bytes up to and including the first that is not 0xFF. */
  function ExtendLength(input: seq<Byte>, at: nat, value: nat): (r: Option<Length>)
    requires at <= |input|
    ensures r.Some? ==> at < r.value.next <= |input|
    ensures r.Some? ==> value <= r.value.value <= value + 0xFF * (r.value.next - at)
    decreases |input| - at
  {
    if at == |input| then None
    else if input[at] == 0xFF then ExtendLength(input, at + 1, value + 0xFF)
    else Some(Length(value + input[at], at + 1))
  }

  function ParseLength(input: seq<Byte>, at: nat, nibble: nat): (r: Option<Length>)
    requires at <= |input|
    ensures r.Some? ==> at <= r.value.next <= |input|
    ensures r.Some? ==> nibble <= r.value.value <= nibble + 0xFF * (r.value.next - at)
  {
    if nibble != 0xF then Some(Length(nibble, at)) else ExtendLength(input, at, nibble)
  }

  datatype Item =
    | Malformed
    | Tail(tail: seq<Byte>)
    | Match(sequence: Sequence, next: nat)

  /** One sequence starting at the token at `at`; a sequence that ends the input after its literals is the tail. */
  function ParseItem(input: seq<Byte>, at: nat): (r: Item)
    requires at < |input|
    ensures r.Match? ==> at < r.next <= |input|
  {
    match ParseLength(input, at + 1, input[at] / 16)
    case None => Malformed
    case Some(Length(literalSize, start)) =>
      if literalSize > |input| - start then Malformed
      else
        var end := start + literalSize;
        var literals := input[start..end];
        if end == |input| then Tail(literals)
        else if |input| - end < 2 then Malformed
        else
          var distance := Word16(input[end], input[end + 1]);
          match ParseLength(input, end + 2, input[at] % 16)
          case None => Malformed
          case Some(Length(matchSize, next)) =>
            Match(Sequence(literals, distance, matchSize + 4), next)
  }

  /** What the item at `at` is, read off in the order the decoder does. */
  lemma ItemShape(data: seq<Byte>, at: nat)
    requires at < |data|
    ensures var item, length := ParseItem(data, at), ParseLength(data, at + 1, data[at] / 16);
            if length.None? || length.value.value > |data| - length.value.next then item.Malformed?
            else
              var end := length.value.next + length.value.value;
              var literals := data[length.value.next..end];
              if end == |data| then item == Tail(literals)
              else if |data| - end < 2 then item.Malformed?
              else
                var second := ParseLength(data, end + 2, data[at] % 16);
                if second.None? then item.Malformed?
                else item == Match(Sequence(literals, Word16(data[end], data[end + 1]), second.value.value + 4),
                    second.value.next)
  {
    hide ParseLength;
  }

  function ParseBlock(input: seq<Byte>, at: nat): (r: Option<Block>)
    requires at <= |input|
    decreases |input| - at
  {
    if at == |input| then Some(Block([], []))
    else
      match ParseItem(input, at)
      case Malformed => None
      case Tail(tail) => Some(Block([], tail))
      case Match(sequence, next) =>
        match ParseBlock(input, next)
        case None => None
        case Some(rest) => Some(Block([sequence] + rest.sequences, rest.tail))
  }

  /** The bytes the block `input[at..]` adds to `output`, if it is well formed and its matches stay inside. */
  function DecodeFrom(input: seq<Byte>, at: nat, output: seq<Byte>): (r: Option<seq<Byte>>)
    requires at <= |input|
    ensures r.Some? ==> output <= r.value
  {
    match ParseBlock(input, at)
    case None => None
    case Some(block) => ExpandBlock(output, block)
  }

  function Decode(input: seq<Byte>): Option<seq<Byte>> {
    DecodeFrom(input, 0, [])
  }

  /** What decoding yields once the item at the current offset is known. */
  function DecodeItem(input: seq<Byte>, item: Item, output: seq<Byte>): Option<seq<Byte>>
    requires item.Match? ==> item.next <= |input|
  {
    match item
    case Malformed => None
    case Tail(tail) => Some(output + tail)
    case Match(s, next) =>
      match Apply(output, s)
      case None => None
      case Some(bytes) => DecodeFrom(input, next, bytes)
  }

  /** Decoding one sequence at a time. */
  lemma DecodeStep(input: seq<Byte>, at: nat, output: seq<Byte>)
    requires at < |input|
    ensures DecodeFrom(input, at, output) == DecodeItem(input, ParseItem(input, at), output)
  {
    var item := ParseItem(input, at);
    if item.Match? {
      var rest := ParseBlock(input, item.next);
      if rest.Some? {
        var all := [item.sequence] + rest.value.sequences;
        assert all[0] == item.sequence && all[1..] == rest.value.sequences;
      }
    }
  }

  // ----- syntax: serialising

  /** The bytes that continue a length whose nibble is 15. */
  function LengthBytes(n: nat): (s: seq<Byte>)
    ensures |s| == n / 0xFF + 1
  {
    if n < 0xFF then [n] else [0xFF] + LengthBytes(n - 0xFF)
  }

  function LengthField(n: nat): seq<Byte> {
    if n < 0xF then [] else LengthBytes(n - 0xF)
  }

  function Token(literalSize: nat, matchSize: nat): Byte {
    16 * Min(literalSize, 0xF) + Min(matchSize, 0xF)
  }

  ghost predicate WellFormed(s: Sequence) {
    0 < s.distance < 0x1_0000 && 4 <= s.size
  }

  function SequenceBytes(s: Sequence): seq<Byte>
    requires WellFormed(s)
  {
    [Token(|s.literals|, s.size - 4)] + LengthField(|s.literals|) + s.literals
    + Le16(s.distance) + LengthField(s.size - 4)
  }

  function SequencesBytes(sequences: seq<Sequence>): seq<Byte>
    requires forall s <- sequences :: WellFormed(s)
  {
    if sequences == [] then []
    else SequencesBytes(sequences[..|sequences| - 1]) + SequenceBytes(sequences[|sequences| - 1])
  }

  function TailBytes(tail: seq<Byte>): (s: seq<Byte>)
    ensures s != []
  {
    [Token(|tail|, 0)] + LengthField(|tail|) + tail
  }

  function BlockBytes(block: Block): seq<Byte>
    requires forall s <- block.sequences :: WellFormed(s)
  {
    SequencesBytes(block.sequences) + TailBytes(block.tail)
  }

  // ----- parsing undoes serialising

  lemma {:induction false} ExtendLengthRoundTrip(before: seq<Byte>, n: nat, after: seq<Byte>, base: nat)
    ensures ExtendLength(before + LengthBytes(n) + after, |before|, base)
         == Some(Length(base + n, |before| + |LengthBytes(n)|))
    decreases n
  {
    var input := before + LengthBytes(n) + after;
    if n < 0xFF {
      assert input[|before|] == n;
    } else {
      assert input[|before|] == 0xFF;
      assert input == (before + [0xFF]) + LengthBytes(n - 0xFF) + after;
      ExtendLengthRoundTrip(before + [0xFF], n - 0xFF, after, base + 0xFF);
    }
  }

  lemma ParseLengthRoundTrip(before: seq<Byte>, n: nat, after: seq<Byte>)
    ensures ParseLength(before + LengthField(n) + after, |before|, Min(n, 0xF))
         == Some(Length(n, |before| + |LengthField(n)|))
  {
    if n >= 0xF {
      ExtendLengthRoundTrip(before, n - 0xF, after, 0xF);
    }
  }

  lemma TokenNibbles(l: nat, m: nat)
    ensures Token(l, m) / 16 == Min(l, 0xF) && Token(l, m) % 16 == Min(m, 0xF)
  {}

  /** Where the parts of a serialised sequence lie. */
  lemma PartsLaidOut(before: seq<Byte>, token: Byte, f1: seq<Byte>, literals: seq<Byte>, gap: seq<Byte>,
                     f2: seq<Byte>, after: seq<Byte>)
    requires |gap| == 2
    ensures var input := before + ([token] + f1 + literals + gap + f2) + after;
            var end := |before| + 1 + |f1| + |literals|;
            && |input| == end + 2 + |f2| + |after|
            && input[|before|] == token
            && input == (before + [token]) + f1 + (literals + gap + f2 + after)
            && input == ((before + [token]) + f1 + literals + gap) + f2 + after
            && input[|before| + 1 + |f1|..end] == literals
            && input[end] == gap[0] && input[end + 1] == gap[1]
  {}

  lemma ParseParts(before: seq<Byte>, literals: seq<Byte>, distance: nat, size: nat,
                   f1: seq<Byte>, f2: seq<Byte>, after: seq<Byte>)
    requires distance < 0x1_0000 && after != []
    requires f1 == LengthField(|literals|) && f2 == LengthField(size)
    ensures var input := before + ([Token(|literals|, size)] + f1 + literals + Le16(distance) + f2) + after;
            ParseItem(input, |before|)
            == Match(Sequence(literals, distance, size + 4), |before| + 3 + |f1| + |literals| + |f2|)
  {
    hide Token, LengthField, ParseLength, Word16, Le16, ParseItem;
    var token := Token(|literals|, size);
    var gap := Le16(distance);
    var input := before + ([token] + f1 + literals + gap + f2) + after;
    PartsLaidOut(before, token, f1, literals, gap, f2, after);
    ItemShape(input, |before|);
    TokenNibbles(|literals|, size);
    var head := before + [token];
    ParseLengthRoundTrip(head, |literals|, literals + gap + f2 + after);
    ParseLengthRoundTrip(head + f1 + literals + gap, size, after);
  }

  lemma ParseSequence(before: seq<Byte>, s: Sequence, after: seq<Byte>)
    requires WellFormed(s)
    requires after != []
    ensures ParseItem(before + SequenceBytes(s) + after, |before|)
         == Match(s, |before| + |SequenceBytes(s)|)
  {
    ParseParts(before, s.literals, s.distance, s.size - 4, LengthField(|s.literals|), LengthField(s.size - 4), after);
  }

  lemma ParseTail(before: seq<Byte>, tail: seq<Byte>)
    ensures ParseItem(before + TailBytes(tail), |before|) == Tail(tail)
  {
    hide Token, LengthField, ParseLength, ParseItem;
    var token := Token(|tail|, 0);
    var f := LengthField(|tail|);
    var input := before + TailBytes(tail);
    ItemShape(input, |before|);
    TokenNibbles(|tail|, 0);
    assert input[|before|] == token;
    var head := before + [token];
    assert input == head + f + tail;
    ParseLengthRoundTrip(head, |tail|, tail);
    assert input[|before| + 1 + |f|..] == tail;
  }

  /** Serialised sequences, peeled from the front. */
  lemma {:induction false} SequencesBytesFront(sequences: seq<Sequence>)
    requires sequences != []
    requires forall s <- sequences :: WellFormed(s)
    ensures SequencesBytes(sequences) == SequenceBytes(sequences[0]) + SequencesBytes(sequences[1..])
    decreases |sequences|
  {
    hide SequenceBytes, WellFormed;
    var n := |sequences|;
    var init, last := sequences[..n - 1], sequences[n - 1];
    if n == 1 {
      assert init == [] && sequences[1..] == [];
    } else {
      SequencesBytesFront(init);
      var rest := sequences[1..];
      assert rest[..n - 2] == init[1..] && rest[n - 2] == last;
      var x, y, z := SequenceBytes(sequences[0]), SequencesBytes(init[1..]), SequenceBytes(last);
      assert SequencesBytes(init) == x + y;
      assert SequencesBytes(rest) == y + z;
      assert (x + y) + z == x + (y + z);
    }
  }

  lemma {:induction false} ParseSequences(before: seq<Byte>, sequences: seq<Sequence>, tail: seq<Byte>)
    requires forall s <- sequences :: WellFormed(s)
    ensures ParseBlock(before + (SequencesBytes(sequences) + TailBytes(tail)), |before|)
         == Some(Block(sequences, tail))
    decreases |sequences|
  {
    hide ParseItem, TailBytes, SequenceBytes, WellFormed;
    var input := before + (SequencesBytes(sequences) + TailBytes(tail));
    if sequences == [] {
      assert input == before + TailBytes(tail);
      ParseTail(before, tail);
    } else {
      var s, rest := sequences[0], sequences[1..];
      SequencesBytesFront(sequences);
      var after := SequencesBytes(rest) + TailBytes(tail);
      assert input == before + SequenceBytes(s) + after;
      ParseSequence(before, s, after);
      var next := before + SequenceBytes(s);
      assert input == next + after;
      ParseSequences(next, rest, tail);
      assert [s] + rest == sequences;
    }
  }

  /**
   The serialised form of any block whose distances fit 16 bits and whose matches have at least 4 bytes
   parses back to it.
   */
  lemma BlockRoundTrip(block: Block)
    requires forall s <- block.sequences :: WellFormed(s)
    ensures ParseBlock(BlockBytes(block), 0) == Some(block)
  {
    assert [] + BlockBytes(block) == BlockBytes(block);
    ParseSequences([], block.sequences, block.tail);
  }

  // ----- the bytes themselves

  /** The extended lengths around the values where they grow. */
  lemma LengthFieldBytes()
    ensures LengthField(14) == [] && LengthField(15) == [0] && LengthField(269) == [254]
    ensures LengthField(270) == [255, 0] && LengthField(525) == [255, 255, 0]
  {
    assert LengthBytes(0) == [0] && LengthBytes(254) == [254];
    assert LengthBytes(255) == [255] + LengthBytes(0);
    assert LengthBytes(510) == [255] + LengthBytes(255);
  }

  lemma ShortSequenceBytes(literals: seq<Byte>, d: Byte, m: nat)
    requires |literals| < 15 && m < 15 && 0 < d
    ensures SequenceBytes(Sequence(literals, d, m + 4)) == [16 * |literals| + m] + literals + [d, 0]
  {
    assert Le16(d) == [d, 0];
  }

  /**
   A block written out byte by byte: two nibbles, literals, a distance below 256 in the first of its
   two bytes, and up to 14 bytes of tail. The match starts `d` back.
   */
  lemma ShortBlockDecodes(literals: seq<Byte>, d: Byte, m: nat, tail: seq<Byte>)
    requires |literals| < 15 && m < 15 && |tail| < 15 && 0 < d <= |literals|
    ensures Decode([16 * |literals| + m] + literals + [d, 0] + ([16 * |tail|] + tail))
         == Some(CopyMatch(literals, d, m + 4) + tail)
  {
    hide SequenceBytes, CopyMatch, ParseBlock;
    var s := Sequence(literals, d, m + 4);
    var block := Block([s], tail);
    ShortSequenceBytes(literals, d, m);
    BlockRoundTrip(block);
    assert block.sequences[..0] == [] && block.sequences[1..] == [];
    assert SequencesBytes(block.sequences) == SequencesBytes([]) + SequenceBytes(s);
    assert BlockBytes(block) == [16 * |literals| + m] + literals + [d, 0] + ([16 * |tail|] + tail);
    assert [] + literals == literals;
    assert Expand([], [s]) == Expand(CopyMatch(literals, d, m + 4), []);
  }

  /** Expanding one more sequence at the end. */
  lemma {:induction false} ExpandAppend(output: seq<Byte>, sequences: seq<Sequence>, s: Sequence)
    ensures var before := Expand(output, sequences);
            Expand(output, sequences + [s]) == if before.None? then None else Apply(before.value, s)
    decreases |sequences|
  {
    var all := sequences + [s];
    if sequences == [] {
      assert all[0] == s && all[1..] == [];
    } else {
      assert all[0] == sequences[0];
      assert all[1..] == sequences[1..] + [s];
      var first := Apply(output, sequences[0]);
      if first.Some? {
        ExpandAppend(first.value, sequences[1..], s);
      }
    }
  }
}
