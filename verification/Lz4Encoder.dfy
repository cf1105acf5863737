/** The host's greedy block compressor (boot.py, append_lz4_length and lz4_compress_block). */
module Lz4Encoder {
  import opened Bytes
  import opened Lz4Format

  const MAX_DISTANCE: nat := 0xFFFF

  // ----- which block the greedy matcher must produce

  /** Number of bytes a list of sequences stands for. */
  function Covered(ss: seq<Sequence>): nat {
    if ss == [] then 0
    else Covered(ss[..|ss| - 1]) + |ss[|ss| - 1].literals| + ss[|ss| - 1].size
  }

  /** No window of four bytes within reach before `p` equals the one at `p`. */
  ghost predicate NoCandidate(data: seq<Byte>, p: nat)
    requires p + 4 <= |data|
  {
    forall q: nat :: q < p <= q + MAX_DISTANCE ==> Word32At(data, q) != Word32At(data, p)
  }

  /** Every position of `data[from..to]` that the search visits is without a candidate. */
  ghost predicate AllLiteral(data: seq<Byte>, from: nat, to: nat) {
    forall p: nat :: from <= p < to && p + 12 <= |data| ==> NoCandidate(data, p)
  }

  /**
   The one sequence a greedy matcher may emit after `anchor` bytes: literals up to the first
   position that has a candidate, the nearest candidate, and the longest match it allows.
   The match starts at least 12 bytes before the end and leaves the last 5 bytes alone.
   */
  ghost predicate GreedyMatch(data: seq<Byte>, anchor: nat, s: Sequence) {
    var p := anchor + |s.literals|;
    var end := p + s.size;
    && p + 12 <= |data|
    && s.literals == data[anchor..p]
    && AllLiteral(data, anchor, p)
    && 0 < s.distance <= MAX_DISTANCE && s.distance <= p
    && Word32At(data, p - s.distance) == Word32At(data, p)
    && (forall q: nat :: p - s.distance < q < p ==> Word32At(data, q) != Word32At(data, p))
    && 4 <= s.size && end + 5 <= |data|
    && (forall j :: p <= j < end ==> data[j] == data[j - s.distance])
    && (end + 5 == |data| || data[end] != data[end - s.distance])
  }

  ghost predicate Greedy(data: seq<Byte>, ss: seq<Sequence>) {
    ss == [] ||
    var init := ss[..|ss| - 1];
    Greedy(data, init) && GreedyMatch(data, Covered(init), ss[|ss| - 1])
  }

  ghost predicate GreedyBlock(data: seq<Byte>, block: Block) {
    && Greedy(data, block.sequences)
    && Covered(block.sequences) <= |data|
    && block.tail == data[Covered(block.sequences)..]
    && AllLiteral(data, Covered(block.sequences), |data|)
  }

  // ----- what being that block implies

  lemma {:induction false} CopyMatchRebuilds(data: seq<Byte>, p: nat, distance: nat, size: nat)
    requires 0 < distance <= p && p + size <= |data|
    requires forall j :: p <= j < p + size ==> data[j] == data[j - distance]
    ensures CopyMatch(data[..p], distance, size) == data[..p + size]
    decreases size
  {
    if size > 0 {
      assert data[p] == data[p - distance];
      assert data[..p] + [data[..p][p - distance]] == data[..p + 1];
      CopyMatchRebuilds(data, p + 1, distance, size - 1);
    }
  }

  lemma GreedyMatchApplies(data: seq<Byte>, anchor: nat, s: Sequence)
    requires GreedyMatch(data, anchor, s)
    ensures WellFormed(s)
    ensures anchor + |s.literals| + s.size <= |data|
    ensures Apply(data[..anchor], s) == Some(data[..anchor + |s.literals| + s.size])
  {
    hide NoCandidate, AllLiteral, Word32At;
    var p := anchor + |s.literals|;
    assert data[..anchor] + data[anchor..p] == data[..p];
    CopyMatchRebuilds(data, p, s.distance, s.size);
  }

  /** A greedy list of sequences is well formed and expands to the data it covers. */
  lemma {:induction false} GreedyExpands(data: seq<Byte>, ss: seq<Sequence>)
    requires Greedy(data, ss)
    ensures forall s <- ss :: WellFormed(s)
    ensures Covered(ss) <= |data|
    ensures Expand([], ss) == Some(data[..Covered(ss)])
    decreases |ss|
  {
    hide GreedyMatch, Apply, WellFormed, Expand;
    if ss == [] {
      ExpandNothing([]);
      assert data[..0] == [];
    } else {
      var init, s := ss[..|ss| - 1], ss[|ss| - 1];
      GreedyExpands(data, init);
      assert ss == init + [s];
      GreedyMatchApplies(data, Covered(init), s);
      ExpandAppend([], init, s);
      forall x | x in ss ensures WellFormed(x) {
        assert x in init || x == s;
      }
    }
  }

  lemma ExpandNothing(output: seq<Byte>)
    ensures Expand(output, []) == Some(output)
  {}

  lemma {:induction false} GreedyPrefix(data: seq<Byte>, ss: seq<Sequence>, k: nat)
    requires Greedy(data, ss) && k <= |ss|
    ensures Greedy(data, ss[..k])
    decreases |ss|
  {
    hide GreedyMatch, Covered;
    if k == |ss| {
      assert ss[..k] == ss;
    } else {
      var init := ss[..|ss| - 1];
      GreedyPrefix(data, init, k);
      assert init[..k] == ss[..k];
    }
  }

  lemma GreedyAt(data: seq<Byte>, ss: seq<Sequence>, k: nat)
    requires Greedy(data, ss) && k < |ss|
    ensures GreedyMatch(data, Covered(ss[..k]), ss[k])
  {
    hide GreedyMatch;
    GreedyPrefix(data, ss, k + 1);
    assert ss[..k + 1][..k] == ss[..k];
  }

  /** A greedy match begins where a candidate exists. */
  lemma GreedyMatchHasCandidate(data: seq<Byte>, anchor: nat, s: Sequence)
    requires GreedyMatch(data, anchor, s)
    ensures !NoCandidate(data, anchor + |s.literals|)
  {
    hide AllLiteral, Word32At;
    var p := anchor + |s.literals|;
    assert Word32At(data, p - s.distance) == Word32At(data, p);
  }

  lemma GreedyMatchNotEarlier(data: seq<Byte>, anchor: nat, s: Sequence, t: Sequence)
    requires GreedyMatch(data, anchor, s) && GreedyMatch(data, anchor, t)
    ensures |t.literals| <= |s.literals|
  {
    GreedyMatchHasCandidate(data, anchor, s);
    hide NoCandidate, Word32At;
  }

  lemma GreedyMatchNotFarther(data: seq<Byte>, anchor: nat, s: Sequence, t: Sequence)
    requires GreedyMatch(data, anchor, s) && GreedyMatch(data, anchor, t)
    requires |s.literals| == |t.literals|
    ensures s.distance <= t.distance
  {
    hide NoCandidate, AllLiteral, Word32At;
    var p := anchor + |s.literals|;
    assert Word32At(data, p - t.distance) == Word32At(data, p);
  }

  lemma GreedyMatchNotLonger(data: seq<Byte>, anchor: nat, s: Sequence, t: Sequence)
    requires GreedyMatch(data, anchor, s) && GreedyMatch(data, anchor, t)
    requires |s.literals| == |t.literals| && s.distance == t.distance
    ensures s.size <= t.size
  {
    hide NoCandidate, AllLiteral, Word32At;
  }

  /** After the same prefix there is only one greedy sequence. */
  lemma GreedyMatchUnique(data: seq<Byte>, anchor: nat, s: Sequence, t: Sequence)
    requires GreedyMatch(data, anchor, s) && GreedyMatch(data, anchor, t)
    ensures s == t
  {
    GreedyMatchNotEarlier(data, anchor, s, t);
    GreedyMatchNotEarlier(data, anchor, t, s);
    GreedyMatchNotFarther(data, anchor, s, t);
    GreedyMatchNotFarther(data, anchor, t, s);
    GreedyMatchNotLonger(data, anchor, s, t);
    GreedyMatchNotLonger(data, anchor, t, s);
    hide NoCandidate, AllLiteral, Word32At;
  }

  lemma {:induction false} GreedyPrefixesAgree(data: seq<Byte>, ss: seq<Sequence>, ts: seq<Sequence>, k: nat)
    requires Greedy(data, ss) && Greedy(data, ts)
    requires k <= |ss| && k <= |ts|
    ensures ss[..k] == ts[..k]
    decreases k
  {
    hide GreedyMatch;
    if k > 0 {
      GreedyPrefixesAgree(data, ss, ts, k - 1);
      GreedyAt(data, ss, k - 1);
      GreedyAt(data, ts, k - 1);
      GreedyMatchUnique(data, Covered(ss[..k - 1]), ss[k - 1], ts[k - 1]);
      assert ss[..k] == ss[..k - 1] + [ss[k - 1]];
      assert ts[..k] == ts[..k - 1] + [ts[k - 1]];
    }
  }

  lemma NoMatchInTail(data: seq<Byte>, a: Block, t: Sequence)
    requires GreedyBlock(data, a)
    ensures !GreedyMatch(data, Covered(a.sequences), t)
  {
    if GreedyMatch(data, Covered(a.sequences), t) {
      GreedyMatchHasCandidate(data, Covered(a.sequences), t);
    }
    hide NoCandidate, Word32At, Greedy;
  }

  /** A tail without candidates leaves room for no further sequence. */
  lemma NoLongerGreedy(data: seq<Byte>, a: Block, ts: seq<Sequence>)
    requires GreedyBlock(data, a) && Greedy(data, ts)
    requires |a.sequences| <= |ts|
    ensures a.sequences == ts
  {
    hide GreedyMatch, AllLiteral, Greedy;
    var ss := a.sequences;
    var k := |ss|;
    GreedyPrefixesAgree(data, ss, ts, k);
    assert ss[..k] == ss;
    if k < |ts| {
      GreedyAt(data, ts, k);
      NoMatchInTail(data, a, ts[k]);
    }
    assert ts[..k] == ts;
  }

  /** The greedy block of given data is unique, so the compressor's output is fully determined. */
  lemma GreedyBlockUnique(data: seq<Byte>, a: Block, b: Block)
    requires GreedyBlock(data, a) && GreedyBlock(data, b)
    ensures a == b
  {
    if |a.sequences| <= |b.sequences| {
      NoLongerGreedy(data, a, b.sequences);
    } else {
      NoLongerGreedy(data, b, a.sequences);
    }
  }

  /** Compression followed by decompression, for every input. */
  lemma GreedyBlockDecodes(data: seq<Byte>, block: Block)
    requires GreedyBlock(data, block)
    ensures forall s <- block.sequences :: WellFormed(s)
    ensures Decode(BlockBytes(block)) == Some(data)
  {
    hide AllLiteral, Greedy, ParseBlock, Expand, BlockBytes, Covered, WellFormed;
    GreedyExpands(data, block.sequences);
    BlockRoundTrip(block);
    assert data[..Covered(block.sequences)] + block.tail == data;
  }

  // ----- size of the serialised form

  lemma LengthFieldSize(n: nat)
    ensures |LengthField(n)| == if n < 0xF then 0 else (n - 0xF) / 0xFF + 1
  {}

  lemma {:induction false} GreedySize(data: seq<Byte>, ss: seq<Sequence>)
    requires Greedy(data, ss)
    ensures forall s <- ss :: WellFormed(s)
    ensures 0xFF * |SequencesBytes(ss)| <= 0x100 * Covered(ss)
    decreases |ss|
  {
    hide GreedyMatch, Expand;
    GreedyExpands(data, ss);
    if ss != [] {
      var init, s := ss[..|ss| - 1], ss[|ss| - 1];
      assert WellFormed(ss[|ss| - 1]);
      GreedySize(data, init);
      var a, l, m := Covered(init), |s.literals|, s.size - 4;
      LengthFieldSize(l);
      LengthFieldSize(m);
      assert |SequenceBytes(s)| == 3 + l + |LengthField(l)| + |LengthField(m)|;
      assert 0xFF * |LengthField(l)| <= 0xFF + l;
      assert |LengthField(m)| <= m;
      assert Covered(ss) == a + l + m + 4;
    }
  }

  lemma SizeByDivision(size: nat, n: nat)
    requires 0xFF * size <= 0x100 * n + 2 * 0xFF
    ensures size <= n + n / 0xFF + 2
  {}

  /** Expansion is at most two bytes plus one in 255, well within the bound of n + n/255 + 16 usual for LZ4. */
  lemma GreedyBlockSize(data: seq<Byte>, block: Block)
    requires GreedyBlock(data, block)
    ensures forall s <- block.sequences :: WellFormed(s)
    ensures 1 <= |BlockBytes(block)| <= |data| + |data| / 0xFF + 2
  {
    GreedySize(data, block.sequences);
    var a, l := Covered(block.sequences), |block.tail|;
    LengthFieldSize(l);
    assert |TailBytes(block.tail)| == 1 + |LengthField(l)| + l;
    assert 0xFF * |LengthField(l)| <= 0xFF + l;
    SizeByDivision(|BlockBytes(block)|, a + l);
  }

  /** The match of sequence k starts at least 12 bytes before the end. */
  predicate EarlyMatch(data: seq<Byte>, ss: seq<Sequence>, k: nat)
    requires k < |ss|
  {
    Covered(ss[..k]) + |ss[k].literals| + 12 <= |data|
  }

  /**
   The end-of-block conditions of the format: the last five bytes are literals, and so is any input
   below 13 bytes.
   */
  lemma GreedyBlockEnd(data: seq<Byte>, block: Block)
    requires GreedyBlock(data, block)
    ensures |data| < 13 ==> block == Block([], data)
    ensures Min(|data|, 5) <= |block.tail|
    ensures block.tail == data[|data| - |block.tail|..]
    ensures forall k :: 0 <= k < |block.sequences| ==> EarlyMatch(data, block.sequences, k)
  {
    var ss := block.sequences;
    forall k | 0 <= k < |ss|
      ensures EarlyMatch(data, ss, k)
    {
      GreedyAt(data, ss, k);
    }
    if ss != [] {
      assert GreedyMatch(data, Covered(ss[..|ss| - 1]), ss[|ss| - 1]);
    }
  }

  // ----- blocks known in advance

  /** The four bytes at `p`. */
  function Window(data: seq<Byte>, p: nat): (w: seq<Byte>)
    requires p + 4 <= |data|
    ensures |w| == 4
  {
    data[p..p + 4]
  }

  /** A window 65535 bytes back is within reach, one farther back is not. */
  lemma Reach(data: seq<Byte>, p: nat)
    requires p + 4 <= |data|
    ensures p >= 65535 && Window(data, p - 65535) == Window(data, p) ==> !NoCandidate(data, p)
    ensures (forall q: nat :: q < p < q + 65536 ==> Window(data, q) != Window(data, p)) ==> NoCandidate(data, p)
  {
    if p >= 65535 && Window(data, p - 65535) == Window(data, p) {
      assert Word32At(data, p - 65535) == Word32At(data, p);
    }
    if forall q: nat :: q < p < q + 65536 ==> Window(data, q) != Window(data, p) {
      forall q: nat | q < p <= q + MAX_DISTANCE
        ensures Word32At(data, q) != Word32At(data, p)
      {
        assert Window(data, q) != Window(data, p);
        if Word32At(data, q) == Word32At(data, p) {
          Word32AtInjective(data, q, p);
        }
      }
    }
  }

  lemma SameWindow(data: seq<Byte>, q: nat, p: nat)
    requires q + 4 <= |data| && p + 4 <= |data| && Window(data, q) == Window(data, p)
    ensures Word32At(data, q) == Word32At(data, p)
  {
    hide FromLe;
  }

  /** The windows of the first `d` positions all differ. */
  predicate DistinctWindows(data: seq<Byte>, d: nat)
    requires d + 4 <= |data|
  {
    forall q: nat, p: nat :: q < p < d ==> Window(data, q) != Window(data, p)
  }

  lemma DistinctIsLiteral(data: seq<Byte>, d: nat)
    requires d + 4 <= |data| && DistinctWindows(data, d)
    ensures AllLiteral(data, 0, d)
  {
    forall p: nat | p < d && p + 12 <= |data|
      ensures NoCandidate(data, p)
    {
      Reach(data, p);
    }
  }

  lemma NearestIsPeriod(data: seq<Byte>, d: nat, q: nat)
    requires d + 4 <= |data| && DistinctWindows(data, d) && Window(data, d) == Window(data, 0)
    requires 0 < q < d
    ensures Word32At(data, q) != Word32At(data, d)
  {
    assert Window(data, 0) != Window(data, q);
    if Word32At(data, q) == Word32At(data, d) {
      Word32AtInjective(data, q, d);
    }
  }

  /**
   Data of period `d` without a shorter repetition becomes one period of literals, one match `d` back
   that stops five bytes before the end, and those five bytes; the match starts as late as 12 bytes
   before the end.
   */
  lemma PeriodicBlock(data: seq<Byte>, d: nat)
    requires 0 < d <= 65535 && d + 12 <= |data|
    requires forall i :: d <= i < |data| ==> data[i] == data[i - d]
    requires DistinctWindows(data, d)
    ensures GreedyBlock(data, Block([Sequence(data[..d], d, |data| - 5 - d)], data[|data| - 5..]))
  {
    hide NoCandidate, Word32At;
    var s := Sequence(data[..d], d, |data| - 5 - d);
    DistinctIsLiteral(data, d);
    assert Window(data, d) == Window(data, 0);
    SameWindow(data, 0, d);
    forall q: nat | 0 < q < d
      ensures Word32At(data, q) != Word32At(data, d)
    {
      NearestIsPeriod(data, d, q);
    }
    assert GreedyMatch(data, 0, s);
    var ss := [s];
    assert ss[..0] == [] && Covered([]) == 0;
    assert Covered(ss) == |data| - 5;
    assert Greedy(data, ss);
  }

  const SAMPLE: seq<Byte> := [0x61, 0x62, 0x63, 0x64]

  lemma SampleIsPeriodic(data: seq<Byte>)
    requires data == SAMPLE + SAMPLE + SAMPLE + SAMPLE + SAMPLE
    ensures |data| == 20 && data[..4] == SAMPLE && data[15..] == [0x64] + SAMPLE
    ensures DistinctWindows(data, 4)
    ensures forall i :: 4 <= i < 20 ==> data[i] == data[i - 4]
  {
    forall q: nat, p: nat | q < p < 4
      ensures Window(data, q) != Window(data, p)
    {
      assert Window(data, q)[0] == SAMPLE[q] && Window(data, p)[0] == SAMPLE[p];
    }
  }

  /** "abcd" five times, compressed: the bytes on the wire. */
  lemma SampleBlock(data: seq<Byte>, block: Block)
    requires data == SAMPLE + SAMPLE + SAMPLE + SAMPLE + SAMPLE && GreedyBlock(data, block)
    ensures forall s <- block.sequences :: WellFormed(s)
    ensures BlockBytes(block) == [0x47, 0x61, 0x62, 0x63, 0x64, 0x04, 0x00, 0x50, 0x64, 0x61, 0x62, 0x63, 0x64]
  {
    hide GreedyBlock, SequenceBytes, DistinctWindows;
    SampleIsPeriodic(data);
    PeriodicBlock(data, 4);
    var s, tail := Sequence(data[..4], 4, 11), data[15..];
    GreedyBlockUnique(data, block, Block([s], tail));
    ShortSequenceBytes(data[..4], 4, 7);
    assert [s][..0] == [];
    assert SequencesBytes([s]) == SequencesBytes([]) + SequenceBytes(s);
    assert TailBytes(tail) == [0x50] + tail;
  }

  // ----- the compressor itself

  method AppendLength(output: seq<Byte>, length: nat) returns (r: seq<Byte>)
    ensures r == output + LengthBytes(length)
  {
    r := output;
    var rest := length;
    while rest >= 0xFF
      invariant r + LengthBytes(rest) == output + LengthBytes(length)
    {
      r := r + [0xFF];
      rest := rest - 0xFF;
    }
    r := r + [rest];
  }

  /** `positions` holds, for every window seen so far, its last position. */
  ghost predicate Indexed(data: seq<Byte>, positions: map<Word32, nat>, offset: nat) {
    && (forall w <- positions ::
          positions[w] < offset && positions[w] + 12 <= |data| && Word32At(data, positions[w]) == w)
    && (forall q: nat :: q < offset && q + 12 <= |data| ==>
          Word32At(data, q) in positions && q <= positions[Word32At(data, q)])
  }

  /** Enters the window at `p` as the latest occurrence. */
  lemma IndexedNext(data: seq<Byte>, positions: map<Word32, nat>, p: nat)
    requires Indexed(data, positions, p) && p + 12 <= |data|
    ensures Indexed(data, positions[Word32At(data, p) := p], p + 1)
  {}

  lemma IndexedStop(data: seq<Byte>, positions: map<Word32, nat>, p: nat, offset: nat)
    requires Indexed(data, positions, p) && p <= offset
    requires p == offset || p + 12 > |data|
    ensures Indexed(data, positions, offset)
  {}

  lemma WindowBytes(data: seq<Byte>, i: nat, j: nat)
    requires i < j && j + 4 <= |data| && Word32At(data, i) == Word32At(data, j)
    ensures forall k :: j <= k < j + 4 ==> data[k] == data[k - (j - i)]
  {
    Word32AtInjective(data, i, j);
    hide Word32At;
    forall k | j <= k < j + 4
      ensures data[k] == data[k - (j - i)]
    {
      assert data[i..i + 4][k - j] == data[j..j + 4][k - j];
    }
  }

  /** How far the bytes at `offset` repeat those at `candidate`, short of the last five bytes. */
  method ExtendMatch(data: seq<Byte>, candidate: nat, offset: nat) returns (end: nat)
    requires candidate < offset && offset + 12 <= |data|
    requires Word32At(data, candidate) == Word32At(data, offset)
    ensures offset + 4 <= end <= |data| - 5
    ensures forall j :: offset <= j < end ==> data[j] == data[j - (offset - candidate)]
    ensures end + 5 == |data| || data[end] != data[end - (offset - candidate)]
  {
    ghost var d := offset - candidate;
    WindowBytes(data, candidate, offset);
    end := offset + 4;
    while end < |data| - 5 && data[candidate + end - offset] == data[end]
      invariant offset + 4 <= end <= |data| - 5
      invariant forall j :: offset <= j < end ==> data[j] == data[j - d]
    {
      end := end + 1;
    }
  }

  lemma JoinSequence(output: seq<Byte>, s: Sequence)
    requires WellFormed(s)
    ensures output + ([Token(|s.literals|, s.size - 4)] + LengthField(|s.literals|)) + s.literals
            + Le16(s.distance) + LengthField(s.size - 4)
            == output + SequenceBytes(s)
  {
    hide Token, LengthField, Le16;
  }

  /** Appends one sequence: token, literals, distance, match length. */
  method AppendSequence(output: seq<Byte>, s: Sequence) returns (r: seq<Byte>)
    requires WellFormed(s)
    ensures r == output + SequenceBytes(s)
  {
    hide LengthBytes, Le16;
    var literalSize, matchSize := |s.literals|, s.size - 4;
    var token := 16 * Min(literalSize, 0xF) + Min(matchSize, 0xF);
    r := output + [token];
    if literalSize >= 0xF {
      r := AppendLength(r, literalSize - 0xF);
    }
    assert r == output + ([token] + LengthField(literalSize));
    r := r + s.literals;
    r := r + Le16(s.distance);
    if matchSize >= 0xF {
      r := AppendLength(r, matchSize - 0xF);
    }
    assert r == output + ([token] + LengthField(literalSize)) + s.literals + Le16(s.distance) + LengthField(matchSize);
    JoinSequence(output, s);
  }

  lemma GreedyAppend(data: seq<Byte>, ss: seq<Sequence>, s: Sequence)
    requires Greedy(data, ss) && GreedyMatch(data, Covered(ss), s)
    requires forall t <- ss :: WellFormed(t)
    ensures Greedy(data, ss + [s])
    ensures Covered(ss + [s]) == Covered(ss) + |s.literals| + s.size
    ensures WellFormed(s)
    ensures SequencesBytes(ss + [s]) == SequencesBytes(ss) + SequenceBytes(s)
  {
    GreedyMatchApplies(data, Covered(ss), s);
    hide GreedyMatch, SequenceBytes;
    assert (ss + [s])[..|ss|] == ss;
  }

  /** A window that is not indexed, or only too far back, leaves the position a literal. */
  lemma SkipIsLiteral(data: seq<Byte>, positions: map<Word32, nat>, anchor: nat, p: nat)
    requires p + 12 <= |data| && Indexed(data, positions, p)
    requires var w := Word32At(data, p); w in positions ==> p - positions[w] > MAX_DISTANCE
    requires AllLiteral(data, anchor, p)
    ensures AllLiteral(data, anchor, p + 1)
  {
    hide Word32At;
    assert NoCandidate(data, p);
  }

  /** An indexed window within reach and its longest extension make a greedy match. */
  lemma FoundIsGreedy(data: seq<Byte>, positions: map<Word32, nat>, anchor: nat, p: nat, end: nat)
    requires anchor <= p && p + 12 <= |data| && Indexed(data, positions, p)
    requires Word32At(data, p) in positions
    requires AllLiteral(data, anchor, p)
    requires var d := p - positions[Word32At(data, p)];
             && d <= MAX_DISTANCE
             && p + 4 <= end <= |data| - 5
             && (forall j :: p <= j < end ==> data[j] == data[j - d])
             && (end + 5 == |data| || data[end] != data[end - d])
    ensures GreedyMatch(data, anchor, Sequence(data[anchor..p], p - positions[Word32At(data, p)], end - p))
  {
    hide Word32At, AllLiteral;
    var c := positions[Word32At(data, p)];
    forall q: nat | c < q < p
      ensures Word32At(data, q) != Word32At(data, p)
    {
    }
  }

  /** Appends the literal-only tail. */
  method AppendTail(output: seq<Byte>, tail: seq<Byte>) returns (r: seq<Byte>)
    ensures r == output + TailBytes(tail)
  {
    hide LengthBytes;
    var literalSize := |tail|;
    r := output + [16 * Min(literalSize, 0xF)];
    if literalSize >= 0xF {
      r := AppendLength(r, literalSize - 0xF);
    }
    r := r + tail;
    assert r == output + ([Token(literalSize, 0)] + LengthField(literalSize) + tail);
  }

  lemma NothingPending(data: seq<Byte>, anchor: nat)
    ensures AllLiteral(data, anchor, anchor)
  {}

  lemma IndexedAt(data: seq<Byte>, positions: map<Word32, nat>, offset: nat, window: Word32)
    requires Indexed(data, positions, offset) && window in positions
    ensures positions[window] < offset && positions[window] + 12 <= |data|
      && Word32At(data, positions[window]) == window
  {
    hide Word32At;
  }

  /** Indexes the windows inside a match, as far as the search goes. */
  method EnterWindows(data: seq<Byte>, indexed: map<Word32, nat>, from: nat, end: nat)
    returns (positions: map<Word32, nat>)
    requires Indexed(data, indexed, from) && from <= end
    ensures Indexed(data, positions, end)
  {
    hide Indexed, Word32At;
    positions := indexed;
    var position := from;
    while position < Min(end, |data| - 11)
      invariant from <= position <= end
      invariant Indexed(data, positions, position)
    {
      IndexedNext(data, positions, position);
      positions := positions[Word32At(data, position) := position];
      position := position + 1;
    }
    IndexedStop(data, positions, position, end);
  }

  /** What holds each time the search looks at a new position. */
  ghost predicate Searching(data: seq<Byte>, positions: map<Word32, nat>, ss: seq<Sequence>,
                            output: seq<Byte>, anchor: nat, offset: nat) {
    && anchor <= offset <= |data|
    && Indexed(data, positions, offset)
    && Greedy(data, ss) && Covered(ss) == anchor
    && (forall s <- ss :: WellFormed(s))
    && output == SequencesBytes(ss)
    && AllLiteral(data, anchor, offset)
  }

  lemma SearchStarts(data: seq<Byte>)
    ensures Searching(data, map[], [], [], 0, 0)
  {}

  lemma SearchSkips(data: seq<Byte>, positions: map<Word32, nat>, ss: seq<Sequence>,
                    output: seq<Byte>, anchor: nat, p: nat)
    requires Searching(data, positions, ss, output, anchor, p) && p + 12 <= |data|
    requires var w := Word32At(data, p); w in positions ==> p - positions[w] > MAX_DISTANCE
    ensures Searching(data, positions[Word32At(data, p) := p], ss, output, anchor, p + 1)
  {
    hide Indexed, Greedy, Covered, SequencesBytes, AllLiteral, Word32At;
    IndexedNext(data, positions, p);
    SkipIsLiteral(data, positions, anchor, p);
  }

  lemma SearchIndexed(data: seq<Byte>, positions: map<Word32, nat>, ss: seq<Sequence>,
                      output: seq<Byte>, anchor: nat, p: nat)
    requires Searching(data, positions, ss, output, anchor, p) && p + 12 <= |data|
    ensures Indexed(data, positions, p)
    ensures Indexed(data, positions[Word32At(data, p) := p], p + 1)
    ensures AllLiteral(data, anchor, p)
    ensures var w := Word32At(data, p);
            w in positions ==> positions[w] < p && positions[w] + 12 <= |data| && Word32At(data, positions[w]) == w
  {
    hide Indexed, Greedy, Covered, SequencesBytes, AllLiteral, Word32At;
    IndexedNext(data, positions, p);
    if Word32At(data, p) in positions {
      IndexedAt(data, positions, p, Word32At(data, p));
    }
  }

  lemma SearchMatches(data: seq<Byte>, positions: map<Word32, nat>, ss: seq<Sequence>,
                      output: seq<Byte>, anchor: nat, p: nat, s: Sequence, next: map<Word32, nat>)
    requires Searching(data, positions, ss, output, anchor, p) && p + 12 <= |data|
    requires GreedyMatch(data, anchor, s) && anchor + |s.literals| == p
    requires Indexed(data, next, p + s.size)
    ensures WellFormed(s)
    ensures Searching(data, next, ss + [s], output + SequenceBytes(s), p + s.size, p + s.size)
  {
    hide Apply, Indexed, Greedy, GreedyMatch, Covered, SequencesBytes, SequenceBytes, AllLiteral, WellFormed;
    GreedyMatchApplies(data, anchor, s);
    GreedyAppend(data, ss, s);
    NothingPending(data, p + s.size);
  }

  /** Once no position is left to search, the rest of the data is the tail. */
  lemma Finish(data: seq<Byte>, positions: map<Word32, nat>, block: Block, output: seq<Byte>, anchor: nat, offset: nat)
    requires Searching(data, positions, block.sequences, output, anchor, offset)
    requires offset + 12 > |data| && block.tail == data[anchor..]
    ensures GreedyBlock(data, block)
    ensures forall s <- block.sequences :: WellFormed(s)
    ensures BlockBytes(block) == output + TailBytes(block.tail)
    ensures Decode(BlockBytes(block)) == Some(data)
    ensures 1 <= |BlockBytes(block)| <= |data| + |data| / 0xFF + 2
  {
    hide Greedy, NoCandidate, Covered, Decode, SequencesBytes, TailBytes, WellFormed;
    assert AllLiteral(data, Covered(block.sequences), |data|);
    GreedyBlockDecodes(data, block);
    GreedyBlockSize(data, block);
  }

  /** The output is the serialised greedy block, and nothing else. */
  method CompressBlock(data: seq<Byte>) returns (output: seq<Byte>, ghost block: Block)
    ensures GreedyBlock(data, block)
    ensures forall s <- block.sequences :: WellFormed(s)
    ensures output == BlockBytes(block)
    ensures Decode(output) == Some(data)
    ensures 1 <= |output| <= |data| + |data| / 0xFF + 2
  {
    output := [];
    var positions: map<Word32, nat> := map[];
    var anchor, offset := 0, 0;
    ghost var ss: seq<Sequence> := [];
    hide *;
    SearchStarts(data);

    while offset <= |data| - 12
      invariant anchor <= offset <= |data|
      invariant Searching(data, positions, ss, output, anchor, offset)
      decreases |data| - offset
    {
      var window := Word32At(data, offset);
      ghost var before := positions;
      var candidate := if window in positions then Some(positions[window]) else None;
      positions := positions[window := offset];
      if candidate == None || offset - candidate.value > MAX_DISTANCE {
        SearchSkips(data, before, ss, output, anchor, offset);
        offset := offset + 1;
        continue;
      }
      SearchIndexed(data, before, ss, output, anchor, offset);
      var end := ExtendMatch(data, candidate.value, offset);
      var s := Sequence(data[anchor..offset], offset - candidate.value, end - offset);
      FoundIsGreedy(data, before, anchor, offset, end);
      positions := EnterWindows(data, positions, offset + 1, end);
      SearchMatches(data, before, ss, output, anchor, offset, s, positions);
      output := AppendSequence(output, s);
      ss := ss + [s];
      offset := end;
      anchor := offset;
    }

    block := Block(ss, data[anchor..]);
    Finish(data, positions, block, output, anchor, offset);
    output := AppendTail(output, data[anchor..]);
  }
}
