/**
 CRC-32. `Checksum` is the table-driven definition of section 8 of RFC 1952, which the host
 takes from zlib; `Update` is the bit loop of preloader/src/crc.c.
 */
module Crc32 {
  import opened Bytes
  import opened Memory

  const POLYNOMIAL: bv32 := 0xEDB88320
  const INITIAL: bv32 := 0xFFFFFFFF

  // ----- register operations, named so that proofs about words need not look at bits

  function Xor(x: bv32, y: bv32): bv32 {
    x ^ y
  }

  function LowByte(x: bv32): bv32 {
    x & 0xFF
  }

  function DropByte(x: bv32): bv32 {
    x >> 8
  }

  function Not(x: bv32): bv32 {
    x ^ 0xFFFFFFFF
  }

  predicate Bit(b: Byte, weight: nat)
    requires weight > 0
  {
    b / weight % 2 == 1
  }

  function FromBits(b7: bool, b6: bool, b5: bool, b4: bool, b3: bool, b2: bool, b1: bool, b0: bool): (v: bv32)
    ensures v < 0x100
  {
    (if b7 then 0x80 else 0) | (if b6 then 0x40 else 0) | (if b5 then 0x20 else 0) | (if b4 then 0x10 else 0)
    | (if b3 then 8 else 0) | (if b2 then 4 else 0) | (if b1 then 2 else 0) | (if b0 then 1 else 0)
  }

  /** A byte as a register value. */
  function Bits(b: Byte): (v: bv32)
    ensures v < 0x100
  {
    FromBits(Bit(b, 128), Bit(b, 64), Bit(b, 32), Bit(b, 16), Bit(b, 8), Bit(b, 4), Bit(b, 2), Bit(b, 1))
  }

  function Step(c: bv32): bv32 {
    if c & 1 != 0 then (c >> 1) ^ POLYNOMIAL else c >> 1
  }

  function Steps(c: bv32, n: nat): bv32
    decreases n
  {
    if n == 0 then c else Steps(Step(c), n - 1)
  }

  function UpdateByte(c: bv32, b: Byte): bv32 {
    Steps(Xor(c, Bits(b)), 8)
  }

  function Update(c: bv32, data: seq<Byte>): bv32 {
    if data == [] then c else UpdateByte(Update(c, data[..|data| - 1]), data[|data| - 1])
  }

  // ----- the reference: RFC 1952, section 8

  function TableEntry(n: bv32): bv32
    requires n < 0x100
  {
    Steps(n, 8)
  }

  function TableByte(c: bv32, b: Byte): bv32 {
    Xor(TableEntry(LowByte(Xor(c, Bits(b)))), DropByte(c))
  }

  function TableUpdate(c: bv32, data: seq<Byte>): bv32 {
    if data == [] then c else TableByte(TableUpdate(c, data[..|data| - 1]), data[|data| - 1])
  }

  function Checksum(data: seq<Byte>): bv32 {
    Not(TableUpdate(INITIAL, data))
  }

  // ----- the register is linear over GF(2)

  function Feedback(c: bv32): bv32 {
    if c & 1 != 0 then POLYNOMIAL else 0
  }

  function Half(c: bv32): bv32 {
    c >> 1
  }

  predicate LowBit(c: bv32) {
    c & 1 != 0
  }

  lemma StepAsFeedback(c: bv32)
    ensures Step(c) == Xor(Half(c), Feedback(c))
  {
    if c & 1 == 0 {
      assert (c >> 1) ^ 0 == c >> 1;
    }
  }

  lemma LowBitLinear(x: bv32, y: bv32)
    ensures LowBit(Xor(x, y)) == (LowBit(x) != LowBit(y))
  {
    assert (x ^ y) & 1 == (x & 1) ^ (y & 1);
    LowBitValue(x);
    LowBitValue(y);
  }

  lemma LowBitValue(x: bv32)
    ensures x & 1 == 0 || x & 1 == 1
  {}

  lemma FeedbackByLowBit(c: bv32)
    ensures Feedback(c) == if LowBit(c) then POLYNOMIAL else 0
  {}

  lemma PolynomialXors()
    ensures Xor(POLYNOMIAL, POLYNOMIAL) == 0 && Xor(0, 0) == 0
    ensures Xor(POLYNOMIAL, 0) == POLYNOMIAL && Xor(0, POLYNOMIAL) == POLYNOMIAL
  {}

  lemma HalfLinear(x: bv32, y: bv32)
    ensures Half(Xor(x, y)) == Xor(Half(x), Half(y))
  {}

  lemma XorAssociates(a: bv32, b: bv32, c: bv32)
    ensures Xor(Xor(a, b), c) == Xor(a, Xor(b, c))
  {}

  lemma XorCommutes(a: bv32, b: bv32)
    ensures Xor(a, b) == Xor(b, a)
  {}

  lemma XorZero(a: bv32)
    ensures Xor(a, 0) == a
  {}

  lemma StepLinear(x: bv32, y: bv32)
    ensures Step(Xor(x, y)) == Xor(Step(x), Step(y))
  {
    hide *;
    StepAsFeedback(x);
    StepAsFeedback(y);
    StepAsFeedback(Xor(x, y));
    HalfLinear(x, y);
    var a, b, f, g := Half(x), Half(y), Feedback(x), Feedback(y);
    assert Feedback(Xor(x, y)) == Xor(f, g) by {
      FeedbackByLowBit(x);
      FeedbackByLowBit(y);
      FeedbackByLowBit(Xor(x, y));
      LowBitLinear(x, y);
      PolynomialXors();
    }
    assert Xor(Xor(a, b), Xor(f, g)) == Xor(Xor(a, f), Xor(b, g)) by {
      XorAssociates(a, b, Xor(f, g));
      XorAssociates(b, f, g);
      XorCommutes(b, f);
      XorAssociates(f, b, g);
      XorAssociates(a, f, Xor(b, g));
    }
  }

  lemma {:induction false} StepsLinear(x: bv32, y: bv32, n: nat)
    ensures Steps(Xor(x, y), n) == Xor(Steps(x, n), Steps(y, n))
    decreases n
  {
    hide Step, Xor;
    if n > 0 {
      StepLinear(x, y);
      StepsLinear(Step(x), Step(y), n - 1);
    }
  }

  lemma {:induction false} StepsAdd(c: bv32, m: nat, n: nat)
    ensures Steps(c, m + n) == Steps(Steps(c, m), n)
    decreases m
  {
    hide Step;
    if m > 0 {
      StepsAdd(Step(c), m - 1, n);
    }
  }

  // ----- eight steps merely shift a register whose low byte is clear

  function Shift(x: bv32, n: nat): bv32
    requires n <= 8
  {
    if n == 0 then x else Half(Shift(x, n - 1))
  }

  lemma ShiftsCompose(x: bv32)
    ensures Half(x) == x >> 1
    ensures Half(x >> 1) == x >> 2 && Half(x >> 2) == x >> 3 && Half(x >> 3) == x >> 4
    ensures Half(x >> 4) == x >> 5 && Half(x >> 5) == x >> 6 && Half(x >> 6) == x >> 7
    ensures Half(x >> 7) == x >> 8
  {}

  lemma ShiftClosed(x: bv32)
    ensures Shift(x, 1) == x >> 1 && Shift(x, 2) == x >> 2 && Shift(x, 3) == x >> 3 && Shift(x, 4) == x >> 4
    ensures Shift(x, 5) == x >> 5 && Shift(x, 6) == x >> 6 && Shift(x, 7) == x >> 7 && Shift(x, 8) == x >> 8
  {
    hide Half;
    ShiftsCompose(x);
    assert Shift(x, 1) == Half(Shift(x, 0));
    assert Shift(x, 2) == Half(Shift(x, 1));
    assert Shift(x, 3) == Half(Shift(x, 2));
    assert Shift(x, 4) == Half(Shift(x, 3));
    assert Shift(x, 5) == Half(Shift(x, 4));
    assert Shift(x, 6) == Half(Shift(x, 5));
    assert Shift(x, 7) == Half(Shift(x, 6));
    assert Shift(x, 8) == Half(Shift(x, 7));
  }

  predicate Even(x: bv32) {
    x & 1 == 0
  }

  lemma LowByteEven(x: bv32)
    requires LowByte(x) == 0
    ensures Even(x) && Even(x >> 1) && Even(x >> 2) && Even(x >> 3)
    ensures Even(x >> 4) && Even(x >> 5) && Even(x >> 6) && Even(x >> 7)
  {}

  lemma ShiftEven(x: bv32, n: nat)
    requires n < 8 && LowByte(x) == 0
    ensures Even(Shift(x, n))
  {
    hide Even, LowByte, Half, Shift;
    ShiftClosed(x);
    ShiftNone(x);
    LowByteEven(x);
    assert n == 0 || n == 1 || n == 2 || n == 3 || n == 4 || n == 5 || n == 6 || n == 7;
  }

  lemma ShiftNone(x: bv32)
    ensures Shift(x, 0) == x
  {}

  lemma StepOfEven(x: bv32)
    requires Even(x)
    ensures Step(x) == Half(x)
  {}

  lemma {:induction false} StepsShift(x: bv32, n: nat)
    requires n <= 8 && LowByte(x) == 0
    ensures Steps(Shift(x, n), 8 - n) == Shift(x, 8)
    decreases 8 - n
  {
    hide Step, Half, Even, LowByte;
    if n < 8 {
      ShiftEven(x, n);
      StepOfEven(Shift(x, n));
      assert Shift(x, n + 1) == Half(Shift(x, n));
      StepsShift(x, n + 1);
    }
  }

  lemma ShiftEnds(x: bv32)
    ensures Shift(x, 0) == x && Shift(x, 8) == DropByte(x)
  {
    ShiftClosed(x);
    hide Half;
  }

  lemma EightStepsShift(x: bv32)
    requires LowByte(x) == 0
    ensures Steps(x, 8) == DropByte(x)
  {
    hide *;
    StepsShift(x, 0);
    ShiftEnds(x);
  }

  // ----- the bit loop refines the table

  function HighBytes(x: bv32): bv32 {
    x & 0xFFFFFF00
  }

  lemma SplitLowByte(x: bv32)
    ensures Xor(LowByte(x), HighBytes(x)) == x && LowByte(HighBytes(x)) == 0
  {}

  lemma DropXoredByte(c: bv32, v: bv32)
    requires v < 0x100
    ensures DropByte(HighBytes(Xor(c, v))) == DropByte(c)
  {}

  lemma UpdateByteIsTable(c: bv32, b: Byte)
    ensures UpdateByte(c, b) == TableByte(c, b)
  {
    hide Xor, LowByte, DropByte, HighBytes, Bits, Steps;
    var x := Xor(c, Bits(b));
    SplitLowByte(x);
    EightStepsShift(HighBytes(x));
    StepsLinear(LowByte(x), HighBytes(x), 8);
    DropXoredByte(c, Bits(b));
  }

  /** The bit loop refines the table-driven definition on every message. */
  lemma {:induction false} UpdateIsTable(c: bv32, data: seq<Byte>)
    ensures Update(c, data) == TableUpdate(c, data)
    decreases |data|
  {
    hide UpdateByte, TableByte;
    if data != [] {
      UpdateIsTable(c, data[..|data| - 1]);
      UpdateByteIsTable(Update(c, data[..|data| - 1]), data[|data| - 1]);
    }
  }

  // ----- batches

  /** Feeding a message in two batches gives the register of the whole message. */
  lemma {:induction false} UpdateConcat(c: bv32, a: seq<Byte>, b: seq<Byte>)
    ensures Update(c, a + b) == Update(Update(c, a), b)
    decreases |b|
  {
    hide UpdateByte;
    if b == [] {
      assert a + b == a;
    } else {
      var init := b[..|b| - 1];
      UpdateConcat(c, a, init);
      assert (a + b)[..|a + b| - 1] == a + init;
    }
  }

  // ----- error detection

  lemma StepInjective(x: bv32, y: bv32)
    requires Step(x) == Step(y)
    ensures x == y
  {}

  lemma {:induction false} StepsInjective(x: bv32, y: bv32, n: nat)
    requires Steps(x, n) == Steps(y, n)
    ensures x == y
    decreases n
  {
    hide Step;
    if n > 0 {
      StepsInjective(Step(x), Step(y), n - 1);
      StepInjective(x, y);
    }
  }

  lemma XorCancel(u: bv32, v: bv32, w: bv32)
    requires Xor(u, w) == Xor(v, w)
    ensures u == v
  {}

  lemma UpdateByteInjective(x: bv32, y: bv32, b: Byte)
    requires UpdateByte(x, b) == UpdateByte(y, b)
    ensures x == y
  {
    hide Steps, Xor, Bits;
    StepsInjective(Xor(x, Bits(b)), Xor(y, Bits(b)), 8);
    XorCancel(x, y, Bits(b));
  }

  /** Equal suffixes keep different registers different. */
  lemma {:induction false} UpdateInjective(x: bv32, y: bv32, data: seq<Byte>)
    requires Update(x, data) == Update(y, data)
    ensures x == y
    decreases |data|
  {
    hide UpdateByte;
    if data != [] {
      var init, b := data[..|data| - 1], data[|data| - 1];
      UpdateByteInjective(Update(x, init), Update(y, init), b);
      UpdateInjective(x, y, init);
    }
  }

  /** The bits of a byte that enters `n` bytes later, seen from the register now. */
  function Lift(v: bv32, n: nat): bv32
    requires n <= 3
  {
    match n
    case 0 => v
    case 1 => v << 8
    case 2 => v << 16
    case _ => v << 24
  }

  lemma LiftEnds(v: bv32, n: nat)
    requires v < 0x100 && 0 < n <= 3
    ensures LowByte(Lift(v, n)) == 0 && DropByte(Lift(v, n)) == Lift(v, n - 1)
  {
    assert n == 1 || n == 2 || n == 3;
  }

  lemma {:induction false} StepsLift(v: bv32, n: nat)
    requires v < 0x100 && n <= 3
    ensures Steps(Lift(v, n), 8 * n) == Lift(v, 0)
    decreases n
  {
    hide Step, Lift, LowByte, DropByte;
    if n > 0 {
      LiftEnds(v, n);
      EightStepsShift(Lift(v, n));
      StepsAdd(Lift(v, n), 8, 8 * (n - 1));
      StepsLift(v, n - 1);
    }
  }

  /** Up to four bytes as one register value, first byte lowest. */
  function Window(w: seq<Byte>): bv32
    requires |w| <= 4
  {
    if w == [] then 0
    else Xor(Window(w[..|w| - 1]), Lift(Bits(w[|w| - 1]), |w| - 1))
  }

  lemma LiftNone(v: bv32)
    ensures Lift(v, 0) == v
  {}

  /** At most four bytes act on the register as if xored into it all at once. */
  lemma {:induction false} UpdateWindow(c: bv32, w: seq<Byte>)
    requires |w| <= 4
    ensures Update(c, w) == Steps(Xor(c, Window(w)), 8 * |w|)
    decreases |w|
  {
    hide Step, Xor, Lift, Bits;
    if w == [] {
      XorZero(c);
    } else {
      var init, v, n := w[..|w| - 1], Bits(w[|w| - 1]), |w| - 1;
      UpdateWindow(c, init);
      StepsLift(v, n);
      LiftNone(v);
      StepsLinear(Xor(c, Window(init)), Lift(v, n), 8 * n);
      XorAssociates(c, Window(init), Lift(v, n));
      StepsAdd(Xor(c, Window(w)), 8 * n, 8);
    }
  }

  function Pack(a: bv32, b: bv32, c: bv32, d: bv32): bv32 {
    Xor(Xor(Xor(Xor(0, Lift(a, 0)), Lift(b, 1)), Lift(c, 2)), Lift(d, 3))
  }

  lemma PackBytes(a: bv32, b: bv32, c: bv32, d: bv32)
    requires a < 0x100 && b < 0x100 && c < 0x100 && d < 0x100
    ensures Pack(a, b, c, d) & 0xFF == a && (Pack(a, b, c, d) >> 8) & 0xFF == b
    ensures (Pack(a, b, c, d) >> 16) & 0xFF == c && Pack(a, b, c, d) >> 24 == d
  {}

  function BitsAt(w: seq<Byte>, i: nat): (v: bv32)
    ensures v < 0x100
  {
    if i < |w| then Bits(w[i]) else 0
  }

  lemma LiftZero(n: nat)
    requires n <= 3
    ensures Lift(0, n) == 0
  {}

  lemma WindowNothing()
    ensures Window([]) == 0
  {}

  lemma WindowIsPack(w: seq<Byte>)
    requires |w| <= 4
    ensures Window(w) == Pack(BitsAt(w, 0), BitsAt(w, 1), BitsAt(w, 2), BitsAt(w, 3))
  {
    hide Xor, Lift, Bits, Window, BitsAt;
    WindowNothing();
    WindowGrows(w, 0);
    WindowGrows(w, 1);
    WindowGrows(w, 2);
    WindowGrows(w, 3);
    assert w[..0] == [];
    assert w[..|w|] == w;
  }

  lemma WindowGrows(w: seq<Byte>, n: nat)
    requires |w| <= 4 && n < 4
    ensures Window(w[..Min(n + 1, |w|)]) == Xor(Window(w[..Min(n, |w|)]), Lift(BitsAt(w, n), n))
  {
    hide Xor, Lift, Bits;
    if n < |w| {
      assert w[..n + 1][..n] == w[..n];
    } else {
      LiftZero(n);
      XorZero(Window(w));
      assert w[..|w|] == w;
    }
  }

  lemma FromBitsInjective(b7: bool, b6: bool, b5: bool, b4: bool, b3: bool, b2: bool, b1: bool, b0: bool,
                          c7: bool, c6: bool, c5: bool, c4: bool, c3: bool, c2: bool, c1: bool, c0: bool)
    requires FromBits(b7, b6, b5, b4, b3, b2, b1, b0) == FromBits(c7, c6, c5, c4, c3, c2, c1, c0)
    ensures b7 == c7 && b6 == c6 && b5 == c5 && b4 == c4 && b3 == c3 && b2 == c2 && b1 == c1 && b0 == c0
  {}

  lemma SameBitsSameByte(a: Byte, b: Byte)
    requires Bit(a, 128) == Bit(b, 128) && Bit(a, 64) == Bit(b, 64) && Bit(a, 32) == Bit(b, 32)
      && Bit(a, 16) == Bit(b, 16)
    requires Bit(a, 8) == Bit(b, 8) && Bit(a, 4) == Bit(b, 4) && Bit(a, 2) == Bit(b, 2) && Bit(a, 1) == Bit(b, 1)
    ensures a == b
  {
    ByteFromBits(a);
    ByteFromBits(b);
    hide Bit;
  }

  function Weighed(b: Byte, weight: nat): nat
    requires weight > 0
  {
    if Bit(b, weight) then 1 else 0
  }

  lemma ByteFromBits(b: Byte)
    ensures b == 128 * Weighed(b, 128) + 64 * Weighed(b, 64) + 32 * Weighed(b, 32) + 16 * Weighed(b, 16)
                 + 8 * Weighed(b, 8) + 4 * Weighed(b, 4) + 2 * Weighed(b, 2) + Weighed(b, 1)
  {
    assert b / 64 == 2 * (b / 128) + Weighed(b, 64);
    assert b / 32 == 2 * (b / 64) + Weighed(b, 32);
    assert b / 16 == 2 * (b / 32) + Weighed(b, 16);
    assert b / 8 == 2 * (b / 16) + Weighed(b, 8);
    assert b / 4 == 2 * (b / 8) + Weighed(b, 4);
    assert b / 2 == 2 * (b / 4) + Weighed(b, 2);
    assert b / 1 == b && b == 2 * (b / 2) + Weighed(b, 1);
  }

  lemma BitsInjective(a: Byte, b: Byte)
    requires Bits(a) == Bits(b)
    ensures a == b
  {
    hide Bit, FromBits;
    FromBitsInjective(
      Bit(a, 128), Bit(a, 64), Bit(a, 32), Bit(a, 16), Bit(a, 8), Bit(a, 4), Bit(a, 2), Bit(a, 1),
      Bit(b, 128), Bit(b, 64), Bit(b, 32), Bit(b, 16), Bit(b, 8), Bit(b, 4), Bit(b, 2), Bit(b, 1));
    SameBitsSameByte(a, b);
  }

  lemma BitsWithin(w: seq<Byte>, i: nat)
    requires i < |w|
    ensures BitsAt(w, i) == Bits(w[i])
  {}

  /** A window value determines its bytes. */
  lemma WindowInjective(w: seq<Byte>, z: seq<Byte>)
    requires |w| == |z| <= 4
    requires Window(w) == Window(z)
    ensures w == z
  {
    hide Bits, Pack, Window, BitsAt;
    WindowIsPack(w);
    WindowIsPack(z);
    PackBytes(BitsAt(w, 0), BitsAt(w, 1), BitsAt(w, 2), BitsAt(w, 3));
    PackBytes(BitsAt(z, 0), BitsAt(z, 1), BitsAt(z, 2), BitsAt(z, 3));
    forall i | 0 <= i < |w|
      ensures w[i] == z[i]
    {
      assert BitsAt(w, i) == BitsAt(z, i) by {
        assert i == 0 || i == 1 || i == 2 || i == 3;
      }
      BitsWithin(w, i);
      BitsWithin(z, i);
      BitsInjective(w[i], z[i]);
    }
  }

  lemma NotInjective(x: bv32, y: bv32)
    requires Not(x) == Not(y)
    ensures x == y
  {}

  /** Two messages of equal length that differ only within four consecutive bytes have different checksums. */
  lemma BurstDetected(before: seq<Byte>, w: seq<Byte>, z: seq<Byte>, after: seq<Byte>)
    requires |w| == |z| <= 4
    requires Checksum(before + w + after) == Checksum(before + z + after)
    ensures w == z
  {
    hide Step, Steps, Xor, Not, Window, TableUpdate, Update;
    UpdateIsTable(INITIAL, before + w + after);
    UpdateIsTable(INITIAL, before + z + after);
    NotInjective(Update(INITIAL, before + w + after), Update(INITIAL, before + z + after));
    UpdateConcat(INITIAL, before + w, after);
    UpdateConcat(INITIAL, before + z, after);
    UpdateInjective(Update(INITIAL, before + w), Update(INITIAL, before + z), after);
    var c := Update(INITIAL, before);
    UpdateConcat(INITIAL, before, w);
    UpdateConcat(INITIAL, before, z);
    UpdateWindow(c, w);
    UpdateWindow(c, z);
    StepsInjective(Xor(c, Window(w)), Xor(c, Window(z)), 8 * |w|);
    XorCommutes(c, Window(w));
    XorCommutes(c, Window(z));
    XorCancel(Window(w), Window(z), c);
    WindowInjective(w, z);
  }

  /** The checksum as the number that travels on the wire. */
  function ChecksumWord(data: seq<Byte>): Word32 {
    Checksum(data) as int
  }

  lemma NumberAndBack(a: bv32)
    ensures (a as int) as bv32 == a
  {}

  lemma SameNumberSameBits(a: bv32, b: bv32)
    requires a as int == b as int
    ensures a == b
  {
    NumberAndBack(a);
    NumberAndBack(b);
  }

  /** A window of at most four corrupted bytes always shows in the transmitted checksum. */
  lemma CorruptionDetected(before: seq<Byte>, w: seq<Byte>, z: seq<Byte>, after: seq<Byte>)
    requires |w| == |z| <= 4 && w != z
    ensures ChecksumWord(before + w + after) != ChecksumWord(before + z + after)
  {
    hide Checksum;
    if ChecksumWord(before + w + after) == ChecksumWord(before + z + after) {
      SameNumberSameBits(Checksum(before + w + after), Checksum(before + z + after));
      BurstDetected(before, w, z, after);
    }
  }

  /** What the device compares the received word with. */
  lemma ComplementIsChecksum(data: seq<Byte>)
    ensures Not(Update(INITIAL, data)) == Checksum(data)
  {
    UpdateIsTable(INITIAL, data);
    hide Update, TableUpdate, Not;
  }

  // ----- the device's loop

  lemma RangeGrows(m: seq<Byte>, a: Word32, n: nat)
    requires |m| == WORD && n + 1 < WORD
    ensures Range(m, a, n + 1)[..n] == Range(m, a, n)
    ensures Range(m, a, n + 1)[n] == m[Addr(a, n)]
  {}

  lemma UpdateNothing(c: bv32, m: seq<Byte>, a: Word32)
    requires |m| == WORD
    ensures Update(c, Range(m, a, 0)) == c
  {}

  /** preloader/src/crc.c: crc32_update over `size` bytes of memory. */
  method UpdateRange(initial: bv32, memory: array<Byte>, address: Word32, size: Word32) returns (crc: bv32)
    requires memory.Length == WORD
    ensures crc == Update(initial, Range(memory[..], address, size))
  {
    hide Bits, Step;
    ghost var m := memory[..];
    crc := initial;
    var i := 0;
    while i < size
      invariant i <= size
      invariant crc == Update(initial, Range(m, address, i))
    {
      RangeGrows(m, address, i);
      crc := UpdateBits(crc, memory[Addr(address, i)]);
      i := i + 1;
    }
  }

  /** The inner loop: eight shifts, each feeding the low bit back through the polynomial. */
  method UpdateBits(before: bv32, value: Byte) returns (crc: bv32)
    ensures crc == UpdateByte(before, value)
  {
    hide Bits, Xor;
    crc := Xor(before, Bits(value));
    ghost var start := crc;
    var bit := 0;
    while bit < 8
      invariant 0 <= bit <= 8
      invariant Steps(crc, 8 - bit) == Steps(start, 8)
    {
      ghost var previous := crc;
      var lowBit := crc & 1;
      crc := crc >> 1;
      if lowBit != 0 {
        crc := crc ^ POLYNOMIAL;
      }
      assert crc == Step(previous);
      bit := bit + 1;
    }
  }
}
