/**
 What CRC-32 is, independently of how it is computed: the complement of the remainder of a
 message polynomial by x^32 + x^26 + x^23 + x^22 + x^16 + x^12 + x^11 + x^10 + x^8 + x^7 + x^5 +
 x^4 + x^2 + x + 1 over GF(2). Bytes enter least significant bit first, and the leading 32
 coefficients are flipped beforehand.
 */
module CrcDivision {
  import opened Bytes
  import opened Crc32

  // ----- polynomials over GF(2): coefficients, highest first

  function Coef(p: seq<bool>, k: int): bool {
    0 <= k < |p| && p[|p| - 1 - k]
  }

  /** Over GF(2), `!=` is addition. */
  function Sum(a: bool, b: bool, c: bool, d: bool, e: bool): bool {
    (((a != b) != c) != d) != e
  }

  /** Coefficient k of q times the generator polynomial. */
  function ProductCoef(q: seq<bool>, k: int): bool {
    (Sum(Coef(q, k - 32), Coef(q, k - 26), Coef(q, k - 23), Coef(q, k - 22), Coef(q, k - 16))
     != Sum(Coef(q, k - 12), Coef(q, k - 11), Coef(q, k - 10), Coef(q, k - 8), Coef(q, k - 7)))
    != Sum(Coef(q, k - 5), Coef(q, k - 4), Coef(q, k - 2), Coef(q, k - 1), Coef(q, k))
  }

  /** Bit j of a register, 0 being the least significant. */
  predicate RegisterBit(r: bv32, j: nat)
    decreases j
  {
    if j == 0 then r & 1 == 1 else RegisterBit(r >> 1, j - 1)
  }

  /** The register holds the highest coefficient in its lowest bit. */
  predicate RegisterCoef(r: bv32, k: int) {
    0 <= k < 32 && RegisterBit(r, 31 - k)
  }

  function BitsOf(b: Byte): (s: seq<bool>)
    ensures |s| == 8
  {
    [b % 2 == 1, b / 2 % 2 == 1, b / 4 % 2 == 1, b / 8 % 2 == 1,
     b / 16 % 2 == 1, b / 32 % 2 == 1, b / 64 % 2 == 1, b / 128 % 2 == 1]
  }

  /** A message as a polynomial, first byte and least significant bit first. */
  function Polynomial(data: seq<Byte>): seq<bool> {
    if data == [] then [] else Polynomial(data[..|data| - 1]) + BitsOf(data[|data| - 1])
  }

  /** Coefficient k of m * x^32 with its leading 32 coefficients flipped. */
  predicate Dividend(m: seq<bool>, k: int) {
    Coef(m, k - 32) != (|m| <= k < |m| + 32)
  }

  ghost predicate AgreesAt(m: seq<bool>, q: seq<bool>, r: bv32, k: int) {
    Dividend(m, k) == (ProductCoef(q, k) != RegisterCoef(r, k))
  }

  /** The dividend is q times the generator plus r, coefficient by coefficient. */
  ghost predicate DividesWith(m: seq<bool>, q: seq<bool>, r: bv32) {
    forall k: int :: AgreesAt(m, q, r, k)
  }

  /** Every bit of the checksum is the opposite of the remainder's. */
  ghost predicate ComplementOfRemainder(m: seq<bool>, q: seq<bool>, c: bv32) {
    forall k: int :: Dividend(m, k) == (ProductCoef(q, k) != (0 <= k < 32 && !RegisterBit(c, 31 - k)))
  }

  // ----- bits of a register

  lemma {:induction false} RegisterBitOfXor(x: bv32, y: bv32, j: nat)
    ensures RegisterBit(Xor(x, y), j) == (RegisterBit(x, j) != RegisterBit(y, j))
    decreases j
  {
    hide Xor, Half, LowBit;
    BitByHalves(x, j);
    BitByHalves(y, j);
    BitByHalves(Xor(x, y), j);
    LowBitLinear(x, y);
    HalfLinear(x, y);
    hide RegisterBit;
    if j > 0 {
      RegisterBitOfXor(Half(x), Half(y), j - 1);
    }
  }

  lemma BitByHalves(r: bv32, j: nat)
    ensures RegisterBit(r, j) == if j == 0 then LowBit(r) else RegisterBit(Half(r), j - 1)
  {
    LowBitValue(r);
  }

  lemma {:induction false} BitAfterShift(r: bv32, n: nat, j: nat)
    requires n <= 8
    ensures RegisterBit(r, n + j) == RegisterBit(Shift(r, n), j)
    decreases n
  {
    hide RegisterBit, Half;
    if n > 0 {
      BitAfterShift(r, n - 1, j + 1);
      BitByHalves(Shift(r, n - 1), j + 1);
    }
  }

  /** The bits of the lowest byte. */
  lemma LowByteBits(r: bv32)
    ensures RegisterBit(r, 0) == LowBit(r) && RegisterBit(r, 1) == LowBit(r >> 1)
    ensures RegisterBit(r, 2) == LowBit(r >> 2) && RegisterBit(r, 3) == LowBit(r >> 3)
    ensures RegisterBit(r, 4) == LowBit(r >> 4) && RegisterBit(r, 5) == LowBit(r >> 5)
    ensures RegisterBit(r, 6) == LowBit(r >> 6) && RegisterBit(r, 7) == LowBit(r >> 7)
  {
    hide RegisterBit, LowBit, Half, Shift;
    ShiftClosed(r);
    ShiftNone(r);
    BitAtShift(r, 0);
    BitAtShift(r, 1);
    BitAtShift(r, 2);
    BitAtShift(r, 3);
    BitAtShift(r, 4);
    BitAtShift(r, 5);
    BitAtShift(r, 6);
    BitAtShift(r, 7);
  }

  lemma NextByte(r: bv32, j: nat)
    requires j >= 8
    ensures RegisterBit(r, j) == RegisterBit(DropByte(r), j - 8)
  {
    hide RegisterBit, Shift, DropByte;
    BitAfterShift(r, 8, j - 8);
    ShiftEnds(r);
  }

  lemma BitAtShift(r: bv32, n: nat)
    requires n <= 8
    ensures RegisterBit(r, n) == LowBit(Shift(r, n))
  {
    BitAfterShift(r, n, 0);
    BitByHalves(Shift(r, n), 0);
    hide RegisterBit, LowBit, Shift;
  }

  predicate IsExponent(k: int) {
    || k == 32 || k == 26 || k == 23 || k == 22 || k == 16
    || k == 12 || k == 11 || k == 10 || k == 8 || k == 7
    || k == 5 || k == 4 || k == 2 || k == 1 || k == 0
  }

  lemma PolynomialBytes()
    ensures DropByte(POLYNOMIAL) == 0xEDB883 && DropByte(0xEDB883) == 0xEDB8 && DropByte(0xEDB8) == 0xED
    ensures DropByte(0xED) == 0
  {}

  /** The constant of the bit loop lists the exponents below 32. */
  lemma PolynomialCoefs(k: int)
    requires 0 <= k < 32
    ensures RegisterCoef(POLYNOMIAL, k) == IsExponent(k)
  {
    hide RegisterBit;
    PolynomialBytes();
    LowByteBits(POLYNOMIAL);
    LowByteBits(0xEDB883);
    LowByteBits(0xEDB8);
    LowByteBits(0xED);
    var j := 31 - k;
    if j >= 8 {
      NextByte(POLYNOMIAL, j);
    }
    if j >= 16 {
      NextByte(0xEDB883, j - 8);
    }
    if j >= 24 {
      NextByte(0xEDB8, j - 16);
    }
  }

  lemma AllOnesBytes()
    ensures DropByte(0xFFFF_FFFF) == 0xFF_FFFF && DropByte(0xFF_FFFF) == 0xFFFF && DropByte(0xFFFF) == 0xFF
  {}

  lemma AllOnes(j: nat)
    requires j < 32
    ensures RegisterBit(0xFFFF_FFFF, j)
  {
    hide RegisterBit;
    AllOnesBytes();
    LowByteBits(0xFFFF_FFFF);
    LowByteBits(0xFF_FFFF);
    LowByteBits(0xFFFF);
    LowByteBits(0xFF);
    if j >= 8 {
      NextByte(0xFFFF_FFFF, j);
    }
    if j >= 16 {
      NextByte(0xFF_FFFF, j - 8);
    }
    if j >= 24 {
      NextByte(0xFFFF, j - 16);
    }
  }

  lemma DroppedOut(r: bv32)
    ensures DropByte(DropByte(DropByte(DropByte(r)))) == 0
  {}

  lemma {:induction false} ZeroBit(j: nat)
    ensures !RegisterBit(0, j)
    decreases j
  {
    if j > 0 {
      assert 0 as bv32 >> 1 == 0;
      ZeroBit(j - 1);
    }
  }

  lemma NoBitAbove(r: bv32, j: nat)
    ensures !RegisterBit(r, 32 + j)
  {
    hide RegisterBit, DropByte;
    var r1, r2, r3 := DropByte(r), DropByte(DropByte(r)), DropByte(DropByte(DropByte(r)));
    NextByte(r, 32 + j);
    NextByte(r1, 24 + j);
    NextByte(r2, 16 + j);
    NextByte(r3, 8 + j);
    DroppedOut(r);
    ZeroBit(j);
  }

  // ----- one bit of long division

  /** Brings down the bit b: subtracts the generator when the coefficient that leaves differs from it. */
  function DivideBit(r: bv32, b: bool): bv32 {
    if LowBit(r) != b then Xor(Half(r), POLYNOMIAL) else Half(r)
  }

  lemma HalfCoefs(r: bv32, k: int)
    requires k < 32
    ensures RegisterCoef(Half(r), k) == (k >= 0 && RegisterCoef(r, k - 1))
  {
    hide RegisterBit;
    NoBitAbove(r, 0);
    if k >= 0 {
      BitByHalves(r, 32 - k);
    }
  }

  lemma DivideBitCoefs(r: bv32, b: bool, k: int)
    requires 0 <= k < 32
    ensures RegisterCoef(DivideBit(r, b), k) == (RegisterCoef(r, k - 1) != ((LowBit(r) != b) && IsExponent(k)))
  {
    hide RegisterBit, Half, LowBit, Xor, IsExponent;
    HalfCoefs(r, k);
    RegisterBitOfXor(Half(r), POLYNOMIAL, 31 - k);
    PolynomialCoefs(k);
  }

  lemma CoefAppend(p: seq<bool>, b: bool, k: int)
    ensures Coef(p + [b], k) == if k == 0 then b else Coef(p, k - 1)
    ensures !Coef(p, -1)
  {}

  lemma SumAppend(q: seq<bool>, b: bool, k: int, e1: int, e2: int, e3: int, e4: int, e5: int)
    requires e1 > e2 > e3 > e4 > e5 >= 0
    ensures Sum(Coef(q + [b], k - e1), Coef(q + [b], k - e2), Coef(q + [b], k - e3), Coef(q + [b], k - e4),
                Coef(q + [b], k - e5))
         == (Sum(Coef(q, k - 1 - e1), Coef(q, k - 1 - e2), Coef(q, k - 1 - e3), Coef(q, k - 1 - e4),
                 Coef(q, k - 1 - e5))
             != (b && (k == e1 || k == e2 || k == e3 || k == e4 || k == e5)))
  {
    CoefAppend(q, b, k - e1);
    CoefAppend(q, b, k - e2);
    CoefAppend(q, b, k - e3);
    CoefAppend(q, b, k - e4);
    CoefAppend(q, b, k - e5);
    hide Coef;
  }

  lemma ProductAppend(q: seq<bool>, b: bool, k: int)
    ensures ProductCoef(q + [b], k) == (ProductCoef(q, k - 1) != (b && IsExponent(k)))
  {
    hide Coef, Sum;
    SumAppend(q, b, k, 32, 26, 23, 22, 16);
    SumAppend(q, b, k, 12, 11, 10, 8, 7);
    SumAppend(q, b, k, 5, 4, 2, 1, 0);
  }

  lemma DividendAppend(m: seq<bool>, b: bool, k: int)
    ensures Dividend(m + [b], k) == (Dividend(m, k - 1) != (b && k == 32))
  {
    CoefAppend(m, b, k - 32);
    hide Coef;
  }

  /** Bringing down one more bit extends the quotient by the bit that decided the subtraction. */
  lemma DivisionStep(m: seq<bool>, q: seq<bool>, r: bv32, b: bool)
    requires DividesWith(m, q, r)
    ensures DividesWith(m + [b], q + [LowBit(r) != b], DivideBit(r, b))
  {
    hide ProductCoef, Dividend, DivideBit, RegisterBit, LowBit;
    var m', q', r' := m + [b], q + [LowBit(r) != b], DivideBit(r, b);
    BitByHalves(r, 0);
    forall k: int
      ensures AgreesAt(m', q', r', k)
    {
      assert AgreesAt(m, q, r, k - 1);
      DividendAppend(m, b, k);
      ProductAppend(q, LowBit(r) != b, k);
      if 0 <= k < 32 {
        DivideBitCoefs(r, b, k);
      }
    }
  }

  function DivideBits(r: bv32, bits: seq<bool>): bv32
    decreases |bits|
  {
    if bits == [] then r else DivideBits(DivideBit(r, bits[0]), bits[1..])
  }

  lemma {:induction false} DivisionSteps(m: seq<bool>, q: seq<bool>, r: bv32, bits: seq<bool>)
    returns (q': seq<bool>)
    requires DividesWith(m, q, r)
    ensures DividesWith(m + bits, q', DivideBits(r, bits))
    decreases |bits|
  {
    hide DividesWith, DivideBit, LowBit;
    if bits == [] {
      q' := q;
      assert m + bits == m;
    } else {
      DivisionStep(m, q, r, bits[0]);
      q' := DivisionSteps(m + [bits[0]], q + [LowBit(r) != bits[0]], DivideBit(r, bits[0]), bits[1..]);
      assert m + [bits[0]] + bits[1..] == m + bits;
    }
  }

  // ----- the register performs the division

  function At(bits: seq<bool>, i: nat): bool {
    i < |bits| && bits[i]
  }

  /** Up to eight bits as a register value, first bit lowest. */
  function Waiting(bits: seq<bool>): bv32
    requires |bits| <= 8
  {
    FromBits(At(bits, 7), At(bits, 6), At(bits, 5), At(bits, 4), At(bits, 3), At(bits, 2), At(bits, 1), At(bits, 0))
  }

  lemma HalfFromBits(b7: bool, b6: bool, b5: bool, b4: bool, b3: bool, b2: bool, b1: bool, b0: bool)
    ensures Half(FromBits(b7, b6, b5, b4, b3, b2, b1, b0)) == FromBits(false, b7, b6, b5, b4, b3, b2, b1)
    ensures LowBit(FromBits(b7, b6, b5, b4, b3, b2, b1, b0)) == b0
  {}

  lemma WaitingNext(bits: seq<bool>)
    requires 0 < |bits| <= 8
    ensures LowBit(Waiting(bits)) == bits[0] && Half(Waiting(bits)) == Waiting(bits[1..])
  {
    hide FromBits, Half, LowBit;
    HalfFromBits(At(bits, 7), At(bits, 6), At(bits, 5), At(bits, 4), At(bits, 3), At(bits, 2), At(bits, 1),
                 At(bits, 0));
  }

  lemma WaitingNone()
    ensures Waiting([]) == 0
  {}

  lemma DivideByLowBit(r: bv32, b: bool)
    ensures DivideBit(r, b) == if LowBit(r) != b then Xor(Half(r), POLYNOMIAL) else Half(r)
  {
    hide LowBit, Xor, Half;
  }

  /** Bits still waiting in the register ride along untouched until they reach the low end. */
  lemma {:induction false} StepsDivide(r: bv32, bits: seq<bool>)
    requires |bits| <= 8
    ensures Steps(Xor(r, Waiting(bits)), |bits|) == DivideBits(r, bits)
    decreases |bits|
  {
    hide Step, Xor, DivideBit, LowBit, Half, Waiting, Feedback;
    if bits == [] {
      WaitingNone();
      XorZero(r);
    } else {
      WaitingNext(bits);
      var w := Waiting(bits);
      var x := Xor(r, w);
      StepAsFeedback(x);
      FeedbackByLowBit(x);
      LowBitLinear(r, w);
      HalfLinear(r, w);
      DivideByLowBit(r, LowBit(w));
      XorZero(Half(x));
      XorAssociates(Half(r), Half(w), POLYNOMIAL);
      XorCommutes(Half(w), POLYNOMIAL);
      XorAssociates(Half(r), POLYNOMIAL, Half(w));
      assert Step(x) == Xor(DivideBit(r, bits[0]), Half(w));
      StepsDivide(DivideBit(r, bits[0]), bits[1..]);
    }
  }

  lemma BitsWait(b: Byte)
    ensures Bits(b) == Waiting(BitsOf(b))
  {
    hide FromBits;
    var s := BitsOf(b);
    assert s[0] == Bit(b, 1) && s[1] == Bit(b, 2) && s[2] == Bit(b, 4) && s[3] == Bit(b, 8);
    assert s[4] == Bit(b, 16) && s[5] == Bit(b, 32) && s[6] == Bit(b, 64) && s[7] == Bit(b, 128);
  }

  /** Exclusive-or of a byte and eight steps divide by that byte's bits, least significant first. */
  lemma UpdateByteDivides(r: bv32, b: Byte)
    ensures UpdateByte(r, b) == DivideBits(r, BitsOf(b))
  {
    hide Bits, Waiting, Xor, Steps, BitsOf, DivideBits;
    BitsWait(b);
    StepsDivide(r, BitsOf(b));
  }

  lemma NothingDivided()
    ensures DividesWith([], [], INITIAL)
  {
    hide RegisterBit;
    forall k: int
      ensures AgreesAt([], [], INITIAL, k)
    {
      if 0 <= k < 32 {
        AllOnes(31 - k);
      }
    }
  }

  /** For every message the register is a remainder of the dividend, for some quotient. */
  lemma {:induction false} UpdateIsRemainder(data: seq<Byte>) returns (q: seq<bool>)
    ensures DividesWith(Polynomial(data), q, Update(INITIAL, data))
    decreases |data|
  {
    hide UpdateByte, BitsOf, DivideBits, DividesWith, INITIAL;
    if data == [] {
      q := [];
      NothingDivided();
    } else {
      var init, b := data[..|data| - 1], data[|data| - 1];
      q := UpdateIsRemainder(init);
      UpdateByteDivides(Update(INITIAL, init), b);
      q := DivisionSteps(Polynomial(init), q, Update(INITIAL, init), BitsOf(b));
    }
  }

  // ----- and there is only one remainder

  /** The highest coefficient in which two quotients differ would show 32 places up. */
  lemma {:induction false} QuotientUnique(m: seq<bool>, q: seq<bool>, r: bv32, q': seq<bool>, r': bv32, k: nat)
    requires DividesWith(m, q, r) && DividesWith(m, q', r')
    ensures forall j: int :: j >= k ==> Coef(q, j) == Coef(q', j)
    decreases |q| + |q'| - k
  {
    if k < |q| + |q'| {
      QuotientUnique(m, q, r, q', r', k + 1);
      assert AgreesAt(m, q, r, k + 32) && AgreesAt(m, q', r', k + 32);
      hide Coef, Dividend, RegisterBit;
      assert ProductCoef(q, k + 32) == ProductCoef(q', k + 32);
      assert Coef(q, k) == Coef(q', k);
    }
  }

  lemma RemainderUnique(m: seq<bool>, q: seq<bool>, r: bv32, q': seq<bool>, r': bv32)
    requires DividesWith(m, q, r) && DividesWith(m, q', r')
    ensures r == r'
  {
    QuotientUnique(m, q, r, q', r', 0);
    forall j: nat | j < 32
      ensures RegisterBit(r, j) == RegisterBit(r', j)
    {
      var k := 31 - j;
      assert AgreesAt(m, q, r, k) && AgreesAt(m, q', r', k);
      hide RegisterBit, Dividend;
      SameProduct(q, q', k);
    }
    SameRegister(r, r');
  }

  lemma SameProduct(q: seq<bool>, q': seq<bool>, k: int)
    requires forall j: int :: j >= 0 ==> Coef(q, j) == Coef(q', j)
    ensures ProductCoef(q, k) == ProductCoef(q', k)
  {
    forall j: int
      ensures Coef(q, j) == Coef(q', j)
    {}
    hide Coef;
  }

  lemma LowBitsSame(x: bv32, y: bv32)
    requires LowBit(x) == LowBit(y) && LowBit(x >> 1) == LowBit(y >> 1) && LowBit(x >> 2) == LowBit(y >> 2)
    requires LowBit(x >> 3) == LowBit(y >> 3) && LowBit(x >> 4) == LowBit(y >> 4) && LowBit(x >> 5) == LowBit(y >> 5)
    requires LowBit(x >> 6) == LowBit(y >> 6) && LowBit(x >> 7) == LowBit(y >> 7)
    requires DropByte(x) == DropByte(y)
    ensures x == y
  {}

  function Drops(x: bv32, n: nat): bv32
    decreases n
  {
    if n == 0 then x else Drops(DropByte(x), n - 1)
  }

  lemma DropsOut(x: bv32)
    ensures Drops(x, 4) == 0
  {
    hide DropByte;
    assert Drops(x, 4) == Drops(DropByte(DropByte(x)), 2);
    DroppedOut(x);
  }

  lemma SameRegister(x: bv32, y: bv32)
    requires forall j: nat :: j < 32 ==> RegisterBit(x, j) == RegisterBit(y, j)
    ensures x == y
  {
    hide RegisterBit, DropByte, LowBit;
    forall j: nat
      ensures RegisterBit(x, j) == RegisterBit(y, j)
    {
      if j >= 32 {
        NoBitAbove(x, j - 32);
        NoBitAbove(y, j - 32);
      }
    }
    DropsOut(x);
    DropsOut(y);
    SameBits(x, y, 4);
  }

  lemma {:induction false} SameBits(x: bv32, y: bv32, n: nat)
    requires forall j: nat :: RegisterBit(x, j) == RegisterBit(y, j)
    requires Drops(x, n) == Drops(y, n)
    ensures x == y
    decreases n
  {
    hide RegisterBit, DropByte, LowBit;
    if n > 0 {
      LowByteBits(x);
      LowByteBits(y);
      forall j: nat
        ensures RegisterBit(DropByte(x), j) == RegisterBit(DropByte(y), j)
      {
        NextByte(x, 8 + j);
        NextByte(y, 8 + j);
        assert RegisterBit(x, 8 + j) == RegisterBit(y, 8 + j);
      }
      SameBits(DropByte(x), DropByte(y), n - 1);
      assert RegisterBit(x, 0) == RegisterBit(y, 0) && RegisterBit(x, 1) == RegisterBit(y, 1);
      assert RegisterBit(x, 2) == RegisterBit(y, 2) && RegisterBit(x, 3) == RegisterBit(y, 3);
      assert RegisterBit(x, 4) == RegisterBit(y, 4) && RegisterBit(x, 5) == RegisterBit(y, 5);
      assert RegisterBit(x, 6) == RegisterBit(y, 6) && RegisterBit(x, 7) == RegisterBit(y, 7);
      LowBitsSame(x, y);
    }
  }

  lemma NotFlips(r: bv32, j: nat)
    requires j < 32
    ensures RegisterBit(Not(r), j) == !RegisterBit(r, j)
  {
    RegisterBitOfXor(r, 0xFFFF_FFFF, j);
    AllOnes(j);
    hide RegisterBit;
  }

  lemma FlipsRemainder(m: seq<bool>, q: seq<bool>, r: bv32)
    ensures ComplementOfRemainder(m, q, Not(r)) <==> DividesWith(m, q, r)
  {
    hide RegisterBit, Not, Dividend, ProductCoef;
    forall k: int
      ensures AgreesAt(m, q, r, k)
         <==> Dividend(m, k) == (ProductCoef(q, k) != (0 <= k < 32 && !RegisterBit(Not(r), 31 - k)))
    {
      if 0 <= k < 32 {
        NotFlips(r, 31 - k);
      }
    }
  }

  lemma NotTwice(c: bv32)
    ensures Not(Not(c)) == c
  {}

  /** The checksum of a message is the complement of the one remainder of its dividend, and nothing else is. */
  lemma ChecksumIsTheRemainder(data: seq<Byte>, c: bv32)
    ensures (exists q: seq<bool> :: ComplementOfRemainder(Polynomial(data), q, c)) <==> c == Checksum(data)
  {
    hide DividesWith, Polynomial, Update, ComplementOfRemainder, Not, Checksum;
    var m, r := Polynomial(data), Update(INITIAL, data);
    var q := UpdateIsRemainder(data);
    FlipsRemainder(m, q, r);
    ComplementIsChecksum(data);
    if q': seq<bool> :| ComplementOfRemainder(m, q', c) {
      NotTwice(c);
      FlipsRemainder(m, q', Not(c));
      RemainderUnique(m, q, r, q', Not(c));
    }
  }

  // ----- the check value

  function FourSteps(c: bv32): bv32 {
    Step(Step(Step(Step(c))))
  }

  lemma EightSteps(c: bv32)
    ensures Steps(c, 8) == FourSteps(FourSteps(c))
  {
    hide Step;
    assert Steps(c, 8) == Steps(FourSteps(c), 4);
  }

  lemma ByteFed(c: bv32, b: Byte, v: bv32)
    requires Bits(b) == v
    ensures UpdateByte(c, b) == FourSteps(FourSteps(c ^ v))
  {
    hide Bits, Step, Steps;
    EightSteps(c ^ v);
  }

  /** The bits of the digits 1 to 9. */
  lemma DigitsInBinary()
    ensures !Bit(0x31, 128) && !Bit(0x31, 64) && Bit(0x31, 32) && Bit(0x31, 16) && !Bit(0x31, 8)
      && !Bit(0x31, 4) && !Bit(0x31, 2) && Bit(0x31, 1)
    ensures !Bit(0x32, 128) && !Bit(0x32, 64) && Bit(0x32, 32) && Bit(0x32, 16) && !Bit(0x32, 8)
      && !Bit(0x32, 4) && Bit(0x32, 2) && !Bit(0x32, 1)
    ensures !Bit(0x33, 128) && !Bit(0x33, 64) && Bit(0x33, 32) && Bit(0x33, 16) && !Bit(0x33, 8)
      && !Bit(0x33, 4) && Bit(0x33, 2) && Bit(0x33, 1)
    ensures !Bit(0x34, 128) && !Bit(0x34, 64) && Bit(0x34, 32) && Bit(0x34, 16) && !Bit(0x34, 8)
      && Bit(0x34, 4) && !Bit(0x34, 2) && !Bit(0x34, 1)
    ensures !Bit(0x35, 128) && !Bit(0x35, 64) && Bit(0x35, 32) && Bit(0x35, 16) && !Bit(0x35, 8)
      && Bit(0x35, 4) && !Bit(0x35, 2) && Bit(0x35, 1)
    ensures !Bit(0x36, 128) && !Bit(0x36, 64) && Bit(0x36, 32) && Bit(0x36, 16) && !Bit(0x36, 8)
      && Bit(0x36, 4) && Bit(0x36, 2) && !Bit(0x36, 1)
    ensures !Bit(0x37, 128) && !Bit(0x37, 64) && Bit(0x37, 32) && Bit(0x37, 16) && !Bit(0x37, 8)
      && Bit(0x37, 4) && Bit(0x37, 2) && Bit(0x37, 1)
    ensures !Bit(0x38, 128) && !Bit(0x38, 64) && Bit(0x38, 32) && Bit(0x38, 16) && Bit(0x38, 8)
      && !Bit(0x38, 4) && !Bit(0x38, 2) && !Bit(0x38, 1)
    ensures !Bit(0x39, 128) && !Bit(0x39, 64) && Bit(0x39, 32) && Bit(0x39, 16) && Bit(0x39, 8)
      && !Bit(0x39, 4) && !Bit(0x39, 2) && Bit(0x39, 1)
  {}

  lemma DigitValues()
    ensures FromBits(false, false, true, true, false, false, false, true) == 0x31
    ensures FromBits(false, false, true, true, false, false, true, false) == 0x32
    ensures FromBits(false, false, true, true, false, false, true, true) == 0x33
    ensures FromBits(false, false, true, true, false, true, false, false) == 0x34
    ensures FromBits(false, false, true, true, false, true, false, true) == 0x35
    ensures FromBits(false, false, true, true, false, true, true, false) == 0x36
    ensures FromBits(false, false, true, true, false, true, true, true) == 0x37
    ensures FromBits(false, false, true, true, true, false, false, false) == 0x38
    ensures FromBits(false, false, true, true, true, false, false, true) == 0x39
  {}

  lemma DigitBits()
    ensures Bits(0x31) == 0x31
    ensures Bits(0x32) == 0x32
    ensures Bits(0x33) == 0x33
    ensures Bits(0x34) == 0x34
    ensures Bits(0x35) == 0x35
    ensures Bits(0x36) == 0x36
    ensures Bits(0x37) == 0x37
    ensures Bits(0x38) == 0x38
    ensures Bits(0x39) == 0x39
  {
    hide FromBits, Bit;
    DigitsInBinary();
    DigitValues();
  }

  lemma DigitSteps()
    ensures FourSteps(FourSteps(0xFFFF_FFFF ^ 0x31)) == 0x7C23_1048
    ensures FourSteps(FourSteps(0x7C23_1048 ^ 0x32)) == 0xB0AC_BB32
    ensures FourSteps(FourSteps(0xB0AC_BB32 ^ 0x33)) == 0x77B7_9C2D
    ensures FourSteps(FourSteps(0x77B7_9C2D ^ 0x34)) == 0x641C_1F5C
    ensures FourSteps(FourSteps(0x641C_1F5C ^ 0x35)) == 0x340A_C5E3
    ensures FourSteps(FourSteps(0x340A_C5E3 ^ 0x36)) == 0xF68D_2C9E
    ensures FourSteps(FourSteps(0xF68D_2C9E ^ 0x37)) == 0xAFFC_9660
    ensures FourSteps(FourSteps(0xAFFC_9660 ^ 0x38)) == 0x651F_2550
    ensures FourSteps(FourSteps(0x651F_2550 ^ 0x39)) == 0x340B_C6D9
  {}

  lemma DigitsFed()
    ensures UpdateByte(0xFFFF_FFFF, 0x31) == 0x7C23_1048
    ensures UpdateByte(0x7C23_1048, 0x32) == 0xB0AC_BB32
    ensures UpdateByte(0xB0AC_BB32, 0x33) == 0x77B7_9C2D
    ensures UpdateByte(0x77B7_9C2D, 0x34) == 0x641C_1F5C
    ensures UpdateByte(0x641C_1F5C, 0x35) == 0x340A_C5E3
    ensures UpdateByte(0x340A_C5E3, 0x36) == 0xF68D_2C9E
    ensures UpdateByte(0xF68D_2C9E, 0x37) == 0xAFFC_9660
    ensures UpdateByte(0xAFFC_9660, 0x38) == 0x651F_2550
    ensures UpdateByte(0x651F_2550, 0x39) == 0x340B_C6D9
  {
    hide Bits, FourSteps;
    DigitBits();
    DigitSteps();
    ByteFed(0xFFFF_FFFF, 0x31, 0x31);
    ByteFed(0x7C23_1048, 0x32, 0x32);
    ByteFed(0xB0AC_BB32, 0x33, 0x33);
    ByteFed(0x77B7_9C2D, 0x34, 0x34);
    ByteFed(0x641C_1F5C, 0x35, 0x35);
    ByteFed(0x340A_C5E3, 0x36, 0x36);
    ByteFed(0xF68D_2C9E, 0x37, 0x37);
    ByteFed(0xAFFC_9660, 0x38, 0x38);
    ByteFed(0x651F_2550, 0x39, 0x39);
  }

  const DIGITS: seq<Byte> := [0x31, 0x32, 0x33, 0x34, 0x35, 0x36, 0x37, 0x38, 0x39]

  lemma {:induction false} DigitsUpdated(n: nat)
    requires n <= 9
    ensures Update(0xFFFF_FFFF, DIGITS[..n]) ==
            if n == 0 then 0xFFFF_FFFF
            else if n == 1 then 0x7C23_1048
            else if n == 2 then 0xB0AC_BB32
            else if n == 3 then 0x77B7_9C2D
            else if n == 4 then 0x641C_1F5C
            else if n == 5 then 0x340A_C5E3
            else if n == 6 then 0xF68D_2C9E
            else if n == 7 then 0xAFFC_9660
            else if n == 8 then 0x651F_2550
            else 0x340B_C6D9
  {
    hide UpdateByte;
    if n > 0 {
      DigitsUpdated(n - 1);
      DigitsFed();
      assert DIGITS[..n][..n - 1] == DIGITS[..n - 1];
    }
  }

  /** The check value of CRC-32: the digits 1 to 9. */
  lemma CheckValue()
    ensures Checksum(DIGITS) == 0xCBF4_3926 && ChecksumWord(DIGITS) == 0xCBF4_3926
  {
    hide Update, Checksum;
    DigitsUpdated(9);
    assert DIGITS[..9] == DIGITS;
    ComplementIsChecksum(DIGITS);
  }
}
