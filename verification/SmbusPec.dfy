/**
 SMBus packet error code (lib/i2c.c), section 5.4 of the SMBus Specification 2.0: the remainder of
 the message polynomial times x^8 by x^8 + x^2 + x + 1 over GF(2).
 Bus-level code works on bit-vectors.
 */
module SmbusPec {
  // ----- the register

  function Shift(pec: bv8): bv8 {
    if pec & 0x80 != 0 then (pec << 1) ^ 0x07 else pec << 1
  }

  function Shifts(pec: bv8, n: nat): bv8
    decreases n
  {
    if n == 0 then pec else Shifts(Shift(pec), n - 1)
  }

  function Xor(x: bv8, y: bv8): bv8 {
    x ^ y
  }

  function UpdateByte(pec: bv8, value: bv8): bv8 {
    Shifts(Xor(pec, value), 8)
  }

  function Update(pec: bv8, message: seq<bv8>): bv8 {
    if message == [] then pec
    else UpdateByte(Update(pec, message[..|message| - 1]), message[|message| - 1])
  }

  /** The address byte that leads every transfer; the shift drops its top bit. */
  function AddressByte(address: bv8): bv8 {
    address << 1
  }

  function Pec(address: bv8, data: seq<bv8>): bv8 {
    Update(0, [AddressByte(address)] + data)
  }

  // ----- polynomials over GF(2): coefficients, highest first

  function Coef(p: seq<bool>, k: int): bool {
    0 <= k < |p| && p[|p| - 1 - k]
  }

  function Bit(r: bv8, k: int): bool {
    if k == 0 then r & 0x01 != 0
    else if k == 1 then r & 0x02 != 0
    else if k == 2 then r & 0x04 != 0
    else if k == 3 then r & 0x08 != 0
    else if k == 4 then r & 0x10 != 0
    else if k == 5 then r & 0x20 != 0
    else if k == 6 then r & 0x40 != 0
    else k == 7 && r & 0x80 != 0
  }

  /** Coefficient k of q * (x^8 + x^2 + x + 1); over GF(2), `!=` is addition. */
  function ProductCoef(q: seq<bool>, k: int): bool {
    ((Coef(q, k - 8) != Coef(q, k - 2)) != Coef(q, k - 1)) != Coef(q, k)
  }

  ghost predicate AgreesAt(m: seq<bool>, q: seq<bool>, r: bv8, k: int) {
    Coef(m, k - 8) == (ProductCoef(q, k) != Bit(r, k))
  }

  /** m * x^8 == q * (x^8 + x^2 + x + 1) + r, coefficient by coefficient. */
  ghost predicate DividesWith(m: seq<bool>, q: seq<bool>, r: bv8) {
    forall k: int :: AgreesAt(m, q, r, k)
  }

  function BitsOf(b: bv8): (s: seq<bool>)
    ensures |s| == 8
  {
    [Bit(b, 7), Bit(b, 6), Bit(b, 5), Bit(b, 4), Bit(b, 3), Bit(b, 2), Bit(b, 1), Bit(b, 0)]
  }

  /** A message as a polynomial, first byte and most significant bit first. */
  function Polynomial(message: seq<bv8>): seq<bool> {
    if message == [] then [] else Polynomial(message[..|message| - 1]) + BitsOf(message[|message| - 1])
  }

  // ----- one bit of long division

  function DivideBit(r: bv8, b: bool): bv8 {
    if Bit(r, 7) != b then (r << 1) ^ 0x07 else r << 1
  }

  lemma DivideBitCoefs(r: bv8, b: bool, k: int)
    ensures Bit(DivideBit(r, b), k) ==
            if k == 0 || k == 1 || k == 2 then Bit(r, k - 1) != (Bit(r, 7) != b)
            else k < 8 && Bit(r, k - 1)
  {}

  lemma CoefAppend(p: seq<bool>, b: bool, k: int)
    ensures Coef(p + [b], k) == if k == 0 then b else Coef(p, k - 1)
  {}

  lemma ProductAppend(q: seq<bool>, b: bool, k: int)
    ensures ProductCoef(q + [b], k) ==
            (ProductCoef(q, k - 1) != (b && (k == 0 || k == 1 || k == 2 || k == 8)))
  {
    CoefAppend(q, b, k - 8);
    CoefAppend(q, b, k - 2);
    CoefAppend(q, b, k - 1);
    CoefAppend(q, b, k);
    NoCoefBelow(q);
    hide Coef;
  }

  /** Bringing down one more bit extends the quotient by the bit that decided the subtraction. */
  lemma DivisionStep(m: seq<bool>, q: seq<bool>, r: bv8, b: bool)
    requires DividesWith(m, q, r)
    ensures DividesWith(m + [b], q + [Bit(r, 7) != b], DivideBit(r, b))
  {
    hide ProductCoef, Coef, Bit, DivideBit;
    var m', q', r' := m + [b], q + [Bit(r, 7) != b], DivideBit(r, b);
    forall k: int
      ensures AgreesAt(m', q', r', k)
    {
      assert AgreesAt(m, q, r, k - 1);
      assert AgreesAt(m, q, r, 7);
      CoefAppend(m, b, k - 8);
      ProductAppend(q, Bit(r, 7) != b, k);
      DivideBitCoefs(r, b, k);
      NoCoefBelow(m);
      BitsStop(r, k - 1);
    }
  }

  lemma NoCoefBelow(m: seq<bool>)
    ensures Coef(m, -1) == false
  {}

  lemma BitsStop(r: bv8, k: int)
    ensures k < 0 || k > 7 ==> !Bit(r, k)
  {}

  // ----- the register performs the division

  function DivideBits(r: bv8, bits: seq<bool>): bv8 {
    if bits == [] then r else DivideBit(DivideBits(r, bits[..|bits| - 1]), bits[|bits| - 1])
  }

  lemma {:induction false} DivisionSteps(m: seq<bool>, q: seq<bool>, r: bv8, bits: seq<bool>) returns (q': seq<bool>)
    requires DividesWith(m, q, r)
    ensures DividesWith(m + bits, q', DivideBits(r, bits))
    decreases |bits|
  {
    hide DividesWith, DivideBit, Bit;
    if bits == [] {
      q' := q;
      assert m + bits == m;
    } else {
      var init, b := bits[..|bits| - 1], bits[|bits| - 1];
      q' := DivisionSteps(m, q, r, init);
      DivisionStep(m + init, q', DivideBits(r, init), b);
      q' := q' + [Bit(DivideBits(r, init), 7) != b];
      assert m + bits == m + init + [b];
    }
  }

  function Double(x: bv8): bv8 {
    x << 1
  }

  lemma DoubleXor(x: bv8, y: bv8)
    ensures Double(Xor(x, y)) == Xor(Double(x), Double(y))
  {}

  lemma TopOfXor(x: bv8, y: bv8)
    ensures Bit(Xor(x, y), 7) == (Bit(x, 7) != Bit(y, 7))
  {}

  lemma XorSwap(x: bv8, y: bv8)
    ensures Xor(Xor(x, y), 0x07) == Xor(Xor(x, 0x07), y)
  {}

  lemma ShiftByTop(x: bv8)
    ensures Shift(x) == if Bit(x, 7) then Xor(Double(x), 0x07) else Double(x)
  {}

  lemma DivideByTop(x: bv8, b: bool)
    ensures DivideBit(x, b) == if Bit(x, 7) != b then Xor(Double(x), 0x07) else Double(x)
  {}

  /** Bits still waiting in the register ride along untouched until they reach the top. */
  lemma ShiftDividesTop(r: bv8, w: bv8)
    ensures Shift(Xor(r, w)) == Xor(DivideBit(r, Bit(w, 7)), Double(w))
  {
    hide *;
    ShiftByTop(Xor(r, w));
    DivideByTop(r, Bit(w, 7));
    TopOfXor(r, w);
    DoubleXor(r, w);
    XorSwap(Double(r), Double(w));
  }

  lemma DoubleMovesBits(v: bv8)
    ensures Bit(Double(v), 7) == Bit(v, 6) && Bit(Double(v), 6) == Bit(v, 5) && Bit(Double(v), 5) == Bit(v, 4)
    ensures Bit(Double(v), 4) == Bit(v, 3) && Bit(Double(v), 3) == Bit(v, 2) && Bit(Double(v), 2) == Bit(v, 1)
    ensures Bit(Double(v), 1) == Bit(v, 0)
  {}

  lemma DoubledOut(v: bv8)
    ensures Double(Double(Double(Double(Double(Double(Double(Double(v)))))))) == 0
  {}

  lemma XorZero(r: bv8)
    ensures Xor(r, 0) == r
  {}

  /** Divides by the top n bits of w. */
  function DivideTop(r: bv8, w: bv8, n: nat): bv8
    decreases n
  {
    if n == 0 then r else DivideTop(DivideBit(r, Bit(w, 7)), Double(w), n - 1)
  }

  function Doubles(w: bv8, n: nat): bv8
    decreases n
  {
    if n == 0 then w else Doubles(Double(w), n - 1)
  }

  lemma {:induction false} ShiftsDivideTop(r: bv8, w: bv8, n: nat)
    ensures Shifts(Xor(r, w), n) == Xor(DivideTop(r, w, n), Doubles(w, n))
    decreases n
  {
    hide Shift, Xor, DivideBit, Bit, Double;
    if n > 0 {
      ShiftDividesTop(r, w);
      ShiftsDivideTop(DivideBit(r, Bit(w, 7)), Double(w), n - 1);
    }
  }

  lemma DoublesOut(v: bv8)
    ensures Doubles(v, 8) == 0
  {
    hide Double;
    assert Doubles(v, 8) == Doubles(Double(Double(v)), 6);
    assert Doubles(Double(Double(v)), 6) == Doubles(Double(Double(Double(Double(v)))), 4);
    DoubledOut(v);
  }

  lemma DoubleBit(w: bv8, i: int)
    requires 1 <= i <= 7
    ensures Bit(Double(w), i) == Bit(w, i - 1)
  {
    hide Bit, Double;
    DoubleMovesBits(w);
    assert i == 1 || i == 2 || i == 3 || i == 4 || i == 5 || i == 6 || i == 7;
  }

  lemma BitsOfAt(v: bv8, k: nat)
    requires k < 8
    ensures BitsOf(v)[k] == Bit(v, 7 - k)
  {
    hide Bit;
    assert k == 0 || k == 1 || k == 2 || k == 3 || k == 4 || k == 5 || k == 6 || k == 7;
  }

  /** The top bits of w are the bits of v from `7 - k` down. */
  ghost predicate Aligned(v: bv8, w: bv8, k: nat) {
    forall i: int :: k <= i <= 7 ==> Bit(w, i) == Bit(v, i - k)
  }

  lemma AlignedNext(v: bv8, w: bv8, k: nat)
    requires Aligned(v, w, k) && k <= 7
    ensures Bit(w, 7) == Bit(v, 7 - k)
    ensures Aligned(v, Double(w), k + 1)
  {
    hide Bit, Double;
    assert Bit(w, 7) == Bit(v, 7 - k);
    forall i: int | k + 1 <= i <= 7
      ensures Bit(Double(w), i) == Bit(v, i - (k + 1))
    {
      DoubleBit(w, i);
      assert Bit(w, i - 1) == Bit(v, i - 1 - k);
    }
  }

  lemma {:induction false} DivideBitsFront(r: bv8, s: seq<bool>)
    requires s != []
    ensures DivideBits(r, s) == DivideBits(DivideBit(r, s[0]), s[1..])
    decreases |s|
  {
    hide DivideBit;
    var init := s[..|s| - 1];
    if |s| > 1 {
      DivideBitsFront(r, init);
      assert s[1..][..|s| - 2] == init[1..];
    } else {
      assert init == [] && s[1..] == [];
    }
  }

  lemma {:induction false} TopIsBits(r: bv8, v: bv8, w: bv8, k: nat)
    requires k <= 8 && Aligned(v, w, k)
    ensures DivideTop(r, w, 8 - k) == DivideBits(r, BitsOf(v)[k..])
    decreases 8 - k
  {
    hide DivideBit, Bit, Double, Aligned, BitsOf;
    var s := BitsOf(v)[k..];
    if k < 8 {
      AlignedNext(v, w, k);
      TopIsBits(DivideBit(r, Bit(w, 7)), v, Double(w), k + 1);
      DivideBitsFront(r, s);
      assert s[1..] == BitsOf(v)[k + 1..];
      BitsOfAt(v, k);
    }
  }

  /** Exclusive-or of a byte and eight shifts divide by that byte's bits, most significant first. */
  lemma UpdateByteDivides(r: bv8, v: bv8)
    ensures UpdateByte(r, v) == DivideBits(r, BitsOf(v))
  {
    hide Shifts, Xor, DivideBits, Bit, Doubles, DivideTop;
    ShiftsDivideTop(r, v, 8);
    DoublesOut(v);
    XorZero(DivideTop(r, v, 8));
    assert Aligned(v, v, 0);
    TopIsBits(r, v, v, 0);
    assert BitsOf(v)[0..] == BitsOf(v);
  }

  /** For every message the register is a remainder of the message polynomial, for some quotient. */
  lemma {:induction false} UpdateIsRemainder(message: seq<bv8>) returns (q: seq<bool>)
    ensures DividesWith(Polynomial(message), q, Update(0, message))
    decreases |message|
  {
    hide UpdateByte, BitsOf, DivideBits;
    if message == [] {
      q := [];
      ZeroDivides();
    } else {
      var init, v := message[..|message| - 1], message[|message| - 1];
      q := UpdateIsRemainder(init);
      UpdateByteDivides(Update(0, init), v);
      q := DivisionSteps(Polynomial(init), q, Update(0, init), BitsOf(v));
    }
  }

  lemma ZeroDivides()
    ensures DividesWith([], [], 0)
  {}

  // ----- and there is only one remainder

  /** The highest coefficient in which two quotients differ would show eight places up. */
  lemma {:induction false} QuotientUnique(m: seq<bool>, q: seq<bool>, r: bv8, q': seq<bool>, r': bv8, k: int, top: int)
    requires DividesWith(m, q, r) && DividesWith(m, q', r')
    requires top >= |q| && top >= |q'|
    requires k >= 0
    ensures Coef(q, k) == Coef(q', k)
    decreases if k < top then top - k else 0
  {
    if k < top {
      QuotientUnique(m, q, r, q', r', k + 8, top);
      QuotientUnique(m, q, r, q', r', k + 7, top);
      QuotientUnique(m, q, r, q', r', k + 6, top);
      hide Coef, Bit;
      assert AgreesAt(m, q, r, k + 8) && AgreesAt(m, q', r', k + 8);
      BitsStop(r, k + 8);
      BitsStop(r', k + 8);
    }
  }

  lemma RemainderUnique(m: seq<bool>, q: seq<bool>, r: bv8, q': seq<bool>, r': bv8)
    requires DividesWith(m, q, r) && DividesWith(m, q', r')
    ensures r == r'
  {
    var top := |q| + |q'|;
    forall k: int
      ensures Coef(q, k) == Coef(q', k)
    {
      if k >= 0 { QuotientUnique(m, q, r, q', r', k, top); }
    }
    forall k: int
      ensures Bit(r, k) == Bit(r', k)
    {
      hide Coef, Bit;
      assert AgreesAt(m, q, r, k) && AgreesAt(m, q', r', k);
    }
    SameBits(r, r');
  }

  lemma SameBits(r: bv8, r': bv8)
    requires forall k: int :: Bit(r, k) == Bit(r', k)
    ensures r == r'
  {
    assert Bit(r, 0) == Bit(r', 0) && Bit(r, 1) == Bit(r', 1) && Bit(r, 2) == Bit(r', 2) && Bit(r, 3) == Bit(r', 3);
    assert Bit(r, 4) == Bit(r', 4) && Bit(r, 5) == Bit(r', 5) && Bit(r, 6) == Bit(r', 6) && Bit(r, 7) == Bit(r', 7);
  }

  /** The packet error code of a transfer is the one remainder of its polynomial. */
  lemma PecIsTheRemainder(address: bv8, data: seq<bv8>, r: bv8)
    ensures (exists q: seq<bool> :: DividesWith(Polynomial([AddressByte(address)] + data), q, r))
      <==> r == Pec(address, data)
  {
    hide DividesWith, Polynomial, Update;
    var m := Polynomial([AddressByte(address)] + data);
    var q := UpdateIsRemainder([AddressByte(address)] + data);
    assert DividesWith(m, q, Pec(address, data));
    if q': seq<bool> :| DividesWith(m, q', r) {
      RemainderUnique(m, q, Pec(address, data), q', r);
    }
  }

  // ----- appending the code

  lemma ShiftInjective(x: bv8)
    requires Shift(x) == 0
    ensures x == 0
  {}

  lemma {:induction false} ShiftsZero(x: bv8, n: nat)
    ensures Shifts(x, n) == 0 <==> x == 0
    decreases n
  {
    if n > 0 {
      ShiftsZero(Shift(x), n - 1);
      if Shift(x) == 0 { ShiftInjective(x); }
      assert Shift(0) == 0;
    }
  }

  lemma XorSame(x: bv8, y: bv8)
    ensures Xor(x, y) == 0 <==> x == y
  {}

  /** The residue over address, data and one more byte is zero exactly when that byte is the code. */
  lemma ResidueZero(address: bv8, data: seq<bv8>, last: bv8)
    ensures Pec(address, data + [last]) == 0 <==> last == Pec(address, data)
  {
    hide Shifts, Xor;
    var message := [AddressByte(address)] + data;
    var whole := [AddressByte(address)] + (data + [last]);
    assert whole[..|whole| - 1] == message && whole[|whole| - 1] == last;
    ShiftsZero(Xor(Update(0, message), last), 8);
    XorSame(Update(0, message), last);
  }

  // ----- damage

  lemma StepInjective(x: bv8, y: bv8)
    ensures Shift(x) == Shift(y) ==> x == y
  {}

  lemma XorInjective(x: bv8, y: bv8, z: bv8)
    ensures Xor(x, z) == Xor(y, z) ==> x == y
    ensures Xor(z, x) == Xor(z, y) ==> x == y
  {}

  lemma {:induction false} ShiftsInjective(x: bv8, y: bv8, n: nat)
    requires Shifts(x, n) == Shifts(y, n)
    ensures x == y
    decreases n
  {
    hide Shift;
    if n > 0 {
      ShiftsInjective(Shift(x), Shift(y), n - 1);
      StepInjective(x, y);
    }
  }

  lemma {:induction false} UpdateInjective(p: bv8, q: bv8, message: seq<bv8>)
    requires Update(p, message) == Update(q, message)
    ensures p == q
    decreases |message|
  {
    hide Shifts, Xor;
    if message != [] {
      var n := |message| - 1;
      var p', q' := Update(p, message[..n]), Update(q, message[..n]);
      ShiftsInjective(Xor(p', message[n]), Xor(q', message[n]), 8);
      XorInjective(p', q', message[n]);
      UpdateInjective(p, q, message[..n]);
    }
  }

  lemma {:induction false} UpdateAppend(p: bv8, a: seq<bv8>, b: seq<bv8>)
    ensures Update(p, a + b) == Update(Update(p, a), b)
    decreases |b|
  {
    hide UpdateByte;
    if b == [] {
      assert a + b == a;
    } else {
      UpdateAppend(p, a, b[..|b| - 1]);
      assert (a + b)[..|a + b| - 1] == a + b[..|b| - 1];
    }
  }

  /** Any change to a single byte of any message changes the code. */
  lemma OneByteDetected(p: bv8, before: seq<bv8>, x: bv8, y: bv8, after: seq<bv8>)
    requires x != y
    ensures Update(p, before + [x] + after) != Update(p, before + [y] + after)
  {
    hide Shifts, Xor;
    UpdateAppend(p, before + [x], after);
    UpdateAppend(p, before + [y], after);
    assert (before + [x])[..|before|] == before == (before + [y])[..|before|];
    var q := Update(p, before);
    if Update(p, before + [x] + after) == Update(p, before + [y] + after) {
      UpdateInjective(UpdateByte(q, x), UpdateByte(q, y), after);
      ShiftsInjective(Xor(q, x), Xor(q, y), 8);
      XorInjective(x, y, q);
      assert false;
    }
  }

  // ----- lib/i2c.c

  /** smbus_pec_update. */
  method PecUpdate(before: bv8, value: bv8) returns (pec: bv8)
    ensures pec == UpdateByte(before, value)
  {
    hide Xor;
    pec := Xor(before, value);
    ghost var start := pec;
    var bit := 0;
    while bit < 8
      invariant 0 <= bit <= 8
      invariant Shifts(pec, 8 - bit) == Shifts(start, 8)
    {
      ghost var previous := pec;
      if pec & 0x80 != 0 {
        pec := (pec << 1) ^ 0x07;
      } else {
        pec := pec << 1;
      }
      assert pec == Shift(previous);
      bit := bit + 1;
    }
  }

  /** i2c_smbus_pec_calculate. */
  method PecCalculate(address: bv8, data: seq<bv8>) returns (pec: bv8)
    ensures pec == Pec(address, data)
  {
    hide UpdateByte, AddressByte;
    ghost var message := [AddressByte(address)] + data;
    pec := PecUpdate(0, AddressByte(address));
    assert message[..1] == [AddressByte(address)];
    assert [AddressByte(address)][..0] == [];
    for i := 0 to |data|
      invariant pec == Update(0, message[..i + 1])
    {
      assert message[..i + 2][..i + 1] == message[..i + 1] && message[..i + 2][i + 1] == data[i];
      pec := PecUpdate(pec, data[i]);
    }
    assert message[..|data| + 1] == message;
  }
}
