/** Bitwise and, powers of two and remainders on unbounded numbers. */
module BitMath {
  /** Bitwise and of two non-negative numbers. */
  function And(a: nat, b: nat): (r: nat)
    ensures r <= a && r <= b
    decreases a
  {
    if a == 0 || b == 0 then 0 else 2 * And(a / 2, b / 2) + if a % 2 == 1 && b % 2 == 1 then 1 else 0
  }

  predicate PowerOfTwo(n: nat) {
    n == 1 || (n > 1 && n % 2 == 0 && PowerOfTwo(n / 2))
  }

  lemma Times256(n: nat)
    requires n > 0
    ensures PowerOfTwo(n) <==> PowerOfTwo(0x100 * n)
  {
    hide PowerOfTwo;
    Doubled(n);
    Doubled(2 * n);
    Doubled(4 * n);
    Doubled(8 * n);
    Doubled(0x10 * n);
    Doubled(0x20 * n);
    Doubled(0x40 * n);
    Doubled(0x80 * n);
  }

  lemma Doubled(n: nat)
    requires n > 0
    ensures PowerOfTwo(n) <==> PowerOfTwo(2 * n)
  {
    assert 2 * n / 2 == n;
  }

  lemma SmallPowers()
    ensures PowerOfTwo(2) && PowerOfTwo(8) && PowerOfTwo(0x10) && PowerOfTwo(0x20) && PowerOfTwo(0x80)
    ensures PowerOfTwo(0x100) && !PowerOfTwo(0x30)
  {
    Doubled(1);
    Doubled(2);
    Doubled(4);
    Doubled(8);
    Doubled(0x10);
    Doubled(0x20);
    Doubled(0x40);
    Doubled(0x80);
    Doubled(3);
    Doubled(6);
    Doubled(0xC);
    Doubled(0x18);
  }

  /** The usual bit trick: n & (n - 1) clears the lowest set bit. */
  lemma {:induction false} SingleBit(n: nat)
    requires n > 0
    ensures And(n, n - 1) == 0 <==> PowerOfTwo(n)
    decreases n
  {
    if n > 1 {
      if n % 2 == 0 {
        SingleBit(n / 2);
        assert (n - 1) / 2 == n / 2 - 1 && (n - 1) % 2 == 1;
      } else {
        assert (n - 1) / 2 == n / 2;
        AndSelf(n / 2);
      }
    }
  }

  lemma {:induction false} AndSelf(n: nat)
    ensures And(n, n) == n
    decreases n
  {
    if n > 0 {
      AndSelf(n / 2);
    }
  }

  lemma AndByHalves(a: nat, b: nat)
    requires b % 2 == 1
    ensures And(a, b) == 2 * And(a / 2, b / 2) + a % 2
  {}

  /** Masking with one less than a power of two takes the remainder. */
  lemma {:induction false} LowBits(a: nat, n: nat)
    requires PowerOfTwo(n)
    ensures And(a, n - 1) == a % n
    decreases n
  {
    if n > 1 && a > 0 {
      var h := n / 2;
      assert (n - 1) / 2 == h - 1 && (n - 1) % 2 == 1;
      AndByHalves(a, n - 1);
      LowBits(a / 2, h);
      RemainderByHalves(a, h);
      assert n == 2 * h;
    }
  }

  /** Masking with a power of two tells whether its bit is set. */
  lemma {:induction false} MaskBit(a: nat, p: nat)
    requires PowerOfTwo(p)
    ensures And(a, p) == if a / p % 2 == 1 then p else 0
    decreases p
  {
    if p == 1 {
      assert a / 1 == a;
      assert And(a, 1) == 2 * And(a / 2, 0) + a % 2 || a == 0;
    } else {
      var h := p / 2;
      MaskBit(a / 2, h);
      QuotientByHalves(a, h);
      assert p == 2 * h && p % 2 == 0;
    }
  }

  lemma QuotientByHalves(a: nat, h: nat)
    requires h > 0
    ensures a / (2 * h) == a / 2 / h
  {
    var q, r := a / 2 / h, a / 2 % h;
    assert a / 2 == q * h + r;
    assert a == q * (2 * h) + (2 * r + a % 2);
    QuotientIs(a, 2 * h, q, 2 * r + a % 2);
  }

  lemma QuotientIs(a: nat, d: nat, q: nat, r: nat)
    requires a == q * d + r && r < d
    ensures a / d == q && a % d == r
  {
    RemainderUnique(a, d, q, r);
    assert (a / d) * d + a % d == a;
    SmallMultiple(a / d - q, d, 0);
  }

  lemma RemainderByHalves(a: nat, h: nat)
    requires h > 0
    ensures a % (2 * h) == 2 * (a / 2 % h) + a % 2
  {
    var q, r := a / 2 / h, a / 2 % h;
    assert a / 2 == q * h + r;
    assert a == q * (2 * h) + (2 * r + a % 2);
    RemainderUnique(a, 2 * h, q, 2 * r + a % 2);
  }

  lemma RemainderUnique(a: nat, d: nat, q: nat, r: nat)
    requires a == q * d + r && r < d
    ensures a % d == r
  {
    SmallMultiple(a / d - q, d, r - a % d);
  }

  /** A multiple of d that is smaller than d in size is zero. */
  lemma SmallMultiple(x: int, d: int, e: int)
    requires x * d == e && -d < e < d
    ensures x == 0
  {
    MultipleGrows(x, d);
    MultipleGrows(-x, d);
  }

  lemma MultipleGrows(x: int, d: int)
    requires 0 <= d
    ensures 1 <= x ==> d <= x * d
  {}

  lemma AndNibbles(a: nat, b: nat, c: nat, d: nat)
    requires a < 0x10 && c < 0x10
    ensures And(a + 0x10 * b, c + 0x10 * d) == And(a, c) + 0x10 * And(b, d)
  {
    hide And;
    var z := And(b, d);
    AndNothing(0);
    assert a / 8 / 2 == 0 && a / 4 / 2 == a / 8 && a / 2 / 2 == a / 4;
    assert c / 8 / 2 == 0 && c / 4 / 2 == c / 8 && c / 2 / 2 == c / 4;
    PartsByHalves(a / 8, b, c / 8, d, z);
    PartsByHalves(a / 4, 2 * b, c / 4, 2 * d, 2 * z);
    PartsByHalves(a / 2, 4 * b, c / 2, 4 * d, 4 * z);
    PartsByHalves(a, 8 * b, c, 8 * d, 8 * z);
  }

  /** The lowest byte is masked by the lowest byte of the mask, the rest by the rest. */
  lemma AndBytes(a: nat, b: nat, c: nat, d: nat)
    requires a < 0x100 && c < 0x100
    ensures And(a + 0x100 * b, c + 0x100 * d) == And(a, c) + 0x100 * And(b, d)
  {
    hide And;
    var a0, a1, c0, c1 := a % 0x10, a / 0x10, c % 0x10, c / 0x10;
    assert a == a0 + 0x10 * a1 && c == c0 + 0x10 * c1;
    AndNibbles(a0, a1, c0, c1);
    AndNibbles(a1, b, c1, d);
    AndNibbles(a0, a1 + 0x10 * b, c0, c1 + 0x10 * d);
  }

  lemma PartsByHalves(a: nat, x: nat, c: nat, y: nat, z: nat)
    requires And(a / 2 + x, c / 2 + y) == And(a / 2, c / 2) + z
    ensures And(a + 2 * x, c + 2 * y) == And(a, c) + 2 * z
  {
    hide And;
    AndUnfolds(a + 2 * x, c + 2 * y);
    AndUnfolds(a, c);
    assert (a + 2 * x) / 2 == a / 2 + x && (c + 2 * y) / 2 == c / 2 + y;
  }

  lemma AndUnfolds(a: nat, b: nat)
    ensures And(a, b) == 2 * And(a / 2, b / 2) + if a % 2 == 1 && b % 2 == 1 then 1 else 0
  {}

  /** The bits of a byte with odd numbers. */
  function OddBits(b: nat): (r: nat)
    ensures r < 0x100
  {
    (if b / 128 % 2 == 1 then 0x80 else 0) + (if b / 32 % 2 == 1 then 0x20 else 0) + (if b / 8 % 2 == 1 then 8 else 0)
    + (if b / 2 % 2 == 1 then 2 else 0)
  }

  lemma MaskOddBits(b: nat)
    requires b < 0x100
    ensures And(b, 0xAA) == OddBits(b)
  {
    hide And;
    Pair(b, 0x2A);
    Pair(b / 4, 0xA);
    Pair(b / 16, 2);
    Pair(b / 64, 0);
    AndNothing(b / 256);
    assert b / 4 / 4 == b / 16 && b / 16 / 4 == b / 64 && b / 64 / 4 == b / 256;
    assert b / 4 / 2 == b / 8 && b / 16 / 2 == b / 32 && b / 64 / 2 == b / 128;
  }

  lemma AndNothing(a: nat)
    ensures And(a, 0) == 0
  {}

  /** The two lowest bits of a mask that takes the second of them. */
  lemma Pair(b: nat, m: nat)
    ensures And(b, 4 * m + 2) == 4 * And(b / 4, m) + if b / 2 % 2 == 1 then 2 else 0
  {
    hide And;
    AndUnfolds(b, 4 * m + 2);
    AndUnfolds(b / 2, 2 * m + 1);
    assert b / 2 / 2 == b / 4;
  }
}
