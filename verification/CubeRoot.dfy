/**
 The number theory of boot/fakesign.py: cube roots modulo a power of two, and the search that
 makes a digest odd so that the root exists. The digest itself is an arbitrary function.
 */
module CubeRoot {
  import opened Bytes
  import opened BitMath

  // ----- powers and congruence

  function Pow(b: int, e: nat): int
    decreases e
  {
    if e == 0 then 1 else b * Pow(b, e - 1)
  }

  function Pow2(n: nat): (p: nat)
    ensures p > 0
  {
    if n == 0 then 1 else 2 * Pow2(n - 1)
  }

  /** a and b leave the same remainder modulo m. */
  ghost predicate Congruent(a: int, b: int, m: nat)
    requires m > 0
  {
    exists k: int :: Quotient(a, b, m, k)
  }

  ghost predicate Quotient(a: int, b: int, m: nat, k: int) {
    a == b + k * m
  }

  lemma SameRemainder(a: int, b: int, m: nat)
    requires m > 0
    ensures Congruent(a, b, m) <==> a % m == b % m
  {
    if a % m == b % m {
      assert a == (a / m) * m + a % m && b == (b / m) * m + b % m;
      Distribute(a / m, b / m, m);
      assert Quotient(a, b, m, a / m - b / m);
    }
    if Congruent(a, b, m) {
      var k :| Quotient(a, b, m, k);
      Distribute(a / m, b / m + k, m);
      Distribute(b / m + k, k, m);
      SmallMultiple(a / m - (b / m + k), m, b % m - a % m);
    }
  }

  lemma Distribute(x: int, y: int, m: int)
    ensures (x - y) * m == x * m - y * m
  {}

  lemma CongruentRefl(a: int, m: nat)
    requires m > 0
    ensures Congruent(a, a, m)
  {
    assert Quotient(a, a, m, 0);
  }

  lemma CongruentMul(a: int, b: int, c: int, d: int, m: nat)
    requires m > 0 && Congruent(a, b, m) && Congruent(c, d, m)
    ensures Congruent(a * c, b * d, m)
  {
    var j :| Quotient(a, b, m, j);
    var k :| Quotient(c, d, m, k);
    var q := j * c + b * k;
    assert a * c == b * d + q * m by {
      MulShift(b, j, m, c);
      MulShift2(b, d, k, m, j, c);
    }
    assert Quotient(a * c, b * d, m, q);
  }

  lemma MulShift(b: int, j: int, m: int, c: int)
    ensures (b + j * m) * c == b * c + (j * c) * m
  {
    assert (b + j * m) * c == b * c + (j * m) * c;
    assert (j * m) * c == (j * c) * m;
  }

  lemma MulShift2(b: int, d: int, k: int, m: int, j: int, c: int)
    requires c == d + k * m
    ensures b * c + (j * c) * m == b * d + (j * c + b * k) * m
  {
    assert b * c == b * d + b * (k * m);
    assert b * (k * m) == (b * k) * m;
    assert (j * c + b * k) * m == (j * c) * m + (b * k) * m;
  }

  lemma CongruentTrans(a: int, b: int, c: int, m: nat)
    requires m > 0 && Congruent(a, b, m) && Congruent(b, c, m)
    ensures Congruent(a, c, m)
  {
    SameRemainder(a, b, m);
    SameRemainder(b, c, m);
    SameRemainder(a, c, m);
  }

  lemma CongruentSym(a: int, b: int, m: nat)
    requires m > 0 && Congruent(a, b, m)
    ensures Congruent(b, a, m)
  {
    SameRemainder(a, b, m);
    SameRemainder(b, a, m);
  }

  lemma {:induction false} CongruentPow(a: int, b: int, e: nat, m: nat)
    requires m > 0 && Congruent(a, b, m)
    ensures Congruent(Pow(a, e), Pow(b, e), m)
    decreases e
  {
    hide Congruent;
    if e == 0 {
      CongruentRefl(1, m);
    } else {
      CongruentPow(a, b, e - 1, m);
      CongruentMul(a, b, Pow(a, e - 1), Pow(b, e - 1), m);
    }
  }

  lemma {:induction false} PowAdd(b: int, m: nat, n: nat)
    ensures Pow(b, m + n) == Pow(b, m) * Pow(b, n)
    decreases m
  {
    if m > 0 {
      PowAdd(b, m - 1, n);
      assert b * (Pow(b, m - 1) * Pow(b, n)) == (b * Pow(b, m - 1)) * Pow(b, n);
    }
  }

  lemma PowCube(b: int, e: nat)
    ensures Pow(b, 3 * e) == Pow(b, e) * Pow(b, e) * Pow(b, e)
  {
    PowAdd(b, e, e);
    PowAdd(b, e + e, e);
  }

  lemma {:induction false} PowProduct(a: int, b: int, e: nat)
    ensures Pow(a * b, e) == Pow(a, e) * Pow(b, e)
    decreases e
  {
    if e > 0 {
      PowProduct(a, b, e - 1);
      Regroup(a, b, Pow(a, e - 1), Pow(b, e - 1));
    }
  }

  lemma Regroup(a: int, b: int, x: int, y: int)
    ensures (a * b) * (x * y) == (a * x) * (b * y)
  {
    assert (a * b) * (x * y) == a * (b * (x * y));
    assert b * (x * y) == x * (b * y);
    assert a * (x * (b * y)) == (a * x) * (b * y);
  }

  lemma PowThree(b: int)
    ensures Pow(b, 3) == b * b * b
  {
    assert Pow(b, 3) == b * (b * (b * 1));
  }

  // ----- the exponent of the odd residues

  /** An odd number raised to 2^(n-2) is 1 modulo 2^n. */
  lemma {:induction false} OddPower(t: int, n: nat)
    requires t % 2 == 1 && n >= 3
    ensures Congruent(Pow(t, Pow2(n - 2)), 1, Pow2(n))
    decreases n
  {
    hide Congruent, Pow;
    if n == 3 {
      OddSquare(t);
    } else {
      var e, h := Pow2(n - 3), Pow2(n - 2);
      OddPower(t, n - 1);
      assert h == e + e;
      assert Pow2(n - 1) == 2 * h && Pow2(n) == 2 * (2 * h);
      PowAdd(t, e, e);
      SquareLifts(Pow(t, e), h);
    }
  }

  lemma OddSquare(t: int)
    requires t % 2 == 1
    ensures Congruent(Pow(t, Pow2(1)), 1, Pow2(3))
  {
    var h := t / 2;
    assert t == 2 * h + 1;
    assert Pow2(1) == 2 && Pow2(3) == 8;
    assert Pow(t, 2) == t * (t * 1);
    assert t * t == 4 * (h * (h + 1)) + 1 by { Square(h); }
    var c := HalfOfConsecutive(h);
    assert Quotient(Pow(t, 2), 1, 8, c);
  }

  lemma Square(h: int)
    ensures (2 * h + 1) * (2 * h + 1) == 4 * (h * (h + 1)) + 1
  {}

  lemma HalfOfConsecutive(h: int) returns (c: int)
    ensures h * (h + 1) == 2 * c
  {
    if h % 2 == 0 {
      c := h / 2 * (h + 1);
      assert h == 2 * (h / 2);
      assert 2 * (h / 2) * (h + 1) == 2 * (h / 2 * (h + 1));
    } else {
      c := h * ((h + 1) / 2);
      assert h + 1 == 2 * ((h + 1) / 2);
      assert h * (2 * ((h + 1) / 2)) == 2 * (h * ((h + 1) / 2));
    }
  }

  /** Squaring a number that is 1 modulo an even modulus doubles the modulus. */
  lemma SquareLifts(x: int, h: nat)
    requires h > 0 && Congruent(x, 1, 2 * h)
    ensures Congruent(x * x, 1, 2 * (2 * h))
  {
    var k :| Quotient(x, 1, 2 * h, k);
    SquareOfShift(k, h);
    assert Quotient(x * x, 1, 2 * (2 * h), k + k * k * h);
  }

  lemma SquareOfShift(k: int, h: int)
    ensures (1 + k * (2 * h)) * (1 + k * (2 * h)) == 1 + (k + k * k * h) * (2 * (2 * h))
  {
    var y := k * h;
    assert k * (2 * h) == 2 * y;
    assert (1 + 2 * y) * (1 + 2 * y) == 1 + 4 * y + 4 * (y * y);
    assert (k + k * k * h) * (2 * (2 * h)) == 4 * y + 4 * ((k * k * h) * h) by {
      assert (k + k * k * h) * (4 * h) == k * (4 * h) + (k * k * h) * (4 * h);
      assert k * (4 * h) == 4 * y;
      assert (k * k * h) * (4 * h) == 4 * ((k * k * h) * h);
    }
    assert (k * k * h) * h == y * y by {
      assert (k * k * h) * h == k * (k * h) * h;
      assert k * (k * h) * h == (k * h) * (k * h);
    }
  }

  // ----- the inverse of three and the cube root

  /** pow(3, -1, 2^(n-1)) for even n. */
  function InverseOfThree(n: nat): nat
    requires n > 0
  {
    (Pow2(n - 1) + 1) / 3
  }

  lemma {:induction false} Pow2ModThree(n: nat)
    ensures Pow2(n) % 3 == if n % 2 == 0 then 1 else 2
    decreases n
  {
    if n > 0 {
      Pow2ModThree(n - 1);
      DoubleModThree(Pow2(n - 1));
    }
  }

  lemma DoubleModThree(p: nat)
    ensures p % 3 == 1 ==> 2 * p % 3 == 2
    ensures p % 3 == 2 ==> 2 * p % 3 == 1
  {
    var q := p / 3;
    assert p == q * 3 + p % 3;
    if p % 3 == 1 {
      RemainderUnique(2 * p, 3, 2 * q, 2);
    } else if p % 3 == 2 {
      RemainderUnique(2 * p, 3, 2 * q + 1, 1);
    }
  }

  lemma InverseOfThreeCorrect(n: nat)
    requires n >= 2 && n % 2 == 0
    ensures 3 * InverseOfThree(n) == Pow2(n - 1) + 1
    ensures InverseOfThree(n) < Pow2(n - 1)
    ensures 3 * InverseOfThree(n) % Pow2(n - 1) == 1
  {
    hide Pow2;
    assert (n - 1) % 2 == 1;
    Pow2ModThree(n - 1);
    ThirdOfSuccessor(Pow2(n - 1));
  }

  lemma ThirdOfSuccessor(m: nat)
    requires m % 3 == 2
    ensures 3 * ((m + 1) / 3) == m + 1 && (m + 1) / 3 < m && (m + 1) % m == 1
  {
    RemainderUnique(m + 1, m, 1, 1);
  }

  /** Cubing then raising to the inverse of three is the identity on odd residues. */
  lemma CubeThenRoot(s: int, n: nat)
    requires n >= 4 && n % 2 == 0 && s % 2 == 1
    ensures Congruent(Pow(s * s * s, InverseOfThree(n)), s, Pow2(n))
    ensures Congruent(Pow(Pow(s, InverseOfThree(n)), 3), s, Pow2(n))
  {
    hide Congruent;
    var d, m, h := InverseOfThree(n), Pow2(n), Pow2(n - 2);
    InverseOfThreeCorrect(n);
    assert 3 * d == 1 + (h + h);
    PowAdd(s, 1, h + h);
    PowAdd(s, h, h);
    assert Pow(s, 1) == s * 1;
    OddPower(s, n);
    var x := Pow(s, h);
    CongruentMul(x, 1, x, 1, m);
    CongruentRefl(s, m);
    CongruentMul(s, s, x * x, 1, m);
    assert s * (1 * 1) == s;
    assert Pow(s, 3 * d) == s * (x * x);
    PowCube(s, d);
    PowThree(Pow(s, d));
    PowProduct(s, s, d);
    PowProduct(s * s, s, d);
  }

  /** The root boot/fakesign.py computes, for a modulus of 2^n; None stands for its ValueError. */
  function Root(target: nat, n: nat): Option<nat>
    requires n > 0
  {
    if target % 2 == 0 then None
    else Some(Pow(target % Pow2(n), InverseOfThree(n)) % Pow2(n))
  }

  lemma OddMod(t: nat, n: nat)
    requires n > 0
    ensures t % Pow2(n) % 2 == t % 2
  {
    EvenModulus(t, Pow2(n - 1));
  }

  lemma EvenModulus(t: nat, h: nat)
    requires h > 0
    ensures t % (2 * h) % 2 == t % 2
  {
    RemainderByHalves(t, h);
    var r := t / 2 % h;
    assert (2 * r + t % 2) % 2 == t % 2;
  }

  lemma OddCube(u: int)
    ensures u % 2 == 0 ==> u * u * u % 2 == 0
  {
    if u % 2 == 0 {
      var h := u / 2;
      assert u == 2 * h;
      assert u * u * u == 2 * (h * u * u);
    }
  }

  /** For every odd target the computed number is a cube root modulo 2^n, and the only one. */
  lemma RootIsUniqueCubeRoot(target: nat, n: nat)
    requires n >= 4 && n % 2 == 0 && target % 2 == 1
    ensures Root(target, n).Some?
    ensures var s, m := Root(target, n).value, Pow2(n);
            && s < m
            && s * s * s % m == target % m
            && (forall u: nat :: u < m && u * u * u % m == target % m ==> u == s)
  {
    hide Congruent;
    var m, d := Pow2(n), InverseOfThree(n);
    var t := target % m;
    OddMod(target, n);
    var s := Pow(t, d) % m;
    CubeThenRoot(t, n);
    SameRemainder(Pow(t, d), s, m);
    RemainderStays(Pow(t, d), m);
    CongruentSym(Pow(t, d), s, m);
    CongruentPow(s, Pow(t, d), 3, m);
    CongruentTrans(Pow(s, 3), Pow(Pow(t, d), 3), t, m);
    PowThree(s);
    SameRemainder(s * s * s, t, m);
    RemainderStays(target, m);
    forall u: nat | u < m && u * u * u % m == t
      ensures u == s
    {
      OnlyRoot(u, target, n);
    }
  }

  lemma RemainderStays(a: int, m: nat)
    requires m > 0
    ensures a % m % m == a % m
  {
    RemainderUnique(a % m, m, 0, a % m);
  }

  lemma OnlyRoot(u: nat, target: nat, n: nat)
    requires n >= 4 && n % 2 == 0 && target % 2 == 1
    requires u < Pow2(n) && u * u * u % Pow2(n) == target % Pow2(n)
    ensures u == Pow(target % Pow2(n), InverseOfThree(n)) % Pow2(n)
  {
    hide Congruent;
    var m, d := Pow2(n), InverseOfThree(n);
    var t := target % m;
    OddMod(target, n);
    assert 0 <= u * u * u by { assert 0 <= u * u; }
    OddMod(u * u * u, n);
    OddCube(u);
    CubeThenRoot(u, n);
    RemainderStays(u * u * u, m);
    SameRemainder(u * u * u, t, m);
    CongruentPow(u * u * u, t, d, m);
    CongruentSym(Pow(u * u * u, d), Pow(t, d), m);
    CongruentTrans(Pow(t, d), Pow(u * u * u, d), u, m);
    SameRemainder(Pow(t, d), u, m);
    RemainderUnique(u, m, 0, u);
  }

  // ----- which targets have a root at all

  ghost predicate IsRoot(u: nat, target: nat, n: nat) {
    u < Pow2(n) && u * u * u % Pow2(n) == target % Pow2(n)
  }

  /** The exponent of 2 in t. */
  function TwoExponent(t: nat): nat
    requires t > 0
  {
    if t % 2 == 1 then 0 else 1 + TwoExponent(t / 2)
  }

  function OddPart(t: nat): (w: nat)
    requires t > 0
    ensures w % 2 == 1
  {
    if t % 2 == 1 then t else OddPart(t / 2)
  }

  lemma {:induction false} TwoSplit(t: nat)
    requires t > 0
    ensures t == Pow2(TwoExponent(t)) * OddPart(t)
    decreases t
  {
    if t % 2 == 0 {
      TwoSplit(t / 2);
      var p, w := Pow2(TwoExponent(t / 2)), OddPart(t / 2);
      assert t == 2 * (t / 2);
      assert 2 * (p * w) == (2 * p) * w;
    }
  }

  lemma {:induction false} TwoSplitUnique(j: nat, w: nat)
    requires w % 2 == 1
    ensures Pow2(j) * w > 0 && TwoExponent(Pow2(j) * w) == j
    decreases j
  {
    if j == 0 {
      assert Pow2(0) * w == w;
    } else {
      TwoSplitUnique(j - 1, w);
      var h := Pow2(j - 1) * w;
      assert Pow2(j) * w == 2 * h;
    }
  }

  lemma DoubleProduct(x: int, y: int)
    ensures 2 * (x * y) == (2 * x) * y
  {}

  lemma {:induction false} Pow2Add(a: nat, b: nat)
    ensures Pow2(a + b) == Pow2(a) * Pow2(b)
    decreases a
  {
    if a > 0 {
      Pow2Add(a - 1, b);
      DoubleProduct(Pow2(a - 1), Pow2(b));
      assert Pow2(a) == 2 * Pow2(a - 1);
      assert Pow2(a + b) == 2 * Pow2(a - 1 + b);
    } else {
      assert 1 * Pow2(b) == Pow2(b);
    }
  }

  lemma Pow2Cube(k: nat)
    ensures Pow2(3 * k) == Pow2(k) * Pow2(k) * Pow2(k)
  {
    Pow2Add(k, k);
    Pow2Add(k + k, k);
  }

  lemma CubeOfProduct(p: int, s: int)
    ensures (p * s) * (p * s) * (p * s) == (p * p * p) * (s * s * s)
  {
    assert (p * s) * (p * s) == (p * p) * (s * s) by { Regroup(p, s, p, s); }
    Regroup(p * p, s * s, p, s);
  }

  lemma CubeCongruent(a: int, b: int, m: nat)
    requires m > 0 && Congruent(a, b, m)
    ensures Congruent(a * a * a, b * b * b, m)
  {
    hide Congruent;
    CongruentMul(a, b, a, b, m);
    CongruentMul(a * a, b * b, a, b, m);
  }

  lemma CubeNonnegative(u: nat)
    ensures 0 <= u * u * u
  {
    assert 0 <= u * u;
  }

  /** An exponent that is a multiple of three: scale the root of the odd part. */
  lemma ScaledRoot(target: nat, n: nat, k: nat) returns (u: nat)
    requires n >= 4 && n % 2 == 0 && target % Pow2(n) > 0 && TwoExponent(target % Pow2(n)) == 3 * k
    ensures IsRoot(u, target, n)
  {
    hide Congruent, Pow2, TwoExponent, OddPart;
    var m, t := Pow2(n), target % Pow2(n);
    var w, p := OddPart(t), Pow2(k);
    TwoSplit(t);
    Pow2Cube(k);
    RootIsUniqueCubeRoot(w, n);
    var s := Root(w, n).value;
    SameRemainder(s * s * s, w, m);
    CongruentRefl(p * p * p, m);
    CongruentMul(p * p * p, p * p * p, s * s * s, w, m);
    CubeOfProduct(p, s);
    u := (p * s) % m;
    RemainderStays(p * s, m);
    SameRemainder(u, p * s, m);
    CubeCongruent(u, p * s, m);
    CongruentTrans(u * u * u, (p * s) * (p * s) * (p * s), t, m);
    SameRemainder(u * u * u, t, m);
    RemainderStays(target, m);
  }

  lemma CubeOdd(s: nat)
    requires s % 2 == 1
    ensures s * s * s % 2 == 1
  {
    OddTimesOdd(s, s);
    OddTimesOdd(s * s, s);
  }

  lemma OddProduct(h: int, k: int)
    ensures (2 * h + 1) * (2 * k + 1) == 2 * (2 * (h * k) + h + k) + 1
  {}

  lemma OddTimesOdd(x: nat, y: nat)
    requires x % 2 == 1 && y % 2 == 1
    ensures x * y % 2 == 1
  {
    var h, k := x / 2, y / 2;
    assert x == 2 * h + 1 && y == 2 * k + 1;
    OddProduct(h, k);
    OddForm(x * y, 2 * (h * k) + h + k);
  }

  lemma OddForm(z: int, k: int)
    requires z == 2 * k + 1
    ensures z % 2 == 1
  {}

  lemma CubeSplit(u: nat)
    requires u > 0
    ensures var w := OddPart(u) * OddPart(u) * OddPart(u);
            w > 0 && w % 2 == 1 && u * u * u == Pow2(3 * TwoExponent(u)) * w
  {
    hide Pow2, TwoExponent, OddPart;
    var p, s := Pow2(TwoExponent(u)), OddPart(u);
    TwoSplit(u);
    CubeOfProduct(p, s);
    Pow2Cube(TwoExponent(u));
    CubeOdd(s);
    CubeNonnegative(s);
  }

  /** Conversely the exponent of a nonzero cube's remainder is a multiple of three. */
  lemma RootExponent(u: nat, target: nat, n: nat)
    requires IsRoot(u, target, n) && target % Pow2(n) > 0
    ensures TwoExponent(target % Pow2(n)) % 3 == 0
  {
    hide Pow2, TwoExponent, OddPart;
    var m, t := Pow2(n), target % Pow2(n);
    if u == 0 {
      assert 0 % m == 0 by { RemainderUnique(0, m, 0, 0); }
      assert false;
    } else {
      CubeSplit(u);
      CubeNonnegative(u);
      RemainderExponent(u * u * u, 3 * TwoExponent(u), OddPart(u) * OddPart(u) * OddPart(u), n);
    }
  }

  /** Taking the remainder by 2^n keeps a smaller exponent of 2, or leaves nothing. */
  lemma RemainderExponent(x: nat, e: nat, w: nat, n: nat)
    requires w % 2 == 1 && x == Pow2(e) * w
    ensures x % Pow2(n) > 0 ==> TwoExponent(x % Pow2(n)) == e
  {
    hide Pow2, TwoExponent;
    var m := Pow2(n);
    var q, t := x / m, x % m;
    assert x == q * m + t;
    if e >= n {
      Pow2Add(e - n, n);
      var z := Pow2(e - n) * w;
      assert (Pow2(e - n) * m) * w == z * m by { Rotate(Pow2(e - n), m, w); }
      NonnegativeProduct(Pow2(e - n), w);
      RemainderUnique(x, m, z, 0);
    } else if t > 0 {
      Pow2Add(e, n - e);
      var d, h := Pow2(e), Pow2(n - e);
      assert q * (d * h) == d * (q * h) by { Rotate(d, h, q); }
      var v := w - q * h;
      assert t == d * v by { Difference(d, w, q * h); }
      PositiveFactor(d, v);
      EvenPower(n - e);
      OddLessEven(w, q, h);
      TwoSplitUnique(e, v);
    }
  }

  lemma Rotate(a: int, b: int, c: int)
    ensures (a * b) * c == (a * c) * b
    ensures c * (a * b) == a * (c * b)
  {}

  lemma NonnegativeProduct(a: nat, b: nat)
    ensures 0 <= a * b
  {}

  lemma Difference(d: int, a: int, b: int)
    ensures d * a - d * b == d * (a - b)
  {}

  lemma PositiveFactor(d: nat, v: int)
    requires d * v > 0
    ensures v > 0
  {}

  lemma EvenPower(k: nat)
    requires k > 0
    ensures Pow2(k) % 2 == 0
  {
    RemainderUnique(Pow2(k), 2, Pow2(k - 1), 0);
  }

  lemma OddLessEven(w: nat, q: nat, h: nat)
    requires w % 2 == 1 && h % 2 == 0
    ensures (w - q * h) % 2 == 1
  {
    assert h == 2 * (h / 2);
    assert q * (2 * (h / 2)) == 2 * (q * (h / 2));
  }

  /** Exactly which targets have a cube root modulo 2^n. */
  lemma RootExistsIff(target: nat, n: nat)
    requires n >= 4 && n % 2 == 0
    ensures (exists u: nat :: IsRoot(u, target, n))
       <==> target % Pow2(n) == 0 || TwoExponent(target % Pow2(n)) % 3 == 0
  {
    hide Pow2, TwoExponent, IsRoot;
    var t := target % Pow2(n);
    if u: nat :| IsRoot(u, target, n) {
      if t > 0 {
        RootExponent(u, target, n);
      }
    }
    if t == 0 {
      ZeroIsRoot(target, n);
    } else if TwoExponent(t) % 3 == 0 {
      var u := ScaledRoot(target, n, TwoExponent(t) / 3);
    }
  }

  lemma ZeroIsRoot(target: nat, n: nat)
    requires target % Pow2(n) == 0
    ensures IsRoot(0, target, n)
  {
    RemainderUnique(0, Pow2(n), 0, 0);
  }

  // ----- how many

  ghost predicate OnlyRootIs(u: nat, target: nat, n: nat) {
    IsRoot(u, target, n) && forall v: nat :: IsRoot(v, target, n) ==> v == u
  }

  /** The other root of an even cube: half the modulus away. */
  lemma SecondRoot(u: nat, target: nat, n: nat) returns (v: nat)
    requires n >= 2 && target % 2 == 0 && IsRoot(u, target, n)
    ensures v != u && IsRoot(v, target, n)
  {
    hide Congruent;
    var m, h := Pow2(n), Pow2(n - 1);
    assert m == 2 * h;
    CubeNonnegative(u);
    OddMod(u * u * u, n);
    OddMod(target, n);
    if u % 2 == 1 {
      CubeOdd(u);
      assert false;
    }
    v := if u < h then u + h else u - h;
    HalfwayCube(u, n);
    RemainderStays(u + h, m);
    if u < h {
      assert v == u + h;
    } else {
      assert u + h == v + 1 * m;
    }
    SameRemainder((u + h) * (u + h) * (u + h), u * u * u, m);
    ByQuotient(v, u + h, m, if u < h then 0 else -1);
    CubeCongruent(v, u + h, m);
    CongruentTrans(v * v * v, (u + h) * (u + h) * (u + h), u * u * u, m);
    SameRemainder(v * v * v, u * u * u, m);
  }

  lemma HalfFactor(u: int, h: int, a: int, g: int)
    requires u == 2 * a && h == 2 * g
    ensures 3 * (u * u) + 3 * (u * h) + h * h == 2 * (3 * (u * a) + 3 * (a * h) + g * h)
  {
    assert u * u == 2 * (u * a);
    assert u * h == 2 * (a * h);
    assert h * h == 2 * (g * h);
  }

  lemma MoveTwo(k: int, h: int)
    ensures (2 * k) * h == k * (2 * h)
  {}

  /** Moving an even number by half the modulus does not change its cube. */
  lemma HalfwayCube(u: nat, n: nat)
    requires n >= 2 && u % 2 == 0
    ensures Congruent((u + Pow2(n - 1)) * (u + Pow2(n - 1)) * (u + Pow2(n - 1)), u * u * u, Pow2(n))
  {
    hide Congruent, Quotient;
    var m, h, g, a := Pow2(n), Pow2(n - 1), Pow2(n - 2), u / 2;
    var k := 3 * (u * a) + 3 * (a * h) + g * h;
    CubeExpansion(u, h);
    HalfFactor(u, h, a, g);
    MoveTwo(k, h);
    ByQuotient((u + h) * (u + h) * (u + h), u * u * u, m, k);
  }

  lemma ByQuotient(a: int, b: int, m: nat, k: int)
    requires m > 0 && a == b + k * m
    ensures Congruent(a, b, m)
  {
    assert Quotient(a, b, m, k);
  }

  lemma CubeExpansion(u: int, h: int)
    ensures (u + h) * (u + h) * (u + h) == u * u * u + (3 * (u * u) + 3 * (u * h) + h * h) * h
  {
    assert (u + h) * (u + h) == u * u + 2 * (u * h) + h * h;
    assert (u * u + 2 * (u * h) + h * h) * (u + h)
        == (u * u) * u + (2 * (u * h)) * u + (h * h) * u + (u * u) * h + (2 * (u * h)) * h + (h * h) * h;
    assert (u * h) * u == (u * u) * h && (h * h) * u == (u * h) * h;
  }

  /** The guard of boot/fakesign.py in one line: a root is unique exactly for odd targets. */
  lemma UniqueRootIff(target: nat, n: nat)
    requires n >= 4 && n % 2 == 0
    ensures (exists u: nat :: OnlyRootIs(u, target, n)) <==> target % 2 == 1
    ensures Root(target, n).Some? <==> target % 2 == 1
  {
    hide Pow2, Pow;
    if target % 2 == 1 {
      RootIsUniqueCubeRoot(target, n);
      assert OnlyRootIs(Root(target, n).value, target, n);
    } else {
      forall u: nat | IsRoot(u, target, n)
        ensures !OnlyRootIs(u, target, n)
      {
        var v := SecondRoot(u, target, n);
      }
    }
  }

  /** The witness: 8 is refused although 2 is a root. */
  lemma EvenTargetWithRoot(n: nat)
    requires n >= 4
    ensures Root(8, n) == None
    ensures IsRoot(2, 8, n)
  {
    assert Pow2(n) == 4 * Pow2(n - 2);
  }

  // ----- making the digest odd

  /** int.from_bytes(hash, "big"). */
  function FromBigEndian(hash: seq<Byte>): nat {
    if hash == [] then 0 else 0x100 * FromBigEndian(hash[..|hash| - 1]) + hash[|hash| - 1]
  }

  /** Place value: the first byte counts 256 to the power of the number of bytes after it. */
  lemma {:induction false} BigEndianPlaces(b: Byte, rest: seq<Byte>)
    ensures FromBigEndian([b] + rest) == b * Pow256(|rest|) + FromBigEndian(rest)
    decreases |rest|
  {
    var all := [b] + rest;
    if rest == [] {
      assert all == [b] && all[..0] == [];
      assert FromBigEndian(all[..0]) == 0;
    } else {
      var init := rest[..|rest| - 1];
      assert all[..|all| - 1] == [b] + init;
      BigEndianPlaces(b, init);
      assert 0x100 * (b * Pow256(|init|)) == b * Pow256(|rest|);
    }
  }

  predicate EndsOdd(digest: seq<Byte>) {
    digest != [] && digest[|digest| - 1] % 2 == 1
  }

  /** The loop's test on the last byte is the parity the root needs. */
  lemma OddDigestHasRoot(hash: seq<Byte>, n: nat)
    requires n >= 4 && n % 2 == 0
    ensures EndsOdd(hash) <==> Root(FromBigEndian(hash), n).Some?
  {
    hide Pow, Pow2;
    if hash != [] {
      EvenWeight(FromBigEndian(hash[..|hash| - 1]), hash[|hash| - 1]);
    }
  }

  lemma EvenWeight(high: nat, low: nat)
    ensures (0x100 * high + low) % 2 == low % 2
  {
    var q, r := 0x80 * high + low / 2, low % 2;
    assert low == 2 * (low / 2) + r;
    RemainderUnique(0x100 * high + low, 2, q, r);
  }

  /** `block` with one byte replaced. */
  function Patched(block: seq<Byte>, at: nat, value: Byte): seq<Byte>
    requires at < |block|
  {
    block[at := value]
  }

  /** Trying `value` at `offsets[k]` makes the digest odd. */
  ghost predicate Hits(block: seq<Byte>, offsets: seq<nat>, digest: seq<Byte> -> seq<Byte>, k: nat, value: nat)
    requires forall k :: 0 <= k < |offsets| ==> offsets[k] < |block|
  {
    k < |offsets| && value < 0x100 && EndsOdd(digest(Patched(block, offsets[k], value)))
  }

  /** No earlier attempt, in the order of offsets and then values, makes it odd. */
  ghost predicate NoHitBefore(block: seq<Byte>, offsets: seq<nat>, digest: seq<Byte> -> seq<Byte>, k: nat, value: nat)
    requires forall k :: 0 <= k < |offsets| ==> offsets[k] < |block|
  {
    forall j: nat, v: nat :: j < k || (j == k && v < value) ==> !Hits(block, offsets, digest, j, v)
  }

  /**
   make_hash_odd: on success exactly the first attempt that works has been made, every other byte
   being as it was; on failure, the source's ValueError, the block is unchanged and no attempt works.
   */
  method MakeHashOdd(block: array<Byte>, offsets: seq<nat>, digest: seq<Byte> -> seq<Byte>) returns (ok: bool)
    requires forall k :: 0 <= k < |offsets| ==> offsets[k] < block.Length
    modifies block
    ensures ok ==> EndsOdd(digest(block[..]))
    ensures ok ==> exists k: nat, v: nat :: Hits(old(block[..]), offsets, digest, k, v)
                     && NoHitBefore(old(block[..]), offsets, digest, k, v)
                     && block[..] == Patched(old(block[..]), offsets[k], v)
    ensures !ok ==> block[..] == old(block[..])
    ensures !ok ==> forall k: nat, v: nat :: !Hits(old(block[..]), offsets, digest, k, v)
  {
    ghost var start := block[..];
    for k := 0 to |offsets|
      invariant block[..] == start
      invariant NoHitBefore(start, offsets, digest, k, 0)
    {
      var at := offsets[k];
      var original := block[at];
      for i := 0 to 0x100
        invariant block[..] == Patched(start, at, block[at])
        invariant NoHitBefore(start, offsets, digest, k, i)
      {
        block[at] := i;
        assert block[..] == Patched(start, at, i);
        if EndsOdd(digest(block[..])) {
          assert Hits(start, offsets, digest, k, i);
          return true;
        }
      }
      block[at] := original;
      assert block[..] == start;
    }
    return false;
  }
}
