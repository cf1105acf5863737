/** Bytes, 32-bit words and their little-endian images, shared by every wire format below. */
module Bytes {
  datatype Option<+T> = None | Some(value: T)

  const WORD: nat := 0x1_0000_0000

  type Byte = b: int | 0 <= b < 0x100
  type Word32 = w: int | 0 <= w < 0x1_0000_0000

  function Word16(low: Byte, high: Byte): (w: nat)
    ensures w < 0x1_0000
  {
    low as int + 0x100 * (high as int)
  }

  /** Two bytes, least significant first. */
  function Le16(n: nat): (s: seq<Byte>)
    requires n < 0x1_0000
    ensures |s| == 2 && Word16(s[0], s[1]) == n
  {
    [n % 0x100, n / 0x100]
  }

  function Pow256(k: nat): (p: nat)
    ensures p > 0
  {
    if k == 0 then 1 else 0x100 * Pow256(k - 1)
  }

  /** The k low bytes of n, least significant first. */
  function LeBytes(n: nat, k: nat): (s: seq<Byte>)
    ensures |s| == k
  {
    if k == 0 then [] else [n % 0x100] + LeBytes(n / 0x100, k - 1)
  }

  /** The number whose bytes these are, least significant first. */
  function FromLe(s: seq<Byte>): (n: nat)
    ensures n < Pow256(|s|)
  {
    if s == [] then 0 else s[0] + 0x100 * FromLe(s[1..])
  }

  lemma {:induction false} LeRoundTrip(n: nat, k: nat)
    requires n < Pow256(k)
    ensures FromLe(LeBytes(n, k)) == n
    decreases k
  {
    if k > 0 {
      LeRoundTrip(n / 0x100, k - 1);
      assert LeBytes(n, k)[1..] == LeBytes(n / 0x100, k - 1);
    }
  }

  lemma {:induction false} FromLeInjective(s: seq<Byte>, t: seq<Byte>)
    requires |s| == |t| && FromLe(s) == FromLe(t)
    ensures s == t
    decreases |s|
  {
    if s != [] {
      FromLeInjective(s[1..], t[1..]);
      assert s == [s[0]] + s[1..] && t == [t[0]] + t[1..];
    }
  }

  /** Place value: every further byte counts 256 times as much as the one before. */
  lemma {:induction false} FromLeAppend(s: seq<Byte>, b: Byte)
    ensures FromLe(s + [b]) == FromLe(s) + b * Pow256(|s|)
    decreases |s|
  {
    if s == [] {
      assert (s + [b])[1..] == [];
    } else {
      assert (s + [b])[1..] == s[1..] + [b];
      FromLeAppend(s[1..], b);
      assert b * Pow256(|s|) == 0x100 * (b * Pow256(|s| - 1));
    }
  }

  /** The 16-bit forms are the general ones: the first byte counts once, the second 256 times. */
  lemma Word16Bytes(a: Byte, b: Byte)
    ensures Word16(a, b) == FromLe([a, b]) == a + 0x100 * b
  {
    assert [a, b][1..] == [b] && [b][1..] == [];
    assert FromLe([b]) == b + 0x100 * FromLe([]);
  }

  lemma Le16Bytes(a: Byte, b: Byte)
    ensures Le16(a + 0x100 * b) == [a, b] == LeBytes(a + 0x100 * b, 2)
  {
    var n := a + 0x100 * b;
    TwoDigits(a, b);
    OneByte(b);
    assert LeBytes(n, 2) == [n % 0x100] + LeBytes(n / 0x100, 1);
  }

  lemma TwoDigits(a: Byte, b: Byte)
    ensures (a + 0x100 * b) / 0x100 == b && (a + 0x100 * b) % 0x100 == a
  {}

  lemma OneByte(b: Byte)
    ensures LeBytes(b, 1) == [b]
  {
    assert LeBytes(b, 1) == [b % 0x100] + LeBytes(b / 0x100, 0);
  }

  /** The four bytes of a word, least significant first. */
  lemma Le32Bytes(a: Byte, b: Byte, c: Byte, d: Byte)
    ensures Le32(a + 0x100 * b + 0x1_0000 * c + 0x100_0000 * d) == [a, b, c, d]
    ensures FromLe([a, b, c, d]) == a + 0x100 * b + 0x1_0000 * c + 0x100_0000 * d
  {
    var n0, n1, n2 := b + 0x100 * c + 0x1_0000 * d, c + 0x100 * d, a + 0x100 * b + 0x1_0000 * c + 0x100_0000 * d;
    assert n2 % 0x100 == a && n2 / 0x100 == n0;
    assert n0 % 0x100 == b && n0 / 0x100 == n1;
    assert n1 % 0x100 == c && n1 / 0x100 == d;
    assert LeBytes(d, 1) == [d] + LeBytes(0, 0);
    assert LeBytes(n1, 2) == [c, d];
    assert LeBytes(n0, 3) == [b, c, d];
    assert [a, b, c, d][1..] == [b, c, d] && [b, c, d][1..] == [c, d] && [c, d][1..] == [d] && [d][1..] == [];
    assert FromLe([d]) == d + 0x100 * FromLe([]);
    assert FromLe([c, d]) == n1;
    assert FromLe([b, c, d]) == n0;
  }

  lemma FourBytes()
    ensures Pow256(4) == WORD
  {
    assert Pow256(2) == 0x1_0000;
  }

  /** Four bytes, least significant first. */
  function Le32(n: Word32): (s: seq<Byte>)
    ensures |s| == 4
  {
    LeBytes(n, 4)
  }

  /** The 32-bit word stored least significant byte first at `at`. */
  function Word32At(s: seq<Byte>, at: nat): Word32
    requires at + 4 <= |s|
  {
    FourBytes();
    FromLe(s[at..at + 4])
  }

  lemma Le32RoundTrip(n: Word32, before: seq<Byte>, after: seq<Byte>)
    ensures Word32At(before + Le32(n) + after, |before|) == n
  {
    hide LeBytes, FromLe, Pow256;
    FourBytes();
    LeRoundTrip(n, 4);
    assert (before + Le32(n) + after)[|before|..|before| + 4] == Le32(n);
  }

  /** A number below 2^16 fills the lower two bytes only. */
  lemma Le32Short(n: nat)
    requires n < 0x1_0000
    ensures Le32(n) == [n % 0x100, n / 0x100 % 0x100, 0, 0]
  {
    assert n / 0x100 / 0x100 == 0;
    assert LeBytes(0, 2) == [0] + LeBytes(0, 1) && LeBytes(0, 1) == [0];
    assert LeBytes(n / 0x100, 3) == [n / 0x100 % 0x100] + LeBytes(0, 2);
  }

  /** Equal words come from equal bytes. */
  lemma Word32AtInjective(s: seq<Byte>, i: nat, j: nat)
    requires i + 4 <= |s| && j + 4 <= |s|
    requires Word32At(s, i) == Word32At(s, j)
    ensures s[i..i + 4] == s[j..j + 4]
  {
    hide FromLe;
    FromLeInjective(s[i..i + 4], s[j..j + 4]);
  }

  /** Position of the first b. */
  function FirstOf(b: Byte, s: seq<Byte>): (n: nat)
    requires b in s
    ensures n < |s| && s[n] == b && b !in s[..n]
  {
    if s[0] == b then 0
    else
      assert s == [s[0]] + s[1..];
      var n := FirstOf(b, s[1..]);
      assert s[..n + 1] == [s[0]] + s[1..][..n];
      n + 1
  }

  lemma FirstOfAppend(b: Byte, x: seq<Byte>, y: seq<Byte>)
    ensures b in x ==> b in x + y && FirstOf(b, x + y) == FirstOf(b, x)
    ensures b !in x && b in y ==> b in x + y && FirstOf(b, x + y) == |x| + FirstOf(b, y)
  {
    if b in x {
      var n := FirstOf(b, x);
      assert (x + y)[n] == b && (x + y)[..n] == x[..n];
      FirstOfUnique(b, x + y, n);
    } else if b in y {
      var n := FirstOf(b, y);
      assert (x + y)[|x| + n] == b && (x + y)[..|x| + n] == x + y[..n];
      FirstOfUnique(b, x + y, |x| + n);
    }
  }

  lemma FirstOfUnique(b: Byte, s: seq<Byte>, n: nat)
    requires n < |s| && s[n] == b && b !in s[..n]
    ensures b in s && FirstOf(b, s) == n
  {
    if n > 0 {
      assert s[..n][0] in s[..n];
      assert s[1..][..n - 1] == s[..n][1..];
      FirstOfUnique(b, s[1..], n - 1);
    }
  }

  function Min(a: int, b: int): int {
    if a <= b then a else b
  }
}
