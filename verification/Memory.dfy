/** The device's flat 32-bit address space: addresses wrap, so does a pointer on the bus. */
module Memory {
  import opened Bytes

  /** The address `k` bytes after `a`. */
  function Addr(a: Word32, k: nat): Word32
    requires k < WORD
  {
    if a + k < WORD then a + k else a + k - WORD
  }

  /** How far address `i` lies after `a`. */
  function Offset(a: Word32, i: Word32): Word32 {
    if i >= a then i - a else i - a + WORD
  }

  /** The `n` bytes from `a` on. */
  function Range(m: seq<Byte>, a: Word32, n: nat): (s: seq<Byte>)
    requires |m| == WORD && n < WORD
    ensures |s| == n
    ensures forall k :: 0 <= k < n ==> s[k] == m[Addr(a, k)]
  {
    seq(n, k requires 0 <= k < n => m[Addr(a, k)])
  }

  /** As long as it does not wrap, a range is a slice. */
  lemma RangeIsSlice(m: seq<Byte>, a: Word32, n: nat)
    requires |m| == WORD && n < WORD && a + n <= WORD
    ensures Range(m, a, n) == m[a..a + n]
  {}

  /** `m'` is `m` with `data` stored from `a` on and nothing else changed. */
  ghost predicate Written(m: seq<Byte>, m': seq<Byte>, a: Word32, data: seq<Byte>) {
    && |m| == |m'| == WORD && |data| < WORD
    && forall i: Word32 :: m'[i] == if Offset(a, i) < |data| then data[Offset(a, i)] else m[i]
  }

  /** Only the `n` bytes from `a` on may differ. */
  ghost predicate SameOutside(m: seq<Byte>, m': seq<Byte>, a: Word32, n: nat) {
    && |m| == |m'| == WORD
    && forall i: Word32 :: Offset(a, i) >= n ==> m'[i] == m[i]
  }

  /** The `n` bytes from `a` on avoid the `k` bytes from `b` on. */
  ghost predicate Disjoint(a: Word32, n: nat, b: Word32, k: nat) {
    forall i: Word32 :: !(Offset(a, i) < n && Offset(b, i) < k)
  }

  lemma WrittenNothing(m: seq<Byte>, a: Word32)
    requires |m| == WORD
    ensures Written(m, m, a, [])
  {}

  lemma WrittenByte(m0: seq<Byte>, m: seq<Byte>, a: Word32, data: seq<Byte>, b: Byte)
    requires Written(m0, m, a, data) && |data| + 1 < WORD
    ensures Written(m0, m[Addr(a, |data|) := b], a, data + [b])
  {}

  lemma WrittenThen(m0: seq<Byte>, m1: seq<Byte>, m2: seq<Byte>, a: Word32, x: seq<Byte>, y: seq<Byte>)
    requires Written(m0, m1, a, x) && |x| + |y| < WORD
    requires Written(m1, m2, Addr(a, |x|), y)
    ensures Written(m0, m2, a, x + y)
  {}

  lemma WrittenRange(m: seq<Byte>, m': seq<Byte>, a: Word32, data: seq<Byte>)
    requires Written(m, m', a, data)
    ensures Range(m', a, |data|) == data
    ensures SameOutside(m, m', a, |data|)
  {}

  lemma RangeConcat(m: seq<Byte>, a: Word32, n: nat, k: nat)
    requires |m| == WORD && n + k < WORD
    ensures Range(m, a, n) + Range(m, Addr(a, n), k) == Range(m, a, n + k)
  {}
}
