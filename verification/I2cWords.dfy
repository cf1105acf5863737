/**
 What the two I2C drivers put on the bus: a transfer's bytes (address, prefix, data) packed least
 significant byte first into 32-bit words.
 */
module I2cWords {
  import opened Bytes
  import SmbusPec

  // ----- bytes within a word

  function Or(x: bv32, y: bv32): bv32 {
    x | y
  }

  function OrByte(x: bv8, y: bv8): bv8 {
    x | y
  }

  /** b moved up to byte k. */
  function Lane(b: bv8, k: nat): bv32
    requires k < 4
  {
    if k == 0 then b as bv32
    else if k == 1 then (b as bv32) << 8
    else if k == 2 then (b as bv32) << 16
    else (b as bv32) << 24
  }

  function ByteOf(w: bv32, k: nat): bv8
    requires k < 4
  {
    if k == 0 then (w & 0xFF) as bv8
    else if k == 1 then ((w >> 8) & 0xFF) as bv8
    else if k == 2 then ((w >> 16) & 0xFF) as bv8
    else (w >> 24) as bv8
  }

  lemma OrAssociates(x: bv32, y: bv32, z: bv32)
    ensures Or(Or(x, y), z) == Or(x, Or(y, z))
  {}

  lemma OrZero(x: bv32)
    ensures Or(x, 0) == x && Or(0, x) == x
  {}

  lemma OrByteZero(x: bv8)
    ensures OrByte(x, 0) == x && OrByte(0, x) == x
  {}

  lemma ByteOfOr(x: bv32, y: bv32, k: nat)
    requires k < 4
    ensures ByteOf(Or(x, y), k) == OrByte(ByteOf(x, k), ByteOf(y, k))
  {
    if k == 0 {
      assert (x | y) & 0xFF == (x & 0xFF) | (y & 0xFF);
    } else if k == 1 {
      assert ((x | y) >> 8) & 0xFF == ((x >> 8) & 0xFF) | ((y >> 8) & 0xFF);
    } else if k == 2 {
      assert ((x | y) >> 16) & 0xFF == ((x >> 16) & 0xFF) | ((y >> 16) & 0xFF);
    } else {
      assert (x | y) >> 24 == (x >> 24) | (y >> 24);
    }
  }

  lemma ByteOfLane(b: bv8, k: nat, j: nat)
    requires k < 4 && j < 4
    ensures ByteOf(Lane(b, k), j) == if j == k then b else 0
  {}

  lemma ByteOfZero(k: nat)
    requires k < 4
    ensures ByteOf(0, k) == 0
  {}

  /** Bytes packed into a word from byte k up. */
  function Lanes(bytes: seq<bv8>, k: nat): bv32
    requires k + |bytes| <= 4
  {
    if bytes == [] then 0
    else Or(Lanes(bytes[..|bytes| - 1], k), Lane(bytes[|bytes| - 1], k + |bytes| - 1))
  }

  lemma LanesStep(bytes: seq<bv8>, n: nat, k: nat)
    requires n < |bytes| && k + n < 4
    ensures Lanes(bytes[..n + 1], k) == Or(Lanes(bytes[..n], k), Lane(bytes[n], k + n))
  {
    hide Or, Lane;
    assert bytes[..n + 1][..n] == bytes[..n];
  }

  lemma {:induction false} LanesBytes(bytes: seq<bv8>, k: nat, j: nat)
    requires k + |bytes| <= 4 && j < 4
    ensures ByteOf(Lanes(bytes, k), j) == if k <= j < k + |bytes| then bytes[j - k] else 0
    decreases |bytes|
  {
    hide Or, OrByte, Lane, ByteOf;
    if bytes == [] {
      ByteOfZero(j);
    } else {
      var n := |bytes| - 1;
      var rest := bytes[..n];
      LanesBytes(rest, k, j);
      ByteOfOr(Lanes(rest, k), Lane(bytes[n], k + n), j);
      ByteOfLane(bytes[n], k + n, j);
      OrByteZero(ByteOf(Lanes(rest, k), j));
      OrByteZero(ByteOf(Lane(bytes[n], k + n), j));
    }
  }

  lemma {:induction false} LanesAfterFirst(b: bv8, bytes: seq<bv8>)
    requires |bytes| <= 3
    ensures Lanes([b] + bytes, 0) == Or(Lane(b, 0), Lanes(bytes, 1))
    decreases |bytes|
  {
    hide Or, Lane;
    if bytes == [] {
      assert [b] + bytes == [b] && [b][..0] == [];
      OrZero(Lane(b, 0));
    } else {
      var n := |bytes| - 1;
      LanesAfterFirst(b, bytes[..n]);
      assert ([b] + bytes)[..n + 1] == [b] + bytes[..n];
      OrAssociates(Lane(b, 0), Lanes(bytes[..n], 1), Lane(bytes[n], 1 + n));
    }
  }

  // ----- words of a transfer

  /** A word given to the bus controller and how many of its bytes are to be sent. */
  type LoadSize = n: int | 1 <= n <= 4 witness 1

  datatype Load = Load(word: bv32, size: LoadSize)

  function FirstBytes(w: bv32, n: nat): (s: seq<bv8>)
    requires n <= 4
    ensures |s| == n && forall k :: 0 <= k < n ==> s[k] == ByteOf(w, k)
  {
    if n == 0 then [] else FirstBytes(w, n - 1) + [ByteOf(w, n - 1)]
  }

  /** A message cut into words of four bytes, the last possibly shorter. */
  function LoadsOf(m: seq<bv8>): seq<Load>
    decreases |m|
  {
    if m == [] then []
    else
      var n := Min(4, |m|);
      [Load(Lanes(m[..n], 0), n)] + LoadsOf(m[n..])
  }

  lemma LaneValues()
    ensures Lane(0x12, 0) == 0x12 && Lane(0x34, 1) == 0x3400 && Lane(0x56, 2) == 0x56_0000
    ensures Lane(0x78, 3) == 0x7800_0000 && Lane(0x9A, 0) == 0x9A
    ensures Or(Or(Or(Or(0, 0x12), 0x3400), 0x56_0000), 0x7800_0000) == 0x7856_3412 && Or(0, 0x9A) == 0x9A
  {}

  /** The first byte is the lowest of its word. */
  lemma FiveBytes(m: seq<bv8>)
    requires m == [0x12, 0x34, 0x56, 0x78, 0x9A]
    ensures LoadsOf(m) == [Load(0x7856_3412, 4), Load(0x9A, 1)]
  {
    hide Or, Lane;
    var b := m[..4];
    LanesStep(b, 0, 0);
    LanesStep(b, 1, 0);
    LanesStep(b, 2, 0);
    LanesStep(b, 3, 0);
    assert b[..0] == [] && b[..4] == b;
    LanesStep(m[4..], 0, 0);
    assert m[4..][..0] == [] && m[4..][..1] == m[4..] && m[4..][1..] == [];
    LaneValues();
    assert LoadsOf([]) == [];
    assert LoadsOf(m[4..]) == [Load(0x9A, 1)];
  }

  function Words(ls: seq<Load>): seq<bv32> {
    if ls == [] then [] else [ls[0].word] + Words(ls[1..])
  }

  function SizeSum(ls: seq<Load>): nat {
    if ls == [] then 0 else ls[0].size + SizeSum(ls[1..])
  }

  /** The bytes that leave the controller. */
  function OnBus(ls: seq<Load>): seq<bv8> {
    if ls == [] then [] else FirstBytes(ls[0].word, ls[0].size) + OnBus(ls[1..])
  }

  lemma UnpackPacked(bytes: seq<bv8>)
    requires |bytes| <= 4
    ensures FirstBytes(Lanes(bytes, 0), |bytes|) == bytes
  {
    hide Lanes, ByteOf;
    forall k | 0 <= k < |bytes| ensures ByteOf(Lanes(bytes, 0), k) == bytes[k] {
      LanesBytes(bytes, 0, k);
    }
  }

  /** Packing loses nothing: the words' bytes are the message. */
  lemma {:induction false} OnBusIsMessage(m: seq<bv8>)
    ensures OnBus(LoadsOf(m)) == m && SizeSum(LoadsOf(m)) == |m|
    decreases |m|
  {
    hide Lanes, FirstBytes;
    if m != [] {
      var n := Min(4, |m|);
      OnBusIsMessage(m[n..]);
      UnpackPacked(m[..n]);
    }
  }

  /** Whatever is loaded is as many bytes on the bus as the sizes say. */
  lemma {:induction false} OnBusSize(ls: seq<Load>)
    ensures |OnBus(ls)| == SizeSum(ls)
  {
    if ls != [] {
      OnBusSize(ls[1..]);
    }
  }

  // ----- the two drivers' words

  /** lib/i2c-v2.c truncates the shifted address to a byte. */
  function V2Loads(address: bv8, payload: seq<bv8>): seq<Load> {
    LoadsOf([SmbusPec.AddressByte(address)] + payload)
  }

  /** lib/i2c-v1.c hands over nine bits of it. */
  function WideAddress(address: bv8): bv32 {
    (address as bv32) << 1
  }

  /** Writing, the lowest bit of the address byte is clear; reading, it is set; the address is above it. */
  lemma AddressAbove(address: bv8)
    ensures SmbusPec.AddressByte(address) & 1 == 0 && SmbusPec.AddressByte(address) >> 1 == address & 0x7F
    ensures WideAddress(address) & 1 == 0 && WideAddress(address) >> 1 == address as bv32
    ensures Or(WideAddress(address), 1) & 1 == 1 && Or(WideAddress(address), 1) >> 1 == address as bv32
  {}

  function V1First(address: bv8, payload: seq<bv8>): Load {
    var n := Min(3, |payload|);
    Load(Or(WideAddress(address), Lanes(payload[..n], 1)), 1 + n)
  }

  function V1Loads(address: bv8, payload: seq<bv8>): seq<Load> {
    [V1First(address, payload)] + LoadsOf(payload[Min(3, |payload|)..])
  }

  /** The ninth bit, where it lands. */
  function Spill(address: bv8): bv32 {
    if address & 0x80 != 0 then 0x100 else 0
  }

  predicate SevenBit(address: bv8) {
    address & 0x80 == 0
  }

  predicate LowBitSet(b: bv8) {
    b & 0x01 == 1
  }

  lemma NinthBit(address: bv8)
    ensures address & 0x80 != 0 ==> (address as bv32) << 1 == 0x100 | ((address << 1) as bv32)
    ensures address & 0x80 == 0 ==> (address as bv32) << 1 == 0 | ((address << 1) as bv32)
  {
    if address & 0x80 != 0 {
      assert (address as bv32) << 1 == 0x100 | ((address << 1) as bv32);
    } else {
      assert (address as bv32) << 1 == 0 | ((address << 1) as bv32);
    }
  }

  lemma SpillHidden(address: bv8, w: bv32)
    ensures Or(Spill(address), w) == w <==> SevenBit(address) || LowBitSet(ByteOf(w, 1))
  {}

  lemma SpillKeeps(address: bv8, w: bv32, k: nat)
    requires k < 4 && k != 1
    ensures ByteOf(Or(Spill(address), w), k) == ByteOf(w, k)
  {}

  lemma SpillShows(address: bv8, w: bv32)
    ensures ByteOf(Or(Spill(address), w), 1) == ByteOf(w, 1) <==> SevenBit(address) || LowBitSet(ByteOf(w, 1))
  {}

  lemma NothingSet()
    ensures !LowBitSet(0)
  {}

  /** Both drivers cut the transfer at the same places and differ in the spilled bit at most. */
  lemma FirstWords(address: bv8, payload: seq<bv8>)
    ensures var n := Min(3, |payload|);
            var first := V1First(address, payload);
            && V2Loads(address, payload) != []
            && V2Loads(address, payload)[0].size == first.size == 1 + n
            && first.word == Or(Spill(address), V2Loads(address, payload)[0].word)
            && V2Loads(address, payload)[1..] == LoadsOf(payload[n..])
            && V2Loads(address, payload)[0].word == Lanes([SmbusPec.AddressByte(address)] + payload[..n], 0)
  {
    hide Lanes;
    var n := Min(3, |payload|);
    var a := SmbusPec.AddressByte(address);
    assert WideAddress(address) == Or(Spill(address), Lane(a, 0)) by {
      NinthBit(address);
    }
    hide Or, Lane, Spill, WideAddress, SmbusPec.AddressByte;
    var m := [a] + payload;
    assert Min(4, |m|) == 1 + n && m[..1 + n] == [a] + payload[..n] && m[1 + n..] == payload[n..];
    LanesAfterFirst(a, payload[..n]);
    OrAssociates(Spill(address), Lane(a, 0), Lanes(payload[..n], 1));
  }

  /** Byte 1 of the first word: the first payload byte, or nothing. */
  lemma SecondByte(address: bv8, payload: seq<bv8>)
    ensures V2Loads(address, payload) != []
    ensures ByteOf(V2Loads(address, payload)[0].word, 1) == if payload == [] then 0 else payload[0]
  {
    hide Lanes, ByteOf, LoadsOf, SmbusPec.AddressByte;
    FirstWords(address, payload);
    LanesBytes([SmbusPec.AddressByte(address)] + payload[..Min(3, |payload|)], 0, 1);
  }

  lemma SameHeadIff(x: Load, xs: seq<Load>, y: Load)
    ensures Words([x] + xs) == Words([y] + xs) <==> x.word == y.word
  {
    assert ([x] + xs)[1..] == xs && ([y] + xs)[1..] == xs;
    assert Words([x] + xs)[0] == x.word && Words([y] + xs)[0] == y.word;
  }

  /**
   The two drivers load the same words exactly when the address has seven bits, or the bit that the
   first driver spills into the first payload byte is set there anyway.
   */
  lemma DriversAgree(address: bv8, payload: seq<bv8>)
    ensures Words(V1Loads(address, payload)) == Words(V2Loads(address, payload))
       <==> SevenBit(address) || (payload != [] && LowBitSet(payload[0]))
  {
    hide Or, Lanes, ByteOf, LoadsOf, Spill, SevenBit, LowBitSet, V2Loads, V1First, Words;
    var v2 := V2Loads(address, payload);
    FirstWords(address, payload);
    SecondByte(address, payload);
    SpillHidden(address, v2[0].word);
    NothingSet();
    SameHeadIff(V1First(address, payload), v2[1..], v2[0]);
    assert v2 == [v2[0]] + v2[1..];
  }

  /** Byte k of what each driver's first word sends. */
  lemma FirstWordBytes(address: bv8, payload: seq<bv8>, k: nat)
    requires k <= Min(3, |payload|)
    ensures ByteOf(V2Loads(address, payload)[0].word, k) == ([SmbusPec.AddressByte(address)] + payload)[k]
    ensures k != 1 ==> ByteOf(V1First(address, payload).word, k) == ([SmbusPec.AddressByte(address)] + payload)[k]
    ensures k == 1 ==> (ByteOf(V1First(address, payload).word, 1) == payload[0]
      <==> SevenBit(address) || LowBitSet(payload[0]))
  {
    hide Or, Lanes, ByteOf, LoadsOf, Spill, SevenBit, LowBitSet, SmbusPec.AddressByte, V1First, V2Loads;
    FirstWords(address, payload);
    var w := V2Loads(address, payload)[0].word;
    LanesBytes([SmbusPec.AddressByte(address)] + payload[..Min(3, |payload|)], 0, k);
    SpillShows(address, w);
    if k != 1 {
      SpillKeeps(address, w, k);
    }
  }

  lemma BusAfterFirst(address: bv8, payload: seq<bv8>)
    ensures var n := Min(3, |payload|);
            OnBus(V1Loads(address, payload)) == FirstBytes(V1First(address, payload).word, 1 + n) + payload[n..]
  {
    hide Or, Lanes, ByteOf, LoadsOf, FirstBytes;
    var n := Min(3, |payload|);
    OnBusIsMessage(payload[n..]);
    assert V1Loads(address, payload)[1..] == LoadsOf(payload[n..]);
  }

  /**
   With a wide address, all the first driver sends is right but for the first payload byte, unless its
   low bit is set.
   */
  lemma SpilledBytes(address: bv8, payload: seq<bv8>)
    requires payload != []
    ensures var bus := OnBus(V1Loads(address, payload));
            && |bus| == 1 + |payload| && bus[0] == SmbusPec.AddressByte(address) && bus[2..] == payload[1..]
            && (bus[1] == payload[0] <==> SevenBit(address) || LowBitSet(payload[0]))
  {
    hide ByteOf, OnBus, V1Loads, V1First, SevenBit, LowBitSet, SmbusPec.AddressByte, V2Loads;
    var n := Min(3, |payload|);
    var a := SmbusPec.AddressByte(address);
    var mine := FirstBytes(V1First(address, payload).word, 1 + n);
    BusAfterFirst(address, payload);
    forall k | 0 <= k <= n && k != 1 ensures mine[k] == ([a] + payload)[k] {
      FirstWordBytes(address, payload, k);
    }
    FirstWordBytes(address, payload, 1);
    assert mine[2..] == payload[1..n];
    assert (mine + payload[n..])[2..] == payload[1..n] + payload[n..] == payload[1..];
  }

  /** On the bus an empty payload hides the spilled bit as well. */
  lemma BusBytesAgree(address: bv8, payload: seq<bv8>)
    ensures OnBus(V1Loads(address, payload)) == [SmbusPec.AddressByte(address)] + payload
       <==> SevenBit(address) || payload == [] || LowBitSet(payload[0])
  {
    hide ByteOf, SevenBit, LowBitSet, SmbusPec.AddressByte, V1First;
    var a := SmbusPec.AddressByte(address);
    var bus := OnBus(V1Loads(address, payload));
    if payload == [] {
      FirstWordBytes(address, payload, 0);
      FirstWords(address, payload);
      assert V1Loads(address, payload)[1..] == [];
      assert FirstBytes(V1First(address, payload).word, 1) == [a];
    } else {
      SpilledBytes(address, payload);
      assert bus == [bus[0]] + [bus[1]] + bus[2..];
      assert [a] + payload == [a] + [payload[0]] + payload[1..];
    }
  }

  /** The smallest difference: address 0x80 with the payload byte 0. */
  lemma DriversDiffer()
    ensures Words(V1Loads(0x80, [0])) != Words(V2Loads(0x80, [0]))
    ensures OnBus(V1Loads(0x80, [0])) != [SmbusPec.AddressByte(0x80), 0]
  {
    hide Words, V1Loads, V2Loads, OnBus, SmbusPec.AddressByte;
    assert !SevenBit(0x80) && !LowBitSet(0);
    DriversAgree(0x80, [0]);
    BusBytesAgree(0x80, [0]);
    assert [SmbusPec.AddressByte(0x80)] + [0] == [SmbusPec.AddressByte(0x80), 0];
  }

  /** i2c_smbus_write_pec: what the second driver sends for it always leaves residue zero. */
  lemma WriteWithPecChecks(address: bv8, data: seq<bv8>, last: bv8)
    ensures SmbusPec.Update(0, OnBus(V2Loads(address, data + [last]))) == 0
       <==> last == SmbusPec.Pec(address, data)
  {
    hide SmbusPec.Update, SmbusPec.AddressByte, LoadsOf, OnBus;
    OnBusIsMessage([SmbusPec.AddressByte(address)] + (data + [last]));
    assert [SmbusPec.AddressByte(address)] + (data + [last]) == [SmbusPec.AddressByte(address)] + data + [last];
    SmbusPec.ResidueZero(address, data, last);
  }

  /** Sent by the first driver, the code checks exactly when no bit has spilled: the damage is always noticed. */
  lemma SpillBreaksPec(address: bv8, data: seq<bv8>)
    ensures var payload := data + [SmbusPec.Pec(address, data)];
            SmbusPec.Update(0, OnBus(V1Loads(address, payload))) == 0
            <==> SevenBit(address) || LowBitSet(payload[0])
  {
    hide SmbusPec.Update, SmbusPec.AddressByte, LoadsOf, OnBus, V1Loads, SevenBit, LowBitSet;
    var payload := data + [SmbusPec.Pec(address, data)];
    var a := SmbusPec.AddressByte(address);
    var bus := OnBus(V1Loads(address, payload));
    BusBytesAgree(address, payload);
    OnBusIsMessage([a] + payload);
    WriteWithPecChecks(address, data, SmbusPec.Pec(address, data));
    assert SmbusPec.Update(0, [a] + payload) == 0;
    if !SevenBit(address) && !LowBitSet(payload[0]) {
      SpilledBytes(address, payload);
      SmbusPec.OneByteDetected(0, [a], bus[1], payload[0], payload[1..]);
      assert bus == [a] + [bus[1]] + payload[1..];
      assert [a] + payload == [a] + [payload[0]] + payload[1..];
    }
  }
}
