/**
 The two I2C drivers (lib/i2c-v1.c, lib/i2c-v2.c) against scripted status registers: what each poll
 of the hardware shows is an input, what the driver loads and stores is the result.
 */
module I2cDrivers {
  import opened Bytes
  import opened I2cWords
  import SmbusPec

  // ----- lib/i2c-v1.c

  /** One pass of transfer_wait: the status flags, and what the receive buffer would give. */
  datatype PollV1 = PollV1(irqd: bool, lrb: bool, irqe: bool, count: nat, word: bv32)

  datatype WriteRun = WriteRun(ok: bool, loads: nat)

  /** A write with `left` words to go: each data request takes one; no acknowledge before the stop ends it. */
  function V1Write(polls: seq<PollV1>, left: nat, stopping: bool): (r: WriteRun)
    ensures r.loads <= left
    ensures r.ok ==> r.loads == left
  {
    if polls == [] then WriteRun(false, 0)
    else
      var p := polls[0];
      if p.irqd && p.lrb && !stopping then WriteRun(false, 0)
      else
        var taken := if p.irqd && left > 0 then 1 else 0;
        if p.irqe then WriteRun(taken == left, taken)
        else
          var r := V1Write(polls[1..], left - taken, stopping || (p.irqd && left == 0));
          WriteRun(r.ok, taken + r.loads)
  }

  /** Acknowledged requests for every word and then the end: the write succeeds. */
  lemma {:induction false} V1WriteCompletes(polls: seq<PollV1>, left: nat)
    requires |polls| == left + 1
    requires forall i :: 0 <= i < left ==> polls[i].irqd && !polls[i].lrb && !polls[i].irqe
    requires polls[left].irqe && !polls[left].lrb
    ensures V1Write(polls, left, false) == WriteRun(true, left)
  {
    if left > 0 {
      V1WriteCompletes(polls[1..], left - 1);
    }
  }

  /** No acknowledge, or the end, after k of the words: the write has failed with those loaded. */
  lemma {:induction false} V1WriteRefused(polls: seq<PollV1>, left: nat, k: nat)
    requires k < |polls| && k <= left
    requires forall i :: 0 <= i < k ==> polls[i].irqd && !polls[i].lrb && !polls[i].irqe
    requires (polls[k].irqd && polls[k].lrb) || (k < left && !polls[k].irqd && polls[k].irqe)
    ensures V1Write(polls, left, false) == WriteRun(false, k)
    decreases k
  {
    if k > 0 {
      V1WriteRefused(polls[1..], left - 1, k - 1);
    }
  }

  /** Once a request has found nothing left to send, a missing acknowledge no longer counts. */
  lemma V1WriteStops(request: PollV1, last: PollV1)
    requires request.irqd && !request.lrb && !request.irqe && last.irqe
    ensures V1Write([request, last], 0, false) == WriteRun(true, 0)
  {
    assert [request, last][1..] == [last];
    assert V1Write([last], 0, true) == WriteRun(true, 0);
  }

  datatype ReadRun = ReadRun(ok: bool, bytes: seq<bv8>)

  /** How much of the receive buffer read_buffer takes. */
  function Received(count: nat, requested: LoadSize, left: nat): (n: nat)
    ensures n <= 4 && n <= left
  {
    Min(Min(count, requested), left)
  }

  /** A read of `left` more bytes; the first data request only acknowledges the address. */
  function V1Read(polls: seq<PollV1>, left: nat, requested: LoadSize, addressed: bool): (r: ReadRun)
    ensures |r.bytes| <= left
    ensures r.ok ==> |r.bytes| == left
  {
    if polls == [] then ReadRun(false, [])
    else
      var p := polls[0];
      if p.irqd && p.lrb && !addressed then ReadRun(false, [])
      else
        var got := if p.irqd && addressed then FirstBytes(p.word, Received(p.count, requested, left)) else [];
        var still := left - |got|;
        if p.irqe then ReadRun(still == 0, got)
        else
          var asked := if p.irqd && still > 0 then Min(still, 4) else requested;
          var r := V1Read(polls[1..], still, asked, addressed || p.irqd);
          ReadRun(r.ok, got + r.bytes)
  }

  /** An address nobody acknowledges, or an end before the last byte, fails a read. */
  lemma V1ReadRefused(p: PollV1, polls: seq<PollV1>, left: nat, requested: LoadSize)
    requires left > 0
    ensures p.irqd && p.lrb ==> V1Read([p] + polls, left, requested, false) == ReadRun(false, [])
    ensures !p.irqd && p.irqe ==> V1Read([p] + polls, left, requested, true) == ReadRun(false, [])
    ensures p.irqd && p.lrb && left > 4 && p.irqe && p.count >= 4 && requested == 4 ==>
              V1Read([p] + polls, left, requested, true) == ReadRun(false, FirstBytes(p.word, 4))
  {
    hide FirstBytes;
    assert ([p] + polls)[0] == p;
  }

  lemma V1WriteAt(polls: seq<PollV1>, i: nat, left: nat, stopping: bool)
    requires i < |polls|
    ensures var p := polls[i];
            var taken := if p.irqd && left > 0 then 1 else 0;
            var next := V1Write(polls[i + 1..], left - taken, stopping || (p.irqd && left == 0));
            V1Write(polls[i..], left, stopping)
            == if p.irqd && p.lrb && !stopping then WriteRun(false, 0)
               else if p.irqe then WriteRun(taken == left, taken)
               else WriteRun(next.ok, taken + next.loads)
  {
    assert polls[i..][0] == polls[i] && polls[i..][1..] == polls[i + 1..];
  }

  lemma V1ReadAt(polls: seq<PollV1>, i: nat, left: nat, requested: LoadSize, addressed: bool)
    requires i < |polls|
    ensures var p := polls[i];
            var got := if p.irqd && addressed then FirstBytes(p.word, Received(p.count, requested, left)) else [];
            var still := left - |got|;
            var asked := if p.irqd && still > 0 then Min(still, 4) else requested;
            var next := V1Read(polls[i + 1..], still, asked, addressed || p.irqd);
            V1Read(polls[i..], left, requested, addressed)
            == if p.irqd && p.lrb && !addressed then ReadRun(false, [])
               else if p.irqe then ReadRun(still == 0, got)
               else ReadRun(next.ok, got + next.bytes)
  {
    hide FirstBytes, Received;
    assert polls[i..][0] == polls[i] && polls[i..][1..] == polls[i + 1..];
  }

  lemma LoadsLeft(m: seq<bv8>)
    ensures LoadsOf(m) == [] <==> m == []
  {}

  lemma NoPolls(polls: seq<PollV1>, left: nat, stopping: bool)
    ensures V1Write(polls[|polls|..], left, stopping) == WriteRun(false, 0)
  {}

  lemma NoPollsRead(polls: seq<PollV1>, left: nat, requested: LoadSize, addressed: bool)
    ensures V1Read(polls[|polls|..], left, requested, addressed) == ReadRun(false, [])
  {}

  lemma LoadsStep(m: seq<bv8>)
    requires m != []
    ensures var n := Min(4, |m|);
            var ls := LoadsOf(m);
            ls != [] && ls[0] == Load(Lanes(m[..n], 0), n) && ls[1..] == LoadsOf(m[n..])
  {
    hide Lanes;
  }

  lemma Regroup<T>(x: seq<T>, y: seq<T>, z: seq<T>)
    ensures x + (y + z) == x + y + z
  {}

  lemma NoLanes(k: nat)
    requires k < 4
    ensures forall s: seq<bv8> :: Lanes(s[..0], k) == 0
  {}

  lemma TailStep<T>(xs: seq<T>, n: nat)
    requires n < |xs|
    ensures xs[n..] != [] && xs[n..][0] == xs[n] && xs[n..][1..] == xs[n + 1..]
  {}

  lemma PrefixStep<T>(before: seq<T>, x: T, xs: seq<T>, n: nat)
    requires n <= |xs|
    ensures before + [x] + xs[..n] == before + ([x] + xs)[..1 + n]
  {}

  lemma TakeStep<T>(before: seq<T>, xs: seq<T>, k: nat, n: nat)
    requires k + n <= |xs|
    ensures before + xs[..k] + xs[k..][..n] == before + xs[..k + n]
  {}

  /** One data request per word of `m`, its bytes in the receive buffer, and then the end. */
  ghost predicate DeliversV1(polls: seq<PollV1>, m: seq<bv8>) {
    var ls := LoadsOf(m);
    && |polls| == |ls| + 1
    && (forall i :: 0 <= i < |ls| ==>
          polls[i].irqd && !polls[i].irqe && polls[i].count >= ls[i].size && polls[i].word == ls[i].word)
    && polls[|ls|].irqe && !polls[|ls|].irqd
  }

  lemma DeliversNextV1(polls: seq<PollV1>, m: seq<bv8>)
    requires DeliversV1(polls, m) && m != []
    ensures var n := Min(4, |m|);
            && polls[0].irqd && !polls[0].irqe && polls[0].count >= n && polls[0].word == Lanes(m[..n], 0)
            && DeliversV1(polls[1..], m[n..])
  {
    hide Lanes;
    LoadsStep(m);
  }

  lemma {:induction false} V1ReadsWords(polls: seq<PollV1>, m: seq<bv8>, requested: LoadSize)
    requires DeliversV1(polls, m)
    requires m != [] ==> requested == Min(|m|, 4)
    ensures V1Read(polls, |m|, requested, true) == ReadRun(true, m)
    decreases |m|
  {
    hide DeliversV1, Lanes, FirstBytes;
    if m == [] {
      EndsV1(polls);
    } else {
      var n := Min(4, |m|);
      DeliversNextV1(polls, m);
      EndsV1(polls);
      UnpackPacked(m[..n]);
      V1ReadsWords(polls[1..], m[n..], if n < |m| then Min(|m| - n, 4) else requested);
      assert m[..n] + m[n..] == m;
    }
  }

  lemma EndsV1(polls: seq<PollV1>)
    ensures forall m :: DeliversV1(polls, m) ==> polls != []
    ensures DeliversV1(polls, []) ==> polls[0].irqe && !polls[0].irqd
  {}

  /** After an acknowledged address, a bus that delivers `m` makes a read succeed with exactly `m`. */
  lemma V1ReadCompletes(acknowledge: PollV1, polls: seq<PollV1>, m: seq<bv8>)
    requires m != [] && acknowledge.irqd && !acknowledge.lrb && !acknowledge.irqe
    requires DeliversV1(polls, m)
    ensures V1Read([acknowledge] + polls, |m|, 1, false) == ReadRun(true, m)
  {
    hide DeliversV1, FirstBytes;
    V1ReadsWords(polls, m, Min(|m|, 4));
    assert ([acknowledge] + polls)[1..] == polls;
    assert [] + m == m;
  }

  class DriverV1 {
    // struct i2c_transfer
    var prefix: seq<bv8>
    var tx: seq<bv8>
    var rx: seq<bv8>
    var prefixRemaining: nat
    var remaining: nat
    var addressSent: bool
    var stopRequested: bool
    // the size field of SYSCON, and every word given to RTB with its size
    var requested: LoadSize
    var loads: seq<Load>

    ghost predicate Writing()
      reads this`prefix, this`tx, this`prefixRemaining, this`remaining
    {
      prefixRemaining == |prefix| && remaining == |tx|
    }

    function Payload(): seq<bv8>
      reads this`prefix, this`tx
    {
      prefix + tx
    }

    /** Bytes are left to send. */
    predicate More()
      requires Writing()
      reads this`prefix, this`tx, this`prefixRemaining, this`remaining
      ensures More() <==> Payload() != []
    {
      prefixRemaining != 0 || remaining != 0
    }

    /** transfer_byte_get. */
    method ByteGet() returns (b: bv8)
      requires Writing() && Payload() != []
      modifies this`prefix, this`tx, this`prefixRemaining, this`remaining
      ensures Writing()
      ensures b == old(Payload())[0] && Payload() == old(Payload())[1..]
    {
      if prefixRemaining != 0 {
        prefixRemaining := prefixRemaining - 1;
        b, prefix := prefix[0], prefix[1..];
      } else {
        assert prefix == [] && prefix + tx == tx;
        remaining := remaining - 1;
        b, tx := tx[0], tx[1..];
      }
    }

    /** write_buffer: fills a word from byte `offset` up. */
    method WriteBuffer(value: bv32, offset: nat)
      requires Writing() && offset < 4 && (offset > 0 || Payload() != [])
      modifies this`prefix, this`tx, this`prefixRemaining, this`remaining, this`requested, this`loads
      ensures Writing()
      ensures var n := Min(4 - offset, |old(Payload())|);
              && Payload() == old(Payload())[n..]
              && loads == old(loads) + [Load(Or(value, Lanes(old(Payload())[..n], offset)), offset + n)]
    {
      hide Or, Lane, Lanes, Writing, Payload, More;
      var word, count := value, offset;
      ghost var all := Payload();
      assert all[0..] == all;
      OrZero(value);
      NoLanes(offset);
      while count < 4 && More()
        invariant offset <= count <= 4 && count - offset <= |all|
        invariant Writing() && Payload() == all[count - offset..]
        invariant word == Or(value, Lanes(all[..count - offset], offset))
        invariant loads == old(loads)
        decreases 4 - count
      {
        ghost var n := count - offset;
        var b := ByteGet();
        OrAssociates(value, Lanes(all[..n], offset), Lane(b, count));
        TailStep(all, n);
        LanesStep(all, n, offset);
        word := Or(word, Lane(b, count));
        count := count + 1;
      }
      requested := count;
      loads := loads + [Load(word, count)];
    }

    /** A data request while bytes are left: exactly the next word goes out. */
    method NextLoad()
      requires Writing() && Payload() != []
      modifies this`prefix, this`tx, this`prefixRemaining, this`remaining, this`requested, this`loads
      ensures Writing()
      ensures var ls := LoadsOf(old(Payload()));
              ls != [] && loads == old(loads) + [ls[0]] && LoadsOf(Payload()) == ls[1..]
    {
      hide Or, Lanes, LoadsOf;
      OrZero(Lanes(Payload()[..Min(4, |Payload()|)], 0));
      LoadsStep(Payload());
      WriteBuffer(0, 0);
    }

    /** One pass of transfer_wait while writing. */
    method WritePass(p: PollV1) returns (stop: bool, ok: bool)
      requires Writing()
      modifies this`prefix, this`tx, this`prefixRemaining, this`remaining, this`requested, this`loads,
          this`stopRequested
      ensures Writing()
      ensures var ls := LoadsOf(old(Payload()));
              if p.irqd && p.lrb && !old(stopRequested) then stop && !ok && loads == old(loads)
              else
                var taken := if p.irqd && |ls| > 0 then 1 else 0;
                && loads == old(loads) + ls[..taken] && LoadsOf(Payload()) == ls[taken..]
                && stopRequested == (old(stopRequested) || (p.irqd && |ls| == 0))
                && stop == p.irqe && (stop ==> ok == (taken == |ls|))
    {
      hide LoadsOf;
      LoadsLeft(Payload());
      if p.irqd {
        if p.lrb && !stopRequested {
          return true, false;
        }
        if prefixRemaining != 0 || remaining != 0 {
          NextLoad();
        } else {
          stopRequested := true;
        }
      }
      LoadsLeft(Payload());
      return p.irqe, remaining == 0 && prefixRemaining == 0;
    }

    /** transfer_wait while writing; it gives up when the polls run out. */
    method WriteWait(polls: seq<PollV1>) returns (ok: bool)
      requires Writing()
      modifies this`prefix, this`tx, this`prefixRemaining, this`remaining, this`requested, this`loads,
          this`stopRequested
      ensures var r := V1Write(polls, |LoadsOf(old(Payload()))|, old(stopRequested));
              ok == r.ok && loads == old(loads) + LoadsOf(old(Payload()))[..r.loads]
    {
      hide V1Write, LoadsOf, Payload;
      ghost var whole := V1Write(polls, |LoadsOf(Payload())|, stopRequested);
      ghost var goal := loads + LoadsOf(Payload())[..whole.loads];
      for i := 0 to |polls|
        invariant Writing()
        invariant var r := V1Write(polls[i..], |LoadsOf(Payload())|, stopRequested);
                  r.ok == whole.ok && loads + LoadsOf(Payload())[..r.loads] == goal
      {
        ghost var ls, before := LoadsOf(Payload()), loads;
        V1WriteAt(polls, i, |ls|, stopRequested);
        var stop;
        stop, ok := WritePass(polls[i]);
        if stop {
          return;
        }
        TakeStep(before, ls, |ls| - |LoadsOf(Payload())|,
            V1Write(polls[i + 1..], |LoadsOf(Payload())|, stopRequested).loads);
      }
      NoPolls(polls, |LoadsOf(Payload())|, stopRequested);
      ok := false;
    }

    /** i2c_hw_write. */
    method HwWrite(address: bv8, prefixBytes: seq<bv8>, data: seq<bv8>, polls: seq<PollV1>) returns (ok: bool)
      modifies this
      ensures var payload := prefixBytes + data;
              var r := V1Write(polls, |V1Loads(address, payload)| - 1, false);
              && ok == r.ok
              && loads == old(loads) + V1Loads(address, payload)[..1 + r.loads]
      ensures ok ==> loads == old(loads) + V1Loads(address, prefixBytes + data)
    {
      hide Or, Lanes, LoadsOf;
      prefix, tx, prefixRemaining, remaining := prefixBytes, data, |prefixBytes|, |data|;
      addressSent, stopRequested := true, false;
      ghost var payload := Payload();
      ghost var more := LoadsOf(payload[Min(3, |payload|)..]);
      WriteBuffer(WideAddress(address), 1);
      ok := WriteWait(polls);
      ghost var r := V1Write(polls, |more|, false);
      PrefixStep(old(loads), V1First(address, payload), more, r.loads);
      assert V1Loads(address, payload)[..|V1Loads(address, payload)|] == V1Loads(address, payload);
    }

    /** read_buffer: never past the bytes still wanted. */
    method ReadBuffer(count: nat, word: bv32)
      modifies this`rx, this`remaining
      ensures var n := Received(count, requested, old(remaining));
              rx == old(rx) + FirstBytes(word, n) && remaining == old(remaining) - n
    {
      var n := Min(Min(count, requested), remaining);
      for i := 0 to n
        invariant rx == old(rx) + FirstBytes(word, i) && remaining == old(remaining)
      {
        assert FirstBytes(word, i + 1) == FirstBytes(word, i) + [ByteOf(word, i)];
        rx := rx + [ByteOf(word, i)];
      }
      remaining := remaining - n;
    }

    /** transfer_wait while reading. */
    method ReadWait(polls: seq<PollV1>) returns (ok: bool)
      requires prefixRemaining == 0 && !stopRequested
      modifies this`rx, this`remaining, this`requested, this`addressSent
      ensures var r := V1Read(polls, old(remaining), old(requested), old(addressSent));
              ok == r.ok && rx == old(rx) + r.bytes
    {
      hide V1Read, FirstBytes, Received;
      ghost var whole := V1Read(polls, remaining, requested, addressSent);
      for i := 0 to |polls|
        invariant var r := V1Read(polls[i..], remaining, requested, addressSent);
                  r.ok == whole.ok && rx + r.bytes == old(rx) + whole.bytes
      {
        var p := polls[i];
        V1ReadAt(polls, i, remaining, requested, addressSent);
        ghost var before := rx;
        if p.irqd {
          if p.lrb && !addressSent {
            return false;
          }
          if addressSent {
            ReadBuffer(p.count, p.word);
          } else {
            addressSent := true;
          }
          if remaining != 0 {
            requested := Min(remaining, 4);
          }
        }
        if p.irqe {
          return remaining == 0;
        }
        Regroup(before, rx[|before|..], V1Read(polls[i + 1..], remaining, requested, addressSent).bytes);
      }
      NoPollsRead(polls, remaining, requested, addressSent);
      ok := false;
    }

    /** i2c_hw_read: the address goes out with the read bit, and success means exactly `size` bytes. */
    method HwRead(address: bv8, size: nat, polls: seq<PollV1>) returns (ok: bool)
      modifies this
      ensures size == 0 ==> ok && rx == old(rx) && loads == old(loads)
      ensures size > 0 ==>
        var r := V1Read(polls, size, 1, false);
        && ok == r.ok
        && loads == old(loads) + [Load(Or(WideAddress(address), 1), 1)]
        && rx == old(rx) + r.bytes
      ensures |rx| <= |old(rx)| + size
      ensures ok ==> |rx| == |old(rx)| + size
    {
      if size == 0 {
        return true;
      }
      prefix, tx, prefixRemaining, remaining := [], [], 0, size;
      addressSent, stopRequested := false, false;
      requested := 1;
      loads := loads + [Load(Or(WideAddress(address), 1), 1)];
      ok := ReadWait(polls);
    }
  }

  // ----- lib/i2c-v2.c

  /** One look at the status registers. */
  datatype PollV2 = PollV2(request: bool, nack: bool, error: bool, rx: bool, txEnd: bool, fifo: bool, word: bv32,
                           sent: nat)

  datatype Wait = Wait(ok: bool, next: nat)

  /** request_wait: the first of `limit` polls that shows a request or a fault; the request wins. */
  function Requested(polls: nat -> PollV2, at: nat, limit: nat): Wait
    decreases limit
  {
    if limit == 0 then Wait(false, at)
    else if polls(at).request then Wait(true, at + 1)
    else if polls(at).nack || polls(at).error then Wait(false, at + 1)
    else Requested(polls, at + 1, limit - 1)
  }

  /** transfer_wait: the fault wins. */
  function Ended(polls: nat -> PollV2, at: nat, limit: nat): Wait
    decreases limit
  {
    if limit == 0 then Wait(false, at)
    else if polls(at).nack || polls(at).error then Wait(false, at + 1)
    else if polls(at).txEnd then Wait(true, at + 1)
    else Ended(polls, at + 1, limit - 1)
  }

  /** A write with `left` words to go; each wait gives up after `limit` polls. */
  function V2Write(polls: nat -> PollV2, at: nat, limit: nat, left: nat): (r: WriteRun)
    ensures r.loads <= left
    ensures r.ok ==> r.loads == left
    decreases left
  {
    if left == 0 then WriteRun(Ended(polls, at, limit).ok, 0)
    else
      var w := Requested(polls, at, limit);
      if !w.ok then WriteRun(false, 0)
      else
        var r := V2Write(polls, w.next, limit, left - 1);
        WriteRun(r.ok, 1 + r.loads)
  }

  /** The polling loop of a read. */
  function V2Read(polls: nat -> PollV2, at: nat, limit: nat, size: nat, left: nat, receiving: bool): (r: ReadRun)
    ensures |r.bytes| <= left
    ensures r.ok ==> |r.bytes| == left
    decreases limit
  {
    if limit == 0 then ReadRun(false, [])
    else
      var p := polls(at);
      if p.nack || p.error then ReadRun(false, [])
      else
        var now := receiving || p.rx;
        var got := if now && p.request && p.fifo then FirstBytes(p.word, Min(left, 4)) else [];
        var still := left - |got|;
        if still == 0 && p.txEnd then ReadRun(p.sent == size, got)
        else
          var r := V2Read(polls, at + 1, limit - 1, size, still, now);
          ReadRun(r.ok, got + r.bytes)
  }

  /** A request at each poll while words are left, and then a clean end: the write succeeds. */
  lemma {:induction false} V2WriteCompletes(polls: nat -> PollV2, at: nat, limit: nat, left: nat)
    requires limit > 0
    requires forall i: nat :: at <= i < at + left ==> polls(i).request
    requires var last := polls(at + left); last.txEnd && !last.nack && !last.error
    ensures V2Write(polls, at, limit, left) == WriteRun(true, left)
    decreases left
  {
    if left > 0 {
      V2WriteCompletes(polls, at + 1, limit, left - 1);
    }
  }

  /** One word of `m` per poll, and then the end with the announced byte count. */
  /** A fault instead of the k-th request, or no request in time, ends a write with k words loaded. */
  lemma {:induction false} V2WriteRefused(polls: nat -> PollV2, at: nat, limit: nat, left: nat, k: nat)
    requires limit > 0 && k < left
    requires forall i: nat :: at <= i < at + k ==> polls(i).request
    requires var p := polls(at + k);
             || (!p.request && (p.nack || p.error))
             || forall i: nat :: at + k <= i < at + k + limit ==> var q := polls(i); !q.request && !q.nack && !q.error
    ensures V2Write(polls, at, limit, left) == WriteRun(false, k)
    decreases k
  {
    if k > 0 {
      V2WriteRefused(polls, at + 1, limit, left - 1, k - 1);
    } else if forall i: nat :: at <= i < at + limit ==> var q := polls(i); !q.request && !q.nack && !q.error {
      NeverRequested(polls, at, limit);
    }
  }

  lemma {:induction false} NeverRequested(polls: nat -> PollV2, at: nat, limit: nat)
    requires forall i: nat :: at <= i < at + limit ==> var q := polls(i); !q.request && !q.nack && !q.error
    ensures !Requested(polls, at, limit).ok
    decreases limit
  {
    if limit > 0 {
      NeverRequested(polls, at + 1, limit - 1);
    }
  }

  /** At the end of a transfer a fault outweighs the end; while a word is awaited a request outweighs the fault. */
  lemma FaultAgainstSuccess(polls: nat -> PollV2, at: nat, limit: nat, size: nat, left: nat, receiving: bool)
    requires limit > 0 && (polls(at).nack || polls(at).error)
    ensures !Ended(polls, at, limit).ok
    ensures polls(at).request ==> Requested(polls, at, limit) == Wait(true, at + 1)
    ensures V2Read(polls, at, limit, size, left, receiving) == ReadRun(false, [])
  {}

  ghost predicate DeliversV2(polls: nat -> PollV2, at: nat, size: nat, m: seq<bv8>) {
    var ls := LoadsOf(m);
    && (forall i: nat :: i < |ls| ==> CarriesWord(polls(at + i), ls[i].word))
    && var last := polls(at + |ls|);
       last.txEnd && last.sent == size && !last.nack && !last.error && !last.fifo
  }

  predicate CarriesWord(p: PollV2, word: bv32) {
    p.rx && p.request && p.fifo && p.word == word && !p.nack && !p.error && !p.txEnd
  }

  lemma DeliversNextV2(polls: nat -> PollV2, at: nat, size: nat, m: seq<bv8>)
    requires DeliversV2(polls, at, size, m) && m != []
    ensures var n := Min(4, |m|);
            && CarriesWord(polls(at), Lanes(m[..n], 0))
            && DeliversV2(polls, at + 1, size, m[n..])
  {
    hide Lanes, CarriesWord;
    LoadsStep(m);
    var ls, more := LoadsOf(m), LoadsOf(m[Min(4, |m|)..]);
    assert CarriesWord(polls(at + 0), ls[0].word);
    forall i: nat | i < |more| ensures CarriesWord(polls(at + 1 + i), more[i].word) {
      assert CarriesWord(polls(at + (1 + i)), ls[1 + i].word);
    }
    assert at + |ls| == at + 1 + |more|;
  }

  /** A bus that delivers `m` within the poll limit makes a read succeed with exactly `m`. */
  lemma {:induction false} V2ReadCompletes(polls: nat -> PollV2, at: nat, limit: nat, size: nat, m: seq<bv8>,
                                           receiving: bool)
    requires DeliversV2(polls, at, size, m) && limit > |LoadsOf(m)|
    ensures V2Read(polls, at, limit, size, |m|, receiving) == ReadRun(true, m)
    decreases |m|
  {
    hide Lanes, FirstBytes, DeliversV2;
    if m == [] {
      EndsV2(polls, at, size);
    } else {
      var n := Min(4, |m|);
      DeliversNextV2(polls, at, size, m);
      LoadsStep(m);
      UnpackPacked(m[..n]);
      V2ReadCompletes(polls, at + 1, limit - 1, size, m[n..], true);
      assert m[..n] + m[n..] == m;
    }
  }

  lemma EndsV2(polls: nat -> PollV2, at: nat, size: nat)
    requires DeliversV2(polls, at, size, [])
    ensures var last := polls(at); last.txEnd && last.sent == size && !last.nack && !last.error && !last.fifo
  {}

  lemma V2WriteAt(polls: nat -> PollV2, at: nat, limit: nat, left: nat)
    ensures left == 0 ==> V2Write(polls, at, limit, left) == WriteRun(Ended(polls, at, limit).ok, 0)
    ensures left > 0 ==>
      var w := Requested(polls, at, limit);
      V2Write(polls, at, limit, left)
      == if !w.ok then WriteRun(false, 0)
         else
           var r := V2Write(polls, w.next, limit, left - 1);
           WriteRun(r.ok, 1 + r.loads)
  {
    hide Requested, Ended;
  }

  lemma V2ReadAt(polls: nat -> PollV2, at: nat, limit: nat, size: nat, left: nat, receiving: bool)
    requires limit > 0
    ensures var p := polls(at);
            var now := receiving || p.rx;
            var got := if now && p.request && p.fifo then FirstBytes(p.word, Min(left, 4)) else [];
            var next := V2Read(polls, at + 1, limit - 1, size, left - |got|, now);
            V2Read(polls, at, limit, size, left, receiving)
            == if p.nack || p.error then ReadRun(false, [])
               else if left == |got| && p.txEnd then ReadRun(p.sent == size, got)
               else ReadRun(next.ok, got + next.bytes)
  {
    hide FirstBytes;
  }

  lemma NoPollsLeft(polls: nat -> PollV2, at: nat, size: nat, left: nat, receiving: bool)
    ensures V2Read(polls, at, 0, size, left, receiving) == ReadRun(false, [])
  {}

  lemma WordsSplit(ls: seq<Load>, n: nat)
    requires n < |ls|
    ensures |Words(ls)| == |ls| && Words(ls)[n] == ls[n].word
  {
    if n > 0 { WordsSplit(ls[1..], n - 1); }
    WordsLength(ls);
  }

  lemma WordsLength(ls: seq<Load>)
    ensures |Words(ls)| == |ls|
  {}

  class DriverV2 {
    // I2C_POLL_LIMIT
    const pollLimit: nat
    var at: nat
    // every word given to TXD, and the packet sizes
    var txd: seq<bv32>
    var sendSize: nat
    var receiveSize: nat
    var rx: seq<bv8>

    constructor (limit: nat)
      ensures pollLimit == limit && at == 0 && txd == [] && rx == []
    {
      pollLimit, at, txd, sendSize, receiveSize, rx := limit, 0, [], 0, 0, [];
    }

    method RequestWait(polls: nat -> PollV2) returns (ok: bool)
      modifies this`at
      ensures Wait(ok, at) == Requested(polls, old(at), pollLimit)
    {
      for i := 0 to pollLimit
        invariant Requested(polls, at, pollLimit - i) == Requested(polls, old(at), pollLimit)
      {
        var p := polls(at);
        at := at + 1;
        if p.request {
          return true;
        }
        if p.nack || p.error {
          return false;
        }
      }
      ok := false;
    }

    method TransferWait(polls: nat -> PollV2) returns (ok: bool)
      modifies this`at
      ensures Wait(ok, at) == Ended(polls, old(at), pollLimit)
    {
      for i := 0 to pollLimit
        invariant Ended(polls, at, pollLimit - i) == Ended(polls, old(at), pollLimit)
      {
        var p := polls(at);
        at := at + 1;
        if p.nack || p.error {
          return false;
        }
        if p.txEnd {
          return true;
        }
      }
      ok := false;
    }

    /** byte_get. */
    static method ByteGet(prefix: seq<bv8>, data: seq<bv8>) returns (b: bv8, prefix': seq<bv8>, data': seq<bv8>)
      requires prefix + data != []
      ensures b == (prefix + data)[0] && prefix' + data' == (prefix + data)[1..]
    {
      if |prefix| != 0 {
        b, prefix', data' := prefix[0], prefix[1..], data;
      } else {
        assert prefix + data == data;
        b, prefix', data' := data[0], prefix, data[1..];
      }
    }

    /** The bytes still to go: address, prefix, data. */
    static function Unsent(address: bv8, pending: bool, payload: seq<bv8>): seq<bv8> {
      (if pending then [SmbusPec.AddressByte(address)] else []) + payload
    }

    /** The next byte of the transfer, the address byte if that is still to come. */
    static method NextByte(address: bv8, pending: bool, prefix: seq<bv8>, data: seq<bv8>)
        returns (b: bv8, pending': bool, prefix': seq<bv8>, data': seq<bv8>)
      requires Unsent(address, pending, prefix + data) != []
      ensures b == Unsent(address, pending, prefix + data)[0]
      ensures Unsent(address, pending', prefix' + data') == Unsent(address, pending, prefix + data)[1..]
    {
      hide SmbusPec.AddressByte;
      if pending {
        b, pending', prefix', data' := SmbusPec.AddressByte(address), false, prefix, data;
      } else {
        assert [] + (prefix + data) == prefix + data;
        pending' := false;
        b, prefix', data' := ByteGet(prefix, data);
      }
    }

    /** The body of the write loop: the next word. */
    static method NextWord(address: bv8, pending: bool, prefix: seq<bv8>, data: seq<bv8>, count: nat)
        returns (word: bv32, pending': bool, prefix': seq<bv8>, data': seq<bv8>)
      requires 1 <= count <= 4 && count <= |Unsent(address, pending, prefix + data)|
      ensures word == Lanes(Unsent(address, pending, prefix + data)[..count], 0)
      ensures Unsent(address, pending', prefix' + data') == Unsent(address, pending, prefix + data)[count..]
    {
      hide Or, Lane, Lanes, Unsent;
      ghost var all := Unsent(address, pending, prefix + data);
      word, pending', prefix', data' := 0, pending, prefix, data;
      NoLanes(0);
      for offset := 0 to count
        invariant Unsent(address, pending', prefix' + data') == all[offset..]
        invariant word == Lanes(all[..offset], 0)
      {
        var b;
        b, pending', prefix', data' := NextByte(address, pending', prefix', data');
        LanesStep(all, offset, 0);
        word := Or(word, Lane(b, offset));
      }
    }

    /** i2c_hw_write; sizes are 32 bits wide and buffers fit in memory. */
    method HwWrite(address: bv8, prefix: seq<bv8>, data: seq<bv8>, polls: nat -> PollV2) returns (ok: bool)
      requires |prefix| + |data| + 1 < WORD
      modifies this
      ensures var ls := V2Loads(address, prefix + data);
              var r := V2Write(polls, old(at), pollLimit, |ls|);
              && ok == r.ok && r.loads <= |Words(ls)|
              && txd == old(txd) + Words(ls)[..r.loads]
      ensures ok ==> txd == old(txd) + Words(V2Loads(address, prefix + data))
      ensures sendSize == SizeSum(V2Loads(address, prefix + data)) == |OnBus(V2Loads(address, prefix + data))|
    {
      hide Lanes, SmbusPec.AddressByte, Requested, Ended, V2Write, LoadsOf, Words, SizeSum, OnBus;
      var total := |prefix| + |data| + 1;
      var left := total;
      var pending, prefix', data' := true, prefix, data;
      ghost var m := Unsent(address, true, prefix + data);
      ghost var ls := LoadsOf(m);
      ghost var whole := V2Write(polls, at, pollLimit, |ls|);
      ghost var done: nat := 0;
      WordsLength(ls);
      OnBusIsMessage(m);
      OnBusSize(ls);
      sendSize := total;
      while left != 0
        invariant left == |Unsent(address, pending, prefix' + data')|
        invariant done <= |ls| && LoadsOf(Unsent(address, pending, prefix' + data')) == ls[done..]
        invariant txd == old(txd) + Words(ls)[..done]
        invariant sendSize == total
        invariant var r := V2Write(polls, at, pollLimit, |ls| - done); whole == WriteRun(r.ok, done + r.loads)
        decreases left
      {
        ghost var unsent := Unsent(address, pending, prefix' + data');
        LoadsStep(unsent);
        V2WriteAt(polls, at, pollLimit, |ls| - done);
        var ready := RequestWait(polls);
        if !ready {
          return false;
        }
        var count := if left < 4 then left else 4;
        var word;
        word, pending, prefix', data' := NextWord(address, pending, prefix', data', count);
        WordsSplit(ls, done);
        assert ls[done..][0] == ls[done] && ls[done..][1..] == ls[done + 1..];
        assert Words(ls)[..done + 1] == Words(ls)[..done] + [Words(ls)[done]];
        txd := txd + [word];
        left := left - count;
        done := done + 1;
      }
      LoadsLeft(Unsent(address, pending, prefix' + data'));
      assert done == |ls|;
      V2WriteAt(polls, at, pollLimit, 0);
      assert Words(ls)[..done] == Words(ls);
      ok := TransferWait(polls);
    }

    /** i2c_hw_read. */
    method HwRead(address: bv8, size: nat, polls: nat -> PollV2) returns (ok: bool)
      modifies this
      ensures size == 0 ==> ok && rx == old(rx) && txd == old(txd)
      ensures size > 0 ==>
        var w := Requested(polls, old(at), pollLimit);
        && (!w.ok ==> !ok && rx == old(rx) && txd == old(txd))
        && (w.ok ==>
              var r := V2Read(polls, w.next, pollLimit, size, size, false);
              && ok == r.ok && rx == old(rx) + r.bytes
              && txd == old(txd) + [Or(WideAddress(address), 1)])
      ensures |rx| <= |old(rx)| + size
      ensures ok ==> |rx| == |old(rx)| + size
    {
      hide Or, WideAddress, Requested, FirstBytes, V2Read;
      if size == 0 {
        return true;
      }
      receiveSize, sendSize := size, 1;
      var ready := RequestWait(polls);
      if !ready {
        return false;
      }
      txd := txd + [Or(WideAddress(address), 1)];
      ghost var whole := V2Read(polls, at, pollLimit, size, size, false);
      ghost var sent := txd;
      var left: nat, receiving := size, false;
      ok := false;
      for i := 0 to pollLimit
        invariant txd == sent
        invariant var r := V2Read(polls, at, pollLimit - i, size, left, receiving);
                  r.ok == whole.ok && rx + r.bytes == old(rx) + whole.bytes
      {
        V2ReadAt(polls, at, pollLimit - i, size, left, receiving);
        ghost var before := rx;
        var p := polls(at);
        at := at + 1;
        if p.nack || p.error {
          return false;
        }
        if p.rx {
          receiving := true;
        }
        if receiving && p.request && p.fifo && left != 0 {
          var count := Min(left, 4);
          rx := rx + FirstBytes(p.word, count);
          left := left - count;
        }
        if left == 0 && p.txEnd {
          return p.sent == size;
        }
        Regroup(before, rx[|before|..], V2Read(polls, at, pollLimit - i - 1, size, left, receiving).bytes);
      }
      NoPollsLeft(polls, at, size, left, receiving);
    }
  }

  /** i2c_smbus_write_pec: what a successful call has sent leaves residue zero. */
  method SmbusWritePec(bus: DriverV2, address: bv8, data: seq<bv8>, polls: nat -> PollV2) returns (ok: bool)
    requires |data| + 2 < WORD
    modifies bus
    ensures ok ==>
      var sent := V2Loads(address, data + [SmbusPec.Pec(address, data)]);
      bus.txd == old(bus.txd) + Words(sent) && SmbusPec.Update(0, OnBus(sent)) == 0
  {
    hide SmbusPec.Update, LoadsOf, Words, SizeSum, OnBus;
    var pec := SmbusPec.PecCalculate(address, data);
    ok := bus.HwWrite(address, data, [pec], polls);
    WriteWithPecChecks(address, data, pec);
  }
}
