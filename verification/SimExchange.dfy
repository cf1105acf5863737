/**
 The T=0 command exchange of the SIM reader (apps/sim-reader/main.c), section 10.3.3 of
 ISO/IEC 7816-3:2006: the card paces the transfer with procedure bytes.
 `rx` is what the card sends in time; running out of it is the reader's timeout.
 */
module SimExchange {
  import opened Bytes

  const HEADER_SIZE: nat := 5
  const MAX_DATA_SIZE: nat := 256
  const RESPONSE_CAPACITY: nat := 258
  const NULL_BYTE: Byte := 0x60

  // ----- what the card may say

  /** One procedure byte: wait, transfer everything left, transfer one byte. */
  datatype Pace = Wait | All | One

  function Complement(ins: Byte): Byte {
    0xFF - ins
  }

  /** Bytes moved once a pace has been served, starting from t of size. */
  function Moved(size: nat, t: nat, pace: Pace): (t': nat)
    requires t <= size
    ensures t <= t' <= size
  {
    match pace
    case Wait => t
    case All => size
    case One => Min(t + 1, size)
  }

  function MovedAll(size: nat, t: nat, paces: seq<Pace>): (t': nat)
    requires t <= size
    ensures t <= t' <= size
    decreases |paces|
  {
    if paces == [] then t else MovedAll(size, Moved(size, t, paces[0]), paces[1..])
  }

  function ProcedureByte(ins: Byte, pace: Pace): Byte {
    match pace
    case Wait => NULL_BYTE
    case All => ins
    case One => Complement(ins)
  }

  /**
   The card's side of an exchange: every procedure byte, followed by the data it announces when the
   card is the sender.
   */
  function Script(ins: Byte, data: seq<Byte>, size: nat, t: nat, paces: seq<Pace>): seq<Byte>
    requires t <= size && (data == [] || |data| == size)
    decreases |paces|
  {
    if paces == [] then []
    else
      var t' := Moved(size, t, paces[0]);
      [ProcedureByte(ins, paces[0])] + (if data == [] then [] else data[t..t'])
      + Script(ins, data, size, t', paces[1..])
  }

  /** A first status byte cannot be mistaken for a procedure byte. */
  predicate IsStatus(ins: Byte, sw1: Byte) {
    sw1 != NULL_BYTE && sw1 != ins && sw1 != Complement(ins)
  }

  /** INS codes whose procedure bytes are not mistaken for NULL; the standard rules out 6X and 9X. */
  predicate ValidIns(ins: Byte) {
    ins != NULL_BYTE && Complement(ins) != NULL_BYTE
  }

  // ----- what the reader makes of it

  datatype Talk = Mute | Talked(transferred: nat, received: seq<Byte>, sw1: Byte, sw2: Byte, rest: seq<Byte>)

  function Prepend(data: seq<Byte>, talk: Talk): Talk {
    if talk.Mute? then Mute else talk.(received := data + talk.received)
  }

  /** The reader's loop on the bytes to come, t of size bytes having been moved. */
  function Listen(ins: Byte, size: nat, receiving: bool, t: nat, rx: seq<Byte>): (talk: Talk)
    requires t <= size
    ensures talk.Talked? ==>
              t <= talk.transferred <= size && |talk.received| == if receiving then talk.transferred - t else 0
    decreases |rx|
  {
    if rx == [] then Mute
    else if rx[0] == NULL_BYTE then Listen(ins, size, receiving, t, rx[1..])
    else if rx[0] == ins || rx[0] == Complement(ins) then
      var t' := Moved(size, t, if rx[0] == ins then All else One);
      var n := if receiving then t' - t else 0;
      if |rx| < 1 + n then Mute
      else Prepend(rx[1..1 + n], Listen(ins, size, receiving, t', rx[1 + n..]))
    else if |rx| < 2 then Mute
    else Talked(t, [], rx[0], rx[1], rx[2..])
  }

  /** Data of the direction in use, for the grammar: what the card sends, or nothing. */
  ghost predicate CardData(receiving: bool, size: nat, data: seq<Byte>) {
    if receiving then |data| == size else data == []
  }

  /** Whatever the pacing, the reader ends with exactly the data moved and the status. */
  lemma {:induction false} ListenToScript(ins: Byte, size: nat, receiving: bool, data: seq<Byte>, t: nat,
                                          paces: seq<Pace>, sw1: Byte, sw2: Byte, rest: seq<Byte>)
    requires t <= size && CardData(receiving, size, data)
    requires ValidIns(ins) && IsStatus(ins, sw1)
    ensures var t' := MovedAll(size, t, paces);
            Listen(ins, size, receiving, t, Script(ins, data, size, t, paces) + [sw1, sw2] + rest)
            == Talked(t', if receiving then data[t..t'] else [], sw1, sw2, rest)
    decreases |paces|
  {
    hide Listen, MovedAll, Moved;
    if paces == [] {
      ListenToStatus(ins, size, receiving, t, sw1, sw2, rest);
      assert Script(ins, data, size, t, paces) + [sw1, sw2] + rest == [sw1, sw2] + rest;
      assert receiving ==> data[t..t] == [];
      MovedAllStep(size, t, paces);
    } else {
      var pace := paces[0];
      var t' := Moved(size, t, pace);
      MovedAllStep(size, t, paces);
      var chunk := if data == [] then [] else data[t..t'];
      var more := Script(ins, data, size, t', paces[1..]) + [sw1, sw2] + rest;
      ChunkSize(size, receiving, data, t, t');
      ListenToPace(ins, size, receiving, t, pace, chunk, more);
      assert Script(ins, data, size, t, paces) + [sw1, sw2] + rest == [ProcedureByte(ins, pace)] + chunk + more;
      ListenToScript(ins, size, receiving, data, t', paces[1..], sw1, sw2, rest);
      DataJoins(size, receiving, data, t, t', MovedAll(size, t', paces[1..]));
    }
  }

  lemma MovedAllStep(size: nat, t: nat, paces: seq<Pace>)
    requires t <= size
    ensures MovedAll(size, t, paces) == if paces == [] then t else MovedAll(size, Moved(size, t, paces[0]), paces[1..])
  {}

  lemma ChunkSize(size: nat, receiving: bool, data: seq<Byte>, t: nat, t': nat)
    requires t <= t' <= size && CardData(receiving, size, data)
    ensures var chunk := if data == [] then [] else data[t..t'];
            |chunk| == if receiving then t' - t else 0
  {}

  lemma DataJoins(size: nat, receiving: bool, data: seq<Byte>, t: nat, t': nat, t'': nat)
    requires t <= t' <= t'' <= size && CardData(receiving, size, data)
    ensures (if data == [] then [] else data[t..t']) + (if receiving then data[t'..t''] else [])
            == if receiving then data[t..t''] else []
  {
    if receiving && data != [] {
      assert data[t..t'] + data[t'..t''] == data[t..t''];
    }
  }

  lemma ListenToStatus(ins: Byte, size: nat, receiving: bool, t: nat, sw1: Byte, sw2: Byte, rest: seq<Byte>)
    requires t <= size && IsStatus(ins, sw1)
    ensures Listen(ins, size, receiving, t, [sw1, sw2] + rest) == Talked(t, [], sw1, sw2, rest)
  {
    var rx := [sw1, sw2] + rest;
    assert rx[0] == sw1 && rx[1] == sw2 && rx[2..] == rest;
  }

  /** One procedure byte moves exactly its chunk. */
  lemma ListenToPace(ins: Byte, size: nat, receiving: bool, t: nat, pace: Pace, chunk: seq<Byte>, more: seq<Byte>)
    requires t <= size && ValidIns(ins)
    requires |chunk| == if receiving then Moved(size, t, pace) - t else 0
    ensures Listen(ins, size, receiving, t, [ProcedureByte(ins, pace)] + chunk + more)
            == Prepend(chunk, Listen(ins, size, receiving, Moved(size, t, pace), more))
  {
    var rx := [ProcedureByte(ins, pace)] + chunk + more;
    assert rx[0] == ProcedureByte(ins, pace);
    assert rx[1..1 + |chunk|] == chunk && rx[1 + |chunk|..] == more;
    var after := Listen(ins, size, receiving, Moved(size, t, pace), more);
    if pace == Wait && after.Talked? {
      assert chunk == [] && chunk + after.received == after.received;
    }
  }

  /** The pace a procedure byte stands for. */
  function PaceOf(ins: Byte, b: Byte): Pace {
    if b == NULL_BYTE then Wait else if b == ins then All else One
  }

  /** Conversely: if the reader succeeds on any bytes at all, those bytes are a paced script with a status after it. */
  lemma {:induction false} ListenedIsScript(ins: Byte, size: nat, receiving: bool, t: nat, rx: seq<Byte>,
                                            head: seq<Byte>)
    returns (paces: seq<Pace>, data: seq<Byte>)
    requires t <= size && Listen(ins, size, receiving, t, rx).Talked?
    requires |head| == if receiving then t else 0
    ensures CardData(receiving, size, data)
    ensures receiving ==> data[..t] == head
    ensures var talk := Listen(ins, size, receiving, t, rx);
            && IsStatus(ins, talk.sw1)
            && MovedAll(size, t, paces) == talk.transferred
            && talk.received == (if receiving then data[t..talk.transferred] else [])
            && rx == Script(ins, data, size, t, paces) + [talk.sw1, talk.sw2] + talk.rest
    decreases |rx|
  {
    hide Listen, Script, MovedAll, Moved, IsStatus, PaceOf, ProcedureByte;
    var talk := Listen(ins, size, receiving, t, rx);
    ListenStep(ins, size, receiving, t, rx);
    if IsStatus(ins, rx[0]) {
      paces := [];
      data := if receiving then head + seq(size - t, _ => 0) else [];
      MovedAllStep(size, t, paces);
      ScriptEnds(ins, data, size, t);
      assert receiving ==> data[t..t] == [] && data[..t] == head;
    } else {
      var pace := PaceOf(ins, rx[0]);
      var t' := Moved(size, t, pace);
      var n := if receiving then t' - t else 0;
      var chunk, more := rx[1..1 + n], rx[1 + n..];
      var later;
      later, data := ListenedIsScript(ins, size, receiving, t', more, head + chunk);
      paces := [pace] + later;
      assert paces[1..] == later;
      MovedAllStep(size, t, paces);
      ScriptJoins(ins, size, receiving, data, t, pace, later, head, chunk);
      if receiving {
        SliceJoins(data, t, t', talk.transferred);
      }
      ConcatRight([rx[0]] + chunk, Script(ins, data, size, t', later), [talk.sw1, talk.sw2], talk.rest);
    }
  }

  lemma ConcatRight(a: seq<Byte>, b: seq<Byte>, c: seq<Byte>, d: seq<Byte>)
    ensures a + b + c + d == a + (b + c + d)
  {}

  lemma SliceJoins(s: seq<Byte>, i: nat, j: nat, k: nat)
    requires i <= j <= k <= |s|
    ensures s[i..j] + s[j..k] == s[i..k]
  {}

  lemma ScriptEnds(ins: Byte, data: seq<Byte>, size: nat, t: nat)
    requires t <= size && (data == [] || |data| == size)
    ensures Script(ins, data, size, t, []) == []
  {}

  lemma MovedWait(size: nat, t: nat)
    requires t <= size
    ensures Moved(size, t, Wait) == t
  {}

  /** One turn of the loop: either the status, or a procedure byte with its chunk. */
  lemma ListenStep(ins: Byte, size: nat, receiving: bool, t: nat, rx: seq<Byte>)
    requires t <= size && Listen(ins, size, receiving, t, rx).Talked?
    ensures rx != []
    ensures IsStatus(ins, rx[0]) ==>
              |rx| >= 2 && Listen(ins, size, receiving, t, rx) == Talked(t, [], rx[0], rx[1], rx[2..])
              && rx == [rx[0], rx[1]] + rx[2..]
    ensures !IsStatus(ins, rx[0]) ==>
              var pace := PaceOf(ins, rx[0]);
              var t' := Moved(size, t, pace);
              var n := if receiving then t' - t else 0;
              && |rx| >= 1 + n && rx[0] == ProcedureByte(ins, pace)
              && rx == [rx[0]] + rx[1..1 + n] + rx[1 + n..]
              && Listen(ins, size, receiving, t, rx)
                == Prepend(rx[1..1 + n], Listen(ins, size, receiving, t', rx[1 + n..]))
  {
    hide Moved;
    MovedWait(size, t);
    if rx[0] == NULL_BYTE {
      assert rx[1..1] == [];
      var after := Listen(ins, size, receiving, t, rx[1..]);
      assert [] + after.received == after.received;
    }
  }

  lemma ScriptJoins(ins: Byte, size: nat, receiving: bool, data: seq<Byte>, t: nat, pace: Pace, later: seq<Pace>,
                    head: seq<Byte>, chunk: seq<Byte>)
    requires t <= size && CardData(receiving, size, data)
    requires |head| == (if receiving then t else 0) && |chunk| == if receiving then Moved(size, t, pace) - t else 0
    requires receiving ==> data[..Moved(size, t, pace)] == head + chunk
    ensures receiving ==> data[..t] == head && data[t..Moved(size, t, pace)] == chunk
    ensures Script(ins, data, size, t, [pace] + later)
            == [ProcedureByte(ins, pace)] + chunk + Script(ins, data, size, Moved(size, t, pace), later)
  {
    var t' := Moved(size, t, pace);
    assert ([pace] + later)[1..] == later;
    if receiving {
      assert data[..t] == data[..t'][..t] && data[t..t'] == data[..t'][t..];
    }
  }

  /**
   Two cards that move the same data and give the same status are indistinguishable to the host,
   however they pace it.
   */
  lemma PacingIndependent(ins: Byte, size: nat, receiving: bool, data: seq<Byte>, paces: seq<Pace>, paces': seq<Pace>,
                          sw1: Byte, sw2: Byte)
    requires CardData(receiving, size, data) && ValidIns(ins) && IsStatus(ins, sw1)
    requires MovedAll(size, 0, paces) == MovedAll(size, 0, paces')
    ensures Listen(ins, size, receiving, 0, Script(ins, data, size, 0, paces) + [sw1, sw2])
         == Listen(ins, size, receiving, 0, Script(ins, data, size, 0, paces') + [sw1, sw2])
  {
    hide Listen, Script;
    ListenToScript(ins, size, receiving, data, 0, paces, sw1, sw2, []);
    ListenToScript(ins, size, receiving, data, 0, paces', sw1, sw2, []);
    var a, b := Script(ins, data, size, 0, paces) + [sw1, sw2], Script(ins, data, size, 0, paces') + [sw1, sw2];
    assert a + [] == a && b + [] == b;
  }

  /** What the reader makes of a card that paces its data one way and then gives its status. */
  function Heard(ins: Byte, size: nat, receiving: bool, data: seq<Byte>, paces: seq<Pace>, sw1: Byte, sw2: Byte): Talk
    requires data == [] || |data| == size
  {
    Listen(ins, size, receiving, 0, Script(ins, data, size, 0, paces) + [sw1, sw2])
  }

  ghost predicate PacingIrrelevant(ins: Byte) {
    forall size: nat, receiving: bool, data: seq<Byte>, paces: seq<Pace>, paces': seq<Pace>, sw1: Byte, sw2: Byte ::
      CardData(receiving, size, data) && IsStatus(ins, sw1) && MovedAll(size, 0, paces) == MovedAll(size, 0, paces') ==>
        Heard(ins, size, receiving, data, paces, sw1, sw2) == Heard(ins, size, receiving, data, paces', sw1, sw2)
  }

  /** A card sending a single byte, announced either way. */
  lemma OneByteScript(ins: Byte, pace: Pace)
    requires pace != Wait
    ensures Script(ins, [1], 1, 0, [pace]) + [0x90, 0] == [ProcedureByte(ins, pace), 1, 0x90, 0]
    ensures MovedAll(1, 0, [pace]) == 1
  {
    assert [pace][1..] == [];
    assert Moved(1, 0, pace) == 1;
    ScriptEnds(ins, [1], 1, 1);
    var data: seq<Byte> := [1];
    assert data[0..1] == data;
  }

  /** A procedure byte that reads as NULL has the data after it taken for the status; any other is heard as meant. */
  lemma OneByteHeard(ins: Byte, pace: Pace)
    requires pace != Wait && ins != 1 && Complement(ins) != 1 && IsStatus(ins, 0x90)
    ensures Heard(ins, 1, true, [1], [pace], 0x90, 0)
            == if ProcedureByte(ins, pace) == NULL_BYTE then Talked(0, [], 1, 0x90, [0])
              else Talked(1, [1], 0x90, 0, [])
  {
    hide Script;
    OneByteScript(ins, pace);
    var b := ProcedureByte(ins, pace);
    var rx := [b, 1, 0x90, 0];
    if b == NULL_BYTE {
      ListenToStatus(ins, 1, true, 0, 1, 0x90, [0]);
      assert rx[1..] == [1, 0x90] + [0];
    } else {
      ListenToStatus(ins, 1, true, 1, 0x90, 0, []);
      assert rx[1..2] == [1] && rx[2..] == [0x90, 0] + [];
      var one: seq<Byte> := [1];
      assert one + [] == one;
      assert Moved(1, 0, All) == 1 && Moved(1, 0, One) == 1;
    }
  }

  lemma ValidInsUnpaced(ins: Byte)
    requires ValidIns(ins)
    ensures PacingIrrelevant(ins)
  {
    hide Heard, MovedAll, ValidIns, IsStatus;
    forall size: nat, receiving: bool, data: seq<Byte>, paces: seq<Pace>, paces': seq<Pace>, sw1: Byte, sw2: Byte
      | CardData(receiving, size, data) && IsStatus(ins, sw1) && MovedAll(size, 0, paces) == MovedAll(size, 0, paces')
      ensures Heard(ins, size, receiving, data, paces, sw1, sw2) == Heard(ins, size, receiving, data, paces', sw1, sw2)
    {
      SameHearing(ins, size, receiving, data, paces, paces', sw1, sw2);
    }
  }

  lemma SameHearing(ins: Byte, size: nat, receiving: bool, data: seq<Byte>, paces: seq<Pace>, paces': seq<Pace>,
                    sw1: Byte, sw2: Byte)
    requires CardData(receiving, size, data) && ValidIns(ins) && IsStatus(ins, sw1)
    requires MovedAll(size, 0, paces) == MovedAll(size, 0, paces')
    ensures Heard(ins, size, receiving, data, paces, sw1, sw2) == Heard(ins, size, receiving, data, paces', sw1, sw2)
  {
    hide Listen, Script;
    PacingIndependent(ins, size, receiving, data, paces, paces', sw1, sw2);
  }

  /**
   The way a card paces its data is invisible exactly for the INS codes whose procedure bytes are not
   NULL, which leaves out 0x60 and 0x9F.
   */
  lemma PacingIrrelevantIff(ins: Byte)
    ensures PacingIrrelevant(ins) <==> ValidIns(ins)
  {
    hide Heard, MovedAll;
    if ValidIns(ins) {
      ValidInsUnpaced(ins);
    } else {
      assert ins == 0x60 || ins == 0x9F;
      OneByteScript(ins, All);
      OneByteScript(ins, One);
      OneByteHeard(ins, All);
      OneByteHeard(ins, One);
      assert CardData(true, 1, [1]) && IsStatus(ins, 0x90);
      assert Heard(ins, 1, true, [1], [All], 0x90, 0) != Heard(ins, 1, true, [1], [One], 0x90, 0);
    }
  }

  // ----- the reader

  /** The SIM interface: bytes the card still sends in time, bytes loaded for it, and how many sends it will confirm. */
  class Sim {
    var rx: seq<Byte>
    var sent: seq<Byte>
    var confirmations: nat

    /** sim_send_byte. */
    method SendByte(value: Byte) returns (ok: bool)
      modifies this`sent, this`confirmations
      ensures sent == old(sent) + [value]
      ensures ok == (old(confirmations) > 0)
      ensures confirmations == if ok then old(confirmations) - 1 else 0
    {
      sent := sent + [value];
      ok := confirmations > 0;
      confirmations := if ok then confirmations - 1 else 0;
    }

    /** sim_receive_byte. */
    method ReceiveByte() returns (ok: bool, value: Byte)
      modifies this`rx
      ensures ok == (old(rx) != [])
      ensures ok ==> value == old(rx)[0] && rx == old(rx)[1..]
      ensures !ok ==> rx == old(rx)
    {
      if rx == [] {
        return false, 0;
      }
      ok, value := true, rx[0];
      rx := rx[1..];
    }

    /** sim_receive_procedure: NULL bytes only ask for patience. */
    method ReceiveProcedure(ghost ins: Byte, ghost size: nat, ghost receiving: bool, ghost t: nat)
      returns (ok: bool, value: Byte)
      requires t <= size
      modifies this`rx
      ensures ok ==> value != NULL_BYTE && |rx| < |old(rx)|
      ensures ok ==> Listen(ins, size, receiving, t, [value] + rx) == Listen(ins, size, receiving, t, old(rx))
      ensures !ok ==> Listen(ins, size, receiving, t, old(rx)).Mute?
    {
      value := NULL_BYTE;
      while value == NULL_BYTE
        invariant value == NULL_BYTE ==> Listen(ins, size, receiving, t, rx) == Listen(ins, size, receiving, t, old(rx))
        invariant value != NULL_BYTE ==>
                    Listen(ins, size, receiving, t, [value] + rx) == Listen(ins, size, receiving, t, old(rx))
        invariant |rx| <= |old(rx)| && (value != NULL_BYTE ==> |rx| < |old(rx)|)
        decreases |rx|, value == NULL_BYTE
      {
        ghost var before := rx;
        ok, value := ReceiveByte();
        if !ok {
          return false, 0;
        }
        assert before == [value] + rx;
      }
      ok := true;
    }

    /** Data to the card: the next `chunk` bytes of the TPDU. */
    method SendChunk(tpdu: seq<Byte>, t: nat, chunk: nat, ghost before: seq<Byte>) returns (ok: bool, transferred: nat)
      requires HEADER_SIZE + t + chunk <= |tpdu|
      requires sent == before + tpdu[..HEADER_SIZE + t]
      modifies this`sent, this`confirmations
      ensures ok == (old(confirmations) >= chunk)
      ensures ok ==> transferred == t + chunk && confirmations == old(confirmations) - chunk
      ensures ok ==> sent == before + tpdu[..HEADER_SIZE + transferred]
      ensures SentPrefix(before, sent, tpdu)
    {
      transferred := t;
      for i := 0 to chunk
        invariant transferred == t + i
        invariant old(confirmations) >= i && confirmations == old(confirmations) - i
        invariant sent == before + tpdu[..HEADER_SIZE + transferred]
      {
        ok := SendByte(tpdu[HEADER_SIZE + transferred]);
        assert tpdu[..HEADER_SIZE + transferred + 1]
          == tpdu[..HEADER_SIZE + transferred] + [tpdu[HEADER_SIZE + transferred]];
        if !ok {
          return;
        }
        transferred := transferred + 1;
      }
      ok := true;
    }

    /** Data from the card: the next `chunk` bytes of the response. */
    method ReceiveChunk(response: array<Byte>, responseSize: nat, chunk: nat) returns (ok: bool, newSize: nat)
      requires responseSize + chunk <= response.Length
      modifies this`rx, response
      ensures responseSize <= newSize <= responseSize + chunk
      ensures ok == (|old(rx)| >= chunk)
      ensures ok ==> newSize == responseSize + chunk && rx == old(rx)[chunk..]
      ensures ok ==> response[..newSize] == old(response[..responseSize]) + old(rx)[..chunk]
    {
      newSize := responseSize;
      for i := 0 to chunk
        invariant newSize == responseSize + i && |old(rx)| >= i && rx == old(rx)[i..]
        invariant response[..newSize] == old(response[..responseSize]) + old(rx)[..i]
      {
        var value;
        ok, value := ReceiveByte();
        newSize := newSize + 1;
        if !ok {
          return;
        }
        response[newSize - 1] := value;
        assert old(rx)[..i + 1] == old(rx)[..i] + [old(rx)[i]];
        assert response[..newSize] == response[..newSize - 1] + [value];
      }
      ok := true;
    }

    /**
     sim_exchange_tpdu. A header alone asks the card for P3 bytes (0 meaning 256); a longer TPDU
     carries the data to send. The response is the data received followed by SW1 SW2.
     */
    method ExchangeTpdu(tpdu: seq<Byte>, response: array<Byte>) returns (ok: bool, responseSize: nat, ghost talk: Talk)
      requires HEADER_SIZE <= |tpdu| <= HEADER_SIZE + MAX_DATA_SIZE && response.Length == RESPONSE_CAPACITY
      modifies this, response
      ensures talk == Listen(tpdu[1], DataSize(tpdu), |tpdu| == HEADER_SIZE, 0, old(rx))
      ensures ok ==> talk.Talked?
      ensures old(confirmations) >= |tpdu| ==> ok == talk.Talked?
      ensures responseSize <= RESPONSE_CAPACITY
      ensures ok ==> response[..responseSize] == talk.received + [talk.sw1, talk.sw2]
      ensures ok ==> rx == talk.rest
      ensures ok ==> sent == old(sent) + if |tpdu| == HEADER_SIZE then tpdu else tpdu[..HEADER_SIZE + talk.transferred]
      ensures SentPrefix(old(sent), sent, tpdu)
    {
      hide Listen, Moved, Resume, DataSize, SentPrefix;
      var ins, receiving, size := tpdu[1], |tpdu| == HEADER_SIZE, DataSize(tpdu);
      DataSizeFits(tpdu);
      talk := Listen(ins, size, receiving, 0, rx);
      responseSize := 0;
      ok := SendHeader(tpdu);
      if !ok {
        return;
      }
      var t: nat := 0;
      ResumeNothing(talk);
      assert response[..0] == [];
      HeaderSent(old(sent), sent, tpdu, 0);
      while true
        invariant t <= size && responseSize == if receiving then t else 0
        invariant sent == old(sent) + tpdu[..HEADER_SIZE + if receiving then 0 else t]
        invariant old(confirmations) >= |tpdu| && !receiving ==> confirmations >= size - t
        invariant SentPrefix(old(sent), sent, tpdu)
        invariant talk == Resume(response[..responseSize], Listen(ins, size, receiving, t, rx))
        decreases |rx|
      {
        ResumeEnds(response[..responseSize], Listen(ins, size, receiving, t, rx));
        var procedure;
        ok, procedure := ReceiveProcedure(ins, size, receiving, t);
        if !ok {
          return;
        }
        ListenNext(ins, size, receiving, t, procedure, rx);
        var chunk: nat;
        if procedure == ins {
          chunk := size - t;
        } else if procedure == Complement(ins) {
          chunk := if t < size then 1 else 0;
        } else {
          ok, responseSize := ReceiveStatus(procedure, response, responseSize);
          return;
        }
        ghost var arrived, got := rx, response[..responseSize];
        ghost var k := if receiving then chunk else 0;
        ok, t, responseSize := Transfer(tpdu, response, responseSize, receiving, t, chunk, old(sent));
        if !ok {
          return;
        }
        ResumeMore(got, arrived[..k], Listen(ins, size, receiving, t, rx));
      }
    }

    /** The inner loop: one chunk in the direction of this exchange. */
    method Transfer(tpdu: seq<Byte>, response: array<Byte>, responseSize: nat, receiving: bool, t: nat, chunk: nat,
                    ghost before: seq<Byte>)
      returns (ok: bool, transferred: nat, newSize: nat)
      requires HEADER_SIZE <= |tpdu|
      requires responseSize + (if receiving then chunk else 0) <= response.Length
      requires !receiving ==> HEADER_SIZE + t + chunk <= |tpdu|
      requires sent == before + tpdu[..HEADER_SIZE + if receiving then 0 else t]
      modifies this, response
      ensures ok == (if receiving then |old(rx)| >= chunk else old(confirmations) >= chunk)
      ensures newSize <= responseSize + if receiving then chunk else 0
      ensures SentPrefix(before, sent, tpdu)
      ensures ok ==>
                && transferred == t + chunk
                && newSize == responseSize + (if receiving then chunk else 0)
                && sent == before + tpdu[..HEADER_SIZE + if receiving then 0 else transferred]
                && confirmations == old(confirmations) - (if receiving then 0 else chunk)
                && rx == old(rx)[if receiving then chunk else 0..]
                && response[..newSize] == old(response[..responseSize]) + old(rx)[..if receiving then chunk else 0]
    {
      transferred, newSize := t, responseSize;
      if receiving {
        HeaderSent(before, sent, tpdu, 0);
        ok, newSize := ReceiveChunk(response, responseSize, chunk);
        if ok {
          transferred := t + chunk;
        }
      } else {
        ok, transferred := SendChunk(tpdu, t, chunk, before);
        assert old(rx)[..0] == [];
        assert response[..newSize] + [] == response[..newSize];
      }
    }

    method SendHeader(tpdu: seq<Byte>) returns (ok: bool)
      requires HEADER_SIZE <= |tpdu|
      modifies this`sent, this`confirmations
      ensures ok == (old(confirmations) >= HEADER_SIZE)
      ensures ok ==> sent == old(sent) + tpdu[..HEADER_SIZE] && confirmations == old(confirmations) - HEADER_SIZE
      ensures SentPrefix(old(sent), sent, tpdu)
    {
      assert tpdu[..0] == [];
      for i := 0 to HEADER_SIZE
        invariant old(confirmations) >= i && confirmations == old(confirmations) - i
        invariant sent == old(sent) + tpdu[..i]
      {
        ok := SendByte(tpdu[i]);
        assert tpdu[..i + 1] == tpdu[..i] + [tpdu[i]];
        if !ok {
          return;
        }
      }
      ok := true;
    }

    /** SW1 is the byte just seen; SW2 follows. */
    method ReceiveStatus(sw1: Byte, response: array<Byte>, at: nat) returns (ok: bool, responseSize: nat)
      requires at + 2 <= response.Length
      modifies this`rx, response
      ensures responseSize == at + 2
      ensures ok == (old(rx) != [])
      ensures ok ==> rx == old(rx)[1..] && response[..responseSize] == old(response[..at]) + [sw1, old(rx)[0]]
    {
      response[at] := sw1;
      var sw2;
      ok, sw2 := ReceiveByte();
      responseSize := at + 2;
      if ok {
        response[at + 1] := sw2;
      }
    }
  }

  /** sim_header_to_data_size for a bare header, the length of the data otherwise. */
  function DataSize(tpdu: seq<Byte>): (n: nat)
    requires HEADER_SIZE <= |tpdu|
  {
    if |tpdu| > HEADER_SIZE then |tpdu| - HEADER_SIZE
    else if tpdu[4] != 0 then tpdu[4] else MAX_DATA_SIZE
  }

  /** A status whose first byte is none of NULL, INS and its complement. */
  predicate PlainStatus(ins: Byte, sw1: Byte) {
    sw1 != 0x60 && sw1 != ins && sw1 + ins != 0xFF
  }

  /**
   A card that acknowledges with INS: for a bare header it then sends as many bytes as P3 says, 256 for 0,
   otherwise it takes all bytes after the header; its status ends the exchange.
   */
  lemma AcknowledgedAtOnce(tpdu: seq<Byte>, data: seq<Byte>, sw1: Byte, sw2: Byte, rest: seq<Byte>)
    requires 5 <= |tpdu| <= 261 && tpdu[1] != 0x60 && PlainStatus(tpdu[1], sw1)
    requires |tpdu| == 5 ==> |data| == if tpdu[4] == 0 then 256 else tpdu[4]
    ensures |tpdu| == 5 ==>
              Listen(tpdu[1], DataSize(tpdu), true, 0, [tpdu[1]] + data + [sw1, sw2] + rest)
              == Talked(|data|, data, sw1, sw2, rest)
    ensures |tpdu| > 5 ==>
              Listen(tpdu[1], DataSize(tpdu), false, 0, [tpdu[1], sw1, sw2] + rest)
              == Talked(|tpdu| - 5, [], sw1, sw2, rest)
  {
    hide Listen, Moved;
    var ins, size := tpdu[1], DataSize(tpdu);
    var more := [sw1, sw2] + rest;
    if |tpdu| == 5 {
      ListenNext(ins, size, true, 0, ins, data + more);
      ListenToStatus(ins, size, true, size, sw1, sw2, rest);
      assert [ins] + data + [sw1, sw2] + rest == [ins] + (data + more);
      assert (data + more)[..size] == data && (data + more)[size..] == more;
      assert data + [] == data;
    } else {
      ListenNext(ins, size, false, 0, ins, more);
      ListenToStatus(ins, size, false, size, sw1, sw2, rest);
      assert [ins, sw1, sw2] + rest == [ins] + more;
      assert more[..0] == [] && more[0..] == more;
    }
  }

  /** NULL changes nothing. */
  lemma NullIgnored(ins: Byte, size: nat, receiving: bool, t: nat, rx: seq<Byte>)
    requires t <= size
    ensures Listen(ins, size, receiving, t, [0x60] + rx) == Listen(ins, size, receiving, t, rx)
  {
    hide Prepend, Moved;
    var all := [0x60] + rx;
    assert all[0] == 0x60 && all[1..] == rx;
  }

  /** The complement of INS moves a single byte while one is left. */
  lemma OneByteMoved(ins: Byte, size: nat, t: nat, b: Byte, rx: seq<Byte>)
    requires t < size && ins != 0x60 && ins != 0x9F
    ensures Listen(ins, size, true, t, [0xFF - ins, b] + rx) == Prepend([b], Listen(ins, size, true, t + 1, rx))
    ensures Listen(ins, size, false, t, [0xFF - ins] + rx) == Listen(ins, size, false, t + 1, rx)
  {
    hide Listen, Moved, Prepend;
    var c: Byte := 0xFF - ins;
    ListenNext(ins, size, true, t, c, [b] + rx);
    assert [c, b] + rx == [c] + ([b] + rx);
    assert ([b] + rx)[..1] == [b] && ([b] + rx)[1..] == rx;
    ListenNext(ins, size, false, t, c, rx);
    assert rx[..0] == [] && rx[0..] == rx;
    ResumeNothing(Listen(ins, size, false, t + 1, rx));
  }

  /** A talk of which `got` has been received already. */
  function Resume(got: seq<Byte>, talk: Talk): Talk {
    Prepend(got, talk)
  }

  lemma ResumeNothing(talk: Talk)
    ensures Resume([], talk) == talk
  {
    if talk.Talked? {
      assert [] + talk.received == talk.received;
    }
  }

  /** What has gone out is the start of the TPDU, in order. */
  ghost predicate SentPrefix(before: seq<Byte>, now: seq<Byte>, tpdu: seq<Byte>) {
    exists n: nat :: n <= |tpdu| && now == before + tpdu[..n]
  }

  lemma ResumeEnds(got: seq<Byte>, talk: Talk)
    ensures talk.Mute? ==> Resume(got, talk).Mute?
    ensures talk.Talked? ==> Resume(got, talk) == talk.(received := got + talk.received)
    ensures talk.Talked? && talk.received == [] ==> Resume(got, talk) == talk.(received := got)
  {
    if talk.Talked? && talk.received == [] {
      assert got + [] == got;
    }
  }

  lemma HeaderSent(before: seq<Byte>, now: seq<Byte>, tpdu: seq<Byte>, t: nat)
    requires HEADER_SIZE + t <= |tpdu| && now == before + tpdu[..HEADER_SIZE + t]
    ensures SentPrefix(before, now, tpdu)
  {}

  lemma DataSizeFits(tpdu: seq<Byte>)
    requires HEADER_SIZE <= |tpdu| <= HEADER_SIZE + MAX_DATA_SIZE
    ensures 0 < DataSize(tpdu) <= MAX_DATA_SIZE
    ensures |tpdu| > HEADER_SIZE ==> HEADER_SIZE + DataSize(tpdu) == |tpdu|
  {}

  lemma ResumeMore(got: seq<Byte>, chunk: seq<Byte>, talk: Talk)
    ensures Resume(got, Prepend(chunk, talk)) == Resume(got + chunk, talk)
  {
    if talk.Talked? {
      assert got + (chunk + talk.received) == got + chunk + talk.received;
    }
  }

  lemma MovedBy(size: nat, t: nat)
    requires t <= size
    ensures Moved(size, t, All) == size && Moved(size, t, One) == t + if t < size then 1 else 0
  {}

  /** What the reader's next move is, once a byte other than NULL has come. */
  lemma ListenNext(ins: Byte, size: nat, receiving: bool, t: nat, b: Byte, rx: seq<Byte>)
    requires t <= size && b != NULL_BYTE
    ensures var talk := Listen(ins, size, receiving, t, [b] + rx);
            if b == ins || b == Complement(ins) then
              var n := if b == ins then size - t else if t < size then 1 else 0;
              var k := if receiving then n else 0;
              talk == if |rx| < k then Mute else Prepend(rx[..k], Listen(ins, size, receiving, t + n, rx[k..]))
            else talk == if rx == [] then Mute else Talked(t, [], b, rx[0], rx[1..])
  {
    hide Listen, Moved;
    if b == ins || b == Complement(ins) {
      MovedBy(size, t);
      ListenChunk(ins, size, receiving, t, b, rx);
    } else {
      ListenLast(ins, size, receiving, t, b, rx);
    }
  }

  lemma ListenChunk(ins: Byte, size: nat, receiving: bool, t: nat, b: Byte, rx: seq<Byte>)
    requires t <= size && b != NULL_BYTE && (b == ins || b == Complement(ins))
    ensures var t' := Moved(size, t, if b == ins then All else One);
            var k := if receiving then t' - t else 0;
            Listen(ins, size, receiving, t, [b] + rx)
            == if |rx| < k then Mute else Prepend(rx[..k], Listen(ins, size, receiving, t', rx[k..]))
  {
    hide Moved, Prepend;
    var all := [b] + rx;
    var t' := Moved(size, t, if b == ins then All else One);
    var k := if receiving then t' - t else 0;
    assert all[0] == b;
    if |rx| >= k {
      assert all[1..1 + k] == rx[..k] && all[1 + k..] == rx[k..];
    }
  }

  lemma ListenLast(ins: Byte, size: nat, receiving: bool, t: nat, b: Byte, rx: seq<Byte>)
    requires t <= size && IsStatus(ins, b)
    ensures Listen(ins, size, receiving, t, [b] + rx) == if rx == [] then Mute else Talked(t, [], b, rx[0], rx[1..])
  {
    if rx != [] {
      ListenToStatus(ins, size, receiving, t, b, rx[0], rx[1..]);
      assert [b] + rx == [b, rx[0]] + rx[1..];
    }
  }
}
