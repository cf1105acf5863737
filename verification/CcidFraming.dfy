/**
 CCID over serial between the PC (apps/sim-reader/sim-reader.py) and the SIM reader
 (apps/sim-reader/main.c): framing, checksums, echo and reply.
 */
module CcidFraming {
  import opened Bytes

  const SYNC: Byte := 0x03
  const ACK: Byte := 0x06
  const NAK: Byte := 0x15
  const HEADER_SIZE: nat := 10
  const MAX_DATA_SIZE: nat := 261
  const ICC_INACTIVE: Byte := 0x01
  const COMMAND_FAILED: Byte := 0x40

  type Header = h: seq<Byte> | |h| == 10 witness [0, 0, 0, 0, 0, 0, 0, 0, 0, 0]

  function Xor(a: Byte, b: Byte): Byte {
    ((a as bv8) ^ (b as bv8)) as int
  }

  function Fold(start: Byte, s: seq<Byte>): Byte {
    if s == [] then start else Xor(Fold(start, s[..|s| - 1]), s[|s| - 1])
  }

  lemma {:induction false} FoldAppend(start: Byte, a: seq<Byte>, b: seq<Byte>)
    ensures Fold(start, a + b) == Fold(Fold(start, a), b)
    decreases |b|
  {
    hide Xor;
    if b == [] {
      assert a + b == a;
    } else {
      FoldAppend(start, a, b[..|b| - 1]);
      assert (a + b)[..|a + b| - 1] == a + b[..|b| - 1];
    }
  }

  /** The device starts from SYNC ^ ACK, the host folds the two bytes in: the same checksum. */
  function Lrc(header: Header, data: seq<Byte>): Byte {
    Fold(Xor(SYNC, ACK), header + data)
  }

  lemma LrcInParts(header: Header, data: seq<Byte>)
    ensures Lrc(header, data) == Fold(Fold(Xor(SYNC, ACK), header), data)
  {
    hide Xor, Fold;
    FoldAppend(Xor(SYNC, ACK), header, data);
  }

  function DataLength(header: Header): Word32 {
    Word32At(header, 1)
  }

  function Frame(header: Header, data: seq<Byte>): seq<Byte> {
    [SYNC, ACK] + header + data + [Lrc(header, data)]
  }

  /** A header that announces exactly the data that goes with it, within the reader's buffer. */
  predicate Matching(header: Header, data: seq<Byte>) {
    DataLength(header) == |data| && |data| <= MAX_DATA_SIZE
  }

  // ----- what the device makes of a stream

  datatype Parsed =
    | Incomplete
    | Rejected(rest: seq<Byte>)
    | Message(header: Header, data: seq<Byte>, rest: seq<Byte>)

  /** After a SYNC. */
  function ParseBody(body: seq<Byte>): Parsed {
    if body == [] then Incomplete
    else if body[0] != ACK then Rejected(body[1..])
    else if |body| < 11 then Incomplete
    else
      var header: Header := body[1..11];
      var size := DataLength(header);
      if size > MAX_DATA_SIZE then Rejected(body[11..])
      else if |body| < 12 + size then Incomplete
      else
        var data := body[11..11 + size];
        if body[11 + size] == Lrc(header, data) then Message(header, data, body[12 + size..])
        else Rejected(body[12 + size..])
  }

  /** The same, cut up the way the reader consumes it. */
  function ReadInTurn(body: seq<Byte>): Parsed {
    if body == [] then Incomplete
    else if body[0] != ACK then Rejected(body[1..])
    else if |body[1..]| < HEADER_SIZE then Incomplete
    else
      var header: Header, left := body[1..][..HEADER_SIZE], body[1..][HEADER_SIZE..];
      var size := DataLength(header);
      if size > MAX_DATA_SIZE then Rejected(left)
      else if |left| <= size then Incomplete
      else if left[size..][0] == Lrc(header, left[..size]) then Message(header, left[..size], left[size..][1..])
      else Rejected(left[size..][1..])
  }

  lemma ReadsInTurn(body: seq<Byte>)
    ensures ParseBody(body) == ReadInTurn(body)
  {
    hide DataLength, Lrc;
    if |body| >= 11 && body[0] == ACK {
      var left := body[1..][10..];
      assert body[1..][..10] == body[1..11] && left == body[11..];
      var size: nat := DataLength(body[1..11]);
      if |left| > size {
        assert left[..size] == body[11..11 + size] && left[size..][1..] == body[12 + size..];
      }
    }
  }

  /** Anything before a SYNC is skipped. */
  function Parse(rx: seq<Byte>): Parsed {
    if SYNC !in rx then Incomplete else ParseBody(rx[FirstOf(SYNC, rx) + 1..])
  }

  lemma ParseAfterNoise(noise: seq<Byte>, body: seq<Byte>)
    requires SYNC !in noise
    ensures Parse(noise + [SYNC] + body) == ParseBody(body)
  {
    hide ParseBody;
    var rx := noise + [SYNC] + body;
    assert rx[|noise|] == SYNC && rx[..|noise|] == noise;
    FirstOfUnique(SYNC, rx, |noise|);
    assert rx[|noise| + 1..] == body;
  }

  /** A frame after arbitrary noise is read back exactly, or rejected if its checksum byte is not the right one. */
  lemma FrameParses(noise: seq<Byte>, header: Header, data: seq<Byte>, lrc: Byte, rest: seq<Byte>)
    requires SYNC !in noise && Matching(header, data)
    ensures Parse(noise + [SYNC, ACK] + header + data + [lrc] + rest)
            == if lrc == Lrc(header, data) then Message(header, data, rest) else Rejected(rest)
  {
    hide Lrc, DataLength, Parse;
    var body := [ACK] + header + data + [lrc] + rest;
    assert noise + [SYNC, ACK] + header + data + [lrc] + rest == noise + [SYNC] + body;
    ParseAfterNoise(noise, body);
    var n := |data|;
    assert body[1..11] == header;
    assert body[11..11 + n] == data;
    assert body[11 + n] == lrc && body[12 + n..] == rest;
  }

  /** A piece of the host's stream: noise, then a frame whose checksum byte may have been damaged. */
  datatype Sent = Sent(noise: seq<Byte>, header: Header, data: seq<Byte>, lrc: Byte)

  ghost predicate Proper(s: Sent) {
    SYNC !in s.noise && Matching(s.header, s.data)
  }

  function Sending(s: Sent): seq<Byte> {
    s.noise + [SYNC, ACK] + s.header + s.data + [s.lrc]
  }

  function Stream(ss: seq<Sent>): seq<Byte> {
    if ss == [] then [] else Sending(ss[0]) + Stream(ss[1..])
  }

  /** All messages the reader accepts from a stream, in order, until it runs dry. */
  function Messages(rx: seq<Byte>): seq<(Header, seq<Byte>)>
    decreases |rx|
  {
    ParseShrinks(rx);
    match Parse(rx)
    case Incomplete => []
    case Rejected(rest) => Messages(rest)
    case Message(header, data, rest) => [(header, data)] + Messages(rest)
  }

  lemma ParseShrinks(rx: seq<Byte>)
    ensures var p := Parse(rx); !p.Incomplete? ==> |p.rest| < |rx|
  {
    hide Lrc, DataLength;
  }

  /** The undamaged messages of a stream. */
  function Intact(ss: seq<Sent>): seq<(Header, seq<Byte>)> {
    if ss == [] then []
    else (if ss[0].lrc == Lrc(ss[0].header, ss[0].data) then [(ss[0].header, ss[0].data)] else []) + Intact(ss[1..])
  }

  lemma MessagesStep(s: Sent, more: seq<Byte>)
    requires Proper(s)
    ensures Messages(Sending(s) + more)
            == (if s.lrc == Lrc(s.header, s.data) then [(s.header, s.data)] else []) + Messages(more)
  {
    hide Lrc, Matching, Parse;
    FrameParses(s.noise, s.header, s.data, s.lrc, more);
  }

  /** Any sequence of frames, however separated by noise, is received as exactly the undamaged headers and data. */
  lemma {:induction false} StreamReceived(ss: seq<Sent>, noise: seq<Byte>)
    requires forall s <- ss :: Proper(s)
    requires SYNC !in noise
    ensures Messages(Stream(ss) + noise) == Intact(ss)
    decreases |ss|
  {
    hide Lrc, Proper, ParseBody, Sending;
    if ss == [] {
      assert Stream(ss) + noise == noise;
    } else {
      assert ss[0] in ss;
      StreamReceived(ss[1..], noise);
      MessagesStep(ss[0], Stream(ss[1..]) + noise);
      assert Stream(ss) + noise == Sending(ss[0]) + (Stream(ss[1..]) + noise);
    }
  }

  // ----- replies

  /** What a request handler asks host_reply to send, and whether the card is active by then. */
  datatype Reply = Reply(kind: Byte, active: bool, failed: bool, error: Byte, specific: Byte, data: seq<Byte>)

  /** Handlers, card included: from whether the card was active and the request. No reply outgrows its length field. */
  type Handler = f: (bool, Header, seq<Byte>) -> Reply | forall a, h, d :: |f(a, h, d).data| < 0x1_0000
    witness (a, h, d) => Reply(0, a, false, 0, 0, [])

  function Status(active: bool, failed: bool): Byte {
    (if active then 0 else ICC_INACTIVE) + (if failed then COMMAND_FAILED else 0)
  }

  /** host_reply: length in two bytes, slot and sequence number taken from the request. */
  function ReplyHeader(request: Header, r: Reply): Header {
    [r.kind, |r.data| % 0x100, |r.data| / 0x100 % 0x100, 0, 0]
    + [request[5], request[6], Status(r.active, r.failed), r.error, r.specific]
  }

  lemma ReplyLength(request: Header, r: Reply)
    requires |r.data| < 0x1_0000
    ensures DataLength(ReplyHeader(request, r)) == |r.data|
  {
    hide Le32, Word32At;
    var header, size := ReplyHeader(request, r), |r.data|;
    Le32Short(size);
    Le32RoundTrip(size, header[..1], header[5..]);
    assert header == header[..1] + Le32(size) + header[5..];
  }

  /** What one turn of the reader's loop sends for the bytes it has received. */
  function Served(p: Parsed, active: bool, handle: Handler): seq<Byte> {
    match p
    case Incomplete => []
    case Rejected(_) => [SYNC, NAK, Xor(SYNC, NAK)]
    case Message(h, d, _) => Frame(h, d) + Frame(ReplyHeader(h, handle(active, h, d)), handle(active, h, d).data)
  }

  // ----- the PC

  /** Result of read_frame, with the bytes it leaves unread; a timeout has read them all. */
  datatype FrameRead =
    | TimedOut
    | Malformed(rest: seq<Byte>)
    | Got(header: Header, data: seq<Byte>, rest: seq<Byte>)

  /** Fixed start, header, announced data, and a checksum byte that read_frame does not look at. */
  function HostRead(rx: seq<Byte>): FrameRead {
    if |rx| < 2 then TimedOut
    else if rx[..2] != [SYNC, ACK] then Malformed(rx[2..])
    else if |rx| < 12 then TimedOut
    else
      var header: Header := rx[2..12];
      var size := DataLength(header);
      if |rx| < 13 + size then TimedOut
      else Got(header, rx[12..12 + size], rx[13 + size..])
  }

  lemma HostReadsFrame(header: Header, data: seq<Byte>, rest: seq<Byte>)
    requires DataLength(header) == |data|
    ensures HostRead(Frame(header, data) + rest) == Got(header, data, rest)
  {
    hide Lrc, DataLength;
    var rx := Frame(header, data) + rest;
    assert rx[..2] == [SYNC, ACK] && rx[2..12] == header;
    assert rx[12..12 + |data|] == data;
    assert rx[13 + |data|..] == rest;
  }

  datatype Outcome = Answer(data: seq<Byte>) | CommandFailed(error: Byte) | BadFrame | NoAnswer | TooLong

  predicate Failed(header: Header) {
    header[7] / COMMAND_FAILED % 2 == 1
  }

  /** What Reader.command makes of the bytes that come back: the echo, then the reply. */
  function Understood(rx: seq<Byte>): Outcome {
    var echo := HostRead(rx);
    if echo.TimedOut? then NoAnswer
    else if echo.Malformed? then BadFrame
    else
      var reply := HostRead(echo.rest);
      if reply.TimedOut? then NoAnswer
      else if reply.Malformed? then BadFrame
      else if Failed(reply.header) then CommandFailed(reply.header[8])
      else Answer(reply.data)
  }

  function CommandHeader(kind: Byte, size: Word32, sequence: Byte): Header {
    [kind] + Le32(size) + [0, sequence, 0, 0, 0]
  }

  lemma CommandLength(kind: Byte, size: Word32, sequence: Byte)
    ensures DataLength(CommandHeader(kind, size, sequence)) == size
  {
    hide Le32, Word32At;
    Le32RoundTrip(size, [kind], [0, sequence, 0, 0, 0]);
  }

  /** The host folds the two start bytes in, the device starts from their sum. */
  lemma LrcFromZero(header: Header, data: seq<Byte>)
    ensures Fold(0, [SYNC, ACK] + header + data) == Lrc(header, data)
  {
    var start := [SYNC, ACK];
    assert start[..1] == [SYNC] && start[..1][..0] == [];
    assert Fold(0, start[..1]) == Xor(0, SYNC) == SYNC;
    assert Fold(0, start) == Xor(SYNC, ACK);
    FoldAppend(0, start, header + data);
    assert start + header + data == start + (header + data);
  }

  /**
   A command reaches the handler as sent, and the handler's reply reaches the caller: the echo is the
   command itself, the reply carries its slot and sequence number, and exactly a failed one raises.
   */
  lemma CommandServed(kind: Byte, data: seq<Byte>, sequence: Byte, active: bool, handle: Handler)
    requires |data| <= MAX_DATA_SIZE
    ensures var request := CommandHeader(kind, |data|, sequence);
            var r := handle(active, request, data);
            var bytes := Served(Parse(Frame(request, data)), active, handle);
            var echo := HostRead(bytes);
            && echo.Got? && echo.header == request && echo.data == data
            && HostRead(echo.rest) == Got(ReplyHeader(request, r), r.data, [])
            && ReplyHeader(request, r)[5] == 0 && ReplyHeader(request, r)[6] == sequence
            && ReplyHeader(request, r)[7] == (if r.active then 0x00 else 0x01) + (if r.failed then 0x40 else 0x00)
            && ReplyHeader(request, r)[0] == r.kind && ReplyHeader(request, r)[8] == r.error
            && ReplyHeader(request, r)[9] == r.specific
            && Understood(bytes) == if r.failed then CommandFailed(r.error) else Answer(r.data)
  {
    hide Lrc, DataLength, Parse, HostRead, Le32;
    var request := CommandHeader(kind, |data|, sequence);
    var r := handle(active, request, data);
    CommandLength(kind, |data|, sequence);
    FrameParses([], request, data, Lrc(request, data), []);
    assert [] + [SYNC, ACK] + request + data + [Lrc(request, data)] + [] == Frame(request, data);
    ReplyLength(request, r);
    var reply := Frame(ReplyHeader(request, r), r.data);
    HostReadsFrame(request, data, reply);
    HostReadsFrame(ReplyHeader(request, r), r.data, []);
    assert reply + [] == reply;
  }

  /**
   A command too long for the reader's buffer is refused by both ends, whatever it holds. Its data and
   checksum stay on the line, where the reader goes on to look for messages in them.
   */
  lemma LongCommandRefused(kind: Byte, data: seq<Byte>, sequence: Byte, active: bool, handle: Handler,
                           rest: seq<Byte>, more: seq<Byte>)
    requires MAX_DATA_SIZE < |data| < WORD
    ensures var request := CommandHeader(kind, |data|, sequence);
            var left := data + [Lrc(request, data)] + rest;
            var p := Parse(Frame(request, data) + rest);
            && p == Rejected(left)
            && Understood(Served(p, active, handle) + more) == BadFrame
            && Messages(Frame(request, data) + rest) == Messages(left)
  {
    hide Lrc, DataLength, Parse, Le32, Xor;
    var request := CommandHeader(kind, |data|, sequence);
    CommandLength(kind, |data|, sequence);
    var left := data + [Lrc(request, data)] + rest;
    var body := [ACK] + request + left;
    assert Frame(request, data) + rest == [] + [SYNC] + body;
    ParseAfterNoise([], body);
    assert body[1..11] == request && body[11..] == left;
    assert ([SYNC, NAK, Xor(SYNC, NAK)] + more)[..2] == [SYNC, NAK];
  }

  /** The reader takes up to 261 bytes of data and refuses one more. */
  lemma LongestCommand(kind: Byte, data: seq<Byte>, sequence: Byte)
    requires |data| <= 262
    ensures var request := CommandHeader(kind, |data|, sequence);
            Parse(Frame(request, data)) ==
            if |data| <= 261 then Message(request, data, []) else Rejected(data + [Lrc(request, data)])
  {
    hide Lrc, DataLength, Parse, Le32, Messages, Understood;
    var request := CommandHeader(kind, |data|, sequence);
    var f, lrc := Frame(request, data), Lrc(request, data);
    assert f + [] == f;
    if |data| <= 261 {
      CommandLength(kind, |data|, sequence);
      FrameParses([], request, data, lrc, []);
      assert [] + [SYNC, ACK] + request + data + [lrc] + [] == f;
    } else {
      LongCommandRefused(kind, data, sequence, true, (a, h, d) => Reply(0, a, false, 0, 0, []), [], []);
      assert data + [lrc] + [] == data + [lrc];
    }
  }

  // ----- the bytes themselves

  lemma XorOfBytes()
    ensures Xor(0x03, 0x06) == 0x05 && Xor(0x05, 0) == 0x05 && Xor(0x05, 0x62) == 0x67
    ensures Xor(0x67, 0) == 0x67 && Xor(0x67, 0x07) == 0x60
    ensures Xor(0x60, 0) == 0x60 && Xor(0x03, 0x15) == 0x16
  {}

  lemma FoldByte(start: Byte, b: Byte)
    ensures Fold(start, [b]) == Xor(start, b)
  {
    hide Xor;
    assert [b][..0] == [] && Fold(start, []) == start;
  }

  /** A power-on command without data, seventh of its kind, and the refusal of a damaged one. */
  lemma SampleBytes(handle: Handler)
    ensures Frame(CommandHeader(0x62, 0, 7), []) == [0x03, 0x06, 0x62, 0, 0, 0, 0, 0, 7, 0, 0, 0, 0x60]
    ensures Served(Rejected([]), true, handle) == [0x03, 0x15, 0x16]
  {
    hide Le32, Xor, Fold;
    XorOfBytes();
    Le32Bytes(0, 0, 0, 0);
    var h := CommandHeader(0x62, 0, 7);
    assert h + [] == [0x62] + ([0, 0] + ([0, 0] + ([0] + ([7] + ([0, 0] + [0])))));
    FoldAppend(5, [0x62], [0, 0] + ([0, 0] + ([0] + ([7] + ([0, 0] + [0])))));
    FoldByte(5, 0x62);
    ZerosKeep(0x67, [0, 0]);
    ZerosKeep(0x67, [0]);
    ZerosKeep(0x60, [0, 0]);
    ZerosKeep(0x60, [0]);
    FoldAppend(0x67, [0, 0], [0, 0] + ([0] + ([7] + ([0, 0] + [0]))));
    FoldAppend(0x67, [0, 0], [0] + ([7] + ([0, 0] + [0])));
    FoldAppend(0x67, [0], [7] + ([0, 0] + [0]));
    FoldAppend(0x67, [7], [0, 0] + [0]);
    FoldByte(0x67, 7);
    FoldAppend(0x60, [0, 0], [0]);
  }

  lemma {:induction false} ZerosKeep(start: Byte, s: seq<Byte>)
    requires Xor(start, 0) == start && forall i :: 0 <= i < |s| ==> s[i] == 0
    ensures Fold(start, s) == start
    decreases |s|
  {
    hide Xor;
    if s != [] {
      ZerosKeep(start, s[..|s| - 1]);
    }
  }

  /** Bytes without SYNC go by unnoticed. */
  lemma NoiseSkipped(noise: seq<Byte>, more: seq<Byte>)
    requires SYNC !in noise
    ensures Messages(noise + more) == Messages(more)
  {
    hide ParseBody;
    FirstOfAppend(SYNC, noise, more);
    if SYNC in more {
      var n := FirstOf(SYNC, more);
      assert (noise + more)[|noise| + n + 1..] == more[n + 1..];
      assert Parse(noise + more) == Parse(more);
    } else {
      assert SYNC !in noise + more;
    }
  }

  // ----- which bytes leave the reader in step

  /**
   The reader works its way through `s` to the end without taking anything in it for a message or the
   start of one.
   */
  predicate Settles(s: seq<Byte>)
    decreases |s|
  {
    ParseShrinks(s);
    match Parse(s)
    case Incomplete => SYNC !in s
    case Rejected(rest) => Settles(rest)
    case Message(_, _, _) => false
  }

  /** What has been parsed once stays parsed, whatever follows. */
  lemma ParseAppend(s: seq<Byte>, more: seq<Byte>)
    ensures var p, q := Parse(s), Parse(s + more);
            && (p.Rejected? ==> q == Rejected(p.rest + more))
            && (p.Message? ==> q == Message(p.header, p.data, p.rest + more))
  {
    hide ParseBody;
    if SYNC in s {
      var n := FirstOf(SYNC, s);
      FirstOfAppend(SYNC, s, more);
      assert (s + more)[n + 1..] == s[n + 1..] + more;
      ParseBodyAppend(s[n + 1..], more);
    }
  }

  lemma ParseBodyAppend(body: seq<Byte>, more: seq<Byte>)
    ensures var p, q := ParseBody(body), ParseBody(body + more);
            && (p.Rejected? ==> q == Rejected(p.rest + more))
            && (p.Message? ==> q == Message(p.header, p.data, p.rest + more))
  {
    hide Lrc, DataLength;
    var all := body + more;
    if body != [] && body[0] == ACK && |body| >= 11 {
      var size: nat := DataLength(body[1..11]);
      assert all[1..11] == body[1..11] && all[11..] == body[11..] + more;
      if |body| >= 12 + size {
        assert all[11..11 + size] == body[11..11 + size] && all[12 + size..] == body[12 + size..] + more;
      }
    } else if body != [] {
      assert all[1..] == body[1..] + more;
    }
  }

  const BLANK: Header := [0, 0, 0, 0, 0, 0, 0, 0, 0, 0]

  lemma BlankFrame()
    ensures Frame(BLANK, []) == [SYNC, ACK] + BLANK + [0x05]
  {
    hide Lrc;
    BlankLrc();
    assert [SYNC, ACK] + BLANK + [] == [SYNC, ACK] + BLANK;
  }

  lemma BlankReceived()
    ensures Messages(Frame(BLANK, [])) == [(BLANK, [])]
  {
    hide Lrc, DataLength, Xor, Messages, BLANK;
    BlankLrc();
    BlankLength();
    var s := Sent([], BLANK, [], 0x05);
    MessagesStep(s, []);
    assert Sending(s) + [] == Frame(BLANK, []);
    NothingReceived([]);
  }

  lemma BlankLength()
    ensures DataLength(BLANK) == 0
  {
    hide Word32At;
    Le32Short(0);
    Le32RoundTrip(0, [0], [0, 0, 0, 0, 0]);
    assert BLANK == [0] + Le32(0) + [0, 0, 0, 0, 0];
  }

  lemma BlankLrc()
    ensures Lrc(BLANK, []) == 0x05
  {
    XorOfBytes();
    ZerosKeep(0x05, BLANK);
    assert BLANK + [] == BLANK;
  }

  /** A frame that arrives in the middle of another is swallowed: it does not come out as itself. */
  lemma Swallowed(body: seq<Byte>)
    requires ParseBody(body).Incomplete?
    ensures var p := ParseBody(body + Frame(BLANK, []));
            && (p.Message? ==> (p.header, p.data) != (BLANK, []))
            && (!p.Incomplete? ==> SYNC !in p.rest)
  {
    BlankFrame();
    BlankLrc();
    hide Lrc, DataLength, Messages;
    var f := Frame(BLANK, []);
    hide Frame;
    var all := body + f;
    assert all[|body|] == SYNC && all[|body| + 1..] == f[1..];
    assert SYNC !in f[1..];
    forall k: nat | |body| < k <= |all| ensures SYNC !in all[k..] {
      assert all[k..] == f[1..][k - |body| - 1..];
    }
    if |body| >= 11 {
      assert all[1..11] == body[1..11];
    } else if |body| >= 1 {
      assert all[1..11][|body| - 1] == SYNC;
    }
    if |body| == 11 {
      assert all[11] == SYNC;
    }
  }

  lemma ParseAtSync(s: seq<Byte>, more: seq<Byte>)
    requires SYNC in s
    ensures var body := s[FirstOf(SYNC, s) + 1..];
            Parse(s) == ParseBody(body) && Parse(s + more) == ParseBody(body + more)
  {
    hide ParseBody;
    FirstOfAppend(SYNC, s, more);
    var n := FirstOf(SYNC, s);
    assert (s + more)[n + 1..] == s[n + 1..] + more;
  }

  lemma {:induction false} SettledSkips(s: seq<Byte>, more: seq<Byte>)
    requires Settles(s)
    ensures Messages(s + more) == Messages(more)
    decreases |s|
  {
    hide ParseBody, Parse;
    ParseShrinks(s);
    var p := Parse(s);
    if p.Incomplete? {
      NoiseSkipped(s, more);
    } else {
      ParseAppend(s, more);
      SettledSkips(p.rest, more);
    }
  }

  lemma {:induction false} UnsettledShows(s: seq<Byte>) returns (more: seq<Byte>)
    requires !Settles(s)
    ensures Messages(s + more) != Messages(more)
    decreases |s|
  {
    hide ParseBody, Parse, Frame;
    ParseShrinks(s);
    var p := Parse(s);
    if p.Rejected? {
      more := UnsettledShows(p.rest);
      ParseAppend(s, more);
    } else if p.Message? {
      more := [];
      assert s + more == s;
      NothingReceived([]);
    } else {
      more := Frame(BLANK, []);
      BlankReceived();
      ParseAtSync(s, more);
      Swallowed(s[FirstOf(SYNC, s) + 1..]);
      var q := Parse(s + more);
      if !q.Incomplete? {
        NothingReceived(q.rest);
      }
      if q.Message? {
        assert Messages(s + more) == [(q.header, q.data)] + Messages(q.rest);
        assert Messages(s + more)[0] == (q.header, q.data);
      }
    }
  }

  lemma NothingReceived(s: seq<Byte>)
    requires SYNC !in s
    ensures Messages(s) == []
  {}

  /** Bytes leave the reader in step, whatever comes after them, exactly when they settle. */
  lemma InStepIff(s: seq<Byte>)
    ensures (forall more: seq<Byte> :: Messages(s + more) == Messages(more)) <==> Settles(s)
  {
    hide Messages, Settles;
    if Settles(s) {
      forall more: seq<Byte> ensures Messages(s + more) == Messages(more) {
        SettledSkips(s, more);
      }
    } else {
      var more := UnsettledShows(s);
    }
  }

  /** The data and checksum an oversized command leaves on the line. */
  function LeftBehind(kind: Byte, data: seq<Byte>, sequence: Byte): seq<Byte>
    requires |data| < WORD
  {
    data + [Lrc(CommandHeader(kind, |data|, sequence), data)]
  }

  /** An oversized command leaves the reader in step, as if never sent, exactly when its data and checksum settle. */
  lemma LongCommandSkippedIff(kind: Byte, data: seq<Byte>, sequence: Byte)
    requires MAX_DATA_SIZE < |data| < WORD
    ensures (forall rest: seq<Byte> :: LongCommandLeaves(kind, data, sequence, rest))
       <==> Settles(LeftBehind(kind, data, sequence))
  {
    hide Messages, Settles, Lrc, CommandHeader, Frame;
    var left := LeftBehind(kind, data, sequence);
    InStepIff(left);
    forall rest: seq<Byte>
      ensures LongCommandLeaves(kind, data, sequence, rest) <==> Messages(left + rest) == Messages(rest)
    {
      LongCommandRefused(kind, data, sequence, false, (a, h, d) => Reply(0, a, false, 0, 0, []), rest, []);
    }
  }

  ghost predicate LongCommandLeaves(kind: Byte, data: seq<Byte>, sequence: Byte, rest: seq<Byte>)
    requires |data| < WORD
  {
    Messages(Frame(CommandHeader(kind, |data|, sequence), data) + rest) == Messages(rest)
  }

  /** In particular when neither data nor checksum looks like SYNC. */
  lemma LongCommandSkipped(kind: Byte, data: seq<Byte>, sequence: Byte, rest: seq<Byte>)
    requires MAX_DATA_SIZE < |data| < WORD
    requires SYNC !in data && Lrc(CommandHeader(kind, |data|, sequence), data) != SYNC
    ensures Messages(Frame(CommandHeader(kind, |data|, sequence), data) + rest) == Messages(rest)
  {
    hide Lrc, DataLength, Parse, Le32, Messages, CommandHeader;
    var lrc := Lrc(CommandHeader(kind, |data|, sequence), data);
    LongCommandRefused(kind, data, sequence, false, (a, h, d) => Reply(0, a, false, 0, 0, []), rest, []);
    NoiseSkipped(data + [lrc], rest);
  }

  class Host {
    var sequence: Byte
    var tx: seq<Byte>
    var rx: seq<Byte>

    /** read_exact; a short read still consumes what came. */
    method ReadExact(size: nat) returns (ok: bool, bytes: seq<Byte>)
      modifies this`rx
      ensures ok == (|old(rx)| >= size)
      ensures ok ==> bytes == old(rx)[..size] && rx == old(rx)[size..]
      ensures !ok ==> rx == []
    {
      ok := |rx| >= size;
      var n := if ok then size else |rx|;
      bytes, rx := rx[..n], rx[n..];
    }

    method ReadFrame() returns (r: FrameRead)
      modifies this`rx
      ensures r == HostRead(old(rx))
      ensures rx == if r.TimedOut? then [] else r.rest
    {
      hide DataLength;
      var ok, start := ReadExact(2);
      if !ok { return TimedOut; }
      if start != [SYNC, ACK] { return Malformed(rx); }
      var header, data, lrc;
      ok, header := ReadExact(HEADER_SIZE);
      if !ok { return TimedOut; }
      assert header == old(rx)[2..12];
      var size := DataLength(header);
      ok, data := ReadExact(size);
      if !ok { return TimedOut; }
      ok, lrc := ReadExact(1);
      if !ok { return TimedOut; }
      assert data == old(rx)[12..12 + size] && rx == old(rx)[13 + size..];
      r := Got(header, data, rx);
    }

    /** Reader.command. `peer` gives the bytes that what is written makes readable. */
    method Command(kind: Byte, data: seq<Byte>, peer: seq<Byte> -> seq<Byte>) returns (r: Outcome)
      modifies this
      ensures |data| >= WORD ==> r == TooLong && sequence == old(sequence) && tx == old(tx)
      ensures |data| < WORD ==>
        var frame := Frame(CommandHeader(kind, |data|, old(sequence)), data);
        && tx == old(tx) + frame
        && sequence == (old(sequence) + 1) % 0x100
        && r == Understood(old(rx) + peer(frame))
    {
      hide Xor, HostRead, Le32;
      if |data| >= WORD {
        return TooLong;
      }
      var header := CommandHeader(kind, |data|, sequence);
      sequence := (sequence + 1) % 0x100;
      var frame := [SYNC, ACK] + header + data;
      var lrc: Byte := 0;
      assert frame[..0] == [];
      for i := 0 to |frame|
        invariant lrc == Fold(0, frame[..i])
      {
        assert frame[..i + 1][..i] == frame[..i];
        lrc := Xor(lrc, frame[i]);
      }
      assert frame[..|frame|] == frame;
      LrcFromZero(header, data);
      frame := frame + [lrc];
      tx := tx + frame;
      rx := rx + peer(frame);
      var echo := ReadFrame();
      if echo.TimedOut? { return NoAnswer; }
      if echo.Malformed? { return BadFrame; }
      var reply := ReadFrame();
      if reply.TimedOut? { return NoAnswer; }
      if reply.Malformed? { return BadFrame; }
      if Failed(reply.header) {
        return CommandFailed(reply.header[8]);
      }
      r := Answer(reply.data);
    }
  }

  // ----- the reader

  class Reader {
    var rx: seq<Byte>
    var tx: seq<Byte>
    var iccActive: bool

    /** host_write_frame. */
    method WriteFrame(header: Header, data: seq<Byte>)
      modifies this`tx
      ensures tx == old(tx) + Frame(header, data)
    {
      hide Xor;
      var lrc := Xor(SYNC, ACK);
      ghost var all := header + data;
      assert all[..0] == [];
      for i := 0 to HEADER_SIZE
        invariant lrc == Fold(Xor(SYNC, ACK), all[..i])
      {
        assert all[..i + 1][..i] == all[..i];
        lrc := Xor(lrc, header[i]);
      }
      for i := 0 to |data|
        invariant lrc == Fold(Xor(SYNC, ACK), all[..HEADER_SIZE + i])
      {
        assert all[..HEADER_SIZE + i + 1][..HEADER_SIZE + i] == all[..HEADER_SIZE + i];
        lrc := Xor(lrc, data[i]);
      }
      assert all[..HEADER_SIZE + |data|] == all;
      tx := tx + [SYNC];
      tx := tx + [ACK];
      tx := tx + header;
      tx := tx + data;
      tx := tx + [lrc];
      assert tx == old(tx) + Frame(header, data);
    }

    /** host_write_nak. */
    method WriteNak()
      modifies this`tx
      ensures tx == old(tx) + [SYNC, NAK, Xor(SYNC, NAK)]
    {
      tx := tx + [SYNC] + [NAK] + [Xor(SYNC, NAK)];
    }

    /** host_read_byte; false when nothing more will come. */
    method ReadByte() returns (ok: bool, value: Byte)
      modifies this`rx
      ensures ok == (old(rx) != [])
      ensures ok ==> value == old(rx)[0] && rx == old(rx)[1..]
      ensures !ok ==> rx == old(rx)
    {
      if rx == [] {
        return false, 0;
      }
      ok, value := true, rx[0];
      rx := rx[1..];
    }

    /** Skips to just after a SYNC. */
    method AwaitSync() returns (ok: bool)
      modifies this`rx
      ensures ok == (SYNC in old(rx))
      ensures ok ==> rx == old(rx)[FirstOf(SYNC, old(rx)) + 1..]
    {
      ghost var n: nat := 0;
      var value: Byte := 0;
      while value != SYNC
        invariant n <= |old(rx)| && rx == old(rx)[n..]
        invariant value != SYNC ==> SYNC !in old(rx)[..n]
        invariant value == SYNC ==> n > 0 && old(rx)[n - 1] == SYNC && SYNC !in old(rx)[..n - 1]
        decreases |rx|, value != SYNC
      {
        ok, value := ReadByte();
        if !ok {
          assert old(rx)[..n] == old(rx);
          return false;
        }
        assert old(rx)[..n + 1] == old(rx)[..n] + [old(rx)[n]];
        n := n + 1;
      }
      FirstOfUnique(SYNC, old(rx), n - 1);
      ok := true;
    }

    /** Reads `size` bytes, folding them into the checksum. */
    method ReadFolded(size: nat, start: Byte) returns (ok: bool, bytes: seq<Byte>, lrc: Byte)
      modifies this`rx
      ensures ok == (|old(rx)| >= size)
      ensures ok ==> bytes == old(rx)[..size] && rx == old(rx)[size..] && lrc == Fold(start, bytes)
    {
      hide Xor;
      bytes, lrc := [], start;
      for i := 0 to size
        invariant |old(rx)| >= i && bytes == old(rx)[..i] && rx == old(rx)[i..]
        invariant lrc == Fold(start, bytes)
      {
        var value;
        ok, value := ReadByte();
        if !ok {
          return;
        }
        assert old(rx)[..i + 1] == old(rx)[..i] + [old(rx)[i]];
        assert (bytes + [value])[..|bytes + [value]| - 1] == bytes;
        bytes := bytes + [value];
        lrc := Xor(lrc, value);
      }
      ok := true;
    }

    /** host_read_message. `received` is None while the reader is still waiting. */
    method ReadMessage() returns (received: Option<bool>, header: Header, data: seq<Byte>)
      modifies this`rx
      ensures match Parse(old(rx))
              case Incomplete => received == None
              case Rejected(rest) => received == Some(false) && rx == rest
              case Message(h, d, rest) => received == Some(true) && header == h && data == d && rx == rest
    {
      hide Xor, Fold, DataLength, Lrc, ParseBody;
      header, data := [0, 0, 0, 0, 0, 0, 0, 0, 0, 0], [];
      var ok := AwaitSync();
      if !ok { return None, header, data; }
      ReadsInTurn(rx);
      var value;
      ok, value := ReadByte();
      if !ok { return None, header, data; }
      if value != ACK {
        return Some(false), header, data;
      }
      var bytes, lrc;
      ok, bytes, lrc := ReadFolded(HEADER_SIZE, Xor(SYNC, ACK));
      if !ok { return None, header, data; }
      header := bytes;
      var size := DataLength(header);
      if size > MAX_DATA_SIZE {
        return Some(false), header, data;
      }
      ok, data, lrc := ReadFolded(size, lrc);
      if !ok { return None, header, data; }
      LrcInParts(header, data);
      ok, value := ReadByte();
      if !ok { return None, header, data; }
      return Some(value == lrc), header, data;
    }

    /** One turn of the loop in main: a rejected message is NAKed, an accepted one echoed, handled and answered. */
    method Serve(handle: Handler) returns (waiting: bool)
      modifies this
      ensures waiting == Parse(old(rx)).Incomplete?
      ensures tx == old(tx) + Served(Parse(old(rx)), old(iccActive), handle)
      ensures !waiting ==> rx == Parse(old(rx)).rest
      ensures iccActive == match Parse(old(rx))
                           case Message(h, d, _) => handle(old(iccActive), h, d).active
                           case _ => old(iccActive)
    {
      hide Parse, ReplyHeader, Xor, Frame;
      var received, header, data := ReadMessage();
      if received == None {
        return true;
      }
      waiting := false;
      if received == Some(false) {
        WriteNak();
        return;
      }
      WriteFrame(header, data);
      var r := handle(iccActive, header, data);
      iccActive := r.active;
      WriteFrame(ReplyHeader(header, r), r.data);
    }
  }
}
