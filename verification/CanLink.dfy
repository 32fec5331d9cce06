/** The CAN transmit path: a response is expanded in place into 12-byte records, queued as
    bytes, and taken out of the queue again one record at a time. */
module CanLink {
  import opened Words
  import opened ByteQueues

  const HEADER_BYTES := 4
  const DATA_BYTES := 8
  const RECORD_BYTES := 12
  const ID_MODULUS := 0x2000_0000  // the 29 identifier bits that travel

  datatype CanMessage = CanMessage(dlc: byte, id: uint32, high: uint32, low: uint32)

  /** Three length bits above the 29 identifier bits. */
  function Header(lengthBits: nat, id: uint32): (h: seq<byte>)
    requires lengthBits < 8
    ensures |h| == HEADER_BYTES
  {
    [lengthBits * 0x20 + id / 0x100_0000 % 0x20] + Bytes(id, 3)
  }

  /** The identifier that a header gives away. */
  function HeaderId(h: seq<byte>): uint32
    requires |h| == HEADER_BYTES
  {
    Number([h[0] % 0x20] + h[1..])
  }

  /** The data bytes of a message, in the order they travel. */
  function Payload(m: CanMessage): (p: seq<byte>)
    ensures |p| == DATA_BYTES
  {
    Bytes(m.high, 4) + Bytes(m.low, 4)
  }

  lemma SamePayload(m: CanMessage, n: CanMessage)
    requires Payload(m) == Payload(n)
    ensures m.high == n.high && m.low == n.low
  {
    assert Payload(m)[..4] == Bytes(m.high, 4) && Payload(m)[4..] == Bytes(m.low, 4);
    assert Payload(n)[..4] == Bytes(n.high, 4) && Payload(n)[4..] == Bytes(n.low, 4);
    forall w: uint32 | w in {m.high, m.low, n.high, n.low}
      ensures Number(Bytes(w, 4)) == w
    {
      FitsIn(w);
      NumberOfBytes(w, 4);
    }
  }

  // ---------- One record out ----------

  /** What the driver is handed when `count` bytes of a 12-byte buffer came from the queue. */
  function Decode(b: seq<byte>, count: nat): CanMessage
    requires |b| >= RECORD_BYTES
  {
    CanMessage((count - HEADER_BYTES) % 0x100, HeaderId(b[..4]), Number(b[4..8]), Number(b[8..12]))
  }

  lemma SplitId(id: uint32)
    ensures id == id / 0x100_0000 * 0x100_0000 + id % 0x100_0000
    ensures id % ID_MODULUS == id / 0x100_0000 % 0x20 * 0x100_0000 + id % 0x100_0000
  {
    var top := id / 0x100_0000;
    assert id == ID_MODULUS * (top / 0x20) + (top % 0x20 * 0x100_0000 + id % 0x100_0000);
  }

  /** The identifier survives its header but for the top three bits. */
  lemma HeaderKeepsId(lengthBits: nat, id: uint32)
    requires lengthBits < 8
    ensures HeaderId(Header(lengthBits, id)) == id % ID_MODULUS
  {
    var low, top := id % 0x100_0000, id / 0x100_0000;
    SplitId(id);
    ShiftedByThree(top);
    ShiftedByThree(top % 0x20);
    BytesIgnoreHigh(top, low, 3);
    assert id == Shifted(top, 3) + low;
    FitsIn(low);
    NumberOfBytes(low, 3);
    NumberPrepend(top % 0x20, Bytes(low, 3));
    TailOf(Header(lengthBits, id)[0], Bytes(low, 3));
  }

  lemma DecodePayload(b: seq<byte>, count: nat)
    requires |b| >= RECORD_BYTES
    ensures Payload(Decode(b, count)) == b[4..12]
  {
    BytesOfNumber(b[4..8]);
    BytesOfNumber(b[8..12]);
    assert b[4..12] == b[4..8] + b[8..12];
  }

  lemma FourByteNumber(b: seq<byte>)
    requires |b| == 4
    ensures Number(b) == b[0] as int * 0x100_0000 + b[1] as int * 0x1_0000 + b[2] as int * 0x100 + b[3]
  {
    assert b[..3][..2] == b[..2] && b[..2][..1] == b[..1] && b[..1][..0] == [];
    assert Number(b[..1]) == b[0];
    assert Number(b[..2]) == b[0] as int * 0x100 + b[1];
    assert Number(b[..3]) == Number(b[..2]) * 0x100 + b[2];
  }

  /** The 29 identifier bits are the low five bits of byte 0 and bytes 1 to 3, the high data word
      is bytes 4 to 7 and the low one bytes 8 to 11, all most significant byte first; the length is
      what the four header bytes leave, in eight bits. */
  lemma DecodeInPlain(b: seq<byte>, count: nat)
    requires |b| >= 12
    ensures var m := Decode(b, count);
      && m.dlc == (count - 4) % 0x100
      && m.id == (b[0] % 0x20) as int * 0x100_0000 + b[1] as int * 0x1_0000 + b[2] as int * 0x100 + b[3]
      && m.high == b[4] as int * 0x100_0000 + b[5] as int * 0x1_0000 + b[6] as int * 0x100 + b[7]
      && m.low == b[8] as int * 0x100_0000 + b[9] as int * 0x1_0000 + b[10] as int * 0x100 + b[11]
  {
    FourByteNumber([b[..4][0] % 0x20] + b[..4][1..]);
    FourByteNumber(b[4..8]);
    FourByteNumber(b[8..12]);
  }

  /** The identifier and as many data bytes as the record has come through; the bytes behind
      them are whatever the work buffer held before. */
  lemma DecodeRecord(record: seq<byte>, stale: seq<byte>, lengthBits: nat, id: uint32, data: seq<byte>)
    requires lengthBits < 8 && |data| <= DATA_BYTES
    requires record == Header(lengthBits, id) + data
    requires |record| + |stale| >= RECORD_BYTES
    ensures var m := Decode(record + stale, |record|);
      m.id == id % ID_MODULUS && m.dlc == |data| && Payload(m)[..m.dlc] == data
  {
    var b := record + stale;
    assert b[..4] == Header(lengthBits, id);
    HeaderKeepsId(lengthBits, id);
    DecodePayload(b, |record|);
    BehindHeader(Header(lengthBits, id), data, stale);
  }

  lemma BehindHeader(h: seq<byte>, data: seq<byte>, stale: seq<byte>)
    requires |h| == 4 && |data| <= 8 && 4 + |data| + |stale| >= 12
    ensures (h + data + stale)[4..12][..|data|] == data
  {
    var b := h + data + stale;
    var eight := b[4..12];
    forall i | 0 <= i < |data|
      ensures eight[i] == data[i]
    {
      assert eight[i] == b[4 + i] == (h + data)[4 + i];
    }
    assert eight[..|data|] == data;
  }

  // ---------- Expansion of a response ----------

  function Frames(count: nat): nat {
    (count + 7) / 8
  }

  /** Eight data bytes behind each header; the last record may be shorter. The length bits of
      these headers are always 7: the source fills them in after its byte counter ran to 0. */
  function Expand(s: seq<byte>, id: uint32): (r: seq<byte>)
    ensures |r| == |s| + HEADER_BYTES * Frames(|s|)
  {
    if s == [] then []
    else if |s| <= DATA_BYTES then Header(7, id) + s
    else Header(7, id) + s[..DATA_BYTES] + Expand(s[DATA_BYTES..], id)
  }

  /** Frame f of the expansion is the header followed by its share of the data: original byte
      8f + k lands at 12f + 4 + k. */
  lemma {:induction false} ExpandAt(s: seq<byte>, id: uint32, f: nat, k: nat)
    requires k < DATA_BYTES && DATA_BYTES * f + k < |s|
    ensures var e, at := Expand(s, id), RECORD_BYTES * f;
      && at + HEADER_BYTES + k < |e|
      && e[at..at + HEADER_BYTES] == Header(7, id)
      && e[at + HEADER_BYTES + k] == s[DATA_BYTES * f + k]
  {
    if f > 0 {
      var e, rest, at := Expand(s, id), Expand(s[DATA_BYTES..], id), RECORD_BYTES * (f - 1);
      ExpandAt(s[DATA_BYTES..], id, f - 1, k);
      assert e[RECORD_BYTES..] == rest;
      assert e[RECORD_BYTES + at..RECORD_BYTES + at + HEADER_BYTES] == rest[at..at + HEADER_BYTES];
    }
  }

  /** The overlapping move towards higher addresses: last byte first, so that no byte is
      overwritten before it is read. */
  method MoveUp(buf: array<byte>, dest: nat, source: nat, count: nat)
    requires source <= dest && dest + count <= buf.Length
    modifies buf
    ensures forall i :: dest <= i < dest + count ==> buf[i] == old(buf[i - (dest - source)])
    ensures forall i :: 0 <= i < dest || dest + count <= i < buf.Length ==> buf[i] == old(buf[i])
  {
    var frameBytes := count;
    while 0 < frameBytes
      invariant 0 <= frameBytes <= count
      invariant forall i :: dest + frameBytes <= i < dest + count ==> buf[i] == old(buf[i - (dest - source)])
      invariant forall i :: 0 <= i < dest + frameBytes || dest + count <= i < buf.Length ==> buf[i] == old(buf[i])
    {
      frameBytes := frameBytes - 1;
      buf[dest + frameBytes] := buf[source + frameBytes];
    }
  }

  method WriteHeader(buf: array<byte>, at: nat, id: uint32)
    requires at + HEADER_BYTES <= buf.Length
    modifies buf
    ensures buf[at..at + HEADER_BYTES] == Header(7, id)
    ensures forall i :: 0 <= i < at || at + HEADER_BYTES <= i < buf.Length ==> buf[i] == old(buf[i])
  {
    var frameBytes: int := 0;  // the move has counted it down
    buf[at] := (ToU32(frameBytes - 1) % 0x100 * 0x20 + id / 0x100_0000 % 0x20) % 0x100;
    buf[at + 1] := id / 0x1_0000 % 0x100;
    buf[at + 2] := id / 0x100 % 0x100;
    buf[at + 3] := id % 0x100;
    ThreeBytes(id);
  }

  /** One turn of the loop below: the frame's data bytes move, then the header goes in front. */
  method EmitFrame(buf: array<byte>, frame: nat, count: nat, id: uint32, ghost s: seq<byte>)
    requires frame < Frames(|s|) && count == Min(DATA_BYTES, |s| - DATA_BYTES * frame)
    requires |Expand(s, id)| <= buf.Length
    requires RECORD_BYTES * frame + HEADER_BYTES + count <= |Expand(s, id)|
    requires forall i :: 0 <= i < DATA_BYTES * frame + count ==> buf[i] == s[i]
    modifies buf
    ensures forall i :: RECORD_BYTES * frame <= i < RECORD_BYTES * frame + HEADER_BYTES + count
              ==> buf[i] == Expand(s, id)[i]
    ensures forall i ::
              0 <= i < RECORD_BYTES * frame || RECORD_BYTES * frame + HEADER_BYTES + count <= i < buf.Length
              ==> buf[i] == old(buf[i])
  {
    var dest, source := RECORD_BYTES * frame + HEADER_BYTES, DATA_BYTES * frame;
    ExpandAt(s, id, frame, 0);
    MoveUp(buf, dest, source, count);
    forall i | dest <= i < dest + count
      ensures buf[i] == Expand(s, id)[i]
    {
      ExpandAt(s, id, frame, i - dest);
    }
    WriteHeader(buf, dest - HEADER_BYTES, id);
    SameSlice(buf[..], Expand(s, id), dest - HEADER_BYTES, dest);
  }

  lemma SameSlice(a: seq<byte>, b: seq<byte>, from: nat, to: nat)
    requires from <= to <= |a| && to <= |b| && a[from..to] == b[from..to]
    ensures forall i :: from <= i < to ==> a[i] == b[i]
  {
    forall i | from <= i < to
      ensures a[i] == b[i]
    {
      assert a[i] == a[from..to][i - from];
    }
  }

  /** The source's choice of frame size is what is left behind the frames below. */
  lemma FrameSize(count: nat, frame: nat, left: nat)
    requires frame < Frames(count) && left == Min(DATA_BYTES * (frame + 1), count)
    ensures left - DATA_BYTES * frame == if left % DATA_BYTES != 0 then left % DATA_BYTES else DATA_BYTES
    ensures left - DATA_BYTES * frame == Min(DATA_BYTES, count - DATA_BYTES * frame)
    ensures RECORD_BYTES * frame + HEADER_BYTES + (left - DATA_BYTES * frame)
            == if left == count then count + HEADER_BYTES * Frames(count) else RECORD_BYTES * (frame + 1)
  {
  }

  /** DLL_vInsertCANIDAndDLC: works in place from the last frame back to the first. */
  method InsertCanIdAndDlc(buf: array<byte>, count: nat, id: uint32) returns (newCount: nat)
    requires count + HEADER_BYTES * Frames(count) <= buf.Length
    modifies buf
    ensures newCount == count + (count + 7) / 8 * 4
    ensures buf[..newCount] == Expand(old(buf[..count]), id)
    ensures buf[newCount..] == old(buf[newCount..])
  {
    ghost var s := buf[..count];
    ghost var e := Expand(s, id);
    ghost var start := |e|;  // where the finished records begin
    var left := count;
    var frame := count / DATA_BYTES;
    newCount := 0;
    if count % DATA_BYTES != 0 {
      frame := frame + 1;
    }
    while 0 < frame
      invariant 0 <= frame <= Frames(count)
      invariant left == Min(DATA_BYTES * frame, count)
      invariant start == if left == count then |e| else RECORD_BYTES * frame
      invariant newCount == |e| - start
      invariant forall i :: 0 <= i < left ==> buf[i] == s[i]
      invariant forall i :: start <= i < |e| ==> buf[i] == e[i]
      invariant forall i :: |e| <= i < buf.Length ==> buf[i] == old(buf[i])
    {
      frame := frame - 1;
      FrameSize(count, frame, left);
      var frameBytes := if left % DATA_BYTES != 0 then left % DATA_BYTES else DATA_BYTES;
      left := left - frameBytes;
      newCount := newCount + frameBytes;
      newCount := newCount + HEADER_BYTES;
      EmitFrame(buf, frame, frameBytes, id, s);
      start := RECORD_BYTES * frame;
    }
  }

  // ---------- Queueing one message ----------

  /** The 12 bytes DLL_vQueueCANMessage lays out. Its length bits count from 0 for one byte. */
  function Encode(m: CanMessage): (r: seq<byte>)
    ensures |r| == RECORD_BYTES
  {
    Header((m.dlc + 7) % 8, m.id) + Payload(m)
  }

  lemma LengthBits(dlc: byte)
    ensures (dlc - 1) * 0x20 % 0x100 == (dlc + 7) % 8 * 0x20
  {
    var n := dlc + 7;
    assert (dlc - 1) * 0x20 == n % 8 * 0x20 + 0x100 * (n / 8 - 1);
  }

  /** The three length bits are on top of byte 0, above the highest five of the 29 identifier bits;
      the high data word goes in front of the low one, all most significant byte first. */
  lemma EncodeInPlain(m: CanMessage)
    ensures Encode(m) == [
      (m.dlc + 7) % 8 * 0x20 + m.id / 0x100_0000 % 0x20, m.id / 0x1_0000 % 0x100, m.id / 0x100 % 0x100, m.id % 0x100,
      m.high / 0x100_0000, m.high / 0x1_0000 % 0x100, m.high / 0x100 % 0x100, m.high % 0x100,
      m.low / 0x100_0000, m.low / 0x1_0000 % 0x100, m.low / 0x100 % 0x100, m.low % 0x100]
  {
    ThreeBytes(m.id);
    FourBytes(m.high);
    FourBytes(m.low);
  }

  /** The headers of a response have all length bits set. */
  lemma ResponseHeaderInPlain(id: uint32)
    ensures Header(7, id)
         == [0xe0 + id / 0x100_0000 % 0x20, id / 0x1_0000 % 0x100, id / 0x100 % 0x100, id % 0x100]
  {
    ThreeBytes(id);
  }

  /** The part of them that is queued. */
  function Record(m: CanMessage): (r: seq<byte>)
    requires m.dlc <= DATA_BYTES
    ensures |r| == HEADER_BYTES + m.dlc
  {
    Encode(m)[..HEADER_BYTES + m.dlc]
  }

  /** What a receiver can see of a full message: all but the top three identifier bits. */
  function OnTheWire(m: CanMessage): CanMessage {
    m.(id := m.id % ID_MODULUS)
  }

  /** A full record comes through whole, whatever the work buffer held. */
  lemma FullRecordRoundTrip(m: CanMessage, stale: seq<byte>)
    requires m.dlc == DATA_BYTES
    ensures Decode(Record(m) + stale, |Record(m)|) == OnTheWire(m)
  {
    var d := Decode(Record(m) + stale, |Record(m)|);
    assert Record(m) == Header(7, m.id) + Payload(m);
    DecodeRecord(Record(m), stale, 7, m.id, Payload(m));
    assert Payload(d) == Payload(m);
    SamePayload(d, m);
  }

  // ---------- One channel as a state machine ----------

  /** A client queues a message, or the 1 ms task finds a work buffer and sends a frame. */
  datatype Event = Submit(m: CanMessage) | Tick(buffer: seq<byte>)
  {
    predicate Possible() {
      if Submit? then m.dlc <= DATA_BYTES else |buffer| >= RECORD_BYTES
    }
  }

  datatype Port = Port(queue: Fifo, accepted: seq<CanMessage>, sent: seq<CanMessage>)
  {
    /** The bytes the next transmit step takes. */
    function Taken(): seq<byte> {
      queue.Out(Dequeue(RECORD_BYTES))
    }

    function Next(e: Event): Port
      requires e.Possible()
    {
      match e
      case Submit(m) =>
        var r := Enqueue(Record(m));
        Port(queue.Next(r), if queue.Accepts(r) then accepted + [m] else accepted, sent)
      case Tick(b) =>
        if queue.bytes == [] then this
        else
          var n := |Taken()|;
          Port(queue.Next(Dequeue(RECORD_BYTES)), accepted, sent + [Decode(Taken() + b[n..], n)])
    }

    function Run(es: seq<Event>): Port
      requires forall e <- es :: e.Possible()
      decreases es
    {
      if es == [] then this else Next(es[0]).Run(es[1..])
    }
  }

  function Records(ms: seq<CanMessage>): seq<byte>
    requires forall m <- ms :: m.dlc <= DATA_BYTES
  {
    if ms == [] then [] else Record(ms[0]) + Records(ms[1..])
  }

  lemma {:induction false} RecordsAppend(ms: seq<CanMessage>, m: CanMessage)
    requires m.dlc <= DATA_BYTES && forall x <- ms :: x.dlc <= DATA_BYTES
    ensures Records(ms + [m]) == Records(ms) + Record(m)
  {
    if ms == [] {
    } else {
      RecordsAppend(ms[1..], m);
      assert (ms + [m])[0] == ms[0] && (ms + [m])[1..] == ms[1..] + [m];
      Assoc(Record(ms[0]), Records(ms[1..]), Record(m));
    }
  }

  lemma {:induction false} RecordsLength(ms: seq<CanMessage>)
    requires forall m <- ms :: m.dlc == DATA_BYTES
    ensures |Records(ms)| == RECORD_BYTES * |ms|
  {
    if ms != [] {
      RecordsLength(ms[1..]);
    }
  }

  /** Sent so far is a prefix of accepted, and the queue holds exactly the rest. */
  ghost predicate InOrder(p: Port) {
    && (forall m <- p.accepted :: m.dlc == DATA_BYTES)
    && |p.sent| <= |p.accepted|
    && (forall k :: 0 <= k < |p.sent| ==> p.sent[k] == OnTheWire(p.accepted[k]))
    && p.queue.bytes == Records(p.accepted[|p.sent|..])
  }

  lemma SubmitKeepsOrder(p: Port, m: CanMessage)
    requires InOrder(p) && m.dlc == DATA_BYTES
    ensures InOrder(p.Next(Submit(m)))
  {
    RecordsAppend(p.accepted[|p.sent|..], m);
    assert (p.accepted + [m])[|p.sent|..] == p.accepted[|p.sent|..] + [m];
  }

  lemma TickKeepsOrder(p: Port, buffer: seq<byte>)
    requires InOrder(p) && |buffer| >= RECORD_BYTES
    ensures InOrder(p.Next(Tick(buffer)))
    ensures p.queue.bytes != [] ==> |p.Next(Tick(buffer)).sent| == |p.sent| + 1
  {
    var waiting := p.accepted[|p.sent|..];
    if p.queue.bytes != [] {
      var m := waiting[0];
      assert p.queue.bytes[..RECORD_BYTES] == Record(m);
      assert p.queue.bytes[RECORD_BYTES..] == Records(waiting[1..]);
      assert waiting[1..] == p.accepted[|p.sent| + 1..];
      FullRecordRoundTrip(m, buffer[RECORD_BYTES..]);
    }
  }

  /** Over any interleaving of full messages and transmit steps, from any ordered state: the
      messages sent are a prefix of those accepted, and the queue is a whole number of records. */
  lemma {:induction false} RunKeepsOrder(p: Port, es: seq<Event>)
    requires InOrder(p)
    requires forall e <- es :: e.Possible() && (e.Submit? ==> e.m.dlc == DATA_BYTES)
    ensures InOrder(p.Run(es))
    ensures |p.Run(es).queue.bytes| == RECORD_BYTES * (|p.Run(es).accepted| - |p.Run(es).sent|)
    decreases es
  {
    if es == [] {
      RecordsLength(p.accepted[|p.sent|..]);
    } else {
      match es[0] {
        case Submit(m) => SubmitKeepsOrder(p, m);
        case Tick(b) =>
          assert es[0].Possible();
          TickKeepsOrder(p, b);
      }
      RunKeepsOrder(p.Next(es[0]), es[1..]);
    }
  }

  // ---------- The response, end to end ----------

  /** Message f of a response s: its identifier, its length, and the bytes from 8f on. */
  ghost predicate Carries(m: CanMessage, s: seq<byte>, id: uint32, f: nat)
    requires f < Frames(|s|)
  {
    && m.id == id % ID_MODULUS
    && m.dlc == Min(DATA_BYTES, |s| - DATA_BYTES * f)
    && Payload(m)[..m.dlc] == s[DATA_BYTES * f..DATA_BYTES * f + m.dlc]
  }

  /** The two data words of m are eight bytes of s, the high word first. */
  ghost predicate HasWords(m: CanMessage, s: seq<byte>, at: nat)
    requires at + 8 <= |s|
  {
    && m.high == s[at] as int * 0x100_0000 + s[at + 1] as int * 0x1_0000 + s[at + 2] as int * 0x100 + s[at + 3]
    && m.low == s[at + 4] as int * 0x100_0000 + s[at + 5] as int * 0x1_0000 + s[at + 6] as int * 0x100 + s[at + 7]
  }

  lemma PayloadWords(m: CanMessage)
    ensures HasWords(m, Payload(m), 0)
  {
    var d := Payload(m);
    FitsIn(m.high);
    FitsIn(m.low);
    NumberOfBytes(m.high, 4);
    NumberOfBytes(m.low, 4);
    assert d[..4] == Bytes(m.high, 4) && d[4..] == Bytes(m.low, 4);
    FourByteNumber(d[..4]);
    FourByteNumber(d[4..]);
  }

  lemma FrameInPlain(m: CanMessage, s: seq<byte>, id: uint32, f: nat)
    requires f < Frames(|s|) && Carries(m, s, id, f)
    ensures m.id == id % 0x2000_0000 && m.dlc == (if 8 * f + 8 <= |s| then 8 else |s| - 8 * f)
    ensures 8 * f + 8 <= |s| ==> HasWords(m, s, 8 * f)
  {
    if 8 * f + 8 <= |s| {
      var d := s[8 * f..8 * f + 8];
      assert Payload(m) == Payload(m)[..8] == d;
      PayloadWords(m);
      assert HasWords(m, d, 0);
    }
  }

  /** The messages ms carry the response s frame by frame, and nothing else. */
  ghost predicate Delivers(ms: seq<CanMessage>, s: seq<byte>, id: uint32) {
    if s == [] then ms == []
    else ms != [] && Carries(ms[0], s, id, 0) && Delivers(ms[1..], s[Min(DATA_BYTES, |s|)..], id)
  }

  lemma DeliversCons(m: CanMessage, ms: seq<CanMessage>, s: seq<byte>, id: uint32)
    requires s != [] && Carries(m, s, id, 0) && Delivers(ms, s[Min(DATA_BYTES, |s|)..], id)
    ensures Delivers([m] + ms, s, id)
  {
    assert ([m] + ms)[1..] == ms;
  }

  lemma {:induction false} DeliveredFrames(ms: seq<CanMessage>, s: seq<byte>, id: uint32)
    requires Delivers(ms, s, id)
    ensures |ms| == Frames(|s|)
    ensures forall f :: 0 <= f < |ms| ==> Carries(ms[f], s, id, f)
  {
    if s != [] {
      var rest := s[Min(DATA_BYTES, |s|)..];
      DeliveredFrames(ms[1..], rest, id);
      forall f | 1 <= f < |ms|
        ensures Carries(ms[f], s, id, f)
      {
        assert Carries(ms[1..][f - 1], rest, id, f - 1);
        LaterFrame(ms[f], s, id, f - 1);
      }
    }
  }

  lemma LaterFrame(m: CanMessage, s: seq<byte>, id: uint32, f: nat)
    requires |s| > DATA_BYTES && f < Frames(|s| - DATA_BYTES) && Carries(m, s[DATA_BYTES..], id, f)
    ensures Carries(m, s, id, f + 1)
  {
  }

  /** The first transmit step of an expanded response. */
  lemma FirstFrame(p: Port, s: seq<byte>, id: uint32, buffer: seq<byte>) returns (m: CanMessage)
    requires s != [] && p.queue.bytes == Expand(s, id) && |buffer| >= RECORD_BYTES
    ensures var q := p.Next(Tick(buffer));
      q.sent == p.sent + [m] && q.queue.bytes == Expand(s[Min(DATA_BYTES, |s|)..], id)
    ensures Carries(m, s, id, 0)
  {
    var data := s[..Min(DATA_BYTES, |s|)];
    var record := Header(7, id) + data;
    var rest := Expand(s[Min(DATA_BYTES, |s|)..], id);
    assert s[..|s|] == s;
    assert p.queue.bytes == record + rest;
    assert p.Taken() == record;
    DecodeRecord(record, buffer[|record|..], 7, id, data);
    m := Decode(record + buffer[|record|..], |record|);
  }

  /** Whatever the work buffers held: the queued expansion of a response leaves as messages that
      carry exactly its bytes in order, and the queue is empty afterwards. */
  lemma {:induction false} ResponseLeaves(p: Port, s: seq<byte>, id: uint32, ticks: seq<Event>)
    returns (ms: seq<CanMessage>)
    requires p.queue.bytes == Expand(s, id)
    requires forall e <- ticks :: e.Tick? && e.Possible()
    requires |ticks| >= Frames(|s|)
    ensures p.Run(ticks).queue.bytes == []
    ensures p.Run(ticks).sent == p.sent + ms
    ensures Delivers(ms, s, id)
    decreases ticks
  {
    if ticks == [] {
      ms := [];
    } else {
      var next, later := p.Next(ticks[0]), ticks[1..];
      assert p.Run(ticks) == next.Run(later);
      if s == [] {
        assert next == p;
        ms := ResponseLeaves(next, s, id, later);
      } else {
        var m := FirstFrame(p, s, id, ticks[0].buffer);
        var rest := ResponseLeaves(next, s[Min(DATA_BYTES, |s|)..], id, later);
        ms := [m] + rest;
        DeliversCons(m, rest, s, id);
        Assoc(p.sent, [m], rest);
      }
    }
  }

  /** End to end: a response that fits is expanded, queued on an empty queue and drained by the
      transmit task. Exactly ceil(n / 8) messages leave; message f carries the low 29
      identifier bits, min(8, n - 8f) bytes, and those bytes are the original ones from 8f on. Of a
      full frame the first four are the high data word and the others the low one. */
  lemma ResponseArrives(capacity: nat, s: seq<byte>, id: uint32, ticks: seq<Event>)
    requires |s| + HEADER_BYTES * Frames(|s|) <= capacity
    requires forall e <- ticks :: e.Tick? && e.Possible()
    requires |ticks| >= Frames(|s|)
    ensures var empty := Fifo([], capacity);
      var end := Port(empty.Next(Enqueue(Expand(s, id))), [], []).Run(ticks);
      && end.queue.bytes == []
      && |end.sent| == Frames(|s|)
      && 8 * |end.sent| < |s| + 8 && |s| <= 8 * |end.sent|
      && forall f :: 0 <= f < |end.sent| ==>
           && Carries(end.sent[f], s, id, f)
           && end.sent[f].id == id % 0x2000_0000
           && end.sent[f].dlc == (if 8 * f + 8 <= |s| then 8 else |s| - 8 * f)
           && (8 * f + 8 <= |s| ==> HasWords(end.sent[f], s, 8 * f))
  {
    var p := Port(Fifo([], capacity).Next(Enqueue(Expand(s, id))), [], []);
    assert [] + Expand(s, id) == Expand(s, id);
    var ms := ResponseLeaves(p, s, id, ticks);
    assert p.Run(ticks).sent == ms;
    DeliveredFrames(ms, s, id);
    forall f | 0 <= f < |ms|
      ensures ms[f].id == id % 0x2000_0000 && ms[f].dlc == (if 8 * f + 8 <= |s| then 8 else |s| - 8 * f)
      ensures 8 * f + 8 <= |s| ==> HasWords(ms[f], s, 8 * f)
    {
      FrameInPlain(ms[f], s, id, f);
    }
  }

  // ---------- Short messages ----------

  /** The pieces the transmit step cuts the queued bytes into. */
  function Cuts(bytes: seq<byte>): seq<seq<byte>> {
    if bytes == [] then [] else
      var n := Min(RECORD_BYTES, |bytes|);
      [bytes[..n]] + Cuts(bytes[n..])
  }

  function RecordList(ms: seq<CanMessage>): seq<seq<byte>>
    requires forall m <- ms :: m.dlc <= DATA_BYTES
  {
    if ms == [] then [] else [Record(ms[0])] + RecordList(ms[1..])
  }

  /** Messages queued together keep their boundaries exactly if only the last one is short. */
  lemma {:induction false} BoundariesSurviveIff(ms: seq<CanMessage>)
    requires forall m <- ms :: m.dlc <= DATA_BYTES
    ensures Cuts(Records(ms)) == RecordList(ms)
      <==> forall k :: 0 <= k < |ms| - 1 ==> ms[k].dlc == DATA_BYTES
  {
    if |ms| <= 1 {
      if |ms| == 1 {
        assert Records(ms) == Record(ms[0]);
        assert Record(ms[0])[..|Record(ms[0])|] == Record(ms[0]);
      }
    } else {
      var first, bytes := Record(ms[0]), Records(ms);
      BoundariesSurviveIff(ms[1..]);
      assert bytes == first + Records(ms[1..]) && |Records(ms[1..])| >= HEADER_BYTES;
      var n := Min(RECORD_BYTES, |bytes|);
      assert Cuts(bytes)[0] == bytes[..n] && RecordList(ms)[0] == first;
      if ms[0].dlc == DATA_BYTES {
        assert bytes[..n] == first && bytes[n..] == Records(ms[1..]);
        assert Cuts(bytes)[1..] == Cuts(Records(ms[1..])) && RecordList(ms)[1..] == RecordList(ms[1..]);
        assert forall k :: 1 <= k < |ms| - 1 ==> ms[k] == ms[1..][k - 1];
        assert forall k :: 0 <= k < |ms[1..]| - 1 ==> ms[1..][k] == ms[k + 1];
      } else {
        assert |bytes[..n]| > |first|;
      }
    }
  }

  ghost predicate DecodedWith(m: CanMessage, cut: seq<byte>, stale: seq<byte>) {
    |cut| + |stale| >= RECORD_BYTES && m == Decode(cut + stale, |cut|)
  }

  /** m is decoded from this cut, whatever the work buffer held behind it. */
  ghost predicate Decoded(m: CanMessage, cut: seq<byte>) {
    exists stale :: DecodedWith(m, cut, stale)
  }

  ghost predicate AllDecoded(ms: seq<CanMessage>, cuts: seq<seq<byte>>) {
    |ms| == |cuts| && forall k :: 0 <= k < |ms| ==> Decoded(ms[k], cuts[k])
  }

  lemma DecodedCons(m: CanMessage, ms: seq<CanMessage>, cut: seq<byte>, cuts: seq<seq<byte>>)
    requires Decoded(m, cut) && AllDecoded(ms, cuts)
    ensures AllDecoded([m] + ms, [cut] + cuts)
  {
  }

  lemma TickSendsCut(p: Port, buffer: seq<byte>) returns (m: CanMessage)
    requires p.queue.bytes != [] && |buffer| >= RECORD_BYTES
    ensures p.Next(Tick(buffer)).sent == p.sent + [m] && Decoded(m, p.Taken())
    ensures Cuts(p.queue.bytes) == [p.Taken()] + Cuts(p.Next(Tick(buffer)).queue.bytes)
  {
    var stale := buffer[|p.Taken()|..];
    m := Decode(p.Taken() + stale, |p.Taken()|);
    assert DecodedWith(m, p.Taken(), stale);
  }

  /** Each transmit step sends one cut, whose size becomes the message's length and whose bytes
      become its identifier and data. */
  lemma {:induction false} TicksSendCuts(p: Port, ticks: seq<Event>) returns (ms: seq<CanMessage>)
    requires forall e <- ticks :: e.Tick? && e.Possible()
    requires |ticks| >= |Cuts(p.queue.bytes)|
    ensures p.Run(ticks).sent == p.sent + ms
    ensures AllDecoded(ms, Cuts(p.queue.bytes))
    decreases ticks
  {
    if ticks == [] {
      ms := [];
    } else {
      var next := p.Next(ticks[0]);
      assert p.Run(ticks) == next.Run(ticks[1..]);
      if p.queue.bytes == [] {
        ms := TicksSendCuts(next, ticks[1..]);
      } else {
        var m := TickSendsCut(p, ticks[0].buffer);
        var rest := TicksSendCuts(next, ticks[1..]);
        ms := [m] + rest;
        Assoc(p.sent, [m], rest);
        DecodedCons(m, rest, p.Taken(), Cuts(next.queue.bytes));
      }
    }
  }

  /** So a short message with anything behind it already goes out with the wrong length. */
  lemma ShortMessageGrows(p: Port, a: CanMessage, b: CanMessage, rest: seq<byte>, buffer: seq<byte>)
    requires a.dlc < DATA_BYTES && b.dlc <= DATA_BYTES && |buffer| >= RECORD_BYTES
    requires p.queue.bytes == Record(a) + Record(b) + rest
    ensures var q := p.Next(Tick(buffer)).sent;
      |q| == |p.sent| + 1 && q[|p.sent|].dlc > a.dlc
  {
    var taken := p.Taken();
    assert |taken| == Min(RECORD_BYTES, |p.queue.bytes|) > |Record(a)|;
    var d := Decode(taken + buffer[|taken|..], |taken|);
    assert d.dlc == |taken| - HEADER_BYTES;
    assert p.Next(Tick(buffer)).sent == p.sent + [d];
  }

  // ---------- Runs with messages of any length ----------

  /** d shows its receiver the message m. */
  ghost predicate Shows(d: CanMessage, m: CanMessage)
    requires m.dlc <= DATA_BYTES
  {
    d.id == m.id % ID_MODULUS && d.dlc == m.dlc && Payload(d)[..m.dlc] == Payload(m)[..m.dlc]
  }

  lemma RecordShows(m: CanMessage, stale: seq<byte>)
    requires m.dlc <= DATA_BYTES && |Record(m)| + |stale| >= RECORD_BYTES
    ensures Shows(Decode(Record(m) + stale, |Record(m)|), m)
  {
    assert Record(m) == Header((m.dlc + 7) % 8, m.id) + Payload(m)[..m.dlc];
    DecodeRecord(Record(m), stale, (m.dlc + 7) % 8, m.id, Payload(m)[..m.dlc]);
  }

  ghost predicate FullButLast(ms: seq<CanMessage>) {
    forall k :: 0 <= k < |ms| - 1 ==> ms[k].dlc == DATA_BYTES
  }

  /** The accepted messages that have not been sent. */
  ghost function Waiting(p: Port): seq<CanMessage>
    requires |p.sent| <= |p.accepted|
  {
    p.accepted[|p.sent|..]
  }

  /** Accepted messages were sent in order, the others are queued, at most the last of them short. */
  ghost predicate Flowing(p: Port) {
    && (forall m <- p.accepted :: m.dlc <= DATA_BYTES)
    && |p.sent| <= |p.accepted|
    && (forall k :: 0 <= k < |p.sent| ==> Shows(p.sent[k], p.accepted[k]))
    && p.queue.bytes == Records(Waiting(p)) && FullButLast(Waiting(p))
  }

  /** No message is accepted while the queue is not a whole number of records. */
  ghost predicate Polite(p: Port, es: seq<Event>)
    requires forall e <- es :: e.Possible()
    decreases es
  {
    es != [] ==>
      && (es[0].Submit? && es[0].Possible() && p.queue.Accepts(Enqueue(Record(es[0].m))) ==>
            |p.queue.bytes| % RECORD_BYTES == 0)
      && Polite(p.Next(es[0]), es[1..])
  }

  lemma {:induction false} ShortTail(ms: seq<CanMessage>)
    requires (forall m <- ms :: m.dlc <= DATA_BYTES) && FullButLast(ms)
    ensures |Records(ms)| % RECORD_BYTES == 0 <==> ms == [] || ms[|ms| - 1].dlc == DATA_BYTES
    ensures Records(ms) == [] <==> ms == []
  {
    if |ms| > 1 {
      assert forall k :: 0 <= k < |ms[1..]| - 1 ==> ms[1..][k] == ms[k + 1];
      ShortTail(ms[1..]);
    } else if |ms| == 1 {
      assert Records(ms) == Record(ms[0]) + Records([]);
    }
  }

  lemma SubmitKeepsFlow(p: Port, m: CanMessage)
    requires Flowing(p) && m.dlc <= DATA_BYTES && Polite(p, [Submit(m)])
    ensures Flowing(p.Next(Submit(m)))
  {
    ShortTail(Waiting(p));
    RecordsAppend(Waiting(p), m);
    assert (p.accepted + [m])[|p.sent|..] == Waiting(p) + [m];
  }

  lemma TickKeepsFlow(p: Port, buffer: seq<byte>)
    requires Flowing(p) && |buffer| >= RECORD_BYTES
    ensures Flowing(p.Next(Tick(buffer)))
  {
    if p.queue.bytes != [] {
      var ws := Waiting(p);
      ShortTail(ws);
      var m, rest := ws[0], Records(ws[1..]);
      assert p.queue.bytes == Record(m) + rest;
      assert |ws| == 1 ==> ws[1..] == [] && rest == [];
      assert p.Taken() == Record(m) && p.queue.bytes[|Record(m)|..] == rest;
      RecordShows(m, buffer[|Record(m)|..]);
      assert ws[1..] == p.accepted[|p.sent| + 1..];
      assert forall k :: 0 <= k < |ws[1..]| - 1 ==> ws[1..][k] == ws[k + 1];
    }
  }

  lemma {:induction false} PoliteRunsFlow(p: Port, es: seq<Event>)
    requires Flowing(p) && (forall e <- es :: e.Possible()) && Polite(p, es)
    ensures Flowing(p.Run(es))
    decreases es
  {
    if es != [] {
      assert es[0].Possible();
      match es[0] {
        case Submit(m) =>
          assert Polite(p.Next(es[0]), []);
          SubmitKeepsFlow(p, m);
        case Tick(b) => TickKeepsFlow(p, b);
      }
      PoliteRunsFlow(p.Next(es[0]), es[1..]);
    }
  }

  /** Message j waits as the first short one, with another behind it. */
  ghost predicate Broken(p: Port, j: nat) {
    && (forall m <- p.accepted :: m.dlc <= DATA_BYTES)
    && |p.sent| <= j < |p.accepted| - 1 && p.accepted[j].dlc < DATA_BYTES
    && (forall k :: |p.sent| <= k < j ==> p.accepted[k].dlc == DATA_BYTES)
    && p.queue.bytes == Records(Waiting(p))
  }

  /** Message k was sent with a length that is not its own. */
  ghost predicate Wrong(p: Port, k: nat) {
    k < |p.sent| && k < |p.accepted| && p.sent[k].dlc != p.accepted[k].dlc
  }

  lemma SubmitBreaks(p: Port, m: CanMessage)
    requires Flowing(p) && m.dlc <= DATA_BYTES && !Polite(p, [Submit(m)])
    ensures p.accepted != [] && Broken(p.Next(Submit(m)), |p.accepted| - 1)
  {
    var q := p.Next(Submit(m));
    assert [Submit(m)][1..] == [] && Polite(q, []);
    ShortTail(Waiting(p));
    RecordsAppend(Waiting(p), m);
    assert (p.accepted + [m])[|p.sent|..] == Waiting(p) + [m];
    assert Waiting(p)[|Waiting(p)| - 1] == p.accepted[|p.accepted| - 1];
    forall k | |p.sent| <= k < |p.accepted| - 1
      ensures q.accepted[k].dlc == DATA_BYTES
    {
      assert Waiting(p)[k - |p.sent|] == p.accepted[k];
    }
  }

  lemma BrokenIsQueued(p: Port, j: nat)
    requires Broken(p, j)
    ensures p.queue.bytes != []
  {
    var ws := Waiting(p);
    assert Records(ws) == Record(ws[0]) + Records(ws[1..]);
  }

  lemma BrokenSubmit(p: Port, j: nat, m: CanMessage)
    requires Broken(p, j) && m.dlc <= DATA_BYTES
    ensures Broken(p.Next(Submit(m)), j)
  {
    RecordsAppend(Waiting(p), m);
    assert (p.accepted + [m])[|p.sent|..] == Waiting(p) + [m];
  }

  /** A transmit step on a full record behind the queue's head. */
  lemma FullTick(p: Port, buffer: seq<byte>)
    requires |p.sent| < |p.accepted| && (forall m <- p.accepted :: m.dlc <= DATA_BYTES) && |buffer| >= RECORD_BYTES
    requires p.queue.bytes == Records(Waiting(p)) && p.accepted[|p.sent|].dlc == DATA_BYTES
    ensures var q := p.Next(Tick(buffer));
      |q.sent| == |p.sent| + 1 && q.accepted == p.accepted && q.queue.bytes == Records(Waiting(q))
  {
    var ws := Waiting(p);
    assert ws[0] == p.accepted[|p.sent|] && ws[1..] == p.accepted[|p.sent| + 1..];
    assert p.queue.bytes == Record(ws[0]) + Records(ws[1..]);
    assert p.queue.bytes[RECORD_BYTES..] == Records(ws[1..]);
  }

  /** A step on a short one that is not the last. */
  lemma ShortTick(p: Port, buffer: seq<byte>)
    requires |p.sent| < |p.accepted| - 1 && (forall m <- p.accepted :: m.dlc <= DATA_BYTES) && |buffer| >= RECORD_BYTES
    requires p.queue.bytes == Records(Waiting(p)) && p.accepted[|p.sent|].dlc < DATA_BYTES
    ensures Wrong(p.Next(Tick(buffer)), |p.sent|)
  {
    var ws := Waiting(p);
    var later := ws[1..];
    assert later[1..] == ws[2..] && ws[1] in p.accepted;
    assert p.queue.bytes == Record(ws[0]) + (Record(ws[1]) + Records(ws[2..]));
    Assoc(Record(ws[0]), Record(ws[1]), Records(ws[2..]));
    ShortMessageGrows(p, ws[0], ws[1], Records(ws[2..]), buffer);
  }

  lemma BrokenTick(p: Port, j: nat, buffer: seq<byte>)
    requires Broken(p, j) && |buffer| >= RECORD_BYTES
    ensures Broken(p.Next(Tick(buffer)), j) || Wrong(p.Next(Tick(buffer)), j)
  {
    if |p.sent| == j {
      ShortTick(p, buffer);
    } else {
      FullTick(p, buffer);
    }
  }

  lemma {:induction false} BrokenRun(p: Port, j: nat, es: seq<Event>)
    requires (Broken(p, j) || Wrong(p, j)) && forall e <- es :: e.Possible()
    ensures Broken(p.Run(es), j) || Wrong(p.Run(es), j)
    decreases es
  {
    if es != [] {
      assert es[0].Possible();
      if Broken(p, j) {
        match es[0] {
          case Submit(m) => BrokenSubmit(p, j, m);
          case Tick(b) => BrokenTick(p, j, b);
        }
      }
      BrokenRun(p.Next(es[0]), j, es[1..]);
    }
  }

  lemma {:induction false} ImpoliteRunsBreak(p: Port, es: seq<Event>) returns (j: nat)
    requires Flowing(p) && (forall e <- es :: e.Possible()) && !Polite(p, es)
    ensures Broken(p.Run(es), j) || Wrong(p.Run(es), j)
    decreases es
  {
    var next := p.Next(es[0]);
    assert es[0].Possible();
    if Polite(p, [es[0]]) {
      assert [es[0]][1..] == [] && Polite(next, []);
      match es[0] {
        case Submit(m) => SubmitKeepsFlow(p, m);
        case Tick(b) => TickKeepsFlow(p, b);
      }
      j := ImpoliteRunsBreak(next, es[1..]);
    } else {
      assert [es[0]][1..] == [] && Polite(next, []);
      SubmitBreaks(p, es[0].m);
      j := |p.accepted| - 1;
      BrokenRun(next, j, es[1..]);
    }
  }

  /** Over any interleaving of messages of up to eight bytes with transmit steps that ends with the
      queue drained: every accepted message was sent as itself and in order, exactly if none was
      accepted while the queue was not a whole number of records. */
  lemma MessagesArriveIff(p: Port, es: seq<Event>)
    requires Flowing(p) && (forall e <- es :: e.Possible()) && p.Run(es).queue.bytes == []
    ensures var q := p.Run(es);
      Polite(p, es) <==>
        && |q.sent| == |q.accepted|
        && forall k :: 0 <= k < |q.sent| ==> q.accepted[k].dlc <= DATA_BYTES && Shows(q.sent[k], q.accepted[k])
  {
    var q := p.Run(es);
    if Polite(p, es) {
      PoliteRunsFlow(p, es);
      ShortTail(Waiting(q));
    } else {
      var j := ImpoliteRunsBreak(p, es);
      if Broken(q, j) {
        BrokenIsQueued(q, j);
        assert false;
      }
    }
  }

  // ---------- The channel ----------

  class CanChannel {
    const queue: ByteQueue
    ghost var accepted: seq<CanMessage>
    ghost var sent: seq<CanMessage>

    ghost predicate Valid()
      reads this, queue
    {
      queue.Valid()
    }

    ghost function View(): Port
      requires Valid()
      reads this, queue, queue.data
    {
      Port(queue.View(), accepted, sent)
    }

    constructor (queue: ByteQueue)
      requires queue.Valid()
      ensures Valid() && this.queue == queue
      ensures View() == Port(queue.View(), [], [])
    {
      this.queue := queue;
      accepted, sent := [], [];
    }

    static method LayoutHeader(data: array<byte>, m: CanMessage)
      requires data.Length == RECORD_BYTES
      modifies data
      ensures data[..4] == Header((m.dlc + 7) % 8, m.id)
    {
      data[0] := (m.dlc - 1) * 0x20 % 0x100;
      data[0] := (data[0] + m.id / 0x100_0000 % 0x20) % 0x100;
      data[1] := m.id / 0x1_0000 % 0x100;
      data[2] := m.id / 0x100 % 0x100;
      data[3] := m.id % 0x100;
      LengthBits(m.dlc);
      ThreeBytes(m.id);
    }

    static method LayoutWord(data: array<byte>, at: nat, w: uint32)
      requires at + 4 <= data.Length
      modifies data
      ensures data[..at] == old(data[..at]) && data[at + 4..] == old(data[at + 4..])
      ensures data[at..at + 4] == Bytes(w, 4)
    {
      data[at] := w / 0x100_0000 % 0x100;
      data[at + 1] := w / 0x1_0000 % 0x100;
      data[at + 2] := w / 0x100 % 0x100;
      data[at + 3] := w % 0x100;
      FourBytes(w);
    }

    /** The byte array DLL_vQueueCANMessage fills in. */
    static method Layout(m: CanMessage) returns (data: array<byte>)
      ensures fresh(data) && data[..] == Encode(m)
      ensures data[0] == (m.dlc + 7) % 8 * 0x20 + m.id / 0x100_0000 % 0x20
      ensures data[1] == m.id / 0x1_0000 % 0x100 && data[2] == m.id / 0x100 % 0x100 && data[3] == m.id % 0x100
      ensures data[4] == m.high / 0x100_0000 && data[5] == m.high / 0x1_0000 % 0x100
      ensures data[6] == m.high / 0x100 % 0x100 && data[7] == m.high % 0x100
      ensures data[8] == m.low / 0x100_0000 && data[9] == m.low / 0x1_0000 % 0x100
      ensures data[10] == m.low / 0x100 % 0x100 && data[11] == m.low % 0x100
    {
      data := new byte[RECORD_BYTES];
      LayoutHeader(data, m);
      LayoutWord(data, 4, m.high);
      assert data[..8] == Header((m.dlc + 7) % 8, m.id) + Bytes(m.high, 4);
      LayoutWord(data, 8, m.low);
      assert data[..] == data[..8] + data[8..12];
      Assoc(Header((m.dlc + 7) % 8, m.id), Bytes(m.high, 4), Bytes(m.low, 4));
      EncodeInPlain(m);
      assert forall i :: 0 <= i < 12 ==> data[i] == data[..][i];
    }

    /** DLL_vQueueCANMessage. A longer message would make it read past its 12 bytes. */
    method QueueMessage(m: CanMessage) returns (queued: bool)
      requires Valid() && m.dlc <= DATA_BYTES
      modifies this, queue, queue.data
      ensures Valid()
      ensures View() == old(View()).Next(Submit(m))
      ensures queued <==> |old(View()).queue.bytes| + m.dlc + 4 <= queue.size - 1
      ensures View().queue.bytes == old(View()).queue.bytes + if queued then Encode(m)[..m.dlc + 4] else []
    {
      var data := Layout(m);
      assert data[..m.dlc + 4] == data[..][..m.dlc + 4];
      queued := queue.QueueBytes(data, m.dlc + 4);
      if queued {
        accepted := accepted + [m];
      }
    }

    /** The response part of DLL_vFrameRXCB: expand in the work buffer, then queue all or nothing. */
    method QueueResponse(buffer: array<byte>, count: nat, id: uint32) returns (queued: bool)
      requires Valid() && buffer != queue.data
      requires count + HEADER_BYTES * Frames(count) <= buffer.Length
      modifies this, buffer, queue, queue.data
      ensures Valid() && accepted == old(accepted) && sent == old(sent)
      ensures View().queue == old(View()).queue.Next(Enqueue(Expand(old(buffer[..count]), id)))
      ensures queued <==> |old(View()).queue.bytes| + count + (count + 7) / 8 * 4 <= queue.size - 1
      ensures View().queue.bytes
           == old(View()).queue.bytes + if queued then Expand(old(buffer[..count]), id) else []
    {
      var total := InsertCanIdAndDlc(buffer, count, id);
      queued := queue.QueueBytes(buffer, total);
    }

    /** What the driver is handed when the first `count` bytes of the buffer are those taken. */
    static method Read(buffer: array<byte>, count: nat, ghost taken: seq<byte>, ghost stale: seq<byte>)
      returns (message: Option<CanMessage>)
      requires RECORD_BYTES <= buffer.Length == |stale| && count <= buffer.Length
      requires buffer[..count] == taken && buffer[count..] == stale[count..]
      ensures message == Some(Decode(taken + stale[count..], count))
      ensures message.value.dlc == (count - 4) % 0x100
      ensures message.value.id == HeaderId(buffer[..4])
      ensures HasWords(message.value, buffer[..], 4)
    {
      ghost var b := buffer[..];
      message := Some(Decode(buffer[..], count));
      DecodeInPlain(b, count);
      assert b[..4] == buffer[..4];
      assert b == buffer[..count] + buffer[count..];
    }

    /** One pass of DLL_vRun over this channel; null when no work buffer was free. */
    method Transmit(buffer: array?<byte>) returns (message: Option<CanMessage>)
      requires Valid() && buffer != queue.data
      requires buffer != null ==> buffer.Length >= RECORD_BYTES
      modifies this, queue, buffer
      ensures Valid()
      ensures buffer == null ==> message == None && View() == old(View())
      ensures buffer != null ==> View() == old(View()).Next(Tick(old(buffer[..])))
      ensures sent == old(sent) + if message.Some? then [message.value] else []
      ensures message.Some? <==> buffer != null && old(View()).queue.bytes != []
      ensures message.Some? ==>
        var n := |old(View()).queue.bytes| - |View().queue.bytes|;
        && n == (if |old(View()).queue.bytes| < 12 then |old(View()).queue.bytes| else 12)
        && old(View()).queue.bytes == buffer[..n] + View().queue.bytes
        && buffer[n..] == old(buffer[n..])
        && message.value.dlc == (n - 4) % 0x100
        && message.value.id == HeaderId(buffer[..4])
        && HasWords(message.value, buffer[..], 4)
    {
      message := None;
      if 0 < queue.QueuedCount() && buffer != null {
        ghost var taken, stale := View().Taken(), buffer[..];
        var count := queue.DequeueBytes(buffer, RECORD_BYTES);
        message := Read(buffer, count, taken, stale);
        sent := sent + [message.value];
      }
    }
  }
}
