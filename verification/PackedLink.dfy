/** The packed UART link: ten bytes travel as twelve, seven bits each, between a start and an
    end marker; the receiver finds frames by their markers. */
module PackedLink {
  import opened Words

  const PAYLOAD_BYTES := 10
  const FRAME_BYTES := 12
  const RX_BUFFER_BYTES := 192

  type octet = bv8
  type Payload = p: seq<octet> | |p| == PAYLOAD_BYTES witness seq(10, _ => 0)
  type Frame = f: seq<octet> | |f| == FRAME_BYTES witness seq(12, _ => 0)

  // ---------- The code ----------

  /** The 80 payload bits, most significant first, in pieces of 4, 7, ..., 7, 6 bits. */
  function Packed(p: Payload): Frame {
    [0xc0 | (p[0] >> 4),
     0x7f & ((p[0] << 3) | (p[1] >> 5)),
     0x7f & ((p[1] << 2) | (p[2] >> 6)),
     0x7f & ((p[2] << 1) | (p[3] >> 7)),
     0x7f & p[3],
     0x7f & (p[4] >> 1),
     0x7f & ((p[4] << 6) | (p[5] >> 2)),
     0x7f & ((p[5] << 5) | (p[6] >> 3)),
     0x7f & ((p[6] << 4) | (p[7] >> 4)),
     0x7f & ((p[7] << 3) | (p[8] >> 5)),
     0x7f & ((p[8] << 2) | (p[9] >> 6)),
     0xbf & (p[9] | 0x80)]
  }

  function Unpacked(f: Frame): Payload {
    [(f[0] << 4) | (f[1] >> 3),
     (f[1] << 5) | (f[2] >> 2),
     (f[2] << 6) | (f[3] >> 1),
     (f[3] << 7) | f[4],
     (f[5] << 1) | (f[6] >> 6),
     (f[6] << 2) | (f[7] >> 5),
     (f[7] << 3) | (f[8] >> 4),
     (f[8] << 4) | (f[9] >> 3),
     (f[9] << 5) | (f[10] >> 2),
     0x7f & ((f[10] << 6) | f[11])]
  }

  /** All that a payload loses on its way: the top bit of its last byte. */
  function Received(p: Payload): Payload {
    p[9 := p[9] & 0x7f]
  }

  /** The 80 bits of a payload. */
  function PayloadBits(p: Payload): bv80 {
    (p[0] as bv80 << 72) | (p[1] as bv80 << 64) | (p[2] as bv80 << 56) | (p[3] as bv80 << 48) | (p[4] as bv80 << 40)
    | (p[5] as bv80 << 32) | (p[6] as bv80 << 24) | (p[7] as bv80 << 16) | (p[8] as bv80 << 8) | (p[9] as bv80)
  }

  /** What a frame carries besides its markers: 4, ten times 7, and 6 bits. */
  function FrameBits(f: Frame): bv80 {
    ((f[0] & 0x0f) as bv80 << 76) | (f[1] as bv80 << 69) | (f[2] as bv80 << 62) | (f[3] as bv80 << 55)
    | (f[4] as bv80 << 48) | (f[5] as bv80 << 41) | (f[6] as bv80 << 34) | (f[7] as bv80 << 27)
    | (f[8] as bv80 << 20) | (f[9] as bv80 << 13) | (f[10] as bv80 << 6) | ((f[11] & 0x3f) as bv80)
  }

  /** The frame carries all payload bits in their order, the one that unpacking clears as well. */
  lemma FrameCarriesAllBits(p: Payload)
    ensures FrameBits(Packed(p)) == PayloadBits(p)
  {
  }

  /** Unpacking reads the bits of a frame in that order, and clears the last byte's top one. */
  lemma UnpackReadsAllBits(f: Frame)
    requires forall k :: 1 <= k < 11 ==> f[k] < 0x80
    requires 0x80 <= f[11] < 0xc0
    ensures PayloadBits(Unpacked(f)) == FrameBits(f) & 0xffff_ffff_ffff_ffff_ff7f
  {
  }

  predicate IsStart(b: octet) {
    b & 0xc0 == 0xc0
  }

  predicate IsEnd(b: octet) {
    b & 0xc0 == 0x80
  }

  lemma PackRoundTrip(p: Payload)
    ensures Unpacked(Packed(p)) == Received(p)
  {
    var f := Packed(p);
    var u := Unpacked(f);
    assert u[..5] == p[..5];
    assert u[5..9] == p[5..9];
    assert u[9] == p[9] & 0x7f;
    assert u == u[..5] + u[5..9] + [u[9]];
    assert Received(p) == p[..5] + p[5..9] + [p[9] & 0x7f];
  }

  /** Payloads without that bit come back exactly, and only they do. */
  lemma PackIsLosslessIff(p: Payload)
    ensures Unpacked(Packed(p)) == p <==> p[9] < 0x80
  {
    PackRoundTrip(p);
    assert (p[9] & 0x7f == p[9]) <==> p[9] < 0x80;
  }

  /** The start marker opens the frame, the end marker closes it, and neither occurs inside. */
  ghost predicate WellMarked(f: Frame) {
    && IsStart(f[0])
    && IsEnd(f[11])
    && forall k :: 1 <= k < 11 ==> !IsStart(f[k]) && !IsEnd(f[k])
  }

  lemma NoMarker(b: octet)
    ensures !IsStart(0x7f & b) && !IsEnd(0x7f & b)
  {
  }

  lemma PackedIsWellMarked(p: Payload)
    ensures WellMarked(Packed(p))
  {
    var f := Packed(p);
    assert IsStart(f[0]) && IsEnd(f[11]);
    forall k | 1 <= k < 11
      ensures !IsStart(f[k]) && !IsEnd(f[k])
    {
      assert f[k] == 0x7f & f[k];
      NoMarker(f[k]);
    }
  }

  /** PACKEDDLL_vPack: shift up by two, then overwrite from the front. */
  method Pack(data: array<octet>)
    requires data.Length >= FRAME_BYTES
    modifies data
    ensures data[..FRAME_BYTES] == Packed(old(data[..PAYLOAD_BYTES]))
    ensures data[FRAME_BYTES..] == old(data[FRAME_BYTES..])
  {
    var i := 11;
    while i > 1
      invariant 1 <= i <= 11
      invariant forall k :: i < k <= 11 ==> data[k] == old(data[k - 2])
      invariant forall k :: 0 <= k <= i || 11 < k < data.Length ==> data[k] == old(data[k])
    {
      data[i] := data[i - 2];
      i := i - 1;
    }
    PackShifted(data, old(data[..PAYLOAD_BYTES]));
  }

  lemma Spelled(s: seq<octet>)
    ensures |s| == PAYLOAD_BYTES ==>
      s == [s[0], s[1], s[2], s[3], s[4], s[5], s[6], s[7], s[8], s[9]]
    ensures |s| == FRAME_BYTES ==>
      s == [s[0], s[1], s[2], s[3], s[4], s[5], s[6], s[7], s[8], s[9], s[10], s[11]]
  {
  }

  /** The second half: every byte is read before it is overwritten. */
  method PackShifted(data: array<octet>, ghost p: Payload)
    requires data.Length >= FRAME_BYTES
    requires forall k :: 0 <= k < PAYLOAD_BYTES ==> p[k] == data[k + 2]
    modifies data
    ensures data[..FRAME_BYTES] == Packed(p)
    ensures data[FRAME_BYTES..] == old(data[FRAME_BYTES..])
  {
    data[0] := 0xc0 | (data[2] >> 4);
    data[1] := 0x7f & ((data[2] << 3) | (data[3] >> 5));
    data[2] := 0x7f & ((data[3] << 2) | (data[4] >> 6));
    data[3] := 0x7f & ((data[4] << 1) | (data[5] >> 7));
    data[4] := 0x7f & data[5];
    data[5] := 0x7f & (data[6] >> 1);
    data[6] := 0x7f & ((data[6] << 6) | (data[7] >> 2));
    data[7] := 0x7f & ((data[7] << 5) | (data[8] >> 3));
    data[8] := 0x7f & ((data[8] << 4) | (data[9] >> 4));
    data[9] := 0x7f & ((data[9] << 3) | (data[10] >> 5));
    data[10] := 0x7f & ((data[10] << 2) | (data[11] >> 6));
    data[11] := 0xbf & (data[11] | 0x80);
    Spelled(data[..FRAME_BYTES]);
  }

  /** PACKEDDLL_vUnpack, in place. */
  method Unpack(data: array<octet>)
    requires data.Length >= FRAME_BYTES
    modifies data
    ensures data[..PAYLOAD_BYTES] == Unpacked(old(data[..FRAME_BYTES]))
    ensures data[PAYLOAD_BYTES..] == old(data[PAYLOAD_BYTES..])
  {
    data[0] := (data[0] << 4) | (data[1] >> 3);
    data[1] := (data[1] << 5) | (data[2] >> 2);
    data[2] := (data[2] << 6) | (data[3] >> 1);
    data[3] := (data[3] << 7) | data[4];
    data[4] := (data[5] << 1) | (data[6] >> 6);
    data[5] := (data[6] << 2) | (data[7] >> 5);
    data[6] := (data[7] << 3) | (data[8] >> 4);
    data[7] := (data[8] << 4) | (data[9] >> 3);
    data[8] := (data[9] << 5) | (data[10] >> 2);
    data[9] := 0x7f & ((data[10] << 6) | data[11]);
    Spelled(data[..PAYLOAD_BYTES]);
  }

  // ---------- The receiver as a state machine ----------

  /** The receive buffer and where the next byte goes. */
  datatype Rx = Rx(data: seq<octet>, index: nat)
  {
    ghost predicate Valid() {
      |data| == RX_BUFFER_BYTES
    }

    /** Where byte b is stored. */
    function Place(b: octet): nat {
      if IsStart(b) then 0 else index
    }

    /** Past its buffer the source writes over its own bookkeeping: that is undefined. */
    predicate Defined(b: octet) {
      Place(b) < RX_BUFFER_BYTES
    }

    predicate Completes(b: octet) {
      IsEnd(b) && index == FRAME_BYTES - 1
    }

    function Stored(b: octet): seq<octet>
      requires Valid() && Defined(b)
    {
      data[Place(b) := b]
    }

    function Next(b: octet): (r: Rx)
      requires Valid() && Defined(b)
      ensures r.Valid()
    {
      if Completes(b) then
        var frame := Stored(b)[..FRAME_BYTES];
        Rx(Unpacked(frame) + Stored(b)[PAYLOAD_BYTES..], 0)
      else Rx(Stored(b), Place(b) + 1)
    }

    /** The payload handed to the frame callback by this byte, if any. */
    function Delivered(b: octet): Option<Payload>
      requires Valid() && Defined(b)
    {
      if Completes(b) then Some(Unpacked(Stored(b)[..FRAME_BYTES])) else None
    }
  }

  /** A byte from 0xc0 on is stored at the front; any other one behind the last. After the latter, if
      it is the twelfth and between 0x80 and 0xc0, the first twelve bytes are unpacked and handed out. */
  lemma RxInPlain(r: Rx, b: octet)
    requires r.Valid()
    ensures r.Defined(b) <==> b >= 0xc0 || r.index < 192
    ensures r.Defined(b) && r.index == 11 && 0x80 <= b < 0xc0 ==>
      var frame := r.data[..11] + [b];
      && r.Delivered(b) == Some(Unpacked(frame))
      && r.Next(b) == Rx(Unpacked(frame) + [frame[10], frame[11]] + r.data[12..], 0)
    ensures r.Defined(b) && b >= 0xc0 ==> r.Delivered(b) == None && r.Next(b) == Rx(r.data[0 := b], 1)
    ensures r.Defined(b) && (b < 0x80 || (b < 0xc0 && r.index != 11)) ==>
      r.Delivered(b) == None && r.Next(b) == Rx(r.data[r.index := b], r.index + 1)
  {
    MarkersInPlain(b);
    if r.index == 11 {
      var frame := r.data[..11] + [b];
      assert r.data[11 := b][..12] == frame;
      assert r.data[11 := b][10..] == [frame[10], frame[11]] + r.data[12..];
      Assoc(Unpacked(frame), [frame[10], frame[11]], r.data[12..]);
    }
  }

  lemma MarkersInPlain(b: octet)
    ensures IsStart(b) <==> b >= 0xc0
    ensures IsEnd(b) <==> 0x80 <= b < 0xc0
  {
  }

  /** No byte of the stream runs past the receive buffer. */
  ghost predicate Receivable(r: Rx, bytes: seq<octet>)
    requires r.Valid()
    decreases bytes
  {
    bytes != [] ==> r.Defined(bytes[0]) && Receivable(r.Next(bytes[0]), bytes[1..])
  }

  ghost function After(r: Rx, bytes: seq<octet>): (r': Rx)
    requires r.Valid() && Receivable(r, bytes)
    ensures r'.Valid()
    decreases bytes
  {
    if bytes == [] then r else After(r.Next(bytes[0]), bytes[1..])
  }

  /** What each byte of the stream delivers. */
  ghost function Deliveries(r: Rx, bytes: seq<octet>): (ds: seq<Option<Payload>>)
    requires r.Valid() && Receivable(r, bytes)
    ensures |ds| == |bytes|
    decreases bytes
  {
    if bytes == [] then [] else [r.Delivered(bytes[0])] + Deliveries(r.Next(bytes[0]), bytes[1..])
  }

  lemma {:induction false} StreamConcat(r: Rx, a: seq<octet>, b: seq<octet>)
    requires r.Valid() && Receivable(r, a) && Receivable(After(r, a), b)
    ensures Receivable(r, a + b)
    ensures Deliveries(r, a + b) == Deliveries(r, a) + Deliveries(After(r, a), b)
    decreases a
  {
    if a == [] {
      assert a + b == b;
    } else {
      var next := r.Next(a[0]);
      assert (a + b)[0] == a[0] && (a + b)[1..] == a[1..] + b;
      StreamConcat(next, a[1..], b);
      Assoc([r.Delivered(a[0])], Deliveries(next, a[1..]), Deliveries(After(r, a), b));
    }
  }

  // ---------- Self-synchronisation ----------

  /** The receiver has taken the first k bytes of frame f; any state will do for k == 0. */
  ghost predicate Holds(r: Rx, f: Frame, k: nat) {
    && r.Valid()
    && k < FRAME_BYTES
    && (k > 0 ==> r.index == k && r.data[..k] == f[..k])
  }

  lemma TakesByte(r: Rx, f: Frame, k: nat)
    requires WellMarked(f) && Holds(r, f, k)
    ensures r.Defined(f[k])
    ensures k < 11 ==> r.Delivered(f[k]) == None && Holds(r.Next(f[k]), f, k + 1)
    ensures k == 11 ==> r.Delivered(f[k]) == Some(Unpacked(f))
  {
    Markers(f[k]);
    assert IsStart(f[k]) <==> k == 0;
    assert IsEnd(f[k]) <==> k == 11;
    assert r.Stored(f[k])[..k + 1] == f[..k] + [f[k]] == f[..k + 1];
    if k == 11 {
      assert f[..12] == f;
    }
  }

  /** What bytes k to 11 of a frame deliver: nothing until the last one. */
  function FrameSlots(p: Payload, k: nat): (ds: seq<Option<Payload>>)
    requires k < FRAME_BYTES
    ensures |ds| == FRAME_BYTES - k
    decreases FRAME_BYTES - k
  {
    if k == 11 then [Some(Received(p))] else [None] + FrameSlots(p, k + 1)
  }

  lemma {:induction false} FrameSlotAt(p: Payload, k: nat, j: nat)
    requires k <= j < FRAME_BYTES
    ensures FrameSlots(p, k)[j - k] == if j == 11 then Some(Received(p)) else None
    decreases FRAME_BYTES - k
  {
    if k < j {
      FrameSlotAt(p, k + 1, j);
    }
  }

  lemma {:induction false} TakesFrame(r: Rx, p: Payload, k: nat)
    requires Holds(r, Packed(p), k)
    ensures Receivable(r, Packed(p)[k..])
    ensures Deliveries(r, Packed(p)[k..]) == FrameSlots(p, k)
    decreases FRAME_BYTES - k
  {
    var rest := Packed(p)[k..];
    PackedIsWellMarked(p);
    PackRoundTrip(p);
    TakesByte(r, Packed(p), k);
    assert rest[0] == Packed(p)[k] && rest[1..] == Packed(p)[k + 1..];
    if k == 11 {
      assert rest[1..] == [];
    } else {
      TakesFrame(r.Next(rest[0]), p, k + 1);
    }
  }

  function Stream(ps: seq<Payload>): seq<octet> {
    if ps == [] then [] else Packed(ps[0]) + Stream(ps[1..])
  }

  /** Byte 12i + 11 delivers payload i, every other byte nothing. */
  function StreamSlots(ps: seq<Payload>): seq<Option<Payload>> {
    seq(FRAME_BYTES * |ps|, j requires 0 <= j < FRAME_BYTES * |ps| =>
      if j % FRAME_BYTES == 11 then Some(Received(ps[j / FRAME_BYTES])) else None)
  }

  lemma StreamSlotsStep(ps: seq<Payload>)
    requires ps != []
    ensures StreamSlots(ps) == FrameSlots(ps[0], 0) + StreamSlots(ps[1..])
  {
    forall j | 0 <= j < FRAME_BYTES
      ensures StreamSlots(ps)[j] == FrameSlots(ps[0], 0)[j]
    {
      FrameSlotAt(ps[0], 0, j);
    }
    forall j | FRAME_BYTES <= j < FRAME_BYTES * |ps|
      ensures StreamSlots(ps)[j] == StreamSlots(ps[1..])[j - FRAME_BYTES]
    {
      assert (j - FRAME_BYTES) / FRAME_BYTES == j / FRAME_BYTES - 1;
      assert (j - FRAME_BYTES) % FRAME_BYTES == j % FRAME_BYTES;
      assert ps[1..][j / FRAME_BYTES - 1] == ps[j / FRAME_BYTES];
    }
  }

  /** From every receiver state, whatever came before: a stream of packed frames never runs past
      the buffer, and delivers exactly its payloads, each on the twelfth byte of its frame. */
  lemma {:induction false} SelfSynchronises(r: Rx, ps: seq<Payload>)
    requires r.Valid()
    ensures Receivable(r, Stream(ps))
    ensures Deliveries(r, Stream(ps)) == StreamSlots(ps)
    decreases ps
  {
    if ps == [] {
    } else {
      var f := Packed(ps[0]);
      assert f[0..] == f;
      TakesFrame(r, ps[0], 0);
      SelfSynchronises(After(r, f), ps[1..]);
      StreamConcat(r, f, Stream(ps[1..]));
      StreamSlotsStep(ps);
    }
  }

  // ---------- The receiver ----------

  class Receiver {
    const data: array<octet>
    var index: nat
    var full: bool

    ghost predicate Valid()
      reads this
    {
      data.Length == RX_BUFFER_BYTES
    }

    ghost function View(): (r: Rx)
      requires Valid()
      reads this, data
      ensures r.Valid()
    {
      Rx(data[..], index)
    }

    constructor ()
      ensures Valid() && fresh(data)
    {
      data := new octet[RX_BUFFER_BYTES];
      index, full := 0, false;
    }

    /** DLL_vReceiveUARTBytes in packed mode, called with one byte as the UART interrupt does. */
    method ReceiveByte(b: octet) returns (delivered: Option<Payload>)
      requires Valid() && View().Defined(b)
      modifies this, data
      ensures Valid() && View() == old(View()).Next(b)
      ensures delivered == old(View()).Delivered(b)
      ensures full == delivered.Some?
      ensures full <==> old(index) == 11 && 0x80 <= b < 0xc0
      ensures index == if full then 0 else if b >= 0xc0 then 1 else old(index) + 1
    {
      ghost var before := View();
      MarkersInPlain(b);
      full := false;
      delivered := None;
      if b & 0x80 == 0x80 {
        if b & 0xc0 == 0xc0 {
          index := 0;
        } else {
          if index == FRAME_BYTES - 1 {
            full := true;
          }
        }
      }
      data[index] := b;
      index := index + 1;
      Markers(b);
      assert data[..] == before.Stored(b);
      if full {
        assert data[..FRAME_BYTES] == before.Stored(b)[..FRAME_BYTES];
        Unpack(data);
        index := 0;
        delivered := Some(data[..PAYLOAD_BYTES]);
        assert data[..] == data[..PAYLOAD_BYTES] + data[PAYLOAD_BYTES..];
      }
    }
  }

  lemma Markers(b: octet)
    ensures b & 0x80 == 0x80 <==> IsStart(b) || IsEnd(b)
    ensures !(IsStart(b) && IsEnd(b))
  {
  }
}
