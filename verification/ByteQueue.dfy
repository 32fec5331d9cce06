/** The circular transmit queue of the data-link layer, and the plain FIFO it refines. */
module ByteQueues {
  import opened Words

  // ---------- The FIFO that callers see ----------

  /** What one call to the queue asks for. */
  datatype Request = Enqueue(bytes: seq<byte>) | Dequeue(limit: nat)

  /** The bytes held, and how many are allowed. */
  datatype Fifo = Fifo(bytes: seq<byte>, capacity: nat)
  {
    predicate Bounded() {
      |bytes| <= capacity
    }

    predicate Accepts(r: Request) {
      r.Enqueue? && |bytes| + |r.bytes| <= capacity
    }

    /** Bytes handed to the reader by this request. */
    function Out(r: Request): seq<byte> {
      if r.Dequeue? then bytes[..Min(r.limit, |bytes|)] else []
    }

    /** Bytes taken over from the writer by this request. */
    function In(r: Request): seq<byte> {
      if Accepts(r) then r.bytes else []
    }

    function Next(r: Request): Fifo {
      match r
      case Enqueue(b) => if Accepts(r) then this.(bytes := bytes + b) else this
      case Dequeue(n) => this.(bytes := bytes[Min(n, |bytes|)..])
    }

    function Run(rs: seq<Request>): Fifo
      decreases rs
    {
      if rs == [] then this else Next(rs[0]).Run(rs[1..])
    }

    function AllOut(rs: seq<Request>): seq<byte>
      decreases rs
    {
      if rs == [] then [] else Out(rs[0]) + Next(rs[0]).AllOut(rs[1..])
    }

    function AllIn(rs: seq<Request>): seq<byte>
      decreases rs
    {
      if rs == [] then [] else In(rs[0]) + Next(rs[0]).AllIn(rs[1..])
    }

    /** Conservation over every run: whatever was accepted comes out in order, or is still
        held, and nothing else does; the bound is never broken. */
    lemma {:induction false} RunConserves(rs: seq<Request>)
      requires Bounded()
      ensures bytes + AllIn(rs) == AllOut(rs) + Run(rs).bytes
      ensures Run(rs).Bounded() && Run(rs).capacity == capacity
      decreases rs
    {
      if rs == [] {
      } else {
        var next := Next(rs[0]);
        next.RunConserves(rs[1..]);
        Regroup(bytes, In(rs[0]), next.AllIn(rs[1..]), Out(rs[0]), next.bytes,
                next.AllOut(rs[1..]), next.Run(rs[1..]).bytes);
      }
    }

    /** After any run, bytes are taken over exactly if they fit: what was held at the start, plus all
        that was accepted, less all that was handed out, plus these is within the capacity. */
    lemma EnqueueIffFits(rs: seq<Request>, b: seq<byte>)
      requires Bounded()
      ensures var held := |bytes| + |AllIn(rs)| - |AllOut(rs)|;
        && |Run(rs).bytes| == held
        && Run(rs).Next(Enqueue(b)).bytes == if held + |b| <= capacity then Run(rs).bytes + b else Run(rs).bytes
    {
      RunConserves(rs);
      assert |bytes + AllIn(rs)| == |AllOut(rs) + Run(rs).bytes|;
    }
  }

  lemma Regroup(a: seq<byte>, b: seq<byte>, c: seq<byte>, d: seq<byte>, e: seq<byte>, f: seq<byte>, g: seq<byte>)
    requires a + b == d + e && e + c == f + g
    ensures a + (b + c) == (d + f) + g
  {
    assert a + (b + c) == (a + b) + c;
    assert (d + e) + c == d + (e + c);
    assert d + (f + g) == (d + f) + g;
  }

  // ---------- The ring ----------

  /** memcpy between two distinct buffers. */
  method CopyBytes(dst: array<byte>, at: nat, src: array<byte>, from: nat, count: nat)
    requires dst != src
    requires at + count <= dst.Length && from + count <= src.Length
    modifies dst
    ensures forall i :: 0 <= i < dst.Length ==>
      dst[i] == if at <= i < at + count then src[from + (i - at)] else old(dst[i])
  {
    forall i | at <= i < at + count {
      dst[i] := src[from + (i - at)];
    }
  }

  /** A position that has run past the end by less than one turn. */
  lemma ModOnce(a: nat, n: nat)
    requires a < n + n
    ensures a % n == if a < n then a else a - n
  {
    var q := a / n;
    assert a == n * q + a % n;
    assert q >= 2 ==> n * q >= n * 2;
    assert q == 0 || q == 1;
  }

  /** Where the byte `k` places behind position `from` lives in a ring of `size` slots. */
  function Slot(size: nat, from: nat, k: nat): int {
    if from + k < size then from + k else from + k - size
  }

  /** The bytes a ring holds between head and tail, oldest first, following the wrap. */
  function RingBytes(data: seq<byte>, head: nat, tail: nat): (s: seq<byte>)
    requires head < |data| && tail < |data|
    ensures |s| < |data|
  {
    seq(if head <= tail then tail - head else |data| - head + tail,
        i requires 0 <= i < |data| => data[Slot(|data|, head, i)])
  }

  /** Bytes laid down behind the tail, clear of what is held, are appended to it. */
  lemma RingAppend(before: seq<byte>, after: seq<byte>, head: nat, tail: nat, bytes: seq<byte>)
    requires |before| == |after| && head < |before| && tail < |before|
    requires |RingBytes(before, head, tail)| + |bytes| < |before|
    requires forall i :: 0 <= i < |RingBytes(before, head, tail)| ==>
      after[Slot(|after|, head, i)] == before[Slot(|after|, head, i)]
    requires forall i :: 0 <= i < |bytes| ==> after[Slot(|after|, tail, i)] == bytes[i]
    ensures RingBytes(after, head, Slot(|after|, tail, |bytes|)) == RingBytes(before, head, tail) + bytes
  {
    var held := |RingBytes(before, head, tail)|;
    forall i | held <= i < held + |bytes|
      ensures after[Slot(|after|, head, i)] == bytes[i - held]
    {
      assert Slot(|after|, head, i) == Slot(|after|, tail, i - held);
    }
  }

  /** Bytes read from the head on, following the wrap, are the oldest ones. */
  lemma RingTake(data: seq<byte>, head: nat, tail: nat, taken: seq<byte>)
    requires head < |data| && tail < |data|
    requires |taken| <= |RingBytes(data, head, tail)|
    requires forall i :: 0 <= i < |taken| ==> taken[i] == data[Slot(|data|, head, i)]
    ensures taken == RingBytes(data, head, tail)[..|taken|]
  {
  }

  /** Moving the head on drops the oldest bytes and nothing else. */
  lemma RingDrop(data: seq<byte>, head: nat, tail: nat, count: nat)
    requires head < |data| && tail < |data|
    requires count <= |RingBytes(data, head, tail)|
    ensures RingBytes(data, Slot(|data|, head, count), tail) == RingBytes(data, head, tail)[count..]
  {
    var next := Slot(|data|, head, count);
    forall i | 0 <= i < |data| - count
      ensures Slot(|data|, next, i) == Slot(|data|, head, count + i)
    {
    }
  }

  /** Both together. */
  lemma RingDequeue(data: seq<byte>, head: nat, tail: nat, taken: seq<byte>, limit: nat, capacity: nat)
    requires head < |data| && tail < |data| && head + |taken| < 2 * |data|
    requires |taken| == Min(limit, |RingBytes(data, head, tail)|)
    requires forall i :: 0 <= i < |taken| ==> taken[i] == data[Slot(|data|, head, i)]
    ensures var f, g := Fifo(RingBytes(data, head, tail), capacity),
                        Fifo(RingBytes(data, (head + |taken|) % |data|, tail), capacity);
      g == f.Next(Dequeue(limit)) && taken == f.Out(Dequeue(limit)) && f.bytes == taken + g.bytes
  {
    RingTake(data, head, tail, taken);
    RingDrop(data, head, tail, |taken|);
    ModOnce(head + |taken|, |data|);
  }

  class ByteQueue {
    var head: nat
    var tail: nat
    const size: nat
    const data: array<byte>

    /** One slot always stays free, so that head == tail means empty. Twice the size fits a
        32-bit word, so the position sums below never wrap. */
    ghost predicate Valid()
      reads this
    {
      && 0 < size <= 0x8000_0000
      && data.Length == size
      && head < size
      && tail < size
    }

    /** The FIFO this ring stands for. */
    ghost function View(): Fifo
      requires Valid()
      reads this, data
    {
      Fifo(RingBytes(data[..], head, tail), size - 1)
    }

    constructor (size: nat, data: array<byte>)
      requires 0 < size <= 0x8000_0000
      requires data.Length == size
      ensures Valid() && this.size == size && this.data == data
      ensures View() == Fifo([], size - 1)
    {
      head, tail := 0, 0;
      this.size, this.data := size, data;
    }

    function VacantCount(): (n: nat)
      requires Valid()
      reads this, data
      ensures n + |View().bytes| == View().capacity
    {
      if head <= tail then size - (tail - head) - 1 else head - tail - 1
    }

    function QueuedCount(): (n: nat)
      requires Valid()
      reads this, data
      ensures n == |View().bytes|
    {
      size - VacantCount() - 1
    }

    /** The writer's one or two memcpy calls. */
    method CopyIn(src: array<byte>, count: nat)
      requires Valid() && src != data && count <= src.Length && count <= VacantCount()
      modifies data
      ensures forall i :: 0 <= i < count ==> data[Slot(size, tail, i)] == src[i]
      ensures forall i :: 0 <= i < |old(View()).bytes| ==>
        data[Slot(size, head, i)] == old(data[Slot(size, head, i)])
    {
      if head <= tail {
        var room := size - tail;
        CopyBytes(data, tail, src, 0, Min(room, count));
        if room < count {
          CopyBytes(data, 0, src, room, count - room);
        }
      } else {
        CopyBytes(data, tail, src, 0, count);
      }
    }

    /** The reader's one or two memcpy calls. */
    method CopyOut(dst: array<byte>, count: nat)
      requires Valid() && dst != data && count <= dst.Length && count <= QueuedCount()
      modifies dst
      ensures forall i :: 0 <= i < count ==> dst[i] == data[Slot(size, head, i)]
      ensures forall i :: count <= i < dst.Length ==> dst[i] == old(dst[i])
    {
      if head < tail {
        CopyBytes(dst, 0, data, head, count);
      } else {
        var room := Min(count, size - head);
        CopyBytes(dst, 0, data, head, room);
        if count > room {
          CopyBytes(dst, room, data, 0, count - room);
        }
      }
    }

    /** All of the bytes, or none of them. */
    method QueueBytes(src: array<byte>, count: nat) returns (queued: bool)
      requires Valid() && src != data && count <= src.Length
      modifies this`tail, data
      ensures Valid()
      ensures View() == old(View()).Next(Enqueue(src[..count]))
      ensures queued == old(View()).Accepts(Enqueue(src[..count]))
      ensures queued <==> |old(View()).bytes| + count <= size - 1
      ensures View().bytes == if queued then old(View()).bytes + src[..count] else old(View()).bytes
      ensures !queued ==> tail == old(tail) && data[..] == old(data[..])
    {
      queued := false;
      if count <= VacantCount() {
        ghost var before := data[..];
        CopyIn(src, count);
        RingAppend(before, data[..], head, tail, src[..count]);
        queued := true;
        ModOnce(tail + count, size);
        tail := (tail + count) % size;
      }
    }

    /** The oldest bytes, at most as many as asked for. The rest of dst is untouched. */
    method DequeueBytes(dst: array<byte>, limit: nat) returns (count: nat)
      requires Valid() && dst != data
      requires Min(limit, |View().bytes|) <= dst.Length
      modifies this`head, dst
      ensures Valid() && count == Min(limit, |old(View()).bytes|)
      ensures View() == old(View()).Next(Dequeue(limit))
      ensures dst[..count] == old(View()).Out(Dequeue(limit))
      ensures old(View()).bytes == dst[..count] + View().bytes
      ensures dst[count..] == old(dst[count..])
    {
      count := Min(limit, QueuedCount());
      CopyOut(dst, count);
      RingDequeue(data[..], head, tail, dst[..count], limit, size - 1);
      head := (head + count) % size;
    }
  }
}
