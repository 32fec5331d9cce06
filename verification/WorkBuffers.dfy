/** The pool of transmit work buffers: two per IIC, SPI, UART and CAN, one for USB and ENET. */
module WorkBuffers {
  import opened Words

  const KINDS := 6
  const UART := 2
  const CAN := 3
  const USB := 4
  const SLOTS := 10

  /** The one slot whose release is lost: CAN's second. */
  const STUCK := 7

  /** An IO resource: a channel of one of the six buffered kinds, or anything else. */
  datatype Resource = Comms(kind: nat, channel: nat) | Other(pin: nat)

  function Count(kind: nat): nat {
    if kind < USB then 2 else 1
  }

  function Size(kind: nat): nat {
    if kind < UART then 16 else if kind == UART then 24 else if kind <= USB then 256 else 1024
  }

  /** The stride a release steps with: it is not set anew for CAN and USB. */
  function ReleaseStride(kind: nat): nat {
    if kind == CAN || kind == USB then Size(UART) else Size(kind)
  }

  /** A kind's first slot in the client array. */
  function First(kind: nat): nat {
    if kind <= USB then 2 * kind else 9
  }

  function KindOf(slot: nat): (kind: nat)
    ensures slot < SLOTS ==> kind < KINDS && First(kind) <= slot < First(kind) + Count(kind)
    ensures forall k :: 0 <= k < KINDS && First(k) <= slot < First(k) + Count(k) ==> kind == k
  {
    if slot < 8 then slot / 2 else if slot == 8 then USB else 5
  }

  /** Address of the n-th of a row of buffers. */
  function Place(base: nat, stride: nat, n: nat): nat {
    if n == 0 then base else Place(base, stride, n - 1) + stride
  }

  /** The six buffer arrays are distinct objects, and none is at the null address. */
  ghost predicate Layout(bases: seq<nat>) {
    && |bases| == KINDS
    && (forall k :: 0 <= k < KINDS ==> bases[k] > 0)
    && forall j, k :: 0 <= j < KINDS && 0 <= k < KINDS && j != k ==>
         Place(bases[j], Size(j), Count(j)) <= bases[k] || Place(bases[k], Size(k), Count(k)) <= bases[j]
  }

  function Address(bases: seq<nat>, slot: nat): nat
    requires |bases| == KINDS && slot < SLOTS
  {
    Place(bases[KindOf(slot)], Size(KindOf(slot)), slot - First(KindOf(slot)))
  }

  /** The address range that a release takes for a slot. */
  predicate Claims(bases: seq<nat>, slot: nat, p: nat)
    requires |bases| == KINDS && slot < SLOTS
  {
    var kind := KindOf(slot);
    var n, stride := slot - First(kind), ReleaseStride(kind);
    Place(bases[kind], stride, n) <= p < Place(bases[kind], stride, n + 1)
  }

  type Clients = seq<Option<Resource>>

  function FirstFree(clients: Clients, from: nat, end: nat): (i: nat)
    requires from <= end <= |clients|
    ensures from <= i <= end
    ensures i < end ==> clients[i] == None
    ensures forall j :: from <= j < i ==> clients[j] != None
    decreases end - from
  {
    if from == end || clients[from] == None then from else FirstFree(clients, from + 1, end)
  }

  /** What a request for a buffer takes: a slot, or nothing. */
  function Taken(clients: Clients, r: Resource): Option<nat>
    requires |clients| == SLOTS
  {
    if r.Other? || r.kind >= KINDS then None
    else
      var i := FirstFree(clients, First(r.kind), First(r.kind) + Count(r.kind));
      if i < First(r.kind) + Count(r.kind) then Some(i) else None
  }

  /** The slots of a kind that a release of p clears. */
  function Cleared(bases: seq<nat>, clients: Clients, p: nat, kind: nat): (after: Clients)
    requires |bases| == KINDS && |clients| == SLOTS && kind < KINDS
    ensures |after| == SLOTS
  {
    seq(SLOTS, i requires 0 <= i < SLOTS => if KindOf(i) == kind && Claims(bases, i, p) then None else clients[i])
  }

  predicate Hits(bases: seq<nat>, p: nat, kind: nat)
    requires |bases| == KINDS && kind < KINDS
  {
    exists i :: 0 <= i < SLOTS && KindOf(i) == kind && Claims(bases, i, p)
  }

  /** A release tries the kinds in order and stops behind the first that it hits. */
  function Released(bases: seq<nat>, clients: Clients, p: nat, kind: nat): (after: Clients)
    requires |bases| == KINDS && |clients| == SLOTS && kind <= KINDS
    ensures |after| == SLOTS
    decreases KINDS - kind
  {
    if kind == KINDS then clients
    else if Hits(bases, p, kind) then Cleared(bases, clients, p, kind)
    else Released(bases, clients, p, kind + 1)
  }

  /** Slots 0 to 3 are the pairs of IIC and SPI buffers of 16 bytes, 4 and 5 those of UART of 24, 6 and
      7 those of CAN of 256; slot 8 is USB's of 256 bytes and slot 9 ENET's of 1024. */
  lemma BuffersInPlain(bases: seq<nat>)
    requires |bases| == 6
    ensures Address(bases, 0) == bases[0] && Address(bases, 1) == bases[0] + 16
    ensures Address(bases, 2) == bases[1] && Address(bases, 3) == bases[1] + 16
    ensures Address(bases, 4) == bases[2] && Address(bases, 5) == bases[2] + 24
    ensures Address(bases, 6) == bases[3] && Address(bases, 7) == bases[3] + 256
    ensures Address(bases, 8) == bases[4] && Address(bases, 9) == bases[5]
    ensures Size(0) == Size(1) == 16 && Size(2) == 24 && Size(3) == Size(4) == 256 && Size(5) == 1024
  {
    Neighbours(bases[0], 16);
    Neighbours(bases[1], 16);
    Neighbours(bases[2], 24);
    Neighbours(bases[3], 256);
    Neighbours(bases[4], 256);
    Neighbours(bases[5], 1024);
  }

  lemma Neighbours(base: nat, stride: nat)
    ensures Place(base, stride, 0) == base
    ensures Place(base, stride, 1) == base + stride
    ensures Place(base, stride, 2) == base + 2 * stride
  {
    assert Place(base, stride, 1) == Place(base, stride, 0) + stride;
  }

  /** A release takes 16 bytes for a slot of IIC and SPI, 24 for one of UART, but as many for one of CAN
      and USB as well, and 1024 for ENET's. */
  lemma ClaimsInPlain(bases: seq<nat>, p: nat)
    requires |bases| == 6
    ensures Claims(bases, 0, p) <==> bases[0] <= p < bases[0] + 16
    ensures Claims(bases, 1, p) <==> bases[0] + 16 <= p < bases[0] + 32
    ensures Claims(bases, 2, p) <==> bases[1] <= p < bases[1] + 16
    ensures Claims(bases, 3, p) <==> bases[1] + 16 <= p < bases[1] + 32
    ensures Claims(bases, 4, p) <==> bases[2] <= p < bases[2] + 24
    ensures Claims(bases, 5, p) <==> bases[2] + 24 <= p < bases[2] + 48
    ensures Claims(bases, 6, p) <==> bases[3] <= p < bases[3] + 24
    ensures Claims(bases, 7, p) <==> bases[3] + 24 <= p < bases[3] + 48
    ensures Claims(bases, 8, p) <==> bases[4] <= p < bases[4] + 24
    ensures Claims(bases, 9, p) <==> bases[5] <= p < bases[5] + 1024
  {
    Neighbours(bases[0], 16);
    Neighbours(bases[1], 16);
    Neighbours(bases[2], 24);
    Neighbours(bases[3], 24);
    Neighbours(bases[4], 24);
    Neighbours(bases[5], 1024);
  }

  /** The first of its kind's slots that is free. */
  lemma TakenInPlain(clients: Clients, r: Resource)
    requires |clients| == 10
    ensures r.Comms? && r.kind < 4 ==>
      Taken(clients, r) == if clients[2 * r.kind] == None then Some(2 * r.kind)
                           else if clients[2 * r.kind + 1] == None then Some(2 * r.kind + 1) else None
    ensures r.Comms? && r.kind == 4 ==> Taken(clients, r) == if clients[8] == None then Some(8) else None
    ensures r.Comms? && r.kind == 5 ==> Taken(clients, r) == if clients[9] == None then Some(9) else None
    ensures r.Other? || r.kind > 5 ==> Taken(clients, r) == None
  {
    if r.Comms? && r.kind < 6 {
      var i, end := First(r.kind), First(r.kind) + Count(r.kind);
      assert FirstFree(clients, i, end) == if clients[i] == None then i else FirstFree(clients, i + 1, end);
    }
  }

  // ---------- What a release does ----------

  predicate Apart(bases: seq<nat>, i: nat, j: nat)
    requires |bases| == KINDS && i < SLOTS && j < SLOTS
  {
    || Address(bases, i) + Size(KindOf(i)) <= Address(bases, j)
    || Address(bases, j) + Size(KindOf(j)) <= Address(bases, i)
  }

  /** Work buffers lie inside their kind's array and are pairwise disjoint. */
  lemma BuffersAreDisjoint(bases: seq<nat>, i: nat, j: nat)
    requires Layout(bases) && i < SLOTS && j < SLOTS && i != j
    ensures Apart(bases, i, j)
    ensures bases[KindOf(i)] <= Address(bases, i)
    ensures Address(bases, i) + Size(KindOf(i)) <= Place(bases[KindOf(i)], Size(KindOf(i)), Count(KindOf(i)))
  {
    InsideItsArray(bases, i);
    InsideItsArray(bases, j);
  }

  lemma InsideItsArray(bases: seq<nat>, i: nat)
    requires Layout(bases) && i < SLOTS
    ensures 0 < bases[KindOf(i)] <= Address(bases, i)
    ensures Address(bases, i) + Size(KindOf(i)) <= Place(bases[KindOf(i)], Size(KindOf(i)), Count(KindOf(i)))
    ensures KindOf(i) < USB && i != First(KindOf(i)) ==> Address(bases, i) == bases[KindOf(i)] + Size(KindOf(i))
    ensures i == First(KindOf(i)) ==> Address(bases, i) == bases[KindOf(i)]
  {
    var k := KindOf(i);
    var b, s := bases[k], Size(k);
    assert Place(b, s, 0) == b && Place(b, s, 1) == b + s && Place(b, s, 2) == b + s + s;
  }

  /** No release address is claimed by two slots, and a buffer's own address by its slot alone -
      or by none, for CAN's second. */
  lemma ClaimsOf(bases: seq<nat>, i: nat, j: nat)
    requires Layout(bases) && i < SLOTS && j < SLOTS
    ensures Claims(bases, i, Address(bases, j)) <==> i == j && j != STUCK
    ensures i != j ==> forall p: nat :: !(Claims(bases, i, p) && Claims(bases, j, p))
  {
    InsideItsArray(bases, i);
    InsideItsArray(bases, j);
    ClaimedRange(bases, i);
    ClaimedRange(bases, j);
  }

  lemma ClaimedRange(bases: seq<nat>, i: nat)
    requires Layout(bases) && i < SLOTS
    ensures forall p: nat :: Claims(bases, i, p) <==>
      (if i == STUCK then bases[CAN] + 24 <= p < bases[CAN] + 48
       else Address(bases, i) <= p < Address(bases, i) + ReleaseStride(KindOf(i)))
  {
    var k := KindOf(i);
    var b, s := bases[k], ReleaseStride(k);
    assert Place(b, s, 0) == b && Place(b, s, 1) == b + s && Place(b, s, 2) == b + s + s;
  }

  /** A release clears exactly the slots that claim its address. */
  lemma {:induction false} ReleaseClears(bases: seq<nat>, clients: Clients, p: nat, kind: nat)
    requires Layout(bases) && |clients| == SLOTS && kind <= KINDS
    ensures forall i :: 0 <= i < SLOTS ==>
      Released(bases, clients, p, kind)[i] == if kind <= KindOf(i) && Claims(bases, i, p) then None else clients[i]
    decreases KINDS - kind
  {
    if kind < KINDS {
      ReleaseClears(bases, clients, p, kind + 1);
      if Hits(bases, p, kind) {
        var h :| 0 <= h < SLOTS && KindOf(h) == kind && Claims(bases, h, p);
        forall i | 0 <= i < SLOTS && Claims(bases, i, p)
          ensures i == h
        {
          ClaimsOf(bases, i, h);
        }
      }
    }
  }

  /** So releasing a buffer frees exactly its own slot, except CAN's second, which stays taken. */
  lemma ReleaseFreesItsSlot(bases: seq<nat>, clients: Clients, j: nat)
    requires Layout(bases) && |clients| == SLOTS && j < SLOTS
    ensures Released(bases, clients, Address(bases, j), 0) == if j == STUCK then clients else clients[j := None]
  {
    ReleaseClears(bases, clients, Address(bases, j), 0);
    forall i | 0 <= i < SLOTS
      ensures Claims(bases, i, Address(bases, j)) <==> i == j && j != STUCK
    {
      ClaimsOf(bases, i, j);
    }
  }

  // ---------- Runs ----------

  /** A client asks for a buffer, or the holder of a slot's buffer gives it back. */
  datatype Event = Ask(r: Resource) | GiveBack(slot: nat)

  /** The client array, the slots whose buffers are held, and whether CAN's second was ever
      handed out. */
  datatype State = State(clients: Clients, held: set<nat>, spent: bool)

  const INITIAL := State(seq(SLOTS, i => None), {}, false)

  function Next(bases: seq<nat>, s: State, e: Event): (t: State)
    requires |bases| == KINDS && |s.clients| == SLOTS && forall i <- s.held :: i < SLOTS
    ensures |t.clients| == SLOTS && forall i <- t.held :: i < SLOTS
  {
    match e
    case Ask(r) => (
      match Taken(s.clients, r)
      case None => s
      case Some(i) => State(s.clients[i := Some(r)], s.held + {i}, s.spent || i == STUCK))
    case GiveBack(i) =>
      if i !in s.held then s
      else State(Released(bases, s.clients, Address(bases, i), 0), s.held - {i}, s.spent)
  }

  function Run(bases: seq<nat>, s: State, events: seq<Event>): (t: State)
    requires |bases| == KINDS && |s.clients| == SLOTS && forall i <- s.held :: i < SLOTS
    ensures |t.clients| == SLOTS && forall i <- t.held :: i < SLOTS
    decreases |events|
  {
    if events == [] then s else Run(bases, Next(bases, s, events[0]), events[1..])
  }

  /** The slot cannot be handed out. */
  predicate Busy(s: State, i: nat) {
    i in s.held || (i == STUCK && s.spent)
  }

  /** The client array tells exactly which slots are busy. */
  ghost predicate Exact(s: State) {
    && |s.clients| == SLOTS && (forall i <- s.held :: i < SLOTS)
    && (forall i :: 0 <= i < SLOTS ==> (s.clients[i] != None <==> Busy(s, i)))
    && (STUCK in s.held ==> s.spent)
  }

  lemma AskKeepsExact(bases: seq<nat>, s: State, r: Resource)
    requires |bases| == KINDS && Exact(s)
    ensures Exact(Next(bases, s, Ask(r)))
  {
  }

  lemma GiveBackKeepsExact(bases: seq<nat>, s: State, i: nat)
    requires Layout(bases) && Exact(s)
    ensures Exact(Next(bases, s, GiveBack(i)))
  {
    if i in s.held {
      ReleaseFreesItsSlot(bases, s.clients, i);
    }
  }

  lemma {:induction false} RunKeepsExact(bases: seq<nat>, s: State, events: seq<Event>)
    requires Layout(bases) && Exact(s)
    ensures Exact(Run(bases, s, events))
    decreases |events|
  {
    if events != [] {
      match events[0] {
        case Ask(r) => AskKeepsExact(bases, s, r);
        case GiveBack(i) => GiveBackKeepsExact(bases, s, i);
      }
      RunKeepsExact(bases, Next(bases, s, events[0]), events[1..]);
    }
  }

  /** Refused exactly when all slots of the kind are held - for CAN, when the first is held and
      the second was ever handed out. */
  ghost predicate RefusedRightly(s: State, r: Resource)
    requires |s.clients| == SLOTS && r.Comms? && r.kind < KINDS
  {
    Taken(s.clients, r) == None <==>
      if r.kind == CAN then First(CAN) in s.held && s.spent
      else forall i :: First(r.kind) <= i < First(r.kind) + Count(r.kind) ==> i in s.held
  }

  /** A granted buffer is of the kind asked for and overlaps none that is held. */
  ghost predicate GrantedApart(bases: seq<nat>, s: State, r: Resource)
    requires |bases| == KINDS && |s.clients| == SLOTS && r.Comms? && r.kind < KINDS && forall i <- s.held :: i < SLOTS
  {
    match Taken(s.clients, r)
    case None => true
    case Some(i) =>
      && i < SLOTS && KindOf(i) == r.kind && i !in s.held
      && forall j <- s.held :: Apart(bases, i, j)
  }

  lemma Answer(bases: seq<nat>, s: State, r: Resource)
    requires Layout(bases) && Exact(s) && r.Comms? && r.kind < KINDS
    ensures RefusedRightly(s, r) && GrantedApart(bases, s, r)
  {
    Refusal(s, r);
    if Taken(s.clients, r).Some? {
      var i := Taken(s.clients, r).value;
      assert !Busy(s, i);
      forall j | j in s.held
        ensures Apart(bases, i, j)
      {
        BuffersAreDisjoint(bases, i, j);
      }
    }
  }

  lemma Refusal(s: State, r: Resource)
    requires Exact(s) && r.Comms? && r.kind < KINDS
    ensures RefusedRightly(s, r)
  {
    TakenInPlain(s.clients, r);
  }

  /** Over every run of requests and releases. */
  lemma RequestsAreAnswered(bases: seq<nat>, events: seq<Event>, r: Resource)
    requires Layout(bases) && r.Comms? && r.kind < KINDS
    ensures RefusedRightly(Run(bases, INITIAL, events), r) && GrantedApart(bases, Run(bases, INITIAL, events), r)
  {
    RunKeepsExact(bases, INITIAL, events);
    Answer(bases, Run(bases, INITIAL, events), r);
  }

  /** Once CAN's second buffer was handed out, CAN has a single buffer for good: a request is
      granted exactly while the first is not held, whoever gave back what. */
  lemma CanLosesABuffer(bases: seq<nat>, before: seq<Event>, events: seq<Event>, r: Resource)
    requires Layout(bases) && r.Comms? && r.kind == CAN
    requires STUCK in Run(bases, INITIAL, before).held
    ensures var s := Run(bases, Run(bases, INITIAL, before), events);
      Taken(s.clients, r) == None <==> First(CAN) in s.held
  {
    RunKeepsExact(bases, INITIAL, before);
    var s := Run(bases, INITIAL, before);
    RunKeepsExact(bases, s, events);
    StaysSpent(bases, s, events);
    Answer(bases, Run(bases, s, events), r);
  }

  lemma {:induction false} StaysSpent(bases: seq<nat>, s: State, events: seq<Event>)
    requires |bases| == KINDS && |s.clients| == SLOTS && (forall i <- s.held :: i < SLOTS) && s.spent
    ensures Run(bases, s, events).spent
    decreases |events|
  {
    if events != [] {
      StaysSpent(bases, Next(bases, s, events[0]), events[1..]);
    }
  }

  /** Two clients at once are enough for that. */
  lemma TwoClientsAreEnough(bases: seq<nat>, r: Resource, t: Resource)
    requires |bases| == KINDS && r.Comms? && t.Comms? && r.kind == t.kind == CAN
    ensures STUCK in Run(bases, INITIAL, [Ask(r), Ask(t)]).held
  {
    var s := Next(bases, INITIAL, Ask(r));
    assert FirstFree(INITIAL.clients, 6, 8) == 6 && FirstFree(s.clients, 6, 8) == 7;
    assert [Ask(r), Ask(t)][1..] == [Ask(t)];
    assert Run(bases, s, [Ask(t)]) == Next(bases, s, Ask(t));
  }

  /** For every slot, whether it is of this kind and claims the address. */
  function Window(bases: seq<nat>, p: nat, kind: nat): (hits: seq<bool>)
    requires |bases| == KINDS && kind < KINDS
    ensures |hits| == SLOTS && forall j :: 0 <= j < SLOTS && hits[j] ==> KindOf(j) == kind
  {
    seq(SLOTS, j requires 0 <= j < SLOTS => KindOf(j) == kind && Claims(bases, j, p))
  }

  lemma WindowAt(bases: seq<nat>, p: nat, kind: nat, i: nat)
    requires |bases| == KINDS && kind < KINDS && First(kind) <= i < First(kind) + Count(kind)
    ensures var at := Place(bases[kind], ReleaseStride(kind), i - First(kind));
      && (Window(bases, p, kind)[i] <==> at <= p < at + ReleaseStride(kind))
      && Place(bases[kind], ReleaseStride(kind), i + 1 - First(kind)) == at + ReleaseStride(kind)
  {
    assert KindOf(i) == kind;
  }

  lemma WindowCleared(bases: seq<nat>, clients: Clients, p: nat, kind: nat, after: Clients)
    requires |bases| == KINDS && |clients| == |after| == SLOTS && kind < KINDS
    requires forall j :: 0 <= j < SLOTS ==>
      after[j] == if First(kind) <= j < First(kind) + Count(kind) && Window(bases, p, kind)[j] then None else clients[j]
    ensures after == Cleared(bases, clients, p, kind)
    ensures Hits(bases, p, kind) <==>
      exists j :: First(kind) <= j < First(kind) + Count(kind) && Window(bases, p, kind)[j]
  {
    var hits := Window(bases, p, kind);
    assert forall j :: 0 <= j < SLOTS && hits[j] ==> First(kind) <= j < First(kind) + Count(kind);
    assert forall j :: 0 <= j < SLOTS ==> (hits[j] <==> KindOf(j) == kind && Claims(bases, j, p));
  }

  class WorkBufferPool {
    const bases: seq<nat>
    const clients: array<Option<Resource>>

    ghost predicate Valid()
      reads this
    {
      Layout(bases) && clients.Length == SLOTS
    }

    constructor (bases: seq<nat>)
      requires Layout(bases)
      ensures Valid() && this.bases == bases && fresh(clients) && clients[..] == INITIAL.clients
    {
      this.bases := bases;
      clients := new Option<Resource>[SLOTS](i => None);
    }

    /** DLL_pu8GetTXClientBuffer: the first free buffer of the kind, and the kind's buffer size. */
    method Get(r: Resource) returns (buffer: Option<nat>, capacity: nat)
      requires Valid()
      modifies clients
      ensures Taken(old(clients[..]), r) == None ==> buffer == None && clients[..] == old(clients[..])
      ensures forall i :: Taken(old(clients[..]), r) == Some(i) ==>
        i < SLOTS && buffer == Some(Address(bases, i)) && clients[..] == old(clients[..])[i := Some(r)]
      ensures capacity == if r.Other? || r.kind > 5 then 0
                          else if r.kind < 2 then 16
                          else if r.kind == 2 then 24
                          else if r.kind < 5 then 256 else 1024
    {
      buffer, capacity := None, 0;
      if r.Comms? && r.kind < KINDS {
        capacity := Size(r.kind);
        buffer := Search(r, bases[r.kind], capacity, First(r.kind), First(r.kind) + Count(r.kind));
      }
    }

    /** One of its six loops, over a row of buffers. */
    method Search(r: Resource, base: nat, stride: nat, first: nat, end: nat) returns (buffer: Option<nat>)
      requires first <= end <= clients.Length
      modifies clients
      ensures var i := FirstFree(old(clients[..]), first, end);
        if i == end then buffer == None && clients[..] == old(clients[..])
        else buffer == Some(Place(base, stride, i - first)) && clients[..] == old(clients[..])[i := Some(r)]
    {
      var i, p := first, base;
      while i < end
        invariant first <= i <= end && p == Place(base, stride, i - first)
        invariant FirstFree(clients[..], i, end) == FirstFree(clients[..], first, end)
      {
        if clients[i] == None {
          clients[i] := Some(r);
          return Some(p);
        }
        i, p := i + 1, p + stride;
      }
      buffer := None;
    }

    /** One of the six loops of a release. */
    method ReleaseKind(buffer: nat, kind: nat) returns (released: bool)
      requires Valid() && kind < KINDS
      modifies clients
      ensures released == Hits(bases, buffer, kind)
      ensures clients[..] == Cleared(bases, old(clients[..]), buffer, kind)
    {
      ghost var before, hits := clients[..], Window(bases, buffer, kind);
      forall i | First(kind) <= i < First(kind) + Count(kind)
        ensures var at := Place(bases[kind], ReleaseStride(kind), i - First(kind));
          hits[i] <==> at <= buffer < at + ReleaseStride(kind)
      {
        WindowAt(bases, buffer, kind, i);
      }
      released := ClearRow(buffer, bases[kind], ReleaseStride(kind), First(kind), First(kind) + Count(kind), hits);
      WindowCleared(bases, before, buffer, kind, clients[..]);
    }

    /** A row of buffers: `hits` tells which of the slots claim the address. */
    method ClearRow(buffer: nat, base: nat, stride: nat, first: nat, end: nat, ghost hits: seq<bool>)
      returns (released: bool)
      requires clients.Length == |hits| && first <= end <= |hits|
      requires forall i :: first <= i < end ==>
        (hits[i] <==> Place(base, stride, i - first) <= buffer < Place(base, stride, i - first) + stride)
      modifies clients
      ensures released <==> exists j :: first <= j < end && hits[j]
      ensures forall j :: 0 <= j < |hits| ==>
        clients[j] == if first <= j < end && hits[j] then None else old(clients[j])
    {
      released := false;
      var p := base;
      for i := first to end
        invariant p == Place(base, stride, i - first)
        invariant released <==> exists j :: first <= j < i && hits[j]
        invariant forall j :: 0 <= j < |hits| ==>
          clients[j] == if first <= j < i && hits[j] then None else old(clients[j])
      {
        assert hits[i] <==> p <= buffer < p + stride;
        if p <= buffer < p + stride {
          clients[i] := None;
          released := true;
        }
        p := p + stride;
      }
    }

    /** DLL_vReleaseTXClientBuffer. */
    method Release(buffer: nat)
      requires Valid()
      modifies clients
      ensures clients[..] == Released(bases, old(clients[..]), buffer, 0)
    {
      ghost var before := clients[..];
      for kind := 0 to KINDS
        invariant clients[..] == before
        invariant Released(bases, before, buffer, kind) == Released(bases, before, buffer, 0)
      {
        var released := ReleaseKind(buffer, kind);
        if released {
          return;
        }
        assert clients[..] == before;
      }
    }
  }
}
