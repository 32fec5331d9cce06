/** The kernel's linked lists: start-up, the drain loop, the tick scheduler and the dispatcher take
    the steps of the kernel as a value. */
module KernelLists {
  import opened Words
  import opened TaskQueues
  import opened Kernel

  // ---------- The kernel's lists ----------

  /** The tasks queued on each list, head nodes left out. */
  ghost function Queued(chains: seq<seq<Node>>): (qs: seq<seq<Task>>)
    ensures |qs| == |chains|
  {
    seq(|chains|, q requires 0 <= q < |chains| => if chains[q] == [] then [] else Tasks(chains[q][1..]))
  }

  /** `home` tells for every node on a list the one list it is on. */
  ghost predicate Mapped(heads: seq<Node>, chains: seq<seq<Node>>, home: map<Node, nat>) {
    && |heads| == QUEUE_COUNT && |chains| == QUEUE_COUNT
    && (forall q :: 0 <= q < QUEUE_COUNT ==> chains[q] != [] && chains[q][0] == heads[q])
    && (forall q, n :: 0 <= q < QUEUE_COUNT && n in chains[q] ==> n in home && home[n] == q)
    && (forall h <- heads :: h in home)
    && (forall n {:trigger OnItsList(n, chains, home)} :: n in home ==> OnItsList(n, chains, home))
  }

  ghost predicate OnItsList(n: Node, chains: seq<seq<Node>>, home: map<Node, nat>) {
    n in home && home[n] < |chains| && n in chains[home[n]]
  }

  lemma PushKeepsMapped(heads: seq<Node>, chains: seq<seq<Node>>, home: map<Node, nat>, q: nat, node: Node)
    requires Mapped(heads, chains, home) && q < QUEUE_COUNT && node !in home
    ensures Mapped(heads, chains[q := [heads[q], node] + chains[q][1..]], home[node := q])
  {
    var c, d := chains[q], [heads[q], node] + chains[q][1..];
    assert c == [heads[q]] + c[1..];
    assert forall n :: n in d <==> n in c || n == node;
    var longer, after := chains[q := d], home[node := q];
    forall n | n in after
      ensures OnItsList(n, longer, after)
    {
      assert n != node ==> OnItsList(n, chains, home);
    }
  }

  /** The map without the nodes of c that are not among `kept`. */
  ghost function Unqueued(home: map<Node, nat>, c: seq<Node>, kept: seq<Node>): map<Node, nat> {
    map n | n in home && (n in c ==> n in kept) :: home[n]
  }

  /** Cutting list q back to its head and its last nodes frees what lay between. */
  lemma CutKeepsMapped(heads: seq<Node>, chains: seq<seq<Node>>, home: map<Node, nat>, q: nat, kept: seq<Node>)
    requires Mapped(heads, chains, home) && q < QUEUE_COUNT
    requires kept != [] && kept[0] == heads[q] && forall n :: n in kept ==> n in chains[q]
    ensures Mapped(heads, chains[q := kept], Unqueued(home, chains[q], kept))
  {
    var after, shorter := Unqueued(home, chains[q], kept), chains[q := kept];
    forall r, n | 0 <= r < QUEUE_COUNT && n in shorter[r]
      ensures n in after && after[n] == r
    {
      assert n in chains[r];
      assert n in chains[q] ==> home[n] == q;
    }
    forall n | n in after
      ensures OnItsList(n, shorter, after)
    {
      assert OnItsList(n, chains, home);
    }
    forall h | h in heads
      ensures h in after
    {
      var r :| 0 <= r < QUEUE_COUNT && heads[r] == h;
      assert chains[r][0] in chains[r];
    }
  }

  lemma QueuedUpdate(chains: seq<seq<Node>>, q: nat, c: seq<Node>)
    requires q < |chains| && c != []
    ensures Queued(chains[q := c]) == Queued(chains)[q := Tasks(c[1..])]
  {
  }

  ghost predicate Linked(heads: seq<Node>, chains: seq<seq<Node>>, home: map<Node, nat>)
    requires Mapped(heads, chains, home)
    reads home.Keys
  {
    forall q :: 0 <= q < QUEUE_COUNT ==> Chain(chains[q])
  }

  /** Nodes that ran and are on no list. */
  ghost predicate Unlinked(idle: set<Node>, home: map<Node, nat>)
    reads idle
  {
    idle !! home.Keys && forall n <- idle :: n.next == null
  }

  ghost predicate HomeGrown(before: map<Node, nat>, after: map<Node, nat>) {
    forall n {:trigger after[n]} {:trigger n in after} :: n in before ==> n in after && after[n] == before[n]
  }

  /** The first k nodes behind the head have run. */
  ghost predicate RanTo(idle: set<Node>, c: seq<Node>, k: int) {
    k < |c| && forall i :: 1 <= i <= k ==> c[i] in idle
  }

  lemma RanOneMore(idle: set<Node>, c: seq<Node>, k: nat)
    requires RanTo(idle, c, k) && k + 1 < |c|
    ensures RanTo(idle + {c[k + 1]}, c, k + 1)
  {
  }

  /** s ends with t. */
  ghost predicate EndsWith(s: seq<Node>, t: seq<Node>) {
    |t| <= |s| && s[|s| - |t|..] == t
  }

  /** Pushes leave what was queued at the end of each list. */
  ghost predicate Longer(before: seq<seq<Node>>, after: seq<seq<Node>>) {
    && |before| == |after|
    && forall q :: 0 <= q < |before| ==>
         before[q] != [] && |before[q]| <= |after[q]| && EndsWith(after[q], before[q][1..])
  }

  lemma LongerThanItself(chains: seq<seq<Node>>)
    requires forall r :: 0 <= r < |chains| ==> chains[r] != []
    ensures Longer(chains, chains)
  {
  }

  lemma PushIsLonger(chains: seq<seq<Node>>, q: nat, head: Node, node: Node)
    requires q < |chains| && forall r :: 0 <= r < |chains| ==> chains[r] != []
    ensures Longer(chains, chains[q := [head, node] + chains[q][1..]])
  {
    var c := chains[q];
    assert ([head, node] + c[1..])[2..] == c[1..];
  }

  lemma LongerStill(a: seq<seq<Node>>, b: seq<seq<Node>>, c: seq<seq<Node>>)
    requires Longer(a, b) && Longer(b, c)
    ensures Longer(a, c)
  {
    forall q | 0 <= q < |a|
      ensures EndsWith(c[q], a[q][1..])
    {
      var x, y, z := a[q][1..], b[q][1..], c[q];
      assert y[|y| - |x|..] == b[q][|b[q]| - |x|..] == x;
      assert z[|z| - |x|..] == z[|z| - |y|..][|y| - |x|..];
    }
  }

  /** Slot i of the client pool holds the task of the i-th request. */
  ghost predicate PoolFits(clients: seq<Node>, requests: seq<Request>) {
    |clients| == |requests| && forall i :: 0 <= i < |clients| ==> clients[i].task == requests[i].task
  }

  method NewHeads() returns (heads: seq<Node>, ghost home: map<Node, nat>)
    ensures |heads| == QUEUE_COUNT && fresh(home.Keys)
    ensures forall h <- heads :: h in home && h.next == null
    ensures forall n <- home :: home[n] < QUEUE_COUNT && heads[home[n]] == n
    ensures forall q :: 0 <= q < QUEUE_COUNT ==> home[heads[q]] == q
  {
    heads, home := [], map[];
    for i := 0 to QUEUE_COUNT
      invariant |heads| == i && fresh(home.Keys)
      invariant forall h <- heads :: h in home && h.next == null
      invariant forall n <- home :: home[n] < i && heads[home[n]] == n
      invariant forall q :: 0 <= q < i ==> home[heads[q]] == q
    {
      var node := new Node(Task(0, 0, 0));
      heads, home := heads + [node], home[node := i];
    }
  }

  lemma NoneDue(before: seq<seq<Task>>, q: nat, ts: seq<Task>, tick: nat)
    requires q < |before| && Rated(ts)
    ensures before == before[q := Reverse(Due(ts[..0], tick)) + before[q]]
  {
    assert ts[..0] == [] && [] + before[q] == before[q];
  }

  lemma WholeOf<T>(s: seq<T>)
    ensures s[..|s|] == s
  {
  }

  lemma DueQueues(before: seq<seq<Task>>, q: nat, ts: seq<Task>, i: nat, tick: nat, now: seq<seq<Task>>)
    requires q < |before| && i < |ts| && Rated(ts)
    requires now == before[q := Reverse(Due(ts[..i], tick)) + before[q]]
    ensures (if tick % ts[i].rate == 0 then now[q := [ts[i]] + now[q]] else now)
         == before[q := Reverse(Due(ts[..i + 1], tick)) + before[q]]
  {
    var x, y := Reverse(Due(ts[..i], tick)) + before[q], Reverse(Due(ts[..i + 1], tick)) + before[q];
    DueStep(ts, i, tick, before[q]);
    assert now[q] == x && now[q := y] == before[q := y];
    assert [] + x == x;
  }

  ghost predicate AllOn(ns: set<Node>, home: map<Node, nat>, q: nat) {
    forall n <- ns :: n in home && home[n] == q
  }

  /** The nodes `pushed` went onto list q; nothing else changed. */
  ghost predicate Moved(free: set<Node>, start: map<Node, nat>, idle: set<Node>, home: map<Node, nat>,
                        pushed: set<Node>, q: nat) {
    && idle == free - pushed
    && home.Keys == start.Keys + pushed && HomeGrown(start, home) && AllOn(pushed, home, q)
  }

  lemma AllOnStep(ns: set<Node>, home: map<Node, nat>, n: Node, q: nat)
    requires AllOn(ns, home, q)
    ensures AllOn(ns + {n}, home[n := q], q)
  {
  }

  lemma Grouped(a: set<Node>, b: set<Node>, p: set<Node>, n: Node)
    ensures a - p - {n} == a - (p + {n}) && b + p + {n} == b + (p + {n})
  {
  }

  /** A node is on no two lists. */
  lemma Elsewhere(heads: seq<Node>, chains: seq<seq<Node>>, home: map<Node, nat>, q: nat, r: nat)
    requires Mapped(heads, chains, home) && q < QUEUE_COUNT && r < QUEUE_COUNT && q != r
    ensures forall n <- chains[r] :: n in home && n !in chains[q]
  {
    forall n | n in chains[r]
      ensures n in home && n !in chains[q]
    {
      assert home[n] == r;
    }
  }

  lemma TasksAppend(s: seq<Node>, n: Node)
    ensures Tasks(s + [n]) == Tasks(s) + [n.task]
  {
  }

  /** Nothing but the head is mapped to a list without tasks. */
  lemma OffEmpty(heads: seq<Node>, chains: seq<seq<Node>>, home: map<Node, nat>, q: nat)
    requires Mapped(heads, chains, home) && q < QUEUE_COUNT && Queued(chains)[q] == []
    ensures forall n :: n in home && n !in heads ==> home[n] != q
  {
    forall n | n in home && n !in heads
      ensures home[n] != q
    {
      assert OnItsList(n, chains, home);
      assert |Queued(chains)[q]| == |chains[q]| - 1;
    }
  }

  lemma {:induction false} DueAppend(ts: seq<Task>, t: Task, tick: nat)
    requires Rated(ts) && t.rate > 0
    ensures Due(ts + [t], tick) == Due(ts, tick) + if tick % t.rate == 0 then [t] else []
  {
    if ts == [] {
      assert ts + [t] == [t] && Due([], tick) == [];
    } else {
      assert (ts + [t])[0] == ts[0] && (ts + [t])[1..] == ts[1..] + [t];
      DueAppend(ts[1..], t, tick);
      Assoc(if tick % ts[0].rate == 0 then [ts[0]] else [], Due(ts[1..], tick), if tick % t.rate == 0 then [t] else []);
    }
  }

  /** What the queue shows after slot i has been looked at. */
  lemma DueStep(ts: seq<Task>, i: nat, tick: nat, queued: seq<Task>)
    requires i < |ts| && Rated(ts)
    ensures Reverse(Due(ts[..i + 1], tick)) + queued
         == (if tick % ts[i].rate == 0 then [ts[i]] else []) + (Reverse(Due(ts[..i], tick)) + queued)
  {
    assert ts[..i + 1] == ts[..i] + [ts[i]];
    DueAppend(ts[..i], ts[i], tick);
    if tick % ts[i].rate == 0 {
      ReverseAppend(Due(ts[..i], tick), ts[i]);
    } else {
      assert Due(ts[..i + 1], tick) == Due(ts[..i], tick);
    }
  }

  lemma {:induction false} ReverseTasks(s: seq<Node>)
    ensures Tasks(Reverse(s)) == Reverse(Tasks(s))
    ensures forall n :: n in s <==> n in Reverse(s)
  {
    if s != [] {
      ReverseTasks(s[1..]);
      assert Tasks(s)[1..] == Tasks(s[1..]);
      assert s == [s[0]] + s[1..];
    }
  }

  lemma StartChain(head: Node, s: seq<Node>)
    ensures var c := [head] + Reverse(s);
      && Tasks(c[1..]) == Reverse(Tasks(s))
      && forall n <- s :: n in c[1..]
  {
    ReverseTasks(s);
    TailOf(head, Reverse(s));
  }

  lemma PushedInFront(head: Node, node: Node, s: seq<Node>)
    ensures [head, node] + ([head] + Reverse(s))[1..] == [head] + Reverse(s + [node])
  {
    ReverseAppend(s, node);
    TailOf(head, Reverse(s));
  }

  lemma SameMembers(c: seq<Node>, d: seq<Node>)
    requires c != [] && d != [] && c[0] == d[0] && multiset(c[1..]) == multiset(d[1..])
    ensures forall n :: n in c <==> n in d
  {
    assert c == [c[0]] + c[1..] && d == [d[0]] + d[1..];
    assert forall n :: n in c[1..] <==> n in multiset(c[1..]);
    assert forall n :: n in d[1..] <==> n in multiset(d[1..]);
  }

  lemma ReorderKeepsMapped(heads: seq<Node>, chains: seq<seq<Node>>, home: map<Node, nat>, q: nat, d: seq<Node>)
    requires Mapped(heads, chains, home) && q < QUEUE_COUNT
    requires d != [] && d[0] == heads[q] && forall n :: n in d <==> n in chains[q]
    ensures Mapped(heads, chains[q := d], home)
  {
    var reordered := chains[q := d];
    forall n | n in home
      ensures OnItsList(n, reordered, home)
    {
      assert OnItsList(n, chains, home);
    }
  }

  lemma NextOnList(c: seq<Node>, n: Node, rest: seq<Node>)
    requires Chain(c) && |c| > 1 && c[1..] == [n] + rest
    ensures n.next == if rest == [] then null else rest[0]
  {
    assert c[1] == n;
  }

  lemma TasksFrom(c: seq<Node>, k: nat)
    requires k < |c|
    ensures c[k..] == [c[k]] + c[k + 1..]
    ensures Tasks(c[k..]) == [c[k].task] + Tasks(c[k + 1..])
  {
  }

  lemma DrainStep(s: Os, q: nat, t: Task, todo: seq<Task>, effects: Effects, k: nat)
    requires s.Valid() && q < QUEUE_COUNT
    ensures s.DrainFrom(q, [t] + todo, effects, k)
         == s.RunFirst(q, [t] + todo, effects(k)).DrainFrom(q, todo, effects, k + 1)
  {
    assert ([t] + todo)[1..] == todo;
  }

  /** One turn of the drain loop, as the value sees it. */
  lemma RunFirstView(s: Os, u: Os, v: Os, q: nat, todo: seq<Task>, rs: seq<Request>)
    requires s.Valid() && q < QUEUE_COUNT && todo != []
    requires u == s.(ran := s.ran + [todo[0]]).AddAll(rs)
    requires v == u.(queues := u.queues[q := todo[1..]])
    ensures v == s.RunFirst(q, todo, rs)
  {
  }

  method Unlink(list: Node, p: Node?, saved: Node, ghost c: seq<Node>, ghost rest: seq<Node>)
    requires Chain(c) && c[0] == list && EndsWith(c, [saved] + rest) && |rest| + 2 <= |c|
    requires p == if rest == [] then null else rest[0]
    modifies list`next, saved`next
    ensures Chain([list] + rest) && saved.next == null
  {
    CutFacts(c, saved, rest);
    ghost var at, d := |c| - |rest| - 1, [list] + rest;
    list.next := p;
    saved.next := null;
    forall i | 1 <= i < |d|
      ensures d[i].next == Follower(d, i)
    {
      assert d[i] == c[at + i] && d[i] != list && d[i] != saved;
      assert c[at + i].next == Follower(c, at + i);
    }
  }

  /** What is left of a list, when the nodes between its head and `rest` go. */
  lemma CutFacts(c: seq<Node>, saved: Node, rest: seq<Node>)
    requires Distinct(c) && EndsWith(c, [saved] + rest) && |rest| + 2 <= |c|
    ensures Distinct([c[0]] + rest)
    ensures saved in c && c[0] in c && saved !in [c[0]] + rest
    ensures forall n :: n in [c[0]] + rest ==> n in c
    ensures forall i :: 0 <= i < |rest| ==> rest[i] == c[|c| - |rest| + i]
  {
    var at := |c| - |rest| - 1;
    assert c[at..][0] == saved;
    assert forall i :: 0 <= i < |rest| ==> rest[i] == c[at..][i + 1];
  }

  lemma AddedView(s: Os, r: Request)
    requires s.Valid() && s.Accepts(r)
    ensures s.Add(r) == Os(s.queues[r.queue := [r.task] + s.queues[r.queue]], s.pool + [r],
                           if r.queue == CLIENT_START then s.starts + 1 else s.starts,
                           if r.queue == CLIENT_CYCLIC then s.cyclics + 1 else s.cyclics,
                           if r.queue == CLIENT_TERMINATE then s.terminates + 1 else s.terminates,
                           s.ran)
  {
  }

  // ---------- The kernel's nodes ----------

  /** The kernel's nodes: the list heads and the slots of both pools, all different. A slot that is
      queued is on the list it was filled for, or on the cyclic list that the scheduler uses. */
  ghost predicate Owned(heads: seq<Node>, kernel: seq<Node>, clients: seq<Node>, requests: seq<Request>,
                        home: map<Node, nat>, idle: set<Node>, nodes: set<Node>) {
    && home.Keys <= nodes && idle <= nodes && |clients| == |requests|
    && Distinct(kernel) && Distinct(clients)
    && (forall n <- kernel :: n in nodes && n !in heads && (n in home ==> home[n] == KERNEL_CYCLIC))
    && (forall n <- clients :: n in nodes && n !in heads && n !in kernel)
    && (forall i :: 0 <= i < |clients| ==>
          (clients[i] in home ==> home[clients[i]] == requests[i].queue || home[clients[i]] == CLIENT_CYCLIC))
  }

  lemma OwnedWithNew(heads: seq<Node>, kernel: seq<Node>, clients: seq<Node>, requests: seq<Request>,
                     home: map<Node, nat>, idle: set<Node>, nodes: set<Node>, node: Node, q: nat)
    requires Owned(heads, kernel, clients, requests, home, idle, nodes) && node !in nodes
    ensures Owned(heads, kernel, clients, requests, home[node := q], idle, nodes + {node})
  {
  }

  lemma OwnedSlot(heads: seq<Node>, kernel: seq<Node>, clients: seq<Node>, requests: seq<Request>,
                  home: map<Node, nat>, idle: set<Node>, nodes: set<Node>, node: Node, r: Request)
    requires Owned(heads, kernel, clients, requests, home, idle, nodes)
    requires node in nodes && node !in heads && node !in kernel && node !in clients
    requires node in home && home[node] == r.queue
    ensures Owned(heads, kernel, clients + [node], requests + [r], home, idle, nodes)
  {
    forall n | n in clients + [node]
      ensures n in nodes && n !in heads && n !in kernel
    {
      assert n in clients || n == node;
    }
  }

  lemma OwnedCut(heads: seq<Node>, kernel: seq<Node>, clients: seq<Node>, requests: seq<Request>,
                 home: map<Node, nat>, idle: set<Node>, nodes: set<Node>, c: seq<Node>, kept: seq<Node>, saved: Node)
    requires Owned(heads, kernel, clients, requests, home, idle, nodes) && saved in home
    ensures Owned(heads, kernel, clients, requests, Unqueued(home, c, kept), idle + {saved}, nodes)
  {
  }

  lemma OwnedStore(heads: seq<Node>, kernel: seq<Node>, clients: seq<Node>, requests: seq<Request>,
                   home: map<Node, nat>, idle: set<Node>, nodes: set<Node>, node: Node)
    requires Owned(heads, kernel, clients, requests, home, idle, nodes) && node !in nodes && node !in heads
    ensures Owned(heads, kernel + [node], clients, requests, home, idle + {node}, nodes + {node})
  {
    forall n | n in kernel + [node]
      ensures n in nodes + {node} && n !in heads && (n in home ==> home[n] == KERNEL_CYCLIC)
    {
      assert n in kernel || n == node;
    }
  }

  /** A slot may be pushed onto its own cyclic list. */
  ghost predicate Fitting(n: Node, kernel: seq<Node>, clients: seq<Node>, q: nat) {
    (n in kernel ==> q == KERNEL_CYCLIC) && (n in clients ==> q == CLIENT_CYCLIC)
  }

  lemma OwnedPush(heads: seq<Node>, kernel: seq<Node>, clients: seq<Node>, requests: seq<Request>,
                  home: map<Node, nat>, idle: set<Node>, nodes: set<Node>, node: Node, q: nat)
    requires Owned(heads, kernel, clients, requests, home, idle, nodes)
    requires node in nodes && Fitting(node, kernel, clients, q)
    ensures Owned(heads, kernel, clients, requests, home[node := q], idle - {node}, nodes)
  {
    forall i | 0 <= i < |clients| && clients[i] == node
      ensures q == CLIENT_CYCLIC
    {
      assert clients[i] in clients;
    }
  }

  /** The requests leave the scheduler's window exact, and the cyclic rates are positive. */
  ghost predicate WellFilled(pool: seq<Request>) {
    WindowExact(pool) && Rated(For(pool, CLIENT_CYCLIC))
  }

  class TickTimer {
    var counter: uint32

    constructor ()
      ensures counter == 0
    {
      counter := 0;
    }

    /** The counter's part of TIMER_vRun. */
    method Run()
      modifies this
      ensures counter == CountTick(old(counter))
      ensures counter == if old(counter) < 0xffff_ffff then old(counter) + 1 else old(counter)
    {
      if 0xffff_ffff > counter {
        counter := counter + 1;
      }
    }
  }

  class TaskKernel {
    const heads: seq<Node>
    var startNodes: seq<Node>
    var cyclicNodes: seq<Node>
    var clientNodes: seq<Node>
    var starts: nat
    var cyclics: nat
    var terminates: nat
    const timer: TickTimer
    ghost var requests: seq<Request>
    ghost var chains: seq<seq<Node>>
    ghost var home: map<Node, nat>
    ghost var idle: set<Node>
    ghost var nodes: set<Node>
    ghost var ran: seq<Task>

    ghost predicate Valid()
      reads this, nodes
    {
      && Mapped(heads, chains, home)
      && Owned(heads, cyclicNodes, clientNodes, requests, home, idle, nodes)
      && Unlinked(idle, home)
      && Linked(heads, chains, home)
      && PoolFits(clientNodes, requests)
    }

    ghost function View(): (s: Os)
      reads this
    {
      Os(Queued(chains), requests, starts, cyclics, terminates, ran)
    }

    /** Every list a head node alone, the pools unfilled. */
    constructor ()
      ensures Valid() && fresh(nodes) && fresh(timer) && timer.counter == 0
      ensures startNodes == [] && cyclicNodes == [] && clientNodes == [] && idle == {}
      ensures chains[KERNEL_START] == [heads[KERNEL_START]]
      ensures View() == RESET
    {
      var hs, places := NewHeads();
      heads, home := hs, places;
      chains := seq(QUEUE_COUNT, q requires 0 <= q < QUEUE_COUNT => [hs[q]]);
      startNodes, cyclicNodes, clientNodes := [], [], [];
      starts, cyclics, terminates := 0, 0, 0;
      requests, idle, ran := [], {}, [];
      timer := new TickTimer();
      this.nodes := places.Keys;
    }

    /** queue_task on one of the kernel's lists. */
    method Push(node: Node, q: nat)
      requires Mapped(heads, chains, home) && Linked(heads, chains, home) && Unlinked(idle, home)
      requires q < QUEUE_COUNT && node !in home
      modifies this`chains, this`home, this`idle, node`next, {heads[q]}`next
      ensures Mapped(heads, chains, home) && Linked(heads, chains, home) && Unlinked(idle, home)
      ensures idle == old(idle) - {node}
      ensures Queued(chains) == old(Queued(chains)[q := [node.task] + Queued(chains)[q]])
      ensures chains == old(chains)[q := [heads[q], node] + old(chains)[q][1..]]
      ensures home == old(home)[node := q]
      ensures Longer(old(chains), chains)
    {
      PushIsLonger(chains, q, heads[q], node);
      ghost var pushed := [heads[q], node] + chains[q][1..];
      PushKeepsMapped(heads, chains, home, q, node);
      QueuedUpdate(chains, q, pushed);
      assert Tasks(pushed[1..]) == [node.task] + Tasks(chains[q][1..]);
      assert chains[q][0] in chains[q];
      QueueTask(node, heads[q], chains[q]);
      forall r | 0 <= r < QUEUE_COUNT && r != q
        ensures Chain(chains[r])
      {
        forall i | 0 <= i < |chains[r]|
          ensures chains[r][i].next == old(chains[r][i].next)
        {
          assert chains[r][i] in chains[r] && home[chains[r][i]] == r;
        }
      }
      chains := chains[q := pushed];
      home := home[node := q];
      idle := idle - {node};
    }

    /** A pool slot is filled with a task and queued. */
    method PushNew(t: Task, q: nat) returns (node: Node)
      requires Valid() && q < QUEUE_COUNT
      modifies this`nodes, this`chains, this`home, this`idle, nodes
      ensures Valid() && idle == old(idle)
      ensures fresh(node) && node.task == t && nodes == old(nodes) + {node} && home == old(home)[node := q]
      ensures Queued(chains) == old(Queued(chains)[q := [t] + Queued(chains)[q]])
      ensures chains == old(chains)[q := [heads[q], node] + old(chains)[q][1..]]
      ensures Longer(old(chains), chains)
    {
      node := new Node(t);
      OwnedWithNew(heads, cyclicNodes, clientNodes, requests, home, idle, nodes, node, q);
      assert node !in home && node !in idle && heads[q] in home;
      Push(node, q);
      nodes := nodes + {node};
    }

    /** The next slot of the client pool. */
    method Enlist(r: Request)
      requires Valid() && ForClients(r)
      modifies this`nodes, this`chains, this`home, this`idle, this`clientNodes, this`requests, nodes
      ensures Valid() && old(nodes) <= nodes && fresh(nodes - old(nodes))
      ensures Queued(chains) == old(Queued(chains)[r.queue := [r.task] + Queued(chains)[r.queue]])
      ensures requests == old(requests) + [r]
      ensures Longer(old(chains), chains) && idle == old(idle)
      ensures old(clientNodes) <= clientNodes && (clientNodes == old(clientNodes) ==> nodes == old(nodes))
    {
      assert forall h <- heads :: h in home;
      var node := PushNew(r.task, r.queue);
      OwnedSlot(heads, cyclicNodes, clientNodes, requests, home, idle, nodes, node, r);
      clientNodes := clientNodes + [node];
      requests := requests + [r];
    }

    /** The client counters, by queue. */
    method Count(q: nat)
      requires q in {CLIENT_START, CLIENT_CYCLIC, CLIENT_TERMINATE}
      modifies this`starts, this`cyclics, this`terminates
      ensures starts == if q == CLIENT_START then old(starts) + 1 else old(starts)
      ensures cyclics == if q == CLIENT_CYCLIC then old(cyclics) + 1 else old(cyclics)
      ensures terminates == if q == CLIENT_TERMINATE then old(terminates) + 1 else old(terminates)
    {
      if q == CLIENT_START {
        starts := starts + 1;
      } else if q == CLIENT_CYCLIC {
        cyclics := cyclics + 1;
      } else {
        terminates := terminates + 1;
      }
    }

    /** A request that is accepted. */
    method Accept(r: Request)
      requires Valid() && View().Accepts(r)
      modifies this`nodes, this`chains, this`home, this`idle, this`clientNodes, this`requests, nodes
      modifies this`starts, this`cyclics, this`terminates
      ensures Valid() && old(nodes) <= nodes && fresh(nodes - old(nodes))
      ensures View() == old(View()).Add(r)
      ensures Longer(old(chains), chains) && idle == old(idle)
      ensures old(clientNodes) <= clientNodes && (clientNodes == old(clientNodes) ==> nodes == old(nodes))
    {
      AddedView(View(), r);
      Count(r.queue);
      Enlist(r);
    }

    /** OS_enAddTaskToQueue. A slot of the client pool is filled once and never reused. */
    method AddTask(r: Request) returns (ok: bool)
      requires Valid()
      modifies this`nodes, this`chains, this`home, this`idle, this`clientNodes, this`requests, nodes
      modifies this`starts, this`cyclics, this`terminates
      ensures Valid() && old(nodes) <= nodes && fresh(nodes - old(nodes))
      ensures View() == old(View()).Add(r)
      ensures ok == (|old(View()).pool| < 35)
      ensures ok && (r.queue == 4 || r.queue == 5 || r.queue == 7) ==>
        && View().pool == old(View()).pool + [r]
        && View().queues[r.queue] == [r.task] + old(View()).queues[r.queue]
        && (forall q :: 0 <= q < 8 && q != r.queue ==> View().queues[q] == old(View()).queues[q])
        && starts == old(starts) + (if r.queue == 4 then 1 else 0)
        && cyclics == old(cyclics) + (if r.queue == 5 then 1 else 0)
        && terminates == old(terminates) + (if r.queue == 7 then 1 else 0)
      ensures !(ok && (r.queue == 4 || r.queue == 5 || r.queue == 7)) ==> View() == old(View())
      ensures Longer(old(chains), chains) && idle == old(idle)
      ensures old(clientNodes) <= clientNodes && (clientNodes == old(clientNodes) ==> nodes == old(nodes))
    {
      ok := |clientNodes| < CLIENT_TASKS_MAX;
      LongerThanItself(chains);
      if ok && r.queue in {CLIENT_START, CLIENT_CYCLIC, CLIENT_TERMINATE} {
        Accept(r);
      }
    }

    /** A task runs: all the kernel sees of it are its calls of OS_enAddTaskToQueue. */
    method RunTask(t: Task, rs: seq<Request>)
      requires Valid()
      modifies this`nodes, this`chains, this`home, this`idle, this`clientNodes, this`requests, nodes
      modifies this`starts, this`cyclics, this`terminates, this`ran
      ensures Valid() && old(nodes) <= nodes && fresh(nodes - old(nodes))
      ensures View() == old(View()).(ran := old(ran) + [t]).AddAll(rs)
      ensures Longer(old(chains), chains) && idle == old(idle)
      ensures old(clientNodes) <= clientNodes && (clientNodes == old(clientNodes) ==> nodes == old(nodes))
    {
      ran := ran + [t];
      ghost var s := View();
      assert forall q :: 0 <= q < QUEUE_COUNT ==> EndsWith(chains[q], chains[q][1..]);
      for i := 0 to |rs|
        invariant Valid() && old(nodes) <= nodes && forall n <- nodes :: n in old(nodes) || fresh(n)
        invariant View().AddAll(rs[i..]) == s.AddAll(rs)
        invariant Longer(old(chains), chains) && idle == old(idle)
        invariant old(clientNodes) <= clientNodes && (clientNodes == old(clientNodes) ==> nodes == old(nodes))
      {
        ghost var before := chains;
        var ok := AddTask(rs[i]);
        LongerStill(old(chains), before, chains);
      }
    }

    /** The head pointer is set to the rest of the list, past whatever was pushed meanwhile, and
        the node that ran is unlinked. */
    method Cut(q: nat, p: Node?, saved: Node, ghost rest: seq<Node>)
      requires Valid() && q < QUEUE_COUNT
      requires EndsWith(chains[q], [saved] + rest) && |rest| + 2 <= |chains[q]|
      requires p == if rest == [] then null else rest[0]
      modifies this`chains, this`home, this`idle, {heads[q]}`next, saved`next
      ensures Valid() && idle == old(idle) + {saved}
      ensures chains == old(chains)[q := [heads[q]] + rest]
      ensures home == Unqueued(old(home), old(chains)[q], [heads[q]] + rest)
      ensures Queued(chains) == old(Queued(chains))[q := Tasks(rest)]
    {
      ghost var c, kept := chains[q], [heads[q]] + rest;
      CutFacts(c, saved, rest);
      assert saved in home;
      OwnedCut(heads, cyclicNodes, clientNodes, requests, home, idle, nodes, c, kept, saved);
      CutKeepsMapped(heads, chains, home, q, kept);
      QueuedUpdate(chains, q, kept);
      Unlink(heads[q], p, saved, c, rest);
      forall r | 0 <= r < QUEUE_COUNT && r != q
        ensures Chain(chains[r])
      {
        Elsewhere(heads, chains, home, q, r);
      }
      chains := chains[q := kept];
      home := Unqueued(home, c, kept);
      idle := idle + {saved};
    }

    /** The first k nodes of list c have run; p is the next one. */
    ghost predicate Drained(q: nat, c: seq<Node>, k: nat, p: Node?)
      reads this, nodes
    {
      && Valid()
      && q < QUEUE_COUNT && k < |c|
      && p == Follower(c, k)
      && chains[q] == [heads[q]] + c[k + 1..]
    }

    /** One turn of the drain loop: the first task runs, then the list moves on. */
    method RunNext(q: nat, saved: Node, rs: seq<Request>, ghost c: seq<Node>, ghost k: nat) returns (p: Node?)
      requires Drained(q, c, k, saved)
      modifies this`nodes, this`chains, this`home, this`idle, this`clientNodes, this`requests, nodes
      modifies this`starts, this`cyclics, this`terminates, this`ran
      ensures Drained(q, c, k + 1, p) && old(nodes) <= nodes && fresh(nodes - old(nodes))
      ensures View() == old(View()).RunFirst(q, [saved.task] + Tasks(c[k + 2..]), rs)
      ensures idle == old(idle) + {saved}
      ensures old(clientNodes) <= clientNodes && (clientNodes == old(clientNodes) ==> nodes == old(nodes))
    {
      ghost var s, rest := View(), c[k + 2..];
      TasksFrom(c, k + 1);
      assert chains[q][1..] == [saved] + rest && saved in chains[q];
      assert saved in home && heads[q] in home;
      p := saved.next;
      assert p == Follower(c, k + 1) by { NextOnList(chains[q], saved, rest); }
      RunTask(saved.task, rs);
      ghost var u := View();
      Cut(q, p, saved, rest);
      RunFirstView(s, u, View(), q, [saved.task] + Tasks(rest), rs);
    }

    /** run_cooperative_task_queue; the k-th task asks for effects(k) while it runs. */
    method RunQueue(q: nat, effects: Effects)
      requires Valid() && q < QUEUE_COUNT
      modifies this`nodes, this`chains, this`home, this`idle, this`clientNodes, this`requests, nodes
      modifies this`starts, this`cyclics, this`terminates, this`ran
      ensures Valid() && old(nodes) <= nodes && fresh(nodes - old(nodes))
      ensures View() == old(View()).Drain(q, effects)
      ensures old(idle) <= idle && forall n <- old(chains[q][1..]) :: n in idle
      ensures old(clientNodes) <= clientNodes && (clientNodes == old(clientNodes) ==> nodes == old(nodes))
    {
      ghost var c := chains[q];
      ghost var end := View().Drain(q, effects);
      assert c == [heads[q]] + c[1..];
      var p := heads[q].next;
      var k := 0;
      while p != null
        invariant 0 <= k && Drained(q, c, k, p)
        invariant old(nodes) <= nodes && forall n <- nodes :: n in old(nodes) || fresh(n)
        invariant View().DrainFrom(q, Tasks(c[k + 1..]), effects, k) == end
        invariant old(idle) <= idle && RanTo(idle, c, k)
        invariant old(clientNodes) <= clientNodes && (clientNodes == old(clientNodes) ==> nodes == old(nodes))
        decreases |c| - k
      {
        TasksFrom(c, k + 1);
        DrainStep(View(), q, p.task, Tasks(c[k + 2..]), effects, k);
        ghost var before := idle;
        p := RunNext(q, p, effects(k), c, k);
        RanOneMore(before, c, k);
        k := k + 1;
      }
    }

    /** Two queues one after the other. */
    method RunQueues(q: nat, effects: Effects, r: nat, later: Effects)
      requires Valid() && q < QUEUE_COUNT && r < QUEUE_COUNT
      modifies this`nodes, this`chains, this`home, this`idle, this`clientNodes, this`requests, nodes
      modifies this`starts, this`cyclics, this`terminates, this`ran
      ensures Valid() && old(nodes) <= nodes && fresh(nodes - old(nodes))
      ensures View() == old(View()).Drain(q, effects).Drain(r, later)
      ensures old(idle) <= idle && forall n <- old(chains[q][1..]) :: n in idle
      ensures old(clientNodes) <= clientNodes && (clientNodes == old(clientNodes) ==> nodes == old(nodes))
    {
      RunQueue(q, effects);
      RunQueue(r, later);
    }

    /** The other lists are not touched by a sort. */
    method SortList(q: nat) returns (ghost d: seq<Node>)
      requires Valid() && q < QUEUE_COUNT && 1 < |chains[q]| <= 0x1_0000
      modifies nodes
      ensures Chain(d) && d[0] == heads[q] && StablySorted(chains[q][1..], d[1..])
      ensures forall r :: 0 <= r < QUEUE_COUNT && r != q ==> Chain(chains[r])
      ensures Unlinked(idle, home)
    {
      ghost var c := chains[q];
      d := PrioritiseQueue(heads[q], c, set n | n in c);
      forall r | 0 <= r < QUEUE_COUNT && r != q
        ensures Chain(chains[r])
      {
        Elsewhere(heads, chains, home, q, r);
      }
    }

    /** OS_vPrioritiseQueue on one of the kernel's lists, which must not be empty. */
    method Prioritise(q: nat)
      requires Valid() && q < QUEUE_COUNT && 1 < |chains[q]| <= 0x1_0000
      modifies this`chains, nodes
      ensures Valid()
      ensures InStartOrder(Tasks(old(chains[q])[1..]), Tasks(chains[q][1..]))
      ensures Queued(chains) == old(Queued(chains))[q := Tasks(chains[q][1..])]
      ensures forall n :: n in chains[q] <==> n in old(chains[q])
    {
      ghost var c := chains[q];
      ghost var d := SortList(q);
      SortedNodesAreInStartOrder(c[1..], d[1..]);
      StablySortedIsPermutation(c[1..], d[1..]);
      SameMembers(c, d);
      ReorderKeepsMapped(heads, chains, home, q, d);
      QueuedUpdate(chains, q, d);
      chains := chains[q := d];
    }

    /** One entry of the start table gets its node and is pushed. */
    method PushStart(t: Task)
      requires Valid() && chains[KERNEL_START] == [heads[KERNEL_START]] + Reverse(startNodes)
      modifies this`nodes, this`chains, this`home, this`idle, this`startNodes, nodes
      ensures Valid() && old(nodes) <= nodes && fresh(nodes - old(nodes)) && idle == old(idle)
      ensures Tasks(startNodes) == old(Tasks(startNodes)) + [t]
      ensures chains == old(chains)[KERNEL_START := [heads[KERNEL_START]] + Reverse(startNodes)]
    {
      var node := PushNew(t, KERNEL_START);
      PushedInFront(heads[KERNEL_START], node, startNodes);
      TasksAppend(startNodes, node);
      startNodes := startNodes + [node];
    }

    /** The start-up loop. */
    method PushTable(table: seq<Task>)
      requires Valid() && startNodes == [] && chains[KERNEL_START] == [heads[KERNEL_START]]
      modifies this`nodes, this`chains, this`home, this`idle, this`startNodes, nodes
      ensures Valid() && old(nodes) <= nodes && fresh(nodes - old(nodes)) && idle == old(idle)
      ensures Tasks(startNodes) == table
      ensures chains == old(chains)[KERNEL_START := [heads[KERNEL_START]] + Reverse(startNodes)]
    {
      assert [heads[KERNEL_START]] + [] == [heads[KERNEL_START]];
      for i := 0 to |table|
        invariant Valid() && idle == old(idle)
        invariant old(nodes) <= nodes && forall n <- nodes :: n in old(nodes) || fresh(n)
        invariant Tasks(startNodes) == table[..i]
        invariant chains == old(chains)[KERNEL_START := [heads[KERNEL_START]] + Reverse(startNodes)]
      {
        PushStart(table[i]);
      }
    }

    /** The start queue as it is when the drain begins. */
    method QueueStartTasks(table: seq<Task>)
      requires Valid() && startNodes == [] && chains[KERNEL_START] == [heads[KERNEL_START]]
      requires 0 < |table| < 0x100
      modifies this`nodes, this`chains, this`home, this`idle, this`startNodes, nodes
      ensures Valid() && old(nodes) <= nodes && fresh(nodes - old(nodes)) && idle == old(idle)
      ensures InStartOrder(Reverse(table), Tasks(chains[KERNEL_START][1..]))
      ensures Queued(chains) == old(Queued(chains))[KERNEL_START := Tasks(chains[KERNEL_START][1..])]
      ensures Tasks(startNodes) == table && forall n <- startNodes :: n in chains[KERNEL_START][1..]
    {
      ghost var before := chains;
      PushTable(table);
      ghost var pushed := chains[KERNEL_START];
      StartChain(heads[KERNEL_START], startNodes);
      QueuedUpdate(before, KERNEL_START, pushed);
      Prioritise(KERNEL_START);
      ghost var head, c := heads[KERNEL_START], chains[KERNEL_START];
      assert c[0] == head && c == [head] + c[1..];
      assert forall n <- startNodes :: n in pushed && n != head;
    }

    /** The cyclic table only gets its nodes; the scheduler queues them. */
    method FillCyclic(table: seq<Task>)
      requires Valid() && cyclicNodes == [] && |startNodes| + |table| < 0x100
      modifies this`nodes, this`cyclicNodes, this`idle
      ensures Valid() && old(nodes) <= nodes && fresh(nodes - old(nodes)) && old(idle) <= idle
      ensures View() == old(View())
      ensures Tasks(cyclicNodes) == table && forall n <- cyclicNodes :: n in idle
    {
      for i := 0 to |table|
        invariant Valid() && old(idle) <= idle
        invariant old(nodes) <= nodes && forall n <- nodes :: n in old(nodes) || fresh(n)
        invariant Tasks(cyclicNodes) == table[..i] && forall n <- cyclicNodes :: n in idle
      {
        StoreCyclic(table[i]);
      }
    }

    method StoreCyclic(t: Task)
      requires Valid() && forall n <- cyclicNodes :: n in idle
      modifies this`nodes, this`cyclicNodes, this`idle
      ensures Valid() && old(nodes) <= nodes && fresh(nodes - old(nodes)) && old(idle) <= idle
      ensures Tasks(cyclicNodes) == old(Tasks(cyclicNodes)) + [t] && forall n <- cyclicNodes :: n in idle
    {
      var node := new Node(t);
      assert forall h <- heads :: h in home;
      OwnedStore(heads, cyclicNodes, clientNodes, requests, home, idle, nodes, node);
      TasksAppend(cyclicNodes, node);
      cyclicNodes := cyclicNodes + [node];
      idle := idle + {node};
      nodes := nodes + {node};
    }

    /** The start tasks of kernel and client. */
    method RunStartTasks(table: seq<Task>, ke: Effects, ce: Effects) returns (ghost sorted: seq<Task>)
      requires Valid() && startNodes == [] && chains[KERNEL_START] == [heads[KERNEL_START]]
      requires 0 < |table| < 0x100
      modifies this`nodes, this`chains, this`home, this`idle, this`clientNodes, this`requests, nodes
      modifies this`starts, this`cyclics, this`terminates, this`ran, this`startNodes
      ensures Valid() && old(nodes) <= nodes && fresh(nodes - old(nodes))
      ensures InStartOrder(Reverse(table), sorted)
      ensures View() == Boot(old(View()), sorted, ke, ce)
      ensures Tasks(startNodes) == table && forall n <- startNodes :: n in idle
    {
      ghost var s := View();
      QueueStartTasks(table);
      sorted := Tasks(chains[KERNEL_START][1..]);
      ghost var t := s.(queues := s.queues[KERNEL_START := sorted]);
      assert View() == t;
      RunQueues(KERNEL_START, ke, CLIENT_START, ce);
    }

    /** The task part of OS_vStart, on a kernel that has just been reset. Its loops count in 8 bits,
        so they only end for tables of together less than 256 entries. */
    method Start(table: seq<Task>, cyclic: seq<Task>, ke: Effects, ce: Effects) returns (ghost sorted: seq<Task>)
      requires Valid() && startNodes == [] && cyclicNodes == []
      requires chains[KERNEL_START] == [heads[KERNEL_START]] && 0 < |table| && |table| + |cyclic| < 0x100
      modifies this`nodes, this`chains, this`home, this`idle, this`clientNodes, this`requests, nodes
      modifies this`starts, this`cyclics, this`terminates, this`ran, this`startNodes, this`cyclicNodes
      ensures Valid() && old(nodes) <= nodes && fresh(nodes - old(nodes))
      ensures InStartOrder(Reverse(table), sorted)
      ensures View() == Boot(old(View()), sorted, ke, ce)
      ensures Tasks(startNodes) == table && forall n <- startNodes :: n in idle
      ensures Tasks(cyclicNodes) == cyclic && forall n <- cyclicNodes :: n in idle
    {
      sorted := RunStartTasks(table, ke, ce);
      FillCyclic(cyclic);
    }

    method PushIfDue(node: Node, q: nat, tick: nat) returns (due: bool)
      requires Valid() && q < QUEUE_COUNT && node.task.rate > 0
      requires node in nodes && node !in home && Fitting(node, cyclicNodes, clientNodes, q)
      modifies this`chains, this`home, this`idle, {heads[q], node}
      ensures Valid() && due == (tick % node.task.rate == 0)
      ensures Queued(chains)
           == if due then old(Queued(chains)[q := [node.task] + Queued(chains)[q]]) else old(Queued(chains))
      ensures home == if due then old(home)[node := q] else old(home)
      ensures home.Keys == if due then old(home.Keys) + {node} else old(home.Keys)
      ensures idle == if due then old(idle) - {node} else old(idle)
    {
      due := tick % node.task.rate == 0;
      if due {
        OwnedPush(heads, cyclicNodes, clientNodes, requests, home, idle, nodes, node, q);
        Push(node, q);
      }
    }

    /** One slot of the scheduler's loops. `pushed` are the slots pushed before it. */
    method PushSlot(node: Node, q: nat, tick: nat, ghost free: set<Node>, ghost start: map<Node, nat>,
                    ghost pushed: set<Node>)
      returns (ghost now: set<Node>)
      requires Valid() && q < QUEUE_COUNT && node.task.rate > 0
      requires node in nodes && node !in home && Fitting(node, cyclicNodes, clientNodes, q)
      requires Moved(free, start, idle, home, pushed, q)
      modifies this`chains, this`home, this`idle, {heads[q], node}
      ensures Valid() && Moved(free, start, idle, home, now, q)
      ensures now == if tick % node.task.rate == 0 then pushed + {node} else pushed
      ensures Queued(chains) == if tick % node.task.rate == 0
        then old(Queued(chains)[q := [node.task] + Queued(chains)[q]]) else old(Queued(chains))
    {
      ghost var before := home;
      var due := PushIfDue(node, q, tick);
      if due {
        Grouped(free, start.Keys, pushed, node);
        AllOnStep(pushed, before, node, q);
        now := pushed + {node};
      } else {
        now := pushed;
      }
    }

    /** Slots that are on no list and may be pushed onto list q. */
    ghost predicate Pushable(slots: seq<Node>, q: nat)
      reads this
    {
      && Rated(Tasks(slots)) && Distinct(slots)
      && forall n <- slots :: n in nodes && n !in home && Fitting(n, cyclicNodes, clientNodes, q)
    }

    /** One of the scheduler's two loops: slots whose rate divides the counter are pushed. None of
        them may be on a list, or a second push would close a cycle. */
    method PushDue(slots: seq<Node>, q: nat, tick: nat) returns (ghost pushed: set<Node>)
      requires Valid() && q < QUEUE_COUNT && Pushable(slots, q)
      modifies this`chains, this`home, this`idle, nodes
      ensures Valid() && Queued(chains) == old(View()).PushAll(q, Due(Tasks(slots), tick)).queues
      ensures Moved(old(idle), old(home), idle, home, pushed, q)
      ensures forall n <- pushed :: n in slots
    {
      ghost var ts, before := Tasks(slots), Queued(chains);
      NoneDue(before, q, ts, tick);
      pushed := {};
      for i := 0 to |slots|
        invariant Valid() && Queued(chains) == before[q := Reverse(Due(ts[..i], tick)) + before[q]]
        invariant Moved(old(idle), old(home), idle, home, pushed, q)
        invariant forall n <- pushed :: n in slots
        invariant forall k :: i <= k < |slots| ==> slots[k] !in pushed
      {
        assert slots[i] in slots;
        DueQueues(before, q, ts, i, tick, Queued(chains));
        pushed := PushSlot(slots[i], q, tick, old(idle), old(home), pushed);
      }
      WholeOf(ts);
    }

    /** The pool slots the scheduler takes for the client's cyclic tasks. */
    function ClientWindow(): seq<Node>
      requires starts + cyclics <= |clientNodes|
      reads this
    {
      clientNodes[starts..starts + cyclics]
    }

    /** Where the window is exact it holds what was accepted as cyclic. */
    lemma ClientWindowIsCyclic()
      requires Valid() && Counted(View()) && WindowExact(requests)
      ensures starts + cyclics <= |clientNodes|
      ensures Tasks(ClientWindow()) == For(requests, CLIENT_CYCLIC)
    {
      ForLengths(requests);
      StretchOfCyclic(requests, starts, starts + cyclics);
    }

    /** The scheduler may run: its slots are on no list, and the client's are the cyclic ones. */
    ghost predicate Ready()
      reads this, nodes
    {
      && Valid() && Counted(View()) && WindowExact(requests) && |startNodes| + |cyclicNodes| < 0x100
      && starts + cyclics <= |clientNodes|
      && Pushable(cyclicNodes, KERNEL_CYCLIC) && Pushable(ClientWindow(), CLIENT_CYCLIC)
    }

    /** Nothing is queued for the dispatcher. */
    ghost predicate Rested()
      reads this
    {
      |chains| == QUEUE_COUNT && Queued(chains)[KERNEL_CYCLIC] == [] && Queued(chains)[CLIENT_CYCLIC] == []
    }

    /** With both cyclic queues drained it may, if the pool's window is exact. */
    lemma DrainedIsReady()
      requires Valid() && Counted(View()) && WindowExact(requests) && |startNodes| + |cyclicNodes| < 0x100
      requires Rested() && Rated(Tasks(cyclicNodes)) && Rated(For(requests, CLIENT_CYCLIC))
      ensures Ready()
    {
      ClientWindowIsCyclic();
      OffEmpty(heads, chains, home, KERNEL_CYCLIC);
      OffEmpty(heads, chains, home, CLIENT_CYCLIC);
      forall n | n in ClientWindow()
        ensures n in nodes && n !in home && Fitting(n, cyclicNodes, clientNodes, CLIENT_CYCLIC)
      {
        var i :| starts <= i < starts + cyclics && clientNodes[i] == n;
        assert clientNodes[i] in clientNodes && requests[i].queue == CLIENT_CYCLIC;
      }
      forall n | n in cyclicNodes
        ensures n in nodes && n !in home && Fitting(n, cyclicNodes, clientNodes, KERNEL_CYCLIC)
      {
      }
    }

    /** OS_vSchedule. */
    method Schedule()
      requires Ready()
      modifies this`chains, this`home, this`idle, nodes
      ensures Valid()
      ensures View() == Scheduled(old(View()), old(Tasks(cyclicNodes)), old(Tasks(ClientWindow())), timer.counter)
    {
      var kernel, client := cyclicNodes, ClientWindow();
      ghost var s, ks, cs := View(), Due(Tasks(kernel), timer.counter), Due(Tasks(client), timer.counter);
      assert forall n <- client :: n in clientNodes && n !in kernel;
      ghost var pushed := PushDue(kernel, KERNEL_CYCLIC, timer.counter);
      ghost var t := View();
      assert t == s.PushAll(KERNEL_CYCLIC, ks);
      ghost var pushedClient := PushDue(client, CLIENT_CYCLIC, timer.counter);
      assert View() == t.PushAll(CLIENT_CYCLIC, cs);
    }

    /** OS_vBackgroundDispatcher, up to its thread switch. */
    method Dispatch(ke: Effects, ce: Effects)
      requires Valid()
      modifies this`nodes, this`chains, this`home, this`idle, this`clientNodes, this`requests, nodes
      modifies this`starts, this`cyclics, this`terminates, this`ran
      ensures Valid() && old(nodes) <= nodes && fresh(nodes - old(nodes))
      ensures old(clientNodes) <= clientNodes && (clientNodes == old(clientNodes) ==> nodes == old(nodes))
      ensures View() == old(View()).Drain(KERNEL_CYCLIC, ke).Drain(CLIENT_CYCLIC, ce)
    {
      RunQueues(KERNEL_CYCLIC, ke, CLIENT_CYCLIC, ce);
    }

    /** A tick and its dispatch, whatever the tasks ask for meanwhile. */
    method ScheduleAndDispatch(ke: Effects, ce: Effects)
      requires Ready()
      modifies this`nodes, this`chains, this`home, this`idle, this`clientNodes, this`requests, nodes
      modifies this`starts, this`cyclics, this`terminates, this`ran
      ensures Valid() && old(nodes) <= nodes && fresh(nodes - old(nodes))
      ensures old(clientNodes) <= clientNodes && (clientNodes == old(clientNodes) ==> nodes == old(nodes))
      ensures View()
           == TickWith(old(View()), old(Tasks(cyclicNodes)), old(Tasks(ClientWindow())), timer.counter, ke, ce)
    {
      Schedule();
      Dispatch(ke, ce);
    }

    /** So the kernel is ready for the next tick. */
    method Serve(ke: Effects, ce: Effects)
      requires Ready() && Rested()
      modifies this`nodes, this`chains, this`home, this`idle, this`clientNodes, this`requests, nodes
      modifies this`starts, this`cyclics, this`terminates, this`ran
      ensures Valid() && old(nodes) <= nodes && fresh(nodes - old(nodes))
      ensures old(clientNodes) <= clientNodes && (clientNodes == old(clientNodes) ==> nodes == old(nodes))
      ensures Rested() && (WellFilled(requests) ==> Ready())
      ensures View()
           == TickWith(old(View()), old(Tasks(cyclicNodes)), old(Tasks(ClientWindow())), timer.counter, ke, ce)
    {
      TickRunsDueTasks(View(), Tasks(cyclicNodes), Tasks(ClientWindow()), timer.counter, ke, ce);
      TickKeepsCount(View(), Tasks(cyclicNodes), Tasks(ClientWindow()), timer.counter, ke, ce);
      ScheduleAndDispatch(ke, ce);
      if WellFilled(requests) {
        DrainedIsReady();
      }
    }

    /** A whole tick, from the timer to the dispatch. */
    method TickAndDispatch(ke: Effects, ce: Effects)
      requires Ready() && Rested()
      modifies this`nodes, this`chains, this`home, this`idle, this`clientNodes, this`requests, nodes
      modifies this`starts, this`cyclics, this`terminates, this`ran, timer
      ensures Valid() && old(nodes) <= nodes && fresh(nodes - old(nodes))
      ensures old(clientNodes) <= clientNodes && (clientNodes == old(clientNodes) ==> nodes == old(nodes))
      ensures Rested() && timer.counter == CountTick(old(timer.counter)) && (WellFilled(requests) ==> Ready())
      ensures View()
           == TickWith(old(View()), old(Tasks(cyclicNodes)), old(Tasks(ClientWindow())), timer.counter, ke, ce)
    {
      timer.Run();
      Serve(ke, ce);
    }

    /** A tick with tasks that add no others leaves the pool and the window as they were. */
    method QuietTick()
      requires Ready() && Rested()
      modifies this`nodes, this`chains, this`home, this`idle, this`clientNodes, this`requests, nodes
      modifies this`starts, this`cyclics, this`terminates, this`ran, timer
      ensures Ready() && Rested() && nodes == old(nodes)
      ensures timer.counter == CountTick(old(timer.counter)) && ClientWindow() == old(ClientWindow())
      ensures View() == Tick(old(View()), old(Tasks(cyclicNodes)), old(Tasks(ClientWindow())), timer.counter)
    {
      QuietTickRunsDueTasks(View(), Tasks(cyclicNodes), Tasks(ClientWindow()), CountTick(timer.counter));
      ClientWindowIsCyclic();
      ghost var clients := clientNodes;
      TickAndDispatch(Quiet, Quiet);
      assert clientNodes == clients;
    }

    /** n ticks in a row. */
    method RunTicks(n: nat) returns (ghost s: Os)
      requires Ready() && Rested()
      modifies this`nodes, this`chains, this`home, this`idle, this`clientNodes, this`requests, nodes
      modifies this`starts, this`cyclics, this`terminates, this`ran, timer
      ensures Ready() && Rested() && nodes == old(nodes) && View() == s
      ensures timer.counter == CounterAfter(old(timer.counter), n) && ClientWindow() == old(ClientWindow())
      ensures s
           == Kernel.RunTicks(old(View()), old(Tasks(cyclicNodes)), old(Tasks(ClientWindow())), old(timer.counter), n)
    {
      ghost var start, kernel, client, c := View(), Tasks(cyclicNodes), Tasks(ClientWindow()), timer.counter;
      s := start;
      for i := 0 to n
        invariant Ready() && Rested() && ClientWindow() == old(ClientWindow()) && View() == s
        invariant nodes == old(nodes)
        invariant timer.counter == CounterAfter(c, i) && s == Kernel.RunTicks(start, kernel, client, c, i)
      {
        LastTick(start, kernel, client, c, i + 1, s, CountTick(timer.counter));
        s := Tick(s, kernel, client, CountTick(timer.counter));
        QuietTick();
      }
    }

    /** Start-up and the first dispatch make it ready, if the tasks filled the pool well. */
    method StartUp(table: seq<Task>, cyclic: seq<Task>, ke: Effects, ce: Effects, de: Effects, fe: Effects)
      returns (ghost sorted: seq<Task>)
      requires Valid() && startNodes == [] && cyclicNodes == [] && Counted(View())
      requires chains[KERNEL_START] == [heads[KERNEL_START]] && 0 < |table| && |table| + |cyclic| < 0x100
      requires Rated(cyclic)
      modifies this`nodes, this`chains, this`home, this`idle, this`clientNodes, this`requests, nodes
      modifies this`starts, this`cyclics, this`terminates, this`ran, this`startNodes, this`cyclicNodes
      ensures Valid() && old(nodes) <= nodes && fresh(nodes - old(nodes))
      ensures InStartOrder(Reverse(table), sorted) && Tasks(cyclicNodes) == cyclic
      ensures View() == Boot(old(View()), sorted, ke, ce).Drain(KERNEL_CYCLIC, de).Drain(CLIENT_CYCLIC, fe)
      ensures Rested() && (WellFilled(requests) ==> Ready())
    {
      ghost var s := View();
      sorted := Start(table, cyclic, ke, ce);
      DispatchRests(View(), de, fe);
      BootKeepsCount(s, sorted, ke, ce, de, fe);
      Dispatch(de, fe);
      if WellFilled(requests) {
        DrainedIsReady();
      }
    }
  }

  /** The kernel from reset over start-up and the first dispatch. */
  ghost function Started(sorted: seq<Task>, ke: Effects, ce: Effects, de: Effects, fe: Effects): (s: Os)
    ensures s.Valid()
  {
    Boot(RESET, sorted, ke, ce).Drain(KERNEL_CYCLIC, de).Drain(CLIENT_CYCLIC, fe)
  }

  /** A kernel from reset over start-up, the first dispatch and n ticks. */
  method PowerUp(table: seq<Task>, cyclic: seq<Task>, ke: Effects, ce: Effects, de: Effects, fe: Effects, n: nat)
    returns (kernel: TaskKernel, ghost sorted: seq<Task>)
    requires 0 < |table| && |table| + |cyclic| < 0x100 && Rated(cyclic)
    requires forall sorted :: InStartOrder(Reverse(table), sorted) ==> WellFilled(Started(sorted, ke, ce, de, fe).pool)
    ensures kernel.Ready() && kernel.timer.counter == CounterAfter(0, n) && InStartOrder(Reverse(table), sorted)
    ensures var s := Started(sorted, ke, ce, de, fe);
      WellFilled(s.pool) && kernel.View() == RunTicks(s, cyclic, For(s.pool, CLIENT_CYCLIC), 0, n)
  {
    kernel := new TaskKernel();
    sorted := kernel.StartUp(table, cyclic, ke, ce, de, fe);
    kernel.ClientWindowIsCyclic();
    ghost var s := kernel.RunTicks(n);
  }
}
