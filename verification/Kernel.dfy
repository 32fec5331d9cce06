/** Start-up, the tick scheduler and the dispatcher, over the task lists. */
module Kernel {
  import opened Arithmetic
  import opened Words
  import opened TaskQueues

  const QUEUE_COUNT := 8
  const KERNEL_START := 0
  const KERNEL_CYCLIC := 1
  const CLIENT_START := 4
  const CLIENT_CYCLIC := 5
  const CLIENT_TERMINATE := 7
  const CLIENT_TASKS_MAX := 35

  /** A call of OS_enAddTaskToQueue. */
  datatype Request = Request(queue: nat, task: Task)

  /** What the k-th task of a drain asks of the kernel while it runs. */
  type Effects = nat -> seq<Request>

  function Reverse<T>(s: seq<T>): (r: seq<T>)
    ensures |r| == |s|
  {
    if s == [] then [] else Reverse(s[1..]) + [s[0]]
  }

  lemma {:induction false} ReverseAppend<T>(s: seq<T>, x: T)
    ensures Reverse(s + [x]) == [x] + Reverse(s)
  {
    if s != [] {
      assert (s + [x])[1..] == s[1..] + [x];
      ReverseAppend(s[1..], x);
    }
  }

  lemma {:induction false} ReverseConcat<T>(a: seq<T>, b: seq<T>)
    ensures Reverse(a + b) == Reverse(b) + Reverse(a)
  {
    if a == [] {
      assert a + b == b;
    } else {
      assert (a + b)[0] == a[0] && (a + b)[1..] == a[1..] + b;
      ReverseConcat(a[1..], b);
    }
  }

  lemma {:induction false} ReverseIsPermutation<T>(s: seq<T>)
    ensures multiset(Reverse(s)) == multiset(s)
  {
    if s != [] {
      ReverseIsPermutation(s[1..]);
      assert s == [s[0]] + s[1..];
    }
  }

  // ---------- The kernel as a value ----------

  /** The queues by content, the client pool by the requests that filled it, its counters, and
      the tasks run so far. */
  datatype Os = Os(queues: seq<seq<Task>>, pool: seq<Request>,
                   starts: nat, cyclics: nat, terminates: nat, ran: seq<Task>)
  {
    predicate Valid() {
      |queues| == QUEUE_COUNT
    }

    function Push(q: nat, t: Task): Os
      requires Valid() && q < QUEUE_COUNT
    {
      this.(queues := queues[q := [t] + queues[q]])
    }

    /** A run of pushes; the last one ends up in front. */
    function PushAll(q: nat, ts: seq<Task>): (r: Os)
      requires Valid() && q < QUEUE_COUNT
      ensures r.Valid()
    {
      this.(queues := queues[q := Reverse(ts) + queues[q]])
    }

    predicate Accepts(r: Request) {
      |pool| < CLIENT_TASKS_MAX && ForClients(r)
    }

    /** OS_enAddTaskToQueue: a full pool refuses, and other queue numbers are ignored. */
    function Add(r: Request): (s: Os)
      requires Valid()
      ensures s.Valid()
    {
      if Accepts(r) then
        Push(r.queue, r.task).(
          pool := pool + [r],
          starts := if r.queue == CLIENT_START then starts + 1 else starts,
          cyclics := if r.queue == CLIENT_CYCLIC then cyclics + 1 else cyclics,
          terminates := if r.queue == CLIENT_TERMINATE then terminates + 1 else terminates)
      else this
    }

    function AddAll(rs: seq<Request>): (s: Os)
      requires Valid()
      ensures s.Valid()
      decreases rs
    {
      if rs == [] then this else Add(rs[0]).AddAll(rs[1..])
    }

    /** The first of the remaining tasks `todo` runs; then the head pointer is set to the rest. */
    function RunFirst(q: nat, todo: seq<Task>, requests: seq<Request>): (s: Os)
      requires Valid() && q < QUEUE_COUNT && todo != []
      ensures s.Valid()
    {
      var after := this.(ran := ran + [todo[0]]).AddAll(requests);
      after.(queues := after.queues[q := todo[1..]])
    }

    function DrainFrom(q: nat, todo: seq<Task>, effects: Effects, k: nat): (s: Os)
      requires Valid() && q < QUEUE_COUNT
      ensures s.Valid()
      decreases todo
    {
      if todo == [] then this
      else RunFirst(q, todo, effects(k)).DrainFrom(q, todo[1..], effects, k + 1)
    }

    /** run_cooperative_task_queue. */
    function Drain(q: nat, effects: Effects): (s: Os)
      requires Valid() && q < QUEUE_COUNT
      ensures s.Valid()
    {
      DrainFrom(q, queues[q], effects, 0)
    }
  }

  const RESET := Os([[], [], [], [], [], [], [], []], [], 0, 0, 0, [])

  /** The tasks asked onto queue q, in the order they were asked for. */
  function For(rs: seq<Request>, q: nat): seq<Task> {
    if rs == [] then []
    else if rs[|rs| - 1].queue == q then For(rs[..|rs| - 1], q) + [rs[|rs| - 1].task]
    else For(rs[..|rs| - 1], q)
  }

  lemma {:induction false} ForConcat(a: seq<Request>, b: seq<Request>, q: nat)
    ensures For(a + b, q) == For(a, q) + For(b, q)
  {
    if b == [] {
      assert a + b == a;
    } else {
      var n := |b| - 1;
      assert (a + b)[..|a| + n] == a + b[..n] && (a + b)[|a| + n] == b[n];
      ForConcat(a, b[..n], q);
    }
  }

  lemma {:induction false} NothingFor(rs: seq<Request>, q: nat)
    requires forall r <- rs :: r.queue != q
    ensures For(rs, q) == []
  {
    if rs != [] {
      NothingFor(rs[..|rs| - 1], q);
    }
  }

  predicate ForClients(r: Request) {
    r.queue in {CLIENT_START, CLIENT_CYCLIC, CLIENT_TERMINATE}
  }

  /** While fewer than 35 slots are filled, a request for queue 4, 5 or 7 takes one, its task goes
      to the front of that queue, and its counter goes up; nothing else changes. Any other request
      changes nothing at all. */
  lemma AddInPlain(s: Os, r: Request)
    requires s.Valid()
    ensures var t := s.Add(r);
      if |s.pool| < 35 && (r.queue == 4 || r.queue == 5 || r.queue == 7) then
        && t.pool == s.pool + [r]
        && t.queues[r.queue] == [r.task] + s.queues[r.queue]
        && (forall q :: 0 <= q < 8 && q != r.queue ==> t.queues[q] == s.queues[q])
        && t.starts == (if r.queue == 4 then s.starts + 1 else s.starts)
        && t.cyclics == (if r.queue == 5 then s.cyclics + 1 else s.cyclics)
        && t.terminates == (if r.queue == 7 then s.terminates + 1 else s.terminates)
        && t.ran == s.ran
      else t == s
  {
  }

  /** The client requests among rs. */
  function Clients(rs: seq<Request>): seq<Request> {
    if rs == [] then []
    else (if rs[0].queue == 4 || rs[0].queue == 5 || rs[0].queue == 7 then [rs[0]] else []) + Clients(rs[1..])
  }

  /** The first 35 of the requests that filled the pool and the client requests among rs. */
  function Filled(pool: seq<Request>, rs: seq<Request>): seq<Request> {
    var all := pool + Clients(rs);
    if |all| <= 35 then all else all[..35]
  }

  lemma {:induction false} ClientsConcat(a: seq<Request>, b: seq<Request>)
    ensures Clients(a + b) == Clients(a) + Clients(b)
  {
    if a == [] {
      assert a + b == b;
    } else {
      assert (a + b)[0] == a[0] && (a + b)[1..] == a[1..] + b;
      ClientsConcat(a[1..], b);
    }
  }

  lemma FilledTwice(pool: seq<Request>, a: seq<Request>, b: seq<Request>)
    ensures Filled(Filled(pool, a), b) == Filled(pool, a + b)
  {
    ClientsConcat(a, b);
    Assoc(pool, Clients(a), Clients(b));
  }

  lemma AddFills(s: Os, r: Request)
    requires s.Valid() && |s.pool| <= 35
    ensures s.Add(r).pool == Filled(s.pool, [r])
  {
    AddInPlain(s, r);
    assert [r][1..] == [] && Clients([r][1..]) == [];
  }

  /** Over any requests: behind what the pool held before come the client requests, in order, until
      35 slots are filled. */
  lemma {:induction false} AddAllFills(s: Os, rs: seq<Request>)
    requires s.Valid() && |s.pool| <= 35
    ensures s.AddAll(rs).pool == Filled(s.pool, rs)
    decreases rs
  {
    if rs != [] {
      AddFills(s, rs[0]);
      AddAllFills(s.Add(rs[0]), rs[1..]);
      FilledTwice(s.pool, [rs[0]], rs[1..]);
      assert [rs[0]] + rs[1..] == rs;
    }
  }

  /** What n tasks from the k-th on ask for. */
  function Asked(effects: Effects, k: nat, n: nat): seq<Request>
    decreases n
  {
    if n == 0 then [] else effects(k) + Asked(effects, k + 1, n - 1)
  }

  lemma {:induction false} DrainFromFills(s: Os, q: nat, todo: seq<Task>, effects: Effects, k: nat)
    requires s.Valid() && q < QUEUE_COUNT && |s.pool| <= 35
    ensures s.DrainFrom(q, todo, effects, k).pool == Filled(s.pool, Asked(effects, k, |todo|))
    decreases todo
  {
    if todo != [] {
      AddAllFills(s.(ran := s.ran + [todo[0]]), effects(k));
      var next := s.RunFirst(q, todo, effects(k));
      DrainFromFills(next, q, todo[1..], effects, k + 1);
      FilledTwice(s.pool, effects(k), Asked(effects, k + 1, |todo| - 1));
    }
  }

  /** A drain asks on behalf of as many tasks as were queued: the pool takes their client requests
      in the order the tasks run. */
  lemma DrainFills(s: Os, q: nat, effects: Effects)
    requires s.Valid() && q < QUEUE_COUNT && |s.pool| <= 35
    ensures s.Drain(q, effects).pool == Filled(s.pool, Asked(effects, 0, |s.queues[q]|))
  {
    DrainFromFills(s, q, s.queues[q], effects, 0);
  }

  /** Everything accepted between two states, as the queues other than `except` show it. */
  ghost predicate Grown(s: Os, t: Os, except: nat) {
    && s.Valid() && t.Valid()
    && s.pool <= t.pool
    && (forall r <- t.pool[|s.pool|..] :: ForClients(r))
    && forall r :: 0 <= r < QUEUE_COUNT && r != except ==>
         t.queues[r] == Reverse(For(t.pool[|s.pool|..], r)) + s.queues[r]
  }

  /** Growth over two drains, seen on a queue that neither of them empties. */
  lemma GrowsOn(s: Os, t: Os, u: Os, a: nat, b: nat, q: nat)
    requires Grown(s, t, a) && Grown(t, u, b) && q != a && q != b && q < QUEUE_COUNT
    ensures s.pool <= u.pool
    ensures u.queues[q] == Reverse(For(u.pool[|s.pool|..], q)) + s.queues[q]
  {
    var early, late := t.pool[|s.pool|..], u.pool[|t.pool|..];
    assert u.pool[|s.pool|..] == early + late;
    ForConcat(early, late, q);
    ReverseConcat(For(early, q), For(late, q));
    Assoc(Reverse(For(late, q)), Reverse(For(early, q)), s.queues[q]);
  }

  lemma AddGrows(s: Os, t: Os, except: nat, r: Request)
    requires Grown(s, t, except)
    ensures Grown(s, t.Add(r), except) && t.Add(r).ran == t.ran
  {
    if t.Accepts(r) {
      var added := t.pool[|s.pool|..];
      assert t.Add(r).pool[|s.pool|..] == added + [r];
      assert (added + [r])[..|added|] == added;
      ReverseAppend(For(added, r.queue), r.task);
      Assoc([r.task], Reverse(For(added, r.queue)), s.queues[r.queue]);
    }
  }

  lemma {:induction false} AddAllGrows(s: Os, t: Os, except: nat, rs: seq<Request>)
    requires Grown(s, t, except)
    ensures Grown(s, t.AddAll(rs), except) && t.AddAll(rs).ran == t.ran
    decreases rs
  {
    if rs != [] {
      AddGrows(s, t, except, rs[0]);
      AddAllGrows(s, t.Add(rs[0]), except, rs[1..]);
    }
  }

  lemma {:induction false} DrainFromRuns(s: Os, t: Os, q: nat, todo: seq<Task>, effects: Effects, k: nat)
    requires q < QUEUE_COUNT && Grown(s, t, q) && t.queues[q] == todo
    ensures var u := t.DrainFrom(q, todo, effects, k);
      u.ran == t.ran + todo && u.queues[q] == [] && Grown(s, u, q)
    decreases todo
  {
    if todo != [] {
      var running := t.(ran := t.ran + [todo[0]]);
      AddAllGrows(s, running, q, effects(k));
      var next := t.RunFirst(q, todo, effects(k));
      DrainFromRuns(s, next, q, todo[1..], effects, k + 1);
      assert t.ran + todo == t.ran + [todo[0]] + todo[1..];
    }
  }

  /** Whatever the tasks ask for: a drain runs exactly the queued tasks, once each and in order,
      and empties the queue. Pushes onto the other queues all survive, newest first. */
  lemma DrainRuns(s: Os, q: nat, effects: Effects)
    requires s.Valid() && q < QUEUE_COUNT
    ensures var u := s.Drain(q, effects);
      u.ran == s.ran + s.queues[q] && u.queues[q] == [] && Grown(s, u, q)
  {
    assert s.pool[|s.pool|..] == [];
    DrainFromRuns(s, s, q, s.queues[q], effects, 0);
  }

  /** The pushes that running tasks make onto queue r survive exactly if r is not the queue
      being drained, or there are none. */
  lemma PushesSurviveIff(s: Os, q: nat, r: nat, effects: Effects)
    requires s.Valid() && q < QUEUE_COUNT && r < QUEUE_COUNT
    ensures s.pool <= s.Drain(q, effects).pool
    ensures var u := s.Drain(q, effects);
      var added := Reverse(For(u.pool[|s.pool|..], r));
      u.queues[r] == added + (if r == q then [] else s.queues[r]) <==> r != q || added == []
  {
    DrainRuns(s, q, effects);
  }

  // ---------- Start-up ----------

  function Tasks(s: seq<Node>): (ts: seq<Task>)
    ensures |ts| == |s|
  {
    seq(|s|, i requires 0 <= i < |s| => s[i].task)
  }

  function TasksOfPriority(ts: seq<Task>, p: nat): seq<Task> {
    if ts == [] then []
    else (if ts[0].priority == p then [ts[0]] else []) + TasksOfPriority(ts[1..], p)
  }

  /** us is ts by ascending priority, ties in their original order. */
  ghost predicate InStartOrder(ts: seq<Task>, us: seq<Task>) {
    && (forall i, j :: 0 <= i < j < |us| ==> us[i].priority <= us[j].priority)
    && (forall p :: TasksOfPriority(us, p) == TasksOfPriority(ts, p))
  }

  lemma {:induction false} TasksOfPriorityOfNodes(s: seq<Node>, p: nat)
    ensures TasksOfPriority(Tasks(s), p) == Tasks(OfPriority(s, p))
  {
    if s != [] {
      TasksOfPriorityOfNodes(s[1..], p);
      assert Tasks(s)[1..] == Tasks(s[1..]);
      assert Tasks([s[0]] + OfPriority(s[1..], p)) == [s[0].task] + Tasks(OfPriority(s[1..], p));
    }
  }

  lemma SortedNodesAreInStartOrder(s: seq<Node>, r: seq<Node>)
    requires StablySorted(s, r)
    ensures InStartOrder(Tasks(s), Tasks(r))
  {
    forall p
      ensures TasksOfPriority(Tasks(r), p) == TasksOfPriority(Tasks(s), p)
    {
      TasksOfPriorityOfNodes(r, p);
      TasksOfPriorityOfNodes(s, p);
      assert OfPriority(r, p) == OfPriority(s, p);
    }
  }

  lemma {:induction false} StartOrderCount(ts: seq<Task>, t: Task)
    ensures multiset(ts)[t] == multiset(TasksOfPriority(ts, t.priority))[t]
  {
    if ts != [] {
      StartOrderCount(ts[1..], t);
      assert ts == [ts[0]] + ts[1..];
    }
  }

  /** Start order neither drops nor repeats a task. */
  lemma StartOrderIsPermutation(ts: seq<Task>, us: seq<Task>)
    requires InStartOrder(ts, us)
    ensures multiset(us) == multiset(ts)
  {
    forall t: Task
      ensures multiset(us)[t] == multiset(ts)[t]
    {
      StartOrderCount(us, t);
      StartOrderCount(ts, t);
      assert TasksOfPriority(us, t.priority) == TasksOfPriority(ts, t.priority);
    }
  }

  /** The start tasks are pushed in table order, sorted, and drained; then the client's start
      queue is drained as well. `sorted` is what the sort made of the queue. */
  function Boot(s: Os, sorted: seq<Task>, kernelEffects: Effects, clientEffects: Effects): (r: Os)
    requires s.Valid()
    ensures r.Valid()
  {
    s.(queues := s.queues[KERNEL_START := sorted])
      .Drain(KERNEL_START, kernelEffects)
      .Drain(CLIENT_START, clientEffects)
  }

  /** From empty queues: every start task runs exactly once, by ascending priority, ties in
      reverse table order, and after them the client start tasks that they asked for, newest
      first. Both start queues end up empty, and what was asked for on the cyclic and terminate
      queues is there. */
  lemma BootRunsStartTasks(s: Os, table: seq<Task>, sorted: seq<Task>, ke: Effects, ce: Effects)
    requires s.Valid() && (forall q :: 0 <= q < QUEUE_COUNT ==> s.queues[q] == [])
    requires InStartOrder(Reverse(table), sorted)
    ensures multiset(sorted) == multiset(table)
    ensures var m := s.(queues := s.queues[KERNEL_START := sorted]).Drain(KERNEL_START, ke);
      var u := Boot(s, sorted, ke, ce);
      && s.pool <= m.pool <= u.pool
      && u.ran == s.ran + sorted + Reverse(For(m.pool[|s.pool|..], CLIENT_START))
      && u.queues[KERNEL_START] == [] && u.queues[CLIENT_START] == []
      && u.queues[CLIENT_CYCLIC] == Reverse(For(u.pool[|s.pool|..], CLIENT_CYCLIC))
      && u.queues[CLIENT_TERMINATE] == Reverse(For(u.pool[|s.pool|..], CLIENT_TERMINATE))
  {
    StartOrderIsPermutation(Reverse(table), sorted);
    ReverseIsPermutation(table);
    var s1 := s.(queues := s.queues[KERNEL_START := sorted]);
    var m := s1.Drain(KERNEL_START, ke);
    DrainRuns(s1, KERNEL_START, ke);
    var u := m.Drain(CLIENT_START, ce);
    DrainRuns(m, CLIENT_START, ce);
    GrowsOn(s1, m, u, KERNEL_START, CLIENT_START, CLIENT_CYCLIC);
    GrowsOn(s1, m, u, KERNEL_START, CLIENT_START, CLIENT_TERMINATE);
    assert s.ran + sorted + m.queues[CLIENT_START] == m.ran + m.queues[CLIENT_START];
    NothingFor(u.pool[|m.pool|..], KERNEL_START);
  }

  // ---------- Ticks ----------

  predicate Rated(ts: seq<Task>) {
    forall i :: 0 <= i < |ts| ==> ts[i].rate > 0
  }

  /** The tasks whose rate divides the tick counter, in slot order. */
  function Due(ts: seq<Task>, tick: nat): seq<Task>
    requires Rated(ts)
  {
    if ts == [] then []
    else (if tick % ts[0].rate == 0 then [ts[0]] else []) + Due(ts[1..], tick)
  }

  lemma {:induction false} DueAppend(ts: seq<Task>, t: Task, tick: nat)
    requires Rated(ts) && t.rate > 0
    ensures Due(ts + [t], tick) == Due(ts, tick) + if tick % t.rate == 0 then [t] else []
  {
    if ts == [] {
      assert [t][1..] == [] && [] + [t] == [t];
    } else {
      assert (ts + [t])[0] == ts[0] && (ts + [t])[1..] == ts[1..] + [t];
      DueAppend(ts[1..], t, tick);
    }
  }

  /** The due tasks are pushed in slot order, so they queue up in reverse. */
  function Scheduled(s: Os, kernel: seq<Task>, client: seq<Task>, tick: nat): (r: Os)
    requires s.Valid() && Rated(kernel) && Rated(client)
    ensures r.Valid()
  {
    s.PushAll(KERNEL_CYCLIC, Due(kernel, tick)).PushAll(CLIENT_CYCLIC, Due(client, tick))
  }

  /** A task that adds no others. */
  function Quiet(k: nat): seq<Request> {
    []
  }

  /** One tick and the dispatch after it. */
  function TickWith(s: Os, kernel: seq<Task>, client: seq<Task>, tick: nat, ke: Effects, ce: Effects): (r: Os)
    requires s.Valid() && Rated(kernel) && Rated(client)
    ensures r.Valid()
  {
    Scheduled(s, kernel, client, tick).Drain(KERNEL_CYCLIC, ke).Drain(CLIENT_CYCLIC, ce)
  }

  /** With tasks that add no others. */
  function Tick(s: Os, kernel: seq<Task>, client: seq<Task>, tick: nat): (r: Os)
    requires s.Valid() && Rated(kernel) && Rated(client)
    ensures r.Valid()
  {
    TickWith(s, kernel, client, tick, Quiet, Quiet)
  }

  /** With the cyclic queues drained before it, and whatever the tasks ask for, a tick and its
      dispatch run exactly the cyclic tasks whose rate divides the counter, once each, in reverse
      slot order; in front of the client's those that the kernel's asked for. Both queues end
      drained, and requests for the start and terminate queues are there. */
  lemma TickRunsDueTasks(s: Os, kernel: seq<Task>, client: seq<Task>, tick: nat, ke: Effects, ce: Effects)
    requires s.Valid() && Rated(kernel) && Rated(client)
    requires s.queues[KERNEL_CYCLIC] == [] && s.queues[CLIENT_CYCLIC] == []
    ensures var m := Scheduled(s, kernel, client, tick).Drain(KERNEL_CYCLIC, ke);
      var u := TickWith(s, kernel, client, tick, ke, ce);
      && s.pool <= m.pool <= u.pool
      && u.ran == s.ran + Reverse(Due(kernel, tick))
                + (Reverse(For(m.pool[|s.pool|..], CLIENT_CYCLIC)) + Reverse(Due(client, tick)))
      && u.queues[KERNEL_CYCLIC] == [] && u.queues[CLIENT_CYCLIC] == []
      && u.queues[CLIENT_START] == Reverse(For(u.pool[|s.pool|..], CLIENT_START)) + s.queues[CLIENT_START]
      && u.queues[CLIENT_TERMINATE]
         == Reverse(For(u.pool[|s.pool|..], CLIENT_TERMINATE)) + s.queues[CLIENT_TERMINATE]
  {
    var ks, cs := Reverse(Due(kernel, tick)), Reverse(Due(client, tick));
    var s1 := Scheduled(s, kernel, client, tick);
    assert ks + [] == ks && cs + [] == cs;
    var m := s1.Drain(KERNEL_CYCLIC, ke);
    DrainRuns(s1, KERNEL_CYCLIC, ke);
    var u := m.Drain(CLIENT_CYCLIC, ce);
    DrainRuns(m, CLIENT_CYCLIC, ce);
    GrowsOn(s1, m, u, KERNEL_CYCLIC, CLIENT_CYCLIC, CLIENT_START);
    GrowsOn(s1, m, u, KERNEL_CYCLIC, CLIENT_CYCLIC, CLIENT_TERMINATE);
    NothingFor(u.pool[|m.pool|..], KERNEL_CYCLIC);
  }

  lemma {:induction false} QuietDrainFrom(s: Os, q: nat, todo: seq<Task>, effects: Effects, k: nat)
    requires s.Valid() && q < QUEUE_COUNT && s.queues[q] == todo
    requires forall i :: effects(i) == []
    ensures s.DrainFrom(q, todo, effects, k) == s.(ran := s.ran + todo, queues := s.queues[q := []])
    decreases todo
  {
    if todo == [] {
      assert s.ran + [] == s.ran && s.queues[q := []] == s.queues;
    } else {
      var next := s.RunFirst(q, todo, effects(k));
      assert next == s.(ran := s.ran + [todo[0]], queues := s.queues[q := todo[1..]]);
      QuietDrainFrom(next, q, todo[1..], effects, k + 1);
      assert s.ran + [todo[0]] + todo[1..] == s.ran + todo;
      assert s.queues[q := todo[1..]][q := []] == s.queues[q := []];
    }
  }

  /** Then nothing else about the kernel changes. */
  lemma QuietTickRunsDueTasks(s: Os, kernel: seq<Task>, client: seq<Task>, tick: nat)
    requires s.Valid() && Rated(kernel) && Rated(client)
    requires s.queues[KERNEL_CYCLIC] == [] && s.queues[CLIENT_CYCLIC] == []
    ensures Tick(s, kernel, client, tick)
         == s.(ran := s.ran + Reverse(Due(kernel, tick)) + Reverse(Due(client, tick)))
  {
    var ks, cs := Reverse(Due(kernel, tick)), Reverse(Due(client, tick));
    var s1 := Scheduled(s, kernel, client, tick);
    assert ks + [] == ks && cs + [] == cs;
    QuietDrainFrom(s1, KERNEL_CYCLIC, ks, Quiet, 0);
    var s2 := s1.Drain(KERNEL_CYCLIC, Quiet);
    QuietDrainFrom(s2, CLIENT_CYCLIC, cs, Quiet, 0);
    assert s2.Drain(CLIENT_CYCLIC, Quiet).queues == s.queues;
  }

  lemma {:induction false} DueCount(ts: seq<Task>, tick: nat, x: Task)
    requires Rated(ts) && x.rate > 0
    ensures multiset(Due(ts, tick))[x] == if tick % x.rate == 0 then multiset(ts)[x] else 0
  {
    if ts != [] {
      DueCount(ts[1..], tick, x);
      assert ts == [ts[0]] + ts[1..];
    }
  }

  /** The quotient grows by one exactly at the multiples. */
  lemma DivisionStep(n: nat, d: nat)
    requires n > 0 && d > 0
    ensures n / d - (n - 1) / d == if n % d == 0 then 1 else 0
  {
    var q, r := n / d, n % d;
    assert n == d * q + r;
    if r == 0 {
      assert d * q == d * (q - 1) + d;
      DivisionIsUnique(n - 1, d, q - 1, d - 1);
    } else {
      DivisionIsUnique(n - 1, d, q, r - 1);
    }
  }

  const TICK_MAX: uint32 := 0xffff_ffff

  /** The tick counter stands still once it is full. */
  function CountTick(c: uint32): uint32 {
    if TICK_MAX > c then c + 1 else c
  }

  function CounterAfter(c: uint32, n: nat): uint32 {
    Min(c + n, TICK_MAX)
  }

  lemma {:induction false} CounterSaturates(c: uint32, n: nat)
    ensures CounterAfter(c, n + 1) == CountTick(CounterAfter(c, n)) && CounterAfter(c, 0) == c
  {
  }

  /** n ticks from counter c, each followed by its dispatch. */
  function RunTicks(s: Os, kernel: seq<Task>, client: seq<Task>, c: uint32, n: nat): (r: Os)
    requires s.Valid() && Rated(kernel) && Rated(client)
    ensures r.Valid()
  {
    if n == 0 then s else Tick(RunTicks(s, kernel, client, c, n - 1), kernel, client, CounterAfter(c, n))
  }

  lemma LastTick(s: Os, kernel: seq<Task>, client: seq<Task>, c: uint32, n: nat, t: Os, tick: uint32)
    requires s.Valid() && Rated(kernel) && Rated(client) && n > 0
    requires t == RunTicks(s, kernel, client, c, n - 1) && tick == CountTick(CounterAfter(c, n - 1))
    ensures tick == CounterAfter(c, n) && Tick(t, kernel, client, tick) == RunTicks(s, kernel, client, c, n)
  {
  }

  function Slots(kernel: seq<Task>, client: seq<Task>, x: Task): nat {
    multiset(kernel)[x] + multiset(client)[x]
  }

  lemma TickCount(s: Os, kernel: seq<Task>, client: seq<Task>, tick: nat, x: Task)
    requires s.Valid() && Rated(kernel) && Rated(client) && x.rate > 0
    requires s.queues[KERNEL_CYCLIC] == [] && s.queues[CLIENT_CYCLIC] == []
    ensures var u := Tick(s, kernel, client, tick);
      && u == s.(ran := u.ran)
      && multiset(u.ran)[x] == multiset(s.ran)[x] + if tick % x.rate == 0 then Slots(kernel, client, x) else 0
  {
    QuietTickRunsDueTasks(s, kernel, client, tick);
    ReverseIsPermutation(Due(kernel, tick));
    ReverseIsPermutation(Due(client, tick));
    DueCount(kernel, tick, x);
    DueCount(client, tick, x);
  }

  /** k for each of n ticks from counter c at which r divides the counter. */
  function Hits(k: nat, r: nat, c: uint32, n: nat): nat
    requires r > 0
  {
    if n == 0 then 0 else Hits(k, r, c, n - 1) + if CounterAfter(c, n) % r == 0 then k else 0
  }

  /** Ticks that find the counter already full. */
  function Late(c: uint32, n: nat): nat {
    c + n - CounterAfter(c, n)
  }

  /** How often a rate is met: at its multiples while the counter runs, then always or never. */
  function Met(r: nat, c: uint32, n: nat): int
    requires r > 0
  {
    CounterAfter(c, n) / r - c / r + if TICK_MAX % r == 0 then Late(c, n) else 0
  }

  lemma MetInPlain(r: nat, c: uint32, n: nat)
    requires r > 0
    ensures c + n <= 0xffff_ffff ==> Met(r, c, n) == (c + n) / r - c / r
    ensures c + n > 0xffff_ffff ==>
      Met(r, c, n) == 0xffff_ffff / r - c / r + if 0xffff_ffff % r == 0 then c + n - 0xffff_ffff else 0
  {
  }

  lemma {:induction false} HitsCount(k: nat, r: nat, c: uint32, n: nat)
    requires r > 0
    ensures Hits(k, r, c, n) == k * Met(r, c, n)
  {
    if n > 0 {
      HitsCount(k, r, c, n - 1);
      if c + n <= TICK_MAX {
        DivisionStep(c + n, r);
      }
      AddOne(k, Met(r, c, n - 1));
    }
  }

  lemma {:induction false} TicksCount(s: Os, kernel: seq<Task>, client: seq<Task>, c: uint32, n: nat, x: Task)
    requires s.Valid() && Rated(kernel) && Rated(client) && x.rate > 0
    requires s.queues[KERNEL_CYCLIC] == [] && s.queues[CLIENT_CYCLIC] == []
    ensures var u := RunTicks(s, kernel, client, c, n);
      && u == s.(ran := u.ran)
      && multiset(u.ran)[x] == multiset(s.ran)[x] + Hits(Slots(kernel, client, x), x.rate, c, n)
  {
    if n > 0 {
      TicksCount(s, kernel, client, c, n - 1, x);
      TickCount(RunTicks(s, kernel, client, c, n - 1), kernel, client, CounterAfter(c, n), x);
    }
  }

  /** Over n ticks from counter c, a task of rate r runs, for each slot that holds it, as often as
      its rate is met: floor(b / r) - floor(c / r) times up to b, the counter at the end, and once
      full it runs on every tick if r divides 2^32 - 1, and otherwise never. Nothing else about the
      kernel changes. */
  lemma TasksRunAtTheirRate(s: Os, kernel: seq<Task>, client: seq<Task>, c: uint32, n: nat, x: Task)
    requires s.Valid() && Rated(kernel) && Rated(client) && x.rate > 0
    requires s.queues[KERNEL_CYCLIC] == [] && s.queues[CLIENT_CYCLIC] == []
    ensures RunTicks(s, kernel, client, c, n) == s.(ran := RunTicks(s, kernel, client, c, n).ran)
    ensures multiset(RunTicks(s, kernel, client, c, n).ran)[x]
         == multiset(s.ran)[x] + Slots(kernel, client, x) * Met(x.rate, c, n)
  {
    HitsCount(Slots(kernel, client, x), x.rate, c, n);
    TicksCount(s, kernel, client, c, n, x);
  }

  /** What a full counter adds, against what an unbounded one would. */
  lemma FullCounter(r: nat, late: nat)
    requires r > 0 && late > 0
    ensures (TICK_MAX + late) / r - TICK_MAX / r == (if TICK_MAX % r == 0 then late else 0)
       <==> r == 1 || (TICK_MAX % r != 0 && TICK_MAX % r + late < r)
  {
    var m := TICK_MAX % r;
    QuotientOfSum(TICK_MAX, late, r);
    if m == 0 && r > 1 {
      QuotientSmall(late, r);
    } else if m != 0 {
      QuotientZero(m + late, r);
    }
  }

  /** So the number of runs is that of the multiples of the rate among the ticks exactly while the
      counter is not full - or for rate 1, or until the first multiple after that, if 2^32 - 1 is
      none itself. */
  lemma RateKeptIff(r: nat, c: uint32, n: nat)
    requires r > 0
    ensures Met(r, c, n) == (c + n) / r - c / r
       <==> || c + n <= TICK_MAX
            || r == 1
            || (TICK_MAX % r != 0 && TICK_MAX % r + Late(c, n) < r)
  {
    if c + n > TICK_MAX {
      FullCounter(r, Late(c, n));
    }
  }

  /** A task of 20 ms never runs again once the counter is full; one of 5 ms runs on every tick. */
  lemma FullCounterStopsOrFloods(n: nat)
    ensures Met(20, TICK_MAX, n) == 0 && Met(5, TICK_MAX, n) == n
  {
  }

  // ---------- The client's cyclic window ----------

  /** The counters count what the pool was filled with. */
  ghost predicate Counted(s: Os) {
    && (forall r <- s.pool :: ForClients(r))
    && s.starts == |For(s.pool, CLIENT_START)|
    && s.cyclics == |For(s.pool, CLIENT_CYCLIC)|
    && s.terminates == |For(s.pool, CLIENT_TERMINATE)|
  }

  lemma AddKeepsCount(s: Os, r: Request)
    requires s.Valid() && Counted(s)
    ensures Counted(s.Add(r))
  {
    var pool := s.pool + [r];
    assert pool[..|pool| - 1] == s.pool;
    assert forall x <- pool :: x in s.pool || x == r;
  }

  lemma {:induction false} ForLengths(rs: seq<Request>)
    requires forall r <- rs :: ForClients(r)
    ensures |For(rs, CLIENT_START)| + |For(rs, CLIENT_CYCLIC)| + |For(rs, CLIENT_TERMINATE)| == |rs|
  {
    if rs != [] {
      assert ForClients(rs[|rs| - 1]);
      ForLengths(rs[..|rs| - 1]);
    }
  }

  ghost predicate FilledInOrder(rs: seq<Request>) {
    forall i, j :: 0 <= i < j < |rs| ==> rs[i].queue <= rs[j].queue
  }

  /** The window is exactly the cyclic slots. */
  ghost predicate WindowExact(rs: seq<Request>) {
    var n, m := |For(rs, CLIENT_START)|, |For(rs, CLIENT_CYCLIC)|;
    forall i :: 0 <= i < |rs| ==> (rs[i].queue == CLIENT_CYCLIC <==> n <= i < n + m)
  }

  /** Filled start, then cyclic, then terminate, it is. */
  lemma {:induction false} WindowIsCyclic(rs: seq<Request>)
    requires (forall r <- rs :: ForClients(r)) && FilledInOrder(rs)
    ensures WindowExact(rs)
  {
    if rs != [] {
      var front, last := rs[..|rs| - 1], rs[|rs| - 1];
      assert ForClients(last);
      WindowIsCyclic(front);
      ForLengths(front);
      forall r | r in front
        ensures r.queue <= last.queue && ForClients(r)
      {
        var i :| 0 <= i < |front| && front[i] == r;
        assert rs[i] == r;
      }
      if last.queue == CLIENT_START {
        NothingFor(front, CLIENT_CYCLIC);
      } else if last.queue == CLIENT_CYCLIC {
        NothingFor(front, CLIENT_TERMINATE);
      }
      assert forall i :: 0 <= i < |front| ==> rs[i] == front[i];
    }
  }

  /** A stretch of slots that are exactly the cyclic ones holds the cyclic tasks in their order. */
  lemma {:induction false} StretchOfCyclic(rs: seq<Request>, lo: nat, hi: nat)
    requires lo <= hi <= |rs|
    requires forall i :: 0 <= i < |rs| ==> (rs[i].queue == CLIENT_CYCLIC <==> lo <= i < hi)
    ensures For(rs, CLIENT_CYCLIC) == seq(hi - lo, i requires 0 <= i < hi - lo => rs[lo + i].task)
  {
    if rs != [] {
      var n := |rs| - 1;
      StretchOfCyclic(rs[..n], Min(lo, n), Min(hi, n));
    }
  }

  /** The cyclic slots are those from p to q, and as many terminate slots are before them as start
      slots behind. */
  ghost predicate Balanced(rs: seq<Request>, p: nat, q: nat) {
    && p < q <= |rs|
    && (forall i :: 0 <= i < |rs| ==> (rs[i].queue == CLIENT_CYCLIC <==> p <= i < q))
    && |For(rs[..p], CLIENT_TERMINATE)| == |For(rs[q..], CLIENT_START)|
  }

  lemma AroundTheCyclic(rs: seq<Request>, p: nat, q: nat)
    requires (forall r <- rs :: ForClients(r)) && p < q <= |rs|
    requires forall i :: 0 <= i < |rs| ==> (rs[i].queue == CLIENT_CYCLIC <==> p <= i < q)
    ensures |For(rs, CLIENT_CYCLIC)| == q - p
    ensures |For(rs, CLIENT_START)| == p - |For(rs[..p], CLIENT_TERMINATE)| + |For(rs[q..], CLIENT_START)|
  {
    var a, b, c := rs[..p], rs[p..q], rs[q..];
    assert rs == a + (b + c);
    ForConcat(a, b + c, CLIENT_START);
    ForConcat(b, c, CLIENT_START);
    NothingFor(a, CLIENT_CYCLIC);
    NothingFor(b, CLIENT_START);
    ForLengths(a);
    StretchOfCyclic(rs, p, q);
  }

  /** Whatever the pool was filled with, the window is exact exactly if there is no cyclic task, or
      the cyclic slots are contiguous with as many terminate slots before as start slots behind. */
  lemma WindowIsCyclicIff(rs: seq<Request>)
    requires forall r <- rs :: ForClients(r)
    ensures WindowExact(rs) <==>
      || (forall i :: 0 <= i < |rs| ==> rs[i].queue != CLIENT_CYCLIC)
      || exists p, q :: Balanced(rs, p, q)
  {
    var n, m := |For(rs, CLIENT_START)|, |For(rs, CLIENT_CYCLIC)|;
    ForLengths(rs);
    if forall i :: 0 <= i < |rs| ==> rs[i].queue != CLIENT_CYCLIC {
      NothingFor(rs, CLIENT_CYCLIC);
    } else {
      if WindowExact(rs) {
        var i :| 0 <= i < |rs| && rs[i].queue == CLIENT_CYCLIC;
        AroundTheCyclic(rs, n, n + m);
        assert Balanced(rs, n, n + m);
      }
      forall p, q | Balanced(rs, p, q)
        ensures WindowExact(rs)
      {
        AroundTheCyclic(rs, p, q);
      }
    }
  }

  /** A start or a terminate task too many shifts the window by a slot. */
  lemma WindowMissesTheCyclic(s: Task, c: Task, t: Task)
    ensures !WindowExact([Request(CLIENT_CYCLIC, c), Request(CLIENT_START, s)])
    ensures !WindowExact([Request(CLIENT_TERMINATE, t), Request(CLIENT_CYCLIC, c)])
    ensures WindowExact([Request(CLIENT_TERMINATE, t), Request(CLIENT_CYCLIC, c), Request(CLIENT_START, s)])
  {
    var a := [Request(CLIENT_CYCLIC, c), Request(CLIENT_START, s)];
    var b := [Request(CLIENT_TERMINATE, t), Request(CLIENT_CYCLIC, c)];
    var d := [Request(CLIENT_TERMINATE, t), Request(CLIENT_CYCLIC, c), Request(CLIENT_START, s)];
    ForTwo(a, CLIENT_START);
    ForTwo(a, CLIENT_CYCLIC);
    ForTwo(b, CLIENT_START);
    ForTwo(b, CLIENT_CYCLIC);
    assert d[..2] == b && d[1].queue == CLIENT_CYCLIC;
    assert a[0].queue == CLIENT_CYCLIC && a[1].queue == CLIENT_START && b[1].queue == CLIENT_CYCLIC;
  }

  lemma ForTwo(rs: seq<Request>, q: nat)
    requires |rs| == 2
    ensures For(rs, q) == (if rs[0].queue == q then [rs[0].task] else [])
                        + (if rs[1].queue == q then [rs[1].task] else [])
  {
    assert rs[..1] == [rs[0]] && rs[..1][..0] == [];
    assert For(rs[..1], q) == if rs[0].queue == q then [rs[0].task] else [];
  }

  // ---------- The counters over drains ----------

  lemma {:induction false} AddAllKeepsCount(s: Os, rs: seq<Request>)
    requires s.Valid() && Counted(s)
    ensures Counted(s.AddAll(rs))
    decreases rs
  {
    if rs != [] {
      AddKeepsCount(s, rs[0]);
      AddAllKeepsCount(s.Add(rs[0]), rs[1..]);
    }
  }

  lemma {:induction false} DrainFromKeepsCount(s: Os, q: nat, todo: seq<Task>, effects: Effects, k: nat)
    requires s.Valid() && q < QUEUE_COUNT && Counted(s)
    ensures Counted(s.DrainFrom(q, todo, effects, k))
    decreases todo
  {
    if todo != [] {
      AddAllKeepsCount(s.(ran := s.ran + [todo[0]]), effects(k));
      DrainFromKeepsCount(s.RunFirst(q, todo, effects(k)), q, todo[1..], effects, k + 1);
    }
  }

  /** Whatever the tasks ask for during a drain. */
  lemma DrainKeepsCount(s: Os, q: nat, effects: Effects)
    requires s.Valid() && q < QUEUE_COUNT && Counted(s)
    ensures Counted(s.Drain(q, effects))
  {
    DrainFromKeepsCount(s, q, s.queues[q], effects, 0);
  }

  /** A dispatch leaves both cyclic queues drained. */
  lemma DispatchRests(s: Os, ke: Effects, ce: Effects)
    requires s.Valid()
    ensures var u := s.Drain(KERNEL_CYCLIC, ke).Drain(CLIENT_CYCLIC, ce);
      u.queues[KERNEL_CYCLIC] == [] && u.queues[CLIENT_CYCLIC] == []
  {
    var m := s.Drain(KERNEL_CYCLIC, ke);
    DrainRuns(s, KERNEL_CYCLIC, ke);
    DrainRuns(m, CLIENT_CYCLIC, ce);
    NothingFor(m.Drain(CLIENT_CYCLIC, ce).pool[|m.pool|..], KERNEL_CYCLIC);
  }

  lemma TickKeepsCount(s: Os, kernel: seq<Task>, client: seq<Task>, tick: nat, ke: Effects, ce: Effects)
    requires s.Valid() && Counted(s) && Rated(kernel) && Rated(client)
    ensures Counted(TickWith(s, kernel, client, tick, ke, ce))
  {
    var t := Scheduled(s, kernel, client, tick);
    DrainKeepsCount(t, KERNEL_CYCLIC, ke);
    DrainKeepsCount(t.Drain(KERNEL_CYCLIC, ke), CLIENT_CYCLIC, ce);
  }

  /** And over start-up and the first dispatch. */
  lemma BootKeepsCount(s: Os, sorted: seq<Task>, ke: Effects, ce: Effects, de: Effects, fe: Effects)
    requires s.Valid() && Counted(s)
    ensures Counted(Boot(s, sorted, ke, ce).Drain(KERNEL_CYCLIC, de).Drain(CLIENT_CYCLIC, fe))
  {
    var t := s.(queues := s.queues[KERNEL_START := sorted]);
    DrainKeepsCount(t, KERNEL_START, ke);
    DrainKeepsCount(t.Drain(KERNEL_START, ke), CLIENT_START, ce);
    var u := Boot(s, sorted, ke, ce);
    DrainKeepsCount(u, KERNEL_CYCLIC, de);
    DrainKeepsCount(u.Drain(KERNEL_CYCLIC, de), CLIENT_CYCLIC, fe);
  }
}
