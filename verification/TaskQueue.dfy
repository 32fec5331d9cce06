/** The intrusive task lists of the kernel: LIFO push, and the in-place priority sort. */
module TaskQueues {
  import opened Words

  /** What the kernel knows of a task; `entry` stands for its function pointer. */
  datatype Task = Task(entry: nat, priority: nat, rate: nat)

  /** A list node. The address of a head pointer is itself used as a node, because `next` is
      the first field, so a list is its head node followed by the queued ones. */
  class Node {
    const task: Task
    var next: Node?

    constructor (task: Task)
      ensures this.task == task && next == null
    {
      this.task := task;
      next := null;
    }
  }

  /** Distinct nodes linked in this order and ended by null. */
  ghost predicate Chain(s: seq<Node>)
    reads s
  {
    && s != []
    && Distinct(s)
    && (forall i {:trigger s[i].next} :: 0 <= i < |s| ==> s[i].next == Follower(s, i))
  }

  ghost predicate Distinct(s: seq<Node>) {
    forall i, j :: 0 <= i < j < |s| ==> s[i] != s[j]
  }

  ghost function Follower(s: seq<Node>, i: nat): Node? {
    if i + 1 < |s| then s[i + 1] else null
  }

  // ---------- Stable order ----------

  /** The nodes of one priority, in their order. */
  ghost function OfPriority(s: seq<Node>, p: nat): seq<Node> {
    if s == [] then []
    else (if s[0].task.priority == p then [s[0]] else []) + OfPriority(s[1..], p)
  }

  ghost predicate Ascending(s: seq<Node>) {
    forall i, j :: 0 <= i < j < |s| ==> s[i].task.priority <= s[j].task.priority
  }

  /** r is s by ascending priority, equal priorities in their original order. */
  ghost predicate StablySorted(s: seq<Node>, r: seq<Node>) {
    Ascending(r) && forall p :: OfPriority(r, p) == OfPriority(s, p)
  }

  lemma {:induction false} OfPriorityConcat(a: seq<Node>, b: seq<Node>, p: nat)
    ensures OfPriority(a + b, p) == OfPriority(a, p) + OfPriority(b, p)
  {
    if a == [] {
      assert a + b == b;
    } else {
      OfPriorityConcat(a[1..], b, p);
      assert (a + b)[0] == a[0] && (a + b)[1..] == a[1..] + b;
      Assoc(if a[0].task.priority == p then [a[0]] else [], OfPriority(a[1..], p), OfPriority(b, p));
    }
  }

  /** The sequence with the elements at k and k + 1 exchanged. */
  ghost function Swapped(s: seq<Node>, k: nat): (r: seq<Node>)
    requires k + 1 < |s|
    ensures |r| == |s|
  {
    s[k := s[k + 1]][k + 1 := s[k]]
  }

  lemma SwapKeepsPriorities(s: seq<Node>, k: nat, p: nat)
    requires k + 1 < |s| && s[k].task.priority != s[k + 1].task.priority
    ensures OfPriority(Swapped(s, k), p) == OfPriority(s, p)
  {
    var a, x, y, b := s[..k], s[k], s[k + 1], s[k + 2..];
    assert s == a + [x, y] + b && Swapped(s, k) == a + [y, x] + b;
    OfPriorityConcat(a + [x, y], b, p);
    OfPriorityConcat(a, [x, y], p);
    OfPriorityConcat(a + [y, x], b, p);
    OfPriorityConcat(a, [y, x], p);
    assert [x, y][1..] == [y] && [y, x][1..] == [x] && [x][1..] == [] && [y][1..] == [];
  }

  lemma {:induction false} OfPriorityCount(s: seq<Node>, n: Node)
    ensures multiset(s)[n] == multiset(OfPriority(s, n.task.priority))[n]
  {
    if s != [] {
      OfPriorityCount(s[1..], n);
      assert s == [s[0]] + s[1..];
    }
  }

  /** Stable order loses and adds no node. */
  lemma StablySortedIsPermutation(s: seq<Node>, r: seq<Node>)
    requires StablySorted(s, r)
    ensures multiset(r) == multiset(s)
  {
    forall n: Node
      ensures multiset(r)[n] == multiset(s)[n]
    {
      OfPriorityCount(r, n);
      OfPriorityCount(s, n);
      assert OfPriority(r, n.task.priority) == OfPriority(s, n.task.priority);
    }
  }

  lemma {:induction false} OfPriorityPresent(s: seq<Node>, p: nat) returns (i: nat)
    requires OfPriority(s, p) != []
    ensures i < |s| && s[i].task.priority == p
  {
    if s[0].task.priority == p {
      i := 0;
    } else {
      var k := OfPriorityPresent(s[1..], p);
      i := k + 1;
    }
  }

  lemma OfPriorityFirst(s: seq<Node>)
    requires s != []
    ensures OfPriority(s, s[0].task.priority) != [] && OfPriority(s, s[0].task.priority)[0] == s[0]
  {
  }

  lemma Chosen(s: seq<Node>, p: nat, i: nat) returns (a: nat)
    requires i < |s| && s[i].task.priority == p
    ensures a < |OfPriority(s, p)| && OfPriority(s, p)[a] == s[i]
  {
    OfPriorityConcat(s[..i], s[i..], p);
    assert s[..i] + s[i..] == s && s[i..][0] == s[i];
    OfPriorityFirst(s[i..]);
    a := |OfPriority(s[..i], p)|;
  }

  lemma {:induction false} Origin(s: seq<Node>, p: nat, a: nat) returns (i: nat)
    requires a < |OfPriority(s, p)|
    ensures i < |s| && s[i] == OfPriority(s, p)[a]
  {
    if s[0].task.priority == p && a == 0 {
      i := 0;
    } else {
      var k := Origin(s[1..], p, if s[0].task.priority == p then a - 1 else a);
      i := k + 1;
    }
  }

  lemma {:induction false} Origins(s: seq<Node>, p: nat, a: nat, b: nat) returns (i: nat, j: nat)
    requires a < b < |OfPriority(s, p)|
    ensures i < j < |s| && s[i] == OfPriority(s, p)[a] && s[j] == OfPriority(s, p)[b]
  {
    var skip := if s[0].task.priority == p then 1 else 0;
    if a < skip {
      var k := Origin(s[1..], p, b - 1);
      i, j := 0, k + 1;
    } else {
      var k, l := Origins(s[1..], p, a - skip, b - skip);
      i, j := k + 1, l + 1;
    }
  }

  /** Of two nodes of equal priority the one in front stays in front. */
  lemma StableOrderKeepsPairs(s: seq<Node>, r: seq<Node>, i: nat, j: nat) returns (k: nat, l: nat)
    requires StablySorted(s, r) && i < j < |s| && s[i].task.priority == s[j].task.priority
    ensures k < l < |r| && r[k] == s[i] && r[l] == s[j]
  {
    var p := s[i].task.priority;
    OfPriorityConcat(s[..j], s[j..], p);
    assert s[..j] + s[j..] == s && s[j..][0] == s[j] && s[..j][i] == s[i];
    var a := Chosen(s[..j], p, i);
    OfPriorityFirst(s[j..]);
    assert OfPriority(r, p) == OfPriority(s, p);
    k, l := Origins(r, p, a, |OfPriority(s[..j], p)|);
  }

  lemma FirstIsLeast(r: seq<Node>, q: seq<Node>)
    requires q != [] && Ascending(r)
    requires forall p :: OfPriority(r, p) == OfPriority(q, p)
    ensures r != [] && r[0].task.priority <= q[0].task.priority
  {
    var p := q[0].task.priority;
    OfPriorityFirst(q);
    assert OfPriority(r, p) == OfPriority(q, p);
    var i := OfPriorityPresent(r, p);
    assert r[0].task.priority <= r[i].task.priority;
  }

  /** There is only one stable order. */
  lemma {:induction false} StableOrderIsUnique(r: seq<Node>, q: seq<Node>)
    requires Ascending(r) && Ascending(q)
    requires forall p :: OfPriority(r, p) == OfPriority(q, p)
    ensures r == q
  {
    if q != [] {
      FirstIsLeast(r, q);
    }
    if r != [] {
      FirstIsLeast(q, r);
      OfPriorityFirst(r);
      OfPriorityFirst(q);
      forall p
        ensures OfPriority(r[1..], p) == OfPriority(q[1..], p)
      {
        assert OfPriority(r, p) == OfPriority(q, p);
        assert OfPriority(r[1..], p)
            == if r[0].task.priority == p then OfPriority(r, p)[1..] else OfPriority(r, p);
        assert OfPriority(q[1..], p)
            == if q[0].task.priority == p then OfPriority(q, p)[1..] else OfPriority(q, p);
      }
      StableOrderIsUnique(r[1..], q[1..]);
    }
  }

  // ---------- The list operations ----------

  /** queue_task: push in front. A node already queued would close a cycle. */
  method QueueTask(node: Node, list: Node, ghost c: seq<Node>)
    requires Chain(c) && c[0] == list && node !in c
    modifies node`next, list`next
    ensures Chain([list, node] + c[1..])
  {
    node.next := list.next;
    list.next := node;
    ghost var d := [list, node] + c[1..];
    PushKeepsDistinct(c, node);
    forall i | 2 <= i < |d|
      ensures d[i].next == Follower(d, i)
    {
      assert d[i] == c[i - 1] && d[i] != list && d[i] != node;
    }
  }

  lemma PushKeepsDistinct(c: seq<Node>, node: Node)
    requires c != [] && Distinct(c) && node !in c
    ensures Distinct([c[0], node] + c[1..])
  {
  }

  lemma SwapKeepsDistinct(c: seq<Node>, k: nat)
    requires k + 1 < |c| && Distinct(c)
    ensures Distinct(Swapped(c, k))
  {
  }

  /** The three pointer writes that exchange the nodes after c[j]. For j == 0 the source writes
      the head pointer itself, which is the `next` of the head node. */
  method Relink(node1: Node, node2: Node, node3: Node, ghost c: seq<Node>, ghost j: nat)
    requires Chain(c) && j + 2 < |c|
    requires node1 == c[j] && node2 == c[j + 1] && node3 == c[j + 2]
    modifies node1`next, node2`next, node3`next
    ensures Chain(Swapped(c, j + 1))
  {
    node2.next := node3.next;
    node3.next := node2;
    node1.next := node3;
    SwapKeepsDistinct(c, j + 1);
    ghost var d := Swapped(c, j + 1);
    assert forall i :: 0 <= i < |d| && i != j && i != j + 1 && i != j + 2 ==>
      d[i] == c[i] && c[i] != node1 && c[i] != node2 && c[i] != node3;
  }

  /** Inside a bubble pass: from position `sorted` on the order is final, and the node at j + 1
      is the largest so far. Position 0 is the list head, which takes no part. */
  ghost predicate Bubbling(c: seq<Node>, d: seq<Node>, sorted: nat, j: nat) {
    && 1 < |d| == |c| && d[0] == c[0]
    && (forall p :: OfPriority(d[1..], p) == OfPriority(c[1..], p))
    && j + 1 < sorted <= |d|
    && (forall a, b :: 1 <= a < b < |d| && sorted <= b ==> d[a].task.priority <= d[b].task.priority)
    && (forall a :: 1 <= a <= j ==> d[a].task.priority <= d[j + 1].task.priority)
  }

  lemma BubbleSwap(c: seq<Node>, d: seq<Node>, sorted: nat, j: nat)
    requires Bubbling(c, d, sorted, j) && j + 2 < sorted
    requires d[j + 1].task.priority > d[j + 2].task.priority
    ensures Bubbling(c, Swapped(d, j + 1), sorted, j + 1)
  {
    var e := Swapped(d, j + 1);
    assert e[1..] == Swapped(d[1..], j);
    forall p
      ensures OfPriority(e[1..], p) == OfPriority(c[1..], p)
    {
      SwapKeepsPriorities(d[1..], j, p);
    }
  }

  lemma BubbleOn(c: seq<Node>, d: seq<Node>, sorted: nat, j: nat)
    requires Bubbling(c, d, sorted, j) && j + 2 < sorted
    requires d[j + 1].task.priority <= d[j + 2].task.priority
    ensures Bubbling(c, d, sorted, j + 1)
  {
  }

  /** At the end of a pass the largest node has joined the final ones. */
  lemma PassDone(c: seq<Node>, d: seq<Node>, steps: nat)
    requires Bubbling(c, d, steps + 2, steps) && steps > 0
    ensures Bubbling(c, d, steps + 1, 0)
  {
  }

  ghost predicate Among(d: seq<Node>, nodes: set<Node>) {
    forall k :: 0 <= k < |d| ==> d[k] in nodes
  }

  /** One comparison: exchange the two nodes or step over the smaller one. */
  method BubbleStep(n1: Node, n2: Node, n3: Node, ghost c: seq<Node>, ghost d0: seq<Node>,
                    ghost sorted: nat, ghost j: nat, ghost nodes: set<Node>)
    returns (node1: Node, node2: Node, node3: Node?, ghost d: seq<Node>)
    requires Chain(d0) && Bubbling(c, d0, sorted, j) && j + 2 < sorted && Among(d0, nodes)
    requires n1 == d0[j] && n2 == d0[j + 1] && n3 == d0[j + 2]
    modifies nodes`next
    ensures Chain(d) && Bubbling(c, d, sorted, j + 1) && Among(d, nodes)
    ensures node1 == d[j + 1] && node2 == d[j + 2] && node3 == Follower(d, j + 2)
  {
    if n2.task.priority > n3.task.priority {
      Relink(n1, n2, n3, d0, j);
      BubbleSwap(c, d0, sorted, j);
      d := Swapped(d0, j + 1);
      node1, node2 := n3, n2;
      node3 := node2.next;
    } else {
      BubbleOn(c, d0, sorted, j);
      d := d0;
      node1, node2 := n2, n3;
      node3 := n3.next;
    }
  }

  /** The inner loop: carries the largest of the unsorted nodes to their end. */
  method BubblePass(list: Node, steps: nat, ghost c: seq<Node>, ghost d0: seq<Node>, ghost nodes: set<Node>)
    returns (ghost d: seq<Node>)
    requires 0 < steps && Chain(d0) && Bubbling(c, d0, steps + 2, 0) && d0[0] == list
    requires Among(d0, nodes)
    modifies nodes`next
    ensures Chain(d) && Bubbling(c, d, steps + 1, 0)
    ensures Among(d, nodes)
  {
    d := d0;
    var node1 := list;
    var node2 := node1.next;
    var node3 := node2.next;
    for j := 0 to steps
      invariant Chain(d) && Bubbling(c, d, steps + 2, j) && Among(d, nodes)
      invariant node1 == d[j] && node2 == d[j + 1] && node3 == Follower(d, j + 1)
    {
      node1, node2, node3, d := BubbleStep(node1, node2, node3, c, d, steps + 2, j, nodes);
    }
    PassDone(c, d, steps);
  }

  /** OS_vPrioritiseQueue, on a list of at least one node and at most 65535, because the source
      counts them in 16 bits. Every node it reads through exists. */
  method PrioritiseQueue(list: Node, ghost c: seq<Node>, ghost nodes: set<Node>) returns (ghost d: seq<Node>)
    requires Chain(c) && c[0] == list && 1 < |c| <= 0x1_0000
    requires Among(c, nodes)
    modifies nodes`next
    ensures Chain(d) && d[0] == list && StablySorted(c[1..], d[1..])
    ensures Among(d, nodes)
  {
    var node1 := list.next;
    var count := 1;
    while node1.next != null
      invariant 1 <= count < |c| && node1 == c[count]
      decreases |c| - count
    {
      count := count + 1;
      node1 := node1.next;
    }
    d := c;
    for i := 0 to count - 1
      invariant Chain(d) && Bubbling(c, d, count + 1 - i, 0)
      invariant Among(d, nodes)
    {
      d := BubblePass(list, count - i - 1, c, d, nodes);
    }
  }
}
