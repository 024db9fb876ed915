/** Conservation in examples/aba.c: no increment and no node is ever lost. */
module AbaCount {
  import opened AbaWord
  import opened AbaStack

  function Sum(nodes: map<Addr, Node>, order: seq<Addr>): nat {
    if order == [] then 0
    else Count(nodes, order[|order| - 1]) + Sum(nodes, order[..|order| - 1])
  }

  function Count(nodes: map<Addr, Node>, a: Addr): nat {
    if a in nodes then nodes[a].count else 0
  }

  /** Increments a thread has performed. */
  function Bumps(pc: Thread, iterations: nat): nat {
    match pc
    case PushLoad(i, _, b) => if b then i + 1 else i
    case PushLink(i, _, b, _, _) => if b then i + 1 else i
    case PushSwap(i, _, b, _, _) => if b then i + 1 else i
    case Done => iterations
    case _ => pc.i
  }

  function Total(threads: seq<Thread>, iterations: nat): nat {
    if threads == [] then 0
    else Bumps(threads[|threads| - 1], iterations) + Total(threads[..|threads| - 1], iterations)
  }

  ghost predicate Distinct(a: seq<Addr>) {
    forall i, j :: 0 <= i < j < |a| ==> a[i] != a[j]
  }

  /** Every allocated node is listed once, and the counts add up to the increments. */
  ghost predicate Balanced(s: State, iterations: nat) {
    && Distinct(s.order) && (forall a :: a in s.nodes <==> a in s.order)
    && (forall t :: 0 <= t < |s.threads| && !s.threads[t].Done? ==> s.threads[t].i < iterations)
    && Sum(s.nodes, s.order) == Total(s.threads, iterations)
  }

  lemma {:induction false} TotalSet(threads: seq<Thread>, t: nat, pc: Thread, iterations: nat)
    requires t < |threads|
    ensures Total(threads[t := pc], iterations) + Bumps(threads[t], iterations)
         == Total(threads, iterations) + Bumps(pc, iterations)
  {
    var n := |threads| - 1;
    if t < n {
      TotalSet(threads[..n], t, pc, iterations);
      assert threads[t := pc][..n] == threads[..n][t := pc];
    } else {
      assert threads[t := pc][..n] == threads[..n];
    }
  }

  lemma {:induction false} SumSame(nodes: map<Addr, Node>, nodes': map<Addr, Node>, order: seq<Addr>)
    requires forall a :: a in order ==> Count(nodes', a) == Count(nodes, a)
    ensures Sum(nodes', order) == Sum(nodes, order)
  {
    if order != [] { SumSame(nodes, nodes', order[..|order| - 1]); }
  }

  lemma {:induction false} SumSet(nodes: map<Addr, Node>, order: seq<Addr>, e: Addr, node: Node)
    requires Distinct(order) && e in order
    ensures Sum(nodes[e := node], order) + Count(nodes, e) == Sum(nodes, order) + node.count
  {
    var n := |order| - 1;
    if order[n] == e {
      SumSame(nodes, nodes[e := node], order[..n]);
    } else {
      SumSet(nodes, order[..n], e, node);
    }
  }

  lemma InitBalanced(threads: nat, iterations: nat)
    ensures Balanced(Init(threads, iterations), iterations)
  {
    TotalInit(threads, iterations);
  }

  lemma {:induction false} TotalInit(threads: nat, iterations: nat)
    ensures Total(seq(threads, _ => Begin(0, iterations)), iterations) == 0
  {
    if threads > 0 {
      TotalInit(threads - 1, iterations);
      assert seq(threads, _ => Begin(0, iterations))[..threads - 1] == seq(threads - 1, _ => Begin(0, iterations));
    }
  }

  /** Moves of one thread that leave the nodes alone. */
  lemma MoveBalanced(s: State, s': State, t: nat, pc: Thread, iterations: nat)
    requires Balanced(s, iterations) && t < |s.threads| && s'.threads == s.threads[t := pc]
    requires s'.nodes == s.nodes && s'.order == s.order
    requires Bumps(pc, iterations) == Bumps(s.threads[t], iterations) && (!pc.Done? ==> pc.i < iterations)
    ensures Balanced(s', iterations)
  {
    TotalSet(s.threads, t, pc, iterations);
  }

  /** A held node is written: its count and its thread's increments grow alike. */
  lemma WriteBalanced(s: State, t: nat, e: Addr, node: Node, pc: Thread, iterations: nat)
    requires Balanced(s, iterations) && t < |s.threads| && e in s.nodes && !pc.Done? && pc.i < iterations
    requires Bumps(pc, iterations) + s.nodes[e].count == Bumps(s.threads[t], iterations) + node.count
    ensures Balanced(Write(s, t, e, node, pc), iterations)
  {
    TotalSet(s.threads, t, pc, iterations);
    SumSet(s.nodes, s.order, e, node);
  }

  lemma MallocBalanced(s: State, t: nat, i: nat, block: Addr, iterations: nat)
    requires Balanced(s, iterations) && t < |s.threads| && s.threads[t].PopTest? && s.threads[t].i == i
    requires block !in s.nodes
    ensures Balanced(AfterMalloc(s, t, i, block), iterations)
  {
    var s', pc := AfterMalloc(s, t, i, block), PushLoad(i, block, false);
    TotalSet(s.threads, t, pc, iterations);
    SumNew(s.nodes, s.order, block);
    assert s'.nodes == s.nodes[block := Node(0, 0)] && s'.order == s.order + [block];
    assert s'.threads == s.threads[t := pc];
    Renewed(s, s', t, pc, iterations);
  }

  /** The parts of `Balanced` make the whole. */
  lemma Renewed(s: State, s': State, t: nat, pc: Thread, iterations: nat)
    requires t < |s.threads| && s'.threads == s.threads[t := pc] && !pc.Done? && pc.i < iterations
    requires forall u :: 0 <= u < |s.threads| && !s.threads[u].Done? ==> s.threads[u].i < iterations
    requires Distinct(s'.order) && forall a :: a in s'.nodes <==> a in s'.order
    requires Sum(s'.nodes, s'.order) == Total(s'.threads, iterations)
    ensures Balanced(s', iterations)
  {
  }

  lemma SumNew(nodes: map<Addr, Node>, order: seq<Addr>, block: Addr)
    requires block !in nodes && Distinct(order) && forall a :: a in nodes <==> a in order
    ensures var nodes', order' := nodes[block := Node(0, 0)], order + [block];
      Sum(nodes', order') == Sum(nodes, order) && Distinct(order') && forall a :: a in nodes' <==> a in order'
  {
    SumSame(nodes, nodes[block := Node(0, 0)], order);
    assert (order + [block])[..|order|] == order;
  }

  lemma StepBalanced(s: State, m: Move, iterations: nat)
    requires m.thread < |s.threads| && Current(s, m.thread, s.threads[m.thread]) && Fair(s, m)
    requires Balanced(s, iterations)
    ensures Balanced(Exec(s, m, iterations), iterations)
  {
    var t, s' := m.thread, Exec(s, m, iterations);
    match s.threads[t]
    case PopTest(i, tip, _) =>
      if tip.ptr == 0 {
        MallocBalanced(s, t, i, m.block, iterations);
      } else {
        MoveBalanced(s, s', t, s'.threads[t], iterations);
      }
    case Bump(i, e) => WriteBalanced(s, t, e, Bumped(s.nodes[e]), PushLoad(i, e, true), iterations);
    case PushLink(i, e, b, tip, seen) =>
      WriteBalanced(s, t, e, s.nodes[e].(next := tip.ptr), PushSwap(i, e, b, tip, seen), iterations);
    case Done =>
    case _ => MoveBalanced(s, s', t, s'.threads[t], iterations);
  }

  lemma {:induction false} RunBalanced(s: State, ms: seq<Move>, iterations: nat, s': State)
    requires Inv(s) && Balanced(s, iterations) && Run(s, ms, iterations, s')
    ensures Inv(s') && Balanced(s', iterations) && |s'.threads| == |s.threads|
    decreases |ms|
  {
    if ms != [] {
      StepInv(s, ms[0], iterations);
      CurrentAt(s, ms[0].thread);
      StepBalanced(s, ms[0], iterations);
      RunBalanced(Exec(s, ms[0], iterations), ms[1..], iterations, s');
    }
  }

  lemma CurrentAt(s: State, t: nat)
    requires Inv(s) && t < |s.threads|
    ensures Current(s, t, s.threads[t])
  {
  }

  // ----- the end of the program -----

  ghost predicate AllDone(s: State) {
    forall t :: 0 <= t < |s.threads| ==> s.threads[t].Done?
  }

  lemma {:induction false} TotalDone(threads: seq<Thread>, iterations: nat)
    requires forall t :: 0 <= t < |threads| ==> threads[t].Done?
    ensures Total(threads, iterations) == iterations * |threads|
  {
    if threads != [] { TotalDone(threads[..|threads| - 1], iterations); }
  }

  lemma {:induction false} SumSplit(nodes: map<Addr, Node>, a: seq<Addr>, b: seq<Addr>)
    ensures Sum(nodes, a + b) == Sum(nodes, a) + Sum(nodes, b)
  {
    if b == [] {
      assert a + b == a;
    } else {
      assert (a + b)[..|a + b| - 1] == a + b[..|b| - 1];
      SumSplit(nodes, a, b[..|b| - 1]);
    }
  }

  lemma Cancel<T>(p: multiset<T>, q: multiset<T>, x: T)
    requires p + multiset{x} == q + multiset{x}
    ensures p == q
  {
    assert p == (p + multiset{x}) - multiset{x};
    assert q == (q + multiset{x}) - multiset{x};
  }

  /** The order of a list does not matter. */
  lemma {:induction false} SumReorder(nodes: map<Addr, Node>, a: seq<Addr>, b: seq<Addr>)
    requires multiset(a) == multiset(b)
    ensures Sum(nodes, a) == Sum(nodes, b)
    decreases |a|
  {
    assert |a| == |multiset(a)| == |multiset(b)| == |b|;
    if a != [] {
      var n, x := |a| - 1, a[|a| - 1];
      assert a == a[..n] + [x];
      assert x in multiset(a);
      assert x in multiset(b);
      var i :| 0 <= i < |b| && b[i] == x;
      assert b == b[..i] + [x] + b[i + 1..];
      assert multiset(a) == multiset(a[..n]) + multiset{x};
      assert multiset(b) == multiset(b[..i]) + multiset{x} + multiset(b[i + 1..]);
      assert multiset(b[..i] + b[i + 1..]) == multiset(b[..i]) + multiset(b[i + 1..]);
      Cancel(multiset(a[..n]), multiset(b[..i] + b[i + 1..]), x);
      SumReorder(nodes, a[..n], b[..i] + b[i + 1..]);
      SumSplit(nodes, b[..i], b[i + 1..]);
      SumSplit(nodes, b[..i], [x]);
      SumSplit(nodes, b[..i] + [x], b[i + 1..]);
      assert Sum(nodes, [x]) == Count(nodes, x) + Sum(nodes, []);
    }
  }

  lemma {:induction false} DistinctCount(a: seq<Addr>, x: Addr)
    requires Distinct(a)
    ensures multiset(a)[x] == if x in a then 1 else 0
  {
    if a != [] {
      var n := |a| - 1;
      assert a == a[..n] + [a[n]];
      DistinctCount(a[..n], x);
    }
  }

  lemma SameMembers(a: seq<Addr>, b: seq<Addr>)
    requires Distinct(a) && Distinct(b) && forall x :: x in a <==> x in b
    ensures multiset(a) == multiset(b)
  {
    forall x ensures multiset(a)[x] == multiset(b)[x] {
      DistinctCount(a, x);
      DistinctCount(b, x);
    }
  }

  /** When all threads are done, every node is back in the stack. */
  lemma AllInStack(s: State)
    requires Places(s) && AllDone(s)
    ensures Distinct(s.stack) && forall a :: a in s.nodes <==> a in s.stack
  {
    forall a | a in s.nodes ensures a in s.stack {
      assert a in s.place && Sited(s, a, s.place[a]);
    }
    forall a | a in s.stack ensures a in s.nodes {
      var k :| 0 <= k < |s.stack| && s.stack[k] == a;
    }
    forall i, j | 0 <= i < j < |s.stack| ensures s.stack[i] != s.stack[j] {
      assert s.place[s.stack[i]] == InStack(i) && s.place[s.stack[j]] == InStack(j);
    }
  }

  /** For any number of threads and any schedule, the counts in the stack at the
      end add up to the number of iterations times the number of threads. */
  lemma FinalSum(threads: nat, iterations: nat, ms: seq<Move>, s: State)
    requires Run(Init(threads, iterations), ms, iterations, s) && AllDone(s)
    ensures Inv(s) && Sum(s.nodes, s.stack) == iterations * threads
  {
    InitInv(threads, iterations);
    InitBalanced(threads, iterations);
    RunBalanced(Init(threads, iterations), ms, iterations, s);
    TotalDone(s.threads, iterations);
    AllInStack(s);
    SameMembers(s.stack, s.order);
    SumReorder(s.nodes, s.stack, s.order);
  }

  /** `left` is what remains of `nodes` once all but the lowest `k` of the stack are freed. */
  ghost predicate Remaining(nodes: map<Addr, Node>, stack: seq<Addr>, k: nat, left: map<Addr, Node>) {
    && k <= |stack| && (forall a :: a in left <==> a in stack[..k])
    && (forall a :: a in left ==> a in nodes && left[a] == nodes[a])
  }

  lemma RemainingStep(nodes: map<Addr, Node>, stack: seq<Addr>, k: nat, left: map<Addr, Node>)
    requires Remaining(nodes, stack, k, left) && k > 0 && Distinct(stack)
    ensures stack[k - 1] in left && left[stack[k - 1]] == nodes[stack[k - 1]]
    ensures Remaining(nodes, stack, k - 1, left - {stack[k - 1]})
    ensures Sum(nodes, stack[..k]) == nodes[stack[k - 1]].count + Sum(nodes, stack[..k - 1])
  {
    var x := stack[k - 1];
    assert stack[..k] == stack[..k - 1] + [x];
    assert x in stack[..k] && x !in stack[..k - 1];
    assert stack[..k][..k - 1] == stack[..k - 1];
  }

  /** The last loop of `main`: pops every node, adds up its count and frees it. */
  method Drain(list0: Word, nodes: map<Addr, Node>, ghost stack: seq<Addr>) returns (sum: nat, left: map<Addr, Node>)
    requires Linked(nodes, stack) && Distinct(stack) && 0 !in nodes && list0.ptr == Under(stack, |stack|)
    requires forall a :: a in nodes <==> a in stack
    ensures sum == Sum(nodes, stack) && left == map[]
  {
    var list := list0;
    left, sum := nodes, 0;
    ghost var k: nat := |stack|;
    assert stack[..k] == stack;
    while list.ptr != 0
      invariant Remaining(nodes, stack, k, left) && list.ptr == Under(stack, k)
      invariant sum + Sum(nodes, stack[..k]) == Sum(nodes, stack)
      decreases k
    {
      RemainingStep(nodes, stack, k, left);
      LinkAt(nodes, stack, k - 1);
      var elem := list.ptr;
      list := Stamp(list, left[elem].next);
      sum := sum + left[elem].count;
      left := left - {elem};
      k := k - 1;
    }
    assert left.Keys == {};
  }

  lemma LinkAt(nodes: map<Addr, Node>, stack: seq<Addr>, k: nat)
    requires Linked(nodes, stack) && k < |stack|
    ensures stack[k] in nodes && nodes[stack[k]].next == Under(stack, k)
  {
    assert Under(stack, k) == if k > 0 then stack[k - 1] else 0;
  }

  /** The whole program: what `main` asserts before it prints, and no leak. */
  method Tester(threads: nat, iterations: nat, ghost ms: seq<Move>, s: State) returns (sum: nat, left: map<Addr, Node>)
    requires Run(Init(threads, iterations), ms, iterations, s) && AllDone(s)
    ensures sum == iterations * threads && left == map[]
  {
    FinalSum(threads, iterations, ms, s);
    AllInStack(s);
    sum, left := Drain(s.list, s.nodes, s.stack);
  }
}
