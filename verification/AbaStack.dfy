/** The lock-free stack of examples/aba.c as a step system.

    Any number of threads run `tester`.  Every access to shared memory is a step
    of its own: the load of `list`, the read or write of `elem->next`, the
    increment of `elem->count`, `malloc`, and each compare-exchange, which may
    also fail spuriously.  The last four fields of a state are history: the number
    of successful exchanges, what an ideal stack would hold (top last), where each
    node is, and the order of allocation.  No step reads them. */
module AbaStack {
  import opened AbaWord

  type Addr = nat

  datatype Node = Node(next: Addr, count: nat)

  /** Where a thread is in `tester`; `i` is its loop counter.  `seen` is the value
      of `version` when `tip` was loaded. */
  datatype Thread =
    | PopLoad(i: nat)
    | PopTest(i: nat, tip: Word, seen: nat)
    | PopSwap(i: nat, tip: Word, seen: nat, next: Addr)
    | Bump(i: nat, elem: Addr)
    | PushLoad(i: nat, elem: Addr, bumped: bool)
    | PushLink(i: nat, elem: Addr, bumped: bool, tip: Word, seen: nat)
    | PushSwap(i: nat, elem: Addr, bumped: bool, tip: Word, seen: nat)
    | Done

  datatype State = State(
    list: Word, nodes: map<Addr, Node>, threads: seq<Thread>, fault: bool,
    version: nat, stack: seq<Addr>, place: map<Addr, Place>, order: seq<Addr>)

  datatype Place = InStack(k: nat) | HeldBy(t: nat)

  /** The scheduler's move: which thread runs, whether a matching exchange is let
      through, and what `malloc` would return. */
  datatype Move = Move(thread: nat, through: bool, block: Addr)

  function Stamp(w: Word, p: Addr): Word {
    Word(p, (w.tag + 1) % 4096)
  }

  /** The tag after `n` successful exchanges. */
  function TagAt(n: nat): nat {
    if n == 0 then 0 else (TagAt(n - 1) + 1) % 4096
  }

  lemma {:induction false} TagWraps(n: nat)
    ensures TagAt(n) == n % 4096
  {
    if n > 0 {
      TagWraps(n - 1);
      NextResidue(n - 1);
    }
  }

  lemma NextResidue(n: nat)
    ensures (n % 4096 + 1) % 4096 == (n + 1) % 4096
  {
  }

  function Begin(i: nat, iterations: nat): Thread {
    if i < iterations then PopLoad(i) else Done
  }

  function Exec(s: State, m: Move, iterations: nat): State
    requires m.thread < |s.threads|
  {
    match s.threads[m.thread]
    case PopLoad(i) => Goto(s, m.thread, PopTest(i, s.list, s.version))
    case PopTest(i, tip, seen) =>
      if tip.ptr == 0 then
        AfterMalloc(s, m.thread, i, m.block)
      else if tip.ptr in s.nodes then
        Goto(s, m.thread, PopSwap(i, tip, seen, s.nodes[tip.ptr].next))
      else s.(fault := true)
    case PopSwap(i, tip, seen, next) =>
      if m.through && s.list == tip then
        AfterPop(s, m.thread, next)
      else Goto(s, m.thread, PopTest(i, s.list, s.version))
    case Bump(i, elem) =>
      if elem in s.nodes then
        Write(s, m.thread, elem, Bumped(s.nodes[elem]), PushLoad(i, elem, true))
      else s.(fault := true)
    case PushLoad(i, elem, bumped) => Goto(s, m.thread, PushLink(i, elem, bumped, s.list, s.version))
    case PushLink(i, elem, bumped, tip, seen) =>
      if elem in s.nodes then
        Write(s, m.thread, elem, s.nodes[elem].(next := tip.ptr), PushSwap(i, elem, bumped, tip, seen))
      else s.(fault := true)
    case PushSwap(i, elem, bumped, tip, seen) =>
      if m.through && s.list == tip then
        AfterPush(s, m.thread, if bumped then Begin(i + 1, iterations) else PopLoad(i))
      else Goto(s, m.thread, PushLink(i, elem, bumped, s.list, s.version))
    case Done => s
  }

  function Popped(stack: seq<Addr>): seq<Addr> {
    if stack == [] then [] else stack[..|stack| - 1]
  }

  function Bumped(n: Node): Node {
    n.(count := n.count + 1)
  }

  function Goto(s: State, t: nat, pc: Thread): State
    requires t < |s.threads|
  {
    s.(threads := s.threads[t := pc])
  }

  function Write(s: State, t: nat, e: Addr, node: Node, pc: Thread): State
    requires t < |s.threads|
  {
    Goto(s.(nodes := s.nodes[e := node]), t, pc)
  }

  function AfterMalloc(s: State, t: nat, i: nat, block: Addr): State
    requires t < |s.threads|
  {
    Goto(s.(nodes := s.nodes[block := Node(0, 0)], place := s.place[block := HeldBy(t)], order := s.order + [block]),
         t, PushLoad(i, block, false))
  }

  /** The exchange of `pop`, which read `next` from the node it takes. */
  function AfterPop(s: State, t: nat, next: Addr): State
    requires t < |s.threads| && s.threads[t].PopSwap?
  {
    Goto(s.(list := Stamp(s.list, next), version := s.version + 1, stack := Popped(s.stack),
            place := s.place[s.list.ptr := HeldBy(t)]), t, Bump(s.threads[t].i, s.list.ptr))
  }

  /** The exchange of `push`. */
  function AfterPush(s: State, t: nat, pc: Thread): State
    requires t < |s.threads| && s.threads[t].PushSwap?
  {
    var e := s.threads[t].elem;
    Goto(s.(list := Stamp(s.list, e), version := s.version + 1, stack := s.stack + [e],
            place := s.place[e := InStack(|s.stack|)]), t, pc)
  }

  function Init(threads: nat, iterations: nat): State {
    State(Word(0, 0), map[], seq(threads, _ => Begin(0, iterations)), false, 0, [], map[], [])
  }

  /** `malloc` returns an unused, non-null address; and fewer than 4096 exchanges
      succeeded since a thread whose pop goes through loaded the list. */
  predicate Fair(s: State, m: Move) {
    && m.thread < |s.threads|
    && (s.threads[m.thread].PopTest? ==> m.block != 0 && m.block !in s.nodes)
    && (s.threads[m.thread].PopSwap? && m.through && s.list == s.threads[m.thread].tip ==> Timely(s, m.thread))
  }

  predicate Timely(s: State, t: nat)
    requires t < |s.threads| && s.threads[t].PopSwap?
  {
    s.version < s.threads[t].seen + 4096
  }

  predicate Run(s: State, ms: seq<Move>, iterations: nat, s': State)
    decreases |ms|
  {
    if ms == [] then s' == s
    else Fair(s, ms[0]) && Run(Exec(s, ms[0], iterations), ms[1..], iterations, s')
  }

  lemma {:induction false} RunJoin(s: State, ms: seq<Move>, r: State, ns: seq<Move>, q: State, iterations: nat)
    requires Run(s, ms, iterations, r) && Run(r, ns, iterations, q)
    ensures Run(s, ms + ns, iterations, q)
    decreases |ms|
  {
    if ms == [] {
      assert ms + ns == ns;
    } else {
      RunJoin(Exec(s, ms[0], iterations), ms[1..], r, ns, q, iterations);
      assert (ms + ns)[1..] == ms[1..] + ns;
    }
  }

  lemma OneMove(s: State, m: Move, iterations: nat)
    requires Fair(s, m)
    ensures Run(s, [m], iterations, Exec(s, m, iterations))
  {
    assert [m][1..] == [];
  }

  // ----- the invariant -----

  function Held(pc: Thread): Addr {
    match pc
    case Bump(_, e) => e
    case PushLoad(_, e, _) => e
    case PushLink(_, e, _, _, _) => e
    case PushSwap(_, e, _, _, _) => e
    case _ => 0
  }

  function Under(stack: seq<Addr>, k: nat): Addr
    requires k <= |stack|
  {
    if k > 0 then stack[k - 1] else 0
  }

  /** The links of memory spell out the stack. */
  ghost predicate Linked(nodes: map<Addr, Node>, stack: seq<Addr>) {
    forall k {:trigger nodes[stack[k]]} {:trigger Under(stack, k)} ::
      0 <= k < |stack| ==> stack[k] in nodes && nodes[stack[k]].next == Under(stack, k)
  }

  ghost predicate Chain(s: State) {
    && s.list.tag == TagAt(s.version) && s.list.ptr == Under(s.stack, |s.stack|)
    && Linked(s.nodes, s.stack)
  }

  /** Every allocated node has one place, in the stack or in one thread's hands. */
  ghost predicate Places(s: State) {
    && 0 !in s.nodes && s.place.Keys == s.nodes.Keys
    && (forall k :: 0 <= k < |s.stack| ==> s.stack[k] in s.place && s.place[s.stack[k]] == InStack(k))
    && (forall a :: a in s.place ==> Sited(s, a, s.place[a]))
  }

  ghost predicate Sited(s: State, a: Addr, p: Place) {
    match p
    case InStack(k) => k < |s.stack| && s.stack[k] == a
    case HeldBy(t) => t < |s.threads| && Held(s.threads[t]) == a
  }

  /** A loaded word is out of date, or the list has not moved since. */
  ghost predicate Loaded(s: State, tip: Word, seen: nat) {
    && seen <= s.version && tip.tag == TagAt(seen)
    && (tip.ptr != 0 ==> tip.ptr in s.nodes)
    && (seen == s.version ==> tip == s.list)
  }

  ghost predicate Holds(s: State, t: nat, e: Addr) {
    e != 0 && e in s.nodes && e in s.place && s.place[e] == HeldBy(t)
  }

  ghost predicate Current(s: State, t: nat, pc: Thread) {
    match pc
    case PopTest(_, tip, seen) => Loaded(s, tip, seen)
    case PopSwap(_, tip, seen, next) =>
      && Loaded(s, tip, seen) && tip.ptr != 0
      && (seen == s.version && s.stack != [] ==> next == Under(s.stack, |s.stack| - 1))
    case Bump(_, e) => Holds(s, t, e)
    case PushLoad(_, e, _) => Holds(s, t, e)
    case PushLink(_, e, _, tip, seen) => Holds(s, t, e) && Loaded(s, tip, seen)
    case PushSwap(_, e, _, tip, seen) => Holds(s, t, e) && Loaded(s, tip, seen) && s.nodes[e].next == tip.ptr
    case _ => true
  }

  ghost predicate AllCurrent(s: State) {
    forall t :: 0 <= t < |s.threads| ==> Current(s, t, s.threads[t])
  }

  ghost predicate Inv(s: State) {
    !s.fault && Chain(s) && Places(s) && AllCurrent(s)
  }

  lemma InitInv(threads: nat, iterations: nat)
    ensures Inv(Init(threads, iterations))
  {
  }

  /** An exchange sees a change unless a multiple of 4096 exchanges went by. */
  lemma ExchangeGoesThrough(s: State, tip: Word, seen: nat)
    requires Chain(s) && Loaded(s, tip, seen)
    ensures s.list == tip <==> s.list.ptr == tip.ptr && (s.version - seen) % 4096 == 0
    ensures s.list == tip && s.version < seen + 4096 ==> seen == s.version
  {
    TagWraps(s.version);
    TagWraps(seen);
    SameResidue(s.version, seen);
  }

  lemma SameResidue(n: nat, m: nat)
    requires m <= n
    ensures n % 4096 == m % 4096 <==> (n - m) % 4096 == 0
    ensures n % 4096 == m % 4096 && n < m + 4096 ==> n == m
  {
  }

  /** What a step of thread `t` leaves alone. */
  ghost predicate Respects(s: State, s': State, t: nat) {
    && |s'.threads| == |s.threads| && (forall u :: 0 <= u < |s.threads| && u != t ==> s'.threads[u] == s.threads[u])
    && s'.version >= s.version && (s'.version == s.version ==> s'.list == s.list && s'.stack == s.stack)
    && s.nodes.Keys <= s'.nodes.Keys
    && (forall u, e :: u != t && Holds(s, u, e) ==> Holds(s', u, e) && s'.nodes[e] == s.nodes[e])
  }

  lemma OthersCurrent(s: State, s': State, t: nat)
    requires AllCurrent(s) && Respects(s, s', t) && t < |s.threads| && Current(s', t, s'.threads[t])
    ensures AllCurrent(s')
  {
    forall u | 0 <= u < |s'.threads| ensures Current(s', u, s'.threads[u]) {
      if u != t {
        assert Current(s, u, s.threads[u]);
        assert Held(s.threads[u]) != 0 ==> Holds(s, u, Held(s.threads[u]));
      }
    }
  }

  /** Places survive when only the site of `a` changes. */
  lemma PlacesKept(s: State, s': State, t: nat, a: Addr)
    requires Places(s) && |s'.threads| == |s.threads| && t < |s.threads|
    requires forall u :: 0 <= u < |s.threads| && u != t ==> s'.threads[u] == s.threads[u]
    requires 0 !in s'.nodes && s'.place.Keys == s'.nodes.Keys
    requires forall k :: 0 <= k < |s'.stack| ==> s'.stack[k] in s'.place && s'.place[s'.stack[k]] == InStack(k)
    requires forall b :: b in s'.place && b != a ==> b in s.place && s'.place[b] == s.place[b]
    requires forall b :: b in s.place && b != a && s.place[b].InStack? ==>
      s.place[b].k < |s'.stack| && s'.stack[s.place[b].k] == b
    requires Held(s'.threads[t]) == Held(s.threads[t]) || Held(s.threads[t]) == 0 || Held(s.threads[t]) == a
    requires a in s'.place ==> Sited(s', a, s'.place[a])
    ensures Places(s')
  {
    forall b | b in s'.place ensures Sited(s', b, s'.place[b]) {
      if b != a { assert Sited(s, b, s.place[b]); }
    }
  }

  /** Steps that only move one thread's program counter. */
  lemma MoveOn(s: State, t: nat, pc: Thread)
    requires Inv(s) && t < |s.threads| && Held(pc) == Held(s.threads[t]) && Current(s, t, pc)
    ensures Inv(Goto(s, t, pc))
  {
    var s' := Goto(s, t, pc);
    PlacesKept(s, s', t, 0);
    OthersCurrent(s, s', t);
  }

  lemma MallocInv(s: State, t: nat, i: nat, block: Addr)
    requires Inv(s) && t < |s.threads| && Held(s.threads[t]) == 0 && block != 0 && block !in s.nodes
    ensures Inv(AfterMalloc(s, t, i, block))
  {
    var s' := AfterMalloc(s, t, i, block);
    PlacesKept(s, s', t, block);
    OthersCurrent(s, s', t);
  }

  /** Steps by which a thread writes the node it holds. */
  lemma WriteInv(s: State, t: nat, e: Addr, node: Node, pc: Thread)
    requires Inv(s) && t < |s.threads| && Held(s.threads[t]) == e && Held(pc) == e && Holds(s, t, e)
    requires Current(s.(nodes := s.nodes[e := node]), t, pc)
    ensures Inv(Write(s, t, e, node, pc))
  {
    var s' := Write(s, t, e, node, pc);
    PlacesKept(s, s', t, 0);
    OthersCurrent(s, s', t);
  }

  lemma LinkedPop(nodes: map<Addr, Node>, stack: seq<Addr>)
    requires Linked(nodes, stack) && stack != []
    ensures Linked(nodes, Popped(stack)) && Under(stack, |stack| - 1) == Under(Popped(stack), |stack| - 1)
  {
    var p := Popped(stack);
    forall k | 0 <= k < |p| ensures p[k] in nodes && nodes[p[k]].next == Under(p, k) {
      assert p[k] == stack[k] && Under(p, k) == Under(stack, k);
    }
  }

  lemma LinkedPush(nodes: map<Addr, Node>, stack: seq<Addr>, e: Addr)
    requires Linked(nodes, stack) && e in nodes && nodes[e].next == Under(stack, |stack|)
    ensures Linked(nodes, stack + [e])
  {
    var p := stack + [e];
    forall k | 0 <= k < |p| ensures p[k] in nodes && nodes[p[k]].next == Under(p, k) {
      assert Under(p, k) == Under(stack, k);
      if k < |stack| { assert p[k] == stack[k]; }
    }
  }

  /** A pop that goes through takes the top of the ideal stack and installs its
      true successor. */
  lemma PopExact(s: State, t: nat)
    requires t < |s.threads| && s.threads[t].PopSwap? && Chain(s) && Current(s, t, s.threads[t])
    requires Timely(s, t) && s.list == s.threads[t].tip
    ensures s.stack != [] && s.list.ptr == s.stack[|s.stack| - 1]
    ensures s.threads[t].next == Under(Popped(s.stack), |Popped(s.stack)|)
    ensures Chain(AfterPop(s, t, s.threads[t].next))
  {
    ExchangeGoesThrough(s, s.list, s.threads[t].seen);
    LinkedPop(s.nodes, s.stack);
  }

  lemma PopInv(s: State, t: nat)
    requires Inv(s) && t < |s.threads| && s.threads[t].PopSwap? && Timely(s, t) && s.list == s.threads[t].tip
    ensures Inv(AfterPop(s, t, s.threads[t].next))
  {
    PopExact(s, t);
    PopPlaces(s, t, s.threads[t].next);
    PopCurrent(s, t, s.threads[t].next);
  }

  lemma PopPlaces(s: State, t: nat, next: Addr)
    requires Places(s) && t < |s.threads| && s.threads[t].PopSwap?
    requires s.stack != [] && s.list.ptr == s.stack[|s.stack| - 1]
    ensures Places(AfterPop(s, t, next))
  {
    var s' := AfterPop(s, t, next);
    assert forall k :: 0 <= k < |s'.stack| ==> s'.stack[k] == s.stack[k];
    forall b | b in s.place && b != s.list.ptr && s.place[b].InStack?
      ensures s.place[b].k < |s'.stack| && s'.stack[s.place[b].k] == b
    {
      assert Sited(s, b, s.place[b]);
    }
    PlacesKept(s, s', t, s.list.ptr);
  }

  lemma PopCurrent(s: State, t: nat, next: Addr)
    requires AllCurrent(s) && Places(s) && t < |s.threads| && s.threads[t].PopSwap?
    requires s.stack != [] && s.list.ptr == s.stack[|s.stack| - 1]
    ensures AllCurrent(AfterPop(s, t, next))
  {
    OthersCurrent(s, AfterPop(s, t, next), t);
  }

  /** A push that goes through puts its node on top of the ideal stack; it needs no
      hypothesis on tags. */
  lemma PushExact(s: State, t: nat, pc: Thread)
    requires t < |s.threads| && s.threads[t].PushSwap? && Chain(s) && Current(s, t, s.threads[t])
    requires s.list == s.threads[t].tip
    ensures Chain(AfterPush(s, t, pc))
  {
    LinkedPush(s.nodes, s.stack, s.threads[t].elem);
  }

  lemma PushInv(s: State, t: nat, pc: Thread)
    requires Inv(s) && t < |s.threads| && s.threads[t].PushSwap? && s.list == s.threads[t].tip
    requires pc.PopLoad? || pc.Done?
    ensures Inv(AfterPush(s, t, pc))
  {
    PushExact(s, t, pc);
    var s' := AfterPush(s, t, pc);
    assert Current(s, t, s.threads[t]);
    assert forall k :: 0 <= k < |s.stack| ==> s'.stack[k] == s.stack[k];
    assert s'.stack[|s.stack|] == s.threads[t].elem;
    PlacesKept(s, s', t, s.threads[t].elem);
    OthersCurrent(s, s', t);
  }

  lemma PopStepInv(s: State, m: Move, iterations: nat)
    requires Inv(s) && Fair(s, m)
    requires var pc := s.threads[m.thread]; pc.PopLoad? || pc.PopTest? || pc.PopSwap?
    ensures Inv(Exec(s, m, iterations))
  {
    var t := m.thread;
    assert Current(s, t, s.threads[t]);
    match s.threads[t]
    case PopLoad(i) => MoveOn(s, t, PopTest(i, s.list, s.version));
    case PopTest(i, tip, seen) =>
      if tip.ptr == 0 {
        MallocInv(s, t, i, m.block);
      } else {
        MoveOn(s, t, PopSwap(i, tip, seen, s.nodes[tip.ptr].next));
      }
    case PopSwap(i, tip, seen, next) =>
      if m.through && s.list == tip {
        PopInv(s, t);
      } else {
        MoveOn(s, t, PopTest(i, s.list, s.version));
      }
  }

  lemma WriteStepInv(s: State, m: Move, iterations: nat)
    requires Inv(s) && m.thread < |s.threads| && (s.threads[m.thread].Bump? || s.threads[m.thread].PushLink?)
    ensures Inv(Exec(s, m, iterations))
  {
    var t, pc := m.thread, s.threads[m.thread];
    assert Current(s, t, pc);
    if pc.Bump? {
      WriteInv(s, t, pc.elem, Bumped(s.nodes[pc.elem]), PushLoad(pc.i, pc.elem, true));
    } else {
      WriteInv(s, t, pc.elem, s.nodes[pc.elem].(next := pc.tip.ptr),
               PushSwap(pc.i, pc.elem, pc.bumped, pc.tip, pc.seen));
    }
  }

  lemma PushThroughInv(s: State, m: Move, iterations: nat)
    requires Inv(s) && m.thread < |s.threads| && s.threads[m.thread].PushSwap?
    requires m.through && s.list == s.threads[m.thread].tip
    ensures Inv(Exec(s, m, iterations))
  {
    var pc := s.threads[m.thread];
    PushInv(s, m.thread, if pc.bumped then Begin(pc.i + 1, iterations) else PopLoad(pc.i));
  }

  lemma PushLoadInv(s: State, m: Move, iterations: nat)
    requires Inv(s) && m.thread < |s.threads| && (s.threads[m.thread].PushLoad? || s.threads[m.thread].PushSwap?)
    requires s.threads[m.thread].PushSwap? ==> !(m.through && s.list == s.threads[m.thread].tip)
    ensures Inv(Exec(s, m, iterations))
  {
    var t, pc := m.thread, s.threads[m.thread];
    assert Current(s, t, pc);
    MoveOn(s, t, PushLink(pc.i, pc.elem, pc.bumped, s.list, s.version));
  }

  lemma StepInv(s: State, m: Move, iterations: nat)
    requires Inv(s) && Fair(s, m)
    ensures Inv(Exec(s, m, iterations))
  {
    var pc := s.threads[m.thread];
    if pc.PopLoad? || pc.PopTest? || pc.PopSwap? {
      PopStepInv(s, m, iterations);
    } else if pc.Bump? || pc.PushLink? {
      WriteStepInv(s, m, iterations);
    } else if pc.PushSwap? && m.through && s.list == pc.tip {
      PushThroughInv(s, m, iterations);
    } else if !pc.Done? {
      PushLoadInv(s, m, iterations);
    }
  }

  /** In every interleaving the invariant holds throughout. */
  lemma {:induction false} RunInv(s: State, ms: seq<Move>, iterations: nat, s': State)
    requires Inv(s) && Run(s, ms, iterations, s')
    ensures Inv(s')
    decreases |ms|
  {
    if ms != [] {
      StepInv(s, ms[0], iterations);
      RunInv(Exec(s, ms[0], iterations), ms[1..], iterations, s');
    }
  }

  /** A node is in the stack once or held by exactly one thread, never both. */
  lemma OnePlace(s: State, a: Addr)
    requires Inv(s) && a in s.nodes
    ensures a in s.stack <==> !exists t :: 0 <= t < |s.threads| && Held(s.threads[t]) == a
    ensures forall j, k :: 0 <= j < |s.stack| && 0 <= k < |s.stack| && s.stack[j] == a && s.stack[k] == a ==> j == k
    ensures forall t, u :: 0 <= t < |s.threads| && 0 <= u < |s.threads| ==>
      Held(s.threads[t]) == a && Held(s.threads[u]) == a ==> t == u
  {
    assert Sited(s, a, s.place[a]);
    assert forall k :: 0 <= k < |s.stack| && s.stack[k] == a ==> s.place[a] == InStack(k);
    forall t | 0 <= t < |s.threads| && Held(s.threads[t]) == a ensures s.place[a] == HeldBy(t) {
      assert Current(s, t, s.threads[t]);
    }
  }
}
