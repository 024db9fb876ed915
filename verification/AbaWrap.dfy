/** The bound of 4096 exchanges is sharp: a run of the program in which the tag comes
    round.  Thread 0 is stopped between reading `next` and its exchange while the
    others empty and refill the list. */
module AbaWrap {
  import opened AbaWord
  import opened AbaStack

  // ----- what a thread does when it runs alone for a while -----

  /** It loads the list. */
  function Loads(s: State, t: nat): State
    requires t < |s.threads| && s.threads[t].PopLoad?
  {
    s.(threads := s.threads[t := PopTest(s.threads[t].i, s.list, s.version)])
  }

  /** It pops the top node. */
  function Pops(s: State, t: nat): State
    requires t < |s.threads| && s.threads[t].PopLoad? && s.list.ptr in s.nodes
  {
    s.(threads := s.threads[t := Bump(s.threads[t].i, s.list.ptr)],
       list := Stamp(s.list, s.nodes[s.list.ptr].next), version := s.version + 1,
       stack := Popped(s.stack), place := s.place[s.list.ptr := HeldBy(t)])
  }

  /** It pushes a node, with `pc` to follow. */
  function Pushes(s: State, t: nat, e: Addr, count: nat, pc: Thread): State
    requires t < |s.threads|
  {
    s.(threads := s.threads[t := pc], nodes := s.nodes[e := Node(s.list.ptr, count)],
       list := Stamp(s.list, e), version := s.version + 1,
       stack := s.stack + [e], place := s.place[e := InStack(|s.stack|)])
  }

  /** It loads and reads `next`, up to the exchange of `pop`. */
  lemma StallRun(s: State, t: nat, spare: Addr, iterations: nat) returns (ms: seq<Move>, r: State)
    requires t < |s.threads| && s.threads[t].PopLoad? && s.list.ptr != 0 && s.list.ptr in s.nodes
    requires spare != 0 && spare !in s.nodes
    ensures Run(s, ms, iterations, r)
    ensures r == s.(threads := s.threads[t := PopSwap(s.threads[t].i, s.list, s.version, s.nodes[s.list.ptr].next)])
  {
    var m := Move(t, true, spare);
    var s1 := Exec(s, m, iterations);
    r := Exec(s1, m, iterations);
    ms := [m] + [m];
    OneMove(s, m, iterations);
    OneMove(s1, m, iterations);
    RunJoin(s, [m], s1, [m], r, iterations);
    assert r.threads == s.threads[t := PopSwap(s.threads[t].i, s.list, s.version, s.nodes[s.list.ptr].next)];
  }

  lemma PopRun(s: State, t: nat, spare: Addr, iterations: nat) returns (ms: seq<Move>, r: State)
    requires t < |s.threads| && s.threads[t].PopLoad? && s.list.ptr != 0 && s.list.ptr in s.nodes
    requires spare != 0 && spare !in s.nodes
    ensures Run(s, ms, iterations, r) && r == Pops(s, t)
  {
    var m := Move(t, true, spare);
    var ns, s1 := StallRun(s, t, spare, iterations);
    r := Exec(s1, m, iterations);
    ms := ns + [m];
    OneMove(s1, m, iterations);
    RunJoin(s, ns, s1, [m], r, iterations);
    assert r.threads == Pops(s, t).threads;
  }

  /** From the load in `push` through the exchange. */
  lemma PushTail(s: State, t: nat, iterations: nat) returns (ms: seq<Move>, r: State)
    requires t < |s.threads| && s.threads[t].PushLoad? && s.threads[t].elem in s.nodes
    ensures Run(s, ms, iterations, r)
    ensures var pc := s.threads[t];
      r == Pushes(s, t, pc.elem, s.nodes[pc.elem].count,
                  if pc.bumped then Begin(pc.i + 1, iterations) else PopLoad(pc.i))
  {
    var m := Move(t, true, 0);
    var s1 := Exec(s, m, iterations);
    var s2 := Exec(s1, m, iterations);
    r := Exec(s2, m, iterations);
    OneMove(s, m, iterations);
    OneMove(s1, m, iterations);
    OneMove(s2, m, iterations);
    RunJoin(s, [m], s1, [m], s2, iterations);
    RunJoin(s, [m] + [m], s2, [m], r, iterations);
    ms := [m] + [m] + [m];
    var pc := s.threads[t];
    assert r.threads == s.threads[t := if pc.bumped then Begin(pc.i + 1, iterations) else PopLoad(pc.i)];
  }

  /** A thread that holds a popped node counts and pushes it back. */
  lemma PushRun(s: State, t: nat, iterations: nat) returns (ms: seq<Move>, r: State)
    requires t < |s.threads| && s.threads[t].Bump? && s.threads[t].elem in s.nodes
    ensures Run(s, ms, iterations, r)
    ensures var pc := s.threads[t];
      r == Pushes(s, t, pc.elem, s.nodes[pc.elem].count + 1, Begin(pc.i + 1, iterations))
  {
    var m := Move(t, true, 0);
    var s1 := Exec(s, m, iterations);
    OneMove(s, m, iterations);
    var ns;
    ns, r := PushTail(s1, t, iterations);
    ms := [m] + ns;
    RunJoin(s, [m], s1, ns, r, iterations);
    var pc := s.threads[t];
    var want := Pushes(s, t, pc.elem, s.nodes[pc.elem].count + 1, Begin(pc.i + 1, iterations));
    assert r.threads == want.threads && r.nodes == want.nodes;
  }

  /** A thread that found the list empty allocates and pushes a node. */
  lemma AllocRun(s: State, t: nat, block: Addr, iterations: nat) returns (ms: seq<Move>, r: State)
    requires t < |s.threads| && s.threads[t].PopTest? && s.threads[t].tip.ptr == 0 && block != 0 && block !in s.nodes
    ensures Run(s, ms, iterations, r)
    ensures r == Pushes(s.(order := s.order + [block]), t, block, 0, PopLoad(s.threads[t].i))
  {
    var m := Move(t, true, block);
    var s1 := Exec(s, m, iterations);
    OneMove(s, m, iterations);
    var ns;
    ns, r := PushTail(s1, t, iterations);
    ms := [m] + ns;
    RunJoin(s, [m], s1, ns, r, iterations);
    var want := Pushes(s.(order := s.order + [block]), t, block, 0, PopLoad(s.threads[t].i));
    assert r.threads == want.threads && r.nodes == want.nodes && r.place == want.place;
  }

  lemma LoadRun(s: State, t: nat, iterations: nat)
    requires t < |s.threads| && s.threads[t].PopLoad?
    ensures Run(s, [Move(t, true, 0)], iterations, Loads(s, t))
  {
    OneMove(s, Move(t, true, 0), iterations);
  }

  // ----- the schedule -----

  /** The three nodes of the run. */
  const A: Addr := 16
  const B: Addr := 32
  const C: Addr := 48
  const SPARE: Addr := 64

  predicate AllLoading(s: State, threads: nat) {
    |s.threads| == threads && forall t :: 0 <= t < threads ==> s.threads[t] == PopLoad(0)
  }

  /** Threads 1 and 2 both find the list empty, and push A over B. */
  lemma Fills(threads: nat, iterations: nat) returns (ms: seq<Move>, r: State)
    requires threads >= 4 && iterations > 0
    ensures Run(Init(threads, iterations), ms, iterations, r) && AllLoading(r, threads) && r.version == 2
    ensures r.list.ptr == A && r.stack == [B, A] && r.nodes == map[B := Node(0, 0), A := Node(B, 0)]
  {
    var s := Init(threads, iterations);
    var s1 := Loads(s, 1);
    LoadRun(s, 1, iterations);
    var s2 := Loads(s1, 2);
    LoadRun(s1, 2, iterations);
    var ns, s3 := AllocRun(s2, 2, B, iterations);
    var ps;
    ps, r := AllocRun(s3, 1, A, iterations);
    RunJoin(s, [Move(1, true, 0)], s1, [Move(2, true, 0)], s2, iterations);
    RunJoin(s, [Move(1, true, 0)] + [Move(2, true, 0)], s2, ns, s3, iterations);
    ms := [Move(1, true, 0)] + [Move(2, true, 0)] + ns + ps;
    RunJoin(s, [Move(1, true, 0)] + [Move(2, true, 0)] + ns, s3, ps, r, iterations);
  }

  /** A is on top again, over a node that was not there when thread 0 looked. */
  predicate Refilled(s: State) {
    && s.list.ptr == A && s.stack == [C, A] && s.nodes.Keys == {A, B, C} && s.nodes[A].next == C
  }

  /** Thread 1 takes A and thread 2 takes B; thread 3 allocates C; thread 1 returns A. */
  lemma Swaps(s: State, iterations: nat) returns (ms: seq<Move>, r: State)
    requires |s.threads| >= 4 && forall t :: 1 <= t < 4 ==> s.threads[t] == PopLoad(0)
    requires s.list.ptr == A && s.stack == [B, A] && s.nodes == map[B := Node(0, 0), A := Node(B, 0)]
    ensures Run(s, ms, iterations, r) && Refilled(r) && r.version == s.version + 4 && |r.threads| == |s.threads|
    ensures r.threads[0] == s.threads[0] && r.threads[1] == Begin(1, iterations) && r.threads[2] == Bump(0, B)
  {
    var ms1, s1 := PopRun(s, 1, SPARE, iterations);
    assert s1.stack == [B] && s1.list.ptr == B;
    var ms2, s2 := PopRun(s1, 2, SPARE, iterations);
    assert s2.stack == [] && s2.list.ptr == 0;
    var ms3, s3 := RefillRun(s2, iterations);
    var ms4;
    ms4, r := PushRun(s3, 1, iterations);
    assert r.stack == [C, A];
    RunJoin(s, ms1, s1, ms2, s2, iterations);
    RunJoin(s, ms1 + ms2, s2, ms3, s3, iterations);
    RunJoin(s, ms1 + ms2 + ms3, s3, ms4, r, iterations);
    ms := ms1 + ms2 + ms3 + ms4;
  }

  lemma RefillRun(s: State, iterations: nat) returns (ms: seq<Move>, r: State)
    requires |s.threads| >= 4 && s.threads[3] == PopLoad(0) && s.list.ptr == 0 && s.stack == [] && C !in s.nodes
    ensures Run(s, ms, iterations, r) && r.version == s.version + 1 && r.list.ptr == C && r.stack == [C]
    ensures r.nodes == s.nodes[C := Node(0, 0)] && r.threads == s.threads[3 := PopLoad(0)]
  {
    var s1 := Loads(s, 3);
    LoadRun(s, 3, iterations);
    var ns;
    ns, r := AllocRun(s1, 3, C, iterations);
    ms := [Move(3, true, 0)] + ns;
    RunJoin(s, [Move(3, true, 0)], s1, ns, r, iterations);
  }

  /** Thread 1 pops and pushes A. */
  lemma OneRound(s: State, i: nat, iterations: nat) returns (ms: seq<Move>, r: State)
    requires |s.threads| > 1 && s.threads[1] == PopLoad(i) && Refilled(s)
    ensures Run(s, ms, iterations, r) && Refilled(r) && r.version == s.version + 2
    ensures r.threads == s.threads[1 := Begin(i + 1, iterations)]
  {
    var ms1, s1 := PopRun(s, 1, SPARE, iterations);
    var ms2;
    ms2, r := PushRun(s1, 1, iterations);
    BackOnTop(s, s.nodes[A].count + 1, Begin(i + 1, iterations));
    ms := ms1 + ms2;
    RunJoin(s, ms1, s1, ms2, r, iterations);
  }

  lemma BackOnTop(s: State, count: nat, pc: Thread)
    requires |s.threads| > 1 && s.threads[1].PopLoad? && Refilled(s)
    ensures var r := Pushes(Pops(s, 1), 1, A, count, pc);
      Refilled(r) && r.version == s.version + 2 && r.threads == s.threads[1 := pc]
  {
    var s1 := Pops(s, 1);
    assert s1.stack == [C] && s1.list.ptr == C;
    var r := Pushes(s1, 1, A, count, pc);
    assert r.stack == [C, A] && r.nodes.Keys == {A, B, C};
  }

  lemma {:induction false} Rounds(s: State, i: nat, k: nat, iterations: nat) returns (ms: seq<Move>, r: State)
    requires |s.threads| > 1 && s.threads[1] == Begin(i, iterations) && i + k <= iterations && Refilled(s)
    ensures Run(s, ms, iterations, r) && Refilled(r) && r.version == s.version + 2 * k
    ensures r.threads == s.threads[1 := Begin(i + k, iterations)]
    decreases k
  {
    if k == 0 {
      ms, r := [], s;
    } else {
      var ms1, s1 := OneRound(s, i, iterations);
      var ms2;
      ms2, r := Rounds(s1, i + 1, k - 1, iterations);
      RunJoin(s, ms1, s1, ms2, r, iterations);
      ms := ms1 + ms2;
    }
  }

  /** The whole run, for every program with at least four threads and 2047 iterations:
      no step of it is untimely, and it ends with thread 0 about to make its exchange
      exactly 4096 exchanges after its load. */
  lemma Stalled(threads: nat, iterations: nat) returns (ms: seq<Move>, s: State)
    requires threads >= 4 && iterations >= 2047
    ensures Run(Init(threads, iterations), ms, iterations, s) && |s.threads| == threads && Refilled(s)
    ensures s.threads[0].PopSwap? && s.threads[0].tip.ptr == A && s.threads[0].next == B
    ensures s.version == s.threads[0].seen + 4096 && s.threads[2] == Bump(0, B)
  {
    var s0 := Init(threads, iterations);
    var ms1, s1 := Fills(threads, iterations);
    var ms2, s2 := StallRun(s1, 0, SPARE, iterations);
    var ms3, s3 := Swaps(s2, iterations);
    var ms4;
    ms4, s := Rounds(s3, 1, 2046, iterations);
    RunJoin(s0, ms1, s1, ms2, s2, iterations);
    RunJoin(s0, ms1 + ms2, s2, ms3, s3, iterations);
    RunJoin(s0, ms1 + ms2 + ms3, s3, ms4, s, iterations);
    ms := ms1 + ms2 + ms3 + ms4;
  }

  /** At the bound the exchange of `pop` goes through although the list has changed.  The
      list then starts with a node that another thread holds, and has lost the node
      that was under the top. */
  lemma AbaAfter4096(threads: nat, iterations: nat) returns (ms: seq<Move>, s: State)
    requires threads >= 4 && iterations >= 2047
    ensures Run(Init(threads, iterations), ms, iterations, s) && Inv(s)
    ensures |s.threads| == threads && s.threads[0].PopSwap? && s.version == s.threads[0].seen + 4096
    ensures s.list == s.threads[0].tip
    ensures var r := Exec(s, Move(0, true, 0), iterations);
      !Chain(r) && r.list.ptr == Held(r.threads[2]) && s.stack[0] != r.list.ptr && r.stack == [s.stack[0]]
  {
    ms, s := Stalled(threads, iterations);
    InitInv(threads, iterations);
    RunInv(Init(threads, iterations), ms, iterations, s);
    assert Current(s, 0, s.threads[0]);
    ExchangeGoesThrough(s, s.threads[0].tip, s.threads[0].seen);
    var r := Exec(s, Move(0, true, 0), iterations);
    assert r.stack == [C] && Under(r.stack, 1) == C;
  }
}
