/** Progress in examples/aba.c: a thread that lost a race reloads the list, so left
    alone it finishes its push or pop in a few steps, and the program can always be
    run to its end. */
module AbaProgress {
  import opened AbaWord
  import opened AbaStack
  import opened AbaCount

  /** A failed exchange hands the thread the current word, and changes nothing else. */
  lemma FailedReloads(s: State, m: Move, iterations: nat)
    requires Inv(s) && m.thread < |s.threads| && (s.threads[m.thread].PopSwap? || s.threads[m.thread].PushSwap?)
    requires !(m.through && s.list == s.threads[m.thread].tip)
    ensures var r := Exec(s, m, iterations); var was, now := s.threads[m.thread], r.threads[m.thread];
      && r == s.(threads := r.threads) && r.threads == s.threads[m.thread := now]
      && (was.PopSwap? ==> now == PopTest(was.i, s.list, s.version))
      && (was.PushSwap? ==> now == PushLink(was.i, was.elem, was.bumped, s.list, s.version))
      && Inv(r)
  {
    if s.threads[m.thread].PopSwap? {
      MoveOn(s, m.thread, PopTest(s.threads[m.thread].i, s.list, s.version));
    } else {
      PushLoadInv(s, m, iterations);
    }
  }

  lemma Above(keys: set<Addr>) returns (a: Addr)
    ensures a > 0 && forall k :: k in keys ==> k < a
  {
    if keys == {} {
      a := 1;
    } else {
      var k :| k in keys;
      var b := Above(keys - {k});
      a := if k < b then b else k + 1;
      assert forall j :: j in keys ==> j == k || j in keys - {k};
    }
  }

  predicate Alone(ms: seq<Move>, t: nat) {
    forall k :: 0 <= k < |ms| ==> ms[k].thread == t
  }

  /** One step of one thread. */
  lemma Advance(s: State, t: nat, through: bool, iterations: nat) returns (ms: seq<Move>, r: State)
    requires Inv(s) && t < |s.threads|
    requires through && s.threads[t].PopSwap? && s.list == s.threads[t].tip ==> Timely(s, t)
    ensures |ms| == 1 && Alone(ms, t) && Run(s, ms, iterations, r) && Inv(r)
    ensures ms[0].through == through && r == Exec(s, ms[0], iterations)
    ensures ms[0].block !in s.nodes
  {
    var block := Above(s.nodes.Keys);
    var m := Move(t, through, block);
    ms, r := [m], Exec(s, m, iterations);
    OneMove(s, m, iterations);
    StepInv(s, m, iterations);
  }

  /** Two stretches of one thread. */
  lemma Joined(s: State, ms: seq<Move>, r: State, ns: seq<Move>, q: State, t: nat, iterations: nat)
    requires Run(s, ms, iterations, r) && Run(r, ns, iterations, q) && Alone(ms, t) && Alone(ns, t)
    ensures Run(s, ms + ns, iterations, q) && Alone(ms + ns, t)
  {
    RunJoin(s, ms, r, ns, q, iterations);
  }

  // ----- pop -----

  predicate Popping(pc: Thread) { pc.PopLoad? || pc.PopTest? || pc.PopSwap? }

  /** The thread has taken the top node, and nothing else has moved. */
  predicate Took(s: State, r: State, t: nat)
    requires t < |s.threads| && Popping(s.threads[t])
  {
    && s.stack != [] && r.stack == s.stack[..|s.stack| - 1] && r.nodes == s.nodes
    && r.threads == s.threads[t := Bump(s.threads[t].i, s.stack[|s.stack| - 1])]
  }

  /** The thread saw an empty list and has a new node. */
  predicate Allocated(s: State, r: State, t: nat)
    requires t < |s.threads| && Popping(s.threads[t])
  {
    && |r.threads| == |s.threads| && r.stack == s.stack && Held(r.threads[t]) !in s.nodes
    && r.threads == s.threads[t := PushLoad(s.threads[t].i, Held(r.threads[t]), false)]
  }

  lemma TopIs(s: State)
    requires Chain(s) && 0 !in s.nodes
    ensures s.list.ptr != 0 <==> s.stack != []
    ensures s.stack != [] ==> s.list.ptr == s.stack[|s.stack| - 1]
  {
    if s.stack != [] {
      var k := |s.stack| - 1;
      assert Under(s.stack, |s.stack|) == s.stack[k];
      LinkAt(s.nodes, s.stack, k);
    }
  }

  /** What a pop that reads the current list ends with. */
  predicate Ends(s: State, r: State, t: nat)
    requires t < |s.threads| && Popping(s.threads[t])
  {
    if s.stack == [] then Allocated(s, r, t) else Took(s, r, t)
  }

  /** The same pop, further on. */
  predicate Resumes(s: State, r: State, t: nat)
    requires t < |s.threads| && Popping(s.threads[t])
  {
    && |r.threads| == |s.threads| && r.threads == s.threads[t := r.threads[t]]
    && r.stack == s.stack && r.nodes == s.nodes && r.list == s.list && r.version == s.version
    && Popping(r.threads[t]) && r.threads[t].i == s.threads[t].i
  }

  lemma EndsLater(s: State, r: State, q: State, t: nat)
    requires t < |s.threads| && Popping(s.threads[t]) && Resumes(s, r, t) && Ends(r, q, t)
    ensures Ends(s, q, t)
  {
    assert r.threads[t := q.threads[t]] == s.threads[t := q.threads[t]];
  }

  /** The steps before the exchange, of a thread that has not seen an empty list. */
  lemma Looks(s: State, t: nat, iterations: nat) returns (ms: seq<Move>, r: State)
    requires Inv(s) && t < |s.threads| && (s.threads[t].PopLoad? || s.threads[t].PopTest?)
    requires s.threads[t].PopTest? ==> s.threads[t].tip.ptr != 0
    ensures |ms| == 1 && Alone(ms, t) && Run(s, ms, iterations, r) && Inv(r) && Resumes(s, r, t)
    ensures s.threads[t].PopLoad? ==> r.threads[t] == PopTest(s.threads[t].i, s.list, s.version)
    ensures s.threads[t].PopTest? ==>
      r.threads[t].PopSwap? && r.threads[t].tip == s.threads[t].tip && r.threads[t].seen == s.threads[t].seen
  {
    assert Current(s, t, s.threads[t]);
    ms, r := Advance(s, t, true, iterations);
  }

  lemma Allocates(s: State, t: nat, iterations: nat) returns (ms: seq<Move>, r: State)
    requires Inv(s) && t < |s.threads| && s.threads[t].PopTest? && s.threads[t].tip.ptr == 0
    ensures |ms| == 1 && Alone(ms, t) && Run(s, ms, iterations, r) && Inv(r) && Allocated(s, r, t)
  {
    ms, r := Advance(s, t, true, iterations);
  }

  lemma Takes(s: State, t: nat, iterations: nat) returns (ms: seq<Move>, r: State)
    requires Inv(s) && t < |s.threads| && s.threads[t].PopSwap? && s.list == s.threads[t].tip && Timely(s, t)
    ensures |ms| == 1 && Alone(ms, t) && Run(s, ms, iterations, r) && Inv(r) && Took(s, r, t)
  {
    assert Current(s, t, s.threads[t]);
    PopExact(s, t);
    ms, r := Advance(s, t, true, iterations);
  }

  /** With a word that is current, a pop takes at most two steps. */
  lemma FreshPop(s: State, t: nat, iterations: nat) returns (ms: seq<Move>, r: State)
    requires Inv(s) && t < |s.threads| && s.threads[t].PopTest?
    requires s.threads[t].tip == s.list && s.threads[t].seen == s.version
    ensures |ms| <= 2 && Alone(ms, t) && Run(s, ms, iterations, r) && Inv(r) && Ends(s, r, t)
  {
    TopIs(s);
    if s.stack == [] {
      ms, r := Allocates(s, t, iterations);
    } else {
      var ms1, s1 := Looks(s, t, iterations);
      var ms2;
      ms2, r := Takes(s1, t, iterations);
      ms := ms1 + ms2;
      Joined(s, ms1, s1, ms2, r, t, iterations);
      EndsLater(s, s1, r, t);
    }
  }

  lemma SwapEnds(s: State, t: nat, iterations: nat) returns (ms: seq<Move>, r: State)
    requires Inv(s) && t < |s.threads| && s.threads[t].PopSwap?
    ensures |ms| <= 3 && Alone(ms, t) && Run(s, ms, iterations, r) && Inv(r) && Ends(s, r, t)
  {
    if s.list == s.threads[t].tip && Timely(s, t) {
      ms, r := Takes(s, t, iterations);
    } else {
      var ms1, s1 := Advance(s, t, false, iterations);
      FailedReloads(s, ms1[0], iterations);
      var ms2;
      ms2, r := FreshPop(s1, t, iterations);
      ms := ms1 + ms2;
      Joined(s, ms1, s1, ms2, r, t, iterations);
      EndsLater(s, s1, r, t);
    }
  }

  /** A pop left alone ends within four steps, whatever it had loaded before.  Unless the
      thread had already seen an empty list, it takes the current top. */
  lemma PopEnds(s: State, t: nat, iterations: nat) returns (ms: seq<Move>, r: State)
    requires Inv(s) && t < |s.threads| && Popping(s.threads[t])
    ensures |ms| <= 4 && Alone(ms, t) && Run(s, ms, iterations, r) && Inv(r)
    ensures if s.threads[t].PopTest? && s.threads[t].tip.ptr == 0 then Allocated(s, r, t) else Ends(s, r, t)
  {
    if s.threads[t].PopSwap? {
      ms, r := SwapEnds(s, t, iterations);
    } else if s.threads[t].PopTest? && s.threads[t].tip.ptr == 0 {
      ms, r := Allocates(s, t, iterations);
    } else {
      var ms1, s1 := Looks(s, t, iterations);
      var ms2;
      if s.threads[t].PopLoad? {
        ms2, r := FreshPop(s1, t, iterations);
      } else {
        ms2, r := SwapEnds(s1, t, iterations);
      }
      ms := ms1 + ms2;
      Joined(s, ms1, s1, ms2, r, t, iterations);
      EndsLater(s, s1, r, t);
    }
  }

  // ----- push -----

  predicate Pushing(pc: Thread) { pc.PushLoad? || pc.PushLink? || pc.PushSwap? }

  /** The node is on top, and the thread goes on. */
  predicate Put(s: State, r: State, t: nat, iterations: nat)
    requires t < |s.threads| && Pushing(s.threads[t])
  {
    var pc := s.threads[t];
    && r.stack == s.stack + [pc.elem]
    && r.threads == s.threads[t := if pc.bumped then Begin(pc.i + 1, iterations) else PopLoad(pc.i)]
  }

  /** The same push, further on. */
  predicate Continues(s: State, r: State, t: nat)
    requires t < |s.threads| && Pushing(s.threads[t])
  {
    && |r.threads| == |s.threads| && r.threads == s.threads[t := r.threads[t]] && r.stack == s.stack
    && var was, now := s.threads[t], r.threads[t];
    && Pushing(now) && now.i == was.i && now.elem == was.elem && now.bumped == was.bumped
  }

  lemma PutLater(s: State, r: State, q: State, t: nat, iterations: nat)
    requires t < |s.threads| && Pushing(s.threads[t]) && Continues(s, r, t) && Put(r, q, t, iterations)
    ensures Put(s, q, t, iterations)
  {
    assert r.threads[t := q.threads[t]] == s.threads[t := q.threads[t]];
  }

  /** The step before the exchange. */
  lemma Nears(s: State, t: nat, iterations: nat) returns (ms: seq<Move>, r: State)
    requires Inv(s) && t < |s.threads| && (s.threads[t].PushLoad? || s.threads[t].PushLink?)
    ensures |ms| == 1 && Alone(ms, t) && Run(s, ms, iterations, r) && Inv(r) && Continues(s, r, t)
    ensures s.threads[t].PushLoad? ==> r.threads[t].PushLink? && r.threads[t].tip == r.list
    ensures s.threads[t].PushLink? ==>
      r.threads[t].PushSwap? && r.threads[t].tip == s.threads[t].tip && r.list == s.list
  {
    assert Current(s, t, s.threads[t]);
    ms, r := Advance(s, t, true, iterations);
  }

  lemma Exchanges(s: State, t: nat, iterations: nat) returns (ms: seq<Move>, r: State)
    requires Inv(s) && t < |s.threads| && s.threads[t].PushSwap? && s.list == s.threads[t].tip
    ensures |ms| == 1 && Alone(ms, t) && Run(s, ms, iterations, r) && Inv(r) && Put(s, r, t, iterations)
  {
    ms, r := Advance(s, t, true, iterations);
  }

  lemma FreshPush(s: State, t: nat, iterations: nat) returns (ms: seq<Move>, r: State)
    requires Inv(s) && t < |s.threads| && s.threads[t].PushLink? && s.threads[t].tip == s.list
    ensures |ms| <= 2 && Alone(ms, t) && Run(s, ms, iterations, r) && Inv(r) && Put(s, r, t, iterations)
  {
    var ms1, s1 := Nears(s, t, iterations);
    var ms2;
    ms2, r := Exchanges(s1, t, iterations);
    ms := ms1 + ms2;
    Joined(s, ms1, s1, ms2, r, t, iterations);
    PutLater(s, s1, r, t, iterations);
  }

  lemma SwapPuts(s: State, t: nat, iterations: nat) returns (ms: seq<Move>, r: State)
    requires Inv(s) && t < |s.threads| && s.threads[t].PushSwap?
    ensures |ms| <= 3 && Alone(ms, t) && Run(s, ms, iterations, r) && Inv(r) && Put(s, r, t, iterations)
  {
    if s.list == s.threads[t].tip {
      ms, r := Exchanges(s, t, iterations);
    } else {
      var ms1, s1 := Advance(s, t, true, iterations);
      FailedReloads(s, ms1[0], iterations);
      var ms2;
      ms2, r := FreshPush(s1, t, iterations);
      ms := ms1 + ms2;
      Joined(s, ms1, s1, ms2, r, t, iterations);
      PutLater(s, s1, r, t, iterations);
    }
  }

  /** A push left alone ends within four steps, with its node on top. */
  lemma PushEnds(s: State, t: nat, iterations: nat) returns (ms: seq<Move>, r: State)
    requires Inv(s) && t < |s.threads| && Pushing(s.threads[t])
    ensures |ms| <= 4 && Alone(ms, t) && Run(s, ms, iterations, r) && Inv(r) && Put(s, r, t, iterations)
  {
    if s.threads[t].PushSwap? {
      ms, r := SwapPuts(s, t, iterations);
    } else {
      var ms1, s1 := Nears(s, t, iterations);
      var ms2;
      if s.threads[t].PushLoad? {
        ms2, r := FreshPush(s1, t, iterations);
      } else {
        ms2, r := SwapPuts(s1, t, iterations);
      }
      ms := ms1 + ms2;
      Joined(s, ms1, s1, ms2, r, t, iterations);
      PutLater(s, s1, r, t, iterations);
    }
  }

  // ----- the whole program -----

  /** How far a thread is from its next increment. */
  function Stage(s: State, t: nat): nat
    requires t < |s.threads|
  {
    match s.threads[t]
    case Bump(_, _) => 1
    case PushLoad(_, _, b) => if b then 0 else 3
    case PushLink(_, _, b, _, _) => if b then 0 else 3
    case PushSwap(_, _, b, _, _) => if b then 0 else 3
    case PopLoad(_) => if s.stack != [] then 2 else 4
    case _ => 4
  }

  /** The thread is done, in its next iteration, or further in this one. */
  predicate Nearer(s: State, r: State, t: nat, iterations: nat)
    requires t < |s.threads| && !s.threads[t].Done?
  {
    && |r.threads| == |s.threads| && r.threads == s.threads[t := r.threads[t]]
    && var was, now := s.threads[t], r.threads[t];
    || now.Done?
    || (now.i < iterations && now.i == was.i + 1)
    || (now.i == was.i && Stage(r, t) < Stage(s, t))
  }

  lemma PopNearer(s: State, r: State, t: nat, iterations: nat)
    requires t < |s.threads| && Popping(s.threads[t])
    requires if s.threads[t].PopTest? && s.threads[t].tip.ptr == 0 then Allocated(s, r, t) else Ends(s, r, t)
    ensures Nearer(s, r, t, iterations)
  {
  }

  lemma PushNearer(s: State, r: State, t: nat, iterations: nat)
    requires t < |s.threads| && Pushing(s.threads[t]) && Put(s, r, t, iterations)
    ensures Nearer(s, r, t, iterations)
  {
    assert r.stack[|s.stack|] == s.threads[t].elem;
  }

  /** One operation further. */
  lemma NextStage(s: State, t: nat, iterations: nat) returns (ms: seq<Move>, r: State)
    requires Inv(s) && t < |s.threads| && !s.threads[t].Done?
    ensures Run(s, ms, iterations, r) && Inv(r) && Nearer(s, r, t, iterations)
  {
    if s.threads[t].Bump? {
      assert Current(s, t, s.threads[t]);
      ms, r := Advance(s, t, true, iterations);
    } else if Pushing(s.threads[t]) {
      ms, r := PushEnds(s, t, iterations);
      PushNearer(s, r, t, iterations);
    } else {
      ms, r := PopEnds(s, t, iterations);
      PopNearer(s, r, t, iterations);
    }
  }

  /** A thread left alone finishes all its iterations. */
  lemma {:induction false} ThreadEnds(s: State, t: nat, iterations: nat) returns (ms: seq<Move>, r: State)
    requires Inv(s) && t < |s.threads| && (!s.threads[t].Done? ==> s.threads[t].i < iterations)
    ensures Run(s, ms, iterations, r) && Inv(r) && r.threads == s.threads[t := Done]
    decreases if s.threads[t].Done? then 0 else iterations - s.threads[t].i, Stage(s, t)
  {
    if s.threads[t].Done? {
      ms, r := [], s;
      assert s.threads[t := Done] == s.threads;
    } else {
      var ms1, s1 := NextStage(s, t, iterations);
      var ms2;
      ms2, r := ThreadEnds(s1, t, iterations);
      ms := ms1 + ms2;
      RunJoin(s, ms1, s1, ms2, r, iterations);
      assert s1.threads[t := Done] == s.threads[t := Done];
    }
  }

  lemma {:induction false} ThreadsEnd(s: State, n: nat, iterations: nat) returns (ms: seq<Move>, r: State)
    requires Inv(s) && n <= |s.threads|
    requires forall t :: 0 <= t < |s.threads| && !s.threads[t].Done? ==> s.threads[t].i < iterations
    requires forall t :: n <= t < |s.threads| ==> s.threads[t].Done?
    ensures Run(s, ms, iterations, r) && AllDone(r)
    decreases n
  {
    if n == 0 {
      ms, r := [], s;
    } else {
      var ms1, s1 := ThreadEnds(s, n - 1, iterations);
      var ms2;
      ms2, r := ThreadsEnd(s1, n - 1, iterations);
      ms := ms1 + ms2;
      RunJoin(s, ms1, s1, ms2, r, iterations);
    }
  }

  /** However a run has gone so far, there is a way to go on that ends it. */
  lemma RunEnds(threads: nat, iterations: nat, ms: seq<Move>, s: State) returns (ns: seq<Move>, r: State)
    requires Run(Init(threads, iterations), ms, iterations, s)
    ensures Run(Init(threads, iterations), ms + ns, iterations, r) && AllDone(r)
    ensures Sum(r.nodes, r.stack) == iterations * threads
  {
    InitInv(threads, iterations);
    InitBalanced(threads, iterations);
    RunBalanced(Init(threads, iterations), ms, iterations, s);
    ns, r := ThreadsEnd(s, |s.threads|, iterations);
    RunJoin(Init(threads, iterations), ms, s, ns, r, iterations);
    FinalSum(threads, iterations, ms + ns, r);
  }
}
