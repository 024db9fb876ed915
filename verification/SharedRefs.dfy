/** What the steps of `shared_ptr` and `weak_ptr` do to the handles, and what whole runs
    mean: a program on plain references, with no counts, in which an object lives exactly
    as long as something owns it. */
module SharedRefs {
  import opened SharedPtr

  // ----- single steps -----

  /** Every handle but these is what it was. */
  predicate Others(s: State, r: State, keys: set<nat>) {
    |r.slots| == |s.slots| && forall k :: 0 <= k < |s.slots| && k !in keys ==> r.slots[k] == s.slots[k]
  }

  /** `b` has one owner more, every other block as many owners and weak handles as before. */
  predicate OneMoreOwner(s: State, r: State, b: nat) {
    && |r.blocks| == |s.blocks| && b < |s.blocks|
    && Owners(r.blocks[b], TallyOf(r, b)) == Owners(s.blocks[b], TallyOf(s, b)) + 1
    && Weaks(r.slots, b) == Weaks(s.slots, b)
    && forall c: nat :: c < |s.blocks| && c != b ==> TallyOf(r, c) == TallyOf(s, c) && r.blocks[c] == s.blocks[c]
  }

  /** `lock`, once past its test, returns an owner of the object that the weak handle
      names; and if there still is an owner, of an object that is alive. */
  lemma LockGives(s: State, i: nat, j: nat)
    requires Inv(s) && Enabled(s, LockTake(i, j))
    ensures var b, r := s.slots[i].b, Exec(s, LockTake(i, j));
      && Others(s, r, {i, j}) && r.slots[j] == Shared(b) && r.slots[i] == Weak(b, s.slots[i].busy - 1)
      && r.tasks == s.tasks && OneMoreOwner(s, r, b)
      && (Owners(s.blocks[b], TallyOf(s, b)) > 0 ==>
            Inv(r) && r.blocks[b].disposed == 0 && UseCount(r.blocks[b]) == UseCount(s.blocks[b]) + 1)
  {
    var b, r := s.slots[i].b, Exec(s, LockTake(i, j));
    var s1 := s.(slots := s.slots[i := Weak(b, s.slots[i].busy - 1)]);
    Rebusy(s, i, s.slots[i].busy - 1);
    KeepSharedStep(s1, b, j);
    StepExact(s, LockTake(i, j));
    assert Counted(s.blocks[b], TallyOf(s, b));
    if Inv(r) { assert Counted(r.blocks[b], TallyOf(r, b)); }
  }

  /** The test of `lock`: it passes exactly when the object has an owner, and either way
      changes no more than the number of threads inside. */
  lemma TestGives(s: State, i: nat)
    requires Inv(s) && Enabled(s, LockTest(i))
    ensures var b, r := s.slots[i].b, Exec(s, LockTest(i));
      && Others(s, r, {i}) && r.blocks == s.blocks && r.tasks == s.tasks
      && r.slots[i] == Weak(b, s.slots[i].busy + if Owners(s.blocks[b], TallyOf(s, b)) > 0 then 1 else 0)
  {
    var b := s.slots[i].b;
    Referred(s, i);
    assert Counted(s.blocks[b], TallyOf(s, b));
  }

  /** Steps that make an owner out of something else. */
  lemma OwnerGives(s: State, m: Move, i: nat, b: nat)
    requires Inv(s) && Enabled(s, m)
    requires || (m.CopyShared? && i == m.j && b == s.slots[m.i].b)
             || (m.SelfLock? && i == m.i && b == m.b)
    ensures var r := Exec(s, m);
      && Inv(r) && Others(s, r, {i}) && r.slots[i] == Shared(b) && r.tasks == s.tasks && OneMoreOwner(s, r, b)
      && UseCount(r.blocks[b]) == UseCount(s.blocks[b]) + 1
  {
    var r := Exec(s, m);
    KeepSharedStep(s, b, i);
    StepExact(s, m);
    if m.CopyShared? { Referred(s, m.i); }
    assert Counted(s.blocks[b], TallyOf(s, b)) && Counted(r.blocks[b], TallyOf(r, b));
  }

  /** A weak handle to a block: from any handle, or from the constructor's own. */
  lemma WeakGives(s: State, m: Move, i: nat, b: nat)
    requires Inv(s) && Enabled(s, m)
    requires || (m.CopyWeak? && i == m.j && b == s.slots[m.i].b)
             || (m.SelfWeak? && i == m.i && b == m.b)
    ensures var r := Exec(s, m);
      && Inv(r) && Others(s, r, {i}) && r.slots[i] == Weak(b, 0) && r.tasks == s.tasks
      && |r.blocks| == |s.blocks| && r.blocks[b].shared == s.blocks[b].shared
      && (forall c: nat :: Shareds(r.slots, c) == Shareds(s.slots, c))
      && (forall c: nat :: Weaks(r.slots, c) == Weaks(s.slots, c) + if c == b then 1 else 0)
  {
    StepExact(s, m);
    forall c: nat { PutCounts(s.slots, i, Weak(b, 0), c); }
  }

  /** `make_shared` hands out the first owner of a new object. */
  lemma MakeGives(s: State, i: nat)
    requires Inv(s) && Enabled(s, Make(i))
    ensures var b, r := |s.blocks|, Exec(s, Make(i));
      && Inv(r) && Others(s, r, {i}) && r.slots[i] == Shared(b) && r.tasks == s.tasks
      && |r.blocks| == b + 1 && r.blocks[..b] == s.blocks
      && Owners(r.blocks[b], TallyOf(r, b)) == 1 == UseCount(r.blocks[b])
  {
    MadeShared(s, i);
    FreshTally(s);
    PutCounts(s.slots, i, Shared(|s.blocks|), |s.blocks|);
  }

  /** Where the constructor had a weak reference to itself, the borrowed reference becomes
      the owner that is handed out. */
  lemma FinishGives(s: State, b: nat, i: nat)
    requires Inv(s) && Enabled(s, Finish(b, i))
    ensures var r := Exec(s, Finish(b, i));
      && Inv(r) && Others(s, r, {i}) && r.slots[i] == Shared(b) && r.tasks == s.tasks && |r.blocks| == |s.blocks|
      && !r.blocks[b].building && UseCount(r.blocks[b]) == UseCount(s.blocks[b])
      && Owners(r.blocks[b], TallyOf(r, b)) == Owners(s.blocks[b], TallyOf(s, b)) > 0
  {
    Finished(s, b, i);
    PutCounts(s.slots, i, Shared(b), b);
  }

  /** Moving and swapping: no count is touched. */
  lemma MoveGives(s: State, m: Move)
    requires Inv(s) && Enabled(s, m) && (m.Take? || m.Swap?)
    ensures var r := Exec(s, m);
      && Inv(r) && Others(s, r, {m.i, m.j}) && r.blocks == s.blocks && r.tasks == s.tasks
      && r.slots[m.j] == s.slots[m.i] && r.slots[m.i] == s.slots[m.j]
      && (m.Take? && m.i != m.j ==> r.slots[m.i] == Empty)
  {
    StepExact(s, m);
  }

  /** Destruction leaves an empty handle, and exactly the last owner starts a disposal. */
  lemma DropGives(s: State, i: nat)
    requires Inv(s) && Enabled(s, Drop(i))
    ensures var h, r := s.slots[i], Exec(s, Drop(i));
      && Inv(r) && Others(s, r, {i}) && r.slots[i] == Empty && |r.blocks| == |s.blocks|
      && (forall c: nat :: Shareds(r.slots, c) == Shareds(s.slots, c) - OneShared(h, c))
      && (forall c: nat :: Weaks(r.slots, c) == Weaks(s.slots, c) - OneWeak(h, c))
      && (h.Shared? ==> (Dispose(h.b) in r.tasks <==> Owners(r.blocks[h.b], TallyOf(r, h.b)) == 0))
  {
    var h, r := s.slots[i], Exec(s, Drop(i));
    StepExact(s, Drop(i));
    forall c: nat { PutCounts(s.slots, i, Empty, c); }
    if h.Shared? {
      Referred(s, i);
      assert Counted(s.blocks[h.b], TallyOf(s, h.b)) && Counted(r.blocks[h.b], TallyOf(r, h.b));
    }
  }

  /** The block a step is said to touch is the one it writes (the end of a construction
      writes none), or the one whose count the test of `lock` reads. */
  lemma TouchedIs(s: State, m: Move, b: nat)
    requires Inv(s) && Enabled(s, m) && b < |s.blocks|
    ensures Exec(s, m).blocks[b] != s.blocks[b] && !m.Finish? ==> Touched(s, m) == b
    ensures m.LockTest? && s.slots[m.i].b == b ==> Touched(s, m) == b
    ensures Exec(s, m).blocks[b] != s.blocks[b] ==> s.blocks[b].freed == 0
  {
    if Touched(s, m) < |s.blocks| { TouchesLive(s, m); }
    assert Counted(s.blocks[b], TallyOf(s, b));
  }

  predicate Keeps(m: Move) { m.SelfWeak? || m.SelfLock? || m.CopyShared? || m.CopyWeak? || m.LockTake? }

  predicate Lowers(k: Block, k': Block) {
    (k'.shared == k.shared || k'.shared == Dec(k.shared)) && (k'.weak == k.weak || k'.weak == Dec(k.weak))
  }

  lemma DropLowers(s: State, i: nat, b: nat)
    requires Named(s) && Enabled(s, Drop(i)) && b < |s.blocks|
    ensures var r := Exec(s, Drop(i)); |r.blocks| == |s.blocks| && Lowers(s.blocks[b], r.blocks[b])
  {
  }

  lemma TaskLowers(s: State, t: Task, b: nat)
    requires Named(s) && t in s.tasks && b < |s.blocks|
    ensures var r := Done(s, t); |r.blocks| == |s.blocks| && Lowers(s.blocks[b], r.blocks[b])
  {
  }

  lemma OnlyKeepers(s: State, m: Move, b: nat)
    requires Named(s) && Enabled(s, m) && b < |s.blocks| && !Keeps(m)
    ensures var r := Exec(s, m); |r.blocks| >= |s.blocks| && Lowers(s.blocks[b], r.blocks[b])
  {
    if m.Drop? {
      DropLowers(s, m.i, b);
    } else if m.Perform? {
      TaskLowers(s, m.t, b);
    }
  }

  /** The counter that the trap looks at is the one that the step increments. */
  lemma KeptIs(s: State, m: Move, b: nat)
    requires Named(s) && Enabled(s, m) && b < |s.blocks|
    ensures var k, k' := s.blocks[b], Exec(s, m).blocks[b];
      && (k'.shared == Inc(k.shared) ==> Kept(s, m) == k.shared)
      && (k'.weak == Inc(k.weak) ==> Kept(s, m) == k.weak)
  {
    if !Keeps(m) { OnlyKeepers(s, m, b); }
  }

  // ----- whole runs -----

  /** A reference as C++ code sees it. */
  datatype Ref = Null | Owns(b: nat) | Watches(b: nat)

  /** A program on references: which there are, how many objects were made, which are under
      construction by `make_shared` and which constructors threw. */
  datatype Plain = Plain(refs: seq<Ref>, made: nat, raising: set<nat>, thrown: set<nat>)

  function See(h: Handle): Ref {
    match h
    case Empty => Null
    case Shared(b) => Owns(b)
    case Weak(b, _) => Watches(b)
  }

  function View(h: seq<Handle>): seq<Ref> {
    seq(|h|, k requires 0 <= k < |h| => See(h[k]))
  }

  predicate Fits(p: Plain, m: Move) {
    match m
    case Make(i) => i < |p.refs|
    case SelfWeak(_, i) => i < |p.refs|
    case SelfLock(_, i) => i < |p.refs|
    case Finish(_, i) => i < |p.refs|
    case CopyShared(i, j) => i < |p.refs| && j < |p.refs| && p.refs[i].Owns?
    case CopyWeak(i, j) => i < |p.refs| && j < |p.refs| && !p.refs[i].Null?
    case Take(i, j) => i < |p.refs| && j < |p.refs|
    case Swap(i, j) => i < |p.refs| && j < |p.refs|
    case Drop(i) => i < |p.refs|
    case LockTake(i, j) => i < |p.refs| && j < |p.refs| && p.refs[i].Watches?
    case _ => true
  }

  function Meant(p: Plain, m: Move): Plain
    requires Fits(p, m)
  {
    match m
    case Declare => p.(refs := p.refs + [Null])
    case Make(i) => p.(refs := p.refs[i := Owns(p.made)], made := p.made + 1)
    case MakeSelf => p.(made := p.made + 1, raising := p.raising + {p.made})
    case SelfWeak(b, i) => p.(refs := p.refs[i := Watches(b)])
    case SelfLock(b, i) => p.(refs := p.refs[i := Owns(b)])
    case Finish(b, i) => p.(refs := p.refs[i := Owns(b)], raising := p.raising - {b})
    case Throw(b) => p.(raising := p.raising - {b}, thrown := p.thrown + {b})
    case CopyShared(i, j) => p.(refs := p.refs[j := p.refs[i]])
    case CopyWeak(i, j) => p.(refs := p.refs[j := Watches(p.refs[i].b)])
    case Take(i, j) => p.(refs := p.refs[j := p.refs[i]][i := Null])
    case Swap(i, j) => p.(refs := p.refs[j := p.refs[i]][i := p.refs[j]])
    case Drop(i) => p.(refs := p.refs[i := Null])
    case LockTest(_) => p
    case LockTake(i, j) => p.(refs := p.refs[j := Owns(p.refs[i].b)])
    case Perform(_) => p
  }

  /** The counting state implements the plain one. */
  ghost predicate Implements(s: State, p: Plain) {
    && View(s.slots) == p.refs && |s.blocks| == p.made
    && (forall b :: b in p.raising || b in p.thrown ==> b < p.made)
    && forall b :: 0 <= b < p.made ==>
      (s.blocks[b].building <==> b in p.raising) && (s.blocks[b].failed <==> b in p.thrown)
  }

  lemma ViewSet(h: seq<Handle>, j: nat, x: Handle)
    requires j < |h|
    ensures View(h[j := x]) == View(h)[j := See(x)]
  {
  }

  /** The steps that change one handle and no construction. */
  lemma ImplementsSet(s: State, p: Plain, r: State, j: nat, x: Handle)
    requires Implements(s, p) && j < |s.slots| && r.slots == s.slots[j := x] && |r.blocks| == |s.blocks|
    requires forall b :: 0 <= b < |s.blocks| ==>
      r.blocks[b].building == s.blocks[b].building && r.blocks[b].failed == s.blocks[b].failed
    ensures Implements(r, p.(refs := p.refs[j := See(x)]))
  {
    ViewSet(s.slots, j, x);
  }

  lemma FitsStep(s: State, p: Plain, m: Move)
    requires Named(s) && Enabled(s, m) && Implements(s, p)
    ensures Fits(p, m)
  {
    assert |p.refs| == |s.slots| && forall k :: 0 <= k < |s.slots| ==> p.refs[k] == See(s.slots[k]);
  }

  lemma DeclareMeans(s: State, p: Plain)
    requires Named(s) && Enabled(s, Declare) && Implements(s, p)
    ensures Implements(Exec(s, Declare), Meant(p, Declare))
  {
    assert View(Exec(s, Declare).slots) == View(s.slots) + [Null];
  }

  lemma MakeSelfMeans(s: State, p: Plain)
    requires Named(s) && Implements(s, p)
    ensures Implements(Exec(s, MakeSelf), Meant(p, MakeSelf))
  {
  }

  lemma ThrowMeans(s: State, p: Plain, b: nat)
    requires Named(s) && Enabled(s, Throw(b)) && Implements(s, p)
    ensures Implements(Exec(s, Throw(b)), Meant(p, Throw(b)))
  {
  }

  lemma TaskMeans(s: State, p: Plain, t: Task)
    requires Named(s) && t in s.tasks && Implements(s, p)
    ensures Implements(Done(s, t), p)
  {
    var r := Done(s, t);
    assert r.slots == s.slots && |r.blocks| == |s.blocks|;
    forall b | 0 <= b < |s.blocks|
      ensures r.blocks[b].building == s.blocks[b].building && r.blocks[b].failed == s.blocks[b].failed
    {
    }
  }

  /** Steps of `make_shared` that hand out an owner. */
  lemma MadeMeans(s: State, p: Plain, m: Move)
    requires Named(s) && Enabled(s, m) && Implements(s, p) && Fits(p, m) && (m.Make? || m.Finish?)
    ensures Implements(Exec(s, m), Meant(p, m))
  {
    ViewSet(s.slots, m.i, if m.Make? then Shared(|s.blocks|) else Shared(m.b));
  }

  /** Steps that change two handles. */
  lemma PairMeans(s: State, p: Plain, m: Move)
    requires Named(s) && Enabled(s, m) && Implements(s, p) && Fits(p, m) && (m.Take? || m.Swap? || m.LockTake?)
    ensures Implements(Exec(s, m), Meant(p, m))
  {
    assert View(Exec(s, m).slots) == Meant(p, m).refs;
  }

  /** Steps that change one handle. */
  lemma SingleMeans(s: State, p: Plain, m: Move)
    requires Named(s) && Enabled(s, m) && Implements(s, p) && Fits(p, m)
    requires m.SelfWeak? || m.SelfLock? || m.CopyShared? || m.CopyWeak? || m.Drop? || m.LockTest?
    ensures Implements(Exec(s, m), Meant(p, m))
  {
    var r := Exec(s, m);
    var j := if m.CopyShared? || m.CopyWeak? then m.j else m.i;
    assert r.slots == s.slots[j := r.slots[j]];
    ImplementsSet(s, p, r, j, r.slots[j]);
    assert Meant(p, m) == p.(refs := p.refs[j := See(r.slots[j])]);
  }

  lemma StepMeans(s: State, p: Plain, m: Move)
    requires Named(s) && Enabled(s, m) && Implements(s, p)
    ensures Fits(p, m) && Implements(Exec(s, m), Meant(p, m))
  {
    FitsStep(s, p, m);
    if m.Declare? {
      DeclareMeans(s, p);
    } else if m.MakeSelf? {
      MakeSelfMeans(s, p);
    } else if m.Throw? {
      ThrowMeans(s, p, m.b);
    } else if m.Perform? {
      TaskMeans(s, p, m.t);
    } else if m.Make? || m.Finish? {
      MadeMeans(s, p, m);
    } else if m.Take? || m.Swap? || m.LockTake? {
      PairMeans(s, p, m);
    } else {
      SingleMeans(s, p, m);
    }
  }

  const NOTHING := Plain([], 0, {}, {})

  /** The plain program after the first `n` moves of a run. */
  ghost predicate Follows(ps: seq<Plain>, ms: seq<Move>) {
    && |ps| == |ms| + 1 && ps[0] == NOTHING
    && forall k :: 0 <= k < |ms| ==> Fits(ps[k], ms[k]) && ps[k + 1] == Meant(ps[k], ms[k])
  }

  /** Every run is a run of the plain program. */
  lemma {:induction false} RunMeans(tr: seq<State>, ms: seq<Move>) returns (ps: seq<Plain>)
    requires Run(tr, ms)
    ensures Follows(ps, ms) && forall n :: 0 <= n <= |ms| ==> Implements(tr[n], ps[n])
    decreases |ms|
  {
    if ms == [] {
      ps := [NOTHING];
    } else {
      var n := |ms| - 1;
      RunPrefix(tr, ms);
      var qs := RunMeans(tr[..n + 1], ms[..n]);
      assert tr[..n + 1][n] == tr[n] && Step(tr[n], ms[n], tr[n + 1]);
      StepMeans(tr[n], qs[n], ms[n]);
      ps := qs + [Meant(qs[n], ms[n])];
      Extends(qs, ms, ps, tr);
    }
  }

  lemma RunPrefix(tr: seq<State>, ms: seq<Move>)
    requires Run(tr, ms) && ms != []
    ensures Run(tr[..|ms|], ms[..|ms| - 1])
  {
    var n := |ms| - 1;
    forall k | 0 <= k < n ensures Step(tr[..n + 1][k], ms[..n][k], tr[..n + 1][k + 1]) {
      assert Step(tr[k], ms[k], tr[k + 1]);
    }
  }

  lemma Extends(qs: seq<Plain>, ms: seq<Move>, ps: seq<Plain>, tr: seq<State>)
    requires ms != [] && |tr| == |ms| + 1 && Follows(qs, ms[..|ms| - 1])
    requires var n := |ms| - 1;
      && Fits(qs[n], ms[n]) && ps == qs + [Meant(qs[n], ms[n])] && Implements(tr[n + 1], ps[n + 1])
      && forall k :: 0 <= k <= n ==> Implements(tr[..n + 1][k], qs[k])
    ensures Follows(ps, ms) && forall k :: 0 <= k <= |ms| ==> Implements(tr[k], ps[k])
  {
    var n := |ms| - 1;
    forall k | 0 <= k <= n ensures Implements(tr[k], ps[k]) {
      assert tr[..n + 1][k] == tr[k] && ps[k] == qs[k];
    }
    forall k | 0 <= k < |ms| ensures Fits(ps[k], ms[k]) && ps[k + 1] == Meant(ps[k], ms[k]) {
      if k < n {
        assert ms[..n][k] == ms[k];
        assert Fits(qs[k], ms[..n][k]) && qs[k + 1] == Meant(qs[k], ms[..n][k]);
      }
    }
  }

  /** Owners in the plain program. */
  function Owning(p: Plain, b: nat): nat {
    multiset(p.refs)[Owns(b)] + if b in p.raising then 1 else 0
  }

  lemma {:induction false} CountsAre(h: seq<Handle>, b: nat)
    ensures multiset(View(h))[Owns(b)] == Shareds(h, b) && multiset(View(h))[Watches(b)] == Weaks(h, b)
  {
    if h == [] {
      assert View(h) == [];
    } else {
      var n := |h| - 1;
      assert View(h) == View(h[..n]) + [See(h[n])];
      CountsAre(h[..n], b);
    }
  }

  /** Counting is right: at every point of every run `use_count` is the number of owners
      in the plain program, the object is alive or about to be destroyed exactly as long
      as there is one, and the block is there as long as any reference names it. */
  lemma RunLives(tr: seq<State>, ms: seq<Move>, n: nat, b: nat) returns (ps: seq<Plain>)
    requires Run(tr, ms) && n <= |ms| && b < |tr[n].blocks| && !tr[n].blocks[b].failed
    ensures Follows(ps, ms) && Implements(tr[n], ps[n]) && b !in ps[n].thrown
    ensures var k, p := tr[n].blocks[b], ps[n];
      && UseCount(k) == Owning(p, b)
      && (Owning(p, b) > 0 <==> k.disposed == 0 && Dispose(b) !in tr[n].tasks)
      && (Owning(p, b) > 0 || Watches(b) in p.refs ==> k.freed == 0 && Delete(b) !in tr[n].tasks)
      && (Owning(p, b) == 0 && tr[n].tasks == multiset{} && Watches(b) !in p.refs ==> k.freed == 1)
  {
    ps := RunMeans(tr, ms);
    RunInv(tr, ms, n);
    CountsAre(tr[n].slots, b);
    assert Counted(tr[n].blocks[b], TallyOf(tr[n], b));
  }
}
