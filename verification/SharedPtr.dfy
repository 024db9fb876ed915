/** Reference counting of `shared_ptr` and `weak_ptr`: every interleaving of the atomic
    accesses of any number of threads.  A handle object is used as C++ demands, that is
    two threads may only read it at the same time; the counters are shared freely. */
module SharedPtr {

  const WORD := 0x1_0000_0000_0000_0000
  const SIGN := 0x8000_0000_0000_0000

  /** A handle takes 16 bytes of a 64-bit address space. */
  const MAX_HANDLES := 0x1000_0000_0000_0000

  type Word = x: nat | x < WORD

  function Inc(r: Word): Word { if r == WORD - 1 then 0 else r + 1 }

  function Dec(r: Word): Word { if r == 0 then WORD - 1 else r - 1 }

  /** A handle: default constructed or destroyed, an owner, or a weak reference inside
      whose `lock` there are `busy` threads that have passed the test. */
  datatype Handle = Empty | Shared(b: nat) | Weak(b: nat, busy: nat)

  /** A control block.  `disposed` and `freed` record how often the object was destroyed
      and the block deleted; `building` is true while `make_shared` runs a constructor
      that was given the borrowed weak reference; `failed` if that constructor threw. */
  datatype Block = Block(shared: Word, weak: Word, disposed: nat, freed: nat, building: bool, failed: bool)

  /** What a thread that saw a count reach its end still has to do. */
  datatype Task = Dispose(b: nat) | Release(b: nat) | Delete(b: nat)

  datatype State = State(slots: seq<Handle>, blocks: seq<Block>, tasks: multiset<Task>)

  datatype Move =
    | Declare
    | Make(i: nat)
    | MakeSelf
    | SelfWeak(b: nat, i: nat)
    | SelfLock(b: nat, i: nat)
    | Finish(b: nat, i: nat)
    | Throw(b: nat)
    | CopyShared(i: nat, j: nat)
    | CopyWeak(i: nat, j: nat)
    | Take(i: nat, j: nat)
    | Swap(i: nat, j: nat)
    | Drop(i: nat)
    | LockTest(i: nat)
    | LockTake(i: nat, j: nat)
    | Perform(t: Task)

  function UseCount(k: Block): Word { Inc(k.shared) }

  predicate Vacant(s: State, i: nat) { i < |s.slots| && s.slots[i].Empty? }

  predicate Idle(h: Handle) { h.Weak? ==> h.busy == 0 }

  predicate Raising(s: State, b: nat) { b < |s.blocks| && s.blocks[b].building }

  /** The steps that program code and the C++ rules on data races allow. */
  predicate Enabled(s: State, m: Move) {
    match m
    case Declare => |s.slots| < MAX_HANDLES
    case Make(i) => Vacant(s, i)
    case MakeSelf => true
    case SelfWeak(b, i) => Raising(s, b) && Vacant(s, i)
    case SelfLock(b, i) => Raising(s, b) && Vacant(s, i) && UseCount(s.blocks[b]) != 0
    case Finish(b, i) => Raising(s, b) && Vacant(s, i)
    case Throw(b) => Raising(s, b)
    case CopyShared(i, j) => i < |s.slots| && s.slots[i].Shared? && Vacant(s, j)
    case CopyWeak(i, j) => i < |s.slots| && !s.slots[i].Empty? && Vacant(s, j)
    case Take(i, j) => i < |s.slots| && Idle(s.slots[i]) && Vacant(s, j)
    case Swap(i, j) => i < |s.slots| && j < |s.slots| && Idle(s.slots[i]) && Idle(s.slots[j])
    case Drop(i) => i < |s.slots| && Idle(s.slots[i])
    case LockTest(i) => i < |s.slots| && s.slots[i].Weak?
    case LockTake(i, j) => i < |s.slots| && s.slots[i].Weak? && s.slots[i].busy > 0 && Vacant(s, j)
    case Perform(t) => t in s.tasks
  }

  predicate Named(s: State) {
    && (forall i :: 0 <= i < |s.slots| && !s.slots[i].Empty? ==> s.slots[i].b < |s.blocks|)
    && (forall t :: t in s.tasks ==> t.b < |s.blocks|)
  }

  /** `keep_shared` with the new owner at `j`. */
  function KeepShared(s: State, b: nat, j: nat): State
    requires b < |s.blocks| && j < |s.slots|
  {
    var k := s.blocks[b];
    s.(slots := s.slots[j := Shared(b)], blocks := s.blocks[b := k.(shared := Inc(k.shared))])
  }

  function KeepWeak(s: State, b: nat, j: nat): State
    requires b < |s.blocks| && j < |s.slots|
  {
    var k := s.blocks[b];
    s.(slots := s.slots[j := Weak(b, 0)], blocks := s.blocks[b := k.(weak := Inc(k.weak))])
  }

  /** `drop_shared` up to its atomic decrement. */
  function DropShared(s: State, b: nat, i: nat): State
    requires b < |s.blocks| && i < |s.slots|
  {
    var k := s.blocks[b];
    State(s.slots[i := Empty], s.blocks[b := k.(shared := Dec(k.shared))],
          if k.shared == 0 then s.tasks + multiset{Dispose(b)} else s.tasks)
  }

  /** `drop_weak` up to its atomic decrement. */
  function LowerWeak(s: State, b: nat): State
    requires b < |s.blocks|
  {
    var k := s.blocks[b];
    s.(blocks := s.blocks[b := k.(weak := Dec(k.weak))],
       tasks := if k.weak == 0 then s.tasks + multiset{Delete(b)} else s.tasks)
  }

  function Done(s: State, t: Task): State
    requires t.b < |s.blocks|
  {
    var s1 := s.(tasks := s.tasks - multiset{t});
    var k := s.blocks[t.b];
    match t
    case Dispose(b) =>
      s1.(blocks := s.blocks[b := k.(disposed := k.disposed + 1)], tasks := s1.tasks + multiset{Release(b)})
    case Release(b) => LowerWeak(s1, b)
    case Delete(b) => s1.(blocks := s.blocks[b := k.(freed := k.freed + 1)])
  }

  const NEW_BLOCK := Block(0, 0, 0, 0, false, false)

  function Exec(s: State, m: Move): State
    requires Enabled(s, m) && Named(s)
  {
    match m
    case Declare => s.(slots := s.slots + [Empty])
    case Make(i) => s.(slots := s.slots[i := Shared(|s.blocks|)], blocks := s.blocks + [NEW_BLOCK])
    case MakeSelf => s.(blocks := s.blocks + [NEW_BLOCK.(building := true)])
    case SelfWeak(b, i) => KeepWeak(s, b, i)
    case SelfLock(b, i) => KeepShared(s, b, i)
    case Finish(b, i) =>
      s.(slots := s.slots[i := Shared(b)], blocks := s.blocks[b := s.blocks[b].(building := false)])
    case Throw(b) =>
      var k := s.blocks[b];
      s.(blocks := s.blocks[b := k.(building := false, failed := true, freed := k.freed + 1)])
    case CopyShared(i, j) => KeepShared(s, s.slots[i].b, j)
    case CopyWeak(i, j) => KeepWeak(s, s.slots[i].b, j)
    case Take(i, j) => s.(slots := s.slots[j := s.slots[i]][i := Empty])
    case Swap(i, j) => s.(slots := s.slots[i := s.slots[j]][j := s.slots[i]])
    case Drop(i) =>
      (match s.slots[i]
       case Empty => s
       case Shared(b) => DropShared(s, b, i)
       case Weak(b, _) => LowerWeak(s.(slots := s.slots[i := Empty]), b))
    case LockTest(i) =>
      var b := s.slots[i].b;
      if UseCount(s.blocks[b]) == 0 then s
      else s.(slots := s.slots[i := Weak(b, s.slots[i].busy + 1)])
    case LockTake(i, j) =>
      var b := s.slots[i].b;
      KeepShared(s.(slots := s.slots[i := Weak(b, s.slots[i].busy - 1)]), b, j)
    case Perform(t) => Done(s, t)
  }

  // ----- who refers to a block -----

  function Shareds(h: seq<Handle>, b: nat): nat {
    if h == [] then 0 else Shareds(h[..|h| - 1], b) + OneShared(h[|h| - 1], b)
  }

  function Weaks(h: seq<Handle>, b: nat): nat {
    if h == [] then 0 else Weaks(h[..|h| - 1], b) + OneWeak(h[|h| - 1], b)
  }

  function OneShared(h: Handle, b: nat): nat { if h == Shared(b) then 1 else 0 }

  function OneWeak(h: Handle, b: nat): nat { if h.Weak? && h.b == b then 1 else 0 }

  lemma {:induction false} PutCounts(h: seq<Handle>, i: nat, x: Handle, b: nat)
    requires i < |h|
    ensures Shareds(h[i := x], b) == Shareds(h, b) - OneShared(h[i], b) + OneShared(x, b)
    ensures Weaks(h[i := x], b) == Weaks(h, b) - OneWeak(h[i], b) + OneWeak(x, b)
  {
    var n := |h| - 1;
    if i < n {
      assert h[i := x][..n] == h[..n][i := x];
      PutCounts(h[..n], i, x, b);
    } else {
      assert h[i := x][..n] == h[..n];
    }
  }

  lemma {:induction false} CountsFit(h: seq<Handle>, b: nat)
    ensures Shareds(h, b) + Weaks(h, b) <= |h|
  {
    if h != [] { CountsFit(h[..|h| - 1], b); }
  }

  lemma {:induction false} CountsSee(h: seq<Handle>, i: nat, b: nat)
    requires i < |h|
    ensures OneShared(h[i], b) <= Shareds(h, b) && OneWeak(h[i], b) <= Weaks(h, b)
  {
    if i < |h| - 1 { CountsSee(h[..|h| - 1], i, b); }
  }

  lemma {:induction false} CountsFind(h: seq<Handle>, b: nat) returns (i: nat)
    requires Shareds(h, b) + Weaks(h, b) > 0
    ensures i < |h| && !h[i].Empty? && h[i].b == b
  {
    i := |h| - 1;
    if h[i].Empty? || h[i].b != b { i := CountsFind(h[..i], b); }
  }

  lemma {:induction false} CountsOfNew(h: seq<Handle>, n: nat, b: nat)
    requires b >= n && forall i :: 0 <= i < |h| && !h[i].Empty? ==> h[i].b < n
    ensures Shareds(h, b) == 0 && Weaks(h, b) == 0
  {
    if h != [] { CountsOfNew(h[..|h| - 1], n, b); }
  }

  datatype Tally = Tally(sh: nat, wk: nat, disp: nat, rel: nat, del: nat)

  function TallyOf(s: State, b: nat): Tally {
    Tally(Shareds(s.slots, b), Weaks(s.slots, b), s.tasks[Dispose(b)], s.tasks[Release(b)], s.tasks[Delete(b)])
  }

  // ----- the invariant -----

  /** Owners of a block, among them the `make_shared` that is still building it. */
  function Owners(k: Block, t: Tally): nat { t.sh + (if k.building then 1 else 0) }

  /** The weak count that all owners hold together, until the last of them releases it. */
  function Joint(k: Block, t: Tally): nat { if Owners(k, t) > 0 || t.disp + t.rel > 0 then 1 else 0 }

  /** Counts are kept minus one. */
  function Stored(n: nat): Word
    requires n < WORD
  {
    if n == 0 then WORD - 1 else n - 1
  }

  predicate Counted(k: Block, t: Tally) {
    && t.sh + t.wk <= MAX_HANDLES
    && (k.failed ==> !k.building && t == Tally(0, 0, 0, 0, 0) && k.freed == 1 && k.disposed == 0)
    && (!k.failed ==>
          && k.shared == Stored(Owners(k, t)) && k.weak == Stored(t.wk + Joint(k, t))
          && k.disposed + t.disp == (if Owners(k, t) > 0 then 0 else 1)
          && t.disp + t.rel <= 1 && (Owners(k, t) > 0 ==> t.rel == 0)
          && k.freed + t.del == (if t.wk + Joint(k, t) == 0 then 1 else 0))
  }

  predicate Inv(s: State) {
    && |s.slots| <= MAX_HANDLES && Named(s)
    && forall b :: 0 <= b < |s.blocks| ==> Counted(s.blocks[b], TallyOf(s, b))
  }

  const INIT := State([], [], multiset{})

  /** The two steps whose safety the program has to provide: `lock` increments after its
      test, and a throwing constructor must not have kept references to itself. */
  predicate Timely(s: State, m: Move)
    requires Enabled(s, m) && Named(s)
  {
    match m
    case LockTake(i, _) => Owners(s.blocks[s.slots[i].b], TallyOf(s, s.slots[i].b)) > 0
    case Throw(b) => Shareds(s.slots, b) + Weaks(s.slots, b) == 0
    case _ => true
  }

  // ----- every step, block by block -----

  predicate SameElsewhere(s: State, r: State, b: nat) {
    && |r.blocks| == |s.blocks| && |r.slots| == |s.slots|
    && forall c: nat :: c < |s.blocks| && c != b ==> r.blocks[c] == s.blocks[c] && TallyOf(r, c) == TallyOf(s, c)
  }

  /** A step that touches one block need only be checked on that block. */
  lemma OneBlock(s: State, r: State, b: nat)
    requires Inv(s) && SameElsewhere(s, r, b) && b < |s.blocks| && Named(r)
    ensures Inv(r) <==> Counted(r.blocks[b], TallyOf(r, b))
  {
    if Counted(r.blocks[b], TallyOf(r, b)) {
      forall c | 0 <= c < |r.blocks| ensures Counted(r.blocks[c], TallyOf(r, c)) {
        if c != b { assert Counted(s.blocks[c], TallyOf(s, c)); }
      }
    }
  }

  lemma KeepSharedStep(s: State, b: nat, j: nat)
    requires Inv(s) && b < |s.blocks| && Vacant(s, j)
    ensures SameElsewhere(s, KeepShared(s, b, j), b) && Named(KeepShared(s, b, j))
    ensures var t := TallyOf(s, b); TallyOf(KeepShared(s, b, j), b) == t.(sh := t.sh + 1)
  {
    forall c: nat { PutCounts(s.slots, j, Shared(b), c); }
  }

  lemma KeepWeakStep(s: State, b: nat, j: nat)
    requires Inv(s) && b < |s.blocks| && Vacant(s, j)
    ensures SameElsewhere(s, KeepWeak(s, b, j), b) && Named(KeepWeak(s, b, j))
    ensures var t := TallyOf(s, b); TallyOf(KeepWeak(s, b, j), b) == t.(wk := t.wk + 1)
  {
    forall c: nat { PutCounts(s.slots, j, Weak(b, 0), c); }
  }

  lemma SharedKept(s: State, b: nat, j: nat)
    requires Inv(s) && b < |s.blocks| && Vacant(s, j) && !s.blocks[b].failed
    ensures Inv(KeepShared(s, b, j)) <==> Owners(s.blocks[b], TallyOf(s, b)) > 0
  {
    var r := KeepShared(s, b, j);
    KeepSharedStep(s, b, j);
    CountsFit(r.slots, b);
    OneBlock(s, r, b);
  }

  lemma WeakKept(s: State, b: nat, j: nat)
    requires Inv(s) && b < |s.blocks| && Vacant(s, j) && !s.blocks[b].failed
    requires Weaks(s.slots, b) + Joint(s.blocks[b], TallyOf(s, b)) > 0
    ensures Inv(KeepWeak(s, b, j))
  {
    var r := KeepWeak(s, b, j);
    KeepWeakStep(s, b, j);
    CountsFit(r.slots, b);
    OneBlock(s, r, b);
  }

  /** A block that something refers to was built and is still there. */
  lemma Referred(s: State, i: nat)
    requires Inv(s) && i < |s.slots| && !s.slots[i].Empty?
    ensures var b := s.slots[i].b; var k, t := s.blocks[b], TallyOf(s, b);
      && !k.failed && k.freed == 0 && t.wk + Joint(k, t) > 0
      && (s.slots[i].Shared? ==> Owners(k, t) > 0 && k.disposed == 0)
  {
    CountsSee(s.slots, i, s.slots[i].b);
    assert Counted(s.blocks[s.slots[i].b], TallyOf(s, s.slots[i].b));
  }

  lemma SharedDropped(s: State, i: nat)
    requires Inv(s) && i < |s.slots| && s.slots[i].Shared?
    ensures Inv(DropShared(s, s.slots[i].b, i))
  {
    var b := s.slots[i].b;
    var r := DropShared(s, b, i);
    forall c: nat { PutCounts(s.slots, i, Empty, c); }
    Referred(s, i);
    CountsSee(s.slots, i, b);
    assert SameElsewhere(s, r, b);
    assert Counted(s.blocks[b], TallyOf(s, b));
    OneBlock(s, r, b);
  }

  lemma WeakDropped(s: State, i: nat)
    requires Inv(s) && i < |s.slots| && s.slots[i].Weak?
    ensures Inv(LowerWeak(s.(slots := s.slots[i := Empty]), s.slots[i].b))
  {
    var b := s.slots[i].b;
    var r := LowerWeak(s.(slots := s.slots[i := Empty]), b);
    forall c: nat { PutCounts(s.slots, i, Empty, c); }
    Referred(s, i);
    CountsSee(s.slots, i, b);
    assert SameElsewhere(s, r, b);
    assert Counted(s.blocks[b], TallyOf(s, b));
    OneBlock(s, r, b);
  }

  lemma Disposed(s: State, b: nat)
    requires Inv(s) && Dispose(b) in s.tasks
    ensures Inv(Done(s, Dispose(b)))
  {
    var r, t := Done(s, Dispose(b)), TallyOf(s, b);
    assert Counted(s.blocks[b], t);
    assert TallyOf(r, b) == t.(disp := t.disp - 1, rel := t.rel + 1);
    OneBlock(s, r, b);
  }

  lemma Released(s: State, b: nat)
    requires Inv(s) && Release(b) in s.tasks
    ensures Inv(Done(s, Release(b)))
  {
    var r, t := Done(s, Release(b)), TallyOf(s, b);
    assert Counted(s.blocks[b], t);
    assert TallyOf(r, b) == t.(rel := t.rel - 1, del := if s.blocks[b].weak == 0 then t.del + 1 else t.del);
    OneBlock(s, r, b);
  }

  lemma Deleted(s: State, b: nat)
    requires Inv(s) && Delete(b) in s.tasks
    ensures Inv(Done(s, Delete(b)))
  {
    var r, t := Done(s, Delete(b)), TallyOf(s, b);
    assert Counted(s.blocks[b], t);
    assert TallyOf(r, b) == t.(del := t.del - 1);
    OneBlock(s, r, b);
  }

  lemma Rebusy(s: State, i: nat, n: nat)
    requires Inv(s) && i < |s.slots| && s.slots[i].Weak?
    ensures var r := s.(slots := s.slots[i := Weak(s.slots[i].b, n)]);
      Inv(r) && forall c: nat :: TallyOf(r, c) == TallyOf(s, c)
  {
    var r := s.(slots := s.slots[i := Weak(s.slots[i].b, n)]);
    forall c: nat ensures TallyOf(r, c) == TallyOf(s, c) {
      PutCounts(s.slots, i, Weak(s.slots[i].b, n), c);
    }
    AllSame(s, r);
  }

  /** A step that only rearranges handles. */
  lemma AllSame(s: State, r: State)
    requires Inv(s) && r.blocks == s.blocks && r.tasks == s.tasks && |r.slots| == |s.slots| && Named(r)
    requires forall c: nat :: TallyOf(r, c) == TallyOf(s, c)
    ensures Inv(r)
  {
    forall c | 0 <= c < |r.blocks| ensures Counted(r.blocks[c], TallyOf(r, c)) {
      assert Counted(s.blocks[c], TallyOf(s, c));
    }
  }

  lemma Moved(s: State, i: nat, j: nat)
    requires Inv(s) && i < |s.slots| && j < |s.slots|
    ensures Inv(s.(slots := s.slots[i := s.slots[j]][j := s.slots[i]]))
  {
    var r := s.(slots := s.slots[i := s.slots[j]][j := s.slots[i]]);
    forall c: nat ensures TallyOf(r, c) == TallyOf(s, c) {
      PutCounts(s.slots, i, s.slots[j], c);
      PutCounts(s.slots[i := s.slots[j]], j, s.slots[i], c);
    }
    AllSame(s, r);
  }

  lemma Declared(s: State)
    requires Inv(s) && |s.slots| < MAX_HANDLES
    ensures Inv(Exec(s, Declare))
  {
    var r := Exec(s, Declare);
    assert r.slots[..|s.slots|] == s.slots;
    forall c | 0 <= c < |r.blocks| ensures Counted(r.blocks[c], TallyOf(r, c)) {
      assert Counted(s.blocks[c], TallyOf(s, c));
    }
  }

  lemma NewBlock(s: State, r: State, k: Block)
    requires Inv(s) && |r.slots| == |s.slots| && r.blocks == s.blocks + [k] && r.tasks == s.tasks && Named(r)
    requires forall c: nat :: c < |s.blocks| ==> TallyOf(r, c) == TallyOf(s, c)
    requires Counted(k, TallyOf(r, |s.blocks|))
    ensures Inv(r)
  {
    forall c | 0 <= c < |r.blocks| ensures Counted(r.blocks[c], TallyOf(r, c)) {
      if c < |s.blocks| { assert Counted(s.blocks[c], TallyOf(s, c)); }
    }
  }

  lemma FreshTally(s: State)
    requires Inv(s)
    ensures TallyOf(s, |s.blocks|) == Tally(0, 0, 0, 0, 0)
  {
    CountsOfNew(s.slots, |s.blocks|, |s.blocks|);
    var b := |s.blocks|;
    assert Dispose(b) !in s.tasks && Release(b) !in s.tasks && Delete(b) !in s.tasks;
  }

  lemma MadeShared(s: State, i: nat)
    requires Inv(s) && Vacant(s, i)
    ensures Inv(Exec(s, Make(i)))
  {
    var r := Exec(s, Make(i));
    FreshTally(s);
    forall c: nat { PutCounts(s.slots, i, Shared(|s.blocks|), c); }
    NewBlock(s, r, NEW_BLOCK);
  }

  lemma MadeSelf(s: State)
    requires Inv(s)
    ensures Inv(Exec(s, MakeSelf))
  {
    FreshTally(s);
    NewBlock(s, Exec(s, MakeSelf), NEW_BLOCK.(building := true));
  }

  lemma Finished(s: State, b: nat, i: nat)
    requires Inv(s) && Raising(s, b) && Vacant(s, i)
    ensures Inv(Exec(s, Finish(b, i)))
  {
    var r := Exec(s, Finish(b, i));
    forall c: nat { PutCounts(s.slots, i, Shared(b), c); }
    CountsFit(r.slots, b);
    assert Counted(s.blocks[b], TallyOf(s, b));
    OneBlock(s, r, b);
  }

  lemma Thrown(s: State, b: nat)
    requires Inv(s) && Raising(s, b)
    ensures Inv(Exec(s, Throw(b))) <==> Timely(s, Throw(b))
  {
    var k, t := s.blocks[b], TallyOf(s, b);
    assert Counted(k, t);
    ThrowStep(s, b);
    ThrownCounts(k, t, Exec(s, Throw(b)).blocks[b]);
    OneBlock(s, Exec(s, Throw(b)), b);
  }

  lemma ThrowStep(s: State, b: nat)
    requires Inv(s) && Raising(s, b)
    ensures var r := Exec(s, Throw(b));
      && SameElsewhere(s, r, b) && Named(r) && TallyOf(r, b) == TallyOf(s, b)
      && r.blocks[b] == s.blocks[b].(building := false, failed := true, freed := s.blocks[b].freed + 1)
  {
  }

  lemma ThrownCounts(k: Block, t: Tally, k': Block)
    requires Counted(k, t) && k.building && k' == k.(building := false, failed := true, freed := k.freed + 1)
    ensures Counted(k', t) <==> t.sh + t.wk == 0
  {
  }

  lemma Locked(s: State, i: nat, j: nat)
    requires Inv(s) && Enabled(s, LockTake(i, j))
    ensures Inv(Exec(s, LockTake(i, j))) <==> Timely(s, LockTake(i, j))
  {
    var b := s.slots[i].b;
    Rebusy(s, i, s.slots[i].busy - 1);
    Referred(s, i);
    SharedKept(s.(slots := s.slots[i := Weak(b, s.slots[i].busy - 1)]), b, j);
  }

  /** Every step keeps the invariant, except exactly the two kinds of untimely step. */
  lemma StepExact(s: State, m: Move)
    requires Inv(s) && Enabled(s, m)
    ensures Inv(Exec(s, m)) <==> Timely(s, m)
  {
    match m {
      case Declare => Declared(s);
      case Make(i) => MadeShared(s, i);
      case MakeSelf => MadeSelf(s);
      case SelfWeak(b, i) =>
        assert Counted(s.blocks[b], TallyOf(s, b));
        WeakKept(s, b, i);
      case SelfLock(b, i) =>
        assert Counted(s.blocks[b], TallyOf(s, b));
        SharedKept(s, b, i);
      case Finish(b, i) => Finished(s, b, i);
      case Throw(b) => Thrown(s, b);
      case CopyShared(i, j) =>
        Referred(s, i);
        SharedKept(s, s.slots[i].b, j);
      case CopyWeak(i, j) =>
        Referred(s, i);
        WeakKept(s, s.slots[i].b, j);
      case Take(i, j) =>
        assert s.slots[i := s.slots[j]][j := s.slots[i]] == s.slots[j := s.slots[i]][i := Empty];
        Moved(s, i, j);
      case Swap(i, j) => Moved(s, i, j);
      case Drop(i) =>
        match s.slots[i] {
          case Empty =>
          case Shared(_) => SharedDropped(s, i);
          case Weak(_, _) => WeakDropped(s, i);
        }
      case LockTest(i) => Rebusy(s, i, s.slots[i].busy + 1);
      case LockTake(i, j) => Locked(s, i, j);
      case Perform(t) =>
        match t {
          case Dispose(b) => Disposed(s, b);
          case Release(b) => Released(s, b);
          case Delete(b) => Deleted(s, b);
        }
    }
  }

  // ----- runs -----

  predicate Step(s: State, m: Move, r: State) {
    Named(s) && Enabled(s, m) && Timely(s, m) && r == Exec(s, m)
  }

  /** A run from the empty program, by steps none of which is untimely. */
  predicate Run(tr: seq<State>, ms: seq<Move>) {
    && |tr| == |ms| + 1 && tr[0] == INIT
    && forall k :: 0 <= k < |ms| ==> Step(tr[k], ms[k], tr[k + 1])
  }

  /** The counts are right at every point of every run. */
  lemma {:induction false} RunInv(tr: seq<State>, ms: seq<Move>, n: nat)
    requires Run(tr, ms) && n <= |ms|
    ensures Inv(tr[n])
  {
    if n > 0 {
      RunInv(tr, ms, n - 1);
      assert Step(tr[n - 1], ms[n - 1], tr[n - 1 + 1]);
      StepExact(tr[n - 1], ms[n - 1]);
    }
  }

  lemma RunCounts(tr: seq<State>, ms: seq<Move>, n: nat, b: nat)
    requires Run(tr, ms) && n <= |ms| && b < |tr[n].blocks|
    ensures var k, t := tr[n].blocks[b], TallyOf(tr[n], b);
      && k.disposed <= 1 && k.freed <= 1
      && (k.freed == 1 ==> t == Tally(0, 0, 0, 0, 0) && (k.disposed == 1 || k.failed))
      && (k.disposed == 1 ==> t.sh == 0)
      && (!k.failed ==> UseCount(k) == Owners(k, t))
      && (Owners(k, t) > 0 ==> k.weak == t.wk)
  {
    RunInv(tr, ms, n);
    assert Counted(tr[n].blocks[b], TallyOf(tr[n], b));
  }

  /** When every handle is gone and no thread has work left, every object has been
      destroyed and every block deleted, each exactly once. */
  lemma NothingLeaks(tr: seq<State>, ms: seq<Move>, n: nat, b: nat)
    requires Run(tr, ms) && n <= |ms| && b < |tr[n].blocks|
    requires tr[n].tasks == multiset{} && !tr[n].blocks[b].building
    requires forall i :: 0 <= i < |tr[n].slots| && !tr[n].slots[i].Empty? ==> tr[n].slots[i].b != b
    ensures var k := tr[n].blocks[b]; k.freed == 1 && k.disposed == (if k.failed then 0 else 1)
  {
    RunInv(tr, ms, n);
    assert Counted(tr[n].blocks[b], TallyOf(tr[n], b));
    if Shareds(tr[n].slots, b) + Weaks(tr[n].slots, b) > 0 {
      var i := CountsFind(tr[n].slots, b);
      assert false;
    }
  }

  /** The block whose memory a step reads or writes. */
  function Touched(s: State, m: Move): (b: nat)
    requires Enabled(s, m) && Named(s)
  {
    match m
    case SelfWeak(b, _) => b
    case SelfLock(b, _) => b
    case Throw(b) => b
    case CopyShared(i, _) => s.slots[i].b
    case CopyWeak(i, _) => s.slots[i].b
    case Drop(i) => if s.slots[i].Empty? then |s.blocks| else s.slots[i].b
    case LockTest(i) => s.slots[i].b
    case LockTake(i, _) => s.slots[i].b
    case Perform(t) => t.b
    case _ => |s.blocks|
  }

  /** No step, not even an untimely one, touches a deleted block. */
  lemma TouchesLive(s: State, m: Move)
    requires Inv(s) && Enabled(s, m) && Touched(s, m) < |s.blocks|
    ensures s.blocks[Touched(s, m)].freed == 0
  {
    var b := Touched(s, m);
    assert Counted(s.blocks[b], TallyOf(s, b));
    match m {
      case CopyShared(i, _) => Referred(s, i);
      case CopyWeak(i, _) => Referred(s, i);
      case Drop(i) => Referred(s, i);
      case LockTest(i) => Referred(s, i);
      case LockTake(i, _) => Referred(s, i);
      case _ =>
    }
  }

  /** The test of `lock` passes exactly when there is an owner, so a `lock` that is not
      interrupted between its two accesses is timely. */
  lemma LockTestExact(s: State, i: nat)
    requires Inv(s) && Enabled(s, LockTest(i))
    ensures var b := s.slots[i].b;
      Exec(s, LockTest(i)) != s <==> Owners(s.blocks[b], TallyOf(s, b)) > 0
  {
    var b := s.slots[i].b;
    Referred(s, i);
    assert Counted(s.blocks[b], TallyOf(s, b));
    if UseCount(s.blocks[b]) != 0 {
      assert Exec(s, LockTest(i)).slots[i].busy == s.slots[i].busy + 1;
    }
  }

  lemma LockAtOnce(s: State, i: nat, j: nat)
    requires Inv(s) && Enabled(s, LockTest(i)) && Vacant(s, j) && Exec(s, LockTest(i)) != s
    ensures var s1 := Exec(s, LockTest(i));
      Inv(s1) && Enabled(s1, LockTake(i, j)) && Timely(s1, LockTake(i, j))
  {
    LockTestExact(s, i);
    StepExact(s, LockTest(i));
    Rebusy(s, i, s.slots[i].busy + 1);
  }

  /** The counter that a step increments, as `incref` reads it. */
  function Kept(s: State, m: Move): (r: Word)
    requires Enabled(s, m) && Named(s)
  {
    match m
    case SelfWeak(b, _) => s.blocks[b].weak
    case SelfLock(b, _) => s.blocks[b].shared
    case CopyShared(i, _) => s.blocks[s.slots[i].b].shared
    case CopyWeak(i, _) => s.blocks[s.slots[i].b].weak
    case LockTake(i, _) => s.blocks[s.slots[i].b].shared
    case _ => 0
  }

  /** The trap of the checking build goes off exactly when `lock` comes too late. */
  lemma TrapExact(s: State, m: Move)
    requires Inv(s) && Enabled(s, m)
    ensures Kept(s, m) >= SIGN <==> m.LockTake? && !Timely(s, m)
  {
    match m {
      case SelfWeak(b, _) => assert Counted(s.blocks[b], TallyOf(s, b));
      case SelfLock(b, _) => assert Counted(s.blocks[b], TallyOf(s, b));
      case CopyShared(i, _) =>
        Referred(s, i);
        assert Counted(s.blocks[s.slots[i].b], TallyOf(s, s.slots[i].b));
      case CopyWeak(i, _) =>
        Referred(s, i);
        assert Counted(s.blocks[s.slots[i].b], TallyOf(s, s.slots[i].b));
      case LockTake(i, _) =>
        Referred(s, i);
        assert Counted(s.blocks[s.slots[i].b], TallyOf(s, s.slots[i].b));
      case _ =>
    }
  }

  /** The last owner of an object goes. */
  lemma LastOwnerGoes(s: State, k: nat)
    requires Inv(s) && k < |s.slots| && s.slots[k].Shared?
    requires Owners(s.blocks[s.slots[k].b], TallyOf(s, s.slots[k].b)) == 1
    ensures var b, s1 := s.slots[k].b, Exec(s, Drop(k));
      && Inv(s1) && Enabled(s1, Perform(Dispose(b)))
      && s1.slots == s.slots[k := Empty] && s1.blocks[b].disposed == 0
      && Owners(s1.blocks[b], TallyOf(s1, b)) == 0
  {
    var b, s1 := s.slots[k].b, Exec(s, Drop(k));
    CountsSee(s.slots, k, b);
    assert Counted(s.blocks[b], TallyOf(s, b));
    StepExact(s, Drop(k));
    PutCounts(s.slots, k, Empty, b);
    assert Counted(s1.blocks[b], TallyOf(s1, b));
  }

  lemma DisposeRuns(s: State, b: nat)
    requires Inv(s) && Enabled(s, Perform(Dispose(b)))
    ensures var r := Exec(s, Perform(Dispose(b)));
      && Inv(r) && r.slots == s.slots && r.blocks[b].disposed == s.blocks[b].disposed + 1
      && Owners(r.blocks[b], TallyOf(r, b)) == Owners(s.blocks[b], TallyOf(s, b))
  {
    StepExact(s, Perform(Dispose(b)));
  }

  /** A late `lock`: whenever the one owner goes between the test and the increment, the
      caller gets an owner of a destroyed object. */
  lemma LateLock(s: State, i: nat, j: nat, k: nat)
    requires Inv(s) && i < |s.slots| && s.slots[i].Weak? && s.slots[i].busy > 0 && Vacant(s, j)
    requires k < |s.slots| && s.slots[k] == Shared(s.slots[i].b)
    requires Owners(s.blocks[s.slots[k].b], TallyOf(s, s.slots[k].b)) == 1
    ensures var b := s.slots[i].b;
      && Enabled(s, Drop(k)) && var s1 := Exec(s, Drop(k));
      && Inv(s1) && Enabled(s1, Perform(Dispose(b))) && var s2 := Exec(s1, Perform(Dispose(b)));
      && Inv(s2) && Enabled(s2, LockTake(i, j)) && !Timely(s2, LockTake(i, j))
      && var r := Exec(s2, LockTake(i, j));
      && r.slots[j] == Shared(b) && r.blocks[b].disposed == 1
  {
    LastOwnerGoes(s, k);
    DisposeRuns(Exec(s, Drop(k)), s.slots[i].b);
  }

  /** A state with one owner, a weak handle inside `lock`, and a handle to lock into. */
  const RACE := State([Shared(0), Weak(0, 1), Empty], [NEW_BLOCK.(weak := 1)], multiset{})

  /** Such a state is reached. */
  lemma LateLockReached() returns (tr: seq<State>, ms: seq<Move>)
    ensures Run(tr, ms) && tr[|ms|] == RACE
  {
    var s3 := State([Empty, Empty, Empty], [], multiset{});
    var s1, s2 := ThreeHandles(s3);
    var s4, s5 := OwnerAndWeak(s3, RACE);
    tr, ms := SixSteps(s1, s2, s3, s4, s5, RACE);
  }

  /** So the late `lock` happens on a run: timely steps lead to an increment that is late,
      and after it a caller owns a destroyed object. */
  lemma LateLockHappens() returns (tr: seq<State>, ms: seq<Move>)
    ensures Run(tr, ms)
    ensures var s, m := tr[|ms|], LockTake(1, 2);
      && Inv(s) && Enabled(s, m) && !Timely(s, m)
      && var r := Exec(s, m); r.slots[2] == Shared(0) && r.blocks[0].disposed == 1
  {
    var tr1, ms1 := LateLockReached();
    RunInv(tr1, ms1, |ms1|);
    RaceOwners();
    LateLock(RACE, 1, 2, 0);
    var s1 := Exec(RACE, Drop(0));
    var s2 := Exec(s1, Perform(Dispose(0)));
    tr, ms := RunTwoMore(tr1, ms1, Drop(0), s1, Perform(Dispose(0)), s2);
  }

  lemma RaceOwners()
    ensures Owners(RACE.blocks[0], TallyOf(RACE, 0)) == 1
  {
    var h := RACE.slots;
    assert h[..2] == [Shared(0), Weak(0, 1)] && h[..2][..1] == [Shared(0)] && h[..2][..1][..0] == [];
    assert Shareds(h[..2][..1], 0) == 1;
  }

  lemma RunMore(tr: seq<State>, ms: seq<Move>, m: Move, r: State)
    requires Run(tr, ms) && Step(tr[|ms|], m, r)
    ensures Run(tr + [r], ms + [m])
  {
  }

  lemma RunTwoMore(tr1: seq<State>, ms1: seq<Move>, m: Move, r: State, n: Move, q: State)
    returns (tr: seq<State>, ms: seq<Move>)
    requires Run(tr1, ms1) && Step(tr1[|ms1|], m, r) && Step(r, n, q)
    ensures Run(tr, ms) && tr[|ms|] == q
  {
    RunMore(tr1, ms1, m, r);
    RunMore(tr1 + [r], ms1 + [m], n, q);
    tr, ms := tr1 + [r] + [q], ms1 + [m] + [n];
  }

  lemma ThreeHandles(s3: State) returns (s1: State, s2: State)
    requires s3 == State([Empty, Empty, Empty], [], multiset{})
    ensures Step(INIT, Declare, s1) && Step(s1, Declare, s2) && Step(s2, Declare, s3)
  {
    s1, s2 := State([Empty], [], multiset{}), State([Empty, Empty], [], multiset{});
  }

  lemma OwnerAndWeak(s3: State, s6: State) returns (s4: State, s5: State)
    requires s3 == State([Empty, Empty, Empty], [], multiset{})
    requires s6 == State([Shared(0), Weak(0, 1), Empty], [NEW_BLOCK.(weak := 1)], multiset{})
    ensures Step(s3, Make(0), s4) && Step(s4, CopyWeak(0, 1), s5) && Step(s5, LockTest(1), s6)
  {
    s4 := State([Shared(0), Empty, Empty], [NEW_BLOCK], multiset{});
    s5 := State([Shared(0), Weak(0, 0), Empty], [NEW_BLOCK.(weak := 1)], multiset{});
  }

  lemma SixSteps(s1: State, s2: State, s3: State, s4: State, s5: State, s6: State)
    returns (tr: seq<State>, ms: seq<Move>)
    requires Step(INIT, Declare, s1) && Step(s1, Declare, s2) && Step(s2, Declare, s3)
    requires Step(s3, Make(0), s4) && Step(s4, CopyWeak(0, 1), s5) && Step(s5, LockTest(1), s6)
    ensures Run(tr, ms) && tr[|ms|] == s6
  {
    tr := [INIT, s1, s2, s3, s4, s5, s6];
    ms := [Declare, Declare, Declare, Make(0), CopyWeak(0, 1), LockTest(1)];
  }

  lemma CopyStep(s: State, i: nat, t: nat) returns (r: State)
    requires Inv(s) && i < |s.slots| && s.slots[i].Shared? && Vacant(s, t)
    ensures Step(s, CopyShared(i, t), r) && Inv(r) && r.slots == s.slots[t := s.slots[i]]
  {
    r := Exec(s, CopyShared(i, t));
    StepExact(s, CopyShared(i, t));
  }

  lemma SwapStep(s: State, i: nat, j: nat) returns (r: State)
    requires Inv(s) && Enabled(s, Swap(i, j))
    ensures Step(s, Swap(i, j), r) && Inv(r) && r.slots == s.slots[i := s.slots[j]][j := s.slots[i]]
  {
    r := Exec(s, Swap(i, j));
    StepExact(s, Swap(i, j));
  }

  lemma DropStep(s: State, i: nat) returns (r: State)
    requires Inv(s) && Enabled(s, Drop(i))
    ensures Step(s, Drop(i), r) && Inv(r) && r.slots == s.slots[i := Empty]
  {
    r := Exec(s, Drop(i));
    StepExact(s, Drop(i));
  }

  /** Assignment copies into a temporary, swaps and destroys the temporary.  It may
      assign a handle to itself. */
  lemma Assigned(s: State, i: nat, j: nat, t: nat) returns (s1: State, s2: State, s3: State)
    requires Inv(s) && i < |s.slots| && j < |s.slots| && s.slots[i].Shared? && Vacant(s, t) && j != t
    requires s.slots[j].Shared? || s.slots[j].Empty?
    ensures Step(s, CopyShared(i, t), s1) && Step(s1, Swap(t, j), s2) && Step(s2, Drop(t), s3)
    ensures Inv(s3) && s3.slots == s.slots[j := s.slots[i]]
  {
    s1 := CopyStep(s, i, t);
    s2 := SwapStep(s1, t, j);
    s3 := DropStep(s2, t);
    assert s3.slots == s.slots[j := s.slots[i]];
  }
}
