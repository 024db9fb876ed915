/** Programs over several strings: every run does to the texts what it would do to plain
    sequences, and neither leaks nor shares a buffer. */
module CtlStringRuns {
  import opened Bytes
  import opened CtlStringRep
  import opened CtlString

  /** Operations on one string; views do not overlap its own buffer. */
  datatype Edit =
    | Append(s: seq<byte>)
    | AppendFill(ch: byte, n: nat)
    | AppendChar(ch: byte)
    | Resize(n: nat, ch: byte)
    | PopBack
    | Replace(pos: nat, count: nat, s: seq<byte>)
    | Insert(pos: nat, s: seq<byte>)
    | Erase(pos: nat, count: nat)
    | AssignView(s: seq<byte>)
    | Reserve(n: nat)
    | Clear

  /** Arguments are 64-bit. */
  predicate Sized(e: Edit) {
    match e
    case Append(s) => |s| < WORD
    case AppendFill(_, n) => n < WORD
    case Resize(n, _) => n < WORD
    case Replace(pos, count, s) => pos < WORD && count < WORD && |s| < WORD
    case Insert(pos, s) => pos < WORD && |s| < WORD
    case Erase(pos, count) => pos < WORD && count < WORD
    case AssignView(s) => |s| < WORD
    case Reserve(n) => n < WORD
    case _ => true
  }

  /** Whether the position arguments make sense for a text. */
  predicate InRange(t: seq<byte>, e: Edit) {
    match e
    case PopBack => t != []
    case Replace(pos, count, _) => pos + count <= |t|
    case Insert(pos, _) => pos <= |t|
    case Erase(pos, _) => pos <= |t|
    case _ => true
  }

  function Edited(t: seq<byte>, e: Edit): seq<byte>
    requires InRange(t, e)
  {
    match e
    case Append(s) => t + s
    case AppendFill(ch, n) => t + Fill(ch, n)
    case AppendChar(ch) => t + [ch]
    case Resize(n, ch) => Resized(t, n, ch)
    case PopBack => t[..|t| - 1]
    case Replace(pos, count, s) => t[..pos] + s + t[pos + count..]
    case Insert(pos, s) => t[..pos] + s + t[pos..]
    case Erase(pos, count) => t[..pos] + t[Min(pos + count, |t|)..]
    case AssignView(s) => s
    case Reserve(_) => t
    case Clear => []
  }

  /** Whether a length comes near what the representation or the arithmetic can hold. */
  predicate TooLong(t: seq<byte>, e: Edit) {
    match e
    case Append(s) => 3 * (|t| + |s| + 1) + 32 >= WORD
    case AppendFill(_, n) => 3 * (|t| + n + 1) + 32 >= WORD
    case AppendChar(_) => 3 * (|t| + 2) + 32 >= WORD
    case Resize(n, _) => Max(n, |t|) + 16 >= BIG_BIT
    case Replace(pos, count, s) => pos + count >= WORD || |t| + |s| + 16 >= BIG_BIT
    case Insert(_, s) => |t| + |s| + 16 >= BIG_BIT
    case AssignView(s) => 3 * (|s| + 1) + 32 >= WORD
    case Reserve(n) => Max(n, |t| + 1) + 15 >= BIG_BIT
    case _ => false
  }

  /** The ways an edit may end: it traps only for a length, for want of memory or for a
      position, and only with reason. */
  predicate EditEnds(o: Outcome, t: seq<byte>, e: Edit, refused: bool) {
    match o
    case Done => InRange(t, e)
    case Overflow => TooLong(t, e)
    case NoMemory => refused
    case BadPosition => !InRange(t, e)
    case Corrupt => false
  }

  /** Edits at a position, which may be out of range. */
  predicate Positional(e: Edit) { e.PopBack? || e.Replace? || e.Insert? || e.Erase? }

  method DoEdit(v: Str, e: Edit) returns (o: Outcome)
    requires v.Valid() && Sized(e)
    modifies v, v.heap
    ensures EditEnds(o, old(v.Value()), e, v.heap.refused)
    ensures o == Done ==> InRange(old(v.Value()), e) && v.Valid() && v.Value() == Edited(old(v.Value()), e)
    ensures o == Done ==> Only(old(v.heap.blocks), v.heap.blocks, old(Owned(v.blob)), Owned(v.blob))
  {
    if Positional(e) {
      o := DoPositional(v, e);
    } else {
      o := DoWhole(v, e);
    }
  }

  method DoPositional(v: Str, e: Edit) returns (o: Outcome)
    requires v.Valid() && Sized(e) && Positional(e)
    modifies v, v.heap
    ensures EditEnds(o, old(v.Value()), e, v.heap.refused)
    ensures o == Done ==> InRange(old(v.Value()), e) && v.Valid() && v.Value() == Edited(old(v.Value()), e)
    ensures o == Done ==> Only(old(v.heap.blocks), v.heap.blocks, old(Owned(v.blob)), Owned(v.blob))
  {
    match e {
      case PopBack => o := v.PopBack();
      case Replace(pos, count, s) => o := v.Replace(pos, count, s);
      case Insert(pos, s) => o := v.Insert(pos, s);
      case Erase(pos, count) => o := v.Erase(pos, count);
    }
  }

  method DoWhole(v: Str, e: Edit) returns (o: Outcome)
    requires v.Valid() && Sized(e) && !Positional(e)
    modifies v, v.heap
    ensures EditEnds(o, old(v.Value()), e, v.heap.refused)
    ensures o == Done ==> InRange(old(v.Value()), e) && v.Valid() && v.Value() == Edited(old(v.Value()), e)
    ensures o == Done ==> Only(old(v.heap.blocks), v.heap.blocks, old(Owned(v.blob)), Owned(v.blob))
  {
    match e {
      case Append(s) => o := v.Append(s);
      case AppendFill(ch, n) => o := v.AppendFill(ch, n);
      case AppendChar(ch) => o := v.AppendChar(ch);
      case Resize(n, ch) => o := v.Resize(n, ch);
      case AssignView(s) => o := v.AssignView(s);
      case Reserve(n) => o := v.Reserve(n);
      case Clear =>
        v.Clear();
        o := Done;
    }
  }

  // ----- several strings -----

  ghost predicate AllGood(bs: seq<Blob>, blocks: Blocks) {
    forall i {:trigger Good(bs[i], blocks)} :: 0 <= i < |bs| ==> Good(bs[i], blocks)
  }

  ghost predicate Unshared(bs: seq<Blob>) {
    forall i, j :: 0 <= i < j < |bs| ==> Owned(bs[i]) !! Owned(bs[j])
  }

  ghost predicate Unleaked(bs: seq<Blob>, blocks: Blocks) {
    forall q :: q in blocks ==> exists i :: 0 <= i < |bs| && q in Owned(bs[i])
  }

  /** All strings are good, no two share a buffer, and no buffer is lost. */
  ghost predicate Together(bs: seq<Blob>, blocks: Blocks) {
    AllGood(bs, blocks) && Unshared(bs) && Unleaked(bs, blocks)
  }

  ghost function TextOf(b: Blob, blocks: Blocks): seq<byte> {
    if Good(b, blocks) then Text(b, blocks) else []
  }

  ghost function Texts(bs: seq<Blob>, blocks: Blocks): (ts: seq<seq<byte>>)
    ensures |ts| == |bs| && forall i :: 0 <= i < |bs| ==> ts[i] == TextOf(bs[i], blocks)
  {
    seq(|bs|, i requires 0 <= i < |bs| => TextOf(bs[i], blocks))
  }

  lemma KeptGood(b: Blob, was: Blocks, now: Blocks, mine: set<nat>, yours: set<nat>)
    requires Good(b, was) && Only(was, now, mine, yours) && Owned(b) !! mine
    ensures Good(b, now) && TextOf(b, now) == TextOf(b, was) && Owned(b) !! yours
  {
    if IsBig(b) {
      assert Pointer(b) in was && Pointer(b) !in mine;
    }
  }

  /** One string changes, together with the heap. */
  lemma OneChanged(bs: seq<Blob>, was: Blocks, v: nat, b: Blob, now: Blocks)
    requires Together(bs, was) && v < |bs| && Good(b, now) && Only(was, now, Owned(bs[v]), Owned(b))
    ensures Together(bs[v := b], now) && Texts(bs[v := b], now) == Texts(bs, was)[v := TextOf(b, now)]
  {
    forall i | 0 <= i < |bs| && i != v
      ensures Good(bs[i], now) && TextOf(bs[i], now) == TextOf(bs[i], was) && Owned(bs[i]) !! Owned(b)
    {
      assert Owned(bs[i]) !! Owned(bs[v]);
      KeptGood(bs[i], was, now, Owned(bs[v]), Owned(b));
    }
    assert AllGood(bs[v := b], now);
    StillUnshared(bs, v, b);
    StillUnleaked(bs, was, v, b, now);
  }

  lemma StillUnshared(bs: seq<Blob>, v: nat, b: Blob)
    requires Unshared(bs) && v < |bs| && forall i :: 0 <= i < |bs| && i != v ==> Owned(bs[i]) !! Owned(b)
    ensures Unshared(bs[v := b])
  {
  }

  lemma StillUnleaked(bs: seq<Blob>, was: Blocks, v: nat, b: Blob, now: Blocks)
    requires Unleaked(bs, was) && v < |bs| && Only(was, now, Owned(bs[v]), Owned(b))
    ensures Unleaked(bs[v := b], now)
  {
    var r := bs[v := b];
    forall q | q in now ensures exists i :: 0 <= i < |r| && q in Owned(r[i]) {
      if q in Owned(b) {
        assert q in Owned(r[v]);
      } else {
        assert q in was && q !in Owned(bs[v]);
        var i :| 0 <= i < |bs| && q in Owned(bs[i]);
        assert r[i] == bs[i];
      }
    }
  }

  /** A temporary is made and the buffer it replaces is freed. */
  lemma BeforeSettled(bs: seq<Blob>, was: Blocks, v: nat, b: Blob, mid: Blocks)
    requires Together(bs, was) && v < |bs| && Good(b, mid) && Only(was, mid, {}, Owned(b))
    ensures Good(bs[v], mid) && Owned(bs[v]) !! Owned(b) && Owned(bs[v]) <= was.Keys
  {
    assert Good(bs[v], was);
    KeptGood(bs[v], was, mid, {}, Owned(b));
  }

  lemma Settled(bs: seq<Blob>, was: Blocks, v: nat, b: Blob, mid: Blocks, now: Blocks)
    requires Together(bs, was) && v < |bs| && Good(b, mid) && Only(was, mid, {}, Owned(b)) && now == mid - Owned(bs[v])
    ensures Together(bs[v := b], now) && Texts(bs[v := b], now) == Texts(bs, was)[v := TextOf(b, mid)]
  {
    BeforeSettled(bs, was, v, b, mid);
    assert Only(was, now, Owned(bs[v]), Owned(b));
    Freed(mid, now, Owned(bs[v]));
    KeptGood(b, mid, now, Owned(bs[v]), {});
    OneChanged(bs, was, v, b, now);
  }

  datatype Op =
    | EditOp(v: nat, e: Edit)
    | Assign(v: nat, w: nat)
    | Substr(v: nat, w: nat, pos: nat, count: nat)
    | Strcat(v: nat, l: nat, r: nat)
    | Swap(v: nat, w: nat)
    | Move(v: nat, w: nat)

  predicate OpOk(op: Op, n: nat) {
    match op
    case EditOp(v, e) => v < n && Sized(e)
    case Assign(v, w) => v < n && w < n
    case Substr(v, w, pos, count) => v < n && w < n && pos < WORD && count < WORD
    case Strcat(v, l, r) => v < n && l < n && r < n
    case Swap(v, w) => v < n && w < n
    case Move(v, w) => v < n && w < n
  }

  predicate OpInRange(ts: seq<seq<byte>>, op: Op)
    requires OpOk(op, |ts|)
  {
    match op
    case EditOp(v, e) => InRange(ts[v], e)
    case Substr(_, w, pos, _) => pos <= |ts[w]|
    case _ => true
  }

  function Step(ts: seq<seq<byte>>, op: Op): (r: seq<seq<byte>>)
    requires OpOk(op, |ts|) && OpInRange(ts, op)
    ensures |r| == |ts|
  {
    match op
    case EditOp(v, e) => ts[v := Edited(ts[v], e)]
    case Assign(v, w) => ts[v := ts[w]]
    case Substr(v, w, pos, count) => ts[v := Part(ts[w], pos, count)]
    case Strcat(v, l, r) => ts[v := ts[l] + ts[r]]
    case Swap(v, w) => ts[v := ts[w]][w := ts[v]]
    case Move(v, w) => if v == w then ts else ts[v := ts[w]][w := []]
  }

  function Part(t: seq<byte>, pos: nat, count: nat): seq<byte>
    requires pos <= |t|
  {
    t[pos..Min(pos + count, |t|)]
  }

  predicate OpTooLong(ts: seq<seq<byte>>, op: Op)
    requires OpOk(op, |ts|)
  {
    match op
    case EditOp(v, e) => TooLong(ts[v], e)
    case Assign(_, w) => |ts[w]| + 1 >= BIG_BIT
    case Substr(_, w, _, _) => |ts[w]| + 16 >= BIG_BIT
    case Strcat(_, l, r) => |ts[l]| + |ts[r]| + 16 >= BIG_BIT
    case _ => false
  }

  predicate OpEnds(o: Outcome, ts: seq<seq<byte>>, op: Op, refused: bool)
    requires OpOk(op, |ts|)
  {
    match o
    case Done => OpInRange(ts, op)
    case Overflow => OpTooLong(ts, op)
    case NoMemory => refused
    case BadPosition => !OpInRange(ts, op)
    case Corrupt => false
  }

  class World {
    const heap: Heap
    const vars: seq<Str>

    ghost predicate Apart()
      reads vars
    {
      && (forall i :: 0 <= i < |vars| ==> vars[i].heap == heap)
      && (forall i, j :: 0 <= i < j < |vars| ==> vars[i] != vars[j])
    }

    ghost function Blobs(): (bs: seq<Blob>)
      reads vars
      ensures |bs| == |vars| && forall i :: 0 <= i < |vars| ==> bs[i] == vars[i].blob
    {
      seq(|vars|, i requires 0 <= i < |vars| reads vars => vars[i].blob)
    }

    ghost predicate Valid()
      reads vars, heap
    {
      Apart() && Together(Blobs(), heap.blocks)
    }

    ghost function Values(): seq<seq<byte>>
      requires Valid()
      reads vars, heap
    {
      Texts(Blobs(), heap.blocks)
    }

    constructor (n: nat)
      ensures Valid() && fresh(vars) && fresh(heap) && |vars| == n && Values() == seq(n, _ => [])
    {
      var h := new Heap();
      var vs: seq<Str> := [];
      while |vs| < n
        invariant |vs| <= n && h.blocks == map[] && fresh(h)
        invariant forall i :: 0 <= i < |vs| ==>
          fresh(vs[i]) && vs[i].heap == h && vs[i].Valid() && vs[i].Value() == [] && Owned(vs[i].blob) == {}
        invariant forall i, j :: 0 <= i < j < |vs| ==> vs[i] != vs[j]
      {
        var s := new Str(h);
        vs := vs + [s];
      }
      heap, vars := h, vs;
    }

    lemma Member(v: nat)
      requires Valid() && v < |vars|
      ensures vars[v].heap == heap && vars[v].Valid() && vars[v].Value() == Values()[v]
    {
      assert Good(Blobs()[v], heap.blocks);
    }

    /** A string read as a view. */
    method View(v: nat) returns (s: seq<byte>)
      requires Valid() && v < |vars|
      ensures s == Values()[v] && |s| < WORD
    {
      Member(v);
      BigBound(vars[v].blob);
      s := vars[v].Get(0, Size(vars[v].blob));
    }

    /** A temporary takes the place of a string. */
    method Settle(t: Str, v: nat, ghost bs: seq<Blob>, ghost was: Blocks, ghost want: seq<seq<byte>>)
      returns (o: Outcome)
      requires Apart() && v < |vars| && Blobs() == bs && Together(bs, was)
      requires t !in vars && t.heap == heap && t.Valid() && Only(was, heap.blocks, {}, Owned(t.blob))
      requires want == Texts(bs, was)[v := t.Value()]
      modifies vars, heap, t
      ensures o == Done && Valid() && Values() == want
    {
      ghost var b, mid := t.blob, heap.blocks;
      BeforeSettled(bs, was, v, b, mid);
      o := Replace(v, t, bs);
      Settled(bs, was, v, b, mid, heap.blocks);
    }

    /** `vars[v]` adopts a temporary. */
    method Replace(v: nat, t: Str, ghost bs: seq<Blob>) returns (o: Outcome)
      requires Apart() && v < |vars| && bs == Blobs() && t !in vars && t.heap == heap
      requires Good(bs[v], heap.blocks) && t.Valid() && Owned(bs[v]) !! Owned(t.blob)
      modifies vars, heap, t
      ensures o == Done && Blobs() == bs[v := old(t.blob)] && heap.blocks == old(heap.blocks) - Owned(bs[v])
    {
      ghost var b := t.blob;
      o := vars[v].Adopt(t);
      assert Blobs() == bs[v := b];
    }

    method DoAssign(v: nat, w: nat) returns (o: Outcome)
      requires Valid() && v < |vars| && w < |vars|
      modifies vars, heap
      ensures OpEnds(o, old(Values()), Assign(v, w), heap.refused)
      ensures o == Done ==> Valid() && Values() == Step(old(Values()), Assign(v, w))
    {
      ghost var bs, was, ts := Blobs(), heap.blocks, Values();
      Member(w);
      var t := new Str(heap);
      o := t.InitCopy(vars[w]);
      if o != Done {
        return;
      }
      o := Settle(t, v, bs, was, Step(ts, Assign(v, w)));
    }

    method DoSubstr(v: nat, w: nat, pos: nat, count: nat) returns (o: Outcome)
      requires Valid() && OpOk(Substr(v, w, pos, count), |vars|)
      modifies vars, heap
      ensures OpEnds(o, old(Values()), Substr(v, w, pos, count), heap.refused)
      ensures o == Done ==> Valid() && Values() == Step(old(Values()), Substr(v, w, pos, count))
    {
      ghost var bs, was, ts := Blobs(), heap.blocks, Values();
      var t;
      o, t := PartOf(w, pos, count, ts);
      if o != Done {
        return;
      }
      o := Settle(t, v, bs, was, Step(ts, Substr(v, w, pos, count)));
    }

    method PartOf(w: nat, pos: nat, count: nat, ghost ts: seq<seq<byte>>) returns (o: Outcome, t: Str)
      requires Valid() && w < |vars| && ts == Values()
      modifies heap
      ensures fresh(t) && t.heap == heap && o in {Done, Overflow, NoMemory, BadPosition}
      ensures o == NoMemory ==> heap.refused
      ensures o == BadPosition <==> pos > |ts[w]|
      ensures o == Overflow ==> |ts[w]| + 16 >= BIG_BIT
      ensures o == Done ==> t.Valid() && t.Value() == Part(ts[w], pos, count)
      ensures o == Done ==> Only(old(heap.blocks), heap.blocks, {}, Owned(t.blob))
    {
      Member(w);
      o, t := vars[w].Substr(pos, count);
    }

    method DoStrcat(v: nat, l: nat, r: nat) returns (o: Outcome)
      requires Valid() && v < |vars| && l < |vars| && r < |vars|
      modifies vars, heap
      ensures OpEnds(o, old(Values()), Strcat(v, l, r), heap.refused)
      ensures o == Done ==> Valid() && Values() == Step(old(Values()), Strcat(v, l, r))
    {
      ghost var bs, was, ts := Blobs(), heap.blocks, Values();
      var lhs := View(l);
      var rhs := View(r);
      var t;
      o, t := Str.Strcat(heap, lhs, rhs);
      if o != Done {
        return;
      }
      o := Settle(t, v, bs, was, Step(ts, Strcat(v, l, r)));
    }

    method DoSwap(v: nat, w: nat)
      requires Valid() && v < |vars| && w < |vars|
      modifies vars
      ensures Valid() && Values() == Step(old(Values()), Swap(v, w))
    {
      ghost var bs := Blobs();
      vars[v].Swap(vars[w]);
      assert Blobs() == bs[v := bs[w]][w := bs[v]];
      Swapped(bs, heap.blocks, v, w);
    }

    /** Assignment from an expiring string: a temporary takes its buffer and leaves it
        empty. */
    method DoMove(v: nat, w: nat) returns (o: Outcome)
      requires Valid() && v < |vars| && w < |vars|
      modifies vars, heap
      ensures o == Done && Valid() && Values() == Step(old(Values()), Move(v, w))
    {
      ghost var bs, was, ts := Blobs(), heap.blocks, Values();
      ghost var want := Step(ts, Move(v, w));
      Disjoint(bs, was, v, w);
      var t := Expire(w, bs);
      ghost var e := vars[w].blob;
      o := Replace(v, t, bs[w := e]);
      Moved(bs, was, v, w, e, Blobs(), heap.blocks, want);
    }

    method Expire(w: nat, ghost bs: seq<Blob>) returns (t: Str)
      requires Valid() && w < |vars| && bs == Blobs()
      modifies vars
      ensures fresh(t) && t.heap == heap && t.blob == bs[w]
      ensures Blobs() == bs[w := vars[w].blob] && vars[w].Valid() && vars[w].Value() == [] && Owned(vars[w].blob) == {}
    {
      Member(w);
      t := new Str(heap);
      t.InitMove(vars[w]);
      assert Blobs() == bs[w := vars[w].blob];
    }

    method DoEditOp(v: nat, e: Edit) returns (o: Outcome)
      requires Valid() && v < |vars| && Sized(e)
      modifies vars, heap
      ensures OpEnds(o, old(Values()), EditOp(v, e), heap.refused)
      ensures o == Done ==> Valid() && Values() == Step(old(Values()), EditOp(v, e))
    {
      ghost var bs, was := Blobs(), heap.blocks;
      Member(v);
      o := DoEdit(vars[v], e);
      if o == Done {
        assert Blobs() == bs[v := vars[v].blob];
        OneChanged(bs, was, v, vars[v].blob, heap.blocks);
      }
    }

    method Exec(op: Op) returns (o: Outcome)
      requires Valid() && OpOk(op, |vars|)
      modifies vars, heap
      ensures OpEnds(o, old(Values()), op, heap.refused)
      ensures o == Done ==> Valid() && Values() == Step(old(Values()), op)
    {
      if op.EditOp? {
        o := DoEditOp(op.v, op.e);
      } else {
        o := ExecOnMany(op);
      }
    }

    method ExecOnMany(op: Op) returns (o: Outcome)
      requires Valid() && OpOk(op, |vars|) && !op.EditOp?
      modifies vars, heap
      ensures OpEnds(o, old(Values()), op, heap.refused)
      ensures o == Done ==> Valid() && Values() == Step(old(Values()), op)
    {
      match op {
        case Assign(v, w) => o := DoAssign(v, w);
        case Substr(v, w, pos, count) => o := DoSubstr(v, w, pos, count);
        case Strcat(v, l, r) => o := DoStrcat(v, l, r);
        case Swap(v, w) =>
          DoSwap(v, w);
          o := Done;
        case Move(v, w) => o := DoMove(v, w);
      }
    }

    /** Any program, until it ends or traps for want of memory.  It traps for a length or
        a position only at an operation that the plain program reaches with texts that
        are too long for it, or with a position that is out of range. */
    method Run(ops: seq<Op>) returns (o: Outcome)
      requires Valid() && forall k :: 0 <= k < |ops| ==> OpOk(ops[k], |vars|)
      modifies vars, heap
      ensures o != Corrupt && (o == NoMemory ==> heap.refused)
      ensures o == Done ==> Valid() && Meaning(old(Values()), ops) == Some(Values())
      ensures o == BadPosition ==> Meaning(old(Values()), ops) == None
      ensures o == Overflow ==> exists k :: 0 <= k < |ops| && Overlong(old(Values()), ops, k)
    {
      ghost var start := Values();
      var k := 0;
      o := Done;
      while k < |ops|
        invariant k <= |ops| && Valid() && Meaning(start, ops[..k]) == Some(Values())
      {
        assert ops[..k + 1][..k] == ops[..k];
        o := Exec(ops[k]);
        if o != Done {
          if o == BadPosition {
            NoneStays(start, ops, k + 1);
          }
          assert o == Overflow ==> Overlong(start, ops, k);
          return;
        }
        k := k + 1;
      }
      assert ops[..|ops|] == ops;
      o := Done;
    }

    /** The end of the program: destroying every string frees every buffer. */
    method End() returns (o: Outcome)
      requires Valid()
      modifies heap
      ensures o == Done && heap.blocks == map[]
    {
      ghost var bs := Blobs();
      var k := 0;
      o := Done;
      while k < |vars|
        invariant k <= |vars| && o == Done && Remaining(bs, heap.blocks, k)
      {
        ghost var was := heap.blocks;
        o := vars[k].Destroy();
        OneDestroyed(bs, was, k, heap.blocks);
        k := k + 1;
      }
      assert heap.blocks.Keys == {};
    }
  }

  /** What is left once the first k strings are destroyed. */
  ghost predicate Remaining(bs: seq<Blob>, blocks: Blocks, k: nat) {
    && (forall i :: k <= i < |bs| ==> Good(bs[i], blocks)) && Unshared(bs)
    && forall q :: q in blocks ==> exists i :: k <= i < |bs| && q in Owned(bs[i])
  }

  lemma OneDestroyed(bs: seq<Blob>, was: Blocks, k: nat, now: Blocks)
    requires Remaining(bs, was, k) && k < |bs| && now == was - Owned(bs[k])
    ensures Remaining(bs, now, k + 1)
  {
    Freed(was, now, Owned(bs[k]));
    forall i | k < i < |bs| ensures Good(bs[i], now) {
      assert Owned(bs[k]) !! Owned(bs[i]);
      KeptGood(bs[i], was, now, Owned(bs[k]), {});
    }
    OthersLeft(bs, was, k, now);
  }

  lemma Freed(was: Blocks, now: Blocks, mine: set<nat>)
    requires now == was - mine
    ensures Only(was, now, mine, {})
  {
  }

  lemma OthersLeft(bs: seq<Blob>, was: Blocks, k: nat, now: Blocks)
    requires k < |bs| && Only(was, now, Owned(bs[k]), {})
    requires forall q :: q in was ==> exists i :: k <= i < |bs| && q in Owned(bs[i])
    ensures forall q :: q in now ==> exists i :: k + 1 <= i < |bs| && q in Owned(bs[i])
  {
    forall q | q in now ensures exists i :: k + 1 <= i < |bs| && q in Owned(bs[i]) {
      assert q in was && q !in Owned(bs[k]);
      var i :| k <= i < |bs| && q in Owned(bs[i]);
      assert i != k;
    }
  }

  datatype Option<T> = None | Some(value: T)

  /** The same program on plain sequences; none if some position is out of range. */
  ghost function Meaning(ts: seq<seq<byte>>, ops: seq<Op>): (r: Option<seq<seq<byte>>>)
    requires forall k :: 0 <= k < |ops| ==> OpOk(ops[k], |ts|)
    ensures r.Some? ==> |r.value| == |ts|
  {
    if ops == [] then Some(ts)
    else
      var n := |ops| - 1;
      var before := Meaning(ts, ops[..n]);
      if before.None? || !OpInRange(before.value, ops[n]) then None else Some(Step(before.value, ops[n]))
  }

  /** The plain program reaches operation k with texts too long for it. */
  ghost predicate Overlong(ts: seq<seq<byte>>, ops: seq<Op>, k: nat)
    requires k < |ops| && forall k :: 0 <= k < |ops| ==> OpOk(ops[k], |ts|)
  {
    Meaning(ts, ops[..k]).Some? && OpTooLong(Meaning(ts, ops[..k]).value, ops[k])
  }

  lemma {:induction false} NoneStays(ts: seq<seq<byte>>, ops: seq<Op>, k: nat)
    requires (forall k :: 0 <= k < |ops| ==> OpOk(ops[k], |ts|)) && k <= |ops| && Meaning(ts, ops[..k]) == None
    ensures Meaning(ts, ops) == None
    decreases |ops|
  {
    if k == |ops| {
      assert ops[..k] == ops;
    } else {
      var n := |ops| - 1;
      assert ops[..n][..k] == ops[..k];
      NoneStays(ts, ops[..n], k);
    }
  }

  lemma Swapped(bs: seq<Blob>, blocks: Blocks, v: nat, w: nat)
    requires Together(bs, blocks) && v < |bs| && w < |bs|
    ensures var r := bs[v := bs[w]][w := bs[v]];
      && Together(r, blocks)
      && Texts(r, blocks) == Texts(bs, blocks)[v := TextOf(bs[w], blocks)][w := TextOf(bs[v], blocks)]
  {
    var r := bs[v := bs[w]][w := bs[v]];
    assert AllGood(r, blocks);
    SwapUnshared(bs, v, w);
    forall q | q in blocks ensures exists i :: 0 <= i < |r| && q in Owned(r[i]) {
      var i :| 0 <= i < |bs| && q in Owned(bs[i]);
      assert r[if i == v then w else if i == w then v else i] == bs[i];
    }
  }

  lemma Disjoint(bs: seq<Blob>, blocks: Blocks, v: nat, w: nat)
    requires Together(bs, blocks) && v < |bs| && w < |bs|
    ensures Good(bs[v], blocks) && Good(bs[w], blocks) && (v != w ==> Owned(bs[v]) !! Owned(bs[w]))
  {
  }

  /** The buffer of w goes to v, whose own is freed, and w is left with the blob e. */
  lemma Moved(bs: seq<Blob>, was: Blocks, v: nat, w: nat, e: Blob, rs: seq<Blob>, now: Blocks, want: seq<seq<byte>>)
    requires Together(bs, was) && v < |bs| && w < |bs| && Good(e, was) && Text(e, was) == [] && Owned(e) == {}
    requires rs == bs[w := e][v := bs[w]] && now == was - Owned(bs[w := e][v])
    requires want == Step(Texts(bs, was), Move(v, w))
    ensures Together(rs, now) && Texts(rs, now) == want
  {
    if v == w {
      assert rs == bs && now == was;
    } else {
      Freed(was, now, Owned(bs[v]));
      Emptied(bs, was, v, e, now);
      Swapped(bs[v := e], now, v, w);
      assert bs[v := e][v := bs[w]][w := e] == rs;
      assert TextOf(bs[w], now) == Texts(bs[v := e], now)[w];
    }
  }

  /** Freeing a buffer and emptying its string is a change of one string. */
  lemma Emptied(bs: seq<Blob>, was: Blocks, v: nat, e: Blob, now: Blocks)
    requires Together(bs, was) && v < |bs| && Good(e, was) && Text(e, was) == [] && Owned(e) == {}
    requires Only(was, now, Owned(bs[v]), {})
    ensures Together(bs[v := e], now) && Texts(bs[v := e], now) == Texts(bs, was)[v := []]
  {
    KeptGood(e, was, now, Owned(bs[v]), {});
    OneChanged(bs, was, v, e, now);
  }

  lemma SwapUnshared(bs: seq<Blob>, v: nat, w: nat)
    requires Unshared(bs) && v < |bs| && w < |bs|
    ensures Unshared(bs[v := bs[w]][w := bs[v]])
  {
    var r := bs[v := bs[w]][w := bs[v]];
    forall i, j | 0 <= i < j < |r| ensures Owned(r[i]) !! Owned(r[j]) {
      var a := if i == v then w else if i == w then v else i;
      var b := if j == v then w else if j == w then v else j;
      assert r[i] == bs[a] && r[j] == bs[b] && a != b;
    }
  }
}
