/** `ctl::string`.  Every operation works on the 24 bytes and the heap, and does to the
    text what the same operation does to a plain sequence. */
module CtlString {
  import opened Bytes
  import opened CtlStringRep

  /** A `__builtin_trap`: a length that does not fit, no memory, a position past the end,
      or a broken representation. */
  datatype Outcome = Done | Overflow | NoMemory | BadPosition | Corrupt

  function Min(a: nat, b: nat): nat { if a < b then a else b }

  function Max(a: nat, b: nat): nat { if a < b then b else a }

  function Resized(s: seq<byte>, n: nat, ch: byte): seq<byte> {
    if n <= |s| then s[..n] else s + Fill(ch, n - |s|)
  }

  class Str {
    var blob: Blob
    const heap: Heap

    constructor (heap: Heap)
      ensures this.heap == heap && Valid() && Value() == [] && Owned(blob) == {}
    {
      this.heap := heap;
      blob := Fill(0, 16) + ToLe(SSO_MAX * 0x100_0000_0000_0000, 8);
      new;
      EmptyBlob();
    }

    ghost predicate Valid()
      reads this, heap
    {
      Good(blob, heap.blocks)
    }

    ghost function Value(): seq<byte>
      requires Valid()
      reads this, heap
    {
      Text(blob, heap.blocks)
    }

    // ----- the steps operations are made of -----

    /** `memcpy` or `memset` to `data() + at`, short of the last byte of a small string. */
    method Put(at: nat, s: seq<byte>)
      requires Loose(blob, heap.blocks)
      requires at + |s| <= if IsBig(blob) then BigCapacity(blob) else SSO_MAX
      modifies this, heap
      ensures Loose(blob, heap.blocks) && IsBig(blob) == old(IsBig(blob)) && Size(blob) == old(Size(blob))
      ensures Capacity(blob) == old(Capacity(blob)) && Owned(blob) == old(Owned(blob))
      ensures Data(blob, heap.blocks) == Over(old(Data(blob, heap.blocks)), at, s)
      ensures Only(old(heap.blocks), heap.blocks, Owned(blob), Owned(blob))
    {
      if IsBig(blob) {
        var p := Pointer(blob);
        heap.blocks := heap.blocks[p := Over(heap.blocks[p], at, s)];
      } else {
        blob := Over(blob, at, s);
      }
    }

    /** `__b.n = n` or `set_small_size(n)`, which would trap on more than 23. */
    method SetSize(n: nat)
      requires Loose(blob, heap.blocks) && n < Capacity(blob)
      modifies this
      ensures Loose(blob, heap.blocks) && IsBig(blob) == old(IsBig(blob)) && Size(blob) == n
      ensures Capacity(blob) == old(Capacity(blob)) && Owned(blob) == old(Owned(blob))
      ensures |Data(blob, heap.blocks)| == Capacity(blob)
      ensures Data(blob, heap.blocks)[..SSO_MAX] == old(Data(blob, heap.blocks)[..SSO_MAX])
      ensures IsBig(blob) ==> Data(blob, heap.blocks) == old(Data(blob, heap.blocks))
    {
      if IsBig(blob) {
        BigBound(blob);
        SizeField(blob, n);
        blob := WithN(blob, n);
      } else {
        blob := WithRem(blob, SSO_MAX - n);
      }
    }

    /** `data()[size()] = 0`. */
    method Terminate()
      requires Loose(blob, heap.blocks)
      modifies this, heap
      ensures Valid() && Size(blob) == old(Size(blob)) && Value() == old(Text(blob, heap.blocks))
      ensures Owned(blob) == old(Owned(blob)) && Only(old(heap.blocks), heap.blocks, Owned(blob), Owned(blob))
      ensures Capacity(blob) == old(Capacity(blob))
    {
      var n := Size(blob);
      if IsBig(blob) {
        var p := Pointer(blob);
        heap.blocks := heap.blocks[p := heap.blocks[p][n := 0]];
      } else {
        blob := blob[n := 0];
      }
    }

    /** `set_big_string`: the buffer at `p` becomes this string's. */
    method SetBig(p: nat, n: nat, c2: nat) returns (o: Outcome)
      requires 0 < p < WORD && p in heap.blocks && |heap.blocks[p]| == c2 && n < c2 < WORD && STRING_SIZE < c2
      modifies this
      ensures o == Done || o == Overflow
      ensures o == Overflow <==> c2 >= BIG_BIT
      ensures o == Done ==> Loose(blob, heap.blocks) && IsBig(blob) && Size(blob) == n && Capacity(blob) == c2
      ensures o == Done ==> Owned(blob) == {p} && Data(blob, heap.blocks) == heap.blocks[p]
    {
      if c2 > BIG_BIT - 1 {
        return Overflow;
      }
      BigFields(p, n, c2);
      blob := WithBig(p, n, c2);
      o := Done;
    }

    method Reserve(c: nat) returns (o: Outcome)
      requires Valid() && c < WORD
      modifies this, heap
      ensures o in {Done, Overflow, NoMemory}
      ensures o == NoMemory ==> heap.refused
      ensures o == Done ==> Valid() && Value() == old(Value()) && c <= Capacity(blob)
      ensures o == Done ==> Only(old(heap.blocks), heap.blocks, old(Owned(blob)), Owned(blob))
      ensures o == Overflow ==> Max(c, old(Size(blob)) + 1) + 15 >= BIG_BIT
    {
      BigBound(blob);
      var n: nat := Size(blob);
      var c2 := c;
      if c2 < n + 1 {
        c2 := n + 1;
      }
      if c2 <= STRING_SIZE {
        return Done;
      }
      if c2 + 15 >= WORD {
        return Overflow;
      }
      c2 := (c2 + 15) / 16 * 16;
      if !IsBig(blob) {
        o := LeaveSmall(c2);
      } else {
        o := Regrow(c2);
      }
    }

    method LeaveSmall(c2: nat) returns (o: Outcome)
      requires Valid() && !IsBig(blob) && STRING_SIZE < c2 < WORD
      modifies this, heap
      ensures o in {Done, Overflow, NoMemory}
      ensures o == NoMemory ==> heap.refused
      ensures o == Done ==> Valid() && Value() == old(Value()) && c2 <= Capacity(blob)
      ensures o == Done ==> Only(old(heap.blocks), heap.blocks, {}, Owned(blob))
      ensures o == Overflow ==> c2 >= BIG_BIT
    {
      var n: nat := Size(blob);
      var p2 := heap.Malloc(c2);
      if p2 == 0 {
        return NoMemory;
      }
      heap.blocks := heap.blocks[p2 := Over(heap.blocks[p2], 0, blob)];
      o := SetBig(p2, n, c2);
    }

    method Regrow(c2: nat) returns (o: Outcome)
      requires Valid() && IsBig(blob) && STRING_SIZE < c2 < WORD && Size(blob) < c2
      modifies this, heap
      ensures o in {Done, Overflow, NoMemory}
      ensures o == NoMemory ==> heap.refused
      ensures o == Done ==> Valid() && Value() == old(Value()) && c2 <= Capacity(blob)
      ensures o == Done ==> Only(old(heap.blocks), heap.blocks, old(Owned(blob)), Owned(blob))
      ensures o == Overflow ==> c2 >= BIG_BIT
    {
      ghost var was := Data(blob, heap.blocks);
      var n: nat := Size(blob);
      var p2 := heap.Realloc(Pointer(blob), c2);
      if p2 == 0 {
        return NoMemory;
      }
      ghost var k := if c2 < |was| then c2 else |was|;
      SamePrefix(heap.blocks[p2], was, k, n);
      o := SetBig(p2, n, c2);
    }

    /** Makes room for `size` more bytes, by half again as often as it takes. */
    method Grow(size: nat) returns (o: Outcome)
      requires Valid() && size < WORD
      modifies this, heap
      ensures o in {Done, Overflow, NoMemory}
      ensures o == NoMemory ==> heap.refused
      ensures o == Done ==> Valid() && Value() == old(Value()) && old(Size(blob)) + size < Capacity(blob)
      ensures o == Done ==> Only(old(heap.blocks), heap.blocks, old(Owned(blob)), Owned(blob))
      ensures o == Overflow ==> 3 * (old(Size(blob)) + size + 1) + 32 >= WORD
    {
      BigBound(blob);
      var need := Size(blob) + size;
      if need >= WORD {
        return Overflow;
      }
      need := need + 1;
      if need >= WORD {
        return Overflow;
      }
      if need <= Capacity(blob) {
        return Done;
      }
      var c2 := Capacity(blob);
      while c2 < need
        invariant STRING_SIZE <= c2 < WORD && 2 * c2 <= 3 * need
        decreases need - c2
      {
        c2 := c2 + c2 / 2;
        if c2 >= WORD {
          return Overflow;
        }
      }
      o := Reserve(c2);
    }

    /** The text becomes the first n bytes of the buffer. */
    method Finish(n: nat)
      requires Loose(blob, heap.blocks) && n < Capacity(blob)
      modifies this, heap
      ensures Valid() && Value() == old(Data(blob, heap.blocks)[..n])
      ensures Owned(blob) == old(Owned(blob)) && Only(old(heap.blocks), heap.blocks, Owned(blob), Owned(blob))
    {
      ghost var was := Data(blob, heap.blocks);
      SetSize(n);
      assert Data(blob, heap.blocks)[..n] == was[..n] by {
        if !IsBig(blob) {
          assert Data(blob, heap.blocks)[..SSO_MAX][..n] == Data(blob, heap.blocks)[..n];
          assert was[..SSO_MAX][..n] == was[..n];
        }
      }
      Terminate();
    }

    /** Overwrites the buffer from `at` and ends the text there: the tail of most
        operations. */
    method PutAndFinish(at: nat, s: seq<byte>)
      requires Loose(blob, heap.blocks) && at + |s| < Capacity(blob)
      modifies this, heap
      ensures Valid() && Value() == old(Data(blob, heap.blocks)[..at]) + s
      ensures Owned(blob) == old(Owned(blob)) && Only(old(heap.blocks), heap.blocks, Owned(blob), Owned(blob))
    {
      ghost var w0 := heap.blocks;
      ghost var was := Data(blob, heap.blocks);
      Put(at, s);
      assert Data(blob, heap.blocks)[..at + |s|] == was[..at] + s;
      ghost var w1 := heap.blocks;
      Finish(at + |s|);
      OnlyThen(w0, w1, heap.blocks, Owned(blob), Owned(blob), Owned(blob));
    }

    // ----- operations -----

    method Append(s: seq<byte>) returns (o: Outcome)
      requires Valid() && |s| < WORD
      modifies this, heap
      ensures o in {Done, Overflow, NoMemory}
      ensures o == NoMemory ==> heap.refused
      ensures o == Done ==> Valid() && Value() == old(Value()) + s
      ensures o == Done ==> Only(old(heap.blocks), heap.blocks, old(Owned(blob)), Owned(blob))
      ensures o == Overflow ==> 3 * (|old(Value())| + |s| + 1) + 32 >= WORD
    {
      ghost var w0, mine := heap.blocks, Owned(blob);
      o := Grow(|s|);
      if o != Done {
        return;
      }
      ghost var w1, b1 := heap.blocks, Owned(blob);
      PutAndFinish(Size(blob), s);
      OnlyThen(w0, w1, heap.blocks, mine, b1, Owned(blob));
    }

    method AppendFill(ch: byte, n: nat) returns (o: Outcome)
      requires Valid() && n < WORD
      modifies this, heap
      ensures o in {Done, Overflow, NoMemory}
      ensures o == NoMemory ==> heap.refused
      ensures o == Done ==> Valid() && Value() == old(Value()) + Fill(ch, n)
      ensures o == Done ==> Only(old(heap.blocks), heap.blocks, old(Owned(blob)), Owned(blob))
      ensures o == Overflow ==> 3 * (|old(Value())| + n + 1) + 32 >= WORD
    {
      ghost var w0, mine := heap.blocks, Owned(blob);
      o := Grow(n);
      if o != Done {
        return;
      }
      ghost var w1, b1 := heap.blocks, Owned(blob);
      PutAndFinish(Size(blob), Fill(ch, n));
      OnlyThen(w0, w1, heap.blocks, mine, b1, Owned(blob));
    }

    method AppendChar(ch: byte) returns (o: Outcome)
      requires Valid()
      modifies this, heap
      ensures o in {Done, Overflow, NoMemory}
      ensures o == NoMemory ==> heap.refused
      ensures o == Done ==> Valid() && Value() == old(Value()) + [ch]
      ensures o == Done ==> Only(old(heap.blocks), heap.blocks, old(Owned(blob)), Owned(blob))
      ensures o == Overflow ==> 3 * (|old(Value())| + 2) + 32 >= WORD
    {
      BigBound(blob);
      ghost var w0, mine := heap.blocks, Owned(blob);
      o := Done;
      if Size(blob) + 2 > Capacity(blob) {
        var c2 := Capacity(blob);
        o := Reserve(c2 + c2 / 2);
        if o != Done {
          return;
        }
      }
      ghost var w1, b1 := heap.blocks, Owned(blob);
      PutAndFinish(Size(blob), [ch]);
      OnlyThen(w0, w1, heap.blocks, mine, b1, Owned(blob));
    }

    method Resize(n2: nat, ch: byte) returns (o: Outcome)
      requires Valid() && n2 < WORD
      modifies this, heap
      ensures o in {Done, Overflow, NoMemory}
      ensures o == NoMemory ==> heap.refused
      ensures o == Done ==> Valid() && Value() == Resized(old(Value()), n2, ch)
      ensures o == Done ==> Only(old(heap.blocks), heap.blocks, old(Owned(blob)), Owned(blob))
      ensures o == Overflow ==> Max(n2, |old(Value())|) + 16 >= BIG_BIT
    {
      if n2 + 1 >= WORD {
        return Overflow;
      }
      ghost var w0, mine := heap.blocks, Owned(blob);
      o := Reserve(n2 + 1);
      if o != Done {
        return;
      }
      ghost var w1, b1 := heap.blocks, Owned(blob);
      if n2 > Size(blob) {
        PutAndFinish(Size(blob), Fill(ch, n2 - Size(blob)));
      } else {
        assert Data(blob, heap.blocks)[..Size(blob)][..n2] == Data(blob, heap.blocks)[..n2];
        Finish(n2);
      }
      OnlyThen(w0, w1, heap.blocks, mine, b1, Owned(blob));
    }

    method PopBack() returns (o: Outcome)
      requires Valid()
      modifies this, heap
      ensures o == BadPosition <==> old(Value()) == []
      ensures o != BadPosition ==> o == Done && Valid() && Value() == old(Value()[..|Value()| - 1])
      ensures o == Done ==> Only(old(heap.blocks), heap.blocks, old(Owned(blob)), Owned(blob))
    {
      if Size(blob) == 0 {
        return BadPosition;
      }
      assert Data(blob, heap.blocks)[..Size(blob)][..Size(blob) - 1] == Data(blob, heap.blocks)[..Size(blob) - 1];
      Finish(Size(blob) - 1);
      o := Done;
    }

    /** Leaves the buffer and its contents, so no zero byte follows. */
    method Clear()
      requires Valid()
      modifies this
      ensures Valid() && Value() == [] && Owned(blob) == old(Owned(blob)) && Capacity(blob) == old(Capacity(blob))
    {
      SetSize(0);
    }

    method Get(at: nat, n: nat) returns (s: seq<byte>)
      requires Loose(blob, heap.blocks) && at + n <= Capacity(blob)
      ensures s == Data(blob, heap.blocks)[at..at + n]
    {
      if IsBig(blob) {
        s := heap.blocks[Pointer(blob)][at..at + n];
      } else {
        s := blob[at..at + n];
      }
    }

    /** `memmove` within the buffer. */
    method Shift(to: nat, from: nat, n: nat)
      requires Loose(blob, heap.blocks) && to + n < Capacity(blob) && from + n < Capacity(blob)
      modifies this, heap
      ensures Loose(blob, heap.blocks) && Size(blob) == old(Size(blob)) && Capacity(blob) == old(Capacity(blob))
      ensures Owned(blob) == old(Owned(blob)) && Only(old(heap.blocks), heap.blocks, Owned(blob), Owned(blob))
      ensures var d := old(Data(blob, heap.blocks)); Data(blob, heap.blocks) == Over(d, to, d[from..from + n])
    {
      var chunk := Get(from, n);
      Put(to, chunk);
    }

    /** Overwrites a part of the buffer and ends the text at n. */
    method PutWithin(pos: nat, s: seq<byte>, n: nat)
      requires Loose(blob, heap.blocks) && pos + |s| <= n < Capacity(blob)
      modifies this, heap
      ensures Valid() && Value() == Over(old(Data(blob, heap.blocks)), pos, s)[..n]
      ensures Owned(blob) == old(Owned(blob)) && Only(old(heap.blocks), heap.blocks, Owned(blob), Owned(blob))
    {
      ghost var w0 := heap.blocks;
      Put(pos, s);
      ghost var w1 := heap.blocks;
      Finish(n);
      OnlyThen(w0, w1, heap.blocks, Owned(blob), Owned(blob), Owned(blob));
    }

    /** Replaces the text from `pos` to `last` by `s`, given the room for it. */
    method Splice(pos: nat, last: nat, s: seq<byte>)
      requires Valid() && pos <= last <= Size(blob) && Size(blob) - (last - pos) + |s| < Capacity(blob)
      modifies this, heap
      ensures Valid() && Value() == old(Value()[..pos] + s + Value()[last..])
      ensures Owned(blob) == old(Owned(blob)) && Only(old(heap.blocks), heap.blocks, Owned(blob), Owned(blob))
    {
      ghost var w0, d0, v0 := heap.blocks, Data(blob, heap.blocks), Value();
      var extra := Size(blob) - last;
      Shift(pos + |s|, last, extra);
      ghost var w1, d1 := heap.blocks, Data(blob, heap.blocks);
      PutWithin(pos, s, pos + |s| + extra);
      Spliced(d0, v0, d1, Over(d1, pos, s), pos, last, s, extra);
      OnlyThen(w0, w1, heap.blocks, Owned(blob), Owned(blob), Owned(blob));
    }

    method Replace(pos: nat, count: nat, s: seq<byte>) returns (o: Outcome)
      requires Valid() && pos < WORD && count < WORD && |s| < WORD
      modifies this, heap
      ensures o in {Done, Overflow, NoMemory, BadPosition}
      ensures o == NoMemory ==> heap.refused
      ensures o == BadPosition <==> |old(Value())| < pos + count < WORD
      ensures o == Done ==> pos + count <= |old(Value())| && Valid()
      ensures o == Done ==> Value() == old(Value())[..pos] + s + old(Value())[pos + count..]
      ensures o == Done ==> Only(old(heap.blocks), heap.blocks, old(Owned(blob)), Owned(blob))
      ensures o == Overflow ==> pos + count >= WORD || |old(Value())| + |s| + 16 >= BIG_BIT
    {
      var last := pos + count;
      if last >= WORD {
        return Overflow;
      }
      if last > Size(blob) {
        return BadPosition;
      }
      var extra := Size(blob) - last;
      var need := pos + |s| + extra;
      if pos + |s| >= WORD || need >= WORD || need + 1 >= WORD {
        return Overflow;
      }
      ghost var w0, mine := heap.blocks, Owned(blob);
      o := Reserve(need + 1);
      if o != Done {
        return;
      }
      ghost var w1, b1 := heap.blocks, Owned(blob);
      Splice(pos, last, s);
      OnlyThen(w0, w1, heap.blocks, mine, b1, Owned(blob));
    }

    method Insert(i: nat, s: seq<byte>) returns (o: Outcome)
      requires Valid() && |s| < WORD
      modifies this, heap
      ensures o in {Done, Overflow, NoMemory, BadPosition}
      ensures o == NoMemory ==> heap.refused
      ensures o == BadPosition <==> i > |old(Value())|
      ensures o == Done ==> Valid() && Value() == old(Value())[..i] + s + old(Value())[i..]
      ensures o == Done ==> Only(old(heap.blocks), heap.blocks, old(Owned(blob)), Owned(blob))
      ensures o == Overflow ==> |old(Value())| + |s| + 16 >= BIG_BIT
    {
      if i > Size(blob) {
        return BadPosition;
      }
      var need := Size(blob) + |s|;
      if need >= WORD || need + 1 >= WORD {
        return Overflow;
      }
      ghost var w0, mine := heap.blocks, Owned(blob);
      o := Reserve(need + 1);
      if o != Done {
        return;
      }
      ghost var w1, b1 := heap.blocks, Owned(blob);
      Splice(i, i, s);
      OnlyThen(w0, w1, heap.blocks, mine, b1, Owned(blob));
    }

    method Erase(pos: nat, count0: nat) returns (o: Outcome)
      requires Valid()
      modifies this, heap
      ensures o == BadPosition <==> pos > |old(Value())|
      ensures o != BadPosition ==> o == Done && Valid()
      ensures o == Done ==> Value() == old(Value())[..pos] + old(Value())[Min(pos + count0, |old(Value())|)..]
      ensures o == Done ==> Only(old(heap.blocks), heap.blocks, old(Owned(blob)), Owned(blob))
    {
      if pos > Size(blob) {
        return BadPosition;
      }
      var count := count0;
      if count > Size(blob) - pos {
        count := Size(blob) - pos;
      }
      Splice(pos, pos + count, []);
      o := Done;
    }

    // ----- construction, copies, destruction -----

    /** Construction from a view, in memory that holds anything. */
    method InitView(s: seq<byte>) returns (o: Outcome)
      requires |s| < WORD
      modifies this, heap
      ensures o in {Done, Overflow, NoMemory}
      ensures o == NoMemory ==> heap.refused
      ensures o == Done ==> Valid() && Value() == s && Only(old(heap.blocks), heap.blocks, {}, Owned(blob))
      ensures o == Overflow ==> |s| + 16 >= BIG_BIT
      ensures |s| <= 23 ==> o == Done && heap.blocks == old(heap.blocks) && Owned(blob) == {}
    {
      if |s| <= SSO_MAX {
        blob := s + Fill(0, SSO_MAX - |s|) + [SSO_MAX - |s|];
        o := Done;
      } else {
        o := InitBig(s);
      }
    }

    method InitBig(s: seq<byte>) returns (o: Outcome)
      requires SSO_MAX < |s| < WORD
      modifies this, heap
      ensures o in {Done, Overflow, NoMemory}
      ensures o == NoMemory ==> heap.refused
      ensures o == Done ==> Valid() && Value() == s && Only(old(heap.blocks), heap.blocks, {}, Owned(blob))
      ensures o == Overflow ==> |s| + 16 >= BIG_BIT
    {
      if |s| + 16 >= WORD {
        return Overflow;
      }
      var need := (|s| + 16) / 16 * 16;
      var p2 := heap.Malloc(need);
      if p2 == 0 {
        return NoMemory;
      }
      heap.blocks := heap.blocks[p2 := Over(heap.blocks[p2], 0, s + [0])];
      o := SetBig(p2, |s|, need);
    }

    method InitFill(n: nat, ch: byte) returns (o: Outcome)
      requires n < WORD
      modifies this, heap
      ensures o in {Done, Overflow, NoMemory}
      ensures o == NoMemory ==> heap.refused
      ensures o == Done ==> Valid() && Value() == Fill(ch, n) && Only(old(heap.blocks), heap.blocks, {}, Owned(blob))
      ensures o == Overflow ==> n + 16 >= BIG_BIT
      ensures n <= 23 ==> o == Done && heap.blocks == old(heap.blocks) && Owned(blob) == {}
    {
      if n <= SSO_MAX {
        blob := Fill(ch, n) + Fill(0, SSO_MAX - n) + [SSO_MAX - n];
        o := Done;
      } else {
        o := InitBig(Fill(ch, n));
      }
    }

    /** The copy constructor: 24 bytes at a time for a short text, wherever it lies. */
    method InitCopy(r: Str) returns (o: Outcome)
      requires r != this && r.heap == heap && r.Valid()
      modifies this, heap
      ensures o in {Done, Overflow, NoMemory}
      ensures o == NoMemory ==> heap.refused
      ensures o == Done ==> Valid() && Value() == old(r.Value()) && Only(old(heap.blocks), heap.blocks, {}, Owned(blob))
      ensures o == Done ==> r.Valid() && r.Value() == old(r.Value()) && Owned(r.blob) !! Owned(blob)
      ensures o == Overflow ==> |old(r.Value())| + 1 >= BIG_BIT
      ensures |old(r.Value())| <= 23 ==> o == Done && heap.blocks == old(heap.blocks) && Owned(blob) == {}
    {
      BigBound(r.blob);
      var size: nat := Size(r.blob);
      if size <= SSO_MAX {
        var d := r.Get(0, STRING_SIZE);
        CopiedSmall(d, size);
        blob := WithRem(d, SSO_MAX - size);
        o := Done;
      } else {
        var need := size + 1;
        var p2 := heap.Malloc(need);
        if p2 == 0 {
          return NoMemory;
        }
        var d := r.Get(0, need);
        heap.blocks := heap.blocks[p2 := Over(heap.blocks[p2], 0, d)];
        o := SetBig(p2, size, need);
      }
    }

    method InitMove(r: Str)
      requires r != this && r.heap == heap && r.Valid()
      modifies this, r
      ensures Valid() && Value() == old(r.Value()) && blob == old(r.blob)
      ensures r.Valid() && r.Value() == [] && Owned(r.blob) == {}
    {
      blob := r.blob;
      r.blob := WithRem(r.blob, SSO_MAX);
    }

    method Swap(r: Str)
      requires r.heap == heap && Valid() && r.Valid()
      modifies this, r
      ensures Valid() && r.Valid() && Value() == old(r.Value()) && r.Value() == old(Value())
      ensures blob == old(r.blob) && r.blob == old(blob)
    {
      blob, r.blob := r.blob, blob;
    }

    /** The checks of `destroy_big` never fail, and exactly this string's buffer goes. */
    method Destroy() returns (o: Outcome)
      requires Valid()
      modifies heap
      ensures o == Done && heap.blocks == old(heap.blocks) - Owned(blob)
    {
      o := Done;
      if IsBig(blob) {
        var p, n, c := Pointer(blob), BigSize(blob), FromLe(blob[16..24]);
        TopBit(blob[16..24]);
        BigBound(blob);
        o := if n != 0 && (n >= c || heap.blocks[p][n] != 0) then Corrupt
             else if c != 0 && p == 0 then Corrupt
             else Done;
        if o == Done {
          heap.Free(p);
        }
      }
    }

    /** The checks of `c_str` never fail; the result is the text and a zero byte. */
    method CStr() returns (o: Outcome, s: seq<byte>)
      requires Valid()
      ensures o == Done && s == Value() + [0]
    {
      if Size(blob) == 0 {
        return Done, [0];
      }
      s := Get(0, Size(blob) + 1);
      o := if Size(blob) >= Capacity(blob) || s[Size(blob)] != 0 then Corrupt else Done;
    }

    /** Assignment: the argument is a temporary, which takes the old buffer with it. */
    method Adopt(t: Str) returns (o: Outcome)
      requires t != this && t.heap == heap && Valid() && t.Valid() && Owned(blob) !! Owned(t.blob)
      modifies this, t, heap
      ensures o == Done && Valid() && Value() == old(t.Value()) && blob == old(t.blob)
      ensures heap.blocks == old(heap.blocks) - old(Owned(blob))
    {
      Swap(t);
      o := t.Destroy();
    }

    method AssignView(s: seq<byte>) returns (o: Outcome)
      requires Valid() && |s| < WORD
      modifies this, heap
      ensures o in {Done, Overflow, NoMemory}
      ensures o == NoMemory ==> heap.refused
      ensures o == Done ==> Valid() && Value() == s
      ensures o == Done ==> Only(old(heap.blocks), heap.blocks, old(Owned(blob)), Owned(blob))
      ensures o == Overflow ==> 3 * (|s| + 1) + 32 >= WORD
    {
      Clear();
      o := Append(s);
    }

    /** A new string with up to `count0` bytes from `pos`. */
    method Substr(pos: nat, count0: nat) returns (o: Outcome, t: Str)
      requires Valid()
      modifies heap
      ensures fresh(t) && t.heap == heap
      ensures o in {Done, Overflow, NoMemory, BadPosition}
      ensures o == NoMemory ==> heap.refused
      ensures o == BadPosition <==> pos > |old(Value())|
      ensures o == Done ==> t.Valid() && t.Value() == old(Value())[pos..Min(pos + count0, |old(Value())|)]
      ensures o == Done ==> Only(old(heap.blocks), heap.blocks, {}, Owned(t.blob))
      ensures o == Overflow ==> |old(Value())| + 16 >= BIG_BIT
    {
      BigBound(blob);
      t := new Str(heap);
      if pos > Size(blob) {
        return BadPosition, t;
      }
      var count := count0;
      if count > Size(blob) - pos {
        count := Size(blob) - pos;
      }
      var d := Get(pos, count);
      o := t.InitView(d);
    }

    /** `strcat` into a new string. */
    static method Strcat(heap: Heap, lhs: seq<byte>, rhs: seq<byte>) returns (o: Outcome, res: Str)
      requires |lhs| < WORD && |rhs| < WORD
      modifies heap
      ensures fresh(res) && res.heap == heap
      ensures o in {Done, Overflow, NoMemory}
      ensures o == NoMemory ==> heap.refused
      ensures o == Done ==> res.Valid() && res.Value() == lhs + rhs
      ensures o == Done ==> Only(old(heap.blocks), heap.blocks, {}, Owned(res.blob))
      ensures o == Overflow ==> |lhs| + |rhs| + 16 >= BIG_BIT
    {
      res := new Str(heap);
      if |lhs| + |rhs| >= WORD || |lhs| + |rhs| + 1 >= WORD {
        return Overflow, res;
      }
      o := res.Reserve(|lhs| + |rhs| + 1);
      if o != Done {
        return;
      }
      ghost var w0, w1 := old(heap.blocks), heap.blocks;
      res.Put(0, lhs);
      assert Data(res.blob, heap.blocks)[..|lhs|] == lhs;
      ghost var w2 := heap.blocks;
      res.PutAndFinish(|lhs|, rhs);
      OnlyThen(w0, w1, w2, {}, Owned(res.blob), Owned(res.blob));
      OnlyThen(w0, w2, heap.blocks, {}, Owned(res.blob), Owned(res.blob));
    }
  }

  lemma BigBound(b: Blob)
    ensures BigCapacity(b) < BIG_BIT && Pointer(b) < WORD && BigSize(b) < WORD
  {
    TopBit(b[0..8]);
    TopBit(b[8..16]);
  }

  lemma SamePrefix(a: seq<byte>, b: seq<byte>, k: nat, n: nat)
    requires n < k <= |a| && k <= |b| && a[..k] == b[..k]
    ensures a[..n] == b[..n] && a[n] == b[n]
  {
    assert a[..n] == a[..k][..n] && b[..n] == b[..k][..n];
    assert a[n] == a[..k][n] && b[n] == b[..k][n];
  }

  lemma Spliced(d0: seq<byte>, v0: seq<byte>, d1: seq<byte>, d2: seq<byte>, pos: nat, last: nat, s: seq<byte>,
                extra: nat)
    requires pos <= last && last + extra == |v0| <= |d0| && v0 == d0[..|v0|] && pos + |s| + extra <= |d0|
    requires d1 == Over(d0, pos + |s|, d0[last..last + extra]) && d2 == Over(d1, pos, s)
    ensures d2[..pos + |s| + extra] == v0[..pos] + s + v0[last..]
  {
    assert d1[..pos] == d0[..pos] == v0[..pos];
    assert v0[last..] == d0[last..last + extra];
    assert d1[pos + |s|..pos + |s| + extra] == d0[last..last + extra];
  }

  lemma CopiedSmall(d: seq<byte>, size: nat)
    requires |d| == STRING_SIZE && size <= SSO_MAX && (size > 0 ==> d[size] == 0)
    ensures var b := WithRem(d, SSO_MAX - size);
      !IsBig(b) && Size(b) == size && b[..size] == d[..size] && (size > 0 ==> b[size] == 0)
  {
  }

  lemma EmptyBlob()
    ensures var b: Blob := Fill(0, 16) + ToLe(SSO_MAX * 0x100_0000_0000_0000, 8); !IsBig(b) && Size(b) == 0
  {
    var t := ToLe(SSO_MAX * 0x100_0000_0000_0000, 8);
    var b: Blob := Fill(0, 16) + t;
    Round64(SSO_MAX * 0x100_0000_0000_0000);
    Pow256Of8();
    TopByte(t);
    assert b[SSO_MAX] == t[7];
  }
}
