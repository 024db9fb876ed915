/** Program headers and the two passes of `TryElf` that tidy the header table. */
module ApePhdrs {
  const WRAP := 0x1_0000_0000_0000_0000

  type u64 = x: int | 0 <= x < WRAP

  const PT_LOAD := 1

  datatype Phdr = Phdr(kind: nat, flags: nat, offset: u64, vaddr: u64, filesz: u64, memsz: u64)

  /** Unsigned arithmetic, modulo 2^64. */
  function Add(x: u64, y: u64): (r: u64)
    ensures r == (x + y) % WRAP
  {
    if x + y < WRAP then x + y else x + y - WRAP
  }

  function Sub(x: u64, y: u64): (r: u64)
    ensures r == (x - y) % WRAP
  {
    if y <= x then x - y else x - y + WRAP
  }

  /** `x & -pagesz` and `x & (pagesz - 1)` for a page size that is a power of two. */
  function PageDown(x: u64, pagesz: u64): u64
    requires pagesz > 0
  {
    x - x % pagesz
  }

  function PageUp(x: u64, pagesz: u64): u64
    requires pagesz > 0
  {
    PageDown(Add(x, pagesz - 1), pagesz)
  }

  /** The read, write and execute bits of `p_flags`. */
  function Prot(h: Phdr): nat { h.flags % 8 }

  // ----- removing empty headers -----

  predicate Empty(h: Phdr) { h.kind == PT_LOAD && h.memsz == 0 }

  function NonEmpty(ps: seq<Phdr>): seq<Phdr> {
    if ps == [] then []
    else if Empty(ps[0]) then NonEmpty(ps[1..])
    else [ps[0]] + NonEmpty(ps[1..])
  }

  /** Exactly the load headers without memory go, as often as they occur. */
  lemma {:induction false} NonEmptyExact(ps: seq<Phdr>, h: Phdr)
    ensures multiset(NonEmpty(ps))[h] == if h.kind == 1 && h.memsz == 0 then 0 else multiset(ps)[h]
  {
    if ps != [] {
      NonEmptyExact(ps[1..], h);
      assert ps == [ps[0]] + ps[1..];
    }
  }

  /** And the order stays. */
  lemma {:induction false} NonEmptyJoins(ps: seq<Phdr>, qs: seq<Phdr>)
    ensures NonEmpty(ps + qs) == NonEmpty(ps) + NonEmpty(qs)
  {
    if ps == [] {
      assert ps + qs == qs;
    } else {
      assert (ps + qs)[1..] == ps[1..] + qs;
      NonEmptyJoins(ps[1..], qs);
    }
  }

  /** `MemMove` of the headers after `i` one place down. */
  method ShiftDown(p: array<Phdr>, i: nat, n: nat)
    requires i < n <= p.Length
    modifies p
    ensures p[..n - 1] == old(p[..n])[..i] + old(p[..n])[i + 1..]
  {
    forall k | i <= k < n - 1 {
      p[k] := p[k + 1];
    }
  }

  method RemoveEmpty(p: array<Phdr>, n0: nat) returns (n: nat)
    requires n0 <= p.Length
    modifies p
    ensures n <= n0 && p[..n] == NonEmpty(old(p[..n0]))
  {
    ghost var s := p[..n0];
    ghost var done, todo := [], s;
    var i := 0;
    n := n0;
    assert [] + s == s && [] + NonEmpty(s) == NonEmpty(s);
    while i < n
      invariant n <= n0 && p[..n] == done + todo && |done| == i
      invariant done + NonEmpty(todo) == NonEmpty(s)
      decreases n - i
    {
      i, n := Examine(p, i, n, done, todo);
      NonEmptyStep(done, todo);
      done, todo := if Empty(todo[0]) then done else done + [todo[0]], todo[1..];
    }
    assert todo == [] && done + [] == done;
  }

  method Examine(p: array<Phdr>, i0: nat, n0: nat, ghost done: seq<Phdr>, ghost todo: seq<Phdr>)
    returns (i: nat, n: nat)
    requires n0 <= p.Length && p[..n0] == done + todo && |done| == i0 && |todo| > 0
    modifies p
    ensures var keep := !Empty(todo[0]);
      && n == (if keep then n0 else n0 - 1) && i == (if keep then i0 + 1 else i0)
      && p[..n] == (if keep then done + [todo[0]] else done) + todo[1..]
  {
    i, n := i0, n0;
    Take(done, todo);
    assert p[i] == p[..n0][i];
    if p[i].kind == PT_LOAD && p[i].memsz == 0 {
      ShiftDown(p, i, n);
      n := n - 1;
    } else {
      i := i + 1;
    }
  }

  lemma NonEmptyStep(done: seq<Phdr>, todo: seq<Phdr>)
    requires |todo| > 0
    ensures done + NonEmpty(todo) == (if Empty(todo[0]) then done else done + [todo[0]]) + NonEmpty(todo[1..])
  {
    assert done + ([todo[0]] + NonEmpty(todo[1..])) == (done + [todo[0]]) + NonEmpty(todo[1..]);
  }

  lemma Take<T>(done: seq<T>, todo: seq<T>)
    requires |todo| > 0
    ensures var all, i := done + todo, |done|;
      all[i] == todo[0] && all[..i] + all[i + 1..] == done + todo[1..] && (done + [todo[0]]) + todo[1..] == all
  {
    var all, i := done + todo, |done|;
    assert all[..i] == done && all[i + 1..] == todo[1..];
  }

  // ----- merging neighbouring loads -----

  /** The test the loader makes, in wrapping arithmetic. */
  predicate Adjacent(a: Phdr, b: Phdr, pagesz: u64)
    requires pagesz > 0
  {
    && a.kind == PT_LOAD && b.kind == PT_LOAD && Prot(a) == Prot(b)
    && Sub(PageUp(Add(a.offset, a.filesz), pagesz), PageDown(b.offset, pagesz)) <= pagesz
    && Sub(PageUp(Add(a.vaddr, a.memsz), pagesz), PageDown(b.vaddr, pagesz)) <= pagesz
  }

  function Joined(a: Phdr, b: Phdr): Phdr {
    a.(memsz := Sub(Add(b.vaddr, b.memsz), a.vaddr), filesz := Sub(Add(b.offset, b.filesz), a.offset))
  }

  function MergeFrom(h: Phdr, rest: seq<Phdr>, pagesz: u64): seq<Phdr>
    requires pagesz > 0
    decreases |rest|
  {
    if rest == [] then [h]
    else if Adjacent(h, rest[0], pagesz) then MergeFrom(Joined(h, rest[0]), rest[1..], pagesz)
    else [h] + MergeFrom(rest[0], rest[1..], pagesz)
  }

  function Merge(ps: seq<Phdr>, pagesz: u64): seq<Phdr>
    requires pagesz > 0
  {
    if ps == [] then [] else MergeFrom(ps[0], ps[1..], pagesz)
  }

  method MergeLoads(p: array<Phdr>, n0: nat, pagesz: u64) returns (n: nat)
    requires n0 <= p.Length && pagesz > 0
    modifies p
    ensures n <= n0 && p[..n] == Merge(old(p[..n0]), pagesz)
  {
    ghost var s := p[..n0];
    ghost var done, todo := [], s;
    var i := 0;
    n := n0;
    assert [] + s == s && [] + Merge(s, pagesz) == Merge(s, pagesz);
    while i + 1 < n
      invariant n <= n0 && p[..n] == done + todo && |done| == i && (n > 0 ==> i < n)
      invariant done + Merge(todo, pagesz) == Merge(s, pagesz)
      decreases n - i
    {
      ghost var adjacent := Adjacent(todo[0], todo[1], pagesz);
      i, n := TryJoin(p, i, n, pagesz, done, todo);
      MergeStep(done, todo, pagesz);
      if adjacent {
        todo := [Joined(todo[0], todo[1])] + todo[2..];
      } else {
        done, todo := done + [todo[0]], todo[1..];
      }
    }
    assert n > 0 ==> todo == [todo[0]];
  }

  method TryJoin(p: array<Phdr>, i0: nat, n0: nat, pagesz: u64, ghost done: seq<Phdr>, ghost todo: seq<Phdr>)
    returns (i: nat, n: nat)
    requires n0 <= p.Length && pagesz > 0 && p[..n0] == done + todo && |done| == i0 && |todo| > 1
    modifies p
    ensures if Adjacent(todo[0], todo[1], pagesz)
      then i == i0 && n == n0 - 1 && p[..n] == done + ([Joined(todo[0], todo[1])] + todo[2..])
      else i == i0 + 1 && n == n0 && p[..n] == (done + [todo[0]]) + todo[1..]
  {
    i, n := i0, n0;
    assert p[i] == p[..n][i] == todo[0] && p[i + 1] == p[..n][i + 1] == todo[1];
    if Adjacent(p[i], p[i + 1], pagesz) {
      var h := Joined(p[i], p[i + 1]);
      p[i] := h;
      assert p[..n] == done + [h] + todo[1..];
      ShiftDown(p, i + 1, n);
      n := n - 1;
      Drop(done, h, todo[1..]);
      assert todo[1..][1..] == todo[2..];
    } else {
      Take(done, todo);
      i := i + 1;
    }
  }

  lemma Drop<T>(done: seq<T>, h: T, rest: seq<T>)
    requires |rest| > 0
    ensures var all, i := done + [h] + rest, |done| + 1; all[..i] + all[i + 1..] == done + ([h] + rest[1..])
  {
    var all, i := done + [h] + rest, |done| + 1;
    assert all[..i] == done + [h] && all[i + 1..] == rest[1..];
  }

  lemma MergeStep(done: seq<Phdr>, todo: seq<Phdr>, pagesz: u64)
    requires |todo| > 1 && pagesz > 0
    ensures if Adjacent(todo[0], todo[1], pagesz)
      then Merge([Joined(todo[0], todo[1])] + todo[2..], pagesz) == Merge(todo, pagesz)
      else (done + [todo[0]]) + Merge(todo[1..], pagesz) == done + Merge(todo, pagesz)
  {
    assert todo[1..][1..] == todo[2..];
    var m := Merge(todo[1..], pagesz);
    assert done + ([todo[0]] + m) == (done + [todo[0]]) + m;
  }
}
