/** The loader's own memory routines, which copy and clear eight bytes at a time. */
module ApeMem {
  import opened Bytes

  const WORD := 8

  /** Bytes [lo, hi) of the new memory come from `src` of the old one; the rest is unchanged. */
  ghost predicate Copied(was: seq<byte>, now: seq<byte>, d: nat, s: nat, lo: nat, hi: nat) {
    && |now| == |was| && lo <= hi && s + hi <= |was| && d + hi <= |was|
    && (forall k :: d + lo <= k < d + hi ==> now[k] == was[k + (s - d)])
    && (forall k :: 0 <= k < d + lo ==> now[k] == was[k])
    && (forall k :: d + hi <= k < |was| ==> now[k] == was[k])
  }

  /** A word goes through a register: read all eight bytes, then write them. */
  method CopyWord(mem: array<byte>, d: nat, s: nat, i: nat)
    requires d + i + WORD <= mem.Length && s + i + WORD <= mem.Length
    modifies mem
    ensures Copied(old(mem[..]), mem[..], d, s, i, i + WORD)
  {
    var w := mem[s + i..s + i + WORD];
    forall k | 0 <= k < WORD {
      mem[d + i + k] := w[k];
    }
    assert forall k :: d + i <= k < d + i + WORD ==> mem[k] == w[k - d - i];
  }

  method CopyByte(mem: array<byte>, d: nat, s: nat, i: nat)
    requires d + i < mem.Length && s + i < mem.Length
    modifies mem
    ensures Copied(old(mem[..]), mem[..], d, s, i, i + 1)
  {
    mem[d + i] := mem[s + i];
  }

  /** The destination gets the old source for every overlap, and nothing else changes. */
  method MemMove(mem: array<byte>, d: nat, s: nat, n0: nat)
    requires d + n0 <= mem.Length && s + n0 <= mem.Length
    modifies mem
    ensures Copied(old(mem[..]), mem[..], d, s, 0, n0)
  {
    if d > s {
      MoveUp(mem, d, s, n0);
    } else {
      MoveDown(mem, d, s, n0);
    }
  }

  /** Copying forwards never reads a byte it has already written. */
  lemma Forwards(was: seq<byte>, mid: seq<byte>, now: seq<byte>, d: nat, s: nat, i: nat, n: nat)
    requires d <= s && Copied(was, mid, d, s, 0, i) && Copied(mid, now, d, s, i, i + n)
    ensures Copied(was, now, d, s, 0, i + n)
  {
    forall k | d <= k < d + i + n ensures now[k] == was[k + (s - d)] {
      if k < d + i { assert now[k] == mid[k]; } else { assert now[k] == mid[k + (s - d)]; }
    }
  }

  /** Nor does copying backwards, when the destination is the higher one. */
  lemma Backwards(was: seq<byte>, mid: seq<byte>, now: seq<byte>, d: nat, s: nat, i: nat, n: nat, hi: nat)
    requires d > s && Copied(was, mid, d, s, i + n, hi) && Copied(mid, now, d, s, i, i + n)
    ensures Copied(was, now, d, s, i, hi)
  {
    forall k | d + i <= k < d + hi ensures now[k] == was[k + (s - d)] {
      if k < d + i + n { assert now[k] == mid[k + (s - d)]; } else { assert now[k] == mid[k]; }
    }
  }

  /** From the last word to the first, then the bytes before it. */
  method MoveUp(mem: array<byte>, d: nat, s: nat, n0: nat)
    requires d + n0 <= mem.Length && s + n0 <= mem.Length && d > s
    modifies mem
    ensures Copied(old(mem[..]), mem[..], d, s, 0, n0)
  {
    ghost var was := mem[..];
    var n: nat := n0;
    while n >= WORD
      invariant n <= n0 && Copied(was, mem[..], d, s, n, n0)
    {
      ghost var mid := mem[..];
      n := n - WORD;
      CopyWord(mem, d, s, n);
      Backwards(was, mid, mem[..], d, s, n, WORD, n0);
    }
    while n > 0
      invariant n <= n0 && Copied(was, mem[..], d, s, n, n0)
    {
      ghost var mid := mem[..];
      n := n - 1;
      CopyByte(mem, d, s, n);
      Backwards(was, mid, mem[..], d, s, n, 1, n0);
    }
  }

  /** From the first word to the last, then the bytes after it. */
  method MoveDown(mem: array<byte>, d: nat, s: nat, n: nat)
    requires d + n <= mem.Length && s + n <= mem.Length && d <= s
    modifies mem
    ensures Copied(old(mem[..]), mem[..], d, s, 0, n)
  {
    ghost var was := mem[..];
    var i: nat := 0;
    while i + WORD <= n
      invariant i <= n && Copied(was, mem[..], d, s, 0, i)
    {
      ghost var mid := mem[..];
      CopyWord(mem, d, s, i);
      Forwards(was, mid, mem[..], d, s, i, WORD);
      i := i + WORD;
    }
    while i < n
      invariant i <= n && Copied(was, mem[..], d, s, 0, i)
    {
      ghost var mid := mem[..];
      CopyByte(mem, d, s, i);
      Forwards(was, mid, mem[..], d, s, i, 1);
      i := i + 1;
    }
  }

  method Bzero(mem: array<byte>, a: nat, n: nat)
    requires a + n <= mem.Length
    modifies mem
    ensures forall k :: a <= k < a + n ==> mem[k] == 0
    ensures forall k :: 0 <= k < a || a + n <= k < mem.Length ==> mem[k] == old(mem[k])
  {
    var p, e := a, a + n;
    while p + WORD <= e
      invariant a <= p <= e
      invariant forall k :: a <= k < p ==> mem[k] == 0
      invariant forall k :: 0 <= k < a || p <= k < mem.Length ==> mem[k] == old(mem[k])
    {
      forall k | p <= k < p + WORD {
        mem[k] := 0;
      }
      p := p + WORD;
    }
    while p < e
      invariant a <= p <= e
      invariant forall k :: a <= k < p ==> mem[k] == 0
      invariant forall k :: 0 <= k < a || p <= k < mem.Length ==> mem[k] == old(mem[k])
    {
      mem[p] := 0;
      p := p + 1;
    }
  }
}
