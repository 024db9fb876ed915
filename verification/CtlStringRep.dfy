/** The 24 bytes of a `string`: a small string whose last byte counts the room left, or
    pointer, size and capacity of a heap buffer with the top bit of the last byte set. */
module CtlStringRep {
  import opened Bytes

  const SSO_MAX := 23
  const STRING_SIZE := 24
  const WORD := 0x1_0000_0000_0000_0000
  const BIG_BIT := 0x8000_0000_0000_0000

  type Blob = b: seq<byte> | |b| == STRING_SIZE
    witness [0, 0, 0, 0, 0, 0, 0, 0, 0, 0, 0, 0, 0, 0, 0, 0, 0, 0, 0, 0, 0, 0, 0, 0]

  type Blocks = map<nat, seq<byte>>

  predicate IsBig(b: Blob) { b[SSO_MAX] >= 128 }

  function Pointer(b: Blob): nat { FromLe(b[0..8]) }

  function BigSize(b: Blob): nat { FromLe(b[8..16]) }

  function BigCapacity(b: Blob): nat { FromLe(b[16..24]) % BIG_BIT }

  function Size(b: Blob): int { if IsBig(b) then BigSize(b) else SSO_MAX - b[SSO_MAX] }

  function Capacity(b: Blob): nat { if IsBig(b) then BigCapacity(b) else STRING_SIZE }

  // ----- writing the fields -----

  function WithBig(p: nat, n: nat, c: nat): Blob
    requires c < BIG_BIT
  {
    ToLe(p, 8) + ToLe(n, 8) + ToLe(c + BIG_BIT, 8)
  }

  function WithN(b: Blob, n: nat): Blob { b[..8] + ToLe(n, 8) + b[16..] }

  function WithRem(b: Blob, rem: byte): Blob { b[SSO_MAX := rem] }

  lemma Round64(x: nat)
    requires x < WORD
    ensures FromLe(ToLe(x, 8)) == x
  {
    Pow256Of8();
    FromTo(x, 8);
  }

  /** The top bit of a word is the top bit of its last byte. */
  lemma TopBit(s: seq<byte>)
    requires |s| == 8
    ensures s[7] >= 128 <==> FromLe(s) >= BIG_BIT
    ensures FromLe(s) < WORD
  {
    Pow256Of8();
    TopByte(s);
  }

  lemma BigFields(p: nat, n: nat, c: nat)
    requires p < WORD && n < WORD && c < BIG_BIT
    ensures var b := WithBig(p, n, c); IsBig(b) && Pointer(b) == p && BigSize(b) == n && BigCapacity(b) == c
  {
    var b := WithBig(p, n, c);
    Round64(p);
    Round64(n);
    Round64(c + BIG_BIT);
    assert b[0..8] == ToLe(p, 8) && b[8..16] == ToLe(n, 8) && b[16..24] == ToLe(c + BIG_BIT, 8);
    TopBit(b[16..24]);
  }

  lemma SizeField(b: Blob, n: nat)
    requires n < WORD
    ensures var r := WithN(b, n);
      (IsBig(r) <==> IsBig(b)) && Pointer(r) == Pointer(b) && BigSize(r) == n && BigCapacity(r) == BigCapacity(b)
  {
    var r := WithN(b, n);
    Round64(n);
    assert r[0..8] == b[0..8] && r[8..16] == ToLe(n, 8) && r[16..24] == b[16..24];
  }

  // ----- what the bytes mean -----

  /** The buffer is there and big enough; the byte after the text may be anything. */
  ghost predicate Loose(b: Blob, blocks: Blocks) {
    if IsBig(b) then
      && 0 < Pointer(b) && Pointer(b) in blocks && |blocks[Pointer(b)]| == BigCapacity(b)
      && STRING_SIZE < BigCapacity(b) && BigSize(b) < BigCapacity(b)
    else b[SSO_MAX] <= SSO_MAX
  }

  /** All that `data()` can reach. */
  ghost function Data(b: Blob, blocks: Blocks): seq<byte>
    requires Loose(b, blocks)
  {
    if IsBig(b) then blocks[Pointer(b)] else b
  }

  ghost function Text(b: Blob, blocks: Blocks): (t: seq<byte>)
    requires Loose(b, blocks)
    ensures |t| == Size(b)
  {
    Data(b, blocks)[..Size(b)]
  }

  /** A string between operations: a zero byte follows a text that is not empty. */
  ghost predicate Good(b: Blob, blocks: Blocks) {
    Loose(b, blocks) && (Size(b) > 0 ==> Data(b, blocks)[Size(b)] == 0)
  }

  ghost function Owned(b: Blob): set<nat> { if IsBig(b) then {Pointer(b)} else {} }

  // ----- editing a buffer -----

  function Over(m: seq<byte>, at: nat, s: seq<byte>): (r: seq<byte>)
    requires at + |s| <= |m|
    ensures |r| == |m|
  {
    m[..at] + s + m[at + |s|..]
  }

  function Fill(ch: byte, n: nat): (r: seq<byte>)
    ensures |r| == n
  {
    seq(n, _ => ch)
  }

  // ----- the heap -----

  /** Nothing changes but the blocks `mine`, in whose place are now `yours`. */
  ghost predicate Only(was: Blocks, now: Blocks, mine: set<nat>, yours: set<nat>) {
    && (forall q :: q in was && q !in mine ==> q in now && now[q] == was[q])
    && now.Keys == (was.Keys - mine) + yours
    && (forall q :: q in yours ==> q in mine || q !in was)
  }

  lemma OnlyThen(w0: Blocks, w1: Blocks, w2: Blocks, a: set<nat>, b: set<nat>, c: set<nat>)
    requires Only(w0, w1, a, b) && Only(w1, w2, b, c) && a <= w0.Keys
    ensures Only(w0, w2, a, c)
  {
    forall q | q in w0 && q !in a ensures q in w2 && w2[q] == w0[q] {
      assert q in w1 && q !in b;
    }
    assert w2.Keys == (w0.Keys - a) + c;
  }

  lemma ZeroFill(n: nat)
    ensures exists s: seq<byte> :: |s| == n
  {
    assert |Fill(0, n)| == n;
  }

  /** `malloc`, `realloc` and `free`.  Any request may fail, which `refused` records; new
      bytes are arbitrary. */
  class Heap {
    var blocks: Blocks
    ghost var refused: bool

    constructor ()
      ensures blocks == map[] && !refused
    {
      blocks, refused := map[], false;
    }

    method Malloc(n: nat) returns (p: nat)
      modifies this
      ensures p == 0 ==> blocks == old(blocks) && refused
      ensures p != 0 ==>
        p < WORD && p !in old(blocks) && exists s: seq<byte> :: |s| == n && blocks == old(blocks)[p := s]
    {
      p := *;
      if p == 0 || p >= WORD || p in blocks {
        refused := true;
        return 0;
      }
      ZeroFill(n);
      var s: seq<byte> :| |s| == n;
      blocks := blocks[p := s];
    }

    method Realloc(p0: nat, n: nat) returns (p: nat)
      requires p0 in blocks
      modifies this
      ensures p == 0 ==> blocks == old(blocks) && refused
      ensures p != 0 ==> p < WORD && (p == p0 || p !in old(blocks))
      ensures p != 0 ==> Only(old(blocks), blocks, {p0}, {p}) && |blocks[p]| == n
      ensures p != 0 ==>
        var k := if n < |old(blocks[p0])| then n else |old(blocks[p0])|; blocks[p][..k] == old(blocks[p0])[..k]
    {
      p := *;
      if p == 0 || p >= WORD || (p in blocks && p != p0) {
        refused := true;
        return 0;
      }
      var was := blocks[p0];
      ZeroFill(n);
      var s: seq<byte> :| |s| == n;
      var k := if n < |was| then n else |was|;
      var kept: seq<byte> := was[..k] + s[k..];
      blocks := (map q: nat | q in blocks && q != p0 :: blocks[q])[p := kept];
    }

    method Free(p: nat)
      requires p in blocks
      modifies this
      ensures blocks == old(blocks) - {p}
    {
      blocks := blocks - {p};
    }
  }
}
