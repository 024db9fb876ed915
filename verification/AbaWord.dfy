/** The list word of examples/aba.c: a 16-byte aligned pointer below 2^56 with a
    12-bit version tag spread over the eight high and four low bits. */
module AbaWord {

  const MASQUE: bv64 := 0x00fffffffffffff0

  function Ptr(x: bv64): bv64 { x & MASQUE }

  function Rol8(x: bv64): bv64 { (x << 8) | (x >> 56) }

  function Ror8(x: bv64): bv64 { (x >> 8) | (x << 56) }

  function Tag(x: bv64): bv64 { Rol8(x & !MASQUE) }

  function Aba(p: bv64, t: bv64): bv64 { p | (Ror8(t) & !MASQUE) }

  /** The tag as a number. */
  function TagNum(x: bv64): nat { Tag(x) as nat }

  /** Packing loses nothing of an aligned pointer and the low 12 bits of a tag. */
  lemma PackUnpack(p: bv64, t: bv64)
    requires Tag(p) == 0
    ensures Ptr(Aba(p, t)) == p && Tag(Aba(p, t)) == t & 0xfff
  {
  }

  /** A word is determined by its two parts. */
  lemma UnpackPack(w: bv64)
    ensures Aba(Ptr(w), Tag(w)) == w && Tag(w) & 0xfff == Tag(w) && Tag(Ptr(w)) == 0
  {
  }

  lemma SmallWords(t: bv64)
    requires t & 0xfff == t
    ensures t as int < 4096
    ensures t != 0xfff ==> (t + 1) & 0xfff == t + 1 && t < 0xfff
    ensures t == 0xfff ==> (t + 1) & 0xfff == 0
  {
  }

  lemma Inc(t: bv64)
    requires t < 0xfff
    ensures (t + 1) as int == t as int + 1
  {
  }

  lemma OneMore(t: bv64, u: bv64)
    requires t & 0xfff == t && u == (t + 1) & 0xfff
    ensures t != 0xfff ==> u as int == t as int + 1 < 4096
    ensures t == 0xfff ==> u as int == 0 && t as int == 4095
  {
    if t == 0xfff {
      assert u == 0;
    } else {
      SmallWords(t);
      assert u == t + 1;
      SmallWords(u);
      Inc(t);
    }
  }

  lemma Wrapped(n: nat, m: nat)
    requires (n == 4095 && m == 0) || m == n + 1 < 4096
    ensures m == (n + 1) % 4096
  {
  }

  /** The word a successful exchange installs: the new pointer and the next tag. */
  lemma NextWord(p: bv64, w: bv64)
    requires Tag(p) == 0
    ensures var w' := Aba(p, Tag(w) + 1); Ptr(w') == p && TagNum(w') == (TagNum(w) + 1) % 4096
  {
    PackUnpack(p, Tag(w) + 1);
    NextTag(w, Aba(p, Tag(w) + 1));
  }

  lemma NextTag(w: bv64, w': bv64)
    requires Tag(w') == (Tag(w) + 1) & 0xfff
    ensures TagNum(w') == (TagNum(w) + 1) % 4096
  {
    UnpackPack(w);
    NextNumber(Tag(w), Tag(w'));
  }

  lemma NextNumber(t: bv64, u: bv64)
    requires t & 0xfff == t && u == (t + 1) & 0xfff
    ensures u as nat == (t as nat + 1) % 4096
  {
    OneMore(t, u);
    Wrapped(t as nat, u as nat);
  }

  /** The compare-exchange sees exactly the pointer and the tag. */
  lemma SameWord(v: bv64, w: bv64)
    ensures v == w <==> Ptr(v) == Ptr(w) && TagNum(v) == TagNum(w)
  {
    UnpackPack(v);
    UnpackPack(w);
    if TagNum(v) == TagNum(w) { SameNumber(Tag(v), Tag(w)); }
  }

  lemma SameNumber(a: bv64, b: bv64)
    requires a as int == b as int
    ensures a == b
  {
    assert (a as int) as bv64 == a && (b as int) as bv64 == b;
  }

  /** The word taken apart, as the step system of `AbaStack` sees it. */
  datatype Word = Word(ptr: nat, tag: nat)

  function Unpack(w: bv64): Word { Word(Ptr(w) as nat, TagNum(w)) }

  /** Comparing and exchanging packed words is comparing and exchanging pairs. */
  lemma UnpackFaithful(v: bv64, w: bv64, p: bv64)
    requires Tag(p) == 0
    ensures v == w <==> Unpack(v) == Unpack(w)
    ensures Unpack(Aba(p, Tag(w) + 1)) == Word(p as nat, (Unpack(w).tag + 1) % 4096)
  {
    PairFaithful(v, w);
    NextFaithful(p, w);
  }

  lemma PairFaithful(v: bv64, w: bv64)
    ensures v == w <==> Unpack(v) == Unpack(w)
  {
    if Unpack(v) == Unpack(w) {
      SameNumber(Ptr(v), Ptr(w));
      SameWord(v, w);
    }
  }

  lemma NextFaithful(p: bv64, w: bv64)
    requires Tag(p) == 0
    ensures Unpack(Aba(p, Tag(w) + 1)) == Word(p as nat, (Unpack(w).tag + 1) % 4096)
  {
    NextWord(p, w);
  }
}
