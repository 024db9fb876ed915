/** The clean-up passes and the mapping pass together: what becomes of the headers as
    they were read.  At the end, inputs on which the two promises that need a condition
    fail. */
module ApeLoad {
  import opened Bytes
  import opened ApePages
  import opened ApePhdrs
  import opened ApeValidate
  import opened ApeMerge
  import opened ApeSpawn

  lemma Quarter(f: nat, k: nat)
    requires 4 * k <= f < 4 * k + 4
    ensures f / 4 == k
  {
  }

  lemma Half(f: nat, k: nat)
    requires 2 * k <= f < 2 * k + 2
    ensures f / 2 == k
  {
  }

  /** A flag is a digit of the last three. */
  lemma LowBits(f: nat, q: nat, r: nat)
    requires f == 8 * q + r && r < 8
    ensures f / 4 % 2 == r / 4 && f / 2 % 2 == r / 2 % 2 && f % 2 == r % 2
  {
    Quarter(f, 2 * q + r / 4);
    Half(f, 4 * q + r / 2);
    Parity(q, r / 4);
    Parity(2 * q, r / 2);
    Parity(4 * q, r);
  }

  lemma Parity(k: nat, r: nat)
    ensures (2 * k + r) % 2 == r % 2
  {
  }

  lemma SameProt(a: Phdr, b: Phdr)
    requires Prot(a) == Prot(b)
    ensures SegProt(a) == SegProt(b)
  {
    LowBits(a.flags, a.flags / 8, a.flags % 8);
    LowBits(b.flags, b.flags / 8, b.flags % 8);
  }

  /** The image of a joined header is the image of both parts. */
  lemma JoinedImage(cell: Cells, a: Phdr, b: Phdr, base: nat, file: seq<byte>, pg: nat)
    requires pg > 0 && Contiguous(a, b) && Prot(a) == Prot(b) && Image(cell, Joined(a, b), base, file, pg)
    ensures Image(cell, a, base, file, pg) && Image(cell, b, base, file, pg)
  {
    var j := Joined(a, b);
    JoinedSizes(a, b);
    SameProt(a, j);
    SameProt(b, j);
    PartImage(cell, a, j, base, file, pg);
    PartImage(cell, b, j, base, file, pg);
  }

  /** `g` is a piece of the mapping that `j` describes. */
  predicate PartOf(g: Phdr, j: Phdr) {
    && j.vaddr <= g.vaddr && g.vaddr + g.memsz <= j.vaddr + j.memsz && g.offset - g.vaddr == j.offset - j.vaddr
    && g.filesz <= g.memsz && g.vaddr + g.filesz <= j.vaddr + j.filesz
    && (g.filesz < g.memsz ==> g.vaddr + g.filesz == j.vaddr + j.filesz)
  }

  lemma PartImage(cell: Cells, g: Phdr, j: Phdr, base: nat, file: seq<byte>, pg: nat)
    requires pg > 0 && PartOf(g, j) && SegProt(g) == SegProt(j) && Image(cell, j, base, file, pg)
    ensures Image(cell, g, base, file, pg)
  {
    PartPages(g, j, base, pg);
    forall y: nat | base + g.vaddr <= y < base + g.vaddr + g.filesz
      ensures cell(y) == Mapped(SegProt(g), FileCell(file, g.offset + (y - (base + g.vaddr)), pg))
    {
      assert j.offset + (y - (base + j.vaddr)) == g.offset + (y - (base + g.vaddr));
    }
  }

  lemma PartPages(g: Phdr, j: Phdr, base: nat, pg: nat)
    requires pg > 0 && PartOf(g, j)
    ensures First(j, base, pg) <= First(g, base, pg) && Last(g, base, pg) <= Last(j, base, pg)
  {
    CeilMono(g.vaddr + g.memsz, j.vaddr + j.memsz, pg);
    CeilMono(j.vaddr, g.vaddr, pg);
  }

  /** If the merged table is loaded, so is the table before merging. */
  lemma {:induction false} MergedImages(ps: seq<Phdr>, pg: u64, cell: Cells, base: nat, file: seq<byte>)
    requires pg > 0 && Tidy(ps, pg) && Images(cell, Merge(ps, pg), base, file, pg, |Merge(ps, pg)|)
    ensures Images(cell, ps, base, file, pg, |ps|)
    decreases |ps|
  {
    if |ps| == 1 {
      assert ps[1..] == [] && Merge(ps, pg) == [ps[0]] == ps;
    } else if |ps| > 1 && Adjacent(ps[0], ps[0 + 1], pg) {
      var t := [Joined(ps[0], ps[1])] + ps[2..];
      MergeStep([], ps, pg);
      TidyJoined(ps, pg);
      MergedImages(t, pg, cell, base, file);
      SplitImages(ps, t, pg, cell, base, file);
    } else if |ps| > 1 {
      var rest := Merge(ps[1..], pg);
      assert ps[1..][1..] == ps[2..] && Merge(ps, pg) == [ps[0]] + rest;
      TidyTail(ps, pg);
      TailImages(ps[0], rest, pg, cell, base, file);
      MergedImages(ps[1..], pg, cell, base, file);
      assert ps == [ps[0]] + ps[1..];
      WholeImages(ps[0], ps[1..], pg, cell, base, file);
    }
  }

  lemma SplitImages(ps: seq<Phdr>, t: seq<Phdr>, pg: u64, cell: Cells, base: nat, file: seq<byte>)
    requires pg > 0 && |ps| > 1 && Tidy(ps, pg) && Adjacent(ps[0], ps[0 + 1], pg)
    requires t == [Joined(ps[0], ps[1])] + ps[2..] && Images(cell, t, base, file, pg, |t|)
    ensures Images(cell, ps, base, file, pg, |ps|)
  {
    assert Contiguous(ps[0], ps[0 + 1]);
    assert t[0] == Joined(ps[0], ps[1]) && t[0].kind == PT_LOAD;
    JoinedImage(cell, ps[0], ps[1], base, file, pg);
    forall k | 0 <= k < |ps| && ps[k].kind == PT_LOAD ensures Image(cell, ps[k], base, file, pg) {
      if k >= 2 { assert t[k - 1] == ps[k]; }
    }
  }

  lemma TailImages(h: Phdr, rest: seq<Phdr>, pg: u64, cell: Cells, base: nat, file: seq<byte>)
    requires pg > 0 && Images(cell, [h] + rest, base, file, pg, |rest| + 1)
    ensures Images(cell, rest, base, file, pg, |rest|) && Images(cell, [h], base, file, pg, 1)
  {
    var m := [h] + rest;
    forall k | 0 <= k < |rest| && rest[k].kind == PT_LOAD ensures Image(cell, rest[k], base, file, pg) {
      assert m[k + 1] == rest[k];
    }
    assert m[0] == h;
  }

  lemma WholeImages(h: Phdr, rest: seq<Phdr>, pg: u64, cell: Cells, base: nat, file: seq<byte>)
    requires pg > 0 && Images(cell, rest, base, file, pg, |rest|) && Images(cell, [h], base, file, pg, 1)
    ensures Images(cell, [h] + rest, base, file, pg, |rest| + 1)
  {
    var m := [h] + rest;
    forall k | 0 <= k < |m| && m[k].kind == PT_LOAD ensures Image(cell, m[k], base, file, pg) {
      if k == 0 { assert [h][0] == m[k]; } else { assert rest[k - 1] == m[k]; }
    }
  }

  lemma {:induction false} NonEmptyHas(ps: seq<Phdr>, k: nat) returns (j: nat)
    requires k < |ps| && !Empty(ps[k])
    ensures j < |NonEmpty(ps)| && NonEmpty(ps)[j] == ps[k]
  {
    if k == 0 {
      j := 0;
    } else {
      j := NonEmptyHas(ps[1..], k - 1);
      if !Empty(ps[0]) { j := j + 1; }
    }
  }

  /** Every load segment of the table as it was read, except empty ones. */
  ghost predicate AllLoaded(cell: Cells, ps: seq<Phdr>, base: nat, file: seq<byte>, pg: nat)
    requires pg > 0
  {
    forall k :: 0 <= k < |ps| && ps[k].kind == PT_LOAD && ps[k].memsz > 0 ==> Image(cell, ps[k], base, file, pg)
  }

  lemma OriginalImages(ps: seq<Phdr>, pg: u64, cell: Cells, base: nat, file: seq<byte>)
    requires pg > 0 && Tidy(NonEmpty(ps), pg)
    requires var m := Merge(NonEmpty(ps), pg); Images(cell, m, base, file, pg, |m|)
    ensures AllLoaded(cell, ps, base, file, pg)
  {
    MergedImages(NonEmpty(ps), pg, cell, base, file);
    forall k | 0 <= k < |ps| && ps[k].kind == PT_LOAD && ps[k].memsz > 0 ensures Image(cell, ps[k], base, file, pg) {
      var j := NonEmptyHas(ps, k);
    }
  }

  lemma LoadedServes(cell: Cells, ps: seq<Phdr>, base: nat, file: seq<byte>, pg: nat)
    requires pg > 0 && base % pg == 0 && AllLoaded(cell, ps, base, file, pg)
    ensures AllServed(cell, ps, base, file, pg)
  {
    forall k | 0 <= k < |ps| && ps[k].kind == 1 ensures Served(cell, ps[k], base, file, pg) {
      if ps[k].memsz > 0 { ImageServes(cell, ps[k], base, file, pg); }
    }
  }

  /** From the header table as it was read to the loaded program. */
  method LoadElf(mem: Memory, p: array<Phdr>, n0: nat, isDyn: bool, entry: u64, exeStart: u64, exeEnd: u64, at: u64)
    returns (o: Outcome, base: u64)
    requires 0 < mem.pg < WRAP && 2 * mem.limit <= WRAP && mem.limit % mem.pg == 0 && n0 <= p.Length
    modifies mem, p
    ensures var m := Merge(NonEmpty(old(p[..n0])), mem.pg);
      && (o == Loaded ==> Images(mem.cell, m, base, mem.file, mem.pg, |m|))
      && (o == Loaded ==> Accepted(m, mem.pg, entry, exeStart, exeEnd))
      && (!Accepted(m, mem.pg, entry, exeStart, exeEnd) ==> o == Exited && mem.cell == old(mem.cell))
    ensures o == Loaded && Tidy(NonEmpty(old(p[..n0])), mem.pg) ==>
      var ps := old(p[..n0]);
      AllLoaded(mem.cell, ps, base, mem.file, mem.pg) && AllServed(mem.cell, ps, base, mem.file, mem.pg)
  {
    ghost var ps := p[..n0];
    var n := RemoveEmpty(p, n0);
    n := MergeLoads(p, n, mem.pg);
    o, base := Spawn(mem, p[..n], isDyn, entry, exeStart, exeEnd, at);
    if o == Loaded && Tidy(NonEmpty(ps), mem.pg) {
      OriginalImages(ps, mem.pg, mem.cell, base, mem.file);
      LoadedServes(mem.cell, ps, base, mem.file, mem.pg);
    }
  }

  // ----- where a condition is needed -----

  /** Two headers on one page, with zero fill behind the file content of the first. */
  const FRONT := Phdr(PT_LOAD, 7, 0, 0x400000, 0x10, 0x100)
  const BACK := Phdr(PT_LOAD, 7, 0x200, 0x400200, 0x10, 0x10)

  /** The loader merges these and accepts the result, and the zero fill is lost. */
  lemma LossyMerge() returns (file: File)
    ensures Adjacent(FRONT, BACK, 4096) && Ascending(FRONT, BACK) && !Lossless(FRONT, BACK)
    ensures Merge([FRONT, BACK], 4096) == [Joined(FRONT, BACK)]
    ensures Accepted([Joined(FRONT, BACK)], 4096, 0x400000, 0, 0)
    ensures !(Keeps(Joined(FRONT, BACK), FRONT, file) && Keeps(Joined(FRONT, BACK), BACK, file))
  {
    OnePage();
    FillInFront();
    MergePair(FRONT, BACK, 4096);
    JoinedAccepted();
    file := JoinedLoses(FRONT, BACK);
  }

  lemma MergePair(a: Phdr, b: Phdr, pg: u64)
    requires pg > 0 && Adjacent(a, b, pg)
    ensures Merge([a, b], pg) == [Joined(a, b)]
  {
    var j := Joined(a, b);
    assert [a, b][1..] == [b] && [b][1..] == [];
    assert MergeFrom(j, [], pg) == [j];
    assert MergeFrom(a, [b], pg) == MergeFrom(j, [b][1..], pg);
  }

  lemma FillInFront()
    ensures Ascending(FRONT, BACK) && !Lossless(FRONT, BACK)
  {
    BssInFrontIsLost(FRONT, BACK);
  }

  lemma OnePage()
    ensures Adjacent(FRONT, BACK, 4096)
  {
    OffsetPages(FRONT, BACK, 4096);
    AddressPages(FRONT, BACK, 4096);
  }

  lemma OffsetPages(a: Phdr, b: Phdr, pg: u64)
    requires pg == 4096 && a.offset == 0 && a.filesz == 0x10 && b.offset == 0x200
    ensures Sub(PageUp(Add(a.offset, a.filesz), pg), PageDown(b.offset, pg)) <= pg
  {
    NoWrap(a.offset, a.filesz);
    SamePage(a.offset + a.filesz, b.offset, 0);
  }

  lemma AddressPages(a: Phdr, b: Phdr, pg: u64)
    requires pg == 4096 && a.vaddr == 0x400000 && a.memsz == 0x100 && b.vaddr == 0x400200
    ensures Sub(PageUp(Add(a.vaddr, a.memsz), pg), PageDown(b.vaddr, pg)) <= pg
  {
    NoWrap(a.vaddr, a.memsz);
    SamePage(a.vaddr + a.memsz, b.vaddr, 1024);
  }

  /** One segment ends and another starts on page k. */
  lemma SamePage(x: u64, y: u64, k: nat)
    requires 4096 * k < x <= 4096 * k + 4096 && 4096 * k <= y < 4096 * k + 4096 && k < 0x10_0000
    ensures Sub(PageUp(x, 4096), PageDown(y, 4096)) <= 4096
  {
    PageAt(y, k);
    NoWrap(x, 4095);
    PageAt(x + 4095, k + 1);
    NoBorrow(4096 * k + 4096, 4096 * k);
  }

  lemma PageAt(x: u64, k: nat)
    requires 4096 * k <= x < 4096 * k + 4096
    ensures PageDown(x, 4096) == 4096 * k
  {
    assert x % 4096 == x - 4096 * k;
  }

  lemma JoinedAccepted()
    ensures Accepted([Joined(FRONT, BACK)], 4096, 0x400000, 0, 0)
  {
    var h := Joined(FRONT, BACK);
    PageIsTwoPower();
    assert h == Phdr(PT_LOAD, 7, 0, 0x400000, 0x210, 0x210);
    assert Plausible(h, 4096, 0, 0);
    assert HoldsEntry([h][0], 0x400000);
  }

  lemma PageIsTwoPower()
    ensures TwoPower(4096)
  {
    assert TwoPower(16);
    TwoPowerMul(16, 16);
    TwoPowerMul(16, 256);
  }

  /** A segment whose file content starts on the page after the end of the file. */
  const PAST_END := Phdr(PT_LOAD, 7, 0x2000, 0x402000, 0x10, 0x20)

  /** The loader accepts such a header, and clearing its tail is fatal. */
  lemma FatalTail(file: seq<byte>)
    requires |file| == 0x1000
    ensures Accepted([PAST_END], 4096, 0x402000, 0, 0) && BadTail(PAST_END, file, 4096)
  {
    PageIsTwoPower();
    assert Plausible(PAST_END, 4096, 0, 0);
    assert HoldsEntry([PAST_END][0], 0x402000);
  }
}
