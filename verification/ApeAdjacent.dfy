/** Which neighbouring headers the loader merges, in terms of pages. */
module ApeAdjacent {
  import opened ApePages
  import opened ApePhdrs

  /** `x` is at most a page past the start of the page of `y`, and less than a page before;
      zero also counts as past the last page of all. */
  predicate Meets(x: nat, y: nat, pg: nat)
    requires pg > 0
  {
    y / pg * pg - pg < x <= y / pg * pg + pg || (x == 0 && y >= WRAP - pg)
  }

  lemma GapExact(x: u64, y: u64, pg: u64)
    requires 0 < pg && x + (pg - 1) < WRAP && WRAP % pg == 0
    ensures Sub(PageUp(x, pg), PageDown(y, pg)) <= pg <==> Meets(x, y, pg)
  {
    assert Add(x, pg - 1) == x + (pg - 1) && PageUp(x, pg) == Ceil(x, pg) && PageDown(y, pg) == Floor(y, pg);
    FloorFacts(y, pg);
    CeilFacts(x, pg);
    AlignedGap(Ceil(x, pg), Floor(y, pg), pg);
    LastPage(y, pg);
    FloorIs(y, pg);
    NearExact(x, Floor(y, pg), pg);
  }

  lemma EndGap(start: u64, size: u64, y: u64, pg: u64)
    requires 0 < pg && start + size + (pg - 1) < WRAP && WRAP % pg == 0
    ensures Sub(PageUp(Add(start, size), pg), PageDown(y, pg)) <= pg <==> Meets(start + size, y, pg)
  {
    assert Add(start, size) == start + size;
    GapExact(start + size, y, pg);
  }

  lemma FloorIs(y: nat, pg: nat)
    requires pg > 0
    ensures Floor(y, pg) == y / pg * pg
  {
    assert y == pg * (y / pg) + y % pg;
  }

  lemma NearExact(x: nat, f: nat, pg: nat)
    requires pg > 0 && f % pg == 0
    ensures f - pg < x <= f + pg <==> Ceil(x, pg) == f || Ceil(x, pg) == f + pg
    ensures Ceil(x, pg) == 0 <==> x == 0
  {
    CeilFacts(x, pg);
    var e := Ceil(x, pg);
    ShiftRem(pg, f, pg);
    BetweenPages(x, f + pg, pg);
    if e < f { Boundaries(e, f, pg); }
    if f < e { Boundaries(f, e, pg); }
    if x == 0 { BetweenPages(x, 0, pg); }
  }

  /** Two page boundaries are at most a page apart, in wrapping arithmetic. */
  lemma AlignedGap(e: u64, f: u64, pg: u64)
    requires 0 < pg && e % pg == 0 && f % pg == 0 && WRAP % pg == 0
    ensures Sub(e, f) <= pg <==> e == f || e == f + pg || (e == 0 && f == WRAP - pg)
  {
    if e >= f {
      assert Sub(e, f) == e - f;
      if e > f { Boundaries(f, e, pg); }
      if f < e < f + pg { assert false; }
    } else {
      assert Sub(e, f) == e - f + WRAP;
      Boundaries(f, WRAP, pg);
    }
  }

  lemma LastPage(y: u64, pg: u64)
    requires 0 < pg && WRAP % pg == 0
    ensures Floor(y, pg) == WRAP - pg <==> y >= WRAP - pg
  {
    FloorFacts(y, pg);
    ModUnique(WRAP - pg, pg, WRAP / pg - 1, 0);
    BetweenPages(y, WRAP - pg, pg);
    Boundaries(Floor(y, pg), WRAP, pg);
  }

  /** The test of the loader in terms of numbers: loads of equal access, the second of
      which starts, in the file and in memory, on the page where the first ends or on the
      next. */
  lemma AdjacentExact(a: Phdr, b: Phdr, pg: u64)
    requires 0 < pg && WRAP % pg == 0
    requires a.offset + a.filesz + (pg - 1) < WRAP && a.vaddr + a.memsz + (pg - 1) < WRAP
    ensures Adjacent(a, b, pg) <==>
      && a.kind == 1 && b.kind == 1 && a.flags % 8 == b.flags % 8
      && Meets(a.offset + a.filesz, b.offset, pg) && Meets(a.vaddr + a.memsz, b.vaddr, pg)
  {
    EndGap(a.offset, a.filesz, b.offset, pg);
    EndGap(a.vaddr, a.memsz, b.vaddr, pg);
  }
}
