/** Which header tables the first pass of `Spawn` accepts, in terms of pages: no rule here
    mentions the loader's own comparisons. */
module ApeAccept {
  import opened ApePages
  import opened ApePhdrs
  import opened ApeValidate

  function Pow2(n: nat): nat { if n == 0 then 1 else 2 * Pow2(n - 1) }

  lemma {:induction false} TwoPowerIs(n: nat) returns (k: nat)
    requires TwoPower(n)
    ensures n == Pow2(k)
    decreases n
  {
    if n == 1 {
      k := 0;
    } else {
      k := TwoPowerIs(n / 2);
      k := k + 1;
    }
  }

  lemma {:induction false} PowIsTwoPower(k: nat)
    ensures TwoPower(Pow2(k))
  {
    if k > 0 {
      PowIsTwoPower(k - 1);
      assert Pow2(k) / 2 == Pow2(k - 1);
    }
  }

  ghost predicate PowerOfTwo(n: nat) { exists k: nat :: n == Pow2(k) }

  lemma TwoPowerExact(n: nat)
    ensures TwoPower(n) <==> PowerOfTwo(n)
  {
    if TwoPower(n) { var k := TwoPowerIs(n); }
    if k: nat :| n == Pow2(k) { PowIsTwoPower(k); }
  }

  // ----- what the comparisons mean -----

  predicate In(y: nat, a: nat, b: nat) { a <= y < b }

  /** The test for overlap is exact: two half-open ranges overlap when they share a number. */
  lemma OverlapMeans(a: u64, b: u64, c: u64, d: u64)
    ensures Overlap(a, b, c, d) <==> exists y: nat :: In(y, a, b) && In(y, c, d)
  {
    if Overlap(a, b, c, d) {
      var y: nat := if a < c then c else a;
      assert In(y, a, b) && In(y, c, d);
    }
  }

  /** A size that rounding up to a page carries past the end of the address space. */
  predicate Huge(size: u64, pg: u64) { size + (pg - 1) >= WRAP }

  /** `start + size` and its rounding neither overflow, or the size is huge. */
  predicate Bounded(start: u64, size: u64, pg: u64) {
    start + size < WRAP && (start + size + (pg - 1) < WRAP || Huge(size, pg))
  }

  lemma SumGuard(start: u64, size: u64, pg: u64)
    requires pg > 0
    ensures Add(start, size) >= start && Add(Add(start, size), pg - 1) >= start <==> Bounded(start, size, pg)
  {
    assert Add(start, size) == if start + size < WRAP then start + size else start + size - WRAP;
    var e := Add(start, size);
    assert Add(e, pg - 1) == if e + (pg - 1) < WRAP then e + (pg - 1) else e + (pg - 1) - WRAP;
  }

  /** Page `n` reaches into the segment. */
  predicate Covers(h: Phdr, n: nat, pg: u64) {
    n * pg < h.vaddr + h.memsz && h.vaddr < n * pg + pg
  }

  /** The pages that the first pass counts: all, or none of a segment of huge size. */
  predicate Counts(h: Phdr, n: nat, pg: u64) { Covers(h, n, pg) && !Huge(h.memsz, pg) }

  lemma PageMultiple(n: nat, pg: nat)
    requires pg > 0
    ensures n * pg % pg == 0 && (n * pg + pg) % pg == 0
  {
    ModUnique(n * pg, pg, n, 0);
    ModUnique(n * pg + pg, pg, n + 1, 0);
  }

  lemma CoversExact(h: Phdr, n: nat, pg: u64)
    requires pg > 0
    ensures Covers(h, n, pg) <==> Floor(h.vaddr, pg) <= n * pg < Ceil(h.vaddr + h.memsz, pg)
  {
    PageMultiple(n, pg);
    BetweenPages(h.vaddr + h.memsz, n * pg, pg);
    BetweenPages(h.vaddr, n * pg + pg, pg);
    FloorFacts(h.vaddr, pg);
    if n * pg < Floor(h.vaddr, pg) { Boundaries(n * pg, Floor(h.vaddr, pg), pg); }
  }

  lemma Bounds(h: Phdr, pg: u64)
    requires pg > 0 && Bounded(h.vaddr, h.memsz, pg)
    ensures Low(h, pg) == Floor(h.vaddr, pg)
    ensures High(h, pg) == if Huge(h.memsz, pg) then 0 else Ceil(h.vaddr + h.memsz, pg)
  {
    var e := h.vaddr + h.memsz;
    assert Add(h.vaddr, h.memsz) == e;
    if Huge(h.memsz, pg) {
      var r: u64 := e + (pg - 1) - WRAP;
      assert Add(e, pg - 1) == r && r < pg;
      ModUnique(r, pg, 0, r);
    } else {
      assert Add(e, pg - 1) == e + (pg - 1);
    }
  }

  /** The pages of a segment, as the loop computes them. */
  lemma InRange(h: Phdr, n: nat, pg: u64)
    requires pg > 0 && Bounded(h.vaddr, h.memsz, pg)
    ensures Low(h, pg) <= n * pg < High(h, pg) <==> Counts(h, n, pg)
  {
    Bounds(h, pg);
    CoversExact(h, n, pg);
  }

  predicate Within(y: nat, n: nat, pg: u64) { n * pg <= y < n * pg + pg }

  /** A byte is in the range exactly when its page is. */
  lemma ByteInRange(h: Phdr, y: nat, n: nat, pg: u64)
    requires pg > 0 && Bounded(h.vaddr, h.memsz, pg) && Within(y, n, pg)
    ensures Low(h, pg) <= y < High(h, pg) <==> Counts(h, n, pg)
  {
    InRange(h, n, pg);
    Bounds(h, pg);
    PageMultiple(n, pg);
    FloorFacts(h.vaddr, pg);
    CeilFacts(h.vaddr + h.memsz, pg);
    var lo, hi := Floor(h.vaddr, pg), Ceil(h.vaddr + h.memsz, pg);
    if n * pg < lo { Boundaries(n * pg, lo, pg); }
    if n * pg < hi { Boundaries(n * pg, hi, pg); }
  }

  lemma PageOf(y: nat, pg: u64) returns (n: nat)
    requires pg > 0
    ensures Within(y, n, pg)
  {
    n := y / pg;
    assert y == pg * (y / pg) + y % pg;
  }

  ghost predicate SharePage(h: Phdr, k: Phdr, pg: u64) {
    exists n: nat :: Counts(h, n, pg) && Counts(k, n, pg)
  }

  ghost predicate OnLoaderPage(h: Phdr, pg: u64, exeStart: u64, exeEnd: u64) {
    exists n: nat, y: nat :: Counts(h, n, pg) && Within(y, n, pg) && In(y, exeStart, exeEnd)
  }

  lemma PairOverlaps(h: Phdr, k: Phdr, pg: u64)
    requires pg > 0 && Bounded(h.vaddr, h.memsz, pg) && Bounded(k.vaddr, k.memsz, pg)
    requires Overlap(Low(h, pg), High(h, pg), Low(k, pg), High(k, pg))
    ensures SharePage(h, k, pg)
  {
    OverlapMeans(Low(h, pg), High(h, pg), Low(k, pg), High(k, pg));
    var y: nat :| In(y, Low(h, pg), High(h, pg)) && In(y, Low(k, pg), High(k, pg));
    var n := PageOf(y, pg);
    ByteInRange(h, y, n, pg);
    ByteInRange(k, y, n, pg);
  }

  lemma PairExact(h: Phdr, k: Phdr, pg: u64)
    requires pg > 0 && Bounded(h.vaddr, h.memsz, pg) && Bounded(k.vaddr, k.memsz, pg)
    ensures Overlap(Low(h, pg), High(h, pg), Low(k, pg), High(k, pg)) <==> SharePage(h, k, pg)
  {
    if Overlap(Low(h, pg), High(h, pg), Low(k, pg), High(k, pg)) {
      PairOverlaps(h, k, pg);
    } else if SharePage(h, k, pg) {
      var n: nat :| Counts(h, n, pg) && Counts(k, n, pg);
      InRange(h, n, pg);
      InRange(k, n, pg);
    }
  }

  lemma LoaderOverlaps(h: Phdr, pg: u64, exeStart: u64, exeEnd: u64)
    requires pg > 0 && Bounded(h.vaddr, h.memsz, pg) && Overlap(Low(h, pg), High(h, pg), exeStart, exeEnd)
    ensures OnLoaderPage(h, pg, exeStart, exeEnd)
  {
    OverlapMeans(Low(h, pg), High(h, pg), exeStart, exeEnd);
    var y: nat :| In(y, Low(h, pg), High(h, pg)) && In(y, exeStart, exeEnd);
    var n := PageOf(y, pg);
    ByteInRange(h, y, n, pg);
  }

  lemma LoaderExact(h: Phdr, pg: u64, exeStart: u64, exeEnd: u64)
    requires pg > 0 && Bounded(h.vaddr, h.memsz, pg)
    ensures Overlap(Low(h, pg), High(h, pg), exeStart, exeEnd) <==> OnLoaderPage(h, pg, exeStart, exeEnd)
  {
    if Overlap(Low(h, pg), High(h, pg), exeStart, exeEnd) {
      LoaderOverlaps(h, pg, exeStart, exeEnd);
    } else if OnLoaderPage(h, pg, exeStart, exeEnd) {
      var n: nat, y: nat :| Counts(h, n, pg) && Within(y, n, pg) && In(y, exeStart, exeEnd);
      ByteInRange(h, y, n, pg);
    }
  }

  // ----- the whole table -----

  /** What is asked of one load header. */
  ghost predicate Fit(h: Phdr, pg: u64, exeStart: u64, exeEnd: u64)
    requires pg > 0
  {
    && h.filesz <= h.memsz && (h.vaddr - h.offset) % pg == 0
    && Bounded(h.vaddr, h.memsz, pg) && Bounded(h.offset, h.filesz, pg)
    && !OnLoaderPage(h, pg, exeStart, exeEnd)
  }

  lemma Congruent(x: nat, y: nat, pg: nat)
    requires pg > 0
    ensures x % pg == y % pg <==> (x - y) % pg == 0
  {
    var d := x / pg - y / pg;
    assert x == pg * (x / pg) + x % pg && y == pg * (y / pg) + y % pg;
    Distribute(pg, x / pg, y / pg);
    assert x - y == pg * d + (x % pg - y % pg);
    var m := x - y;
    assert m == pg * (m / pg) + m % pg;
    Distribute(pg, m / pg, d);
    MulStep(pg, m / pg - d);
  }

  lemma FitExact(h: Phdr, pg: u64, exeStart: u64, exeEnd: u64)
    requires pg > 0
    ensures Plausible(h, pg, exeStart, exeEnd) <==> Fit(h, pg, exeStart, exeEnd)
  {
    SumGuard(h.vaddr, h.memsz, pg);
    SumGuard(h.offset, h.filesz, pg);
    Congruent(h.vaddr, h.offset, pg);
    if Bounded(h.vaddr, h.memsz, pg) { LoaderExact(h, pg, exeStart, exeEnd); }
  }

  predicate Entered(h: Phdr, entry: u64) {
    h.kind == 1 && h.flags % 2 == 1 && h.vaddr <= entry < h.vaddr + h.memsz
  }

  ghost predicate NonePair(p: seq<Phdr>, i: nat, pg: u64)
    requires i < |p|
  {
    p[i].kind == 1 ==> forall j :: i < j < |p| && p[j].kind == 1 ==> !SharePage(p[i], p[j], pg)
  }

  /** The whole of what the first pass asks: pages are a power of two, every load header
      fits, no two of them share a page, and one that may be executed holds the entry. */
  ghost predicate Loadable(p: seq<Phdr>, pg: u64, entry: u64, exeStart: u64, exeEnd: u64)
    requires pg > 0
  {
    && PowerOfTwo(pg)
    && (forall i :: 0 <= i < |p| && p[i].kind == 1 ==> Fit(p[i], pg, exeStart, exeEnd))
    && (forall i :: 0 <= i < |p| ==> NonePair(p, i, pg))
    && (exists i :: 0 <= i < |p| && Entered(p[i], entry))
  }

  lemma EntryHeld(h: Phdr, pg: u64, entry: u64)
    requires pg > 0 && h.kind == 1 && Bounded(h.vaddr, h.memsz, pg)
    ensures HoldsEntry(h, entry) <==> Entered(h, entry)
  {
  }

  lemma AcceptedLoadable(p: seq<Phdr>, pg: u64, entry: u64, exeStart: u64, exeEnd: u64)
    requires pg > 0 && Accepted(p, pg, entry, exeStart, exeEnd)
    ensures Loadable(p, pg, entry, exeStart, exeEnd)
  {
    forall i | 0 <= i < |p| && p[i].kind == 1 ensures Fit(p[i], pg, exeStart, exeEnd) {
      assert LoadOk(p, i, pg, exeStart, exeEnd);
      FitExact(p[i], pg, exeStart, exeEnd);
    }
    forall i | 0 <= i < |p| && p[i].kind == 1 ensures NonePair(p, i, pg) {
      assert LoadOk(p, i, pg, exeStart, exeEnd);
      forall j | i < j < |p| && p[j].kind == 1 ensures !SharePage(p[i], p[j], pg) {
        assert Apart(p, i, j, pg);
        PairExact(p[i], p[j], pg);
      }
    }
    TwoPowerExact(pg);
    var i :| 0 <= i < |p| && HoldsEntry(p[i], entry);
    EntryHeld(p[i], pg, entry);
  }

  lemma FitLoadOk(p: seq<Phdr>, i: nat, pg: u64, exeStart: u64, exeEnd: u64)
    requires pg > 0 && i < |p| && p[i].kind == 1 && NonePair(p, i, pg)
    requires forall j :: 0 <= j < |p| && p[j].kind == 1 ==> Fit(p[j], pg, exeStart, exeEnd)
    ensures LoadOk(p, i, pg, exeStart, exeEnd)
  {
    FitExact(p[i], pg, exeStart, exeEnd);
    forall j | i < j < |p| ensures Apart(p, i, j, pg) {
      if p[j].kind == 1 { PairExact(p[i], p[j], pg); }
    }
  }

  lemma LoadableAccepted(p: seq<Phdr>, pg: u64, entry: u64, exeStart: u64, exeEnd: u64)
    requires pg > 0 && Loadable(p, pg, entry, exeStart, exeEnd)
    ensures Accepted(p, pg, entry, exeStart, exeEnd)
  {
    TwoPowerExact(pg);
    forall i | 0 <= i < |p| ensures LoadOk(p, i, pg, exeStart, exeEnd) {
      if p[i].kind == 1 { FitLoadOk(p, i, pg, exeStart, exeEnd); }
    }
    var i :| 0 <= i < |p| && Entered(p[i], entry);
    EntryHeld(p[i], pg, entry);
  }

  /** A table is accepted exactly on that condition, whatever its numbers. */
  lemma AcceptedExact(p: seq<Phdr>, pg: u64, entry: u64, exeStart: u64, exeEnd: u64)
    requires pg > 0
    ensures Accepted(p, pg, entry, exeStart, exeEnd) <==> Loadable(p, pg, entry, exeStart, exeEnd)
  {
    if Accepted(p, pg, entry, exeStart, exeEnd) {
      AcceptedLoadable(p, pg, entry, exeStart, exeEnd);
    } else if Loadable(p, pg, entry, exeStart, exeEnd) {
      LoadableAccepted(p, pg, entry, exeStart, exeEnd);
    }
  }
}
