/** The second pass of `Spawn`: mapping the segments of an accepted table. */
module ApeSpawn {
  import opened Bytes
  import opened ApePages
  import opened ApePhdrs
  import opened ApeValidate

  const PROT_READ := 1
  const PROT_WRITE := 2
  const PROT_EXEC := 4

  /** A byte of memory: unmapped, or mapped with a protection.  A mapped byte has no
      value when it lies in a page wholly past the end of the file. */
  datatype Cell = Unmapped | Mapped(prot: nat, val: Backing)

  datatype Backing = Void | Holds(b: byte)

  type Cells = nat -> Cell

  predicate Readable(c: Cell) { c.Mapped? && c.prot % 2 == 1 }

  predicate Writable(c: Cell) { c.Mapped? && c.prot / 2 % 2 == 1 }

  predicate Runnable(c: Cell) { c.Mapped? && c.prot / 4 % 2 == 1 }

  /** What a private mapping of the file shows at offset `o`. */
  function FileCell(file: seq<byte>, o: nat, pg: nat): Backing
    requires pg > 0
  {
    if o < |file| then Holds(file[o]) else if o < Ceil(|file|, pg) then Holds(0) else Void
  }

  function SegProt(h: Phdr): nat {
    (if h.flags / 4 % 2 == 1 then PROT_READ else 0)
    + (if h.flags / 2 % 2 == 1 then PROT_WRITE else 0)
    + (if h.flags % 2 == 1 then PROT_EXEC else 0)
  }

  datatype Outcome = Loaded | Exited | Faulted

  /** The address space as the system calls see it.  The kernel maps whole pages and
      only below `limit`; it may refuse any call, which `refused` records. */
  class Memory {
    var cell: Cells
    ghost var refused: bool
    const pg: nat
    const limit: nat
    const file: seq<byte>

    constructor (pg: nat, limit: nat, file: seq<byte>, cell: Cells)
      ensures this.pg == pg && this.limit == limit && this.file == file && this.cell == cell && !refused
    {
      this.pg, this.limit, this.file, this.cell, this.refused := pg, limit, file, cell, false;
    }

    /** A fixed private mapping of the file at `off`, or of zeroes. */
    method Mmap(addr: nat, size: nat, prot: nat, anonymous: bool, off: nat) returns (rc: int)
      requires pg > 0 && addr % pg == 0 && (anonymous || off % pg == 0)
      modifies this
      ensures rc < 0 ==> cell == old(cell) && refused
      ensures rc >= 0 ==> size > 0 && addr + size <= limit
      ensures rc >= 0 ==> forall x: nat :: addr <= x < Ceil(addr + size, pg) ==>
        cell(x) == Mapped(prot, if anonymous then Holds(0) else FileCell(file, off + (x - addr), pg))
      ensures rc >= 0 ==> forall x: nat :: !(addr <= x < Ceil(addr + size, pg)) ==> cell(x) == old(cell)(x)
    {
      if size == 0 || addr + size > limit {
        refused := true;
        return -1;
      }
      if * {
        refused := true;
        return -1;
      }
      var was, end, f, p := cell, Ceil(addr + size, pg), file, pg;
      cell := (x: nat) =>
        if addr <= x < end then Mapped(prot, if anonymous || p == 0 then Holds(0) else FileCell(f, off + (x - addr), p))
        else was(x);
      rc := addr;
    }

    /** An inaccessible mapping at an address of the kernel's choice, which was free. */
    method Reserve(size: nat, at: nat) returns (rc: int)
      requires pg > 0
      modifies this
      ensures rc < 0 ==> cell == old(cell) && refused
      ensures rc >= 0 ==> rc == at && size > 0 && at + size <= limit
      ensures rc >= 0 ==> forall x: nat :: at <= x < Ceil(at + size, pg) ==> old(cell)(x).Unmapped?
      ensures rc >= 0 ==> forall x: nat :: !(at <= x < Ceil(at + size, pg)) ==> cell(x) == old(cell)(x)
    {
      if size == 0 || at + size > limit {
        refused := true;
        return -1;
      }
      var was, end := cell, Ceil(at + size, pg);
      CeilFacts(at + size, pg);
      var x := at;
      while x < end
        invariant at <= x <= end && cell == was
        invariant forall k: nat :: at <= k < x ==> was(k).Unmapped?
      {
        if was(x).Mapped? {
          refused := true;
          return -1;
        }
        x := x + 1;
      }
      cell := (k: nat) => if at <= k < end then Mapped(0, Holds(0)) else was(k);
      rc := at;
    }

    method Mprotect(addr: nat, size: nat, prot: nat) returns (rc: int)
      requires pg > 0 && addr % pg == 0
      modifies this
      ensures rc < 0 ==> cell == old(cell) && refused
      ensures rc >= 0 ==> forall x: nat :: addr <= x < Ceil(addr + size, pg) ==>
        cell(x) == if old(cell)(x).Mapped? then old(cell)(x).(prot := prot) else Unmapped
      ensures rc >= 0 ==> forall x: nat :: !(addr <= x < Ceil(addr + size, pg)) ==> cell(x) == old(cell)(x)
    {
      if * {
        refused := true;
        return -1;
      }
      var was, end := cell, Ceil(addr + size, pg);
      cell := (x: nat) =>
        if addr <= x < end && was(x).Mapped? then was(x).(prot := prot) else was(x);
      rc := 0;
    }

    /** Storing zeroes; the process dies on a byte that is not mapped, not writable or
        past the end of the file. */
    method Bzero(a: nat, n: nat) returns (alive: bool)
      modifies this
      ensures alive <==> forall x: nat :: a <= x < a + n ==> Writable(old(cell)(x)) && old(cell)(x).val.Holds?
      ensures alive ==> forall x: nat :: a <= x < a + n ==> cell(x) == old(cell)(x).(val := Holds(0))
      ensures alive ==> forall x: nat :: !(a <= x < a + n) ==> cell(x) == old(cell)(x)
    {
      var i := 0;
      var was := cell;
      while i < n
        invariant i <= n && cell == was
        invariant forall x: nat :: a <= x < a + i ==> Writable(was(x)) && was(x).val.Holds?
      {
        if !Writable(was(a + i)) || was(a + i).val.Void? {
          return false;
        }
        i := i + 1;
      }
      cell := (x: nat) => if a <= x < a + n && was(x).Mapped? then was(x).(val := Holds(0)) else was(x);
      alive := true;
    }
  }

  // ----- what a loaded segment looks like -----

  /** Every byte of the segment has its file content or zero, and every page of it the
      segment's protection. */
  ghost predicate Image(cell: Cells, h: Phdr, base: nat, file: seq<byte>, pg: nat)
    requires pg > 0
  {
    var lo := base + h.vaddr;
    && (forall y: nat :: lo <= y < lo + h.filesz ==>
          cell(y) == Mapped(SegProt(h), FileCell(file, h.offset + (y - lo), pg)))
    && (forall y: nat :: lo + h.filesz <= y < lo + h.memsz ==> cell(y) == Mapped(SegProt(h), Holds(0)))
    && (forall y: nat :: First(h, base, pg) <= y < Last(h, base, pg) ==> cell(y).Mapped? && cell(y).prot == SegProt(h))
  }

  // ----- what a program can rely on -----

  predicate SamePage(x: nat, y: nat, pg: nat)
    requires pg > 0
  {
    x / pg == y / pg
  }

  /** The access that `p_flags` asks for. */
  predicate Accessible(c: Cell, flags: nat) {
    && (Readable(c) <==> flags / 4 % 2 == 1)
    && (Writable(c) <==> flags / 2 % 2 == 1)
    && (Runnable(c) <==> flags % 2 == 1)
  }

  /** Every page that holds a byte of the segment is accessible as its flags say; its bytes
      are those of the file, then zeroes. */
  ghost predicate Served(cell: Cells, h: Phdr, base: nat, file: seq<byte>, pg: nat)
    requires pg > 0
  {
    var lo := base + h.vaddr;
    && (forall x: nat, y: nat :: lo <= x < lo + h.memsz && SamePage(x, y, pg) ==>
          cell(y).Mapped? && Accessible(cell(y), h.flags))
    && (forall y: nat :: lo <= y < lo + h.memsz ==> cell(y).Mapped? && Filled(cell(y).val, h, y - lo, file))
  }

  /** Byte `k` of a segment. */
  predicate Filled(b: Backing, h: Phdr, k: nat, file: seq<byte>) {
    if k >= h.filesz then b == Holds(0)
    else if h.offset + k < |file| then b == Holds(file[h.offset + k])
    else b == Holds(0) || b == Void
  }

  lemma FlagsServed(h: Phdr, v: Backing)
    ensures Accessible(Mapped(SegProt(h), v), h.flags)
  {
  }

  /** Bytes of one page have one floor. */
  lemma PageFloor(x: nat, y: nat, pg: nat)
    requires pg > 0 && SamePage(x, y, pg)
    ensures Floor(x, pg) <= y < Floor(x, pg) + pg
  {
    assert x == pg * (x / pg) + x % pg && y == pg * (y / pg) + y % pg;
  }

  lemma PageBetween(lo: nat, hi: nat, pg: nat, x: nat, y: nat)
    requires pg > 0 && lo <= x < hi && SamePage(x, y, pg)
    ensures Floor(lo, pg) <= y < Ceil(hi, pg)
  {
    PageFloor(x, y, pg);
    CeilMono(lo, x, pg);
    CeilFacts(hi, pg);
    FloorFacts(x, pg);
    Boundaries(Floor(x, pg), Ceil(hi, pg), pg);
  }

  lemma PageInside(h: Phdr, base: nat, pg: nat, x: nat, y: nat)
    requires pg > 0 && base % pg == 0 && base + h.vaddr <= x < base + h.vaddr + h.memsz && SamePage(x, y, pg)
    ensures First(h, base, pg) <= y < Last(h, base, pg)
  {
    ShiftMod(base, h.vaddr, pg);
    ShiftMod(base, h.vaddr + h.memsz, pg);
    PageBetween(base + h.vaddr, base + (h.vaddr + h.memsz), pg, x, y);
  }

  lemma ImageServes(cell: Cells, h: Phdr, base: nat, file: seq<byte>, pg: nat)
    requires pg > 0 && base % pg == 0 && Image(cell, h, base, file, pg)
    ensures Served(cell, h, base, file, pg)
  {
    var lo := base + h.vaddr;
    forall x: nat, y: nat | lo <= x < lo + h.memsz && SamePage(x, y, pg)
      ensures cell(y).Mapped? && Accessible(cell(y), h.flags)
    {
      PageInside(h, base, pg, x, y);
      FlagsServed(h, cell(y).val);
    }
  }

  ghost predicate AllServed(cell: Cells, p: seq<Phdr>, base: nat, file: seq<byte>, pg: nat)
    requires pg > 0
  {
    forall k :: 0 <= k < |p| && p[k].kind == 1 ==> Served(cell, p[k], base, file, pg)
  }

  lemma ImagesServe(cell: Cells, p: seq<Phdr>, base: nat, file: seq<byte>, pg: nat)
    requires pg > 0 && base % pg == 0 && Images(cell, p, base, file, pg, |p|)
    ensures AllServed(cell, p, base, file, pg)
  {
    forall k | 0 <= k < |p| && p[k].kind == 1 ensures Served(cell, p[k], base, file, pg) {
      ImageServes(cell, p[k], base, file, pg);
    }
  }

  ghost function First(h: Phdr, base: nat, pg: nat): nat
    requires pg > 0
  {
    base + Floor(h.vaddr, pg)
  }

  ghost function Last(h: Phdr, base: nat, pg: nat): nat
    requires pg > 0
  {
    base + Ceil(h.vaddr + h.memsz, pg)
  }

  /** The zero fill starts in a page that lies wholly past the end of the file. */
  ghost predicate BadTail(h: Phdr, file: seq<byte>, pg: nat)
    requires pg > 0
  {
    && 0 < h.filesz < h.memsz && (h.vaddr + h.filesz) % pg != 0
    && Floor(h.offset + h.filesz, pg) >= |file|
  }

  /** What the loader knows about a header it is about to map. */
  ghost predicate Mappable(h: Phdr, base: nat, pg: nat, limit: nat)
    requires pg > 0
  {
    && h.filesz <= h.memsz && h.vaddr % pg == h.offset % pg
    && base % pg == 0 && base + h.vaddr + h.memsz < WRAP && h.offset + h.filesz < WRAP
    && 2 * limit <= WRAP && 2 * pg <= WRAP
  }

  /** Nothing outside the segment's pages changes. */
  ghost predicate Framed(was: Cells, now: Cells, h: Phdr, base: nat, pg: nat)
    requires pg > 0
  {
    forall y: nat :: !(First(h, base, pg) <= y < Last(h, base, pg)) ==> now(y) == was(y)
  }

  method LoadBss(mem: Memory, h: Phdr, base: u64) returns (o: Outcome)
    requires 0 < mem.pg < WRAP && Mappable(h, base, mem.pg, mem.limit) && h.filesz == 0
    modifies mem
    ensures o == Exited ==> mem.refused
    ensures o != Faulted
    ensures o == Loaded ==> base + h.vaddr + h.memsz <= mem.limit
    ensures o == Loaded ==> Image(mem.cell, h, base, mem.file, mem.pg)
    ensures o == Loaded ==> Framed(old(mem.cell), mem.cell, h, base, mem.pg)
  {
    var pg: u64 := mem.pg;
    var addr := Add(base, PageDown(h.vaddr, pg));
    var size := Add(h.vaddr % pg, h.memsz);
    ExactStart(h, base, pg, mem.limit);
    ShiftMod(base, h.vaddr + h.memsz, pg);
    var rc := mem.Mmap(addr, size, SegProt(h), true, 0);
    if rc < 0 {
      return Exited;
    }
    BssImage(mem.cell, h, base, mem.file, pg);
    return Loaded;
  }

  lemma BssImage(cell: Cells, h: Phdr, base: nat, file: seq<byte>, pg: nat)
    requires pg > 0 && h.filesz == 0
    requires forall y: nat :: First(h, base, pg) <= y < Last(h, base, pg) ==> cell(y) == Mapped(SegProt(h), Holds(0))
    ensures Image(cell, h, base, file, pg)
  {
    FloorFacts(h.vaddr, pg);
    CeilFacts(h.vaddr + h.memsz, pg);
  }

  // ----- segments with file content -----

  /** End of the last page that holds file content. */
  ghost function FileEnd(h: Phdr, base: nat, pg: nat): nat
    requires pg > 0
  {
    base + Ceil(h.vaddr + h.filesz, pg)
  }

  /** End of the zero fill within that page. */
  ghost function WipeEnd(h: Phdr, base: nat, pg: nat): nat
    requires pg > 0
  {
    var e := base + h.vaddr + h.memsz;
    if FileEnd(h, base, pg) < e then FileEnd(h, base, pg) else e
  }

  /** The file pages are mapped, with zeroes from the end of the content up to `zero`. */
  ghost predicate FilePages(cell: Cells, h: Phdr, base: nat, file: seq<byte>, pg: nat, prot: nat, zero: nat)
    requires pg > 0
  {
    forall y: nat :: First(h, base, pg) <= y < FileEnd(h, base, pg) ==>
      cell(y) == Mapped(prot, if base + h.vaddr + h.filesz <= y < zero then Holds(0)
                              else FileCell(file, Floor(h.offset, pg) + (y - First(h, base, pg)), pg))
  }

  ghost predicate FramedFile(was: Cells, now: Cells, h: Phdr, base: nat, pg: nat)
    requires pg > 0
  {
    forall y: nat :: !(First(h, base, pg) <= y < FileEnd(h, base, pg)) ==> now(y) == was(y)
  }

  method MapFile(mem: Memory, h: Phdr, base: u64, addr: u64, size: u64, prot: nat) returns (ok: bool)
    requires 0 < mem.pg < WRAP && Mappable(h, base, mem.pg, mem.limit)
    requires addr == First(h, base, mem.pg) && addr % mem.pg == 0 && addr + size == base + h.vaddr + h.filesz
    modifies mem
    ensures !ok ==> mem.refused
    ensures ok ==> base + h.vaddr + h.filesz <= mem.limit && FramedFile(old(mem.cell), mem.cell, h, base, mem.pg)
    ensures ok ==> FilePages(mem.cell, h, base, mem.file, mem.pg, prot, base + h.vaddr + h.filesz)
  {
    ShiftMod(base, h.vaddr + h.filesz, mem.pg);
    FloorFacts(h.offset, mem.pg);
    var rc := mem.Mmap(addr, size, prot, false, PageDown(h.offset, mem.pg));
    ok := rc >= 0;
  }

  /** Where the zero fill falls in the file. */
  lemma TailOffset(h: Phdr, base: nat, pg: nat, file: seq<byte>, y: nat)
    requires pg > 0 && Mappable(h, base, pg, 0) && 0 < h.filesz < h.memsz && (h.vaddr + h.filesz) % pg != 0
    requires base + h.vaddr + h.filesz <= y < FileEnd(h, base, pg)
    ensures var o := Floor(h.offset, pg) + (y - First(h, base, pg));
      FileCell(file, o, pg).Holds? <==> !BadTail(h, file, pg)
  {
    var o := Floor(h.offset, pg) + (y - First(h, base, pg));
    var d := Floor(h.offset + h.filesz, pg);
    FloorFacts(h.vaddr, pg);
    FloorFacts(h.offset, pg);
    FloorFacts(h.offset + h.filesz, pg);
    assert o == h.offset + (y - base - h.vaddr);
    SameRemainder(h.vaddr, h.offset, h.filesz, pg);
    CeilOfPart(h.vaddr + h.filesz, pg);
    assert o < d + pg;
    CeilFacts(|file|, pg);
    BetweenPages(|file|, d, pg);
    if d < Ceil(|file|, pg) { Boundaries(d, Ceil(|file|, pg), pg); }
  }

  lemma SameRemainder(x: nat, y: nat, n: nat, pg: nat)
    requires pg > 0 && x % pg == y % pg
    ensures (x + n) % pg == (y + n) % pg
  {
    FloorFacts(x, pg);
    FloorFacts(y, pg);
    ShiftRem(Floor(x, pg), x % pg + n, pg);
    ShiftRem(Floor(y, pg), y % pg + n, pg);
  }

  lemma CeilOfPart(x: nat, pg: nat)
    requires pg > 0 && x % pg != 0
    ensures Ceil(x, pg) == Floor(x, pg) + pg
  {
    FloorFacts(x, pg);
    CeilFacts(x, pg);
    Boundaries(Floor(x, pg), Ceil(x, pg), pg);
    if Floor(x, pg) + pg < Ceil(x, pg) {
      ShiftRem(pg, Floor(x, pg), pg);
      Boundaries(Floor(x, pg) + pg, Ceil(x, pg), pg);
    }
  }

  /** Clears the rest of the last file page. */
  method WipeTail(mem: Memory, h: Phdr, base: u64, prot: nat, at: u64, wipe: u64) returns (alive: bool)
    requires 0 < mem.pg < WRAP && Mappable(h, base, mem.pg, mem.limit) && h.filesz > 0
    requires at == base + h.vaddr + h.filesz && at + wipe == WipeEnd(h, base, mem.pg) && prot / 2 % 2 == 1 && wipe > 0
    requires FilePages(mem.cell, h, base, mem.file, mem.pg, prot, at)
    modifies mem
    ensures alive <==> !BadTail(h, mem.file, mem.pg)
    ensures alive ==> FilePages(mem.cell, h, base, mem.file, mem.pg, prot, at + wipe)
    ensures alive ==> FramedFile(old(mem.cell), mem.cell, h, base, mem.pg)
  {
    ghost var pg := mem.pg;
    FloorFacts(h.vaddr, pg);
    CeilFacts(h.vaddr + h.filesz, pg);
    assert (h.vaddr + h.filesz) % pg != 0 by {
      if (h.vaddr + h.filesz) % pg == 0 { BetweenPages(h.vaddr + h.filesz, h.vaddr + h.filesz, pg); }
    }
    forall y: nat | at <= y < at + wipe
      ensures mem.cell(y).Mapped? && (mem.cell(y).val.Holds? <==> !BadTail(h, mem.file, pg)) && Writable(mem.cell(y))
    {
      TailOffset(h, base, pg, mem.file, y);
    }
    assert at <= at < at + wipe;
    assert mem.cell(at).Mapped?;
    alive := mem.Bzero(at, wipe);
  }

  /** Everything up to the end of the last file page, in the loader's own arithmetic. */
  method LoadFilePages(mem: Memory, h: Phdr, base: u64) returns (o: Outcome)
    requires 0 < mem.pg < WRAP && Mappable(h, base, mem.pg, mem.limit) && h.filesz > 0
    modifies mem
    ensures o == Exited ==> mem.refused
    ensures o == Faulted ==> BadTail(h, mem.file, mem.pg)
    ensures o == Loaded ==> !BadTail(h, mem.file, mem.pg) && base + h.vaddr + h.filesz <= mem.limit
    ensures o == Loaded ==> FilePages(mem.cell, h, base, mem.file, mem.pg, SegProt(h), WipeEnd(h, base, mem.pg))
    ensures o == Loaded ==> FramedFile(old(mem.cell), mem.cell, h, base, mem.pg)
  {
    var pg: u64 := mem.pg;
    var prot := SegProt(h);
    var prot1, prot2 := prot, prot;
    var a := Add(h.vaddr, h.filesz);
    var b := PageUp(a, pg);
    var c := Add(h.vaddr, h.memsz);
    var wipe := Lesser(Sub(b, a), Sub(c, a));
    if wipe > 0 && prot1 / 2 % 2 == 0 {
      prot1 := PROT_READ + PROT_WRITE;
    }
    var addr := Add(base, PageDown(h.vaddr, pg));
    var size := Add(h.vaddr % pg, h.filesz);
    ExactStart(h, base, pg, mem.limit);
    var ok := MapFile(mem, h, base, addr, size, prot1);
    if !ok {
      return Exited;
    }
    ExactEnd(h, base, pg, mem.limit);
    o := FinishFilePages(mem, h, base, addr, size, prot1, prot2, Add(base, a), wipe);
  }

  /** The clearing and the final protection. */
  method FinishFilePages(mem: Memory, h: Phdr, base: u64, addr: u64, size: u64, prot1: nat, prot2: nat, at: u64,
                         wipe: u64)
    returns (o: Outcome)
    requires 0 < mem.pg < WRAP && Mappable(h, base, mem.pg, mem.limit) && h.filesz > 0
    requires addr == First(h, base, mem.pg) && addr % mem.pg == 0 && addr + size == base + h.vaddr + h.filesz
    requires at == base + h.vaddr + h.filesz && at + wipe == WipeEnd(h, base, mem.pg)
    requires prot2 == SegProt(h) && (if wipe > 0 && prot2 / 2 % 2 == 0 then prot1 == 3 else prot1 == prot2)
    requires FilePages(mem.cell, h, base, mem.file, mem.pg, prot1, at)
    modifies mem
    ensures o == Exited ==> mem.refused
    ensures o == Faulted ==> BadTail(h, mem.file, mem.pg)
    ensures o == Loaded ==> !BadTail(h, mem.file, mem.pg)
    ensures o == Loaded ==> FilePages(mem.cell, h, base, mem.file, mem.pg, SegProt(h), WipeEnd(h, base, mem.pg))
    ensures o == Loaded ==> FramedFile(old(mem.cell), mem.cell, h, base, mem.pg)
  {
    var alive := WipeIfAny(mem, h, base, prot1, at, wipe);
    if !alive {
      return Faulted;
    }
    ghost var mid := mem.cell;
    var ok := Reprotect(mem, h, base, addr, size, prot1, prot2, WipeEnd(h, base, mem.pg));
    if !ok {
      return Exited;
    }
    FramedFileThen(old(mem.cell), mid, mem.cell, h, base, mem.pg);
    return Loaded;
  }

  method WipeIfAny(mem: Memory, h: Phdr, base: u64, prot: nat, at: u64, wipe: u64) returns (alive: bool)
    requires 0 < mem.pg < WRAP && Mappable(h, base, mem.pg, mem.limit) && h.filesz > 0
    requires at == base + h.vaddr + h.filesz && at + wipe == WipeEnd(h, base, mem.pg)
    requires wipe > 0 ==> prot / 2 % 2 == 1
    requires FilePages(mem.cell, h, base, mem.file, mem.pg, prot, at)
    modifies mem
    ensures alive <==> !BadTail(h, mem.file, mem.pg)
    ensures alive ==> FilePages(mem.cell, h, base, mem.file, mem.pg, prot, WipeEnd(h, base, mem.pg))
    ensures alive ==> FramedFile(old(mem.cell), mem.cell, h, base, mem.pg)
  {
    if wipe > 0 {
      alive := WipeTail(mem, h, base, prot, at, wipe);
    } else {
      NoTail(h, mem.file, mem.pg);
      alive := true;
    }
  }

  method Reprotect(mem: Memory, h: Phdr, base: u64, addr: u64, size: u64, prot1: nat, prot2: nat, ghost zero: nat)
    returns (ok: bool)
    requires 0 < mem.pg < WRAP && Mappable(h, base, mem.pg, mem.limit)
    requires addr == First(h, base, mem.pg) && addr % mem.pg == 0 && addr + size == base + h.vaddr + h.filesz
    requires FilePages(mem.cell, h, base, mem.file, mem.pg, prot1, zero)
    modifies mem
    ensures !ok ==> mem.refused
    ensures ok ==> FilePages(mem.cell, h, base, mem.file, mem.pg, prot2, zero)
    ensures ok ==> FramedFile(old(mem.cell), mem.cell, h, base, mem.pg)
  {
    ok := true;
    if prot2 != prot1 {
      ShiftMod(base, h.vaddr + h.filesz, mem.pg);
      var rc := mem.Mprotect(addr, size, prot2);
      ok := rc >= 0;
    }
  }

  lemma FramedFileThen(was: Cells, mid: Cells, now: Cells, h: Phdr, base: nat, pg: nat)
    requires pg > 0 && FramedFile(was, mid, h, base, pg) && FramedFile(mid, now, h, base, pg)
    ensures FramedFile(was, now, h, base, pg)
  {
  }

  /** No sum in front of the mapping wraps. */
  lemma ExactStart(h: Phdr, base: u64, pg: u64, limit: nat)
    requires pg > 0 && Mappable(h, base, pg, limit)
    ensures Add(h.vaddr, h.filesz) == h.vaddr + h.filesz && Add(h.vaddr, h.memsz) == h.vaddr + h.memsz
    ensures Add(base, PageDown(h.vaddr, pg)) == First(h, base, pg) && First(h, base, pg) % pg == 0
    ensures First(h, base, pg) + Add(h.vaddr % pg, h.filesz) == base + h.vaddr + h.filesz
    ensures First(h, base, pg) + Add(h.vaddr % pg, h.memsz) == base + h.vaddr + h.memsz
  {
    FloorFacts(h.vaddr, pg);
    ShiftRem(base, Floor(h.vaddr, pg), pg);
  }

  /** Nor, once the kernel has accepted it, does any sum behind it. */
  lemma ExactEnd(h: Phdr, base: u64, pg: u64, limit: nat)
    requires pg > 0 && Mappable(h, base, pg, limit) && base + h.vaddr + h.filesz <= limit
    ensures var a, b := Add(h.vaddr, h.filesz), PageUp(Add(h.vaddr, h.filesz), pg);
      && b == Ceil(h.vaddr + h.filesz, pg) && Add(base, a) == base + h.vaddr + h.filesz
      && Add(base, b) == FileEnd(h, base, pg)
      && base + h.vaddr + h.filesz + Lesser(Sub(b, a), Sub(Add(h.vaddr, h.memsz), a)) == WipeEnd(h, base, pg)
  {
    CeilFacts(h.vaddr + h.filesz, pg);
    NoWrap(h.vaddr, h.filesz);
    NoWrap(h.vaddr, h.memsz);
    NoWrap(h.vaddr + h.filesz, pg - 1);
    var a, b := h.vaddr + h.filesz, Ceil(h.vaddr + h.filesz, pg);
    NoWrap(base, a);
    NoWrap(base, b);
    NoBorrow(b, a);
    NoBorrow(h.vaddr + h.memsz, a);
  }

  lemma NoWrap(x: u64, y: u64)
    requires x + y < WRAP
    ensures Add(x, y) == x + y
  {
  }

  lemma NoBorrow(x: u64, y: u64)
    requires y <= x
    ensures Sub(x, y) == x - y
  {
  }

  lemma NoTail(h: Phdr, file: seq<byte>, pg: nat)
    requires pg > 0 && (Ceil(h.vaddr + h.filesz, pg) == h.vaddr + h.filesz || h.filesz == h.memsz)
    ensures !BadTail(h, file, pg)
  {
    CeilFacts(h.vaddr + h.filesz, pg);
  }

  /** File pages, followed by pages of zeroes up to the end of the segment. */
  ghost predicate ZeroPages(cell: Cells, h: Phdr, base: nat, pg: nat)
    requires pg > 0
  {
    forall y: nat :: FileEnd(h, base, pg) <= y < Last(h, base, pg) ==> cell(y) == Mapped(SegProt(h), Holds(0))
  }

  lemma PagesMakeImage(cell: Cells, h: Phdr, base: nat, file: seq<byte>, pg: nat, limit: nat)
    requires pg > 0 && Mappable(h, base, pg, limit) && h.filesz > 0
    requires FilePages(cell, h, base, file, pg, SegProt(h), WipeEnd(h, base, pg)) && ZeroPages(cell, h, base, pg)
    ensures Image(cell, h, base, file, pg)
  {
    var lo := base + h.vaddr;
    FloorFacts(h.vaddr, pg);
    CeilFacts(h.vaddr + h.memsz, pg);
    forall y: nat | First(h, base, pg) <= y < Last(h, base, pg)
      ensures cell(y).Mapped? && cell(y).prot == SegProt(h)
      ensures lo <= y < lo + h.filesz ==> cell(y).val == FileCell(file, h.offset + (y - lo), pg)
      ensures lo + h.filesz <= y < lo + h.memsz ==> cell(y).val == Holds(0)
    {
      PageCell(cell, h, base, file, pg, limit, y);
    }
  }

  lemma PageCell(cell: Cells, h: Phdr, base: nat, file: seq<byte>, pg: nat, limit: nat, y: nat)
    requires pg > 0 && Mappable(h, base, pg, limit) && h.filesz > 0
    requires FilePages(cell, h, base, file, pg, SegProt(h), WipeEnd(h, base, pg)) && ZeroPages(cell, h, base, pg)
    requires First(h, base, pg) <= y < Last(h, base, pg)
    ensures var lo := base + h.vaddr;
      && cell(y).Mapped? && cell(y).prot == SegProt(h)
      && (lo <= y < lo + h.filesz ==> cell(y).val == FileCell(file, h.offset + (y - lo), pg))
      && (lo + h.filesz <= y < lo + h.memsz ==> cell(y).val == Holds(0))
  {
    FloorFacts(h.vaddr, pg);
    FloorFacts(h.offset, pg);
    CeilFacts(h.vaddr + h.filesz, pg);
    if y < FileEnd(h, base, pg) {
      assert Floor(h.offset, pg) + (y - First(h, base, pg)) == h.offset + (y - base - h.vaddr);
    }
  }

  lemma LastPage(h: Phdr, base: nat, pg: nat)
    requires pg > 0 && h.filesz <= h.memsz && base % pg == 0
    ensures FileEnd(h, base, pg) <= Last(h, base, pg) && FileEnd(h, base, pg) % pg == 0
    ensures base + h.vaddr + h.memsz <= FileEnd(h, base, pg) ==> Last(h, base, pg) == FileEnd(h, base, pg)
  {
    SameCeil(h.vaddr + h.filesz, h.vaddr + h.memsz, pg);
    CeilFacts(h.vaddr + h.filesz, pg);
    ShiftRem(base, Ceil(h.vaddr + h.filesz, pg), pg);
  }

  lemma SameCeil(x: nat, y: nat, pg: nat)
    requires pg > 0 && x <= y
    ensures Ceil(x, pg) <= Ceil(y, pg) && (y <= Ceil(x, pg) ==> Ceil(y, pg) == Ceil(x, pg))
  {
    CeilMono(x, y, pg);
    CeilFacts(x, pg);
    BetweenPages(y, Ceil(x, pg), pg);
  }

  method LoadFromFile(mem: Memory, h: Phdr, base: u64) returns (o: Outcome)
    requires 0 < mem.pg < WRAP && Mappable(h, base, mem.pg, mem.limit) && h.filesz > 0 && mem.limit % mem.pg == 0
    modifies mem
    ensures o == Exited ==> mem.refused
    ensures o == Faulted ==> BadTail(h, mem.file, mem.pg)
    ensures o == Loaded ==> !BadTail(h, mem.file, mem.pg) && base + h.vaddr + h.memsz <= mem.limit
    ensures o == Loaded ==> Image(mem.cell, h, base, mem.file, mem.pg)
    ensures o == Loaded ==> Framed(old(mem.cell), mem.cell, h, base, mem.pg)
  {
    var pg: u64 := mem.pg;
    o := LoadFilePages(mem, h, base);
    if o != Loaded {
      return;
    }
    ExactStart(h, base, pg, mem.limit);
    ExactEnd(h, base, pg, mem.limit);
    var b, c := PageUp(Add(h.vaddr, h.filesz), pg), Add(h.vaddr, h.memsz);
    o := AddBss(mem, h, base, b, c, old(mem.cell));
  }

  /** The pages of zeroes behind the file pages, if any. */
  method AddBss(mem: Memory, h: Phdr, base: u64, b: u64, c: u64, ghost was: Cells) returns (o: Outcome)
    requires 0 < mem.pg < WRAP && Mappable(h, base, mem.pg, mem.limit) && h.filesz > 0 && mem.limit % mem.pg == 0
    requires b == Ceil(h.vaddr + h.filesz, mem.pg) && Add(base, b) == base + b && c == h.vaddr + h.memsz
    requires base + h.vaddr + h.filesz <= mem.limit && FramedFile(was, mem.cell, h, base, mem.pg)
    requires FilePages(mem.cell, h, base, mem.file, mem.pg, SegProt(h), WipeEnd(h, base, mem.pg))
    modifies mem
    ensures o != Faulted && (o == Exited ==> mem.refused)
    ensures o == Loaded ==> base + h.vaddr + h.memsz <= mem.limit
    ensures o == Loaded ==> Image(mem.cell, h, base, mem.file, mem.pg) && Framed(was, mem.cell, h, base, mem.pg)
  {
    ghost var pg := mem.pg;
    LastPage(h, base, pg);
    if c > b {
      NoBorrow(c, b);
      var ok := ExtraBss(mem, h, base, Add(base, b), Sub(c, b));
      if !ok {
        return Exited;
      }
    } else {
      InLimit(h, base, pg, mem.limit);
    }
    PagesMakeImage(mem.cell, h, base, mem.file, pg, mem.limit);
    o := Loaded;
  }

  /** The kernel's limit is a page boundary, so the last file page lies below it. */
  lemma InLimit(h: Phdr, base: nat, pg: nat, limit: nat)
    requires pg > 0 && base % pg == 0 && limit % pg == 0 && base + h.vaddr + h.filesz <= limit
    ensures FileEnd(h, base, pg) <= limit
  {
    ShiftMod(base, h.vaddr + h.filesz, pg);
    BetweenPages(base + h.vaddr + h.filesz, limit, pg);
  }

  method ExtraBss(mem: Memory, h: Phdr, base: u64, addr: u64, size: u64) returns (ok: bool)
    requires 0 < mem.pg < WRAP && Mappable(h, base, mem.pg, mem.limit) && h.filesz > 0
    requires addr == FileEnd(h, base, mem.pg) && addr % mem.pg == 0 && addr + size == base + h.vaddr + h.memsz
    requires FilePages(mem.cell, h, base, mem.file, mem.pg, SegProt(h), WipeEnd(h, base, mem.pg))
    modifies mem
    ensures !ok ==> mem.refused
    ensures ok ==> base + h.vaddr + h.memsz <= mem.limit && ZeroPages(mem.cell, h, base, mem.pg)
    ensures ok ==> FilePages(mem.cell, h, base, mem.file, mem.pg, SegProt(h), WipeEnd(h, base, mem.pg))
    ensures ok ==> forall y: nat :: !(addr <= y < Last(h, base, mem.pg)) ==> mem.cell(y) == old(mem.cell)(y)
  {
    ShiftMod(base, h.vaddr + h.memsz, mem.pg);
    var rc := mem.Mmap(addr, size, SegProt(h), true, 0);
    ok := rc >= 0;
  }

  method LoadSegment(mem: Memory, h: Phdr, base: u64) returns (o: Outcome)
    requires 0 < mem.pg < WRAP && Mappable(h, base, mem.pg, mem.limit) && mem.limit % mem.pg == 0
    modifies mem
    ensures o == Exited ==> mem.refused
    ensures o == Faulted ==> BadTail(h, mem.file, mem.pg)
    ensures o == Loaded ==> !BadTail(h, mem.file, mem.pg) && base + h.vaddr + h.memsz <= mem.limit
    ensures o == Loaded ==> Image(mem.cell, h, base, mem.file, mem.pg)
    ensures o == Loaded ==> Framed(old(mem.cell), mem.cell, h, base, mem.pg)
  {
    if h.filesz > 0 {
      o := LoadFromFile(mem, h, base);
    } else {
      o := LoadBss(mem, h, base);
    }
  }

  // ----- the whole table -----

  /** A segment's image depends on its own pages only. */
  lemma ImageKept(was: Cells, now: Cells, g: Phdr, h: Phdr, base: nat, file: seq<byte>, pg: nat)
    requires pg > 0 && Image(was, g, base, file, pg) && Framed(was, now, h, base, pg) && g.filesz <= g.memsz
    requires PagesApart(g, h, base, pg)
    ensures Image(now, g, base, file, pg)
  {
    FloorFacts(g.vaddr, pg);
    CeilFacts(g.vaddr + g.memsz, pg);
    forall y: nat | First(g, base, pg) <= y < Last(g, base, pg) ensures now(y) == was(y) {
    }
  }

  ghost predicate PagesApart(g: Phdr, h: Phdr, base: nat, pg: nat)
    requires pg > 0
  {
    || Last(g, base, pg) <= First(h, base, pg) || Last(h, base, pg) <= First(g, base, pg)
    || Last(g, base, pg) <= First(g, base, pg) || Last(h, base, pg) <= First(h, base, pg)
  }

  /** The wrapping bounds of the first pass are the true ones once a segment is mapped. */
  lemma TruePages(h: Phdr, base: nat, pg: u64, limit: nat)
    requires pg > 0 && Mappable(h, base, pg, limit) && base + h.vaddr + h.memsz <= limit
    ensures base + Low(h, pg) == First(h, base, pg) && base + High(h, pg) == Last(h, base, pg)
  {
    NoWrap(h.vaddr, h.memsz);
    NoWrap(h.vaddr + h.memsz, pg - 1);
  }

  /** The guards rule out wrap-around of the plain sums. */
  lemma GuardedSums(h: Phdr, pg: u64, exeStart: u64, exeEnd: u64)
    requires pg > 0 && Plausible(h, pg, exeStart, exeEnd)
    ensures h.vaddr + h.memsz < WRAP && h.offset + h.filesz < WRAP
    ensures Add(h.vaddr, h.memsz) == h.vaddr + h.memsz
  {
    NotSmaller(h.vaddr, h.memsz);
    NotSmaller(h.offset, h.filesz);
  }

  lemma NotSmaller(x: u64, y: u64)
    requires Add(x, y) >= x
    ensures x + y < WRAP && Add(x, y) == x + y
  {
    assert Add(x, y) == if x + y < WRAP then x + y else x + y - WRAP;
  }

  lemma {:induction false} TwoPowerMul(a: nat, b: nat)
    requires TwoPower(a) && TwoPower(b)
    ensures TwoPower(a * b)
    decreases a
  {
    if a > 1 {
      TwoPowerMul(a / 2, b);
      var c := (a / 2) * b;
      assert a * b == 2 * c && TwoPower(c);
      assert 2 * c % 2 == 0 && 2 * c / 2 == c;
    }
  }

  lemma {:induction false} TwoPowerGap(n: nat, m: nat)
    requires TwoPower(n) && TwoPower(m) && n < m
    ensures 2 * n <= m
    decreases n
  {
    if n > 1 {
      TwoPowerGap(n / 2, m / 2);
    }
  }

  lemma WrapIsTwoPower()
    ensures TwoPower(WRAP)
  {
    assert TwoPower(2);
    TwoPowerMul(2, 2);
    TwoPowerMul(4, 4);
    TwoPowerMul(16, 16);
    TwoPowerMul(0x100, 0x100);
    TwoPowerMul(0x1_0000, 0x1_0000);
    TwoPowerMul(0x1_0000_0000, 0x1_0000_0000);
  }

  lemma HalfSpace(pg: u64)
    requires TwoPower(pg)
    ensures 2 * pg <= WRAP
  {
    WrapIsTwoPower();
    TwoPowerGap(pg, WRAP);
  }

  // ----- the whole of `Spawn` after the command line is dealt with -----

  ghost predicate Below(p: seq<Phdr>, base: nat, limit: nat, n: nat)
    requires n <= |p|
  {
    forall k :: 0 <= k < n && p[k].kind == PT_LOAD ==> base + p[k].vaddr + p[k].memsz <= limit
  }

  ghost predicate Images(cell: Cells, p: seq<Phdr>, base: nat, file: seq<byte>, pg: nat, n: nat)
    requires pg > 0 && n <= |p|
  {
    forall k :: 0 <= k < n && p[k].kind == PT_LOAD ==> Image(cell, p[k], base, file, pg)
  }

  /** Every header of an accepted table can be handed to `LoadSegment`. */
  ghost predicate AllMappable(p: seq<Phdr>, base: nat, pg: nat, limit: nat)
    requires pg > 0
  {
    forall k :: 0 <= k < |p| && p[k].kind == PT_LOAD ==> Mappable(p[k], base, pg, limit)
  }

  ghost predicate AllApart(p: seq<Phdr>, pg: u64)
    requires pg > 0
  {
    forall i, j :: 0 <= i < j < |p| && p[i].kind == PT_LOAD ==> Apart(p, i, j, pg)
  }

  /** One more segment is loaded and the earlier ones still stand. */
  lemma ImagesExtend(was: Cells, now: Cells, p: seq<Phdr>, i: nat, base: nat, file: seq<byte>, pg: u64, limit: nat)
    requires pg > 0 && i < |p| && p[i].kind == PT_LOAD && AllMappable(p, base, pg, limit) && AllApart(p, pg)
    requires Images(was, p, base, file, pg, i) && Below(p, base, limit, i) && base + p[i].vaddr + p[i].memsz <= limit
    requires Image(now, p[i], base, file, pg) && Framed(was, now, p[i], base, pg)
    ensures Images(now, p, base, file, pg, i + 1) && Below(p, base, limit, i + 1)
  {
    forall k | 0 <= k < i && p[k].kind == PT_LOAD ensures Image(now, p[k], base, file, pg) {
      assert Apart(p, k, i, pg);
      TruePages(p[k], base, pg, limit);
      TruePages(p[i], base, pg, limit);
      ImageKept(was, now, p[k], p[i], base, file, pg);
    }
  }

  method LoadAll(mem: Memory, p: seq<Phdr>, base: u64) returns (o: Outcome)
    requires 0 < mem.pg < WRAP && AllMappable(p, base, mem.pg, mem.limit) && AllApart(p, mem.pg)
    requires mem.limit % mem.pg == 0
    modifies mem
    ensures o == Exited ==> mem.refused
    ensures o == Loaded ==> Images(mem.cell, p, base, mem.file, mem.pg, |p|) && Below(p, base, mem.limit, |p|)
    ensures o == Faulted ==> exists k :: 0 <= k < |p| && p[k].kind == PT_LOAD && BadTail(p[k], mem.file, mem.pg)
    ensures o == Loaded ==> forall k :: 0 <= k < |p| && p[k].kind == PT_LOAD ==> !BadTail(p[k], mem.file, mem.pg)
    ensures o == Loaded ==> Elsewhere(old(mem.cell), mem.cell, p, base, mem.pg, |p|)
  {
    ghost var start := mem.cell;
    var i := 0;
    while i < |p|
      invariant i <= |p| && Images(mem.cell, p, base, mem.file, mem.pg, i) && Below(p, base, mem.limit, i)
      invariant forall k :: 0 <= k < i && p[k].kind == PT_LOAD ==> !BadTail(p[k], mem.file, mem.pg)
      invariant Elsewhere(start, mem.cell, p, base, mem.pg, i)
    {
      if p[i].kind == PT_LOAD {
        ghost var was := mem.cell;
        o := LoadSegment(mem, p[i], base);
        if o != Loaded {
          return;
        }
        ImagesExtend(was, mem.cell, p, i, base, mem.file, mem.pg, mem.limit);
        ElsewhereExtend(start, was, mem.cell, p, base, mem.pg, i);
      } else {
        ElsewhereSkip(start, mem.cell, p, base, mem.pg, i);
      }
      i := i + 1;
    }
    o := Loaded;
  }

  /** Bytes in no segment's pages are as before. */
  ghost predicate Elsewhere(was: Cells, now: Cells, p: seq<Phdr>, base: nat, pg: nat, n: nat)
    requires pg > 0 && n <= |p|
  {
    forall y: nat :: !InPages(p, base, pg, n, y) ==> now(y) == was(y)
  }

  ghost predicate InPages(p: seq<Phdr>, base: nat, pg: nat, n: nat, y: nat)
    requires pg > 0 && n <= |p|
  {
    exists k :: 0 <= k < n && p[k].kind == PT_LOAD && First(p[k], base, pg) <= y < Last(p[k], base, pg)
  }

  lemma ElsewhereExtend(start: Cells, was: Cells, now: Cells, p: seq<Phdr>, base: nat, pg: nat, i: nat)
    requires pg > 0 && i < |p| && p[i].kind == PT_LOAD
    requires Elsewhere(start, was, p, base, pg, i) && Framed(was, now, p[i], base, pg)
    ensures Elsewhere(start, now, p, base, pg, i + 1)
  {
    forall y: nat | !InPages(p, base, pg, i + 1, y) ensures now(y) == start(y) {
      assert !InPages(p, base, pg, i, y);
    }
  }

  lemma ElsewhereSkip(start: Cells, now: Cells, p: seq<Phdr>, base: nat, pg: nat, i: nat)
    requires pg > 0 && i < |p| && p[i].kind != PT_LOAD && Elsewhere(start, now, p, base, pg, i)
    ensures Elsewhere(start, now, p, base, pg, i + 1)
  {
    forall y: nat | !InPages(p, base, pg, i + 1, y) ensures now(y) == start(y) {
      assert !InPages(p, base, pg, i, y);
    }
  }

  /** What the first pass and the choice of a base give the second. */
  lemma AcceptedMappable(p: seq<Phdr>, pg: u64, entry: u64, exeStart: u64, exeEnd: u64, base: u64, limit: nat)
    requires 0 < pg && Accepted(p, pg, entry, exeStart, exeEnd) && base % pg == 0 && 2 * limit <= WRAP
    requires forall k :: 0 <= k < |p| && p[k].kind == PT_LOAD ==>
      base == 0 || base + Add(p[k].vaddr, p[k].memsz) <= limit
    ensures AllMappable(p, base, pg, limit) && AllApart(p, pg)
  {
    HalfSpace(pg);
    forall k | 0 <= k < |p| && p[k].kind == PT_LOAD ensures Mappable(p[k], base, pg, limit) {
      assert LoadOk(p, k, pg, exeStart, exeEnd);
      GuardedSums(p[k], pg, exeStart, exeEnd);
    }
    forall i, j | 0 <= i < j < |p| && p[i].kind == PT_LOAD ensures Apart(p, i, j, pg) {
      assert LoadOk(p, i, pg, exeStart, exeEnd);
    }
  }

  /** No page of a fixed-address table lies in the loader. */
  lemma LoaderSpared(p: seq<Phdr>, pg: u64, entry: u64, exeStart: u64, exeEnd: u64, limit: nat, y: nat)
    requires 0 < pg && Accepted(p, pg, entry, exeStart, exeEnd) && exeStart <= y < exeEnd
    requires AllMappable(p, 0, pg, limit) && Below(p, 0, limit, |p|)
    ensures !InPages(p, 0, pg, |p|, y)
  {
    forall k | 0 <= k < |p| && p[k].kind == PT_LOAD ensures !(First(p[k], 0, pg) <= y < Last(p[k], 0, pg)) {
      assert LoadOk(p, k, pg, exeStart, exeEnd);
      TruePages(p[k], 0, pg, limit);
    }
  }

  /** Every page of a movable table lies in the reserved range. */
  lemma InReserved(p: seq<Phdr>, pg: u64, base: nat, size: nat, y: nat)
    requires 0 < pg && base % pg == 0 && InPages(p, base, pg, |p|, y)
    requires forall k :: 0 <= k < |p| && p[k].kind == PT_LOAD ==> p[k].vaddr + p[k].memsz <= size
    ensures base <= y < Ceil(base + size, pg)
  {
    var k :| 0 <= k < |p| && p[k].kind == PT_LOAD && First(p[k], base, pg) <= y < Last(p[k], base, pg);
    ShiftMod(base, size, pg);
    CeilMono(p[k].vaddr + p[k].memsz, size, pg);
  }

  ghost predicate Reserved(was: Cells, now: Cells, lo: nat, hi: nat) {
    forall y: nat :: if lo <= y < hi then was(y).Unmapped? else now(y) == was(y)
  }

  /** The base of a movable table: fresh room for all of its segments. */
  method ChooseBase(mem: Memory, p: seq<Phdr>, virtmin: u64, virtmax: u64, at: u64) returns (ok: bool)
    requires 0 < mem.pg < WRAP && virtmin == 0
    modifies mem
    ensures !ok ==> mem.refused || at % mem.pg != 0
    ensures ok ==> at % mem.pg == 0 && at + virtmax <= mem.limit
    ensures ok ==> Reserved(old(mem.cell), mem.cell, at, Ceil(at + virtmax, mem.pg))
  {
    var rc := mem.Reserve(Sub(virtmax, virtmin), at);
    ok := rc >= 0 && at % mem.pg == 0 && Add(at, virtmin) >= at;
  }

  /** A program at its own addresses. */
  method SpawnFixed(mem: Memory, p: seq<Phdr>, ghost entry: u64, ghost exeStart: u64, ghost exeEnd: u64)
    returns (o: Outcome)
    requires 0 < mem.pg < WRAP && 2 * mem.limit <= WRAP && mem.limit % mem.pg == 0
    requires Accepted(p, mem.pg, entry, exeStart, exeEnd)
    modifies mem
    ensures o == Exited ==> mem.refused
    ensures o == Loaded ==> Images(mem.cell, p, 0, mem.file, mem.pg, |p|)
    ensures o == Faulted ==> exists k :: 0 <= k < |p| && p[k].kind == PT_LOAD && BadTail(p[k], mem.file, mem.pg)
    ensures o == Loaded ==> forall k :: 0 <= k < |p| && p[k].kind == PT_LOAD ==> !BadTail(p[k], mem.file, mem.pg)
    ensures o == Loaded ==> forall y: nat :: exeStart <= y < exeEnd ==> mem.cell(y) == old(mem.cell)(y)
  {
    AcceptedMappable(p, mem.pg, entry, exeStart, exeEnd, 0, mem.limit);
    o := LoadAll(mem, p, 0);
    if o == Loaded {
      ExecSpares(old(mem.cell), mem.cell, p, mem.pg, entry, exeStart, exeEnd, mem.limit);
    }
  }

  /** A program that can be put anywhere. */
  method SpawnMovable(mem: Memory, p: seq<Phdr>, virtmin: u64, virtmax: u64, at: u64,
                      ghost entry: u64, ghost exeStart: u64, ghost exeEnd: u64)
    returns (o: Outcome)
    requires 0 < mem.pg < WRAP && 2 * mem.limit <= WRAP && mem.limit % mem.pg == 0 && virtmin == 0
    requires Accepted(p, mem.pg, entry, exeStart, exeEnd)
    requires forall k :: 0 <= k < |p| && p[k].kind == PT_LOAD ==> Add(p[k].vaddr, p[k].memsz) <= virtmax
    modifies mem
    ensures o == Exited ==> mem.refused || at % mem.pg != 0
    ensures o == Loaded ==> at % mem.pg == 0 && Images(mem.cell, p, at, mem.file, mem.pg, |p|)
    ensures o == Faulted ==> exists k :: 0 <= k < |p| && p[k].kind == PT_LOAD && BadTail(p[k], mem.file, mem.pg)
    ensures o == Loaded ==> forall k :: 0 <= k < |p| && p[k].kind == PT_LOAD ==> !BadTail(p[k], mem.file, mem.pg)
    ensures o == Loaded ==> forall y: nat :: old(mem.cell)(y).Mapped? ==> mem.cell(y) == old(mem.cell)(y)
  {
    var ok := ChooseBase(mem, p, virtmin, virtmax, at);
    if !ok {
      return Exited;
    }
    ghost var room := mem.cell;
    AcceptedMappable(p, mem.pg, entry, exeStart, exeEnd, at, mem.limit);
    o := LoadAll(mem, p, at);
    if o == Loaded {
      DynSpares(old(mem.cell), room, mem.cell, p, mem.pg, at, mem.limit, virtmax);
    }
  }

  method Spawn(mem: Memory, p: seq<Phdr>, isDyn: bool, entry: u64, exeStart: u64, exeEnd: u64, at: u64)
    returns (o: Outcome, base: u64)
    requires 0 < mem.pg < WRAP && 2 * mem.limit <= WRAP && mem.limit % mem.pg == 0
    modifies mem
    ensures o == Exited && Accepted(p, mem.pg, entry, exeStart, exeEnd) ==>
      mem.refused || (isDyn && at % mem.pg != 0)
    ensures o == Loaded ==> Accepted(p, mem.pg, entry, exeStart, exeEnd) && base == (if isDyn then at else 0)
    ensures !Accepted(p, mem.pg, entry, exeStart, exeEnd) ==> o == Exited && mem.cell == old(mem.cell)
    ensures o == Loaded ==> base % mem.pg == 0 && Images(mem.cell, p, base, mem.file, mem.pg, |p|)
    ensures o == Loaded ==> AllServed(mem.cell, p, base, mem.file, mem.pg)
    ensures o == Faulted ==> exists k :: 0 <= k < |p| && p[k].kind == PT_LOAD && BadTail(p[k], mem.file, mem.pg)
    ensures o == Loaded ==> forall k :: 0 <= k < |p| && p[k].kind == PT_LOAD ==> !BadTail(p[k], mem.file, mem.pg)
    ensures o == Loaded && isDyn ==> forall y: nat :: old(mem.cell)(y).Mapped? ==> mem.cell(y) == old(mem.cell)(y)
    ensures o == Loaded && !isDyn ==> forall y: nat :: exeStart <= y < exeEnd ==> mem.cell(y) == old(mem.cell)(y)
  {
    base := 0;
    var ok, virtmin, virtmax := Validate(p, mem.pg, entry, exeStart, exeEnd);
    if !ok {
      return Exited, base;
    }
    if isDyn {
      base := at;
      o := SpawnMovable(mem, p, virtmin, virtmax, at, entry, exeStart, exeEnd);
    } else {
      o := SpawnFixed(mem, p, entry, exeStart, exeEnd);
    }
    if o == Loaded {
      ImagesServe(mem.cell, p, base, mem.file, mem.pg);
    }
  }

  lemma ExecSpares(start: Cells, now: Cells, p: seq<Phdr>, pg: u64, entry: u64, exeStart: u64, exeEnd: u64, limit: nat)
    requires 0 < pg && Accepted(p, pg, entry, exeStart, exeEnd)
    requires AllMappable(p, 0, pg, limit) && Below(p, 0, limit, |p|) && Elsewhere(start, now, p, 0, pg, |p|)
    ensures forall y: nat :: exeStart <= y < exeEnd ==> now(y) == start(y)
  {
    forall y: nat | exeStart <= y < exeEnd ensures now(y) == start(y) {
      LoaderSpared(p, pg, entry, exeStart, exeEnd, limit, y);
    }
  }

  lemma DynSpares(start: Cells, room: Cells, now: Cells, p: seq<Phdr>, pg: u64, base: nat, limit: nat, virtmax: u64)
    requires 0 < pg && base % pg == 0 && AllMappable(p, base, pg, limit)
    requires forall k :: 0 <= k < |p| && p[k].kind == PT_LOAD ==> Add(p[k].vaddr, p[k].memsz) <= virtmax
    requires Reserved(start, room, base, Ceil(base + virtmax, pg)) && Elsewhere(room, now, p, base, pg, |p|)
    ensures forall y: nat :: start(y).Mapped? ==> now(y) == start(y)
  {
    forall k | 0 <= k < |p| && p[k].kind == PT_LOAD ensures p[k].vaddr + p[k].memsz <= virtmax {
      assert Mappable(p[k], base, pg, limit);
      NoWrap(p[k].vaddr, p[k].memsz);
    }
    forall y: nat | start(y).Mapped? ensures now(y) == start(y) {
      if InPages(p, base, pg, |p|, y) {
        InReserved(p, pg, base, virtmax, y);
      }
    }
  }
}
