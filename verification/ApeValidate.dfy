/** The first pass of `Spawn`: what a header table must satisfy to be loaded. */
module ApeValidate {
  import opened ApePhdrs

  predicate TwoPower(n: nat)
    decreases n
  {
    n == 1 || (n > 1 && n % 2 == 0 && TwoPower(n / 2))
  }

  predicate Executable(h: Phdr) { h.flags % 2 == 1 }

  function Low(h: Phdr, pg: u64): u64
    requires pg > 0
  {
    PageDown(h.vaddr, pg)
  }

  /** One past the last page, in the loader's wrapping arithmetic. */
  function High(h: Phdr, pg: u64): u64
    requires pg > 0
  {
    PageUp(Add(h.vaddr, h.memsz), pg)
  }

  predicate Overlap(a: u64, b: u64, c: u64, d: u64) {
    (if a < c then c else a) < (if b < d then b else d)
  }

  /** The checks on one load header alone. */
  predicate Plausible(h: Phdr, pg: u64, exeStart: u64, exeEnd: u64)
    requires pg > 0
  {
    && h.filesz <= h.memsz
    && h.vaddr % pg == h.offset % pg
    && Add(h.vaddr, h.memsz) >= h.vaddr && Add(Add(h.vaddr, h.memsz), pg - 1) >= h.vaddr
    && Add(h.offset, h.filesz) >= h.offset && Add(Add(h.offset, h.filesz), pg - 1) >= h.offset
    && !Overlap(Low(h, pg), High(h, pg), exeStart, exeEnd)
  }

  predicate Apart(p: seq<Phdr>, i: nat, j: nat, pg: u64)
    requires pg > 0 && i < |p| && j < |p|
  {
    p[j].kind == PT_LOAD ==> !Overlap(Low(p[i], pg), High(p[i], pg), Low(p[j], pg), High(p[j], pg))
  }

  predicate LoadOk(p: seq<Phdr>, i: nat, pg: u64, exeStart: u64, exeEnd: u64)
    requires pg > 0 && i < |p|
  {
    p[i].kind == PT_LOAD ==>
      && Plausible(p[i], pg, exeStart, exeEnd)
      && forall j :: i < j < |p| ==> Apart(p, i, j, pg)
  }

  predicate HoldsEntry(h: Phdr, entry: u64) {
    h.kind == PT_LOAD && Executable(h) && h.vaddr <= entry < Add(h.vaddr, h.memsz)
  }

  ghost predicate Accepted(p: seq<Phdr>, pg: u64, entry: u64, exeStart: u64, exeEnd: u64)
    requires pg > 0
  {
    && TwoPower(pg)
    && (forall i :: 0 <= i < |p| ==> LoadOk(p, i, pg, exeStart, exeEnd))
    && exists i :: 0 <= i < |p| && HoldsEntry(p[i], entry)
  }

  function Lesser(x: u64, y: u64): u64 { if x < y then x else y }

  predicate EndsAt(h: Phdr, x: u64) { h.kind == PT_LOAD && Add(h.vaddr, h.memsz) == x }

  /** `virtmax` is the end of the highest load header; `virtmin` never leaves 0. */
  method Validate(p: seq<Phdr>, pg: u64, entry: u64, exeStart: u64, exeEnd: u64)
    returns (ok: bool, virtmin: u64, virtmax: u64)
    requires pg > 0
    ensures ok <==> Accepted(p, pg, entry, exeStart, exeEnd)
    ensures virtmin == 0
    ensures ok ==> forall i :: 0 <= i < |p| && p[i].kind == PT_LOAD ==> Add(p[i].vaddr, p[i].memsz) <= virtmax
    ensures ok ==> exists i :: 0 <= i < |p| && EndsAt(p[i], virtmax)
  {
    ok, virtmin, virtmax := false, 0, 0;
    if !TwoPower(pg) {
      return;
    }
    var foundEntry := false;
    ghost var top, held := 0, 0;
    var i := 0;
    while i < |p|
      invariant i <= |p| && virtmin == 0
      invariant forall k :: 0 <= k < i ==> LoadOk(p, k, pg, exeStart, exeEnd)
      invariant foundEntry ==> held < i && HoldsEntry(p[held], entry)
      invariant !foundEntry ==> forall k :: 0 <= k < i ==> !HoldsEntry(p[k], entry)
      invariant forall k :: 0 <= k < i && p[k].kind == PT_LOAD ==> Add(p[k].vaddr, p[k].memsz) <= virtmax
      invariant virtmax == 0 || (top < i && EndsAt(p[top], virtmax))
      decreases |p| - i
    {
      if p[i].kind == PT_LOAD {
        var fine := ValidateLoad(p, i, pg, exeStart, exeEnd);
        if !fine {
          return;
        }
        var end := Add(p[i].vaddr, p[i].memsz);
        if Executable(p[i]) && p[i].vaddr <= entry < end {
          foundEntry, held := true, i;
        }
        virtmin := Lesser(p[i].vaddr, virtmin);
        if end > virtmax {
          virtmax := end;
          top := i;
        }
      }
      i := i + 1;
    }
    ok := foundEntry;
  }

  /** The body of the loop: false where the source exits. */
  method ValidateLoad(p: seq<Phdr>, i: nat, pg: u64, exeStart: u64, exeEnd: u64) returns (ok: bool)
    requires pg > 0 && i < |p| && p[i].kind == PT_LOAD
    ensures ok <==> LoadOk(p, i, pg, exeStart, exeEnd)
  {
    if p[i].filesz > p[i].memsz {
      return false;
    }
    if p[i].vaddr % pg != p[i].offset % pg {
      return false;
    }
    if Add(p[i].vaddr, p[i].memsz) < p[i].vaddr || Add(Add(p[i].vaddr, p[i].memsz), pg - 1) < p[i].vaddr {
      return false;
    }
    if Add(p[i].offset, p[i].filesz) < p[i].offset || Add(Add(p[i].offset, p[i].filesz), pg - 1) < p[i].offset {
      return false;
    }
    var a := PageDown(p[i].vaddr, pg);
    var b := PageUp(Add(p[i].vaddr, p[i].memsz), pg);
    if Overlap(a, b, exeStart, exeEnd) {
      return false;
    }
    var j := i + 1;
    while j < |p|
      invariant i < j <= |p| && forall k :: i < k < j ==> Apart(p, i, k, pg)
    {
      if p[j].kind == PT_LOAD {
        var c := PageDown(p[j].vaddr, pg);
        var d := PageUp(Add(p[j].vaddr, p[j].memsz), pg);
        if Overlap(a, b, c, d) {
          assert !Apart(p, i, j, pg);
          return false;
        }
      }
      j := j + 1;
    }
    return true;
  }
}
