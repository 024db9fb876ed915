/** What merging neighbouring load headers does to the image they describe. */
module ApeMerge {
  import opened Bytes
  import opened ApePhdrs

  type File = nat -> byte

  /** A load header that does not run past the address space or the file range. */
  predicate Sane(h: Phdr) {
    && h.kind == PT_LOAD && h.filesz <= h.memsz
    && h.vaddr + h.memsz < WRAP && h.offset + h.filesz < WRAP
  }

  /** The byte a header gives to address `x`: file content, then zeroes. */
  function Value(h: Phdr, file: File, x: nat): byte
    requires h.vaddr <= x
  {
    if x < h.vaddr + h.filesz then file(h.offset + (x - h.vaddr)) else 0
  }

  /** `h` gives every byte of `g` its address, value and protection. */
  ghost predicate Keeps(h: Phdr, g: Phdr, file: File) {
    && h.kind == g.kind && Prot(h) == Prot(g)
    && h.vaddr <= g.vaddr && g.vaddr + g.memsz <= h.vaddr + h.memsz
    && forall x :: g.vaddr <= x < g.vaddr + g.memsz ==> Value(h, file, x) == Value(g, file, x)
  }

  /** Two sane headers in ascending order, in memory and in the file range. */
  predicate Ascending(a: Phdr, b: Phdr) {
    Sane(a) && Sane(b) && a.vaddr + a.memsz <= b.vaddr && a.offset <= b.offset + b.filesz
  }

  lemma JoinedSizes(a: Phdr, b: Phdr)
    requires Ascending(a, b)
    ensures Joined(a, b).memsz == b.vaddr + b.memsz - a.vaddr
    ensures Joined(a, b).filesz == b.offset + b.filesz - a.offset
  {
  }

  /** When the joined header has the meaning of both parts: its file part must cover
      the first, must not run into zero fill of either, and must line up with the
      second. */
  predicate Lossless(a: Phdr, b: Phdr) {
    var filesz := b.offset + b.filesz - a.offset;
    && a.filesz <= filesz && (a.filesz < a.memsz ==> filesz <= a.filesz)
    && (b.filesz > 0 ==> b.offset - a.offset == b.vaddr - a.vaddr)
    && (b.filesz == 0 && b.memsz > 0 ==> b.offset - a.offset <= b.vaddr - a.vaddr)
  }

  lemma JoinedKeeps(a: Phdr, b: Phdr, file: File)
    requires Ascending(a, b) && Prot(a) == Prot(b) && Lossless(a, b)
    ensures Keeps(Joined(a, b), a, file) && Keeps(Joined(a, b), b, file)
  {
    JoinedSizes(a, b);
    var j := Joined(a, b);
    forall x | a.vaddr <= x < a.vaddr + a.memsz ensures Value(j, file, x) == Value(a, file, x) {
    }
    forall x | b.vaddr <= x < b.vaddr + b.memsz ensures Value(j, file, x) == Value(b, file, x) {
      if b.filesz > 0 { assert j.offset + (x - j.vaddr) == b.offset + (x - b.vaddr); }
    }
  }

  /** Otherwise some file shows the difference. */
  lemma JoinedLoses(a: Phdr, b: Phdr) returns (file: File)
    requires Ascending(a, b) && !Lossless(a, b)
    ensures !(Keeps(Joined(a, b), a, file) && Keeps(Joined(a, b), b, file))
  {
    JoinedSizes(a, b);
    var j := Joined(a, b);
    file := (_: nat) => 1 as byte;
    if j.filesz < a.filesz {
      assert Value(j, file, a.vaddr + j.filesz) != Value(a, file, a.vaddr + j.filesz);
    } else if a.filesz < a.memsz && j.filesz > a.filesz {
      assert Value(j, file, a.vaddr + a.filesz) != Value(a, file, a.vaddr + a.filesz);
    } else if b.filesz > 0 {
      file := (k: nat) => if k == b.offset then 1 as byte else 0;
      assert Value(j, file, b.vaddr) != Value(b, file, b.vaddr);
    } else {
      assert Value(j, file, b.vaddr) != Value(b, file, b.vaddr);
    }
  }

  /** Joining two ascending loads of equal protection keeps both, for every file, if
      and only if `Lossless`. */
  lemma JoinExact(a: Phdr, b: Phdr)
    requires Ascending(a, b) && Prot(a) == Prot(b)
    ensures Lossless(a, b) <==> forall file: File :: Keeps(Joined(a, b), a, file) && Keeps(Joined(a, b), b, file)
  {
    if Lossless(a, b) {
      forall file: File ensures Keeps(Joined(a, b), a, file) && Keeps(Joined(a, b), b, file) {
        JoinedKeeps(a, b, file);
      }
    } else {
      var file := JoinedLoses(a, b);
    }
  }

  /** Zero fill in the first of two pieces of one file range is lost. */
  lemma BssInFrontIsLost(a: Phdr, b: Phdr)
    requires Ascending(a, b) && a.filesz < a.memsz && b.filesz > 0
    ensures !Lossless(a, b)
  {
  }

  // ----- whole tables -----

  /** Pieces of one mapping: the same distance between address and file offset, and
      no zero fill before the end. */
  predicate Contiguous(a: Phdr, b: Phdr) {
    && Ascending(a, b) && a.offset <= b.offset && b.vaddr - b.offset == a.vaddr - a.offset
    && a.filesz == a.memsz
  }

  lemma ContiguousIsLossless(a: Phdr, b: Phdr)
    requires Contiguous(a, b)
    ensures Lossless(a, b)
  {
  }

  /** Wherever the loader would merge, the two headers are pieces of one mapping. */
  predicate Tidy(ps: seq<Phdr>, pagesz: u64)
    requires pagesz > 0
  {
    forall i :: 0 <= i < |ps| - 1 && Adjacent(ps[i], ps[i + 1], pagesz) ==> Contiguous(ps[i], ps[i + 1])
  }

  lemma KeepsTrans(h: Phdr, g: Phdr, f: Phdr, file: File)
    requires Keeps(h, g, file) && Keeps(g, f, file)
    ensures Keeps(h, f, file)
  {
  }

  lemma KeepsSelf(h: Phdr, file: File)
    ensures Keeps(h, h, file)
  {
  }

  /** A joined header ends where its second part ended, so the next test comes out
      the same. */
  lemma JoinedNext(a: Phdr, b: Phdr, c: Phdr, pagesz: u64)
    requires pagesz > 0 && Contiguous(a, b) && Prot(a) == Prot(b)
    ensures Adjacent(Joined(a, b), c, pagesz) <==> Adjacent(b, c, pagesz)
    ensures Contiguous(b, c) ==> Contiguous(Joined(a, b), c)
  {
    JoinedSizes(a, b);
    var j := Joined(a, b);
    SameEnd(j, b, c, pagesz);
  }

  /** The test looks at the ends of its first header only. */
  lemma SameEnd(j: Phdr, b: Phdr, c: Phdr, pagesz: u64)
    requires pagesz > 0 && j.kind == b.kind && Prot(j) == Prot(b)
    requires j.offset + j.filesz == b.offset + b.filesz && j.vaddr + j.memsz == b.vaddr + b.memsz
    ensures Adjacent(j, c, pagesz) <==> Adjacent(b, c, pagesz)
  {
    assert Add(j.offset, j.filesz) == Add(b.offset, b.filesz) && Add(j.vaddr, j.memsz) == Add(b.vaddr, b.memsz);
  }

  lemma TidyTail(ps: seq<Phdr>, pagesz: u64)
    requires pagesz > 0 && |ps| > 0 && Tidy(ps, pagesz)
    ensures Tidy(ps[1..], pagesz)
  {
    var t := ps[1..];
    forall i | 0 <= i < |t| - 1 && Adjacent(t[i], t[i + 1], pagesz) ensures Contiguous(t[i], t[i + 1]) {
      assert t[i] == ps[i + 1] && t[i + 1] == ps[i + 1 + 1];
    }
  }

  lemma TidyJoined(ps: seq<Phdr>, pagesz: u64)
    requires pagesz > 0 && |ps| > 1 && Tidy(ps, pagesz) && Adjacent(ps[0], ps[0 + 1], pagesz)
    ensures Tidy([Joined(ps[0], ps[1])] + ps[2..], pagesz)
  {
    var t := [Joined(ps[0], ps[1])] + ps[2..];
    assert Contiguous(ps[0], ps[0 + 1]);
    forall i | 0 <= i < |t| - 1 && Adjacent(t[i], t[i + 1], pagesz) ensures Contiguous(t[i], t[i + 1]) {
      assert t[i + 1] == ps[i + 1 + 1];
      if i == 0 {
        JoinedNext(ps[0], ps[1], ps[i + 1 + 1], pagesz);
        assert Adjacent(ps[i + 1], ps[i + 1 + 1], pagesz);
      } else {
        assert t[i] == ps[i + 1];
      }
    }
  }

  /** Every header of a tidy table is still described, byte for byte, by a header of
      the merged table. */
  lemma {:induction false} MergeKeeps(ps: seq<Phdr>, pagesz: u64, file: File, i: nat) returns (k: nat)
    requires pagesz > 0 && Tidy(ps, pagesz) && i < |ps|
    ensures k < |Merge(ps, pagesz)| && Keeps(Merge(ps, pagesz)[k], ps[i], file)
    decreases |ps|
  {
    if |ps| == 1 {
      assert ps[1..] == [];
      KeepsSelf(ps[0], file);
      k := 0;
    } else if Adjacent(ps[0], ps[0 + 1], pagesz) {
      var j := Joined(ps[0], ps[1]);
      var t := [j] + ps[2..];
      MergeStep([], ps, pagesz);
      TidyJoined(ps, pagesz);
      assert Contiguous(ps[0], ps[0 + 1]);
      ContiguousIsLossless(ps[0], ps[1]);
      JoinedKeeps(ps[0], ps[1], file);
      k := MergeKeeps(t, pagesz, file, if i < 2 then 0 else i - 1);
      if i < 2 { KeepsTrans(Merge(t, pagesz)[k], j, ps[i], file); }
    } else {
      TidyTail(ps, pagesz);
      var m := Merge(ps[1..], pagesz);
      assert ps[1..][1..] == ps[2..] && Merge(ps, pagesz) == [ps[0]] + m;
      if i == 0 {
        KeepsSelf(ps[0], file);
        k := 0;
      } else {
        k := MergeKeeps(ps[1..], pagesz, file, i - 1);
        k := k + 1;
      }
    }
  }

  // ----- nothing is left to merge -----

  lemma {:induction false} MergeHead(h: Phdr, rest: seq<Phdr>, pagesz: u64)
    requires pagesz > 0
    ensures var m := MergeFrom(h, rest, pagesz);
      |m| > 0 && m[0].kind == h.kind && m[0].flags == h.flags && m[0].offset == h.offset && m[0].vaddr == h.vaddr
    decreases |rest|
  {
    if |rest| > 0 && Adjacent(h, rest[0], pagesz) {
      MergeHead(Joined(h, rest[0]), rest[1..], pagesz);
    }
  }

  ghost predicate Settled(m: seq<Phdr>, pagesz: u64)
    requires pagesz > 0
  {
    forall i :: 0 <= i < |m| - 1 ==> !Adjacent(m[i], m[i + 1], pagesz)
  }

  /** No two neighbours of a merged table pass the test again. */
  lemma {:induction false} MergeSettles(h: Phdr, rest: seq<Phdr>, pagesz: u64)
    requires pagesz > 0
    ensures Settled(MergeFrom(h, rest, pagesz), pagesz)
    decreases |rest|
  {
    if rest != [] {
      if Adjacent(h, rest[0], pagesz) {
        MergeSettles(Joined(h, rest[0]), rest[1..], pagesz);
      } else {
        MergeSettles(rest[0], rest[1..], pagesz);
        MergeHead(rest[0], rest[1..], pagesz);
        var t := MergeFrom(rest[0], rest[1..], pagesz);
        var m := [h] + t;
        forall i | 0 <= i < |m| - 1 ensures !Adjacent(m[i], m[i + 1], pagesz) {
          assert m[i + 1] == t[i];
          if i > 0 { assert m[i] == t[i - 1] && !Adjacent(t[i - 1], t[i - 1 + 1], pagesz); }
        }
      }
    }
  }
}
