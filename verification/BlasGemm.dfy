/** `ansiBLAS`: the loops that fill C. */
module BlasGemm {
  import opened Blas

  function Start(ld: nat, i: nat): nat { ld * i }

  /** The columns that are read: k rounded up to whole vectors. */
  function Padded(k: int): (r: nat)
    ensures r % KN == 0 && k <= r && r < (if k < 0 then 0 else k) + KN
  {
    if k <= 0 then 0 else (k + 7) / 8 * 8
  }

  lemma NextBlock(k: int, l: nat)
    requires l % KN == 0 && l < k
    ensures l + KN <= Padded(k) && (l + KN) % KN == 0
  {
  }

  lemma PaddedIs(k: int, l: nat)
    requires l % KN == 0 && k <= l <= Padded(k)
    ensures l == Padded(k)
  {
  }

  /** The whole product: C is m by n, with element (i, j) at `ldc * j + i`. */
  datatype Problem = Problem(k: int, A: seq<real>, lda: nat, B: seq<real>, ldb: nat, ldc: nat, m: nat, n: nat)

  /** Rows of length `width` at stride `ld` lie within `len` elements. */
  ghost predicate Rows(len: nat, ld: nat, rows: nat, width: nat) {
    forall i: nat :: i < rows ==> Start(ld, i) + width <= len
  }

  ghost predicate Fits(p: Problem, len: nat) {
    && 0 < p.ldc && p.m <= p.ldc && Rows(len, p.ldc, p.n, p.m)
    && Rows(|p.A|, p.lda, p.m, Padded(p.k)) && Rows(|p.B|, p.ldb, p.n, Padded(p.k))
  }

  function CellI(p: Problem, x: nat): nat { if p.ldc == 0 then 0 else x % p.ldc }

  function CellJ(p: Problem, x: nat): nat { if p.ldc == 0 then 0 else x / p.ldc }

  /** What element x of C should hold. */
  function Product(p: Problem, x: nat): real {
    var a, b, l := Start(p.lda, CellI(p, x)), Start(p.ldb, CellJ(p, x)), Padded(p.k);
    if a + l <= |p.A| && b + l <= |p.B| then Dot(p.A, a, p.B, b, l) else 0.0
  }

  /** The stores made so far: where, and which value. */
  type Stores = multiset<(nat, real)>

  /** The cells in `mine` have been stored once each, with their product; the rest of C
      is untouched.  The multisets record the stores. */
  ghost predicate Effect(p: Problem, c0: seq<real>, h0: Stores, c1: seq<real>, h1: Stores, mine: set<nat>) {
    && |c1| == |c0|
    && (forall x: nat :: x < |c0| ==> c1[x] == if x in mine then Product(p, x) else c0[x])
    && h1 == h0 + multiset(Records(p, mine))
  }

  /** One store of the product for each of the cells. */
  ghost function Records(p: Problem, mine: set<nat>): set<(nat, real)> {
    set x | x in mine :: (x, Product(p, x))
  }

  lemma RecordsJoin(p: Problem, a: set<nat>, b: set<nat>)
    requires a !! b
    ensures multiset(Records(p, a + b)) == multiset(Records(p, a)) + multiset(Records(p, b))
  {
    var ra, rb := Records(p, a), Records(p, b);
    assert Records(p, a + b) == ra + rb;
    assert ra !! rb;
  }

  lemma EffectThen(p: Problem, c0: seq<real>, h0: Stores, c1: seq<real>, h1: Stores,
                   c2: seq<real>, h2: Stores, first: set<nat>, second: set<nat>, both: set<nat>)
    requires Effect(p, c0, h0, c1, h1, first) && Effect(p, c1, h1, c2, h2, second)
    requires first !! second && both == first + second
    ensures Effect(p, c0, h0, c2, h2, both)
  {
    RecordsJoin(p, first, second);
  }

  // ----- sets of cells -----

  /** The cells of a tile that come before (i, j) in the order of the storing loops. */
  ghost function TilePart(p: Problem, len: nat, ii: nat, jj: nat, rm: nat, j: nat, i: nat): set<nat> {
    set x: nat | x < len && ii <= CellI(p, x) < ii + rm && jj <= CellJ(p, x)
      && (CellJ(p, x) < j || (CellJ(p, x) == j && CellI(p, x) < i))
  }

  ghost function TileCells(p: Problem, len: nat, ii: int, jj: int, rm: nat, rn: nat): set<nat> {
    set x: nat | x < len && ii <= CellI(p, x) < ii + rm && jj <= CellJ(p, x) < jj + rn
  }

  /** Cells (m0 + i, n0 + j) with i < h and j < w that belong to thread `ith`. */
  ghost function RectCells(p: Problem, len: nat, ith: nat, nth: nat, m0: nat, h: nat, n0: nat, w: nat): set<nat>
    requires nth > 0
  {
    set x: nat | x < len && m0 <= CellI(p, x) < m0 + h && n0 <= CellJ(p, x) < n0 + w
      && Owner(nth, h, w, CellI(p, x) - m0, CellJ(p, x) - n0) == ith
  }

  /** The place of a cell in C. */
  lemma CellAt(p: Problem, i: nat, j: nat, x: nat)
    requires i < p.ldc
    ensures x == Start(p.ldc, j) + i <==> CellI(p, x) == i && CellJ(p, x) == j
  {
    SplitIndex(j, i, p.ldc);
    assert x == p.ldc * (x / p.ldc) + x % p.ldc;
  }

  // ----- one tile -----

  /** One block of eight columns for one cell. */
  method AddBlock(A: seq<real>, a: nat, B: seq<real>, b: nat, l: nat, v: Vector) returns (r: Vector)
    requires a + l + KN <= |A| && b + l + KN <= |B| && l % KN == 0 && Lanes(v, A, a, B, b, l)
    ensures Lanes(r, A, a, B, b, l + KN)
  {
    var x := Load(A, a + l);
    var y := Load(B, b + l);
    r := Madd(x, y, v);
    forall t | 0 <= t < KN ensures r[t] == Lane(A, a, B, b, l + KN, t) {
      assert x[t] == A[a + l + t] && y[t] == B[b + l + t];
    }
  }

  class AnsiBlas {
    const k: int
    const A: seq<real>
    const lda: nat
    const B: seq<real>
    const ldb: nat
    const C: array<real>
    const ldc: nat
    const ith: nat
    const nth: nat
    ghost const p: Problem
    ghost var hits: Stores

    constructor (k: int, A: seq<real>, lda: nat, B: seq<real>, ldb: nat, C: array<real>, ldc: nat, ith: nat, nth: nat,
                 ghost p: Problem, ghost hits: Stores)
      requires p == Problem(k, A, lda, B, ldb, ldc, p.m, p.n) && ith < nth && Fits(p, C.Length)
      ensures Valid() && this.C == C && this.ith == ith && this.nth == nth && this.p == p && this.hits == hits
    {
      this.k, this.A, this.lda, this.B, this.ldb := k, A, lda, B, ldb;
      this.C, this.ldc, this.ith, this.nth := C, ldc, ith, nth;
      this.p, this.hits := p, hits;
    }

    ghost predicate Valid() {
      p == Problem(k, A, lda, B, ldb, ldc, p.m, p.n) && ith < nth && Fits(p, C.Length)
    }

    /** All cells of the tile have the products of columns 0 to l, lane by lane. */
    ghost predicate Filled(Cv: array2<Vector>, ii: nat, jj: nat, l: nat)
      requires Valid() && ii + Cv.Length1 <= p.m && jj + Cv.Length0 <= p.n && l % KN == 0 && l <= Padded(k)
      reads Cv
    {
      forall j: nat, i: nat :: j < Cv.Length0 && i < Cv.Length1 ==> FilledAt(Cv[j, i], ii + i, jj + j, l)
    }

    ghost predicate FilledAt(v: Vector, i: nat, j: nat, l: nat)
      requires Valid() && i < p.m && j < p.n && l % KN == 0 && l <= Padded(k)
    {
      Lanes(v, A, Start(lda, i), B, Start(ldb, j), l)
    }

    method AddCell(v: Vector, i: nat, j: nat, l: nat) returns (r: Vector)
      requires Valid() && i < p.m && j < p.n && l % KN == 0 && l + KN <= Padded(k) && FilledAt(v, i, j, l)
      ensures FilledAt(r, i, j, l + KN)
    {
      assert Start(lda, i) + Padded(k) <= |A| && Start(ldb, j) + Padded(k) <= |B|;
      r := AddBlock(A, lda * i, B, ldb * j, l, v);
    }

    /** The two inner loops: the next eight columns for every cell of the tile. */
    method Accumulate(Cv: array2<Vector>, ii: nat, jj: nat, l: nat)
      requires Valid() && ii + Cv.Length1 <= p.m && jj + Cv.Length0 <= p.n && l % KN == 0 && l + KN <= Padded(k)
      requires Filled(Cv, ii, jj, l)
      modifies Cv
      ensures Filled(Cv, ii, jj, l + KN)
    {
      var j := 0;
      while j < Cv.Length0
        invariant j <= Cv.Length0
        invariant forall q: nat, i: nat :: q < j && i < Cv.Length1 ==> FilledAt(Cv[q, i], ii + i, jj + q, l + KN)
        invariant forall q: nat, i: nat :: j <= q < Cv.Length0 && i < Cv.Length1 ==> Cv[q, i] == old(Cv[q, i])
      {
        AccumulateRow(Cv, ii, jj, l, j);
        j := j + 1;
      }
    }

    method AccumulateRow(Cv: array2<Vector>, ii: nat, jj: nat, l: nat, j: nat)
      requires Valid() && ii + Cv.Length1 <= p.m && jj + Cv.Length0 <= p.n && l % KN == 0 && l + KN <= Padded(k)
      requires j < Cv.Length0 && forall i: nat :: i < Cv.Length1 ==> FilledAt(Cv[j, i], ii + i, jj + j, l)
      modifies Cv
      ensures forall i: nat :: i < Cv.Length1 ==> FilledAt(Cv[j, i], ii + i, jj + j, l + KN)
      ensures forall q: nat, i: nat :: q < Cv.Length0 && i < Cv.Length1 && q != j ==> Cv[q, i] == old(Cv[q, i])
    {
      var i := 0;
      while i < Cv.Length1
        invariant i <= Cv.Length1
        invariant forall r: nat :: r < i ==> FilledAt(Cv[j, r], ii + r, jj + j, l + KN)
        invariant forall r: nat :: i <= r < Cv.Length1 ==> Cv[j, r] == old(Cv[j, r])
        invariant forall q: nat, r: nat :: q < Cv.Length0 && r < Cv.Length1 && q != j ==> Cv[q, r] == old(Cv[q, r])
      {
        var v := AddCell(Cv[j, i], ii + i, jj + j, l);
        Cv[j, i] := v;
        i := i + 1;
      }
    }

    method StoreCell(v: Vector, i: nat, j: nat)
      requires Valid() && i < p.m && j < p.n && FilledAt(v, i, j, Padded(k))
      modifies C, this`hits
      ensures var x := Start(ldc, j) + i; Effect(p, old(C[..]), old(hits), C[..], hits, {x})
    {
      LanesSum(v, A, Start(lda, i), B, Start(ldb, j), Padded(k));
      ghost var x := Start(ldc, j) + i;
      CellAt(p, i, j, x);
      var sum := Hsum(v);
      C[ldc * j + i] := sum;
      hits := hits + multiset{(x, sum)};
    }

    method StoreTile(Cv: array2<Vector>, ii: nat, jj: nat)
      requires Valid() && ii + Cv.Length1 <= p.m && jj + Cv.Length0 <= p.n && Filled(Cv, ii, jj, Padded(k))
      modifies C, this`hits
      ensures Effect(p, old(C[..]), old(hits), C[..], hits, TileCells(p, C.Length, ii, jj, Cv.Length1, Cv.Length0))
    {
      ghost var c0, h0 := C[..], hits;
      var j := 0;
      while j < Cv.Length0
        invariant j <= Cv.Length0
        invariant Effect(p, c0, h0, C[..], hits, TilePart(p, C.Length, ii, jj, Cv.Length1, jj + j, ii))
      {
        var row := Row(Cv, j, ii, jj);
        StoreRow(row, ii, jj, jj + j, c0, h0);
        j := j + 1;
      }
      TileStored(p, C.Length, ii, jj, Cv.Length1, Cv.Length0);
    }

    /** A row of the accumulators. */
    method Row(Cv: array2<Vector>, j: nat, ghost ii: nat, ghost jj: nat) returns (row: seq<Vector>)
      requires Valid() && ii + Cv.Length1 <= p.m && jj + Cv.Length0 <= p.n && Filled(Cv, ii, jj, Padded(k))
      requires j < Cv.Length0
      ensures |row| == Cv.Length1 && forall i :: 0 <= i < |row| ==> FilledAt(row[i], ii + i, jj + j, Padded(k))
    {
      row := seq(Cv.Length1, i requires 0 <= i < Cv.Length1 reads Cv => Cv[j, i]);
    }

    method StoreRow(row: seq<Vector>, ii: nat, ghost jj: nat, j: nat, ghost c0: seq<real>, ghost h0: Stores)
      requires Valid() && ii + |row| <= p.m && jj <= j < p.n
      requires forall i :: 0 <= i < |row| ==> FilledAt(row[i], ii + i, j, Padded(k))
      requires Effect(p, c0, h0, C[..], hits, TilePart(p, C.Length, ii, jj, |row|, j, ii))
      modifies C, this`hits
      ensures Effect(p, c0, h0, C[..], hits, TilePart(p, C.Length, ii, jj, |row|, j + 1, ii))
    {
      var i := 0;
      ghost var at := ii;
      while i < |row|
        invariant i <= |row| && at == ii + i
        invariant Effect(p, c0, h0, C[..], hits, TilePart(p, C.Length, ii, jj, |row|, j, at))
      {
        assert FilledAt(row[i], at, j, Padded(k));
        StoreNext(row[i], ii + i, j, ii, jj, |row|, c0, h0);
        i, at := i + 1, at + 1;
      }
      RowStored(p, C.Length, ii, jj, |row|, j);
    }

    method StoreNext(v: Vector, i: nat, j: nat, ghost ii: nat, ghost jj: nat, ghost rm: nat, ghost c0: seq<real>,
                     ghost h0: Stores)
      requires Valid() && i < p.m && j < p.n && FilledAt(v, i, j, Padded(k)) && jj <= j && ii <= i < ii + rm <= p.m
      requires Effect(p, c0, h0, C[..], hits, TilePart(p, C.Length, ii, jj, rm, j, i))
      modifies C, this`hits
      ensures Effect(p, c0, h0, C[..], hits, TilePart(p, C.Length, ii, jj, rm, j, i + 1))
    {
      ghost var c1, h1, x := C[..], hits, Start(ldc, j) + i;
      StoreCell(v, i, j);
      NextCell(p, C.Length, ii, jj, rm, j, i, x);
      EffectThen(p, c0, h0, c1, h1, C[..], hits, TilePart(p, C.Length, ii, jj, rm, j, i), {x},
                 TilePart(p, C.Length, ii, jj, rm, j, i + 1));
    }

    /** One job. */
    method Tile(ii: nat, jj: nat, rm: nat, rn: nat)
      requires Valid() && ii + rm <= p.m && jj + rn <= p.n
      modifies C, this`hits
      ensures Effect(p, old(C[..]), old(hits), C[..], hits, TileCells(p, C.Length, ii, jj, rm, rn))
    {
      var Cv := new Vector[rn, rm]((j, i) => ZERO);
      AccumulateAll(Cv, ii, jj);
      StoreTile(Cv, ii, jj);
    }

    /** All columns, eight at a time. */
    method AccumulateAll(Cv: array2<Vector>, ii: nat, jj: nat)
      requires Valid() && ii + Cv.Length1 <= p.m && jj + Cv.Length0 <= p.n
      requires forall j, i :: 0 <= j < Cv.Length0 && 0 <= i < Cv.Length1 ==> Cv[j, i] == ZERO
      modifies Cv
      ensures Filled(Cv, ii, jj, Padded(k))
    {
      var l := 0;
      while l < k
        invariant l % KN == 0 && l <= Padded(k) && Filled(Cv, ii, jj, l)
      {
        NextBlock(k, l);
        Accumulate(Cv, ii, jj, l);
        l := l + KN;
      }
      PaddedIs(k, l);
    }

    /** The jobs of this thread on the whole tiles of a rectangle. */
    method Gemm(rm: nat, rn: nat, m0: nat, m: nat, n0: nat, n: nat)
      requires Valid() && 0 < rm && 0 < rn && m0 <= m <= p.m && n0 <= n <= p.n
      modifies C, this`hits
      ensures Effect(p, old(C[..]), old(hits), C[..], hits,
                     ThreadCells(p, C.Length, TileGrid(m0, m - m0, n0, n - n0, rm, rn), ith, nth))
    {
      var ytiles := (m - m0) / rm;
      var xtiles := (n - n0) / rn;
      GridFits(m - m0, n - n0, rm, rn);
      GemmJobs(rm, rn, m0, n0, ytiles, xtiles);
    }

    method GemmJobs(rm: nat, rn: nat, m0: nat, n0: nat, ytiles: nat, xtiles: nat)
      requires Valid() && InProblem(p, Grid(m0, n0, ytiles, xtiles, rm, rn))
      modifies C, this`hits
      ensures Effect(p, old(C[..]), old(hits), C[..], hits,
                     ThreadCells(p, C.Length, Grid(m0, n0, ytiles, xtiles, rm, rn), ith, nth))
    {
      var start, end := Share(xtiles * ytiles);
      ghost var g := Grid(m0, n0, ytiles, xtiles, rm, rn);
      ghost var c0, h0 := C[..], hits;
      var job := start;
      while job < end
        invariant start <= job && (job <= end || job == start)
        invariant Effect(p, c0, h0, C[..], hits, JobCells(p, C.Length, g, start, job))
      {
        DoJob(m0, n0, xtiles, rm, rn, job, g, start, c0, h0);
        job := job + 1;
      }
      AllJobs(p, C.Length, g, ith, nth, start, end, job);
    }

    /** The range of jobs for this thread, by ceiling division. */
    method Share(tiles: nat) returns (start: nat, end: nat)
      requires ith < nth
      ensures Shared(tiles, ith, nth, start, end)
    {
      var duty := (tiles + nth - 1) / nth;
      start := duty * ith;
      end := start + duty;
      if end > tiles {
        end := tiles;
      }
    }

    method DoJob(m0: nat, n0: nat, xtiles: nat, rm: nat, rn: nat, job: nat,
                 ghost g: Grid, ghost start: nat, ghost c0: seq<real>, ghost h0: Stores)
      requires Valid() && g == Grid(m0, n0, g.yt, xtiles, rm, rn) && InProblem(p, g)
      requires start <= job < Jobs(g.yt, xtiles)
      requires Effect(p, c0, h0, C[..], hits, JobCells(p, C.Length, g, start, job))
      modifies C, this`hits
      ensures Effect(p, c0, h0, C[..], hits, JobCells(p, C.Length, g, start, job + 1))
    {
      ghost var c1, h1 := C[..], hits;
      TileInside(job, g.yt, xtiles, rm, rn);
      var ii: int := m0 + job / xtiles * rm;
      var jj: int := n0 + job % xtiles * rn;
      Tile(ii, jj, rm, rn);
      NextJob(p, C.Length, g, start, job, ii, jj);
      EffectThen(p, c0, h0, c1, h1, C[..], hits, JobCells(p, C.Length, g, start, job),
                 TileCells(p, C.Length, ii, jj, rm, rn), JobCells(p, C.Length, g, start, job + 1));
    }

    /** The whole tiles of a rectangle, and where they end. */
    method DoTiles(m0: nat, m: nat, n0: nat, n: nat, ghost h: nat, ghost w: nat) returns (mp: nat, np: nat)
      requires Valid() && m0 < m <= p.m && n0 < n <= p.n && h == m - m0 && w == n - n0
      modifies C, this`hits
      ensures mp == m0 + TiledH(h, w) && np == n0 + TiledW(h, w)
      ensures Effect(p, old(C[..]), old(hits), C[..], hits, TilesOf(p, C.Length, ith, nth, m0, h, n0, w))
    {
      var mc, nc := 1, 1;
      if m - m0 >= 4 && n - n0 >= 3 {
        mc, nc := 4, 3;
      }
      assert mc == TileRows(h, w) && nc == TileCols(h, w);
      Gemm(mc, nc, m0, m, n0, n);
      mp := m0 + (m - m0) / mc * mc;
      np := n0 + (n - n0) / nc * nc;
    }

    /** Splits a rectangle, h high and w wide, into whole tiles, the rows below and the
        columns beside. */
    method Mnpack(m0: nat, m: int, n0: nat, n: int, ghost h: nat, ghost w: nat)
      requires Valid() && m <= p.m && n <= p.n && h == Positive(m - m0) && w == Positive(n - n0)
      modifies C, this`hits
      ensures Effect(p, old(C[..]), old(hits), C[..], hits, RectCells(p, C.Length, ith, nth, m0, h, n0, w))
      decreases h + w
    {
      ghost var c0, h0 := C[..], hits;
      if m - m0 <= 0 || n - n0 <= 0 {
        NoCells(p, C.Length, ith, nth, m0, h, n0, w, c0, h0);
        return;
      }
      var mp, np := DoTiles(m0, m, n0, n, h, w);
      ghost var c1, h1 := C[..], hits;
      Mnpack(mp, m, n0, np, h - TiledH(h, w), TiledW(h, w));
      ghost var c2, h2 := C[..], hits;
      Mnpack(m0, m, np, n, h, w - TiledW(h, w));
      RectDone(p, C.Length, ith, nth, m0, h, n0, w, mp, np, c0, h0, c1, h1, c2, h2, C[..], hits);
    }

    method Matmul(m: int, n: int)
      requires Valid() && m <= p.m && n <= p.n
      modifies C, this`hits
      ensures Effect(p, old(C[..]), old(hits), C[..], hits,
                     RectCells(p, C.Length, ith, nth, 0, Positive(m), 0, Positive(n)))
    {
      Mnpack(0, m, 0, n, Positive(m), Positive(n));
    }
  }

  lemma RowStored(p: Problem, len: nat, ii: nat, jj: nat, rm: nat, j: nat)
    ensures TilePart(p, len, ii, jj, rm, j, ii + rm) == TilePart(p, len, ii, jj, rm, j + 1, ii)
  {
  }

  lemma TileStored(p: Problem, len: nat, ii: nat, jj: nat, rm: nat, rn: nat)
    ensures TilePart(p, len, ii, jj, rm, jj + rn, ii) == TileCells(p, len, ii, jj, rm, rn)
  {
  }

  lemma NextCell(p: Problem, len: nat, ii: nat, jj: nat, rm: nat, j: nat, i: nat, x: nat)
    requires Fits(p, len) && jj <= j < p.n && ii <= i < ii + rm <= p.m && x == Start(p.ldc, j) + i
    ensures x !in TilePart(p, len, ii, jj, rm, j, i)
    ensures TilePart(p, len, ii, jj, rm, j, i + 1) == TilePart(p, len, ii, jj, rm, j, i) + {x}
  {
    forall y: nat { CellAt(p, i, j, y); }
  }

  // ----- the jobs of a rectangle -----

  /** A grid of yt by xt tiles, each rm by rn cells, with its corner at (m0, n0). */
  datatype Grid = Grid(m0: nat, n0: nat, yt: nat, xt: nat, rm: nat, rn: nat)

  ghost function TileGrid(m0: nat, h: nat, n0: nat, w: nat, rm: nat, rn: nat): Grid
    requires 0 < rm && 0 < rn
  {
    Grid(m0, n0, h / rm, w / rn, rm, rn)
  }

  ghost predicate InProblem(p: Problem, g: Grid) {
    0 < g.rm && 0 < g.rn && g.m0 + g.yt * g.rm <= p.m && g.n0 + g.xt * g.rn <= p.n
  }

  /** The tile a cell lies in, counted from the corner of the grid. */
  ghost function TileY(p: Problem, g: Grid, x: nat): int
    requires 0 < g.rm
  {
    (CellI(p, x) - g.m0) / g.rm
  }

  ghost function TileX(p: Problem, g: Grid, x: nat): int
    requires 0 < g.rn
  {
    (CellJ(p, x) - g.n0) / g.rn
  }

  ghost predicate InGrid(p: Problem, g: Grid, x: nat) {
    0 < g.rm && 0 < g.rn && 0 <= TileY(p, g, x) < g.yt && 0 <= TileX(p, g, x) < g.xt
  }

  ghost function CellJob(p: Problem, g: Grid, x: nat): int
    requires InGrid(p, g, x)
  {
    TileY(p, g, x) * g.xt + TileX(p, g, x)
  }

  ghost function JobCells(p: Problem, len: nat, g: Grid, lo: nat, hi: nat): set<nat> {
    set x: nat | x < len && InGrid(p, g, x) && lo <= CellJob(p, g, x) < hi
  }

  /** The cells of a grid that belong to a thread. */
  ghost function ThreadCells(p: Problem, len: nat, g: Grid, ith: nat, nth: nat): set<nat>
    requires nth > 0
  {
    set x: nat | x < len && InGrid(p, g, x) && InThread(ith, nth, CellJob(p, g, x), Jobs(g.yt, g.xt))
  }

  ghost predicate InThread(ith: nat, nth: nat, job: int, tiles: nat)
    requires nth > 0
  {
    0 <= job < tiles && ThreadOf(job, tiles, nth) == ith
  }

  lemma GridFits(h: nat, w: nat, rm: nat, rn: nat)
    requires 0 < rm && 0 < rn
    ensures h / rm * rm <= h && w / rn * rn <= w
  {
    DivIs(h, h / rm, rm);
    DivIs(w, w / rn, rn);
  }

  lemma TileInside(job: nat, yt: nat, xt: nat, rm: nat, rn: nat)
    requires job < Jobs(yt, xt)
    ensures 0 < xt && 0 <= job / xt * rm && 0 <= job % xt * rn
    ensures job / xt * rm + rm <= yt * rm && job % xt * rn + rn <= xt * rn
  {
    assert xt * yt == yt * xt && xt != 0;
    InTiles(job, yt, xt);
    TileEdge(job / xt, yt, rm);
    TileEdge(job % xt, xt, rn);
  }

  lemma TileEdge(q: nat, tiles: nat, r: nat)
    requires q < tiles
    ensures 0 <= q * r && q * r + r <= tiles * r
  {
    Monotone(q + 1, tiles, r);
    assert (q + 1) * r == q * r + r;
  }

  lemma NextJob(p: Problem, len: nat, g: Grid, start: nat, job: nat, ii: int, jj: int)
    requires 0 < g.rm && 0 < g.rn && start <= job < Jobs(g.yt, g.xt) && 0 < g.xt
    requires ii == g.m0 + job / g.xt * g.rm && jj == g.n0 + job % g.xt * g.rn
    ensures JobCells(p, len, g, start, job) !! TileCells(p, len, ii, jj, g.rm, g.rn)
    ensures JobCells(p, len, g, start, job + 1)
         == JobCells(p, len, g, start, job) + TileCells(p, len, ii, jj, g.rm, g.rn)
  {
    forall c: nat | c < len
      ensures c in TileCells(p, len, ii, jj, g.rm, g.rn) <==> InGrid(p, g, c) && CellJob(p, g, c) == job
    {
      TileOfJob(p, len, g, job, ii, jj, c);
    }
  }

  lemma TileOfJob(p: Problem, len: nat, g: Grid, job: nat, ii: int, jj: int, c: nat)
    requires 0 < g.rm && 0 < g.rn && job < Jobs(g.yt, g.xt) && 0 < g.xt && c < len
    requires ii == g.m0 + job / g.xt * g.rm && jj == g.n0 + job % g.xt * g.rn
    ensures c in TileCells(p, len, ii, jj, g.rm, g.rn) <==> InGrid(p, g, c) && CellJob(p, g, c) == job
  {
    DivIs(CellI(p, c) - g.m0, job / g.xt, g.rm);
    DivIs(CellJ(p, c) - g.n0, job % g.xt, g.rn);
    PairOrOutside(TileY(p, g, c), TileX(p, g, c), g.yt, g.xt, job);
  }

  lemma TileRange(d: int, tiles: nat, r: nat)
    requires r > 0
    ensures 0 <= d < tiles * r <==> 0 <= d / r < tiles
  {
    DivIs(d, d / r, r);
    if d / r < tiles {
      Monotone(d / r + 1, tiles, r);
    } else {
      Monotone(tiles, d / r, r);
    }
  }

  lemma PairOrOutside(q: int, r: int, yt: nat, xt: nat, job: nat)
    requires job < Jobs(yt, xt) && 0 < xt
    ensures q == job / xt && r == job % xt <==> 0 <= q < yt && 0 <= r < xt && q * xt + r == job
  {
    InTiles(job, yt, xt);
    if 0 <= q && 0 <= r < xt {
      PairIndex(q, r, xt, job);
    }
  }

  /** The range of jobs of a thread holds exactly the jobs that belong to it. */
  lemma MyJobs(j: nat, tiles: nat, ith: nat, nth: nat)
    requires j < tiles && ith < nth
    ensures Duty(tiles, nth) * ith <= j < Duty(tiles, nth) * ith + Duty(tiles, nth) <==> ThreadOf(j, tiles, nth) == ith
  {
    DutyCovers(tiles, nth);
    DivIs(j, ith, Duty(tiles, nth));
    assert ith * Duty(tiles, nth) == Duty(tiles, nth) * ith;
  }

  ghost predicate Shared(tiles: nat, ith: nat, nth: nat, start: nat, end: nat)
    requires nth > 0
  {
    && start == Duty(tiles, nth) * ith && end <= tiles && end <= start + Duty(tiles, nth)
    && (end == tiles || end == start + Duty(tiles, nth))
  }

  lemma AllJobs(p: Problem, len: nat, g: Grid, ith: nat, nth: nat, start: nat, end: nat, job: nat)
    requires ith < nth && Shared(Jobs(g.yt, g.xt), ith, nth, start, end)
    requires start <= job && end <= job && (job == start || job <= end)
    ensures JobCells(p, len, g, start, job) == ThreadCells(p, len, g, ith, nth)
  {
    var tiles := Jobs(g.yt, g.xt);
    forall x: nat | x < len && InGrid(p, g, x)
      ensures start <= CellJob(p, g, x) < job <==> InThread(ith, nth, CellJob(p, g, x), tiles)
    {
      CellInTiles(p, g, x);
      MyJobs(CellJob(p, g, x), tiles, ith, nth);
    }
  }

  lemma CellInTiles(p: Problem, g: Grid, x: nat)
    requires InGrid(p, g, x)
    ensures 0 <= CellJob(p, g, x) < Jobs(g.yt, g.xt)
  {
    PairBelow(TileY(p, g, x), TileX(p, g, x), g.yt, g.xt);
  }

  // ----- the recursion on rectangles -----

  function Positive(x: int): nat { if x < 0 then 0 else x }

  lemma EffectThrice(p: Problem, c0: seq<real>, h0: Stores, c1: seq<real>, h1: Stores,
                     c2: seq<real>, h2: Stores, c3: seq<real>, h3: Stores,
                     a: set<nat>, b: set<nat>, c: set<nat>, all: set<nat>)
    requires Effect(p, c0, h0, c1, h1, a) && Effect(p, c1, h1, c2, h2, b) && Effect(p, c2, h2, c3, h3, c)
    requires a !! b !! c && all == a + b + c
    ensures Effect(p, c0, h0, c3, h3, all)
  {
    EffectThen(p, c0, h0, c1, h1, c2, h2, a, b, a + b);
    EffectThen(p, c0, h0, c2, h2, c3, h3, a + b, c, all);
  }

  ghost function TilesOf(p: Problem, len: nat, ith: nat, nth: nat, m0: nat, h: nat, n0: nat, w: nat): set<nat>
    requires nth > 0
  {
    ThreadCells(p, len, GridOf(m0, h, n0, w), ith, nth)
  }

  ghost function GridOf(m0: nat, h: nat, n0: nat, w: nat): Grid {
    TileGrid(m0, h, n0, w, TileRows(h, w), TileCols(h, w))
  }

  lemma RectSplit(p: Problem, len: nat, ith: nat, nth: nat, m0: nat, h: nat, n0: nat, w: nat)
    requires nth > 0 && h > 0 && w > 0
    ensures var mp, np := TiledH(h, w), TiledW(h, w);
      var tiles := TilesOf(p, len, ith, nth, m0, h, n0, w);
      var below := RectCells(p, len, ith, nth, m0 + mp, h - mp, n0, np);
      var beside := RectCells(p, len, ith, nth, m0, h, n0 + np, w - np);
      tiles !! below !! beside && RectCells(p, len, ith, nth, m0, h, n0, w) == tiles + below + beside
  {
    var mp, np := TiledH(h, w), TiledW(h, w);
    forall x: nat
      ensures InGrid(p, GridOf(m0, h, n0, w), x) <==> m0 <= CellI(p, x) < m0 + mp && n0 <= CellJ(p, x) < n0 + np
      ensures InGrid(p, GridOf(m0, h, n0, w), x) && x < len ==>
        (x in TilesOf(p, len, ith, nth, m0, h, n0, w)
         <==> TileOwner(nth, h, w, CellI(p, x) - m0, CellJ(p, x) - n0) == ith)
    {
      TiledCell(p, len, ith, nth, m0, h, n0, w, x);
    }
  }

  lemma RectDone(p: Problem, len: nat, ith: nat, nth: nat, m0: nat, h: nat, n0: nat, w: nat, mp: nat, np: nat,
                 c0: seq<real>, h0: Stores, c1: seq<real>, h1: Stores,
                 c2: seq<real>, h2: Stores, c3: seq<real>, h3: Stores)
    requires nth > 0 && h > 0 && w > 0 && mp == m0 + TiledH(h, w) && np == n0 + TiledW(h, w)
    requires Effect(p, c0, h0, c1, h1, TilesOf(p, len, ith, nth, m0, h, n0, w))
    requires Effect(p, c1, h1, c2, h2, RectCells(p, len, ith, nth, mp, h - TiledH(h, w), n0, TiledW(h, w)))
    requires Effect(p, c2, h2, c3, h3, RectCells(p, len, ith, nth, m0, h, np, w - TiledW(h, w)))
    ensures Effect(p, c0, h0, c3, h3, RectCells(p, len, ith, nth, m0, h, n0, w))
  {
    RectSplit(p, len, ith, nth, m0, h, n0, w);
    EffectThrice(p, c0, h0, c1, h1, c2, h2, c3, h3, TilesOf(p, len, ith, nth, m0, h, n0, w),
                 RectCells(p, len, ith, nth, mp, h - TiledH(h, w), n0, TiledW(h, w)),
                 RectCells(p, len, ith, nth, m0, h, np, w - TiledW(h, w)),
                 RectCells(p, len, ith, nth, m0, h, n0, w));
  }

  lemma NoCells(p: Problem, len: nat, ith: nat, nth: nat, m0: nat, h: nat, n0: nat, w: nat, c: seq<real>, hits: Stores)
    requires nth > 0 && (h == 0 || w == 0)
    ensures Effect(p, c, hits, c, hits, RectCells(p, len, ith, nth, m0, h, n0, w))
  {
    assert RectCells(p, len, ith, nth, m0, h, n0, w) == {};
  }

  lemma TiledCell(p: Problem, len: nat, ith: nat, nth: nat, m0: nat, h: nat, n0: nat, w: nat, x: nat)
    requires nth > 0 && h > 0 && w > 0
    ensures InGrid(p, GridOf(m0, h, n0, w), x)
      <==> m0 <= CellI(p, x) < m0 + TiledH(h, w) && n0 <= CellJ(p, x) < n0 + TiledW(h, w)
    ensures InGrid(p, GridOf(m0, h, n0, w), x) && x < len ==>
      (x in TilesOf(p, len, ith, nth, m0, h, n0, w)
       <==> TileOwner(nth, h, w, CellI(p, x) - m0, CellJ(p, x) - n0) == ith)
  {
    var g := GridOf(m0, h, n0, w);
    TileRange(CellI(p, x) - m0, g.yt, g.rm);
    TileRange(CellJ(p, x) - n0, g.xt, g.rn);
    if InGrid(p, g, x) {
      CellInTiles(p, g, x);
    }
  }

  // ----- all threads -----

  ghost function AllCells(p: Problem, len: nat): set<nat> {
    set x: nat | x < len && CellI(p, x) < p.m && CellJ(p, x) < p.n
  }

  /** The cells of the threads before `t`. */
  ghost function CellsBefore(p: Problem, len: nat, nth: nat, t: nat): set<nat>
    requires nth > 0
  {
    set x: nat | x < len && CellI(p, x) < p.m && CellJ(p, x) < p.n && Owner(nth, p.m, p.n, CellI(p, x), CellJ(p, x)) < t
  }

  /** The product over all threads: every cell is stored exactly once. */
  method Sgemm(m: int, n: int, k: int, A: seq<real>, lda: nat, B: seq<real>, ldb: nat, C: array<real>, ldc: nat,
               nth: nat)
    returns (ghost hits: Stores)
    requires nth > 0 && Fits(Problem(k, A, lda, B, ldb, ldc, Positive(m), Positive(n)), C.Length)
    modifies C
    ensures var p := Problem(k, A, lda, B, ldb, ldc, Positive(m), Positive(n));
      Effect(p, old(C[..]), multiset{}, C[..], hits, AllCells(p, C.Length))
  {
    ghost var p := Problem(k, A, lda, B, ldb, ldc, Positive(m), Positive(n));
    ghost var c0 := C[..];
    hits := multiset{};
    var ith := 0;
    while ith < nth
      invariant ith <= nth && Effect(p, c0, multiset{}, C[..], hits, CellsBefore(p, C.Length, nth, ith))
    {
      ghost var c1 := C[..];
      var tb := new AnsiBlas(k, A, lda, B, ldb, C, ldc, ith, nth, p, hits);
      tb.Matmul(m, n);
      EffectThen(p, c0, multiset{}, c1, hits, C[..], tb.hits, CellsBefore(p, C.Length, nth, ith),
                 RectCells(p, C.Length, ith, nth, 0, p.m, 0, p.n), CellsBefore(p, C.Length, nth, ith + 1));
      hits := tb.hits;
      ith := ith + 1;
    }
    assert CellsBefore(p, C.Length, nth, nth) == AllCells(p, C.Length);
  }

  /** Exactly one store goes to element x, with value v. */
  ghost predicate StoredOnce(hits: Stores, x: nat, v: real) {
    forall w: (nat, real) :: w.0 == x ==> hits[w] == if w.1 == v then 1 else 0
  }

  /** What that means for one cell, for any k; the plain product when k is a multiple
      of eight. */
  lemma CellIsProduct(p: Problem, c0: seq<real>, c1: seq<real>, hits: Stores, i: nat, j: nat)
    requires Fits(p, |c0|) && Effect(p, c0, multiset{}, c1, hits, AllCells(p, |c0|)) && i < p.m && j < p.n
    ensures Start(p.ldc, j) + i < |c1|
    ensures Start(p.lda, i) + Padded(p.k) <= |p.A| && Start(p.ldb, j) + Padded(p.k) <= |p.B|
    ensures c1[Start(p.ldc, j) + i] == Dot(p.A, Start(p.lda, i), p.B, Start(p.ldb, j), Padded(p.k))
    ensures StoredOnce(hits, Start(p.ldc, j) + i, c1[Start(p.ldc, j) + i])
    ensures p.k >= 0 && p.k % KN == 0 ==> Padded(p.k) == p.k
  {
    var x := Start(p.ldc, j) + i;
    assert Start(p.ldc, j) + p.m <= |c0|;
    CellAt(p, i, j, x);
    CellOfAll(p, c0, c1, hits, x);
    PaddedIsK(p.k);
  }

  lemma PaddedIsK(k: int)
    ensures k >= 0 && k % KN == 0 ==> Padded(k) == k
  {
  }

  lemma CellOfAll(p: Problem, c0: seq<real>, c1: seq<real>, hits: Stores, x: nat)
    requires Effect(p, c0, multiset{}, c1, hits, AllCells(p, |c0|)) && x in AllCells(p, |c0|)
    ensures c1[x] == Product(p, x) && StoredOnce(hits, x, c1[x])
  {
  }

  /** The recorded stores of all threads, made in some order. */
  function StoreAll(c: seq<real>, ws: seq<(nat, real)>): (r: seq<real>)
    requires forall q :: 0 <= q < |ws| ==> ws[q].0 < |c|
    ensures |r| == |c|
  {
    if ws == [] then c
    else
      var n := |ws| - 1;
      StoreAll(c, ws[..n])[ws[n].0 := ws[n].1]
  }

  /** The last store to an element decides; here all stores to it agree. */
  lemma {:induction false} StoreAllAt(c: seq<real>, ws: seq<(nat, real)>, x: nat, v: real)
    requires (forall q :: 0 <= q < |ws| ==> ws[q].0 < |c|) && x < |c|
    requires forall q :: 0 <= q < |ws| && ws[q].0 == x ==> ws[q].1 == v
    ensures StoreAll(c, ws)[x] == if (x, v) in ws then v else c[x]
  {
    if ws != [] {
      var n := |ws| - 1;
      StoreAllAt(c, ws[..n], x, v);
      assert ws == ws[..n] + [ws[n]];
      if ws[n].0 == x { assert ws[n] == (x, v); }
    }
  }

  /** However the stores that the threads recorded are interleaved, C ends up the same as
      when the threads run in turn.  No thread reads C, so none of the stored values
      depends on the order. */
  lemma AnySchedule(p: Problem, c0: seq<real>, c1: seq<real>, hits: Stores, ws: seq<(nat, real)>)
    requires Effect(p, c0, multiset{}, c1, hits, AllCells(p, |c0|)) && multiset(ws) == hits
    ensures forall q :: 0 <= q < |ws| ==> ws[q].0 < |c0|
    ensures StoreAll(c0, ws) == c1
  {
    forall q | 0 <= q < |ws| ensures ws[q].0 in AllCells(p, |c0|) && ws[q].1 == Product(p, ws[q].0) {
      assert ws[q] in multiset(ws);
      assert hits[ws[q]] > 0;
    }
    forall x: nat | x < |c0| ensures StoreAll(c0, ws)[x] == c1[x] {
      StoreAllAt(c0, ws, x, Product(p, x));
      assert (x, Product(p, x)) in ws <==> multiset(ws)[(x, Product(p, x))] > 0;
    }
  }
}
