/** The tiled, thread-split matrix product, over exact arithmetic. */
module Blas {

  // ----- vectors of eight lanes -----

  const KN := 8

  type Vector = v: seq<real> | |v| == KN witness [0.0, 0.0, 0.0, 0.0, 0.0, 0.0, 0.0, 0.0]

  const ZERO: Vector := [0.0, 0.0, 0.0, 0.0, 0.0, 0.0, 0.0, 0.0]

  function Sum(x: seq<real>): real {
    if x == [] then 0.0 else Sum(x[..|x| - 1]) + x[|x| - 1]
  }

  method Load(p: seq<real>, at: nat) returns (x: Vector)
    requires at + KN <= |p|
    ensures x == p[at..at + KN]
  {
    x := ZERO;
    for i := 0 to KN
      invariant forall t :: 0 <= t < i ==> x[t] == p[at + t]
    {
      x := x[i := p[at + i]];
    }
  }

  method Madd(x: Vector, y: Vector, s0: Vector) returns (s: Vector)
    ensures forall t :: 0 <= t < KN ==> s[t] == x[t] * y[t] + s0[t]
  {
    s := s0;
    for i := 0 to KN
      invariant forall t :: 0 <= t < i ==> s[t] == x[t] * y[t] + s0[t]
      invariant forall t :: i <= t < KN ==> s[t] == s0[t]
    {
      s := s[i := x[i] * y[i] + s[i]];
    }
  }

  method Hsum(x: Vector) returns (s: real)
    ensures s == Sum(x)
  {
    s := 0.0;
    for i := 0 to KN
      invariant s == Sum(x[..i])
    {
      SumNext(x, i);
      s := s + x[i];
    }
    assert x[..KN] == x;
  }

  // ----- what a cell should hold -----

  /** Row `i` of A times row `j` of B, up to column `l`. */
  function Dot(A: seq<real>, a: nat, B: seq<real>, b: nat, l: nat): real
    requires a + l <= |A| && b + l <= |B|
  {
    if l == 0 then 0.0 else Dot(A, a, B, b, l - 1) + A[a + l - 1] * B[b + l - 1]
  }

  /** Every eighth term of it. */
  function Lane(A: seq<real>, a: nat, B: seq<real>, b: nat, l: nat, t: nat): real
    requires a + l <= |A| && b + l <= |B| && l % KN == 0 && t < KN
  {
    if l == 0 then 0.0 else A[a + (l - KN) + t] * B[b + (l - KN) + t] + Lane(A, a, B, b, l - KN, t)
  }

  ghost predicate Lanes(v: Vector, A: seq<real>, a: nat, B: seq<real>, b: nat, l: nat)
    requires a + l <= |A| && b + l <= |B| && l % KN == 0
  {
    forall t :: 0 <= t < KN ==> v[t] == Lane(A, a, B, b, l, t)
  }

  lemma SumNext(v: seq<real>, n: nat)
    requires n < |v|
    ensures Sum(v[..n + 1]) == Sum(v[..n]) + v[n]
  {
    assert v[..n + 1][..n] == v[..n];
  }

  lemma SumOfEight(v: Vector)
    ensures Sum(v) == v[0] + v[1] + v[2] + v[3] + v[4] + v[5] + v[6] + v[7]
  {
    SumNext(v, 0);
    SumNext(v, 1);
    SumNext(v, 2);
    SumNext(v, 3);
    SumNext(v, 4);
    SumNext(v, 5);
    SumNext(v, 6);
    SumNext(v, 7);
    assert v[..8] == v;
  }

  function Term(A: seq<real>, a: nat, B: seq<real>, b: nat, l: nat): real
    requires a + l < |A| && b + l < |B|
  {
    A[a + l] * B[b + l]
  }

  lemma DotOfEight(A: seq<real>, a: nat, B: seq<real>, b: nat, l: nat)
    requires a + l + KN <= |A| && b + l + KN <= |B|
    ensures Dot(A, a, B, b, l + KN) == Dot(A, a, B, b, l)
      + Term(A, a, B, b, l) + Term(A, a, B, b, l + 1) + Term(A, a, B, b, l + 2) + Term(A, a, B, b, l + 3)
      + Term(A, a, B, b, l + 4) + Term(A, a, B, b, l + 5) + Term(A, a, B, b, l + 6) + Term(A, a, B, b, l + 7)
  {
    assert Dot(A, a, B, b, l + 4) == Dot(A, a, B, b, l)
      + Term(A, a, B, b, l) + Term(A, a, B, b, l + 1) + Term(A, a, B, b, l + 2) + Term(A, a, B, b, l + 3) by {
      assert Dot(A, a, B, b, l + 1) == Dot(A, a, B, b, l) + Term(A, a, B, b, l);
      assert Dot(A, a, B, b, l + 2) == Dot(A, a, B, b, l + 1) + Term(A, a, B, b, l + 1);
      assert Dot(A, a, B, b, l + 3) == Dot(A, a, B, b, l + 2) + Term(A, a, B, b, l + 2);
    }
    assert Dot(A, a, B, b, l + 5) == Dot(A, a, B, b, l + 4) + Term(A, a, B, b, l + 4);
    assert Dot(A, a, B, b, l + 6) == Dot(A, a, B, b, l + 5) + Term(A, a, B, b, l + 5);
    assert Dot(A, a, B, b, l + 7) == Dot(A, a, B, b, l + 6) + Term(A, a, B, b, l + 6);
  }

  /** Adding up the eight lanes gives the whole product. */
  lemma {:induction false} LanesSum(v: Vector, A: seq<real>, a: nat, B: seq<real>, b: nat, l: nat)
    requires a + l <= |A| && b + l <= |B| && l % KN == 0 && Lanes(v, A, a, B, b, l)
    ensures Sum(v) == Dot(A, a, B, b, l)
    decreases l
  {
    SumOfEight(v);
    if l > 0 {
      var w: Vector := seq(KN, t requires 0 <= t < KN => Lane(A, a, B, b, l - KN, t));
      LanesSum(w, A, a, B, b, l - KN);
      SumOfEight(w);
      DotOfEight(A, a, B, b, l - KN);
      forall t | 0 <= t < KN ensures v[t] == w[t] + Term(A, a, B, b, l - KN + t) {
      }
    }
  }

  // ----- index arithmetic -----

  lemma DivIs(a: int, q: int, d: nat)
    requires d > 0
    ensures q * d <= a < q * d + d <==> a / d == q
  {
    assert a == a / d * d + a % d;
    if a / d == q {
    } else if a / d < q {
      assert (a / d + 1) * d <= q * d;
    } else {
      assert (q + 1) * d <= a / d * d;
    }
  }

  lemma SplitIndex(q: nat, r: nat, d: nat)
    requires r < d
    ensures (d * q + r) / d == q && (d * q + r) % d == r
  {
    DivIs(d * q + r, q, d);
  }

  lemma Monotone(a: int, b: int, d: nat)
    requires a <= b
    ensures a * d <= b * d
  {
  }

  // ----- tiles and threads -----

  /** Tile counts of a rectangle, the jobs each thread gets, and the job of a cell. */
  function Jobs(y: nat, x: nat): nat { x * y }

  function Duty(tiles: nat, nth: nat): nat
    requires nth > 0
  {
    (tiles + nth - 1) / nth
  }

  lemma DutyCovers(tiles: nat, nth: nat)
    requires nth > 0
    ensures tiles <= Duty(tiles, nth) * nth < tiles + nth && (tiles > 0 ==> Duty(tiles, nth) > 0)
  {
    var t := tiles + nth - 1;
    assert t == t / nth * nth + t % nth;
    if tiles > 0 { DivIs(t, t / nth, nth); }
  }

  function JobOf(dy: nat, dx: nat, xtiles: nat, rm: nat, rn: nat): nat
    requires rm > 0 && rn > 0
  {
    dy / rm * xtiles + dx / rn
  }

  lemma PairIndex(q: nat, r: nat, d: nat, job: nat)
    requires r < d
    ensures q * d + r == job <==> job / d == q && job % d == r
  {
    SplitIndex(q, r, d);
    assert job == job / d * d + job % d;
    assert d * q == q * d;
  }

  lemma PairBelow(q: nat, r: nat, n: nat, d: nat)
    requires r < d && q < n
    ensures q * d + r < d * n
  {
    Monotone(q + 1, n, d);
    assert (q + 1) * d == q * d + d && n * d == d * n;
  }

  /** A cell's job, and only that, has the cell in its tile. */
  lemma JobExact(dy: nat, dx: nat, ytiles: nat, xtiles: nat, rm: nat, rn: nat, job: nat)
    requires rm > 0 && rn > 0 && dy < ytiles * rm && dx < xtiles * rn && xtiles > 0
    ensures JobOf(dy, dx, xtiles, rm, rn) < Jobs(ytiles, xtiles)
    ensures JobOf(dy, dx, xtiles, rm, rn) == job <==>
      job / xtiles * rm <= dy < job / xtiles * rm + rm && job % xtiles * rn <= dx < job % xtiles * rn + rn
  {
    InTiles(dy, ytiles, rm);
    InTiles(dx, xtiles, rn);
    DivIs(dy, job / xtiles, rm);
    DivIs(dx, job % xtiles, rn);
    PairIndex(dy / rm, dx / rn, xtiles, job);
    PairBelow(dy / rm, dx / rn, ytiles, xtiles);
  }

  lemma InTiles(d: nat, tiles: nat, r: nat)
    requires r > 0 && d < tiles * r
    ensures d / r < tiles
  {
    DivIs(d, d / r, r);
    if d / r >= tiles { Monotone(tiles, d / r, r); }
  }

  /** The tile shape for a rectangle. */
  function TileRows(h: nat, w: nat): nat { if h >= 4 && w >= 3 then 4 else 1 }

  function TileCols(h: nat, w: nat): nat { if h >= 4 && w >= 3 then 3 else 1 }

  /** Height and width of the part of a rectangle that whole tiles cover. */
  function TiledH(h: nat, w: nat): (r: nat)
    ensures r <= h && (h > 0 && w > 0 ==> r > 0)
  {
    h / TileRows(h, w) * TileRows(h, w)
  }

  function TiledW(h: nat, w: nat): (r: nat)
    ensures r <= w && (h > 0 && w > 0 ==> r > 0)
  {
    w / TileCols(h, w) * TileCols(h, w)
  }

  /** The thread that does a job. */
  function ThreadOf(job: nat, tiles: nat, nth: nat): (r: nat)
    requires job < tiles && nth > 0
    ensures r < nth
  {
    DutyCovers(tiles, nth);
    InTiles(job, nth, Duty(tiles, nth));
    job / Duty(tiles, nth)
  }

  /** The thread that computes cell (i, j) of a rectangle h high and w wide, i and j
      counted from its corner: rectangles are cut into whole tiles, the rows below them
      and the columns beside them. */
  function Owner(nth: nat, h: nat, w: nat, i: nat, j: nat): (r: nat)
    requires nth > 0 && i < h && j < w
    ensures r < nth
    decreases h + w
  {
    var mp, np := TiledH(h, w), TiledW(h, w);
    if j >= np then Owner(nth, h, w - np, i, j - np)
    else if i >= mp then Owner(nth, h - mp, np, i - mp, j)
    else TileOwner(nth, h, w, i, j)
  }

  function TileOwner(nth: nat, h: nat, w: nat, i: nat, j: nat): (r: nat)
    requires nth > 0 && i < TiledH(h, w) && j < TiledW(h, w)
    ensures r < nth
  {
    var rm, rn := TileRows(h, w), TileCols(h, w);
    JobExact(i, j, h / rm, w / rn, rm, rn, 0);
    ThreadOf(JobOf(i, j, w / rn, rm, rn), Jobs(h / rm, w / rn), nth)
  }
}
