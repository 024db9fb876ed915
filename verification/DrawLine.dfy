/** `drawLine`: Bresenham's loop draws exactly the rounded line. */
module DrawLine {

  const SCREEN_WIDTH := 80
  const SCREEN_HEIGHT := 24

  function Abs(x: int): nat { if x < 0 then -x else x }

  function Larger(a: nat, b: nat): nat { if a < b then b else a }

  // ----- the line that is meant -----

  /** `m * k / n`, rounded to the nearest integer, halves up. */
  function Nearest(m: nat, n: nat, k: nat): nat
    requires n > 0
  {
    (2 * m * k + n) / (2 * n)
  }

  /** How far along x and y the k-th pixel of a line from (0, 0) to (a, b) lies. */
  function AlongX(a: nat, b: nat, k: nat): nat { if a >= b then k else Nearest(a, b, k) }

  function AlongY(a: nat, b: nat, k: nat): nat { if b >= a then k else Nearest(b, a, k) }

  function Sign(from: int, to: int): int { if from < to then 1 else -1 }

  function Pixel(x1: int, y1: int, x2: int, y2: int, k: nat): (int, int) {
    var a, b := Abs(x2 - x1), Abs(y2 - y1);
    (x1 + Sign(x1, x2) * AlongX(a, b, k), y1 + Sign(y1, y2) * AlongY(a, b, k))
  }

  function Pixels(x1: int, y1: int, x2: int, y2: int, n: nat): (r: seq<(int, int)>)
    ensures |r| == n && forall k :: 0 <= k < n ==> r[k] == Pixel(x1, y1, x2, y2, k)
  {
    seq(n, k requires 0 <= k => Pixel(x1, y1, x2, y2, k))
  }

  /** Within half a unit, and the only such integer. */
  lemma NearestIs(m: nat, n: nat, k: nat, j: nat)
    requires n > 0
    ensures j == Nearest(m, n, k) <==> 0 <= 2 * (m * k - n * j) + n < 2 * n
  {
    assert 2 * m * k == 2 * (m * k);
    Quotient(2 * (m * k) + n, 2 * n, j);
    assert 2 * n * j == 2 * (n * j);
  }

  lemma Quotient(t: nat, d: nat, j: nat)
    requires d > 0
    ensures j == t / d <==> 0 <= t - d * j < d
  {
    var q := t / d;
    assert t == d * q + t % d;
    if j < q {
      Mul(d, j + 1, q);
      assert d * (j + 1) == d * j + d;
    } else if j > q {
      Mul(d, q + 1, j);
      assert d * (q + 1) == d * q + d;
    }
  }

  lemma Mul(n: nat, x: nat, y: nat)
    requires x <= y
    ensures n * x <= n * y
  {
  }

  /** Both ends lie on the line, and no pixel lies beyond them. */
  lemma NearestEnds(m: nat, n: nat, k: nat)
    requires n > 0
    ensures Nearest(m, n, 0) == 0 && Nearest(m, n, n) == m
    ensures k <= n ==> Nearest(m, n, k) <= m
  {
    NearestIs(m, n, 0, 0);
    assert m * n == n * m;
    NearestIs(m, n, n, m);
    var j := Nearest(m, n, k);
    NearestIs(m, n, k, j);
    assert n * (m + 1) == n * m + n;
    if k <= n {
      Mul(m, k, n);
      if j > m { Mul(n, m + 1, j); }
    }
  }

  /** From one pixel to the next the minor coordinate grows by one exactly when the
      deviation would otherwise reach half a unit. */
  lemma NearestNext(m: nat, n: nat, k: nat)
    requires n > 0 && m <= n
    ensures var j := Nearest(m, n, k);
      Nearest(m, n, k + 1) == if 2 * (m * k - n * j + m) >= n then j + 1 else j
  {
    var j := Nearest(m, n, k);
    NearestIs(m, n, k, j);
    var j1 := if 2 * (m * k - n * j + m) >= n then j + 1 else j;
    assert m * (k + 1) == m * k + m && n * (j + 1) == n * j + n;
    NearestIs(m, n, k + 1, j1);
  }

  /** The two tests of the loop say which coordinates the next pixel moves along. */
  lemma NextPixel(a: nat, b: nat, k: nat, error: int)
    requires k < Larger(a, b) && error == a - b - (b * AlongX(a, b, k) - a * AlongY(a, b, k))
    ensures 2 * error >= -1 * b <==> AlongX(a, b, k + 1) == AlongX(a, b, k) + 1
    ensures 2 * error < -1 * b <==> AlongX(a, b, k + 1) == AlongX(a, b, k)
    ensures 2 * error <= a <==> AlongY(a, b, k + 1) == AlongY(a, b, k) + 1
    ensures 2 * error > a <==> AlongY(a, b, k + 1) == AlongY(a, b, k)
  {
    if a >= b {
      NearestNext(b, a, k);
      NearestIs(b, a, k, Nearest(b, a, k));
    } else {
      NearestNext(a, b, k);
      NearestIs(a, b, k, Nearest(a, b, k));
    }
  }

  /** The line ends at its second end point, and not before. */
  lemma LastPixel(a: nat, b: nat, k: nat)
    requires k <= Larger(a, b)
    ensures AlongX(a, b, k) == a && AlongY(a, b, k) == b <==> k == Larger(a, b)
    ensures AlongX(a, b, k) <= a && AlongY(a, b, k) <= b && AlongX(a, b, 0) == 0 && AlongY(a, b, 0) == 0
  {
    if a > b {
      NearestEnds(b, a, k);
    } else if b > a {
      NearestEnds(a, b, k);
    }
  }

  /** Every pixel is within half a unit of the line, measured along the minor axis. */
  lemma HalfUnit(x1: int, y1: int, x2: int, y2: int, k: nat)
    requires k <= Larger(Abs(x2 - x1), Abs(y2 - y1))
    ensures var p, dx, dy := Pixel(x1, y1, x2, y2, k), x2 - x1, y2 - y1;
      2 * Abs(dx * (p.1 - y1) - dy * (p.0 - x1)) <= Larger(Abs(dx), Abs(dy))
  {
    var a, b := Abs(x2 - x1), Abs(y2 - y1);
    var i, j := AlongX(a, b, k), AlongY(a, b, k);
    if a > b {
      NearestIs(b, a, k, j);
    } else if b > a {
      NearestIs(a, b, k, i);
    }
    var d: int := b * i;
    assert 2 * Abs(a * j - d) <= Larger(a, b);
    Signs(Sign(x1, x2), Sign(y1, y2), a, b, i, j);
    assert x2 - x1 == Sign(x1, x2) * a && y2 - y1 == Sign(y1, y2) * b;
  }

  lemma Signs(s: int, t: int, a: int, b: int, i: int, j: int)
    requires (s == 1 || s == -1) && (t == 1 || t == -1)
    ensures Abs((s * a) * (t * j) - (t * b) * (s * i)) == Abs(a * j - b * i)
  {
    Flip(s, t, a, j);
    Flip(t, s, b, i);
  }

  lemma Flip(s: int, t: int, x: int, y: int)
    requires (s == 1 || s == -1) && (t == 1 || t == -1)
    ensures (s * x) * (t * y) == if s == t then x * y else -(x * y)
  {
    if s == 1 && t == -1 {
      assert x * (-y) == -(x * y);
    } else if s == -1 && t == 1 {
      assert (-x) * y == -(x * y);
    } else if s == -1 && t == -1 {
      assert (-x) * (-y) == x * y;
    }
  }

  /** The variables of the loop at the k-th pixel. */
  ghost predicate At(x1: int, y1: int, x2: int, y2: int, k: nat, x: int, y: int, error: int) {
    var a, b := Abs(x2 - x1), Abs(y2 - y1);
    && (x, y) == Pixel(x1, y1, x2, y2, k)
    && error == a - b - (b * AlongX(a, b, k) - a * AlongY(a, b, k))
  }

  lemma AtNext(x1: int, y1: int, x2: int, y2: int, k: nat, x: int, y: int, error: int)
    requires k < Larger(Abs(x2 - x1), Abs(y2 - y1)) && At(x1, y1, x2, y2, k, x, y, error)
    ensures var a: int, b: int := Abs(x2 - x1), Abs(y2 - y1); var e2 := 2 * error;
      At(x1, y1, x2, y2, k + 1,
         if e2 >= -b then x + Sign(x1, x2) else x, if e2 <= a then y + Sign(y1, y2) else y,
         (if e2 >= -b then error - b else error) + (if e2 <= a then a else 0))
  {
    var a, b := Abs(x2 - x1), Abs(y2 - y1);
    NextPixel(a, b, k, error);
    Step(Sign(x1, x2), b, AlongX(a, b, k));
    Step(Sign(y1, y2), a, AlongY(a, b, k));
  }

  lemma Step(s: int, b: int, i: int)
    ensures s * (i + 1) == s * i + s && b * (i + 1) == b * i + b
  {
  }

  // ----- the loop -----

  class Screen {
    const display: array2<char>

    constructor ()
      ensures Valid() && fresh(display)
    {
      display := new char[SCREEN_HEIGHT, SCREEN_WIDTH]((_, _) => ' ');
    }

    ghost predicate Valid() { display.Length0 == SCREEN_HEIGHT && display.Length1 == SCREEN_WIDTH }

    /** Exactly the cells of `ps` that are on the screen have been set since `was`. */
    twostate predicate Drawn(ps: seq<(int, int)>)
      requires Valid()
      reads display
    {
      forall x, y :: 0 <= x < SCREEN_WIDTH && 0 <= y < SCREEN_HEIGHT ==>
        display[y, x] == if (x, y) in ps then '*' else old(display[y, x])
    }

    method DrawPixel(x: int, y: int)
      requires Valid()
      modifies display
      ensures Drawn([(x, y)])
    {
      if x >= 0 && x < SCREEN_WIDTH && y >= 0 && y < SCREEN_HEIGHT {
        display[y, x] := '*';
      }
    }

    method DrawLine(x1: int, y1: int, x2: int, y2: int) returns (ghost ps: seq<(int, int)>)
      requires Valid()
      modifies display
      ensures ps == Pixels(x1, y1, x2, y2, Larger(Abs(x2 - x1), Abs(y2 - y1)) + 1) && Drawn(ps)
    {
      ghost var n := Larger(Abs(x2 - x1), Abs(y2 - y1));
      var dx, sx := Abs(x2 - x1), if x1 < x2 then 1 else -1;
      var dy: int, sy := -1 * Abs(y2 - y1), if y1 < y2 then 1 else -1;
      var error := dx + dy;
      var x, y := x1, y1;
      ghost var k := 0;
      ps := [];
      AtStart(x1, y1, x2, y2);
      while true
        invariant k <= n && ps == Pixels(x1, y1, x2, y2, k) && Drawn(ps) && At(x1, y1, x2, y2, k, x, y, error)
        decreases n - k
      {
        DrawPixel(x, y);
        ps := ps + [(x, y)];
        AtEnd(x1, y1, x2, y2, k, x, y, error);
        if x == x2 && y == y2 {
          break;
        }
        x, y, error := Advance(x, y, error, dx, dy, sx, sy, x1, y1, x2, y2, k);
        k := k + 1;
      }
    }
  }

  /** The second half of the loop body. */
  method Advance(x0: int, y0: int, error0: int, dx: int, dy: int, sx: int, sy: int,
                 ghost x1: int, ghost y1: int, ghost x2: int, ghost y2: int, ghost k: nat)
    returns (x: int, y: int, error: int)
    requires dx == Abs(x2 - x1) && dy == -1 * Abs(y2 - y1) && sx == Sign(x1, x2) && sy == Sign(y1, y2)
    requires k < Larger(Abs(x2 - x1), Abs(y2 - y1)) && At(x1, y1, x2, y2, k, x0, y0, error0)
    ensures At(x1, y1, x2, y2, k + 1, x, y, error)
  {
    AtNext(x1, y1, x2, y2, k, x0, y0, error0);
    x, y, error := x0, y0, error0;
    var e2 := 2 * error;
    if e2 >= dy {
      error := error + dy;
      x := x + sx;
    }
    if e2 <= dx {
      error := error + dx;
      y := y + sy;
    }
  }

  lemma AtStart(x1: int, y1: int, x2: int, y2: int)
    ensures At(x1, y1, x2, y2, 0, x1, y1, Abs(x2 - x1) - Abs(y2 - y1))
  {
    LastPixel(Abs(x2 - x1), Abs(y2 - y1), 0);
  }

  lemma AtEnd(x1: int, y1: int, x2: int, y2: int, k: nat, x: int, y: int, error: int)
    requires k <= Larger(Abs(x2 - x1), Abs(y2 - y1)) && At(x1, y1, x2, y2, k, x, y, error)
    ensures x == x2 && y == y2 <==> k == Larger(Abs(x2 - x1), Abs(y2 - y1))
  {
    var a, b := Abs(x2 - x1), Abs(y2 - y1);
    LastPixel(a, b, k);
    Times(Sign(x1, x2), AlongX(a, b, k), a);
    Times(Sign(y1, y2), AlongY(a, b, k), b);
  }

  lemma Times(s: int, i: int, j: int)
    requires s == 1 || s == -1
    ensures s * i == s * j <==> i == j
  {
  }
}
