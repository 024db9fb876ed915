/** Page arithmetic over unbounded numbers. */
module ApePages {

  function Floor(x: nat, pg: nat): nat
    requires pg > 0
  {
    x - x % pg
  }

  function Ceil(x: nat, pg: nat): nat
    requires pg > 0
  {
    Floor(x + (pg - 1), pg)
  }

  lemma MulStep(pg: nat, d: int)
    requires pg > 0
    ensures d >= 1 ==> pg * d >= pg
    ensures d <= 0 ==> pg * d <= 0
    ensures d <= -1 ==> pg * d <= -(pg as int)
  {
  }

  lemma Distribute(p: int, x: int, y: int)
    ensures p * (x - y) == p * x - p * y
  {
  }

  lemma ModUnique(x: nat, pg: nat, q: nat, r: nat)
    requires pg > 0 && x == pg * q + r && r < pg
    ensures x % pg == r
  {
    assert x == pg * (x / pg) + x % pg;
    var d := q - x / pg;
    assert pg * d == x % pg - r;
    MulStep(pg, d);
  }

  lemma FloorFacts(x: nat, pg: nat)
    requires pg > 0
    ensures Floor(x, pg) <= x < Floor(x, pg) + pg && Floor(x, pg) % pg == 0
  {
    assert x == pg * (x / pg) + x % pg;
    ModUnique(Floor(x, pg), pg, x / pg, 0);
  }

  lemma CeilFacts(x: nat, pg: nat)
    requires pg > 0
    ensures x <= Ceil(x, pg) < x + pg && Ceil(x, pg) % pg == 0
  {
    FloorFacts(x + (pg - 1), pg);
  }

  /** Shifting by whole pages. */
  lemma ShiftMod(base: nat, x: nat, pg: nat)
    requires pg > 0 && base % pg == 0
    ensures (base + x) % pg == x % pg
    ensures Floor(base + x, pg) == base + Floor(x, pg) && Ceil(base + x, pg) == base + Ceil(x, pg)
  {
    ShiftRem(base, x, pg);
    ShiftRem(base, x + (pg - 1), pg);
  }

  lemma ShiftRem(base: nat, x: nat, pg: nat)
    requires pg > 0 && base % pg == 0
    ensures (base + x) % pg == x % pg
  {
    assert base == pg * (base / pg) && x == pg * (x / pg) + x % pg;
    assert base + x == pg * (base / pg + x / pg) + x % pg;
    ModUnique(base + x, pg, base / pg + x / pg, x % pg);
  }

  /** Page boundaries are a page apart. */
  lemma Boundaries(a: nat, b: nat, pg: nat)
    requires pg > 0 && a % pg == 0 && b % pg == 0 && a < b
    ensures a + pg <= b
  {
    assert a == pg * (a / pg) && b == pg * (b / pg);
    var d := b / pg - a / pg;
    MulStep(pg, d);
    Distribute(pg, b / pg, a / pg);
  }

  /** No boundary lies between a number and its floor or ceiling. */
  lemma BetweenPages(x: nat, b: nat, pg: nat)
    requires pg > 0 && b % pg == 0
    ensures x <= b <==> Ceil(x, pg) <= b
    ensures b <= x <==> b <= Floor(x, pg)
  {
    FloorFacts(x, pg);
    CeilFacts(x, pg);
    if x <= b && b < Ceil(x, pg) { Boundaries(b, Ceil(x, pg), pg); }
    if b <= x && Floor(x, pg) < b { Boundaries(Floor(x, pg), b, pg); }
  }

  lemma {:induction false} CeilMono(x: nat, y: nat, pg: nat)
    requires pg > 0 && x <= y
    ensures Ceil(x, pg) <= Ceil(y, pg) && Floor(x, pg) <= Floor(y, pg)
  {
    CeilFacts(y, pg);
    FloorFacts(x, pg);
    BetweenPages(x, Ceil(y, pg), pg);
    BetweenPages(y, Floor(x, pg), pg);
  }
}
