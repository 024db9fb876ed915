/** The case analysis of rebalancing after an erasure, on values. */
module RbErase {
  import opened RbTree

  /** The cursor's subtree is one black node short; all else is legal. */
  predicate Short<K>(c: Ctx<K>, x: Tree<K>) {
    RB(Blacken(x)) && CRB(c, BH(x) + 1, false)
  }

  /** `Short` and not yet repairable by blackening the cursor. */
  predicate Stuck<K>(c: Ctx<K>, x: Tree<K>) {
    Short(c, x) && c.Frame? && !Red(x)
  }

  function Near<K>(d: bool, s: Tree<K>): Tree<K>
    requires s.Node?
  {
    if d then s.left else s.right
  }

  function Far<K>(d: bool, s: Tree<K>): Tree<K>
    requires s.Node?
  {
    if d then s.right else s.left
  }

  /** The sibling is never null, and a red one has two children. */
  lemma StuckHasSibling<K>(c: Ctx<K>, x: Tree<K>)
    requires Stuck(c, x)
    ensures c.sib.Node? && RB(c.sib)
    ensures Red(c.sib) ==> !c.red && c.sib.left.Node? && c.sib.right.Node?
  {
  }

  /** Splicing out a node with at most one child, `r`. */
  lemma SplicedOne<K>(c: Ctx<K>, t: Tree<K>, r: Tree<K>)
    requires Legal(Plug(c, t)) && t.Node?
    requires (t.left.Leaf? && r == t.right) || (t.right.Leaf? && r == t.left)
    ensures if t.red then Legal(Plug(c, r)) else Short(c, r)
    ensures Elems(Plug(c, r)) == Before(c) + Elems(t.left) + Elems(t.right) + After(c)
  {
    PlugRB(c, t);
    PlugRB(c, r);
    PlugElems(c, r);
    assert Before(c) + Elems(t.left) + Elems(t.right) == Before(c) + Elems(r);
  }

  lemma {:induction false} ComposeCRB<K>(p: Ctx<K>, f: Ctx<K>, g: Ctx<K>, bh: nat, red: bool)
    requires f.Frame? && g.Frame? && CRB(Compose(p, f), bh, red)
    requires f.red == g.red && f.sib == g.sib && f.up == g.up
    ensures CRB(Compose(p, g), bh, red)
  {
    if p.Frame? {
      ComposeCRB(p.up, f, g, bh + if p.red then 0 else 1, p.red);
    }
  }

  /** Splicing out the successor `u` of `t`, which then takes the place of `t`. */
  lemma SplicedTwo<K>(c: Ctx<K>, t: Tree<K>, p: Ctx<K>, u: Tree<K>)
    requires Legal(Plug(c, t)) && t.Node? && t.right == Plug(p, u) && u.Node? && u.left.Leaf?
    ensures var c' := Compose(p, Frame(false, u.at, u.key, t.red, t.left, c));
      && (if u.red then Legal(Plug(c', u.right)) else Short(c', u.right))
      && Plug(c', u.right) == Plug(c, Node(t.left, u.at, u.key, t.red, Plug(p, u.right)))
  {
    var f := Frame(false, t.at, t.key, t.red, t.left, c);
    var g := Frame(false, u.at, u.key, t.red, t.left, c);
    PlugCompose(p, f, u);
    PlugCompose(p, g, u.right);
    PlugRB(Compose(p, f), u);
    ComposeCRB(p, f, g, BH(u), u.red);
    PlugRB(Compose(p, g), u);
    SplicedOne(Compose(p, g), u, u.right);
  }

  lemma MoveUp<T>(b: seq<T>, l: seq<T>, e: seq<T>, r: seq<T>, q: seq<T>, a: seq<T>)
    ensures b + (l + e + ([] + r + q)) + a == b + l + ([] + ([] + e + r) + q) + a
  {
  }

  lemma SplicedTwoElems<K>(c: Ctx<K>, t: Tree<K>, p: Ctx<K>, u: Tree<K>)
    requires t.Node? && t.right == Plug(p, u) && u.Node? && u.left.Leaf? && Before(p) == []
    ensures Elems(Plug(c, Node(t.left, u.at, u.key, t.red, Plug(p, u.right))))
         == Before(c) + Elems(t.left) + Elems(t.right) + After(c)
  {
    var e := [(u.at, u.key)];
    PlugElems(c, Node(t.left, u.at, u.key, t.red, Plug(p, u.right)));
    PlugElems(p, u);
    PlugElems(p, u.right);
    MoveUp(Before(c), Elems(t.left), e, Elems(u.right), After(p), After(c));
  }

  /** The cursor can be blackened, or is the root: the repair is over. */
  lemma Repaired<K>(c: Ctx<K>, x: Tree<K>)
    requires Short(c, x) && (c.Top? || Red(x))
    ensures Legal(Plug(c, Blacken(x)))
    ensures Elems(Plug(c, Blacken(x))) == Elems(Plug(c, x))
  {
    PlugRB(c, Blacken(x));
    PlugElems(c, x);
    PlugElems(c, Blacken(x));
  }

  /** Red sibling: it takes the parent's place, and the cursor gets a black sibling. */
  function RedSibling<K>(c: Ctx<K>): Ctx<K>
    requires c.Frame? && c.sib.Node?
  {
    var d, s := c.onLeft, c.sib;
    Frame(d, c.at, c.key, true, Near(d, s), Frame(d, s.at, s.key, false, Far(d, s), c.up))
  }

  lemma RedSiblingStuck<K>(c: Ctx<K>, x: Tree<K>)
    requires Stuck(c, x) && Red(c.sib)
    ensures var c' := RedSibling(c); Stuck(c', x) && c'.sib.Node? && !c'.sib.red && c'.red
  {
    var c' := RedSibling(c);
    assert CRB(c'.up, BH(x) + 1, true);
  }

  /** Black sibling with black children: it turns red and the parent is short. */
  function PushUp<K>(c: Ctx<K>, x: Tree<K>): Tree<K>
    requires c.Frame? && c.sib.Node?
  {
    Mk(c.onLeft, x, c.at, c.key, c.red, c.sib.(red := true))
  }

  lemma PushUpShort<K>(c: Ctx<K>, x: Tree<K>)
    requires Stuck(c, x) && c.sib.Node? && !c.sib.red && !Red(c.sib.left) && !Red(c.sib.right)
    ensures Short(c.up, PushUp(c, x))
  {
    assert RB(c.sib.(red := true)) && BH(c.sib.(red := true)) == BH(x);
    assert CRB(c.up, BH(x) + 1 + if c.red then 0 else 1, c.red);
    assert BH(PushUp(c, x)) == BH(x) + if c.red then 0 else 1;
  }

  /** Black sibling whose far child is black: the near child takes its place. */
  function NearRed<K>(c: Ctx<K>): Ctx<K>
    requires c.Frame? && c.sib.Node? && Near(c.onLeft, c.sib).Node?
  {
    var d, s, m := c.onLeft, c.sib, Near(c.onLeft, c.sib);
    c.(sib := Mk(d, Near(d, m), m.at, m.key, false, Mk(d, Far(d, m), s.at, s.key, true, Far(d, s))))
  }

  lemma NearRedStuck<K>(c: Ctx<K>, x: Tree<K>)
    requires Stuck(c, x) && c.sib.Node? && !c.sib.red
    requires Red(Near(c.onLeft, c.sib)) && !Red(Far(c.onLeft, c.sib))
    ensures var c' := NearRed(c); Stuck(c', x) && c'.sib.Node? && !c'.sib.red && Red(Far(c'.onLeft, c'.sib))
  {
    var d, s, m := c.onLeft, c.sib, Near(c.onLeft, c.sib);
    assert RB(m);
    assert RB(Mk(d, Far(d, m), s.at, s.key, true, Far(d, s)));
  }

  /** Red far child: the sibling takes the parent's place and colour. */
  function FarRed<K>(c: Ctx<K>, x: Tree<K>): Tree<K>
    requires c.Frame? && c.sib.Node? && Far(c.onLeft, c.sib).Node?
  {
    var d, s := c.onLeft, c.sib;
    Mk(d, Mk(d, x, c.at, c.key, false, Near(d, s)), s.at, s.key, c.red, Far(d, s).(red := false))
  }

  lemma FarRedLegal<K>(c: Ctx<K>, x: Tree<K>)
    requires Stuck(c, x) && c.sib.Node? && !c.sib.red && Red(Far(c.onLeft, c.sib))
    ensures Legal(Plug(c.up, FarRed(c, x)))
  {
    var d, s := c.onLeft, c.sib;
    var f := Far(d, s).(red := false);
    assert RB(Far(d, s)) && RB(f) && BH(f) == BH(x) + 1;
    assert RB(Mk(d, x, c.at, c.key, false, Near(d, s)));
    PlugRB(c.up, FarRed(c, x));
  }

  // None of the steps changes the in-order sequence.

  lemma SideRotateElems<K>(d: bool, x: Tree<K>, p: nat, kp: K, rp: bool, b: Tree<K>, s: nat, ks: K, rs: bool,
                           e: Tree<K>)
    ensures Elems(Mk(d, x, p, kp, rp, Mk(d, b, s, ks, rs, e))) == Elems(Mk(d, Mk(d, x, p, kp, rp, b), s, ks, rs, e))
  {
    if d {
      RotateElems(x, p, kp, rp, b, s, ks, rs, e);
    } else {
      RotateElems(e, s, ks, rs, b, p, kp, rp, x);
    }
  }

  lemma RedSiblingElems<K>(c: Ctx<K>, x: Tree<K>)
    requires c.Frame? && c.sib.Node?
    ensures Elems(Plug(RedSibling(c), x)) == Elems(Plug(c, x))
  {
    var d, s, c' := c.onLeft, c.sib, RedSibling(c);
    var was := Mk(d, x, c.at, c.key, c.red, s);
    var now := Mk(d, Mk(d, x, c.at, c.key, true, Near(d, s)), s.at, s.key, false, Far(d, s));
    assert Plug(c', x) == Plug(c.up, now);
    SideRotateElems(d, x, c.at, c.key, true, Near(d, s), s.at, s.key, false, Far(d, s));
    assert Elems(s) == Elems(Mk(d, Near(d, s), s.at, s.key, false, Far(d, s)));
    PlugElems(c.up, was);
    PlugElems(c.up, now);
  }

  lemma PushUpElems<K>(c: Ctx<K>, x: Tree<K>)
    requires c.Frame? && c.sib.Node?
    ensures Elems(Plug(c.up, PushUp(c, x))) == Elems(Plug(c, x))
  {
    PlugElems(c.up, PushUp(c, x));
    PlugElems(c.up, Mk(c.onLeft, x, c.at, c.key, c.red, c.sib));
  }

  lemma NearRedElems<K>(c: Ctx<K>, x: Tree<K>)
    requires c.Frame? && c.sib.Node? && Near(c.onLeft, c.sib).Node?
    ensures Elems(Plug(NearRed(c), x)) == Elems(Plug(c, x))
  {
    var d, s, m := c.onLeft, c.sib, Near(c.onLeft, c.sib);
    SideRotateElems(d, Near(d, m), m.at, m.key, false, Far(d, m), s.at, s.key, true, Far(d, s));
    assert Elems(m) == Elems(Mk(d, Near(d, m), m.at, m.key, false, Far(d, m)));
    assert Elems(NearRed(c).sib) == Elems(s);
    PlugElems(c.up, Mk(d, x, c.at, c.key, c.red, s));
    PlugElems(c.up, Mk(d, x, c.at, c.key, c.red, NearRed(c).sib));
  }

  lemma FarRedElems<K>(c: Ctx<K>, x: Tree<K>)
    requires c.Frame? && c.sib.Node? && Far(c.onLeft, c.sib).Node?
    ensures Elems(Plug(c.up, FarRed(c, x))) == Elems(Plug(c, x))
  {
    var d, s := c.onLeft, c.sib;
    var f := Far(d, s).(red := false);
    SideRotateElems(d, x, c.at, c.key, false, Near(d, s), s.at, s.key, c.red, f);
    assert Elems(f) == Elems(Far(d, s));
    assert Elems(s) == Elems(Mk(d, Near(d, s), s.at, s.key, c.red, f));
    PlugElems(c.up, Mk(d, x, c.at, c.key, c.red, s));
    PlugElems(c.up, FarRed(c, x));
  }
}
