/** The case analysis of rebalancing after an insertion, on values. */
module RbInsert {
  import opened RbTree

  /** The cursor is a red subtree; all is legal except that it may hang below a
      red node, or be the root. */
  predicate Pending<K>(c: Ctx<K>, t: Tree<K>) {
    RB(t) && Red(t) && CRB(c, BH(t), false)
  }

  /** The cursor's parent is red, so it has a black grandparent. */
  predicate Clash<K>(c: Ctx<K>, t: Tree<K>) {
    Pending(c, t) && c.Frame? && c.red
  }

  lemma ClashHasGrandparent<K>(c: Ctx<K>, t: Tree<K>)
    requires Clash(c, t)
    ensures c.up.Frame? && !c.up.red
  {
    assert CRB(c.up, BH(t), true);
  }

  /** Red uncle: parent and uncle turn black, grandparent turns red and becomes
      the cursor. */
  function Recoloured<K>(c: Ctx<K>, t: Tree<K>): Tree<K>
    requires c.Frame? && c.up.Frame? && c.up.sib.Node?
  {
    var g := c.up;
    Mk(g.onLeft, Mk(c.onLeft, t, c.at, c.key, false, c.sib), g.at, g.key, true, g.sib.(red := false))
  }

  lemma RecolouredPending<K>(c: Ctx<K>, t: Tree<K>)
    requires Clash(c, t) && c.up.Frame? && Red(c.up.sib)
    ensures Pending(c.up.up, Recoloured(c, t))
  {
    var g := c.up;
    assert CRB(g, BH(t), true);
    assert RB(g.sib) && CRB(g.up, BH(t) + 1, false);
    assert RB(Mk(c.onLeft, t, c.at, c.key, false, c.sib));
    assert RB(g.sib.(red := false)) && BH(g.sib.(red := false)) == BH(t) + 1;
  }

  /** Inner grandchild: rotating the parent away from the cursor turns it into
      the outer case, with the old parent as the cursor. */
  function Inner<K>(c: Ctx<K>, t: Tree<K>): (Ctx<K>, Tree<K>)
    requires c.Frame? && c.up.Frame? && t.Node?
  {
    var d := c.up.onLeft;
    var near, far := if d then t.left else t.right, if d then t.right else t.left;
    (Frame(d, t.at, t.key, true, far, c.up), Mk(d, c.sib, c.at, c.key, true, near))
  }

  lemma InnerClash<K>(c: Ctx<K>, t: Tree<K>)
    requires Clash(c, t) && c.up.Frame?
    ensures var r := Inner(c, t); Clash(r.0, r.1)
  {
  }

  /** Outer grandchild with a black uncle: the parent takes the grandparent's
      place and colour, the grandparent becomes the cursor's red sibling. */
  function Outer<K>(c: Ctx<K>): Ctx<K>
    requires c.Frame? && c.up.Frame?
  {
    var g := c.up;
    Frame(g.onLeft, c.at, c.key, false, Mk(g.onLeft, c.sib, g.at, g.key, true, g.sib), g.up)
  }

  lemma OuterPending<K>(c: Ctx<K>, t: Tree<K>)
    requires Clash(c, t) && c.up.Frame? && !Red(c.up.sib)
    ensures Pending(Outer(c), t) && !Outer(c).red
  {
    var g := c.up;
    assert CRB(g, BH(t), true);
    assert RB(g.sib) && CRB(g.up, BH(t) + 1, false);
  }

  /** Once the cursor no longer clashes, blackening the root ends the repair. */
  lemma {:induction false} Settled<K>(c: Ctx<K>, t: Tree<K>)
    requires Pending(c, t) && (c.Frame? ==> !c.red)
    ensures Legal(Blacken(Plug(c, t))) && Plug(c, t).Node?
    ensures c.Frame? ==> Legal(Plug(c, t))
  {
    PlugRB(c, t);
    PlugIsNode(c, t);
  }

  lemma {:induction false} PlugIsNode<K>(c: Ctx<K>, t: Tree<K>)
    requires t.Node?
    ensures Plug(c, t).Node?
  {
    if c.Frame? {
      PlugIsNode(c.up, Mk(c.onLeft, t, c.at, c.key, c.red, c.sib));
    }
  }

  /** A new red leaf put where the search fell off a legal tree. */
  lemma FreshLeaf<K>(c: Ctx<K>, at: nat, key: K)
    requires Legal(Plug(c, Leaf))
    ensures Pending(c, Node(Leaf, at, key, true, Leaf))
  {
    PlugRB(c, Leaf);
  }

  // None of the steps changes the in-order sequence.

  lemma InnerElems<K>(c: Ctx<K>, t: Tree<K>)
    requires c.Frame? && c.up.Frame? && t.Node? && c.onLeft != c.up.onLeft
    ensures var r := Inner(c, t); Elems(Plug(r.0, r.1)) == Elems(Plug(c, t))
  {
    var r := Inner(c, t);
    var was := Mk(c.onLeft, t, c.at, c.key, c.red, c.sib);
    var now := Mk(r.0.onLeft, r.1, r.0.at, r.0.key, true, r.0.sib);
    if c.up.onLeft {
      RotateElems(c.sib, c.at, c.key, true, t.left, t.at, t.key, true, t.right);
    } else {
      RotateElems(t.left, t.at, t.key, true, t.right, c.at, c.key, true, c.sib);
    }
    assert Elems(was) == Elems(now);
    PlugElems(c.up, was);
    PlugElems(c.up, now);
  }

  lemma OuterElems<K>(c: Ctx<K>, t: Tree<K>)
    requires c.Frame? && c.up.Frame? && c.onLeft == c.up.onLeft
    ensures Elems(Plug(Outer(c), t)) == Elems(Plug(c, t))
  {
    var g, o := c.up, Outer(c);
    var was := Mk(g.onLeft, Mk(c.onLeft, t, c.at, c.key, c.red, c.sib), g.at, g.key, g.red, g.sib);
    var now := Mk(o.onLeft, t, o.at, o.key, o.red, o.sib);
    if g.onLeft {
      RotateElems(t, c.at, c.key, true, c.sib, g.at, g.key, true, g.sib);
    } else {
      RotateElems(g.sib, g.at, g.key, true, c.sib, c.at, c.key, true, t);
    }
    assert Elems(was) == Elems(now);
    PlugElems(g.up, was);
    PlugElems(g.up, now);
  }

  lemma RecolouredElems<K>(c: Ctx<K>, t: Tree<K>)
    requires c.Frame? && c.up.Frame? && c.up.sib.Node?
    ensures Elems(Plug(c.up.up, Recoloured(c, t))) == Elems(Plug(c, t))
  {
    var g := c.up;
    var was := Mk(g.onLeft, Mk(c.onLeft, t, c.at, c.key, c.red, c.sib), g.at, g.key, g.red, g.sib);
    assert Elems(was) == Elems(Recoloured(c, t));
    PlugElems(g.up, was);
    PlugElems(g.up, Recoloured(c, t));
  }
}
