/** Node records in memory and what it means for them to spell out a tree.

    Addresses are even positive numbers and 0 is the null pointer, so the lowest
    bit of the left link is free to hold the colour. */
module RbHeap {
  import opened RbTree

  function Bit(b: bool): nat {
    if b then 1 else 0
  }

  /** One node: `left_` holds the left pointer plus the colour bit. */
  datatype Rec<K> = Rec(left_: nat, right: nat, parent: nat, value: K) {
    function Left(): nat { left_ - left_ % 2 }

    predicate IsRed() { left_ % 2 == 1 }

    function SetLeft(v: nat): Rec<K> { this.(left_ := v + left_ % 2) }

    function SetRed(red: bool): Rec<K> { this.(left_ := Left() + Bit(red)) }
  }

  type Heap<K> = map<nat, Rec<K>>

  predicate Aligned(a: nat) {
    a > 0 && a % 2 == 0
  }

  /** The records reachable from `Ptr(t)` spell out `t` under parent `p`. */
  ghost predicate Rep<K>(h: Heap<K>, t: Tree<K>, p: nat) {
    t.Node? ==>
      && t.at in h && Aligned(t.at)
      && h[t.at] == Rec(Ptr(t.left) + Bit(t.red), Ptr(t.right), p, t.key)
      && Rep(h, t.left, t.at) && Rep(h, t.right, t.at)
  }

  /** The same without the parent links. */
  ghost predicate Shape<K>(h: Heap<K>, t: Tree<K>) {
    t.Node? ==>
      && t.at in h && Aligned(t.at)
      && h[t.at].left_ == Ptr(t.left) + Bit(t.red) && h[t.at].right == Ptr(t.right) && h[t.at].value == t.key
      && Shape(h, t.left) && Shape(h, t.right)
  }

  ghost predicate Parents<K>(h: Heap<K>, t: Tree<K>, p: nat) {
    t.Node? ==> t.at in h && h[t.at].parent == p && Parents(h, t.left, t.at) && Parents(h, t.right, t.at)
  }

  lemma {:induction false} RepParts<K>(h: Heap<K>, t: Tree<K>, p: nat)
    ensures Rep(h, t, p) <==> Shape(h, t) && Parents(h, t, p)
  {
    if t.Node? {
      RepParts(h, t.left, t.at);
      RepParts(h, t.right, t.at);
    }
  }

  lemma ShapeFields<K>(h: Heap<K>, t: Tree<K>)
    requires Shape(h, t) && t.Node? && Distinct(t)
    ensures t.at != 0 && h[t.at].Left() == Ptr(t.left) && h[t.at].IsRed() == t.red
    ensures t.left.Node? ==> t.left.at != 0 && t.left.at != Ptr(t.right)
    ensures t.right.Node? ==> t.right.at != 0 && t.right.at != Ptr(t.left)
  {
    assert t.left.Node? ==> t.left.at in Nodes(t.left);
    assert t.right.Node? ==> t.right.at in Nodes(t.right);
  }

  /** The records above a cursor spell out `c`, with `f` stored in the hole. */
  ghost predicate CRep<K>(h: Heap<K>, c: Ctx<K>, f: nat) {
    c.Frame? ==>
      && c.at in h && Aligned(c.at)
      && h[c.at] == (if c.onLeft then Rec(f + Bit(c.red), Ptr(c.sib), CPtr(c.up), c.key)
                     else Rec(Ptr(c.sib) + Bit(c.red), f, CPtr(c.up), c.key))
      && Rep(h, c.sib, c.at) && CRep(h, c.up, c.at)
  }

  ghost function RootOf<K>(c: Ctx<K>, f: nat): nat {
    if c.Top? then f else RootOf(c.up, c.at)
  }

  /** Memory holds the tree `Plug(c, t)`, seen from the subtree `t`. */
  ghost predicate At<K>(h: Heap<K>, root: nat, c: Ctx<K>, t: Tree<K>) {
    && Rep(h, t, CPtr(c)) && CRep(h, c, Ptr(t)) && root == RootOf(c, Ptr(t))
    && Distinct(t) && CDistinct(c) && Nodes(t) !! CNodes(c)
  }

  /** One step of the cursor, up or down. */
  lemma AtUp<K>(h: Heap<K>, root: nat, c: Ctx<K>, t: Tree<K>)
    requires c.Frame?
    ensures At(h, root, c, t) <==> At(h, root, c.up, Mk(c.onLeft, t, c.at, c.key, c.red, c.sib))
  {
    var u := Mk(c.onLeft, t, c.at, c.key, c.red, c.sib);
    assert Nodes(u) == {c.at} + Nodes(t) + Nodes(c.sib);
    assert Rep(h, u, CPtr(c.up)) && CRep(h, c.up, c.at) <==> Rep(h, t, c.at) && CRep(h, c, Ptr(t));
    assert Distinct(u) && Nodes(u) !! CNodes(c.up) && CDistinct(c.up) <==>
      Distinct(t) && CDistinct(c) && Nodes(t) !! CNodes(c);
  }

  /** Moving the cursor does not change what memory holds. */
  lemma {:induction false} AtPlug<K>(h: Heap<K>, root: nat, c: Ctx<K>, t: Tree<K>)
    ensures At(h, root, c, t) <==> At(h, root, Top, Plug(c, t))
  {
    match c
    case Top =>
    case Frame(d, a, k, r, s, up) =>
      AtUp(h, root, c, t);
      AtPlug(h, root, up, Mk(d, t, a, k, r, s));
  }

  lemma {:induction false} RepNodes<K>(h: Heap<K>, t: Tree<K>, p: nat)
    requires Rep(h, t, p)
    ensures 0 !in Nodes(t) && Nodes(t) <= h.Keys
  {
    if t.Node? {
      RepNodes(h, t.left, t.at);
      RepNodes(h, t.right, t.at);
    }
  }

  lemma {:induction false} CRepNodes<K>(h: Heap<K>, c: Ctx<K>, f: nat)
    requires CRep(h, c, f)
    ensures 0 !in CNodes(c) && CNodes(c) <= h.Keys
  {
    if c.Frame? {
      RepNodes(h, c.sib, c.at);
      CRepNodes(h, c.up, c.at);
    }
  }

  /** Two memories agree on the addresses in `s`. */
  ghost predicate Same<K>(h: Heap<K>, h': Heap<K>, s: set<nat>) {
    forall a :: a in s && a in h ==> a in h' && h'[a] == h[a]
  }

  lemma {:induction false} RepFrame<K>(h: Heap<K>, h': Heap<K>, t: Tree<K>, p: nat)
    requires Rep(h, t, p) && Same(h, h', Nodes(t))
    ensures Rep(h', t, p)
  {
    if t.Node? {
      RepFrame(h, h', t.left, t.at);
      RepFrame(h, h', t.right, t.at);
    }
  }

  lemma RepReparent<K>(h: Heap<K>, h': Heap<K>, t: Tree<K>, p: nat, q: nat)
    requires Rep(h, t, p) && Distinct(t) && Same(h, h', Nodes(t) - {Ptr(t)})
    requires t.Node? ==> t.at in h' && h'[t.at] == h[t.at].(parent := q)
    ensures Rep(h', t, q)
  {
    if t.Node? {
      RepFrame(h, h', t.left, t.at);
      RepFrame(h, h', t.right, t.at);
    }
  }

  lemma {:induction false} CRepFrame<K>(h: Heap<K>, h': Heap<K>, c: Ctx<K>, f: nat)
    requires CRep(h, c, f) && Same(h, h', CNodes(c))
    ensures CRep(h', c, f)
  {
    if c.Frame? {
      RepFrame(h, h', c.sib, c.at);
      CRepFrame(h, h', c.up, c.at);
    }
  }

  /** The child pointer of the frame above the cursor is replaced by `g`. */
  ghost predicate Refocused<K>(h: Heap<K>, h': Heap<K>, root': nat, c: Ctx<K>, f: nat, g: nat) {
    if c.Top? then root' == g
    else
      && c.at in h && c.at in h' && root' == RootOf(c.up, c.at)
      && h'[c.at] == if c.onLeft then h[c.at].(left_ := g + Bit(c.red)) else h[c.at].(right := g)
  }

  lemma CRepRefocus<K>(h: Heap<K>, h': Heap<K>, root': nat, c: Ctx<K>, f: nat, g: nat)
    requires CRep(h, c, f) && CDistinct(c) && Same(h, h', CNodes(c) - {CPtr(c)})
    requires Refocused(h, h', root', c, f, g)
    ensures CRep(h', c, g) && root' == RootOf(c, g)
  {
    if c.Frame? {
      RepFrame(h, h', c.sib, c.at);
      CRepFrame(h, h', c.up, c.at);
    }
  }

  /** Whether the cursor hangs on the left is visible in memory. */
  lemma SideVisible<K>(h: Heap<K>, root: nat, c: Ctx<K>, t: Tree<K>)
    requires At(h, root, c, t) && c.Frame? && (t.Node? || c.sib.Node?)
    ensures h[c.at].Left() == (if c.onLeft then Ptr(t) else Ptr(c.sib))
    ensures h[c.at].right == (if c.onLeft then Ptr(c.sib) else Ptr(t))
    ensures Ptr(t) != Ptr(c.sib)
    ensures h[c.at].IsRed() == c.red
    ensures c.onLeft <==> Ptr(t) == h[c.at].Left()
    ensures !c.onLeft <==> Ptr(t) == h[c.at].right
  {
  }

  lemma {:induction false} RootIsTop<K>(h: Heap<K>, c: Ctx<K>, t: Tree<K>)
    requires Rep(h, t, CPtr(c)) && CRep(h, c, Ptr(t))
    requires Nodes(t) !! CNodes(c) && CDistinct(c)
    ensures c.Top? ==> RootOf(c, Ptr(t)) == Ptr(t)
    ensures c.Frame? ==> RootOf(c, Ptr(t)) in CNodes(c) && RootOf(c, Ptr(t)) > 0 && RootOf(c, Ptr(t)) != Ptr(t)
  {
    if c.Frame? {
      var u := Mk(c.onLeft, t, c.at, c.key, c.red, c.sib);
      RootIsTop(h, c.up, u);
    }
  }

  lemma AtFrame<K>(h: Heap<K>, h': Heap<K>, root: nat, c: Ctx<K>, t: Tree<K>)
    requires At(h, root, c, t) && Same(h, h', Nodes(t) + CNodes(c))
    ensures At(h', root, c, t)
  {
    RepFrame(h, h', t, CPtr(c));
    CRepFrame(h, h', c, Ptr(t));
  }

  lemma NodeFields<K>(h: Heap<K>, t: Tree<K>, p: nat)
    requires Rep(h, t, p) && t.Node? && Distinct(t)
    ensures t.at != 0 && t.at in h && h[t.at] == Rec(Ptr(t.left) + Bit(t.red), Ptr(t.right), p, t.key)
    ensures h[t.at].Left() == Ptr(t.left) && h[t.at].IsRed() == t.red
    ensures t.left.Node? ==> t.left.at != 0 && t.left.at != Ptr(t.right)
    ensures t.right.Node? ==> t.right.at != 0 && t.right.at != Ptr(t.left)
  {
    assert Rep(h, t.left, t.at) && Rep(h, t.right, t.at);
    assert t.left.Node? ==> t.left.at in Nodes(t.left);
    assert t.right.Node? ==> t.right.at in Nodes(t.right);
  }

  /** What the record at the cursor says. */
  lemma AtFields<K>(h: Heap<K>, root: nat, c: Ctx<K>, t: Tree<K>)
    requires At(h, root, c, t) && t.Node?
    ensures t.at != 0 && t.at in h && h[t.at].value == t.key && h[t.at].parent == CPtr(c)
    ensures h[t.at].Left() == Ptr(t.left) && h[t.at].right == Ptr(t.right) && h[t.at].IsRed() == t.red
    ensures t.left.Node? ==> t.left.at != 0 && t.left.at in h && h[t.left.at].IsRed() == t.left.red
    ensures t.right.Node? ==> t.right.at != 0 && t.right.at in h && h[t.right.at].IsRed() == t.right.red
    ensures c.Frame? ==> c.at != 0 && c.at in h && h[c.at].IsRed() == c.red && h[c.at].parent == CPtr(c.up)
  {
    if c.Frame? {
      SideVisible(h, root, c, t);
    }
    assert Rep(h, t.left, t.at) && Rep(h, t.right, t.at);
    assert t.left.Node? ==> Rep(h, t.left.left, t.left.at);
    assert t.right.Node? ==> Rep(h, t.right.left, t.right.at);
  }

  lemma AtLeft<K>(h: Heap<K>, root: nat, c: Ctx<K>, t: Tree<K>)
    requires At(h, root, c, t) && t.Node?
    ensures At(h, root, Frame(true, t.at, t.key, t.red, t.right, c), t.left)
  {
    AtUp(h, root, Frame(true, t.at, t.key, t.red, t.right, c), t.left);
  }

  lemma AtRight<K>(h: Heap<K>, root: nat, c: Ctx<K>, t: Tree<K>)
    requires At(h, root, c, t) && t.Node?
    ensures At(h, root, Frame(false, t.at, t.key, t.red, t.left, c), t.right)
  {
    AtUp(h, root, Frame(false, t.at, t.key, t.red, t.left, c), t.right);
  }

  /** The cursor's parent. */
  function Raise<K>(c: Ctx<K>, t: Tree<K>): Tree<K>
    requires c.Frame?
  {
    Mk(c.onLeft, t, c.at, c.key, c.red, c.sib)
  }

  /** The context of the cursor's sibling. */
  function Across<K>(c: Ctx<K>, t: Tree<K>): Ctx<K>
    requires c.Frame?
  {
    Frame(!c.onLeft, c.at, c.key, c.red, t, c.up)
  }

  lemma AtAcross<K>(h: Heap<K>, root: nat, c: Ctx<K>, t: Tree<K>)
    requires c.Frame?
    ensures At(h, root, c, t) <==> At(h, root, Across(c, t), c.sib)
  {
    AtUp(h, root, c, t);
    AtUp(h, root, Across(c, t), c.sib);
  }

  lemma AtCompose<K>(h: Heap<K>, root: nat, p: Ctx<K>, c: Ctx<K>, u: Tree<K>)
    ensures At(h, root, Compose(p, c), u) <==> At(h, root, c, Plug(p, u))
  {
    PlugCompose(p, c, u);
    AtPlug(h, root, Compose(p, c), u);
    AtPlug(h, root, c, Plug(p, u));
  }

  /** A subtree `v` put in the hole that pointed at `n`. */
  lemma Replanted<K>(h: Heap<K>, c: Ctx<K>, n: nat, v: Tree<K>, q: nat, h': Heap<K>, root': nat)
    requires CRep(h, c, n) && CDistinct(c) && Rep(h, v, q) && Distinct(v) && Nodes(v) !! CNodes(c)
    requires Refocused(h, h', root', c, n, Ptr(v))
    requires v.Node? ==> v.at in h' && h'[v.at] == h[v.at].(parent := CPtr(c))
    requires Same(h, h', h.Keys - {CPtr(c), Ptr(v)})
    ensures At(h', root', c, v)
  {
    RepNodes(h, v, q);
    CRepNodes(h, c, n);
    assert v.Node? ==> v.at in Nodes(v);
    assert c.Frame? ==> c.at in CNodes(c);
    RepReparent(h, h', v, q, CPtr(c));
    CRepRefocus(h, h', root', c, n, Ptr(v));
  }

  /** The pieces around a node that is about to be replaced by `y`, which already
      holds the right subtree `r`. */
  ghost predicate Vacating<K>(h: Heap<K>, root: nat, c: Ctx<K>, node: nat, l: Tree<K>, red: bool, y: nat, ky: K,
                              r: Tree<K>) {
    && l.Node? && Aligned(node) && Aligned(y) && node != y
    && node in h && h[node].left_ == Ptr(l) + Bit(red) && h[node].parent == CPtr(c)
    && y in h && h[y].right == Ptr(r) && h[y].value == ky
    && Rep(h, l, node) && Rep(h, r, y) && CRep(h, c, node) && root == RootOf(c, node)
    && Distinct(l) && Distinct(r) && CDistinct(c)
    && Nodes(l) !! Nodes(r) && Nodes(l) !! CNodes(c) && Nodes(r) !! CNodes(c)
    && {node, y} !! Nodes(l) + Nodes(r) + CNodes(c)
  }

  lemma FrameFields<K>(h: Heap<K>, c: Ctx<K>, node: nat)
    requires CRep(h, c, node) && Aligned(node) && node !in CNodes(c)
    ensures 0 !in CNodes(c) && (c.Frame? ==> c.at != 0 && c.at in h && c.at in CNodes(c))
    ensures c.Frame? ==> (c.onLeft <==> node == h[c.at].Left()) && h[c.at].left_ % 2 == Bit(c.red)
  {
    CRepNodes(h, c, node);
    if c.Frame? {
      assert Rep(h, c.sib, c.at);
      assert c.sib.Node? ==> c.sib.at in Nodes(c.sib);
    }
  }

  lemma VacatingFields<K>(h: Heap<K>, root: nat, c: Ctx<K>, node: nat, l: Tree<K>, red: bool, y: nat, ky: K, r: Tree<K>)
    requires Vacating(h, root, c, node, l, red, y, ky, r)
    ensures h[node].Left() == l.at && l.at in h && l.at != node && l.at != y && l.at != CPtr(c)
    ensures CPtr(c) != node && CPtr(c) != y && (CPtr(c) != 0 ==> CPtr(c) in h)
    ensures c.Frame? ==> c.at != 0 && (c.onLeft <==> node == h[c.at].Left())
    ensures c.Frame? ==> h[c.at].left_ % 2 == Bit(c.red)
    ensures 0 !in Nodes(l) && 0 !in Nodes(r) && 0 !in CNodes(c)
  {
    RepNodes(h, l, node);
    RepNodes(h, r, y);
    FrameFields(h, c, node);
    assert l.at in Nodes(l);
  }

  lemma VacatingDirect<K>(h: Heap<K>, root: nat, c: Ctx<K>, t: Tree<K>)
    requires At(h, root, c, t) && t.Node? && t.left.Node? && t.right.Node? && t.right.left.Leaf?
    ensures Vacating(h, root, c, t.at, t.left, t.red, t.right.at, t.right.key, t.right.right)
  {
    var u := t.right;
    assert Rep(h, u, t.at) && Distinct(u) && Nodes(u) == {u.at} + Nodes(u.right);
  }

  lemma VacatingDeep<K>(h: Heap<K>, root: nat, c: Ctx<K>, t: Tree<K>, y: nat, ky: K, h': Heap<K>)
    requires At(h, root, c, t) && t.Node? && t.left.Node? && t.right.Node?
    requires Aligned(y) && y in h && h[y].value == ky && y !in Nodes(t) + CNodes(c) && t.right.at in h
    requires h' == h[y := h[y].(right := t.right.at)][t.right.at := h[t.right.at].(parent := y)]
    ensures Vacating(h', root, c, t.at, t.left, t.red, y, ky, t.right)
  {
    assert t.right.at in Nodes(t.right);
    RepFrame(h, h', t.left, t.at);
    RepReparent(h, h', t.right, t.at, y);
    CRepFrame(h, h', c, t.at);
  }

  /** The successor of `t` is a node apart from the rest of the tree. */
  lemma SuccessorApart<K>(c: Ctx<K>, t: Tree<K>, p: Ctx<K>, u: Tree<K>)
    requires t.Node? && t.right == Plug(p, u) && u.Node? && u.left.Leaf?
    requires Distinct(t) && Nodes(t) !! CNodes(c)
    ensures u.at !in Nodes(t.(right := Plug(p, u.right))) + CNodes(c)
    ensures p.Frame? ==> p.at != t.at && Plug(p, u.right).Node?
  {
    PlugDistinct(p, u);
    PlugDistinct(p, u.right);
    assert Nodes(u) == {u.at} + Nodes(u.right) && u.at !in Nodes(u.right);
    assert p.Frame? ==> p.at in CNodes(p) && p.at in Nodes(Plug(p, u.right));
  }

  lemma Vacated<K>(h: Heap<K>, root: nat, c: Ctx<K>, node: nat, l: Tree<K>, red: bool, y: nat, ky: K, r: Tree<K>,
                   h': Heap<K>, root': nat)
    requires Vacating(h, root, c, node, l, red, y, ky, r)
    requires Refocused(h, h', root', c, node, y)
    requires y in h' && h'[y] == Rec(Ptr(l) + Bit(red), Ptr(r), CPtr(c), ky)
    requires l.at in h && l.at in h' && h'[l.at] == h[l.at].(parent := y)
    requires Same(h, h', h.Keys - {CPtr(c), y, l.at})
    ensures At(h', root', c, Node(l, y, ky, red, r))
  {
    VacatingFields(h, root, c, node, l, red, y, ky, r);
    assert l.at in Nodes(l);
    assert c.Frame? ==> c.at in CNodes(c);
    RepReparent(h, h', l, node, y);
    RepFrame(h, h', r, y);
    CRepRefocus(h, h', root', c, node, y);
  }

  lemma SameElemsSameNodes<K>(t: Tree<K>, u: Tree<K>)
    requires Elems(t) == Elems(u)
    ensures Nodes(t) == Nodes(u)
  {
    NodesAreElems(t);
    NodesAreElems(u);
  }

  /** The cursor position of the i-th element. */
  lemma AtElem<K>(h: Heap<K>, root: nat, tree: Tree<K>, n: nat, i: nat) returns (c: Ctx<K>, t: Tree<K>)
    requires At(h, root, Top, tree) && i < |Elems(tree)| && Elems(tree)[i].0 == n
    ensures At(h, root, c, t) && Plug(c, t) == tree && t.Node? && t.at == n
    ensures |Before(c)| + |Elems(t.left)| == i && Elems(tree)[i] == (n, t.key)
  {
    NodesAreElems(tree);
    AddrIn(Elems(tree), i);
    var r := Locate(Top, tree, n);
    c, t := r.0, r.1;
    AtPlug(h, root, c, t);
    SearchHit(c, t);
    DistinctElems(tree, i, |Before(c)| + |Elems(t.left)|);
  }
}
