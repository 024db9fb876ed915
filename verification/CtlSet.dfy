/** `ctl::set`: a red-black tree of heap nodes with parent pointers. */
module CtlSet {
  import opened Orders
  import opened RbTree
  import opened RbHeap
  import Ins = RbInsert
  import Del = RbErase

  function RotL<K>(t: Tree<K>): Tree<K>
    requires t.Node? && t.right.Node?
  {
    var y := t.right;
    Node(Node(t.left, t.at, t.key, t.red, y.left), y.at, y.key, y.red, y.right)
  }

  function RotR<K>(t: Tree<K>): Tree<K>
    requires t.Node? && t.left.Node?
  {
    var x := t.left;
    Node(x.left, x.at, x.key, x.red, Node(x.right, t.at, t.key, t.red, t.right))
  }

  /** What a rotation writes: the two nodes, the subtree between them, the parent. */
  lemma RotLAt<K>(h: Heap<K>, root: nat, c: Ctx<K>, t: Tree<K>, h': Heap<K>, root': nat)
    requires At(h, root, c, t) && t.Node? && t.right.Node? && h'.Keys == h.Keys
    requires h'[t.at] == Rec(Ptr(t.left) + Bit(t.red), Ptr(t.right.left), t.right.at, t.key)
    requires t.right.at in h'
    requires h'[t.right.at] == Rec(t.at + Bit(t.right.red), Ptr(t.right.right), CPtr(c), t.right.key)
    requires t.right.left.Node? ==>
      t.right.left.at in h && t.right.left.at in h' && h'[t.right.left.at] == h[t.right.left.at].(parent := t.at)
    requires Refocused(h, h', root', c, t.at, t.right.at)
    requires Same(h, h', h.Keys - {t.at, t.right.at, Ptr(t.right.left), CPtr(c)})
    ensures At(h', root', c, RotL(t))
  {
    RepNodes(h, t, CPtr(c));
    RotLTree(h, c, t, h');
    CRepNodes(h, c, t.at);
    assert Nodes(t.right) == {t.right.at} + Nodes(t.right.left) + Nodes(t.right.right);
    assert t.right.left.Node? ==> t.right.left.at in Nodes(t.right.left);
    CRepRefocus(h, h', root', c, t.at, t.right.at);
  }

  lemma RotLTree<K>(h: Heap<K>, c: Ctx<K>, t: Tree<K>, h': Heap<K>)
    requires Rep(h, t, CPtr(c)) && Distinct(t) && t.Node? && t.right.Node? && h'.Keys == h.Keys && CPtr(c) !in Nodes(t)
    requires h'[t.at] == Rec(Ptr(t.left) + Bit(t.red), Ptr(t.right.left), t.right.at, t.key)
    requires t.right.at in h'
    requires h'[t.right.at] == Rec(t.at + Bit(t.right.red), Ptr(t.right.right), CPtr(c), t.right.key)
    requires t.right.left.Node? ==>
      t.right.left.at in h && t.right.left.at in h' && h'[t.right.left.at] == h[t.right.left.at].(parent := t.at)
    requires Same(h, h', h.Keys - {t.at, t.right.at, Ptr(t.right.left), CPtr(c)})
    ensures Rep(h', RotL(t), CPtr(c)) && Distinct(RotL(t)) && Nodes(RotL(t)) == Nodes(t)
  {
    RotLParts(h, c, t, h');
    RotLNodes(t);
  }

  lemma RotLNodes<K>(t: Tree<K>)
    requires Distinct(t) && t.Node? && t.right.Node?
    ensures Distinct(RotL(t)) && Nodes(RotL(t)) == Nodes(t)
  {
    var y := t.right;
    assert Nodes(y) == {y.at} + Nodes(y.left) + Nodes(y.right);
  }

  lemma RotLParts<K>(h: Heap<K>, c: Ctx<K>, t: Tree<K>, h': Heap<K>)
    requires Rep(h, t, CPtr(c)) && Distinct(t) && t.Node? && t.right.Node? && h'.Keys == h.Keys && CPtr(c) !in Nodes(t)
    requires t.right.left.Node? ==>
      t.right.left.at in h && t.right.left.at in h' && h'[t.right.left.at] == h[t.right.left.at].(parent := t.at)
    requires Same(h, h', h.Keys - {t.at, t.right.at, Ptr(t.right.left), CPtr(c)})
    ensures Rep(h', t.left, t.at) && Rep(h', t.right.left, t.at) && Rep(h', t.right.right, t.right.at)
  {
    var y := t.right;
    assert Rep(h, y, t.at) && Distinct(y);
    assert Nodes(y) == {y.at} + Nodes(y.left) + Nodes(y.right);
    RepNodes(h, t, CPtr(c));
    RepFrame(h, h', t.left, t.at);
    RepReparent(h, h', y.left, y.at, t.at);
    RepFrame(h, h', y.right, y.at);
  }

  lemma RotRAt<K>(h: Heap<K>, root: nat, c: Ctx<K>, t: Tree<K>, h': Heap<K>, root': nat)
    requires At(h, root, c, t) && t.Node? && t.left.Node? && h'.Keys == h.Keys
    requires h'[t.at] == Rec(Ptr(t.left.right) + Bit(t.red), Ptr(t.right), t.left.at, t.key)
    requires t.left.at in h' && h'[t.left.at] == Rec(Ptr(t.left.left) + Bit(t.left.red), t.at, CPtr(c), t.left.key)
    requires t.left.right.Node? ==>
      t.left.right.at in h && t.left.right.at in h' && h'[t.left.right.at] == h[t.left.right.at].(parent := t.at)
    requires Refocused(h, h', root', c, t.at, t.left.at)
    requires Same(h, h', h.Keys - {t.at, t.left.at, Ptr(t.left.right), CPtr(c)})
    ensures At(h', root', c, RotR(t))
  {
    RepNodes(h, t, CPtr(c));
    RotRTree(h, c, t, h');
    CRepNodes(h, c, t.at);
    assert Nodes(t.left) == {t.left.at} + Nodes(t.left.left) + Nodes(t.left.right);
    assert t.left.right.Node? ==> t.left.right.at in Nodes(t.left.right);
    CRepRefocus(h, h', root', c, t.at, t.left.at);
  }

  lemma RotRTree<K>(h: Heap<K>, c: Ctx<K>, t: Tree<K>, h': Heap<K>)
    requires Rep(h, t, CPtr(c)) && Distinct(t) && t.Node? && t.left.Node? && h'.Keys == h.Keys && CPtr(c) !in Nodes(t)
    requires h'[t.at] == Rec(Ptr(t.left.right) + Bit(t.red), Ptr(t.right), t.left.at, t.key)
    requires t.left.at in h' && h'[t.left.at] == Rec(Ptr(t.left.left) + Bit(t.left.red), t.at, CPtr(c), t.left.key)
    requires t.left.right.Node? ==>
      t.left.right.at in h && t.left.right.at in h' && h'[t.left.right.at] == h[t.left.right.at].(parent := t.at)
    requires Same(h, h', h.Keys - {t.at, t.left.at, Ptr(t.left.right), CPtr(c)})
    ensures Rep(h', RotR(t), CPtr(c)) && Distinct(RotR(t)) && Nodes(RotR(t)) == Nodes(t)
  {
    RotRParts(h, c, t, h');
    RotRNodes(t);
  }

  lemma RotRNodes<K>(t: Tree<K>)
    requires Distinct(t) && t.Node? && t.left.Node?
    ensures Distinct(RotR(t)) && Nodes(RotR(t)) == Nodes(t)
  {
    var x := t.left;
    assert Nodes(x) == {x.at} + Nodes(x.left) + Nodes(x.right);
  }

  lemma RotRParts<K>(h: Heap<K>, c: Ctx<K>, t: Tree<K>, h': Heap<K>)
    requires Rep(h, t, CPtr(c)) && Distinct(t) && t.Node? && t.left.Node? && h'.Keys == h.Keys && CPtr(c) !in Nodes(t)
    requires t.left.right.Node? ==>
      t.left.right.at in h && t.left.right.at in h' && h'[t.left.right.at] == h[t.left.right.at].(parent := t.at)
    requires Same(h, h', h.Keys - {t.at, t.left.at, Ptr(t.left.right), CPtr(c)})
    ensures Rep(h', t.right, t.at) && Rep(h', t.left.right, t.at) && Rep(h', t.left.left, t.left.at)
  {
    var x := t.left;
    assert Rep(h, x, t.at) && Distinct(x);
    assert Nodes(x) == {x.at} + Nodes(x.left) + Nodes(x.right);
    RepNodes(h, t, CPtr(c));
    RepFrame(h, h', t.right, t.at);
    RepReparent(h, h', x.right, x.at, t.at);
    RepFrame(h, h', x.left, x.at);
  }

  lemma InsertedElems<K>(c: Ctx<K>, node: nat, k: K)
    ensures var fs := Elems(Plug(c, Node(Leaf, node, k, true, Leaf)));
      PutIn(Elems(Plug(c, Leaf)), |Before(c)|, (node, k), fs) && fs == Before(c) + [(node, k)] + After(c)
  {
    LeafElems(c);
    PlugElems(c, Node(Leaf, node, k, true, Leaf));
    var es, i := Elems(Plug(c, Leaf)), |Before(c)|;
    assert es[..i] == Before(c) && es[i..] == After(c);
    assert Elems(Node(Leaf, node, k, true, Leaf)) == [(node, k)];
  }

  /** The in-order sequence after removing the node at the cursor. */
  lemma ErasedElems<K>(lt: (K, K) -> bool, c: Ctx<K>, t: Tree<K>, v: Tree<K>)
    requires t.Node? && Sorted(lt, Elems(Plug(c, t)))
    requires Elems(v) == Before(c) + Elems(t.left) + Elems(t.right) + After(c)
    ensures var es := Elems(Plug(c, t)); var i := |Before(c)| + |Elems(t.left)|;
      && i < |es| && Elems(v) == es[..i] + es[i + 1..] && Sorted(lt, Elems(v))
  {
    CursorOrder(lt, c, t);
    var b := Before(c) + Elems(t.left);
    RemoveMiddle(lt, Elems(Plug(c, t)), b, (t.at, t.key), Elems(t.right) + After(c));
    Associate(b, Elems(t.right), After(c));
  }

  lemma Associate<T>(a: seq<T>, b: seq<T>, c: seq<T>)
    ensures (a + b) + c == a + (b + c)
  {
  }

  lemma RemoveMiddle<K>(lt: (K, K) -> bool, es: seq<Elem<K>>, b: seq<Elem<K>>, e: Elem<K>, a: seq<Elem<K>>)
    requires es == b + [e] + a && Sorted(lt, es)
    ensures es[..|b|] + es[|b| + 1..] == b + a && Sorted(lt, b + a)
  {
    SortedSplit(lt, b, e, a);
    CutJoin(b, e, a);
  }

  lemma CutJoin<T>(b: seq<T>, e: T, a: seq<T>)
    ensures var es := b + [e] + a; es[..|b|] == b && es[|b| + 1..] == a && es[|b|] == e
  {
  }

  /** Without the node, memory holds exactly what is left of the tree. */
  lemma ErasedHeap<K>(h: Heap<K>, root: nat, t: Tree<K>, v: Tree<K>, i: nat)
    requires Distinct(t) && i < |Elems(t)| && Elems(v) == Elems(t)[..i] + Elems(t)[i + 1..]
    requires At(h, root, Top, v) && h.Keys == Nodes(t)
    ensures At(h - {Elems(t)[i].0}, root, Top, v) && (h - {Elems(t)[i].0}).Keys == Nodes(v)
  {
    ErasedNodes(t, v, i);
    AtFrame(h, h - {Elems(t)[i].0}, root, Top, v);
  }

  /** The set's whole state after the erasure, in terms of the one before it. */
  lemma Erased<K>(lt: (K, K) -> bool, h: Heap<K>, root: nat, c: Ctx<K>, t: Tree<K>, v: Tree<K>)
    requires t.Node? && Sorted(lt, Elems(Plug(c, t))) && Distinct(Plug(c, t))
    requires Elems(v) == Before(c) + Elems(t.left) + Elems(t.right) + After(c)
    requires At(h, root, Top, v) && h.Keys == Nodes(Plug(c, t))
    ensures At(h - {t.at}, root, Top, v) && (h - {t.at}).Keys == Nodes(v) && Sorted(lt, Elems(v))
    ensures var es := Elems(Plug(c, t)); var i := |Before(c)| + |Elems(t.left)|;
      && i < |es| && Elems(v) == es[..i] + es[i + 1..] && |Elems(v)| == |es| - 1
  {
    CursorOrder(lt, c, t);
    ErasedElems(lt, c, t, v);
    ErasedHeap(h, root, Plug(c, t), v, |Before(c)| + |Elems(t.left)|);
  }

  lemma ErasedNodes<K>(t: Tree<K>, v: Tree<K>, i: nat)
    requires Distinct(t) && i < |Elems(t)| && Elems(v) == Elems(t)[..i] + Elems(t)[i + 1..]
    ensures Nodes(v) == Nodes(t) - {Elems(t)[i].0}
  {
    forall j, k | 0 <= j < |Elems(t)| && 0 <= k < |Elems(t)| && Elems(t)[j].0 == Elems(t)[k].0 ensures j == k {
      DistinctElems(t, j, k);
    }
    AddrsRemove(Elems(t), i);
    NodesAreElems(t);
    NodesAreElems(v);
    assert Nodes(t) == Addrs(Elems(t)) && Nodes(v) == Addrs(Elems(v));
  }

  /** Each node is ordered against its own children only. */
  ghost predicate Linked<K>(lt: (K, K) -> bool, t: Tree<K>) {
    t.Node? ==>
      && (t.left.Node? ==> lt(t.left.key, t.key)) && (t.right.Node? ==> lt(t.key, t.right.key))
      && Linked(lt, t.left) && Linked(lt, t.right)
  }

  lemma {:induction false} SortedIsLinked<K>(lt: (K, K) -> bool, t: Tree<K>)
    requires Sorted(lt, Elems(t))
    ensures Linked(lt, t)
  {
    if t.Node? {
      var l, r := Elems(t.left), Elems(t.right);
      SortedSplit(lt, l, (t.at, t.key), r);
      assert forall i :: 0 <= i < |l| ==> (l + r)[i] == l[i];
      assert forall i :: 0 <= i < |r| ==> (l + r)[|l| + i] == r[i];
      SortedIsLinked(lt, t.left);
      SortedIsLinked(lt, t.right);
      if t.left.Node? { assert l[|Elems(t.left.left)|] == (t.left.at, t.left.key); }
      if t.right.Node? { assert r[|Elems(t.right.left)|] == (t.right.at, t.right.key); }
    }
  }

  /** The self check cannot replace the search order: this tree passes it. */
  lemma CheckMissesOrder(lt: (int, int) -> bool)
    requires forall x, y :: lt(x, y) <==> x < y
    ensures exists t: Tree<int> :: Legal(t) && Linked(lt, t) && !Sorted(lt, Elems(t))
  {
    var l: Tree<int> := Node(Leaf, 2, 5, false, Node(Leaf, 4, 20, true, Leaf));
    var r: Tree<int> := Node(Leaf, 8, 15, false, Leaf);
    var t := Node(l, 6, 10, false, r);
    assert Elems(l) == [(2, 5), (4, 20)] by { assert Elems(l.right) == [(4, 20)]; }
    assert Elems(t) == Elems(l) + [(6, 10)] + Elems(r);
    assert Elems(t)[1].1 == 20 && Elems(t)[2].1 == 10;
    assert RB(l) && RB(r) && Linked(lt, l) && Linked(lt, r);
    assert Legal(t) && Linked(lt, t);
  }

  lemma CutOne<T>(es: seq<T>, i: nat, k: nat)
    requires i <= k < |es|
    ensures var a := es[..i] + es[k..];
      && i < |a| && a[i] == es[k] && a[..i] + a[i + 1..] == es[..i] + es[k + 1..]
      && (k + 1 < |es| ==> (es[..i] + es[k + 1..])[i] == es[k + 1])
  {
    var a := es[..i] + es[k..];
    assert a[..i] == es[..i] && a[i + 1..] == es[k + 1..];
  }

  /** The address of the i-th element, or null past the end. */
  ghost function Pos<K>(es: seq<Elem<K>>, i: nat): nat {
    if i < |es| then es[i].0 else 0
  }

  lemma CutPos<K>(es: seq<Elem<K>>, i: nat, k: nat, j: nat)
    requires i <= k <= j <= |es|
    ensures Pos(es[..i] + es[k..], i) == Pos(es, k)
    ensures Pos(es[..i] + es[k..], i + (j - k)) == Pos(es, j)
  {
  }

  lemma AttachedElems<K>(lt: (K, K) -> bool, c: Ctx<K>, node: nat, k: K, u: Tree<K>)
    requires Sorted(lt, Elems(Plug(c, Leaf))) && Brackets(lt, c, k)
    requires Elems(u) == Elems(Plug(c, Node(Leaf, node, k, true, Leaf)))
    ensures Nodes(u) == Nodes(Plug(c, Leaf)) + {node}
    ensures Sorted(lt, Elems(u)) && |Elems(u)| == |Elems(Plug(c, Leaf))| + 1
  {
    InsertedElems(c, node, k);
    LeafElems(c);
    SameElemsSameNodes(u, Plug(c, Node(Leaf, node, k, true, Leaf)));
    PlugDistinct(c, Node(Leaf, node, k, true, Leaf));
    PlugDistinct(c, Leaf);
    SortedJoin(lt, Before(c), (node, k), After(c));
  }

  // ----- neighbours in order -----

  lemma FirstAfter<K>(c: Ctx<K>, t: Tree<K>)
    requires c.Top? || c.onLeft
    ensures Pos(Elems(Plug(c, t)), |Before(c)| + |Elems(t)|) == CPtr(c)
  {
    PlugElems(c, t);
    assert c.Frame? ==> After(c)[0] == (c.at, c.key);
  }

  lemma LastBefore<K>(c: Ctx<K>, t: Tree<K>)
    requires c.Top? || !c.onLeft
    ensures |Before(c)| > 0 <==> c.Frame?
    ensures c.Frame? ==> Pos(Elems(Plug(c, t)), |Before(c)| - 1) == c.at
  {
    PlugElems(c, t);
    assert c.Frame? ==> Before(c)[|Before(c)| - 1] == (c.at, c.key);
  }

  lemma FirstRight<K>(c: Ctx<K>, t: Tree<K>)
    requires t.Node? && t.right.Node?
    ensures Elems(t.right) != [] && Pos(Elems(Plug(c, t)), |Before(c)| + |Elems(t.left)| + 1) == Elems(t.right)[0].0
  {
    PlugElems(Frame(false, t.at, t.key, t.red, t.left, c), t.right);
  }

  lemma LastLeft<K>(c: Ctx<K>, t: Tree<K>)
    requires t.Node? && t.left.Node?
    ensures Elems(t.left) != []
    ensures Pos(Elems(Plug(c, t)), |Before(c)| + |Elems(t.left)| - 1) == Elems(t.left)[|Elems(t.left)| - 1].0
  {
    PlugElems(Frame(true, t.at, t.key, t.red, t.right, c), t.left);
  }

  // ----- copying and comparing -----

  function Keys<K>(es: seq<Elem<K>>): seq<K> {
    seq(|es|, i requires 0 <= i < |es| => es[i].1)
  }

  /** Same shape and keys, all red. */
  ghost predicate Copied<K>(t: Tree<K>, u: Tree<K>) {
    if t.Leaf? then u.Leaf?
    else u.Node? && u.key == t.key && u.red && Copied(t.left, u.left) && Copied(t.right, u.right)
  }

  lemma {:induction false} CopiedKeys<K>(t: Tree<K>, u: Tree<K>)
    requires Copied(t, u)
    ensures Keys(Elems(u)) == Keys(Elems(t))
  {
    if t.Node? {
      CopiedKeys(t.left, u.left);
      CopiedKeys(t.right, u.right);
      assert Keys(Elems(t)) == Keys(Elems(t.left)) + [t.key] + Keys(Elems(t.right));
      assert Keys(Elems(u)) == Keys(Elems(u.left)) + [u.key] + Keys(Elems(u.right));
    }
  }

  ghost predicate Within<K>(h: Heap<K>, lo: nat, hi: nat) {
    lo <= hi && forall a :: a in h ==> lo <= a < hi
  }

  /** `copier`: `h` holds the records it allocates, at addresses from `next` upwards. */
  method Copier<K>(src: Heap<K>, node: nat, next: nat, ghost t: Tree<K>, ghost q: nat)
    returns (h: Heap<K>, r: nat, free: nat, ghost u: Tree<K>)
    requires Rep(src, t, q) && Distinct(t) && node == Ptr(t) && Aligned(next)
    ensures Rep(h, u, 0) && Distinct(u) && r == Ptr(u) && Copied(t, u)
    ensures Aligned(free) && Within(h, next, free) && h.Keys == Nodes(u)
    decreases t
  {
    if node == 0 {
      return map[], 0, next, Leaf;
    }
    NodeFields(src, t, q);
    r := next;
    var hl, hr, left, right;
    ghost var ul, ur;
    hl, left, free, ul := Copier(src, src[node].Left(), next + 2, t.left, node);
    hr, right, free, ur := Copier(src, src[node].right, free, t.right, node);
    assert Nodes(ul) !! Nodes(ur) && r !in Nodes(ul) && r !in Nodes(ur);
    h := Combine(hl, hr, r, src[node].value, left, right, ul, ur);
    u := Node(ul, r, t.key, true, ur);
  }

  /** A fresh node over two finished copies. */
  method Combine<K>(hl: Heap<K>, hr: Heap<K>, r: nat, key: K, left: nat, right: nat, ghost ul: Tree<K>,
                    ghost ur: Tree<K>)
    returns (h: Heap<K>)
    requires Rep(hl, ul, 0) && Rep(hr, ur, 0) && Distinct(ul) && Distinct(ur) && left == Ptr(ul) && right == Ptr(ur)
    requires hl.Keys == Nodes(ul) && hr.Keys == Nodes(ur) && Aligned(r)
    requires Nodes(ul) !! Nodes(ur) && r !in Nodes(ul) && r !in Nodes(ur)
    ensures Rep(h, Node(ul, r, key, true, ur), 0) && h.Keys == {r} + Nodes(ul) + Nodes(ur)
  {
    h := hl + hr + map[r := Rec(1, 0, 0, key)];
    RepFrame(hl, h, ul, 0);
    RepFrame(hr, h, ur, 0);
    h := Adopt(h, r, left, right, ul, key, ur);
  }

  /** A fresh red node takes two finished copies as its children. */
  method Adopt<K>(h0: Heap<K>, r: nat, left: nat, right: nat, ghost ul: Tree<K>, ghost key: K, ghost ur: Tree<K>)
    returns (h: Heap<K>)
    requires r in h0 && h0[r] == Rec(1, 0, 0, key) && Aligned(r) && left == Ptr(ul) && right == Ptr(ur)
    requires Rep(h0, ul, 0) && Rep(h0, ur, 0) && Distinct(ul) && Distinct(ur)
    requires r !in Nodes(ul) && r !in Nodes(ur) && Nodes(ul) !! Nodes(ur)
    ensures Rep(h, Node(ul, r, key, true, ur), 0)
    ensures h.Keys == h0.Keys
  {
    RepNodes(h0, ul, 0);
    RepNodes(h0, ur, 0);
    assert ul.Node? ==> ul.at in Nodes(ul);
    assert ur.Node? ==> ur.at in Nodes(ur);
    h := h0[r := h0[r].SetLeft(left)];
    h := h[r := h[r].(right := right)];
    if h[r].Left() != 0 {
      h := h[h[r].Left() := h[h[r].Left()].(parent := r)];
    }
    if h[r].right != 0 {
      h := h[h[r].right := h[h[r].right].(parent := r)];
    }
    RepReparent(h0, h, ul, 0, r);
    RepReparent(h0, h, ur, 0, r);
  }

  /** `operator==`: two iterators walk both sets from begin() to end(). */
  method Equals<K(!new, ==)>(a: Set<K>, b: Set<K>) returns (eq: bool)
    requires a.Valid() && b.Valid()
    ensures eq <==> Keys(Elems(a.tree)) == Keys(Elems(b.tree))
  {
    ghost var es, fs := Elems(a.tree), Elems(b.tree);
    assert |Keys(es)| == |es| && |Keys(fs)| == |fs|;
    if a.size != b.size {
      return false;
    }
    a.NonNull();
    b.NonNull();
    var i := a.Begin();
    var j := b.Begin();
    ghost var n: nat := 0;
    while i != 0
      invariant n <= |es| && i == Pos(es, n) && j == Pos(fs, n)
      invariant forall m :: 0 <= m < n ==> Keys(es)[m] == Keys(fs)[m]
      decreases |es| - n
    {
      a.ValueAt(n);
      b.ValueAt(n);
      if a.heap[i].value != b.heap[j].value {
        assert Keys(es)[n] != Keys(fs)[n];
        return false;
      }
      i := a.Next(i, n);
      j := b.Next(j, n);
      n := n + 1;
    }
    eq := true;
    assert n == |es|;
  }

  class Set<K(!new)> {
    const lt: (K, K) -> bool
    var heap: Heap<K>
    var root: nat
    var size: nat
    ghost var tree: Tree<K>

    /** Memory holds exactly the nodes of a legal, sorted tree. */
    ghost predicate Valid()
      reads this
    {
      && StrictOrder(lt)
      && At(heap, root, Top, tree) && heap.Keys == Nodes(tree)
      && size == |Elems(tree)| && Sorted(lt, Elems(tree)) && Legal(tree)
    }

    constructor (lt: (K, K) -> bool)
      requires StrictOrder(lt)
      ensures Valid() && Elems(tree) == [] && this.lt == lt
    {
      this.lt := lt;
      heap, root, size := map[], 0, 0;
      tree := Leaf;
    }

    /** The copy constructor: the same keys in the same order behind sound links,
        but every node is red, so only the copy of an empty set is legal.  The
        comparison is not copied: it is `Compare()`, here `comp`. */
    constructor Copy(other: Set<K>, comp: (K, K) -> bool, next: nat)
      requires other.Valid() && StrictOrder(comp) && Aligned(next)
      ensures lt == comp && At(heap, root, Top, tree) && heap.Keys == Nodes(tree)
      ensures Keys(Elems(tree)) == Keys(Elems(other.tree)) && Sorted(other.lt, Elems(tree)) && size == |Elems(tree)|
      ensures Legal(tree) <==> other.size == 0
      ensures Valid() <==> other.size == 0
    {
      lt := comp;
      heap, root, size, tree := map[], 0, 0, Leaf;
      new;
      if other.root != 0 {
        var h, r, free;
        ghost var u;
        h, r, free, u := Copier(other.heap, other.root, next, other.tree, 0);
        heap, root, size, tree := h, r, other.size, u;
        CopiedKeys(other.tree, u);
        assert forall i :: 0 <= i < |Elems(u)| ==> Keys(Elems(u))[i] == Elems(u)[i].1;
        assert forall i :: 0 <= i < |Elems(u)| ==> Keys(Elems(other.tree))[i] == Elems(other.tree)[i].1;
      }
    }

    // ----- searching -----

    method GetElement(key: K) returns (r: nat, ghost i: nat, ghost steps: nat)
      requires Valid()
      ensures r == 0 <==> !Holds(lt, Elems(tree), key)
      ensures r != 0 ==> i < |Elems(tree)| && Elems(tree)[i].0 == r && Equivalent(lt, Elems(tree)[i].1, key)
      ensures steps <= Height(tree) && Pow2(steps) <= (|Elems(tree)| + 1) * (|Elems(tree)| + 1)
    {
      ghost var c, t;
      r, c, t, steps := Descend(key);
      FewSteps(tree, steps);
      i := if t.Node? then |Before(c)| + |Elems(t.left)| else 0;
      SearchOutcome(lt, c, t, key);
    }

    /** The loop of `get_element`; `steps` counts its rounds. */
    method Descend(key: K) returns (current: nat, ghost c: Ctx<K>, ghost t: Tree<K>, ghost steps: nat)
      requires StrictOrder(lt) && At(heap, root, Top, tree) && Sorted(lt, Elems(tree))
      ensures Plug(c, t) == tree && current == Ptr(t) && (t.Node? ==> current != 0 && Equivalent(lt, t.key, key))
      ensures Brackets(lt, c, key) && steps <= Height(tree)
    {
      current := root;
      c, t, steps := Top, tree, 0;
      while current != 0
        invariant At(heap, root, c, t) && Plug(c, t) == tree && current == Ptr(t)
        invariant Brackets(lt, c, key) && steps + Height(t) <= Height(tree)
        decreases t
      {
        AtFields(heap, root, c, t);
        SearchStep(lt, c, t, key);
        steps := steps + 1;
        if lt(key, heap[current].value) {
          current := heap[current].Left();
          AtLeft(heap, root, c, t);
          c, t := Frame(true, t.at, t.key, t.red, t.right, c), t.left;
        } else if lt(heap[current].value, key) {
          current := heap[current].right;
          AtRight(heap, root, c, t);
          c, t := Frame(false, t.at, t.key, t.red, t.left, c), t.right;
        } else {
          return;
        }
      }
    }

    /** The least element not below `key`, or null: `lower_bound`. */
    method GetFloor(key: K) returns (r: nat, ghost i: nat)
      requires Valid()
      ensures i <= |Elems(tree)| && r == Pos(Elems(tree), i)
      ensures AllBelow(lt, Elems(tree)[..i], key) && NoneBelow(lt, Elems(tree)[i..], key)
    {
      r := 0;
      var current := root;
      ghost var c, t := Top, tree;
      while current != 0
        invariant At(heap, root, c, t) && Plug(c, t) == tree && current == Ptr(t)
        invariant AllBelow(lt, Before(c), key) && NoneBelow(lt, After(c), key)
        invariant r == if After(c) == [] then 0 else After(c)[0].0
        decreases t
      {
        AtFields(heap, root, c, t);
        FloorStep(lt, c, t, key);
        if !lt(heap[current].value, key) {
          r := current;
          current := heap[current].Left();
          AtLeft(heap, root, c, t);
          c, t := Frame(true, t.at, t.key, t.red, t.right, c), t.left;
        } else {
          current := heap[current].right;
          AtRight(heap, root, c, t);
          c, t := Frame(false, t.at, t.key, t.red, t.left, c), t.right;
        }
      }
      assert t.Leaf?;
      LeafElems(c);
      i := |Before(c)|;
      assert Elems(tree)[..i] == Before(c) && Elems(tree)[i..] == After(c);
    }

    /** The least element above `key`, or null: `upper_bound`. */
    method GetCeiling(key: K) returns (r: nat, ghost i: nat)
      requires Valid()
      ensures i <= |Elems(tree)| && r == Pos(Elems(tree), i)
      ensures NoneAbove(lt, key, Elems(tree)[..i]) && AllAbove(lt, key, Elems(tree)[i..])
    {
      r := 0;
      var current := root;
      ghost var c, t := Top, tree;
      while current != 0
        invariant At(heap, root, c, t) && Plug(c, t) == tree && current == Ptr(t)
        invariant NoneAbove(lt, key, Before(c)) && AllAbove(lt, key, After(c))
        invariant r == if After(c) == [] then 0 else After(c)[0].0
        decreases t
      {
        AtFields(heap, root, c, t);
        CeilingStep(lt, c, t, key);
        if lt(key, heap[current].value) {
          r := current;
          current := heap[current].Left();
          AtLeft(heap, root, c, t);
          c, t := Frame(true, t.at, t.key, t.red, t.right, c), t.left;
        } else {
          current := heap[current].right;
          AtRight(heap, root, c, t);
          c, t := Frame(false, t.at, t.key, t.red, t.left, c), t.right;
        }
      }
      assert t.Leaf?;
      LeafElems(c);
      i := |Before(c)|;
      assert Elems(tree)[..i] == Before(c) && Elems(tree)[i..] == After(c);
    }

    /** The place of a node in order. */
    lemma IndexOf(n: nat) returns (i: nat)
      requires Valid() && n in heap
      ensures i < |Elems(tree)| && Elems(tree)[i].0 == n && Elems(tree)[i].1 == heap[n].value
    {
      NodesAreElems(tree);
      assert n in Addrs(Elems(tree));
      i :| 0 <= i < |Elems(tree)| && Elems(tree)[i].0 == n;
      ValueAt(i);
    }

    /** A node is reached from place i on exactly when it is the i-th or above it. */
    lemma SplitAt(i: nat, n: nat)
      requires Valid() && i <= |Elems(tree)| && n in heap
      ensures var es, v := Elems(tree), heap[n].value;
        || (exists j :: 0 <= j < i && es[..i][j].1 == v)
        || (exists j :: 0 <= j < |es[i..]| && es[i..][j].1 == v && if j == 0 then es[i].0 == n else lt(es[i].1, v))
    {
      var es := Elems(tree);
      var k := IndexOf(n);
      if k < i {
        assert es[..i][k].1 == heap[n].value;
      } else {
        assert es[i..][k - i].1 == heap[n].value;
      }
    }

    method LowerBound(key: K) returns (r: nat)
      requires Valid()
      ensures r == 0 ==> forall n :: n in heap ==> lt(heap[n].value, key)
      ensures r != 0 ==> r in heap && !lt(heap[r].value, key)
      ensures r != 0 ==> forall n :: n in heap && n != r ==> lt(heap[n].value, key) || lt(heap[r].value, heap[n].value)
    {
      ghost var i;
      r, i := GetFloor(key);
      NonNull();
      if i < |Elems(tree)| {
        ValueAt(i);
        assert Elems(tree)[i..][0] == Elems(tree)[i];
      }
      forall n | n in heap && (r == 0 || n != r)
        ensures lt(heap[n].value, key) || (r != 0 && lt(heap[r].value, heap[n].value))
      {
        SplitAt(i, n);
      }
    }

    method UpperBound(key: K) returns (r: nat)
      requires Valid()
      ensures r == 0 ==> forall n :: n in heap ==> !lt(key, heap[n].value)
      ensures r != 0 ==> r in heap && lt(key, heap[r].value)
      ensures r != 0 ==> forall n :: n in heap && n != r ==> !lt(key, heap[n].value) || lt(heap[r].value, heap[n].value)
    {
      ghost var i;
      r, i := GetCeiling(key);
      NonNull();
      if i < |Elems(tree)| {
        ValueAt(i);
        assert Elems(tree)[i..][0] == Elems(tree)[i];
      }
      forall n | n in heap && (r == 0 || n != r)
        ensures !lt(key, heap[n].value) || (r != 0 && lt(heap[r].value, heap[n].value))
      {
        SplitAt(i, n);
      }
    }

    // ----- iterators -----

    /** The first node in order below `node`; `p` is the path down to it. */
    method Leftmost(node: nat, ghost t: Tree<K>, ghost q: nat) returns (r: nat, ghost p: Ctx<K>, ghost u: Tree<K>)
      requires Rep(heap, t, q) && t.Node? && node == t.at
      ensures Plug(p, u) == t && u.Node? && u.left.Leaf? && u.at == r && Before(p) == []
      ensures Elems(t)[0] == (r, u.key)
    {
      r, p, u := node, Top, t;
      ghost var q' := q;
      while r != 0 && heap[r].Left() != 0
        invariant Rep(heap, u, q') && u.Node? && r == u.at && Plug(p, u) == t && Before(p) == []
        decreases u
      {
        r := heap[r].Left();
        p, q', u := Frame(true, u.at, u.key, u.red, u.right, p), u.at, u.left;
      }
      assert Rep(heap, u.left, u.at);
      SearchHit(p, u);
    }

    method Rightmost(node: nat, ghost t: Tree<K>, ghost q: nat) returns (r: nat)
      requires Rep(heap, t, q) && t.Node? && node == t.at
      ensures Elems(t)[|Elems(t)| - 1].0 == r
    {
      r := node;
      ghost var u, q', p := t, q, Top;
      while r != 0 && heap[r].right != 0
        invariant Rep(heap, u, q') && u.Node? && r == u.at && Plug(p, u) == t && After(p) == []
        decreases u
      {
        r := heap[r].right;
        p, q', u := Frame(false, u.at, u.key, u.red, u.left, p), u.at, u.right;
      }
      SearchHit(p, u);
      PlugElems(p, u);
    }

    method Begin() returns (r: nat)
      requires Valid()
      ensures r == Pos(Elems(tree), 0)
    {
      if root != 0 {
        ghost var p, u;
        r, p, u := Leftmost(root, tree, 0);
      } else {
        r := 0;
      }
    }

    /** `operator++`: from the i-th element to the next, or to null after the last. */
    method Next(n: nat, ghost i: nat) returns (r: nat)
      requires Valid() && i < |Elems(tree)| && Elems(tree)[i].0 == n
      ensures r == Pos(Elems(tree), i + 1)
    {
      ghost var c, t := AtElem(heap, root, tree, n, i);
      AtFields(heap, root, c, t);
      if heap[n].right != 0 {
        ghost var p, u;
        AtRight(heap, root, c, t);
        r, p, u := Leftmost(heap[n].right, t.right, t.at);
        FirstRight(c, t);
      } else {
        r := ClimbFromRight(n, c, t);
      }
    }

    method ClimbFromRight(n: nat, ghost c0: Ctx<K>, ghost t0: Tree<K>) returns (r: nat)
      requires At(heap, root, c0, t0) && t0.Node? && t0.at == n && t0.right.Leaf?
      ensures r == Pos(Elems(Plug(c0, t0)), |Before(c0)| + |Elems(t0.left)| + 1)
    {
      var node := n;
      ghost var c, t := c0, t0;
      AtFields(heap, root, c, t);
      var parent := heap[node].parent;
      if c.Frame? { SideVisible(heap, root, c, t); }
      while parent != 0 && node == heap[parent].right
        invariant At(heap, root, c, t) && t.Node? && t.at == node && parent == CPtr(c)
        invariant Plug(c, t) == Plug(c0, t0)
        invariant |Before(c)| + |Elems(t)| == |Before(c0)| + |Elems(t0.left)| + 1
        invariant c.Frame? ==> c.at != 0 && c.at in heap && (!c.onLeft <==> t.at == heap[c.at].right)
        decreases c
      {
        AtFields(heap, root, c, t);
        node := parent;
        parent := heap[parent].parent;
        AtUp(heap, root, c, t);
        c, t := c.up, Raise(c, t);
        if c.Frame? { SideVisible(heap, root, c, t); }
      }
      r := parent;
      FirstAfter(c, t);
    }

    /** `operator--`: from the i-th element to the one before, or to null from the
        first.  Stepping back from null traps. */
    method Prev(n: nat, ghost i: nat) returns (r: nat)
      requires Valid() && i < |Elems(tree)| && Elems(tree)[i].0 == n
      ensures r == if i > 0 then Pos(Elems(tree), i - 1) else 0
    {
      ghost var c, t := AtElem(heap, root, tree, n, i);
      AtFields(heap, root, c, t);
      if heap[n].Left() != 0 {
        AtLeft(heap, root, c, t);
        r := Rightmost(heap[n].Left(), t.left, t.at);
        LastLeft(c, t);
      } else {
        r := ClimbFromLeft(n, c, t);
      }
    }

    method ClimbFromLeft(n: nat, ghost c0: Ctx<K>, ghost t0: Tree<K>) returns (r: nat)
      requires At(heap, root, c0, t0) && t0.Node? && t0.at == n && t0.left.Leaf?
      ensures r == if |Before(c0)| > 0 then Pos(Elems(Plug(c0, t0)), |Before(c0)| - 1) else 0
    {
      var node := n;
      ghost var c, t := c0, t0;
      AtFields(heap, root, c, t);
      var parent := heap[node].parent;
      if c.Frame? { SideVisible(heap, root, c, t); }
      while true
        invariant At(heap, root, c, t) && t.Node? && t.at == node && parent == CPtr(c)
        invariant Plug(c, t) == Plug(c0, t0) && |Before(c)| == |Before(c0)|
        invariant c.Frame? ==> c.at != 0 && c.at in heap && (c.onLeft <==> t.at == heap[c.at].Left())
        decreases c
      {
        if parent == 0 { break; }
        if node == heap[parent].Left() {
          AtFields(heap, root, c, t);
          node := parent;
          parent := heap[parent].parent;
          AtUp(heap, root, c, t);
          c, t := c.up, Raise(c, t);
          if c.Frame? { SideVisible(heap, root, c, t); }
        } else {
          break;
        }
      }
      r := parent;
      LastBefore(c, t);
    }

    // ----- rotations -----

    method LeftRotate(x: nat, ghost c: Ctx<K>, ghost t: Tree<K>)
      requires At(heap, root, c, t) && t.Node? && t.at == x && t.right.Node?
      modifies `heap, `root
      ensures At(heap, root, c, RotL(t))
      ensures heap.Keys == old(heap.Keys)
    {
      ghost var h, r := heap, root;
      ghost var b, p := t.right.left, CPtr(c);
      assert Rep(h, t.right, x) && Rep(h, b, t.right.at);
      assert Nodes(t.right) == {t.right.at} + Nodes(b) + Nodes(t.right.right);
      assert b.Node? ==> b.at in Nodes(b);
      if c.Frame? { SideVisible(heap, root, c, t); }
      LeftRotateLinks(x, t.right.at, Ptr(b), p);
      RotLAt(h, r, c, t, heap, root);
    }

    method LeftRotateLinks(x: nat, ghost y0: nat, ghost b: nat, ghost p: nat)
      requires x in heap && heap[x].right == y0 && heap[x].parent == p
      requires y0 in heap && heap[y0].Left() == b
      requires (b != 0 ==> b in heap) && (p != 0 ==> p in heap) && x != 0 && y0 != 0
      requires x != y0 && b != x && b != y0 && p != x && p != y0 && (p == b ==> p == 0)
      modifies `heap, `root
      ensures heap.Keys == old(heap.Keys)
      ensures heap[x] == old(heap[x]).(right := b, parent := y0)
      ensures heap[y0] == old(heap[y0]).SetLeft(x).(parent := p)
      ensures b != 0 ==> heap[b] == old(heap[b]).(parent := x)
      ensures root == if p == 0 then y0 else old(root)
      ensures p != 0 ==>
        heap[p] == if old(heap[p]).Left() == x then old(heap[p]).SetLeft(y0) else old(heap[p]).(right := y0)
      ensures Same(old(heap), heap, heap.Keys - {x, y0, b, p})
    {
      var y := heap[x].right;
      heap := heap[x := heap[x].(right := heap[y].Left())];
      if heap[y].Left() != 0 {
        heap := heap[heap[y].Left() := heap[heap[y].Left()].(parent := x)];
      }
      heap := heap[y := heap[y].(parent := heap[x].parent)];
      if heap[x].parent == 0 {
        root := y;
      } else if x == heap[heap[x].parent].Left() {
        heap := heap[heap[x].parent := heap[heap[x].parent].SetLeft(y)];
      } else {
        heap := heap[heap[x].parent := heap[heap[x].parent].(right := y)];
      }
      heap := heap[y := heap[y].SetLeft(x)];
      heap := heap[x := heap[x].(parent := y)];
    }

    method RightRotate(y: nat, ghost c: Ctx<K>, ghost t: Tree<K>)
      requires At(heap, root, c, t) && t.Node? && t.at == y && t.left.Node?
      modifies `heap, `root
      ensures At(heap, root, c, RotR(t))
      ensures heap.Keys == old(heap.Keys)
    {
      ghost var h, r := heap, root;
      ghost var b, p := t.left.right, CPtr(c);
      assert Rep(h, t.left, y) && Rep(h, b, t.left.at);
      assert Nodes(t.left) == {t.left.at} + Nodes(b) + Nodes(t.left.left);
      assert b.Node? ==> b.at in Nodes(b);
      if c.Frame? { SideVisible(heap, root, c, t); }
      RightRotateLinks(y, t.left.at, Ptr(b), p);
      RotRAt(h, r, c, t, heap, root);
    }

    method RightRotateLinks(y: nat, ghost x0: nat, ghost b: nat, ghost p: nat)
      requires y in heap && heap[y].Left() == x0 && heap[y].parent == p
      requires x0 in heap && heap[x0].right == b
      requires (b != 0 ==> b in heap) && (p != 0 ==> p in heap) && y != 0 && x0 != 0 && b % 2 == 0
      requires y != x0 && b != y && b != x0 && p != y && p != x0 && (p == b ==> p == 0)
      modifies `heap, `root
      ensures heap.Keys == old(heap.Keys)
      ensures heap[y] == old(heap[y]).SetLeft(b).(parent := x0)
      ensures heap[x0] == old(heap[x0]).(right := y, parent := p)
      ensures b != 0 ==> heap[b] == old(heap[b]).(parent := y)
      ensures root == if p == 0 then x0 else old(root)
      ensures p != 0 ==>
        heap[p] == if old(heap[p]).right == y then old(heap[p]).(right := x0) else old(heap[p]).SetLeft(x0)
      ensures Same(old(heap), heap, heap.Keys - {y, x0, b, p})
    {
      var x := heap[y].Left();
      heap := heap[y := heap[y].SetLeft(heap[x].right)];
      if heap[x].right != 0 {
        heap := heap[heap[x].right := heap[heap[x].right].(parent := y)];
      }
      heap := heap[x := heap[x].(parent := heap[y].parent)];
      if heap[y].parent == 0 {
        root := x;
      } else if y == heap[heap[y].parent].right {
        heap := heap[heap[y].parent := heap[heap[y].parent].(right := x)];
      } else {
        heap := heap[heap[y].parent := heap[heap[y].parent].SetLeft(x)];
      }
      heap := heap[x := heap[x].(right := y)];
      heap := heap[y := heap[y].(parent := x)];
    }

    method SetRed(n: nat, red: bool, ghost c: Ctx<K>, ghost t: Tree<K>)
      requires At(heap, root, c, t) && t.Node? && t.at == n
      modifies `heap
      ensures At(heap, root, c, t.(red := red))
      ensures heap.Keys == old(heap.Keys)
    {
      ghost var h := heap;
      heap := heap[n := heap[n].SetRed(red)];
      RepFrame(h, heap, t.left, n);
      RepFrame(h, heap, t.right, n);
      CRepFrame(h, heap, c, n);
    }

    // ----- rebalancing after an insertion -----

    method InsertRecolour(node: nat, parent: nat, grand: nat, uncle: nat, ghost c: Ctx<K>, ghost t: Tree<K>)
      requires At(heap, root, c, t) && Ins.Clash(c, t) && c.up.Frame? && Red(c.up.sib)
      requires node == t.at && parent == c.at && grand == c.up.at && uncle == c.up.sib.at
      modifies `heap
      ensures At(heap, root, c.up.up, Ins.Recoloured(c, t))
      ensures heap.Keys == old(heap.Keys)
    {
      ghost var g := c.up;
      ghost var p := Raise(c, t);
      AtUp(heap, root, c, t);
      SetRed(parent, false, g, p);
      ghost var p' := p.(red := false);
      AtUp(heap, root, g, p');
      ghost var side := Frame(!g.onLeft, g.at, g.key, g.red, p', g.up);
      AtUp(heap, root, side, g.sib);
      SetRed(uncle, false, side, g.sib);
      AtUp(heap, root, side, g.sib.(red := false));
      SetRed(grand, true, g.up, Mk(g.onLeft, p', g.at, g.key, g.red, g.sib.(red := false)));
    }

    /** What the loop reads around a clash. */
    lemma InsertFields(c: Ctx<K>, t: Tree<K>)
      requires At(heap, root, c, t) && Ins.Clash(c, t) && c.up.Frame?
      ensures t.at in heap && heap[t.at].parent == c.at && c.at in heap && heap[c.at].parent == c.up.at
      ensures c.up.at in heap
      ensures heap[c.up.at].Left() == (if c.up.onLeft then c.at else Ptr(c.up.sib))
      ensures heap[c.up.at].right == (if c.up.onLeft then Ptr(c.up.sib) else c.at)
      ensures c.at != Ptr(c.up.sib)
      ensures c.onLeft <==> t.at == heap[c.at].Left()
      ensures !c.onLeft <==> t.at == heap[c.at].right
      ensures c.up.sib.Node? ==> c.up.sib.at != 0 && c.up.sib.at in heap && heap[c.up.sib.at].IsRed() == c.up.sib.red
      ensures At(heap, root, c.up, Raise(c, t))
    {
      AtFields(heap, root, c, t);
      AtUp(heap, root, c, t);
      SideVisible(heap, root, c.up, Raise(c, t));
      SideVisible(heap, root, c, t);
      assert Rep(heap, c.up.sib, c.up.at);
      assert c.up.sib.Node? ==> Rep(heap, c.up.sib.left, c.up.sib.at);
    }

    /** Parent turns black and grandparent red, ready for the last rotation. */
    method InsertPaint(node: nat, ghost c: Ctx<K>, ghost t: Tree<K>)
      requires At(heap, root, c, t) && Ins.Clash(c, t) && t.at == node && c.up.Frame?
      modifies `heap
      ensures node in heap && heap[node].parent == c.at && c.at in heap && heap[c.at].parent == c.up.at
      ensures At(heap, root, c.up.up,
                 Mk(c.up.onLeft, Mk(c.onLeft, t, c.at, c.key, false, c.sib), c.up.at, c.up.key, true, c.up.sib))
      ensures heap.Keys == old(heap.Keys)
    {
      ghost var g := c.up;
      ghost var p := Raise(c, t);
      AtFields(heap, root, c, t);
      AtUp(heap, root, c, t);
      SetRed(heap[node].parent, false, g, p);
      ghost var c1 := Frame(c.onLeft, c.at, c.key, false, c.sib, g);
      AtUp(heap, root, c1, t);
      AtFields(heap, root, c1, t);
      AtUp(heap, root, g, p.(red := false));
      ghost var q := Mk(g.onLeft, p.(red := false), g.at, g.key, g.red, g.sib);
      SetRed(heap[heap[node].parent].parent, true, g.up, q);
      ghost var g2 := Frame(g.onLeft, g.at, g.key, true, g.sib, g.up);
      ghost var c2 := Frame(c.onLeft, c.at, c.key, false, c.sib, g2);
      AtUp(heap, root, g2, p.(red := false));
      AtUp(heap, root, c2, t);
      AtFields(heap, root, c2, t);
    }

    /** One round of the loop when the parent is a left child. */
    method InsertStepLeft(node0: nat, ghost c0: Ctx<K>, ghost t0: Tree<K>)
      returns (node: nat, ghost c: Ctx<K>, ghost t: Tree<K>)
      requires At(heap, root, c0, t0) && Ins.Clash(c0, t0) && t0.at == node0
      requires c0.up.Frame? && c0.up.onLeft
      modifies `heap, `root
      ensures At(heap, root, c, t) && Ins.Pending(c, t) && t.at == node
      ensures Depth(c) < Depth(c0) && Elems(Plug(c, t)) == Elems(Plug(c0, t0))
      ensures heap.Keys == old(heap.Keys)
    {
      node, c, t := node0, c0, t0;
      InsertFields(c, t);
      var uncle := heap[heap[heap[node].parent].parent].right;
      if uncle != 0 && heap[uncle].IsRed() {
        Ins.RecolouredPending(c, t);
        Ins.RecolouredElems(c, t);
        var grand := heap[heap[node].parent].parent;
        InsertRecolour(node, heap[node].parent, grand, uncle, c, t);
        node, c, t := grand, c.up.up, Ins.Recoloured(c, t);
      } else {
        if node == heap[heap[node].parent].right {
          node := heap[node].parent;
          LeftRotate(node, c.up, Raise(c, t));
          Ins.InnerClash(c, t);
          Ins.InnerElems(c, t);
          ghost var r := Ins.Inner(c, t);
          c, t := r.0, r.1;
          AtUp(heap, root, c, t);
        }
        InsertPaint(node, c, t);
        RightRotate(heap[heap[node].parent].parent, c.up.up,
                    Mk(true, Mk(true, t, c.at, c.key, false, c.sib), c.up.at, c.up.key, true, c.up.sib));
        Ins.OuterPending(c, t);
        Ins.OuterElems(c, t);
        c := Ins.Outer(c);
        AtUp(heap, root, c, t);
      }
    }

    /** One round of the loop when the parent is a right child. */
    method InsertStepRight(node0: nat, ghost c0: Ctx<K>, ghost t0: Tree<K>)
      returns (node: nat, ghost c: Ctx<K>, ghost t: Tree<K>)
      requires At(heap, root, c0, t0) && Ins.Clash(c0, t0) && t0.at == node0
      requires c0.up.Frame? && !c0.up.onLeft
      modifies `heap, `root
      ensures At(heap, root, c, t) && Ins.Pending(c, t) && t.at == node
      ensures Depth(c) < Depth(c0) && Elems(Plug(c, t)) == Elems(Plug(c0, t0))
      ensures heap.Keys == old(heap.Keys)
    {
      node, c, t := node0, c0, t0;
      InsertFields(c, t);
      var uncle := heap[heap[heap[node].parent].parent].Left();
      if uncle != 0 && heap[uncle].IsRed() {
        Ins.RecolouredPending(c, t);
        Ins.RecolouredElems(c, t);
        var grand := heap[heap[node].parent].parent;
        InsertRecolour(node, heap[node].parent, grand, uncle, c, t);
        node, c, t := grand, c.up.up, Ins.Recoloured(c, t);
      } else {
        if node == heap[heap[node].parent].Left() {
          node := heap[node].parent;
          RightRotate(node, c.up, Raise(c, t));
          Ins.InnerClash(c, t);
          Ins.InnerElems(c, t);
          ghost var r := Ins.Inner(c, t);
          c, t := r.0, r.1;
          AtUp(heap, root, c, t);
        }
        InsertPaint(node, c, t);
        LeftRotate(heap[heap[node].parent].parent, c.up.up,
                   Mk(false, Mk(false, t, c.at, c.key, false, c.sib), c.up.at, c.up.key, true, c.up.sib));
        Ins.OuterPending(c, t);
        Ins.OuterElems(c, t);
        c := Ins.Outer(c);
        AtUp(heap, root, c, t);
      }
    }

    method RebalanceAfterInsert(node0: nat, ghost c0: Ctx<K>, ghost t0: Tree<K>) returns (ghost u: Tree<K>)
      requires At(heap, root, c0, t0) && t0.Node? && t0.at == node0 && Ins.Pending(c0, t0.(red := true))
      modifies `heap, `root
      ensures At(heap, root, Top, u) && Legal(u) && Elems(u) == Elems(Plug(c0, t0))
      ensures heap.Keys == old(heap.Keys)
    {
      var node := node0;
      ghost var c, t := c0, t0.(red := true);
      SetRed(node, true, c0, t0);
      PlugElems(c0, t0);
      PlugElems(c, t);
      AtFields(heap, root, c, t);
      RootIsTop(heap, c, t);
      while node != root && heap[heap[node].parent].IsRed()
        invariant At(heap, root, c, t) && Ins.Pending(c, t) && t.at == node
        invariant t.at in heap && heap[t.at].parent == CPtr(c) && (c.Top? <==> node == root)
        invariant c.Frame? ==> c.at in heap && heap[c.at].IsRed() == c.red
        invariant Elems(Plug(c, t)) == Elems(Plug(c0, t0))
        invariant heap.Keys == old(heap.Keys)
        decreases Depth(c)
      {
        Ins.ClashHasGrandparent(c, t);
        InsertFields(c, t);
        if heap[node].parent == heap[heap[heap[node].parent].parent].Left() {
          node, c, t := InsertStepLeft(node, c, t);
        } else {
          node, c, t := InsertStepRight(node, c, t);
        }
        AtFields(heap, root, c, t);
        RootIsTop(heap, c, t);
      }
      AtPlug(heap, root, c, t);
      Ins.Settled(c, t);
      SetRed(root, false, Top, Plug(c, t));
      u := Blacken(Plug(c, t));
    }

    // ----- rebalancing after an erasure -----

    /** What the loop reads around a short cursor. */
    lemma EraseFields(c: Ctx<K>, x: Tree<K>)
      requires At(heap, root, c, x) && c.Frame? && c.sib.Node?
      ensures c.at != 0 && c.at in heap && heap[c.at].parent == CPtr(c.up) && heap[c.at].IsRed() == c.red
      ensures heap[c.at].Left() == (if c.onLeft then Ptr(x) else c.sib.at)
      ensures heap[c.at].right == (if c.onLeft then c.sib.at else Ptr(x))
      ensures c.onLeft <==> Ptr(x) == heap[c.at].Left()
      ensures var s := c.sib;
        && s.at != 0 && s.at in heap && heap[s.at].IsRed() == s.red
        && heap[s.at].Left() == Ptr(s.left) && heap[s.at].right == Ptr(s.right)
        && (s.left.Node? ==> s.left.at != 0 && s.left.at in heap && heap[s.left.at].IsRed() == s.left.red)
        && (s.right.Node? ==> s.right.at != 0 && s.right.at in heap && heap[s.right.at].IsRed() == s.right.red)
    {
      SideVisible(heap, root, c, x);
      AtAcross(heap, root, c, x);
      AtFields(heap, root, Across(c, x), c.sib);
    }

    /** Recolour the sibling and the parent. */
    method PaintPair(sibling: nat, sred: bool, parent: nat, pred: bool, ghost c: Ctx<K>, ghost x: Tree<K>)
      requires At(heap, root, c, x) && c.Frame? && c.sib.Node? && sibling == c.sib.at && parent == c.at
      modifies `heap
      ensures At(heap, root, c.(red := pred, sib := c.sib.(red := sred)), x)
      ensures At(heap, root, c.up, Raise(c.(red := pred, sib := c.sib.(red := sred)), x))
      ensures heap.Keys == old(heap.Keys)
    {
      AtAcross(heap, root, c, x);
      SetRed(sibling, sred, Across(c, x), c.sib);
      ghost var c1 := c.(sib := c.sib.(red := sred));
      assert Across(c1, x) == Across(c, x);
      AtAcross(heap, root, c1, x);
      AtUp(heap, root, c1, x);
      SetRed(parent, pred, c1.up, Raise(c1, x));
      AtUp(heap, root, c1.(red := pred), x);
    }

    /** The sibling turns red, and the parent becomes the short cursor. */
    method PushUpSibling(sibling: nat, ghost c: Ctx<K>, ghost x: Tree<K>)
      requires At(heap, root, c, x) && c.Frame? && c.sib.Node? && c.sib.at == sibling
      modifies `heap
      ensures At(heap, root, c.up, Del.PushUp(c, x))
      ensures c.at in heap && heap[c.at].parent == CPtr(c.up)
      ensures heap.Keys == old(heap.Keys)
    {
      AtAcross(heap, root, c, x);
      SetRed(sibling, true, Across(c, x), c.sib);
      ghost var c1 := c.(sib := c.sib.(red := true));
      assert Across(c1, x) == Across(c, x);
      AtAcross(heap, root, c1, x);
      AtUp(heap, root, c1, x);
      EraseFields(c1, x);
    }

    /** One round of the loop when the short cursor is a left child. */
    method EraseStepLeft(node0: nat, parent0: nat, ghost c0: Ctx<K>, ghost x0: Tree<K>)
      returns (node: nat, parent: nat, done: bool, ghost c: Ctx<K>, ghost x: Tree<K>)
      requires At(heap, root, c0, x0) && Del.Stuck(c0, x0) && c0.onLeft && node0 == Ptr(x0) && parent0 == c0.at
      modifies `heap, `root
      ensures At(heap, root, c, x) && Elems(Plug(c, x)) == Elems(Plug(c0, x0))
      ensures done ==> Legal(Plug(c, x)) && node == root
      ensures !done ==> Del.Short(c, x) && node == Ptr(x) && parent == CPtr(c) && (Red(x) || Depth(c) < Depth(c0))
      ensures heap.Keys == old(heap.Keys)
    {
      node, parent, done, c, x := node0, parent0, false, c0, x0;
      Del.StuckHasSibling(c, x);
      EraseFields(c, x);
      var sibling := heap[parent].right;
      if heap[sibling].IsRed() {
        PaintPair(sibling, false, parent, true, c, x);
        LeftRotate(parent, c.up, Raise(c.(red := true, sib := c.sib.(red := false)), x));
        Del.RedSiblingStuck(c, x);
        Del.RedSiblingElems(c, x);
        c := Del.RedSibling(c);
        AtUp(heap, root, c.up, Raise(c, x));
        AtUp(heap, root, c, x);
        EraseFields(c, x);
        sibling := heap[parent].right;
      }
      if (heap[sibling].Left() == 0 || !heap[heap[sibling].Left()].IsRed())
         && (heap[sibling].right == 0 || !heap[heap[sibling].right].IsRed()) {
        PushUpSibling(sibling, c, x);
        Del.PushUpShort(c, x);
        Del.PushUpElems(c, x);
        node := parent;
        parent := heap[node].parent;
        c, x := c.up, Del.PushUp(c, x);
      } else {
        EraseFinishLeft(parent, sibling, c, x);
        if !Red(c.sib.right) {
          Del.NearRedStuck(c, x);
          Del.NearRedElems(c, x);
          c := Del.NearRed(c);
        }
        Del.FarRedLegal(c, x);
        Del.FarRedElems(c, x);
        c, x := c.up, Del.FarRed(c, x);
        node, done := root, true;
      }
    }

    method EraseFinishLeft(parent: nat, sibling0: nat, ghost c0: Ctx<K>, ghost x: Tree<K>)
      requires At(heap, root, c0, x) && Del.Stuck(c0, x) && c0.onLeft && parent == c0.at
      requires c0.sib.Node? && !c0.sib.red && sibling0 == c0.sib.at && (Red(c0.sib.left) || Red(c0.sib.right))
      modifies `heap, `root
      ensures At(heap, root, c0.up, Del.FarRed(if Red(c0.sib.right) then c0 else Del.NearRed(c0), x))
      ensures heap.Keys == old(heap.Keys)
    {
      var sibling := sibling0;
      ghost var c := c0;
      EraseFields(c, x);
      if heap[sibling].right == 0 || !heap[heap[sibling].right].IsRed() {
        EraseNearLeft(sibling, c, x);
        Del.NearRedStuck(c, x);
        c := Del.NearRed(c);
        EraseFields(c, x);
        sibling := heap[parent].right;
      }
      EraseFarLeft(parent, sibling, c, x);
    }

    /** The near child of the sibling takes its place. */
    method EraseNearLeft(sibling: nat, ghost c: Ctx<K>, ghost x: Tree<K>)
      requires At(heap, root, c, x) && c.Frame? && c.onLeft && c.sib.Node? && c.sib.at == sibling
      requires !c.sib.red && c.sib.left.Node?
      modifies `heap, `root
      ensures At(heap, root, Del.NearRed(c), x)
      ensures heap.Keys == old(heap.Keys)
    {
      EraseFields(c, x);
      AtAcross(heap, root, c, x);
      ghost var a, s := Across(c, x), c.sib;
      AtLeft(heap, root, a, s);
      ghost var side := Frame(true, s.at, s.key, s.red, s.right, a);
      SetRed(heap[sibling].Left(), false, side, s.left);
      ghost var s1 := s.(left := s.left.(red := false));
      AtUp(heap, root, side, s1.left);
      SetRed(sibling, true, a, s1);
      RightRotate(sibling, a, s1.(red := true));
      assert Across(Del.NearRed(c), x) == a;
      AtAcross(heap, root, Del.NearRed(c), x);
    }

    /** The sibling takes the parent's place and colour, its far child turns black. */
    method EraseFarLeft(parent: nat, sibling: nat, ghost c: Ctx<K>, ghost x: Tree<K>)
      requires At(heap, root, c, x) && c.Frame? && c.onLeft && c.at == parent
      requires c.sib.Node? && c.sib.at == sibling && c.sib.right.Node?
      modifies `heap, `root
      ensures At(heap, root, c.up, Del.FarRed(c, x))
      ensures heap.Keys == old(heap.Keys)
    {
      EraseFields(c, x);
      PaintPair(sibling, heap[parent].IsRed(), parent, false, c, x);
      ghost var c1 := c.(red := false, sib := c.sib.(red := c.red));
      AtAcross(heap, root, c1, x);
      EraseFields(c1, x);
      ghost var a, s := Across(c1, x), c1.sib;
      AtRight(heap, root, a, s);
      ghost var side := Frame(false, s.at, s.key, s.red, s.left, a);
      SetRed(heap[sibling].right, false, side, s.right);
      AtUp(heap, root, side, s.right.(red := false));
      ghost var c2 := c1.(sib := s.(right := s.right.(red := false)));
      assert Across(c2, x) == a;
      AtAcross(heap, root, c2, x);
      AtUp(heap, root, c2, x);
      LeftRotate(parent, c2.up, Raise(c2, x));
    }

    /** One round of the loop when the short cursor is a right child. */
    method EraseStepRight(node0: nat, parent0: nat, ghost c0: Ctx<K>, ghost x0: Tree<K>)
      returns (node: nat, parent: nat, done: bool, ghost c: Ctx<K>, ghost x: Tree<K>)
      requires At(heap, root, c0, x0) && Del.Stuck(c0, x0) && !c0.onLeft && node0 == Ptr(x0) && parent0 == c0.at
      modifies `heap, `root
      ensures At(heap, root, c, x) && Elems(Plug(c, x)) == Elems(Plug(c0, x0))
      ensures done ==> Legal(Plug(c, x)) && node == root
      ensures !done ==> Del.Short(c, x) && node == Ptr(x) && parent == CPtr(c) && (Red(x) || Depth(c) < Depth(c0))
      ensures heap.Keys == old(heap.Keys)
    {
      node, parent, done, c, x := node0, parent0, false, c0, x0;
      Del.StuckHasSibling(c, x);
      EraseFields(c, x);
      var sibling := heap[parent].Left();
      if heap[sibling].IsRed() {
        PaintPair(sibling, false, parent, true, c, x);
        RightRotate(parent, c.up, Raise(c.(red := true, sib := c.sib.(red := false)), x));
        Del.RedSiblingStuck(c, x);
        Del.RedSiblingElems(c, x);
        c := Del.RedSibling(c);
        AtUp(heap, root, c.up, Raise(c, x));
        AtUp(heap, root, c, x);
        EraseFields(c, x);
        sibling := heap[parent].Left();
      }
      if (heap[sibling].right == 0 || !heap[heap[sibling].right].IsRed())
         && (heap[sibling].Left() == 0 || !heap[heap[sibling].Left()].IsRed()) {
        PushUpSibling(sibling, c, x);
        Del.PushUpShort(c, x);
        Del.PushUpElems(c, x);
        node := parent;
        parent := heap[node].parent;
        c, x := c.up, Del.PushUp(c, x);
      } else {
        EraseFinishRight(parent, sibling, c, x);
        if !Red(c.sib.left) {
          Del.NearRedStuck(c, x);
          Del.NearRedElems(c, x);
          c := Del.NearRed(c);
        }
        Del.FarRedLegal(c, x);
        Del.FarRedElems(c, x);
        c, x := c.up, Del.FarRed(c, x);
        node, done := root, true;
      }
    }

    method EraseFinishRight(parent: nat, sibling0: nat, ghost c0: Ctx<K>, ghost x: Tree<K>)
      requires At(heap, root, c0, x) && Del.Stuck(c0, x) && !c0.onLeft && parent == c0.at
      requires c0.sib.Node? && !c0.sib.red && sibling0 == c0.sib.at && (Red(c0.sib.left) || Red(c0.sib.right))
      modifies `heap, `root
      ensures At(heap, root, c0.up, Del.FarRed(if Red(c0.sib.left) then c0 else Del.NearRed(c0), x))
      ensures heap.Keys == old(heap.Keys)
    {
      var sibling := sibling0;
      ghost var c := c0;
      EraseFields(c, x);
      if heap[sibling].Left() == 0 || !heap[heap[sibling].Left()].IsRed() {
        EraseNearRight(sibling, c, x);
        Del.NearRedStuck(c, x);
        c := Del.NearRed(c);
        EraseFields(c, x);
        sibling := heap[parent].Left();
      }
      EraseFarRight(parent, sibling, c, x);
    }

    /** The near child of the sibling takes its place. */
    method EraseNearRight(sibling: nat, ghost c: Ctx<K>, ghost x: Tree<K>)
      requires At(heap, root, c, x) && c.Frame? && !c.onLeft && c.sib.Node? && c.sib.at == sibling
      requires !c.sib.red && c.sib.right.Node?
      modifies `heap, `root
      ensures At(heap, root, Del.NearRed(c), x)
      ensures heap.Keys == old(heap.Keys)
    {
      EraseFields(c, x);
      AtAcross(heap, root, c, x);
      ghost var a, s := Across(c, x), c.sib;
      AtRight(heap, root, a, s);
      ghost var side := Frame(false, s.at, s.key, s.red, s.left, a);
      SetRed(heap[sibling].right, false, side, s.right);
      ghost var s1 := s.(right := s.right.(red := false));
      AtUp(heap, root, side, s1.right);
      SetRed(sibling, true, a, s1);
      LeftRotate(sibling, a, s1.(red := true));
      assert Across(Del.NearRed(c), x) == a;
      AtAcross(heap, root, Del.NearRed(c), x);
    }

    /** The sibling takes the parent's place and colour, its far child turns black. */
    method EraseFarRight(parent: nat, sibling: nat, ghost c: Ctx<K>, ghost x: Tree<K>)
      requires At(heap, root, c, x) && c.Frame? && !c.onLeft && c.at == parent
      requires c.sib.Node? && c.sib.at == sibling && c.sib.left.Node?
      modifies `heap, `root
      ensures At(heap, root, c.up, Del.FarRed(c, x))
      ensures heap.Keys == old(heap.Keys)
    {
      EraseFields(c, x);
      PaintPair(sibling, heap[parent].IsRed(), parent, false, c, x);
      ghost var c1 := c.(red := false, sib := c.sib.(red := c.red));
      AtAcross(heap, root, c1, x);
      EraseFields(c1, x);
      ghost var a, s := Across(c1, x), c1.sib;
      AtLeft(heap, root, a, s);
      ghost var side := Frame(true, s.at, s.key, s.red, s.right, a);
      SetRed(heap[sibling].Left(), false, side, s.left);
      AtUp(heap, root, side, s.left.(red := false));
      ghost var c2 := c1.(sib := s.(left := s.left.(red := false)));
      assert Across(c2, x) == a;
      AtAcross(heap, root, c2, x);
      AtUp(heap, root, c2, x);
      RightRotate(parent, c2.up, Raise(c2, x));
    }

    method RebalanceAfterErase(node0: nat, parent0: nat, ghost c0: Ctx<K>, ghost x0: Tree<K>) returns (ghost u: Tree<K>)
      requires At(heap, root, c0, x0) && Del.Short(c0, x0) && node0 == Ptr(x0) && parent0 == CPtr(c0)
      modifies `heap, `root
      ensures At(heap, root, Top, u) && Legal(u) && Elems(u) == Elems(Plug(c0, x0))
      ensures heap.Keys == old(heap.Keys)
    {
      var node, parent, done := node0, parent0, false;
      ghost var c, x := c0, x0;
      CursorFacts(c, x);
      while !done && node != root && (node == 0 || !heap[node].IsRed())
        invariant At(heap, root, c, x) && Elems(Plug(c, x)) == Elems(Plug(c0, x0))
        invariant done ==> Legal(Plug(c, x)) && node == root
        invariant !done ==> Del.Short(c, x) && node == Ptr(x) && parent == CPtr(c) && (c.Top? <==> node == root)
        invariant !done && x.Node? ==> x.at != 0 && x.at in heap && heap[x.at].IsRed() == x.red
        invariant heap.Keys == old(heap.Keys)
        decreases if done then 0 else 1, if Red(x) then 0 else 1, Depth(c)
      {
        Del.StuckHasSibling(c, x);
        EraseFields(c, x);
        if node == heap[parent].Left() {
          node, parent, done, c, x := EraseStepLeft(node, parent, c, x);
        } else {
          node, parent, done, c, x := EraseStepRight(node, parent, c, x);
        }
        CursorFacts(c, x);
      }
      if done {
        AtPlug(heap, root, c, x);
        c, x := Top, Plug(c, x);
      } else {
        Del.Repaired(c, x);
      }
      if node != 0 {
        SetRed(node, false, c, x);
      }
      u := Plug(c, Blacken(x));
      AtPlug(heap, root, c, Blacken(x));
    }

    lemma CursorFacts(c: Ctx<K>, x: Tree<K>)
      requires At(heap, root, c, x)
      ensures c.Top? <==> Ptr(x) == root
      ensures x.Node? ==> x.at != 0 && x.at in heap && heap[x.at].IsRed() == x.red
    {
      RootIsTop(heap, c, x);
      if x.Node? { AtFields(heap, root, c, x); }
    }

    // ----- insertion -----

    /** Hang a new red leaf below the node where the search fell off. */
    method LinkLeaf(node: nat, parent: nat, ghost c: Ctx<K>)
      requires At(heap, root, c, Leaf) && c.Frame? && parent == c.at
      requires Aligned(node) && node in heap && node !in CNodes(c)
      requires heap[node].left_ == 1 && heap[node].right == 0 && (c.onLeft <==> lt(heap[node].value, c.key))
      modifies `heap
      ensures At(heap, root, c, Node(Leaf, node, old(heap[node].value), true, Leaf))
      ensures heap.Keys == old(heap.Keys)
    {
      ghost var h := heap;
      if lt(heap[node].value, heap[parent].value) {
        heap := heap[parent := heap[parent].SetLeft(node)];
      } else {
        heap := heap[parent := heap[parent].(right := node)];
      }
      heap := heap[node := heap[node].(parent := parent)];
      assert Rep(h, c.sib, c.at);
      CRepRefocus(h, heap, root, c, 0, node);
    }

    /** The descent of `insert_node`: an equivalent element, or the empty slot for `node`. */
    method FindSlot(node: nat, ghost k: K) returns (current: nat, parent: nat, ghost c: Ctx<K>, ghost i: nat)
      requires StrictOrder(lt) && At(heap, root, Top, tree) && Sorted(lt, Elems(tree))
      requires node in heap && heap[node].value == k && root != 0
      ensures current != 0 <==> Holds(lt, Elems(tree), k)
      ensures current != 0 ==> i < |Elems(tree)| && Elems(tree)[i].0 == current && Equivalent(lt, Elems(tree)[i].1, k)
      ensures current == 0 ==> At(heap, root, c, Leaf) && Plug(c, Leaf) == tree && c.Frame? && parent == c.at
      ensures current == 0 ==> Brackets(lt, c, k) && (c.onLeft <==> lt(k, c.key))
    {
      ghost var t;
      current, parent, c, t := DescendToSlot(node, k);
      SearchOutcome(lt, c, t, k);
      RootIsTop(heap, c, t);
      i := if t.Node? then |Before(c)| + |Elems(t.left)| else 0;
    }

    method DescendToSlot(node: nat, ghost k: K) returns (current: nat, parent: nat, ghost c: Ctx<K>, ghost t: Tree<K>)
      requires StrictOrder(lt) && At(heap, root, Top, tree) && Sorted(lt, Elems(tree))
      requires node in heap && heap[node].value == k
      ensures At(heap, root, c, t) && Plug(c, t) == tree && current == Ptr(t)
      ensures parent == (if t.Leaf? then CPtr(c) else t.at)
      ensures Brackets(lt, c, k) && (c.Frame? ==> (c.onLeft <==> lt(k, c.key)))
      ensures t.Node? ==> current != 0 && Equivalent(lt, t.key, k)
    {
      current, parent := root, 0;
      c, t := Top, tree;
      while current != 0
        invariant At(heap, root, c, t) && Plug(c, t) == tree && current == Ptr(t) && parent == CPtr(c)
        invariant Brackets(lt, c, k) && (c.Frame? ==> (c.onLeft <==> lt(k, c.key)))
        decreases t
      {
        AtFields(heap, root, c, t);
        SearchStep(lt, c, t, k);
        parent := current;
        if lt(heap[node].value, heap[current].value) {
          current := heap[current].Left();
          AtLeft(heap, root, c, t);
          c, t := Frame(true, t.at, t.key, t.red, t.right, c), t.left;
        } else if lt(heap[current].value, heap[node].value) {
          current := heap[current].right;
          AtRight(heap, root, c, t);
          c, t := Frame(false, t.at, t.key, t.red, t.left, c), t.right;
        } else {
          return;
        }
      }
    }

    method InsertNode(node: nat) returns (it: nat, inserted: bool, ghost i: nat)
      requires Ready(node)
      modifies this
      ensures Valid() && inserted == !old(Holds(lt, Elems(tree), heap[node].value))
      ensures inserted ==> it == node && PutIn(old(Elems(tree)), i, (node, old(heap[node].value)), Elems(tree))
      ensures !inserted ==> heap == old(heap) - {node} && root == old(root) && size == old(size) && tree == old(tree)
      ensures !inserted ==> i < |Elems(tree)| && Elems(tree)[i].0 == it
      ensures !inserted ==> Equivalent(lt, Elems(tree)[i].1, old(heap[node].value))
    {
      if root == 0 {
        PlantRoot(node);
        return node, true, 0;
      }
      var current, parent;
      ghost var c;
      current, parent, c, i := FindSlot(node, heap[node].value);
      if current != 0 {
        Discard(node);
        return current, false, i;
      }
      Attach(node, parent, c);
      it, inserted, i := node, true, |Before(c)|;
    }

    /** A new node is allocated but not yet linked. */
    ghost predicate Ready(node: nat)
      reads this
    {
      && StrictOrder(lt) && At(heap, root, Top, tree) && heap.Keys == Nodes(tree) + {node}
      && size == |Elems(tree)| && Sorted(lt, Elems(tree)) && Legal(tree)
      && Aligned(node) && node !in Nodes(tree) && node in heap
      && heap[node].left_ == 1 && heap[node].right == 0 && heap[node].parent == 0
    }

    /** `delete node`: the key was already there. */
    method Discard(node: nat)
      requires Ready(node)
      modifies `heap
      ensures Valid() && heap == old(heap) - {node}
    {
      AtFrame(heap, heap - {node}, root, Top, tree);
      heap := heap - {node};
    }

    method PlantRoot(node: nat)
      requires Ready(node) && root == 0
      modifies this
      ensures Valid() && PutIn(old(Elems(tree)), 0, (node, old(heap[node].value)), Elems(tree))
      ensures !old(Holds(lt, Elems(tree), heap[node].value))
    {
      ghost var k := heap[node].value;
      assert tree == Leaf && Elems(tree) == [];
      root := node;
      tree := Node(Leaf, node, k, true, Leaf);
      SetRed(root, false, Top, tree);
      tree := Node(Leaf, node, k, false, Leaf);
      size := size + 1;
    }

    method Attach(node: nat, parent: nat, ghost c: Ctx<K>)
      requires Ready(node) && At(heap, root, c, Leaf) && Plug(c, Leaf) == tree && c.Frame? && parent == c.at
      requires Brackets(lt, c, heap[node].value) && (c.onLeft <==> lt(heap[node].value, c.key))
      modifies this
      ensures Valid() && PutIn(old(Elems(tree)), |Before(c)|, (node, old(heap[node].value)), Elems(tree))
    {
      ghost var k := heap[node].value;
      ghost var leaf := Node(Leaf, node, k, true, Leaf);
      InsertedElems(c, node, k);
      PlugDistinct(c, Leaf);
      LinkLeaf(node, parent, c);
      size := size + 1;
      Ins.FreshLeaf(c, node, k);
      ghost var u := RebalanceAfterInsert(node, c, leaf);
      AttachedElems(lt, c, node, k, u);
      tree := u;
    }

    /** `insert(value)`: `node` is the address the allocator hands out. */
    method Insert(key: K, node: nat) returns (it: nat, inserted: bool, ghost i: nat)
      requires Valid() && Aligned(node) && node !in heap
      modifies this
      ensures Valid() && inserted == !old(Holds(lt, Elems(tree), key))
      ensures size == old(size) + if inserted then 1 else 0
      ensures inserted ==> it == node && PutIn(old(Elems(tree)), i, (node, key), Elems(tree))
      ensures !inserted ==> heap == old(heap) && root == old(root) && tree == old(tree)
      ensures !inserted ==> i < |Elems(tree)| && Elems(tree)[i].0 == it && Equivalent(lt, Elems(tree)[i].1, key)
    {
      ghost var h := heap;
      heap := heap[node := Rec(1, 0, 0, key)];
      AtFrame(h, heap, root, Top, tree);
      it, inserted, i := InsertNode(node);
      assert heap[node := Rec(1, 0, 0, key)] - {node} == heap - {node};
    }

    // ----- erasure -----

    method Transplant(u: nat, v: nat, ghost p: nat)
      requires u in heap && heap[u].parent == p && u != 0
      requires (p != 0 ==> p in heap) && (v != 0 ==> v in heap && v != p) && u != p && u != v && v % 2 == 0
      modifies `heap, `root
      ensures heap.Keys == old(heap.Keys)
      ensures root == if p == 0 then v else old(root)
      ensures p != 0 ==>
        heap[p] == if u == old(heap[p]).Left() then old(heap[p]).SetLeft(v) else old(heap[p]).(right := v)
      ensures v != 0 ==> heap[v] == old(heap[v]).(parent := p)
      ensures Same(old(heap), heap, heap.Keys - {p, v})
    {
      if heap[u].parent == 0 {
        root := v;
      } else if u == heap[heap[u].parent].Left() {
        heap := heap[heap[u].parent := heap[heap[u].parent].SetLeft(v)];
      } else {
        heap := heap[heap[u].parent := heap[heap[u].parent].(right := v)];
      }
      if v != 0 {
        heap := heap[v := heap[v].(parent := heap[u].parent)];
      }
    }

    /** Transplanting the only child `v` of the cursor into its place. */
    method Splice(u: nat, v0: nat, ghost c: Ctx<K>, ghost t: Tree<K>, ghost v: Tree<K>)
      requires At(heap, root, c, t) && t.Node? && u == t.at && v0 == Ptr(v)
      requires (t.left.Leaf? && v == t.right) || (t.right.Leaf? && v == t.left)
      modifies `heap, `root
      ensures At(heap, root, c, v) && heap.Keys == old(heap.Keys) && heap[u] == old(heap[u])
    {
      ghost var h := heap;
      AtFields(heap, root, c, t);
      if c.Frame? { SideVisible(heap, root, c, t); }
      assert Rep(heap, v, u);
      assert v.Node? ==> v.at in Nodes(v);
      assert c.Frame? ==> c.at in CNodes(c);
      Transplant(u, v0, CPtr(c));
      Replanted(h, c, u, v, u, heap, root);
    }

    method TakePlaceLinks(node: nat, y: nat, ghost l: nat, ghost p: nat)
      requires node in heap && heap[node].parent == p && heap[node].Left() == l
      requires y in heap && l in heap && (p != 0 ==> p in heap)
      requires node != 0 && y != 0 && node != y && y % 2 == 0
      requires l != node && l != y && p != node && p != y && p != l
      modifies `heap, `root
      ensures heap.Keys == old(heap.Keys)
      ensures root == if p == 0 then y else old(root)
      ensures p != 0 ==>
        heap[p] == if node == old(heap[p]).Left() then old(heap[p]).SetLeft(y) else old(heap[p]).(right := y)
      ensures heap[y] == old(heap[y]).(left_ := old(heap[node]).left_, parent := p)
      ensures heap[l] == old(heap[l]).(parent := y)
      ensures Same(old(heap), heap, heap.Keys - {p, y, l})
    {
      Transplant(node, y, p);
      heap := heap[y := heap[y].SetLeft(heap[node].Left())];
      heap := heap[heap[y].Left() := heap[heap[y].Left()].(parent := y)];
      heap := heap[y := heap[y].SetRed(heap[node].IsRed())];
    }

    /** `y`, already holding the right subtree `r`, takes the place of `node`. */
    method TakePlace(node: nat, y: nat, ghost c: Ctx<K>, ghost l: Tree<K>, ghost red: bool, ghost ky: K,
                     ghost r: Tree<K>)
      requires Vacating(heap, root, c, node, l, red, y, ky, r)
      modifies `heap, `root
      ensures At(heap, root, c, Node(l, y, ky, red, r)) && heap.Keys == old(heap.Keys)
    {
      ghost var h, r0 := heap, root;
      VacatingFields(h, root, c, node, l, red, y, ky, r);
      TakePlaceLinks(node, y, l.at, CPtr(c));
      Vacated(h, r0, c, node, l, red, y, ky, r, heap, root);
    }

    /** The two-children case: the successor moves into the place of `node`. */
    method ReplaceBySuccessor(node: nat, ghost c: Ctx<K>, ghost t: Tree<K>)
      returns (x: nat, xParent: nat, yRed: bool, ghost p: Ctx<K>, ghost u: Tree<K>)
      requires At(heap, root, c, t) && t.Node? && node == t.at && t.left.Node? && t.right.Node?
      modifies `heap, `root
      ensures t.right == Plug(p, u) && u.Node? && u.left.Leaf? && Before(p) == [] && yRed == u.red
      ensures var cx := Compose(p, Frame(false, u.at, u.key, t.red, t.left, c));
        At(heap, root, cx, u.right) && x == Ptr(u.right) && xParent == CPtr(cx)
      ensures heap.Keys == old(heap.Keys)
    {
      ghost var f := Frame(false, t.at, t.key, t.red, t.left, c);
      AtFields(heap, root, c, t);
      AtRight(heap, root, c, t);
      var y;
      y, p, u := Leftmost(heap[node].right, t.right, node);
      AtCompose(heap, root, p, f, u);
      AtFields(heap, root, Compose(p, f), u);
      SuccessorApart(c, t, p, u);
      yRed := heap[y].IsRed();
      x := heap[y].right;
      if heap[y].parent == node {
        if x != 0 {
          heap := heap[x := heap[x].(parent := y)];
        }
        assert Rep(old(heap), u.right, y);
        assert heap == old(heap);
        xParent := y;
        VacatingDirect(heap, root, c, t);
      } else {
        xParent := DetachSuccessor(node, y, c, t, p, u);
      }
      TakePlace(node, y, c, t.left, t.red, u.key, Plug(p, u.right));
      AtRight(heap, root, c, Node(t.left, y, u.key, t.red, Plug(p, u.right)));
      AtCompose(heap, root, p, Frame(false, u.at, u.key, t.red, t.left, c), u.right);
    }

    /** A successor below the right child gives up its place and adopts the right subtree. */
    method DetachSuccessor(node: nat, y: nat, ghost c: Ctx<K>, ghost t: Tree<K>, ghost p: Ctx<K>, ghost u: Tree<K>)
      returns (xParent: nat)
      requires At(heap, root, c, t) && t.Node? && node == t.at && t.left.Node? && t.right == Plug(p, u)
      requires p.Frame? && u.Node? && u.left.Leaf? && u.at == y
      modifies `heap, `root
      ensures Vacating(heap, root, c, node, t.left, t.red, y, u.key, Plug(p, u.right)) && xParent == p.at
      ensures heap.Keys == old(heap.Keys)
    {
      ghost var f := Frame(false, t.at, t.key, t.red, t.left, c);
      ghost var r := Plug(p, u.right);
      AtRight(heap, root, c, t);
      AtCompose(heap, root, p, f, u);
      AtFields(heap, root, Compose(p, f), u);
      SuccessorApart(c, t, p, u);
      Splice(y, heap[y].right, Compose(p, f), u, u.right);
      AtCompose(heap, root, p, f, u.right);
      AtUp(heap, root, f, r);
      AtFields(heap, root, c, t.(right := r));
      ghost var h := heap;
      heap := heap[y := heap[y].(right := heap[node].right)];
      heap := heap[heap[y].right := heap[heap[y].right].(parent := y)];
      VacatingDeep(h, root, c, t.(right := r), y, u.key, heap);
      assert y != r.at by { assert r.at in Nodes(r); }
      xParent := heap[y].parent;
    }

    /** Takes `node` out of the links; the cursor left behind may be one black node short. */
    method Unlink(node: nat, ghost c: Ctx<K>, ghost t: Tree<K>)
      returns (x: nat, xParent: nat, yRed: bool, ghost cx: Ctx<K>, ghost tx: Tree<K>)
      requires At(heap, root, c, t) && t.Node? && node == t.at && Legal(Plug(c, t))
      modifies `heap, `root
      ensures At(heap, root, cx, tx) && x == Ptr(tx) && xParent == CPtr(cx)
      ensures if yRed then Legal(Plug(cx, tx)) else Del.Short(cx, tx)
      ensures Elems(Plug(cx, tx)) == Before(c) + Elems(t.left) + Elems(t.right) + After(c)
      ensures heap.Keys == old(heap.Keys)
    {
      AtFields(heap, root, c, t);
      yRed := heap[node].IsRed();
      if heap[node].Left() == 0 {
        x := heap[node].right;
        Splice(node, heap[node].right, c, t, t.right);
        xParent := heap[node].parent;
        Del.SplicedOne(c, t, t.right);
        cx, tx := c, t.right;
      } else if heap[node].right == 0 {
        x := heap[node].Left();
        Splice(node, heap[node].Left(), c, t, t.left);
        xParent := heap[node].parent;
        Del.SplicedOne(c, t, t.left);
        cx, tx := c, t.left;
      } else {
        ghost var p, u;
        x, xParent, yRed, p, u := ReplaceBySuccessor(node, c, t);
        Del.SplicedTwo(c, t, p, u);
        Del.SplicedTwoElems(c, t, p, u);
        cx, tx := Compose(p, Frame(false, u.at, u.key, t.red, t.left, c)), u.right;
      }
    }

    /** Removes exactly the i-th element; every other node keeps its address, key and order. */
    method EraseNode(node: nat, ghost i: nat)
      requires Valid() && i < |Elems(tree)| && Elems(tree)[i].0 == node
      modifies this
      ensures Valid() && Elems(tree) == old(Elems(tree))[..i] + old(Elems(tree))[i + 1..]
      ensures size == old(size) - 1 && heap.Keys == old(heap.Keys) - {node}
    {
      ghost var c, t := AtElem(heap, root, tree, node, i);
      ghost var v := EraseLinks(node, c, t);
      Erased(lt, heap, root, c, t, v);
      FreeErased(node, v);
    }

    /** Frees the unlinked node. */
    method FreeErased(node: nat, ghost v: Tree<K>)
      requires StrictOrder(lt) && size == |Elems(v)| + 1 && Sorted(lt, Elems(v)) && Legal(v)
      requires At(heap - {node}, root, Top, v) && (heap - {node}).Keys == Nodes(v)
      modifies this
      ensures Valid() && tree == v && size == old(size) - 1 && heap == old(heap) - {node}
    {
      heap := heap - {node};
      size := size - 1;
      tree := v;
    }

    /** Everything but the deletion of the node itself. */
    method EraseLinks(node: nat, ghost c: Ctx<K>, ghost t: Tree<K>) returns (ghost v: Tree<K>)
      requires At(heap, root, c, t) && t.Node? && t.at == node && Legal(Plug(c, t))
      modifies this`heap, this`root
      ensures At(heap, root, Top, v) && Legal(v) && heap.Keys == old(heap.Keys)
      ensures Elems(v) == Before(c) + Elems(t.left) + Elems(t.right) + After(c)
    {
      var x, xParent, yRed;
      ghost var cx, tx;
      x, xParent, yRed, cx, tx := Unlink(node, c, t);
      v := Plug(cx, tx);
      if !yRed {
        v := RebalanceAfterErase(x, xParent, cx, tx);
      } else {
        AtPlug(heap, root, cx, tx);
      }
    }

    /** `erase(key)`: 1 and the element gone, or 0 and nothing changed. */
    method EraseKey(key: K) returns (n: nat, ghost i: nat)
      requires Valid()
      modifies this
      ensures Valid() && n == if old(Holds(lt, Elems(tree), key)) then 1 else 0
      ensures n == 0 ==> unchanged(this)
      ensures n == 1 ==> i < |old(Elems(tree))| && Equivalent(lt, old(Elems(tree))[i].1, key)
      ensures n == 1 ==> Elems(tree) == old(Elems(tree))[..i] + old(Elems(tree))[i + 1..] && size == old(size) - 1
    {
      var node;
      ghost var steps;
      node, i, steps := GetElement(key);
      if node == 0 {
        return 0, 0;
      }
      EraseNode(node, i);
      return 1, i;
    }

    /** `erase(pos)`: the iterator returned is the element that followed, still in the set. */
    method EraseAt(node: nat, ghost i: nat) returns (r: nat)
      requires Valid() && i < |Elems(tree)| && Elems(tree)[i].0 == node
      modifies this
      ensures Valid() && Elems(tree) == old(Elems(tree))[..i] + old(Elems(tree))[i + 1..]
      ensures r == Pos(Elems(tree), i)
    {
      r := Next(node, i);
      EraseNode(node, i);
    }

    /** `erase(first, last)`: `last` is null or an element not before `first`. */
    method EraseRange(first: nat, last: nat, ghost i: nat, ghost j: nat)
      requires Valid() && i <= j <= |Elems(tree)|
      requires first == Pos(Elems(tree), i) && last == Pos(Elems(tree), j)
      modifies this
      ensures Valid() && Elems(tree) == old(Elems(tree))[..i] + old(Elems(tree))[j..]
    {
      ghost var es := Elems(tree);
      ghost var k := i;
      var at := first;
      if first == last { PosInjective(i, j); }
      assert es[..i] + es[i..] == es;
      while at != last
        invariant Valid() && i <= k <= j <= |es| && Elems(tree) == es[..i] + es[k..]
        invariant at == Pos(es, k) && last == Pos(es, j) && (at == last ==> k == j)
        decreases j - k
      {
        assert k != j;
        at := EraseStep(at, last, es, i, k, j);
        k := k + 1;
      }
    }

    method EraseStep(at: nat, last: nat, ghost es: seq<Elem<K>>, ghost i: nat, ghost k: nat, ghost j: nat)
      returns (r: nat)
      requires Valid() && i <= k < j <= |es| && Elems(tree) == es[..i] + es[k..] && at == Pos(es, k)
      requires last == Pos(es, j)
      modifies this
      ensures Valid() && Elems(tree) == es[..i] + es[k + 1..] && r == Pos(es, k + 1) && (r == last ==> k + 1 == j)
    {
      CutOne(es, i, k);
      r := EraseAt(at, i);
      CutPos(es, i, k + 1, j);
      if r == last { PosInjective(i, i + (j - (k + 1))); }
    }

    lemma PosInjective(i: nat, j: nat)
      requires Valid() && i <= |Elems(tree)| && j <= |Elems(tree)| && Pos(Elems(tree), i) == Pos(Elems(tree), j)
      ensures i == j
    {
      NonNull();
      if i < |Elems(tree)| && j < |Elems(tree)| { DistinctElems(tree, i, j); }
    }

    lemma ValueAt(i: nat)
      requires Valid() && i < |Elems(tree)|
      ensures Elems(tree)[i].0 in heap && heap[Elems(tree)[i].0].value == Elems(tree)[i].1
    {
      var c, t := AtElem(heap, root, tree, Elems(tree)[i].0, i);
      AtFields(heap, root, c, t);
      SearchHit(c, t);
    }

    lemma NonNull()
      requires Valid()
      ensures forall n :: 0 <= n < |Elems(tree)| ==> Elems(tree)[n].0 in heap && Elems(tree)[n].0 != 0
    {
      NodesAreElems(tree);
      RepNodes(heap, tree, 0);
    }

    // ----- self check -----

    method Tally(node: nat, ghost t: Tree<K>) returns (n: nat)
      requires Shape(heap, t) && Distinct(t) && node == Ptr(t)
      ensures n == |Elems(t)|
      decreases t
    {
      if node == 0 {
        return 0;
      }
      ShapeFields(heap, t);
      var l := Tally(heap[node].Left(), t.left);
      var r := Tally(heap[node].right, t.right);
      n := 1 + l + r;
    }

    /** The part of `checker` that compares a node with its parent. */
    ghost predicate FitsParent(t: Tree<K>, parent: nat)
      requires parent != 0 ==> parent in heap
      reads this
    {
      t.Node? && parent != 0 ==>
        && (heap[parent].Left() == t.at ==> lt(t.key, heap[parent].value))
        && (heap[parent].right == t.at ==> lt(heap[parent].value, t.key))
        && !(t.red && heap[parent].IsRed())
    }

    /** The parent links may be anything. */
    method Check() returns (ok: bool)
      requires root == Ptr(tree) && Shape(heap, tree) && Distinct(tree)
      ensures ok <==> Rep(heap, tree, 0) && Legal(tree) && Linked(lt, tree) && size == |Elems(tree)|
      ensures Valid() ==> ok
    {
      var count := 0;
      if Sorted(lt, Elems(tree)) { SortedIsLinked(lt, tree); }
      RepParts(heap, tree, 0);
      if root != 0 {
        ShapeFields(heap, tree);
        if heap[root].IsRed() {
          return false;
        }
        var blackHeight;
        ok, blackHeight := Checker(root, 0, 0, -1, tree);
        if !ok {
          return false;
        }
        count := Tally(root, tree);
      }
      ok := count == size;
    }

    /** `ok` is false where the source traps; a black height of -1 is not yet known. */
    method Checker(node: nat, parent: nat, blackCount0: nat, blackHeight0: int, ghost t: Tree<K>)
      returns (ok: bool, blackHeight: int)
      requires Shape(heap, t) && Distinct(t) && node == Ptr(t) && blackHeight0 >= -1
      requires parent != 0 ==> parent in heap
      ensures ok <==>
        && Parents(heap, t, parent) && RB(t) && Linked(lt, t) && FitsParent(t, parent)
        && (blackHeight0 == -1 || blackHeight0 == blackCount0 + BH(t))
      ensures ok ==> blackHeight == blackCount0 + BH(t)
      decreases t
    {
      var blackCount := blackCount0;
      blackHeight := blackHeight0;
      if node == 0 {
        if blackHeight == -1 {
          blackHeight := blackCount;
        } else if blackCount != blackHeight {
          return false, blackHeight;
        }
        return true, blackHeight;
      }
      if heap[node].parent != parent {
        return false, blackHeight;
      }
      if parent != 0 {
        if heap[parent].Left() == node && !lt(heap[node].value, heap[parent].value) {
          return false, blackHeight;
        }
        if heap[parent].right == node && !lt(heap[parent].value, heap[node].value) {
          return false, blackHeight;
        }
      }
      ShapeFields(heap, t);
      if !heap[node].IsRed() {
        blackCount := blackCount + 1;
      } else if parent != 0 && heap[parent].IsRed() {
        return false, blackHeight;
      }
      ok, blackHeight := Checker(heap[node].Left(), node, blackCount, blackHeight, t.left);
      if ok {
        ok, blackHeight := Checker(heap[node].right, node, blackCount, blackHeight, t.right);
      }
    }
  }
}
