/** Red-black trees as values, seen through a cursor.

    A tree node carries the address of the heap record it stands for, so that
    the in-order sequence of (address, key) pairs says which nodes a tree holds
    and in what order.  A context is a tree with one missing subtree; rotations,
    recolourings and the two rebalancing loops act on the subtree at the cursor
    and leave its context alone. */
module RbTree {
  import opened Orders

  datatype Tree<K> =
    | Leaf
    | Node(left: Tree<K>, at: nat, key: K, red: bool, right: Tree<K>)

  /** `Frame(onLeft, ...)` is a node whose left child (`onLeft`) or right child
      is the hole; `sib` is its other child. */
  datatype Ctx<K> =
    | Top
    | Frame(onLeft: bool, at: nat, key: K, red: bool, sib: Tree<K>, up: Ctx<K>)

  type Elem<K> = (nat, K)

  function Mk<K>(onLeft: bool, near: Tree<K>, at: nat, key: K, red: bool, far: Tree<K>): Tree<K> {
    if onLeft then Node(near, at, key, red, far) else Node(far, at, key, red, near)
  }

  function Plug<K>(c: Ctx<K>, t: Tree<K>): Tree<K> {
    match c
    case Top => t
    case Frame(d, a, k, r, s, up) => Plug(up, Mk(d, t, a, k, r, s))
  }

  function Ptr<K>(t: Tree<K>): nat {
    if t.Leaf? then 0 else t.at
  }

  function CPtr<K>(c: Ctx<K>): nat {
    if c.Top? then 0 else c.at
  }

  function Depth<K>(c: Ctx<K>): nat {
    if c.Top? then 0 else 1 + Depth(c.up)
  }

  /** A path below `c`, continued by `c`. */
  function Compose<K>(p: Ctx<K>, c: Ctx<K>): Ctx<K> {
    if p.Top? then c else p.(up := Compose(p.up, c))
  }

  lemma {:induction false} PlugCompose<K>(p: Ctx<K>, c: Ctx<K>, t: Tree<K>)
    ensures Plug(Compose(p, c), t) == Plug(c, Plug(p, t))
  {
    if p.Frame? {
      PlugCompose(p.up, c, Mk(p.onLeft, t, p.at, p.key, p.red, p.sib));
    }
  }

  // ----- contents -----

  function Elems<K>(t: Tree<K>): seq<Elem<K>> {
    match t
    case Leaf => []
    case Node(l, a, k, _, r) => Elems(l) + [(a, k)] + Elems(r)
  }

  function Before<K>(c: Ctx<K>): seq<Elem<K>> {
    match c
    case Top => []
    case Frame(d, a, k, _, s, up) => if d then Before(up) else Before(up) + Elems(s) + [(a, k)]
  }

  function After<K>(c: Ctx<K>): seq<Elem<K>> {
    match c
    case Top => []
    case Frame(d, a, k, _, s, up) => if d then [(a, k)] + Elems(s) + After(up) else After(up)
  }

  lemma Regroup<T>(p: seq<T>, q: seq<T>, r: seq<T>, s: seq<T>, u: seq<T>)
    ensures p + (q + r + s) + u == p + q + (r + s + u)
    ensures p + (q + r + s) + u == p + q + r + s + u
    ensures p + (q + r + s) + u == (p + q) + r + (s + u)
  {
  }

  lemma {:induction false} PlugElems<K>(c: Ctx<K>, t: Tree<K>)
    ensures Elems(Plug(c, t)) == Before(c) + Elems(t) + After(c)
  {
    match c
    case Top =>
    case Frame(d, a, k, r, s, up) =>
      PlugElems(up, Mk(d, t, a, k, r, s));
      Regroup(Before(up), Elems(t), [(a, k)], Elems(s), After(up));
      Regroup(Before(up), Elems(s), [(a, k)], Elems(t), After(up));
  }

  /** Rotating the cursor's subtree does not change the in-order sequence. */
  lemma RotateElems<K>(a: Tree<K>, x: nat, kx: K, rx: bool, b: Tree<K>, y: nat, ky: K, ry: bool, e: Tree<K>)
    ensures Elems(Node(a, x, kx, rx, Node(b, y, ky, ry, e))) == Elems(Node(Node(a, x, kx, rx, b), y, ky, ry, e))
  {
    assert Elems(a) + [(x, kx)] + (Elems(b) + [(y, ky)] + Elems(e))
        == Elems(a) + [(x, kx)] + Elems(b) + [(y, ky)] + Elems(e);
  }

  // ----- addresses -----

  ghost function Nodes<K>(t: Tree<K>): set<nat> {
    if t.Leaf? then {} else {t.at} + Nodes(t.left) + Nodes(t.right)
  }

  ghost function CNodes<K>(c: Ctx<K>): set<nat> {
    if c.Top? then {} else {c.at} + Nodes(c.sib) + CNodes(c.up)
  }

  ghost predicate Distinct<K>(t: Tree<K>) {
    t.Node? ==>
      && t.at !in Nodes(t.left) && t.at !in Nodes(t.right)
      && Nodes(t.left) !! Nodes(t.right)
      && Distinct(t.left) && Distinct(t.right)
  }

  ghost predicate CDistinct<K>(c: Ctx<K>) {
    c.Frame? ==>
      && c.at !in Nodes(c.sib) && c.at !in CNodes(c.up)
      && Nodes(c.sib) !! CNodes(c.up)
      && Distinct(c.sib) && CDistinct(c.up)
  }

  lemma {:induction false} PlugDistinct<K>(c: Ctx<K>, t: Tree<K>)
    ensures Nodes(Plug(c, t)) == Nodes(t) + CNodes(c)
    ensures Distinct(Plug(c, t)) <==> Distinct(t) && CDistinct(c) && Nodes(t) !! CNodes(c)
  {
    match c
    case Top =>
    case Frame(d, a, k, r, s, up) => PlugDistinct(up, Mk(d, t, a, k, r, s));
  }

  ghost function Addrs<K>(es: seq<Elem<K>>): set<nat> {
    set i | 0 <= i < |es| :: es[i].0
  }

  lemma AddrsJoin<K>(es: seq<Elem<K>>, fs: seq<Elem<K>>)
    ensures Addrs(es + fs) == Addrs(es) + Addrs(fs)
  {
    var gs := es + fs;
    forall a | a in Addrs(gs) ensures a in Addrs(es) + Addrs(fs) {
      var i :| 0 <= i < |gs| && gs[i].0 == a;
      if i < |es| { assert es[i].0 == a; } else { assert fs[i - |es|].0 == a; }
    }
    forall a | a in Addrs(es) + Addrs(fs) ensures a in Addrs(gs) {
      if a in Addrs(es) {
        var i :| 0 <= i < |es| && es[i].0 == a;
        assert gs[i].0 == a;
      } else {
        var i :| 0 <= i < |fs| && fs[i].0 == a;
        assert gs[|es| + i].0 == a;
      }
    }
  }

  lemma {:induction false} NodesAreElems<K>(t: Tree<K>)
    ensures Nodes(t) == Addrs(Elems(t))
  {
    if t.Node? {
      NodesAreElems(t.left);
      NodesAreElems(t.right);
      AddrsJoin(Elems(t.left), [(t.at, t.key)]);
      AddrsJoin(Elems(t.left) + [(t.at, t.key)], Elems(t.right));
      assert Addrs([(t.at, t.key)]) == {t.at} by { assert [(t.at, t.key)][0].0 == t.at; }
    }
  }

  lemma AddrIn<K>(es: seq<Elem<K>>, i: nat)
    requires i < |es|
    ensures es[i].0 in Addrs(es)
  {
  }

  /** An address occurs once in order. */
  lemma {:induction false} DistinctElems<K>(t: Tree<K>, i: nat, j: nat)
    requires Distinct(t) && i < |Elems(t)| && j < |Elems(t)| && Elems(t)[i].0 == Elems(t)[j].0
    ensures i == j
  {
    var es, l := Elems(t), |Elems(t.left)|;
    ElemSide(t, i);
    ElemSide(t, j);
    if i < l && j < l {
      DistinctElems(t.left, i, j);
    } else if i > l && j > l {
      DistinctElems(t.right, i - l - 1, j - l - 1);
    }
  }

  /** Which subtree the i-th element comes from. */
  lemma ElemSide<K>(t: Tree<K>, i: nat)
    requires t.Node? && i < |Elems(t)|
    ensures var l := |Elems(t.left)|;
      && (i < l ==> Elems(t)[i] == Elems(t.left)[i] && Elems(t)[i].0 in Nodes(t.left))
      && (i == l ==> Elems(t)[i] == (t.at, t.key))
      && (i > l ==> Elems(t)[i] == Elems(t.right)[i - l - 1] && Elems(t)[i].0 in Nodes(t.right))
  {
    NodesAreElems(t.left);
    NodesAreElems(t.right);
    var l := |Elems(t.left)|;
    JoinAt(Elems(t.left), (t.at, t.key), Elems(t.right), i);
    if i < l { AddrIn(Elems(t.left), i); }
    if i > l { AddrIn(Elems(t.right), i - l - 1); }
  }

  lemma JoinAt<T>(l: seq<T>, e: T, r: seq<T>, i: nat)
    requires i < |l| + 1 + |r|
    ensures (l + [e] + r)[i] == if i < |l| then l[i] else if i == |l| then e else r[i - |l| - 1]
  {
  }

  lemma AddrsRemove<K>(es: seq<Elem<K>>, i: nat)
    requires i < |es| && forall j, k :: 0 <= j < |es| && 0 <= k < |es| && es[j].0 == es[k].0 ==> j == k
    ensures Addrs(es[..i] + es[i + 1..]) == Addrs(es) - {es[i].0}
  {
    var fs := es[..i] + es[i + 1..];
    assert forall j :: 0 <= j < |fs| ==> fs[j] == es[if j < i then j else j + 1];
    forall n | n in Addrs(es) - {es[i].0} ensures n in Addrs(fs) {
      var j :| 0 <= j < |es| && es[j].0 == n;
      assert fs[if j < i then j else j - 1].0 == n;
    }
  }

  /** The cursor position of a given node. */
  ghost function Locate<K>(c: Ctx<K>, t: Tree<K>, n: nat): (r: (Ctx<K>, Tree<K>))
    requires n in Nodes(t)
    ensures Plug(r.0, r.1) == Plug(c, t) && r.1.Node? && r.1.at == n
    decreases t
  {
    if t.at == n then (c, t)
    else if n in Nodes(t.left) then Locate(Frame(true, t.at, t.key, t.red, t.right, c), t.left, n)
    else Locate(Frame(false, t.at, t.key, t.red, t.left, c), t.right, n)
  }

  // ----- search order -----

  ghost predicate Sorted<K>(lt: (K, K) -> bool, es: seq<Elem<K>>) {
    forall i, j :: 0 <= i < j < |es| ==> lt(es[i].1, es[j].1)
  }

  ghost predicate AllBelow<K>(lt: (K, K) -> bool, es: seq<Elem<K>>, k: K) {
    forall i :: 0 <= i < |es| ==> lt(es[i].1, k)
  }

  ghost predicate AllAbove<K>(lt: (K, K) -> bool, k: K, es: seq<Elem<K>>) {
    forall i :: 0 <= i < |es| ==> lt(k, es[i].1)
  }

  /** `fs` is `es` with `e` put in at position `i`. */
  ghost predicate PutIn<K>(es: seq<Elem<K>>, i: nat, e: Elem<K>, fs: seq<Elem<K>>) {
    i <= |es| && fs == es[..i] + [e] + es[i..]
  }

  lemma SortedSplit<K>(lt: (K, K) -> bool, b: seq<Elem<K>>, e: Elem<K>, a: seq<Elem<K>>)
    requires Sorted(lt, b + [e] + a)
    ensures AllBelow(lt, b, e.1) && AllAbove(lt, e.1, a) && Sorted(lt, b + a)
  {
    var es := b + [e] + a;
    assert es[|b|] == e;
    assert forall i :: 0 <= i < |b| ==> es[i] == b[i];
    assert forall i :: 0 <= i < |a| ==> es[|b| + 1 + i] == a[i];
    var fs := b + a;
    forall i, j | 0 <= i < j < |fs| ensures lt(fs[i].1, fs[j].1) {
      assert fs[i] == es[if i < |b| then i else i + 1];
      assert fs[j] == es[if j < |b| then j else j + 1];
    }
  }

  lemma SortedJoin<K>(lt: (K, K) -> bool, b: seq<Elem<K>>, e: Elem<K>, a: seq<Elem<K>>)
    requires Sorted(lt, b + a) && AllBelow(lt, b, e.1) && AllAbove(lt, e.1, a)
    ensures Sorted(lt, b + [e] + a)
  {
    var es := b + [e] + a;
    assert forall i :: 0 <= i < |b + a| ==> (b + a)[i] == if i < |b| then es[i] else es[i + 1];
    forall i, j | 0 <= i < j < |es| ensures lt(es[i].1, es[j].1) {
      if i < |b| && j > |b| {
        assert lt((b + a)[i].1, (b + a)[j - 1].1);
      } else if j < |b| {
        assert lt((b + a)[i].1, (b + a)[j].1);
      } else if i > |b| {
        assert lt((b + a)[i - 1].1, (b + a)[j - 1].1);
      }
    }
  }

  ghost predicate Holds<K>(lt: (K, K) -> bool, es: seq<Elem<K>>, k: K) {
    exists i :: 0 <= i < |es| && Equivalent(lt, es[i].1, k)
  }

  /** A node of a sorted tree lies above all that precedes it and below the rest. */
  lemma CursorOrder<K>(lt: (K, K) -> bool, c: Ctx<K>, t: Tree<K>)
    requires t.Node? && Sorted(lt, Elems(Plug(c, t)))
    ensures AllBelow(lt, Before(c) + Elems(t.left), t.key)
    ensures AllAbove(lt, t.key, Elems(t.right) + After(c))
    ensures Elems(Plug(c, t)) == (Before(c) + Elems(t.left)) + [(t.at, t.key)] + (Elems(t.right) + After(c))
  {
    PlugElems(c, t);
    var e := (t.at, t.key);
    Regroup(Before(c), Elems(t.left), [e], Elems(t.right), After(c));
    SortedSplit(lt, Before(c) + Elems(t.left), e, Elems(t.right) + After(c));
  }

  /** Where the search for `k` can still end: what the cursor leaves behind is on
      the right side of `k`. */
  ghost predicate Brackets<K>(lt: (K, K) -> bool, c: Ctx<K>, k: K) {
    AllBelow(lt, Before(c), k) && AllAbove(lt, k, After(c))
  }

  lemma SearchStep<K(!new)>(lt: (K, K) -> bool, c: Ctx<K>, t: Tree<K>, k: K)
    requires StrictOrder(lt) && t.Node? && Sorted(lt, Elems(Plug(c, t))) && Brackets(lt, c, k)
    ensures lt(k, t.key) ==> Brackets(lt, Frame(true, t.at, t.key, t.red, t.right, c), k)
    ensures lt(t.key, k) ==> Brackets(lt, Frame(false, t.at, t.key, t.red, t.left, c), k)
  {
    CursorOrder(lt, c, t);
    var b, a := Before(c) + Elems(t.left), Elems(t.right) + After(c);
    var e := (t.at, t.key);
    assert [e] + Elems(t.right) + After(c) == [e] + a;
    assert lt(k, t.key) ==> AllAbove(lt, k, [e] + a);
    assert lt(t.key, k) ==> AllBelow(lt, b + [e], k);
  }

  lemma SearchMiss<K(!new)>(lt: (K, K) -> bool, c: Ctx<K>, k: K)
    requires StrictOrder(lt) && Brackets(lt, c, k)
    ensures !Holds(lt, Elems(Plug(c, Leaf)), k)
    ensures Elems(Plug(c, Leaf)) == Before(c) + After(c)
  {
    LeafElems(c);
  }

  /** The same step for a search that treats `k` as the upper end of the left part:
      everything left behind on the right is not below `k`. */
  lemma FloorStep<K(!new)>(lt: (K, K) -> bool, c: Ctx<K>, t: Tree<K>, k: K)
    requires StrictOrder(lt) && t.Node? && Sorted(lt, Elems(Plug(c, t)))
    requires AllBelow(lt, Before(c), k) && NoneBelow(lt, After(c), k)
    ensures !lt(t.key, k) ==> NoneBelow(lt, After(Frame(true, t.at, t.key, t.red, t.right, c)), k)
    ensures lt(t.key, k) ==> AllBelow(lt, Before(Frame(false, t.at, t.key, t.red, t.left, c)), k)
  {
    CursorOrder(lt, c, t);
    var b, a := Before(c) + Elems(t.left), Elems(t.right) + After(c);
    var e := (t.at, t.key);
    assert [e] + Elems(t.right) + After(c) == [e] + a;
    assert !lt(t.key, k) ==> NoneBelow(lt, [e] + a, k);
    assert lt(t.key, k) ==> AllBelow(lt, b + [e], k);
  }

  lemma CeilingStep<K(!new)>(lt: (K, K) -> bool, c: Ctx<K>, t: Tree<K>, k: K)
    requires StrictOrder(lt) && t.Node? && Sorted(lt, Elems(Plug(c, t)))
    requires NoneAbove(lt, k, Before(c)) && AllAbove(lt, k, After(c))
    ensures lt(k, t.key) ==> AllAbove(lt, k, After(Frame(true, t.at, t.key, t.red, t.right, c)))
    ensures !lt(k, t.key) ==> NoneAbove(lt, k, Before(Frame(false, t.at, t.key, t.red, t.left, c)))
  {
    CursorOrder(lt, c, t);
    var b, a := Before(c) + Elems(t.left), Elems(t.right) + After(c);
    var e := (t.at, t.key);
    assert [e] + Elems(t.right) + After(c) == [e] + a;
    assert lt(k, t.key) ==> AllAbove(lt, k, [e] + a);
    assert !lt(k, t.key) ==> NoneAbove(lt, k, b + [e]);
  }

  ghost predicate NoneBelow<K>(lt: (K, K) -> bool, es: seq<Elem<K>>, k: K) {
    forall i :: 0 <= i < |es| ==> !lt(es[i].1, k)
  }

  ghost predicate NoneAbove<K>(lt: (K, K) -> bool, k: K, es: seq<Elem<K>>) {
    forall i :: 0 <= i < |es| ==> !lt(k, es[i].1)
  }

  lemma LeafElems<K>(c: Ctx<K>)
    ensures Elems(Plug(c, Leaf)) == Before(c) + After(c)
  {
    PlugElems(c, Leaf);
    assert Elems(Plug(c, Leaf)) == Before(c) + After(c);
  }

  lemma SearchHit<K>(c: Ctx<K>, t: Tree<K>)
    requires t.Node?
    ensures |Before(c)| + |Elems(t.left)| < |Elems(Plug(c, t))|
    ensures Elems(Plug(c, t))[|Before(c)| + |Elems(t.left)|] == (t.at, t.key)
  {
    PlugElems(c, t);
    var i := |Before(c)| + |Elems(t.left)|;
    assert (Before(c) + Elems(t) + After(c))[i] == Elems(t)[|Elems(t.left)|];
  }

  // ----- balance -----

  function BH<K>(t: Tree<K>): nat {
    if t.Leaf? then 0 else BH(t.left) + if t.red then 0 else 1
  }

  predicate Red<K>(t: Tree<K>) {
    t.Node? && t.red
  }

  function Blacken<K>(t: Tree<K>): Tree<K> {
    if t.Leaf? then t else t.(red := false)
  }

  /** Equal black heights everywhere and no red node with a red child. */
  predicate RB<K>(t: Tree<K>) {
    t.Node? ==>
      && BH(t.left) == BH(t.right)
      && (t.red ==> !Red(t.left) && !Red(t.right))
      && RB(t.left) && RB(t.right)
  }

  /** A context that becomes a red-black tree with a black root when its hole
      gets a red-black tree of black height `bh` whose root is red or not as
      `red` says. */
  predicate CRB<K>(c: Ctx<K>, bh: nat, red: bool) {
    c.Frame? ==>
      && RB(c.sib) && BH(c.sib) == bh
      && (c.red ==> !red && !Red(c.sib) && c.up.Frame?)
      && CRB(c.up, bh + if c.red then 0 else 1, c.red)
  }

  /** A red-black tree with a black root. */
  predicate Legal<K>(t: Tree<K>) {
    RB(t) && !Red(t)
  }

  lemma {:induction false} PlugRB<K>(c: Ctx<K>, t: Tree<K>)
    ensures Legal(Plug(c, t)) <==> RB(t) && CRB(c, BH(t), Red(t)) && (c.Top? ==> !Red(t))
  {
    match c
    case Top =>
    case Frame(d, a, k, r, s, up) => PlugRB(up, Mk(d, t, a, k, r, s));
  }

  function Height<K>(t: Tree<K>): nat {
    if t.Leaf? then 0
    else 1 + if Height(t.left) >= Height(t.right) then Height(t.left) else Height(t.right)
  }

  function Pow2(n: nat): nat {
    if n == 0 then 1 else 2 * Pow2(n - 1)
  }

  lemma {:induction false} BlackHeightBounds<K>(t: Tree<K>)
    requires RB(t)
    ensures Pow2(BH(t)) <= |Elems(t)| + 1
    ensures Height(t) <= 2 * BH(t) + if Red(t) then 1 else 0
  {
    if t.Node? {
      BlackHeightBounds(t.left);
      BlackHeightBounds(t.right);
    }
  }

  lemma {:induction false} Pow2Sum(a: nat, b: nat)
    ensures Pow2(a + b) == Pow2(a) * Pow2(b)
  {
    if a > 0 {
      Pow2Sum(a - 1, b);
    }
  }

  lemma {:induction false} Pow2Mono(a: nat, b: nat)
    requires a <= b
    ensures 1 <= Pow2(a) <= Pow2(b)
  {
    if b > 0 && a < b {
      Pow2Mono(a, b - 1);
    } else if a > 0 {
      Pow2Mono(a - 1, b - 1);
    }
  }

  lemma SquareMono(b: nat, n: nat)
    requires b <= n
    ensures b * b <= n * n
  {
  }

  /** The height of a legal tree of n keys is at most 2 log2(n + 1). */
  lemma LegalIsShallow<K>(t: Tree<K>)
    requires Legal(t)
    ensures Height(t) <= 2 * BH(t)
    ensures Pow2(BH(t)) <= |Elems(t)| + 1
    ensures Pow2(Height(t)) <= (|Elems(t)| + 1) * (|Elems(t)| + 1)
  {
    BlackHeightBounds(t);
    Pow2Mono(Height(t), BH(t) + BH(t));
    Pow2Sum(BH(t), BH(t));
    SquareMono(Pow2(BH(t)), |Elems(t)| + 1);
  }

  lemma FewSteps<K>(t: Tree<K>, steps: nat)
    requires Legal(t) && steps <= Height(t)
    ensures Pow2(steps) <= (|Elems(t)| + 1) * (|Elems(t)| + 1)
  {
    LegalIsShallow(t);
    Pow2Mono(steps, Height(t));
  }

  /** A finished search decides whether the key is held. */
  lemma SearchOutcome<K(!new)>(lt: (K, K) -> bool, c: Ctx<K>, t: Tree<K>, k: K)
    requires StrictOrder(lt) && Brackets(lt, c, k) && (t.Node? ==> Equivalent(lt, t.key, k))
    ensures t.Node? <==> Holds(lt, Elems(Plug(c, t)), k)
    ensures t.Node? ==>
      var es, i := Elems(Plug(c, t)), |Before(c)| + |Elems(t.left)|; i < |es| && es[i] == (t.at, t.key)
  {
    if t.Node? {
      SearchHit(c, t);
    } else {
      SearchMiss(lt, c, k);
    }
  }
}
