/** Whole runs of a set: any sequence of insertions and erasures from empty. */
module CtlSetRuns {
  import opened Orders
  import opened RbTree
  import opened RbHeap
  import opened CtlSet

  datatype Op<K> = Put(key: K) | Del(key: K)

  /** A key is in the set when the last operation on its class was an insertion. */
  ghost predicate Live<K>(lt: (K, K) -> bool, ops: seq<Op<K>>, k: K) {
    if ops == [] then false
    else
      var op := ops[|ops| - 1];
      if Equivalent(lt, op.key, k) then op.Put? else Live(lt, ops[..|ops| - 1], k)
  }

  lemma PutHolds<K(!new)>(lt: (K, K) -> bool, es: seq<Elem<K>>, fs: seq<Elem<K>>, i: nat, e: Elem<K>, k: K)
    requires PutIn(es, i, e, fs)
    ensures Holds(lt, fs, k) <==> Holds(lt, es, k) || Equivalent(lt, e.1, k)
  {
    assert fs[i] == e;
    if Holds(lt, es, k) {
      var j :| 0 <= j < |es| && Equivalent(lt, es[j].1, k);
      assert fs[if j < i then j else j + 1] == es[j];
    }
    if Holds(lt, fs, k) {
      var j :| 0 <= j < |fs| && Equivalent(lt, fs[j].1, k);
      if j != i { assert es[if j < i then j else j - 1] == fs[j]; }
    }
  }

  lemma PutHeldHolds<K(!new)>(lt: (K, K) -> bool, es: seq<Elem<K>>, x: K, k: K)
    requires StrictWeak(lt) && Holds(lt, es, x)
    ensures Equivalent(lt, x, k) ==> Holds(lt, es, k)
  {
    var i :| 0 <= i < |es| && Equivalent(lt, es[i].1, x);
  }

  lemma EquivalentChain<K(!new)>(lt: (K, K) -> bool, a: K, k: K, x: K, b: K)
    requires StrictWeak(lt) && Equivalent(lt, a, k) && Equivalent(lt, b, x)
    ensures Equivalent(lt, x, k) ==> Equivalent(lt, a, b)
  {
    if Equivalent(lt, x, k) {
      assert Equivalent(lt, k, x) && Equivalent(lt, x, b);
      assert Equivalent(lt, k, b);
    }
  }

  lemma DelHolds<K(!new)>(lt: (K, K) -> bool, es: seq<Elem<K>>, i: nat, x: K, k: K)
    requires StrictWeak(lt) && Sorted(lt, es) && i < |es| && Equivalent(lt, es[i].1, x)
    ensures Holds(lt, es[..i] + es[i + 1..], k) <==> Holds(lt, es, k) && !Equivalent(lt, x, k)
  {
    var fs := es[..i] + es[i + 1..];
    assert forall j :: 0 <= j < |fs| ==> fs[j] == es[if j < i then j else j + 1];
    if Holds(lt, fs, k) {
      var j :| 0 <= j < |fs| && Equivalent(lt, fs[j].1, k);
      var n := if j < i then j else j + 1;
      assert es[n] == fs[j];
      EquivalentChain(lt, es[n].1, k, x, es[i].1);
    }
    if Holds(lt, es, k) && !Equivalent(lt, x, k) {
      var j :| 0 <= j < |es| && Equivalent(lt, es[j].1, k);
      if j == i {
        assert Equivalent(lt, x, es[i].1);
      }
      assert fs[if j < i then j else j - 1] == es[j];
    }
  }

  /** Some even address is not in use. */
  method Allocate<K>(h: Heap<K>) returns (a: nat)
    ensures Aligned(a) && a !in h
  {
    a := 2;
    ghost var seen: set<nat> := {};
    while a in h
      invariant Aligned(a) && seen <= h.Keys && forall b :: b in seen ==> b < a
      decreases |h.Keys - seen|
    {
      assert a in h.Keys - seen;
      assert h.Keys - (seen + {a}) == (h.Keys - seen) - {a};
      seen := seen + {a};
      a := a + 2;
    }
  }

  method Run<K(!new)>(lt: (K, K) -> bool, ops: seq<Op<K>>) returns (s: Set<K>)
    requires StrictWeak(lt)
    ensures fresh(s) && s.Valid() && s.lt == lt
    ensures forall k :: Holds(lt, Elems(s.tree), k) <==> Live(lt, ops, k)
  {
    s := new Set<K>(lt);
    for n := 0 to |ops|
      invariant s.Valid() && s.lt == lt && fresh(s)
      invariant forall k :: Holds(lt, Elems(s.tree), k) <==> Live(lt, ops[..n], k)
    {
      ghost var es := Elems(s.tree);
      assert ops[..n + 1][..n] == ops[..n];
      Step(s, ops[n]);
    }
    assert ops[..|ops|] == ops;
  }

  method Step<K(!new)>(s: Set<K>, op: Op<K>)
    requires s.Valid() && StrictWeak(s.lt)
    modifies s
    ensures s.Valid()
    ensures forall k :: Holds(s.lt, Elems(s.tree), k) <==>
      if Equivalent(s.lt, op.key, k) then op.Put? else old(Holds(s.lt, Elems(s.tree), k))
  {
    ghost var es, lt := Elems(s.tree), s.lt;
    ghost var i;
    match op
    case Put(key) =>
      var node := Allocate(s.heap);
      var it, inserted;
      it, inserted, i := s.Insert(key, node);
      forall k ensures Holds(lt, Elems(s.tree), k) <==> Equivalent(lt, key, k) || Holds(lt, es, k) {
        if inserted {
          PutHolds(lt, es, Elems(s.tree), i, (node, key), k);
        } else {
          PutHeldHolds(lt, es, key, k);
        }
      }
    case Del(key) =>
      var n;
      n, i := s.EraseKey(key);
      forall k ensures Holds(lt, Elems(s.tree), k) <==> !Equivalent(lt, key, k) && Holds(lt, es, k) {
        if n == 1 {
          DelHolds(lt, es, i, key, k);
        } else if Holds(lt, es, k) && Equivalent(lt, key, k) {
          PutHeldHolds(lt, es, k, key);
        }
      }
  }

  /** From `begin()` by `++` to `end()`: every key once, ascending, in `size()` steps. */
  method Walk<K(!new)>(s: Set<K>) returns (keys: seq<K>, steps: nat)
    requires s.Valid()
    ensures keys == Keys(Elems(s.tree)) && steps == s.size
    ensures forall i, j :: 0 <= i < j < |keys| ==> s.lt(keys[i], keys[j])
  {
    ghost var es := Elems(s.tree);
    s.NonNull();
    var it := s.Begin();
    keys, steps := [], 0;
    while it != 0
      invariant steps <= |es| && it == Pos(es, steps) && keys == Keys(es)[..steps]
      decreases |es| - steps
    {
      s.ValueAt(steps);
      keys := keys + [s.heap[it].value];
      it := s.Next(it, steps);
      steps := steps + 1;
    }
    assert Keys(es)[..steps] == Keys(es);
  }

  /** `--` undoes `++`, and `++` undoes `--`. */
  method ThereAndBack<K(!new)>(s: Set<K>, n: nat, ghost i: nat) returns (up: nat, upDown: nat, down: nat, downUp: nat)
    requires s.Valid() && i < |Elems(s.tree)| && Elems(s.tree)[i].0 == n
    ensures up == 0 <==> i + 1 == |Elems(s.tree)|
    ensures down == 0 <==> i == 0
    ensures up != 0 ==> upDown == n
    ensures down != 0 ==> downUp == n
  {
    s.NonNull();
    upDown, downUp := 0, 0;
    up := s.Next(n, i);
    if up != 0 {
      upDown := s.Prev(up, i + 1);
    }
    down := s.Prev(n, i);
    if down != 0 {
      downUp := s.Next(down, i - 1);
    }
  }
}
