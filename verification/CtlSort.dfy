/** `ctl::sort`: quicksort with Lomuto's partition, in place. */
module CtlSort {
  import opened Orders

  ghost predicate Sorted<K>(lt: (K, K) -> bool, s: seq<K>) {
    forall i, j :: 0 <= i < j < |s| ==> !lt(s[j], s[i])
  }

  /** From `first` to `last` the elements are rearranged; the others stay. */
  ghost predicate Rearranged<K>(s: seq<K>, t: seq<K>, first: nat, last: nat) {
    && first <= last <= |s| == |t|
    && t[..first] == s[..first] && t[last..] == s[last..]
    && multiset(t[first..last]) == multiset(s[first..last])
  }

  function Swapped<K>(s: seq<K>, i: nat, j: nat): seq<K>
    requires i < |s| && j < |s|
  {
    s[i := s[j]][j := s[i]]
  }

  lemma SwapRearranges<K>(s: seq<K>, first: nat, last: nat, i: nat, j: nat)
    requires first <= i < last <= |s| && first <= j < last
    ensures Rearranged(s, Swapped(s, i, j), first, last)
  {
    var r := s[first..last];
    assert Swapped(s, i, j)[first..last] == Swapped(r, i - first, j - first);
    assert multiset(Swapped(r, i - first, j - first)) == multiset(r);
  }

  method Swap<K>(a: array<K>, i: nat, j: nat, ghost s0: seq<K>, ghost first: nat, ghost last: nat)
    requires first <= i < last && first <= j < last && Rearranged(s0, a[..], first, last)
    modifies a
    ensures a[..] == Swapped(old(a[..]), i, j) && Rearranged(s0, a[..], first, last)
  {
    SwapRearranges(a[..], first, last, i, j);
    a[i], a[j] := a[j], a[i];
    assert a[..] == Swapped(old(a[..]), i, j);
  }

  /** From `first` through i the elements are below the pivot, from there to j not, and
      the pivot waits at the end of the range. */
  ghost predicate Split<K>(lt: (K, K) -> bool, s: seq<K>, first: nat, last: nat, pivot: K, i: int, j: nat) {
    && first <= j < last <= |s| && first - 1 <= i < j && s[last - 1] == pivot
    && (forall k :: first <= k <= i ==> lt(s[k], pivot))
    && (forall k :: i < k < j ==> !lt(s[k], pivot))
  }

  lemma SplitNext<K>(lt: (K, K) -> bool, s: seq<K>, first: nat, last: nat, pivot: K, i: int, j: nat)
    requires Split(lt, s, first, last, pivot, i, j) && j + 1 < last && lt(s[j], pivot)
    ensures Split(lt, Swapped(s, i + 1, j), first, last, pivot, i + 1, j + 1)
  {
  }

  /** The pivot is in its final place. */
  ghost predicate Placed<K>(lt: (K, K) -> bool, s: seq<K>, first: nat, last: nat, p: nat) {
    && first <= p < last <= |s|
    && (forall k :: first <= k < p ==> lt(s[k], s[p]))
    && (forall k :: p < k < last ==> !lt(s[k], s[p]))
  }

  method Partition<K>(a: array<K>, first: nat, last: nat, lt: (K, K) -> bool) returns (p: nat)
    requires first < last <= a.Length
    modifies a
    ensures Placed(lt, a[..], first, last, p) && Rearranged(old(a[..]), a[..], first, last)
  {
    ghost var s0 := a[..];
    var i := Gather(a, first, last, lt);
    p := i + 1;
    PivotPlaced(lt, a[..], Swapped(a[..], p, last - 1), first, last, a[last - 1], p);
    Swap(a, p, last - 1, s0, first, last);
  }

  /** The loop, which leaves the pivot at the end of the range. */
  method Gather<K>(a: array<K>, first: nat, last: nat, lt: (K, K) -> bool) returns (i: int)
    requires first < last <= a.Length
    modifies a
    ensures Split(lt, a[..], first, last, a[last - 1], i, last - 1) && Rearranged(old(a[..]), a[..], first, last)
  {
    var pivot := a[last - 1];
    i := first - 1;
    var j := first;
    while j < last - 1
      invariant Rearranged(old(a[..]), a[..], first, last) && Split(lt, a[..], first, last, pivot, i, j)
    {
      if lt(a[j], pivot) {
        SplitNext(lt, a[..], first, last, pivot, i, j);
        i := i + 1;
        Swap(a, i, j, old(a[..]), first, last);
      }
      j := j + 1;
    }
  }

  lemma PivotPlaced<K>(lt: (K, K) -> bool, s: seq<K>, t: seq<K>, first: nat, last: nat, pivot: K, p: nat)
    requires last > 0 && Split(lt, s, first, last, pivot, p - 1, last - 1)
    requires t == Swapped(s, p, last - 1)
    ensures Placed(lt, t, first, last, p)
  {
  }

  method Sort<K(!new)>(a: array<K>, first: nat, last: nat, lt: (K, K) -> bool)
    requires StrictOrder(lt) && first <= last <= a.Length
    modifies a
    ensures Rearranged(old(a[..]), a[..], first, last) && Sorted(lt, a[first..last])
    decreases last - first
  {
    if first < last {
      var p := Partition(a, first, last, lt);
      ghost var s0 := a[..];
      Sort(a, first, p, lt);
      ghost var s1 := a[..];
      assert a[first..p] == s1[first..p];
      Sort(a, p + 1, last, lt);
      assert a[p + 1..last] == a[..][p + 1..last] && a[first..last] == a[..][first..last];
      Halves(lt, s0, s1, a[..], first, p, last);
    }
  }

  /** A sorted part below the pivot and a sorted part not below it. */
  lemma JoinSorted<K(!new)>(lt: (K, K) -> bool, l: seq<K>, x: K, r: seq<K>)
    requires StrictOrder(lt) && Sorted(lt, l) && Sorted(lt, r)
    requires (forall k :: 0 <= k < |l| ==> lt(l[k], x)) && forall k :: 0 <= k < |r| ==> !lt(r[k], x)
    ensures Sorted(lt, l + [x] + r)
  {
    var s := l + [x] + r;
    forall i, j | 0 <= i < j < |s| ensures !lt(s[j], s[i]) {
      if i < |l| <= j {
        assert lt(s[i], x);
        if j > |l| { assert s[j] == r[j - |l| - 1]; }
      } else if i == |l| {
        assert s[j] == r[j - |l| - 1];
      } else if i > |l| {
        assert s[i] == r[i - |l| - 1] && s[j] == r[j - |l| - 1];
      }
    }
  }

  /** Rearranging a sequence keeps what holds of all of its elements. */
  lemma AllStill<K(!new)>(s: seq<K>, t: seq<K>, holds: K -> bool)
    requires multiset(s) == multiset(t) && forall k :: 0 <= k < |s| ==> holds(s[k])
    ensures forall k :: 0 <= k < |t| ==> holds(t[k])
  {
    forall k | 0 <= k < |t| ensures holds(t[k]) {
      assert t[k] in multiset(t);
      assert t[k] in s;
    }
  }

  lemma Halves<K(!new)>(lt: (K, K) -> bool, s0: seq<K>, s1: seq<K>, s2: seq<K>, first: nat, p: nat, last: nat)
    requires StrictOrder(lt) && first <= p < last && Rearranged(s0, s1, first, p) && Rearranged(s1, s2, p + 1, last)
    requires Placed(lt, s0, first, last, p)
    requires Sorted(lt, s1[first..p]) && Sorted(lt, s2[p + 1..last])
    ensures Sorted(lt, s2[first..last]) && Rearranged(s0, s2, first, last)
  {
    var l0, l, x, r0, r := s0[first..p], s1[first..p], s0[p], s0[p + 1..last], s2[p + 1..last];
    Pieces(s0, s1, s2, first, p, last);
    AllStill(l0, l, y => lt(y, x));
    AllStill(r0, r, y => !lt(y, x));
    JoinSorted(lt, l, x, r);
  }

  lemma Pieces<K>(s0: seq<K>, s1: seq<K>, s2: seq<K>, first: nat, p: nat, last: nat)
    requires first <= p < last && Rearranged(s0, s1, first, p) && Rearranged(s1, s2, p + 1, last)
    ensures s0[first..last] == s0[first..p] + [s0[p]] + s0[p + 1..last]
    ensures s2[first..last] == s1[first..p] + [s0[p]] + s2[p + 1..last]
    ensures s1[p + 1..last] == s0[p + 1..last] && s2[..first] == s0[..first] && s2[last..] == s0[last..]
  {
    assert s1[p..][0] == s0[p] && s1[p..][1..last - p] == s1[p + 1..last] && s0[p..][1..last - p] == s0[p + 1..last];
    assert s1[p..][last - p..] == s1[last..] && s0[p..][last - p..] == s0[last..];
    assert s2[..p + 1][first..p] == s2[first..p] && s1[..p + 1][first..p] == s1[first..p] && s2[..p + 1][p] == s0[p];
    assert s2[..p + 1][..first] == s2[..first] && s1[..p + 1][..first] == s1[..first];
  }
}
