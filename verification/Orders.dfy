/** Comparisons handed to the containers and algorithms. */
module Orders {

  /** The two laws of a comparison that searching and sorting rely on.  Every strict
      weak order has them. */
  ghost predicate StrictOrder<K(!new)>(lt: (K, K) -> bool) {
    && (forall x :: !lt(x, x))
    && (forall x, y, z :: lt(x, y) && lt(y, z) ==> lt(x, z))
  }

  ghost predicate Equivalent<K>(lt: (K, K) -> bool, x: K, y: K) {
    !lt(x, y) && !lt(y, x)
  }

  /** What the caller promises of a comparison. */
  ghost predicate StrictWeak<K(!new)>(lt: (K, K) -> bool) {
    && StrictOrder(lt)
    && forall x, y, z :: Equivalent(lt, x, y) && Equivalent(lt, y, z) ==> Equivalent(lt, x, z)
  }
}
