/** Comparing maps. */
module Maps {
  /** Both maps have the same pairs but, perhaps, for `k`. */
  ghost predicate OthersStay<K(!new), V>(prev: map<K, V>, next: map<K, V>, k: K) {
    forall x | x != k :: (x in prev <==> x in next) && (x in prev ==> prev[x] == next[x])
  }
}
