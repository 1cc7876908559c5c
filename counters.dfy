/**
 * Python's `Counter` and `defaultdict(int)` as Dafny maps: a missing key
 * reads as 0, and a key is present only once it has been incremented.
 */
module Counters {

  /** `counter.get(k, 0)`. */
  function Get<K>(m: map<K, nat>, k: K): nat {
    if k in m then m[k] else 0
  }

  /** `counter[k] += 1`. */
  function Inc<K(!new)>(m: map<K, nat>, k: K): (r: map<K, nat>)
    ensures Get(r, k) == Get(m, k) + 1
    ensures forall j :: j != k ==> Get(r, j) == Get(m, j)
    ensures r.Keys == m.Keys + {k}
  {
    m[k := Get(m, k) + 1]
  }

  /** Every stored count is positive: true of any counter built only by `Inc`. */
  ghost predicate Positive<K>(m: map<K, nat>) {
    forall k :: k in m ==> m[k] > 0
  }
}
