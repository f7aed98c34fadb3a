/** Small notions shared by the models of different source files. */
module Basics {
  import opened Wrappers

  function Min(a: nat, b: nat): nat {
    if a < b then a else b
  }

  /** The value a finite map gives for `k`, as the pointer-or-NULL results of the tables report it. */
  function Binding<K, V>(m: map<K, V>, k: K): Option<V> {
    if k in m then Some(m[k]) else None
  }

  lemma SubsetIsNoLarger<T>(a: set<T>, b: set<T>)
    requires a <= b
    ensures |a| <= |b|
  {
    assert b == a + (b - a);
  }
}
