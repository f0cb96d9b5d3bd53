/** The optional values shared by every module: a nil pointer, a SQL NULL, a failed lookup. */
module Options {

  datatype Option<+T> = None | Some(value: T)

  /** What `m` holds under `k`, if anything. */
  function Get<K, V>(m: map<K, V>, k: K): Option<V> {
    if k in m then Some(m[k]) else None
  }

  /** Maps that look up alike are equal. */
  lemma MapsEqual<K(!new), V>(a: map<K, V>, b: map<K, V>)
    requires forall k :: Get(a, k) == Get(b, k)
    ensures a == b
  {
    forall k
      ensures k in a <==> k in b
      ensures k in a ==> a[k] == b[k]
    {
      assert Get(a, k) == Get(b, k);
    }
  }
}
