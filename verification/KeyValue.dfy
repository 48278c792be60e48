/** The key-value store the workers keep their records in: a value is dropped when its time to live has passed. */
module KeyValue {
  /** A stored value is visible up to and including `expiresAt`, in milliseconds. */
  datatype Kept<+V> = Kept(value: V, expiresAt: int)

  function Purge<K(!new), V>(kv: map<K, Kept<V>>, now: int): (r: map<K, Kept<V>>)
    ensures forall k :: k in r <==> k in kv && now <= kv[k].expiresAt
    ensures forall k | k in r :: r[k] == kv[k]
  {
    map k | k in kv && now <= kv[k].expiresAt :: kv[k]
  }

  function Put<K, V>(kv: map<K, Kept<V>>, k: K, v: V, now: int, ttlSeconds: int): map<K, Kept<V>> {
    kv[k := Kept(v, now + 1000 * ttlSeconds)]
  }
}
