/** Sizes of maps under single updates. */
module Maps {
  lemma DropSize<K, V>(m: map<K, V>, key: K)
    ensures |m - {key}| == if key in m then |m| - 1 else |m|
  {
    var r := m - {key};
    assert r.Keys == m.Keys - {key};
    assert |r| == |r.Keys| && |m| == |m.Keys|;
  }

  lemma PutSize<K, V>(m: map<K, V>, key: K, v: V)
    ensures |m[key := v]| == if key in m then |m| else |m| + 1
  {
    var r := m[key := v];
    assert r.Keys == m.Keys + {key};
    assert |r| == |r.Keys| && |m| == |m.Keys|;
  }
}
