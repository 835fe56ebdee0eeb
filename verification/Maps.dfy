/** Keys taken out of a map one by one. */
module Maps {
  lemma TakeOneMore<K, V>(m: map<K, V>, gone: set<K>, k: K)
    ensures m - gone - {k} == m - (gone + {k})
  {
  }
}
