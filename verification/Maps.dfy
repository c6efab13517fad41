// Maps given by rules, where the values are only specified on the keys.
module Maps {

  lemma Pick<T>(s: set<T>) returns (x: T)
    requires s != {}
    ensures x in s
  {
    x :| x in s;
  }

  /** The map on s whose values f gives. */
  ghost function Tabulate<K(!new), V>(s: set<K>, f: K -> V): (m: map<K, V>)
    ensures m.Keys == s && forall k :: k in m ==> m[k] == f(k)
  {
    if s == {} then map[] else var k :| k in s; Tabulate(s - {k}, f)[k := f(k)]
  }

  /** m after every key in s has been given the value d. */
  ghost function Assigned<K(!new), V>(m: map<K, V>, s: set<K>, d: V): (r: map<K, V>)
    ensures r.Keys == m.Keys + s && forall k :: k in r ==> r[k] == if k in s then d else m[k]
    decreases s
  {
    if s == {} then m else var k :| k in s; Assigned(m, s - {k}, d)[k := d]
  }

  method Constant<K(==, !new), V>(s: set<K>, d: V) returns (m: map<K, V>)
    ensures m == Assigned(map[], s, d)
  {
    m := map[];
    var rest := s;
    while rest != {}
      invariant m.Keys == s - rest && rest <= s
      invariant forall k :: k in m ==> m[k] == d
    {
      var k :| k in rest;
      m, rest := m[k := d], rest - {k};
    }
  }
}
