/** How many keys of a map hold a value with some property. */
module Counting {

  ghost function Holders<K, V>(m: map<K, V>, p: V -> bool): set<K> {
    set k | k in m && p(m[k])
  }

  ghost function Count<K, V>(m: map<K, V>, p: V -> bool): nat {
    |Holders(m, p)|
  }

  /** Storing one value moves the count by at most that one key. */
  lemma CountAfterStore<K, V>(m: map<K, V>, k: K, v: V, p: V -> bool)
    ensures Count(m[k := v], p)
         == Count(m, p) - (if k in m && p(m[k]) then 1 else 0) + (if p(v) then 1 else 0)
  {
    var before, after := Holders(m, p), Holders(m[k := v], p);
    var rest := before - {k};
    assert after == if p(v) then rest + {k} else rest;
    assert before == if k in m && p(m[k]) then rest + {k} else rest;
  }

  /** A count is zero exactly when no value has the property. */
  lemma CountIsZero<K, V>(m: map<K, V>, p: V -> bool)
    ensures Count(m, p) == 0 <==> forall k <- m :: !p(m[k])
  {
    if Count(m, p) == 0 {
      assert forall k <- m :: k !in Holders(m, p);
    } else {
      assert exists k :: k in Holders(m, p);
    }
  }
}
