/** Sums over the values of a finite map: what an insertion, a removal and a change do to
    the total, and how it splits over a part of the keys. The ledger and the pool count
    value and bytes with it. */
module MapSums {

  ghost function Total<K>(m: map<K, nat>): nat {
    if m == map[] then 0 else
    var k :| k in m;
    m[k] + Total(m - {k})
  }

  lemma {:induction false} TotalRemove<K>(m: map<K, nat>, k: K)
    requires k in m
    ensures Total(m) == m[k] + Total(m - {k})
    decreases m
  {
    var c :| c in m && Total(m) == m[c] + Total(m - {c});
    if c != k {
      TotalRemove(m - {c}, k);
      TotalRemove(m - {k}, c);
      assert m - {c} - {k} == m - {k} - {c};
    }
  }

  lemma TotalInsert<K>(m: map<K, nat>, k: K, v: nat)
    requires k !in m
    ensures Total(m[k := v]) == Total(m) + v
  {
    TotalRemove(m[k := v], k);
    assert m[k := v] - {k} == m;
  }

  lemma TotalUpdate<K>(m: map<K, nat>, k: K, v: nat)
    requires k in m
    ensures Total(m[k := v]) == Total(m) - m[k] + v
  {
    TotalRemove(m[k := v], k);
    TotalRemove(m, k);
    assert m[k := v] - {k} == m - {k};
  }

  /** A part of a map sums to no more than the map. */
  lemma {:induction false} TotalPart<K>(part: map<K, nat>, whole: map<K, nat>)
    requires forall k :: k in part ==> k in whole && part[k] <= whole[k]
    ensures Total(part) <= Total(whole)
    decreases part
  {
    if part != map[] {
      var k :| k in part;
      TotalRemove(part, k);
      TotalRemove(whole, k);
      TotalPart(part - {k}, whole - {k});
    }
  }

  lemma ValueWithinTotal<K>(m: map<K, nat>, k: K)
    requires k in m
    ensures m[k] <= Total(m)
  {
    TotalRemove(m, k);
  }

  /** The part of a map inside a set of keys and the part outside sum to the whole. */
  lemma {:induction false} TotalSplit<K>(m: map<K, nat>, s: set<K>)
    ensures Total(m - s) + Total(map k | k in m && k in s :: m[k]) == Total(m)
    decreases s
  {
    var inside := map k | k in m && k in s :: m[k];
    if s == {} {
      assert m - s == m && inside == map[];
    } else {
      var k :| k in s;
      var t := s - {k};
      TotalSplit(m, t);
      if k in m {
        TotalRemove(m - t, k);
        TotalRemove(inside, k);
        assert m - t - {k} == m - s;
        assert inside - {k} == map x | x in m && x in t :: m[x];
      } else {
        assert m - t == m - s;
        assert inside == map x | x in m && x in t :: m[x];
      }
    }
  }
}
