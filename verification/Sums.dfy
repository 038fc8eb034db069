/** Sums over finite maps, independent of the order in which the keys are visited. */
module Sums {

  ghost function Sum<K(!new)>(m: map<K, nat>): nat
    decreases |m|
  {
    if m == map[] then 0
    else
      var k :| k in m;
      assert |m - {k}| < |m| by {
        assert (m - {k}).Keys == m.Keys - {k};
        assert |m.Keys - {k}| < |m.Keys|;
      }
      m[k] + Sum(m - {k})
  }

  lemma SizeWithout<K, V>(m: map<K, V>, k: K)
    requires k in m
    ensures |m - {k}| == |m| - 1
  {
    assert (m - {k}).Keys == m.Keys - {k};
  }

  /** Any key may be taken out first. */
  lemma {:induction false} SumWithout<K(!new)>(m: map<K, nat>, k: K)
    requires k in m
    ensures Sum(m) == m[k] + Sum(m - {k})
    decreases |m|
  {
    var j :| j in m && Sum(m) == m[j] + Sum(m - {j});
    if j == k {
    } else {
      SizeWithout(m, j);
      SizeWithout(m, k);
      SumWithout(m - {j}, k);
      SumWithout(m - {k}, j);
      assert m - {j} - {k} == m - {k} - {j};
    }
  }

  lemma {:induction false} SumUpdate<K(!new)>(m: map<K, nat>, k: K, v: nat)
    ensures Sum(m[k := v]) == Sum(m) - (if k in m then m[k] else 0) + v
  {
    SumWithout(m[k := v], k);
    assert m[k := v] - {k} == m - {k};
    if k in m {
      SumWithout(m, k);
    } else {
      assert m - {k} == m;
    }
  }

  /** A sum of 32-bit values. */
  lemma {:induction false} SumBound32<K(!new)>(m: map<K, nat>)
    requires forall k | k in m :: m[k] <= 0xFFFF_FFFF
    ensures Sum(m) <= |m| * 0xFFFF_FFFF
    decreases |m|
  {
    if m == map[] {
    } else {
      var k :| k in m;
      SizeWithout(m, k);
      SumWithout(m, k);
      SumBound32(m - {k});
    }
  }

  lemma {:induction false} SumZero<K(!new)>(m: map<K, nat>)
    ensures Sum(m) == 0 <==> forall k | k in m :: m[k] == 0
    decreases |m|
  {
    if m == map[] {
    } else {
      var k :| k in m;
      SizeWithout(m, k);
      SumWithout(m, k);
      SumZero(m - {k});
      assert forall j | j in m :: j == k || j in m - {k};
    }
  }
}
