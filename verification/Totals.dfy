/** The sum of the numbers in a map. */
module Totals {
  ghost function Total(m: map<nat, nat>): nat {
    if m == map[] then 0 else
      var k :| k in m;
      m[k] + Total(m - {k})
  }

  lemma {:induction false} TotalWithout(m: map<nat, nat>, k: nat)
    requires k in m
    ensures Total(m) == m[k] + Total(m - {k})
    decreases |m|
  {
    var j :| j in m && Total(m) == m[j] + Total(m - {j});
    if j != k {
      TotalWithout(m - {j}, k);
      TotalWithout(m - {k}, j);
      assert m - {j} - {k} == m - {k} - {j};
    }
  }

  lemma TotalUpdate(m: map<nat, nat>, k: nat, v: nat)
    requires k in m
    ensures Total(m[k := v]) == Total(m) - m[k] + v
  {
    TotalWithout(m, k);
    TotalWithout(m[k := v], k);
    assert m[k := v] - {k} == m - {k};
  }

  /** Also where the key is new. */
  lemma TotalSet(m: map<nat, nat>, k: nat, v: nat)
    ensures Total(m[k := v]) == Total(m) - (if k in m then m[k] else 0) + v
  {
    if k in m {
      TotalUpdate(m, k, v);
    } else {
      TotalWithout(m[k := v], k);
      assert m[k := v] - {k} == m;
    }
  }
}
