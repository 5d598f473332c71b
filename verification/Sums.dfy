/** Sums over the values of a finite map. */
module Sums {

  ghost function Total(m: map<int, nat>): nat
    decreases m.Keys
  {
    if exists i :: i in m.Keys then
      var i :| i in m.Keys;
      m[i] + Total(m - {i})
    else
      0
  }

  /** Any key may be taken out first. */
  lemma {:induction false} TotalWithout(m: map<int, nat>, i: int)
    requires i in m
    ensures Total(m) == m[i] + Total(m - {i})
    decreases m.Keys
  {
    var j :| j in m.Keys && Total(m) == m[j] + Total(m - {j});
    if i != j {
      TotalWithout(m - {j}, i);
      TotalWithout(m - {i}, j);
      assert m - {j} - {i} == m - {i} - {j};
    }
  }
}
