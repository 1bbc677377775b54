/** Totals over the values of a finite map. */
module MapSum {

  ghost function Sum<K>(m: map<K, nat>): nat
  {
    if m == map[] then 0
    else var k :| k in m; m[k] + Sum(m - {k})
  }

  function Get<K(==)>(m: map<K, nat>, k: K): nat {
    if k in m then m[k] else 0
  }

  /** Any key may be taken out first. */
  lemma {:induction false} SumRemove<K>(m: map<K, nat>, k: K)
    requires k in m
    ensures Sum(m) == m[k] + Sum(m - {k})
    decreases |m|
  {
    var j :| j in m && Sum(m) == m[j] + Sum(m - {j});
    if j != k {
      SumRemove(m - {j}, k);
      SumRemove(m - {k}, j);
      assert m - {j} - {k} == m - {k} - {j};
    }
  }

  lemma SumWithout<K>(m: map<K, nat>, k: K)
    ensures Sum(m) == Get(m, k) + Sum(m - {k})
  {
    if k in m { SumRemove(m, k); } else { assert m - {k} == m; }
  }

  lemma SumUpdate<K>(m: map<K, nat>, k: K, v: nat)
    ensures Sum(m[k := v]) + Get(m, k) == Sum(m) + v
  {
    SumRemove(m[k := v], k);
    SumWithout(m, k);
    assert m[k := v] - {k} == m - {k};
  }

  /** A part of the map sums to no more than the whole. */
  lemma {:induction false} SumPart<K>(part: map<K, nat>, whole: map<K, nat>)
    requires forall k :: k in part ==> k in whole && part[k] <= whole[k]
    ensures Sum(part) <= Sum(whole)
    decreases |part|
  {
    if part != map[] {
      var k :| k in part;
      SumRemove(part, k);
      SumRemove(whole, k);
      SumPart(part - {k}, whole - {k});
    }
  }

  lemma {:induction false} SubsetSize<T>(a: set<T>, b: set<T>)
    requires a <= b
    ensures |a| <= |b|
  {
    if a != {} {
      var x :| x in a;
      SubsetSize(a - {x}, b - {x});
    }
  }

  /** The values of the map, each as often as it occurs. */
  ghost function Tally<K, V>(m: map<K, V>): multiset<V> {
    if m == map[] then multiset{}
    else var k :| k in m; Tally(m - {k}) + multiset{m[k]}
  }

  lemma {:induction false} TallyRemove<K, V>(m: map<K, V>, k: K)
    requires k in m
    ensures Tally(m) == Tally(m - {k}) + multiset{m[k]}
    decreases |m|
  {
    var j :| j in m && Tally(m) == Tally(m - {j}) + multiset{m[j]};
    if j != k {
      TallyRemove(m - {j}, k);
      TallyRemove(m - {k}, j);
      TallySwap(m, j, k);
    }
  }

  lemma TallySwap<K, V>(m: map<K, V>, j: K, k: K)
    requires j in m && k in m && j != k
    requires Tally(m) == Tally(m - {j}) + multiset{m[j]}
    requires Tally(m - {j}) == Tally(m - {j} - {k}) + multiset{m[k]}
    requires Tally(m - {k}) == Tally(m - {k} - {j}) + multiset{m[j]}
    ensures Tally(m) == Tally(m - {k}) + multiset{m[k]}
  {
    hide Tally;
    assert m - {j} - {k} == m - {k} - {j};
  }

  lemma Empties<K, V>()
    ensures Sum<K>(map[]) == 0
    ensures Tally<K, V>(map[]) == multiset{}
  {
  }
}
