/** Totals over lists and maps, and how one change moves them. */
module Sums {

  ghost function SumBy<T>(weight: T -> nat, s: seq<T>): nat {
    if s == [] then 0 else SumBy(weight, s[..|s| - 1]) + weight(s[|s| - 1])
  }

  lemma {:induction false} SumAppend<T>(weight: T -> nat, s: seq<T>, t: seq<T>)
    ensures SumBy(weight, s + t) == SumBy(weight, s) + SumBy(weight, t)
  {
    if t == [] {
      assert s + t == s;
    } else {
      var init := t[..|t| - 1];
      assert (s + t)[..|s + t| - 1] == s + init;
      SumAppend(weight, s, init);
    }
  }

  lemma SumOne<T>(weight: T -> nat, x: T)
    ensures SumBy(weight, [x]) == weight(x)
  {
    assert [x][..0] == [];
  }

  lemma SumSnoc<T>(weight: T -> nat, s: seq<T>, x: T)
    ensures SumBy(weight, s + [x]) == SumBy(weight, s) + weight(x)
  {
    assert (s + [x])[..|s|] == s;
  }

  lemma SumSplit<T>(weight: T -> nat, s: seq<T>, i: nat)
    requires i < |s|
    ensures SumBy(weight, s) == SumBy(weight, s[..i]) + weight(s[i]) + SumBy(weight, s[i + 1..])
  {
    assert s == s[..i] + [s[i]] + s[i + 1..];
    SumAppend(weight, s[..i] + [s[i]], s[i + 1..]);
    SumSnoc(weight, s[..i], s[i]);
  }

  lemma SumUpdate<T>(weight: T -> nat, s: seq<T>, i: nat, x: T)
    requires i < |s|
    ensures SumBy(weight, s[i := x]) + weight(s[i]) == SumBy(weight, s) + weight(x)
  {
    SumSplit(weight, s, i);
    SumSplit(weight, s[i := x], i);
    assert s[i := x][..i] == s[..i] && s[i := x][i + 1..] == s[i + 1..];
  }

  function Without<T>(s: seq<T>, i: nat): seq<T>
    requires i < |s|
  {
    s[..i] + s[i + 1..]
  }

  lemma SumWithout<T>(weight: T -> nat, s: seq<T>, i: nat)
    requires i < |s|
    ensures SumBy(weight, Without(s, i)) + weight(s[i]) == SumBy(weight, s)
  {
    SumSplit(weight, s, i);
    SumAppend(weight, s[..i], s[i + 1..]);
  }

  lemma SumAtLeast<T>(weight: T -> nat, s: seq<T>, i: nat)
    requires i < |s|
    ensures weight(s[i]) <= SumBy(weight, s)
  {
    SumSplit(weight, s, i);
  }

  /** The sum of a map's values. */
  ghost function MapSum<K>(m: map<K, nat>): nat {
    if m == map[] then 0
    else
      var k :| k in m;
      m[k] + MapSum(m - {k})
  }

  lemma {:induction false} MapSumRemove<K>(m: map<K, nat>, k: K)
    requires k in m
    ensures MapSum(m) == m[k] + MapSum(m - {k})
    decreases |m|
  {
    var first :| first in m && MapSum(m) == m[first] + MapSum(m - {first});
    if first != k {
      MapSumRemove(m - {first}, k);
      MapSumRemove(m - {k}, first);
      assert m - {first} - {k} == m - {k} - {first};
    }
  }

  function Entry<K>(m: map<K, nat>, k: K): nat {
    if k in m then m[k] else 0
  }

  lemma MapSumSet<K>(m: map<K, nat>, k: K, v: nat)
    ensures MapSum(m[k := v]) + Entry(m, k) == MapSum(m) + v
    ensures Entry(m, k) <= MapSum(m)
  {
    MapSumRemove(m[k := v], k);
    if k in m {
      MapSumRemove(m, k);
      assert m[k := v] - {k} == m - {k};
    } else {
      assert m[k := v] - {k} == m;
    }
  }
}
