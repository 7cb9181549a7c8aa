/**
  The part of Python's `collections.Counter` the parser uses: reading a missing key
  gives 0, `c[k] += 1` inserts or increments, `sum(c.values())` adds the counts up.
 */
module Counters {

  /** `c[k]`: the count of `k`, 0 when `k` was never counted. */
  function Get<K>(c: map<K, nat>, k: K): nat {
    if k in c then c[k] else 0
  }

  /** `c[k] += 1`: the increment-or-insert step. */
  function Bump<K(!new)>(c: map<K, nat>, k: K): (r: map<K, nat>)
    ensures r.Keys == c.Keys + {k}
    ensures Get(r, k) == Get(c, k) + 1
    ensures forall j :: j != k ==> Get(r, j) == Get(c, j)
  {
    c[k := Get(c, k) + 1]
  }

  /** The counter a left-to-right pass of `c[x] += 1` over `s` builds, i.e. `Counter(s)`. */
  function CounterOf<K(!new)>(s: seq<K>): map<K, nat> {
    if s == [] then map[] else Bump(CounterOf(s[..|s| - 1]), s[|s| - 1])
  }

  /** `Counter(s)` holds exactly the elements of `s`, each with its number of occurrences. */
  lemma {:induction false} CounterOfCounts<K(!new)>(s: seq<K>, k: K)
    ensures k in CounterOf(s) <==> k in s
    ensures Get(CounterOf(s), k) == multiset(s)[k]
  {
    if s != [] {
      var init, last := s[..|s| - 1], s[|s| - 1];
      assert s == init + [last];
      CounterOfCounts(init, k);
    }
  }

  /** `sum(c.values())`. */
  ghost function Sum<K>(c: map<K, nat>): nat
    decreases |c|
  {
    if c == map[] then 0
    else
      var k :| k in c;
      assert |(c - {k}).Keys| < |c.Keys| by { assert c.Keys == (c - {k}).Keys + {k}; }
      c[k] + Sum(c - {k})
  }

  /** The sum does not depend on the order in which keys are visited. */
  lemma {:induction false} SumRemove<K>(c: map<K, nat>, k: K)
    requires k in c
    ensures Sum(c) == c[k] + Sum(c - {k})
    decreases |c|
  {
    var j :| j in c && Sum(c) == c[j] + Sum(c - {j});
    if j != k {
      assert c.Keys == (c - {k}).Keys + {k};
      assert c.Keys == (c - {j}).Keys + {j};
      SumRemove(c - {j}, k);
      SumRemove(c - {k}, j);
      assert c - {j} - {k} == c - {k} - {j};
    }
  }

  /** Overwriting one count changes the sum by the difference. */
  lemma SumUpdate<K>(c: map<K, nat>, k: K, v: nat)
    ensures Sum(c[k := v]) + Get(c, k) == Sum(c) + v
  {
    var d := c[k := v];
    SumRemove(d, k);
    assert d - {k} == c - {k};
    if k in c {
      SumRemove(c, k);
    } else {
      assert c - {k} == c;
    }
  }

  /** Each `c[k] += 1` adds exactly one to the total. */
  lemma SumBump<K(!new)>(c: map<K, nat>, k: K)
    ensures Sum(Bump(c, k)) == Sum(c) + 1
  {
    SumUpdate(c, k, Get(c, k) + 1);
  }

  /** The counts of `Counter(s)` add up to the length of `s`. */
  lemma {:induction false} SumCounterOf<K(!new)>(s: seq<K>)
    ensures Sum(CounterOf(s)) == |s|
  {
    if s != [] {
      SumCounterOf(s[..|s| - 1]);
      SumBump(CounterOf(s[..|s| - 1]), s[|s| - 1]);
    }
  }
}
