/** `Map.merge(k, delta, Integer::sum)`, the accumulation the history and churn maps use. */
module Accumulate {

  /** One contribution: add `delta` to the running total of `key`. */
  datatype Credit = Credit(key: string, delta: int)

  /** `m.getOrDefault(k, 0)` */
  function Get(m: map<string, int>, k: string): int {
    if k in m then m[k] else 0
  }

  /** `m.merge(k, delta, Integer::sum)`: a missing key is inserted with `delta`,
      a present one has `delta` added to it. */
  function Merge(m: map<string, int>, k: string, delta: int): (r: map<string, int>)
    ensures r.Keys == m.Keys + {k}
    ensures Get(r, k) == Get(m, k) + delta
    ensures forall j :: j != k ==> Get(r, j) == Get(m, j)
  {
    m[k := Get(m, k) + delta]
  }

  /** The map obtained by merging the credits one after the other, starting from `m`. */
  function MergeAll(m: map<string, int>, cs: seq<Credit>): map<string, int> {
    if cs == [] then m else Merge(MergeAll(m, cs[..|cs| - 1]), cs[|cs| - 1].key, cs[|cs| - 1].delta)
  }

  /** The sum of the deltas credited to `k`. */
  function SumFor(cs: seq<Credit>, k: string): int {
    if cs == [] then 0
    else SumFor(cs[..|cs| - 1], k) + (if cs[|cs| - 1].key == k then cs[|cs| - 1].delta else 0)
  }

  /** The keys that receive at least one credit. */
  function CreditedKeys(cs: seq<Credit>): set<string> {
    set i | 0 <= i < |cs| :: cs[i].key
  }

  lemma CreditedKeysAppend(a: seq<Credit>, b: seq<Credit>)
    ensures CreditedKeys(a + b) == CreditedKeys(a) + CreditedKeys(b)
  {
    forall x | x in CreditedKeys(a + b) ensures x in CreditedKeys(a) + CreditedKeys(b) {
      var i :| 0 <= i < |a + b| && (a + b)[i].key == x;
      if i < |a| { assert a[i] == (a + b)[i]; } else { assert b[i - |a|] == (a + b)[i]; }
    }
    forall x | x in CreditedKeys(a) + CreditedKeys(b) ensures x in CreditedKeys(a + b) {
      if x in CreditedKeys(a) {
        var i :| 0 <= i < |a| && a[i].key == x;
        assert (a + b)[i] == a[i];
      } else {
        var i :| 0 <= i < |b| && b[i].key == x;
        assert (a + b)[|a| + i] == b[i];
      }
    }
  }

  lemma {:induction false} MergeAllAppend(m: map<string, int>, a: seq<Credit>, b: seq<Credit>)
    ensures MergeAll(m, a + b) == MergeAll(MergeAll(m, a), b)
    decreases |b|
  {
    if b == [] {
      assert a + b == a;
    } else {
      var b' := b[..|b| - 1];
      assert (a + b)[..|a + b| - 1] == a + b';
      assert (a + b)[|a + b| - 1] == b[|b| - 1];
      MergeAllAppend(m, a, b');
    }
  }

  lemma MergeAllOne(m: map<string, int>, a: seq<Credit>, c: Credit)
    ensures MergeAll(m, a + [c]) == Merge(MergeAll(m, a), c.key, c.delta)
  {
    assert (a + [c])[..|a|] == a;
  }

  /** Merging from the empty map yields exactly the credited keys, each holding the sum of
      its credits; keys never credited read as 0. */
  lemma {:induction false} MergeAllSums(cs: seq<Credit>)
    ensures MergeAll(map[], cs).Keys == CreditedKeys(cs)
    ensures forall k :: Get(MergeAll(map[], cs), k) == SumFor(cs, k)
  {
    if cs != [] {
      var p := cs[..|cs| - 1];
      MergeAllSums(p);
      assert CreditedKeys(cs) == CreditedKeys(p) + {cs[|cs| - 1].key} by {
        forall x | x in CreditedKeys(cs) ensures x in CreditedKeys(p) + {cs[|cs| - 1].key} {
          var i :| 0 <= i < |cs| && cs[i].key == x;
          if i < |cs| - 1 { assert p[i] == cs[i]; }
        }
        forall x | x in CreditedKeys(p) ensures x in CreditedKeys(cs) {
          var i :| 0 <= i < |p| && p[i].key == x;
          assert cs[i] == p[i];
        }
      }
    }
  }

  /** With non-negative credits the map only grows: no key disappears, no value decreases. */
  lemma {:induction false} MergeAllGrows(m: map<string, int>, cs: seq<Credit>)
    requires forall i :: 0 <= i < |cs| ==> cs[i].delta >= 0
    ensures m.Keys <= MergeAll(m, cs).Keys
    ensures forall k :: Get(m, k) <= Get(MergeAll(m, cs), k)
  {
    if cs != [] {
      MergeAllGrows(m, cs[..|cs| - 1]);
    }
  }
}
