/** Small facts about sequences, stated once so that loop proofs can cite them instead of
    re-deriving sequence extensionality in a large context. */
module SeqFacts {
  /** No element occurs twice. */
  predicate Distinct<T(==)>(s: seq<T>) {
    forall i, j :: 0 <= i < j < |s| ==> s[i] != s[j]
  }

  lemma TakeSnoc<T>(s: seq<T>, k: int)
    requires 0 <= k < |s|
    ensures s[..k + 1] == s[..k] + [s[k]]
  {
  }

  /** A non-empty sequence is its prefix followed by its last element. */
  lemma InitLast<T>(s: seq<T>)
    requires |s| > 0
    ensures s == s[..|s| - 1] + [s[|s| - 1]]
  {
  }

  lemma TakeAll<T>(s: seq<T>)
    ensures s[..|s|] == s
  {
  }

  lemma ConcatAssoc<T>(x: seq<T>, y: seq<T>, z: seq<T>)
    ensures (x + y) + z == x + (y + z)
  {
  }

  /** Appending an element not yet in the set `a` to a sequence that lists `a` once each
      keeps the sequence listing the grown set once each. */
  lemma MultisetSnoc<T>(s: seq<T>, a: set<T>, x: T)
    requires multiset(s) == multiset(a) && x !in a
    ensures multiset(s + [x]) == multiset(a + {x})
  {
    assert multiset(a + {x}) == multiset(a) + multiset{x};
  }

  lemma SlicesOfConcat<T>(a: seq<T>, b: seq<T>, c: seq<T>)
    requires |c| == 1
    ensures (a + b + c)[..|a|] == a
    ensures (a + b + c)[|a|..|a| + |b|] == b
    ensures (a + b + c)[|a| + |b|] == c[0]
  {
  }

  lemma TailOfCons<T>(x: T, s: seq<T>)
    ensures ([x] + s)[0] == x && ([x] + s)[1..] == s
  {
  }
}
