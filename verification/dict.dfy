/** An insertion-ordered Python dictionary, modelled as the sequence its
    `items()` view yields: one `(key, value)` pair per entry, in insertion order. */
module Dict {
  import opened Options

  /** Position of the first occurrence of `x` in `s`; `|s|` when `x` does not occur. */
  function FirstIndex<T(==)>(s: seq<T>, x: T): (i: nat)
    ensures i <= |s|
    ensures i < |s| ==> s[i] == x
    ensures forall j | 0 <= j < i :: s[j] != x
    ensures i == |s| <==> x !in s
  {
    if |s| == 0 then 0
    else if s[0] == x then 0
    else 1 + FirstIndex(s[1..], x)
  }

  /** `dict_.keys()`, in iteration order. */
  function Keys<K, V>(d: seq<(K, V)>): seq<K> {
    seq(|d|, i requires 0 <= i < |d| => d[i].0)
  }

  /** `dict_.values()`, in iteration order. */
  function Values<K, V>(d: seq<(K, V)>): seq<V> {
    seq(|d|, i requires 0 <= i < |d| => d[i].1)
  }

  /** A dictionary holds each key at most once. */
  predicate DistinctKeys<K(==), V>(d: seq<(K, V)>) {
    forall i, j | 0 <= i < j < |d| :: d[i].0 != d[j].0
  }

  /** Position of key `k` in iteration order; `|d|` when `k` is not a key. */
  function IndexOfKey<K(==), V>(d: seq<(K, V)>, k: K): nat {
    FirstIndex(Keys(d), k)
  }

  /** `dict_.get(k)`: the value stored under `k`, or `None` when `k` is not a key. */
  function Lookup<K(==), V>(d: seq<(K, V)>, k: K): Option<V> {
    var i := IndexOfKey(d, k);
    if i < |d| then Some(d[i].1) else None
  }

  /** In a dictionary, the entry at position `i` is the one found under its own key. */
  lemma LookupAt<K, V>(d: seq<(K, V)>, i: nat)
    requires DistinctKeys(d)
    requires i < |d|
    ensures IndexOfKey(d, d[i].0) == i
    ensures Lookup(d, d[i].0) == Some(d[i].1)
  {
    assert Keys(d)[i] == d[i].0;
  }
}
