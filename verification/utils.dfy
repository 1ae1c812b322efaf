/** The reverse dictionary lookup `get_key` of the crop-mapping utilities. */
module Utils {
  import opened Options
  import opened Dict

  /** `get_key(v, dict_)`: walk the entries in iteration order and return the key
      of the first one whose value equals `v`; when the walk ends without a
      match the Python function falls off its end, which is `None` here.
      The result is the key at the first position of `v` among the values:
      only values are compared, and `None` means `v` is not among them. */
  function GetKey<K, V(==)>(v: V, d: seq<(K, V)>): (r: Option<K>)
    ensures r.None? <==> v !in Values(d)
    ensures var i := FirstIndex(Values(d), v);
      i < |d| ==> r == Some(d[i].0)
  {
    if |d| == 0 then None
    else if d[0].1 == v then
      assert Values(d)[0] == v;
      Some(d[0].0)
    else
      assert Values(d) == [d[0].1] + Values(d[1..]);
      GetKey(v, d[1..])
  }

  /** The same lookup as the imperative scan of the source: a loop over the
      items that returns at the first match. */
  method GetKeyScan<K, V(==)>(v: V, d: seq<(K, V)>) returns (r: Option<K>)
    ensures r == GetKey(v, d)
  {
    var i := 0;
    while i < |d|
      invariant i <= |d|
      invariant GetKey(v, d[i..]) == GetKey(v, d)
    {
      var (key, value) := d[i];
      if value == v {
        return Some(key);
      }
      assert d[i..][1..] == d[i + 1..];
      i := i + 1;
    }
    return None;
  }

  /** `k` is the key `get_key` should return for `v`: `dict_[k] == v`, and no
      entry earlier in iteration order has value `v`. */
  ghost predicate IsFirstKeyFor<K, V>(d: seq<(K, V)>, v: V, k: K) {
    && Lookup(d, k) == Some(v)
    && forall j | 0 <= j < IndexOfKey(d, k) :: d[j].1 != v
  }

  /** A found key is a key of the dictionary and maps to `v`. */
  lemma GetKeyMapsToValue<K, V>(v: V, d: seq<(K, V)>)
    requires DistinctKeys(d)
    ensures GetKey(v, d).Some? ==> Lookup(d, GetKey(v, d).value) == Some(v)
  {
    var i := FirstIndex(Values(d), v);
    if i < |d| {
      LookupAt(d, i);
    }
  }

  /** `get_key` returns exactly the first key, in iteration order, whose value is `v`. */
  lemma GetKeyIsFirstKey<K, V>(v: V, d: seq<(K, V)>, k: K)
    requires DistinctKeys(d)
    ensures GetKey(v, d) == Some(k) <==> IsFirstKeyFor(d, v, k)
  {
    var i := FirstIndex(Values(d), v);
    if GetKey(v, d) == Some(k) {
      LookupAt(d, i);
      forall j | 0 <= j < i ensures d[j].1 != v {
        assert Values(d)[j] == d[j].1;
      }
    }
    if IsFirstKeyFor(d, v, k) {
      var n := IndexOfKey(d, k);
      assert d[n].1 == Values(d)[n];
    }
  }

  /** `get_key` gives `None` exactly when no key of the dictionary maps to `v`. */
  lemma GetKeyNoneIffNoKeyMaps<K, V>(v: V, d: seq<(K, V)>)
    requires DistinctKeys(d)
    ensures GetKey(v, d).None? <==> forall k :: Lookup(d, k) != Some(v)
  {
    if GetKey(v, d).None? {
      forall k ensures Lookup(d, k) != Some(v) {
        var n := IndexOfKey(d, k);
        if n < |d| {
          assert d[n].1 == Values(d)[n];
        }
      }
    } else {
      GetKeyMapsToValue(v, d);
    }
  }

  /** Entries inserted after the dictionary `d` are reached only when `d` has
      no match: a match in `d` is unaffected by what follows it. */
  lemma {:induction false} GetKeyAppend<K, V>(v: V, d: seq<(K, V)>, e: seq<(K, V)>)
    ensures GetKey(v, d + e) == if GetKey(v, d).Some? then GetKey(v, d) else GetKey(v, e)
  {
    if |d| == 0 {
      assert d + e == e;
    } else if d[0].1 != v {
      assert (d + e)[1..] == d[1..] + e;
      GetKeyAppend(v, d[1..], e);
    }
  }

  /** The found key sits at the first position where `v` occurs among the
      values; which position that is depends on the values alone. */
  lemma GetKeyPosition<K, V>(v: V, d: seq<(K, V)>)
    requires DistinctKeys(d)
    ensures GetKey(v, d).Some? ==> IndexOfKey(d, GetKey(v, d).value) == FirstIndex(Values(d), v)
  {
    var i := FirstIndex(Values(d), v);
    if i < |d| {
      LookupAt(d, i);
    }
  }

  /** Only values are compared: two dictionaries with the same values in the
      same order find their match at the same position, whatever their keys. */
  lemma GetKeyIgnoresKeys<K, V>(v: V, d1: seq<(K, V)>, d2: seq<(K, V)>)
    requires DistinctKeys(d1) && DistinctKeys(d2)
    requires Values(d1) == Values(d2)
    ensures GetKey(v, d1).Some? <==> GetKey(v, d2).Some?
    ensures GetKey(v, d1).Some? ==>
      IndexOfKey(d1, GetKey(v, d1).value) == IndexOfKey(d2, GetKey(v, d2).value)
  {
    GetKeyPosition(v, d1);
    GetKeyPosition(v, d2);
  }

  /** When several keys share the value, the earliest one wins:
      `get_key(2, {"a": 1, "b": 2, "c": 2})` is `"b"`. */
  lemma GetKeyExample()
    ensures GetKey(2, [("a", 1), ("b", 2), ("c", 2)]) == Some("b")
  {
  }
}
