/**
 Building a dictionary by assigning `d[k] = v` for each pair of a sequence,
 in order, starting from the empty dictionary. Both manifest parsers fill
 their `packages` dictionary this way, so a later pair for a key overwrites
 an earlier one.
 */
module Assoc {

  /** The dictionary left by assigning every pair of `items`, first to last. */
  function ToMap<K(==), V>(items: seq<(K, V)>): map<K, V>
  {
    if items == [] then map[]
    else
      var last := items[|items| - 1];
      ToMap(items[..|items| - 1])[last.0 := last.1]
  }

  /** True when `k` is the key of some pair of `items`. */
  predicate HasKey<K(==), V>(items: seq<(K, V)>, k: K)
  {
    exists i :: 0 <= i < |items| && items[i].0 == k
  }

  /** Assigning one more pair updates exactly that key. */
  lemma ToMapSnoc<K, V>(items: seq<(K, V)>, k: K, v: V)
    ensures ToMap(items + [(k, v)]) == ToMap(items)[k := v]
  {
    assert (items + [(k, v)])[..|items|] == items;
  }

  /** A key is in the dictionary exactly when some pair carries it. */
  lemma {:induction false} ToMapKeys<K, V>(items: seq<(K, V)>, k: K)
    ensures k in ToMap(items) <==> HasKey(items, k)
  {
    if items != [] {
      var n := |items|;
      var prefix := items[..n - 1];
      ToMapKeys(prefix, k);
      if HasKey(prefix, k) {
        var i :| 0 <= i < |prefix| && prefix[i].0 == k;
        assert items[i].0 == k;
      }
      if HasKey(items, k) && items[n - 1].0 != k {
        var i :| 0 <= i < n && items[i].0 == k;
        assert prefix[i].0 == k;
      }
    }
  }

  /**
   The value stored for a key is the value of the LAST pair carrying that
   key: later assignments win.
   */
  lemma {:induction false} ToMapLastWins<K, V>(items: seq<(K, V)>, k: K)
    requires k in ToMap(items)
    ensures exists i :: 0 <= i < |items| && items[i] == (k, ToMap(items)[k])
                        && forall j :: i < j < |items| ==> items[j].0 != k
  {
    var n := |items|;
    var prefix := items[..n - 1];
    if items[n - 1].0 == k {
      assert items[n - 1] == (k, ToMap(items)[k]);
    } else {
      assert k in ToMap(prefix);
      ToMapLastWins(prefix, k);
      var i :| 0 <= i < |prefix| && prefix[i] == (k, ToMap(prefix)[k])
               && forall j :: i < j < |prefix| ==> prefix[j].0 != k;
      assert items[i] == (k, ToMap(items)[k]);
      forall j | i < j < n ensures items[j].0 != k {
        if j < n - 1 { assert items[j] == prefix[j]; }
      }
    }
  }

  /** The dictionary holds at most one key per pair. */
  lemma {:induction false} ToMapSize<K, V>(items: seq<(K, V)>)
    ensures |ToMap(items)| <= |items|
  {
    if items != [] {
      ToMapSize(items[..|items| - 1]);
    }
  }
}
