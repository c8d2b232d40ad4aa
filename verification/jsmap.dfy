/** `new Map(entries)` in JavaScript: built from a list of key/value pairs,
    where a key that occurs more than once keeps the value of its LAST pair. */
module JsMap {

  /** `(k, v)` is the last pair in `entries` whose key is `k`. */
  ghost predicate IsLastEntry<K, V>(entries: seq<(K, V)>, k: K, v: V) {
    exists j :: 0 <= j < |entries| && entries[j] == (k, v) &&
      forall j' :: j < j' < |entries| ==> entries[j'].0 != k
  }

  function FromEntries<K(!new), V>(entries: seq<(K, V)>): (m: map<K, V>)
    ensures forall k :: k in m <==> exists j :: 0 <= j < |entries| && entries[j].0 == k
    ensures forall k :: k in m ==> IsLastEntry(entries, k, m[k])
  {
    if |entries| == 0 then map[]
    else
      var init := entries[..|entries| - 1];
      var last := entries[|entries| - 1];
      var m := FromEntries(init);
      AddLast(init, last, entries, m, m[last.0 := last.1]);
      m[last.0 := last.1]
  }

  /** Setting the last pair on the map of all earlier pairs gives the map of all pairs. */
  lemma AddLast<K(!new), V>(init: seq<(K, V)>, last: (K, V), entries: seq<(K, V)>, m: map<K, V>, m': map<K, V>)
    requires entries == init + [last] && m' == m[last.0 := last.1]
    requires forall k :: k in m <==> exists j :: 0 <= j < |init| && init[j].0 == k
    requires forall k :: k in m ==> IsLastEntry(init, k, m[k])
    ensures forall k :: k in m' <==> exists j :: 0 <= j < |entries| && entries[j].0 == k
    ensures forall k :: k in m' ==> IsLastEntry(entries, k, m'[k])
  {
    forall k, j | 0 <= j < |entries| && entries[j].0 == k
      ensures k in m'
    {
      if j < |init| {
        assert init[j].0 == k;
      }
    }
    forall k | k in m'
      ensures (exists j :: 0 <= j < |entries| && entries[j].0 == k) && IsLastEntry(entries, k, m'[k])
    {
      if k == last.0 {
        assert entries[|init|] == (k, m'[k]);
      } else {
        var j :| 0 <= j < |init| && init[j] == (k, m[k]) &&
          forall j' :: j < j' < |init| ==> init[j'].0 != k;
        assert entries[j] == (k, m'[k]);
        assert forall j' :: j < j' < |entries| ==> entries[j'].0 != k;
      }
    }
  }
}
