/** Left folds that build a dictionary the way the poller does: item by item
    with `d[key] = value`, and map by map with `d.update(other)`. In both a
    later write to a key replaces an earlier one. */
module Folds {
  import opened Text

  /** `e` is a write to key `k`. */
  predicate Writes<K(==), V>(e: Option<(K, V)>, k: K) {
    e.Some? && e.value.0 == k
  }

  /** Apply the writes in order; `None` entries write nothing. */
  function StoreAll<K, V>(acc: map<K, V>, es: seq<Option<(K, V)>>): map<K, V>
    decreases |es|
  {
    if |es| == 0 then acc
    else
      var next := match es[0] case None => acc case Some(e) => acc[e.0 := e.1];
      StoreAll(next, es[1..])
  }

  /** A key is present exactly when it was already or some entry writes it. */
  lemma {:induction false} StoreAllKeys<K, V>(acc: map<K, V>, es: seq<Option<(K, V)>>, k: K)
    ensures k in StoreAll(acc, es) <==> k in acc || exists i :: 0 <= i < |es| && Writes(es[i], k)
    decreases |es|
  {
    if |es| > 0 {
      var next := match es[0] case None => acc case Some(e) => acc[e.0 := e.1];
      StoreAllKeys(next, es[1..], k);
      if exists i :: 0 <= i < |es| && Writes(es[i], k) {
        var i :| 0 <= i < |es| && Writes(es[i], k);
        if i > 0 { assert es[1..][i - 1] == es[i]; }
      }
      if exists i :: 0 <= i < |es[1..]| && Writes(es[1..][i], k) {
        var i :| 0 <= i < |es[1..]| && Writes(es[1..][i], k);
        assert es[i + 1] == es[1..][i];
      }
    }
  }

  /** A key no entry writes keeps its old value. */
  lemma {:induction false} StoreAllKeeps<K, V>(acc: map<K, V>, es: seq<Option<(K, V)>>, k: K)
    requires k in acc
    requires forall i :: 0 <= i < |es| ==> !Writes(es[i], k)
    ensures k in StoreAll(acc, es) && StoreAll(acc, es)[k] == acc[k]
    decreases |es|
  {
    if |es| > 0 {
      assert !Writes(es[0], k);
      var next := match es[0] case None => acc case Some(e) => acc[e.0 := e.1];
      assert forall i :: 0 <= i < |es[1..]| ==> es[1..][i] == es[i + 1];
      StoreAllKeeps(next, es[1..], k);
    }
  }

  /** The last write to a key decides its value. */
  lemma {:induction false} StoreAllLastWins<K, V>(acc: map<K, V>, es: seq<Option<(K, V)>>, i: nat, k: K)
    requires i < |es| && Writes(es[i], k)
    requires forall j :: i < j < |es| ==> !Writes(es[j], k)
    ensures k in StoreAll(acc, es) && StoreAll(acc, es)[k] == es[i].value.1
    decreases i
  {
    var next := match es[0] case None => acc case Some(e) => acc[e.0 := e.1];
    assert forall j :: 0 <= j < |es[1..]| ==> es[1..][j] == es[j + 1];
    if i == 0 {
      StoreAllKeeps(next, es[1..], k);
    } else {
      StoreAllLastWins(next, es[1..], i - 1, k);
    }
  }

  /** Removing an entry that writes nothing changes nothing. */
  lemma {:induction false} StoreAllSkipsNone<K, V>(acc: map<K, V>, es: seq<Option<(K, V)>>, i: nat)
    requires i < |es| && es[i].None?
    ensures StoreAll(acc, es[..i] + es[i + 1..]) == StoreAll(acc, es)
    decreases i
  {
    if i == 0 {
      assert es[..0] + es[1..] == es[1..];
    } else {
      var next := match es[0] case None => acc case Some(e) => acc[e.0 := e.1];
      StoreAllSkipsNone(next, es[1..], i - 1);
      var shorter := es[..i] + es[i + 1..];
      assert shorter[0] == es[0];
      assert shorter[1..] == es[1..][..i - 1] + es[1..][i..];
    }
  }

  /** `d.update(m)` for each map in turn. */
  function Merge<K, V>(acc: map<K, V>, ms: seq<map<K, V>>): map<K, V>
    decreases |ms|
  {
    if |ms| == 0 then acc else Merge(acc + ms[0], ms[1..])
  }

  lemma {:induction false} MergeAppend<K, V>(acc: map<K, V>, ms: seq<map<K, V>>, m: map<K, V>)
    ensures Merge(acc, ms + [m]) == Merge(acc, ms) + m
    decreases |ms|
  {
    if |ms| == 0 {
      assert ms + [m] == [m];
    } else {
      assert (ms + [m])[1..] == ms[1..] + [m];
      MergeAppend(acc + ms[0], ms[1..], m);
    }
  }

  /** A key is in the merge exactly when it is in the start map or in one of
      the merged maps. */
  lemma {:induction false} MergeKeys<K, V>(acc: map<K, V>, ms: seq<map<K, V>>, k: K)
    ensures k in Merge(acc, ms) <==> k in acc || exists i :: 0 <= i < |ms| && k in ms[i]
    decreases |ms|
  {
    if |ms| > 0 {
      MergeKeys(acc + ms[0], ms[1..], k);
      if exists i :: 0 <= i < |ms| && k in ms[i] {
        var i :| 0 <= i < |ms| && k in ms[i];
        if i > 0 { assert ms[1..][i - 1] == ms[i]; }
      }
      if exists i :: 0 <= i < |ms[1..]| && k in ms[1..][i] {
        var i :| 0 <= i < |ms[1..]| && k in ms[1..][i];
        assert ms[i + 1] == ms[1..][i];
      }
    }
  }

  /** The last map holding a key decides its value. */
  lemma {:induction false} MergeLastWins<K, V>(acc: map<K, V>, ms: seq<map<K, V>>, i: nat, k: K)
    requires i < |ms| && k in ms[i]
    requires forall j :: i < j < |ms| ==> k !in ms[j]
    ensures k in Merge(acc, ms) && Merge(acc, ms)[k] == ms[i][k]
    decreases |ms| - i
  {
    MergeAppend(acc, ms[..|ms| - 1], ms[|ms| - 1]);
    assert ms[..|ms| - 1] + [ms[|ms| - 1]] == ms;
    if i < |ms| - 1 {
      var pre := ms[..|ms| - 1];
      assert forall j :: i < j < |pre| ==> pre[j] == ms[j];
      MergeLastWins(acc, pre, i, k);
    }
  }
}
