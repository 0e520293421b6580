/**
 * `LongObjectBTreeMap`, as the health bookkeeping uses it: a map from `Long`
 * keys to values, kept in ascending key order. It is modelled as a sequence
 * of entries with strictly increasing keys; `ceilingEntry`, `higherEntry`
 * and `lastKeyLong` become positions in that sequence.
 */
module LongTreeMap {
  import opened Wrappers

  datatype Entry<V> = Entry(key: int, value: V)

  /** Keys strictly increase, so each key occurs once. */
  ghost predicate Sorted<V>(es: seq<Entry<V>>)
  {
    forall i, j :: 0 <= i < j < |es| ==> es[i].key < es[j].key
  }

  /** `get(key)`: the value stored under `k`, if any. */
  function Get<V>(es: seq<Entry<V>>, k: int): (r: Option<V>)
    ensures r.Some? <==> exists i :: 0 <= i < |es| && es[i].key == k
    ensures forall i :: 0 <= i < |es| && es[i].key == k && Sorted(es) ==> r == Some(es[i].value)
  {
    if es == [] then None
    else if es[0].key == k then Some(es[0].value)
    else
      var r := Get(es[1..], k);
      assert forall i :: 1 <= i < |es| ==> es[i] == es[1..][i - 1];
      r
  }

  /** `remove(key)`: the entry under `k` is dropped, all others stay in order. */
  function Remove<V>(es: seq<Entry<V>>, k: int): (r: seq<Entry<V>>)
    requires Sorted(es)
    ensures Sorted(r) && |r| <= |es|
    ensures r != [] ==> r[0].key >= es[0].key
  {
    if es == [] then []
    else if es[0].key == k then es[1..]
    else [es[0]] + Remove(es[1..], k)
  }

  /** `put(key, value)`: `k` now holds `v`, replacing any earlier value; all other entries stay. */
  function Put<V>(es: seq<Entry<V>>, k: int, v: V): (r: seq<Entry<V>>)
    requires Sorted(es)
    ensures Sorted(r) && r != []
    ensures r[0].key == if es == [] || k < es[0].key then k else es[0].key
  {
    if es == [] then [Entry(k, v)]
    else if k < es[0].key then [Entry(k, v)] + es
    else if k == es[0].key then [Entry(k, v)] + es[1..]
    else [es[0]] + Put(es[1..], k, v)
  }

  /** After `remove(k)` the map holds exactly the other entries. */
  lemma {:induction false} RemoveMembers<V>(es: seq<Entry<V>>, k: int)
    requires Sorted(es)
    ensures forall e :: e in Remove(es, k) <==> e in es && e.key != k
  {
    if es != [] && es[0].key != k {
      RemoveMembers(es[1..], k);
      assert es == [es[0]] + es[1..];
    } else if es != [] {
      assert es == [es[0]] + es[1..];
    }
  }

  /** After `put(k, v)` the map holds the new entry and the entries under other keys. */
  lemma {:induction false} PutMembers<V>(es: seq<Entry<V>>, k: int, v: V)
    requires Sorted(es)
    ensures forall e :: e in Put(es, k, v) <==> e == Entry(k, v) || (e in es && e.key != k)
  {
    if es != [] {
      assert es == [es[0]] + es[1..];
      if k > es[0].key {
        PutMembers(es[1..], k, v);
      }
    }
  }

  /** `ceilingEntry(k)`: the position of the first key at least `k`, or the size when there is none. */
  function Ceiling<V>(es: seq<Entry<V>>, k: int): (i: nat)
    ensures i <= |es|
    ensures forall j :: 0 <= j < i ==> es[j].key < k
    ensures i < |es| ==> es[i].key >= k
  {
    if es == [] || es[0].key >= k then 0 else 1 + Ceiling(es[1..], k)
  }

  /** `higherEntry(k)`: the position of the first key above `k`, or the size when there is none. */
  function Higher<V>(es: seq<Entry<V>>, k: int): (i: nat)
    ensures i <= |es|
    ensures forall j :: 0 <= j < i ==> es[j].key <= k
    ensures i < |es| ==> es[i].key > k
  {
    if es == [] || es[0].key > k then 0 else 1 + Higher(es[1..], k)
  }

  /** In a sorted map every key from the ceiling position on is at least `k`. */
  lemma CeilingIsLeast<V>(es: seq<Entry<V>>, k: int)
    requires Sorted(es)
    ensures forall j :: Ceiling(es, k) <= j < |es| ==> es[j].key >= k
  {
  }

  /** In a sorted map the entry after a key's position is its `higherEntry`. */
  lemma HigherIsNext<V>(es: seq<Entry<V>>, i: int)
    requires Sorted(es) && 0 <= i < |es|
    ensures Higher(es, es[i].key) == i + 1
  {
    var h := Higher(es, es[i].key);
    if h <= i {
      assert false;
    }
  }

  /** `lastKeyLong()`: the largest key. */
  function LastKey<V>(es: seq<Entry<V>>): (k: int)
    requires |es| > 0 && Sorted(es)
    ensures forall e :: e in es ==> e.key <= k
    ensures exists i :: 0 <= i < |es| && es[i].key == k
  {
    es[|es| - 1].key
  }

  /** After a `put`, the largest key is the larger of the old largest key and the key put. */
  lemma {:induction false} LastKeyOfPut<V>(es: seq<Entry<V>>, k: int, v: V)
    requires Sorted(es)
    ensures LastKey(Put(es, k, v)) == if es == [] || k > LastKey(es) then k else LastKey(es)
  {
    if es != [] && k > es[0].key {
      var tail := Put(es[1..], k, v);
      LastKeyOfPut(es[1..], k, v);
      assert Put(es, k, v)[|Put(es, k, v)| - 1] == tail[|tail| - 1];
      if |es| > 1 {
        assert es[1..][|es| - 2] == es[|es| - 1];
      }
    }
  }

  /** Removing the largest key drops the last entry. */
  lemma {:induction false} RemoveLast<V>(es: seq<Entry<V>>)
    requires Sorted(es) && es != []
    ensures Remove(es, LastKey(es)) == es[..|es| - 1]
  {
    RemoveLastEntry(es, es[|es| - 1].key);
  }

  lemma {:induction false} RemoveLastEntry<V>(es: seq<Entry<V>>, k: int)
    requires Sorted(es) && es != [] && k == es[|es| - 1].key
    ensures Remove(es, k) == es[..|es| - 1]
  {
    if |es| > 1 {
      assert es[0].key < k;
      var tail := es[1..];
      assert Sorted(tail) && tail[|tail| - 1] == es[|es| - 1];
      RemoveLastEntry(tail, k);
      assert es[..|es| - 1] == [es[0]] + tail[..|tail| - 1];
    }
  }

  /** Removing any key but the largest keeps the largest key. */
  lemma {:induction false} LastKeyOfRemove<V>(es: seq<Entry<V>>, k: int)
    requires Sorted(es) && es != [] && k != LastKey(es)
    ensures Remove(es, k) != [] && LastKey(Remove(es, k)) == LastKey(es)
  {
    if es[0].key != k && |es| > 1 {
      LastKeyOfRemove(es[1..], k);
    }
  }
}
