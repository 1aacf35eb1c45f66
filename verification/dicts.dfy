/**
 * Sequential writes into a JavaScript object used as a dictionary:
 * `for (x of xs) if (keep(x)) obj[key(x)] = val(x)`. A later write to a
 * key replaces the earlier one.
 */
module Dicts {

  /** The `i`-th element is the last kept element of `xs` with its key. */
  ghost predicate IsLastWrite<T, K>(xs: seq<T>, keep: T -> bool, key: T -> K, i: int)
    requires 0 <= i < |xs|
  {
    forall j :: i < j < |xs| && keep(xs[j]) ==> key(xs[j]) != key(xs[i])
  }

  /** The dictionary left behind by writing `key(x) := val(x)` for every kept `x`, in order. */
  function Collect<T, K(!new), V>(xs: seq<T>, keep: T -> bool, key: T -> K, val: T -> V): (m: map<K, V>)
    ensures forall k :: k in m <==> exists i :: 0 <= i < |xs| && keep(xs[i]) && key(xs[i]) == k
    ensures forall i :: 0 <= i < |xs| && keep(xs[i]) && IsLastWrite(xs, keep, key, i) ==>
              key(xs[i]) in m && m[key(xs[i])] == val(xs[i])
  {
    if |xs| == 0 then map[]
    else
      var front := xs[..|xs| - 1];
      var x := xs[|xs| - 1];
      var m := Collect(front, keep, key, val);
      assert forall i :: 0 <= i < |front| ==> front[i] == xs[i];
      if keep(x) then m[key(x) := val(x)] else m
  }

  /** Every entry of the collected dictionary comes from the last write to its key. */
  lemma {:induction false} CollectValueIsLastWrite<T, K(!new), V>(xs: seq<T>, keep: T -> bool, key: T -> K, val: T -> V, k: K)
    requires k in Collect(xs, keep, key, val)
    ensures exists i :: 0 <= i < |xs| && keep(xs[i]) && key(xs[i]) == k && IsLastWrite(xs, keep, key, i)
                        && Collect(xs, keep, key, val)[k] == val(xs[i])
  {
    var m := Collect(xs, keep, key, val);
    var i :| 0 <= i < |xs| && keep(xs[i]) && key(xs[i]) == k;
    // walk forward to the last kept index carrying key k
    while exists j :: i < j < |xs| && keep(xs[j]) && key(xs[j]) == k
      invariant 0 <= i < |xs| && keep(xs[i]) && key(xs[i]) == k
      decreases |xs| - i
    {
      var j :| i < j < |xs| && keep(xs[j]) && key(xs[j]) == k;
      i := j;
    }
    assert IsLastWrite(xs, keep, key, i);
  }

  function KeepEntry<K, V>(e: (K, V)): bool { true }
  function EntryKey<K, V>(e: (K, V)): K { e.0 }
  function EntryValue<K, V>(e: (K, V)): V { e.1 }

  /** No later entry writes the same key as entry `i`. */
  ghost predicate IsLastEntry<K, V>(es: seq<(K, V)>, i: int)
    requires 0 <= i < |es|
  {
    forall j :: i < j < |es| ==> es[j].0 != es[i].0
  }

  /** The dictionary left behind by the assignments `obj[k] = v` for every entry `(k, v)`, in order. */
  function FromEntries<K(!new), V>(es: seq<(K, V)>): (m: map<K, V>)
    ensures forall k :: k in m <==> exists i :: 0 <= i < |es| && es[i].0 == k
    ensures forall i :: 0 <= i < |es| && IsLastEntry(es, i) ==> m[es[i].0] == es[i].1
  {
    var m := Collect(es, KeepEntry, EntryKey, EntryValue);
    forall i | 0 <= i < |es| && IsLastEntry(es, i)
      ensures m[es[i].0] == es[i].1
    {
      LastEntryIsLastWrite(es, i);
    }
    m
  }

  lemma LastEntryIsLastWrite<K(!new), V>(es: seq<(K, V)>, i: int)
    requires 0 <= i < |es| && IsLastEntry(es, i)
    ensures IsLastWrite(es, KeepEntry, EntryKey, i)
    ensures Collect(es, KeepEntry, EntryKey, EntryValue)[es[i].0] == es[i].1
  {
    assert KeepEntry(es[i]);
  }
}
