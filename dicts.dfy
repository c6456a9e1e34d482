/** Python's `dict` as the crawler uses it: a map from keys to values that also remembers the
    order in which keys were first inserted (the order `json.dump` and `.values()` follow). */
module Dicts {
  import opened Seqs

  datatype Dict<K(==, !new), V> = Dict(order: seq<K>, items: map<K, V>)
  {
    /** Every key is listed once, and the listed keys are exactly the map's keys. */
    ghost predicate Valid()
    {
      Distinct(order) && forall k :: k in items <==> k in order
    }

    /** `d[k] = v`: a new key goes to the end of the order, an existing key keeps its place. */
    function Put(k: K, v: V): (d: Dict<K, V>)
      requires Valid()
      ensures d.Valid()
      ensures d.items == items[k := v]
      ensures d.order == if k in items then order else order + [k]
    {
      if k in items then Dict(order, items[k := v]) else Dict(order + [k], items[k := v])
    }
  }

  function Keys<K, V>(entries: seq<(K, V)>): seq<K>
  {
    seq(|entries|, i requires 0 <= i < |entries| => entries[i].0)
  }

  /** The dictionary built by assigning each entry in turn, starting from `{}`. */
  function FromEntries<K(==, !new), V>(entries: seq<(K, V)>): (d: Dict<K, V>)
    ensures d.Valid()
  {
    if entries == [] then Dict([], map[])
    else
      var last := entries[|entries| - 1];
      FromEntries(entries[..|entries| - 1]).Put(last.0, last.1)
  }

  /** The keys come out in order of first assignment, each once. */
  lemma {:induction false} FromEntriesOrder<K(!new), V>(entries: seq<(K, V)>)
    ensures FromEntries(entries).order == Dedup(Keys(entries))
  {
    if entries != [] {
      var init := entries[..|entries| - 1];
      FromEntriesOrder(init);
      assert Keys(entries)[..|entries| - 1] == Keys(init);
      var d := FromEntries(init);
      assert entries[|entries| - 1].0 in d.items <==> entries[|entries| - 1].0 in Keys(init);
    }
  }

  /** The dictionary's keys are exactly the keys assigned. */
  lemma FromEntriesKeys<K(!new), V>(entries: seq<(K, V)>)
    ensures forall k :: k in FromEntries(entries).items <==> k in Keys(entries)
  {
    FromEntriesOrder(entries);
  }

  /** A key holds the value of its last assignment. */
  lemma {:induction false} FromEntriesLastWins<K(!new), V>(entries: seq<(K, V)>, i: nat)
    requires i < |entries|
    requires forall j :: i < j < |entries| ==> entries[j].0 != entries[i].0
    ensures entries[i].0 in FromEntries(entries).items
    ensures FromEntries(entries).items[entries[i].0] == entries[i].1
  {
    if i < |entries| - 1 {
      FromEntriesLastWins(entries[..|entries| - 1], i);
    }
  }

  /** Every value held was assigned to its key at some point. */
  lemma {:induction false} FromEntriesValue<K(!new), V>(entries: seq<(K, V)>, k: K)
    requires k in FromEntries(entries).items
    ensures exists i :: 0 <= i < |entries| && entries[i] == (k, FromEntries(entries).items[k])
  {
    var last := entries[|entries| - 1];
    if last.0 != k {
      FromEntriesValue(entries[..|entries| - 1], k);
      var i :| 0 <= i < |entries| - 1 && entries[..|entries| - 1][i] == (k, FromEntries(entries).items[k]);
      assert entries[i] == (k, FromEntries(entries).items[k]);
    } else {
      assert entries[|entries| - 1] == (k, FromEntries(entries).items[k]);
    }
  }

  /** With distinct keys, the order is the entries' order and each key holds its own value. */
  lemma FromDistinctEntries<K(!new), V>(entries: seq<(K, V)>)
    requires Distinct(Keys(entries))
    ensures FromEntries(entries).order == Keys(entries)
    ensures forall i :: 0 <= i < |entries| ==>
      entries[i].0 in FromEntries(entries).items && FromEntries(entries).items[entries[i].0] == entries[i].1
  {
    assert FromEntries(entries).order == Keys(entries) by {
      FromEntriesOrder(entries);
      DedupOfDistinct(Keys(entries));
    }
    forall i | 0 <= i < |entries|
      ensures entries[i].0 in FromEntries(entries).items && FromEntries(entries).items[entries[i].0] == entries[i].1
    {
      assert forall j :: i < j < |entries| ==> entries[j].0 != entries[i].0 by {
        forall j | i < j < |entries|
          ensures entries[j].0 != entries[i].0
        {
          assert Keys(entries)[j] != Keys(entries)[i];
        }
      }
      FromEntriesLastWins(entries, i);
    }
  }
}
