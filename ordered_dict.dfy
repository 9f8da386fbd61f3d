/** Python's `collections.OrderedDict` with string keys, as used by the
    analyzer: a key sequence in insertion order beside a lookup map.
    `OrderedMap` is the value; `OrderedDict` is the mutable object whose
    state is such a value. */
module OrderedDicts {

  datatype OrderedMap<V> = OrderedMap(keys: seq<string>, entries: map<string, V>)
  {
    /** Keys are unique and are exactly the map's domain. */
    ghost predicate Valid() {
      (forall i, j :: 0 <= i < j < |keys| ==> keys[i] != keys[j]) &&
      (forall k :: k in entries <==> k in keys)
    }

    /** `d[k] = v`: a new key goes to the end; an existing key keeps its
        position and takes the new value. */
    function Put(k: string, v: V): (r: OrderedMap<V>)
      ensures Valid() ==> r.Valid()
    {
      if k in entries then OrderedMap(keys, entries[k := v])
      else OrderedMap(keys + [k], entries[k := v])
    }

    /** What `d[k] = v` does: `k` now maps to `v`, every other entry is
        kept, the existing keys keep their positions, and a new key is
        appended. */
    lemma PutEffect(k: string, v: V)
      ensures Put(k, v).entries.Keys == entries.Keys + {k} && Put(k, v).entries[k] == v
      ensures forall k' :: k' in entries && k' != k ==> Put(k, v).entries[k'] == entries[k']
      ensures |Put(k, v).keys| == |keys| + (if k in entries then 0 else 1)
      ensures forall i :: 0 <= i < |keys| ==> Put(k, v).keys[i] == keys[i]
      ensures k !in entries ==> Put(k, v).keys[|keys|] == k
    {
    }

    /** `d.values()`: the values in key order. */
    function Values(): (r: seq<V>)
      requires Valid()
      ensures |r| == |keys|
      ensures forall i :: 0 <= i < |keys| ==> r[i] == entries[keys[i]]
    {
      seq(|keys|, i requires 0 <= i < |keys| => entries[keys[i]])
    }
  }

  function Empty<V>(): (m: OrderedMap<V>)
    ensures m.Valid() && |m.keys| == 0
  {
    OrderedMap([], map[])
  }

  /** The dictionary obtained by `d[k] = v` for each pair, in order, into an
      empty dictionary. */
  function BuildMap<V>(pairs: seq<(string, V)>): (m: OrderedMap<V>)
    ensures m.Valid()
  {
    if |pairs| == 0 then Empty()
    else
      var last := pairs[|pairs| - 1];
      BuildMap(pairs[..|pairs| - 1]).Put(last.0, last.1)
  }

  /** One more pair is one more `d[k] = v`. */
  lemma BuildMapAppend<V>(pairs: seq<(string, V)>, k: string, v: V)
    ensures BuildMap(pairs + [(k, v)]) == BuildMap(pairs).Put(k, v)
  {
    assert (pairs + [(k, v)])[..|pairs|] == pairs;
  }

  /** `k` is the key of some pair. */
  ghost predicate OccursAsKey<V>(pairs: seq<(string, V)>, k: string) {
    exists j :: 0 <= j < |pairs| && pairs[j].0 == k
  }

  /** Pair `j` is the last pair whose key is `k`. */
  ghost predicate IsLastFor<V>(pairs: seq<(string, V)>, k: string, j: int) {
    0 <= j < |pairs| && pairs[j].0 == k &&
    forall j' :: j < j' < |pairs| ==> pairs[j'].0 != k
  }

  /** Every key occurs among the pairs, and `keys[p]` first occurs before
      `keys[q]` whenever `p < q`. */
  ghost predicate InFirstOccurrenceOrder<V>(keys: seq<string>, pairs: seq<(string, V)>) {
    forall p, q :: 0 <= p < q < |keys| ==>
      OccursAsKey(pairs, keys[p]) && OccursAsKey(pairs, keys[q]) &&
      FirstIndex(pairs, keys[p]) < FirstIndex(pairs, keys[q])
  }

  /** Index of the first pair whose key is `k`. */
  function FirstIndex<V>(pairs: seq<(string, V)>, k: string): (n: nat)
    requires OccursAsKey(pairs, k)
    ensures n < |pairs| && pairs[n].0 == k
    ensures forall j :: 0 <= j < n ==> pairs[j].0 != k
  {
    if pairs[0].0 == k then 0
    else
      assert OccursAsKey(pairs[1..], k) by {
        var j :| 0 <= j < |pairs| && pairs[j].0 == k;
        assert pairs[1..][j - 1] == pairs[j];
      }
      1 + FirstIndex(pairs[1..], k)
  }

  lemma FirstIndexPrefix<V>(pairs: seq<(string, V)>, n: nat, k: string)
    requires n <= |pairs| && OccursAsKey(pairs[..n], k)
    ensures OccursAsKey(pairs, k)
    ensures FirstIndex(pairs[..n], k) == FirstIndex(pairs, k)
  {
    var a := FirstIndex(pairs[..n], k);
    assert pairs[..n][a] == pairs[a];
  }

  /** The keys of the built dictionary are exactly the keys that occur among
      the pairs. */
  lemma {:induction false} BuildMapKeys<V>(pairs: seq<(string, V)>)
    ensures forall k :: k in BuildMap(pairs).entries <==> OccursAsKey(pairs, k)
  {
    if |pairs| > 0 {
      var n := |pairs| - 1;
      var init := pairs[..n];
      BuildMapKeys(init);
      forall k ensures k in BuildMap(pairs).entries <==> OccursAsKey(pairs, k) {
        if OccursAsKey(init, k) {
          var j :| 0 <= j < n && init[j].0 == k;
          assert pairs[j].0 == k;
        }
        if OccursAsKey(pairs, k) && pairs[n].0 != k {
          var j :| 0 <= j < |pairs| && pairs[j].0 == k;
          assert init[j].0 == k;
        }
      }
    }
  }

  /** The keys of the built dictionary stand in the order of their first
      occurrence among the pairs. */
  lemma {:induction false} BuildMapKeysInFirstOccurrenceOrder<V>(pairs: seq<(string, V)>)
    ensures InFirstOccurrenceOrder(BuildMap(pairs).keys, pairs)
  {
    if |pairs| > 0 {
      var n := |pairs| - 1;
      var init := pairs[..n];
      var last := pairs[n];
      BuildMapKeysInFirstOccurrenceOrder(init);
      BuildMapKeys(init);
      BuildMapKeys(pairs);
      var d := BuildMap(init);
      var m := BuildMap(pairs);
      assert m == d.Put(last.0, last.1);
      forall p, q | 0 <= p < q < |m.keys|
        ensures OccursAsKey(pairs, m.keys[p]) && OccursAsKey(pairs, m.keys[q]) &&
          FirstIndex(pairs, m.keys[p]) < FirstIndex(pairs, m.keys[q])
      {
        assert m.keys[p] == d.keys[p] && d.keys[p] in d.entries;
        FirstIndexPrefix(pairs, n, m.keys[p]);
        if q < |d.keys| {
          assert m.keys[q] == d.keys[q] && d.keys[q] in d.entries;
          FirstIndexPrefix(pairs, n, m.keys[q]);
        } else {
          // the key added last occurs nowhere before position n
          assert m.keys[q] == last.0 && last.0 !in d.entries;
          assert !OccursAsKey(init, last.0);
          forall j | 0 <= j < n ensures pairs[j].0 != last.0 {
            assert init[j] == pairs[j];
          }
          assert OccursAsKey(pairs, last.0);
          assert FirstIndex(pairs, last.0) >= n;
        }
      }
    }
  }

  /** A key repeated among the pairs carries the value of its LAST pair. */
  lemma {:induction false} BuildMapLastValueWins<V>(pairs: seq<(string, V)>, k: string)
    requires k in BuildMap(pairs).entries
    ensures exists j :: IsLastFor(pairs, k, j) && pairs[j].1 == BuildMap(pairs).entries[k]
  {
    var n := |pairs| - 1;
    var init := pairs[..n];
    var last := pairs[n];
    var m := BuildMap(pairs);
    assert m == BuildMap(init).Put(last.0, last.1);
    if last.0 == k {
      assert IsLastFor(pairs, k, n);
    } else {
      BuildMapLastValueWins(init, k);
      var j :| IsLastFor(init, k, j) && init[j].1 == BuildMap(init).entries[k];
      LastInPrefix(pairs, k, j);
      assert pairs[j] == init[j];
    }
  }

  /** The last pair for `k` before the final pair stays the last one when
      the final pair has another key. */
  lemma LastInPrefix<V>(pairs: seq<(string, V)>, k: string, j: int)
    requires |pairs| > 0 && pairs[|pairs| - 1].0 != k
    requires IsLastFor(pairs[..|pairs| - 1], k, j)
    ensures IsLastFor(pairs, k, j)
  {
    var init := pairs[..|pairs| - 1];
    forall j' | j < j' < |pairs| ensures pairs[j'].0 != k {
      if j' < |init| {
        assert pairs[j'] == init[j'];
      }
    }
  }

  /** Pairs with distinct keys build a dictionary that keeps their order and
      their values exactly. */
  lemma {:induction false} BuildMapDistinct<V>(pairs: seq<(string, V)>)
    requires forall i, j :: 0 <= i < j < |pairs| ==> pairs[i].0 != pairs[j].0
    ensures |BuildMap(pairs).keys| == |pairs|
    ensures forall i :: 0 <= i < |pairs| ==>
      BuildMap(pairs).keys[i] == pairs[i].0 && BuildMap(pairs).entries[pairs[i].0] == pairs[i].1
  {
    if |pairs| > 0 {
      var n := |pairs| - 1;
      var init := pairs[..n];
      var last := pairs[n];
      BuildMapDistinct(init);
      var d := BuildMap(init);
      var m := BuildMap(pairs);
      assert m == d.Put(last.0, last.1);
      assert last.0 !in d.entries by {
        forall i | 0 <= i < |d.keys| ensures d.keys[i] != last.0 {
          assert d.keys[i] == init[i].0 == pairs[i].0;
        }
      }
      forall i | 0 <= i < |pairs|
        ensures m.keys[i] == pairs[i].0 && m.entries[pairs[i].0] == pairs[i].1
      {
        if i < n {
          assert init[i] == pairs[i];
          assert m.keys[i] == d.keys[i];
          assert pairs[i].0 != last.0;
        }
      }
    }
  }

  /** The mutable `OrderedDict` object. */
  class OrderedDict<V> {
    var keys: seq<string>
    var entries: map<string, V>

    ghost predicate Valid()
      reads this
    {
      Model().Valid()
    }

    /** The dictionary's current value. */
    function Model(): OrderedMap<V>
      reads this
    {
      OrderedMap(keys, entries)
    }

    /** `collections.OrderedDict()` */
    constructor ()
      ensures Valid() && Model() == Empty()
    {
      keys := [];
      entries := map[];
    }

    /** `d[k] = v`, in place. */
    method Put(k: string, v: V)
      requires Valid()
      modifies this
      ensures Valid()
      ensures Model() == old(Model()).Put(k, v)
    {
      if k !in entries {
        keys := keys + [k];
      }
      entries := entries[k := v];
    }
  }
}
