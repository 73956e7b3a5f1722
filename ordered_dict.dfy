/** A Python `dict` as the mail scripts use it: an association list that
    keeps its keys in insertion order. Assigning to a present key replaces its
    value in place; assigning to a new key appends it. Iterating over
    `items()` visits the entries in that order. */
module OrderedDict {

  import opened Services

  type Dict<K, V> = seq<(K, V)>

  function Keys<K(==,!new), V>(d: Dict<K, V>): (ks: seq<K>)
    ensures |ks| == |d|
    ensures forall i :: 0 <= i < |d| ==> ks[i] == d[i].0
  {
    if d == [] then [] else [d[0].0] + Keys(d[1..])
  }

  /** No key occurs twice. */
  predicate DistinctKeys<K(==,!new), V>(d: Dict<K, V>) {
    forall i, j :: 0 <= i < j < |d| ==> d[i].0 != d[j].0
  }

  /** The keys, in order, of the entries for which `raises` holds: the sends
      that a loop with one `try` per entry reports as failed. */
  function FailedKeys<K(==,!new), V>(d: Dict<K, V>, raises: (K, V) -> bool): (r: seq<K>)
    ensures |r| <= |d|
    ensures forall k :: k in r <==> exists i :: 0 <= i < |d| && d[i].0 == k && raises(d[i].0, d[i].1)
    decreases |d|
  {
    if d == [] then []
    else
      var front, last := d[..|d| - 1], d[|d| - 1];
      var r := FailedKeys(front, raises) + (if raises(last.0, last.1) then [last.0] else []);
      assert forall i :: 0 <= i < |front| ==> front[i] == d[i];
      r
  }

  /** `d.get(k)`: the value stored under `k`, if any. */
  function Lookup<K(==,!new), V>(d: Dict<K, V>, k: K): (r: Option<V>)
    ensures r.Some? <==> k in Keys(d)
  {
    if d == [] then None
    else if d[0].0 == k then Some(d[0].1)
    else Lookup(d[1..], k)
  }

  /** `d[k] = v`. */
  function Put<K(==,!new), V>(d: Dict<K, V>, k: K, v: V): (r: Dict<K, V>)
    ensures k in Keys(d) ==> Keys(r) == Keys(d)
    ensures k !in Keys(d) ==> Keys(r) == Keys(d) + [k]
    ensures forall i :: 0 <= i < |d| && d[i].0 != k ==> r[i] == d[i]
  {
    if d == [] then [(k, v)]
    else if d[0].0 == k then [(k, v)] + d[1..]
    else [d[0]] + Put(d[1..], k, v)
  }

  /** Assigning keeps the keys distinct. */
  lemma {:induction false} PutDistinct<K(!new), V>(d: Dict<K, V>, k: K, v: V)
    requires DistinctKeys(d)
    ensures DistinctKeys(Put(d, k, v))
  {
    if d != [] && d[0].0 != k {
      PutDistinct(d[1..], k, v);
      assert Put(d, k, v)[1..] == Put(d[1..], k, v);
      assert d[0].0 !in Keys(d[1..]);
    }
  }

  /** After `d[k] = v`, `k` has the new value. */
  lemma {:induction false} PutLookupSame<K(!new), V>(d: Dict<K, V>, k: K, v: V)
    ensures Lookup(Put(d, k, v), k) == Some(v)
  {
    if d != [] && d[0].0 != k {
      PutLookupSame(d[1..], k, v);
      assert Put(d, k, v)[1..] == Put(d[1..], k, v);
    }
  }

  /** Every other key keeps its value. */
  lemma {:induction false} PutLookupOther<K(!new), V>(d: Dict<K, V>, k: K, v: V, other: K)
    requires DistinctKeys(d) && other != k
    ensures Lookup(Put(d, k, v), other) == Lookup(d, other)
  {
    if d != [] && d[0].0 != k {
      PutLookupOther(d[1..], k, v, other);
      assert Put(d, k, v)[1..] == Put(d[1..], k, v);
    }
  }

  /** The keys of a sequence, each at the place of its first occurrence:
      what `pandas.unique` and a dict's keys both give. */
  function FirstOccurrences<K(==,!new)>(ks: seq<K>): (r: seq<K>)
    ensures forall k :: k in r <==> k in ks
    ensures forall i, j :: 0 <= i < j < |r| ==> r[i] != r[j]
    ensures |r| <= |ks|
  {
    if ks == [] then []
    else
      var init := FirstOccurrences(ks[..|ks| - 1]);
      var last := ks[|ks| - 1];
      assert ks == ks[..|ks| - 1] + [last];
      if last in init then init else init + [last]
  }

  /** A loop over items that assigns `d[k] = v` for each item `Some((k, v))`
      and skips each `None`, starting from an empty dict. */
  function Fill<K(==,!new), V>(items: seq<Option<(K, V)>>): Dict<K, V> {
    if items == [] then []
    else
      var d := Fill(items[..|items| - 1]);
      match items[|items| - 1] {
        case None => d
        case Some(p) => Put(d, p.0, p.1)
      }
  }

  /** A skipped item leaves the dict as it is. */
  lemma FillSkip<K(!new), V>(items: seq<Option<(K, V)>>)
    ensures Fill(items + [None]) == Fill(items)
  {
    assert (items + [None])[..|items|] == items;
  }

  /** An assigning item puts its pair into the dict. */
  lemma FillAssign<K(!new), V>(items: seq<Option<(K, V)>>, k: K, v: V)
    ensures Fill(items + [Some((k, v))]) == Put(Fill(items), k, v)
  {
    assert (items + [Some((k, v))])[..|items|] == items;
  }

  /** `f` applied to each element. */
  function MapItems<T, U>(f: T -> U, xs: seq<T>): (r: seq<U>)
    ensures |r| == |xs|
    ensures forall i :: 0 <= i < |xs| ==> r[i] == f(xs[i])
  {
    seq(|xs|, i requires 0 <= i < |xs| => f(xs[i]))
  }

  /** The loop over `xs` that turns each element into an item with `f` and
      then assigns or skips it. */
  method FillFrom<T, K(==,!new), V>(f: T -> Option<(K, V)>, xs: seq<T>) returns (d: Dict<K, V>)
    ensures d == Fill(MapItems(f, xs))
  {
    d := [];
    assert MapItems(f, xs[..0]) == [];
    for i := 0 to |xs|
      invariant d == Fill(MapItems(f, xs[..i]))
    {
      var items := MapItems(f, xs[..i]);
      assert MapItems(f, xs[..i + 1]) == items + [f(xs[i])];
      match f(xs[i]) {
        case Some((k, v)) =>
          FillAssign(items, k, v);
          d := Put(d, k, v);
        case None =>
          FillSkip(items);
      }
    }
    assert xs[..|xs|] == xs;
  }

  /** The keys the loop assigns, in order, repetitions included. */
  function AssignedKeys<K, V>(items: seq<Option<(K, V)>>): (ks: seq<K>)
    ensures |ks| <= |items|
  {
    if items == [] then []
    else
      var init := AssignedKeys(items[..|items| - 1]);
      match items[|items| - 1] {
        case None => init
        case Some(p) => init + [p.0]
      }
  }

  /** A key is assigned exactly when some item carries it. */
  lemma {:induction false} AssignedKeysFrom<K(!new), V>(items: seq<Option<(K, V)>>)
    ensures forall k :: (k in AssignedKeys(items)
      <==> exists i :: 0 <= i < |items| && items[i].Some? && items[i].value.0 == k)
  {
    if items != [] {
      var init := items[..|items| - 1];
      AssignedKeysFrom(init);
      forall k ensures (k in AssignedKeys(items)
        <==> exists i :: 0 <= i < |items| && items[i].Some? && items[i].value.0 == k)
      {
        if exists i :: 0 <= i < |items| && items[i].Some? && items[i].value.0 == k {
          var i :| 0 <= i < |items| && items[i].Some? && items[i].value.0 == k;
          if i < |items| - 1 {
            assert init[i] == items[i];
          }
        }
        if k in AssignedKeys(init) {
          var i :| 0 <= i < |init| && init[i].Some? && init[i].value.0 == k;
          assert items[i] == init[i];
        }
      }
    }
  }

  /** The filled dict never repeats a key. */
  lemma {:induction false} FillDistinct<K(!new), V>(items: seq<Option<(K, V)>>)
    ensures DistinctKeys(Fill(items))
  {
    if items != [] {
      FillDistinct(items[..|items| - 1]);
      match items[|items| - 1] {
        case None =>
        case Some(p) => PutDistinct(Fill(items[..|items| - 1]), p.0, p.1);
      }
    }
  }

  /** The keys of the filled dict are the assigned keys, each at the place of
      its first assignment; so there are no more of them than items. */
  lemma {:induction false} FillKeyOrder<K(!new), V>(items: seq<Option<(K, V)>>)
    ensures Keys(Fill(items)) == FirstOccurrences(AssignedKeys(items))
    ensures |Fill(items)| <= |items|
  {
    if items != [] {
      var init := items[..|items| - 1];
      FillKeyOrder(init);
      var ks := AssignedKeys(items);
      match items[|items| - 1] {
        case None =>
        case Some(p) =>
          assert ks[..|ks| - 1] == AssignedKeys(init);
      }
    }
  }

  /** An item that no later item overrides decides its key's value. */
  lemma {:induction false} FillLastWins<K(!new), V>(items: seq<Option<(K, V)>>, i: nat)
    requires i < |items| && items[i].Some?
    requires forall j :: i < j < |items| && items[j].Some? ==> items[j].value.0 != items[i].value.0
    ensures Lookup(Fill(items), items[i].value.0) == Some(items[i].value.1)
  {
    var init := items[..|items| - 1];
    var before := Fill(init);
    var p := items[i].value;
    if i == |items| - 1 {
      PutLookupSame(before, p.0, p.1);
    } else {
      assert init[i] == items[i];
      forall j | i < j < |init| && init[j].Some? ensures init[j].value.0 != init[i].value.0 {
        assert init[j] == items[j];
      }
      FillLastWins(init, i);
      match items[|items| - 1] {
        case None =>
        case Some(q) =>
          FillDistinct(init);
          PutLookupOther(before, q.0, q.1, p.0);
      }
    }
  }
}
