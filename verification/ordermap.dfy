/** The scraper's `capturedOrders`: a JavaScript `Map` from order id to order,
    which remembers the order in which keys were first inserted. */
module OrderMaps {
  import opened Common
  import opened Types

  /** Keys in insertion order, and the value stored under each key. */
  datatype OrderMap = OrderMap(keys: seq<string>, entries: map<string, Order>)

  /** Every key is listed once, the listed keys are exactly the stored ones,
      and every order is stored under its own id. */
  predicate Valid(m: OrderMap) {
    && Distinct(m.keys)
    && Elements(m.keys) == m.entries.Keys
    && forall k :: k in m.entries ==> m.entries[k].orderId == k
  }

  /** `new Map()`. */
  function Empty(): (m: OrderMap)
    ensures Valid(m) && |m.keys| == 0
  {
    OrderMap([], map[])
  }

  /** The ids of a batch of orders. */
  function Ids(batch: seq<Order>): set<string> {
    set o | o in batch :: o.orderId
  }

  /** `capturedOrders.set(o.order_id, o)`: overwrite in place when the id is
      present, so the key keeps its position; otherwise append the key. */
  function Set(m: OrderMap, o: Order): (m': OrderMap)
    requires Valid(m)
    ensures Valid(m')
    ensures m'.entries == m.entries[o.orderId := o]
    ensures o.orderId in m.entries ==> m'.keys == m.keys
    ensures o.orderId !in m.entries ==> m'.keys == m.keys + [o.orderId]
  {
    if o.orderId in m.entries then
      m.(entries := m.entries[o.orderId := o])
    else
      OrderMap(m.keys + [o.orderId], m.entries[o.orderId := o])
  }

  /** `for (const o of orders) capturedOrders.set(o.order_id, o)`. Keys already
      present keep their place; new ids are appended after them. */
  function Merge(m: OrderMap, batch: seq<Order>): (m': OrderMap)
    requires Valid(m)
    ensures Valid(m')
    ensures m.keys <= m'.keys
    decreases |batch|
  {
    if |batch| == 0 then m else Merge(Set(m, batch[0]), batch[1..])
  }

  /** The ids of `batch` that are not in `known`, each once, in the order of
      their first occurrence in the batch. */
  function NewIds(known: seq<string>, batch: seq<Order>): seq<string>
    decreases |batch|
  {
    if |batch| == 0 then []
    else if batch[0].orderId in known then NewIds(known, batch[1..])
    else [batch[0].orderId] + NewIds(known + [batch[0].orderId], batch[1..])
  }

  /** The key sequence after a merge, as a JavaScript `Map` keeps it: the old
      keys, then the batch's new ids in the order they first appear. */
  lemma {:induction false} MergeOrder(m: OrderMap, batch: seq<Order>)
    requires Valid(m)
    ensures Merge(m, batch).keys == m.keys + NewIds(m.keys, batch)
    decreases |batch|
  {
    if |batch| > 0 {
      MergeOrder(Set(m, batch[0]), batch[1..]);
      MergeOrderStep(m, batch);
    }
  }

  /** One step of `MergeOrder`: the first order's id is appended exactly
      when it is new. */
  lemma MergeOrderStep(m: OrderMap, batch: seq<Order>)
    requires Valid(m) && |batch| > 0
    requires Merge(Set(m, batch[0]), batch[1..]).keys
          == Set(m, batch[0]).keys + NewIds(Set(m, batch[0]).keys, batch[1..])
    ensures Merge(m, batch).keys == m.keys + NewIds(m.keys, batch)
  {
    var o, rest := batch[0], batch[1..];
    var m1 := Set(m, o);
    SetAdds(m, o);
    NewIdsStep(m.keys, batch, m1.keys);
    Reassoc(Merge(m, batch).keys, m.keys, m1.keys, Added(m.keys, o.orderId),
            NewIds(m1.keys, rest), NewIds(m.keys, batch));
  }

  /** What setting an order with id `id` appends to the keys `known`. */
  function Added(known: seq<string>, id: string): seq<string> {
    if id in known then [] else [id]
  }

  /** Setting an order appends its id to the keys when it is new. */
  lemma SetAdds(m: OrderMap, o: Order)
    requires Valid(m)
    ensures Set(m, o).keys == m.keys + Added(m.keys, o.orderId)
  {
    KeyListed(m, o.orderId);
    assert m.keys + [] == m.keys;
  }

  /** Unfolds `NewIds` once, with the known ids after the first order. */
  lemma NewIdsStep(known: seq<string>, batch: seq<Order>, known': seq<string>)
    requires |batch| > 0
    requires known' == known + Added(known, batch[0].orderId)
    ensures NewIds(known, batch) == Added(known, batch[0].orderId) + NewIds(known', batch[1..])
  {
    if batch[0].orderId in known {
      assert known' == known;
    }
  }

  /** A valid map stores a value exactly under its listed keys. */
  lemma KeyListed(m: OrderMap, id: string)
    requires Valid(m)
    ensures id in m.entries <==> id in m.keys
  {
    assert id in Elements(m.keys) <==> id in m.keys;
  }

  /** Sequence algebra for the step of `MergeOrder`. */
  lemma Reassoc<T>(e: seq<T>, a: seq<T>, b: seq<T>, x: seq<T>, c: seq<T>, d: seq<T>)
    requires e == b + c && b == a + x && d == x + c
    ensures e == a + d
  {
  }

  /** The keys after a merge are the keys before it and the ids of the batch. */
  lemma {:induction false} MergeKeys(m: OrderMap, batch: seq<Order>)
    requires Valid(m)
    ensures Elements(Merge(m, batch).keys) == Elements(m.keys) + Ids(batch)
    decreases |batch|
  {
    if |batch| == 0 {
      assert Ids(batch) == {};
    } else {
      MergeKeys(Set(m, batch[0]), batch[1..]);
      MergeKeysStep(m, batch);
    }
  }

  /** One step of `MergeKeys`: the first order's id joins the keys. */
  lemma MergeKeysStep(m: OrderMap, batch: seq<Order>)
    requires Valid(m) && |batch| > 0
    requires Elements(Merge(Set(m, batch[0]), batch[1..]).keys)
          == Elements(Set(m, batch[0]).keys) + Ids(batch[1..])
    ensures Elements(Merge(m, batch).keys) == Elements(m.keys) + Ids(batch)
  {
    var x, rest := batch[0], batch[1..];
    var m1 := Set(m, x);
    var e, a, b := Elements(Merge(m, batch).keys), Elements(m.keys), Elements(m1.keys);
    var c, d := Ids(rest), Ids(batch);
    assert e == b + c;
    SetKeys(m, x);
    IdsCons(batch);
    Regroup(e, a, b, x.orderId, c, d);
  }

  /** Setting one order adds its id to the listed keys. */
  lemma SetKeys(m: OrderMap, o: Order)
    requires Valid(m)
    ensures Elements(Set(m, o).keys) == Elements(m.keys) + {o.orderId}
  {
    var m1 := Set(m, o);
    assert Elements(m1.keys) == m1.entries.Keys;
    assert m1.entries.Keys == m.entries.Keys + {o.orderId};
  }

  /** Set algebra for the step of `MergeKeys`. */
  lemma Regroup<T>(e: set<T>, a: set<T>, b: set<T>, x: T, c: set<T>, d: set<T>)
    requires e == b + c && b == a + {x} && d == {x} + c
    ensures e == a + d
  {}

  /** The ids of a non-empty batch: its first id and the rest's. */
  lemma IdsCons(batch: seq<Order>)
    requires |batch| > 0
    ensures Ids(batch) == {batch[0].orderId} + Ids(batch[1..])
  {
    assert batch == [batch[0]] + batch[1..];
  }

  /** `Array.from(capturedOrders.values())`: the stored orders in key order. */
  function Values(m: OrderMap): (vs: seq<Order>)
    requires Valid(m)
    ensures |vs| == |m.keys|
    ensures forall i :: 0 <= i < |vs| ==> vs[i] == m.entries[m.keys[i]]
  {
    seq(|m.keys|, i requires 0 <= i < |m.keys| => m.entries[m.keys[i]])
  }

  /** `values()` lists every stored order exactly once and nothing else: the
      listed orders are stored under their own ids, no order is listed
      twice, every stored order is listed, and there are as many as keys. */
  lemma ValuesAreStored(m: OrderMap)
    requires Valid(m)
    ensures var vs := Values(m);
      && (forall o :: o in vs ==> o.orderId in m.entries && m.entries[o.orderId] == o)
      && (forall id :: id in m.entries ==> m.entries[id] in vs)
      && Distinct(vs)
      && |vs| == |m.entries|
  {
    var vs := Values(m);
    forall id | id in m.entries
      ensures m.entries[id] in vs
    {
      assert id in Elements(m.keys);
      var i :| 0 <= i < |m.keys| && m.keys[i] == id;
      assert vs[i] == m.entries[id];
    }
    forall i, j | 0 <= i < j < |vs|
      ensures vs[i] != vs[j]
    {
      assert vs[i].orderId == m.keys[i] && vs[j].orderId == m.keys[j];
    }
    DistinctCardinality(m.keys);
    assert |m.entries| == |m.entries.Keys|;
  }

  /** Merging a batch with one more order at the end is one more `set`. */
  lemma {:induction false} MergeSnoc(m: OrderMap, batch: seq<Order>, o: Order)
    requires Valid(m)
    ensures Merge(m, batch + [o]) == Set(Merge(m, batch), o)
    decreases |batch|
  {
    if |batch| == 0 {
      assert batch + [o] == [o];
      assert Merge(Set(m, o), []) == Set(m, o);
    } else {
      assert (batch + [o])[0] == batch[0];
      assert (batch + [o])[1..] == batch[1..] + [o];
      MergeSnoc(Set(m, batch[0]), batch[1..], o);
    }
  }

  /** Merging two batches one after the other is merging their concatenation. */
  lemma {:induction false} MergeConcat(m: OrderMap, a: seq<Order>, b: seq<Order>)
    requires Valid(m)
    ensures Merge(Merge(m, a), b) == Merge(m, a + b)
    decreases |a|
  {
    if |a| == 0 {
      assert a + b == b;
    } else {
      assert (a + b)[0] == a[0];
      assert (a + b)[1..] == a[1..] + b;
      MergeConcat(Set(m, a[0]), a[1..], b);
    }
  }

  /** An id of a batch that the last order does not carry is an id of the
      rest of the batch. */
  lemma IdsBeforeLast(batch: seq<Order>, id: string)
    requires id in Ids(batch)
    requires batch[|batch| - 1].orderId != id
    ensures id in Ids(batch[..|batch| - 1])
  {
    var n := |batch| - 1;
    var o :| o in batch && o.orderId == id;
    var k :| 0 <= k < |batch| && batch[k] == o;
    assert k < n;
    assert batch[..n][k] == o;
    assert o in batch[..n];
  }

  /** The position of the last order of a batch with the given id. */
  function LastIndexOf(batch: seq<Order>, id: string): (i: nat)
    requires id in Ids(batch)
    ensures i < |batch| && batch[i].orderId == id
    ensures forall j :: i < j < |batch| ==> batch[j].orderId != id
  {
    var n := |batch| - 1;
    if batch[n].orderId == id then n
    else
      IdsBeforeLast(batch, id);
      var i := LastIndexOf(batch[..n], id);
      assert batch[i] == batch[..n][i];
      i
  }

  /** Ids not in the batch are untouched by a merge. */
  lemma {:induction false} MergeUntouched(m: OrderMap, batch: seq<Order>, id: string)
    requires Valid(m)
    requires id !in Ids(batch)
    ensures id in Merge(m, batch).entries <==> id in m.entries
    ensures id in m.entries ==> Merge(m, batch).entries[id] == m.entries[id]
    decreases |batch|
  {
    if |batch| > 0 {
      var n := |batch| - 1;
      assert batch == batch[..n] + [batch[n]];
      assert batch[n] in batch;
      assert Ids(batch[..n]) <= Ids(batch) by {
        forall x | x in Ids(batch[..n]) ensures x in Ids(batch) {
          var o :| o in batch[..n] && o.orderId == x;
          assert o in batch;
        }
      }
      MergeSnoc(m, batch[..n], batch[n]);
      MergeUntouched(m, batch[..n], id);
    }
  }

  /** After a merge every id of the batch holds the LAST order of the batch
      with that id: later duplicates overwrite earlier ones. */
  lemma {:induction false} MergeLastWins(m: OrderMap, batch: seq<Order>, id: string)
    requires Valid(m)
    requires id in Ids(batch)
    ensures id in Merge(m, batch).entries
    ensures Merge(m, batch).entries[id] == batch[LastIndexOf(batch, id)]
    decreases |batch|
  {
    var n := |batch| - 1;
    assert batch == batch[..n] + [batch[n]];
    MergeSnoc(m, batch[..n], batch[n]);
    if batch[n].orderId != id {
      IdsBeforeLast(batch, id);
      MergeLastWins(m, batch[..n], id);
      assert LastIndexOf(batch, id) == LastIndexOf(batch[..n], id);
    }
  }

  /** The number of keys after merging a batch is the number of distinct ids
      among the keys before and the batch. */
  lemma MergeCount(m: OrderMap, batch: seq<Order>)
    requires Valid(m)
    ensures |Merge(m, batch).keys| == |Elements(m.keys) + Ids(batch)|
  {
    MergeKeys(m, batch);
    DistinctCardinality(Merge(m, batch).keys);
  }

  /** Expansion stops once the order last in insertion order is older than
      `start`; an empty map never stops it. */
  predicate BoundaryReached(m: OrderMap, start: int)
    requires Valid(m)
  {
    |m.keys| > 0 && m.entries[m.keys[|m.keys| - 1]].orderTime < start
  }

  /** Setting an id that is already present leaves the key order alone, so the
      boundary check only sees the new value when the id is the last key, and
      its answer cannot change unless the stored timestamp does. */
  lemma RemergeKeepsFrontier(m: OrderMap, o: Order, start: int)
    requires Valid(m)
    requires o.orderId in m.entries
    ensures Set(m, o).keys == m.keys
    ensures BoundaryReached(Set(m, o), start) ==
      if o.orderId == m.keys[|m.keys| - 1] then o.orderTime < start
      else BoundaryReached(m, start)
    ensures o.orderTime == m.entries[o.orderId].orderTime ==>
      BoundaryReached(Set(m, o), start) == BoundaryReached(m, start)
  {
  }
}
