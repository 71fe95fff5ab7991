/** The sort of the processing step (src/scraper.ts): orders newest first by
    `order_time`. Insertion places an order before the first one that is not
    newer, so orders with equal times keep their relative order, as
    `Array.prototype.sort` does. */
module Sorting {
  import opened Types

  /** Non-increasing by time. */
  predicate SortedByTimeDesc(s: seq<Order>) {
    forall i, j :: 0 <= i < j < |s| ==> s[i].orderTime >= s[j].orderTime
  }

  function Insert(o: Order, s: seq<Order>): (r: seq<Order>)
    requires SortedByTimeDesc(s)
    ensures SortedByTimeDesc(r)
    ensures multiset(r) == multiset(s) + multiset{o}
    ensures |r| == |s| + 1
    ensures r[0] == o || (|s| > 0 && r[0] == s[0])
  {
    if |s| == 0 || s[0].orderTime <= o.orderTime then [o] + s
    else
      assert s == [s[0]] + s[1..];
      [s[0]] + Insert(o, s[1..])
  }

  /** `.sort((a, b) => b.time - a.time)`: a permutation of the input,
      newest first. */
  function SortByTimeDesc(s: seq<Order>): (r: seq<Order>)
    ensures SortedByTimeDesc(r)
    ensures multiset(r) == multiset(s)
  {
    if |s| == 0 then []
    else
      assert s == [s[0]] + s[1..];
      Insert(s[0], SortByTimeDesc(s[1..]))
  }

  /** The orders of a sequence that have the given time, in sequence order. */
  function AtTime(s: seq<Order>, t: int): seq<Order> {
    if |s| == 0 then []
    else (if s[0].orderTime == t then [s[0]] else []) + AtTime(s[1..], t)
  }

  lemma {:induction false} InsertAtTime(o: Order, s: seq<Order>, t: int)
    requires SortedByTimeDesc(s)
    ensures AtTime(Insert(o, s), t) == (if o.orderTime == t then [o] else []) + AtTime(s, t)
  {
    if |s| == 0 || s[0].orderTime <= o.orderTime {
      assert ([o] + s)[1..] == s;
    } else {
      var r := Insert(o, s);
      var rest := Insert(o, s[1..]);
      assert r == [s[0]] + rest;
      assert r[1..] == rest;
      InsertAtTime(o, s[1..], t);
      var mine := if o.orderTime == t then [o] else [];
      var head := if s[0].orderTime == t then [s[0]] else [];
      assert AtTime(r, t) == head + AtTime(rest, t);
      assert AtTime(rest, t) == mine + AtTime(s[1..], t);
      assert AtTime(s, t) == head + AtTime(s[1..], t);
      if o.orderTime == t {
        assert head == [];
        assert AtTime(r, t) == AtTime(rest, t);
        assert AtTime(s, t) == AtTime(s[1..], t);
      } else {
        assert mine == [];
        assert AtTime(rest, t) == AtTime(s[1..], t);
      }
    }
  }

  /** The sort is stable: among orders with the same time, the output keeps
      the input's order. */
  lemma {:induction false} SortIsStable(s: seq<Order>, t: int)
    ensures AtTime(SortByTimeDesc(s), t) == AtTime(s, t)
  {
    if |s| > 0 {
      SortIsStable(s[1..], t);
      InsertAtTime(s[0], SortByTimeDesc(s[1..]), t);
    }
  }
}
