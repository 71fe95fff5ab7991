/** `expandOrderList` (src/helpers.ts): the loop that pages through the order
    history until the order last inserted into `capturedOrders` is older than
    the start date, or the "Show More Orders" control is gone. The browser
    enters as an oracle: one `Round` per pass of the loop. */
module Expansion {
  import opened Common
  import opened Types
  import opened OrderMaps
  import opened Interceptor
  import opened Dom
  import opened Text

  /** One pass after a failed boundary check: the `textContent` of each
      `div, span, button` the scan sees, and every response the listener
      handles during the pass, that is while the loop waits after scrolling
      and, when the control is clicked, while it waits after the click. */
  datatype Round = Round(texts: seq<string>, arrivals: seq<Response>)

  /** How the loop ended. `Pending` is not an exit of the loop: it means the
      oracle ran out of rounds while the loop would still go on. */
  datatype Outcome = ReachedBoundary | Exhausted | Pending

  /** The outcome, the map when the loop stopped, and how many times the
      control was clicked. */
  datatype ExpansionResult = ExpansionResult(outcome: Outcome, orders: OrderMap, clicks: nat)
  {
    /** The passes the loop went through: the clicked ones, and the last one
        when its scan found no control. */
    function Passes(): nat {
      clicks + if outcome.Exhausted? then 1 else 0
    }
  }

  /** The map after the listener has handled the arrivals of the given rounds. */
  function AfterRounds(m: OrderMap, rounds: seq<Round>): (m': OrderMap)
    requires Valid(m)
    ensures Valid(m')
    ensures m.keys <= m'.keys
    decreases |rounds|
  {
    if |rounds| == 0 then m else AfterRounds(InterceptAll(m, rounds[0].arrivals), rounds[1..])
  }

  /** The expansion loop: check the boundary; otherwise make a pass, whose
      responses the listener handles in any case, and go on when the scan
      found the control, or stop when it did not. */
  function Expand(m: OrderMap, start: int, rounds: seq<Round>): (e: ExpansionResult)
    requires Valid(m)
    ensures Valid(e.orders)
    ensures e.Passes() <= |rounds|
    decreases |rounds|
  {
    if BoundaryReached(m, start) then ExpansionResult(ReachedBoundary, m, 0)
    else if |rounds| == 0 then ExpansionResult(Pending, m, 0)
    else
      var m1 := InterceptAll(m, rounds[0].arrivals);
      if FindShowMore(rounds[0].texts).None? then ExpansionResult(Exhausted, m1, 0)
      else
        var e := Expand(m1, start, rounds[1..]);
        ExpansionResult(e.outcome, e.orders, e.clicks + 1)
  }

  /** How the loop ends: at the boundary only with a map that meets it; as
      exhausted only on a pass whose scan found no control; pending only when
      every pass was used, with a map that does not meet the boundary. */
  lemma {:induction false} ExpandStops(m: OrderMap, start: int, rounds: seq<Round>)
    requires Valid(m)
    ensures Stops(m, start, rounds, Expand(m, start, rounds))
    decreases |rounds|
  {
    if !BoundaryReached(m, start) && |rounds| > 0 && FindShowMore(rounds[0].texts).Some? {
      var m1 := InterceptAll(m, rounds[0].arrivals);
      ExpandStops(m1, start, rounds[1..]);
      StopsAfterClick(m, start, rounds);
    }
  }

  /** The three ways a result of `Expand` can have stopped. */
  predicate Stops(m: OrderMap, start: int, rounds: seq<Round>, e: ExpansionResult)
    requires Valid(m) && Valid(e.orders)
  {
    && (e.outcome.ReachedBoundary? ==> BoundaryReached(e.orders, start))
    && (e.outcome.Exhausted? ==> e.clicks < |rounds| && FindShowMore(rounds[e.clicks].texts).None?)
    && (e.outcome.Pending? ==> e.clicks == |rounds| && !BoundaryReached(e.orders, start))
  }

  /** The step of `ExpandStops` over a clicked pass. */
  lemma StopsAfterClick(m: OrderMap, start: int, rounds: seq<Round>)
    requires Valid(m) && !BoundaryReached(m, start)
    requires |rounds| > 0 && FindShowMore(rounds[0].texts).Some?
    requires Stops(InterceptAll(m, rounds[0].arrivals), start, rounds[1..],
                   Expand(InterceptAll(m, rounds[0].arrivals), start, rounds[1..]))
    ensures Stops(m, start, rounds, Expand(m, start, rounds))
  {
    var e := Expand(InterceptAll(m, rounds[0].arrivals), start, rounds[1..]);
    assert Expand(m, start, rounds) == ExpansionResult(e.outcome, e.orders, e.clicks + 1);
    assert e.outcome.Exhausted? ==> rounds[1..][e.clicks] == rounds[e.clicks + 1];
  }

  /** The map the loop stops with is the initial one after the listener has
      handled the responses of every pass the loop made: the clicked ones,
      and the last one when its scan found no control. */
  lemma {:induction false} ExpandOrders(m: OrderMap, start: int, rounds: seq<Round>)
    requires Valid(m)
    ensures Expand(m, start, rounds).orders == AfterRounds(m, rounds[..Expand(m, start, rounds).Passes()])
    decreases |rounds|, 1
  {
    if BoundaryReached(m, start) || |rounds| == 0 {
      assert rounds[..0] == [];
    } else if FindShowMore(rounds[0].texts).None? {
      OrdersWhenExhausted(m, start, rounds);
    } else {
      OrdersAfterClick(m, start, rounds);
    }
  }

  /** `ExpandOrders` on a pass whose scan found no control. */
  lemma OrdersWhenExhausted(m: OrderMap, start: int, rounds: seq<Round>)
    requires Valid(m) && !BoundaryReached(m, start)
    requires |rounds| > 0 && FindShowMore(rounds[0].texts).None?
    ensures Expand(m, start, rounds).orders == AfterRounds(m, rounds[..Expand(m, start, rounds).Passes()])
  {
    var m1 := InterceptAll(m, rounds[0].arrivals);
    assert Expand(m, start, rounds) == ExpansionResult(Exhausted, m1, 0);
    PrefixStep(m, rounds, 1);
    assert rounds[1..][..0] == [];
  }

  /** The step of `ExpandOrders` over a clicked pass. */
  lemma {:induction false} OrdersAfterClick(m: OrderMap, start: int, rounds: seq<Round>)
    requires Valid(m) && !BoundaryReached(m, start)
    requires |rounds| > 0 && FindShowMore(rounds[0].texts).Some?
    ensures Expand(m, start, rounds).orders == AfterRounds(m, rounds[..Expand(m, start, rounds).Passes()])
    decreases |rounds|, 0
  {
    var m1 := InterceptAll(m, rounds[0].arrivals);
    ExpandOrders(m1, start, rounds[1..]);
    var e := Expand(m1, start, rounds[1..]);
    assert Expand(m, start, rounds) == ExpansionResult(e.outcome, e.orders, e.clicks + 1);
    PrefixStep(m, rounds, e.Passes() + 1);
  }

  /** Every pass before the loop stopped began with a failed boundary check
      and found the control; unless the loop stopped at the boundary, the
      check also failed on the map as it stood before the last pass. */
  lemma {:induction false} ExpandClicked(m: OrderMap, start: int, rounds: seq<Round>, k: nat)
    requires Valid(m)
    ensures k < Expand(m, start, rounds).clicks ==> FindShowMore(rounds[k].texts).Some?
    ensures k < Expand(m, start, rounds).clicks
         || (k == Expand(m, start, rounds).clicks && !Expand(m, start, rounds).outcome.ReachedBoundary?)
         ==> !BoundaryReached(AfterRounds(m, rounds[..k]), start)
    decreases |rounds|
  {
    var e := Expand(m, start, rounds);
    if k < e.clicks || (k == e.clicks && !e.outcome.ReachedBoundary?) {
      if k == 0 {
        assert rounds[..0] == [];
      } else {
        var m1 := InterceptAll(m, rounds[0].arrivals);
        ExpandClicked(m1, start, rounds[1..], k - 1);
        PrefixStep(m, rounds, k);
      }
    }
  }

  /** Unfolds the first round of a prefix. */
  lemma PrefixStep(m: OrderMap, rounds: seq<Round>, k: nat)
    requires Valid(m)
    requires 0 < k <= |rounds|
    ensures AfterRounds(m, rounds[..k])
      == AfterRounds(InterceptAll(m, rounds[0].arrivals), rounds[1..][..k - 1])
  {
    assert rounds[..k][0] == rounds[0];
    assert rounds[..k][1..] == rounds[1..][..k - 1];
  }

  /** The control missing on the very first pass ends the loop as
      `Exhausted` when the map starts empty (an empty map never meets the
      boundary), holding just what the listener took in during that pass. */
  lemma EmptyMapExhausts(start: int, rounds: seq<Round>)
    requires |rounds| > 0 && FindShowMore(rounds[0].texts).None?
    ensures Expand(Empty(), start, rounds)
         == ExpansionResult(Exhausted, InterceptAll(Empty(), rounds[0].arrivals), 0)
  {
  }

  /** The check runs only at the top of a pass, so a pass whose scan finds no
      control ends the loop as `Exhausted` even when the responses of that
      pass have just brought the map past the start date. */
  lemma ExhaustedPastBoundary()
    ensures var o := Order("A1", 1, 100, "R", [Item("x")], "addr");
            var r := Response(OrdersEndpoint, ReadMethod, Parsed(Some(0), Truthy(Some([o]))));
            var e := Expand(Empty(), 5, [Round([], [r])]);
            e.outcome.Exhausted? && BoundaryReached(e.orders, 5)
  {
    var o := Order("A1", 1, 100, "R", [Item("x")], "addr");
    var r := Response(OrdersEndpoint, ReadMethod, Parsed(Some(0), Truthy(Some([o]))));
    ContainsInfix([], OrdersEndpoint, []);
    assert [] + OrdersEndpoint + [] == OrdersEndpoint;
    assert Accepted(r);
    var m := Set(Empty(), o);
    assert [o][1..] == [];
    assert Merge(Empty(), [o]) == Merge(m, []);
    assert Intercept(Empty(), r) == m;
    assert [r][1..] == [];
    assert InterceptAll(Empty(), [r]) == InterceptAll(m, []);
    assert FindShowMore([]).None?;
    assert m.keys == ["A1"];
  }

  /** The boundary check reads the order inserted last, not the oldest one: a
      map holding an order older than the start date can still fail the
      check, so the loop keeps paging (or ends `Exhausted`) although the
      history it wanted is already captured. */
  lemma FrontierIsNotOldest()
    ensures var older := Order("A1", 1, 100, "R", [Item("x")], "addr");
            var newer := Order("B2", 10, 100, "R", [Item("y")], "addr");
            var m := Merge(Empty(), [older, newer]);
            && Values(m)[0].orderTime < 5
            && !BoundaryReached(m, 5)
  {
    var older := Order("A1", 1, 100, "R", [Item("x")], "addr");
    var newer := Order("B2", 10, 100, "R", [Item("y")], "addr");
    var m1 := Set(Empty(), older);
    var m := Set(m1, newer);
    assert [older, newer][1..] == [newer];
    assert [newer][1..] == [];
    assert Merge(m1, [newer]) == Merge(m, []);
    assert Merge(Empty(), [older, newer]) == m;
    assert m.keys == ["A1", "B2"];
  }

  /** When the orders were inserted newest first, the last inserted one is the
      oldest, and the check reads "some captured order is older than the
      start date". */
  lemma FrontierIsOldestWhenChronological(m: OrderMap, start: int)
    requires Valid(m)
    requires forall i, j :: 0 <= i < j < |m.keys| ==>
      m.entries[m.keys[i]].orderTime >= m.entries[m.keys[j]].orderTime
    ensures BoundaryReached(m, start) <==>
      exists i :: 0 <= i < |m.keys| && m.entries[m.keys[i]].orderTime < start
  {
    if exists i :: 0 <= i < |m.keys| && m.entries[m.keys[i]].orderTime < start {
      var i :| 0 <= i < |m.keys| && m.entries[m.keys[i]].orderTime < start;
      var n := |m.keys| - 1;
      if i < n {
        assert m.entries[m.keys[i]].orderTime >= m.entries[m.keys[n]].orderTime;
      }
    }
  }
}
