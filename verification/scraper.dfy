/** One call of `scrapeOrders` (src/scraper.ts) end to end: the listener
    handles the responses of the initial page load, the expansion loop pages
    through the history, and the processing step works on the map as the
    expansion left it. */
module Scraper {
  import opened Common
  import opened Types
  import opened OrderMaps
  import opened Interceptor
  import opened Dom
  import opened Expansion
  import opened Sorting
  import opened Processing

  /** The expansion's result and the processing run that followed it. */
  datatype Session = Session(expansion: ExpansionResult, run: Run)

  function ScrapeOrders(loading: seq<Response>, cfg: Config, rounds: seq<Round>,
                        documentAt: nat -> seq<TextNode>, pageAt: nat -> PageView,
                        toDateString: int -> string, clip: Option<Rect>): Session
  {
    var e := Expand(InterceptAll(Empty(), loading), cfg.start, rounds);
    Session(e, Scrape(e.orders, cfg, documentAt, pageAt, toDateString, clip))
  }

  /** Every order the reference filter keeps is an order of the input that qualifies. */
  lemma {:induction false} QualifyingFrom(s: seq<Order>, cfg: Config, j: nat)
    requires j < |Qualifying(s, cfg)|
    ensures Qualifying(s, cfg)[j] in s
    ensures Qualifies(Qualifying(s, cfg)[j], cfg)
  {
    var head := if Qualifies(s[0], cfg) then [s[0]] else [];
    if j >= |head| {
      QualifyingFrom(s[1..], cfg, j - |head|);
      assert Qualifying(s, cfg)[j] == Qualifying(s[1..], cfg)[j - |head|];
    }
  }

  /** Sorting adds no order. */
  lemma SortedFrom(s: seq<Order>, o: Order)
    requires o in SortByTimeDesc(s)
    ensures o in s
  {
    assert o in multiset(SortByTimeDesc(s));
  }

  /** The sequence the processing loop walks holds exactly the stored
      orders, each once: sorting the listed values loses and adds nothing. */
  lemma SortedAreStored(m: OrderMap)
    requires Valid(m)
    ensures var sorted := SortByTimeDesc(Values(m));
      && |sorted| == |m.entries|
      && (forall o :: o in sorted <==> o.orderId in m.entries && m.entries[o.orderId] == o)
  {
    var vs := Values(m);
    var sorted := SortByTimeDesc(vs);
    ValuesAreStored(m);
    assert |sorted| == |multiset(sorted)| == |multiset(vs)| == |vs|;
    forall o
      ensures o in sorted <==> o in vs
    {
      assert o in sorted <==> o in multiset(sorted);
      assert o in vs <==> o in multiset(vs);
    }
  }

  /** Every row of the run is the record of an order stored in the map the
      expansion left, under the row's own order id, and that order lies in
      the date range and matches the address filter. */
  lemma RowsAreCapturedOrders(loading: seq<Response>, cfg: Config, rounds: seq<Round>,
                              documentAt: nat -> seq<TextNode>, pageAt: nat -> PageView,
                              toDateString: int -> string, clip: Option<Rect>)
    ensures var s := ScrapeOrders(loading, cfg, rounds, documentAt, pageAt, toDateString, clip);
            forall k :: 0 <= k < |s.run.rows| ==>
              && s.run.rows[k].orderId in s.expansion.orders.entries
              && Qualifies(s.expansion.orders.entries[s.run.rows[k].orderId], cfg)
              && MakeRecord(k + 1, s.expansion.orders.entries[s.run.rows[k].orderId], toDateString)
                   == Some(s.run.rows[k])
  {
    var s := ScrapeOrders(loading, cfg, rounds, documentAt, pageAt, toDateString, clip);
    var m := s.expansion.orders;
    var vs := Values(m);
    var q := Qualifying(SortByTimeDesc(vs), cfg);
    var p := Successes(q, FoundAt(q, documentAt), 0);
    ScrapeWrites(m, cfg, documentAt, pageAt, toDateString, clip);
    ValuesAreStored(m);
    forall k | 0 <= k < |s.run.rows|
      ensures s.run.rows[k].orderId in m.entries
      ensures Qualifies(m.entries[s.run.rows[k].orderId], cfg)
      ensures MakeRecord(k + 1, m.entries[s.run.rows[k].orderId], toDateString) == Some(s.run.rows[k])
    {
      var o := q[p[k]];
      assert MakeRecord(k + 1, o, toDateString) == Some(s.run.rows[k]);
      QualifyingFrom(SortByTimeDesc(vs), cfg, p[k]);
      SortedFrom(vs, o);
    }
  }
}
