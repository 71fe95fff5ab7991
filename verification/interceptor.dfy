/** The response listener of `scrapeOrders` (src/scraper.ts): it keeps only GET
    responses of the orders-listing endpoint whose JSON body has `statusCode`
    0 and an array `data.orders`, and merges that array into `capturedOrders`. */
module Interceptor {
  import opened Common
  import opened Types
  import opened Text
  import opened OrderMaps

  /** The URL fragment that identifies the orders-listing endpoint. */
  const OrdersEndpoint: string := "dapi/order/all"

  /** The only request method whose responses are read. */
  const ReadMethod: string := "GET"

  /** `json.data` of a parsed body: falsy (missing, `null`, `0`, `""`, ...), or a
      truthy value whose `orders` field is an array (`Some`) or anything else. */
  datatype Data = Falsy | Truthy(orders: Option<seq<Order>>)

  /** A response body: either `response.json()` (or the first field access on
      its result) throws, or it yields an object with a `statusCode` that is
      the number given (`None` when absent or not a number) and a `data` field. */
  datatype Body = Unparseable | Parsed(statusCode: Option<int>, data: Data)

  datatype Response = Response(url: string, requestMethod: string, body: Body)

  /** The listener's filter and shape check. */
  predicate Accepted(r: Response) {
    && Contains(r.url, OrdersEndpoint)
    && r.requestMethod == ReadMethod
    && r.body.Parsed?
    && r.body.statusCode == Some(0)
    && r.body.data.Truthy?
    && r.body.data.orders.Some?
  }

  /** The orders a response contributes: its `data.orders` when accepted, none otherwise. */
  function Batch(r: Response): seq<Order> {
    if Accepted(r) then r.body.data.orders.value else []
  }

  /** One invocation of the listener. A rejected response leaves the map exactly
      as it was; an accepted one merges its orders, keeping existing keys in place. */
  function Intercept(m: OrderMap, r: Response): (m': OrderMap)
    requires Valid(m)
    ensures Valid(m')
    ensures m.keys <= m'.keys
    ensures !Contains(r.url, OrdersEndpoint) ==> m' == m
    ensures r.requestMethod != ReadMethod ==> m' == m
    ensures r.body.Unparseable? ==> m' == m
    ensures r.body.Parsed? && r.body.statusCode != Some(0) ==> m' == m
    ensures r.body.Parsed? && r.body.data.Falsy? ==> m' == m
    ensures r.body.Parsed? && r.body.data.Truthy? && r.body.data.orders.None? ==> m' == m
    ensures Accepted(r) ==> m' == Merge(m, r.body.data.orders.value)
  {
    if Accepted(r) then Merge(m, r.body.data.orders.value) else m
  }

  /** The listener run over a sequence of responses, in arrival order. */
  function InterceptAll(m: OrderMap, rs: seq<Response>): (m': OrderMap)
    requires Valid(m)
    ensures Valid(m')
    ensures m.keys <= m'.keys
    decreases |rs|
  {
    if |rs| == 0 then m else InterceptAll(Intercept(m, rs[0]), rs[1..])
  }

  /** Every order ever accepted, in the order the listener saw them. */
  function Observed(rs: seq<Response>): seq<Order> {
    if |rs| == 0 then [] else Batch(rs[0]) + Observed(rs[1..])
  }

  /** Listening to a sequence of responses is one merge of everything they
      carried: across responses, as within one, the last observed order with
      a given id is the one kept. */
  lemma {:induction false} InterceptAllIsMerge(m: OrderMap, rs: seq<Response>)
    requires Valid(m)
    ensures InterceptAll(m, rs) == Merge(m, Observed(rs))
    decreases |rs|
  {
    if |rs| > 0 {
      var m1 := Intercept(m, rs[0]);
      InterceptAllIsMerge(m1, rs[1..]);
      MergeConcat(m, Batch(rs[0]), Observed(rs[1..]));
    }
  }

  /** Starting from an empty map, each observed id is stored with the last
      order observed under it, and the map has exactly one key per distinct
      observed id. */
  lemma ObservedIdsCounted(rs: seq<Response>, id: string)
    ensures Elements(InterceptAll(Empty(), rs).keys) == Ids(Observed(rs))
    ensures |InterceptAll(Empty(), rs).keys| == |Ids(Observed(rs))|
    ensures id in Ids(Observed(rs)) ==>
      InterceptAll(Empty(), rs).entries[id] == Observed(rs)[LastIndexOf(Observed(rs), id)]
  {
    InterceptAllIsMerge(Empty(), rs);
    MergeKeys(Empty(), Observed(rs));
    MergeCount(Empty(), Observed(rs));
    assert Elements(Empty().keys) == {};
    if id in Ids(Observed(rs)) {
      MergeLastWins(Empty(), Observed(rs), id);
    }
  }
}
