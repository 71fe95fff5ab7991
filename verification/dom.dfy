/** The two in-page searches of src/helpers.ts: the text-node walk that finds an
    order's element, and the scan for the "Show More Orders" control. The
    document is represented by what the searches read, in document order. */
module Dom {
  import opened Common
  import opened Text

  /** A text node under `document.body`: its `nodeValue` and a reference to
      its parent element. */
  datatype TextNode = TextNode(value: string, parent: nat)

  /** The walk's test: a non-empty `nodeValue` (the empty string is falsy)
      that includes the searched text. */
  predicate HoldsText(n: TextNode, text: string) {
    |n.value| > 0 && Contains(n.value, text)
  }

  /** `findElementByText`: the parent of the first text node, in document
      order, holding `text`; `None` for `null`. */
  function FindElementByText(nodes: seq<TextNode>, text: string): (r: Option<nat>)
    ensures r.None? <==> forall i :: 0 <= i < |nodes| ==> !HoldsText(nodes[i], text)
    ensures r.Some? ==> exists i ::
              && 0 <= i < |nodes|
              && HoldsText(nodes[i], text)
              && nodes[i].parent == r.value
              && forall j :: 0 <= j < i ==> !HoldsText(nodes[j], text)
  {
    match FirstIndex(nodes, n => HoldsText(n, text))
    case None => None
    case Some(i) => Some(nodes[i].parent)
  }

  /** `clickOrderDetails`: clicks the element found for the id and reports
      whether there was one. */
  function ClickOrderDetails(nodes: seq<TextNode>, orderId: string): (clicked: bool)
    ensures clicked <==> exists i :: 0 <= i < |nodes| && HoldsText(nodes[i], orderId)
  {
    FindElementByText(nodes, orderId).Some?
  }

  /** An order id printed anywhere inside some text node is always found,
      at that node or an earlier one. */
  lemma PrintedIdIsFound(nodes: seq<TextNode>, i: nat, a: string, orderId: string, b: string)
    requires i < |nodes|
    requires nodes[i].value == a + orderId + b
    requires |nodes[i].value| > 0
    ensures ClickOrderDetails(nodes, orderId)
    ensures exists k ::
              && 0 <= k <= i
              && HoldsText(nodes[k], orderId)
              && FindElementByText(nodes, orderId) == Some(nodes[k].parent)
  {
    ContainsInfix(a, orderId, b);
    assert HoldsText(nodes[i], orderId);
  }

  /** Conversely, the element found for a text is the parent of a non-empty
      text node in which that text is printed at some position. */
  lemma FoundNodePrintsText(nodes: seq<TextNode>, text: string)
    ensures FindElementByText(nodes, text).Some? ==> exists i, k ::
              && 0 <= i < |nodes|
              && nodes[i].parent == FindElementByText(nodes, text).value
              && |nodes[i].value| > 0
              && OccursAt(nodes[i].value, text, k)
  {
    var r := FindElementByText(nodes, text);
    if r.Some? {
      var i :| 0 <= i < |nodes| && HoldsText(nodes[i], text) && nodes[i].parent == r.value;
      ContainsAt(nodes[i].value, text);
      var k :| OccursAt(nodes[i].value, text, k);
    }
  }

  /** The visible label of the pagination control. */
  const ShowMoreLabel: string := "Show More Orders"

  /** The scan over `div, span, button` elements (given by their
      `textContent`, in document order) for the first whose trimmed text is
      exactly the label; `Some` means it was found and clicked. */
  function FindShowMore(texts: seq<string>): (r: Option<nat>)
    ensures r.Some? ==> r.value < |texts| && Trim(texts[r.value]) == ShowMoreLabel
    ensures r.Some? ==> forall j :: 0 <= j < r.value ==> Trim(texts[j]) != ShowMoreLabel
    ensures r.None? <==> forall j :: 0 <= j < |texts| ==> Trim(texts[j]) != ShowMoreLabel
  {
    FirstIndex(texts, t => Trim(t) == ShowMoreLabel)
  }

  /** An element showing the label surrounded by any white space is a match,
      so the scan finds a control at or before it. */
  lemma PaddedLabelIsFound(texts: seq<string>, i: nat, a: string, b: string)
    requires i < |texts|
    requires AllSpace(a) && AllSpace(b)
    requires texts[i] == a + ShowMoreLabel + b
    ensures FindShowMore(texts).Some? && FindShowMore(texts).value <= i
  {
    TrimPadded(a, ShowMoreLabel, b);
  }
}
