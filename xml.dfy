/** The XML input as the core's readers see it: a sequence of nodes and a
    cursor that `XmlReader.Read` advances one node at a time.

    Cursor convention used throughout: `pos` is the number of nodes read so
    far, so after a successful read the current node is `nodes[pos - 1]`. */
module Xml {
  import opened Base

  const SoapNamespace := "http://schemas.xmlsoap.org/soap/envelope/"
  const XsiNamespace := "http://www.w3.org/2001/XMLSchema-instance"
  const XsdNamespace := "http://www.w3.org/2001/XMLSchema"

  /** A reader node. `ns` is the element's namespace URI ("" when it has
      none); `isNil` stands for an `xsi:nil="true"` attribute, the only
      attribute the model keeps. */
  datatype Node =
    | Element(ns: string, local: string, isNil: bool)
    | EndElement
    | Text(text: string)
    | Whitespace(text: string)

  predicate IsSoapElement(n: Node) {
    n.Element? && n.ns == SoapNamespace
  }

  predicate IsSoapNamed(n: Node, local: string) {
    IsSoapElement(n) && n.local == local
  }

  /** `reader.NamespaceURI == ns` for an expected namespace that may be null:
      a null namespace equals no node's namespace URI. */
  predicate InNamespace(n: Node, ns: Option<string>) {
    n.Element? && ns.Some? && n.ns == ns.value
  }

  predicate IsContent(n: Node) {
    n.Text? || n.Whitespace?
  }

  /** `XmlReader.Read`: moves to the next node, or reports the end of input. */
  function Read(nodes: seq<Node>, pos: nat): (r: (bool, nat))
    requires pos <= |nodes|
    ensures r.0 <==> pos < |nodes|
    ensures r.1 == if r.0 then pos + 1 else pos
  {
    if pos < |nodes| then (true, pos + 1) else (false, pos)
  }

  /** The first index at or after `pos` whose node satisfies `p`. */
  function FirstFrom(nodes: seq<Node>, pos: nat, p: Node -> bool): (r: Option<nat>)
    requires pos <= |nodes|
    ensures r.Some? ==> pos <= r.value < |nodes| && p(nodes[r.value])
    ensures r.Some? ==> forall k :: pos <= k < r.value ==> !p(nodes[k])
    ensures r.None? ==> forall k :: pos <= k < |nodes| ==> !p(nodes[k])
    decreases |nodes| - pos
  {
    if pos == |nodes| then None
    else if p(nodes[pos]) then Some(pos)
    else FirstFrom(nodes, pos + 1, p)
  }

  /** The text of the content nodes from index `i` on, and the index of the
      first node that is not content (or `|nodes|`). */
  function ContentFrom(nodes: seq<Node>, i: nat): (r: (string, nat))
    requires i <= |nodes|
    ensures i <= r.1 <= |nodes|
    ensures r.1 < |nodes| ==> !IsContent(nodes[r.1])
    ensures forall k :: i <= k < r.1 ==> IsContent(nodes[k])
    decreases |nodes| - i
  {
    if i < |nodes| && IsContent(nodes[i]) then
      var rest := ContentFrom(nodes, i + 1);
      (nodes[i].text + rest.0, rest.1)
    else ("", i)
  }

  /** `XmlReader.ReadContentAsString` called after a `Read` that returned
      `onNode`: concatenates the text and whitespace from the current node on
      and leaves the reader on the first other node (at the end of input when
      there is none). On an end tag it yields "" and does not move; on an
      element, or at the end of input, the reader refuses. */
  function ReadContent(nodes: seq<Node>, pos: nat, onNode: bool): (r: Result<(string, nat)>)
    requires pos <= |nodes|
    requires onNode ==> 0 < pos
    ensures r.Ok? ==> pos <= r.value.1 <= |nodes|
    ensures r.Err? <==> !onNode || nodes[pos - 1].Element?
  {
    if !onNode then
      Result<(string, nat)>.Err(InvalidOperation("The ReadContentAsString method is not supported on node type None."))
    else
      var current := nodes[pos - 1];
      if current.Element? then
        Result<(string, nat)>.Err(InvalidOperation("The ReadContentAsString method is not supported on node type Element."))
      else if current.EndElement? then Ok(("", pos))
      else
        var (text, stop) := ContentFrom(nodes, pos - 1);
        Ok((text, if stop < |nodes| then stop + 1 else |nodes|))
  }

  /** How node `n` changes the number of open elements. */
  function DepthStep(depth: int, n: Node): int {
    match n
    case Element(_, _, _) => depth + 1
    case EndElement => depth - 1
    case _ => depth
  }

  /** The number of open elements after reading the nodes from index `k` up
      to (not including) index `j`, starting with `depth` open. */
  function DepthFrom(nodes: seq<Node>, k: nat, j: nat, depth: int): int
    requires k <= j <= |nodes|
    decreases j - k
  {
    if k == j then depth else DepthFrom(nodes, k + 1, j, DepthStep(depth, nodes[k]))
  }

  /** The index of the end tag closing an element whose content starts at
      index `k`, with `depth` elements still open: the first node after
      which none is open. None exactly when the input ends with an element
      still open. */
  function MatchingEnd(nodes: seq<Node>, k: nat, depth: nat): (r: Option<nat>)
    requires k <= |nodes|
    requires depth >= 1
    ensures r.Some? ==> k <= r.value < |nodes| && nodes[r.value].EndElement?
    ensures r.Some? ==> DepthFrom(nodes, k, r.value + 1, depth) == 0
    ensures r.Some? ==> forall j :: k <= j <= r.value ==> DepthFrom(nodes, k, j, depth) >= 1
    ensures r.None? ==> forall j :: k <= j <= |nodes| ==> DepthFrom(nodes, k, j, depth) >= 1
    decreases |nodes| - k
  {
    if k == |nodes| then None
    else match nodes[k]
      case Element(_, _, _) => MatchingEnd(nodes, k + 1, depth + 1)
      case EndElement => if depth == 1 then Some(k) else MatchingEnd(nodes, k + 1, depth - 1)
      case _ => MatchingEnd(nodes, k + 1, depth)
  }

  /** Skipping a node that fails `p` does not change the first match. */
  lemma FirstFromStep(nodes: seq<Node>, pos: nat, p: Node -> bool)
    requires pos < |nodes|
    requires !p(nodes[pos])
    ensures FirstFrom(nodes, pos, p) == FirstFrom(nodes, pos + 1, p)
  {
  }

  /** Skipping a stretch of nodes that all fail `p` does not change the first match. */
  lemma {:induction false} FirstFromSkip(nodes: seq<Node>, pos: nat, q: nat, p: Node -> bool)
    requires pos <= q <= |nodes|
    requires forall k :: pos <= k < q ==> !p(nodes[k])
    ensures FirstFrom(nodes, pos, p) == FirstFrom(nodes, q, p)
    decreases q - pos
  {
    if pos < q {
      FirstFromSkip(nodes, pos + 1, q, p);
    }
  }

  /** The first match determines the search result uniquely. */
  lemma FirstFromIs(nodes: seq<Node>, pos: nat, k: nat, p: Node -> bool)
    requires pos <= k < |nodes|
    requires p(nodes[k])
    requires forall j :: pos <= j < k ==> !p(nodes[j])
    ensures FirstFrom(nodes, pos, p) == Some(k)
  {
    FirstFromSkip(nodes, pos, k, p);
  }
}
