/** `XmlReaderExtensions`: moving a reader forward to the next SOAP element,
    to the SOAP header and to the SOAP body. Each method returns whether it
    found what it looked for and the new cursor. */
module ReaderExtensions {
  import opened Base
  import opened Xml

  predicate IsSoapBody(n: Node) {
    IsSoapNamed(n, "Body")
  }

  predicate IsSoapHeaderOrBody(n: Node) {
    IsSoapNamed(n, "Header") || IsSoapNamed(n, "Body")
  }

  /** Where `TryMoveToNextElement` stops: on the next element in the SOAP
      envelope namespace, or at the end of input. */
  function NextElement(nodes: seq<Node>, pos: nat): (r: (bool, nat))
    requires pos <= |nodes|
    ensures r.0 ==> pos < r.1 <= |nodes| && IsSoapElement(nodes[r.1 - 1])
    ensures r.0 ==> forall k :: pos <= k < r.1 - 1 ==> !IsSoapElement(nodes[k])
    ensures !r.0 ==> r.1 == |nodes| && forall k :: pos <= k < |nodes| ==> !IsSoapElement(nodes[k])
  {
    match FirstFrom(nodes, pos, IsSoapElement)
    case Some(k) => (true, k + 1)
    case None => (false, |nodes|)
  }

  /** Where `TryMoveToBody` stops: on the first SOAP `Body` element, or at
      the end of input. */
  function BodyElement(nodes: seq<Node>, pos: nat): (r: (bool, nat))
    requires pos <= |nodes|
    ensures r.0 ==> pos < r.1 <= |nodes| && IsSoapBody(nodes[r.1 - 1])
    ensures r.0 ==> forall k :: pos <= k < r.1 - 1 ==> !IsSoapBody(nodes[k])
    ensures !r.0 ==> r.1 == |nodes| && forall k :: pos <= k < |nodes| ==> !IsSoapBody(nodes[k])
  {
    match FirstFrom(nodes, pos, IsSoapBody)
    case Some(k) => (true, k + 1)
    case None => (false, |nodes|)
  }

  /** Where `TryMoveToHeader` stops: on the first SOAP `Header` or `Body`
      element, reporting success only for a `Header`; at the end of input
      when there is neither. */
  function HeaderElement(nodes: seq<Node>, pos: nat): (r: (bool, nat))
    requires pos <= |nodes|
    ensures r.0 ==> pos < r.1 <= |nodes| && IsSoapNamed(nodes[r.1 - 1], "Header")
    ensures r.0 ==> forall k :: pos <= k < r.1 - 1 ==> !IsSoapHeaderOrBody(nodes[k])
    ensures !r.0 ==> (r.1 == |nodes| && forall k :: pos <= k < |nodes| ==> !IsSoapHeaderOrBody(nodes[k])) ||
                     (pos < r.1 <= |nodes| && IsSoapBody(nodes[r.1 - 1]) &&
                      forall k :: pos <= k < r.1 - 1 ==> !IsSoapHeaderOrBody(nodes[k]))
  {
    match FirstFrom(nodes, pos, IsSoapHeaderOrBody)
    case Some(k) => (nodes[k].local == "Header", k + 1)
    case None => (false, |nodes|)
  }

  /** `TryMoveToNextElement`: reads until an element in the SOAP envelope
      namespace or the end of input. */
  method TryMoveToNextElement(nodes: seq<Node>, pos: nat) returns (found: bool, p: nat)
    requires pos <= |nodes|
    ensures (found, p) == NextElement(nodes, pos)
  {
    p := pos;
    while true
      invariant pos <= p <= |nodes|
      invariant FirstFrom(nodes, pos, IsSoapElement) == FirstFrom(nodes, p, IsSoapElement)
      decreases |nodes| - p
    {
      var step := Read(nodes, p);
      if !step.0 {
        return false, step.1;
      }
      FirstFromIsOrSkip(nodes, p, IsSoapElement);
      p := step.1;
      if IsSoapElement(nodes[p - 1]) {
        return true, p;
      }
    }
  }

  /** One step of a search: the node at `pos` is the match, or the search
      can start after it. */
  lemma FirstFromIsOrSkip(nodes: seq<Node>, pos: nat, p: Node -> bool)
    requires pos < |nodes|
    ensures p(nodes[pos]) ==> FirstFrom(nodes, pos, p) == Some(pos)
    ensures !p(nodes[pos]) ==> FirstFrom(nodes, pos, p) == FirstFrom(nodes, pos + 1, p)
  {
  }

  /** `TryMoveToBody`: moves from SOAP element to SOAP element until one is a
      `Body`. */
  method TryMoveToBody(nodes: seq<Node>, pos: nat) returns (found: bool, p: nat)
    requires pos <= |nodes|
    ensures (found, p) == BodyElement(nodes, pos)
  {
    p := pos;
    while true
      invariant pos <= p <= |nodes|
      invariant FirstFrom(nodes, pos, IsSoapBody) == FirstFrom(nodes, p, IsSoapBody)
      decreases |nodes| - p
    {
      var moved, q := TryMoveToNextElement(nodes, p);
      if !moved {
        return false, q;
      }
      if nodes[q - 1].local == "Body" {
        FirstFromIs(nodes, p, q - 1, IsSoapBody);
        return true, q;
      }
      FirstFromSkip(nodes, p, q, IsSoapBody);
      p := q;
    }
  }

  /** `TryMoveToHeader`: moves from SOAP element to SOAP element, succeeding
      on a `Header` and giving up on a `Body`. */
  method TryMoveToHeader(nodes: seq<Node>, pos: nat) returns (found: bool, p: nat)
    requires pos <= |nodes|
    ensures (found, p) == HeaderElement(nodes, pos)
  {
    p := pos;
    while true
      invariant pos <= p <= |nodes|
      invariant FirstFrom(nodes, pos, IsSoapHeaderOrBody) == FirstFrom(nodes, p, IsSoapHeaderOrBody)
      decreases |nodes| - p
    {
      var moved, q := TryMoveToNextElement(nodes, p);
      if !moved {
        return false, q;
      }
      if nodes[q - 1].local == "Header" {
        FirstFromIs(nodes, p, q - 1, IsSoapHeaderOrBody);
        return true, q;
      }
      if nodes[q - 1].local == "Body" {
        FirstFromIs(nodes, p, q - 1, IsSoapHeaderOrBody);
        return false, q;
      }
      FirstFromSkip(nodes, p, q, IsSoapHeaderOrBody);
      p := q;
    }
  }

  /** A header search that fails on a `Body` leaves the reader on that
      `Body`, where a subsequent body search no longer finds it. */
  lemma BodyAfterFailedHeader(nodes: seq<Node>, pos: nat, b: nat)
    requires pos <= b < |nodes| && IsSoapBody(nodes[b])
    requires forall k :: pos <= k < b ==> !IsSoapHeaderOrBody(nodes[k])
    ensures HeaderElement(nodes, pos) == (false, b + 1)
    ensures BodyElement(nodes, pos) == (true, b + 1)
    ensures BodyElement(nodes, b + 1) != BodyElement(nodes, pos)
  {
    FirstFromIs(nodes, pos, b, IsSoapHeaderOrBody);
    FirstFromIs(nodes, pos, b, IsSoapBody);
  }

  /** After a successful header search the body search from there finds the
      same `Body` as one from the start. */
  lemma {:induction false} BodyAfterHeader(nodes: seq<Node>, pos: nat)
    requires pos <= |nodes|
    requires HeaderElement(nodes, pos).0
    ensures BodyElement(nodes, HeaderElement(nodes, pos).1) == BodyElement(nodes, pos)
  {
    var p := HeaderElement(nodes, pos).1;
    assert forall k :: pos <= k < p ==> !IsSoapBody(nodes[k]);
    FirstFromSkip(nodes, pos, p, IsSoapBody);
  }

  /** The body search finds exactly the SOAP `Body` elements: it succeeds iff
      one exists at or after the cursor. */
  lemma BodyFoundIff(nodes: seq<Node>, pos: nat)
    requires pos <= |nodes|
    ensures BodyElement(nodes, pos).0 <==> exists k :: pos <= k < |nodes| && IsSoapBody(nodes[k])
  {
    if BodyElement(nodes, pos).0 {
      assert IsSoapBody(nodes[BodyElement(nodes, pos).1 - 1]);
    }
  }
}
