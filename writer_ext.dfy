/** The XML output side: an `XmlWriter` that records what is written as a
    sequence of tokens, `XmlWriterExtensions` that write the SOAP envelope,
    header and body, and `SelfClosingElement`, which closes the element it
    was created for when disposed. */
module WriterExtensions {
  import opened Base
  import opened Xml
  import opened Metadata

  /** One write call. `Serialized` is one `XmlSerializer.Serialize` call:
      a root element named `name` in namespace `ns` holding `value` as an
      instance of `dataType`. */
  datatype Token =
    | Start(prefix: Option<string>, local: string, ns: Option<string>)
    | Attr(prefix: Option<string>, local: string, ns: Option<string>, text: string)
    | Chars(text: string)
    | End
    | Serialized(dataType: Type, name: string, ns: Option<string>, value: Value)

  /** Elements opened minus elements closed. */
  function Depth(ts: seq<Token>): int {
    if ts == [] then 0
    else Depth(ts[..|ts| - 1]) + (match ts[|ts| - 1] case Start(_, _, _) => 1 case End => -1 case _ => 0)
  }

  /** Every end tag closes an open element, and every element is closed. */
  predicate Balanced(ts: seq<Token>) {
    Depth(ts) == 0 && forall i :: 0 <= i <= |ts| ==> Depth(ts[..i]) >= 0
  }

  /** Tokens that neither open nor close an element. */
  predicate Flat(ts: seq<Token>) {
    forall i :: 0 <= i < |ts| ==> !ts[i].Start? && !ts[i].End?
  }

  lemma {:induction false} DepthAppend(a: seq<Token>, b: seq<Token>)
    ensures Depth(a + b) == Depth(a) + Depth(b)
    decreases |b|
  {
    if b == [] {
      assert a + b == a;
    } else {
      assert (a + b)[..|a + b| - 1] == a + b[..|b| - 1];
      DepthAppend(a, b[..|b| - 1]);
    }
  }

  lemma {:induction false} FlatDepth(ts: seq<Token>)
    requires Flat(ts)
    ensures Depth(ts) == 0
    decreases |ts|
  {
    if ts != [] {
      FlatDepth(ts[..|ts| - 1]);
    }
  }

  lemma FlatBalanced(ts: seq<Token>)
    requires Flat(ts)
    ensures Balanced(ts)
  {
    FlatDepth(ts);
    forall i | 0 <= i <= |ts|
      ensures Depth(ts[..i]) >= 0
    {
      FlatDepth(ts[..i]);
    }
  }

  lemma BalancedAppend(a: seq<Token>, b: seq<Token>)
    requires Balanced(a) && Balanced(b)
    ensures Balanced(a + b)
  {
    DepthAppend(a, b);
    forall i | 0 <= i <= |a + b|
      ensures Depth((a + b)[..i]) >= 0
    {
      if i <= |a| {
        assert (a + b)[..i] == a[..i];
      } else {
        assert (a + b)[..i] == a + b[..i - |a|];
        DepthAppend(a, b[..i - |a|]);
      }
    }
  }

  /** Wrapping balanced content in a start and an end tag keeps it balanced. */
  lemma BalancedEnclose(s: Token, inner: seq<Token>)
    requires s.Start? && Balanced(inner)
    ensures Balanced([s] + inner + [End])
  {
    var ts := [s] + inner + [End];
    assert ts[..|ts| - 1] == [s] + inner;
    DepthAppend([s], inner);
    assert [s][..0] == [];
    forall i | 0 <= i <= |ts|
      ensures Depth(ts[..i]) >= 0
    {
      if 1 <= i <= |ts| - 1 {
        assert ts[..i] == [s] + inner[..i - 1];
        DepthAppend([s], inner[..i - 1]);
      } else if i == 0 {
        assert ts[..i] == [];
      } else {
        assert ts[..i] == ts;
      }
    }
  }

  /** `XmlWriter`: what has been written so far. */
  class XmlWriter {
    var tokens: seq<Token>

    constructor ()
      ensures tokens == []
    {
      tokens := [];
    }

    method WriteStartElement(prefix: Option<string>, local: string, ns: Option<string>)
      modifies this
      ensures tokens == old(tokens) + [Start(prefix, local, ns)]
    {
      tokens := tokens + [Start(prefix, local, ns)];
    }

    method WriteAttributeString(prefix: Option<string>, local: string, ns: Option<string>, text: string)
      modifies this
      ensures tokens == old(tokens) + [Attr(prefix, local, ns, text)]
    {
      tokens := tokens + [Attr(prefix, local, ns, text)];
    }

    method WriteEndElement()
      modifies this
      ensures tokens == old(tokens) + [End]
    {
      tokens := tokens + [End];
    }

    /** `WriteElementString`: an element holding one text. */
    method WriteElementString(prefix: Option<string>, local: string, ns: Option<string>, text: string)
      modifies this
      ensures tokens == old(tokens) + [Start(prefix, local, ns), Chars(text), End]
    {
      tokens := tokens + [Start(prefix, local, ns), Chars(text), End];
    }

    /** `new XmlSerializer(dataType, root).Serialize(writer, value)`. */
    method Serialize(dataType: Type, name: string, ns: Option<string>, value: Value)
      modifies this
      ensures tokens == old(tokens) + [Serialized(dataType, name, ns, value)]
    {
      tokens := tokens + [Serialized(dataType, name, ns, value)];
    }

    /** Whatever a body callback writes. */
    method WriteTokens(ts: seq<Token>)
      modifies this
      ensures tokens == old(tokens) + ts
    {
      tokens := tokens + ts;
    }
  }

  /** `SelfClosingElement`: remembers the writer of the element it opened. */
  datatype SelfClosingElement = SelfClosingElement(writer: XmlWriter)

  /** `DisposeAsync`: closes the element. */
  method Dispose(e: SelfClosingElement)
    modifies e.writer
    ensures e.writer.tokens == old(e.writer.tokens) + [End]
  {
    e.writer.WriteEndElement();
  }

  function EnvelopeStart(prefix: string): Token {
    Start(Some(prefix), "Envelope", Some(SoapNamespace))
  }

  /** What `WriteHeader` writes: an empty SOAP `Header` element. */
  function HeaderTokens(prefix: string): (r: seq<Token>)
    ensures Balanced(r)
  {
    var r := [Start(Some(prefix), "Header", Some(SoapNamespace)), End];
    BalancedEnclose(r[0], []);
    assert [r[0]] + [] + [End] == r;
    r
  }

  function BodyStart(prefix: string): Token {
    Start(Some(prefix), "Body", Some(SoapNamespace))
  }

  /** The `xmlns:xsi` and `xmlns:xsd` declarations on the body. */
  function BodyAttributes(): (r: seq<Token>)
    ensures |r| == 2 && forall i :: 0 <= i < |r| ==> r[i].Attr?
  {
    [Attr(Some("xmlns"), "xsi", None, XsiNamespace), Attr(Some("xmlns"), "xsd", None, XsdNamespace)]
  }

  /** What `WriteBody` writes: a SOAP `Body` element declaring the `xsi` and
      `xsd` prefixes, holding what the callback writes (nothing for a null
      callback). */
  function BodyTokens(prefix: string, content: Option<seq<Token>>): (r: seq<Token>)
    ensures |r| == 4 + |content.GetOr([])|
    ensures r[0] == BodyStart(prefix) && r[|r| - 1] == End
  {
    [BodyStart(prefix)] + (BodyAttributes() + content.GetOr([]) + [End])
  }

  /** The body is balanced whenever the callback writes balanced content. */
  lemma BodyTokensBalanced(prefix: string, content: Option<seq<Token>>)
    requires content.Some? ==> Balanced(content.value)
    ensures Balanced(BodyTokens(prefix, content))
  {
    var attributes := BodyAttributes();
    var body := content.GetOr([]);
    if content.None? {
      FlatBalanced([]);
    }
    FlatBalanced(attributes);
    BalancedAppend(attributes, body);
    BalancedEnclose(BodyStart(prefix), attributes + body);
    assert [BodyStart(prefix)] + (attributes + body + [End]) == [BodyStart(prefix)] + (attributes + body) + [End];
  }

  /** The document that `WriteEnvelope`, `WriteHeader`, `WriteBody` and the
      envelope's end tag write together. */
  function EnvelopeDocument(prefix: string, body: Option<seq<Token>>): (r: seq<Token>)
    ensures |r| == 8 + |body.GetOr([])|
  {
    [EnvelopeStart(prefix)] + HeaderTokens(prefix) + BodyTokens(prefix, body) + [End]
  }

  /** An envelope document is well nested whenever its body content is. */
  lemma EnvelopeDocumentBalanced(prefix: string, body: Option<seq<Token>>)
    requires body.Some? ==> Balanced(body.value)
    ensures Balanced(EnvelopeDocument(prefix, body))
  {
    BodyTokensBalanced(prefix, body);
    BalancedAppend(HeaderTokens(prefix), BodyTokens(prefix, body));
    BalancedEnclose(EnvelopeStart(prefix), HeaderTokens(prefix) + BodyTokens(prefix, body));
    assert EnvelopeDocument(prefix, body) ==
           [EnvelopeStart(prefix)] + (HeaderTokens(prefix) + BodyTokens(prefix, body)) + [End];
  }

  /** `WriteEnvelope`: opens the SOAP `Envelope` and hands back the object
      that closes it. */
  method WriteEnvelope(writer: XmlWriter, prefix: string) returns (envelope: SelfClosingElement)
    modifies writer
    ensures writer.tokens == old(writer.tokens) + [EnvelopeStart(prefix)]
    ensures envelope.writer == writer
  {
    writer.WriteStartElement(Some(prefix), "Envelope", Some(SoapNamespace));
    envelope := SelfClosingElement(writer);
  }

  /** `WriteHeader`: the header data is not written. */
  method WriteHeader(writer: XmlWriter, prefix: string, headerData: Value)
    modifies writer
    ensures writer.tokens == old(writer.tokens) + HeaderTokens(prefix)
  {
    writer.WriteStartElement(Some(prefix), "Header", Some(SoapNamespace));
    writer.WriteEndElement();
  }

  /** `WriteBody`, with the callback given by what it writes. */
  method WriteBody(writer: XmlWriter, prefix: string, callback: Option<seq<Token>>)
    modifies writer
    ensures writer.tokens == old(writer.tokens) + BodyTokens(prefix, callback)
  {
    writer.WriteStartElement(Some(prefix), "Body", Some(SoapNamespace));
    writer.WriteAttributeString(Some("xmlns"), "xsi", None, XsiNamespace);
    writer.WriteAttributeString(Some("xmlns"), "xsd", None, XsdNamespace);
    assert writer.tokens == old(writer.tokens) + [BodyStart(prefix)] + BodyAttributes();
    if callback.Some? {
      writer.WriteTokens(callback.value);
    }
    writer.WriteEndElement();
  }

  /** `WriteFault`: writes nothing. */
  method WriteFault(writer: XmlWriter)
    ensures writer.tokens == old(writer.tokens)
  {
  }

  // ---------------------------------------------------------------------
  // Reading back what was written

  /** The reader nodes of one written token. A serialized value appears as
      its root element (marked nil for a null value) and that element's end
      tag; its inner content is the serializer's own and is not modelled.
      Attributes are not nodes, and an empty text yields none. */
  function RenderToken(t: Token): (r: seq<Node>)
    ensures |r| <= 2
  {
    match t
    case Start(_, local, ns) => [Element(ns.GetOr(""), local, false)]
    case Attr(_, _, _, _) => []
    case Chars(text) => if text == "" then [] else [Text(text)]
    case End => [EndElement]
    case Serialized(_, name, ns, value) => [Element(ns.GetOr(""), name, value.Null?), EndElement]
  }

  /** The reader nodes of a written document. */
  function Render(ts: seq<Token>): (r: seq<Node>)
    ensures |r| <= 2 * |ts|
  {
    if ts == [] then [] else RenderToken(ts[0]) + Render(ts[1..])
  }

  lemma {:induction false} RenderAppend(a: seq<Token>, b: seq<Token>)
    ensures Render(a + b) == Render(a) + Render(b)
    decreases |a|
  {
    if a == [] {
      assert a + b == b;
    } else {
      assert (a + b)[1..] == a[1..] + b;
      RenderAppend(a[1..], b);
    }
  }

  lemma RenderOne(t: Token)
    ensures Render([t]) == RenderToken(t)
  {
    assert [t][1..] == [];
  }

  lemma RenderCons(t: Token, ts: seq<Token>)
    ensures Render([t] + ts) == RenderToken(t) + Render(ts)
  {
    assert ([t] + ts)[1..] == ts;
  }

  /** The nodes of a flat run of attributes are none. */
  lemma RenderAttributes(ts: seq<Token>)
    requires forall i :: 0 <= i < |ts| ==> ts[i].Attr?
    ensures Render(ts) == []
    decreases |ts|
  {
    if ts != [] {
      RenderAttributes(ts[1..]);
    }
  }

  /** The nodes of the header. */
  lemma RenderHeader(prefix: string)
    ensures Render(HeaderTokens(prefix)) == [Element(SoapNamespace, "Header", false), EndElement]
  {
    RenderCons(HeaderTokens(prefix)[0], [End]);
    RenderOne(End);
  }

  /** The nodes of the body: its start tag, the content, its end tag. */
  lemma RenderBody(prefix: string, content: seq<Token>)
    ensures Render(BodyTokens(prefix, Some(content))) ==
            [Element(SoapNamespace, "Body", false)] + Render(content) + [EndElement]
  {
    RenderEnclosed(BodyStart(prefix), BodyAttributes(), content);
  }

  /** Reader nodes of an envelope holding an empty header and a body with
      the nodes `c`. */
  predicate EnvelopeWith(nodes: seq<Node>, c: seq<Node>) {
    |nodes| == |c| + 6 &&
    nodes[0] == Element(SoapNamespace, "Envelope", false) &&
    nodes[1] == Element(SoapNamespace, "Header", false) && nodes[2] == EndElement &&
    nodes[3] == Element(SoapNamespace, "Body", false) &&
    (forall i :: 0 <= i < |c| ==> nodes[4 + i] == c[i]) &&
    nodes[|c| + 4] == EndElement && nodes[|c| + 5] == EndElement
  }

  /** The reader nodes of an envelope document: envelope, header, body, the
      nodes of the body content, and the end nodes of body and envelope. */
  lemma {:induction false} EnvelopeNodes(prefix: string, body: Option<seq<Token>>)
    ensures EnvelopeWith(Render(EnvelopeDocument(prefix, body)), Render(body.GetOr([])))
  {
    var content := body.GetOr([]);
    var top := [EnvelopeStart(prefix)] + HeaderTokens(prefix);
    var b := BodyTokens(prefix, body);
    assert b == BodyTokens(prefix, Some(content));
    RenderTop(prefix);
    RenderBody(prefix, content);
    RenderAppend(top, b);
    RenderAppend(top + b, [End]);
    RenderOne(End);
    EnvelopeWithParts(Render(top), Render(b), Render(content));
  }

  /** The nodes of the envelope's start tag and of the header. */
  lemma RenderTop(prefix: string)
    ensures var top := Render([EnvelopeStart(prefix)] + HeaderTokens(prefix));
            |top| == 3 && top[0] == Element(SoapNamespace, "Envelope", false) &&
            top[1] == Element(SoapNamespace, "Header", false) && top[2] == EndElement
  {
    RenderCons(EnvelopeStart(prefix), HeaderTokens(prefix));
    RenderHeader(prefix);
  }

  lemma EnvelopeWithParts(top: seq<Node>, middle: seq<Node>, c: seq<Node>)
    requires |top| == 3 && top[0] == Element(SoapNamespace, "Envelope", false)
    requires top[1] == Element(SoapNamespace, "Header", false) && top[2] == EndElement
    requires middle == [Element(SoapNamespace, "Body", false)] + c + [EndElement]
    ensures EnvelopeWith(top + middle + [EndElement], c)
  {
  }

  /** An element with attributes renders as its start node, the nodes of its
      content and an end node. */
  lemma RenderEnclosed(start: Token, attributes: seq<Token>, content: seq<Token>)
    requires start.Start?
    requires forall i :: 0 <= i < |attributes| ==> attributes[i].Attr?
    ensures Render([start] + (attributes + content + [End])) ==
            [Element(start.ns.GetOr(""), start.local, false)] + Render(content) + [EndElement]
  {
    var inner := attributes + content;
    RenderAppend(attributes, content);
    RenderAttributes(attributes);
    assert Render(inner) == Render(content);
    RenderAppend(inner, [End]);
    RenderOne(End);
    assert Render(inner + [End]) == Render(content) + [EndElement];
    RenderCons(start, inner + [End]);
  }
}
