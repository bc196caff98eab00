/** `SoapSerializer`: the older codec. It writes a bare envelope around a
    body callback, writes exceptions as a SOAP `Fault` element, and reads a
    body by the type's XML root namespace. */
module SoapSerializer {
  import opened Base
  import opened Xml
  import opened Metadata
  import opened ReaderExtensions
  import opened WriterExtensions
  import MessageInfo
  import Wcf = WcfSerializer

  const FaultCodeElementName := "faultcode"
  const FaultStringElementName := "faultstring"

  /** What `WriteElementStringAsync(null, local, null, text)` writes. */
  function TextElement(local: string, text: string): seq<Token> {
    [Start(None, local, None), Chars(text), End]
  }

  function FaultStart(prefix: string): Token {
    Start(Some(prefix), "Fault", Some(SoapNamespace))
  }

  /** The `Fault` element for an exception: its type name as `faultcode`,
      then its message as `faultstring`. */
  function FaultTokens(prefix: string, exception: Exception): (r: seq<Token>)
    ensures |r| == 8 && r[0] == FaultStart(prefix) && r[|r| - 1] == End
    ensures r[1].Start? && r[1].local == FaultCodeElementName && r[2] == Chars(exception.TypeName())
    ensures r[4].Start? && r[4].local == FaultStringElementName && r[5] == Chars(exception.Message())
  {
    [FaultStart(prefix)] + TextElement(FaultCodeElementName, exception.TypeName()) +
    TextElement(FaultStringElementName, exception.Message()) + [End]
  }

  /** What `SerializeException` writes: the `Fault` element and the two end
      tags of `WriteDocumentBottom`, with no envelope or body opened before
      them. */
  function ExceptionDocument(prefix: string, exception: Exception): (r: seq<Token>)
    ensures |r| == 10 && r[..8] == FaultTokens(prefix, exception) && r[8] == End && r[9] == End
    ensures forall i :: 0 <= i < |r| ==> r[i] != EnvelopeStart(prefix)
  {
    FaultTokens(prefix, exception) + [End, End]
  }

  lemma TextElementBalanced(local: string, text: string)
    ensures Balanced(TextElement(local, text))
  {
    FlatBalanced([Chars(text)]);
    BalancedEnclose(Start(None, local, None), [Chars(text)]);
    assert [Start(None, local, None)] + [Chars(text)] + [End] == TextElement(local, text);
  }

  /** The `Fault` element is well nested, and the document closes two
      elements more than it opens: already its first bottom end tag has no
      open element to close. */
  lemma ExceptionDocumentOverclosed(prefix: string, exception: Exception)
    ensures Balanced(FaultTokens(prefix, exception))
    ensures Depth(ExceptionDocument(prefix, exception)) == -2
    ensures Depth(ExceptionDocument(prefix, exception)[..|FaultTokens(prefix, exception)| + 1]) == -1
  {
    var code := TextElement(FaultCodeElementName, exception.TypeName());
    var text := TextElement(FaultStringElementName, exception.Message());
    var fault := FaultTokens(prefix, exception);
    TextElementBalanced(FaultCodeElementName, exception.TypeName());
    TextElementBalanced(FaultStringElementName, exception.Message());
    BalancedAppend(code, text);
    BalancedEnclose(FaultStart(prefix), code + text);
    assert fault == [FaultStart(prefix)] + (code + text) + [End];
    DepthAppend(fault, [End, End]);
    DepthAppend(fault, [End]);
    assert [End, End][..1] == [End];
    assert ExceptionDocument(prefix, exception)[..|fault| + 1] == fault + [End];
  }

  /** The serializer, with its settable namespace prefix. */
  class SoapSerializer {
    var soapNamespacePrefix: string

    constructor ()
      ensures soapNamespacePrefix == "s"
    {
      soapNamespacePrefix := "s";
    }

    /** `Serialize(stream, value)`: envelope, header, the body written by
        `value` as the body callback, and the envelope's end tag written
        explicitly. */
    method Serialize(body: Option<seq<Token>>) returns (document: seq<Token>)
      ensures document == EnvelopeDocument(soapNamespacePrefix, body)
    {
      var prefix := soapNamespacePrefix;
      var writer := new XmlWriter();
      var envelope := WriteEnvelope(writer, prefix);
      assert writer.tokens == [EnvelopeStart(prefix)];
      WriteHeader(writer, prefix, Null);
      WriteBody(writer, prefix, body);
      writer.WriteEndElement();
      document := writer.tokens;
    }

    /** `Serialize(stream)`: the same with a null body callback. */
    method SerializeEmpty() returns (document: seq<Token>)
      ensures document == EnvelopeDocument(soapNamespacePrefix, None)
    {
      document := Serialize(None);
    }

    /** `SerializeException`. */
    method SerializeException(exception: Exception) returns (document: seq<Token>)
      ensures document == ExceptionDocument(soapNamespacePrefix, exception)
    {
      var prefix := soapNamespacePrefix;
      var writer := new XmlWriter();
      writer.WriteStartElement(Some(prefix), "Fault", Some(SoapNamespace));
      assert writer.tokens == [FaultStart(prefix)];
      writer.WriteElementString(None, FaultCodeElementName, None, exception.TypeName());
      writer.WriteElementString(None, FaultStringElementName, None, exception.Message());
      writer.WriteEndElement();
      WriteDocumentBottom(writer);
      document := writer.tokens;
    }
  }

  /** `WriteDocumentBottom`: two end tags. */
  method WriteDocumentBottom(writer: XmlWriter)
    modifies writer
    ensures writer.tokens == old(writer.tokens) + [End, End]
  {
    writer.WriteEndElement();
    writer.WriteEndElement();
  }

  // ---------------------------------------------------------------------
  // Reading

  /** The namespace a root element must have: the `XmlRoot` namespace when
      it is not null, else the `XmlType` namespace. Unlike
      `WcfMessageInfo.GetNamespace`, a null `XmlRoot` namespace falls back. */
  function RootNamespace(t: Type): (r: Option<string>)
    ensures XmlRootOf(t).Some? && XmlRootOf(t).value.xmlNamespace.Some? ==> r == XmlRootOf(t).value.xmlNamespace
    ensures (XmlRootOf(t).None? || XmlRootOf(t).value.xmlNamespace.None?) && XmlTypeOf(t).Some? ==>
              r == XmlTypeOf(t).value.xmlNamespace
    ensures (XmlRootOf(t).None? || XmlRootOf(t).value.xmlNamespace.None?) && XmlTypeOf(t).None? ==> r.None?
    ensures r != MessageInfo.GetNamespace(t) <==>
              XmlRootOf(t).Some? && XmlRootOf(t).value.xmlNamespace.None? &&
              XmlTypeOf(t).Some? && XmlTypeOf(t).value.xmlNamespace.Some?
  {
    var fromRoot := if XmlRootOf(t).Some? then XmlRootOf(t).value.xmlNamespace else None;
    if fromRoot.Some? then fromRoot
    else if XmlTypeOf(t).Some? then XmlTypeOf(t).value.xmlNamespace
    else None
  }

  /** What `Deserialize(reader, type)` does: find the `Body`, then read the
      first element in the root namespace, handing faults to `HandleFault`.
      It fails with the no-body error exactly when there is no SOAP `Body`. */
  function Decoded(nodes: seq<Node>, t: Type): (r: Result<Value>)
    ensures r == Err(InvalidData(Wcf.NoBodyMessage)) <==> forall k :: 0 <= k < |nodes| ==> !IsSoapBody(nodes[k])
  {
    BodyFoundIff(nodes, 0);
    var body := BodyElement(nodes, 0);
    if !body.0 then Err(InvalidData(Wcf.NoBodyMessage))
    else Wcf.Wrapped(nodes, body.1, t, RootNamespace(t))
  }

  /** `Deserialize`. */
  method Deserialize(nodes: seq<Node>, t: Type) returns (r: Result<Value>)
    ensures r == Decoded(nodes, t)
  {
    var found, p := TryMoveToBody(nodes, 0);
    if !found {
      return Err(InvalidData(Wcf.NoBodyMessage));
    }
    r := Wcf.DeserializeWrapped(nodes, p, t, RootNamespace(t));
  }

  // ---------------------------------------------------------------------
  // Reading back what was written

  /** A message written with one root element in the type's root namespace
      reads back as that element. */
  lemma RootRoundTrip(prefix: string, t: Type, name: string, ns: string, value: Value)
    requires RootNamespace(t) == Some(ns) && !value.Null?
    requires !(ns == SoapNamespace && name == "Fault")
    ensures Decoded(Render(EnvelopeDocument(prefix, Some([Serialized(t, name, Some(ns), value)]))), t) ==
            Ok(Deserialized(t, name, Some(ns), [Element(ns, name, false), EndElement]))
  {
    var content := [Serialized(t, name, Some(ns), value)];
    EnvelopeNodes(prefix, Some(content));
    RenderOne(content[0]);
    var nodes := Render(EnvelopeDocument(prefix, Some(content)));
    Wcf.BodyOfEnvelope(nodes, Render(content));
    Wcf.RootElementRead(nodes, t, name, ns);
  }

  /** What `Serialize(stream)` writes cannot be read back. */
  lemma EmptyMessageUnreadable(prefix: string, t: Type)
    ensures Decoded(Render(EnvelopeDocument(prefix, None)), t) == Err(InvalidData(Wcf.CouldNotParseMessage))
  {
    EnvelopeNodes(prefix, None);
    var nodes := Render(EnvelopeDocument(prefix, None));
    Wcf.BodyOfEnvelope(nodes, []);
    Wcf.EmptyBodyUnreadable(nodes, t, RootNamespace(t));
  }

  /** A type without a message contract, with a null `XmlRoot` namespace and
      a non-null `XmlType` namespace is read in the `XmlType` namespace here,
      whereas `WcfSerializer` reads it as a wrapped message in no namespace
      and so never finds it. */
  lemma NamespaceFallbackDiffers(prefix: string, t: Type, name: string, ns: string, value: Value)
    requires MessageContractOf(t).None?
    requires XmlRootOf(t).Some? && XmlRootOf(t).value.xmlNamespace.None?
    requires XmlTypeOf(t) == Some(XmlTypeAttribute(name, Some(ns))) && !value.Null?
    requires !(ns == SoapNamespace && name == "Fault")
    ensures var nodes := Render(EnvelopeDocument(prefix, Some([Serialized(t, name, Some(ns), value)])));
            Decoded(nodes, t).Ok? &&
            Wcf.Decoded(nodes, MessageInfo.NewMessageInfo(t)).Err?
  {
    RootRoundTrip(prefix, t, name, ns, value);
    var nodes := Render(EnvelopeDocument(prefix, Some([Serialized(t, name, Some(ns), value)])));
    var info := MessageInfo.NewMessageInfo(t);
    assert info.isWrapped && info.xmlNamespace.None?;
    if BodyElement(nodes, 0).0 {
      Wcf.WrappedWithoutNamespaceFails(nodes, BodyElement(nodes, 0).1, t);
    }
  }

  /** The reader nodes of a text element: its start node, a text node unless
      the text is empty, and its end node. */
  function TextElementNodes(local: string, text: string): seq<Node> {
    [Element("", local, false)] + RenderToken(Chars(text)) + [EndElement]
  }

  lemma RenderTextElement(local: string, text: string)
    ensures Render(TextElement(local, text)) == TextElementNodes(local, text)
  {
    RenderCons(Start(None, local, None), [Chars(text), End]);
    assert [Chars(text), End] == [Chars(text)] + [End];
    RenderCons(Chars(text), [End]);
    RenderOne(End);
  }

  /** The exception document as the `Fault` start tag followed by the rest. */
  lemma ExceptionDocumentParts(prefix: string, exception: Exception)
    ensures ExceptionDocument(prefix, exception) ==
            [FaultStart(prefix)] + (TextElement(FaultCodeElementName, exception.TypeName()) +
                                    (TextElement(FaultStringElementName, exception.Message()) + [End, End, End]))
  {
  }

  lemma RenderEnds()
    ensures Render([End, End, End]) == [EndElement, EndElement, EndElement]
  {
    assert [End, End, End] == [End] + [End, End] && [End, End] == [End] + [End];
    RenderCons(End, [End, End]);
    RenderCons(End, [End]);
    RenderOne(End);
  }

  /** The reader nodes of the exception document: the `Fault` start node, the
      two text elements, and three end nodes. */
  lemma RenderExceptionDocument(prefix: string, exception: Exception)
    ensures Render(ExceptionDocument(prefix, exception)) ==
            RenderToken(FaultStart(prefix)) +
            (TextElementNodes(FaultCodeElementName, exception.TypeName()) +
             (TextElementNodes(FaultStringElementName, exception.Message()) + [EndElement, EndElement, EndElement]))
  {
    var code := TextElement(FaultCodeElementName, exception.TypeName());
    var text := TextElement(FaultStringElementName, exception.Message());
    var ends := [End, End, End];
    ExceptionDocumentParts(prefix, exception);
    RenderCons(FaultStart(prefix), code + (text + ends));
    RenderAppend(code, text + ends);
    RenderAppend(text, ends);
    RenderTextElement(FaultCodeElementName, exception.TypeName());
    RenderTextElement(FaultStringElementName, exception.Message());
    RenderEnds();
  }

  /** `ReadContentAsString` right after the start node of a text element at
      `p` yields the element's text and leaves the reader on its end node. */
  lemma TextContent(nodes: seq<Node>, p: nat, s: string)
    requires p + (if s == "" then 0 else 1) < |nodes|
    requires s != "" ==> nodes[p] == Text(s)
    requires nodes[p + (if s == "" then 0 else 1)] == EndElement
    ensures ReadContent(nodes, p + 1, true) == Ok((s, p + (if s == "" then 0 else 1) + 1))
  {
    if s != "" {
      assert ContentFrom(nodes, p + 1) == ("", p + 1);
      assert ContentFrom(nodes, p) == (s + "", p + 1);
      assert s + "" == s;
    }
  }

  /** A `faultcode` element followed by a `faultstring` element is reported
      with both texts, in that order. */
  lemma FaultElementsRead(first: Node, code: string, message: string, rest: seq<Node>)
    ensures var nodes := [first] + (TextElementNodes(FaultCodeElementName, code) +
                                    (TextElementNodes(FaultStringElementName, message) + rest));
            Wcf.Fault(nodes, 1, None) == Err(ProtocolViolation(Wcf.FaultMessage(Some(code), message)))
  {
    var nodes := [first] + (TextElementNodes(FaultCodeElementName, code) +
                            (TextElementNodes(FaultStringElementName, message) + rest));
    var kc := if code == "" then 0 else 1;
    var km := if message == "" then 0 else 1;
    assert |nodes| == 5 + kc + km + |rest|;
    assert nodes[1] == Element("", FaultCodeElementName, false);
    assert code != "" ==> nodes[2] == Text(code);
    assert nodes[2 + kc] == EndElement;
    assert nodes[3 + kc] == Element("", FaultStringElementName, false);
    assert message != "" ==> nodes[4 + kc] == Text(message);
    assert nodes[4 + kc + km] == EndElement;
    TextContent(nodes, 2, code);
    assert Wcf.Fault(nodes, 1, None) == Wcf.Fault(nodes, 3 + kc, Some(code));
    TextContent(nodes, 4 + kc, message);
  }

  /** Reading the written exception from just inside its `Fault` element, as
      `Deserialize` does when it meets one, throws the fault's type name and
      message. */
  lemma FaultReadBack(prefix: string, exception: Exception)
    ensures Wcf.Fault(Render(ExceptionDocument(prefix, exception)), 1, None) ==
            Err(ProtocolViolation(Wcf.FaultMessage(Some(exception.TypeName()), exception.Message())))
  {
    RenderExceptionDocument(prefix, exception);
    FaultElementsRead(Element(SoapNamespace, "Fault", false), exception.TypeName(), exception.Message(),
                      [EndElement, EndElement, EndElement]);
    assert RenderToken(FaultStart(prefix)) == [Element(SoapNamespace, "Fault", false)];
  }

  /** None of the nodes of two text elements is a SOAP `Body`. */
  lemma FaultElementsHaveNoBody(first: Node, code: string, message: string, rest: seq<Node>)
    requires !IsSoapBody(first) && forall n :: n in rest ==> !IsSoapBody(n)
    ensures var nodes := [first] + (TextElementNodes(FaultCodeElementName, code) +
                                    (TextElementNodes(FaultStringElementName, message) + rest));
            forall k :: 0 <= k < |nodes| ==> !IsSoapBody(nodes[k])
  {
    var nodes := [first] + (TextElementNodes(FaultCodeElementName, code) +
                            (TextElementNodes(FaultStringElementName, message) + rest));
    forall k | 0 <= k < |nodes|
      ensures !IsSoapBody(nodes[k])
    {
      assert nodes[k] in nodes;
    }
  }

  /** The written exception has no `Body`, so `Deserialize` refuses it before
      it sees the fault. */
  lemma ExceptionDocumentUnreadable(prefix: string, exception: Exception, t: Type)
    ensures Decoded(Render(ExceptionDocument(prefix, exception)), t) == Err(InvalidData(Wcf.NoBodyMessage))
  {
    RenderExceptionDocument(prefix, exception);
    assert RenderToken(FaultStart(prefix)) == [Element(SoapNamespace, "Fault", false)];
    FaultElementsHaveNoBody(Element(SoapNamespace, "Fault", false), exception.TypeName(), exception.Message(),
                            [EndElement, EndElement, EndElement]);
  }
}
