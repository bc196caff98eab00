/** `WcfSerializer`: writes a message (or an exception) as a SOAP envelope,
    and reads a message back from the body of a SOAP envelope according to
    its `WcfMessageInfo`, turning a SOAP fault in the body into an
    exception. */
module WcfSerializer {
  import opened Base
  import opened Xml
  import opened Metadata
  import opened MemberInfo
  import opened MessageInfo
  import opened ReaderExtensions
  import opened WriterExtensions

  // ---------------------------------------------------------------------
  // Serialize

  /** What the body callback writes for one field of an unwrapped message. */
  function FieldToken(f: WcfMemberInfo, value: Value): Token {
    Serialized(f.propertyType, f.xmlName, f.xmlNamespace, GetValue(f, value))
  }

  /** The fields of an unwrapped message, one root element each, in field
      order, each under the field's XML name and namespace. */
  function FieldTokens(fields: seq<WcfMemberInfo>, value: Value): (r: seq<Token>)
    ensures |r| == |fields|
    ensures forall i :: 0 <= i < |fields| ==> r[i] == FieldToken(fields[i], value)
  {
    if fields == [] then []
    else FieldTokens(fields[..|fields| - 1], value) + [FieldToken(fields[|fields| - 1], value)]
  }

  /** What `SerializeBodyContent` writes: nothing for a null value, the whole
      value as one root element for a wrapped message, and one root element
      per field otherwise. */
  function BodyContentTokens(value: Value, info: WcfMessageInfo): (r: seq<Token>)
    ensures value.Null? ==> r == []
    ensures !value.Null? && info.isWrapped ==> r == [Serialized(info.messageType, info.name, info.xmlNamespace, value)]
    ensures !value.Null? && !info.isWrapped ==>
              |r| == |info.fields| && forall i :: 0 <= i < |r| ==> r[i] == FieldToken(info.fields[i], value)
    ensures Flat(r)
  {
    if value.Null? then []
    else if info.isWrapped then [Serialized(info.messageType, info.name, info.xmlNamespace, value)]
    else FieldTokens(info.fields, value)
  }

  /** `SerializeBodyContent`. */
  method SerializeBodyContent(writer: XmlWriter, value: Value, info: WcfMessageInfo)
    modifies writer
    ensures writer.tokens == old(writer.tokens) + BodyContentTokens(value, info)
  {
    if value.Null? {
      return;
    }
    if info.isWrapped {
      writer.Serialize(info.messageType, info.name, info.xmlNamespace, value);
      return;
    }
    for i := 0 to |info.fields|
      invariant writer.tokens == old(writer.tokens) + FieldTokens(info.fields[..i], value)
    {
      var field := info.fields[i];
      assert info.fields[..i + 1][..i] == info.fields[..i];
      writer.Serialize(field.propertyType, field.xmlName, field.xmlNamespace, GetValue(field, value));
    }
    assert info.fields[..|info.fields|] == info.fields;
  }

  /** The document of one message: an envelope holding an empty header and
      a body with the message's content. */
  function MessageDocument(prefix: string, value: Value, info: WcfMessageInfo): (r: seq<Token>)
    ensures |r| == 8 + |BodyContentTokens(value, info)|
    ensures r[0] == EnvelopeStart(prefix) && r[3] == BodyStart(prefix) && r[|r| - 1] == End
  {
    EnvelopeDocument(prefix, Some(BodyContentTokens(value, info)))
  }

  /** The document of an exception: an envelope holding an empty header and
      nothing else, because `WriteFault` writes nothing. */
  function ExceptionDocument(prefix: string): (r: seq<Token>)
    ensures |r| == 4 && r[0] == EnvelopeStart(prefix) && r[|r| - 1] == End
    ensures forall i :: 0 <= i < |r| ==> r[i] != BodyStart(prefix)
  {
    [EnvelopeStart(prefix)] + HeaderTokens(prefix) + [End]
  }

  /** Every written document is well nested. */
  lemma {:induction false} DocumentsBalanced(prefix: string, value: Value, info: WcfMessageInfo)
    ensures Balanced(MessageDocument(prefix, value, info))
    ensures Balanced(ExceptionDocument(prefix))
  {
    FlatBalanced(BodyContentTokens(value, info));
    EnvelopeDocumentBalanced(prefix, Some(BodyContentTokens(value, info)));
    BalancedEnclose(EnvelopeStart(prefix), HeaderTokens(prefix));
  }

  /** The serializer, with its settable namespace prefix. */
  class WcfSerializer {
    var soapNamespacePrefix: string

    constructor ()
      ensures soapNamespacePrefix == "s"
    {
      soapNamespacePrefix := "s";
    }

    /** `InnerSerialize`: the callback's writes are recorded on a writer of
        their own and passed to `WriteBody`; the envelope is closed when it is
        disposed at the end of the method. */
    method InnerSerialize(value: Value, info: WcfMessageInfo) returns (document: seq<Token>)
      ensures document == MessageDocument(soapNamespacePrefix, value, info)
    {
      var prefix := soapNamespacePrefix;
      var writer := new XmlWriter();
      var envelope := WriteEnvelope(writer, prefix);
      assert writer.tokens == [EnvelopeStart(prefix)];
      WriteHeader(writer, prefix, Null);
      var callback := new XmlWriter();
      SerializeBodyContent(callback, value, info);
      var content := callback.tokens;
      assert content == BodyContentTokens(value, info);
      WriteBody(writer, prefix, Some(content));
      Dispose(envelope);
      document := writer.tokens;
    }

    /** `Serialize(stream, messageInfo)`: a message without a value. */
    method Serialize(info: WcfMessageInfo) returns (document: seq<Token>)
      ensures document == MessageDocument(soapNamespacePrefix, Null, info)
      ensures document == [EnvelopeStart(soapNamespacePrefix)] + HeaderTokens(soapNamespacePrefix) +
                          BodyTokens(soapNamespacePrefix, Some([])) + [End]
    {
      document := InnerSerialize(Null, info);
    }

    /** `Serialize(stream, value, messageInfo)`. */
    method SerializeValue(value: Value, info: WcfMessageInfo) returns (document: seq<Token>)
      ensures document == MessageDocument(soapNamespacePrefix, value, info)
    {
      document := InnerSerialize(value, info);
    }

    /** `SerializeException`: the exception itself is not written. */
    method SerializeException(exception: Exception) returns (document: seq<Token>)
      ensures document == ExceptionDocument(soapNamespacePrefix)
    {
      var prefix := soapNamespacePrefix;
      var writer := new XmlWriter();
      var envelope := WriteEnvelope(writer, prefix);
      assert writer.tokens == [EnvelopeStart(prefix)];
      WriteHeader(writer, prefix, Null);
      WriteFault(writer);
      Dispose(envelope);
      document := writer.tokens;
    }
  }

  // ---------------------------------------------------------------------
  // Faults

  const NoBodyMessage := "No body element is contained in the specified SOAP message."
  const CouldNotParseMessage := "Could not parse Soap message."

  function FaultMessage(faultCode: Option<string>, faultString: string): string {
    "The following error was received: " + (if faultCode.None? then "" else faultCode.value + ": ") + faultString
  }

  /** What `HandleFault` does from cursor `pos` with the fault code read so
      far: it remembers the text after a `faultcode` element, and throws on
      the text after a `faultstring` element; elements are recognised by
      local name in any namespace. Without a `faultstring` it reads to the
      end of input and returns normally. */
  function Fault(nodes: seq<Node>, pos: nat, faultCode: Option<string>): (r: Result<nat>)
    requires pos <= |nodes|
    ensures r.Ok? ==> r.value == |nodes|
    ensures r.Err? ==> r.error.ProtocolViolation? || r.error.InvalidOperation?
    decreases |nodes| - pos
  {
    var step := Read(nodes, pos);
    if !step.0 then Ok(step.1)
    else
      var p := step.1;
      var node := nodes[p - 1];
      if node.Element? && node.local == "faultcode" then
        var next := Read(nodes, p);
        match ReadContent(nodes, next.1, next.0)
        case Err(e) => Err(e)
        case Ok(content) => Fault(nodes, content.1, Some(content.0))
      else if node.Element? && node.local == "faultstring" then
        var next := Read(nodes, p);
        match ReadContent(nodes, next.1, next.0)
        case Err(e) => Err(e)
        case Ok(content) => Err(ProtocolViolation(FaultMessage(faultCode, content.0)))
      else Fault(nodes, p, faultCode)
  }

  /** `HandleFault`. */
  method HandleFault(nodes: seq<Node>, pos: nat) returns (r: Result<nat>)
    requires pos <= |nodes|
    ensures r == Fault(nodes, pos, None)
  {
    var faultCode: Option<string> := None;
    var p := pos;
    while true
      invariant p <= |nodes|
      invariant Fault(nodes, pos, None) == Fault(nodes, p, faultCode)
      decreases |nodes| - p
    {
      var step := Read(nodes, p);
      if !step.0 {
        return Ok(step.1);
      }
      p := step.1;
      var node := nodes[p - 1];
      if node.Element? && node.local == "faultcode" {
        var next := Read(nodes, p);
        var content := ReadContent(nodes, next.1, next.0);
        if content.Err? {
          return Err(content.error);
        }
        faultCode := Some(content.value.0);
        p := content.value.1;
      } else if node.Element? && node.local == "faultstring" {
        var next := Read(nodes, p);
        var content := ReadContent(nodes, next.1, next.0);
        if content.Err? {
          return Err(content.error);
        }
        return Err(ProtocolViolation(FaultMessage(faultCode, content.value.0)));
      }
    }
  }

  /** A fault with a code and a string, each a single text, is reported with
      both, in that order. */
  lemma FaultWithCodeAndString(code: string, text: string)
    ensures var nodes := [Element("", "faultcode", false), Text(code), EndElement,
                          Element("", "faultstring", false), Text(text), EndElement, EndElement];
            Fault(nodes, 0, None) == Err(ProtocolViolation(FaultMessage(Some(code), text)))
  {
    var nodes := [Element("", "faultcode", false), Text(code), EndElement,
                  Element("", "faultstring", false), Text(text), EndElement, EndElement];
    assert ContentFrom(nodes, 2) == ("", 2);
    assert ContentFrom(nodes, 1) == (code + "", 2);
    assert code + "" == code;
    assert ReadContent(nodes, 2, true) == Ok((code, 3));
    assert Fault(nodes, 0, None) == Fault(nodes, 3, Some(code));
    assert ContentFrom(nodes, 5) == ("", 5);
    assert ContentFrom(nodes, 4) == (text + "", 5);
    assert text + "" == text;
    assert ReadContent(nodes, 5, true) == Ok((text, 6));
  }

  /** A fault string read before any fault code is reported alone, and a
      fault code after it is never read. */
  lemma FaultStringOnly(text: string, code: string)
    ensures var nodes := [Element("", "faultstring", false), Text(text), EndElement,
                          Element("", "faultcode", false), Text(code), EndElement, EndElement];
            Fault(nodes, 0, None) == Err(ProtocolViolation("The following error was received: " + text))
  {
    var nodes := [Element("", "faultstring", false), Text(text), EndElement,
                  Element("", "faultcode", false), Text(code), EndElement, EndElement];
    assert ContentFrom(nodes, 2) == ("", 2);
    assert ContentFrom(nodes, 1) == (text + "", 2);
    assert text + "" == text;
    assert ReadContent(nodes, 2, true) == Ok((text, 3));
    assert FaultMessage(None, text) == "The following error was received: " + text;
  }

  /** A `faultcode` element at the end of input makes the reader refuse to
      read its content. */
  lemma FaultCodeAtEnd()
    ensures Fault([Element("", "faultcode", false)], 0, None).Err?
    ensures Fault([Element("", "faultcode", false)], 0, None).error.InvalidOperation?
  {
  }

  // ---------------------------------------------------------------------
  // Deserialize

  /** The loop of `DeserializeWrapped`: the first element in the message's
      namespace is deserialized under its own local name; a SOAP `Fault` is
      handed to `HandleFault` first. A null namespace matches no element. */
  function Wrapped(nodes: seq<Node>, pos: nat, t: Type, ns: Option<string>): (r: Result<Value>)
    requires pos <= |nodes|
    ensures r.Err? ==> r.error == InvalidData(CouldNotParseMessage) || r.error.ProtocolViolation? ||
                       r.error.InvalidOperation?
    decreases |nodes| - pos
  {
    var step := Read(nodes, pos);
    if !step.0 then Err(InvalidData(CouldNotParseMessage))
    else
      var p := step.1;
      var node := nodes[p - 1];
      if !node.Element? then Wrapped(nodes, p, t, ns)
      else if IsSoapNamed(node, "Fault") then
        match Fault(nodes, p, None)
        case Err(e) => Err(e)
        case Ok(q) => Wrapped(nodes, q, t, ns)
      else if InNamespace(node, ns) then
        match XmlDeserialize(nodes, p, t, node.local, ns)
        case Err(e) => Err(e)
        case Ok(result) => Ok(result.0)
      else Wrapped(nodes, p, t, ns)
  }

  /** `DeserializeWrapped`. */
  method DeserializeWrapped(nodes: seq<Node>, pos: nat, t: Type, ns: Option<string>) returns (r: Result<Value>)
    requires pos <= |nodes|
    ensures r == Wrapped(nodes, pos, t, ns)
  {
    var p := pos;
    while true
      invariant p <= |nodes|
      invariant Wrapped(nodes, pos, t, ns) == Wrapped(nodes, p, t, ns)
      decreases |nodes| - p
    {
      var step := Read(nodes, p);
      if !step.0 {
        return Err(InvalidData(CouldNotParseMessage));
      }
      p := step.1;
      var node := nodes[p - 1];
      if !node.Element? {
        continue;
      }
      if IsSoapNamed(node, "Fault") {
        var fault := HandleFault(nodes, p);
        if fault.Err? {
          return Err(fault.error);
        }
        p := fault.value;
      } else if InNamespace(node, ns) {
        var result := XmlDeserialize(nodes, p, t, node.local, ns);
        if result.Err? {
          return Err(result.error);
        }
        return Ok(result.value.0);
      }
    }
  }

  /** A wrapped message type without a namespace can never be read. */
  lemma {:induction false} WrappedWithoutNamespaceFails(nodes: seq<Node>, pos: nat, t: Type)
    requires pos <= |nodes|
    ensures Wrapped(nodes, pos, t, None).Err?
    decreases |nodes| - pos
  {
    var step := Read(nodes, pos);
    if step.0 {
      var p := step.1;
      var node := nodes[p - 1];
      if !node.Element? {
        WrappedWithoutNamespaceFails(nodes, p, t);
      } else if IsSoapNamed(node, "Fault") {
        if Fault(nodes, p, None).Ok? {
          WrappedWithoutNamespaceFails(nodes, Fault(nodes, p, None).value, t);
        }
      } else {
        WrappedWithoutNamespaceFails(nodes, p, t);
      }
    }
  }

  /** The loop of `DeserializeNonWrapped` from cursor `pos`, with `index` the
      next field to fill and `obj` the instance so far. On an element it
      takes `Fields[index]` (out of range once the fields are used up); a
      SOAP `Fault` goes to `HandleFault`; an element with that field's name
      and namespace is deserialized into it; any other element exhausts the
      fields, because the inner loop compares every later index against the
      same field. */
  function NonWrapped(nodes: seq<Node>, pos: nat, info: WcfMessageInfo, index: nat, obj: Value): (r: Result<Value>)
    requires pos <= |nodes| && index <= |info.fields| && obj.Record?
    ensures r.Ok? ==> r.value.Record?
    ensures r.Err? ==> r.error == IndexOutOfRange || r.error.ProtocolViolation? || r.error.InvalidOperation?
    decreases |nodes| - pos
  {
    var step := Read(nodes, pos);
    if !step.0 then Ok(obj)
    else
      var p := step.1;
      var node := nodes[p - 1];
      if !node.Element? then NonWrapped(nodes, p, info, index, obj)
      else if index == |info.fields| then Err(IndexOutOfRange)
      else
        var field := info.fields[index];
        if IsSoapNamed(node, "Fault") then
          match Fault(nodes, p, None)
          case Err(e) => Err(e)
          case Ok(q) => NonWrapped(nodes, q, info, index, obj)
        else if InNamespace(node, field.xmlNamespace) && node.local == field.xmlName then
          match XmlDeserialize(nodes, p, field.propertyType, field.xmlName, field.xmlNamespace)
          case Err(e) => Err(e)
          case Ok(result) => NonWrapped(nodes, result.1, info, index + 1, SetValue(field, obj, result.0))
        else NonWrapped(nodes, p, info, |info.fields|, obj)
  }

  /** `DeserializeNonWrapped`, with its inner loop over the field index. */
  method DeserializeNonWrapped(nodes: seq<Node>, pos: nat, info: WcfMessageInfo) returns (r: Result<Value>)
    requires pos <= |nodes|
    ensures r == NonWrapped(nodes, pos, info, 0, Construct(info))
  {
    var index := 0;
    var obj := Construct(info);
    var p := pos;
    while true
      invariant p <= |nodes| && index <= |info.fields| && obj.Record?
      invariant NonWrapped(nodes, pos, info, 0, Construct(info)) == NonWrapped(nodes, p, info, index, obj)
      decreases |nodes| - p
    {
      var step := Read(nodes, p);
      if !step.0 {
        return Ok(obj);
      }
      ghost var before := p;
      p := step.1;
      var node := nodes[p - 1];
      if !node.Element? {
        continue;
      }
      if index == |info.fields| {
        return Err(IndexOutOfRange);
      }
      var currentField := info.fields[index];
      ghost var first := index;
      while index < |info.fields|
        invariant first <= index <= |info.fields|
        invariant index > first ==>
          !IsSoapNamed(node, "Fault") && !(InNamespace(node, currentField.xmlNamespace) && node.local == currentField.xmlName)
        decreases |info.fields| - index
      {
        if IsSoapNamed(node, "Fault") {
          var fault := HandleFault(nodes, p);
          if fault.Err? {
            return Err(fault.error);
          }
          p := fault.value;
          break;
        } else if InNamespace(node, currentField.xmlNamespace) && node.local == currentField.xmlName {
          var result := XmlDeserialize(nodes, p, currentField.propertyType, currentField.xmlName, currentField.xmlNamespace);
          if result.Err? {
            return Err(result.error);
          }
          obj := SetValue(currentField, obj, result.value.0);
          index := index + 1;
          p := result.value.1;
          break;
        }
        index := index + 1;
      }
    }
  }

  predicate IsElement(n: Node) {
    n.Element?
  }

  /** Once the fields are used up, reading succeeds exactly when no element
      follows, and any element is an index out of range. */
  lemma {:induction false} ExhaustedFields(nodes: seq<Node>, pos: nat, info: WcfMessageInfo, obj: Value)
    requires pos <= |nodes| && obj.Record?
    ensures NonWrapped(nodes, pos, info, |info.fields|, obj) ==
            if FirstFrom(nodes, pos, IsElement).Some? then Err(IndexOutOfRange) else Ok(obj)
    decreases |nodes| - pos
  {
    if pos < |nodes| && !IsElement(nodes[pos]) {
      ExhaustedFields(nodes, pos + 1, info, obj);
    }
  }

  /** A message without body members fails on any element in the body. */
  lemma NoFieldsFailOnElement(nodes: seq<Node>, pos: nat, info: WcfMessageInfo)
    requires pos <= |nodes| && info.fields == []
    ensures NonWrapped(nodes, pos, info, 0, Construct(info)) ==
            if FirstFrom(nodes, pos, IsElement).Some? then Err(IndexOutOfRange) else Ok(Construct(info))
  {
    ExhaustedFields(nodes, pos, info, Construct(info));
  }

  /** No field at or after `index` is stored in member `n`. */
  predicate NotReadFrom(info: WcfMessageInfo, index: nat, n: string) {
    forall j :: index <= j < |info.fields| ==> info.fields[j].memberName != n
  }

  /** Reading from field `index` on sets only the members of the fields still
      to come: every other member keeps its value, and none is added. */
  lemma {:induction false} NonWrappedFrame(nodes: seq<Node>, pos: nat, info: WcfMessageInfo, index: nat, obj: Value)
    requires pos <= |nodes| && index <= |info.fields| && obj.Record?
    requires NonWrapped(nodes, pos, info, index, obj).Ok?
    ensures var r := NonWrapped(nodes, pos, info, index, obj).value;
            forall n :: NotReadFrom(info, index, n) ==>
              (n in r.members <==> n in obj.members) && (n in obj.members ==> r.members[n] == obj.members[n])
    decreases |nodes| - pos
  {
    var step := Read(nodes, pos);
    if step.0 {
      var p := step.1;
      var node := nodes[p - 1];
      if !node.Element? {
        NonWrappedFrame(nodes, p, info, index, obj);
      } else if index < |info.fields| {
        var field := info.fields[index];
        if IsSoapNamed(node, "Fault") {
          NonWrappedFrame(nodes, Fault(nodes, p, None).value, info, index, obj);
        } else if InNamespace(node, field.xmlNamespace) && node.local == field.xmlName {
          var result := XmlDeserialize(nodes, p, field.propertyType, field.xmlName, field.xmlNamespace).value;
          var next := SetValue(field, obj, result.0);
          NonWrappedFrame(nodes, result.1, info, index + 1, next);
          forall n | NotReadFrom(info, index, n)
            ensures NotReadFrom(info, index + 1, n) && n != field.memberName
          {
          }
        } else {
          NonWrappedFrame(nodes, p, info, |info.fields|, obj);
        }
      }
    }
  }

  /** What `Deserialize` returns: it first moves to the SOAP `Body`. */
  function Decoded(nodes: seq<Node>, info: WcfMessageInfo): (r: Result<Value>)
    ensures (forall k :: 0 <= k < |nodes| ==> !IsSoapBody(nodes[k])) ==> r == Err(InvalidData(NoBodyMessage))
    ensures info.isWrapped && r.Err? ==>
              r.error == InvalidData(NoBodyMessage) || r.error == InvalidData(CouldNotParseMessage) ||
              r.error.ProtocolViolation? || r.error.InvalidOperation?
    ensures !info.isWrapped && r.Err? ==>
              r.error == InvalidData(NoBodyMessage) || r.error == IndexOutOfRange ||
              r.error.ProtocolViolation? || r.error.InvalidOperation?
  {
    BodyFoundIff(nodes, 0);
    var body := BodyElement(nodes, 0);
    if !body.0 then Err(InvalidData(NoBodyMessage))
    else if info.isWrapped then Wrapped(nodes, body.1, info.messageType, info.xmlNamespace)
    else NonWrapped(nodes, body.1, info, 0, Construct(info))
  }

  /** `Deserialize`. */
  method Deserialize(nodes: seq<Node>, info: WcfMessageInfo) returns (r: Result<Value>)
    ensures r == Decoded(nodes, info)
  {
    var found, p := TryMoveToBody(nodes, 0);
    if !found {
      return Err(InvalidData(NoBodyMessage));
    }
    if info.isWrapped {
      r := DeserializeWrapped(nodes, p, info.messageType, info.xmlNamespace);
    } else {
      r := DeserializeNonWrapped(nodes, p, info);
    }
  }

  // ---------------------------------------------------------------------
  // Reading back what was written

  /** Two root elements render one after the other. */
  lemma RenderTwo(t0: Token, t1: Token)
    ensures Render([t0, t1]) == RenderToken(t0) + RenderToken(t1)
  {
    assert [t0, t1] == [t0] + [t1];
    RenderCons(t0, [t1]);
    RenderOne(t1);
  }

  /** The `Body` of an envelope is found right after the header. */
  lemma BodyOfEnvelope(nodes: seq<Node>, c: seq<Node>)
    requires EnvelopeWith(nodes, c)
    ensures BodyElement(nodes, 0) == (true, 4)
  {
    FirstFromIs(nodes, 0, 3, IsSoapBody);
  }

  /** The document written by `SerializeException` has no `Body`, so reading
      it fails before any fault is looked at. */
  lemma ExceptionDocumentUnreadable(prefix: string, info: WcfMessageInfo)
    ensures Decoded(Render(ExceptionDocument(prefix)), info) == Err(InvalidData(NoBodyMessage))
  {
    var e := [EnvelopeStart(prefix)];
    var h := HeaderTokens(prefix);
    RenderAppend(e + h, [End]);
    RenderAppend(e, h);
    RenderOne(EnvelopeStart(prefix));
    RenderHeader(prefix);
    RenderOne(End);
    var nodes := Render(ExceptionDocument(prefix));
    assert |nodes| == 4;
    assert forall k :: 0 <= k < 4 ==> !IsSoapBody(nodes[k]);
  }

  /** A body without content holds nothing to read in any namespace. */
  lemma EmptyBodyUnreadable(nodes: seq<Node>, t: Type, ns: Option<string>)
    requires EnvelopeWith(nodes, [])
    ensures Wrapped(nodes, 4, t, ns) == Err(InvalidData(CouldNotParseMessage))
  {
    assert Wrapped(nodes, 6, t, ns) == Err(InvalidData(CouldNotParseMessage));
    assert Wrapped(nodes, 4, t, ns) == Wrapped(nodes, 5, t, ns) == Wrapped(nodes, 6, t, ns);
  }

  /** A body holding one element in namespace `ns` reads as that element's
      subtree, under the element's own name. */
  lemma RootElementRead(nodes: seq<Node>, t: Type, name: string, ns: string)
    requires EnvelopeWith(nodes, [Element(ns, name, false), EndElement])
    requires !(ns == SoapNamespace && name == "Fault")
    ensures Wrapped(nodes, 4, t, Some(ns)) == Ok(Deserialized(t, name, Some(ns), [Element(ns, name, false), EndElement]))
  {
    var c := [Element(ns, name, false), EndElement];
    assert nodes[4] == c[0] && nodes[5] == c[1];
    assert MatchingEnd(nodes, 5, 1) == Some(5);
    assert nodes[4..6] == c;
  }

  /** A wrapped message with a namespace reads back as the element the
      serializer wrote for it, under that element's name and namespace; a
      null value reads back as a parse failure. */
  lemma WrappedRoundTrip(prefix: string, value: Value, info: WcfMessageInfo, ns: string)
    requires info.isWrapped && info.xmlNamespace == Some(ns)
    requires !(ns == SoapNamespace && info.name == "Fault")
    ensures value.Null? ==>
              Decoded(Render(MessageDocument(prefix, value, info)), info) == Err(InvalidData(CouldNotParseMessage))
    ensures !value.Null? ==>
              Decoded(Render(MessageDocument(prefix, value, info)), info) ==
              Ok(Deserialized(info.messageType, info.name, Some(ns), [Element(ns, info.name, false), EndElement]))
  {
    var content := BodyContentTokens(value, info);
    EnvelopeNodes(prefix, Some(content));
    var nodes := Render(MessageDocument(prefix, value, info));
    BodyOfEnvelope(nodes, Render(content));
    if value.Null? {
      EmptyBodyUnreadable(nodes, info.messageType, Some(ns));
    } else {
      RenderOne(Serialized(info.messageType, info.name, info.xmlNamespace, value));
      RootElementRead(nodes, info.messageType, info.name, ns);
    }
  }

  /** A wrapped message without a namespace does not read back at all. */
  lemma WrappedWithoutNamespaceNoRoundTrip(prefix: string, value: Value, info: WcfMessageInfo)
    requires info.isWrapped && info.xmlNamespace.None?
    ensures Decoded(Render(MessageDocument(prefix, value, info)), info).Err?
  {
    var nodes := Render(MessageDocument(prefix, value, info));
    if BodyElement(nodes, 0).0 {
      WrappedWithoutNamespaceFails(nodes, BodyElement(nodes, 0).1, info.messageType);
    }
  }

  /** A body holding the element `e` of a one-field message reads as an
      instance with that field set from the element. */
  lemma OneFieldRead(nodes: seq<Node>, info: WcfMessageInfo, e: Node, ns: string)
    requires |info.fields| == 1 && info.fields[0].xmlNamespace == Some(ns)
    requires e.Element? && e == Element(ns, info.fields[0].xmlName, e.isNil) && !(ns == SoapNamespace && e.local == "Fault")
    requires EnvelopeWith(nodes, [e, EndElement])
    ensures var f := info.fields[0];
            var v := if e.isNil then Null else Deserialized(f.propertyType, f.xmlName, Some(ns), [e, EndElement]);
            NonWrapped(nodes, 4, info, 0, Construct(info)) == Ok(SetValue(f, Construct(info), v))
  {
    var c := [e, EndElement];
    assert nodes[4] == c[0] && nodes[5] == c[1] && nodes[6] == EndElement && nodes[7] == EndElement;
    var f := info.fields[0];
    assert MatchingEnd(nodes, 5, 1) == Some(5);
    assert nodes[4..6] == c;
    var obj1 := SetValue(f, Construct(info), XmlDeserialize(nodes, 5, f.propertyType, f.xmlName, f.xmlNamespace).value.0);
    assert NonWrapped(nodes, 7, info, 1, obj1) == NonWrapped(nodes, 8, info, 1, obj1) == Ok(obj1);
  }

  /** An unwrapped message of one field written by the serializer reads back
      with that field set from its element. */
  lemma SingleFieldRoundTrip(prefix: string, value: Value, info: WcfMessageInfo, ns: string)
    requires !info.isWrapped && !value.Null? && |info.fields| == 1
    requires info.fields[0].xmlNamespace == Some(ns)
    requires !(ns == SoapNamespace && info.fields[0].xmlName == "Fault")
    ensures Decoded(Render(MessageDocument(prefix, value, info)), info).Ok?
    ensures var v := Decoded(Render(MessageDocument(prefix, value, info)), info).value;
            var f := info.fields[0];
            GetValue(f, v) == if GetValue(f, value).Null? then Null
                              else Deserialized(f.propertyType, f.xmlName, Some(ns), [Element(ns, f.xmlName, false), EndElement])
  {
    var f := info.fields[0];
    var t := FieldToken(f, value);
    var content := BodyContentTokens(value, info);
    assert content == [t];
    RenderOne(t);
    EnvelopeNodes(prefix, Some(content));
    var nodes := Render(MessageDocument(prefix, value, info));
    BodyOfEnvelope(nodes, Render(content));
    OneFieldRead(nodes, info, Element(ns, f.xmlName, GetValue(f, value).Null?), ns);
  }

  /** An element that does not match the first field is not skipped: the
      inner loop compares it with that same field for every index, which
      uses the fields up, and the next element then indexes past them. */
  lemma UnexpectedElementExhaustsFields(nodes: seq<Node>, info: WcfMessageInfo, x: Node, e: Node)
    requires |info.fields| > 0 && x.Element? && e.Element?
    requires !IsSoapNamed(x, "Fault")
    requires !(InNamespace(x, info.fields[0].xmlNamespace) && x.local == info.fields[0].xmlName)
    requires EnvelopeWith(nodes, [x, EndElement, e, EndElement])
    ensures NonWrapped(nodes, 4, info, 0, Construct(info)) == Err(IndexOutOfRange)
  {
    var c := [x, EndElement, e, EndElement];
    assert nodes[4] == c[0] && nodes[5] == c[1] && nodes[6] == c[2];
    FirstFromIs(nodes, 5, 6, IsElement);
    ExhaustedFields(nodes, 5, info, Construct(info));
  }

  /** A body holding the elements `e0` and `e1` of a two-field message reads
      as an instance with only the first field set: the deserializer leaves
      the reader on `e1`, which the next read steps over. */
  lemma TwoFieldsRead(nodes: seq<Node>, info: WcfMessageInfo, e0: Node, e1: Node, ns: string)
    requires |info.fields| == 2 && info.fields[0].xmlNamespace == Some(ns)
    requires e0.Element? && e0 == Element(ns, info.fields[0].xmlName, e0.isNil) && !(ns == SoapNamespace && e0.local == "Fault")
    requires EnvelopeWith(nodes, [e0, EndElement, e1, EndElement])
    ensures var f := info.fields[0];
            var v := if e0.isNil then Null else Deserialized(f.propertyType, f.xmlName, Some(ns), [e0, EndElement]);
            NonWrapped(nodes, 4, info, 0, Construct(info)) == Ok(SetValue(f, Construct(info), v))
  {
    var c := [e0, EndElement, e1, EndElement];
    assert nodes[4] == c[0] && nodes[5] == c[1] && nodes[6] == c[2] && nodes[7] == c[3];
    assert nodes[8] == EndElement && nodes[9] == EndElement;
    var f := info.fields[0];
    assert MatchingEnd(nodes, 5, 1) == Some(5);
    assert nodes[4..6] == [e0, EndElement];
    var obj1 := SetValue(f, Construct(info), XmlDeserialize(nodes, 5, f.propertyType, f.xmlName, f.xmlNamespace).value.0);
    assert NonWrapped(nodes, 9, info, 1, obj1) == NonWrapped(nodes, 10, info, 1, obj1) == Ok(obj1);
    assert NonWrapped(nodes, 7, info, 1, obj1) == NonWrapped(nodes, 8, info, 1, obj1) == NonWrapped(nodes, 9, info, 1, obj1);
  }

  /** Whitespace between two field elements is a node of its own, so the read
      after the first field lands on it rather than on the second element,
      and both fields are read. */
  lemma WhitespaceSeparatedFieldsRead(nodes: seq<Node>, info: WcfMessageInfo, e0: Node, e1: Node, ns0: string, ns1: string)
    requires |info.fields| == 2
    requires info.fields[0].xmlNamespace == Some(ns0) && info.fields[1].xmlNamespace == Some(ns1)
    requires e0.Element? && e0 == Element(ns0, info.fields[0].xmlName, e0.isNil) && !(ns0 == SoapNamespace && e0.local == "Fault")
    requires e1.Element? && e1 == Element(ns1, info.fields[1].xmlName, e1.isNil) && !(ns1 == SoapNamespace && e1.local == "Fault")
    requires EnvelopeWith(nodes, [e0, EndElement, Whitespace(" "), e1, EndElement])
    ensures var f0 := info.fields[0];
            var f1 := info.fields[1];
            var v0 := if e0.isNil then Null else Deserialized(f0.propertyType, f0.xmlName, Some(ns0), [e0, EndElement]);
            var v1 := if e1.isNil then Null else Deserialized(f1.propertyType, f1.xmlName, Some(ns1), [e1, EndElement]);
            NonWrapped(nodes, 4, info, 0, Construct(info)) == Ok(SetValue(f1, SetValue(f0, Construct(info), v0), v1))
  {
    var c := [e0, EndElement, Whitespace(" "), e1, EndElement];
    assert nodes[4] == c[0] && nodes[5] == c[1] && nodes[6] == c[2] && nodes[7] == c[3] && nodes[8] == c[4];
    assert nodes[9] == EndElement && nodes[10] == EndElement;
    var f0 := info.fields[0];
    var f1 := info.fields[1];
    assert MatchingEnd(nodes, 5, 1) == Some(5);
    assert nodes[4..6] == [e0, EndElement];
    assert MatchingEnd(nodes, 8, 1) == Some(8);
    assert nodes[7..9] == [e1, EndElement];
    var obj1 := SetValue(f0, Construct(info), XmlDeserialize(nodes, 5, f0.propertyType, f0.xmlName, f0.xmlNamespace).value.0);
    var obj2 := SetValue(f1, obj1, XmlDeserialize(nodes, 8, f1.propertyType, f1.xmlName, f1.xmlNamespace).value.0);
    assert NonWrapped(nodes, 10, info, 2, obj2) == NonWrapped(nodes, 11, info, 2, obj2) == Ok(obj2);
    assert NonWrapped(nodes, 7, info, 1, obj1) == NonWrapped(nodes, 10, info, 2, obj2);
  }

  /** The body content of a fault holding a code and then a string. */
  function FaultBody(code: string, text: string): seq<Node> {
    [Element(SoapNamespace, "Fault", false), Element("", "faultcode", false), Text(code), EndElement,
     Element("", "faultstring", false), Text(text), EndElement, EndElement]
  }

  /** A body holding only a fault with a code and then a string throws that
      fault, both for a wrapped message and for an unwrapped one with body
      members; an unwrapped message without body members fails on the
      `Fault` element before looking at it, with an index out of range. */
  lemma FaultOnlyBodyThrows(nodes: seq<Node>, info: WcfMessageInfo, code: string, text: string)
    requires EnvelopeWith(nodes, FaultBody(code, text))
    ensures info.isWrapped || info.fields != [] ==>
              Decoded(nodes, info) == Err(ProtocolViolation("The following error was received: " + code + ": " + text))
    ensures !info.isWrapped && info.fields == [] ==> Decoded(nodes, info) == Err(IndexOutOfRange)
  {
    var c := FaultBody(code, text);
    assert nodes[4] == c[0] && nodes[5] == c[1] && nodes[6] == c[2] && nodes[7] == c[3];
    assert nodes[8] == c[4] && nodes[9] == c[5] && nodes[10] == c[6];
    BodyOfEnvelope(nodes, c);
    assert ContentFrom(nodes, 7) == ("", 7);
    assert ContentFrom(nodes, 6) == (code + "", 7);
    assert code + "" == code;
    assert ReadContent(nodes, 7, true) == Ok((code, 8));
    assert Fault(nodes, 5, None) == Fault(nodes, 8, Some(code));
    assert ContentFrom(nodes, 10) == ("", 10);
    assert ContentFrom(nodes, 9) == (text + "", 10);
    assert text + "" == text;
    assert ReadContent(nodes, 10, true) == Ok((text, 11));
    assert Fault(nodes, 5, None) == Err(ProtocolViolation(FaultMessage(Some(code), text)));
  }

  /** When the second of two adjacent fields has child elements, the read
      after the first field steps over the second field's start tag onto its
      children: the first child matches no field and uses the fields up, and
      the next child element is an index out of range. */
  lemma NestedSecondFieldOutOfRange(nodes: seq<Node>, info: WcfMessageInfo, e0: Node, e1: Node, ns0: string)
    requires !info.isWrapped && |info.fields| == 2 && info.fields[0].xmlNamespace == Some(ns0)
    requires e0.Element? && e0 == Element(ns0, info.fields[0].xmlName, e0.isNil) && !(ns0 == SoapNamespace && e0.local == "Fault")
    requires e1.Element? && info.fields[1].xmlName != "a"
    requires EnvelopeWith(nodes, [e0, EndElement, e1, Element("", "a", false), EndElement,
                                  Element("", "b", false), EndElement, EndElement])
    ensures NonWrapped(nodes, 4, info, 0, Construct(info)) == Err(IndexOutOfRange)
    ensures Decoded(nodes, info) == Err(IndexOutOfRange)
  {
    var c := [e0, EndElement, e1, Element("", "a", false), EndElement, Element("", "b", false), EndElement, EndElement];
    assert nodes[4] == c[0] && nodes[5] == c[1] && nodes[6] == c[2] && nodes[7] == c[3];
    assert nodes[8] == c[4] && nodes[9] == c[5];
    BodyOfEnvelope(nodes, c);
    var f := info.fields[0];
    assert MatchingEnd(nodes, 5, 1) == Some(5);
    var obj1 := SetValue(f, Construct(info), XmlDeserialize(nodes, 5, f.propertyType, f.xmlName, f.xmlNamespace).value.0);
    assert NonWrapped(nodes, 9, info, 2, obj1) == Err(IndexOutOfRange);
    assert NonWrapped(nodes, 7, info, 1, obj1) == NonWrapped(nodes, 8, info, 2, obj1) == NonWrapped(nodes, 9, info, 2, obj1);
  }

  /** An unwrapped message of two fields written by the serializer reads back
      with only its first field; the second keeps its default. */
  lemma SecondAdjacentFieldSkipped(prefix: string, value: Value, info: WcfMessageInfo, ns0: string)
    requires !info.isWrapped && !value.Null? && |info.fields| == 2
    requires info.fields[0].xmlNamespace == Some(ns0)
    requires !(ns0 == SoapNamespace && info.fields[0].xmlName == "Fault")
    requires info.fields[0].memberName != info.fields[1].memberName
    ensures Decoded(Render(MessageDocument(prefix, value, info)), info).Ok?
    ensures var v := Decoded(Render(MessageDocument(prefix, value, info)), info).value;
            (GetValue(info.fields[0], v) == Null <==> GetValue(info.fields[0], value) == Null) &&
            GetValue(info.fields[1], v) == GetValue(info.fields[1], Construct(info))
  {
    var f0 := info.fields[0];
    var f1 := info.fields[1];
    var t0 := FieldToken(f0, value);
    var t1 := FieldToken(f1, value);
    var content := BodyContentTokens(value, info);
    assert content == [t0, t1];
    RenderTwo(t0, t1);
    EnvelopeNodes(prefix, Some(content));
    var nodes := Render(MessageDocument(prefix, value, info));
    BodyOfEnvelope(nodes, Render(content));
    var e0 := Element(ns0, f0.xmlName, GetValue(f0, value).Null?);
    var e1 := Element(f1.xmlNamespace.GetOr(""), f1.xmlName, GetValue(f1, value).Null?);
    assert Render(content) == [e0, EndElement, e1, EndElement];
    TwoFieldsRead(nodes, info, e0, e1, ns0);
    var read := if e0.isNil then Null else Deserialized(f0.propertyType, f0.xmlName, Some(ns0), [e0, EndElement]);
    SetValueKeepsOthers(f0, f1, Construct(info), read);
  }
}
