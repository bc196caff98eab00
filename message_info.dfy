/** `WcfMessageInfo`: the descriptor of one request or response message
    type — wrapped or not, its root name and namespace, and, when unwrapped,
    its body members. */
module MessageInfo {
  import opened Base
  import opened Metadata
  import opened MemberInfo

  datatype WcfMessageInfo = WcfMessageInfo(
    isWrapped: bool,
    messageType: Type,
    fields: seq<WcfMemberInfo>,
    xmlNamespace: Option<string>,
    name: string)

  /** A message is wrapped unless it carries a `MessageContract` attribute
      that says otherwise. */
  function IsWrappedFor(t: Type): (r: bool)
    ensures MessageContractOf(t).None? ==> r
    ensures MessageContractOf(t).Some? ==> r == MessageContractOf(t).value.isWrapped
  {
    match MessageContractOf(t)
    case None => true
    case Some(contract) => contract.isWrapped
  }

  /** `GetNamespace`: an `XmlRoot` attribute decides even when its namespace
      is null; otherwise the `XmlType` namespace; otherwise null. */
  function GetNamespace(t: Type): (r: Option<string>)
    ensures XmlRootOf(t).Some? ==> r == XmlRootOf(t).value.xmlNamespace
    ensures XmlRootOf(t).None? && XmlTypeOf(t).Some? ==> r == XmlTypeOf(t).value.xmlNamespace
    ensures XmlRootOf(t).None? && XmlTypeOf(t).None? ==> r.None?
  {
    match XmlRootOf(t)
    case Some(root) => root.xmlNamespace
    case None =>
      match XmlTypeOf(t)
      case Some(xmlType) => xmlType.xmlNamespace
      case None => None
  }

  /** `GetName`: the `XmlRoot` element name, else the `XmlType` type name,
      else the bare type name. */
  function GetName(t: Type): (r: string)
    ensures XmlRootOf(t).Some? ==> r == XmlRootOf(t).value.elementName
    ensures XmlRootOf(t).None? && XmlTypeOf(t).Some? ==> r == XmlTypeOf(t).value.typeName
    ensures XmlRootOf(t).None? && XmlTypeOf(t).None? ==> r == TypeName(t)
  {
    match XmlRootOf(t)
    case Some(root) => root.elementName
    case None =>
      match XmlTypeOf(t)
      case Some(xmlType) => xmlType.typeName
      case None => TypeName(t)
  }

  /** The descriptors of the body-member fields, in enumeration order. */
  function BodyFields(fs: seq<FieldDecl>): (r: seq<WcfMemberInfo>)
    ensures forall f :: f in fs && f.bodyMember.Some? ==> FromField(f, f.bodyMember.value) in r
    ensures forall m :: m in r ==> exists f :: f in fs && f.bodyMember.Some? && m == FromField(f, f.bodyMember.value)
  {
    if fs == [] then []
    else
      var last := fs[|fs| - 1];
      assert forall f :: f in fs ==> f in fs[..|fs| - 1] || f == last;
      BodyFields(fs[..|fs| - 1]) + (if last.bodyMember.Some? then [FromField(last, last.bodyMember.value)] else [])
  }

  /** The descriptors of the body-member properties, in enumeration order. */
  function BodyProperties(ps: seq<PropertyDecl>): (r: seq<WcfMemberInfo>)
    ensures forall p :: p in ps && p.bodyMember.Some? ==> FromProperty(p, p.bodyMember.value) in r
    ensures forall m :: m in r ==> exists p :: p in ps && p.bodyMember.Some? && m == FromProperty(p, p.bodyMember.value)
  {
    if ps == [] then []
    else
      var last := ps[|ps| - 1];
      assert forall p :: p in ps ==> p in ps[..|ps| - 1] || p == last;
      BodyProperties(ps[..|ps| - 1]) + (if last.bodyMember.Some? then [FromProperty(last, last.bodyMember.value)] else [])
  }

  /** What `CollectFields` returns: body-member fields first, then body-member
      properties. The `OrderBy`/`ThenBy` result is discarded by the source, so
      no sorting takes place. */
  function CollectedFields(t: Type): seq<WcfMemberInfo> {
    BodyFields(FieldsOf(t)) + BodyProperties(PropertiesOf(t))
  }

  /** Filtering fields respects concatenation, so members keep their
      enumeration order. */
  lemma {:induction false} BodyFieldsAppend(fs: seq<FieldDecl>, gs: seq<FieldDecl>)
    ensures BodyFields(fs + gs) == BodyFields(fs) + BodyFields(gs)
    decreases |gs|
  {
    if gs == [] {
      assert fs + gs == fs;
    } else {
      var init := gs[..|gs| - 1];
      assert (fs + gs)[..|fs + gs| - 1] == fs + init;
      BodyFieldsAppend(fs, init);
    }
  }

  /** Filtering properties respects concatenation. */
  lemma {:induction false} BodyPropertiesAppend(ps: seq<PropertyDecl>, qs: seq<PropertyDecl>)
    ensures BodyProperties(ps + qs) == BodyProperties(ps) + BodyProperties(qs)
    decreases |qs|
  {
    if qs == [] {
      assert ps + qs == ps;
    } else {
      var init := qs[..|qs| - 1];
      assert (ps + qs)[..|ps + qs| - 1] == ps + init;
      BodyPropertiesAppend(ps, init);
    }
  }

  /** Every collected member comes from a body-member field or property of
      the type, and every such field and property is collected. */
  lemma CollectedFieldsExactly(t: Type)
    ensures forall m :: m in CollectedFields(t) ==>
      (exists f :: f in FieldsOf(t) && f.bodyMember.Some? && m == FromField(f, f.bodyMember.value)) ||
      (exists p :: p in PropertiesOf(t) && p.bodyMember.Some? && m == FromProperty(p, p.bodyMember.value))
    ensures forall f :: f in FieldsOf(t) && f.bodyMember.Some? ==> FromField(f, f.bodyMember.value) in CollectedFields(t)
    ensures forall p :: p in PropertiesOf(t) && p.bodyMember.Some? ==> FromProperty(p, p.bodyMember.value) in CollectedFields(t)
  {
  }

  /** The source leaves the members unsorted: a type whose body fields are
      declared with orders 2 then 1 keeps them in that order. */
  lemma CollectedFieldsUnsorted()
    ensures var a := FieldDecl("A", VoidType, Some(MessageBodyMemberAttribute(None, None, 2)));
            var b := FieldDecl("B", VoidType, Some(MessageBodyMemberAttribute(None, None, 1)));
            var t := ClassType(ClassInfo("M", "", false, Some(MessageContractAttribute(false)), None, None, [a, b], [], [], []));
            var fs := CollectedFields(t);
            |fs| == 2 && fs[0].order == 2 && fs[1].order == 1
  {
    var a := FieldDecl("A", VoidType, Some(MessageBodyMemberAttribute(None, None, 2)));
    var b := FieldDecl("B", VoidType, Some(MessageBodyMemberAttribute(None, None, 1)));
    assert [a, b][..1] == [a];
    assert [a][..0] == [];
    assert BodyFields([a]) == [FromField(a, a.bodyMember.value)];
    assert BodyFields([a, b]) == [FromField(a, a.bodyMember.value), FromField(b, b.bodyMember.value)];
  }

  lemma BodyFieldsStep(fs: seq<FieldDecl>, i: nat)
    requires i < |fs|
    ensures BodyFields(fs[..i + 1]) ==
            BodyFields(fs[..i]) + (if fs[i].bodyMember.Some? then [FromField(fs[i], fs[i].bodyMember.value)] else [])
  {
    assert fs[..i + 1][..i] == fs[..i];
  }

  lemma BodyPropertiesStep(ps: seq<PropertyDecl>, i: nat)
    requires i < |ps|
    ensures BodyProperties(ps[..i + 1]) ==
            BodyProperties(ps[..i]) + (if ps[i].bodyMember.Some? then [FromProperty(ps[i], ps[i].bodyMember.value)] else [])
  {
    assert ps[..i + 1][..i] == ps[..i];
  }

  /** `CollectFields`: two loops over the fields and then the properties,
      keeping those with a `MessageBodyMember` attribute. */
  method CollectFields(t: Type) returns (r: seq<WcfMemberInfo>)
    ensures r == CollectedFields(t)
  {
    var fields := FieldsOf(t);
    var properties := PropertiesOf(t);
    var xmlFields: seq<WcfMemberInfo> := [];
    for i := 0 to |fields|
      invariant xmlFields == BodyFields(fields[..i])
    {
      var field := fields[i];
      BodyFieldsStep(fields, i);
      if field.bodyMember.Some? {
        xmlFields := xmlFields + [FromField(field, field.bodyMember.value)];
      }
    }
    assert fields[..|fields|] == fields;
    for i := 0 to |properties|
      invariant xmlFields == BodyFields(fields) + BodyProperties(properties[..i])
    {
      var property := properties[i];
      BodyPropertiesStep(properties, i);
      if property.bodyMember.Some? {
        xmlFields := xmlFields + [FromProperty(property, property.bodyMember.value)];
      }
    }
    assert properties[..|properties|] == properties;
    r := xmlFields;
  }

  /** The constructor `WcfMessageInfo(messageType)`. */
  function NewMessageInfo(t: Type): (m: WcfMessageInfo)
    ensures m.messageType == t
    ensures m.isWrapped == IsWrappedFor(t)
    ensures m.isWrapped ==> m.fields == []
    ensures !m.isWrapped ==> m.fields == CollectedFields(t)
    ensures m.xmlNamespace == GetNamespace(t) && m.name == GetName(t)
  {
    var wrapped := IsWrappedFor(t);
    WcfMessageInfo(wrapped, t, if wrapped then [] else CollectedFields(t), GetNamespace(t), GetName(t))
  }

  /** `Constructor()`: the message type's empty constructor. */
  function Construct(info: WcfMessageInfo): (v: Value)
    ensures v.Record?
  {
    DefaultInstance(info.messageType)
  }

  predicate DistinctMembers(fields: seq<WcfMemberInfo>) {
    forall i, j :: 0 <= i < j < |fields| ==> fields[i].memberName != fields[j].memberName
  }

  /** The member names that the first `n` fields write. */
  function AssignedNames(fields: seq<WcfMemberInfo>, n: nat): set<string>
    requires n <= |fields|
  {
    set i | 0 <= i < n :: fields[i].memberName
  }

  /** `ConstructMessage`: refuses wrapped descriptors and surplus parameters;
      otherwise field i of a fresh instance receives parameter i, and every
      other member keeps its default. */
  method ConstructMessage(info: WcfMessageInfo, parameters: seq<Value>) returns (r: Result<Value>)
    ensures info.isWrapped ==> r == Err(InvalidOperation("Only non-wrapped messages can be created."))
    ensures !info.isWrapped && |parameters| > |info.fields| ==>
      r == Err(InvalidOperation("Too many parameters were supplied."))
    ensures !info.isWrapped && |parameters| <= |info.fields| ==> r.Ok? && r.value.Record?
    ensures r.Ok? && DistinctMembers(info.fields) ==>
      forall i :: 0 <= i < |parameters| ==> GetValue(info.fields[i], r.value) == parameters[i]
    ensures r.Ok? ==> forall n :: n in Construct(info).members && n !in AssignedNames(info.fields, |parameters|) ==>
      n in r.value.members && r.value.members[n] == Null
  {
    if info.isWrapped {
      return Err(InvalidOperation("Only non-wrapped messages can be created."));
    }
    if |parameters| > |info.fields| {
      return Err(InvalidOperation("Too many parameters were supplied."));
    }
    var message := Construct(info);
    for i := 0 to |parameters|
      invariant message.Record?
      invariant DistinctMembers(info.fields) ==>
        forall j :: 0 <= j < i ==> GetValue(info.fields[j], message) == parameters[j]
      invariant forall n :: n in Construct(info).members && n !in AssignedNames(info.fields, i) ==>
        n in message.members && message.members[n] == Null
    {
      message := SetValue(info.fields[i], message, parameters[i]);
    }
    r := Ok(message);
  }
}
