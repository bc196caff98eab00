/** `WcfMemberInfo`: one body member (field or property) of an unwrapped
    message type, with its XML name, namespace, order and accessors. */
module MemberInfo {
  import opened Base
  import opened Metadata

  /** The descriptor. `memberName` identifies the member that the compiled
      getter and setter access. */
  datatype WcfMemberInfo = WcfMemberInfo(
    memberName: string,
    propertyType: Type,
    xmlName: string,
    xmlNamespace: Option<string>,
    order: int)

  /** `string.IsNullOrEmpty`. */
  predicate IsNullOrEmpty(s: Option<string>) {
    s.None? || s.value == ""
  }

  /** The XML name: the attribute's `Name` unless it is null or empty, in
      which case the member's own name. */
  function XmlNameFor(memberName: string, attribute: MessageBodyMemberAttribute): (r: string)
    ensures !IsNullOrEmpty(attribute.name) ==> r == attribute.name.value
    ensures IsNullOrEmpty(attribute.name) ==> r == memberName
    ensures r == "" ==> memberName == ""
  {
    if IsNullOrEmpty(attribute.name) then memberName else attribute.name.value
  }

  /** The constructor over a `FieldInfo`. */
  function FromField(field: FieldDecl, attribute: MessageBodyMemberAttribute): (m: WcfMemberInfo)
    ensures m.propertyType == field.fieldType
    ensures m.order == attribute.order && m.xmlNamespace == attribute.xmlNamespace
    ensures m.xmlName == XmlNameFor(field.name, attribute)
    ensures m.memberName == field.name
  {
    WcfMemberInfo(field.name, field.fieldType, XmlNameFor(field.name, attribute), attribute.xmlNamespace, attribute.order)
  }

  /** The constructor over a `PropertyInfo`. */
  function FromProperty(property: PropertyDecl, attribute: MessageBodyMemberAttribute): (m: WcfMemberInfo)
    ensures m.propertyType == property.propertyType
    ensures m.order == attribute.order && m.xmlNamespace == attribute.xmlNamespace
    ensures m.xmlName == XmlNameFor(property.name, attribute)
    ensures m.memberName == property.name
  {
    WcfMemberInfo(property.name, property.propertyType, XmlNameFor(property.name, attribute), attribute.xmlNamespace, attribute.order)
  }

  /** Both constructors derive the same descriptor from the same name, type
      and attribute. */
  lemma FieldAndPropertyAgree(name: string, t: Type, attribute: MessageBodyMemberAttribute, b: Option<MessageBodyMemberAttribute>)
    ensures FromField(FieldDecl(name, t, b), attribute) == FromProperty(PropertyDecl(name, t, b), attribute)
  {
  }

  /** `GetValue`: the member's value in an instance. An instance that does
      not hold the member yields null. */
  function GetValue(m: WcfMemberInfo, instance: Value): (r: Value)
    ensures instance.Record? && m.memberName in instance.members ==> r == instance.members[m.memberName]
  {
    if instance.Record? && m.memberName in instance.members then instance.members[m.memberName] else Null
  }

  /** `SetValue`: the instance with this member set to `v`; every other
      member keeps its value. */
  function SetValue(m: WcfMemberInfo, instance: Value, v: Value): (r: Value)
    requires instance.Record?
    ensures r.Record? && r.members.Keys == instance.members.Keys + {m.memberName}
    ensures GetValue(m, r) == v
    ensures forall n :: n in instance.members && n != m.memberName ==> r.members[n] == instance.members[n]
  {
    Record(instance.members[m.memberName := v])
  }

  /** Setting one member does not disturb what another member's getter reads. */
  lemma SetValueKeepsOthers(m: WcfMemberInfo, other: WcfMemberInfo, instance: Value, v: Value)
    requires instance.Record?
    requires other.memberName != m.memberName
    ensures GetValue(other, SetValue(m, instance, v)) == GetValue(other, instance)
  {
  }
}
