/** `WcfFieldInfo`: the earlier, field-only member descriptor. Its four
    properties are fixed by the constructor. */
module FieldInfo {
  import opened Base
  import opened Metadata
  import MemberInfo

  datatype WcfFieldInfo = WcfFieldInfo(
    xmlName: string,
    xmlNamespace: Option<string>,
    propertyType: Type,
    order: int)

  /** The constructor: type from the field, order and namespace from the
      attribute, and the attribute's name unless it is null or empty. */
  function NewFieldInfo(field: FieldDecl, attribute: MessageBodyMemberAttribute): (r: WcfFieldInfo)
    ensures r.propertyType == field.fieldType
    ensures r.order == attribute.order
    ensures r.xmlNamespace == attribute.xmlNamespace
    ensures attribute.name.Some? && attribute.name.value != "" ==> r.xmlName == attribute.name.value
    ensures attribute.name.None? || attribute.name.value == "" ==> r.xmlName == field.name
  {
    var name := if attribute.name.None? || attribute.name.value == "" then field.name else attribute.name.value;
    WcfFieldInfo(name, attribute.xmlNamespace, field.fieldType, attribute.order)
  }

  /** The field-only descriptor and the member descriptor agree on every
      property they share. */
  lemma AgreesWithMemberInfo(field: FieldDecl, attribute: MessageBodyMemberAttribute)
    ensures var f := NewFieldInfo(field, attribute);
            var m := MemberInfo.FromField(field, attribute);
            f.xmlName == m.xmlName && f.xmlNamespace == m.xmlNamespace &&
            f.propertyType == m.propertyType && f.order == m.order
  {
  }
}
