/** Explicit metadata in place of .NET reflection: the types, members,
    methods and attributes that the core looks up with `GetCustomAttribute`,
    `GetFields`, `GetProperties`, `GetMethods` and `GetInterfaces`, and the
    run-time values that travel through the codec. */
module Metadata {
  import opened Base
  import opened Xml

  datatype MessageContractAttribute = MessageContractAttribute(isWrapped: bool)

  /** `XmlRootAttribute`: `ElementName` is never null (it defaults to ""). */
  datatype XmlRootAttribute = XmlRootAttribute(elementName: string, xmlNamespace: Option<string>)

  /** `XmlTypeAttribute`: `TypeName` is never null (it defaults to ""). */
  datatype XmlTypeAttribute = XmlTypeAttribute(typeName: string, xmlNamespace: Option<string>)

  datatype MessageBodyMemberAttribute =
    MessageBodyMemberAttribute(name: Option<string>, xmlNamespace: Option<string>, order: int)

  datatype OperationContractAttribute = OperationContractAttribute(action: Option<string>)

  /** A type as the core inspects it. `Task` and `Task<T>` are told apart
      because the method descriptors unwrap them. */
  datatype Type =
    | VoidType
    | TaskType
    | GenericTaskType(result: Type)
    | ClassType(info: ClassInfo)

  /** A class or interface with its name and namespace, the attributes the
      core looks up (after inheritance), its public fields and properties in
      enumeration order, its interfaces as `GetInterfaces` returns them (every interface it
      implements, inherited ones included, in the order the runtime reports
      them), and its public methods in `GetMethods` order. */
  datatype ClassInfo = ClassInfo(
    name: string,
    typeNamespace: string,
    serviceContract: bool,
    messageContract: Option<MessageContractAttribute>,
    xmlRoot: Option<XmlRootAttribute>,
    xmlType: Option<XmlTypeAttribute>,
    fields: seq<FieldDecl>,
    properties: seq<PropertyDecl>,
    interfaces: seq<Type>,
    methods: seq<MethodDecl>)

  datatype FieldDecl = FieldDecl(name: string, fieldType: Type, bodyMember: Option<MessageBodyMemberAttribute>)

  datatype PropertyDecl = PropertyDecl(name: string, propertyType: Type, bodyMember: Option<MessageBodyMemberAttribute>)

  datatype ParameterDecl = ParameterDecl(name: string, parameterType: Type)

  datatype MethodDecl = MethodDecl(
    name: string,
    returnType: Type,
    parameters: seq<ParameterDecl>,
    operationContract: Option<OperationContractAttribute>)

  /** A run-time value. `Record` is an instance of a message type, its members
      by member name; `Deserialized` is what `XmlSerializer.Deserialize`
      produced from one element's subtree under a root override; `Created` is
      what `Activator.CreateInstance(type, argument)` produced. */
  datatype Value =
    | Null
    | Record(members: map<string, Value>)
    | Deserialized(valueType: Type, rootName: string, rootNamespace: Option<string>, subtree: seq<Node>)
    | Created(createdType: Type, argument: Value)
    | Opaque(payload: string)

  /** `Type.Name`. */
  function TypeName(t: Type): string {
    match t
    case VoidType => "Void"
    case TaskType => "Task"
    case GenericTaskType(_) => "Task`1"
    case ClassType(info) => info.name
  }

  /** `Type.ToString()`: the name qualified by its namespace, and for
      `Task<T>` the argument's full name in brackets. */
  function FullTypeName(t: Type): (r: string)
    ensures t.ClassType? && t.info.typeNamespace != "" ==> r == t.info.typeNamespace + "." + TypeName(t)
    ensures t.ClassType? && t.info.typeNamespace == "" ==> r == TypeName(t)
    ensures t.GenericTaskType? ==> r == "System.Threading.Tasks." + TypeName(t) + "[" + FullTypeName(t.result) + "]"
  {
    match t
    case VoidType => "System.Void"
    case TaskType => "System.Threading.Tasks.Task"
    case GenericTaskType(result) => "System.Threading.Tasks.Task`1[" + FullTypeName(result) + "]"
    case ClassType(info) => if info.typeNamespace == "" then info.name else info.typeNamespace + "." + info.name
  }

  /** The message of the `ArgumentException` for a type without a service
      contract. */
  function NoContractMessage(t: Type): string {
    "Type " + FullTypeName(t) + " does not implement a valid service contract."
  }

  function MessageContractOf(t: Type): Option<MessageContractAttribute> {
    if t.ClassType? then t.info.messageContract else None
  }

  function XmlRootOf(t: Type): Option<XmlRootAttribute> {
    if t.ClassType? then t.info.xmlRoot else None
  }

  function XmlTypeOf(t: Type): Option<XmlTypeAttribute> {
    if t.ClassType? then t.info.xmlType else None
  }

  function FieldsOf(t: Type): seq<FieldDecl> {
    if t.ClassType? then t.info.fields else []
  }

  function PropertiesOf(t: Type): seq<PropertyDecl> {
    if t.ClassType? then t.info.properties else []
  }

  function MethodsOf(t: Type): seq<MethodDecl> {
    if t.ClassType? then t.info.methods else []
  }

  predicate HasServiceContract(t: Type) {
    t.ClassType? && t.info.serviceContract
  }

  /** The names of all fields, then all properties. */
  function MemberNames(t: Type): set<string> {
    (set f | f in FieldsOf(t) :: f.name) + (set p | p in PropertiesOf(t) :: p.name)
  }

  /** What the empty constructor of a message type produces: every member at
      its default. */
  function DefaultInstance(t: Type): (v: Value)
    ensures v.Record? && v.members.Keys == MemberNames(t)
    ensures forall n :: n in v.members ==> v.members[n] == Null
  {
    Record(map n | n in MemberNames(t) :: Null)
  }

  /** The message of the `InvalidOperationException` that `XmlSerializer`
      wraps a reader failure in (without the line and column). */
  const XmlDocumentError := "There is an error in XML document."

  /** `new XmlSerializer(t, root).Deserialize(reader)` with the reader on the
      element at index `pos - 1`: consumes that element's subtree and leaves
      the reader on the node after its end tag (at the end of input when
      there is none). An element marked `xsi:nil` yields null; an element
      whose end tag is missing makes the reader throw an `XmlException`,
      which the serializer rethrows as an `InvalidOperationException`. */
  function XmlDeserialize(nodes: seq<Node>, pos: nat, t: Type, rootName: string, rootNamespace: Option<string>)
    : (r: Result<(Value, nat)>)
    requires 0 < pos <= |nodes|
    requires nodes[pos - 1].Element?
    ensures r.Ok? ==> pos < r.value.1 <= |nodes|
    ensures r.Ok? ==> (r.value.0 == Null <==> nodes[pos - 1].isNil)
    ensures r.Err? <==> MatchingEnd(nodes, pos, 1).None?
    ensures r.Err? ==> r.error == InvalidOperation(XmlDocumentError)
  {
    match MatchingEnd(nodes, pos, 1)
    case None => Result<(Value, nat)>.Err(InvalidOperation(XmlDocumentError))
    case Some(e) =>
      var value := if nodes[pos - 1].isNil then Null else Deserialized(t, rootName, rootNamespace, nodes[pos - 1..e + 1]);
      Ok((value, if e + 1 < |nodes| then e + 2 else |nodes|))
  }
}
