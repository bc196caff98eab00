/** `WcfMethodInfo` (the reflection-based descriptor): one service operation
    with its SOAP action name, async flag and request/response message
    descriptors. */
module MethodInfo {
  import opened Base
  import opened Metadata
  import opened MessageInfo

  datatype WcfMethodInfo = WcfMethodInfo(
    soapActionName: Option<string>,
    isAsync: bool,
    request: Option<WcfMessageInfo>,
    response: Option<WcfMessageInfo>,
    decl: MethodDecl)

  /** A call of the bound method on the service: the arguments passed to
      `MethodInfo.Invoke` and whether the returned task is awaited. */
  datatype Invocation = Invocation(decl: MethodDecl, args: seq<Value>, awaited: bool)

  /** `returnType == typeof(Task)` or a constructed `Task<>`. */
  predicate IsTaskType(t: Type) {
    t.TaskType? || t.GenericTaskType?
  }

  /** The action name: `Action + "Async"` for task-returning methods (a null
      action concatenates as ""), `Action` otherwise. */
  function ActionNameFor(attribute: OperationContractAttribute, returnType: Type): (r: Option<string>)
    ensures IsTaskType(returnType) ==> r == Some(attribute.action.GetOr("") + "Async")
    ensures !IsTaskType(returnType) ==> r == attribute.action
  {
    if IsTaskType(returnType) then Some(attribute.action.GetOr("") + "Async") else attribute.action
  }

  /** The logical return type: `T` for `Task<T>`, `void` for `Task`, the
      declared type otherwise. */
  function LogicalReturnType(returnType: Type): (r: Type)
    ensures returnType.GenericTaskType? ==> r == returnType.result
    ensures returnType.TaskType? ==> r == VoidType
    ensures !IsTaskType(returnType) ==> r == returnType
  {
    match returnType
    case GenericTaskType(result) => result
    case TaskType => VoidType
    case _ => returnType
  }

  /** The constructor `WcfMethodInfo(methodInfo, operationContract)`. */
  function NewMethodInfo(m: MethodDecl, attribute: OperationContractAttribute): (r: WcfMethodInfo)
    ensures r.soapActionName == ActionNameFor(attribute, m.returnType)
    ensures r.isAsync <==> IsTaskType(m.returnType)
    ensures r.request.Some? <==> |m.parameters| > 0
    ensures r.request.Some? ==> r.request.value == NewMessageInfo(m.parameters[0].parameterType)
    ensures r.response.Some? <==> LogicalReturnType(m.returnType) != VoidType
    ensures r.response.Some? ==> r.response.value == NewMessageInfo(LogicalReturnType(m.returnType))
    ensures r.decl == m
  {
    var returnType := LogicalReturnType(m.returnType);
    WcfMethodInfo(
      ActionNameFor(attribute, m.returnType),
      IsTaskType(m.returnType),
      if |m.parameters| > 0 then Some(NewMessageInfo(m.parameters[0].parameterType)) else None,
      if returnType != VoidType then Some(NewMessageInfo(returnType)) else None,
      m)
  }

  predicate HasParameters(mi: WcfMethodInfo) {
    mi.request.Some?
  }

  predicate HasReturnValue(mi: WcfMethodInfo) {
    mi.response.Some?
  }

  /** A method descriptor has parameters exactly when the method declares
      one, and a return value exactly when its logical return type is not
      void; `Task` and `void` methods have none. */
  lemma DescriptorShape(m: MethodDecl, attribute: OperationContractAttribute)
    ensures HasParameters(NewMethodInfo(m, attribute)) <==> |m.parameters| > 0
    ensures HasReturnValue(NewMethodInfo(m, attribute)) <==>
      !(m.returnType.VoidType? || m.returnType.TaskType? || m.returnType == GenericTaskType(VoidType))
  {
  }

  /** `TryGetParameterType`: false (and no type) without a request
      descriptor; otherwise true with the request message type. */
  function TryGetParameterType(mi: WcfMethodInfo): (r: (bool, Option<Type>))
    ensures r.0 <==> HasParameters(mi)
    ensures !r.0 ==> r.1.None?
    ensures r.0 ==> r.1 == Some(mi.request.value.messageType)
  {
    match mi.request
    case None => (false, None)
    case Some(request) => (true, Some(request.messageType))
  }

  /** `InvokeSoapMethodAsync(soapObject, target)`: refuses a method without a
      request descriptor; otherwise calls it with one request object built
      from `soapObject`, awaiting the task when the method is async. */
  function InvokeWithArgument(mi: WcfMethodInfo, soapObject: Value): (r: Result<Invocation>)
    ensures !HasParameters(mi) ==> r == Err(InvalidOperation("SoapAction does not contain parameters."))
    ensures HasParameters(mi) ==> r.Ok? && r.value.decl == mi.decl && r.value.awaited == mi.isAsync
    ensures HasParameters(mi) ==> r.value.args == [Created(mi.request.value.messageType, soapObject)]
  {
    match mi.request
    case None => Err(InvalidOperation("SoapAction does not contain parameters."))
    case Some(request) => Ok(Invocation(mi.decl, [Created(request.messageType, soapObject)], mi.isAsync))
  }

  /** `InvokeSoapMethodAsync(target)`: calls the method with no arguments. */
  function InvokeWithoutArgument(mi: WcfMethodInfo): (r: Invocation)
    ensures r.decl == mi.decl && r.args == [] && r.awaited == mi.isAsync
  {
    Invocation(mi.decl, [], mi.isAsync)
  }
}
