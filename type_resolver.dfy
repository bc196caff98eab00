/** `TypeResolver` and its own, older `WcfMethodInfo`: the first resolver of
    service operations. It searches the service contract and fills the
    action table exactly as `WcfMethodResolver` does; its descriptor looks
    at the public fields of the request type instead of building message
    descriptors. */
module TypeResolver {
  import opened Base
  import opened Metadata
  import MethodInfo
  import MethodResolver

  /** The older descriptor. `requestObjectType` is the first parameter's type
      and `parameterType` the type of that type's only field. */
  datatype LegacyMethodInfo = LegacyMethodInfo(
    soapActionName: Option<string>,
    isAsync: bool,
    parameterType: Option<Type>,
    requestObjectType: Option<Type>,
    decl: MethodDecl)

  /** The constructor: the action name gets "Async" appended for `Task` and
      `Task<T>` methods; a method without parameters has neither request type
      nor parameter type; a request type with one public field gives that
      field's type as the parameter type, and one with several is refused. */
  function NewLegacyMethodInfo(m: MethodDecl, attribute: OperationContractAttribute): (r: Result<LegacyMethodInfo>)
    ensures |m.parameters| > 0 && |FieldsOf(m.parameters[0].parameterType)| > 1 <==> r.Err?
    ensures r.Err? ==> r.error == InvalidOperation("Multiple parameters not supported for request type.")
    ensures r.Ok? ==> r.value.decl == m && r.value.soapActionName == MethodInfo.ActionNameFor(attribute, m.returnType)
    ensures r.Ok? ==> (r.value.isAsync <==> MethodInfo.IsTaskType(m.returnType))
    ensures r.Ok? ==> (r.value.requestObjectType.Some? <==> |m.parameters| > 0)
    ensures r.Ok? && |m.parameters| > 0 ==> r.value.requestObjectType == Some(m.parameters[0].parameterType)
    ensures r.Ok? ==> (r.value.parameterType.Some? <==>
                       |m.parameters| > 0 && |FieldsOf(m.parameters[0].parameterType)| == 1)
    ensures r.Ok? && r.value.parameterType.Some? ==>
              r.value.parameterType.value == FieldsOf(m.parameters[0].parameterType)[0].fieldType
  {
    var name := MethodInfo.ActionNameFor(attribute, m.returnType);
    var isAsync := MethodInfo.IsTaskType(m.returnType);
    if |m.parameters| == 0 then Ok(LegacyMethodInfo(name, isAsync, None, None, m))
    else
      var requestType := m.parameters[0].parameterType;
      var fields := FieldsOf(requestType);
      if |fields| == 0 then Ok(LegacyMethodInfo(name, isAsync, None, Some(requestType), m))
      else if |fields| > 1 then Err(InvalidOperation("Multiple parameters not supported for request type."))
      else Ok(LegacyMethodInfo(name, isAsync, Some(fields[0].fieldType), Some(requestType), m))
  }

  predicate HasParameters(mi: LegacyMethodInfo) {
    mi.requestObjectType.Some?
  }

  /** `TryGetParameterType`: true with the parameter type when there is one.
      Unlike `HasParameters`, a request type without fields gives false. */
  function TryGetParameterType(mi: LegacyMethodInfo): (r: (bool, Option<Type>))
    ensures r.0 <==> mi.parameterType.Some?
    ensures r.1 == mi.parameterType
  {
    match mi.parameterType
    case None => (false, None)
    case Some(t) => (true, Some(t))
  }

  /** A parameterised method whose request type has no fields has parameters
      and yet no parameter type. */
  lemma ParametersWithoutParameterType(m: MethodDecl, attribute: OperationContractAttribute)
    requires |m.parameters| > 0 && FieldsOf(m.parameters[0].parameterType) == []
    ensures NewLegacyMethodInfo(m, attribute).Ok?
    ensures var mi := NewLegacyMethodInfo(m, attribute).value;
            HasParameters(mi) && !TryGetParameterType(mi).0
  {
  }

  /** `InvokeSoapMethod(soapObject, target)`: refuses a method without a
      request type; otherwise calls it with one request object created from
      `soapObject`. The returned task, if any, is not awaited. */
  function InvokeWithArgument(mi: LegacyMethodInfo, soapObject: Value): (r: Result<MethodInfo.Invocation>)
    ensures !HasParameters(mi) ==> r == Err(InvalidOperation("SoapAction does not contain parameters."))
    ensures HasParameters(mi) ==> r.Ok? && r.value.decl == mi.decl && !r.value.awaited
    ensures HasParameters(mi) ==> r.value.args == [Created(mi.requestObjectType.value, soapObject)]
  {
    match mi.requestObjectType
    case None => Err(InvalidOperation("SoapAction does not contain parameters."))
    case Some(t) => Ok(MethodInfo.Invocation(mi.decl, [Created(t, soapObject)], false))
  }

  /** `InvokeSoapMethod(target)`: calls the method with no arguments. */
  function InvokeWithoutArgument(mi: LegacyMethodInfo): (r: MethodInfo.Invocation)
    ensures r.decl == mi.decl && r.args == [] && !r.awaited
  {
    MethodInfo.Invocation(mi.decl, [], false)
  }

  // ---------------------------------------------------------------------
  // The resolver

  datatype Resolver = Resolver(table: map<string, LegacyMethodInfo>)

  function LegacyKey(d: LegacyMethodInfo): Option<string> {
    d.soapActionName
  }

  /** The resolver of a service type, as its constructor computes it. */
  function ResolverFor(t: Type): (r: Result<Resolver>)
    ensures MethodResolver.FindContract(t).None? ==> r == Err(Argument(NoContractMessage(t)))
    ensures r.Ok? ==> MethodResolver.FindContract(t).Some? &&
                      |r.value.table| <= |MethodResolver.Operations(MethodsOf(MethodResolver.FindContract(t).value))|
  {
    match MethodResolver.FindContract(t)
    case None => Err(Argument(NoContractMessage(t)))
    case Some(contract) =>
      match MethodResolver.ActionTable(MethodsOf(contract), NewLegacyMethodInfo, LegacyKey)
      case Err(e) => Err(e)
      case Ok(table) => Ok(Resolver(table))
  }

  /** The constructor: the same contract search and the same table loop as
      `WcfMethodResolver`, with the older descriptor. */
  method NewResolver(t: Type) returns (r: Result<Resolver>)
    ensures r == ResolverFor(t)
    ensures MethodResolver.FindContract(t).None? ==> r.Err? && r.error.Argument?
  {
    var contract := MethodResolver.FindContract(t);
    if contract.None? {
      return Err(Argument(NoContractMessage(t)));
    }
    var table := MethodResolver.BuildTable(MethodsOf(contract.value), NewLegacyMethodInfo, LegacyKey);
    if table.Err? {
      return Err(table.error);
    }
    r := Ok(Resolver(table.value));
  }

  /** `TryResolveType`: exact-key lookup. */
  function TryResolveType(resolver: Resolver, soapAction: string): (r: Option<LegacyMethodInfo>)
    ensures r.Some? <==> soapAction in resolver.table
    ensures r.Some? ==> r.value == resolver.table[soapAction]
  {
    if soapAction in resolver.table then Some(resolver.table[soapAction]) else None
  }

  /** `ServiceMethodCount`: the number of entries in the table. */
  function ServiceMethodCount(resolver: Resolver): (r: nat)
    ensures r == 0 <==> forall a :: TryResolveType(resolver, a).None?
  {
    if |resolver.table.Keys| == 0 then
      assert forall a :: a !in resolver.table.Keys;
      0
    else
      var a :| a in resolver.table.Keys;
      assert TryResolveType(resolver, a).Some?;
      |resolver.table|
  }

  /** A service whose contract has an operation taking a request type with
      several public fields cannot get a resolver. */
  lemma MultiFieldRequestRefused(t: Type, m: MethodDecl)
    requires MethodResolver.FindContract(t).Some?
    requires m in MethodsOf(MethodResolver.FindContract(t).value) && m.operationContract.Some?
    requires |m.parameters| > 0 && |FieldsOf(m.parameters[0].parameterType)| > 1
    ensures ResolverFor(t).Err?
  {
    var contract := MethodResolver.FindContract(t).value;
    if MethodResolver.ActionTable(MethodsOf(contract), NewLegacyMethodInfo, LegacyKey).Ok? {
      MethodResolver.ActionTableContents(MethodsOf(contract), NewLegacyMethodInfo, LegacyKey);
      assert false;
    }
  }

  /** Both resolvers key the same operations under the same action names:
      when both succeed they have the same action names, and each method
      they resolve an action name to is the same. */
  lemma ResolversAgree(t: Type)
    requires ResolverFor(t).Ok? && MethodResolver.ResolverFor(t).Ok?
    ensures ResolverFor(t).value.table.Keys == MethodResolver.ResolverFor(t).value.table.Keys
    ensures forall k :: k in ResolverFor(t).value.table ==>
              ResolverFor(t).value.table[k].decl == MethodResolver.ResolverFor(t).value.table[k].decl
  {
    var contract := MethodResolver.FindContract(t).value;
    var methods := MethodsOf(contract);
    MethodResolver.ActionTableContents(methods, NewLegacyMethodInfo, LegacyKey);
    MethodResolver.ActionTableContents(methods, MethodResolver.BuildDescriptor, MethodResolver.DescriptorKey);
    var legacy := ResolverFor(t).value.table;
    var current := MethodResolver.ResolverFor(t).value.table;
    forall k | k in legacy
      ensures k in current && legacy[k].decl == current[k].decl
    {
      var m :| m in methods && m.operationContract.Some? &&
               NewLegacyMethodInfo(m, m.operationContract.value) == Ok(legacy[k]) && LegacyKey(legacy[k]) == Some(k);
      var d := MethodInfo.NewMethodInfo(m, m.operationContract.value);
      assert MethodResolver.BuildDescriptor(m, m.operationContract.value) == Ok(d);
      assert d.soapActionName == Some(k);
    }
    forall k | k in current
      ensures k in legacy
    {
      var m :| m in methods && m.operationContract.Some? &&
               MethodResolver.BuildDescriptor(m, m.operationContract.value) == Ok(current[k]) &&
               MethodResolver.DescriptorKey(current[k]) == Some(k);
      assert NewLegacyMethodInfo(m, m.operationContract.value).Ok?;
    }
  }
}
