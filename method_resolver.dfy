/** `WcfMethodResolver`: finds the service contract of a service type and
    builds the table from SOAP action names to method descriptors. The
    contract search and the table construction are shared with the older
    `TypeResolver`, which differs only in the descriptor it builds. */
module MethodResolver {
  import opened Base
  import opened Metadata
  import opened MethodInfo

  // ---------------------------------------------------------------------
  // Service contract search

  /** `TryResolveServiceContract`: the type itself when it carries
      `ServiceContract`, otherwise the first success among its interfaces,
      tried in order. */
  function FindContract(t: Type): (r: Option<Type>)
    ensures HasServiceContract(t) ==> r == Some(t)
    ensures r.Some? ==> HasServiceContract(r.value)
    ensures !t.ClassType? ==> r.None?
    decreases t, 1, 0
  {
    if HasServiceContract(t) then Some(t)
    else if t.ClassType? then FindInInterfaces(t, 0)
    else None
  }

  /** The `foreach` over `GetInterfaces()`, from interface `i` on. */
  function FindInInterfaces(t: Type, i: nat): (r: Option<Type>)
    requires t.ClassType?
    requires i <= |t.info.interfaces|
    ensures r.Some? ==> HasServiceContract(r.value)
    ensures i == |t.info.interfaces| ==> r.None?
    decreases t, 0, |t.info.interfaces| - i
  {
    if i == |t.info.interfaces| then None
    else
      assert t.info.interfaces[i] in t.info.interfaces;
      match FindContract(t.info.interfaces[i])
      case Some(c) => Some(c)
      case None => FindInInterfaces(t, i + 1)
  }

  /** The types the search visits, in depth-first pre-order. */
  function Preorder(t: Type): seq<Type>
    decreases t, 1, 0
  {
    [t] + (if t.ClassType? then PreorderFrom(t, 0) else [])
  }

  function PreorderFrom(t: Type, i: nat): seq<Type>
    requires t.ClassType?
    requires i <= |t.info.interfaces|
    decreases t, 0, |t.info.interfaces| - i
  {
    if i == |t.info.interfaces| then []
    else
      assert t.info.interfaces[i] in t.info.interfaces;
      Preorder(t.info.interfaces[i]) + PreorderFrom(t, i + 1)
  }

  /** The first type of a sequence that carries `ServiceContract`. */
  function FirstContract(ts: seq<Type>): (r: Option<Type>)
    ensures r.Some? ==> r.value in ts && HasServiceContract(r.value)
    ensures r.None? ==> forall u :: u in ts ==> !HasServiceContract(u)
  {
    if ts == [] then None
    else if HasServiceContract(ts[0]) then Some(ts[0])
    else FirstContract(ts[1..])
  }

  lemma {:induction false} FirstContractAppend(xs: seq<Type>, ys: seq<Type>)
    ensures FirstContract(xs + ys) == if FirstContract(xs).Some? then FirstContract(xs) else FirstContract(ys)
  {
    if xs != [] {
      assert (xs + ys)[1..] == xs[1..] + ys;
      FirstContractAppend(xs[1..], ys);
    } else {
      assert xs + ys == ys;
    }
  }

  /** The search returns the first contract type in depth-first pre-order of
      the interface graph, and fails exactly when none of the visited types
      carries `ServiceContract`. */
  lemma {:induction false} FindContractIsFirstInPreorder(t: Type)
    ensures FindContract(t) == FirstContract(Preorder(t))
    decreases t, 1, 0
  {
    var rest := if t.ClassType? then PreorderFrom(t, 0) else [];
    FirstContractAppend([t], rest);
    assert [t][1..] == [];
    if !HasServiceContract(t) && t.ClassType? {
      FindInInterfacesIsFirst(t, 0);
    }
  }

  lemma {:induction false} FindInInterfacesIsFirst(t: Type, i: nat)
    requires t.ClassType?
    requires i <= |t.info.interfaces|
    ensures FindInInterfaces(t, i) == FirstContract(PreorderFrom(t, i))
    decreases t, 0, |t.info.interfaces| - i
  {
    if i < |t.info.interfaces| {
      assert t.info.interfaces[i] in t.info.interfaces;
      FindContractIsFirstInPreorder(t.info.interfaces[i]);
      FirstContractAppend(Preorder(t.info.interfaces[i]), PreorderFrom(t, i + 1));
      FindInInterfacesIsFirst(t, i + 1);
    }
  }

  /** A found contract carries `ServiceContract`; no contract is found only
      when no type on the search carries it. */
  lemma FindContractSound(t: Type)
    ensures FindContract(t).Some? ==> HasServiceContract(FindContract(t).value) && FindContract(t).value in Preorder(t)
    ensures FindContract(t).None? ==> forall u :: u in Preorder(t) ==> !HasServiceContract(u)
  {
    FindContractIsFirstInPreorder(t);
  }

  // ---------------------------------------------------------------------
  // The action table, shared by both resolvers

  /** The operations of a contract: the methods carrying `OperationContract`. */
  function Operations(methods: seq<MethodDecl>): (r: seq<MethodDecl>)
    ensures forall m :: m in r <==> m in methods && m.operationContract.Some?
  {
    if methods == [] then []
    else
      var last := methods[|methods| - 1];
      Operations(methods[..|methods| - 1]) + (if last.operationContract.Some? then [last] else [])
  }

  /** `Dictionary.Add`: refuses a null key and a key already present. */
  function Add<D>(table: map<string, D>, key: Option<string>, d: D): (r: Result<map<string, D>>)
    ensures key.None? ==> r == Err(ArgumentNull("Value cannot be null. (Parameter 'key')"))
    ensures key.Some? && key.value in table ==> r.Err? && r.error.Argument?
    ensures key.Some? && key.value !in table ==> r == Ok(table[key.value := d])
  {
    match key
    case None => Err(ArgumentNull("Value cannot be null. (Parameter 'key')"))
    case Some(k) =>
      if k in table then Err(Argument("An item with the same key has already been added. Key: " + k))
      else Ok(table[k := d])
  }

  /** The action name an operation is added under: None when the method
      is no operation, its descriptor cannot be built, or the name is null. */
  function OperationKey<D>(m: MethodDecl, build: (MethodDecl, OperationContractAttribute) -> Result<D>,
                           key: D -> Option<string>): Option<string>
  {
    match m.operationContract
    case None => None
    case Some(attribute) =>
      match build(m, attribute)
      case Err(_) => None
      case Ok(d) => key(d)
  }

  /** `ResolveSoapAction` over the methods in order: skip a method without
      `OperationContract`, otherwise build its descriptor and add it under
      its action name. The first failure ends the construction. */
  function ActionTable<D>(methods: seq<MethodDecl>, build: (MethodDecl, OperationContractAttribute) -> Result<D>,
                          key: D -> Option<string>): (r: Result<map<string, D>>)
    ensures Operations(methods) == [] ==> r == Ok(map[])
    ensures r.Ok? ==> |r.value| <= |Operations(methods)|
  {
    if methods == [] then Ok(map[])
    else
      match ActionTable(methods[..|methods| - 1], build, key)
      case Err(e) => Err(e)
      case Ok(table) => AddMethod(table, methods[|methods| - 1], build, key)
  }

  function AddMethod<D>(table: map<string, D>, m: MethodDecl, build: (MethodDecl, OperationContractAttribute) -> Result<D>,
                        key: D -> Option<string>): (r: Result<map<string, D>>)
    ensures m.operationContract.None? ==> r == Ok(table)
    ensures r.Ok? && m.operationContract.Some? ==>
              OperationKey(m, build, key).Some? && OperationKey(m, build, key).value !in table &&
              r.value.Keys == table.Keys + {OperationKey(m, build, key).value}
    ensures m.operationContract.Some? && OperationKey(m, build, key).None? ==> r.Err?
  {
    match m.operationContract
    case None => Ok(table)
    case Some(attribute) =>
      match build(m, attribute)
      case Err(e) => Err(e)
      case Ok(d) => Add(table, key(d), d)
  }

  /** The loop of the resolver constructor. */
  method BuildTable<D>(methods: seq<MethodDecl>, build: (MethodDecl, OperationContractAttribute) -> Result<D>,
                       key: D -> Option<string>) returns (r: Result<map<string, D>>)
    ensures r == ActionTable(methods, build, key)
  {
    var table: map<string, D> := map[];
    for i := 0 to |methods|
      invariant ActionTable(methods[..i], build, key) == Ok(table)
    {
      assert methods[..i + 1][..i] == methods[..i];
      var next := AddMethod(table, methods[i], build, key);
      if next.Err? {
        r := Err(next.error);
        assert methods[..i + 1][..i] == methods[..i];
        ActionTableFailurePersists(methods, i + 1, build, key);
        assert methods[..|methods|] == methods;
        return;
      }
      table := next.value;
    }
    assert methods[..|methods|] == methods;
    r := Ok(table);
  }

  lemma {:induction false} ActionTableFailurePersists<D>(methods: seq<MethodDecl>, i: nat,
      build: (MethodDecl, OperationContractAttribute) -> Result<D>, key: D -> Option<string>)
    requires i <= |methods|
    requires ActionTable(methods[..i], build, key).Err?
    ensures ActionTable(methods, build, key) == ActionTable(methods[..i], build, key)
    decreases |methods| - i
  {
    if i < |methods| {
      assert methods[..i + 1][..i] == methods[..i];
      ActionTableFailurePersists(methods, i + 1, build, key);
    } else {
      assert methods[..i] == methods;
    }
  }

  /** A built table holds one entry per operation, keyed by the operation's
      action name and mapping to the descriptor built for it; so its size is
      the number of operations and no two operations share an action name. */
  lemma {:induction false} ActionTableContents<D>(methods: seq<MethodDecl>,
      build: (MethodDecl, OperationContractAttribute) -> Result<D>, key: D -> Option<string>)
    requires ActionTable(methods, build, key).Ok?
    ensures var table := ActionTable(methods, build, key).value;
            |table| == |Operations(methods)| &&
            (forall m :: m in methods && m.operationContract.Some? ==>
               build(m, m.operationContract.value).Ok? &&
               var d := build(m, m.operationContract.value).value;
               key(d).Some? && key(d).value in table && table[key(d).value] == d) &&
            (forall k :: k in table ==>
               exists m :: m in methods && m.operationContract.Some? &&
                 build(m, m.operationContract.value) == Ok(table[k]) && key(table[k]) == Some(k))
  {
    if methods != [] {
      var init := methods[..|methods| - 1];
      var last := methods[|methods| - 1];
      assert methods == init + [last];
      var prev := ActionTable(init, build, key);
      assert prev.Ok?;
      ActionTableContents(init, build, key);
      var table := ActionTable(methods, build, key).value;
      if last.operationContract.Some? {
        var d := build(last, last.operationContract.value).value;
        assert table == prev.value[key(d).value := d];
        forall m | m in methods && m.operationContract.Some?
          ensures build(m, m.operationContract.value).Ok? &&
                  var e := build(m, m.operationContract.value).value;
                  key(e).Some? && key(e).value in table && table[key(e).value] == e
        {
          if m != last {
            assert m in init;
            var e := build(m, m.operationContract.value).value;
            assert key(e).value in prev.value;
            assert key(e).value != key(d).value;
          }
        }
      } else {
        assert Operations(methods) == Operations(init);
      }
    }
  }

  /** The table fails when two operations share an action name. */
  lemma {:induction false} ActionTableFailure<D>(methods: seq<MethodDecl>,
      build: (MethodDecl, OperationContractAttribute) -> Result<D>, key: D -> Option<string>,
      i: nat, j: nat)
    requires 0 <= i < j < |methods|
    requires methods[i].operationContract.Some? && methods[j].operationContract.Some?
    requires build(methods[i], methods[i].operationContract.value).Ok?
    requires build(methods[j], methods[j].operationContract.value).Ok?
    requires key(build(methods[i], methods[i].operationContract.value).value) ==
             key(build(methods[j], methods[j].operationContract.value).value)
    ensures ActionTable(methods, build, key).Err?
    decreases |methods|
  {
    var init := methods[..|methods| - 1];
    if j < |methods| - 1 {
      ActionTableFailure(init, build, key, i, j);
      ActionTableFailurePersists(methods, |methods| - 1, build, key);
    } else if ActionTable(init, build, key).Ok? {
      ActionTableContents(init, build, key);
      assert methods[i] in init;
    }
  }

  /** Conversely, the table is built when every operation's descriptor
      builds with a non-null action name and no two operations share one. */
  lemma {:induction false} ActionTableBuilds<D>(methods: seq<MethodDecl>,
      build: (MethodDecl, OperationContractAttribute) -> Result<D>, key: D -> Option<string>)
    requires forall m :: m in methods && m.operationContract.Some? ==> OperationKey(m, build, key).Some?
    requires forall i, j :: 0 <= i < j < |methods| && methods[i].operationContract.Some? && methods[j].operationContract.Some? ==>
               OperationKey(methods[i], build, key) != OperationKey(methods[j], build, key)
    ensures ActionTable(methods, build, key).Ok?
    decreases |methods|
  {
    if methods != [] {
      var n := |methods| - 1;
      var init := methods[..n];
      var last := methods[n];
      assert forall i :: 0 <= i < n ==> init[i] == methods[i];
      ActionTableBuilds(init, build, key);
      if last.operationContract.Some? {
        ActionTableContents(init, build, key);
        assert OperationKey(last, build, key).value !in ActionTable(init, build, key).value;
      }
    }
  }

  // ---------------------------------------------------------------------
  // The resolver

  datatype WcfMethodResolver = WcfMethodResolver(table: map<string, WcfMethodInfo>)

  function BuildDescriptor(m: MethodDecl, attribute: OperationContractAttribute): Result<WcfMethodInfo> {
    Ok(NewMethodInfo(m, attribute))
  }

  function DescriptorKey(d: WcfMethodInfo): Option<string> {
    d.soapActionName
  }

  /** The resolver of a service type, as its constructor computes it. */
  function ResolverFor(t: Type): (r: Result<WcfMethodResolver>)
    ensures FindContract(t).None? ==> r == Err(Argument(NoContractMessage(t)))
    ensures r.Ok? ==> FindContract(t).Some? && |r.value.table| <= |Operations(MethodsOf(FindContract(t).value))|
  {
    match FindContract(t)
    case None => Err(Argument(NoContractMessage(t)))
    case Some(contract) =>
      match ActionTable(MethodsOf(contract), BuildDescriptor, DescriptorKey)
      case Err(e) => Err(e)
      case Ok(table) => Ok(WcfMethodResolver(table))
  }

  /** The constructor: refuses a type without a service contract, then adds
      every operation of the contract to the table. */
  method NewResolver(t: Type) returns (r: Result<WcfMethodResolver>)
    ensures r == ResolverFor(t)
    ensures FindContract(t).None? ==> r.Err? && r.error.Argument?
  {
    var contract := FindContract(t);
    if contract.None? {
      return Err(Argument(NoContractMessage(t)));
    }
    var table := BuildTable(MethodsOf(contract.value), BuildDescriptor, DescriptorKey);
    if table.Err? {
      return Err(table.error);
    }
    r := Ok(WcfMethodResolver(table.value));
  }

  /** `TryResolve`: exact-key lookup. */
  function TryResolve(resolver: WcfMethodResolver, soapAction: string): (r: Option<WcfMethodInfo>)
    ensures r.Some? <==> soapAction in resolver.table
    ensures r.Some? ==> r.value == resolver.table[soapAction]
  {
    if soapAction in resolver.table then Some(resolver.table[soapAction]) else None
  }

  /** `ServiceMethodCount`: the number of entries in the table. */
  function ServiceMethodCount(resolver: WcfMethodResolver): (r: nat)
    ensures r == 0 <==> forall a :: TryResolve(resolver, a).None?
  {
    if |resolver.table.Keys| == 0 then
      assert forall a :: a !in resolver.table.Keys;
      0
    else
      var a :| a in resolver.table.Keys;
      assert TryResolve(resolver, a).Some?;
      |resolver.table|
  }

  /** A constructed resolver counts one method per operation of the contract,
      and resolves each operation's action name to that operation's descriptor. */
  lemma ResolverContents(t: Type)
    requires ResolverFor(t).Ok?
    ensures FindContract(t).Some?
    ensures var contract := FindContract(t).value;
            var resolver := ResolverFor(t).value;
            ServiceMethodCount(resolver) == |Operations(MethodsOf(contract))| &&
            forall m :: m in MethodsOf(contract) && m.operationContract.Some? ==>
              var d := NewMethodInfo(m, m.operationContract.value);
              d.soapActionName.Some? && TryResolve(resolver, d.soapActionName.value) == Some(d)
  {
    var contract := FindContract(t).value;
    ActionTableContents(MethodsOf(contract), BuildDescriptor, DescriptorKey);
  }
}
