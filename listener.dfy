/** `Listener<T>`: the HTTP front of a SOAP service. It owns the resolver of
    the service's operations and an HTTP listener with its prefixes; each
    request is resolved by its `soapAction` header, its body is read when the
    operation takes a request message, and the operation is invoked. */
module Listener {
  import opened Base
  import opened Metadata
  import opened Xml
  import MethodInfo
  import MethodResolver
  import SoapSerializer
  import ReaderExtensions
  import Wcf = WcfSerializer
  import HttpExtensions

  /** An HTTP request: its headers and the reader nodes of its body. */
  datatype Request = Request(headers: map<string, string>, body: seq<Node>)

  /** What `GetContextAsync` hands over: the request and its response. */
  datatype Context = Context(request: Request, response: HttpExtensions.Response)

  /** The service object: what invoking one of its operations returns, or
      the exception the invocation throws. */
  type Service = MethodInfo.Invocation -> Result<Value>

  const SoapActionHeader := "soapAction"
  const DefaultInvalidOperation := "Operation is not valid due to the current state of the object."
  const ListenerDisposed := "Cannot access a disposed object.\nObject name: 'Listener'."
  const HttpListenerDisposed := "Cannot access a disposed object.\nObject name: 'System.Net.HttpListener'."

  const SchemeError := "Only Uri prefixes starting with 'http://' or 'https://' are supported. (Parameter 'uriPrefix')"
  const HostError := "Only Uri prefixes with a valid hostname are supported. (Parameter 'uriPrefix')"
  const SlashError := "Only Uri prefixes ending in '/' are allowed. (Parameter 'uriPrefix')"

  // ---------------------------------------------------------------------
  // Prefix registration (`HttpListener.Prefixes.Add`)

  function LowerAscii(c: char): char {
    if 'A' <= c <= 'Z' then (c as int + 32) as char else c
  }

  /** `string.Compare(s, 0, scheme, 0, |scheme|, OrdinalIgnoreCase) == 0`. */
  predicate StartsWithIgnoringCase(s: string, scheme: string) {
    |scheme| <= |s| && forall k :: 0 <= k < |scheme| ==> LowerAscii(s[k]) == LowerAscii(scheme[k])
  }

  /** Where the host of a prefix ends: the scan stops at a '/', or at a ':'
      outside square brackets; a '[' inside brackets makes the host invalid
      (None). */
  function HostEnd(s: string, j: nat, inBrackets: bool): (r: Option<nat>)
    requires j <= |s|
    ensures r.Some? ==> j <= r.value <= |s|
    ensures r.Some? && r.value < |s| ==> s[r.value] == '/' || s[r.value] == ':'
    ensures r.Some? ==> forall k :: j <= k < r.value ==> s[k] != '/'
    ensures !inBrackets && (forall k :: j <= k < |s| ==> s[k] != '[') ==>
              r.Some? && forall k :: j <= k < r.value ==> s[k] != ':'
    decreases |s| - j
  {
    if j < |s| && s[j] != '/' && (s[j] != ':' || inBrackets) then
      if s[j] == '[' && inBrackets then None
      else
        var inside := inBrackets || s[j] == '[';
        HostEnd(s, j + 1, inside && s[j] != ']')
    else Some(j)
  }

  /** The `ArgumentException` that `HttpListener.Prefixes.Add` throws for a
      prefix, checked in this order: the scheme must be http or https (in
      any case), a host must follow it, and the prefix must end in '/'. */
  function PrefixError(prefix: string): (r: Option<Exception>)
    ensures !StartsWithIgnoringCase(prefix, "http://") && !StartsWithIgnoringCase(prefix, "https://") ==>
              r == Some(Argument(SchemeError))
    ensures r.None? ==> 0 < |prefix| && prefix[|prefix| - 1] == '/'
    ensures r.Some? ==> r.value in {Argument(SchemeError), Argument(HostError), Argument(SlashError)}
  {
    var start := if StartsWithIgnoringCase(prefix, "http://") then 7
                 else if StartsWithIgnoringCase(prefix, "https://") then 8
                 else 0;
    if start == 0 then Some(Argument(SchemeError))
    else
      var hostEnd := HostEnd(prefix, start, false);
      if hostEnd.None? || hostEnd.value == start then Some(Argument(HostError))
      else if prefix[|prefix| - 1] != '/' then Some(Argument(SlashError))
      else None
  }

  /** The error of the first prefix in `prefixes` that is refused. */
  function FirstPrefixError(prefixes: seq<string>): (r: Option<Exception>)
    ensures r.Some? ==> exists k :: 0 <= k < |prefixes| && PrefixError(prefixes[k]) == r
    decreases |prefixes|
  {
    if prefixes == [] then None
    else if PrefixError(prefixes[0]).Some? then PrefixError(prefixes[0])
    else FirstPrefixError(prefixes[1..])
  }

  /** The first refused prefix of a concatenation is the first one of its
      front part, or else of its back part. */
  lemma {:induction false} FirstPrefixErrorAppend(a: seq<string>, b: seq<string>)
    ensures FirstPrefixError(a + b) == if FirstPrefixError(a).Some? then FirstPrefixError(a) else FirstPrefixError(b)
    decreases |a|
  {
    if a != [] {
      assert (a + b)[0] == a[0];
      assert (a + b)[1..] == a[1..] + b;
      FirstPrefixErrorAppend(a[1..], b);
    } else {
      assert a + b == b;
    }
  }

  /** No prefix is refused exactly when each one is accepted on its own. */
  lemma {:induction false} FirstPrefixErrorNone(prefixes: seq<string>)
    ensures FirstPrefixError(prefixes).None? <==> forall k :: 0 <= k < |prefixes| ==> PrefixError(prefixes[k]).None?
    decreases |prefixes|
  {
    if prefixes != [] {
      FirstPrefixErrorNone(prefixes[1..]);
      assert forall k :: 1 <= k < |prefixes| ==> prefixes[k] == prefixes[1..][k - 1];
    }
  }

  /** A prefix without a scheme is refused. */
  lemma SchemelessPrefixRefused()
    ensures PrefixError("host:80/") == Some(Argument(SchemeError))
  {
    assert LowerAscii("host:80/"[1]) != LowerAscii("http://"[1]);
    assert LowerAscii("host:80/"[1]) != LowerAscii("https://"[1]);
  }

  /** A prefix without the trailing '/' is refused. */
  lemma UnterminatedPrefixRefused()
    ensures PrefixError("http://h:80") == Some(Argument(SlashError))
  {
    assert StartsWithIgnoringCase("http://h:80", "http://");
    assert HostEnd("http://h:80", 8, false) == Some(8);
  }

  /** A prefix whose host is empty is refused. */
  lemma HostlessPrefixRefused()
    ensures PrefixError("http:///") == Some(Argument(HostError))
  {
    assert StartsWithIgnoringCase("http:///", "http://");
  }

  /** A well-formed prefix is accepted, whatever the case of its scheme. */
  lemma PrefixAccepted()
    ensures PrefixError("HTTP://h:80/").None?
  {
    assert StartsWithIgnoringCase("HTTP://h:80/", "http://");
    assert HostEnd("HTTP://h:80/", 8, false) == Some(8);
  }

  /** `ResolveSoapAction`: the operation named by the `soapAction` header, or
      an `InvalidOperationException` when the header is missing or names no
      operation. */
  function ResolveSoapAction(resolver: MethodResolver.WcfMethodResolver, headers: map<string, string>)
    : (r: Result<MethodInfo.WcfMethodInfo>)
    ensures SoapActionHeader !in headers ==> r == Err(InvalidOperation("Soap message does not contain a soapAction."))
    ensures SoapActionHeader in headers && headers[SoapActionHeader] !in resolver.table ==>
              r == Err(InvalidOperation("Could not resolve the SoapAction: " + headers[SoapActionHeader] + "."))
    ensures r.Ok? <==> SoapActionHeader in headers && headers[SoapActionHeader] in resolver.table
    ensures r.Ok? ==> r.value == resolver.table[headers[SoapActionHeader]]
  {
    if SoapActionHeader !in headers then Err(InvalidOperation("Soap message does not contain a soapAction."))
    else
      var targetMethod := headers[SoapActionHeader];
      match MethodResolver.TryResolve(resolver, targetMethod)
      case None => Err(InvalidOperation("Could not resolve the SoapAction: " + targetMethod + "."))
      case Some(methodInfo) => Ok(methodInfo)
  }

  /** `HandleRequest`: with a parameter type, the body is read as that type
      and the operation invoked with it, a null result being refused;
      without one, the operation is invoked with no argument and the body is
      not read. */
  function HandleRequest(request: Request, methodInfo: MethodInfo.WcfMethodInfo, service: Service): (r: Result<Value>)
    ensures !MethodInfo.HasParameters(methodInfo) ==> r == service(MethodInfo.InvokeWithoutArgument(methodInfo))
    ensures MethodInfo.HasParameters(methodInfo) ==>
              var read := SoapSerializer.Decoded(request.body, methodInfo.request.value.messageType);
              (read.Err? ==> r == Err(read.error)) &&
              (read == Ok(Null) ==> r == Err(InvalidOperation("Could not deserialize Soap message."))) &&
              (read.Ok? && read.value != Null ==>
                 r == service(MethodInfo.Invocation(methodInfo.decl, [Created(methodInfo.request.value.messageType, read.value)],
                                                    methodInfo.isAsync)))
  {
    var (hasType, parameterType) := MethodInfo.TryGetParameterType(methodInfo);
    if hasType then
      match SoapSerializer.Decoded(request.body, parameterType.value)
      case Err(e) => Err(e)
      case Ok(obj) =>
        if obj == Null then Err(InvalidOperation("Could not deserialize Soap message."))
        else
          match MethodInfo.InvokeWithArgument(methodInfo, obj)
          case Err(e) => Err(e)
          case Ok(invocation) => service(invocation)
    else service(MethodInfo.InvokeWithoutArgument(methodInfo))
  }

  /** The outcome of one request: resolving its action, then handling it. */
  function RequestOutcome(resolver: MethodResolver.WcfMethodResolver, request: Request, service: Service): (r: Result<Value>)
    ensures ResolveSoapAction(resolver, request.headers).Err? ==> r == Err(ResolveSoapAction(resolver, request.headers).error)
    ensures r.Ok? ==> SoapActionHeader in request.headers && request.headers[SoapActionHeader] in resolver.table
    ensures ResolveSoapAction(resolver, request.headers).Ok? ==>
              r == HandleRequest(request, resolver.table[request.headers[SoapActionHeader]], service)
  {
    match ResolveSoapAction(resolver, request.headers)
    case Err(e) => Err(e)
    case Ok(methodInfo) => HandleRequest(request, methodInfo, service)
  }

  /** A request for an operation without parameters has the same outcome
      whatever its body holds. */
  lemma {:induction false} ParameterlessIgnoresBody(resolver: MethodResolver.WcfMethodResolver, headers: map<string, string>,
                                                    body1: seq<Node>, body2: seq<Node>, service: Service)
    requires ResolveSoapAction(resolver, headers).Ok?
    requires !MethodInfo.HasParameters(ResolveSoapAction(resolver, headers).value)
    ensures RequestOutcome(resolver, Request(headers, body1), service) == RequestOutcome(resolver, Request(headers, body2), service)
  {
  }

  /** A request for an operation that takes a request message, whose body
      holds no SOAP `Body`, fails with the serializer's missing-body error
      and the operation is not invoked. */
  lemma BodylessRequestRefused(resolver: MethodResolver.WcfMethodResolver, request: Request, service: Service)
    requires ResolveSoapAction(resolver, request.headers).Ok?
    requires MethodInfo.HasParameters(ResolveSoapAction(resolver, request.headers).value)
    requires forall k :: 0 <= k < |request.body| ==> !ReaderExtensions.IsSoapBody(request.body[k])
    ensures RequestOutcome(resolver, request, service) == Err(InvalidData(Wcf.NoBodyMessage))
  {
  }

  /** The updates that the listener's own `RespondWithEmpty` makes: the
      headers are cleared first. */
  function ListenerEmptyTrace(statusCode: int): (r: seq<HttpExtensions.ResponseEvent>)
    ensures HttpExtensions.ClosedLast(r) && r[0] == HttpExtensions.HeadersCleared
    ensures HttpExtensions.StatusSet(statusCode) in r && HttpExtensions.ContentLengthSet(0) in r
    ensures HttpExtensions.ChunkedSet(false) in r
  {
    var r := [HttpExtensions.HeadersCleared, HttpExtensions.ChunkedSet(false), HttpExtensions.StatusSet(statusCode),
              HttpExtensions.ContentLengthSet(0), HttpExtensions.Closed];
    assert r[2].StatusSet?;
    r
  }

  /** The listener's `RespondWithMessage`: its body is empty. */
  method RespondWithMessage(response: HttpExtensions.Response, responseMessage: Value, methodInfo: MethodInfo.WcfMethodInfo)
    ensures unchanged(response)
  {
  }

  /** The listener's `RespondWithException`: its body is empty. */
  method RespondWithException(response: HttpExtensions.Response, exception: Exception)
    ensures unchanged(response)
  {
  }

  /** The listener's `RespondWithEmpty(response, statusCode = OK)`. */
  method RespondWithEmpty(response: HttpExtensions.Response, statusCode: int := HttpExtensions.StatusOK)
    modifies response
    ensures response.trace == old(response.trace) + ListenerEmptyTrace(statusCode)
    ensures response.headers == map[] && !response.sendChunked && response.statusCode == statusCode
    ensures response.contentLength64 == 0 && response.closed && response.output == old(response.output)
  {
    response.ClearHeaders();
    response.SetSendChunked(false);
    response.SetStatusCode(statusCode);
    response.SetContentLength64(0);
    response.Close();
  }

  /** What `DoWork` adds to the trace of the k-th response: the empty answer
      when its request succeeded, nothing when it failed or never came. */
  function Answered(outcomes: seq<Result<Value>>, k: nat): (r: seq<HttpExtensions.ResponseEvent>)
    ensures k < |outcomes| && outcomes[k].Ok? ==> r == ListenerEmptyTrace(HttpExtensions.StatusOK)
    ensures (k >= |outcomes| || outcomes[k].Err?) ==> r == []
  {
    if k < |outcomes| && outcomes[k].Ok? then ListenerEmptyTrace(HttpExtensions.StatusOK) else []
  }

  predicate DistinctResponses(contexts: seq<Context>) {
    forall i, j :: 0 <= i < j < |contexts| ==> contexts[i].response != contexts[j].response
  }

  class Listener {
    /** `m_prefixes`. */
    var prefixes: seq<string>
    /** `m_listener.Prefixes`: the keys of a hash table, so a prefix added
        twice is held once and the order is not kept. */
    var registered: set<string>
    var resolver: MethodResolver.WcfMethodResolver
    /** `m_listener.IsListening`. */
    var listening: bool
    /** Whether `m_listener` has been closed. */
    var listenerClosed: bool
    var isDisposed: bool

    /** The constructor up to the prefix loop, once the resolver has been
        built: a new HTTP listener has no prefixes yet. */
    constructor (uriPrefixes: seq<string>, resolver: MethodResolver.WcfMethodResolver)
      ensures prefixes == uriPrefixes && registered == {} && this.resolver == resolver
      ensures !listening && !listenerClosed && !isDisposed
    {
      prefixes := uriPrefixes;
      registered := {};
      this.resolver := resolver;
      listening := false;
      listenerClosed := false;
      isDisposed := false;
    }

    /** `m_listener.Prefixes.Add(prefix)`: refuses a malformed prefix with
        `PrefixError`, otherwise registers it. */
    method AddPrefix(prefix: string) returns (r: Base.Outcome)
      modifies this
      ensures PrefixError(prefix).Some? ==> r == Fail(PrefixError(prefix).value) && registered == old(registered)
      ensures PrefixError(prefix).None? ==> r == Pass && registered == old(registered) + {prefix}
      ensures prefixes == old(prefixes) && resolver == old(resolver) && listening == old(listening)
      ensures listenerClosed == old(listenerClosed) && isDisposed == old(isDisposed)
    {
      var error := PrefixError(prefix);
      if error.Some? {
        return Fail(error.value);
      }
      registered := registered + {prefix};
      r := Pass;
    }

    /** `Start`: refuses a listener that is listening, then a disposed one;
        otherwise starts listening. The background `DoWork` task is
        `DoWork` below. */
    method Start() returns (r: Base.Outcome)
      modifies this
      ensures old(listening) ==> r == Fail(InvalidOperation(DefaultInvalidOperation))
      ensures !old(listening) && old(isDisposed) ==> r == Fail(ObjectDisposed(ListenerDisposed))
      ensures r.Fail? ==> listening == old(listening)
      ensures r == Pass <==> !old(listening) && !old(isDisposed)
      ensures r == Pass ==> listening
      ensures prefixes == old(prefixes) && registered == old(registered) && resolver == old(resolver)
      ensures listenerClosed == old(listenerClosed) && isDisposed == old(isDisposed)
    {
      if listening {
        return Fail(InvalidOperation(DefaultInvalidOperation));
      }
      if isDisposed {
        return Fail(ObjectDisposed(ListenerDisposed));
      }
      listening := true;
      r := Pass;
    }

    /** `Stop`: stops the HTTP listener, which refuses once closed. */
    method Stop() returns (r: Base.Outcome)
      modifies this
      ensures old(listenerClosed) ==> r == Fail(ObjectDisposed(HttpListenerDisposed)) && listening == old(listening)
      ensures !old(listenerClosed) ==> r == Pass && !listening
      ensures prefixes == old(prefixes) && registered == old(registered) && resolver == old(resolver)
      ensures listenerClosed == old(listenerClosed) && isDisposed == old(isDisposed)
    {
      if listenerClosed {
        return Fail(ObjectDisposed(HttpListenerDisposed));
      }
      listening := false;
      r := Pass;
    }

    /** `Dispose(disposing)`: the first call stops and closes a listening
        HTTP listener and marks the listener disposed; later calls do
        nothing. */
    method Dispose(disposing: bool)
      modifies this
      ensures isDisposed
      ensures old(isDisposed) ==> listening == old(listening) && listenerClosed == old(listenerClosed)
      ensures !old(isDisposed) ==> !listening && listenerClosed == (old(listening) || old(listenerClosed))
      ensures !old(isDisposed) && !old(listening) ==> listenerClosed == old(listenerClosed)
      ensures prefixes == old(prefixes) && registered == old(registered) && resolver == old(resolver)
    {
      if !isDisposed {
        if listening {
          listening := false;
          listenerClosed := true;
        }
        isDisposed := true;
      }
    }

    /** One pass of the `DoWork` loop: a request that succeeds is answered
        empty with status 200; one that throws goes to the listener's
        `RespondWithException`, which writes nothing. */
    method ProcessRequest(context: Context, service: Service) returns (outcome: Result<Value>)
      modifies context.response
      ensures outcome == RequestOutcome(resolver, context.request, service)
      ensures outcome.Ok? ==> context.response.trace == old(context.response.trace) + ListenerEmptyTrace(HttpExtensions.StatusOK)
      ensures outcome.Err? ==> context.response.trace == old(context.response.trace)
    {
      var soapMethod := ResolveSoapAction(resolver, context.request.headers);
      if soapMethod.Err? {
        RespondWithException(context.response, soapMethod.error);
        return Err(soapMethod.error);
      }
      var response := HandleRequest(context.request, soapMethod.value, service);
      if response.Err? {
        RespondWithException(context.response, response.error);
        return Err(response.error);
      }
      RespondWithMessage(context.response, response.value, soapMethod.value);
      RespondWithEmpty(context.response);
      outcome := response;
    }

    /** `DoWork` over the requests that arrive while the listener listens.
        The end of the arrivals stands for the `HttpListenerException` that
        ends the loop when the listener is stopped. */
    method DoWork(contexts: seq<Context>, service: Service) returns (outcomes: seq<Result<Value>>)
      requires DistinctResponses(contexts)
      modifies set i | 0 <= i < |contexts| :: contexts[i].response
      ensures !listening ==> outcomes == []
      ensures listening ==> |outcomes| == |contexts|
      ensures forall i :: 0 <= i < |outcomes| ==> outcomes[i] == RequestOutcome(resolver, contexts[i].request, service)
      ensures forall i :: 0 <= i < |contexts| ==>
                contexts[i].response.trace == old(contexts[i].response.trace) + Answered(outcomes, i)
    {
      outcomes := [];
      var i := 0;
      while listening && i < |contexts|
        invariant 0 <= i <= |contexts| && |outcomes| == i
        invariant !listening ==> i == 0
        invariant forall k :: 0 <= k < i ==> outcomes[k] == RequestOutcome(resolver, contexts[k].request, service)
        invariant forall k :: 0 <= k < |contexts| ==>
                    contexts[k].response.trace == old(contexts[k].response.trace) + Answered(outcomes, k)
        decreases |contexts| - i
      {
        assert forall k :: 0 <= k < |contexts| && k != i ==> contexts[k].response != contexts[i].response;
        var outcome := ProcessRequest(contexts[i], service);
        outcomes := outcomes + [outcome];
        i := i + 1;
      }
    }
  }

  /** One more prefix after a run that refuses none: the run refuses what
      that prefix does, and a refusal there is the first of the whole list. */
  lemma FirstPrefixErrorStep(prefixes: seq<string>, i: nat)
    requires i < |prefixes| && FirstPrefixError(prefixes[..i]).None?
    ensures FirstPrefixError(prefixes[..i + 1]) == PrefixError(prefixes[i])
    ensures PrefixError(prefixes[i]).Some? ==> FirstPrefixError(prefixes) == PrefixError(prefixes[i])
  {
    var front, next, back := prefixes[..i], prefixes[i], prefixes[i..];
    assert prefixes[..i + 1] == front + [next];
    FirstPrefixErrorAppend(front, [next]);
    FirstPrefixErrorSingle(next);
    assert prefixes == front + back;
    FirstPrefixErrorAppend(front, back);
    assert back[0] == next;
    if PrefixError(next).Some? {
      FirstPrefixErrorHead(back);
    }
  }

  /** A list of one prefix is refused as that prefix is. */
  lemma FirstPrefixErrorSingle(prefix: string)
    ensures FirstPrefixError([prefix]) == PrefixError(prefix)
  {
    assert [prefix][1..] == [];
  }

  /** A refused first prefix is the first refusal of the list. */
  lemma FirstPrefixErrorHead(prefixes: seq<string>)
    requires prefixes != [] && PrefixError(prefixes[0]).Some?
    ensures FirstPrefixError(prefixes) == PrefixError(prefixes[0])
  {
  }

  /** `Listener(uriPrefixes, service)`: building the resolver throws for a
      service type without a valid contract; the prefix loop then throws at
      the first prefix the HTTP listener refuses. */
  method NewListener(uriPrefixes: seq<string>, serviceType: Type) returns (r: Result<Listener>)
    ensures MethodResolver.ResolverFor(serviceType).Err? ==> r == Err(MethodResolver.ResolverFor(serviceType).error)
    ensures MethodResolver.ResolverFor(serviceType).Ok? && FirstPrefixError(uriPrefixes).Some? ==>
              r == Err(FirstPrefixError(uriPrefixes).value)
    ensures r.Ok? <==> MethodResolver.ResolverFor(serviceType).Ok? && FirstPrefixError(uriPrefixes).None?
    ensures r.Ok? ==> fresh(r.value) && r.value.resolver == MethodResolver.ResolverFor(serviceType).value
    ensures r.Ok? ==> r.value.prefixes == uriPrefixes && r.value.registered == (set p | p in uriPrefixes)
    ensures r.Ok? ==> !r.value.listening && !r.value.listenerClosed && !r.value.isDisposed
  {
    var resolver := MethodResolver.NewResolver(serviceType);
    if resolver.Err? {
      return Err(resolver.error);
    }
    var listener := new Listener(uriPrefixes, resolver.value);
    for i := 0 to |uriPrefixes|
      invariant FirstPrefixError(uriPrefixes[..i]).None?
      invariant listener.registered == set p | p in uriPrefixes[..i]
      invariant listener.prefixes == uriPrefixes && listener.resolver == resolver.value
      invariant !listener.listening && !listener.listenerClosed && !listener.isDisposed
    {
      FirstPrefixErrorStep(uriPrefixes, i);
      var added := listener.AddPrefix(uriPrefixes[i]);
      if added.Fail? {
        return Err(added.error);
      }
      assert uriPrefixes[..i + 1] == uriPrefixes[..i] + [uriPrefixes[i]];
    }
    assert uriPrefixes[..|uriPrefixes|] == uriPrefixes;
    r := Ok(listener);
  }

  /** `Listener(prefix, service)`: a list of exactly that prefix. */
  method NewListenerForPrefix(prefix: string, serviceType: Type) returns (r: Result<Listener>)
    ensures MethodResolver.ResolverFor(serviceType).Err? ==> r == Err(MethodResolver.ResolverFor(serviceType).error)
    ensures MethodResolver.ResolverFor(serviceType).Ok? && PrefixError(prefix).Some? ==> r == Err(PrefixError(prefix).value)
    ensures r.Ok? <==> MethodResolver.ResolverFor(serviceType).Ok? && PrefixError(prefix).None?
    ensures r.Ok? ==> fresh(r.value) && r.value.prefixes == [prefix] && r.value.registered == {prefix}
  {
    assert [prefix][1..] == [];
    r := NewListener([prefix], serviceType);
  }
}
