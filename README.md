# SoapHttp core in Dafny

SoapHttp serves a .NET service object over HTTP as a SOAP 1.1 endpoint. A
request's `soapAction` header selects an operation of the service contract.
The request body is read out of its SOAP envelope and the operation invoked.
The project models the core of that path:

- the envelope codec: `XmlReaderExtensions`, `XmlWriterExtensions`,
  `WcfSerializer` and the older `SoapSerializer`;
- the descriptors derived from metadata: `WcfMessageInfo`, `WcfMemberInfo`,
  `WcfFieldInfo`, `WcfMethodInfo` and the older `WcfMethodInfo` of
  `TypeResolver.cs`;
- the action tables: `WcfMethodResolver` and `TypeResolver`;
- the HTTP side: `HttpListenerExtensions` and `Listener`.

Modelling choices:

- **Reader.** An XML input is a sequence of reader nodes: elements with
  namespace, local name and `xsi:nil`, end elements, text and whitespace. A
  reader is a cursor `pos`, the number of nodes read, so the current node is
  `nodes[pos - 1]`. `ReadAsync` is `Xml.Read`. The reader loops are methods
  with `while` loops, each proved equal to a function that states the scan.
- **Writer.** An `XmlWriter` is a class whose token buffer its methods
  append to. A document is a token sequence, and `Render` turns tokens into
  the nodes a reader sees, so what is written can be read back.
- **`XmlSerializer`.** It is opaque. `Serialize` emits one `Serialized`
  token: an element with the given name and namespace holding the value.
  `Deserialize` (`Metadata.XmlDeserialize`) consumes one element's subtree
  into a `Deserialized` value. It leaves the reader on the node after the
  subtree, so the loop's next `ReadAsync` steps over that node. An element
  that is never closed makes it throw the `InvalidOperationException` in
  which the serializer wraps the reader's `XmlException`.
- **Reflection.** Attributes, fields, properties, methods and interfaces are
  explicit metadata datatypes (`Metadata`). Run-time values are `Value`:
  records keyed by member name, null, and created or deserialized objects.
  `MethodInfo.Invoke` is a function parameter of type
  `Invocation -> Result<Value>` standing for the service.
- **Exceptions.** A thrown exception is an `Err` of the `Base.Exception`
  datatype. It keeps the .NET exception type and the message the source
  gives.
- **Source snapshots.** Each file's own text is modelled, including quirks
  of files that do not compile together (see "Where the code and the design
  disagree").

## Model

| member | source | states |
|---|---|---|
| Xml.Read | SoapHttp/Serialization/XmlReaderExtensions.cs:9 | `ReadAsync` succeeds iff a node is left; the cursor then moves by exactly one node, and otherwise stays |
| Xml.FirstFrom | SoapHttp/Serialization/XmlReaderExtensions.cs:9-15 | the first node at or after the cursor satisfying a test, with every node before it failing the test; none exactly when no later node passes |
| Xml.ReadContent | SoapHttp/Serialization/WcfSerializer.cs:185-186 | `ReadContentAsString` fails exactly when the reader is not on a node or is on an element; otherwise the cursor ends within the input |
| Xml.MatchingEnd | SoapHttp/Serialization/WcfSerializer.cs:138 | the end element closing the current element: the nesting depth stays at least one up to it and drops to zero on it; none exactly when the input ends with the element still open |
| Metadata.FullTypeName | SoapHttp/Reflection/WcfMethodResolver.cs:16 | `Type.ToString()`: a class name prefixed by its namespace and a dot, when it has one; `Task<T>` as ``System.Threading.Tasks.Task`1`` with the full name of T in brackets |
| Metadata.DefaultInstance | SoapHttp/Reflection/WcfMessageInfo.cs:35 | the instance built by the empty constructor is a record with every member of the type, all null |
| Metadata.XmlDeserialize | SoapHttp/Serialization/WcfSerializer.cs:138 | `XmlSerializer.Deserialize` on an element moves the cursor past it, yields null exactly for an `xsi:nil` element, and fails exactly when the element is never closed, with the `InvalidOperationException` "There is an error in XML document." that wraps the reader's `XmlException` |
| ReaderExtensions.NextElement | SoapHttp/Serialization/XmlReaderExtensions.cs:7-16 | true only on an element in the SOAP envelope namespace, with every node skipped outside it; false exactly when none remains, with the cursor at the end of input |
| ReaderExtensions.TryMoveToNextElement | SoapHttp/Serialization/XmlReaderExtensions.cs:7-16 | the read loop stops where `NextElement` says |
| ReaderExtensions.BodyElement | SoapHttp/Serialization/XmlReaderExtensions.cs:31-40 | stops on the first SOAP `Body`, skipping other SOAP elements; false with the cursor at the end when there is none; no envelope is required |
| ReaderExtensions.TryMoveToBody | SoapHttp/Serialization/XmlReaderExtensions.cs:31-40 | the loop over `TryMoveToNextElement` stops where `BodyElement` says |
| ReaderExtensions.HeaderElement | SoapHttp/Serialization/XmlReaderExtensions.cs:18-29 | true on the first SOAP `Header`; false on a SOAP `Body` that comes first, or at the end of input; other SOAP elements are skipped |
| ReaderExtensions.TryMoveToHeader | SoapHttp/Serialization/XmlReaderExtensions.cs:18-29 | the loop stops where `HeaderElement` says |
| ReaderExtensions.FirstFromIsOrSkip | SoapHttp/Serialization/XmlReaderExtensions.cs:9-13 | one read step: the node under the cursor is the match, or the search continues after it |
| ReaderExtensions.BodyAfterFailedHeader | SoapHttp/Serialization/XmlReaderExtensions.cs:18-40 | a header search that fails on a `Body` leaves the reader on it, and a body search from there no longer finds that `Body` |
| ReaderExtensions.BodyAfterHeader | SoapHttp/Serialization/XmlReaderExtensions.cs:18-40 | after a successful header search, the body search finds the same `Body` as one from the start |
| ReaderExtensions.BodyFoundIff | SoapHttp/Serialization/XmlReaderExtensions.cs:31-40 | the body search succeeds iff a SOAP `Body` exists after the cursor |
| WriterExtensions.XmlWriter.WriteStartElement | SoapHttp/Serialization/XmlWriterExtensions.cs:17 | appends one start token with the given prefix, name and namespace |
| WriterExtensions.XmlWriter.WriteAttributeString | SoapHttp/Serialization/XmlWriterExtensions.cs:26-31 | appends one attribute token |
| WriterExtensions.XmlWriter.WriteEndElement | SoapHttp/Serialization/XmlWriterExtensions.cs:20 | appends one end token |
| WriterExtensions.XmlWriter.WriteElementString | SoapHttp/Serialization/SoapSerializer.cs:55-56 | appends a start token, the text and an end token |
| WriterExtensions.XmlWriter.Serialize | SoapHttp/Serialization/WcfSerializer.cs:60-69 | `XmlSerializer.Serialize` with a root override appends one opaque element with that name and namespace |
| WriterExtensions.Dispose | SoapHttp/Serialization/XmlWriterExtensions.cs:58-71 | disposing the `SelfClosingElement` appends exactly one end token to its writer |
| WriterExtensions.WriteEnvelope | SoapHttp/Serialization/XmlWriterExtensions.cs:10-13 | appends the `Envelope` start element in the SOAP namespace with the prefix, and returns a handle on the same writer |
| WriterExtensions.WriteHeader | SoapHttp/Serialization/XmlWriterExtensions.cs:15-21 | appends an empty `Header` and ignores the header data |
| WriterExtensions.HeaderTokens | SoapHttp/Serialization/XmlWriterExtensions.cs:15-21 | the header tokens balance |
| WriterExtensions.BodyAttributes | SoapHttp/Serialization/XmlWriterExtensions.cs:26-38 | the `xmlns:xsi` and `xmlns:xsd` declarations are two attribute tokens |
| WriterExtensions.BodyTokens | SoapHttp/Serialization/XmlWriterExtensions.cs:23-44 | the body opens with the `Body` start and closes with one end token, holding four tokens beyond the callback's (which count only when there is a callback) |
| WriterExtensions.WriteBody | SoapHttp/Serialization/XmlWriterExtensions.cs:23-44 | appends `BodyTokens`, running the callback only when it is present |
| WriterExtensions.BodyTokensBalanced | SoapHttp/Serialization/XmlWriterExtensions.cs:23-44 | the body's tokens balance, given a balanced callback |
| WriterExtensions.WriteFault | SoapHttp/Serialization/XmlWriterExtensions.cs:46-49 | appends nothing |
| WriterExtensions.EnvelopeDocument | SoapHttp/Serialization/WcfSerializer.cs:32-42 | an envelope document is eight tokens plus the body's content |
| WriterExtensions.EnvelopeDocumentBalanced | SoapHttp/Serialization/WcfSerializer.cs:32-42 | an envelope document balances, given balanced body content |
| WriterExtensions.RenderHeader | SoapHttp/Serialization/XmlWriterExtensions.cs:15-21 | a reader sees the header as a `Header` element followed by its end |
| WriterExtensions.RenderBody | SoapHttp/Serialization/XmlWriterExtensions.cs:23-44 | a reader sees a `Body` element, the content and its end; the declarations produce no nodes |
| WriterExtensions.EnvelopeNodes | SoapHttp/Serialization/XmlWriterExtensions.cs:10-44 | a reader sees an envelope document as `Envelope`, `Header`, end, `Body`, the content, end, end |
| WcfSerializer.FieldTokens | SoapHttp/Serialization/WcfSerializer.cs:55-58 | one element per entry of `Fields`, in array order, named by that field's XML name and namespace and holding its value |
| WcfSerializer.BodyContentTokens | SoapHttp/Serialization/WcfSerializer.cs:44-70 | a null value writes nothing; a wrapped message writes one element with the message's name and namespace; an unwrapped one writes the field elements; the content has no open elements |
| WcfSerializer.MessageDocument | SoapHttp/Serialization/WcfSerializer.cs:32-42 | the envelope start, the header, then the `Body` start; eight tokens beyond the body content; the envelope's end last |
| WcfSerializer.ExceptionDocument | SoapHttp/Serialization/WcfSerializer.cs:78-83 | four tokens: the envelope start, an empty header and the envelope's end; no `Body` |
| WcfSerializer.SerializeBodyContent | SoapHttp/Serialization/WcfSerializer.cs:44-70 | the foreach appends exactly `BodyContentTokens` |
| WcfSerializer.DocumentsBalanced | SoapHttp/Serialization/WcfSerializer.cs:32-83 | message documents and exception documents balance |
| WcfSerializer.WcfSerializer.constructor | SoapHttp/Serialization/WcfSerializer.cs:24 | the prefix starts as "s" |
| WcfSerializer.WcfSerializer.InnerSerialize | SoapHttp/Serialization/WcfSerializer.cs:32-42 | envelope, empty header, body with the content, then the envelope end from disposing the handle |
| WcfSerializer.WcfSerializer.Serialize | SoapHttp/Serialization/WcfSerializer.cs:26-27 | the overload without a value writes an envelope whose body holds only the declarations |
| WcfSerializer.WcfSerializer.SerializeValue | SoapHttp/Serialization/WcfSerializer.cs:29-30 | the overload with a value writes the message document of that value |
| WcfSerializer.WcfSerializer.SerializeException | SoapHttp/Serialization/WcfSerializer.cs:72-83 | envelope, empty header and envelope end; the fault writer adds nothing |
| WcfSerializer.Fault | SoapHttp/Serialization/WcfSerializer.cs:176-194 | `HandleFault` fails only with `ProtocolViolationException`, or with the `InvalidOperationException` of `ReadContentAsString`; when it returns, the input is used up |
| WcfSerializer.HandleFault | SoapHttp/Serialization/WcfSerializer.cs:176-194 | the loop with its mutable fault code computes `Fault` |
| WcfSerializer.FaultWithCodeAndString | SoapHttp/Serialization/WcfSerializer.cs:184-191 | a fault code, then a fault string, gives "The following error was received: code: text" |
| WcfSerializer.FaultStringOnly | SoapHttp/Serialization/WcfSerializer.cs:189-191 | a fault string read before any fault code gives the message without a code part |
| WcfSerializer.FaultCodeAtEnd | SoapHttp/Serialization/WcfSerializer.cs:185-186 | a `faultcode` element with nothing after it fails in `ReadContentAsString` |
| WcfSerializer.Wrapped | SoapHttp/Serialization/WcfSerializer.cs:151-174 | wrapped decoding fails only with "Could not parse Soap message.", a fault's `ProtocolViolationException`, or an `InvalidOperationException` (unreadable content or an unclosed element) |
| WcfSerializer.DeserializeWrapped | SoapHttp/Serialization/WcfSerializer.cs:151-174 | the loop computes `Wrapped` |
| WcfSerializer.WrappedWithoutNamespaceFails | SoapHttp/Serialization/WcfSerializer.cs:162 | with a null message namespace no element ever matches, so wrapped decoding always fails |
| WcfSerializer.NonWrapped | SoapHttp/Serialization/WcfSerializer.cs:110-149 | unwrapped decoding of a record yields a record; it fails only with an index out of range, a fault or an `InvalidOperationException` |
| WcfSerializer.NonWrappedFrame | SoapHttp/Serialization/WcfSerializer.cs:110-149 | decoding from field `index` on changes only the members of the fields from `index` on: every other member keeps its value, and none is added or removed |
| WcfSerializer.DeserializeNonWrapped | SoapHttp/Serialization/WcfSerializer.cs:110-149 | the nested loops compute `NonWrapped`: the field index starts at 0 and never decreases; a field is set only when the element matches the field taken at the start of its scan, and the index then moves by one; a mismatch advances the index without refreshing `currentField` |
| WcfSerializer.ExhaustedFields | SoapHttp/Serialization/WcfSerializer.cs:114-119 | once the fields are used up, decoding succeeds exactly when no element follows; any element indexes `Fields` out of range |
| WcfSerializer.NoFieldsFailOnElement | SoapHttp/Serialization/WcfSerializer.cs:119 | a message without body members fails on any element in the body |
| WcfSerializer.Deserialize | SoapHttp/Serialization/WcfSerializer.cs:99-108 | no SOAP `Body` gives `InvalidDataException`; otherwise wrapped or unwrapped decoding from the `Body` |
| WcfSerializer.Decoded | SoapHttp/Serialization/WcfSerializer.cs:99-108 | no SOAP `Body`: the missing-body `InvalidDataException`; wrapped decoding fails only with that, "Could not parse Soap message.", a fault or an `InvalidOperationException`; unwrapped decoding fails only with the missing-body error, an index out of range, a fault or an `InvalidOperationException` |
| WcfSerializer.FaultOnlyBodyThrows | SoapHttp/Serialization/WcfSerializer.cs:99-195 | a body holding only a fault with a code and then a string throws "The following error was received: code: string", for a wrapped message and for an unwrapped one with body members; an unwrapped message without body members fails with an index out of range instead |
| WcfSerializer.BodyOfEnvelope | SoapHttp/Serialization/WcfSerializer.cs:101 | in an envelope, the body search stops on the `Body` of the envelope |
| WcfSerializer.ExceptionDocumentUnreadable | SoapHttp/Serialization/WcfSerializer.cs:72-108 | the document `SerializeException` writes has no `Body`, so decoding it fails with the missing-body error |
| WcfSerializer.EmptyBodyUnreadable | SoapHttp/Serialization/WcfSerializer.cs:153-173 | an empty body gives "Could not parse Soap message." in wrapped decoding |
| WcfSerializer.RootElementRead | SoapHttp/Serialization/WcfSerializer.cs:153-170 | the first element in the message namespace is deserialized under its own local name |
| WcfSerializer.WrappedRoundTrip | SoapHttp/Serialization/WcfSerializer.cs:32-174 | a wrapped message written with a namespace reads back as the deserialized root element; a null message reads back as "Could not parse Soap message." |
| WcfSerializer.WrappedWithoutNamespaceNoRoundTrip | SoapHttp/Serialization/WcfSerializer.cs:49-162 | a wrapped message without a namespace is written but cannot be read back |
| WcfSerializer.OneFieldRead | SoapHttp/Serialization/WcfSerializer.cs:110-149 | a body holding the element of a one-field message sets exactly that field |
| WcfSerializer.SingleFieldRoundTrip | SoapHttp/Serialization/WcfSerializer.cs:55-149 | a one-field unwrapped message reads back with its field set, null exactly when it was written null |
| WcfSerializer.UnexpectedElementExhaustsFields | SoapHttp/Serialization/WcfSerializer.cs:119-145 | an element that does not match the first field is not skipped: it uses the fields up, and the next element fails out of range |
| WcfSerializer.TwoFieldsRead | SoapHttp/Serialization/WcfSerializer.cs:114-141 | of two adjacent field elements only the first is read; the read after `Deserialize` steps over the second |
| WcfSerializer.WhitespaceSeparatedFieldsRead | SoapHttp/Serialization/WcfSerializer.cs:114-141 | two field elements separated by whitespace are both read, each into its own field |
| WcfSerializer.NestedSecondFieldOutOfRange | SoapHttp/Serialization/WcfSerializer.cs:114-145 | when the second of two adjacent fields holds two child elements, the first of which has a name other than the field's, decoding fails with an index out of range |
| WcfSerializer.SecondAdjacentFieldSkipped | SoapHttp/Serialization/WcfSerializer.cs:55-149 | a two-field unwrapped message, with values written without child elements, reads back with its first field and the second at its default |
| SoapSerializer.TextElementBalanced | SoapHttp/Serialization/SoapSerializer.cs:55-56 | `WriteElementString` writes a balanced element |
| SoapSerializer.FaultTokens | SoapHttp/Serialization/SoapSerializer.cs:54-57 | eight tokens: the `Fault` start, `faultcode` holding the exception's type name, `faultstring` holding its message, and the end |
| SoapSerializer.ExceptionDocument | SoapHttp/Serialization/SoapSerializer.cs:49-67 | the `Fault` element, then two end tokens, and no envelope start |
| SoapSerializer.ExceptionDocumentOverclosed | SoapHttp/Serialization/SoapSerializer.cs:49-67 | the fault element balances on its own; the two end tags after it close elements never opened, so the document's depth is -2 and already -1 at the first of them |
| SoapSerializer.SoapSerializer.constructor | SoapHttp/Serialization/SoapSerializer.cs:28-33 | the prefix starts as "s" |
| SoapSerializer.SoapSerializer.Serialize | SoapHttp/Serialization/SoapSerializer.cs:38-47 | envelope, header, body with the callback's tokens, then one envelope end element, in that order |
| SoapSerializer.SoapSerializer.SerializeEmpty | SoapHttp/Serialization/SoapSerializer.cs:35-36 | the overload without a value writes a body without a callback |
| SoapSerializer.SoapSerializer.SerializeException | SoapHttp/Serialization/SoapSerializer.cs:49-60 | a SOAP `Fault` holding `faultcode` with the exception's type name and `faultstring` with its message, in that order, then two end tags, with no envelope opened |
| SoapSerializer.WriteDocumentBottom | SoapHttp/Serialization/SoapSerializer.cs:63-67 | appends two end tokens |
| SoapSerializer.RootNamespace | SoapHttp/Serialization/SoapSerializer.cs:80-83 | the `XmlRoot` namespace when non-null, else the `XmlType` namespace, else null; it differs from `WcfMessageInfo.GetNamespace` iff `XmlRoot` has a null namespace and `XmlType` a non-null one |
| SoapSerializer.Decoded | SoapHttp/Serialization/SoapSerializer.cs:75-106 | decoding fails with the missing-body error iff the input holds no SOAP `Body` |
| SoapSerializer.Deserialize | SoapHttp/Serialization/SoapSerializer.cs:69-106 | the method computes `Decoded` |
| SoapSerializer.RootRoundTrip | SoapHttp/Serialization/SoapSerializer.cs:35-106 | a root element written in a type's root namespace reads back as that element deserialized under its own name |
| SoapSerializer.EmptyMessageUnreadable | SoapHttp/Serialization/SoapSerializer.cs:35-105 | the empty envelope reads back as "Could not parse Soap message." |
| SoapSerializer.NamespaceFallbackDiffers | SoapHttp/Serialization/SoapSerializer.cs:80-83 | for a type whose `XmlRoot` has a null namespace and whose `XmlType` has one, this codec reads back what the newer codec cannot |
| SoapSerializer.RenderExceptionDocument | SoapHttp/Serialization/SoapSerializer.cs:49-60 | a reader sees the fault document as `Fault`, `faultcode` text, `faultstring` text, then three end nodes |
| SoapSerializer.TextContent | SoapHttp/Serialization/SoapSerializer.cs:117-123 | `ReadContentAsString` inside a text element returns its text and stops on its end |
| SoapSerializer.FaultElementsRead | SoapHttp/Serialization/SoapSerializer.cs:108-126 | a `faultcode` then a `faultstring` turn into the protocol-violation message with the code |
| SoapSerializer.FaultReadBack | SoapHttp/Serialization/SoapSerializer.cs:49-126 | `HandleFault` on the document `SerializeException` writes reports the exception's type name and message |
| SoapSerializer.FaultElementsHaveNoBody | SoapHttp/Serialization/SoapSerializer.cs:49-60 | the fault elements hold no SOAP `Body` |
| SoapSerializer.ExceptionDocumentUnreadable | SoapHttp/Serialization/SoapSerializer.cs:49-78 | the exception document, having no `Body`, decodes to the missing-body error |
| MemberInfo.XmlNameFor | SoapHttp/Reflection/WcfMemberInfo.cs:41 | the attribute's name when it is neither null nor empty, otherwise the member's own name |
| MemberInfo.FromField | SoapHttp/Reflection/WcfMemberInfo.cs:20-42 | type from the field; order and namespace copied from the attribute; XML name by the fallback |
| MemberInfo.FromProperty | SoapHttp/Reflection/WcfMemberInfo.cs:28-42 | type from the property; order and namespace copied from the attribute; XML name by the fallback |
| MemberInfo.FieldAndPropertyAgree | SoapHttp/Reflection/WcfMemberInfo.cs:20-34 | the two constructors derive identical metadata from the same name, type and attribute |
| MemberInfo.GetValue | SoapHttp/Reflection/WcfMemberInfo.cs:47-48 | the member's entry in the instance |
| MemberInfo.SetValue | SoapHttp/Reflection/WcfMemberInfo.cs:44-45 | after setting, getting yields the value; every other member is unchanged |
| MemberInfo.SetValueKeepsOthers | SoapHttp/Reflection/WcfMemberInfo.cs:44-48 | setting one member does not change what another member's getter returns |
| FieldInfo.NewFieldInfo | SoapHttp/Reflection/WcfFieldInfo.cs:16-22 | type from the field; order and namespace from the attribute; XML name from the attribute when non-null and non-empty, else the field's name |
| FieldInfo.AgreesWithMemberInfo | SoapHttp/Reflection/WcfFieldInfo.cs:16-22 | `WcfFieldInfo` derives the same metadata as `WcfMemberInfo` for a field |
| MessageInfo.IsWrappedFor | SoapHttp/Reflection/WcfMessageInfo.cs:21-25 | wrapped without a `MessageContract`; otherwise the attribute's `IsWrapped` |
| MessageInfo.GetNamespace | SoapHttp/Reflection/WcfMessageInfo.cs:41-49 | the `XmlRoot` namespace whenever `XmlRoot` is present, even a null one; else the `XmlType` namespace; else null |
| MessageInfo.GetName | SoapHttp/Reflection/WcfMessageInfo.cs:51-62 | the `XmlRoot` element name, else the `XmlType` type name, else the bare type name |
| MessageInfo.BodyFieldsAppend | SoapHttp/Reflection/WcfMessageInfo.cs:88-95 | collecting the body fields of a concatenation concatenates the results |
| MessageInfo.BodyPropertiesAppend | SoapHttp/Reflection/WcfMessageInfo.cs:98-105 | collecting the body properties of a concatenation concatenates the results |
| MessageInfo.BodyFields | SoapHttp/Reflection/WcfMessageInfo.cs:88-95 | the collected fields are exactly the descriptors of the fields with a `MessageBodyMember` |
| MessageInfo.BodyProperties | SoapHttp/Reflection/WcfMessageInfo.cs:98-105 | the collected properties are exactly the descriptors of the properties with a `MessageBodyMember` |
| MessageInfo.CollectedFieldsExactly | SoapHttp/Reflection/WcfMessageInfo.cs:80-108 | `CollectFields` keeps exactly the annotated fields and properties |
| MessageInfo.CollectedFieldsUnsorted | SoapHttp/Reflection/WcfMessageInfo.cs:107 | the discarded `OrderBy` leaves members in declaration order: order 2 stays before order 1 |
| MessageInfo.BodyFieldsStep | SoapHttp/Reflection/WcfMessageInfo.cs:88-95 | one pass of the field loop adds the field's descriptor exactly when it is annotated |
| MessageInfo.BodyPropertiesStep | SoapHttp/Reflection/WcfMessageInfo.cs:98-105 | one pass of the property loop adds the property's descriptor exactly when it is annotated |
| MessageInfo.CollectFields | SoapHttp/Reflection/WcfMessageInfo.cs:80-109 | the two foreach loops build the fields, then the properties, in enumeration order |
| MessageInfo.NewMessageInfo | SoapHttp/Reflection/WcfMessageInfo.cs:17-39 | message type kept; wrapped flag by the contract rule; no fields when wrapped, the collected ones otherwise; name and namespace by their fallbacks |
| MessageInfo.Construct | SoapHttp/Reflection/WcfMessageInfo.cs:35 | the constructor builds a record |
| MessageInfo.ConstructMessage | SoapHttp/Reflection/WcfMessageInfo.cs:64-78 | refuses a wrapped message, then more parameters than fields; otherwise field i holds parameter i and every member not assigned keeps its constructed default |
| MethodInfo.ActionNameFor | SoapHttp/Reflection/WcfMethodInfo.cs:25-35 | `Action + "Async"` for `Task` and `Task<T>`, otherwise `Action` |
| MethodInfo.LogicalReturnType | SoapHttp/Reflection/WcfMethodInfo.cs:37-44 | `T` for `Task<T>`, void for `Task`, unchanged otherwise |
| MethodInfo.NewMethodInfo | SoapHttp/Reflection/WcfMethodInfo.cs:22-52 | action name and async flag by the task rule; a request descriptor iff there is a parameter, built from the first one's type; a response descriptor iff the logical return type is not void |
| MethodInfo.DescriptorShape | SoapHttp/Reflection/WcfMethodInfo.cs:8-52 | `HasParameters` iff the method has parameters; `HasReturnValue` iff it returns neither void, `Task` nor `Task<void>` |
| MethodInfo.TryGetParameterType | SoapHttp/Reflection/WcfMethodInfo.cs:54-64 | false with no type iff there is no request descriptor; otherwise true with the request type |
| MethodInfo.InvokeWithArgument | SoapHttp/Reflection/WcfMethodInfo.cs:66-82 | no request descriptor: `InvalidOperationException`; otherwise one request object made from the argument, awaited iff async |
| MethodInfo.InvokeWithoutArgument | SoapHttp/Reflection/WcfMethodInfo.cs:84-95 | no arguments, awaited iff async |
| MethodResolver.FirstContract | SoapHttp/Reflection/WcfMethodResolver.cs:34-52 | the first type carrying `ServiceContract` in a list, or none when no type in it carries one |
| MethodResolver.FindContract | SoapHttp/Reflection/WcfMethodResolver.cs:34-52 | a type carrying `ServiceContract` is its own contract; a found contract carries the attribute; a non-class type has none |
| MethodResolver.FindInInterfaces | SoapHttp/Reflection/WcfMethodResolver.cs:43-47 | a contract found among the interfaces carries the attribute; past the last interface nothing is found |
| MethodResolver.FindContractIsFirstInPreorder | SoapHttp/Reflection/WcfMethodResolver.cs:34-52 | the recursive search returns the first contract of the type's depth-first pre-order over interfaces |
| MethodResolver.FindInInterfacesIsFirst | SoapHttp/Reflection/WcfMethodResolver.cs:43-47 | the foreach over interfaces returns the first contract of their pre-orders in interface order |
| MethodResolver.FindContractSound | SoapHttp/Reflection/WcfMethodResolver.cs:34-52 | a found contract carries the attribute and lies in the pre-order; none found means no type there carries it |
| MethodResolver.Operations | SoapHttp/Reflection/WcfMethodResolver.cs:25-28 | exactly the methods carrying `OperationContract` |
| MethodResolver.ActionTable | SoapHttp/Reflection/WcfMethodResolver.cs:18-32 | a contract without operations gives the empty table; a built table has at most one entry per operation |
| MethodResolver.AddMethod | SoapHttp/Reflection/WcfMethodResolver.cs:23-32 | a method without `OperationContract` leaves the table as it is; an operation is added under a new, non-null action name, and fails when that name is null |
| MethodResolver.Add | SoapHttp/Reflection/WcfMethodResolver.cs:31 | `Dictionary.Add`: a null key throws `ArgumentNullException`, a present key `ArgumentException`, otherwise the entry is added |
| MethodResolver.BuildTable | SoapHttp/Reflection/WcfMethodResolver.cs:18-32 | the foreach over the contract's methods builds `ActionTable` |
| MethodResolver.ActionTableFailurePersists | SoapHttp/Reflection/WcfMethodResolver.cs:19-20 | once building fails, later methods do not change the failure |
| MethodResolver.ActionTableContents | SoapHttp/Reflection/WcfMethodResolver.cs:23-32 | a finished table has one entry per annotated method, maps each action name to that method's descriptor, and holds nothing else |
| MethodResolver.ActionTableFailure | SoapHttp/Reflection/WcfMethodResolver.cs:31 | two annotated methods with the same action name make construction throw |
| MethodResolver.ActionTableBuilds | SoapHttp/Reflection/WcfMethodResolver.cs:18-32 | conversely, the table is built when every operation has a non-null action name and no two share one |
| MethodResolver.NewResolver | SoapHttp/Reflection/WcfMethodResolver.cs:13-21 | no contract: `ArgumentException`; otherwise the table |
| MethodResolver.ResolverFor | SoapHttp/Reflection/WcfMethodResolver.cs:13-21 | no contract: the `ArgumentException` "Type T does not implement a valid service contract." with the full name of T; a built resolver comes from a contract and holds at most one entry per operation |
| MethodResolver.TryResolve | SoapHttp/Reflection/WcfMethodResolver.cs:54-57 | succeeds iff the exact action string is a key, with that key's descriptor |
| MethodResolver.ServiceMethodCount | SoapHttp/Reflection/WcfMethodResolver.cs:8-9 | zero exactly when no action resolves |
| MethodResolver.ResolverContents | SoapHttp/Reflection/WcfMethodResolver.cs:8-57 | `ServiceMethodCount` is the number of annotated contract methods, and each resolves under its own action name |
| TypeResolver.NewLegacyMethodInfo | SoapHttp/TypeResolver.cs:71-101 | action name and async flag by the task rule; no request type without parameters; several public fields on the request type throw `InvalidOperationException`; one gives its type as the parameter type, none gives no parameter type |
| TypeResolver.TryGetParameterType | SoapHttp/TypeResolver.cs:103-113 | true iff there is a parameter type, with that type |
| TypeResolver.ParametersWithoutParameterType | SoapHttp/TypeResolver.cs:62-113 | a request type without fields gives `HasParameters` and yet no parameter type |
| TypeResolver.InvokeWithArgument | SoapHttp/TypeResolver.cs:115-122 | no request type: `InvalidOperationException`; otherwise one request object made from the argument, not awaited |
| TypeResolver.InvokeWithoutArgument | SoapHttp/TypeResolver.cs:124-127 | no arguments, not awaited |
| TypeResolver.NewResolver | SoapHttp/TypeResolver.cs:13-32 | the same contract search and table construction as `WcfMethodResolver`, over the legacy descriptor |
| TypeResolver.ResolverFor | SoapHttp/TypeResolver.cs:13-21 | no contract: the `ArgumentException` "Type T does not implement a valid service contract." with the full name of T; a built resolver comes from a contract and holds at most one entry per operation |
| TypeResolver.TryResolveType | SoapHttp/TypeResolver.cs:54-57 | an exact-key lookup |
| TypeResolver.ServiceMethodCount | SoapHttp/TypeResolver.cs:8-9 | zero exactly when no action resolves |
| TypeResolver.MultiFieldRequestRefused | SoapHttp/TypeResolver.cs:23-97 | an operation whose request type has several fields stops the resolver from being built |
| TypeResolver.ResolversAgree | SoapHttp/TypeResolver.cs:13-32 | when both resolvers build, they have the same action names, each bound to the same method |
| HttpExtensions.ResolveStatusCode | SoapHttp/Extensions/HttpListenerExtensions.cs:41-48 | 501 iff the exception is a `NotImplementedException`; 400 for every other exception |
| HttpExtensions.Response.SetStatusCode | SoapHttp/Extensions/HttpListenerExtensions.cs:11 | the status is set and recorded; nothing else changes |
| HttpExtensions.Response.SetSendChunked | SoapHttp/Extensions/HttpListenerExtensions.cs:35 | chunking is set and recorded; nothing else changes |
| HttpExtensions.Response.SetContentLength64 | SoapHttp/Extensions/HttpListenerExtensions.cs:37 | the length is set and recorded; nothing else changes |
| HttpExtensions.Response.ClearHeaders | SoapHttp/Listener.cs:127 | the headers are emptied and the event recorded; nothing else changes |
| HttpExtensions.Response.Write | SoapHttp/Extensions/HttpListenerExtensions.cs:15-17 | the document goes to the output stream and is recorded |
| HttpExtensions.Response.Close | SoapHttp/Extensions/HttpListenerExtensions.cs:19 | the response is closed and the event recorded |
| HttpExtensions.WcfMessageTrace | SoapHttp/Extensions/HttpListenerExtensions.cs:9-20 | status 200 first and closing last |
| HttpExtensions.RespondWithWcfMessage | SoapHttp/Extensions/HttpListenerExtensions.cs:9-20 | status 200; the overload without a value exactly for a null message; the message document is written; closing is last |
| HttpExtensions.ExceptionTrace | SoapHttp/Extensions/HttpListenerExtensions.cs:22-30 | the resolved status first and closing last |
| HttpExtensions.RespondWithException | SoapHttp/Extensions/HttpListenerExtensions.cs:22-30 | the status is `ResolveStatusCode(exception)`, set before the exception document is written; closing is last |
| HttpExtensions.EmptyTrace | SoapHttp/Extensions/HttpListenerExtensions.cs:33-39 | chunking off, the status and content length 0, with closing last |
| HttpExtensions.RespondWithEmpty | SoapHttp/Extensions/HttpListenerExtensions.cs:33-39 | content length 0, no chunking, the given status (200 by default), closed, nothing written |
| Listener.ResolveSoapAction | SoapHttp/Listener.cs:87-97 | no `soapAction` header: `InvalidOperationException`; an unknown action: `InvalidOperationException` naming it; otherwise the resolver's entry, and success exactly in that case |
| Listener.HandleRequest | SoapHttp/Listener.cs:99-113 | with a parameter type the body is decoded as it, errors propagate, a null result throws, and the operation gets one request object; without one it is invoked with no argument |
| Listener.RequestOutcome | SoapHttp/Listener.cs:60-66 | a resolution error is the outcome; success only for a known action; otherwise the outcome of handling the request with the resolved descriptor |
| Listener.RespondWithMessage | SoapHttp/Listener.cs:115-118 | leaves the response unchanged |
| Listener.RespondWithException | SoapHttp/Listener.cs:120-123 | leaves the response unchanged |
| Listener.ParameterlessIgnoresBody | SoapHttp/Listener.cs:101-112 | for an operation without parameters the outcome does not depend on the body |
| Listener.BodylessRequestRefused | SoapHttp/Listener.cs:101-105 | a request for an operation with parameters whose body has no SOAP `Body` fails with the missing-body error |
| Listener.ListenerEmptyTrace | SoapHttp/Listener.cs:125-132 | headers cleared first, status set, closing last |
| Listener.RespondWithEmpty | SoapHttp/Listener.cs:125-132 | headers cleared, no chunking, the given status (200 by default), content length 0, closed, nothing written |
| Listener.Answered | SoapHttp/Listener.cs:60-76 | a request that succeeded gets the empty answer; one that failed or never came gets nothing |
| Listener.PrefixError | SoapHttp/Listener.cs:26 | `HttpListener.Prefixes.Add` refuses a prefix without an `http://` or `https://` scheme (compared ignoring ASCII case by `StartsWithIgnoringCase`); one it accepts ends in '/'; every refusal is an `ArgumentException` with the scheme, host or slash message and the parameter name `uriPrefix` |
| Listener.HostEnd | SoapHttp/Listener.cs:26 | the host scan of `HttpListener.Prefixes.Add` stops at the end, at a '/' or at a ':', and never passes a '/'; without square brackets it always succeeds and also never passes a ':' |
| Listener.FirstPrefixError | SoapHttp/Listener.cs:25-26 | an error reported is the error of some given prefix |
| Listener.FirstPrefixErrorAppend | SoapHttp/Listener.cs:25-26 | the loop over a concatenation stops in its front part when that refuses a prefix, and otherwise where the back part stops |
| Listener.FirstPrefixErrorNone | SoapHttp/Listener.cs:25-26 | the loop refuses nothing exactly when every prefix is accepted on its own |
| Listener.SchemelessPrefixRefused | SoapHttp/Listener.cs:26 | a prefix without a scheme is refused with the scheme message |
| Listener.UnterminatedPrefixRefused | SoapHttp/Listener.cs:26 | a prefix without the trailing '/' is refused with the slash message |
| Listener.HostlessPrefixRefused | SoapHttp/Listener.cs:26 | a prefix with an empty host is refused with the host message |
| Listener.PrefixAccepted | SoapHttp/Listener.cs:26 | a well-formed prefix is accepted whatever the case of its scheme |
| Listener.Listener.constructor | SoapHttp/Listener.cs:19-24 | the prefixes are kept as given, the HTTP listener has none registered yet; not listening, not closed, not disposed |
| Listener.Listener.AddPrefix | SoapHttp/Listener.cs:26 | a refused prefix gives its `ArgumentException` and registers nothing; an accepted one is added to the registered set, so a repeated prefix is held once; nothing else changes |
| Listener.Listener.Start | SoapHttp/Listener.cs:32-42 | `InvalidOperationException` when already listening, then `ObjectDisposedException` when disposed; otherwise listening, with nothing else changed |
| Listener.Listener.Stop | SoapHttp/Listener.cs:44-45 | stops listening; an `ObjectDisposedException` once the HTTP listener is closed |
| Listener.Listener.Dispose | SoapHttp/Listener.cs:134-146 | idempotent: afterwards disposed; the HTTP listener is stopped and closed only when it was listening and not yet disposed |
| Listener.Listener.ProcessRequest | SoapHttp/Listener.cs:60-76 | the outcome is resolving then handling the request; on success the response gets the empty 200 answer, on failure `RespondWithException` leaves it as it was |
| Listener.Listener.DoWork | SoapHttp/Listener.cs:47-85 | nothing is served unless listening; each request arriving is served in order, a failure moving on to the next; the end of arrivals ends the loop quietly |
| Listener.NewListener | SoapHttp/Listener.cs:19-27 | a service without a valid contract throws the resolver's `ArgumentException`; then the first refused prefix throws its `ArgumentException`; success exactly otherwise, with a fresh listener over that resolver whose registered set is the set of the given prefixes |
| Listener.NewListenerForPrefix | SoapHttp/Listener.cs:15-17 | a list of exactly that prefix: refused with that prefix's error, otherwise registered alone |

## Where the code and the design disagree

The model follows the code in each case.

- `CollectFields` is meant to sort members by order, then by XML name, but
  it discards the result of `OrderBy`/`ThenBy`. Members keep declaration
  order: fields first, then properties (`MessageInfo.CollectedFieldsUnsorted`).
- Unwrapped decoding is meant to skip unexpected elements and to read every
  field back, but it does neither:
  - the inner loop keeps comparing every index with the field taken first,
    so an element that does not match it uses up the fields, and the next
    element indexes `Fields` out of range
    (`WcfSerializer.UnexpectedElementExhaustsFields`, `ExhaustedFields`);
  - after `XmlSerializer.Deserialize` the reader sits on the next node, and
    the loop's `ReadAsync` steps over it. Of two adjacent field elements,
    the start tag of the second is stepped over. When that element has no
    child elements, only the first field is read
    (`WcfSerializer.SecondAdjacentFieldSkipped`). When it has two child
    elements, the first child matches no field and uses the fields up, and
    the second child indexes `Fields` out of range
    (`WcfSerializer.NestedSecondFieldOutOfRange`).
    Whitespace between elements is not skipped either: it is a node of its
    own, so the node the reader sits on is the whitespace, and two fields
    separated by whitespace are both read
    (`WcfSerializer.WhitespaceSeparatedFieldsRead`).
- A wrapped message whose type gives no namespace is written, but it can
  never be read back: a null namespace never equals the reader's
  `NamespaceURI`, so no element in the body matches
  (`WcfSerializer.WrappedWithoutNamespaceFails`,
  `WrappedWithoutNamespaceNoRoundTrip`).
- Asynchronous operations are meant to be awaited for their result. The
  cast `(Task<object?>)task` in `WcfMethodInfo.cs` throws an
  `InvalidCastException` for every `Task` or `Task<T>` that is not a
  `Task<object>`. So in the listener an asynchronous request fails before
  it can get the empty 200 answer. The model leaves this cast out, as
  described under "Left out", so `Listener.Listener.ProcessRequest` can
  answer such a request.
- A fault in the body is meant to be reported for every message. For an
  unwrapped message without body members, the check that the field index
  is in range comes before the `Fault` test, so a body holding only a fault
  fails with an index out of range (`WcfSerializer.FaultOnlyBodyThrows`,
  `NoFieldsFailOnElement`).
- Faults are meant to be answered with a fault envelope. In `Listener.cs`
  the private `RespondWithMessage` and `RespondWithException` are empty, so
  a failed request leaves its response untouched. A successful one gets the
  empty 200 answer.
- `WcfSerializer.SerializeException` calls `WriteFault` with two arguments,
  but the `WriteFault` shown takes none and writes nothing. The exception
  document is therefore an envelope with an empty header and no body.
- `SoapSerializer.SerializeException` has its document top commented out, so
  its two closing end tags close elements it never opened.
- `WcfMethodInfo.TryGetParameterType` reads a `ParameterType` that
  `WcfMessageInfo` does not have. The model returns the request's
  `MessageType`, the only type the descriptor holds.
- `Listener.cs` is in namespace `SoapHttp`, where the name `WcfMethodInfo`
  means the `SoapHttp.WcfMethodInfo` of `TypeResolver.cs` and not the
  imported `SoapHttp.Reflection.WcfMethodInfo`. The `out` argument of
  `TryResolve` therefore has the wrong type. The model uses the descriptor
  of `Reflection/WcfMethodInfo.cs`, which `WcfMethodResolver.TryResolve`
  returns.
- `SoapSerializer.Serialize(stream, value)` passes the value where
  `WriteBody` expects a callback. The model gives `Serialize` the callback's
  tokens as an optional token sequence.

## Left out

- Reflection, attribute lookup, `MethodInfo.Invoke` and
  `Activator.CreateInstance` are replaced by explicit metadata and a service
  function parameter.
- `Base.Exception.TypeName` and `Metadata.FullTypeName` stand for
  `Type.ToString()`, the name qualified by its namespace, and
  `Metadata.TypeName` stands for `Type.Name`. Nested and generic class
  types are not modelled, so `FullTypeName` does not write their
  enclosing type or type arguments.
- `XmlSerializer` value (de)serialization is opaque, as described above.
  `xsi:nil` is the only content it inspects.
- `Utility.cs` (compiled constructors, getters and setters) is not part of
  this model. The empty constructor is `Metadata.DefaultInstance`, and a
  type without one is not modelled.
- Async/await, tasks, the `(Task<object?>)` cast of an async result and
  stream I/O are left out. Reads are sequential over a node sequence;
  writes append to a token buffer.
- `XmlWriter` state checks are left out: the writer accepts any sequence of
  tokens. This includes the exception it would throw at the first unmatched
  end tag of `SoapSerializer.SerializeException`, and its automatic closing
  of open elements at dispose.
- An empty element written as `<x/>` is modelled as a start node and an end
  node.
- The `HttpListener` transport is left out: sockets, `GetContextAsync`,
  `Task.Factory.StartNew`, the cancellation token and concurrency between
  requests. `DoWork` runs over the sequence of requests that arrive; the
  end of that sequence stands for the `HttpListenerException` raised when
  the listener stops.
- Header names are compared case-sensitively, where `NameValueCollection`
  compares them case-insensitively.
- Console logging, the finalizer and `GC.SuppressFinalize` are left out.
- `SoapClient.cs`, `ServiceConfig.cs`, `ServiceEndpoint.cs` and the tests
  are not part of this model.
- The node sequence stands for a well-formed document. The reader's
  `XmlException` on malformed input (an end tag with no open element, or
  input that ends with elements still open) is not modelled in the
  envelope scans; only `XmlSerializer.Deserialize` reports an element that
  is never closed.
- Metadata.XmlDeserialize: the message of the `InvalidOperationException`
  leaves out the line and column of the error, and the original
  `XmlException` it carries as `InnerException`.
- MemberInfo.GetValue: only `Record` values have members. On a `Created`,
  `Deserialized` or `Opaque` value the getter gives null, so
  `WcfSerializer.FieldTokens` writes every field of such a value as nil,
  where the source getter reads the object's actual field.
- Listener.PrefixError: follows the prefix checks of `HttpListener` in
  the .NET runtime (scheme, non-empty host, trailing '/'). Scheme case
  is folded for ASCII letters only. Further parsing of the host and port is
  not modelled, nor the runtime storing a prefix together with a
  normalised form of it. A null prefix cannot occur, because strings are
  not nullable here.
- Metadata.DefaultInstance: every member of the empty instance is null.
  Value-type members (whose default is 0, false and so on) and field or
  property initializers are not modelled.
- WcfSerializer.SecondAdjacentFieldSkipped: a serialized value is written
  as one token that a reader sees as an element without child nodes. So
  the lemma covers only second-field values whose XML has no child
  elements. Other values are covered by
  `WcfSerializer.NestedSecondFieldOutOfRange`.
- HttpExtensions.ResolveStatusCode: exceptions have no subclasses here. An
  exception of a class derived from `NotImplementedException` is an
  `Other` exception in the model and gets 400, where the type pattern of
  the source matches it and gives 501.
- Listener.Listener.DoWork: requires the responses of distinct requests to
  be distinct objects, which the transport guarantees.
