# JsonSerializer dispatch layer of ServiceStack.Text, modelled in Dafny

This project models the public entry points of ServiceStack.Text's `JsonSerializer`
(`src/ServiceStack.Text/JsonSerializer.cs`): the string, reader, stream and web-response
deserializers, and the string, writer and stream serializers, in their generic (`<T>`) and
type-token (`Type`) forms. The layer decides:

- what to do with null or empty text (`default(T)` or null, without the parser);
- what to do with null values and delegates (nothing is written);
- when a static type is `object`, abstract or an interface, in which case it re-dispatches on the
  value's runtime type;
- when the ambient `JsState.IsWritingDynamic` flag is raised around that re-dispatch (abstract
  and interface types only) and when it is cleared again;
- how strings take a fast path (escaped through `JsonUtils.WriteString`, or written raw);
- how readers, streams and web responses reduce to the string deserializer.

The codecs the layer delegates to (`JsonReader<T>.Parse`, `JsonReader.GetParseFn`,
`JsonWriter<T>.WriteRootObject`, `JsonWriter.GetWriteFn`, `JsonUtils.WriteString`, and
`Object.ToString` for `TextWriter.Write(object)`) are fields of the `Codecs.Codec` datatype.
They are arbitrary functions, so every property holds whatever the codecs do. A writer is given
the value of the dynamic-write flag while it runs, because that is all it can observe of the flag.

Files and modules:

- `types.dfy` (`Types`): the types a call names (`object`, `string`, abstract, interface,
  other concrete types, tagged by whether their default is an instance rather than null);
  runtime values (null, strings, delegates, other instances); the type classifier; `GetType()`, `default(T)` and `as string`.
- `codecs.dfy` (`Codecs`): the codec capabilities; the write calls the layer makes, each paired
  with the flag value it sees (an `Event`); what the calls emit; and how a `StreamWriter`
  buffers its output until it is flushed.
- `deserialize.dfy` (`Deserialize`): the deserializers, as functions. A source is given by the
  text it drains to.
- `dispatch.dfy` (`Dispatch`): each serializer's observable effect, as a function of the value,
  the type and the flag it starts from. The effect is the string returned, the write calls made
  with the flag each saw, and the flag left behind. Lemmas compare the entry points.
- `call_sequence.dfy` (`CallSequence`): one sequential caller making any sequence of serializer
  calls. This is where the flag discipline is proved: which writes see the flag raised, and when
  it outlives a call.
- `serializer.dfy` (`Serializer`): the serializers as imperative methods of a `JsonSerializer`
  class. The class holds the flag field and a ghost trace of write calls. Writers and streams
  are `Sink` objects. Each method is proved to have exactly the effect `Dispatch` gives it.

Four behaviours of the code that are easy to misread:

- The flag is reset to `false` after the re-dispatch. It is not restored to its previous value,
  and the reset is not in a `finally`. `CallSequence.FinalFlagIsRaisedUnlessCleared` shows the
  consequence: a flag raised before a call of an abstract or interface type is lost after that
  call.
- For a static type of exactly `object`, the code re-dispatches without touching the flag.
- Only `SerializeToString<T>` skips delegates. The type-token string serializer and both writer
  serializers write them.
- `SerializeToStream(object, Type, Stream)` has no null guard. It runs the type's write function
  on null and flushes.

## Model

| member | source | states |
|---|---|---|
| Types.DefaultOf | src/ServiceStack.Text/JsonSerializer.cs:32 | `default(T)` is null exactly for reference types and `Nullable<T>` (tagged as not a non-nullable value type); any other value type gets its zero instance of that type |
| Deserialize.DeserializeFromString | src/ServiceStack.Text/JsonSerializer.cs:30-34 | null or empty text gives `default(T)`; any other text gives exactly the generic parser's result for that text |
| Deserialize.DeserializeFromStringOfType | src/ServiceStack.Text/JsonSerializer.cs:41-46 | null or empty text gives null for every type, non-nullable value types included; other text gives exactly the type's parse function result |
| Deserialize.DeserializeFromReader | src/ServiceStack.Text/JsonSerializer.cs:36-39 | equals the generic string deserializer on everything the reader holds; an exhausted reader gives `default(T)` |
| Deserialize.DeserializeFromReaderOfType | src/ServiceStack.Text/JsonSerializer.cs:48-51 | equals the type-token string deserializer on everything the reader holds; an exhausted reader gives null |
| Deserialize.DeserializeFromStream | src/ServiceStack.Text/JsonSerializer.cs:152-158 | equals the generic string deserializer on the stream's drained text, and the reader deserializer on a reader of that text |
| Deserialize.DeserializeFromStreamOfType | src/ServiceStack.Text/JsonSerializer.cs:160-166 | equals the type-token string deserializer on the stream's drained text, and the matching reader deserializer |
| Deserialize.DeserializeResponseFromRequest | src/ServiceStack.Text/JsonSerializer.cs:168-177 | equals the generic string deserializer on the body of the response to the request |
| Deserialize.DeserializeResponseFromRequestOfType | src/ServiceStack.Text/JsonSerializer.cs:179-188 | equals the type-token string deserializer on the response body; the generic parameter plays no part |
| Deserialize.DeserializeRequest | src/ServiceStack.Text/JsonSerializer.cs:190-196 | equals the generic string deserializer on the body of the response to the request |
| Deserialize.DeserializeRequestOfType | src/ServiceStack.Text/JsonSerializer.cs:198-204 | equals the type-token string deserializer on the body of the response to the request |
| Deserialize.DeserializeResponse | src/ServiceStack.Text/JsonSerializer.cs:206-212 | equals the generic string deserializer on the response's body |
| Deserialize.DeserializeResponseOfType | src/ServiceStack.Text/JsonSerializer.cs:214-220 | equals the type-token string deserializer on the response's body |
| Deserialize.AbsentTextIgnoresParser | src/ServiceStack.Text/JsonSerializer.cs:30-46 | on null or empty text both string deserializers give the same result whatever the codec, so the parser is never consulted |
| Deserialize.AbsentTextOverloadsDiffer | src/ServiceStack.Text/JsonSerializer.cs:30-46 | on absent text the generic and type-token overloads agree if and only if the type's default is null, that is unless it is a non-nullable value type |
| Deserialize.RequestEntryPointsAgree | src/ServiceStack.Text/JsonSerializer.cs:168-204 | `DeserializeRequest` and `DeserializeResponse` over a request both reduce to the string deserializer on the body of one response to it, in both forms |
| Codecs.RawText | src/ServiceStack.Text/JsonSerializer.cs:122 | `TextWriter.Write(object)` writes a string's own characters, unescaped |
| Codecs.DeliveredThenBuffered | src/ServiceStack.Text/JsonSerializer.cs:140-142 | for any calls on a `StreamWriter`, what reached the stream followed by what is still buffered is exactly what the calls emitted |
| Codecs.FlushedDeliversAll | src/ServiceStack.Text/JsonSerializer.cs:145-150 | after a final flush the stream has received everything written, in order |
| Codecs.WriteThenFlush | src/ServiceStack.Text/JsonSerializer.cs:147-149 | one write then a flush hands the stream exactly that write's output |
| Dispatch.FlagDuring | src/ServiceStack.Text/JsonSerializer.cs:58 | during the re-dispatch the flag is raised for abstract and interface types and unchanged for `object` |
| Dispatch.FlagAfterward | src/ServiceStack.Text/JsonSerializer.cs:60 | after the re-dispatch the flag is false for abstract and interface types (not the previous value) and unchanged for `object` |
| Dispatch.SerializeToStringOfType | src/ServiceStack.Text/JsonSerializer.cs:79-96 | returns null exactly for null (no delegate check) with no write; the string type makes one `WriteString` and no general write; other types make one write of the type's function; the result is what was emitted; the flag is unchanged |
| Dispatch.SerializeToString | src/ServiceStack.Text/JsonSerializer.cs:53-77 | returns null exactly for null or a delegate, with no write and the flag unchanged; otherwise the result is what one write emitted; polymorphic types return what the type-token serializer returns for the runtime type; `string` makes one `WriteString`; other types make one `WriteRootObject` of the original value; polymorphic types make exactly the type-token serializer's write calls for the runtime type; every write sees the flag raised for abstract and interface types, which is false afterwards |
| Dispatch.SerializeToWriterOfType | src/ServiceStack.Text/JsonSerializer.cs:117-127 | writes nothing exactly for null; the string type writes the characters raw; other types make one write of the type's function; the flag is unchanged |
| Dispatch.SerializeToWriter | src/ServiceStack.Text/JsonSerializer.cs:98-115 | writes nothing exactly for null (delegates are written); `string` is written raw; polymorphic types make the type-token writer's calls for the runtime type; other types make one `WriteRootObject`; the flag rules are those of `SerializeToString` |
| Dispatch.SerializeToStreamOfType | src/ServiceStack.Text/JsonSerializer.cs:145-150 | for every value, null included, one write of the type's function then a flush; the stream receives exactly that output; the flag is unchanged |
| Dispatch.SerializeToStream | src/ServiceStack.Text/JsonSerializer.cs:129-143 | nothing at all for null; otherwise a write then a flush, so the stream receives all that was written; polymorphic types make the type-token stream calls for the runtime type; other types, `string` included, make one `WriteRootObject`; the flag rules are those of `SerializeToString` |
| Dispatch.DelegateCheckOnlyInGenericString | src/ServiceStack.Text/JsonSerializer.cs:53-127 | a delegate makes the generic string serializer return null without writing, while the type-token string serializer and the writer serializer write it |
| Dispatch.StringPathsDiffer | src/ServiceStack.Text/JsonSerializer.cs:67-141 | for a string: `SerializeToString` returns the escaper's output and makes no general write; `SerializeToWriter` writes the characters themselves; `SerializeToStream` writes through `WriteRootObject` |
| Dispatch.ObjectHoldingStringIsEscaped | src/ServiceStack.Text/JsonSerializer.cs:56-124 | a string whose static type is `object` is escaped by the string serializer and written raw by the writer serializer |
| Dispatch.NullOnStream | src/ServiceStack.Text/JsonSerializer.cs:129-150 | given null, the generic stream serializer makes no call at all; the type-token one writes null through the type's write function and that output reaches the stream |
| Dispatch.PolymorphicOutput | src/ServiceStack.Text/JsonSerializer.cs:56-92 | for abstract or interface types the string result does not depend on the flag that was set before; for a non-string runtime type it is the runtime type's writer output under the raised flag, or under the caller's flag for `object` |
| CallSequence.Step | src/ServiceStack.Text/JsonSerializer.cs:53-150 | after any single call the flag is the earlier flag unless the call cleared it; each write sees the flag raised exactly when its call raised it or it was already raised |
| CallSequence.ExecuteEndsWithFinalFlag | src/ServiceStack.Text/JsonSerializer.cs:56-61 | for any non-empty sequence of calls, the flag the last call leaves behind is the flag after the whole sequence |
| CallSequence.FinalFlagIsRaisedUnlessCleared | src/ServiceStack.Text/JsonSerializer.cs:56-61 | after any sequence of calls the flag is raised if and only if it was raised before and no call of an abstract or interface type got past its guard |
| CallSequence.FlagSeenByWrites | src/ServiceStack.Text/JsonSerializer.cs:56-61 | in any sequence of calls, a write sees the flag raised if and only if its own call raised it, or it was raised before the sequence and no earlier call cleared it |
| CallSequence.FlagNeverLeaks | src/ServiceStack.Text/JsonSerializer.cs:106-111 | starting from a cleared flag, a write sees the flag raised exactly when its call is generic over an abstract or interface type, and the flag is false after the sequence |
| Serializer.JsonSerializer.SerializeToStringOfType | src/ServiceStack.Text/JsonSerializer.cs:79-96 | the method's result and recorded calls are those of the function `Dispatch.SerializeToStringOfType` |
| Serializer.JsonSerializer.SerializeToString | src/ServiceStack.Text/JsonSerializer.cs:53-77 | the method's result, new flag and recorded calls are those of the function `Dispatch.SerializeToString` |
| Serializer.JsonSerializer.SerializeToWriterOfType | src/ServiceStack.Text/JsonSerializer.cs:117-127 | the writer gains exactly what the recorded calls emitted, and those calls are the ones of `Dispatch.SerializeToWriterOfType` |
| Serializer.JsonSerializer.SerializeToWriter | src/ServiceStack.Text/JsonSerializer.cs:98-115 | the writer gains exactly what the calls emitted; the calls and new flag are those of `Dispatch.SerializeToWriter` |
| Serializer.JsonSerializer.SerializeToStreamOfType | src/ServiceStack.Text/JsonSerializer.cs:145-150 | the stream gains exactly what was flushed; the calls are those of `Dispatch.SerializeToStreamOfType` |
| Serializer.JsonSerializer.SerializeToStream | src/ServiceStack.Text/JsonSerializer.cs:129-143 | the stream gains exactly what was flushed; the calls and new flag are those of `Dispatch.SerializeToStream` |
| Serializer.JsonSerializer.FlushStreamWriter | src/ServiceStack.Text/JsonSerializer.cs:142 | the buffered characters are appended to the stream and the buffer is emptied |

## Left out

- The codec bodies (`JsonReader<T>.Parse`, `JsonReader.GetParseFn`,
  `JsonWriter<T>.WriteRootObject`, `JsonWriter.GetWriteFn`, `JsonUtils.WriteString`,
  `Object.ToString`): they are not part of this model. They are uninterpreted functions in
  `Codecs.Codec`. A codec is modelled as changing neither the flag nor any state besides its
  writer.
- Exceptions: a codec, a cast or the transport that throws is not modelled. All properties are
  about normal returns. The flag reset is not in a `finally`, so nothing holds for it once a
  nested write throws.
- The cast `(T)` on the parser's result in `DeserializeFromString<T>`: its `InvalidCastException`
  is not modelled.
- UTF-8 encoding without a byte-order mark in `StreamReader` and `StreamWriter`: a stream is
  modelled by the characters it decodes to or receives.
- `ReadToEnd` draining: a reader or stream is given by the text it drains to. Its position
  afterwards is not modelled.
- `PclExport.Instance.GetResponse`, `WebRequest`, `WebResponse`: network transport. It is a
  `getResponse` parameter, a function, so two entry points given the same request see the same
  response; in the code each call issues its own request.
- The `using` blocks: the disposal of writers, readers, responses and their streams, and its
  order, are not modelled.
- Concurrency: the model assumes a single sequential caller; the ambient flag is a field of the
  `Serializer.JsonSerializer` object. `JsState` is not part of this model.
- Reflection (`IsAbstract`, `IsInterface`, `GetType`) is replaced by the tags of `Types.JsType`
  and `Types.Val`. C#'s static typing of a `T value` against `T` is not enforced: every pairing
  of value and type is given a meaning.
- `CultureInfo.InvariantCulture` formatting of the `StringWriter`: it only concerns codec output,
  which is uninterpreted.
- `UTF8EncodingWithoutBom` (line 28) is only used by the encoding left out above.
