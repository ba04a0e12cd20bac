/** The deserializing entry points of `JsonSerializer`: the two string deserializers and the
    source adapters that reduce a reader, a stream or a web response to them.
    A source is modelled by the text it drains to; decoding bytes as UTF-8 is not modelled. */
module Deserialize {
  import opened Types
  import opened Codecs

  /** A `TextReader`: `unread` is what `ReadToEnd` returns. */
  datatype TextReader = TextReader(unread: string)

  /** A readable `Stream`, given by the text a `StreamReader` over it decodes. */
  datatype Stream = Stream(unread: string)

  /** A `WebResponse` and the body `GetResponseStream` yields. */
  datatype WebResponse = WebResponse(body: Stream)

  /** A `WebRequest`; `PclExport.Instance.GetResponse` is passed in as `getResponse`. */
  datatype WebRequest = WebRequest(uri: string)

  /** `reader.ReadToEnd()`: never null, empty once the source is exhausted. */
  function ReadToEnd(reader: TextReader): (r: Option<string>)
    ensures r.Some? && r.value == reader.unread
  {
    Some(reader.unread)
  }

  /** `new StreamReader(stream, UTF8EncodingWithoutBom).ReadToEnd()`. */
  function DrainStream(stream: Stream): (r: Option<string>)
    ensures r.Some? && r.value == stream.unread
  {
    ReadToEnd(TextReader(stream.unread))
  }

  /** `DeserializeFromString<T>(string)`: null or empty text gives `default(T)` without
      consulting the parser; any other text gives exactly what `JsonReader<T>.Parse` returns. */
  function DeserializeFromString(c: Codec, t: JsType, text: Option<string>): (r: Val)
    ensures IsNullOrEmpty(text) ==> r == DefaultOf(t)
    ensures !IsNullOrEmpty(text) ==> r == c.parseRoot(t, text.value)
  {
    if IsNullOrEmpty(text) then DefaultOf(t) else c.parseRoot(t, text.value)
  }

  /** `DeserializeFromString(string, Type)`: null or empty text gives null for every type,
      non-nullable value types included; any other text gives what the parse function for the
      type returns. */
  function DeserializeFromStringOfType(c: Codec, text: Option<string>, t: JsType): (r: Val)
    ensures IsNullOrEmpty(text) ==> r == Null
    ensures !IsNullOrEmpty(text) ==> r == c.parseFn(t, text.value)
  {
    if IsNullOrEmpty(text) then Null else c.parseFn(t, text.value)
  }

  /** `DeserializeFromReader<T>`: the drained text, deserialized as a string. */
  function DeserializeFromReader(c: Codec, t: JsType, reader: TextReader): (r: Val)
    ensures r == DeserializeFromString(c, t, Some(reader.unread))
    ensures reader.unread == "" ==> r == DefaultOf(t)
  {
    DeserializeFromString(c, t, ReadToEnd(reader))
  }

  /** `DeserializeFromReader(TextReader, Type)`. */
  function DeserializeFromReaderOfType(c: Codec, reader: TextReader, t: JsType): (r: Val)
    ensures r == DeserializeFromStringOfType(c, Some(reader.unread), t)
    ensures reader.unread == "" ==> r == Null
  {
    DeserializeFromStringOfType(c, ReadToEnd(reader), t)
  }

  /** `DeserializeFromStream<T>`. */
  function DeserializeFromStream(c: Codec, t: JsType, stream: Stream): (r: Val)
    ensures r == DeserializeFromString(c, t, Some(stream.unread))
    ensures r == DeserializeFromReader(c, t, TextReader(stream.unread))
  {
    DeserializeFromString(c, t, DrainStream(stream))
  }

  /** `DeserializeFromStream(Type, Stream)`. */
  function DeserializeFromStreamOfType(c: Codec, t: JsType, stream: Stream): (r: Val)
    ensures r == DeserializeFromStringOfType(c, Some(stream.unread), t)
    ensures r == DeserializeFromReaderOfType(c, TextReader(stream.unread), t)
  {
    DeserializeFromStringOfType(c, DrainStream(stream), t)
  }

  /** `DeserializeResponse<T>(WebResponse)`: the response body, deserialized as a string. */
  function DeserializeResponse(c: Codec, t: JsType, response: WebResponse): (r: Val)
    ensures r == DeserializeFromString(c, t, Some(response.body.unread))
  {
    DeserializeFromStream(c, t, response.body)
  }

  /** `DeserializeResponse(Type, WebResponse)`. */
  function DeserializeResponseOfType(c: Codec, t: JsType, response: WebResponse): (r: Val)
    ensures r == DeserializeFromStringOfType(c, Some(response.body.unread), t)
  {
    DeserializeFromStreamOfType(c, t, response.body)
  }

  /** `DeserializeResponse<T>(WebRequest)`: the request is sent once and the body of its
      response deserialized. */
  function DeserializeResponseFromRequest(c: Codec, getResponse: WebRequest -> WebResponse,
                                          t: JsType, request: WebRequest): (r: Val)
    ensures r == DeserializeFromString(c, t, Some(getResponse(request).body.unread))
  {
    DeserializeFromStream(c, t, getResponse(request).body)
  }

  /** `DeserializeResponse<T>(Type, WebRequest)`: the type parameter plays no part; the type
      token alone decides. */
  function DeserializeResponseFromRequestOfType(c: Codec, getResponse: WebRequest -> WebResponse,
                                                t: JsType, request: WebRequest): (r: Val)
    ensures r == DeserializeFromStringOfType(c, Some(getResponse(request).body.unread), t)
  {
    DeserializeFromStreamOfType(c, t, getResponse(request).body)
  }

  /** `DeserializeRequest<T>(WebRequest)`: sends the request and hands the response on. */
  function DeserializeRequest(c: Codec, getResponse: WebRequest -> WebResponse,
                              t: JsType, request: WebRequest): (r: Val)
    ensures r == DeserializeFromString(c, t, Some(getResponse(request).body.unread))
  {
    DeserializeResponse(c, t, getResponse(request))
  }

  /** `DeserializeRequest(Type, WebRequest)`. */
  function DeserializeRequestOfType(c: Codec, getResponse: WebRequest -> WebResponse,
                                    t: JsType, request: WebRequest): (r: Val)
    ensures r == DeserializeFromStringOfType(c, Some(getResponse(request).body.unread), t)
  {
    DeserializeResponseOfType(c, t, getResponse(request))
  }

  /** Absent text never reaches the parser: the result is the same whatever the codec. */
  lemma AbsentTextIgnoresParser(c1: Codec, c2: Codec, t: JsType, text: Option<string>)
    requires IsNullOrEmpty(text)
    ensures DeserializeFromString(c1, t, text) == DeserializeFromString(c2, t, text)
    ensures DeserializeFromStringOfType(c1, text, t) == DeserializeFromStringOfType(c2, text, t)
  {
  }

  /** On absent text the generic and the type-token overloads agree exactly for the types whose
      default is null (reference types and `Nullable<T>`): for any other value type the generic
      one gives the zero instance and the other null. */
  lemma AbsentTextOverloadsDiffer(c: Codec, t: JsType, text: Option<string>)
    requires IsNullOrEmpty(text)
    ensures DeserializeFromString(c, t, text) == DeserializeFromStringOfType(c, text, t)
            <==> !(t.ConcreteType? && t.isNonNullableValueType)
  {
  }

  /** `DeserializeRequest` and `DeserializeResponse` over a request both reduce to the string
      deserializer on the body of one response to that request. */
  lemma RequestEntryPointsAgree(c: Codec, getResponse: WebRequest -> WebResponse,
                                t: JsType, request: WebRequest)
    ensures DeserializeRequest(c, getResponse, t, request)
            == DeserializeResponseFromRequest(c, getResponse, t, request)
    ensures DeserializeRequestOfType(c, getResponse, t, request)
            == DeserializeResponseFromRequestOfType(c, getResponse, t, request)
  {
  }
}
