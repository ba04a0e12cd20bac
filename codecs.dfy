/** The foreign codec capabilities the dispatcher delegates to, and the record of the calls it
    makes into them. Their bodies (JsonReader, JsonWriter, JsonUtils) are outside this model, so
    a `Codec` is any choice of functions, and every property proved here holds for all of them. */
module Codecs {
  import opened Types

  /** The codec capabilities, kept uninterpreted. A writer is given the value of the ambient
      `JsState.IsWritingDynamic` flag at the moment it runs, which is all it can observe of it. */
  datatype Codec = Codec(
    parseRoot: (JsType, string) -> Val,          // JsonReader<T>.Parse
    parseFn: (JsType, string) -> Val,            // JsonReader.GetParseFn(type)(text)
    writeRoot: (JsType, Val, bool) -> string,    // JsonWriter<T>.WriteRootObject
    writeFn: (JsType, Val, bool) -> string,      // JsonWriter.GetWriteFn(type)(writer, value)
    writeString: Option<string> -> string,       // JsonUtils.WriteString (escapes and quotes)
    formatValue: Val -> string                   // Object.ToString, used by TextWriter.Write(object)
  )

  /** One call the dispatcher makes on a writer. */
  datatype WriteCall =
    | WriteRootObject(t: JsType, v: Val)   // JsonWriter<T>.WriteRootObject(writer, value)
    | WriteFn(t: JsType, v: Val)           // JsonWriter.GetWriteFn(type)(writer, value)
    | WriteString(s: Option<string>)       // JsonUtils.WriteString(writer, value as string)
    | WriteValue(v: Val)                   // writer.Write(value), written as is
    | Flush                                // StreamWriter.Flush()

  /** A call together with the value of `JsState.IsWritingDynamic` while it runs. */
  datatype Event = Event(call: WriteCall, dynamic: bool)

  /** True of the calls that resolve a general writer from the codec (not the string paths). */
  predicate IsGeneralWrite(call: WriteCall) {
    call.WriteRootObject? || call.WriteFn?
  }

  /** `TextWriter.Write(object)`: a string is written as it is, anything else through ToString. */
  function RawText(c: Codec, v: Val): (r: string)
    ensures v.Str? ==> r == v.s
  {
    if v.Str? then v.s else c.formatValue(v)
  }

  /** The characters one call hands to its writer. */
  function Emit(c: Codec, e: Event): string {
    match e.call
    case WriteRootObject(t, v) => c.writeRoot(t, v, e.dynamic)
    case WriteFn(t, v) => c.writeFn(t, v, e.dynamic)
    case WriteString(s) => c.writeString(s)
    case WriteValue(v) => RawText(c, v)
    case Flush => ""
  }

  /** Everything a sequence of calls hands to its writer, in order. */
  function Emitted(c: Codec, evs: seq<Event>): string
    decreases |evs|
  {
    if evs == [] then "" else Emitted(c, evs[..|evs| - 1]) + Emit(c, evs[|evs| - 1])
  }

  /** What a `StreamWriter` still holds in its buffer after the calls: the output of the calls
      since the last flush. A real writer may also pass data on early when its internal buffer
      fills; the serializers rely only on the state after their final flush, where the two
      agree, so only post-flush states of `Buffered` and `Delivered` are meaningful. */
  function Buffered(c: Codec, evs: seq<Event>): string
    decreases |evs|
  {
    if evs == [] then ""
    else if evs[|evs| - 1].call.Flush? then ""
    else Buffered(c, evs[..|evs| - 1]) + Emit(c, evs[|evs| - 1])
  }

  /** What a `StreamWriter` has passed on to its stream after the calls: each flush moves the
      buffer to the stream. */
  function Delivered(c: Codec, evs: seq<Event>): string
    decreases |evs|
  {
    if evs == [] then ""
    else if evs[|evs| - 1].call.Flush? then Delivered(c, evs[..|evs| - 1]) + Buffered(c, evs[..|evs| - 1])
    else Delivered(c, evs[..|evs| - 1])
  }

  /** A single call emits its own output and nothing else. */
  lemma EmittedOne(c: Codec, e: Event)
    ensures Emitted(c, [e]) == Emit(c, e)
  {
    assert [e][..0] == [];
  }

  /** Nothing a stream writer accepts is lost or reordered: what reached the stream followed by
      what is still buffered is exactly what the calls emitted. */
  lemma {:induction false} DeliveredThenBuffered(c: Codec, evs: seq<Event>)
    ensures Delivered(c, evs) + Buffered(c, evs) == Emitted(c, evs)
    decreases |evs|
  {
    if evs != [] {
      var prefix, last := evs[..|evs| - 1], evs[|evs| - 1];
      DeliveredThenBuffered(c, prefix);
      if last.call.Flush? {
        assert Emit(c, last) == "";
        assert Emitted(c, evs) == Emitted(c, prefix) + "";
      } else {
        calc {
          Delivered(c, evs) + Buffered(c, evs);
          Delivered(c, prefix) + (Buffered(c, prefix) + Emit(c, last));
          (Delivered(c, prefix) + Buffered(c, prefix)) + Emit(c, last);
        }
      }
    }
  }

  /** Once the last call is a flush, the stream has received everything the calls emitted. */
  lemma FlushedDeliversAll(c: Codec, evs: seq<Event>)
    requires evs != [] && evs[|evs| - 1].call.Flush?
    ensures Delivered(c, evs) == Emitted(c, evs)
  {
    DeliveredThenBuffered(c, evs);
  }

  /** A single write followed by a flush hands exactly that write's output to the stream. */
  lemma WriteThenFlush(c: Codec, e: Event, flush: Event)
    requires !e.call.Flush? && flush.call.Flush?
    ensures Delivered(c, [e, flush]) == Emitted(c, [e, flush]) == Emit(c, e)
  {
    var evs := [e, flush];
    assert evs[..1] == [e];
    EmittedOne(c, e);
    assert Emit(c, flush) == "";
    FlushedDeliversAll(c, evs);
  }
}
