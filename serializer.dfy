/** The serializing entry points of `JsonSerializer` as they run: they set and reset the ambient
    `JsState.IsWritingDynamic` flag around the re-dispatch and hand their writers to the codec.
    Each method is proved to have exactly the effect `Dispatch` gives for it. */
module Serializer {
  import opened Types
  import opened Codecs
  import Dispatch

  /** A character destination: the `StringBuilder` behind a `StringWriter`, a caller's
      `TextWriter`, the buffer of a `StreamWriter`, or the characters a `Stream` has received. */
  class Sink {
    var text: string

    constructor ()
      ensures text == []
    {
      text := [];
    }
  }

  /** The library's state as one sequential caller sees it: the codec it delegates to, the
      ambient dynamic-write flag, and (for the proofs only) every write call made so far, each
      with the flag it saw. */
  class JsonSerializer {
    const codec: Codec
    var isWritingDynamic: bool
    ghost var trace: seq<Event>

    constructor (codec: Codec)
      ensures this.codec == codec && !isWritingDynamic && trace == []
    {
      this.codec := codec;
      isWritingDynamic := false;
      trace := [];
    }

    /** One call into the codec or the writer: its output goes to `w` and the call is
        recorded with the flag it sees. */
    method Write(call: WriteCall, w: Sink)
      requires !call.Flush?
      modifies this`trace, w
      ensures w.text == old(w.text) + Emit(codec, Event(call, isWritingDynamic))
      ensures trace == old(trace) + [Event(call, isWritingDynamic)]
    {
      var e := Event(call, isWritingDynamic);
      w.text := w.text + Emit(codec, e);
      trace := trace + [e];
    }

    /** `StreamWriter.Flush()`: what the writer buffered moves to its stream. */
    method FlushStreamWriter(writer: Sink, stream: Sink)
      requires writer != stream
      modifies this`trace, writer, stream
      ensures stream.text == old(stream.text) + old(writer.text) && writer.text == []
      ensures trace == old(trace) + [Event(WriteCall.Flush, isWritingDynamic)]
    {
      stream.text := stream.text + writer.text;
      writer.text := [];
      trace := trace + [Event(WriteCall.Flush, isWritingDynamic)];
    }

    /** `SerializeToString(object, Type)`. */
    method SerializeToStringOfType(value: Val, t: JsType) returns (r: Option<string>)
      modifies this`trace
      ensures var e := Dispatch.SerializeToStringOfType(codec, value, t, isWritingDynamic);
              r == e.returned && trace == old(trace) + e.events
    {
      if value.Null? {
        return None;
      }
      var sb := new Sink();
      if t == StringType {
        Write(WriteString(AsString(value)), sb);
      } else {
        Write(WriteFn(t, value), sb);
      }
      EmittedOne(codec, trace[|trace| - 1]);
      r := Some(sb.text);
    }

    /** `SerializeToString<T>(T)`, with `t` standing for `typeof(T)`. */
    method SerializeToString(value: Val, t: JsType) returns (r: Option<string>)
      modifies this`isWritingDynamic, this`trace
      ensures var e := Dispatch.SerializeToString(codec, value, t, old(isWritingDynamic));
              r == e.returned && isWritingDynamic == e.flagAfter && trace == old(trace) + e.events
    {
      if value.Null? || value.Delegate? {
        return None;
      }
      if IsPolymorphic(t) {
        if IsAbstractOrInterface(t) { isWritingDynamic := true; }
        r := SerializeToStringOfType(value, RuntimeType(value));
        if IsAbstractOrInterface(t) { isWritingDynamic := false; }
        return;
      }
      var sb := new Sink();
      if t == StringType {
        Write(WriteString(AsString(value)), sb);
      } else {
        Write(WriteRootObject(t, value), sb);
      }
      EmittedOne(codec, trace[|trace| - 1]);
      r := Some(sb.text);
    }

    /** `SerializeToWriter(object, Type, TextWriter)`. */
    method SerializeToWriterOfType(value: Val, t: JsType, writer: Sink)
      modifies this`trace, writer
      ensures var e := Dispatch.SerializeToWriterOfType(value, t, isWritingDynamic);
              writer.text == old(writer.text) + Emitted(codec, e.events) && trace == old(trace) + e.events
    {
      if value.Null? {
        return;
      }
      if t == StringType {
        Write(WriteValue(value), writer);
      } else {
        Write(WriteFn(t, value), writer);
      }
      EmittedOne(codec, trace[|trace| - 1]);
    }

    /** `SerializeToWriter<T>(T, TextWriter)`, with `t` standing for `typeof(T)`. */
    method SerializeToWriter(value: Val, t: JsType, writer: Sink)
      modifies this`isWritingDynamic, this`trace, writer
      ensures var e := Dispatch.SerializeToWriter(value, t, old(isWritingDynamic));
              writer.text == old(writer.text) + Emitted(codec, e.events)
              && isWritingDynamic == e.flagAfter && trace == old(trace) + e.events
    {
      if value.Null? {
        return;
      }
      if t == StringType {
        Write(WriteValue(value), writer);
        EmittedOne(codec, trace[|trace| - 1]);
        return;
      }
      if IsPolymorphic(t) {
        if IsAbstractOrInterface(t) { isWritingDynamic := true; }
        SerializeToWriterOfType(value, RuntimeType(value), writer);
        if IsAbstractOrInterface(t) { isWritingDynamic := false; }
        return;
      }
      Write(WriteRootObject(t, value), writer);
      EmittedOne(codec, trace[|trace| - 1]);
    }

    /** `SerializeToStream(object, Type, Stream)`: a fresh `StreamWriter` over the stream, one
        call of the type's write function, then a flush. */
    method SerializeToStreamOfType(value: Val, t: JsType, stream: Sink)
      modifies this`trace, stream
      ensures var e := Dispatch.SerializeToStreamOfType(codec, value, t, isWritingDynamic);
              stream.text == old(stream.text) + Delivered(codec, e.events) && trace == old(trace) + e.events
    {
      ghost var spec := Dispatch.SerializeToStreamOfType(codec, value, t, isWritingDynamic);
      var writer := new Sink();
      Write(WriteFn(t, value), writer);
      assert writer.text == codec.writeFn(t, value, isWritingDynamic);
      FlushStreamWriter(writer, stream);
      assert trace == old(trace) + spec.events;
    }

    /** `SerializeToStream<T>(T, Stream)`, with `t` standing for `typeof(T)`. */
    method SerializeToStream(value: Val, t: JsType, stream: Sink)
      modifies this`isWritingDynamic, this`trace, stream
      ensures var e := Dispatch.SerializeToStream(codec, value, t, old(isWritingDynamic));
              stream.text == old(stream.text) + Delivered(codec, e.events)
              && isWritingDynamic == e.flagAfter && trace == old(trace) + e.events
    {
      if value.Null? {
        return;
      }
      if IsPolymorphic(t) {
        if IsAbstractOrInterface(t) { isWritingDynamic := true; }
        SerializeToStreamOfType(value, RuntimeType(value), stream);
        if IsAbstractOrInterface(t) { isWritingDynamic := false; }
        return;
      }
      var writer := new Sink();
      Write(WriteRootObject(t, value), writer);
      FlushStreamWriter(writer, stream);
      WriteThenFlush(codec, Event(WriteRootObject(t, value), isWritingDynamic), Event(WriteCall.Flush, isWritingDynamic));
    }
  }
}
