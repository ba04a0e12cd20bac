/** What each serializing entry point of `JsonSerializer` does, as a function of the value, the
    type and the dynamic-write flag it starts from: the calls it makes on its writer (each with
    the flag it sees), the string it returns, and the flag it leaves behind. The methods of
    `Serializer.JsonSerializer` are proved to behave exactly so. */
module Dispatch {
  import opened Types
  import opened Codecs

  /** The observable effect of one serializer call. `returned` is the result of a
      `SerializeToString` entry (`None` is null) and `None` for the void entry points. */
  datatype Effect = Effect(returned: Option<string>, events: seq<Event>, flagAfter: bool)

  /** The flag while a generic entry re-dispatches on the runtime type: raised for an abstract
      or interface type, left as it was for `object`. */
  function FlagDuring(t: JsType, flag: bool): (r: bool)
    requires IsPolymorphic(t)
    ensures r == (IsAbstractOrInterface(t) || flag)
  {
    if IsAbstractOrInterface(t) then true else flag
  }

  /** The flag once the re-dispatch has returned: cleared (not restored) for an abstract or
      interface type, left as it was for `object`. */
  function FlagAfterward(t: JsType, flag: bool): (r: bool)
    requires IsPolymorphic(t)
    ensures r == (!IsAbstractOrInterface(t) && flag)
  {
    if IsAbstractOrInterface(t) then false else flag
  }

  /** The one write the type-token string serializer makes for a non-null value. */
  function StringWriteOfType(v: Val, t: JsType): WriteCall {
    if t == StringType then WriteString(AsString(v)) else WriteFn(t, v)
  }

  /** `SerializeToString(object, Type)`: null only for a null value (a delegate is written
      like anything else); a string type goes through the escaping primitive and no general
      writer; the flag is never touched. */
  function SerializeToStringOfType(c: Codec, v: Val, t: JsType, flag: bool): (r: Effect)
    ensures r.returned.None? <==> v.Null?
    ensures r.returned.Some? ==> r.returned.value == Emitted(c, r.events)
    ensures v.Null? ==> r.events == []
    ensures !v.Null? && t == StringType ==> r.events == [Event(WriteString(AsString(v)), flag)]
    ensures !v.Null? && t != StringType ==> r.events == [Event(WriteFn(t, v), flag)]
    ensures forall e <- r.events :: e.dynamic == flag
    ensures r.flagAfter == flag
  {
    if v.Null? then Effect(None, [], flag)
    else
      var e := Event(StringWriteOfType(v, t), flag);
      EmittedOne(c, e);
      Effect(Some(Emit(c, e)), [e], flag)
  }

  /** `SerializeToString<T>`: null for a null value or a delegate, with no write at all; for an
      `object`, abstract or interface type, exactly what the type-token serializer returns for
      the value's runtime type, with the flag raised around it only for abstract and interface
      types and cleared afterwards; for `string` the escaping primitive and no general writer;
      for any other type a single `WriteRootObject` of the value itself. */
  function SerializeToString(c: Codec, v: Val, t: JsType, flag: bool): (r: Effect)
    ensures r.returned.None? <==> v.Null? || v.Delegate?
    ensures r.returned.None? ==> r.events == [] && r.flagAfter == flag
    ensures r.returned.Some? ==> r.returned.value == Emitted(c, r.events) && |r.events| == 1
    ensures IsPolymorphic(t) && r.returned.Some? ==>
              r.returned == SerializeToStringOfType(c, v, RuntimeType(v), FlagDuring(t, flag)).returned
    ensures IsPolymorphic(t) && r.returned.Some? ==>
              r.events == SerializeToStringOfType(c, v, RuntimeType(v), FlagDuring(t, flag)).events
    ensures t == StringType && r.returned.Some? ==> r.events == [Event(WriteString(AsString(v)), flag)]
    ensures !IsPolymorphic(t) && t != StringType && r.returned.Some? ==>
              r.events == [Event(WriteRootObject(t, v), flag)]
    ensures forall e <- r.events :: e.dynamic == (IsAbstractOrInterface(t) || flag)
    ensures r.flagAfter == (flag && !(IsAbstractOrInterface(t) && r.returned.Some?))
  {
    if v.Null? || v.Delegate? then Effect(None, [], flag)
    else if IsPolymorphic(t) then
      var inner := SerializeToStringOfType(c, v, RuntimeType(v), FlagDuring(t, flag));
      Effect(inner.returned, inner.events, FlagAfterward(t, inner.flagAfter))
    else
      var call := if t == StringType then WriteString(AsString(v)) else WriteRootObject(t, v);
      var e := Event(call, flag);
      EmittedOne(c, e);
      Effect(Some(Emit(c, e)), [e], flag)
  }

  /** `SerializeToWriter(object, Type, TextWriter)`: nothing for null; a string type writes the
      value as it is, unescaped; any other type one call of the type's write function. */
  function SerializeToWriterOfType(v: Val, t: JsType, flag: bool): (r: Effect)
    ensures r.returned.None? && r.flagAfter == flag
    ensures r.events == [] <==> v.Null?
    ensures !v.Null? && t == StringType ==> r.events == [Event(WriteValue(v), flag)]
    ensures !v.Null? && t != StringType ==> r.events == [Event(WriteFn(t, v), flag)]
    ensures forall e <- r.events :: e.dynamic == flag
  {
    if v.Null? then Effect(None, [], flag)
    else if t == StringType then Effect(None, [Event(WriteValue(v), flag)], flag)
    else Effect(None, [Event(WriteFn(t, v), flag)], flag)
  }

  /** `SerializeToWriter<T>(T, TextWriter)`: nothing for null (a delegate is not excluded); a
      `string` type writes the value raw, before any dynamic check; `object`, abstract and
      interface types write what the type-token writer writes for the runtime type, with the
      flag discipline of `SerializeToString<T>`; any other type a single `WriteRootObject`. */
  function SerializeToWriter(v: Val, t: JsType, flag: bool): (r: Effect)
    ensures r.returned.None?
    ensures r.events == [] <==> v.Null?
    ensures |r.events| <= 1
    ensures t == StringType && !v.Null? ==> r.events == [Event(WriteValue(v), flag)]
    ensures IsPolymorphic(t) && !v.Null? ==>
              r.events == SerializeToWriterOfType(v, RuntimeType(v), FlagDuring(t, flag)).events
    ensures !IsPolymorphic(t) && t != StringType && !v.Null? ==>
              r.events == [Event(WriteRootObject(t, v), flag)]
    ensures forall e <- r.events :: e.dynamic == (IsAbstractOrInterface(t) || flag)
    ensures r.flagAfter == (flag && !(IsAbstractOrInterface(t) && !v.Null?))
  {
    if v.Null? then Effect(None, [], flag)
    else if t == StringType then Effect(None, [Event(WriteValue(v), flag)], flag)
    else if IsPolymorphic(t) then
      var inner := SerializeToWriterOfType(v, RuntimeType(v), FlagDuring(t, flag));
      Effect(None, inner.events, FlagAfterward(t, inner.flagAfter))
    else Effect(None, [Event(WriteRootObject(t, v), flag)], flag)
  }

  /** `SerializeToStream(object, Type, Stream)`: no null guard and no string path: the type's
      write function runs for every value, null included, and the writer is flushed, so the
      stream receives all it wrote. */
  function SerializeToStreamOfType(c: Codec, v: Val, t: JsType, flag: bool): (r: Effect)
    ensures r.returned.None? && r.flagAfter == flag
    ensures r.events == [Event(WriteFn(t, v), flag), Event(Flush, flag)]
    ensures Delivered(c, r.events) == Emitted(c, r.events) == c.writeFn(t, v, flag)
  {
    WriteThenFlush(c, Event(WriteFn(t, v), flag), Event(Flush, flag));
    Effect(None, [Event(WriteFn(t, v), flag), Event(Flush, flag)], flag)
  }

  /** `SerializeToStream<T>(T, Stream)`: nothing at all for null; `object`, abstract and
      interface types defer to the type-token stream serializer for the runtime type, with the
      flag discipline of `SerializeToString<T>`; any other type, `string` included, one
      `WriteRootObject` of the value followed by a flush. */
  function SerializeToStream(c: Codec, v: Val, t: JsType, flag: bool): (r: Effect)
    ensures r.returned.None?
    ensures v.Null? ==> r.events == [] && r.flagAfter == flag
    ensures !v.Null? ==> |r.events| == 2 && r.events[1].call == Flush
    ensures !v.Null? ==> Delivered(c, r.events) == Emitted(c, r.events)
    ensures IsPolymorphic(t) && !v.Null? ==>
              r.events == SerializeToStreamOfType(c, v, RuntimeType(v), FlagDuring(t, flag)).events
    ensures !IsPolymorphic(t) && !v.Null? ==> r.events[0].call == WriteRootObject(t, v)
    ensures forall e <- r.events :: e.dynamic == (IsAbstractOrInterface(t) || flag)
    ensures r.flagAfter == (flag && !(IsAbstractOrInterface(t) && !v.Null?))
  {
    if v.Null? then Effect(None, [], flag)
    else if IsPolymorphic(t) then
      var inner := SerializeToStreamOfType(c, v, RuntimeType(v), FlagDuring(t, flag));
      Effect(None, inner.events, FlagAfterward(t, inner.flagAfter))
    else
      WriteThenFlush(c, Event(WriteRootObject(t, v), flag), Event(Flush, flag));
      Effect(None, [Event(WriteRootObject(t, v), flag), Event(Flush, flag)], flag)
  }

  /** The delegate check is on the generic string serializer only: given a delegate the
      generic one returns null without writing, the type-token one writes it. */
  lemma DelegateCheckOnlyInGenericString(c: Codec, v: Val, t: JsType, u: JsType, flag: bool)
    requires v.Delegate?
    ensures SerializeToString(c, v, t, flag) == Effect(None, [], flag)
    ensures SerializeToStringOfType(c, v, u, flag).returned.Some?
    ensures SerializeToWriter(v, u, flag).events != []
  {
  }

  /** The string paths of the three destinations differ: `SerializeToString` escapes through
      `WriteString` only, `SerializeToWriter` writes the characters themselves, and
      `SerializeToStream` has no string path and hands the string to `WriteRootObject`. */
  lemma StringPathsDiffer(c: Codec, s: string, flag: bool)
    ensures SerializeToString(c, Str(s), StringType, flag).returned == Some(c.writeString(Some(s)))
    ensures forall e <- SerializeToString(c, Str(s), StringType, flag).events :: !IsGeneralWrite(e.call)
    ensures Emitted(c, SerializeToWriter(Str(s), StringType, flag).events) == s
    ensures SerializeToStream(c, Str(s), StringType, flag).events[0].call == WriteRootObject(StringType, Str(s))
  {
    EmittedOne(c, Event(WriteValue(Str(s)), flag));
  }

  /** A value whose static type is `object` but whose runtime type is a string is escaped by
      the generic string serializer, through the re-dispatch, and written raw to a writer. */
  lemma ObjectHoldingStringIsEscaped(c: Codec, s: string, flag: bool)
    ensures SerializeToString(c, Str(s), ObjectType, flag).returned == Some(c.writeString(Some(s)))
    ensures Emitted(c, SerializeToWriter(Str(s), ObjectType, flag).events) == s
  {
    EmittedOne(c, Event(WriteValue(Str(s)), flag));
  }

  /** Null on a stream: the generic serializer writes nothing, not even a flush; the type-token
      one still runs the type's write function on null and flushes what it wrote. */
  lemma NullOnStream(c: Codec, t: JsType, u: JsType, flag: bool)
    ensures SerializeToStream(c, Null, t, flag).events == []
    ensures SerializeToStreamOfType(c, Null, u, flag).events[0].call == WriteFn(u, Null)
    ensures Delivered(c, SerializeToStreamOfType(c, Null, u, flag).events) == c.writeFn(u, Null, flag)
  {
  }

  /** For an abstract or interface type the output does not depend on the flag the call starts
      from, and is what the runtime type's writer produces with the flag raised; for `object` it
      is produced under whatever flag the caller left. */
  lemma PolymorphicOutput(c: Codec, v: Val, t: JsType, flag: bool)
    requires IsPolymorphic(t) && !v.Null? && !v.Delegate?
    ensures IsAbstractOrInterface(t) ==>
              SerializeToString(c, v, t, flag).returned == SerializeToString(c, v, t, !flag).returned
    ensures RuntimeType(v) != StringType ==>
              SerializeToString(c, v, t, flag).returned
              == Some(c.writeFn(RuntimeType(v), v, IsAbstractOrInterface(t) || flag))
  {
  }
}
