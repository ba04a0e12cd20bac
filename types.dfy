/** Static types, runtime values and the type classifier of the JSON dispatch layer.
    Reflection (`IsAbstract`, `IsInterface`, `GetType`) is replaced by datatype tags. */
module Types {

  /** A C# reference that may be null: `None` is null. */
  datatype Option<+T> = None | Some(value: T)

  /** A type as the dispatcher sees it: `typeof(T)` of a generic entry point or the `Type`
      argument of a type-token entry point. */
  datatype JsType =
    | ObjectType                                  // typeof(object)
    | StringType                                  // typeof(string)
    | AbstractType(name: string)                  // an abstract class
    | InterfaceType(name: string)                 // an interface
    | ConcreteType(name: string, isNonNullableValueType: bool)
      // any other class, delegate type or struct; the flag is true for a struct other than
      // `Nullable<T>`, whose default is null and which is therefore tagged like a reference type

  /** A runtime value handed to a serializer or produced by a parser. A string is always `Str`
      and a delegate always `Delegate`: `Instance` stands for the other objects only, so its
      runtime type is never `StringType` nor that of a delegate. */
  datatype Val =
    | Null
    | Str(s: string)                              // a System.String
    | Delegate(typeName: string)                  // an instance of some delegate type
    | Instance(runtimeType: JsType, state: seq<int>) // any other object, boxed structs included

  /** `typeof(T) == typeof(object) || typeof(T).IsAbstract() || typeof(T).IsInterface()`:
      the static type carries too little to pick a writer, so the value's runtime type is used. */
  predicate IsPolymorphic(t: JsType) {
    t.ObjectType? || t.AbstractType? || t.InterfaceType?
  }

  /** `typeof(T).IsAbstract() || typeof(T).IsInterface()`: the static types for which the
      dynamic-write flag is raised around the re-dispatch. `object` is not among them. */
  predicate IsAbstractOrInterface(t: JsType) {
    t.AbstractType? || t.InterfaceType?
  }

  /** `value.GetType()`, defined on non-null values only. */
  function RuntimeType(v: Val): (r: JsType)
    requires !v.Null?
    ensures v.Str? ==> r == StringType
    ensures v.Delegate? ==> r.ConcreteType? && !r.isNonNullableValueType
  {
    match v
    case Str(_) => StringType
    case Delegate(n) => ConcreteType(n, false)
    case Instance(rt, _) => rt
  }

  /** `default(T)`: null for every reference type and for `Nullable<T>`, the all-zero instance
      for any other value type. */
  function DefaultOf(t: JsType): (r: Val)
    ensures r.Null? <==> !(t.ConcreteType? && t.isNonNullableValueType)
    ensures !r.Null? ==> r.Instance? && r.runtimeType == t
  {
    if t.ConcreteType? && t.isNonNullableValueType then Instance(t, []) else Null
  }

  /** `value as string`: the string itself, or null when the value is not a string. */
  function AsString(v: Val): (r: Option<string>)
    ensures r.Some? <==> v.Str?
    ensures v.Str? ==> r.value == v.s
  {
    if v.Str? then Some(v.s) else None
  }

  /** `string.IsNullOrEmpty(value)`. */
  predicate IsNullOrEmpty(text: Option<string>) {
    text.None? || text.value == ""
  }
}
