/** Field types (types.js). A field type is a built-in kind together with the
    arguments it was constructed with: a default value and zero or more bound
    arguments (a REF field binds its target collection). It coerces raw values,
    reports its default, and describes itself as `{name, args, defaultValue}`. */
module Types {
  import opened Outcomes
  import opened Values

  /** The five built-in types, registered under these names. */
  datatype TypeName = ID | STRING | NUMBER | BOOLEAN | REF

  /** A bound construction argument: an object (a target collection) or a
      primitive value. */
  datatype Arg<M> = Object(target: M) | Primitive(value: Value<M>)

  /** What `types.K(defaultValue, ...args)` returns. */
  datatype Field<M> = Field(kind: TypeName, defaultValue: Value<M>, args: seq<Arg<M>>)

  /** The description a field serialises itself to. */
  datatype FieldDesc<M> = FieldDesc(name: string, args: seq<Value<M>>, defaultValue: Value<M>)

  /** The default each built-in type is registered with. */
  function BuiltinDefault<M>(k: TypeName): (d: Value<M>)
    ensures Truthy(d) == false && d != Undefined
  {
    match k
    case ID => Num(0)
    case STRING => Str("")
    case NUMBER => Num(0)
    case BOOLEAN => Bool(false)
    case REF => Null
  }

  function TypeNameString(k: TypeName): string {
    match k
    case ID => "ID"
    case STRING => "STRING"
    case NUMBER => "NUMBER"
    case BOOLEAN => "BOOLEAN"
    case REF => "REF"
  }

  /** `types.fromJSON(name)`: the built-in registered under `name`, if any. */
  function FromJson(name: string): (r: Option<TypeName>)
    ensures r.Some? ==> TypeNameString(r.value) == name
    ensures r.None? ==> forall k: TypeName :: TypeNameString(k) != name
  {
    if name == "ID" then Some(ID)
    else if name == "STRING" then Some(STRING)
    else if name == "NUMBER" then Some(NUMBER)
    else if name == "BOOLEAN" then Some(BOOLEAN)
    else if name == "REF" then Some(REF)
    else None
  }

  /** `types.K(d, ...args)`: JavaScript's default parameter replaces `d` by the
      built-in default exactly when `d` is `undefined` (omitted). */
  function MakeField<M>(k: TypeName, d: Value<M>, args: seq<Arg<M>>): (f: Field<M>)
    ensures f.kind == k && f.args == args
    ensures d != Undefined ==> f.defaultValue == d
    ensures d == Undefined ==> f.defaultValue == BuiltinDefault(k)
  {
    Field(k, if d.Undefined? then BuiltinDefault(k) else d, args)
  }

  /** `type.default()`: the value given at construction, never coerced. */
  function Default<M>(f: Field<M>): Value<M> {
    f.defaultValue
  }

  /** The collection a REF field resolves against: its first bound argument,
      when that is an object. */
  function Target<M>(f: Field<M>): Option<M> {
    if |f.args| > 0 && f.args[0].Object? then Some(f.args[0].target) else None
  }

  /** `type(value)`: ID and STRING pass the value through, NUMBER converts with
      `Number`, BOOLEAN with `Boolean`, and REF turns a non-null id into a lookup
      against its target. A REF without a target collection throws when it
      reads the target's name. */
  function Coerce<M>(f: Field<M>, v: Value<M>): (r: Result<Value<M>>)
    ensures r.Err? ==> f.kind == REF && v != Null && Target(f).None?
    ensures f.kind == ID || f.kind == STRING ==> r == Ok(v)
    ensures f.kind == NUMBER ==> r.Ok? && (r.value.Num? || r.value.NaN?) && (v.Num? ==> r.value == v)
    ensures f.kind == BOOLEAN ==> r.Ok? && r.value.Bool? && (r.value.b <==> Truthy(v))
    ensures f.kind == REF && v == Null ==> r == Ok(Null)
    ensures r.Ok? && f.kind == REF && v != Null ==> Target(f).Some? && r.value == Lookup(v, Target(f).value)
  {
    match f.kind
    case ID => Ok(v)
    case STRING => Ok(v)
    case NUMBER => Ok(ToNumber(v))
    case BOOLEAN => Ok(Bool(Truthy(v)))
    case REF =>
      if v == Null then Ok(Null)
      else if Target(f).Some? then Ok(Lookup(v, Target(f).value))
      else Err(MissingTarget)
  }

  /** The identity-coercion built-ins and the converting ones settle after one
      pass: coercing a coerced value again changes nothing. A REF does not
      settle, because a lookup is not the raw id it was made from. */
  lemma CoerceSettles<M>(f: Field<M>, v: Value<M>)
    requires f.kind != REF
    ensures Coerce(f, v).Ok?
    ensures Coerce(f, Coerce(f, v).value) == Coerce(f, v)
  {
    ToNumberIdempotent(v);
  }

  /** A bound argument as it appears in a description: an object is replaced by
      its name, `null` (whose `typeof` is "object") throws, and every other
      primitive passes through. */
  function DescribeArg<M>(a: Arg<M>, nameOf: M -> string): (r: Result<Value<M>>)
    ensures r.Err? <==> a == Primitive(Null)
    ensures r.Err? ==> r.error == NullArgument
    ensures a.Object? ==> r == Ok(Str(nameOf(a.target)))
    ensures a.Primitive? && r.Ok? ==> r.value == a.value
  {
    match a
    case Object(m) => Ok(Str(nameOf(m)))
    case Primitive(v) => if v == Null then Err(NullArgument) else Ok(v)
  }

  /** `type.toJSON()`: `{name, args, defaultValue}`. */
  function Describe<M>(f: Field<M>, nameOf: M -> string): (r: Result<FieldDesc<M>>)
    ensures r.Ok? <==> forall i :: 0 <= i < |f.args| ==> f.args[i] != Primitive(Null)
    ensures r.Ok? ==> r.value.name == TypeNameString(f.kind) && r.value.defaultValue == f.defaultValue
    ensures r.Ok? ==> |r.value.args| == |f.args|
    ensures r.Ok? ==> forall i :: 0 <= i < |f.args| ==>
      r.value.args[i] == (if f.args[i].Object? then Str(nameOf(f.args[i].target)) else f.args[i].value)
  {
    if exists i :: 0 <= i < |f.args| && f.args[i] == Primitive(Null) then Err(NullArgument)
    else
      Ok(FieldDesc(TypeNameString(f.kind),
                   seq(|f.args|, i requires 0 <= i < |f.args| => DescribeArg(f.args[i], nameOf).value),
                   f.defaultValue))
  }

  /** A described argument resolved against the caller's map of collections
      (`args[arg]`); a name the map lacks, and any non-string, resolves to
      `undefined`. */
  function ResolveArg<M>(v: Value<M>, targets: map<string, M>): (r: Arg<M>)
    ensures r.Object? <==> v.Str? && v.s in targets
    ensures r.Object? ==> r.target == targets[v.s]
    ensures r.Primitive? ==> r.value == Undefined
  {
    if v.Str? && v.s in targets then Object(targets[v.s]) else Primitive(Undefined)
  }

  /** One field of `Model.fromJSON`: look the type up by name (an unknown name
      throws), resolve the arguments, and call the type with the described
      default. */
  function Rebuild<M>(d: FieldDesc<M>, targets: map<string, M>): (r: Result<Field<M>>)
    ensures FromJson(d.name).None? <==> r == Err(UnknownType(d.name))
    ensures r.Ok? ==> TypeNameString(r.value.kind) == d.name && |r.value.args| == |d.args|
    ensures r.Ok? ==> forall i :: 0 <= i < |d.args| ==> r.value.args[i] == ResolveArg(d.args[i], targets)
    ensures r.Ok? && d.defaultValue != Undefined ==> Default(r.value) == d.defaultValue
  {
    match FromJson(d.name)
    case None => Err(UnknownType(d.name))
    case Some(k) =>
      Ok(MakeField(k, d.defaultValue, seq(|d.args|, i requires 0 <= i < |d.args| => ResolveArg(d.args[i], targets))))
  }

  /** A field whose bound arguments are all collections survives describe and
      rebuild, provided the caller maps each collection's name back to it. */
  lemma DescribeRebuild<M>(f: Field<M>, nameOf: M -> string, targets: map<string, M>)
    requires f.defaultValue != Undefined
    requires forall i :: 0 <= i < |f.args| ==> f.args[i].Object?
    requires forall i :: 0 <= i < |f.args| ==>
      nameOf(f.args[i].target) in targets && targets[nameOf(f.args[i].target)] == f.args[i].target
    ensures Describe(f, nameOf).Ok?
    ensures Rebuild(Describe(f, nameOf).value, targets) == Ok(f)
  {
    var d := Describe(f, nameOf).value;
    assert FromJson(TypeNameString(f.kind)) == Some(f.kind) by {
      match f.kind
      case ID =>
      case STRING =>
      case NUMBER =>
      case BOOLEAN =>
      case REF =>
    }
    var rebuilt := Rebuild(d, targets).value;
    assert rebuilt.args == f.args;
  }
}
