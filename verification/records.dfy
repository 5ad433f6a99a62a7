/** A record's data map and what the store does to it without touching the
    heap: reading a key, preparing the map for storage (the field loop of
    `Model._createObject`), and exporting it (`Row.toJSON`). */
module Records {
  import opened Outcomes
  import opened Values
  import opened Types

  /** A record's own keys and their values. */
  type Props<M> = map<string, Value<M>>

  /** A collection's declared fields, in the key order of the `fields`
      object (integer-like names first, then the others as declared). */
  type Schema<M> = seq<(string, Field<M>)>

  function Names<M>(fields: Schema<M>): (r: seq<string>)
    ensures |r| == |fields| && forall i :: 0 <= i < |fields| ==> r[i] == fields[i].0
  {
    seq(|fields|, i requires 0 <= i < |fields| => fields[i].0)
  }

  predicate Declared<M>(fields: Schema<M>, key: string) {
    key in Names(fields)
  }

  /** Field names are the keys of a JavaScript object, so they are distinct. */
  predicate DistinctNames<M>(fields: Schema<M>) {
    forall i, j :: 0 <= i < j < |fields| ==> fields[i].0 != fields[j].0
  }

  /** `data[key]`: a key the map lacks reads as `undefined`. */
  function Read<M>(props: Props<M>, key: string): (v: Value<M>)
    ensures key !in props ==> v == Undefined
  {
    if key in props then props[key] else Undefined
  }

  /** `row[key]`: the row defines an accessor onto the data map for each
      declared field only; any other attribute is `undefined`. */
  function Attribute<M>(fields: Schema<M>, props: Props<M>, key: string): Value<M> {
    if Declared(fields, key) then Read(props, key) else Undefined
  }

  /** `row.id`, which is `undefined` when the schema does not declare `id`. */
  function IdAttribute<M>(fields: Schema<M>, props: Props<M>): (v: Value<M>)
    ensures !Declared(fields, "id") ==> v == Undefined
    ensures Declared(fields, "id") ==> v == Read(props, "id")
  {
    Attribute(fields, props, "id")
  }

  /** An update callback that leaves the `id` key of each of these data maps
      as it found it. */
  ghost predicate KeepsIds<M>(edit: Props<M> -> Props<M>, ps: seq<Props<M>>) {
    forall t :: 0 <= t < |ps| ==> Read(edit(ps[t]), "id") == Read(ps[t], "id")
  }

  /** An update callback that gives each of these data maps an `id` that
      equals itself (is not NaN), so `save` finds the record it is handed. */
  ghost predicate ComparableIds<M>(edit: Props<M> -> Props<M>, ps: seq<Props<M>>) {
    forall t :: 0 <= t < |ps| ==> SelfEqual(Read(edit(ps[t]), "id"))
  }

  /** The data map after the field loop, and the error that stopped the loop,
      if one did. The loop writes each field as it goes, so a map that an error
      interrupted keeps the fields written before the failing one. */
  datatype Prepared<M> = Prepared(props: Props<M>, error: Option<Error>)

  /** The field loop of `_createObject`: each declared field that the map has
      is replaced by its coercion, and each one it lacks gets the type's
      default (which is not coerced). */
  function CoerceFields<M>(fields: Schema<M>, props: Props<M>): Prepared<M>
  {
    if fields == [] then Prepared(props, None)
    else
      var key, f := fields[0].0, fields[0].1;
      if key in props then
        match Coerce(f, props[key])
        case Err(e) => Prepared(props, Some(e))
        case Ok(v) => CoerceFields(fields[1..], props[key := v])
      else CoerceFields(fields[1..], props[key := Default(f)])
  }

  /** `_createObject`: a falsy `row.id` is first replaced by `next` (the
      collection's `nextId()`), then the field loop runs. */
  function Prepare<M>(fields: Schema<M>, props: Props<M>, next: Value<M>): Prepared<M>
  {
    var withId := if Truthy(IdAttribute(fields, props)) then props else props["id" := next];
    CoerceFields(fields, withId)
  }

  /** What a successful field loop leaves at one declared key: the coerced
      value when the key was present, the default when it was not. */
  predicate Settled<M(==)>(f: Field<M>, key: string, before: Props<M>, after: Props<M>) {
    key in after &&
    if key in before then Coerce(f, before[key]) == Ok(after[key]) else after[key] == Default(f)
  }

  /** The field loop never touches an undeclared key, error or not. */
  lemma {:induction false} CoerceFieldsKeepsUndeclared<M>(fields: Schema<M>, props: Props<M>)
    ensures var r := CoerceFields(fields, props);
      forall k :: !Declared(fields, k) ==> (k in r.props <==> k in props) && (k in props ==> r.props[k] == props[k])
  {
    if fields != [] {
      var key, f := fields[0].0, fields[0].1;
      var rest := fields[1..];
      assert forall k :: Declared(fields, k) <==> k == key || Declared(rest, k);
      if key in props {
        var c := Coerce(f, props[key]);
        if c.Ok? {
          CoerceFieldsKeepsUndeclared(rest, props[key := c.value]);
        }
      } else {
        CoerceFieldsKeepsUndeclared(rest, props[key := Default(f)]);
      }
    }
  }

  /** The field loop fails exactly when a present declared value fails to
      coerce, and the only failure is a REF field without a target. */
  lemma {:induction false} CoerceFieldsFails<M>(fields: Schema<M>, props: Props<M>)
    requires DistinctNames(fields)
    ensures var r := CoerceFields(fields, props);
      && (r.error.None? <==>
            forall i :: 0 <= i < |fields| && fields[i].0 in props ==> Coerce(fields[i].1, props[fields[i].0]).Ok?)
      && (r.error.Some? ==> r.error.value == MissingTarget)
  {
    if fields != [] {
      var key, f := fields[0].0, fields[0].1;
      var rest := fields[1..];
      assert DistinctNames(rest);
      assert forall i :: 0 <= i < |rest| ==> rest[i].0 != key;
      if key in props {
        var c := Coerce(f, props[key]);
        if c.Ok? {
          var next := props[key := c.value];
          CoerceFieldsFails(rest, next);
          assert forall i :: 0 <= i < |rest| ==> (rest[i].0 in next <==> rest[i].0 in props);
          assert forall i :: 0 <= i < |rest| && rest[i].0 in props ==> next[rest[i].0] == props[rest[i].0];
        }
      } else {
        var next := props[key := Default(f)];
        CoerceFieldsFails(rest, next);
        assert forall i :: 0 <= i < |rest| ==> (rest[i].0 in next <==> rest[i].0 in props);
        assert forall i :: 0 <= i < |rest| && rest[i].0 in props ==> next[rest[i].0] == props[rest[i].0];
      }
    }
  }

  /** When the field loop succeeds, every declared field is settled: coerced
      from the value it had, or given the default when it had none. */
  lemma {:induction false} CoerceFieldsSettles<M>(fields: Schema<M>, props: Props<M>)
    requires DistinctNames(fields)
    ensures var r := CoerceFields(fields, props);
      r.error.None? ==> forall i :: 0 <= i < |fields| ==> Settled(fields[i].1, fields[i].0, props, r.props)
  {
    if fields != [] {
      var key, f := fields[0].0, fields[0].1;
      var rest := fields[1..];
      assert DistinctNames(rest);
      assert forall i :: 0 <= i < |rest| ==> rest[i].0 != key;
      var r := CoerceFields(fields, props);
      var c := Coerce(f, Read(props, key));
      if key !in props || c.Ok? {
        var v := if key in props then c.value else Default(f);
        var next := props[key := v];
        CoerceFieldsSettles(rest, next);
        CoerceFieldsKeepsUndeclared(rest, next);
        assert r == CoerceFields(rest, next);
        assert !Declared(rest, key);
        if r.error.None? {
          assert Settled(f, key, props, r.props);
          forall i | 1 <= i < |fields|
            ensures Settled(fields[i].1, fields[i].0, props, r.props)
          {
            assert Settled(rest[i - 1].1, rest[i - 1].0, next, r.props);
          }
        }
      }
    }
  }

  /** `create`'s id rule: when `id` is declared as an ID field, a prepared
      record keeps a truthy id and gets `next` in place of a missing or falsy
      one (0 included). */
  lemma PrepareId<M>(fields: Schema<M>, props: Props<M>, next: Value<M>, at: nat)
    requires DistinctNames(fields)
    requires at < |fields| && fields[at].0 == "id" && fields[at].1.kind == ID
    requires Prepare(fields, props, next).error.None?
    ensures var r := Prepare(fields, props, next).props;
      "id" in r && r["id"] == if Truthy(Read(props, "id")) then props["id"] else next
  {
    var withId := if Truthy(IdAttribute(fields, props)) then props else props["id" := next];
    CoerceFieldsSettles(fields, withId);
    assert Settled(fields[at].1, "id", withId, Prepare(fields, props, next).props);
  }

  /** `nextId()` read off the stored ids in array order: 1 for an empty
      collection, otherwise the last entry's id plus one (not the largest id). */
  function NextIdOf<M>(ids: seq<Value<M>>): (r: Value<M>)
    ensures ids == [] ==> r == Num(1)
    ensures ids != [] && ids[|ids| - 1].Num? ==> r == Num(ids[|ids| - 1].n + 1)
  {
    if ids == [] then Num(1) else PlusOne(ids[|ids| - 1])
  }

  /** When every id is a number and the last one is the largest, the next id
      is larger than all of them, so it is fresh. */
  lemma NextIdFresh<M>(ids: seq<Value<M>>)
    requires forall i :: 0 <= i < |ids| ==> ids[i].Num?
    requires forall i :: 0 <= i < |ids| ==> ids[i].n <= ids[|ids| - 1].n
    ensures NextIdOf(ids).Num? && NextIdOf(ids) !in ids
    ensures forall i :: 0 <= i < |ids| ==> ids[i].n < NextIdOf(ids).n
  {
  }

  /** Once the last entry is not the one with the largest id (after
      `query().order(...)`, say), the next id can be one already in use:
      ids 2, 1 give next id 2. */
  lemma NextIdCollides<M>(ids: seq<Value<M>>)
    requires ids == [Num(2), Num(1)]
    ensures NextIdOf(ids) == Num(2) && NextIdOf(ids) in ids
  {
  }

  /** `v.toJSON ? v.toJSON() : v` for a value that is not null or undefined: a
      lookup exports its raw id, every other value itself. */
  function Plain<M>(v: Value<M>): Value<M> {
    if v.Lookup? then v.id else v
  }

  predicate Nullish<M>(v: Value<M>) {
    v.Null? || v.Undefined?
  }

  /** `Row.toJSON`: every own key of the data map, with each value exported;
      reading `.toJSON` of `null` or `undefined` throws. */
  function Export<M(==)>(props: Props<M>): (r: Result<Props<M>>)
    ensures r.Ok? <==> forall k :: k in props ==> !Nullish(props[k])
    ensures r.Ok? ==> r.value.Keys == props.Keys
    ensures r.Ok? ==> forall k :: k in props ==> r.value[k] == Plain(props[k])
  {
    if exists k :: k in props && Nullish(props[k]) then Err(NullishValue)
    else Ok(map k | k in props :: Plain(props[k]))
  }

  /** A coerced value coerces back to itself from its exported form: a REF's
      lookup exports its id, which coerces to the same lookup, and the other
      types settle. The exception is an ID or STRING field that was handed a
      lookup, which it stores unchanged but exports as the bare id. */
  lemma ExportedValueRecoerces<M>(f: Field<M>, v: Value<M>)
    requires f.kind == REF || !v.Lookup?
    requires Coerce(f, v).Ok?
    ensures Coerce(f, Plain(Coerce(f, v).value)) == Coerce(f, v)
  {
    if f.kind != REF {
      CoerceSettles(f, v);
    }
  }

  /** A data map that survives export followed by `_createObject`: the declared
      `id` is truthy once exported, no value is null or undefined, each declared
      field holds a value that coerces back to itself from its exported form, and
      no undeclared key holds a lookup. */
  predicate RoundTrips<M(==)>(fields: Schema<M>, props: Props<M>) {
    && Declared(fields, "id") && "id" in props && Truthy(Plain(props["id"]))
    && (forall k :: k in props ==> !Nullish(props[k]))
    && (forall i :: 0 <= i < |fields| ==>
          fields[i].0 in props && Coerce(fields[i].1, Plain(props[fields[i].0])) == Ok(props[fields[i].0]))
    && (forall k :: k in props && !Declared(fields, k) ==> !props[k].Lookup?)
  }

  /** Exporting a round-tripping map and preparing the export again gives the
      map back, whatever id the collection would have assigned. */
  lemma ExportPrepare<M>(fields: Schema<M>, props: Props<M>, next: Value<M>)
    requires DistinctNames(fields) && RoundTrips(fields, props)
    ensures Export(props).Ok?
    ensures Prepare(fields, Export(props).value, next) == Prepared(props, None)
  {
    var e := Export(props).value;
    assert IdAttribute(fields, e) == Plain(props["id"]);
    CoerceFieldsFails(fields, e);
    CoerceFieldsSettles(fields, e);
    CoerceFieldsKeepsUndeclared(fields, e);
    var r := CoerceFields(fields, e);
    assert r.props.Keys == props.Keys;
    forall k | k in props
      ensures r.props[k] == props[k]
    {
      if Declared(fields, k) {
        var i :| 0 <= i < |fields| && fields[i].0 == k;
        assert Settled(fields[i].1, k, e, r.props);
      }
    }
  }
}
