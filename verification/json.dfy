/** The schema-and-data document of `Model.toJSON` / `Model.fromJSON`, as pure
    functions over a collection's name, its declared fields and its records'
    data maps. The store's `ToJson` and `FromJson` are built on these. */
module Json {
  import opened Outcomes
  import opened Values
  import opened Types
  import opened Records

  /** `{name, fields, data}`: the fields object's entries in key order, and one
      exported data map per stored entry. */
  datatype Doc<M> = Doc(name: string, fields: seq<(string, FieldDesc<M>)>, data: seq<Props<M>>)

  /** What `fromJSON` rebuilds: the name, the schema, and each record's data
      map after `_createObject`. */
  datatype Loaded<M> = Loaded(name: string, fields: Schema<M>, rows: seq<Props<M>>)

  /** All values when every result is a value, otherwise the first error (the
      first `toJSON` that throws stops the `map`). */
  function Collect<T>(rs: seq<Result<T>>): (r: Result<seq<T>>)
    ensures r.Ok? <==> forall i :: 0 <= i < |rs| ==> rs[i].Ok?
    ensures r.Ok? ==> |r.value| == |rs| && forall i :: 0 <= i < |rs| ==> rs[i] == Ok(r.value[i])
    ensures r.Err? ==> exists i :: 0 <= i < |rs| && rs[i] == Err(r.error) && forall j :: 0 <= j < i ==> rs[j].Ok?
  {
    if rs == [] then Ok([])
    else match rs[0]
      case Err(e) => Err(e)
      case Ok(v) =>
        match Collect(rs[1..])
        case Err(e) =>
          var i :| 0 <= i < |rs[1..]| && rs[1..][i] == Err(e) && forall j :: 0 <= j < i ==> rs[1..][j].Ok?;
          assert rs[i + 1] == Err(e);
          Err(e)
        case Ok(vs) => Ok([v] + vs)
  }

  /** The `fields` part of `toJSON`: each field's description under its name,
      in the key order of the `fields` object. */
  function DescribeSchema<M>(fields: Schema<M>, nameOf: M -> string): (r: Result<seq<(string, FieldDesc<M>)>>)
    ensures r.Ok? <==> forall i :: 0 <= i < |fields| ==> Describe(fields[i].1, nameOf).Ok?
    ensures r.Ok? ==> |r.value| == |fields|
    ensures r.Ok? ==> forall i :: 0 <= i < |fields| ==>
      r.value[i].0 == fields[i].0 && Ok(r.value[i].1) == Describe(fields[i].1, nameOf)
  {
    if fields == [] then Ok([])
    else match Describe(fields[0].1, nameOf)
      case Err(e) => Err(e)
      case Ok(d) =>
        match DescribeSchema(fields[1..], nameOf)
        case Err(e) => Err(e)
        case Ok(ds) => Ok([(fields[0].0, d)] + ds)
  }

  /** `Model.toJSON`: the fields are described first, then every entry is
      exported; `rows` holds each entry's export, which may have failed. */
  function Dump<M>(name: string, fields: Schema<M>, nameOf: M -> string, rows: seq<Result<Props<M>>>): (r: Result<Doc<M>>)
    ensures r.Ok? <==> DescribeSchema(fields, nameOf).Ok? && forall i :: 0 <= i < |rows| ==> rows[i].Ok?
    ensures r.Ok? ==> r.value.name == name && |r.value.fields| == |fields| && |r.value.data| == |rows|
  {
    match DescribeSchema(fields, nameOf)
    case Err(e) => Err(e)
    case Ok(ds) =>
      match Collect(rows)
      case Err(e) => Err(e)
      case Ok(data) => Ok(Doc(name, ds, data))
  }

  /** The `reduce` over `json.fields` in `fromJSON`: every description is
      rebuilt with the caller's map of collections, and the only failure is an
      unknown type name. */
  function RebuildSchema<M>(descs: seq<(string, FieldDesc<M>)>, targets: map<string, M>): (r: Result<Schema<M>>)
    ensures r.Err? <==> exists i :: 0 <= i < |descs| && FromJson(descs[i].1.name).None?
    ensures r.Err? ==> r.error.UnknownType?
    ensures r.Ok? ==> |r.value| == |descs|
    ensures r.Ok? ==> forall i :: 0 <= i < |descs| ==>
      r.value[i].0 == descs[i].0 && Rebuild(descs[i].1, targets) == Ok(r.value[i].1)
  {
    if descs == [] then Ok([])
    else match Rebuild(descs[0].1, targets)
      case Err(e) => Err(e)
      case Ok(f) =>
        match RebuildSchema(descs[1..], targets)
        case Err(e) =>
          var i :| 0 <= i < |descs[1..]| && FromJson(descs[1..][i].1.name).None?;
          assert FromJson(descs[i + 1].1.name).None?;
          Err(e)
        case Ok(fs) => Ok([(descs[0].0, f)] + fs)
  }

  /** The `map` over `json.data` in `fromJSON`: each data map goes through
      `_createObject` while the new collection is still empty, so every
      missing or falsy id becomes 1. */
  function LoadRows<M>(fields: Schema<M>, rows: seq<Props<M>>): (r: Result<seq<Props<M>>>)
    ensures r.Ok? <==> forall i :: 0 <= i < |rows| ==> Prepare(fields, rows[i], Num(1)).error.None?
    ensures r.Ok? ==> |r.value| == |rows|
    ensures r.Ok? ==> forall i :: 0 <= i < |rows| ==> r.value[i] == Prepare(fields, rows[i], Num(1)).props
  {
    if rows == [] then Ok([])
    else
      var p := Prepare(fields, rows[0], Num(1));
      if p.error.Some? then Err(p.error.value)
      else match LoadRows(fields, rows[1..])
        case Err(e) => Err(e)
        case Ok(ps) => Ok([p.props] + ps)
  }

  /** Loading one more record extends the loaded data maps by its prepared
      map, or stops at its error. */
  lemma {:induction false} LoadRowsSnoc<M>(fields: Schema<M>, rows: seq<Props<M>>, x: Props<M>)
    requires LoadRows(fields, rows).Ok?
    ensures var p := Prepare(fields, x, Num(1));
      LoadRows(fields, rows + [x]) ==
        if p.error.Some? then Err(p.error.value) else Ok(LoadRows(fields, rows).value + [p.props])
  {
    if rows != [] {
      assert (rows + [x])[1..] == rows[1..] + [x];
      LoadRowsSnoc(fields, rows[1..], x);
      var head, tail := Prepare(fields, rows[0], Num(1)).props, LoadRows(fields, rows[1..]).value;
      assert LoadRows(fields, rows).value == [head] + tail;
      assert [head] + (tail + [Prepare(fields, x, Num(1)).props]) == ([head] + tail) + [Prepare(fields, x, Num(1)).props];
    } else {
      assert rows + [x] == [x] && [x][1..] == [];
      assert LoadRows(fields, [x][1..]) == Ok([]);
      var p := Prepare(fields, x, Num(1)).props;
      assert [p] + [] == [] + [p];
    }
  }

  /** The first error stops the loading: later records do not matter. */
  lemma {:induction false} LoadRowsStops<M>(fields: Schema<M>, rows: seq<Props<M>>, rest: seq<Props<M>>)
    requires LoadRows(fields, rows).Err?
    ensures LoadRows(fields, rows + rest) == LoadRows(fields, rows)
  {
    assert rows != [];
    assert (rows + rest)[1..] == rows[1..] + rest;
    if Prepare(fields, rows[0], Num(1)).error.None? {
      LoadRowsStops(fields, rows[1..], rest);
    }
  }

  /** `Model.fromJSON(json, args)`: the schema first, then the rows. */
  function Load<M>(doc: Doc<M>, targets: map<string, M>): (r: Result<Loaded<M>>)
    ensures r.Ok? ==> r.value.name == doc.name && |r.value.fields| == |doc.fields| && |r.value.rows| == |doc.data|
  {
    match RebuildSchema(doc.fields, targets)
    case Err(e) => Err(e)
    case Ok(fields) =>
      match LoadRows(fields, doc.data)
      case Err(e) => Err(e)
      case Ok(rows) => Ok(Loaded(doc.name, fields, rows))
  }

  /** A schema that survives describe and rebuild: no default is `undefined`,
      and every bound argument is a collection the caller maps back by name. */
  ghost predicate Portable<M>(fields: Schema<M>, nameOf: M -> string, targets: map<string, M>) {
    forall i :: 0 <= i < |fields| ==>
      && fields[i].1.defaultValue != Undefined
      && forall j :: 0 <= j < |fields[i].1.args| ==>
           fields[i].1.args[j].Object? &&
           nameOf(fields[i].1.args[j].target) in targets &&
           targets[nameOf(fields[i].1.args[j].target)] == fields[i].1.args[j].target
  }

  lemma DescribeRebuildSchema<M>(fields: Schema<M>, nameOf: M -> string, targets: map<string, M>)
    requires Portable(fields, nameOf, targets)
    ensures DescribeSchema(fields, nameOf).Ok?
    ensures RebuildSchema(DescribeSchema(fields, nameOf).value, targets) == Ok(fields)
  {
    forall i | 0 <= i < |fields|
      ensures Describe(fields[i].1, nameOf).Ok?
      ensures Rebuild(Describe(fields[i].1, nameOf).value, targets) == Ok(fields[i].1)
    {
      DescribeRebuild(fields[i].1, nameOf, targets);
    }
    var ds := DescribeSchema(fields, nameOf).value;
    assert forall i :: 0 <= i < |ds| ==> FromJson(ds[i].1.name).Some?;
    var back := RebuildSchema(ds, targets).value;
    forall i | 0 <= i < |fields|
      ensures back[i] == fields[i]
    {
      assert Ok(ds[i].1) == Describe(fields[i].1, nameOf);
      assert Rebuild(ds[i].1, targets) == Ok(back[i].1);
    }
    assert back == fields;
  }

  /** `toJSON` of every record, in order. */
  function ExportAll<M(==)>(rows: seq<Props<M>>): (r: seq<Result<Props<M>>>)
    ensures |r| == |rows| && forall i :: 0 <= i < |rows| ==> r[i] == Export(rows[i])
  {
    seq(|rows|, i requires 0 <= i < |rows| => Export(rows[i]))
  }

  /** Loading the exports of records that round-trip gives the records back. */
  lemma LoadExported<M>(fields: Schema<M>, rows: seq<Props<M>>, data: seq<Props<M>>)
    requires DistinctNames(fields)
    requires forall i :: 0 <= i < |rows| ==> RoundTrips(fields, rows[i])
    requires |data| == |rows| && forall i :: 0 <= i < |rows| ==> Export(rows[i]) == Ok(data[i])
    ensures LoadRows(fields, data) == Ok(rows)
  {
    forall i | 0 <= i < |rows|
      ensures Prepare(fields, data[i], Num(1)) == Prepared(rows[i], None)
    {
      ExportPrepare(fields, rows[i], Num(1));
    }
    var r := LoadRows(fields, data);
    assert r.Ok? && |r.value| == |rows|;
    assert forall i :: 0 <= i < |rows| ==> r.value[i] == rows[i];
    assert r.value == rows;
  }

  /** `fromJSON(toJSON(m))` gives back the name, the fields in order (type,
      default and bound collections) and every record's data map, when the
      schema is portable and every record round-trips. */
  lemma DumpLoad<M>(name: string, fields: Schema<M>, nameOf: M -> string, targets: map<string, M>, rows: seq<Props<M>>)
    requires DistinctNames(fields) && Portable(fields, nameOf, targets)
    requires forall i :: 0 <= i < |rows| ==> RoundTrips(fields, rows[i])
    ensures var d := Dump(name, fields, nameOf, ExportAll(rows));
      d.Ok? && Load(d.value, targets) == Ok(Loaded(name, fields, rows))
  {
    var exported := ExportAll(rows);
    forall i | 0 <= i < |rows|
      ensures exported[i].Ok?
    {
      ExportPrepare(fields, rows[i], Num(1));
    }
    DescribeRebuildSchema(fields, nameOf, targets);
    LoadExported(fields, rows, Collect(exported).value);
  }

  /** Records whose `id` is missing or falsy all load with id 1, because the
      collection being built is still empty while its records are prepared. */
  lemma LoadAssignsOne<M>(doc: Doc<M>, targets: map<string, M>, i: nat, at: nat)
    requires Load(doc, targets).Ok?
    requires DistinctNames(RebuildSchema(doc.fields, targets).value)
    requires at < |doc.fields| && doc.fields[at].0 == "id" && doc.fields[at].1.name == "ID"
    requires i < |doc.data| && !Truthy(Read(doc.data[i], "id"))
    ensures "id" in Load(doc, targets).value.rows[i]
    ensures Load(doc, targets).value.rows[i]["id"] == Num(1)
  {
    var fields := RebuildSchema(doc.fields, targets).value;
    assert Rebuild(doc.fields[at].1, targets) == Ok(fields[at].1);
    PrepareId(fields, doc.data[i], Num(1), at);
  }
}
