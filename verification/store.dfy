/** The table store's objects: a collection (`Model`, model.js) holding an
    array of entries, the row wrapper (`Row`, row.js) and the query view
    (`Query`, query.js). Records' data maps are plain objects shared by
    reference (`Obj`), and arrays are shared by reference too (`List`): the
    array `query()` returns is the collection's own, and `order` sorts it in
    place. */
module Store {
  import opened Outcomes
  import opened Values
  import opened Types
  import opened Lists
  import opened Records
  import opened Json
  import opened Sorting

  type Val = Value<Model>

  /** A `where` callback: whether a record passes, read from its data map. */
  type Filter = Props<Model> -> bool

  /** An update callback: the data map it leaves, from the one it finds. */
  type Edit = Props<Model> -> Props<Model>

  /** A plain JavaScript object holding a record's data. */
  class Obj {
    var props: Props<Model>

    constructor (props: Props<Model>)
      ensures this.props == props
    {
      this.props := props;
    }
  }

  /** A JavaScript array of entries. */
  class List {
    var elems: seq<Entry>

    constructor (elems: seq<Entry>)
      ensures this.elems == elems
    {
      this.elems := elems;
    }
  }

  /** What a collection's array holds: the rows `create` stores, or the bare
      data objects `Row.save` stores. */
  datatype Entry = RowItem(row: Row) | ObjItem(obj: Obj)

  function DataOf(e: Entry): Obj {
    match e
    case RowItem(r) => r.data
    case ObjItem(o) => o
  }

  ghost function Objs(s: seq<Entry>): set<Obj> {
    set e | e in s :: DataOf(e)
  }

  /** `e[key]`: a row answers through its accessors, a plain object with its
      own key. */
  function AttrOf(e: Entry, props: Props<Model>, key: string): Val {
    match e
    case RowItem(r) => Attribute(r.model.fields, props, key)
    case ObjItem(_) => Read(props, key)
  }

  /** The data maps of the entries, in order. */
  function PropsOf(s: seq<Entry>): (r: seq<Props<Model>>)
    reads Objs(s)
    ensures |r| == |s| && forall i :: 0 <= i < |s| ==> r[i] == DataOf(s[i]).props
  {
    seq(|s|, i requires 0 <= i < |s| reads Objs(s) => DataOf(s[i]).props)
  }

  /** The `key` attribute each entry of `s` shows when its data map is the
      one at the same position of `ps`. */
  function AttrsOf(s: seq<Entry>, ps: seq<Props<Model>>, key: string): (r: seq<Val>)
    requires |ps| == |s|
    ensures |r| == |s| && forall i :: 0 <= i < |s| ==> r[i] == AttrOf(s[i], ps[i], key)
  {
    seq(|s|, i requires 0 <= i < |s| => AttrOf(s[i], ps[i], key))
  }

  /** Each entry's `key` attribute. */
  function Keys(s: seq<Entry>, key: string): (r: seq<Val>)
    reads Objs(s)
    ensures |r| == |s| && forall i :: 0 <= i < |s| ==> r[i] == AttrOf(s[i], DataOf(s[i]).props, key)
  {
    AttrsOf(s, PropsOf(s), key)
  }

  /** `e.id` */
  function IdOf(e: Entry): Val
    reads DataOf(e)
  {
    AttrOf(e, DataOf(e).props, "id")
  }

  function Ids(s: seq<Entry>): (r: seq<Val>)
    reads Objs(s)
    ensures |r| == |s| && forall i :: 0 <= i < |s| ==> r[i] == IdOf(s[i])
  {
    Keys(s, "id")
  }

  /** Whether each entry passes `p`. */
  function Marks(s: seq<Entry>, p: Filter): (r: seq<bool>)
    reads Objs(s)
    ensures |r| == |s| && forall i :: 0 <= i < |s| ==> r[i] == p(DataOf(s[i]).props)
  {
    var ps := PropsOf(s);
    seq(|s|, i requires 0 <= i < |s| => p(ps[i]))
  }

  /** The ids of the entries that pass `p`, in order. */
  function IdsWhere(s: seq<Entry>, p: Filter): seq<Val>
    reads Objs(s)
  {
    Select(Ids(s), Marks(s, p))
  }

  /** The ids of the entries a filter keeps are the ids it keeps. */
  lemma IdsOfSelect(s: seq<Entry>, keep: seq<bool>)
    requires |keep| == |s|
    ensures Ids(Select(s, keep)) == Select(Ids(s), keep)
  {
    SelectIsOrderedSubsequence(s, keep);
    SelectIsOrderedSubsequence(Ids(s), keep);
  }

  /** The ids among `gone` that `==` can find: those that equal themselves,
      in order. */
  function Findable(gone: seq<Val>): (r: seq<Val>)
    ensures forall t :: 0 <= t < |r| ==> r[t] in gone && SelfEqual(r[t])
    ensures forall t :: 0 <= t < |gone| && SelfEqual(gone[t]) ==> gone[t] in r
  {
    if gone == [] then []
    else
      var last := gone[|gone| - 1];
      assert gone == gone[..|gone| - 1] + [last];
      Findable(gone[..|gone| - 1]) + (if SelfEqual(last) then [last] else [])
  }

  /** The findable ids among one more id. */
  lemma FindableNext(gone: seq<Val>, i: nat)
    requires i < |gone|
    ensures Findable(gone[..i + 1]) == Findable(gone[..i]) + if SelfEqual(gone[i]) then [gone[i]] else []
  {
    assert gone[..i + 1][..i] == gone[..i];
  }

  /** Dropping every entry whose id is one of the findable ids of the entries
      that pass `p` leaves no entry that passes `p`, except entries whose id
      is NaN, which `delete` never finds. */
  lemma NothingLeftPasses(s: seq<Entry>, p: Filter, keep: seq<bool>)
    requires keep == NotIn(Ids(s), Findable(IdsWhere(s, p)))
    ensures forall x :: x in Select(s, keep) && p(DataOf(x).props) ==> !SelfEqual(IdOf(x))
  {
    var marks, ids := Marks(s, p), Ids(s);
    SelectIsOrderedSubsequence(s, keep);
    SelectIsOrderedSubsequence(ids, marks);
    forall t | 0 <= t < |s| && marks[t]
      ensures ids[t] in IdsWhere(s, p)
    {
      var u :| 0 <= u < |Kept(marks)| && Kept(marks)[u] == t;
      assert IdsWhere(s, p)[u] == ids[t];
    }
    forall x | x in Select(s, keep) && p(DataOf(x).props)
      ensures !SelfEqual(IdOf(x))
    {
      var j :| 0 <= j < |Select(s, keep)| && Select(s, keep)[j] == x;
      var t := Kept(keep)[j];
      assert x == s[t] && keep[t];
    }
  }

  /** Every id equals itself: none is NaN. */
  predicate Comparable(ids: seq<Val>) {
    forall t :: 0 <= t < |ids| ==> SelfEqual(ids[t])
  }

  /** The array `a` is no shorter than `s0` and still holds, at the positions
      `idx[i..]`, what `s0` holds there. */
  ghost predicate Untouched(a: seq<Entry>, s0: seq<Entry>, idx: seq<int>, i: nat) {
    |a| >= |s0| && forall j :: i <= j < |idx| ==> 0 <= idx[j] < |s0| && a[idx[j]] == s0[idx[j]]
  }

  /** Saving changes no data map, so the ids of the array after a save are
      the ids saved the same way. */
  lemma IdsOfSaved(s: seq<Entry>, e: Entry, selfEqual: bool)
    ensures Ids(Saved(s, Ids(s), e, IdOf(e), selfEqual)) == Saved(Ids(s), Ids(s), IdOf(e), IdOf(e), selfEqual)
  {
    var ids, k := Ids(s), IdOf(e);
    var r := Saved(s, ids, e, k, selfEqual);
    if selfEqual {
      UpsertShape(s, ids, e, k);
      UpsertShape(ids, ids, k, k);
    }
    forall t | 0 <= t < |r|
      ensures Ids(r)[t] == Saved(ids, ids, k, k, selfEqual)[t]
    {
      if t < |s| && (!selfEqual || t != FirstIndex(ids, k)) {
        assert r[t] == s[t];
      }
    }
  }

  /** Saving the entry found at position `idx[i]` of an array still
      untouched there adds an entry only when its id is NaN, and, when the
      positions increase, moves nothing at the positions still to come. */
  lemma SavedUntouched(before: seq<Entry>, ids: seq<Val>, s0: seq<Entry>, idx: seq<int>, i: nat,
                       e: Entry, k: Val, selfEqual: bool)
    requires |ids| == |before| && i < |idx| && Untouched(before, s0, idx, i) && ids[idx[i]] == k
    ensures |Saved(before, ids, e, k, selfEqual)| == if selfEqual then |before| else |before| + 1
    ensures Increasing(idx) ==> Untouched(Saved(before, ids, e, k, selfEqual), s0, idx, i + 1)
  {
    SavedWithin(before, ids, e, k, selfEqual, idx[i]);
  }

  /** After a save, the ids are the ids saved the same way, and `findIndex`
      of an id that equals itself leads to the saved entry. */
  lemma SavedEntries(s: seq<Entry>, e: Entry)
    ensures var k := IdOf(e);
      var r := Saved(s, Ids(s), e, k, SelfEqual(k));
      && Ids(r) == Saved(Ids(s), Ids(s), k, k, SelfEqual(k))
      && (SelfEqual(k) ==> 0 <= FirstIndex(Ids(r), k) < |r| && r[FirstIndex(Ids(r), k)] == e)
  {
    var ids, k := Ids(s), IdOf(e);
    IdsOfSaved(s, e, SelfEqual(k));
    if SelfEqual(k) {
      SavedFinds(ids, k);
      UpsertShape(s, ids, e, k);
    }
  }

  /** No two entries share a data object. */
  ghost predicate Unshared(s: seq<Entry>) {
    forall i, j :: 0 <= i < j < |s| ==> DataOf(s[i]) != DataOf(s[j])
  }

  lemma PropsOfSnoc(s: seq<Entry>, e: Entry)
    ensures PropsOf(s + [e]) == PropsOf(s) + [DataOf(e).props]
  {
    var r := s + [e];
    assert forall t :: 0 <= t < |s| ==> r[t] == s[t];
  }

  /** An entry whose data object no entry of `s` holds can be appended
      without sharing one. */
  lemma UnsharedSnoc(s: seq<Entry>, e: Entry)
    requires Unshared(s) && forall t :: 0 <= t < |s| ==> DataOf(s[t]) != DataOf(e)
    ensures Unshared(s + [e])
  {
    var r := s + [e];
    forall i, j | 0 <= i < j < |r|
      ensures DataOf(r[i]) != DataOf(r[j])
    {
      assert r[i] == s[i];
    }
  }

  /** The data maps `ps` of the entries `s` after the object `o` was given
      the map `v`: every entry holding `o` sees `v`. */
  function EditShared(s: seq<Entry>, ps: seq<Props<Model>>, o: Obj, v: Props<Model>): (r: seq<Props<Model>>)
    requires |ps| == |s|
    ensures |r| == |s|
  {
    seq(|s|, t requires 0 <= t < |s| => if DataOf(s[t]) == o then v else ps[t])
  }

  /** With no data object shared, editing the object of the entry at `at`
      changes the data map at `at` only. */
  lemma EditOne(s: seq<Entry>, ps: seq<Props<Model>>, at: nat, v: Props<Model>)
    requires Unshared(s) && at < |s| && |ps| == |s|
    ensures EditShared(s, ps, DataOf(s[at]), v) == ps[at := v]
  {
  }

  /** One step of a batch update that edits in place, at the next of the
      increasing positions `idx`: the ids are still the original ones, the
      entry about to be edited still holds its original data map, its edit
      keeps its id, and editing it performs the next step of `EditAt`. */
  lemma EditStep(s0: seq<Entry>, ps0: seq<Props<Model>>, idx: seq<int>, i: nat, edit: Edit, pre: seq<Props<Model>>)
    requires |ps0| == |s0| && KeepsIds(edit, ps0)
    requires Increasing(idx) && i < |idx| && forall j :: 0 <= j < |idx| ==> 0 <= idx[j] < |s0|
    requires pre == EditAt(ps0, idx, i, edit)
    ensures AttrsOf(s0, pre, "id") == AttrsOf(s0, ps0, "id")
    ensures Read(edit(pre[idx[i]]), "id") == Read(pre[idx[i]], "id")
    ensures pre[idx[i] := edit(pre[idx[i]])] == EditAt(ps0, idx, i + 1, edit)
  {
    EditAtSpec(ps0, idx, i, edit);
    IncreasingStep(idx, i);
    forall t | 0 <= t < |s0|
      ensures AttrOf(s0[t], pre[t], "id") == AttrOf(s0[t], ps0[t], "id")
    {
    }
  }

  /** An exported entry: a row exports its data map; a bare data object has
      no `toJSON` method, so calling it throws. */
  function Exports(s: seq<Entry>): (r: seq<Result<Props<Model>>>)
    reads Objs(s)
    ensures |r| == |s|
    ensures forall i :: 0 <= i < |s| ==> r[i] == if s[i].RowItem? then Export(DataOf(s[i]).props) else Err(NotARow)
  {
    var ps := PropsOf(s);
    seq(|s|, i requires 0 <= i < |s| => if s[i].RowItem? then Export(ps[i]) else Err(NotARow))
  }

  /** A snapshot of each entry's `key` attribute, taken before sorting. */
  function KeyMap(s: seq<Entry>, key: string): (m: map<Entry, Val>)
    reads Objs(s)
    ensures forall e :: e in s ==> e in m && m[e] == AttrOf(e, DataOf(e).props, key)
  {
    map e | e in s :: AttrOf(e, DataOf(e).props, key)
  }

  /** Read through the snapshot, the keys of any rearrangement of the
      entries are the keys the entries have. */
  lemma KeysOfKeyMap(a: seq<Entry>, a0: seq<Entry>, key: string)
    requires multiset(a) == multiset(a0)
    ensures forall x :: x in a ==> x in KeyMap(a0, key)
    ensures KeysOf(a, KeyMap(a0, key)) == Keys(a, key)
  {
    forall x | x in a
      ensures x in a0
    {
      assert x in multiset(a0);
    }
  }

  /** Sorting by a snapshot of the keys puts the snapshot keys in order. */
  lemma SortByKeys(a0: seq<Entry>, key: string)
    ensures Uniform(Keys(a0, key)) ==> Sorted(KeysOf(SortBy(a0, KeyMap(a0, key)), KeyMap(a0, key)))
  {
    SortByOrders(a0, KeyMap(a0, key));
    KeysOfKeyMap(a0, a0, key);
  }

  /** Calling the lookup a REF field stores: `target.get(id)`, read from the
      target collection as it is at the time of the call (nothing is cached). */
  function CallLookup(v: Val): (r: Option<Entry>)
    requires v.Lookup?
    reads v.target, v.target.data, Objs(v.target.data.elems)
    ensures r.None? <==> !SelfEqual(v.id) || v.id !in Ids(v.target.data.elems)
    ensures r.Some? ==> r.value in v.target.data.elems && IdOf(r.value) == v.id
  {
    v.target.Get(v.id)
  }

  /** A collection's name, as a field description shows a bound collection. */
  function NameOf(m: Model): string {
    m.name
  }

  /** One record of a collection: its data object, read and written through
      `get`/`set` and the accessors of the declared fields. */
  class Row {
    const model: Model
    const data: Obj

    constructor (model: Model, data: Obj)
      ensures this.model == model && this.data == data
    {
      this.model := model;
      this.data := data;
    }

    /** `row.get(key)` */
    function Get(key: string): (v: Val)
      reads data
      ensures key !in data.props ==> v == Undefined
      ensures key in data.props ==> v == data.props[key]
    {
      Read(data.props, key)
    }

    /** `row.set(key, value)`: afterwards `get(key)` is `value` and no other key
      changed. */
    method Set(key: string, value: Val)
      modifies data`props
      ensures data.props == old(data.props)[key := value]
      ensures Get(key) == value
      ensures forall k :: k != key ==> Get(k) == old(Get(k))
    {
      data.props := data.props[key := value];
    }

    /** `row[key]`: the accessor of a declared field reads the data map. */
    function Attribute(key: string): (v: Val)
      reads data
      ensures Declared(model.fields, key) ==> v == Get(key)
      ensures !Declared(model.fields, key) ==> v == Undefined
    {
      Records.Attribute(model.fields, data.props, key)
    }

    /** `row[key] = value`: the accessor of a declared field writes the data
      map; any other write stays on the wrapper (see README). */
    method SetAttribute(key: string, value: Val)
      modifies data`props
      ensures Declared(model.fields, key) ==> data.props == old(data.props)[key := value]
      ensures !Declared(model.fields, key) ==> data.props == old(data.props)
      ensures Declared(model.fields, key) ==> Attribute(key) == value
    {
      if Declared(model.fields, key) {
        Set(key, value);
      }
    }

    /** `row.save()`: hands the data object, not the row, to the collection. */
    method Save()
      modifies model.data`elems
      ensures model.data.elems == Saved(old(model.data.elems), old(Ids(model.data.elems)), ObjItem(data),
                                        Read(data.props, "id"), SelfEqual(Read(data.props, "id")))
    {
      model.Save(ObjItem(data));
    }

    /** `row.toJSON()` */
    function ToJson(): (r: Result<Props<Model>>)
      reads data
      ensures r.Ok? <==> forall k :: k in data.props ==> !Nullish(data.props[k])
      ensures r.Ok? ==> r.value.Keys == data.props.Keys
      ensures r.Ok? ==> forall k :: k in data.props ==> r.value[k] == Plain(data.props[k])
    {
      Export(data.props)
    }
  }

  /** A view of some entries of a collection. */
  class Query {
    const model: Model
    const items: List

    constructor (model: Model, items: List)
      ensures this.model == model && this.items == items
    {
      this.model := model;
      this.items := items;
    }

    /** `first()` */
    function First(): (r: Option<Entry>)
      reads items
      ensures r.None? <==> items.elems == []
      ensures r.Some? ==> r.value == items.elems[0]
    {
      if items.elems == [] then None else Some(items.elems[0])
    }

    /** `all()`: the array itself, not a copy. */
    function All(): (r: List)
      ensures r == items
    {
      items
    }

    /** `count()` */
    function Count(): (n: nat)
      reads items
      ensures n == |items.elems|
    {
      |items.elems|
    }

    /** `where(p)`: a new array of the entries that pass, in order. */
    method Where(p: Filter) returns (q: Query)
      ensures fresh(q) && fresh(q.items) && q.model == model
      ensures q.items.elems == Select(items.elems, Marks(items.elems, p))
      ensures q.Count() == CountTrue(Marks(items.elems, p))
    {
      var sel := Select(items.elems, Marks(items.elems, p));
      var l := new List(sel);
      q := new Query(model, l);
      assert Marks(items.elems, p) == old(Marks(items.elems, p));
    }

    /** `order(field)`: sorts this query's own array in place and returns a
      new query over that same array. */
    method Order(field: string) returns (q: Query)
      modifies items`elems
      ensures fresh(q) && q.model == model && q.items == items
      ensures multiset(items.elems) == multiset(old(items.elems))
      ensures forall x :: x in items.elems ==> x in old(KeyMap(items.elems, field))
      ensures Uniform(old(Keys(items.elems, field))) ==> Sorted(KeysOf(items.elems, old(KeyMap(items.elems, field))))
    {
      var a0 := items.elems;
      var a := SortBy(a0, KeyMap(a0, field));
      SortByKeys(a0, field);
      items.elems := a;
      q := new Query(model, items);
    }

    /** `limit(n)`: a new array of the first `n` entries. */
    method Limit(n: nat) returns (q: Query)
      ensures fresh(q) && fresh(q.items) && q.model == model
      ensures q.items.elems == items.elems[..Min(n, |items.elems|)]
      ensures q.Count() == Min(n, Count())
    {
      var l := new List(items.elems[..Min(n, |items.elems|)]);
      q := new Query(model, l);
    }

    /** `at(i)`: `Array.prototype.at`, with `null` for a position out of range. */
    function At(i: int): (r: Option<Entry>)
      reads items
      ensures r.Some? <==> -(Count() as int) <= i < Count()
      ensures r.Some? && i >= 0 ==> r.value == items.elems[i]
      ensures r.Some? && i < 0 ==> r.value == items.elems[Count() + i]
    {
      match Position(|items.elems|, i)
      case None => None
      case Some(t) => Some(items.elems[t])
    }
  }

  /** The state the loop of `deleteWhere` keeps: the array `s`, whose ids
      are `ids`, is the array `s0`, whose ids are `ids0`, without the
      entries whose ids are in `deleted`. */
  ghost predicate DeletedFrom(s: seq<Entry>, ids: seq<Val>, s0: seq<Entry>, ids0: seq<Val>, deleted: seq<Val>) {
    |ids0| == |s0| && s == Select(s0, NotIn(ids0, deleted)) && ids == Select(ids0, NotIn(ids0, deleted))
  }

  /** A collection: a name, its declared fields in order, and the array of its
      entries, which `delete` and `clear` replace and every other operation
      changes in place. */
  class Model {
    const name: string
    const fields: Schema<Model>
    var data: List

    constructor (name: string, fields: Schema<Model>)
      ensures this.name == name && this.fields == fields
      ensures fresh(data) && data.elems == []
    {
      this.name := name;
      this.fields := fields;
      data := new List([]);
    }

    /** `count` */
    function Count(): (n: nat)
      reads this, data
      ensures n == |data.elems|
    {
      |data.elems|
    }

    /** `get(id)`, which is `where(row => row.id == id).first()`: the first entry
      whose id is `==` to `id`, if any. An id that is NaN equals nothing, so it
      finds nothing. */
    function Get(id: Val): (r: Option<Entry>)
      reads this, data, Objs(data.elems)
      ensures r.None? <==> !SelfEqual(id) || id !in Ids(data.elems)
      ensures r.Some? ==> r.value in data.elems && IdOf(r.value) == id
      ensures r.Some? ==> 0 <= FirstIndex(Ids(data.elems), id) && r.value == data.elems[FirstIndex(Ids(data.elems), id)]
    {
      var i := if SelfEqual(id) then FirstIndex(Ids(data.elems), id) else -1;
      if i < 0 then None else Some(data.elems[i])
    }

    /** `exists(id)` */
    predicate Exists(id: Val)
      reads this, data, Objs(data.elems)
      ensures Exists(id) <==> SelfEqual(id) && id in Ids(data.elems)
    {
      Get(id).Some?
    }

    /** `nextId()`: 1 for an empty collection, otherwise the last entry's id
      plus one. */
    function NextId(): (r: Val)
      reads this, data, Objs(data.elems)
      ensures r == NextIdOf(Ids(data.elems))
    {
      if Count() == 0 then Num(1) else PlusOne(IdOf(data.elems[|data.elems| - 1]))
    }

    /** `where(p)`: a new query over a new array of the entries that pass. */
    method Where(p: Filter) returns (q: Query)
      ensures fresh(q) && fresh(q.items) && q.model == this
      ensures q.items.elems == old(Select(data.elems, Marks(data.elems, p)))
      ensures q.Count() == old(CountTrue(Marks(data.elems, p)))
    {
      var sel := Select(data.elems, Marks(data.elems, p));
      var l := new List(sel);
      q := new Query(this, l);
      assert Marks(data.elems, p) == old(Marks(data.elems, p));
    }

    /** `query()`: a new query over the collection's own array. */
    method Query() returns (q: Query)
      ensures fresh(q) && q.model == this && q.items == data
    {
      q := new Query(this, data);
    }

    /** `save(e)`: `findIndex` of the first entry whose id is `==` to `e`'s id;
      that entry is replaced by `e`, or `e` is appended when none is found (as
      always for an id that is NaN). Afterwards `get` of an id that equals
      itself finds `e`. */
    method Save(e: Entry)
      modifies data`elems
      ensures data.elems == Saved(old(data.elems), old(Ids(data.elems)), e, IdOf(e), SelfEqual(IdOf(e)))
      ensures Ids(data.elems) == old(Saved(Ids(data.elems), Ids(data.elems), IdOf(e), IdOf(e), SelfEqual(IdOf(e))))
      ensures SelfEqual(IdOf(e)) ==> Get(IdOf(e)) == Some(e)
      ensures unchanged(Objs(old(data.elems)))
    {
      ghost var s := data.elems;
      SavedEntries(s, e);
      ghost var after := Ids(Saved(s, Ids(s), e, IdOf(e), SelfEqual(IdOf(e))));
      data.elems := Saved(data.elems, Ids(data.elems), e, IdOf(e), SelfEqual(IdOf(e)));
      assert Ids(data.elems) == after;
    }

    /** `_createObject(row)`: the id rule and the field loop, writing into the
      row's data object; an error stops the loop where it happened. */
    method CreateObject(row: Row) returns (err: Option<Error>)
      requires row.model == this
      modifies row.data`props
      ensures Prepared(row.data.props, err) == old(Prepare(fields, row.data.props, NextId()))
    {
      if !Truthy(IdAttribute(fields, row.data.props)) {
        var id := NextId();
        row.data.props := row.data.props["id" := id];
      }
      var i := 0;
      while i < |fields|
        invariant 0 <= i <= |fields|
        invariant CoerceFields(fields[i..], row.data.props) == old(Prepare(fields, row.data.props, NextId()))
      {
        var key, f := fields[i].0, fields[i].1;
        assert fields[i..][0] == fields[i] && fields[i..][1..] == fields[i + 1..];
        if key in row.data.props {
          var c := Coerce(f, row.data.props[key]);
          if c.Err? {
            return Some(c.error);
          }
          row.data.props := row.data.props[key := c.value];
        } else {
          row.data.props := row.data.props[key := Default(f)];
        }
        i := i + 1;
      }
      return None;
    }

    /** `create(input)`: wraps the caller's data object in a row, prepares it,
      and saves the row. */
    method Create(input: Obj) returns (r: Result<Row>)
      modifies input`props, data`elems
      ensures input.props == old(Prepare(fields, input.props, NextId())).props
      ensures r.Err? <==> old(Prepare(fields, input.props, NextId())).error.Some?
      ensures r.Err? ==> Some(r.error) == old(Prepare(fields, input.props, NextId())).error
      ensures r.Err? ==> data.elems == old(data.elems)
      ensures r.Ok? ==> fresh(r.value) && r.value.model == this && r.value.data == input
      ensures r.Ok? ==> data.elems == Saved(old(data.elems), Ids(old(data.elems)), RowItem(r.value), IdOf(RowItem(r.value)),
                                            SelfEqual(IdOf(RowItem(r.value))))
    {
      ghost var p := Prepare(fields, input.props, NextId());
      var row := new Row(this, input);
      assert Prepare(fields, input.props, NextId()) == p;
      var err := CreateObject(row);
      assert Prepared(input.props, err) == p;
      if err.Some? {
        return Err(err.value);
      }
      ghost var s, ids := data.elems, Ids(data.elems);
      Save(RowItem(row));
      assert Ids(s) == ids && input.props == p.props;
      return Ok(row);
    }

    /** The step `update`, `updateWhere` and `updateAll` take for one entry:
      the edit runs on its data object, then the entry is saved. Saving puts
      it at the first position holding its (possibly new) id. Every entry of
      any array `s0` that holds the same data object sees the edit. */
    method EditAndSave(e: Entry, edit: Edit, ghost s0: seq<Entry>)
      modifies data`elems, DataOf(e)`props
      ensures DataOf(e).props == edit(old(DataOf(e).props))
      ensures PropsOf(s0) == EditShared(s0, old(PropsOf(s0)), DataOf(e), DataOf(e).props)
      ensures data.elems == Saved(old(data.elems), Ids(old(data.elems)), e, IdOf(e), SelfEqual(IdOf(e)))
      ensures Read(DataOf(e).props, "id") == old(Read(DataOf(e).props, "id")) ==>
        Ids(old(data.elems)) == old(Ids(data.elems))
    {
      ghost var s, ps, ids0 := data.elems, PropsOf(s0), Ids(data.elems);
      var o := DataOf(e);
      o.props := edit(o.props);
      ghost var ps1, ids := PropsOf(s0), Ids(s);
      forall t | 0 <= t < |s0|
        ensures ps1[t] == EditShared(s0, ps, o, o.props)[t]
      {
      }
      assert ps1 == EditShared(s0, ps, o, o.props);
      ghost var kept := Read(o.props, "id") == old(Read(o.props, "id"));
      if kept {
        forall t | 0 <= t < |s|
          ensures ids[t] == ids0[t]
        {
        }
        assert ids == ids0;
      }
      Save(e);
      assert PropsOf(s0) == ps1 && Ids(s) == ids;
    }

    /** `update(id, edit)`: applies `edit` to the data of the entry `get(id)`
      finds, and saves that entry. When the edit leaves the stored ids as they
      were, the entry goes back where it was and the array is unchanged. */
    method Update(id: Val, edit: Edit) returns (r: Option<Entry>)
      modifies data`elems, Objs(data.elems)`props
      ensures r == old(Get(id))
      ensures r.None? ==> data.elems == old(data.elems) && unchanged(Objs(old(data.elems)))
      ensures r.Some? ==> DataOf(r.value).props == edit(old(DataOf(r.value).props))
      ensures r.Some? ==> (PropsOf(old(data.elems)) ==
        EditShared(old(data.elems), old(PropsOf(data.elems)), DataOf(r.value), DataOf(r.value).props))
      ensures r.Some? ==> data.elems == Saved(old(data.elems), Ids(old(data.elems)), r.value, IdOf(r.value),
                                             SelfEqual(IdOf(r.value)))
      ensures Ids(old(data.elems)) == old(Ids(data.elems)) ==> data.elems == old(data.elems)
    {
      r := Get(id);
      if r.Some? {
        ghost var s, ids := data.elems, Ids(data.elems);
        ghost var at := FirstIndex(ids, id);
        EditAndSave(r.value, edit, s);
        if Ids(s) == ids {
          assert IdOf(r.value) == ids[at] && SelfEqual(id);
          UpsertInPlaceFirst(s, ids, at);
        }
      }
    }

    /** The conditions under which a batch update edits records without moving
      them: no two entries share a data object, ids are distinct and none is
      NaN, and the edit leaves every record's id as it was. */
    ghost predicate EditsInPlace(edit: Edit)
      reads this, data, Objs(data.elems)
    {
      Unshared(data.elems) && Distinct(Ids(data.elems)) && Comparable(Ids(data.elems)) &&
      KeepsIds(edit, PropsOf(data.elems))
    }

    /** One visit of `updateWhere` and of `updateAll`: the `i`-th of the
      entries at the increasing positions `idx` of the array `s0` is edited
      and saved. Saving an entry found at a position not yet visited moves
      nothing that is still to be visited, and adds no entry when the edited
      id equals itself. With no data object shared, the data maps advance by
      one step of `EditAt`. While the batch edits in place (`clean`: distinct
      ids, none NaN, an edit that keeps ids), the array stays `s0`. */
    method EditAndSaveNext(e: Entry, edit: Edit, ghost s0: seq<Entry>, ghost ps0: seq<Props<Model>>,
                           ghost idx: seq<int>, ghost i: nat, ghost clean: bool)
      requires |ps0| == |s0| && i < |idx|
      requires forall j :: 0 <= j < |idx| ==> 0 <= idx[j] < |s0|
      requires e == s0[idx[i]]
      modifies data`elems, DataOf(e)`props
      ensures forall x :: x in data.elems ==> x in old(data.elems) || x == e
      ensures |data.elems| >= old(|data.elems|)
      ensures Increasing(idx) && old(Untouched(data.elems, s0, idx, i)) ==> Untouched(data.elems, s0, idx, i + 1)
      ensures Increasing(idx) && Unshared(s0) && ComparableIds(edit, ps0) && old(Untouched(data.elems, s0, idx, i)) &&
              old(PropsOf(s0)) == EditAt(ps0, idx, i, edit) ==>
        |data.elems| == old(|data.elems|)
      ensures Unshared(s0) && old(PropsOf(s0)) == EditAt(ps0, idx, i, edit) ==>
        PropsOf(s0) == EditAt(ps0, idx, i + 1, edit)
      ensures (clean && Increasing(idx) && Unshared(s0) && Distinct(AttrsOf(s0, ps0, "id")) &&
               Comparable(AttrsOf(s0, ps0, "id")) && KeepsIds(edit, ps0) &&
               old(data.elems == s0 && PropsOf(s0) == EditAt(ps0, idx, i, edit))) ==>
        data.elems == s0
    {
      ghost var before, pre, ids0 := data.elems, PropsOf(s0), Ids(data.elems);
      ghost var ok := clean && Increasing(idx) && Unshared(s0) && Distinct(AttrsOf(s0, ps0, "id")) &&
        Comparable(AttrsOf(s0, ps0, "id")) && KeepsIds(edit, ps0) && before == s0 && pre == EditAt(ps0, idx, i, edit);
      if ok {
        EditStep(s0, ps0, idx, i, edit, pre);
        assert ids0 == AttrsOf(s0, pre, "id");
      }
      ghost var p0 := DataOf(e).props;
      EditAndSave(e, edit, s0);
      ghost var ids, k := Ids(before), IdOf(e);
      assert data.elems == Saved(before, ids, e, k, SelfEqual(k));
      SavedFrom(before, ids, e, k, SelfEqual(k));
      if Untouched(before, s0, idx, i) {
        SavedUntouched(before, ids, s0, idx, i, e, k, SelfEqual(k));
      }
      if Increasing(idx) && Unshared(s0) && ComparableIds(edit, ps0) && pre == EditAt(ps0, idx, i, edit) {
        EditAtUnvisited(ps0, idx, i, edit);
        assert SelfEqual(Read(edit(ps0[idx[i]]), "id"));
      }
      if Unshared(s0) {
        EditOne(s0, pre, idx[i], DataOf(e).props);
      }
      if ok {
        assert ids == ids0 && SelfEqual(k);
        UpsertInPlace(s0, ids, idx[i]);
      }
    }

    /** The `forEach` of `updateWhere` from position `i` on: the entries
      `rows`, found at the increasing positions `idx` of the array `s0`,
      edited and saved one after the other. */
    method EditEach(rows: seq<Entry>, i: nat, edit: Edit, ghost s0: seq<Entry>, ghost ps0: seq<Props<Model>>,
                    ghost idx: seq<int>, ghost clean: bool)
      requires i <= |rows| && |ps0| == |s0| && |idx| == |rows|
      requires forall j :: 0 <= j < |idx| ==> 0 <= idx[j] < |s0| && rows[j] == s0[idx[j]]
      modifies data`elems, Objs(rows)`props
      decreases |rows| - i
      ensures forall x :: x in data.elems ==> x in old(data.elems) || x in rows
      ensures |data.elems| >= old(|data.elems|)
      ensures Increasing(idx) && Unshared(s0) && ComparableIds(edit, ps0) && old(Untouched(data.elems, s0, idx, i)) &&
              old(PropsOf(s0)) == EditAt(ps0, idx, i, edit) ==>
        |data.elems| == old(|data.elems|)
      ensures Unshared(s0) && old(PropsOf(s0)) == EditAt(ps0, idx, i, edit) ==>
        PropsOf(s0) == EditAt(ps0, idx, |idx|, edit)
      ensures (clean && Increasing(idx) && Unshared(s0) && Distinct(AttrsOf(s0, ps0, "id")) &&
               Comparable(AttrsOf(s0, ps0, "id")) && KeepsIds(edit, ps0) &&
               old(data.elems == s0 && PropsOf(s0) == EditAt(ps0, idx, i, edit))) ==>
        data.elems == s0
    {
      if i < |rows| {
        EditAndSaveNext(rows[i], edit, s0, ps0, idx, i, clean);
        EditEach(rows, i + 1, edit, s0, ps0, idx, clean);
      }
    }

    /** `updateWhere(p, edit)`: edits and saves, one after the other, the
      entries `where(p)` selected at the start. No entry is added that was not
      there before, and none at all when every edited id equals itself. With
      no data object shared, exactly the selected records are edited, once
      each; under `EditsInPlace` the array is unchanged. */
    method UpdateWhere(p: Filter, edit: Edit)
      modifies data`elems, Objs(data.elems)`props
      ensures forall x :: x in data.elems ==> x in old(data.elems)
      ensures |data.elems| >= old(|data.elems|)
      ensures old(Unshared(data.elems)) && ComparableIds(edit, old(PropsOf(data.elems))) ==>
        |data.elems| == old(|data.elems|)
      ensures old(Unshared(data.elems)) ==>
        PropsOf(old(data.elems)) == ApplyMarked(old(PropsOf(data.elems)), old(Marks(data.elems, p)), edit)
      ensures old(EditsInPlace(edit)) ==> data.elems == old(data.elems)
    {
      ghost var s0, ps0, marks := data.elems, PropsOf(data.elems), Marks(data.elems, p);
      ghost var clean := EditsInPlace(edit);
      var rows := Select(data.elems, Marks(data.elems, p));
      ghost var idx := Kept(marks);
      assert |idx| == |rows| && Increasing(idx) &&
        forall j :: 0 <= j < |idx| ==> 0 <= idx[j] < |s0| && rows[j] == s0[idx[j]] by {
        SelectIsOrderedSubsequence(s0, marks);
      }
      assert Untouched(s0, s0, idx, 0);
      assert Ids(s0) == AttrsOf(s0, ps0, "id");
      EditEach(rows, 0, edit, s0, ps0, idx, clean);
      if Unshared(s0) {
        EditAtKept(ps0, marks, edit);
      }
    }

    /** `updateAll(edit)`: edits and saves the entries of the collection's own
      array, position by position up to its length at the start (`forEach`
      reads each position as it then is, and does not visit appended ones).
      No entry is added that was not there before, and none at all when every
      edited id equals itself. With no data object shared, every record is
      edited once; under `EditsInPlace` the array is unchanged. */
    method UpdateAll(edit: Edit)
      modifies data`elems, Objs(data.elems)`props
      ensures forall x :: x in data.elems ==> x in old(data.elems)
      ensures |data.elems| >= old(|data.elems|)
      ensures old(Unshared(data.elems)) && ComparableIds(edit, old(PropsOf(data.elems))) ==>
        |data.elems| == old(|data.elems|)
      ensures old(Unshared(data.elems)) ==> PropsOf(old(data.elems)) == EditAll(old(PropsOf(data.elems)), edit)
      ensures old(EditsInPlace(edit)) ==> data.elems == old(data.elems)
    {
      ghost var s0, ps0 := data.elems, PropsOf(data.elems);
      ghost var unshared := Unshared(s0);
      ghost var clean := unshared && Distinct(AttrsOf(s0, ps0, "id")) && Comparable(AttrsOf(s0, ps0, "id")) &&
        KeepsIds(edit, ps0);
      assert EditsInPlace(edit) ==> clean by {
        assert Ids(s0) == AttrsOf(s0, ps0, "id");
      }
      var n := |data.elems|;
      assert Untouched(s0, s0, Upto(n), 0);
      var i := 0;
      while i < n
        invariant 0 <= i <= n
        invariant UpdatedUpTo(edit, s0, ps0, i)
      {
        UpdateAllNext(i, edit, s0, ps0);
        i := i + 1;
      }
      if unshared {
        EditAtAll(ps0, edit);
      }
    }

    /** What the loop of `updateAll` keeps after visiting the first `i`
      positions of the array `s0` whose data maps were `ps0`: every entry is
      one of `s0`, and the positions still to come hold what `s0` holds
      there; with no data object shared, the data maps are those of
      `EditAt`, and no entry was added if every edited id equals itself;
      while the batch edits in place, the array is `s0`. */
    ghost predicate UpdatedUpTo(edit: Edit, s0: seq<Entry>, ps0: seq<Props<Model>>, i: nat)
      reads this, data, Objs(s0)
    {
      |ps0| == |s0| && i <= |s0| &&
      (forall x :: x in data.elems ==> x in s0) &&
      Untouched(data.elems, s0, Upto(|s0|), i) &&
      (Unshared(s0) ==> PropsOf(s0) == EditAt(ps0, Upto(|s0|), i, edit)) &&
      (Unshared(s0) && ComparableIds(edit, ps0) ==> |data.elems| == |s0|) &&
      (Unshared(s0) && Distinct(AttrsOf(s0, ps0, "id")) && Comparable(AttrsOf(s0, ps0, "id")) && KeepsIds(edit, ps0) ==>
         data.elems == s0)
    }

    /** One pass of the loop of `updateAll`: the entry at position `i`, which
      is still the one the array `s0` held there, is edited and saved. */
    method UpdateAllNext(i: nat, edit: Edit, ghost s0: seq<Entry>, ghost ps0: seq<Props<Model>>)
      requires i < |s0| && UpdatedUpTo(edit, s0, ps0, i)
      modifies data`elems, Objs(s0)`props
      ensures UpdatedUpTo(edit, s0, ps0, i + 1)
    {
      ghost var idx := Upto(|s0|);
      ghost var clean := Unshared(s0) && Distinct(AttrsOf(s0, ps0, "id")) && Comparable(AttrsOf(s0, ps0, "id")) &&
        KeepsIds(edit, ps0);
      assert data.elems[i] == s0[idx[i]];
      EditAndSaveNext(data.elems[i], edit, s0, ps0, idx, i, clean);
    }

    /** `this.data = kept`: a new array; no data map changes, so the ids read
      before are the ids read after. */
    method Replace(kept: seq<Entry>)
      modifies this`data
      ensures fresh(data) && data.elems == kept && Ids(data.elems) == old(Ids(kept))
    {
      data := new List(kept);
    }

    /** `delete(id)`: when `get(id)` finds an entry, the array is replaced by
      a new one without any entry whose id is `==` to `id`; the found entry is
      returned. An id that is NaN finds nothing and deletes nothing. */
    method Delete(id: Val) returns (r: Option<Entry>)
      modifies this`data
      ensures r == old(Get(id))
      ensures r.None? ==> data == old(data)
      ensures r.Some? ==> fresh(data)
      ensures SelfEqual(id) ==> data.elems == Select(old(data.elems), Without(old(Ids(data.elems)), id))
      ensures SelfEqual(id) ==> Ids(data.elems) == Select(old(Ids(data.elems)), Without(old(Ids(data.elems)), id))
      ensures !SelfEqual(id) ==> data.elems == old(data.elems)
    {
      ghost var s, ids := data.elems, Ids(data.elems);
      r := Get(id);
      if r.Some? {
        var kept := Select(data.elems, Without(Ids(data.elems), id));
        assert Ids(kept) == Select(ids, Without(ids, id)) by {
          IdsOfSelect(s, Without(ids, id));
        }
        Replace(kept);
      } else if SelfEqual(id) {
        assert Select(s, Without(ids, id)) == s && Select(ids, Without(ids, id)) == ids by {
          DeleteAbsent(s, ids, id);
          DeleteAbsent(ids, ids, id);
        }
      }
    }

    /** `deleteWhere(p)`: deletes, one after the other, the ids of the entries
      `where(p)` selected at the start. Deleting changes no data map, so those
      ids are read up front. The result is a single filter: every entry whose
      id is one of those ids that `==` can find goes, and the others stay in
      order (and none of them passes `p` unless its id is NaN, by
      `NothingLeftPasses`). The first findable id makes `delete` install a
      new array; when there is none, the collection keeps its array, which
      earlier `query()` views still share. */
    method DeleteWhere(p: Filter)
      modifies this`data
      ensures data.elems == old(Select(data.elems, NotIn(Ids(data.elems), Findable(IdsWhere(data.elems, p)))))
      ensures old(Findable(IdsWhere(data.elems, p))) == [] ==> data == old(data)
      ensures old(Findable(IdsWhere(data.elems, p))) != [] ==> fresh(data)
    {
      ghost var s0, ids0, marks := data.elems, Ids(data.elems), Marks(data.elems, p);
      var rows := Select(data.elems, Marks(data.elems, p));
      var gone := Ids(rows);
      assert gone == IdsWhere(s0, p) by {
        IdsOfSelect(s0, Marks(s0, p));
      }
      assert data.elems == Select(s0, NotIn(ids0, [])) && Ids(data.elems) == Select(ids0, NotIn(ids0, [])) by {
        SelectAll(s0, NotIn(ids0, []));
        SelectAll(ids0, NotIn(ids0, []));
      }
      var i := 0;
      ghost var deleted: seq<Val> := [];
      while i < |gone|
        invariant 0 <= i <= |gone|
        invariant deleted == Findable(gone[..i])
        invariant DeletedFrom(data.elems, Ids(data.elems), s0, ids0, deleted)
        invariant deleted == [] ==> data == old(data)
        invariant deleted != [] ==> fresh(data)
      {
        if deleted == [] {
          NothingDeletedYet(ids0, marks, gone, i);
        }
        var found := DeleteNext(gone[i], s0, ids0, deleted);
        FindableNext(gone, i);
        if SelfEqual(gone[i]) {
          deleted := deleted + [gone[i]];
        }
        i := i + 1;
      }
      assert gone[..i] == gone;
    }

    /** One pass of the loop of `deleteWhere`: `delete(k)` after the ids
      `deleted`. It finds an entry, and then installs a new array, exactly
      when `k` equals itself and is still present. */
    method DeleteNext(k: Val, ghost s0: seq<Entry>, ghost ids0: seq<Val>, ghost deleted: seq<Val>) returns (r: Option<Entry>)
      requires DeletedFrom(data.elems, Ids(data.elems), s0, ids0, deleted)
      modifies this`data
      ensures SelfEqual(k) ==> DeletedFrom(data.elems, Ids(data.elems), s0, ids0, deleted + [k])
      ensures !SelfEqual(k) ==> DeletedFrom(data.elems, Ids(data.elems), s0, ids0, deleted)
      ensures r.Some? <==> SelfEqual(k) && k in old(Ids(data.elems))
      ensures r.None? ==> data == old(data)
      ensures r.Some? ==> fresh(data)
    {
      r := Delete(k);
      if SelfEqual(k) {
        DeleteAfterDeletes(s0, ids0, deleted, k);
        DeleteAfterDeletes(ids0, ids0, deleted, k);
      }
    }

    /** `clear()` */
    method Clear()
      modifies this`data
      ensures fresh(data) && data.elems == [] && Count() == 0
    {
      data := new List([]);
    }

    /** `toJSON()`: the field descriptions, then every entry exported. A bare
      data object (stored by `Row.save`) has no `toJSON`, so it throws. */
    function ToJson(): (r: Result<Doc<Model>>)
      reads this, data, Objs(data.elems)
      ensures r.Ok? <==> DescribeSchema(fields, NameOf).Ok? && forall i :: 0 <= i < |data.elems| ==> Exports(data.elems)[i].Ok?
      ensures r.Ok? ==> r.value.name == name && Ok(r.value.fields) == DescribeSchema(fields, NameOf)
      ensures r.Ok? ==> |r.value.data| == |data.elems|
      ensures r.Ok? ==> forall i :: 0 <= i < |data.elems| ==> data.elems[i].RowItem? && Exports(data.elems)[i] == Ok(r.value.data[i])
    {
      Dump(name, fields, NameOf, Exports(data.elems))
    }

    /** One record of `fromJSON`: a row of `m` around the record's data map,
      prepared while `m` is still empty. */
    static method LoadOne(m: Model, x: Props<Model>) returns (row: Row, err: Option<Error>)
      requires m.data.elems == []
      ensures fresh(row) && fresh(row.data) && row.model == m
      ensures Prepared(row.data.props, err) == Prepare(m.fields, x, Num(1))
    {
      var o := new Obj(x);
      row := new Row(m, o);
      err := m.CreateObject(row);
    }

    /** The rows of `fromJSON` for the first `i` records, extended by the
      next one, or the error that stops the load. */
    static method LoadNext(m: Model, data: seq<Props<Model>>, i: nat, rows: seq<Entry>) returns (r: Result<seq<Entry>>)
      requires m.data.elems == [] && i < |data|
      requires LoadRows(m.fields, data[..i]) == Ok(PropsOf(rows)) && Unshared(rows)
      requires forall e :: e in rows ==> e.RowItem? && e.row.model == m
      ensures r.Err? ==> LoadRows(m.fields, data) == Err(r.error)
      ensures r.Ok? ==> LoadRows(m.fields, data[..i + 1]) == Ok(PropsOf(r.value)) && Unshared(r.value)
      ensures r.Ok? ==> forall e :: e in r.value ==> e.RowItem? && e.row.model == m
    {
      ghost var ps := PropsOf(rows);
      var row, err := LoadOne(m, data[i]);
      assert data[..i + 1] == data[..i] + [data[i]];
      if err.Some? {
        assert LoadRows(m.fields, data) == Err(err.value) by {
          LoadRowsSnoc(m.fields, data[..i], data[i]);
          LoadRowsStops(m.fields, data[..i + 1], data[i + 1..]);
          assert data[..i + 1] + data[i + 1..] == data;
        }
        return Err(err.value);
      }
      var next := rows + [RowItem(row)];
      assert LoadRows(m.fields, data[..i + 1]) == Ok(PropsOf(next)) by {
        LoadRowsSnoc(m.fields, data[..i], data[i]);
        assert PropsOf(rows) == ps;
        PropsOfSnoc(rows, RowItem(row));
      }
      assert Unshared(next) by {
        UnsharedSnoc(rows, RowItem(row));
      }
      return Ok(next);
    }

    /** The `map` over `json.data` in `fromJSON`: one fresh row of `m` per
      record, each holding its own data object; the first error stops it. */
    static method LoadEntries(m: Model, data: seq<Props<Model>>) returns (r: Result<seq<Entry>>)
      requires m.data.elems == []
      ensures r.Err? <==> LoadRows(m.fields, data).Err?
      ensures r.Err? ==> LoadRows(m.fields, data) == Err(r.error)
      ensures r.Ok? ==> LoadRows(m.fields, data) == Ok(PropsOf(r.value)) && Unshared(r.value)
      ensures r.Ok? ==> forall e :: e in r.value ==> e.RowItem? && e.row.model == m
    {
      var rows: seq<Entry> := [];
      var i := 0;
      assert data[..0] == [];
      while i < |data|
        invariant 0 <= i <= |data|
        invariant LoadRows(m.fields, data[..i]) == Ok(PropsOf(rows)) && Unshared(rows)
        invariant forall e :: e in rows ==> e.RowItem? && e.row.model == m
      {
        var next := LoadNext(m, data, i, rows);
        if next.Err? {
          return Err(next.error);
        }
        rows := next.value;
        i := i + 1;
      }
      assert data[..i] == data;
      return Ok(rows);
    }

    /** `fromJSON(json, args)`: the schema is rebuilt first, then every record
      becomes a row of the new collection, prepared while the collection is
      still empty; the first error stops the load. The result is what `Load`
      describes, and its rows hold distinct data objects. */
    static method FromJson(doc: Doc<Model>, targets: map<string, Model>) returns (r: Result<Model>)
      ensures r.Err? <==> Load(doc, targets).Err?
      ensures r.Err? ==> Load(doc, targets) == Err(r.error)
      ensures r.Ok? ==> fresh(r.value) && fresh(r.value.data)
      ensures r.Ok? ==> Load(doc, targets) == Ok(Loaded(r.value.name, r.value.fields, PropsOf(r.value.data.elems)))
      ensures r.Ok? ==> Unshared(r.value.data.elems)
      ensures r.Ok? ==> forall e :: e in r.value.data.elems ==> e.RowItem? && e.row.model == r.value
    {
      var fs := RebuildSchema(doc.fields, targets);
      if fs.Err? {
        return Err(fs.error);
      }
      var m := new Model(doc.name, fs.value);
      var rows := LoadEntries(m, doc.data);
      if rows.Err? {
        return Err(rows.error);
      }
      ghost var loaded := PropsOf(rows.value);
      m.data := new List(rows.value);
      assert PropsOf(m.data.elems) == loaded;
      return Ok(m);
    }
  }
}
