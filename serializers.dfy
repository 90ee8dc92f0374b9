/**
 * `BaseSerializer`: a generic adapter between the untyped keyword arguments
 * of an RPC call and a persisted model instance. It derives the required
 * fields once, validates keyword maps, creates and updates instances,
 * serializes the bound instance and creates a parent together with the
 * children of its reverse relations.
 */
module Serializers {
  import opened Wrappers
  import opened Values
  import opened Fields
  import opened Store
  import opened Validation

  /** The `Meta` class of a concrete serializer: the model and its read-only and write-only names. */
  datatype Meta = Meta(model: Option<ModelDesc>, writeOnly: seq<string>, readOnly: seq<string>)

  /** Whether `serialize` emits a field: neither write-only nor a reverse relation. */
  predicate IsOutput(f: Field, writeOnly: seq<string>)
  {
    f.name !in writeOnly && !f.relation.BackwardFK?
  }

  /** `{key: getattr(instance, key) for key, value in fields_map.items() if ...}`. */
  function Serialized(fields: seq<Field>, writeOnly: seq<string>, inst: Row): map<string, Value>
  {
    map f | f in fields && IsOutput(f, writeOnly) :: f.name := Attr(inst, f.name)
  }

  /** The serialized keys are exactly the output fields' names, each mapped to the instance's value. */
  lemma SerializedExact(fields: seq<Field>, writeOnly: seq<string>, inst: Row)
    requires DistinctNames(fields)
    ensures forall f :: f in fields ==>
      (f.name in Serialized(fields, writeOnly, inst) <==> IsOutput(f, writeOnly))
    ensures forall k :: k in Serialized(fields, writeOnly, inst) ==>
      (exists f :: f in fields && f.name == k) && Serialized(fields, writeOnly, inst)[k] == Attr(inst, k)
  {
    var r := Serialized(fields, writeOnly, inst);
    forall f | f in fields && f.name in r ensures IsOutput(f, writeOnly) {
      var g :| g in fields && IsOutput(g, writeOnly) && g.name == f.name;
      var i :| 0 <= i < |fields| && fields[i] == f;
      var j :| 0 <= j < |fields| && fields[j] == g;
      assert i == j;
    }
  }

  /** A reverse relation supplied in the call: its payload is split off the parent's arguments. */
  predicate Detached(f: Field, kwargs: Kwargs)
  {
    f.name in kwargs && f.relation.BackwardFK?
  }

  function DetachedNames(required: seq<Field>, kwargs: Kwargs): set<string>
  {
    set f | f in required && Detached(f, kwargs) :: f.name
  }

  /** The parent's arguments once every supplied reverse relation has been popped. */
  function ParentKwargs(required: seq<Field>, kwargs: Kwargs): (r: Kwargs)
    ensures forall f :: f in required && Detached(f, kwargs) ==> f.name !in r
    ensures forall k :: k in r <==> k in kwargs && k !in DetachedNames(required, kwargs)
    ensures forall k :: k in r ==> r[k] == kwargs[k]
  {
    kwargs - DetachedNames(required, kwargs)
  }

  /** A child creation postponed until the parent has its identity. */
  datatype Deferred = Deferred(field: string, data: Value, childTable: string, childPk: string, rel: string)

  function DeferOf(f: Field, kwargs: Kwargs): Deferred
    requires Detached(f, kwargs) && f.relationField.Some?
  {
    Deferred(f.name, kwargs[f.name], f.relation.childTable, f.relation.childPk, f.relationField.value)
  }

  /**
   * The `to_delay` list: one deferred child per supplied reverse relation, in
   * field order; reading `relation_field` of a field object that has none fails.
   */
  function Deferrals(required: seq<Field>, kwargs: Kwargs): Result<seq<Deferred>, Error>
  {
    if required == [] then Success([])
    else
      var f := required[0];
      var rest := Deferrals(required[1..], kwargs);
      if !Detached(f, kwargs) then rest
      else if f.relationField.None? then Failure(MissingRelationField(f.name))
      else Prepend([DeferOf(f, kwargs)], rest)
  }

  /**
   * Deferring succeeds exactly when every supplied reverse relation has a
   * relation field; it then yields one child per such field, in field order,
   * and otherwise names an offending field.
   */
  lemma {:induction false} DeferralsSpec(required: seq<Field>, kwargs: Kwargs)
    ensures var r := Deferrals(required, kwargs);
      && (r.Success? <==>
            forall i :: 0 <= i < |required| && Detached(required[i], kwargs) ==> required[i].relationField.Some?)
      && (r.Success? ==>
            var ds := Filter(required, (f: Field) => Detached(f, kwargs));
            |r.value| == |ds| &&
            forall i :: 0 <= i < |ds| ==>
              Detached(ds[i], kwargs) && ds[i].relationField.Some? && r.value[i] == DeferOf(ds[i], kwargs))
      && (r.Failure? ==> exists i :: (0 <= i < |required| && Detached(required[i], kwargs)
            && required[i].relationField.None? && r.error == MissingRelationField(required[i].name)))
  {
    if required != [] {
      DeferralsSpec(required[1..], kwargs);
      assert forall i :: 1 <= i < |required| ==> required[i] == required[1..][i - 1];
      var r := Deferrals(required, kwargs);
      var ds := Filter(required, (f: Field) => Detached(f, kwargs));
      var rest := Filter(required[1..], (f: Field) => Detached(f, kwargs));
      if Detached(required[0], kwargs) {
        assert ds == [required[0]] + rest;
        if r.Failure? && required[0].relationField.Some? {
          var i :| 0 <= i < |required[1..]| && Detached(required[1..][i], kwargs)
            && required[1..][i].relationField.None? && r.error == MissingRelationField(required[1..][i].name);
          assert required[i + 1] == required[1..][i];
        }
      } else {
        assert ds == rest;
        if r.Failure? {
          var i :| 0 <= i < |required[1..]| && Detached(required[1..][i], kwargs)
            && required[1..][i].relationField.None? && r.error == MissingRelationField(required[1..][i].name);
          assert required[i + 1] == required[1..][i];
        }
      }
    }
  }

  function Prepend(ds: seq<Deferred>, r: Result<seq<Deferred>, Error>): Result<seq<Deferred>, Error>
  {
    match r
    case Success(rest) => Success(ds + rest)
    case Failure(e) => Failure(e)
  }

  lemma PrependTwice(a: seq<Deferred>, b: seq<Deferred>, r: Result<seq<Deferred>, Error>)
    ensures Prepend(a, Prepend(b, r)) == Prepend(a + b, r)
  {
    if r.Success? {
      assert a + (b + r.value) == (a + b) + r.value;
    }
  }

  /** A deferred payload can be spread as keyword arguments next to the relation key. */
  predicate Creatable(d: Deferred)
  {
    d.data.VDict? && d.rel !in d.data.entries
  }

  /** `**{rel: parent.pk}, **data`. */
  function ChildKwargs(d: Deferred, parentId: Value): Kwargs
    requires Creatable(d)
  {
    d.data.entries[d.rel := parentId]
  }

  /** The row was created for `d`: it holds the payload and the link to the parent, beside its own identity. */
  predicate ChildRowOf(row: Row, d: Deferred, parentId: Value)
  {
    Creatable(d) &&
    forall k :: k in ChildKwargs(d, parentId) && k != d.childPk ==>
      k in row && row[k] == ChildKwargs(d, parentId)[k]
  }

  /** The row was created for one of the deferred children aimed at `table`. */
  ghost predicate ChildOfSome(row: Row, ds: seq<Deferred>, table: string, parentId: Value)
  {
    exists d :: d in ds && d.childTable == table && ChildRowOf(row, d, parentId)
  }

  function CountFor(ds: seq<Deferred>, table: string): nat
  {
    if ds == [] then 0
    else (if ds[0].childTable == table then 1 else 0) + CountFor(ds[1..], table)
  }

  /**
   * Creating the deferred children in order, each linked to the parent. The
   * first payload that cannot be spread stops the sequence; the rows created
   * before it stay.
   */
  function CreateChildren(db: Tables, ds: seq<Deferred>, parentId: Value): (Tables, Option<Error>)
    decreases |ds|
  {
    if ds == [] then (db, None)
    else if !Creatable(ds[0]) then (db, Some(ChildRejected(ds[0].field)))
    else
      var d := ds[0];
      var row := NewRow(db, d.childTable, d.childPk, ChildKwargs(d, parentId));
      CreateChildren(Inserted(db, d.childTable, row), ds[1..], parentId)
  }

  /** All children are created exactly when every payload can be spread. */
  lemma {:induction false} ChildrenSucceedIff(db: Tables, ds: seq<Deferred>, parentId: Value)
    ensures CreateChildren(db, ds, parentId).1.None? <==> forall i :: 0 <= i < |ds| ==> Creatable(ds[i])
    decreases |ds|
  {
    if ds != [] && Creatable(ds[0]) {
      var d := ds[0];
      var row := NewRow(db, d.childTable, d.childPk, ChildKwargs(d, parentId));
      ChildrenSucceedIff(Inserted(db, d.childTable, row), ds[1..], parentId);
      assert forall i :: 1 <= i < |ds| ==> ds[i] == ds[1..][i - 1];
    }
  }

  /** Child creation never removes or changes a stored row, even when it stops early. */
  lemma {:induction false} ChildrenKeepRows(db: Tables, ds: seq<Deferred>, parentId: Value)
    ensures forall t :: RowsOf(db, t) <= RowsOf(CreateChildren(db, ds, parentId).0, t)
    decreases |ds|
  {
    if ds != [] && Creatable(ds[0]) {
      var d := ds[0];
      var row := NewRow(db, d.childTable, d.childPk, ChildKwargs(d, parentId));
      var db1 := Inserted(db, d.childTable, row);
      ChildrenKeepRows(db1, ds[1..], parentId);
      forall t ensures RowsOf(db, t) <= RowsOf(CreateChildren(db, ds, parentId).0, t) {
        assert RowsOf(db, t) <= RowsOf(db1, t);
      }
    }
  }

  /** When all children are created, each table gains one row per child aimed at it. */
  lemma {:induction false} ChildrenCount(db: Tables, ds: seq<Deferred>, parentId: Value)
    requires CreateChildren(db, ds, parentId).1.None?
    ensures forall t :: |RowsOf(CreateChildren(db, ds, parentId).0, t)| == |RowsOf(db, t)| + CountFor(ds, t)
    decreases |ds|
  {
    if ds != [] {
      var d := ds[0];
      var row := NewRow(db, d.childTable, d.childPk, ChildKwargs(d, parentId));
      ChildrenCount(Inserted(db, d.childTable, row), ds[1..], parentId);
    }
  }

  /** Every row child creation adds holds some deferred payload and the parent's identity under its relation key. */
  lemma {:induction false} ChildrenLinked(db: Tables, ds: seq<Deferred>, parentId: Value)
    ensures forall t, j :: |RowsOf(db, t)| <= j < |RowsOf(CreateChildren(db, ds, parentId).0, t)| ==>
      ChildOfSome(RowsOf(CreateChildren(db, ds, parentId).0, t)[j], ds, t, parentId)
    decreases |ds|
  {
    if ds != [] && Creatable(ds[0]) {
      var d := ds[0];
      var row := NewRow(db, d.childTable, d.childPk, ChildKwargs(d, parentId));
      var db1 := Inserted(db, d.childTable, row);
      var db' := CreateChildren(db, ds, parentId).0;
      assert db' == CreateChildren(db1, ds[1..], parentId).0;
      ChildrenLinked(db1, ds[1..], parentId);
      ChildrenKeepRows(db1, ds[1..], parentId);
      forall t, j | |RowsOf(db, t)| <= j < |RowsOf(db', t)|
        ensures ChildOfSome(RowsOf(db', t)[j], ds, t, parentId)
      {
        if j < |RowsOf(db1, t)| {
          assert t == d.childTable;
          assert RowsOf(db', t)[j] == RowsOf(db1, t)[j] == row;
          assert ChildRowOf(row, d, parentId);
        } else {
          assert ChildOfSome(RowsOf(db', t)[j], ds[1..], t, parentId);
          var e :| e in ds[1..] && e.childTable == t && ChildRowOf(RowsOf(db', t)[j], e, parentId);
          assert e in ds;
        }
      }
    } else {
      assert CreateChildren(db, ds, parentId).0 == db;
    }
  }

  /** The first `n` deferred payloads can all be spread. */
  predicate LeadingCreatable(ds: seq<Deferred>, n: nat)
    requires n <= |ds|
  {
    forall i :: 0 <= i < n ==> Creatable(ds[i])
  }

  /**
   * `db'` holds the `k`-th child's own row right after the rows of `db` and
   * those of the earlier children aimed at the same table: its payload, the
   * link to the parent and the identity the store gave it.
   */
  predicate ChildStoredAt(db: Tables, db': Tables, ds: seq<Deferred>, parentId: Value, k: nat)
    requires k < |ds| && Creatable(ds[k])
  {
    var t := ds[k].childTable;
    var j := |RowsOf(db, t)| + CountFor(ds[..k], t);
    j < |RowsOf(db', t)| && RowsOf(db', t)[j] == ChildKwargs(ds[k], parentId)[ds[k].childPk := VInt(j + 1)]
  }

  /** Creation stopped at the `k`-th child: it is named, and only the earlier children's rows were added. */
  ghost predicate StoppedAt(db: Tables, r: (Tables, Option<Error>), ds: seq<Deferred>, k: nat)
    requires k < |ds|
  {
    && r.1 == Some(ChildRejected(ds[k].field))
    && forall t :: |RowsOf(r.0, t)| == |RowsOf(db, t)| + CountFor(ds[..k], t)
  }

  /**
   * When the first `k + 1` payloads can be spread, the `k`-th child has its
   * own row at its place in its table.
   */
  lemma {:induction false} ChildCreatedAt(db: Tables, ds: seq<Deferred>, parentId: Value, k: nat)
    requires k < |ds|
    requires LeadingCreatable(ds, k + 1)
    ensures ChildStoredAt(db, CreateChildren(db, ds, parentId).0, ds, parentId, k)
    decreases |ds|
  {
    var d := ds[0];
    assert Creatable(d);
    var db1 := Inserted(db, d.childTable, NewRow(db, d.childTable, d.childPk, ChildKwargs(d, parentId)));
    var db' := CreateChildren(db1, ds[1..], parentId).0;
    assert CreateChildren(db, ds, parentId).0 == db';
    ChildrenKeepRows(db1, ds[1..], parentId);
    if k == 0 {
      FirstChildStored(db, db', ds, parentId);
    } else {
      assert LeadingCreatable(ds[1..], k) by {
        assert forall i :: 0 <= i < k ==> ds[1..][i] == ds[i + 1];
      }
      ChildCreatedAt(db1, ds[1..], parentId, k - 1);
      LaterChildStored(db, db', ds, parentId, k);
    }
  }

  /** The first child's row comes right after the rows already in its table. */
  lemma FirstChildStored(db: Tables, db': Tables, ds: seq<Deferred>, parentId: Value)
    requires ds != [] && Creatable(ds[0])
    requires var d := ds[0];
      forall t :: RowsOf(Inserted(db, d.childTable, NewRow(db, d.childTable, d.childPk, ChildKwargs(d, parentId))), t)
                  <= RowsOf(db', t)
    ensures ChildStoredAt(db, db', ds, parentId, 0)
  {
    var d := ds[0];
    var row := NewRow(db, d.childTable, d.childPk, ChildKwargs(d, parentId));
    var t := d.childTable;
    assert ds[..0] == [];
    assert RowsOf(Inserted(db, t, row), t) <= RowsOf(db', t);
    assert RowsOf(Inserted(db, t, row), t)[|RowsOf(db, t)|] == row;
  }

  /** A later child's place, counted after the first child's row, is its place counted before it. */
  lemma LaterChildStored(db: Tables, db': Tables, ds: seq<Deferred>, parentId: Value, k: nat)
    requires 0 < k < |ds| && Creatable(ds[0]) && Creatable(ds[k])
    requires var d := ds[0];
      ChildStoredAt(Inserted(db, d.childTable, NewRow(db, d.childTable, d.childPk, ChildKwargs(d, parentId))),
                    db', ds[1..], parentId, k - 1)
    ensures ChildStoredAt(db, db', ds, parentId, k)
  {
    var t := ds[k].childTable;
    assert ds[1..][k - 1] == ds[k];
    CountForTail(ds, k, t);
  }

  /** The children before the `k`-th, counted per table, are the first one and those of the tail. */
  lemma CountForTail(ds: seq<Deferred>, k: nat, t: string)
    requires 0 < k <= |ds|
    ensures CountFor(ds[..k], t) == (if ds[0].childTable == t then 1 else 0) + CountFor(ds[1..][..k - 1], t)
  {
    assert ds[..k][1..] == ds[1..][..k - 1];
  }

  /**
   * Creation stops at the first payload that cannot be spread: that child is
   * named, and each table has gained exactly the rows of the children before it.
   */
  lemma {:induction false} ChildrenStopAt(db: Tables, ds: seq<Deferred>, parentId: Value, k: nat)
    requires k < |ds|
    requires forall i :: 0 <= i < k ==> Creatable(ds[i])
    requires !Creatable(ds[k])
    ensures CreateChildren(db, ds, parentId).1 == Some(ChildRejected(ds[k].field))
    ensures forall t :: |RowsOf(CreateChildren(db, ds, parentId).0, t)| == |RowsOf(db, t)| + CountFor(ds[..k], t)
    decreases |ds|
  {
    if k == 0 {
      assert ds[..0] == [];
    } else {
      var d := ds[0];
      assert Creatable(d);
      var row := NewRow(db, d.childTable, d.childPk, ChildKwargs(d, parentId));
      var db1 := Inserted(db, d.childTable, row);
      assert CreateChildren(db, ds, parentId) == CreateChildren(db1, ds[1..], parentId);
      assert forall i :: 0 <= i <= k - 1 ==> ds[1..][i] == ds[i + 1];
      ChildrenStopAt(db1, ds[1..], parentId, k - 1);
      forall t ensures CountFor(ds[..k], t) == (if d.childTable == t then 1 else 0) + CountFor(ds[1..][..k - 1], t) {
        CountForTail(ds, k, t);
      }
    }
  }

  /**
   * `for item in to_delay`: the children are created one row each, in
   * `to_delay` order, until the first payload that cannot be spread.
   */
  lemma ChildrenInOrder(db: Tables, ds: seq<Deferred>, parentId: Value)
    ensures forall k :: 0 <= k < |ds| && LeadingCreatable(ds, k + 1) ==>
      ChildStoredAt(db, CreateChildren(db, ds, parentId).0, ds, parentId, k)
    ensures forall k :: 0 <= k < |ds| && LeadingCreatable(ds, k) && !Creatable(ds[k]) ==>
      StoppedAt(db, CreateChildren(db, ds, parentId), ds, k)
  {
    forall k | 0 <= k < |ds| && LeadingCreatable(ds, k + 1)
      ensures ChildStoredAt(db, CreateChildren(db, ds, parentId).0, ds, parentId, k)
    {
      ChildCreatedAt(db, ds, parentId, k);
    }
    forall k | 0 <= k < |ds| && LeadingCreatable(ds, k) && !Creatable(ds[k])
      ensures StoppedAt(db, CreateChildren(db, ds, parentId), ds, k)
    {
      ChildrenStopAt(db, ds, parentId, k);
    }
  }

  /** What `validate_and_create(**kwargs)` does to the store and what it returns. */
  function CreateWithChildren(model: ModelDesc, required: seq<Field>, kwargs: Kwargs, db: Tables)
    : (r: (Tables, Result<bool, Error>))
  {
    var v := Violations(required, kwargs, RowsOf(db, model.table));
    if v != [] then (db, Failure(InvalidArgument(Join(v))))
    else match Deferrals(required, kwargs)
      case Failure(e) => (db, Failure(e))
      case Success(ds) =>
        var parent := NewRow(db, model.table, model.pkName, ParentKwargs(required, kwargs));
        var children := CreateChildren(Inserted(db, model.table, parent), ds, parent[model.pkName]);
        (children.0, if children.1.None? then Success(true) else Failure(children.1.value))
  }

  /** A failed validation persists nothing and raises the joined violations. */
  lemma InvalidPersistsNothing(model: ModelDesc, required: seq<Field>, kwargs: Kwargs, db: Tables)
    requires Violations(required, kwargs, RowsOf(db, model.table)) != []
    ensures CreateWithChildren(model, required, kwargs, db)
         == (db, Failure(InvalidArgument(Join(Violations(required, kwargs, RowsOf(db, model.table))))))
  {
  }

  /**
   * Once validation and deferral pass, exactly one parent row built from the
   * arguments without the popped relations is stored, and it stays even when
   * a child then fails; without a child aimed at the parent's own table, that
   * table grows by exactly that row.
   */
  lemma ParentCreatedOnce(model: ModelDesc, required: seq<Field>, kwargs: Kwargs, db: Tables, ds: seq<Deferred>)
    requires Violations(required, kwargs, RowsOf(db, model.table)) == []
    requires Deferrals(required, kwargs) == Success(ds)
    ensures var parent := NewRow(db, model.table, model.pkName, ParentKwargs(required, kwargs));
      var db' := CreateWithChildren(model, required, kwargs, db).0;
      && RowsOf(db, model.table) + [parent] <= RowsOf(db', model.table)
      && (CreateWithChildren(model, required, kwargs, db).1.Success? && CountFor(ds, model.table) == 0 ==>
            RowsOf(db', model.table) == RowsOf(db, model.table) + [parent])
  {
    var parent := NewRow(db, model.table, model.pkName, ParentKwargs(required, kwargs));
    var db1 := Inserted(db, model.table, parent);
    ChildrenKeepRows(db1, ds, parent[model.pkName]);
    if CreateChildren(db1, ds, parent[model.pkName]).1.None? {
      ChildrenCount(db1, ds, parent[model.pkName]);
    }
  }

  /**
   * Once validation and deferral pass, the call succeeds exactly when every
   * deferred payload can be spread; every row added after the parent is a
   * child carrying its payload and the parent's identity; each child that
   * is reached gets its own row, in `to_delay` order; on success each table
   * gains one row per child aimed at it, and on failure only the rows of the
   * children before the rejected one.
   */
  lemma ChildrenCarryParentId(model: ModelDesc, required: seq<Field>, kwargs: Kwargs, db: Tables, ds: seq<Deferred>)
    requires Violations(required, kwargs, RowsOf(db, model.table)) == []
    requires Deferrals(required, kwargs) == Success(ds)
    ensures var parent := NewRow(db, model.table, model.pkName, ParentKwargs(required, kwargs));
      var db1 := Inserted(db, model.table, parent);
      var r := CreateWithChildren(model, required, kwargs, db);
      && (r.1 == Success(true) <==> forall i :: 0 <= i < |ds| ==> Creatable(ds[i]))
      && (forall t, j :: |RowsOf(db1, t)| <= j < |RowsOf(r.0, t)| ==>
            ChildOfSome(RowsOf(r.0, t)[j], ds, t, VInt(NextId(db, model.table))))
      && (r.1.Success? ==> forall t :: |RowsOf(r.0, t)| == |RowsOf(db1, t)| + CountFor(ds, t))
      && (forall k :: 0 <= k < |ds| && LeadingCreatable(ds, k + 1) ==>
            ChildStoredAt(db1, r.0, ds, VInt(NextId(db, model.table)), k))
      && (forall k :: 0 <= k < |ds| && LeadingCreatable(ds, k) && !Creatable(ds[k]) ==>
            && r.1 == Failure(ChildRejected(ds[k].field))
            && forall t :: |RowsOf(r.0, t)| == |RowsOf(db1, t)| + CountFor(ds[..k], t))
  {
    var parent := NewRow(db, model.table, model.pkName, ParentKwargs(required, kwargs));
    var db1 := Inserted(db, model.table, parent);
    ChildrenSucceedIff(db1, ds, parent[model.pkName]);
    ChildrenLinked(db1, ds, parent[model.pkName]);
    ChildrenInOrder(db1, ds, parent[model.pkName]);
    if CreateChildren(db1, ds, parent[model.pkName]).1.None? {
      ChildrenCount(db1, ds, parent[model.pkName]);
    }
  }

  /**
   * Serializing a freshly created instance gives, for every output field,
   * the store-assigned identity for the primary key and the supplied value
   * (None when absent) for every other field.
   */
  lemma CreatedRowSerializes(fields: seq<Field>, writeOnly: seq<string>, db: Tables, table: string,
                             pkName: string, kwargs: Kwargs)
    requires DistinctNames(fields)
    ensures var out := Serialized(fields, writeOnly, NewRow(db, table, pkName, kwargs));
      forall f :: f in fields && IsOutput(f, writeOnly) ==>
        f.name in out && out[f.name] == (if f.name == pkName then VInt(NextId(db, table)) else Attr(kwargs, f.name))
  {
    SerializedExact(fields, writeOnly, NewRow(db, table, pkName, kwargs));
  }

  /**
   * After a successful create, a second call that repeats the value of a
   * checked unique field is told the value must be unique.
   */
  lemma SecondCreateRejected(required: seq<Field>, f: Field, kwargs: Kwargs, again: Kwargs,
                             db: Tables, table: string, pkName: string)
    requires f in required && !Exempt(f) && f.unique && f.name != pkName
    requires f.name in kwargs && f.name in again && again[f.name] == kwargs[f.name]
    ensures NotUniqueMsg(f.name)
      in Violations(required, again, RowsOf(Inserted(db, table, NewRow(db, table, pkName, kwargs)), table))
  {
    var rows := RowsOf(Inserted(db, table, NewRow(db, table, pkName, kwargs)), table);
    assert Attr(rows[|rows| - 1], f.name) == kwargs[f.name];
    FieldViolationsSpec(f, again, rows);
    ViolationsMembers(required, again, rows);
  }

  /**
   * The uniqueness check keeps a unique column unique: when validation
   * passes, the created row's value is held by no stored row.
   */
  lemma CreateKeepsUnique(required: seq<Field>, f: Field, kwargs: Kwargs, db: Tables, table: string, pkName: string)
    requires f in required && !Exempt(f) && f.unique && f.name != pkName && !f.relation.ForeignKey?
    requires Violations(required, kwargs, RowsOf(db, table)) == []
    requires UniqueIn(RowsOf(db, table), f.name)
    ensures UniqueIn(RowsOf(Inserted(db, table, NewRow(db, table, pkName, kwargs)), table), f.name)
  {
    var rows := RowsOf(db, table);
    NoViolationsIff(required, kwargs, rows);
    assert FieldViolations(f, kwargs, rows) == [];
    FieldViolationsSpec(f, kwargs, rows);
    assert f.name in kwargs && !Taken(rows, f.name, kwargs[f.name]);
    var row := NewRow(db, table, pkName, kwargs);
    var rows' := RowsOf(Inserted(db, table, row), table);
    assert Attr(row, f.name) == kwargs[f.name];
    forall i, j | 0 <= i < j < |rows'| ensures Attr(rows'[i], f.name) != Attr(rows'[j], f.name) {
      assert rows'[i] == rows[i];
      if j < |rows| {
        assert rows'[j] == rows[j];
      }
    }
  }

  class Serializer {
    const model: ModelDesc
    const writeOnly: seq<string>
    const readOnly: seq<string>
    const fieldsMap: seq<Field>
    const fieldsRequired: seq<string>
    const fieldsMapRequired: seq<Field>
    const db: Database
    var instance: Option<Row>

    /**
     * The field map is the model's, its names are distinct, and the required
     * lists are the ones `__init__` derives from it.
     */
    ghost predicate Valid()
    {
      && fieldsMap == model.fields
      && DistinctNames(fieldsMap)
      && fieldsRequired == FieldsRequired(fieldsMap, readOnly)
      && fieldsMapRequired == Filter(fieldsMap, (f: Field) => IsRequired(f, readOnly))
      && DistinctNames(fieldsMapRequired)
    }

    /** `__init__`: a serializer needs a configured model; the required fields are derived once. */
    constructor (meta: Meta, db: Database, instance: Option<Row>)
      requires meta.model.Some?
      requires DistinctNames(meta.model.value.fields)
      ensures Valid()
      ensures model == meta.model.value && writeOnly == meta.writeOnly && readOnly == meta.readOnly
      ensures this.db == db && this.instance == instance
      ensures fieldsRequired == FieldsRequired(model.fields, readOnly)
      ensures fieldsMapRequired == FieldsMapRequired(model.fields, fieldsRequired)
      ensures fieldsMapRequired == Filter(model.fields, (f: Field) => IsRequired(f, readOnly))
    {
      var m := meta.model.value;
      var required := FieldsRequired(m.fields, meta.readOnly);
      FilterDistinct(m.fields, (f: Field) => f.name in required);
      FieldsMapRequiredIsRequired(m.fields, meta.readOnly);
      this.instance := instance;
      this.model := m;
      this.writeOnly := meta.writeOnly;
      this.readOnly := meta.readOnly;
      this.fieldsMap := m.fields;
      this.fieldsRequired := required;
      this.fieldsMapRequired := FieldsMapRequired(m.fields, required);
      this.db := db;
    }

    /** `serialize`: fails without a bound instance, else maps every output field to its current value. */
    function Serialize(): (r: Result<map<string, Value>, Error>)
      reads this
      requires Valid()
      ensures r.Failure? <==> instance.None?
      ensures r.Failure? ==> r.error == NotInstantiated
      ensures r.Success? ==> forall f :: f in fieldsMap ==>
        (f.name in r.value <==> f.name !in writeOnly && !f.relation.BackwardFK?)
      ensures r.Success? ==> forall k :: k in r.value ==>
        (exists f :: f in fieldsMap && f.name == k) && r.value[k] == Attr(instance.value, k)
    {
      if instance.None? then Failure(NotInstantiated)
      else
        SerializedExact(fieldsMap, writeOnly, instance.value);
        Success(Serialized(fieldsMap, writeOnly, instance.value))
    }

    /** `validate(_raise, **kwargs)`: collects the violations field by field. */
    method Validate(kwargs: Kwargs, raise: bool) returns (r: Result<seq<string>, Error>)
      ensures r == Outcome(Violations(fieldsMapRequired, kwargs, db.Rows(model.table)), raise)
    {
      var rows := db.Rows(model.table);
      var result: seq<string> := [];
      var i := 0;
      while i < |fieldsMapRequired|
        invariant 0 <= i <= |fieldsMapRequired|
        invariant result == Violations(fieldsMapRequired[..i], kwargs, rows)
      {
        var field := fieldsMapRequired[i];
        ghost var before := result;
        if !(field.pk || field.relationField.Some?) {
          if field.name in kwargs {
            var value := kwargs[field.name];
            if field.relation.BackwardFK? {
              if !value.VDict? {
                result := result + [InvalidTypeMsg(field.name)];
              }
            } else if TypeOf(value) != field.fieldType {
              result := result + [InvalidTypeMsg(field.name)];
            }
            if field.unique {
              var found := Taken(rows, field.name, value);
              if found {
                result := result + [NotUniqueMsg(field.name)];
              }
            }
          } else if !field.relation.ForeignKey? {
            result := result + [RequiredMsg(field.name)];
          }
        }
        assert result == before + FieldViolations(field, kwargs, rows);
        ViolationsSplit(fieldsMapRequired[..i], [field], kwargs, rows);
        assert fieldsMapRequired[..i + 1] == fieldsMapRequired[..i] + [field];
        i := i + 1;
      }
      assert fieldsMapRequired[..i] == fieldsMapRequired;
      if raise && result != [] {
        return Failure(InvalidArgument(Join(result)));
      }
      return Success(result);
    }

    /** `create(**kwargs)`: validate, raising on any violation, then persist, bind and serialize. */
    method Create(kwargs: Kwargs) returns (r: Result<map<string, Value>, Error>)
      requires Valid()
      modifies this, db
      ensures var v := Violations(fieldsMapRequired, kwargs, old(db.Rows(model.table)));
        && (v != [] ==>
              r == Failure(InvalidArgument(Join(v))) && db.tables == old(db.tables) && instance == old(instance))
        && (v == [] ==>
              var row := NewRow(old(db.tables), model.table, model.pkName, kwargs);
              && db.tables == Inserted(old(db.tables), model.table, row)
              && instance == Some(row)
              && r == Serialize())
    {
      var checked := Validate(kwargs, true);
      if checked.Failure? {
        return Failure(checked.error);
      }
      var row := db.Create(model.table, model.pkName, kwargs);
      instance := Some(row);
      r := Serialize();
    }

    /**
     * `update(**kwargs)`: assigns every supplied attribute onto the bound
     * instance and saves it, without validating anything.
     */
    method Update(kwargs: Kwargs) returns (r: Result<map<string, Value>, Error>)
      requires Valid()
      modifies this, db
      ensures old(instance).None? ==>
        r == Failure(NoBoundInstance) && instance == old(instance) && db.tables == old(db.tables)
      ensures old(instance).Some? ==>
        && instance.Some?
        && instance.value.Keys == old(instance).value.Keys + kwargs.Keys
        && (forall k :: k in kwargs ==> instance.value[k] == kwargs[k])
        && (forall k :: k in old(instance).value && k !in kwargs ==> instance.value[k] == old(instance).value[k])
        && db.tables == Saved(old(db.tables), model.table, model.pkName, instance.value)
        && r == Serialize()
    {
      if instance.None? {
        return Failure(NoBoundInstance);
      }
      var pending := kwargs.Keys;
      while pending != {}
        invariant pending <= kwargs.Keys
        invariant instance.Some?
        invariant instance.value.Keys == old(instance).value.Keys + (kwargs.Keys - pending)
        invariant forall k :: k in kwargs.Keys - pending ==> instance.value[k] == kwargs[k]
        invariant forall k :: k in old(instance).value && k !in kwargs.Keys - pending ==>
          instance.value[k] == old(instance).value[k]
        invariant db.tables == old(db.tables)
        decreases pending
      {
        var key :| key in pending;
        instance := Some(instance.value[key := kwargs[key]]);
        pending := pending - {key};
      }
      db.Save(model.table, model.pkName, instance.value);
      r := Serialize();
    }

    /**
     * The first half of `validate_and_create`: pops every supplied reverse
     * relation out of the arguments and records it in `to_delay`.
     */
    method Detach(kwargs: Kwargs) returns (r: Result<(Kwargs, seq<Deferred>), Error>)
      requires Valid()
      ensures r == match Deferrals(fieldsMapRequired, kwargs)
                   case Success(ds) => Success((ParentKwargs(fieldsMapRequired, kwargs), ds))
                   case Failure(e) => Failure(e)
    {
      var args := kwargs;
      var toDelay: seq<Deferred> := [];
      var i := 0;
      assert fieldsMapRequired[i..] == fieldsMapRequired;
      assert Prepend(toDelay, Deferrals(fieldsMapRequired, kwargs)) == Deferrals(fieldsMapRequired, kwargs) by {
        if Deferrals(fieldsMapRequired, kwargs).Success? {
          assert toDelay + Deferrals(fieldsMapRequired, kwargs).value == Deferrals(fieldsMapRequired, kwargs).value;
        }
      }
      while i < |fieldsMapRequired|
        invariant 0 <= i <= |fieldsMapRequired|
        invariant args == kwargs - DetachedNames(fieldsMapRequired[..i], kwargs)
        invariant Deferrals(fieldsMapRequired, kwargs) == Prepend(toDelay, Deferrals(fieldsMapRequired[i..], kwargs))
      {
        var field := fieldsMapRequired[i];
        assert fieldsMapRequired[i..][1..] == fieldsMapRequired[i + 1..];
        assert field.name !in DetachedNames(fieldsMapRequired[..i], kwargs);
        if field.name in args && field.relation.BackwardFK? {
          if field.relationField.None? {
            assert Deferrals(fieldsMapRequired[i..], kwargs) == Failure(MissingRelationField(field.name));
            return Failure(MissingRelationField(field.name));
          }
          PrependTwice(toDelay, [DeferOf(field, kwargs)], Deferrals(fieldsMapRequired[i + 1..], kwargs));
          toDelay := toDelay + [Deferred(field.name, args[field.name], field.relation.childTable,
                                         field.relation.childPk, field.relationField.value)];
          args := args - {field.name};
        }
        assert fieldsMapRequired[..i + 1] == fieldsMapRequired[..i] + [field];
        assert DetachedNames(fieldsMapRequired[..i + 1], kwargs)
            == DetachedNames(fieldsMapRequired[..i], kwargs) + (if Detached(field, kwargs) then {field.name} else {});
        i := i + 1;
      }
      assert fieldsMapRequired[..i] == fieldsMapRequired;
      assert fieldsMapRequired[i..] == [];
      assert toDelay + [] == toDelay;
      return Success((args, toDelay));
    }

    /** The second half of `validate_and_create`: creates each deferred child with the parent's identity. */
    method CreateDeferred(toDelay: seq<Deferred>, parentId: Value) returns (err: Option<Error>)
      modifies db
      ensures (db.tables, err) == CreateChildren(old(db.tables), toDelay, parentId)
    {
      var j := 0;
      while j < |toDelay|
        invariant 0 <= j <= |toDelay|
        invariant CreateChildren(old(db.tables), toDelay, parentId) == CreateChildren(db.tables, toDelay[j..], parentId)
      {
        var item := toDelay[j];
        assert toDelay[j..][1..] == toDelay[j + 1..];
        if !(item.data.VDict? && item.rel !in item.data.entries) {
          return Some(ChildRejected(item.field));
        }
        var _ := db.Create(item.childTable, item.childPk, item.data.entries[item.rel := parentId]);
        j := j + 1;
      }
      assert toDelay[j..] == [];
      return None;
    }

    /**
     * `validate_and_create(**kwargs)`: validate, split the supplied reverse
     * relations off the arguments, create the parent, then each child with
     * the parent's identity.
     */
    method ValidateAndCreate(kwargs: Kwargs) returns (r: Result<bool, Error>)
      requires Valid()
      modifies db
      ensures (db.tables, r) == CreateWithChildren(model, fieldsMapRequired, kwargs, old(db.tables))
    {
      var checked := Validate(kwargs, true);
      if checked.Failure? {
        return Failure(checked.error);
      }
      var split := Detach(kwargs);
      if split.Failure? {
        return Failure(split.error);
      }
      var (args, toDelay) := split.value;
      var main := db.Create(model.table, model.pkName, args);
      var err := CreateDeferred(toDelay, main[model.pkName]);
      if err.Some? {
        return Failure(err.value);
      }
      return Success(true);
    }
  }
}
