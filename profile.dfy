/**
 * The concrete `Profile` model and its `ProfileSerializer`, with the
 * behaviour of the `register` procedure that creates a profile.
 */
module Profile {
  import opened Wrappers
  import opened Values
  import opened Fields
  import opened Store
  import opened Validation
  import opened Serializers

  const IdField := Field("id", IntType, Column, true, true, None)
  const NameField := Field("name", StrType, Column, false, true, None)
  const AgeField := Field("age", StrType, Column, false, false, None)
  const HeightField := Field("height", StrType, Column, false, false, None)

  /** `Profile`: an integer primary key and three text columns, `name` unique. */
  const ProfileModel := ModelDesc("profile", "id", [IdField, NameField, AgeField, HeightField])

  /** `ProfileSerializer.Meta`: the model only, nothing read-only or write-only. */
  const ProfileMeta := Meta(Some(ProfileModel), [], [])

  /** The arguments `register(name, age, height)` passes to `create`. */
  function RegisterArgs(name: string, age: string, height: string): Kwargs
  {
    map["name" := VStr(name), "age" := VStr(age), "height" := VStr(height)]
  }

  /** A profile serializer requires `name`, `age` and `height`, in that order, and never `id`. */
  lemma ProfileRequired()
    ensures FieldsRequired(ProfileModel.fields, []) == ["name", "age", "height"]
    ensures FieldsMapRequired(ProfileModel.fields, ["name", "age", "height"]) == [NameField, AgeField, HeightField]
  {
    ProfileRequiredFilter();
    var kept := [NameField, AgeField, HeightField];
    assert Names(kept) == ["name", "age", "height"];
    ProfileRequiredMap();
  }

  lemma ProfileRequiredFilter()
    ensures Filter(ProfileModel.fields, (f: Field) => IsRequired(f, [])) == [NameField, AgeField, HeightField]
  {
    var p := (f: Field) => IsRequired(f, []);
    var fs := ProfileModel.fields;
    assert Filter([HeightField], p) == [HeightField] by {
      assert [HeightField][1..] == [];
    }
    assert Filter([AgeField, HeightField], p) == [AgeField, HeightField] by {
      assert [AgeField, HeightField][1..] == [HeightField];
    }
    assert Filter([NameField, AgeField, HeightField], p) == [NameField, AgeField, HeightField] by {
      assert [NameField, AgeField, HeightField][1..] == [AgeField, HeightField];
    }
    assert fs[1..] == [NameField, AgeField, HeightField];
  }

  lemma ProfileRequiredMap()
    ensures FieldsMapRequired(ProfileModel.fields, ["name", "age", "height"]) == [NameField, AgeField, HeightField]
  {
    var q := (f: Field) => f.name in ["name", "age", "height"];
    var fs := ProfileModel.fields;
    assert Filter([HeightField], q) == [HeightField] by {
      assert [HeightField][1..] == [];
    }
    assert Filter([AgeField, HeightField], q) == [AgeField, HeightField] by {
      assert [AgeField, HeightField][1..] == [HeightField];
    }
    assert Filter([NameField, AgeField, HeightField], q) == [NameField, AgeField, HeightField] by {
      assert [NameField, AgeField, HeightField][1..] == [AgeField, HeightField];
    }
    assert "id" !in ["name", "age", "height"];
    assert fs[1..] == [NameField, AgeField, HeightField];
  }

  /** The profile's violations are those of `name`, then `age`, then `height`. */
  lemma ProfileViolations(kwargs: Kwargs, rows: seq<Row>)
    ensures Violations([NameField, AgeField, HeightField], kwargs, rows)
         == FieldViolations(NameField, kwargs, rows) + FieldViolations(AgeField, kwargs, rows)
            + FieldViolations(HeightField, kwargs, rows)
  {
    var fs := [NameField, AgeField, HeightField];
    var n, a, h := FieldViolations(NameField, kwargs, rows), FieldViolations(AgeField, kwargs, rows),
                   FieldViolations(HeightField, kwargs, rows);
    assert fs[1..] == [AgeField, HeightField];
    assert fs[1..][1..] == [HeightField];
    assert [HeightField][1..] == [];
    assert Violations([HeightField], kwargs, rows) == h + [] == h;
    assert Violations([AgeField, HeightField], kwargs, rows) == a + h;
    assert Violations(fs, kwargs, rows) == n + (a + h) == n + a + h;
  }

  /**
   * The only thing that can be wrong with a `register` call is a name that
   * is already stored: every value arrives as a string, as declared.
   */
  lemma RegisterViolations(name: string, age: string, height: string, rows: seq<Row>)
    ensures Violations([NameField, AgeField, HeightField], RegisterArgs(name, age, height), rows)
         == if Taken(rows, "name", VStr(name)) then [NotUniqueMsg("name")] else []
  {
    var args := RegisterArgs(name, age, height);
    ProfileViolations(args, rows);
    assert FieldViolations(AgeField, args, rows) == [];
    assert FieldViolations(HeightField, args, rows) == [];
  }

  /** Exact types, no coercion: the integer 30 for `age` is rejected. */
  lemma AgeAsIntegerRejected(rows: seq<Row>)
    requires !Taken(rows, "name", VStr("A"))
    ensures Violations([NameField, AgeField, HeightField],
                       map["name" := VStr("A"), "age" := VInt(30), "height" := VStr("180")], rows)
         == [InvalidTypeMsg("age")]
  {
    var args := map["name" := VStr("A"), "age" := VInt(30), "height" := VStr("180")];
    ProfileViolations(args, rows);
    assert FieldViolations(NameField, args, rows) == [];
    assert FieldViolations(HeightField, args, rows) == [];
  }

  /** A missing `height` gives exactly `'height' required`. */
  lemma MissingHeightRejected(rows: seq<Row>)
    requires !Taken(rows, "name", VStr("A"))
    ensures Violations([NameField, AgeField, HeightField], map["name" := VStr("A"), "age" := VStr("30")], rows)
         == [RequiredMsg("height")]
  {
    var args := map["name" := VStr("A"), "age" := VStr("30")];
    ProfileViolations(args, rows);
    assert FieldViolations(NameField, args, rows) == [];
    assert FieldViolations(AgeField, args, rows) == [];
  }

  /** The uniqueness lookup runs even after the type check failed, so `name` reports twice. */
  lemma WrongTypeAndTakenName(rows: seq<Row>)
    requires Taken(rows, "name", VInt(5))
    ensures Violations([NameField, AgeField, HeightField],
                       map["name" := VInt(5), "age" := VStr("30"), "height" := VStr("180")], rows)
         == [InvalidTypeMsg("name"), NotUniqueMsg("name")]
  {
    var args := map["name" := VInt(5), "age" := VStr("30"), "height" := VStr("180")];
    ProfileViolations(args, rows);
    assert FieldViolations(AgeField, args, rows) == [];
    assert FieldViolations(HeightField, args, rows) == [];
  }

  /** `register` keeps profile names unique: a call that passes validation adds a name no profile holds. */
  lemma RegisterKeepsNamesUnique(db: Tables, name: string, age: string, height: string)
    requires UniqueIn(RowsOf(db, "profile"), "name")
    requires !Taken(RowsOf(db, "profile"), "name", VStr(name))
    ensures UniqueIn(RowsOf(Inserted(db, "profile", NewRow(db, "profile", "id", RegisterArgs(name, age, height))), "profile"),
                     "name")
  {
    RegisterViolations(name, age, height, RowsOf(db, "profile"));
    CreateKeepsUnique([NameField, AgeField, HeightField], NameField, RegisterArgs(name, age, height), db, "profile", "id");
  }

  /** A registered profile serializes to its identity and the three strings it was given. */
  lemma RegisterSerializes(db: Tables, name: string, age: string, height: string)
    ensures Serialized(ProfileModel.fields, [], NewRow(db, "profile", "id", RegisterArgs(name, age, height)))
         == map["id" := VInt(NextId(db, "profile")), "name" := VStr(name), "age" := VStr(age), "height" := VStr(height)]
  {
    var row := NewRow(db, "profile", "id", RegisterArgs(name, age, height));
    var out := Serialized(ProfileModel.fields, [], row);
    var expected := map["id" := VInt(NextId(db, "profile")), "name" := VStr(name), "age" := VStr(age),
                        "height" := VStr(height)];
    ProfileSerializedKeys(row);
    assert out.Keys == expected.Keys;
    assert out["id"] == Attr(row, "id") == VInt(NextId(db, "profile"));
    assert out["name"] == Attr(row, "name") == VStr(name);
    assert out["age"] == Attr(row, "age") == VStr(age);
    assert out["height"] == Attr(row, "height") == VStr(height);
  }

  /** A profile serializes to its four columns, each with the instance's value. */
  lemma ProfileSerializedKeys(inst: Row)
    ensures Serialized(ProfileModel.fields, [], inst).Keys == {"id", "name", "age", "height"}
    ensures forall k :: k in Serialized(ProfileModel.fields, [], inst) ==> Serialized(ProfileModel.fields, [], inst)[k] == Attr(inst, k)
  {
    var out := Serialized(ProfileModel.fields, [], inst);
    forall k | k in out ensures k in {"id", "name", "age", "height"} {
      var f :| f in ProfileModel.fields && IsOutput(f, []) && f.name == k;
      assert f == IdField || f == NameField || f == AgeField || f == HeightField;
    }
    assert IdField in ProfileModel.fields && NameField in ProfileModel.fields;
    assert AgeField in ProfileModel.fields && HeightField in ProfileModel.fields;
  }

  /**
   * `register(name, age, height)`: creates a profile, or fails with
   * `'name' must be unique` and stores nothing when the name is taken.
   */
  method Register(db: Database, name: string, age: string, height: string)
    returns (r: Result<map<string, Value>, Error>)
    modifies db
    ensures Taken(old(db.Rows("profile")), "name", VStr(name)) ==>
      r == Failure(InvalidArgument(NotUniqueMsg("name"))) && db.tables == old(db.tables)
    ensures !Taken(old(db.Rows("profile")), "name", VStr(name)) ==>
      && r == Success(map["id" := VInt(NextId(old(db.tables), "profile")), "name" := VStr(name),
                          "age" := VStr(age), "height" := VStr(height)])
      && db.tables == Inserted(old(db.tables), "profile", NewRow(old(db.tables), "profile", "id", RegisterArgs(name, age, height)))
  {
    assert DistinctNames(ProfileModel.fields);
    var serializer := new Serializer(ProfileMeta, db, None);
    ProfileRequired();
    RegisterViolations(name, age, height, db.Rows("profile"));
    RegisterSerializes(db.tables, name, age, height);
    r := serializer.Create(RegisterArgs(name, age, height));
  }

  /** Whatever else a profile holds, the integer 30 for `age` is listed as `'age' Invalid type`. */
  lemma AgeAsIntegerListed(profile: Row, rows: seq<Row>)
    ensures InvalidTypeMsg("age") in Violations([NameField, AgeField, HeightField], profile["age" := VInt(30)], rows)
  {
    var args := profile["age" := VInt(30)];
    ProfileViolations(args, rows);
    assert InvalidTypeMsg("age") in FieldViolations(AgeField, args, rows);
  }

  /**
   * `update` validates nothing: a bound profile takes the integer 30 for
   * `age`, which `create` rejects, and serializes with it.
   */
  method UpdateSkipsValidation(db: Database, profile: Row) returns (r: Result<map<string, Value>, Error>)
    modifies db
    ensures InvalidTypeMsg("age")
      in Violations([NameField, AgeField, HeightField], profile["age" := VInt(30)], old(db.Rows("profile")))
    ensures r.Success? && "age" in r.value && r.value["age"] == VInt(30)
  {
    AgeAsIntegerListed(profile, db.Rows("profile"));
    assert DistinctNames(ProfileModel.fields);
    var serializer := new Serializer(ProfileMeta, db, Some(profile));
    r := serializer.Update(map["age" := VInt(30)]);
    AgeSerialized(serializer.instance.value);
  }

  /** A profile's `age` attribute is part of its serialization. */
  lemma AgeSerialized(inst: Row)
    requires "age" in inst
    ensures "age" in Serialized(ProfileModel.fields, [], inst)
    ensures Serialized(ProfileModel.fields, [], inst)["age"] == inst["age"]
  {
    assert AgeField in ProfileModel.fields && IsOutput(AgeField, []);
  }
}
