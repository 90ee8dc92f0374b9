/**
 * `BaseSerializer.validate`: the violations a keyword map has against the
 * required fields of a model, in field-declaration order, and their
 * aggregation into a single error.
 */
module Validation {
  import opened Wrappers
  import opened Values
  import opened Fields
  import opened Store

  /** The failures a serializer call can end with. */
  datatype Error =
      /** `ApplicationError(INVALID_ARGUMENT, message)` raised to the RPC caller. */
    | InvalidArgument(message: string)
      /** `serialize` with no bound instance. */
    | NotInstantiated
      /** `update` with no bound instance: attributes are set on None. */
    | NoBoundInstance
      /** A present reverse relation whose field object has no `relation_field`. */
    | MissingRelationField(field: string)
      /** A deferred child whose payload cannot be passed as keyword arguments. */
    | ChildRejected(field: string)

  function RequiredMsg(name: string): string { "'" + name + "' required" }

  function InvalidTypeMsg(name: string): string { "'" + name + "' Invalid type" }

  function NotUniqueMsg(name: string): string { "'" + name + "' must be unique" }

  /** Fields `validate` skips: primary keys and fields carrying `relation_field`. */
  predicate Exempt(f: Field)
  {
    f.pk || f.relationField.Some?
  }

  /**
   * A supplied value of the wrong type: for a reverse relation anything but a
   * dictionary, otherwise any value whose runtime type is not exactly the
   * declared one (no coercion).
   */
  predicate TypeMismatch(f: Field, v: Value)
  {
    if f.relation.BackwardFK? then !v.VDict? else TypeOf(v) != f.fieldType
  }

  /** The messages one field contributes, in the order `validate` appends them. */
  function FieldViolations(f: Field, kwargs: Kwargs, rows: seq<Row>): seq<string>
  {
    if Exempt(f) then []
    else if f.name in kwargs then
      var v := kwargs[f.name];
      (if TypeMismatch(f, v) then [InvalidTypeMsg(f.name)] else [])
      + (if f.unique && Taken(rows, f.name, v) then [NotUniqueMsg(f.name)] else [])
    else if f.relation.ForeignKey? then []
    else [RequiredMsg(f.name)]
  }

  /**
   * Which messages a field contributes: `required` exactly when it is absent
   * and not exempt and not a to-one foreign key; `Invalid type` exactly when
   * its value has the wrong runtime type; `must be unique` exactly when it is
   * unique and its value is already stored; at most these two together, type first.
   */
  lemma FieldViolationsSpec(f: Field, kwargs: Kwargs, rows: seq<Row>)
    ensures var r := FieldViolations(f, kwargs, rows);
      && (RequiredMsg(f.name) in r <==> !Exempt(f) && f.name !in kwargs && !f.relation.ForeignKey?)
      && (InvalidTypeMsg(f.name) in r <==> !Exempt(f) && f.name in kwargs && TypeMismatch(f, kwargs[f.name]))
      && (NotUniqueMsg(f.name) in r <==>
            !Exempt(f) && f.name in kwargs && f.unique && Taken(rows, f.name, kwargs[f.name]))
      && (forall m :: m in r ==>
            m == RequiredMsg(f.name) || m == InvalidTypeMsg(f.name) || m == NotUniqueMsg(f.name))
      && |r| <= 2
      && (|r| == 2 ==> r == [InvalidTypeMsg(f.name), NotUniqueMsg(f.name)])
  {
  }

  /** The whole violation list: each required field's messages, in declaration order. */
  function Violations(required: seq<Field>, kwargs: Kwargs, rows: seq<Row>): seq<string>
  {
    if required == [] then []
    else FieldViolations(required[0], kwargs, rows) + Violations(required[1..], kwargs, rows)
  }

  /** Every message in the list comes from some required field, and every field's messages are in it. */
  lemma {:induction false} ViolationsMembers(required: seq<Field>, kwargs: Kwargs, rows: seq<Row>)
    ensures forall m :: (m in Violations(required, kwargs, rows) <==>
      exists f :: f in required && m in FieldViolations(f, kwargs, rows))
  {
    if required != [] {
      ViolationsMembers(required[1..], kwargs, rows);
      forall m | m in Violations(required, kwargs, rows)
        ensures exists f :: f in required && m in FieldViolations(f, kwargs, rows)
      {
        if m !in FieldViolations(required[0], kwargs, rows) {
          assert m in Violations(required[1..], kwargs, rows);
          var f :| f in required[1..] && m in FieldViolations(f, kwargs, rows);
          assert f in required;
        }
      }
      forall m, f | f in required && m in FieldViolations(f, kwargs, rows)
        ensures m in Violations(required, kwargs, rows)
      {
        if f != required[0] {
          var i :| 0 <= i < |required| && required[i] == f;
          assert f in required[1..] by { assert required[1..][i - 1] == f; }
        }
      }
    }
  }

  /** Messages about earlier fields come before messages about later ones. */
  lemma {:induction false} ViolationsSplit(a: seq<Field>, b: seq<Field>, kwargs: Kwargs, rows: seq<Row>)
    ensures Violations(a + b, kwargs, rows) == Violations(a, kwargs, rows) + Violations(b, kwargs, rows)
  {
    if a != [] {
      assert (a + b)[1..] == a[1..] + b;
      ViolationsSplit(a[1..], b, kwargs, rows);
    } else {
      assert a + b == b;
    }
  }

  /** An empty list means every required field is acceptable. */
  lemma {:induction false} NoViolationsIff(required: seq<Field>, kwargs: Kwargs, rows: seq<Row>)
    ensures Violations(required, kwargs, rows) == []
        <==> forall f :: f in required ==> FieldViolations(f, kwargs, rows) == []
  {
    if required != [] {
      NoViolationsIff(required[1..], kwargs, rows);
    }
  }

  /** When every other field is acceptable, the list is exactly the one offending field's messages. */
  lemma {:induction false} OnlyOffender(required: seq<Field>, k: nat, kwargs: Kwargs, rows: seq<Row>)
    requires k < |required|
    requires forall i :: 0 <= i < |required| && i != k ==> FieldViolations(required[i], kwargs, rows) == []
    ensures Violations(required, kwargs, rows) == FieldViolations(required[k], kwargs, rows)
  {
    if k == 0 {
      forall f | f in required[1..] ensures FieldViolations(f, kwargs, rows) == [] {
        var i :| 0 <= i < |required[1..]| && required[1..][i] == f;
        assert required[i + 1] == f;
      }
      NoViolationsIff(required[1..], kwargs, rows);
    } else {
      assert FieldViolations(required[0], kwargs, rows) == [];
      OnlyOffender(required[1..], k - 1, kwargs, rows);
    }
  }

  /**
   * A missing required field that is neither exempt nor a to-one foreign key,
   * with every other field acceptable, gives exactly `'<name>' required`.
   */
  lemma MissingFieldAlone(required: seq<Field>, k: nat, kwargs: Kwargs, rows: seq<Row>)
    requires k < |required|
    requires forall i :: 0 <= i < |required| && i != k ==> FieldViolations(required[i], kwargs, rows) == []
    requires required[k].name !in kwargs && !Exempt(required[k]) && !required[k].relation.ForeignKey?
    ensures Violations(required, kwargs, rows) == [RequiredMsg(required[k].name)]
  {
    OnlyOffender(required, k, kwargs, rows);
  }

  /** `', '.join(messages)`. */
  function Join(messages: seq<string>): string
  {
    if messages == [] then ""
    else if |messages| == 1 then messages[0]
    else messages[0] + ", " + Join(messages[1..])
  }

  /** Appending a message to a non-empty list appends it to the joined text after a separator. */
  lemma {:induction false} JoinAppend(messages: seq<string>, m: string)
    requires messages != []
    ensures Join(messages + [m]) == Join(messages) + ", " + m
  {
    var ms := messages + [m];
    if |messages| == 1 {
      assert ms[1..] == [m];
    } else {
      assert ms[1..] == messages[1..] + [m];
      JoinAppend(messages[1..], m);
    }
  }

  /** The joined text starts with the first message, so it is never empty when that message is not. */
  lemma {:induction false} JoinStartsWithFirst(messages: seq<string>)
    requires messages != []
    ensures messages[0] <= Join(messages)
  {
  }

  /** What `validate(_raise, **kwargs)` returns or raises for a computed violation list. */
  function Outcome(violations: seq<string>, raise: bool): (r: Result<seq<string>, Error>)
    ensures r.Failure? <==> raise && violations != []
    ensures r.Failure? ==> r.error == InvalidArgument(Join(violations))
    ensures r.Success? ==> r.value == violations
  {
    if raise && violations != [] then Failure(InvalidArgument(Join(violations)))
    else Success(violations)
  }
}
