# Serializer model of the Profile registration service

This project models the generic model serializer of a small RPC service that
registers "Profile" records (name, age, height) in a relational store. The
serializer sits between the untyped keyword arguments of an RPC call and a
typed persisted record. It:

- derives the required fields of its model once, at construction;
- validates a keyword map against them and collects ordered violation
  messages (`'<f>' required`, `'<f>' Invalid type`, `'<f>' must be unique`);
- joins them with `", "` into one invalid-argument error when asked to raise;
- creates a record and binds it, or updates the bound one without validating;
- serializes the bound instance, leaving out write-only and reverse-relation
  fields;
- creates a parent together with the children supplied for its reverse
  one-to-many relations, each child linked to the parent's identity.

Modules, one per file:

- `Wrappers` (wrappers.dfy): `Option` and `Result`.
- `Values` (values.dfy): dynamically typed values, their exact runtime type, and
  attribute maps standing for instances, rows and keyword arguments.
- `Fields` (fields.dfy): the field table that replaces the ORM's reflected field
  map, and the derivation of `fields_required` and `fields_map_required`.
- `Store` (store.dfy): the relational store as one sequence of rows per table,
  behind a `Database` class whose methods insert and save rows.
- `Validation` (validation.dfy): the violation messages of one field and of the
  whole required list, their order, and the `", "` join.
- `Serializers` (serializers.dfy): the `Serializer` class
  (`__init__`, `validate`, `create`, `update`, `serialize`,
  `validate_and_create`) and the functions that specify its methods.
- `Profile` (profile.dfy): the concrete `Profile` table and `ProfileSerializer`,
  and the `register` procedure that calls `create`.

Each loop of the source is a `while` loop in a method, proved against a
function. `Validate` appends to the result field by field and is proved equal
to `Violations`. `Update` assigns attributes one key at a time. `Detach` pops
the reverse relations into `to_delay`, proved against `Deferrals` and
`ParentKwargs`. `CreateDeferred` creates the children, proved against
`CreateChildren`. The properties are lemmas about those functions.

## Model

| member | source | states |
|---|---|---|
| Fields.Filter | serializers.py:25-27 | the kept elements are exactly those of the input satisfying the test, and they keep the input's order |
| Fields.FieldsRequired | serializers.py:25-26 | `fields_required` holds exactly the names of declared fields that are neither read-only nor the primary key, in declaration order |
| Fields.FieldsMapRequired | serializers.py:27 | `fields_map_required` holds exactly the declared fields whose names are listed, in declaration order |
| Fields.FieldsMapRequiredIsRequired | serializers.py:25-27 | with distinct field names, restricting the field map to `fields_required` gives exactly the non-read-only, non-primary-key fields in order |
| Fields.FilterCounts | serializers.py:25-27 | every element that passes the test is kept as often as it occurs in the input, and nothing else is kept |
| Fields.FilterDistinct | serializers.py:27 | the restricted field map still has distinct names |
| Values.TypeOf | serializers.py:60 | `type(value)`: the exact runtime type of a value, with no subclass or coercion relation |
| Values.Attr | serializers.py:43 | `getattr(instance, key)`: the attribute's value, None when it was never set |
| Store.Taken | serializers.py:64-65 | `filter(**{name: value}).first()` finds a stored row whose attribute equals the value |
| Store.UniqueIn | models.py:7 | `unique=True`: no two stored rows hold the same value in the column |
| Store.NewRow | serializers.py:31 | a created instance holds every supplied argument and the store-assigned identity under the primary key |
| Store.Inserted | serializers.py:31 | creating a row appends it to its table and leaves every other table alone |
| Store.Saved | serializers.py:37 | saving replaces the rows with the instance's identity and changes nothing else |
| Store.Database.Create | serializers.py:31 | the database gains exactly the created row at the end of the table |
| Store.Database.Save | serializers.py:37 | the database holds the saved instance in place of its row |
| Validation.FieldViolations | serializers.py:49-70 | the messages one required field contributes, in the order the loop body appends them |
| Validation.FieldViolationsSpec | serializers.py:49-70 | a field yields `required` iff it is absent, not exempt and not a to-one foreign key; `Invalid type` iff present with the wrong exact type (a non-dict for a reverse relation); `must be unique` iff present, unique and already stored; at most these two together, type first; primary keys and fields with `relation_field` yield nothing |
| Validation.Violations | serializers.py:47-70 | the whole violation list: each required field's messages, in `fields_map_required` order |
| Validation.ViolationsMembers | serializers.py:48-70 | a message is in the list iff some required field yields it |
| Validation.ViolationsSplit | serializers.py:47-48 | the messages follow field-declaration order: those of earlier fields come first |
| Validation.NoViolationsIff | serializers.py:71-73 | an empty list means every required field is acceptable, and conversely |
| Validation.OnlyOffender | serializers.py:48-70 | when all other fields are acceptable, the list is exactly the one offending field's messages |
| Validation.MissingFieldAlone | serializers.py:67-69 | one missing required field among acceptable ones gives exactly `'<name>' required` |
| Validation.Join | serializers.py:72 | `", ".join(violations)` |
| Validation.JoinAppend | serializers.py:72 | adding a message to a non-empty list adds `", "` and the message to the joined text |
| Validation.Outcome | serializers.py:71-73 | with `_raise` and a non-empty list the call fails with the joined text, otherwise it returns the list |
| Serializers.Serialized | serializers.py:43-44 | the dict comprehension of `serialize` over the output fields |
| Serializers.SerializedExact | serializers.py:43-44 | the serialized keys are exactly the declared fields that are neither write-only nor reverse relations, each mapped to the instance's current value |
| Serializers.ParentKwargs | serializers.py:79-84 | the parent's arguments lack every supplied reverse relation and keep every other argument unchanged |
| Serializers.Deferrals | serializers.py:78-82 | the `to_delay` list built while popping the supplied reverse relations, or the failure of reading a missing `relation_field` |
| Serializers.DeferralsSpec | serializers.py:78-82 | deferring succeeds iff every supplied reverse relation has a `relation_field`; then there is one child per supplied reverse relation, in field order; otherwise it fails naming such a field |
| Serializers.CreateChildren | serializers.py:85-86 | creating the deferred children in order, each linked to the parent, stopping at the first payload that cannot be spread |
| Serializers.ChildrenSucceedIff | serializers.py:85-86 | all children are created iff every payload is a dict without the relation key |
| Serializers.ChildrenKeepRows | serializers.py:85-86 | child creation never removes or alters a stored row, even when it stops early |
| Serializers.ChildrenCount | serializers.py:85-86 | when all children are created, each table gains one row per child aimed at it |
| Serializers.ChildCreatedAt | serializers.py:85-86 | when the first k+1 payloads can be spread, the k-th child has its own row right after the stored rows and the rows of earlier children aimed at the same table; that row is exactly its payload plus the parent link and its assigned identity |
| Serializers.ChildrenStopAt | serializers.py:85-86 | creation stops at the first payload that cannot be spread; it names that child, and each table has gained exactly the rows of the children before it |
| Serializers.ChildrenInOrder | serializers.py:85-86 | both facts for every child: one row per child reached, in `to_delay` order, and the exact stopping point |
| Serializers.ChildrenLinked | serializers.py:85-86 | every row child creation adds carries some child's payload and the parent's identity under its relation field |
| Serializers.CreateWithChildren | serializers.py:75-87 | `validate_and_create`: validate and raise, pop the reverse relations, create the parent, then create the children linked to its identity |
| Serializers.InvalidPersistsNothing | serializers.py:76 | `validate_and_create` with violations stores nothing and fails with the joined text |
| Serializers.ParentCreatedOnce | serializers.py:84 | after validation, exactly one parent row built from the remaining arguments is stored, and it stays when a child fails |
| Serializers.ChildrenCarryParentId | serializers.py:84-87 | after validation, the call returns true iff every child is created; every row added after the parent is a child linked to the parent's identity; each child reached gets its own row, in `to_delay` order, holding its payload, the parent's identity and its own; on success each table gains one row per child; on failure the rejected child is named and only the earlier children's rows were added |
| Serializers.CreatedRowSerializes | serializers.py:29-32 | serializing a created instance gives the store-assigned identity for the key and the supplied value for every other output field |
| Serializers.SecondCreateRejected | serializers.py:63-66 | after a create, a second call repeating a checked unique value is told it must be unique |
| Serializers.CreateKeepsUnique | serializers.py:63-66 | when validation passes, the created row keeps a checked unique column unique: no stored row already holds its value |
| Serializers.Serializer.constructor | serializers.py:12-27 | a serializer needs a configured model; it binds the given instance and derives `fields_required` and `fields_map_required` from the field table; the invariant it establishes keeps both derivations |
| Serializers.Serializer.Serialize | serializers.py:40-44 | fails iff no instance is bound; otherwise exactly the declared non-write-only, non-reverse-relation fields, each with the instance's current value |
| Serializers.Serializer.Validate | serializers.py:46-73 | the loop computes exactly the violation list and raises or returns it as `_raise` says |
| Serializers.Serializer.Create | serializers.py:29-32 | with violations, fails with the joined text and leaves store and instance unchanged; otherwise appends exactly one row built from the arguments, binds it, and returns its serialization |
| Serializers.Serializer.Update | serializers.py:34-38 | fails with no bound instance; otherwise every supplied key takes its value, every other attribute is unchanged, the instance is saved without validation, and its serialization is returned |
| Serializers.Serializer.Detach | serializers.py:78-82 | the loop pops exactly the supplied reverse relations and defers them in field order, or fails on a field with no `relation_field` |
| Serializers.Serializer.CreateDeferred | serializers.py:85-86 | the loop's store and error are those of `CreateChildren`, so by `ChildrenInOrder` it creates one row per child in `to_delay` order, each linked to the parent's identity, and stops at the first payload that cannot be spread |
| Serializers.Serializer.ValidateAndCreate | serializers.py:75-87 | store and result are those of validating, detaching, creating the parent, then creating the children |
| Profile.ProfileRequired | models.py:5-9 | the profile serializer requires `name`, `age`, `height` in that order, never `id` |
| Profile.ProfileRequiredFilter | models.py:5-9 | the non-primary-key profile fields are `name`, `age`, `height` |
| Profile.ProfileRequiredMap | serializers.py:27 | restricting the profile fields to those names keeps `name`, `age`, `height` |
| Profile.ProfileViolations | serializers.py:48 | a profile's violations are those of `name`, then `age`, then `height` |
| Profile.RegisterViolations | main.py:16-18 | for a `register` call the only possible violation is a name that is already stored |
| Profile.AgeAsIntegerRejected | serializers.py:60-61 | the integer 30 for `age` gives exactly `'age' Invalid type`: no coercion |
| Profile.MissingHeightRejected | serializers.py:67-69 | a missing `height` gives exactly `'height' required` |
| Profile.WrongTypeAndTakenName | serializers.py:60-66 | a stored non-string name gives both `'name' Invalid type` and `'name' must be unique` |
| Profile.RegisterKeepsNamesUnique | models.py:7 | a `register` call that passes validation keeps profile names unique |
| Profile.AgeAsIntegerListed | serializers.py:60-61 | whatever else a profile holds, the integer 30 for `age` is listed as `'age' Invalid type` |
| Profile.ProfileSerializedKeys | serializers.py:43-44 | a profile serializes to exactly `id`, `name`, `age`, `height`, each with the instance's value |
| Profile.RegisterSerializes | serializers.py:40-44 | a registered profile serializes to its identity and the three given strings |
| Profile.Register | main.py:15-18 | `register` fails with `'name' must be unique` and stores nothing when the name is taken; otherwise it stores one row and returns `{id, name, age, height}` |
| Profile.UpdateSkipsValidation | serializers.py:34-38 | an update succeeds with the integer 30 for `age`, which validation would reject |

## Left out

- Nested validation of a reverse relation given as a dict: the source calls
  `validate` on a bare model instance, so what it does depends on library code
  that is not part of this model. Here a dict for such a field contributes no
  message; a non-dict contributes `'<name>' Invalid type`.
- Reflection and the check that the model is an ORM model: the field table is
  explicit. A missing model is a constructor precondition.
- Transport: the router wiring, the `ApplicationError` encoding,
  database initialisation and logging are left out. `InvalidArgument`
  carries the joined message.
- Concurrency: `async` suspension is not modelled, so neither is the
  validate-then-create uniqueness race. Every operation is atomic and
  sequential. The non-atomic parent-then-children sequence is modelled:
  children created before a failure stay.
- Identity assignment: the store gives a new row the identity
  `rows in its table + 1`, ignoring an identity in the arguments. No delete
  path exists.
- `filter(name=value)` compares model values exactly; SQL-side type affinity
  coercion is not modelled.
- An instance is an attribute map, and an unset attribute reads as None. The
  ORM's handling of undeclared keyword arguments is left out: they are stored.
  So is the foreign-key attribute naming (`<name>_id`).
- Profile.Register: takes its arguments as strings, the types `register_user`
  annotates. Python does not enforce those annotations, so a caller can send
  `age=30` and get `'age' Invalid type`. `Profile.AgeAsIntegerRejected` states
  that case at the level of the violation list.
- Profile.RegisterViolations: assumes the same string-typed arguments as
  `Profile.Register`.
- Serializers.Serializer.Create: keyword arguments named `self` or `_raise`
  are outside the model. Python rejects such a call with a TypeError before
  anything is stored; the model takes `Kwargs` to be any map and would store
  the row.
- Serializers.Serializer.Update: a keyword argument named `self` is outside
  the model for the same reason.
- Serializers.Serializer.ValidateAndCreate: keyword arguments named `self` or
  `_raise` are outside the model for the same reason.
- Serializers.CreateWithChildren: keyword arguments named `self` or `_raise`
  are outside the model for the same reason.
- Floats and lists: `Value` has neither. A JSON RPC caller can send either,
  `height=180.5` say. The exact-type rule rejects every such value for a text
  column, and `VInt` stands for any non-string value it rejects.
- Serializer.Serialize: returns a map, so the key order of the source's dict
  is not captured.
- Serializer.Update: Python assigns the keyword arguments in insertion order;
  the keys are distinct, so the order is not modelled.
- Store.Saved: the store enforces no column constraint. The schema makes
  `name` a unique column, so in the program `save` fails when an update repeats
  a stored unique value. In the model the save succeeds and two rows can then
  share the value.
- Serializers.Serializer.Update: carries the same gap. An update that repeats
  a stored unique value succeeds in the model, and so does a child create
  (`CreateChildren`) that repeats one. Only `create` and the parent of
  `validate_and_create` keep a unique column unique, by the validation check
  (`Serializers.CreateKeepsUnique`).
- Serializers.Serializer.Update: the program changes the instance object
  bound in `__init__` in place, so any other holder of that object sees the
  new attributes. The model binds an attribute-map value, so the
  serializer's own `instance` is the only thing that changes; aliasing of the
  caller's object is not captured.
- Store.Saved: `save` of an instance that was never stored (an insert) is left
  out; saving updates the rows with the same identity.
