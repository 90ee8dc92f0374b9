/**
 * The field table of a model (what the ORM reflects as `_meta.fields_map`)
 * and the required-field derivation a serializer performs when it is built.
 */
module Fields {
  import opened Wrappers
  import opened Values

  /** How a field relates to other models. */
  datatype Relation =
    | Column
    | ForeignKey
      /** A reverse one-to-many relation: rows of `childTable` point back here. */
    | BackwardFK(childTable: string, childPk: string)

  /**
   * One declared field: its name, its declared runtime type (`field_type`),
   * its relation kind, whether it is the primary key, whether it is unique,
   * and the `relation_field` attribute when the field object carries one.
   */
  datatype Field = Field(
    name: string,
    fieldType: Kind,
    relation: Relation,
    pk: bool,
    unique: bool,
    relationField: Option<string>)

  /** A model class: its table, the name of its primary key and its fields in declaration order. */
  datatype ModelDesc = ModelDesc(table: string, pkName: string, fields: seq<Field>)

  /** The field map is a dictionary, so no two fields share a name. */
  ghost predicate DistinctNames(fields: seq<Field>)
  {
    forall i, j :: 0 <= i < j < |fields| ==> fields[i].name != fields[j].name
  }

  /** `a` is `b` with some elements dropped and the rest kept in order. */
  predicate IsSubsequence<T(==)>(a: seq<T>, b: seq<T>)
    decreases |b|
  {
    if a == [] then true
    else if b == [] then false
    else if a[0] == b[0] then IsSubsequence(a[1..], b[1..])
    else IsSubsequence(a, b[1..])
  }

  /** The elements of `s` that satisfy `p`, in the order of `s`. */
  function Filter<T(!new)>(s: seq<T>, p: T -> bool): (r: seq<T>)
    ensures forall x :: x in r <==> x in s && p(x)
    ensures |r| <= |s|
    ensures IsSubsequence(r, s)
  {
    if s == [] then []
    else if p(s[0]) then [s[0]] + Filter(s[1..], p)
    else Filter(s[1..], p)
  }

  /** Every element that passes the test is kept as often as it occurs, and no other element is kept. */
  lemma {:induction false} FilterCounts<T(!new)>(s: seq<T>, p: T -> bool)
    ensures forall x :: multiset(Filter(s, p))[x] == if p(x) then multiset(s)[x] else 0
  {
    if s != [] {
      FilterCounts(s[1..], p);
      assert s == [s[0]] + s[1..];
    }
  }

  lemma {:induction false} FilterCongruent<T(!new)>(s: seq<T>, p: T -> bool, q: T -> bool)
    requires forall x :: x in s ==> p(x) == q(x)
    ensures Filter(s, p) == Filter(s, q)
  {
    if s != [] {
      FilterCongruent(s[1..], p, q);
    }
  }

  function Names(fields: seq<Field>): (r: seq<string>)
    ensures |r| == |fields|
    ensures forall i :: 0 <= i < |fields| ==> r[i] == fields[i].name
  {
    seq(|fields|, i requires 0 <= i < |fields| => fields[i].name)
  }

  /** A field the caller must supply: not read-only and not the primary key. */
  predicate IsRequired(f: Field, readOnly: seq<string>)
  {
    f.name !in readOnly && !f.pk
  }

  /** `fields_required`: the names of the required fields, in declaration order. */
  function FieldsRequired(fields: seq<Field>, readOnly: seq<string>): (r: seq<string>)
    ensures forall n :: n in r <==> exists f :: f in fields && f.name == n && IsRequired(f, readOnly)
    ensures IsSubsequence(r, Names(fields))
  {
    var kept := Filter(fields, (f: Field) => IsRequired(f, readOnly));
    NamesOfSubsequence(kept, fields);
    Names(kept)
  }

  /** `fields_map_required`: the field map restricted to the keys listed in `required`. */
  function FieldsMapRequired(fields: seq<Field>, required: seq<string>): (r: seq<Field>)
    ensures forall f :: f in r <==> f in fields && f.name in required
    ensures IsSubsequence(r, fields)
  {
    Filter(fields, (f: Field) => f.name in required)
  }

  lemma {:induction false} NamesOfSubsequence(a: seq<Field>, b: seq<Field>)
    requires IsSubsequence(a, b)
    ensures IsSubsequence(Names(a), Names(b))
    decreases |b|
  {
    if a != [] {
      assert Names(a)[1..] == Names(a[1..]);
      assert Names(b)[1..] == Names(b[1..]);
      if a[0] == b[0] {
        NamesOfSubsequence(a[1..], b[1..]);
      } else {
        NamesOfSubsequence(a, b[1..]);
        if Names(a)[0] == Names(b)[0] {
          SubsequenceOfTail(Names(a), Names(b));
        }
      }
    }
  }

  /** A subsequence of the tail of `b` that starts like `b` is a subsequence of `b` after both heads are dropped. */
  lemma {:induction false} SubsequenceOfTail<T>(a: seq<T>, b: seq<T>)
    requires a != [] && b != [] && a[0] == b[0]
    requires IsSubsequence(a, b[1..])
    ensures IsSubsequence(a[1..], b[1..])
    decreases |b|
  {
    SubsequenceDropHead(a, b[1..]);
  }

  lemma {:induction false} SubsequenceDropHead<T>(a: seq<T>, b: seq<T>)
    requires a != []
    requires IsSubsequence(a, b)
    ensures IsSubsequence(a[1..], b)
    decreases |b|, 0
  {
    if a[1..] != [] {
      if a[0] == b[0] {
        SubsequenceWeaken(a[1..], b[1..], b[0]);
      } else {
        SubsequenceDropHead(a, b[1..]);
        SubsequenceWeaken(a[1..], b[1..], b[0]);
      }
    }
  }

  lemma {:induction false} SubsequenceWeaken<T>(a: seq<T>, b: seq<T>, x: T)
    requires IsSubsequence(a, b)
    ensures IsSubsequence(a, [x] + b)
    decreases |b|, 1
  {
    var xb := [x] + b;
    assert xb[1..] == b;
    if a != [] && a[0] == x {
      SubsequenceDropHead(a, b);
    }
  }

  /** Keeping some fields of a map with distinct names keeps the names distinct. */
  lemma {:induction false} FilterDistinct(fields: seq<Field>, p: Field -> bool)
    requires DistinctNames(fields)
    ensures DistinctNames(Filter(fields, p))
  {
    if fields != [] {
      FilterDistinct(fields[1..], p);
      var rest := Filter(fields[1..], p);
      forall g | g in rest ensures g.name != fields[0].name {
        var j :| 0 <= j < |fields[1..]| && fields[1..][j] == g;
        assert fields[j + 1] == g;
      }
    }
  }

  /**
   * Restricting the field map to the names in `fields_required` gives exactly
   * the required fields, in declaration order, because field names are distinct.
   */
  lemma FieldsMapRequiredIsRequired(fields: seq<Field>, readOnly: seq<string>)
    requires DistinctNames(fields)
    ensures FieldsMapRequired(fields, FieldsRequired(fields, readOnly))
         == Filter(fields, (f: Field) => IsRequired(f, readOnly))
  {
    var names := FieldsRequired(fields, readOnly);
    forall f | f in fields
      ensures (f.name in names) == IsRequired(f, readOnly)
    {
      if f.name in names {
        var g :| g in fields && g.name == f.name && IsRequired(g, readOnly);
        var i :| 0 <= i < |fields| && fields[i] == f;
        var j :| 0 <= j < |fields| && fields[j] == g;
        assert i == j;
      }
    }
    FilterCongruent(fields, (f: Field) => f.name in names, (f: Field) => IsRequired(f, readOnly));
  }
}
