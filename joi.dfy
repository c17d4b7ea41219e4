/** Validation-schema values, as the schema builder chains them: a base type, a
    presence flag that the last of optional()/required() sets, whether null has been
    allowed, and a default. An object schema keeps its fields in insertion order. */
module Joi {
  import opened Values

  datatype Kind = NumberKind | StringKind | BooleanKind | DateKind | AnyKind

  /** Unset is the presence of a schema on which neither optional() nor required() was called. */
  datatype Presence = Unset | Optional | Required

  datatype Shape =
    | Primitive(kind: Kind)
    | ObjectOf(fields: seq<Field>)
    | ArrayOf(items: Schema)

  datatype Schema = Schema(shape: Shape, presence: Presence, allowsNull: bool, defaultValue: Option<Value>)
  {
    function MakeOptional(): Schema { this.(presence := Optional) }
    function MakeRequired(): Schema { this.(presence := Required) }
    function AllowNull(): Schema { this.(allowsNull := true) }
    function WithDefault(v: Value): Schema { this.(defaultValue := Some(v)) }
  }

  datatype Field = Field(name: string, rule: Schema)

  /** A freshly built schema: number(), object(...), array().items(...). */
  function Base(shape: Shape): Schema {
    Schema(shape, Unset, false, None)
  }

  function Names(fields: seq<Field>): (r: seq<string>)
    ensures |r| == |fields|
    ensures forall i :: 0 <= i < |fields| ==> r[i] == fields[i].name
  {
    if fields == [] then [] else [fields[0].name] + Names(fields[1..])
  }

  /** The rule an object schema holds for a property name (the first, should there be two). */
  function FieldOf(fields: seq<Field>, name: string): Option<Schema>
  {
    if fields == [] then None
    else if fields[0].name == name then Some(fields[0].rule)
    else FieldOf(fields[1..], name)
  }

  lemma {:induction false} FieldOfNames(fields: seq<Field>, name: string)
    ensures FieldOf(fields, name).Some? <==> name in Names(fields)
    ensures FieldOf(fields, name).Some? ==> Field(name, FieldOf(fields, name).value) in fields
  {
    if fields != [] {
      FieldOfNames(fields[1..], name);
      assert Names(fields) == [fields[0].name] + Names(fields[1..]);
    }
  }

  predicate Distinct(names: seq<string>) {
    forall i, j :: 0 <= i < j < |names| ==> names[i] != names[j]
  }

  /** No property name occurs twice, as in any JavaScript object. */
  predicate DistinctNames(fields: seq<Field>) {
    Distinct(Names(fields))
  }

  /** `schema[name] = rule` on a JavaScript object: an existing property keeps its
      position and takes the new value, a new property goes last. */
  function Put(fields: seq<Field>, name: string, rule: Schema): (r: seq<Field>)
    ensures FieldOf(r, name) == Some(rule)
    ensures forall n :: n != name ==> FieldOf(r, n) == FieldOf(fields, n)
    ensures name in Names(fields) ==> Names(r) == Names(fields)
    ensures name !in Names(fields) ==> Names(r) == Names(fields) + [name]
    ensures forall f :: f in r ==> f in fields || f == Field(name, rule)
  {
    if fields == [] then [Field(name, rule)]
    else if fields[0].name == name then [Field(name, rule)] + fields[1..]
    else [fields[0]] + Put(fields[1..], name, rule)
  }

  lemma PutKeepsNamesDistinct(fields: seq<Field>, name: string, rule: Schema)
    requires DistinctNames(fields)
    ensures DistinctNames(Put(fields, name, rule))
  {
    var ns := Names(fields);
    if name !in ns {
      var rs := Names(Put(fields, name, rule));
      assert rs == ns + [name];
      forall i, j | 0 <= i < j < |rs| ensures rs[i] != rs[j] {
        if j == |ns| { assert rs[i] == ns[i]; }
      }
    }
  }

  lemma {:induction false} FieldOfDistinct(fields: seq<Field>, f: Field)
    requires DistinctNames(fields) && f in fields
    ensures FieldOf(fields, f.name) == Some(f.rule)
  {
    if fields[0] != f {
      assert f in fields[1..];
      assert Names(fields) == [fields[0].name] + Names(fields[1..]);
      var k :| 0 <= k < |fields| && fields[k] == f;
      assert fields[0].name != f.name by { assert Names(fields)[0] == fields[0].name && Names(fields)[k] == f.name; }
      FieldOfDistinct(fields[1..], f);
    }
  }
}
