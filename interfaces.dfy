/** Entity metadata as the persistence layer describes it, the relation-inclusion tree a
    model declares, the CRUD operations, and the per-model and per-operation
    configuration a service is registered with. */
module Interfaces {
  import opened Values
  import opened Joi

  /** The `type` option of a column: a language type, or any other type description. */
  datatype ColumnType = NumberType | StringType | BooleanType | DateType | OtherType(description: string)

  /** A column descriptor. `selectable` is false only when the column says `select: false`;
      `default` is None when no default is declared (a declared default of null is Some(Null)). */
  datatype Column = Column(
    name: string,
    colType: ColumnType,
    nullable: bool,
    selectable: bool,
    default: Option<Value>,
    primary: bool,
    generated: bool)

  datatype Cardinality = OneToOne | OneToMany | ManyToOne | ManyToMany

  /** A relation descriptor; `target` names the related entity in the registry.
      - `inverse` holds when the relation declares an inverse side property. This holds on
        both sides of a bidirectional relation, the owning side included.
      - `joinColumn` holds when the relation is declared with a join column.
      - `nullable` is the decorator's `nullable` option as written: None when it is left out. */
  datatype Relation = Relation(
    name: string,
    cardinality: Cardinality,
    target: string,
    inverse: bool,
    joinColumn: bool,
    nullable: Option<bool>)
  {
    /** The option read as a JavaScript condition, as the schema synthesis reads it:
        only an explicit `nullable: true` counts. */
    predicate NullableOption() { nullable == Some(true) }

    /** The ORM's `isNullable` of the relation, as the service reads it: true unless the
        relation says `nullable: false`. */
    predicate IsNullable() { nullable != Some(false) }

    /** The relation holds a foreign key: every many-to-one does, and so does a one-to-one
        declared with a join column. The ORM then also lists a virtual column under the
        relation's own name among the entity's columns. */
    predicate OwnsJoinColumn() { cardinality == ManyToOne || (cardinality == OneToOne && joinColumn) }
  }

  datatype Entity = Entity(name: string, columns: seq<Column>, relations: seq<Relation>)

  /** Entity metadata by entity name, in place of the ORM's global metadata storage. */
  type Registry = map<string, Entity>

  /** The columns of the entity called `name`; an unknown entity has none. */
  function EntityColumns(reg: Registry, name: string): seq<Column> {
    if name in reg then reg[name].columns else []
  }

  function EntityRelations(reg: Registry, name: string): seq<Relation> {
    if name in reg then reg[name].relations else []
  }

  // The name projections ColumnNames, RelationNames, Keys and Joi.Names differ only in their
  // element type; each is kept under its own name so that the lemmas read in the terms of
  // the metadata they are about.

  function ColumnNames(cols: seq<Column>): (r: seq<string>)
    ensures |r| == |cols|
    ensures forall i :: 0 <= i < |cols| ==> r[i] == cols[i].name
  {
    if cols == [] then [] else [cols[0].name] + ColumnNames(cols[1..])
  }

  function RelationNames(rels: seq<Relation>): (r: seq<string>)
    ensures |r| == |rels|
    ensures forall i :: 0 <= i < |rels| ==> r[i] == rels[i].name
  {
    if rels == [] then [] else [rels[0].name] + RelationNames(rels[1..])
  }

  predicate DistinctColumnNames(cols: seq<Column>) {
    forall i, j :: 0 <= i < j < |cols| ==> cols[i].name != cols[j].name
  }

  predicate DistinctRelationNames(rels: seq<Relation>) {
    forall i, j :: 0 <= i < j < |rels| ==> rels[i].name != rels[j].name
  }

  /** Property names of a well-formed entity are pairwise distinct, columns and relations alike. */
  predicate WellFormed(e: Entity) {
    && DistinctColumnNames(e.columns)
    && DistinctRelationNames(e.relations)
    && (forall i, j :: 0 <= i < |e.columns| && 0 <= j < |e.relations| ==> e.columns[i].name != e.relations[j].name)
  }

  predicate WellFormedRegistry(reg: Registry) {
    forall n :: n in reg ==> WellFormed(reg[n])
  }

  /** One relation of an inclusion tree: the columns to fetch of the related entity and the
      relations to include below it. A tree is an ordered list of entries, in the order a
      JavaScript object lists its keys. */
  datatype Inclusion = Inclusion(columns: Option<seq<string>>, relations: Option<Tree>)
  datatype Entry = Entry(key: string, spec: Inclusion)

  /** A nested tree, as an entry's `relations` holds it. */
  datatype Tree = Tree(entries: seq<Entry>)

  function Keys(tree: seq<Entry>): (r: seq<string>)
    ensures |r| == |tree|
    ensures forall i :: 0 <= i < |tree| ==> r[i] == tree[i].key
  {
    if tree == [] then [] else [tree[0].key] + Keys(tree[1..])
  }

  /** `tree[key]`, when `key in tree`. */
  function Lookup(tree: seq<Entry>, key: string): Option<Inclusion> {
    if tree == [] then None
    else if tree[0].key == key then Some(tree[0].spec)
    else Lookup(tree[1..], key)
  }

  lemma {:induction false} LookupKeys(tree: seq<Entry>, key: string)
    ensures Lookup(tree, key).Some? <==> key in Keys(tree)
    ensures forall i :: 0 <= i < |tree| && tree[i].key == key && (forall j :: 0 <= j < i ==> tree[j].key != key)
              ==> Lookup(tree, key) == Some(tree[i].spec)
  {
    if tree != [] {
      LookupKeys(tree[1..], key);
      assert Keys(tree) == [tree[0].key] + Keys(tree[1..]);
      forall i | 0 < i < |tree| && tree[i].key == key && (forall j :: 0 <= j < i ==> tree[j].key != key)
        ensures Lookup(tree, key) == Some(tree[i].spec)
      {
        assert tree[0].key != key;
        assert tree[1..][i - 1] == tree[i];
        forall j | 0 <= j < i - 1 ensures tree[1..][j].key != key { assert tree[1..][j] == tree[j + 1]; }
      }
    }
  }

  datatype Operation = GetAll | GetOne | CreateOne | DeleteOne | UpdateOne | AddRelation | DeleteRelation

  /** An operation's own schema: a ready schema object, or a function (named here) applied
      to the synthesized body schema. */
  datatype OperationSchema = SchemaObject(schema: Schema) | SchemaFunction(function_name: string)

  datatype OperationConfig = OperationConfig(
    schema: Option<OperationSchema>,
    handler: Option<string>,
    columns: Option<seq<string>>)

  datatype ModelConfig = ModelConfig(
    entity: string,
    id: Option<string>,
    name: string,
    schema: Option<Schema>,
    relations: Option<seq<Entry>>,
    columns: Option<seq<string>>)

  /** The metadata a service class is registered with. `operations` is None when the
      service declares no per-operation configuration at all. */
  datatype ServiceOptions = ServiceOptions(model: ModelConfig, operations: Option<map<Operation, OperationConfig>>)

  /** `operations?.[operation]`, for a defined operation. */
  function OperationEntry(meta: ServiceOptions, op: Option<Operation>): Option<OperationConfig> {
    if op.Some? && meta.operations.Some? && op.value in meta.operations.value
    then Some(meta.operations.value[op.value]) else None
  }

  /** `operation && operations?.[operation]?.columns`. */
  function OperationColumns(meta: ServiceOptions, op: Option<Operation>): Option<seq<string>> {
    if OperationEntry(meta, op).Some? then OperationEntry(meta, op).value.columns else None
  }

  /** `operation && operations?.[operation]?.schema`. */
  function OperationSchemaOf(meta: ServiceOptions, op: Option<Operation>): Option<OperationSchema> {
    if OperationEntry(meta, op).Some? then OperationEntry(meta, op).value.schema else None
  }
}
