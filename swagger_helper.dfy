/** Synthesis of validation schemas from entity metadata: a rule per column, a nested
    rule per included relation, filtered by the model's column allow-list and, for request
    bodies, by what a write may carry. */
module SwaggerHelper {
  import opened Values
  import opened Joi
  import opened Interfaces

  function KindOf(t: ColumnType): Kind {
    match t
    case NumberType => NumberKind
    case StringType => StringKind
    case BooleanType => BooleanKind
    case DateType => DateKind
    case OtherType(_) => AnyKind
  }

  /** When a column's rule is optional and accepts null: forced, defaulted or nullable. */
  predicate Lenient(c: Column, forceOptional: bool) {
    forceOptional || c.default.Some? || c.nullable
  }

  /** The rule for one column (entityColumn2JoiSchema); None for a `select: false` column.
      Whether the column is generated plays no part. */
  function ColumnSchema(c: Column, forceOptional: bool): (r: Option<Schema>)
    ensures r.None? <==> !c.selectable
    ensures r.Some? ==> r.value.shape == Primitive(KindOf(c.colType)) && r.value.defaultValue == c.default
    ensures r.Some? ==> r.value.presence != Unset
    ensures r.Some? ==> (r.value.presence == Optional <==> Lenient(c, forceOptional))
    ensures r.Some? ==> (r.value.allowsNull <==> r.value.presence == Optional)
  {
    if !c.selectable then None
    else
      var base := Base(Primitive(KindOf(c.colType)));
      var lenient := Lenient(c, forceOptional);
      var defaulted := if c.default.Some? then base.WithDefault(c.default.value) else base;
      var marked := if lenient then defaulted.MakeOptional() else defaulted.MakeRequired();
      Some(if lenient then marked.AllowNull() else marked)
  }

  /** `columns.find((col) => col.options.primary)`. */
  function FirstPrimary(cols: seq<Column>): (r: Option<Column>)
    ensures r.None? <==> forall i :: 0 <= i < |cols| ==> !cols[i].primary
    ensures r.Some? ==> r.value.primary && exists i :: 0 <= i < |cols| && cols[i] == r.value && forall j :: 0 <= j < i ==> !cols[j].primary
  {
    if cols == [] then None
    else if cols[0].primary then Some(cols[0])
    else
      var r := FirstPrimary(cols[1..]);
      assert r.Some? ==> (exists i :: 0 <= i < |cols[1..]| && cols[1..][i] == r.value && forall j :: 0 <= j < i ==> !cols[1..][j].primary);
      r
  }

  /** The rule for an entity's primary key (getEntityPrimarySchema): that of its first
      primary column, or None when it has none or that column is not selectable. */
  function PrimarySchema(reg: Registry, entity: string): (r: Option<Schema>)
    ensures FirstPrimary(EntityColumns(reg, entity)).None? ==> r.None?
    ensures FirstPrimary(EntityColumns(reg, entity)).Some? ==> r == ColumnSchema(FirstPrimary(EntityColumns(reg, entity)).value, false)
  {
    match FirstPrimary(EntityColumns(reg, entity))
    case None => None
    case Some(pk) => ColumnSchema(pk, false)
  }

  /** Which parsers getSchemaFromEntity runs with: the default ones (read schemas), or the
      body filters of getBodySchema with the operation's allow-list, the requested
      columns and strictness. */
  datatype Mode =
    | Read
    | Body(operationColumns: Option<seq<string>>, columns: Option<seq<string>>, strict: bool)

  /** The model's allow-list admits a column: always a primary one, every one without a list. */
  predicate ColumnAllowed(c: Column, allow: Option<seq<string>>) {
    c.primary || allow.None? || c.name in allow.value
  }

  /** The column parser in effect; a body never carries a generated column, one the
      operation's list omits, or one the requested columns omit unless they hold "*". */
  function ParseColumn(mode: Mode, c: Column): (r: Option<Schema>)
    ensures r.Some? ==> c.selectable
    ensures mode.Read? ==> r == ColumnSchema(c, false)
    ensures mode.Body? ==> (r.Some? <==>
      && c.selectable && !c.generated
      && (mode.operationColumns.None? || c.name in mode.operationColumns.value)
      && (mode.columns.None? || "*" in mode.columns.value || c.name in mode.columns.value))
    ensures mode.Body? && r.Some? ==> r == ColumnSchema(c, !mode.strict)
  {
    match mode
    case Read => ColumnSchema(c, false)
    case Body(opColumns, columns, strict) =>
      if c.generated then None
      else if opColumns.Some? && c.name !in opColumns.value then None
      else if columns.Some? && "*" !in columns.value && c.name !in columns.value then None
      else ColumnSchema(c, !strict)
  }

  /** What a column contributes to an object schema under an allow-list. */
  function ColumnEntry(mode: Mode, allow: Option<seq<string>>, c: Column): Option<Schema> {
    if ColumnAllowed(c, allow) then ParseColumn(mode, c) else None
  }

  /** The fields of the first loop of getSchemaFromEntity after the given columns. */
  function ColumnFields(mode: Mode, allow: Option<seq<string>>, cols: seq<Column>): seq<Field> {
    if cols == [] then []
    else
      var prev := ColumnFields(mode, allow, cols[..|cols| - 1]);
      var c := cols[|cols| - 1];
      match ColumnEntry(mode, allow, c)
      case None => prev
      case Some(s) => Put(prev, c.name, s)
  }

  /** The schema under an array or modifiers: what a relation's rule wraps. */
  function InnerShape(s: Schema): Shape {
    if s.shape.ArrayOf? then s.shape.items.shape else s.shape
  }

  /** The rule for one relation (entityRelation2JoiSchema). A relation declaring an
      inverse yields none. Otherwise the rule wraps the target's primary-key rule (onlyPrimary) or an object
      of the target's columns restricted to the inclusion's columns, and never the
      target's relations; many-to-many wraps it in an array. */
  function RelationSchema(reg: Registry, rel: Relation, inc: Inclusion, onlyPrimary: bool, forceOptional: bool): Option<Schema>
  {
    if rel.inverse then None
    else
      var inner :=
        if onlyPrimary then PrimarySchema(reg, rel.target)
        else Some(Base(ObjectOf(ColumnFields(Read, inc.columns, EntityColumns(reg, rel.target)))));
      if inner.None? then None
      else
        var wrapped := if rel.cardinality == ManyToMany then Base(ArrayOf(inner.value)) else inner.value;
        Some(if rel.NullableOption() || forceOptional then wrapped.MakeOptional().AllowNull() else wrapped.MakeRequired())
  }

  /** The relation parser in effect. A body never carries a relation declaring an inverse,
      one the operation's list omits, or one the requested columns do not name ("*" does
      not count), and it refers to the target only by primary key. */
  function ParseRelation(reg: Registry, mode: Mode, rel: Relation, inc: Inclusion): Option<Schema>
  {
    match mode
    case Read => RelationSchema(reg, rel, inc, false, false)
    case Body(opColumns, columns, strict) =>
      if rel.inverse then None
      else if opColumns.Some? && rel.name !in opColumns.value then None
      else if columns.Some? && rel.name !in columns.value then None
      else RelationSchema(reg, rel, Inclusion(None, None), true, !strict)
  }

  /** What entityRelation2JoiSchema yields: nothing for a relation declaring an inverse;
      otherwise a rule whose presence follows an explicit `nullable: true` (or a forced
      optional), so a relation without the option is required. The rule is an array exactly
      for many-to-many, around the target's primary-key rule or the object of its columns. */
  lemma RelationSchemaSpec(reg: Registry, rel: Relation, inc: Inclusion, onlyPrimary: bool, forceOptional: bool)
    ensures var r := RelationSchema(reg, rel, inc, onlyPrimary, forceOptional); r.Some? ==> !rel.inverse
    ensures var r := RelationSchema(reg, rel, inc, onlyPrimary, forceOptional); !rel.inverse && !onlyPrimary ==> r.Some?
    ensures var r := RelationSchema(reg, rel, inc, onlyPrimary, forceOptional);
            onlyPrimary ==> (r.Some? <==> !rel.inverse && PrimarySchema(reg, rel.target).Some?)
    ensures var r := RelationSchema(reg, rel, inc, onlyPrimary, forceOptional);
            r.Some? ==> (r.value.shape.ArrayOf? <==> rel.cardinality == ManyToMany)
    ensures var r := RelationSchema(reg, rel, inc, onlyPrimary, forceOptional); r.Some? ==> r.value.presence != Unset
    ensures var r := RelationSchema(reg, rel, inc, onlyPrimary, forceOptional);
            r.Some? ==> (r.value.presence == Optional <==> rel.nullable == Some(true) || forceOptional)
    ensures var r := RelationSchema(reg, rel, inc, onlyPrimary, forceOptional);
            r.Some? && (rel.nullable == Some(true) || forceOptional) ==> r.value.allowsNull
    ensures var r := RelationSchema(reg, rel, inc, onlyPrimary, forceOptional);
            r.Some? && onlyPrimary ==> InnerShape(r.value) == PrimarySchema(reg, rel.target).value.shape
    ensures var r := RelationSchema(reg, rel, inc, onlyPrimary, forceOptional);
            r.Some? && !onlyPrimary ==> InnerShape(r.value) == ObjectOf(ColumnFields(Read, inc.columns, EntityColumns(reg, rel.target)))
  {
  }

  /** What the relation parser in effect yields, read and body alike. */
  lemma ParseRelationSpec(reg: Registry, mode: Mode, rel: Relation, inc: Inclusion)
    ensures mode.Read? ==> ParseRelation(reg, mode, rel, inc) == RelationSchema(reg, rel, inc, false, false)
    ensures mode.Body? ==> (ParseRelation(reg, mode, rel, inc).Some? <==>
      && !rel.inverse
      && (mode.operationColumns.None? || rel.name in mode.operationColumns.value)
      && (mode.columns.None? || rel.name in mode.columns.value)
      && PrimarySchema(reg, rel.target).Some?)
    ensures var r := ParseRelation(reg, mode, rel, inc);
            mode.Body? && r.Some? ==> r == RelationSchema(reg, rel, Inclusion(None, None), true, !mode.strict)
  {
    RelationSchemaSpec(reg, rel, Inclusion(None, None), true, mode.Body? && !mode.strict);
  }

  /** What a relation contributes to an object schema under an inclusion tree. */
  function RelationEntry(reg: Registry, mode: Mode, tree: seq<Entry>, rel: Relation): Option<Schema> {
    match Lookup(tree, rel.name)
    case None => None
    case Some(inc) => ParseRelation(reg, mode, rel, inc)
  }

  /** The fields after the second loop of getSchemaFromEntity over the given relations. */
  function RelationFields(reg: Registry, mode: Mode, tree: seq<Entry>, rels: seq<Relation>, base: seq<Field>): seq<Field> {
    if rels == [] then base
    else
      var prev := RelationFields(reg, mode, tree, rels[..|rels| - 1], base);
      var rel := rels[|rels| - 1];
      match RelationEntry(reg, mode, tree, rel)
      case None => prev
      case Some(s) => Put(prev, rel.name, s)
  }

  /** `relationship && Object.keys(relationship).length > 0`. */
  predicate IncludesRelations(relations: Option<seq<Entry>>) {
    relations.Some? && |relations.value| > 0
  }

  /** The fields of the object schema getSchemaFromEntity builds. */
  function SchemaFields(reg: Registry, entity: string, columns: Option<seq<string>>, relations: Option<seq<Entry>>, mode: Mode): seq<Field> {
    var fields := ColumnFields(mode, columns, EntityColumns(reg, entity));
    if IncludesRelations(relations)
    then RelationFields(reg, mode, relations.value, EntityRelations(reg, entity), fields)
    else fields
  }

  function SchemaFromEntity(reg: Registry, entity: string, columns: Option<seq<string>>, relations: Option<seq<Entry>>, mode: Mode): Schema {
    Base(ObjectOf(SchemaFields(reg, entity, columns, relations, mode)))
  }

  /** ColumnFields over one more column of a sequence. */
  lemma ColumnFieldsNext(mode: Mode, allow: Option<seq<string>>, cols: seq<Column>, i: nat)
    requires i < |cols|
    ensures ColumnFields(mode, allow, cols[..i + 1]) ==
            match ColumnEntry(mode, allow, cols[i])
            case None => ColumnFields(mode, allow, cols[..i])
            case Some(s) => Put(ColumnFields(mode, allow, cols[..i]), cols[i].name, s)
  {
    assert cols[..i + 1][..i] == cols[..i];
  }

  /** RelationFields over one more relation of a sequence. */
  lemma RelationFieldsNext(reg: Registry, mode: Mode, tree: seq<Entry>, rels: seq<Relation>, base: seq<Field>, i: nat)
    requires i < |rels|
    ensures RelationFields(reg, mode, tree, rels[..i + 1], base) ==
            match RelationEntry(reg, mode, tree, rels[i])
            case None => RelationFields(reg, mode, tree, rels[..i], base)
            case Some(s) => Put(RelationFields(reg, mode, tree, rels[..i], base), rels[i].name, s)
  {
    assert rels[..i + 1][..i] == rels[..i];
  }

  /** getSchemaFromEntity: fills the schema's properties column by column, then relation
      by relation. */
  method GetSchemaFromEntity(reg: Registry, entity: string, columns: Option<seq<string>>, relations: Option<seq<Entry>>, mode: Mode)
    returns (schema: Schema)
    ensures schema == SchemaFromEntity(reg, entity, columns, relations, mode)
  {
    var entityMeta := EntityColumns(reg, entity);
    var relationMeta := EntityRelations(reg, entity);
    var fields: seq<Field> := [];
    for i := 0 to |entityMeta|
      invariant fields == ColumnFields(mode, columns, entityMeta[..i])
    {
      var c := entityMeta[i];
      ColumnFieldsNext(mode, columns, entityMeta, i);
      if !(!c.primary && columns.Some? && c.name !in columns.value) {
        var sch := ParseColumn(mode, c);
        if sch.Some? {
          fields := Put(fields, c.name, sch.value);
        }
      }
    }
    assert entityMeta[..|entityMeta|] == entityMeta;
    if IncludesRelations(relations) {
      fields := PutRelationFields(reg, mode, relations.value, relationMeta, fields);
    }
    schema := Base(ObjectOf(fields));
  }

  /** The relation loop of getSchemaFromEntity: each relation the tree includes and the
      parser gives a rule is assigned that rule, over the fields built so far. */
  method PutRelationFields(reg: Registry, mode: Mode, tree: seq<Entry>, relationMeta: seq<Relation>, base: seq<Field>)
    returns (fields: seq<Field>)
    ensures fields == RelationFields(reg, mode, tree, relationMeta, base)
  {
    fields := base;
    for i := 0 to |relationMeta|
      invariant fields == RelationFields(reg, mode, tree, relationMeta[..i], base)
    {
      var rel := relationMeta[i];
      RelationFieldsNext(reg, mode, tree, relationMeta, base, i);
      var inc := Lookup(tree, rel.name);
      if inc.Some? {
        var sch := ParseRelation(reg, mode, rel, inc.value);
        if sch.Some? {
          fields := Put(fields, rel.name, sch.value);
        }
      }
    }
    assert relationMeta[..|relationMeta|] == relationMeta;
  }

  /** getEntitySchema: the read schema of a model. */
  function EntitySchema(reg: Registry, model: ModelConfig): Schema {
    SchemaFromEntity(reg, model.entity, model.columns, model.relations, Read)
  }

  /** getBodySchema: the schema of a request body for an operation. */
  function BodySchema(reg: Registry, meta: ServiceOptions, columns: Option<seq<string>>, op: Option<Operation>, strict: bool): Schema {
    SchemaFromEntity(reg, meta.model.entity, meta.model.columns, meta.model.relations, BodyMode(meta, columns, op, strict))
  }

  function BodyMode(meta: ServiceOptions, columns: Option<seq<string>>, op: Option<Operation>, strict: bool): Mode {
    Body(OperationColumns(meta, op), columns, strict)
  }

  function BodyFields(reg: Registry, meta: ServiceOptions, columns: Option<seq<string>>, op: Option<Operation>, strict: bool): seq<Field> {
    SchemaFields(reg, meta.model.entity, meta.model.columns, meta.model.relations, BodyMode(meta, columns, op, strict))
  }

  // ---------------------------------------------------------------------------
  // What the synthesized object schemas hold

  /** One column more: its property, if it has one, is set; every other name keeps its
      property. */
  lemma ColumnFieldsStep(mode: Mode, allow: Option<seq<string>>, cols: seq<Column>, x: string)
    requires cols != []
    ensures var c := cols[|cols| - 1];
            FieldOf(ColumnFields(mode, allow, cols), x) ==
              if x == c.name && ColumnEntry(mode, allow, c).Some? then ColumnEntry(mode, allow, c)
              else FieldOf(ColumnFields(mode, allow, cols[..|cols| - 1]), x)
  {
    var prev, c := ColumnFields(mode, allow, cols[..|cols| - 1]), cols[|cols| - 1];
    match ColumnEntry(mode, allow, c)
    case None => assert ColumnFields(mode, allow, cols) == prev;
    case Some(sc) => assert ColumnFields(mode, allow, cols) == Put(prev, c.name, sc);
  }

  /** The column fields never name a property twice. */
  lemma {:induction false} ColumnFieldsDistinct(mode: Mode, allow: Option<seq<string>>, cols: seq<Column>)
    ensures DistinctNames(ColumnFields(mode, allow, cols))
  {
    if cols != [] {
      var init, c := cols[..|cols| - 1], cols[|cols| - 1];
      var prev := ColumnFields(mode, allow, init);
      ColumnFieldsDistinct(mode, allow, init);
      match ColumnEntry(mode, allow, c)
      case None => assert ColumnFields(mode, allow, cols) == prev;
      case Some(sc) =>
        assert ColumnFields(mode, allow, cols) == Put(prev, c.name, sc);
        PutKeepsNamesDistinct(prev, c.name, sc);
    }
  }

  /** A name that is no column's has no property among the column fields. */
  lemma {:induction false} ColumnFieldAbsent(mode: Mode, allow: Option<seq<string>>, cols: seq<Column>, x: string)
    requires x !in ColumnNames(cols)
    ensures FieldOf(ColumnFields(mode, allow, cols), x).None?
  {
    if cols != [] {
      var init := cols[..|cols| - 1];
      assert x != cols[|cols| - 1].name by { assert ColumnNames(cols)[|cols| - 1] == cols[|cols| - 1].name; }
      assert x !in ColumnNames(init) by {
        forall j | 0 <= j < |init| ensures ColumnNames(init)[j] != x { assert ColumnNames(cols)[j] == init[j].name; }
      }
      ColumnFieldsStep(mode, allow, cols, x);
      ColumnFieldAbsent(mode, allow, init, x);
    }
  }

  /** Each of distinct columns has the property its parser gives it, if any. */
  lemma {:induction false} ColumnFieldOf(mode: Mode, allow: Option<seq<string>>, cols: seq<Column>, i: nat)
    requires DistinctColumnNames(cols) && i < |cols|
    ensures FieldOf(ColumnFields(mode, allow, cols), cols[i].name) == ColumnEntry(mode, allow, cols[i])
  {
    var n := |cols| - 1;
    var init := cols[..n];
    ColumnFieldsStep(mode, allow, cols, cols[i].name);
    if i < n {
      assert DistinctColumnNames(init) by {
        forall j, k | 0 <= j < k < n ensures init[j].name != init[k].name { assert init[j] == cols[j] && init[k] == cols[k]; }
      }
      assert init[i] == cols[i];
      ColumnFieldOf(mode, allow, init, i);
    } else {
      assert cols[n].name !in ColumnNames(init) by {
        forall j | 0 <= j < n ensures ColumnNames(init)[j] != cols[n].name { assert init[j] == cols[j]; }
      }
      ColumnFieldAbsent(mode, allow, init, cols[n].name);
    }
  }

  /** One relation more: its property, if its parser gives one, is set; every other name
      keeps its property. */
  lemma RelationFieldsStep(reg: Registry, mode: Mode, tree: seq<Entry>, rels: seq<Relation>, base: seq<Field>, x: string)
    requires rels != []
    ensures var rel := rels[|rels| - 1];
            FieldOf(RelationFields(reg, mode, tree, rels, base), x) ==
              if x == rel.name && RelationEntry(reg, mode, tree, rel).Some? then RelationEntry(reg, mode, tree, rel)
              else FieldOf(RelationFields(reg, mode, tree, rels[..|rels| - 1], base), x)
  {
    var prev, rel := RelationFields(reg, mode, tree, rels[..|rels| - 1], base), rels[|rels| - 1];
    match RelationEntry(reg, mode, tree, rel)
    case None => assert RelationFields(reg, mode, tree, rels, base) == prev;
    case Some(sc) => assert RelationFields(reg, mode, tree, rels, base) == Put(prev, rel.name, sc);
  }

  /** The relation loop never names a property twice when its starting fields do not. */
  lemma {:induction false} RelationFieldsDistinct(reg: Registry, mode: Mode, tree: seq<Entry>, rels: seq<Relation>, base: seq<Field>)
    requires DistinctNames(base)
    ensures DistinctNames(RelationFields(reg, mode, tree, rels, base))
  {
    if rels != [] {
      var init, rel := rels[..|rels| - 1], rels[|rels| - 1];
      var prev := RelationFields(reg, mode, tree, init, base);
      RelationFieldsDistinct(reg, mode, tree, init, base);
      match RelationEntry(reg, mode, tree, rel)
      case None => assert RelationFields(reg, mode, tree, rels, base) == prev;
      case Some(sc) =>
        assert RelationFields(reg, mode, tree, rels, base) == Put(prev, rel.name, sc);
        PutKeepsNamesDistinct(prev, rel.name, sc);
    }
  }

  /** The relation loop leaves the property of a name that is no relation's as it found it. */
  lemma {:induction false} RelationFieldAbsent(reg: Registry, mode: Mode, tree: seq<Entry>, rels: seq<Relation>, base: seq<Field>, x: string)
    requires x !in RelationNames(rels)
    ensures FieldOf(RelationFields(reg, mode, tree, rels, base), x) == FieldOf(base, x)
  {
    if rels != [] {
      var init := rels[..|rels| - 1];
      assert x != rels[|rels| - 1].name by { assert RelationNames(rels)[|rels| - 1] == rels[|rels| - 1].name; }
      assert x !in RelationNames(init) by {
        forall j | 0 <= j < |init| ensures RelationNames(init)[j] != x { assert RelationNames(rels)[j] == init[j].name; }
      }
      RelationFieldsStep(reg, mode, tree, rels, base, x);
      RelationFieldAbsent(reg, mode, tree, init, base, x);
    }
  }

  /** Each of distinct relations has the property its parser gives it, or keeps the one
      it had. */
  lemma {:induction false} RelationFieldOf(reg: Registry, mode: Mode, tree: seq<Entry>, rels: seq<Relation>, base: seq<Field>, i: nat)
    requires DistinctRelationNames(rels) && i < |rels|
    ensures FieldOf(RelationFields(reg, mode, tree, rels, base), rels[i].name) ==
            if RelationEntry(reg, mode, tree, rels[i]).Some? then RelationEntry(reg, mode, tree, rels[i]) else FieldOf(base, rels[i].name)
  {
    var n := |rels| - 1;
    var init := rels[..n];
    RelationFieldsStep(reg, mode, tree, rels, base, rels[i].name);
    if i < n {
      assert DistinctRelationNames(init) by {
        forall j, k | 0 <= j < k < n ensures init[j].name != init[k].name { assert init[j] == rels[j] && init[k] == rels[k]; }
      }
      assert init[i] == rels[i];
      RelationFieldOf(reg, mode, tree, init, base, i);
    } else {
      assert rels[n].name !in RelationNames(init) by {
        forall j | 0 <= j < n ensures RelationNames(init)[j] != rels[n].name { assert init[j] == rels[j]; }
      }
      RelationFieldAbsent(reg, mode, tree, init, base, rels[n].name);
    }
  }

  /** The object schema of an entity never names a property twice. */
  lemma SchemaFieldsDistinct(reg: Registry, entity: string, columns: Option<seq<string>>, relations: Option<seq<Entry>>, mode: Mode)
    ensures DistinctNames(SchemaFields(reg, entity, columns, relations, mode))
  {
    var cols := EntityColumns(reg, entity);
    ColumnFieldsDistinct(mode, columns, cols);
    if IncludesRelations(relations) {
      RelationFieldsDistinct(reg, mode, relations.value, EntityRelations(reg, entity), ColumnFields(mode, columns, cols));
    }
  }

  /** A column has the property the allow-list and its parser give it, if any. */
  lemma SchemaFieldColumn(reg: Registry, entity: string, columns: Option<seq<string>>, relations: Option<seq<Entry>>, mode: Mode, c: Column)
    requires WellFormedRegistry(reg) && c in EntityColumns(reg, entity)
    ensures FieldOf(SchemaFields(reg, entity, columns, relations, mode), c.name) == ColumnEntry(mode, columns, c)
  {
    var cols, rels := EntityColumns(reg, entity), EntityRelations(reg, entity);
    assert WellFormed(reg[entity]);
    var j :| 0 <= j < |cols| && cols[j] == c;
    ColumnFieldOf(mode, columns, cols, j);
    if IncludesRelations(relations) {
      assert c.name !in RelationNames(rels) by {
        forall i | 0 <= i < |rels| ensures RelationNames(rels)[i] != c.name { }
      }
      RelationFieldAbsent(reg, mode, relations.value, rels, ColumnFields(mode, columns, cols), c.name);
    }
  }

  /** A relation has a property only when the model includes relations, and then the one
      its inclusion and parser give it. */
  lemma SchemaFieldRelation(reg: Registry, entity: string, columns: Option<seq<string>>, relations: Option<seq<Entry>>, mode: Mode, r: Relation)
    requires WellFormedRegistry(reg) && r in EntityRelations(reg, entity)
    ensures FieldOf(SchemaFields(reg, entity, columns, relations, mode), r.name) ==
            (if IncludesRelations(relations) then RelationEntry(reg, mode, relations.value, r) else None)
  {
    var cols, rels := EntityColumns(reg, entity), EntityRelations(reg, entity);
    assert WellFormed(reg[entity]);
    var j :| 0 <= j < |rels| && rels[j] == r;
    assert r.name !in ColumnNames(cols) by {
      forall i | 0 <= i < |cols| ensures ColumnNames(cols)[i] != r.name { }
    }
    ColumnFieldAbsent(mode, columns, cols, r.name);
    if IncludesRelations(relations) {
      RelationFieldOf(reg, mode, relations.value, rels, ColumnFields(mode, columns, cols), j);
    }
  }

  /** A name that is neither a column's nor a relation's has no property. */
  lemma SchemaFieldOther(reg: Registry, entity: string, columns: Option<seq<string>>, relations: Option<seq<Entry>>, mode: Mode, x: string)
    requires x !in ColumnNames(EntityColumns(reg, entity)) && x !in RelationNames(EntityRelations(reg, entity))
    ensures FieldOf(SchemaFields(reg, entity, columns, relations, mode), x).None?
  {
    var cols := EntityColumns(reg, entity);
    ColumnFieldAbsent(mode, columns, cols, x);
    if IncludesRelations(relations) {
      RelationFieldAbsent(reg, mode, relations.value, EntityRelations(reg, entity), ColumnFields(mode, columns, cols), x);
    }
  }

  // ---------------------------------------------------------------------------
  // Read schemas

  /** A `select: false` column never has a property, in any schema. */
  lemma UnselectableColumnOmitted(reg: Registry, entity: string, columns: Option<seq<string>>, relations: Option<seq<Entry>>, mode: Mode, c: Column)
    requires WellFormedRegistry(reg) && c in EntityColumns(reg, entity) && !c.selectable
    ensures FieldOf(SchemaFields(reg, entity, columns, relations, mode), c.name).None?
  {
    SchemaFieldColumn(reg, entity, columns, relations, mode, c);
  }

  /** In a read schema a non-primary column is left out exactly when an allow-list exists
      and omits it; every other column gets the rule of entityColumn2JoiSchema. */
  lemma ReadSchemaColumn(reg: Registry, entity: string, columns: Option<seq<string>>, relations: Option<seq<Entry>>, c: Column)
    requires WellFormedRegistry(reg) && c in EntityColumns(reg, entity)
    ensures FieldOf(SchemaFields(reg, entity, columns, relations, Read), c.name) ==
            if !c.primary && columns.Some? && c.name !in columns.value then None else ColumnSchema(c, false)
  {
    SchemaFieldColumn(reg, entity, columns, relations, Read, c);
  }

  /** Read schemas keep generated columns: the default parser ignores the flag. */
  lemma ReadSchemaKeepsGenerated(reg: Registry, entity: string, columns: Option<seq<string>>, relations: Option<seq<Entry>>, c: Column)
    requires WellFormedRegistry(reg) && c in EntityColumns(reg, entity)
    requires c.generated && c.selectable && ColumnAllowed(c, columns)
    ensures FieldOf(SchemaFields(reg, entity, columns, relations, Read), c.name).Some?
  {
    ReadSchemaColumn(reg, entity, columns, relations, c);
  }

  /** In a read schema a relation has a property only when the model includes relations,
      names this one, and it declares no inverse; the property nests the target's
      columns. */
  lemma ReadSchemaRelation(reg: Registry, entity: string, columns: Option<seq<string>>, relations: Option<seq<Entry>>, r: Relation)
    requires WellFormedRegistry(reg) && r in EntityRelations(reg, entity)
    ensures FieldOf(SchemaFields(reg, entity, columns, relations, Read), r.name) ==
            if IncludesRelations(relations) && Lookup(relations.value, r.name).Some?
            then RelationSchema(reg, r, Lookup(relations.value, r.name).value, false, false)
            else None
    ensures FieldOf(SchemaFields(reg, entity, columns, relations, Read), r.name).Some? <==>
            IncludesRelations(relations) && r.name in Keys(relations.value) && !r.inverse
  {
    SchemaFieldRelation(reg, entity, columns, relations, Read, r);
    if IncludesRelations(relations) {
      var tree := relations.value;
      LookupKeys(tree, r.name);
      if r.name in Keys(tree) {
        var inc := Lookup(tree, r.name).value;
        assert RelationEntry(reg, Read, tree, r) == ParseRelation(reg, Read, r, inc);
      } else {
        assert RelationEntry(reg, Read, tree, r) == None;
      }
    }
  }

  /** The object a relation nests holds columns of the target only: nested schemas are
      built without relations, so synthesis stops one level down even on a cyclic entity
      graph. */
  lemma NestedSchemaHasNoRelations(reg: Registry, rel: Relation, inc: Inclusion, forceOptional: bool)
    requires !rel.inverse
    ensures RelationSchema(reg, rel, inc, false, forceOptional).Some?
    ensures InnerShape(RelationSchema(reg, rel, inc, false, forceOptional).value) ==
            ObjectOf(SchemaFields(reg, rel.target, inc.columns, None, Read))
    ensures forall n :: n in Names(SchemaFields(reg, rel.target, inc.columns, None, Read)) ==> n in ColumnNames(EntityColumns(reg, rel.target))
  {
    var cols := EntityColumns(reg, rel.target);
    var fs := ColumnFields(Read, inc.columns, cols);
    assert SchemaFields(reg, rel.target, inc.columns, None, Read) == fs;
    forall n | n in Names(fs) ensures n in ColumnNames(cols) {
      FieldOfNames(fs, n);
      if n !in ColumnNames(cols) { ColumnFieldAbsent(Read, inc.columns, cols, n); }
    }
  }

  // ---------------------------------------------------------------------------
  // Body schemas

  /** A column is in a body exactly when it is selectable, not generated, allowed by the
      model's list, named by the operation's list if there is one, and named by the
      requested columns unless those hold "*"; strictness decides only its presence. */
  lemma BodySchemaColumn(reg: Registry, meta: ServiceOptions, columns: Option<seq<string>>, op: Option<Operation>, strict: bool, c: Column)
    requires WellFormedRegistry(reg) && c in EntityColumns(reg, meta.model.entity)
    ensures FieldOf(BodyFields(reg, meta, columns, op, strict), c.name).Some? <==>
      && c.selectable && !c.generated
      && ColumnAllowed(c, meta.model.columns)
      && (OperationColumns(meta, op).None? || c.name in OperationColumns(meta, op).value)
      && (columns.None? || "*" in columns.value || c.name in columns.value)
    ensures FieldOf(BodyFields(reg, meta, columns, op, strict), c.name).Some? ==>
      FieldOf(BodyFields(reg, meta, columns, op, strict), c.name) == ColumnSchema(c, !strict)
  {
    SchemaFieldColumn(reg, meta.model.entity, meta.model.columns, meta.model.relations, BodyMode(meta, columns, op, strict), c);
  }

  /** A relation is in a body exactly when it declares no inverse, the model includes
      it, the operation's list (if any) and the requested columns (if any) name it, and
      its target has a primary-key rule; the property is that rule. */
  lemma BodySchemaRelation(reg: Registry, meta: ServiceOptions, columns: Option<seq<string>>, op: Option<Operation>, strict: bool, r: Relation)
    requires WellFormedRegistry(reg) && r in EntityRelations(reg, meta.model.entity)
    ensures FieldOf(BodyFields(reg, meta, columns, op, strict), r.name).Some? <==>
      && !r.inverse
      && IncludesRelations(meta.model.relations) && r.name in Keys(meta.model.relations.value)
      && (OperationColumns(meta, op).None? || r.name in OperationColumns(meta, op).value)
      && (columns.None? || r.name in columns.value)
      && PrimarySchema(reg, r.target).Some?
    ensures FieldOf(BodyFields(reg, meta, columns, op, strict), r.name).Some? ==>
      FieldOf(BodyFields(reg, meta, columns, op, strict), r.name) == RelationSchema(reg, r, Inclusion(None, None), true, !strict)
  {
    SchemaFieldRelation(reg, meta.model.entity, meta.model.columns, meta.model.relations, BodyMode(meta, columns, op, strict), r);
    if meta.model.relations.Some? { LookupKeys(meta.model.relations.value, r.name); }
  }

  /** A body never holds a generated column or a relation declaring an inverse. */
  lemma BodyExcludesGeneratedAndInverse(reg: Registry, meta: ServiceOptions, columns: Option<seq<string>>, op: Option<Operation>, strict: bool)
    requires WellFormedRegistry(reg)
    ensures forall c :: c in EntityColumns(reg, meta.model.entity) && c.generated ==>
              FieldOf(BodyFields(reg, meta, columns, op, strict), c.name).None?
    ensures forall r :: r in EntityRelations(reg, meta.model.entity) && r.inverse ==>
              FieldOf(BodyFields(reg, meta, columns, op, strict), r.name).None?
  {
    forall c | c in EntityColumns(reg, meta.model.entity) && c.generated
      ensures FieldOf(BodyFields(reg, meta, columns, op, strict), c.name).None?
    {
      BodySchemaColumn(reg, meta, columns, op, strict, c);
    }
    forall r | r in EntityRelations(reg, meta.model.entity) && r.inverse
      ensures FieldOf(BodyFields(reg, meta, columns, op, strict), r.name).None?
    {
      BodySchemaRelation(reg, meta, columns, op, strict, r);
    }
  }

  /** An operation's allow-list excludes every property it does not name. */
  lemma OperationListExcludes(reg: Registry, meta: ServiceOptions, columns: Option<seq<string>>, op: Option<Operation>, strict: bool, name: string)
    requires WellFormedRegistry(reg)
    requires OperationColumns(meta, op).Some? && name !in OperationColumns(meta, op).value
    ensures FieldOf(BodyFields(reg, meta, columns, op, strict), name).None?
  {
    var e := meta.model.entity;
    if name in ColumnNames(EntityColumns(reg, e)) {
      var j :| 0 <= j < |EntityColumns(reg, e)| && ColumnNames(EntityColumns(reg, e))[j] == name;
      BodySchemaColumn(reg, meta, columns, op, strict, EntityColumns(reg, e)[j]);
    } else if name in RelationNames(EntityRelations(reg, e)) {
      var j :| 0 <= j < |EntityRelations(reg, e)| && RelationNames(EntityRelations(reg, e))[j] == name;
      BodySchemaRelation(reg, meta, columns, op, strict, EntityRelations(reg, e)[j]);
    } else {
      SchemaFieldOther(reg, e, meta.model.columns, meta.model.relations, BodyMode(meta, columns, op, strict), name);
    }
  }

  /** "*" among the requested columns admits every column the other filters let through,
      but no relation: a relation must be named itself. */
  lemma StarAdmitsColumnsNotRelations(reg: Registry, meta: ServiceOptions, columns: seq<string>, op: Option<Operation>, strict: bool)
    requires WellFormedRegistry(reg) && "*" in columns
    ensures forall c :: c in EntityColumns(reg, meta.model.entity) && c.selectable && !c.generated
                        && ColumnAllowed(c, meta.model.columns)
                        && (OperationColumns(meta, op).None? || c.name in OperationColumns(meta, op).value) ==>
              FieldOf(BodyFields(reg, meta, Some(columns), op, strict), c.name).Some?
    ensures forall r :: r in EntityRelations(reg, meta.model.entity) && r.name !in columns ==>
              FieldOf(BodyFields(reg, meta, Some(columns), op, strict), r.name).None?
  {
    forall c | c in EntityColumns(reg, meta.model.entity) && c.selectable && !c.generated
               && ColumnAllowed(c, meta.model.columns)
               && (OperationColumns(meta, op).None? || c.name in OperationColumns(meta, op).value)
      ensures FieldOf(BodyFields(reg, meta, Some(columns), op, strict), c.name).Some?
    {
      BodySchemaColumn(reg, meta, Some(columns), op, strict, c);
    }
    forall r | r in EntityRelations(reg, meta.model.entity) && r.name !in columns
      ensures FieldOf(BodyFields(reg, meta, Some(columns), op, strict), r.name).None?
    {
      BodySchemaRelation(reg, meta, Some(columns), op, strict, r);
    }
  }

  /** With strict off, every property of a body is optional and accepts null. */
  lemma NonStrictBodyIsOptional(reg: Registry, meta: ServiceOptions, columns: Option<seq<string>>, op: Option<Operation>)
    requires WellFormedRegistry(reg)
    ensures forall f :: f in BodyFields(reg, meta, columns, op, false) ==> f.rule.presence == Optional && f.rule.allowsNull
  {
    var e := meta.model.entity;
    var fs := BodyFields(reg, meta, columns, op, false);
    SchemaFieldsDistinct(reg, e, meta.model.columns, meta.model.relations, BodyMode(meta, columns, op, false));
    forall f | f in fs ensures f.rule.presence == Optional && f.rule.allowsNull {
      FieldOfDistinct(fs, f);
      if f.name in ColumnNames(EntityColumns(reg, e)) {
        var j :| 0 <= j < |EntityColumns(reg, e)| && ColumnNames(EntityColumns(reg, e))[j] == f.name;
        BodySchemaColumn(reg, meta, columns, op, false, EntityColumns(reg, e)[j]);
      } else if f.name in RelationNames(EntityRelations(reg, e)) {
        var j :| 0 <= j < |EntityRelations(reg, e)| && RelationNames(EntityRelations(reg, e))[j] == f.name;
        BodySchemaRelation(reg, meta, columns, op, false, EntityRelations(reg, e)[j]);
      } else {
        SchemaFieldOther(reg, e, meta.model.columns, meta.model.relations, BodyMode(meta, columns, op, false), f.name);
        assert false;
      }
    }
  }
}
