/** The decisions prepareRoute takes before it decorates a route handler: which service
    metadata it works from, the route id and path, the schema of the ok response, the
    default column list, the request-body schema, and which handler a call reaches; and
    mergeSwagger, the right-biased merge of Swagger options. */
module TypeOrmUtils {
  import opened Values
  import opened Joi
  import opened Interfaces
  import opened SwaggerHelper
  import TypeOrmService

  // ---------------------------------------------------------------------------
  // The route path

  /** The placeholder a route path holds for the service property the route reaches. */
  const IdParam: string := ":__id__"

  /** `pat` occurs in `s` at position `i`. */
  predicate OccursAt(s: string, pat: string, i: nat) {
    i + |pat| <= |s| && s[i..i + |pat|] == pat
  }

  /** The first position from `k` on at which `pat` occurs in `s`. */
  function IndexFrom(s: string, pat: string, k: nat): (r: Option<nat>)
    decreases |s| - k
    ensures r.Some? ==> k <= r.value && OccursAt(s, pat, r.value)
  {
    if k + |pat| > |s| then None
    else if s[k..k + |pat|] == pat then Some(k)
    else IndexFrom(s, pat, k + 1)
  }

  /** No position from `k` up to the one IndexFrom finds (or anywhere, when it finds
      none) holds an occurrence. */
  lemma {:induction false} IndexFromFirst(s: string, pat: string, k: nat, j: nat)
    decreases |s| - k
    requires k <= j
    requires IndexFrom(s, pat, k).None? || j < IndexFrom(s, pat, k).value
    ensures !OccursAt(s, pat, j)
  {
    if k + |pat| <= |s| && s[k..k + |pat|] != pat && k < j {
      IndexFromFirst(s, pat, k + 1, j);
    }
  }

  /** `s.replace(pat, rep)` with a string pattern: the first occurrence only, if any. */
  function ReplaceFirst(s: string, pat: string, rep: string): string {
    match IndexFrom(s, pat, 0)
    case None => s
    case Some(i) => s[..i] + rep + s[i + |pat|..]
  }

  /** A string without an occurrence of the pattern is left as it is. */
  lemma ReplaceFirstNoMatch(s: string, pat: string, rep: string)
    requires forall j :: 0 <= j <= |s| ==> !OccursAt(s, pat, j)
    ensures ReplaceFirst(s, pat, rep) == s
  {
  }

  /** Otherwise the first occurrence, and only that one, makes way for the replacement. */
  lemma ReplaceFirstAt(s: string, pat: string, rep: string, i: nat)
    requires OccursAt(s, pat, i)
    requires forall j :: 0 <= j < i ==> !OccursAt(s, pat, j)
    ensures ReplaceFirst(s, pat, rep) == s[..i] + rep + s[i + |pat|..]
  {
    var r := IndexFrom(s, pat, 0);
    if r.None? || i < r.value {
      IndexFromFirst(s, pat, 0, i);
    }
  }

  /** The default path of the single-row routes: the id, then the row's id parameter. */
  lemma RowRoutePath(id: string)
    ensures ReplaceFirst(IdParam + "/:id", IdParam, id) == id + "/:id"
  {
    var s := IdParam + "/:id";
    assert OccursAt(s, IdParam, 0) by { assert s[0..|IdParam|] == IdParam; }
    ReplaceFirstAt(s, IdParam, id, 0);
    assert s[|IdParam|..] == "/:id";
  }

  // ---------------------------------------------------------------------------
  // Route options

  /** The `body` option: getBodySchema (also when the option is left out), another
      function (named here), or null. */
  datatype BodyFactory = DefaultFactory | CustomFactory(name: string) | NullFactory

  /** The options a route decorator passes to prepareRoute, defaults applied. */
  datatype CrudOptions = CrudOptions(
    handler: Option<string>,
    plural: bool,
    isVoid: bool,
    body: BodyFactory,
    bodySchema: Option<Schema>,
    operation: Option<Operation>,
    withBody: bool,
    strict: bool)

  /** A request-body schema: a schema value, what another body factory returns for the
      given arguments, or what an operation's schema function returns for a schema. */
  datatype BodyValue =
    | Fixed(schema: Schema)
    | Produced(factory: string, columns: Option<seq<string>>, operation: Option<Operation>, strict: bool)
    | Applied(function_name: string, input: BodyValue)

  /** What prepareRoute settles for a route: the service property it reaches, the path it
      is registered under, the ok-response schema, the column list, and the body schema. */
  datatype Route = Route(
    id: string,
    path: string,
    okResponse: Option<Schema>,
    columns: Option<seq<string>>,
    body: Option<BodyValue>)

  const FactoryNotAFunction: Error := TypeError("bodyFactory is not a function")

  // ---------------------------------------------------------------------------
  // The decisions

  /** `meta.model.id ?? service.name`. */
  function RouteId(meta: ServiceOptions, service: string): string {
    if meta.model.id.Some? then meta.model.id.value else service
  }

  /** okRespSchema: none for a void route or when neither the model nor the operation
      gives one; the body schema of the operation's columns when it has any; else the
      model's schema. A plural route wraps it in an array. */
  function OkResponse(reg: Registry, meta: ServiceOptions, opts: CrudOptions): Option<Schema> {
    var opColumns := OperationColumns(meta, opts.operation);
    var chosen :=
      if opts.isVoid || (meta.model.schema.None? && opColumns.None?) then None
      else if opColumns.Some? then Some(BodySchema(reg, meta, opColumns, None, true))
      else meta.model.schema;
    if chosen.Some? && opts.plural then Some(Base(ArrayOf(chosen.value))) else chosen
  }

  /** The columns a route works with: the operation's own list, else the model's columns
      (or "*") followed by the keys of its relation tree when it has either, else none. */
  function RouteColumns(meta: ServiceOptions, op: Option<Operation>): Option<seq<string>> {
    match OperationColumns(meta, op)
    case Some(cols) => Some(cols)
    case None =>
      if meta.model.columns.Some? || meta.model.relations.Some? then
        Some((if meta.model.columns.Some? then meta.model.columns.value else ["*"]) +
             (if meta.model.relations.Some? then Keys(meta.model.relations.value) else []))
      else None
  }

  /** A call of the `body` option. */
  function CallFactory(reg: Registry, meta: ServiceOptions, factory: BodyFactory, columns: Option<seq<string>>, op: Option<Operation>, strict: bool): Result<BodyValue> {
    match factory
    case DefaultFactory => Ok(Fixed(BodySchema(reg, meta, columns, op, strict)))
    case CustomFactory(name) => Ok(Produced(name, columns, op, strict))
    case NullFactory => Err(FactoryNotAFunction)
  }

  /** The body schema: none without `withBody`; with an operation schema function, that
      function applied to `bodySchema`, or to what the factory gives at default
      strictness; with an operation schema object, that object; otherwise, when
      `bodySchema ?? bodyFactory` is truthy, what the factory gives. */
  function RouteBody(reg: Registry, meta: ServiceOptions, opts: CrudOptions, columns: Option<seq<string>>): Result<Option<BodyValue>> {
    if !opts.withBody then Ok(None)
    else
      match OperationSchemaOf(meta, opts.operation)
      case Some(SchemaFunction(f)) =>
        var input :=
          if opts.bodySchema.Some? then Ok(Fixed(opts.bodySchema.value))
          else CallFactory(reg, meta, opts.body, columns, opts.operation, true);
        (match input
         case Err(e) => Err(e)
         case Ok(v) => Ok(Some(Applied(f, v))))
      case Some(SchemaObject(s)) => Ok(Some(Fixed(s)))
      case None =>
        if opts.bodySchema.Some? || !opts.body.NullFactory? then
          match CallFactory(reg, meta, opts.body, columns, opts.operation, opts.strict)
          case Err(e) => Err(e)
          case Ok(v) => Ok(Some(v))
        else Ok(None)
  }

  /** prepareRoute, up to the decorator it returns: the service must carry metadata;
      then the id, path, response, columns and body are settled in that order. */
  function PrepareRoute(reg: Registry, metadata: Option<ServiceOptions>, service: string, opts: CrudOptions, path: string): Result<Route> {
    match metadata
    case None => Err(MissingServiceMetadata(service))
    case Some(meta) =>
      var id := RouteId(meta, service);
      var columns := RouteColumns(meta, opts.operation);
      match RouteBody(reg, meta, opts, columns)
      case Err(e) => Err(e)
      case Ok(body) => Ok(Route(id, ReplaceFirst(path, IdParam, id), OkResponse(reg, meta, opts), columns, body))
  }

  /** The handler a call of the decorated method reaches. */
  datatype Handler = CustomHandler(name: string) | OperationHandler(name: string) | DefaultHandler

  const NoOperationEntry: Error := TypeError("cannot read handler of an undefined operation entry")

  /** The decorated method: NotImplemented unless the controller has the service property;
      then the `handler` option when truthy, else the operation's handler when truthy, else
      the route's own handler. `operations?.[operation].handler` throws when operations
      exist without an entry for the operation. */
  function Dispatch(meta: ServiceOptions, opts: CrudOptions, id: string, own: set<string>): Result<Handler> {
    if id !in own then Err(NotImplemented)
    else if Truthy(opts.handler) then Ok(CustomHandler(opts.handler.value))
    else if opts.operation.None? || meta.operations.None? then Ok(DefaultHandler)
    else if opts.operation.value !in meta.operations.value then Err(NoOperationEntry)
    else
      var h := meta.operations.value[opts.operation.value].handler;
      if Truthy(h) then Ok(OperationHandler(h.value)) else Ok(DefaultHandler)
  }

  // ---------------------------------------------------------------------------
  // mergeSwagger

  /** `{ ...merge, ...(swagger ?? {}) }`. */
  function MergeSwagger<V>(merge: map<string, V>, swagger: Option<map<string, V>>): (r: map<string, V>)
    ensures swagger.None? ==> r == merge
    ensures swagger.Some? ==> r.Keys == merge.Keys + swagger.value.Keys
    ensures swagger.Some? ==> forall k :: k in swagger.value ==> r[k] == swagger.value[k]
    ensures forall k :: k in merge && (swagger.None? || k !in swagger.value) ==> k in r && r[k] == merge[k]
  {
    merge + (if swagger.Some? then swagger.value else map[])
  }

  /** Merging the same options twice changes nothing more. */
  lemma MergeSwaggerIdempotent<V>(merge: map<string, V>, swagger: Option<map<string, V>>)
    ensures MergeSwagger(MergeSwagger(merge, swagger), swagger) == MergeSwagger(merge, swagger)
  {
  }

  /** With nothing to merge into, the result is the given options. */
  lemma MergeSwaggerIntoEmpty<V>(swagger: map<string, V>)
    ensures MergeSwagger(map[], Some(swagger)) == swagger
  {
  }

  // ---------------------------------------------------------------------------
  // What the decisions promise

  /** A service class without metadata is refused before anything else. */
  lemma MissingMetadataFails(reg: Registry, service: string, opts: CrudOptions, path: string)
    ensures PrepareRoute(reg, None, service, opts, path) == Err(MissingServiceMetadata(service))
  {
  }

  /** With metadata, preparing fails only where the body does, and a prepared route takes
      its id from the model or else the class, its path from the first placeholder, and the
      other decisions as made above. */
  lemma PreparedRoute(reg: Registry, meta: ServiceOptions, service: string, opts: CrudOptions, path: string)
    ensures var r := PrepareRoute(reg, Some(meta), service, opts, path);
            r.Err? <==> RouteBody(reg, meta, opts, RouteColumns(meta, opts.operation)).Err?
    ensures var r := PrepareRoute(reg, Some(meta), service, opts, path);
            r.Ok? ==> r.value.id == (if meta.model.id.Some? then meta.model.id.value else service)
    ensures var r := PrepareRoute(reg, Some(meta), service, opts, path);
            r.Ok? ==> r.value.path == ReplaceFirst(path, IdParam, r.value.id)
    ensures var r := PrepareRoute(reg, Some(meta), service, opts, path);
            r.Ok? ==> r.value.okResponse == OkResponse(reg, meta, opts)
                      && r.value.columns == RouteColumns(meta, opts.operation)
                      && Ok(r.value.body) == RouteBody(reg, meta, opts, RouteColumns(meta, opts.operation))
  {
  }

  /** The ok response is absent on a void route and when neither the model nor the
      operation supplies a schema; present otherwise, an array exactly on a plural route. */
  lemma OkResponseShape(reg: Registry, meta: ServiceOptions, opts: CrudOptions)
    ensures OkResponse(reg, meta, opts).None? <==>
            opts.isVoid || (meta.model.schema.None? && OperationColumns(meta, opts.operation).None?)
    ensures var r := OkResponse(reg, meta, opts);
            r.Some? && opts.plural ==> r.value.shape.ArrayOf?
  {
  }

  /** The schema inside the ok response (under the array of a plural route): the body
      schema of the operation's columns when it has any, the model's schema otherwise. */
  lemma OkResponseSource(reg: Registry, meta: ServiceOptions, opts: CrudOptions)
    requires OkResponse(reg, meta, opts).Some?
    ensures var r := OkResponse(reg, meta, opts).value;
            var inner := if opts.plural then r.shape.items else r;
            inner == if OperationColumns(meta, opts.operation).Some?
                     then BodySchema(reg, meta, OperationColumns(meta, opts.operation), None, true)
                     else meta.model.schema.value
  {
  }

  /** An ok response built from the operation's columns holds no property they do not
      name, unless they hold "*" (which admits any column but no relation). */
  lemma OkResponseOnlyListed(reg: Registry, meta: ServiceOptions, opts: CrudOptions, name: string)
    requires WellFormedRegistry(reg)
    requires OperationColumns(meta, opts.operation).Some?
    requires name !in OperationColumns(meta, opts.operation).value && "*" !in OperationColumns(meta, opts.operation).value
    ensures FieldOf(BodyFields(reg, meta, OperationColumns(meta, opts.operation), None, true), name).None?
  {
    var cols := OperationColumns(meta, opts.operation);
    var e := meta.model.entity;
    if name in ColumnNames(EntityColumns(reg, e)) {
      var j :| 0 <= j < |EntityColumns(reg, e)| && ColumnNames(EntityColumns(reg, e))[j] == name;
      BodySchemaColumn(reg, meta, cols, None, true, EntityColumns(reg, e)[j]);
    } else if name in RelationNames(EntityRelations(reg, e)) {
      var j :| 0 <= j < |EntityRelations(reg, e)| && RelationNames(EntityRelations(reg, e))[j] == name;
      BodySchemaRelation(reg, meta, cols, None, true, EntityRelations(reg, e)[j]);
    } else {
      SchemaFieldOther(reg, e, meta.model.columns, meta.model.relations, BodyMode(meta, cols, None, true), name);
    }
  }

  /** The operation's own columns win; without them, a model with columns or relations
      lists its columns ("*" when it has none) and then every relation key, in order. */
  lemma RouteColumnsSpec(meta: ServiceOptions, op: Option<Operation>)
    ensures OperationColumns(meta, op).Some? ==> RouteColumns(meta, op) == OperationColumns(meta, op)
    ensures OperationColumns(meta, op).None? ==>
            (RouteColumns(meta, op).None? <==> meta.model.columns.None? && meta.model.relations.None?)
    ensures var r := RouteColumns(meta, op);
            OperationColumns(meta, op).None? && r.Some? && meta.model.columns.Some? ==>
              r.value[..|meta.model.columns.value|] == meta.model.columns.value
    ensures var r := RouteColumns(meta, op);
            OperationColumns(meta, op).None? && r.Some? && meta.model.columns.None? ==> r.value[0] == "*"
    ensures var r := RouteColumns(meta, op);
            OperationColumns(meta, op).None? && meta.model.relations.Some? ==>
              r.Some? && forall k :: k in Keys(meta.model.relations.value) ==> k in r.value
  {
    var r := RouteColumns(meta, op);
    if OperationColumns(meta, op).None? && meta.model.relations.Some? {
      var head := if meta.model.columns.Some? then meta.model.columns.value else ["*"];
      var keys := Keys(meta.model.relations.value);
      assert r.value == head + keys;
      forall k | k in keys ensures k in r.value {
        var i :| 0 <= i < |keys| && keys[i] == k;
        assert r.value[|head| + i] == k;
      }
    }
  }

  /** Without operation columns, the default column list lets through every relation the
      model includes, so the default body factory can reference them. */
  lemma DefaultColumnsAdmitIncludedRelations(reg: Registry, meta: ServiceOptions, op: Option<Operation>, strict: bool, r: Relation)
    requires WellFormedRegistry(reg) && r in EntityRelations(reg, meta.model.entity)
    requires OperationColumns(meta, op).None?
    requires !r.inverse && IncludesRelations(meta.model.relations) && r.name in Keys(meta.model.relations.value)
    requires PrimarySchema(reg, r.target).Some?
    ensures FieldOf(BodyFields(reg, meta, RouteColumns(meta, op), op, strict), r.name).Some?
  {
    RouteColumnsSpec(meta, op);
    BodySchemaRelation(reg, meta, RouteColumns(meta, op), op, strict, r);
  }

  /** No body without `withBody`. */
  lemma NoBodyWithoutWithBody(reg: Registry, meta: ServiceOptions, opts: CrudOptions, columns: Option<seq<string>>)
    requires !opts.withBody
    ensures RouteBody(reg, meta, opts, columns) == Ok(None)
  {
  }

  /** An operation's schema function is applied to the given `bodySchema`, or else to what
      the factory gives at default strictness; a null factory then throws. */
  lemma FunctionSchemaApplied(reg: Registry, meta: ServiceOptions, opts: CrudOptions, columns: Option<seq<string>>, f: string)
    requires opts.withBody && OperationSchemaOf(meta, opts.operation) == Some(SchemaFunction(f))
    ensures opts.bodySchema.Some? ==> RouteBody(reg, meta, opts, columns) == Ok(Some(Applied(f, Fixed(opts.bodySchema.value))))
    ensures opts.bodySchema.None? && opts.body.DefaultFactory? ==>
            RouteBody(reg, meta, opts, columns) == Ok(Some(Applied(f, Fixed(BodySchema(reg, meta, columns, opts.operation, true)))))
    ensures opts.bodySchema.None? && opts.body.NullFactory? ==> RouteBody(reg, meta, opts, columns) == Err(FactoryNotAFunction)
  {
  }

  /** An operation's schema object is the body, whatever the other options say. */
  lemma ObjectSchemaUsed(reg: Registry, meta: ServiceOptions, opts: CrudOptions, columns: Option<seq<string>>, s: Schema)
    requires opts.withBody && OperationSchemaOf(meta, opts.operation) == Some(SchemaObject(s))
    ensures RouteBody(reg, meta, opts, columns) == Ok(Some(Fixed(s)))
  {
  }

  /** Without an operation schema, `bodySchema` only decides whether the factory is called:
      the body is what the factory gives at the route's strictness, never `bodySchema`
      itself, and with a null factory a given `bodySchema` makes the call throw. */
  lemma BodySchemaOptionIgnored(reg: Registry, meta: ServiceOptions, opts: CrudOptions, columns: Option<seq<string>>)
    requires opts.withBody && OperationSchemaOf(meta, opts.operation).None?
    ensures opts.body.DefaultFactory? ==>
            RouteBody(reg, meta, opts, columns) == Ok(Some(Fixed(BodySchema(reg, meta, columns, opts.operation, opts.strict))))
    ensures opts.body.NullFactory? ==>
            RouteBody(reg, meta, opts, columns) == (if opts.bodySchema.Some? then Err(FactoryNotAFunction) else Ok(None))
    ensures RouteBody(reg, meta, opts, columns).Ok? && RouteBody(reg, meta, opts, columns).value.Some? ==>
            !RouteBody(reg, meta, opts, columns).value.value.Applied?
  {
  }

  /** The only error preparing a route with metadata can meet is a null factory's call. */
  lemma BodyErrorIsNullFactory(reg: Registry, meta: ServiceOptions, opts: CrudOptions, columns: Option<seq<string>>)
    ensures RouteBody(reg, meta, opts, columns).Err? ==>
            RouteBody(reg, meta, opts, columns) == Err(FactoryNotAFunction) && opts.body.NullFactory? && opts.withBody
  {
  }

  /** Dispatch precedence: the missing service property first, then the `handler` option,
      then the operation's handler, then the route's own handler. */
  lemma DispatchOrder(meta: ServiceOptions, opts: CrudOptions, id: string, own: set<string>)
    ensures id !in own ==> Dispatch(meta, opts, id, own) == Err(NotImplemented)
    ensures id in own && Truthy(opts.handler) ==> Dispatch(meta, opts, id, own) == Ok(CustomHandler(opts.handler.value))
    ensures var entry := OperationEntry(meta, opts.operation);
            id in own && !Truthy(opts.handler) && entry.Some? ==>
              Dispatch(meta, opts, id, own) == if Truthy(entry.value.handler) then Ok(OperationHandler(entry.value.handler.value)) else Ok(DefaultHandler)
    ensures id in own && !Truthy(opts.handler) && (opts.operation.None? || meta.operations.None?) ==>
            Dispatch(meta, opts, id, own) == Ok(DefaultHandler)
  {
  }

  /** A call throws exactly when the controller lacks the service property, or when no
      `handler` option is set and the operation has no entry in a present operations map. */
  lemma DispatchFails(meta: ServiceOptions, opts: CrudOptions, id: string, own: set<string>)
    ensures Dispatch(meta, opts, id, own).Err? <==>
            id !in own
            || (!Truthy(opts.handler) && opts.operation.Some? && meta.operations.Some? && opts.operation.value !in meta.operations.value)
    ensures Dispatch(meta, opts, id, own).Err? && id in own ==> Dispatch(meta, opts, id, own) == Err(NoOperationEntry)
  {
  }

  // ---------------------------------------------------------------------------
  // Two readings of one option

  /** The schema a route publishes and the query the service runs read a relation's
      `nullable` option differently. The schema reads the decorator's option, the query
      the ORM's `isNullable`. A relation left without the option is therefore required in
      a read schema and still joined with a left join. */
  lemma UnsetNullableRequiredButLeftJoined(reg: Registry, rel: Relation, inc: Inclusion, parent: string, alias: string)
    requires !rel.inverse && rel.nullable.None?
    ensures RelationSchema(reg, rel, inc, false, false).Some?
    ensures RelationSchema(reg, rel, inc, false, false).value.presence == Required
    ensures TypeOrmService.JoinFor(rel, inc, parent, alias).kind == TypeOrmService.LeftJoin
  {
    RelationSchemaSpec(reg, rel, inc, false, false);
    TypeOrmService.JoinForSpec(rel, inc, parent, alias);
  }
}
