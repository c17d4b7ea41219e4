# nestjs-typeorm-crud, modelled in Dafny

This project models the metadata-driven core of a CRUD layer for NestJS over TypeORM.
The layer has three parts:

- **Validation-schema synthesis** (`lib/swagger.helper.ts`). Entity metadata becomes an
  object schema with one rule per column and one nested rule per included relation.
  - The model's column allow-list filters the fields, but primary keys always pass.
  - For request bodies, further filters apply: no generated columns, no relation that declares an inverse,
    the operation's own list, the requested columns with `"*"` (which covers columns only),
    and non-strict bodies in which every field is optional.
- **The generic service** (`lib/typeorm.service.ts`):
  - the query it builds: root column selection and the join plan of the model's relation tree;
  - list pagination;
  - lookup by primary key, with the NotImplemented and NotFound rules;
  - the record a request body becomes, with relation references resolved against the store;
  - the writes it asks of the repository: create, replace (a shallow merge), soft or hard
    delete, and adding or removing a related row, whose failure is swallowed.
- **Route preparation** (`lib/typeorm.utils.ts`):
  - the pure decisions `prepareRoute` takes: metadata check, route id and path, ok-response
    schema, default column list, body schema and handler dispatch;
  - `mergeSwagger`.

Layout, one module per file:

| file | module | what it holds |
|---|---|---|
| `values.dfy` | `Values` | `Option`, `Result`, JSON-like values, rows, the errors the layer raises |
| `joi.dfy` | `Joi` | schema values as the schema builder chains them; an object schema is an ordered list of fields, and `Put` is JavaScript property assignment |
| `interfaces.dfy` | `Interfaces` | column and relation descriptors, the entity registry, the relation-inclusion tree, model, operation and service configuration |
| `swagger_helper.dfy` | `SwaggerHelper` | schema synthesis |
| `typeorm_service.dfy` | `TypeOrmService` | the service |
| `typeorm_utils.dfy` | `TypeOrmUtils` | route preparation and `mergeSwagger` |

Modelling choices:

- **The ORM's metadata** is a registry `map<string, Entity>`, keyed by entity name. It stands
  in for the metadata storage and for a relation's `type()` thunk.
- **getSchemaFromEntity** is a method with two loops, one over columns and one over
  relations; the relation loop is the method `PutRelationFields`. It is proved equal to
  the specification function `SchemaFromEntity`, which builds the same fields by recursion
  on a prefix. Every property lemma is about that function.
- **addJoins** is a method (`AddJoins`) over the entries of the tree and the columns of each
  join. It returns the joins it would issue. `Math.random()` aliases are a supplied function
  from position to name.
- **Relation metadata** has two readers that see it differently, and the model keeps both.
  - `nullable` is the decorator's option as written, absent included. The schema synthesis
    reads it as a condition, so only `nullable: true` makes a relation optional. The
    service reads the ORM's `isNullable`, which is true unless the relation says
    `nullable: false`, so only that makes a join an inner join.
  - `inverse` means the relation declares an inverse side property. That holds on both
    sides of a bidirectional relation, the owning side included.
  - The column metadata the service iterates holds the declared columns, and also one virtual
    join column per relation owning a foreign key (every many-to-one, and a one-to-one with
    a join column). That virtual column carries the relation's name. The schema synthesis
    sees only the declared columns.
- **getRecord** is a method (`GetRecord`) with the column loop (the method `CopyColumns`)
  and the relation loop.
  - The concurrent `Promise.all` is resolved relation by relation, in order.
  - The lemmas claim only that a failure is the error of some failing relation, never which one.
- **The repository** is an in-memory store: per entity, rows by primary-key value plus a
  soft-deleted set.
  - Queries read the store.
  - Writes are returned as values: the row saved, the deletion, the relation change.
  - Whether a write fails is a boolean parameter.
- **JavaScript semantics** are modelled where they decide a branch:
  - truthiness of handler names (the empty string is falsy, while an empty array is truthy);
  - `??`;
  - a TypeError when destructuring `undefined`, or when reading a property of an undefined
    operation entry;
  - right-biased object spread;
  - `String.prototype.replace` with a string pattern, which replaces the first occurrence only.

Four behaviours of the code as written are modelled and stated rather than smoothed over:

- **Duplicate ids.** A many-to-many reference that repeats an id fails with a NotFound that
  lists no id, even when every row exists. The query returns each row once, so the count
  comparison falls short (`RepeatedIdsFailWithEmptyList`).
- **bodySchema ignored.** Without an operation schema, a given `bodySchema` only decides
  whether the body factory is called; it is never the body itself
  (`BodySchemaOptionIgnored`).
- **Unset nullability.** A relation declared without `nullable` is required in a read schema,
  yet the service joins it with a left join (`UnsetNullableRequiredButLeftJoined`).
- **Unresolved owning side.** A relation that owns a foreign key and declares an inverse
  reaches the record as the body wrote it. The column loop copies it through the virtual
  join column, and the relation loop skips every relation with an inverse
  (`UnresolvedOwningSide`).

## Model

| member | source | states |
|---|---|---|
| Joi.Put | lib/swagger.helper.ts:130 | `schema[name] = rule`: the name then holds the new rule and every other name keeps its rule. An existing name keeps its position, and a new one is appended. |
| Interfaces.LookupKeys | lib/swagger.helper.ts:135-139 | `propertyName in relationship` holds exactly when the lookup finds an inclusion, and the inclusion found is that of the first entry with the key. |
| SwaggerHelper.ColumnSchema | lib/swagger.helper.ts:29-61 | No rule exactly for a `select: false` column. Otherwise: the kind of the column type, the declared default and nothing else, and a presence that is always set. It is optional exactly when forced, defaulted or nullable, and null is allowed exactly then. |
| SwaggerHelper.FirstPrimary | lib/swagger.helper.ts:102 | None exactly when no column is primary; otherwise a primary column with no primary column before it. |
| SwaggerHelper.PrimarySchema | lib/swagger.helper.ts:99-104 | No rule when the entity has no primary column; otherwise the column rule of its first primary column. |
| SwaggerHelper.ParseColumn | lib/swagger.helper.ts:158-174 | A read schema takes the unforced column rule. In a body, a column has a rule exactly when it is selectable, not generated, named by the operation's list (if any), and named by the requested columns unless those hold `"*"`. The rule is then forced optional exactly when the body is not strict. |
| SwaggerHelper.RelationSchemaSpec | lib/swagger.helper.ts:77-97 | Nothing for a relation that declares an inverse. A full nested rule always exists otherwise. A primary-key rule exists exactly when the target has one. The rule is an array exactly for many-to-many. It is optional exactly when the relation says `nullable: true` or optional is forced, with null allowed then; an absent option gives a required rule. It wraps the target's primary-key rule or the object of the target's columns. |
| SwaggerHelper.ParseRelationSpec | lib/swagger.helper.ts:175-185 | A read schema takes the nested relation rule. A body has a rule exactly for a non-inverse relation named by the operation's list and the requested columns (when given) whose target has a primary-key rule. That rule is the target's primary-key rule, forced optional when not strict. |
| SwaggerHelper.GetSchemaFromEntity | lib/swagger.helper.ts:106-148 | The two loops build exactly `SchemaFromEntity`: the column fields, then the relation fields when the tree is non-empty. |
| SwaggerHelper.PutRelationFields | lib/swagger.helper.ts:133-145 | The relation loop builds exactly `RelationFields` over the fields it starts from. |
| SwaggerHelper.ColumnFieldsDistinct | lib/swagger.helper.ts:116-131 | The column loop never names a property twice. |
| SwaggerHelper.ColumnFieldAbsent | lib/swagger.helper.ts:116-131 | A name that is no column's gets no property from the column loop. |
| SwaggerHelper.ColumnFieldOf | lib/swagger.helper.ts:116-131 | Among distinct columns, each has exactly the property its allow-list and parser give it, or none. |
| SwaggerHelper.RelationFieldsDistinct | lib/swagger.helper.ts:133-145 | The relation loop never names a property twice when the column fields do not. |
| SwaggerHelper.RelationFieldAbsent | lib/swagger.helper.ts:133-145 | The relation loop leaves the property of a name that is no relation's as it found it. |
| SwaggerHelper.RelationFieldOf | lib/swagger.helper.ts:133-145 | Among distinct relations, each has the property its inclusion and parser give it, or keeps the one it had. |
| SwaggerHelper.SchemaFieldsDistinct | lib/swagger.helper.ts:106-148 | No synthesized object schema names a property twice. |
| SwaggerHelper.SchemaFieldColumn | lib/swagger.helper.ts:116-131 | On a well-formed entity, a column's property is what the allow-list and the column parser give it. |
| SwaggerHelper.SchemaFieldRelation | lib/swagger.helper.ts:133-145 | A relation has a property only when the tree is non-empty, and then the one its inclusion and the relation parser give it. |
| SwaggerHelper.SchemaFieldOther | lib/swagger.helper.ts:106-148 | A name that is neither a column's nor a relation's has no property. |
| SwaggerHelper.UnselectableColumnOmitted | lib/swagger.helper.ts:38 | A `select: false` column has no property, in read and body schemas alike. |
| SwaggerHelper.ReadSchemaColumn | lib/swagger.helper.ts:116-122 | In a read schema, a non-primary column is left out exactly when an allow-list exists and omits it; every other column gets its column rule. |
| SwaggerHelper.ReadSchemaKeepsGenerated | lib/swagger.helper.ts:124-128 | A read schema keeps a generated column, because the default parser ignores the flag. |
| SwaggerHelper.ReadSchemaRelation | lib/swagger.helper.ts:133-145 | In a read schema, a relation has a property exactly when the tree is non-empty, names it, and it declares no inverse. The property is its nested rule for the inclusion found. |
| SwaggerHelper.NestedSchemaHasNoRelations | lib/swagger.helper.ts:81-85 | A nested relation rule wraps the target's schema built without relations, so it names only columns of the target. |
| SwaggerHelper.BodySchemaColumn | lib/swagger.helper.ts:159-173 | A column is in a body exactly when it is selectable, not generated, allowed by the model, named by the operation's list if any, and named by the requested columns unless they hold `"*"`. Its rule is then the column rule, forced optional when not strict. |
| SwaggerHelper.BodySchemaRelation | lib/swagger.helper.ts:175-184 | A relation is in a body exactly when it declares no inverse, the model's tree includes it, the operation's list and the requested columns (when given) name it, and its target has a primary-key rule. The rule is then that primary-key rule. |
| SwaggerHelper.BodyExcludesGeneratedAndInverse | lib/swagger.helper.ts:159-176 | A body never holds a generated column or a relation that declares an inverse. |
| SwaggerHelper.OperationListExcludes | lib/swagger.helper.ts:161-182 | An operation's allow-list excludes every property it does not name. |
| SwaggerHelper.StarAdmitsColumnsNotRelations | lib/swagger.helper.ts:167-183 | `"*"` among the requested columns admits every column the other filters let through, but no relation that is not named itself. |
| SwaggerHelper.NonStrictBodyIsOptional | lib/swagger.helper.ts:173-184 | With strict off, every property of a body is optional and allows null. |
| TypeOrmService.PrimaryColumnsSpec | lib/typeorm.service.ts:129 | The primary columns are exactly the columns marked primary. |
| TypeOrmService.FindRelationSpec | lib/typeorm.service.ts:257 | The search finds nothing exactly when no relation has the name; otherwise it finds a relation of the entity with that name. |
| TypeOrmService.ColumnSelections | lib/typeorm.service.ts:66-71 | One selection per listed column, in list order: `alias.col`, labelled `alias_col`. |
| TypeOrmService.JoinForSpec | lib/typeorm.service.ts:55-77 | An entry's join is a left join exactly when the relation does not say `nullable: false`, which is the ORM's `isNullable`; a relation without the option is left-joined. The join hangs off the given parent under the given alias. It is a join-and-select exactly when no columns are listed; otherwise it is a plain join with one selection per column. |
| TypeOrmService.AddJoins | lib/typeorm.service.ts:54-89 | The loop returns exactly the as-written join list `AsWrittenJoins`, or its error. |
| TypeOrmService.AsWrittenEntrySpec | lib/typeorm.service.ts:55-88 | One iteration succeeds exactly on a known key without nested relations, with that entry's join. |
| TypeOrmService.AsWrittenJoinsErrSticks | lib/typeorm.service.ts:54-89 | Once an entry throws, the whole call throws that error. |
| TypeOrmService.AsWrittenJoinsFlat | lib/typeorm.service.ts:54-89 | Known keys without nested relations all the way through make the call succeed. |
| TypeOrmService.AsWrittenJoinsFailAt | lib/typeorm.service.ts:54-89 | One entry that is unknown or has nested relations makes the call throw. |
| TypeOrmService.AsWrittenJoinsOk | lib/typeorm.service.ts:54-89 | As written, the call succeeds exactly when every entry is a known key without nested relations. |
| TypeOrmService.AsWrittenJoinsLength | lib/typeorm.service.ts:54-77 | A successful call emits exactly one join per top-level key. |
| TypeOrmService.AsWrittenJoinAt | lib/typeorm.service.ts:54-77 | The i-th join is that of the i-th key, under the i-th alias. |
| TypeOrmService.JoinPlanOk | lib/typeorm.service.ts:80-88 | The corrected recursive plan succeeds exactly when every key, at every depth, names a relation of the entity it hangs off. |
| TypeOrmService.JoinPlanSpec | lib/typeorm.service.ts:80-88 | A successful corrected plan emits one join per entry at every depth, with consecutive aliases. Every join hangs off the root or an alias emitted before it. |
| TypeOrmService.FlatPlanAgrees | lib/typeorm.service.ts:54-89 | On a tree without nested relations, the corrected plan equals what the code as written emits, errors included. |
| TypeOrmService.NestedTreeExample | lib/typeorm.service.ts:80-88 | For a two-level tree, the code as written throws. The corrected plan emits two joins, the nested one off the first join's alias. |
| TypeOrmService.Qualified | lib/typeorm.service.ts:35 | Each model column selected as `entity.col`, in order. |
| TypeOrmService.BuildQuery | lib/typeorm.service.ts:25-44 | The query builds exactly when the model has no tree or a valid one. The root selection is present exactly for a non-empty model column list, and is those columns qualified. The joins are the corrected plan: none without a tree. On a nested tree this departs from the code as written, which throws (see `BuildQueryDepartsOnNestedTree`). |
| TypeOrmService.BuildQueryDepartsOnNestedTree | lib/typeorm.service.ts:25-87 | On a valid tree with an entry that nests relations, the query builds while addJoins as written throws the swapped-argument TypeError. |
| TypeOrmService.NestedThrowsSwapped | lib/typeorm.service.ts:54-87 | On a valid tree, the only error addJoins as written can raise is the swapped-argument TypeError. |
| TypeOrmService.CeilDiv | lib/typeorm.service.ts:123 | `Math.ceil(ct / page_size)`: the least count of pages that holds `ct` rows. |
| TypeOrmService.Window | lib/typeorm.service.ts:111 | `take`/`skip`: at most `take` rows, in order, from position `skip`. There are exactly `min(take, n - skip)` of them when `skip < n`, and none otherwise. |
| TypeOrmService.Find | lib/typeorm.service.ts:103-126 | find fails exactly when the query does not build, and otherwise returns the paginated response. |
| TypeOrmService.UnpagedList | lib/typeorm.service.ts:114-124 | Without a page: page 1 of 1, the total and page size being the row count, all rows returned. |
| TypeOrmService.PagedList | lib/typeorm.service.ts:110-123 | With a page: the rows from `page_size * (page - 1)` on, at most `page_size` of them, with the reported page size being the number of rows returned. With `count`, total and the ceiling page count; without it, neither. |
| TypeOrmService.PagesCountsNonEmptyPages | lib/typeorm.service.ts:123 | With counting, a page holds rows exactly when its number is at most `pages`. |
| TypeOrmService.SecondPageOfTwelve | lib/typeorm.service.ts:110-123 | Twelve rows, page 2 of size 5, counted: rows 5 to 9, total 12, three pages. |
| TypeOrmService.FindOne | lib/typeorm.service.ts:128-136 | NotImplemented unless there is exactly one primary column, checked first. Then the query's error, if any. Otherwise the live row with the id, or none. |
| TypeOrmService.FindOrFail | lib/typeorm.service.ts:220-229 | findOne's errors pass through, and no row is NotFound for the entity and id. Otherwise the row narrowed to its primary-key column, and the row is live. |
| TypeOrmService.LiveIdsMembers | lib/typeorm.service.ts:169-174 | The `In(needle)` query finds exactly the ids that have a live row. |
| TypeOrmService.LiveIdsAllLive | lib/typeorm.service.ts:169-174 | When every id has a live row, the query finds every one of them. |
| TypeOrmService.LiveIdsLength | lib/typeorm.service.ts:169-176 | The query finds no more ids than were asked for, and as many only when every one is live. |
| TypeOrmService.DedupMembers | lib/typeorm.service.ts:169-174 | A query returns each matching row once: the rows returned are exactly the ids asked for that it found. |
| TypeOrmService.DedupDistinct | lib/typeorm.service.ts:169-174 | The rows a query returns are pairwise distinct. |
| TypeOrmService.DedupOfDistinct | lib/typeorm.service.ts:169-176 | Distinct ids come back unchanged. |
| TypeOrmService.DedupLength | lib/typeorm.service.ts:169-176 | Never more rows than ids, and fewer when an id repeats. |
| TypeOrmService.MissingIdsSpec | lib/typeorm.service.ts:180-182 | The missing list holds exactly the requested ids with no live row. |
| TypeOrmService.Refs | lib/typeorm.service.ts:169-177 | Each reference is the row narrowed to the related primary key, one per id. |
| TypeOrmService.ResolveSpec | lib/typeorm.service.ts:159-201 | Null stays null. A target without a primary column throws. A to-one reference is its row's key, or NotFound for that id. A many-to-many NotFound lists exactly the ids with no live row, and a success has one reference per id. |
| TypeOrmService.ManyToManyResolvesIffAllFound | lib/typeorm.service.ts:168-187 | With distinct ids, a many-to-many reference resolves exactly when every id has a live row, and then to those rows (the order is the ids', see Left out). |
| TypeOrmService.RepeatedIdsFailWithEmptyList | lib/typeorm.service.ts:176-187 | A repeated id fails the count comparison even when every row exists, and the NotFound lists no id. |
| TypeOrmService.GetRecord | lib/typeorm.service.ts:138-207 | The two loops return exactly the specified record `Record`, or the first relation error. |
| TypeOrmService.CopyColumns | lib/typeorm.service.ts:144-147 | The column loop builds exactly `ColumnsRecord` of the listed names. |
| TypeOrmService.ColumnsRecordKeys | lib/typeorm.service.ts:144-147 | The column loop copies exactly the names of the column metadata that the body holds. |
| TypeOrmService.JoinColumnNamesSub | lib/typeorm.service.ts:141-147 | Every virtual join column carries the name of a relation. |
| TypeOrmService.JoinColumnNameOf | lib/typeorm.service.ts:141-147 | Among distinct relations, a relation lends its name to a virtual join column exactly when it owns a foreign key. |
| TypeOrmService.ColumnsRecordValues | lib/typeorm.service.ts:144-147 | Each copied name keeps the body's value. |
| TypeOrmService.RelationsRecordErrSticks | lib/typeorm.service.ts:149-204 | Once a relation fails, the record fails with that error. |
| TypeOrmService.RelationsRecordOk | lib/typeorm.service.ts:159-201 | The relation loop succeeds exactly when every non-inverse relation the body holds resolves. |
| TypeOrmService.RelationsRecordErr | lib/typeorm.service.ts:159-201 | A failing relation loop fails with the error of a non-inverse relation the body holds. |
| TypeOrmService.RelationsRecordKeeps | lib/typeorm.service.ts:149-204 | The relation loop keeps every name of the record it starts from, and the value of every name that is no relation's. |
| TypeOrmService.RelationsRecordAdds | lib/typeorm.service.ts:149-204 | The relation loop only adds relation names. |
| TypeOrmService.RelationsRecordHolds | lib/typeorm.service.ts:159-160 | Over distinct relations, the record holds a relation's name exactly when the body holds it and it declares no inverse, or when the column loop already copied it. |
| TypeOrmService.RelationsRecordValue | lib/typeorm.service.ts:159-201 | A resolved relation holds its resolved value; any other relation keeps the value the column loop copied. |
| TypeOrmService.RecordFails | lib/typeorm.service.ts:149-204 | getRecord fails exactly when some non-inverse relation the body holds fails to resolve, and then with that relation's error. |
| TypeOrmService.RecordSpec | lib/typeorm.service.ts:138-207 | On a well-formed entity, the record holds exactly the declared columns the body holds, with its values. It holds a relation exactly when the body holds it and the relation declares no inverse or owns a foreign key. A relation without an inverse holds its resolved value. One with an inverse that owns a foreign key holds the body's raw value, copied through its virtual join column. Nothing else is held. |
| TypeOrmService.UnresolvedOwningSide | lib/typeorm.service.ts:144-160 | A relation that owns a foreign key and declares an inverse keeps the body's value unresolved in the record. |
| TypeOrmService.Merge | lib/typeorm.service.ts:234 | `{ ...row, ...record }`: the record's fields overwrite, and the row's other fields stay unchanged. |
| TypeOrmService.CreateOne | lib/typeorm.service.ts:209-218 | The record's error passes through. Otherwise the record is saved, or a failing save is an InternalServerError. |
| TypeOrmService.ReplaceOne | lib/typeorm.service.ts:231-240 | findOrFail's error first, then the record's. Otherwise the record merged over the found row is saved, or a failing save is an InternalServerError. |
| TypeOrmService.ReplaceOneSaves | lib/typeorm.service.ts:231-236 | The saved row holds the body's columns with the body's values, and the primary key: the body's own if it carries one, else the id. |
| TypeOrmService.DeleteOne | lib/typeorm.service.ts:242-251 | findOrFail's error first. Otherwise a soft deletion exactly when `soft`, and a failing delete is an InternalServerError. |
| TypeOrmService.DeletedRowIsNotFound | lib/typeorm.service.ts:242-251 | After a soft or hard delete, the row is NotFound, and every other row is found exactly as before. |
| TypeOrmService.CheckRelation | lib/typeorm.service.ts:253-265 | An unknown relation is NotFound, before anything else. A known one is Forbidden exactly when the model has a tree that lacks it. These are the only errors, and success returns the relation named. |
| TypeOrmService.UpdateRelation | lib/typeorm.service.ts:267-294 | findOrFail's error, then checkRelation's. Then NotFound exactly when the related row is missing. A failing change is swallowed, and otherwise the change is requested. |
| TypeOrmService.AddRelation | lib/typeorm.service.ts:267-278 | Succeeds exactly when the row exists, the relation passes checkRelation and the related row exists; then the add is requested unless it fails. |
| TypeOrmService.DeleteRelation | lib/typeorm.service.ts:280-294 | Succeeds exactly when the row exists, the relation passes checkRelation and the related row exists; then the removal is requested unless it fails. |
| TypeOrmService.RelationFailureSwallowed | lib/typeorm.service.ts:275-277 | A failing add or remove never changes whether the call succeeds, nor its error. |
| TypeOrmUtils.IndexFrom | lib/typeorm.utils.ts:67 | A position found holds an occurrence of the pattern, at or after the start. |
| TypeOrmUtils.IndexFromFirst | lib/typeorm.utils.ts:67 | No position before the one found holds an occurrence. |
| TypeOrmUtils.ReplaceFirstNoMatch | lib/typeorm.utils.ts:67 | A path without the placeholder is left unchanged. |
| TypeOrmUtils.ReplaceFirstAt | lib/typeorm.utils.ts:67 | Otherwise the first occurrence, and only that one, is replaced. |
| TypeOrmUtils.RowRoutePath | lib/decorators/getone.decorator.ts:32 | The default single-row path becomes the id followed by `/:id`. |
| TypeOrmUtils.MissingMetadataFails | lib/typeorm.utils.ts:56-64 | A service class without metadata is refused before anything else. |
| TypeOrmUtils.PreparedRoute | lib/typeorm.utils.ts:66-115 | With metadata, preparation fails exactly when the body's factory call does. The id is `model.id ?? service.name`, and the path is the first placeholder replaced by the id. The response, columns and body are as decided. |
| TypeOrmUtils.OkResponseShape | lib/typeorm.utils.ts:78-87 | The ok response is absent exactly on a void route or when neither the model schema nor operation columns exist, and it is an array on a plural route. |
| TypeOrmUtils.OkResponseSource | lib/typeorm.utils.ts:78-87 | Inside the array of a plural route: the body schema of the operation's columns when it has any, else the model schema. |
| TypeOrmUtils.OkResponseOnlyListed | lib/typeorm.utils.ts:81-82 | An ok response built from operation columns without `"*"` holds no property they do not name. |
| TypeOrmUtils.RouteColumnsSpec | lib/typeorm.utils.ts:96-103 | The operation's columns win. Otherwise the list is absent exactly when the model has neither columns nor relations. It starts with the model columns (or `"*"`) and holds every relation key. |
| TypeOrmUtils.DefaultColumnsAdmitIncludedRelations | lib/typeorm.utils.ts:96-113 | Without operation columns, the default column list lets every included, non-inverse relation with a primary-key target into the default body. |
| TypeOrmUtils.NoBodyWithoutWithBody | lib/typeorm.utils.ts:105-115 | No body without `withBody`. |
| TypeOrmUtils.FunctionSchemaApplied | lib/typeorm.utils.ts:106-110 | An operation's schema function is applied to `bodySchema`, or else to the default factory's schema at default strictness; a null factory throws. |
| TypeOrmUtils.ObjectSchemaUsed | lib/typeorm.utils.ts:111 | An operation's schema object is the body. |
| TypeOrmUtils.BodySchemaOptionIgnored | lib/typeorm.utils.ts:112-114 | Without an operation schema, the body is the factory's at the route's strictness, never `bodySchema`. With a null factory, a given `bodySchema` makes the call throw, and otherwise there is no body. |
| TypeOrmUtils.BodyErrorIsNullFactory | lib/typeorm.utils.ts:105-115 | The only error the body decision can raise is the call of a null factory. |
| TypeOrmUtils.DispatchOrder | lib/typeorm.utils.ts:130-137 | NotImplemented without the service property, then the `handler` option if truthy, then the operation's handler if truthy, then the route's own handler. |
| TypeOrmUtils.DispatchFails | lib/typeorm.utils.ts:130-137 | A call throws exactly when the service property is missing, or when no handler option is set and a present operations map lacks the operation. |
| TypeOrmUtils.MergeSwagger | lib/typeorm.utils.ts:179-182 | `merge` overridden key by key by `swagger`, with every other key of `merge` kept as is; `merge` itself when `swagger` is undefined. |
| TypeOrmUtils.MergeSwaggerIdempotent | lib/typeorm.utils.ts:179-182 | Merging the same options a second time changes nothing. |
| TypeOrmUtils.MergeSwaggerIntoEmpty | lib/typeorm.utils.ts:179-182 | Merged into no options, the result is the given options. |
| TypeOrmUtils.UnsetNullableRequiredButLeftJoined | lib/typeorm.service.ts:55-65 | A relation without the `nullable` option is left-joined, while its read-schema rule (lib/swagger.helper.ts:90-94) is required. |

## Findings

| source | as written | input that shows it | evidently intended | confidence | as-written member | corrected member |
|---|---|---|---|---|---|---|
| lib/typeorm.service.ts:82-87 | The recursive call passes `(qr, repository, relations, alias)` to a signature `(qr, rels, repository, alias)`. The nested relation tree is destructured as a repository, and the repository is iterated as the tree. | A model whose tree includes `books` with nested `publisher`: `{ books: { relations: { publisher: {} } } }` on Author → Book → Publisher. | The nested relations are joined off the parent join's alias and looked up on the related entity, depth first. | not executed | TypeOrmService.AddJoins (with TypeOrmService.NestedTreeExample) | TypeOrmService.JoinPlan (with TypeOrmService.JoinPlanOk, TypeOrmService.JoinPlanSpec, used by TypeOrmService.BuildQuery) |

The as-written model treats any entry with nested relations as throwing a TypeError. In
JavaScript the swapped destructuring of `metadata` from the relation tree throws when the
nested tree has no `metadata` key, which is the normal case. On trees without nested
relations the two agree exactly (`TypeOrmService.FlatPlanAgrees`).

## Left out

- Query execution, saving, deleting and relation updates in TypeORM are not modelled as
  library calls. Reads come from the in-memory store, writes are returned values, and a
  failing write is a boolean parameter.
- `Math.random()` aliases are a parameter `aliases: nat -> string`; freshness of the names
  is not assumed or used.
- `TypeOrmService.BuildQuery`, `TypeOrmService.Find`, `TypeOrmService.FindOne`,
  `TypeOrmService.FindOrFail`, `TypeOrmService.ReplaceOne`, `TypeOrmService.DeleteOne`,
  `TypeOrmService.UpdateRelation`, `TypeOrmService.AddRelation` and
  `TypeOrmService.DeleteRelation` build their query with the corrected join plan
  `JoinPlan`. On a model tree with an entry that nests relations, they succeed where the
  code as written throws a TypeError inside `qr()` (`BuildQueryDepartsOnNestedTree`).
  `AddJoins` and `AsWrittenJoins` keep the code as written.
- `TypeOrmService.Resolve`: the rows of the many-to-many `In` query are taken in the order
  of the body's ids. The source issues the query without an order, so the order of the
  references is whatever the database returns. `ManyToManyResolvesIffAllFound` states
  the references in the ids' order, which the source does not promise.
- `TypeOrmService.JoinForSpec`: the ORM also treats a relation that is part of the primary
  key as not nullable; primary relations are not modelled.
- `TypeOrmService.RecordSpec`: the virtual join column is modelled as the ORM creates it
  when no declared column holds the foreign key. A declared column that the join column
  reuses (an explicit foreign-key property) keeps its own name, and that case is not modelled.
- `TypeOrmService.RecordFails`: the concurrent `Promise.all` of getRecord is sequential here.
  The lemma claims only that the error is that of some failing relation, not which one wins.
- The query interceptor, `inner` join filtering of rows, and the projection a query applies
  to the rows it returns are not modelled. find paginates the rows it is given as matching.
- `TypeOrmService.Paginate`, `TypeOrmService.Find`, `TypeOrmService.PagedList`: these require
  `page >= 1` and `page_size >= 1`. How the ORM's `take`/`skip` treat a zero, negative or
  missing page size is not part of this model.
- `TypeOrmService.FindOne`: `andWhereInIds` is modelled as lookup of one id among live rows.
  The values of other columns a query would project are not modelled.
- JavaScript loose equality (`==` between an id and a row's key) is modelled as equality of values.
- `TypeOrmUtils.CallFactory`: what a custom body factory returns is opaque (`Produced`). It
  records its arguments, and an absent `strict` argument is recorded as `true`.
- `TypeOrmUtils.FunctionSchemaApplied`: what an operation's schema function returns is
  opaque (`Applied`).
- `TypeOrmUtils.ReplaceFirst`: the `$` substitution patterns of `String.prototype.replace`
  in the replacement string are not modelled.
- `TypeOrmUtils.Dispatch`: `operations?.[undefined]` is treated as an absent entry. The
  arguments forwarded to the chosen handler and its result are not modelled.
- The Swagger summary with pluralisation (lib/typeorm.utils.ts:69-76), the conversion of
  schemas to Swagger (`j2s`), `responseWrapper` and the `response` decorator factory are
  foreign libraries.
- The decorator `prepareRoute` returns (lib/typeorm.utils.ts:125-176) applies reflection
  metadata and parameter indexes; that is not modelled.
- lib/joi.pipe.ts and the files under lib/decorators/ are not part of this model, beyond the
  default path one decorator passes.
- Validation of values against a schema is not modelled; schemas are data.
