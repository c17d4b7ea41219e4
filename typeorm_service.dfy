/** The generic service over one entity's repository: the query it builds (column
    selection and the join plan of the model's relation tree), list pagination, lookup by
    primary key, the record a request body becomes, and the writes it hands to the
    repository. The repository is an in-memory store; what a write does to it is a
    returned value, and whether the write fails is a parameter. */
module TypeOrmService {
  import opened Values
  import opened Interfaces

  /** The alias of the root entity in every query the service builds. */
  const RootAlias: string := "entity"

  /** A service: the entity metadata it can reach and the options its class is registered
      with. Its repository is that of `meta.model.entity`. */
  datatype Service = Service(reg: Registry, meta: ServiceOptions)
  {
    function EntityName(): string { meta.model.entity }
    function Columns(): seq<Column> { EntityColumns(reg, meta.model.entity) }
    function Relations(): seq<Relation> { EntityRelations(reg, meta.model.entity) }

    /** The property names the repository's column metadata lists: the declared columns,
        then the virtual join column of each relation owning a foreign key, which carries
        the relation's name. */
    function MetadataColumnNames(): seq<string> { ColumnNames(Columns()) + JoinColumnNames(Relations()) }
  }

  // ---------------------------------------------------------------------------
  // The store

  /** One entity's stored rows by primary-key value. A softly deleted row keeps its place
      but no query finds it. */
  datatype Table = Table(rows: map<Value, Row>, softDeleted: set<Value>)

  /** Tables by entity name; an entity without a table has no rows. */
  type Store = map<string, Table>

  predicate Live(store: Store, entity: string, id: Value) {
    entity in store && id in store[entity].rows && id !in store[entity].softDeleted
  }

  /** `metadata.primaryColumns`: the primary columns, in column order. */
  function PrimaryColumns(cols: seq<Column>): seq<Column>
  {
    if cols == [] then []
    else (if cols[0].primary then [cols[0]] else []) + PrimaryColumns(cols[1..])
  }

  /** The primary columns are exactly the columns marked primary. */
  lemma {:induction false} PrimaryColumnsSpec(cols: seq<Column>)
    ensures forall c :: c in PrimaryColumns(cols) <==> c in cols && c.primary
    ensures |PrimaryColumns(cols)| <= |cols|
  {
    if cols != [] {
      PrimaryColumnsSpec(cols[1..]);
      assert cols == [cols[0]] + cols[1..];
    }
  }

  /** `relations.find(({ propertyName }) => propertyName == name)`. */
  function FindRelation(rels: seq<Relation>, name: string): (r: Option<Relation>)
  {
    if rels == [] then None
    else if rels[0].name == name then Some(rels[0]) else FindRelation(rels[1..], name)
  }

  lemma {:induction false} FindRelationSpec(rels: seq<Relation>, name: string)
    ensures FindRelation(rels, name).None? <==> name !in RelationNames(rels)
    ensures FindRelation(rels, name).Some? ==> FindRelation(rels, name).value in rels && FindRelation(rels, name).value.name == name
  {
    if rels != [] {
      assert RelationNames(rels) == [rels[0].name] + RelationNames(rels[1..]);
      FindRelationSpec(rels[1..], name);
    }
  }

  // ---------------------------------------------------------------------------
  // Joins

  datatype JoinKind = LeftJoin | InnerJoin

  /** `addSelect(expression, columnAlias)`. */
  datatype Selection = Selection(expression: string, columnAlias: string)

  /** One join on `parent.property` under `alias`: a join-and-select of the whole related
      row (`selectAll`), or a plain join followed by one selection per listed column. */
  datatype Join = Join(kind: JoinKind, parent: string, property: string, alias: string, selectAll: bool, selections: seq<Selection>)

  /** `columns?.length > 0`. */
  predicate SelectsColumns(inc: Inclusion) {
    inc.columns.Some? && |inc.columns.value| > 0
  }

  /** The per-column selections of a join, in column order. */
  function ColumnSelections(alias: string, cols: seq<string>): (r: seq<Selection>)
    ensures |r| == |cols|
    ensures forall k :: 0 <= k < |cols| ==> r[k] == Selection(alias + "." + cols[k], alias + "_" + cols[k])
  {
    if cols == [] then []
    else ColumnSelections(alias, cols[..|cols| - 1]) + [Selection(alias + "." + cols[|cols| - 1], alias + "_" + cols[|cols| - 1])]
  }

  /** The join one inclusion entry emits. */
  function JoinFor(rel: Relation, inc: Inclusion, parent: string, alias: string): Join
  {
    var kind := if rel.IsNullable() then LeftJoin else InnerJoin;
    if SelectsColumns(inc) then Join(kind, parent, rel.name, alias, false, ColumnSelections(alias, inc.columns.value))
    else Join(kind, parent, rel.name, alias, true, [])
  }

  /** An entry's join hangs off the given parent under the given alias. It is a left join
      exactly when the ORM deems the relation nullable, that is unless the relation says
      `nullable: false`, so a relation without the option is left-joined. It selects the
      listed columns of the alias, or all of them when none are listed. */
  lemma JoinForSpec(rel: Relation, inc: Inclusion, parent: string, alias: string)
    ensures var j := JoinFor(rel, inc, parent, alias);
            && (j.kind == LeftJoin <==> rel.nullable != Some(false))
            && j.parent == parent && j.property == rel.name && j.alias == alias
            && (j.selectAll <==> !SelectsColumns(inc))
            && (j.selectAll ==> j.selections == [])
            && (!j.selectAll ==> |j.selections| == |inc.columns.value|)
            && (!j.selectAll ==> forall k :: 0 <= k < |inc.columns.value| ==>
                  j.selections[k] == Selection(alias + "." + inc.columns.value[k], alias + "_" + inc.columns.value[k]))
  {
  }

  const MissingRelationMeta: Error := TypeError("no relation metadata for an inclusion key")
  const SwappedArguments: Error := TypeError("a relation tree destructured as a repository")

  /** The joins addJoins emits for the first entries of a tree, as written: an unknown key
      throws when its metadata is destructured, and an entry with nested relations throws
      in the recursive call, whose arguments are passed in the wrong order. The i-th entry
      is given the alias `aliases(i)`. */
  function AsWrittenJoins(reg: Registry, entity: string, tree: seq<Entry>, parent: string, aliases: nat -> string): Result<seq<Join>>
  {
    if tree == [] then Ok([])
    else
      match AsWrittenJoins(reg, entity, tree[..|tree| - 1], parent, aliases)
      case Err(e) => Err(e)
      case Ok(joins) =>
        match AsWrittenEntry(reg, entity, tree[|tree| - 1], parent, aliases(|tree| - 1))
        case Err(e) => Err(e)
        case Ok(join) => Ok(joins + [join])
  }

  /** One iteration of addJoins as written. */
  function AsWrittenEntry(reg: Registry, entity: string, entry: Entry, parent: string, alias: string): Result<Join>
  {
    match FindRelation(EntityRelations(reg, entity), entry.key)
    case None => Err(MissingRelationMeta)
    case Some(rel) =>
      if entry.spec.relations.Some? then Err(SwappedArguments)
      else Ok(JoinFor(rel, entry.spec, parent, alias))
  }

  /** Once a prefix of the tree fails, the whole tree fails the same way. */
  lemma {:induction false} AsWrittenJoinsErrSticks(reg: Registry, entity: string, tree: seq<Entry>, parent: string, aliases: nat -> string, n: nat)
    requires n <= |tree| && AsWrittenJoins(reg, entity, tree[..n], parent, aliases).Err?
    ensures AsWrittenJoins(reg, entity, tree, parent, aliases) == AsWrittenJoins(reg, entity, tree[..n], parent, aliases)
  {
    if n < |tree| {
      var m := |tree| - 1;
      assert tree[..m][..n] == tree[..n];
      AsWrittenJoinsErrSticks(reg, entity, tree[..m], parent, aliases, n);
      assert tree[..m] == tree[..|tree| - 1];
    } else {
      assert tree[..n] == tree;
    }
  }

  /** addJoins: one loop over the entries of the tree, one over a join's columns. */
  method AddJoins(reg: Registry, entity: string, tree: seq<Entry>, parent: string, aliases: nat -> string) returns (r: Result<seq<Join>>)
    ensures r == AsWrittenJoins(reg, entity, tree, parent, aliases)
  {
    var rMeta := EntityRelations(reg, entity);
    var joins: seq<Join> := [];
    for i := 0 to |tree|
      invariant AsWrittenJoins(reg, entity, tree[..i], parent, aliases) == Ok(joins)
    {
      var entry := tree[i];
      assert tree[..i + 1][..i] == tree[..i];
      var found := FindRelation(rMeta, entry.key);
      if found.None? {
        AsWrittenJoinsErrSticks(reg, entity, tree, parent, aliases, i + 1);
        return Err(MissingRelationMeta);
      }
      var rel := found.value;
      var alias := aliases(i);
      var kind := if rel.IsNullable() then LeftJoin else InnerJoin;
      var join: Join;
      if SelectsColumns(entry.spec) {
        var cols := entry.spec.columns.value;
        var selections: seq<Selection> := [];
        for k := 0 to |cols|
          invariant selections == ColumnSelections(alias, cols[..k])
        {
          assert cols[..k + 1][..k] == cols[..k];
          selections := selections + [Selection(alias + "." + cols[k], alias + "_" + cols[k])];
        }
        assert cols[..|cols|] == cols;
        join := Join(kind, parent, rel.name, alias, false, selections);
      } else {
        join := Join(kind, parent, rel.name, alias, true, []);
      }
      joins := joins + [join];
      if entry.spec.relations.Some? {
        AsWrittenJoinsErrSticks(reg, entity, tree, parent, aliases, i + 1);
        return Err(SwappedArguments);
      }
    }
    assert tree[..|tree|] == tree;
    return Ok(joins);
  }

  /** The entries addJoins as written gets through: known keys without nested relations. */
  predicate FlatEntry(reg: Registry, entity: string, e: Entry) {
    FindRelation(EntityRelations(reg, entity), e.key).Some? && e.spec.relations.None?
  }

  /** The join a known entry gets at position i. */
  function EntryJoin(reg: Registry, entity: string, e: Entry, parent: string, alias: string): Join
    requires FindRelation(EntityRelations(reg, entity), e.key).Some?
  {
    JoinFor(FindRelation(EntityRelations(reg, entity), e.key).value, e.spec, parent, alias)
  }

  /** One iteration succeeds exactly on a flat entry of a known key, with that entry's join. */
  lemma AsWrittenEntrySpec(reg: Registry, entity: string, entry: Entry, parent: string, alias: string)
    ensures AsWrittenEntry(reg, entity, entry, parent, alias).Ok? <==> FlatEntry(reg, entity, entry)
    ensures AsWrittenEntry(reg, entity, entry, parent, alias).Ok? ==>
            AsWrittenEntry(reg, entity, entry, parent, alias).value == EntryJoin(reg, entity, entry, parent, alias)
  {
  }

  /** addJoins as written gets through a tree of flat entries, one join per entry. */
  lemma {:induction false} AsWrittenJoinsFlat(reg: Registry, entity: string, tree: seq<Entry>, parent: string, aliases: nat -> string)
    requires forall i :: 0 <= i < |tree| ==> FlatEntry(reg, entity, tree[i])
    ensures AsWrittenJoins(reg, entity, tree, parent, aliases).Ok?
  {
    if tree != [] {
      var m := |tree| - 1;
      var prefix := tree[..m];
      forall i | 0 <= i < m ensures FlatEntry(reg, entity, prefix[i]) { assert prefix[i] == tree[i]; }
      AsWrittenJoinsFlat(reg, entity, prefix, parent, aliases);
      AsWrittenEntrySpec(reg, entity, tree[m], parent, aliases(m));
    }
  }

  /** addJoins as written throws on a tree with an entry that is not flat. */
  lemma {:induction false} AsWrittenJoinsFailAt(reg: Registry, entity: string, tree: seq<Entry>, parent: string, aliases: nat -> string, i: nat)
    requires i < |tree| && !FlatEntry(reg, entity, tree[i])
    ensures AsWrittenJoins(reg, entity, tree, parent, aliases).Err?
  {
    var m := |tree| - 1;
    var prefix := tree[..m];
    if i < m {
      assert prefix[i] == tree[i];
      AsWrittenJoinsFailAt(reg, entity, prefix, parent, aliases, i);
    } else {
      AsWrittenEntrySpec(reg, entity, tree[m], parent, aliases(m));
    }
  }

  /** addJoins as written succeeds exactly on a flat tree of known keys. */
  lemma AsWrittenJoinsOk(reg: Registry, entity: string, tree: seq<Entry>, parent: string, aliases: nat -> string)
    ensures AsWrittenJoins(reg, entity, tree, parent, aliases).Ok? <==> forall i :: 0 <= i < |tree| ==> FlatEntry(reg, entity, tree[i])
  {
    if forall i :: 0 <= i < |tree| ==> FlatEntry(reg, entity, tree[i]) {
      AsWrittenJoinsFlat(reg, entity, tree, parent, aliases);
    } else {
      var i :| 0 <= i < |tree| && !FlatEntry(reg, entity, tree[i]);
      AsWrittenJoinsFailAt(reg, entity, tree, parent, aliases, i);
    }
  }

  /** When addJoins as written succeeds, it emits one join per entry. */
  lemma {:induction false} AsWrittenJoinsLength(reg: Registry, entity: string, tree: seq<Entry>, parent: string, aliases: nat -> string)
    requires AsWrittenJoins(reg, entity, tree, parent, aliases).Ok?
    ensures |AsWrittenJoins(reg, entity, tree, parent, aliases).value| == |tree|
  {
    if tree != [] {
      AsWrittenJoinsLength(reg, entity, tree[..|tree| - 1], parent, aliases);
    }
  }

  /** When addJoins as written succeeds, the i-th join is the i-th entry's, with alias
      `aliases(i)`. */
  lemma {:induction false} AsWrittenJoinAt(reg: Registry, entity: string, tree: seq<Entry>, parent: string, aliases: nat -> string, i: nat)
    requires AsWrittenJoins(reg, entity, tree, parent, aliases).Ok? && i < |tree|
    ensures FindRelation(EntityRelations(reg, entity), tree[i].key).Some?
    ensures var joins := AsWrittenJoins(reg, entity, tree, parent, aliases).value;
            i < |joins| && joins[i] == EntryJoin(reg, entity, tree[i], parent, aliases(i))
  {
    var m := |tree| - 1;
    var prefix := tree[..m];
    var pr := AsWrittenJoins(reg, entity, prefix, parent, aliases);
    var last := AsWrittenEntry(reg, entity, tree[m], parent, aliases(m));
    assert pr.Ok? && last.Ok?;
    AsWrittenEntrySpec(reg, entity, tree[m], parent, aliases(m));
    assert AsWrittenJoins(reg, entity, tree, parent, aliases).value == pr.value + [last.value];
    AsWrittenJoinsLength(reg, entity, prefix, parent, aliases);
    if i < m {
      assert prefix[i] == tree[i];
      AsWrittenJoinAt(reg, entity, prefix, parent, aliases, i);
    }
  }

  /** The number of joins a tree calls for: one per entry at every depth. */
  function TreeSize(tree: seq<Entry>): nat
    decreases tree
  {
    if tree == [] then 0 else EntrySize(tree[0]) + TreeSize(tree[1..])
  }

  function EntrySize(entry: Entry): nat
    decreases entry
  {
    1 + if entry.spec.relations.Some? then TreeSize(entry.spec.relations.value.entries) else 0
  }

  /** Every key, at every depth, names a relation of the entity it hangs off. */
  predicate ValidTree(reg: Registry, entity: string, tree: seq<Entry>)
    decreases tree
  {
    tree == [] || (ValidEntry(reg, entity, tree[0]) && ValidTree(reg, entity, tree[1..]))
  }

  predicate ValidEntry(reg: Registry, entity: string, entry: Entry)
    decreases entry
  {
    var found := FindRelation(EntityRelations(reg, entity), entry.key);
    && found.Some?
    && (entry.spec.relations.Some? ==> ValidTree(reg, found.value.target, entry.spec.relations.value.entries))
  }

  /** The join plan addJoins evidently means to emit: depth first, each entry's join
      followed by the joins of its nested relations, which hang off that entry's alias and
      are looked up on the related entity. Aliases are drawn from `aliases` from `next` on. */
  function JoinPlan(reg: Registry, entity: string, tree: seq<Entry>, parent: string, aliases: nat -> string, next: nat): Result<seq<Join>>
    decreases tree
  {
    if tree == [] then Ok([])
    else
      match EntryPlan(reg, entity, tree[0], parent, aliases, next)
      case Err(e) => Err(e)
      case Ok(js) =>
        match JoinPlan(reg, entity, tree[1..], parent, aliases, next + |js|)
        case Err(e) => Err(e)
        case Ok(rest) => Ok(js + rest)
  }

  /** The joins of one entry: its own join, then those of its nested relations. */
  function EntryPlan(reg: Registry, entity: string, entry: Entry, parent: string, aliases: nat -> string, next: nat): Result<seq<Join>>
    decreases entry
  {
    match FindRelation(EntityRelations(reg, entity), entry.key)
    case None => Err(MissingRelationMeta)
    case Some(rel) =>
      var head := JoinFor(rel, entry.spec, parent, aliases(next));
      if entry.spec.relations.None? then Ok([head])
      else
        match JoinPlan(reg, rel.target, entry.spec.relations.value.entries, head.alias, aliases, next + 1)
        case Err(e) => Err(e)
        case Ok(inner) => Ok([head] + inner)
  }

  /** The aliases of the joins, in order. */
  function Aliases(joins: seq<Join>): (r: seq<string>)
    ensures |r| == |joins|
    ensures forall i :: 0 <= i < |joins| ==> r[i] == joins[i].alias
  {
    if joins == [] then [] else [joins[0].alias] + Aliases(joins[1..])
  }

  /** Every join hangs off the root or off a join emitted before it. */
  predicate Scoped(joins: seq<Join>, parent: string) {
    forall i :: 0 <= i < |joins| ==> joins[i].parent == parent || joins[i].parent in Aliases(joins[..i])
  }

  /** The corrected plan succeeds exactly on a valid tree. */
  lemma {:induction false} JoinPlanOk(reg: Registry, entity: string, tree: seq<Entry>, parent: string, aliases: nat -> string, next: nat)
    decreases tree
    ensures JoinPlan(reg, entity, tree, parent, aliases, next).Ok? <==> ValidTree(reg, entity, tree)
  {
    if tree != [] {
      EntryPlanOk(reg, entity, tree[0], parent, aliases, next);
      var e := EntryPlan(reg, entity, tree[0], parent, aliases, next);
      if e.Ok? {
        JoinPlanOk(reg, entity, tree[1..], parent, aliases, next + |e.value|);
      }
    }
  }

  lemma {:induction false} EntryPlanOk(reg: Registry, entity: string, entry: Entry, parent: string, aliases: nat -> string, next: nat)
    decreases entry
    ensures EntryPlan(reg, entity, entry, parent, aliases, next).Ok? <==> ValidEntry(reg, entity, entry)
  {
    var found := FindRelation(EntityRelations(reg, entity), entry.key);
    if found.Some? && entry.spec.relations.Some? {
      JoinPlanOk(reg, found.value.target, entry.spec.relations.value.entries, aliases(next), aliases, next + 1);
    }
  }

  /** A successful plan emits one join per entry at every depth. */
  lemma {:induction false} JoinPlanLength(reg: Registry, entity: string, tree: seq<Entry>, parent: string, aliases: nat -> string, next: nat)
    decreases tree
    requires JoinPlan(reg, entity, tree, parent, aliases, next).Ok?
    ensures |JoinPlan(reg, entity, tree, parent, aliases, next).value| == TreeSize(tree)
  {
    if tree != [] {
      var js := EntryPlan(reg, entity, tree[0], parent, aliases, next).value;
      EntryPlanLength(reg, entity, tree[0], parent, aliases, next);
      JoinPlanLength(reg, entity, tree[1..], parent, aliases, next + |js|);
    }
  }

  lemma {:induction false} EntryPlanLength(reg: Registry, entity: string, entry: Entry, parent: string, aliases: nat -> string, next: nat)
    decreases entry
    requires EntryPlan(reg, entity, entry, parent, aliases, next).Ok?
    ensures |EntryPlan(reg, entity, entry, parent, aliases, next).value| == EntrySize(entry)
  {
    var rel := FindRelation(EntityRelations(reg, entity), entry.key).value;
    if entry.spec.relations.Some? {
      JoinPlanLength(reg, rel.target, entry.spec.relations.value.entries, aliases(next), aliases, next + 1);
    }
  }

  /** A successful plan draws consecutive aliases from `aliases(next)` on. */
  lemma {:induction false} JoinPlanAliases(reg: Registry, entity: string, tree: seq<Entry>, parent: string, aliases: nat -> string, next: nat)
    decreases tree
    requires JoinPlan(reg, entity, tree, parent, aliases, next).Ok?
    ensures var joins := JoinPlan(reg, entity, tree, parent, aliases, next).value;
            forall i :: 0 <= i < |joins| ==> joins[i].alias == aliases(next + i)
  {
    if tree != [] {
      var js := EntryPlan(reg, entity, tree[0], parent, aliases, next).value;
      var rest := JoinPlan(reg, entity, tree[1..], parent, aliases, next + |js|).value;
      EntryPlanAliases(reg, entity, tree[0], parent, aliases, next);
      JoinPlanAliases(reg, entity, tree[1..], parent, aliases, next + |js|);
      AliasesFrom(js, rest, aliases, next);
      assert JoinPlan(reg, entity, tree, parent, aliases, next).value == js + rest;
    }
  }

  lemma {:induction false} EntryPlanAliases(reg: Registry, entity: string, entry: Entry, parent: string, aliases: nat -> string, next: nat)
    decreases entry
    requires EntryPlan(reg, entity, entry, parent, aliases, next).Ok?
    ensures var joins := EntryPlan(reg, entity, entry, parent, aliases, next).value;
            forall i :: 0 <= i < |joins| ==> joins[i].alias == aliases(next + i)
  {
    var rel := FindRelation(EntityRelations(reg, entity), entry.key).value;
    var head := JoinFor(rel, entry.spec, parent, aliases(next));
    if entry.spec.relations.Some? {
      var sub := entry.spec.relations.value.entries;
      var inner := JoinPlan(reg, rel.target, sub, head.alias, aliases, next + 1).value;
      JoinPlanAliases(reg, rel.target, sub, head.alias, aliases, next + 1);
      AliasesFrom([head], inner, aliases, next);
      assert EntryPlan(reg, entity, entry, parent, aliases, next).value == [head] + inner;
    }
  }

  /** A successful plan only ever joins off the root or an alias already in the query. */
  lemma {:induction false} JoinPlanScoped(reg: Registry, entity: string, tree: seq<Entry>, parent: string, aliases: nat -> string, next: nat)
    decreases tree
    requires JoinPlan(reg, entity, tree, parent, aliases, next).Ok?
    ensures Scoped(JoinPlan(reg, entity, tree, parent, aliases, next).value, parent)
  {
    if tree != [] {
      var js := EntryPlan(reg, entity, tree[0], parent, aliases, next).value;
      var rest := JoinPlan(reg, entity, tree[1..], parent, aliases, next + |js|).value;
      EntryPlanScoped(reg, entity, tree[0], parent, aliases, next);
      JoinPlanScoped(reg, entity, tree[1..], parent, aliases, next + |js|);
      ScopedAppend(js, rest, parent);
      assert JoinPlan(reg, entity, tree, parent, aliases, next).value == js + rest;
    }
  }

  lemma {:induction false} EntryPlanScoped(reg: Registry, entity: string, entry: Entry, parent: string, aliases: nat -> string, next: nat)
    decreases entry
    requires EntryPlan(reg, entity, entry, parent, aliases, next).Ok?
    ensures Scoped(EntryPlan(reg, entity, entry, parent, aliases, next).value, parent)
  {
    var rel := FindRelation(EntityRelations(reg, entity), entry.key).value;
    var head := JoinFor(rel, entry.spec, parent, aliases(next));
    JoinForSpec(rel, entry.spec, parent, aliases(next));
    if entry.spec.relations.Some? {
      var sub := entry.spec.relations.value.entries;
      var inner := JoinPlan(reg, rel.target, sub, head.alias, aliases, next + 1).value;
      JoinPlanScoped(reg, rel.target, sub, head.alias, aliases, next + 1);
      ScopedCons(head, inner, parent);
      assert EntryPlan(reg, entity, entry, parent, aliases, next).value == [head] + inner;
    } else {
      assert Aliases([head][..0]) == [];
    }
  }

  /** A successful plan emits one join per entry at every depth, with consecutive aliases
      from `aliases(next)` on, and only ever joins off the root or an alias already in the
      query. */
  lemma JoinPlanSpec(reg: Registry, entity: string, tree: seq<Entry>, parent: string, aliases: nat -> string, next: nat)
    requires JoinPlan(reg, entity, tree, parent, aliases, next).Ok?
    ensures |JoinPlan(reg, entity, tree, parent, aliases, next).value| == TreeSize(tree)
    ensures forall i :: 0 <= i < |JoinPlan(reg, entity, tree, parent, aliases, next).value| ==>
              JoinPlan(reg, entity, tree, parent, aliases, next).value[i].alias == aliases(next + i)
    ensures Scoped(JoinPlan(reg, entity, tree, parent, aliases, next).value, parent)
  {
    JoinPlanLength(reg, entity, tree, parent, aliases, next);
    JoinPlanAliases(reg, entity, tree, parent, aliases, next);
    JoinPlanScoped(reg, entity, tree, parent, aliases, next);
  }

  /** Two runs of consecutive aliases, the second starting where the first stops. */
  lemma AliasesFrom(a: seq<Join>, b: seq<Join>, aliases: nat -> string, next: nat)
    requires forall i :: 0 <= i < |a| ==> a[i].alias == aliases(next + i)
    requires forall i :: 0 <= i < |b| ==> b[i].alias == aliases(next + |a| + i)
    ensures forall i :: 0 <= i < |a + b| ==> (a + b)[i].alias == aliases(next + i)
  {
    forall i | 0 <= i < |a + b| ensures (a + b)[i].alias == aliases(next + i) {
      if i >= |a| { assert (a + b)[i] == b[i - |a|]; }
    }
  }

  /** A join off the root followed by joins scoped under it is scoped under the root. */
  lemma ScopedCons(head: Join, inner: seq<Join>, parent: string)
    requires head.parent == parent && Scoped(inner, head.alias)
    ensures Scoped([head] + inner, parent)
  {
    var js := [head] + inner;
    forall i | 0 < i < |js| ensures js[i].parent == parent || js[i].parent in Aliases(js[..i]) {
      assert js[i] == inner[i - 1];
      assert js[..i] == [head] + inner[..i - 1];
      assert Aliases(js[..i]) == [head.alias] + Aliases(inner[..i - 1]);
    }
  }

  /** Two runs of joins scoped under the root, one after the other. */
  lemma ScopedAppend(a: seq<Join>, b: seq<Join>, parent: string)
    requires Scoped(a, parent) && Scoped(b, parent)
    ensures Scoped(a + b, parent)
  {
    var js := a + b;
    forall i | |a| <= i < |js| ensures js[i].parent == parent || js[i].parent in Aliases(js[..i]) {
      var j := i - |a|;
      assert js[i] == b[j];
      assert js[..i] == a + b[..j];
      AliasesConcat(a, b[..j]);
    }
    forall i | 0 <= i < |a| ensures js[..i] == a[..i] { }
  }

  lemma AliasesConcat(a: seq<Join>, b: seq<Join>)
    ensures Aliases(a + b) == Aliases(a) + Aliases(b)
  {
    assert |Aliases(a + b)| == |Aliases(a) + Aliases(b)|;
    forall i | 0 <= i < |a| + |b| ensures Aliases(a + b)[i] == (Aliases(a) + Aliases(b))[i] {
      if i < |a| { } else { assert (a + b)[i] == b[i - |a|]; }
    }
  }

  /** On a flat tree, the corrected plan is exactly what addJoins emits, so the two differ
      only where the source throws. */
  lemma FlatPlanAgrees(reg: Registry, entity: string, tree: seq<Entry>, parent: string, aliases: nat -> string)
    requires forall i :: 0 <= i < |tree| ==> tree[i].spec.relations.None?
    ensures JoinPlan(reg, entity, tree, parent, aliases, 0) == AsWrittenJoins(reg, entity, tree, parent, aliases)
  {
    if forall i :: 0 <= i < |tree| ==> FlatEntry(reg, entity, tree[i]) {
      AsWrittenJoinsFlat(reg, entity, tree, parent, aliases);
      FlatPlanFlat(reg, entity, tree, parent, aliases, 0);
      FlatJoinsAgree(reg, entity, tree, parent, aliases);
    } else {
      var i :| 0 <= i < |tree| && !FlatEntry(reg, entity, tree[i]);
      AsWrittenJoinsFailAt(reg, entity, tree, parent, aliases, i);
      FlatErr(reg, entity, tree, parent, aliases);
      FlatPlanFailAt(reg, entity, tree, parent, aliases, 0, i);
    }
  }

  lemma FlatJoinsAgree(reg: Registry, entity: string, tree: seq<Entry>, parent: string, aliases: nat -> string)
    requires forall i :: 0 <= i < |tree| ==> tree[i].spec.relations.None?
    requires AsWrittenJoins(reg, entity, tree, parent, aliases).Ok? && JoinPlan(reg, entity, tree, parent, aliases, 0).Ok?
    ensures JoinPlan(reg, entity, tree, parent, aliases, 0).value == AsWrittenJoins(reg, entity, tree, parent, aliases).value
  {
    var a := AsWrittenJoins(reg, entity, tree, parent, aliases).value;
    var p := JoinPlan(reg, entity, tree, parent, aliases, 0).value;
    AsWrittenJoinsLength(reg, entity, tree, parent, aliases);
    FlatPlanLength(reg, entity, tree, parent, aliases, 0);
    assert |p| == |tree| == |a|;
    forall i | 0 <= i < |tree| ensures p[i] == a[i] {
      FlatPlanAt(reg, entity, tree, parent, aliases, 0, i);
      AsWrittenJoinAt(reg, entity, tree, parent, aliases, i);
      assert p[i] == EntryJoin(reg, entity, tree[i], parent, aliases(0 + i));
    }
    assert p == a;
  }

  /** The entries after the first of a tree without nested relations have none either. */
  lemma RestUnnested(tree: seq<Entry>)
    requires tree != [] && forall i :: 0 <= i < |tree| ==> tree[i].spec.relations.None?
    ensures forall i :: 0 <= i < |tree| - 1 ==> tree[1..][i].spec.relations.None?
  {
    forall i | 0 <= i < |tree| - 1 ensures tree[1..][i].spec.relations.None? { assert tree[1..][i] == tree[i + 1]; }
  }

  lemma {:induction false} FlatPlanFlat(reg: Registry, entity: string, tree: seq<Entry>, parent: string, aliases: nat -> string, next: nat)
    requires forall i :: 0 <= i < |tree| ==> FlatEntry(reg, entity, tree[i])
    ensures JoinPlan(reg, entity, tree, parent, aliases, next).Ok?
  {
    if tree != [] {
      var rest := tree[1..];
      forall i | 0 <= i < |rest| ensures FlatEntry(reg, entity, rest[i]) { assert rest[i] == tree[i + 1]; }
      FlatPlanFlat(reg, entity, rest, parent, aliases, next + 1);
      assert FlatEntry(reg, entity, tree[0]);
    }
  }

  lemma {:induction false} FlatPlanFailAt(reg: Registry, entity: string, tree: seq<Entry>, parent: string, aliases: nat -> string, next: nat, i: nat)
    requires forall i :: 0 <= i < |tree| ==> tree[i].spec.relations.None?
    requires i < |tree| && !FlatEntry(reg, entity, tree[i])
    ensures JoinPlan(reg, entity, tree, parent, aliases, next) == Err(MissingRelationMeta)
  {
    if FlatEntry(reg, entity, tree[0]) {
      RestUnnested(tree);
      assert tree[1..][i - 1] == tree[i];
      FlatPlanFailAt(reg, entity, tree[1..], parent, aliases, next + 1, i - 1);
    }
  }

  lemma {:induction false} FlatPlanLength(reg: Registry, entity: string, tree: seq<Entry>, parent: string, aliases: nat -> string, next: nat)
    requires forall i :: 0 <= i < |tree| ==> tree[i].spec.relations.None?
    requires JoinPlan(reg, entity, tree, parent, aliases, next).Ok?
    ensures |JoinPlan(reg, entity, tree, parent, aliases, next).value| == |tree|
  {
    if tree != [] {
      RestUnnested(tree);
      FlatPlanLength(reg, entity, tree[1..], parent, aliases, next + 1);
    }
  }

  lemma {:induction false} FlatPlanAt(reg: Registry, entity: string, tree: seq<Entry>, parent: string, aliases: nat -> string, next: nat, i: nat)
    requires forall i :: 0 <= i < |tree| ==> tree[i].spec.relations.None?
    requires JoinPlan(reg, entity, tree, parent, aliases, next).Ok? && i < |tree|
    ensures FindRelation(EntityRelations(reg, entity), tree[i].key).Some?
    ensures var joins := JoinPlan(reg, entity, tree, parent, aliases, next).value;
            i < |joins| && joins[i] == EntryJoin(reg, entity, tree[i], parent, aliases(next + i))
  {
    var rest := tree[1..];
    var rr := JoinPlan(reg, entity, rest, parent, aliases, next + 1);
    assert FlatEntry(reg, entity, tree[0]);
    var head := EntryJoin(reg, entity, tree[0], parent, aliases(next));
    assert EntryPlan(reg, entity, tree[0], parent, aliases, next) == Ok([head]);
    assert JoinPlan(reg, entity, tree, parent, aliases, next).value == [head] + rr.value;
    if i > 0 {
      RestUnnested(tree);
      assert rest[i - 1] == tree[i];
      FlatPlanAt(reg, entity, rest, parent, aliases, next + 1, i - 1);
      assert next + 1 + (i - 1) == next + i;
    }
  }

  lemma {:induction false} FlatErr(reg: Registry, entity: string, tree: seq<Entry>, parent: string, aliases: nat -> string)
    requires forall i :: 0 <= i < |tree| ==> tree[i].spec.relations.None?
    ensures AsWrittenJoins(reg, entity, tree, parent, aliases).Err? ==> AsWrittenJoins(reg, entity, tree, parent, aliases) == Err(MissingRelationMeta)
  {
    if tree != [] {
      var m := |tree| - 1;
      FlatErr(reg, entity, tree[..m], parent, aliases);
    }
  }

  /** A two-level tree: addJoins as written throws on it, the corrected plan joins both
      levels, the nested join hanging off the first join's alias. */
  lemma NestedTreeExample(aliases: nat -> string)
    ensures var reg := ExampleRegistry();
            var tree := [Entry("books", Inclusion(None, Some(Tree([Entry("publisher", Inclusion(None, None))]))))];
            && AsWrittenJoins(reg, "Author", tree, RootAlias, aliases) == Err(SwappedArguments)
            && JoinPlan(reg, "Author", tree, RootAlias, aliases, 0).Ok?
            && |JoinPlan(reg, "Author", tree, RootAlias, aliases, 0).value| == 2
            && JoinPlan(reg, "Author", tree, RootAlias, aliases, 0).value[1].parent == aliases(0)
  {
    var reg := ExampleRegistry();
    var tree := [Entry("books", Inclusion(None, Some(Tree([Entry("publisher", Inclusion(None, None))]))))];
    assert tree[..0] == [];
    assert RelationNames(EntityRelations(reg, "Author")) == ["books"];
    assert RelationNames(EntityRelations(reg, "Book")) == ["publisher"];
  }

  function ExampleRegistry(): Registry {
    var id := Column("id", NumberType, false, true, None, true, true);
    map[
      "Author" := Entity("Author", [id], [Relation("books", OneToMany, "Book", false, false, None)]),
      "Book" := Entity("Book", [id], [Relation("publisher", ManyToOne, "Publisher", false, false, Some(false))]),
      "Publisher" := Entity("Publisher", [id], [])
    ]
  }

  // ---------------------------------------------------------------------------
  // The query

  /** `${alias}.${column}` for each column. */
  function Qualified(alias: string, cols: seq<string>): (r: seq<string>)
    ensures |r| == |cols|
    ensures forall i :: 0 <= i < |cols| ==> r[i] == alias + "." + cols[i]
  {
    if cols == [] then [] else [alias + "." + cols[0]] + Qualified(alias, cols[1..])
  }

  /** The root selection (None: every column) and the joins of a query. */
  datatype Query = Query(select: Option<seq<string>>, joins: seq<Join>)

  /** qr(): the model's columns select the root's columns when there are any, and the
      model's relation tree is joined by the corrected plan. */
  function BuildQuery(svc: Service, aliases: nat -> string): (r: Result<Query>)
    ensures r.Ok? <==> svc.meta.model.relations.None? || ValidTree(svc.reg, svc.EntityName(), svc.meta.model.relations.value)
    ensures r.Ok? ==> (r.value.select.Some? <==> svc.meta.model.columns.Some? && |svc.meta.model.columns.value| > 0)
    ensures r.Ok? && r.value.select.Some? ==> r.value.select.value == Qualified(RootAlias, svc.meta.model.columns.value)
    ensures r.Ok? && svc.meta.model.relations.None? ==> r.value.joins == []
    ensures r.Ok? && svc.meta.model.relations.Some? ==>
            |r.value.joins| == TreeSize(svc.meta.model.relations.value) && Scoped(r.value.joins, RootAlias)
  {
    var model := svc.meta.model;
    var select := if model.columns.Some? && |model.columns.value| > 0 then Some(Qualified(RootAlias, model.columns.value)) else None;
    if model.relations.None? then Ok(Query(select, []))
    else
      JoinPlanOk(svc.reg, svc.EntityName(), model.relations.value, RootAlias, aliases, 0);
      match JoinPlan(svc.reg, svc.EntityName(), model.relations.value, RootAlias, aliases, 0)
      case Err(e) => Err(e)
      case Ok(joins) =>
        JoinPlanSpec(svc.reg, svc.EntityName(), model.relations.value, RootAlias, aliases, 0);
        Ok(Query(select, joins))
  }

  /** Where the query departs from the code as written: on a valid tree with an entry
      that nests relations, the corrected plan builds the query, while addJoins as written
      throws. So do the reads and writes built on the query. */
  lemma BuildQueryDepartsOnNestedTree(svc: Service, aliases: nat -> string, i: nat)
    requires svc.meta.model.relations.Some? && ValidTree(svc.reg, svc.EntityName(), svc.meta.model.relations.value)
    requires i < |svc.meta.model.relations.value| && svc.meta.model.relations.value[i].spec.relations.Some?
    ensures BuildQuery(svc, aliases).Ok?
    ensures AsWrittenJoins(svc.reg, svc.EntityName(), svc.meta.model.relations.value, RootAlias, aliases) == Err(SwappedArguments)
  {
    var tree := svc.meta.model.relations.value;
    AsWrittenJoinsFailAt(svc.reg, svc.EntityName(), tree, RootAlias, aliases, i);
    NestedThrowsSwapped(svc.reg, svc.EntityName(), tree, RootAlias, aliases);
  }

  /** On a valid tree the only throw of addJoins as written is the swapped recursive call. */
  lemma {:induction false} NestedThrowsSwapped(reg: Registry, entity: string, tree: seq<Entry>, parent: string, aliases: nat -> string)
    requires ValidTree(reg, entity, tree)
    ensures AsWrittenJoins(reg, entity, tree, parent, aliases).Err? ==> AsWrittenJoins(reg, entity, tree, parent, aliases).error == SwappedArguments
  {
    if tree != [] {
      var m := |tree| - 1;
      ValidTreeAt(reg, entity, tree, m);
      ValidTreePrefix(reg, entity, tree, m);
      NestedThrowsSwapped(reg, entity, tree[..m], parent, aliases);
    }
  }

  /** Each entry of a valid tree is valid. */
  lemma {:induction false} ValidTreeAt(reg: Registry, entity: string, tree: seq<Entry>, i: nat)
    requires ValidTree(reg, entity, tree) && i < |tree|
    ensures ValidEntry(reg, entity, tree[i])
  {
    if i > 0 {
      ValidTreeAt(reg, entity, tree[1..], i - 1);
    }
  }

  /** A prefix of a valid tree is valid. */
  lemma {:induction false} ValidTreePrefix(reg: Registry, entity: string, tree: seq<Entry>, n: nat)
    requires ValidTree(reg, entity, tree) && n <= |tree|
    ensures ValidTree(reg, entity, tree[..n])
  {
    if n > 0 {
      ValidTreePrefix(reg, entity, tree[1..], n - 1);
      assert tree[..n] == [tree[0]] + tree[1..][..n - 1];
    }
  }

  // ---------------------------------------------------------------------------
  // Listing

  /** The response of find. `total` and `pages` are None where the source leaves them
      undefined. */
  datatype ListResponse = ListResponse(page: int, pageSize: int, total: Option<int>, pages: Option<int>, data: seq<Row>)

  function Min(a: int, b: int): int { if a <= b then a else b }

  /** `Math.ceil(a / b)` on a count and a positive page size. */
  function CeilDiv(a: nat, b: nat): (r: nat)
    requires b > 0
    ensures r * b >= a
    ensures (r - 1) * b < a
  {
    var q := (a + b - 1) / b;
    var m := (a + b - 1) % b;
    assert a + b - 1 == q * b + m && 0 <= m < b;
    assert (q - 1) * b == q * b - b;
    q
  }

  /** The rows a query with `skip` and `take` returns out of `rows`. */
  function Window(rows: seq<Row>, skip: nat, take: nat): (r: seq<Row>)
    ensures |r| <= take
    ensures skip >= |rows| ==> r == []
    ensures skip < |rows| ==> |r| == Min(take, |rows| - skip)
    ensures forall i :: 0 <= i < |r| ==> skip + i < |rows| && r[i] == rows[skip + i]
  {
    if skip >= |rows| then [] else rows[skip..Min(skip + take, |rows|)]
  }

  /** The response of find over the rows the query matches. With a page, it takes
      `pageSize` rows after skipping `pageSize * (page - 1)`, and counts only when asked. */
  function Paginate(page: Option<int>, pageSize: int, count: bool, matching: seq<Row>): ListResponse
    requires page.Some? ==> page.value >= 1 && pageSize >= 1
  {
    if page.None? then ListResponse(1, |matching|, Some(|matching|), Some(1), matching)
    else
      var p := page.value;
      var data := Window(matching, pageSize * (p - 1), pageSize);
      ListResponse(
        p,
        Min(pageSize, |data|),
        if count then Some(|matching|) else None,
        if count then Some(CeilDiv(|matching|, pageSize)) else None,
        data)
  }

  /** find: the query must build, then the rows it matches are paginated. */
  function Find(svc: Service, aliases: nat -> string, page: Option<int>, pageSize: int, count: bool, matching: seq<Row>): (r: Result<ListResponse>)
    requires page.Some? ==> page.value >= 1 && pageSize >= 1
    ensures r.Ok? <==> BuildQuery(svc, aliases).Ok?
    ensures r.Ok? ==> r.value == Paginate(page, pageSize, count, matching)
  {
    match BuildQuery(svc, aliases)
    case Err(e) => Err(e)
    case Ok(_) => Ok(Paginate(page, pageSize, count, matching))
  }

  /** Without a page: page 1 of 1, holding every matching row. */
  lemma UnpagedList(pageSize: int, count: bool, matching: seq<Row>)
    ensures var r := Paginate(None, pageSize, count, matching);
            r.page == 1 && r.pages == Some(1) && r.total == Some(|matching|) && r.pageSize == |matching| && r.data == matching
  {
  }

  /** With a page: the rows from `pageSize * (page - 1)` on, at most `pageSize` of them, in
      order; the reported page size is the number of rows returned; with `count` the total
      and the page count, without it neither. */
  lemma PagedList(page: int, pageSize: int, count: bool, matching: seq<Row>)
    requires page >= 1 && pageSize >= 1
    ensures var r := Paginate(Some(page), pageSize, count, matching);
            var skip := pageSize * (page - 1);
            && r.page == page
            && |r.data| <= pageSize
            && r.pageSize == |r.data|
            && (forall i :: 0 <= i < |r.data| ==> r.data[i] == matching[skip + i])
            && (skip < |matching| ==> |r.data| == Min(pageSize, |matching| - skip))
            && (count ==> r.total == Some(|matching|) && r.pages.Some? && r.pages.value * pageSize >= |matching| > (r.pages.value - 1) * pageSize)
            && (!count ==> r.total.None? && r.pages.None?)
  {
    assert pageSize * (page - 1) >= 0 by { MulNonNegative(pageSize, page - 1); }
  }

  lemma MulNonNegative(a: int, b: int)
    requires a >= 0 && b >= 0
    ensures a * b >= 0
  {
  }

  lemma {:induction false} MulMonotone(a: int, b: int, c: int)
    requires a <= b && c >= 0
    ensures a * c <= b * c
  {
    assert b * c - a * c == (b - a) * c;
    MulNonNegative(b - a, c);
  }

  /** With counting, `pages` is exactly the number of non-empty pages: a page holds rows
      iff its number is at most `pages`. */
  lemma PagesCountsNonEmptyPages(page: int, pageSize: int, matching: seq<Row>)
    requires page >= 1 && pageSize >= 1
    ensures var r := Paginate(Some(page), pageSize, true, matching);
            r.pages.Some? && (|r.data| > 0 <==> page <= r.pages.value)
  {
    var n := CeilDiv(|matching|, pageSize);
    var skip := pageSize * (page - 1);
    MulNonNegative(pageSize, page - 1);
    assert skip == (page - 1) * pageSize;
    if page <= n {
      MulMonotone(page - 1, n - 1, pageSize);
    } else {
      MulMonotone(n, page - 1, pageSize);
    }
  }

  /** Twelve matching rows, page 2 of size 5, counted: rows 5 to 9, a total of 12 and
      three pages. */
  lemma SecondPageOfTwelve(matching: seq<Row>)
    requires |matching| == 12
    ensures Paginate(Some(2), 5, true, matching) == ListResponse(2, 5, Some(12), Some(3), matching[5..10])
  {
    assert CeilDiv(12, 5) == 3;
  }

  // ---------------------------------------------------------------------------
  // Lookup by primary key

  /** findOne: composite (or missing) primary keys are not implemented; otherwise the
      query must build, and the live row with this id is found if there is one. */
  function FindOne(svc: Service, store: Store, id: Value, aliases: nat -> string): (r: Result<Option<Row>>)
    ensures |PrimaryColumns(svc.Columns())| != 1 ==> r == Err(NotImplemented)
    ensures |PrimaryColumns(svc.Columns())| == 1 && BuildQuery(svc, aliases).Err? ==> r == Err(BuildQuery(svc, aliases).error)
    ensures |PrimaryColumns(svc.Columns())| == 1 && BuildQuery(svc, aliases).Ok? ==>
            r.Ok? && (r.value.Some? <==> Live(store, svc.EntityName(), id))
    ensures r.Ok? && r.value.Some? ==> r.value.value == store[svc.EntityName()].rows[id]
  {
    if |PrimaryColumns(svc.Columns())| != 1 then Err(NotImplemented)
    else
      match BuildQuery(svc, aliases)
      case Err(e) => Err(e)
      case Ok(_) =>
        if Live(store, svc.EntityName(), id) then Ok(Some(store[svc.EntityName()].rows[id])) else Ok(None)
  }

  /** The name of the (single) primary column. */
  function PrimaryKey(svc: Service): string
    requires |PrimaryColumns(svc.Columns())| == 1
  {
    PrimaryColumns(svc.Columns())[0].name
  }

  /** findOrFail: findOne's errors, NotFound naming the entity and the id when no row
      matches, and otherwise the row narrowed to its primary key. */
  function FindOrFail(svc: Service, store: Store, id: Value, aliases: nat -> string): (r: Result<Row>)
    ensures FindOne(svc, store, id, aliases).Err? ==> r == Err(FindOne(svc, store, id, aliases).error)
    ensures FindOne(svc, store, id, aliases) == Ok(None) ==> r == Err(NotFound(svc.EntityName(), [id]))
    ensures r.Ok? <==> FindOne(svc, store, id, aliases).Ok? && FindOne(svc, store, id, aliases).value.Some?
    ensures r.Ok? ==> Live(store, svc.EntityName(), id) && r.value == map[PrimaryKey(svc) := id]
  {
    match FindOne(svc, store, id, aliases)
    case Err(e) => Err(e)
    case Ok(None) => Err(NotFound(svc.EntityName(), [id]))
    case Ok(Some(_)) => Ok(map[PrimaryKey(svc) := id])
  }

  // ---------------------------------------------------------------------------
  // getRecord

  predicate DistinctValues(s: seq<Value>) {
    forall i, j :: 0 <= i < j < |s| ==> s[i] != s[j]
  }

  /** The ids among `ids` that name live rows, in order. */
  function LiveIds(store: Store, entity: string, ids: seq<Value>): seq<Value>
  {
    if ids == [] then []
    else
      var prev := LiveIds(store, entity, ids[..|ids| - 1]);
      if Live(store, entity, ids[|ids| - 1]) then prev + [ids[|ids| - 1]] else prev
  }

  /** LiveIds keeps exactly the live ids. */
  lemma {:induction false} LiveIdsMembers(store: Store, entity: string, ids: seq<Value>)
    ensures forall x :: x in LiveIds(store, entity, ids) <==> x in ids && Live(store, entity, x)
  {
    if ids != [] {
      var n := |ids| - 1;
      LiveIdsMembers(store, entity, ids[..n]);
      assert ids == ids[..n] + [ids[n]];
    }
  }

  /** LiveIds keeps all the ids when all are live. */
  lemma {:induction false} LiveIdsAllLive(store: Store, entity: string, ids: seq<Value>)
    requires forall i :: 0 <= i < |ids| ==> Live(store, entity, ids[i])
    ensures LiveIds(store, entity, ids) == ids
  {
    if ids != [] {
      var n := |ids| - 1;
      forall i | 0 <= i < n ensures Live(store, entity, ids[..n][i]) { assert ids[..n][i] == ids[i]; }
      LiveIdsAllLive(store, entity, ids[..n]);
      assert ids == ids[..n] + [ids[n]];
    }
  }

  /** LiveIds is never longer than the ids, and shorter when one of them is not live. */
  lemma {:induction false} LiveIdsLength(store: Store, entity: string, ids: seq<Value>)
    ensures |LiveIds(store, entity, ids)| <= |ids|
    ensures |LiveIds(store, entity, ids)| == |ids| ==> forall i :: 0 <= i < |ids| ==> Live(store, entity, ids[i])
  {
    if ids != [] {
      var n := |ids| - 1;
      LiveIdsLength(store, entity, ids[..n]);
      if |LiveIds(store, entity, ids)| == |ids| {
        forall i | 0 <= i < |ids| ensures Live(store, entity, ids[i]) {
          if i < n { assert ids[..n][i] == ids[i]; }
        }
      }
    }
  }

  /** The ids among `ids` with no live row, in order. */
  function MissingIds(store: Store, entity: string, ids: seq<Value>): seq<Value>
  {
    if ids == [] then []
    else (if Live(store, entity, ids[0]) then [] else [ids[0]]) + MissingIds(store, entity, ids[1..])
  }

  /** MissingIds lists exactly the ids without a live row. */
  lemma {:induction false} MissingIdsSpec(store: Store, entity: string, ids: seq<Value>)
    ensures forall x :: x in MissingIds(store, entity, ids) <==> x in ids && !Live(store, entity, x)
  {
    if ids != [] {
      MissingIdsSpec(store, entity, ids[1..]);
      assert ids == [ids[0]] + ids[1..];
    }
  }

  /** The distinct values of `ids`, each at its first occurrence: what a query returns
      once per matching row. */
  function Dedup(ids: seq<Value>): seq<Value>
  {
    if ids == [] then []
    else
      var prev := Dedup(ids[..|ids| - 1]);
      if ids[|ids| - 1] in prev then prev else prev + [ids[|ids| - 1]]
  }

  /** Dedup keeps the same values. */
  lemma {:induction false} DedupMembers(ids: seq<Value>)
    ensures forall x :: x in Dedup(ids) <==> x in ids
  {
    if ids != [] {
      var n := |ids| - 1;
      DedupMembers(ids[..n]);
      assert ids == ids[..n] + [ids[n]];
    }
  }

  /** Dedup keeps every value once. */
  lemma {:induction false} DedupDistinct(ids: seq<Value>)
    ensures DistinctValues(Dedup(ids))
  {
    if ids != [] {
      var n := |ids| - 1;
      var prev := Dedup(ids[..n]);
      DedupDistinct(ids[..n]);
      if ids[n] !in prev {
        var d := prev + [ids[n]];
        forall i, j | 0 <= i < j < |d| ensures d[i] != d[j] {
          if j == |prev| { assert d[i] == prev[i]; }
        }
      }
    }
  }

  /** Dedup of values that are already distinct is the identity. */
  lemma {:induction false} DedupOfDistinct(ids: seq<Value>)
    requires DistinctValues(ids)
    ensures Dedup(ids) == ids
  {
    if ids != [] {
      var n := |ids| - 1;
      assert DistinctValues(ids[..n]) by {
        forall i, j | 0 <= i < j < n ensures ids[..n][i] != ids[..n][j] { assert ids[..n][i] == ids[i] && ids[..n][j] == ids[j]; }
      }
      DedupOfDistinct(ids[..n]);
      assert ids[n] !in ids[..n] by {
        forall i | 0 <= i < n ensures ids[..n][i] != ids[n] { assert ids[..n][i] == ids[i]; }
      }
      assert ids == ids[..n] + [ids[n]];
    }
  }

  /** Dedup is never longer than its input, and shorter when a value repeats. */
  lemma {:induction false} DedupLength(ids: seq<Value>)
    ensures |Dedup(ids)| <= |ids|
    ensures !DistinctValues(ids) ==> |Dedup(ids)| < |ids|
  {
    if ids != [] {
      var n := |ids| - 1;
      DedupLength(ids[..n]);
      if !DistinctValues(ids) && DistinctValues(ids[..n]) {
        var i, j :| 0 <= i < j < |ids| && ids[i] == ids[j];
        assert j == n;
        assert ids[..n][i] == ids[i];
        DedupMembers(ids[..n]);
      }
    }
  }

  /** Each id as a row narrowed to the primary key. */
  function Refs(pk: string, ids: seq<Value>): (r: seq<Value>)
    ensures |r| == |ids|
    ensures forall i :: 0 <= i < |ids| ==> r[i] == Object(map[pk := ids[i]])
  {
    if ids == [] then [] else [Object(map[pk := ids[0]])] + Refs(pk, ids[1..])
  }

  /** The value getRecord stores for a relation a body mentions: null stays null; a
      many-to-many relation takes the rows of all its ids, or fails with NotFound listing the
      ids that have no row; a to-one relation takes the row of its id or fails with NotFound.
      A related entity without a primary column makes the code throw. */
  function Resolve(reg: Registry, store: Store, rel: Relation, needle: Value): Result<Value>
  {
    if needle == Null then Ok(Null)
    else
      var pks := PrimaryColumns(EntityColumns(reg, rel.target));
      if pks == [] then Err(TypeError("the related entity has no primary column"))
      else
        var pk := pks[0].name;
        if rel.cardinality == ManyToMany then
          match needle
          case List(ids) =>
            var found := Dedup(LiveIds(store, rel.target, ids));
            if |found| == |ids| then Ok(List(Refs(pk, found)))
            else Err(NotFound(rel.target, MissingIds(store, rel.target, ids)))
          case _ => Err(QueryFailed)
        else if Live(store, rel.target, needle) then Ok(Object(map[pk := needle]))
        else Err(NotFound(rel.target, [needle]))
  }

  /** What Resolve promises, case by case. */

  /** What getRecord stores for one relation, case by case: null stays null; a to-one
      reference becomes the primary key of a live row or fails with NotFound for that id; a
      many-to-many failure lists exactly the ids without a live row; a many-to-many success
      has one reference per id. */
  lemma ResolveSpec(reg: Registry, store: Store, rel: Relation, needle: Value)
    ensures needle == Null ==> Resolve(reg, store, rel, needle) == Ok(Null)
    ensures needle != Null && PrimaryColumns(EntityColumns(reg, rel.target)) == [] ==>
            Resolve(reg, store, rel, needle).Err? && Resolve(reg, store, rel, needle).error.TypeError?
    ensures needle != Null && rel.cardinality != ManyToMany && PrimaryColumns(EntityColumns(reg, rel.target)) != [] ==>
            Resolve(reg, store, rel, needle) ==
              if Live(store, rel.target, needle)
              then Ok(Object(map[PrimaryColumns(EntityColumns(reg, rel.target))[0].name := needle]))
              else Err(NotFound(rel.target, [needle]))
    ensures var r := Resolve(reg, store, rel, needle);
            rel.cardinality == ManyToMany && r.Err? && r.error.NotFound? ==>
              && needle.List? && r.error.entity == rel.target
              && forall x :: x in r.error.ids <==> x in needle.items && !Live(store, rel.target, x)
    ensures var r := Resolve(reg, store, rel, needle);
            rel.cardinality == ManyToMany && r.Ok? && needle != Null ==>
              needle.List? && r.value.List? && |r.value.items| == |needle.items|
  {
    PrimaryColumnsSpec(EntityColumns(reg, rel.target));
    if needle.List? {
      var live := LiveIds(store, rel.target, needle.items);
      LiveIdsLength(store, rel.target, needle.items);
      DedupLength(live);
      MissingIdsSpec(store, rel.target, needle.items);
    }
  }

  /** With distinct ids, a many-to-many reference resolves exactly when every id has a live
      row, and then to those rows in order. */
  lemma ManyToManyResolvesIffAllFound(reg: Registry, store: Store, rel: Relation, ids: seq<Value>)
    requires rel.cardinality == ManyToMany && PrimaryColumns(EntityColumns(reg, rel.target)) != []
    requires DistinctValues(ids)
    ensures Resolve(reg, store, rel, List(ids)).Ok? <==> forall i :: 0 <= i < |ids| ==> Live(store, rel.target, ids[i])
    ensures Resolve(reg, store, rel, List(ids)).Ok? ==>
            Resolve(reg, store, rel, List(ids)) == Ok(List(Refs(PrimaryColumns(EntityColumns(reg, rel.target))[0].name, ids)))
  {
    var live := LiveIds(store, rel.target, ids);
    LiveIdsLength(store, rel.target, ids);
    DedupLength(live);
    var pk := PrimaryColumns(EntityColumns(reg, rel.target))[0].name;
    assert Resolve(reg, store, rel, List(ids)) ==
      if |Dedup(live)| == |ids| then Ok(List(Refs(pk, Dedup(live))))
      else Err(NotFound(rel.target, MissingIds(store, rel.target, ids)));
    if forall i :: 0 <= i < |ids| ==> Live(store, rel.target, ids[i]) {
      LiveIdsAllLive(store, rel.target, ids);
      DedupOfDistinct(ids);
    } else {
      assert |Dedup(live)| < |ids|;
    }
  }

  /** A repeated id makes the found count fall short of the requested one even when every
      row exists, and the NotFound then lists no id at all. */
  lemma RepeatedIdsFailWithEmptyList(reg: Registry, store: Store, rel: Relation, ids: seq<Value>)
    requires rel.cardinality == ManyToMany && PrimaryColumns(EntityColumns(reg, rel.target)) != []
    requires !DistinctValues(ids)
    requires forall i :: 0 <= i < |ids| ==> Live(store, rel.target, ids[i])
    ensures Resolve(reg, store, rel, List(ids)) == Err(NotFound(rel.target, []))
  {
    LiveIdsAllLive(store, rel.target, ids);
    DedupLength(ids);
    NoneMissing(store, rel.target, ids);
  }

  lemma {:induction false} NoneMissing(store: Store, entity: string, ids: seq<Value>)
    requires forall i :: 0 <= i < |ids| ==> Live(store, entity, ids[i])
    ensures MissingIds(store, entity, ids) == []
  {
    if ids != [] {
      assert forall i :: 0 <= i < |ids| - 1 ==> ids[1..][i] == ids[i + 1];
      NoneMissing(store, entity, ids[1..]);
    }
  }

  /** The property names of the virtual join columns: one per relation owning a foreign
      key, under the relation's own name, in relation order. */
  function JoinColumnNames(rels: seq<Relation>): seq<string>
  {
    if rels == [] then []
    else
      var n := |rels| - 1;
      JoinColumnNames(rels[..n]) + if rels[n].OwnsJoinColumn() then [rels[n].name] else []
  }

  /** A join column carries a relation's name. */
  lemma {:induction false} JoinColumnNamesSub(rels: seq<Relation>)
    ensures forall k :: k in JoinColumnNames(rels) ==> k in RelationNames(rels)
  {
    if rels != [] {
      var n := |rels| - 1;
      JoinColumnNamesSub(rels[..n]);
      assert RelationNames(rels) == RelationNames(rels[..n]) + [rels[n].name];
    }
  }

  /** Among distinct relations, a relation lends its name to a join column exactly when it
      owns a foreign key. */
  lemma {:induction false} JoinColumnNameOf(rels: seq<Relation>, i: nat)
    requires DistinctRelationNames(rels) && i < |rels|
    ensures rels[i].name in JoinColumnNames(rels) <==> rels[i].OwnsJoinColumn()
  {
    var n := |rels| - 1;
    var prefix := rels[..n];
    DistinctPrefix(rels, n);
    if i == n {
      JoinColumnNamesSub(prefix);
      forall j | 0 <= j < n ensures RelationNames(prefix)[j] != rels[n].name { assert prefix[j] == rels[j]; }
    } else {
      JoinColumnNameOf(prefix, i);
    }
  }

  /** The first loop of getRecord: every property name of the column metadata that the
      body holds, copied. */
  function ColumnsRecord(names: seq<string>, dto: Row): Row
  {
    if names == [] then map[]
    else
      var n := |names| - 1;
      var rec := ColumnsRecord(names[..n], dto);
      if names[n] in dto then rec[names[n] := dto[names[n]]] else rec
  }

  /** The relation part of getRecord over the first relations: a relation the body holds
      that declares no inverse is resolved; the first failure is the result. */
  function RelationsRecord(reg: Registry, store: Store, rels: seq<Relation>, dto: Row, base: Row): Result<Row>
  {
    if rels == [] then Ok(base)
    else
      var n := |rels| - 1;
      match RelationsRecord(reg, store, rels[..n], dto, base)
      case Err(e) => Err(e)
      case Ok(rec) =>
        var rel := rels[n];
        if rel.name !in dto || rel.inverse then Ok(rec)
        else
          match Resolve(reg, store, rel, dto[rel.name])
          case Err(e) => Err(e)
          case Ok(v) => Ok(rec[rel.name := v])
  }

  /** The record a request body becomes. */
  function Record(svc: Service, store: Store, dto: Row): Result<Row> {
    RelationsRecord(svc.reg, store, svc.Relations(), dto, ColumnsRecord(svc.MetadataColumnNames(), dto))
  }

  lemma {:induction false} RelationsRecordErrSticks(reg: Registry, store: Store, rels: seq<Relation>, dto: Row, base: Row, n: nat)
    requires n <= |rels| && RelationsRecord(reg, store, rels[..n], dto, base).Err?
    ensures RelationsRecord(reg, store, rels, dto, base) == RelationsRecord(reg, store, rels[..n], dto, base)
  {
    if n < |rels| {
      var m := |rels| - 1;
      assert rels[..m][..n] == rels[..n];
      RelationsRecordErrSticks(reg, store, rels[..m], dto, base, n);
    } else {
      assert rels[..n] == rels;
    }
  }

  /** The first loop of getRecord: the body's value of each listed name it holds. */
  method CopyColumns(columns: seq<string>, dto: Row) returns (record: Row)
    ensures record == ColumnsRecord(columns, dto)
  {
    record := map[];
    for i := 0 to |columns|
      invariant record == ColumnsRecord(columns[..i], dto)
    {
      assert columns[..i + 1][..i] == columns[..i];
      var name := columns[i];
      if name in dto {
        record := record[name := dto[name]];
      }
    }
    assert columns[..|columns|] == columns;
  }

  /** getRecord: a loop copying the body's values of the metadata's columns, then a loop
      resolving relations one at a time. */
  method GetRecord(svc: Service, store: Store, dto: Row) returns (r: Result<Row>)
    ensures r == Record(svc, store, dto)
  {
    var relations := svc.Relations();
    var record := CopyColumns(svc.MetadataColumnNames(), dto);
    var base := record;
    assert Record(svc, store, dto) == RelationsRecord(svc.reg, store, relations, dto, base);
    for i := 0 to |relations|
      invariant RelationsRecord(svc.reg, store, relations[..i], dto, base) == Ok(record)
    {
      assert relations[..i + 1][..i] == relations[..i];
      var rel := relations[i];
      if rel.name in dto && !rel.inverse {
        var resolved := Resolve(svc.reg, store, rel, dto[rel.name]);
        if resolved.Err? {
          assert RelationsRecord(svc.reg, store, relations[..i + 1], dto, base) == Err(resolved.error);
          RelationsRecordErrSticks(svc.reg, store, relations, dto, base, i + 1);
          return Err(resolved.error);
        }
        record := record[rel.name := resolved.value];
      }
    }
    assert relations[..|relations|] == relations;
    return Ok(record);
  }

  /** The columns part of a record holds exactly the listed names the body holds, with
      the body's values. */
  lemma {:induction false} ColumnsRecordKeys(names: seq<string>, dto: Row)
    ensures forall k :: k in ColumnsRecord(names, dto) <==> k in dto && k in names
  {
    if names != [] {
      var n := |names| - 1;
      ColumnsRecordKeys(names[..n], dto);
      assert names == names[..n] + [names[n]];
    }
  }

  lemma {:induction false} ColumnsRecordValues(names: seq<string>, dto: Row)
    ensures forall k :: k in ColumnsRecord(names, dto) ==> k in dto && ColumnsRecord(names, dto)[k] == dto[k]
  {
    if names != [] {
      ColumnsRecordValues(names[..|names| - 1], dto);
    }
  }

  /** The relation loop succeeds exactly when every relation the body holds that declares
      no inverse resolves. */
  lemma {:induction false} RelationsRecordOk(reg: Registry, store: Store, rels: seq<Relation>, dto: Row, base: Row)
    ensures RelationsRecord(reg, store, rels, dto, base).Ok? <==>
            forall i :: 0 <= i < |rels| && rels[i].name in dto && !rels[i].inverse ==> Resolve(reg, store, rels[i], dto[rels[i].name]).Ok?
  {
    if rels != [] {
      var n := |rels| - 1;
      RelationsRecordOk(reg, store, rels[..n], dto, base);
      assert forall i :: 0 <= i < n ==> rels[..n][i] == rels[i];
    }
  }

  /** When the relation loop fails, its error is that of a relation the body holds. */
  lemma {:induction false} RelationsRecordErr(reg: Registry, store: Store, rels: seq<Relation>, dto: Row, base: Row) returns (i: nat)
    requires RelationsRecord(reg, store, rels, dto, base).Err?
    ensures i < |rels| && rels[i].name in dto && !rels[i].inverse
    ensures Resolve(reg, store, rels[i], dto[rels[i].name]) == Err(RelationsRecord(reg, store, rels, dto, base).error)
  {
    var n := |rels| - 1;
    if RelationsRecord(reg, store, rels[..n], dto, base).Err? {
      i := RelationsRecordErr(reg, store, rels[..n], dto, base);
      assert rels[..n][i] == rels[i];
    } else {
      i := n;
    }
  }

  /** A successful relation loop keeps every name of the record it starts from, and the
      value of every name that is no relation's. */
  lemma {:induction false} RelationsRecordKeeps(reg: Registry, store: Store, rels: seq<Relation>, dto: Row, base: Row)
    requires RelationsRecord(reg, store, rels, dto, base).Ok?
    ensures forall k :: k in base ==> k in RelationsRecord(reg, store, rels, dto, base).value
    ensures forall k :: k in base && k !in RelationNames(rels) ==> RelationsRecord(reg, store, rels, dto, base).value[k] == base[k]
  {
    if rels != [] {
      var n := |rels| - 1;
      assert RelationNames(rels) == RelationNames(rels[..n]) + [rels[n].name];
      RelationsRecordKeeps(reg, store, rels[..n], dto, base);
    }
  }

  /** A successful relation loop only adds relation names to the record it starts from. */
  lemma {:induction false} RelationsRecordAdds(reg: Registry, store: Store, rels: seq<Relation>, dto: Row, base: Row)
    requires RelationsRecord(reg, store, rels, dto, base).Ok?
    ensures forall k :: k in RelationsRecord(reg, store, rels, dto, base).value ==> k in base || k in RelationNames(rels)
  {
    if rels != [] {
      var n := |rels| - 1;
      assert RelationNames(rels) == RelationNames(rels[..n]) + [rels[n].name];
      RelationsRecordAdds(reg, store, rels[..n], dto, base);
    }
  }

  /** Before the last of distinct relations, the record holds its name exactly when the
      starting record does, with the same value. */
  lemma RecordLastFromBase(reg: Registry, store: Store, rels: seq<Relation>, dto: Row, base: Row)
    requires rels != [] && DistinctRelationNames(rels)
    requires RelationsRecord(reg, store, rels[..|rels| - 1], dto, base).Ok?
    ensures var rec := RelationsRecord(reg, store, rels[..|rels| - 1], dto, base).value;
            && (rels[|rels| - 1].name in rec <==> rels[|rels| - 1].name in base)
            && (rels[|rels| - 1].name in base ==> rec[rels[|rels| - 1].name] == base[rels[|rels| - 1].name])
  {
    var n := |rels| - 1;
    var prefix := rels[..n];
    RelationsRecordAdds(reg, store, prefix, dto, base);
    RelationsRecordKeeps(reg, store, prefix, dto, base);
    forall i | 0 <= i < n ensures RelationNames(prefix)[i] != rels[n].name {
      assert prefix[i] == rels[i];
    }
  }

  /** Distinct relations stay distinct in a prefix. */
  lemma DistinctPrefix(rels: seq<Relation>, n: nat)
    requires n <= |rels| && DistinctRelationNames(rels)
    ensures DistinctRelationNames(rels[..n])
    ensures forall i :: 0 <= i < n ==> rels[..n][i] == rels[i]
  {
  }

  /** A successful relation loop over distinct relations holds a relation's name exactly
      when the relation is resolved (the body holds it and it declares no inverse) or the
      starting record already holds it. */
  lemma {:induction false} RelationsRecordHolds(reg: Registry, store: Store, rels: seq<Relation>, dto: Row, base: Row)
    requires DistinctRelationNames(rels)
    requires RelationsRecord(reg, store, rels, dto, base).Ok?
    ensures forall i :: 0 <= i < |rels| ==>
              (rels[i].name in RelationsRecord(reg, store, rels, dto, base).value <==>
                 (rels[i].name in dto && !rels[i].inverse) || rels[i].name in base)
  {
    if rels != [] {
      var n := |rels| - 1;
      var prefix := rels[..n];
      DistinctPrefix(rels, n);
      RelationsRecordHolds(reg, store, prefix, dto, base);
      RecordLastFromBase(reg, store, rels, dto, base);
    }
  }

  /** In a successful relation loop over distinct relations, a resolved relation holds its
      resolved value, and any other relation keeps the value of the starting record. */
  lemma {:induction false} RelationsRecordValue(reg: Registry, store: Store, rels: seq<Relation>, dto: Row, base: Row)
    requires DistinctRelationNames(rels)
    requires RelationsRecord(reg, store, rels, dto, base).Ok?
    ensures forall i :: 0 <= i < |rels| && rels[i].name in dto && !rels[i].inverse ==>
              rels[i].name in RelationsRecord(reg, store, rels, dto, base).value &&
              Resolve(reg, store, rels[i], dto[rels[i].name]) == Ok(RelationsRecord(reg, store, rels, dto, base).value[rels[i].name])
    ensures forall i :: 0 <= i < |rels| && !(rels[i].name in dto && !rels[i].inverse) && rels[i].name in base ==>
              rels[i].name in RelationsRecord(reg, store, rels, dto, base).value &&
              RelationsRecord(reg, store, rels, dto, base).value[rels[i].name] == base[rels[i].name]
  {
    if rels != [] {
      var n := |rels| - 1;
      var prefix := rels[..n];
      DistinctPrefix(rels, n);
      RelationsRecordValue(reg, store, prefix, dto, base);
      RelationsRecordHolds(reg, store, prefix, dto, base);
      RecordLastFromBase(reg, store, rels, dto, base);
    }
  }

  /** On a well-formed entity, no relation is named like a declared column, and the columns
      part of a record holds a relation's name exactly when the body holds it and the
      relation owns a foreign key. */
  lemma BaseRelationKeys(svc: Service, dto: Row)
    requires WellFormedRegistry(svc.reg)
    ensures DistinctRelationNames(svc.Relations())
    ensures forall c :: c in svc.Columns() ==> c.name !in RelationNames(svc.Relations())
    ensures forall i :: 0 <= i < |svc.Relations()| ==>
              (svc.Relations()[i].name in ColumnsRecord(svc.MetadataColumnNames(), dto) <==>
                 svc.Relations()[i].name in dto && svc.Relations()[i].OwnsJoinColumn())
  {
    var cols, rels := svc.Columns(), svc.Relations();
    ColumnsRecordKeys(svc.MetadataColumnNames(), dto);
    JoinColumnNamesSub(rels);
    assert WellFormed(Entity(svc.EntityName(), cols, rels)) by {
      if svc.EntityName() in svc.reg { assert WellFormed(svc.reg[svc.EntityName()]); }
    }
    forall c | c in cols ensures c.name !in RelationNames(rels) {
      forall j | 0 <= j < |rels| ensures RelationNames(rels)[j] != c.name { }
    }
    forall i | 0 <= i < |rels| ensures rels[i].name !in ColumnNames(cols) {
      forall j | 0 <= j < |cols| ensures ColumnNames(cols)[j] != rels[i].name { }
    }
    forall i | 0 <= i < |rels| ensures rels[i].name in JoinColumnNames(rels) <==> rels[i].OwnsJoinColumn() {
      JoinColumnNameOf(rels, i);
    }
  }

  /** getRecord fails exactly when a relation the body holds that declares no inverse
      fails to resolve, and then with that relation's error. */
  lemma RecordFails(svc: Service, store: Store, dto: Row)
    ensures Record(svc, store, dto).Ok? <==>
            forall r :: r in svc.Relations() && r.name in dto && !r.inverse ==> Resolve(svc.reg, store, r, dto[r.name]).Ok?
    ensures Record(svc, store, dto).Err? ==>
            exists r :: r in svc.Relations() && r.name in dto && !r.inverse && Resolve(svc.reg, store, r, dto[r.name]) == Err(Record(svc, store, dto).error)
  {
    var rels := svc.Relations();
    var base := ColumnsRecord(svc.MetadataColumnNames(), dto);
    RelationsRecordOk(svc.reg, store, rels, dto, base);
    if Record(svc, store, dto).Err? {
      var i := RelationsRecordErr(svc.reg, store, rels, dto, base);
      assert rels[i] in rels;
    }
  }

  /** getRecord on a well-formed entity:
      - the record holds exactly the declared columns the body holds, with the body's values;
      - it holds a relation exactly when the body holds it and the relation either declares
        no inverse or owns a foreign key;
      - a relation declaring no inverse holds its resolved value;
      - a relation declaring an inverse that owns a foreign key keeps the body's value as
        the column loop copied it through the virtual join column, unresolved;
      - it holds nothing else. */
  lemma RecordSpec(svc: Service, store: Store, dto: Row)
    requires WellFormedRegistry(svc.reg)
    requires Record(svc, store, dto).Ok?
    ensures var row := Record(svc, store, dto).value;
            && (forall c :: c in svc.Columns() ==> (c.name in row <==> c.name in dto))
            && (forall c :: c in svc.Columns() && c.name in dto ==> c.name in row && row[c.name] == dto[c.name])
            && (forall i :: 0 <= i < |svc.Relations()| ==>
                  (svc.Relations()[i].name in row <==>
                     svc.Relations()[i].name in dto && (!svc.Relations()[i].inverse || svc.Relations()[i].OwnsJoinColumn())))
            && (forall i :: 0 <= i < |svc.Relations()| && svc.Relations()[i].name in dto && !svc.Relations()[i].inverse ==>
                  svc.Relations()[i].name in row &&
                  Resolve(svc.reg, store, svc.Relations()[i], dto[svc.Relations()[i].name]) == Ok(row[svc.Relations()[i].name]))
            && (forall i :: 0 <= i < |svc.Relations()| && svc.Relations()[i].name in dto && svc.Relations()[i].inverse && svc.Relations()[i].OwnsJoinColumn() ==>
                  svc.Relations()[i].name in row && row[svc.Relations()[i].name] == dto[svc.Relations()[i].name])
            && (forall k :: k in row ==> k in ColumnNames(svc.Columns()) || k in RelationNames(svc.Relations()))
  {
    var cols, rels := svc.Columns(), svc.Relations();
    var base := ColumnsRecord(svc.MetadataColumnNames(), dto);
    ColumnsRecordKeys(svc.MetadataColumnNames(), dto);
    ColumnsRecordValues(svc.MetadataColumnNames(), dto);
    JoinColumnNamesSub(rels);
    BaseRelationKeys(svc, dto);
    RelationsRecordKeeps(svc.reg, store, rels, dto, base);
    RelationsRecordAdds(svc.reg, store, rels, dto, base);
    RelationsRecordHolds(svc.reg, store, rels, dto, base);
    RelationsRecordValue(svc.reg, store, rels, dto, base);
    var row := Record(svc, store, dto).value;
    forall c | c in cols ensures c.name in svc.MetadataColumnNames() {
      var j :| 0 <= j < |cols| && cols[j] == c;
      assert ColumnNames(cols)[j] == c.name;
    }
  }

  /** A relation that declares an inverse yet owns a foreign key reaches the record as the
      body wrote it: the column loop copies it through the virtual join column, and the
      relation loop skips it. */
  lemma UnresolvedOwningSide(svc: Service, store: Store, dto: Row, i: nat)
    requires WellFormedRegistry(svc.reg)
    requires Record(svc, store, dto).Ok?
    requires i < |svc.Relations()| && svc.Relations()[i].inverse && svc.Relations()[i].OwnsJoinColumn()
    requires svc.Relations()[i].name in dto
    ensures svc.Relations()[i].name in Record(svc, store, dto).value
    ensures Record(svc, store, dto).value[svc.Relations()[i].name] == dto[svc.Relations()[i].name]
  {
    RecordSpec(svc, store, dto);
  }

  // ---------------------------------------------------------------------------
  // Writes

  /** `{ ...row, ...record }`: the record's fields overwrite, the row's others stay. */
  function Merge(row: Row, record: Row): (r: Row)
    ensures r.Keys == row.Keys + record.Keys
    ensures forall k :: k in record ==> r[k] == record[k]
    ensures forall k :: k in row && k !in record ==> r[k] == row[k]
  {
    row + record
  }

  /** createOne: the record of the body is what gets saved; a failing save is an
      InternalServerError. The result is the row handed to the repository. */
  function CreateOne(svc: Service, store: Store, dto: Row, saveFails: bool): (r: Result<Row>)
    ensures Record(svc, store, dto).Err? ==> r == Err(Record(svc, store, dto).error)
    ensures Record(svc, store, dto).Ok? && saveFails ==> r == Err(InternalServerError)
    ensures Record(svc, store, dto).Ok? && !saveFails ==> r == Ok(Record(svc, store, dto).value)
  {
    match Record(svc, store, dto)
    case Err(e) => Err(e)
    case Ok(record) => if saveFails then Err(InternalServerError) else Ok(record)
  }

  /** replaceOne: the row must exist, then the body's record is merged over it and saved. */
  function ReplaceOne(svc: Service, store: Store, id: Value, dto: Row, aliases: nat -> string, saveFails: bool): (r: Result<Row>)
    ensures FindOrFail(svc, store, id, aliases).Err? ==> r == Err(FindOrFail(svc, store, id, aliases).error)
    ensures FindOrFail(svc, store, id, aliases).Ok? && Record(svc, store, dto).Err? ==> r == Err(Record(svc, store, dto).error)
    ensures FindOrFail(svc, store, id, aliases).Ok? && Record(svc, store, dto).Ok? ==>
            r == if saveFails then Err(InternalServerError) else Ok(Merge(FindOrFail(svc, store, id, aliases).value, Record(svc, store, dto).value))
  {
    match FindOrFail(svc, store, id, aliases)
    case Err(e) => Err(e)
    case Ok(row) =>
      match Record(svc, store, dto)
      case Err(e) => Err(e)
      case Ok(record) => if saveFails then Err(InternalServerError) else Ok(Merge(row, record))
  }

  /** What replaceOne saves: the body's columns with the body's values, and the primary key
      of the row found unless the body itself carries that key. */
  lemma ReplaceOneSaves(svc: Service, store: Store, id: Value, dto: Row, aliases: nat -> string)
    requires WellFormedRegistry(svc.reg)
    requires ReplaceOne(svc, store, id, dto, aliases, false).Ok?
    ensures var saved := ReplaceOne(svc, store, id, dto, aliases, false).value;
            && PrimaryKey(svc) in saved
            && saved[PrimaryKey(svc)] == (if PrimaryKey(svc) in dto then dto[PrimaryKey(svc)] else id)
            && forall c :: c in svc.Columns() && c.name in dto ==> c.name in saved && saved[c.name] == dto[c.name]
  {
    RecordSpec(svc, store, dto);
    PrimaryColumnsSpec(svc.Columns());
    var pkc := PrimaryColumns(svc.Columns())[0];
    assert pkc in svc.Columns();
  }

  /** What a delete asks of the repository. */
  datatype Deletion = Deletion(entity: string, id: Value, soft: bool)

  /** deleteOne: the row must exist; then a soft delete iff `soft`, a failing delete being
      an InternalServerError. */
  function DeleteOne(svc: Service, store: Store, id: Value, soft: bool, aliases: nat -> string, deleteFails: bool): (r: Result<Deletion>)
    ensures FindOrFail(svc, store, id, aliases).Err? ==> r == Err(FindOrFail(svc, store, id, aliases).error)
    ensures FindOrFail(svc, store, id, aliases).Ok? ==>
            r == if deleteFails then Err(InternalServerError) else Ok(Deletion(svc.EntityName(), id, soft))
  {
    match FindOrFail(svc, store, id, aliases)
    case Err(e) => Err(e)
    case Ok(_) => if deleteFails then Err(InternalServerError) else Ok(Deletion(svc.EntityName(), id, soft))
  }

  /** The store after a deletion: a soft delete hides the row, a hard one removes it. */
  function ApplyDeletion(store: Store, d: Deletion): Store {
    if d.entity !in store then store
    else
      var t := store[d.entity];
      store[d.entity := if d.soft then Table(t.rows, t.softDeleted + {d.id}) else Table(t.rows - {d.id}, t.softDeleted)]
  }

  /** After a successful delete, soft or hard, the row is no longer found, and every other
      row is found exactly as before. */
  lemma DeletedRowIsNotFound(svc: Service, store: Store, id: Value, soft: bool, aliases: nat -> string)
    requires DeleteOne(svc, store, id, soft, aliases, false).Ok?
    ensures var after := ApplyDeletion(store, DeleteOne(svc, store, id, soft, aliases, false).value);
            && FindOrFail(svc, after, id, aliases) == Err(NotFound(svc.EntityName(), [id]))
            && (forall e, x :: e != svc.EntityName() || x != id ==> (Live(after, e, x) <==> Live(store, e, x)))
  {
  }

  /** checkRelation: an unknown relation is NotFound before anything else; a known one the
      model's relation tree leaves out is Forbidden, but only when the model has a tree. */
  function CheckRelation(svc: Service, relation: string): (r: Result<Relation>)
    ensures relation !in RelationNames(svc.Relations()) ==> r == Err(RelationNotFound(relation))
    ensures relation in RelationNames(svc.Relations()) ==>
            (r == Err(Forbidden) <==> svc.meta.model.relations.Some? && relation !in Keys(svc.meta.model.relations.value))
    ensures r.Err? ==> r.error == RelationNotFound(relation) || r.error == Forbidden
    ensures r.Ok? ==> r.value in svc.Relations() && r.value.name == relation
  {
    FindRelationSpec(svc.Relations(), relation);
    match FindRelation(svc.Relations(), relation)
    case None => Err(RelationNotFound(relation))
    case Some(rel) =>
      if svc.meta.model.relations.Some? && relation !in Keys(svc.meta.model.relations.value) then Err(Forbidden)
      else Ok(rel)
  }

  datatype Change = Add | Remove

  /** What addRelation or deleteRelation asks of the repository. */
  datatype RelationChange = RelationChange(change: Change, entity: string, relation: string, id: Value, relatedId: Value)

  /** The shared body of addRelation and deleteRelation: the row must exist, the relation
      must pass checkRelation, the related row must exist; a failure of the change itself
      is swallowed (None). */
  function UpdateRelation(svc: Service, store: Store, id: Value, relatedId: Value, relation: string, aliases: nat -> string, change: Change, opFails: bool): (r: Result<Option<RelationChange>>)
    ensures FindOrFail(svc, store, id, aliases).Err? ==> r == Err(FindOrFail(svc, store, id, aliases).error)
    ensures FindOrFail(svc, store, id, aliases).Ok? && CheckRelation(svc, relation).Err? ==> r == Err(CheckRelation(svc, relation).error)
    ensures FindOrFail(svc, store, id, aliases).Ok? && CheckRelation(svc, relation).Ok? ==>
            (r.Err? <==> !Live(store, CheckRelation(svc, relation).value.target, relatedId)) &&
            (r.Err? ==> r.error == NotFound(CheckRelation(svc, relation).value.target, [relatedId]))
    ensures r.Ok? ==> (r.value.None? <==> opFails)
    ensures r.Ok? && r.value.Some? ==> r.value.value == RelationChange(change, svc.EntityName(), relation, id, relatedId)
  {
    match FindOrFail(svc, store, id, aliases)
    case Err(e) => Err(e)
    case Ok(_) =>
      match CheckRelation(svc, relation)
      case Err(e) => Err(e)
      case Ok(rel) =>
        if !Live(store, rel.target, relatedId) then Err(NotFound(rel.target, [relatedId]))
        else if opFails then Ok(None)
        else Ok(Some(RelationChange(change, svc.EntityName(), relation, id, relatedId)))
  }

  /** addRelation. */
  function AddRelation(svc: Service, store: Store, id: Value, relatedId: Value, relation: string, aliases: nat -> string, opFails: bool): (r: Result<Option<RelationChange>>)
    ensures r.Ok? <==> FindOrFail(svc, store, id, aliases).Ok? && CheckRelation(svc, relation).Ok? && Live(store, CheckRelation(svc, relation).value.target, relatedId)
    ensures r.Ok? && !opFails ==> r.value == Some(RelationChange(Add, svc.EntityName(), relation, id, relatedId))
  {
    UpdateRelation(svc, store, id, relatedId, relation, aliases, Add, opFails)
  }

  /** deleteRelation. */
  function DeleteRelation(svc: Service, store: Store, id: Value, relatedId: Value, relation: string, aliases: nat -> string, opFails: bool): (r: Result<Option<RelationChange>>)
    ensures r.Ok? <==> FindOrFail(svc, store, id, aliases).Ok? && CheckRelation(svc, relation).Ok? && Live(store, CheckRelation(svc, relation).value.target, relatedId)
    ensures r.Ok? && !opFails ==> r.value == Some(RelationChange(Remove, svc.EntityName(), relation, id, relatedId))
  {
    UpdateRelation(svc, store, id, relatedId, relation, aliases, Remove, opFails)
  }

  /** A failing add or remove never surfaces: the outcome is an error exactly when it
      would be without the failure. */
  lemma RelationFailureSwallowed(svc: Service, store: Store, id: Value, relatedId: Value, relation: string, aliases: nat -> string, change: Change)
    ensures UpdateRelation(svc, store, id, relatedId, relation, aliases, change, true).Ok? <==>
            UpdateRelation(svc, store, id, relatedId, relation, aliases, change, false).Ok?
    ensures UpdateRelation(svc, store, id, relatedId, relation, aliases, change, true).Err? ==>
            UpdateRelation(svc, store, id, relatedId, relation, aliases, change, true) == UpdateRelation(svc, store, id, relatedId, relation, aliases, change, false)
  {
  }
}
