/**
 * CREATE TABLE [IF NOT EXISTS] <new> LIKE <old> [WITH ...]: the statement's guard chain
 * over the schema, the copying of indexes and triggers the LIKE options ask for, and the
 * raw statement's name resolution and option set.
 */
module CopyTable {
  import opened Common

  // ---------------------------------------------------------------------------
  // Schema
  // ---------------------------------------------------------------------------

  datatype TableKind = Regular | IndexTable | View

  datatype ReadRepairStrategy = NoReadRepair | BlockingReadRepair

  /** The table parameters apply inspects. */
  datatype Params = Params(readRepair: ReadRepairStrategy, compressionEnabled: bool)

  /**
   * An index or a trigger: its name and the rest of its definition (an index's targets,
   * kind and options; a trigger's class).
   */
  datatype SchemaElement = SchemaElement(name: string, definition: string)

  /**
   * The CQL round trip of one element's definition: toCqlString followed by parseIndex
   * (which rebuilds the kind as CUSTOM or COMPOSITES and keeps options only for a custom
   * index) or by CreateTriggerStatement.parse.
   */
  datatype ElementCql = ElementCql(index: string -> string, trigger: string -> string)

  datatype Table = Table(kind: TableKind, userTypes: set<string>, indexes: seq<SchemaElement>,
                         triggers: seq<SchemaElement>, params: Params, id: nat)

  datatype Keyspace = Keyspace(transientReplicas: bool, tables: map<string, Table>)

  /** Keyspaces by name. */
  type Schema = map<string, Keyspace>

  datatype LikeOption = All | Indexes | Triggers

  /** The bound statement. */
  datatype CopyTableStatement = CopyTableStatement(sourceKeyspace: string, targetKeyspace: string,
                                                   sourceTable: string, targetTable: string,
                                                   ifNotExists: bool, options: set<LikeOption>)

  /**
   * What apply relies on but does not define: the CQL round trip that re-creates the
   * source table under the target name, the statement's WITH attributes applied to the
   * parameters, the new table id, TableMetadata.validate, the uncompressed-tables
   * guardrail, the successive time UUIDs that make copied names unique, and the CQL
   * round trip of each copied index and trigger.
   */
  datatype Env = Env(clone: Table -> Table, alter: Params -> Params, newId: nat,
                     valid: Table -> bool, uncompressedAllowed: bool, uuids: nat -> string,
                     elementCql: ElementCql)

  /** The error apply throws, one per guard. */
  datatype CopyError =
    | SourceKeyspaceMissing
    | SourceTableMissing
    | SourceIsIndex
    | SourceIsView
    | TargetKeyspaceMissing
    | AlreadyExists
    | UserTypesAcrossKeyspaces
    | InvalidTable
    | TransientReadRepair
    | UncompressedDisallowed

  datatype ApplyResult = Applied(schema: Schema) | Rejected(error: CopyError)

  // ---------------------------------------------------------------------------
  // Case-insensitive comparison (String.equalsIgnoreCase over ASCII letters)
  // ---------------------------------------------------------------------------

  function LowerAscii(c: char): char
  {
    if 'A' <= c <= 'Z' then (c as int - 'A' as int + 'a' as int) as char else c
  }

  predicate EqualsIgnoreCase(a: string, b: string)
  {
    |a| == |b| && forall i :: 0 <= i < |a| ==> LowerAscii(a[i]) == LowerAscii(b[i])
  }

  // ---------------------------------------------------------------------------
  // buildIndexesAndTriggers
  // ---------------------------------------------------------------------------

  /** generateRandomName. */
  function GeneratedName(keyspace: string, table: string, name: string, uuid: string): string
  {
    keyspace + "_" + table + "_" + name + uuid
  }

  function CopyName(keyspace: string, table: string, name: string, randomName: bool, uuid: string): string
  {
    if randomName then GeneratedName(keyspace, table, name, uuid) else name
  }

  /**
   * The copies of `elements`, the copy of element i named with the UUID numbered start + i
   * and its definition passed through the round trip `reparse`.
   */
  function CopiedElements(elements: seq<SchemaElement>, keyspace: string, table: string, randomName: bool,
                          uuids: nat -> string, reparse: string -> string, start: nat): seq<SchemaElement>
  {
    if elements == [] then []
    else
      var n := |elements| - 1;
      CopiedElements(elements[..n], keyspace, table, randomName, uuids, reparse, start)
      + [SchemaElement(CopyName(keyspace, table, elements[n].name, randomName, uuids(start + n)), reparse(elements[n].definition))]
  }

  /**
   * One copy per source element, in order, with the definition the round trip gives back;
   * a generated name starts with "<keyspace>_<table>_<original name>".
   */
  lemma {:induction false} CopiedElementsShape(elements: seq<SchemaElement>, keyspace: string, table: string,
                                               randomName: bool, uuids: nat -> string, reparse: string -> string, start: nat)
    ensures var copies := CopiedElements(elements, keyspace, table, randomName, uuids, reparse, start);
            && |copies| == |elements|
            && forall i :: 0 <= i < |elements| ==>
                 && copies[i].definition == reparse(elements[i].definition)
                 && copies[i].name == CopyName(keyspace, table, elements[i].name, randomName, uuids(start + i))
                 && (randomName ==> StartsWith(copies[i].name, keyspace + "_" + table + "_" + elements[i].name))
                 && (!randomName ==> copies[i].name == elements[i].name)
  {
    if elements != [] {
      CopiedElementsShape(elements[..|elements| - 1], keyspace, table, randomName, uuids, reparse, start);
      var copies := CopiedElements(elements, keyspace, table, randomName, uuids, reparse, start);
      forall i | 0 <= i < |elements| && randomName
        ensures StartsWith(copies[i].name, keyspace + "_" + table + "_" + elements[i].name)
      {
        var prefix := keyspace + "_" + table + "_" + elements[i].name;
        assert copies[i].name == prefix + uuids(start + i);
        assert (prefix + uuids(start + i))[..|prefix|] == prefix;
      }
    }
  }

  predicate CopiesIndexes(options: set<LikeOption>)
  {
    Indexes in options || All in options
  }

  predicate CopiesTriggers(options: set<LikeOption>)
  {
    Triggers in options || All in options
  }

  /** The builder's table after buildIndexesAndTriggers. */
  function WithIndexesAndTriggers(t: Table, source: Table, options: set<LikeOption>, keyspace: string, table: string,
                                  randomName: bool, uuids: nat -> string, cql: ElementCql): Table
  {
    var copiedIndexes := if CopiesIndexes(options) then |source.indexes| else 0;
    t.(indexes := if CopiesIndexes(options) then CopiedElements(source.indexes, keyspace, table, randomName, uuids, cql.index, 0) else t.indexes,
       triggers := if CopiesTriggers(options) then CopiedElements(source.triggers, keyspace, table, randomName, uuids, cql.trigger, copiedIndexes) else t.triggers)
  }

  /**
   * Indexes are copied, one per source index, exactly when the options hold INDEXES or ALL,
   * and triggers exactly when they hold TRIGGERS or ALL; otherwise the builder's own are kept.
   */
  lemma IndexesAndTriggersGated(t: Table, source: Table, options: set<LikeOption>, keyspace: string, table: string,
                                randomName: bool, uuids: nat -> string, cql: ElementCql)
    ensures var r := WithIndexesAndTriggers(t, source, options, keyspace, table, randomName, uuids, cql);
            && r.kind == t.kind && r.userTypes == t.userTypes && r.params == t.params && r.id == t.id
            && (!CopiesIndexes(options) ==> r.indexes == t.indexes)
            && (CopiesIndexes(options) ==>
                  |r.indexes| == |source.indexes|
                  && forall i :: 0 <= i < |source.indexes| ==> r.indexes[i].definition == cql.index(source.indexes[i].definition))
            && (!CopiesTriggers(options) ==> r.triggers == t.triggers)
            && (CopiesTriggers(options) ==>
                  |r.triggers| == |source.triggers|
                  && forall i :: 0 <= i < |source.triggers| ==> r.triggers[i].definition == cql.trigger(source.triggers[i].definition))
  {
    var copiedIndexes := if CopiesIndexes(options) then |source.indexes| else 0;
    CopiedElementsShape(source.indexes, keyspace, table, randomName, uuids, cql.index, 0);
    CopiedElementsShape(source.triggers, keyspace, table, randomName, uuids, cql.trigger, copiedIndexes);
  }

  /** TableMetadata.Builder: the indexes and triggers buildIndexesAndTriggers may set. */
  class TableBuilder {
    var indexes: seq<SchemaElement>
    var triggers: seq<SchemaElement>

    constructor (indexes: seq<SchemaElement>, triggers: seq<SchemaElement>)
      ensures this.indexes == indexes && this.triggers == triggers
    {
      this.indexes := indexes;
      this.triggers := triggers;
    }
  }

  /** The loop that copies a list of indexes or triggers, drawing one UUID per element from `start` on. */
  method CopyElements(elements: seq<SchemaElement>, keyspace: string, table: string, randomName: bool,
                      uuids: nat -> string, reparse: string -> string, start: nat) returns (copies: seq<SchemaElement>)
    ensures copies == CopiedElements(elements, keyspace, table, randomName, uuids, reparse, start)
  {
    copies := [];
    var i := 0;
    while i < |elements|
      invariant 0 <= i <= |elements|
      invariant copies == CopiedElements(elements[..i], keyspace, table, randomName, uuids, reparse, start)
    {
      assert elements[..i + 1][..i] == elements[..i];
      var name := if randomName then GeneratedName(keyspace, table, elements[i].name, uuids(start + i)) else elements[i].name;
      copies := copies + [SchemaElement(name, reparse(elements[i].definition))];
      i := i + 1;
    }
    assert elements[..|elements|] == elements;
  }

  /** buildIndexesAndTriggers. */
  method BuildIndexesAndTriggers(statement: CopyTableStatement, builder: TableBuilder, source: Table,
                                 keyspace: string, table: string, randomName: bool, uuids: nat -> string,
                                 cql: ElementCql)
    modifies builder
    ensures var before := Table(source.kind, source.userTypes, old(builder.indexes), old(builder.triggers), source.params, source.id);
            var after := WithIndexesAndTriggers(before, source, statement.options, keyspace, table, randomName, uuids, cql);
            builder.indexes == after.indexes && builder.triggers == after.triggers
  {
    var used := 0;
    if Indexes in statement.options || All in statement.options {
      builder.indexes := CopyElements(source.indexes, keyspace, table, randomName, uuids, cql.index, 0);
      used := |source.indexes|;
    }
    if Triggers in statement.options || All in statement.options {
      builder.triggers := CopyElements(source.triggers, keyspace, table, randomName, uuids, cql.trigger, used);
    }
  }

  // ---------------------------------------------------------------------------
  // apply
  // ---------------------------------------------------------------------------

  /** Whether the user-type guard lets a copy from `source` to `target` keyspace through. */
  predicate UserTypesAllowed(source: string, target: string, userTypes: set<string>, exactKeyspaces: bool)
  {
    userTypes == {} || (if exactKeyspaces then source == target else EqualsIgnoreCase(source, target))
  }

  /** The new table apply builds from the source table. */
  function NewTable(statement: CopyTableStatement, source: Table, env: Env): Table
  {
    var parsed := env.clone(source);
    var built := WithIndexesAndTriggers(parsed, source, statement.options, statement.targetKeyspace, statement.targetTable, true, env.uuids, env.elementCql);
    built.(params := env.alter(built.params), id := env.newId)
  }

  /**
   * apply, with the user-type guard comparing keyspace names exactly when `exactKeyspaces`
   * holds and ignoring case otherwise. A statement applies only once the source table and
   * the target keyspace are found, and keeps the set of keyspaces; a changed schema holds
   * the target table, which it did not before; the user-type rejection happens only for a
   * source table with user types copied to another keyspace.
   */
  function ApplyChecking(statement: CopyTableStatement, schema: Schema, env: Env, exactKeyspaces: bool): (r: ApplyResult)
    ensures r.Applied? ==> SourceAndTargetFound(statement, schema) && r.schema.Keys == schema.Keys
    ensures r.Applied? && r.schema != schema ==>
              && statement.targetTable !in schema[statement.targetKeyspace].tables
              && statement.targetTable in r.schema[statement.targetKeyspace].tables
    ensures r == Rejected(UserTypesAcrossKeyspaces) ==>
              && SourceAndTargetFound(statement, schema)
              && schema[statement.sourceKeyspace].tables[statement.sourceTable].userTypes != {}
              && statement.sourceKeyspace != statement.targetKeyspace
  {
    if statement.sourceKeyspace !in schema then Rejected(SourceKeyspaceMissing)
    else if statement.sourceTable !in schema[statement.sourceKeyspace].tables then Rejected(SourceTableMissing)
    else
      var source := schema[statement.sourceKeyspace].tables[statement.sourceTable];
      if source.kind == IndexTable then Rejected(SourceIsIndex)
      else if source.kind == View then Rejected(SourceIsView)
      else if statement.targetKeyspace !in schema then Rejected(TargetKeyspaceMissing)
      else
        var target := schema[statement.targetKeyspace];
        if statement.targetTable in target.tables then
          if statement.ifNotExists then Applied(schema) else Rejected(AlreadyExists)
        else if !UserTypesAllowed(statement.sourceKeyspace, statement.targetKeyspace, source.userTypes, exactKeyspaces) then
          Rejected(UserTypesAcrossKeyspaces)
        else
          var table := NewTable(statement, source, env);
          if !env.valid(table) then Rejected(InvalidTable)
          else if target.transientReplicas && table.params.readRepair != NoReadRepair then Rejected(TransientReadRepair)
          else if !table.params.compressionEnabled && !env.uncompressedAllowed then Rejected(UncompressedDisallowed)
          else Applied(schema[statement.targetKeyspace := target.(tables := target.tables[statement.targetTable := table])])
  }

  /** apply as written: the user-type guard compares keyspace names ignoring case. */
  function ApplyAsWritten(statement: CopyTableStatement, schema: Schema, env: Env): ApplyResult
  {
    ApplyChecking(statement, schema, env, false)
  }

  /**
   * apply with the user-type guard comparing keyspace names exactly, as keyspace lookup
   * does: whatever it accepts, apply as written accepts with the same schema, and it
   * departs from apply as written only by rejecting user types across keyspaces.
   */
  function Apply(statement: CopyTableStatement, schema: Schema, env: Env): (r: ApplyResult)
    ensures r.Applied? ==> ApplyAsWritten(statement, schema, env) == r
    ensures r != ApplyAsWritten(statement, schema, env) ==> r == Rejected(UserTypesAcrossKeyspaces)
  {
    ApplyChecking(statement, schema, env, true)
  }

  /** The five existence and kind guards, each rejecting with its own error, in order, before anything else. */
  lemma GuardOrder(statement: CopyTableStatement, schema: Schema, env: Env, exactKeyspaces: bool)
    ensures var r := ApplyChecking(statement, schema, env, exactKeyspaces);
            var sk := statement.sourceKeyspace;
            var st := statement.sourceTable;
            && (r == Rejected(SourceKeyspaceMissing) <==> sk !in schema)
            && (r == Rejected(SourceTableMissing) <==> sk in schema && st !in schema[sk].tables)
            && (r == Rejected(SourceIsIndex) <==>
                  sk in schema && st in schema[sk].tables && schema[sk].tables[st].kind == IndexTable)
            && (r == Rejected(SourceIsView) <==>
                  sk in schema && st in schema[sk].tables && schema[sk].tables[st].kind == View)
            && (r == Rejected(TargetKeyspaceMissing) <==>
                  sk in schema && st in schema[sk].tables && schema[sk].tables[st].kind == Regular
                  && statement.targetKeyspace !in schema)
  {
  }

  /** Whether the statement passes the five existence and kind guards. */
  predicate SourceAndTargetFound(statement: CopyTableStatement, schema: Schema)
  {
    && statement.sourceKeyspace in schema
    && statement.sourceTable in schema[statement.sourceKeyspace].tables
    && schema[statement.sourceKeyspace].tables[statement.sourceTable].kind == Regular
    && statement.targetKeyspace in schema
  }

  /**
   * An existing target table ends the statement before the user-type and parameter checks:
   * IF NOT EXISTS returns the schema unchanged, and otherwise the table already exists.
   */
  lemma ExistingTarget(statement: CopyTableStatement, schema: Schema, env: Env, exactKeyspaces: bool)
    requires SourceAndTargetFound(statement, schema)
    requires statement.targetTable in schema[statement.targetKeyspace].tables
    ensures ApplyChecking(statement, schema, env, exactKeyspaces)
         == if statement.ifNotExists then Applied(schema) else Rejected(AlreadyExists)
  {
  }

  /**
   * A result that changes the schema adds exactly one table, under the target name in the
   * target keyspace, and leaves every other keyspace and table as it was; the unchanged
   * schema is returned only for IF NOT EXISTS on an existing table.
   */
  lemma AddsExactlyOneTable(statement: CopyTableStatement, schema: Schema, env: Env, exactKeyspaces: bool)
    requires ApplyChecking(statement, schema, env, exactKeyspaces).Applied?
    ensures var after := ApplyChecking(statement, schema, env, exactKeyspaces).schema;
            var tk := statement.targetKeyspace;
            var tt := statement.targetTable;
            && SourceAndTargetFound(statement, schema)
            && (tt in schema[tk].tables ==> statement.ifNotExists && after == schema)
            && (tt !in schema[tk].tables ==>
                  && after.Keys == schema.Keys
                  && (forall k <- schema :: k != tk ==> after[k] == schema[k])
                  && after[tk].transientReplicas == schema[tk].transientReplicas
                  && after[tk].tables.Keys == schema[tk].tables.Keys + {tt}
                  && (forall t <- schema[tk].tables :: after[tk].tables[t] == schema[tk].tables[t])
                  && after[tk].tables[tt] == NewTable(statement, schema[statement.sourceKeyspace].tables[statement.sourceTable], env))
  {
  }

  /**
   * A table that is added passed every later guard: it validates, a keyspace with transient
   * replicas gets it only with read_repair NONE, and an uncompressed one only when the
   * guardrail allows.
   */
  lemma AddedTablePassedGuards(statement: CopyTableStatement, schema: Schema, env: Env, exactKeyspaces: bool)
    requires ApplyChecking(statement, schema, env, exactKeyspaces).Applied?
    requires statement.targetTable !in schema[statement.targetKeyspace].tables
    ensures var source := schema[statement.sourceKeyspace].tables[statement.sourceTable];
            var table := NewTable(statement, source, env);
            && env.valid(table)
            && (schema[statement.targetKeyspace].transientReplicas ==> table.params.readRepair == NoReadRepair)
            && (table.params.compressionEnabled || env.uncompressedAllowed)
            && UserTypesAllowed(statement.sourceKeyspace, statement.targetKeyspace, source.userTypes, exactKeyspaces)
  {
  }

  /** The added table carries the source's indexes and triggers exactly as the LIKE options ask. */
  lemma AddedTableCopiesAsAsked(statement: CopyTableStatement, source: Table, env: Env)
    ensures var table := NewTable(statement, source, env);
            && table.id == env.newId
            && (CopiesIndexes(statement.options) ==>
                  && |table.indexes| == |source.indexes|
                  && forall i :: 0 <= i < |source.indexes| ==>
                       table.indexes[i].definition == env.elementCql.index(source.indexes[i].definition))
            && (!CopiesIndexes(statement.options) ==> table.indexes == env.clone(source).indexes)
            && (CopiesTriggers(statement.options) ==>
                  && |table.triggers| == |source.triggers|
                  && forall i :: 0 <= i < |source.triggers| ==>
                       table.triggers[i].definition == env.elementCql.trigger(source.triggers[i].definition))
            && (!CopiesTriggers(statement.options) ==> table.triggers == env.clone(source).triggers)
  {
    IndexesAndTriggersGated(env.clone(source), source, statement.options, statement.targetKeyspace, statement.targetTable, true, env.uuids, env.elementCql);
  }

  /** With the exact comparison, a table that uses user types is only ever copied within its own keyspace. */
  lemma UserTypesStayInTheirKeyspace(statement: CopyTableStatement, schema: Schema, env: Env)
    requires Apply(statement, schema, env).Applied?
    requires statement.targetTable !in schema[statement.targetKeyspace].tables
    requires schema[statement.sourceKeyspace].tables[statement.sourceTable].userTypes != {}
    ensures statement.sourceKeyspace == statement.targetKeyspace
  {
    AddedTablePassedGuards(statement, schema, env, true);
  }

  /**
   * As written, the guard lets a table with user types be copied from keyspace "ks" into
   * the distinct keyspace "KS" (quoted names are case-sensitive), where its types do not exist.
   */
  lemma UserTypesCrossKeyspacesAsWritten()
    ensures var source := Table(Regular, {"address"}, [], [], Params(NoReadRepair, true), 1);
            var schema := map["ks" := Keyspace(false, map["users" := source]), "KS" := Keyspace(false, map[])];
            var statement := CopyTableStatement("ks", "KS", "users", "users_copy", false, {});
            var env := Env(t => t, p => p, 2, t => true, true, n => "", ElementCql(d => d, d => d));
            && ApplyAsWritten(statement, schema, env).Applied?
            && "users_copy" in ApplyAsWritten(statement, schema, env).schema["KS"].tables
            && Apply(statement, schema, env) == Rejected(UserTypesAcrossKeyspaces)
  {
    var source := Table(Regular, {"address"}, [], [], Params(NoReadRepair, true), 1);
    assert EqualsIgnoreCase("ks", "KS") by {
      assert LowerAscii('K') == 'k' && LowerAscii('S') == 's';
    }
    assert "ks" != "KS" by {
      assert "ks"[0] != "KS"[0];
    }
    assert source.userTypes != {} by {
      assert "address" in source.userTypes;
    }
  }

  // ---------------------------------------------------------------------------
  // Raw
  // ---------------------------------------------------------------------------

  /** A possibly keyspace-qualified table name. */
  datatype QualifiedName = QualifiedName(keyspace: Option<string>, name: string)

  /** The option names CreateLikeOption.valueOf accepts. */
  function OptionName(o: LikeOption): string
  {
    match o
    case All => "ALL"
    case Indexes => "INDEXES"
    case Triggers => "TRIGGERS"
  }

  /** CreateLikeOption.valueOf: the option with exactly this name, if there is one. */
  function ParseOption(name: string): (o: Option<LikeOption>)
    ensures o.Some? <==> name in {"ALL", "INDEXES", "TRIGGERS"}
  {
    if name == "ALL" then Some(All)
    else if name == "INDEXES" then Some(Indexes)
    else if name == "TRIGGERS" then Some(Triggers)
    else None
  }

  /** valueOf is the inverse of the option names: it accepts exactly those and nothing else. */
  lemma ParseOptionInvertsName(name: string, o: LikeOption)
    ensures ParseOption(OptionName(o)) == Some(o)
    ensures ParseOption(name) == Some(o) ==> name == OptionName(o)
  {
  }

  datatype OptionError = EmptyOption | UnknownOption

  datatype OptionsResult = Extended(options: set<LikeOption>) | OptionRejected(error: OptionError)

  /** extendWithLikeOptions on an option set. */
  function ExtendOptions(options: set<LikeOption>, option: string): OptionsResult
  {
    if option == "" then OptionRejected(EmptyOption)
    else match ParseOption(option)
      case None => OptionRejected(UnknownOption)
      case Some(o) => Extended(options + {o})
  }

  /** The options form a set: extending twice with one name is extending once, and nothing is lost. */
  lemma ExtendOptionsIdempotent(options: set<LikeOption>, option: string)
    requires ExtendOptions(options, option).Extended?
    ensures var once := ExtendOptions(options, option).options;
            && ExtendOptions(once, option) == Extended(once)
            && options <= once && |once - options| <= 1
            && ParseOption(option).Some? && ParseOption(option).value in once
  {
    var o := ParseOption(option).value;
    assert ExtendOptions(options, option).options - options <= {o};
  }

  /** CopyTableStatement.Raw. */
  class Raw {
    const oldName: QualifiedName
    const newName: QualifiedName
    const ifNotExists: bool
    var options: set<LikeOption>

    constructor (newName: QualifiedName, oldName: QualifiedName, ifNotExists: bool)
      ensures this.newName == newName && this.oldName == oldName && this.ifNotExists == ifNotExists
      ensures options == {}
    {
      this.newName := newName;
      this.oldName := oldName;
      this.ifNotExists := ifNotExists;
      options := {};
    }

    /**
     * prepare. `sessionKeyspace` is the client's current keyspace; the session has none
     * to offer when it is None, and an unqualified name then cannot be resolved.
     */
    function Prepare(sessionKeyspace: Option<string>): (statement: Option<CopyTableStatement>)
      reads this
      ensures statement.None? <==> sessionKeyspace.None? && (oldName.keyspace.None? || newName.keyspace.None?)
      ensures statement.Some? ==>
                && (oldName.keyspace.Some? ==> statement.value.sourceKeyspace == oldName.keyspace.value)
                && (oldName.keyspace.None? ==> statement.value.sourceKeyspace == sessionKeyspace.value)
                && (newName.keyspace.Some? ==> statement.value.targetKeyspace == newName.keyspace.value)
                && (newName.keyspace.None? ==> statement.value.targetKeyspace == sessionKeyspace.value)
                && statement.value.sourceTable == oldName.name && statement.value.targetTable == newName.name
                && statement.value.ifNotExists == ifNotExists && statement.value.options == options
    {
      if (oldName.keyspace.None? || newName.keyspace.None?) && sessionKeyspace.None? then None
      else
        var oldKeyspace := if oldName.keyspace.Some? then oldName.keyspace.value else sessionKeyspace.value;
        var newKeyspace := if newName.keyspace.Some? then newName.keyspace.value else sessionKeyspace.value;
        Some(CopyTableStatement(oldKeyspace, newKeyspace, oldName.name, newName.name, ifNotExists, options))
    }

    /** extendWithLikeOptions. */
    method ExtendWithLikeOptions(option: string) returns (error: Option<OptionError>)
      modifies this`options
      ensures match ExtendOptions(old(options), option)
        case Extended(next) => error.None? && options == next
        case OptionRejected(e) => error == Some(e) && options == old(options)
    {
      if option == "" {
        return Some(EmptyOption);
      }
      var o := ParseOption(option);
      if o.None? {
        return Some(UnknownOption);
      }
      options := options + {o.value};
      return None;
    }
  }
}
