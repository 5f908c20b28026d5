/**
 * A journalled table: a logical "current state" table backed by an
 * append-only journal table that keeps every version of every row. Reads of
 * the logical table are rewritten into a scan of the journal that keeps, per
 * key, the newest version that has no successor; writes are redirected to the
 * journal table unchanged.
 */
module Journalled {
  import opened Wrappers
  import opened Rel
  import opened Builder

  /** A physical JDBC table: where it lives, its type and its columns. */
  datatype JdbcTable = JdbcTable(
    catalogName: string,
    schemaName: string,
    tableName: string,
    tableType: string,
    columns: seq<string>)

  /** Schema-wide configuration: the names of the two versioning columns. */
  datatype JournalledSchema = JournalledSchema(versionField: string, subsequentVersionField: string)

  /** The logical table, registered beside its journal table. */
  datatype JournalledTable = JournalledTable(
    catalogName: string,
    schemaName: string,
    tableName: string,
    tableType: string,
    schema: JournalledSchema,
    journalTable: JdbcTable,
    keyColumnNames: seq<string>)

  /**
   * The constructor: the logical table takes the journal table's catalog,
   * schema and table type, and keeps its own copy of the key columns.
   */
  function NewJournalledTable(
    tableName: string,
    schema: JournalledSchema,
    journalTable: JdbcTable,
    keyColumnNames: seq<string>): (t: JournalledTable)
    ensures t.catalogName == journalTable.catalogName && t.schemaName == journalTable.schemaName
    ensures t.tableType == journalTable.tableType && t.tableName == tableName
    ensures t.journalTable == journalTable && t.schema == schema
    ensures t.keyColumnNames == keyColumnNames
  {
    JournalledTable(journalTable.catalogName, journalTable.schemaName, tableName,
                    journalTable.tableType, schema, journalTable, keyColumnNames)
  }

  /**
   * The qualified name of the journal table, as seen from the logical table's
   * qualified name: same catalog and schema path, the journal's table name last.
   */
  function QualifiedName(logicalName: seq<string>, journalTable: JdbcTable): (names: seq<string>)
    ensures |names| > 0 && names[|names| - 1] == journalTable.tableName
    ensures |logicalName| > 0 ==> names[..|names| - 1] == logicalName[..|logicalName| - 1]
  {
    (if |logicalName| > 0 then logicalName[..|logicalName| - 1] else []) + [journalTable.tableName]
  }

  /** Every column the rewrite looks up by name exists in the journal table. */
  predicate ConfiguredColumnsPresent(t: JournalledTable) {
    var columns := t.journalTable.columns;
    && t.schema.versionField in columns
    && t.schema.subsequentVersionField in columns
    && forall k :: 0 <= k < |t.keyColumnNames| ==> t.keyColumnNames[k] in columns
  }

  /** e references the first column called name among columns. */
  predicate RefersTo(e: Rex, columns: seq<string>, name: string) {
    e.InputRef? && e.index < |columns| && columns[e.index] == name && name !in columns[..e.index]
  }

  /**
   * The shape of the rewritten read: a filter over a projection that appends
   * MAX(version) OVER (PARTITION BY keys, whole partition) after all the
   * journal's columns, over a scan of the journal table.
   */
  predicate IsCurrentView(node: RelNode, t: JournalledTable, logicalName: seq<string>) {
    var columns := t.journalTable.columns;
    var n := |columns|;
    && node.Filter?
    && node.input.Project?
    && node.input.input == Scan(QualifiedName(logicalName, t.journalTable), columns)
    && node.input.names == columns + [DerivedFieldName(n)]
    && |node.input.exprs| == n + 1
    && node.input.exprs[..n] == Identity(n)
    && var over := node.input.exprs[n];
    && over.Over?
    && over.agg == Max
    && over.frame == WholePartition
    && |over.operands| == 1
    && RefersTo(over.operands[0], columns, t.schema.versionField)
    && |over.partitionKeys| == |t.keyColumnNames|
    && (forall k :: 0 <= k < |t.keyColumnNames| ==> RefersTo(over.partitionKeys[k], columns, t.keyColumnNames[k]))
    && node.condition.And?
    && node.condition.left == Equals(over.operands[0], InputRef(n))
    && node.condition.right.IsNull?
    && RefersTo(node.condition.right.operand, columns, t.schema.subsequentVersionField)
  }

  /**
   * The relational expression that replaces a scan of the logical table whose
   * qualified name is logicalName, or the error of the first failed field lookup.
   */
  function CurrentViewPlan(t: JournalledTable, logicalName: seq<string>): (r: Result<RelNode, BuildError>)
    ensures r.Ok? <==> ConfiguredColumnsPresent(t)
    ensures r.Ok? ==> IsCurrentView(r.value, t, logicalName)
    ensures r.Err? ==> r.error.inputFields == t.journalTable.columns
    ensures r.Err? ==> r.error.name !in t.journalTable.columns
    ensures r.Err? ==> r.error.name in [t.schema.versionField, t.schema.subsequentVersionField] + t.keyColumnNames
  {
    var columns := t.journalTable.columns;
    var n := |columns|;
    var version :- ResolveField(columns, t.schema.versionField);
    var subsequent :- ResolveField(columns, t.schema.subsequentVersionField);
    var keys :- ResolveFields(columns, t.keyColumnNames);
    var over := Over(Max, [version], keys, WholePartition);
    var window := Project(Scan(QualifiedName(logicalName, t.journalTable), columns),
                          Identity(n) + [over], columns + [DerivedFieldName(n)]);
    Ok(Rel.Filter(window, And(Equals(version, InputRef(n)), IsNull(subsequent))))
  }

  /** toRel: builds the rewritten read with a RelBuilder, step by step. */
  method ToRel(t: JournalledTable, logicalName: seq<string>) returns (r: Result<RelNode, BuildError>)
    ensures r == CurrentViewPlan(t, logicalName)
  {
    var relBuilder := new RelBuilder();
    // FROM <journal table>
    relBuilder.ScanJdbc(QualifiedName(logicalName, t.journalTable), t.journalTable.columns);
    var versionField :- relBuilder.Field(t.schema.versionField);
    var subsequentVersionField :- relBuilder.Field(t.schema.subsequentVersionField);
    // <max> = MAX(<version>) OVER (PARTITION BY <keys>)
    var partitionKeys :- relBuilder.Fields(t.keyColumnNames);
    var maxVersionField := relBuilder.AppendField(Over(Max, [versionField], partitionKeys, WholePartition));
    // WHERE <version> = <max> AND <subsequent version> IS NULL
    relBuilder.Filter(Equals(versionField, maxVersionField), IsNull(subsequentVersionField));
    var node := relBuilder.Build();
    return Ok(node);
  }

  /** The appended column leaves every journal column at its position and name. */
  lemma {:induction false} AppendedColumnKeepsPositions(t: JournalledTable, logicalName: seq<string>, k: nat)
    requires CurrentViewPlan(t, logicalName).Ok?
    requires k < |t.journalTable.columns|
    ensures var window := CurrentViewPlan(t, logicalName).value.input;
            window.exprs[k] == InputRef(k) && window.names[k] == t.journalTable.columns[k]
            && RowType(window)[|t.journalTable.columns|] == DerivedFieldName(|t.journalTable.columns|)
  {
    var window := CurrentViewPlan(t, logicalName).value.input;
    var n := |t.journalTable.columns|;
    assert window.exprs[..n][k] == Identity(n)[k];
  }

  /**
   * The employees table of the integration test: logical table hr.emps over
   * journal hr.emps_journal keyed by empid. The journal's version columns sit
   * at positions 2 and 3 of six columns; the names of columns 1, 4 and 5 are
   * placeholders, as only their count matters here. So are the journal's
   * catalog ("") and JDBC schema ("hr"): the scanned name is derived from the
   * logical path alone.
   */
  const EmpsJournalColumns: seq<string> :=
    ["empid", "deptno", "version_number", "subsequent_version_number", "name", "salary"]

  lemma EmpsColumnsResolve()
    ensures ResolveField(EmpsJournalColumns, "version_number") == Ok(InputRef(2))
    ensures ResolveField(EmpsJournalColumns, "subsequent_version_number") == Ok(InputRef(3))
    ensures ResolveFields(EmpsJournalColumns, ["empid"]) == Ok([InputRef(0)])
  {
    var columns := EmpsJournalColumns;
    assert columns[0] == "empid" && columns[1] == "deptno" && columns[2] == "version_number";
    assert columns[3] == "subsequent_version_number";
    var keys := ResolveFields(columns, ["empid"]);
    assert keys.Ok? && |keys.value| == 1 && keys.value[0] == InputRef(0);
    assert keys.value == [InputRef(0)];
  }

  lemma EmpsNames()
    ensures QualifiedName(["hr", "emps"], JdbcTable("", "hr", "emps_journal", "TABLE", EmpsJournalColumns))
            == ["hr", "emps_journal"]
    ensures DerivedFieldName(6) == "$f6"
  {
    assert ["hr", "emps"][..1] == ["hr"];
    assert Decimal(6) == "6";
  }

  /** The rewrite of hr.emps: window column $f6 = MAX($2) OVER (PARTITION BY $0), filter $2 = $6 AND $3 IS NULL. */
  lemma EmpsRewrite(t: JournalledTable)
    requires t == NewJournalledTable(
                    "emps", JournalledSchema("version_number", "subsequent_version_number"),
                    JdbcTable("", "hr", "emps_journal", "TABLE", EmpsJournalColumns), ["empid"])
    ensures CurrentViewPlan(t, ["hr", "emps"])
            == Ok(Rel.Filter(
                    Project(Scan(["hr", "emps_journal"], EmpsJournalColumns),
                            Identity(6) + [Over(Max, [InputRef(2)], [InputRef(0)], WholePartition)],
                            EmpsJournalColumns + ["$f6"]),
                    And(Equals(InputRef(2), InputRef(6)), IsNull(InputRef(3)))))
  {
    EmpsColumnsResolve();
    EmpsNames();
  }

  // ---------------------------------------------------------------------------
  // Write redirection

  type ClusterHandle = nat
  type CatalogReaderHandle = nat

  datatype Operation = Insert | Update | Delete | Merge

  /** A table as the planner sees it: its qualified name and the table behind it. */
  datatype RelOptTable = RelOptTable(qualifiedName: seq<string>, table: JdbcTable)

  /** The planner's schema: resolves a qualified name to a table (getTableForMember). */
  type RelOptSchema = map<seq<string>, RelOptTable>

  /** A modification of table by the rows of input. */
  datatype TableModify = TableModify(
    cluster: ClusterHandle,
    table: RelOptTable,
    catalogReader: CatalogReaderHandle,
    input: RelNode,
    operation: Operation,
    updateColumnList: seq<string>,
    sourceExpressionList: seq<Rex>,
    flattened: bool)

  datatype RedirectError = TableNotFound(qualifiedName: seq<string>)

  /** The journal table's own toModificationRel: it modifies the table it is given. */
  function JdbcModificationRel(
    cluster: ClusterHandle, table: RelOptTable, catalogReader: CatalogReaderHandle,
    input: RelNode, operation: Operation, updateColumnList: seq<string>,
    sourceExpressionList: seq<Rex>, flattened: bool): TableModify
  {
    TableModify(cluster, table, catalogReader, input, operation, updateColumnList, sourceExpressionList, flattened)
  }

  /**
   * toModificationRel: the modification of the logical table becomes the same
   * modification of the journal table, found under its qualified name.
   */
  function ToModificationRel(
    t: JournalledTable,
    cluster: ClusterHandle,
    table: RelOptTable,
    relOptSchema: RelOptSchema,
    catalogReader: CatalogReaderHandle,
    input: RelNode,
    operation: Operation,
    updateColumnList: seq<string>,
    sourceExpressionList: seq<Rex>,
    flattened: bool): (r: Result<TableModify, RedirectError>)
    ensures var names := QualifiedName(table.qualifiedName, t.journalTable);
            && (r.Ok? <==> names in relOptSchema)
            && (r.Ok? ==> r.value.table == relOptSchema[names])
            && (r.Err? ==> r.error == TableNotFound(names))
    ensures r.Ok? ==> && r.value.input == input
                      && r.value.operation == operation
                      && r.value.updateColumnList == updateColumnList
                      && r.value.sourceExpressionList == sourceExpressionList
                      && r.value.flattened == flattened
                      && r.value.cluster == cluster
                      && r.value.catalogReader == catalogReader
  {
    var names := QualifiedName(table.qualifiedName, t.journalTable);
    if names !in relOptSchema then Err(TableNotFound(names))
    else
      var relOptJournalTable := relOptSchema[names];
      Ok(JdbcModificationRel(cluster, relOptJournalTable, catalogReader, input, operation,
                             updateColumnList, sourceExpressionList, flattened))
  }

  /** Every table a schema resolves is known under the name it is resolved by. */
  predicate ConsistentSchema(relOptSchema: RelOptSchema) {
    forall names :: names in relOptSchema ==> relOptSchema[names].qualifiedName == names
  }

  /**
   * Reads and writes meet at the same physical table: the redirected write
   * targets the table the rewritten read scans, which is the journal table and
   * not the logical table whenever their names differ.
   */
  lemma RedirectTargetsScannedJournal(
    t: JournalledTable, cluster: ClusterHandle, table: RelOptTable, relOptSchema: RelOptSchema,
    catalogReader: CatalogReaderHandle, input: RelNode, operation: Operation,
    updateColumnList: seq<string>, sourceExpressionList: seq<Rex>, flattened: bool)
    requires ConsistentSchema(relOptSchema)
    requires ToModificationRel(t, cluster, table, relOptSchema, catalogReader, input, operation,
                               updateColumnList, sourceExpressionList, flattened).Ok?
    ensures var target := ToModificationRel(t, cluster, table, relOptSchema, catalogReader, input, operation,
                                            updateColumnList, sourceExpressionList, flattened).value.table;
            && target.qualifiedName[|target.qualifiedName| - 1] == t.journalTable.tableName
            && (CurrentViewPlan(t, table.qualifiedName).Ok? ==>
                  target.qualifiedName == CurrentViewPlan(t, table.qualifiedName).value.input.input.table)
            && (|table.qualifiedName| > 0 ==>
                  (table.qualifiedName[|table.qualifiedName| - 1] != t.journalTable.tableName
                   <==> target.qualifiedName != table.qualifiedName))
  {
  }
}
