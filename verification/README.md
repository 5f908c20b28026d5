# Journalled tables: read rewrite and write redirect

A journalled table is a logical table whose rows live in an append-only
journal table. The journal keeps every version of every row. Each journal row
carries the logical table's columns, its key columns, an integer version
number and a subsequent version number. The subsequent version is NULL while
no later version of the row exists.

`JournalledJdbcTable` does two things:

- **Read rewrite (`toRel`).** A scan of the logical table becomes three steps.
  First, a scan of the journal table. Second, an appended column
  `MAX(version) OVER (PARTITION BY <key columns>)`, taken over the whole
  partition. Third, a filter `version = <that column> AND subsequent IS NULL`.
- **Write redirect (`toModificationRel`).** A modification of the logical
  table becomes the same modification of the journal table. The journal table
  is found under its qualified name.

This project models both parts in Dafny and proves properties at two levels:

- **Structure.** The plan that `ToRel` builds with a stack-based `RelBuilder`
  has the fixed shape described above, or `ToRel` fails on the first missing
  field name.
- **Meaning.** A row-level evaluator defines what the plan returns over any
  journal. The main theorem, `Meaning.CurrentViewMeaning`, says the plan
  returns exactly the journal's *current state*, each row followed by the
  appended window value. `Currency` defines the current state independently.
  It keeps the rows whose subsequent version is NULL and whose version is the
  newest for their key. The model keeps them in journal order; SQL promises
  no order, so for the program the statement holds as a multiset of rows.

Modules:

| file | module | contents |
|---|---|---|
| wrappers.dfy | `Wrappers` | `Option` and `Result` |
| rel.dfy | `Rel` | row expressions (`Rex`) and relational nodes (`RelNode`): scan, project, filter, windowed `MAX` |
| builder.dfy | `Builder` | the `RelBuilder` class: a stack of nodes, updated by `ScanJdbc`, `AppendField`, `Filter`, `Build`; field lookup by name (`Field`, `Fields`) |
| journalled.dfy | `Journalled` | the journalled table, `CurrentViewPlan` (the specification of `toRel`), `ToRel` (the builder steps), `ToModificationRel` |
| semantics.dfy | `Semantics` | SQL values with NULL, and evaluation of expressions and plans over a database of rows |
| currency.dfy | `Currency` | the current state of a journal, stated row by row, and its properties |
| meaning.dfy | `Meaning` | the rewritten read evaluates to the current state |

## Model

| member | source | states |
|---|---|---|
| `Builder.FirstIndex` | src/main/java/org/apache/calcite/adapter/jdbc/JournalledJdbcTable.java:54-55 | Lookup by name finds the first column with that name, or nothing exactly when no column has that name |
| `Builder.ResolveField` | src/main/java/org/apache/calcite/adapter/jdbc/JournalledJdbcTable.java:54-55 | A field reference exists exactly when the name is a column of the input. It points at the first column with that name. Otherwise the result is a field-not-found error that names the field and the input's columns |
| `Builder.ResolveFields` | src/main/java/org/apache/calcite/adapter/jdbc/JournalledJdbcTable.java:61 | The key columns resolve, one reference per name in declared order, exactly when every name is a column. Otherwise the error names the first missing key |
| `Builder.RelBuilder.constructor` | src/main/java/org/apache/calcite/adapter/jdbc/JournalledJdbcTable.java:43-46 | A fresh builder has an empty stack |
| `Builder.RelBuilder.ScanJdbc` | src/main/java/org/apache/calcite/adapter/jdbc/JournalledJdbcTable.java:48-52 | Pushes a scan of the named physical table. The scan's columns are the table's columns |
| `Builder.RelBuilder.Field` | src/main/java/org/apache/calcite/adapter/jdbc/JournalledJdbcTable.java:54-55 | Looks a name up, by a loop over the top node's columns, with the same outcome as `ResolveField`. The stack is unchanged |
| `Builder.RelBuilder.Fields` | src/main/java/org/apache/calcite/adapter/jdbc/JournalledJdbcTable.java:61 | Looks each key name up in turn, with the same outcome as `ResolveFields`. Stops at the first failure |
| `Builder.RelBuilder.AppendField` | src/main/java/org/apache/calcite/adapter/jdbc/JournalledJdbcTable.java:58-62 | Replaces the top node by a projection of all its columns in place, followed by the new expression. Returns a reference to the new last column. The rest of the stack is unchanged |
| `Builder.RelBuilder.Filter` | src/main/java/org/apache/calcite/adapter/jdbc/JournalledJdbcTable.java:65-68 | Replaces the top node by a filter on the conjunction of the two predicates |
| `Builder.RelBuilder.Build` | src/main/java/org/apache/calcite/adapter/jdbc/JournalledJdbcTable.java:70 | Pops the top node and returns it |
| `Journalled.NewJournalledTable` | src/main/java/org/apache/calcite/adapter/jdbc/JournalledJdbcTable.java:23-39 | The logical table is registered under the journal table's catalog and schema, with the journal's table type. It keeps the journal table, the schema configuration and the key columns as given. A Dafny sequence is a value, so later changes to the caller's array cannot reach the key list |
| `Journalled.QualifiedName` | src/test/java/org/apache/calcite/adapter/jdbc/JournalledSelectRuleIntegrationTest.java:34 | The journal's qualified name keeps the logical table's path and ends with the journal's table name |
| `Journalled.CurrentViewPlan` | src/main/java/org/apache/calcite/adapter/jdbc/JournalledJdbcTable.java:42-71 | The rewrite succeeds exactly when the version field, the subsequent-version field and every key column are columns of the journal. On success the result is Filter(Project(Scan(journal))). The scan targets the journal's qualified name. The projection keeps every journal column at its position and appends `MAX` over exactly one operand, the version column. The window is partitioned by the key columns in declared order and spans the whole partition. The filter is `version = <appended column> AND subsequent IS NULL`. A failure names a missing configured field |
| `Journalled.ToRel` | src/main/java/org/apache/calcite/adapter/jdbc/JournalledJdbcTable.java:42-71 | Building step by step with the `RelBuilder` (scan, two field lookups, key lookups, append window column, filter, build) yields `CurrentViewPlan`, including its error cases |
| `Journalled.AppendedColumnKeepsPositions` | src/main/java/org/apache/calcite/adapter/jdbc/JournalledJdbcTable.java:54-58 | The window column goes after all journal columns. So the version and subsequent references resolved before it still point at the same columns |
| `Journalled.EmpsRewrite` | src/test/java/org/apache/calcite/adapter/jdbc/JournalledSelectRuleIntegrationTest.java:30-34 | For `hr.emps` over `hr.emps_journal` keyed by `empid`, the plan scans `[hr, emps_journal]`. It appends `$f6 = MAX($2) OVER (PARTITION BY $0)` over the whole partition and filters `AND(=($2, $6), IS NULL($3))` |
| `Journalled.ToModificationRel` | src/main/java/org/apache/calcite/adapter/jdbc/JournalledJdbcTable.java:73-95 | The redirect succeeds exactly when the journal's qualified name resolves in the planner's schema. It then targets the resolved journal table. Input, operation, update columns, source expressions, flattened flag, cluster and catalog reader are handed on to the journal table's `toModificationRel` unchanged. Otherwise the result is a not-found error for that name |
| `Journalled.RedirectTargetsScannedJournal` | src/main/java/org/apache/calcite/adapter/jdbc/JournalledJdbcTable.java:49-51 | Under a schema that resolves every table to its own name, the write target is the journal table that the rewritten read scans. It differs from the logical table exactly when the two table names differ |
| `Semantics.MaxInt` | src/main/java/org/apache/calcite/adapter/jdbc/JournalledJdbcTable.java:57-62 | `MAX` ignores NULLs. It returns the largest integer present and is NULL only when no integer is present |
| `Currency.CurrentState` | src/main/java/org/apache/calcite/adapter/jdbc/JournalledJdbcTable.java:64 | The current state keeps some of the journal rows, each of the journal's width |
| `Currency.CurrentStateMembership` | src/main/java/org/apache/calcite/adapter/jdbc/JournalledJdbcTable.java:64 | A row is in the current state if and only if it is a journal row with a NULL subsequent version and the newest version of its key |
| `Currency.CurrentRowsAreNewest` | src/main/java/org/apache/calcite/adapter/jdbc/JournalledJdbcTable.java:57 | Every current row has a NULL subsequent version. Its version is at least that of every journal row with the same key values |
| `Currency.CurrentStateIsSubsequence` | src/main/java/org/apache/calcite/adapter/jdbc/JournalledJdbcTable.java:65-70 | The current state is a subsequence of the journal: rows are only removed, never created, altered or reordered |
| `Currency.ExactlyOneRowForKey` | src/test/java/org/apache/calcite/adapter/jdbc/JournalledSelectRuleIntegrationTest.java:40-45 | When a key has a single current row, that row appears in the current state and no other row with the key does |
| `Currency.EveryKeyHasCurrentRow` | src/test/java/org/apache/calcite/adapter/jdbc/JournalledSelectRuleIntegrationTest.java:40-45 | Under the currency invariant, every key present in the journal has a row in the current state |
| `Currency.CurrentKeysDistinct` | src/test/java/org/apache/calcite/adapter/jdbc/JournalledSelectRuleIntegrationTest.java:40-45 | Under the currency invariant, no two rows of the current state share a key |
| `Currency.OneRowPerDistinctKey` | src/test/java/org/apache/calcite/adapter/jdbc/JournalledSelectRuleIntegrationTest.java:40-45 | Under the currency invariant, the current state has exactly one row per distinct key in the journal |
| `Meaning.JournalLayout` | src/main/java/org/apache/calcite/adapter/jdbc/JournalledJdbcTable.java:54-61 | The version, subsequent-version and key positions are inside the journal's width and hold the configured column names |
| `Meaning.WholePartitionMax` | src/test/java/org/apache/calcite/adapter/jdbc/JournalledSelectRuleIntegrationTest.java:33 | For a row, the window over the whole partition is the newest integer version among all rows with the same key, before or after it. It is NULL only when no such row has an integer version |
| `Meaning.ConditionSelectsCurrent` | src/main/java/org/apache/calcite/adapter/jdbc/JournalledJdbcTable.java:64-68 | Given that window value, `version = max AND subsequent IS NULL` is TRUE exactly for current rows. It is FALSE or NULL for every other row |
| `Meaning.ProjectAppendsWindow` | src/main/java/org/apache/calcite/adapter/jdbc/JournalledJdbcTable.java:58-62 | The projection keeps every journal row, unchanged, and adds that row's window value at the end |
| `Meaning.RowPassesFilter` | src/main/java/org/apache/calcite/adapter/jdbc/JournalledJdbcTable.java:57-68 | A row passes the filter exactly when it is current. Its appended window value then equals its own version |
| `Meaning.WindowThenFilter` | src/main/java/org/apache/calcite/adapter/jdbc/JournalledJdbcTable.java:57-70 | Over any journal rows, the window and the filter together return the current state, each row followed by its version |
| `Meaning.CurrentViewMeaning` | src/main/java/org/apache/calcite/adapter/jdbc/JournalledJdbcTable.java:42-71 | The rewritten read returns exactly the journal's current state, each row followed by its version (in journal order within the model; as a multiset for SQL, see Left out). This holds over any database whose journal rows have the journal's width |
| `Meaning.ReadReturnsNewestRows` | src/main/java/org/apache/calcite/adapter/jdbc/JournalledJdbcTable.java:57-68 | Every row the rewritten read returns has a NULL subsequent version. Its version is at least that of every journal row sharing its key values. Its last column equals its version |
| `Meaning.ReadOnlyRemovesRows` | src/main/java/org/apache/calcite/adapter/jdbc/JournalledJdbcTable.java:65-70 | Without the appended column, the rows of the rewritten read are a subsequence of the journal rows |
| `Meaning.ReadReturnsOneRowPerKey` | src/test/java/org/apache/calcite/adapter/jdbc/JournalledSelectRuleIntegrationTest.java:40-45 | Under the currency invariant, the rewritten read returns exactly one row per distinct key in the journal: every output key is a journal key, every journal key appears, and no two output rows share a key |
| `Meaning.RunningFrameSeesOnlyEarlierRows` | src/test/java/org/apache/calcite/adapter/jdbc/JournalledSelectRuleIntegrationTest.java:33 | A running frame (UNBOUNDED PRECEDING to CURRENT ROW) over the first row of a two-version journal yields only that row's version |
| `Meaning.RunningFrameKeepsStaleRow` | src/test/java/org/apache/calcite/adapter/jdbc/JournalledSelectRuleIntegrationTest.java:33 | Why the frame spans the whole partition: take an older version whose subsequent version is still NULL. It equals its running maximum, so a running frame would let it through. It does not equal the whole-partition maximum, and it is not current |

## Left out

- The Calcite library is not part of this model. That covers `JdbcRelBuilder`, `RelOptCluster`, `RelOptSchema` and `Prepare.CatalogReader`. The builder is modelled only through the operations used here. Cluster and catalog reader are opaque handles (`ClusterHandle`, `CatalogReaderHandle`). `getTableForMember` is a map from qualified names to tables.
- `JdbcTableUtils.getQualifiedName` is not part of this model. `QualifiedName` assumes it keeps the logical table's path and replaces the last name with the journal's table name. The integration test's plan shows this mapping (`hr.emps` to `[hr, emps_journal]`).
- `appendField`'s implementation is not visible. It is modelled as a projection of all input columns followed by the new expression, named `$f<position>`. The test's plan shows such a projection, with `$f6`.
- `RelBuilder.filter` may simplify its predicates. That simplification is not modelled: the filter is always `AND(p, q)`. `filter` is modelled with exactly two predicates, the number used here.
- Building the `RelBuilder` from the cluster and the table's schema is not modelled. `relBuilderFactory` is a fresh `RelBuilder`.
- The journal table's own `toModificationRel` is not visible. `JdbcModificationRel` stands for that call and records the arguments it receives. What the call does with them is not modelled. So the pass-through clauses of `ToModificationRel` describe what `JournalledJdbcTable` hands on, not what the journal table then does.
- `getTableForMember` returning null for an unknown name is modelled as a `TableNotFound` error. The source would pass null on to the journal table's `toModificationRel`; what that call does with null is not modelled.
- An empty key list is not rejected. A table declared with no key columns gets no error, and the window then spans the whole journal.
- The query-rewriting rule (`JournalledSelectRule`) and its driver (`ForcedRulesProgram`, `SequenceProgram`) are not part of this model. So neither the rule's idempotence nor the splicing of the rewrite into a larger plan is modelled.
- Projection pruning, the outer `CAST` projection, SQL generation and JDBC execution are left out (the test's `planHasSql` and `runs`). They belong to the optimizer and the database.
- The join-and-group-by scenario of the second integration test is left out. The algebra has no join or aggregate node.
- Order of rows is not modelled as SQL has it. Tables and results are sequences in storage order, while SQL results are unordered bags: the rewritten read returns rows in whatever order the database delivers them. So `CurrentViewMeaning`, `ReadOnlyRemovesRows` and `CurrentStateIsSubsequence` state order facts that hold of the model; of the program they hold only as multisets of rows. The running-frame examples (`RunningFrameSeesOnlyEarlierRows`, `RunningFrameKeepsStaleRow`) likewise take storage order in place of an ORDER BY that the SQL lacks.
- SQL values are limited. `MAX` is over integers only: other values in the version column are ignored. Equality and `AND` use SQL's three-valued logic with NULL; casts and SQL types are not modelled. Window frames are modelled only for ROWS frames bounded by UNBOUNDED or CURRENT ROW, without ORDER BY.
- Data-corruption detection is not modelled. Like the source, the model assumes the currency invariant but does not check it. `CurrencyInvariant` is a hypothesis of the one-row-per-key lemmas.
- `Meaning.CurrentViewMeaning` requires that every journal row has one value per journal column. A database whose rows do not match the table's row type is outside the model.
