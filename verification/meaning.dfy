/**
 * What the rewritten read returns: evaluated over any journal, the plan that
 * toRel builds yields exactly the current rows of the journal, each followed by
 * the appended MAX(version) column, which for a current row is its own version.
 */
module Meaning {
  import opened Rel
  import opened Builder
  import opened Semantics
  import opened Currency
  import opened Journalled

  /** The positions of the key, version and subsequent-version columns in the journal table. */
  function JournalLayout(t: JournalledTable): (layout: Layout)
    requires ConfiguredColumnsPresent(t)
    ensures layout.width == |t.journalTable.columns|
    ensures layout.version < layout.width && layout.subsequent < layout.width
    ensures forall k :: 0 <= k < |layout.keys| ==> layout.keys[k] < layout.width
    ensures t.journalTable.columns[layout.version] == t.schema.versionField
    ensures t.journalTable.columns[layout.subsequent] == t.schema.subsequentVersionField
    ensures |layout.keys| == |t.keyColumnNames|
    ensures forall k :: 0 <= k < |layout.keys| ==> t.journalTable.columns[layout.keys[k]] == t.keyColumnNames[k]
  {
    var columns := t.journalTable.columns;
    Layout(|columns|,
           seq(|t.keyColumnNames|, k requires 0 <= k < |t.keyColumnNames| => ResolveField(columns, t.keyColumnNames[k]).value.index),
           ResolveField(columns, t.schema.versionField).value.index,
           ResolveField(columns, t.schema.subsequentVersionField).value.index)
  }

  /** The rows the journal table holds in db, under the name the rewritten read scans. */
  function JournalRows(t: JournalledTable, logicalName: seq<string>, db: Database): seq<Row> {
    var table := QualifiedName(logicalName, t.journalTable);
    if table in db then db[table] else []
  }

  /** The window over the whole partition is the newest integer version among rows with row i's key. */
  lemma {:induction false} WholePartitionMax(rows: seq<Row>, layout: Layout, keyRefs: seq<Rex>, i: nat)
    requires WellFormed(rows, layout) && i < |rows|
    requires |keyRefs| == |layout.keys|
    requires forall k :: 0 <= k < |keyRefs| ==> keyRefs[k] == InputRef(layout.keys[k])
    ensures var w := EvalRex(WindowMax(layout, keyRefs), rows, i);
      && (w.Null? || w.Int?)
      && (rows[i][layout.version].Int? ==> w.Int?)
      && ((exists j :: 0 <= j < |rows| && SameKey(rows, layout, i, j) && rows[j][layout.version].Int?) ==> w.Int?)
      && (w.Int? ==> forall j :: 0 <= j < |rows| && SameKey(rows, layout, i, j) && rows[j][layout.version].Int?
                                 ==> rows[j][layout.version].i <= w.i)
      && (w.Int? ==> exists j :: 0 <= j < |rows| && SameKey(rows, layout, i, j) && rows[j][layout.version] == w)
  {
    var v := layout.version;
    var over := Over(Max, [InputRef(v)], keyRefs, WholePartition);
    var args := seq(|rows|, j requires 0 <= j < |rows| => EvalRex(InputRef(v), rows, j));
    var partition := seq(|keyRefs|, k requires 0 <= k < |keyRefs| => EvalRex(keyRefs[k], rows, i));
    var window := seq(|rows|, j requires 0 <= j < |rows| =>
      InFrame(WholePartition, i, j) && seq(|keyRefs|, k requires 0 <= k < |keyRefs| => EvalRex(keyRefs[k], rows, j)) == partition);
    var selected := Select(args, window);
    var w := EvalRex(over, rows, i);
    assert w == Aggregate(Max, selected);
    forall j | 0 <= j < |rows|
      ensures args[j] == rows[j][v]
      ensures window[j] <==> SameKey(rows, layout, i, j)
    {
      assert seq(|keyRefs|, k requires 0 <= k < |keyRefs| => EvalRex(keyRefs[k], rows, j)) == KeyOf(rows[j], layout.keys);
      assert partition == KeyOf(rows[i], layout.keys);
    }
    forall j | 0 <= j < |rows| && SameKey(rows, layout, i, j)
      ensures args[j] in selected
    {
      SelectMembership(args, window, args[j]);
    }
    if w.Int? {
      SelectMembership(args, window, w);
    }
  }

  /**
   * The filter condition, evaluated on a journal row followed by a window
   * value w that is the newest version among the row's key (or NULL when that
   * key has no integer version), is TRUE exactly when the journal row is current.
   */
  lemma {:induction false} ConditionSelectsCurrent(rows: seq<Row>, layout: Layout, w: Value, widened: seq<Row>, i: nat)
    requires WellFormed(rows, layout) && i < |rows|
    requires w.Null? || w.Int?
    requires rows[i][layout.version].Int? ==> w.Int?
    requires w.Int? ==> forall j :: 0 <= j < |rows| && SameKey(rows, layout, i, j) && rows[j][layout.version].Int?
                                    ==> rows[j][layout.version].i <= w.i
    requires w.Int? ==> exists j :: 0 <= j < |rows| && SameKey(rows, layout, i, j) && rows[j][layout.version] == w
    requires |widened| == |rows|
    requires widened[i] == rows[i] + [w]
    ensures EvalRex(CurrentCondition(layout), widened, i) == Bool(true) <==> IsCurrent(rows, layout, i)
  {
    var n := layout.width;
    assert widened[i][n] == w;
    assert EvalRex(InputRef(layout.version), widened, i) == rows[i][layout.version];
    assert EvalRex(InputRef(n), widened, i) == w;
    assert EvalRex(IsNull(InputRef(layout.subsequent)), widened, i) == Bool(rows[i][layout.subsequent].Null?);
    if IsCurrent(rows, layout, i) {
      assert SameKey(rows, layout, i, i);
    }
  }

  /** Selecting widened rows is widening the selected rows. */
  lemma {:induction false} SelectWidened(rows: seq<Row>, widened: seq<Row>, keep: seq<bool>, column: nat)
    requires |widened| == |rows| == |keep|
    requires forall i :: 0 <= i < |rows| ==> column < |rows[i]|
    requires forall i :: 0 <= i < |rows| && keep[i] ==> widened[i] == rows[i] + [rows[i][column]]
    ensures forall p :: 0 <= p < |Select(rows, keep)| ==> column < |Select(rows, keep)[p]|
    ensures Select(widened, keep) == Widen(Select(rows, keep), column)
  {
    SelectAtPositions(rows, keep);
    SelectAtPositions(widened, keep);
    var ix := Positions(keep);
    assert forall p :: 0 <= p < |ix| ==> Select(rows, keep)[p] == rows[ix[p]];
  }

  /** The window MAX over the whole partition, keyed by the layout's key columns. */
  function WindowMax(layout: Layout, keyRefs: seq<Rex>): Rex {
    Over(Max, [InputRef(layout.version)], keyRefs, WholePartition)
  }

  /** version = <window column> AND subsequent IS NULL, the window column sitting after the journal's columns. */
  function CurrentCondition(layout: Layout): Rex {
    And(Equals(InputRef(layout.version), InputRef(layout.width)), IsNull(InputRef(layout.subsequent)))
  }

  /** Appending the window column keeps every journal row and adds its window value last. */
  lemma {:induction false} ProjectAppendsWindow(rows: seq<Row>, layout: Layout, keyRefs: seq<Rex>,
                                                scan: RelNode, names: seq<string>, db: Database)
    requires WellFormed(rows, layout)
    requires Eval(scan, db) == rows
    ensures var widened := Eval(Project(scan, Identity(layout.width) + [WindowMax(layout, keyRefs)], names), db);
      && |widened| == |rows|
      && forall i :: 0 <= i < |rows| ==> widened[i] == rows[i] + [EvalRex(WindowMax(layout, keyRefs), rows, i)]
  {
    var n := layout.width;
    var exprs := Identity(n) + [WindowMax(layout, keyRefs)];
    var widened := Eval(Project(scan, exprs, names), db);
    forall i | 0 <= i < |rows|
      ensures widened[i] == rows[i] + [EvalRex(WindowMax(layout, keyRefs), rows, i)]
    {
      assert widened[i] == seq(|exprs|, k requires 0 <= k < |exprs| => EvalRex(exprs[k], rows, i));
      forall k | 0 <= k < n + 1
        ensures widened[i][k] == (rows[i] + [EvalRex(WindowMax(layout, keyRefs), rows, i)])[k]
      {
        if k < n {
          assert exprs[k] == Identity(n)[k] == InputRef(k);
        }
      }
    }
  }

  /** A row passes the filter exactly when it is current, and then its window value is its own version. */
  lemma {:induction false} RowPassesFilter(rows: seq<Row>, layout: Layout, keyRefs: seq<Rex>, widened: seq<Row>, i: nat)
    requires WellFormed(rows, layout) && i < |rows|
    requires |keyRefs| == |layout.keys|
    requires forall k :: 0 <= k < |keyRefs| ==> keyRefs[k] == InputRef(layout.keys[k])
    requires |widened| == |rows|
    requires widened[i] == rows[i] + [EvalRex(WindowMax(layout, keyRefs), rows, i)]
    ensures (EvalRex(CurrentCondition(layout), widened, i) == Bool(true)) == IsCurrent(rows, layout, i)
    ensures IsCurrent(rows, layout, i) ==> widened[i] == rows[i] + [rows[i][layout.version]]
  {
    WholePartitionMax(rows, layout, keyRefs, i);
    var w := EvalRex(WindowMax(layout, keyRefs), rows, i);
    ConditionSelectsCurrent(rows, layout, w, widened, i);
    if IsCurrent(rows, layout, i) {
      assert SameKey(rows, layout, i, i);
    }
  }

  /**
   * Over any journal rows, the window column followed by the filter returns
   * the current state, each row followed by its version.
   */
  lemma {:induction false} WindowThenFilter(rows: seq<Row>, layout: Layout, keyRefs: seq<Rex>,
                                            scan: RelNode, names: seq<string>, db: Database)
    requires WellFormed(rows, layout)
    requires |keyRefs| == |layout.keys|
    requires forall k :: 0 <= k < |keyRefs| ==> keyRefs[k] == InputRef(layout.keys[k])
    requires Eval(scan, db) == rows
    ensures Eval(Rel.Filter(Project(scan, Identity(layout.width) + [WindowMax(layout, keyRefs)], names), CurrentCondition(layout)), db)
            == Widen(CurrentState(rows, layout), layout.version)
  {
    var window := Project(scan, Identity(layout.width) + [WindowMax(layout, keyRefs)], names);
    var widened := Eval(window, db);
    ProjectAppendsWindow(rows, layout, keyRefs, scan, names, db);
    var keep := seq(|widened|, i requires 0 <= i < |widened| => EvalRex(CurrentCondition(layout), widened, i) == Bool(true));
    assert Eval(Rel.Filter(window, CurrentCondition(layout)), db) == Select(widened, keep);
    forall i | 0 <= i < |rows|
      ensures keep[i] == IsCurrent(rows, layout, i)
      ensures keep[i] ==> widened[i] == rows[i] + [rows[i][layout.version]]
    {
      RowPassesFilter(rows, layout, keyRefs, widened, i);
    }
    assert keep == CurrentMask(rows, layout);
    SelectWidened(rows, widened, keep, layout.version);
  }

  /**
   * The meaning of the rewritten read: over any database whose journal rows
   * have the journal table's width, the plan returns the current state of the
   * journal, each row followed by its version (the value of the window column).
   */
  lemma {:induction false} CurrentViewMeaning(t: JournalledTable, logicalName: seq<string>, db: Database)
    requires CurrentViewPlan(t, logicalName).Ok?
    requires forall i :: 0 <= i < |JournalRows(t, logicalName, db)| ==>
               |JournalRows(t, logicalName, db)[i]| == |t.journalTable.columns|
    ensures WellFormed(JournalRows(t, logicalName, db), JournalLayout(t))
    ensures Eval(CurrentViewPlan(t, logicalName).value, db)
            == Widen(CurrentState(JournalRows(t, logicalName, db), JournalLayout(t)), JournalLayout(t).version)
  {
    var columns := t.journalTable.columns;
    var layout := JournalLayout(t);
    var rows := JournalRows(t, logicalName, db);
    var keyRefs := ResolveFields(columns, t.keyColumnNames).value;
    var scan := Scan(QualifiedName(logicalName, t.journalTable), columns);
    var names := columns + [DerivedFieldName(|columns|)];
    assert CurrentViewPlan(t, logicalName).value
           == Rel.Filter(Project(scan, Identity(layout.width) + [WindowMax(layout, keyRefs)], names), CurrentCondition(layout));
    WindowThenFilter(rows, layout, keyRefs, scan, names, db);
  }

  /** Each row without its last column. */
  function DropLast(rows: seq<Row>): seq<Row> {
    seq(|rows|, p requires 0 <= p < |rows| => if |rows[p]| > 0 then rows[p][..|rows[p]| - 1] else rows[p])
  }

  /**
   * Every row the rewritten read returns is a journal row followed by its own
   * version; the journal row has a NULL subsequent version and a version no
   * smaller than that of any journal row with the same key values.
   */
  lemma ReadReturnsNewestRows(t: JournalledTable, logicalName: seq<string>, db: Database)
    requires CurrentViewPlan(t, logicalName).Ok?
    requires forall i :: 0 <= i < |JournalRows(t, logicalName, db)| ==>
               |JournalRows(t, logicalName, db)[i]| == |t.journalTable.columns|
    ensures var out := Eval(CurrentViewPlan(t, logicalName).value, db);
            var rows := JournalRows(t, logicalName, db);
            var layout := JournalLayout(t);
      forall p :: 0 <= p < |out| ==>
        && |out[p]| == layout.width + 1
        && out[p][layout.width] == out[p][layout.version]
        && out[p][layout.subsequent] == Null
        && out[p][layout.version].Int?
        && forall j :: 0 <= j < |rows| && KeyOf(rows[j], layout.keys) == KeyOf(out[p], layout.keys) && rows[j][layout.version].Int?
             ==> rows[j][layout.version].i <= out[p][layout.version].i
  {
    var rows := JournalRows(t, logicalName, db);
    var layout := JournalLayout(t);
    CurrentViewMeaning(t, logicalName, db);
    CurrentRowsAreNewest(rows, layout);
    var current := CurrentState(rows, layout);
    var out := Eval(CurrentViewPlan(t, logicalName).value, db);
    forall p | 0 <= p < |out|
      ensures KeyOf(out[p], layout.keys) == KeyOf(current[p], layout.keys)
      ensures exists i :: 0 <= i < |rows| && KeyOf(out[p], layout.keys) == KeyOf(rows[i], layout.keys)
    {
      assert out[p] == current[p] + [current[p][layout.version]];
      CurrentStateMembership(rows, layout, current[p]);
      assert current[p] in current;
    }
  }

  /** The rewritten read only removes journal rows: without the window column its rows are a subsequence of the journal. */
  lemma ReadOnlyRemovesRows(t: JournalledTable, logicalName: seq<string>, db: Database)
    requires CurrentViewPlan(t, logicalName).Ok?
    requires forall i :: 0 <= i < |JournalRows(t, logicalName, db)| ==>
               |JournalRows(t, logicalName, db)[i]| == |t.journalTable.columns|
    ensures SubsequenceOf(DropLast(Eval(CurrentViewPlan(t, logicalName).value, db)), JournalRows(t, logicalName, db))
  {
    var rows := JournalRows(t, logicalName, db);
    var layout := JournalLayout(t);
    CurrentViewMeaning(t, logicalName, db);
    CurrentStateIsSubsequence(rows, layout);
    var current := CurrentState(rows, layout);
    var out := Eval(CurrentViewPlan(t, logicalName).value, db);
    forall p | 0 <= p < |out|
      ensures DropLast(out)[p] == current[p]
    {
      assert out[p] == current[p] + [current[p][layout.version]];
    }
    assert DropLast(out) == current;
  }

  /**
   * Under the currency invariant the rewritten read returns exactly one row
   * per distinct key present in the journal.
   */
  lemma ReadReturnsOneRowPerKey(t: JournalledTable, logicalName: seq<string>, db: Database)
    requires CurrentViewPlan(t, logicalName).Ok?
    requires forall i :: 0 <= i < |JournalRows(t, logicalName, db)| ==>
               |JournalRows(t, logicalName, db)[i]| == |t.journalTable.columns|
    requires WellFormed(JournalRows(t, logicalName, db), JournalLayout(t))
    requires CurrencyInvariant(JournalRows(t, logicalName, db), JournalLayout(t))
    ensures var out := Eval(CurrentViewPlan(t, logicalName).value, db);
            var rows := JournalRows(t, logicalName, db);
            var layout := JournalLayout(t);
      && (forall p :: 0 <= p < |out| ==> |out[p]| == layout.width + 1)
      && (forall p :: 0 <= p < |out| ==>
            exists i :: 0 <= i < |rows| && KeyOf(out[p], layout.keys) == KeyOf(rows[i], layout.keys))
      && (forall i :: 0 <= i < |rows| ==>
            exists p :: 0 <= p < |out| && KeyOf(out[p], layout.keys) == KeyOf(rows[i], layout.keys))
      && (forall p, q :: 0 <= p < q < |out| ==> KeyOf(out[p], layout.keys) != KeyOf(out[q], layout.keys))
  {
    var rows := JournalRows(t, logicalName, db);
    var layout := JournalLayout(t);
    CurrentViewMeaning(t, logicalName, db);
    OneRowPerDistinctKey(rows, layout);
    var current := CurrentState(rows, layout);
    var out := Eval(CurrentViewPlan(t, logicalName).value, db);
    forall p | 0 <= p < |out|
      ensures |out[p]| == layout.width + 1
      ensures KeyOf(out[p], layout.keys) == KeyOf(current[p], layout.keys)
      ensures exists i :: 0 <= i < |rows| && KeyOf(out[p], layout.keys) == KeyOf(rows[i], layout.keys)
    {
      assert out[p] == current[p] + [current[p][layout.version]];
      CurrentStateMembership(rows, layout, current[p]);
      assert current[p] in current;
    }
  }

  /** A journal where the older version of key 1 was never closed: its subsequent version is still NULL. */
  const UnclosedJournal: seq<Row> := [[Int(1), Int(1), Null], [Int(1), Int(2), Null]]
  const UnclosedLayout: Layout := Layout(3, [0], 1, 2)

  /** With a running frame, the window over the first row sees only that row. */
  lemma RunningFrameSeesOnlyEarlierRows()
    ensures EvalRex(Over(Max, [InputRef(1)], [InputRef(0)], Rows(UnboundedPreceding, CurrentRow)), UnclosedJournal, 0) == Int(1)
  {
    var rows := UnclosedJournal;
    var args := seq(|rows|, j requires 0 <= j < |rows| => EvalRex(InputRef(1), rows, j));
    assert args == [Int(1), Int(2)];
    var running := seq(|rows|, j requires 0 <= j < |rows| =>
      InFrame(Rows(UnboundedPreceding, CurrentRow), 0, j)
      && seq(1, k requires 0 <= k < 1 => EvalRex([InputRef(0)][k], rows, j))
         == seq(1, k requires 0 <= k < 1 => EvalRex([InputRef(0)][k], rows, 0)));
    assert running == [true, false];
    assert Select([Int(1)], [true]) == [Int(1)];
    assert args[..1] == [Int(1)] && running[..1] == [true];
    assert Select(args, running) == [Int(1)];
  }

  /**
   * Why the window spans the whole partition: with a running frame (ROWS
   * BETWEEN UNBOUNDED PRECEDING AND CURRENT ROW) an older version whose
   * subsequent version was never set would equal its running maximum and
   * pass the filter, although a newer version of its key exists; over the
   * whole partition it does not.
   */
  lemma RunningFrameKeepsStaleRow()
    ensures WellFormed(UnclosedJournal, UnclosedLayout)
    ensures !IsCurrent(UnclosedJournal, UnclosedLayout, 0) && IsCurrent(UnclosedJournal, UnclosedLayout, 1)
    ensures EvalRex(Over(Max, [InputRef(1)], [InputRef(0)], Rows(UnboundedPreceding, CurrentRow)), UnclosedJournal, 0)
            == UnclosedJournal[0][1]
    ensures EvalRex(WindowMax(UnclosedLayout, [InputRef(0)]), UnclosedJournal, 0) != UnclosedJournal[0][1]
  {
    var rows := UnclosedJournal;
    var layout := UnclosedLayout;
    assert SameKey(rows, layout, 0, 1);
    RunningFrameSeesOnlyEarlierRows();
    WholePartitionMax(rows, layout, [InputRef(0)], 0);
  }
}
