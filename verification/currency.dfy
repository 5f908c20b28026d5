/**
 * The current state of a journal, stated row by row: a journal row is current
 * when it has no subsequent version and no row with the same key has a newer
 * version. This is the reference the rewritten read is measured against.
 */
module Currency {
  import opened Semantics

  /** Where the key, version and subsequent-version columns sit in a journal row of width columns. */
  datatype Layout = Layout(width: nat, keys: seq<nat>, version: nat, subsequent: nat)

  /** Every row has the journal's width and every column of the layout lies within it. */
  predicate WellFormed(rows: seq<Row>, layout: Layout) {
    && layout.version < layout.width
    && layout.subsequent < layout.width
    && (forall k :: 0 <= k < |layout.keys| ==> layout.keys[k] < layout.width)
    && forall i :: 0 <= i < |rows| ==> |rows[i]| == layout.width
  }

  /** The key values of a row. */
  function KeyOf(row: Row, keys: seq<nat>): seq<Value>
    requires forall k :: 0 <= k < |keys| ==> keys[k] < |row|
  {
    seq(|keys|, k requires 0 <= k < |keys| => row[keys[k]])
  }

  predicate SameKey(rows: seq<Row>, layout: Layout, i: nat, j: nat)
    requires WellFormed(rows, layout) && i < |rows| && j < |rows|
  {
    KeyOf(rows[i], layout.keys) == KeyOf(rows[j], layout.keys)
  }

  /** Row i has no successor and carries the newest version of its key. */
  predicate IsCurrent(rows: seq<Row>, layout: Layout, i: nat)
    requires WellFormed(rows, layout) && i < |rows|
  {
    && rows[i][layout.subsequent] == Null
    && rows[i][layout.version].Int?
    && forall j :: 0 <= j < |rows| && SameKey(rows, layout, i, j) && rows[j][layout.version].Int? ==>
         rows[j][layout.version].i <= rows[i][layout.version].i
  }

  function CurrentMask(rows: seq<Row>, layout: Layout): seq<bool>
    requires WellFormed(rows, layout)
  {
    seq(|rows|, i requires 0 <= i < |rows| => IsCurrent(rows, layout, i))
  }

  /** The current rows of a journal, in journal order. */
  function CurrentState(rows: seq<Row>, layout: Layout): (current: seq<Row>)
    requires WellFormed(rows, layout)
    ensures |current| <= |rows|
    ensures forall p :: 0 <= p < |current| ==> |current[p]| == layout.width
  {
    SelectAtPositions(rows, CurrentMask(rows, layout));
    Select(rows, CurrentMask(rows, layout))
  }

  /** Each row with the value of one of its own columns appended. */
  function Widen(rows: seq<Row>, column: nat): seq<Row>
    requires forall p :: 0 <= p < |rows| ==> column < |rows[p]|
  {
    seq(|rows|, p requires 0 <= p < |rows| => rows[p] + [rows[p][column]])
  }

  /** A row is in the current state exactly when it is a current journal row. */
  lemma CurrentStateMembership(rows: seq<Row>, layout: Layout, row: Row)
    requires WellFormed(rows, layout)
    ensures row in CurrentState(rows, layout) <==>
            exists i :: 0 <= i < |rows| && rows[i] == row && IsCurrent(rows, layout, i)
  {
    SelectMembership(rows, CurrentMask(rows, layout), row);
  }

  /**
   * Every row of the current state has a NULL subsequent version and a version
   * no smaller than that of any journal row with the same key values.
   */
  lemma CurrentRowsAreNewest(rows: seq<Row>, layout: Layout)
    requires WellFormed(rows, layout)
    ensures forall p :: 0 <= p < |CurrentState(rows, layout)| ==>
      var row := CurrentState(rows, layout)[p];
      && row[layout.subsequent] == Null
      && row[layout.version].Int?
      && forall j :: 0 <= j < |rows| && KeyOf(rows[j], layout.keys) == KeyOf(row, layout.keys) && rows[j][layout.version].Int?
           ==> rows[j][layout.version].i <= row[layout.version].i
  {
    var mask := CurrentMask(rows, layout);
    SelectAtPositions(rows, mask);
    var ix := Positions(mask);
    forall p | 0 <= p < |CurrentState(rows, layout)|
      ensures var row := CurrentState(rows, layout)[p];
        && row[layout.subsequent] == Null
        && row[layout.version].Int?
        && forall j :: 0 <= j < |rows| && KeyOf(rows[j], layout.keys) == KeyOf(row, layout.keys) && rows[j][layout.version].Int?
             ==> rows[j][layout.version].i <= row[layout.version].i
    {
      assert CurrentState(rows, layout)[p] == rows[ix[p]];
      assert IsCurrent(rows, layout, ix[p]);
    }
  }

  /** The current state only removes journal rows: none is created, altered or reordered. */
  lemma CurrentStateIsSubsequence(rows: seq<Row>, layout: Layout)
    requires WellFormed(rows, layout)
    ensures SubsequenceOf(CurrentState(rows, layout), rows)
  {
    SelectIsSubsequence(rows, CurrentMask(rows, layout));
  }

  /**
   * When row c is the only current row of its key, the current state holds
   * it exactly once and holds no other row with that key.
   */
  lemma ExactlyOneRowForKey(rows: seq<Row>, layout: Layout, c: nat)
    requires WellFormed(rows, layout) && c < |rows|
    requires IsCurrent(rows, layout, c)
    requires forall j :: 0 <= j < |rows| && IsCurrent(rows, layout, j) && SameKey(rows, layout, c, j) ==> j == c
    ensures var current := CurrentState(rows, layout);
      exists p :: 0 <= p < |current| && current[p] == rows[c]
        && forall q :: 0 <= q < |current| && KeyOf(current[q], layout.keys) == KeyOf(rows[c], layout.keys) ==> q == p
  {
    var mask := CurrentMask(rows, layout);
    SelectAtPositions(rows, mask);
    var ix := Positions(mask);
    var current := CurrentState(rows, layout);
    assert mask[c];
    var p :| 0 <= p < |ix| && ix[p] == c;
    forall q | 0 <= q < |current| && KeyOf(current[q], layout.keys) == KeyOf(rows[c], layout.keys)
      ensures q == p
    {
      assert current[q] == rows[ix[q]];
      assert IsCurrent(rows, layout, ix[q]);
      assert ix[q] == c;
    }
    assert current[p] == rows[c];
  }

  /** Some current row has the same key values as row i. */
  predicate HasCurrentRow(rows: seq<Row>, layout: Layout, i: nat)
    requires WellFormed(rows, layout) && i < |rows|
  {
    exists c :: 0 <= c < |rows| && IsCurrent(rows, layout, c) && SameKey(rows, layout, i, c)
  }

  /** The currency invariant: every key present has exactly one current row. */
  predicate CurrencyInvariant(rows: seq<Row>, layout: Layout)
    requires WellFormed(rows, layout)
  {
    && (forall i :: 0 <= i < |rows| ==> HasCurrentRow(rows, layout, i))
    && (forall c, d ::
          0 <= c < |rows| && 0 <= d < |rows| && IsCurrent(rows, layout, c) && IsCurrent(rows, layout, d) && SameKey(rows, layout, c, d)
          ==> c == d)
  }

  /** Each row of the current state is a current journal row, and rows appear in journal order. */
  lemma CurrentStateRows(rows: seq<Row>, layout: Layout, p: nat, q: nat)
    requires WellFormed(rows, layout)
    requires p < q < |CurrentState(rows, layout)|
    ensures exists i, j :: 0 <= i < j < |rows| && IsCurrent(rows, layout, i) && IsCurrent(rows, layout, j)
                           && CurrentState(rows, layout)[p] == rows[i] && CurrentState(rows, layout)[q] == rows[j]
  {
    var mask := CurrentMask(rows, layout);
    SelectAtPositions(rows, mask);
    var ix := Positions(mask);
    assert mask[ix[p]] && mask[ix[q]];
  }

  /** Under the currency invariant every key present in the journal has a row in the current state. */
  lemma EveryKeyHasCurrentRow(rows: seq<Row>, layout: Layout, i: nat)
    requires WellFormed(rows, layout) && i < |rows|
    requires CurrencyInvariant(rows, layout)
    ensures exists p :: 0 <= p < |CurrentState(rows, layout)|
                        && KeyOf(CurrentState(rows, layout)[p], layout.keys) == KeyOf(rows[i], layout.keys)
  {
    assert HasCurrentRow(rows, layout, i);
    var c :| 0 <= c < |rows| && IsCurrent(rows, layout, c) && SameKey(rows, layout, i, c);
    ExactlyOneRowForKey(rows, layout, c);
  }

  /** Under the currency invariant no two rows of the current state share a key. */
  lemma CurrentKeysDistinct(rows: seq<Row>, layout: Layout, p: nat, q: nat)
    requires WellFormed(rows, layout)
    requires CurrencyInvariant(rows, layout)
    requires p < q < |CurrentState(rows, layout)|
    ensures KeyOf(CurrentState(rows, layout)[p], layout.keys) != KeyOf(CurrentState(rows, layout)[q], layout.keys)
  {
    CurrentStateRows(rows, layout, p, q);
    var i, j :| 0 <= i < j < |rows| && IsCurrent(rows, layout, i) && IsCurrent(rows, layout, j)
                && CurrentState(rows, layout)[p] == rows[i] && CurrentState(rows, layout)[q] == rows[j];
  }

  /**
   * Under the currency invariant the current state has exactly one row per
   * distinct key present in the journal.
   */
  lemma OneRowPerDistinctKey(rows: seq<Row>, layout: Layout)
    requires WellFormed(rows, layout)
    requires CurrencyInvariant(rows, layout)
    ensures var current := CurrentState(rows, layout);
      && (forall i :: 0 <= i < |rows| ==>
            exists p :: 0 <= p < |current| && KeyOf(current[p], layout.keys) == KeyOf(rows[i], layout.keys))
      && (forall p, q :: 0 <= p < q < |current| ==> KeyOf(current[p], layout.keys) != KeyOf(current[q], layout.keys))
  {
    var current := CurrentState(rows, layout);
    forall i | 0 <= i < |rows|
      ensures exists p :: 0 <= p < |current| && KeyOf(current[p], layout.keys) == KeyOf(rows[i], layout.keys)
    {
      EveryKeyHasCurrentRow(rows, layout, i);
    }
    forall p, q | 0 <= p < q < |CurrentState(rows, layout)| {
      CurrentKeysDistinct(rows, layout, p, q);
    }
  }
}
