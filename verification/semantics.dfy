/**
 * The meaning of a plan: the rows it produces from the rows of the tables it
 * scans. Values are SQL values with NULL; a filter keeps the rows whose
 * condition is TRUE; a windowed MAX ranges over the rows of the current row's
 * partition that lie in its frame, ignoring NULLs.
 */
module Semantics {
  import opened Wrappers
  import opened Rel

  datatype Value = Null | Int(i: int) | Str(s: string) | Bool(b: bool)

  type Row = seq<Value>

  /** The rows stored in each physical table, by qualified name. */
  type Database = map<seq<string>, seq<Row>>

  /** The elements of s whose flag in keep is set, in their original order. */
  function Select<T>(s: seq<T>, keep: seq<bool>): seq<T>
    requires |keep| == |s|
  {
    if |s| == 0 then []
    else Select(s[..|s| - 1], keep[..|s| - 1]) + (if keep[|s| - 1] then [s[|s| - 1]] else [])
  }

  /** The positions whose flag in keep is set, in increasing order. */
  function Positions(keep: seq<bool>): (ix: seq<nat>)
    ensures |ix| <= |keep|
    ensures forall p :: 0 <= p < |ix| ==> ix[p] < |keep| && keep[ix[p]]
    ensures forall p, q :: 0 <= p < q < |ix| ==> ix[p] < ix[q]
    ensures forall i :: 0 <= i < |keep| && keep[i] ==> i in ix
  {
    if |keep| == 0 then []
    else
      var init := Positions(keep[..|keep| - 1]);
      init + (if keep[|keep| - 1] then [|keep| - 1] else [])
  }

  /** Selecting is picking the elements at the selected positions. */
  lemma {:induction false} SelectAtPositions<T>(s: seq<T>, keep: seq<bool>)
    requires |keep| == |s|
    ensures |Select(s, keep)| == |Positions(keep)|
    ensures forall p :: 0 <= p < |Positions(keep)| ==> Select(s, keep)[p] == s[Positions(keep)[p]]
  {
    if |s| > 0 {
      SelectAtPositions(s[..|s| - 1], keep[..|s| - 1]);
    }
  }

  /** x is selected exactly when it sits at a position whose flag is set. */
  lemma SelectMembership<T>(s: seq<T>, keep: seq<bool>, x: T)
    requires |keep| == |s|
    ensures x in Select(s, keep) <==> exists i :: 0 <= i < |s| && keep[i] && s[i] == x
  {
    SelectAtPositions(s, keep);
    var ix := Positions(keep);
    if x in Select(s, keep) {
      var p :| 0 <= p < |ix| && Select(s, keep)[p] == x;
      assert keep[ix[p]] && s[ix[p]] == x;
    }
    if exists i :: 0 <= i < |s| && keep[i] && s[i] == x {
      var i :| 0 <= i < |s| && keep[i] && s[i] == x;
      var p :| 0 <= p < |ix| && ix[p] == i;
      assert Select(s, keep)[p] == x;
    }
  }

  /** a is b with some elements left out: nothing added, nothing altered, order kept. */
  predicate SubsequenceOf<T(==)>(a: seq<T>, b: seq<T>)
    decreases |b|
  {
    if |a| == 0 then true
    else if |b| == 0 then false
    else (a[|a| - 1] == b[|b| - 1] && SubsequenceOf(a[..|a| - 1], b[..|b| - 1]))
         || SubsequenceOf(a, b[..|b| - 1])
  }

  /** Selecting only removes elements. */
  lemma {:induction false} SelectIsSubsequence<T>(s: seq<T>, keep: seq<bool>)
    requires |keep| == |s|
    ensures SubsequenceOf(Select(s, keep), s)
  {
    if |s| > 0 {
      var init := s[..|s| - 1];
      SelectIsSubsequence(init, keep[..|s| - 1]);
      var a := Select(s, keep);
      assert s[..|s| - 1] == init;
      if keep[|s| - 1] {
        assert a == Select(init, keep[..|s| - 1]) + [s[|s| - 1]];
        assert a[..|a| - 1] == Select(init, keep[..|s| - 1]);
        assert a[|a| - 1] == s[|s| - 1];
      } else {
        assert a == Select(init, keep[..|s| - 1]);
      }
    }
  }

  /** The largest integer among vs; NULLs and other values are ignored. */
  function MaxInt(vs: seq<Value>): (r: Option<int>)
    ensures r.None? <==> forall k :: 0 <= k < |vs| ==> !vs[k].Int?
    ensures r.Some? ==> Int(r.value) in vs
    ensures r.Some? ==> forall k :: 0 <= k < |vs| && vs[k].Int? ==> vs[k].i <= r.value
  {
    if |vs| == 0 then None
    else
      var init := vs[..|vs| - 1];
      var last := vs[|vs| - 1];
      assert forall k :: 0 <= k < |init| ==> init[k] == vs[k];
      match MaxInt(init)
      case None => if last.Int? then Some(last.i) else None
      case Some(m) => if last.Int? && last.i > m then Some(last.i) else Some(m)
  }

  function Aggregate(agg: AggFunction, vs: seq<Value>): Value {
    match agg
    case Max => match MaxInt(vs) case None => Null case Some(m) => Int(m)
  }

  /** Row j lies in the frame of row i. */
  predicate InFrame(frame: Frame, i: nat, j: nat) {
    && (frame.lower == UnboundedPreceding || (frame.lower == CurrentRow && i <= j))
    && (frame.upper == UnboundedFollowing || (frame.upper == CurrentRow && j <= i))
  }

  /** The value of e on row i of rows; rows is the whole input, which windowed aggregates range over. */
  function EvalRex(e: Rex, rows: seq<Row>, i: nat): Value
    requires i < |rows|
    decreases e
  {
    match e
    case InputRef(k) => if k < |rows[i]| then rows[i][k] else Null
    case Over(agg, operands, keys, frame) =>
      if |operands| != 1 then Null
      else
        var args := seq(|rows|, j requires 0 <= j < |rows| => EvalRex(operands[0], rows, j));
        var partition := seq(|keys|, k requires 0 <= k < |keys| => EvalRex(keys[k], rows, i));
        var window := seq(|rows|, j requires 0 <= j < |rows| =>
          InFrame(frame, i, j) && seq(|keys|, k requires 0 <= k < |keys| => EvalRex(keys[k], rows, j)) == partition);
        Aggregate(agg, Select(args, window))
    case Equals(l, r) =>
      var a := EvalRex(l, rows, i);
      var b := EvalRex(r, rows, i);
      if a.Null? || b.Null? then Null else Bool(a == b)
    case IsNull(x) => Bool(EvalRex(x, rows, i).Null?)
    case And(l, r) =>
      var a := EvalRex(l, rows, i);
      var b := EvalRex(r, rows, i);
      if a == Bool(false) || b == Bool(false) then Bool(false)
      else if a == Bool(true) && b == Bool(true) then Bool(true)
      else Null
  }

  /**
   * The rows a plan produces over db; a table db does not hold is empty.
   * Tables and results are sequences in storage order, where SQL has
   * unordered bags: order facts about Eval hold of SQL only as multisets.
   */
  function Eval(node: RelNode, db: Database): seq<Row> {
    match node
    case Scan(table, _) => if table in db then db[table] else []
    case Project(input, exprs, _) =>
      var rows := Eval(input, db);
      seq(|rows|, i requires 0 <= i < |rows| =>
        seq(|exprs|, k requires 0 <= k < |exprs| => EvalRex(exprs[k], rows, i)))
    case Filter(input, condition) =>
      var rows := Eval(input, db);
      Select(rows, seq(|rows|, i requires 0 <= i < |rows| => EvalRex(condition, rows, i) == Bool(true)))
  }
}
