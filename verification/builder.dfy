/**
 * The operations of Calcite's RelBuilder that the rewrite uses. The builder
 * keeps a stack of relational nodes (top at the end); each operation pushes,
 * or replaces the top with a node built on it.
 */
module Builder {
  import opened Wrappers
  import opened Rel

  /** Field lookup by a name the input does not have. */
  datatype BuildError = FieldNotFound(name: string, inputFields: seq<string>)

  /** The position of the first occurrence of x in s, as List.indexOf finds it. */
  function FirstIndex(s: seq<string>, x: string): (r: Option<nat>)
    ensures r.None? <==> x !in s
    ensures r.Some? ==> r.value < |s| && s[r.value] == x && x !in s[..r.value]
  {
    if |s| == 0 then None
    else if s[0] == x then Some(0)
    else
      match FirstIndex(s[1..], x)
      case None => None
      case Some(i) =>
        assert s[..i + 1] == [s[0]] + s[1..][..i];
        Some(i + 1)
  }

  /** A reference to the input column called name, or the error that field(name) throws. */
  function ResolveField(fields: seq<string>, name: string): (r: Result<Rex, BuildError>)
    ensures r.Ok? <==> name in fields
    ensures r.Ok? ==> r.value.InputRef? && r.value.index < |fields| && fields[r.value.index] == name
    ensures r.Ok? ==> name !in fields[..r.value.index]
    ensures r.Err? ==> r.error == FieldNotFound(name, fields)
  {
    match FirstIndex(fields, name)
    case None => Err(FieldNotFound(name, fields))
    case Some(i) => Ok(InputRef(i))
  }

  /** References to the input columns called names, in order; fails on the first missing name. */
  function ResolveFields(fields: seq<string>, names: seq<string>): (r: Result<seq<Rex>, BuildError>)
    ensures r.Ok? <==> forall k :: 0 <= k < |names| ==> names[k] in fields
    ensures r.Ok? ==> |r.value| == |names|
    ensures r.Ok? ==> forall k :: 0 <= k < |names| ==> r.value[k] == ResolveField(fields, names[k]).value
    ensures r.Err? ==> exists k :: 0 <= k < |names| && names[k] !in fields
                                   && r.error == FieldNotFound(names[k], fields)
                                   && forall j :: 0 <= j < k ==> names[j] in fields
    decreases |names|
  {
    if |names| == 0 then Ok([])
    else
      var init := names[..|names| - 1];
      var last := names[|names| - 1];
      assert forall k :: 0 <= k < |init| ==> init[k] == names[k];
      match ResolveFields(fields, init)
      case Err(e) => Err(e)
      case Ok(refs) =>
        match ResolveField(fields, last)
        case Err(e) => Err(e)
        case Ok(ref) => Ok(refs + [ref])
  }

  class RelBuilder {
    var stack: seq<RelNode>

    constructor ()
      ensures stack == []
    {
      stack := [];
    }

    /** The node on top of the stack. */
    function Peek(): RelNode
      reads this
      requires |stack| > 0
    {
      stack[|stack| - 1]
    }

    /** Pushes a scan of the physical table known under the qualified name table. */
    method ScanJdbc(table: seq<string>, columns: seq<string>)
      modifies this
      ensures stack == old(stack) + [Scan(table, columns)]
      ensures RowType(Peek()) == columns
    {
      stack := stack + [Scan(table, columns)];
    }

    /** field(name): a reference to the first column of the top node called name. */
    method Field(name: string) returns (r: Result<Rex, BuildError>)
      requires |stack| > 0
      ensures r == ResolveField(RowType(Peek()), name)
    {
      var fields := RowType(stack[|stack| - 1]);
      var i := 0;
      while i < |fields|
        invariant 0 <= i <= |fields|
        invariant name !in fields[..i]
      {
        if fields[i] == name {
          return Ok(InputRef(i));
        }
        i := i + 1;
      }
      assert fields[..i] == fields;
      return Err(FieldNotFound(name, fields));
    }

    /** fields(names): one reference per name, in the order given. */
    method Fields(names: seq<string>) returns (r: Result<seq<Rex>, BuildError>)
      requires |stack| > 0
      ensures r == ResolveFields(RowType(Peek()), names)
    {
      var refs: seq<Rex> := [];
      var i := 0;
      while i < |names|
        invariant 0 <= i <= |names|
        invariant ResolveFields(RowType(Peek()), names[..i]) == Ok(refs)
      {
        var ref := Field(names[i]);
        assert names[..i + 1][..i] == names[..i];
        if ref.Err? {
          return Err(ref.error);
        }
        refs := refs + [ref.value];
        i := i + 1;
      }
      assert names[..i] == names;
      return Ok(refs);
    }

    /**
     * appendField(e): replaces the top node by a projection of all of its
     * columns followed by e, and returns a reference to the new last column.
     */
    method AppendField(e: Rex) returns (ref: Rex)
      requires |stack| > 0
      modifies this
      ensures |stack| == |old(stack)|
      ensures stack[..|stack| - 1] == old(stack)[..|stack| - 1]
      ensures Peek() == Project(old(Peek()), Identity(|RowType(old(Peek()))|) + [e],
                                RowType(old(Peek())) + [DerivedFieldName(|RowType(old(Peek()))|)])
      ensures ref == InputRef(|RowType(old(Peek()))|)
    {
      var input := stack[|stack| - 1];
      var n := |RowType(input)|;
      stack := stack[..|stack| - 1] + [Project(input, Identity(n) + [e], RowType(input) + [DerivedFieldName(n)])];
      ref := InputRef(n);
    }

    /** filter(p, q): replaces the top node by the rows of it that satisfy p AND q. */
    method Filter(p: Rex, q: Rex)
      requires |stack| > 0
      modifies this
      ensures |stack| == |old(stack)|
      ensures stack[..|stack| - 1] == old(stack)[..|stack| - 1]
      ensures Peek() == Rel.Filter(old(Peek()), And(p, q))
    {
      stack := stack[..|stack| - 1] + [Rel.Filter(stack[|stack| - 1], And(p, q))];
    }

    /** build(): pops the top node and returns it. */
    method Build() returns (node: RelNode)
      requires |stack| > 0
      modifies this
      ensures node == old(Peek())
      ensures stack == old(stack)[..|old(stack)| - 1]
    {
      node := stack[|stack| - 1];
      stack := stack[..|stack| - 1];
    }
  }
}
