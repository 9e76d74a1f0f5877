/** Evaluating a condition over a whole morsel as a vector of three-valued truths. */
module Masks {
  import opened Wrappers
  import opened Utf8
  import opened Sql
  import opened Values
  import opened Rows
  import L = Like

  datatype ColumnData = ColumnData(kind: Kind, cells: seq<Cell>)

  /** A table in columns. */
  datatype Morsel = Morsel(names: seq<string>, columns: map<string, ColumnData>, rows: nat) {
    ghost predicate Valid() {
      && (forall n :: n in names <==> n in columns)
      && (forall n :: n in columns ==> |columns[n].cells| == rows)
      && (forall n, i :: n in columns && 0 <= i < rows && columns[n].cells[i].Some? ==>
            Sort(columns[n].cells[i].value) == SortOf(columns[n].kind))
    }

    function SchemaOf(): (s: Schema)
      requires Valid()
      ensures s.Valid()
    {
      Schema(names, map n | n in columns :: columns[n].kind)
    }

    function RowAt(i: nat): (row: Row)
      requires Valid() && i < rows
      ensures RowOf(row, SchemaOf())
    {
      map n | n in columns :: columns[n].cells[i]
    }
  }

  type Mask = seq<Tri>

  // --- Draken's kernels, pointwise ---------------------------------------------------

  function AndVector(a: Mask, b: Mask): Mask
    requires |a| == |b|
  {
    seq(|a|, i requires 0 <= i < |a| => Both(a[i], b[i]))
  }

  function OrVector(a: Mask, b: Mask): Mask
    requires |a| == |b|
  {
    seq(|a|, i requires 0 <= i < |a| => Either(a[i], b[i]))
  }

  function NotVector(a: Mask): Mask {
    seq(|a|, i requires 0 <= i < |a| => Negate(a[i]))
  }

  function Constant(t: Tri, rows: nat): Mask { seq(rows, i => t) }

  function CompareScalar(cells: seq<Cell>, op: Op, x: Scalar): Mask {
    seq(|cells|, i requires 0 <= i < |cells| => CompareCells(op, cells[i], Some(x)))
  }

  function CompareVectors(a: seq<Cell>, op: Op, b: seq<Cell>): Mask
    requires |a| == |b|
  {
    seq(|a|, i requires 0 <= i < |a| => CompareCells(op, a[i], b[i]))
  }

  function BetweenVector(cells: seq<Cell>, low: Scalar, high: Scalar): Mask {
    AndVector(CompareScalar(cells, Ge, low), CompareScalar(cells, Le, high))
  }

  function IsNullMask(cells: seq<Cell>): Mask {
    seq(|cells|, i requires 0 <= i < |cells| => Truth(cells[i].None?))
  }

  // --- Compiling a condition -----------------------------------------------------------

  /** Entry i of the mask is the truth of the condition on row i. */
  ghost predicate Correct(h: Host, m: Morsel, c: Condition, mask: Mask)
    requires m.Valid() && Typed(h, m.SchemaOf(), c)
  {
    |mask| == m.rows &&
    forall i :: 0 <= i < m.rows ==>
      mask[i] == TruthOf(h, m.SchemaOf(), m.RowAt(i), c)
  }

  method Compare(h: Host, m: Morsel, c: Column, op: Op, v: Value) returns (r: Option<Mask>)
    requires m.Valid()
    ensures r.Some? <==> ScalarTyped(h, m.SchemaOf(), c, v)
    ensures r.Some? ==> |r.value| == m.rows
    ensures r.Some? ==> forall i :: 0 <= i < m.rows ==>
              r.value[i] == ScalarTruth(h, m.SchemaOf(), m.RowAt(i), op, c, v)
  {
    if v.Null? {
      return Some(Constant(Unknown, m.rows));
    }
    var name := Resolve(h, m.names, c);
    if name.None? {
      return None;
    }
    var column := m.columns[name.value];
    var scalar := Coerce(h, v, column.kind);
    if scalar.None? {
      return None;
    }
    return Some(CompareScalar(column.cells, op, scalar.value));
  }

  method CompareOperands(h: Host, m: Morsel, op: Op, l: Operand, r: Operand)
    returns (mask: Option<Mask>)
    requires m.Valid()
    ensures mask.Some? <==> ComparisonTyped(h, m.SchemaOf(), op, l, r)
    ensures mask.Some? ==> |mask.value| == m.rows
    ensures mask.Some? ==> forall i :: 0 <= i < m.rows ==>
              mask.value[i] == ComparisonTruth(h, m.SchemaOf(), m.RowAt(i), op, l, r)
  {
    if l.Lit? && r.Lit? {
      if l.value.Null? || r.value.Null? {
        return Some(Constant(Unknown, m.rows));
      }
      var outcome := CompareLiterals(h, op, l.value, r.value);
      return if outcome.Some? then Some(Constant(Truth(outcome.value), m.rows)) else None;
    }
    var o, left, right := op, l, r;
    if left.Lit? {
      o, left, right := Flipped(o), right, left;
    }
    if right.Lit? {
      mask := Compare(h, m, left.column, o, right.value);
      return;
    }
    var x, y := Resolve(h, m.names, left.column), Resolve(h, m.names, right.column);
    if x.None? || y.None? {
      return None;
    }
    var a, b := m.columns[x.value], m.columns[y.value];
    if a.kind == KOther || SortOf(a.kind) != SortOf(b.kind) {
      return None;
    }
    return Some(CompareVectors(a.cells, o, b.cells));
  }

  /** The truth of `x IN (first k members)` as the OR the loop has folded so far. */
  ghost function FoldedTruth(h: Host, s: Schema, row: Row, c: Column, values: seq<Value>): Tri
    requires s.Valid() && RowOf(row, s) && MembersTyped(h, s, c, values)
  {
    if values == [] then False
    else
      var n := |values| - 1;
      assert values[n] in values;
      Either(FoldedTruth(h, s, row, c, values[..n]), ScalarTruth(h, s, row, Eq, c, values[n]))
  }

  ghost predicate SomeMemberEquals(h: Host, s: Schema, row: Row, c: Column, values: seq<Value>)
    requires s.Valid() && RowOf(row, s) && MembersTyped(h, s, c, values)
  {
    exists v :: v in values && ScalarTruth(h, s, row, Eq, c, v) == True
  }

  lemma {:induction false} FoldIsMembership(h: Host, s: Schema, row: Row, c: Column, values: seq<Value>)
    requires s.Valid() && RowOf(row, s) && MembersTyped(h, s, c, values)
    ensures FoldedTruth(h, s, row, c, values) ==
            if SomeMemberEquals(h, s, row, c, values) then True
            else if exists v :: v in values && ScalarTruth(h, s, row, Eq, c, v) == Unknown then Unknown
            else False
  {
    if values != [] {
      var n := |values| - 1;
      FoldIsMembership(h, s, row, c, values[..n]);
      assert values == values[..n] + [values[n]];
      assert forall v :: v in values <==> v in values[..n] || v == values[n];
    }
  }

  lemma FoldIsInList(h: Host, s: Schema, row: Row, c: Column, values: seq<Value>)
    requires s.Valid() && RowOf(row, s) && MembersTyped(h, s, c, values) && values != []
    ensures FoldedTruth(h, s, row, c, values) == ColumnInList(h, s, row, c, values)
  {
    FoldIsMembership(h, s, row, c, values);
    assert values[0] in values;
    if exists v :: v in values && !v.Null? {
      var v :| v in values && !v.Null?;
      assert ScalarTyped(h, s, c, v);
      var n := Resolve(h, s.names, c).value;
      assert forall w :: w in values && !w.Null? ==>
        ScalarTruth(h, s, row, Eq, c, w) == CompareCells(Eq, row[n], Coerce(h, w, s.kinds[n]));
      if row[n].None? {
        assert ScalarTruth(h, s, row, Eq, c, v) == Unknown;
      }
    } else {
      assert ScalarTruth(h, s, row, Eq, c, values[0]) == Unknown;
    }
  }

  /** An OR of exact equality masks; members that are NULL make misses unknown. */
  method Membership(h: Host, m: Morsel, o: Operand, values: Members, negated: bool)
    returns (r: Option<Mask>)
    requires m.Valid()
    ensures r.Some? <==> Typed(h, m.SchemaOf(), InList(o, values, negated))
    ensures r.Some? ==> Correct(h, m, InList(o, values, negated), r.value)
  {
    if o.Lit? {
      return Some(Constant(Signed(negated, LiteralInList(h, o.value, values)), m.rows));
    }
    ghost var s := m.SchemaOf();
    var mask: Option<Mask> := None;
    var k := 0;
    while k < |values|
      invariant 0 <= k <= |values|
      invariant MembersTyped(h, s, o.column, values[..k])
      invariant mask.None? <==> k == 0
      invariant mask.Some? ==> |mask.value| == m.rows
      invariant mask.Some? ==> forall i :: 0 <= i < m.rows ==>
                  mask.value[i] == FoldedTruth(h, s, m.RowAt(i), o.column, values[..k])
    {
      assert values[..k + 1] == values[..k] + [values[k]];
      assert values[..k + 1][..k] == values[..k];
      var member := Compare(h, m, o.column, Eq, values[k]);
      if member.None? {
        assert values[k] in values;
        return None;
      }
      mask := if mask.None? then member else Some(OrVector(mask.value, member.value));
      k := k + 1;
    }
    assert values[..k] == values;
    forall i | 0 <= i < m.rows
      ensures mask.value[i] == ColumnInList(h, s, m.RowAt(i), o.column, values)
    {
      FoldIsInList(h, s, m.RowAt(i), o.column, values);
    }
    return Some(if negated then NotVector(mask.value) else mask.value);
  }

  /** A column between two literals, of which neither may be NULL for a row to be decided. */
  method BetweenScalars(h: Host, m: Morsel, o: Operand, low: Operand, high: Operand) returns (r: Option<Mask>)
    requires m.Valid() && LiteralBounds(o, low, high)
    ensures r.Some? <==> Typed(h, m.SchemaOf(), Between(o, low, high, false))
    ensures r.Some? ==> |r.value| == m.rows && forall i :: 0 <= i < m.rows ==>
              r.value[i] == BetweenTruth(h, m.SchemaOf(), m.RowAt(i), o, low, high)
  {
    if low.value.Null? || high.value.Null? {
      return Some(Constant(Unknown, m.rows));
    }
    var name := Resolve(h, m.names, o.column);
    if name.None? {
      return None;
    }
    var column := m.columns[name.value];
    var x, y := Coerce(h, low.value, column.kind), Coerce(h, high.value, column.kind);
    if x.None? || y.None? {
      return None;
    }
    return Some(BetweenVector(column.cells, x.value, y.value));
  }

  /** Any other BETWEEN is the AND of two comparisons. */
  method BetweenOperands(h: Host, m: Morsel, o: Operand, low: Operand, high: Operand) returns (r: Option<Mask>)
    requires m.Valid() && !LiteralBounds(o, low, high)
    ensures r.Some? <==> Typed(h, m.SchemaOf(), Between(o, low, high, false))
    ensures r.Some? ==> |r.value| == m.rows && forall i :: 0 <= i < m.rows ==>
              r.value[i] == BetweenTruth(h, m.SchemaOf(), m.RowAt(i), o, low, high)
  {
    var above := CompareOperands(h, m, Ge, o, low);
    if above.None? {
      return None;
    }
    var below := CompareOperands(h, m, Le, o, high);
    if below.None? {
      return None;
    }
    return Some(AndVector(above.value, below.value));
  }

  method BetweenMask(h: Host, m: Morsel, o: Operand, low: Operand, high: Operand, negated: bool)
    returns (r: Option<Mask>)
    requires m.Valid()
    ensures r.Some? <==> Typed(h, m.SchemaOf(), Between(o, low, high, negated))
    ensures r.Some? ==> Correct(h, m, Between(o, low, high, negated), r.value)
  {
    var mask;
    if LiteralBounds(o, low, high) {
      mask := BetweenScalars(h, m, o, low, high);
    } else {
      mask := BetweenOperands(h, m, o, low, high);
    }
    return if mask.None? then None else Some(if negated then NotVector(mask.value) else mask.value);
  }

  /** The general route, one cell at a time. */
  function MatchCells(pattern: string, cells: seq<Cell>): Mask {
    seq(|cells|, i requires 0 <= i < |cells| =>
      if cells[i].Some? && cells[i].value.Text? then Truth(L.Matches(pattern, DecodeReplacing(cells[i].value.bytes)))
      else Unknown)
  }

  predicate IsTextColumn(cells: seq<Cell>) {
    forall i :: 0 <= i < |cells| && cells[i].Some? ==> cells[i].value.Text?
  }

  /** The byte range [prefix, upper) as two scalar comparisons holds exactly what starts with the
      prefix. */
  method PrefixMask(prefix: seq<Byte>, cells: seq<Cell>) returns (mask: Mask)
    requires IsTextColumn(cells)
    ensures |mask| == |cells|
    ensures forall i :: 0 <= i < |cells| ==>
              mask[i] == if cells[i].None? then Unknown else Truth(prefix <= cells[i].value.bytes)
  {
    mask := CompareScalar(cells, Ge, Text(prefix));
    var upper := L.PrefixUpperBound(prefix);
    if upper.Some? {
      mask := AndVector(mask, CompareScalar(cells, Lt, Text(upper.value)));
    }
    forall i | 0 <= i < |cells| && cells[i].Some?
      ensures mask[i] == Truth(prefix <= cells[i].value.bytes)
    {
      Trichotomy(cells[i].value, Text(prefix));
      L.PrefixRangeIsExact(prefix, cells[i].value.bytes);
    }
  }

  method RouteMask(pattern: string, cells: seq<Cell>) returns (mask: Mask)
    requires IsTextColumn(cells)
    ensures |mask| == |cells|
    ensures forall i :: 0 <= i < |cells| ==> mask[i] == LikeCell(pattern, cells[i])
  {
    match L.RouteOf(pattern)
    case Exact =>
      mask := CompareScalar(cells, Eq, Text(Encode(pattern)));
    case PrefixRange(prefix) =>
      mask := PrefixMask(Encode(prefix), cells);
    case General =>
      mask := MatchCells(pattern, cells);
  }

  method LikeMask(h: Host, m: Morsel, o: Operand, pattern: string, negated: bool)
    returns (r: Option<Mask>)
    requires m.Valid()
    ensures r.Some? <==> Typed(h, m.SchemaOf(), Like(o, pattern, negated))
    ensures r.Some? ==> Correct(h, m, Like(o, pattern, negated), r.value)
  {
    if o.Lit? {
      if o.value.Null? {
        return Some(Constant(Unknown, m.rows));
      }
      var matched := L.Matches(pattern, LiteralText(h, o.value));
      return Some(Constant(Truth(matched != negated), m.rows));
    }
    var name := Resolve(h, m.names, o.column);
    if name.None? || m.columns[name.value].kind !in {KStr, KBytes} {
      return None;
    }
    var cells := m.columns[name.value].cells;
    var mask := RouteMask(pattern, cells);
    return Some(if negated then NotVector(mask) else mask);
  }

  /** None is the error raised for a condition that is not typed. */
  method CompileMask(h: Host, c: Condition, m: Morsel) returns (r: Option<Mask>)
    requires m.Valid()
    ensures r.Some? <==> Typed(h, m.SchemaOf(), c)
    ensures r.Some? ==> Correct(h, m, c, r.value)
    decreases c
  {
    match c
    case BoolOp(connective, lhs, rhs) =>
      var left := CompileMask(h, lhs, m);
      if left.None? { return None; }
      var right := CompileMask(h, rhs, m);
      if right.None? { return None; }
      return Some(if connective == And then AndVector(left.value, right.value)
                  else OrVector(left.value, right.value));
    case Not(inner) =>
      var mask := CompileMask(h, inner, m);
      return if mask.None? then None else Some(NotVector(mask.value));
    case Comparison(op, l, right) =>
      r := CompareOperands(h, m, op, l, right);
    case IsNull(o, negated) =>
      if o.Lit? {
        return Some(Constant(Truth(o.value.Null? != negated), m.rows));
      }
      var name := Resolve(h, m.names, o.column);
      if name.None? { return None; }
      var mask := IsNullMask(m.columns[name.value].cells);
      return Some(if negated then NotVector(mask) else mask);
    case InList(o, values, negated) =>
      r := Membership(h, m, o, values, negated);
    case Between(o, low, high, negated) =>
      r := BetweenMask(h, m, o, low, high, negated);
    case Like(o, pattern, negated) =>
      r := LikeMask(h, m, o, pattern, negated);
  }
}
