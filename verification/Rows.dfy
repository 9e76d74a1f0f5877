/** Row-by-row meaning of a condition: the reference the evaluator is checked against. */
module Rows {
  import opened Wrappers
  import opened Utf8
  import opened Sql
  import opened Values
  import L = Like

  /** Column names in order, and the kind of each. */
  datatype Schema = Schema(names: seq<string>, kinds: map<string, Kind>) {
    ghost predicate Valid() { forall n :: n in names <==> n in kinds }
  }

  type Row = map<string, Cell>

  /** A row of a table with this schema: every cell is NULL or of its column's sort. */
  ghost predicate RowOf(row: Row, s: Schema)
    requires s.Valid()
  {
    forall n :: n in s.names ==>
      n in row && (row[n].Some? ==> Sort(row[n].value) == SortOf(s.kinds[n]))
  }

  // --- Column names ---------------------------------------------------------------

  function CaseMatches(h: Host, names: seq<string>, name: string): (r: seq<string>)
    ensures forall n :: n in r <==> n in names && h.lower(n) == h.lower(name)
  {
    if names == [] then []
    else
      var rest := CaseMatches(h, names[1..], name);
      if h.lower(names[0]) == h.lower(name) then [names[0]] + rest else rest
  }

  /** Exact match first; then, for an unquoted name, the only match ignoring case. */
  function Resolve(h: Host, names: seq<string>, c: Column): (r: Option<string>)
    ensures r.Some? ==> r.value in names
  {
    if c.name in names then Some(c.name)
    else
      var matches := CaseMatches(h, names, c.name);
      if !c.quoted && |matches| == 1 then Some(matches[0]) else None
  }

  /** This name, and no other in the list, is the given one but for case. */
  ghost predicate OnlyAlike(h: Host, names: seq<string>, name: string, i: nat) {
    i < |names| && forall j :: 0 <= j < |names| ==> (h.lower(names[j]) == h.lower(name) <==> j == i)
  }

  lemma {:induction false} OneMatch(h: Host, names: seq<string>, name: string) returns (i: nat)
    requires |CaseMatches(h, names, name)| == 1
    ensures OnlyAlike(h, names, name, i) && CaseMatches(h, names, name) == [names[i]]
  {
    var rest := CaseMatches(h, names[1..], name);
    assert forall j :: 1 <= j < |names| ==> names[j] == names[1..][j - 1];
    if h.lower(names[0]) == h.lower(name) {
      assert forall n :: n in names[1..] && h.lower(n) == h.lower(name) ==> n in rest;
      i := 0;
    } else {
      var k := OneMatch(h, names[1..], name);
      i := k + 1;
    }
  }

  lemma FirstIsMember<T>(s: seq<T>)
    ensures s == [] || s[0] in s
  {}

  lemma {:induction false} OnlyMatch(h: Host, names: seq<string>, name: string, i: nat)
    requires OnlyAlike(h, names, name, i)
    ensures CaseMatches(h, names, name) == [names[i]]
  {
    var rest := CaseMatches(h, names[1..], name);
    assert forall j :: 1 <= j < |names| ==> names[j] == names[1..][j - 1];
    if i == 0 {
      FirstIsMember(rest);
    } else {
      OnlyMatch(h, names[1..], name, i - 1);
    }
  }

  /** A name that occurs is itself. Any other finds a column only if it is not quoted and exactly
      one column has the name but for case, and then finds that column. */
  lemma ResolveIsExact(h: Host, names: seq<string>, c: Column)
    ensures c.name in names ==> Resolve(h, names, c) == Some(c.name)
    ensures c.name !in names && c.quoted ==> Resolve(h, names, c) == None
    ensures c.name !in names && !c.quoted ==>
              forall n ::
                Resolve(h, names, c) == Some(n) <==> exists i: nat :: OnlyAlike(h, names, c.name, i) && names[i] == n
  {
    var matches := CaseMatches(h, names, c.name);
    if c.name !in names && !c.quoted {
      if |matches| == 1 {
        var i := OneMatch(h, names, c.name);
      }
      forall i: nat | OnlyAlike(h, names, c.name, i) ensures Resolve(h, names, c) == Some(names[i]) {
        OnlyMatch(h, names, c.name, i);
      }
    }
  }

  /** The same over names that differ: none or two columns alike are no column. */
  lemma ResolveDistinct(h: Host, names: seq<string>, c: Column)
    requires forall i, j :: 0 <= i < j < |names| ==> names[i] != names[j]
    requires c.name !in names && !c.quoted
    ensures forall n :: Resolve(h, names, c) == Some(n) <==>
              n in names && h.lower(n) == h.lower(c.name) &&
              forall m :: m in names && h.lower(m) == h.lower(c.name) ==> m == n
    ensures Resolve(h, names, c).None? <==>
              (forall n :: n in names ==> h.lower(n) != h.lower(c.name)) ||
              (exists m, n :: m in names && n in names && m != n && h.lower(m) == h.lower(n) == h.lower(c.name))
  {
    ResolveIsExact(h, names, c);
    forall n | n in names && h.lower(n) == h.lower(c.name) &&
               forall m :: m in names && h.lower(m) == h.lower(c.name) ==> m == n
      ensures Resolve(h, names, c) == Some(n)
    {
      var i :| 0 <= i < |names| && names[i] == n;
      assert OnlyAlike(h, names, c.name, i);
    }
    forall i: nat | OnlyAlike(h, names, c.name, i)
      ensures forall m :: m in names && h.lower(m) == h.lower(c.name) ==> m == names[i]
    {}
  }

  // --- Which conditions are defined ------------------------------------------------

  /** Comparing this column with this literal is defined. */
  predicate ScalarTyped(h: Host, s: Schema, c: Column, v: Value)
    requires s.Valid()
  {
    v.Null? ||
    (Resolve(h, s.names, c).Some? && Coerce(h, v, s.kinds[Resolve(h, s.names, c).value]).Some?)
  }

  predicate ComparisonTyped(h: Host, s: Schema, op: Op, l: Operand, r: Operand)
    requires s.Valid()
  {
    match (l, r)
    case (Lit(a), Lit(b)) => a.Null? || b.Null? || CompareLiterals(h, op, a, b).Some?
    case (Col(c), Lit(v)) => ScalarTyped(h, s, c, v)
    case (Lit(v), Col(c)) => ScalarTyped(h, s, c, v)
    case (Col(c), Col(d)) =>
      var x, y := Resolve(h, s.names, c), Resolve(h, s.names, d);
      x.Some? && y.Some? &&
      s.kinds[x.value] != KOther && SortOf(s.kinds[x.value]) == SortOf(s.kinds[y.value])
  }

  predicate MembersTyped(h: Host, s: Schema, c: Column, values: seq<Value>)
    requires s.Valid()
  {
    forall v :: v in values ==> ScalarTyped(h, s, c, v)
  }

  predicate LiteralBounds(o: Operand, low: Operand, high: Operand) {
    o.Col? && low.Lit? && high.Lit?
  }

  /** The condition is evaluated without an error. This never depends on the rows. */
  predicate Typed(h: Host, s: Schema, c: Condition)
    requires s.Valid()
  {
    match c
    case Comparison(op, l, r) => ComparisonTyped(h, s, op, l, r)
    case IsNull(o, _) => o.Lit? || Resolve(h, s.names, o.column).Some?
    case InList(o, values, _) => o.Lit? || MembersTyped(h, s, o.column, values)
    case Between(o, low, high, _) =>
      if LiteralBounds(o, low, high) then
        low.value.Null? || high.value.Null? ||
        (ScalarTyped(h, s, o.column, low.value) && ScalarTyped(h, s, o.column, high.value))
      else
        ComparisonTyped(h, s, Ge, o, low) && ComparisonTyped(h, s, Le, o, high)
    case Like(o, _, _) =>
      o.Lit? || (Resolve(h, s.names, o.column).Some? &&
                 s.kinds[Resolve(h, s.names, o.column).value] in {KStr, KBytes})
    case BoolOp(_, l, r) => Typed(h, s, l) && Typed(h, s, r)
    case Not(x) => Typed(h, s, x)
  }

  // --- The truth of a condition on a row --------------------------------------------

  function ScalarTruth(h: Host, s: Schema, row: Row, op: Op, c: Column, v: Value): Tri
    requires s.Valid() && RowOf(row, s) && ScalarTyped(h, s, c, v)
  {
    if v.Null? then Unknown
    else
      var n := Resolve(h, s.names, c).value;
      CompareCells(op, row[n], Coerce(h, v, s.kinds[n]))
  }

  function ComparisonTruth(h: Host, s: Schema, row: Row, op: Op, l: Operand, r: Operand): Tri
    requires s.Valid() && RowOf(row, s) && ComparisonTyped(h, s, op, l, r)
  {
    match (l, r)
    case (Lit(a), Lit(b)) =>
      if a.Null? || b.Null? then Unknown else Truth(CompareLiterals(h, op, a, b).value)
    case (Col(c), Lit(v)) => ScalarTruth(h, s, row, op, c, v)
    case (Lit(v), Col(c)) =>
      if v.Null? then Unknown
      else
        var n := Resolve(h, s.names, c).value;
        CompareCells(op, Coerce(h, v, s.kinds[n]), row[n])
    case (Col(c), Col(d)) =>
      CompareCells(op, row[Resolve(h, s.names, c).value], row[Resolve(h, s.names, d).value])
  }

  /** Membership of a cell: NULL is unknown, and so is a miss in a list with a NULL. */
  function ColumnInList(h: Host, s: Schema, row: Row, c: Column, values: seq<Value>): Tri
    requires s.Valid() && RowOf(row, s) && MembersTyped(h, s, c, values)
  {
    if forall v :: v in values ==> v.Null? then Unknown
    else
      var n := Resolve(h, s.names, c).value;
      if row[n].None? then Unknown
      else if exists v :: v in values && !v.Null? && Coerce(h, v, s.kinds[n]) == row[n] then True
      else if Null in values then Unknown
      else False
  }

  function LiteralInList(h: Host, v: Value, values: seq<Value>): Tri {
    if v.Null? then Unknown
    else if exists w :: w in values && !w.Null? && CompareLiterals(h, Eq, v, w) == Some(true) then True
    else if Null in values then Unknown
    else False
  }

  /** Between literal bounds a NULL bound makes the test unknown, even where the other bound
      alone decides it. With any other shape it is the AND of two comparisons. */
  function BetweenTruth(h: Host, s: Schema, row: Row, o: Operand, low: Operand, high: Operand): Tri
    requires s.Valid() && RowOf(row, s) && Typed(h, s, Between(o, low, high, false))
  {
    if LiteralBounds(o, low, high) then
      if low.value.Null? || high.value.Null? then Unknown
      else
        var n := Resolve(h, s.names, o.column).value;
        var k := s.kinds[n];
        if row[n].None? then Unknown
        else Truth(Holds(Le, Coerce(h, low.value, k).value, row[n].value) &&
                   Holds(Le, row[n].value, Coerce(h, high.value, k).value))
    else
      Both(ComparisonTruth(h, s, row, Ge, o, low), ComparisonTruth(h, s, row, Le, o, high))
  }

  function LiteralText(h: Host, v: Value): string {
    if v.Str? then v.s else h.show(v)
  }

  function LikeCell(pattern: string, cell: Cell): Tri {
    if cell.Some? && cell.value.Text? then Truth(L.RouteMatches(pattern, cell.value.bytes)) else Unknown
  }

  /** LIKE on a cell is the wildcard matcher on its text, for every cell there is, exactly if the
      pattern goes to the matcher or has no replacement character; for UTF-8 it always is. */
  lemma LikeReadsText(pattern: string)
    ensures (forall b :: LikeCell(pattern, Some(Text(b))) == Truth(L.Matches(pattern, DecodeReplacing(b)))) <==>
            L.RouteOf(pattern).General? || REPLACEMENT !in pattern
    ensures forall s :: LikeCell(pattern, Some(Text(Encode(s)))) == Truth(L.Matches(pattern, s))
  {
    L.RoutesAgreeExactly(pattern);
    forall b ensures LikeCell(pattern, Some(Text(b))) == Truth(L.Matches(pattern, DecodeReplacing(b))) <==>
                     L.RouteAgrees(pattern, b) {}
    forall s ensures LikeCell(pattern, Some(Text(Encode(s)))) == Truth(L.Matches(pattern, s)) {
      L.RoutesAgree(pattern, s);
    }
  }

  function Signed(negated: bool, t: Tri): Tri { if negated then Negate(t) else t }

  /** SQL's three-valued truth of a condition on one row. */
  function TruthOf(h: Host, s: Schema, row: Row, c: Condition): Tri
    requires s.Valid() && RowOf(row, s) && Typed(h, s, c)
  {
    match c
    case Comparison(op, l, r) => ComparisonTruth(h, s, row, op, l, r)
    case IsNull(o, negated) =>
      var isNull := if o.Lit? then o.value.Null? else row[Resolve(h, s.names, o.column).value].None?;
      Truth(isNull != negated)
    case InList(o, values, negated) =>
      Signed(negated, if o.Lit? then LiteralInList(h, o.value, values)
                      else ColumnInList(h, s, row, o.column, values))
    case Between(o, low, high, negated) => Signed(negated, BetweenTruth(h, s, row, o, low, high))
    case Like(o, pattern, negated) =>
      Signed(negated,
        if o.Lit? then
          if o.value.Null? then Unknown else Truth(L.Matches(pattern, LiteralText(h, o.value)))
        else LikeCell(pattern, row[Resolve(h, s.names, o.column).value]))
    case BoolOp(And, l, r) => Both(TruthOf(h, s, row, l), TruthOf(h, s, row, r))
    case BoolOp(Or, l, r) => Either(TruthOf(h, s, row, l), TruthOf(h, s, row, r))
    case Not(x) => Negate(TruthOf(h, s, row, x))
  }

  /** BETWEEN with two literal bounds that are not NULL is what it abbreviates. */
  lemma BetweenIsTwoComparisons(h: Host, s: Schema, row: Row, o: Operand, low: Operand, high: Operand)
    requires s.Valid() && RowOf(row, s) && LiteralBounds(o, low, high) && !low.value.Null? && !high.value.Null?
    requires Typed(h, s, Between(o, low, high, false))
    ensures ComparisonTyped(h, s, Ge, o, low) && ComparisonTyped(h, s, Le, o, high)
    ensures BetweenTruth(h, s, row, o, low, high) ==
            Both(ComparisonTruth(h, s, row, Ge, o, low), ComparisonTruth(h, s, row, Le, o, high))
  {
    var n := Resolve(h, s.names, o.column).value;
    FlippingSwapsOperands(Le, Coerce(h, low.value, s.kinds[n]), row[n]);
  }

  function LiteralEquals(h: Host, v: Value, w: Value): Tri {
    if v.Null? || w.Null? then Unknown
    else
      LiteralsCompare(h, Eq, v, w);
      Truth(CompareLiterals(h, Eq, v, w).value)
  }

  /** v = w1 OR v = w2 OR ... */
  function EqualsAny(h: Host, v: Value, values: seq<Value>): Tri
    requires values != []
  {
    var n := |values| - 1;
    if n == 0 then LiteralEquals(h, v, values[0])
    else Either(EqualsAny(h, v, values[..n]), LiteralEquals(h, v, values[n]))
  }

  lemma OneMoreMember(h: Host, v: Value, values: seq<Value>, w: Value)
    ensures LiteralInList(h, v, values + [w]) ==
            if values == [] then LiteralEquals(h, v, w) else Either(LiteralInList(h, v, values), LiteralEquals(h, v, w))
  {
    var all := values + [w];
    assert forall u :: u in all <==> u in values || u == w;
    if !v.Null? && !w.Null? {
      LiteralsCompare(h, Eq, v, w);
      assert w in all;
    }
  }

  /** IN on a literal is the OR of the equalities, too. */
  lemma {:induction false} LiteralMembership(h: Host, v: Value, values: seq<Value>)
    requires values != []
    ensures LiteralInList(h, v, values) == EqualsAny(h, v, values)
    decreases |values|
  {
    var n := |values| - 1;
    assert values == values[..n] + [values[n]];
    OneMoreMember(h, v, values[..n], values[n]);
    if n > 0 { LiteralMembership(h, v, values[..n]); }
  }

  // --- NULL in a BETWEEN -------------------------------------------------------------------

  /** The operand is NULL on this row. A column that does not exist is not. */
  predicate IsNullOn(h: Host, s: Schema, row: Row, o: Operand)
    requires s.Valid() && RowOf(row, s)
  {
    if o.Lit? then o.value.Null?
    else
      var n := Resolve(h, s.names, o.column);
      n.Some? && row[n.value].None?
  }

  predicate AnyNullOn(h: Host, s: Schema, row: Row, o: Operand, low: Operand, high: Operand)
    requires s.Valid() && RowOf(row, s)
  {
    IsNullOn(h, s, row, o) || IsNullOn(h, s, row, low) || IsNullOn(h, s, row, high)
  }

  /** The rule under which BETWEEN is unknown whenever something in it is NULL. */
  function BetweenNullUnknown(h: Host, s: Schema, row: Row, o: Operand, low: Operand, high: Operand): Tri
    requires s.Valid() && RowOf(row, s) && Typed(h, s, Between(o, low, high, false))
  {
    if AnyNullOn(h, s, row, o, low, high) then Unknown else BetweenTruth(h, s, row, o, low, high)
  }

  /** One of the two comparisons that a BETWEEN abbreviates is false by itself. */
  predicate OneSideFails(h: Host, s: Schema, row: Row, o: Operand, low: Operand, high: Operand)
    requires s.Valid() && RowOf(row, s)
    requires ComparisonTyped(h, s, Ge, o, low) && ComparisonTyped(h, s, Le, o, high)
  {
    ComparisonTruth(h, s, row, Ge, o, low) == False || ComparisonTruth(h, s, row, Le, o, high) == False
  }

  /** The two rules differ exactly where the operand is not a column between two literals,
      something is NULL, and one side fails all the same: then BETWEEN is false, not unknown. */
  lemma BetweenNullRulesDiffer(h: Host, s: Schema, row: Row, o: Operand, low: Operand, high: Operand)
    requires s.Valid() && RowOf(row, s) && Typed(h, s, Between(o, low, high, false))
    ensures BetweenTruth(h, s, row, o, low, high) != BetweenNullUnknown(h, s, row, o, low, high) <==>
            (!LiteralBounds(o, low, high) && AnyNullOn(h, s, row, o, low, high) &&
             OneSideFails(h, s, row, o, low, high))
    ensures BetweenTruth(h, s, row, o, low, high) != BetweenNullUnknown(h, s, row, o, low, high) ==>
              BetweenTruth(h, s, row, o, low, high) == False
  {
    if !LiteralBounds(o, low, high) {
      SomeNullSomeUnknown(h, s, row, o, low, high);
    }
  }

  /** One of the two comparisons is unknown exactly if something is NULL. */
  lemma SomeNullSomeUnknown(h: Host, s: Schema, row: Row, o: Operand, low: Operand, high: Operand)
    requires s.Valid() && RowOf(row, s)
    requires ComparisonTyped(h, s, Ge, o, low) && ComparisonTyped(h, s, Le, o, high)
    ensures AnyNullOn(h, s, row, o, low, high) <==>
            ComparisonTruth(h, s, row, Ge, o, low) == Unknown || ComparisonTruth(h, s, row, Le, o, high) == Unknown
  {
    UnknownIfNull(h, s, row, Ge, o, low);
    UnknownIfNull(h, s, row, Le, o, high);
  }

  lemma UnknownIfNull(h: Host, s: Schema, row: Row, op: Op, l: Operand, r: Operand)
    requires s.Valid() && RowOf(row, s) && ComparisonTyped(h, s, op, l, r)
    ensures ComparisonTruth(h, s, row, op, l, r) == Unknown <==> IsNullOn(h, s, row, l) || IsNullOn(h, s, row, r)
  {}

  /** What NULL does to the other tests: LIKE is unknown exactly on NULL, IN is always unknown on it,
      and IS NULL is never unknown but tells it. */
  lemma TestsOfNull(h: Host, s: Schema, row: Row, o: Operand, pattern: string, values: Members, negated: bool)
    requires s.Valid() && RowOf(row, s)
    ensures Typed(h, s, Like(o, pattern, negated)) ==>
              (TruthOf(h, s, row, Like(o, pattern, negated)) == Unknown <==> IsNullOn(h, s, row, o))
    ensures Typed(h, s, InList(o, values, negated)) && IsNullOn(h, s, row, o) ==>
              TruthOf(h, s, row, InList(o, values, negated)) == Unknown
    ensures Typed(h, s, IsNull(o, negated)) ==>
              TruthOf(h, s, row, IsNull(o, negated)) == Truth(IsNullOn(h, s, row, o) <==> !negated)
  {}

  /** The smallest case: on a column NULL AND 3 is unknown, but 5 BETWEEN NULL AND 3 is false. */
  lemma BetweenNullHasTwoMeanings(h: Host, s: Schema, row: Row, c: Column)
    requires s.Valid() && RowOf(row, s)
    ensures var onColumn := Between(Col(c), Lit(Null), Lit(Int(3)), false);
            Typed(h, s, onColumn) && TruthOf(h, s, row, onColumn) == Unknown
    ensures var onLiteral := Between(Lit(Int(5)), Lit(Null), Lit(Int(3)), false);
            Typed(h, s, onLiteral) && TruthOf(h, s, row, onLiteral) == False
  {
    assert CompareLiterals(h, Le, Int(5), Int(3)) == Some(false);
  }
}
