/** Printing queries in every way the grammar leaves open: the tokens that are printed spell the
    query. Printers take the tokens that follow, so that places can be told apart. */
module Printer {
  import opened Wrappers
  import opened Sql
  import opened Lexer
  import opened Lexical
  import opened Grammar
  import opened Spelling
  import Decimal

  // --- What can be written -----------------------------------------------------------------

  predicate WritableColumn(c: Column) { c.quoted || IsIdentifier(c.name) }

  ghost predicate WritableValue(v: Value) {
    v.Float? ==> IsNumeral(v.numeral) && HasFloatMark(v.numeral)
  }

  ghost predicate WritableOperand(o: Operand) {
    match o case Col(c) => WritableColumn(c) case Lit(v) => WritableValue(v)
  }

  /** Unquoted names are identifiers and float literals are float numerals: this is all a query
      needs to be written down. */
  ghost predicate Writable(c: Condition) {
    match c
    case Comparison(_, l, r) => WritableOperand(l) && WritableOperand(r)
    case IsNull(o, _) => WritableOperand(o)
    case InList(o, values, _) => WritableOperand(o) && forall i :: 0 <= i < |values| ==> WritableValue(values[i])
    case Between(o, low, high, _) => WritableOperand(o) && WritableOperand(low) && WritableOperand(high)
    case Like(o, _, _) => WritableOperand(o)
    case BoolOp(_, l, r) => Writable(l) && Writable(r)
    case Not(x) => Writable(x)
  }

  predicate WritableItems(items: seq<(Column, string)>) {
    items != [] && forall i :: 0 <= i < |items| ==> WritableColumn(items[i].0)
  }

  /** `columnsUsed` repeats the columns of the query, so it is not free. */
  ghost predicate WritableQuery(q: Query) {
    && (q.projection.Some? ==> WritableItems(q.projection.value))
    && (q.where.Some? ==> Writable(q.where.value))
    && q.columnsUsed == ProjectedOf(q.projection) + ComparedOf(q.where)
  }

  // --- Spellings ---------------------------------------------------------------------------

  /** How the output name of a column is written: in quotes or plainly, after AS or without it, or
      not at all, if it is the column's own. */
  datatype OutputForm = AsQuoted | AsPlain | JustQuoted | JustPlain | Own

  /** Everything a query leaves open to whoever writes it. The choices that come up at many places
      are functions of the number of tokens that follow, so that every place has its own. */
  datatype Style = Style(
    alias: Option<string>,
    aliasAfterAs: bool,
    table: Token,
    semicolon: bool,
    prefix: nat -> Option<Token>,
    angle: nat -> bool,
    parentheses: (nat, Condition) -> nat,
    minus: nat -> bool,
    zeros: nat -> nat,
    output: nat -> OutputForm)

  function ScopeOf(lower: string -> string, st: Style): Scope { Scope(lower, st.alias) }

  /** The table is S3Object and every prefix is the alias, both in any case. */
  ghost predicate Sensible(lower: string -> string, st: Style) {
    && IsName(st.table) && lower(st.table.value) == "s3object"
    && forall n :: st.prefix(n).Some? ==>
         IsName(st.prefix(n).value) && ScopeOf(lower, st).Admits(st.prefix(n).value.value)
  }

  // --- Tokens of a query -----------------------------------------------------------------------

  function LiteralToken(st: Style, v: Value, k: seq<Token>): Token {
    match v
    case Null => K("NULL")
    case Bool(b) => K(if b then "TRUE" else "FALSE")
    case Int(n) => Token(Number, IntText(n, st.minus(|k|), st.zeros(|k|)))
    case Float(t) => Token(Number, t)
    case Str(s) => Token(String, s)
  }

  /** A column, with or without a prefix. */
  function ColumnTokens(st: Style, c: Column, k: seq<Token>): seq<Token> {
    var prefix := st.prefix(|k|);
    if prefix.None? then [NameToken(c)] + k else [prefix.value] + ([P(".")] + ([NameToken(c)] + k))
  }

  function OperandTokens(st: Style, o: Operand, k: seq<Token>): seq<Token> {
    match o case Col(c) => ColumnTokens(st, c, k) case Lit(v) => [LiteralToken(st, v, k)] + k
  }

  function OpText(op: Op, angle: bool): string {
    match op
    case Eq => "=" case Ne => if angle then "<>" else "!="
    case Lt => "<" case Le => "<=" case Gt => ">" case Ge => ">="
  }

  function OpToken(st: Style, op: Op, k: seq<Token>): Token { Token(Operator, OpText(op, st.angle(|k|))) }

  /** Members after the first, each after a comma. */
  function MemberTokens(st: Style, values: seq<Value>, k: seq<Token>): seq<Token> {
    if values == [] then k
    else
      var rest := MemberTokens(st, values[1..], k);
      [P(",")] + ([LiteralToken(st, values[0], rest)] + rest)
  }

  function ListTokens(st: Style, values: Members, k: seq<Token>): seq<Token> {
    var rest := MemberTokens(st, values[1..], [P(")")] + k);
    [P("(")] + ([LiteralToken(st, values[0], rest)] + rest)
  }

  /** The bounds of a BETWEEN. */
  function BoundTokens(st: Style, low: Operand, high: Operand, k: seq<Token>): seq<Token> {
    OperandTokens(st, low, [K("AND")] + OperandTokens(st, high, k))
  }

  /** The tokens of a predicate after its first operand. */
  function TestTokens(st: Style, c: Condition, k: seq<Token>): seq<Token>
    requires LevelOf(c) == 3
  {
    match c
    case Comparison(op, l, r) =>
      var right := OperandTokens(st, r, k);
      [OpToken(st, op, right)] + right
    case IsNull(o, negated) => [K("IS")] + WithNot(negated, [K("NULL")] + k)
    case InList(o, values, negated) => WithNot(negated, [K("IN")] + ListTokens(st, values, k))
    case Between(o, low, high, negated) => WithNot(negated, [K("BETWEEN")] + BoundTokens(st, low, high, k))
    case Like(o, pattern, negated) => WithNot(negated, [K("LIKE")] + ([Token(String, pattern)] + k))
  }

  /** The pairs of parentheses around a condition: those it needs, and more if one likes. */
  function Pairs(st: Style, level: nat, c: Condition, k: seq<Token>): nat {
    var n := st.parentheses(|k|, c);
    if LevelOf(c) < level && n == 0 then 1 else n
  }

  function ConditionTokens(st: Style, level: nat, c: Condition, k: seq<Token>): seq<Token>
    decreases c, 2, 0
  {
    ParenTokens(st, Pairs(st, level, c, k), c, k)
  }

  function ParenTokens(st: Style, n: nat, c: Condition, k: seq<Token>): seq<Token>
    decreases c, 1, n
  {
    if n == 0 then BareTokens(st, c, k) else [P("(")] + ParenTokens(st, n - 1, c, [P(")")] + k)
  }

  function BareTokens(st: Style, c: Condition, k: seq<Token>): seq<Token>
    decreases c, 0, 0
  {
    match c
    case BoolOp(Or, l, r) => ConditionTokens(st, 0, l, [K("OR")] + ConditionTokens(st, 1, r, k))
    case BoolOp(And, l, r) => ConditionTokens(st, 1, l, [K("AND")] + ConditionTokens(st, 2, r, k))
    case Not(x) => [K("NOT")] + ConditionTokens(st, 2, x, k)
    case _ => OperandTokens(st, FirstOperand(c), TestTokens(st, c, k))
  }

  /** Forms that would be read as something else are not used: a name that differs from the
      column's cannot be left out, one that is no identifier has to be quoted, and "(" right after
      an unquoted column would be taken for a function call. */
  function FormOf(st: Style, item: (Column, string), k: seq<Token>): OutputForm {
    var form := st.output(|k|);
    if form == Own && item.1 != item.0.name then AsQuoted
    else if form in {AsPlain, JustPlain} && !IsIdentifier(item.1) then AsQuoted
    else if form == JustQuoted && item.1 == "(" && !item.0.quoted && st.prefix(|k| + 1).None? then AsQuoted
    else form
  }

  function NamedTokens(form: OutputForm, name: string, k: seq<Token>): seq<Token> {
    match form
    case AsQuoted => [K("AS")] + ([Token(Quoted, name)] + k)
    case AsPlain => [K("AS")] + ([Token(Ident, name)] + k)
    case JustQuoted => [Token(Quoted, name)] + k
    case JustPlain => [Token(Ident, name)] + k
    case Own => k
  }

  function ItemTokens(st: Style, item: (Column, string), k: seq<Token>): seq<Token> {
    ColumnTokens(st, item.0, NamedTokens(FormOf(st, item, k), item.1, k))
  }

  function MoreItemTokens(st: Style, items: seq<(Column, string)>, k: seq<Token>): seq<Token> {
    if items == [] then k else [P(",")] + ItemTokens(st, items[0], MoreItemTokens(st, items[1..], k))
  }

  function EndTokens(st: Style): seq<Token> { if st.semicolon then [P(";")] + [EndToken] else [EndToken] }

  function LimitTokens(st: Style, limit: Option<nat>): seq<Token> {
    if limit.None? then EndTokens(st)
    else [K("LIMIT")] + ([Token(Number, Decimal.Padded(limit.value, st.zeros(|EndTokens(st)|)))] + EndTokens(st))
  }

  function WhereTokens(st: Style, where: Option<Condition>, k: seq<Token>): seq<Token> {
    if where.None? then k else [K("WHERE")] + ConditionTokens(st, 0, where.value, k)
  }

  function AliasTokens(st: Style, k: seq<Token>): seq<Token> {
    if st.alias.None? then k
    else if st.aliasAfterAs then [K("AS")] + ([Token(Ident, st.alias.value)] + k)
    else [Token(Ident, st.alias.value)] + k
  }

  function FromTokens(st: Style, k: seq<Token>): seq<Token> { [K("FROM")] + ([st.table] + AliasTokens(st, k)) }

  function ProjectionTokens(st: Style, projection: Option<seq<(Column, string)>>, k: seq<Token>): seq<Token>
    requires projection.Some? ==> projection.value != []
  {
    if projection.None? then [P("*")] + k
    else ItemTokens(st, projection.value[0], MoreItemTokens(st, projection.value[1..], k))
  }

  function QueryTokens(st: Style, q: Query): seq<Token>
    requires q.projection.Some? ==> q.projection.value != []
  {
    [K("SELECT")] + ProjectionTokens(st, q.projection,
      FromTokens(st, WhereTokens(st, q.where, LimitTokens(st, q.limit))))
  }

  // --- They spell the query ---------------------------------------------------------------------

  lemma LiteralIsSpelled(st: Style, v: Value, k: seq<Token>)
    requires WritableValue(v)
    ensures LiteralSpelled(v, LiteralToken(st, v, k))
  {
    if v.Int? {
      assert IsInteger(v.n, IntText(v.n, st.minus(|k|), st.zeros(|k|)));
    }
  }

  lemma ColumnIsSpelled(lower: string -> string, st: Style, c: Column, k: seq<Token>)
    requires Sensible(lower, st)
    ensures ColumnSpelled(ScopeOf(lower, st), c, ColumnTokens(st, c, k), k)
  {}

  lemma OperandIsSpelled(lower: string -> string, st: Style, o: Operand, k: seq<Token>)
    requires Sensible(lower, st) && WritableOperand(o)
    ensures OperandSpelled(ScopeOf(lower, st), o, OperandTokens(st, o, k), k)
  {
    match o
    case Col(c) => ColumnIsSpelled(lower, st, c, k);
    case Lit(v) => LiteralIsSpelled(st, v, k);
  }

  /** Literals with commas between them. */
  function CommaTokens(st: Style, values: Members, k: seq<Token>): seq<Token> {
    var rest := MemberTokens(st, values[1..], [P(")")] + k);
    [LiteralToken(st, values[0], rest)] + rest
  }

  lemma {:induction false} MembersAreSpelled(st: Style, values: Members, k: seq<Token>)
    requires forall i :: 0 <= i < |values| ==> WritableValue(values[i])
    ensures MembersSpelled(values, CommaTokens(st, values, k), k)
    decreases |values|
  {
    var ts, rest := CommaTokens(st, values, k), MemberTokens(st, values[1..], [P(")")] + k);
    LiteralIsSpelled(st, values[0], rest);
    if |values| > 1 {
      MembersAreSpelled(st, values[1..], k);
      assert ts[1..] == rest && ts[2..] == CommaTokens(st, values[1..], k);
    }
  }

  lemma BoundsAreSpelled(lower: string -> string, st: Style, low: Operand, high: Operand, k: seq<Token>)
    requires Sensible(lower, st) && WritableOperand(low) && WritableOperand(high)
    ensures BoundsSpelled(ScopeOf(lower, st), low, high, BoundTokens(st, low, high, k), k)
  {
    OperandIsSpelled(lower, st, high, k);
    OperandIsSpelled(lower, st, low, [K("AND")] + OperandTokens(st, high, k));
  }

  lemma TestIsSpelled(lower: string -> string, st: Style, c: Condition, k: seq<Token>)
    requires Sensible(lower, st) && LevelOf(c) == 3 && Writable(c)
    ensures TestSpelled(ScopeOf(lower, st), c, TestTokens(st, c, k), k)
  {
    match c
    case Comparison(op, l, r) => OperandIsSpelled(lower, st, r, k);
    case InList(o, values, negated) =>
      MembersAreSpelled(st, values, k);
      assert ListTokens(st, values, k) == [P("(")] + CommaTokens(st, values, k);
    case Between(o, low, high, negated) => BoundsAreSpelled(lower, st, low, high, k);
    case _ =>
  }

  lemma {:induction false} ConditionIsSpelled(lower: string -> string, st: Style, level: nat, c: Condition,
                                              k: seq<Token>)
    requires Sensible(lower, st) && Writable(c)
    ensures ConditionSpelled(ScopeOf(lower, st), level, c, ConditionTokens(st, level, c, k), k)
    decreases c, 2, 0
  {
    ParenIsSpelled(lower, st, level, Pairs(st, level, c, k), c, k);
  }

  lemma {:induction false} ParenIsSpelled(lower: string -> string, st: Style, level: nat, n: nat, c: Condition,
                                          k: seq<Token>)
    requires Sensible(lower, st) && Writable(c) && (n > 0 || level <= LevelOf(c))
    ensures ConditionSpelled(ScopeOf(lower, st), level, c, ParenTokens(st, n, c, k), k)
    decreases c, 1, n
  {
    if n == 0 { BareIsSpelled(lower, st, level, c, k); } else { ParenIsSpelled(lower, st, 0, n - 1, c, [P(")")] + k); }
  }

  lemma {:induction false} BareIsSpelled(lower: string -> string, st: Style, level: nat, c: Condition, k: seq<Token>)
    requires Sensible(lower, st) && Writable(c) && level <= LevelOf(c)
    ensures ConditionSpelled(ScopeOf(lower, st), level, c, BareTokens(st, c, k), k)
    decreases c, 0, 0
  {
    match c
    case BoolOp(Or, l, r) =>
      ConditionIsSpelled(lower, st, 1, r, k);
      ConditionIsSpelled(lower, st, 0, l, [K("OR")] + ConditionTokens(st, 1, r, k));
    case BoolOp(And, l, r) =>
      ConditionIsSpelled(lower, st, 2, r, k);
      ConditionIsSpelled(lower, st, 1, l, [K("AND")] + ConditionTokens(st, 2, r, k));
    case Not(x) =>
      ConditionIsSpelled(lower, st, 2, x, k);
    case _ =>
      TestIsSpelled(lower, st, c, k);
      OperandIsSpelled(lower, st, FirstOperand(c), TestTokens(st, c, k));
  }

  predicate WritableAlias(alias: Option<string>) { alias.Some? ==> IsIdentifier(alias.value) }

  lemma NameIsSpelled(st: Style, item: (Column, string), k: seq<Token>)
    ensures NameSpelled(item.0.name, item.1, NamedTokens(FormOf(st, item, k), item.1, k), k)
  {
    assert IsName(Token(Quoted, item.1)) && IsName(Token(Ident, item.1));
  }

  lemma ItemIsSpelled(lower: string -> string, st: Style, item: (Column, string), k: seq<Token>)
    requires Sensible(lower, st) && k != [] && k[0] in {P(","), K("FROM")}
    ensures ItemSpelled(ScopeOf(lower, st), item, ItemTokens(st, item, k), k)
  {
    var m := NamedTokens(FormOf(st, item, k), item.1, k);
    ColumnIsSpelled(lower, st, item.0, m);
    NameIsSpelled(st, item, k);
    if st.prefix(|m|).None? && !item.0.quoted {
      assert m[0].value != "(";
    }
  }

  lemma {:induction false} ItemsAreSpelled(lower: string -> string, st: Style, items: Items, k: seq<Token>)
    requires Sensible(lower, st) && k != [] && k[0] == K("FROM")
    ensures ItemsSpelled(ScopeOf(lower, st), items, ItemTokens(st, items[0], MoreItemTokens(st, items[1..], k)), k)
    decreases |items|
  {
    ItemIsSpelled(lower, st, items[0], MoreItemTokens(st, items[1..], k));
    if |items| > 1 {
      ItemsAreSpelled(lower, st, items[1..], k);
    }
  }

  lemma LimitIsSpelled(st: Style, limit: Option<nat>)
    ensures LimitedSpelled(limit, LimitTokens(st, limit))
  {
    assert EndSpelled(EndTokens(st));
    if limit.Some? {
      assert IsNatural(limit.value, Decimal.Padded(limit.value, st.zeros(|EndTokens(st)|)));
      assert LimitTokens(st, limit)[2..] == EndTokens(st);
    }
    assert LimitSpelled(limit, LimitTokens(st, limit), EndTokens(st));
  }

  lemma FromIsSpelled(lower: string -> string, st: Style, k: seq<Token>)
    requires Sensible(lower, st)
    ensures FromSpelled(ScopeOf(lower, st), FromTokens(st, k), k)
  {
    assert FromTokens(st, k)[2..] == AliasTokens(st, k);
  }

  lemma QueryIsSpelled(lower: string -> string, st: Style, q: Query)
    requires Sensible(lower, st) && WritableQuery(q)
    ensures SelectSpelled(ScopeOf(lower, st), q, QueryTokens(st, q))
  {
    var scope := ScopeOf(lower, st);
    var limit := LimitTokens(st, q.limit);
    var where := WhereTokens(st, q.where, limit);
    var from := FromTokens(st, where);
    LimitIsSpelled(st, q.limit);
    if q.where.Some? {
      ConditionIsSpelled(lower, st, 0, q.where.value, limit);
    }
    assert RestSpelled(scope, q, where);
    FromIsSpelled(lower, st, where);
    if q.projection.Some? {
      ItemsAreSpelled(lower, st, q.projection.value, from);
    }
    assert ProjectionSpelled(scope, q.projection, QueryTokens(st, q)[1..], from);
  }

  /** Parsing the tokens of a query gives it back, whatever spelling is chosen at each place. */
  lemma PrintedIsParsed(lower: string -> string, st: Style, q: Query)
    requires WritableQuery(q) && Sensible(lower, st)
    ensures Terminated(QueryTokens(st, q)) && ParseQuery(lower, QueryTokens(st, q)) == Some(q)
  {
    QueryIsSpelled(lower, st, q);
    QueryBack(ScopeOf(lower, st), q, QueryTokens(st, q));
  }
}
