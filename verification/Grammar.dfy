/** The grammar as functions from the tokens that are left to what is parsed, the tokens then
    left, and the column references met on the way. `Parser` does the same step by step. */
module Grammar {
  import opened Wrappers
  import opened Sql
  import opened Lexer
  import Decimal

  /** A column reference with its table prefix, if it has one. */
  type Ref = (Option<string>, Column)

  datatype Parsed<T> = Failed | Parsed(value: T, rest: seq<Token>, refs: seq<Ref>)

  function Columns(refs: seq<Ref>): seq<Column> { seq(|refs|, i requires 0 <= i < |refs| => refs[i].1) }

  /** A successful parse stops before the end token and has moved on. */
  predicate Advances<T>(ts: seq<Token>, r: Parsed<T>) {
    r.Parsed? ==> Terminated(r.rest) && |r.rest| < |ts|
  }

  predicate At(ts: seq<Token>, kind: TokenKind, value: string) {
    ts != [] && ts[0] == Token(kind, value)
  }

  predicate AtName(ts: seq<Token>) { ts != [] && ts[0].kind in {Ident, Quoted} }

  // --- Operands ----------------------------------------------------------------------------

  function LiteralOf(t: Token): Option<Value> {
    match t.kind
    case String => Some(Str(t.value))
    case Number =>
      if exists c :: c in t.value && c in {'.', 'e', 'E'} then Some(Float(t.value))
      else ReadInt(t.value)
    case Keyword =>
      if t.value == "TRUE" then Some(Bool(true))
      else if t.value == "FALSE" then Some(Bool(false))
      else if t.value == "NULL" then Some(Null)
      else None
    case _ => None
  }

  /** `int(text)`; the tokenizer only makes numerals for which it is defined. */
  function ReadInt(s: string): Option<Value> {
    if s != "" && s[0] == '-' && s[1..] != "" && Decimal.AllDigits(s[1..]) then Some(Int(0 - Decimal.Read(s[1..])))
    else if s != "" && Decimal.AllDigits(s) then Some(Int(Decimal.Read(s)))
    else None
  }

  function ParseLiteral(ts: seq<Token>): (r: Parsed<Value>)
    requires Terminated(ts)
    ensures Advances(ts, r) && (r.Parsed? ==> r.refs == [])
  {
    match LiteralOf(ts[0]) case None => Failed case Some(v) => Parsed(v, ts[1..], [])
  }

  function ParseColumnRef(ts: seq<Token>): (r: Parsed<Column>)
    requires Terminated(ts)
    ensures Advances(ts, r) && (r.Parsed? ==> Columns(r.refs) == [r.value])
  {
    if !AtName(ts) then Failed
    else if At(ts[1..], Punct, ".") then
      if AtName(ts[2..]) then
        var c := Column(ts[2].value, ts[2].kind == Quoted);
        Parsed(c, ts[3..], [(Some(ts[0].value), c)])
      else Failed
    else
      var c := Column(ts[0].value, ts[0].kind == Quoted);
      Parsed(c, ts[1..], [(None, c)])
  }

  /** A name before an opening parenthesis is a function call, which is not supported. Only the
      text of the next token is looked at. */
  function ParseOperand(ts: seq<Token>): (r: Parsed<Operand>)
    requires Terminated(ts)
    ensures Advances(ts, r) && (r.Parsed? ==> Columns(r.refs) == OperandColumns(r.value))
  {
    if AtName(ts) then
      if ts[1].value == "(" then Failed
      else
        match ParseColumnRef(ts)
        case Failed => Failed
        case Parsed(c, rest, refs) => Parsed(Col(c), rest, refs)
    else
      match ParseLiteral(ts)
      case Failed => Failed
      case Parsed(v, rest, refs) => Parsed(Lit(v), rest, refs)
  }

  // --- Conditions ----------------------------------------------------------------------------

  predicate Sound(ts: seq<Token>, r: Parsed<Condition>) {
    Advances(ts, r) && (r.Parsed? ==> Columns(r.refs) == ColumnsOf(r.value))
  }

  lemma ColumnsAppend(a: seq<Ref>, b: seq<Ref>)
    ensures Columns(a + b) == Columns(a) + Columns(b)
  {}

  function ParseOr(ts: seq<Token>): (r: Parsed<Condition>)
    requires Terminated(ts)
    ensures Sound(ts, r)
    decreases |ts|, 4
  {
    match ParseAnd(ts)
    case Failed => Failed
    case Parsed(left, rest, refs) => OrTail(left, refs, rest)
  }

  /** The rest of a chain of ORs, of which `left` has been parsed. */
  function OrTail(left: Condition, refs: seq<Ref>, ts: seq<Token>): (r: Parsed<Condition>)
    requires Terminated(ts) && Columns(refs) == ColumnsOf(left)
    ensures r.Parsed? ==> Terminated(r.rest) && |r.rest| <= |ts| && Columns(r.refs) == ColumnsOf(r.value)
    decreases |ts|, 5
  {
    if At(ts, Keyword, "OR") then
      match ParseAnd(ts[1..])
      case Failed => Failed
      case Parsed(c, rest, more) =>
        ColumnsAppend(refs, more);
        OrTail(BoolOp(Or, left, c), refs + more, rest)
    else Parsed(left, ts, refs)
  }

  function ParseAnd(ts: seq<Token>): (r: Parsed<Condition>)
    requires Terminated(ts)
    ensures Sound(ts, r)
    decreases |ts|, 3
  {
    match ParseNot(ts)
    case Failed => Failed
    case Parsed(left, rest, refs) => AndTail(left, refs, rest)
  }

  function AndTail(left: Condition, refs: seq<Ref>, ts: seq<Token>): (r: Parsed<Condition>)
    requires Terminated(ts) && Columns(refs) == ColumnsOf(left)
    ensures r.Parsed? ==> Terminated(r.rest) && |r.rest| <= |ts| && Columns(r.refs) == ColumnsOf(r.value)
    decreases |ts|, 4
  {
    if At(ts, Keyword, "AND") then
      match ParseNot(ts[1..])
      case Failed => Failed
      case Parsed(c, rest, more) =>
        ColumnsAppend(refs, more);
        AndTail(BoolOp(And, left, c), refs + more, rest)
    else Parsed(left, ts, refs)
  }

  lemma OrStep(left: Condition, refs: seq<Ref>, ts: seq<Token>)
    requires Terminated(ts) && Columns(refs) == ColumnsOf(left) && At(ts, Keyword, "OR")
    ensures ParseAnd(ts[1..]).Failed? ==> OrTail(left, refs, ts) == Failed
    ensures ParseAnd(ts[1..]).Parsed? ==>
              var p := ParseAnd(ts[1..]);
              Columns(refs + p.refs) == ColumnsOf(BoolOp(Or, left, p.value)) &&
              OrTail(left, refs, ts) == OrTail(BoolOp(Or, left, p.value), refs + p.refs, p.rest)
  {
    if ParseAnd(ts[1..]).Parsed? {
      ColumnsAppend(refs, ParseAnd(ts[1..]).refs);
    }
  }

  lemma AndStep(left: Condition, refs: seq<Ref>, ts: seq<Token>)
    requires Terminated(ts) && Columns(refs) == ColumnsOf(left) && At(ts, Keyword, "AND")
    ensures ParseNot(ts[1..]).Failed? ==> AndTail(left, refs, ts) == Failed
    ensures ParseNot(ts[1..]).Parsed? ==>
              var p := ParseNot(ts[1..]);
              Columns(refs + p.refs) == ColumnsOf(BoolOp(And, left, p.value)) &&
              AndTail(left, refs, ts) == AndTail(BoolOp(And, left, p.value), refs + p.refs, p.rest)
  {
    if ParseNot(ts[1..]).Parsed? {
      ColumnsAppend(refs, ParseNot(ts[1..]).refs);
    }
  }

  function ParseNot(ts: seq<Token>): (r: Parsed<Condition>)
    requires Terminated(ts)
    ensures Sound(ts, r)
    decreases |ts|, 2
  {
    if At(ts, Keyword, "NOT") then
      match ParseNot(ts[1..])
      case Failed => Failed
      case Parsed(c, rest, refs) => Parsed(Not(c), rest, refs)
    else ParsePredicate(ts)
  }

  function ParsePredicate(ts: seq<Token>): (r: Parsed<Condition>)
    requires Terminated(ts)
    ensures Sound(ts, r)
    decreases |ts|, 1
  {
    if At(ts, Punct, "(") then
      match ParseOr(ts[1..])
      case Failed => Failed
      case Parsed(c, rest, refs) => if At(rest, Punct, ")") then Parsed(c, rest[1..], refs) else Failed
    else
      match ParseOperand(ts)
      case Failed => Failed
      case Parsed(o, rest, refs) => ParseTest(o, refs, rest)
  }

  /** What follows the first operand of a predicate. */
  function ParseTest(o: Operand, refs: seq<Ref>, ts: seq<Token>): (r: Parsed<Condition>)
    requires Terminated(ts) && Columns(refs) == OperandColumns(o)
    ensures Sound(ts, r)
  {
    if At(ts, Keyword, "IS") then ParseNullTest(o, refs, ts[1..])
    else
      var negated := At(ts, Keyword, "NOT");
      ParseWordTest(o, refs, negated, if negated then ts[1..] else ts)
  }

  /** IS [NOT] NULL, after the IS. */
  function ParseNullTest(o: Operand, refs: seq<Ref>, ts: seq<Token>): (r: Parsed<Condition>)
    requires Terminated(ts) && Columns(refs) == OperandColumns(o)
    ensures Sound(ts, r)
  {
    var negated := At(ts, Keyword, "NOT");
    var rest := if negated then ts[1..] else ts;
    if At(rest, Keyword, "NULL") then Parsed(IsNull(o, negated), rest[1..], refs) else Failed
  }

  /** IN, BETWEEN or LIKE, and only without NOT a comparison. */
  function ParseWordTest(o: Operand, refs: seq<Ref>, negated: bool, ts: seq<Token>): (r: Parsed<Condition>)
    requires Terminated(ts) && Columns(refs) == OperandColumns(o)
    ensures Sound(ts, r)
  {
    if At(ts, Keyword, "IN") then ParseInList(o, refs, negated, ts[1..])
    else if At(ts, Keyword, "BETWEEN") then ParseBetween(o, refs, negated, ts[1..])
    else if At(ts, Keyword, "LIKE") then
      if ts[1].kind == String then Parsed(Like(o, ts[1].value, negated), ts[2..], refs) else Failed
    else if negated then Failed
    else ParseComparison(o, refs, ts)
  }

  function ParseInList(o: Operand, refs: seq<Ref>, negated: bool, ts: seq<Token>): (r: Parsed<Condition>)
    requires Terminated(ts) && Columns(refs) == OperandColumns(o)
    ensures Sound(ts, r)
  {
    if !At(ts, Punct, "(") then Failed
    else
      match ParseLiteral(ts[1..])
      case Failed => Failed
      case Parsed(v, rest, _) =>
        match MembersTail([v], rest)
        case Failed => Failed
        case Parsed(values, after, _) =>
          if At(after, Punct, ")") then Parsed(InList(o, values, negated), after[1..], refs) else Failed
  }

  function MembersTail(values: Members, ts: seq<Token>): (r: Parsed<Members>)
    requires Terminated(ts)
    ensures r.Parsed? ==> Terminated(r.rest) && |r.rest| <= |ts|
    decreases |ts|
  {
    if At(ts, Punct, ",") then
      match ParseLiteral(ts[1..])
      case Failed => Failed
      case Parsed(v, rest, _) => MembersTail(WithMember(values, v), rest)
    else Parsed(values, ts, [])
  }

  function WithMember(values: Members, v: Value): Members { values + [v] }

  function ParseBetween(o: Operand, refs: seq<Ref>, negated: bool, ts: seq<Token>): (r: Parsed<Condition>)
    requires Terminated(ts) && Columns(refs) == OperandColumns(o)
    ensures Sound(ts, r)
  {
    match ParseOperand(ts)
    case Failed => Failed
    case Parsed(low, rest, lowRefs) =>
      if !At(rest, Keyword, "AND") then Failed
      else
        match ParseOperand(rest[1..])
        case Failed => Failed
        case Parsed(high, after, highRefs) =>
          ColumnsAppend(refs, lowRefs);
          ColumnsAppend(refs + lowRefs, highRefs);
          Parsed(Between(o, low, high, negated), after, refs + lowRefs + highRefs)
  }

  function OperatorOf(value: string): Option<Op> {
    match value
    case "=" => Some(Eq) case "!=" => Some(Ne) case "<>" => Some(Ne)
    case "<" => Some(Lt) case "<=" => Some(Le) case ">" => Some(Gt) case ">=" => Some(Ge)
    case _ => None
  }

  function ParseComparison(o: Operand, refs: seq<Ref>, ts: seq<Token>): (r: Parsed<Condition>)
    requires Terminated(ts) && Columns(refs) == OperandColumns(o)
    ensures Sound(ts, r)
  {
    if ts[0].kind != Operator || OperatorOf(ts[0].value).None? then Failed
    else
      match ParseOperand(ts[1..])
      case Failed => Failed
      case Parsed(right, rest, more) =>
        ColumnsAppend(refs, more);
        Parsed(Comparison(OperatorOf(ts[0].value).value, o, right), rest, refs + more)
  }

  // --- Queries ---------------------------------------------------------------------------------

  type Items = s: seq<(Column, string)> | s != [] witness [(Column("a", false), "a")]

  function ItemColumns(items: seq<(Column, string)>): seq<Column> {
    seq(|items|, i requires 0 <= i < |items| => items[i].0)
  }

  /** One column of the list with its output name. */
  function ParseItem(ts: seq<Token>): (r: Parsed<(Column, string)>)
    requires Terminated(ts)
    ensures Advances(ts, r) && (r.Parsed? ==> Columns(r.refs) == [r.value.0])
  {
    if ts[0].kind == Ident && ts[1].value == "(" then Failed
    else
      match ParseColumnRef(ts)
      case Failed => Failed
      case Parsed(c, rest, refs) =>
        match ParseOutputName(c, rest)
        case Failed => Failed
        case Parsed(name, after, _) => Parsed((c, name), after, refs)
  }

  /** The name after a column, with or without AS; the column's own name if there is none. */
  function ParseOutputName(c: Column, ts: seq<Token>): (r: Parsed<string>)
    requires Terminated(ts)
    ensures r.Parsed? ==> Terminated(r.rest) && |r.rest| <= |ts| && r.refs == []
  {
    if At(ts, Keyword, "AS") then
      if AtName(ts[1..]) then Parsed(ts[1].value, ts[2..], []) else Failed
    else if AtName(ts) then Parsed(ts[0].value, ts[1..], [])
    else Parsed(c.name, ts, [])
  }

  function ParseItems(ts: seq<Token>): (r: Parsed<Items>)
    requires Terminated(ts)
    ensures Advances(ts, r) && (r.Parsed? ==> Columns(r.refs) == ItemColumns(r.value))
  {
    match ParseItem(ts)
    case Failed => Failed
    case Parsed(item, rest, refs) => ItemsTail([item], refs, rest)
  }

  function ItemsTail(items: Items, refs: seq<Ref>, ts: seq<Token>): (r: Parsed<Items>)
    requires Terminated(ts) && Columns(refs) == ItemColumns(items)
    ensures r.Parsed? ==> Terminated(r.rest) && |r.rest| <= |ts| && Columns(r.refs) == ItemColumns(r.value)
    decreases |ts|
  {
    if At(ts, Punct, ",") then
      match ParseItem(ts[1..])
      case Failed => Failed
      case Parsed(item, rest, more) =>
        ColumnsAppend(refs, more);
        ItemsTail(WithItem(items, item), refs + more, rest)
    else Parsed(items, ts, refs)
  }

  function WithItem(items: Items, item: (Column, string)): Items { items + [item] }

  lemma ItemStep(items: Items, refs: seq<Ref>, ts: seq<Token>)
    requires Terminated(ts) && Columns(refs) == ItemColumns(items) && At(ts, Punct, ",")
    ensures ParseItem(ts[1..]).Failed? ==> ItemsTail(items, refs, ts) == Failed
    ensures ParseItem(ts[1..]).Parsed? ==>
              var p := ParseItem(ts[1..]);
              Columns(refs + p.refs) == ItemColumns(WithItem(items, p.value)) &&
              ItemsTail(items, refs, ts) == ItemsTail(WithItem(items, p.value), refs + p.refs, p.rest)
  {
    if ParseItem(ts[1..]).Parsed? {
      ColumnsAppend(refs, ParseItem(ts[1..]).refs);
    }
  }

  /** The columns of the references are those of the column list. */
  predicate ItemsMatch(items: Option<Items>, refs: seq<Ref>) {
    Columns(refs) == if items.None? then [] else ItemColumns(items.value)
  }

  /** None for SELECT *. */
  function ParseProjection(ts: seq<Token>): (r: Parsed<Option<Items>>)
    requires Terminated(ts)
    ensures Advances(ts, r)
    ensures r.Parsed? ==> ItemsMatch(r.value, r.refs)
  {
    if At(ts, Punct, "*") then Parsed(None, ts[1..], [])
    else
      match ParseItems(ts)
      case Failed => Failed
      case Parsed(items, rest, refs) => Parsed(Some(items), rest, refs)
  }

  function ParseAlias(ts: seq<Token>): (r: Parsed<Option<string>>)
    requires Terminated(ts)
    ensures r.Parsed? ==> Terminated(r.rest) && |r.rest| <= |ts| && r.refs == []
  {
    if At(ts, Keyword, "AS") then
      if ts[1].kind == Ident then Parsed(Some(ts[1].value), ts[2..], []) else Failed
    else if ts[0].kind == Ident then Parsed(Some(ts[0].value), ts[1..], [])
    else Parsed(None, ts, [])
  }

  /** FROM S3Object and its alias. `lower` is `str.lower`. */
  function ParseFrom(lower: string -> string, ts: seq<Token>): (r: Parsed<Option<string>>)
    requires Terminated(ts)
    ensures Advances(ts, r) && (r.Parsed? ==> r.refs == [])
  {
    if !At(ts, Keyword, "FROM") || !AtName(ts[1..]) || lower(ts[1].value) != "s3object" then Failed
    else
      var rest := ts[2..];
      if At(rest, Punct, "[") then Failed else ParseAlias(rest)
  }

  function ParseWhere(ts: seq<Token>): (r: Parsed<Option<Condition>>)
    requires Terminated(ts)
    ensures r.Parsed? ==> Terminated(r.rest)
    ensures r.Parsed? ==> Columns(r.refs) == if r.value.None? then [] else ColumnsOf(r.value.value)
  {
    if At(ts, Keyword, "WHERE") then
      match ParseOr(ts[1..])
      case Failed => Failed
      case Parsed(c, rest, refs) => Parsed(Some(c), rest, refs)
    else Parsed(None, ts, [])
  }

  function ParseLimit(ts: seq<Token>): (r: Parsed<Option<nat>>)
    requires Terminated(ts)
    ensures r.Parsed? ==> Terminated(r.rest) && r.refs == []
  {
    if At(ts, Keyword, "LIMIT") then
      if ts[1].kind == Number && ts[1].value != "" && Decimal.AllDigits(ts[1].value) then
        Parsed(Some(Decimal.Read(ts[1].value)), ts[2..], [])
      else Failed
    else Parsed(None, ts, [])
  }

  function AtEnd(ts: seq<Token>): bool
    requires Terminated(ts)
  {
    var rest := if At(ts, Punct, ";") then ts[1..] else ts;
    rest[0].kind == End
  }

  /** A prefix has to be the alias, ignoring case. */
  predicate PrefixKnown(lower: string -> string, alias: Option<string>, prefix: Option<string>) {
    prefix.None? || (alias.Some? && lower(prefix.value) == lower(alias.value))
  }

  function Paired(items: seq<(Column, string)>, columns: seq<Column>): seq<(Column, string)>
    requires |items| <= |columns|
  {
    seq(|items|, i requires 0 <= i < |items| => (columns[i], items[i].1))
  }

  function Finish(lower: string -> string, alias: Option<string>, items: Option<Items>, where: Option<Condition>,
                  limit: Option<nat>, refs: seq<Ref>): Option<Query>
    requires items.Some? ==> |items.value| <= |refs|
  {
    if exists r :: r in refs && !PrefixKnown(lower, alias, r.0) then None
    else
      var columns := Columns(refs);
      Some(Query(if items.None? then None else Some(Paired(items.value, columns)), where, limit, columns))
  }

  /** WHERE and what follows it. */
  function ParseRest(lower: string -> string, items: Option<Items>, itemRefs: seq<Ref>,
                     alias: Option<string>, ts: seq<Token>): Option<Query>
    requires Terminated(ts) && ItemsMatch(items, itemRefs)
  {
    match ParseWhere(ts)
    case Failed => None
    case Parsed(where, afterWhere, whereRefs) =>
      match ParseLimit(afterWhere)
      case Failed => None
      case Parsed(limit, afterLimit, _) =>
        if !AtEnd(afterLimit) then None
        else
          assert items.Some? ==> |Columns(itemRefs)| == |items.value|;
          Finish(lower, alias, items, where, limit, itemRefs + whereRefs)
  }

  /** FROM and what follows it. */
  function ParseTail(lower: string -> string, items: Option<Items>, itemRefs: seq<Ref>, ts: seq<Token>): Option<Query>
    requires Terminated(ts) && ItemsMatch(items, itemRefs)
  {
    match ParseFrom(lower, ts)
    case Failed => None
    case Parsed(alias, rest, _) => ParseRest(lower, items, itemRefs, alias, rest)
  }

  /** A whole query; None is the error. */
  function ParseQuery(lower: string -> string, ts: seq<Token>): Option<Query>
    requires Terminated(ts)
  {
    if !At(ts, Keyword, "SELECT") then None
    else
      match ParseProjection(ts[1..])
      case Failed => None
      case Parsed(items, rest, refs) => ParseTail(lower, items, refs, rest)
  }

  lemma QueryStep(lower: string -> string, ts: seq<Token>)
    requires Terminated(ts) && At(ts, Keyword, "SELECT")
    ensures var p := ParseProjection(ts[1..]);
            ParseQuery(lower, ts) == if p.Failed? then None else ParseTail(lower, p.value, p.refs, p.rest)
  {}

  lemma FromStep(lower: string -> string, ts: seq<Token>)
    requires Terminated(ts) && At(ts, Keyword, "FROM")
    ensures ParseFrom(lower, ts) ==
            if AtName(ts[1..]) && lower(ts[1].value) == "s3object" && !At(ts[2..], Punct, "[") then ParseAlias(ts[2..])
            else Failed
  {}

  function ProjectedOf(projection: Option<seq<(Column, string)>>): seq<Column> {
    if projection.None? then [] else ItemColumns(projection.value)
  }

  function ComparedOf(where: Option<Condition>): seq<Column> {
    if where.None? then [] else ColumnsOf(where.value)
  }

  lemma FinishKeepsColumns(lower: string -> string, alias: Option<string>, items: Option<Items>,
                           where: Option<Condition>, limit: Option<nat>, itemRefs: seq<Ref>, whereRefs: seq<Ref>)
    requires ItemsMatch(items, itemRefs)
    requires Columns(whereRefs) == ComparedOf(where)
    ensures items.Some? ==> |items.value| <= |itemRefs + whereRefs|
    ensures var q := Finish(lower, alias, items, where, limit, itemRefs + whereRefs);
            q.Some? ==> q.value.columnsUsed == ProjectedOf(q.value.projection) + ComparedOf(q.value.where)
  {
    ColumnsAppend(itemRefs, whereRefs);
    assert |Columns(itemRefs)| == |itemRefs|;
    if items.Some? {
      var paired := Paired(items.value, Columns(itemRefs + whereRefs));
      assert ItemColumns(paired) == ItemColumns(items.value);
    }
  }

  ghost predicate LinedUp(q: Query) { q.columnsUsed == ProjectedOf(q.projection) + ComparedOf(q.where) }

  lemma RestLinesUp(lower: string -> string, items: Option<Items>, refs: seq<Ref>, alias: Option<string>,
                    ts: seq<Token>)
    requires Terminated(ts) && ItemsMatch(items, refs)
    ensures var q := ParseRest(lower, items, refs, alias, ts); q.Some? ==> LinedUp(q.value)
  {
    var w := ParseWhere(ts);
    if w.Parsed? && ParseLimit(w.rest).Parsed? {
      FinishKeepsColumns(lower, alias, items, w.value, ParseLimit(w.rest).value, refs, w.refs);
    }
  }

  /** Whatever query comes out, its columns are those of the column list followed by those of
      the condition, in the order they are written, and each output name stands beside its own
      column. */
  lemma ColumnsLineUp(lower: string -> string, ts: seq<Token>)
    requires Terminated(ts)
    ensures ParseQuery(lower, ts).Some? ==> LinedUp(ParseQuery(lower, ts).value)
  {
    if At(ts, Keyword, "SELECT") && ParseProjection(ts[1..]).Parsed? {
      var p := ParseProjection(ts[1..]);
      if ParseFrom(lower, p.rest).Parsed? {
        RestLinesUp(lower, p.value, p.refs, ParseFrom(lower, p.rest).value, ParseFrom(lower, p.rest).rest);
      }
    }
  }
}
