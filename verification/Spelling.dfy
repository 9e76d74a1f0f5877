/** The language of queries as a grammar that says which tokens spell what, and that the parser
    accepts exactly these tokens. A predicate `XSpelled(.., x, ts, k)` says that the tokens `ts`
    begin with a spelling of `x`, and that `k` is what comes after it. */
module Spelling {
  import opened Wrappers
  import opened Sql
  import opened Lexer
  import opened Grammar
  import Decimal

  function K(word: string): Token { Token(Keyword, word) }

  function P(mark: string): Token { Token(Punct, mark) }

  /** What a prefix is compared with: the table alias, ignoring case. */
  datatype Scope = Scope(lower: string -> string, alias: Option<string>) {
    predicate Admits(prefix: string) { alias.Some? && lower(prefix) == lower(alias.value) }
  }

  // --- Operands -------------------------------------------------------------------------------

  predicate IsName(t: Token) { t.kind in {Ident, Quoted} }

  function NameToken(c: Column): Token { Token(if c.quoted then Quoted else Ident, c.name) }

  /** Zeros may stand before an integer, and a minus before the number zero. */
  ghost predicate IsInteger(n: int, s: string) {
    exists zeros :: s == IntText(n, false, zeros) || s == IntText(n, true, zeros)
  }

  function IntText(n: int, minus: bool, zeros: nat): string {
    if n < 0 || (n == 0 && minus) then "-" + Decimal.Padded(-n, zeros) else Decimal.Padded(n, zeros)
  }

  predicate HasFloatMark(s: string) { exists c :: c in s && c in {'.', 'e', 'E'} }

  ghost predicate LiteralSpelled(v: Value, t: Token) {
    match v
    case Null => t == K("NULL")
    case Bool(b) => t == K(if b then "TRUE" else "FALSE")
    case Int(n) => t.kind == Number && IsInteger(n, t.value)
    case Float(numeral) => t == Token(Number, numeral) && HasFloatMark(numeral)
    case Str(s) => t == Token(String, s)
  }

  /** A name, alone or after a known prefix and a dot. */
  ghost predicate ColumnSpelled(scope: Scope, c: Column, ts: seq<Token>, k: seq<Token>) {
    ts == [NameToken(c)] + k ||
    exists prefix :: IsName(prefix) && scope.Admits(prefix.value) && ts == [prefix] + ([P(".")] + ([NameToken(c)] + k))
  }

  ghost predicate OperandSpelled(scope: Scope, o: Operand, ts: seq<Token>, k: seq<Token>) {
    match o
    case Col(c) => ColumnSpelled(scope, c, ts, k)
    case Lit(v) => exists t :: LiteralSpelled(v, t) && ts == [t] + k
  }

  // --- Conditions -----------------------------------------------------------------------------

  function OpTexts(op: Op): set<string> {
    match op
    case Eq => {"="} case Ne => {"!=", "<>"}
    case Lt => {"<"} case Le => {"<="} case Gt => {">"} case Ge => {">="}
  }

  function WithNot(negated: bool, k: seq<Token>): seq<Token> { if negated then [K("NOT")] + k else k }

  /** At least one literal, commas between them, and the closing parenthesis. */
  ghost predicate MembersSpelled(values: Members, ts: seq<Token>, k: seq<Token>) {
    ts != [] && LiteralSpelled(values[0], ts[0]) &&
    if |values| == 1 then ts[1..] == [P(")")] + k
    else At(ts[1..], Punct, ",") && MembersSpelled(values[1..], ts[2..], k)
  }

  ghost predicate BoundsSpelled(scope: Scope, low: Operand, high: Operand, ts: seq<Token>, k: seq<Token>) {
    exists m :: OperandSpelled(scope, high, m, k) && OperandSpelled(scope, low, ts, [K("AND")] + m)
  }

  /** The lowest level at which a condition stands without parentheses: OR, AND, NOT, predicate. */
  function LevelOf(c: Condition): nat {
    if c.BoolOp? then (if c.connective == Or then 0 else 1) else if c.Not? then 2 else 3
  }

  function FirstOperand(c: Condition): Operand
    requires LevelOf(c) == 3
  {
    if c.Comparison? then c.left else c.operand
  }

  /** What stands after the first operand of a predicate. */
  ghost predicate TestSpelled(scope: Scope, c: Condition, ts: seq<Token>, k: seq<Token>)
    requires LevelOf(c) == 3
  {
    match c
    case Comparison(op, _, r) =>
      ts != [] && ts[0].kind == Operator && ts[0].value in OpTexts(op) && OperandSpelled(scope, r, ts[1..], k)
    case IsNull(_, negated) => ts == [K("IS")] + WithNot(negated, [K("NULL")] + k)
    case InList(_, values, negated) =>
      exists m :: MembersSpelled(values, m, k) && ts == WithNot(negated, [K("IN")] + ([P("(")] + m))
    case Between(_, low, high, negated) =>
      exists m :: BoundsSpelled(scope, low, high, m, k) && ts == WithNot(negated, [K("BETWEEN")] + m)
    case Like(_, pattern, negated) => ts == WithNot(negated, [K("LIKE")] + ([Token(String, pattern)] + k))
  }

  /** A condition in parentheses stands anywhere, others only where their level allows. OR and AND
      associate to the left. */
  ghost predicate ConditionSpelled(scope: Scope, level: nat, c: Condition, ts: seq<Token>, k: seq<Token>)
    decreases c, |ts|
  {
    || (At(ts, Punct, "(") && ConditionSpelled(scope, 0, c, ts[1..], [P(")")] + k))
    || (level <= LevelOf(c) &&
        match c
        case BoolOp(Or, l, r) =>
          exists m :: ConditionSpelled(scope, 1, r, m, k) && ConditionSpelled(scope, 0, l, ts, [K("OR")] + m)
        case BoolOp(And, l, r) =>
          exists m :: ConditionSpelled(scope, 2, r, m, k) && ConditionSpelled(scope, 1, l, ts, [K("AND")] + m)
        case Not(x) => At(ts, Keyword, "NOT") && ConditionSpelled(scope, 2, x, ts[1..], k)
        case _ => AtomSpelled(scope, c, ts, k))
  }

  ghost predicate AtomSpelled(scope: Scope, c: Condition, ts: seq<Token>, k: seq<Token>)
    requires LevelOf(c) == 3
  {
    exists m :: TestSpelled(scope, c, m, k) && OperandSpelled(scope, FirstOperand(c), ts, m)
  }

  // --- Queries --------------------------------------------------------------------------------

  /** The output name is the column's own, or is given after AS or without it. */
  ghost predicate NameSpelled(own: string, name: string, ts: seq<Token>, k: seq<Token>) {
    || (name == own && ts == k)
    || exists t :: IsName(t) && t.value == name && (ts == [K("AS")] + ([t] + k) || ts == [t] + k)
  }

  /** An unquoted name before a token with the text "(" would be a function call, even if that
      token is a quoted name. */
  ghost predicate ItemSpelled(scope: Scope, item: (Column, string), ts: seq<Token>, k: seq<Token>) {
    && (|ts| > 1 && ts[0].kind == Ident ==> ts[1].value != "(")
    && exists m :: ColumnSpelled(scope, item.0, ts, m) && NameSpelled(item.0.name, item.1, m, k)
  }

  ghost predicate ItemsSpelled(scope: Scope, items: Items, ts: seq<Token>, k: seq<Token>)
    decreases |items|
  {
    if |items| == 1 then ItemSpelled(scope, items[0], ts, k)
    else exists m :: ItemsSpelled(scope, items[1..], m, k) && ItemSpelled(scope, items[0], ts, [P(",")] + m)
  }

  ghost predicate ProjectionSpelled(scope: Scope, projection: Option<seq<(Column, string)>>, ts: seq<Token>,
                                    k: seq<Token>)
  {
    if projection.None? then ts == [P("*")] + k
    else projection.value != [] && ItemsSpelled(scope, projection.value, ts, k)
  }

  ghost predicate AliasSpelled(alias: Option<string>, ts: seq<Token>, k: seq<Token>) {
    if alias.None? then ts == k
    else ts == [Token(Ident, alias.value)] + k || ts == [K("AS")] + ([Token(Ident, alias.value)] + k)
  }

  /** The table is S3Object, in any case. */
  ghost predicate FromSpelled(scope: Scope, ts: seq<Token>, k: seq<Token>) {
    |ts| > 1 && ts[0] == K("FROM") && IsName(ts[1]) && scope.lower(ts[1].value) == "s3object" &&
    AliasSpelled(scope.alias, ts[2..], k)
  }

  ghost predicate WhereSpelled(scope: Scope, where: Option<Condition>, ts: seq<Token>, k: seq<Token>) {
    if where.None? then ts == k else At(ts, Keyword, "WHERE") && ConditionSpelled(scope, 0, where.value, ts[1..], k)
  }

  ghost predicate IsNatural(n: nat, s: string) { exists zeros :: s == Decimal.Padded(n, zeros) }

  ghost predicate LimitSpelled(limit: Option<nat>, ts: seq<Token>, k: seq<Token>) {
    if limit.None? then ts == k
    else |ts| > 1 && ts[0] == K("LIMIT") && ts[1].kind == Number && IsNatural(limit.value, ts[1].value) && ts[2..] == k
  }

  predicate EndSpelled(ts: seq<Token>) { ts == [EndToken] || ts == [P(";")] + [EndToken] }

  ghost predicate LimitedSpelled(limit: Option<nat>, ts: seq<Token>) {
    exists end :: EndSpelled(end) && LimitSpelled(limit, ts, end)
  }

  ghost predicate RestSpelled(scope: Scope, q: Query, ts: seq<Token>) {
    exists m :: LimitedSpelled(q.limit, m) && WhereSpelled(scope, q.where, ts, m)
  }

  ghost predicate TailSpelled(scope: Scope, q: Query, ts: seq<Token>) {
    exists m :: RestSpelled(scope, q, m) && FromSpelled(scope, ts, m)
  }

  ghost predicate SelectSpelled(scope: Scope, q: Query, ts: seq<Token>) {
    && At(ts, Keyword, "SELECT")
    && exists m :: TailSpelled(scope, q, m) && ProjectionSpelled(scope, q.projection, ts[1..], m)
  }

  /** SELECT, FROM, WHERE, LIMIT, the end; the prefixes in the column list and in the condition are
      the alias that stands between them. */
  ghost predicate QuerySpelled(lower: string -> string, q: Query, ts: seq<Token>) {
    LinedUp(q) && exists alias :: SelectSpelled(Scope(lower, alias), q, ts)
  }

  // --- What is spelled is parsed ------------------------------------------------------------------

  /** All prefixes that were recorded are known. */
  predicate Known(scope: Scope, refs: seq<Ref>) {
    forall i :: 0 <= i < |refs| && refs[i].0.Some? ==> scope.Admits(refs[i].0.value)
  }

  lemma KnownAppend(scope: Scope, a: seq<Ref>, b: seq<Ref>)
    ensures Known(scope, a + b) <==> Known(scope, a) && Known(scope, b)
  {
    if Known(scope, a + b) {
      assert forall i :: 0 <= i < |a| ==> a[i] == (a + b)[i];
      assert forall i :: 0 <= i < |b| ==> b[i] == (a + b)[|a| + i];
    }
  }

  /** Tokens after which an operand is complete: no parenthesis text and no dot. */
  predicate Follows(k: seq<Token>) {
    Terminated(k) && k[0].value != "(" && k[0] != P(".")
  }

  lemma PushTerminated(t: Token, k: seq<Token>)
    requires Terminated(k) && t.kind != End
    ensures Terminated([t] + k) && ([t] + k)[0] == t && ([t] + k)[1..] == k
  {}

  lemma DigitsRead(s: string)
    requires s != "" && Decimal.AllDigits(s)
    ensures ReadInt(s) == Some(Int(Decimal.Read(s))) && forall c :: c in s ==> c !in {'.', 'e', 'E'}
  {
    assert Decimal.IsDigit(s[0]);
  }

  lemma NegativeReads(s: string)
    requires s != "" && Decimal.AllDigits(s)
    ensures ReadInt("-" + s) == Some(Int(0 - Decimal.Read(s)))
  {
    assert ("-" + s)[1..] == s;
  }

  lemma DigitsOf(n: nat, zeros: nat)
    ensures var digits := Decimal.Padded(n, zeros);
            && ReadInt(digits) == Some(Int(n)) && ReadInt("-" + digits) == Some(Int(0 - n))
            && !HasFloatMark(digits) && !HasFloatMark("-" + digits)
  {
    var digits := Decimal.Padded(n, zeros);
    Decimal.ReadUndoesPadding(n, zeros);
    DigitsRead(digits);
    NegativeReads(digits);
  }

  lemma IntTextReads(n: int, minus: bool, zeros: nat)
    ensures ReadInt(IntText(n, minus, zeros)) == Some(Int(n))
    ensures !HasFloatMark(IntText(n, minus, zeros))
  {
    DigitsOf(if n < 0 then -n else n, zeros);
  }

  /** A token is a literal exactly if it spells its value. */
  lemma LiteralIsExact(v: Value, t: Token)
    ensures LiteralOf(t) == Some(v) <==> LiteralSpelled(v, t)
  {
    if LiteralSpelled(v, t) && v.Int? {
      var zeros :| t.value == IntText(v.n, false, zeros) || t.value == IntText(v.n, true, zeros);
      IntTextReads(v.n, false, zeros);
      IntTextReads(v.n, true, zeros);
    }
    if LiteralOf(t) == Some(v) && v.Int? {
      IntegerSpelled(v.n, t.value);
    }
  }

  lemma IntegerSpelled(n: int, s: string)
    requires ReadInt(s) == Some(Int(n))
    ensures IsInteger(n, s)
  {
    if s[0] == '-' {
      var zeros := Decimal.PaddingUndoesRead(s[1..]);
      assert s == "-" + s[1..];
      assert s == IntText(n, true, zeros);
    } else {
      var zeros := Decimal.PaddingUndoesRead(s);
      assert s == IntText(n, false, zeros);
    }
  }

  lemma LiteralBack(v: Value, t: Token, k: seq<Token>)
    requires LiteralSpelled(v, t) && Terminated(k)
    ensures Terminated([t] + k) && ParseLiteral([t] + k) == Parsed(v, k, [])
    ensures t.kind in {String, Number} || t in {K("NULL"), K("TRUE"), K("FALSE")}
  {
    LiteralIsExact(v, t);
    PushTerminated(t, k);
  }

  lemma DottedNameBack(prefix: Token, c: Column, k: seq<Token>)
    requires Terminated(k) && IsName(prefix)
    ensures var ts := [prefix] + ([P(".")] + ([NameToken(c)] + k));
            Terminated(ts) && ts[1] == P(".") && ParseColumnRef(ts) == Parsed(c, k, [(Some(prefix.value), c)])
  {
    var rest := [NameToken(c)] + k;
    PushTerminated(NameToken(c), k);
    PushTerminated(P("."), rest);
    PushTerminated(prefix, [P(".")] + rest);
    var ts := [prefix] + ([P(".")] + rest);
    assert ts[1..] == [P(".")] + rest && ts[2..] == rest && ts[3..] == k;
  }

  /** `r` has read `v` up to `k`, with known prefixes only. */
  ghost predicate Reads<T(!new)>(scope: Scope, r: Parsed<T>, v: T, k: seq<Token>) {
    r.Parsed? && r.value == v && r.rest == k && Known(scope, r.refs)
  }

  lemma ColumnBack(scope: Scope, c: Column, ts: seq<Token>, k: seq<Token>)
    requires ColumnSpelled(scope, c, ts, k) && Terminated(k) && k[0] != P(".")
    ensures Terminated(ts) && IsName(ts[0]) && ts[1] in {P("."), k[0]}
    ensures Reads(scope, ParseColumnRef(ts), c, k)
  {
    if ts == [NameToken(c)] + k {
      PushTerminated(NameToken(c), k);
    } else {
      var prefix :| IsName(prefix) && scope.Admits(prefix.value) && ts == [prefix] + ([P(".")] + ([NameToken(c)] + k));
      DottedNameBack(prefix, c, k);
    }
  }

  lemma OperandBack(scope: Scope, o: Operand, ts: seq<Token>, k: seq<Token>)
    requires OperandSpelled(scope, o, ts, k) && Follows(k)
    ensures Terminated(ts) && Reads(scope, ParseOperand(ts), o, k)
    ensures ts[0].kind in {Ident, Quoted, String, Number} || ts[0] in {K("NULL"), K("TRUE"), K("FALSE")}
  {
    if o.Lit? {
      var t :| LiteralSpelled(o.value, t) && ts == [t] + k;
      LiteralBack(o.value, t, k);
    } else {
      ColumnBack(scope, o.column, ts, k);
    }
  }

  /** Exactly the texts of an operator are read as it. */
  lemma OperatorIsExact(op: Op, text: string)
    ensures OperatorOf(text) == Some(op) <==> text in OpTexts(op)
  {}

  lemma WithNotBack(negated: bool, k: seq<Token>)
    requires Terminated(k)
    ensures Terminated(WithNot(negated, k))
    ensures negated ==> WithNot(negated, k)[0] == K("NOT") && WithNot(negated, k)[1..] == k
  {
    if negated { PushTerminated(K("NOT"), k); }
  }

  lemma OneMember(read: Members, v: Value, ts: seq<Token>)
    requires Terminated(ts) && At(ts, Punct, ",") && LiteralOf(ts[1]) == Some(v)
    ensures MembersTail(read, ts) == MembersTail(read + [v], ts[2..])
  {
    assert ts[1..][0] == ts[1] && ts[1..][1..] == ts[2..];
  }

  lemma MoveFirst<T>(read: seq<T>, others: seq<T>)
    requires others != []
    ensures (read + [others[0]]) + others[1..] == read + others
    ensures |others| == 1 ==> read + [others[0]] == read + others
  {}

  lemma FirstMember(v: Value, t: Token, rest: seq<Token>)
    requires LiteralSpelled(v, t) && Terminated(rest)
    ensures Terminated([t] + rest) && LiteralOf(t) == Some(v)
  {
    LiteralIsExact(v, t);
    PushTerminated(t, rest);
  }

  lemma OtherMembers(values: Members, ts: seq<Token>, k: seq<Token>)
    requires MembersSpelled(values, ts, k) && |values| > 1
    ensures |ts| > 1 && ts == [ts[0]] + ([P(",")] + ts[2..]) && MembersSpelled(values[1..], ts[2..], k)
    ensures LiteralSpelled(values[0], ts[0])
  {}

  lemma OnlyMember(values: Members, ts: seq<Token>, k: seq<Token>)
    requires MembersSpelled(values, ts, k) && |values| == 1
    ensures |ts| > 1 && ts == [ts[0]] + ([P(")")] + k) && LiteralSpelled(values[0], ts[0])
  {}

  /** One more member: `rest` is parsed already. */
  lemma MemberStep(read: Members, v: Value, t: Token, w: Value, rest: seq<Token>, r: Parsed<Members>)
    requires LiteralSpelled(v, t) && Terminated(rest) && LiteralOf(rest[0]) == Some(w) && Terminated(rest[1..])
    requires MembersTail(read + [w], rest[1..]) == r
    ensures Terminated([t] + ([P(",")] + rest)) && LiteralOf(t) == Some(v)
    ensures MembersTail(read, [P(",")] + rest) == r
  {
    var ts := [P(",")] + rest;
    PushTerminated(P(","), rest);
    FirstMember(v, t, ts);
    assert ts[1] == rest[0] && ts[2..] == rest[1..];
    OneMember(read, w, ts);
  }

  /** The members after those that were read. */
  lemma {:induction false} MembersBack(read: seq<Value>, values: Members, all: Members, ts: seq<Token>, k: seq<Token>)
    requires MembersSpelled(values, ts, k) && Terminated(k) && read + values == all
    ensures Terminated(ts) && LiteralOf(ts[0]) == Some(values[0]) && |ts| > 1
    ensures MembersTail(read + [values[0]], ts[1..]) == Parsed(all, [P(")")] + k, [])
    decreases |values|
  {
    MoveFirst(read, values);
    if |values| > 1 {
      var rest := ts[2..];
      OtherMembers(values, ts, k);
      MembersBack(read + [values[0]], values[1..], all, rest, k);
      MemberStep(read + [values[0]], values[0], ts[0], values[1], rest, Parsed(all, [P(")")] + k, []));
      assert ts[1..] == [P(",")] + rest;
    } else {
      OnlyMember(values, ts, k);
      PushTerminated(P(")"), k);
      FirstMember(values[0], ts[0], [P(")")] + k);
      assert ts[1..] == [P(")")] + k;
    }
  }

  lemma InListBack(o: Operand, refs: seq<Ref>, negated: bool, values: Members, ts: seq<Token>, k: seq<Token>)
    requires MembersSpelled(values, ts, k) && Terminated(k) && Columns(refs) == OperandColumns(o)
    ensures Terminated([P("(")] + ts)
    ensures ParseInList(o, refs, negated, [P("(")] + ts) == Parsed(InList(o, values, negated), k, refs)
  {
    MembersBack([], values, values, ts, k);
    assert [] + [values[0]] == [values[0]];
    PushTerminated(P("("), ts);
    PushTerminated(P(")"), k);
  }

  /** A BETWEEN from its parts: `low` is read up to the AND, `high` up to `k`. */
  lemma BetweenInParts(o: Operand, refs: seq<Ref>, negated: bool, a: seq<Token>, b: seq<Token>, k: seq<Token>,
                       low: Operand, lowRefs: seq<Ref>, high: Operand, highRefs: seq<Ref>)
    requires Terminated(a) && Terminated(b) && Columns(refs) == OperandColumns(o)
    requires ParseOperand(a) == Parsed(low, [K("AND")] + b, lowRefs) && ParseOperand(b) == Parsed(high, k, highRefs)
    ensures ParseBetween(o, refs, negated, a) == Parsed(Between(o, low, high, negated), k, refs + lowRefs + highRefs)
  {
    assert ([K("AND")] + b)[1..] == b;
  }

  lemma BetweenBack(scope: Scope, o: Operand, refs: seq<Ref>, negated: bool, low: Operand, high: Operand,
                    ts: seq<Token>, k: seq<Token>)
    requires BoundsSpelled(scope, low, high, ts, k) && Follows(k)
    requires Columns(refs) == OperandColumns(o) && Known(scope, refs)
    ensures Terminated(ts) && Reads(scope, ParseBetween(o, refs, negated, ts), Between(o, low, high, negated), k)
  {
    var m :| OperandSpelled(scope, high, m, k) && OperandSpelled(scope, low, ts, [K("AND")] + m);
    OperandBack(scope, high, m, k);
    PushTerminated(K("AND"), m);
    OperandBack(scope, low, ts, [K("AND")] + m);
    var lowRefs, highRefs := ParseOperand(ts).refs, ParseOperand(m).refs;
    BetweenInParts(o, refs, negated, ts, m, k, low, lowRefs, high, highRefs);
    KnownAppend(scope, refs, lowRefs);
    KnownAppend(scope, refs + lowRefs, highRefs);
  }

  /** After [NOT] and one of the three words, the parser for that word takes over. */
  lemma WordDecides(o: Operand, refs: seq<Ref>, negated: bool, word: string, rest: seq<Token>)
    requires Terminated(rest) && Columns(refs) == OperandColumns(o) && word in {"IN", "BETWEEN", "LIKE"}
    ensures var ts := WithNot(negated, [K(word)] + rest);
            Terminated(ts) && ts[0] in {K("NOT"), K(word)} &&
            ParseTest(o, refs, ts) ==
              if word == "IN" then ParseInList(o, refs, negated, rest)
              else if word == "BETWEEN" then ParseBetween(o, refs, negated, rest)
              else if rest[0].kind == String then Parsed(Like(o, rest[0].value, negated), rest[1..], refs)
              else Failed
  {
    PushTerminated(K(word), rest);
    WithNotBack(negated, [K(word)] + rest);
    assert ([K(word)] + rest)[2..] == rest[1..];
  }

  /** `ts` reads back as the rest of the predicate `c`. */
  ghost predicate TestReads(scope: Scope, o: Operand, refs: seq<Ref>, ts: seq<Token>, c: Condition, k: seq<Token>) {
    Follows(ts) && Columns(refs) == OperandColumns(o) && Reads(scope, ParseTest(o, refs, ts), c, k)
  }

  lemma IsNullBack(scope: Scope, o: Operand, refs: seq<Ref>, negated: bool, k: seq<Token>)
    requires Follows(k) && Columns(refs) == OperandColumns(o) && Known(scope, refs)
    ensures TestReads(scope, o, refs, [K("IS")] + WithNot(negated, [K("NULL")] + k), IsNull(o, negated), k)
  {
    PushTerminated(K("NULL"), k);
    var rest := WithNot(negated, [K("NULL")] + k);
    WithNotBack(negated, [K("NULL")] + k);
    PushTerminated(K("IS"), rest);
    assert ([K("IS")] + rest)[2..] == rest[1..];
  }

  lemma ComparisonInParts(o: Operand, refs: seq<Ref>, op: Op, text: string, b: seq<Token>, k: seq<Token>, r: Operand,
                          more: seq<Ref>)
    requires Terminated(b) && Columns(refs) == OperandColumns(o) && ParseOperand(b) == Parsed(r, k, more)
    requires text in OpTexts(op)
    ensures var ts := [Token(Operator, text)] + b;
            Follows(ts) && ParseTest(o, refs, ts) == Parsed(Comparison(op, o, r), k, refs + more)
  {
    OperatorIsExact(op, text);
    PushTerminated(Token(Operator, text), b);
  }

  lemma ComparisonBack(scope: Scope, op: Op, l: Operand, refs: seq<Ref>, r: Operand, text: string, b: seq<Token>,
                       k: seq<Token>)
    requires text in OpTexts(op) && OperandSpelled(scope, r, b, k) && Follows(k)
    requires Columns(refs) == OperandColumns(l) && Known(scope, refs)
    ensures TestReads(scope, l, refs, [Token(Operator, text)] + b, Comparison(op, l, r), k)
  {
    OperandBack(scope, r, b, k);
    ComparisonInParts(l, refs, op, text, b, k, r, ParseOperand(b).refs);
    KnownAppend(scope, refs, ParseOperand(b).refs);
  }

  lemma PatternBack(scope: Scope, o: Operand, refs: seq<Ref>, pattern: string, negated: bool, k: seq<Token>)
    requires Follows(k) && Columns(refs) == OperandColumns(o) && Known(scope, refs)
    ensures TestReads(scope, o, refs, WithNot(negated, [K("LIKE")] + ([Token(String, pattern)] + k)),
                      Like(o, pattern, negated), k)
  {
    PushTerminated(Token(String, pattern), k);
    WordDecides(o, refs, negated, "LIKE", [Token(String, pattern)] + k);
  }

  lemma TestBack(scope: Scope, refs: seq<Ref>, c: Condition, ts: seq<Token>, k: seq<Token>)
    requires LevelOf(c) == 3 && TestSpelled(scope, c, ts, k) && Follows(k)
    requires Columns(refs) == OperandColumns(FirstOperand(c)) && Known(scope, refs)
    ensures TestReads(scope, FirstOperand(c), refs, ts, c, k)
  {
    match c
    case Comparison(op, l, r) =>
      ComparisonBack(scope, op, l, refs, r, ts[0].value, ts[1..], k);
      assert ts == [Token(Operator, ts[0].value)] + ts[1..];
    case IsNull(o, negated) => IsNullBack(scope, o, refs, negated, k);
    case InList(o, values, negated) =>
      var m :| MembersSpelled(values, m, k) && ts == WithNot(negated, [K("IN")] + ([P("(")] + m));
      InListBack(o, refs, negated, values, m, k);
      WordDecides(o, refs, negated, "IN", [P("(")] + m);
    case Between(o, low, high, negated) =>
      var m :| BoundsSpelled(scope, low, high, m, k) && ts == WithNot(negated, [K("BETWEEN")] + m);
      BetweenBack(scope, o, refs, negated, low, high, m, k);
      WordDecides(o, refs, negated, "BETWEEN", m);
    case Like(o, pattern, negated) => PatternBack(scope, o, refs, pattern, negated, k);
  }

  lemma TestStart(scope: Scope, c: Condition, ts: seq<Token>, k: seq<Token>)
    requires LevelOf(c) == 3 && TestSpelled(scope, c, ts, k) && Follows(k)
    ensures Follows(ts)
  {
    var o := FirstOperand(c);
    var refs: seq<Ref> := if o.Col? then [(None, o.column)] else [];
    TestBack(scope, refs, c, ts, k);
  }

  lemma PredicateBack(scope: Scope, o: Operand, ts: seq<Token>, m: seq<Token>, c: Condition, k: seq<Token>)
    requires Terminated(ts) && Terminated(m) && !At(ts, Punct, "(") && Reads(scope, ParseOperand(ts), o, m)
    requires TestReads(scope, o, ParseOperand(ts).refs, m, c, k)
    ensures Reads(scope, ParsePredicate(ts), c, k)
  {}

  lemma AtomBack(scope: Scope, c: Condition, ts: seq<Token>, k: seq<Token>)
    requires LevelOf(c) == 3 && AtomSpelled(scope, c, ts, k) && Follows(k)
    ensures Terminated(ts) && ts[0] != K("NOT") && Reads(scope, ParsePredicate(ts), c, k)
  {
    var o := FirstOperand(c);
    var m :| TestSpelled(scope, c, m, k) && OperandSpelled(scope, o, ts, m);
    TestStart(scope, c, m, k);
    OperandBack(scope, o, ts, m);
    TestBack(scope, ParseOperand(ts).refs, c, m, k);
    PredicateBack(scope, o, ts, m, c, k);
  }

  /** What the parser of each level makes of tokens that spell `c`. The chain parsers go on with
      whatever operator comes next. */
  ghost predicate ReadsBack(scope: Scope, level: nat, ts: seq<Token>, c: Condition, k: seq<Token>, refs: seq<Ref>) {
    && Terminated(ts) && Terminated(k) && Columns(refs) == ColumnsOf(c) && Known(scope, refs)
    && (level == 3 ==> ParsePredicate(ts) == Parsed(c, k, refs))
    && (level == 2 ==> ParseNot(ts) == Parsed(c, k, refs))
    && (level == 1 ==> ParseAnd(ts) == AndTail(c, refs, k))
    && (level == 0 && k[0] != K("AND") ==> ParseOr(ts) == OrTail(c, refs, k))
  }

  lemma Climb(scope: Scope, level: nat, ts: seq<Token>, c: Condition, k: seq<Token>, refs: seq<Ref>)
    requires level < 3 && ReadsBack(scope, level + 1, ts, c, k, refs)
    requires level == 2 ==> ts[0] != K("NOT")
    ensures ReadsBack(scope, level, ts, c, k, refs)
  {}

  lemma ClimbFrom3(scope: Scope, level: nat, ts: seq<Token>, c: Condition, k: seq<Token>, refs: seq<Ref>)
    requires level <= 3 && ReadsBack(scope, 3, ts, c, k, refs) && ts[0] != K("NOT")
    ensures ReadsBack(scope, level, ts, c, k, refs)
  {
    if level < 3 { Climb(scope, 2, ts, c, k, refs); }
    if level < 2 { Climb(scope, 1, ts, c, k, refs); }
    if level < 1 { Climb(scope, 0, ts, c, k, refs); }
  }

  lemma OnePair(scope: Scope, inner: seq<Token>, c: Condition, k: seq<Token>, refs: seq<Ref>)
    requires Terminated(k) && ReadsBack(scope, 0, inner, c, [P(")")] + k, refs)
    ensures ReadsBack(scope, 3, [P("(")] + inner, c, k, refs)
  {
    PushTerminated(P(")"), k);
    PushTerminated(P("("), inner);
  }

  /** Tokens that spell a condition are parsed as it, at every level and whatever follows. */
  lemma {:induction false} ConditionBack(scope: Scope, level: nat, c: Condition, ts: seq<Token>, k: seq<Token>)
    returns (refs: seq<Ref>)
    requires level <= 3 && ConditionSpelled(scope, level, c, ts, k) && Follows(k)
    ensures ReadsBack(scope, level, ts, c, k, refs)
    decreases c, |ts|, 1
  {
    if At(ts, Punct, "(") && ConditionSpelled(scope, 0, c, ts[1..], [P(")")] + k) {
      PushTerminated(P(")"), k);
      refs := ConditionBack(scope, 0, c, ts[1..], [P(")")] + k);
      OnePair(scope, ts[1..], c, k, refs);
      assert ts == [P("(")] + ts[1..];
      ClimbFrom3(scope, level, ts, c, k, refs);
    } else {
      refs := BareBack(scope, level, c, ts, k);
    }
  }

  lemma {:induction false} BareBack(scope: Scope, level: nat, c: Condition, ts: seq<Token>, k: seq<Token>)
    returns (refs: seq<Ref>)
    requires level <= LevelOf(c) && ConditionSpelled(scope, level, c, ts, k) && Follows(k)
    requires !(At(ts, Punct, "(") && ConditionSpelled(scope, 0, c, ts[1..], [P(")")] + k))
    ensures ReadsBack(scope, level, ts, c, k, refs)
    decreases c, |ts|, 0
  {
    match c {
      case BoolOp(Or, l, r) =>
        var m :| ConditionSpelled(scope, 1, r, m, k) && ConditionSpelled(scope, 0, l, ts, [K("OR")] + m);
        var right := ConditionBack(scope, 1, r, m, k);
        PushTerminated(K("OR"), m);
        var left := ConditionBack(scope, 0, l, ts, [K("OR")] + m);
        refs := left + right;
        OrBack(scope, l, r, ts, m, k, left, right);
      case BoolOp(And, l, r) =>
        var m :| ConditionSpelled(scope, 2, r, m, k) && ConditionSpelled(scope, 1, l, ts, [K("AND")] + m);
        var right := ConditionBack(scope, 2, r, m, k);
        PushTerminated(K("AND"), m);
        var left := ConditionBack(scope, 1, l, ts, [K("AND")] + m);
        refs := left + right;
        AndBack(scope, l, r, ts, m, k, left, right);
        if level == 0 { Climb(scope, 0, ts, c, k, refs); }
      case Not(x) =>
        refs := ConditionBack(scope, 2, x, ts[1..], k);
        PushTerminated(K("NOT"), ts[1..]);
        assert ts == [K("NOT")] + ts[1..];
        if level < 2 { Climb(scope, 1, ts, c, k, refs); }
        if level < 1 { Climb(scope, 0, ts, c, k, refs); }
      case _ =>
        AtomBack(scope, c, ts, k);
        refs := ParsePredicate(ts).refs;
        ClimbFrom3(scope, level, ts, c, k, refs);
    }
  }

  lemma OrBack(scope: Scope, l: Condition, r: Condition, ts: seq<Token>, m: seq<Token>, k: seq<Token>, left: seq<Ref>,
               right: seq<Ref>)
    requires ReadsBack(scope, 1, m, r, k, right) && ReadsBack(scope, 0, ts, l, [K("OR")] + m, left)
    ensures ReadsBack(scope, 0, ts, BoolOp(Or, l, r), k, left + right)
  {
    ColumnsAppend(left, right);
    KnownAppend(scope, left, right);
    PushTerminated(K("OR"), m);
  }

  lemma AndBack(scope: Scope, l: Condition, r: Condition, ts: seq<Token>, m: seq<Token>, k: seq<Token>, left: seq<Ref>,
                right: seq<Ref>)
    requires ReadsBack(scope, 2, m, r, k, right) && ReadsBack(scope, 1, ts, l, [K("AND")] + m, left)
    ensures ReadsBack(scope, 1, ts, BoolOp(And, l, r), k, left + right)
  {
    ColumnsAppend(left, right);
    KnownAppend(scope, left, right);
    PushTerminated(K("AND"), m);
  }

  /** What comes after an output name. */
  predicate EndsItem(k: seq<Token>) { Terminated(k) && k[0] in {P(","), K("FROM")} }

  lemma NameBack(c: Column, name: string, ts: seq<Token>, k: seq<Token>)
    requires NameSpelled(c.name, name, ts, k) && EndsItem(k)
    ensures Terminated(ts) && ts[0] != P(".") && ParseOutputName(c, ts) == Parsed(name, k, [])
  {
    if !(name == c.name && ts == k) {
      var t :| IsName(t) && t.value == name && (ts == [K("AS")] + ([t] + k) || ts == [t] + k);
      PushTerminated(t, k);
      PushTerminated(K("AS"), [t] + k);
      assert ([K("AS")] + ([t] + k))[2..] == k;
    }
  }

  lemma ItemBack(scope: Scope, item: (Column, string), ts: seq<Token>, k: seq<Token>)
    requires ItemSpelled(scope, item, ts, k) && EndsItem(k)
    ensures Terminated(ts) && IsName(ts[0]) && Reads(scope, ParseItem(ts), item, k)
  {
    var m :| ColumnSpelled(scope, item.0, ts, m) && NameSpelled(item.0.name, item.1, m, k);
    NameBack(item.0, item.1, m, k);
    ColumnBack(scope, item.0, ts, m);
  }

  /** One item more, then the rest of the list. */
  lemma OneItem(read: Items, refs: seq<Ref>, item: (Column, string), ts: seq<Token>)
    requires Terminated(ts) && At(ts, Punct, ",") && Columns(refs) == ItemColumns(read)
    requires ParseItem(ts[1..]).Parsed? && ParseItem(ts[1..]).value == item
    ensures var p := ParseItem(ts[1..]);
            Columns(refs + p.refs) == ItemColumns(read + [item]) &&
            ItemsTail(read, refs, ts) == ItemsTail(read + [item], refs + p.refs, p.rest)
  {
    ItemStep(read, refs, ts);
  }

  /** The items after those that were read. */
  lemma {:induction false} ItemsBack(scope: Scope, read: Items, items: Items, all: Items, ts: seq<Token>, k: seq<Token>,
                                     refs: seq<Ref>) returns (recorded: seq<Ref>)
    requires ItemsSpelled(scope, items, ts, k) && EndsItem(k) && k[0] == K("FROM") && read + items == all
    requires Columns(refs) == ItemColumns(read) && Known(scope, refs)
    ensures Terminated([P(",")] + ts) && Known(scope, recorded)
    ensures ItemsTail(read, refs, [P(",")] + ts) == Parsed(all, k, recorded)
    decreases |items|
  {
    ItemsStart(scope, items, ts, k);
    PushTerminated(P(","), ts);
    MoveFirst(read, items);
    if |items| == 1 {
      ItemBack(scope, items[0], ts, k);
      OneItem(read, refs, items[0], [P(",")] + ts);
      recorded := refs + ParseItem(ts).refs;
      KnownAppend(scope, refs, ParseItem(ts).refs);
    } else {
      var m :| ItemsSpelled(scope, items[1..], m, k) && ItemSpelled(scope, items[0], ts, [P(",")] + m);
      ItemsStart(scope, items[1..], m, k);
      PushTerminated(P(","), m);
      ItemBack(scope, items[0], ts, [P(",")] + m);
      OneItem(read, refs, items[0], [P(",")] + ts);
      KnownAppend(scope, refs, ParseItem(ts).refs);
      recorded := ItemsBack(scope, read + [items[0]], items[1..], all, m, k, refs + ParseItem(ts).refs);
    }
  }

  lemma {:induction false} ItemsStart(scope: Scope, items: Items, ts: seq<Token>, k: seq<Token>)
    requires ItemsSpelled(scope, items, ts, k) && EndsItem(k)
    ensures Terminated(ts)
    decreases |items|
  {
    if |items| == 1 {
      ItemBack(scope, items[0], ts, k);
    } else {
      var m :| ItemsSpelled(scope, items[1..], m, k) && ItemSpelled(scope, items[0], ts, [P(",")] + m);
      ItemsStart(scope, items[1..], m, k);
      PushTerminated(P(","), m);
      ItemBack(scope, items[0], ts, [P(",")] + m);
    }
  }

  lemma FirstItem(ts: seq<Token>, item: (Column, string), rest: seq<Token>, refs: seq<Ref>)
    requires Terminated(ts) && ParseItem(ts) == Parsed(item, rest, refs)
    ensures Columns(refs) == ItemColumns([item]) && ParseItems(ts) == ItemsTail([item], refs, rest)
  {}

  lemma OthersBack(scope: Scope, first: Items, others: Items, all: Items, ts: seq<Token>, m: seq<Token>, k: seq<Token>,
                   refs: seq<Ref>)
    requires first == [all[0]] && first + others == all && ItemsSpelled(scope, others, m, k)
    requires EndsItem(k) && k[0] == K("FROM") && Known(scope, refs)
    requires Terminated(ts) && Terminated([P(",")] + m) && ParseItem(ts) == Parsed(all[0], [P(",")] + m, refs)
    ensures Reads(scope, ParseItems(ts), all, k)
  {
    FirstItem(ts, all[0], [P(",")] + m, refs);
    var recorded := ItemsBack(scope, first, others, all, m, k, refs);
  }

  lemma OneItemBack(scope: Scope, items: Items, ts: seq<Token>, k: seq<Token>)
    requires |items| == 1 && ItemSpelled(scope, items[0], ts, k) && EndsItem(k) && k[0] == K("FROM")
    ensures Terminated(ts) && ts[0].kind != Punct && Reads(scope, ParseItems(ts), items, k)
  {
    ItemBack(scope, items[0], ts, k);
    FirstItem(ts, items[0], k, ParseItem(ts).refs);
    assert items == [items[0]];
  }

  lemma LongListBack(scope: Scope, items: Items, ts: seq<Token>, m: seq<Token>, k: seq<Token>)
    requires |items| > 1 && ItemsSpelled(scope, items[1..], m, k) && ItemSpelled(scope, items[0], ts, [P(",")] + m)
    requires EndsItem(k) && k[0] == K("FROM")
    ensures Terminated(ts) && ts[0].kind != Punct && Reads(scope, ParseItems(ts), items, k)
  {
    var first: Items, others: Items := [items[0]], items[1..];
    assert first + others == items;
    ItemsStart(scope, others, m, k);
    PushTerminated(P(","), m);
    ItemBack(scope, items[0], ts, [P(",")] + m);
    OthersBack(scope, first, others, items, ts, m, k, ParseItem(ts).refs);
  }

  lemma ListBack(scope: Scope, items: Items, ts: seq<Token>, k: seq<Token>)
    requires ItemsSpelled(scope, items, ts, k) && EndsItem(k) && k[0] == K("FROM")
    ensures Terminated(ts) && ts[0].kind != Punct && Reads(scope, ParseItems(ts), items, k)
  {
    if |items| == 1 {
      OneItemBack(scope, items, ts, k);
    } else {
      var m :| ItemsSpelled(scope, items[1..], m, k) && ItemSpelled(scope, items[0], ts, [P(",")] + m);
      LongListBack(scope, items, ts, m, k);
    }
  }

  /** The column list of a query, as the parser holds it. */
  function ListedItems(projection: Option<seq<(Column, string)>>): (r: Option<Items>)
    requires projection.Some? ==> projection.value != []
  {
    if projection.None? then None else Some(projection.value)
  }

  lemma ProjectionBack(scope: Scope, projection: Option<seq<(Column, string)>>, ts: seq<Token>, k: seq<Token>)
    requires ProjectionSpelled(scope, projection, ts, k) && EndsItem(k) && k[0] == K("FROM")
    ensures Terminated(ts) && Reads(scope, ParseProjection(ts), ListedItems(projection), k)
  {
    if projection.None? {
      PushTerminated(P("*"), k);
    } else {
      ListBack(scope, projection.value, ts, k);
    }
  }

  /** What may come after the table. */
  predicate EndsFrom(k: seq<Token>) {
    Terminated(k) && k[0].kind in {Keyword, Punct, End} && k[0] !in {P("["), K("AS")}
  }

  lemma AliasBack(alias: Option<string>, ts: seq<Token>, k: seq<Token>)
    requires AliasSpelled(alias, ts, k) && EndsFrom(k)
    ensures Terminated(ts) && ts[0] != P("[") && ParseAlias(ts) == Parsed(alias, k, [])
  {
    if alias.Some? {
      var named := [Token(Ident, alias.value)] + k;
      PushTerminated(Token(Ident, alias.value), k);
      PushTerminated(K("AS"), named);
      assert ([K("AS")] + named)[2..] == k;
    }
  }

  lemma FromBack(scope: Scope, ts: seq<Token>, k: seq<Token>)
    requires FromSpelled(scope, ts, k) && EndsFrom(k)
    ensures EndsItem(ts) && ts[0] == K("FROM") && ParseFrom(scope.lower, ts) == Parsed(scope.alias, k, [])
  {
    AliasBack(scope.alias, ts[2..], k);
    PushTerminated(ts[1], ts[2..]);
    PushTerminated(ts[0], [ts[1]] + ts[2..]);
    assert ts == [ts[0]] + ([ts[1]] + ts[2..]);
  }

  lemma EndIsExact(ts: seq<Token>)
    requires Terminated(ts)
    ensures AtEnd(ts) <==> EndSpelled(ts)
  {}

  lemma NaturalIsExact(n: nat, s: string)
    ensures IsNatural(n, s) <==> s != "" && Decimal.AllDigits(s) && Decimal.Read(s) == n
  {
    if IsNatural(n, s) {
      var zeros :| s == Decimal.Padded(n, zeros);
      Decimal.ReadUndoesPadding(n, zeros);
    }
    if s != "" && Decimal.AllDigits(s) {
      var zeros := Decimal.PaddingUndoesRead(s);
    }
  }

  lemma LimitedBack(limit: Option<nat>, ts: seq<Token>)
    requires LimitedSpelled(limit, ts)
    ensures Follows(ts) && EndsFrom(ts) && ts[0] in {K("LIMIT"), P(";"), EndToken}
    ensures var r := ParseLimit(ts); r.Parsed? && r.value == limit && AtEnd(r.rest)
  {
    var end :| EndSpelled(end) && LimitSpelled(limit, ts, end);
    if limit.Some? {
      NaturalIsExact(limit.value, ts[1].value);
      assert ts == [ts[0]] + ([ts[1]] + end);
      PushTerminated(ts[1], end);
      PushTerminated(ts[0], [ts[1]] + end);
    }
  }

  lemma WhereBack(scope: Scope, where: Option<Condition>, ts: seq<Token>, k: seq<Token>)
    requires WhereSpelled(scope, where, ts, k) && Follows(k) && EndsFrom(k)
    requires k[0] in {K("LIMIT"), P(";"), EndToken}
    ensures EndsFrom(ts) && Reads(scope, ParseWhere(ts), where, k)
  {
    if where.Some? {
      var refs := ConditionBack(scope, 0, where.value, ts[1..], k);
      PushTerminated(K("WHERE"), ts[1..]);
      assert ts == [K("WHERE")] + ts[1..];
    }
  }

  lemma FinishBack(scope: Scope, q: Query, itemRefs: seq<Ref>, whereRefs: seq<Ref>)
    requires LinedUp(q) && (q.projection.Some? ==> q.projection.value != [])
    requires Columns(itemRefs) == ProjectedOf(q.projection) && Columns(whereRefs) == ComparedOf(q.where)
    requires Known(scope, itemRefs) && Known(scope, whereRefs)
    ensures q.projection.Some? ==> |q.projection.value| <= |itemRefs + whereRefs|
    ensures Finish(scope.lower, scope.alias, ListedItems(q.projection), q.where, q.limit, itemRefs + whereRefs) ==
            Some(q)
  {
    var refs := itemRefs + whereRefs;
    ColumnsAppend(itemRefs, whereRefs);
    KnownAppend(scope, itemRefs, whereRefs);
    assert |itemRefs| == |Columns(itemRefs)|;
    assert forall r :: r in refs ==> PrefixKnown(scope.lower, scope.alias, r.0);
    if q.projection.Some? {
      assert Paired(q.projection.value, Columns(refs)) == q.projection.value;
    }
  }

  /** WHERE and LIMIT are read up to the end. */
  ghost predicate RestReads(scope: Scope, q: Query, ts: seq<Token>) {
    EndsFrom(ts) && ParseWhere(ts).Parsed? && Reads(scope, ParseWhere(ts), q.where, ParseWhere(ts).rest) &&
    var l := ParseLimit(ParseWhere(ts).rest);
    l.Parsed? && l.value == q.limit && AtEnd(l.rest)
  }

  lemma RestBack(scope: Scope, q: Query, ts: seq<Token>)
    requires RestSpelled(scope, q, ts)
    ensures RestReads(scope, q, ts)
  {
    var limit :| LimitedSpelled(q.limit, limit) && WhereSpelled(scope, q.where, ts, limit);
    LimitedBack(q.limit, limit);
    WhereBack(scope, q.where, ts, limit);
  }

  lemma TailBack(scope: Scope, q: Query, itemRefs: seq<Ref>, ts: seq<Token>, where: seq<Token>)
    requires LinedUp(q) && (q.projection.Some? ==> q.projection.value != [])
    requires Columns(itemRefs) == ProjectedOf(q.projection) && Known(scope, itemRefs)
    requires EndsItem(ts) && RestReads(scope, q, where) && ParseFrom(scope.lower, ts) == Parsed(scope.alias, where, [])
    ensures ItemsMatch(ListedItems(q.projection), itemRefs)
    ensures ParseTail(scope.lower, ListedItems(q.projection), itemRefs, ts) == Some(q)
  {
    FinishBack(scope, q, itemRefs, ParseWhere(where).refs);
  }

  lemma QueryBack(scope: Scope, q: Query, ts: seq<Token>)
    requires LinedUp(q) && SelectSpelled(scope, q, ts)
    ensures Terminated(ts) && ParseQuery(scope.lower, ts) == Some(q)
  {
    var from :| TailSpelled(scope, q, from) && ProjectionSpelled(scope, q.projection, ts[1..], from);
    var where :| RestSpelled(scope, q, where) && FromSpelled(scope, from, where);
    RestBack(scope, q, where);
    FromBack(scope, from, where);
    ProjectionBack(scope, q.projection, ts[1..], from);
    PushTerminated(K("SELECT"), ts[1..]);
    assert ts == [K("SELECT")] + ts[1..];
    TailBack(scope, q, ParseProjection(ts[1..]).refs, from, where);
  }

  // --- What is parsed is spelled so --------------------------------------------------------------

  /** A token in front of what follows it. */
  lemma Head(ts: seq<Token>, kind: TokenKind, value: string)
    requires At(ts, kind, value)
    ensures ts == [Token(kind, value)] + ts[1..]
  {}

  lemma ColumnDerived(scope: Scope, ts: seq<Token>)
    requires Terminated(ts)
    ensures var r := ParseColumnRef(ts);
            r.Parsed? && Known(scope, r.refs) ==> ColumnSpelled(scope, r.value, ts, r.rest)
  {
    var r := ParseColumnRef(ts);
    if r.Parsed? && Known(scope, r.refs) {
      if At(ts[1..], Punct, ".") {
        assert r.refs[0].0 == Some(ts[0].value);
        assert ts[2] == NameToken(r.value);
        assert ts == [ts[0]] + ([P(".")] + ([ts[2]] + ts[3..]));
        assert IsName(ts[0]) && scope.Admits(ts[0].value);
      } else {
        assert ts == [ts[0]] + ts[1..];
      }
    }
  }

  lemma OperandDerived(scope: Scope, ts: seq<Token>)
    requires Terminated(ts)
    ensures var r := ParseOperand(ts);
            r.Parsed? && Known(scope, r.refs) ==> OperandSpelled(scope, r.value, ts, r.rest)
  {
    if AtName(ts) {
      ColumnDerived(scope, ts);
    } else if LiteralOf(ts[0]).Some? {
      LiteralIsExact(LiteralOf(ts[0]).value, ts[0]);
      assert ts == [ts[0]] + ts[1..];
    }
  }

  function MembersFrom(v: Value, others: seq<Value>): (values: Members)
    ensures values[0] == v && values[1..] == others
  {
    [v] + others
  }

  lemma MemberBefore(v: Value, t: Token, others: Members, ts: seq<Token>, k: seq<Token>)
    requires LiteralSpelled(v, t) && At(ts, Punct, ",") && MembersSpelled(others, ts[1..], k)
    ensures MembersSpelled(MembersFrom(v, others), [t] + ts, k)
  {
    assert ([t] + ts)[1..] == ts && ([t] + ts)[2..] == ts[1..];
  }

  lemma LastMember(v: Value, t: Token, ts: seq<Token>)
    requires LiteralSpelled(v, t) && At(ts, Punct, ")")
    ensures MembersSpelled(MembersFrom(v, []), [t] + ts, ts[1..])
  {
    Head(ts, Punct, ")");
  }

  lemma TailStep(read: Members, ts: seq<Token>)
    requires Terminated(ts) && At(ts, Punct, ",") && MembersTail(read, ts).Parsed?
    ensures LiteralOf(ts[1]).Some? && LiteralSpelled(LiteralOf(ts[1]).value, ts[1])
    ensures Terminated(ts[2..]) && [ts[1]] + ts[2..] == ts[1..]
    ensures MembersTail(read, ts) == MembersTail(WithMember(read, LiteralOf(ts[1]).value), ts[2..])
  {
    assert ts[1..][0] == ts[1] && ts[1..][1..] == ts[2..];
    LiteralIsExact(LiteralOf(ts[1]).value, ts[1]);
  }

  lemma JoinMembers(read: Members, values: Members)
    ensures WithMember(read, values[0]) + values[1..] == read + values
  {}

  /** If the members before the tokens end with `v`, spelled by `t`. */
  lemma {:induction false} MembersDerived(read: Members, v: Value, t: Token, ts: seq<Token>) returns (values: Members)
    requires Terminated(ts) && LiteralSpelled(v, t)
    requires MembersTail(read, ts).Parsed? && At(MembersTail(read, ts).rest, Punct, ")")
    ensures values[0] == v && MembersTail(read, ts).value == read + values[1..]
    ensures MembersSpelled(values, [t] + ts, MembersTail(read, ts).rest[1..])
    decreases |ts|
  {
    if At(ts, Punct, ",") {
      TailStep(read, ts);
      var next := LiteralOf(ts[1]).value;
      var others := MembersDerived(WithMember(read, next), next, ts[1], ts[2..]);
      values := MembersFrom(v, others);
      MemberBefore(v, t, others, ts, MembersTail(read, ts).rest[1..]);
      JoinMembers(read, others);
    } else {
      values := MembersFrom(v, []);
      LastMember(v, t, ts);
    }
  }

  lemma InListParts(o: Operand, refs: seq<Ref>, negated: bool, ts: seq<Token>)
    requires Terminated(ts) && Columns(refs) == OperandColumns(o) && ParseInList(o, refs, negated, ts).Parsed?
    ensures ts[0] == P("(") && Terminated(ts[2..]) && ts == [P("(")] + ([ts[1]] + ts[2..]) && LiteralOf(ts[1]).Some?
    ensures var tail := MembersTail([LiteralOf(ts[1]).value], ts[2..]);
            tail.Parsed? && At(tail.rest, Punct, ")") &&
            ParseInList(o, refs, negated, ts) == Parsed(InList(o, tail.value, negated), tail.rest[1..], refs)
  {
    assert ts[1..][0] == ts[1] && ts[1..][1..] == ts[2..];
  }

  lemma InListDerived(o: Operand, refs: seq<Ref>, negated: bool, ts: seq<Token>)
    requires Terminated(ts) && Columns(refs) == OperandColumns(o) && ParseInList(o, refs, negated, ts).Parsed?
    ensures var r := ParseInList(o, refs, negated, ts);
            r.value.InList? && r.value.operand == o && r.value.negated == negated && r.refs == refs &&
            MembersSpelled(r.value.values, ts[1..], r.rest) && ts == [P("(")] + ts[1..]
  {
    InListParts(o, refs, negated, ts);
    var v := LiteralOf(ts[1]).value;
    LiteralIsExact(v, ts[1]);
    var values := MembersDerived([v], v, ts[1], ts[2..]);
    assert [v] + values[1..] == values && [ts[1]] + ts[2..] == ts[1..];
  }

  lemma BetweenParts(o: Operand, refs: seq<Ref>, negated: bool, ts: seq<Token>)
    requires Terminated(ts) && Columns(refs) == OperandColumns(o) && ParseBetween(o, refs, negated, ts).Parsed?
    ensures var low := ParseOperand(ts);
            low.Parsed? && At(low.rest, Keyword, "AND") && Terminated(low.rest[1..]) &&
            var high := ParseOperand(low.rest[1..]);
            high.Parsed? && ParseBetween(o, refs, negated, ts) ==
              Parsed(Between(o, low.value, high.value, negated), high.rest, refs + low.refs + high.refs)
  {}

  lemma BoundsDerived(scope: Scope, o: Operand, refs: seq<Ref>, negated: bool, ts: seq<Token>)
    requires Terminated(ts) && Columns(refs) == OperandColumns(o)
    requires ParseBetween(o, refs, negated, ts).Parsed? && Known(scope, ParseBetween(o, refs, negated, ts).refs)
    ensures var r := ParseBetween(o, refs, negated, ts);
            r.value.Between? && r.value.operand == o && r.value.negated == negated && Known(scope, refs) &&
            BoundsSpelled(scope, r.value.low, r.value.high, ts, r.rest)
  {
    BetweenParts(o, refs, negated, ts);
    var low := ParseOperand(ts);
    var high := ParseOperand(low.rest[1..]);
    KnownAppend(scope, refs + low.refs, high.refs);
    KnownAppend(scope, refs, low.refs);
    OperandDerived(scope, ts);
    OperandDerived(scope, low.rest[1..]);
    BoundsInParts(scope, low.value, high.value, ts, low.rest, high.rest);
  }

  lemma BoundsInParts(scope: Scope, low: Operand, high: Operand, ts: seq<Token>, m: seq<Token>, k: seq<Token>)
    requires OperandSpelled(scope, low, ts, m) && At(m, Keyword, "AND") && OperandSpelled(scope, high, m[1..], k)
    ensures BoundsSpelled(scope, low, high, ts, k)
  {
    Head(m, Keyword, "AND");
  }

  lemma ComparisonDerived(scope: Scope, o: Operand, refs: seq<Ref>, ts: seq<Token>)
    requires Terminated(ts) && Columns(refs) == OperandColumns(o)
    requires ParseComparison(o, refs, ts).Parsed? && Known(scope, ParseComparison(o, refs, ts).refs)
    ensures var r := ParseComparison(o, refs, ts);
            r.value.Comparison? && r.value.left == o && Known(scope, refs) && TestSpelled(scope, r.value, ts, r.rest)
  {
    var right := ParseOperand(ts[1..]);
    OperatorIsExact(OperatorOf(ts[0].value).value, ts[0].value);
    KnownAppend(scope, refs, right.refs);
    OperandDerived(scope, ts[1..]);
  }

  /** A predicate of `o` whose test is spelled by these tokens. */
  ghost predicate TestDerived(scope: Scope, o: Operand, refs: seq<Ref>, ts: seq<Token>, r: Parsed<Condition>) {
    r.Parsed? && Known(scope, r.refs) ==>
      LevelOf(r.value) == 3 && FirstOperand(r.value) == o && Known(scope, refs) &&
      TestSpelled(scope, r.value, ts, r.rest)
  }

  lemma InTestSpelled(scope: Scope, c: Condition, ts: seq<Token>, m: seq<Token>, k: seq<Token>)
    requires c.InList? && At(ts, Keyword, "IN") && ts[1..] == [P("(")] + m && MembersSpelled(c.values, m, k)
    ensures TestSpelled(scope, c, WithNot(c.negated, ts), k)
  {
    Head(ts, Keyword, "IN");
  }

  lemma InTestDerived(scope: Scope, o: Operand, refs: seq<Ref>, negated: bool, ts: seq<Token>)
    requires Terminated(ts) && Columns(refs) == OperandColumns(o) && At(ts, Keyword, "IN")
    ensures TestDerived(scope, o, refs, WithNot(negated, ts), ParseInList(o, refs, negated, ts[1..]))
  {
    var m, r := ts[1..], ParseInList(o, refs, negated, ts[1..]);
    if r.Parsed? {
      InListDerived(o, refs, negated, m);
      InTestSpelled(scope, r.value, ts, m[1..], r.rest);
    }
  }

  lemma BetweenTestSpelled(scope: Scope, c: Condition, ts: seq<Token>, k: seq<Token>)
    requires c.Between? && At(ts, Keyword, "BETWEEN") && BoundsSpelled(scope, c.low, c.high, ts[1..], k)
    ensures TestSpelled(scope, c, WithNot(c.negated, ts), k)
  {
    Head(ts, Keyword, "BETWEEN");
  }

  lemma BetweenTestDerived(scope: Scope, o: Operand, refs: seq<Ref>, negated: bool, ts: seq<Token>)
    requires Terminated(ts) && Columns(refs) == OperandColumns(o) && At(ts, Keyword, "BETWEEN")
    ensures TestDerived(scope, o, refs, WithNot(negated, ts), ParseBetween(o, refs, negated, ts[1..]))
  {
    var r := ParseBetween(o, refs, negated, ts[1..]);
    if r.Parsed? && Known(scope, r.refs) {
      BoundsDerived(scope, o, refs, negated, ts[1..]);
      BetweenTestSpelled(scope, r.value, ts, r.rest);
    }
  }

  lemma WordTestDerived(scope: Scope, o: Operand, refs: seq<Ref>, negated: bool, ts: seq<Token>)
    requires Terminated(ts) && Columns(refs) == OperandColumns(o)
    ensures TestDerived(scope, o, refs, WithNot(negated, ts), ParseWordTest(o, refs, negated, ts))
  {
    if At(ts, Keyword, "IN") {
      InTestDerived(scope, o, refs, negated, ts);
    } else if At(ts, Keyword, "BETWEEN") {
      BetweenTestDerived(scope, o, refs, negated, ts);
    } else if At(ts, Keyword, "LIKE") {
      if ts[1].kind == String {
        assert ts == [K("LIKE")] + ([Token(String, ts[1].value)] + ts[2..]);
      }
    } else if !negated {
      var r := ParseComparison(o, refs, ts);
      if r.Parsed? && Known(scope, r.refs) {
        ComparisonDerived(scope, o, refs, ts);
      }
    }
  }

  lemma TestIsDerived(scope: Scope, o: Operand, refs: seq<Ref>, ts: seq<Token>)
    requires Terminated(ts) && Columns(refs) == OperandColumns(o)
    ensures TestDerived(scope, o, refs, ts, ParseTest(o, refs, ts))
  {
    if At(ts, Keyword, "IS") {
      Head(ts, Keyword, "IS");
      var negated := At(ts[1..], Keyword, "NOT");
      var rest := if negated then ts[2..] else ts[1..];
      if negated { Head(ts[1..], Keyword, "NOT"); }
      if At(rest, Keyword, "NULL") {
        Head(rest, Keyword, "NULL");
        assert ts[1..] == WithNot(negated, [K("NULL")] + rest[1..]);
      }
    } else if At(ts, Keyword, "NOT") {
      Head(ts, Keyword, "NOT");
      WordTestDerived(scope, o, refs, true, ts[1..]);
    } else {
      WordTestDerived(scope, o, refs, false, ts);
    }
  }

  /** What a parser of conditions makes of its tokens is spelled by them. */
  ghost predicate Derived(scope: Scope, level: nat, ts: seq<Token>, r: Parsed<Condition>) {
    r.Parsed? && Known(scope, r.refs) ==> ConditionSpelled(scope, level, r.value, ts, r.rest)
  }

  lemma {:induction false} OrDerived(scope: Scope, ts: seq<Token>)
    requires Terminated(ts)
    ensures Derived(scope, 0, ts, ParseOr(ts))
    decreases |ts|, 4
  {
    AndDerived(scope, ts);
    var r := ParseAnd(ts);
    if r.Parsed? {
      OrTailDerived(scope, ts, r.value, r.refs, r.rest);
    }
  }

  lemma {:induction false} OrTailDerived(scope: Scope, start: seq<Token>, left: Condition, refs: seq<Ref>,
                                         ts: seq<Token>)
    requires Terminated(ts) && Columns(refs) == ColumnsOf(left)
    requires Known(scope, refs) ==> ConditionSpelled(scope, 0, left, start, ts)
    ensures Derived(scope, 0, start, OrTail(left, refs, ts))
    ensures OrTail(left, refs, ts).Parsed? && Known(scope, OrTail(left, refs, ts).refs) ==> Known(scope, refs)
    decreases |ts|, 5
  {
    if At(ts, Keyword, "OR") {
      var r := ParseAnd(ts[1..]);
      if r.Parsed? {
        AndDerived(scope, ts[1..]);
        Head(ts, Keyword, "OR");
        ColumnsAppend(refs, r.refs);
        KnownAppend(scope, refs, r.refs);
        assert Known(scope, refs + r.refs) ==> ConditionSpelled(scope, 0, BoolOp(Or, left, r.value), start, r.rest);
        OrTailDerived(scope, start, BoolOp(Or, left, r.value), refs + r.refs, r.rest);
      }
    }
  }

  lemma {:induction false} AndDerived(scope: Scope, ts: seq<Token>)
    requires Terminated(ts)
    ensures Derived(scope, 1, ts, ParseAnd(ts)) && Derived(scope, 0, ts, ParseAnd(ts))
    decreases |ts|, 3
  {
    NotDerived(scope, ts);
    var r := ParseNot(ts);
    if r.Parsed? {
      AndTailDerived(scope, ts, r.value, r.refs, r.rest);
    }
  }

  lemma {:induction false} AndTailDerived(scope: Scope, start: seq<Token>, left: Condition, refs: seq<Ref>,
                                          ts: seq<Token>)
    requires Terminated(ts) && Columns(refs) == ColumnsOf(left)
    requires Known(scope, refs) ==> ConditionSpelled(scope, 1, left, start, ts)
    ensures Derived(scope, 1, start, AndTail(left, refs, ts))
    ensures AndTail(left, refs, ts).Parsed? && Known(scope, AndTail(left, refs, ts).refs) ==> Known(scope, refs)
    decreases |ts|, 4
  {
    if At(ts, Keyword, "AND") {
      var r := ParseNot(ts[1..]);
      if r.Parsed? {
        NotDerived(scope, ts[1..]);
        Head(ts, Keyword, "AND");
        ColumnsAppend(refs, r.refs);
        KnownAppend(scope, refs, r.refs);
        assert Known(scope, refs + r.refs) ==> ConditionSpelled(scope, 1, BoolOp(And, left, r.value), start, r.rest);
        AndTailDerived(scope, start, BoolOp(And, left, r.value), refs + r.refs, r.rest);
      }
    }
  }

  lemma {:induction false} NotDerived(scope: Scope, ts: seq<Token>)
    requires Terminated(ts)
    ensures Derived(scope, 2, ts, ParseNot(ts)) && Derived(scope, 1, ts, ParseNot(ts))
    decreases |ts|, 2
  {
    if At(ts, Keyword, "NOT") {
      NotDerived(scope, ts[1..]);
    } else {
      PredicateDerived(scope, ts);
    }
  }

  lemma {:induction false} PredicateDerived(scope: Scope, ts: seq<Token>)
    requires Terminated(ts)
    ensures Derived(scope, 3, ts, ParsePredicate(ts)) && Derived(scope, 2, ts, ParsePredicate(ts))
    ensures Derived(scope, 1, ts, ParsePredicate(ts))
    decreases |ts|, 1
  {
    if At(ts, Punct, "(") {
      OrDerived(scope, ts[1..]);
      var r := ParseOr(ts[1..]);
      if r.Parsed? && At(r.rest, Punct, ")") {
        Head(r.rest, Punct, ")");
      }
    } else {
      OperandDerived(scope, ts);
      var o := ParseOperand(ts);
      if o.Parsed? {
        TestIsDerived(scope, o.value, o.refs, o.rest);
      }
    }
  }

  lemma NameDerived(c: Column, ts: seq<Token>)
    requires Terminated(ts) && ParseOutputName(c, ts).Parsed?
    ensures NameSpelled(c.name, ParseOutputName(c, ts).value, ts, ParseOutputName(c, ts).rest)
  {
    if At(ts, Keyword, "AS") {
      assert IsName(ts[1]) && ts == [K("AS")] + ([ts[1]] + ts[2..]);
    } else if AtName(ts) {
      assert IsName(ts[0]) && ts == [ts[0]] + ts[1..];
    }
  }

  lemma ItemDerived(scope: Scope, ts: seq<Token>)
    requires Terminated(ts)
    ensures var r := ParseItem(ts);
            r.Parsed? && Known(scope, r.refs) ==> ItemSpelled(scope, r.value, ts, r.rest)
  {
    var r := ParseItem(ts);
    if r.Parsed? && Known(scope, r.refs) {
      ColumnDerived(scope, ts);
      NameDerived(r.value.0, ParseColumnRef(ts).rest);
    }
  }

  function ItemsFrom(item: (Column, string), others: seq<(Column, string)>): (items: Items)
    ensures items[0] == item && items[1..] == others
  {
    [item] + others
  }

  lemma ItemBefore(scope: Scope, item: (Column, string), others: Items, start: seq<Token>, ts: seq<Token>,
                   k: seq<Token>)
    requires ItemSpelled(scope, item, start, ts) && At(ts, Punct, ",") && ItemsSpelled(scope, others, ts[1..], k)
    ensures ItemsSpelled(scope, ItemsFrom(item, others), start, k)
  {
    Head(ts, Punct, ",");
  }

  lemma JoinItems(read: Items, items: Items)
    ensures WithItem(read, items[0]) + items[1..] == read + items
  {}

  /** If the items before the tokens end with `item`, spelled by `start`. */
  lemma {:induction false} ItemsDerived(scope: Scope, read: Items, refs: seq<Ref>, item: (Column, string),
                                        start: seq<Token>, ts: seq<Token>) returns (items: Items)
    requires Terminated(ts) && Columns(refs) == ItemColumns(read) && ItemSpelled(scope, item, start, ts)
    requires ItemsTail(read, refs, ts).Parsed? && Known(scope, ItemsTail(read, refs, ts).refs)
    ensures items[0] == item && ItemsTail(read, refs, ts).value == read + items[1..]
    ensures ItemsSpelled(scope, items, start, ItemsTail(read, refs, ts).rest)
    decreases |ts|
  {
    if At(ts, Punct, ",") {
      var r := ParseItem(ts[1..]);
      ItemStep(read, refs, ts);
      ItemsTailKnown(scope, WithItem(read, r.value), refs + r.refs, r.rest);
      KnownAppend(scope, refs, r.refs);
      ItemDerived(scope, ts[1..]);
      var others := ItemsDerived(scope, WithItem(read, r.value), refs + r.refs, r.value, ts[1..], r.rest);
      items := ItemsFrom(item, others);
      ItemBefore(scope, item, others, start, ts, ItemsTail(read, refs, ts).rest);
      JoinItems(read, others);
    } else {
      items := ItemsFrom(item, []);
      assert read + [] == read;
    }
  }

  lemma {:induction false} ItemsTailKnown(scope: Scope, read: Items, refs: seq<Ref>, ts: seq<Token>)
    requires Terminated(ts) && Columns(refs) == ItemColumns(read)
    requires ItemsTail(read, refs, ts).Parsed? && Known(scope, ItemsTail(read, refs, ts).refs)
    ensures Known(scope, refs)
    decreases |ts|
  {
    if At(ts, Punct, ",") {
      var r := ParseItem(ts[1..]);
      ItemStep(read, refs, ts);
      ItemsTailKnown(scope, WithItem(read, r.value), refs + r.refs, r.rest);
      KnownAppend(scope, refs, r.refs);
    }
  }

  lemma ListDerived(scope: Scope, ts: seq<Token>)
    requires Terminated(ts) && ParseItems(ts).Parsed? && Known(scope, ParseItems(ts).refs)
    ensures ItemsSpelled(scope, ParseItems(ts).value, ts, ParseItems(ts).rest)
  {
    var p := ParseItem(ts);
    var first: Items := [p.value];
    FirstItem(ts, p.value, p.rest, p.refs);
    ItemsTailKnown(scope, first, p.refs, p.rest);
    ItemDerived(scope, ts);
    var items := ItemsDerived(scope, first, p.refs, p.value, ts, p.rest);
    assert first + items[1..] == items;
  }

  lemma ProjectionDerived(scope: Scope, ts: seq<Token>)
    requires Terminated(ts)
    ensures var r := ParseProjection(ts);
            r.Parsed? && Known(scope, r.refs) ==> ProjectionSpelled(scope, r.value, ts, r.rest)
  {
    var r := ParseProjection(ts);
    if At(ts, Punct, "*") {
      Head(ts, Punct, "*");
    } else if r.Parsed? && Known(scope, r.refs) {
      ListDerived(scope, ts);
    }
  }

  lemma FromDerived(lower: string -> string, ts: seq<Token>)
    requires Terminated(ts)
    ensures var r := ParseFrom(lower, ts); r.Parsed? ==> FromSpelled(Scope(lower, r.value), ts, r.rest)
  {
    var r := ParseFrom(lower, ts);
    if r.Parsed? {
      var rest := ts[2..];
      if At(rest, Keyword, "AS") {
        assert rest == [K("AS")] + ([rest[1]] + rest[2..]);
      } else if rest[0].kind == Ident {
        assert rest == [rest[0]] + rest[1..];
      }
    }
  }

  lemma WhereDerived(scope: Scope, ts: seq<Token>)
    requires Terminated(ts)
    ensures var r := ParseWhere(ts);
            r.Parsed? && Known(scope, r.refs) ==> WhereSpelled(scope, r.value, ts, r.rest)
  {
    if At(ts, Keyword, "WHERE") {
      OrDerived(scope, ts[1..]);
    }
  }

  lemma LimitDerived(ts: seq<Token>)
    requires Terminated(ts)
    ensures var r := ParseLimit(ts); r.Parsed? && AtEnd(r.rest) ==> LimitedSpelled(r.value, ts)
  {
    var r := ParseLimit(ts);
    if r.Parsed? && AtEnd(r.rest) {
      if At(ts, Keyword, "LIMIT") {
        NaturalIsExact(r.value.value, ts[1].value);
      }
      EndIsExact(r.rest);
      assert LimitSpelled(r.value, ts, r.rest);
    }
  }

  lemma FinishDerived(scope: Scope, items: Option<Items>, where: Option<Condition>, limit: Option<nat>,
                      itemRefs: seq<Ref>, whereRefs: seq<Ref>, q: Query)
    requires ItemsMatch(items, itemRefs) && (items.Some? ==> |items.value| <= |itemRefs + whereRefs|)
    requires Finish(scope.lower, scope.alias, items, where, limit, itemRefs + whereRefs) == Some(q)
    ensures Known(scope, itemRefs) && Known(scope, whereRefs) && q.where == where && q.limit == limit
    ensures if items.None? then q.projection.None? else q.projection == Some(items.value)
  {
    var refs := itemRefs + whereRefs;
    assert forall i :: 0 <= i < |refs| ==> refs[i] in refs;
    assert Known(scope, refs);
    KnownAppend(scope, itemRefs, whereRefs);
    ColumnsAppend(itemRefs, whereRefs);
    if items.Some? {
      assert |itemRefs| == |Columns(itemRefs)| == |items.value|;
      assert Paired(items.value, Columns(refs)) == items.value;
    }
  }

  lemma RestDerived(scope: Scope, items: Option<Items>, itemRefs: seq<Ref>, ts: seq<Token>, q: Query)
    requires Terminated(ts) && ItemsMatch(items, itemRefs)
    requires ParseRest(scope.lower, items, itemRefs, scope.alias, ts) == Some(q)
    ensures Known(scope, itemRefs) && RestSpelled(scope, q, ts)
    ensures if items.None? then q.projection.None? else q.projection == Some(items.value)
  {
    var w := ParseWhere(ts);
    var l := ParseLimit(w.rest);
    assert items.Some? ==> |itemRefs| == |Columns(itemRefs)| == |items.value|;
    FinishDerived(scope, items, w.value, l.value, itemRefs, w.refs, q);
    WhereDerived(scope, ts);
    LimitDerived(w.rest);
  }

  /** The parser accepts exactly the tokens that spell a query, and gives the query they spell. */
  lemma ParseIsExact(lower: string -> string, ts: seq<Token>, q: Query)
    requires Terminated(ts)
    ensures ParseQuery(lower, ts) == Some(q) <==> QuerySpelled(lower, q, ts)
  {
    if ParseQuery(lower, ts) == Some(q) {
      ColumnsLineUp(lower, ts);
      var p := ParseProjection(ts[1..]);
      var scope := Scope(lower, ParseFrom(lower, p.rest).value);
      var w := ParseFrom(lower, p.rest).rest;
      RestDerived(scope, p.value, p.refs, w, q);
      FromDerived(lower, p.rest);
      ProjectionDerived(scope, ts[1..]);
      assert TailSpelled(scope, q, p.rest);
      assert SelectSpelled(scope, q, ts);
    }
    if QuerySpelled(lower, q, ts) {
      var alias :| SelectSpelled(Scope(lower, alias), q, ts);
      QueryBack(Scope(lower, alias), q, ts);
    }
  }
}
