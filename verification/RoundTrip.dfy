/** The text of a query: rendering tokens, and that lexing the text gives the tokens back. */
module RoundTrip {
  import opened Wrappers
  import opened Sql
  import opened Lexer
  import opened Lexical
  import opened Grammar
  import opened Spelling
  import opened Printer
  import Decimal

  // --- Rendering ------------------------------------------------------------------------------

  function TextOf(t: Token): string {
    match t.kind
    case String => "'" + (Escape(t.value, '\'') + "'")
    case Quoted => "\"" + (Escape(t.value, '"') + "\"")
    case _ => t.value
  }

  /** How the tokens are set: the white space before the first and after each, and the letters of
      each keyword. Places are told apart by the number of tokens that follow. */
  datatype Layout = Layout(lead: string, gap: nat -> string, word: nat -> string)

  predicate EndsNumber(rest: string) {
    rest == "" || (!Decimal.IsDigit(rest[0]) && rest[0] !in {'.', 'e', 'E'})
  }

  /** The token ends before this text, and nothing of it is taken for a part of the token. */
  predicate Separated(t: Token, rest: string) {
    rest == "" ||
    match t.kind
    case String => rest[0] != '\''
    case Quoted => rest[0] != '"'
    case Keyword => !IsWordChar(rest[0])
    case Ident => !IsWordChar(rest[0])
    case Number => EndsNumber(rest)
    case Operator => t.value + [rest[0]] !in {"<=", ">=", "<>", "!="}
    case Punct => t.value != "." || !Decimal.IsDigit(rest[0])
    case End => true
  }

  function TextAt(layout: Layout, t: Token, n: nat): string {
    if t.kind == Keyword && IsWord(layout.word(n)) && Upper(layout.word(n)) == t.value then layout.word(n)
    else TextOf(t)
  }

  /** The white space of the layout, if it keeps the token apart from what follows. */
  function GapAt(layout: Layout, t: Token, n: nat, tail: string): string {
    if Blanks(layout.gap(n)) && Separated(t, layout.gap(n) + tail) then layout.gap(n) else " "
  }

  /** The end token is not written. */
  function Render(layout: Layout, ts: seq<Token>): string {
    if ts == [] || ts[0].kind == End then ""
    else
      var tail := Render(layout, ts[1..]);
      TextAt(layout, ts[0], |ts| - 1) + (GapAt(layout, ts[0], |ts| - 1, tail) + tail)
  }

  /** The text of a query. */
  function Print(layout: Layout, st: Style, q: Query): string
    requires q.projection.Some? ==> q.projection.value != []
  {
    (if Blanks(layout.lead) then layout.lead else "") + Render(layout, QueryTokens(st, q))
  }

  /** Tokens that can be written so that they are read back. */
  ghost predicate Lexable(t: Token) { t == EndToken || Writes(TextOf(t), t) }

  // --- Reading one token back --------------------------------------------------------------------

  /** What follows a run that fills a text does not make it longer. */
  lemma {:induction false} RunStops(s: string, rest: string, k: CharClass)
    requires rest == "" || !k.Has(rest[0])
    ensures Run(s + rest, k) == Run(s, k)
    decreases |s|
  {
    if s == "" {
      assert s + rest == rest;
    } else {
      assert (s + rest)[1..] == s[1..] + rest;
      RunStops(s[1..], rest, k);
    }
  }

  lemma {:induction false} RunIsAll(s: string, k: CharClass)
    requires forall i :: 0 <= i < |s| ==> k.Has(s[i])
    ensures Run(s, k) == |s|
    decreases |s|
  {
    if s != "" {
      RunIsAll(s[1..], k);
    }
  }

  lemma QuotedIs(s: string, q: char, kind: TokenKind, e: string)
    requires s != "" && s[0] == q && BodyLength(s[1..], q) == Some(|e|) && s[1..1 + |e|] == e
    ensures QuotedLexeme(s, kind) == Lexed(Token(kind, Unescape(e, q)), |e| + 2)
  {}

  lemma BodyCloses(v: string, rest: string, q: char)
    requires rest == "" || rest[0] != q
    ensures BodyLength(Escape(v, q) + ([q] + rest), q) == Some(|Escape(v, q)|)
  {
    BodyBehind(v, [q] + rest, q);
    assert ([q] + rest)[0] == q && (rest != "" ==> ([q] + rest)[1] == rest[0]);
  }

  lemma QuotedBack(kind: TokenKind, v: string, q: char, rest: string)
    requires rest == "" || rest[0] != q
    ensures var text := [q] + (Escape(v, q) + [q]);
            QuotedLexeme(text + rest, kind) == Lexed(Token(kind, v), |text|)
  {
    var e := Escape(v, q);
    var s := ([q] + (e + [q])) + rest;
    BodyCloses(v, rest, q);
    UnescapeUndoesEscape(v, q);
    assert s[0] == q && s[1..] == e + ([q] + rest);
    assert s[1..1 + |e|] == e;
    QuotedIs(s, q, kind, e);
  }

  lemma ExponentStops(s: string, rest: string)
    requires EndsNumber(rest) && ExponentLength(s) == |s|
    ensures ExponentLength(s + rest) == |s|
  {
    if s == "" {
      assert s + rest == rest;
    } else {
      var t := s + rest;
      var sign := if |s| > 1 && s[1] in {'-', '+'} then 1 else 0;
      assert |s| > 1 && sign == if |t| > 1 && t[1] in {'-', '+'} then 1 else 0;
      assert t[1 + sign..] == s[1 + sign..] + rest;
      RunStops(s[1 + sign..], rest, Digits);
    }
  }

  lemma FractionStops(s: string, rest: string)
    requires EndsNumber(rest)
    ensures FractionLength(s + rest) == FractionLength(s)
  {
    if s == "" {
      assert s + rest == rest;
    } else {
      assert (s + rest)[1..] == s[1..] + rest;
      RunStops(s[1..], rest, Digits);
    }
  }

  lemma UnsignedStops(s: string, rest: string)
    requires EndsNumber(rest) && s != "" && UnsignedLength(s) == |s|
    ensures UnsignedLength(s + rest) == |s|
  {
    var t := s + rest;
    RunStops(s, rest, Digits);
    var whole := Run(s, Digits);
    assert t[whole..] == s[whole..] + rest;
    FractionStops(s[whole..], rest);
    var fraction := FractionLength(s[whole..]);
    assert t[whole + fraction..] == s[whole + fraction..] + rest;
    var exponent := ExponentLength(s[whole + fraction..]);
    UnsignedIs(s, whole, fraction, exponent);
    ExponentStops(s[whole + fraction..], rest);
    UnsignedIs(t, whole, fraction, exponent);
  }

  /** A numeral is read to its end, if what follows does not go on with it. */
  lemma NumberStops(s: string, rest: string)
    requires IsNumeral(s) && EndsNumber(rest)
    ensures NumberLength(s + rest) == |s|
  {
    assert s[..|s|] == s;
    NumberCovered(s, |s|);
    if s[0] == '-' {
      assert (s + rest)[1..] == s[1..] + rest;
      UnsignedStops(s[1..], rest);
    } else {
      UnsignedStops(s, rest);
    }
  }

  lemma WordBack(s: string, rest: string)
    requires IsWord(s) && (rest == "" || !IsWordChar(rest[0]))
    ensures WordLength(s + rest) == |s| && NumberLength(s + rest) == 0
  {
    var t := s + rest;
    assert t[1..] == s[1..] + rest;
    RunStops(s[1..], rest, WordChars);
    RunIsAll(s[1..], WordChars);
    assert t[0] == s[0] && !Decimal.IsDigit(t[0]);
  }

  lemma NoNumberNoWord(s: string)
    requires s != "" && !Decimal.IsDigit(s[0]) && s[0] != '-' && !IsWordStart(s[0])
    requires s[0] == '.' && |s| > 1 ==> !Decimal.IsDigit(s[1])
    ensures NumberLength(s) == 0 && WordLength(s) == 0
  {
    assert s[0..] == s;
    assert s[0] == '.' ==> Run(s[1..], Digits) == 0;
  }

  lemma OperatorLexes(t: Token, rest: string)
    requires t.kind == Operator && Writes(t.value, t) && Separated(t, rest)
    ensures Next(t.value + rest) == Lexed(t, |t.value|)
  {
    var s := t.value + rest;
    assert s[..|t.value|] == t.value;
    NoNumberNoWord(s);
    if |t.value| == 1 && rest != "" {
      assert s[..2] == t.value + [rest[0]];
    }
  }

  lemma PunctLexes(t: Token, rest: string)
    requires t.kind == Punct && Writes(t.value, t) && Separated(t, rest)
    ensures Next(t.value + rest) == Lexed(t, |t.value|)
  {
    var s := t.value + rest;
    assert s[..1] == t.value;
    NoNumberNoWord(s);
    assert |s| > 1 ==> s[..2][0] == s[0];
    assert forall w :: w in {"<=", ">=", "<>", "!="} ==> w[0] in {'<', '>', '!'};
  }

  lemma QuotedLexes(t: Token, rest: string)
    requires t.kind in {String, Quoted} && Separated(t, rest)
    ensures Next(TextOf(t) + rest) == Lexed(t, |TextOf(t)|)
  {
    var q := if t.kind == String then '\'' else '"';
    QuotedBack(t.kind, t.value, q, rest);
    assert (TextOf(t) + rest)[0] == q && !IsSpace(q);
  }

  lemma NumberComesFirst(s: string, v: string)
    requires v != "" && v <= s && !IsSpace(s[0]) && s[0] !in {'\'', '"'} && NumberLength(s) == |v|
    ensures Next(s) == Lexed(Token(Number, v), |v|)
  {
    assert s[..|v|] == v;
  }

  lemma WordComesNext(s: string, v: string)
    requires v != "" && v <= s && !IsSpace(s[0]) && s[0] !in {'\'', '"'} && NumberLength(s) == 0 && WordLength(s) == |v|
    ensures Next(s) == Lexed(WordToken(v), |v|)
  {
    assert s[..|v|] == v;
  }

  lemma NumberLexes(t: Token, rest: string)
    requires t.kind == Number && Writes(t.value, t) && EndsNumber(rest)
    ensures Next(t.value + rest) == Lexed(t, |t.value|)
  {
    NumberStops(t.value, rest);
    NumeralStart(t.value);
    NumberComesFirst(t.value + rest, t.value);
  }

  lemma WordLexes(t: Token, text: string, rest: string)
    requires t.kind in {Keyword, Ident} && Writes(text, t) && Separated(t, rest)
    ensures Next(text + rest) == Lexed(t, |text|)
  {
    WordBack(text, rest);
    assert (text + rest)[0] == text[0];
    WordComesNext(text + rest, text);
  }

  /** A token is read back from any text that spells it, if it is kept apart from what follows. */
  lemma TokenBack(t: Token, text: string, rest: string)
    requires Writes(text, t) && Separated(t, rest)
    ensures Next(text + rest) == Lexed(t, |text|)
  {
    if t.kind in {String, Quoted} {
      QuotedLexes(t, rest);
    } else if t.kind == Number {
      NumberLexes(t, rest);
    } else if t.kind in {Keyword, Ident} {
      WordLexes(t, text, rest);
    } else if t.kind == Operator {
      OperatorLexes(t, rest);
    } else {
      PunctLexes(t, rest);
    }
  }

  lemma RenderStep(t: Token, text: string, gap: string, tail: string)
    requires Writes(text, t) && Blanks(gap) && Separated(t, gap + tail)
    ensures Lex(text + (gap + tail)) == Prepend([t], Lex(tail))
  {
    var rest := gap + tail;
    TokenBack(t, text, rest);
    LexemeRead(text + rest, t, |text|);
    assert (text + rest)[|text|..] == rest;
    BlanksSkipped(gap, tail);
  }

  lemma OneSpaceSeparates(t: Token, tail: string)
    requires Lexable(t)
    ensures Blanks(" ") && Separated(t, " " + tail)
  {
    assert (" " + tail)[0] == ' ';
    var marked := t.value + [' '];
    assert marked[|marked| - 1] == ' ';
    assert forall w :: w in {"<=", ">=", "<>", "!="} ==> w[|w| - 1] != ' ';
  }

  lemma TextSpells(layout: Layout, t: Token, n: nat)
    requires Lexable(t) && t.kind != End
    ensures Writes(TextAt(layout, t, n), t)
  {}

  /** Whatever the layout, the tokens are read back. */
  lemma {:induction false} RenderBack(layout: Layout, ts: seq<Token>)
    requires Terminated(ts) && forall i :: 0 <= i < |ts| ==> Lexable(ts[i])
    ensures Lex(Render(layout, ts)) == Some(ts)
    decreases |ts|
  {
    if ts[0].kind == End {
      assert ts == [EndToken];
    } else {
      var t, n, tail := ts[0], |ts| - 1, Render(layout, ts[1..]);
      RenderBack(layout, ts[1..]);
      TextSpells(layout, t, n);
      OneSpaceSeparates(t, tail);
      RenderStep(t, TextAt(layout, t, n), GapAt(layout, t, n, tail), tail);
      assert [t] + ts[1..] == ts;
    }
  }

  // --- The tokens of a query can be read back --------------------------------------------------------

  ghost predicate AllLexable(ts: seq<Token>) { forall i :: 0 <= i < |ts| ==> Lexable(ts[i]) }

  predicate AllCapitals(s: string) { forall i :: 0 <= i < |s| ==> 'A' <= s[i] <= 'Z' }

  lemma CapitalsAreWords(s: string)
    requires s != "" && AllCapitals(s)
    ensures IsWord(s) && Upper(s) == s
  {}

  lemma KeywordLexable(word: string)
    requires word in RESERVED
    ensures Lexable(K(word))
  {
    assert word != "" && AllCapitals(word);
    CapitalsAreWords(word);
  }

  lemma PushLexable(t: Token, k: seq<Token>)
    requires Lexable(t) && AllLexable(k)
    ensures AllLexable([t] + k)
  {}

  lemma PushKeyword(word: string, k: seq<Token>)
    requires word in RESERVED && AllLexable(k)
    ensures AllLexable([K(word)] + k)
  {
    KeywordLexable(word);
    PushLexable(K(word), k);
  }

  lemma DigitsAreNumeral(s: string)
    requires SomeDigits(s)
    ensures IsUnsigned(s) && IsNumeral(s) && IsNumeral("-" + s)
  {
    assert s[..|s|] == s && s[|s|..] == "" && s[|s|..|s|] == "";
    assert HasParts(s, |s|, |s|);
    assert Decimal.IsDigit(s[0]) && ("-" + s)[1..] == s;
  }

  lemma IntegersLexable(n: int, minus: bool, zeros: nat)
    ensures IsNumeral(IntText(n, minus, zeros))
  {
    DigitsAreNumeral(Decimal.Padded(if n < 0 then -n else n, zeros));
  }

  /** The names in a style can be read back as names. */
  ghost predicate Legible(st: Style) {
    && WritableAlias(st.alias) && Lexable(st.table)
    && forall n :: st.prefix(n).Some? ==> Lexable(st.prefix(n).value)
  }

  lemma LiteralLexable(st: Style, v: Value, k: seq<Token>)
    requires WritableValue(v)
    ensures Lexable(LiteralToken(st, v, k))
  {
    match v
    case Null => KeywordLexable("NULL");
    case Bool(b) => KeywordLexable(if b then "TRUE" else "FALSE");
    case Int(n) => IntegersLexable(n, st.minus(|k|), st.zeros(|k|));
    case _ =>
  }

  lemma ColumnLexable(st: Style, c: Column, k: seq<Token>)
    requires WritableColumn(c) && Legible(st) && AllLexable(k)
    ensures AllLexable(ColumnTokens(st, c, k))
  {
    PushLexable(NameToken(c), k);
    if st.prefix(|k|).Some? {
      PushLexable(P("."), [NameToken(c)] + k);
      PushLexable(st.prefix(|k|).value, [P(".")] + ([NameToken(c)] + k));
    }
  }

  lemma OperandLexable(st: Style, o: Operand, k: seq<Token>)
    requires WritableOperand(o) && Legible(st) && AllLexable(k)
    ensures AllLexable(OperandTokens(st, o, k))
  {
    match o
    case Lit(v) =>
      LiteralLexable(st, v, k);
      PushLexable(LiteralToken(st, v, k), k);
    case Col(c) => ColumnLexable(st, c, k);
  }

  lemma WithNotLexable(negated: bool, k: seq<Token>)
    requires AllLexable(k)
    ensures AllLexable(WithNot(negated, k))
  {
    if negated { PushKeyword("NOT", k); }
  }

  lemma MemberLexable(st: Style, mark: string, v: Value, rest: seq<Token>)
    requires mark in {"(", ","} && WritableValue(v) && AllLexable(rest)
    ensures AllLexable([P(mark)] + ([LiteralToken(st, v, rest)] + rest))
  {
    LiteralLexable(st, v, rest);
    PushLexable(LiteralToken(st, v, rest), rest);
    PushLexable(P(mark), [LiteralToken(st, v, rest)] + rest);
  }

  lemma {:induction false} MembersLexable(st: Style, values: seq<Value>, k: seq<Token>)
    requires AllLexable(k) && forall i :: 0 <= i < |values| ==> WritableValue(values[i])
    ensures AllLexable(MemberTokens(st, values, k))
    decreases |values|
  {
    if values != [] {
      MembersLexable(st, values[1..], k);
      MemberLexable(st, ",", values[0], MemberTokens(st, values[1..], k));
    }
  }

  lemma ListLexable(st: Style, values: Members, k: seq<Token>)
    requires AllLexable(k) && forall i :: 0 <= i < |values| ==> WritableValue(values[i])
    ensures AllLexable(ListTokens(st, values, k))
  {
    PushLexable(P(")"), k);
    MembersLexable(st, values[1..], [P(")")] + k);
    MemberLexable(st, "(", values[0], MemberTokens(st, values[1..], [P(")")] + k));
  }

  lemma RangeLexable(st: Style, low: Operand, high: Operand, k: seq<Token>)
    requires WritableOperand(low) && WritableOperand(high) && Legible(st) && AllLexable(k)
    ensures AllLexable([K("BETWEEN")] + BoundTokens(st, low, high, k))
  {
    OperandLexable(st, high, k);
    PushKeyword("AND", OperandTokens(st, high, k));
    OperandLexable(st, low, [K("AND")] + OperandTokens(st, high, k));
    PushKeyword("BETWEEN", BoundTokens(st, low, high, k));
  }

  lemma TestLexable(st: Style, c: Condition, k: seq<Token>)
    requires LevelOf(c) == 3 && Writable(c) && Legible(st) && AllLexable(k)
    ensures AllLexable(TestTokens(st, c, k))
  {
    match c
    case Comparison(op, l, r) =>
      OperandLexable(st, r, k);
      PushLexable(OpToken(st, op, OperandTokens(st, r, k)), OperandTokens(st, r, k));
    case IsNull(o, negated) =>
      PushKeyword("NULL", k);
      WithNotLexable(negated, [K("NULL")] + k);
      PushKeyword("IS", WithNot(negated, [K("NULL")] + k));
    case InList(o, values, negated) =>
      ListLexable(st, values, k);
      PushKeyword("IN", ListTokens(st, values, k));
      WithNotLexable(negated, [K("IN")] + ListTokens(st, values, k));
    case Between(o, low, high, negated) =>
      RangeLexable(st, low, high, k);
      WithNotLexable(negated, [K("BETWEEN")] + BoundTokens(st, low, high, k));
    case Like(o, pattern, negated) =>
      PushLexable(Token(String, pattern), k);
      PushKeyword("LIKE", [Token(String, pattern)] + k);
      WithNotLexable(negated, [K("LIKE")] + ([Token(String, pattern)] + k));
  }

  lemma {:induction false} ConditionLexable(st: Style, level: nat, c: Condition, k: seq<Token>)
    requires Writable(c) && Legible(st) && AllLexable(k)
    ensures AllLexable(ConditionTokens(st, level, c, k))
    decreases c, 2, 0
  {
    ParenLexable(st, Pairs(st, level, c, k), c, k);
  }

  lemma {:induction false} ParenLexable(st: Style, n: nat, c: Condition, k: seq<Token>)
    requires Writable(c) && Legible(st) && AllLexable(k)
    ensures AllLexable(ParenTokens(st, n, c, k))
    decreases c, 1, n
  {
    if n == 0 {
      BareLexable(st, c, k);
    } else {
      PushLexable(P(")"), k);
      ParenLexable(st, n - 1, c, [P(")")] + k);
      PushLexable(P("("), ParenTokens(st, n - 1, c, [P(")")] + k));
    }
  }

  lemma {:induction false} BareLexable(st: Style, c: Condition, k: seq<Token>)
    requires Writable(c) && Legible(st) && AllLexable(k)
    ensures AllLexable(BareTokens(st, c, k))
    decreases c, 0, 0
  {
    match c
    case BoolOp(Or, l, r) =>
      ConditionLexable(st, 1, r, k);
      PushKeyword("OR", ConditionTokens(st, 1, r, k));
      ConditionLexable(st, 0, l, [K("OR")] + ConditionTokens(st, 1, r, k));
    case BoolOp(And, l, r) =>
      ConditionLexable(st, 2, r, k);
      PushKeyword("AND", ConditionTokens(st, 2, r, k));
      ConditionLexable(st, 1, l, [K("AND")] + ConditionTokens(st, 2, r, k));
    case Not(x) =>
      ConditionLexable(st, 2, x, k);
      PushKeyword("NOT", ConditionTokens(st, 2, x, k));
    case _ =>
      TestLexable(st, c, k);
      OperandLexable(st, FirstOperand(c), TestTokens(st, c, k));
  }

  lemma NamedLexable(form: OutputForm, name: string, k: seq<Token>)
    requires AllLexable(k) && (form in {AsPlain, JustPlain} ==> IsIdentifier(name))
    ensures AllLexable(NamedTokens(form, name, k))
  {
    PushLexable(Token(Quoted, name), k);
    PushKeyword("AS", [Token(Quoted, name)] + k);
    if form in {AsPlain, JustPlain} {
      PushLexable(Token(Ident, name), k);
      PushKeyword("AS", [Token(Ident, name)] + k);
    }
  }

  lemma ItemLexable(st: Style, item: (Column, string), k: seq<Token>)
    requires WritableColumn(item.0) && Legible(st) && AllLexable(k)
    ensures AllLexable(ItemTokens(st, item, k))
  {
    NamedLexable(FormOf(st, item, k), item.1, k);
    ColumnLexable(st, item.0, NamedTokens(FormOf(st, item, k), item.1, k));
  }

  lemma {:induction false} ItemsLexable(st: Style, items: seq<(Column, string)>, k: seq<Token>)
    requires Legible(st) && AllLexable(k) && forall i :: 0 <= i < |items| ==> WritableColumn(items[i].0)
    ensures AllLexable(MoreItemTokens(st, items, k))
    decreases |items|
  {
    if items != [] {
      ItemsLexable(st, items[1..], k);
      ItemLexable(st, items[0], MoreItemTokens(st, items[1..], k));
      PushLexable(P(","), ItemTokens(st, items[0], MoreItemTokens(st, items[1..], k)));
    }
  }

  lemma FromLexable(st: Style, k: seq<Token>)
    requires Legible(st) && AllLexable(k)
    ensures AllLexable(FromTokens(st, k))
  {
    if st.alias.Some? {
      PushLexable(Token(Ident, st.alias.value), k);
      PushKeyword("AS", [Token(Ident, st.alias.value)] + k);
    }
    PushLexable(st.table, AliasTokens(st, k));
    PushKeyword("FROM", [st.table] + AliasTokens(st, k));
  }

  lemma LimitLexable(st: Style, limit: Option<nat>)
    ensures AllLexable(LimitTokens(st, limit))
  {
    var end := EndTokens(st);
    PushLexable(P(";"), [EndToken]);
    if limit.Some? {
      var n := Decimal.Padded(limit.value, st.zeros(|end|));
      DigitsAreNumeral(n);
      PushLexable(Token(Number, n), end);
      PushKeyword("LIMIT", [Token(Number, n)] + end);
    }
  }

  lemma QueryLexable(st: Style, q: Query)
    requires WritableQuery(q) && Legible(st)
    ensures AllLexable(QueryTokens(st, q))
  {
    var limit := LimitTokens(st, q.limit);
    LimitLexable(st, q.limit);
    var where := WhereTokens(st, q.where, limit);
    if q.where.Some? {
      ConditionLexable(st, 0, q.where.value, limit);
      PushKeyword("WHERE", ConditionTokens(st, 0, q.where.value, limit));
    }
    var from := FromTokens(st, where);
    FromLexable(st, where);
    if q.projection.Some? {
      var items := q.projection.value;
      ItemsLexable(st, items[1..], from);
      ItemLexable(st, items[0], MoreItemTokens(st, items[1..], from));
    } else {
      PushLexable(P("*"), from);
    }
    PushKeyword("SELECT", ProjectionTokens(st, q.projection, from));
  }

  // --- The round trip -----------------------------------------------------------------------------------

  /** Parsing a text; None is the error, of the tokenizer or of the parser. */
  function ParseText(lower: string -> string, sql: string): Option<Query> {
    LexTerminates(sql);
    match Lex(sql) case None => None case Some(ts) => ParseQuery(lower, ts)
  }

  /** The text is laid out as tokens that spell the query. */
  ghost predicate Says(lower: string -> string, sql: string, q: Query) {
    exists ts :: Laid(sql, ts) && QuerySpelled(lower, q, ts)
  }

  /** A text parses to a query exactly if it says it: nothing else is accepted or understood. */
  lemma ParseTextIsExact(lower: string -> string, sql: string, q: Query)
    ensures ParseText(lower, sql) == Some(q) <==> Says(lower, sql, q)
  {
    LexTerminates(sql);
    if Lex(sql).Some? {
      LexIsExact(sql, Lex(sql).value);
      ParseIsExact(lower, Lex(sql).value, q);
    }
    if Says(lower, sql, q) {
      var ts :| Laid(sql, ts) && QuerySpelled(lower, q, ts);
      LexIsExact(sql, ts);
    }
  }

  /** Tokenizing and parsing the printed text of a query gives back exactly that query, however it
      is spelled and laid out. */
  lemma ParsingUndoesPrinting(lower: string -> string, layout: Layout, st: Style, q: Query)
    requires WritableQuery(q) && Sensible(lower, st) && Legible(st)
    ensures ParseText(lower, Print(layout, st, q)) == Some(q)
  {
    var ts := QueryTokens(st, q);
    PrintedIsParsed(lower, st, q);
    QueryLexable(st, q);
    RenderBack(layout, ts);
    var lead := if Blanks(layout.lead) then layout.lead else "";
    BlanksSkipped(lead, Render(layout, ts));
  }

  /** One style that is always possible: no alias, and no parentheses but those that are needed. */
  const PlainStyle := Style(None, false, Token(Ident, "S3Object"), false, _ => None, _ => false, (_, _) => 0,
                            _ => false, _ => 0, _ => AsQuoted)

  lemma WithDigitIsIdentifier(s: string)
    requires IsWord(s) && |s| > 1 && Decimal.IsDigit(s[1])
    ensures IsIdentifier(s)
  {
    var u := Upper(s);
    assert u[1] == s[1];
    assert forall w :: w in RESERVED ==> AllCapitals(w) && |w| > 1;
  }

  lemma PlainIsSensible(lower: string -> string)
    requires lower("S3Object") == "s3object"
    ensures Sensible(lower, PlainStyle) && Legible(PlainStyle)
  {
    WithDigitIsIdentifier("S3Object");
  }
}
