/** The other half of the round trip: every query that is parsed from any text can be written,
    so printing it and parsing again gives it back. */
module Reprint {
  import opened Wrappers
  import opened Sql
  import opened Lexer
  import opened Lexical
  import opened Grammar
  import opened Spelling
  import opened Printer
  import opened RoundTrip

  // --- What the tokenizer makes can be read back ---------------------------------------------

  lemma WrittenLexable(text: string, t: Token)
    requires Writes(text, t)
    ensures Lexable(t)
  {
    if t.kind == Keyword {
      var u := Upper(text);
      assert forall i :: 0 <= i < |text| ==> u[i] == UpperChar(text[i]) && IsWordChar(u[i]) && UpperChar(u[i]) == u[i];
      assert Upper(u) == u;
    }
  }

  lemma NextLexable(s: string)
    requires s != "" && Next(s).Lexed?
    ensures Lexable(Next(s).token) && Next(s).token.kind != End
  {
    NextWrites(s);
    WrittenLexable(s[..Next(s).length], Next(s).token);
  }

  lemma {:induction false} LexIsLexable(s: string)
    ensures Lex(s).Some? ==> AllLexable(Lex(s).value)
    decreases |s|
  {
    if s != "" && Next(s) != Bad {
      LexIsLexable(s[Next(s).length..]);
      if Next(s).Lexed? {
        NextLexable(s);
      }
    }
  }

  // --- What the parser makes of such tokens can be written -----------------------------------------

  lemma LiteralWritable(ts: seq<Token>)
    requires Terminated(ts) && AllLexable(ts)
    ensures var r := ParseLiteral(ts); r.Parsed? ==> WritableValue(r.value) && AllLexable(r.rest)
  {
    assert Lexable(ts[0]);
  }

  lemma NameWritable(t: Token)
    requires Lexable(t) && t.kind in {Ident, Quoted}
    ensures WritableColumn(Column(t.value, t.kind == Quoted))
  {}

  lemma ColumnWritable(ts: seq<Token>)
    requires Terminated(ts) && AllLexable(ts)
    ensures var r := ParseColumnRef(ts); r.Parsed? ==> WritableColumn(r.value) && AllLexable(r.rest)
  {
    var r := ParseColumnRef(ts);
    if r.Parsed? {
      if At(ts[1..], Punct, ".") {
        assert ts[1..][0] == ts[1] && ts[2..][0] == ts[2];
        NameWritable(ts[2]);
      } else {
        NameWritable(ts[0]);
      }
    }
  }

  lemma OperandWritable(ts: seq<Token>)
    requires Terminated(ts) && AllLexable(ts)
    ensures var r := ParseOperand(ts); r.Parsed? ==> WritableOperand(r.value) && AllLexable(r.rest)
  {
    if AtName(ts) {
      ColumnWritable(ts);
    } else {
      LiteralWritable(ts);
    }
  }

  ghost predicate GivesWritable(r: Parsed<Condition>) {
    r.Parsed? ==> Writable(r.value) && AllLexable(r.rest)
  }

  lemma {:induction false} OrWritable(ts: seq<Token>)
    requires Terminated(ts) && AllLexable(ts)
    ensures GivesWritable(ParseOr(ts))
    decreases |ts|, 4
  {
    AndWritable(ts);
    var r := ParseAnd(ts);
    if r.Parsed? {
      OrTailWritable(r.value, r.refs, r.rest);
    }
  }

  lemma {:induction false} OrTailWritable(left: Condition, refs: seq<Ref>, ts: seq<Token>)
    requires Terminated(ts) && AllLexable(ts) && Columns(refs) == ColumnsOf(left) && Writable(left)
    ensures GivesWritable(OrTail(left, refs, ts))
    decreases |ts|, 5
  {
    if At(ts, Keyword, "OR") {
      AndWritable(ts[1..]);
      var r := ParseAnd(ts[1..]);
      if r.Parsed? {
        ColumnsAppend(refs, r.refs);
        OrTailWritable(BoolOp(Or, left, r.value), refs + r.refs, r.rest);
      }
    }
  }

  lemma {:induction false} AndWritable(ts: seq<Token>)
    requires Terminated(ts) && AllLexable(ts)
    ensures GivesWritable(ParseAnd(ts))
    decreases |ts|, 3
  {
    NotWritable(ts);
    var r := ParseNot(ts);
    if r.Parsed? {
      AndTailWritable(r.value, r.refs, r.rest);
    }
  }

  lemma {:induction false} AndTailWritable(left: Condition, refs: seq<Ref>, ts: seq<Token>)
    requires Terminated(ts) && AllLexable(ts) && Columns(refs) == ColumnsOf(left) && Writable(left)
    ensures GivesWritable(AndTail(left, refs, ts))
    decreases |ts|, 4
  {
    if At(ts, Keyword, "AND") {
      NotWritable(ts[1..]);
      var r := ParseNot(ts[1..]);
      if r.Parsed? {
        ColumnsAppend(refs, r.refs);
        AndTailWritable(BoolOp(And, left, r.value), refs + r.refs, r.rest);
      }
    }
  }

  lemma {:induction false} NotWritable(ts: seq<Token>)
    requires Terminated(ts) && AllLexable(ts)
    ensures GivesWritable(ParseNot(ts))
    decreases |ts|, 2
  {
    if At(ts, Keyword, "NOT") {
      NotWritable(ts[1..]);
    } else {
      PredicateWritable(ts);
    }
  }

  lemma {:induction false} PredicateWritable(ts: seq<Token>)
    requires Terminated(ts) && AllLexable(ts)
    ensures GivesWritable(ParsePredicate(ts))
    decreases |ts|, 1
  {
    if At(ts, Punct, "(") {
      OrWritable(ts[1..]);
    } else {
      OperandWritable(ts);
      var r := ParseOperand(ts);
      if r.Parsed? {
        TestWritable(r.value, r.refs, r.rest);
      }
    }
  }

  lemma WordTestWritable(o: Operand, refs: seq<Ref>, negated: bool, ts: seq<Token>)
    requires Terminated(ts) && AllLexable(ts) && Columns(refs) == OperandColumns(o) && WritableOperand(o)
    ensures GivesWritable(ParseWordTest(o, refs, negated, ts))
  {
    if At(ts, Keyword, "IN") {
      InListWritable(o, refs, negated, ts[1..]);
    } else if At(ts, Keyword, "BETWEEN") {
      BetweenWritable(o, refs, negated, ts[1..]);
    } else if !At(ts, Keyword, "LIKE") && !negated {
      ComparisonWritable(o, refs, ts);
    }
  }

  lemma TestWritable(o: Operand, refs: seq<Ref>, ts: seq<Token>)
    requires Terminated(ts) && AllLexable(ts) && Columns(refs) == OperandColumns(o) && WritableOperand(o)
    ensures GivesWritable(ParseTest(o, refs, ts))
  {
    if !At(ts, Keyword, "IS") {
      var negated := At(ts, Keyword, "NOT");
      var rest := if negated then ts[1..] else ts;
      WordTestWritable(o, refs, negated, rest);
    }
  }

  lemma {:induction false} MembersWritable(values: Members, ts: seq<Token>)
    requires Terminated(ts) && AllLexable(ts) && forall i :: 0 <= i < |values| ==> WritableValue(values[i])
    ensures var r := MembersTail(values, ts);
            r.Parsed? ==> AllLexable(r.rest) && forall i :: 0 <= i < |r.value| ==> WritableValue(r.value[i])
    decreases |ts|
  {
    if At(ts, Punct, ",") {
      LiteralWritable(ts[1..]);
      var r := ParseLiteral(ts[1..]);
      if r.Parsed? {
        MembersWritable(values + [r.value], r.rest);
      }
    }
  }

  lemma InListWritable(o: Operand, refs: seq<Ref>, negated: bool, ts: seq<Token>)
    requires Terminated(ts) && AllLexable(ts) && Columns(refs) == OperandColumns(o) && WritableOperand(o)
    ensures GivesWritable(ParseInList(o, refs, negated, ts))
  {
    if At(ts, Punct, "(") {
      LiteralWritable(ts[1..]);
      var r := ParseLiteral(ts[1..]);
      if r.Parsed? {
        MembersWritable([r.value], r.rest);
      }
    }
  }

  lemma BetweenWritable(o: Operand, refs: seq<Ref>, negated: bool, ts: seq<Token>)
    requires Terminated(ts) && AllLexable(ts) && Columns(refs) == OperandColumns(o) && WritableOperand(o)
    ensures GivesWritable(ParseBetween(o, refs, negated, ts))
  {
    OperandWritable(ts);
    var low := ParseOperand(ts);
    if low.Parsed? && At(low.rest, Keyword, "AND") {
      OperandWritable(low.rest[1..]);
    }
  }

  lemma ComparisonWritable(o: Operand, refs: seq<Ref>, ts: seq<Token>)
    requires Terminated(ts) && AllLexable(ts) && Columns(refs) == OperandColumns(o) && WritableOperand(o)
    ensures GivesWritable(ParseComparison(o, refs, ts))
  {
    if ts[0].kind == Operator {
      OperandWritable(ts[1..]);
    }
  }

  ghost predicate WritableColumns(items: seq<(Column, string)>) {
    forall i :: 0 <= i < |items| ==> WritableColumn(items[i].0)
  }

  lemma ItemWritable(ts: seq<Token>)
    requires Terminated(ts) && AllLexable(ts)
    ensures var r := ParseItem(ts); r.Parsed? ==> WritableColumn(r.value.0) && AllLexable(r.rest)
  {
    ColumnWritable(ts);
  }

  lemma {:induction false} ItemsWritable(items: Items, refs: seq<Ref>, ts: seq<Token>)
    requires Terminated(ts) && AllLexable(ts) && Columns(refs) == ItemColumns(items) && WritableColumns(items)
    ensures var r := ItemsTail(items, refs, ts); r.Parsed? ==> WritableColumns(r.value) && AllLexable(r.rest)
    decreases |ts|
  {
    if At(ts, Punct, ",") {
      ItemWritable(ts[1..]);
      var r := ParseItem(ts[1..]);
      if r.Parsed? {
        ColumnsAppend(refs, r.refs);
        ItemsWritable(items + [r.value], refs + r.refs, r.rest);
      }
    }
  }

  lemma ProjectionWritable(ts: seq<Token>)
    requires Terminated(ts) && AllLexable(ts)
    ensures var r := ParseProjection(ts);
            r.Parsed? ==> AllLexable(r.rest) && (r.value.Some? ==> WritableColumns(r.value.value))
  {
    if !At(ts, Punct, "*") {
      ItemWritable(ts);
      var r := ParseItem(ts);
      if r.Parsed? {
        ItemsWritable([r.value], r.refs, r.rest);
      }
    }
  }

  lemma WhereWritable(ts: seq<Token>)
    requires Terminated(ts) && AllLexable(ts)
    ensures var r := ParseWhere(ts); r.Parsed? && r.value.Some? ==> Writable(r.value.value)
  {
    if At(ts, Keyword, "WHERE") {
      OrWritable(ts[1..]);
    }
  }

  lemma FinishWritable(lower: string -> string, alias: Option<string>, items: Option<Items>, where: Option<Condition>,
                       limit: Option<nat>, itemRefs: seq<Ref>, whereRefs: seq<Ref>)
    requires ItemsMatch(items, itemRefs) && Columns(whereRefs) == ComparedOf(where)
    requires items.Some? ==> WritableColumns(items.value)
    requires where.Some? ==> Writable(where.value)
    ensures items.Some? ==> |items.value| <= |itemRefs + whereRefs|
    ensures var q := Finish(lower, alias, items, where, limit, itemRefs + whereRefs);
            q.Some? ==> WritableQuery(q.value)
  {
    FinishKeepsColumns(lower, alias, items, where, limit, itemRefs, whereRefs);
    if items.Some? {
      ColumnsAppend(itemRefs, whereRefs);
      var columns := Columns(itemRefs + whereRefs);
      assert forall i :: 0 <= i < |items.value| ==> columns[i] == Columns(itemRefs)[i] == items.value[i].0;
    }
  }

  lemma RestWritable(lower: string -> string, items: Option<Items>, refs: seq<Ref>, alias: Option<string>,
                     ts: seq<Token>)
    requires Terminated(ts) && AllLexable(ts) && ItemsMatch(items, refs)
    requires items.Some? ==> WritableColumns(items.value)
    ensures var q := ParseRest(lower, items, refs, alias, ts); q.Some? ==> WritableQuery(q.value)
  {
    WhereWritable(ts);
    var w := ParseWhere(ts);
    if w.Parsed? && ParseLimit(w.rest).Parsed? {
      FinishWritable(lower, alias, items, w.value, ParseLimit(w.rest).value, refs, w.refs);
    }
  }

  lemma FromLeavesLexable(lower: string -> string, ts: seq<Token>)
    requires Terminated(ts) && AllLexable(ts)
    ensures ParseFrom(lower, ts).Parsed? ==> AllLexable(ParseFrom(lower, ts).rest)
  {}

  lemma QueryWritable(lower: string -> string, ts: seq<Token>)
    requires Terminated(ts) && AllLexable(ts)
    ensures ParseQuery(lower, ts).Some? ==> WritableQuery(ParseQuery(lower, ts).value)
  {
    if At(ts, Keyword, "SELECT") && ParseProjection(ts[1..]).Parsed? {
      var p := ParseProjection(ts[1..]);
      ProjectionWritable(ts[1..]);
      FromLeavesLexable(lower, p.rest);
      var f := ParseFrom(lower, p.rest);
      if f.Parsed? {
        RestWritable(lower, p.value, p.refs, f.value, f.rest);
      }
    }
  }

  /** Whatever text a query was parsed from, printing it in any way and parsing again gives it
      back. */
  lemma PrintingUndoesParsing(lower: string -> string, layout: Layout, st: Style, sql: string)
    requires Sensible(lower, st) && Legible(st)
    ensures ParseText(lower, sql).Some? ==>
              var q := ParseText(lower, sql).value;
              WritableQuery(q) && ParseText(lower, Print(layout, st, q)) == Some(q)
  {
    LexTerminates(sql);
    LexIsLexable(sql);
    if Lex(sql).Some? {
      QueryWritable(lower, Lex(sql).value);
    }
    if ParseText(lower, sql).Some? {
      ParsingUndoesPrinting(lower, layout, st, ParseText(lower, sql).value);
    }
  }
}
