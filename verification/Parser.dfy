/** The recursive-descent parser: an object with a position, the table alias and the column
    references met so far, whose methods move on by exactly what the grammar reads. */
module Parser {
  import opened Wrappers
  import opened Sql
  import opened Lexer
  import G = Grammar
  import RoundTrip
  import Decimal

  class QueryParser {
    const lower: string -> string
    const tokens: seq<Token>
    var index: nat
    var alias: Option<string>
    // Column references seen before the FROM alias is known are fixed up later.
    var pendingRefs: seq<G.Ref>

    constructor (lower: string -> string, tokens: seq<Token>)
      requires Terminated(tokens)
      ensures this.lower == lower && this.tokens == tokens && Valid() && Left() == tokens
      ensures alias == None && pendingRefs == []
    {
      this.lower := lower;
      this.tokens := tokens;
      index := 0;
      alias := None;
      pendingRefs := [];
    }

    /** There is always a current token. */
    ghost predicate Valid()
      reads this
    {
      Terminated(tokens) && index < |tokens|
    }

    /** The tokens from the current one on. */
    ghost function Left(): (r: seq<Token>)
      requires Valid()
      reads this
      ensures Terminated(r) && |r| == |tokens| - index
    {
      tokens[index..]
    }

    /** A method returned what the grammar parses, and the parser stands where the grammar stops,
        with the references met on the way added to those known before. None is the error, after
        which the parser is given up. */
    ghost predicate Reads<T>(r: Option<T>, p: G.Parsed<T>, known: seq<G.Ref>)
      reads this
    {
      match p
      case Failed => r == None
      case Parsed(value, rest, refs) => r == Some(value) && Stands(rest, known + refs)
    }

    ghost predicate Stands(rest: seq<Token>, refs: seq<G.Ref>)
      reads this
    {
      Valid() && Left() == rest && pendingRefs == refs
    }

    method Accept(kind: TokenKind, value: string) returns (taken: bool)
      requires Valid() && kind != End
      modifies this`index
      ensures Valid() && taken == G.At(old(Left()), kind, value)
      ensures Left() == if taken then old(Left())[1..] else old(Left())
      ensures index == old(index) + if taken then 1 else 0
    {
      taken := tokens[index] == Token(kind, value);
      if taken {
        index := index + 1;
      }
    }

    /** The text of the current token, which is taken if it is of this kind. */
    method TakeKind(kind: TokenKind) returns (value: Option<string>)
      requires Valid() && kind != End
      modifies this`index
      ensures Valid() && (value.Some? <==> old(Left())[0].kind == kind)
      ensures value.Some? ==> value.value == old(Left())[0].value
      ensures Left() == if value.Some? then old(Left())[1..] else old(Left())
      ensures index == old(index) + if value.Some? then 1 else 0
    {
      if tokens[index].kind != kind {
        return None;
      }
      value := Some(tokens[index].value);
      index := index + 1;
    }

    /** `accept("ident") or accept("quoted")` */
    method AcceptName() returns (token: Option<Token>)
      requires Valid()
      modifies this`index
      ensures Valid() && (token.Some? <==> G.AtName(old(Left())))
      ensures token.Some? ==> token.value == old(Left())[0]
      ensures Left() == if token.Some? then old(Left())[1..] else old(Left())
      ensures index == old(index) + if token.Some? then 1 else 0
    {
      if tokens[index].kind !in {Ident, Quoted} {
        return None;
      }
      token := Some(tokens[index]);
      index := index + 1;
    }

    method ParseLiteral() returns (r: Option<Value>)
      requires Valid()
      modifies this`index
      ensures Reads(r, G.ParseLiteral(old(Left())), old(pendingRefs))
      ensures r.Some? ==> index > old(index)
    {
      r := G.LiteralOf(tokens[index]);
      index := index + 1;
    }

    method ParseColumnRef() returns (r: Option<Column>)
      requires Valid()
      modifies this`index, this`pendingRefs
      ensures Reads(r, G.ParseColumnRef(old(Left())), old(pendingRefs))
    {
      var token := AcceptName();
      if token.None? {
        return None;
      }
      var dotted := Accept(Punct, ".");
      if dotted {
        r := ParseQualified(token.value.value);
        return;
      }
      var column := Column(token.value.value, token.value.kind == Quoted);
      pendingRefs := pendingRefs + [(None, column)];
      return Some(column);
    }

    /** The name after a prefix and a dot. */
    method ParseQualified(prefix: string) returns (r: Option<Column>)
      requires Valid()
      modifies this`index, this`pendingRefs
      ensures r.Some? <==> G.AtName(old(Left()))
      ensures r.Some? ==> r.value == Column(old(Left())[0].value, old(Left())[0].kind == Quoted)
      ensures r.Some? ==> Stands(old(Left())[1..], old(pendingRefs) + [(Some(prefix), r.value)])
    {
      var star := Accept(Punct, "*");
      if star {
        return None;
      }
      var token := AcceptName();
      if token.None? {
        return None;
      }
      var column := Column(token.value.value, token.value.kind == Quoted);
      pendingRefs := pendingRefs + [(Some(prefix), column)];
      return Some(column);
    }

    method ParseOperand() returns (r: Option<Operand>)
      requires Valid()
      modifies this`index, this`pendingRefs
      ensures Reads(r, G.ParseOperand(old(Left())), old(pendingRefs))
    {
      if tokens[index].kind in {Ident, Quoted} {
        assert tokens[index + 1] == Left()[1];
        if tokens[index + 1].value == "(" {
          return None;
        }
        var column := ParseColumnRef();
        return if column.None? then None else Some(Col(column.value));
      }
      var value := ParseLiteral();
      return if value.None? then None else Some(Lit(value.value));
    }

    method ParseOr() returns (r: Option<Condition>)
      requires Valid()
      modifies this`index, this`pendingRefs
      ensures Reads(r, G.ParseOr(old(Left())), old(pendingRefs))
      decreases |tokens| - index, 4
    {
      ghost var known, goal := pendingRefs, G.ParseOr(Left());
      ghost var parsedLeft := G.ParseAnd(Left());
      var left := ParseAnd();
      if left.None? {
        return None;
      }
      ghost var refs := parsedLeft.refs;
      var condition := left.value;
      while true
        invariant Valid() && index > old(index)
        invariant pendingRefs == known + refs && G.Columns(refs) == ColumnsOf(condition)
        invariant goal == G.OrTail(condition, refs, Left())
        decreases |tokens| - index
      {
        ghost var ts := Left();
        var more := Accept(Keyword, "OR");
        if !more {
          return Some(condition);
        }
        ghost var parsed := G.ParseAnd(ts[1..]);
        G.OrStep(condition, refs, ts);
        var right := ParseAnd();
        if right.None? {
          return None;
        }
        Append(known, refs, parsed.refs);
        refs := refs + parsed.refs;
        condition := BoolOp(Or, condition, right.value);
      }
    }

    method ParseAnd() returns (r: Option<Condition>)
      requires Valid()
      modifies this`index, this`pendingRefs
      ensures Reads(r, G.ParseAnd(old(Left())), old(pendingRefs))
      decreases |tokens| - index, 3
    {
      ghost var known, goal := pendingRefs, G.ParseAnd(Left());
      ghost var parsedLeft := G.ParseNot(Left());
      var left := ParseNot();
      if left.None? {
        return None;
      }
      ghost var refs := parsedLeft.refs;
      var condition := left.value;
      while true
        invariant Valid() && index > old(index)
        invariant pendingRefs == known + refs && G.Columns(refs) == ColumnsOf(condition)
        invariant goal == G.AndTail(condition, refs, Left())
        decreases |tokens| - index
      {
        ghost var ts := Left();
        var more := Accept(Keyword, "AND");
        if !more {
          return Some(condition);
        }
        ghost var parsed := G.ParseNot(ts[1..]);
        G.AndStep(condition, refs, ts);
        var right := ParseNot();
        if right.None? {
          return None;
        }
        Append(known, refs, parsed.refs);
        refs := refs + parsed.refs;
        condition := BoolOp(And, condition, right.value);
      }
    }

    method ParseNot() returns (r: Option<Condition>)
      requires Valid()
      modifies this`index, this`pendingRefs
      ensures Reads(r, G.ParseNot(old(Left())), old(pendingRefs))
      decreases |tokens| - index, 2
    {
      var negated := Accept(Keyword, "NOT");
      if negated {
        var inner := ParseNot();
        return if inner.None? then None else Some(Not(inner.value));
      }
      r := ParsePredicate();
    }

    method ParsePredicate() returns (r: Option<Condition>)
      requires Valid()
      modifies this`index, this`pendingRefs
      ensures Reads(r, G.ParsePredicate(old(Left())), old(pendingRefs))
      decreases |tokens| - index, 1
    {
      var parenthesis := Accept(Punct, "(");
      if parenthesis {
        r := ParseOr();
        if r.Some? {
          var closed := Accept(Punct, ")");
          if !closed {
            return None;
          }
        }
        return;
      }
      ghost var known, ts := pendingRefs, Left();
      var operand := ParseOperand();
      if operand.None? {
        return None;
      }
      r := ParseTest(operand.value, known, G.ParseOperand(ts).refs);
    }

    /** `refs` are the references of the operand, already recorded. */
    method ParseTest(operand: Operand, ghost known: seq<G.Ref>, ghost refs: seq<G.Ref>) returns (r: Option<Condition>)
      requires Valid() && G.Columns(refs) == OperandColumns(operand)
      requires pendingRefs == known + refs
      modifies this`index, this`pendingRefs
      ensures Reads(r, G.ParseTest(operand, refs, old(Left())), known)
    {
      var isTest := Accept(Keyword, "IS");
      if isTest {
        r := ParseNullTest(operand, known, refs);
        return;
      }
      var negated := Accept(Keyword, "NOT");
      r := ParseWordTest(operand, known, refs, negated);
    }

    method ParseNullTest(operand: Operand, ghost known: seq<G.Ref>, ghost refs: seq<G.Ref>)
      returns (r: Option<Condition>)
      requires Valid() && G.Columns(refs) == OperandColumns(operand)
      requires pendingRefs == known + refs
      modifies this`index
      ensures Reads(r, G.ParseNullTest(operand, refs, old(Left())), known)
    {
      var negated := Accept(Keyword, "NOT");
      var isNull := Accept(Keyword, "NULL");
      return if isNull then Some(IsNull(operand, negated)) else None;
    }

    method ParseWordTest(operand: Operand, ghost known: seq<G.Ref>, ghost refs: seq<G.Ref>, negated: bool)
      returns (r: Option<Condition>)
      requires Valid() && G.Columns(refs) == OperandColumns(operand)
      requires pendingRefs == known + refs
      modifies this`index, this`pendingRefs
      ensures Reads(r, G.ParseWordTest(operand, refs, negated, old(Left())), known)
    {
      var isIn := Accept(Keyword, "IN");
      if isIn {
        r := ParseInList(operand, known, refs, negated);
        return;
      }
      var isBetween := Accept(Keyword, "BETWEEN");
      if isBetween {
        r := ParseBetween(operand, known, refs, negated);
        return;
      }
      var isLike := Accept(Keyword, "LIKE");
      if isLike {
        var pattern := TakeKind(String);
        return if pattern.None? then None else Some(Like(operand, pattern.value, negated));
      }
      if negated {
        return None;
      }
      r := ParseComparison(operand, known, refs);
    }

    method ParseInList(operand: Operand, ghost known: seq<G.Ref>, ghost refs: seq<G.Ref>, negated: bool)
      returns (r: Option<Condition>)
      requires Valid() && G.Columns(refs) == OperandColumns(operand)
      requires pendingRefs == known + refs
      modifies this`index
      ensures Reads(r, G.ParseInList(operand, refs, negated, old(Left())), known)
    {
      var open := Accept(Punct, "(");
      if !open {
        return None;
      }
      var first := ParseLiteral();
      if first.None? {
        return None;
      }
      ghost var rest := Left();
      var values := ParseMembers(first.value);
      assert Reads(values, G.MembersTail([first.value], rest), pendingRefs);
      if values.None? {
        return None;
      }
      var closed := Accept(Punct, ")");
      return if closed then Some(InList(operand, values.value, negated)) else None;
    }

    method ParseMembers(first: Value) returns (r: Option<Members>)
      requires Valid()
      modifies this`index
      ensures Reads(r, G.MembersTail([first], old(Left())), pendingRefs)
    {
      var values: Members := [first];
      ghost var goal := G.MembersTail(values, Left());
      while true
        invariant Valid() && goal == G.MembersTail(values, Left())
        decreases |tokens| - index
      {
        ghost var ts := Left();
        var comma := Accept(Punct, ",");
        if !comma {
          return Some(values);
        }
        var value := ParseLiteral();
        if value.None? {
          return None;
        }
        values := G.WithMember(values, value.value);
      }
    }

    method ParseBetween(operand: Operand, ghost known: seq<G.Ref>, ghost refs: seq<G.Ref>, negated: bool)
      returns (r: Option<Condition>)
      requires Valid() && G.Columns(refs) == OperandColumns(operand)
      requires pendingRefs == known + refs
      modifies this`index, this`pendingRefs
      ensures Reads(r, G.ParseBetween(operand, refs, negated, old(Left())), known)
    {
      ghost var parsedLow := G.ParseOperand(Left());
      var low := ParseOperand();
      if low.None? {
        return None;
      }
      var separated := Accept(Keyword, "AND");
      if !separated {
        return None;
      }
      ghost var parsedHigh := G.ParseOperand(Left());
      var high := ParseOperand();
      if high.None? {
        return None;
      }
      AppendTwice(known, refs, parsedLow.refs, parsedHigh.refs);
      return Some(Between(operand, low.value, high.value, negated));
    }

    static lemma Append(a: seq<G.Ref>, b: seq<G.Ref>, c: seq<G.Ref>)
      ensures (a + b) + c == a + (b + c)
    {}

    static lemma AppendTwice(a: seq<G.Ref>, b: seq<G.Ref>, c: seq<G.Ref>, d: seq<G.Ref>)
      ensures ((a + b) + c) + d == a + (b + c + d)
    {}

    method ParseComparison(operand: Operand, ghost known: seq<G.Ref>, ghost refs: seq<G.Ref>)
      returns (r: Option<Condition>)
      requires Valid() && G.Columns(refs) == OperandColumns(operand)
      requires pendingRefs == known + refs
      modifies this`index, this`pendingRefs
      ensures Reads(r, G.ParseComparison(operand, refs, old(Left())), known)
    {
      ghost var ts := Left();
      var op := if tokens[index].kind == Operator then G.OperatorOf(tokens[index].value) else None;
      assert tokens[index] == ts[0];
      if op.None? {
        return None;
      }
      index := index + 1;
      assert Left() == ts[1..];
      var right := ParseOperand();
      if right.None? {
        return None;
      }
      Append(known, refs, G.ParseOperand(ts[1..]).refs);
      return Some(Comparison(op.value, operand, right.value));
    }

    method ParseItem() returns (r: Option<(Column, string)>)
      requires Valid()
      modifies this`index, this`pendingRefs
      ensures Reads(r, G.ParseItem(old(Left())), old(pendingRefs))
    {
      if tokens[index].kind == Ident {
        assert tokens[index + 1] == Left()[1];
        if tokens[index + 1].value == "(" {
          return None;
        }
      }
      var column := ParseColumnRef();
      if column.None? {
        return None;
      }
      var name := ParseOutputName(column.value);
      return if name.None? then None else Some((column.value, name.value));
    }

    method ParseOutputName(column: Column) returns (r: Option<string>)
      requires Valid()
      modifies this`index
      ensures Reads(r, G.ParseOutputName(column, old(Left())), pendingRefs)
    {
      var named := Accept(Keyword, "AS");
      if named || tokens[index].kind in {Ident, Quoted} {
        var name := AcceptName();
        return if name.None? then None else Some(name.value.value);
      }
      return Some(column.name);
    }

    method ParseItems() returns (r: Option<G.Items>)
      requires Valid()
      modifies this`index, this`pendingRefs
      ensures Reads(r, G.ParseItems(old(Left())), old(pendingRefs))
    {
      ghost var known, goal := pendingRefs, G.ParseItems(Left());
      ghost var parsedFirst := G.ParseItem(Left());
      var first := ParseItem();
      if first.None? {
        return None;
      }
      ghost var refs := parsedFirst.refs;
      var items: G.Items := [first.value];
      while true
        invariant Valid() && pendingRefs == known + refs && G.Columns(refs) == G.ItemColumns(items)
        invariant goal == G.ItemsTail(items, refs, Left())
        decreases |tokens| - index
      {
        ghost var ts := Left();
        var comma := Accept(Punct, ",");
        if !comma {
          return Some(items);
        }
        ghost var parsed := G.ParseItem(ts[1..]);
        G.ItemStep(items, refs, ts);
        var item := ParseItem();
        if item.None? {
          return None;
        }
        Append(known, refs, parsed.refs);
        refs := refs + parsed.refs;
        items := G.WithItem(items, item.value);
      }
    }

    method ParseProjection() returns (r: Option<Option<G.Items>>)
      requires Valid()
      modifies this`index, this`pendingRefs
      ensures Reads(r, G.ParseProjection(old(Left())), old(pendingRefs))
    {
      var star := Accept(Punct, "*");
      if star {
        return Some(None);
      }
      var items := ParseItems();
      return if items.None? then None else Some(items);
    }

    /** FROM and the alias, which is kept; false is the error. */
    method ParseFrom() returns (ok: bool)
      requires Valid() && alias == None
      modifies this`index, this`alias
      ensures var p := G.ParseFrom(lower, old(Left()));
              ok == p.Parsed? && (ok ==> Stands(p.rest, pendingRefs) && alias == p.value)
    {
      ghost var ts := Left();
      var from := Accept(Keyword, "FROM");
      if !from {
        return false;
      }
      G.FromStep(lower, ts);
      var source := AcceptName();
      if source.None? || lower(source.value.value) != "s3object" {
        return false;
      }
      assert Left() == ts[2..];
      var path := Accept(Punct, "[");
      if path {
        return false;
      }
      ok := ParseAlias();
    }

    method ParseAlias() returns (ok: bool)
      requires Valid() && alias == None
      modifies this`index, this`alias
      ensures var p := G.ParseAlias(old(Left()));
              ok == p.Parsed? && (ok ==> Stands(p.rest, pendingRefs) && alias == p.value)
    {
      var named := Accept(Keyword, "AS");
      alias := TakeKind(Ident);
      return !(named && alias.None?);
    }

    method ParseWhere() returns (r: Option<Option<Condition>>)
      requires Valid()
      modifies this`index, this`pendingRefs
      ensures Reads(r, G.ParseWhere(old(Left())), old(pendingRefs))
    {
      var present := Accept(Keyword, "WHERE");
      if !present {
        return Some(None);
      }
      var condition := ParseOr();
      return if condition.None? then None else Some(condition);
    }

    method ParseLimit() returns (r: Option<Option<nat>>)
      requires Valid()
      modifies this`index
      ensures Reads(r, G.ParseLimit(old(Left())), pendingRefs)
    {
      var present := Accept(Keyword, "LIMIT");
      if !present {
        return Some(None);
      }
      var limit := TakeKind(Number);
      if limit.None? || limit.value == "" || !Decimal.AllDigits(limit.value) {
        return None;
      }
      return Some(Some(Decimal.Read(limit.value)));
    }

    /** The prefixes are checked once the alias is known; the columns are paired with the output
        names of the column list, whose references were recorded first. */
    method ResolveRefs() returns (r: Option<seq<Column>>)
      ensures r.None? <==> exists x :: x in pendingRefs && !G.PrefixKnown(lower, alias, x.0)
      ensures r.Some? ==> r.value == G.Columns(pendingRefs)
    {
      var columns: seq<Column> := [];
      for k := 0 to |pendingRefs|
        invariant columns == G.Columns(pendingRefs[..k])
        invariant forall i :: 0 <= i < k ==> G.PrefixKnown(lower, alias, pendingRefs[i].0)
      {
        if !G.PrefixKnown(lower, alias, pendingRefs[k].0) {
          assert pendingRefs[k] in pendingRefs;
          return None;
        }
        columns := columns + [pendingRefs[k].1];
      }
      return Some(columns);
    }

    /** The whole query; None is the error. */
    method Parse() returns (r: Option<Query>)
      requires Valid() && alias == None && pendingRefs == []
      modifies this`index, this`alias, this`pendingRefs
      ensures r == G.ParseQuery(lower, old(Left()))
    {
      ghost var ts := Left();
      var select := Accept(Keyword, "SELECT");
      if !select {
        return None;
      }
      G.QueryStep(lower, ts);
      ghost var parsedItems := G.ParseProjection(Left());
      var items := ParseProjection();
      if items.None? {
        return None;
      }
      r := ParseTail(items.value, parsedItems.refs);
    }

    method ParseTail(items: Option<G.Items>, ghost itemRefs: seq<G.Ref>) returns (r: Option<Query>)
      requires Valid() && alias == None && pendingRefs == itemRefs && G.ItemsMatch(items, itemRefs)
      modifies this`index, this`alias, this`pendingRefs
      ensures r == G.ParseTail(lower, items, itemRefs, old(Left()))
    {
      var from := ParseFrom();
      if !from {
        return None;
      }
      r := ParseRest(items, itemRefs);
    }

    method ParseRest(items: Option<G.Items>, ghost itemRefs: seq<G.Ref>) returns (r: Option<Query>)
      requires Valid() && pendingRefs == itemRefs && G.ItemsMatch(items, itemRefs)
      modifies this`index, this`pendingRefs
      ensures r == G.ParseRest(lower, items, itemRefs, alias, old(Left()))
    {
      ghost var parsedWhere := G.ParseWhere(Left());
      var where := ParseWhere();
      if where.None? {
        return None;
      }
      var limit := ParseLimit();
      if limit.None? {
        return None;
      }
      var ended := AtEnd();
      if !ended {
        return None;
      }
      assert items.Some? ==> |G.Columns(itemRefs)| == |items.value|;
      r := Finish(items, where.value, limit.value);
    }

    method AtEnd() returns (ended: bool)
      requires Valid()
      modifies this`index
      ensures ended == G.AtEnd(old(Left()))
    {
      var semicolon := Accept(Punct, ";");
      return tokens[index].kind == End;
    }

    method Finish(items: Option<G.Items>, where: Option<Condition>, limit: Option<nat>) returns (r: Option<Query>)
      requires items.Some? ==> |items.value| <= |pendingRefs|
      ensures r == G.Finish(lower, alias, items, where, limit, pendingRefs)
    {
      var columns := ResolveRefs();
      if columns.None? {
        return None;
      }
      return Some(Query(if items.None? then None else Some(G.Paired(items.value, columns.value)),
                        where, limit, columns.value));
    }
  }

  /** `parse(sql)`: tokenizing and parsing a text; None is the error. */
  method Parse(lower: string -> string, sql: string) returns (r: Option<Query>)
    ensures r == RoundTrip.ParseText(lower, sql)
  {
    var tokens := Tokenize(sql);
    if tokens.None? {
      return None;
    }
    var parser := new QueryParser(lower, tokens.value);
    r := parser.Parse();
  }
}
