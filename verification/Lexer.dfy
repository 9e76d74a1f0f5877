/** Splitting an S3 Select expression into tokens. */
module Lexer {
  import opened Wrappers
  import Decimal

  datatype TokenKind = Keyword | Ident | Quoted | String | Number | Operator | Punct | End

  datatype Token = Token(kind: TokenKind, value: string)

  const EndToken := Token(End, "")

  const KEYWORDS := {
    "SELECT", "FROM", "WHERE", "LIMIT", "AS", "AND", "OR", "NOT",
    "IS", "NULL", "IN", "BETWEEN", "LIKE", "TRUE", "FALSE"}

  // --- Character classes -----------------------------------------------------------------

  /** What `\s` matches in a text pattern. */
  predicate IsSpace(c: char) {
    var n := c as int;
    9 <= n <= 13 || 28 <= n <= 32 || n in {0x85, 0xA0, 0x1680} || 0x2000 <= n <= 0x200A ||
    n in {0x2028, 0x2029, 0x202F, 0x205F, 0x3000}
  }

  predicate IsWordStart(c: char) { 'A' <= c <= 'Z' || 'a' <= c <= 'z' || c == '_' }

  predicate IsWordChar(c: char) { IsWordStart(c) || Decimal.IsDigit(c) }

  function UpperChar(c: char): char {
    if 'a' <= c <= 'z' then c - 'a' + 'A' else c
  }

  function Upper(s: string): string { seq(|s|, i requires 0 <= i < |s| => UpperChar(s[i])) }

  datatype CharClass = Spaces | Digits | WordChars {
    predicate Has(c: char) {
      match this
      case Spaces => IsSpace(c)
      case Digits => Decimal.IsDigit(c)
      case WordChars => IsWordChar(c)
    }
  }

  /** The length of the longest run of characters of a class. */
  function Run(s: string, k: CharClass): (n: nat)
    ensures n <= |s|
  {
    if s != "" && k.Has(s[0]) then 1 + Run(s[1..], k) else 0
  }

  lemma {:induction false} RunIsLongest(s: string, k: CharClass)
    ensures forall i :: 0 <= i < Run(s, k) ==> k.Has(s[i])
    ensures Run(s, k) < |s| ==> !k.Has(s[Run(s, k)])
  {
    if s != "" && k.Has(s[0]) {
      RunIsLongest(s[1..], k);
    }
  }

  // --- One token ---------------------------------------------------------------------------

  /** The length of a quoted body, after the opening quote: a doubled quote belongs to the body,
      a single one ends it. None if it is not closed. (A regular expression would then give back
      its last doubled quote and close there, but what is left starts with a quote that is never
      closed, so the expression is refused all the same.) */
  function BodyLength(s: string, q: char): (n: Option<nat>)
    ensures n.Some? ==> n.value < |s| && s[n.value] == q
  {
    if s == "" then None
    else if s[0] != q then
      (match BodyLength(s[1..], q) case Some(n) => Some(n + 1) case None => None)
    else if |s| > 1 && s[1] == q then
      (match BodyLength(s[2..], q) case Some(n) => Some(n + 2) case None => None)
    else Some(0)
  }

  /** `text.replace(q + q, q)` */
  function Unescape(s: string, q: char): string {
    if s == "" then ""
    else if |s| > 1 && s[0] == q && s[1] == q then [q] + Unescape(s[2..], q)
    else [s[0]] + Unescape(s[1..], q)
  }

  function ExponentLength(s: string): (n: nat)
    ensures n <= |s|
  {
    if s == "" || s[0] !in {'e', 'E'} then 0
    else
      var sign := if |s| > 1 && s[1] in {'-', '+'} then 1 else 0;
      var digits := Run(s[1 + sign..], Digits);
      if digits > 0 then 1 + sign + digits else 0
  }

  function FractionLength(s: string): (n: nat)
    ensures n <= |s|
  {
    if s != "" && s[0] == '.' then 1 + Run(s[1..], Digits) else 0
  }

  /** Digits may be missing before the point or after it, but not both. */
  function UnsignedLength(s: string): (n: nat)
    ensures n <= |s|
  {
    var whole := Run(s, Digits);
    var fraction := FractionLength(s[whole..]);
    if whole > 0 || fraction > 1 then whole + fraction + ExponentLength(s[whole + fraction..]) else 0
  }

  /** The length of the numeral at the start, 0 if there is none. */
  function NumberLength(s: string): (n: nat)
    ensures n <= |s|
  {
    if s != "" && s[0] == '-' then
      var n := UnsignedLength(s[1..]);
      if n > 0 then 1 + n else 0
    else UnsignedLength(s)
  }

  function WordLength(s: string): (n: nat)
    ensures n <= |s|
  {
    if s != "" && IsWordStart(s[0]) then 1 + Run(s[1..], WordChars) else 0
  }

  function OperatorLength(s: string): (n: nat)
    ensures n <= |s|
  {
    if |s| > 1 && s[..2] in {"<=", ">=", "<>", "!="} then 2
    else if s != "" && s[0] in {'=', '<', '>'} then 1
    else 0
  }

  function WordToken(word: string): Token {
    if Upper(word) in KEYWORDS then Token(Keyword, Upper(word)) else Token(Ident, word)
  }

  datatype Lexeme = Blank(length: nat) | Lexed(token: Token, length: nat) | Bad

  function QuotedLexeme(s: string, kind: TokenKind): Lexeme
    requires s != ""
  {
    match BodyLength(s[1..], s[0])
    case None => Bad
    case Some(n) => Lexed(Token(kind, Unescape(s[1..1 + n], s[0])), n + 2)
  }

  /** The first alternative that matches at the start of a text that is not empty. */
  function Next(s: string): (r: Lexeme)
    requires s != ""
    ensures r != Bad ==> 0 < r.length <= |s|
  {
    if IsSpace(s[0]) then Blank(Run(s, Spaces))
    else if s[0] == '\'' then QuotedLexeme(s, String)
    else if s[0] == '"' then QuotedLexeme(s, Quoted)
    else if NumberLength(s) > 0 then Lexed(Token(Number, s[..NumberLength(s)]), NumberLength(s))
    else if WordLength(s) > 0 then Lexed(WordToken(s[..WordLength(s)]), WordLength(s))
    else if OperatorLength(s) > 0 then Lexed(Token(Operator, s[..OperatorLength(s)]), OperatorLength(s))
    else if s[0] in {'(', ')', ',', '.', '*', ';', '[', ']'} then Lexed(Token(Punct, s[..1]), 1)
    else Bad
  }

  // --- The whole text --------------------------------------------------------------------------

  function Prepend(tokens: seq<Token>, rest: Option<seq<Token>>): Option<seq<Token>> {
    match rest case Some(ts) => Some(tokens + ts) case None => None
  }

  /** The tokens of a text, ended by the end token; None if a character fits no token. */
  function Lex(s: string): Option<seq<Token>>
    decreases |s|
  {
    if s == "" then Some([EndToken])
    else
      match Next(s)
      case Bad => None
      case Blank(n) => Lex(s[n..])
      case Lexed(t, n) => Prepend([t], Lex(s[n..]))
  }

  /** Token lists end with the one end token. */
  predicate Terminated(ts: seq<Token>) {
    ts != [] && ts[|ts| - 1].kind == End && ts[|ts| - 1].value == "" &&
    forall i :: 0 <= i < |ts| - 1 ==> ts[i].kind != End
  }

  lemma {:induction false} LexTerminates(s: string)
    ensures Lex(s).Some? ==> Terminated(Lex(s).value)
    decreases |s|
  {
    if s != "" && Next(s) != Bad {
      LexTerminates(s[Next(s).length..]);
    }
  }

  lemma LexStep(tokens: seq<Token>, s: string, lexeme: Lexeme)
    requires s != "" && lexeme == Next(s)
    ensures lexeme.Bad? ==> Lex(s) == None
    ensures lexeme.Blank? ==> Prepend(tokens, Lex(s)) == Prepend(tokens, Lex(s[lexeme.length..]))
    ensures lexeme.Lexed? ==>
              Prepend(tokens, Lex(s)) == Prepend(tokens + [lexeme.token], Lex(s[lexeme.length..]))
  {
    if lexeme.Lexed? {
      var rest := Lex(s[lexeme.length..]);
      if rest.Some? {
        assert tokens + ([lexeme.token] + rest.value) == (tokens + [lexeme.token]) + rest.value;
      }
    }
  }

  method Tokenize(sql: string) returns (r: Option<seq<Token>>)
    ensures r == Lex(sql)
    ensures r.Some? ==> Terminated(r.value)
  {
    var tokens: seq<Token> := [];
    var position := 0;
    assert sql[0..] == sql && Prepend([], Lex(sql)) == Lex(sql) by {
      assert Lex(sql).Some? ==> [] + Lex(sql).value == Lex(sql).value;
    }
    while position < |sql|
      invariant 0 <= position <= |sql|
      invariant Lex(sql) == Prepend(tokens, Lex(sql[position..]))
    {
      ghost var s := sql[position..];
      var lexeme := Next(sql[position..]);
      LexStep(tokens, s, lexeme);
      if lexeme == Bad {
        return None;
      }
      position := position + lexeme.length;
      assert s[lexeme.length..] == sql[position..];
      if lexeme.Lexed? {
        tokens := tokens + [lexeme.token];
      }
    }
    LexTerminates(sql);
    return Some(tokens + [EndToken]);
  }
}
