/** What texts stand for tokens, and that the tokenizer cuts a text into the longest of these. */
module Lexical {
  import opened Wrappers
  import opened Lexer
  import Decimal

  // --- Texts of tokens --------------------------------------------------------------------------

  predicate IsWord(s: string) {
    s != "" && IsWordStart(s[0]) && forall i :: 0 <= i < |s| ==> IsWordChar(s[i])
  }

  /** The reserved words of the language. */
  const RESERVED := {
    "SELECT", "FROM", "WHERE", "AND", "OR", "NOT", "IN", "BETWEEN", "LIKE", "IS", "NULL", "TRUE", "FALSE", "AS",
    "LIMIT"}

  predicate IsIdentifier(s: string) { IsWord(s) && Upper(s) !in RESERVED }

  predicate SomeDigits(s: string) { s != "" && Decimal.AllDigits(s) }

  predicate IsFraction(s: string) { s == "" || (s[0] == '.' && Decimal.AllDigits(s[1..])) }

  predicate IsExponent(s: string) {
    s == "" || (s[0] in {'e', 'E'} && (SomeDigits(s[1..]) || (|s| > 1 && s[1] in {'-', '+'} && SomeDigits(s[2..]))))
  }

  /** Digits up to `i`, a fraction up to `j` and an exponent; the digits may be missing before the
      point or after it, but not both. */
  predicate HasParts(s: string, i: nat, j: nat) {
    i <= j <= |s| && Decimal.AllDigits(s[..i]) && IsFraction(s[i..j]) && IsExponent(s[j..]) && (i > 0 || j - i > 1)
  }

  ghost predicate IsUnsigned(s: string) { exists i, j :: HasParts(s, i, j) }

  ghost predicate IsNumeral(s: string) { s != "" && IsUnsigned(if s[0] == '-' then s[1..] else s) }

  /** A quoted body, with every quote doubled. */
  function Escape(s: string, q: char): string {
    if s == "" then "" else (if s[0] == q then [q, q] else [s[0]]) + Escape(s[1..], q)
  }

  const OPERATORS := {"<=", ">=", "<>", "!=", "=", "<", ">"}

  const MARKS := {"(", ")", ",", ".", "*", ";", "[", "]"}

  /** Keywords may be written in any case. */
  ghost predicate Writes(text: string, t: Token) {
    match t.kind
    case Keyword => IsWord(text) && Upper(text) == t.value && t.value in RESERVED
    case Ident => IsIdentifier(text) && text == t.value
    case Quoted => text == "\"" + (Escape(t.value, '"') + "\"")
    case String => text == "'" + (Escape(t.value, '\'') + "'")
    case Number => IsNumeral(text) && text == t.value
    case Operator => text in OPERATORS && text == t.value
    case Punct => text in MARKS && text == t.value
    case End => false
  }

  ghost predicate WritesOne(text: string) { exists t :: Writes(text, t) }

  /** The first `n` characters stand for a token, and no more of the text does. */
  ghost predicate Longest(s: string, n: nat) {
    n <= |s| && WritesOne(s[..n]) && forall m :: n < m <= |s| ==> !WritesOne(s[..m])
  }

  predicate Blanks(s: string) { forall i :: 0 <= i < |s| ==> IsSpace(s[i]) }

  /** The text is cut into these tokens: each the longest there is where it starts, with nothing
      but white space between them, and the end token for the end of the text. */
  ghost predicate Laid(s: string, ts: seq<Token>)
    decreases |ts|, 1
  {
    if |ts| < 2 then ts == [EndToken] && Blanks(s)
    else exists b: nat :: b <= |s| && Blanks(s[..b]) && LaidFrom(s[b..], ts)
  }

  ghost predicate LaidFrom(s: string, ts: seq<Token>)
    requires ts != []
    decreases |ts|, 0
  {
    exists n: nat :: Longest(s, n) && Writes(s[..n], ts[0]) && Laid(s[n..], ts[1..])
  }

  // --- Numerals -----------------------------------------------------------------------------------

  lemma {:induction false} RunCovers(s: string, n: nat, k: CharClass)
    requires n <= |s| && forall i :: 0 <= i < n ==> k.Has(s[i])
    ensures Run(s, k) >= n && (n < |s| && !k.Has(s[n]) ==> Run(s, k) == n)
  {
    if n > 0 {
      assert forall i :: 0 <= i < n - 1 ==> s[1..][i] == s[i + 1];
      assert n < |s| ==> s[1..][n - 1] == s[n];
      RunCovers(s[1..], n - 1, k);
    } else if s != "" && !k.Has(s[0]) {
      assert Run(s, k) == 0;
    }
  }

  lemma DigitsCovered(s: string, from: nat, to: nat)
    requires from <= to <= |s| && Decimal.AllDigits(s[from..to])
    ensures Run(s[from..], Digits) >= to - from
    ensures to < |s| && !Decimal.IsDigit(s[to]) ==> Run(s[from..], Digits) == to - from
  {
    assert forall i :: 0 <= i < to - from ==> s[from..][i] == s[from..to][i];
    assert to < |s| ==> s[from..][to - from] == s[to];
    RunCovers(s[from..], to - from, Digits);
  }

  /** A fraction ends where the digits do. */
  lemma FractionCovered(s: string, i: nat, j: nat)
    requires i <= j <= |s| && IsFraction(s[i..j]) && (j < |s| ==> j > i || s[j] != '.')
    ensures FractionLength(s[i..]) >= j - i
    ensures j < |s| && !Decimal.IsDigit(s[j]) && s[j] != '.' ==> FractionLength(s[i..]) == j - i
  {
    if j > i {
      assert s[i..j][1..] == s[i + 1..j] && s[i..][1..] == s[i + 1..] && s[i..][0] == s[i..j][0];
      DigitsCovered(s, i + 1, j);
    }
  }

  lemma ExponentCovered(s: string, j: nat, m: nat)
    requires j <= m <= |s| && IsExponent(s[j..m])
    ensures ExponentLength(s[j..]) >= m - j
  {
    var e := s[j..m];
    if e != "" {
      assert s[j..][0] == e[0] && (|e| > 1 ==> s[j..][1] == e[1]);
      var sign := if |e| > 1 && e[1] in {'-', '+'} then 1 else 0;
      assert |e| > 1;
      assert e[1 + sign..] == s[j + 1 + sign..m] && s[j..][1 + sign..] == s[j + 1 + sign..];
      DigitsCovered(s, j + 1 + sign, m);
    }
  }

  lemma UnsignedIs(s: string, whole: nat, fraction: nat, exponent: nat)
    requires Run(s, Digits) == whole && FractionLength(s[whole..]) == fraction
    requires ExponentLength(s[whole + fraction..]) == exponent
    ensures UnsignedLength(s) == if whole > 0 || fraction > 1 then whole + fraction + exponent else 0
  {}

  lemma WholeThenExponent(s: string, i: nat, j: nat, m: nat)
    requires i <= j < m <= |s| && Run(s, Digits) == i && IsFraction(s[i..j]) && IsExponent(s[j..m])
    requires i > 0 || j - i > 1
    ensures UnsignedLength(s) >= m
  {
    assert s[j] == s[j..m][0];
    FractionCovered(s, i, j);
    ExponentCovered(s, j, m);
    UnsignedIs(s, i, j - i, ExponentLength(s[j..]));
  }

  lemma WholeThenFraction(s: string, i: nat, j: nat)
    requires i < j <= |s| && Run(s, Digits) == i && IsFraction(s[i..j]) && (i > 0 || j - i > 1)
    ensures UnsignedLength(s) >= j
  {
    PartFraction(s, i, j);
    var fraction := FractionLength(s[i..]);
    UnsignedIs(s, i, fraction, ExponentLength(s[i + fraction..]));
  }

  lemma WholeEnds(s: string, i: nat, j: nat, m: nat)
    requires i <= j <= m <= |s| && i < m && Decimal.AllDigits(s[..i]) && IsFraction(s[i..j]) && IsExponent(s[j..m])
    ensures Run(s, Digits) == i
  {
    assert s[0..i] == s[..i] && s[0..] == s;
    assert s[i] == (if j > i then s[i..j][0] else s[j..m][0]);
    DigitsCovered(s, 0, i);
  }

  /** No numeral at the start of the text is longer than the one that is read. */
  lemma UnsignedCovered(s: string, m: nat)
    requires m <= |s| && IsUnsigned(s[..m])
    ensures UnsignedLength(s) >= m
  {
    var t := s[..m];
    var i: nat, j: nat :| HasParts(t, i, j);
    assert t[..i] == s[..i] && t[i..j] == s[i..j] && t[j..] == s[j..m];
    if m > j {
      WholeEnds(s, i, j, m);
      WholeThenExponent(s, i, j, m);
    } else if j > i {
      WholeEnds(s, i, j, m);
      WholeThenFraction(s, i, j);
    } else {
      assert s[0..i] == s[..i] && s[0..] == s;
      DigitsCovered(s, 0, i);
      UnsignedAtLeastWhole(s);
    }
  }

  lemma UnsignedAtLeastWhole(s: string)
    ensures UnsignedLength(s) >= Run(s, Digits)
  {}

  lemma PartFraction(s: string, i: nat, j: nat)
    requires i < j <= |s| && IsFraction(s[i..j])
    ensures FractionLength(s[i..]) >= j - i
  {
    assert s[i..j][1..] == s[i + 1..j] && s[i..][1..] == s[i + 1..] && s[i..][0] == s[i..j][0];
    DigitsCovered(s, i + 1, j);
  }

  lemma UnsignedNotEmpty(s: string)
    requires IsUnsigned(s)
    ensures s != ""
  {
    var i: nat, j: nat :| HasParts(s, i, j);
  }

  lemma NumberCovered(s: string, m: nat)
    requires m <= |s| && IsNumeral(s[..m])
    ensures NumberLength(s) >= m
  {
    if s[0] == '-' {
      assert s[..m][1..] == s[1..][..m - 1];
      UnsignedCovered(s[1..], m - 1);
      UnsignedNotEmpty(s[..m][1..]);
    } else {
      UnsignedCovered(s, m);
    }
  }

  lemma RunIsDigits(s: string, from: nat, n: nat)
    requires from <= |s| && n == Run(s[from..], Digits)
    ensures Decimal.AllDigits(s[from..from + n])
  {
    RunIsLongest(s[from..], Digits);
    assert s[from..from + n] == s[from..][..n];
  }

  lemma FractionRead(s: string, i: nat)
    requires i <= |s|
    ensures IsFraction(s[i..i + FractionLength(s[i..])])
  {
    var n := FractionLength(s[i..]);
    if n > 0 {
      assert s[i..][1..] == s[i + 1..] && s[i..i + n][1..] == s[i + 1..i + n];
      RunIsDigits(s, i + 1, n - 1);
    }
  }

  lemma ExponentRead(s: string, j: nat)
    requires j <= |s|
    ensures IsExponent(s[j..j + ExponentLength(s[j..])])
  {
    var n := ExponentLength(s[j..]);
    if n > 0 {
      var e := s[j..j + n];
      var sign := if |s[j..]| > 1 && s[j..][1] in {'-', '+'} then 1 else 0;
      assert s[j..][1 + sign..] == s[j + 1 + sign..] && e[1 + sign..] == s[j + 1 + sign..j + n];
      RunIsDigits(s, j + 1 + sign, n - 1 - sign);
    }
  }

  lemma PartsOfPrefix(s: string, i: nat, j: nat, n: nat)
    requires i <= j <= n <= |s| && Decimal.AllDigits(s[0..i]) && IsFraction(s[i..j]) && IsExponent(s[j..n])
    requires i > 0 || j - i > 1
    ensures IsUnsigned(s[..n])
  {
    var t := s[..n];
    assert t[..i] == s[0..i] && t[i..j] == s[i..j] && t[j..] == s[j..n];
    assert HasParts(t, i, j);
  }

  lemma PartsRead(s: string, i: nat, j: nat, n: nat)
    requires i == Run(s, Digits) && j == i + FractionLength(s[i..]) && n == j + ExponentLength(s[j..])
    requires i > 0 || j - i > 1
    ensures IsUnsigned(s[..n])
  {
    assert s[0..] == s;
    RunIsDigits(s, 0, i);
    FractionRead(s, i);
    ExponentRead(s, j);
    PartsOfPrefix(s, i, j, n);
  }

  /** What is read as a numeral is one. */
  lemma UnsignedRead(s: string)
    requires UnsignedLength(s) > 0
    ensures IsUnsigned(s[..UnsignedLength(s)])
  {
    var i := Run(s, Digits);
    var j := i + FractionLength(s[i..]);
    PartsRead(s, i, j, j + ExponentLength(s[j..]));
  }

  lemma NumberRead(s: string)
    requires NumberLength(s) > 0
    ensures IsNumeral(s[..NumberLength(s)])
  {
    var n := NumberLength(s);
    if s[0] == '-' {
      assert s[..n][1..] == s[1..][..n - 1];
      UnsignedRead(s[1..]);
    } else {
      UnsignedRead(s);
    }
  }

  lemma NumeralStart(s: string)
    requires IsNumeral(s)
    ensures s[0] == '-' || s[0] == '.' || Decimal.IsDigit(s[0])
  {
    assert s[..|s|] == s;
    NumberCovered(s, |s|);
  }

  // --- Quoted texts -------------------------------------------------------------------------------

  function Shifted(n: Option<nat>, shift: nat): Option<nat> {
    match n case None => None case Some(n) => Some(n + shift)
  }

  lemma BodyAfterChar(c: char, rest: string, q: char)
    requires c != q
    ensures BodyLength([c] + rest, q) == Shifted(BodyLength(rest, q), 1)
  {
    assert ([c] + rest)[1..] == rest;
  }

  lemma BodyAfterPair(rest: string, q: char)
    ensures BodyLength([q, q] + rest, q) == Shifted(BodyLength(rest, q), 2)
  {
    assert ([q, q] + rest)[2..] == rest;
  }

  function EscapedChar(c: char, q: char): string { if c == q then [q, q] else [c] }

  lemma EscapedInParts(v: string, q: char)
    requires v != ""
    ensures Escape(v, q) == EscapedChar(v[0], q) + Escape(v[1..], q)
  {}

  lemma BehindOne(unit: string, behind: string, found: Option<nat>, n: nat, q: char)
    requires unit == [q, q] || (|unit| == 1 && unit[0] != q)
    requires BodyLength(behind, q) == Shifted(found, n)
    ensures BodyLength(unit + behind, q) == Shifted(found, |unit| + n)
  {
    if |unit| == 1 {
      assert unit == [unit[0]];
      BodyAfterChar(unit[0], behind, q);
    } else {
      BodyAfterPair(behind, q);
    }
  }

  lemma Regrouped(unit: string, e: string, rest: string)
    ensures (unit + e) + rest == unit + (e + rest) && |unit + e| == |unit| + |e|
  {}

  /** The body of a quoted text goes on behind an escaped text. */
  lemma {:induction false} BodyBehind(v: string, rest: string, q: char)
    ensures BodyLength(Escape(v, q) + rest, q) == Shifted(BodyLength(rest, q), |Escape(v, q)|)
    decreases |v|
  {
    if v == "" {
      assert Escape(v, q) + rest == rest;
    } else {
      var unit, e := EscapedChar(v[0], q), Escape(v[1..], q);
      BodyBehind(v[1..], rest, q);
      BehindOne(unit, e + rest, BodyLength(rest, q), |e|, q);
      EscapedInParts(v, q);
      Regrouped(unit, e, rest);
    }
  }

  lemma {:induction false} UnescapeUndoesEscape(v: string, q: char)
    ensures Unescape(Escape(v, q), q) == v
    decreases |v|
  {
    if v != "" {
      var e, e' := Escape(v, q), Escape(v[1..], q);
      UnescapeUndoesEscape(v[1..], q);
      if v[0] == q {
        assert e[2..] == e';
      } else {
        assert e[1..] == e' && e[0] != q;
      }
      assert v == [v[0]] + v[1..];
    }
  }

  /** The body that is found is escaped, and the quote after it is single. */
  lemma {:induction false} BodyIsEscaped(s: string, q: char)
    requires BodyLength(s, q).Some?
    ensures var n := BodyLength(s, q).value;
            Escape(Unescape(s[..n], q), q) == s[..n] && (n + 1 < |s| ==> s[n + 1] != q)
    decreases |s|
  {
    var n := BodyLength(s, q).value;
    if s[0] != q {
      BodyIsEscaped(s[1..], q);
      EscapeOne(s[..n], s[1..][..n - 1], q);
    } else if |s| > 1 && s[1] == q {
      BodyIsEscaped(s[2..], q);
      EscapeTwo(s[..n], s[2..][..n - 2], q);
    } else {
      assert s[..0] == "";
    }
  }

  lemma EscapeOne(s: string, rest: string, q: char)
    requires s != "" && s[0] != q && s[1..] == rest && Escape(Unescape(rest, q), q) == rest
    ensures Escape(Unescape(s, q), q) == s
  {
    var u := Unescape(s, q);
    assert u == [s[0]] + Unescape(rest, q) && u[1..] == Unescape(rest, q);
    assert s == [s[0]] + rest;
  }

  lemma EscapeTwo(s: string, rest: string, q: char)
    requires |s| > 1 && s[0] == q && s[1] == q && s[2..] == rest && Escape(Unescape(rest, q), q) == rest
    ensures Escape(Unescape(s, q), q) == s
  {
    var u := Unescape(s, q);
    assert u == [q] + Unescape(rest, q) && u[1..] == Unescape(rest, q);
    assert s == [q, q] + rest;
  }

  // --- One token ------------------------------------------------------------------------------------

  function QuoteOf(kind: TokenKind): char { if kind == String then '\'' else '"' }

  /** The texts of quoted tokens at the start of `s`: where the body ends, its quote is single. */
  lemma QuotedTexts(s: string, m: nat, t: Token)
    requires m <= |s| && t.kind in {String, Quoted} && Writes(s[..m], t)
    ensures var q := QuoteOf(t.kind);
            && m >= 2 && s[0] == q && s[1..m - 1] == Escape(t.value, q) && s[1..] == Escape(t.value, q) + ([q] + s[m..])
            && BodyLength(s[1..], q) == Shifted(BodyLength([q] + s[m..], q), m - 2)
  {
    var q := QuoteOf(t.kind);
    var e := Escape(t.value, q);
    assert s[..m] == [q] + (e + [q]);
    assert s[..m][0] == q && s[1..m - 1] == s[..m][1..m - 1] == e && s[m - 1] == s[..m][m - 1] == q;
    assert s[1..] == e + ([q] + s[m..]);
    BodyBehind(t.value, [q] + s[m..], q);
  }

  lemma QuotedLength(s: string, kind: TokenKind)
    requires kind in {String, Quoted} && s != "" && s[0] == QuoteOf(kind) && QuotedLexeme(s, kind).Lexed?
    ensures var n := BodyLength(s[1..], s[0]).value;
            n + 2 <= |s| && QuotedLexeme(s, kind) == Lexed(Token(kind, Unescape(s[1..1 + n], s[0])), n + 2)
  {}

  lemma QuotedRead(s: string, kind: TokenKind)
    requires kind in {String, Quoted} && s != "" && s[0] == QuoteOf(kind) && QuotedLexeme(s, kind).Lexed?
    ensures var r := QuotedLexeme(s, kind);
            r.length <= |s| && Writes(s[..r.length], r.token) && r.token.kind == kind
  {
    var q := QuoteOf(kind);
    var n := BodyLength(s[1..], q).value;
    QuotedLength(s, kind);
    BodyIsEscaped(s[1..], q);
    BetweenQuotes(s, n, q);
  }

  lemma BetweenQuotes(s: string, n: nat, q: char)
    requires n + 2 <= |s| && s[0] == q && s[n + 1] == q
    ensures s[1..][..n] == s[1..1 + n] && s[..n + 2] == [q] + (s[1..1 + n] + [q])
  {}

  lemma NoLongerQuoted(s: string, kind: TokenKind, m: nat, t: Token)
    requires kind in {String, Quoted} && s != "" && s[0] == QuoteOf(kind) && QuotedLexeme(s, kind).Lexed?
    requires QuotedLexeme(s, kind).length < m <= |s| && t.kind in {String, Quoted}
    ensures !Writes(s[..m], t)
  {
    QuotedLength(s, kind);
    BodyIsEscaped(s[1..], s[0]);
    if Writes(s[..m], t) { QuotedTexts(s, m, t); }
  }

  lemma WordRead(s: string)
    requires WordLength(s) > 0
    ensures IsWord(s[..WordLength(s)])
    ensures forall m :: WordLength(s) < m <= |s| ==> !IsWord(s[..m])
  {
    var n := WordLength(s);
    RunIsLongest(s[1..], WordChars);
    assert forall i :: 0 < i < n ==> s[i] == s[1..][i - 1];
    assert n < |s| ==> s[n] == s[1..][n - 1];
    assert forall m :: n < m <= |s| ==> s[..m][n] == s[n];
  }

  lemma WordWrites(word: string)
    requires IsWord(word)
    ensures Writes(word, WordToken(word))
  {}

  /** Which texts begin how. */
  lemma FirstOf(text: string, t: Token)
    requires Writes(text, t)
    ensures text != "" && !IsSpace(text[0])
    ensures t.kind == Number ==> text[0] == '-' || text[0] == '.' || Decimal.IsDigit(text[0])
    ensures t.kind in {Keyword, Ident} ==> IsWordStart(text[0])
    ensures t.kind == Operator ==> text[0] in {'<', '>', '=', '!'} && |text| <= 2
    ensures t.kind == Punct ==> text[0] in {'(', ')', ',', '.', '*', ';', '[', ']'} && |text| == 1
    ensures t.kind == String ==> text[0] == '\''
    ensures t.kind == Quoted ==> text[0] == '"'
  {
    if t.kind == Number { NumeralStart(text); }
  }

  lemma PrefixStart(s: string, m: nat, t: Token)
    requires m <= |s| && Writes(s[..m], t)
    ensures m > 0 && s[..m][0] == s[0]
  {
    FirstOf(s[..m], t);
  }

  /** A longer text would have to be of the kind that its first character announces. */
  lemma NumberIsLongest(s: string, m: nat, t: Token)
    requires NumberLength(s) > 0 && s[0] !in {'\'', '"'} && NumberLength(s) < m <= |s|
    ensures !Writes(s[..m], t)
  {
    if Writes(s[..m], t) {
      PrefixStart(s, m, t);
      FirstOf(s[..m], t);
      NumberRead(s);
      NumeralStart(s[..NumberLength(s)]);
      if t.kind == Number { NumberCovered(s, m); }
    }
  }

  lemma WordIsLongest(s: string, m: nat, t: Token)
    requires WordLength(s) > 0 && WordLength(s) < m <= |s|
    ensures !Writes(s[..m], t)
  {
    if Writes(s[..m], t) {
      PrefixStart(s, m, t);
      FirstOf(s[..m], t);
      WordRead(s);
    }
  }

  lemma OperatorRead(s: string)
    requires OperatorLength(s) > 0
    ensures var n := OperatorLength(s); Writes(s[..n], Token(Operator, s[..n]))
  {
    if OperatorLength(s) == 1 { assert s[..1] == [s[0]]; }
  }

  lemma OperatorIsLongest(s: string, m: nat, t: Token)
    requires OperatorLength(s) > 0 && OperatorLength(s) < m <= |s|
    ensures !Writes(s[..m], t)
  {
    if Writes(s[..m], t) {
      PrefixStart(s, m, t);
      FirstOf(s[..m], t);
      OperatorRead(s);
      FirstOf(s[..OperatorLength(s)], Token(Operator, s[..OperatorLength(s)]));
    }
  }

  lemma MarkIsLongest(s: string, m: nat, t: Token)
    requires s != "" && s[0] in {'(', ')', ',', '.', '*', ';', '[', ']'} && NumberLength(s) == 0 && 1 < m <= |s|
    ensures !Writes(s[..m], t)
  {
    if Writes(s[..m], t) {
      PrefixStart(s, m, t);
      FirstOf(s[..m], t);
      if t.kind == Number { NumberCovered(s, m); }
    }
  }

  lemma QuotedIsLongest(s: string, kind: TokenKind, m: nat, t: Token)
    requires kind in {String, Quoted} && s != "" && s[0] == QuoteOf(kind) && QuotedLexeme(s, kind).Lexed?
    requires QuotedLexeme(s, kind).length < m <= |s|
    ensures !Writes(s[..m], t)
  {
    if Writes(s[..m], t) {
      PrefixStart(s, m, t);
      FirstOf(s[..m], t);
      NoLongerQuoted(s, kind, m, t);
    }
  }

  lemma NextWrites(s: string)
    requires s != "" && Next(s).Lexed?
    ensures Writes(s[..Next(s).length], Next(s).token)
  {
    if s[0] == '\'' {
      QuotedRead(s, String);
    } else if s[0] == '"' {
      QuotedRead(s, Quoted);
    } else if NumberLength(s) > 0 {
      NumberRead(s);
    } else if WordLength(s) > 0 {
      WordRead(s);
      WordWrites(s[..WordLength(s)]);
    } else if OperatorLength(s) > 0 {
      OperatorRead(s);
    } else {
      assert s[..1] == [s[0]];
    }
  }

  lemma NoLonger(s: string, m: nat, t: Token)
    requires s != "" && Next(s).Lexed? && Next(s).length < m <= |s|
    ensures !Writes(s[..m], t)
  {
    if s[0] == '\'' {
      QuotedIsLongest(s, String, m, t);
    } else if s[0] == '"' {
      QuotedIsLongest(s, Quoted, m, t);
    } else if NumberLength(s) > 0 {
      NumberIsLongest(s, m, t);
    } else if WordLength(s) > 0 {
      WordIsLongest(s, m, t);
    } else if OperatorLength(s) > 0 {
      OperatorIsLongest(s, m, t);
    } else {
      MarkIsLongest(s, m, t);
    }
  }

  /** The token that is read is the longest. */
  lemma NextIsLongest(s: string)
    requires s != "" && Next(s).Lexed?
    ensures Longest(s, Next(s).length) && Writes(s[..Next(s).length], Next(s).token)
  {
    NextWrites(s);
    forall m | Next(s).length < m <= |s| ensures !WritesOne(s[..m]) {
      if WritesOne(s[..m]) {
        var t :| Writes(s[..m], t);
        NoLonger(s, m, t);
      }
    }
  }

  lemma EscapeInjective(v: string, w: string, q: char)
    requires [q] + (Escape(v, q) + [q]) == [q] + (Escape(w, q) + [q])
    ensures v == w
  {
    var a, b := [q] + (Escape(v, q) + [q]), [q] + (Escape(w, q) + [q]);
    assert a[1..|a| - 1] == Escape(v, q) && b[1..|b| - 1] == Escape(w, q);
    UnescapeUndoesEscape(v, q);
    UnescapeUndoesEscape(w, q);
  }

  lemma SameKind(text: string, t: Token, u: Token)
    requires Writes(text, t) && Writes(text, u)
    ensures t.kind == u.kind
  {
    FirstOf(text, t);
    FirstOf(text, u);
    if {t.kind, u.kind} == {Number, Punct} && text[0] == '.' {
      assert text == ".";
      assert text[..|text|] == text;
      DotIsNoNumber(text);
      NumberCovered(text, 1);
    }
  }

  lemma DotIsNoNumber(text: string)
    requires text == "."
    ensures NumberLength(text) == 0
  {
    assert text[0..] == text && Run(text, Digits) == 0 && text[1..] == "" && Run("", Digits) == 0;
    assert FractionLength(text) == 1;
  }

  /** A text stands for one token at most. */
  lemma WritesOnlyOne(text: string, t: Token, u: Token)
    requires Writes(text, t) && Writes(text, u)
    ensures t == u
  {
    SameKind(text, t, u);
    if t.kind in {String, Quoted} { EscapeInjective(t.value, u.value, QuoteOf(t.kind)); }
  }

  predicate Unclosed(s: string) { s != "" && s[0] in {'\'', '"'} && BodyLength(s[1..], s[0]).None? }

  /** Where a token stands, one is read, but for a quoted text that goes on and is never closed. */
  lemma NextFinds(s: string, n: nat, t: Token)
    requires n <= |s| && Writes(s[..n], t) && !Unclosed(s)
    ensures s != "" && Next(s).Lexed?
  {
    PrefixStart(s, n, t);
    FirstOf(s[..n], t);
    if t.kind == Number {
      NumberCovered(s, n);
    } else if t.kind in {Keyword, Ident} {
      assert WordLength(s) > 0;
    } else if t.kind == Operator {
      OperatorFound(s, n);
    }
  }

  lemma OperatorFound(s: string, n: nat)
    requires n <= |s| && s[..n] in OPERATORS
    ensures OperatorLength(s) > 0
  {
    if n == 2 { assert s[..2] in OPERATORS; }
    if n == 1 { assert s[..1] == [s[0]]; }
  }

  // --- The whole text -----------------------------------------------------------------------------

  lemma NotClosedHere(rest: string, q: char)
    requires BodyLength([q] + rest, q).None?
    ensures rest != "" && rest[0] == q && BodyLength(rest[1..], q).None?
  {
    if rest != "" { assert ([q] + rest)[2..] == rest[1..]; }
  }

  /** What is left after a part of an unclosed text that stands for a token is unclosed too. */
  lemma StaysUnclosed(s: string, n: nat, t: Token)
    requires Unclosed(s) && n <= |s| && Writes(s[..n], t)
    ensures 0 < n < |s| && Unclosed(s[n..])
  {
    PrefixStart(s, n, t);
    FirstOf(s[..n], t);
    QuotedTexts(s, n, t);
    var q := s[0];
    assert BodyLength([q] + s[n..], q).None?;
    NotClosedHere(s[n..], q);
  }

  lemma NoBlanksAtFirst(s: string, b: nat)
    requires b <= |s| && Blanks(s[..b]) && s != "" && !IsSpace(s[0])
    ensures b == 0
  {
    var blanks := s[..b];
    assert blanks + s[b..] == s;
  }

  lemma {:induction false} UnclosedIsNotLaid(s: string, ts: seq<Token>)
    requires Unclosed(s)
    ensures !Laid(s, ts)
    decreases |ts|
  {
    if Laid(s, ts) {
      assert !IsSpace(s[0]);
      if |ts| >= 2 {
        var b: nat :| b <= |s| && Blanks(s[..b]) && LaidFrom(s[b..], ts);
        NoBlanksAtFirst(s, b);
        assert s[0..] == s;
        var n: nat :| Longest(s, n) && Writes(s[..n], ts[0]) && Laid(s[n..], ts[1..]);
        StaysUnclosed(s, n, ts[0]);
        UnclosedIsNotLaid(s[n..], ts[1..]);
      }
    }
  }

  lemma BlankSkipped(s: string, n: nat)
    requires s != "" && Next(s) == Blank(n)
    ensures Lex(s) == Lex(s[n..])
  {}

  lemma SpaceFirst(s: string)
    requires s != "" && IsSpace(s[0])
    ensures Next(s) == Blank(1 + Run(s[1..], Spaces))
  {}

  lemma SpaceSkipped(c: char, rest: string)
    requires IsSpace(c)
    ensures Lex([c] + rest) == Lex(rest)
  {
    var s := [c] + rest;
    assert s[1..] == rest;
    var n := Run(rest, Spaces);
    SpaceFirst(s);
    BlankSkipped(s, 1 + n);
    assert s[1 + n..] == rest[n..];
    if rest != "" && IsSpace(rest[0]) {
      SpaceFirst(rest);
      BlankSkipped(rest, n);
    } else {
      assert n == 0 && rest[0..] == rest;
    }
  }

  /** White space is not seen, however much of it there is. */
  lemma {:induction false} BlanksSkipped(blanks: string, rest: string)
    requires Blanks(blanks)
    ensures Lex(blanks + rest) == Lex(rest)
    decreases |blanks|
  {
    if blanks == "" {
      assert blanks + rest == rest;
    } else {
      assert blanks + rest == [blanks[0]] + (blanks[1..] + rest);
      SpaceSkipped(blanks[0], blanks[1..] + rest);
      BlanksSkipped(blanks[1..], rest);
    }
  }

  lemma LexemeRead(s: string, t: Token, n: nat)
    requires s != "" && Next(s) == Lexed(t, n)
    ensures Lex(s) == Prepend([t], Lex(s[n..]))
  {}

  /** A text that is laid out as these tokens is read as them. */
  lemma {:induction false} LaidIsRead(s: string, ts: seq<Token>)
    requires Laid(s, ts)
    ensures Lex(s) == Some(ts)
    decreases |ts|
  {
    if |ts| < 2 {
      BlanksSkipped(s, "");
      assert s + "" == s;
    } else {
      var b: nat :| b <= |s| && Blanks(s[..b]) && LaidFrom(s[b..], ts);
      BlanksSkipped(s[..b], s[b..]);
      assert s[..b] + s[b..] == s;
      TokenIsRead(s[b..], ts);
    }
  }

  lemma {:induction false} TokenIsRead(s: string, ts: seq<Token>)
    requires |ts| > 1 && LaidFrom(s, ts)
    ensures Lex(s) == Some(ts)
    decreases |ts|, 0
  {
    var n: nat :| Longest(s, n) && Writes(s[..n], ts[0]) && Laid(s[n..], ts[1..]);
    if Unclosed(s) {
      StaysUnclosed(s, n, ts[0]);
      UnclosedIsNotLaid(s[n..], ts[1..]);
    }
    NextFinds(s, n, ts[0]);
    NextIsLongest(s);
    assert n == Next(s).length;
    WritesOnlyOne(s[..n], ts[0], Next(s).token);
    LexemeRead(s, ts[0], n);
    LaidIsRead(s[n..], ts[1..]);
    assert [ts[0]] + ts[1..] == ts;
  }

  lemma BlanksJoin(s: string, n: nat, b: nat)
    requires n + b <= |s| && Blanks(s[..n]) && Blanks(s[n..][..b])
    ensures Blanks(s[..n + b]) && s[n..][b..] == s[n + b..]
  {
    assert s[..n + b] == s[..n] + s[n..][..b];
  }

  lemma BlanksBefore(s: string, n: nat, ts: seq<Token>)
    requires n <= |s| && Blanks(s[..n]) && Laid(s[n..], ts)
    ensures Laid(s, ts)
  {
    if |ts| < 2 {
      assert s[n..][..|s| - n] == s[n..] && s[..n + (|s| - n)] == s;
      BlanksJoin(s, n, |s| - n);
    } else {
      var b: nat :| b <= |s[n..]| && Blanks(s[n..][..b]) && LaidFrom(s[n..][b..], ts);
      BlanksJoin(s, n, b);
    }
  }

  lemma {:induction false} ReadIsLaid(s: string)
    requires Lex(s).Some?
    ensures Laid(s, Lex(s).value)
    decreases |s|
  {
    if s != "" {
      var n := Next(s).length;
      ReadIsLaid(s[n..]);
      if Next(s).Blank? {
        assert s == [s[0]] + s[1..];
        RunIsLongest(s, Spaces);
        assert Run(s, Spaces) == n;
        BlanksBefore(s, n, Lex(s).value);
      } else {
        var rest := Lex(s[n..]).value;
        NextIsLongest(s);
        LexTerminates(s[n..]);
        assert ([Next(s).token] + rest)[1..] == rest;
        assert LaidFrom(s, [Next(s).token] + rest);
        assert s[0..] == s && s[..0] == "";
      }
    }
  }

  /** The tokenizer reads exactly the tokens as which the text is laid out, and refuses a text that
      is laid out as none. */
  lemma LexIsExact(s: string, ts: seq<Token>)
    ensures Lex(s) == Some(ts) <==> Laid(s, ts)
  {
    if Lex(s) == Some(ts) { ReadIsLaid(s); }
    if Laid(s, ts) { LaidIsRead(s, ts); }
  }
}
