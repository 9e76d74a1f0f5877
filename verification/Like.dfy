/** LIKE patterns: the reference matcher, the bound of the byte range used for
    'prefix%', and the agreement of the three ways the evaluator matches a pattern. */
module Like {
  import opened Wrappers
  import opened Order
  import opened Utf8

  /** '%' stands for any run of characters and '_' for exactly one. */
  predicate Matches(pattern: string, text: string)
    decreases |pattern| + |text|
  {
    if pattern == "" then text == ""
    else if pattern[0] == '%' then
      Matches(pattern[1..], text) || (text != "" && Matches(pattern, text[1..]))
    else
      text != "" && (pattern[0] == '_' || pattern[0] == text[0]) && Matches(pattern[1..], text[1..])
  }

  predicate IsWildcard(c: char) { c == '%' || c == '_' }

  /** A character of the pattern by itself: "%" matches every text, "_" every text of one character,
      and any other only itself. */
  lemma OneMatches(c: char, text: string)
    ensures Matches("", text) <==> text == ""
    ensures Matches([c], text) <==> if c == '%' then true else if c == '_' then |text| == 1 else text == [c]
    decreases |text|
  {
    assert [c][1..] == "";
    if text != "" {
      assert text == [text[0]] + text[1..];
      if c == '%' { OneMatches(c, text[1..]); }
    }
  }

  /** Patterns one after the other match a text exactly if it can be cut into texts that they match.
      With the characters by themselves, this is all there is to know about matching. */
  lemma {:induction false} MatchesInParts(a: string, b: string, text: string)
    ensures Matches(a + b, text) <==> exists i :: 0 <= i <= |text| && Matches(a, text[..i]) && Matches(b, text[i..])
    decreases |a| + |text|
  {
    if a == "" {
      assert a + b == b && text[..0] == "" && text[0..] == text;
    } else {
      assert (a + b)[0] == a[0] && (a + b)[1..] == a[1..] + b;
      if a[0] == '%' { AnyRunInParts(a, b, text); } else { OneCharacterInParts(a, b, text); }
    }
  }

  lemma {:induction false} AnyRunInParts(a: string, b: string, text: string)
    requires a != "" && a[0] == '%'
    ensures Matches(a + b, text) <==> exists i :: 0 <= i <= |text| && Matches(a, text[..i]) && Matches(b, text[i..])
    decreases |a| + |text|, 0
  {
    assert (a + b)[0] == '%' && (a + b)[1..] == a[1..] + b;
    MatchesInParts(a[1..], b, text);
    if text != "" { MatchesInParts(a, b, text[1..]); }
    if Matches(a + b, text) && !Matches(a[1..] + b, text) {
      var i :| 0 <= i <= |text| - 1 && Matches(a, text[1..][..i]) && Matches(b, text[1..][i..]);
      assert text[..i + 1][1..] == text[1..][..i] && text[i + 1..] == text[1..][i..];
      assert Matches(a, text[..i + 1]);
    }
    if i :| 0 <= i <= |text| && Matches(a, text[..i]) && Matches(b, text[i..]) {
      if !Matches(a[1..], text[..i]) {
        assert text[..i][1..] == text[1..][..i - 1] && text[1..][i - 1..] == text[i..];
      }
    }
  }

  lemma {:induction false} OneCharacterInParts(a: string, b: string, text: string)
    requires a != "" && a[0] != '%'
    ensures Matches(a + b, text) <==> exists i :: 0 <= i <= |text| && Matches(a, text[..i]) && Matches(b, text[i..])
    decreases |a| + |text|, 0
  {
    assert (a + b)[0] == a[0] && (a + b)[1..] == a[1..] + b;
    if text != "" {
      MatchesInParts(a[1..], b, text[1..]);
      if Matches(a + b, text) {
        var i :| 0 <= i <= |text| - 1 && Matches(a[1..], text[1..][..i]) && Matches(b, text[1..][i..]);
        assert text[..i + 1][1..] == text[1..][..i] && text[i + 1..] == text[1..][i..];
        assert Matches(a, text[..i + 1]);
      }
      if i :| 0 <= i <= |text| && Matches(a, text[..i]) && Matches(b, text[i..]) {
        assert text[..i][1..] == text[1..][..i - 1] && text[1..][i - 1..] == text[i..];
      }
    }
  }

  /** The three evaluation routes, told apart as the evaluator does. */
  datatype Route = Exact | PrefixRange(prefix: string) | General

  function WildcardsOf(pattern: string): (found: seq<nat>)
    ensures forall i :: i in found <==> 0 <= i < |pattern| && IsWildcard(pattern[i])
    ensures forall i, j :: 0 <= i < j < |found| ==> found[i] < found[j]
  {
    if pattern == "" then []
    else
      var n := |pattern| - 1;
      var before := WildcardsOf(pattern[..n]);
      assert forall i :: 0 <= i < |before| ==> before[i] in before;
      if IsWildcard(pattern[n]) then before + [n] else before
  }

  function RouteOf(pattern: string): Route {
    var wildcards := WildcardsOf(pattern);
    if wildcards == [] then Exact
    else if wildcards == [|pattern| - 1] && pattern[|pattern| - 1] == '%' then
      PrefixRange(pattern[..|pattern| - 1])
    else General
  }

  predicate Plain(pattern: string) { forall c :: c in pattern ==> !IsWildcard(c) }

  /** Which patterns take which route. */
  lemma RouteIsExactlyFor(pattern: string)
    ensures RouteOf(pattern).Exact? <==> Plain(pattern)
    ensures forall p :: RouteOf(pattern) == PrefixRange(p) <==> Plain(p) && pattern == p + "%"
  {
    var w := WildcardsOf(pattern);
    if w == [] {
      assert Plain(pattern);
    } else {
      assert w[0] in w;
      assert pattern[w[0]] in pattern;
    }
    if RouteOf(pattern).PrefixRange? {
      var n := |pattern| - 1;
      var p := pattern[..n];
      forall c | c in p ensures !IsWildcard(c) {
        var i :| 0 <= i < |p| && p[i] == c;
        assert i !in w;
        assert pattern[i] == c;
      }
      assert pattern == p + "%";
    }
    forall p | Plain(p) && pattern == p + "%" ensures RouteOf(pattern) == PrefixRange(p) {
      assert pattern[..|p|] == p;
      OnlyWildcard(pattern, p);
    }
  }

  lemma {:induction false} PlainHasNoWildcards(p: string)
    requires Plain(p)
    ensures WildcardsOf(p) == []
  {
    if p != "" {
      assert p[|p| - 1] in p;
      PlainHasNoWildcards(p[..|p| - 1]);
    }
  }

  lemma OnlyWildcard(pattern: string, p: string)
    requires Plain(p) && |pattern| == |p| + 1 && pattern[..|p|] == p && pattern[|p|] == '%'
    ensures WildcardsOf(pattern) == [|p|]
  {
    PlainHasNoWildcards(p);
  }

  lemma {:induction false} PlainMatchesItself(pattern: string, text: string)
    requires Plain(pattern)
    ensures Matches(pattern, text) <==> pattern == text
    decreases |pattern|
  {
    if pattern != "" {
      assert pattern[0] in pattern;
      if text != "" {
        PlainMatchesItself(pattern[1..], text[1..]);
        assert pattern == [pattern[0]] + pattern[1..] && text == [text[0]] + text[1..];
      }
    }
  }

  lemma {:induction false} PercentMatchesAll(text: string)
    ensures Matches("%", text)
    decreases |text|
  {
    if text != "" {
      PercentMatchesAll(text[1..]);
    }
    assert "%"[1..] == "";
  }

  lemma {:induction false} PrefixPatternMatchesPrefix(prefix: string, text: string)
    requires Plain(prefix)
    ensures Matches(prefix + "%", text) <==> prefix <= text
    decreases |prefix|
  {
    var pattern := prefix + "%";
    if prefix == "" {
      PercentMatchesAll(text);
      assert pattern == "%";
    } else {
      assert prefix[0] in prefix;
      assert pattern[0] == prefix[0] && pattern[1..] == prefix[1..] + "%";
      if text != "" {
        PrefixPatternMatchesPrefix(prefix[1..], text[1..]);
        assert prefix <= text <==> prefix[0] == text[0] && prefix[1..] <= text[1..] by {
          assert prefix == [prefix[0]] + prefix[1..] && text == [text[0]] + text[1..];
        }
      }
    }
  }

  // --- The upper end of a prefix's byte range ----------------------------------

  function TrimFF(prefix: seq<Byte>): (trimmed: seq<Byte>)
    ensures trimmed <= prefix
    ensures trimmed != [] ==> trimmed[|trimmed| - 1] != 0xFF
    ensures forall i :: |trimmed| <= i < |prefix| ==> prefix[i] == 0xFF
  {
    if prefix != [] && prefix[|prefix| - 1] == 0xFF then TrimFF(prefix[..|prefix| - 1]) else prefix
  }

  /** None when the prefix has no upper bound. */
  function PrefixUpperBound(prefix: seq<Byte>): Option<seq<Byte>> {
    var trimmed := TrimFF(prefix);
    var n := |trimmed| - 1;
    if trimmed == [] then None else Some(trimmed[..n] + [trimmed[n] + 1])
  }

  /** The byte range the evaluator scans for 'prefix%'. */
  predicate InPrefixRange(prefix: seq<Byte>, v: seq<Byte>) {
    !BytesBefore(v, prefix) &&
    (PrefixUpperBound(prefix).Some? ==> BytesBefore(v, PrefixUpperBound(prefix).value))
  }

  /** A run of 0xFF bytes is above everything that does not start with it. */
  lemma {:induction false} TopPrefix(prefix: seq<Byte>, v: seq<Byte>)
    requires forall i :: 0 <= i < |prefix| ==> prefix[i] == 0xFF
    ensures BytesBefore(v, prefix) <==> !(prefix <= v)
    decreases |prefix|
  {
    if prefix != [] && v != [] {
      TopPrefix(prefix[1..], v[1..]);
      assert prefix <= v <==> prefix[0] == v[0] && prefix[1..] <= v[1..] by {
        assert prefix == [prefix[0]] + prefix[1..] && v == [v[0]] + v[1..];
      }
    }
  }

  lemma {:induction false} RangeIsPrefix(trimmed: seq<Byte>, tail: seq<Byte>, v: seq<Byte>)
    requires trimmed != [] && trimmed[|trimmed| - 1] != 0xFF
    requires forall i :: 0 <= i < |tail| ==> tail[i] == 0xFF
    ensures var n := |trimmed| - 1;
            trimmed + tail <= v <==>
            !BytesBefore(v, trimmed + tail) && BytesBefore(v, trimmed[..n] + [trimmed[n] + 1])
    decreases |trimmed|
  {
    var n := |trimmed| - 1;
    var low, high := trimmed + tail, trimmed[..n] + [trimmed[n] + 1];
    if v != [] {
      assert low <= v <==> low[0] == v[0] && low[1..] <= v[1..] by {
        assert low == [low[0]] + low[1..] && v == [v[0]] + v[1..];
      }
      if n == 0 {
        TopPrefix(tail, v[1..]);
        assert low[0] == trimmed[0] && low[1..] == tail;
        assert high == [trimmed[0] + 1];
        assert !BytesBefore(v[1..], []);
      } else {
        RangeIsPrefix(trimmed[1..], tail, v[1..]);
        assert low[1..] == trimmed[1..] + tail;
        assert high[1..] == trimmed[1..][..n - 1] + [trimmed[1..][n - 1] + 1];
      }
    }
  }

  /** The range holds exactly the byte strings that start with the prefix. */
  lemma PrefixRangeIsExact(prefix: seq<Byte>, v: seq<Byte>)
    ensures InPrefixRange(prefix, v) <==> prefix <= v
  {
    var trimmed := TrimFF(prefix);
    var tail := prefix[|trimmed|..];
    assert prefix == trimmed + tail;
    if trimmed == [] {
      TopPrefix(prefix, v);
    } else {
      RangeIsPrefix(trimmed, tail, v);
    }
  }

  ghost predicate AboveAllWithPrefix(prefix: seq<Byte>, bound: seq<Byte>) {
    forall v :: prefix <= v ==> BytesBefore(v, bound)
  }

  /** The bound is the least byte string above every string with the prefix, and it is
      missing exactly when there is no such string. */
  lemma UpperBoundIsLeast(prefix: seq<Byte>)
    ensures PrefixUpperBound(prefix).Some? ==> AboveAllWithPrefix(prefix, PrefixUpperBound(prefix).value)
    ensures forall b :: AboveAllWithPrefix(prefix, b) ==>
              PrefixUpperBound(prefix).Some? && !BytesBefore(b, PrefixUpperBound(prefix).value)
  {
    var upper := PrefixUpperBound(prefix);
    if upper.Some? {
      forall v | prefix <= v ensures BytesBefore(v, upper.value) {
        PrefixRangeIsExact(prefix, v);
      }
    }
    forall b | AboveAllWithPrefix(prefix, b)
      ensures upper.Some? && !BytesBefore(b, upper.value)
    {
      PrefixRangeIsExact(prefix, b);
      assert BytesBefore(prefix, b) by {
        assert prefix <= prefix;
      }
      Asymmetric(Rank, prefix, b);
      Irreflexive(Rank, b);
      assert prefix <= b ==> BytesBefore(b, b);
    }
  }

  // --- The routes agree ----------------------------------------------------------

  /** What LIKE is on the bytes of a cell, as the routes have it: a plain pattern is compared
      with the bytes, a plain prefix is looked for at their start, and any other pattern is
      matched on the decoded text. */
  predicate RouteMatches(pattern: string, cell: seq<Byte>) {
    match RouteOf(pattern)
    case Exact => cell == Encode(pattern)
    case PrefixRange(prefix) => Encode(prefix) <= cell
    case General => Matches(pattern, DecodeReplacing(cell))
  }

  /** The routes do what the wildcard matcher does to the decoded text of this cell. */
  ghost predicate RouteAgrees(pattern: string, cell: seq<Byte>) {
    RouteMatches(pattern, cell) <==> Matches(pattern, DecodeReplacing(cell))
  }

  /** On well-formed text every route is the reference matcher. */
  lemma RoutesAgree(pattern: string, text: string)
    ensures DecodeReplacing(Encode(text)) == text && RouteAgrees(pattern, Encode(text))
  {
    ReplacingKeepsText(text, []);
    assert Encode(text) + [] == Encode(text) && text + "" == text;
    RouteIsExactlyFor(pattern);
    match RouteOf(pattern)
    case Exact =>
      PlainMatchesItself(pattern, text);
      if Encode(text) == Encode(pattern) {
        EncodeInjective(text, pattern);
      }
    case PrefixRange(prefix) =>
      PrefixPatternMatchesPrefix(prefix, text);
      EncodeKeepsPrefixes(prefix, text);
    case General =>
  }

  /** A pattern without the replacement character is matched on any bytes as on their text. */
  lemma PlainPatternsAgree(pattern: string, cell: seq<Byte>)
    requires REPLACEMENT !in pattern
    ensures RouteAgrees(pattern, cell)
  {
    RouteIsExactlyFor(pattern);
    match RouteOf(pattern)
    case Exact =>
      PlainMatchesItself(pattern, DecodeReplacing(cell));
      if cell == Encode(pattern) {
        RoutesAgree(pattern, pattern);
      }
      if DecodeReplacing(cell) == pattern {
        ReplacingIsExact(cell);
      }
    case PrefixRange(prefix) =>
      assert prefix <= pattern;
      PrefixPatternMatchesPrefix(prefix, DecodeReplacing(cell));
      ReplacingKeepsPrefixes(prefix, cell);
    case General =>
  }

  /** The bytes of a text with 0xFF for its replacement character number `at`. */
  function Damaged(text: string, at: nat): seq<Byte>
    requires at < |text|
  {
    Encode(text[..at]) + ([0xFF] + Encode(text[at + 1..]))
  }

  lemma DamagedByte(after: string)
    ensures DecodeReplacing([0xFF] + Encode(after)) == [REPLACEMENT] + after
  {
    var x := [0xFF] + Encode(after);
    assert x[1..] == Encode(after) && DecodeChar(x).None? && Skipped(x) == 1;
    RoutesAgree(after, after);
  }

  lemma DamagedIsShorter(before: string, after: string)
    ensures |Encode(before) + ([0xFF] + Encode(after))| < |Encode(before + ([REPLACEMENT] + after))|
  {
    EncodeAppends(before, [REPLACEMENT] + after);
    assert ([REPLACEMENT] + after)[1..] == after;
  }

  /** They are decoded to that text, but there are fewer of them. */
  lemma DamagedReads(text: string, at: nat)
    requires at < |text| && text[at] == REPLACEMENT
    ensures DecodeReplacing(Damaged(text, at)) == text && |Damaged(text, at)| < |Encode(text)|
  {
    var before, after := text[..at], text[at + 1..];
    assert text == before + ([REPLACEMENT] + after);
    DamagedByte(after);
    DamagedIsShorter(before, after);
    ReplacingKeepsText(before, [0xFF] + Encode(after));
  }

  /** Where the pattern is plain, or plain up to a last '%', a replacement character in it is
      found in the text of bytes on which the routes that compare bytes find nothing. */
  lemma DamagedDisagrees(pattern: string, at: nat)
    requires !RouteOf(pattern).General? && at < |pattern| && pattern[at] == REPLACEMENT
    ensures var text := if RouteOf(pattern).PrefixRange? then RouteOf(pattern).prefix else pattern;
            at < |text| && text[at] == REPLACEMENT &&
            Matches(pattern, DecodeReplacing(Damaged(text, at))) && !RouteMatches(pattern, Damaged(text, at))
  {
    RouteIsExactlyFor(pattern);
    match RouteOf(pattern)
    case Exact =>
      DamagedReads(pattern, at);
      PlainMatchesItself(pattern, pattern);
    case PrefixRange(prefix) =>
      DamagedReads(prefix, at);
      PrefixPatternMatchesPrefix(prefix, prefix);
  }

  /** Which patterns are matched alike on all bytes, well formed or not: those that go to the
      matcher, and those without the replacement character. */
  lemma RoutesAgreeExactly(pattern: string)
    ensures (forall cell :: RouteAgrees(pattern, cell)) <==> RouteOf(pattern).General? || REPLACEMENT !in pattern
  {
    if !RouteOf(pattern).General? {
      if REPLACEMENT in pattern {
        var at :| 0 <= at < |pattern| && pattern[at] == REPLACEMENT;
        DamagedDisagrees(pattern, at);
        var text := if RouteOf(pattern).PrefixRange? then RouteOf(pattern).prefix else pattern;
        assert !RouteAgrees(pattern, Damaged(text, at));
      } else {
        forall cell ensures RouteAgrees(pattern, cell) {
          PlainPatternsAgree(pattern, cell);
        }
      }
    }
  }

  /** The smallest case: the pattern U+FFFD on the byte 0xFF, which is decoded to U+FFFD. */
  lemma RoutesDifferOnOtherBytes()
    ensures DecodeReplacing([0xFF]) == [REPLACEMENT]
    ensures Matches([REPLACEMENT], DecodeReplacing([0xFF])) && !RouteMatches([REPLACEMENT], [0xFF])
  {
    var p := [REPLACEMENT];
    assert Damaged(p, 0) == [0xFF];
    DamagedReads(p, 0);
    assert Plain(p);
    RouteIsExactlyFor(p);
    DamagedDisagrees(p, 0);
  }
}
