/** The canonical query string a request is signed over: two requests have the same one exactly
    if they have the same parameters, in any order. */
module CanonicalQuery {
  import opened Wrappers
  import opened Order
  import opened Sorting
  import opened Utf8

  /** A parameter's name and value. */
  type Pair = (string, string)

  // --- Percent-encoding ---------------------------------------------------------------------------

  /** The unreserved characters of section 2.3 of RFC 3986. */
  predicate Unreserved(b: Byte) {
    || 'A' as int <= b <= 'Z' as int || 'a' as int <= b <= 'z' as int || '0' as int <= b <= '9' as int
    || b in {'-' as int, '_' as int, '.' as int, '~' as int}
  }

  function HexDigit(n: nat): char
    requires n < 16
  {
    "0123456789ABCDEF"[n]
  }

  function QuoteByte(b: Byte): (r: string)
    ensures r != "" && '&' !in r && '=' !in r
  {
    if Unreserved(b) then [b as char] else ['%', HexDigit(b / 16), HexDigit(b % 16)]
  }

  function QuoteBytes(bytes: seq<Byte>): (r: string)
    ensures '&' !in r && '=' !in r
  {
    if bytes == [] then "" else QuoteByte(bytes[0]) + QuoteBytes(bytes[1..])
  }

  /** `quote(s, safe="-_.~")` */
  function Quote(s: string): (r: string)
    ensures '&' !in r && '=' !in r
  {
    QuoteBytes(Encode(s))
  }

  lemma HexDigitsDiffer(m: nat, n: nat)
    requires m < 16 && n < 16 && HexDigit(m) == HexDigit(n)
    ensures m == n
  {}

  /** What follows a quoted byte does not change which byte it is. */
  lemma FirstByteDecided(a: Byte, b: Byte, x: string, y: string)
    requires QuoteByte(a) + x == QuoteByte(b) + y
    ensures a == b && x == y
  {
    var s, t := QuoteByte(a) + x, QuoteByte(b) + y;
    assert s[0] == t[0];
    assert Unreserved(a) <==> Unreserved(b);
    if Unreserved(a) {
      assert s[1..] == x && t[1..] == y;
    } else {
      assert s[1] == t[1] && s[2] == t[2];
      HexDigitsDiffer(a / 16, b / 16);
      HexDigitsDiffer(a % 16, b % 16);
      assert s[3..] == x && t[3..] == y;
    }
  }

  lemma {:induction false} QuoteBytesInjective(a: seq<Byte>, b: seq<Byte>)
    requires QuoteBytes(a) == QuoteBytes(b)
    ensures a == b
  {
    if a != [] && b != [] {
      FirstByteDecided(a[0], b[0], QuoteBytes(a[1..]), QuoteBytes(b[1..]));
      QuoteBytesInjective(a[1..], b[1..]);
      assert a == [a[0]] + a[1..] && b == [b[0]] + b[1..];
    }
  }

  lemma QuoteInjective(a: string, b: string)
    ensures Quote(a) == Quote(b) <==> a == b
  {
    if Quote(a) == Quote(b) {
      QuoteBytesInjective(Encode(a), Encode(b));
      EncodeInjective(a, b);
    }
  }

  /** The value of an upper-case hexadecimal digit. */
  function HexValue(c: char): Option<nat> {
    if '0' <= c <= '9' then Some((c - '0') as nat) else if 'A' <= c <= 'F' then Some((c - 'A') as nat + 10) else None
  }

  /** Percent-decoding: unreserved characters stand for themselves, triplets for a byte. */
  function Unquote(s: string): Option<seq<Byte>>
    decreases |s|
  {
    if s == "" then Some([])
    else if s[0] as int < 256 && Unreserved(s[0] as int) then Joined([s[0] as int], Unquote(s[1..]))
    else if |s| < 3 || s[0] != '%' || HexValue(s[1]).None? || HexValue(s[2]).None? then None
    else
      var n := HexValue(s[1]).value * 16 + HexValue(s[2]).value;
      if n >= 256 || Unreserved(n) then None else Joined([n], Unquote(s[3..]))
  }

  function Joined(bytes: seq<Byte>, rest: Option<seq<Byte>>): Option<seq<Byte>> {
    if rest.None? then None else Some(bytes + rest.value)
  }

  lemma HexDigitReads(n: nat)
    requires n < 16
    ensures HexValue(HexDigit(n)) == Some(n)
  {}

  lemma UnquoteTriplet(b: Byte, s: string, rest: string)
    requires !Unreserved(b) && s == ['%', HexDigit(b / 16), HexDigit(b % 16)] + rest
    ensures Unquote(s) == Joined([b], Unquote(rest))
  {
    HexDigitReads(b / 16);
    HexDigitReads(b % 16);
    assert s[1] == HexDigit(b / 16) && s[2] == HexDigit(b % 16) && s[3..] == rest;
    TripletValue(b);
  }

  lemma TripletValue(b: Byte)
    ensures b == b / 16 * 16 + b % 16 && !Unreserved('%' as int)
  {}

  lemma UnquoteByte(b: Byte, rest: string)
    ensures Unquote(QuoteByte(b) + rest) == Joined([b], Unquote(rest))
  {
    var s := QuoteByte(b) + rest;
    if Unreserved(b) {
      assert s[0] as int == b && s[1..] == rest;
    } else {
      UnquoteTriplet(b, s, rest);
    }
  }

  lemma {:induction false} UnquoteUndoesQuoteBytes(bytes: seq<Byte>)
    ensures Unquote(QuoteBytes(bytes)) == Some(bytes)
  {
    if bytes != [] {
      UnquoteUndoesQuoteBytes(bytes[1..]);
      UnquoteByte(bytes[0], QuoteBytes(bytes[1..]));
      assert bytes == [bytes[0]] + bytes[1..];
    }
  }

  /** Decoding a quoted text gives its UTF-8 bytes, with nothing quoted that need not be. */
  lemma UnquoteUndoesQuote(s: string)
    ensures Unquote(Quote(s)) == Some(Encode(s))
  {
    UnquoteUndoesQuoteBytes(Encode(s));
  }

  /** The letters, the digits and four marks. */
  predicate StaysPlain(c: char) {
    'A' <= c <= 'Z' || 'a' <= c <= 'z' || '0' <= c <= '9' || c in {'-', '_', '.', '~'}
  }

  lemma QuoteAppend(a: seq<Byte>, b: seq<Byte>)
    ensures QuoteBytes(a + b) == QuoteBytes(a) + QuoteBytes(b)
    decreases |a|
  {
    if a == [] {
      assert a + b == b;
    } else {
      assert (a + b)[1..] == a[1..] + b;
      QuoteAppend(a[1..], b);
    }
  }

  lemma QuoteChar(c: char)
    ensures var q := QuoteBytes(EncodeChar(c)); if StaysPlain(c) then q == [c] else |q| >= 3
  {
    var bytes := EncodeChar(c);
    if |bytes| == 1 {
      assert bytes[1..] == [] && (StaysPlain(c) <==> Unreserved(c as int));
    } else {
      assert !Unreserved(bytes[0]);
    }
  }

  /** A text stays as it is exactly if it has only unreserved characters; otherwise it gets longer. */
  lemma {:induction false} UnreservedStays(s: string)
    ensures if forall c :: c in s ==> StaysPlain(c) then Quote(s) == s else |Quote(s)| > |s|
  {
    if s != "" {
      UnreservedStays(s[1..]);
      QuoteChar(s[0]);
      QuoteAppend(EncodeChar(s[0]), Encode(s[1..]));
      assert s == [s[0]] + s[1..];
    }
  }

  // --- Joining ------------------------------------------------------------------------------------

  function Written(p: Pair): string { p.0 + ("=" + p.1) }

  /** `"&".join(...)` */
  function Join(pairs: seq<Pair>): string {
    if pairs == [] then ""
    else if |pairs| == 1 then Written(pairs[0])
    else Written(pairs[0]) + ("&" + Join(pairs[1..]))
  }

  predicate Plain(p: Pair) { '&' !in p.0 && '=' !in p.0 && '&' !in p.1 && '=' !in p.1 }

  /** `s.find(c)`, or the length of `s` if it is not found. */
  function Until(s: string, c: char): (n: nat)
    ensures n <= |s|
  {
    if s == "" || s[0] == c then 0 else 1 + Until(s[1..], c)
  }

  lemma {:induction false} UntilStop(a: string, rest: string, c: char)
    requires c !in a && (rest == "" || rest[0] == c)
    ensures Until(a + rest, c) == |a|
    decreases |a|
  {
    if a == "" {
      assert a + rest == rest;
    } else {
      assert (a + rest)[1..] == a[1..] + rest;
      UntilStop(a[1..], rest, c);
    }
  }

  /** What a reader makes of a query: fields between "&", each a name and a value around "=". */
  function Fields(s: string): seq<Pair>
    decreases |s|
  {
    var n := Until(s, '&');
    if n == |s| then [FieldOf(s)] else [FieldOf(s[..n])] + Fields(s[n + 1..])
  }

  function FieldOf(s: string): Pair {
    var n := Until(s, '=');
    (s[..n], if n < |s| then s[n + 1..] else "")
  }

  lemma WrittenIsPlain(p: Pair)
    requires Plain(p)
    ensures '&' !in Written(p)
  {
    assert '&' !in "=" + p.1;
  }

  lemma FieldBack(p: Pair)
    requires Plain(p)
    ensures FieldOf(Written(p)) == p
  {
    UntilStop(p.0, "=" + p.1, '=');
    assert Written(p)[..|p.0|] == p.0 && Written(p)[|p.0| + 1..] == p.1;
  }

  lemma OneField(text: string)
    requires '&' !in text
    ensures Fields(text) == [FieldOf(text)]
  {
    UntilStop(text, "", '&');
    assert text + "" == text;
  }

  lemma FieldThen(text: string, rest: string)
    requires '&' !in text
    ensures Fields(text + ("&" + rest)) == [FieldOf(text)] + Fields(rest)
  {
    var whole := text + ("&" + rest);
    UntilStop(text, "&" + rest, '&');
    assert whole[..|text|] == text && whole[|text| + 1..] == rest;
  }

  /** Plain names and values are read back as they were joined. */
  lemma {:induction false} FieldsBack(pairs: seq<Pair>)
    requires pairs != [] && forall p :: p in pairs ==> Plain(p)
    ensures Fields(Join(pairs)) == pairs
  {
    var text := Written(pairs[0]);
    WrittenIsPlain(pairs[0]);
    FieldBack(pairs[0]);
    if |pairs| == 1 {
      OneField(text);
    } else {
      FieldThen(text, Join(pairs[1..]));
      FieldsBack(pairs[1..]);
      assert pairs == [pairs[0]] + pairs[1..];
    }
  }

  lemma JoinInjective(a: seq<Pair>, b: seq<Pair>)
    requires (forall p :: p in a ==> Plain(p)) && (forall p :: p in b ==> Plain(p))
    requires Join(a) == Join(b)
    ensures a == b
  {
    assert a != [] ==> '=' in Written(a[0]) && '=' in Join(a);
    assert b != [] ==> '=' in Written(b[0]) && '=' in Join(b);
    if a != [] && b != [] {
      FieldsBack(a);
      FieldsBack(b);
    }
  }

  // --- The canonical query ----------------------------------------------------------------------

  function QuotePair(p: Pair): (r: Pair)
    ensures Plain(r)
  {
    (Quote(p.0), Quote(p.1))
  }

  function QuoteAll(pairs: seq<Pair>): (r: seq<Pair>)
    ensures forall p :: p in r ==> Plain(p)
  {
    if pairs == [] then [] else [QuotePair(pairs[0])] + QuoteAll(pairs[1..])
  }

  /** Python's order on pairs. */
  predicate PairBefore(a: Pair, b: Pair) { Before(a.0, b.0) || (a.0 == b.0 && Before(a.1, b.1)) }

  function Canonical(pairs: seq<Pair>): string { Join(Sort(PairBefore, QuoteAll(pairs))) }

  lemma PairsAreOrdered()
    ensures TotalOrder(PairBefore)
  {
    BeforeIsTotal();
  }

  lemma QuotePairInjective(p: Pair, q: Pair)
    ensures QuotePair(p) == QuotePair(q) <==> p == q
  {
    QuoteInjective(p.0, q.0);
    QuoteInjective(p.1, q.1);
  }

  /** Quoting a list counts every pair as often as the list does. */
  lemma {:induction false} QuotedCounts(pairs: seq<Pair>, p: Pair)
    ensures multiset(QuoteAll(pairs))[QuotePair(p)] == multiset(pairs)[p]
  {
    if pairs != [] {
      QuotedCounts(pairs[1..], p);
      QuotePairInjective(pairs[0], p);
      assert pairs == [pairs[0]] + pairs[1..];
    }
  }

  lemma {:induction false} QuotedComesFrom(pairs: seq<Pair>, q: Pair)
    requires q in QuoteAll(pairs)
    ensures exists p :: p in pairs && QuotePair(p) == q
  {
    if q == QuotePair(pairs[0]) {
      assert pairs[0] in pairs;
    } else {
      QuotedComesFrom(pairs[1..], q);
      var p :| p in pairs[1..] && QuotePair(p) == q;
      assert p in pairs;
    }
  }

  lemma QuotedKeepsPermutations(a: seq<Pair>, b: seq<Pair>)
    ensures multiset(QuoteAll(a)) == multiset(QuoteAll(b)) <==> multiset(a) == multiset(b)
  {
    if multiset(QuoteAll(a)) == multiset(QuoteAll(b)) {
      forall p ensures multiset(a)[p] == multiset(b)[p] {
        QuotedCounts(a, p);
        QuotedCounts(b, p);
      }
    }
    if multiset(a) == multiset(b) {
      forall q ensures multiset(QuoteAll(a))[q] == multiset(QuoteAll(b))[q] {
        if q in QuoteAll(a) {
          QuotedComesFrom(a, q);
        } else if q in QuoteAll(b) {
          QuotedComesFrom(b, q);
        }
        if p :| QuotePair(p) == q {
          QuotedCounts(a, p);
          QuotedCounts(b, p);
        }
      }
    }
  }

  /** Two parameter lists have the same canonical query exactly if one is a permutation of the
      other: sorting forgets the order, and nothing in a quoted name or value can be taken for
      the separators. */
  lemma CanonicalQueryIsFaithful(a: seq<Pair>, b: seq<Pair>)
    ensures Canonical(a) == Canonical(b) <==> multiset(a) == multiset(b)
  {
    var x, y := Sort(PairBefore, QuoteAll(a)), Sort(PairBefore, QuoteAll(b));
    QuotedKeepsPermutations(a, b);
    PairsAreOrdered();
    if multiset(a) == multiset(b) {
      SortOrders(PairBefore, QuoteAll(a));
      SortOrders(PairBefore, QuoteAll(b));
      OrderedUnique(PairBefore, x, y);
    }
    if Canonical(a) == Canonical(b) {
      SortKeepsMembers(QuoteAll(a));
      SortKeepsMembers(QuoteAll(b));
      JoinInjective(x, y);
    }
  }

  /** Names in order of code points, and values of equal names likewise. */
  ghost predicate Ascending(pairs: seq<Pair>) {
    forall i, j :: 0 <= i < j < |pairs| ==>
      (pairs[i].0 == pairs[j].0 || Before(pairs[i].0, pairs[j].0)) &&
      (pairs[i].0 == pairs[j].0 ==> pairs[i].1 == pairs[j].1 || Before(pairs[i].1, pairs[j].1))
  }

  lemma OrderedAscends(pairs: seq<Pair>)
    requires Ordered(PairBefore, pairs)
    ensures Ascending(pairs)
  {
    BeforeIsTotal();
    assert forall i, j :: 0 <= i < j < |pairs| ==> !PairBefore(pairs[j], pairs[i]);
  }

  /** The canonical query has the quoted parameters in ascending order of names and values, each as
      often as it was given, so that a reader gets exactly these fields. */
  lemma CanonicalIsSorted(pairs: seq<Pair>) returns (sorted: seq<Pair>)
    ensures multiset(sorted) == multiset(QuoteAll(pairs)) && Ascending(sorted)
    ensures Canonical(pairs) == Join(sorted)
    ensures if pairs == [] then Canonical(pairs) == "" else Fields(Canonical(pairs)) == sorted
  {
    sorted := Sort(PairBefore, QuoteAll(pairs));
    PairsAreOrdered();
    SortOrders(PairBefore, QuoteAll(pairs));
    OrderedAscends(sorted);
    SortKeepsMembers(QuoteAll(pairs));
    if pairs != [] {
      assert QuoteAll(pairs)[0] in sorted;
      FieldsBack(sorted);
    }
  }

  lemma SortKeepsMembers(pairs: seq<Pair>)
    ensures forall p :: p in Sort(PairBefore, pairs) <==> p in pairs
  {
    forall p ensures p in Sort(PairBefore, pairs) <==> p in pairs {
      assert p in multiset(Sort(PairBefore, pairs)) <==> p in multiset(pairs);
    }
  }
}
