/** Bytes and the UTF-8 encoding of text, with the two facts the program leans on:
    encoding keeps prefixes and it keeps code point order. */
module Utf8 {
  import opened Wrappers
  import opened Order

  type Byte = b: int | 0 <= b < 256

  /** The rank of a byte is its value. */
  function Rank(b: Byte): int { b }

  /** Python's `a < b` on bytes. */
  predicate BytesBefore(a: seq<Byte>, b: seq<Byte>) { Less(Rank, a, b) }

  /** The bytes of one character. */
  function EncodeChar(c: char): (r: seq<Byte>)
    ensures 1 <= |r| <= 4
  {
    var n := c as int;
    if n < 0x80 then [n]
    else if n < 0x800 then [0xC0 + n / 64, 0x80 + n % 64]
    else if n < 0x10000 then [0xE0 + n / 4096, 0x80 + (n / 64) % 64, 0x80 + n % 64]
    else [0xF0 + n / 262144, 0x80 + (n / 4096) % 64, 0x80 + (n / 64) % 64, 0x80 + n % 64]
  }

  /** Python's `s.encode("utf-8")`. */
  function Encode(s: string): seq<Byte> {
    if s == [] then [] else EncodeChar(s[0]) + Encode(s[1..])
  }

  /** The first byte tells how many bytes the character has. */
  function Width(lead: Byte): nat {
    if lead < 0x80 then 1 else if lead < 0xE0 then 2 else if lead < 0xF0 then 3 else 4
  }

  lemma LeadTellsWidth(c: char)
    ensures |EncodeChar(c)| == Width(EncodeChar(c)[0])
  {}

  lemma SplitDigits(n: nat)
    ensures n == (n / 64) * 64 + n % 64
    ensures n / 64 == (n / 4096) * 64 + (n / 64) % 64
    ensures n / 4096 == (n / 262144) * 64 + (n / 4096) % 64
  {
    assert n / 4096 == (n / 64) / 64;
    assert n / 262144 == (n / 4096) / 64;
  }

  lemma EncodeCharInjective(c: char, d: char)
    requires EncodeChar(c) == EncodeChar(d)
    ensures c == d
  {
    SplitDigits(c as int);
    SplitDigits(d as int);
    var x, y := EncodeChar(c), EncodeChar(d);
    assert |x| == |y|;
    assert x[0] == y[0];
    assert |x| > 1 ==> x[1] == y[1];
    assert |x| > 2 ==> x[2] == y[2];
    assert |x| > 3 ==> x[3] == y[3];
  }

  /** No character's bytes start another character's bytes, whatever follows. */
  lemma FirstCharDecided(c: char, d: char, x: seq<Byte>, y: seq<Byte>)
    requires EncodeChar(c) + x <= EncodeChar(d) + y
    ensures c == d && x <= y
  {
    var e, f := EncodeChar(c), EncodeChar(d);
    assert (e + x)[0] == (f + y)[0];
    LeadTellsWidth(c);
    LeadTellsWidth(d);
    assert e == (e + x)[..|e|] == (f + y)[..|f|] == f;
    EncodeCharInjective(c, d);
    assert (e + x)[|e|..] == x && (f + y)[|f|..] == y;
    assert (e + x)[|e|..] <= (f + y)[|e|..];
  }

  /** One text starts with another exactly when its bytes do. */
  lemma {:induction false} EncodeKeepsPrefixes(p: string, s: string)
    ensures p <= s <==> Encode(p) <= Encode(s)
    decreases |p|
  {
    if p != [] && s != [] {
      EncodeKeepsPrefixes(p[1..], s[1..]);
      if Encode(p) <= Encode(s) {
        FirstCharDecided(p[0], s[0], Encode(p[1..]), Encode(s[1..]));
        assert p == [p[0]] + p[1..] && s == [s[0]] + s[1..];
      }
      if p <= s {
        assert p[1..] <= s[1..];
        assert Encode(s) == Encode(p) + Encode(s[1..])[|Encode(p[1..])|..];
      }
    }
  }

  lemma EncodeInjective(a: string, b: string)
    requires Encode(a) == Encode(b)
    ensures a == b
  {
    EncodeKeepsPrefixes(a, b);
    EncodeKeepsPrefixes(b, a);
  }

  lemma {:induction false} EncodeAppends(a: string, b: string)
    ensures Encode(a + b) == Encode(a) + Encode(b)
    decreases |a|
  {
    if a == [] {
      assert a + b == b;
    } else {
      assert (a + b)[1..] == a[1..] + b;
      EncodeAppends(a[1..], b);
    }
  }

  lemma {:induction false} SharedHeadCancels(e: seq<Byte>, x: seq<Byte>, y: seq<Byte>)
    ensures BytesBefore(e + x, e + y) <==> BytesBefore(x, y)
    decreases |e|
  {
    if e == [] {
      assert e + x == x && e + y == y;
    } else {
      assert (e + x)[1..] == e[1..] + x && (e + y)[1..] == e[1..] + y;
      SharedHeadCancels(e[1..], x, y);
    }
  }

  /** A difference inside the first four bytes decides the order. */
  lemma DecidedAt(a: seq<Byte>, b: seq<Byte>, k: nat)
    requires k < 4 && k < |a| && k < |b|
    requires forall i :: 0 <= i < k ==> a[i] == b[i]
    requires a[k] < b[k]
    ensures BytesBefore(a, b)
    decreases k
  {
    if k > 0 {
      DecidedAt(a[1..], b[1..], k - 1);
    }
  }

  /** With the same first byte, the bytes after it order the characters. */
  lemma SameLead(c: char, d: char)
    requires c < d && EncodeChar(c)[0] == EncodeChar(d)[0]
    ensures 1 < |EncodeChar(c)| == |EncodeChar(d)|
    ensures var e, f := EncodeChar(c), EncodeChar(d);
            e[1] < f[1] || (e[1] == f[1] && |e| > 2 && (e[2] < f[2] || (e[2] == f[2] && |e| > 3 && e[3] < f[3])))
  {
    SplitDigits(c as int);
    SplitDigits(d as int);
    LeadTellsWidth(c);
    LeadTellsWidth(d);
  }

  lemma LeadIsOrdered(c: char, d: char)
    requires c < d
    ensures EncodeChar(c)[0] <= EncodeChar(d)[0]
  {}

  /** Where the bytes of two characters first differ, the smaller character is smaller. */
  lemma FirstDifference(c: char, d: char) returns (k: nat)
    requires c < d
    ensures k < |EncodeChar(c)| && k < |EncodeChar(d)|
    ensures EncodeChar(c)[..k] == EncodeChar(d)[..k] && EncodeChar(c)[k] < EncodeChar(d)[k]
  {
    var e, f := EncodeChar(c), EncodeChar(d);
    LeadIsOrdered(c, d);
    if e[0] != f[0] {
      k := 0;
    } else {
      SameLead(c, d);
      k := if e[1] != f[1] then 1 else if e[2] != f[2] then 2 else 3;
    }
  }

  lemma CharOrderKept(c: char, d: char, x: seq<Byte>, y: seq<Byte>)
    requires c < d
    ensures BytesBefore(EncodeChar(c) + x, EncodeChar(d) + y)
  {
    var e, f := EncodeChar(c), EncodeChar(d);
    var k := FirstDifference(c, d);
    assert forall i :: 0 <= i < k ==> e[i] == e[..k][i] == f[..k][i] == f[i];
    DecidedAt(e + x, f + y, k);
  }

  /** Code point order is the order of the UTF-8 bytes. */
  lemma {:induction false} EncodeKeepsOrder(a: string, b: string)
    ensures Before(a, b) <==> BytesBefore(Encode(a), Encode(b))
    decreases |a|
  {
    if a != [] && b != [] {
      if a[0] == b[0] {
        EncodeKeepsOrder(a[1..], b[1..]);
        SharedHeadCancels(EncodeChar(a[0]), Encode(a[1..]), Encode(b[1..]));
      } else if a[0] < b[0] {
        CharOrderKept(a[0], b[0], Encode(a[1..]), Encode(b[1..]));
      } else {
        CharOrderKept(b[0], a[0], Encode(b[1..]), Encode(a[1..]));
        Asymmetric(Rank, Encode(b), Encode(a));
      }
    }
  }

  // --- Decoding ------------------------------------------------------------------

  /** The number the leading bytes of `b` spell, whether or not they are well formed. */
  function Spelled(b: seq<Byte>): int
    requires b != [] && |b| >= Width(b[0])
  {
    var at := (i: int) requires 0 <= i < |b| => b[i] as int;
    match Width(b[0])
    case 1 => at(0)
    case 2 => (at(0) - 0xC0) * 64 + (at(1) - 0x80)
    case 3 => (at(0) - 0xE0) * 4096 + (at(1) - 0x80) * 64 + (at(2) - 0x80)
    case _ => (at(0) - 0xF0) * 262144 + (at(1) - 0x80) * 4096 + (at(2) - 0x80) * 64 + (at(3) - 0x80)
  }

  predicate IsScalarValue(n: int) { 0 <= n < 0xD800 || 0xE000 <= n < 0x11_0000 }

  /** The character `b` starts with, if it starts with one. */
  function DecodeChar(b: seq<Byte>): (r: Option<char>)
    ensures r.Some? ==> EncodeChar(r.value) <= b
  {
    if b == [] || |b| < Width(b[0]) || !IsScalarValue(Spelled(b)) then None
    else
      var c := Spelled(b) as char;
      if EncodeChar(c) <= b then Some(c) else None
  }

  /** Strict decoding; None for bytes that are not UTF-8. */
  function Decode(b: seq<Byte>): (r: Option<string>)
    ensures r.Some? ==> Encode(r.value) == b
    decreases |b|
  {
    if b == [] then Some("")
    else
      match DecodeChar(b)
      case None => None
      case Some(c) =>
        var k := |EncodeChar(c)|;
        assert b == EncodeChar(c) + b[k..];
        match Decode(b[k..])
        case None => None
        case Some(rest) => Some([c] + rest)
  }

  lemma DecodeCharOfEncoded(c: char, x: seq<Byte>)
    ensures DecodeChar(EncodeChar(c) + x) == Some(c)
  {
    var e := EncodeChar(c);
    var b := e + x;
    LeadTellsWidth(c);
    SplitDigits(c as int);
    assert e <= b && b[0] == e[0];
    assert Spelled(b) == Spelled(e);
    assert Spelled(e) == c as int;
  }

  lemma {:induction false} DecodeUndoesEncode(s: string)
    ensures Decode(Encode(s)) == Some(s)
  {
    if s != [] {
      var e, rest := EncodeChar(s[0]), Encode(s[1..]);
      DecodeCharOfEncoded(s[0], rest);
      assert (e + rest)[|e|..] == rest;
      DecodeUndoesEncode(s[1..]);
      assert s == [s[0]] + s[1..];
    }
  }

  // --- Decoding with replacement ---------------------------------------------------

  const REPLACEMENT: char := '\U{FFFD}'

  predicate Continues(b: Byte) { 0x80 <= b < 0xC0 }

  /** The second byte a sequence with this first byte can have. */
  predicate Second(lead: Byte, b: Byte) {
    Continues(b) &&
    (lead == 0xE0 ==> b >= 0xA0) && (lead == 0xED ==> b < 0xA0) &&
    (lead == 0xF0 ==> b >= 0x90) && (lead == 0xF4 ==> b < 0x90)
  }

  /** How many bytes one replacement character stands for: the longest start of a sequence that
      could still have become well formed, at least one byte. */
  function Skipped(b: seq<Byte>): (n: nat)
    requires b != []
    ensures 1 <= n <= |b|
  {
    if !(0xE0 <= b[0] < 0xF5) || |b| < 2 || !Second(b[0], b[1]) then 1
    else if b[0] < 0xF0 || |b| < 3 || !Continues(b[2]) then 2
    else 3
  }

  /** These bytes begin a character. */
  ghost predicate Begins(p: seq<Byte>) { exists c :: p <= EncodeChar(c) }

  lemma LaterBytes(c: char)
    ensures var e := EncodeChar(c);
            && (|e| >= 3 ==> 0xE0 <= e[0] < 0xF5 && Second(e[0], e[1]) && Continues(e[2]))
            && (|e| == 4 <==> e[0] >= 0xF0)
  {
    SplitDigits(c as int);
  }

  lemma DigitsOf(x: nat, y: nat, z: nat)
    requires y < 64 && z < 64
    ensures var n := x * 4096 + y * 64 + z; n / 4096 == x && n / 64 % 64 == y && n % 64 == z
  {
    var n := x * 4096 + y * 64 + z;
    assert n / 64 == x * 64 + y;
  }

  lemma BelowLead(lead: Byte, b: Byte)
    requires 0xE0 <= lead < 0xF0 && Second(lead, b)
    ensures Begins([lead, b])
  {
    var n := (lead - 0xE0) * 4096 + (b - 0x80) * 64 + 0;
    DigitsOf(lead - 0xE0, b - 0x80, 0);
    var e := EncodeChar(n as char);
    assert |e| == 3 && e[0] == lead && e[1] == b;
    assert [lead, b] == e[..2];
  }

  lemma ThreeBegin(lead: Byte, b: Byte, d: Byte)
    requires 0xF0 <= lead < 0xF5 && Second(lead, b) && Continues(d)
    ensures Begins([lead, b, d])
  {
    var m := (lead - 0xF0) * 4096 + (b - 0x80) * 64 + (d - 0x80);
    DigitsOf(lead - 0xF0, b - 0x80, d - 0x80);
    var n := m * 64;
    assert n / 64 == m && n / 4096 == m / 64 && n / 262144 == m / 4096;
    var e := EncodeChar(n as char);
    assert |e| == 4 && e[0] == lead && e[1] == b && e[2] == d;
    assert [lead, b, d] == e[..3];
  }

  lemma TwoBegin(lead: Byte, b: Byte)
    requires 0xE0 <= lead < 0xF5 && Second(lead, b)
    ensures Begins([lead, b])
  {
    if lead < 0xF0 {
      BelowLead(lead, b);
    } else {
      ThreeBegin(lead, b, 0x80);
      var c :| [lead, b, 0x80] <= EncodeChar(c);
      assert [lead, b] == EncodeChar(c)[..3][..2] == EncodeChar(c)[..2];
    }
  }

  /** One replacement character stands for the longest start of a character there is, or for one
      byte that begins none. */
  lemma SkippedIsLongest(b: seq<Byte>)
    requires b != [] && DecodeChar(b).None?
    ensures Skipped(b) == 1 || Begins(b[..Skipped(b)])
    ensures forall n :: Skipped(b) < n <= |b| ==> !Begins(b[..n])
  {
    if Skipped(b) == 2 {
      TwoBegin(b[0], b[1]);
      assert b[..2] == [b[0], b[1]];
    } else if Skipped(b) == 3 {
      ThreeBegin(b[0], b[1], b[2]);
      assert b[..3] == [b[0], b[1], b[2]];
    }
    forall n | Skipped(b) < n <= |b| ensures !Begins(b[..n]) {
      if Begins(b[..n]) { WholeCharacter(b, n); }
    }
  }

  /** A longer start would be a whole character. */
  lemma WholeCharacter(b: seq<Byte>, n: nat)
    requires b != [] && Skipped(b) < n <= |b| && Begins(b[..n])
    ensures DecodeChar(b).Some?
  {
    var c :| b[..n] <= EncodeChar(c);
    var e := EncodeChar(c);
    assert forall i :: 0 <= i < n ==> e[i] == b[..n][i] == b[i];
    LaterBytes(c);
    if |e| == n {
      assert b == e + b[n..];
      DecodeCharOfEncoded(c, b[n..]);
    }
  }

  /** Python's `b.decode("utf-8", "replace")`. */
  function DecodeReplacing(b: seq<Byte>): string
    decreases |b|
  {
    if b == [] then ""
    else
      var c := DecodeChar(b);
      if c.Some? then [c.value] + DecodeReplacing(b[|EncodeChar(c.value)|..])
      else [REPLACEMENT] + DecodeReplacing(b[Skipped(b)..])
  }

  lemma ReplacingChar(c: char, x: seq<Byte>)
    ensures DecodeReplacing(EncodeChar(c) + x) == [c] + DecodeReplacing(x)
  {
    DecodeCharOfEncoded(c, x);
    assert (EncodeChar(c) + x)[|EncodeChar(c)|..] == x;
  }

  lemma Regroup<T>(a: seq<T>, b: seq<T>, c: seq<T>)
    ensures (a + b) + c == a + (b + c)
  {}

  /** Text is decoded as it is, whatever follows it. */
  lemma {:induction false} ReplacingKeepsText(s: string, x: seq<Byte>)
    ensures DecodeReplacing(Encode(s) + x) == s + DecodeReplacing(x)
    decreases |s|
  {
    if s == "" {
      assert Encode(s) + x == x;
    } else {
      var rest := Encode(s[1..]);
      Regroup(EncodeChar(s[0]), rest, x);
      ReplacingChar(s[0], rest + x);
      ReplacingKeepsText(s[1..], x);
      Regroup([s[0]], s[1..], DecodeReplacing(x));
      assert s == [s[0]] + s[1..];
    }
  }

  /** A text without replacement characters starts the decoded bytes exactly if its bytes start
      the bytes. */
  lemma {:induction false} ReplacingKeepsPrefixes(p: string, b: seq<Byte>)
    requires REPLACEMENT !in p
    ensures p <= DecodeReplacing(b) <==> Encode(p) <= b
    decreases |p|
  {
    if p != "" {
      var c, e := p[0], EncodeChar(p[0]);
      assert c in p && p == [c] + p[1..];
      if e <= b {
        var x := b[|e|..];
        assert b == e + x;
        ReplacingChar(c, x);
        ReplacingKeepsPrefixes(p[1..], x);
        assert Encode(p) <= b <==> Encode(p[1..]) <= x by { SharedStart(e, Encode(p[1..]), x); }
        SharedStart([c], p[1..], DecodeReplacing(x));
      } else {
        assert e <= Encode(p);
        assert b != [] ==> DecodeReplacing(b)[0] != c;
      }
    }
  }

  lemma SharedStart<T>(e: seq<T>, x: seq<T>, y: seq<T>)
    ensures e + x <= e + y <==> x <= y
  {
    assert (e + x)[|e|..] == x && (e + y)[|e|..] == y;
    if e + x <= e + y {
      assert (e + x)[|e|..] <= (e + y)[|e|..];
    }
  }

  /** Bytes that decode without a replacement character are the bytes of the decoded text. */
  lemma {:induction false} ReplacingIsExact(b: seq<Byte>)
    requires REPLACEMENT !in DecodeReplacing(b)
    ensures Encode(DecodeReplacing(b)) == b
    decreases |b|
  {
    if b != [] {
      var c := DecodeChar(b);
      assert DecodeReplacing(b)[0] in DecodeReplacing(b);
      var rest := b[|EncodeChar(c.value)|..];
      assert DecodeReplacing(b)[1..] == DecodeReplacing(rest);
      ReplacingIsExact(rest);
      assert b == EncodeChar(c.value) + rest;
    }
  }
}
