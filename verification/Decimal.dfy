/** Decimal numerals of natural numbers and integers, as Python writes and reads them. */
module Decimal {

  predicate IsDigit(c: char) { '0' <= c <= '9' }

  function DigitOf(n: nat): (c: char)
    requires n < 10
    ensures IsDigit(c)
  {
    '0' + n as char
  }

  function ValueOf(c: char): nat
    requires IsDigit(c)
  {
    (c - '0') as int
  }

  predicate AllDigits(s: string) { forall i :: 0 <= i < |s| ==> IsDigit(s[i]) }

  /** `str(n)` */
  function Show(n: nat): (s: string)
    ensures s != "" && AllDigits(s)
  {
    if n < 10 then [DigitOf(n)] else Show(n / 10) + [DigitOf(n % 10)]
  }

  /** `int(s)` on a run of digits; leading zeros are allowed. */
  function Read(s: string): nat
    requires AllDigits(s)
  {
    if s == "" then 0 else Read(s[..|s| - 1]) * 10 + ValueOf(s[|s| - 1])
  }

  lemma {:induction false} ReadUndoesShow(n: nat)
    ensures Read(Show(n)) == n
  {
    if n < 10 {
      assert Show(n)[..0] == "";
    } else {
      ReadUndoesShow(n / 10);
      var s := Show(n);
      assert s[..|s| - 1] == Show(n / 10) && s[|s| - 1] == DigitOf(n % 10);
    }
  }

  /** A number with zeros before it. */
  function Padded(n: nat, zeros: nat): (s: string)
    ensures s != "" && AllDigits(s)
  {
    if zeros == 0 then Show(n) else "0" + Padded(n, zeros - 1)
  }

  lemma {:induction false} ZeroFirst(s: string)
    requires AllDigits(s)
    ensures AllDigits("0" + s) && Read("0" + s) == Read(s)
    decreases |s|
  {
    if s == "" {
      assert ("0" + s)[..0] == "";
    } else {
      var n := |s| - 1;
      ZeroFirst(s[..n]);
      assert ("0" + s)[..|s|] == "0" + s[..n] && ("0" + s)[|s|] == s[n];
    }
  }

  /** Zeros before a number do not change it. */
  lemma {:induction false} ReadUndoesPadding(n: nat, zeros: nat)
    ensures Read(Padded(n, zeros)) == n
  {
    if zeros == 0 {
      ReadUndoesShow(n);
    } else {
      ReadUndoesPadding(n, zeros - 1);
      ZeroFirst(Padded(n, zeros - 1));
    }
  }

  lemma {:induction false} ShowUndoesRead(s: string)
    requires s != "" && AllDigits(s) && s[0] != '0'
    ensures Read(s) > 0 && Show(Read(s)) == s
    decreases |s|
  {
    var n := |s| - 1;
    assert Read(s) == Read(s[..n]) * 10 + ValueOf(s[n]);
    if n == 0 {
      assert s[..0] == "" && s == [DigitOf(ValueOf(s[0]))];
    } else {
      ShowUndoesRead(s[..n]);
      assert Read(s) / 10 == Read(s[..n]) && Read(s) % 10 == ValueOf(s[n]);
      assert s == s[..n] + [s[n]];
    }
  }

  /** Every run of digits is its number, with the zeros before it. */
  lemma {:induction false} PaddingUndoesRead(s: string) returns (zeros: nat)
    requires s != "" && AllDigits(s)
    ensures Padded(Read(s), zeros) == s
    decreases |s|
  {
    if s[0] != '0' {
      ShowUndoesRead(s);
      zeros := 0;
    } else if |s| == 1 {
      assert s == "0" && s[..0] == "";
      zeros := 0;
    } else {
      assert s == "0" + s[1..];
      ZeroFirst(s[1..]);
      zeros := PaddingUndoesRead(s[1..]);
      zeros := zeros + 1;
    }
  }
}
