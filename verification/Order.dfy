/** Lexicographic order of sequences, as Python orders `str` (by code point) and
    `bytes` (by byte value). `ord` gives the rank of one element. */
module Order {

  predicate Less<T(==)>(ord: T -> int, a: seq<T>, b: seq<T>)
    decreases |a|
  {
    if b == [] then false
    else if a == [] then true
    else ord(a[0]) < ord(b[0]) || (a[0] == b[0] && Less(ord, a[1..], b[1..]))
  }

  ghost predicate Injective<T(!new)>(ord: T -> int) {
    forall x, y :: ord(x) == ord(y) ==> x == y
  }

  lemma {:induction false} Irreflexive<T>(ord: T -> int, a: seq<T>)
    ensures !Less(ord, a, a)
  {
    if a != [] {
      Irreflexive(ord, a[1..]);
    }
  }

  lemma {:induction false} Transitive<T>(ord: T -> int, a: seq<T>, b: seq<T>, c: seq<T>)
    requires Less(ord, a, b) && Less(ord, b, c)
    ensures Less(ord, a, c)
    decreases |a|
  {
    if a != [] && a[0] == b[0] == c[0] {
      Transitive(ord, a[1..], b[1..], c[1..]);
    }
  }

  lemma {:induction false} Total<T(!new)>(ord: T -> int, a: seq<T>, b: seq<T>)
    requires Injective(ord)
    ensures Less(ord, a, b) || a == b || Less(ord, b, a)
    decreases |a|
  {
    if a != [] && b != [] {
      if a[0] == b[0] {
        Total(ord, a[1..], b[1..]);
        assert a == [a[0]] + a[1..] && b == [b[0]] + b[1..];
      } else {
        assert ord(a[0]) != ord(b[0]);
      }
    }
  }

  lemma Asymmetric<T>(ord: T -> int, a: seq<T>, b: seq<T>)
    requires Less(ord, a, b)
    ensures !Less(ord, b, a) && a != b
  {
    Irreflexive(ord, a);
    if Less(ord, b, a) {
      Transitive(ord, a, b, a);
    }
  }

  /** A sequence is below every proper extension of itself. */
  lemma {:induction false} ExtensionIsAbove<T>(ord: T -> int, p: seq<T>, s: seq<T>)
    requires p <= s && p != s
    ensures Less(ord, p, s)
    decreases |p|
  {
    if p != [] {
      assert p[1..] <= s[1..] && p[0] == s[0];
      assert s == [s[0]] + s[1..] && p == [p[0]] + p[1..];
      ExtensionIsAbove(ord, p[1..], s[1..]);
    }
  }

  /** Everything between a prefix and one of its extensions has that prefix too. */
  lemma {:induction false} PrefixInterval<T>(ord: T -> int, p: seq<T>, a: seq<T>, b: seq<T>)
    requires p <= b
    requires p == a || Less(ord, p, a)
    requires a == b || Less(ord, a, b)
    ensures p <= a
    decreases |p|
  {
    if p != [] {
      if p == a || a == b { return; }
      assert a[0] == p[0] == b[0] by {
        assert p[0] == b[0];
      }
      assert p[1..] <= b[1..];
      PrefixInterval(ord, p[1..], a[1..], b[1..]);
      assert a == [a[0]] + a[1..] && p == [p[0]] + p[1..];
    }
  }

  /** At `i` the first difference is: `a` ends there, or has the lower element. */
  predicate DiffersAt<T(==)>(ord: T -> int, a: seq<T>, b: seq<T>, i: nat) {
    i <= |a| && i < |b| && a[..i] == b[..i] && (i == |a| || ord(a[i]) < ord(b[i]))
  }

  /** Of two sequences the first is below the other exactly if it is where they first differ. */
  lemma {:induction false} FirstDifference<T>(ord: T -> int, a: seq<T>, b: seq<T>)
    ensures Less(ord, a, b) <==> exists i :: DiffersAt(ord, a, b, i)
    decreases |a|
  {
    if a == [] && b != [] {
      assert DiffersAt(ord, a, b, 0);
    } else if a != [] && b != [] {
      if ord(a[0]) < ord(b[0]) { assert DiffersAt(ord, a, b, 0); }
      FirstDifference(ord, a[1..], b[1..]);
      if a[0] == b[0] && Less(ord, a[1..], b[1..]) {
        var i: nat :| DiffersAt(ord, a[1..], b[1..], i);
        assert a[..i + 1] == [a[0]] + a[1..][..i] && b[..i + 1] == [b[0]] + b[1..][..i];
        assert DiffersAt(ord, a, b, i + 1);
      }
      if i: nat :| DiffersAt(ord, a, b, i) {
        if i > 0 {
          assert a[0] == a[..i][0] == b[..i][0] == b[0];
          assert a[1..][..i - 1] == a[..i][1..] && b[1..][..i - 1] == b[..i][1..];
          assert DiffersAt(ord, a[1..], b[1..], i - 1);
        }
      }
    }
  }

  /** The rank of a character is its code point. */
  function Code(c: char): int { c as int }

  lemma CodeInjective()
    ensures Injective(Code)
  {}

  /** Python's `a < b` on strings. */
  predicate Before(a: string, b: string) { Less(Code, a, b) }

  ghost predicate StrictlySorted(s: seq<string>) {
    forall i, j :: 0 <= i < j < |s| ==> Before(s[i], s[j])
  }

  /** A strictly sorted list is determined by its members. */
  lemma {:induction false} SortedUnique(a: seq<string>, b: seq<string>)
    requires StrictlySorted(a) && StrictlySorted(b)
    requires forall x :: x in a <==> x in b
    ensures a == b
    decreases |a|
  {
    assert a != [] ==> a[0] in a;
    assert b != [] ==> b[0] in b;
    if a != [] && b != [] {
      HeadsAgree(a, b);
      assert forall x :: x in a[1..] <==> x in a && x != a[0] by { TailMembers(a); }
      assert forall x :: x in b[1..] <==> x in b && x != b[0] by { TailMembers(b); }
      SortedUnique(a[1..], b[1..]);
      assert a == [a[0]] + a[1..] && b == [b[0]] + b[1..];
    }
  }

  lemma HeadsAgree(a: seq<string>, b: seq<string>)
    requires a != [] && b != [] && StrictlySorted(a) && StrictlySorted(b)
    requires forall x :: x in a <==> x in b
    ensures a[0] == b[0]
  {
    assert a[0] in b && b[0] in a;
    if a[0] != b[0] {
      Asymmetric(Code, a[0], b[0]);
    }
  }

  lemma TailMembers(a: seq<string>)
    requires a != [] && StrictlySorted(a)
    ensures forall x :: x in a[1..] <==> x in a && x != a[0]
  {
    forall x | x in a[1..] ensures x in a && x != a[0] {
      var i :| 1 <= i < |a| && a[i] == x;
      Asymmetric(Code, a[0], a[i]);
    }
    forall x | x in a && x != a[0] ensures x in a[1..] {
      var i :| 0 <= i < |a| && a[i] == x;
      assert a[1..][i - 1] == x;
    }
  }
}
