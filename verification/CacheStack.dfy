/** The LRU stack property: with no expiry and objects that do not change, the cache holds
    exactly the longest most-recent-first run of small objects read that fits. */
module CacheStack {
  import opened Wrappers
  import opened CacheModel

  /** Everything a run of reads depends on besides the reads. */
  datatype Setting = Setting(store: Store, maxBytes: nat) {
    predicate Cacheable(n: Name) { n in store && |store[n]| <= maxBytes / 4 }
    function Size(n: Name): nat { if n in store then |store[n]| else 0 }
  }

  /** One read, full or of a range, and when its steps look at the clock. */
  datatype Access = Access(name: Name, range: Option<ByteRange>, times: Times) {
    predicate Valid() { range.Some? ==> range.value.Valid() }
  }

  /** The cache after a run of reads, from empty, with entries that never expire. */
  function After(s: Setting, run: seq<Access>): Read
    requires forall i :: 0 <= i < |run| ==> run[i].Valid()
  {
    if run == [] then Read([], [], None)
    else
      var n := |run| - 1;
      var before := After(s, run[..n]);
      assert run[n].Valid();
      Served(before.data, before.heads, run[n].name, run[n].range, 0.0, s.maxBytes, run[n].times, s.store, s.store)
  }

  // --- The reference: recency and the run that fits --------------------------------------------

  function Minus(names: seq<Name>, n: Name): (r: seq<Name>)
    ensures forall x :: x in r <==> x in names && x != n
  {
    if names == [] then [] else (if names[0] == n then [] else [names[0]]) + Minus(names[1..], n)
  }

  /** The cacheable objects read, each once, the most recently read first. */
  function Recency(s: Setting, run: seq<Access>): seq<Name> {
    if run == [] then []
    else
      var n := |run| - 1;
      var before := Recency(s, run[..n]);
      if s.Cacheable(run[n].name) then [run[n].name] + Minus(before, run[n].name) else before
  }

  /** The longest run from the front whose sizes fit. */
  function Fitting(s: Setting, names: seq<Name>, budget: int): seq<Name> {
    if names == [] || s.Size(names[0]) > budget then []
    else [names[0]] + Fitting(s, names[1..], budget - s.Size(names[0]))
  }

  /** The cached names, newest first. */
  function Newest(d: seq<Entry>): seq<Name> {
    if d == [] then [] else Newest(d[1..]) + [d[0].name]
  }

  ghost predicate Unique(names: seq<Name>) { forall i, j :: 0 <= i < j < |names| ==> names[i] != names[j] }

  // --- Facts about runs that fit ------------------------------------------------------------------

  function Sum(s: Setting, names: seq<Name>): nat {
    if names == [] then 0 else s.Size(names[0]) + Sum(s, names[1..])
  }

  lemma {:induction false} FittingIsAll(s: Setting, names: seq<Name>, budget: int)
    requires Sum(s, names) <= budget
    ensures Fitting(s, names, budget) == names
  {
    if names != [] {
      FittingIsAll(s, names[1..], budget - s.Size(names[0]));
    }
  }

  lemma {:induction false} FittingFits(s: Setting, names: seq<Name>, budget: int)
    requires budget >= 0
    ensures Sum(s, Fitting(s, names, budget)) <= budget
  {
    if names != [] && s.Size(names[0]) <= budget {
      FittingFits(s, names[1..], budget - s.Size(names[0]));
      var r := Fitting(s, names, budget);
      assert r[1..] == Fitting(s, names[1..], budget - s.Size(names[0]));
    }
  }

  /** A last name that does not fit does not change what fits. */
  lemma {:induction false} LastDoesNotFit(s: Setting, names: seq<Name>, last: Name, budget: int)
    requires Sum(s, names + [last]) > budget
    ensures Fitting(s, names + [last], budget) == Fitting(s, names, budget)
  {
    var all := names + [last];
    if names == [] {
      assert all == [last] && all[1..] == [];
    } else {
      assert all[1..] == names[1..] + [last];
      if s.Size(names[0]) <= budget {
        LastDoesNotFit(s, names[1..], last, budget - s.Size(names[0]));
      }
    }
  }

  lemma {:induction false} MinusAbsent(names: seq<Name>, n: Name)
    requires n !in names
    ensures Minus(names, n) == names
  {
    if names != [] {
      MinusAbsent(names[1..], n);
      assert names == [names[0]] + names[1..];
    }
  }

  lemma {:induction false} FittingIsPart(s: Setting, names: seq<Name>, budget: int)
    ensures Fitting(s, names, budget) <= names
  {
    if names != [] && s.Size(names[0]) <= budget {
      FittingIsPart(s, names[1..], budget - s.Size(names[0]));
    }
  }

  lemma {:induction false} MinusUnique(names: seq<Name>, n: Name)
    requires Unique(names)
    ensures Unique(Minus(names, n))
  {
    if names != [] {
      MinusUnique(names[1..], n);
      FrontIsOnly(names);
      var rest := Minus(names[1..], n);
      assert forall j :: 0 <= j < |rest| ==> rest[j] in rest;
    }
  }

  lemma FrontIsOnly(names: seq<Name>)
    requires names != [] && Unique(names)
    ensures names[0] !in names[1..]
  {
    forall j | 0 <= j < |names[1..]| ensures names[1..][j] != names[0] {
      assert names[1..][j] == names[j + 1];
    }
  }

  lemma FittingStep(s: Setting, y: Name, rest: seq<Name>, budget: int)
    ensures Fitting(s, [y] + rest, budget) ==
            if s.Size(y) > budget then [] else [y] + Fitting(s, rest, budget - s.Size(y))
  {
    assert ([y] + rest)[1..] == rest;
  }

  lemma MinusStep(y: Name, rest: seq<Name>, n: Name)
    ensures Minus([y] + rest, n) == if y == n then Minus(rest, n) else [y] + Minus(rest, n)
  {
    assert ([y] + rest)[1..] == rest;
  }

  lemma MinusFront(n: Name, rest: seq<Name>)
    requires n !in rest
    ensures Minus([n] + rest, n) == rest
  {
    MinusStep(n, rest, n);
    MinusAbsent(rest, n);
  }

  lemma FittingTwice(s: Setting, names: seq<Name>, budget: int)
    requires budget >= 0
    ensures Fitting(s, Fitting(s, names, budget), budget) == Fitting(s, names, budget)
  {
    FittingFits(s, names, budget);
    FittingIsAll(s, Fitting(s, names, budget), budget);
  }

  lemma FrontIsThere(s: Setting, n: Name, rest: seq<Name>, kept: seq<Name>, budget: int, b: int)
    requires n !in rest && 0 <= b == budget - s.Size(n) && kept == Fitting(s, rest, b)
    ensures Fitting(s, Minus([n] + rest, n), b) == kept
    ensures Fitting(s, Minus(Fitting(s, [n] + rest, budget), n), b) == kept
  {
    MinusFront(n, rest);
    assert Fitting(s, [n] + rest, budget) == [n] + kept by { FittingStep(s, n, rest, budget); }
    assert Minus([n] + kept, n) == kept by {
      FittingIsPart(s, rest, b);
      MinusFront(n, kept);
    }
    FittingTwice(s, rest, b);
  }

  /** For what fits behind `n`, in front of which `y` stands. */
  lemma FrontStays(s: Setting, y: Name, rest: seq<Name>, n: Name, budget: int)
    requires y != n && s.Size(n) <= budget
    requires s.Size(y) <= budget - s.Size(n) ==>
               Fitting(s, Minus(rest, n), budget - s.Size(y) - s.Size(n)) ==
               Fitting(s, Minus(Fitting(s, rest, budget - s.Size(y)), n), budget - s.Size(y) - s.Size(n))
    ensures Fitting(s, Minus([y] + rest, n), budget - s.Size(n)) ==
            Fitting(s, Minus(Fitting(s, [y] + rest, budget), n), budget - s.Size(n))
  {
    var b := budget - s.Size(n);
    FittingStep(s, y, rest, budget);
    MinusStep(y, rest, n);
    FittingStep(s, y, Minus(rest, n), b);
    if s.Size(y) <= budget {
      var kept := Fitting(s, rest, budget - s.Size(y));
      MinusStep(y, kept, n);
      FittingStep(s, y, Minus(kept, n), b);
    }
  }

  /** Moving a name to the front: for what fits behind it, it does not matter whether one starts
      from everything read or only from what the cache held. */
  lemma {:induction false} FrontMoves(s: Setting, names: seq<Name>, n: Name, budget: int)
    requires Unique(names) && s.Size(n) <= budget
    ensures Fitting(s, Minus(names, n), budget - s.Size(n)) ==
            Fitting(s, Minus(Fitting(s, names, budget), n), budget - s.Size(n))
  {
    if names != [] {
      var y, rest := names[0], names[1..];
      assert names == [y] + rest;
      FrontIsOnly(names);
      if y == n {
        FrontIsThere(s, n, rest, Fitting(s, rest, budget - s.Size(n)), budget, budget - s.Size(n));
      } else {
        if s.Size(y) <= budget - s.Size(n) { FrontMoves(s, rest, n, budget - s.Size(y)); }
        FrontStays(s, y, rest, n, budget);
      }
    }
  }

  // --- The cache against the reference --------------------------------------------------------------

  lemma {:induction false} NewestAppends(a: seq<Entry>, e: Entry)
    ensures Newest(a + [e]) == [e.name] + Newest(a)
  {
    if a == [] {
      assert a + [e] == [e] && [e][1..] == [];
    } else {
      assert (a + [e])[1..] == a[1..] + [e];
      NewestAppends(a[1..], e);
    }
  }

  lemma {:induction false} NewestMembers(d: seq<Entry>, n: Name)
    ensures n in Newest(d) <==> Find(d, n).Some?
  {
    if d != [] { NewestMembers(d[1..], n); }
  }

  lemma {:induction false} MinusAppends(a: seq<Name>, b: seq<Name>, n: Name)
    ensures Minus(a + b, n) == Minus(a, n) + Minus(b, n)
  {
    if a == [] {
      assert a + b == b;
    } else {
      assert (a + b)[1..] == a[1..] + b;
      MinusAppends(a[1..], b, n);
    }
  }

  lemma {:induction false} NewestWithout(d: seq<Entry>, n: Name)
    ensures Newest(Without(d, n)) == Minus(Newest(d), n)
  {
    if d != [] {
      NewestWithout(d[1..], n);
      MinusAppends(Newest(d[1..]), [d[0].name], n);
      assert [d[0].name][1..] == [];
      if d[0].name != n {
        assert ([d[0]] + Without(d[1..], n))[1..] == Without(d[1..], n);
      }
    }
  }

  lemma {:induction false} SumAppends(s: Setting, a: seq<Name>, n: Name)
    ensures Sum(s, a + [n]) == Sum(s, a) + s.Size(n)
  {
    if a == [] {
      assert a + [n] == [n] && [n][1..] == [];
    } else {
      assert (a + [n])[1..] == a[1..] + [n];
      SumAppends(s, a[1..], n);
    }
  }

  ghost predicate Faithful(s: Setting, d: seq<Entry>) {
    forall e :: e in d ==> e.name in s.store && e.content == s.store[e.name]
  }

  lemma {:induction false} TotalIsSum(s: Setting, d: seq<Entry>)
    requires Faithful(s, d)
    ensures Total(d) == Sum(s, Newest(d))
  {
    if d != [] {
      assert d[0] in d;
      TotalIsSum(s, d[1..]);
      SumAppends(s, Newest(d[1..]), d[0].name);
    }
  }

  /** Evicting the oldest keeps exactly the newest run that fits. */
  lemma {:induction false} EvictionKeepsFitting(s: Setting, d: seq<Entry>)
    requires Faithful(s, d)
    ensures Newest(Evicted(d, s.maxBytes)) == Fitting(s, Newest(d), s.maxBytes)
  {
    TotalIsSum(s, d);
    if Total(d) > s.maxBytes && d != [] {
      EvictionKeepsFitting(s, d[1..]);
      LastDoesNotFit(s, Newest(d[1..]), d[0].name, s.maxBytes);
    } else {
      FittingIsAll(s, Newest(d), s.maxBytes);
    }
  }

  lemma HitMoves(s: Setting, d: seq<Entry>, n: Name, now: Time)
    requires Find(d, n).Some?
    ensures Newest(LookedUp(d, n, 0.0, now)) == [n] + Minus(Newest(d), n)
  {
    NewestWithout(d, n);
    NewestAppends(Without(d, n), Find(d, n).value);
  }

  lemma StoreMoves(s: Setting, d: seq<Entry>, n: Name, now: Time)
    requires Faithful(s, d) && n in s.store
    ensures Newest(Stored(d, n, s.store[n], now, s.maxBytes)) ==
            Fitting(s, [n] + Minus(Newest(d), n), s.maxBytes)
  {
    var e := Entry(n, now, s.store[n]);
    NewestWithout(d, n);
    NewestAppends(Without(d, n), e);
    EvictionKeepsFitting(s, Without(d, n) + [e]);
  }

  lemma {:induction false} MinusShrinks(s: Setting, names: seq<Name>, n: Name)
    requires n in names
    ensures Sum(s, Minus(names, n)) + s.Size(n) <= Sum(s, names)
  {
    var rest := Minus(names[1..], n);
    if names[0] == n {
      assert Minus(names, n) == rest;
      if n in names[1..] { MinusShrinks(s, names[1..], n); } else { MinusAbsent(names[1..], n); }
    } else {
      MinusShrinks(s, names[1..], n);
      assert ([names[0]] + rest)[1..] == rest;
    }
  }

  /** One read of a cacheable object puts it in front of what the cache held and keeps what fits. */
  lemma CacheableRead(s: Setting, before: Read, a: Access)
    requires a.Valid() && s.Cacheable(a.name) && Agrees(before.data, before.heads, s.store)
    requires Sum(s, Newest(before.data)) <= s.maxBytes
    ensures Newest(Served(before.data, before.heads, a.name, a.range, 0.0, s.maxBytes, a.times,
                          s.store, s.store).data) ==
            Fitting(s, [a.name] + Minus(Newest(before.data), a.name), s.maxBytes)
  {
    var d, n := before.data, a.name;
    var front := [n] + Minus(Newest(d), n);
    NewestMembers(d, n);
    if Find(d, n).Some? {
      HitMoves(s, d, n, a.times.lookup);
      MinusShrinks(s, Newest(d), n);
      assert front[1..] == Minus(Newest(d), n);
      FittingIsAll(s, front, s.maxBytes);
    } else {
      StoreMoves(s, d, n, a.times.stored);
    }
  }

  /** A read of anything else leaves the cached data as it is. */
  lemma OtherRead(s: Setting, before: Read, a: Access)
    requires a.Valid() && !s.Cacheable(a.name) && Agrees(before.data, before.heads, s.store)
    requires forall e :: e in before.data ==> s.Cacheable(e.name)
    ensures Served(before.data, before.heads, a.name, a.range, 0.0, s.maxBytes, a.times, s.store, s.store).data ==
            before.data
  {}

  lemma {:induction false} FittingPrefixAgain(s: Setting, n: Name, names: seq<Name>)
    requires s.Size(n) <= s.maxBytes && Unique(names)
    ensures Fitting(s, [n] + Minus(Fitting(s, names, s.maxBytes), n), s.maxBytes) ==
            Fitting(s, [n] + Minus(names, n), s.maxBytes)
  {
    FrontMoves(s, names, n, s.maxBytes);
    assert ([n] + Minus(names, n))[1..] == Minus(names, n);
    var kept := Minus(Fitting(s, names, s.maxBytes), n);
    assert ([n] + kept)[1..] == kept;
  }

  ghost predicate StackHolds(s: Setting, run: seq<Access>)
    requires forall i :: 0 <= i < |run| ==> run[i].Valid()
  {
    && Agrees(After(s, run).data, After(s, run).heads, s.store)
    && (forall e :: e in After(s, run).data ==> s.Cacheable(e.name))
    && Unique(Recency(s, run))
    && Newest(After(s, run).data) == Fitting(s, Recency(s, run), s.maxBytes)
  }

  lemma {:induction false} FittingMembers(s: Setting, run: seq<Access>)
    ensures forall n :: n in Recency(s, run) ==> s.Cacheable(n)
  {
    if run != [] { FittingMembers(s, run[..|run| - 1]); }
  }

  /** After any run of full and ranged reads the cached objects, newest first, are exactly the
      longest run of the most recently read cacheable objects whose sizes add up to no more than
      the cache may hold, with the backend's contents. */
  lemma {:induction false} LruStack(s: Setting, run: seq<Access>)
    requires forall i :: 0 <= i < |run| ==> run[i].Valid()
    ensures StackHolds(s, run)
    decreases |run|
  {
    if run != [] {
      var n := |run| - 1;
      var a, rest := run[n], run[..n];
      LruStack(s, rest);
      var before := After(s, rest);
      ReadsAreExact(before.data, before.heads, a.name, a.range, 0.0, s.maxBytes, a.times, s.store);
      if s.Cacheable(a.name) {
        FittingFits(s, Recency(s, rest), s.maxBytes);
        CacheableRead(s, before, a);
        FittingPrefixAgain(s, a.name, Recency(s, rest));
        MinusUnique(Recency(s, rest), a.name);
        assert a.name !in Minus(Recency(s, rest), a.name);
      } else {
        OtherRead(s, before, a);
      }
      CachedAreCacheable(s, run);
    }
  }

  lemma CachedAreCacheable(s: Setting, run: seq<Access>)
    requires forall i :: 0 <= i < |run| ==> run[i].Valid()
    requires Newest(After(s, run).data) == Fitting(s, Recency(s, run), s.maxBytes)
    ensures forall e :: e in After(s, run).data ==> s.Cacheable(e.name)
  {
    FittingMembers(s, run);
    FittingIsPart(s, Recency(s, run), s.maxBytes);
    forall e | e in After(s, run).data ensures s.Cacheable(e.name) {
      NewestMembers(After(s, run).data, e.name);
    }
  }
}
