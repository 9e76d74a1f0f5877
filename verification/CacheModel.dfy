/** The cache's data as values: lookups, stores, eviction, and what eviction keeps. */
module CacheModel {
  import opened Wrappers
  import opened Utf8

  /** Bucket and key. */
  type Name = (string, string)
  type Bytes = seq<Byte>
  type Time = real

  datatype Entry = Entry(name: Name, storedAt: Time, content: Bytes)
  datatype Head = Head(name: Name, storedAt: Time, size: nat)

  /** The inclusive byte range of a request; `end` is -1 only for the range (0, -1). */
  datatype ByteRange = ByteRange(start: nat, end: int) {
    predicate Valid() { start <= end + 1 }
  }

  const MAX_HEADS := 10_000

  function Min(a: int, b: int): int { if a < b then a else b }

  /** `content[start : end + 1]` */
  function Slice(range: Option<ByteRange>, content: Bytes): Bytes
    requires range.Some? ==> range.value.Valid()
  {
    if range.None? then content
    else content[Min(range.value.start, |content|)..Min(range.value.end + 1, |content|)]
  }

  /** Entries expire `ttl` seconds after they were stored; 0 keeps them. */
  predicate Fresh(ttl: Time, now: Time, storedAt: Time) { ttl <= 0.0 || now - storedAt < ttl }

  // --- Ordered entries, oldest first ----------------------------------------------------------

  function Names(d: seq<Entry>): seq<Name> { seq(|d|, i requires 0 <= i < |d| => d[i].name) }

  ghost predicate Distinct(d: seq<Entry>) { forall i, j :: 0 <= i < j < |d| ==> d[i].name != d[j].name }

  function Find(d: seq<Entry>, name: Name): (r: Option<Entry>)
    ensures r.Some? ==> r.value in d && r.value.name == name
    ensures r.None? ==> forall e :: e in d ==> e.name != name
  {
    if d == [] then None else if d[0].name == name then Some(d[0]) else Find(d[1..], name)
  }

  function Without(d: seq<Entry>, name: Name): (r: seq<Entry>)
    ensures |r| <= |d|
    ensures forall e :: e in r <==> e in d && e.name != name
  {
    if d == [] then [] else if d[0].name == name then Without(d[1..], name) else [d[0]] + Without(d[1..], name)
  }

  function Total(d: seq<Entry>): nat {
    if d == [] then 0 else |d[0].content| + Total(d[1..])
  }

  /** What `_get_cached` returns. */
  function Hit(d: seq<Entry>, name: Name, ttl: Time, now: Time): Option<Bytes> {
    match Find(d, name)
    case None => None
    case Some(e) => if Fresh(ttl, now, e.storedAt) then Some(e.content) else None
  }

  /** What `_get_cached` leaves: an expired entry is dropped, a hit moves to the end. */
  function LookedUp(d: seq<Entry>, name: Name, ttl: Time, now: Time): seq<Entry> {
    match Find(d, name)
    case None => d
    case Some(e) => Without(d, name) + if Fresh(ttl, now, e.storedAt) then [e] else []
  }

  /** Dropping the oldest entries until the rest fits. */
  function Evicted(d: seq<Entry>, maxBytes: nat): seq<Entry> {
    if Total(d) > maxBytes && d != [] then Evicted(d[1..], maxBytes) else d
  }

  /** What `_store` leaves. */
  function Stored(d: seq<Entry>, name: Name, content: Bytes, now: Time, maxBytes: nat): seq<Entry> {
    Evicted(Without(d, name) + [Entry(name, now, content)], maxBytes)
  }

  /** What a read leaves once the content has been fetched: only small objects are kept. */
  function Fetched(d: seq<Entry>, name: Name, content: Option<Bytes>, now: Time, maxBytes: nat): seq<Entry> {
    if content.None? || |content.value| > maxBytes / 4 then d
    else Stored(d, name, content.value, now, maxBytes)
  }

  // --- Heads: a bounded dictionary in order of first insertion -----------------------------------

  function FindHead(heads: seq<Head>, name: Name): (r: Option<Head>)
    ensures r.Some? ==> r.value in heads && r.value.name == name
  {
    if heads == [] then None else if heads[0].name == name then Some(heads[0]) else FindHead(heads[1..], name)
  }

  /** Assigning an existing key keeps its place. */
  function PutHead(heads: seq<Head>, h: Head): (r: seq<Head>)
    ensures |heads| <= |r| <= |heads| + 1
    ensures forall x :: x in r ==> x in heads || x == h
  {
    if heads == [] then [h]
    else if heads[0].name == h.name then [h] + heads[1..]
    else [heads[0]] + PutHead(heads[1..], h)
  }

  /** The newest heads, as many as are kept. */
  function Trim(heads: seq<Head>): (r: seq<Head>)
    ensures |r| <= MAX_HEADS
    ensures forall x :: x in r ==> x in heads
  {
    if |heads| > MAX_HEADS then heads[|heads| - MAX_HEADS..] else heads
  }

  lemma TrimStep(heads: seq<Head>)
    requires |heads| > MAX_HEADS
    ensures Trim(heads[1..]) == Trim(heads)
  {}

  function HeadStored(heads: seq<Head>, name: Name, size: nat, now: Time): (r: seq<Head>)
    ensures |r| <= MAX_HEADS
    ensures forall x :: x in r ==> x in heads || x == Head(name, now, size)
  {
    Trim(PutHead(heads, Head(name, now, size)))
  }

  function HeadHit(heads: seq<Head>, name: Name, ttl: Time, now: Time): Option<nat> {
    match FindHead(heads, name)
    case None => None
    case Some(h) => if Fresh(ttl, now, h.storedAt) then Some(h.size) else None
  }

  // --- Facts about the order and the total ----------------------------------------------------------

  lemma {:induction false} TotalAppends(a: seq<Entry>, b: seq<Entry>)
    ensures Total(a + b) == Total(a) + Total(b)
    decreases |a|
  {
    if a == [] {
      assert a + b == b;
    } else {
      assert (a + b)[1..] == a[1..] + b;
      TotalAppends(a[1..], b);
    }
  }

  lemma {:induction false} WithoutAbsent(d: seq<Entry>, name: Name)
    requires forall e :: e in d ==> e.name != name
    ensures Without(d, name) == d
  {
    if d != [] {
      assert d[0] in d;
      WithoutAbsent(d[1..], name);
      assert d == [d[0]] + d[1..];
    }
  }

  lemma FirstIsOnly(d: seq<Entry>)
    requires d != [] && Distinct(d)
    ensures forall e :: e in d[1..] ==> e.name != d[0].name
  {
    forall e | e in d[1..] ensures e.name != d[0].name {
      var i :| 0 <= i < |d[1..]| && d[1..][i] == e;
      assert d[i + 1] == e;
    }
  }

  lemma PushDistinct(e: Entry, d: seq<Entry>)
    requires Distinct(d) && forall x :: x in d ==> x.name != e.name
    ensures Distinct([e] + d)
  {
    assert forall i :: 0 <= i < |d| ==> d[i] in d;
  }

  lemma AppendDistinct(d: seq<Entry>, e: Entry)
    requires Distinct(d) && forall x :: x in d ==> x.name != e.name
    ensures Distinct(d + [e])
  {
    assert forall i :: 0 <= i < |d| ==> d[i] in d;
  }

  lemma {:induction false} WithoutDistinct(d: seq<Entry>, name: Name)
    requires Distinct(d)
    ensures Distinct(Without(d, name))
  {
    if d != [] {
      WithoutDistinct(d[1..], name);
      FirstIsOnly(d);
      if d[0].name != name { PushDistinct(d[0], Without(d[1..], name)); }
    }
  }

  lemma {:induction false} WithoutTotal(d: seq<Entry>, name: Name)
    requires Distinct(d)
    ensures Total(Without(d, name)) ==
            Total(d) - if Find(d, name).Some? then |Find(d, name).value.content| else 0
  {
    if d != [] {
      FirstIsOnly(d);
      if d[0].name == name {
        WithoutAbsent(d[1..], name);
      } else {
        WithoutTotal(d[1..], name);
        assert ([d[0]] + Without(d[1..], name))[1..] == Without(d[1..], name);
      }
    }
  }

  /** Eviction drops the shortest oldest-first run that makes the rest fit. */
  lemma {:induction false} EvictsShortestRun(d: seq<Entry>, maxBytes: nat) returns (k: nat)
    ensures k <= |d| && Evicted(d, maxBytes) == d[k..]
    ensures Total(d[k..]) <= maxBytes
    ensures forall j :: 0 <= j < k ==> Total(d[j..]) > maxBytes
  {
    if Total(d) > maxBytes && d != [] {
      var n := EvictsShortestRun(d[1..], maxBytes);
      k := n + 1;
      assert d[1..][n..] == d[k..];
      forall j | 0 <= j < k ensures Total(d[j..]) > maxBytes {
        if j == 0 {
          assert d[0..] == d;
        } else {
          assert d[1..][j - 1..] == d[j..];
        }
      }
    } else {
      k := 0;
      assert d[0..] == d;
    }
  }

  /** Every entry is small and everything fits. */
  ghost predicate Bounded(d: seq<Entry>, maxBytes: nat) {
    && Distinct(d) && Total(d) <= maxBytes
    && forall e :: e in d ==> |e.content| <= maxBytes / 4
  }

  lemma LookupKeepsBounds(d: seq<Entry>, name: Name, ttl: Time, now: Time, maxBytes: nat)
    requires Bounded(d, maxBytes)
    ensures Bounded(LookedUp(d, name, ttl, now), maxBytes)
    ensures forall e :: e in LookedUp(d, name, ttl, now) ==> e in d
    ensures Total(LookedUp(d, name, ttl, now)) ==
            Total(d) - if Find(d, name).Some? && Hit(d, name, ttl, now).None? then |Find(d, name).value.content| else 0
  {
    var found := Find(d, name);
    if found.Some? {
      var rest := Without(d, name);
      WithoutDistinct(d, name);
      WithoutTotal(d, name);
      if Fresh(ttl, now, found.value.storedAt) {
        TotalAppends(rest, [found.value]);
        AppendDistinct(rest, found.value);
      } else {
        assert rest + [] == rest;
      }
    }
  }

  /** All that a store puts together before it evicts. */
  function Joined(d: seq<Entry>, name: Name, content: Bytes, now: Time): seq<Entry> {
    Without(d, name) + [Entry(name, now, content)]
  }

  lemma JoinedBounds(d: seq<Entry>, name: Name, content: Bytes, now: Time)
    requires Distinct(d)
    ensures Distinct(Joined(d, name, content, now))
    ensures Total(Joined(d, name, content, now)) == Total(Without(d, name)) + |content|
  {
    WithoutDistinct(d, name);
    TotalAppends(Without(d, name), [Entry(name, now, content)]);
    AppendDistinct(Without(d, name), Entry(name, now, content));
  }

  lemma SuffixDistinct(d: seq<Entry>, k: nat)
    requires Distinct(d) && k <= |d|
    ensures Distinct(d[k..])
  {}

  /** A store keeps the object just stored, as the newest, and everything fits. */
  lemma StoreKeepsBounds(d: seq<Entry>, name: Name, content: Bytes, now: Time, maxBytes: nat)
    requires Bounded(d, maxBytes) && |content| <= maxBytes / 4
    ensures var r := Stored(d, name, content, now, maxBytes);
            && Bounded(r, maxBytes)
            && r != [] && r[|r| - 1] == Entry(name, now, content)
            && forall e :: e in r ==> e in d || e == Entry(name, now, content)
  {
    JoinedBounds(d, name, content, now);
    EvictionKeepsBounds(Without(d, name), Entry(name, now, content), maxBytes);
  }

  /** Eviction stops before the newest entry, if that fits. */
  lemma EvictionKeepsBounds(d: seq<Entry>, newest: Entry, maxBytes: nat)
    requires Distinct(d + [newest]) && forall e :: e in d ==> |e.content| <= maxBytes / 4
    requires |newest.content| <= maxBytes / 4
    ensures var r := Evicted(d + [newest], maxBytes);
            && Bounded(r, maxBytes)
            && r != [] && r[|r| - 1] == newest
            && forall e :: e in r ==> e in d || e == newest
  {
    var all := d + [newest];
    var k := EvictsShortestRun(all, maxBytes);
    assert all[|d|..] == [newest];
    assert Total(all[|d|..]) == |newest.content|;
    assert k <= |d|;
    SuffixDistinct(all, k);
    assert forall e :: e in all[k..] ==> e in all;
  }

  /** If a store had to evict anything, the cache stays fuller than all but the size of one item. */
  lemma StoreStaysFull(d: seq<Entry>, name: Name, content: Bytes, now: Time, maxBytes: nat)
    requires Bounded(d, maxBytes) && |content| <= maxBytes / 4
    ensures var r := Stored(d, name, content, now, maxBytes);
            |r| < |Joined(d, name, content, now)| ==> Total(r) > maxBytes - maxBytes / 4
  {
    var all := Joined(d, name, content, now);
    var k := EvictsShortestRun(all, maxBytes);
    if k > 0 {
      assert all[k - 1..][1..] == all[k..] && all[k - 1] in all;
    }
  }

  // --- One read ---------------------------------------------------------------------------------------

  /** The objects of the backend at one moment. */
  type Store = map<Name, Bytes>

  function Whole(store: Store, name: Name): Option<Bytes> {
    if name in store then Some(store[name]) else None
  }

  /** When the steps of a read look at the clock. */
  datatype Times = Times(lookup: Time, head: Time, headStored: Time, stored: Time)

  datatype Read = Read(data: seq<Entry>, heads: seq<Head>, result: Option<Bytes>)

  function HeadRead(heads: seq<Head>, name: Name, ttl: Time, now: Time, later: Time, store: Store): (seq<Head>,
                                                                                                     Option<nat>) {
    var hit := HeadHit(heads, name, ttl, now);
    if hit.Some? then (heads, hit)
    else if name in store then (HeadStored(heads, name, |store[name]|, later), Some(|store[name]|))
    else (heads, None)
  }

  /** A full or ranged read. The backend may change between the HEAD and the GET it is asked. */
  function Served(d: seq<Entry>, heads: seq<Head>, name: Name, range: Option<ByteRange>, ttl: Time,
                  maxBytes: nat, t: Times, atHead: Store, atGet: Store): Read
    requires range.Some? ==> range.value.Valid()
  {
    var hit := Hit(d, name, ttl, t.lookup);
    var d' := LookedUp(d, name, ttl, t.lookup);
    if hit.Some? then Read(d', heads, Some(Slice(range, hit.value)))
    else
      var (heads', size) :=
        if range.Some? then HeadRead(heads, name, ttl, t.head, t.headStored, atHead) else (heads, Some(0));
      if size.None? then Read(d', heads', None)
      else
        var content := Whole(atGet, name);
        var answer := if content.None? then None else Some(Slice(range, content.value));
        if size.value > maxBytes / 4 then Read(d', heads', answer)
        else Read(Fetched(d', name, content, t.stored, maxBytes), heads', answer)
  }

  /** The cached objects and heads are those of the backend. */
  ghost predicate Agrees(d: seq<Entry>, heads: seq<Head>, store: Store) {
    && (forall e :: e in d ==> e.name in store && e.content == store[e.name])
    && (forall h :: h in heads ==> h.name in store && h.size == |store[h.name]|)
  }

  lemma {:induction false} EvictedIsPart(d: seq<Entry>, maxBytes: nat)
    ensures forall e :: e in Evicted(d, maxBytes) ==> e in d
  {
    if Total(d) > maxBytes && d != [] { EvictedIsPart(d[1..], maxBytes); }
  }

  /** While the backend does not change, every path of a read (hit and slice, straight through
      for a large object, fetch and slice) gives exactly the bytes asked for, None only for a
      missing object, and the cache stays in agreement with the backend. */
  lemma ReadsAreExact(d: seq<Entry>, heads: seq<Head>, name: Name, range: Option<ByteRange>, ttl: Time,
                      maxBytes: nat, t: Times, store: Store)
    requires range.Some? ==> range.value.Valid()
    requires Agrees(d, heads, store)
    ensures var r := Served(d, heads, name, range, ttl, maxBytes, t, store, store);
            && Agrees(r.data, r.heads, store)
            && r.result == if name in store then Some(Slice(range, store[name])) else None
  {
    var d' := LookedUp(d, name, ttl, t.lookup);
    assert forall e :: e in d' ==> e in d;
    if name in store {
      EvictedIsPart(Without(d', name) + [Entry(name, t.stored, store[name])], maxBytes);
    }
  }

  lemma FetchKeepsBounds(d: seq<Entry>, name: Name, content: Option<Bytes>, now: Time, maxBytes: nat)
    requires Bounded(d, maxBytes)
    ensures Bounded(Fetched(d, name, content, now, maxBytes), maxBytes)
  {
    if content.Some? && |content.value| <= maxBytes / 4 {
      StoreKeepsBounds(d, name, content.value, now, maxBytes);
    }
  }

  lemma HeadsKeepBounds(heads: seq<Head>, name: Name, ttl: Time, now: Time, later: Time, store: Store)
    requires |heads| <= MAX_HEADS
    ensures |HeadRead(heads, name, ttl, now, later, store).0| <= MAX_HEADS
  {}

  /** All that a read can do to the cache. */
  lemma ReadOutcomes(d: seq<Entry>, heads: seq<Head>, name: Name, range: Option<ByteRange>, ttl: Time,
                     maxBytes: nat, t: Times, atHead: Store, atGet: Store)
    requires range.Some? ==> range.value.Valid()
    ensures var r := Served(d, heads, name, range, ttl, maxBytes, t, atHead, atGet);
            var d' := LookedUp(d, name, ttl, t.lookup);
            && (r.data == d' || r.data == Fetched(d', name, Whole(atGet, name), t.stored, maxBytes))
            && (r.heads == heads || r.heads == HeadRead(heads, name, ttl, t.head, t.headStored, atHead).0)
  {}

  /** Whatever the backend does, a read keeps the cache within its bounds. */
  lemma ReadsKeepBounds(d: seq<Entry>, heads: seq<Head>, name: Name, range: Option<ByteRange>, ttl: Time,
                        maxBytes: nat, t: Times, atHead: Store, atGet: Store)
    requires range.Some? ==> range.value.Valid()
    requires Bounded(d, maxBytes) && |heads| <= MAX_HEADS
    ensures var r := Served(d, heads, name, range, ttl, maxBytes, t, atHead, atGet);
            Bounded(r.data, maxBytes) && |r.heads| <= MAX_HEADS
  {
    LookupKeepsBounds(d, name, ttl, t.lookup, maxBytes);
    HeadsKeepBounds(heads, name, ttl, t.head, t.headStored, atHead);
    ReadOutcomes(d, heads, name, range, ttl, maxBytes, t, atHead, atGet);
    FetchKeepsBounds(LookedUp(d, name, ttl, t.lookup), name, Whole(atGet, name), t.stored, maxBytes);
  }
}
