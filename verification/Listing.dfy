/** Listing a bucket: grouping keys by a delimiter, pages, and resuming from the name a page
    ended with. */
module Listing {
  import opened Wrappers
  import opened Order

  const MAX_KEYS := 1000

  /** A line of a listing: an object's key, or the common prefix of several keys. */
  datatype Entry = Key(name: string) | Common(name: string)

  /** The prefix all keys have and the delimiter that groups them; "" groups nothing. */
  datatype Request = Request(prefix: string, delimiter: string)

  /** `max-keys`, 1000 if absent and at most 1000; None is the error for a negative number. */
  function EffectiveMaxKeys(param: Option<int>): (r: Option<nat>)
    ensures param.None? ==> r == Some(1000)
    ensures r.None? <==> param.Some? && param.value < 0
    ensures r.Some? && param.Some? ==>
              r.value <= param.value && r.value <= 1000 && (r.value == param.value || r.value == 1000)
  {
    var n := if param.None? || param.value > MAX_KEYS then MAX_KEYS else param.value;
    if n < 0 then None else Some(n)
  }

  predicate OccursAt(key: string, d: string, i: nat) { i + |d| <= |key| && key[i..i + |d|] == d }

  /** `key.find(d, from)` */
  function Find(key: string, d: string, from: nat): (r: Option<nat>)
    ensures r.Some? ==> from <= r.value && OccursAt(key, d, r.value)
    ensures r.Some? ==> forall j :: from <= j < r.value ==> !OccursAt(key, d, j)
    ensures r.None? ==> forall j :: from <= j ==> !OccursAt(key, d, j)
    decreases |key| - from
  {
    if from + |d| > |key| then None
    else if key[from..from + |d|] == d then Some(from)
    else Find(key, d, from + 1)
  }

  /** The entry a key is listed under. */
  function EntryOf(r: Request, key: string): Entry {
    if r.delimiter == "" then Key(key)
    else
      match Find(key, r.delimiter, |r.prefix|)
      case None => Key(key)
      case Some(i) => Common(key[..i + |r.delimiter|])
  }

  predicate FirstAt(s: string, d: string, i: nat) { OccursAt(s, d, i) && forall j: nat | j < i :: !OccursAt(s, d, j) }

  lemma OccursBehind(prefix: string, x: string, d: string, i: nat)
    ensures OccursAt(prefix + x, d, |prefix| + i) <==> OccursAt(x, d, i)
  {
    if i + |d| <= |x| {
      assert (prefix + x)[|prefix| + i..|prefix| + i + |d|] == x[i..i + |d|];
    }
  }

  /** A key is listed as itself if the delimiter does not occur behind the prefix. Otherwise it is
      listed as the prefix and what follows it up to the first delimiter and with it. */
  lemma EntryIsExact(r: Request, x: string)
    ensures EntryOf(r, r.prefix + x) == Key(r.prefix + x) <==>
            r.delimiter == "" || forall i: nat :: !OccursAt(x, r.delimiter, i)
    ensures forall name :: EntryOf(r, r.prefix + x) == Common(name) <==>
              r.delimiter != "" &&
              exists i: nat :: FirstAt(x, r.delimiter, i) && name == r.prefix + x[..i] + r.delimiter
  {
    var key, d := r.prefix + x, r.delimiter;
    forall i: nat ensures OccursAt(key, d, |r.prefix| + i) <==> OccursAt(x, d, i) {
      OccursBehind(r.prefix, x, d, i);
    }
    var found := Find(key, d, |r.prefix|);
    if found.Some? {
      var n := found.value - |r.prefix|;
      assert |r.prefix| + n == found.value;
      forall j: nat | j < n ensures !OccursAt(x, d, j) { assert !OccursAt(key, d, |r.prefix| + j); }
      assert FirstAt(x, d, n);
      assert key[..found.value + |d|] == r.prefix + x[..n] + d;
      assert forall i: nat :: FirstAt(x, d, i) ==> i == n;
    } else {
      forall i: nat ensures !OccursAt(x, d, i) { assert !OccursAt(key, d, |r.prefix| + i); }
    }
  }

  /** What a storage backend promises: keys in order, each with the prefix, none empty. */
  ghost predicate Listable(r: Request, keys: seq<string>) {
    StrictlySorted(keys) && forall k :: k in keys ==> k != "" && r.prefix <= k
  }

  predicate AfterPivot(pivot: string, key: string) { pivot == "" || Before(pivot, key) }

  /** A common prefix that was reported already: as the last entry, or as the pivot. */
  predicate Reported(pivot: string, last: Option<string>, e: Entry) {
    e.Common? && (last == Some(e.name) || (pivot != "" && e.name == pivot))
  }

  function LastName(entries: seq<Entry>): Option<string> {
    if entries == [] then None else Some(entries[|entries| - 1].name)
  }

  /** What one more key makes of the listing so far. */
  function Grown(r: Request, pivot: string, before: seq<Entry>, key: string): seq<Entry> {
    var e := EntryOf(r, key);
    if !AfterPivot(pivot, key) || Reported(pivot, LastName(before), e) then before else before + [e]
  }

  /** The unlimited listing after a pivot. */
  function Entries(r: Request, pivot: string, keys: seq<string>): seq<Entry> {
    if keys == [] then []
    else
      var n := |keys| - 1;
      Grown(r, pivot, Entries(r, pivot, keys[..n]), keys[n])
  }

  function KeyNames(entries: seq<Entry>): seq<string> {
    if entries == [] then []
    else
      var n := |entries| - 1;
      KeyNames(entries[..n]) + if entries[n].Key? then [entries[n].name] else []
  }

  function CommonNames(entries: seq<Entry>): seq<string> {
    if entries == [] then []
    else
      var n := |entries| - 1;
      CommonNames(entries[..n]) + if entries[n].Common? then [entries[n].name] else []
  }

  /** One page. `last` is where the next page starts; it is reported only with `truncated`. */
  datatype Page = Page(contents: seq<string>, commonPrefixes: seq<string>, truncated: bool, last: Option<string>) {
    function Token(): Option<string> { if truncated then last else None }
  }

  function PageOf(listing: seq<Entry>, maxKeys: nat): Page {
    var shown := if |listing| > maxKeys then listing[..maxKeys] else listing;
    Page(KeyNames(shown), CommonNames(shown), |listing| > maxKeys, LastName(shown))
  }

  lemma {:induction false} EntriesGrow(r: Request, pivot: string, keys: seq<string>, i: nat)
    requires i <= |keys|
    ensures Entries(r, pivot, keys[..i]) <= Entries(r, pivot, keys)
    decreases |keys| - i
  {
    if i < |keys| {
      EntriesGrow(r, pivot, keys, i + 1);
      assert keys[..i + 1][..i] == keys[..i];
    } else {
      assert keys[..i] == keys;
    }
  }

  lemma EntriesStep(r: Request, pivot: string, keys: seq<string>, i: nat)
    requires i < |keys|
    ensures Entries(r, pivot, keys[..i + 1]) == Grown(r, pivot, Entries(r, pivot, keys[..i]), keys[i])
  {
    assert keys[..i + 1][..i] == keys[..i];
  }

  lemma NamesAppend(shown: seq<Entry>, e: Entry)
    ensures KeyNames(shown + [e]) == KeyNames(shown) + if e.Key? then [e.name] else []
    ensures CommonNames(shown + [e]) == CommonNames(shown) + if e.Common? then [e.name] else []
    ensures LastName(shown + [e]) == Some(e.name)
  {
    assert (shown + [e])[..|shown|] == shown;
  }

  /** A page is cut before the first entry it has no room for. */
  lemma CutPage(r: Request, pivot: string, keys: seq<string>, i: nat, shown: seq<Entry>, e: Entry)
    requires i < |keys| && Entries(r, pivot, keys[..i + 1]) == shown + [e]
    ensures PageOf(Entries(r, pivot, keys), |shown|) ==
            Page(KeyNames(shown), CommonNames(shown), true, LastName(shown))
  {
    EntriesGrow(r, pivot, keys, i + 1);
    assert Entries(r, pivot, keys)[..|shown|] == shown;
  }

  ghost predicate Tallied(shown: seq<Entry>, contents: seq<string>, commonPrefixes: seq<string>, last: Option<string>) {
    && contents == KeyNames(shown) && commonPrefixes == CommonNames(shown) && last == LastName(shown)
    && |contents| + |commonPrefixes| == |shown|
  }

  lemma TallyOne(shown: seq<Entry>, contents: seq<string>, commonPrefixes: seq<string>, last: Option<string>, e: Entry)
    requires Tallied(shown, contents, commonPrefixes, last)
    ensures e.Key? ==> Tallied(shown + [e], contents + [e.name], commonPrefixes, Some(e.name))
    ensures e.Common? ==> Tallied(shown + [e], contents, commonPrefixes + [e.name], Some(e.name))
  {
    NamesAppend(shown, e);
  }

  /** One page of a listing, object by object. */
  method ListObjects(r: Request, pivot: string, keys: seq<string>, maxKeys: nat) returns (page: Page)
    ensures page == PageOf(Entries(r, pivot, keys), maxKeys)
  {
    var contents: seq<string>, commonPrefixes: seq<string>, truncated, last: Option<string> := [], [], false, None;
    ghost var shown: seq<Entry> := [];
    var i := 0;
    while i < |keys|
      invariant 0 <= i <= |keys| && !truncated
      invariant shown == Entries(r, pivot, keys[..i]) && |shown| <= maxKeys
      invariant Tallied(shown, contents, commonPrefixes, last)
    {
      var key := keys[i];
      ghost var e := EntryOf(r, key);
      ghost var next := Grown(r, pivot, shown, key);
      assert next == Entries(r, pivot, keys[..i + 1]) by { EntriesStep(r, pivot, keys, i); }
      if pivot != "" && !Before(pivot, key) {
        assert next == shown;
        i := i + 1;
        continue;
      }
      var common: Option<string> := None;
      if r.delimiter != "" {
        var index := Find(key, r.delimiter, |r.prefix|);
        if index.Some? {
          common := Some(key[..index.value + |r.delimiter|]);
          assert e == Common(common.value);
          if common == last || (pivot != "" && common.value == pivot) {
            assert next == shown;
            i := i + 1;
            continue;
          }
        }
      }
      assert common.None? ==> e == Key(key);
      assert next == shown + [e];
      if |contents| + |commonPrefixes| >= maxKeys {
        truncated := true;
        CutPage(r, pivot, keys, i, shown, e);
        break;
      }
      TallyOne(shown, contents, commonPrefixes, last, e);
      if common.Some? {
        commonPrefixes := commonPrefixes + [common.value];
        last := common;
      } else {
        contents := contents + [key];
        last := Some(key);
      }
      shown := next;
      i := i + 1;
    }
    assert !truncated ==> keys[..i] == keys;
    return Page(contents, commonPrefixes, truncated, last);
  }

  // --- Grouping keeps the order -------------------------------------------------------------------

  /** A key that starts with the common prefix of another key is grouped under it too, however
      the delimiter may overlap itself. */
  lemma SharedPrefixGroups(r: Request, a: string, b: string)
    requires EntryOf(r, b).Common? && EntryOf(r, b).name <= a
    ensures EntryOf(r, a) == EntryOf(r, b)
  {
    var c, d := EntryOf(r, b).name, r.delimiter;
    var i := Find(b, d, |r.prefix|).value;
    assert a[..|c|] == c == b[..|c|];
    forall j: nat | j <= i ensures OccursAt(a, d, j) <==> OccursAt(b, d, j) {
      assert a[j..j + |d|] == a[..|c|][j..j + |d|] == b[..|c|][j..j + |d|] == b[j..j + |d|];
    }
    assert OccursAt(a, d, i);
    assert Find(a, d, |r.prefix|) == Some(i);
  }

  /** Every entry is listed under its own name, so a name stands for one entry only. */
  lemma EntryOfName(r: Request, key: string)
    ensures EntryOf(r, EntryOf(r, key).name) == EntryOf(r, key)
  {
    if EntryOf(r, key).Common? {
      SharedPrefixGroups(r, EntryOf(r, key).name, key);
    }
  }

  lemma NameStartsKey(r: Request, key: string)
    ensures EntryOf(r, key).name <= key
    ensures EntryOf(r, key).name == key || Before(EntryOf(r, key).name, key)
  {
    if EntryOf(r, key).name != key {
      ExtensionIsAbove(Code, EntryOf(r, key).name, key);
    }
  }

  /** Keys in order have entries in order; equal entries are one common prefix. */
  lemma GroupingKeepsOrder(r: Request, a: string, b: string)
    requires Before(a, b)
    ensures EntryOf(r, a) == EntryOf(r, b) || Before(EntryOf(r, a).name, EntryOf(r, b).name)
    ensures EntryOf(r, a) == EntryOf(r, b) ==> EntryOf(r, b).Common?
  {
    var x, y := EntryOf(r, a), EntryOf(r, b);
    NameStartsKey(r, a);
    NameStartsKey(r, b);
    Asymmetric(Code, a, b);
    if y.Key? {
      if x.name != a { Transitive(Code, x.name, a, b); }
    } else {
      Total(Code, x.name, y.name);
      if x.name == y.name {
        EntryOfName(r, a);
        EntryOfName(r, b);
      } else if Before(y.name, x.name) {
        if x.name != a { Transitive(Code, y.name, x.name, a); }
        PrefixInterval(Code, y.name, a, b);
        SharedPrefixGroups(r, a, b);
      }
    }
  }

  // --- What a listing holds ---------------------------------------------------------------------------

  function Names(entries: seq<Entry>): seq<string> {
    seq(|entries|, i requires 0 <= i < |entries| => entries[i].name)
  }

  /** The key is listed after the pivot, under an entry other than the pivot's own. */
  ghost predicate ListedAfter(r: Request, pivot: string, key: string) {
    AfterPivot(pivot, key) && !(pivot != "" && EntryOf(r, key) == Common(pivot))
  }

  ghost predicate ListsExactly(r: Request, pivot: string, keys: seq<string>, listing: seq<Entry>) {
    && (forall k :: k in keys && ListedAfter(r, pivot, k) ==> EntryOf(r, k) in listing)
    && (forall e :: e in listing ==> exists k :: k in keys && ListedAfter(r, pivot, k) && EntryOf(r, k) == e)
  }

  lemma LastIsLargest(names: seq<string>, x: string)
    requires StrictlySorted(names) && (names == [] || Before(names[|names| - 1], x))
    ensures StrictlySorted(names + [x])
  {
    forall i | 0 <= i < |names| ensures Before(names[i], x) {
      if i < |names| - 1 { Transitive(Code, names[i], names[|names| - 1], x); }
    }
  }

  /** The listing has every key's entry after the pivot exactly once, in order of name. */
  lemma {:induction false} ListingIsExact(r: Request, pivot: string, keys: seq<string>)
    requires Listable(r, keys)
    ensures var listing := Entries(r, pivot, keys);
            StrictlySorted(Names(listing)) && ListsExactly(r, pivot, keys, listing)
    decreases |keys|
  {
    if keys != [] {
      var n := |keys| - 1;
      var key, rest := keys[n], keys[..n];
      assert keys == rest + [key];
      assert forall k :: k in rest ==> k in keys;
      ListingIsExact(r, pivot, rest);
      NewEntry(r, pivot, rest, Entries(r, pivot, rest), key);
    }
  }

  /** The entry of a new key is the last one again, if that is a common prefix, or is later. */
  lemma NewestIsLast(r: Request, pivot: string, rest: seq<string>, before: seq<Entry>, key: string)
    requires Listable(r, rest + [key]) && ListsExactly(r, pivot, rest, before) && before != []
    ensures var last, e := before[|before| - 1], EntryOf(r, key);
            (last == e && e.Common?) || Before(last.name, e.name)
  {
    var keys := rest + [key];
    var last := before[|before| - 1];
    assert last in before;
    var k :| k in rest && ListedAfter(r, pivot, k) && EntryOf(r, k) == last;
    var at :| 0 <= at < |rest| && rest[at] == k;
    assert keys[at] == k && Before(keys[at], keys[|rest|]);
    GroupingKeepsOrder(r, k, key);
  }

  lemma NewEntry(r: Request, pivot: string, rest: seq<string>, before: seq<Entry>, key: string)
    requires Listable(r, rest + [key])
    requires StrictlySorted(Names(before)) && ListsExactly(r, pivot, rest, before)
    ensures StrictlySorted(Names(Grown(r, pivot, before, key)))
    ensures ListsExactly(r, pivot, rest + [key], Grown(r, pivot, before, key))
  {
    var keys, listing, e := rest + [key], Grown(r, pivot, before, key), EntryOf(r, key);
    assert forall k :: k in keys <==> k in rest || k == key;
    if before != [] {
      NewestIsLast(r, pivot, rest, before, key);
      Irreflexive(Code, e.name);
      assert before[|before| - 1] in before;
    }
    EntryOfName(r, key);
    if listing != before {
      assert Names(listing) == Names(before) + [e.name];
      LastIsLargest(Names(before), e.name);
      assert ListedAfter(r, pivot, key);
    } else {
      assert ListedAfter(r, pivot, key) ==> e in before;
    }
  }

  // --- Resuming ----------------------------------------------------------------------------------------

  /** A token is the name of an entry of the listing it continues. */
  ghost predicate Resumes(r: Request, pivot: string, keys: seq<string>, at: string, from: string) {
    at in keys && ListedAfter(r, pivot, at) && EntryOf(r, at).name == from && from != ""
  }

  lemma NotBefore(a: string, b: string)
    requires !Before(a, b)
    ensures a == b || Before(b, a)
  {
    Total(Code, a, b);
  }

  /** What is listed after the token is listed after the first pivot, and is named later. */
  lemma LaterIsListed(r: Request, pivot: string, keys: seq<string>, at: string, from: string, key: string)
    requires Listable(r, keys) && Resumes(r, pivot, keys, at, from)
    requires key in keys && ListedAfter(r, from, key)
    ensures ListedAfter(r, pivot, key) && Before(from, EntryOf(r, key).name)
  {
    var c := EntryOf(r, key).name;
    NameStartsKey(r, key);
    EntryOfName(r, at);
    EntryOfName(r, key);
    if !Before(from, c) {
      NotBefore(from, c);
      if c != from {
        PrefixInterval(Code, c, from, key);
        SharedPrefixGroups(r, from, key);
      }
    }
    if pivot != "" {
      PivotIsPassed(r, pivot, keys, at, from, key);
    }
  }

  lemma PivotIsPassed(r: Request, pivot: string, keys: seq<string>, at: string, from: string, key: string)
    requires Listable(r, keys) && Resumes(r, pivot, keys, at, from) && pivot != ""
    requires key in keys && ListedAfter(r, from, key) && Before(from, EntryOf(r, key).name)
    ensures ListedAfter(r, pivot, key)
  {
    if Before(from, pivot) {
      // The token is a common prefix that the pivot itself starts with.
      NameStartsKey(r, at);
      Transitive(Code, from, pivot, at);
      Irreflexive(Code, from);
      PrefixInterval(Code, from, pivot, at);
      SharedPrefixGroups(r, pivot, at);
      EntryOfName(r, key);
      if !Before(pivot, key) {
        NotBefore(pivot, key);
        PrefixInterval(Code, from, key, pivot);
        SharedPrefixGroups(r, key, at);
      }
    } else {
      NotBefore(from, pivot);
      if from != pivot {
        Transitive(Code, pivot, from, key);
        Transitive(Code, pivot, from, EntryOf(r, key).name);
      }
      Irreflexive(Code, pivot);
    }
  }

  /** What is listed under a later name is listed after the token. */
  lemma NamedLaterIsListed(r: Request, from: string, key: string)
    requires from != "" && Before(from, EntryOf(r, key).name)
    ensures ListedAfter(r, from, key)
  {
    NameStartsKey(r, key);
    if EntryOf(r, key).name != key { Transitive(Code, from, EntryOf(r, key).name, key); }
    Irreflexive(Code, from);
  }

  lemma LaterNames(names: seq<string>, m: nat)
    requires StrictlySorted(names) && 0 < m <= |names|
    ensures forall x :: x in names[m..] <==> x in names && Before(names[m - 1], x)
  {
    forall x | x in names[m..] ensures x in names && Before(names[m - 1], x) {
      var i :| 0 <= i < |names[m..]| && names[m..][i] == x;
      assert names[m + i] == x;
    }
    forall x | x in names && Before(names[m - 1], x) ensures x in names[m..] {
      var i :| 0 <= i < |names| && names[i] == x;
      if i < m - 1 { Asymmetric(Code, names[i], names[m - 1]); }
      Irreflexive(Code, names[m - 1]);
      assert names[m..][i - m] == x;
    }
  }

  lemma TailMatches(names: seq<string>, m: nat, from: string, rest: seq<string>)
    requires StrictlySorted(names) && StrictlySorted(rest) && 0 < m <= |names| && names[m - 1] == from
    requires forall x :: x in rest ==> x in names && Before(from, x)
    requires forall x :: x in names && Before(from, x) ==> x in rest
    ensures rest == names[m..]
  {
    LaterNames(names, m);
    SortedUnique(rest, names[m..]);
  }

  ghost predicate NamedByName(r: Request, entries: seq<Entry>) {
    forall e :: e in entries ==> EntryOf(r, e.name) == e && e.name != ""
  }

  lemma NamesAreEntries(r: Request, pivot: string, keys: seq<string>)
    requires Listable(r, keys)
    ensures NamedByName(r, Entries(r, pivot, keys))
  {
    ListingIsExact(r, pivot, keys);
    forall e | e in Entries(r, pivot, keys) ensures EntryOf(r, e.name) == e && e.name != "" {
      var k :| k in keys && ListedAfter(r, pivot, k) && EntryOf(r, k) == e;
      EntryOfName(r, k);
    }
  }

  lemma NameOfMember(entries: seq<Entry>, e: Entry)
    requires e in entries
    ensures e.name in Names(entries)
  {
    var i :| 0 <= i < |entries| && entries[i] == e;
    assert Names(entries)[i] == e.name;
  }

  /** What `rest` lists after the token, `listing` lists later than the token. */
  lemma LaterNamesAreListed(r: Request, pivot: string, keys: seq<string>, at: string, from: string,
                            listing: seq<Entry>, rest: seq<Entry>)
    requires Listable(r, keys) && Resumes(r, pivot, keys, at, from)
    requires ListsExactly(r, pivot, keys, listing) && ListsExactly(r, from, keys, rest)
    ensures forall x :: x in Names(rest) ==> x in Names(listing) && Before(from, x)
  {
    forall x | x in Names(rest) ensures x in Names(listing) && Before(from, x) {
      var i :| 0 <= i < |rest| && rest[i].name == x;
      assert rest[i] in rest;
      var k :| k in keys && ListedAfter(r, from, k) && EntryOf(r, k) == rest[i];
      LaterIsListed(r, pivot, keys, at, from, k);
      NameOfMember(listing, EntryOf(r, k));
    }
  }

  lemma ListedNamesAreLater(r: Request, pivot: string, keys: seq<string>, from: string,
                            listing: seq<Entry>, rest: seq<Entry>)
    requires from != ""
    requires ListsExactly(r, pivot, keys, listing) && ListsExactly(r, from, keys, rest)
    ensures forall x :: x in Names(listing) && Before(from, x) ==> x in Names(rest)
  {
    forall x | x in Names(listing) && Before(from, x) ensures x in Names(rest) {
      var i :| 0 <= i < |listing| && listing[i].name == x;
      assert listing[i] in listing;
      var k :| k in keys && ListedAfter(r, pivot, k) && EntryOf(r, k) == listing[i];
      NamedLaterIsListed(r, from, k);
      NameOfMember(rest, EntryOf(r, k));
    }
  }

  lemma SameNames(r: Request, a: seq<Entry>, b: seq<Entry>)
    requires NamedByName(r, a) && NamedByName(r, b) && Names(a) == Names(b)
    ensures a == b
  {
    assert |a| == |Names(a)| == |b|;
    forall i | 0 <= i < |a| ensures a[i] == b[i] {
      assert Names(a)[i] == Names(b)[i] && a[i] in a && b[i] in b;
    }
  }

  lemma NamesSplit(entries: seq<Entry>, m: nat)
    requires 0 < m <= |entries|
    ensures Names(entries)[m - 1] == entries[m - 1].name && Names(entries[m..]) == Names(entries)[m..]
  {}

  /** The listing after the name of an entry is the rest of the listing that entry is in. */
  lemma ResumingContinues(r: Request, pivot: string, keys: seq<string>, m: nat)
    requires Listable(r, keys) && 0 < m <= |Entries(r, pivot, keys)|
    ensures Entries(r, pivot, keys)[m - 1].name != ""
    ensures Entries(r, Entries(r, pivot, keys)[m - 1].name, keys) == Entries(r, pivot, keys)[m..]
  {
    var listing := Entries(r, pivot, keys);
    ListingIsExact(r, pivot, keys);
    NamesAreEntries(r, pivot, keys);
    assert listing[m - 1] in listing;
    var at :| at in keys && ListedAfter(r, pivot, at) && EntryOf(r, at) == listing[m - 1];
    var from := listing[m - 1].name;
    ListingIsExact(r, from, keys);
    NamesAreEntries(r, from, keys);
    RestAfter(r, pivot, keys, at, from, listing, m, Entries(r, from, keys));
  }

  lemma RestAfter(r: Request, pivot: string, keys: seq<string>, at: string, from: string,
                  listing: seq<Entry>, m: nat, rest: seq<Entry>)
    requires Listable(r, keys) && Resumes(r, pivot, keys, at, from)
    requires 0 < m <= |listing| && listing[m - 1].name == from
    requires ListsExactly(r, pivot, keys, listing) && ListsExactly(r, from, keys, rest)
    requires StrictlySorted(Names(listing)) && StrictlySorted(Names(rest))
    requires NamedByName(r, listing) && NamedByName(r, rest)
    ensures rest == listing[m..]
  {
    LaterNamesAreListed(r, pivot, keys, at, from, listing, rest);
    ListedNamesAreLater(r, pivot, keys, from, listing, rest);
    NamesSplit(listing, m);
    TailMatches(Names(listing), m, from, Names(rest));
    SameNames(r, rest, listing[m..]);
  }

  // --- Following the tokens -------------------------------------------------------------------------------

  /** The entries a client is shown, page after page, as long as a page names the next one. */
  ghost function Followed(r: Request, pivot: string, keys: seq<string>, maxKeys: nat): seq<Entry>
    requires Listable(r, keys)
    decreases |Entries(r, pivot, keys)|
  {
    var listing := Entries(r, pivot, keys);
    var token := PageOf(listing, maxKeys).Token();
    var shown := if |listing| > maxKeys then listing[..maxKeys] else listing;
    if token.None? then shown
    else
      ResumingContinues(r, pivot, keys, maxKeys);
      shown + Followed(r, token.value, keys, maxKeys)
  }

  /** Nothing is listed exactly if no key is to be listed after the pivot. */
  lemma NothingListed(r: Request, pivot: string, keys: seq<string>)
    requires Listable(r, keys)
    ensures Entries(r, pivot, keys) == [] <==> forall k :: k in keys ==> !ListedAfter(r, pivot, k)
  {
    ListingIsExact(r, pivot, keys);
    var listing := Entries(r, pivot, keys);
    if listing != [] {
      assert listing[0] in listing;
    }
  }

  lemma {:induction false} PagesJoin(r: Request, pivot: string, keys: seq<string>, maxKeys: nat)
    requires Listable(r, keys)
    ensures Followed(r, pivot, keys, maxKeys) == Entries(r, pivot, keys) <==>
            maxKeys >= 1 || Entries(r, pivot, keys) == []
    decreases |Entries(r, pivot, keys)|
  {
    var listing := Entries(r, pivot, keys);
    if |listing| > maxKeys >= 1 {
      ResumingContinues(r, pivot, keys, maxKeys);
      PagesJoin(r, listing[maxKeys - 1].name, keys, maxKeys);
      assert listing == listing[..maxKeys] + listing[maxKeys..];
    }
  }

  /** Following the tokens ends, and it shows the whole listing if and only if a page may hold
      an entry or no key is to be listed: with max-keys 0 a truncated page has no token. */
  lemma PagesAreTheListing(r: Request, pivot: string, keys: seq<string>, maxKeys: nat)
    requires Listable(r, keys)
    ensures Followed(r, pivot, keys, maxKeys) == Entries(r, pivot, keys) <==>
            maxKeys >= 1 || forall k :: k in keys ==> !ListedAfter(r, pivot, k)
  {
    PagesJoin(r, pivot, keys, maxKeys);
    NothingListed(r, pivot, keys);
  }
}
