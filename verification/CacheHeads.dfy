/** The cached heads as a dictionary: what storing one keeps, and when one is used. */
module CacheHeads {
  import opened Wrappers
  import opened CacheModel

  ghost predicate DistinctHeads(heads: seq<Head>) {
    forall i, j :: 0 <= i < j < |heads| ==> heads[i].name != heads[j].name
  }

  lemma {:induction false} FindHeadIsExact(heads: seq<Head>, name: Name)
    ensures FindHead(heads, name).None? <==> forall h :: h in heads ==> h.name != name
    ensures DistinctHeads(heads) ==> forall h :: h in heads && h.name == name ==> FindHead(heads, name) == Some(h)
  {
    if heads != [] {
      FindHeadIsExact(heads[1..], name);
      assert heads == [heads[0]] + heads[1..];
      if heads[0].name == name && DistinctHeads(heads) {
        forall h | h in heads && h.name == name ensures h == heads[0] {
          var i :| 0 <= i < |heads| && heads[i] == h;
        }
      }
    }
  }

  /** Storing a head keeps the places: a known name keeps its own, a new one comes last. */
  lemma {:induction false} PutKeepsPlaces(heads: seq<Head>, h: Head)
    ensures FindHead(heads, h.name).None? ==> PutHead(heads, h) == heads + [h]
    ensures FindHead(heads, h.name).Some? ==>
              |PutHead(heads, h)| == |heads| &&
              forall i :: 0 <= i < |heads| ==> PutHead(heads, h)[i].name == heads[i].name
    ensures FindHead(PutHead(heads, h), h.name) == Some(h)
    ensures forall n :: n != h.name ==> FindHead(PutHead(heads, h), n) == FindHead(heads, n)
  {
    if heads == [] {
      assert [h][1..] == [];
    } else {
      PutKeepsPlaces(heads[1..], h);
      var r := PutHead(heads, h);
      assert heads == [heads[0]] + heads[1..];
      assert r[1..] == if heads[0].name == h.name then heads[1..] else PutHead(heads[1..], h);
    }
  }

  lemma PutKeepsDistinct(heads: seq<Head>, h: Head)
    requires DistinctHeads(heads)
    ensures DistinctHeads(PutHead(heads, h))
  {
    PutKeepsPlaces(heads, h);
    FindHeadIsExact(heads, h.name);
    var r := PutHead(heads, h);
    if FindHead(heads, h.name).Some? {
      assert forall i :: 0 <= i < |r| ==> r[i].name == heads[i].name;
    } else {
      assert forall i :: 0 <= i < |heads| ==> heads[i] in heads;
    }
  }

  /** What is left when the oldest heads go are heads as they were. */
  lemma TrimmedFinds(heads: seq<Head>, n: Name)
    requires DistinctHeads(heads)
    ensures DistinctHeads(Trim(heads)) && FindHead(Trim(heads), n) in {None, FindHead(heads, n)}
    ensures |heads| <= MAX_HEADS ==> Trim(heads) == heads
  {
    FindHeadIsExact(heads, n);
  }

  lemma LastIsFound(heads: seq<Head>, h: Head)
    requires DistinctHeads(heads) && h in heads
    ensures FindHead(heads, h.name) == Some(h)
  {
    FindHeadIsExact(heads, h.name);
  }

  /** After storing, the new head is there, and the others are as they were or, if there is no room,
      gone. */
  lemma StoredIsFound(heads: seq<Head>, name: Name, size: nat, now: Time)
    requires DistinctHeads(heads) && |heads| <= MAX_HEADS
    ensures var r := HeadStored(heads, name, size, now);
            && DistinctHeads(r) && |r| <= MAX_HEADS && FindHead(r, name) == Some(Head(name, now, size))
            && (forall n :: n != name ==> FindHead(r, n) in {None, FindHead(heads, n)})
            && (|heads| < MAX_HEADS ==> forall n :: n != name ==> FindHead(r, n) == FindHead(heads, n))
  {
    var h := Head(name, now, size);
    var put := PutHead(heads, h);
    PutKeepsPlaces(heads, h);
    PutKeepsDistinct(heads, h);
    forall n ensures DistinctHeads(Trim(put)) && FindHead(Trim(put), n) in {None, FindHead(put, n)} {
      TrimmedFinds(put, n);
    }
    if |put| > MAX_HEADS {
      assert Trim(put)[MAX_HEADS - 1] == put[|put| - 1] == h;
      LastIsFound(Trim(put), h);
    }
  }

  predicate Usable(ttl: Time, now: Time, h: Option<Head>) {
    h.Some? && (ttl <= 0.0 || now < h.value.storedAt + ttl)
  }

  /** A head is used exactly if it is there and was stored less than the time to live ago, or there
      is none. Otherwise the backend is asked, and what it says is kept. */
  lemma HeadReadIsExact(heads: seq<Head>, name: Name, ttl: Time, now: Time, later: Time, store: Store)
    requires DistinctHeads(heads) && |heads| <= MAX_HEADS
    ensures var (heads', size) := HeadRead(heads, name, ttl, now, later, store);
            var known := FindHead(heads, name);
            && DistinctHeads(heads') && |heads'| <= MAX_HEADS
            && (Usable(ttl, now, known) ==> heads' == heads && size == Some(known.value.size))
            && (!Usable(ttl, now, known) && name !in store ==> heads' == heads && size == None)
            && (!Usable(ttl, now, known) && name in store ==>
                  size == Some(|store[name]|) && FindHead(heads', name) == Some(Head(name, later, |store[name]|)))
  {
    if name in store { StoredIsFound(heads, name, |store[name]|, later); }
  }

  /** Full reads leave the heads alone. A ranged read that is not cached asks for the head first; of
      an object that is missing it answers nothing, and of a large one it leaves the cache as it is. */
  lemma RangedReadsAskFirst(d: seq<Entry>, heads: seq<Head>, name: Name, range: Option<ByteRange>, ttl: Time,
                            maxBytes: nat, t: Times, atHead: Store, atGet: Store)
    requires range.Some? ==> range.value.Valid()
    ensures var r := Served(d, heads, name, range, ttl, maxBytes, t, atHead, atGet);
            var asked := HeadRead(heads, name, ttl, t.head, t.headStored, atHead);
            && (range.None? || Hit(d, name, ttl, t.lookup).Some? ==> r.heads == heads)
            && (range.Some? && Hit(d, name, ttl, t.lookup).None? ==>
                  r.heads == asked.0 && (asked.1.None? ==> r.result.None?) &&
                  (asked.1.None? || asked.1.value > maxBytes / 4 ==> r.data == LookedUp(d, name, ttl, t.lookup)))
  {}
}
