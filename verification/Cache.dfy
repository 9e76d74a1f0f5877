/** The read-through cache as an object updated in place. */
module Cache {
  import opened Wrappers
  import opened CacheModel
  import opened CacheHeads

  class CachedBackend {
    const maxBytes: nat
    const maxItemBytes: nat
    const ttl: Time
    // Oldest first.
    var data: seq<Entry>
    var heads: seq<Head>
    var size: nat

    constructor (maxBytes: nat, ttl: Time)
      ensures Valid() && this.maxBytes == maxBytes && this.ttl == ttl && data == [] && heads == []
    {
      this.maxBytes := maxBytes;
      this.maxItemBytes := maxBytes / 4;
      this.ttl := ttl;
      data, heads, size := [], [], 0;
    }

    /** What holds whenever the lock is free. */
    ghost predicate Valid()
      reads this
    {
      && maxItemBytes == maxBytes / 4 && size == Total(data) && Bounded(data, maxBytes)
      && |heads| <= MAX_HEADS && DistinctHeads(heads)
    }

    method GetCached(name: Name, now: Time) returns (r: Option<Bytes>)
      requires Valid()
      modifies this`data, this`size
      ensures Valid() && r == Hit(old(data), name, ttl, now) && data == LookedUp(old(data), name, ttl, now)
    {
      LookupKeepsBounds(data, name, ttl, now, maxBytes);
      WithoutTotal(data, name);
      var entry := Find(data, name);
      if entry.None? {
        return None;
      }
      if !Fresh(ttl, now, entry.value.storedAt) {
        assert Without(data, name) + [] == Without(data, name);
        size := size - |entry.value.content|;
        data := Without(data, name);
        return None;
      }
      data := Without(data, name) + [entry.value];
      return Some(entry.value.content);
    }

    method Store(name: Name, content: Bytes, now: Time)
      requires Valid()
      modifies this`data, this`size
      ensures data == Stored(old(data), name, content, now, maxBytes) && size == Total(data)
      ensures |content| <= maxItemBytes ==> Valid()
    {
      ghost var before := data;
      WithoutTotal(data, name);
      WithoutIfAbsent(data, name);
      var entry := Find(data, name);
      if entry.Some? {
        size := size - |entry.value.content|;
        data := Without(data, name);
      }
      JoinedBounds(before, name, content, now);
      data := data + [Entry(name, now, content)];
      size := size + |content|;
      while size > maxBytes && data != []
        invariant size == Total(data)
        invariant Evicted(data, maxBytes) == Stored(before, name, content, now, maxBytes)
        decreases |data|
      {
        size := size - |data[0].content|;
        data := data[1..];
      }
      if |content| <= maxItemBytes {
        StoreKeepsBounds(before, name, content, now, maxBytes);
      }
    }

    /** `store` is the backend at the moment it is asked; `later` is when the head is stored. */
    method HeadObject(name: Name, store: CacheModel.Store, now: Time, later: Time) returns (r: Option<nat>)
      requires Valid()
      modifies this`heads
      ensures Valid() && (heads, r) == HeadRead(old(heads), name, ttl, now, later, store)
    {
      HeadReadIsExact(heads, name, ttl, now, later, store);
      var hit := HeadHit(heads, name, ttl, now);
      if hit.Some? {
        return hit;
      }
      if name !in store {
        return None;
      }
      ghost var before := heads;
      var put := PutHead(heads, Head(name, later, |store[name]|));
      while |put| > MAX_HEADS
        invariant Trim(put) == HeadStored(before, name, |store[name]|, later)
        decreases |put|
      {
        TrimStep(put);
        put := put[1..];
      }
      assert Trim(put) == put;
      heads := put;
      return Some(|store[name]|);
    }

    /** A read, full or of a range. `atHead` and `atGet` are the backend at the moments it is
        asked for the head and for the object. */
    method GetObject(name: Name, range: Option<ByteRange>, t: Times, atHead: CacheModel.Store, atGet: CacheModel.Store)
      returns (r: Option<Bytes>)
      requires Valid() && (range.Some? ==> range.value.Valid())
      modifies this`data, this`size, this`heads
      ensures Valid()
      ensures Read(data, heads, r) == Served(old(data), old(heads), name, range, ttl, maxBytes, t, atHead, atGet)
    {
      var content := GetCached(name, t.lookup);
      if content.None? {
        if range.Some? {
          // Large objects are not pulled into the cache for a range.
          var info := HeadObject(name, atHead, t.head, t.headStored);
          if info.None? {
            return None;
          }
          if info.value > maxItemBytes {
            return if name in atGet then Some(Slice(range, atGet[name])) else None;
          }
        }
        if name !in atGet {
          return None;
        }
        content := Some(atGet[name]);
        if |content.value| <= maxItemBytes {
          Store(name, content.value, t.stored);
        }
      }
      return Some(Slice(range, content.value));
    }
  }

  lemma WithoutIfAbsent(d: seq<Entry>, name: Name)
    ensures Find(d, name).None? ==> Without(d, name) == d
  {
    if Find(d, name).None? { WithoutAbsent(d, name); }
  }
}
