/** GET and HEAD of an object: Range headers, and serving them through the cache. */
module Objects {
  import opened Wrappers
  import opened CacheModel
  import Cache
  import Decimal
  import Lexer
  import Lexical

  datatype RangeOutcome = Whole | Unsatisfiable | Partial(start: nat, end: int)

  /** `header.strip()` */
  function StripLeft(s: string): string {
    if s != "" && Lexer.IsSpace(s[0]) then StripLeft(s[1..]) else s
  }

  function StripRight(s: string): string {
    if s != "" && Lexer.IsSpace(s[|s| - 1]) then StripRight(s[..|s| - 1]) else s
  }

  const UNIT := "bytes="

  function HeaderText(first: string, last: string): string { "bytes=" + (first + ("-" + last)) }

  /** The two runs of digits of `bytes=(digits)-(digits)`; None for any other text. */
  function MatchRange(s: string): (r: Option<(string, string)>)
    ensures r.Some? ==> Decimal.AllDigits(r.value.0) && Decimal.AllDigits(r.value.1) &&
                        s == HeaderText(r.value.0, r.value.1)
  {
    if !(UNIT <= s) then None
    else
      var rest := s[|UNIT|..];
      Lexer.RunIsLongest(rest, Lexer.Digits);
      var n := Lexer.Run(rest, Lexer.Digits);
      if n < |rest| && rest[n] == '-' && Decimal.AllDigits(rest[n + 1..]) then
        assert rest == rest[..n] + ("-" + rest[n + 1..]);
        assert s == UNIT + rest;
        Some((rest[..n], rest[n + 1..]))
      else None
  }

  /** The inclusive range that two runs of digits ask of an object of this size. */
  function RangeOf(first: string, last: string, size: nat): RangeOutcome
    requires Decimal.AllDigits(first) && Decimal.AllDigits(last)
  {
    if first == "" && last == "" then Whole
    else if first == "" then
      var length := Decimal.Read(last);
      if length == 0 then Unsatisfiable
      else Partial(if size > length then size - length else 0, size - 1)
    else
      var start := Decimal.Read(first);
      var end := if last != "" then Min(Decimal.Read(last), size - 1) else size - 1;
      if start >= size || (last != "" && Decimal.Read(last) < start) then Unsatisfiable
      else Partial(start, end)
  }

  /** Malformed and multi-range headers are ignored. */
  function ParseRange(header: Option<string>, size: nat): RangeOutcome {
    if header.None? || header.value == "" then Whole
    else
      var m := MatchRange(StripRight(StripLeft(header.value)));
      if m.None? then Whole else RangeOf(m.value.0, m.value.1, size)
  }

  /** The header asks for the last bytes of the object. */
  predicate IsSuffix(header: Option<string>) {
    header.Some? && header.value != "" &&
    var m := MatchRange(StripRight(StripLeft(header.value)));
    m.Some? && m.value.0 == "" && m.value.1 != ""
  }

  /** A range that is served lies inside the object, except that a suffix of an empty object is
      (0, -1): ranges are proper exactly if the object has a byte or the header asks for no suffix. */
  lemma RangesAreInside(header: Option<string>, size: nat)
    ensures var r := ParseRange(header, size);
            r.Partial? ==> (0 <= r.start <= r.end < size <==> size >= 1 || !IsSuffix(header))
    ensures var r := ParseRange(header, size);
            r.Partial? ==> r.start <= r.end + 1 && r.end < size
  {}

  // --- What a header asks for ---------------------------------------------------------------------

  /** The header is `bytes=`, digits or none, a dash, digits or none, and white space around it. */
  ghost predicate Asks(header: string, first: string, last: string) {
    && Decimal.AllDigits(first) && Decimal.AllDigits(last)
    && exists l, r :: Lexical.Blanks(l) && Lexical.Blanks(r) && header == l + (HeaderText(first, last) + r)
  }

  lemma {:induction false} StripLeftBack(l: string, t: string)
    requires Lexical.Blanks(l) && (t == "" || !Lexer.IsSpace(t[0]))
    ensures StripLeft(l + t) == t
    decreases |l|
  {
    if l == "" {
      assert l + t == t;
    } else {
      assert (l + t)[1..] == l[1..] + t;
      StripLeftBack(l[1..], t);
    }
  }

  lemma {:induction false} StripRightBack(t: string, r: string)
    requires Lexical.Blanks(r) && (t == "" || !Lexer.IsSpace(t[|t| - 1]))
    ensures StripRight(t + r) == t
    decreases |r|
  {
    if r == "" {
      assert t + r == t;
    } else {
      var n := |r| - 1;
      assert (t + r)[..|t + r| - 1] == t + r[..n];
      StripRightBack(t, r[..n]);
    }
  }

  lemma {:induction false} StrippedLeft(s: string) returns (l: string)
    ensures Lexical.Blanks(l) && s == l + StripLeft(s)
    decreases |s|
  {
    if s != "" && Lexer.IsSpace(s[0]) {
      var l' := StrippedLeft(s[1..]);
      l := [s[0]] + l';
    } else {
      l := "";
    }
  }

  lemma {:induction false} StrippedRight(s: string) returns (r: string)
    ensures Lexical.Blanks(r) && s == StripRight(s) + r
    decreases |s|
  {
    if s != "" && Lexer.IsSpace(s[|s| - 1]) {
      var r' := StrippedRight(s[..|s| - 1]);
      r := r' + [s[|s| - 1]];
    } else {
      r := "";
    }
  }

  /** The white space around a text with none at its ends is taken away, and only that. */
  lemma StripBack(l: string, text: string, r: string)
    requires Lexical.Blanks(l) && Lexical.Blanks(r)
    requires text != "" && !Lexer.IsSpace(text[0]) && !Lexer.IsSpace(text[|text| - 1])
    ensures StripRight(StripLeft(l + (text + r))) == text
  {
    assert (text + r)[0] == text[0];
    StripLeftBack(l, text + r);
    StripRightBack(text, r);
  }

  lemma MatchBack(first: string, last: string)
    requires Decimal.AllDigits(first) && Decimal.AllDigits(last)
    ensures MatchRange(HeaderText(first, last)) == Some((first, last))
  {
    var text, rest := HeaderText(first, last), first + ("-" + last);
    assert text[|UNIT|..] == rest;
    DigitsStop(first, "-" + last);
    assert rest[..|first|] == first && rest[|first| + 1..] == last;
  }

  /** A text is matched exactly if it is `bytes=`, digits or none, a dash, and digits or none. */
  lemma MatchedTexts(s: string)
    ensures MatchRange(s).Some? <==>
            exists first, last :: Decimal.AllDigits(first) && Decimal.AllDigits(last) && s == HeaderText(first, last)
  {
    if first, last :| Decimal.AllDigits(first) && Decimal.AllDigits(last) && s == HeaderText(first, last) {
      MatchBack(first, last);
    }
    if MatchRange(s).Some? {
      var (first, last) := MatchRange(s).value;
      assert s == HeaderText(first, last);
    }
  }

  /** What a header asks for is read, with white space around it or without. */
  lemma RangeTexts(header: string, first: string, last: string, size: nat)
    requires Asks(header, first, last)
    ensures MatchRange(StripRight(StripLeft(header))) == Some((first, last))
    ensures ParseRange(Some(header), size) == RangeOf(first, last, size)
  {
    var text := HeaderText(first, last);
    var l, r :| Lexical.Blanks(l) && Lexical.Blanks(r) && header == l + (text + r);
    assert text[|text| - 1] == if last == "" then '-' else last[|last| - 1];
    StripBack(l, text, r);
    MatchBack(first, last);
  }

  lemma MatchedAsks(header: string)
    requires MatchRange(StripRight(StripLeft(header))).Some?
    ensures var m := MatchRange(StripRight(StripLeft(header))).value; Asks(header, m.0, m.1)
  {
    var l := StrippedLeft(header);
    var r := StrippedRight(StripLeft(header));
  }

  /** The whole object is sent exactly if there is no header or an empty one, the header is not of
      the form, or it is and has no digits at all. */
  lemma WholeExactly(header: Option<string>, size: nat)
    ensures ParseRange(header, size) == Whole <==>
            header.None? || forall first, last :: Asks(header.value, first, last) ==> first == "" && last == ""
  {
    if header.Some? {
      forall first, last | Asks(header.value, first, last)
        ensures MatchRange(StripRight(StripLeft(header.value))) == Some((first, last))
        ensures header.value != ""
      {
        RangeTexts(header.value, first, last, size);
      }
      if MatchRange(StripRight(StripLeft(header.value))).Some? { MatchedAsks(header.value); }
    }
  }

  lemma {:induction false} DigitsStop(s: string, rest: string)
    requires Decimal.AllDigits(s) && rest != "" && !Decimal.IsDigit(rest[0])
    ensures Lexer.Run(s + rest, Lexer.Digits) == |s|
    decreases |s|
  {
    if s == "" {
      assert s + rest == rest;
    } else {
      assert (s + rest)[1..] == s[1..] + rest;
      DigitsStop(s[1..], rest);
    }
  }

  /** For every first and last byte, with zeros before them or none: a header that asks for them
      selects those bytes, cut at the end of the object, and is refused if it starts past the end
      or ends before it starts. */
  lemma ClosedRange(header: string, a: nat, zerosA: nat, b: nat, zerosB: nat, size: nat)
    requires Asks(header, Decimal.Padded(a, zerosA), Decimal.Padded(b, zerosB))
    ensures ParseRange(Some(header), size) == if a >= size || b < a then Unsatisfiable else Partial(a, Min(b, size - 1))
  {
    Decimal.ReadUndoesPadding(a, zerosA);
    Decimal.ReadUndoesPadding(b, zerosB);
    RangeTexts(header, Decimal.Padded(a, zerosA), Decimal.Padded(b, zerosB), size);
  }

  /** Without a last byte, everything from the first on. */
  lemma OpenRange(header: string, a: nat, zeros: nat, size: nat)
    requires Asks(header, Decimal.Padded(a, zeros), "")
    ensures ParseRange(Some(header), size) == if a >= size then Unsatisfiable else Partial(a, size - 1)
  {
    Decimal.ReadUndoesPadding(a, zeros);
    RangeTexts(header, Decimal.Padded(a, zeros), "", size);
  }

  /** Without a first byte, that many bytes at the end. */
  lemma SuffixRange(header: string, n: nat, zeros: nat, size: nat)
    requires Asks(header, "", Decimal.Padded(n, zeros))
    ensures ParseRange(Some(header), size) ==
            if n == 0 then Unsatisfiable else Partial(if size > n then size - n else 0, size - 1)
  {
    RangeTexts(header, "", Decimal.Padded(n, zeros), size);
    SuffixOf(n, zeros, size);
  }

  lemma SuffixOf(n: nat, zeros: nat, size: nat)
    ensures RangeOf("", Decimal.Padded(n, zeros), size) ==
            if n == 0 then Unsatisfiable else Partial(if size > n then size - n else 0, size - 1)
  {
    Decimal.ReadUndoesPadding(n, zeros);
  }

  // --- Serving ----------------------------------------------------------------------------------------

  datatype Response = NoSuchBucket | NoSuchKey | InvalidRange | Served(status: nat, length: int, body: Bytes)

  /** What a GET answers for an object; a HEAD answers the same without the body. */
  function Expected(header: Option<string>, bucketExists: bool, content: Option<Bytes>): Response {
    if content.None? then Missing(bucketExists)
    else
      match ParseRange(header, |content.value|)
      case Whole => Served(200, |content.value|, content.value)
      case Unsatisfiable => InvalidRange
      case Partial(start, end) => Served(206, end - start + 1, Piece(content.value, start, end))
  }

  function Missing(bucketExists: bool): Response { if bucketExists then NoSuchKey else NoSuchBucket }

  function WithoutBody(r: Response): Response { if r.Served? then r.(body := []) else r }

  function Piece(content: Bytes, start: nat, end: int): Bytes {
    if 0 <= start <= end < |content| then content[start..end + 1] else []
  }

  lemma SliceIsPiece(content: Bytes, start: nat, end: int)
    requires start <= end + 1 && end < |content|
    ensures ByteRange(start, end).Valid() && Slice(Some(ByteRange(start, end)), content) == Piece(content, start, end)
    ensures |Piece(content, start, end)| == end - start + 1
  {}

  lemma RangeSlices(header: Option<string>, content: Bytes)
    ensures var r := ParseRange(header, |content|);
            r.Partial? ==>
              ByteRange(r.start, r.end).Valid() &&
              Slice(Some(ByteRange(r.start, r.end)), content) == Piece(content, r.start, r.end) &&
              |Piece(content, r.start, r.end)| == r.end - r.start + 1
  {
    RangesAreInside(header, |content|);
    var r := ParseRange(header, |content|);
    if r.Partial? { SliceIsPiece(content, r.start, r.end); }
  }

  /** The length a HEAD promises is that of the bytes a GET sends. */
  lemma HeadPromisesGet(header: Option<string>, bucketExists: bool, content: Option<Bytes>)
    ensures var r := Expected(header, bucketExists, content); r.Served? ==> r.length == |r.body|
  {
    if content.Some? { RangeSlices(header, content.value); }
  }

  /** Without a header, or with one to be ignored, exactly the object is sent, with status 200, and
      HEAD tells its size. */
  lemma WholeIsServed(header: Option<string>, bucketExists: bool, content: Bytes)
    requires header.None? || forall first, last :: Asks(header.value, first, last) ==> first == "" && last == ""
    ensures Expected(header, bucketExists, Some(content)) == Served(200, |content|, content)
    ensures HeadAnswer(header, bucketExists, Some(|content|)) == Served(200, |content|, [])
    ensures GetAnswer(header, bucketExists, Some(|content|), Some(content)) == Served(200, |content|, content)
  {
    WholeExactly(header, |content|);
  }

  /** The bytes to ask for, once the size is known. */
  function Wanted(header: Option<string>, size: nat): (r: Option<ByteRange>)
    ensures r.Some? ==> r.value.Valid()
  {
    RangesAreInside(header, size);
    var r := ParseRange(header, size);
    if r.Partial? then Some(ByteRange(r.start, r.end)) else None
  }

  /** The answer to a HEAD, given the size the cache knows or the backend says. */
  function HeadAnswer(header: Option<string>, bucketExists: bool, size: Option<nat>): Response {
    if size.None? then Missing(bucketExists)
    else
      match ParseRange(header, size.value)
      case Whole => Served(200, size.value, [])
      case Unsatisfiable => InvalidRange
      case Partial(start, end) => Served(206, end - start + 1, [])
  }

  /** The answer to a GET, given that size and what was read afterwards: nothing if the object was
      removed in between, and maybe other bytes if it was changed. */
  function GetAnswer(header: Option<string>, bucketExists: bool, size: Option<nat>, content: Option<Bytes>): Response {
    if size.None? then Missing(bucketExists)
    else
      var outcome := ParseRange(header, size.value);
      if outcome == Unsatisfiable then InvalidRange
      else if content.None? then NoSuchKey
      else Served(if outcome == Whole then 200 else 206, |content.value|, content.value)
  }

  lemma HeadAnswerIsExpected(header: Option<string>, bucketExists: bool, content: Option<Bytes>)
    ensures HeadAnswer(header, bucketExists, if content.Some? then Some(|content.value|) else None) ==
            WithoutBody(Expected(header, bucketExists, content))
  {}

  lemma GetAnswerIsExpected(header: Option<string>, bucketExists: bool, content: Bytes)
    ensures GetAnswer(header, bucketExists, Some(|content|), Some(Slice(Wanted(header, |content|), content))) ==
            Expected(header, bucketExists, Some(content))
  {
    RangeSlices(header, content);
  }

  /** HEAD through the cache. If what is cached agrees with the backend, it answers for the object
      that is there. */
  method HeadObject(cache: Cache.CachedBackend, name: Name, header: Option<string>, store: Store, bucketExists: bool,
                    now: Time, later: Time)
    returns (r: Response)
    requires cache.Valid()
    modifies cache`heads
    ensures cache.Valid()
    ensures r == HeadAnswer(header, bucketExists, HeadRead(old(cache.heads), name, cache.ttl, now, later, store).1)
    ensures Agrees(old(cache.data), old(cache.heads), store) ==>
              Agrees(cache.data, cache.heads, store) &&
              r == WithoutBody(Expected(header, bucketExists, CacheModel.Whole(store, name)))
    ensures Agrees(old(cache.data), old(cache.heads), store) && name !in store ==>
              r == if bucketExists then NoSuchKey else NoSuchBucket
  {
    ghost var before := cache.heads;
    var size := cache.HeadObject(name, store, now, later);
    if Agrees(cache.data, before, store) {
      HeadsStayAgreed(cache.data, before, name, cache.ttl, now, later, store);
      HeadAnswerIsExpected(header, bucketExists, CacheModel.Whole(store, name));
    }
    if size.None? {
      return Missing(bucketExists);
    }
    match ParseRange(header, size.value)
    case Whole => return Served(200, size.value, []);
    case Unsatisfiable => return InvalidRange;
    case Partial(start, end) => return Served(206, end - start + 1, []);
  }

  /** GET through the cache. The backend may change between its HEAD, the HEAD of a ranged read
      and the GET: then the answer is what the size and the bytes read make of it. While it does
      not change, it is the bytes asked for, as many as HEAD says, whichever way the cache gets
      them. */
  method GetObject(cache: Cache.CachedBackend, name: Name, header: Option<string>, store: Store, bucketExists: bool,
                   now: Time, later: Time, t: Times, atHead: Store, atGet: Store)
    returns (r: Response)
    requires cache.Valid()
    modifies cache`data, cache`size, cache`heads
    ensures cache.Valid()
    ensures var (heads, size) := HeadRead(old(cache.heads), name, cache.ttl, now, later, store);
            var range := if size.Some? then Wanted(header, size.value) else None;
            r == GetAnswer(header, bucketExists, size,
                           CacheModel.Served(old(cache.data), heads, name, range, cache.ttl, cache.maxBytes, t,
                                             atHead, atGet).result)
    ensures Agrees(old(cache.data), old(cache.heads), store) && store == atHead == atGet ==>
              Agrees(cache.data, cache.heads, store) &&
              r == Expected(header, bucketExists, CacheModel.Whole(store, name))
    ensures Agrees(old(cache.data), old(cache.heads), store) && name !in store ==>
              r == if bucketExists then NoSuchKey else NoSuchBucket
  {
    ghost var data, heads := cache.data, cache.heads;
    var size := cache.HeadObject(name, store, now, later);
    ghost var known := cache.heads;
    if Agrees(data, heads, store) {
      HeadsStayAgreed(data, heads, name, cache.ttl, now, later, store);
    }
    if size.None? {
      return Missing(bucketExists);
    }
    var outcome := ParseRange(header, size.value);
    if outcome == Unsatisfiable {
      return InvalidRange;
    }
    var range := Wanted(header, size.value);
    if Agrees(data, known, store) && store == atHead == atGet {
      ReadsAreExact(data, known, name, range, cache.ttl, cache.maxBytes, t, store);
      if name in store && size.value == |store[name]| { GetAnswerIsExpected(header, bucketExists, store[name]); }
    }
    var content := cache.GetObject(name, range, t, atHead, atGet);
    if content.None? {
      return NoSuchKey;
    }
    return Served(if outcome == Whole then 200 else 206, |content.value|, content.value);
  }

  lemma HeadsStayAgreed(d: seq<Entry>, heads: seq<Head>, name: Name, ttl: Time, now: Time, later: Time, store: Store)
    requires Agrees(d, heads, store)
    ensures var (heads', size) := HeadRead(heads, name, ttl, now, later, store);
            Agrees(d, heads', store) && size == if name in store then Some(|store[name]|) else None
  {}
}
