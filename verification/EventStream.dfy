/** The event stream framing of S3 Select results: messages, their decoding, and the stream of
    Records events a result is sent as. */
module EventStream {
  import opened Wrappers
  import opened Utf8
  import Decimal

  type Bytes = seq<Byte>
  type Word = n: int | 0 <= n < 0x1_0000_0000

  /** CRC-32; any function of the bytes will do. */
  type Checksum = Bytes -> Word

  /** A dictionary of names and values, in order of insertion. */
  type Headers = seq<(string, string)>

  datatype Frame = Frame(headers: Headers, payload: Bytes)

  // --- Numbers --------------------------------------------------------------------------------------

  function Power(width: nat): nat { if width == 0 then 1 else 256 * Power(width - 1) }

  function BigEndian(n: nat, width: nat): (r: Bytes)
    ensures |r| == width
  {
    if width == 0 then [] else BigEndian(n / 256, width - 1) + [n % 256]
  }

  function Number(b: Bytes): nat {
    if b == [] then 0 else 256 * Number(b[..|b| - 1]) + b[|b| - 1]
  }

  lemma {:induction false} NumberUndoesBigEndian(n: nat, width: nat)
    requires n < Power(width)
    ensures Number(BigEndian(n, width)) == n
  {
    if width > 0 {
      NumberUndoesBigEndian(n / 256, width - 1);
      var b := BigEndian(n, width);
      assert b[..|b| - 1] == BigEndian(n / 256, width - 1);
    }
  }

  lemma Packed(n: nat)
    ensures n < 0x1_0000 ==> Number(BigEndian(n, 2)) == n
    ensures n < 0x1_0000_0000 ==> Number(BigEndian(n, 4)) == n
  {
    assert Power(2) == 0x1_0000;
    assert Power(4) == 256 * (256 * Power(2));
    if n < 0x1_0000 { NumberUndoesBigEndian(n, 2); }
    if n < 0x1_0000_0000 { NumberUndoesBigEndian(n, 4); }
  }

  /** The bytes of a length or a checksum, most significant first. */
  lemma FieldBytes(n: nat)
    ensures n < 0x1_0000 ==> BigEndian(n, 2) == [n / 0x100, n % 0x100]
    ensures n < 0x1_0000_0000 ==>
              BigEndian(n, 4) == [n / 0x100_0000, n / 0x1_0000 % 0x100, n / 0x100 % 0x100, n % 0x100]
  {
    assert BigEndian(n, 2) == BigEndian(n / 0x100, 1) + [n % 0x100];
    assert n / 0x100 / 0x100 == n / 0x1_0000 && n / 0x1_0000 / 0x100 == n / 0x100_0000;
    assert BigEndian(n, 4) == BigEndian(n / 0x1_0000, 2) + [n / 0x100 % 0x100] + [n % 0x100];
  }

  lemma {:induction false} NumberIsBelow(b: Bytes)
    ensures Number(b) < Power(|b|)
    decreases |b|
  {
    if b != [] { NumberIsBelow(b[..|b| - 1]); }
  }

  /** A field of this many bytes holds the number. */
  predicate Holds(n: nat, width: nat) { Number(BigEndian(n, width)) == n }

  lemma HoldsExactly(n: nat, width: nat)
    ensures Holds(n, width) <==> n < Power(width)
  {
    NumberIsBelow(BigEndian(n, width));
    if n < Power(width) { NumberUndoesBigEndian(n, width); }
  }

  // --- Headers ---------------------------------------------------------------------------------------

  const STRING_TYPE := 7

  predicate HeaderFits(h: (string, string)) { |Encode(h.0)| <= 0xFF && |Encode(h.1)| <= 0xFFFF }

  function HeaderBytes(h: (string, string)): Bytes
    requires HeaderFits(h)
  {
    var name, value := Encode(h.0), Encode(h.1);
    [|name|] + (name + ([STRING_TYPE] + (BigEndian(|value|, 2) + value)))
  }

  predicate HeadersFit(headers: Headers) { forall h :: h in headers ==> HeaderFits(h) }

  function AllHeaderBytes(headers: Headers): Bytes
    requires HeadersFit(headers)
  {
    if headers == [] then [] else HeaderBytes(headers[0]) + AllHeaderBytes(headers[1..])
  }

  lemma {:induction false} HeaderBytesAppend(headers: Headers, h: (string, string))
    requires HeadersFit(headers) && HeaderFits(h)
    ensures AllHeaderBytes(headers + [h]) == AllHeaderBytes(headers) + HeaderBytes(h)
  {
    if headers == [] {
      assert headers + [h] == [h] && [h][1..] == [];
    } else {
      assert (headers + [h])[1..] == headers[1..] + [h];
      HeaderBytesAppend(headers[1..], h);
    }
  }

  /** None when a name or a value is too long for its length field. */
  method EncodeHeaders(headers: Headers) returns (r: Option<Bytes>)
    ensures r == if HeadersFit(headers) then Some(AllHeaderBytes(headers)) else None
  {
    var encoded: Bytes := [];
    for k := 0 to |headers|
      invariant HeadersFit(headers[..k]) && encoded == AllHeaderBytes(headers[..k])
    {
      var name, value := Encode(headers[k].0), Encode(headers[k].1);
      assert headers[k] in headers;
      if |name| > 0xFF {
        return None;
      }
      encoded := encoded + [|name|] + name + [STRING_TYPE];
      if |value| > 0xFFFF {
        return None;
      }
      encoded := encoded + BigEndian(|value|, 2) + value;
      assert headers[..k + 1] == headers[..k] + [headers[k]];
      HeaderBytesAppend(headers[..k], headers[k]);
      HeaderInParts(AllHeaderBytes(headers[..k]), headers[k]);
    }
    assert headers[..|headers|] == headers;
    return Some(encoded);
  }

  lemma HeaderInParts(before: Bytes, h: (string, string))
    requires HeaderFits(h)
    ensures var name, value := Encode(h.0), Encode(h.1);
            before + HeaderBytes(h) == before + [|name|] + name + [STRING_TYPE] + BigEndian(|value|, 2) + value
  {}

  /** The first header, and what follows it. */
  function DecodeHeader(b: Bytes): Option<((string, string), Bytes)> {
    if b == [] || |b| < b[0] as nat + 4 || b[b[0] + 1] != STRING_TYPE then None
    else
      var at := b[0] as nat + 4;
      var size := Number(b[at - 2..at]);
      if |b| < at + size then None
      else
        var name, value := Decode(b[1..at - 3]), Decode(b[at..at + size]);
        if name.None? || value.None? then None else Some(((name.value, value.value), b[at + size..]))
  }

  function DecodeHeaders(b: Bytes): Option<Headers>
    decreases |b|
  {
    if b == [] then Some([])
    else
      var first := DecodeHeader(b);
      if first.None? || |first.value.1| >= |b| then None
      else
        var rest := DecodeHeaders(first.value.1);
        if rest.None? then None else Some([first.value.0] + rest.value)
  }

  lemma HeaderParts(name: Bytes, size: Bytes, value: Bytes, rest: Bytes)
    requires |name| <= 0xFF && |size| == 2
    ensures var b := [|name|] + (name + ([STRING_TYPE] + (size + value))) + rest;
            var at := |name| + 4;
            && |b| == at + |value| + |rest| && b[0] == |name| && b[|name| + 1] == STRING_TYPE
            && b[1..at - 3] == name && b[at - 2..at] == size
            && b[at..at + |value|] == value && b[at + |value|..] == rest
  {}

  /** Where the parts of a header stand: a byte with the length of the name, the name, 7 for a
      string, two bytes with the length of the value, the value. */
  lemma HeaderLayout(h: (string, string))
    requires HeaderFits(h)
    ensures var b, n, size := HeaderBytes(h), |Encode(h.0)|, |Encode(h.1)|;
            && |b| == n + size + 4 && b[0] == n && b[1..n + 1] == Encode(h.0) && b[n + 1] == 7
            && b[n + 2] == size / 256 && b[n + 3] == size % 256 && b[n + 4..] == Encode(h.1)
  {
    var name, value := Encode(h.0), Encode(h.1);
    FieldBytes(|value|);
    HeaderParts(name, BigEndian(|value|, 2), value, []);
    assert HeaderBytes(h) + [] == HeaderBytes(h);
    var b, at := HeaderBytes(h), |name| + 2;
    assert b[at] == b[at..at + 2][0] && b[at + 1] == b[at..at + 2][1];
    assert b[|name| + 4..] == b[|name| + 4..|name| + 4 + |value|];
  }

  lemma HeaderBack(h: (string, string), rest: Bytes)
    requires HeaderFits(h)
    ensures DecodeHeader(HeaderBytes(h) + rest) == Some((h, rest))
  {
    var name, value := Encode(h.0), Encode(h.1);
    HeaderParts(name, BigEndian(|value|, 2), value, rest);
    Packed(|value|);
    DecodeUndoesEncode(h.0);
    DecodeUndoesEncode(h.1);
  }

  lemma {:induction false} HeadersBack(headers: Headers)
    requires HeadersFit(headers)
    ensures DecodeHeaders(AllHeaderBytes(headers)) == Some(headers)
  {
    if headers != [] {
      HeaderBack(headers[0], AllHeaderBytes(headers[1..]));
      HeadersBack(headers[1..]);
      assert headers == [headers[0]] + headers[1..];
    }
  }

  // --- Messages ----------------------------------------------------------------------------------------

  /** A message can be framed exactly if its lengths fit their fields. */
  predicate Fits(f: Frame) {
    HeadersFit(f.headers) && 12 + |AllHeaderBytes(f.headers)| + |f.payload| + 4 < 0x1_0000_0000
  }

  function Prelude(total: nat, headers: nat): Bytes { BigEndian(total, 4) + BigEndian(headers, 4) }

  /** A prelude with the lengths and its checksum, the headers, and the payload. */
  function Data(crc: Checksum, head: Bytes, payload: Bytes): Bytes {
    var prelude := Prelude(12 + |head| + |payload| + 4, |head|);
    prelude + BigEndian(crc(prelude), 4) + head + payload
  }

  /** All that, and its checksum. */
  function Message(crc: Checksum, f: Frame): Bytes
    requires Fits(f)
  {
    var data := Data(crc, AllHeaderBytes(f.headers), f.payload);
    data + BigEndian(crc(data), 4)
  }

  /** `_message`; None where packing a length raises. */
  method EncodeMessage(crc: Checksum, f: Frame) returns (r: Option<Bytes>)
    ensures r == if Fits(f) then Some(Message(crc, f)) else None
  {
    var head := EncodeHeaders(f.headers);
    if head.None? {
      return None;
    }
    var total := 12 + |head.value| + |f.payload| + 4;
    if total >= 0x1_0000_0000 {
      return None;
    }
    var prelude := Prelude(total, |head.value|);
    var data := prelude + BigEndian(crc(prelude), 4) + head.value + f.payload;
    assert data == Data(crc, head.value, f.payload);
    return Some(data + BigEndian(crc(data), 4));
  }

  /** A message cut into its fields, and what follows it. `data` is all but the last checksum. */
  datatype Parts = Parts(prelude: Bytes, preludeSum: Bytes, head: Bytes, payload: Bytes, data: Bytes, dataSum: Bytes,
                         rest: Bytes)

  function Cut(b: Bytes): Option<Parts> {
    if |b| < 16 then None
    else
      var total, n := Number(b[..4]), Number(b[4..8]);
      if total < 16 + n || |b| < total then None else Some(CutAt(b, total, n))
  }

  function CutAt(b: Bytes, total: nat, n: nat): Parts
    requires 16 + n <= total <= |b|
  {
    Parts(b[..8], b[8..12], b[12..12 + n], b[12 + n..total - 4], b[..total - 4], b[total - 4..total], b[total..])
  }

  function Checked(crc: Checksum, p: Parts): Option<(Frame, Bytes)> {
    var headers := DecodeHeaders(p.head);
    if Number(p.preludeSum) != crc(p.prelude) || Number(p.dataSum) != crc(p.data) || headers.None? then None
    else Some((Frame(headers.value, p.payload), p.rest))
  }

  /** The first message, and what follows it; None if a length or a checksum is wrong. */
  function DecodeFrame(crc: Checksum, b: Bytes): Option<(Frame, Bytes)> {
    var parts := Cut(b);
    if parts.None? then None else Checked(crc, parts.value)
  }

  function DecodeAll(crc: Checksum, b: Bytes): Option<seq<Frame>>
    decreases |b|
  {
    if b == [] then Some([])
    else
      var first := DecodeFrame(crc, b);
      if first.None? || |first.value.1| >= |b| then None
      else
        var rest := DecodeAll(crc, first.value.1);
        if rest.None? then None else Some([first.value.0] + rest.value)
  }

  lemma CutParts(a: Bytes, b: Bytes, c: Bytes, head: Bytes, payload: Bytes, d: Bytes, rest: Bytes, data: Bytes,
                 m: Bytes)
    requires |a| == |b| == |c| == |d| == 4 && data == (a + b) + c + head + payload && m == (data + d) + rest
    ensures 16 + |head| + |payload| <= |m| && m[..4] == a && m[4..8] == b
    ensures CutAt(m, 16 + |head| + |payload|, |head|) == Parts(a + b, c, head, payload, data, d, rest)
  {}

  lemma CutMessage(a: Bytes, b: Bytes, c: Bytes, head: Bytes, payload: Bytes, d: Bytes, rest: Bytes, data: Bytes,
                   m: Bytes)
    requires |a| == |b| == |c| == |d| == 4 && data == (a + b) + c + head + payload && m == (data + d) + rest
    requires Number(a) == 16 + |head| + |payload| && Number(b) == |head|
    ensures Cut(m) == Some(Parts(a + b, c, head, payload, data, d, rest))
  {
    CutParts(a, b, c, head, payload, d, rest, data, m);
    var total, n := Number(a), Number(b);
    assert Number(m[..4]) == total && Number(m[4..8]) == n;
    CutKnown(m, total, n);
  }

  lemma CutKnown(m: Bytes, total: nat, n: nat)
    requires 16 + n <= total <= |m| && Number(m[..4]) == total && Number(m[4..8]) == n
    ensures Cut(m) == Some(CutAt(m, total, n))
  {}

  lemma DataParts(crc: Checksum, head: Bytes, payload: Bytes)
    ensures var prelude := Prelude(16 + |head| + |payload|, |head|);
            Data(crc, head, payload) == prelude + BigEndian(crc(prelude), 4) + head + payload
  {}

  lemma FramePartsBack(crc: Checksum, headers: Headers, head: Bytes, payload: Bytes, rest: Bytes)
    requires 12 + |head| + |payload| + 4 < 0x1_0000_0000 && DecodeHeaders(head) == Some(headers)
    ensures var data := Data(crc, head, payload);
            DecodeFrame(crc, (data + BigEndian(crc(data), 4)) + rest) == Some((Frame(headers, payload), rest))
  {
    var total := 16 + |head| + |payload|;
    var prelude, data := Prelude(total, |head|), Data(crc, head, payload);
    DataParts(crc, head, payload);
    Packed(total);
    Packed(|head|);
    Packed(crc(prelude));
    Packed(crc(data));
    CutMessage(BigEndian(total, 4), BigEndian(|head|, 4), BigEndian(crc(prelude), 4), head, payload,
               BigEndian(crc(data), 4), rest, data, (data + BigEndian(crc(data), 4)) + rest);
  }

  /** A message is read back from wherever it starts a stream. */
  lemma FrameBack(crc: Checksum, f: Frame, rest: Bytes)
    requires Fits(f)
    ensures DecodeFrame(crc, Message(crc, f) + rest) == Some((f, rest))
  {
    HeadersBack(f.headers);
    FramePartsBack(crc, f.headers, AllHeaderBytes(f.headers), f.payload, rest);
  }

  /** A message can be framed if and only if every length can be read back from its field: one byte
      for a name, two for a value, four for the headers and the whole. */
  lemma FitsExactly(f: Frame)
    ensures HeadersFit(f.headers) <==>
            forall h :: h in f.headers ==> Holds(|Encode(h.0)|, 1) && Holds(|Encode(h.1)|, 2)
    ensures HeadersFit(f.headers) ==>
              (Fits(f) <==> Holds(|AllHeaderBytes(f.headers)|, 4) &&
                            Holds(|AllHeaderBytes(f.headers)| + |f.payload| + 16, 4))
  {
    assert Power(1) == 0x100 && Power(2) == 0x1_0000;
    assert Power(4) == 256 * (256 * Power(2));
    forall h ensures HeaderFits(h) <==> Holds(|Encode(h.0)|, 1) && Holds(|Encode(h.1)|, 2) {
      HoldsExactly(|Encode(h.0)|, 1);
      HoldsExactly(|Encode(h.1)|, 2);
    }
    if HeadersFit(f.headers) {
      HoldsExactly(|AllHeaderBytes(f.headers)|, 4);
      HoldsExactly(|AllHeaderBytes(f.headers)| + |f.payload| + 16, 4);
    }
  }

  /** Where the parts of a message stand: its length and that of its headers, four bytes each, the
      checksum of these eight, the headers, the payload, and the checksum of all before it. */
  lemma MessageLayout(crc: Checksum, f: Frame)
    requires Fits(f)
    ensures var m, head := Message(crc, f), AllHeaderBytes(f.headers);
            var n, size := |head|, |f.payload|;
            && |m| == n + size + 16
            && m[..4] == BigEndian(|m|, 4) && m[4..8] == BigEndian(n, 4) && m[8..12] == BigEndian(crc(m[..8]), 4)
            && m[12..12 + n] == head && m[12 + n..12 + n + size] == f.payload
            && m[12 + n + size..] == BigEndian(crc(m[..12 + n + size]), 4)
  {
    var head, payload := AllHeaderBytes(f.headers), f.payload;
    var total := 16 + |head| + |payload|;
    var a, b, prelude := BigEndian(total, 4), BigEndian(|head|, 4), Prelude(total, |head|);
    var data, m := Data(crc, head, payload), Message(crc, f);
    var c, d := BigEndian(crc(prelude), 4), BigEndian(crc(data), 4);
    DataParts(crc, head, payload);
    assert m == (data + d) + [];
    CutParts(a, b, c, head, payload, d, [], data, m);
    assert CutAt(m, total, |head|).prelude == prelude;
    assert m[total..] == [] && m[total - 4..total] == m[total - 4..];
  }

  predicate AllFit(frames: seq<Frame>) { forall f :: f in frames ==> Fits(f) }

  /** The messages of a stream. */
  function Framed(crc: Checksum, frames: seq<Frame>): seq<Bytes>
    requires AllFit(frames)
  {
    seq(|frames|, k requires 0 <= k < |frames| => Message(crc, frames[k]))
  }

  function Flat(parts: seq<Bytes>): Bytes { if parts == [] then [] else parts[0] + Flat(parts[1..]) }

  lemma FramedInParts(crc: Checksum, frames: seq<Frame>)
    requires AllFit(frames) && frames != []
    ensures Flat(Framed(crc, frames)) == Message(crc, frames[0]) + Flat(Framed(crc, frames[1..]))
    ensures |Message(crc, frames[0])| > 0
  {
    assert Framed(crc, frames)[1..] == Framed(crc, frames[1..]);
  }

  lemma DecodesInParts(crc: Checksum, m: Bytes, f: Frame, b: Bytes, rest: seq<Frame>)
    requires m != [] && DecodeFrame(crc, m + b) == Some((f, b)) && DecodeAll(crc, b) == Some(rest)
    ensures DecodeAll(crc, m + b) == Some([f] + rest)
  {}

  /** Decoding the messages of a stream, one after the other, gives back their headers and
      payloads; so no two streams have the same bytes. */
  lemma {:induction false} StreamBack(crc: Checksum, frames: seq<Frame>)
    requires AllFit(frames)
    ensures DecodeAll(crc, Flat(Framed(crc, frames))) == Some(frames)
  {
    if frames != [] {
      var rest := frames[1..];
      FramedInParts(crc, frames);
      FrameBack(crc, frames[0], Flat(Framed(crc, rest)));
      StreamBack(crc, rest);
      DecodesInParts(crc, Message(crc, frames[0]), frames[0], Flat(Framed(crc, rest)), rest);
      assert frames == [frames[0]] + rest;
    }
  }

  // --- The stream of a result --------------------------------------------------------------------------------

  const BATCH_ROWS := 10_000

  /** The payloads of the Records events sent, their length, and the error that ended them. */
  datatype Sent = Sent(payloads: seq<Bytes>, returned: nat, error: Option<string>)

  type Serialiser<!Row> = seq<Row> -> Result<Bytes, string>

  /** What packing a length raises. */
  const TOO_LARGE := "argument out of range"

  /** The events of a result: the headers of each kind, and how the statistics are written. */
  datatype Events = Events(records: Headers, stats: Headers, end: Headers, failure: string -> Headers,
                           report: (nat, nat, nat) -> Bytes)

  /** One Records event for every `step` rows, until one fails. */
  function Batches<Row>(serialise: Serialiser<Row>, headers: Headers, rows: seq<Row>, step: nat): (r: Sent)
    requires step > 0
    ensures PayloadsFit(headers, r.payloads)
    decreases |rows|
  {
    if rows == [] then Sent([], 0, None)
    else
      var n := Least(step, |rows|);
      Next(serialise(rows[..n]), headers, Batches(serialise, headers, rows[n..], step))
  }

  predicate PayloadsFit(headers: Headers, payloads: seq<Bytes>) {
    forall p :: p in payloads ==> Fits(Frame(headers, p))
  }

  /** An event for each payload. */
  function Each(headers: Headers, payloads: seq<Bytes>): (r: seq<Frame>)
    ensures PayloadsFit(headers, payloads) ==> AllFit(r)
  {
    seq(|payloads|, k requires 0 <= k < |payloads| => Frame(headers, payloads[k]))
  }

  function Least(a: nat, b: nat): nat { if a < b then a else b }

  /** A batch before the others, unless it fails. */
  function Next(batch: Result<Bytes, string>, headers: Headers, rest: Sent): Sent {
    if batch.Err? then Sent([], 0, Some(batch.error))
    else if !Fits(Frame(headers, batch.value)) then Sent([], 0, Some(TOO_LARGE))
    else Sent([batch.value] + rest.payloads, |batch.value| + rest.returned, rest.error)
  }

  /** Rows written one after the other, up to the first that cannot be written. */
  function Written<Row>(row: Row -> Result<Bytes, string>, rows: seq<Row>): Result<Bytes, string> {
    if rows == [] then Ok([])
    else
      var first, rest := row(rows[0]), Written(row, rows[1..]);
      if first.Err? then first else if rest.Err? then rest else Ok(first.value + rest.value)
  }

  lemma {:induction false} WrittenAppends<Row>(row: Row -> Result<Bytes, string>, a: seq<Row>, b: seq<Row>)
    requires Written(row, a).Ok? && Written(row, b).Ok?
    ensures Written(row, a + b) == Ok(Written(row, a).value + Written(row, b).value)
    decreases |a|
  {
    if a == [] {
      assert a + b == b;
      assert [] + Written(row, b).value == Written(row, b).value;
    } else {
      assert (a + b)[1..] == a[1..] + b;
      WrittenAppends(row, a[1..], b);
      var first, x, y := row(a[0]).value, Written(row, a[1..]).value, Written(row, b).value;
      assert first + (x + y) == (first + x) + y;
    }
  }

  /** The serialiser writes row by row. */
  ghost predicate RowByRow<Row(!new)>(serialise: Serialiser<Row>, row: Row -> Result<Bytes, string>) {
    forall some: seq<Row> :: serialise(some) == Written(row, some)
  }

  /** The payloads are the serialisation of the first rows. */
  ghost predicate WritesFirst<Row>(row: Row -> Result<Bytes, string>, rows: seq<Row>, n: nat, sent: Sent) {
    n <= |rows| && Written(row, rows[..n]) == Ok(Flat(sent.payloads)) && sent.returned == |Flat(sent.payloads)|
  }

  lemma OneMoreBatch<Row>(row: Row -> Result<Bytes, string>, rows: seq<Row>, k: nat, m: nat, batch: Bytes, rest: Sent,
                          all: Sent)
    requires k <= |rows| && WritesFirst(row, rows[k..], m, rest) && Written(row, rows[..k]) == Ok(batch)
    requires all == Sent([batch] + rest.payloads, |batch| + rest.returned, rest.error)
    ensures WritesFirst(row, rows, k + m, all)
  {
    WrittenAppends(row, rows[..k], rows[k..][..m]);
    assert rows[..k + m] == rows[..k] + rows[k..][..m];
    assert all.payloads[1..] == rest.payloads;
  }

  /** For a serialiser that writes row by row, the payloads together are the serialisation of the
      first rows, of all of them if no batch failed; and the length reported is theirs. */
  lemma {:induction false} PayloadsAreTheRows<Row(!new)>(serialise: Serialiser<Row>, row: Row -> Result<Bytes, string>,
                                                         headers: Headers, rows: seq<Row>, step: nat)
    returns (n: nat)
    requires step > 0 && RowByRow(serialise, row)
    ensures WritesFirst(row, rows, n, Batches(serialise, headers, rows, step))
    ensures Batches(serialise, headers, rows, step).error.None? ==> n == |rows|
    decreases |rows|
  {
    n := 0;
    assert rows[..0] == [];
    if rows != [] {
      var k := Least(step, |rows|);
      var first, rest := serialise(rows[..k]), Batches(serialise, headers, rows[k..], step);
      if first.Ok? && Fits(Frame(headers, first.value)) {
        var m := PayloadsAreTheRows(serialise, row, headers, rows[k..], step);
        OneMoreBatch(row, rows, k, m, first.value, rest, Next(first, headers, rest));
        n := k + m;
      }
    }
  }

  function Then(a: Sent, b: Sent): Sent { Sent(a.payloads + b.payloads, a.returned + b.returned, b.error) }

  /** Those before, and what the rows from `at` on add. */
  function Onward<Row>(serialise: Serialiser<Row>, headers: Headers, rows: seq<Row>, step: nat, before: Sent,
                       at: nat): Sent
    requires step > 0 && at <= |rows|
  {
    Then(before, Batches(serialise, headers, rows[at..], step))
  }

  lemma NextFits<Row>(serialise: Serialiser<Row>, headers: Headers, rows: seq<Row>, step: nat, before: Sent, at: nat,
                      count: nat, batch: Bytes)
    requires step > 0 && at < |rows| && count == Least(step, |rows| - at)
    requires serialise(rows[at..at + count]) == Ok(batch) && Fits(Frame(headers, batch))
    ensures Onward(serialise, headers, rows, step, before, at) ==
            Onward(serialise, headers, rows, step, OneMore(before, batch), at + count)
  {
    assert rows[at..][..count] == rows[at..at + count] && rows[at..][count..] == rows[at + count..];
    ThenNext(before, Ok(batch), headers, Batches(serialise, headers, rows[at + count..], step));
  }

  lemma NextFails<Row>(serialise: Serialiser<Row>, headers: Headers, rows: seq<Row>, step: nat, before: Sent, at: nat,
                       count: nat, error: string)
    requires step > 0 && at < |rows| && count == Least(step, |rows| - at)
    requires var batch := serialise(rows[at..at + count]);
             batch == Err(error) || (batch.Ok? && !Fits(Frame(headers, batch.value)) && error == TOO_LARGE)
    ensures Onward(serialise, headers, rows, step, before, at) == Sent(before.payloads, before.returned, Some(error))
  {
    assert rows[at..][..count] == rows[at..at + count];
    ThenNext(before, serialise(rows[at..at + count]), headers, Batches(serialise, headers, rows[at + count..], step));
    assert rows[at..][count..] == rows[at + count..];
  }

  function OneMore(before: Sent, batch: Bytes): Sent { Sent(before.payloads + [batch], before.returned + |batch|,
                                                            None) }

  lemma ThenNext(before: Sent, batch: Result<Bytes, string>, headers: Headers, rest: Sent)
    ensures Then(before, Next(batch, headers, rest)) ==
            if batch.Err? then Sent(before.payloads, before.returned, Some(batch.error))
            else if !Fits(Frame(headers, batch.value)) then Sent(before.payloads, before.returned, Some(TOO_LARGE))
            else Then(OneMore(before, batch.value), rest)
  {
    assert before.payloads + [] == before.payloads;
    if batch.Ok? {
      assert before.payloads + ([batch.value] + rest.payloads) == (before.payloads + [batch.value]) + rest.payloads;
    }
  }

  /** Batch number `i`: `step` rows, fewer if it is the last. */
  function BatchAt<Row>(rows: seq<Row>, step: nat, i: nat): seq<Row> {
    if i * step < |rows| then rows[i * step..Least((i + 1) * step, |rows|)] else []
  }

  /** The rows can be written, and an event with them can be framed. */
  predicate BatchFits<Row>(row: Row -> Result<Bytes, string>, headers: Headers, batch: seq<Row>) {
    Written(row, batch).Ok? && Fits(Frame(headers, Written(row, batch).value))
  }

  ghost predicate BatchesFit<Row(!new)>(row: Row -> Result<Bytes, string>, headers: Headers, rows: seq<Row>,
                                        step: nat) {
    forall i: nat :: i * step < |rows| ==> BatchFits(row, headers, BatchAt(rows, step, i))
  }

  lemma FirstBatch<Row>(rows: seq<Row>, step: nat)
    requires step > 0 && rows != []
    ensures BatchAt(rows, step, 0) == rows[..Least(step, |rows|)]
  {
    assert 0 * step == 0 && (0 + 1) * step == step;
  }

  lemma LaterBatch<Row>(rows: seq<Row>, step: nat, i: nat)
    requires 0 < step < |rows|
    ensures i * step < |rows[step..]| <==> (i + 1) * step < |rows|
    ensures BatchAt(rows[step..], step, i) == BatchAt(rows, step, i + 1)
  {
    assert (i + 1) * step == i * step + step;
    assert (i + 1 + 1) * step == (i + 1) * step + step;
    var from, to := i * step, Least((i + 1) * step, |rows| - step);
    if from < |rows| - step {
      assert rows[step..][from..to] == rows[from + step..to + step];
    }
  }

  lemma BatchesFitStep<Row(!new)>(row: Row -> Result<Bytes, string>, headers: Headers, rows: seq<Row>, step: nat)
    requires 0 < step < |rows|
    ensures BatchesFit(row, headers, rows, step) <==>
            BatchFits(row, headers, rows[..step]) && BatchesFit(row, headers, rows[step..], step)
  {
    FirstBatch(rows, step);
    if BatchesFit(row, headers, rows, step) {
      assert 0 * step < |rows|;
      forall i: nat | i * step < |rows[step..]| ensures BatchFits(row, headers, BatchAt(rows[step..], step, i)) {
        LaterBatch(rows, step, i);
      }
    }
    if BatchFits(row, headers, rows[..step]) && BatchesFit(row, headers, rows[step..], step) {
      forall i: nat | i * step < |rows| ensures BatchFits(row, headers, BatchAt(rows, step, i)) {
        if i > 0 { LaterBatch(rows, step, i - 1); }
      }
    }
  }

  lemma NoLaterBatch(i: nat, step: nat, n: nat)
    requires i > 0 && n <= step
    ensures i * step >= n
  {
    assert i * step == (i - 1) * step + step;
  }

  lemma OnlyBatch<Row(!new)>(row: Row -> Result<Bytes, string>, headers: Headers, rows: seq<Row>, step: nat)
    requires step > 0 && 0 < |rows| <= step
    ensures BatchesFit(row, headers, rows, step) <==> BatchFits(row, headers, rows)
  {
    FirstBatch(rows, step);
    assert rows[..|rows|] == rows;
    assert 0 * step < |rows|;
    forall i: nat | i * step < |rows| ensures BatchAt(rows, step, i) == rows {
      if i > 0 { NoLaterBatch(i, step, |rows|); }
    }
  }

  lemma FirstSucceeds<Row(!new)>(serialise: Serialiser<Row>, row: Row -> Result<Bytes, string>, headers: Headers,
                                 rows: seq<Row>, step: nat)
    requires step > 0 && rows != [] && RowByRow(serialise, row)
    ensures var n := Least(step, |rows|);
            Batches(serialise, headers, rows, step).error.None? <==>
            BatchFits(row, headers, rows[..n]) && Batches(serialise, headers, rows[n..], step).error.None?
  {
    assert serialise(rows[..Least(step, |rows|)]) == Written(row, rows[..Least(step, |rows|)]);
  }

  /** No batch fails if and only if every row can be written and every batch that is sent, the
      rows from i * step on, can be framed. */
  lemma {:induction false} BatchesSucceed<Row(!new)>(serialise: Serialiser<Row>, row: Row -> Result<Bytes, string>,
                                                     headers: Headers, rows: seq<Row>, step: nat)
    requires step > 0 && RowByRow(serialise, row)
    ensures Batches(serialise, headers, rows, step).error.None? <==>
            Written(row, rows).Ok? && BatchesFit(row, headers, rows, step)
    decreases |rows|
  {
    if rows != [] {
      FirstSucceeds(serialise, row, headers, rows, step);
      if step < |rows| {
        BatchesSucceed(serialise, row, headers, rows[step..], step);
        BatchesFitStep(row, headers, rows, step);
        WrittenInTwo(row, rows, step);
      } else {
        OnlyBatch(row, headers, rows, step);
        assert rows[..|rows|] == rows && rows[|rows|..] == [];
      }
    }
  }

  /** All rows can be written exactly if the first ones and the others can. */
  lemma WrittenInTwo<Row>(row: Row -> Result<Bytes, string>, rows: seq<Row>, k: nat)
    requires k <= |rows|
    ensures Written(row, rows).Ok? <==> Written(row, rows[..k]).Ok? && Written(row, rows[k..]).Ok?
  {
    if Written(row, rows).Ok? {
      WrittenSplits(row, rows, k);
    }
    if Written(row, rows[..k]).Ok? && Written(row, rows[k..]).Ok? {
      WrittenAppends(row, rows[..k], rows[k..]);
      assert rows == rows[..k] + rows[k..];
    }
  }

  lemma {:induction false} WrittenSplits<Row>(row: Row -> Result<Bytes, string>, rows: seq<Row>, k: nat)
    requires k <= |rows| && Written(row, rows).Ok?
    ensures Written(row, rows[..k]).Ok? && Written(row, rows[k..]).Ok?
  {
    if k > 0 {
      WrittenSplits(row, rows[1..], k - 1);
      assert rows[..k][1..] == rows[1..][..k - 1] && rows[1..][k - 1..] == rows[k..];
    }
  }

  /** The frames after the Records events of a whole result. */
  function Closing(events: Events, sent: Sent, scanned: nat, processed: nat): seq<Frame> {
    if sent.error.Some? then [Frame(events.failure(sent.error.value), [])]
    else [Frame(events.stats, events.report(scanned, processed, sent.returned)), Frame(events.end, [])]
  }

  /** Frames up to the first that does not fit. */
  function Leading(frames: seq<Frame>): (r: seq<Frame>)
    ensures AllFit(r)
  {
    if frames == [] || !Fits(frames[0]) then [] else [frames[0]] + Leading(frames[1..])
  }

  lemma {:induction false} LeadingAll(frames: seq<Frame>)
    ensures |Leading(frames)| == |frames| ==> Leading(frames) == frames
    ensures |Leading(frames)| <= |frames|
  {
    if frames != [] { LeadingAll(frames[1..]); }
  }

  lemma LeadingTwo(s: Frame, e: Frame)
    ensures Leading([s]) == if Fits(s) then [s] else []
    ensures Leading([s, e]) == if !Fits(s) then [] else if !Fits(e) then [s] else [s, e]
  {
    assert [s, e][1..] == [e] && [s][1..] == [] && [e][1..] == [];
  }

  /** The batches of a result: no rows give no Records event, and a file that cannot be cut in
      pieces is one batch. */
  function SentOf<Row>(events: Events, serialise: Serialiser<Row>, rows: Option<seq<Row>>, batchable: bool): (r: Sent)
    ensures PayloadsFit(events.records, r.payloads)
  {
    if rows.None? || rows.value == [] then Sent([], 0, None)
    else Batches(serialise, events.records, rows.value, if batchable then BATCH_ROWS else |rows.value|)
  }

  /** Every frame of a result. */
  function Frames(events: Events, sent: Sent, scanned: nat, processed: nat): (r: seq<Frame>)
    ensures PayloadsFit(events.records, sent.payloads) ==> AllFit(r)
  {
    Each(events.records, sent.payloads) + Leading(Closing(events, sent, scanned, processed))
  }

  lemma OneMoreRecords(crc: Checksum, headers: Headers, payloads: seq<Bytes>, payload: Bytes)
    requires PayloadsFit(headers, payloads) && Fits(Frame(headers, payload))
    ensures PayloadsFit(headers, payloads + [payload])
    ensures Framed(crc, Each(headers, payloads + [payload])) ==
            Framed(crc, Each(headers, payloads)) + [Message(crc, Frame(headers, payload))]
  {
    assert Each(headers, payloads + [payload]) == Each(headers, payloads) + [Frame(headers, payload)];
    FramedAppends(crc, Each(headers, payloads), [Frame(headers, payload)]);
  }

  lemma FramedAppends(crc: Checksum, a: seq<Frame>, b: seq<Frame>)
    requires AllFit(a) && AllFit(b)
    ensures AllFit(a + b) && Framed(crc, a + b) == Framed(crc, a) + Framed(crc, b)
  {}

  /** What has been sent are the Records events of these batches. */
  ghost predicate SentSoFar(crc: Checksum, headers: Headers, done: Sent, out: seq<Bytes>) {
    PayloadsFit(headers, done.payloads) && out == Framed(crc, Each(headers, done.payloads))
  }

  lemma SendOne(crc: Checksum, headers: Headers, done: Sent, out: seq<Bytes>, batch: Bytes)
    requires SentSoFar(crc, headers, done, out) && Fits(Frame(headers, batch))
    ensures SentSoFar(crc, headers, OneMore(done, batch), out + [Message(crc, Frame(headers, batch))])
  {
    OneMoreRecords(crc, headers, done.payloads, batch);
  }

  /** One batch: its message and its length, or what went wrong. */
  method SendBatch<Row>(crc: Checksum, headers: Headers, rows: seq<Row>, serialise: Serialiser<Row>)
    returns (r: Result<(Bytes, nat), string>)
    ensures var batch := serialise(rows);
            r == if batch.Err? then Err(batch.error)
                 else if !Fits(Frame(headers, batch.value)) then Err(TOO_LARGE)
                 else Ok((Message(crc, Frame(headers, batch.value)), |batch.value|))
  {
    var batch := serialise(rows);
    if batch.Err? {
      return Err(batch.error);
    }
    var message := EncodeMessage(crc, Frame(headers, batch.value));
    return if message.None? then Err(TOO_LARGE) else Ok((message.value, |batch.value|));
  }

  /** Sends batches of rows, and says what it sent. */
  method SendBatches<Row>(crc: Checksum, headers: Headers, rows: seq<Row>, step: nat, serialise: Serialiser<Row>)
    returns (out: seq<Bytes>, returned: nat, error: Option<string>)
    requires step > 0
    ensures var sent := Batches(serialise, headers, rows, step);
            out == Framed(crc, Each(headers, sent.payloads)) &&
            error == sent.error && (error.None? ==> returned == sent.returned)
  {
    var offset := 0;
    out, returned := [], 0;
    ghost var done := Sent([], 0, None);
    while offset < |rows|
      invariant offset <= |rows| && done.returned == returned && SentSoFar(crc, headers, done, out)
      invariant Onward(serialise, headers, rows, step, done, offset) == Batches(serialise, headers, rows, step)
    {
      var count := Least(step, |rows| - offset);
      ghost var batch := serialise(rows[offset..offset + count]);
      var r := SendBatch(crc, headers, rows[offset..offset + count], serialise);
      if r.Err? {
        NextFails(serialise, headers, rows, step, done, offset, count, r.error);
        return out, returned, Some(r.error);
      }
      NextFits(serialise, headers, rows, step, done, offset, count, batch.value);
      SendOne(crc, headers, done, out, batch.value);
      done := OneMore(done, batch.value);
      returned := returned + r.value.1;
      out := out + [r.value.0];
      offset := offset + count;
    }
    error := None;
  }

  /** The stream of a result: the Records events, then the statistics and the end, or an error.
      `raised` says that framing the last of them raises. */
  method Stream<Row>(crc: Checksum, events: Events, rows: Option<seq<Row>>, scanned: nat, processed: nat,
                     batchable: bool, serialise: Serialiser<Row>)
    returns (out: seq<Bytes>, raised: bool)
    ensures var sent := SentOf(events, serialise, rows, batchable);
            var closing := Closing(events, sent, scanned, processed);
            out == Framed(crc, Frames(events, sent, scanned, processed)) && (raised <==> |Leading(closing)| < |closing|)
  {
    var returned, error := 0, None;
    out := [];
    if rows.Some? && rows.value != [] {
      if batchable {
        out, returned, error := SendBatches(crc, events.records, rows.value, BATCH_ROWS, serialise);
      } else {
        out, returned, error := SendBatches(crc, events.records, rows.value, |rows.value|, serialise);
      }
    }
    ghost var sent := SentOf(events, serialise, rows, batchable);
    FramedAppends(crc, Each(events.records, sent.payloads), Leading(Closing(events, sent, scanned, processed)));
    var closing;
    closing, raised := SendClosing(crc, events, error, scanned, processed, returned);
    out := out + closing;
  }

  method SendClosing(crc: Checksum, events: Events, error: Option<string>, scanned: nat, processed: nat, returned: nat)
    returns (out: seq<Bytes>, raised: bool)
    ensures forall sent: Sent :: sent.error == error && (error.None? ==> sent.returned == returned) ==>
              var closing := Closing(events, sent, scanned, processed);
              out == Framed(crc, Leading(closing)) && (raised <==> |Leading(closing)| < |closing|)
  {
    if error.Some? {
      var f := Frame(events.failure(error.value), []);
      LeadingTwo(f, f);
      var message := EncodeMessage(crc, f);
      return if message.None? then [] else [message.value], message.None?;
    }
    var s, e := Frame(events.stats, events.report(scanned, processed, returned)), Frame(events.end, []);
    LeadingTwo(s, e);
    var stats := EncodeMessage(crc, s);
    if stats.None? {
      return [], true;
    }
    var end := EncodeMessage(crc, e);
    return if end.None? then [stats.value] else [stats.value, end.value], end.None?;
  }

  /** The Records events of these rows can be sent, and the events after them. */
  ghost predicate CanBeSent<Row(!new)>(events: Events, row: Row -> Result<Bytes, string>, rows: seq<Row>,
                                       scanned: nat, processed: nat)
  {
    && Written(row, rows).Ok? && BatchesFit(row, events.records, rows, BATCH_ROWS)
    && Fits(Frame(events.stats, events.report(scanned, processed, |Written(row, rows).value|)))
    && Fits(Frame(events.end, []))
  }

  lemma SentInFull<Row(!new)>(events: Events, serialise: Serialiser<Row>, row: Row -> Result<Bytes, string>,
                              rows: seq<Row>)
    requires RowByRow(serialise, row)
    ensures var sent := SentOf(events, serialise, Some(rows), true);
            && (sent.error.None? <==> Written(row, rows).Ok? && BatchesFit(row, events.records, rows, BATCH_ROWS))
            && (sent.error.None? ==> Written(row, rows) == Ok(Flat(sent.payloads)))
            && (sent.error.None? ==> sent.returned == |Flat(sent.payloads)|)
  {
    if rows != [] {
      BatchesSucceed(serialise, row, events.records, rows, BATCH_ROWS);
      var n := PayloadsAreTheRows(serialise, row, events.records, rows, BATCH_ROWS);
      assert rows[..|rows|] == rows;
    }
  }

  /** What a client decodes when the rows can be written and every event fits its length fields:
      Records events whose payloads together are every row written in order, their length, and the
      end. */
  lemma ClientReadsTheRows<Row(!new)>(crc: Checksum, events: Events, serialise: Serialiser<Row>,
                                      row: Row -> Result<Bytes, string>, rows: seq<Row>, scanned: nat, processed: nat)
    requires RowByRow(serialise, row) && CanBeSent(events, row, rows, scanned, processed)
    ensures var sent := SentOf(events, serialise, Some(rows), true);
            && Written(row, rows) == Ok(Flat(sent.payloads))
            && DecodeAll(crc, Flat(Framed(crc, Frames(events, sent, scanned, processed)))) ==
               Some(Each(events.records, sent.payloads) +
                    [Frame(events.stats, events.report(scanned, processed, |Written(row, rows).value|)),
                     Frame(events.end, [])])
  {
    var sent := SentOf(events, serialise, Some(rows), true);
    SentInFull(events, serialise, row, rows);
    LeadingTwo(Frame(events.stats, events.report(scanned, processed, sent.returned)), Frame(events.end, []));
    StreamBack(crc, Frames(events, sent, scanned, processed));
  }

  /** The stream ends with Stats and End, and nothing raises, exactly if the rows can be written
      and every event fits. */
  lemma EndsWellExactly<Row(!new)>(events: Events, serialise: Serialiser<Row>, row: Row -> Result<Bytes, string>,
                                   rows: seq<Row>, scanned: nat, processed: nat)
    requires RowByRow(serialise, row)
    ensures var sent := SentOf(events, serialise, Some(rows), true);
            var closing := Closing(events, sent, scanned, processed);
            sent.error.None? && Leading(closing) == closing <==> CanBeSent(events, row, rows, scanned, processed)
  {
    var sent := SentOf(events, serialise, Some(rows), true);
    SentInFull(events, serialise, row, rows);
    LeadingTwo(Frame(events.stats, events.report(scanned, processed, sent.returned)), Frame(events.end, []));
  }

  // --- The events of S3 Select --------------------------------------------------------------------------

  function Event(kind: string, contentType: Option<string>): Headers {
    [(":message-type", "event"), (":event-type", kind)] +
    if contentType.Some? && contentType.value != "" then [(":content-type", contentType.value)] else []
  }

  function Error(code: string, message: string): Headers {
    [(":message-type", "error"), (":error-code", code), (":error-message", message)]
  }

  function Tagged(opening: string, n: nat, rest: string): string { opening + (Decimal.Show(n) + rest) }

  function StatsText(scanned: nat, processed: nat, returned: nat): string {
    Tagged("<?xml version=\"1.0\" encoding=\"UTF-8\"?><Stats><BytesScanned>", scanned,
      Tagged("</BytesScanned><BytesProcessed>", processed,
        Tagged("</BytesProcessed><BytesReturned>", returned, "</BytesReturned></Stats>")))
  }

  function SelectEvents(): Events {
    Events(Event("Records", Some("application/octet-stream")), Event("Stats", Some("text/xml")), Event("End", None),
           text => Error("InternalError", "Error serialising results: " + text),
           (scanned: nat, processed: nat, returned: nat) => Encode(StatsText(scanned, processed, returned)))
  }

  /** The headers of the four events. */
  lemma SelectHeaders(text: string)
    ensures SelectEvents().records == [
              (":message-type", "event"), (":event-type", "Records"), (":content-type", "application/octet-stream")]
    ensures SelectEvents().stats == [
              (":message-type", "event"), (":event-type", "Stats"), (":content-type", "text/xml")]
    ensures SelectEvents().end == [(":message-type", "event"), (":event-type", "End")]
    ensures SelectEvents().failure(text) == [
              (":message-type", "error"), (":error-code", "InternalError"),
              (":error-message", "Error serialising results: " + text)]
  {}

  lemma {:induction false} EncodedLength(s: string)
    ensures |s| <= |Encode(s)| <= 4 * |s|
  {
    if s != [] { EncodedLength(s[1..]); }
  }

  predicate Short(headers: Headers) {
    |headers| <= 3 && forall h :: h in headers ==> |h.0| <= 63 && |h.1| <= 63
  }

  lemma {:induction false} ShortHeaders(headers: Headers)
    requires Short(headers)
    ensures HeadersFit(headers) && |AllHeaderBytes(headers)| <= 508 * |headers|
  {
    if headers != [] {
      assert headers[0] in headers;
      EncodedLength(headers[0].0);
      EncodedLength(headers[0].1);
      ShortHeaders(headers[1..]);
      assert headers == [headers[0]] + headers[1..];
    }
  }

  const MOST := 0xFFFF_0000

  lemma ShortFits(headers: Headers, payload: Bytes)
    requires Short(headers) && |payload| <= MOST
    ensures Fits(Frame(headers, payload))
  {
    ShortHeaders(headers);
  }

  lemma SelectEventsAreShort()
    ensures Short(SelectEvents().records) && Short(SelectEvents().stats) && Short(SelectEvents().end)
  {}

  lemma {:induction false} ShowLength(n: nat, digits: nat)
    requires digits > 0 && n < Tens(digits)
    ensures |Decimal.Show(n)| <= digits
    decreases digits
  {
    if n >= 10 { ShowLength(n / 10, digits - 1); }
  }

  function Tens(digits: nat): nat { if digits == 0 then 1 else 10 * Tens(digits - 1) }

  lemma {:induction false} TensGrow(a: nat, b: nat)
    requires a <= b
    ensures Tens(a) <= Tens(b)
  {
    if a < b { TensGrow(a, b - 1); }
  }

  /** Numbers of at most this many digits are reported. */
  const DIGITS := 1000

  lemma MostIsShort()
    ensures MOST < Tens(DIGITS)
  {
    TensGrow(10, DIGITS);
    assert Tens(5) == 100_000;
    assert Tens(10) == 10 * (10 * (10 * (10 * (10 * Tens(5)))));
  }

  lemma StatsLength(scanned: nat, processed: nat, returned: nat)
    requires scanned < Tens(DIGITS) && processed < Tens(DIGITS) && returned < Tens(DIGITS)
    ensures |Encode(StatsText(scanned, processed, returned))| <= MOST
  {
    ShowLength(scanned, DIGITS);
    ShowLength(processed, DIGITS);
    ShowLength(returned, DIGITS);
    EncodedLength(StatsText(scanned, processed, returned));
  }

  lemma PartIsShorter<Row>(row: Row -> Result<Bytes, string>, rows: seq<Row>, a: nat, b: nat)
    requires a <= b <= |rows| && Written(row, rows).Ok?
    ensures Written(row, rows[a..b]).Ok? && |Written(row, rows[a..b]).value| <= |Written(row, rows).value|
  {
    WrittenSplits(row, rows, b);
    WrittenAppends(row, rows[..b], rows[b..]);
    assert rows == rows[..b] + rows[b..];
    WrittenSplits(row, rows[..b], a);
    WrittenAppends(row, rows[..b][..a], rows[..b][a..]);
    assert rows[..b] == rows[..b][..a] + rows[..b][a..] && rows[..b][a..] == rows[a..b];
  }

  lemma BatchesAreShort<Row(!new)>(row: Row -> Result<Bytes, string>, headers: Headers, rows: seq<Row>, step: nat)
    requires Short(headers) && Written(row, rows).Ok? && |Written(row, rows).value| <= MOST
    ensures BatchesFit(row, headers, rows, step)
  {
    forall i: nat | i * step < |rows| ensures BatchFits(row, headers, BatchAt(rows, step, i)) {
      assert i * step <= (i + 1) * step;
      PartIsShorter(row, rows, i * step, Least((i + 1) * step, |rows|));
      ShortFits(headers, Written(row, BatchAt(rows, step, i)).value);
    }
  }

  /** With the events of S3 Select every result below 4 GiB less 64 KiB can be sent. */
  lemma SelectResultsFit<Row(!new)>(row: Row -> Result<Bytes, string>, rows: seq<Row>, scanned: nat, processed: nat)
    requires Written(row, rows).Ok? && |Written(row, rows).value| <= MOST
    requires scanned < Tens(DIGITS) && processed < Tens(DIGITS)
    ensures CanBeSent(SelectEvents(), row, rows, scanned, processed)
  {
    SelectEventsAreShort();
    MostIsShort();
    var events, returned := SelectEvents(), |Written(row, rows).value|;
    BatchesAreShort(row, events.records, rows, BATCH_ROWS);
    StatsLength(scanned, processed, returned);
    ShortFits(events.stats, events.report(scanned, processed, returned));
    ShortFits(events.end, []);
  }

  lemma {:induction false} DigitsEnd(a: string, b: string, x: string, y: string)
    requires Decimal.AllDigits(a) && Decimal.AllDigits(b) && x != "" && y != ""
    requires !Decimal.IsDigit(x[0]) && !Decimal.IsDigit(y[0]) && a + x == b + y
    ensures a == b && x == y
    decreases |a|
  {
    var s, t := a + x, b + y;
    assert s[0] == t[0];
    if a == "" || b == "" {
      assert a == "" && b == "";
      assert s == x && t == y;
    } else {
      assert s[1..] == a[1..] + x && t[1..] == b[1..] + y;
      DigitsEnd(a[1..], b[1..], x, y);
      assert a == [a[0]] + a[1..] && b == [b[0]] + b[1..];
    }
  }

  lemma PrefixDrops(p: string, x: string, y: string)
    requires p + x == p + y
    ensures x == y
  {
    assert x == (p + x)[|p|..] && y == (p + y)[|p|..];
  }

  predicate EndsDigits(s: string) { s != "" && !Decimal.IsDigit(s[0]) }

  lemma TaggedBack(opening: string, m: nat, n: nat, x: string, y: string)
    requires EndsDigits(x) && EndsDigits(y) && Tagged(opening, m, x) == Tagged(opening, n, y)
    ensures m == n && x == y
  {
    PrefixDrops(opening, Decimal.Show(m) + x, Decimal.Show(n) + y);
    DigitsEnd(Decimal.Show(m), Decimal.Show(n), x, y);
    Decimal.ReadUndoesShow(m);
    Decimal.ReadUndoesShow(n);
  }

  lemma TaggedStart(opening: string, n: nat, rest: string)
    requires EndsDigits(opening)
    ensures EndsDigits(Tagged(opening, n, rest))
  {}

  lemma ThreeTagged(o: string, p: string, q: string, end: string, a: nat, b: nat, c: nat, x: nat, y: nat, z: nat)
    requires EndsDigits(p) && EndsDigits(q) && EndsDigits(end)
    requires Tagged(o, a, Tagged(p, b, Tagged(q, c, end))) == Tagged(o, x, Tagged(p, y, Tagged(q, z, end)))
    ensures a == x && b == y && c == z
  {
    TaggedStart(q, c, end);
    TaggedStart(q, z, end);
    TaggedStart(p, b, Tagged(q, c, end));
    TaggedStart(p, y, Tagged(q, z, end));
    TaggedBack(o, a, x, Tagged(p, b, Tagged(q, c, end)), Tagged(p, y, Tagged(q, z, end)));
    TaggedBack(p, b, y, Tagged(q, c, end), Tagged(q, z, end));
    TaggedBack(q, c, z, end, end);
  }

  /** The number stands in the element of this name. */
  ghost predicate Tells(text: string, element: string, n: nat) {
    exists before, after ::
      text == before + OpenTag(element) + Decimal.Show(n) + CloseTag(element) + after
  }

  function OpenTag(element: string): string { "<" + element + ">" }

  function CloseTag(element: string): string { "</" + element + ">" }

  lemma ElementInParts(before: string, open: string, digits: string, close: string, next: string, rest: string)
    ensures (before + open) + (digits + ((close + next) + rest)) == before + open + digits + close + (next + rest)
  {
    assert digits + ((close + next) + rest) == digits + close + (next + rest);
  }

  /** A number between the tags of an element, and what follows it. */
  lemma TellsFirst(before: string, element: string, n: nat, next: string, rest: string, text: string)
    requires text == (before + OpenTag(element)) + (Decimal.Show(n) + ((CloseTag(element) + next) + rest))
    ensures Tells(text, element, n)
    ensures text == (before + OpenTag(element) + Decimal.Show(n) + CloseTag(element)) + (next + rest)
  {
    ElementInParts(before, OpenTag(element), Decimal.Show(n), CloseTag(element), next, rest);
  }

  lemma Regrouped(a: string, b: string, c: string)
    ensures a + (b + c) == (a + b) + c
  {}

  /** Three elements one after the other, each with its number. */
  lemma ThreeElements(start: string, e: string, f: string, g: string, end: string, a: nat, b: nat, c: nat)
    ensures var text := Tagged(start + OpenTag(e), a, Tagged(CloseTag(e) + OpenTag(f), b,
                          Tagged(CloseTag(f) + OpenTag(g), c, CloseTag(g) + end)));
            Tells(text, e, a) && Tells(text, f, b) && Tells(text, g, c)
  {
    var third := Decimal.Show(c) + ((CloseTag(g) + end) + "");
    assert (CloseTag(g) + end) + "" == CloseTag(g) + end;
    var second := Decimal.Show(b) + ((CloseTag(f) + OpenTag(g)) + third);
    var text := (start + OpenTag(e)) + (Decimal.Show(a) + ((CloseTag(e) + OpenTag(f)) + second));
    TellsFirst(start, e, a, OpenTag(f), second, text);
    var start' := start + OpenTag(e) + Decimal.Show(a) + CloseTag(e);
    Regrouped(start', OpenTag(f), second);
    TellsFirst(start', f, b, OpenTag(g), third, text);
    var start'' := start' + OpenTag(f) + Decimal.Show(b) + CloseTag(f);
    Regrouped(start'', OpenTag(g), third);
    TellsFirst(start'', g, c, end, "", text);
  }

  const STATS_START := "<?xml version=\"1.0\" encoding=\"UTF-8\"?><Stats>"

  lemma StatsBegin()
    ensures "<?xml version=\"1.0\" encoding=\"UTF-8\"?><Stats><BytesScanned>" == STATS_START + OpenTag("BytesScanned")
  {}

  lemma StatsGoOn()
    ensures "</BytesScanned><BytesProcessed>" == CloseTag("BytesScanned") + OpenTag("BytesProcessed")
  {}

  lemma StatsGoOnAgain()
    ensures "</BytesProcessed><BytesReturned>" == CloseTag("BytesProcessed") + OpenTag("BytesReturned")
  {}

  lemma StatsEnd()
    ensures "</BytesReturned></Stats>" == CloseTag("BytesReturned") + "</Stats>"
  {}

  /** Each number stands in its own element. */
  lemma StatisticsAreNamed(scanned: nat, processed: nat, returned: nat)
    ensures var text := StatsText(scanned, processed, returned);
            Tells(text, "BytesScanned", scanned) && Tells(text, "BytesProcessed", processed) &&
            Tells(text, "BytesReturned", returned)
  {
    StatsBegin();
    StatsGoOn();
    StatsGoOnAgain();
    StatsEnd();
    ThreeElements(STATS_START, "BytesScanned", "BytesProcessed", "BytesReturned", "</Stats>",
                  scanned, processed, returned);
  }

  /** The statistics tell the three numbers. */
  lemma StatisticsTellNumbers(a: nat, b: nat, c: nat, x: nat, y: nat, z: nat)
    requires SelectEvents().report(a, b, c) == SelectEvents().report(x, y, z)
    ensures a == x && b == y && c == z
  {
    EncodeInjective(StatsText(a, b, c), StatsText(x, y, z));
    ThreeTagged("<?xml version=\"1.0\" encoding=\"UTF-8\"?><Stats><BytesScanned>", "</BytesScanned><BytesProcessed>",
                "</BytesProcessed><BytesReturned>", "</BytesReturned></Stats>", a, b, c, x, y, z);
  }
}
