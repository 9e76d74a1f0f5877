/** Virtual clocks that pace chunks of bytes: when the link and every stream are next free, and
    how many bytes that lets through. Exact arithmetic over the reals. */
module Bandwidth {

  type Time = real

  const CHUNK_SIZE := 64 * 1024

  /** A chunk of a response: `at` is when it was reserved, `sent` is when it was sent. */
  datatype Chunk = Chunk(stream: nat, at: Time, size: nat, sent: Time)

  function Max(a: real, b: real): real { if a < b then b else a }

  /** The seconds some bytes take. */
  function Took(size: nat, rate: real): (r: Time)
    requires rate > 0.0
    ensures r >= 0.0
  {
    size as real / rate
  }

  /** The bytes that pass in some time. */
  function Carried(rate: real, time: Time): real { rate * time }

  lemma TookAdds(a: nat, b: nat, rate: real)
    requires rate > 0.0
    ensures Took(a + b, rate) == Took(a, rate) + Took(b, rate)
  {}

  lemma TookBounds(size: nat, rate: real, time: Time)
    requires rate > 0.0 && Took(size, rate) <= time
    ensures size as real <= Carried(rate, time)
  {
    assert size as real == rate * Took(size, rate);
    assert rate * Took(size, rate) <= rate * time;
  }

  lemma TookFits(size: nat, rate: real, time: Time)
    requires rate > 0.0 && size as real <= rate * time
    ensures Took(size, rate) <= time
  {
    assert (rate * time - size as real) / rate == time - Took(size, rate);
    assert (rate * time - size as real) / rate >= 0.0;
  }

  /** The bytes of a run; its chunks are in the order they were reserved. */
  function Bytes(run: seq<Chunk>): nat {
    if run == [] then 0 else Bytes(run[..|run| - 1]) + run[|run| - 1].size
  }

  /** The chunks of one stream. */
  function Of(run: seq<Chunk>, stream: nat): seq<Chunk> {
    if run == [] then []
    else
      var n := |run| - 1;
      if run[n].stream == stream then Of(run[..n], stream) + [run[n]] else Of(run[..n], stream)
  }

  lemma OfAppends(run: seq<Chunk>, c: Chunk, stream: nat)
    ensures Of(run + [c], stream) == if c.stream == stream then Of(run, stream) + [c] else Of(run, stream)
  {
    assert (run + [c])[..|run|] == run;
  }

  /** When a clock is next free: each chunk takes its time after the one before, and not
      before it was reserved. */
  function Free(rate: real, run: seq<Chunk>): Time
    requires rate > 0.0
  {
    if run == [] then 0.0
    else
      var n := |run| - 1;
      Max(run[n].at, Free(rate, run[..n])) + Took(run[n].size, rate)
  }

  lemma FreeAppends(rate: real, run: seq<Chunk>, c: Chunk)
    requires rate > 0.0
    ensures Free(rate, run + [c]) == Max(c.at, Free(rate, run)) + Took(c.size, rate)
  {
    assert (run + [c])[..|run|] == run;
  }

  /** A rate of 0 is no cap. */
  function FreeAt(rate: real, run: seq<Chunk>): Time
    requires rate >= 0.0
  {
    if rate > 0.0 then Free(rate, run) else 0.0
  }

  /** When the last chunk of a run may be sent. */
  function Ready(streamRate: real, totalRate: real, run: seq<Chunk>): Time
    requires streamRate >= 0.0 && totalRate >= 0.0 && run != []
  {
    var c := run[|run| - 1];
    var ready := if streamRate > 0.0 then Free(streamRate, Of(run, c.stream)) else c.at;
    if totalRate > 0.0 then Max(ready, Free(totalRate, run)) else ready
  }

  /** A run in which no chunk is sent before the clocks say, though it may be sent later. */
  ghost predicate NeverEarly(streamRate: real, totalRate: real, run: seq<Chunk>)
    requires streamRate >= 0.0 && totalRate >= 0.0
  {
    run != [] ==>
      var n := |run| - 1;
      NeverEarly(streamRate, totalRate, run[..n]) && run[n].sent >= Ready(streamRate, totalRate, run)
  }

  /** A run in which every chunk is small and is sent exactly when the clocks say. */
  ghost predicate Shaped(streamRate: real, totalRate: real, run: seq<Chunk>)
    requires streamRate >= 0.0 && totalRate >= 0.0
  {
    run != [] ==>
      var n := |run| - 1;
      && Shaped(streamRate, totalRate, run[..n])
      && run[n].at >= 0.0 && run[n].size <= CHUNK_SIZE
      && run[n].sent == Ready(streamRate, totalRate, run)
  }

  // --- The closed form ----------------------------------------------------------------------------

  /** When a link that is never idle from chunk `i` on has sent the last chunk. */
  function BusySince(rate: real, run: seq<Chunk>, i: nat): Time
    requires rate > 0.0 && i < |run|
  {
    run[i].at + Took(Bytes(run[i..]), rate)
  }

  lemma BusyGrows(rate: real, run: seq<Chunk>, i: nat)
    requires rate > 0.0 && i < |run|
    ensures var n := |run| - 1;
            BusySince(rate, run, i) ==
            (if i == n then run[n].at else BusySince(rate, run[..n], i)) + Took(run[n].size, rate)
  {
    var n := |run| - 1;
    assert run[i..][..n - i] == run[..n][i..];
    TookAdds(Bytes(run[..n][i..]), run[n].size, rate);
  }

  /** For every interleaving of reservations, the link is free exactly at the maximum, over the
      chunks, of the time it was reserved plus the time of all bytes from it on. So the link is
      never promised twice, and it never idles while a chunk waits. */
  lemma {:induction false} FreeIsMaximum(rate: real, run: seq<Chunk>)
    requires rate > 0.0 && run != [] && forall c :: c in run ==> c.at >= 0.0
    ensures forall i :: 0 <= i < |run| ==> BusySince(rate, run, i) <= Free(rate, run)
    ensures exists i :: 0 <= i < |run| && BusySince(rate, run, i) == Free(rate, run)
  {
    var n := |run| - 1;
    forall i | 0 <= i < |run| ensures BusySince(rate, run, i) <= Free(rate, run) {
      NeverPromisedTwice(rate, run, i);
    }
    BusyGrows(rate, run, n);
    if n > 0 {
      FreeIsMaximum(rate, run[..n]);
      var i :| 0 <= i < n && BusySince(rate, run[..n], i) == Free(rate, run[..n]);
      BusyGrows(rate, run, i);
    }
  }

  lemma {:induction false} NeverPromisedTwice(rate: real, run: seq<Chunk>, i: nat)
    requires rate > 0.0 && i < |run|
    ensures BusySince(rate, run, i) <= Free(rate, run)
  {
    BusyGrows(rate, run, i);
    if i < |run| - 1 { NeverPromisedTwice(rate, run[..|run| - 1], i); }
  }

  // --- Bytes since a reservation --------------------------------------------------------------------

  /** The bytes of chunks reserved at or after `from` and sent by `until`. */
  function SentSince(run: seq<Chunk>, from: Time, until: Time): nat {
    if run == [] then 0
    else
      var n := |run| - 1;
      SentSince(run[..n], from, until) + if run[n].at >= from && run[n].sent <= until then run[n].size else 0
  }

  /** No chunk is sent before this clock allows it. */
  ghost predicate Paced(rate: real, run: seq<Chunk>)
    requires rate > 0.0
  {
    run != [] ==> Paced(rate, run[..|run| - 1]) && run[|run| - 1].sent >= Free(rate, run)
  }

  lemma {:induction false} NothingSince(run: seq<Chunk>, from: Time, until: Time)
    requires forall j :: 0 <= j < |run| ==> run[j].at < from
    ensures SentSince(run, from, until) == 0
  {
    if run != [] { NothingSince(run[..|run| - 1], from, until); }
  }

  lemma {:induction false} FirstSince(run: seq<Chunk>, from: Time, until: Time, j: nat) returns (i: nat)
    requires j < |run| && run[j].at >= from
    ensures i < |run| && run[i].at >= from && SentSince(run, from, until) <= Bytes(run[i..])
  {
    var n := |run| - 1;
    if k :| 0 <= k < n && run[k].at >= from {
      i := FirstSince(run[..n], from, until, k);
      assert run[i..][..n - i] == run[..n][i..];
    } else {
      i := n;
      NothingSince(run[..n], from, until);
      assert run[n..][..0] == [];
    }
  }

  lemma {:induction false} PacedCap(rate: real, run: seq<Chunk>, from: Time, until: Time)
    requires rate > 0.0 && Paced(rate, run) && from <= until
    ensures Took(SentSince(run, from, until), rate) <= until - from
  {
    if run != [] {
      if run[|run| - 1].at >= from && run[|run| - 1].sent <= until {
        var i := FirstSince(run, from, until, |run| - 1);
        NeverPromisedTwice(rate, run, i);
        TookMonotone(SentSince(run, from, until), Bytes(run[i..]), rate);
      } else {
        PacedCap(rate, run[..|run| - 1], from, until);
      }
    }
  }

  lemma PacedLimit(rate: real, run: seq<Chunk>, from: Time, until: Time)
    requires rate > 0.0 && Paced(rate, run) && from <= until
    ensures SentSince(run, from, until) as real <= Carried(rate, until - from)
  {
    PacedCap(rate, run, from, until);
    TookBounds(SentSince(run, from, until), rate, until - from);
  }

  lemma TookMonotone(a: nat, b: nat, rate: real)
    requires rate > 0.0 && a <= b
    ensures Took(a, rate) <= Took(b, rate)
  {
    TookAdds(a, b - a, rate);
  }

  lemma {:induction false} HoldingPacesLink(streamRate: real, totalRate: real, run: seq<Chunk>)
    requires streamRate >= 0.0 && totalRate > 0.0 && NeverEarly(streamRate, totalRate, run)
    ensures Paced(totalRate, run)
  {
    if run != [] { HoldingPacesLink(streamRate, totalRate, run[..|run| - 1]); }
  }

  lemma {:induction false} HoldingPacesStream(streamRate: real, totalRate: real, run: seq<Chunk>, stream: nat)
    requires streamRate > 0.0 && totalRate >= 0.0 && NeverEarly(streamRate, totalRate, run)
    ensures Paced(streamRate, Of(run, stream))
  {
    if run != [] {
      var n := |run| - 1;
      HoldingPacesStream(streamRate, totalRate, run[..n], stream);
      if run[n].stream == stream {
        var own := Of(run, stream);
        assert own[..|own| - 1] == Of(run[..n], stream);
      }
    }
  }

  lemma {:induction false} ShapedIsNeverEarly(streamRate: real, totalRate: real, run: seq<Chunk>)
    requires streamRate >= 0.0 && totalRate >= 0.0 && Shaped(streamRate, totalRate, run)
    ensures NeverEarly(streamRate, totalRate, run)
  {
    if run != [] { ShapedIsNeverEarly(streamRate, totalRate, run[..|run| - 1]); }
  }

  /** The total cap, whether or not streams are capped too: what is reserved from some moment on
      is never sent faster than the total rate allows. */
  lemma TotalCap(streamRate: real, totalRate: real, run: seq<Chunk>, from: Time, until: Time)
    requires streamRate >= 0.0 && totalRate > 0.0 && NeverEarly(streamRate, totalRate, run) && from <= until
    ensures SentSince(run, from, until) as real <= Carried(totalRate, until - from)
  {
    HoldingPacesLink(streamRate, totalRate, run);
    PacedLimit(totalRate, run, from, until);
  }

  /** The cap on each response, whatever other responses do. */
  lemma StreamCap(streamRate: real, totalRate: real, run: seq<Chunk>, stream: nat, from: Time, until: Time)
    requires streamRate > 0.0 && totalRate >= 0.0 && NeverEarly(streamRate, totalRate, run) && from <= until
    ensures SentSince(Of(run, stream), from, until) as real <= Carried(streamRate, until - from)
  {
    HoldingPacesStream(streamRate, totalRate, run, stream);
    PacedLimit(streamRate, Of(run, stream), from, until);
  }

  // --- Bytes in any window ---------------------------------------------------------------------------

  /** The bytes sent in a window of time. */
  function SentIn(run: seq<Chunk>, from: Time, until: Time): nat {
    if run == [] then 0
    else
      var n := |run| - 1;
      SentIn(run[..n], from, until) + if from <= run[n].sent <= until then run[n].size else 0
  }

  /** Every chunk is sent exactly when the link has had time for it. */
  ghost predicate LinkDriven(rate: real, run: seq<Chunk>)
    requires rate > 0.0
  {
    run != [] ==>
      && LinkDriven(rate, run[..|run| - 1])
      && run[|run| - 1].sent == Free(rate, run) && run[|run| - 1].size <= CHUNK_SIZE
  }

  lemma {:induction false} SomethingIn(run: seq<Chunk>, from: Time, until: Time) returns (j: nat)
    requires SentIn(run, from, until) > 0
    ensures j < |run| && run[j].sent >= from
  {
    var n := |run| - 1;
    if run[n].sent >= from { j := n; } else { j := SomethingIn(run[..n], from, until); }
  }

  /** From the first chunk of a window on, the link is busy with all that the window holds. */
  lemma {:induction false} WindowIsBusy(rate: real, run: seq<Chunk>, from: Time, until: Time)
    requires rate > 0.0 && LinkDriven(rate, run) && SentIn(run, from, until) > CHUNK_SIZE
    ensures Free(rate, run) - from >= Took(SentIn(run, from, until) - CHUNK_SIZE, rate)
  {
    var n := |run| - 1;
    var before := SentIn(run[..n], from, until);
    var size := SentIn(run, from, until) - before;
    if before > CHUNK_SIZE {
      WindowIsBusy(rate, run[..n], from, until);
      TookAdds(before - CHUNK_SIZE, size, rate);
      TookMonotone(size, run[n].size, rate);
    } else {
      var j := SomethingIn(run[..n], from, until);
      FreeReaches(rate, run[..n], j);
      TookMonotone(before + size - CHUNK_SIZE, run[n].size, rate);
    }
  }

  lemma {:induction false} FreeReaches(rate: real, run: seq<Chunk>, j: nat)
    requires rate > 0.0 && LinkDriven(rate, run) && j < |run|
    ensures Free(rate, run) >= run[j].sent
  {
    if j < |run| - 1 { FreeReaches(rate, run[..|run| - 1], j); }
  }

  lemma {:induction false} WindowFits(rate: real, run: seq<Chunk>, from: Time, until: Time)
    requires rate > 0.0 && LinkDriven(rate, run) && SentIn(run, from, until) > CHUNK_SIZE
    ensures Took(SentIn(run, from, until) - CHUNK_SIZE, rate) <= until - from
  {
    if from <= run[|run| - 1].sent <= until {
      WindowIsBusy(rate, run, from, until);
    } else {
      WindowFits(rate, run[..|run| - 1], from, until);
    }
  }

  lemma WindowCap(rate: real, run: seq<Chunk>, from: Time, until: Time)
    requires rate > 0.0 && LinkDriven(rate, run) && from <= until
    ensures SentIn(run, from, until) as real <= Carried(rate, until - from) + CHUNK_SIZE as real
  {
    var sent := SentIn(run, from, until);
    TookBounds(0, rate, until - from);
    if sent > CHUNK_SIZE {
      WindowFits(rate, run, from, until);
      TookBounds(sent - CHUNK_SIZE, rate, until - from);
    }
  }

  lemma TookFaster(size: nat, fast: real, slow: real)
    requires fast >= slow > 0.0
    ensures Took(size, fast) <= Took(size, slow)
  {
    var time := Took(size, slow);
    assert size as real == slow * time;
    assert slow * time <= fast * time;
    TookFits(size, fast, time);
  }

  /** Streams that are no slower than the link are never behind it. */
  lemma {:induction false} StreamIsAhead(streamRate: real, totalRate: real, run: seq<Chunk>, stream: nat)
    requires streamRate >= totalRate > 0.0
    ensures Free(streamRate, Of(run, stream)) <= Free(totalRate, run)
  {
    if run != [] {
      var n := |run| - 1;
      StreamIsAhead(streamRate, totalRate, run[..n], stream);
      if run[n].stream == stream {
        FreeAppends(streamRate, Of(run[..n], stream), run[n]);
        TookFaster(run[n].size, streamRate, totalRate);
      }
    }
  }

  lemma {:induction false} ShapedIsLinkDriven(streamRate: real, totalRate: real, run: seq<Chunk>)
    requires streamRate == 0.0 || streamRate >= totalRate
    requires totalRate > 0.0 && Shaped(streamRate, totalRate, run)
    ensures LinkDriven(totalRate, run)
  {
    if run != [] {
      var n := |run| - 1;
      ShapedIsLinkDriven(streamRate, totalRate, run[..n]);
      if streamRate > 0.0 { StreamIsAhead(streamRate, totalRate, run, run[n].stream); }
    }
  }

  /** Time does not run backwards. */
  ghost predicate Clocked(run: seq<Chunk>) { forall i, j :: 0 <= i < j < |run| ==> run[i].at <= run[j].at }

  /** In any window of time the link carries what its rate allows and at most one chunk more. */
  ghost predicate WindowsAreCapped(streamRate: real, totalRate: real)
    requires streamRate >= 0.0 && totalRate > 0.0
  {
    forall run, from, until ::
      Shaped(streamRate, totalRate, run) && Clocked(run) && from <= until ==>
      SentIn(run, from, until) as real <= Carried(totalRate, until - from) + CHUNK_SIZE as real
  }

  /** Two responses reserve a full chunk each at time 0. */
  function Burst(streamRate: real, totalRate: real): seq<Chunk>
    requires streamRate > 0.0 && totalRate > 0.0
  {
    var alone := Max(Took(CHUNK_SIZE, streamRate), Took(CHUNK_SIZE, totalRate));
    var second := Max(Took(CHUNK_SIZE, streamRate), Took(2 * CHUNK_SIZE, totalRate));
    [Chunk(1, 0.0, CHUNK_SIZE, alone), Chunk(2, 0.0, CHUNK_SIZE, second)]
  }

  lemma BurstIsShaped(streamRate: real, totalRate: real)
    requires streamRate > 0.0 && totalRate > 0.0
    ensures var run := Burst(streamRate, totalRate);
            Shaped(streamRate, totalRate, run) && Clocked(run)
  {
    var run := Burst(streamRate, totalRate);
    var one, two := [run[0]], [run[1]];
    assert run[..1] == one && run == one + [run[1]];
    assert one[..0] == [] && two[..0] == [];
    OfAppends([], run[0], 1);
    OfAppends([], run[0], 2);
    OfAppends(one, run[1], 2);
    assert [] + [run[0]] == one && [] + [run[1]] == two;
    assert Of([], 1) == [] && Of([], 2) == [];
    FreeAppends(streamRate, [], run[0]);
    FreeAppends(streamRate, [], run[1]);
    FreeAppends(totalRate, [], run[0]);
    FreeAppends(totalRate, one, run[1]);
    TookAdds(CHUNK_SIZE, CHUNK_SIZE, totalRate);
    assert Shaped(streamRate, totalRate, []);
    assert Shaped(streamRate, totalRate, one);
  }

  /** Capped streams that are slower than the link hold chunks back and send them together. */
  lemma BurstIsTooMuch(streamRate: real, totalRate: real)
    requires totalRate > streamRate > 0.0
    ensures var run := Burst(streamRate, totalRate);
            run[0].sent <= run[1].sent &&
            SentIn(run, run[0].sent, run[1].sent) as real >
            Carried(totalRate, run[1].sent - run[0].sent) + CHUNK_SIZE as real
  {
    var run := Burst(streamRate, totalRate);
    TookFaster(CHUNK_SIZE, totalRate, streamRate);
    TookAdds(CHUNK_SIZE, CHUNK_SIZE, totalRate);
    assert run[..1] == [run[0]] && run[..1][..0] == [];
    var a, b := Took(CHUNK_SIZE, streamRate), Took(CHUNK_SIZE, totalRate);
    assert SentIn(run[..1], a, run[1].sent) == CHUNK_SIZE;
    assert a * streamRate == CHUNK_SIZE as real == b * totalRate;
    assert a * totalRate > a * streamRate;
    if a < 2.0 * b {
      assert totalRate * (2.0 * b - a) == 2.0 * (b * totalRate) - a * totalRate;
    } else {
      assert totalRate * 0.0 == 0.0;
    }
  }

  /** The cap holds in every window of every run if and only if streams are not capped, or not
      below the total rate. */
  lemma WindowsCappedExactly(streamRate: real, totalRate: real)
    requires streamRate >= 0.0 && totalRate > 0.0
    ensures WindowsAreCapped(streamRate, totalRate) <==> streamRate == 0.0 || streamRate >= totalRate
  {
    if streamRate == 0.0 || streamRate >= totalRate {
      forall run, from, until | Shaped(streamRate, totalRate, run) && Clocked(run) && from <= until
        ensures SentIn(run, from, until) as real <= Carried(totalRate, until - from) + CHUNK_SIZE as real
      {
        ShapedIsLinkDriven(streamRate, totalRate, run);
        WindowCap(totalRate, run, from, until);
      }
    } else {
      BurstIsShaped(streamRate, totalRate);
      BurstIsTooMuch(streamRate, totalRate);
    }
  }
}
