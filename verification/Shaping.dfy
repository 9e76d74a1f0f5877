/** The bandwidth shaper as an object: responses share its link and are sent chunk by chunk. */
module Shaping {
  import opened Utf8
  import opened Bandwidth

  type Bytes = seq<Byte>

  datatype Message = Start(status: nat) | Body(body: Bytes, more: bool)

  /** The messages that carry a body, chunk by chunk. */
  function Pieces(body: Bytes, more: bool): seq<Message> {
    if |body| <= CHUNK_SIZE then [Body(body, more)]
    else [Body(body[..CHUNK_SIZE], true)] + Pieces(body[CHUNK_SIZE..], more)
  }

  function Joined(messages: seq<Message>): Bytes {
    if messages == [] then []
    else (if messages[0].Body? then messages[0].body else []) + Joined(messages[1..])
  }

  /** The pieces of a body are the body; none is empty or too large; and a receiver learns from
      the last piece, and from no other, whether more follows. */
  lemma {:induction false} PiecesAreTheBody(body: Bytes, more: bool)
    requires body != []
    ensures var p := Pieces(body, more);
            && p != [] && Joined(p) == body
            && (forall k :: 0 <= k < |p| ==> p[k].Body? && 0 < |p[k].body| <= CHUNK_SIZE)
            && (forall k :: 0 <= k < |p| ==> (p[k].more <==> k < |p| - 1 || more))
    decreases |body|
  {
    var p := Pieces(body, more);
    if |body| > CHUNK_SIZE {
      PiecesAreTheBody(body[CHUNK_SIZE..], more);
      assert p[1..] == Pieces(body[CHUNK_SIZE..], more);
      assert body == body[..CHUNK_SIZE] + body[CHUNK_SIZE..];
    } else {
      assert Joined(p[1..]) == [];
      assert Joined(p) == body + [];
    }
  }

  /** One response, with the time its own stream is next free. */
  class Response {
    const id: nat
    var freeAt: Time

    constructor (id: nat)
      ensures this.id == id && freeAt == 0.0
    {
      this.id := id;
      freeAt := 0.0;
    }
  }

  /** Another response reserves a chunk. */
  datatype Job = Job(response: Response, at: Time, size: nat)

  class Shaper {
    // Bytes per second; 0 is no cap.
    const streamRate: real
    const totalRate: real
    var requests: nat
    var linkFreeAt: Time
    ghost var run: seq<Chunk>
    ghost var responses: set<Response>

    constructor (streamRate: real, totalRate: real)
      requires streamRate >= 0.0 && totalRate >= 0.0
      ensures Valid() && this.streamRate == streamRate && this.totalRate == totalRate
      ensures run == [] && responses == {}
    {
      this.streamRate, this.totalRate := streamRate, totalRate;
      requests, linkFreeAt, run, responses := 0, 0.0, [], {};
    }

    /** The shared clock and the clock of every response are those of the run so far. */
    ghost predicate Valid()
      reads this, responses
    {
      && streamRate >= 0.0 && totalRate >= 0.0
      && Shaped(streamRate, totalRate, run)
      && linkFreeAt == FreeAt(totalRate, run)
      && (forall c :: c in run ==> c.stream <= requests)
      && (forall r :: r in responses ==> r.id <= requests && r.freeAt == FreeAt(streamRate, Of(run, r.id)))
      && (forall r, q :: r in responses && q in responses && r.id == q.id ==> r == q)
    }

    method Begin() returns (r: Response)
      requires Valid()
      modifies this`requests, this`responses
      ensures Valid() && fresh(r) && responses == old(responses) + {r} && requests == old(requests) + 1 == r.id
    {
      requests := requests + 1;
      NothingYet(run, requests);
      r := new Response(requests);
      responses := responses + {r};
    }

    /** A chunk takes its turn on both clocks. */
    method Reserve(r: Response, now: Time, size: nat) returns (ready: Time)
      requires Valid() && r in responses && now >= 0.0 && size <= CHUNK_SIZE
      modifies this`linkFreeAt, this`run, responses
      ensures Valid() && run == old(run) + [Chunk(r.id, now, size, ready)]
    {
      ready := now;
      if streamRate > 0.0 {
        r.freeAt := Max(now, r.freeAt) + size as real / streamRate;
        ready := r.freeAt;
      }
      if totalRate > 0.0 {
        linkFreeAt := Max(now, linkFreeAt) + size as real / totalRate;
        ready := Max(ready, linkFreeAt);
      }
      ghost var c := Chunk(r.id, now, size, ready);
      ChunkTakesItsTurn(streamRate, totalRate, run, c);
      forall q | q in responses
        ensures q.freeAt == FreeAt(streamRate, Of(run + [c], q.id))
      {
        OfAppends(run, c, q.id);
      }
      run := run + [c];
    }

    /** What other responses reserve while one waits for its turn and sends. */
    method Meanwhile(jobs: seq<Job>, self: Response)
      requires Valid()
      requires forall j :: j in jobs ==>
                 j.response in responses && j.response != self && j.at >= 0.0 && j.size <= CHUNK_SIZE
      requires self in responses
      modifies this`linkFreeAt, this`run, responses
      ensures Valid() && old(run) <= run && Of(run, self.id) == old(Of(run, self.id))
    {
      for k := 0 to |jobs|
        invariant Valid() && old(run) <= run && Of(run, self.id) == old(Of(run, self.id))
      {
        assert jobs[k] in jobs;
        OfAppends(run, Chunk(jobs[k].response.id, jobs[k].at, jobs[k].size, 0.0), self.id);
        ghost var before := run;
        var ready := Reserve(jobs[k].response, jobs[k].at, jobs[k].size);
        OfAppends(before, run[|before|], self.id);
      }
    }

    /** One chunk: it takes its turn, and others take theirs before the next one. */
    method Turn(r: Response, now: Time, size: nat, others: seq<Job>) returns (ready: Time)
      requires Valid() && r in responses && now >= 0.0 && size <= CHUNK_SIZE
      requires forall j :: j in others ==>
                 j.response in responses && j.response != r && j.at >= 0.0 && j.size <= CHUNK_SIZE
      modifies this`linkFreeAt, this`run, responses
      ensures Valid() && old(run) <= run
      ensures Of(run, r.id) == old(Of(run, r.id)) + [Chunk(r.id, now, size, ready)]
    {
      ghost var before := run;
      ready := Reserve(r, now, size);
      OfAppends(before, Chunk(r.id, now, size, ready), r.id);
      Meanwhile(others, r);
    }

    /** Sends a message through the shaper. `clock(k)` is when the k-th chunk takes its turn, and
        `others(k)` is what other responses do before the next one. */
    method PacedSend(r: Response, message: Message, clock: nat -> Time, others: nat -> seq<Job>)
      returns (sent: seq<(Time, Message)>)
      requires Valid() && r in responses && forall k: nat :: clock(k) >= 0.0
      requires forall k: nat, j :: j in others(k) ==>
                 j.response in responses && j.response != r && j.at >= 0.0 && j.size <= CHUNK_SIZE
      modifies this`linkFreeAt, this`run, responses
      ensures Valid() && old(run) <= run
      ensures Messages(sent) == if Shapes(message) then Pieces(message.body, message.more) else [message]
      ensures Of(run, r.id) == old(Of(run, r.id)) + if Shapes(message) then Reserved(r.id, sent, clock) else []
      ensures streamRate > 0.0 ==> InChunks(Messages(sent))
      ensures totalRate > 0.0 ==> InChunks(Messages(sent))
      ensures streamRate == totalRate == 0.0 ==> sent == [(clock(0), message)] && Of(run, r.id) == old(Of(run, r.id))
    {
      if message.Body? && message.body != [] { PiecesAreTheBody(message.body, message.more); }
      if !Shapes(message) {
        return [(clock(0), message)];
      }
      var body, more := message.body, message.more;
      sent := [];
      ghost var mine := Of(run, r.id);
      var start := 0;
      while start < |body|
        invariant 0 <= start <= |body| && Valid() && old(run) <= run
        invariant Messages(sent) + Rest(body, more, start) == Pieces(body, more)
        invariant Of(run, r.id) == mine + Reserved(r.id, sent, clock)
      {
        var end := if start + CHUNK_SIZE < |body| then start + CHUNK_SIZE else |body|;
        var chunk := body[start..end];
        var last := start + CHUNK_SIZE >= |body|;
        var ready := Turn(r, clock(|sent|), |chunk|, others(|sent|));
        NextPiece(body, more, start, Messages(sent));
        SentGrows(r.id, sent, ready, chunk, more || !last, clock, mine);
        sent := sent + [(ready, Body(chunk, more || !last))];
        start := end;
      }
    }

    /** Empty and other messages go straight through, and so does everything without caps. */
    predicate Shapes(message: Message) {
      message.Body? && message.body != [] && (streamRate > 0.0 || totalRate > 0.0)
    }
  }

  /** No body is larger than a chunk. */
  predicate InChunks(messages: seq<Message>) {
    forall k :: 0 <= k < |messages| && messages[k].Body? ==> |messages[k].body| <= CHUNK_SIZE
  }

  function Messages(sent: seq<(Time, Message)>): seq<Message> {
    seq(|sent|, k requires 0 <= k < |sent| => sent[k].1)
  }

  /** The chunks a response reserves for the messages it sends. */
  function Reserved(id: nat, sent: seq<(Time, Message)>, clock: nat -> Time): seq<Chunk> {
    seq(|sent|, k requires 0 <= k < |sent| =>
      Chunk(id, clock(k), if sent[k].1.Body? then |sent[k].1.body| else 0, sent[k].0))
  }

  lemma SentGrows(id: nat, sent: seq<(Time, Message)>, ready: Time, piece: Bytes, more: bool, clock: nat -> Time,
                  mine: seq<Chunk>)
    ensures var all := sent + [(ready, Body(piece, more))];
            && mine + Reserved(id, all, clock) ==
               (mine + Reserved(id, sent, clock)) + [Chunk(id, clock(|sent|), |piece|, ready)]
            && Messages(all) == Messages(sent) + [Body(piece, more)]
  {}

  function Rest(body: Bytes, more: bool, start: nat): seq<Message>
    requires start <= |body|
  {
    if start < |body| then Pieces(body[start..], more) else []
  }

  lemma NextPiece(body: Bytes, more: bool, start: nat, done: seq<Message>)
    requires start < |body|
    ensures var end := if start + CHUNK_SIZE < |body| then start + CHUNK_SIZE else |body|;
            var piece := Body(body[start..end], more || start + CHUNK_SIZE < |body|);
            done + Rest(body, more, start) == (done + [piece]) + Rest(body, more, end)
  {
    if start + CHUNK_SIZE < |body| {
      assert body[start..][..CHUNK_SIZE] == body[start..start + CHUNK_SIZE];
      assert body[start..][CHUNK_SIZE..] == body[start + CHUNK_SIZE..];
    } else {
      assert body[start..] == body[start..|body|];
      assert Rest(body, more, start) == [Body(body[start..|body|], more)] + [];
    }
  }

  lemma {:induction false} NothingYet(run: seq<Chunk>, id: nat)
    requires forall c :: c in run ==> c.stream < id
    ensures Of(run, id) == []
  {
    if run != [] {
      assert run[|run| - 1] in run;
      NothingYet(run[..|run| - 1], id);
    }
  }

  /** Both clocks move on as the code moves them. */
  lemma ChunkTakesItsTurn(streamRate: real, totalRate: real, run: seq<Chunk>, c: Chunk)
    requires streamRate >= 0.0 && totalRate >= 0.0 && Shaped(streamRate, totalRate, run)
    requires c.at >= 0.0 && c.size <= CHUNK_SIZE
    requires c.sent ==
             var own := if streamRate == 0.0 then c.at
                        else Max(c.at, Free(streamRate, Of(run, c.stream))) + Took(c.size, streamRate);
             if totalRate > 0.0 then Max(own, Max(c.at, Free(totalRate, run)) + Took(c.size, totalRate)) else own
    ensures Shaped(streamRate, totalRate, run + [c])
    ensures totalRate > 0.0 ==> Free(totalRate, run + [c]) == Max(c.at, Free(totalRate, run)) + Took(c.size, totalRate)
    ensures streamRate > 0.0 ==> Free(streamRate, Of(run + [c], c.stream)) ==
                                 Max(c.at, Free(streamRate, Of(run, c.stream))) + Took(c.size, streamRate)
  {
    var all := run + [c];
    assert all[..|run|] == run;
    OfAppends(run, c, c.stream);
    if streamRate > 0.0 { FreeAppends(streamRate, Of(run, c.stream), c); }
    if totalRate > 0.0 { FreeAppends(totalRate, run, c); }
  }
}
