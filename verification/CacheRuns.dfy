/** Concurrent reads of the cache. Each read is a task that takes the lock for a lookup or a
    store, and asks the backend in between without it; the backend may change at any moment. */
module CacheRuns {
  import opened Wrappers
  import opened CacheModel

  datatype Request = Request(name: Name, range: Option<ByteRange>) {
    predicate Valid() { range.Some? ==> range.value.Valid() }
  }

  /** Where a task stands: what it will do next, with what it has in hand. */
  datatype Task =
    | AskHead(req: Request)
    | FetchHead(req: Request)
    | KeepHead(req: Request, size: nat)
    | FetchRange(req: Request)
    | FetchWhole(req: Request)
    | Keep(req: Request, content: Bytes)
    | Done(req: Request, result: Option<Bytes>)

  datatype Config = Config(maxBytes: nat, ttl: Time)

  /** `history` collects every content the backend has had for a name. */
  datatype State = State(
    data: seq<Entry>, size: int, heads: seq<Head>, now: Time,
    store: Store, history: set<(Name, Bytes)>, tasks: map<nat, Task>)

  datatype Action =
    | Begin(id: nat, req: Request)
    | Step(id: nat)
    | Change(name: Name, content: Option<Bytes>)
    | Pass(time: Time)

  predicate Possible(a: Action) {
    match a case Begin(_, req) => req.Valid() case Pass(t) => t >= 0.0 case _ => true
  }

  ghost predicate TasksValid(tasks: map<nat, Task>) { forall id :: id in tasks ==> tasks[id].req.Valid() }

  // --- Locked sections, with the running size -----------------------------------------------------

  function LookupSize(d: seq<Entry>, size: int, name: Name, ttl: Time, now: Time): int {
    var e := Find(d, name);
    if e.Some? && !Fresh(ttl, now, e.value.storedAt) then size - |e.value.content| else size
  }

  function EvictSize(d: seq<Entry>, size: int, maxBytes: nat): (seq<Entry>, int) {
    if size > maxBytes && d != [] then EvictSize(d[1..], size - |d[0].content|, maxBytes) else (d, size)
  }

  function StoreSize(d: seq<Entry>, size: int, name: Name, content: Bytes, now: Time, maxBytes: nat): (seq<Entry>,
                                                                                                       int) {
    var e := Find(d, name);
    EvictSize(Joined(d, name, content, now),
              size - (if e.Some? then |e.value.content| else 0) + |content|, maxBytes)
  }

  lemma {:induction false} EvictSizeFollows(d: seq<Entry>, size: int, maxBytes: nat)
    requires size == Total(d)
    ensures EvictSize(d, size, maxBytes) == (Evicted(d, maxBytes), Total(Evicted(d, maxBytes)))
  {
    if size > maxBytes && d != [] { EvictSizeFollows(d[1..], size - |d[0].content|, maxBytes); }
  }

  lemma StoreSizeFollows(d: seq<Entry>, name: Name, content: Bytes, now: Time, maxBytes: nat)
    requires Distinct(d)
    ensures StoreSize(d, Total(d), name, content, now, maxBytes) ==
            (Stored(d, name, content, now, maxBytes), Total(Stored(d, name, content, now, maxBytes)))
  {
    JoinedTotal(d, name, content, now);
    EvictSizeFollows(Joined(d, name, content, now), Total(Joined(d, name, content, now)), maxBytes);
  }

  lemma JoinedTotal(d: seq<Entry>, name: Name, content: Bytes, now: Time)
    requires Distinct(d)
    ensures var e := Find(d, name);
            Total(Joined(d, name, content, now)) == Total(d) - (if e.Some? then |e.value.content| else 0) + |content|
  {
    WithoutTotal(d, name);
    JoinedBounds(d, name, content, now);
  }

  // --- Steps ------------------------------------------------------------------------------------------

  /** A ranged read of a large object goes straight through. */
  function AfterHead(cfg: Config, req: Request, size: nat): Task {
    if size > cfg.maxBytes / 4 then FetchRange(req) else FetchWhole(req)
  }

  function BeginTask(cfg: Config, s: State, id: nat, req: Request): State
    requires req.Valid()
  {
    if id in s.tasks then s
    else
      var hit := Hit(s.data, req.name, cfg.ttl, s.now);
      var task := if hit.Some? then Done(req, Some(Slice(req.range, hit.value)))
                  else if req.range.Some? then AskHead(req) else FetchWhole(req);
      s.(data := LookedUp(s.data, req.name, cfg.ttl, s.now),
         size := LookupSize(s.data, s.size, req.name, cfg.ttl, s.now),
         tasks := s.tasks[id := task])
  }

  function StepTask(cfg: Config, s: State, id: nat): State
    requires TasksValid(s.tasks)
  {
    if id !in s.tasks then s
    else
      var req := s.tasks[id].req;
      match s.tasks[id]
      case AskHead(_) =>
        var hit := HeadHit(s.heads, req.name, cfg.ttl, s.now);
        s.(tasks := s.tasks[id := if hit.Some? then AfterHead(cfg, req, hit.value) else FetchHead(req)])
      case FetchHead(_) =>
        s.(tasks := s.tasks[id := if req.name in s.store then KeepHead(req, |s.store[req.name]|) else Done(req, None)])
      case KeepHead(_, size) =>
        s.(heads := HeadStored(s.heads, req.name, size, s.now), tasks := s.tasks[id := AfterHead(cfg, req, size)])
      case FetchRange(_) =>
        var result := if req.name in s.store then Some(Slice(req.range, s.store[req.name])) else None;
        s.(tasks := s.tasks[id := Done(req, result)])
      case FetchWhole(_) =>
        var task := if req.name !in s.store then Done(req, None)
                    else if |s.store[req.name]| <= cfg.maxBytes / 4 then Keep(req, s.store[req.name])
                    else Done(req, Some(Slice(req.range, s.store[req.name])));
        s.(tasks := s.tasks[id := task])
      case Keep(_, content) =>
        var (data, size) := StoreSize(s.data, s.size, req.name, content, s.now, cfg.maxBytes);
        s.(data := data, size := size, tasks := s.tasks[id := Done(req, Some(Slice(req.range, content)))])
      case Done(_, _) => s
  }

  function Next(cfg: Config, s: State, a: Action): State
    requires Possible(a) && TasksValid(s.tasks)
  {
    match a
    case Begin(id, req) => BeginTask(cfg, s, id, req)
    case Step(id) => StepTask(cfg, s, id)
    case Change(name, None) => s.(store := map n | n in s.store && n != name :: s.store[n])
    case Change(name, Some(content)) =>
      s.(store := s.store[name := content], history := s.history + {(name, content)})
    case Pass(time) => s.(now := s.now + time)
  }

  // --- What every step keeps ------------------------------------------------------------------------------

  /** Some content the backend had for the name, cut to the range. */
  ghost predicate Genuine(history: set<(Name, Bytes)>, req: Request, result: Bytes)
    requires req.Valid()
  {
    exists content :: (req.name, content) in history && result == Slice(req.range, content)
  }

  ghost predicate TaskGenuine(cfg: Config, history: set<(Name, Bytes)>, task: Task)
    requires task.req.Valid()
  {
    && (task.Keep? ==> (task.req.name, task.content) in history && |task.content| <= cfg.maxBytes / 4)
    && (task.Done? && task.result.Some? ==> Genuine(history, task.req, task.result.value))
  }

  ghost predicate EntriesGenuine(d: seq<Entry>, now: Time, history: set<(Name, Bytes)>) {
    forall e :: e in d ==> (e.name, e.content) in history && e.storedAt <= now
  }

  ghost predicate Safe(cfg: Config, s: State) {
    && s.size == Total(s.data) && Bounded(s.data, cfg.maxBytes) && |s.heads| <= MAX_HEADS
    && EntriesGenuine(s.data, s.now, s.history)
    && (forall n :: n in s.store ==> (n, s.store[n]) in s.history)
    && TasksValid(s.tasks)
    && (forall id :: id in s.tasks ==> TaskGenuine(cfg, s.history, s.tasks[id]))
  }

  lemma HitIsGenuine(d: seq<Entry>, now: Time, history: set<(Name, Bytes)>, req: Request, ttl: Time)
    requires EntriesGenuine(d, now, history) && req.Valid()
    ensures var hit := Hit(d, req.name, ttl, now);
            hit.Some? ==> Genuine(history, req, Slice(req.range, hit.value))
  {
    var found := Find(d, req.name);
    if found.Some? { assert found.value in d; }
  }

  lemma BeginKeepsSafe(cfg: Config, s: State, id: nat, req: Request)
    requires Safe(cfg, s) && req.Valid()
    ensures Safe(cfg, BeginTask(cfg, s, id, req))
  {
    LookupKeepsBounds(s.data, req.name, cfg.ttl, s.now, cfg.maxBytes);
    HitIsGenuine(s.data, s.now, s.history, req, cfg.ttl);
    var t := BeginTask(cfg, s, id, req);
    assert EntriesGenuine(t.data, t.now, t.history);
    forall i | i in t.tasks ensures t.tasks[i].req.Valid() && TaskGenuine(cfg, t.history, t.tasks[i]) {
      if i in s.tasks { assert TaskGenuine(cfg, s.history, s.tasks[i]); }
    }
  }

  lemma KeepKeepsSafe(cfg: Config, s: State, id: nat)
    requires Safe(cfg, s) && id in s.tasks && s.tasks[id].Keep?
    ensures Safe(cfg, StepTask(cfg, s, id))
  {
    var task := s.tasks[id];
    assert TaskGenuine(cfg, s.history, task);
    StoreKeepsBounds(s.data, task.req.name, task.content, s.now, cfg.maxBytes);
    StoreSizeFollows(s.data, task.req.name, task.content, s.now, cfg.maxBytes);
    assert Genuine(s.history, task.req, Slice(task.req.range, task.content));
  }

  lemma StepKeepsSafe(cfg: Config, s: State, id: nat)
    requires Safe(cfg, s)
    ensures Safe(cfg, StepTask(cfg, s, id))
  {
    if id in s.tasks {
      var task := s.tasks[id];
      if task.Keep? {
        KeepKeepsSafe(cfg, s, id);
      } else if task.req.name in s.store {
        assert (task.req.name, s.store[task.req.name]) in s.history;
        assert Genuine(s.history, task.req, Slice(task.req.range, s.store[task.req.name]));
      }
    }
  }

  lemma ChangeKeepsSafe(cfg: Config, s: State, name: Name, content: Bytes)
    requires Safe(cfg, s)
    ensures Safe(cfg, Next(cfg, s, Change(name, Some(content))))
  {
    var t := Next(cfg, s, Change(name, Some(content)));
    forall id | id in t.tasks ensures TaskGenuine(cfg, t.history, t.tasks[id]) {
      var task := t.tasks[id];
      assert TaskGenuine(cfg, s.history, task);
      if task.Done? && task.result.Some? {
        var whole :| (task.req.name, whole) in s.history && task.result.value == Slice(task.req.range, whole);
        assert (task.req.name, whole) in t.history;
      }
    }
  }

  lemma NextKeepsSafe(cfg: Config, s: State, a: Action)
    requires Safe(cfg, s) && Possible(a)
    ensures Safe(cfg, Next(cfg, s, a))
  {
    match a
    case Begin(id, req) => BeginKeepsSafe(cfg, s, id, req);
    case Step(id) => StepKeepsSafe(cfg, s, id);
    case Change(name, content) => if content.Some? { ChangeKeepsSafe(cfg, s, name, content.value); }
    case Pass(_) =>
  }

  function Initial(now: Time, store: Store): State {
    State([], 0, [], now, store, set n | n in store :: (n, store[n]), map[])
  }

  ghost function Run(cfg: Config, s: State, actions: seq<Action>): State
    requires Safe(cfg, s) && forall i :: 0 <= i < |actions| ==> Possible(actions[i])
    ensures Safe(cfg, Run(cfg, s, actions))
  {
    if actions == [] then s
    else
      var n := |actions| - 1;
      assert Possible(actions[n]);
      var before := Run(cfg, s, actions[..n]);
      NextKeepsSafe(cfg, before, actions[n]);
      Next(cfg, before, actions[n])
  }

  /** Under every interleaving of reads, backend changes and passing time, between two steps:
      the size is the sum of the cached lengths and within the limit, and every result handed out
      is (a range of) a content the backend had for that name. */
  lemma EveryRunIsSafe(cfg: Config, now: Time, store: Store, actions: seq<Action>)
    requires forall i :: 0 <= i < |actions| ==> Possible(actions[i])
    ensures Safe(cfg, Initial(now, store))
    ensures var s := Run(cfg, Initial(now, store), actions);
            && s.size == Total(s.data) <= cfg.maxBytes
            && forall id :: id in s.tasks && s.tasks[id].Done? && s.tasks[id].result.Some? ==>
                 Genuine(s.history, s.tasks[id].req, s.tasks[id].result.value)
  {
    var s := Run(cfg, Initial(now, store), actions);
    forall id | id in s.tasks && s.tasks[id].Done? && s.tasks[id].result.Some?
      ensures Genuine(s.history, s.tasks[id].req, s.tasks[id].result.value)
    {
      assert TaskGenuine(cfg, s.history, s.tasks[id]);
    }
  }

  /** Step `k` of the run stored this entry: a task that held its content, at the time it says. */
  ghost predicate StoredAt(cfg: Config, s: State, actions: seq<Action>, k: nat, e: Entry)
    requires Safe(cfg, s) && k < |actions| && forall i :: 0 <= i < |actions| ==> Possible(actions[i])
  {
    var before := Run(cfg, s, actions[..k]);
    actions[k].Step? && actions[k].id in before.tasks && before.now == e.storedAt &&
    var task := before.tasks[actions[k].id];
    task.Keep? && task.req.name == e.name && task.content == e.content
  }

  /** Every entry was stored in some step of the run. */
  lemma {:induction false} EntriesWereStored(cfg: Config, s: State, actions: seq<Action>, e: Entry) returns (k: nat)
    requires Safe(cfg, s) && s.data == [] && forall i :: 0 <= i < |actions| ==> Possible(actions[i])
    requires e in Run(cfg, s, actions).data
    ensures k < |actions| && StoredAt(cfg, s, actions, k, e)
  {
    var n := |actions| - 1;
    var before := Run(cfg, s, actions[..n]);
    if e in before.data {
      k := EntriesWereStored(cfg, s, actions[..n], e);
      assert actions[..n][..k] == actions[..k];
    } else {
      k := n;
      NewEntryWasStored(cfg, before, actions[n], e);
    }
  }

  lemma NewEntryWasStored(cfg: Config, s: State, a: Action, e: Entry)
    requires Safe(cfg, s) && Possible(a) && e in Next(cfg, s, a).data && e !in s.data
    ensures a.Step? && a.id in s.tasks && s.tasks[a.id].Keep? && s.tasks[a.id].req.name == e.name
    ensures s.tasks[a.id].content == e.content && s.now == e.storedAt
  {
    if a.Step? && a.id in s.tasks && s.tasks[a.id].Keep? {
      var task := s.tasks[a.id];
      StoreSizeFollows(s.data, task.req.name, task.content, s.now, cfg.maxBytes);
      EvictedIsPart(Joined(s.data, task.req.name, task.content, s.now), cfg.maxBytes);
    }
  }

  /** Whatever the run, a read that is answered at once gets (a range of) what some earlier step
      stored, and less than the time to live before. */
  lemma HitsAreYoung(cfg: Config, now: Time, store: Store, actions: seq<Action>, id: nat, req: Request) returns (k: nat)
    requires Safe(cfg, Initial(now, store)) && (forall i :: 0 <= i < |actions| ==> Possible(actions[i]))
    requires req.Valid() && id !in Run(cfg, Initial(now, store), actions).tasks
    requires BeginTask(cfg, Run(cfg, Initial(now, store), actions), id, req).tasks[id].Done?
    ensures k < |actions|
    ensures var s := Run(cfg, Initial(now, store), actions);
            exists e :: StoredAt(cfg, Initial(now, store), actions, k, e) && e.name == req.name &&
              BeginTask(cfg, s, id, req).tasks[id].result == Some(Slice(req.range, e.content)) &&
              (cfg.ttl > 0.0 ==> s.now - Run(cfg, Initial(now, store), actions[..k]).now < cfg.ttl)
  {
    var s := Run(cfg, Initial(now, store), actions);
    var e := Find(s.data, req.name).value;
    k := EntriesWereStored(cfg, Initial(now, store), actions, e);
  }

  // --- What is not promised -----------------------------------------------------------------------------------

  const OLD: Bytes := []

  /** A content that is too large to be stored. */
  function New(cfg: Config): Bytes { seq(cfg.maxBytes / 4 + 1, _ => 0) }

  function RaceState(cfg: Config, now: Time, name: Name, data: seq<Entry>, tasks: map<nat, Task>): State {
    State(data, 0, [], now, map[name := New(cfg)], {(name, OLD), (name, New(cfg))}, tasks)
  }

  /** Task 0 fetches the old content, the object changes, task 1 begins and gets the new one. */
  function AfterFetches(cfg: Config, now: Time, name: Name): State {
    var req := Request(name, None);
    var s0 := Initial(now, map[name := OLD]);
    var s1 := Next(cfg, s0, Begin(0, req));
    var s2 := Next(cfg, s1, Step(0));
    var s3 := Next(cfg, s2, Change(name, Some(New(cfg))));
    var s4 := Next(cfg, s3, Begin(1, req));
    Next(cfg, s4, Step(1))
  }

  lemma RaceFetches(cfg: Config, now: Time, name: Name)
    ensures var req := Request(name, None);
            AfterFetches(cfg, now, name) ==
            RaceState(cfg, now, name, [], map[0 := Keep(req, OLD), 1 := Done(req, Some(New(cfg)))])
  {}

  /** Task 0 stores the old content, task 2 is answered with it. */
  lemma RaceStores(cfg: Config, now: Time, name: Name)
    ensures var req := Request(name, None);
            var s5 := RaceState(cfg, now, name, [], map[0 := Keep(req, OLD), 1 := Done(req, Some(New(cfg)))]);
            var s6 := Next(cfg, s5, Step(0));
            var s7 := Next(cfg, s6, Begin(2, req));
            2 !in s6.tasks && s7.tasks[2] == Done(req, Some(OLD))
  {
    var req, e := Request(name, None), Entry(name, now, OLD);
    var s5 := RaceState(cfg, now, name, [], map[0 := Keep(req, OLD), 1 := Done(req, Some(New(cfg)))]);
    assert Joined([], name, OLD, now) == [e];
    assert Evicted([e], cfg.maxBytes) == [e];
    StoreSizeFollows([], name, OLD, now, cfg.maxBytes);
    assert Next(cfg, s5, Step(0)).data == [e];
  }

  /** Whatever the limits and the time to live, reads can go back: an object changes once, a read
      gets the new content, and a read that begins after it gets the old one. */
  lemma ReadsCanGoBack(cfg: Config, now: Time, name: Name)
    ensures var req := Request(name, None);
            var s5 := AfterFetches(cfg, now, name);
            TasksValid(s5.tasks) &&
            var s6 := Next(cfg, s5, Step(0));
            var s7 := Next(cfg, s6, Begin(2, req));
            && s5.tasks[1] == Done(req, Some(New(cfg))) && 2 !in s6.tasks && s7.tasks[2] == Done(req, Some(OLD))
            && OLD != New(cfg)
  {
    RaceFetches(cfg, now, name);
    RaceStores(cfg, now, name);
  }
}
