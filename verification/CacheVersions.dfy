/** When reads through the cache go back in time. Beside the concurrent reads of CacheRuns, every
    content of one object gets a version, the number of changes before it, and so does every copy
    of it that a task or the cache holds. */
module CacheVersions {
  import opened Wrappers
  import opened CacheModel
  import opened CacheRuns

  /** `contents` are all contents the object has had, None where it was removed. `entry` is the
      version of the cached copy, `kept` of the copies that tasks will store, and `done` of the
      results that were handed out. */
  datatype Traced = Traced(state: State, contents: seq<Option<Bytes>>, entry: nat, kept: map<nat, nat>, done: map<nat,
                           nat>)
  {
    function Current(): nat
      requires contents != []
    {
      |contents| - 1
    }
  }

  predicate On(s: State, id: nat, name: Name) { id in s.tasks && s.tasks[id].req.name == name }

  predicate KeepOn(s: State, id: nat, name: Name) { On(s, id, name) && s.tasks[id].Keep? }

  predicate DoneOn(s: State, id: nat, name: Name) { On(s, id, name) && s.tasks[id].Done? }

  predicate BusyOn(s: State, id: nat, name: Name) { On(s, id, name) && !s.tasks[id].Done? }

  /** A lookup gives this entry, now or not at all. */
  predicate Usable(cfg: Config, s: State, e: Entry, name: Name) {
    e in s.data && e.name == name && Fresh(cfg.ttl, s.now, e.storedAt)
  }

  // --- Versions along a run -----------------------------------------------------------------------

  function BeginTraced(cfg: Config, name: Name, w: Traced, id: nat, req: Request): Traced
    requires req.Valid()
  {
    var s := BeginTask(cfg, w.state, id, req);
    if id !in w.state.tasks && DoneOn(s, id, name) then w.(state := s, done := w.done[id := w.entry])
    else w.(state := s)
  }

  function StepTraced(cfg: Config, name: Name, w: Traced, id: nat): Traced
    requires TasksValid(w.state.tasks) && w.contents != []
  {
    var s := StepTask(cfg, w.state, id);
    if !BusyOn(w.state, id, name) then w.(state := s)
    else if w.state.tasks[id].Keep? then
      var version := if id in w.kept then w.kept[id] else 0;
      w.(state := s, entry := version, done := w.done[id := version])
    else if KeepOn(s, id, name) then w.(state := s, kept := w.kept[id := w.Current()])
    else if DoneOn(s, id, name) then w.(state := s, done := w.done[id := w.Current()])
    else w.(state := s)
  }

  function NextTraced(cfg: Config, name: Name, w: Traced, a: Action): (r: Traced)
    requires Possible(a) && TasksValid(w.state.tasks) && w.contents != []
    ensures r.state == Next(cfg, w.state, a) && w.contents <= r.contents
  {
    match a
    case Begin(id, req) => BeginTraced(cfg, name, w, id, req)
    case Step(id) => StepTraced(cfg, name, w, id)
    case Change(n, content) =>
      w.(state := Next(cfg, w.state, a), contents := if n == name then w.contents + [content] else w.contents)
    case Pass(_) => w.(state := Next(cfg, w.state, a))
  }

  function Cut(req: Request, content: Option<Bytes>): Option<Bytes>
    requires req.Valid()
  {
    if content.None? then None else Some(Slice(req.range, content.value))
  }

  predicate HoldsVersion(contents: seq<Option<Bytes>>, version: nat, content: Option<Bytes>) {
    version < |contents| && contents[version] == content
  }

  /** What a task keeps or has handed out is of the version it is said to be. */
  predicate TaskTruthful(name: Name, w: Traced, id: nat, task: Task)
    requires task.req.Valid()
  {
    task.req.name == name ==>
      && (task.Keep? ==> id in w.kept && HoldsVersion(w.contents, w.kept[id], Some(task.content)))
      && (task.Done? ==> id in w.done && w.done[id] < |w.contents|)
      && (task.Done? ==> task.result == Cut(task.req, w.contents[w.done[id]]))
  }

  ghost predicate TasksTruthful(name: Name, w: Traced) {
    TasksValid(w.state.tasks) && forall id :: id in w.state.tasks ==> TaskTruthful(name, w, id, w.state.tasks[id])
  }

  /** And so is what the cache holds and what the backend has. */
  ghost predicate CopiesTruthful(cfg: Config, name: Name, w: Traced) {
    && w.contents != []
    && HoldsVersion(w.contents, w.Current(), Whole(w.state.store, name))
    && (forall e :: Usable(cfg, w.state, e, name) ==> HoldsVersion(w.contents, w.entry, Some(e.content)))
  }

  ghost predicate Truthful(cfg: Config, name: Name, w: Traced) {
    CopiesTruthful(cfg, name, w) && TasksTruthful(name, w)
  }

  lemma LookupMisses(d: seq<Entry>, name: Name, ttl: Time, now: Time)
    requires Hit(d, name, ttl, now).None?
    ensures forall e :: e in LookedUp(d, name, ttl, now) ==> e.name != name
  {}

  lemma LookupKeepsEntries(d: seq<Entry>, name: Name, ttl: Time, now: Time)
    ensures forall e :: e in LookedUp(d, name, ttl, now) ==> e in d
  {}

  lemma HitIsUsable(cfg: Config, s: State, name: Name) returns (e: Entry)
    requires Hit(s.data, name, cfg.ttl, s.now).Some?
    ensures Usable(cfg, s, e, name) && e.content == Hit(s.data, name, cfg.ttl, s.now).value
  {
    e := Find(s.data, name).value;
  }

  lemma StoredEntries(d: seq<Entry>, name: Name, content: Bytes, now: Time, maxBytes: nat)
    ensures forall e :: e in Stored(d, name, content, now, maxBytes) ==>
              e == Entry(name, now, content) || (e in d && e.name != name)
  {
    EvictedIsPart(Without(d, name) + [Entry(name, now, content)], maxBytes);
  }

  /** A step moves one task; what is known of the others stays. */
  lemma OneTaskMoves(name: Name, w: Traced, v: Traced, id: nat, task: Task)
    requires TasksTruthful(name, w) && task.req.Valid() && w.contents <= v.contents
    requires v.state.tasks == w.state.tasks[id := task] && TaskTruthful(name, v, id, task)
    requires forall i :: i != id && i in w.kept ==> i in v.kept && v.kept[i] == w.kept[i]
    requires forall i :: i != id && i in w.done ==> i in v.done && v.done[i] == w.done[i]
    ensures TasksTruthful(name, v)
  {
    forall i | i in v.state.tasks
      ensures v.state.tasks[i].req.Valid() && TaskTruthful(name, v, i, v.state.tasks[i])
    {
      if i != id { assert TaskTruthful(name, w, i, w.state.tasks[i]); }
    }
  }

  lemma BeginKeepsTruth(cfg: Config, name: Name, w: Traced, id: nat, req: Request)
    requires Truthful(cfg, name, w) && req.Valid()
    ensures Truthful(cfg, name, BeginTraced(cfg, name, w, id, req))
  {
    var v := BeginTraced(cfg, name, w, id, req);
    if id !in w.state.tasks {
      LookupKeepsEntries(w.state.data, req.name, cfg.ttl, w.state.now);
      assert forall e :: Usable(cfg, v.state, e, name) ==> Usable(cfg, w.state, e, name);
      if req.name == name && Hit(w.state.data, name, cfg.ttl, w.state.now).Some? {
        var e := HitIsUsable(cfg, w.state, name);
      }
      OneTaskMoves(name, w, v, id, v.state.tasks[id]);
    }
  }

  lemma KeepKeepsTruth(cfg: Config, name: Name, w: Traced, id: nat)
    requires Truthful(cfg, name, w) && Distinct(w.state.data) && w.state.size == Total(w.state.data)
    requires id in w.state.tasks && w.state.tasks[id].Keep?
    ensures Truthful(cfg, name, StepTraced(cfg, name, w, id))
  {
    var s, task, v := w.state, w.state.tasks[id], StepTraced(cfg, name, w, id);
    StoreSizeFollows(s.data, task.req.name, task.content, s.now, cfg.maxBytes);
    StoredEntries(s.data, task.req.name, task.content, s.now, cfg.maxBytes);
    assert TaskTruthful(name, w, id, task);
    forall e | Usable(cfg, v.state, e, name) ensures HoldsVersion(v.contents, v.entry, Some(e.content)) {
      if task.req.name != name { assert Usable(cfg, s, e, name); }
    }
    OneTaskMoves(name, w, v, id, v.state.tasks[id]);
  }

  /** A step of a task that does not store: it only moves that task, and what it takes from the
      backend is what is there. */
  lemma FetchOutcome(cfg: Config, s: State, id: nat)
    requires TasksValid(s.tasks) && id in s.tasks && !s.tasks[id].Keep?
    ensures var t := StepTask(cfg, s, id);
            var task := t.tasks[id];
            && t.data == s.data && t.now == s.now && t.store == s.store && t.tasks == s.tasks[id := task]
            && task.req == s.tasks[id].req
            && (task.Keep? ==> !s.tasks[id].Done? && Whole(s.store, task.req.name) == Some(task.content))
            && (task.Done? && !s.tasks[id].Done? ==> task.result == Cut(task.req, Whole(s.store, task.req.name)))
            && (s.tasks[id].Done? ==> task == s.tasks[id])
  {
    assert s.tasks[id := s.tasks[id]] == s.tasks;
  }

  lemma FetchKeepsTruth(cfg: Config, name: Name, w: Traced, id: nat)
    requires Truthful(cfg, name, w) && id in w.state.tasks && !w.state.tasks[id].Keep?
    ensures Truthful(cfg, name, StepTraced(cfg, name, w, id))
  {
    var v := StepTraced(cfg, name, w, id);
    FetchOutcome(cfg, w.state, id);
    assert forall e :: Usable(cfg, v.state, e, name) <==> Usable(cfg, w.state, e, name);
    assert TaskTruthful(name, w, id, w.state.tasks[id]);
    OneTaskMoves(name, w, v, id, v.state.tasks[id]);
  }

  lemma ChangeKeepsTruth(cfg: Config, name: Name, w: Traced, n: Name, content: Option<Bytes>)
    requires Truthful(cfg, name, w)
    ensures Truthful(cfg, name, NextTraced(cfg, name, w, Change(n, content)))
  {
    var v := NextTraced(cfg, name, w, Change(n, content));
    assert forall e :: Usable(cfg, v.state, e, name) <==> Usable(cfg, w.state, e, name);
    forall id | id in v.state.tasks ensures TaskTruthful(name, v, id, v.state.tasks[id]) {
      assert TaskTruthful(name, w, id, w.state.tasks[id]);
    }
  }

  lemma PassKeepsTruth(cfg: Config, name: Name, w: Traced, t: Time)
    requires Truthful(cfg, name, w) && t >= 0.0
    ensures Truthful(cfg, name, NextTraced(cfg, name, w, Pass(t)))
  {
    var v := NextTraced(cfg, name, w, Pass(t));
    assert forall e :: Usable(cfg, v.state, e, name) ==> Usable(cfg, w.state, e, name);
    forall id | id in v.state.tasks ensures TaskTruthful(name, v, id, v.state.tasks[id]) {
      assert TaskTruthful(name, w, id, w.state.tasks[id]);
    }
  }

  lemma NextKeepsTruth(cfg: Config, name: Name, w: Traced, a: Action)
    requires Truthful(cfg, name, w) && Distinct(w.state.data) && w.state.size == Total(w.state.data) && Possible(a)
    ensures Truthful(cfg, name, NextTraced(cfg, name, w, a))
  {
    match a
    case Begin(id, req) => BeginKeepsTruth(cfg, name, w, id, req);
    case Step(id) =>
      if id in w.state.tasks {
        if w.state.tasks[id].Keep? { KeepKeepsTruth(cfg, name, w, id); } else { FetchKeepsTruth(cfg, name, w, id); }
      }
    case Change(n, content) => ChangeKeepsTruth(cfg, name, w, n, content);
    case Pass(t) => PassKeepsTruth(cfg, name, w, t);
  }

  // --- Calm changes ---------------------------------------------------------------------------------

  ghost predicate AnyBusy(s: State, name: Name) { exists id :: BusyOn(s, id, name) }

  ghost predicate AnyKept(s: State, name: Name) { exists id :: KeepOn(s, id, name) }

  ghost predicate AnyUsable(cfg: Config, s: State, name: Name) { exists e :: Usable(cfg, s, e, name) }

  /** A cache of less than four bytes whose entries never expire keeps only empty objects, and it
      never drops one. */
  predicate Tiny(cfg: Config) { cfg.ttl <= 0.0 && cfg.maxBytes < 4 }

  /** Every lookup hits and always will, and all tasks but those that store are done. */
  ghost predicate Stuck(cfg: Config, s: State, name: Name) {
    Tiny(cfg) && AnyUsable(cfg, s, name) && forall id :: BusyOn(s, id, name) ==> KeepOn(s, id, name)
  }

  /** No task holds a copy of the object that it will store, and no read of the object is under
      way while a lookup of it would hit; or the cached copy can never be lost. */
  ghost predicate Calm(cfg: Config, s: State, name: Name) {
    (!AnyKept(s, name) && !(AnyBusy(s, name) && AnyUsable(cfg, s, name))) || Stuck(cfg, s, name)
  }

  /** In particular while no read of the object is under way. */
  lemma QuietIsCalm(cfg: Config, s: State, name: Name)
    requires !AnyBusy(s, name)
    ensures Calm(cfg, s, name)
  {
    forall id ensures !KeepOn(s, id, name) {
      assert !BusyOn(s, id, name);
    }
  }

  /** What is under way is up to date, and what was handed out is no newer than a hit would be. */
  ghost predicate InOrder(cfg: Config, name: Name, w: Traced) {
    && w.contents != []
    && (AnyUsable(cfg, w.state, name) ==> w.entry <= w.Current())
    && (AnyBusy(w.state, name) && AnyUsable(cfg, w.state, name) ==> w.entry == w.Current())
    && (forall id :: KeepOn(w.state, id, name) ==> id in w.kept && w.kept[id] == w.Current())
    && (forall id :: DoneOn(w.state, id, name) ==> ResultInOrder(cfg, name, w, id))
  }

  ghost predicate ResultInOrder(cfg: Config, name: Name, w: Traced, id: nat)
    requires w.contents != []
  {
    id in w.done && w.done[id] <= w.Current() && (AnyUsable(cfg, w.state, name) ==> w.done[id] <= w.entry)
  }

  lemma SameOthers(s: State, t: State, id: nat, task: Task, name: Name)
    requires t.tasks == s.tasks[id := task]
    ensures forall i :: i != id ==> (KeepOn(t, i, name) <==> KeepOn(s, i, name))
    ensures forall i :: i != id ==> (DoneOn(t, i, name) <==> DoneOn(s, i, name))
    ensures forall i :: i != id ==> (BusyOn(t, i, name) <==> BusyOn(s, i, name))
    ensures AnyBusy(t, name) ==> AnyBusy(s, name) || BusyOn(t, id, name)
  {
    if AnyBusy(t, name) {
      var i :| BusyOn(t, i, name);
      assert i != id ==> BusyOn(s, i, name);
    }
  }

  lemma FewerUsable(cfg: Config, s: State, t: State, name: Name)
    requires forall e :: Usable(cfg, t, e, name) ==> Usable(cfg, s, e, name)
    ensures AnyUsable(cfg, t, name) ==> AnyUsable(cfg, s, name)
  {
    if e :| Usable(cfg, t, e, name) { assert Usable(cfg, s, e, name); }
  }

  lemma BeginKeepsOrder(cfg: Config, name: Name, w: Traced, id: nat, req: Request)
    requires InOrder(cfg, name, w) && req.Valid()
    ensures InOrder(cfg, name, BeginTraced(cfg, name, w, id, req))
  {
    var v := BeginTraced(cfg, name, w, id, req);
    if id !in w.state.tasks {
      LookupKeepsEntries(w.state.data, req.name, cfg.ttl, w.state.now);
      FewerUsable(cfg, w.state, v.state, name);
      SameOthers(w.state, v.state, id, v.state.tasks[id], name);
      if req.name == name {
        if Hit(w.state.data, name, cfg.ttl, w.state.now).Some? {
          var e := HitIsUsable(cfg, w.state, name);
        } else {
          LookupMisses(w.state.data, name, cfg.ttl, w.state.now);
        }
      }
    }
  }

  lemma KeepKeepsOrder(cfg: Config, name: Name, w: Traced, id: nat)
    requires InOrder(cfg, name, w) && Distinct(w.state.data) && w.state.size == Total(w.state.data)
    requires TasksValid(w.state.tasks) && id in w.state.tasks && w.state.tasks[id].Keep?
    ensures InOrder(cfg, name, StepTraced(cfg, name, w, id))
  {
    var s, task, v := w.state, w.state.tasks[id], StepTraced(cfg, name, w, id);
    StoreSizeFollows(s.data, task.req.name, task.content, s.now, cfg.maxBytes);
    StoredEntries(s.data, task.req.name, task.content, s.now, cfg.maxBytes);
    SameOthers(s, v.state, id, v.state.tasks[id], name);
    if task.req.name == name {
      assert KeepOn(s, id, name);
    } else {
      FewerUsable(cfg, s, v.state, name);
    }
  }

  lemma FetchKeepsOrder(cfg: Config, name: Name, w: Traced, id: nat)
    requires InOrder(cfg, name, w)
    requires TasksValid(w.state.tasks) && id in w.state.tasks && !w.state.tasks[id].Keep?
    ensures InOrder(cfg, name, StepTraced(cfg, name, w, id))
  {
    var v := StepTraced(cfg, name, w, id);
    FetchOutcome(cfg, w.state, id);
    FewerUsable(cfg, w.state, v.state, name);
    SameOthers(w.state, v.state, id, v.state.tasks[id], name);
    assert BusyOn(v.state, id, name) || KeepOn(v.state, id, name) ==> BusyOn(w.state, id, name);
    assert DoneOn(v.state, id, name) ==> DoneOn(w.state, id, name) || BusyOn(w.state, id, name);
  }

  lemma ChangeKeepsOrder(cfg: Config, name: Name, w: Traced, n: Name, content: Option<Bytes>)
    requires InOrder(cfg, name, w) && TasksValid(w.state.tasks)
    requires n == name ==> Calm(cfg, w.state, name) && !Stuck(cfg, w.state, name)
    ensures InOrder(cfg, name, NextTraced(cfg, name, w, Change(n, content)))
  {
    var v := NextTraced(cfg, name, w, Change(n, content));
    SameTasks(w.state, v.state, name);
    FewerUsable(cfg, w.state, v.state, name);
    if n == name {
      assert forall id :: !KeepOn(w.state, id, name);
    }
  }

  lemma SameTasks(s: State, t: State, name: Name)
    requires t.tasks == s.tasks
    ensures forall id :: KeepOn(t, id, name) <==> KeepOn(s, id, name)
    ensures forall id :: DoneOn(t, id, name) <==> DoneOn(s, id, name)
    ensures AnyBusy(t, name) <==> AnyBusy(s, name)
  {
    if AnyBusy(t, name) {
      var i :| BusyOn(t, i, name);
      assert BusyOn(s, i, name);
    }
    if AnyBusy(s, name) {
      var i :| BusyOn(s, i, name);
      assert BusyOn(t, i, name);
    }
  }

  lemma PassKeepsOrder(cfg: Config, name: Name, w: Traced, t: Time)
    requires InOrder(cfg, name, w) && TasksValid(w.state.tasks) && t >= 0.0
    ensures InOrder(cfg, name, NextTraced(cfg, name, w, Pass(t)))
  {
    var v := NextTraced(cfg, name, w, Pass(t));
    SameTasks(w.state, v.state, name);
    FewerUsable(cfg, w.state, v.state, name);
  }

  /** Where the cached copy can never be lost: everything that is stored or handed out from now on
      is of its version. */
  ghost predicate Settled(cfg: Config, name: Name, w: Traced) {
    && w.contents != [] && Tiny(cfg) && AnyUsable(cfg, w.state, name) && w.entry <= w.Current()
    && (forall id :: BusyOn(w.state, id, name) ==> KeepOn(w.state, id, name))
    && (forall id :: KeepOn(w.state, id, name) ==> id in w.kept && w.kept[id] == w.entry)
    && (forall id :: DoneOn(w.state, id, name) ==> id in w.done && w.done[id] <= w.entry)
  }

  lemma StuckIsSettled(cfg: Config, name: Name, w: Traced)
    requires InOrder(cfg, name, w) && Stuck(cfg, w.state, name)
    ensures Settled(cfg, name, w)
  {
    forall id | KeepOn(w.state, id, name) ensures id in w.kept && w.kept[id] == w.entry {
      assert BusyOn(w.state, id, name);
    }
    forall id | DoneOn(w.state, id, name) ensures id in w.done && w.done[id] <= w.entry {
      assert ResultInOrder(cfg, name, w, id);
    }
  }

  lemma {:induction false} AllEmpty(d: seq<Entry>)
    requires forall e :: e in d ==> e.content == []
    ensures Total(d) == 0
  {
    if d != [] { AllEmpty(d[1..]); }
  }

  /** A tiny cache drops nothing when it stores. */
  lemma TinyKeepsEntries(cfg: Config, d: seq<Entry>, name: Name, content: Bytes, now: Time)
    requires Tiny(cfg) && Bounded(d, cfg.maxBytes) && content == []
    ensures Stored(d, name, content, now, cfg.maxBytes) == Without(d, name) + [Entry(name, now, content)]
  {
    AllEmpty(Without(d, name) + [Entry(name, now, content)]);
  }

  lemma LookupKeepsUsable(cfg: Config, s: State, n: Name, name: Name)
    requires Distinct(s.data) && AnyUsable(cfg, s, name) && Tiny(cfg)
    ensures AnyUsable(cfg, s.(data := LookedUp(s.data, n, cfg.ttl, s.now)), name)
  {
    var e :| Usable(cfg, s, e, name);
    if n == name {
      var f := Find(s.data, name).value;
      assert Usable(cfg, s.(data := LookedUp(s.data, n, cfg.ttl, s.now)), f, name);
    } else {
      assert Usable(cfg, s.(data := LookedUp(s.data, n, cfg.ttl, s.now)), e, name);
    }
  }

  lemma SameUsable(cfg: Config, s: State, t: State, name: Name)
    requires s.data == t.data && s.now == t.now
    ensures AnyUsable(cfg, s, name) <==> AnyUsable(cfg, t, name)
  {
    assert forall e :: Usable(cfg, s, e, name) <==> Usable(cfg, t, e, name);
    FewerUsable(cfg, s, t, name);
    FewerUsable(cfg, t, s, name);
  }

  lemma BeginStaysSettled(cfg: Config, name: Name, w: Traced, id: nat, req: Request)
    requires Settled(cfg, name, w) && Distinct(w.state.data) && req.Valid()
    ensures Settled(cfg, name, BeginTraced(cfg, name, w, id, req))
  {
    var v := BeginTraced(cfg, name, w, id, req);
    if id !in w.state.tasks {
      assert AnyUsable(cfg, v.state, name) by {
        LookupKeepsUsable(cfg, w.state, req.name, name);
        SameUsable(cfg, v.state, w.state.(data := LookedUp(w.state.data, req.name, cfg.ttl, w.state.now)), name);
      }
      SameOthers(w.state, v.state, id, v.state.tasks[id], name);
      TinyHits(cfg, w.state, name);
    }
  }

  lemma TinyHits(cfg: Config, s: State, name: Name)
    requires Tiny(cfg) && AnyUsable(cfg, s, name)
    ensures Hit(s.data, name, cfg.ttl, s.now).Some?
  {
    var e :| Usable(cfg, s, e, name);
  }

  lemma KeepStaysSettled(cfg: Config, name: Name, w: Traced, id: nat)
    requires Settled(cfg, name, w) && Safe(cfg, w.state) && id in w.state.tasks && w.state.tasks[id].Keep?
    ensures Settled(cfg, name, StepTraced(cfg, name, w, id))
  {
    var s, task, v := w.state, w.state.tasks[id], StepTraced(cfg, name, w, id);
    assert TaskGenuine(cfg, s.history, task);
    StoreSizeFollows(s.data, task.req.name, task.content, s.now, cfg.maxBytes);
    TinyKeepsEntries(cfg, s.data, task.req.name, task.content, s.now);
    SameOthers(s, v.state, id, v.state.tasks[id], name);
    var newest := Entry(task.req.name, s.now, task.content);
    assert newest in v.state.data;
    assert AnyUsable(cfg, v.state, name) by {
      if task.req.name == name {
        assert Usable(cfg, v.state, newest, name);
      } else {
        var e :| Usable(cfg, s, e, name);
        assert Usable(cfg, v.state, e, name);
      }
    }
    assert task.req.name == name ==> KeepOn(s, id, name);
  }

  lemma FetchStaysSettled(cfg: Config, name: Name, w: Traced, id: nat)
    requires Settled(cfg, name, w) && TasksValid(w.state.tasks) && id in w.state.tasks && !w.state.tasks[id].Keep?
    ensures Settled(cfg, name, StepTraced(cfg, name, w, id))
  {
    var v := StepTraced(cfg, name, w, id);
    FetchOutcome(cfg, w.state, id);
    SameUsable(cfg, w.state, v.state, name);
    SameOthers(w.state, v.state, id, v.state.tasks[id], name);
    assert !BusyOn(w.state, id, name);
  }

  lemma OtherStaysSettled(cfg: Config, name: Name, w: Traced, a: Action)
    requires Settled(cfg, name, w) && TasksValid(w.state.tasks) && Possible(a) && (a.Change? || a.Pass?)
    ensures Settled(cfg, name, NextTraced(cfg, name, w, a))
  {
    var v := NextTraced(cfg, name, w, a);
    SameTasks(w.state, v.state, name);
    forall id ensures BusyOn(v.state, id, name) <==> BusyOn(w.state, id, name) {}
    var e :| Usable(cfg, w.state, e, name);
    assert Usable(cfg, v.state, e, name);
  }

  lemma NextStaysSettled(cfg: Config, name: Name, w: Traced, a: Action)
    requires Settled(cfg, name, w) && Safe(cfg, w.state) && Possible(a)
    ensures Settled(cfg, name, NextTraced(cfg, name, w, a))
  {
    match a
    case Begin(id, req) => BeginStaysSettled(cfg, name, w, id, req);
    case Step(id) =>
      if id in w.state.tasks {
        if w.state.tasks[id].Keep? { KeepStaysSettled(cfg, name, w, id); } else { FetchStaysSettled(cfg, name, w, id); }
      }
    case Change(_, _) => OtherStaysSettled(cfg, name, w, a);
    case Pass(_) => OtherStaysSettled(cfg, name, w, a);
  }

  ghost predicate Orderly(cfg: Config, name: Name, w: Traced) { InOrder(cfg, name, w) || Settled(cfg, name, w) }

  lemma NextInOrder(cfg: Config, name: Name, w: Traced, a: Action)
    requires InOrder(cfg, name, w) && Possible(a) && TasksValid(w.state.tasks)
    requires Distinct(w.state.data) && w.state.size == Total(w.state.data)
    requires a.Change? && a.name == name ==> Calm(cfg, w.state, name) && !Stuck(cfg, w.state, name)
    ensures InOrder(cfg, name, NextTraced(cfg, name, w, a))
  {
    match a
    case Begin(id, req) => BeginKeepsOrder(cfg, name, w, id, req);
    case Step(id) =>
      if id in w.state.tasks {
        if w.state.tasks[id].Keep? { KeepKeepsOrder(cfg, name, w, id); } else { FetchKeepsOrder(cfg, name, w, id); }
      }
    case Change(n, content) => ChangeKeepsOrder(cfg, name, w, n, content);
    case Pass(t) => PassKeepsOrder(cfg, name, w, t);
  }

  lemma NextKeepsOrder(cfg: Config, name: Name, w: Traced, a: Action)
    requires Orderly(cfg, name, w) && Possible(a) && Safe(cfg, w.state)
    requires a.Change? && a.name == name ==> Calm(cfg, w.state, name)
    ensures Orderly(cfg, name, NextTraced(cfg, name, w, a))
  {
    if Settled(cfg, name, w) {
      NextStaysSettled(cfg, name, w, a);
    } else if a.Change? && a.name == name && Stuck(cfg, w.state, name) {
      StuckIsSettled(cfg, name, w);
    } else {
      NextInOrder(cfg, name, w, a);
    }
  }

  // --- Whole runs -------------------------------------------------------------------------------------

  predicate AllPossible(actions: seq<Action>) { forall i :: 0 <= i < |actions| ==> Possible(actions[i]) }

  ghost predicate Runnable(w: Traced) { TasksValid(w.state.tasks) && w.contents != [] }

  /** The run of CacheRuns with its versions. */
  ghost function Trace(cfg: Config, name: Name, w: Traced, actions: seq<Action>): (r: Traced)
    requires Runnable(w) && AllPossible(actions)
    ensures Runnable(r)
  {
    if actions == [] then w
    else
      var n := |actions| - 1;
      NextTraced(cfg, name, Trace(cfg, name, w, actions[..n]), actions[n])
  }

  lemma {:induction false} TraceIsRun(cfg: Config, name: Name, w: Traced, actions: seq<Action>)
    requires Safe(cfg, w.state) && Runnable(w) && AllPossible(actions)
    ensures Trace(cfg, name, w, actions).state == Run(cfg, w.state, actions)
    ensures Safe(cfg, Trace(cfg, name, w, actions).state)
  {
    if actions != [] { TraceIsRun(cfg, name, w, actions[..|actions| - 1]); }
  }

  ghost function Start(name: Name, now: Time, store: Store): Traced {
    Traced(Initial(now, store), [Whole(store, name)], 0, map[], map[])
  }

  /** All contents of the object: the first one, and what each change made of it. */
  function ContentsOf(store: Store, actions: seq<Action>, name: Name): seq<Option<Bytes>> {
    if actions == [] then [Whole(store, name)]
    else
      var n := |actions| - 1;
      var before := ContentsOf(store, actions[..n], name);
      if actions[n].Change? && actions[n].name == name then before + [actions[n].content] else before
  }

  lemma NextContents(cfg: Config, name: Name, w: Traced, a: Action)
    requires Possible(a) && TasksValid(w.state.tasks) && w.contents != []
    ensures NextTraced(cfg, name, w, a).contents ==
            if a.Change? && a.name == name then w.contents + [a.content] else w.contents
  {}

  lemma {:induction false} TraceHasContents(cfg: Config, name: Name, now: Time, store: Store, actions: seq<Action>)
    requires Safe(cfg, Initial(now, store)) && AllPossible(actions)
    ensures Trace(cfg, name, Start(name, now, store), actions).contents == ContentsOf(store, actions, name)
  {
    if actions != [] {
      var n := |actions| - 1;
      var w := Trace(cfg, name, Start(name, now, store), actions[..n]);
      TraceHasContents(cfg, name, now, store, actions[..n]);
      NextContents(cfg, name, w, actions[n]);
    }
  }

  /** Whatever the schedule, versions tell the truth. */
  lemma {:induction false} TraceIsTruthful(cfg: Config, name: Name, w: Traced, actions: seq<Action>)
    requires Safe(cfg, w.state) && Truthful(cfg, name, w) && AllPossible(actions)
    ensures Truthful(cfg, name, Trace(cfg, name, w, actions))
  {
    if actions != [] {
      var n := |actions| - 1;
      TraceIsTruthful(cfg, name, w, actions[..n]);
      TraceIsRun(cfg, name, w, actions[..n]);
      NextKeepsTruth(cfg, name, Trace(cfg, name, w, actions[..n]), actions[n]);
    }
  }

  /** The object changes only in calm states. */
  ghost predicate CalmRun(cfg: Config, name: Name, s: State, actions: seq<Action>)
    requires Safe(cfg, s) && AllPossible(actions)
  {
    forall k :: 0 <= k < |actions| && actions[k].Change? && actions[k].name == name ==>
      Calm(cfg, Run(cfg, s, actions[..k]), name)
  }

  lemma CalmBefore(cfg: Config, name: Name, s: State, actions: seq<Action>, n: nat)
    requires Safe(cfg, s) && AllPossible(actions) && CalmRun(cfg, name, s, actions) && n <= |actions|
    ensures CalmRun(cfg, name, s, actions[..n])
  {
    assert forall k :: 0 <= k < n ==> actions[..n][..k] == actions[..k];
  }

  lemma {:induction false} TraceIsInOrder(cfg: Config, name: Name, w: Traced, actions: seq<Action>)
    requires Safe(cfg, w.state) && Orderly(cfg, name, w) && AllPossible(actions)
    requires CalmRun(cfg, name, w.state, actions)
    ensures Orderly(cfg, name, Trace(cfg, name, w, actions))
  {
    if actions != [] {
      var n := |actions| - 1;
      CalmBefore(cfg, name, w.state, actions, n);
      TraceIsInOrder(cfg, name, w, actions[..n]);
      TraceIsRun(cfg, name, w, actions[..n]);
      NextKeepsOrder(cfg, name, Trace(cfg, name, w, actions[..n]), actions[n]);
    }
  }

  lemma ResultIsNoNewer(cfg: Config, name: Name, w: Traced, id: nat)
    requires Orderly(cfg, name, w) && DoneOn(w.state, id, name)
    ensures id in w.done && w.done[id] <= w.Current() && (AnyUsable(cfg, w.state, name) ==> w.done[id] <= w.entry)
  {
    if InOrder(cfg, name, w) { assert ResultInOrder(cfg, name, w, id); }
  }

  lemma StoredIsNewest(cfg: Config, name: Name, w: Traced, first: nat, id: nat)
    requires Orderly(cfg, name, w) && DoneOn(w.state, first, name) && KeepOn(w.state, id, name)
    ensures first in w.done && id in w.kept && w.done[first] <= w.kept[id]
  {
    ResultIsNoNewer(cfg, name, w, first);
  }

  /** In one step results stay as they are, and a new one is no older than any before. */
  lemma NewResult(cfg: Config, name: Name, w: Traced, a: Action, first: nat, id: nat)
    requires Orderly(cfg, name, w) && Possible(a) && TasksValid(w.state.tasks)
    requires DoneOn(w.state, first, name)
    ensures var v := NextTraced(cfg, name, w, a);
            && (DoneOn(w.state, id, name) ==> DoneOn(v.state, id, name) && id in v.done && v.done[id] == w.done[id])
            && (DoneOn(v.state, id, name) && !DoneOn(w.state, id, name) ==> id in v.done && w.done[first] <= v.done[id])
  {
    ResultIsNoNewer(cfg, name, w, first);
    if DoneOn(w.state, id, name) { ResultIsNoNewer(cfg, name, w, id); }
    if KeepOn(w.state, id, name) { StoredIsNewest(cfg, name, w, first, id); }
    if a.Begin? && Hit(w.state.data, name, cfg.ttl, w.state.now).Some? {
      var e := HitIsUsable(cfg, w.state, name);
    }
  }

  /** After a result every task that begins later has a result that is no older. */
  lemma {:induction false} LaterIsNewer(cfg: Config, name: Name, w: Traced, actions: seq<Action>, first: nat, id: nat)
    requires Safe(cfg, w.state) && Orderly(cfg, name, w) && AllPossible(actions)
    requires CalmRun(cfg, name, w.state, actions) && DoneOn(w.state, first, name) && id !in w.state.tasks
    ensures var v := Trace(cfg, name, w, actions);
            && DoneOn(v.state, first, name) && first in w.done && first in v.done && v.done[first] == w.done[first]
            && (DoneOn(v.state, id, name) ==> id in v.done && w.done[first] <= v.done[id])
  {
    ResultIsNoNewer(cfg, name, w, first);
    if actions != [] {
      var n := |actions| - 1;
      var v := Trace(cfg, name, w, actions[..n]);
      CalmBefore(cfg, name, w.state, actions, n);
      LaterIsNewer(cfg, name, w, actions[..n], first, id);
      TraceIsInOrder(cfg, name, w, actions[..n]);
      NewResult(cfg, name, v, actions[n], first, first);
      NewResult(cfg, name, v, actions[n], first, id);
    }
  }

  lemma RunStep(cfg: Config, s: State, actions: seq<Action>, a: Action)
    requires Safe(cfg, s) && AllPossible(actions) && Possible(a)
    ensures AllPossible(actions + [a]) && Run(cfg, s, actions + [a]) == Next(cfg, Run(cfg, s, actions), a)
  {
    assert (actions + [a])[..|actions|] == actions;
  }

  lemma TraceStep(cfg: Config, name: Name, w: Traced, actions: seq<Action>, a: Action)
    requires Runnable(w) && AllPossible(actions) && Possible(a)
    ensures AllPossible(actions + [a])
    ensures Trace(cfg, name, w, actions + [a]) == NextTraced(cfg, name, Trace(cfg, name, w, actions), a)
  {
    assert (actions + [a])[..|actions|] == actions;
  }

  lemma {:induction false} RunInTwo(cfg: Config, s: State, a: seq<Action>, b: seq<Action>)
    requires Safe(cfg, s) && AllPossible(a) && AllPossible(b)
    ensures AllPossible(a + b) && Run(cfg, s, a + b) == Run(cfg, Run(cfg, s, a), b)
    decreases |b|
  {
    if b == [] {
      assert a + b == a;
    } else {
      var n := |b| - 1;
      assert a + b == (a + b[..n]) + [b[n]] && b == b[..n] + [b[n]];
      RunInTwo(cfg, s, a, b[..n]);
      RunStep(cfg, s, a + b[..n], b[n]);
      RunStep(cfg, Run(cfg, s, a), b[..n], b[n]);
    }
  }

  lemma {:induction false} TraceInTwo(cfg: Config, name: Name, w: Traced, a: seq<Action>, b: seq<Action>)
    requires Runnable(w) && AllPossible(a) && AllPossible(b)
    ensures AllPossible(a + b) && Trace(cfg, name, w, a + b) == Trace(cfg, name, Trace(cfg, name, w, a), b)
    decreases |b|
  {
    if b == [] {
      assert a + b == a;
    } else {
      var n := |b| - 1;
      assert a + b == (a + b[..n]) + [b[n]] && b == b[..n] + [b[n]];
      TraceInTwo(cfg, name, w, a, b[..n]);
      TraceStep(cfg, name, w, a + b[..n], b[n]);
      TraceStep(cfg, name, Trace(cfg, name, w, a), b[..n], b[n]);
    }
  }

  lemma CalmAfter(cfg: Config, name: Name, s: State, a: seq<Action>, b: seq<Action>)
    requires Safe(cfg, s) && AllPossible(a) && AllPossible(b) && AllPossible(a + b)
    requires CalmRun(cfg, name, s, a + b)
    ensures CalmRun(cfg, name, Run(cfg, s, a), b)
  {
    forall k | 0 <= k < |b| && b[k].Change? && b[k].name == name
      ensures Calm(cfg, Run(cfg, Run(cfg, s, a), b[..k]), name)
    {
      assert (a + b)[|a| + k] == b[k] && (a + b)[..|a| + k] == a + b[..k];
      RunInTwo(cfg, s, a, b[..k]);
    }
  }

  lemma StartIsInOrder(cfg: Config, name: Name, now: Time, store: Store)
    ensures Safe(cfg, Initial(now, store))
    ensures Truthful(cfg, name, Start(name, now, store)) && InOrder(cfg, name, Start(name, now, store))
  {
    assert Total([]) == 0;
  }

  /** The version of a result that has been handed out, if it has. */
  ghost function VersionOf(cfg: Config, name: Name, now: Time, store: Store, actions: seq<Action>, id: nat): nat
    requires AllPossible(actions)
  {
    var w := Trace(cfg, name, Start(name, now, store), actions);
    if id in w.done then w.done[id] else 0
  }

  /** Versions are those of the contents the object has had, and under every schedule each result
      is what its version says. */
  lemma ResultsHaveVersions(cfg: Config, name: Name, now: Time, store: Store, actions: seq<Action>, id: nat)
    requires Safe(cfg, Initial(now, store)) && AllPossible(actions)
    requires DoneOn(Run(cfg, Initial(now, store), actions), id, name)
    ensures var task := Run(cfg, Initial(now, store), actions).tasks[id];
            var version := VersionOf(cfg, name, now, store, actions, id);
            var contents := ContentsOf(store, actions, name);
            task.req.Valid() && version < |contents| && task.result == Cut(task.req, contents[version])
  {
    var start := Start(name, now, store);
    StartIsInOrder(cfg, name, now, store);
    TraceIsRun(cfg, name, start, actions);
    TraceHasContents(cfg, name, now, store, actions);
    TraceIsTruthful(cfg, name, start, actions);
    assert TaskTruthful(name, Trace(cfg, name, start, actions), id, Trace(cfg, name, start, actions).state.tasks[id]);
  }

  /** If the object changes only while no task holds a copy it will store, and no read of it is
      under way beside a usable cached copy, then its results never go back: whatever began after
      a result was handed out gets a version that is no older. */
  lemma ReadsNeverGoBack(cfg: Config, name: Name, now: Time, store: Store, before: seq<Action>, after: seq<Action>,
                         first: nat, second: nat)
    requires Safe(cfg, Initial(now, store)) && AllPossible(before) && AllPossible(after) && AllPossible(before + after)
    requires CalmRun(cfg, name, Initial(now, store), before + after)
    requires DoneOn(Run(cfg, Initial(now, store), before), first, name)
    requires second !in Run(cfg, Initial(now, store), before).tasks
    requires DoneOn(Run(cfg, Initial(now, store), before + after), second, name)
    ensures VersionOf(cfg, name, now, store, before + after, first) <=
            VersionOf(cfg, name, now, store, before + after, second)
  {
    var start := Start(name, now, store);
    StartIsInOrder(cfg, name, now, store);
    CalmBefore(cfg, name, start.state, before + after, |before|);
    assert (before + after)[..|before|] == before;
    CalmAfter(cfg, name, start.state, before, after);
    TraceIsRun(cfg, name, start, before);
    TraceIsRun(cfg, name, start, before + after);
    TraceIsInOrder(cfg, name, start, before);
    TraceInTwo(cfg, name, start, before, after);
    LaterIsNewer(cfg, name, Trace(cfg, name, start, before), after, first, second);
  }
}
