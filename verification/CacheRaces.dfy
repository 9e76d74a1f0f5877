/** Changes that are not calm can make reads through the cache go back. */
module CacheRaces {
  import opened Wrappers
  import opened CacheModel
  import opened CacheRuns
  import opened CacheVersions

  /** The second task began when the first was done, and its result is of an older version. */
  ghost predicate GoesBack(w: Traced, v: Traced, name: Name, first: nat, second: nat) {
    && DoneOn(w.state, first, name) && second !in w.state.tasks && DoneOn(v.state, second, name)
    && first in w.done && second in v.done && v.done[second] < w.done[first]
  }

  /** A run in which reads of the object go back. */
  ghost predicate Races(cfg: Config, name: Name, w: Traced, early: seq<Action>, late: seq<Action>, first: nat,
                        second: nat)
    requires Runnable(w)
  {
    AllPossible(early) && AllPossible(late) &&
    GoesBack(Trace(cfg, name, w, early), Trace(cfg, name, Trace(cfg, name, w, early), late), name, first, second)
  }

  /** There is such a run. */
  ghost predicate CanGoBack(cfg: Config, name: Name, w: Traced)
    requires Runnable(w)
  {
    exists early, late, first, second :: Races(cfg, name, w, early, late, first, second)
  }

  lemma CanGoBackLater(cfg: Config, name: Name, w: Traced, clear: seq<Action>, v: Traced)
    requires Runnable(w) && AllPossible(clear) && v == Trace(cfg, name, w, clear) && CanGoBack(cfg, name, v)
    ensures CanGoBack(cfg, name, w)
  {
    var early, late, first, second :| Races(cfg, name, v, early, late, first, second);
    TraceInTwo(cfg, name, w, clear, early);
    assert Races(cfg, name, w, clear + early, late, first, second);
  }

  predicate LargeNow(cfg: Config, s: State, name: Name) {
    name in s.store && |s.store[name]| > cfg.maxBytes / 4
  }

  function Full(name: Name): Request { Request(name, None) }

  lemma OneStep(cfg: Config, name: Name, w: Traced, a: Action)
    requires Runnable(w) && Possible(a)
    ensures AllPossible([a]) && Trace(cfg, name, w, [a]) == NextTraced(cfg, name, w, a)
    ensures Runnable(NextTraced(cfg, name, w, a))
  {
    assert [a][..0] == [];
  }

  lemma TwoSteps(cfg: Config, name: Name, w: Traced, a: Action, b: Action)
    requires Runnable(w) && Possible(a) && Possible(b)
    ensures AllPossible([a, b]) && Runnable(NextTraced(cfg, name, w, a))
    ensures Trace(cfg, name, w, [a, b]) == NextTraced(cfg, name, NextTraced(cfg, name, w, a), b)
  {
    OneStep(cfg, name, w, a);
    OneStep(cfg, name, NextTraced(cfg, name, w, a), b);
    TraceInTwo(cfg, name, w, [a], [b]);
    assert [a] + [b] == [a, b];
  }

  /** What lookups and stores need of a state, and keep. */
  ghost predicate Sound(cfg: Config, s: State) {
    TasksValid(s.tasks) && s.size == Total(s.data) && Bounded(s.data, cfg.maxBytes)
  }

  ghost predicate Ready(cfg: Config, w: Traced) { Sound(cfg, w.state) && w.contents != [] }

  // --- A read that goes to the backend ----------------------------------------------------------

  function StepsLeft(task: Task): nat {
    match task
    case AskHead(_) => 4 case FetchHead(_) => 3 case KeepHead(_, _) => 2 case FetchRange(_) => 1
    case FetchWhole(_) => 1 case Keep(_, _) => 0 case Done(_, _) => 0
  }

  /** Nothing but the task has moved. */
  ghost predicate OnlyTask(w: Traced, v: Traced, id: nat) {
    && v.state.data == w.state.data && v.state.now == w.state.now && v.state.store == w.state.store
    && v.contents == w.contents && v.entry == w.entry && v.kept == w.kept
    && v.state.tasks.Keys == w.state.tasks.Keys
  }

  lemma FetchMoves(cfg: Config, name: Name, w: Traced, id: nat)
    requires TasksValid(w.state.tasks) && w.contents != [] && LargeNow(cfg, w.state, name)
    requires BusyOn(w.state, id, name) && !KeepOn(w.state, id, name)
    ensures var v := StepTraced(cfg, name, w, id);
            && OnlyTask(w, v, id)
            && ((DoneOn(v.state, id, name) && id in v.done && v.done[id] == w.Current()) ||
                (BusyOn(v.state, id, name) && !KeepOn(v.state, id, name) &&
                 StepsLeft(v.state.tasks[id]) < StepsLeft(w.state.tasks[id])))
  {}

  function Steps(id: nat, n: nat): (r: seq<Action>)
    ensures AllPossible(r)
  {
    seq(n, _ => Step(id))
  }

  /** A read under way that will not be stored ends with the current version. */
  lemma {:induction false} FetchEnds(cfg: Config, name: Name, w: Traced, id: nat) returns (n: nat)
    requires Runnable(w) && LargeNow(cfg, w.state, name)
    requires BusyOn(w.state, id, name) && !KeepOn(w.state, id, name)
    ensures var v := Trace(cfg, name, w, Steps(id, n));
            OnlyTask(w, v, id) && DoneOn(v.state, id, name) && id in v.done && v.done[id] == w.Current()
    decreases StepsLeft(w.state.tasks[id])
  {
    FetchMoves(cfg, name, w, id);
    OneStep(cfg, name, w, Step(id));
    var v := NextTraced(cfg, name, w, Step(id));
    assert [Step(id)] == Steps(id, 1);
    if DoneOn(v.state, id, name) {
      n := 1;
    } else {
      var m := FetchEnds(cfg, name, v, id);
      n := m + 1;
      assert Steps(id, n) == Steps(id, 1) + Steps(id, m);
      TraceInTwo(cfg, name, w, Steps(id, 1), Steps(id, m));
    }
  }

  lemma UsableIsHit(cfg: Config, s: State, e: Entry, name: Name)
    requires Distinct(s.data) && Usable(cfg, s, e, name)
    ensures Hit(s.data, name, cfg.ttl, s.now) == Some(e.content)
  {
    var f := Find(s.data, name).value;
    var i :| 0 <= i < |s.data| && s.data[i] == e;
    var j :| 0 <= j < |s.data| && s.data[j] == f;
    assert i == j;
  }

  /** A full read beside a usable copy is answered at once, with the version of the copy. */
  lemma HitAnswers(cfg: Config, name: Name, w: Traced, id: nat)
    requires Distinct(w.state.data) && AnyUsable(cfg, w.state, name) && id !in w.state.tasks
    ensures var v := BeginTraced(cfg, name, w, id, Full(name));
            DoneOn(v.state, id, name) && id in v.done && v.done[id] == w.entry
  {
    var e :| Usable(cfg, w.state, e, name);
    UsableIsHit(cfg, w.state, e, name);
  }

  /** A read under way beside a usable copy: it ends with the new content, and the next read hits
      the old one. */
  lemma CachedCopyGoesBack(cfg: Config, name: Name, w: Traced, first: nat, second: nat)
    requires Safe(cfg, w.state) && w.contents != [] && LargeNow(cfg, w.state, name)
    requires BusyOn(w.state, first, name) && !KeepOn(w.state, first, name)
    requires AnyUsable(cfg, w.state, name) && w.entry < w.Current() && second !in w.state.tasks
    ensures CanGoBack(cfg, name, w)
  {
    var n := FetchEnds(cfg, name, w, first);
    var v := Trace(cfg, name, w, Steps(first, n));
    var e :| Usable(cfg, w.state, e, name);
    assert Usable(cfg, v.state, e, name);
    HitAnswers(cfg, name, v, second);
    OneStep(cfg, name, v, Begin(second, Full(name)));
    assert Races(cfg, name, w, Steps(first, n), [Begin(second, Full(name))], first, second);
  }

  // --- A copy that is stored late ---------------------------------------------------------------

  lemma NothingIsHit(cfg: Config, s: State, name: Name)
    requires !AnyUsable(cfg, s, name)
    ensures Hit(s.data, name, cfg.ttl, s.now).None?
  {
    if Hit(s.data, name, cfg.ttl, s.now).Some? {
      var e := HitIsUsable(cfg, s, name);
    }
  }

  /** Where nothing usable is cached a full read goes to the backend, and a large content is
      handed out without being stored. */
  lemma MissFetches(cfg: Config, name: Name, w: Traced, id: nat) returns (v: Traced)
    requires Ready(cfg, w) && LargeNow(cfg, w.state, name)
    requires !AnyUsable(cfg, w.state, name) && id !in w.state.tasks
    ensures Possible(Begin(id, Full(name))) && Possible(Step(id)) && AllPossible([Begin(id, Full(name)), Step(id)])
    ensures Ready(cfg, v) && v == Trace(cfg, name, w, [Begin(id, Full(name)), Step(id)])
    ensures DoneOn(v.state, id, name) && id in v.done && v.done[id] == w.Current() && v.kept == w.kept
    ensures v.state.tasks.Keys == w.state.tasks.Keys + {id}
    ensures forall i :: i in w.state.tasks ==> v.state.tasks[i] == w.state.tasks[i]
  {
    NothingIsHit(cfg, w.state, name);
    LookupKeepsBounds(w.state.data, name, cfg.ttl, w.state.now, cfg.maxBytes);
    var b := BeginTraced(cfg, name, w, id, Full(name));
    TwoSteps(cfg, name, w, Begin(id, Full(name)), Step(id));
    FetchMoves(cfg, name, b, id);
    v := StepTraced(cfg, name, b, id);
  }

  /** A task stores the copy it holds, and the next read hits it. */
  lemma StoreAnswers(cfg: Config, name: Name, w: Traced, id: nat, second: nat) returns (v: Traced)
    requires Ready(cfg, w) && KeepOn(w.state, id, name) && id in w.kept
    requires |w.state.tasks[id].content| <= cfg.maxBytes / 4 && second !in w.state.tasks
    ensures AllPossible([Step(id), Begin(second, Full(name))])
    ensures v == Trace(cfg, name, w, [Step(id), Begin(second, Full(name))])
    ensures DoneOn(v.state, second, name) && second in v.done && v.done[second] == w.kept[id]
  {
    var task, m := w.state.tasks[id], StepTraced(cfg, name, w, id);
    StoreSizeFollows(w.state.data, name, task.content, w.state.now, cfg.maxBytes);
    StoreKeepsBounds(w.state.data, name, task.content, w.state.now, cfg.maxBytes);
    var newest := Entry(name, w.state.now, task.content);
    assert m.state.data[|m.state.data| - 1] == newest;
    assert Usable(cfg, m.state, newest, name);
    HitAnswers(cfg, name, m, second);
    TwoSteps(cfg, name, w, Step(id), Begin(second, Full(name)));
    v := BeginTraced(cfg, name, m, second, Full(name));
  }

  /** A copy of an old version waits to be stored, and nothing is cached: a read gets the new
      content, the old copy is stored, and the next read hits it. */
  lemma OldCopyGoesBack(cfg: Config, name: Name, w: Traced, keeper: nat, first: nat, second: nat)
    requires Ready(cfg, w) && LargeNow(cfg, w.state, name)
    requires KeepOn(w.state, keeper, name) && |w.state.tasks[keeper].content| <= cfg.maxBytes / 4
    requires keeper in w.kept && w.kept[keeper] < w.Current() && !AnyUsable(cfg, w.state, name)
    requires first !in w.state.tasks && second !in w.state.tasks && first != second
    ensures CanGoBack(cfg, name, w)
  {
    var v := MissFetches(cfg, name, w, first);
    var u := StoreAnswers(cfg, name, v, keeper, second);
    assert Races(cfg, name, w, [Begin(first, Full(name)), Step(first)], [Step(keeper), Begin(second, Full(name))],
                 first, second);
  }

  // --- Making room ---------------------------------------------------------------------------------

  const ONE: Bytes := [0]

  /** Another object of one byte is put into the backend and read. */
  function Round(n: Name, id: nat): (r: seq<Action>)
    ensures AllPossible(r)
  {
    FetchOther(n, id) + KeepOther(id)
  }

  function FetchOther(n: Name, id: nat): (r: seq<Action>)
    ensures AllPossible(r)
  {
    [Change(n, Some(ONE)), Begin(id, Full(n))]
  }

  function KeepOther(id: nat): (r: seq<Action>)
    ensures AllPossible(r)
  {
    [Step(id), Step(id)]
  }

  /** An action that has nothing to do with the object. */
  predicate Foreign(s: State, a: Action, name: Name) {
    match a
    case Change(n, _) => n != name
    case Begin(id, req) => req.name != name
    case Step(id) => id in s.tasks ==> s.tasks[id].req.name != name
    case Pass(_) => false
  }

  lemma ForeignKeepsVersions(cfg: Config, name: Name, w: Traced, a: Action)
    requires Possible(a) && TasksValid(w.state.tasks) && w.contents != [] && Foreign(w.state, a, name)
    ensures NextTraced(cfg, name, w, a) == w.(state := Next(cfg, w.state, a))
  {}

  lemma OtherFetched(cfg: Config, s: State, n: Name, id: nat)
    requires Sound(cfg, s) && cfg.maxBytes >= 4 && id !in s.tasks && (forall e :: e in s.data ==> e.name != n)
    ensures var t := Next(cfg, Next(cfg, s, Change(n, Some(ONE))), Begin(id, Full(n)));
            && TasksValid(t.tasks) && t.data == s.data && t.size == s.size && t.now == s.now && t.heads == s.heads
            && t.store == s.store[n := ONE] && t.tasks == s.tasks[id := FetchWhole(Full(n))]
  {}

  lemma OtherKept(cfg: Config, s: State, n: Name, id: nat)
    requires cfg.maxBytes >= 4 && Sound(cfg, s)
    requires n in s.store && s.store[n] == ONE && id in s.tasks && s.tasks[id] == FetchWhole(Full(n))
    requires forall e :: e in s.data ==> e.name != n
    ensures var t := Next(cfg, s, Step(id));
            TasksValid(t.tasks) &&
            var u := Next(cfg, t, Step(id));
            && u.data == Evicted(s.data + [Entry(n, s.now, ONE)], cfg.maxBytes)
            && u.now == s.now && u.store == s.store && u.tasks == s.tasks[id := Done(Full(n), Some(ONE))]
            && Sound(cfg, u)
  {
    StoreSizeFollows(s.data, n, ONE, s.now, cfg.maxBytes);
    StoreKeepsBounds(s.data, n, ONE, s.now, cfg.maxBytes);
    WithoutAbsent(s.data, n);
  }

  lemma TwoForeignSteps(cfg: Config, name: Name, w: Traced, a: Action, b: Action)
    requires Runnable(w) && Possible(a) && Possible(b)
    requires Foreign(w.state, a, name) && TasksValid(Next(cfg, w.state, a).tasks)
    requires Foreign(Next(cfg, w.state, a), b, name)
    ensures Trace(cfg, name, w, [a, b]) == w.(state := Next(cfg, Next(cfg, w.state, a), b))
  {
    ForeignKeepsVersions(cfg, name, w, a);
    ForeignKeepsVersions(cfg, name, NextTraced(cfg, name, w, a), b);
    TwoSteps(cfg, name, w, a, b);
  }

  lemma RoundFetches(cfg: Config, name: Name, w: Traced, n: Name, id: nat) returns (v: Traced)
    requires Ready(cfg, w) && cfg.maxBytes >= 4 && id !in w.state.tasks && n != name
    requires forall e :: e in w.state.data ==> e.name != n
    ensures v == Trace(cfg, name, w, FetchOther(n, id)) && Ready(cfg, v)
    ensures v == w.(state := v.state) && v.state.data == w.state.data && v.state.now == w.state.now
    ensures v.state.store == w.state.store[n := ONE] && v.state.tasks == w.state.tasks[id := FetchWhole(Full(n))]
  {
    OtherFetched(cfg, w.state, n, id);
    TwoForeignSteps(cfg, name, w, Change(n, Some(ONE)), Begin(id, Full(n)));
    v := Trace(cfg, name, w, FetchOther(n, id));
  }

  lemma RoundKeeps(cfg: Config, name: Name, w: Traced, n: Name, id: nat) returns (v: Traced)
    requires Ready(cfg, w) && cfg.maxBytes >= 4 && n != name
    requires n in w.state.store && w.state.store[n] == ONE && id in w.state.tasks
    requires w.state.tasks[id] == FetchWhole(Full(n))
    requires forall e :: e in w.state.data ==> e.name != n
    ensures v == Trace(cfg, name, w, KeepOther(id)) && v == w.(state := v.state) && Ready(cfg, v)
    ensures v.state.data == Evicted(w.state.data + [Entry(n, w.state.now, ONE)], cfg.maxBytes)
    ensures v.state.store == w.state.store && v.state.tasks == w.state.tasks[id := Done(Full(n), Some(ONE))]
  {
    OtherKept(cfg, w.state, n, id);
    TwoForeignSteps(cfg, name, w, Step(id), Step(id));
    v := Trace(cfg, name, w, KeepOther(id));
  }

  /** What a round does: the object is the newest in the cache, and nothing else happens to others. */
  lemma RoundStores(cfg: Config, name: Name, w: Traced, n: Name, id: nat) returns (v: Traced)
    requires Ready(cfg, w) && cfg.maxBytes >= 4 && id !in w.state.tasks && n != name
    requires forall e :: e in w.state.data ==> e.name != n
    ensures v == Trace(cfg, name, w, Round(n, id)) && v == w.(state := v.state) && Ready(cfg, v)
    ensures v.state.data == Evicted(w.state.data + [Entry(n, w.state.now, ONE)], cfg.maxBytes)
    ensures v.state.store == w.state.store[n := ONE]
    ensures v.state.tasks == w.state.tasks[id := Done(Full(n), Some(ONE))]
  {
    var m := RoundFetches(cfg, name, w, n, id);
    v := RoundKeeps(cfg, name, m, n, id);
    assert v == Trace(cfg, name, w, Round(n, id)) by { TraceInTwo(cfg, name, w, FetchOther(n, id), KeepOther(id)); }
    SetTwice(w.state.tasks, id, FetchWhole(Full(n)), Done(Full(n), Some(ONE)));
  }

  lemma SetTwice(tasks: map<nat, Task>, id: nat, a: Task, b: Task)
    ensures tasks[id := a][id := b] == tasks[id := b]
  {}

  /** A name longer than any other. */
  function Long(n: nat): Name { (seq(n, _ => 'x'), "") }

  /** All names in the cache are shorter, and all tasks have smaller numbers. */
  ghost predicate Below(s: State, name: Name, n: nat, id: nat) {
    && |name.0| < n && (forall e :: e in s.data ==> |e.name.0| < n) && (forall i :: i in s.tasks ==> i < id)
  }

  function Rounds(n: nat, id: nat, k: nat): (r: seq<Action>)
    ensures AllPossible(r)
  {
    if k == 0 then [] else Rounds(n, id, k - 1) + Round(Long(n + k - 1), id + k - 1)
  }

  /** The last entries are small and other objects', and there are `k` of them unless that is all. */
  ghost predicate Pushed(d: seq<Entry>, name: Name, k: nat, p: nat) {
    && p <= |d| && (p == 0 || |d| - p == k)
    && forall i :: p <= i < |d| ==> d[i].name != name && |d[i].content| == 1
  }

  lemma PushOne(d: seq<Entry>, name: Name, k: nat, p: nat, e: Entry, maxBytes: nat) returns (q: nat)
    requires Pushed(d, name, k, p) && e.name != name && |e.content| == 1
    ensures Pushed(Evicted(d + [e], maxBytes), name, k + 1, q)
  {
    var n := EvictsShortestRun(d + [e], maxBytes);
    q := if n <= p then p - n else 0;
  }

  lemma {:induction false} TotalOfSmall(d: seq<Entry>, p: nat)
    requires p <= |d| && forall i :: p <= i < |d| ==> |d[i].content| == 1
    ensures Total(d) >= |d| - p
    decreases |d|
  {
    if p < |d| {
      if p == 0 { TotalOfSmall(d[1..], 0); } else { TotalOfSmall(d[1..], p - 1); }
    }
  }

  /** Other objects come and go; the object and the tasks there were do not change. */
  ghost predicate Untouched(w: Traced, v: Traced, name: Name) {
    && v == w.(state := v.state)
    && (name in w.state.store ==> name in v.state.store && v.state.store[name] == w.state.store[name])
    && (forall i :: i in w.state.tasks ==> i in v.state.tasks && v.state.tasks[i] == w.state.tasks[i])
  }

  lemma RoundPushes(cfg: Config, name: Name, w: Traced, n: nat, id: nat, k: nat, q: nat) returns (v: Traced, p: nat)
    requires Ready(cfg, w) && cfg.maxBytes >= 4 && Below(w.state, name, n, id)
    requires Pushed(w.state.data, name, k, q)
    ensures v == Trace(cfg, name, w, Round(Long(n), id)) && Ready(cfg, v) && Untouched(w, v, name)
    ensures Below(v.state, name, n + 1, id + 1) && Pushed(v.state.data, name, k + 1, p)
  {
    v := RoundStores(cfg, name, w, Long(n), id);
    p := PushOne(w.state.data, name, k, q, Entry(Long(n), w.state.now, ONE), cfg.maxBytes);
    EvictedIsPart(w.state.data + [Entry(Long(n), w.state.now, ONE)], cfg.maxBytes);
  }

  lemma UntouchedTwice(w: Traced, m: Traced, v: Traced, name: Name)
    requires Untouched(w, m, name) && Untouched(m, v, name)
    ensures Untouched(w, v, name)
  {}

  lemma RoundsGrow(n: nat, id: nat, k: nat, before: seq<Action>, last: seq<Action>)
    requires k > 0 && before == Rounds(n, id, k - 1) && last == Round(Long(n + k - 1), id + k - 1)
    ensures Rounds(n, id, k) == before + last
  {}

  lemma TraceOn(cfg: Config, name: Name, w: Traced, m: Traced, v: Traced, a: seq<Action>, b: seq<Action>,
                all: seq<Action>)
    requires Runnable(w) && AllPossible(a) && AllPossible(b) && all == a + b
    requires m == Trace(cfg, name, w, a) && Runnable(m) && v == Trace(cfg, name, m, b)
    ensures AllPossible(all) && v == Trace(cfg, name, w, all)
  {
    TraceInTwo(cfg, name, w, a, b);
  }

  /** Where `k` rounds lead. */
  ghost predicate AfterRounds(cfg: Config, name: Name, w: Traced, n: nat, id: nat, k: nat, v: Traced, p: nat)
    requires Ready(cfg, w)
  {
    && v == Trace(cfg, name, w, Rounds(n, id, k)) && Ready(cfg, v) && Untouched(w, v, name)
    && Below(v.state, name, n + k, id + k) && Pushed(v.state.data, name, k, p)
  }

  lemma OneMoreRound(cfg: Config, name: Name, w: Traced, n: nat, id: nat, k: nat, m: Traced, q: nat)
    returns (v: Traced, p: nat)
    requires Ready(cfg, w) && cfg.maxBytes >= 4
    requires AfterRounds(cfg, name, w, n, id, k, m, q)
    ensures AfterRounds(cfg, name, w, n, id, k + 1, v, p)
  {
    v, p := RoundPushes(cfg, name, m, n + k, id + k, k, q);
    UntouchedTwice(w, m, v, name);
    RoundsGrow(n, id, k + 1, Rounds(n, id, k), Round(Long(n + k), id + k));
    TraceOn(cfg, name, w, m, v, Rounds(n, id, k), Round(Long(n + k), id + k), Rounds(n, id, k + 1));
  }

  lemma {:induction false} RoundsPush(cfg: Config, name: Name, w: Traced, n: nat, id: nat, k: nat)
    returns (v: Traced, p: nat)
    requires Ready(cfg, w) && cfg.maxBytes >= 4 && Below(w.state, name, n, id)
    ensures AfterRounds(cfg, name, w, n, id, k, v, p)
  {
    if k == 0 {
      v, p := w, |w.state.data|;
    } else {
      var m, q := RoundsPush(cfg, name, w, n, id, k - 1);
      v, p := OneMoreRound(cfg, name, w, n, id, k - 1, m, q);
    }
  }

  /** Reading as many other objects as the cache has bytes evicts the object. */
  lemma PushedOut(d: seq<Entry>, name: Name, p: nat, maxBytes: nat)
    requires Pushed(d, name, maxBytes + 1, p) && Total(d) <= maxBytes
    ensures forall e :: e in d ==> e.name != name
  {
    TotalOfSmall(d, p);
    assert p == 0;
  }

  // --- Changes that are not calm ------------------------------------------------------------------

  function Changed(cfg: Config, name: Name, w: Traced): Traced
    requires TasksValid(w.state.tasks) && w.contents != []
  {
    NextTraced(cfg, name, w, Change(name, Some(New(cfg))))
  }

  lemma ChangedStill(cfg: Config, name: Name, w: Traced)
    requires Safe(cfg, w.state) && w.contents != []
    ensures var v := Changed(cfg, name, w);
            && Safe(cfg, v.state) && LargeNow(cfg, v.state, name) && v.Current() == w.Current() + 1
            && v.entry == w.entry && v.kept == w.kept && v.state.tasks == w.state.tasks
            && (AnyUsable(cfg, v.state, name) <==> AnyUsable(cfg, w.state, name))
  {
    var v := Changed(cfg, name, w);
    NextKeepsSafe(cfg, w.state, Change(name, Some(New(cfg))));
    FewerUsable(cfg, w.state, v.state, name);
    FewerUsable(cfg, v.state, w.state, name);
  }

  lemma FreshIds(tasks: map<nat, Task>) returns (id: nat)
    ensures forall i :: i in tasks ==> i < id
  {
    id := SetBound(tasks.Keys);
  }

  lemma {:induction false} SetBound(s: set<nat>) returns (n: nat)
    ensures forall i :: i in s ==> i < n
  {
    if s == {} {
      n := 0;
    } else {
      var x :| x in s;
      var m := SetBound(s - {x});
      n := if m > x then m else x + 1;
      assert forall i :: i in s ==> i == x || i in s - {x};
    }
  }

  lemma {:induction false} LongNames(d: seq<Entry>, name: Name) returns (n: nat)
    ensures |name.0| < n && forall e :: e in d ==> |e.name.0| < n
  {
    if d == [] {
      n := |name.0| + 1;
    } else {
      var m := LongNames(d[1..], name);
      n := if m > |d[0].name.0| then m else |d[0].name.0| + 1;
      assert forall e :: e in d ==> e == d[0] || e in d[1..];
    }
  }

  /** After enough time nothing that can expire is usable. */
  lemma TimeExpires(cfg: Config, name: Name, w: Traced) returns (v: Traced)
    requires Safe(cfg, w.state) && w.contents != [] && cfg.ttl > 0.0
    ensures AllPossible([Pass(cfg.ttl)]) && v == Trace(cfg, name, w, [Pass(cfg.ttl)])
    ensures v == w.(state := w.state.(now := w.state.now + cfg.ttl)) && Safe(cfg, v.state)
    ensures !AnyUsable(cfg, v.state, name)
  {
    OneStep(cfg, name, w, Pass(cfg.ttl));
    v := NextTraced(cfg, name, w, Pass(cfg.ttl));
  }

  /** The usable copy can be waited out or pushed out, and the object and its tasks stay. */
  lemma CanBeCleared(cfg: Config, name: Name, w: Traced, id: nat) returns (clear: seq<Action>, v: Traced, next: nat)
    requires Safe(cfg, w.state) && w.contents != [] && (cfg.ttl > 0.0 || cfg.maxBytes >= 4)
    requires LargeNow(cfg, w.state, name) && forall i :: i in w.state.tasks ==> i < id
    ensures AllPossible(clear) && v == Trace(cfg, name, w, clear) && Ready(cfg, v) && !AnyUsable(cfg, v.state, name)
    ensures v == w.(state := v.state) && LargeNow(cfg, v.state, name)
    ensures forall i :: i in w.state.tasks ==> i in v.state.tasks && v.state.tasks[i] == w.state.tasks[i]
    ensures forall i :: i in v.state.tasks ==> i < next
  {
    if cfg.ttl > 0.0 {
      v := TimeExpires(cfg, name, w);
      clear, next := [Pass(cfg.ttl)], id;
    } else {
      var n := LongNames(w.state.data, name);
      var p: nat;
      v, p := RoundsPush(cfg, name, w, n, id, cfg.maxBytes + 1);
      PushedOut(v.state.data, name, p, cfg.maxBytes);
      clear, next := Rounds(n, id, cfg.maxBytes + 1), id + (cfg.maxBytes + 1);
    }
  }

  lemma KeptIsSmall(cfg: Config, s: State, name: Name, keeper: nat)
    requires Safe(cfg, s) && KeepOn(s, keeper, name)
    ensures Sound(cfg, s) && |s.tasks[keeper].content| <= cfg.maxBytes / 4
  {
    assert TaskGenuine(cfg, s.history, s.tasks[keeper]);
  }

  lemma KeptBesideGoesBack(cfg: Config, name: Name, w: Traced, keeper: nat, id: nat)
    requires Safe(cfg, w.state) && w.contents != [] && LargeNow(cfg, w.state, name)
    requires KeepOn(w.state, keeper, name) && keeper in w.kept && w.kept[keeper] < w.Current()
    requires (cfg.ttl > 0.0 || cfg.maxBytes >= 4) && forall i :: i in w.state.tasks ==> i < id
    ensures CanGoBack(cfg, name, w)
  {
    KeptIsSmall(cfg, w.state, name, keeper);
    var clear, v, next := CanBeCleared(cfg, name, w, id);
    OldCopyGoesBack(cfg, name, v, keeper, next, next + 1);
    CanGoBackLater(cfg, name, w, clear, v);
  }

  lemma KeptAloneGoesBack(cfg: Config, name: Name, w: Traced, keeper: nat, id: nat)
    requires Safe(cfg, w.state) && w.contents != [] && LargeNow(cfg, w.state, name)
    requires KeepOn(w.state, keeper, name) && keeper in w.kept && w.kept[keeper] < w.Current()
    requires !AnyUsable(cfg, w.state, name) && forall i :: i in w.state.tasks ==> i < id
    ensures CanGoBack(cfg, name, w)
  {
    KeptIsSmall(cfg, w.state, name, keeper);
    OldCopyGoesBack(cfg, name, w, keeper, id, id + 1);
  }

  /** Calm changes are the only safe ones: from any state that is not calm, a change of the object
      can be followed by reads that go back. */
  lemma ChangeCanGoBack(cfg: Config, name: Name, w: Traced)
    requires Safe(cfg, w.state) && Truthful(cfg, name, w) && !Calm(cfg, w.state, name)
    ensures Runnable(Changed(cfg, name, w)) && CanGoBack(cfg, name, Changed(cfg, name, w))
  {
    var c := Changed(cfg, name, w);
    ChangedStill(cfg, name, w);
    var id := FreshIds(w.state.tasks);
    if AnyKept(w.state, name) && !(Tiny(cfg) && AnyUsable(cfg, w.state, name)) {
      var keeper :| KeepOn(w.state, keeper, name);
      assert TaskTruthful(name, w, keeper, w.state.tasks[keeper]);
      if AnyUsable(cfg, w.state, name) {
        KeptBesideGoesBack(cfg, name, c, keeper, id);
      } else {
        KeptAloneGoesBack(cfg, name, c, keeper, id);
      }
    } else {
      var reader := ReaderUnderWay(cfg, w.state, name);
      var e :| Usable(cfg, w.state, e, name);
      assert HoldsVersion(w.contents, w.entry, Some(e.content));
      CachedCopyGoesBack(cfg, name, c, reader, id);
    }
  }

  lemma ReaderUnderWay(cfg: Config, s: State, name: Name) returns (id: nat)
    requires !Calm(cfg, s, name) && (AnyKept(s, name) ==> Tiny(cfg) && AnyUsable(cfg, s, name))
    ensures AnyUsable(cfg, s, name) && BusyOn(s, id, name) && !KeepOn(s, id, name)
  {
    if AnyKept(s, name) {
      id :| BusyOn(s, id, name) && !KeepOn(s, id, name);
    } else {
      id :| BusyOn(s, id, name);
    }
  }
}
