/** The worker pool behind `mapConcurrent` and `all` (`pool`, packages/async/src/concurrency.ts) as a transition
    system. An event is one synchronous piece of the program; a run is any interleaving of them. */
module Pool {
  import opened Options

  /** `limit` is none for the default, no limit. */
  datatype Config = Config(items: nat, limit: Option<nat>)

  datatype Worker = Running(item: nat) | Stopped

  datatype Outcome = Defect(defect: nat) | Cancelled(reason: nat) | Results(results: map<nat, nat>)

  datatype Phase = Entered | Starting | Unstarted | Returned(outcome: Outcome)

  /** The variables of `pool`; `next` is the shared iterator's position, and `started` and `fulfilled` are what
      an observer sees: items in start order, and each item's fulfilment. */
  datatype State = State(
    phase: Phase,
    cancelled: Option<nat>,
    defect: Option<nat>,
    next: nat,
    workers: seq<Worker>,
    results: map<nat, nat>,
    started: seq<nat>,
    fulfilled: seq<(nat, nat)>)

  datatype Event =
    | Abort(reason: nat)
    | WatchFails(defect: nat)
    | Begin(thrown: Option<nat>)
    | StartWorker
    | Fulfil(w: nat, value: nat)
    | Reject(w: nat, defect: nat)
    | Return(cleanup: Option<nat>)

  function Init(): State { State(Entered, None, None, 0, [], map[], [], []) }

  /** `Math.min(concurrency, pending.length)`. */
  function Width(c: Config): nat {
    if c.limit.Some? && c.limit.value < c.items then c.limit.value else c.items
  }

  predicate IsStopped(s: State) { s.cancelled.Some? || s.defect.Some? }

  function Fail(s: State, defect: nat): State { s.(defect := if s.defect.Some? then s.defect else Some(defect)) }

  /** The head of a worker's loop: take the next item, or end. The worker replaces entry `w`, or joins. */
  function Loop(c: Config, s: State, w: nat): State
    requires w <= |s.workers|
  {
    var (worker, s2) :=
      if IsStopped(s) || s.next >= c.items then (Stopped, s)
      else (Running(s.next), s.(next := s.next + 1, started := s.started + [s.next]));
    s2.(workers := s2.workers[..w] + [worker] + if w == |s.workers| then [] else s2.workers[w + 1..])
  }

  predicate AllStopped(workers: seq<Worker>) { forall w :: 0 <= w < |workers| ==> workers[w].Stopped? }

  /** What `defect ?? cancelled ?? results` gives. */
  function Decide(s: State): Outcome {
    if s.defect.Some? then Defect(s.defect.value)
    else if s.cancelled.Some? then Cancelled(s.cancelled.value)
    else Results(s.results)
  }

  predicate Enabled(c: Config, s: State, e: Event) {
    match e
    case Abort(_) => !s.phase.Returned?
    case WatchFails(_) => !s.phase.Returned?
    case Begin(_) => s.phase == Entered
    case StartWorker => s.phase == Starting && |s.workers| < Width(c)
    case Fulfil(w, _) => w < |s.workers| && s.workers[w].Running?
    case Reject(w, _) => w < |s.workers| && s.workers[w].Running?
    case Return(_) =>
      || s.phase == Unstarted
      || (s.phase == Starting && |s.workers| == Width(c) && AllStopped(s.workers))
  }

  function Next(c: Config, s: State, e: Event): State
    requires Enabled(c, s, e)
  {
    match e
    case Abort(reason) => if IsStopped(s) then s else s.(cancelled := Some(reason))
    case WatchFails(defect) => Fail(s, defect)
    case Begin(thrown) =>
      if IsStopped(s) then s.(phase := Unstarted)
      else if thrown.Some? then Fail(s, thrown.value).(phase := Unstarted)
      else s.(phase := Starting)
    case StartWorker => Loop(c, s, |s.workers|)
    case Fulfil(w, value) =>
      var item := s.workers[w].item;
      Loop(c, s.(results := s.results[item := value], fulfilled := s.fulfilled + [(item, value)]), w)
    case Reject(w, defect) => Loop(c, Fail(s, defect), w)
    case Return(cleanup) =>
      var t := s.(defect := if cleanup.Some? then cleanup else s.defect);
      t.(phase := Returned(Decide(t)))
  }

  ghost predicate Reaches(c: Config, events: seq<Event>, s: State)
    decreases |events|
  {
    if events == [] then s == Init()
    else
      var n := |events| - 1;
      exists before: State :: Reaches(c, events[..n], before) && Enabled(c, before, events[n]) && s == Next(c, before, events[n])
  }

  // ---- the invariant ----

  function Upto(n: nat): (xs: seq<nat>)
    ensures |xs| == n && forall i :: 0 <= i < n ==> xs[i] == i
  {
    seq(n, i => i)
  }

  predicate Busy(s: State, item: nat) { exists w :: 0 <= w < |s.workers| && s.workers[w] == Running(item) }

  ghost predicate Inv(c: Config, s: State) {
    && s.next <= c.items && s.started == Upto(s.next)
    && |s.workers| <= Width(c)
    && (s.phase == Entered || s.phase == Unstarted ==> s.workers == [])
    && (s.phase == Unstarted ==> IsStopped(s))
    && (s.phase.Returned? ==> AllStopped(s.workers) && (IsStopped(s) || |s.workers| == Width(c)))
    && (forall w :: 0 <= w < |s.workers| && s.workers[w].Running? ==> s.workers[w].item < s.next)
    && (forall w :: 0 <= w < |s.workers| && s.workers[w].Stopped? ==> IsStopped(s) || s.next == c.items)
  }

  /** Every started item is running, fulfilled or lost to a defect; a result is its item's one fulfilment. */
  ghost predicate Accounted(s: State) {
    && (forall i :: 0 <= i < s.next ==> Busy(s, i) || i in s.results || s.defect.Some?)
    && (forall i :: i in s.results ==> i < s.next && (i, s.results[i]) in s.fulfilled)
    && (forall p :: p in s.fulfilled ==> p.0 in s.results && s.results[p.0] == p.1)
  }

  /** No two workers hold one item, and no worker holds a finished one. */
  ghost predicate Exclusive(s: State) {
    && (forall v, w :: 0 <= v < w < |s.workers| && s.workers[v].Running? ==> s.workers[v] != s.workers[w])
    && (forall w :: 0 <= w < |s.workers| && s.workers[w].Running? ==> s.workers[w].item !in s.results)
  }

  lemma LoopInv(c: Config, s: State, w: nat)
    requires Inv(c, s) && s.phase == Starting && w <= |s.workers| && (w == |s.workers| ==> w < Width(c))
    ensures Inv(c, Loop(c, s, w))
  {
    assert Upto(s.next) + [s.next] == Upto(s.next + 1);
  }

  lemma LoopExclusive(c: Config, s: State, w: nat)
    requires Inv(c, s) && w <= |s.workers| && (forall i :: i in s.results ==> i < s.next)
    requires forall u, v :: 0 <= u < v < |s.workers| && u != w && v != w && s.workers[u].Running? ==> s.workers[u] != s.workers[v]
    requires forall u :: 0 <= u < |s.workers| && u != w && s.workers[u].Running? ==> s.workers[u].item !in s.results
    ensures Exclusive(Loop(c, s, w))
  {
    var t := Loop(c, s, w);
    assert forall u :: 0 <= u < |s.workers| && u != w ==> t.workers[u] == s.workers[u];
  }

  /** The worker that loops held an item that is done with, or none. */
  lemma LoopAccounted(c: Config, s: State, w: nat)
    requires w <= |s.workers|
    requires forall i :: 0 <= i < s.next ==>
               (exists u :: 0 <= u < |s.workers| && u != w && s.workers[u] == Running(i)) || i in s.results || s.defect.Some?
    requires forall i :: i in s.results ==> i < s.next && (i, s.results[i]) in s.fulfilled
    requires forall p :: p in s.fulfilled ==> p.0 in s.results && s.results[p.0] == p.1
    ensures Accounted(Loop(c, s, w))
  {
    var t := Loop(c, s, w);
    assert forall u :: 0 <= u < |s.workers| && u != w ==> t.workers[u] == s.workers[u];
    forall i | 0 <= i < t.next ensures Busy(t, i) || i in t.results || t.defect.Some? {
      if i == s.next { assert t.workers[w] == Running(i); }
    }
  }

  ghost predicate All(c: Config, s: State) { Inv(c, s) && Accounted(s) && Exclusive(s) }

  lemma FulfilStep(c: Config, s: State, w: nat, value: nat)
    requires All(c, s) && Enabled(c, s, Fulfil(w, value))
    ensures All(c, Next(c, s, Fulfil(w, value)))
  {
    var item := s.workers[w].item;
    var t := s.(results := s.results[item := value], fulfilled := s.fulfilled + [(item, value)]);
    forall i | i in t.results ensures i < t.next && (i, t.results[i]) in t.fulfilled {
      assert t.fulfilled[|s.fulfilled|] == (item, value);
      if i != item { assert (i, s.results[i]) in s.fulfilled; }
    }
    forall i | 0 <= i < t.next && i !in t.results && t.defect.None?
      ensures exists u :: 0 <= u < |t.workers| && u != w && t.workers[u] == Running(i)
    {
      assert Busy(s, i);
    }
    LoopInv(c, t, w);
    LoopExclusive(c, t, w);
    LoopAccounted(c, t, w);
  }

  lemma RejectStep(c: Config, s: State, w: nat, defect: nat)
    requires All(c, s) && Enabled(c, s, Reject(w, defect))
    ensures All(c, Next(c, s, Reject(w, defect)))
  {
    var t := Fail(s, defect);
    LoopInv(c, t, w);
    LoopExclusive(c, t, w);
    LoopAccounted(c, t, w);
  }

  lemma StartStep(c: Config, s: State)
    requires All(c, s) && Enabled(c, s, StartWorker)
    ensures All(c, Next(c, s, StartWorker))
  {
    LoopInv(c, s, |s.workers|);
    LoopExclusive(c, s, |s.workers|);
    forall i | 0 <= i < s.next && i !in s.results && s.defect.None?
      ensures exists u :: 0 <= u < |s.workers| && u != |s.workers| && s.workers[u] == Running(i)
    {
      assert Busy(s, i);
    }
    LoopAccounted(c, s, |s.workers|);
  }

  lemma {:induction false} AllStep(c: Config, s: State, e: Event)
    requires All(c, s) && Enabled(c, s, e)
    ensures All(c, Next(c, s, e))
  {
    match e
    case Fulfil(w, value) => FulfilStep(c, s, w, value);
    case Reject(w, defect) => RejectStep(c, s, w, defect);
    case StartWorker => StartStep(c, s);
    case _ => OtherStep(c, s, e);
  }

  lemma OtherStep(c: Config, s: State, e: Event)
    requires All(c, s) && Enabled(c, s, e) && (e.Abort? || e.WatchFails? || e.Begin? || e.Return?)
    ensures All(c, Next(c, s, e))
  {
    var t := Next(c, s, e);
    assert t.workers == s.workers && t.results == s.results && t.fulfilled == s.fulfilled && t.next == s.next;
    forall i | Busy(s, i) ensures Busy(t, i) {}
  }

  lemma {:induction false} RunsKeepAll(c: Config, events: seq<Event>, s: State)
    requires Reaches(c, events, s)
    ensures All(c, s)
    decreases |events|
  {
    if events != [] {
      hide Enabled, Next, All;
      var n := |events| - 1;
      var before: State :| Reaches(c, events[..n], before) && Enabled(c, before, events[n]) && s == Next(c, before, events[n]);
      RunsKeepAll(c, events[..n], before);
      AllStep(c, before, events[n]);
    }
  }

  // ---- what every run shows ----

  function RunningCount(workers: seq<Worker>): (n: nat)
    ensures n <= |workers|
    ensures n == 0 <==> AllStopped(workers)
  {
    if workers == [] then 0
    else
      var n := |workers| - 1;
      assert AllStopped(workers) <==> AllStopped(workers[..n]) && workers[n].Stopped?;
      RunningCount(workers[..n]) + (if workers[n].Running? then 1 else 0)
  }

  /** At most min(concurrency, n) tasks run at once, and items start in input order, each at most once. */
  lemma BoundedAndInOrder(c: Config, events: seq<Event>, s: State)
    requires Reaches(c, events, s)
    ensures RunningCount(s.workers) <= c.items && (c.limit.Some? ==> RunningCount(s.workers) <= c.limit.value)
    ensures |s.started| <= c.items && forall i :: 0 <= i < |s.started| ==> s.started[i] == i
  {
    hide Reaches;
    RunsKeepAll(c, events, s);
  }

  /** Nothing starts after a stop, and a stop is for ever. */
  lemma NothingStartsAfterStop(c: Config, s: State, e: Event)
    requires IsStopped(s) && Enabled(c, s, e)
    ensures Next(c, s, e).started == s.started && IsStopped(Next(c, s, e))
  {}

  /** While nothing stops the pool and items are left, every worker it started is busy, and it starts workers until
      there is one for each item or the limit is reached. */
  lemma KeepsEveryWorkerBusy(c: Config, events: seq<Event>, s: State)
    requires Reaches(c, events, s) && !IsStopped(s) && s.next < c.items
    ensures forall w :: 0 <= w < |s.workers| ==> s.workers[w].Running?
    ensures s.phase == Starting ==>
              (!Enabled(c, s, StartWorker) <==> |s.workers| == c.items || c.limit == Some(|s.workers|))
  {
    hide Reaches;
    RunsKeepAll(c, events, s);
  }

  /** The defect an event reports: of a rejected task, of the signal's watcher, or of the iterator, which only a pool
      that has not stopped reads. */
  function Reported(e: Event, stopped: bool): Option<nat> {
    match e
    case WatchFails(defect) => Some(defect)
    case Reject(_, defect) => Some(defect)
    case Begin(thrown) => if stopped then None else thrown
    case _ => None
  }

  /** The first defect that a run reports. */
  function FirstDefect(events: seq<Event>): Option<nat> {
    if events == [] then None
    else
      var n := |events| - 1;
      var earlier := FirstDefect(events[..n]);
      if earlier.Some? then earlier else Reported(events[n], FirstCancel(events[..n]).Some?)
  }

  /** The first abort of a run, when no defect came before it. */
  function FirstCancel(events: seq<Event>): Option<nat> {
    if events == [] then None
    else
      var n := |events| - 1;
      var earlier := FirstCancel(events[..n]);
      if earlier.Some? then earlier
      else if events[n].Abort? && FirstDefect(events[..n]).None? then Some(events[n].reason)
      else None
  }

  lemma RecordStep(c: Config, s: State, e: Event)
    requires Enabled(c, s, e) && !Next(c, s, e).phase.Returned?
    ensures var t := Next(c, s, e);
            && !s.phase.Returned?
            && t.defect == (if s.defect.Some? then s.defect else Reported(e, s.cancelled.Some?))
            && t.cancelled == (if s.cancelled.None? && s.defect.None? && e.Abort? then Some(e.reason) else s.cancelled)
  {}

  lemma {:induction false} RunsRecordTheFirst(c: Config, events: seq<Event>, s: State)
    requires Reaches(c, events, s) && !s.phase.Returned?
    ensures s.defect == FirstDefect(events) && s.cancelled == FirstCancel(events)
    decreases |events|
  {
    if events != [] {
      hide Enabled, Next, Reported;
      var n := |events| - 1;
      var before: State :| Reaches(c, events[..n], before) && Enabled(c, before, events[n]) && s == Next(c, before, events[n]);
      RecordStep(c, before, events[n]);
      RunsRecordTheFirst(c, events[..n], before);
    }
  }

  /** Nothing is still running at return; the outcome is a defect of the cleanup, else the first defect reported, else
      the first cancellation, else the complete list: one result for each of the n items, at its place, the value its
      own task gave. */
  lemma ReturnIsJoinedAndComplete(c: Config, events: seq<Event>, s: State, cleanup: Option<nat>)
    requires c.limit != Some(0) && Reaches(c, events, s) && Enabled(c, s, Return(cleanup))
    ensures RunningCount(s.workers) == 0
    ensures var outcome := Next(c, s, Return(cleanup)).phase.outcome;
            if cleanup.Some? then outcome == Defect(cleanup.value)
            else if FirstDefect(events).Some? then outcome == Defect(FirstDefect(events).value)
            else if FirstCancel(events).Some? then outcome == Cancelled(FirstCancel(events).value)
            else outcome.Results?
                 && (forall i :: i in outcome.results <==> 0 <= i < c.items)
                 && (forall i :: 0 <= i < c.items ==> (i, outcome.results[i]) in s.fulfilled)
                 && (forall p :: p in s.fulfilled ==> p.0 in outcome.results && outcome.results[p.0] == p.1)
  {
    RunsRecordTheFirst(c, events, s);
    hide Reaches, FirstDefect, FirstCancel;
    RunsKeepAll(c, events, s);
    if !IsStopped(s) && c.items > 0 { assert s.workers[0].Stopped?; }
  }

  function Counted(events: seq<Event>): nat {
    if events == [] then 0 else Counted(events[..|events| - 1]) + (if events[|events| - 1].StartWorker? then 1 else 0)
  }

  /** The pool begins once and returns once, and counts the workers it starts. */
  ghost predicate Told(events: seq<Event>, s: State) {
    && (s.phase == Entered <==> forall e :: e in events ==> !e.Begin?)
    && (s.phase.Returned? <==> exists e :: e in events && e.Return?)
    && |s.workers| == Counted(events)
  }

  lemma ToldStep(c: Config, events: seq<Event>, s: State)
    requires events != [] && Told(events[..|events| - 1], s) && Inv(c, s) && Enabled(c, s, events[|events| - 1])
    ensures Told(events, Next(c, s, events[|events| - 1]))
  {
    var n := |events| - 1;
    assert events == events[..n] + [events[n]];
    PhaseStep(c, s, events[n]);
    hide Enabled, Next, Inv;
    if s.phase == Entered && !events[n].Begin? {
      forall e | e in events ensures !e.Begin? { assert e == events[n] || e in events[..n]; }
    }
  }

  lemma PhaseStep(c: Config, s: State, e: Event)
    requires Inv(c, s) && Enabled(c, s, e)
    ensures Next(c, s, e).phase == Entered <==> s.phase == Entered && !e.Begin?
    ensures Next(c, s, e).phase.Returned? <==> s.phase.Returned? || e.Return?
    ensures |Next(c, s, e).workers| == |s.workers| + (if e.StartWorker? then 1 else 0)
  {}

  lemma {:induction false} RunsAreTold(c: Config, events: seq<Event>, s: State)
    requires Reaches(c, events, s)
    ensures Told(events, s)
    decreases |events|
  {
    if events != [] {
      hide Enabled, Next, Inv, Told;
      var n := |events| - 1;
      var before: State :| Reaches(c, events[..n], before) && Enabled(c, before, events[n]) && s == Next(c, before, events[n]);
      RunsAreTold(c, events[..n], before);
      RunsKeepAll(c, events[..n], before);
      AllKeepsInv(c, before);
      ToldStep(c, events, before);
    }
  }

  lemma AllKeepsInv(c: Config, s: State)
    requires All(c, s)
    ensures Inv(c, s)
  {}

  /** What a pool that has not returned allows, and no more: it begins unless it has, it starts at most one worker for
      each item and no more than the limit, any running task may settle in any way, and an abort may come at any time. */
  lemma AllowedExactly(c: Config, events: seq<Event>, s: State, w: nat, x: nat, thrown: Option<nat>)
    requires Reaches(c, events, s) && forall e :: e in events ==> !e.Return?
    ensures Enabled(c, s, Abort(x)) && Enabled(c, s, WatchFails(x))
    ensures Enabled(c, s, Begin(thrown)) <==> forall e :: e in events ==> !e.Begin?
    ensures Enabled(c, s, StartWorker) ==> Counted(events) < c.items && (c.limit.Some? ==> Counted(events) < c.limit.value)
    ensures |s.workers| == Counted(events)
    ensures Enabled(c, s, Fulfil(w, x)) <==> w < |s.workers| && s.workers[w].Running?
    ensures Enabled(c, s, Reject(w, x)) <==> w < |s.workers| && s.workers[w].Running?
  {
    RunsAreTold(c, events, s);
    hide Reaches, Counted;
  }

  /** The pool never waits for anything but its running tasks. */
  lemma NeverBlocks(c: Config, events: seq<Event>, s: State)
    requires Reaches(c, events, s) && !s.phase.Returned? && AllStopped(s.workers)
    ensures Enabled(c, s, Begin(None)) || Enabled(c, s, StartWorker) || Enabled(c, s, Return(None))
  {
    hide Reaches;
    RunsKeepAll(c, events, s);
  }

  // ---- the object ----

  /** The closure variables of `pool`, updated in place by its workers. */
  class WorkerPool {
    const config: Config
    var phase: Phase
    var cancelled: Option<nat>
    var defect: Option<nat>
    var next: nat
    var workers: seq<Worker>
    var results: map<nat, nat>
    ghost var started: seq<nat>
    ghost var fulfilled: seq<(nat, nat)>

    ghost function Abs(): State
      reads this
    {
      State(phase, cancelled, defect, next, workers, results, started, fulfilled)
    }

    constructor (c: Config)
      ensures config == c && Abs() == Init()
    {
      config, phase, cancelled, defect, next := c, Entered, None, None, 0;
      workers, results, started, fulfilled := [], map[], [], [];
    }

    method FailWith(failure: nat)
      modifies this
      ensures Abs() == Fail(old(Abs()), failure)
    {
      if defect.None? { defect := Some(failure); }
    }

    method AbortNow(reason: nat)
      requires Enabled(config, Abs(), Abort(reason))
      modifies this
      ensures Abs() == Next(config, old(Abs()), Abort(reason))
    {
      if cancelled.Some? || defect.Some? { return; }
      cancelled := Some(reason);
    }

    /** `[...items]` before any task starts; `thrown` is an iterator defect. */
    method BeginNow(thrown: Option<nat>)
      requires Enabled(config, Abs(), Begin(thrown))
      modifies this
      ensures Abs() == Next(config, old(Abs()), Begin(thrown))
    {
      if cancelled.Some? || defect.Some? {
        phase := Unstarted;
      } else if thrown.Some? {
        FailWith(thrown.value);
        phase := Unstarted;
      } else {
        phase := Starting;
      }
    }

    /** One turn of `while (!stopped())`: the item that worker `w` starts, or none when it ends. */
    method Turn(w: nat) returns (item: Option<nat>)
      requires w <= |workers|
      modifies this
      ensures Abs() == Loop(config, old(Abs()), w)
      ensures workers[w] == if item.Some? then Running(item.value) else Stopped
    {
      var worker := Stopped;
      item := None;
      if cancelled.None? && defect.None? && next < config.items {
        item := Some(next);
        worker := Running(next);
        started := started + [next];
        next := next + 1;
      }
      if w == |workers| { workers := workers + [worker]; } else { workers := workers[w := worker]; }
    }

    method StartNow() returns (item: Option<nat>)
      requires Enabled(config, Abs(), StartWorker)
      modifies this
      ensures Abs() == Next(config, old(Abs()), StartWorker)
    {
      item := Turn(|workers|);
    }

    method Fulfilled(w: nat, value: nat) returns (item: Option<nat>)
      requires Enabled(config, Abs(), Fulfil(w, value))
      modifies this
      ensures Abs() == Next(config, old(Abs()), Fulfil(w, value))
    {
      results := results[workers[w].item := value];
      fulfilled := fulfilled + [(workers[w].item, value)];
      item := Turn(w);
    }

    method Rejected(w: nat, failure: nat) returns (item: Option<nat>)
      requires Enabled(config, Abs(), Reject(w, failure))
      modifies this
      ensures Abs() == Next(config, old(Abs()), Reject(w, failure))
    {
      FailWith(failure);
      item := Turn(w);
    }

    method ReturnNow(cleanup: Option<nat>) returns (outcome: Outcome)
      requires Enabled(config, Abs(), Return(cleanup))
      modifies this
      ensures Abs() == Next(config, old(Abs()), Return(cleanup))
      ensures phase == Returned(outcome)
    {
      if cleanup.Some? { defect := cleanup; }
      outcome := if defect.Some? then Defect(defect.value) else if cancelled.Some? then Cancelled(cancelled.value) else Results(results);
      phase := Returned(outcome);
    }
  }
}
