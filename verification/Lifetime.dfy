/** The lifetime supervisor (`lifetimeRuntime`, packages/async/src/scope.ts) as a transition system.
    An event is one synchronous piece of the program: a call by the owner, the settling of a callback, or a
    continuation the supervisor itself scheduled. A run is any interleaving of enabled events. */
module Lifetime {

  /** Failures carry their object identity; `owned` marks a cancellation caused by this lifetime's own stop. */
  datatype Failure =
    | Cancelled(id: nat, owned: bool)
    | SleepCancelled(id: nat, owned: bool)
    | UnexpectedDefect(id: nat)
    | Domain(id: nat)

  /** What `finish` returns. */
  datatype Outcome = Clean | Single(failure: Failure) | Aggregate(primary: seq<Failure>, cleanup: seq<Failure>)

  datatype Quieting = Idle | Scheduled | Waiting(children: nat, acquisitions: nat) | Quiet(outcome: Outcome)

  datatype Closing = Open | Requested | Finalizing(next: nat, running: bool) | Unwatching(left: nat) | Closed(outcome: Outcome)

  /** The variables of `lifetimeRuntime`. A child or an acquisition is true once settled. */
  datatype State = State(
    primary: seq<Failure>,
    cleanup: seq<Failure>,
    finalizers: seq<nat>,
    children: seq<bool>,
    acquisitions: seq<bool>,
    admission: bool,
    aborted: bool,
    quieting: Quieting,
    closing: Closing)

  /** How a resource's prepare callback settles. */
  datatype Prepared = Opened(finalizer: nat) | Refused(failure: Failure) | ThrewOwned | Threw(id: nat)

  /** How a child settles. */
  datatype Ran = Returned | ReturnedFailure(failure: Failure) | RanThrewOwned | RanThrew(id: nat)

  datatype Event =
    | Acquire
    | Defer(finalizer: nat)
    | Fork
    | Fail(failure: Failure)
    | Quiesce
    | Close
    | AcquireSettles(index: nat, prepared: Prepared)
    | ChildSettles(index: nat, ran: Ran)
    | TakeSnapshot
    | JoinAll
    | BeginFinalizers
    | StartFinalizer
    | EndFinalizer(failed: seq<Failure>)
    | BeginUnwatch
    | Unwatch(failed: seq<Failure>)
    | Finish

  // ---- the operations ----

  function Init(): State {
    State([], [], [], [], [], true, false, Idle, Open)
  }

  /** `finish`. */
  function FinishOutcome(primary: seq<Failure>, cleanup: seq<Failure>): Outcome {
    if |primary| == 0 && |cleanup| == 0 then Clean
    else if |primary| == 1 && |cleanup| == 0 then Single(primary[0])
    else if |primary| == 0 && |cleanup| == 1 then Single(cleanup[0])
    else Aggregate(primary, cleanup)
  }

  predicate OwnedCancellation(f: Failure) { (f.Cancelled? || f.SleepCancelled?) && f.owned }

  /** `abort`: the lifetime's own cancellation is ignored, and a failure object is recorded once. */
  function Abort(s: State, f: Failure): State {
    if OwnedCancellation(f) then s
    else s.(primary := if f in s.primary then s.primary else s.primary + [f], aborted := true)
  }

  predicate Accepting(s: State) { s.admission && !s.aborted }

  function AcquireCall(s: State): State {
    if Accepting(s) then s.(acquisitions := s.acquisitions + [false]) else s
  }

  function DeferCall(s: State, finalizer: nat): State {
    if Accepting(s) then s.(finalizers := s.finalizers + [finalizer]) else s
  }

  function ForkCall(s: State): State {
    if Accepting(s) then s.(children := s.children + [false]) else s
  }

  function QuiesceCall(s: State): State {
    if s.quieting != Idle then s else s.(admission := false, quieting := Scheduled, aborted := true)
  }

  function CloseCall(s: State): State {
    if s.closing != Open then s else QuiesceCall(s.(closing := Requested))
  }

  /** The continuation of `prepare`: a resource opened late still registers its finalizer. */
  function SettleAcquire(s: State, index: nat, prepared: Prepared): State
    requires index < |s.acquisitions|
  {
    var t := s.(acquisitions := s.acquisitions[index := true]);
    match prepared
    case Opened(finalizer) => t.(finalizers := t.finalizers + [finalizer])
    case Refused(f) => Abort(t, f)
    case ThrewOwned => t
    case Threw(id) => Abort(t, UnexpectedDefect(id))
  }

  function SettleChild(s: State, index: nat, ran: Ran): State
    requires index < |s.children|
  {
    var t := s.(children := s.children[index := true]);
    match ran
    case Returned => t
    case ReturnedFailure(f) => Abort(t, f)
    case RanThrewOwned => t
    case RanThrew(id) => Abort(t, UnexpectedDefect(id))
  }

  function Reverse(xs: seq<nat>): (r: seq<nat>)
    ensures |r| == |xs|
  {
    seq(|xs|, i requires 0 <= i < |xs| => xs[|xs| - 1 - i])
  }

  predicate AllSettled(flags: seq<bool>, n: nat) { n <= |flags| && forall i :: 0 <= i < n ==> flags[i] }

  /** When an event can happen. `ThrewOwned` is the abort reason itself, so it needs an aborted signal. */
  predicate Enabled(s: State, e: Event) {
    match e
    case Acquire => true
    case Defer(_) => true
    case Fork => true
    case Fail(_) => true
    case Quiesce => true
    case Close => true
    case AcquireSettles(i, p) => i < |s.acquisitions| && !s.acquisitions[i] && (p.ThrewOwned? ==> s.aborted)
    case ChildSettles(i, r) => i < |s.children| && !s.children[i] && (r.RanThrewOwned? ==> s.aborted)
    case TakeSnapshot => s.quieting.Scheduled?
    case JoinAll => s.quieting.Waiting? && AllSettled(s.children, s.quieting.children)
                    && AllSettled(s.acquisitions, s.quieting.acquisitions)
    case BeginFinalizers => s.closing.Requested? && s.quieting.Quiet?
    case StartFinalizer => s.closing.Finalizing? && !s.closing.running && s.closing.next < |s.finalizers|
    case EndFinalizer(failed) => s.closing.Finalizing? && s.closing.running && |failed| <= 1
    case BeginUnwatch => s.closing.Finalizing? && !s.closing.running && s.closing.next >= |s.finalizers|
    case Unwatch(failed) => s.closing.Unwatching? && s.closing.left > 0 && |failed| <= 1
    case Finish => s.closing.Unwatching? && s.closing.left == 0
  }

  function Next(s: State, e: Event): State
    requires Enabled(s, e)
  {
    match e
    case Acquire => AcquireCall(s)
    case Defer(f) => DeferCall(s, f)
    case Fork => ForkCall(s)
    case Fail(f) => Abort(s, f)
    case Quiesce => QuiesceCall(s)
    case Close => CloseCall(s)
    case AcquireSettles(i, p) => SettleAcquire(s, i, p)
    case ChildSettles(i, r) => SettleChild(s, i, r)
    case TakeSnapshot => s.(quieting := Waiting(|s.children|, |s.acquisitions|))
    case JoinAll => s.(quieting := Quiet(FinishOutcome(s.primary, [])))
    case BeginFinalizers => s.(finalizers := Reverse(s.finalizers), closing := Finalizing(0, false))
    case StartFinalizer => s.(closing := s.closing.(running := true))
    case EndFinalizer(failed) =>
      s.(closing := Finalizing(s.closing.next + 1, false), cleanup := s.cleanup + failed)
    case BeginUnwatch => s.(closing := Unwatching(2))
    case Unwatch(failed) => s.(closing := Unwatching(s.closing.left - 1), cleanup := s.cleanup + failed)
    case Finish => s.(closing := Closed(FinishOutcome(s.primary, s.cleanup)))
  }

  // ---- runs and what they show ----

  /** What an observer of a run sees: finalizers in the order accepted and in the order started, and the
      failures reported to the lifetime and by its cleanup, in order. */
  datatype Run = Run(state: State, accepted: seq<nat>, started: seq<nat>, reported: seq<Failure>, cleaned: seq<Failure>)

  function Start(): Run { Run(Init(), [], [], [], []) }

  function Accepts(s: State, e: Event): seq<nat> {
    match e
    case Defer(f) => if Accepting(s) then [f] else []
    case AcquireSettles(_, Opened(f)) => [f]
    case _ => []
  }

  function Starts(s: State, e: Event): seq<nat>
    requires Enabled(s, e)
  {
    if e.StartFinalizer? then [s.finalizers[s.closing.next]] else []
  }

  /** The failure an event reports, unless it is the lifetime's own cancellation. */
  function Reports(e: Event): seq<Failure> {
    var fs :=
      match e
      case Fail(f) => [f]
      case AcquireSettles(_, Refused(f)) => [f]
      case AcquireSettles(_, Threw(id)) => [UnexpectedDefect(id)]
      case ChildSettles(_, ReturnedFailure(f)) => [f]
      case ChildSettles(_, RanThrew(id)) => [UnexpectedDefect(id)]
      case _ => [];
    if fs != [] && OwnedCancellation(fs[0]) then [] else fs
  }

  function Cleans(e: Event): seq<Failure> {
    match e
    case EndFinalizer(failed) => failed
    case Unwatch(failed) => failed
    case _ => []
  }

  function Step(r: Run, e: Event): Run
    requires Enabled(r.state, e)
  {
    Run(Next(r.state, e), r.accepted + Accepts(r.state, e), r.started + Starts(r.state, e),
        r.reported + Reports(e), r.cleaned + Cleans(e))
  }

  /** The run of a list of events, when each is enabled in its turn. */
  ghost predicate Reaches(events: seq<Event>, r: Run)
    decreases |events|
  {
    if events == [] then r == Start()
    else
      var n := |events| - 1;
      exists before: Run :: Reaches(events[..n], before) && Enabled(before.state, events[n]) && r == Step(before, events[n])
  }

  /** First occurrences only, in order. */
  function Distinct(fs: seq<Failure>): seq<Failure> {
    if fs == [] then []
    else
      var n := |fs| - 1;
      var front := Distinct(fs[..n]);
      if fs[n] in front then front else front + [fs[n]]
  }

  // ---- the invariant ----

  ghost predicate Quiescence(s: State) {
    && (s.admission <==> s.quieting == Idle)
    && (s.quieting != Idle ==> s.aborted)
    && (s.closing != Open ==> s.quieting != Idle)
    && (s.quieting.Waiting? ==> s.quieting.children == |s.children| && s.quieting.acquisitions == |s.acquisitions|)
    && (s.quieting.Quiet? ==> AllSettled(s.children, |s.children|) && AllSettled(s.acquisitions, |s.acquisitions|))
    && (!s.closing.Open? && !s.closing.Requested? ==> s.quieting.Quiet?)
  }

  /** How far the finalizers have come. */
  ghost predicate Order(r: Run) {
    var s := r.state;
    match s.closing
    case Open => s.finalizers == r.accepted && r.started == []
    case Requested => s.finalizers == r.accepted && r.started == []
    case Finalizing(next, running) =>
      && s.finalizers == Reverse(r.accepted)
      && next + (if running then 1 else 0) <= |s.finalizers|
      && r.started == s.finalizers[..next + (if running then 1 else 0)]
    case Unwatching(_) => s.finalizers == Reverse(r.accepted) == r.started
    case Closed(_) => s.finalizers == Reverse(r.accepted) == r.started
  }

  ghost predicate Recorded(r: Run) {
    r.state.primary == Distinct(r.reported) && r.state.cleanup == r.cleaned
  }

  ghost predicate Inv(r: Run) { Quiescence(r.state) && Order(r) && Recorded(r) }

  lemma QuiescenceStep(s: State, e: Event)
    requires Quiescence(s) && Enabled(s, e)
    ensures Quiescence(Next(s, e))
  {}

  /** Accepting finalizers and settling work. After the join nothing is left to settle, so no finalizer
      arrives once they run. */
  lemma OrderAdmission(r: Run, e: Event)
    requires Quiescence(r.state) && Order(r) && Enabled(r.state, e)
    requires e.Acquire? || e.Defer? || e.Fork? || e.AcquireSettles? || e.ChildSettles?
    ensures Order(Step(r, e))
  {
    hide Reverse;
    if e.AcquireSettles? {
      assert !r.state.quieting.Quiet?;
      assert !r.state.aborted || !Accepting(r.state);
    }
    assert r.started + Starts(r.state, e) == r.started;
    assert r.accepted + [] == r.accepted;
  }

  lemma OrderControl(r: Run, e: Event)
    requires Quiescence(r.state) && Order(r) && Enabled(r.state, e)
    requires e.Fail? || e.Quiesce? || e.Close? || e.TakeSnapshot? || e.JoinAll?
    ensures Order(Step(r, e))
  {
    hide Reverse, Quiescence;
    assert r.started + Starts(r.state, e) == r.started;
    assert r.accepted + Accepts(r.state, e) == r.accepted;
  }

  lemma OrderFinalizers(r: Run, e: Event)
    requires Quiescence(r.state) && Order(r) && Enabled(r.state, e)
    requires e.BeginFinalizers? || e.StartFinalizer? || e.EndFinalizer? || e.BeginUnwatch? || e.Unwatch? || e.Finish?
    ensures Order(Step(r, e))
  {
    hide Reverse, Quiescence, FinishOutcome, AllSettled, Distinct, Cleans, Reports;
    var s := r.state;
    assert r.accepted + Accepts(s, e) == r.accepted;
    if e.StartFinalizer? {
      var n := s.closing.next;
      assert s.finalizers[..n + 1] == s.finalizers[..n] + [s.finalizers[n]];
    } else {
      assert r.started + Starts(s, e) == r.started;
    }
    if e.BeginUnwatch? { assert s.finalizers[..|s.finalizers|] == s.finalizers; }
  }

  lemma OrderStep(r: Run, e: Event)
    requires Quiescence(r.state) && Order(r) && Enabled(r.state, e)
    ensures Order(Step(r, e))
  {
    hide *;
    match e
    case Acquire => OrderAdmission(r, e);
    case Defer(_) => OrderAdmission(r, e);
    case Fork => OrderAdmission(r, e);
    case AcquireSettles(_, _) => OrderAdmission(r, e);
    case ChildSettles(_, _) => OrderAdmission(r, e);
    case Fail(_) => OrderControl(r, e);
    case Quiesce => OrderControl(r, e);
    case Close => OrderControl(r, e);
    case TakeSnapshot => OrderControl(r, e);
    case JoinAll => OrderControl(r, e);
    case _ => OrderFinalizers(r, e);
  }

  lemma DistinctSnoc(fs: seq<Failure>, f: Failure)
    ensures Distinct(fs + [f]) == if f in Distinct(fs) then Distinct(fs) else Distinct(fs) + [f]
  {
    assert (fs + [f])[..|fs|] == fs;
  }

  lemma RecordedStep(r: Run, e: Event)
    requires Recorded(r) && Enabled(r.state, e)
    ensures Recorded(Step(r, e))
  {
    hide Distinct, Reverse, FinishOutcome, AllSettled;
    var fs := Reports(e);
    if fs != [] {
      DistinctSnoc(r.reported, fs[0]);
      assert r.reported + fs == r.reported + [fs[0]];
    } else {
      assert r.reported + fs == r.reported;
    }
    if Cleans(e) == [] { assert r.cleaned + Cleans(e) == r.cleaned; }
  }

  /** Every run keeps the invariant. */
  lemma {:induction false} RunsKeepInv(events: seq<Event>, r: Run)
    requires Reaches(events, r)
    ensures Inv(r)
    decreases |events|
  {
    if events != [] {
      var n := |events| - 1;
      var before: Run :| Reaches(events[..n], before) && Enabled(before.state, events[n]) && r == Step(before, events[n]);
      RunsKeepInv(events[..n], before);
      QuiescenceStep(before.state, events[n]);
      OrderStep(before, events[n]);
      RecordedStep(before, events[n]);
    }
  }

  // ---- what the events of a run decide ----

  /** The cancellation that the lifetime's own stop causes. */
  predicate OwnStop(f: Failure) { f == Cancelled(f.id, true) || f == SleepCancelled(f.id, true) }

  /** The event brings the failure before the lifetime. */
  ghost predicate Brings(e: Event, f: Failure) {
    || e == Fail(f)
    || (exists i: nat :: e == AcquireSettles(i, Refused(f)) || e == ChildSettles(i, ReturnedFailure(f)))
    || (exists i: nat :: f.UnexpectedDefect? && (e == AcquireSettles(i, Threw(f.id)) || e == ChildSettles(i, RanThrew(f.id))))
  }

  ghost predicate Failed(events: seq<Event>, f: Failure) { !OwnStop(f) && exists e :: e in events && Brings(e, f) }

  /** A failure that is not the lifetime's own cancellation, or a call of quiesce or close. */
  ghost predicate Stops(e: Event) { e == Quiesce || e == Close || exists f :: Brings(e, f) && !OwnStop(f) }

  ghost predicate Stopped(events: seq<Event>) { exists e :: e in events && Stops(e) }

  ghost predicate ChildEnded(events: seq<Event>, i: nat) { exists e :: e in events && e.ChildSettles? && e.index == i }

  ghost predicate AcquireEnded(events: seq<Event>, i: nat) { exists e :: e in events && e.AcquireSettles? && e.index == i }

  /** The failures recorded, the settled work and the phases, told from the events alone. */
  ghost predicate Told(events: seq<Event>, s: State) {
    && (forall f :: f in s.primary <==> Failed(events, f))
    && (forall i: nat :: i < |s.children| && s.children[i] <==> ChildEnded(events, i))
    && (forall i: nat :: i < |s.acquisitions| && s.acquisitions[i] <==> AcquireEnded(events, i))
    && (s.quieting != Idle <==> Quiesce in events || Close in events)
    && (s.closing != Open <==> Close in events)
    && (s.aborted <==> Stopped(events))
  }

  lemma FailedStep(s: State, e: Event, f: Failure)
    requires Enabled(s, e)
    ensures f in Next(s, e).primary <==> f in s.primary || (Brings(e, f) && !OwnStop(f))
  {
    if e.Fail? || e.AcquireSettles? || e.ChildSettles? {
      BroughtStep(s, e, f);
    } else {
      assert Next(s, e).primary == s.primary && !Brings(e, f);
    }
  }

  lemma BroughtStep(s: State, e: Event, f: Failure)
    requires Enabled(s, e) && (e.Fail? || e.AcquireSettles? || e.ChildSettles?)
    ensures f in Next(s, e).primary <==> f in s.primary || (Brings(e, f) && !OwnStop(f))
  {}

  lemma ChildStep(s: State, e: Event, i: nat)
    requires Enabled(s, e)
    ensures var t := Next(s, e);
            i < |t.children| && t.children[i] <==> (i < |s.children| && s.children[i]) || (e.ChildSettles? && e.index == i)
  {
    hide Reverse, FinishOutcome, AllSettled;
  }

  lemma AcquisitionStep(s: State, e: Event, i: nat)
    requires Enabled(s, e)
    ensures var t := Next(s, e);
            i < |t.acquisitions| && t.acquisitions[i] <==>
              (i < |s.acquisitions| && s.acquisitions[i]) || (e.AcquireSettles? && e.index == i)
  {
    hide Reverse, FinishOutcome, AllSettled;
  }

  lemma PhaseStep(s: State, e: Event)
    requires Quiescence(s) && Enabled(s, e)
    ensures Next(s, e).quieting != Idle <==> s.quieting != Idle || e == Quiesce || e == Close
    ensures Next(s, e).closing != Open <==> s.closing != Open || e == Close
  {
    hide Reverse, FinishOutcome, AllSettled;
  }

  lemma StoppedStep(s: State, e: Event)
    requires Quiescence(s) && Enabled(s, e)
    ensures Next(s, e).aborted <==> s.aborted || Stops(e)
  {
    hide Reverse, FinishOutcome, AllSettled;
    match e
    case Fail(f) => assert Brings(e, f);
    case AcquireSettles(_, Refused(f)) => assert Brings(e, f);
    case AcquireSettles(_, Threw(id)) => assert Brings(e, UnexpectedDefect(id));
    case ChildSettles(_, ReturnedFailure(f)) => assert Brings(e, f);
    case ChildSettles(_, RanThrew(id)) => assert Brings(e, UnexpectedDefect(id));
    case _ =>
  }

  lemma ToldStep(events: seq<Event>, s: State)
    requires events != [] && Told(events[..|events| - 1], s) && Quiescence(s) && Enabled(s, events[|events| - 1])
    ensures Told(events, Next(s, events[|events| - 1]))
  {
    var n := |events| - 1;
    var e := events[n];
    assert events == events[..n] + [e];
    hide Enabled, Next, Brings, OwnStop, Stops, Quiescence;
    forall f ensures f in Next(s, e).primary <==> Failed(events, f) {
      FailedStep(s, e, f);
      assert f in s.primary <==> Failed(events[..n], f);
    }
    forall i: nat
      ensures i < |Next(s, e).children| && Next(s, e).children[i] <==> ChildEnded(events, i)
      ensures i < |Next(s, e).acquisitions| && Next(s, e).acquisitions[i] <==> AcquireEnded(events, i)
    {
      ChildStep(s, e, i);
      AcquisitionStep(s, e, i);
      assert i < |s.children| && s.children[i] <==> ChildEnded(events[..n], i);
      assert i < |s.acquisitions| && s.acquisitions[i] <==> AcquireEnded(events[..n], i);
    }
    PhaseStep(s, e);
    StoppedStep(s, e);
  }

  /** Over every run: the failures recorded are those brought before the lifetime that are not its own
      cancellation; work has settled exactly when an event settled it; the lifetime is stopping, or closing,
      exactly when quiesce or close was called; and its signal is aborted exactly when a failure was recorded
      or one of them called. */
  lemma {:induction false} RunsAreTold(events: seq<Event>, r: Run)
    requires Reaches(events, r)
    ensures Told(events, r.state)
    decreases |events|
  {
    hide Enabled, Next, Told, Inv;
    if events == [] {
      StartTold();
    } else {
      var n := |events| - 1;
      var before: Run :| Reaches(events[..n], before) && Enabled(before.state, events[n]) && r == Step(before, events[n]);
      RunsAreTold(events[..n], before);
      RunsKeepInv(events[..n], before);
      InvQuiescence(before);
      ToldStep(events, before.state);
    }
  }

  lemma StartTold()
    ensures Told([], Start().state)
  {}

  lemma InvQuiescence(r: Run)
    requires Inv(r)
    ensures Quiescence(r.state)
  {}

  /** The owner may call at any time, and whatever cleans up may fail. */
  lemma OwnerMayCall(s: State, f: Failure, finalizer: nat)
    ensures Enabled(s, Acquire) && Enabled(s, Defer(finalizer)) && Enabled(s, Fork)
    ensures Enabled(s, Fail(f)) && Enabled(s, Quiesce) && Enabled(s, Close)
    ensures Enabled(s, EndFinalizer([f])) <==> Enabled(s, EndFinalizer([]))
    ensures Enabled(s, Unwatch([f])) <==> Enabled(s, Unwatch([]))
  {}

  /** Admitted work may settle, in any way, exactly until it has. */
  lemma WorkSettlesOnce(events: seq<Event>, r: Run, i: nat, ran: Ran, prepared: Prepared)
    requires Reaches(events, r) && !ran.RanThrewOwned? && !prepared.ThrewOwned?
    ensures Enabled(r.state, ChildSettles(i, ran)) <==> i < |r.state.children| && !ChildEnded(events, i)
    ensures Enabled(r.state, AcquireSettles(i, prepared)) <==> i < |r.state.acquisitions| && !AcquireEnded(events, i)
  {
    RunsAreTold(events, r);
    hide Reaches, ChildEnded, AcquireEnded, Failed, Stopped;
  }

  function Ends(events: seq<Event>): nat {
    if events == [] then 0 else Ends(events[..|events| - 1]) + (if events[|events| - 1].EndFinalizer? then 1 else 0)
  }

  function Unwatches(events: seq<Event>): nat {
    if events == [] then 0 else Unwatches(events[..|events| - 1]) + (if events[|events| - 1].Unwatch? then 1 else 0)
  }

  /** How many finalizers have ended and how many signals are released, in each phase of close. */
  ghost predicate Cleaned(ended: nat, unwatched: nat, r: Run) {
    && |r.cleaned| <= ended + unwatched
    && match r.state.closing
       case Open => ended == unwatched == 0
       case Requested => ended == unwatched == 0
       case Finalizing(next, running) => ended == next == |r.started| - (if running then 1 else 0) && unwatched == 0
       case Unwatching(left) => ended == |r.accepted| && unwatched + left == 2
       case Closed(_) => ended == |r.accepted| && unwatched == 2
  }

  /** The steps of close itself. */
  predicate Closes(e: Event) {
    e.BeginFinalizers? || e.StartFinalizer? || e.EndFinalizer? || e.BeginUnwatch? || e.Unwatch? || e.Finish?
  }

  lemma CleanedByClose(ended: nat, unwatched: nat, r: Run, e: Event)
    requires Quiescence(r.state) && Order(r) && Enabled(r.state, e) && Cleaned(ended, unwatched, r) && Closes(e)
    ensures Cleaned(ended + (if e.EndFinalizer? then 1 else 0), unwatched + (if e.Unwatch? then 1 else 0), Step(r, e))
  {
    hide FinishOutcome, Reverse, Distinct, Quiescence, Reports;
    assert Accepts(r.state, e) == [];
  }

  lemma ClosingKept(s: State, e: Event)
    requires Enabled(s, e) && !Closes(e)
    ensures Next(s, e).closing == if e.Close? && s.closing == Open then Requested else s.closing
    ensures Cleans(e) == [] && Starts(s, e) == []
  {
    hide FinishOutcome, Reverse, AllSettled;
  }

  lemma CleanedByOther(ended: nat, unwatched: nat, r: Run, e: Event)
    requires Quiescence(r.state) && Enabled(r.state, e) && Cleaned(ended, unwatched, r) && !Closes(e)
    ensures Cleaned(ended, unwatched, Step(r, e))
  {
    ClosingKept(r.state, e);
    if r.state.closing.Unwatching? || r.state.closing.Closed? {
      assert r.state.quieting.Quiet?;
      NoneAcceptedLate(r.state, e);
    }
    hide Next, Enabled, Accepts, Starts, Cleans, Reports, Quiescence;
  }

  lemma CleanedStep(ended: nat, unwatched: nat, r: Run, e: Event)
    requires Quiescence(r.state) && Order(r) && Enabled(r.state, e) && Cleaned(ended, unwatched, r)
    ensures Cleaned(ended + (if e.EndFinalizer? then 1 else 0), unwatched + (if e.Unwatch? then 1 else 0), Step(r, e))
  {
    hide Enabled, Next, Step, Cleaned, Order, Quiescence;
    if Closes(e) { CleanedByClose(ended, unwatched, r, e); } else { CleanedByOther(ended, unwatched, r, e); }
  }

  lemma NoneAcceptedLate(s: State, e: Event)
    requires Quiescence(s) && Enabled(s, e) && s.quieting.Quiet?
    ensures Accepts(s, e) == []
  {}

  /** Close starts one finalizer at a time and ends each before the next; it ends every accepted finalizer before
      it releases the two watched signals, and both of these before it is closed. */
  lemma {:induction false} CleanupIsComplete(events: seq<Event>, r: Run)
    requires Reaches(events, r)
    ensures Cleaned(Ends(events), Unwatches(events), r)
    decreases |events|
  {
    if events != [] {
      hide Enabled, Next, Step, Cleaned, Inv;
      var n := |events| - 1;
      var before: Run :| Reaches(events[..n], before) && Enabled(before.state, events[n]) && r == Step(before, events[n]);
      CleanupIsComplete(events[..n], before);
      RunsKeepInv(events[..n], before);
      InvQuiescence(before);
      InvOrder(before);
      CleanedStep(Ends(events[..n]), Unwatches(events[..n]), before, events[n]);
    }
  }

  lemma InvOrder(r: Run)
    requires Inv(r)
    ensures Order(r)
  {}

  /** Until something stops the lifetime, every call of acquire, defer and fork is admitted; from then on none is. */
  lemma AdmittedExactly(events: seq<Event>, r: Run, finalizer: nat)
    requires Reaches(events, r)
    ensures var acquired, deferred, forked := Next(r.state, Acquire), Step(r, Defer(finalizer)), Next(r.state, Fork);
            if Stopped(events) then acquired == r.state && deferred.accepted == r.accepted && forked == r.state
            else
              && acquired.acquisitions == r.state.acquisitions + [false]
              && deferred.accepted == r.accepted + [finalizer]
              && forked.children == r.state.children + [false]
  {
    hide Reaches, Order, Recorded, Stopped, Failed, ChildEnded, AcquireEnded;
    RunsAreTold(events, r);
    RunsKeepInv(events, r);
    AdmittedWhileOpen(r.state);
    assert r.accepted + [] == r.accepted;
  }

  lemma AdmittedWhileOpen(s: State)
    requires Quiescence(s)
    ensures Accepting(s) <==> !s.aborted
  {}

  // ---- safety over every interleaving ----

  /** Once closed, every accepted finalizer has run exactly once, in reverse order of acceptance. */
  lemma ClosedRanEveryFinalizer(events: seq<Event>, r: Run)
    requires Reaches(events, r) && r.state.closing.Closed?
    ensures r.started == Reverse(r.accepted)
  {
    hide Reaches, Recorded, Quiescence, Reverse;
    RunsKeepInv(events, r);
  }

  /** Finalizers run one at a time, in reverse order, and only after every admitted child and acquisition settled. */
  lemma FinalizerStartsAfterJoin(events: seq<Event>, r: Run)
    requires Reaches(events, r) && Enabled(r.state, StartFinalizer)
    ensures AllSettled(r.state.children, |r.state.children|) && AllSettled(r.state.acquisitions, |r.state.acquisitions|)
    ensures !r.state.closing.running
    ensures |r.started| < |r.accepted|
    ensures Step(r, StartFinalizer).started == r.started + [r.accepted[|r.accepted| - 1 - |r.started|]]
  {
    hide Recorded, Reaches;
    RunsKeepInv(events, r);
  }

  /** From the first quiesce or close on nothing new is admitted: only resources admitted before can still
      register a finalizer, and none can once finalizers run. */
  lemma NothingAdmittedAfterQuiesce(events: seq<Event>, r: Run, e: Event)
    requires Reaches(events, r) && r.state.quieting != Idle && Enabled(r.state, e)
    ensures |Next(r.state, e).children| == |r.state.children|
    ensures |Next(r.state, e).acquisitions| == |r.state.acquisitions|
    ensures Step(r, e).accepted != r.accepted ==> e.AcquireSettles? && !r.state.quieting.Quiet?
    ensures Next(r.state, e).quieting != Idle
  {
    hide Order, Recorded, Reverse, Reaches;
    RunsKeepInv(events, r);
    assert r.accepted + [] == r.accepted;
  }

  /** A resource whose prepare finishes after an abort is still accepted for cleanup. */
  lemma LateResourceIsKept(events: seq<Event>, r: Run, i: nat, finalizer: nat)
    requires Reaches(events, r) && r.state.aborted && Enabled(r.state, AcquireSettles(i, Opened(finalizer)))
    ensures Step(r, AcquireSettles(i, Opened(finalizer))).accepted == r.accepted + [finalizer]
    ensures !Accepting(Next(r.state, AcquireSettles(i, Opened(finalizer))))
  {}

  /** All failures an outcome holds. */
  function Held(o: Outcome): seq<Failure> {
    match o
    case Clean => []
    case Single(f) => [f]
    case Aggregate(p, c) => p + c
  }

  /** The outcome of close holds exactly the failures recorded: each distinct failure object reported to the
      lifetime, in order, then every cleanup failure in the order the cleanup reported it. */
  lemma ClosingOutcomeIsExact(events: seq<Event>, r: Run)
    requires Reaches(events, r) && Enabled(r.state, Finish)
    ensures var outcome := Next(r.state, Finish).closing.outcome;
            && Held(outcome) == Distinct(r.reported) + r.cleaned
            && (outcome.Clean? <==> |Held(outcome)| == 0) && (outcome.Single? <==> |Held(outcome)| == 1)
            && (outcome.Aggregate? ==> outcome == Aggregate(Distinct(r.reported), r.cleaned))
  {
    hide Reaches, Order, Quiescence, Reverse, Distinct;
    RunsKeepInv(events, r);
    var p, c := r.state.primary, r.state.cleanup;
    if |p| == 1 && |c| == 0 { assert p + c == [p[0]]; }
    if |p| == 0 && |c| == 1 { assert p + c == [c[0]]; }
    if |p| == 0 && |c| == 0 { assert p + c == []; }
  }

  /** The failures a run reports, in order. */
  function ReportedIn(events: seq<Event>): seq<Failure> {
    if events == [] then [] else ReportedIn(events[..|events| - 1]) + Reports(events[|events| - 1])
  }

  lemma {:induction false} ReportedByEvents(events: seq<Event>, r: Run)
    requires Reaches(events, r)
    ensures r.reported == ReportedIn(events)
    decreases |events|
  {
    if events != [] {
      hide Enabled, Next, Reports;
      var n := |events| - 1;
      var before: Run :| Reaches(events[..n], before) && Enabled(before.state, events[n]) && r == Step(before, events[n]);
      ReportedByEvents(events[..n], before);
    }
  }

  lemma QuietStep(s: State, e: Event)
    requires Enabled(s, e)
    ensures s.quieting.Quiet? ==> e != JoinAll && Next(s, e).quieting == s.quieting
    ensures !s.quieting.Quiet? && Next(s, e).quieting.Quiet? ==> e == JoinAll
    ensures e == JoinAll ==> Next(s, e).quieting == Quiet(FinishOutcome(s.primary, []))
  {}

  lemma {:induction false} NotYetJoined(events: seq<Event>, r: Run)
    requires Reaches(events, r) && !r.state.quieting.Quiet?
    ensures JoinAll !in events
    decreases |events|
  {
    if events != [] {
      hide Enabled, Next, FinishOutcome;
      var n := |events| - 1;
      var before: Run :| Reaches(events[..n], before) && Enabled(before.state, events[n]) && r == Step(before, events[n]);
      QuietStep(before.state, events[n]);
      NotYetJoined(events[..n], before);
    }
  }

  /** The one join of a run. */
  predicate OnlyJoin(events: seq<Event>, join: nat) {
    join < |events| && events[join] == JoinAll && JoinAll !in events[..join] && JoinAll !in events[join + 1..]
  }

  lemma OnlyJoinGrows(events: seq<Event>, join: nat)
    requires events != [] && OnlyJoin(events[..|events| - 1], join) && events[|events| - 1] != JoinAll
    ensures OnlyJoin(events, join) && events[..|events| - 1][..join] == events[..join]
  {
    var n := |events| - 1;
    assert events[join + 1..] == events[..n][join + 1..] + [events[n]];
  }

  lemma JoinOutcome(before: Run)
    requires Recorded(before) && Enabled(before.state, JoinAll)
    ensures Step(before, JoinAll).state.quieting == Quiet(FinishOutcome(Distinct(before.reported), []))
  {
    hide FinishOutcome, Distinct;
  }

  /** The outcome of quiesce holds exactly the distinct failures reported up to the one join, in order. */
  lemma {:induction false} QuietOutcomeIsExact(events: seq<Event>, r: Run) returns (join: nat)
    requires Reaches(events, r) && r.state.quieting.Quiet?
    ensures OnlyJoin(events, join)
    ensures r.state.quieting == Quiet(FinishOutcome(Distinct(ReportedIn(events[..join])), []))
    decreases |events|
  {
    var n := |events| - 1;
    var before: Run :| Reaches(events[..n], before) && Enabled(before.state, events[n]) && r == Step(before, events[n]);
    QuietStep(before.state, events[n]);
    assert r.state == Next(before.state, events[n]);
    hide Enabled, Next, Step, FinishOutcome, Distinct, Inv, OnlyJoin, ReportedIn;
    if before.state.quieting.Quiet? {
      join := QuietOutcomeIsExact(events[..n], before);
      OnlyJoinGrows(events, join);
    } else {
      join := n;
      NotYetJoined(events[..n], before);
      LastJoin(events);
      RunsKeepInv(events[..n], before);
      InvRecords(before);
      ReportedByEvents(events[..n], before);
      JoinOutcome(before);
    }
  }

  lemma LastJoin(events: seq<Event>)
    requires events != [] && events[|events| - 1] == JoinAll && JoinAll !in events[..|events| - 1]
    ensures OnlyJoin(events, |events| - 1)
  {}

  lemma InvRecords(r: Run)
    requires Inv(r)
    ensures Recorded(r)
  {}

  /** An outcome once given never changes. */
  lemma OutcomesAreFinal(s: State, e: Event)
    requires Enabled(s, e)
    ensures s.closing.Closed? ==> Next(s, e).closing == s.closing
    ensures s.quieting.Quiet? ==> Next(s, e).quieting == s.quieting
  {}

  /** A recorded failure list has no duplicates and loses none: it holds the same failures as the reports. */
  lemma {:induction false} DistinctFacts(fs: seq<Failure>)
    ensures forall f :: f in Distinct(fs) <==> f in fs
    ensures forall i, j :: 0 <= i < j < |Distinct(fs)| ==> Distinct(fs)[i] != Distinct(fs)[j]
  {
    if fs != [] {
      var n := |fs| - 1;
      DistinctFacts(fs[..n]);
      assert fs == fs[..n] + [fs[n]];
    }
  }

  // ---- progress ----

  /** The continuations the supervisor schedules itself. */
  predicate Internal(e: Event) {
    e.TakeSnapshot? || e.JoinAll? || e.BeginFinalizers? || e.StartFinalizer? || e.BeginUnwatch? || e.Unwatch? || e.Finish?
  }

  /** After close, the supervisor never waits for anything but admitted work and the running finalizer: until
      it is closed, one of its own continuations is enabled, or one of those is unsettled. */
  lemma CloseNeverBlocks(events: seq<Event>, r: Run)
    requires Reaches(events, r) && r.state.closing != Open && !r.state.closing.Closed?
    ensures var s := r.state;
            || (exists e :: Internal(e) && Enabled(s, e))
            || (exists i :: 0 <= i < |s.children| && !s.children[i])
            || (exists i :: 0 <= i < |s.acquisitions| && !s.acquisitions[i])
            || (s.closing.Finalizing? && s.closing.running)
  {
    hide Reaches, Recorded, Reverse;
    RunsKeepInv(events, r);
    var s := r.state;
    var e :=
      if s.quieting.Scheduled? then TakeSnapshot
      else if s.quieting.Waiting? then JoinAll
      else if s.closing.Requested? then BeginFinalizers
      else if s.closing.Finalizing? then (if s.closing.next < |s.finalizers| then StartFinalizer else BeginUnwatch)
      else if s.closing.left > 0 then Unwatch([])
      else Finish;
    assert Internal(e);
    if !Enabled(s, e) {
      if s.quieting.Waiting? {
        assert !AllSettled(s.children, |s.children|) || !AllSettled(s.acquisitions, |s.acquisitions|);
      }
    }
  }

  /** What is left to do after close, as a number. */
  function Work(s: State): nat {
    var quiet := match s.quieting case Idle => 3 case Scheduled => 2 case Waiting(_, _) => 1 case Quiet(_) => 0;
    var close :=
      match s.closing
      case Open => 2 * |s.finalizers| + 6
      case Requested => 2 * |s.finalizers| + 5
      case Finalizing(next, running) =>
        if next <= |s.finalizers| then 2 * (|s.finalizers| - next) + 4 - (if running then 1 else 0) else 4
      case Unwatching(left) => left + 1
      case Closed(_) => 0;
    quiet + close
  }

  /** Every continuation of the supervisor and every finished finalizer brings the end of close nearer. */
  lemma ContinuationsMakeProgress(events: seq<Event>, r: Run, e: Event)
    requires Reaches(events, r) && Enabled(r.state, e) && (Internal(e) || e.EndFinalizer?)
    ensures Work(Next(r.state, e)) < Work(r.state)
  {
    hide Reaches, Recorded, FinishOutcome;
    RunsKeepInv(events, r);
  }

  // ---- the object ----

  /** `lifetimeRuntime`'s closure variables, updated in place. */
  class Supervisor {
    var primary: seq<Failure>
    var cleanupFailures: seq<Failure>
    var finalizers: seq<nat>
    var children: seq<bool>
    var acquisitions: seq<bool>
    var admission: bool
    var aborted: bool
    var quieting: Quieting
    var closing: Closing

    ghost function Abs(): State
      reads this
    {
      State(primary, cleanupFailures, finalizers, children, acquisitions, admission, aborted, quieting, closing)
    }

    constructor ()
      ensures Abs() == Init()
    {
      primary, cleanupFailures, finalizers, children, acquisitions := [], [], [], [], [];
      admission, aborted, quieting, closing := true, false, Idle, Open;
    }

    method AbortWith(failure: Failure)
      modifies this
      ensures Abs() == Abort(old(Abs()), failure)
    {
      if OwnedCancellation(failure) { return; }
      if failure !in primary { primary := primary + [failure]; }
      aborted := true;
    }

    method AcquireResource() returns (admitted: bool)
      modifies this
      ensures admitted == Accepting(old(Abs()))
      ensures Abs() == Next(old(Abs()), Acquire)
    {
      admitted := admission && !aborted;
      if admitted { acquisitions := acquisitions + [false]; }
    }

    method DeferFinalizer(finalizer: nat) returns (admitted: bool)
      modifies this
      ensures admitted == Accepting(old(Abs()))
      ensures Abs() == Next(old(Abs()), Defer(finalizer))
    {
      admitted := admission && !aborted;
      if admitted { finalizers := finalizers + [finalizer]; }
    }

    method ForkChild() returns (admitted: bool)
      modifies this
      ensures admitted == Accepting(old(Abs()))
      ensures Abs() == Next(old(Abs()), Fork)
    {
      admitted := admission && !aborted;
      if admitted { children := children + [false]; }
    }

    /** The continuation of an admitted `prepare`; `kept` says whether the caller gets the value. */
    method PrepareSettled(index: nat, prepared: Prepared) returns (kept: bool)
      requires Enabled(Abs(), AcquireSettles(index, prepared))
      modifies this
      ensures Abs() == Next(old(Abs()), AcquireSettles(index, prepared))
      ensures kept == (prepared.Opened? && Accepting(Abs()))
    {
      acquisitions := acquisitions[index := true];
      kept := false;
      match prepared
      case Opened(finalizer) =>
        finalizers := finalizers + [finalizer];
        kept := admission && !aborted;
      case Refused(f) => AbortWith(f);
      case ThrewOwned =>
      case Threw(id) => AbortWith(UnexpectedDefect(id));
    }

    method ChildSettled(index: nat, ran: Ran)
      requires Enabled(Abs(), ChildSettles(index, ran))
      modifies this
      ensures Abs() == Next(old(Abs()), ChildSettles(index, ran))
    {
      children := children[index := true];
      match ran
      case Returned =>
      case ReturnedFailure(f) =>
        if !((f.Cancelled? || f.SleepCancelled?) && aborted && f.owned) { AbortWith(f); }
      case RanThrewOwned =>
      case RanThrew(id) => AbortWith(UnexpectedDefect(id));
    }

    method QuiesceNow()
      modifies this
      ensures Abs() == Next(old(Abs()), Quiesce)
    {
      if quieting != Idle { return; }
      admission := false;
      quieting := Scheduled;
      if !aborted { aborted := true; }
    }

    method CloseNow()
      modifies this
      ensures Abs() == Next(old(Abs()), Close)
    {
      if closing != Open { return; }
      closing := Requested;
      QuiesceNow();
    }

    method TakeSnapshotNow()
      requires Enabled(Abs(), TakeSnapshot)
      modifies this
      ensures Abs() == Next(old(Abs()), TakeSnapshot)
    {
      quieting := Waiting(|children|, |acquisitions|);
    }

    method JoinAllNow()
      requires Enabled(Abs(), JoinAll)
      modifies this
      ensures Abs() == Next(old(Abs()), JoinAll)
    {
      quieting := Quiet(FinishOutcome(primary, []));
    }

    /** `finalizers.reverse()`, in place, before the first finalizer. */
    method ReverseFinalizers()
      requires Enabled(Abs(), BeginFinalizers)
      modifies this
      ensures Abs() == Next(old(Abs()), BeginFinalizers)
    {
      ReverseList();
      closing := Finalizing(0, false);
    }

    /** `finalizers.reverse()`, in place. */
    method ReverseList()
      modifies this`finalizers
      ensures finalizers == Reverse(old(finalizers))
    {
      var i, n := 0, |finalizers|;
      while i < n / 2
        invariant 0 <= i <= n / 2 && |finalizers| == n
        invariant forall k :: 0 <= k < i ==>
                    finalizers[k] == old(finalizers)[n - 1 - k] && finalizers[n - 1 - k] == old(finalizers)[k]
        invariant forall k :: i <= k < n - i ==> finalizers[k] == old(finalizers)[k]
      {
        var low, high := finalizers[i], finalizers[n - 1 - i];
        finalizers := finalizers[i := high][n - 1 - i := low];
        i := i + 1;
      }
      assert finalizers == Reverse(old(finalizers));
    }

    method StartFinalizerNow() returns (finalizer: nat)
      requires Enabled(Abs(), StartFinalizer)
      modifies this
      ensures Abs() == Next(old(Abs()), StartFinalizer)
      ensures Starts(old(Abs()), StartFinalizer) == [finalizer]
    {
      finalizer := finalizers[closing.next];
      closing := Finalizing(closing.next, true);
    }

    method FinalizerEnded(failed: seq<Failure>)
      requires Enabled(Abs(), EndFinalizer(failed))
      modifies this
      ensures Abs() == Next(old(Abs()), EndFinalizer(failed))
    {
      if |failed| == 1 { cleanupFailures := cleanupFailures + [failed[0]]; }
      closing := Finalizing(closing.next + 1, false);
    }

    method BeginUnwatching()
      requires Enabled(Abs(), BeginUnwatch)
      modifies this
      ensures Abs() == Next(old(Abs()), BeginUnwatch)
    {
      closing := Unwatching(2);
    }

    /** One of the two watched signals is released; releasing can itself report a failure. */
    method Unwatched(failed: seq<Failure>)
      requires Enabled(Abs(), Unwatch(failed))
      modifies this
      ensures Abs() == Next(old(Abs()), Unwatch(failed))
    {
      if |failed| == 1 { cleanupFailures := cleanupFailures + [failed[0]]; }
      closing := Unwatching(closing.left - 1);
    }

    method FinishNow() returns (outcome: Outcome)
      requires Enabled(Abs(), Finish)
      modifies this
      ensures Abs() == Next(old(Abs()), Finish)
      ensures Abs().closing == Closed(outcome)
    {
      outcome := FinishOutcome(primary, cleanupFailures);
      closing := Closed(outcome);
    }
  }
}
