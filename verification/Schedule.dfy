/** Debounce and throttle (`schedule`, packages/async/src/schedule.ts) as a timed state machine over one monotone
    clock with on-time timers. Arguments are known by the number of the call that passed them. */
module Schedule {
  import opened Options

  /** `longest` is `max(maxWait, wait)`; a throttle has `longest == Some(wait)`. */
  datatype Config = Config(wait: nat, leading: bool, trailing: bool, longest: Option<nat>)

  datatype Delivery = Delivery(call: nat, at: int)

  /** The variables of `schedule`, the clock with its live timers (number to deadline), and what an observer sees:
      call times, deliveries in order, and how many calls a cancel has dropped so far. */
  datatype State = State(
    lastArgs: Option<nat>,
    timer: Option<nat>,
    lastCallTime: Option<int>,
    lastInvokeTime: int,
    now: int,
    live: map<nat, int>,
    made: nat,
    calls: seq<int>,
    delivered: seq<Delivery>,
    dropped: nat)

  datatype Event = Call(t: int) | Fire(id: nat) | Cancel(t: int) | Flush(t: int)

  function Init(now: int): State {
    State(None, None, None, 0, now, map[], 0, [], [], 0)
  }

  function Min(a: int, b: int): int { if a < b then a else b }

  function Invoke(s: State, time: int): State {
    s.(lastArgs := None, lastInvokeTime := time,
       delivered := if s.lastArgs.Some? then s.delivered + [Delivery(s.lastArgs.value, time)] else s.delivered)
  }

  function Remaining(c: Config, s: State, time: int): int {
    var waiting := c.wait - (time - (if s.lastCallTime.Some? then s.lastCallTime.value else time));
    if c.longest.None? then waiting else Min(waiting, c.longest.value - (time - s.lastInvokeTime))
  }

  predicate ShouldInvoke(c: Config, s: State, time: int) {
    || s.lastCallTime.None?
    || time - s.lastCallTime.value >= c.wait
    || time - s.lastCallTime.value < 0
    || (c.longest.Some? && time - s.lastInvokeTime >= c.longest.value)
  }

  function TrailingEdge(c: Config, s: State, time: int): State {
    var t := s.(timer := None);
    if c.trailing && t.lastArgs.Some? then Invoke(t, time) else t.(lastArgs := None)
  }

  /** `timers.setTimer`. */
  function SetTimer(s: State, delay: int): State {
    s.(timer := Some(s.made), live := s.live[s.made := s.now + delay], made := s.made + 1)
  }

  /** The cancel function of the running timer. */
  function StopTimer(s: State): State {
    if s.timer.Some? then s.(live := s.live - {s.timer.value}) else s
  }

  function Expired(c: Config, s: State): State {
    if ShouldInvoke(c, s, s.now) then TrailingEdge(c, s, s.now) else SetTimer(s, Remaining(c, s, s.now))
  }

  function CallNow(c: Config, s: State): State {
    var invoking := ShouldInvoke(c, s, s.now);
    var t := s.(lastArgs := Some(|s.calls|), lastCallTime := Some(s.now), calls := s.calls + [s.now]);
    if invoking && t.timer.None? then
      var u := SetTimer(t.(lastInvokeTime := s.now), c.wait);
      if c.leading then Invoke(u, s.now) else u
    else if invoking && c.longest.Some? then Invoke(SetTimer(StopTimer(t), c.wait), s.now)
    else if t.timer.None? then SetTimer(t, c.wait)
    else t
  }

  function CancelNow(s: State): State {
    StopTimer(s).(lastInvokeTime := 0, lastArgs := None, lastCallTime := None, timer := None, dropped := |s.calls|)
  }

  function FlushNow(c: Config, s: State): State {
    if s.timer.None? then s else TrailingEdge(c, StopTimer(s), s.now)
  }

  /** Time never runs backwards and never passes a live deadline: a timer fires on time. */
  predicate MayBe(s: State, t: int) { s.now <= t && forall id :: id in s.live ==> t <= s.live[id] }

  predicate Enabled(s: State, e: Event) {
    match e
    case Call(t) => MayBe(s, t)
    case Fire(id) => id in s.live && MayBe(s, s.live[id])
    case Cancel(t) => MayBe(s, t)
    case Flush(t) => MayBe(s, t)
  }

  function Next(c: Config, s: State, e: Event): State
    requires Enabled(s, e)
  {
    match e
    case Call(t) => CallNow(c, s.(now := t))
    case Fire(id) => Expired(c, s.(now := s.live[id], live := s.live - {id}))
    case Cancel(t) => CancelNow(s.(now := t))
    case Flush(t) => FlushNow(c, s.(now := t))
  }

  ghost predicate Reaches(c: Config, start: int, events: seq<Event>, s: State)
    decreases |events|
  {
    if events == [] then s == Init(start)
    else
      var n := |events| - 1;
      exists before: State ::
        Reaches(c, start, events[..n], before) && Enabled(before, events[n]) && s == Next(c, before, events[n])
  }

  /** `longest` is never below `wait`. */
  predicate Valid(c: Config) { c.longest.Some? ==> c.wait <= c.longest.value }

  // ---- the timer ----

  /** A pending call has a timer, and the clock holds that timer and no other. */
  predicate OneTimer(s: State) {
    && (s.lastArgs.Some? ==> s.timer.Some?)
    && (s.timer.Some? ==> s.lastCallTime.Some? && s.timer.value in s.live && s.timer.value < s.made)
    && (forall id :: id in s.live ==> s.timer == Some(id))
  }

  predicate Deadlines(c: Config, s: State) {
    && (s.lastCallTime.Some? ==> s.lastCallTime.value <= s.now && s.lastInvokeTime <= s.now)
    && (forall id :: id in s.live ==> s.now <= s.live[id] && s.lastCallTime.Some? && s.live[id] <= s.lastCallTime.value + c.wait)
  }

  lemma OneTimerStep(c: Config, s: State, e: Event)
    requires OneTimer(s) && Enabled(s, e)
    ensures OneTimer(Next(c, s, e))
  {}

  lemma DeadlinesStep(c: Config, s: State, e: Event)
    requires Valid(c) && OneTimer(s) && Deadlines(c, s) && Enabled(s, e)
    ensures Deadlines(c, Next(c, s, e))
  {}

  // ---- deliveries ----

  function LastDelivered(s: State): int {
    if s.delivered == [] then -1 else s.delivered[|s.delivered| - 1].call
  }

  predicate Increasing(ds: seq<Delivery>) { forall i, j :: 0 <= i < j < |ds| ==> ds[i].call < ds[j].call }

  lemma IncreasingSnoc(ds: seq<Delivery>, d: Delivery)
    requires Increasing(ds) && (ds != [] ==> ds[|ds| - 1].call < d.call)
    ensures Increasing(ds + [d])
  {
    forall i | 0 <= i < |ds| ensures ds[i].call < d.call {
      if i < |ds| - 1 { assert ds[i].call < ds[|ds| - 1].call; }
    }
  }

  /** Deliveries go in call order, each call at most once and not before it was made; what is pending is the latest
      call, neither delivered nor dropped. */
  predicate Ordered(s: State) {
    && Increasing(s.delivered)
    && (forall i :: 0 <= i < |s.delivered| ==>
          s.delivered[i].call < |s.calls| && s.calls[s.delivered[i].call] <= s.delivered[i].at <= s.now)
    && (forall k :: 0 <= k < |s.calls| ==> s.calls[k] <= s.now)
    && s.dropped <= |s.calls|
    && (s.lastArgs.Some? ==>
          s.lastArgs.value == |s.calls| - 1 && LastDelivered(s) < s.lastArgs.value && s.dropped <= s.lastArgs.value)
    && (s.lastCallTime.Some? ==> s.calls != [] && s.lastCallTime.value == s.calls[|s.calls| - 1])
  }

  lemma OrderedInvoke(s: State)
    requires Ordered(s)
    ensures Ordered(Invoke(s, s.now))
  {
    if s.lastArgs.Some? { IncreasingSnoc(s.delivered, Delivery(s.lastArgs.value, s.now)); }
    hide Increasing;
  }

  lemma OrderedMake(s: State)
    requires Ordered(s)
    ensures Ordered(s.(lastArgs := Some(|s.calls|), lastCallTime := Some(s.now), calls := s.calls + [s.now]))
  {}

  lemma OrderedCall(c: Config, s: State)
    requires Ordered(s)
    ensures Ordered(CallNow(c, s))
  {
    hide Ordered, ShouldInvoke;
    var t := s.(lastArgs := Some(|s.calls|), lastCallTime := Some(s.now), calls := s.calls + [s.now]);
    OrderedMake(s);
    OrderedTimers(t, SetTimer(t.(lastInvokeTime := s.now), c.wait));
    OrderedTimers(t, SetTimer(StopTimer(t), c.wait));
    OrderedTimers(t, SetTimer(t, c.wait));
    OrderedInvoke(SetTimer(t.(lastInvokeTime := s.now), c.wait));
    OrderedInvoke(SetTimer(StopTimer(t), c.wait));
  }

  /** Timers and the last invocation have no say in the order. */
  lemma OrderedTimers(s: State, t: State)
    requires Ordered(s) && s.now <= t.now && t.calls == s.calls && t.delivered == s.delivered && t.dropped == s.dropped
    requires (t.lastArgs == s.lastArgs || t.lastArgs.None?) && t.lastCallTime == s.lastCallTime
    ensures Ordered(t)
  {}

  lemma OrderedCancel(s: State, t: State)
    requires Ordered(s) && s.now <= t.now && t == s.(now := t.now)
    ensures Ordered(CancelNow(t))
  {}

  lemma OrderedEdge(c: Config, s: State)
    requires Ordered(s)
    ensures Ordered(TrailingEdge(c, s, s.now))
  {
    hide Ordered;
    OrderedTimers(s, s.(timer := None));
    OrderedInvoke(s.(timer := None));
    OrderedTimers(s, s.(timer := None, lastArgs := None));
  }

  lemma OrderedStep(c: Config, s: State, e: Event)
    requires OneTimer(s) && Ordered(s) && Enabled(s, e)
    ensures Ordered(Next(c, s, e))
  {
    hide OneTimer, Ordered, ShouldInvoke, Remaining, TrailingEdge, CallNow;
    match e
    case Call(t) =>
      OrderedTimers(s, s.(now := t));
      OrderedCall(c, s.(now := t));
    case Fire(id) =>
      var t := s.(now := s.live[id], live := s.live - {id});
      OrderedTimers(s, t);
      OrderedEdge(c, t);
      OrderedTimers(t, SetTimer(t, Remaining(c, t, t.now)));
    case Cancel(t) =>
      OrderedCancel(s, s.(now := t));
    case Flush(t) =>
      var u := StopTimer(s.(now := t));
      OrderedTimers(s, s.(now := t));
      OrderedTimers(s, u);
      OrderedEdge(c, u);
  }

  /** An event delivers nothing, or the latest call, now; and never a call that a cancel dropped. */
  lemma DeliversTheLatest(c: Config, s: State, e: Event)
    requires OneTimer(s) && Ordered(s) && Enabled(s, e)
    ensures var t := Next(c, s, e);
            || t.delivered == s.delivered
            || (t.delivered == s.delivered + [Delivery(|t.calls| - 1, t.now)] && s.dropped <= |t.calls| - 1)
  {}

  ghost predicate Inv(c: Config, s: State) { OneTimer(s) && Deadlines(c, s) && Ordered(s) }

  lemma {:induction false} RunsKeepInv(c: Config, start: int, events: seq<Event>, s: State)
    requires Valid(c) && Reaches(c, start, events, s)
    ensures Inv(c, s)
    decreases |events|
  {
    if events != [] {
      hide Enabled, Next, OneTimer, Deadlines, Ordered;
      var n := |events| - 1;
      var before: State :|
        Reaches(c, start, events[..n], before) && Enabled(before, events[n]) && s == Next(c, before, events[n]);
      RunsKeepInv(c, start, events[..n], before);
      OneTimerStep(c, before, events[n]);
      DeadlinesStep(c, before, events[n]);
      OrderedStep(c, before, events[n]);
    }
  }

  /** A pending call always has exactly one live timer, and no timer is live without the schedule knowing it. */
  lemma PendingHasOneTimer(c: Config, start: int, events: seq<Event>, s: State)
    requires Valid(c) && Reaches(c, start, events, s)
    ensures s.lastArgs.Some? ==> |s.live| == 1
    ensures s.live.Keys == if s.timer.Some? then {s.timer.value} else {}
  {
    hide Reaches;
    RunsKeepInv(c, start, events, s);
    assert s.live.Keys == if s.timer.Some? then {s.timer.value} else {};
  }

  /** Arguments are delivered at most once and in call order. */
  lemma DeliveredOnceInOrder(c: Config, start: int, events: seq<Event>, s: State)
    requires Valid(c) && Reaches(c, start, events, s)
    ensures Increasing(s.delivered)
    ensures forall i :: 0 <= i < |s.delivered| ==>
              s.delivered[i].call < |s.calls| && s.calls[s.delivered[i].call] <= s.delivered[i].at
  {
    hide Reaches;
    RunsKeepInv(c, start, events, s);
  }

  // ---- trailing-only debounce: quiet before a delivery ----

  /** Each delivery comes exactly `wait` after its call, and no call fell in between. */
  predicate Quiet(c: Config, s: State) {
    forall i :: 0 <= i < |s.delivered| ==>
      && s.delivered[i].call < |s.calls|
      && s.delivered[i].at == s.calls[s.delivered[i].call] + c.wait
      && forall k :: s.delivered[i].call < k < |s.calls| ==> s.delivered[i].at <= s.calls[k]
  }

  /** The timer of a pending trailing-only debounce fires when its last call is exactly `wait` old. */
  lemma FiresAfterWait(c: Config, s: State, id: nat)
    requires !c.leading && c.longest.None? && Inv(c, s) && Enabled(s, Fire(id))
    ensures var t := Next(c, s, Fire(id));
            && t.calls == s.calls
            && (t.delivered == s.delivered
                || (s.calls != [] && t.delivered == s.delivered + [Delivery(|s.calls| - 1, s.calls[|s.calls| - 1] + c.wait)]))
  {
    hide Increasing;
  }

  lemma QuietCall(c: Config, s: State, t: int)
    requires !c.leading && c.longest.None? && Inv(c, s) && Quiet(c, s) && Enabled(s, Call(t))
    ensures Quiet(c, Next(c, s, Call(t)))
  {
    var u := Next(c, s, Call(t));
    assert u.delivered == s.delivered && u.calls == s.calls + [t];
    hide Increasing, CallNow, Next;
  }

  lemma QuietStep(c: Config, s: State, e: Event)
    requires !c.leading && c.longest.None? && Inv(c, s) && Quiet(c, s) && Enabled(s, e) && !e.Flush?
    ensures Quiet(c, Next(c, s, e))
  {
    match e
    case Call(t) =>
      hide *;
      QuietCall(c, s, t);
    case Fire(id) =>
      hide Next, OneTimer, Deadlines, Ordered, Enabled;
      FiresAfterWait(c, s, id);
    case Cancel(t) =>
      hide OneTimer, Deadlines, Ordered;
  }

  predicate NoFlush(events: seq<Event>) { forall e :: e in events ==> !e.Flush? }

  lemma {:induction false} DebounceWaitsForQuiet(c: Config, start: int, events: seq<Event>, s: State)
    requires !c.leading && c.longest.None? && NoFlush(events) && Reaches(c, start, events, s)
    ensures Quiet(c, s)
    decreases |events|
  {
    if events != [] {
      hide Enabled, Next, Quiet, Inv;
      var n := |events| - 1;
      var before: State :|
        Reaches(c, start, events[..n], before) && Enabled(before, events[n]) && s == Next(c, before, events[n]);
      assert events[n] in events;
      RunsKeepInv(c, start, events[..n], before);
      DebounceWaitsForQuiet(c, start, events[..n], before);
      QuietStep(c, before, events[n]);
    }
  }

  // ---- the leading edge ----

  lemma {:induction false} CallsKnown(c: Config, start: int, events: seq<Event>, s: State)
    requires Reaches(c, start, events, s)
    ensures s.dropped <= |s.calls| && (s.lastCallTime.None? <==> s.dropped == |s.calls|)
    decreases |events|
  {
    if events != [] {
      var n := |events| - 1;
      var before: State :|
        Reaches(c, start, events[..n], before) && Enabled(before, events[n]) && s == Next(c, before, events[n]);
      CallsKnown(c, start, events[..n], before);
      CallsKnownStep(c, before, events[n]);
    }
  }

  lemma CallsKnownStep(c: Config, s: State, e: Event)
    requires Enabled(s, e) && s.dropped <= |s.calls| && (s.lastCallTime.None? <==> s.dropped == |s.calls|)
    ensures var t := Next(c, s, e); t.dropped <= |t.calls| && (t.lastCallTime.None? <==> t.dropped == |t.calls|)
  {}

  /** No call since the start or the last cancel, or none for more than `wait`. */
  predicate Fresh(c: Config, s: State, t: int)
    requires s.dropped <= |s.calls|
  {
    s.dropped == |s.calls| || t > s.calls[|s.calls| - 1] + c.wait
  }

  /** A fresh call is delivered at once exactly with a leading edge; without maxWait no call within `wait` of the one
      before is. */
  lemma LeadingEdge(c: Config, start: int, events: seq<Event>, s: State, t: int)
    requires Valid(c) && Reaches(c, start, events, s) && Enabled(s, Call(t))
    ensures s.dropped <= |s.calls|
    ensures var u := Next(c, s, Call(t));
            && (Fresh(c, s, t) ==> u.delivered == s.delivered + (if c.leading then [Delivery(|s.calls|, t)] else []))
            && (s.dropped < |s.calls| && t < s.calls[|s.calls| - 1] + c.wait && c.longest.None? ==> u.delivered == s.delivered)
  {
    CallsKnown(c, start, events, s);
    RunsKeepInv(c, start, events, s);
    hide Reaches, Increasing;
    LeadingStep(c, s, t);
  }

  /** With a leading edge every change of `lastInvokeTime` is a delivery. */
  predicate LeadKept(s: State) {
    s.lastCallTime.None? || (s.delivered != [] && s.lastInvokeTime == s.delivered[|s.delivered| - 1].at)
  }

  lemma LeadKeptStep(c: Config, s: State, e: Event)
    requires c.leading && LeadKept(s) && OneTimer(s) && Enabled(s, e)
    ensures LeadKept(Next(c, s, e))
  {}

  lemma {:induction false} RunsKeepLead(c: Config, start: int, events: seq<Event>, s: State)
    requires Valid(c) && c.leading && Reaches(c, start, events, s)
    ensures LeadKept(s)
    decreases |events|
  {
    if events != [] {
      hide Enabled, Next, LeadKept, OneTimer, Deadlines, Ordered;
      var n := |events| - 1;
      var before: State :| Reaches(c, start, events[..n], before) && Enabled(before, events[n]) && s == Next(c, before, events[n]);
      RunsKeepLead(c, start, events[..n], before);
      RunsKeepInv(c, start, events[..n], before);
      LeadKeptStep(c, before, events[n]);
    } else {
      assert s == Init(start);
    }
  }

  /** With a leading edge and maxWait, a call made at least `longest` after the last delivery is delivered at once. */
  lemma AtOnceAfterLongest(c: Config, start: int, events: seq<Event>, s: State, t: int)
    requires Valid(c) && c.leading && c.longest.Some? && Reaches(c, start, events, s) && Enabled(s, Call(t))
    requires s.delivered != [] ==> s.delivered[|s.delivered| - 1].at + c.longest.value <= t
    ensures Next(c, s, Call(t)).delivered == s.delivered + [Delivery(|s.calls|, t)]
  {
    hide Reaches;
    RunsKeepLead(c, start, events, s);
  }

  lemma LeadingStep(c: Config, s: State, t: int)
    requires Inv(c, s) && Enabled(s, Call(t)) && s.dropped <= |s.calls|
    requires s.lastCallTime.None? <==> s.dropped == |s.calls|
    ensures var u := Next(c, s, Call(t));
            && (Fresh(c, s, t) ==> u.delivered == s.delivered + (if c.leading then [Delivery(|s.calls|, t)] else []))
            && (s.dropped < |s.calls| && t < s.calls[|s.calls| - 1] + c.wait && c.longest.None? ==> u.delivered == s.delivered)
  {
    hide Increasing;
    if Fresh(c, s, t) {
      NoTimerLeft(c, s, t);
      assert s.delivered + [] == s.delivered;
    }
  }

  lemma NoTimerLeft(c: Config, s: State, t: int)
    requires Inv(c, s) && Enabled(s, Call(t)) && s.dropped <= |s.calls| && Fresh(c, s, t)
    requires s.lastCallTime.None? <==> s.dropped == |s.calls|
    ensures s.timer.None? && ShouldInvoke(c, s.(now := t), t)
  {
    hide Increasing;
  }

  // ---- trailing: no call is lost ----

  predicate Undelivered(s: State, k: int) { s.dropped <= k < |s.calls| && LastDelivered(s) < k }

  /** A call that neither a delivery nor a cancel took is pending. */
  ghost predicate NoneLost(s: State) { forall k :: Undelivered(s, k) ==> s.lastArgs.Some? }

  lemma NoneLostStep(c: Config, s: State, e: Event)
    requires c.trailing && OneTimer(s) && Ordered(s) && NoneLost(s) && Enabled(s, e)
    ensures NoneLost(Next(c, s, e))
  {
    var t := Next(c, s, e);
    DeliversTheLatest(c, s, e);
    if t.lastArgs.None? {
      forall k | Undelivered(t, k) ensures false {
        if t.delivered == s.delivered {
          Adds(c, s, e);
          assert !e.Call?;
          assert Undelivered(s, k);
        }
      }
    }
  }

  lemma {:induction false} RunsLoseNone(c: Config, start: int, events: seq<Event>, s: State)
    requires Valid(c) && c.trailing && Reaches(c, start, events, s)
    ensures NoneLost(s)
    decreases |events|
  {
    if events != [] {
      hide Enabled, Next, NoneLost, Inv, OneTimer, Ordered;
      var n := |events| - 1;
      var before: State :|
        Reaches(c, start, events[..n], before) && Enabled(before, events[n]) && s == Next(c, before, events[n]);
      RunsKeepInv(c, start, events[..n], before);
      InvFacts(c, before);
      RunsLoseNone(c, start, events[..n], before);
      NoneLostStep(c, before, events[n]);
    }
  }

  /** With a trailing edge, every call that no cancel dropped was delivered, itself or through a later call, or the
      latest call is still pending, with its one timer due at most `wait` after it. */
  lemma NoCallIsLost(c: Config, start: int, events: seq<Event>, s: State, k: nat)
    requires Valid(c) && c.trailing && Reaches(c, start, events, s) && s.dropped <= k < |s.calls|
    ensures || (exists i :: 0 <= i < |s.delivered| && k <= s.delivered[i].call)
            || (&& s.lastArgs == Some(|s.calls| - 1) && s.timer.Some? && s.timer.value in s.live
                && s.now <= s.live[s.timer.value] <= s.calls[|s.calls| - 1] + c.wait)
  {
    hide Reaches;
    RunsKeepInv(c, start, events, s);
    RunsLoseNone(c, start, events, s);
    if !Undelivered(s, k) {
      assert k <= s.delivered[|s.delivered| - 1].call;
    }
  }

  /** A flush with a pending call delivers that call now; cancel leaves nothing pending and no timer. */
  lemma FlushDelivers(c: Config, start: int, events: seq<Event>, s: State, t: int)
    requires Valid(c) && c.trailing && Reaches(c, start, events, s) && Enabled(s, Flush(t))
    ensures var u := Next(c, s, Flush(t));
            && (s.lastArgs.Some? ==> s.lastArgs.value == |s.calls| - 1)
            && u.delivered == (if s.lastArgs.Some? then s.delivered + [Delivery(s.lastArgs.value, t)] else s.delivered)
            && u.lastArgs.None? && u.live == map[]
    ensures var u := Next(c, s, Cancel(t));
            u.delivered == s.delivered && u.lastArgs.None? && u.live == map[] && u.dropped == |s.calls|
  {
    hide Reaches;
    RunsKeepInv(c, start, events, s);
    hide Increasing;
  }

  // ---- trailing-only debounce: each burst is delivered, and when ----

  /** The time after which call k counts as followed by quiet: the next call, or the present. */
  function QuietUntil(s: State, k: nat): int
    requires k < |s.calls|
  {
    if k + 1 < |s.calls| then s.calls[k + 1] else s.now
  }

  /** Each call followed by more than `wait` of quiet was delivered when it was `wait` old. */
  predicate BurstsServed(c: Config, s: State) {
    forall k: nat :: s.dropped <= k < |s.calls| && QuietUntil(s, k) > s.calls[k] + c.wait ==>
      Delivery(k, s.calls[k] + c.wait) in s.delivered
  }

  /** A pending call is at most `wait` old, and its timer due by then. */
  lemma PendingDue(c: Config, s: State)
    requires Inv(c, s) && s.lastArgs.Some?
    ensures s.timer.Some? && s.timer.value in s.live && s.calls != []
    ensures s.now <= s.live[s.timer.value] <= s.calls[|s.calls| - 1] + c.wait
  {
    hide Increasing;
  }

  /** A latest call that is not pending was delivered when it was exactly `wait` old. */
  lemma LatestServed(c: Config, s: State)
    requires Inv(c, s) && NoneLost(s) && Quiet(c, s) && s.lastArgs.None? && s.dropped < |s.calls|
    ensures Delivery(|s.calls| - 1, s.calls[|s.calls| - 1] + c.wait) in s.delivered
  {
    assert !Undelivered(s, |s.calls| - 1);
    assert s.delivered[|s.delivered| - 1].call == |s.calls| - 1;
    hide Increasing;
  }

  /** What an event finds served stays served, and it serves the last call if it comes later than that. */
  lemma ServedBefore(c: Config, s: State, e: Event)
    requires Inv(c, s) && NoneLost(s) && Quiet(c, s) && Enabled(s, e) && s.dropped < |s.calls|
    requires e.Call? && e.t > s.calls[|s.calls| - 1] + c.wait
    ensures Delivery(|s.calls| - 1, s.calls[|s.calls| - 1] + c.wait) in s.delivered
  {
    if s.lastArgs.Some? { PendingDue(c, s); }
    hide Inv, Quiet, NoneLost;
    LatestServed(c, s);
  }

  lemma ServedNow(c: Config, s: State)
    requires Inv(c, s) && NoneLost(s) && Quiet(c, s) && s.dropped < |s.calls| && s.now > s.calls[|s.calls| - 1] + c.wait
    ensures Delivery(|s.calls| - 1, s.calls[|s.calls| - 1] + c.wait) in s.delivered
  {
    if s.lastArgs.Some? { PendingDue(c, s); }
    hide Inv, Quiet, NoneLost;
    LatestServed(c, s);
  }

  /** The latest call was delivered when it was exactly `wait` old. */
  predicate LastServed(c: Config, s: State)
    requires s.calls != []
  {
    Delivery(|s.calls| - 1, s.calls[|s.calls| - 1] + c.wait) in s.delivered
  }

  lemma BurstsKept(c: Config, s: State, t: State)
    requires s.calls <= t.calls && |t.calls| <= |s.calls| + 1 && s.delivered <= t.delivered && s.dropped <= t.dropped
    requires BurstsServed(c, s)
    requires t.dropped < |t.calls| && t.now > t.calls[|t.calls| - 1] + c.wait ==> LastServed(c, t)
    requires s.dropped < |s.calls| < |t.calls| && t.calls[|s.calls|] > s.calls[|s.calls| - 1] + c.wait ==> LastServed(c, s)
    ensures BurstsServed(c, t)
  {
    forall k: nat | t.dropped <= k < |t.calls| && QuietUntil(t, k) > t.calls[k] + c.wait
      ensures Delivery(k, t.calls[k] + c.wait) in t.delivered
    {
      assert t.calls[k] == (s.calls + t.calls[|s.calls|..])[k];
      if k < |t.calls| - 1 && k + 1 < |s.calls| { assert QuietUntil(s, k) == QuietUntil(t, k); }
    }
  }

  lemma StepGrows(c: Config, s: State, e: Event)
    requires OneTimer(s) && Ordered(s) && Enabled(s, e)
    ensures var t := Next(c, s, e);
            && s.calls <= t.calls && s.delivered <= t.delivered && s.dropped <= t.dropped
            && |t.calls| == |s.calls| + (if e.Call? then 1 else 0)
            && (e.Call? ==> t.calls[|s.calls|] == e.t)
  {
    DeliversTheLatest(c, s, e);
    hide OneTimer, Ordered;
  }

  lemma BurstsStep(c: Config, s: State, e: Event)
    requires Inv(c, s) && NoneLost(s) && Quiet(c, s) && BurstsServed(c, s) && Enabled(s, e)
    requires var t := Next(c, s, e); Inv(c, t) && NoneLost(t) && Quiet(c, t)
    ensures BurstsServed(c, Next(c, s, e))
  {
    var t := Next(c, s, e);
    InvFacts(c, s);
    StepGrows(c, s, e);
    hide Inv, NoneLost, Quiet, OneTimer, Ordered, Next, Enabled, BurstsServed;
    if t.dropped < |t.calls| && t.now > t.calls[|t.calls| - 1] + c.wait { ServedNow(c, t); }
    if e.Call? && s.dropped < |s.calls| && e.t > s.calls[|s.calls| - 1] + c.wait { ServedBefore(c, s, e); }
    BurstsKept(c, s, t);
  }

  /** A trailing-only debounce, with no flush, delivers every burst that `wait` of quiet follows, when its last call is
      exactly `wait` old. */
  lemma {:induction false} DebounceServesBursts(c: Config, start: int, events: seq<Event>, s: State)
    requires !c.leading && c.trailing && c.longest.None? && NoFlush(events) && Reaches(c, start, events, s)
    ensures BurstsServed(c, s)
    decreases |events|
  {
    if events != [] {
      hide Enabled, Next, Quiet, Inv, NoneLost, BurstsServed;
      var n := |events| - 1;
      var before: State :|
        Reaches(c, start, events[..n], before) && Enabled(before, events[n]) && s == Next(c, before, events[n]);
      assert events[n] in events;
      RunsKeepInv(c, start, events[..n], before);
      RunsKeepInv(c, start, events, s);
      RunsLoseNone(c, start, events[..n], before);
      RunsLoseNone(c, start, events, s);
      DebounceWaitsForQuiet(c, start, events[..n], before);
      DebounceWaitsForQuiet(c, start, events, s);
      DebounceServesBursts(c, start, events[..n], before);
      BurstsStep(c, before, events[n]);
    }
  }

  // ---- maxWait: no call waits longer ----

  ghost predicate Waits(c: Config, s: State)
    requires c.longest.Some?
  {
    forall k :: Undelivered(s, k) ==>
      s.lastArgs.Some? && s.lastInvokeTime <= s.calls[k]
      && forall id :: id in s.live ==> s.live[id] <= s.calls[k] + c.longest.value
  }

  /** Once the latest call is delivered, none is undelivered. */
  lemma NoneLeft(c: Config, s: State)
    requires c.longest.Some? && Ordered(s) && s.calls != [] && LastDelivered(s) == |s.calls| - 1
    ensures Waits(c, s)
  {}

  /** What a call does to the timer: it is delivered at once, or it waits at most `wait` from now. */
  lemma CallEffect(c: Config, s: State)
    requires Valid(c) && c.longest.Some? && OneTimer(s) && Deadlines(c, s)
    ensures var t := CallNow(c, s);
            && t.calls == s.calls + [s.now] && t.dropped == s.dropped
            && (t.delivered == s.delivered + [Delivery(|s.calls|, s.now)]
                || (t.delivered == s.delivered && t.lastArgs.Some? && t.lastInvokeTime <= s.now
                    && (forall id :: id in t.live ==> t.live[id] <= s.now + c.wait)
                    && (s.timer.Some? ==> t.lastInvokeTime == s.lastInvokeTime && t.live == s.live)))
  {}

  lemma WaitsCall(c: Config, s: State)
    requires Valid(c) && c.trailing && c.longest.Some? && OneTimer(s) && Deadlines(c, s) && Ordered(s) && Waits(c, s)
    ensures Waits(c, CallNow(c, s))
  {
    var t := CallNow(c, s);
    CallEffect(c, s);
    OrderedCall(c, s);
    hide CallNow, Deadlines;
    if t.delivered != s.delivered {
      NoneLeft(c, t);
    } else {
      hide Ordered;
      forall k | Undelivered(t, k) && k < |s.calls| ensures Undelivered(s, k) && t.calls[k] == s.calls[k] {}
    }
  }

  lemma WaitsFire(c: Config, s: State, id: nat)
    requires Valid(c) && c.trailing && c.longest.Some? && Inv(c, s) && Waits(c, s) && Enabled(s, Fire(id))
    ensures Waits(c, Next(c, s, Fire(id)))
  {
    var t := Next(c, s, Fire(id));
    OrderedStep(c, s, Fire(id));
    if t.delivered != s.delivered {
      NoneLeft(c, t);
    } else {
      hide Ordered;
      forall k | Undelivered(t, k) ensures Undelivered(s, k) && t.calls[k] == s.calls[k] {}
    }
  }

  lemma WaitsFlush(c: Config, s: State, t: int)
    requires Valid(c) && c.trailing && c.longest.Some? && Inv(c, s) && Waits(c, s) && Enabled(s, Flush(t))
    ensures Waits(c, Next(c, s, Flush(t)))
  {
    var u := Next(c, s, Flush(t));
    OrderedStep(c, s, Flush(t));
    if s.lastArgs.Some? {
      assert u.delivered == s.delivered + [Delivery(s.lastArgs.value, t)];
      hide Deadlines, Enabled, Next;
      NoneLeft(c, u);
    } else {
      hide Ordered, Deadlines;
      forall k | Undelivered(u, k) ensures Undelivered(s, k) {}
    }
  }

  lemma WaitsStep(c: Config, s: State, e: Event)
    requires Valid(c) && c.trailing && c.longest.Some? && Inv(c, s) && Waits(c, s) && Enabled(s, e)
    ensures Waits(c, Next(c, s, e))
  {
    match e
    case Call(t) =>
      var now := s.(now := t);
      assert Next(c, s, e) == CallNow(c, now);
      OrderedTimers(s, now);
      assert OneTimer(now) && Deadlines(c, now);
      hide Next, CallNow, Ordered, OneTimer, Deadlines, Enabled;
      assert Waits(c, now) by {
        forall k | Undelivered(now, k) ensures Undelivered(s, k) {}
      }
      WaitsCall(c, now);
    case Fire(id) =>
      hide Next;
      WaitsFire(c, s, id);
    case Cancel(t) =>
      var u := Next(c, s, e);
      assert u.dropped == |u.calls|;
      hide Next, Enabled, Inv, Ordered, Deadlines, OneTimer;
    case Flush(t) =>
      hide Next, Ordered;
      WaitsFlush(c, s, t);
  }

  /** Call k was delivered, itself or through a later call, at most `longest` after it was made. */
  predicate InTime(c: Config, s: State, k: nat)
    requires c.longest.Some? && k < |s.calls|
  {
    exists i :: 0 <= i < |s.delivered| && k <= s.delivered[i].call && s.delivered[i].at <= s.calls[k] + c.longest.value
  }

  ghost predicate Prompt(c: Config, s: State)
    requires c.longest.Some?
  {
    forall k: nat :: s.dropped <= k < |s.calls| && !Undelivered(s, k) ==> InTime(c, s, k)
  }

  /** What waits keeps the clock within its bound. */
  lemma WaitsUntil(c: Config, s: State, e: Event, k: nat)
    requires c.longest.Some? && Inv(c, s) && Waits(c, s) && Enabled(s, e) && Undelivered(s, k)
    ensures Next(c, s, e).now <= s.calls[k] + c.longest.value
  {
    hide Ordered, Deadlines;
    assert s.timer.value in s.live;
  }

  lemma StaysInTime(c: Config, s: State, t: State, k: nat)
    requires c.longest.Some? && k < |s.calls| && s.calls <= t.calls && s.delivered <= t.delivered && InTime(c, s, k)
    ensures InTime(c, t, k)
  {
    var i :| 0 <= i < |s.delivered| && k <= s.delivered[i].call && s.delivered[i].at <= s.calls[k] + c.longest.value;
    assert t.delivered[i] == s.delivered[i] && t.calls[k] == s.calls[k];
  }

  /** Events only add: a call its time, a cancel what it drops. */
  lemma Adds(c: Config, s: State, e: Event)
    requires OneTimer(s) && Ordered(s) && Enabled(s, e)
    ensures var t := Next(c, s, e);
            && t.calls == (if e.Call? then s.calls + [t.now] else s.calls)
            && s.dropped <= t.dropped
            && (t.dropped == s.dropped || t.dropped == |t.calls|)
  {}

  lemma PromptStep(c: Config, s: State, e: Event)
    requires Valid(c) && c.longest.Some? && Inv(c, s) && Waits(c, s) && Prompt(c, s) && Enabled(s, e)
    ensures Prompt(c, Next(c, s, e))
  {
    var t := Next(c, s, e);
    Adds(c, s, e);
    DeliversTheLatest(c, s, e);
    OrderedStep(c, s, e);
    forall k: nat | t.dropped <= k < |t.calls| && !Undelivered(t, k) ensures InTime(c, t, k) {
      if k < |s.calls| && Undelivered(s, k) { WaitsUntil(c, s, e, k); }
      hide Next, Enabled, Ordered, OneTimer, Deadlines, Waits;
      if k < |s.calls| && !Undelivered(s, k) {
        StaysInTime(c, s, t, k);
      } else {
        assert t.delivered != s.delivered;
        assert t.delivered[|t.delivered| - 1] == Delivery(|t.calls| - 1, t.now);
      }
    }
  }

  lemma {:induction false} RunsKeepWaits(c: Config, start: int, events: seq<Event>, s: State)
    requires Valid(c) && c.trailing && c.longest.Some? && Reaches(c, start, events, s)
    ensures Waits(c, s) && Prompt(c, s)
    decreases |events|
  {
    if events != [] {
      hide Enabled, Next, Waits, Prompt, Inv;
      var n := |events| - 1;
      var before: State :|
        Reaches(c, start, events[..n], before) && Enabled(before, events[n]) && s == Next(c, before, events[n]);
      RunsKeepInv(c, start, events[..n], before);
      RunsKeepWaits(c, start, events[..n], before);
      WaitsStep(c, before, events[n]);
      PromptStep(c, before, events[n]);
    }
  }

  /** With trailing and maxWait, no call that cancel did not drop waits longer than max(maxWait, wait): it was delivered,
      itself or through a later call, by then, or it still waits and that time has not passed. */
  lemma NoCallWaitsLonger(c: Config, start: int, events: seq<Event>, s: State, k: nat)
    requires Valid(c) && c.trailing && c.longest.Some? && Reaches(c, start, events, s)
    requires s.dropped <= k < |s.calls|
    ensures if Undelivered(s, k) then s.lastArgs.Some? && s.now <= s.calls[k] + c.longest.value else InTime(c, s, k)
  {
    hide Reaches;
    RunsKeepInv(c, start, events, s);
    RunsKeepWaits(c, start, events, s);
    if Undelivered(s, k) {
      hide Ordered, Prompt;
      assert s.timer.value in s.live;
    }
  }

  // ---- spacing: one edge keeps calls `wait` apart, both edges do not ----

  /** Consecutive deliveries are at least `wait` apart. */
  predicate Apart(c: Config, ds: seq<Delivery>) {
    forall i :: 0 < i < |ds| ==> ds[i - 1].at + c.wait <= ds[i].at
  }

  predicate Spaced(c: Config, s: State) {
    && Apart(c, s.delivered)
    && (s.delivered != [] ==>
          var last := s.delivered[|s.delivered| - 1].at;
          && s.lastCallTime.Some? && last <= s.lastInvokeTime
          && (!c.trailing ==> s.lastInvokeTime <= s.lastCallTime.value)
          && (!c.leading && s.timer.Some? ==> last <= s.lastCallTime.value))
  }

  predicate OneEdge(c: Config) { !(c.leading && c.trailing) }

  lemma SpacedCall(c: Config, s: State)
    requires Valid(c) && OneEdge(c) && OneTimer(s) && Deadlines(c, s) && Spaced(c, s)
    ensures Spaced(c, CallNow(c, s))
  {}

  lemma SpacedStep(c: Config, s: State, e: Event)
    requires Valid(c) && OneEdge(c) && Inv(c, s) && Spaced(c, s) && Enabled(s, e) && !e.Cancel? && !e.Flush?
    ensures Spaced(c, Next(c, s, e))
  {
    hide Ordered;
    if e.Call? {
      SpacedCall(c, s.(now := e.t));
      hide CallNow;
    }
  }

  predicate Undisturbed(events: seq<Event>) { forall e :: e in events ==> !e.Cancel? && !e.Flush? }

  /** A throttle or debounce with at most one edge calls `fn` at most once per `wait`. */
  lemma {:induction false} OneEdgeKeepsApart(c: Config, start: int, events: seq<Event>, s: State)
    requires Valid(c) && OneEdge(c) && Undisturbed(events) && Reaches(c, start, events, s)
    ensures Spaced(c, s)
    decreases |events|
  {
    if events != [] {
      hide Enabled, Next, Spaced, Inv, OneEdge;
      var n := |events| - 1;
      var before: State :|
        Reaches(c, start, events[..n], before) && Enabled(before, events[n]) && s == Next(c, before, events[n]);
      assert events[n] in events;
      RunsKeepInv(c, start, events[..n], before);
      OneEdgeKeepsApart(c, start, events[..n], before);
      SpacedStep(c, before, events[n]);
    }
  }

  lemma Extend(c: Config, start: int, events: seq<Event>, s: State, e: Event)
    requires Reaches(c, start, events, s) && Enabled(s, e)
    ensures Reaches(c, start, events + [e], Next(c, s, e))
  {
    hide Enabled, Next;
    assert (events + [e])[..|events|] == events;
  }

  /** The states of a short run: two calls at once, the timer, one more call in the same millisecond. */
  function Crowd(start: int, t: int, n: nat): State {
    if n == 0 then Init(start)
    else if n == 1 then
      State(None, Some(0), Some(start), start, start, map[0 := t], 1, [start], [Delivery(0, start)], 0)
    else if n == 2 then
      State(Some(1), Some(0), Some(start), start, start, map[0 := t], 1, [start, start], [Delivery(0, start)], 0)
    else if n == 3 then
      State(None, None, Some(start), t, t, map[], 1, [start, start], [Delivery(0, start), Delivery(1, t)], 0)
    else
      State(None, Some(1), Some(t), t, t, map[1 := t + (t - start)], 2, [start, start, t],
            [Delivery(0, start), Delivery(1, t), Delivery(2, t)], 0)
  }

  function CrowdEvent(start: int, t: int, n: nat): Event {
    if n < 2 then Call(start) else if n == 2 then Fire(0) else Call(t)
  }

  lemma CrowdStep(c: Config, start: int, n: nat)
    requires c.leading && c.trailing && c.wait > 0 && c.longest == Some(c.wait) && n < 4
    ensures var t := start + c.wait;
            && Enabled(Crowd(start, t, n), CrowdEvent(start, t, n))
            && Next(c, Crowd(start, t, n), CrowdEvent(start, t, n)) == Crowd(start, t, n + 1)
  {
    var t := start + c.wait;
    var after := Next(c, Crowd(start, t, n), CrowdEvent(start, t, n));
    assert after.live == Crowd(start, t, n + 1).live;
  }

  lemma CrowdReaches(c: Config, start: int, n: nat) returns (events: seq<Event>)
    requires c.leading && c.trailing && c.wait > 0 && c.longest == Some(c.wait) && n <= 4
    ensures Undisturbed(events) && Reaches(c, start, events, Crowd(start, start + c.wait, n))
  {
    if n == 0 {
      events := [];
    } else {
      hide Reaches, Next, Enabled, Crowd;
      var t := start + c.wait;
      events := CrowdReaches(c, start, n - 1);
      CrowdStep(c, start, n - 1);
      Extend(c, start, events, Crowd(start, t, n - 1), CrowdEvent(start, t, n - 1));
      events := events + [CrowdEvent(start, t, n - 1)];
    }
  }

  /** A throttle with both edges, its default, can call `fn` twice in one millisecond: after a trailing call the next
      call is measured from the last call's time, and leads at once. */
  lemma BothEdgesCrowd(c: Config, start: int) returns (events: seq<Event>, s: State)
    requires c.leading && c.trailing && c.wait > 0 && c.longest == Some(c.wait)
    ensures Undisturbed(events) && Reaches(c, start, events, s)
    ensures |s.delivered| == 3 && s.delivered[1].at == s.delivered[2].at == start + c.wait
  {
    hide Reaches, Next, Enabled;
    events := CrowdReaches(c, start, 4);
    s := Crowd(start, start + c.wait, 4);
  }

  /** With no wait, deliveries need only not go back in time. */
  lemma {:induction false} NeverBackwards(c: Config, start: int, events: seq<Event>, s: State)
    requires Valid(c) && c.wait == 0 && Reaches(c, start, events, s)
    ensures Apart(c, s.delivered)
    decreases |events|
  {
    if events != [] {
      hide Enabled, Next, Inv, OneTimer, Deadlines;
      var n := |events| - 1;
      var before: State :|
        Reaches(c, start, events[..n], before) && Enabled(before, events[n]) && s == Next(c, before, events[n]);
      RunsKeepInv(c, start, events[..n], before);
      RunsKeepInv(c, start, events, s);
      NeverBackwards(c, start, events[..n], before);
      InvFacts(c, before);
      InvFacts(c, s);
      DeliversTheLatest(c, before, events[n]);
      NowGrows(c, before, events[n]);
    }
  }

  lemma InvFacts(c: Config, s: State)
    requires Inv(c, s)
    ensures OneTimer(s) && Ordered(s)
  {}

  lemma NowGrows(c: Config, s: State, e: Event)
    requires Enabled(s, e)
    ensures s.now <= Next(c, s, e).now
  {}

  /** Every undisturbed run delivers at most once per `wait`. */
  ghost predicate KeepsApart(c: Config) {
    forall start: int, events: seq<Event>, s: State ::
      Undisturbed(events) && Reaches(c, start, events, s) ==> Apart(c, s.delivered)
  }

  /** A throttle keeps its promise of at most one call per `wait` exactly when it has at most one edge, or no wait. */
  lemma ThrottleSpacing(c: Config)
    requires c.longest == Some(c.wait)
    ensures KeepsApart(c) <==> OneEdge(c) || c.wait == 0
  {
    hide Reaches;
    if OneEdge(c) || c.wait == 0 {
      forall start: int, events: seq<Event>, s: State | Undisturbed(events) && Reaches(c, start, events, s)
        ensures Apart(c, s.delivered)
      {
        if OneEdge(c) { OneEdgeKeepsApart(c, start, events, s); } else { NeverBackwards(c, start, events, s); }
      }
    } else {
      var events, s := BothEdgesCrowd(c, 0);
      assert !Apart(c, s.delivered);
    }
  }

  // ---- the object ----

  /** The closure of `schedule` over a clock that hands out numbered timers. */
  class Scheduled {
    const config: Config
    var lastArgs: Option<nat>
    var timer: Option<nat>
    var lastCallTime: Option<int>
    var lastInvokeTime: int
    var now: int
    var live: map<nat, int>
    var made: nat
    ghost var calls: seq<int>
    ghost var delivered: seq<Delivery>
    ghost var dropped: nat

    ghost function Abs(): State
      reads this
    {
      State(lastArgs, timer, lastCallTime, lastInvokeTime, now, live, made, calls, delivered, dropped)
    }

    constructor (c: Config, start: int)
      ensures config == c && Abs() == Init(start)
    {
      config, lastArgs, timer, lastCallTime, lastInvokeTime, now := c, None, None, None, 0, start;
      live, made, calls, delivered, dropped := map[], 0, [], [], 0;
    }

    method Set(delay: int)
      modifies this
      ensures Abs() == SetTimer(old(Abs()), delay)
    {
      timer, live, made := Some(made), live[made := now + delay], made + 1;
    }

    method Stop()
      modifies this
      ensures Abs() == StopTimer(old(Abs()))
    {
      if timer.Some? { live := live - {timer.value}; }
    }

    /** `invoke`; the result is the call whose arguments `fn` gets. */
    method InvokeAt(time: int) returns (args: Option<nat>)
      modifies this
      ensures Abs() == Invoke(old(Abs()), time) && args == old(lastArgs)
    {
      args := lastArgs;
      lastArgs := None;
      lastInvokeTime := time;
      if args.Some? { delivered := delivered + [Delivery(args.value, time)]; }
    }

    method Edge(time: int)
      modifies this
      ensures Abs() == TrailingEdge(config, old(Abs()), time)
    {
      timer := None;
      if config.trailing && lastArgs.Some? { var _ := InvokeAt(time); } else { lastArgs := None; }
    }

    /** `scheduled`: a call at time `t`, whose arguments are known by its number. */
    method CallAt(t: int, number: nat)
      requires Enabled(Abs(), Call(t)) && number == |calls|
      modifies this
      ensures Abs() == Next(config, old(Abs()), Call(t))
    {
      now := t;
      var invoking := ShouldInvokeAt(t);
      lastArgs := Some(number);
      lastCallTime := Some(t);
      calls := calls + [t];
      if invoking {
        if timer.None? {
          lastInvokeTime := t;
          Set(config.wait);
          if config.leading { var _ := InvokeAt(t); }
          return;
        }
        if config.longest.Some? {
          Stop();
          Set(config.wait);
          var _ := InvokeAt(t);
          return;
        }
      }
      if timer.None? { Set(config.wait); }
    }

    method ShouldInvokeAt(time: int) returns (yes: bool)
      ensures yes == ShouldInvoke(config, Abs(), time)
    {
      if lastCallTime.None? { return true; }
      var sinceCall := time - lastCallTime.value;
      yes := sinceCall >= config.wait || sinceCall < 0
             || (config.longest.Some? && time - lastInvokeTime >= config.longest.value);
    }

    method RemainingAt(time: int) returns (delay: int)
      ensures delay == Remaining(config, Abs(), time)
    {
      delay := config.wait - (time - if lastCallTime.Some? then lastCallTime.value else time);
      if config.longest.Some? { delay := Min(delay, config.longest.value - (time - lastInvokeTime)); }
    }

    /** The clock fires timer `id`, and `expired` runs. */
    method FireTimer(id: nat)
      requires Enabled(Abs(), Fire(id))
      modifies this
      ensures Abs() == Next(config, old(Abs()), Fire(id))
    {
      now, live := live[id], live - {id};
      var due := ShouldInvokeAt(now);
      if due {
        Edge(now);
      } else {
        var delay := RemainingAt(now);
        Set(delay);
      }
    }

    method CancelAt(t: int)
      requires Enabled(Abs(), Cancel(t))
      modifies this
      ensures Abs() == Next(config, old(Abs()), Cancel(t))
    {
      now := t;
      if timer.Some? { Stop(); }
      lastInvokeTime := 0;
      lastArgs, lastCallTime, timer := None, None, None;
      dropped := |calls|;
    }

    method FlushAt(t: int)
      requires Enabled(Abs(), Flush(t))
      modifies this
      ensures Abs() == Next(config, old(Abs()), Flush(t))
    {
      now := t;
      if timer.None? { return; }
      Stop();
      Edge(t);
    }
  }
}
