/** Execute-at-most-once (`executeOnce` and `replay`, packages/admin/src/dispatcher.ts, over `kvReceiptStore`,
    packages/admin/src/receipts.ts) as a transition system. Any number of handlers share one atomic store. A call
    to the store can fail: its write then never happens, or happens at any later time. A handler can crash
    anywhere. Hashes and the JSON of results are opaque values. */
module Receipts {
  import opened Options
  import opened WireErrors

  /** An authenticated execute: the permit's execution id, the action and the hash of the signed operation. */
  datatype Request = Request(executionId: nat, actionId: nat, requestHash: nat)

  /** How the action ended: with data, known by its JSON when it has any, or with a problem. */
  datatype ActionResult = Returned(result: Option<nat>) | Ended(problem: Problem)

  /** The JSON null. */
  const NULL: nat := 0

  datatype Status = Pending | Applied(result: nat) | FailedWith(error: PublicError)

  /** Receipts written before request hashes existed hold none. */
  datatype Receipt = Receipt(executionId: nat, actionId: nat, requestHash: Option<nat>, status: Status)

  datatype Answer =
    | Unavailable
    | Stale
    | InProgress
    | Repeated(receipt: Receipt)
    | Fresh(outcome: ActionResult)

  datatype Phase = Ready | KeyWon | KeyLost | Claimed | Running | Ran(outcome: ActionResult) | Answered(answer: Answer) | Crashed

  /** `won` and `outcome` remember what this handler did. */
  datatype Handler = Handler(request: Request, phase: Phase, won: bool, outcome: Option<ActionResult>)

  /** The store, the handlers, the writes that failed but may still land, and the execution ids of the
      actions that ran, in order. */
  datatype State = State(
    claims: set<nat>,
    receipts: map<nat, Receipt>,
    handlers: seq<Handler>,
    lateClaims: set<nat>,
    lateWrites: set<Receipt>,
    runs: seq<nat>)

  datatype Event =
    | Arrive(request: Request)
    | WinKey(h: nat)
    | LoseKey(h: nat)
    | KeyFails(h: nat, sent: bool)
    | ReadReceipt(h: nat)
    | ReadFails(h: nat)
    | WritePending(h: nat)
    | PendingFails(h: nat, sent: bool)
    | RunAction(h: nat)
    | ActionEnds(h: nat, outcome: ActionResult)
    | WriteSettled(h: nat)
    | SettleFails(h: nat, sent: bool)
    | Crash(h: nat)
    | LandClaim(id: nat)
    | LandWrite(receipt: Receipt)
    | ExpireClaim(id: nat)
    | ExpireReceipt(id: nat)

  // ---- decisions ----

  function PendingReceipt(r: Request): Receipt {
    Receipt(r.executionId, r.actionId, Some(r.requestHash), Pending)
  }

  /** The action ran and returned, but broke its own output schema. */
  predicate BrokeOutput(p: Problem) { p.AdminError? && p.number == INVALID_OUTPUT }

  /** The settled receipt of a run: an action that broke its output schema still did apply. */
  function SettledReceipt(r: Request, outcome: ActionResult): Receipt {
    PendingReceipt(r).(status :=
      match outcome
      case Returned(result) => Applied(if result.Some? then result.value else NULL)
      case Ended(problem) => if BrokeOutput(problem) then Applied(NULL) else FailedWith(PublicErrorOf(problem)))
  }

  /** The receipt of this outcome passes the receipt schema; another is never written, and stays pending. */
  predicate Settleable(outcome: ActionResult) {
    outcome.Ended? && !BrokeOutput(outcome.problem) ==> Storable(PublicErrorOf(outcome.problem))
  }

  predicate OtherRequest(receipt: Receipt, r: Request) {
    match receipt.requestHash
    case None => receipt.actionId != r.actionId
    case Some(hash) => hash != r.requestHash
  }

  /** `replay`: the answer to an execution id that another call holds. */
  function Replay(stored: Option<Receipt>, r: Request): Answer {
    match stored
    case None => InProgress
    case Some(receipt) =>
      if OtherRequest(receipt, r) then Stale
      else if receipt.status.Pending? then InProgress
      else Repeated(receipt)
  }

  function Lookup(receipts: map<nat, Receipt>, id: nat): Option<Receipt> {
    if id in receipts then Some(receipts[id]) else None
  }

  // ---- steps ----

  predicate At(s: State, h: nat, phase: Phase) { h < |s.handlers| && s.handlers[h].phase == phase }

  predicate Enabled(s: State, e: Event) {
    match e
    case Arrive(_) => true
    case WinKey(h) => At(s, h, Ready) && s.handlers[h].request.executionId !in s.claims
    case LoseKey(h) => At(s, h, Ready) && s.handlers[h].request.executionId in s.claims
    case KeyFails(h, _) => At(s, h, Ready)
    case ReadReceipt(h) => At(s, h, KeyLost)
    case ReadFails(h) => At(s, h, KeyLost)
    case WritePending(h) => At(s, h, KeyWon)
    case PendingFails(h, _) => At(s, h, KeyWon)
    case RunAction(h) => At(s, h, Claimed)
    case ActionEnds(h, _) => At(s, h, Running)
    case WriteSettled(h) => h < |s.handlers| && s.handlers[h].phase.Ran? && Settleable(s.handlers[h].phase.outcome)
    case SettleFails(h, sent) =>
      h < |s.handlers| && s.handlers[h].phase.Ran? && (sent ==> Settleable(s.handlers[h].phase.outcome))
    case Crash(h) => h < |s.handlers|
    case LandClaim(id) => id in s.lateClaims
    case LandWrite(r) => r in s.lateWrites
    case ExpireClaim(id) => id in s.claims
    case ExpireReceipt(id) => id in s.receipts
  }

  function Put(s: State, h: nat, handler: Handler): State
    requires h < |s.handlers|
  {
    s.(handlers := s.handlers[h := handler])
  }

  function Next(s: State, e: Event): State
    requires Enabled(s, e)
  {
    match e
    case Arrive(r) => s.(handlers := s.handlers + [Handler(r, Ready, false, None)])
    case WinKey(h) =>
      var it := s.handlers[h];
      Put(s, h, it.(phase := KeyWon, won := true)).(claims := s.claims + {it.request.executionId})
    case LoseKey(h) => Put(s, h, s.handlers[h].(phase := KeyLost))
    case KeyFails(h, sent) =>
      var it := s.handlers[h];
      Put(s, h, it.(phase := Answered(Unavailable)))
        .(lateClaims := if sent then s.lateClaims + {it.request.executionId} else s.lateClaims)
    case ReadReceipt(h) =>
      var it := s.handlers[h];
      Put(s, h, it.(phase := Answered(Replay(Lookup(s.receipts, it.request.executionId), it.request))))
    case ReadFails(h) => Put(s, h, s.handlers[h].(phase := Answered(Unavailable)))
    case WritePending(h) =>
      var it := s.handlers[h];
      Put(s, h, it.(phase := Claimed)).(receipts := s.receipts[it.request.executionId := PendingReceipt(it.request)])
    case PendingFails(h, sent) =>
      var it := s.handlers[h];
      Put(s, h, it.(phase := Answered(Unavailable)))
        .(lateWrites := if sent then s.lateWrites + {PendingReceipt(it.request)} else s.lateWrites)
    case RunAction(h) =>
      var it := s.handlers[h];
      Put(s, h, it.(phase := Running)).(runs := s.runs + [it.request.executionId])
    case ActionEnds(h, outcome) => Put(s, h, s.handlers[h].(phase := Ran(outcome), outcome := Some(outcome)))
    case WriteSettled(h) =>
      var it := s.handlers[h];
      Put(s, h, it.(phase := Answered(Fresh(it.phase.outcome))))
        .(receipts := s.receipts[it.request.executionId := SettledReceipt(it.request, it.phase.outcome)])
    case SettleFails(h, sent) =>
      var it := s.handlers[h];
      Put(s, h, it.(phase := Answered(Fresh(it.phase.outcome))))
        .(lateWrites := if sent then s.lateWrites + {SettledReceipt(it.request, it.phase.outcome)} else s.lateWrites)
    case Crash(h) => Put(s, h, s.handlers[h].(phase := Crashed))
    case LandClaim(id) => s.(claims := s.claims + {id}, lateClaims := s.lateClaims - {id})
    case LandWrite(r) => s.(receipts := s.receipts[r.executionId := r], lateWrites := s.lateWrites - {r})
    case ExpireClaim(id) => s.(claims := s.claims - {id})
    case ExpireReceipt(id) => s.(receipts := s.receipts - {id})
  }

  /** A store as earlier processes left it: every receipt has its claim key. */
  predicate Inherited(s: State) {
    && s.handlers == [] && s.lateClaims == {} && s.lateWrites == {} && s.runs == []
    && (forall id :: id in s.receipts ==> id in s.claims && s.receipts[id].executionId == id)
  }

  ghost predicate Reaches(start: State, events: seq<Event>, s: State)
    decreases |events|
  {
    if events == [] then s == start
    else
      var n := |events| - 1;
      exists before: State :: Reaches(start, events[..n], before) && Enabled(before, events[n]) && s == Next(before, events[n])
  }

  /** What can go wrong: a handler may crash at any time and then moves no more; each key may expire while it is there,
      and then it is gone and no other is. */
  lemma FaultsMayHappen(s: State, h: nat, id: nat)
    ensures h < |s.handlers| ==> Enabled(s, Crash(h)) && Next(s, Crash(h)).handlers[h].phase.Crashed?
    ensures At(s, h, Crashed) ==> forall e :: Enabled(s, e) && Mover(e) == Some(h) ==> e == Crash(h)
    ensures Enabled(s, ExpireClaim(id)) <==> id in s.claims
    ensures id in s.claims ==> Next(s, ExpireClaim(id)) == s.(claims := s.claims - {id})
    ensures Enabled(s, ExpireReceipt(id)) <==> id in s.receipts
    ensures id in s.receipts ==>
              var t := Next(s, ExpireReceipt(id));
              t == s.(receipts := t.receipts) && id !in t.receipts
              && forall k :: k != id ==> Lookup(t.receipts, k) == Lookup(s.receipts, k)
  {}

  // ---- the claim: at most one winner, at most one run ----

  predicate Mine(s: State, i: nat, id: nat) { i < |s.handlers| && s.handlers[i].request.executionId == id }

  predicate Won(s: State, i: nat, id: nat) { Mine(s, i, id) && s.handlers[i].won }

  function Count(runs: seq<nat>, id: nat): nat {
    if runs == [] then 0 else Count(runs[..|runs| - 1], id) + (if runs[|runs| - 1] == id then 1 else 0)
  }

  /** What a handler's phase says about its claim: `held` is the claim key, `ran` the runs so far. */
  predicate ClaimOk(it: Handler, held: bool, ran: nat) {
    && (it.won ==> held)
    && (it.phase == KeyWon || it.phase == Claimed ==> it.won && ran == 0)
    && (it.phase == Running || it.phase.Ran? ==> it.won)
    && (it.phase == Ready ==> !it.won)
  }

  ghost predicate ClaimInv(s: State, id: nat) {
    && Count(s.runs, id) <= 1
    && (Count(s.runs, id) > 0 ==> id in s.claims)
    && (forall i: nat :: Mine(s, i, id) ==> ClaimOk(s.handlers[i], id in s.claims, Count(s.runs, id)))
    && (forall i: nat, j: nat :: Won(s, i, id) && Won(s, j, id) ==> i == j)
  }

  lemma CountSnoc(runs: seq<nat>, x: nat, id: nat)
    ensures Count(runs + [x], id) == Count(runs, id) + (if x == id then 1 else 0)
  {
    var all := runs + [x];
    assert all[..|all| - 1] == runs;
  }

  /** The handler an event moves. */
  function Mover(e: Event): Option<nat> {
    match e
    case WinKey(h) => Some(h)
    case LoseKey(h) => Some(h)
    case KeyFails(h, _) => Some(h)
    case ReadReceipt(h) => Some(h)
    case ReadFails(h) => Some(h)
    case WritePending(h) => Some(h)
    case PendingFails(h, _) => Some(h)
    case RunAction(h) => Some(h)
    case ActionEnds(h, _) => Some(h)
    case WriteSettled(h) => Some(h)
    case SettleFails(h, _) => Some(h)
    case Crash(h) => Some(h)
    case _ => None
  }

  /** An event touches the handler it moves and no other; a new handler starts ready. */
  lemma OneMoves(s: State, e: Event, i: nat)
    requires Enabled(s, e) && i < |Next(s, e).handlers|
    ensures i == |s.handlers| ==> e.Arrive? && Next(s, e).handlers[i] == Handler(e.request, Ready, false, None)
    ensures i < |s.handlers| ==> Next(s, e).handlers[i].request == s.handlers[i].request
    ensures i < |s.handlers| && Mover(e) != Some(i) ==> Next(s, e).handlers[i] == s.handlers[i]
    ensures i <= |s.handlers|
  {}

  lemma RunsStep(s: State, e: Event, id: nat)
    requires Enabled(s, e)
    ensures Count(Next(s, e).runs, id)
         == Count(s.runs, id) + (if e.RunAction? && s.handlers[e.h].request.executionId == id then 1 else 0)
  {
    hide Count;
    if e.RunAction? { CountSnoc(s.runs, s.handlers[e.h].request.executionId, id); }
  }

  lemma WinnerStep(s: State, e: Event, id: nat, i: nat)
    requires ClaimInv(s, id) && Enabled(s, e) && Won(Next(s, e), i, id)
    ensures Won(s, i, id) || (e == WinKey(i) && id !in s.claims)
  {
    hide Count;
    OneMoves(s, e, i);
  }

  lemma ClaimOkStep(s: State, e: Event, id: nat, i: nat)
    requires ClaimInv(s, id) && Enabled(s, e) && e != ExpireClaim(id) && Mine(Next(s, e), i, id)
    ensures ClaimOk(Next(s, e).handlers[i], id in Next(s, e).claims, Count(Next(s, e).runs, id))
  {
    hide Count;
    RunsStep(s, e, id);
    OneMoves(s, e, i);
    if i < |s.handlers| {
      assert Mine(s, i, id);
      if e.RunAction? && i != e.h {
        assert Mine(s, e.h, s.handlers[e.h].request.executionId);
        assert !(Won(s, i, id) && Won(s, e.h, id));
      }
    }
  }

  lemma ClaimStep(s: State, e: Event, id: nat)
    requires ClaimInv(s, id) && Enabled(s, e) && e != ExpireClaim(id)
    ensures ClaimInv(Next(s, e), id)
  {
    hide Count;
    var t := Next(s, e);
    RunsStep(s, e, id);
    if e.RunAction? { assert Mine(s, e.h, s.handlers[e.h].request.executionId); }
    forall i: nat | Mine(t, i, id) ensures ClaimOk(t.handlers[i], id in t.claims, Count(t.runs, id)) {
      ClaimOkStep(s, e, id, i);
    }
    forall i: nat, j: nat | Won(t, i, id) && Won(t, j, id) ensures i == j {
      WinnerStep(s, e, id, i);
      WinnerStep(s, e, id, j);
      assert Mine(s, i, id) && Mine(s, j, id);
    }
  }

  lemma {:induction false} RunsKeepClaim(start: State, events: seq<Event>, s: State, id: nat)
    requires Inherited(start) && Reaches(start, events, s) && ExpireClaim(id) !in events
    ensures ClaimInv(s, id)
    decreases |events|
  {
    if events != [] {
      var n := |events| - 1;
      var before: State :| Reaches(start, events[..n], before) && Enabled(before, events[n]) && s == Next(before, events[n]);
      RunsKeepClaim(start, events[..n], before, id);
      ClaimStep(before, events[n], id);
    }
  }

  /** While the claim key lives, the action of an execution id runs at most once, over every interleaving of
      handlers, crashes and store failures. */
  lemma AtMostOnce(start: State, events: seq<Event>, s: State, id: nat)
    requires Inherited(start) && Reaches(start, events, s) && ExpireClaim(id) !in events
    ensures Count(s.runs, id) <= 1
  {
    RunsKeepClaim(start, events, s, id);
  }

  // ---- the receipt: nothing, then pending, then one final value ----

  /** A receipt that this handler's call would write. */
  predicate WrittenBy(r: Receipt, it: Handler) {
    || r == PendingReceipt(it.request)
    || (it.outcome.Some? && Settleable(it.outcome.value) && r == SettledReceipt(it.request, it.outcome.value))
  }

  predicate NoneLate(s: State, id: nat) { forall r :: r in s.lateWrites ==> r.executionId != id }

  /** What a handler's phase says about the stored receipt; `quiet` when no write for the id is in flight. */
  predicate ReceiptOk(it: Handler, stored: Option<Receipt>, quiet: bool) {
    && (it.phase == KeyWon ==> stored == None && quiet)
    && (it.phase == Claimed || it.phase == Running || it.phase.Ran? ==> stored == Some(PendingReceipt(it.request)) && quiet)
    && (it.phase == Ready || it.phase == KeyWon || it.phase == Claimed || it.phase == Running ==> it.outcome == None)
    && (it.phase.Ran? ==> it.outcome == Some(it.phase.outcome))
    && (it.won && stored.Some? ==> WrittenBy(stored.value, it))
  }

  /** A write in flight is the next one the receipt waits for. */
  predicate LateOk(r: Receipt, stored: Option<Receipt>) {
    if r.status.Pending? then stored == None else stored == Some(r.(status := Pending))
  }

  ghost predicate ReceiptInv(s: State, id: nat) {
    var stored := Lookup(s.receipts, id);
    && (stored.Some? || !NoneLate(s, id) ==> id in s.claims)
    && (forall i: nat :: Mine(s, i, id) ==> ReceiptOk(s.handlers[i], stored, NoneLate(s, id)))
    && (forall r :: r in s.lateWrites && r.executionId == id ==> LateOk(r, stored))
    && (forall i: nat, r :: Won(s, i, id) && r in s.lateWrites && r.executionId == id ==> WrittenBy(r, s.handlers[i]))
    && (forall r, q :: r in s.lateWrites && q in s.lateWrites && r.executionId == id && q.executionId == id ==> r == q)
  }

  /** Only the winner writes, and only in its turn. */
  lemma WriterIsWinner(s: State, e: Event, id: nat)
    requires ClaimInv(s, id) && Enabled(s, e)
    requires e.WritePending? || e.PendingFails? || e.WriteSettled? || e.SettleFails?
    requires s.handlers[e.h].request.executionId == id
    ensures Won(s, e.h, id)
    ensures forall i: nat :: Won(s, i, id) ==> i == e.h
  {
    hide Count;
    assert Mine(s, e.h, id);
  }

  ghost predicate Both(s: State, id: nat) { ClaimInv(s, id) && ReceiptInv(s, id) }

  /** The steps that write the receipt of `id`, or leave a write of it in flight. */
  predicate Writes(s: State, e: Event, id: nat)
    requires Enabled(s, e)
  {
    match e
    case WritePending(h) => s.handlers[h].request.executionId == id
    case PendingFails(h, _) => s.handlers[h].request.executionId == id
    case WriteSettled(h) => s.handlers[h].request.executionId == id
    case SettleFails(h, _) => s.handlers[h].request.executionId == id
    case LandWrite(r) => r.executionId == id
    case ExpireReceipt(x) => x == id
    case _ => false
  }

  lemma Untouched(s: State, e: Event, id: nat)
    requires Enabled(s, e) && !Writes(s, e, id)
    ensures Lookup(Next(s, e).receipts, id) == Lookup(s.receipts, id)
    ensures forall r: Receipt :: r.executionId == id ==> (r in Next(s, e).lateWrites <==> r in s.lateWrites)
    ensures NoneLate(Next(s, e), id) == NoneLate(s, id)
  {
    var t := Next(s, e);
    assert forall r: Receipt :: r.executionId == id ==> (r in t.lateWrites <==> r in s.lateWrites);
  }

  /** A handler that an event other than a write moves keeps what its phase says. */
  lemma ReceiptOkUntouched(s: State, e: Event, id: nat, i: nat)
    requires Both(s, id) && Enabled(s, e) && !Writes(s, e, id) && Mine(Next(s, e), i, id)
    ensures ReceiptOk(Next(s, e).handlers[i], Lookup(s.receipts, id), NoneLate(s, id))
    ensures Won(Next(s, e), i, id) ==> Won(s, i, id) || (Lookup(s.receipts, id) == None && NoneLate(s, id))
    ensures Won(s, i, id) ==> forall r :: WrittenBy(r, s.handlers[i]) ==> WrittenBy(r, Next(s, e).handlers[i])
  {
    hide Count, Lookup, NoneLate;
    OneMoves(s, e, i);
    if i < |s.handlers| { assert Mine(s, i, id); }
  }

  lemma ReceiptUntouched(s: State, e: Event, id: nat)
    requires Both(s, id) && Enabled(s, e) && !Writes(s, e, id) && e != ExpireClaim(id)
    ensures ReceiptInv(Next(s, e), id)
  {
    var t := Next(s, e);
    Untouched(s, e, id);
    forall i: nat | Mine(t, i, id)
      ensures ReceiptOk(t.handlers[i], Lookup(t.receipts, id), NoneLate(t, id))
      ensures Won(t, i, id) ==> Won(s, i, id) || NoneLate(s, id)
      ensures Won(s, i, id) ==> forall r :: WrittenBy(r, s.handlers[i]) ==> WrittenBy(r, t.handlers[i])
    {
      ReceiptOkUntouched(s, e, id, i);
    }
    hide Next, Lookup, ReceiptOk, LateOk, WrittenBy, ClaimInv;
  }

  /** The winner writes its pending or settled receipt. */
  lemma ReceiptWritten(s: State, e: Event, id: nat)
    requires Both(s, id) && Enabled(s, e) && Writes(s, e, id) && (e.WritePending? || e.WriteSettled?)
    ensures ReceiptInv(Next(s, e), id)
  {
    hide Count;
    var t := Next(s, e);
    WriterIsWinner(s, e, id);
    var it := s.handlers[e.h];
    assert Mine(s, e.h, id) && Won(s, e.h, id);
    assert NoneLate(s, id) && NoneLate(t, id);
    forall i: nat | Mine(t, i, id) ensures ReceiptOk(t.handlers[i], Lookup(t.receipts, id), true) {
      OneMoves(s, e, i);
      assert Mine(s, i, id);
      if i != e.h { assert !Won(s, i, id); }
    }
  }

  /** The winner gives up on a write, which may still land. */
  lemma ReceiptGivenUp(s: State, e: Event, id: nat)
    requires Both(s, id) && Enabled(s, e) && Writes(s, e, id) && (e.PendingFails? || e.SettleFails?)
    ensures ReceiptInv(Next(s, e), id)
  {
    hide Count;
    var t := Next(s, e);
    WriterIsWinner(s, e, id);
    var it := s.handlers[e.h];
    assert Mine(s, e.h, id) && Won(s, e.h, id);
    assert NoneLate(s, id);
    forall i: nat | Mine(t, i, id) ensures ReceiptOk(t.handlers[i], Lookup(t.receipts, id), NoneLate(t, id)) {
      OneMoves(s, e, i);
      assert Mine(s, i, id);
      if i != e.h { assert !Won(s, i, id); }
    }
    forall i: nat | Won(t, i, id) ensures i == e.h {
      OneMoves(s, e, i);
      assert Won(s, i, id);
    }
    var written := if e.PendingFails? then PendingReceipt(it.request) else SettledReceipt(it.request, it.phase.outcome);
    assert e.sent ==> WrittenBy(written, t.handlers[e.h]) && LateOk(written, Lookup(t.receipts, id));
    assert forall r :: r in t.lateWrites && r.executionId == id ==> r == written;
  }

  /** A late write lands. */
  lemma ReceiptLands(s: State, r: Receipt)
    requires Both(s, r.executionId) && r in s.lateWrites
    ensures ReceiptInv(Next(s, LandWrite(r)), r.executionId)
  {
    hide Count;
    var e, id := LandWrite(r), r.executionId;
    var t := Next(s, e);
    assert !NoneLate(s, id);
    assert NoneLate(t, id);
    forall i: nat | Mine(t, i, id) ensures ReceiptOk(t.handlers[i], Lookup(t.receipts, id), true) {
      assert Mine(s, i, id);
    }
  }

  lemma BothStep(s: State, e: Event, id: nat)
    requires Both(s, id) && Enabled(s, e) && e != ExpireClaim(id) && e != ExpireReceipt(id)
    ensures Both(Next(s, e), id)
  {
    hide ClaimInv, ReceiptInv, Next;
    ClaimStep(s, e, id);
    if !Writes(s, e, id) { ReceiptUntouched(s, e, id); }
    else if e.LandWrite? { ReceiptLands(s, e.receipt); }
    else if e.WritePending? || e.WriteSettled? { ReceiptWritten(s, e, id); }
    else { ReceiptGivenUp(s, e, id); }
  }

  lemma {:induction false} RunsKeepBoth(start: State, events: seq<Event>, s: State, id: nat)
    requires Inherited(start) && Reaches(start, events, s) && ExpireClaim(id) !in events && ExpireReceipt(id) !in events
    ensures Both(s, id)
    decreases |events|
  {
    if events != [] {
      hide ClaimInv, ReceiptInv, Next, Enabled;
      var n := |events| - 1;
      var before: State :| Reaches(start, events[..n], before) && Enabled(before, events[n]) && s == Next(before, events[n]);
      RunsKeepBoth(start, events[..n], before, id);
      BothStep(before, events[n], id);
    }
  }

  /** A settled receipt follows a pending one of the same request. */
  predicate Settles(before: Receipt, after: Receipt) {
    before.status.Pending? && !after.status.Pending? && after.(status := Pending) == before
  }

  /** While its keys live, a receipt moves only from nothing to pending to one final value. */
  lemma ReceiptMovesForward(start: State, events: seq<Event>, s: State, e: Event, id: nat)
    requires Inherited(start) && Reaches(start, events, s) && Enabled(s, e)
    requires ExpireClaim(id) !in events && ExpireReceipt(id) !in events && e != ExpireReceipt(id)
    ensures var before, after := Lookup(s.receipts, id), Lookup(Next(s, e).receipts, id);
            || before == after
            || (before == None && after.Some? && after.value.status.Pending?)
            || (before.Some? && after.Some? && Settles(before.value, after.value))
  {
    hide Reaches, Count;
    RunsKeepBoth(start, events, s, id);
    if !Writes(s, e, id) { Untouched(s, e, id); }
    else if e.WritePending? || e.WriteSettled? {
      WriterIsWinner(s, e, id);
      assert Mine(s, e.h, id);
    }
  }

  /** What a repeat is told once another call `w` holds the claim. A matching hash gets the outcome `w` settled, or
      "in progress" before that. A different hash is refused exactly when `w` has stored its receipt: before that
      (or for ever, when `w` stopped between its two writes) it too is told "in progress". */
  lemma AnswerToARepeat(start: State, events: seq<Event>, s: State, w: nat, h: nat, id: nat)
    requires Inherited(start) && Reaches(start, events, s) && ExpireClaim(id) !in events && ExpireReceipt(id) !in events
    requires Won(s, w, id) && Mine(s, h, id) && Enabled(s, ReadReceipt(h))
    ensures var holder, r, answer := s.handlers[w], s.handlers[h].request, Next(s, ReadReceipt(h)).handlers[h].phase.answer;
            if r.requestHash != holder.request.requestHash then
              answer == if id in s.receipts then Stale else InProgress
            else if id in s.receipts && !s.receipts[id].status.Pending? then
              holder.outcome.Some? && answer == Repeated(SettledReceipt(holder.request, holder.outcome.value))
            else answer == InProgress
  {
    hide Reaches, Count;
    RunsKeepBoth(start, events, s, id);
    assert Mine(s, w, id);
  }

  /** An outcome outside the receipt schema, as a message of more than 2000 characters is, never settles: the receipt
      stays pending and every repeat of the request is told "in progress". */
  lemma UnstorableStaysPending(start: State, events: seq<Event>, s: State, w: nat, h: nat, id: nat)
    requires Inherited(start) && Reaches(start, events, s) && ExpireClaim(id) !in events && ExpireReceipt(id) !in events
    requires Won(s, w, id) && s.handlers[w].outcome.Some? && !Settleable(s.handlers[w].outcome.value)
    ensures id in s.receipts ==> s.receipts[id] == PendingReceipt(s.handlers[w].request)
    ensures Mine(s, h, id) && Enabled(s, ReadReceipt(h)) && s.handlers[h].request.requestHash == s.handlers[w].request.requestHash ==>
              Next(s, ReadReceipt(h)).handlers[h].phase == Answered(InProgress)
  {
    hide Reaches, Count;
    RunsKeepBoth(start, events, s, id);
    assert Mine(s, w, id);
  }

  /** Another request is not refused while no receipt is stored: the winner has the claim key and has not written its
      pending receipt, and the other request is told "in progress". */
  lemma RefusalNeedsAReceipt(a: Request, b: Request)
    returns (start: State, events: seq<Event>, s: State)
    requires a.executionId == b.executionId && a.requestHash != b.requestHash
    ensures Inherited(start) && Reaches(start, events, s) && Won(s, 0, a.executionId) && Mine(s, 1, a.executionId)
    ensures s.handlers[0].request == a && s.handlers[1].request == b
    ensures Enabled(s, ReadReceipt(1)) && Next(s, ReadReceipt(1)).handlers[1].phase == Answered(InProgress)
  {
    hide Reaches;
    start := State({}, map[], [], {}, {}, []);
    var two := Next(Next(start, Arrive(a)), Arrive(b));
    assert two.handlers == [Waiting(a), Waiting(b)];
    var won := Next(two, WinKey(0));
    s := Next(won, LoseKey(1));
    events := [] + [Arrive(a)] + [Arrive(b)] + [WinKey(0)] + [LoseKey(1)];
    Nothing(start);
    Extend(start, [], start, Arrive(a));
    Extend(start, [] + [Arrive(a)], Next(start, Arrive(a)), Arrive(b));
    Extend(start, [] + [Arrive(a)] + [Arrive(b)], two, WinKey(0));
    Extend(start, [] + [Arrive(a)] + [Arrive(b)] + [WinKey(0)], won, LoseKey(1));
  }

  // ---- ids that an earlier process left behind ----

  /** Nobody here holds the id: its claim key and receipt are as they were found. */
  ghost predicate LeftBehind(s: State, id: nat, stored: Option<Receipt>) {
    && id in s.claims && Lookup(s.receipts, id) == stored && NoneLate(s, id) && Count(s.runs, id) == 0
    && forall i: nat :: Mine(s, i, id) ==> LockedOut(s, i, id)
  }

  lemma LeftBehindStep(s: State, e: Event, id: nat, stored: Option<Receipt>)
    requires LeftBehind(s, id, stored) && Enabled(s, e) && e != ExpireClaim(id) && e != ExpireReceipt(id)
    ensures LeftBehind(Next(s, e), id, stored)
  {
    var t := Next(s, e);
    var h := Mover(e);
    if h.Some? { assert Mine(s, h.value, id) ==> LockedOut(s, h.value, id); }
    assert !Writes(s, e, id);
    Untouched(s, e, id);
    RunsStep(s, e, id);
    forall i: nat | Mine(t, i, id) ensures LockedOut(t, i, id) {
      OneMoves(s, e, i);
      if i < |s.handlers| {
        assert Mine(s, i, id);
        LockedOutStep(s, e, i, id);
      }
    }
  }

  lemma {:induction false} RunsKeepLeftBehind(start: State, events: seq<Event>, s: State, id: nat)
    requires Inherited(start) && id in start.claims && Reaches(start, events, s)
    requires ExpireClaim(id) !in events && ExpireReceipt(id) !in events
    ensures LeftBehind(s, id, Lookup(start.receipts, id))
    decreases |events|
  {
    if events != [] {
      hide LeftBehind, Next, Enabled, Lookup;
      var n := |events| - 1;
      var before: State :| Reaches(start, events[..n], before) && Enabled(before, events[n]) && s == Next(before, events[n]);
      RunsKeepLeftBehind(start, events[..n], before, id);
      LeftBehindStep(before, events[n], id, Lookup(start.receipts, id));
    }
  }

  /** An id that an earlier process claimed never runs here, its receipt never changes, and every call is answered from
      it: "in progress" without a receipt; refused for another request, which a receipt without a hash knows by its
      action id alone; "in progress" while pending; else the stored outcome. */
  lemma AnswerFromAnEarlierProcess(start: State, events: seq<Event>, s: State, h: nat, id: nat)
    requires Inherited(start) && id in start.claims && Reaches(start, events, s)
    requires ExpireClaim(id) !in events && ExpireReceipt(id) !in events
    ensures Count(s.runs, id) == 0 && Lookup(s.receipts, id) == Lookup(start.receipts, id)
    ensures Mine(s, h, id) && Enabled(s, ReadReceipt(h)) ==>
              var r, answer := s.handlers[h].request, Next(s, ReadReceipt(h)).handlers[h].phase.answer;
              && (answer == InProgress <==>
                    id !in start.receipts
                    || (start.receipts[id].status.Pending? && answer != Stale))
              && (answer == Stale <==>
                    id in start.receipts
                    && var found := start.receipts[id];
                       if found.requestHash.None? then found.actionId != r.actionId
                       else found.requestHash != Some(r.requestHash))
              && (answer.Repeated? ==> answer.receipt == start.receipts[id] && !answer.receipt.status.Pending?)
  {
    hide Reaches, Count;
    RunsKeepLeftBehind(start, events, s, id);
  }

  // ---- a repeat never runs ----

  /** A handler that cannot win: it has not won, and the key is held. */
  predicate LockedOut(s: State, h: nat, id: nat) {
    && Mine(s, h, id) && id in s.claims && !s.handlers[h].won
    && match s.handlers[h].phase
       case Ready => true
       case KeyLost => true
       case Crashed => true
       case Answered(answer) => !answer.Fresh?
       case _ => false
  }

  lemma LockedOutStep(s: State, e: Event, h: nat, id: nat)
    requires LockedOut(s, h, id) && Enabled(s, e) && e != ExpireClaim(id)
    ensures LockedOut(Next(s, e), h, id)
  {}

  /** From the moment an execution id is held, no other handler ever runs its action, whatever happens next. */
  lemma {:induction false} RepeatNeverRuns(s: State, events: seq<Event>, t: State, h: nat, id: nat)
    requires Reaches(s, events, t) && ExpireClaim(id) !in events
    requires Mine(s, h, id) && s.handlers[h].phase == Ready && !s.handlers[h].won && id in s.claims
    ensures LockedOut(t, h, id)
    decreases |events|
  {
    if events != [] {
      hide LockedOut, Enabled, Next;
      var n := |events| - 1;
      var before: State :| Reaches(s, events[..n], before) && Enabled(before, events[n]) && t == Next(before, events[n]);
      RepeatNeverRuns(s, events[..n], before, h, id);
      LockedOutStep(before, events[n], h, id);
    }
  }

  /** This handler was told that another call holds its id. */
  predicate ToldHeld(it: Handler) {
    it.phase == KeyLost || (it.phase.Answered? && (it.phase.answer.Stale? || it.phase.answer.InProgress? || it.phase.answer.Repeated?))
  }

  lemma ToldHeldStep(s: State, e: Event, h: nat, id: nat)
    requires Enabled(s, e) && e != ExpireClaim(id) && Mine(Next(s, e), h, id) && ToldHeld(Next(s, e).handlers[h])
    requires Mine(s, h, id) && ToldHeld(s.handlers[h]) ==> id in s.claims
    ensures id in Next(s, e).claims
  {
    OneMoves(s, e, h);
  }

  /** Only a claimed id is refused, told "in progress" or answered from a receipt; a first call never is. */
  lemma {:induction false} HeldOnlyWhenClaimed(start: State, events: seq<Event>, s: State, h: nat, id: nat)
    requires Inherited(start) && Reaches(start, events, s) && ExpireClaim(id) !in events
    requires Mine(s, h, id) && ToldHeld(s.handlers[h])
    ensures id in s.claims
    decreases |events|
  {
    if events != [] {
      hide Enabled, Next, ToldHeld;
      var n := |events| - 1;
      var before: State :| Reaches(start, events[..n], before) && Enabled(before, events[n]) && s == Next(before, events[n]);
      if Mine(before, h, id) && ToldHeld(before.handlers[h]) { HeldOnlyWhenClaimed(start, events[..n], before, h, id); }
      ToldHeldStep(before, events[n], h, id);
    }
  }

  // ---- responses ----

  /** What goes back to the caller; data without JSON is left out of the body. */
  datatype Response = Data(result: Option<nat>) | Refusal(body: ErrorBody)

  function FreshResponse(outcome: ActionResult): Response {
    match outcome
    case Returned(result) => Data(result)
    case Ended(problem) => Refusal(ErrorResponse(problem))
  }

  /** The response to a repeat, from the settled receipt. */
  function RepeatedResponse(receipt: Receipt): Response
    requires !receipt.status.Pending?
  {
    match receipt.status
    case Applied(result) => Data(Some(result))
    case FailedWith(error) => Refusal(ErrorResponse(Replayed(error)))
  }

  /** The same data, or an error of the same status, code and message. */
  predicate SameResponse(a: Response, b: Response) {
    if a.Data? then a == b else b.Refusal? && Alike(a.body, b.body)
  }

  /** A settled receipt says what happened: applied with the data answered, or with null when there was none or the
      action broke its own output schema (ARKI_ADMIN_E005); failed with exactly the code and message answered, and with
      the status answered when it holds one. */
  lemma ReceiptTellsTheOutcome(r: Request, outcome: ActionResult)
    ensures var receipt := SettledReceipt(r, outcome);
            && receipt.(status := Pending) == PendingReceipt(r)
            && (receipt.status.Applied? <==> outcome.Returned? || (outcome.problem.AdminError? && outcome.problem.number == 5))
            && (receipt.status.Applied? ==>
                  receipt.status.result == if outcome.Returned? && outcome.result.Some? then outcome.result.value else NULL)
            && (receipt.status.FailedWith? ==>
                  var answered := ErrorResponse(outcome.problem);
                  && receipt.status.error.code == answered.code && receipt.status.error.message == answered.message
                  && (receipt.status.error.status.Some? ==> receipt.status.error.status.value == answered.status))
  {}

  /** A repeat reads the response of the first call exactly when that was data with JSON, or a failure whose code and
      status go together (`Repeatable`). An action that broke its output schema answers an error first and null data
      on the repeat. */
  lemma RepeatReadsTheSameResponse(r: Request, outcome: ActionResult)
    ensures SameResponse(RepeatedResponse(SettledReceipt(r, outcome)), FreshResponse(outcome))
       <==> if outcome.Returned? then outcome.result.Some? else Repeatable(outcome.problem)
  {
    hide PublicErrorOf, ErrorResponse, Replayed, Alike;
    if outcome.Ended? { RepeatAnswersAlike(outcome.problem); }
  }

  // ---- the claim key must live ----

  lemma Extend(start: State, events: seq<Event>, s: State, e: Event)
    requires Reaches(start, events, s) && Enabled(s, e)
    ensures Reaches(start, events + [e], Next(s, e))
  {
    hide Enabled, Next;
    assert (events + [e])[..|events|] == events;
  }

  lemma Nothing(s: State)
    ensures Reaches(s, [], s)
  {}

  lemma Three(s: State, e: Event, f: Event, g: Event)
    requires Enabled(s, e) && Enabled(Next(s, e), f) && Enabled(Next(Next(s, e), f), g)
    ensures Reaches(s, [e, f, g], Next(Next(Next(s, e), f), g))
  {
    hide *;
    Nothing(s);
    Extend(s, [], s, e);
    assert [] + [e] == [e];
    Extend(s, [e], Next(s, e), f);
    assert [e] + [f] == [e, f];
    Extend(s, [e, f], Next(Next(s, e), f), g);
    assert [e, f] + [g] == [e, f, g];
  }

  /** The condition of `AtMostOnce` is exact: in any state where the key of an execution id is gone, a waiting
      handler can go on to run the action, however often it ran before. */
  lemma ExpiredClaimRunsAgain(s: State, h: nat, id: nat)
    requires Mine(s, h, id) && s.handlers[h].phase == Ready && id !in s.claims
    ensures exists events, t :: Reaches(s, events, t) && Count(t.runs, id) == Count(s.runs, id) + 1
  {
    hide Count, Reaches, PendingReceipt;
    var a := Next(s, WinKey(h));
    var b := Next(a, WritePending(h));
    var t := Next(b, RunAction(h));
    assert t.runs == s.runs + [id];
    CountSnoc(s.runs, id, id);
    Three(s, WinKey(h), WritePending(h), RunAction(h));
    assert Reaches(s, [WinKey(h), WritePending(h), RunAction(h)], t);
  }

  // ---- the store object and one handler's call ----

  /** How a call to the store ends; a lost write may have been sent. */
  datatype Fault = Works | Lost(sent: bool)

  datatype Claim = ClaimThrew | Took | Held(receipt: Option<Receipt>)

  /** `kvReceiptStore` over its two keys per execution id. */
  class KvReceiptStore {
    var claims: set<nat>
    var values: map<nat, Receipt>

    constructor ()
      ensures claims == {} && values == map[]
    {
      claims, values := {}, map[];
    }

    /** `kv.setIfNotExists` on the claim key; none when the store failed. */
    method SetIfNotExists(id: nat, fault: Fault) returns (took: Option<bool>)
      modifies this`claims
      ensures fault == Works ==> took == Some(id !in old(claims)) && claims == old(claims) + {id}
      ensures fault.Lost? ==> took == None && claims == if fault.sent then old(claims) + {id} else old(claims)
    {
      if fault.Lost? {
        if fault.sent { claims := claims + {id}; }
        return None;
      }
      took := Some(id !in claims);
      claims := claims + {id};
    }

    /** `kv.set` on the receipt key. */
    method Set(receipt: Receipt, fault: Fault) returns (threw: bool)
      modifies this`values
      ensures threw == fault.Lost?
      ensures values == if fault == Lost(false) then old(values) else old(values)[receipt.executionId := receipt]
    {
      if fault != Lost(false) { values := values[receipt.executionId := receipt]; }
      threw := fault.Lost?;
    }

    /** `claim`: the key first, then the pending receipt; a held key answers what is stored. */
    method TakeClaim(r: Request, key: Fault, read: Fault, write: Fault) returns (claim: Claim)
      modifies this
      ensures key.Lost? ==>
                claim == ClaimThrew && values == old(values)
                && claims == if key.sent then old(claims) + {r.executionId} else old(claims)
      ensures key == Works && r.executionId in old(claims) ==>
                claims == old(claims) && values == old(values)
                && claim == if read.Lost? then ClaimThrew else Held(Lookup(values, r.executionId))
      ensures key == Works && r.executionId !in old(claims) ==>
                claims == old(claims) + {r.executionId}
                && claim == (if write.Lost? then ClaimThrew else Took)
                && values == if write == Lost(false) then old(values) else old(values)[r.executionId := PendingReceipt(r)]
    {
      var took := SetIfNotExists(r.executionId, key);
      if took == None { return ClaimThrew; }
      if !took.value {
        if read.Lost? { return ClaimThrew; }
        return Held(Lookup(values, r.executionId));
      }
      var threw := Set(PendingReceipt(r), write);
      claim := if threw then ClaimThrew else Took;
    }

    /** `executeOnce` without interleaving is a run of the transition system. `outcome` is what the action gives
        if it is run; `ran` says whether it was. */
    method ExecuteOnce(r: Request, key: Fault, read: Fault, write: Fault, outcome: ActionResult, settle: Fault)
      returns (answer: Answer, ran: bool, ghost events: seq<Event>, ghost end: Handler)
      modifies this
      ensures end.request == r && end.phase == Answered(answer)
      ensures Reaches(Alone(old(claims), old(values), Waiting(r), []), events,
                      Alone(claims, values, end, if ran then [r.executionId] else []))
      ensures ran <==> key == Works && write == Works && r.executionId !in old(claims)
      ensures ran ==> answer == Fresh(outcome) && end.outcome == Some(outcome)
    {
      hide Reaches, Replay, Lookup;
      var claim := TakeClaim(r, key, read, write);
      match claim
      case ClaimThrew =>
        answer, ran := Unavailable, false;
        if key.Lost? {
          events, end := KeyFailsTrail(old(claims), old(values), r, key.sent);
        } else if r.executionId in old(claims) {
          events, end := ReadFailsTrail(old(claims), old(values), r);
        } else {
          events, end := PendingFailsTrail(old(claims), old(values), r, write.sent);
        }
      case Held(stored) =>
        answer, ran := Replay(stored, r), false;
        events, end := RepeatTrail(old(claims), old(values), r);
      case Took =>
        answer, ran := Fresh(outcome), true;
        ghost var before, running := RunTrail(old(claims), old(values), r, outcome);
        ghost var s := Alone(claims, values, running, [r.executionId]);
        var fault := if Settleable(outcome) then settle else Lost(false);
        events, end := SettleTrail(Alone(old(claims), old(values), Waiting(r), []), before, s, outcome, fault);
        var threw := Set(SettledReceipt(r, outcome), fault);
    }
  }

  function Waiting(r: Request): Handler { Handler(r, Ready, false, None) }

  /** One handler and its store, with nothing in flight. */
  function Alone(claims: set<nat>, receipts: map<nat, Receipt>, it: Handler, runs: seq<nat>): State {
    State(claims, receipts, [it], {}, {}, runs)
  }

  lemma KeyFailsTrail(claims: set<nat>, receipts: map<nat, Receipt>, r: Request, sent: bool)
    returns (events: seq<Event>, end: Handler)
    ensures end == Waiting(r).(phase := Answered(Unavailable))
    ensures Reaches(Alone(claims, receipts, Waiting(r), []), events,
                    Alone(if sent then claims + {r.executionId} else claims, receipts, end, []))
  {
    hide Reaches;
    var start := Alone(claims, receipts, Waiting(r), []);
    end := Waiting(r).(phase := Answered(Unavailable));
    events := [KeyFails(0, sent)];
    Nothing(start);
    Extend(start, [], start, KeyFails(0, sent));
    var s := Next(start, KeyFails(0, sent));
    assert [] + [KeyFails(0, sent)] == events;
    assert s.handlers == [end];
    if sent {
      Extend(start, events, s, LandClaim(r.executionId));
      events := events + [LandClaim(r.executionId)];
      assert s.lateClaims - {r.executionId} == {};
    }
  }

  lemma ReadFailsTrail(claims: set<nat>, receipts: map<nat, Receipt>, r: Request)
    returns (events: seq<Event>, end: Handler)
    requires r.executionId in claims
    ensures end == Waiting(r).(phase := Answered(Unavailable))
    ensures Reaches(Alone(claims, receipts, Waiting(r), []), events, Alone(claims, receipts, end, []))
  {
    hide Reaches;
    var start := Alone(claims, receipts, Waiting(r), []);
    end := Waiting(r).(phase := Answered(Unavailable));
    Nothing(start);
    Extend(start, [], start, LoseKey(0));
    Extend(start, [] + [LoseKey(0)], Next(start, LoseKey(0)), ReadFails(0));
    events := [] + [LoseKey(0)] + [ReadFails(0)];
    assert Next(Next(start, LoseKey(0)), ReadFails(0)).handlers == [end];
  }

  lemma RepeatTrail(claims: set<nat>, receipts: map<nat, Receipt>, r: Request)
    returns (events: seq<Event>, end: Handler)
    requires r.executionId in claims
    ensures end == Waiting(r).(phase := Answered(Replay(Lookup(receipts, r.executionId), r)))
    ensures Reaches(Alone(claims, receipts, Waiting(r), []), events, Alone(claims, receipts, end, []))
  {
    hide Reaches, Replay, Lookup;
    var start := Alone(claims, receipts, Waiting(r), []);
    end := Waiting(r).(phase := Answered(Replay(Lookup(receipts, r.executionId), r)));
    Nothing(start);
    Extend(start, [], start, LoseKey(0));
    Extend(start, [] + [LoseKey(0)], Next(start, LoseKey(0)), ReadReceipt(0));
    events := [] + [LoseKey(0)] + [ReadReceipt(0)];
    assert Next(Next(start, LoseKey(0)), ReadReceipt(0)).handlers == [end];
  }

  lemma PendingFailsTrail(claims: set<nat>, receipts: map<nat, Receipt>, r: Request, sent: bool)
    returns (events: seq<Event>, end: Handler)
    requires r.executionId !in claims
    ensures end == Handler(r, Answered(Unavailable), true, None)
    ensures Reaches(Alone(claims, receipts, Waiting(r), []), events,
                    Alone(claims + {r.executionId},
                          if sent then receipts[r.executionId := PendingReceipt(r)] else receipts, end, []))
  {
    hide Reaches;
    var start := Alone(claims, receipts, Waiting(r), []);
    end := Handler(r, Answered(Unavailable), true, None);
    Nothing(start);
    Extend(start, [], start, WinKey(0));
    var won := Next(start, WinKey(0));
    Extend(start, [] + [WinKey(0)], won, PendingFails(0, sent));
    events := [] + [WinKey(0)] + [PendingFails(0, sent)];
    var s := Next(won, PendingFails(0, sent));
    assert s.handlers == [end];
    if sent {
      Extend(start, events, s, LandWrite(PendingReceipt(r)));
      events := events + [LandWrite(PendingReceipt(r))];
      assert s.lateWrites - {PendingReceipt(r)} == {};
    }
  }

  lemma RunTrail(claims: set<nat>, receipts: map<nat, Receipt>, r: Request, outcome: ActionResult)
    returns (events: seq<Event>, end: Handler)
    requires r.executionId !in claims
    ensures end == Handler(r, Ran(outcome), true, Some(outcome))
    ensures Reaches(Alone(claims, receipts, Waiting(r), []), events,
                    Alone(claims + {r.executionId}, receipts[r.executionId := PendingReceipt(r)], end, [r.executionId]))
  {
    hide Reaches;
    var start := Alone(claims, receipts, Waiting(r), []);
    end := Handler(r, Ran(outcome), true, Some(outcome));
    Nothing(start);
    Extend(start, [], start, WinKey(0));
    var won := Next(start, WinKey(0));
    Extend(start, [] + [WinKey(0)], won, WritePending(0));
    var claimed := Next(won, WritePending(0));
    Extend(start, [] + [WinKey(0)] + [WritePending(0)], claimed, RunAction(0));
    var running := Next(claimed, RunAction(0));
    Extend(start, [] + [WinKey(0)] + [WritePending(0)] + [RunAction(0)], running, ActionEnds(0, outcome));
    events := [] + [WinKey(0)] + [WritePending(0)] + [RunAction(0)] + [ActionEnds(0, outcome)];
    assert Next(running, ActionEnds(0, outcome)).handlers == [end];
    assert Next(running, ActionEnds(0, outcome)).runs == [r.executionId];
  }

  lemma SettleTrail(start: State, before: seq<Event>, s: State, outcome: ActionResult, settle: Fault)
    returns (events: seq<Event>, end: Handler)
    requires Reaches(start, before, s) && |s.handlers| == 1 && s.handlers[0].phase == Ran(outcome)
    requires s.lateClaims == {} && s.lateWrites == {} && (settle == Lost(false) || Settleable(outcome))
    ensures end == s.handlers[0].(phase := Answered(Fresh(outcome)))
    ensures var r := s.handlers[0].request;
            Reaches(start, events,
                    Alone(s.claims,
                          if settle == Lost(false) then s.receipts
                          else s.receipts[r.executionId := SettledReceipt(r, outcome)], end, s.runs))
  {
    hide Reaches;
    end := s.handlers[0].(phase := Answered(Fresh(outcome)));
    var receipt := SettledReceipt(s.handlers[0].request, outcome);
    if settle == Works {
      Extend(start, before, s, WriteSettled(0));
      events := before + [WriteSettled(0)];
      assert Next(s, WriteSettled(0)).handlers == [end];
    } else {
      Extend(start, before, s, SettleFails(0, settle.sent));
      events := before + [SettleFails(0, settle.sent)];
      var t := Next(s, SettleFails(0, settle.sent));
      assert t.handlers == [end];
      if settle.sent {
        Extend(start, events, t, LandWrite(receipt));
        events := events + [LandWrite(receipt)];
        assert t.lateWrites - {receipt} == {};
      }
    }
  }
}
