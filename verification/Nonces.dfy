/** Replay protection: `memoryForemanStore` (packages/admin/src/foreman-route.ts) and the clock and nonce checks of
    `authenticate` (packages/admin/src/dispatcher.ts). Times are milliseconds of one clock. */
module Nonces {
  import opened Options

  const MAX_CLOCK_SKEW_MS: int := 60_000
  const NONCE_TTL_SECONDS: int := 300

  // ---- the store ----

  /** An entry without an expiry lives forever. */
  datatype Entry = Entry(value: nat, expiresAt: Option<int>)

  predicate Alive(e: Entry, now: int) { e.expiresAt.None? || now < e.expiresAt.value }

  /** What a reader can see at a time. */
  function View(entries: map<nat, Entry>, now: int): map<nat, Entry> {
    map k | k in entries && Alive(entries[k], now) :: entries[k]
  }

  /** The entries look the same from `now` on. */
  ghost predicate SameFrom(a: map<nat, Entry>, b: map<nat, Entry>, now: int) {
    forall t :: now <= t ==> View(a, t) == View(b, t)
  }

  function Expiry(now: int, seconds: Option<int>): Option<int> {
    match seconds
    case None => None
    case Some(s) => Some(now + s * 1000)
  }

  lemma SameFromSelf(entries: map<nat, Entry>, now: int)
    ensures SameFrom(entries, entries, now)
  {}

  lemma SameFromTrans(a: map<nat, Entry>, b: map<nat, Entry>, c: map<nat, Entry>, now: int, later: int)
    requires SameFrom(a, b, now) && SameFrom(b, c, later) && now <= later
    ensures SameFrom(a, c, later)
  {}

  lemma WriteViewAt(a: map<nat, Entry>, b: map<nat, Entry>, key: nat, e: Entry, t: int)
    requires View(a, t) == View(b, t)
    ensures View(a[key := e], t) == View(b[key := e], t)
  {
    var u, v, x, y := View(a, t), View(b, t), View(a[key := e], t), View(b[key := e], t);
    forall k ensures k in x <==> k in y {
      assert k in u <==> k in v;
    }
    forall k | k in x ensures x[k] == y[k] {
      assert k != key ==> u[k] == v[k];
    }
  }

  /** Writing a key changes the views at that key only. */
  lemma WriteView(a: map<nat, Entry>, b: map<nat, Entry>, key: nat, e: Entry, now: int)
    requires SameFrom(a, b, now)
    ensures SameFrom(a[key := e], b[key := e], now)
  {
    var x, y := a[key := e], b[key := e];
    forall t | now <= t ensures View(x, t) == View(y, t) {
      assert View(a, t) == View(b, t);
      WriteViewAt(a, b, key, e, t);
    }
  }

  /** `memoryForemanStore`. The clock is read at each use, so each method takes its readings in order. */
  class MemoryStore {
    var entries: map<nat, Entry>

    constructor ()
      ensures entries == map[]
    {
      entries := map[];
    }

    /** `live`: deletes the entry it finds expired. */
    method Live(key: nat, now: int) returns (found: Option<Entry>)
      modifies this
      ensures found == if key in View(old(entries), now) then Some(old(entries)[key]) else None
      ensures SameFrom(old(entries), entries, now)
    {
      found := if key in entries then Some(entries[key]) else None;
      if found.Some? && found.value.expiresAt.Some? && found.value.expiresAt.value <= now {
        entries := entries - {key};
        found := None;
      }
    }

    /** `sweep`: deletes every expired entry, one by one. */
    method Sweep(now: int)
      modifies this
      ensures SameFrom(old(entries), entries, now)
      ensures entries == View(old(entries), now)
    {
      var keys := entries.Keys;
      while keys != {}
        invariant keys <= entries.Keys <= old(entries).Keys
        invariant forall k :: k in entries ==> entries[k] == old(entries)[k]
        invariant forall k :: k in old(entries) && k !in keys ==> (k in entries <==> Alive(old(entries)[k], now))
        invariant SameFrom(old(entries), entries, now)
        decreases keys
      {
        var key :| key in keys;
        keys := keys - {key};
        if entries[key].expiresAt.Some? && entries[key].expiresAt.value <= now {
          SameFromTrans(old(entries), entries, entries - {key}, now, now);
          entries := entries - {key};
        }
      }
    }

    method Get(key: nat, now: int) returns (value: Option<nat>)
      modifies this
      ensures value == if key in View(old(entries), now) then Some(old(entries)[key].value) else None
      ensures SameFrom(old(entries), entries, now)
    {
      var found := Live(key, now);
      value := if found.Some? then Some(found.value.value) else None;
    }

    method Set(key: nat, value: nat, seconds: Option<int>, now: int)
      modifies this
      ensures SameFrom(old(entries)[key := Entry(value, Expiry(now, seconds))], entries, now)
      ensures forall t :: now <= t ==> (key in View(entries, t) <==> seconds.None? || t < now + seconds.value * 1000)
      ensures forall t :: key in View(entries, t) ==> View(entries, t)[key].value == value
    {
      entries := entries[key := Entry(value, Expiry(now, seconds))];
    }

    /** `setIfNotExists` reads the clock three times: to sweep, to look and to date the new entry. */
    method SetIfNotExists(key: nat, value: nat, seconds: int, sweepAt: int, lookAt: int, writeAt: int)
      returns (accepted: bool)
      requires sweepAt <= lookAt <= writeAt
      modifies this
      ensures accepted <==> key !in View(old(entries), lookAt)
      ensures SameFrom(if accepted then old(entries)[key := Entry(value, Some(writeAt + seconds * 1000))] else old(entries),
                       entries, writeAt)
    {
      Sweep(sweepAt);
      ghost var swept := entries;
      assert View(old(entries), lookAt) == View(swept, lookAt);
      var found := Live(key, lookAt);
      SameFromTrans(old(entries), swept, entries, sweepAt, lookAt);
      assert SameFrom(old(entries), entries, writeAt);
      accepted := found == None;
      if accepted {
        ghost var e := Entry(value, Some(writeAt + seconds * 1000));
        WriteView(old(entries), entries, key, e, writeAt);
        entries := entries[key := Entry(value, Some(writeAt + seconds * 1000))];
      }
    }
  }

  // ---- one nonce over a whole run ----

  /** An envelope whose signature and schema already passed: its nonce key and issue time (seconds), when its clock
      check ran, when the store looked its nonce up and when it dated the new record. `lost` is a store failure, with
      whether its write happened all the same. */
  datatype Attempt = Attempt(key: nat, iat: nat, checkedAt: int, lookedAt: int, datedAt: int, lost: Option<bool>)

  predicate ClockOk(a: Attempt) { -MAX_CLOCK_SKEW_MS <= a.checkedAt - a.iat * 1000 <= MAX_CLOCK_SKEW_MS }

  predicate Unseen(entries: map<nat, Entry>, a: Attempt) { a.key !in entries || !Alive(entries[a.key], a.lookedAt) }

  function RecordOf(a: Attempt): Entry { Entry(a.iat, Some(a.datedAt + NONCE_TTL_SECONDS * 1000)) }

  /** The records after one attempt. */
  function Record(entries: map<nat, Entry>, a: Attempt): map<nat, Entry> {
    if ClockOk(a) && a.lost != Some(false) && Unseen(entries, a)
    then entries[a.key := RecordOf(a)]
    else entries
  }

  function After(attempts: seq<Attempt>): map<nat, Entry> {
    if attempts == [] then map[] else Record(After(attempts[..|attempts| - 1]), attempts[|attempts| - 1])
  }

  /** Whether attempt `k` of a run passes both checks. */
  predicate Accepted(attempts: seq<Attempt>, k: nat)
    requires k < |attempts|
  {
    ClockOk(attempts[k]) && attempts[k].lost == None && Unseen(After(attempts[..k]), attempts[k])
  }

  /** One clock: an attempt checks before it looks, and looks before it dates; the store serves one after another. */
  predicate OneClock(attempts: seq<Attempt>) {
    && (forall k :: 0 <= k < |attempts| ==> attempts[k].checkedAt <= attempts[k].lookedAt <= attempts[k].datedAt)
    && (forall i, j :: 0 <= i < j < |attempts| ==> attempts[i].datedAt <= attempts[j].lookedAt)
  }

  /** An accepted nonce stays recorded, with the same expiry, until that expiry. */
  lemma {:induction false} RecordStays(attempts: seq<Attempt>, i: nat, n: nat)
    requires OneClock(attempts) && i < n < |attempts| && Accepted(attempts, i)
    requires attempts[n].lookedAt < attempts[i].datedAt + NONCE_TTL_SECONDS * 1000
    ensures var key := attempts[i].key;
            key in After(attempts[..n])
            && After(attempts[..n])[key].expiresAt == Some(attempts[i].datedAt + NONCE_TTL_SECONDS * 1000)
    decreases n
  {
    var last := attempts[n - 1];
    assert attempts[..n][..n - 1] == attempts[..n - 1] && attempts[..n][n - 1] == last;
    if n > i + 1 {
      assert last.datedAt <= attempts[n].lookedAt;
      RecordStays(attempts, i, n - 1);
    }
  }

  /** Attempt `i` leaves a record of its nonce. */
  predicate Wrote(attempts: seq<Attempt>, i: nat)
    requires i < |attempts|
  {
    ClockOk(attempts[i]) && attempts[i].lost != Some(false) && Unseen(After(attempts[..i]), attempts[i])
  }

  /** Attempt `i` is the last of the first n to leave a record of the key. */
  predicate LastToWrite(attempts: seq<Attempt>, n: nat, key: nat, i: nat)
    requires n <= |attempts|
  {
    && i < n && attempts[i].key == key && Wrote(attempts, i)
    && forall j: nat :: i < j < n && attempts[j].key == key ==> !Wrote(attempts, j)
  }

  lemma {:induction false} RecordIsLatest(attempts: seq<Attempt>, n: nat, key: nat)
    requires n <= |attempts|
    ensures key !in After(attempts[..n]) ==> forall j: nat :: j < n && attempts[j].key == key ==> !Wrote(attempts, j)
    ensures key in After(attempts[..n]) ==>
              exists i: nat :: LastToWrite(attempts, n, key, i) && After(attempts[..n])[key] == RecordOf(attempts[i])
    decreases n
  {
    if n > 0 {
      var last := attempts[n - 1];
      assert attempts[..n][..n - 1] == attempts[..n - 1] && attempts[..n][n - 1] == last;
      RecordIsLatest(attempts, n - 1, key);
      if key in After(attempts[..n]) {
        if last.key == key && Wrote(attempts, n - 1) {
          assert LastToWrite(attempts, n, key, n - 1);
        } else {
          var i: nat :| LastToWrite(attempts, n - 1, key, i) && After(attempts[..n - 1])[key] == RecordOf(attempts[i]);
          assert LastToWrite(attempts, n, key, i);
        }
      }
    }
  }

  /** An attempt leaves a record exactly when its clock is within a minute of its issue time, its write was not lost,
      and no attempt before it left a record of the nonce within the last 300 seconds; it is accepted exactly when,
      besides, the store did not fail. */
  lemma AcceptedExactly(attempts: seq<Attempt>, k: nat)
    requires OneClock(attempts) && k < |attempts|
    ensures var a := attempts[k];
            var clock := -60_000 <= a.checkedAt - 1000 * a.iat <= 60_000;
            var repeated := exists i: nat :: i < k && attempts[i].key == a.key && Wrote(attempts, i)
                                        && a.lookedAt < attempts[i].datedAt + 300_000;
            && (Wrote(attempts, k) <==> clock && !repeated && (a.lost.Some? ==> a.lost.value))
            && (Accepted(attempts, k) <==> clock && !repeated && a.lost.None?)
  {
    RecordIsLatest(attempts, k, attempts[k].key);
    if attempts[k].key in After(attempts[..k]) {
      var i: nat :| LastToWrite(attempts, k, attempts[k].key, i) && After(attempts[..k])[attempts[k].key] == RecordOf(attempts[i]);
      forall j: nat | j < k && attempts[j].key == attempts[k].key && Wrote(attempts, j)
        ensures attempts[j].datedAt <= attempts[i].datedAt
      {
        if j < i { assert attempts[j].datedAt <= attempts[i].lookedAt <= attempts[i].datedAt; }
      }
      assert attempts[i].key == attempts[k].key && Wrote(attempts, i);
    }
  }

  /** A nonce is accepted at most once for one issue time, whatever other attempts, store failures and repeats the run
      holds, when the later attempt reaches the store less than 180 seconds after its clock check. */
  lemma AcceptedAtMostOnce(attempts: seq<Attempt>, i: nat, j: nat)
    requires OneClock(attempts) && i < j < |attempts|
    requires attempts[i].key == attempts[j].key && attempts[i].iat == attempts[j].iat
    requires attempts[j].lookedAt - attempts[j].checkedAt < NONCE_TTL_SECONDS * 1000 - 2 * MAX_CLOCK_SKEW_MS
    requires Accepted(attempts, i)
    ensures !Accepted(attempts, j)
  {
    if ClockOk(attempts[j]) { RecordStays(attempts, i, j); }
  }

  /** The 180 seconds are exact: for every longer delay and every issue time there is a run that accepts twice. */
  lemma SlowAttemptIsAcceptedTwice(key: nat, iat: nat, delay: int) returns (attempts: seq<Attempt>)
    requires delay >= NONCE_TTL_SECONDS * 1000 - 2 * MAX_CLOCK_SKEW_MS
    ensures OneClock(attempts) && |attempts| == 2
    ensures forall k :: 0 <= k < 2 ==> attempts[k].key == key && attempts[k].iat == iat
    ensures attempts[1].lookedAt - attempts[1].checkedAt == delay
    ensures Accepted(attempts, 0) && Accepted(attempts, 1)
  {
    var early, late := iat * 1000 - MAX_CLOCK_SKEW_MS, iat * 1000 + MAX_CLOCK_SKEW_MS;
    var first := Attempt(key, iat, early, early, early, None);
    attempts := [first, Attempt(key, iat, late, late + delay, late + delay, None)];
    assert attempts[..0] == [] && attempts[..1] == [first] && attempts[..1][..0] == [];
    assert After(attempts[..1]) == Record(map[], first);
  }

  // ---- the check on the store object ----

  /** A store that looks like the run's records decides like the run and goes on looking like it. */
  lemma GateStep(history: seq<Attempt>, a: Attempt, last: int, was: map<nat, Entry>, now: map<nat, Entry>, accepted: bool)
    requires a.lost == None && last <= a.lookedAt <= a.datedAt
    requires SameFrom(After(history), was, last)
    requires accepted == (ClockOk(a) && a.key !in View(was, a.lookedAt))
    requires SameFrom(if accepted then was[a.key := RecordOf(a)] else was, now, a.datedAt)
    ensures accepted == Accepted(history + [a], |history|)
    ensures SameFrom(After(history + [a]), now, a.datedAt)
  {
    var all, before := history + [a], After(history);
    assert all[..|all| - 1] == history;
    assert View(before, a.lookedAt) == View(was, a.lookedAt);
    assert a.key in View(before, a.lookedAt) <==> !Unseen(before, a);
    assert After(all) == Record(before, a);
    if accepted {
      WriteView(before, was, a.key, RecordOf(a), a.datedAt);
      SameFromTrans(After(all), was[a.key := RecordOf(a)], now, a.datedAt, a.datedAt);
    } else {
      SameFromTrans(before, was, now, last, a.datedAt);
    }
  }

  /** `authenticate`'s last checks over a memory store: its answers are those of the run it has seen. */
  class Gate {
    const store: MemoryStore
    ghost var history: seq<Attempt>

    ghost predicate Valid()
      reads this, store
    {
      && OneClock(history)
      && (forall k :: 0 <= k < |history| ==> history[k].lost == None)
      && SameFrom(After(history), store.entries, if history == [] then 0 else history[|history| - 1].datedAt)
    }

    constructor ()
      ensures Valid() && history == [] && fresh(store)
    {
      store := new MemoryStore();
      history := [];
    }

    method Authenticate(a: Attempt) returns (accepted: bool)
      requires Valid() && a.lost == None && a.checkedAt <= a.lookedAt <= a.datedAt
      requires 0 <= a.lookedAt && forall k :: 0 <= k < |history| ==> history[k].datedAt <= a.lookedAt
      modifies this, store
      ensures Valid() && history == old(history) + [a]
      ensures accepted == Accepted(history, |old(history)|)
    {
      hide After, Accepted, SameFrom, View;
      ghost var last, was := if history == [] then 0 else history[|history| - 1].datedAt, store.entries;
      accepted := ClockOk(a);
      if accepted {
        accepted := store.SetIfNotExists(a.key, a.iat, NONCE_TTL_SECONDS, a.lookedAt, a.lookedAt, a.datedAt);
      } else {
        SameFromSelf(was, a.datedAt);
      }
      GateStep(history, a, last, was, store.entries, accepted);
      history := history + [a];
    }
  }

}
