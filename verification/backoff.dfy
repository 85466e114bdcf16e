/** When a transaction is sent again, and when it is given up. */
module Backoff {
  import opened Bits
  import opened Transactions

  /** The clock counts in nanoseconds, timeouts are in whole seconds. */
  const SECOND := 1_000_000_000

  const U32_MAX := 0xFFFF_FFFF
  const U64_MAX := 0xFFFF_FFFF_FFFF_FFFF

  function Factor(retries: nat): nat {
    if retries >= 31 then U32_MAX else Pow2(retries)
  }

  /** Seconds to wait after the given number of retries: a saturating product, never below the timeout. */
  function Threshold(timeout: nat, retries: nat): (r: nat)
    ensures r >= timeout
  {
    var mul := if timeout * Factor(retries) > U64_MAX then U64_MAX else timeout * Factor(retries);
    if mul < timeout then timeout else mul
  }

  function Elapsed(now: int, since: int): nat {
    if now > since then now - since else 0
  }

  predicate Overdue(t: Transaction, timeout: nat, now: int) {
    Elapsed(now, t.createdAt) >= Threshold(timeout, t.retries) * SECOND
  }

  predicate TimesOut(t: Transaction, timeout: nat, maxRetries: nat, now: int) {
    Overdue(t, timeout, now) && t.retries >= maxRetries
  }

  predicate Retries(t: Transaction, timeout: nat, maxRetries: nat, now: int) {
    Overdue(t, timeout, now) && t.retries < maxRetries
  }

  /** Only these are sent again; pings and announcements are not. */
  predicate Resends(t: Transaction) {
    (t.qtype == GetPeers && t.infoHash.Some?) || (t.qtype == FindNode && t.target.Some?)
  }

  function MarkedAt(marks: map<Tid, int>, tid: Tid, now: int): int {
    if tid in marks then marks[tid] else now
  }

  predicate SentAgain(s: State, tid: Tid, timeout: nat, maxRetries: nat, now: int) {
    tid in s.live && Retries(s.live[tid], timeout, maxRetries, now) && Resends(s.live[tid])
  }

  /** One sweep at `now`: what is overdue is sent again and marked a little later, or dropped. */
  function Sweep(s: State, timeout: nat, maxRetries: nat, now: int, marks: map<Tid, int>): State {
    s.(live := map tid | tid in s.live && !TimesOut(s.live[tid], timeout, maxRetries, now) ::
         if SentAgain(s, tid, timeout, maxRetries, now) then Retried(s.live[tid], MarkedAt(marks, tid, now))
         else s.live[tid])
  }

  // ----- the waiting adds up

  /** Seconds waited in all before the given number of retries. */
  ghost function Waited(timeout: nat, retries: nat): nat {
    if retries == 0 then 0 else Waited(timeout, retries - 1) + Threshold(timeout, retries - 1)
  }

  lemma Doubling(timeout: nat, retries: nat)
    ensures timeout * Pow2(retries + 1) == 2 * (timeout * Pow2(retries))
    ensures timeout * (Pow2(retries + 1) - 1) == timeout * (Pow2(retries) - 1) + timeout * Pow2(retries)
    ensures timeout * Pow2(retries) >= timeout
  {
    calc {
      timeout * Pow2(retries + 1);
      timeout * (2 * Pow2(retries));
      2 * (timeout * Pow2(retries));
    }
    assert timeout * (Pow2(retries + 1) - 1) == timeout * Pow2(retries + 1) - timeout;
    assert timeout * (Pow2(retries) - 1) == timeout * Pow2(retries) - timeout;
    assert timeout * Pow2(retries) >= timeout * 1;
  }

  /** While nothing saturates, the waits double and their sum is geometric. */
  lemma {:induction false} WaitedIsGeometric(timeout: nat, retries: nat)
    requires retries <= 31
    requires retries > 0 ==> timeout * Pow2(retries - 1) <= U64_MAX
    ensures Waited(timeout, retries) == timeout * (Pow2(retries) - 1)
  {
    hide Pow2;
    if retries == 0 {
      assert Pow2(0) == 1 by {
        PowZero();
      }
    } else {
      Doubling(timeout, retries - 1);
      if retries > 1 {
        Doubling(timeout, retries - 2);
      }
      WaitedIsGeometric(timeout, retries - 1);
    }
  }

  lemma PowZero()
    ensures Pow2(0) == 1
  {
  }

  // ----- runs

  /** A run's state, and for each transaction in flight when it began and how often it was sent again. */
  datatype Traced = Traced(s: State, births: map<Tid, int>, resent: map<Tid, nat>)

  datatype Event =
    | Opened(t: Transaction)
    | Closed(tid: Tid)
    | Swept(now: int, marks: map<Tid, int>)

  /** New transactions have not been retried, and a retry is marked no earlier than the sweep. */
  ghost predicate Proper(e: Event) {
    match e
    case Opened(t) => t.retries == 0
    case Closed(_) => true
    case Swept(now, marks) => forall tid :: tid in marks ==> marks[tid] >= now
  }

  ghost function Trace(r: Traced, e: Event, timeout: nat, maxRetries: nat): Traced {
    match e
    case Opened(t) =>
      if Accepts(r.s) then
        Traced(Add(r.s, t), r.births[t.tid := t.createdAt], r.resent[t.tid := 0])
      else r
    case Closed(tid) => r.(s := Finish(r.s, tid))
    case Swept(now, marks) =>
      Traced(Sweep(r.s, timeout, maxRetries, now, marks), r.births,
             map tid | tid in r.resent ::
               if SentAgain(r.s, tid, timeout, maxRetries, now) then r.resent[tid] + 1 else r.resent[tid])
  }

  ghost function TraceAll(events: seq<Event>, timeout: nat, maxRetries: nat): Traced {
    if events == [] then Traced(EMPTY, map[], map[])
    else Trace(TraceAll(events[..|events| - 1], timeout, maxRetries), events[|events| - 1], timeout, maxRetries)
  }

  ghost predicate Backed(r: Traced, tid: Tid, timeout: nat, maxRetries: nat)
    requires tid in r.s.live
  {
    && tid in r.births && tid in r.resent
    && r.s.live[tid].retries == r.resent[tid] <= maxRetries
    && r.s.live[tid].createdAt >= r.births[tid] + Waited(timeout, r.resent[tid]) * SECOND
    && (!Resends(r.s.live[tid]) ==> r.resent[tid] == 0)
  }

  lemma SweepBacked(r: Traced, tid: Tid, timeout: nat, maxRetries: nat, now: int, marks: map<Tid, int>)
    requires tid in r.s.live && Backed(r, tid, timeout, maxRetries) && maxRetries <= 255 && timeout > 0
    requires Proper(Swept(now, marks))
    requires !TimesOut(r.s.live[tid], timeout, maxRetries, now)
    ensures tid in Trace(r, Swept(now, marks), timeout, maxRetries).s.live
    ensures Backed(Trace(r, Swept(now, marks), timeout, maxRetries), tid, timeout, maxRetries)
  {
    hide Threshold;
    if SentAgain(r.s, tid, timeout, maxRetries, now) {
      var t := r.s.live[tid];
      assert Threshold(timeout, t.retries) * SECOND >= 1;
      assert now - t.createdAt >= Threshold(timeout, t.retries) * SECOND;
      assert MarkedAt(marks, tid, now) >= now;
    }
  }

  ghost predicate AllBacked(r: Traced, timeout: nat, maxRetries: nat) {
    forall tid :: tid in r.s.live ==> Backed(r, tid, timeout, maxRetries)
  }

  lemma TraceBacked(r: Traced, e: Event, timeout: nat, maxRetries: nat)
    requires AllBacked(r, timeout, maxRetries) && Proper(e) && maxRetries <= 255 && timeout > 0
    ensures AllBacked(Trace(r, e, timeout, maxRetries), timeout, maxRetries)
  {
    if e.Swept? {
      forall tid | tid in Trace(r, e, timeout, maxRetries).s.live
        ensures Backed(Trace(r, e, timeout, maxRetries), tid, timeout, maxRetries)
      {
        SweepBacked(r, tid, timeout, maxRetries, e.now, e.marks);
      }
    }
  }

  /** A transaction is sent again at most `maxRetries` times, with ever longer waits in between. */
  lemma {:induction false} BackoffHolds(events: seq<Event>, timeout: nat, maxRetries: nat)
    requires maxRetries <= 255 && timeout > 0 && forall e :: e in events ==> Proper(e)
    ensures AllBacked(TraceAll(events, timeout, maxRetries), timeout, maxRetries)
  {
    hide Trace, Proper, Backed;
    if events != [] {
      var front, last := events[..|events| - 1], events[|events| - 1];
      assert events == front + [last];
      BackoffHolds(front, timeout, maxRetries);
      TraceBacked(TraceAll(front, timeout, maxRetries), last, timeout, maxRetries);
    }
  }

  /**
   * A transaction given up at a sweep was sent again exactly `maxRetries` times, and has been in
   * flight for the sum of all its waits; with up to 30 retries and no saturation that is
   * `timeout * (2^(maxRetries + 1) - 1)` seconds.
   */
  lemma GivenUpNotBefore(events: seq<Event>, timeout: nat, maxRetries: nat, tid: Tid, now: int)
    requires maxRetries <= 255 && timeout > 0 && forall e :: e in events ==> Proper(e)
    requires tid in TraceAll(events, timeout, maxRetries).s.live
    requires TimesOut(TraceAll(events, timeout, maxRetries).s.live[tid], timeout, maxRetries, now)
    ensures tid in TraceAll(events, timeout, maxRetries).births && tid in TraceAll(events, timeout, maxRetries).resent
    ensures TraceAll(events, timeout, maxRetries).resent[tid] == maxRetries
    ensures now >= TraceAll(events, timeout, maxRetries).births[tid] + Waited(timeout, maxRetries + 1) * SECOND
    ensures maxRetries <= 30 && timeout * Pow2(maxRetries) <= U64_MAX ==>
              Waited(timeout, maxRetries + 1) == timeout * (Pow2(maxRetries + 1) - 1)
  {
    hide TraceAll, Pow2, Waited, TimesOut, AllBacked;
    BackoffHolds(events, timeout, maxRetries);
    BackedGivenUp(TraceAll(events, timeout, maxRetries), timeout, maxRetries, tid, now);
    SumIsGeometric(timeout, maxRetries);
  }

  lemma SumIsGeometric(timeout: nat, retries: nat)
    ensures retries <= 30 && timeout * Pow2(retries) <= U64_MAX ==>
              Waited(timeout, retries + 1) == timeout * (Pow2(retries + 1) - 1)
  {
    hide Pow2, Waited;
    if retries <= 30 && timeout * Pow2(retries) <= U64_MAX {
      WaitedIsGeometric(timeout, retries + 1);
    }
  }

  lemma BackedGivenUp(r: Traced, timeout: nat, maxRetries: nat, tid: Tid, now: int)
    requires AllBacked(r, timeout, maxRetries) && timeout > 0
    requires tid in r.s.live && TimesOut(r.s.live[tid], timeout, maxRetries, now)
    ensures tid in r.births && tid in r.resent && r.resent[tid] == maxRetries
    ensures now >= r.births[tid] + Waited(timeout, maxRetries + 1) * SECOND
  {
    hide Threshold, Waited;
    assert Backed(r, tid, timeout, maxRetries);
    GivenUpAfterAllWaits(r.s.live[tid], r.births[tid], timeout, maxRetries, now);
  }

  lemma GivenUpAfterAllWaits(t: Transaction, birth: int, timeout: nat, maxRetries: nat, now: int)
    requires timeout > 0 && t.retries == maxRetries && TimesOut(t, timeout, maxRetries, now)
    requires t.createdAt >= birth + Waited(timeout, maxRetries) * SECOND
    ensures now >= birth + Waited(timeout, maxRetries + 1) * SECOND
  {
    hide Threshold;
    assert Elapsed(now, t.createdAt) >= Threshold(timeout, maxRetries) * SECOND >= 1;
  }
}
