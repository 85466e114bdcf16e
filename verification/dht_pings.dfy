/**
 * What becomes of pings. Neither an answer nor a retry ever touches one; whether a tick gives it up
 * depends on whether the node is configured to retry at all.
 */
module DhtPings {
  import opened Bits
  import opened Nodes
  import opened Tables
  import opened Transactions
  import opened Backoff
  import opened DhtMachine
  import opened DhtSafety
  import opened DhtFlights
  import opened DhtEndings

  ghost predicate IsPing(s: Dht, tid: Tid) {
    tid in s.trans.live && s.trans.live[tid].qtype == Ping
  }

  /** A ping is given up by a tick exactly if nothing is ever retried and its first timeout has passed. */
  lemma PingTimesOutExactly(s: Dht, cfg: Config, now: int, tid: Tid)
    requires Safe(s, cfg) && IsPing(s, tid)
    ensures TimesOut(s.trans.live[tid], TIMEOUT, cfg.tries as nat, now) <==>
            cfg.tries == 0 && now - s.trans.live[tid].createdAt >= 10 * 1_000_000_000
  {
    hide Bounded, Exclusive, Typed, TraceAll;
    BackoffHolds(s.log, TIMEOUT, cfg.tries as nat);
    assert Backed(TraceAll(s.log, TIMEOUT, cfg.tries as nat), tid, TIMEOUT, cfg.tries as nat);
    assert Pow2(0) == 1;
    assert s.trans.live[tid].retries == 0;
  }

  ghost predicate PingOverdue(s: Dht, cfg: Config, now: int, tid: Tid) {
    IsPing(s, tid) && cfg.tries == 0 && now - s.trans.live[tid].createdAt >= 10 * 1_000_000_000
  }

  // ----- what a sweep forgets

  ghost function PingAddrs(s: Dht, tids: seq<Tid>): set<Addr> {
    set tid | tid in tids && IsPing(s, tid) :: s.trans.live[tid].addr
  }

  lemma {:induction false} GiveUpAllForgets(s: Dht, cfg: Config, tids: seq<Tid>, now: int)
    requires ValidTable(s.table, cfg.bucketSize)
    ensures ValidTable(GiveUpAll(s, cfg, tids, now).table, cfg.bucketSize)
    ensures GiveUpAll(s, cfg, tids, now).table.cache == s.table.cache - PingAddrs(s, tids)
    ensures PingAddrs(s, tids) == {} ==> GiveUpAll(s, cfg, tids, now).table == s.table
  {
    hide ValidTable, Drop, AddrSet, PingAddrs, GiveUp;
    if tids == [] {
      NoPingAddrs(s);
      assert s.table.cache - {} == s.table.cache;
    } else {
      var front, last := tids[..|tids| - 1], tids[|tids| - 1];
      GiveUpAllForgets(s, cfg, front, now);
      PingAddrsOneMore(s, tids);
      if last in s.trans.live {
        var t := s.trans.live[last];
        GiveUpForgets(GiveUpAll(s, cfg, front, now), cfg, t, now);
        InTwo(s.table.cache, PingAddrs(s, front), if t.qtype == Ping then {t.addr} else {});
      }
    }
  }

  lemma NoPingAddrs(s: Dht)
    ensures PingAddrs(s, []) == {}
  {
  }

  lemma InTwo(c: Cache, a: set<Addr>, b: set<Addr>)
    ensures c - a - b == c - (a + b)
  {
  }

  lemma GiveUpForgets(s: Dht, cfg: Config, t: Transaction, now: int)
    requires ValidTable(s.table, cfg.bucketSize)
    ensures ValidTable(GiveUp(s, cfg, t, now).table, cfg.bucketSize)
    ensures GiveUp(s, cfg, t, now).table.cache == s.table.cache - (if t.qtype == Ping then {t.addr} else {})
    ensures t.qtype != Ping ==> GiveUp(s, cfg, t, now).table == s.table
  {
    hide ValidTable, Drop, AddrSet;
    if t.qtype == Ping {
      DropIsValid(s.table, cfg.bucketSize, [t.addr], now);
      OneAddr(t.addr);
    } else {
      assert s.table.cache - {} == s.table.cache;
    }
  }

  lemma PingAddrsOneMore(s: Dht, tids: seq<Tid>)
    requires tids != []
    ensures PingAddrs(s, tids) == PingAddrs(s, tids[..|tids| - 1])
              + if IsPing(s, tids[|tids| - 1]) then {s.trans.live[tids[|tids| - 1]].addr} else {}
  {
    assert tids == tids[..|tids| - 1] + [tids[|tids| - 1]];
  }

  lemma OneAddr(addr: Addr)
    ensures AddrSet([addr]) == {addr}
  {
    assert addr in [addr];
  }

  /** The addresses of all pings overdue at `now`. */
  ghost function OverdueAddrs(s: Dht, cfg: Config, now: int): set<Addr> {
    set tid | tid in s.trans.live && PingOverdue(s, cfg, now, tid) :: s.trans.live[tid].addr
  }

  lemma TimedOutPings(s: Dht, cfg: Config, dropped: seq<Tid>, now: int)
    requires Safe(s, cfg) && ListsTimedOut(s, cfg, dropped, now)
    ensures PingAddrs(s, dropped) == OverdueAddrs(s, cfg, now)
  {
    hide Safe, TimesOut;
    forall tid | IsPing(s, tid)
      ensures tid in dropped <==> PingOverdue(s, cfg, now, tid)
    {
      PingTimesOutExactly(s, cfg, now, tid);
    }
  }

  /**
   * In every reachable state a sweep forgets exactly the addressees of the pings it finds overdue, and
   * of those there are some only if nothing is ever retried: with retries allowed, the branch that
   * forgets a node is never taken.
   */
  lemma TimeoutsForgetExactly(cfg: Config, start: int, run: seq<Timed>, f: Findings, now: int)
    requires ListsTimedOut(Reached(cfg, start, run), cfg, f.dropped, now)
    ensures
      var s := Reached(cfg, start, run);
      var s' := AfterSweep(s, cfg, f, now);
      && s'.table.cache == s.table.cache - OverdueAddrs(s, cfg, now)
      && (cfg.tries > 0 ==> OverdueAddrs(s, cfg, now) == {} && s'.table == s.table)
      && forall tid :: IsPing(s, tid) ==> (tid !in s'.trans.live <==> PingOverdue(s, cfg, now, tid))
  {
    hide Reached, Exclusive, Typed, Logged, TimesOut, SentAgain, GiveUpAll, ListsTimedOut;
    ReachedIsSafe(cfg, start, run);
    var s := Reached(cfg, start, run);
    GiveUpAllForgets(s, cfg, f.dropped, now);
    TimedOutPings(s, cfg, f.dropped, now);
    forall tid | IsPing(s, tid)
      ensures tid !in AfterSweep(s, cfg, f, now).trans.live <==> PingOverdue(s, cfg, now, tid)
    {
      SweepEndsPing(s, cfg, f, now, tid);
    }
  }

  lemma SweepEndsPing(s: Dht, cfg: Config, f: Findings, now: int, tid: Tid)
    requires Safe(s, cfg) && IsPing(s, tid)
    ensures tid !in AfterSweep(s, cfg, f, now).trans.live <==> PingOverdue(s, cfg, now, tid)
    ensures !PingOverdue(s, cfg, now, tid) ==> AfterSweep(s, cfg, f, now).trans.live[tid] == s.trans.live[tid]
  {
    hide Safe, TimesOut, AfterSweep;
    PingTimesOutExactly(s, cfg, now, tid);
    SweepEnds(s, cfg, f, now, tid);
  }

  /** With a ping in flight that is not overdue, a tick refreshes nothing. */
  lemma PingHoldsUpRefresh(s: Dht, cfg: Config, f: Findings, now: int, tid: Tid)
    requires Safe(s, cfg) && IsPing(s, tid) && !PingOverdue(s, cfg, now, tid)
    ensures AfterRefresh(s, cfg, f, now) == AfterSweep(s, cfg, f, now)
  {
    hide Safe, SweepOut;
    SweepEndsPing(s, cfg, f, now, tid);
    assert tid in AfterSweep(s, cfg, f, now).trans.live;
  }

  // ----- what ends a ping

  /** An error message under its id, or, if nothing is ever retried, a tick after its timeout. */
  ghost predicate EndsPing(s: Dht, cfg: Config, e: Timed, tid: Tid) {
    IsErrorFor(s, e, tid) || (e.event.Ticked? && s.table.cache != map[] && PingOverdue(s, cfg, e.now, tid))
  }

  /**
   * A ping in flight is ended by a step exactly if that is an error message under its id, or a tick
   * after its timeout of a node that retries nothing. No answer ends one.
   */
  lemma PingEndsExactly(s: Dht, cfg: Config, e: Timed, tid: Tid)
    requires Safe(s, cfg) && IsPing(s, tid) && Next(s, cfg, e).drawn <= MAX_CURSOR
    ensures tid in Next(s, cfg, e).trans.live <==> !EndsPing(s, cfg, e, tid)
    ensures tid in Next(s, cfg, e).trans.live ==> Next(s, cfg, e).trans.live[tid] == s.trans.live[tid]
  {
    hide Safe, Next, IsErrorFor, TimesOut;
    QueryEndsExactly(s, cfg, e, tid);
    PingTimesOutExactly(s, cfg, e.now, tid);
  }

  ghost predicate PingEndedSince(cfg: Config, start: int, run: seq<Timed>, from: nat, tid: Tid)
    requires from <= |run|
  {
    exists i :: from <= i < |run| && EndsPing(Reached(cfg, start, run[..i]), cfg, run[i], tid)
  }

  lemma PingEndedSinceLonger(cfg: Config, start: int, run: seq<Timed>, from: nat, tid: Tid)
    requires from < |run|
    ensures PingEndedSince(cfg, start, run, from, tid) <==>
            || PingEndedSince(cfg, start, run[..|run| - 1], from, tid)
            || EndsPing(Reached(cfg, start, run[..|run| - 1]), cfg, run[|run| - 1], tid)
  {
    hide Reached, EndsPing;
    var front := run[..|run| - 1];
    assert forall i :: from <= i < |front| ==> front[..i] == run[..i] && front[i] == run[i];
    if PingEndedSince(cfg, start, front, from, tid) {
      var i :| from <= i < |front| && EndsPing(Reached(cfg, start, front[..i]), cfg, front[i], tid);
      assert EndsPing(Reached(cfg, start, run[..i]), cfg, run[i], tid);
    }
  }

  /**
   * Over a whole run, until the ids wrap around, a ping is still in flight, unchanged, exactly if
   * nothing has ended it since; and if it is, a tick that does not find it overdue refreshes nothing.
   */
  lemma {:induction false} PingStaysExactly(cfg: Config, start: int, run: seq<Timed>, from: nat, tid: Tid)
    requires from <= |run| && IsPing(Reached(cfg, start, run[..from]), tid)
    requires Reached(cfg, start, run).drawn <= MAX_CURSOR
    ensures tid in Reached(cfg, start, run).trans.live <==> !PingEndedSince(cfg, start, run, from, tid)
    ensures
      var s := Reached(cfg, start, run);
      tid in s.trans.live ==>
        && s.trans.live[tid] == Reached(cfg, start, run[..from]).trans.live[tid]
        && forall f, now :: !PingOverdue(s, cfg, now, tid) ==>
             AfterRefresh(s, cfg, f, now) == AfterSweep(s, cfg, f, now)
    decreases |run|
  {
    hide Safe, Next, EndsPing, IsIssued, PingEndedSince, AfterRefresh, AfterSweep;
    if from == |run| {
      assert run[..from] == run;
      NoPingEndedYet(cfg, start, run, tid);
    } else {
      var front, e := run[..|run| - 1], run[|run| - 1];
      var s := Reached(cfg, start, front);
      ReachedIsSafe(cfg, start, front);
      DrawnGrows(s, cfg, e);
      assert front[..from] == run[..from];
      PingStaysExactly(cfg, start, front, from, tid);
      PingEndedSinceLonger(cfg, start, run, from, tid);
      if tid in s.trans.live {
        PingEndsExactly(s, cfg, e, tid);
      } else {
        WasIssued(cfg, start, front, from, tid);
        StepStaysClosed(s, cfg, e, tid);
      }
    }
    ReachedIsSafe(cfg, start, run);
    RefreshIsHeldUp(Reached(cfg, start, run), cfg, tid);
  }

  lemma RefreshIsHeldUp(s: Dht, cfg: Config, tid: Tid)
    requires Safe(s, cfg)
    ensures forall f, now :: IsPing(s, tid) && !PingOverdue(s, cfg, now, tid) ==>
              AfterRefresh(s, cfg, f, now) == AfterSweep(s, cfg, f, now)
  {
    hide Safe, AfterRefresh, AfterSweep, PingOverdue;
    forall f, now | IsPing(s, tid) && !PingOverdue(s, cfg, now, tid)
      ensures AfterRefresh(s, cfg, f, now) == AfterSweep(s, cfg, f, now)
    {
      PingHoldsUpRefresh(s, cfg, f, now, tid);
    }
  }

  lemma NoPingEndedYet(cfg: Config, start: int, run: seq<Timed>, tid: Tid)
    ensures !PingEndedSince(cfg, start, run, |run|, tid)
  {
  }
}
