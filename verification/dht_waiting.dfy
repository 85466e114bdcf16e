/** How long queries wait before they are given up. */
module DhtWaiting {
  import opened Bits
  import opened Transactions
  import opened Backoff
  import opened DhtMachine
  import opened DhtSafety

  /** Seconds waited in all before the given number of retries; past the thirty-first the wait stays the same. */
  function WaitSum(retries: nat): nat {
    if retries <= 31 then 10 * (Pow2(retries) - 1)
    else 10 * (Pow2(31) - 1) + (retries - 31) * (10 * 0xFFFF_FFFF)
  }

  lemma FiveMore(n: nat)
    ensures Pow2(n + 5) == 32 * Pow2(n)
  {
    assert Pow2(n + 4) == 16 * Pow2(n) by {
      assert Pow2(n + 2) == 4 * Pow2(n);
    }
  }

  lemma PowersFit(retries: nat)
    requires retries <= 30
    ensures TIMEOUT * Pow2(retries) <= U64_MAX
  {
    Pow2Monotone(retries, 30);
    FiveMore(0);
    FiveMore(5);
    FiveMore(10);
    FiveMore(15);
    FiveMore(20);
    FiveMore(25);
  }

  lemma {:induction false} WaitedInAll(retries: nat)
    ensures Waited(TIMEOUT, retries) == WaitSum(retries)
  {
    hide Pow2, Threshold, WaitSum;
    if retries <= 31 {
      if retries > 0 {
        PowersFit(retries - 1);
      }
      WaitedIsGeometric(TIMEOUT, retries);
      ShortSum(retries);
    } else {
      WaitedInAll(retries - 1);
      LongStep(retries);
    }
  }

  lemma ShortSum(retries: nat)
    requires retries <= 31
    ensures WaitSum(retries) == TIMEOUT * (Pow2(retries) - 1)
  {
  }

  lemma LongStep(retries: nat)
    requires retries > 31
    ensures Threshold(TIMEOUT, retries - 1) == TIMEOUT * U32_MAX
    ensures WaitSum(retries) == WaitSum(retries - 1) + TIMEOUT * U32_MAX
  {
    hide Pow2;
  }

  /**
   * In every reachable state a query that a tick finds to be given up has been sent again exactly as
   * often as allowed, and has waited for the sum of all its timeouts: 70 seconds with two retries.
   */
  lemma GivenUpAfterAllRetries(cfg: Config, start: int, run: seq<Timed>, tid: Tid, now: int)
    requires tid in Reached(cfg, start, run).trans.live
    requires TimesOut(Reached(cfg, start, run).trans.live[tid], TIMEOUT, cfg.tries as nat, now)
    ensures
      var t := TraceAll(Reached(cfg, start, run).log, TIMEOUT, cfg.tries as nat);
      && tid in t.births && tid in t.resent
      && t.resent[tid] == Reached(cfg, start, run).trans.live[tid].retries == cfg.tries as nat
      && now >= t.births[tid] + WaitSum(cfg.tries as nat + 1) * 1_000_000_000
  {
    hide Reached, TraceAll, WaitSum, Pow2, Exclusive, Bounded, Typed, TimesOut;
    ReachedIsSafe(cfg, start, run);
    var s, tries := Reached(cfg, start, run), cfg.tries as nat;
    BackoffHolds(s.log, TIMEOUT, tries);
    assert Backed(TraceAll(s.log, TIMEOUT, tries), tid, TIMEOUT, tries);
    GivenUpNotBefore(s.log, TIMEOUT, tries, tid, now);
    WaitedInAll(tries + 1);
  }

  /** Seconds waited after the given number of retries: twice as long each time, for thirty times. */
  function WaitAfter(retries: nat): nat {
    if retries <= 30 then 10 * Pow2(retries) else 10 * 0xFFFF_FFFF
  }

  lemma WaitsAre(retries: nat)
    ensures Threshold(TIMEOUT, retries) == WaitAfter(retries)
  {
    if retries <= 30 {
      PowersFit(retries);
      assert TIMEOUT * Pow2(retries) >= TIMEOUT;
    }
  }

  /**
   * In every reachable state, once a query has waited as long as its retries call for, a tick gives it up
   * if it has been retried as often as allowed, and else sends it again if it is a lookup or a search.
   */
  lemma TimesOutExactly(cfg: Config, start: int, run: seq<Timed>, tid: Tid, now: int)
    requires tid in Reached(cfg, start, run).trans.live
    ensures
      var s := Reached(cfg, start, run).trans;
      var t := s.live[tid];
      var late := now - t.createdAt >= WaitAfter(t.retries) * 1_000_000_000;
      && t.retries <= cfg.tries as nat
      && (TimesOut(t, TIMEOUT, cfg.tries as nat, now) <==> late && t.retries == cfg.tries as nat)
      && (SentAgain(s, tid, TIMEOUT, cfg.tries as nat, now) <==>
            late && t.retries < cfg.tries as nat && (t.qtype == GetPeers || t.qtype == FindNode))
  {
    hide Reached, TraceAll, Threshold, WaitAfter, Exclusive, Bounded;
    ReachedIsSafe(cfg, start, run);
    var s, tries := Reached(cfg, start, run), cfg.tries as nat;
    BackoffHolds(s.log, TIMEOUT, tries);
    assert Backed(TraceAll(s.log, TIMEOUT, tries), tid, TIMEOUT, tries);
    WaitsAre(s.trans.live[tid].retries);
    WaitIsPositive(s.trans.live[tid].retries);
  }

  lemma WaitIsPositive(retries: nat)
    ensures WaitAfter(retries) > 0
  {
  }
}
