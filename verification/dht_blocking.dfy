/** Who is not listened to. */
module DhtBlocking {
  import opened Bits
  import opened Nodes
  import opened Sequences
  import opened Pruning
  import opened Transactions
  import opened Backoff
  import opened DhtMachine
  import opened DhtSafety
  import opened DhtFlights
  import opened DhtMemory
  import opened DhtGreetings

  lemma {:induction false} GiveUpAllBlocks(s: Dht, cfg: Config, tids: seq<Tid>, now: int)
    ensures
      var after := GiveUpAll(s, cfg, tids, now).blacklist;
      forall tid :: tid in tids && tid in s.trans.live && s.trans.live[tid].qtype != Ping ==>
        (s.trans.live[tid].addr in after && after[s.trans.live[tid].addr] == now) || |after| >= cfg.blacklistSize
  {
    if tids != [] {
      var front, last := tids[..|tids| - 1], tids[|tids| - 1];
      GiveUpAllBlocks(s, cfg, front, now);
      assert tids == front + [last];
      var before, after := GiveUpAll(s, cfg, front, now).blacklist, GiveUpAll(s, cfg, tids, now).blacklist;
      if last in s.trans.live {
        Subset(before.Keys, before.Keys + {s.trans.live[last].addr});
        assert before[s.trans.live[last].addr := now].Keys == before.Keys + {s.trans.live[last].addr};
      }
    }
  }

  /** The address was put on the blacklist at `since` or later. */
  predicate BlockedSince(s: Dht, addr: Addr, since: int) {
    addr in s.blacklist && s.blacklist[addr] >= since
  }

  lemma {:induction false} GiveUpAllStaysBlocked(s: Dht, cfg: Config, tids: seq<Tid>, now: int, addr: Addr, since: int)
    requires BlockedSince(s, addr, since) && now >= since
    ensures BlockedSince(GiveUpAll(s, cfg, tids, now), addr, since)
  {
    if tids != [] {
      GiveUpAllStaysBlocked(s, cfg, tids[..|tids| - 1], now, addr, since);
    }
  }

  /** Entries are only ever made newer, and leave the blacklist when they have expired. */
  lemma StepStaysBlocked(s: Dht, cfg: Config, e: Timed, addr: Addr, since: int)
    requires Safe(s, cfg) && BlockedSince(s, addr, since) && since <= e.now < since + BLOCKED_FOR
    ensures BlockedSince(Next(s, cfg, e), addr, since)
  {
    hide Safe, Receive, Join, SearchFrom, GiveUpAll, Refresh, PingAll, Drop;
    match e.event {
      case Received(data, from, tokenValid) =>
        ReceiveKeeps(s, cfg, data, from, tokenValid, e.now);
      case Ticked(f) =>
        JoinKeeps(s, cfg, f.prime, e.now);
        StagesKeep(s, cfg, f, e.now);
        GiveUpAllStaysBlocked(s, cfg, f.dropped, e.now, addr, since);
      case Searched(ih, port, nodes) =>
        SearchKeeps(s, cfg, nodes, ih, port, e.now);
    }
  }

  lemma {:induction false} StaysBlocked(cfg: Config, start: int, run: seq<Timed>, from: nat, addr: Addr, since: int)
    requires from <= |run| && BlockedSince(Reached(cfg, start, run[..from]), addr, since)
    requires forall i :: from <= i < |run| ==> since <= run[i].now < since + BLOCKED_FOR
    ensures BlockedSince(Reached(cfg, start, run), addr, since)
    decreases |run|
  {
    hide Safe, Next, BlockedSince;
    if from == |run| {
      assert run[..from] == run;
    } else {
      var front := run[..|run| - 1];
      assert front[..from] == run[..from];
      StaysBlocked(cfg, start, front, from, addr, since);
      ReachedIsSafe(cfg, start, front);
      StepStaysBlocked(Reached(cfg, start, front), cfg, run[|run| - 1], addr, since);
    }
  }

  /** The tick that gives up a query, not a ping, blocks its addressee if the blacklist is not full. */
  lemma TickBlocks(s: Dht, cfg: Config, f: Findings, now: int, tid: Tid)
    requires Safe(s, cfg) && CanFind(s, cfg, f, now) && s.table.cache != map[]
    requires tid in s.trans.live && s.trans.live[tid].qtype != Ping
    requires TimesOut(s.trans.live[tid], TIMEOUT, cfg.tries as nat, now)
    requires |AfterSweep(s, cfg, f, now).blacklist| < cfg.blacklistSize
    ensures tid !in AfterSweep(s, cfg, f, now).trans.live
    ensures BlockedSince(Tick(s, cfg, f, now), s.trans.live[tid].addr, now)
  {
    hide Safe, TimesOut, GiveUpAll, Refresh, PingAll, Drop, ListsSilent, IsPlan;
    GiveUpAllBlocks(s, cfg, f.dropped, now);
    StagesKeep(s, cfg, f, now);
  }

  /**
   * Whoever leaves a query other than a ping unanswered until it times out is not listened to for an
   * hour: after the tick that gives the query up, unless its sweep leaves the blacklist full, and however
   * the run goes on, every packet from that address within the hour changes nothing.
   */
  lemma UnresponsiveAreBlocked(cfg: Config, start: int, run: seq<Timed>, i: nat, tid: Tid, j: nat)
    requires i < j < |run| && run[i].event.Ticked? && Possible(Reached(cfg, start, run[..i]), cfg, run[i])
    requires Reached(cfg, start, run[..i]).table.cache != map[]
    requires tid in Reached(cfg, start, run[..i]).trans.live
    requires Reached(cfg, start, run[..i]).trans.live[tid].qtype != Ping
    requires TimesOut(Reached(cfg, start, run[..i]).trans.live[tid], TIMEOUT, cfg.tries as nat, run[i].now)
    requires
      var swept := AfterSweep(Reached(cfg, start, run[..i]), cfg, run[i].event.findings, run[i].now);
      |swept.blacklist| < cfg.blacklistSize
    requires forall l :: i < l <= j ==> run[i].now <= run[l].now < run[i].now + BLOCKED_FOR
    requires run[j].event.Received? && run[j].event.addr == Reached(cfg, start, run[..i]).trans.live[tid].addr
    ensures Reached(cfg, start, run[..j + 1]) == Reached(cfg, start, run[..j])
  {
    hide Safe, TimesOut, AfterSweep, CanFind, Tick;
    var s, now, addr := Reached(cfg, start, run[..i]), run[i].now, run[j].event.addr;
    ReachedIsSafe(cfg, start, run[..i]);
    TickBlocks(s, cfg, run[i].event.findings, now, tid);
    Onward(cfg, start, run, i);
    assert run[..j][..i + 1] == run[..i + 1];
    StaysBlocked(cfg, start, run[..j], i + 1, addr, now);
    Onward(cfg, start, run, j);
    BlockedIsIgnored(Reached(cfg, start, run[..j]), cfg, run[j], addr, now);
  }

  lemma BlockedIsIgnored(s: Dht, cfg: Config, e: Timed, addr: Addr, since: int)
    requires BlockedSince(s, addr, since) && e.now < since + BLOCKED_FOR
    requires e.event.Received? && e.event.addr == addr
    ensures Next(s, cfg, e) == s
  {
    hide ReadPacket, Request, Response, Close;
  }

  // ----- for how long

  const HOUR := 3600 * 1_000_000_000

  /** On the blacklist for less than an hour. */
  predicate Shunned(s: Dht, addr: Addr, now: int) {
    addr in s.blacklist && now - s.blacklist[addr] < HOUR
  }

  lemma ShunnedIsBlocked(s: Dht, addr: Addr, now: int)
    ensures Blocked(s.blacklist, addr, now) <==> Shunned(s, addr, now)
  {
  }

  /**
   * Who greets is made known, in every reachable state with room for him, exactly if he is not on the
   * blacklist for less than an hour; else nothing changes.
   */
  lemma HeardExactly(cfg: Config, start: int, run: seq<Timed>, id: Id, addr: Addr, now: int)
    requires |Reached(cfg, start, run).table.cache| < cfg.maxNodes
    requires !NoPlace(Reached(cfg, start, run).table, cfg.bucketSize, id)
    ensures
      var s := Reached(cfg, start, run);
      var s' := Next(s, cfg, Greeting(id, addr, now));
      if Shunned(s, addr, now) then s' == s else s'.table.cache == s.table.cache[addr := Node(id, addr, now)]
  {
    hide Reached, Blocked, NoPlace, Greeting, Shunned, ReadPacket, Request, Response;
    ShunnedIsBlocked(Reached(cfg, start, run), addr, now);
    if Blocked(Reached(cfg, start, run).blacklist, addr, now) {
      GreetingIs(id, addr, now);
    } else {
      GreetingHeard(cfg, start, run, id, addr, now);
    }
  }

  lemma GreetingIs(id: Id, addr: Addr, now: int)
    ensures Greeting(id, addr, now).now == now && Greeting(id, addr, now).event.Received?
    ensures Greeting(id, addr, now).event.addr == addr
  {
  }

  /** A query other than a ping to the address has timed out. */
  ghost predicate Unanswered(s: Dht, cfg: Config, tids: seq<Tid>, addr: Addr) {
    exists tid ::
      tid in tids && tid in s.trans.live && s.trans.live[tid].addr == addr && s.trans.live[tid].qtype != Ping
  }

  lemma {:induction false} GiveUpAllBlocksOnly(s: Dht, cfg: Config, tids: seq<Tid>, now: int, addr: Addr)
    ensures
      var after := GiveUpAll(s, cfg, tids, now).blacklist;
      && (addr in s.blacklist ==> addr in after)
      && (addr in after && !(addr in s.blacklist && after[addr] == s.blacklist[addr]) ==>
            after[addr] == now && Unanswered(s, cfg, tids, addr))
  {
    if tids != [] {
      var front, last := tids[..|tids| - 1], tids[|tids| - 1];
      GiveUpAllBlocksOnly(s, cfg, front, now, addr);
      assert last in tids && forall tid :: tid in front ==> tid in tids;
    }
  }

  /**
   * After a tick that knows somebody, every entry of the blacklist is younger than an hour, those that
   * were so before are still there, and what is new was put there for a query that timed out.
   */
  lemma TickBlocksExactly(s: Dht, cfg: Config, f: Findings, now: int, addr: Addr)
    requires Safe(s, cfg) && CanFind(s, cfg, f, now) && s.table.cache != map[]
    ensures
      var s' := Tick(s, cfg, f, now);
      && (addr in s'.blacklist ==> Shunned(s', addr, now))
      && (Shunned(s, addr, now) ==> addr in s'.blacklist)
      && (addr in s'.blacklist && !(addr in s.blacklist && s'.blacklist[addr] == s.blacklist[addr]) ==>
            && s'.blacklist[addr] == now
            && exists tid ::
                 && tid in s.trans.live && s.trans.live[tid].addr == addr && s.trans.live[tid].qtype != Ping
                 && TimesOut(s.trans.live[tid], TIMEOUT, cfg.tries as nat, now))
  {
    hide Safe, TimesOut, GiveUpAll, Refresh, PingAll, Drop, IsPlan, ListsSilent, Pruned, Unanswered;
    StagesKeep(s, cfg, f, now);
    GiveUpAllBlocksOnly(s, cfg, f.dropped, now, addr);
    if Shunned(s, addr, now) {
      StaysShunned(s, cfg, f.dropped, now, addr);
    }
    if Unanswered(s, cfg, f.dropped, addr) {
      UnansweredTimesOut(s, cfg, f.dropped, now, addr);
    }
  }

  lemma StaysShunned(s: Dht, cfg: Config, tids: seq<Tid>, now: int, addr: Addr)
    requires Shunned(s, addr, now) && addr in GiveUpAll(s, cfg, tids, now).blacklist
    requires
      var after := GiveUpAll(s, cfg, tids, now).blacklist;
      after[addr] == s.blacklist[addr] || after[addr] == now
    ensures Shunned(GiveUpAll(s, cfg, tids, now), addr, now)
  {
    hide GiveUpAll;
  }

  lemma UnansweredTimesOut(s: Dht, cfg: Config, tids: seq<Tid>, now: int, addr: Addr)
    requires ListsTimedOut(s, cfg, tids, now) && Unanswered(s, cfg, tids, addr)
    ensures exists tid ::
              && tid in s.trans.live && s.trans.live[tid].addr == addr && s.trans.live[tid].qtype != Ping
              && TimesOut(s.trans.live[tid], TIMEOUT, cfg.tries as nat, now)
  {
    hide TimesOut;
  }
}
