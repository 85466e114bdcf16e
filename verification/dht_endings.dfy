/** What ends a query of any type, in one step and over a run. */
module DhtEndings {
  import Words
  import opened Options
  import opened Nodes
  import opened Transactions
  import opened Backoff
  import opened DhtMachine
  import opened DhtSafety
  import opened DhtFlights

  /** A packet whose sender is not blocked and which is an error message under the id. */
  predicate IsErrorFor(s: Dht, e: Timed, tid: Tid) {
    && e.event.Received? && !Blocked(s.blacklist, e.event.addr, e.now)
    && match ReadPacket(e.event.data)
       case Some(m) => m.kind == Words.E && m.tid == tid
       case None => false
  }

  /** A complete response under the query's id, from the address that was asked. */
  predicate Answers(t: Transaction, m: Message, addr: Addr) {
    && m.kind == Words.R && m.tid == t.tid && addr == t.addr
    && DictAt(m.fields, Words.R).Some? && IdAt(DictAt(m.fields, Words.R).value, Words.ID).Some?
  }

  /** A packet whose sender is not blocked and which is an answer that ends the query. */
  predicate IsLastAnswerTo(s: Dht, e: Timed, t: Transaction) {
    && e.event.Received? && !Blocked(s.blacklist, e.event.addr, e.now)
    && match ReadPacket(e.event.data)
       case Some(m) => Answers(t, m, e.event.addr) && Ends(t, DictAt(m.fields, Words.R).value)
       case None => false
  }

  /** A tick that sweeps, in which the query times out after its last retry. */
  predicate IsLastTickFor(s: Dht, cfg: Config, e: Timed, t: Transaction) {
    e.event.Ticked? && s.table.cache != map[] && TimesOut(t, TIMEOUT, cfg.tries as nat, e.now)
  }

  predicate EndsQuery(s: Dht, cfg: Config, e: Timed, tid: Tid) {
    && tid in s.trans.live
    && (|| IsErrorFor(s, e, tid) || IsLastAnswerTo(s, e, s.trans.live[tid])
        || IsLastTickFor(s, cfg, e, s.trans.live[tid]))
  }

  /** What a step makes of a query it does not end: a sweep may send it again. */
  ghost function GoesOnAs(s: Dht, cfg: Config, e: Timed, tid: Tid): Transaction
    requires tid in s.trans.live
  {
    if e.event.Ticked? && s.table.cache != map[] && SentAgain(s.trans, tid, TIMEOUT, cfg.tries as nat, e.now)
    then Retried(s.trans.live[tid], e.now)
    else s.trans.live[tid]
  }

  lemma IsItsId(s: Dht, tid: Tid)
    requires Typed(s.trans) && tid in s.trans.live
    ensures s.trans.live[tid].tid == tid
  {
  }

  lemma ReceivedEnds(s: Dht, cfg: Config, e: Timed, tid: Tid)
    requires Safe(s, cfg) && tid in s.trans.live && e.event.Received? && Next(s, cfg, e).drawn <= MAX_CURSOR
    ensures tid in Next(s, cfg, e).trans.live <==> !EndsQuery(s, cfg, e, tid)
    ensures tid in Next(s, cfg, e).trans.live ==> Next(s, cfg, e).trans.live[tid] == s.trans.live[tid]
  {
    hide Bounded, Exclusive, Logged, Typed, Request, Response, ReadPacket, Blocked, Ends, DictAt, IdAt, IsIssued;
    var data, addr, tokenValid := e.event.data, e.event.addr, e.event.tokenValid;
    Words.KeysDiffer();
    IsItsId(s, tid);
    match ReadPacket(data) {
      case Some(Message(id, kind, m)) =>
        RequestLeavesQueries(s, cfg, m, addr, tokenValid, e.now);
        if kind == Words.R && !Blocked(s.blacklist, addr, e.now) {
          ResponseEnds(s, cfg, id, m, addr, e.now, tid);
        }
      case None =>
    }
  }

  lemma ResponseEnds(s: Dht, cfg: Config, id: Tid, m: DhtMachine.Fields, addr: Addr, now: int, tid: Tid)
    requires Safe(s, cfg) && tid in s.trans.live && Response(s, cfg, id, m, addr, now).drawn <= MAX_CURSOR
    ensures
      var t, s' := s.trans.live[tid], Response(s, cfg, id, m, addr, now);
      && (tid !in s'.trans.live <==>
            Answers(t, Message(id, Words.R, m), addr) && Ends(t, DictAt(m, Words.R).value))
      && (tid in s'.trans.live ==> s'.trans.live[tid] == t)
  {
    hide Bounded, Exclusive, Logged, LearnAll, Settle, Ends, IdAt, BytesAt, DictAt, IsIssued;
    if id !in s.trans.live || s.trans.live[id].addr != addr {
      OtherAnswerExtends(s, cfg, id, m, addr, now);
    } else if DictAt(m, Words.R).Some? && IdAt(DictAt(m, Words.R).value, Words.ID).Some? {
      AnswerEnds(s, cfg, id, m, addr, now);
    }
  }

  lemma SweepEnds(s: Dht, cfg: Config, f: Findings, now: int, tid: Tid)
    requires Safe(s, cfg) && tid in s.trans.live
    ensures
      var t, s' := s.trans.live[tid], AfterSweep(s, cfg, f, now);
      && s'.drawn == s.drawn
      && (tid in s'.trans.live <==> !TimesOut(t, TIMEOUT, cfg.tries as nat, now))
      && (tid in s'.trans.live ==>
            s'.trans.live[tid] ==
            if SentAgain(s.trans, tid, TIMEOUT, cfg.tries as nat, now) then Retried(t, now) else t)
  {
    hide Safe, TimesOut, SentAgain, GiveUpAll;
    SweepDrawsNothing(s, cfg, f, now);
    var swept := Sweep(s.trans, TIMEOUT, cfg.tries as nat, now, map[]);
    assert tid in swept.live <==> !TimesOut(s.trans.live[tid], TIMEOUT, cfg.tries as nat, now);
  }

  /** After its sweep a tick ends nothing. */
  lemma TickExtendsSweep(s: Dht, cfg: Config, f: Findings, now: int)
    requires Safe(s, cfg)
    ensures Extends(AfterSweep(s, cfg, f, now), AfterPings(s, cfg, f, now), {})
    ensures Safe(AfterSweep(s, cfg, f, now), cfg) && AfterSweep(s, cfg, f, now).drawn == s.drawn
  {
    hide Safe, SweepOut, PingAll, Refresh, Extends;
    StagesKeep(s, cfg, f, now);
    SweepDrawsNothing(s, cfg, f, now);
    RefreshExtends(AfterSweep(s, cfg, f, now), cfg, f.tasks, now);
    PingAllExtends(AfterRefresh(s, cfg, f, now), cfg, f.silent, now);
    ExtendsOnward(AfterSweep(s, cfg, f, now), AfterRefresh(s, cfg, f, now), AfterPings(s, cfg, f, now));
  }

  lemma TickEnds(s: Dht, cfg: Config, e: Timed, tid: Tid)
    requires Safe(s, cfg) && tid in s.trans.live && e.event.Ticked? && Next(s, cfg, e).drawn <= MAX_CURSOR
    ensures tid in Next(s, cfg, e).trans.live <==> !EndsQuery(s, cfg, e, tid)
    ensures tid in Next(s, cfg, e).trans.live ==> Next(s, cfg, e).trans.live[tid] == GoesOnAs(s, cfg, e, tid)
  {
    hide Bounded, Typed, Logged, AfterSweep, AfterPings, Join, IsIssued, TimesOut, SentAgain;
    var f := e.event.findings;
    SweepEnds(s, cfg, f, e.now, tid);
    if s.table.cache == map[] {
      JoinExtends(s, cfg, f.prime, e.now);
    } else {
      TickExtendsSweep(s, cfg, f, e.now);
      if TimesOut(s.trans.live[tid], TIMEOUT, cfg.tries as nat, e.now) {
        StaysClosed(AfterSweep(s, cfg, f, e.now), AfterPings(s, cfg, f, e.now), {}, tid);
      }
    }
  }

  /**
   * A step ends a query exactly if it is an error message under its id, an answer from its address
   * whose contents end a query of its type, or a tick in which it times out. Else it goes on, and at
   * most is sent again.
   */
  lemma QueryEndsExactly(s: Dht, cfg: Config, e: Timed, tid: Tid)
    requires Safe(s, cfg) && tid in s.trans.live && Next(s, cfg, e).drawn <= MAX_CURSOR
    ensures tid in Next(s, cfg, e).trans.live <==> !EndsQuery(s, cfg, e, tid)
    ensures tid in Next(s, cfg, e).trans.live ==> Next(s, cfg, e).trans.live[tid] == GoesOnAs(s, cfg, e, tid)
  {
    hide Safe, Receive, Tick, SearchFrom, TimesOut, SentAgain;
    match e.event {
      case Received(_, _, _) =>
        ReceivedEnds(s, cfg, e, tid);
      case Ticked(_) =>
        TickEnds(s, cfg, e, tid);
      case Searched(ih, port, nodes) =>
        SearchExtends(s, cfg, nodes, ih, port, e.now);
    }
  }

  // ----- what has ended stays ended

  /** An id drawn before and no longer in flight is not used again before the ids wrap around. */
  lemma StaysClosed(s: Dht, s': Dht, closed: set<Tid>, tid: Tid)
    requires Extends(s, s', closed) && tid !in s.trans.live && IsIssued(tid, s.drawn) && s'.drawn <= MAX_CURSOR
    ensures tid !in s'.trans.live
  {
  }

  lemma StepStaysClosed(s: Dht, cfg: Config, e: Timed, tid: Tid)
    requires Safe(s, cfg) && tid !in s.trans.live && IsIssued(tid, s.drawn) && Next(s, cfg, e).drawn <= MAX_CURSOR
    ensures tid !in Next(s, cfg, e).trans.live
  {
    hide Safe, Request, Response, ReadPacket, Blocked, Join, GiveUpAll, PingAll, Refresh, SearchFrom, IsIssued, Extends;
    match e.event {
      case Received(data, addr, tokenValid) =>
        match ReadPacket(data) {
          case Some(Message(id, kind, m)) =>
            RequestLeavesQueries(s, cfg, m, addr, tokenValid, e.now);
            ResponseExtends(s, cfg, id, m, addr, e.now);
            var s' := Response(s, cfg, id, m, addr, e.now);
            if s'.drawn <= MAX_CURSOR {
              StaysClosed(s, s', if id in s.trans.live && s.trans.live[id].qtype != Ping then {id} else {}, tid);
            }
          case None =>
        }
      case Ticked(f) =>
        TickStaysClosed(s, cfg, f, e.now, tid);
      case Searched(ih, port, nodes) =>
        SearchExtends(s, cfg, nodes, ih, port, e.now);
        StaysClosed(s, SearchFrom(s, nodes, ih, port, e.now), {}, tid);
    }
  }

  lemma TickStaysClosed(s: Dht, cfg: Config, f: Findings, now: int, tid: Tid)
    requires Safe(s, cfg) && tid !in s.trans.live && IsIssued(tid, s.drawn) && Tick(s, cfg, f, now).drawn <= MAX_CURSOR
    ensures tid !in Tick(s, cfg, f, now).trans.live
  {
    hide Safe, Join, GiveUpAll, AfterPings, IsIssued, Extends;
    if s.table.cache == map[] {
      JoinExtends(s, cfg, f.prime, now);
      StaysClosed(s, Join(s, cfg, f.prime, now), {}, tid);
    } else {
      TickExtendsSweep(s, cfg, f, now);
      assert tid !in AfterSweep(s, cfg, f, now).trans.live;
      StaysClosed(AfterSweep(s, cfg, f, now), AfterPings(s, cfg, f, now), {}, tid);
    }
  }

  lemma WasIssued(cfg: Config, start: int, run: seq<Timed>, from: nat, tid: Tid)
    requires from <= |run| && tid in Reached(cfg, start, run[..from]).trans.live
    requires Reached(cfg, start, run).drawn <= MAX_CURSOR
    ensures IsIssued(tid, Reached(cfg, start, run).drawn)
  {
    hide Reached, IsIssued, Bounded, Logged, Typed;
    ReachedIsSafe(cfg, start, run[..from]);
    RunDraws(cfg, start, run, from);
    IssuedEarlier(tid, Reached(cfg, start, run[..from]).drawn, Reached(cfg, start, run).drawn);
  }

  // ----- over a whole run

  ghost predicate EndedSince(cfg: Config, start: int, run: seq<Timed>, from: nat, tid: Tid)
    requires from <= |run|
  {
    exists i :: from <= i < |run| && EndsQuery(Reached(cfg, start, run[..i]), cfg, run[i], tid)
  }

  lemma EndedSinceLonger(cfg: Config, start: int, run: seq<Timed>, from: nat, tid: Tid)
    requires from < |run|
    ensures EndedSince(cfg, start, run, from, tid) <==>
            || EndedSince(cfg, start, run[..|run| - 1], from, tid)
            || EndsQuery(Reached(cfg, start, run[..|run| - 1]), cfg, run[|run| - 1], tid)
  {
    hide Reached, EndsQuery;
    var front := run[..|run| - 1];
    assert forall i :: from <= i < |front| ==> front[..i] == run[..i] && front[i] == run[i];
    if EndedSince(cfg, start, front, from, tid) {
      var i :| from <= i < |front| && EndsQuery(Reached(cfg, start, front[..i]), cfg, front[i], tid);
      assert EndsQuery(Reached(cfg, start, run[..i]), cfg, run[i], tid);
    }
  }

  lemma NotEndedYet(cfg: Config, start: int, run: seq<Timed>, tid: Tid)
    ensures !EndedSince(cfg, start, run, |run|, tid)
  {
  }

  /**
   * Over a whole run, until the ids wrap around, a query in flight at some time is in flight at the
   * end exactly if no step since has ended it; it is still the same query then.
   */
  lemma {:induction false} QueryStaysExactly(cfg: Config, start: int, run: seq<Timed>, from: nat, tid: Tid)
    requires from <= |run| && tid in Reached(cfg, start, run[..from]).trans.live
    requires Reached(cfg, start, run).drawn <= MAX_CURSOR
    ensures tid in Reached(cfg, start, run).trans.live <==> !EndedSince(cfg, start, run, from, tid)
    ensures tid in Reached(cfg, start, run).trans.live ==>
              SameQuery(Reached(cfg, start, run[..from]).trans.live[tid], Reached(cfg, start, run).trans.live[tid])
    decreases |run|
  {
    hide Safe, Next, EndsQuery, IsIssued, EndedSince, SentAgain;
    if from == |run| {
      assert run[..from] == run;
      NotEndedYet(cfg, start, run, tid);
    } else {
      var front, e := run[..|run| - 1], run[|run| - 1];
      var s := Reached(cfg, start, front);
      ReachedIsSafe(cfg, start, front);
      DrawnGrows(s, cfg, e);
      assert front[..from] == run[..from];
      QueryStaysExactly(cfg, start, front, from, tid);
      EndedSinceLonger(cfg, start, run, from, tid);
      if tid in s.trans.live {
        QueryEndsExactly(s, cfg, e, tid);
      } else {
        WasIssued(cfg, start, front, from, tid);
        StepStaysClosed(s, cfg, e, tid);
        NotInFlight(s, cfg, e, tid);
      }
    }
  }

  lemma NotInFlight(s: Dht, cfg: Config, e: Timed, tid: Tid)
    requires tid !in s.trans.live
    ensures !EndsQuery(s, cfg, e, tid)
  {
  }

  /** The same but for retries. */
  predicate SameQuery(t: Transaction, t': Transaction) {
    t' == t.(createdAt := t'.createdAt, retries := t'.retries) && t.retries <= t'.retries
  }
}
