/** The transaction manager: its table and index, written in place. */
module TransactionManagers {
  import opened Options
  import opened Nodes
  import opened TransactionIds
  import opened Transactions
  import opened Backoff

  class TransactionManager {
    var cursor: nat
    const maxCursor: nat
    var live: map<Tid, Transaction>
    var index: map<Key, Tid>

    ghost predicate Valid()
      reads this
    {
      cursor < WORD && 0 < maxCursor < WORD && |live| <= MAX_TRANSACTIONS
    }

    ghost function View(): State
      reads this
    {
      State(cursor, live, index)
    }

    constructor (maxCursor: nat)
      requires 0 < maxCursor < WORD
      ensures Valid() && this.maxCursor == maxCursor && View() == EMPTY
    {
      cursor := 0;
      this.maxCursor := maxCursor;
      live, index := map[], map[];
    }

    method GenId() returns (tid: Tid)
      requires Valid()
      modifies this
      ensures Valid() && View() == Advance(old(View())) && tid == NextId(old(View()), maxCursor)
    {
      var id := cursor % maxCursor;
      cursor := (cursor + 1) % WORD;
      RemainderIsSmaller(old(cursor), maxCursor);
      tid := ToBytes(id);
    }

    method Insert(t: Transaction) returns (accepted: bool)
      requires Valid()
      modifies this
      ensures Valid() && View() == Add(old(View()), t) && accepted == Accepts(old(View()))
    {
      if |live| >= MAX_TRANSACTIONS {
        return false;
      }
      assert live[t.tid := t].Keys == live.Keys + {t.tid};
      live := live[t.tid := t];
      index := index[KeyOf(t) := t.tid];
      return true;
    }

    function GetByTransId(tid: Tid): Option<Transaction>
      reads this
    {
      if tid in live then Some(live[tid]) else None
    }

    function GetByIndex(qtype: QueryType, addr: Addr): (r: Option<Transaction>)
      reads this
      ensures r == Transactions.GetByIndex(View(), qtype, addr)
    {
      var key := Key(qtype, addr);
      if key in index then GetByTransId(index[key]) else None
    }

    method FinishByTransId(tid: Tid)
      requires Valid()
      modifies this
      ensures Valid() && View() == Finish(old(View()), tid)
    {
      assert (live - {tid}).Keys == live.Keys - {tid};
      live := live - {tid};
    }

    function Len(): nat
      reads this
    {
      |live|
    }

    /** What is overdue at `now`: to be sent again, or to be dropped. */
    method ScanTimeouts(timeout: nat, maxRetries: nat, now: int) returns (toRetry: set<Tid>, toRemove: set<Tid>)
      requires Valid()
      ensures toRetry == set tid | tid in live && Retries(live[tid], timeout, maxRetries, now)
      ensures toRemove == set tid | tid in live && TimesOut(live[tid], timeout, maxRetries, now)
    {
      hide Overdue;
      toRetry, toRemove := {}, {};
      var rest := live.Keys;
      while rest != {}
        invariant rest <= live.Keys
        invariant forall tid :: tid in toRetry <==>
                    tid in live.Keys - rest && Retries(live[tid], timeout, maxRetries, now)
        invariant forall tid :: tid in toRemove <==>
                    tid in live.Keys - rest && TimesOut(live[tid], timeout, maxRetries, now)
        decreases |rest|
      {
        var tid :| tid in rest;
        if Overdue(live[tid], timeout, now) {
          if live[tid].retries >= maxRetries {
            toRemove := toRemove + {tid};
          } else {
            toRetry := toRetry + {tid};
          }
        }
        rest := rest - {tid};
      }
    }

    method MarkRetry(tid: Tid, now: int)
      requires Valid()
      modifies this
      ensures Valid() && View() == Transactions.MarkRetry(old(View()), tid, now)
    {
      if tid in live {
        assert live[tid := Retried(live[tid], now)].Keys == live.Keys;
        live := live[tid := Retried(live[tid], now)];
      }
    }

    /** Marks each of the given transactions that is to be sent again. */
    method ResendAll(toRetry: set<Tid>, now: int, marks: map<Tid, int>) returns (resent: set<Tid>)
      requires Valid() && toRetry <= live.Keys
      modifies this
      ensures Valid() && cursor == old(cursor) && index == old(index) && live.Keys == old(live).Keys
      ensures resent == set tid | tid in toRetry && Resends(old(live)[tid])
      ensures forall tid :: tid in live ==>
                live[tid] ==
                if tid in resent then Retried(old(live)[tid], MarkedAt(marks, tid, now)) else old(live)[tid]
    {
      hide Retried, Resends, MarkedAt;
      resent := {};
      var rest := toRetry;
      while rest != {}
        invariant Valid() && cursor == old(cursor) && index == old(index) && rest <= toRetry
        invariant live.Keys == old(live).Keys
        invariant forall tid :: tid in resent <==> tid in toRetry - rest && Resends(old(live)[tid])
        invariant forall tid :: tid in live ==>
                    live[tid] ==
                    if tid in resent then Retried(old(live)[tid], MarkedAt(marks, tid, now)) else old(live)[tid]
        decreases |rest|
      {
        var tid :| tid in rest;
        if Resends(live[tid]) {
          MarkRetry(tid, MarkedAt(marks, tid, now));
          resent := resent + {tid};
        }
        rest := rest - {tid};
      }
    }
  }

  lemma RemainderIsSmaller(n: nat, m: nat)
    requires m > 0
    ensures n % m < m
  {
  }
}
