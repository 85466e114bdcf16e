/**
 * The transactions in flight: a table by id, and an index by query type and address which is
 * written on every insertion and never cleaned.
 */
module Transactions {
  import opened Bits
  import opened Options
  import opened Nodes
  import opened TransactionIds

  type Tid = seq<byte>

  datatype QueryType = Ping | FindNode | GetPeers | AnnouncePeer

  datatype Transaction = Transaction(
    tid: Tid,
    addr: Addr,
    qtype: QueryType,
    infoHash: Option<Id>,
    target: Option<Id>,
    announcePort: Option<bv16>,
    announceImplied: bool,
    createdAt: int,
    retries: nat)

  /** The query type and the address; as text, the two separated by a colon. */
  datatype Key = Key(qtype: QueryType, addr: Addr)

  datatype State = State(cursor: nat, live: map<Tid, Transaction>, index: map<Key, Tid>)

  const MAX_TRANSACTIONS := 10000

  function KeyOf(t: Transaction): Key {
    Key(t.qtype, t.addr)
  }

  const EMPTY: State := State(0, map[], map[])

  function NextId(s: State, maxCursor: nat): Tid
    requires maxCursor > 0
  {
    Int2Bytes(s.cursor % maxCursor)
  }

  function Advance(s: State): State {
    s.(cursor := (s.cursor + 1) % WORD)
  }

  predicate Accepts(s: State) {
    |s.live| < MAX_TRANSACTIONS
  }

  function Add(s: State, t: Transaction): State {
    if Accepts(s) then s.(live := s.live[t.tid := t], index := s.index[KeyOf(t) := t.tid]) else s
  }

  function GetByIndex(s: State, qtype: QueryType, addr: Addr): Option<Transaction> {
    if Key(qtype, addr) in s.index && s.index[Key(qtype, addr)] in s.live
    then Some(s.live[s.index[Key(qtype, addr)]])
    else None
  }

  function Finish(s: State, tid: Tid): State {
    s.(live := s.live - {tid})
  }

  /** Retries are counted in a byte that stops at its maximum. */
  function Retried(t: Transaction, now: int): Transaction {
    t.(retries := if t.retries < 255 then t.retries + 1 else t.retries, createdAt := now)
  }

  function MarkRetry(s: State, tid: Tid, now: int): State {
    if tid in s.live then s.(live := s.live[tid := Retried(s.live[tid], now)]) else s
  }

  // ----- the index finds the latest transaction of a kind

  datatype Op = Generate | Insertion(t: Transaction) | Finishing(tid: Tid) | Retrying(tid: Tid, now: int)

  function Step(s: State, op: Op): State {
    match op
    case Generate => Advance(s)
    case Insertion(t) => Add(s, t)
    case Finishing(tid) => Finish(s, tid)
    case Retrying(tid, now) => MarkRetry(s, tid, now)
  }

  function Run(ops: seq<Op>): State {
    if ops == [] then EMPTY else Step(Run(ops[..|ops| - 1]), ops[|ops| - 1])
  }

  /** The transactions a run has accepted, oldest first. */
  function Accepted(ops: seq<Op>): seq<Transaction> {
    if ops == [] then []
    else
      var front, last := ops[..|ops| - 1], ops[|ops| - 1];
      Accepted(front) + if last.Insertion? && Accepts(Run(front)) then [last.t] else []
  }

  ghost predicate FreshIds(ts: seq<Transaction>) {
    forall i, j :: 0 <= i < j < |ts| ==> ts[i].tid != ts[j].tid
  }

  /** The last of the given kind. */
  function Latest(ts: seq<Transaction>, key: Key): Option<Transaction> {
    if ts == [] then None
    else if KeyOf(ts[|ts| - 1]) == key then Some(ts[|ts| - 1])
    else Latest(ts[..|ts| - 1], key)
  }

  lemma {:induction false} LatestIsMember(ts: seq<Transaction>, key: Key)
    ensures Latest(ts, key).Some? ==> Latest(ts, key).value in ts && KeyOf(Latest(ts, key).value) == key
  {
    if ts != [] && KeyOf(ts[|ts| - 1]) != key {
      LatestIsMember(ts[..|ts| - 1], key);
    }
  }

  /** The same query, however often it was sent. */
  predicate SameQuery(t: Transaction, u: Transaction) {
    t == u.(createdAt := t.createdAt, retries := t.retries)
  }

  ghost predicate Tracks(s: State, ts: seq<Transaction>) {
    && (forall key :: key in s.index <==> Latest(ts, key).Some?)
    && (forall key :: key in s.index ==> s.index[key] == Latest(ts, key).value.tid)
    && (forall tid :: tid in s.live ==> s.live[tid].tid == tid && exists t :: t in ts && SameQuery(s.live[tid], t))
  }

  lemma AddTracks(s: State, ts: seq<Transaction>, t: Transaction)
    requires Tracks(s, ts) && Accepts(s)
    ensures Tracks(Add(s, t), ts + [t])
  {
    var s', ts' := Add(s, t), ts + [t];
    assert ts'[..|ts'| - 1] == ts;
    forall tid | tid in s'.live
      ensures s'.live[tid].tid == tid && exists u :: u in ts' && SameQuery(s'.live[tid], u)
    {
      if tid == t.tid {
        assert t in ts' && SameQuery(t, t);
      } else {
        var u :| u in ts && SameQuery(s.live[tid], u);
        assert u in ts';
      }
    }
  }

  lemma FinishTracks(s: State, ts: seq<Transaction>, tid: Tid)
    requires Tracks(s, ts)
    ensures Tracks(Finish(s, tid), ts)
  {
  }

  lemma RetryTracks(s: State, ts: seq<Transaction>, tid: Tid, now: int)
    requires Tracks(s, ts)
    ensures Tracks(MarkRetry(s, tid, now), ts)
  {
    if tid in s.live {
      var u :| u in ts && SameQuery(s.live[tid], u);
      assert SameQuery(Retried(s.live[tid], now), u);
    }
  }

  lemma {:induction false} RunTracks(ops: seq<Op>)
    ensures Tracks(Run(ops), Accepted(ops))
  {
    hide Tracks, Add, Finish, MarkRetry;
    if ops == [] {
      EmptyTracks();
    } else {
      var front, last := ops[..|ops| - 1], ops[|ops| - 1];
      RunTracks(front);
      var s, ts := Run(front), Accepted(front);
      assert ts + [] == ts;
      match last {
        case Generate =>
          AdvanceTracks(s, ts);
        case Insertion(t) =>
          if Accepts(s) {
            AddTracks(s, ts, t);
          } else {
            RefusedChangesNothing(s, t);
          }
        case Finishing(tid) =>
          FinishTracks(s, ts, tid);
        case Retrying(tid, now) =>
          RetryTracks(s, ts, tid, now);
      }
    }
  }

  lemma EmptyTracks()
    ensures Tracks(EMPTY, [])
  {
  }

  lemma AdvanceTracks(s: State, ts: seq<Transaction>)
    requires Tracks(s, ts)
    ensures Tracks(Advance(s), ts)
  {
  }

  lemma RefusedChangesNothing(s: State, t: Transaction)
    requires !Accepts(s)
    ensures Add(s, t) == s
  {
  }

  /**
   * After any run with fresh ids, a lookup by query type and address finds the transaction of that
   * kind accepted last, if it is still in flight, and nothing otherwise.
   */
  lemma LookupFindsLatest(ops: seq<Op>, qtype: QueryType, addr: Addr)
    requires FreshIds(Accepted(ops))
    ensures
      var s, latest := Run(ops), Latest(Accepted(ops), Key(qtype, addr));
      match GetByIndex(s, qtype, addr)
      case Some(t) => latest.Some? && latest.value.tid in s.live && SameQuery(t, latest.value)
      case None => latest.None? || latest.value.tid !in s.live
  {
    RunTracks(ops);
    var s, ts := Run(ops), Accepted(ops);
    LatestIsMember(ts, Key(qtype, addr));
    if GetByIndex(s, qtype, addr).Some? {
      var tid := s.index[Key(qtype, addr)];
      var u :| u in ts && SameQuery(s.live[tid], u);
      var i :| 0 <= i < |ts| && ts[i] == u;
      var j :| 0 <= j < |ts| && ts[j] == Latest(ts, Key(qtype, addr)).value;
      assert i == j;
    }
  }

  /** However a run goes, the table stays within its bound. */
  lemma {:induction false} NeverOverfull(ops: seq<Op>)
    ensures |Run(ops).live| <= 10000
  {
    if ops != [] {
      var front, last := ops[..|ops| - 1], ops[|ops| - 1];
      NeverOverfull(front);
      var s := Run(front);
      match last {
        case Insertion(t) =>
          assert s.live[t.tid := t].Keys == s.live.Keys + {t.tid};
        case Finishing(tid) =>
          assert (s.live - {tid}).Keys == s.live.Keys - {tid};
        case Retrying(tid, now) =>
          if tid in s.live {
            assert s.live[tid := Retried(s.live[tid], now)].Keys == s.live.Keys;
          }
        case Generate =>
      }
    }
  }

  // ----- why ids must be fresh

  /** What the index points to in flight is what it was asked for. */
  ghost predicate Honest(s: State) {
    forall key :: key in s.index && s.index[key] in s.live ==> KeyOf(s.live[s.index[key]]) == key
  }

  /** An insertion keeps the index honest exactly when no other entry holds the id already. */
  lemma InsertionHonestExactly(s: State, t: Transaction)
    requires Honest(s) && Accepts(s)
    ensures Honest(Add(s, t)) <==> forall key :: key in s.index && key != KeyOf(t) ==> s.index[key] != t.tid
  {
    var s' := Add(s, t);
    if Honest(s') {
      forall key | key in s.index && key != KeyOf(t)
        ensures s.index[key] != t.tid
      {
        assert s'.index[key] == s.index[key];
      }
    }
  }

  // ----- at most one transaction of a kind per address

  ghost predicate IsIssued(tid: Tid, n: nat) {
    exists m: nat :: m < n && tid == Int2Bytes(m)
  }

  /** The ids given out so far are those of the numbers below `n`. */
  ghost predicate Issued(s: State, n: nat, maxCursor: nat) {
    && n <= maxCursor < WORD
    && s.cursor == n
    && (forall tid :: tid in s.live ==> IsIssued(tid, n))
    && (forall key :: key in s.index ==> IsIssued(s.index[key], n))
  }

  lemma IssuedGrows(n: nat)
    requires n < WORD
    ensures forall tid :: IsIssued(tid, n) ==> IsIssued(tid, n + 1)
    ensures IsIssued(Int2Bytes(n), n + 1) && !IsIssued(Int2Bytes(n), n)
  {
    hide Int2Bytes;
    forall tid | IsIssued(tid, n)
      ensures IsIssued(tid, n + 1) && tid != Int2Bytes(n)
    {
      var m: nat :| m < n && tid == Int2Bytes(m);
      IdsDiffer(m, n);
      assert m < n + 1;
    }
    assert n < n + 1;
  }

  /** Every transaction of this type in flight is the one the index has for its address. */
  ghost predicate Indexed(s: State, qtype: QueryType) {
    forall tid :: tid in s.live && s.live[tid].qtype == qtype ==>
      KeyOf(s.live[tid]) in s.index && s.index[KeyOf(s.live[tid])] == tid
  }

  ghost predicate OnePerAddr(s: State, qtype: QueryType) {
    forall t, u ::
      t in s.live && u in s.live && KeyOf(s.live[t]) == KeyOf(s.live[u]) && s.live[t].qtype == qtype ==> t == u
  }

  lemma IndexedIsOnePerAddr(s: State, qtype: QueryType)
    requires Indexed(s, qtype)
    ensures OnePerAddr(s, qtype)
  {
  }

  /** Draws an id and opens a transaction under it. */
  function Open(s: State, maxCursor: nat, t: Transaction): State
    requires maxCursor > 0
  {
    Add(Advance(s), t.(tid := NextId(s, maxCursor)))
  }

  lemma NextIdIsFresh(s: State, n: nat, maxCursor: nat)
    requires Issued(s, n, maxCursor) && n < maxCursor
    ensures NextId(s, maxCursor) == Int2Bytes(n) && NextId(s, maxCursor) !in s.live
    ensures forall key :: key in s.index ==> s.index[key] != NextId(s, maxCursor)
  {
    hide Int2Bytes, IsIssued;
    SmallRemainder(n, maxCursor);
    IssuedGrows(n);
  }

  lemma SmallRemainder(n: nat, m: nat)
    requires n < m
    ensures n % m == n
  {
  }

  lemma OpenKeepsIssued(s: State, n: nat, maxCursor: nat, t: Transaction)
    requires Issued(s, n, maxCursor) && n < maxCursor
    ensures Issued(Open(s, maxCursor, t), n + 1, maxCursor)
  {
    hide Int2Bytes, IsIssued;
    NextIdIsFresh(s, n, maxCursor);
    IssuedGrows(n);
  }

  /** Opening a transaction only where the index knows of none keeps them one per address. */
  lemma OpenKeepsIndexed(s: State, n: nat, maxCursor: nat, t: Transaction, qtype: QueryType)
    requires Issued(s, n, maxCursor) && n < maxCursor && Indexed(s, qtype)
    requires t.qtype == qtype ==> GetByIndex(s, qtype, t.addr).None?
    ensures Indexed(Open(s, maxCursor, t), qtype)
  {
    hide Int2Bytes, IsIssued;
    NextIdIsFresh(s, n, maxCursor);
    var s' := Open(s, maxCursor, t);
    forall tid | tid in s'.live && s'.live[tid].qtype == qtype
      ensures KeyOf(s'.live[tid]) in s'.index && s'.index[KeyOf(s'.live[tid])] == tid
    {
      if tid in s.live {
        assert s'.live[tid] == s.live[tid];
      }
    }
  }
}
