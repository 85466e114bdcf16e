/** One metadata download: the messages of a peer, one after another, until the metadata is whole. */
module Wire {
  import opened Bits
  import opened Texts
  import opened Options
  import opened Nodes
  import opened SortedMaps
  import opened Decimals
  import opened Bencode
  import opened BencodeCodec
  import opened Compact

  const REQUEST := 0
  const DATA := 1
  const BLOCK := 16384
  const MAX_METADATA_SIZE := 16384000
  const MAX_MESSAGE := 1_048_576
  const EXTENDED: byte := 20
  const HANDSHAKE: byte := 0

  const M_KEY: seq<byte> := Text("m")
  const UT_METADATA: seq<byte> := Text("ut_metadata")
  const UT_PEX: seq<byte> := Text("ut_pex")
  const METADATA_SIZE: seq<byte> := Text("metadata_size")
  const MSG_TYPE: seq<byte> := Text("msg_type")
  const PIECE: seq<byte> := Text("piece")
  const ADDED: seq<byte> := Text("added")

  type Hash = seq<byte> -> seq<byte>

  /** What a session sends: a request to the peer, or the address of another peer to the crawler. */
  datatype Effect = Ask(message: seq<byte>) | Forward(addr: Addr)

  datatype Session = Session(
    pieces: Option<seq<seq<byte>>>,
    piecesNum: nat,
    metadataSize: nat,
    utPexId: Option<int>,
    effects: seq<Effect>)

  datatype Status = Pending | Failed | Done(joined: seq<byte>)

  datatype Outcome = Outcome(status: Status, session: Session)

  const START: Session := Session(None, 0, 0, None, [])

  type Fields = seq<Pair<BVal>>

  /** A signed word read as an unsigned one. */
  function AsUsize(n: int): nat {
    n % USIZE_LIMIT
  }

  function IntAt(m: Fields, key: seq<byte>): Option<int> {
    match Get<BVal>(m, key)
    case Some(Int(n)) => Some(n)
    case _ => None
  }

  /** The id the peer gave an extension in the dictionary under `m`. */
  function ExtensionId(m: Fields, name: seq<byte>): Option<int> {
    match Get<BVal>(m, M_KEY)
    case Some(Dict(ids)) => IntAt(ids, name)
    case _ => None
  }

  function PiecesOf(size: nat): nat {
    size / BLOCK + if size % BLOCK != 0 then 1 else 0
  }

  function RequestMessage(extension: int, piece: nat): seq<byte> {
    [EXTENDED, (extension % 256) as byte] +
    Encode(Dict(Put(Put([], MSG_TYPE, Int(REQUEST)), PIECE, Int(piece))))
  }

  function Requests(extension: Option<int>, n: nat): seq<Effect> {
    if extension.None? then [] else seq(n, i requires 0 <= i < n => Ask(RequestMessage(extension.value, i)))
  }

  /** The first extended message announces the size and opens one empty slot for each piece. */
  function OnHandshake(s: Session, rest: Slice): Outcome {
    if s.pieces.Some? then Outcome(Failed, s)
    else
      match DecodeDict(rest, 0)
      case Err(_) => Outcome(Failed, s)
      case Ok(m, _) =>
        var s1 := s.(utPexId := ExtensionId(m, UT_PEX));
        var size := IntAt(m, METADATA_SIZE);
        if size.None? || AsUsize(size.value) > MAX_METADATA_SIZE then Outcome(Failed, s1)
        else
          var n := PiecesOf(AsUsize(size.value));
          Outcome(Pending, Session(Some(seq(n, _ => [])), n, AsUsize(size.value), s1.utPexId,
                                   s.effects + Requests(ExtensionId(m, UT_METADATA), n)))
  }

  /** `piecesNum - 1` as a machine word. */
  function LastPiece(n: nat): nat {
    if n == 0 then USIZE_LIMIT - 1 else n - 1
  }

  predicate WrongSize(s: Session, piece: nat, len: nat) {
    (piece != LastPiece(s.piecesNum) && len != BLOCK) ||
    (piece == LastPiece(s.piecesNum) && len != s.metadataSize % BLOCK)
  }

  function Concat(pieces: seq<seq<byte>>): seq<byte> {
    if pieces == [] then [] else Concat(pieces[..|pieces| - 1]) + pieces[|pieces| - 1]
  }

  predicate AllFilled(pieces: seq<seq<byte>>) {
    forall i :: 0 <= i < |pieces| ==> pieces[i] != []
  }

  function Store(pieces: seq<seq<byte>>, piece: nat, data: seq<byte>): seq<seq<byte>> {
    if piece < |pieces| then pieces[piece := data] else pieces
  }

  /** A block goes to its slot; when no slot is empty the whole is joined and checked. */
  function OnBlock(s: Session, pieces: seq<seq<byte>>, piece: nat, data: seq<byte>,
                   infoHash: seq<byte>, sha1: Hash): Outcome {
    if WrongSize(s, piece, |data|) then Outcome(Failed, s)
    else
      var all := Store(pieces, piece, data);
      if !AllFilled(all) then Outcome(Pending, s.(pieces := Some(all)))
      else if sha1(Concat(all)) != infoHash then Outcome(Failed, s.(pieces := None))
      else Outcome(Done(Concat(all)), s.(pieces := None))
  }

  /** Every six bytes are a peer. */
  function Added(added: seq<byte>): seq<Effect> {
    if |added| < ADDR_BYTES then []
    else [Forward(DecodeIpPort(added[..ADDR_BYTES]).value)] + Added(added[ADDR_BYTES..])
  }

  function OnPex(s: Session, extId: byte, m: Fields): Session {
    if s.utPexId != Some(extId as int) then s
    else
      match Get<BVal>(m, ADDED)
      case Some(Bytes(added)) => s.(effects := s.effects + Added(added))
      case _ => s
  }

  function OnData(s: Session, extId: byte, rest: Slice, infoHash: seq<byte>, sha1: Hash): Outcome {
    if s.pieces.None? then Outcome(Failed, s)
    else
      match DecodeDict(rest, 0)
      case Err(_) => Outcome(Failed, s)
      case Ok(m, index) =>
        if IntAt(m, MSG_TYPE) == Some(DATA) then
          var piece := IntAt(m, PIECE);
          if piece.None? then Outcome(Failed, s)
          else OnBlock(s, s.pieces.value, AsUsize(piece.value), rest[index..], infoHash, sha1)
        else Outcome(Pending, OnPex(s, extId, m))
  }

  function Handle(s: Session, payload: seq<byte>, infoHash: seq<byte>, sha1: Hash): Outcome {
    if |payload| > MAX_MESSAGE then Outcome(Failed, s)
    else if payload == [] || payload[0] != EXTENDED then Outcome(Pending, s)
    else if |payload| < 2 then Outcome(Failed, s)
    else if payload[1] == HANDSHAKE then OnHandshake(s, payload[2..])
    else OnData(s, payload[1], payload[2..], infoHash, sha1)
  }

  /** A whole exchange: it ends with the first message that fails or completes it. */
  function Exchange(s: Session, payloads: seq<seq<byte>>, infoHash: seq<byte>, sha1: Hash): Outcome
    decreases |payloads|
  {
    if payloads == [] then Outcome(Pending, s)
    else
      var o := Handle(s, payloads[0], infoHash, sha1);
      if o.status.Pending? then Exchange(o.session, payloads[1..], infoHash, sha1) else o
  }

  // ----- every slot is empty or exact, and nothing else is ever delivered

  function SlotSize(size: nat, i: nat): nat {
    if i == LastPiece(PiecesOf(size)) then size % BLOCK else BLOCK
  }

  ghost predicate SlotsExact(s: Session) {
    s.pieces.Some? ==>
      && s.metadataSize <= MAX_METADATA_SIZE
      && |s.pieces.value| == s.piecesNum == PiecesOf(s.metadataSize)
      && forall i :: 0 <= i < s.piecesNum ==>
           s.pieces.value[i] == [] || |s.pieces.value[i]| == SlotSize(s.metadataSize, i)
  }

  lemma StoreKeepsExact(s: Session, piece: nat, data: seq<byte>)
    requires SlotsExact(s) && s.pieces.Some? && !WrongSize(s, piece, |data|)
    ensures SlotsExact(s.(pieces := Some(Store(s.pieces.value, piece, data))))
  {
  }

  lemma {:induction false} ConcatLength(pieces: seq<seq<byte>>, size: nat)
    requires |pieces| <= PiecesOf(size) && size % BLOCK != 0
    requires forall i :: 0 <= i < |pieces| ==> |pieces[i]| == SlotSize(size, i)
    ensures |Concat(pieces)| == if |pieces| == PiecesOf(size) then size else |pieces| * BLOCK
  {
    if pieces != [] {
      ConcatLength(pieces[..|pieces| - 1], size);
    }
  }

  /** A size that is a positive multiple of the block size leaves its last slot empty for ever. */
  lemma LastSlotStaysEmpty(s: Session)
    requires SlotsExact(s) && s.pieces.Some? && s.metadataSize > 0 && s.metadataSize % BLOCK == 0
    ensures s.piecesNum > 0 && s.pieces.value[s.piecesNum - 1] == []
  {
  }

  /** What is delivered has the announced size and the wanted hash. */
  lemma DeliveredIsExact(s: Session, piece: nat, data: seq<byte>, infoHash: seq<byte>, sha1: Hash)
    requires SlotsExact(s) && s.pieces.Some?
    requires OnBlock(s, s.pieces.value, piece, data, infoHash, sha1).status.Done?
    ensures
      var joined := OnBlock(s, s.pieces.value, piece, data, infoHash, sha1).status.joined;
      && |joined| == s.metadataSize && sha1(joined) == infoHash
      && (s.metadataSize % BLOCK != 0 || s.metadataSize == 0)
  {
    var all := Store(s.pieces.value, piece, data);
    var s' := s.(pieces := Some(all));
    StoreKeepsExact(s, piece, data);
    if s.metadataSize % BLOCK != 0 {
      ConcatLength(all, s.metadataSize);
    } else if s.metadataSize > 0 {
      LastSlotStaysEmpty(s');
    }
  }

  lemma HandleKeepsExact(s: Session, payload: seq<byte>, infoHash: seq<byte>, sha1: Hash)
    requires SlotsExact(s)
    ensures SlotsExact(Handle(s, payload, infoHash, sha1).session)
    ensures
      var o := Handle(s, payload, infoHash, sha1);
      o.status.Done? ==>
        && s.pieces.Some? && |o.status.joined| == s.metadataSize == o.session.metadataSize
        && sha1(o.status.joined) == infoHash
        && (s.metadataSize % BLOCK != 0 || s.metadataSize == 0)
    ensures
      var o := Handle(s, payload, infoHash, sha1);
      s.pieces.Some? && o.status.Pending? ==> o.session.pieces.Some? && o.session.metadataSize == s.metadataSize
  {
    hide DecodeDict, Requests, Added, RequestMessage;
    if s.pieces.Some? && 2 <= |payload| <= MAX_MESSAGE && payload[0] == EXTENDED && payload[1] != HANDSHAKE {
      var rest := payload[2..];
      match DecodeDict(rest, 0) {
        case Err(_) =>
        case Ok(m, index) =>
          if IntAt(m, MSG_TYPE) == Some(DATA) && IntAt(m, PIECE).Some? {
            BlockKeepsExact(s, AsUsize(IntAt(m, PIECE).value), rest[index..], infoHash, sha1);
          }
      }
    }
  }

  lemma BlockKeepsExact(s: Session, piece: nat, data: seq<byte>, infoHash: seq<byte>, sha1: Hash)
    requires SlotsExact(s) && s.pieces.Some?
    ensures SlotsExact(OnBlock(s, s.pieces.value, piece, data, infoHash, sha1).session)
    ensures
      var o := OnBlock(s, s.pieces.value, piece, data, infoHash, sha1);
      o.status.Done? ==>
        && |o.status.joined| == s.metadataSize && sha1(o.status.joined) == infoHash
        && (s.metadataSize % BLOCK != 0 || s.metadataSize == 0)
  {
    if !WrongSize(s, piece, |data|) {
      StoreKeepsExact(s, piece, data);
      if OnBlock(s, s.pieces.value, piece, data, infoHash, sha1).status.Done? {
        DeliveredIsExact(s, piece, data, infoHash, sha1);
      }
    }
  }

  /** Over any exchange, metadata is only ever delivered with the announced size and the wanted hash. */
  lemma {:induction false} ExchangeDeliversExact(s: Session, payloads: seq<seq<byte>>, infoHash: seq<byte>, sha1: Hash)
    requires SlotsExact(s)
    ensures
      var o := Exchange(s, payloads, infoHash, sha1);
      && SlotsExact(o.session)
      && (o.status.Done? ==>
            && sha1(o.status.joined) == infoHash && |o.status.joined| <= MAX_METADATA_SIZE
            && |o.status.joined| == o.session.metadataSize
            && (s.pieces.Some? ==> |o.status.joined| == s.metadataSize)
            && (|o.status.joined| % BLOCK != 0 || o.status.joined == []))
    decreases |payloads|
  {
    hide Handle;
    if payloads != [] {
      HandleKeepsExact(s, payloads[0], infoHash, sha1);
      ExchangeDeliversExact(Handle(s, payloads[0], infoHash, sha1).session, payloads[1..], infoHash, sha1);
    }
  }

  /** Metadata of a whole number of blocks is never delivered, whatever the peer sends. */
  lemma WholeBlocksNeverComplete(s: Session, payloads: seq<seq<byte>>, infoHash: seq<byte>, sha1: Hash)
    requires SlotsExact(s) && s.pieces.Some? && s.metadataSize > 0 && s.metadataSize % BLOCK == 0
    ensures !Exchange(s, payloads, infoHash, sha1).status.Done?
  {
    ExchangeDeliversExact(s, payloads, infoHash, sha1);
  }

  // ----- the order of the blocks does not matter

  /** The true block `i` of some metadata. */
  function BlockOf(data: seq<byte>, i: nat): seq<byte>
    requires i < PiecesOf(|data|)
  {
    if (i + 1) * BLOCK <= |data| then data[i * BLOCK..(i + 1) * BLOCK] else data[i * BLOCK..]
  }

  /** The slots once the pieces in `seen` have arrived. */
  function Slots(data: seq<byte>, seen: set<nat>): seq<seq<byte>> {
    seq(PiecesOf(|data|), i requires 0 <= i < PiecesOf(|data|) => if i in seen then BlockOf(data, i) else [])
  }

  ghost predicate AllSeen(data: seq<byte>, seen: set<nat>) {
    forall i: nat :: i < PiecesOf(|data|) ==> i in seen
  }

  lemma MoreSeen(data: seq<byte>, seen: set<nat>, more: set<nat>)
    requires AllSeen(data, seen)
    ensures AllSeen(data, seen + more)
  {
  }

  lemma SomethingToSee(data: seq<byte>)
    requires data != []
    ensures !AllSeen(data, {})
  {
    var none: set<nat> := {};
    assert 0 < PiecesOf(|data|) && 0 !in none;
  }

  ghost predicate OnCourse(s: Session, data: seq<byte>, seen: set<nat>) {
    s.pieces == Some(Slots(data, seen)) && s.piecesNum == PiecesOf(|data|) && s.metadataSize == |data|
  }

  function FirstBlocks(data: seq<byte>, n: nat): seq<seq<byte>>
    requires n <= PiecesOf(|data|)
  {
    seq(n, i requires 0 <= i < n => BlockOf(data, i))
  }

  lemma {:induction false} BlocksJoin(data: seq<byte>, n: nat)
    requires n <= PiecesOf(|data|)
    ensures Concat(FirstBlocks(data, n)) == data[..if n * BLOCK <= |data| then n * BLOCK else |data|]
  {
    if n > 0 {
      BlocksJoin(data, n - 1);
      assert FirstBlocks(data, n)[..n - 1] == FirstBlocks(data, n - 1);
    }
  }

  lemma AllBlocksJoin(data: seq<byte>, seen: set<nat>)
    requires AllSeen(data, seen)
    ensures Concat(Slots(data, seen)) == data
  {
    BlocksJoin(data, PiecesOf(|data|));
    assert Slots(data, seen) == FirstBlocks(data, PiecesOf(|data|));
  }

  /** The piece an extended message of kind data is said to carry. */
  function Carries(payload: seq<byte>): Option<nat> {
    if 2 <= |payload| <= MAX_MESSAGE && payload[0] == EXTENDED && payload[1] != HANDSHAKE then
      match DecodeDict(payload[2..], 0)
      case Err(_) => None
      case Ok(m, _) =>
        if IntAt(m, MSG_TYPE) == Some(DATA) && IntAt(m, PIECE).Some? then Some(AsUsize(IntAt(m, PIECE).value)) else None
    else None
  }

  /** What follows the dictionary of an extended message. */
  function Behind(payload: seq<byte>): seq<byte>
    requires Carries(payload).Some?
  {
    payload[2..][DecodeDict(payload[2..], 0).next..]
  }

  /** A message that is no extended one, or an extended one of another kind. */
  ghost predicate Unrelated(payload: seq<byte>) {
    && |payload| <= MAX_MESSAGE
    && (|payload| > 0 && payload[0] == EXTENDED ==>
          && |payload| >= 2 && payload[1] != HANDSHAKE
          && DecodeDict(payload[2..], 0).Ok? && IntAt(DecodeDict(payload[2..], 0).value, MSG_TYPE) != Some(DATA))
  }

  /** A message carries the true block of the piece it names, or is of another kind. */
  ghost predicate Honest(payload: seq<byte>, data: seq<byte>) {
    match Carries(payload)
    case Some(piece) => piece < PiecesOf(|data|) && Behind(payload) == BlockOf(data, piece)
    case None => Unrelated(payload)
  }

  function Arrived(payloads: seq<seq<byte>>): set<nat> {
    set p | p in payloads && Carries(p).Some? :: Carries(p).value
  }

  lemma DecodesHeader(header: Fields, suffix: seq<byte>)
    requires WellFormed(Dict(header)) && |Encode(Dict(header))| + |suffix| < SLICE_LIMIT
    ensures DecodeDict(Encode(Dict(header)) + suffix, 0) == Ok(header, |Encode(Dict(header))|)
  {
    hide Encode, DecodeDict, WellFormed;
    RoundTrip(Dict(header), suffix);
    DictOfItem(Encode(Dict(header)) + suffix);
  }

  lemma DictOfItem(data: Slice)
    requires DecodeItem(data, 0).Ok? && DecodeItem(data, 0).value.Dict?
    ensures DecodeDict(data, 0) == Ok(DecodeItem(data, 0).value.entries, DecodeItem(data, 0).next)
  {
    hide DecodeDict, DecodeList, DecodeInt, DecodeString;
  }

  lemma BlockFits(s: Session, data: seq<byte>, seen: set<nat>, piece: nat)
    requires OnCourse(s, data, seen) && piece < PiecesOf(|data|)
    ensures WrongSize(s, piece, |BlockOf(data, piece)|) <==> |data| % BLOCK == 0 && piece == PiecesOf(|data|) - 1
    ensures BlockOf(data, piece) != []
  {
  }

  lemma SlotsAfter(data: seq<byte>, seen: set<nat>, piece: nat)
    requires piece < PiecesOf(|data|)
    ensures Store(Slots(data, seen), piece, BlockOf(data, piece)) == Slots(data, seen + {piece})
  {
  }

  lemma FilledMeansSeen(data: seq<byte>, seen: set<nat>)
    ensures AllFilled(Slots(data, seen)) <==> AllSeen(data, seen)
  {
    var slots := Slots(data, seen);
    forall i: nat | i < PiecesOf(|data|)
      ensures slots[i] != [] <==> i in seen
    {
      if i in seen {
        assert slots[i] == BlockOf(data, i) && BlockOf(data, i) != [];
      }
    }
    if AllFilled(slots) {
      forall i: nat | i < PiecesOf(|data|)
        ensures i in seen
      {
        assert slots[i] != [];
      }
    }
  }

  /** What one true block does to a session on its course. */
  lemma BlockArrives(s: Session, data: seq<byte>, seen: set<nat>, piece: nat, infoHash: seq<byte>, sha1: Hash)
    requires OnCourse(s, data, seen) && piece < PiecesOf(|data|) && sha1(data) == infoHash
    ensures
      var o := OnBlock(s, s.pieces.value, piece, BlockOf(data, piece), infoHash, sha1);
      if |data| % BLOCK == 0 && piece == PiecesOf(|data|) - 1 then o.status == Failed
      else if AllSeen(data, seen + {piece}) then o.status == Done(data)
      else o.status == Pending && OnCourse(o.session, data, seen + {piece})
  {
    hide Slots, AllFilled, AllSeen, Concat;
    BlockFits(s, data, seen, piece);
    SlotsAfter(data, seen, piece);
    FilledMeansSeen(data, seen + {piece});
    if AllSeen(data, seen + {piece}) {
      AllBlocksJoin(data, seen + {piece});
    }
  }

  /** What one honest message does to a session on its course. */
  lemma HonestMessage(s: Session, data: seq<byte>, seen: set<nat>, payload: seq<byte>, infoHash: seq<byte>, sha1: Hash)
    requires OnCourse(s, data, seen) && Honest(payload, data) && sha1(data) == infoHash
    ensures
      var o := Handle(s, payload, infoHash, sha1);
      match Carries(payload)
      case None => o.status == Pending && OnCourse(o.session, data, seen)
      case Some(piece) =>
        if |data| % BLOCK == 0 && piece == PiecesOf(|data|) - 1 then o.status == Failed
        else if AllSeen(data, seen + {piece}) then o.status == Done(data)
        else o.status == Pending && OnCourse(o.session, data, seen + {piece})
  {
    hide DecodeDict, OnBlock, BlockOf, Slots, Added, PiecesOf, AllSeen;
    match Carries(payload) {
      case None =>
      case Some(piece) =>
        BlockArrives(s, data, seen, piece, infoHash, sha1);
    }
  }

  lemma ArrivedSplit(payloads: seq<seq<byte>>)
    requires payloads != []
    ensures Arrived(payloads) ==
            (if Carries(payloads[0]).Some? then {Carries(payloads[0]).value} else {}) + Arrived(payloads[1..])
  {
    hide Carries;
    assert payloads == [payloads[0]] + payloads[1..];
  }

  /**
   * In whatever order the true blocks arrive, with repetitions and other messages in between, the
   * metadata is delivered as soon as every piece has been seen, and not before.
   */
  lemma {:induction false} AnyOrderCompletes(s: Session, data: seq<byte>, seen: set<nat>, payloads: seq<seq<byte>>,
                                             infoHash: seq<byte>, sha1: Hash)
    requires OnCourse(s, data, seen) && !AllSeen(data, seen) && |data| % BLOCK != 0
    requires sha1(data) == infoHash && forall p :: p in payloads ==> Honest(p, data)
    ensures
      var o := Exchange(s, payloads, infoHash, sha1);
      if AllSeen(data, seen + Arrived(payloads)) then o.status == Done(data)
      else o.status == Pending && OnCourse(o.session, data, seen + Arrived(payloads))
    decreases |payloads|
  {
    hide Handle, OnCourse, AllSeen, Carries, Honest;
    if payloads == [] {
      assert seen + Arrived(payloads) == seen;
    } else {
      var p := payloads[0];
      HonestMessage(s, data, seen, p, infoHash, sha1);
      ArrivedSplit(payloads);
      var now := if Carries(p).Some? then seen + {Carries(p).value} else seen;
      assert seen + Arrived(payloads) == now + Arrived(payloads[1..]);
      if AllSeen(data, now) {
        MoreSeen(data, now, Arrived(payloads[1..]));
      } else {
        var o := Handle(s, p, infoHash, sha1);
        AnyOrderCompletes(o.session, data, now, payloads[1..], infoHash, sha1);
      }
    }
  }

  /** What a peer that encodes its header and appends the true block sends is honest. */
  lemma EncodedBlockIsHonest(data: seq<byte>, header: Fields, extId: byte, piece: nat)
    requires piece < PiecesOf(|data|) && |data| <= MAX_METADATA_SIZE && extId != HANDSHAKE
    requires WellFormed(Dict(header)) && IntAt(header, MSG_TYPE) == Some(DATA) && IntAt(header, PIECE) == Some(piece)
    requires |Encode(Dict(header))| + BLOCK + 2 <= MAX_MESSAGE
    ensures
      var payload := [EXTENDED, extId] + (Encode(Dict(header)) + BlockOf(data, piece));
      Carries(payload) == Some(piece) && Honest(payload, data)
  {
    hide Encode, DecodeDict, WellFormed;
    var header', block := Encode(Dict(header)), BlockOf(data, piece);
    assert |block| <= BLOCK;
    var payload := [EXTENDED, extId] + (header' + block);
    assert payload[2..] == header' + block;
    DecodesHeader(header, block);
    assert (header' + block)[|header'|..] == block;
  }

  // ----- a whole session

  function HandshakeMessage(m: Fields): seq<byte> {
    [EXTENDED, HANDSHAKE] + Encode(Dict(m))
  }

  lemma HandshakeStarts(m: Fields, data: seq<byte>, infoHash: seq<byte>, sha1: Hash)
    requires WellFormed(Dict(m)) && IntAt(m, METADATA_SIZE) == Some(|data|)
    requires |data| <= MAX_METADATA_SIZE && |HandshakeMessage(m)| <= MAX_MESSAGE
    ensures Handle(START, HandshakeMessage(m), infoHash, sha1).status == Pending
    ensures OnCourse(Handle(START, HandshakeMessage(m), infoHash, sha1).session, data, {})
  {
    hide DecodeDict, Encode, WellFormed, Requests;
    var payload := HandshakeMessage(m);
    assert payload[2..] == Encode(Dict(m)) + [];
    DecodesHeader(m, []);
    assert seq(PiecesOf(|data|), _ => []) == Slots(data, {});
  }

  /**
   * A session with an honest peer delivers the metadata exactly when every piece arrives and the
   * size is not a whole number of blocks.
   */
  lemma SessionCompletesExactly(m: Fields, data: seq<byte>, payloads: seq<seq<byte>>, infoHash: seq<byte>, sha1: Hash)
    requires WellFormed(Dict(m)) && IntAt(m, METADATA_SIZE) == Some(|data|)
    requires 0 < |data| <= MAX_METADATA_SIZE && |HandshakeMessage(m)| <= MAX_MESSAGE
    requires sha1(data) == infoHash && forall p :: p in payloads ==> Honest(p, data)
    ensures
      var o := Exchange(START, [HandshakeMessage(m)] + payloads, infoHash, sha1);
      && (o.status.Done? <==> |data| % BLOCK != 0 && AllSeen(data, Arrived(payloads)))
      && (o.status.Done? ==> o.status.joined == data)
  {
    hide Handle, OnCourse, WellFormed, HandshakeMessage, Honest, Carries;
    HandshakeStarts(m, data, infoHash, sha1);
    var s := Handle(START, HandshakeMessage(m), infoHash, sha1).session;
    var all := [HandshakeMessage(m)] + payloads;
    assert all[1..] == payloads;
    assert {} + Arrived(payloads) == Arrived(payloads);
    if |data| % BLOCK != 0 {
      SomethingToSee(data);
      AnyOrderCompletes(s, data, {}, payloads, infoHash, sha1);
    } else {
      CourseIsExact(s, data);
      WholeBlocksNeverComplete(s, payloads, infoHash, sha1);
    }
  }

  lemma CourseIsExact(s: Session, data: seq<byte>)
    requires OnCourse(s, data, {}) && |data| <= MAX_METADATA_SIZE
    ensures SlotsExact(s) && s.pieces.Some? && s.metadataSize == |data|
  {
  }

  // ----- the loop itself

  /** Asks for every piece, if the peer gave the extension an id. */
  method SendRequests(extension: Option<int>, n: nat, sent: seq<Effect>) returns (effects: seq<Effect>)
    ensures effects == sent + Requests(extension, n)
  {
    hide RequestMessage;
    effects := sent;
    if extension.Some? {
      for i := 0 to n
        invariant effects == sent + Requests(extension, i)
      {
        effects := effects + [Ask(RequestMessage(extension.value, i))];
      }
    }
  }

  method ReadPeers(added: seq<byte>, sent: seq<Effect>) returns (effects: seq<Effect>)
    ensures effects == sent + Added(added)
  {
    effects := sent;
    var i := 0;
    while i + ADDR_BYTES <= |added|
      invariant 0 <= i <= |added|
      invariant effects + Added(added[i..]) == sent + Added(added)
    {
      assert added[i..][..ADDR_BYTES] == added[i..i + ADDR_BYTES];
      assert added[i..][ADDR_BYTES..] == added[i + ADDR_BYTES..];
      effects := effects + [Forward(DecodeIpPort(added[i..i + ADDR_BYTES]).value)];
      i := i + ADDR_BYTES;
    }
  }

  method Join(pieces: seq<seq<byte>>) returns (joined: seq<byte>)
    ensures joined == Concat(pieces)
  {
    joined := [];
    for i := 0 to |pieces|
      invariant joined == Concat(pieces[..i])
    {
      assert pieces[..i + 1][..i] == pieces[..i];
      joined := joined + pieces[i];
    }
    assert pieces[..|pieces|] == pieces;
  }

  method HasEmpty(pieces: seq<seq<byte>>) returns (empty: bool)
    ensures empty == !AllFilled(pieces)
  {
    for i := 0 to |pieces|
      invariant forall j :: 0 <= j < i ==> pieces[j] != []
    {
      if pieces[i] == [] {
        return true;
      }
    }
    return false;
  }

  /** One extended message after another, until the metadata is whole or the peer is given up. */
  method FetchMetadata(payloads: seq<seq<byte>>, infoHash: seq<byte>, sha1: Hash)
    returns (metadata: Option<seq<byte>>, effects: seq<Effect>)
    ensures
      var o := Exchange(START, payloads, infoHash, sha1);
      && metadata == (if o.status.Done? then Some(o.status.joined) else None)
      && effects == o.session.effects
  {
    hide Requests, Added, Concat, AllFilled;
    var pieces: Option<seq<seq<byte>>>, piecesNum: nat, metadataSize: nat, utPexId: Option<int> := None, 0, 0, None;
    metadata, effects := None, [];
    var i := 0;
    while i < |payloads|
      invariant 0 <= i <= |payloads|
      invariant Exchange(START, payloads, infoHash, sha1)
             == Exchange(Session(pieces, piecesNum, metadataSize, utPexId, effects), payloads[i..], infoHash, sha1)
      invariant metadata == None
    {
      var payload := payloads[i];
      i := i + 1;
      if |payload| > MAX_MESSAGE {
        return;
      }
      if payload == [] || payload[0] != EXTENDED {
        continue;
      }
      if |payload| < 2 {
        return;
      }
      var extId, rest := payload[1], payload[2..];
      if extId == HANDSHAKE {
        if pieces.Some? {
          return;
        }
        var read := ReadDict(rest, 0);
        if read.Err? {
          return;
        }
        var m := read.value;
        utPexId := ExtensionId(m, UT_PEX);
        var size := IntAt(m, METADATA_SIZE);
        if size.None? || AsUsize(size.value) > MAX_METADATA_SIZE {
          return;
        }
        metadataSize := AsUsize(size.value);
        piecesNum := PiecesOf(metadataSize);
        pieces := Some(seq(piecesNum, _ => []));
        effects := SendRequests(ExtensionId(m, UT_METADATA), piecesNum, effects);
        continue;
      }
      if pieces.None? {
        return;
      }
      var read := ReadDict(rest, 0);
      if read.Err? {
        return;
      }
      var m, index := read.value, read.next;
      if IntAt(m, MSG_TYPE) == Some(DATA) {
        if IntAt(m, PIECE).None? {
          return;
        }
        var piece, block := AsUsize(IntAt(m, PIECE).value), rest[index..];
        var last := LastPiece(piecesNum);
        if (piece != last && |block| != BLOCK) || (piece == last && |block| != metadataSize % BLOCK) {
          return;
        }
        var all := pieces.value;
        if piece < |all| {
          all := all[piece := block];
        }
        var empty := HasEmpty(all);
        if !empty {
          var joined := Join(all);
          if sha1(joined) == infoHash {
            metadata := Some(joined);
          }
          return;
        }
        pieces := Some(all);
        continue;
      }
      if utPexId == Some(extId as int) {
        match Get<BVal>(m, ADDED) {
          case Some(Bytes(added)) => effects := ReadPeers(added, effects);
          case _ =>
        }
      }
    }
  }
}
