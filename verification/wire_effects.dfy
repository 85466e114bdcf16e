/**
 * What a download sends, requests to its peer and the addresses of other peers to the crawler; and when it
 * gives its peer up.
 */
module WireEffects {
  import opened Bits
  import opened Texts
  import opened Options
  import opened Nodes
  import opened SortedMaps
  import opened Decimals
  import opened Bencode
  import opened Compact
  import opened Wire
  import Words
  import Utf8

  // ----- a request as its receiver reads it

  /** An extended message under the id whose dictionary, and nothing behind it, asks for the piece. */
  ghost predicate AsksFor(message: seq<byte>, extension: int, piece: nat) {
    && 2 <= |message| <= MAX_MESSAGE && message[0] == 20 && message[1] == (extension % 256) as byte
    && match DecodeDict(message[2..], 0)
       case Ok(m, next) =>
         && next == |message| - 2
         && IntAt(m, Text("msg_type")) == Some(0) && IntAt(m, Text("piece")) == Some(piece)
       case Err(_) => false
  }

  lemma WordsAre()
    ensures M_KEY == Text("m") && UT_METADATA == Text("ut_metadata") && UT_PEX == Text("ut_pex")
    ensures METADATA_SIZE == Text("metadata_size") && ADDED == Text("added")
    ensures MSG_TYPE == Text("msg_type") && PIECE == Text("piece")
    ensures |MSG_TYPE| == 8 && |PIECE| == 5
  {
  }

  lemma WordsBegin()
    ensures |MSG_TYPE| == 8 && |PIECE| == 5 && MSG_TYPE[0] == 0x6D && PIECE[0] == 0x70
  {
  }

  lemma {:induction false} PrintIsShort(n: nat)
    ensures |Print(n)| <= n + 1
  {
    if n >= 10 {
      PrintIsShort(n / 10);
    }
  }

  /** A header with a kind and a piece, as the codec lays it out. */
  function Header(kind: int, piece: nat): Wire.Fields {
    [Pair(MSG_TYPE, Int(kind)), Pair(PIECE, Int(piece))]
  }

  lemma HeaderIsPut(kind: int, piece: nat)
    ensures Put(Put([], MSG_TYPE, Int(kind)), PIECE, Int(piece)) == Header(kind, piece)
  {
    hide Text;
    WordsBegin();
    assert Put([], MSG_TYPE, Int(kind)) == [Pair(MSG_TYPE, Int(kind))];
    assert [Pair(MSG_TYPE, Int(kind))][1..] == [];
  }

  lemma HeaderKeys()
    ensures Utf8.Valid(MSG_TYPE) && Utf8.Valid(PIECE) && Less(MSG_TYPE, PIECE) && MSG_TYPE != PIECE
  {
    hide Utf8.Valid, Text;
    WordsAre();
    WordsBegin();
    Words.TextIsValid("msg_type");
    Words.TextIsValid("piece");
  }

  lemma HeaderIsWellFormed(kind: int, piece: nat)
    requires 0 <= kind < 10 && piece <= I64_MAX
    ensures WellFormed(Dict(Header(kind, piece)))
    ensures IntAt(Header(kind, piece), MSG_TYPE) == Some(kind) && IntAt(Header(kind, piece), PIECE) == Some(piece)
  {
    hide Utf8.Valid, Less, Text;
    HeaderKeys();
    var m := Header(kind, piece);
    assert m[1..][0] == m[1];
    assert Get(m, PIECE) == Get(m[1..], PIECE) == Some(Int(piece));
  }

  lemma HeaderIsShort(kind: int, piece: nat)
    requires 0 <= kind < 10 && piece <= 1000
    ensures |Encode(Dict(Header(kind, piece)))| <= 1100
  {
    hide Encode, Print, Text;
    WordsAre();
    PrintIsShort(piece);
    PrintIsShort(|MSG_TYPE|);
    PrintIsShort(|PIECE|);
    PrintIsShort(kind);
    EntriesOfTwo(Header(kind, piece));
    EncodedLengths(kind);
    EncodedLengths(piece);
  }

  lemma EncodedLengths(n: nat)
    ensures |Encode(Int(n))| == |Print(n)| + 2
  {
  }

  lemma EntriesOfTwo(m: Wire.Fields)
    requires |m| == 2
    ensures |Encode(Dict(m))| ==
            |EncodeBytes(m[0].key)| + |Encode(m[0].value)| + |EncodeBytes(m[1].key)| + |Encode(m[1].value)| + 2
  {
    hide EncodeBytes;
    assert m[1..][1..] == [];
    assert EncodeEntries(m[1..]) == EncodeBytes(m[1].key) + Encode(m[1].value) + EncodeEntries(m[1..][1..]);
    assert EncodeEntries(m) == EncodeBytes(m[0].key) + Encode(m[0].value) + EncodeEntries(m[1..]);
  }

  lemma RequestIsRead(extension: int, piece: nat)
    requires piece <= 1000
    ensures AsksFor(RequestMessage(extension, piece), extension, piece)
  {
    hide Encode, DecodeDict, WellFormed, Put, Get, Text, Header;
    var m, message := Header(REQUEST, piece), RequestMessage(extension, piece);
    WordsAre();
    HeaderIsPut(REQUEST, piece);
    HeaderIsWellFormed(REQUEST, piece);
    HeaderIsShort(REQUEST, piece);
    DecodesHeader(m, []);
    RequestOpens(extension, piece);
    assert message[2..] == Encode(Dict(m)) + [];
  }

  lemma RequestOpens(extension: int, piece: nat)
    ensures
      var message := RequestMessage(extension, piece);
      && |message| >= 2 && message[0] == 20 && message[1] == (extension % 256) as byte
      && message[2..] == Encode(Dict(Put(Put([], MSG_TYPE, Int(REQUEST)), PIECE, Int(piece))))
  {
    hide Encode, Put, Text;
  }

  // ----- what a message makes a session send

  /** The effects are the old ones and the given new ones. */
  ghost predicate Adds(s: Session, s': Session, more: seq<Effect>) {
    s'.effects == s.effects + more
  }

  /** One request for each of the first pieces, in order. */
  ghost predicate AsksForAll(sent: seq<Effect>, extension: int, n: nat) {
    && |sent| == n
    && forall i :: 0 <= i < n ==> sent[i].Ask? && AsksFor(sent[i].message, extension, i)
  }

  /** The number an extension has in the dictionary `m` of a handshake, if it has one. */
  predicate Supports(m: Wire.Fields, name: seq<byte>, extension: int) {
    match Get<BVal>(m, Text("m"))
    case Some(Dict(ids)) => Get<BVal>(ids, name) == Some(Int(extension))
    case _ => false
  }

  lemma PiecesCover(size: nat)
    ensures size <= PiecesOf(size) * 16384 < size + 16384
  {
  }

  lemma RequestsAsk(extension: int, n: nat)
    requires n <= 1000
    ensures AsksForAll(Requests(Some(extension), n), extension, n)
  {
    hide RequestMessage, AsksFor;
    forall i | 0 <= i < n
      ensures AsksFor(RequestMessage(extension, i), extension, i)
    {
      RequestIsRead(extension, i);
    }
  }

  /**
   * A first handshake is accepted if it tells a size within bounds; then the session has as many empty
   * slots as blocks cover the size, and asks for every piece once, in order, under the number the peer
   * gave the extension. If the peer gave it none it asks for nothing.
   */
  lemma HandshakeAsks(s: Session, payload: seq<byte>, m: Wire.Fields, infoHash: seq<byte>, sha1: Hash)
    requires s.pieces.None? && 2 <= |payload| <= MAX_MESSAGE && payload[0] == 20 && payload[1] == 0
    requires DecodeDict(payload[2..], 0).Ok? && m == DecodeDict(payload[2..], 0).value
    ensures
      var o := Handle(s, payload, infoHash, sha1);
      if IntAt(m, Text("metadata_size")).Some? && IntAt(m, Text("metadata_size")).value % USIZE_LIMIT <= 16384000 then
        var size := IntAt(m, Text("metadata_size")).value % USIZE_LIMIT;
        && o.status.Pending? && o.session.metadataSize == size
        && o.session.pieces.Some? && size <= |o.session.pieces.value| * 16384 < size + 16384
        && (forall slot :: slot in o.session.pieces.value ==> slot == [])
        && (forall x :: Supports(m, Text("ut_pex"), x) <==> o.session.utPexId == Some(x))
        && (forall x :: Supports(m, Text("ut_metadata"), x) ==>
              exists sent :: Adds(s, o.session, sent) && AsksForAll(sent, x, |o.session.pieces.value|))
        && ((forall x :: !Supports(m, Text("ut_metadata"), x)) ==> Adds(s, o.session, []))
      else o.status.Failed? && Adds(s, o.session, [])
  {
    hide DecodeDict, Get, Text, RequestMessage, AsksFor, Requests, AsksForAll;
    WordsAre();
    var size := IntAt(m, METADATA_SIZE);
    if size.Some? && AsUsize(size.value) <= MAX_METADATA_SIZE {
      var n := PiecesOf(AsUsize(size.value));
      PiecesCover(AsUsize(size.value));
      var o := Handle(s, payload, infoHash, sha1);
      match ExtensionId(m, UT_METADATA) {
        case Some(x) =>
          assert Supports(m, UT_METADATA, x);
          RequestsAsk(x, n);
          assert Adds(s, o.session, Requests(Some(x), n));
        case None =>
          NoRequests(n);
      }
    }
  }

  lemma NoRequests(n: nat)
    ensures Requests(None, n) == []
  {
  }

  // ----- peers told

  /** Every six bytes are passed on as an address: four octets, and the port in network order. */
  ghost predicate ForwardsAll(sent: seq<Effect>, added: seq<byte>) {
    && |sent| == |added| / 6
    && forall i :: 0 <= i < |sent| ==>
         && sent[i].Forward? && sent[i].addr.ip == V4(added[6 * i..6 * i + 4])
         && sent[i].addr.port as int == 256 * added[6 * i + 4] as int + added[6 * i + 5] as int
  }

  lemma {:induction false} AddedForwards(added: seq<byte>)
    ensures ForwardsAll(Added(added), added)
  {
    if |added| >= ADDR_BYTES {
      var first, rest := added[..ADDR_BYTES], added[ADDR_BYTES..];
      AddedForwards(rest);
      IpPortReads(first);
      var sent := Added(added);
      forall i | 0 <= i < |sent|
        ensures
          && sent[i].Forward? && sent[i].addr.ip == V4(added[6 * i..6 * i + 4])
          && sent[i].addr.port as int == 256 * added[6 * i + 4] as int + added[6 * i + 5] as int
      {
        if i > 0 {
          assert sent[i] == Added(rest)[i - 1];
          assert rest[6 * (i - 1)..6 * (i - 1) + 4] == added[6 * i..6 * i + 4];
        }
      }
    }
  }

  /** A message of the peer exchange, under the number the peer gave it, with a list of addresses. */
  ghost predicate IsPex(s: Session, payload: seq<byte>, added: seq<byte>) {
    && s.pieces.Some? && 2 <= |payload| <= MAX_MESSAGE && payload[0] == 20 && payload[1] != 0
    && s.utPexId == Some(payload[1] as int)
    && match DecodeDict(payload[2..], 0)
       case Ok(m, _) => IntAt(m, Text("msg_type")) != Some(1) && Get<BVal>(m, Text("added")) == Some(Bytes(added))
       case Err(_) => false
  }

  /** Any message but a handshake makes the session pass on the addresses of a peer exchange, or send nothing. */
  lemma OthersForward(s: Session, payload: seq<byte>, infoHash: seq<byte>, sha1: Hash)
    requires |payload| < 2 || payload[0] != 20 || payload[1] != 0
    ensures
      var s' := Handle(s, payload, infoHash, sha1).session;
      && (forall added :: IsPex(s, payload, added) ==>
            exists sent :: s' == s.(effects := s.effects + sent) && ForwardsAll(sent, added))
      && ((forall added :: !IsPex(s, payload, added)) ==> Adds(s, s', []))
  {
    hide DecodeDict, Get, Text, Added, ForwardsAll, OnBlock;
    WordsAre();
    forall added
      ensures ForwardsAll(Added(added), added)
    {
      AddedForwards(added);
    }
    if s.pieces.Some? && 2 <= |payload| <= MAX_MESSAGE && payload[0] == 20 {
      match DecodeDict(payload[2..], 0) {
        case Err(_) =>
        case Ok(m, index) =>
          if IntAt(m, MSG_TYPE) == Some(DATA) && IntAt(m, PIECE).Some? {
            BlockSendsNothing(s, AsUsize(IntAt(m, PIECE).value), payload[2..][index..], infoHash, sha1);
          }
          match Get<BVal>(m, ADDED) {
            case Some(Bytes(added)) =>
              assert s.utPexId == Some(payload[1] as int) && IntAt(m, MSG_TYPE) != Some(DATA) ==>
                IsPex(s, payload, added);
            case _ =>
          }
      }
    }
  }

  lemma BlockSendsNothing(s: Session, piece: nat, data: seq<byte>, infoHash: seq<byte>, sha1: Hash)
    requires s.pieces.Some?
    ensures OnBlock(s, s.pieces.value, piece, data, infoHash, sha1).session.effects == s.effects
  {
  }

  // ----- when a peer is given up

  /** The length a piece must have: of the last one, what is left over from whole blocks. */
  function LengthOf(s: Session, piece: nat): nat
    requires s.pieces.Some?
  {
    var n := |s.pieces.value|;
    if piece == (if n == 0 then 0xFFFF_FFFF_FFFF_FFFF else n - 1) then s.metadataSize % 16384 else 16384
  }

  /** With this piece every slot is filled, and the whole does not have the wanted hash. */
  ghost predicate SpoilsAll(s: Session, piece: nat, block: seq<byte>, infoHash: seq<byte>, sha1: Hash)
    requires s.pieces.Some?
  {
    var slots := if piece < |s.pieces.value| then s.pieces.value[piece := block] else s.pieces.value;
    (forall slot :: slot in slots ==> slot != []) && sha1(Concat(slots)) != infoHash
  }

  /** A piece that does not say which, that has the wrong length, or that completes the wrong metadata. */
  ghost predicate IsBadPiece(s: Session, m: Wire.Fields, block: seq<byte>, infoHash: seq<byte>, sha1: Hash)
    requires s.pieces.Some?
  {
    && IntAt(m, Text("msg_type")) == Some(1)
    && match IntAt(m, Text("piece"))
       case None => true
       case Some(n) =>
         |block| != LengthOf(s, n % USIZE_LIMIT) || SpoilsAll(s, n % USIZE_LIMIT, block, infoHash, sha1)
  }

  /** A handshake after the first, or one that is no dictionary or tells no size within bounds. */
  ghost predicate IsBadHandshake(s: Session, rest: Slice) {
    s.pieces.Some? ||
    match DecodeDict(rest, 0)
    case Err(_) => true
    case Ok(m, _) =>
      IntAt(m, Text("metadata_size")).None? || IntAt(m, Text("metadata_size")).value % USIZE_LIMIT > 16384000
  }

  /** Anything before a handshake, what is no dictionary, and a bad piece. */
  ghost predicate IsBadData(s: Session, rest: Slice, infoHash: seq<byte>, sha1: Hash) {
    s.pieces.None? ||
    match DecodeDict(rest, 0)
    case Err(_) => true
    case Ok(m, index) => IsBadPiece(s, m, rest[index..], infoHash, sha1)
  }

  /**
   * A message makes the session give its peer up exactly if it is too long, or an extended message that
   * has no number, is a bad handshake, or is bad data. Messages of any other kind are passed over.
   */
  lemma GivesUpExactly(s: Session, payload: seq<byte>, infoHash: seq<byte>, sha1: Hash)
    requires SlotsExact(s)
    ensures Handle(s, payload, infoHash, sha1).status.Failed? <==>
            || |payload| > 1_048_576
            || (payload != [] && payload[0] == 20 &&
                if |payload| == 1 then true
                else if payload[1] == 0 then IsBadHandshake(s, payload[2..])
                else IsBadData(s, payload[2..], infoHash, sha1))
  {
    hide DecodeDict, Get, Text, Requests, Concat, Added, SpoilsAll;
    WordsAre();
    if s.pieces.Some? && 2 <= |payload| <= MAX_MESSAGE {
      match DecodeDict(payload[2..], 0) {
        case Err(_) =>
        case Ok(m, index) =>
          if IntAt(m, PIECE).Some? {
            PieceGivesUp(s, AsUsize(IntAt(m, PIECE).value), payload[2..][index..], infoHash, sha1);
          }
      }
    }
  }

  lemma PieceGivesUp(s: Session, piece: nat, block: seq<byte>, infoHash: seq<byte>, sha1: Hash)
    requires SlotsExact(s) && s.pieces.Some?
    ensures OnBlock(s, s.pieces.value, piece, block, infoHash, sha1).status.Failed? <==>
            |block| != LengthOf(s, piece) || SpoilsAll(s, piece, block, infoHash, sha1)
  {
    hide Concat;
    var all := Store(s.pieces.value, piece, block);
    assert forall i :: 0 <= i < |all| ==> all[i] in all;
  }

  // ----- a peer that answers what it is asked

  /** The piece a message asks for, if it asks for one, as its receiver reads it. */
  function Asked(message: seq<byte>): Option<int> {
    if 2 <= |message| <= MAX_MESSAGE && DecodeDict(message[2..], 0).Ok? &&
       IntAt(DecodeDict(message[2..], 0).value, Text("msg_type")) == Some(0)
    then IntAt(DecodeDict(message[2..], 0).value, Text("piece"))
    else None
  }

  /** Some payload carries the piece the request asks for. */
  ghost predicate IsAnswered(e: Effect, payloads: seq<seq<byte>>) {
    e.Ask? && exists p :: p in payloads && Carries(p).Some? && Asked(e.message) == Some(Carries(p).value)
  }

  /**
   * A session with an honest peer that supports the extension and answers every request it is sent
   * delivers the metadata, unless its size is a whole number of blocks.
   */
  lemma AnsweredSessionCompletes(m: Wire.Fields, x: int, data: seq<byte>, payloads: seq<seq<byte>>,
                                 infoHash: seq<byte>, sha1: Hash)
    requires WellFormed(Dict(m)) && IntAt(m, METADATA_SIZE) == Some(|data|) && Supports(m, Text("ut_metadata"), x)
    requires 0 < |data| <= MAX_METADATA_SIZE && |HandshakeMessage(m)| <= MAX_MESSAGE
    requires sha1(data) == infoHash && forall p :: p in payloads ==> Honest(p, data)
    requires forall e :: e in Handle(START, HandshakeMessage(m), infoHash, sha1).session.effects ==>
               IsAnswered(e, payloads)
    ensures
      var o := Exchange(START, [HandshakeMessage(m)] + payloads, infoHash, sha1);
      if |data| % 16384 != 0 then o.status == Done(data) else !o.status.Done?
  {
    hide Exchange, Handle, Encode, DecodeDict, WellFormed, Get, Text, Carries, Honest, AsksFor, IsAnswered;
    var hello := HandshakeMessage(m);
    assert hello[2..] == Encode(Dict(m)) + [];
    DecodesHeader(m, []);
    WordsAre();
    HandshakeAsks(START, hello, m, infoHash, sha1);
    HandshakeStarts(m, data, infoHash, sha1);
    var sent := Handle(START, hello, infoHash, sha1).session.effects;
    assert AsksForAll(sent, x, PiecesOf(|data|));
    forall i: nat | i < PiecesOf(|data|)
      ensures i in Arrived(payloads)
    {
      assert sent[i] in sent;
      AnswerArrives(sent[i], x, i, payloads);
    }
    SessionCompletesExactly(m, data, payloads, infoHash, sha1);
  }

  lemma AnswerArrives(e: Effect, extension: int, piece: nat, payloads: seq<seq<byte>>)
    requires e.Ask? && AsksFor(e.message, extension, piece) && IsAnswered(e, payloads)
    ensures piece in Arrived(payloads)
  {
    hide Carries, DecodeDict, Text;
  }
}
