/** The words of BEP 5 messages. */
module Words {
  import opened Bits
  import opened Texts
  import Utf8

  const A: seq<byte> := Text("a")
  const E: seq<byte> := Text("e")
  const Q: seq<byte> := Text("q")
  const R: seq<byte> := Text("r")
  const T: seq<byte> := Text("t")
  const Y: seq<byte> := Text("y")
  const ID: seq<byte> := Text("id")
  const PING: seq<byte> := Text("ping")
  const PORT: seq<byte> := Text("port")
  const NODES: seq<byte> := Text("nodes")
  const TOKEN: seq<byte> := Text("token")
  const TARGET: seq<byte> := Text("target")
  const VALUES: seq<byte> := Text("values")
  const FIND_NODE: seq<byte> := Text("find_node")
  const GET_PEERS: seq<byte> := Text("get_peers")
  const INFO_HASH: seq<byte> := Text("info_hash")
  const INVALID_ID: seq<byte> := Text("invalid id")
  const IMPLIED_PORT: seq<byte> := Text("implied_port")
  const ANNOUNCE_PEER: seq<byte> := Text("announce_peer")
  const INVALID_TARGET: seq<byte> := Text("invalid target")
  const INVALID_INFO_HASH: seq<byte> := Text("invalid info_hash")

  lemma {:induction false} AsciiIsValid(s: seq<byte>)
    requires forall i :: 0 <= i < |s| ==> s[i] < 0x80
    ensures Utf8.Valid(s)
  {
    if s != [] {
      AsciiIsValid(s[1..]);
    }
  }

  /** Every word is valid UTF-8. */
  lemma TextIsValid(s: string)
    requires forall c :: c in s ==> c < 128 as char
    ensures Utf8.Valid(Text(s))
  {
    forall i | 0 <= i < |Text(s)|
      ensures Text(s)[i] < 0x80
    {
      assert s[i] in s;
    }
    AsciiIsValid(Text(s));
  }

  lemma KeysAreValid()
    ensures Utf8.Valid(T) && Utf8.Valid(Y) && Utf8.Valid(R) && Utf8.Valid(E)
    ensures Utf8.Valid(ID) && Utf8.Valid(NODES) && Utf8.Valid(TOKEN) && Utf8.Valid(VALUES)
  {
    hide Utf8.Valid;
    TextIsValid("t");
    TextIsValid("y");
    TextIsValid("r");
    TextIsValid("e");
    TextIsValid("id");
    TextIsValid("nodes");
    TextIsValid("token");
    TextIsValid("values");
  }

  /** The keys as BEP 5 spells them. */
  lemma KeysAre()
    ensures A == Text("a") && E == Text("e") && Q == Text("q") && R == Text("r") && T == Text("t") && Y == Text("y")
    ensures ID == Text("id") && NODES == Text("nodes") && TOKEN == Text("token") && VALUES == Text("values")
    ensures TARGET == Text("target") && INFO_HASH == Text("info_hash") && PORT == Text("port")
    ensures IMPLIED_PORT == Text("implied_port")
  {
  }

  /** The names of queries, and the reasons for refusing them. */
  lemma NamesAre()
    ensures PING == Text("ping") && FIND_NODE == Text("find_node")
    ensures GET_PEERS == Text("get_peers") && ANNOUNCE_PEER == Text("announce_peer")
    ensures INVALID_ID == Text("invalid id") && INVALID_TARGET == Text("invalid target")
    ensures INVALID_INFO_HASH == Text("invalid info_hash")
  {
  }

  /** Kinds of messages and keys of their envelopes, and keys of bodies, differ from one another. */
  lemma KeysDiffer()
    ensures A[0] == 0x61 && E[0] == 0x65 && Q[0] == 0x71 && R[0] == 0x72 && T[0] == 0x74 && Y[0] == 0x79
    ensures ID[0] == 0x69 && NODES[0] == 0x6e && TOKEN[0] == 0x74 && VALUES[0] == 0x76
  {
    hide Text;
    LetterKeys();
    BodyKeys();
  }

  lemma LetterKeys()
    ensures A[0] == 0x61 && E[0] == 0x65 && Q[0] == 0x71 && R[0] == 0x72 && T[0] == 0x74 && Y[0] == 0x79
  {
  }

  lemma BodyKeys()
    ensures ID[0] == 0x69 && NODES[0] == 0x6e && TOKEN[0] == 0x74 && VALUES[0] == 0x76
  {
  }

  /** So do the names of queries. */
  lemma QueriesDiffer()
    ensures |PING| == 4 && |FIND_NODE| == |GET_PEERS| == 9 && |ANNOUNCE_PEER| == 13
    ensures FIND_NODE[0] == 0x66 && GET_PEERS[0] == 0x67
  {
  }
}
