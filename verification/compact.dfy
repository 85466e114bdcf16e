/** The compact contact encodings of BEP 5: six bytes an address, twenty-six bytes a node. */
module Compact {
  import opened Bits
  import opened Nodes
  import opened Options

  datatype Contact = Contact(id: Id, addr: Addr)

  const ADDR_BYTES := 6
  const NODE_BYTES := 26

  /** Four bytes of address and the port, high byte first; there is no form for IPv6. */
  function EncodeIpPort(addr: Addr): (r: Option<seq<byte>>)
    ensures r.Some? <==> addr.ip.V4?
    ensures r.Some? ==> |r.value| == ADDR_BYTES
  {
    match addr.ip
    case V4(octets) => Some(octets + [(addr.port >> 8) as byte, (addr.port & 0xff) as byte])
    case V6(_) => None
  }

  function DecodeIpPort(info: seq<byte>): (r: Option<Addr>)
    ensures r.Some? <==> |info| == ADDR_BYTES
    ensures r.Some? ==> r.value.ip.V4?
  {
    if |info| != ADDR_BYTES then None
    else Some(Addr(V4(info[..4]), ((info[4] as bv16) << 8) | (info[5] as bv16)))
  }

  lemma PortBytes(port: bv16)
    ensures ((((port >> 8) as byte) as bv16) << 8) | (((port & 0xff) as byte) as bv16) == port
  {
  }

  lemma BytesOfPort(high: byte, low: byte)
    ensures ((((high as bv16) << 8) | (low as bv16)) >> 8) as byte == high
    ensures ((((high as bv16) << 8) | (low as bv16)) & 0xff) as byte == low
  {
  }

  /** Every IPv4 address and port survives. */
  lemma IpPortRoundTrip(addr: Addr)
    requires addr.ip.V4?
    ensures DecodeIpPort(EncodeIpPort(addr).value) == Some(addr)
  {
    PortBytes(addr.port);
    assert EncodeIpPort(addr).value[..4] == addr.ip.octets;
  }

  /** And every six bytes do. */
  lemma IpPortBytesRoundTrip(info: seq<byte>)
    requires |info| == ADDR_BYTES
    ensures EncodeIpPort(DecodeIpPort(info).value) == Some(info)
  {
    BytesOfPort(info[4], info[5]);
    assert info == info[..4] + [info[4], info[5]];
  }

  /** Six bytes are the four octets and the port in network order. */
  lemma IpPortReads(info: seq<byte>)
    requires |info| == ADDR_BYTES
    ensures DecodeIpPort(info).Some? && DecodeIpPort(info).value.ip == V4(info[..4])
    ensures DecodeIpPort(info).value.port as int == 256 * info[4] as int + info[5] as int
  {
    NetworkOrder(info[4], info[5]);
  }

  lemma NetworkOrder(high: byte, low: byte)
    ensures (((high as bv16) << 8) | (low as bv16)) as int == 256 * high as int + low as int
  {
    var h, l := high as bv16, low as bv16;
    assert (h << 8) | l == h * 256 + l;
    assert h * 256 <= 0xFF00 && l <= 0xFF;
  }

  // ----- lists of nodes

  function EncodeContact(c: Contact): seq<byte> {
    c.id + match EncodeIpPort(c.addr) case Some(bytes) => bytes case None => []
  }

  function EncodeContacts(cs: seq<Contact>): seq<byte> {
    if cs == [] then [] else EncodeContacts(cs[..|cs| - 1]) + EncodeContact(cs[|cs| - 1])
  }

  function DecodeContact(data: seq<byte>): Contact
    requires |data| == NODE_BYTES
  {
    Contact(data[..ID_BYTES], DecodeIpPort(data[ID_BYTES..]).value)
  }

  /** The first `n` nodes of a string of compact nodes. */
  function DecodeFirst(data: seq<byte>, n: nat): (cs: seq<Contact>)
    requires n * NODE_BYTES <= |data|
    ensures |cs| == n
  {
    if n == 0 then []
    else DecodeFirst(data, n - 1) + [DecodeContact(data[(n - 1) * NODE_BYTES..n * NODE_BYTES])]
  }

  /** Of a string of another length nothing is read. */
  function DecodeContacts(data: seq<byte>): (cs: seq<Contact>)
    ensures |cs| == if |data| % 26 == 0 then |data| / 26 else 0
  {
    if |data| % NODE_BYTES != 0 then [] else DecodeFirst(data, |data| / NODE_BYTES)
  }

  lemma {:induction false} FirstContactsRead(data: seq<byte>, n: nat, i: nat)
    requires n * NODE_BYTES <= |data| && i < n
    ensures DecodeFirst(data, n)[i] == DecodeContact(data[i * NODE_BYTES..(i + 1) * NODE_BYTES])
  {
    if i < n - 1 {
      FirstContactsRead(data, n - 1, i);
    }
  }

  /** Of every 26 bytes the first twenty are the id, then come the octets and the port in network order. */
  lemma ContactsAreRead(data: seq<byte>, i: nat)
    requires |data| % 26 == 0 && 26 * i < |data|
    ensures
      var cs := DecodeContacts(data);
      && 26 * |cs| == |data| && 26 * i + 26 <= |data|
      && cs[i].id == data[26 * i..26 * i + 20] && cs[i].addr.ip == V4(data[26 * i + 20..26 * i + 24])
      && cs[i].addr.port as int == 256 * data[26 * i + 24] as int + data[26 * i + 25] as int
  {
    hide DecodeIpPort;
    FirstContactsRead(data, |data| / NODE_BYTES, i);
    var piece := data[i * NODE_BYTES..(i + 1) * NODE_BYTES];
    IpPortReads(piece[ID_BYTES..]);
    assert piece[..ID_BYTES] == data[26 * i..26 * i + 20];
    assert piece[ID_BYTES..][..4] == data[26 * i + 20..26 * i + 24];
  }

  method DecodeCompactNodes(data: seq<byte>) returns (out: seq<Contact>)
    ensures out == DecodeContacts(data)
  {
    if |data| % NODE_BYTES != 0 {
      return [];
    }
    out := [];
    for i := 0 to |data| / NODE_BYTES
      invariant out == DecodeFirst(data, i)
    {
      var base := i * NODE_BYTES;
      var id := data[base..base + ID_BYTES];
      var decoded := DecodeIpPort(data[base + ID_BYTES..base + NODE_BYTES]);
      var piece := data[base..base + NODE_BYTES];
      assert piece[..ID_BYTES] == id && piece[ID_BYTES..] == data[base + ID_BYTES..base + NODE_BYTES];
      match decoded {
        case Some(addr) =>
          out := out + [Contact(id, addr)];
        case None =>
          assert false;
      }
    }
  }

  /** Id and address of nodes. */
  function Contacts(nodes: seq<Node>): seq<Contact> {
    seq(|nodes|, i requires 0 <= i < |nodes| => Contact(nodes[i].id, nodes[i].addr))
  }

  ghost predicate AllV4(cs: seq<Contact>) {
    forall c :: c in cs ==> c.addr.ip.V4?
  }

  lemma {:induction false} EncodedLength(cs: seq<Contact>)
    ensures AllV4(cs) ==> |EncodeContacts(cs)| == NODE_BYTES * |cs|
    ensures !AllV4(cs) ==> |EncodeContacts(cs)| < NODE_BYTES * |cs|
  {
    if cs != [] {
      var front, last := cs[..|cs| - 1], cs[|cs| - 1];
      EncodedLength(front);
      assert cs == front + [last];
      assert AllV4(cs) <==> AllV4(front) && last.addr.ip.V4?;
    }
  }

  lemma ContactRoundTrip(c: Contact)
    requires c.addr.ip.V4?
    ensures |EncodeContact(c)| == NODE_BYTES && DecodeContact(EncodeContact(c)) == c
  {
    IpPortRoundTrip(c.addr);
    assert EncodeContact(c)[..ID_BYTES] == c.id && EncodeContact(c)[ID_BYTES..] == EncodeIpPort(c.addr).value;
  }

  lemma {:induction false} DecodeFirstOfPrefix(a: seq<byte>, b: seq<byte>, n: nat)
    requires n * NODE_BYTES <= |a| && a <= b
    ensures DecodeFirst(a, n) == DecodeFirst(b, n)
  {
    if n > 0 {
      DecodeFirstOfPrefix(a, b, n - 1);
      assert a[(n - 1) * NODE_BYTES..n * NODE_BYTES] == b[(n - 1) * NODE_BYTES..n * NODE_BYTES];
    }
  }

  lemma DecodeFirstOneMore(a: seq<byte>, b: seq<byte>, n: nat)
    requires |a| == n * NODE_BYTES && |b| == NODE_BYTES
    ensures (n + 1) * NODE_BYTES == |a + b|
    ensures DecodeFirst(a + b, n + 1) == DecodeFirst(a, n) + [DecodeContact(b)]
  {
    hide DecodeContact;
    DecodeFirstOfPrefix(a, a + b, n);
    assert (a + b)[n * NODE_BYTES..(n + 1) * NODE_BYTES] == b;
  }

  lemma {:induction false} V4ContactsRoundTrip(cs: seq<Contact>)
    requires AllV4(cs)
    ensures |EncodeContacts(cs)| == |cs| * NODE_BYTES
    ensures DecodeFirst(EncodeContacts(cs), |cs|) == cs
  {
    hide EncodeContact, DecodeContact, DecodeFirst;
    if cs == [] {
      DecodeNone([]);
    } else {
      var front, last := cs[..|cs| - 1], cs[|cs| - 1];
      assert cs == front + [last];
      V4ContactsRoundTrip(front);
      ContactRoundTrip(last);
      DecodeFirstOneMore(EncodeContacts(front), EncodeContact(last), |front|);
    }
  }

  lemma DecodeNone(data: seq<byte>)
    ensures DecodeFirst(data, 0) == []
  {
  }

  /** What is listed is what is read back, exactly when every address has a compact form. */
  lemma ContactsRoundTripExactly(cs: seq<Contact>)
    ensures DecodeContacts(EncodeContacts(cs)) == cs <==> AllV4(cs)
  {
    hide EncodeContacts, DecodeFirst, AllV4;
    EncodedLength(cs);
    WholeNodes(|EncodeContacts(cs)|, |cs|);
    if AllV4(cs) {
      V4ContactsRoundTrip(cs);
    }
  }

  lemma WholeNodes(length: nat, n: nat)
    ensures length == n * NODE_BYTES ==> length % NODE_BYTES == 0 && length / NODE_BYTES == n
    ensures length < n * NODE_BYTES ==> length / NODE_BYTES < n && n > 0
  {
  }

  lemma ContactBytesRoundTrip(piece: seq<byte>)
    requires |piece| == NODE_BYTES
    ensures EncodeContact(DecodeContact(piece)) == piece
  {
    IpPortBytesRoundTrip(piece[ID_BYTES..]);
    assert piece == piece[..ID_BYTES] + piece[ID_BYTES..];
  }

  /** Every string of whole compact nodes is the encoding of what it decodes to. */
  lemma {:induction false} BytesRoundTrip(data: seq<byte>, n: nat)
    requires n * NODE_BYTES <= |data|
    ensures EncodeContacts(DecodeFirst(data, n)) == data[..n * NODE_BYTES]
  {
    hide EncodeContact, DecodeContact;
    if n > 0 {
      var lo, hi := (n - 1) * NODE_BYTES, n * NODE_BYTES;
      BytesRoundTrip(data, n - 1);
      ContactBytesRoundTrip(data[lo..hi]);
      var cs := DecodeFirst(data, n);
      assert cs[..n - 1] == DecodeFirst(data, n - 1) && cs[n - 1] == DecodeContact(data[lo..hi]);
      assert data[..hi] == data[..lo] + data[lo..hi];
    }
  }
}
