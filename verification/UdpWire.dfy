/**
  The UDP proxy by bytes: what an event puts on the control socket, what twenty
  bytes do to the table, and where a packet goes by the bytes of its destination.
 */
module UdpWire {
  import opened Base
  import opened Bits
  import opened IpNet
  import opened Lease
  import opened UdpProxy
  import opened UdpRuns

  /** The number of the address written a.b.c.d. */
  function Address(a: byte, b: byte, c: byte, d: byte): (ip: nat)
    ensures ip < 0x1_0000_0000
  {
    16_777_216 * a + 65_536 * b + 256 * c + d
  }

  /** In network order the bytes are those of the dotted form, from left to right. */
  lemma SwapIsBytes(a: byte, b: byte, c: byte, d: byte)
    ensures Swap32(Address(a, b, c, d)) == Load32([a, b, c, d])
    ensures Le32(Swap32(Address(a, b, c, d))) == [a, b, c, d]
  {
    hide Swap32, Le32, Load32;
    assert Address(a, b, c, d) == Pack(a, b, c, d);
    SwapOfPack(a, b, c, d);
    assert Pack(d, c, b, a) == Load32([a, b, c, d]) by {
      LoadIsPack(a, b, c, d);
    }
    Load32RoundTrip([a, b, c, d]);
  }

  lemma LoadIsPack(a: byte, b: byte, c: byte, d: byte)
    ensures Load32([a, b, c, d]) == Pack(d, c, b, a)
  {
  }

  lemma SmallWords()
    ensures Le32(1) == [1, 0, 0, 0] && Le32(2) == [2, 0, 0, 0] && Le32(3) == [3, 0, 0, 0]
    ensures Le32(0) == [0, 0, 0, 0] && Le16(0) == [0, 0]
    ensures forall x: nat :: x < 256 ==> Le32(x) == [x, 0, 0, 0]
  {
  }

  lemma PortBytes(port: int)
    ensures Le16(PortField(port) % 0x1_0000) == [port % 256, port / 256 % 256]
  {
    SignedRoundTrip(port % 0x1_0000, 0x1_0000);
    hide Signed;
    var x := port % 0x1_0000;
    assert port == 0x1_0000 * (port / 0x1_0000) + x;
    assert port % 256 == x % 256 && port / 256 == 256 * (port / 0x1_0000) + x / 256;
  }

  /** The twenty bytes of an added and of a removed lease. */
  lemma EventBytes(
    port: int, e: Event, a: byte, b: byte, c: byte, d: byte, p: byte, q: byte, r: byte, s: byte)
    requires e.lease.subnet.ip == Address(a, b, c, d) && e.lease.subnet.prefixLen <= 32
    requires e.lease.attrs.publicIp == Address(p, q, r, s)
    ensures ToBytes(EventCommand(port, e)) ==
      match e.kind
      case Added =>
        [1, 0, 0, 0] + [a, b, c, d] + [e.lease.subnet.prefixLen, 0, 0, 0] + [p, q, r, s]
        + [port % 256, port / 256 % 256] + [0, 0]
      case Removed =>
        [2, 0, 0, 0] + [a, b, c, d] + [e.lease.subnet.prefixLen, 0, 0, 0] + [0, 0, 0, 0] + [0, 0] + [0, 0]
  {
    hide Swap32, Le32, Le16, PortField, Address;
    SwapIsBytes(a, b, c, d);
    SwapIsBytes(p, q, r, s);
    SmallWords();
    PortBytes(port);
  }

  /** What the first four bytes of a command select. */
  lemma CommandWord(b: Bytes)
    requires |b| == 20
    ensures FromBytes(b).cmd == CMD_SET_ROUTE <==> b[0] == 1 && b[1] == b[2] == b[3] == 0
    ensures FromBytes(b).cmd == CMD_DEL_ROUTE <==> b[0] == 2 && b[1] == b[2] == b[3] == 0
    ensures FromBytes(b).cmd == CMD_STOP <==> b[0] == 3 && b[1] == b[2] == b[3] == 0
  {
    hide Load16;
    var w := b[0..4];
    assert w[0] == b[0] && w[1] == b[1] && w[2] == b[2] && w[3] == b[3];
  }

  /** A command on the wire: destination a.b.c.d/len, next hop p.q.r.s and its port, and padding. */
  predicate IsCommand(
    m: Bytes, word: byte, a: byte, b: byte, c: byte, d: byte, len: byte, hop: Bytes, lo: byte, hi: byte)
  {
    |m| == 20 && m[..18] == [word, 0, 0, 0, a, b, c, d, len, 0, 0, 0] + hop + [lo, hi]
  }

  lemma CommandFields(
    m: Bytes, word: byte, a: byte, b: byte, c: byte, d: byte, len: byte, hop: Bytes, lo: byte, hi: byte)
    requires |hop| == 4 && IsCommand(m, word, a, b, c, d, len, hop, lo, hi) && word < 4 && len <= 32
    ensures var cmd := FromBytes(m);
      && cmd.cmd == word && cmd.destNet == Swap32(Address(a, b, c, d)) && cmd.destNetLen == len
      && cmd.nextHopIp == Load32(hop) && cmd.nextHopPort % 0x1_0000 == lo + 256 * hi
  {
    hide Swap32, Load32, Signed;
    var t := m[..18];
    assert m[0..4] == t[0..4] == [word, 0, 0, 0];
    assert m[4..8] == t[4..8] == [a, b, c, d];
    assert m[8..12] == t[8..12] == [len, 0, 0, 0];
    assert m[12..16] == t[12..16] == hop;
    assert m[16] == t[16] == lo && m[17] == t[17] == hi;
    SwapIsBytes(a, b, c, d);
    OneByte(word);
    OneByte(len);
    SignedRoundTrip(Load16(lo, hi), 0x1_0000);
  }

  lemma OneByte(x: byte)
    requires x < 128
    ensures Load32([x, 0, 0, 0]) == x && Signed(x, 0x1_0000_0000) == x
  {
  }

  /** What a command on the wire does to the table. */
  lemma CommandEffect(
    es: seq<RouteEntry>, m: Bytes, word: byte, a: byte, b: byte, c: byte, d: byte, len: byte, hop: Bytes, lo: byte,
    hi: byte)
    requires |hop| == 4 && IsCommand(m, word, a, b, c, d, len, hop, lo, hi) && word < 4 && len <= 32
    ensures var dst := DstOf(Net(Address(a, b, c, d), len));
      AfterCommand(es, FromBytes(m)) ==
      if word == 1 then WithRoute(es, RouteEntry(dst, Load32(hop), lo + 256 * hi))
      else if word == 2 then WithoutRoute(es, dst)
      else es
  {
    hide And, Swap32, MaskValue, FromBytes, Load32, WithRoute, WithoutRoute, Address;
    CommandFields(m, word, a, b, c, d, len, hop, lo, hi);
    MaskFits(len);
    SwapOfAnd(Address(a, b, c, d), MaskValue(W4, len));
  }

  /**
    A packet for w.x.y.z, looked up by the four bytes of its header, goes to the
    four bytes p.q.r.s of the public address of the subnet that contains it.
   */
  lemma {:induction false} LookupByBytes(
    port: int, ops: seq<Op>, n: Net, w: byte, x: byte, y: byte, z: byte, p: byte, q: byte, r: byte, s: byte)
    requires ValidOps(ops)
    requires var m, ip := Installed(ops), Address(w, x, y, z);
      n in m && Contains(W4, n, ip) && Unambiguous(m, ip) && m[n] == Address(p, q, r, s)
    ensures Answer(Run(port, ops), Load32([w, x, y, z])) == Some((Load32([p, q, r, s]), port % 0x1_0000))
  {
    hide Run, Installed, Contains, Unambiguous, Swap32, Load32, Address, Answer;
    LookupIsMapLookup(port, ops, Address(w, x, y, z));
    SwapIsBytes(w, x, y, z);
    SwapIsBytes(p, q, r, s);
  }
}
