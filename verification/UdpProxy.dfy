/**
  Control commands and route table of the UDP proxy.  Addresses in commands and
  in the table are in network order as a little-endian machine loads them, that
  is, with the bytes of the host-order value reversed.
 */
module UdpProxy {
  import opened Base
  import opened Bits
  import opened IpNet
  import opened Lease

  const CMD_SET_ROUTE := 1
  const CMD_DEL_ROUTE := 2
  const CMD_STOP := 3
  const COMMAND_SIZE := 20

  // ----- words -----

  function Le16(x: nat): Bytes {
    [x % 256, x / 256 % 256]
  }

  function Le32(x: nat): Bytes {
    [x % 256, x / 256 % 256, x / 65_536 % 256, x / 16_777_216 % 256]
  }

  /** Two's complement reading of a word of the given modulus. */
  function Signed(x: int, modulus: int): int {
    if x < modulus / 2 then x else x - modulus
  }

  /** Exchange of the byte order of a 32-bit word. */
  function Swap32(x: nat): (r: nat)
    requires x < 0x1_0000_0000
    ensures r < 0x1_0000_0000
  {
    x / 16_777_216 + 256 * (x / 65_536 % 256) + 65_536 * (x / 256 % 256) + 16_777_216 * (x % 256)
  }

  // ----- commands -----

  datatype Command = Command(cmd: int, destNet: nat, destNetLen: int, nextHopIp: nat, nextHopPort: int)

  predicate ValidCommand(c: Command) {
    && -0x8000_0000 <= c.cmd < 0x8000_0000 && c.destNet < 0x1_0000_0000
    && -0x8000_0000 <= c.destNetLen < 0x8000_0000 && c.nextHopIp < 0x1_0000_0000
    && -0x8000 <= c.nextHopPort < 0x8000
  }

  /** The C struct: four 32-bit fields, a 16-bit field, two bytes of padding. */
  function ToBytes(c: Command): (b: Bytes)
    ensures |b| == COMMAND_SIZE
  {
    Le32(c.cmd % 0x1_0000_0000) + Le32(c.destNet) + Le32(c.destNetLen % 0x1_0000_0000) + Le32(c.nextHopIp)
    + Le16(c.nextHopPort % 0x1_0000) + [0, 0]
  }

  function FromBytes(b: Bytes): Command
    requires |b| == COMMAND_SIZE
  {
    Command(
      Signed(Load32(b[0..4]), 0x1_0000_0000),
      Load32(b[4..8]),
      Signed(Load32(b[8..12]), 0x1_0000_0000),
      Load32(b[12..16]),
      Signed(Load16(b[16], b[17]), 0x1_0000))
  }

  lemma Le32RoundTrip(x: nat)
    requires x < 0x1_0000_0000
    ensures Load32(Le32(x)) == x
  {
    var q1, q2 := x / 256, x / 65_536;
    assert q1 == 256 * q2 + q1 % 256 && q2 == 256 * (x / 16_777_216) + q2 % 256;
  }

  lemma Load32RoundTrip(b: Bytes)
    requires |b| == 4
    ensures Load32(b) < 0x1_0000_0000 && Le32(Load32(b)) == b
  {
    var x := Load32(b);
    assert x / 256 == b[1] as int + 256 * b[2] as int + 65_536 * b[3] as int;
    assert x / 65_536 == b[2] as int + 256 * b[3] as int;
    assert x / 16_777_216 == b[3] as int;
  }

  lemma CommandRoundTrip(c: Command)
    requires ValidCommand(c)
    ensures FromBytes(ToBytes(c)) == c
  {
    hide Le32, Load32;
    var b := ToBytes(c);
    LengthLe32(c.cmd % 0x1_0000_0000, c.destNet, c.destNetLen % 0x1_0000_0000, c.nextHopIp);
    assert b[0..4] == Le32(c.cmd % 0x1_0000_0000) && b[4..8] == Le32(c.destNet);
    assert b[8..12] == Le32(c.destNetLen % 0x1_0000_0000) && b[12..16] == Le32(c.nextHopIp);
    assert b[16..18] == Le16(c.nextHopPort % 0x1_0000);
    Le32RoundTrip(c.cmd % 0x1_0000_0000);
    Le32RoundTrip(c.destNet);
    Le32RoundTrip(c.destNetLen % 0x1_0000_0000);
    Le32RoundTrip(c.nextHopIp);
  }

  lemma LengthLe32(a: nat, b: nat, c: nat, d: nat)
    ensures |Le32(a)| == |Le32(b)| == |Le32(c)| == |Le32(d)| == 4
  {
  }

  /** Every 20 bytes are a command; encoding it again clears the padding and nothing else. */
  lemma BytesRoundTrip(b: Bytes)
    requires |b| == COMMAND_SIZE
    ensures ValidCommand(FromBytes(b)) && ToBytes(FromBytes(b)) == b[..18] + [0, 0]
  {
    hide Le16, Load16, Le32, Load32, Signed;
    Load32RoundTrip(b[0..4]);
    Load32RoundTrip(b[4..8]);
    Load32RoundTrip(b[8..12]);
    Load32RoundTrip(b[12..16]);
    Load16RoundTrip(b[16], b[17]);
    SignedRoundTrip(Load32(b[0..4]), 0x1_0000_0000);
    SignedRoundTrip(Load32(b[8..12]), 0x1_0000_0000);
    SignedRoundTrip(Load16(b[16], b[17]), 0x1_0000);
    assert b[..18] == b[0..4] + b[4..8] + b[8..12] + b[12..16] + [b[16], b[17]];
  }

  lemma Load16RoundTrip(lo: byte, hi: byte)
    ensures Load16(lo, hi) < 0x1_0000 && Le16(Load16(lo, hi)) == [lo, hi]
  {
  }

  /** Reading a word as signed and reducing it again gives the word back. */
  lemma SignedRoundTrip(x: nat, modulus: nat)
    requires x < modulus && (modulus == 0x1_0000 || modulus == 0x1_0000_0000)
    ensures Signed(x, modulus) % modulus == x
    ensures -(modulus / 2) <= Signed(x, modulus) < modulus / 2
  {
  }

  // ----- route table -----

  datatype IpMask = IpMask(ip: nat, mask: nat)

  datatype RouteEntry = RouteEntry(dst: IpMask, nextHopIp: nat, nextHopPort: nat)

  /** Prefix length clamped to 0..32, as a mask in network order. */
  function Netmask(prefixLen: int): (r: nat)
    ensures r < 0x1_0000_0000
  {
    var bits := if prefixLen < 0 then 0 else if prefixLen > 32 then 32 else prefixLen;
    MaskFits(bits);
    Swap32(MaskValue(W4, bits))
  }

  lemma MaskFits(bits: nat)
    requires bits <= 32
    ensures MaskValue(W4, bits) < 0x1_0000_0000
  {
    MaskIsPrefix(W4, bits);
    Pow2Values();
  }

  function PositionOf(es: seq<RouteEntry>, dst: IpMask): (i: nat)
    ensures i <= |es|
    ensures i < |es| ==> es[i].dst == dst
    ensures forall j :: 0 <= j < i ==> es[j].dst != dst
  {
    FirstIndex(es, (e: RouteEntry) => e.dst == dst)
  }

  predicate Hits(e: RouteEntry, dstIp: nat) {
    e.dst.ip == And(dstIp, e.dst.mask)
  }

  function FirstHit(es: seq<RouteEntry>, dstIp: nat): (i: nat)
    ensures i <= |es|
    ensures i < |es| ==> Hits(es[i], dstIp)
    ensures forall j :: 0 <= j < i ==> !Hits(es[j], dstIp)
  {
    FirstIndex(es, e => Hits(e, dstIp))
  }

  function WithRoute(es: seq<RouteEntry>, e: RouteEntry): seq<RouteEntry> {
    var i := PositionOf(es, e.dst);
    if i < |es| then es[i := e] else es + [e]
  }

  /** Deletion moves the last entry into the free place. */
  function WithoutRoute(es: seq<RouteEntry>, dst: IpMask): seq<RouteEntry> {
    var i, n := PositionOf(es, dst), |es| - 1;
    if i < |es| then es[i := es[n]][..n] else es
  }

  /** A hit moves to the front. */
  function Reordered(es: seq<RouteEntry>, dstIp: nat): seq<RouteEntry> {
    var i := FirstHit(es, dstIp);
    if i < |es| then es[0 := es[i]][i := es[0]] else es
  }

  function Answer(es: seq<RouteEntry>, dstIp: nat): Option<(nat, nat)> {
    var i := FirstHit(es, dstIp);
    if i < |es| then Some((es[i].nextHopIp, es[i].nextHopPort)) else None
  }

  class RouteTable {
    var entries: seq<RouteEntry>

    constructor ()
      ensures entries == []
    {
      entries := [];
    }

    method SetRoute(dst: IpMask, nextHopIp: nat, nextHopPort: nat)
      modifies this
      ensures entries == WithRoute(old(entries), RouteEntry(dst, nextHopIp, nextHopPort))
    {
      var i := PositionOf(entries, dst);
      if i < |entries| {
        entries := entries[i := entries[i].(nextHopIp := nextHopIp, nextHopPort := nextHopPort)];
        return;
      }
      entries := entries + [RouteEntry(dst, nextHopIp, nextHopPort)];
    }

    method DelRoute(dst: IpMask) returns (found: bool)
      modifies this
      ensures entries == WithoutRoute(old(entries), dst)
      ensures found <==> exists e :: e in old(entries) && e.dst == dst
    {
      var i := PositionOf(entries, dst);
      found := i < |entries|;
      if found {
        assert entries[i] in entries;
        var last := entries[|entries| - 1];
        entries := entries[i := last][..|entries| - 1];
      }
    }

    method FindRoute(dstIp: nat) returns (hop: Option<(nat, nat)>)
      modifies this
      ensures entries == Reordered(old(entries), dstIp) && hop == Answer(old(entries), dstIp)
    {
      var i := FirstHit(entries, dstIp);
      if i == |entries| {
        return None;
      }
      if i != 0 {
        entries := entries[0 := entries[i]][i := entries[0]];
      }
      hop := Some((entries[0].nextHopIp, entries[0].nextHopPort));
    }
  }

  /** What a read of the control socket gives. */
  datatype Received = Failed | Closed | Data(bytes: Bytes)

  function AfterCommand(es: seq<RouteEntry>, c: Command): seq<RouteEntry> {
    var mask := Netmask(c.destNetLen);
    var dst := IpMask(And(c.destNet, mask), mask);
    if c.cmd == CMD_SET_ROUTE then WithRoute(es, RouteEntry(dst, c.nextHopIp, c.nextHopPort % 0x1_0000))
    else if c.cmd == CMD_DEL_ROUTE then WithoutRoute(es, dst)
    else es
  }

  method ProcessCmd(received: Received, routes: RouteTable, exitFlag: bool) returns (exitFlag': bool)
    requires received.Data? ==> |received.bytes| <= COMMAND_SIZE
    modifies routes
    ensures var whole := received.Data? && |received.bytes| == COMMAND_SIZE;
      && routes.entries ==
           (if whole then AfterCommand(old(routes.entries), FromBytes(received.bytes)) else old(routes.entries))
      && exitFlag' == (|| exitFlag || received.Closed? || (received.Data? && received.bytes == [])
                       || (whole && FromBytes(received.bytes).cmd == CMD_STOP))
  {
    exitFlag' := exitFlag;
    match received {
      case Failed =>
      case Closed => exitFlag' := true;
      case Data(bytes) =>
        if bytes == [] {
          return true;
        }
        if |bytes| < COMMAND_SIZE {
          return;
        }
        var cmd := FromBytes(bytes);
        var mask := Netmask(cmd.destNetLen);
        if cmd.cmd == CMD_SET_ROUTE {
          routes.SetRoute(IpMask(And(cmd.destNet, mask), mask), cmd.nextHopIp, cmd.nextHopPort % 0x1_0000);
        } else if cmd.cmd == CMD_DEL_ROUTE {
          var _ := routes.DelRoute(IpMask(And(cmd.destNet, mask), mask));
        } else if cmd.cmd == CMD_STOP {
          exitFlag' := true;
        }
    }
  }

  // ----- producer side -----

  /** A 32-bit port field cut to 16 signed bits. */
  function PortField(port: int): int {
    Signed(port % 0x1_0000, 0x1_0000)
  }

  function EventCommand(port: int, e: Event): Command
    requires e.lease.subnet.ip < 0x1_0000_0000 && e.lease.attrs.publicIp < 0x1_0000_0000
  {
    var net := e.lease.subnet;
    match e.kind
    case Added => Command(CMD_SET_ROUTE, Swap32(net.ip), net.prefixLen, Swap32(e.lease.attrs.publicIp), PortField(port))
    case Removed => Command(CMD_DEL_ROUTE, Swap32(net.ip), net.prefixLen, 0, 0)
  }

  /** Writes one 20-byte command per event to the control socket. */
  method ProcessSubnetEvents(port: int, batch: seq<Event>) returns (written: seq<Bytes>)
    requires forall e :: e in batch ==> e.lease.subnet.ip < 0x1_0000_0000 && e.lease.attrs.publicIp < 0x1_0000_0000
    ensures |written| == |batch|
    ensures forall i :: 0 <= i < |batch| ==> written[i] == ToBytes(EventCommand(port, batch[i]))
  {
    written := [];
    for i := 0 to |batch|
      invariant |written| == i
      invariant forall j :: 0 <= j < i ==> written[j] == ToBytes(EventCommand(port, batch[j]))
    {
      assert batch[i] in batch;
      written := written + [ToBytes(EventCommand(port, batch[i]))];
    }
  }
}
