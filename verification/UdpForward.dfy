/**
  One forwarding step of the UDP proxy: a packet from the tunnel device goes to
  the host of its destination subnet, or an error goes back to its sender.
 */
module UdpForward {
  import opened Base
  import opened IpNet
  import opened ProxyPacket
  import opened UdpProxy
  import opened UdpRuns
  import opened UdpWire

  /** What leaves the proxy: nothing, a packet for a peer, or a packet back into the tunnel. */
  datatype Sent = Nothing | ToPeer(packet: Bytes, hopIp: nat, hopPort: nat) | ToTun(packet: Bytes)

  /** What a step sends for packet `p`, given the answer of the table. */
  ghost predicate Forwards(p: Bytes, tunAddr: Bytes, answer: Option<(nat, nat)>, out: Sent)
    requires |p| >= IPHDR_LEN && |tunAddr| == 4
  {
    match answer
    case None => if Answerable(p) then out.ToTun? && IsReply(p, tunAddr, out.packet) else out == Nothing
    case Some((ip, port)) =>
      var r := TtlDecremented(p);
      out == if r.keep then ToPeer(r.packet, ip, port) else Nothing
  }

  method TunToUdp(pkt: array<byte>, tunAddr: Bytes, routes: RouteTable) returns (out: Sent)
    requires pkt.Length >= IPHDR_LEN && |tunAddr| == 4
    modifies pkt, routes
    ensures var p := old(pkt[..]);
      && routes.entries == Reordered(old(routes.entries), Load32(p[16..20]))
      && Forwards(p, tunAddr, Answer(old(routes.entries), Load32(p[16..20])), out)
  {
    hide TtlDecremented, IsReply, Answerable, Load32, Answer, Reordered;
    var hop := routes.FindRoute(Load32(pkt[16..20]));
    assert pkt[..][16..20] == pkt[16..20];
    match hop {
      case None =>
        var reply := BuildNetUnreachable(pkt[..], tunAddr);
        out := if reply.Some? then ToTun(reply.value) else Nothing;
      case Some((ip, port)) =>
        var keep := DecrementTtl(pkt);
        if !keep {
          return Nothing;
        }
        out := ToPeer(pkt[..], ip, port);
    }
  }

  /** The packet one hop further: TTL one less, its check field right again, all else as it was. */
  ghost predicate NextHop(p: Bytes, p': Bytes, headerLen: nat)
    requires IPHDR_LEN <= headerLen <= |p|
  {
    && |p'| == |p| && p'[8] as int + 1 == p[8] as int && ValidCheck(p'[..headerLen])
    && forall i :: 0 <= i < |p| && i != 8 && i != 10 && i != 11 ==> p'[i] == p[i]
  }

  /**
    After any history: a packet for w.x.y.z with a right header and hops left
    goes, one hop further, to the public address a.b.c.d of the subnet that
    contains its destination; with its last hop used up it goes nowhere.
   */
  lemma {:induction false} Delivered(
    port: int, ops: seq<Op>, n: Net, p: Bytes, headerLen: nat, tunAddr: Bytes, a: byte, b: byte, c: byte, d: byte,
    out: Sent)
    requires ValidOps(ops) && |tunAddr| == 4
    requires IPHDR_LEN <= headerLen <= |p| && headerLen % 4 == 0 && ValidCheck(p[..headerLen])
    requires var m, ip := Installed(ops), Address(p[16], p[17], p[18], p[19]);
      n in m && Contains(W4, n, ip) && Unambiguous(m, ip) && m[n] == Address(a, b, c, d)
    requires Forwards(p, tunAddr, Answer(Run(port, ops), Load32(p[16..20])), out)
    ensures p[8] == 1 ==> out == Nothing
    ensures p[8] >= 2 ==>
      && out.ToPeer? && NextHop(p, out.packet, headerLen)
      && out.hopIp == Load32([a, b, c, d]) && out.hopPort == port % 0x1_0000
  {
    hide Run, Installed, Contains, Unambiguous, Address, Answer, Load32, TtlDecremented, ValidCheck;
    assert p[16..20] == [p[16], p[17], p[18], p[19]];
    LookupByBytes(port, ops, n, p[16], p[17], p[18], p[19], a, b, c, d);
    TtlFrame(p);
    TtlPatchIsRecomputation(p, headerLen);
  }

  /**
    After any history: a packet whose destination no installed subnet contains is
    answered with net unreachable, addressed to its sender, or with nothing if it
    must not be answered; it never goes to a peer.
   */
  lemma {:induction false} NotDelivered(port: int, ops: seq<Op>, p: Bytes, tunAddr: Bytes, out: Sent)
    requires ValidOps(ops) && |p| >= IPHDR_LEN && |tunAddr| == 4
    requires forall n :: n in Installed(ops) ==> !Contains(W4, n, Address(p[16], p[17], p[18], p[19]))
    requires Forwards(p, tunAddr, Answer(Run(port, ops), Load32(p[16..20])), out)
    ensures if Answerable(p) then
        && out.ToTun? && |out.packet| >= 28 && out.packet[12..16] == tunAddr && out.packet[16..20] == p[12..16]
        && out.packet[9] == 1 && out.packet[20] == 3 && out.packet[21] == 0
      else out == Nothing
  {
    hide Run, Installed, Contains, Address, Answer, Load32, Answerable, Cksum, Swap32;
    assert p[16..20] == [p[16], p[17], p[18], p[19]];
    SwapIsBytes(p[16], p[17], p[18], p[19]);
    LookupIsMapLookup(port, ops, Address(p[16], p[17], p[18], p[19]));
    if Answerable(p) {
      ReplyParts(p, tunAddr, out.packet);
    }
  }

  lemma ReplyParts(p: Bytes, tunAddr: Bytes, reply: Bytes)
    requires |p| >= IPHDR_LEN && |tunAddr| == 4 && IsReply(p, tunAddr, reply)
    ensures |reply| >= 28 && reply[12..16] == tunAddr && reply[16..20] == p[12..16]
    ensures reply[9] == 1 && reply[20] == 3 && reply[21] == 0
  {
    hide Cksum;
    assert reply[..20][12..16] == reply[12..16] && reply[..20][16..20] == reply[16..20];
    assert reply[..20][9] == reply[9] && reply[20..][0] == reply[20] && reply[20..][1] == reply[21];
  }
}
