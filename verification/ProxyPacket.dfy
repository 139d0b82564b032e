/**
  Checksum, TTL and ICMP helpers of the UDP proxy.  Loads and stores are those
  of a little-endian machine.
 */
module ProxyPacket {
  import opened Base

  const IPHDR_LEN := 20
  const MAX_IPOPTLEN := 40

  // ----- words -----

  /** Exchange of the two bytes of a 16-bit word: `htons` here. */
  function Swap16(x: nat): (r: nat)
    requires x < 65_536
    ensures r < 65_536
  {
    256 * (x % 256) + x / 256
  }

  // ----- checksum -----

  /** Sum of the whole 4-byte words of `d`; a shorter tail is ignored. */
  function Sum32(d: Bytes): nat {
    if |d| < 4 then 0 else Load32(d) + Sum32(d[4..])
  }

  function Fold(sum: nat): nat {
    if sum < 65_536 then sum else Fold(sum % 65_536 + sum / 65_536)
  }

  function Cksum(d: Bytes): nat {
    65_535 - Canon(Sum32(d))
  }

  /** The representative of `s` modulo 65535 that end-around carry gives: 0 only for 0, else in 1..65535. */
  function Canon(s: nat): (c: nat)
    ensures c <= 65_535
    ensures c == 0 <==> s == 0
  {
    if s == 0 then 0 else (s - 1) % 65_535 + 1
  }

  lemma CanonOf(s: nat, c: nat, k: int)
    requires s == c + 65_535 * k && c <= 65_535 && (c == 0 <==> s == 0)
    ensures Canon(s) == c
  {
  }

  lemma CanonWitness(s: nat) returns (k: int)
    ensures s == Canon(s) + 65_535 * k
  {
    k := if s == 0 then 0 else (s - 1) / 65_535;
  }

  lemma {:induction false} FoldIsCanon(s: nat)
    ensures Fold(s) == Canon(s)
  {
    if s < 65_536 {
      CanonOf(s, s, 0);
    } else {
      var t := s % 65_536 + s / 65_536;
      FoldIsCanon(t);
      var k := CanonWitness(t);
      CanonOf(s, Canon(t), k + s / 65_536);
    }
  }

  /** The checksum as written: a sum of words, carries folded until 16 bits are left, complemented. */
  method ComputeCksum(data: Bytes) returns (check: nat)
    ensures check == Cksum(data)
  {
    var sum := 0;
    var i := 0;
    while i + 4 <= |data|
      invariant 0 <= i <= |data| && sum + Sum32(data[i..]) == Sum32(data)
    {
      assert data[i..][4..] == data[i + 4..];
      sum := sum + Load32(data[i..i + 4]);
      i := i + 4;
    }
    while sum / 65_536 != 0
      invariant sum >= 0 && Fold(sum) == Fold(Sum32(data))
      decreases sum
    {
      sum := sum % 65_536 + sum / 65_536;
    }
    FoldIsCanon(Sum32(data));
    check := 65_535 - sum;
  }

  /** A 64-bit accumulator cannot overflow on any packet below 16 GiB. */
  lemma {:induction false} SumFits(d: Bytes)
    ensures Sum32(d) <= 0xFFFF_FFFF * (|d| / 4)
    ensures |d| <= 0x4_0000_0000 ==> Sum32(d) < 0x1_0000_0000_0000_0000
    decreases |d|
  {
    if |d| >= 4 {
      SumFits(d[4..]);
      assert |d[4..]| / 4 == |d| / 4 - 1;
    }
  }

  // ----- RFC 1071 -----

  /** One's complement addition of 16-bit words: a carry out comes back in. */
  function OnesAdd(a: nat, b: nat): nat {
    if a + b > 65_535 then a + b - 65_535 else a + b
  }

  /** One's complement sum of the big-endian 16-bit words of `d`. */
  function OnesSum(d: Bytes): nat {
    if |d| < 2 then 0 else OnesAdd(Load16(d[1], d[0]), OnesSum(d[2..]))
  }

  function Rfc1071(d: Bytes): int {
    65_535 - OnesSum(d)
  }

  function Sum16(d: Bytes): nat {
    if |d| < 2 then 0 else Load16(d[1], d[0]) + Sum16(d[2..])
  }

  lemma {:induction false} OnesSumIsCanon(d: Bytes)
    ensures OnesSum(d) == Canon(Sum16(d))
    decreases |d|
  {
    if |d| >= 2 {
      OnesSumIsCanon(d[2..]);
      var a, s := Load16(d[1], d[0]), Sum16(d[2..]);
      var k := CanonWitness(s);
      CanonOf(a + s, OnesSum(d), if a + Canon(s) > 65_535 then k + 1 else k);
    }
  }

  /** Modulo 65535, little-endian 32-bit words are big-endian 16-bit words with their bytes exchanged. */
  lemma {:induction false} SumsAgree(d: Bytes) returns (k: int)
    requires |d| % 4 == 0
    ensures 256 * Sum32(d) == Sum16(d) + 65_535 * k
    ensures Sum32(d) == 0 <==> Sum16(d) == 0
    decreases |d|
  {
    k := 0;
    if |d| >= 4 {
      k := SumsAgree(d[4..]);
      assert d[2..][2..] == d[4..] && d[2..][0] == d[2] && d[2..][1] == d[3];
      assert Sum16(d) == Load16(d[1], d[0]) + Load16(d[3], d[2]) + Sum16(d[4..]);
      k := k + d[1] as int + 256 * d[2] as int + 65_537 * d[3] as int;
    }
  }

  lemma SwapIsTimes256(c: nat) returns (k: int)
    requires c < 65_536
    ensures 256 * c == Swap16(c) + 65_535 * k
    ensures Swap16(c) == 0 <==> c == 0
    ensures Swap16(65_535 - c) == 65_535 - Swap16(c)
    ensures Swap16(Swap16(c)) == c
  {
    var h, l := c / 256, c % 256;
    k := h;
    assert Swap16(c) == 256 * l + h;
    assert (65_535 - c) / 256 == 255 - h && (65_535 - c) % 256 == 255 - l;
    assert (256 * l + h) / 256 == l && (256 * l + h) % 256 == h;
  }

  /**
    The 4-byte little-endian checksum, stored in memory order, is the RFC 1071
    checksum in network order.
   */
  lemma CksumIsRfc1071(d: Bytes)
    requires |d| % 4 == 0
    ensures 0 <= Rfc1071(d) < 65_536 && Cksum(d) == Swap16(Rfc1071(d))
  {
    hide Canon, Swap16;
    OnesSumIsCanon(d);
    var c := Canon(Sum32(d));
    var k := CanonWitness(Sum32(d));
    var j := SumsAgree(d);
    var i := SwapIsTimes256(c);
    // Swap16(c) represents 256 * Sum32(d), hence Sum16(d)
    CanonOf(Sum16(d), Swap16(c), 256 * k + i - j);
    var _ := SwapIsTimes256(65_535 - Swap16(c));
  }

  // ----- changing one byte -----

  function Weight(i: nat): nat {
    match i % 4
    case 0 => 1
    case 1 => 256
    case 2 => 65_536
    case _ => 16_777_216
  }

  lemma {:induction false} SumUpdate(d: Bytes, i: nat, v: byte)
    requires |d| % 4 == 0 && i < |d|
    ensures Sum32(d[i := v]) == Sum32(d) + (v - d[i]) * Weight(i)
    decreases |d|
  {
    hide Weight;
    var d' := d[i := v];
    if i >= 4 {
      assert d'[4..] == d[4..][i - 4 := v];
      SumUpdate(d[4..], i - 4, v);
      assert Load32(d') == Load32(d);
      WeightPeriodic(i);
    } else {
      assert d'[4..] == d[4..];
      FirstWordUpdate(d, i, v);
      hide Load32;
    }
  }

  lemma WeightPeriodic(i: nat)
    requires i >= 4
    ensures Weight(i - 4) == Weight(i)
  {
    assert (i - 4) % 4 == i % 4;
  }

  lemma FirstWordUpdate(d: Bytes, i: nat, v: byte)
    requires |d| >= 4 && i < 4
    ensures Load32(d[i := v]) == Load32(d) + (v - d[i]) * Weight(i)
  {
    if
    case i == 0 =>
    case i == 1 =>
    case i == 2 =>
    case i == 3 =>
  }

  /** Writing the checksum of `d` into a zero field at offset 2 modulo 4 makes the checksum zero. */
  lemma SelfVerifies(d: Bytes, at: nat)
    requires |d| % 4 == 0 && at % 4 == 2 && at + 1 < |d| && d[at] == 0 && d[at + 1] == 0
    ensures Cksum(d[at := Cksum(d) % 256][at + 1 := Cksum(d) / 256]) == 0
  {
    hide Sum32, Canon;
    var s, c := Sum32(d), Cksum(d);
    var d1 := d[at := c % 256];
    SumUpdate(d, at, c % 256);
    SumUpdate(d1, at + 1, c / 256);
    assert Weight(at) == 65_536 && Weight(at + 1) == 16_777_216 && c == 256 * (c / 256) + c % 256;
    assert Sum32(d1[at + 1 := c / 256]) == s + 65_536 * c;
    var k := CanonWitness(s);
    CanonOf(s + 65_536 * c, 65_535, k + c);
  }

  // ----- TTL -----

  datatype TtlOutcome = TtlOutcome(keep: bool, packet: Bytes)

  /** Decrement of the TTL with 8-bit wrap-around, and the patched check field unless the TTL reaches zero. */
  function TtlDecremented(p: Bytes): (r: TtlOutcome)
    requires |p| >= IPHDR_LEN
    ensures |r.packet| == |p|
  {
    var ttl: byte := (p[8] as int + 255) % 256;
    var p1 := p[8 := ttl];
    if ttl == 0 then TtlOutcome(false, p1)
    else
      var patched := PatchedCheck(Load16(p[10], p[11]));
      TtlOutcome(true, p1[10 := patched % 256][11 := patched / 256])
  }

  function PatchedCheck(check: nat): (r: nat)
    requires check < 65_536
    ensures r < 65_536
  {
    var threshold, inc := Swap16(0xFFFF - 0x100), Swap16(0x100);
    if check >= threshold then ((check + inc) % 65_536 + 1) % 65_536 else (check + inc) % 65_536
  }

  method DecrementTtl(pkt: array<byte>) returns (keep: bool)
    requires pkt.Length >= IPHDR_LEN
    modifies pkt
    ensures TtlOutcome(keep, pkt[..]) == TtlDecremented(old(pkt[..]))
  {
    var ttl: byte := (pkt[8] as int + 255) % 256;
    pkt[8] := ttl;
    if ttl == 0 {
      return false;
    }
    var check := Load16(pkt[10], pkt[11]);
    var threshold, inc := Swap16(0xFFFF - 0x100), Swap16(0x100);
    var patched := if check >= threshold then ((check + inc) % 65_536 + 1) % 65_536 else (check + inc) % 65_536;
    pkt[10], pkt[11] := patched % 256, patched / 256;
    keep := true;
  }

  /** The header with its check field cleared. */
  function Cleared(h: Bytes): Bytes
    requires |h| >= IPHDR_LEN
  {
    h[10 := 0][11 := 0]
  }

  /** The check field of the header is the one a full computation gives. */
  predicate ValidCheck(h: Bytes)
    requires |h| >= IPHDR_LEN
  {
    Load16(h[10], h[11]) == Cksum(Cleared(h))
  }

  /**
    On a packet whose header, of any length, carries the right check field:
    the packet is dropped exactly when its TTL is 1; a kept packet again carries
    the right check field if and only if its TTL was not 0.  A TTL of 0 wraps to
    255 and leaves a wrong check field.
   */
  lemma TtlPatchIsRecomputation(p: Bytes, hl: nat)
    requires IPHDR_LEN <= hl <= |p| && hl % 4 == 0
    requires ValidCheck(p[..hl])
    ensures var r := TtlDecremented(p);
      && (r.keep <==> p[8] != 1)
      && (r.keep ==> (ValidCheck(r.packet[..hl]) <==> p[8] >= 2))
  {
    hide TtlDecremented, Sum32, Canon, PatchedCheck, Cleared, Weight, Load16;
    var r := TtlDecremented(p);
    TtlFrame(p);
    if r.keep {
      var c := Cleared(p[..hl]);
      var ttl: byte := (p[8] as int + 255) % 256;
      HeaderAfter(p, hl);
      SumUpdate(c, 8, ttl);
      SumUpdate(c, 8, 0);
      PatchAgrees(Sum32(c), p[8], Sum32(Cleared(r.packet[..hl])));
    }
  }

  /** An all-zero header but for its check field. */
  function ZeroHeader(): Bytes {
    seq(IPHDR_LEN, i => if i == 10 || i == 11 then 255 else 0)
  }

  /** A header with TTL 0: its check field is right, and after the step it is not. */
  lemma {:induction false} TtlZeroWraps()
    ensures var h := ZeroHeader();
      var r := TtlDecremented(h);
      ValidCheck(h) && r.keep && r.packet[8] == 255 && !ValidCheck(r.packet)
  {
    var h := ZeroHeader();
    ZeroHeaderValid();
    assert h[8] == 0 && |h| == IPHDR_LEN && h[..IPHDR_LEN] == h;
    hide ZeroHeader, ValidCheck;
    TtlPatchIsRecomputation(h, IPHDR_LEN);
    TtlOfZero(h);
  }

  lemma TtlOfZero(h: Bytes)
    requires |h| == IPHDR_LEN && h[8] == 0
    ensures var r := TtlDecremented(h); r.keep && r.packet[8] == 255 && r.packet[..IPHDR_LEN] == r.packet
  {
    hide PatchedCheck;
  }

  lemma ZeroHeaderValid()
    ensures |ZeroHeader()| == IPHDR_LEN && ValidCheck(ZeroHeader())
  {
    var h := ZeroHeader();
    assert forall i :: 0 <= i < |Cleared(h)| ==> Cleared(h)[i] == 0;
    ZeroSum(Cleared(h));
    hide Cksum;
  }

  lemma {:induction false} ZeroSum(d: Bytes)
    requires forall i :: 0 <= i < |d| ==> d[i] == 0
    ensures Sum32(d) == 0 && Cksum(d) == 65_535
    decreases |d|
  {
    if |d| >= 4 {
      ZeroSum(d[4..]);
    }
  }

  /** The TTL goes down by one; besides it only the check field changes. */
  lemma TtlFrame(p: Bytes)
    requires |p| >= IPHDR_LEN
    ensures var r := TtlDecremented(p);
      && (r.keep <==> p[8] != 1)
      && (p[8] >= 1 ==> r.packet[8] == p[8] - 1)
      && (forall i :: 0 <= i < |p| && i != 8 && i != 10 && i != 11 ==> r.packet[i] == p[i])
  {
    hide PatchedCheck, Load16;
  }

  lemma HeaderAfter(p: Bytes, hl: nat)
    requires IPHDR_LEN <= hl <= |p| && TtlDecremented(p).keep
    ensures var h' := TtlDecremented(p).packet[..hl];
      && Cleared(h') == Cleared(p[..hl])[8 := (p[8] as int + 255) % 256]
      && Load16(h'[10], h'[11]) == PatchedCheck(Load16(p[10], p[11]))
      && |Cleared(p[..hl])| == hl && Cleared(p[..hl])[8] == p[8] && Weight(8) == 1
  {
  }

  lemma PatchAgrees(s: nat, ttl: byte, s': nat)
    requires ttl as int <= s && ttl != 1
    requires s' == if ttl == 0 then s + 255 else s - 1
    ensures PatchedCheck(65_535 - Canon(s)) == 65_535 - Canon(s') <==> ttl >= 2
  {
    var k := CanonWitness(s);
    var c := Canon(s);
    assert Swap16(0xFFFF - 0x100) == 0xFFFE && Swap16(0x100) == 1;
    if ttl >= 2 {
      if c == 1 {
        CanonOf(s', 65_535, k - 1);
      } else {
        CanonOf(s', c - 1, k);
      }
    } else if c + 255 <= 65_535 {
      CanonOf(s', c + 255, k);
    } else {
      CanonOf(s', c + 255 - 65_535, k + 1);
    }
  }

  // ----- ICMP net unreachable -----

  /** Length in bytes of the header, from its length nibble. */
  function HeaderLen(offender: Bytes): nat
    requires offender != []
  {
    offender[0] as int % 16 * 4
  }

  /** A reply goes out: long enough, sane header length, not ICMP, first fragment, 8 payload bytes present. */
  predicate Answerable(offender: Bytes) {
    && |offender| >= IPHDR_LEN
    && HeaderLen(offender) < IPHDR_LEN + MAX_IPOPTLEN
    && offender[9] != 1
    && Load16(offender[7], offender[6]) % 8_192 == 0
    && |offender| >= HeaderLen(offender) + 8
  }

  /** The same by bytes: at most 14 words of header, eight bytes after them, a fragment offset of zero. */
  lemma AnsweredExactly(offender: Bytes)
    ensures Answerable(offender) <==>
      && |offender| >= 20 && offender[0] % 16 <= 14 && |offender| >= 4 * (offender[0] % 16) + 8
      && offender[9] != 1 && offender[6] % 32 == 0 && offender[7] == 0
  {
    if |offender| >= 20 {
      var lo, hi := offender[7] as int, offender[6] as int;
      assert lo + 256 * hi == 8_192 * (hi / 32) + (256 * (hi % 32) + lo);
    }
  }

  method BuildNetUnreachable(offender: Bytes, tunAddr: Bytes) returns (r: Option<Bytes>)
    requires |tunAddr| == 4
    ensures r.Some? <==> Answerable(offender)
    ensures r.Some? ==> IsReply(offender, tunAddr, r.value)
  {
    if |offender| < IPHDR_LEN {
      return None;
    }
    var ihl := offender[0] as int % 16 * 4;
    if ihl >= IPHDR_LEN + MAX_IPOPTLEN || offender[9] == 1 {
      return None;
    }
    if Load16(offender[7], offender[6]) % 8_192 != 0 || |offender| < ihl + 8 {
      return None;
    }
    var pktlen := IPHDR_LEN + 8 + ihl + 8;
    var pkt := new byte[pktlen](_ => 0);
    FillIpHeader(pkt, tunAddr, offender[12..16]);
    FillIcmp(pkt, offender[..ihl + 8]);
    r := Some(pkt[..]);
    assert pkt[..][..20] == pkt[..20] && pkt[..][20..] == pkt[20..];
  }

  method CopyInto(pkt: array<byte>, at: nat, src: Bytes)
    requires at + |src| <= pkt.Length
    modifies pkt
    ensures forall i :: 0 <= i < pkt.Length ==> pkt[i] == if at <= i < at + |src| then src[i - at] else old(pkt[i])
  {
    for n := 0 to |src|
      invariant forall i :: 0 <= i < pkt.Length ==> pkt[i] == if at <= i < at + n then src[i - at] else old(pkt[i])
    {
      pkt[at + n] := src[n];
    }
  }

  /** Computes the checksum of a range of the buffer and stores it in a cleared field of that range. */
  method StoreCheck(pkt: array<byte>, lo: nat, hi: nat, at: nat)
    requires lo <= hi <= pkt.Length && (hi - lo) % 4 == 0 && at % 4 == 2 && at + 1 < hi - lo
    requires pkt[lo + at] == 0 && pkt[lo + at + 1] == 0
    modifies pkt
    ensures forall i :: 0 <= i < pkt.Length && i != lo + at && i != lo + at + 1 ==> pkt[i] == old(pkt[i])
    ensures Cksum(pkt[lo..hi]) == 0
  {
    hide Cksum;
    ghost var range: Bytes := pkt[lo..hi];
    var check := ComputeCksum(pkt[lo..hi]);
    assert check < 65_536 by {
      CksumIs16Bit(range);
    }
    pkt[lo + at], pkt[lo + at + 1] := check % 256, check / 256;
    SelfVerifies(range, at);
    assert pkt[lo..hi] == range[at := check % 256][at + 1 := check / 256];
  }

  lemma CksumIs16Bit(d: Bytes)
    ensures 0 <= Cksum(d) < 65_536
  {
  }

  /** Reply header: the addresses, the length of the whole packet, and the check field over its 20 bytes. */
  method FillIpHeader(pkt: array<byte>, saddr: Bytes, daddr: Bytes)
    requires 28 <= pkt.Length < 65_536 && |saddr| == 4 && |daddr| == 4
    requires forall i :: 0 <= i < 20 ==> pkt[i] == 0
    modifies pkt
    ensures pkt[20..] == old(pkt[20..])
    ensures IsIpHeader(pkt[..20], pkt.Length, saddr, daddr)
  {
    hide Cksum;
    pkt[0] := 0x45;
    CopyInto(pkt, 2, [pkt.Length / 256, pkt.Length % 256]);
    pkt[8] := 8;
    pkt[9] := 1;
    CopyInto(pkt, 12, saddr);
    CopyInto(pkt, 16, daddr);
    StoreCheck(pkt, 0, 20, 10);
    assert pkt[0..20] == pkt[..20];
    assert pkt[..20][12..16] == saddr by {
      assert forall i :: 0 <= i < 4 ==> pkt[..20][12..16][i] == pkt[12 + i];
    }
    assert pkt[..20][16..20] == daddr by {
      assert forall i :: 0 <= i < 4 ==> pkt[..20][16..20][i] == pkt[16 + i];
    }
  }

  /** ICMP part: type 3, code 0, the quoted bytes, and the check field over all of it. */
  method FillIcmp(pkt: array<byte>, quoted: Bytes)
    requires pkt.Length == 28 + |quoted| && |quoted| % 4 == 0
    requires forall i :: 20 <= i < pkt.Length ==> pkt[i] == 0
    modifies pkt
    ensures pkt[..20] == old(pkt[..20])
    ensures IsIcmp(pkt[20..], quoted)
  {
    hide Cksum;
    pkt[20] := 3;
    pkt[21] := 0;
    CopyInto(pkt, 28, quoted);
    StoreCheck(pkt, 20, pkt.Length, 2);
    assert pkt[20..pkt.Length] == pkt[20..];
    assert pkt[20..][8..] == quoted by {
      forall i | 0 <= i < |quoted|
        ensures pkt[20..][8..][i] == quoted[i]
      {
        assert pkt[20..][8..][i] == pkt[28 + i];
      }
    }
  }

  predicate IsIpHeader(h: Bytes, length: nat, saddr: Bytes, daddr: Bytes) {
    && |h| == 20 && h[0] == 0x45 && h[1] == 0 && Load16(h[3], h[2]) == length
    && h[4] == h[5] == h[6] == h[7] == 0 && h[8] == 8 && h[9] == 1 && h[12..16] == saddr && h[16..20] == daddr
    && Cksum(h) == 0
  }

  predicate IsIcmp(m: Bytes, quoted: Bytes) {
    && |m| == 8 + |quoted| && m[0] == 3 && m[1] == 0 && m[4] == m[5] == m[6] == m[7] == 0
    && m[8..] == quoted && Cksum(m) == 0
  }

  /**
    A destination unreachable message, code net unreachable: the length field is
    the real length, both checksums verify, and it quotes the offending header
    and eight bytes after it.
   */
  predicate IsReply(offender: Bytes, tunAddr: Bytes, pkt: Bytes)
    requires |offender| >= IPHDR_LEN && |tunAddr| == 4
  {
    var quoted := 4 * (offender[0] % 16) + 8;
    && |pkt| == 28 + quoted <= 92 && quoted <= |offender|
    && IsIpHeader(pkt[..20], |pkt|, tunAddr, offender[12..16])
    && IsIcmp(pkt[20..], offender[..quoted])
  }
}
