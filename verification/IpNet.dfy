/**
  IPv4 and IPv6 network arithmetic.  The two source files hold the same
  definitions over 32-bit and 128-bit words; here the word width is a
  parameter `w`.
 */
module IpNet {
  import opened Bits

  const W4: nat := 32
  const W6: nat := 128

  /** An address and a prefix length; the address may carry host bits. */
  datatype Net = Net(ip: nat, prefixLen: nat)

  predicate Fits(w: nat, n: Net) {
    n.ip < Pow2(w) && n.prefixLen <= w
  }

  /** `1 << (w - prefix)`; 0 when that does not fit the word or the prefix is out of range. */
  function SubnetSize(w: nat, prefixLen: nat): nat {
    if prefixLen == 0 || prefixLen > w then 0 else Shl(w, 1, w - prefixLen)
  }

  /** `MAX << (w - bits)`; 0 for /0 and out-of-range prefixes. */
  function MaskValue(w: nat, bits: nat): nat {
    if bits == 0 || bits > w then 0 else Shl(w, Pow2(w) - 1, w - bits)
  }

  function Network(w: nat, n: Net): Net {
    Net(And(n.ip, MaskValue(w, n.prefixLen)), n.prefixLen)
  }

  function Next(w: nat, n: Net): Net {
    Net(WrappingAdd(w, n.ip, SubnetSize(w, n.prefixLen)), n.prefixLen)
  }

  predicate Overlaps(w: nat, a: Net, b: Net) {
    var m := if a.prefixLen < b.prefixLen then MaskValue(w, a.prefixLen) else MaskValue(w, b.prefixLen);
    And(a.ip, m) == And(b.ip, m)
  }

  predicate Contains(w: nat, n: Net, ip: nat) {
    And(n.ip, MaskValue(w, n.prefixLen)) == And(ip, MaskValue(w, n.prefixLen))
  }

  predicate ContainsCidr(w: nat, a: Net, b: Net) {
    MaskValue(w, a.prefixLen) <= MaskValue(w, b.prefixLen) && Contains(w, a, b.ip)
  }

  predicate Empty(n: Net) {
    n.ip == 0 && n.prefixLen == 0
  }

  function Broadcast(w: nat, n: Net): nat
    requires n.prefixLen <= w
  {
    MaskIsPrefix(w, n.prefixLen);
    Or(n.ip, Not(w, MaskValue(w, n.prefixLen)))
  }

  function GetSubnetMin(w: nat, networkIp: nat, size: nat): nat {
    WrappingAdd(w, networkIp, size)
  }

  function GetSubnetMax(w: nat, networkIp: nat, size: nat): nat {
    WrappingSub(w, networkIp, size)
  }

  predicate CheckSubnet(subnet: nat, mask: nat) {
    And(subnet, mask) == subnet
  }

  // ----- the arithmetic meaning of the masks -----

  /** Number of addresses in a /p network, without the word-size clamp. */
  function BlockSize(w: nat, p: nat): (r: nat)
    requires p <= w
    ensures 0 < r
  {
    Pow2(w - p)
  }

  /** First address of the block of size `BlockSize` that holds `x`. */
  function BlockStart(w: nat, p: nat, x: nat): (r: nat)
    requires p <= w
    ensures r <= x < r + BlockSize(w, p)
  {
    BlockOf(x, BlockSize(w, p));
    x - x % BlockSize(w, p)
  }

  lemma {:induction false} MaskIsPrefix(w: nat, p: nat)
    requires p <= w
    ensures BlockSize(w, p) <= Pow2(w)
    ensures MaskValue(w, p) == Pow2(w) - BlockSize(w, p)
    ensures MaskValue(w, p) < Pow2(w)
  {
    Pow2Monotonic(w - p, w);
    if p != 0 {
      ShlAllOnes(w, w - p);
    }
  }

  lemma {:induction false} SubnetSizeIsBlockSize(w: nat, p: nat)
    requires p <= w
    ensures p != 0 ==> SubnetSize(w, p) == BlockSize(w, p) < Pow2(w)
    ensures SubnetSize(w, p) == BlockSize(w, p) % Pow2(w)
  {
    if p != 0 {
      Pow2Monotonic(w - p, w);
      DivModUnique(Pow2(w - p), Pow2(w), 0, Pow2(w - p));
    } else {
      DivModUnique(Pow2(w), Pow2(w), 1, 0);
    }
  }

  /** Masking an address yields the start of its block. */
  lemma {:induction false} MaskedIsBlockStart(w: nat, p: nat, x: nat)
    requires p <= w && x < Pow2(w)
    ensures And(x, MaskValue(w, p)) == BlockStart(w, p, x)
  {
    MaskIsPrefix(w, p);
    AndMask(w, w - p, x);
  }

  lemma {:induction false} AlignedIsMultiple(w: nat, p: nat, x: nat)
    requires p <= w && x < Pow2(w)
    ensures CheckSubnet(x, MaskValue(w, p)) <==> x % BlockSize(w, p) == 0
  {
    MaskedIsBlockStart(w, p, x);
  }

  /** Two block starts of the same block size are equal, or the blocks are apart. */
  lemma BlockStartUnique(d: int, x: int, y: int)
    requires 0 < d
    ensures x - x % d <= y < x - x % d + d <==> y - y % d == x - x % d
  {
    if x - x % d <= y < x - x % d + d {
      DivModUnique(y, d, x / d, y - (x - x % d));
    }
  }

  // ----- what the tests mean as address sets -----

  /** `contains` is membership in the interval from the network address to the broadcast address. */
  lemma {:induction false} ContainsIsInterval(w: nat, n: Net, x: nat)
    requires Fits(w, n) && x < Pow2(w)
    ensures Contains(w, n, x) <==> Network(w, n).ip <= x <= Broadcast(w, n)
    ensures Network(w, n).ip == BlockStart(w, n.prefixLen, n.ip)
    ensures Broadcast(w, n) == Network(w, n).ip + BlockSize(w, n.prefixLen) - 1
    ensures Broadcast(w, n) < Pow2(w)
  {
    NetworkBounds(w, n);
    ContainsByBlock(w, n, x);
    BlockStartUnique(BlockSize(w, n.prefixLen), n.ip, x);
    hide Contains, Network, Broadcast, Pow2;
  }

  lemma {:induction false} NetworkBounds(w: nat, n: Net)
    requires Fits(w, n)
    ensures Network(w, n).ip == BlockStart(w, n.prefixLen, n.ip)
    ensures Broadcast(w, n) == Network(w, n).ip + BlockSize(w, n.prefixLen) - 1
    ensures Broadcast(w, n) < Pow2(w)
  {
    hide And, Or, MaskValue, Pow2;
    MaskedIsBlockStart(w, n.prefixLen, n.ip);
    MaskIsPrefix(w, n.prefixLen);
    OrLowOnes(w - n.prefixLen, n.ip);
    BlockFits(w, n.prefixLen, n.ip);
  }

  lemma {:induction false} BlockFits(w: nat, p: nat, x: nat)
    requires p <= w && x < Pow2(w)
    ensures BlockStart(w, p, x) + BlockSize(w, p) <= Pow2(w)
  {
    Pow2Add(p, w - p);
    BlockBelow(x, BlockSize(w, p), Pow2(p));
  }

  /** A network contains exactly what its masked form contains. */
  lemma {:induction false} NetworkSameSet(w: nat, n: Net, x: nat)
    requires Fits(w, n) && x < Pow2(w)
    ensures Fits(w, Network(w, n))
    ensures Network(w, Network(w, n)) == Network(w, n)
    ensures Contains(w, Network(w, n), x) <==> Contains(w, n, x)
  {
    var d, s := BlockSize(w, n.prefixLen), BlockStart(w, n.prefixLen, n.ip);
    MaskedIsBlockStart(w, n.prefixLen, n.ip);
    BlockOf(n.ip, d);
    MaskedIsBlockStart(w, n.prefixLen, s);
    MaskedIsBlockStart(w, n.prefixLen, x);
  }

  /** The larger of two blocks absorbs the start of the smaller one. */
  lemma CoarserBlock(w: nat, p: nat, q: nat, x: nat)
    requires p <= q <= w
    ensures BlockStart(w, p, BlockStart(w, q, x)) == BlockStart(w, p, x)
    ensures BlockStart(w, p, x) <= BlockStart(w, q, x)
    ensures BlockStart(w, q, x) + BlockSize(w, q) <= BlockStart(w, p, x) + BlockSize(w, p)
  {
    Pow2Add(q - p, w - q);
    CoarserMultiple(BlockSize(w, q), Pow2(q - p), BlockSize(w, p), x);
  }

  lemma CoarserMultiple(d: int, e: int, c: int, x: nat)
    requires 0 < d && 0 < e && 0 < c == e * d
    ensures (x - x % d) - (x - x % d) % c == x - x % c
    ensures x - x % c <= x - x % d
    ensures x - x % d + d <= x - x % c + c
  {
    ModNested(x, d, e);
    var r := x % c;
    BlockOf(x, c);
    BlockOf(r, d);
    BlockBelow(r, d, e);
    assert x - x % d == (x / c) * c + (r - r % d);
    DivModUnique(x - x % d, c, x / c, r - r % d);
  }

  lemma {:induction false} ContainsByBlock(w: nat, n: Net, x: nat)
    requires Fits(w, n) && x < Pow2(w)
    ensures Contains(w, n, x) <==> BlockStart(w, n.prefixLen, n.ip) == BlockStart(w, n.prefixLen, x)
  {
    MaskedIsBlockStart(w, n.prefixLen, n.ip);
    MaskedIsBlockStart(w, n.prefixLen, x);
  }

  /** Two networks that share an address agree on the coarser block. */
  lemma {:induction false} SharedAddress(w: nat, a: Net, b: Net, x: nat)
    requires Fits(w, a) && Fits(w, b) && x < Pow2(w)
    requires a.prefixLen <= b.prefixLen
    requires Contains(w, b, x)
    ensures Contains(w, a, x) <==> Contains(w, a, b.ip)
  {
    ContainsByBlock(w, a, x);
    ContainsByBlock(w, a, b.ip);
    ContainsByBlock(w, b, x);
    CoarserBlock(w, a.prefixLen, b.prefixLen, x);
    CoarserBlock(w, a.prefixLen, b.prefixLen, b.ip);
  }

  /** `overlaps` is non-empty intersection. */
  lemma {:induction false} OverlapsIsIntersection(w: nat, a: Net, b: Net)
    requires Fits(w, a) && Fits(w, b)
    ensures Overlaps(w, a, b) <==> exists x: nat :: x < Pow2(w) && Contains(w, a, x) && Contains(w, b, x)
  {
    var (c, f) := if a.prefixLen < b.prefixLen then (a, b) else (b, a);
    assert Overlaps(w, a, b) == Contains(w, c, f.ip);
    if Overlaps(w, a, b) {
      assert Contains(w, a, f.ip) && Contains(w, b, f.ip);
    }
    forall x: nat | x < Pow2(w) && Contains(w, a, x) && Contains(w, b, x)
      ensures Overlaps(w, a, b)
    {
      SharedAddress(w, c, f, x);
    }
  }

  /** `contains_cidr` is inclusion of address sets. */
  lemma {:induction false} ContainsCidrIsInclusion(w: nat, a: Net, b: Net)
    requires Fits(w, a) && Fits(w, b)
    ensures ContainsCidr(w, a, b) <==> forall x: nat :: x < Pow2(w) && Contains(w, b, x) ==> Contains(w, a, x)
  {
    MaskOrder(w, a.prefixLen, b.prefixLen);
    hide MaskValue, Pow2, And, Broadcast, BlockStart;
    if ContainsCidr(w, a, b) {
      forall x: nat | x < Pow2(w) && Contains(w, b, x)
        ensures Contains(w, a, x)
      {
        SharedAddress(w, a, b, x);
      }
    } else if a.prefixLen <= b.prefixLen {
      assert Contains(w, b, b.ip);
    } else {
      LargerSticksOut(w, a, b);
    }
  }

  /** One of the two end points of the larger block lies outside the smaller one. */
  lemma {:induction false} LargerSticksOut(w: nat, a: Net, b: Net)
    requires Fits(w, a) && Fits(w, b) && b.prefixLen < a.prefixLen
    ensures exists x: nat :: x < Pow2(w) && Contains(w, b, x) && !Contains(w, a, x)
  {
    NetworkBounds(w, b);
    NetworkBounds(w, a);
    Pow2Monotonic(w - a.prefixLen, w - b.prefixLen);
    var lo, hi := Network(w, b).ip, Broadcast(w, b);
    ContainsIsInterval(w, b, lo);
    ContainsIsInterval(w, b, hi);
    ContainsIsInterval(w, a, lo);
    ContainsIsInterval(w, a, hi);
    hide MaskValue, Pow2, And, Broadcast, BlockStart, Contains, Network;
    assert !Contains(w, a, lo) || !Contains(w, a, hi);
  }

  lemma MaskOrder(w: nat, p: nat, q: nat)
    requires p <= w && q <= w
    ensures MaskValue(w, p) <= MaskValue(w, q) <==> p <= q
  {
    MaskIsPrefix(w, p);
    MaskIsPrefix(w, q);
    if p <= q {
      Pow2Monotonic(w - q, w - p);
    } else {
      Pow2Monotonic(w - p, w - q);
    }
  }

  /** Any two networks are nested or disjoint. */
  lemma {:induction false} NestedOrDisjoint(w: nat, a: Net, b: Net)
    requires Fits(w, a) && Fits(w, b)
    ensures ContainsCidr(w, a, b) || ContainsCidr(w, b, a)
         || forall x: nat :: x < Pow2(w) ==> !(Contains(w, a, x) && Contains(w, b, x))
    ensures Overlaps(w, a, b) <==> ContainsCidr(w, a, b) || ContainsCidr(w, b, a)
  {
    MaskOrder(w, a.prefixLen, b.prefixLen);
    MaskOrder(w, b.prefixLen, a.prefixLen);
    OverlapsIsIntersection(w, a, b);
    if a.prefixLen == b.prefixLen {
      assert Overlaps(w, a, b) == Contains(w, a, b.ip) == Contains(w, b, a.ip);
    } else if a.prefixLen < b.prefixLen {
      assert Overlaps(w, a, b) == Contains(w, a, b.ip);
    } else {
      assert Overlaps(w, a, b) == Contains(w, b, a.ip);
    }
  }

  /**
    `next` shifts the whole block by its size, modulo the word; for a masked
    network it starts right after the broadcast address.
   */
  lemma {:induction false} NextIsAdjacent(w: nat, n: Net, x: nat)
    requires Fits(w, n) && n.prefixLen != 0 && x < Pow2(w)
    ensures Next(w, Network(w, n)).ip == (Broadcast(w, n) + 1) % Pow2(w)
    ensures Fits(w, Next(w, n))
    ensures Contains(w, Next(w, n), WrappingAdd(w, x, BlockSize(w, n.prefixLen))) <==> Contains(w, n, x)
  {
    NetworkBounds(w, n);
    SubnetSizeIsBlockSize(w, n.prefixLen);
    NextShifts(w, n, x);
    hide Contains, Broadcast, Pow2, SubnetSize, And, MaskValue, BlockStart, BlockSize;
  }

  lemma {:induction false} NextShifts(w: nat, n: Net, x: nat)
    requires Fits(w, n) && n.prefixLen != 0 && x < Pow2(w)
    ensures Contains(w, Next(w, n), WrappingAdd(w, x, BlockSize(w, n.prefixLen))) <==> Contains(w, n, x)
  {
    var p := n.prefixLen;
    var d := BlockSize(w, p);
    SubnetSizeIsBlockSize(w, p);
    ContainsByBlock(w, n, x);
    ContainsByBlock(w, Next(w, n), WrappingAdd(w, x, d));
    ShiftedBlock(w, p, x);
    ShiftedBlock(w, p, n.ip);
    hide Contains, Pow2, SubnetSize, BlockStart, BlockSize;
    WrapInjective(Pow2(w), BlockStart(w, p, x), BlockStart(w, p, n.ip), d);
  }

  lemma {:induction false} ShiftedBlock(w: nat, p: nat, x: nat)
    requires 0 < p <= w && x < Pow2(w)
    ensures BlockStart(w, p, (x + BlockSize(w, p)) % Pow2(w)) == (BlockStart(w, p, x) + BlockSize(w, p)) % Pow2(w)
  {
    Pow2Monotonic(w - p, w);
    Pow2Add(p, w - p);
    ShiftedMultiple(BlockSize(w, p), Pow2(p), Pow2(w), x);
  }

  lemma ShiftedMultiple(d: int, e: int, m: int, x: nat)
    requires 0 < d && 0 < e && 0 < m == e * d && x < m
    ensures (x + d) % m - (x + d) % m % d == (x - x % d + d) % m
  {
    var k, r := x / d, x % d;
    BlockOf(x, d);
    BlockBelow(x, d, e);
    LaterBlock(d, e, k, r);
    if k + 1 < e {
      DivModUnique(x + d, m, 0, x + d);
      DivModUnique(k * d + d, m, 0, k * d + d);
      DivModUnique(x + d, d, k + 1, r);
    } else {
      DivModUnique(x + d, m, 1, r);
      DivModUnique(m, m, 1, 0);
      DivModUnique(r, d, 0, r);
    }
  }

  /** The block after the `k`-th of `e` blocks is the next one, or the end of the word. */
  lemma LaterBlock(d: int, e: int, k: int, r: int)
    requires 0 < d && 0 <= r < d && 0 < e && 0 <= k && k * d + d <= e * d
    ensures d <= e * d && k + 1 <= e && k * d + d == (k + 1) * d
    ensures k + 1 < e ==> k * d + r + d < e * d
    ensures k + 1 == e ==> k * d + d == e * d
  {
    assert k * d + d == (k + 1) * d;
    MulMonotonic(1, e, d);
    if e < k + 1 {
      MulMonotonic(e + 1, k + 1, d);
    } else if k + 1 < e {
      MulMonotonic(k + 2, e, d);
    }
  }

  lemma WrapInjective(m: nat, a: nat, b: nat, d: nat)
    requires d <= m && a < m && b < m
    ensures 0 < m
    ensures (a + d) % m == (b + d) % m <==> a == b
  {
    var qa, qb := (a + d) / m, (b + d) / m;
    assert a + d == qa * m + (a + d) % m && b + d == qb * m + (b + d) % m;
    if qa < qb {
      MulMonotonic(qa + 1, qb, m);
    } else if qb < qa {
      MulMonotonic(qb + 1, qa, m);
    }
  }
}
