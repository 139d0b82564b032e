/**
  The coherence check of the network configuration, which also fills in the
  defaults for the subnet length and for the first and last subnet.
 */
module NetConfig {
  import opened Base
  import opened Bits
  import opened IpNet

  datatype Problem =
    | MissingNetwork
    | SubnetLenTooBig
    | TooFewSubnets
    | NetworkTooSmall
    | SubnetMinOutOfRange
    | SubnetMaxOutOfRange
    | SubnetMinUnaligned(ip: nat)
    | SubnetMaxUnaligned(ip: nat)

  datatype ConfigError = ConfigError(width: nat, problem: Problem)

  /** The settings of one address family; 0 stands for an address that is not set. */
  datatype Family = Family(network: Net, subnetLen: nat, subnetMin: nat, subnetMax: nat)

  /** Length given to each host when the network is at least four times as big. */
  function HostLen(w: nat): nat {
    if w == W4 then 24 else 64
  }

  // ----- what the check computes for one family -----

  function CheckedLen(w: nat, f: Family): Result<nat, Problem> {
    var p := f.network.prefixLen;
    if f.subnetLen > 0 then
      if f.subnetLen > w - 2 then Err(SubnetLenTooBig)
      else if f.subnetLen < p + 2 then Err(TooFewSubnets)
      else Ok(f.subnetLen)
    else if p > w - 4 then Err(NetworkTooSmall)
    else if p <= HostLen(w) - 2 then Ok(HostLen(w))
    else Ok(p + 2)
  }

  function CheckedMin(w: nat, f: Family): Result<nat, Problem> {
    if f.subnetMin == 0 then Ok(GetSubnetMin(w, f.network.ip, SubnetSize(w, f.subnetLen)))
    else if !Contains(w, f.network, f.subnetMin) then Err(SubnetMinOutOfRange)
    else Ok(f.subnetMin)
  }

  function CheckedMax(w: nat, f: Family): Result<nat, Problem> {
    if f.subnetMax == 0 then Ok(GetSubnetMax(w, Next(w, f.network).ip, SubnetSize(w, f.subnetLen)))
    else if !Contains(w, f.network, f.subnetMax) then Err(SubnetMaxOutOfRange)
    else Ok(f.subnetMax)
  }

  function Misaligned(w: nat, f: Family): Option<Problem> {
    var boundary := MaskValue(w, f.subnetLen);
    if !CheckSubnet(f.subnetMin, boundary) then Some(SubnetMinUnaligned(f.subnetMin))
    else if !CheckSubnet(f.subnetMax, boundary) then Some(SubnetMaxUnaligned(f.subnetMax))
    else None
  }

  /** The family after the check, and the problem found; fields set before a problem keep their new values. */
  datatype Checked = Checked(family: Family, problem: Option<Problem>)

  function CheckFamily(w: nat, f: Family): Checked {
    if Empty(f.network) then Checked(f, Some(MissingNetwork))
    else match CheckedLen(w, f)
      case Err(e) => Checked(f, Some(e))
      case Ok(len) =>
        var f1 := f.(subnetLen := len);
        match CheckedMin(w, f1)
        case Err(e) => Checked(f1, Some(e))
        case Ok(min) =>
          var f2 := f1.(subnetMin := min);
          match CheckedMax(w, f2)
          case Err(e) => Checked(f2, Some(e))
          case Ok(max) =>
            var f3 := f2.(subnetMax := max);
            Checked(f3, Misaligned(w, f3))
  }

  // ----- the configuration object -----

  function Unset(ip: Option<nat>): nat {
    if ip.Some? then ip.value else 0
  }

  class Config {
    var enableIpv4: bool
    var network: Net
    var subnetLen: nat
    var subnetMin: nat
    var subnetMax: nat
    var enableIpv6: bool
    var ipv6Network: Net
    var ipv6SubnetLen: nat
    var ipv6SubnetMin: Option<nat>
    var ipv6SubnetMax: Option<nat>

    ghost function V4(): Family
      reads this
    {
      Family(network, subnetLen, subnetMin, subnetMax)
    }

    ghost function V6(): Family
      reads this
    {
      Family(ipv6Network, ipv6SubnetLen, Unset(ipv6SubnetMin), Unset(ipv6SubnetMax))
    }

    method CheckIpv4() returns (problem: Option<Problem>)
      modifies this`subnetLen, this`subnetMin, this`subnetMax
      ensures Checked(V4(), problem) == CheckFamily(W4, old(V4()))
    {
      if Empty(network) {
        return Some(MissingNetwork);
      }
      if subnetLen > 0 {
        if subnetLen > 30 {
          return Some(SubnetLenTooBig);
        }
        if subnetLen < network.prefixLen + 2 {
          return Some(TooFewSubnets);
        }
      } else if network.prefixLen > 28 {
        return Some(NetworkTooSmall);
      } else if network.prefixLen <= 22 {
        subnetLen := 24;
      } else {
        subnetLen := network.prefixLen + 2;
      }
      var size := SubnetSize(W4, subnetLen);
      if subnetMin == 0 {
        subnetMin := GetSubnetMin(W4, network.ip, size);
      } else if !Contains(W4, network, subnetMin) {
        return Some(SubnetMinOutOfRange);
      }
      if subnetMax == 0 {
        subnetMax := GetSubnetMax(W4, Next(W4, network).ip, size);
      } else if !Contains(W4, network, subnetMax) {
        return Some(SubnetMaxOutOfRange);
      }
      var boundary := MaskValue(W4, subnetLen);
      if !CheckSubnet(subnetMin, boundary) {
        return Some(SubnetMinUnaligned(subnetMin));
      }
      if !CheckSubnet(subnetMax, boundary) {
        return Some(SubnetMaxUnaligned(subnetMax));
      }
      problem := None;
    }

    method CheckIpv6() returns (problem: Option<Problem>)
      modifies this`ipv6SubnetLen, this`ipv6SubnetMin, this`ipv6SubnetMax
      ensures Checked(V6(), problem) == CheckFamily(W6, old(V6()))
    {
      if Empty(ipv6Network) {
        return Some(MissingNetwork);
      }
      if ipv6SubnetLen > 0 {
        if ipv6SubnetLen > 126 {
          return Some(SubnetLenTooBig);
        }
        if ipv6SubnetLen < ipv6Network.prefixLen + 2 {
          return Some(TooFewSubnets);
        }
      } else if ipv6Network.prefixLen > 124 {
        return Some(NetworkTooSmall);
      } else if ipv6Network.prefixLen <= 62 {
        ipv6SubnetLen := 64;
      } else {
        ipv6SubnetLen := ipv6Network.prefixLen + 2;
      }
      var size := SubnetSize(W6, ipv6SubnetLen);
      var min := Unset(ipv6SubnetMin);
      if min != 0 {
        if !Contains(W6, ipv6Network, min) {
          return Some(SubnetMinOutOfRange);
        }
      } else {
        min := GetSubnetMin(W6, ipv6Network.ip, size);
        ipv6SubnetMin := Some(min);
      }
      var max := Unset(ipv6SubnetMax);
      if max != 0 {
        if !Contains(W6, ipv6Network, max) {
          return Some(SubnetMaxOutOfRange);
        }
      } else {
        max := GetSubnetMax(W6, Next(W6, ipv6Network).ip, size);
        ipv6SubnetMax := Some(max);
      }
      var boundary := MaskValue(W6, ipv6SubnetLen);
      if !CheckSubnet(min, boundary) {
        return Some(SubnetMinUnaligned(min));
      }
      if !CheckSubnet(max, boundary) {
        return Some(SubnetMaxUnaligned(max));
      }
      problem := None;
    }

    /** IPv4 is checked first; a problem there leaves the IPv6 settings as they were. */
    method CheckNetworkConfig() returns (r: Result<(), ConfigError>)
      modifies this`subnetLen, this`subnetMin, this`subnetMax, this`ipv6SubnetLen, this`ipv6SubnetMin,
        this`ipv6SubnetMax
      ensures var c4, c6 := CheckFamily(W4, old(V4())), CheckFamily(W6, old(V6()));
        var bad4 := enableIpv4 && c4.problem.Some?;
        && V4() == (if enableIpv4 then c4.family else old(V4()))
        && V6() == (if enableIpv6 && !bad4 then c6.family else old(V6()))
        && r == (if bad4 then Err(ConfigError(W4, c4.problem.value))
                 else if enableIpv6 && c6.problem.Some? then Err(ConfigError(W6, c6.problem.value))
                 else Ok(()))
    {
      hide CheckFamily;
      if enableIpv4 {
        var problem := CheckIpv4();
        if problem.Some? {
          return Err(ConfigError(W4, problem.value));
        }
      }
      if enableIpv6 {
        var problem := CheckIpv6();
        if problem.Some? {
          return Err(ConfigError(W6, problem.value));
        }
      }
      r := Ok(());
    }
  }

  // ----- the subnet grid -----

  /** A masked network of one of the two families, with addresses that fit the word. */
  predicate Proper(w: nat, f: Family) {
    && (w == W4 || w == W6)
    && Fits(w, f.network) && Network(w, f.network) == f.network
    && f.subnetMin < Pow2(w) && f.subnetMax < Pow2(w)
  }

  lemma CheckedLenInRange(w: nat, f: Family)
    requires Proper(w, f) && CheckedLen(w, f).Ok?
    ensures f.network.prefixLen + 2 <= CheckedLen(w, f).value <= w - 2
    ensures CheckedLen(w, f.(subnetLen := CheckedLen(w, f).value)) == CheckedLen(w, f)
  {
  }

  lemma NonEmptyHasPrefix(w: nat, f: Family)
    requires Proper(w, f) && !Empty(f.network)
    ensures f.network.prefixLen >= 1
  {
    MaskedIsBlockStart(w, f.network.prefixLen, f.network.ip);
    if f.network.prefixLen == 0 {
      DivModUnique(f.network.ip, Pow2(w), 0, f.network.ip);
    }
  }

  /** In units of the subnet size: the network is a run of `count` whole subnets. */
  lemma NetworkInSubnets(w: nat, net: Net, len: nat) returns (size: nat, count: nat, first: nat)
    requires Fits(w, net) && Network(w, net) == net && 1 <= net.prefixLen && net.prefixLen + 2 <= len <= w
    ensures size == BlockSize(w, len) == SubnetSize(w, len) && count == Pow2(len - net.prefixLen) >= 4
    ensures BlockSize(w, net.prefixLen) == SubnetSize(w, net.prefixLen) == count * size
    ensures net.ip == first * size && (first + count) * size <= Pow2(w)
    ensures Pow2(w) % size == 0
  {
    var p := net.prefixLen;
    size, count := BlockSize(w, len), Pow2(len - p);
    SubnetSizeIsBlockSize(w, len);
    SubnetSizeIsBlockSize(w, p);
    Pow2Add(len - p, w - len);
    Pow2Monotonic(2, len - p);
    assert Pow2(2) == 4;
    ModPow2Nested(0, w - len, w);
    var d := BlockSize(w, p);
    MaskedStart(w, net);
    first := net.ip / d * count;
    hide Pow2, SubnetSize, Network;
    Regroup(net.ip / d, count, size);
  }

  lemma {:induction false} MaskedStart(w: nat, net: Net)
    requires Fits(w, net) && Network(w, net) == net
    ensures var d := BlockSize(w, net.prefixLen); 0 <= net.ip / d && net.ip == net.ip / d * d && net.ip + d <= Pow2(w)
  {
    MaskedIsBlockStart(w, net.prefixLen, net.ip);
    BlockFits(w, net.prefixLen, net.ip);
    hide And, MaskValue, Pow2;
    BlockOf(net.ip, BlockSize(w, net.prefixLen));
  }

  lemma Regroup(q: nat, count: nat, size: nat)
    ensures q * (count * size) == (q * count) * size
    ensures (q * count + count) * size == q * (count * size) + count * size
  {
  }

  /** Addresses of the network, in units of the subnet size. */
  lemma {:induction false} ContainsInSubnets(w: nat, net: Net, size: nat, count: nat, first: nat, x: nat)
    requires Fits(w, net) && Network(w, net) == net && x < Pow2(w)
    requires BlockSize(w, net.prefixLen) == count * size && net.ip == first * size
    ensures Contains(w, net, x) <==> first * size <= x < (first + count) * size
  {
    hide Contains, Network, Broadcast;
    ContainsIsInterval(w, net, x);
    assert (first + count) * size == first * size + count * size;
  }

  lemma {:induction false} DefaultMin(w: nat, net: Net, size: nat, count: nat, first: nat)
    requires net.ip == first * size && (first + count) * size <= Pow2(w) && count >= 4 && size >= 1
    ensures GetSubnetMin(w, net.ip, size) == (first + 1) * size
  {
    MulMonotonic(first + 2, first + count, size);
    assert (first + 2) * size == (first + 1) * size + size;
    assert net.ip + size == (first + 1) * size;
    DivModUnique((first + 1) * size, Pow2(w), 0, (first + 1) * size);
  }

  /** The last subnet is found although the end of the network may wrap around to 0. */
  lemma {:induction false} DefaultMax(w: nat, net: Net, size: nat, count: nat, first: nat)
    requires net.ip == first * size && (first + count) * size <= Pow2(w) && count >= 4 && size >= 1
    requires SubnetSize(w, net.prefixLen) == count * size
    ensures GetSubnetMax(w, Next(w, net).ip, size) == (first + count - 1) * size
  {
    hide Pow2, SubnetSize;
    EndsOf(size, count, first);
    WholeBlock(size, count, first);
    WrappedEnd(Pow2(w), net.ip, SubnetSize(w, net.prefixLen), size);
  }

  lemma WholeBlock(size: nat, count: nat, first: nat)
    requires count >= 1
    ensures (first + count) * size == first * size + count * size && size <= count * size
  {
    MulMonotonic(1, count, size);
  }

  lemma WrappedEnd(m: int, ip: int, block: int, size: int)
    requires 0 <= ip && 0 < size <= block && ip + block <= m
    ensures ((ip + block) % m - size) % m == ip + block - size
  {
    var end := ip + block;
    if end < m {
      DivModUnique(end, m, 0, end);
      DivModUnique(end - size, m, 0, end - size);
    } else {
      DivModUnique(end, m, 1, 0);
      DivModUnique(-size, m, -1, end - size);
    }
  }

  /** A contained and aligned address is the start of one of the subnets. */
  lemma AlignedIsSubnet(size: nat, count: nat, first: nat, x: nat) returns (i: nat)
    requires size >= 1 && x % size == 0 && first * size <= x < (first + count) * size
    ensures i < count && x == (first + i) * size
  {
    var q := x / size;
    BlockOf(x, size);
    assert x == q * size && (q + 1) * size == q * size + size;
    if q < first {
      MulMonotonic(q + 1, first, size);
    }
    if q >= first + count {
      MulMonotonic(first + count, q, size);
    }
    i := q - first;
  }

  /** What a successful check guarantees of the first and last subnet. */
  ghost predicate Coherent(w: nat, f: Family) {
    && 1 <= f.network.prefixLen && f.network.prefixLen + 2 <= f.subnetLen <= w - 2
    && f.subnetMin < Pow2(w) && f.subnetMax < Pow2(w)
    && Contains(w, f.network, f.subnetMin) && Contains(w, f.network, f.subnetMax)
    && f.subnetMin % BlockSize(w, f.subnetLen) == 0 && f.subnetMax % BlockSize(w, f.subnetLen) == 0
  }

  /**
    A successful check on a masked network: the subnet length leaves room for
    four subnets and for two hosts in each, first and last subnet are in the
    network and aligned, and they are in order when the last one was not given.
   */
  lemma CheckGuarantees(w: nat, f: Family)
    requires Proper(w, f) && CheckFamily(w, f).problem.None?
    ensures var g := CheckFamily(w, f).family;
      && g.network == f.network && Coherent(w, g)
      && (f.subnetMin == 0 ==> g.subnetMin == g.network.ip + BlockSize(w, g.subnetLen))
      && (f.subnetMax == 0 ==> g.subnetMin <= g.subnetMax)
      && (f.subnetMax == 0 ==>
            g.subnetMax == g.network.ip + BlockSize(w, g.network.prefixLen) - BlockSize(w, g.subnetLen))
      && (f.subnetMin != 0 ==> g.subnetMin == f.subnetMin) && (f.subnetMax != 0 ==> g.subnetMax == f.subnetMax)
  {
    hide CheckFamily, CheckedMin, CheckedMax, CheckedLen, Contains, CheckSubnet, MaskValue, SubnetSize, Next,
         BlockSize, Network, Pow2;
    var g, net := CheckFamily(w, f).family, f.network;
    CheckPieces(w, f);
    NonEmptyHasPrefix(w, f);
    CheckedLenInRange(w, f);
    var f1 := f.(subnetLen := g.subnetLen);
    var size, count, first := NetworkInSubnets(w, net, g.subnetLen);
    var i := MinInGrid(w, f1, g.subnetMin, size, count, first);
    var j := MaxInGrid(w, f1.(subnetMin := g.subnetMin), g.subnetMax, size, count, first);
    EndsOf(size, count, first);
    MulMonotonic(first + i, first + count - 1, size);
  }

  /** The parts of a successful check. */
  lemma CheckPieces(w: nat, f: Family)
    requires CheckFamily(w, f).problem.None?
    ensures var g := CheckFamily(w, f).family;
      var f1 := f.(subnetLen := g.subnetLen);
      && !Empty(f.network) && g.network == f.network
      && CheckedLen(w, f) == Ok(g.subnetLen)
      && CheckedMin(w, f1) == Ok(g.subnetMin)
      && CheckedMax(w, f1.(subnetMin := g.subnetMin)) == Ok(g.subnetMax)
      && CheckSubnet(g.subnetMin, MaskValue(w, g.subnetLen)) && CheckSubnet(g.subnetMax, MaskValue(w, g.subnetLen))
  {
    hide CheckedMin, CheckedMax, CheckedLen, CheckSubnet, MaskValue;
  }

  lemma MinInGrid(w: nat, f: Family, min: nat, size: nat, count: nat, first: nat) returns (i: nat)
    requires Proper(w, f) && f.subnetLen <= w
    requires CheckedMin(w, f) == Ok(min) && CheckSubnet(min, MaskValue(w, f.subnetLen))
    requires size == BlockSize(w, f.subnetLen) == SubnetSize(w, f.subnetLen) && count >= 4
    requires BlockSize(w, f.network.prefixLen) == count * size
    requires f.network.ip == first * size && (first + count) * size <= Pow2(w)
    ensures min < Pow2(w) && min % size == 0 && Contains(w, f.network, min)
    ensures i < count && min == (first + i) * size
    ensures if f.subnetMin == 0 then i == 1 else min == f.subnetMin
  {
    hide Contains, CheckSubnet, MaskValue, SubnetSize, GetSubnetMin, BlockSize, Network, Pow2;
    DefaultMin(w, f.network, size, count, first);
    InsideFits(w, size, count, first);
    ContainsInSubnets(w, f.network, size, count, first, min);
    AlignedIsMultiple(w, f.subnetLen, min);
    i := AlignedIsSubnet(size, count, first, min);
    if f.subnetMin == 0 {
      SameMultiple(first + i, first + 1, size);
    }
  }

  lemma MaxInGrid(w: nat, f: Family, max: nat, size: nat, count: nat, first: nat) returns (i: nat)
    requires Proper(w, f) && f.subnetLen <= w
    requires CheckedMax(w, f) == Ok(max) && CheckSubnet(max, MaskValue(w, f.subnetLen))
    requires size == BlockSize(w, f.subnetLen) == SubnetSize(w, f.subnetLen) && count >= 4
    requires BlockSize(w, f.network.prefixLen) == SubnetSize(w, f.network.prefixLen) == count * size
    requires f.network.ip == first * size && (first + count) * size <= Pow2(w)
    ensures max < Pow2(w) && max % size == 0 && Contains(w, f.network, max)
    ensures i < count && max == (first + i) * size
    ensures if f.subnetMax == 0 then i == count - 1 else max == f.subnetMax
  {
    hide Contains, CheckSubnet, MaskValue, SubnetSize, GetSubnetMax, Next, BlockSize, Network, Pow2;
    DefaultMax(w, f.network, size, count, first);
    InsideFits(w, size, count, first);
    ContainsInSubnets(w, f.network, size, count, first, max);
    AlignedIsMultiple(w, f.subnetLen, max);
    i := AlignedIsSubnet(size, count, first, max);
    if f.subnetMax == 0 {
      SameMultiple(first + i, first + count - 1, size);
    }
  }

  lemma SameMultiple(a: int, b: int, d: int)
    requires d > 0 && a * d == b * d
    ensures a == b
  {
    if a < b {
      MulMonotonic(a + 1, b, d);
    } else if b < a {
      MulMonotonic(b + 1, a, d);
    }
  }

  lemma {:induction false} InsideFits(w: nat, size: nat, count: nat, first: nat)
    requires (first + count) * size <= Pow2(w) && count >= 4 && size >= 1
    ensures first * size <= (first + 1) * size < (first + count) * size
    ensures first * size <= (first + count - 1) * size < (first + count) * size
  {
    MulMonotonic(first, first + 1, size);
    MulMonotonic(first + 2, first + count, size);
    MulMonotonic(first, first + count - 1, size);
    assert (first + 2) * size == (first + 1) * size + size;
    assert (first + count) * size == (first + count - 1) * size + size;
  }

  lemma EndsOf(size: nat, count: nat, first: nat)
    ensures (first + 1) * size == first * size + size
    ensures (first + count - 1) * size == first * size + count * size - size
  {
  }

  /** Start of the `i`-th subnet of the grid. */
  function GridPoint(g: Family, size: nat, i: nat): nat {
    g.subnetMin + i * size
  }

  /**
    With both ends defaulted the usable subnets are exactly the
    2^(len - prefix) - 1 >= 3 ones after the first, in spite of wrap-around.
   */
  lemma DefaultGrid(w: nat, f: Family, a: nat)
    requires Proper(w, f) && CheckFamily(w, f).problem.None? && f.subnetMin == 0 && f.subnetMax == 0
    ensures var g := CheckFamily(w, f).family;
      var size := BlockSize(w, g.subnetLen);
      var n := Pow2(g.subnetLen - g.network.prefixLen) - 1;
      && n >= 3
      && (g.subnetMin <= a <= g.subnetMax && a % size == 0 <==> exists i: nat :: i < n && a == GridPoint(g, size, i))
  {
    hide CheckFamily, Contains, Network, BlockSize, SubnetSize, Pow2;
    var g := CheckFamily(w, f).family;
    CheckGuarantees(w, f);
    var size, count, first := NetworkInSubnets(w, g.network, g.subnetLen);
    EndsOf(size, count, first);
    if g.subnetMin <= a <= g.subnetMax && a % size == 0 {
      var i := GridForward(size, count, first, a);
      assert a == GridPoint(g, size, i);
    }
    forall i: nat | i < count - 1 && a == GridPoint(g, size, i)
      ensures g.subnetMin <= a <= g.subnetMax && a % size == 0
    {
      GridBackward(size, count, first, i);
    }
  }

  lemma GridForward(size: nat, count: nat, first: nat, a: nat) returns (i: nat)
    requires size >= 1 && count >= 4 && a % size == 0
    requires (first + 1) * size <= a <= (first + count - 1) * size
    ensures i < count - 1 && a == (first + 1) * size + i * size
  {
    EndsOf(size, count, first);
    assert (first + count) * size == first * size + count * size;
    var k := AlignedIsSubnet(size, count, first, a);
    assert (first + k) * size == first * size + k * size;
    assert k >= 1;
    i := k - 1;
    assert k * size == i * size + size;
  }

  lemma GridBackward(size: nat, count: nat, first: nat, i: nat)
    requires size >= 1 && i < count - 1
    ensures var a := (first + 1) * size + i * size;
      (first + 1) * size <= a <= (first + count - 1) * size && a % size == 0
  {
    var a := (first + 1) * size + i * size;
    assert a == (first + 1 + i) * size;
    MulMonotonic(0, i, size);
    MulMonotonic(first + 1 + i, first + count - 1, size);
    DivModUnique(a, size, first + 1 + i, 0);
  }

  /** Checking again succeeds and changes nothing. */
  lemma CheckIsIdempotent(w: nat, f: Family)
    requires Proper(w, f) && CheckFamily(w, f).problem.None?
    ensures CheckFamily(w, CheckFamily(w, f).family) == CheckFamily(w, f)
  {
    var g := CheckFamily(w, f).family;
    CheckGuarantees(w, f);
    CheckedLenInRange(w, f);
    hide Contains, CheckSubnet, MaskValue, SubnetSize, GetSubnetMin, GetSubnetMax, Next, BlockSize, Network, Pow2;
    // neither end is 0 once the check has set it
    assert CheckedLen(w, g) == Ok(g.subnetLen);
    EndsNonZero(w, f);
  }

  lemma EndsNonZero(w: nat, f: Family)
    requires Proper(w, f) && CheckFamily(w, f).problem.None?
    ensures CheckFamily(w, f).family.subnetMin != 0 && CheckFamily(w, f).family.subnetMax != 0
  {
    hide CheckFamily, Contains, Network;
    CheckGuarantees(w, f);
    var g := CheckFamily(w, f).family;
    Pow2Monotonic(w - g.subnetLen, w - g.network.prefixLen);
  }

  /**
    The check does not compare the two ends.  What it accepts is in order
    exactly when the last subnet was defaulted, or was given as another one than
    the first of the network (first end defaulted) or not below the given first end.
   */
  lemma OrderedExactly(w: nat, f: Family)
    requires Proper(w, f) && CheckFamily(w, f).problem.None?
    ensures var g := CheckFamily(w, f).family;
      g.subnetMin <= g.subnetMax <==>
        f.subnetMax == 0 || (if f.subnetMin == 0 then f.subnetMax != f.network.ip else f.subnetMin <= f.subnetMax)
  {
    hide CheckFamily, Contains, Network, BlockSize, SubnetSize, Pow2;
    var g := CheckFamily(w, f).family;
    CheckGuarantees(w, f);
    if f.subnetMin == 0 && f.subnetMax != 0 {
      var size, count, first := NetworkInSubnets(w, g.network, g.subnetLen);
      ContainsInSubnets(w, g.network, size, count, first, g.subnetMax);
      var i := AlignedIsSubnet(size, count, first, g.subnetMax);
      if i >= 1 {
        MulMonotonic(first + 1, first + i, size);
      }
      EndsOf(size, count, first);
    }
  }

  /** Both ways to get the ends out of order: two given ends, and a given last end that is the first subnet. */
  lemma OrderNotChecked()
    ensures var f := Family(Net(0x0A00_0000, 8), 16, 0x0A02_0000, 0x0A01_0000);
      CheckFamily(W4, f) == Checked(f, None) && f.subnetMax < f.subnetMin
    ensures var f := Family(Net(0x0A00_0000, 8), 16, 0, 0x0A00_0000);
      CheckFamily(W4, f) == Checked(f.(subnetMin := 0x0A01_0000), None)
  {
    var net := Net(0x0A00_0000, 8);
    Pow2Values();
    Pow2Add(8, 16);
    assert BlockSize(W4, 8) == 0x100_0000 && BlockSize(W4, 16) == 0x1_0000;
    SubnetSizeIsBlockSize(W4, 16);
    hide Contains, CheckSubnet, MaskValue, BlockSize, SubnetSize, Pow2;
    InTen(0x0A00_0000);
    InTen(0x0A01_0000);
    InTen(0x0A02_0000);
    assert GetSubnetMin(W4, net.ip, 0x1_0000) == 0x0A01_0000;
  }

  /** Multiples of 2^16 from 10.0.0.0 on lie in 10.0.0.0/8 and on a /16 boundary. */
  lemma InTen(ip: nat)
    requires ip / 0x100_0000 == 10 && ip % 0x1_0000 == 0
    ensures Contains(W4, Net(0x0A00_0000, 8), ip) && CheckSubnet(ip, MaskValue(W4, 16))
  {
    Pow2Values();
    Pow2Add(8, 16);
    assert BlockSize(W4, 8) == 0x100_0000 && BlockSize(W4, 16) == 0x1_0000;
    ContainsByBlock(W4, Net(0x0A00_0000, 8), ip);
    AlignedIsMultiple(W4, 16, ip);
  }

  // ----- the check, in numbers -----

  /** The subnet length in use: as given, else 24 (64) for a network at least four times as big, else two bits more. */
  function LengthFor(w: nat, f: Family): nat {
    if f.subnetLen > 0 then f.subnetLen
    else if w == 32 then if f.network.prefixLen <= 22 then 24 else f.network.prefixLen + 2
    else if f.network.prefixLen <= 62 then 64 else f.network.prefixLen + 2
  }

  /** What is wrong with the lengths, if anything. */
  function LengthProblem(w: nat, f: Family): Option<Problem> {
    var longest := if w == 32 then 30 else 126;
    if f.subnetLen > longest then Some(SubnetLenTooBig)
    else if f.subnetLen > 0 && f.subnetLen < f.network.prefixLen + 2 then Some(TooFewSubnets)
    else if f.subnetLen == 0 && f.network.prefixLen + 2 > longest then Some(NetworkTooSmall)
    else None
  }

  function Block(w: nat, bits: nat): nat {
    if bits <= w then Pow2(w - bits) else 0
  }

  /** The address lies in the network. */
  predicate Inside(w: nat, net: Net, x: nat) {
    net.ip <= x < net.ip + Block(w, net.prefixLen)
  }

  /** First and last subnet: as given, else the second and the last one of the network. */
  function MinFor(w: nat, f: Family): nat {
    if f.subnetMin != 0 then f.subnetMin else f.network.ip + Block(w, LengthFor(w, f))
  }

  function MaxFor(w: nat, f: Family): int {
    if f.subnetMax != 0 then f.subnetMax
    else f.network.ip + Block(w, f.network.prefixLen) - Block(w, LengthFor(w, f))
  }

  /** What is wrong with the given ends, if anything: range first, then alignment. */
  function EndProblem(w: nat, f: Family): Option<Problem>
    requires LengthFor(w, f) <= w
  {
    var size := Pow2(w - LengthFor(w, f));
    if f.subnetMin != 0 && !Inside(w, f.network, f.subnetMin) then Some(SubnetMinOutOfRange)
    else if f.subnetMax != 0 && !Inside(w, f.network, f.subnetMax) then Some(SubnetMaxOutOfRange)
    else if f.subnetMin != 0 && f.subnetMin % size != 0 then Some(SubnetMinUnaligned(f.subnetMin))
    else if f.subnetMax != 0 && f.subnetMax % size != 0 then Some(SubnetMaxUnaligned(f.subnetMax))
    else None
  }

  /** The family after the check: nothing is filled in before the length is right, and no end after one out of range. */
  ghost predicate FilledIn(w: nat, f: Family, c: Checked)
    requires LengthFor(w, f) <= w
  {
    var g := c.family;
    && g.network == f.network && g.subnetLen == LengthFor(w, f)
    && g.subnetMin == (if c.problem == Some(SubnetMinOutOfRange) then f.subnetMin else MinFor(w, f))
    && g.subnetMax ==
         (if c.problem == Some(SubnetMinOutOfRange) || c.problem == Some(SubnetMaxOutOfRange) then f.subnetMax
          else MaxFor(w, f))
  }

  lemma LengthDecided(w: nat, f: Family)
    requires w == W4 || w == W6
    ensures CheckedLen(w, f) == match LengthProblem(w, f)
      case Some(e) => Err(e)
      case None => Ok(LengthFor(w, f))
  {
  }

  lemma {:induction false} GridFacts(w: nat, f: Family)
    requires Proper(w, f) && !Empty(f.network) && LengthProblem(w, f) == None
    ensures LengthFor(w, f) <= w
    ensures var f1 := f.(subnetLen := LengthFor(w, f));
      && GetSubnetMin(w, f.network.ip, SubnetSize(w, f1.subnetLen)) == f.network.ip + Block(w, f1.subnetLen)
      && GetSubnetMax(w, Next(w, f.network).ip, SubnetSize(w, f1.subnetLen))
         == f.network.ip + Block(w, f.network.prefixLen) - Block(w, f1.subnetLen)
      && Inside(w, f.network, f.network.ip + Block(w, f1.subnetLen))
      && (f.network.ip + Block(w, f1.subnetLen)) % Pow2(w - f1.subnetLen) == 0
      && (f.network.ip + Block(w, f.network.prefixLen) - Block(w, f1.subnetLen)) % Pow2(w - f1.subnetLen) == 0
      && 0 <= f.network.ip + Block(w, f.network.prefixLen) - Block(w, f1.subnetLen) < Pow2(w)
      && f.network.ip + Block(w, f1.subnetLen) < Pow2(w)
  {
    hide Network, SubnetSize, GetSubnetMin, GetSubnetMax, Next, Pow2;
    NonEmptyHasPrefix(w, f);
    var len := LengthFor(w, f);
    var size, count, first := NetworkInSubnets(w, f.network, len);
    DefaultMin(w, f.network, size, count, first);
    DefaultMax(w, f.network, size, count, first);
    InsideFits(w, size, count, first);
    EndsOf(size, count, first);
    WholeBlock(size, count, first);
    DivModUnique((first + 1) * size, size, first + 1, 0);
    DivModUnique((first + count - 1) * size, size, first + count - 1, 0);
  }

  lemma {:induction false} InsideIsContains(w: nat, f: Family, x: nat)
    requires Proper(w, f) && x < Pow2(w)
    ensures Contains(w, f.network, x) <==> Inside(w, f.network, x)
  {
    hide Contains, Broadcast, Pow2;
    ContainsIsInterval(w, f.network, x);
  }

  /**
    The check decides by numbers: which problem it reports, and what it has filled
    in by then.  Without a problem it succeeds.
   */
  lemma {:induction false} CheckDecides(w: nat, f: Family)
    requires Proper(w, f)
    ensures var c := CheckFamily(w, f);
      if f.network == Net(0, 0) then c == Checked(f, Some(MissingNetwork))
      else match LengthProblem(w, f)
        case Some(e) => c == Checked(f, Some(e))
        case None => LengthFor(w, f) <= w && c.problem == EndProblem(w, f) && FilledIn(w, f, c)
  {
    LengthDecided(w, f);
    EarlyProblem(w, f);
    hide CheckFamily, CheckedLen, Contains, CheckSubnet, MaskValue, SubnetSize, GetSubnetMin, GetSubnetMax, Next,
         Network, Pow2, EndProblem, FilledIn, LengthFor, LengthProblem, MinFor, MaxFor, Inside, Block;
    if f.network != Net(0, 0) && LengthProblem(w, f) == None {
      GridFacts(w, f);
      InsideIsContains(w, f, f.subnetMin);
      InsideIsContains(w, f, f.subnetMax);
      AlignedEnds(w, f);
      EndsDecided(w, f);
    }
  }

  lemma {:induction false} AlignedEnds(w: nat, f: Family)
    requires Proper(w, f) && !Empty(f.network) && LengthProblem(w, f) == None
    ensures LengthFor(w, f) <= w && 0 <= MaxFor(w, f)
    ensures var mask, size := MaskValue(w, LengthFor(w, f)), Pow2(w - LengthFor(w, f));
      && (CheckSubnet(MinFor(w, f), mask) <==> MinFor(w, f) % size == 0)
      && (CheckSubnet(MaxFor(w, f), mask) <==> MaxFor(w, f) % size == 0)
      && (f.subnetMin == 0 ==> MinFor(w, f) % size == 0) && (f.subnetMax == 0 ==> MaxFor(w, f) % size == 0)
  {
    GridFacts(w, f);
    hide LengthFor, LengthProblem, GetSubnetMin, GetSubnetMax, Next, SubnetSize, MaskValue, Inside, Block, Pow2,
         CheckSubnet, Network;
    AlignedIsMultiple(w, LengthFor(w, f), MinFor(w, f));
    AlignedIsMultiple(w, LengthFor(w, f), MaxFor(w, f));
  }

  lemma EarlyProblem(w: nat, f: Family)
    ensures Empty(f.network) ==> CheckFamily(w, f) == Checked(f, Some(MissingNetwork))
    ensures !Empty(f.network) && CheckedLen(w, f).Err? ==> CheckFamily(w, f) == Checked(f, Some(CheckedLen(w, f).error))
  {
    hide CheckedLen;
  }

  lemma {:induction false} EndsDecided(w: nat, f: Family)
    requires Proper(w, f) && !Empty(f.network) && CheckedLen(w, f) == Ok(LengthFor(w, f)) && LengthFor(w, f) <= w
    requires var f1 := f.(subnetLen := LengthFor(w, f));
      && GetSubnetMin(w, f.network.ip, SubnetSize(w, f1.subnetLen)) == f.network.ip + Block(w, f1.subnetLen)
      && GetSubnetMax(w, Next(w, f.network).ip, SubnetSize(w, f1.subnetLen))
         == f.network.ip + Block(w, f.network.prefixLen) - Block(w, f1.subnetLen)
    requires 0 <= MaxFor(w, f)
    requires (Contains(w, f.network, f.subnetMin) <==> Inside(w, f.network, f.subnetMin))
    requires (Contains(w, f.network, f.subnetMax) <==> Inside(w, f.network, f.subnetMax))
    requires var mask, size := MaskValue(w, LengthFor(w, f)), Pow2(w - LengthFor(w, f));
      && (CheckSubnet(MinFor(w, f), mask) <==> MinFor(w, f) % size == 0)
      && (CheckSubnet(MaxFor(w, f), mask) <==> MaxFor(w, f) % size == 0)
      && (f.subnetMin == 0 ==> MinFor(w, f) % size == 0) && (f.subnetMax == 0 ==> MaxFor(w, f) % size == 0)
    ensures var c := CheckFamily(w, f); c.problem == EndProblem(w, f) && FilledIn(w, f, c)
  {
    hide Contains, Inside, CheckSubnet, MaskValue, Pow2, SubnetSize, GetSubnetMin, GetSubnetMax, Next, Network,
         Block, CheckedLen,
         LengthFor;
  }

  /** Which configurations pass, and the length they get. */
  lemma {:induction false} PassesExactly(w: nat, f: Family)
    requires Proper(w, f)
    ensures CheckFamily(w, f).problem == None <==>
      && f.network != Net(0, 0)
      && (if f.subnetLen > 0 then f.network.prefixLen + 2 <= f.subnetLen <= w - 2 else f.network.prefixLen + 4 <= w)
      && var len := LengthFor(w, f);
         && (f.subnetMin != 0 ==> Inside(w, f.network, f.subnetMin) && f.subnetMin % Block(w, len) == 0)
         && (f.subnetMax != 0 ==> Inside(w, f.network, f.subnetMax) && f.subnetMax % Block(w, len) == 0)
    ensures CheckFamily(w, f).problem == None ==> CheckFamily(w, f).family.subnetLen == LengthFor(w, f)
  {
    CheckDecides(w, f);
    hide CheckFamily, Inside, Pow2, Network;
  }
}
