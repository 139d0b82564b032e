/**
  The subnet.env file: the text the daemon writes, and its two readers, the CNI
  plugin and the daemon itself after a restart.  IPv6 text is a parameter.
 */
module SubnetEnv {
  import opened Base
  import opened Bits
  import opened IpNet
  import opened Text

  // ----- IPv4 text -----

  function Octet(ip: nat, i: nat): nat
    requires i < 4
  {
    match i
    case 0 => ip / 16_777_216 % 256
    case 1 => ip / 65_536 % 256
    case 2 => ip / 256 % 256
    case 3 => ip % 256
  }

  function ShowIp(ip: nat): string {
    Decimal(Octet(ip, 0)) + ['.'] +
    (Decimal(Octet(ip, 1)) + ['.'] + (Decimal(Octet(ip, 2)) + ['.'] + Decimal(Octet(ip, 3))))
  }

  function ShowNet(n: Net): string {
    ShowIp(n.ip) + ['/'] + Decimal(n.prefixLen)
  }

  function ParseIp(s: string): Option<nat> {
    var parts := SplitOn(s, '.');
    if |parts| != 4 then None
    else
      var a, b, c, d := ParseOctet(parts[0]), ParseOctet(parts[1]), ParseOctet(parts[2]), ParseOctet(parts[3]);
      if a.Some? && b.Some? && c.Some? && d.Some?
      then Some(a.value * 16_777_216 + b.value * 65_536 + c.value * 256 + d.value)
      else None
  }

  /** `a.b.c.d/len`, masked to the network address. */
  function ParseNet(s: string): Option<Net> {
    match SplitOnce(s, '/')
    case None => None
    case Some((addr, prefix)) =>
      match ParseU32(prefix)
      case None => None
      case Some(len) =>
        if len > 32 then None
        else match ParseIp(addr)
          case None => None
          case Some(ip) => Some(Network(W4, Net(ip, len)))
  }

  lemma OctetsCompose(ip: nat)
    requires ip < 0x1_0000_0000
    ensures Octet(ip, 0) * 16_777_216 + Octet(ip, 1) * 65_536 + Octet(ip, 2) * 256 + Octet(ip, 3) == ip
  {
    var q1, q2 := ip / 256, ip / 65_536;
    assert q1 == 256 * q2 + q1 % 256 && q2 == 256 * (ip / 16_777_216) + q2 % 256 && ip == 256 * q1 + ip % 256;
  }

  lemma {:induction false} SplitShownIp(a: string, b: string, c: string, d: string)
    requires '.' !in a && '.' !in b && '.' !in c && '.' !in d
    ensures SplitOn(a + ['.'] + (b + ['.'] + (c + ['.'] + d)), '.') == [a, b, c, d]
  {
    hide SplitOn;
    SplitOnConcat(a, '.', b + ['.'] + (c + ['.'] + d));
    SplitOnConcat(b, '.', c + ['.'] + d);
    SplitOnConcat(c, '.', d);
    SplitOnConcat(d, '.', "");
  }

  lemma IpRoundTrip(ip: nat)
    requires ip < 0x1_0000_0000
    ensures ParseIp(ShowIp(ip)) == Some(ip)
  {
    hide Octet, Decimal, SplitOn, ParseOctet;
    var a, b, c, d := Octet(ip, 0), Octet(ip, 1), Octet(ip, 2), Octet(ip, 3);
    OctetBounds(ip);
    SplitShownIp(Decimal(a), Decimal(b), Decimal(c), Decimal(d));
    ParseOctetOfDecimal(a);
    ParseOctetOfDecimal(b);
    ParseOctetOfDecimal(c);
    ParseOctetOfDecimal(d);
    OctetsCompose(ip);
  }

  lemma OctetBounds(ip: nat)
    ensures Octet(ip, 0) < 256 && Octet(ip, 1) < 256 && Octet(ip, 2) < 256 && Octet(ip, 3) < 256
  {
  }

  /** The text of an address has only digits and dots, that of a network also slashes. */
  lemma ShownChars(n: Net)
    ensures forall c :: c in ShowIp(n.ip) ==> IsDigit(c) || c == '.'
    ensures forall c :: c in ShowNet(n) ==> IsDigit(c) || c == '.' || c == '/'
  {
    hide Octet, Decimal;
  }

  /** Reading back the text of a network gives its masked form. */
  lemma NetRoundTrip(n: Net)
    requires n.ip < 0x1_0000_0000 && n.prefixLen <= 32
    ensures ParseNet(ShowNet(n)) == Some(Network(W4, n))
  {
    hide Network, ParseIp, ParseU32, ShowIp;
    ShownChars(n);
    SplitOnceConcat(ShowIp(n.ip), '/', Decimal(n.prefixLen));
    ParseU32OfDecimal(n.prefixLen);
    IpRoundTrip(n.ip);
  }

  // ----- keys -----

  function NetworkKey(): string {
    "FLANNEL_NETWORK"
  }

  function SubnetKey(): string {
    "FLANNEL_SUBNET"
  }

  function Ipv6NetworkKey(): string {
    "FLANNEL_IPV6_NETWORK"
  }

  function Ipv6SubnetKey(): string {
    "FLANNEL_IPV6_SUBNET"
  }

  function MtuKey(): string {
    "FLANNEL_MTU"
  }

  function IpMasqKey(): string {
    "FLANNEL_IPMASQ"
  }

  // ----- writer -----

  function ShowBool(b: bool): string {
    if b then "true" else "false"
  }

  function IncrementIp(w: nat, n: Net): Net {
    Net(WrappingAdd(w, n.ip, 1), n.prefixLen)
  }

  function Entry(key: string, value: string): string {
    key + ['='] + value
  }

  /** The part of the configuration that the file shows. */
  datatype FileConfig = FileConfig(enableIpv4: bool, enableIpv6: bool, network: Net, ipv6Network: Net)

  datatype Field = Field(key: string, value: string)

  /** The fields of the file; a subnet field holds the first usable address of the lease. */
  function Fields(showV6: Net -> string, config: FileConfig, sn: Net, ipv6Sn: Net, mtu: nat, ipMasq: bool): seq<Field> {
    (if config.enableIpv4 then V4Fields(config.network, sn) else [])
    + ((if config.enableIpv6 then V6Fields(showV6, config.ipv6Network, ipv6Sn) else [])
       + LastFields(mtu, ipMasq))
  }

  function V4Fields(network: Net, sn: Net): seq<Field> {
    [Field(NetworkKey(), ShowNet(network)), Field(SubnetKey(), ShowNet(IncrementIp(W4, sn)))]
  }

  function V6Fields(showV6: Net -> string, network: Net, sn: Net): seq<Field> {
    [Field(Ipv6NetworkKey(), showV6(network)), Field(Ipv6SubnetKey(), showV6(IncrementIp(W6, sn)))]
  }

  function LastFields(mtu: nat, ipMasq: bool): seq<Field> {
    [Field(MtuKey(), Decimal(mtu)), Field(IpMasqKey(), ShowBool(ipMasq))]
  }

  /** One line per field. */
  function FileText(fields: seq<Field>): string {
    if fields == [] then [] else Entry(fields[0].key, fields[0].value) + ['\n'] + FileText(fields[1..])
  }

  lemma {:induction false} TextOfConcat(a: seq<Field>, b: seq<Field>)
    ensures FileText(a + b) == FileText(a) + FileText(b)
  {
    if a == [] {
      assert a + b == b;
    } else {
      assert (a + b)[1..] == a[1..] + b;
      TextOfConcat(a[1..], b);
    }
  }

  lemma {:induction false} TextOfTwo(f: Field, g: Field)
    ensures FileText([f, g]) == f.key + ['='] + f.value + ['\n'] + g.key + ['='] + g.value + ['\n']
  {
    assert [f, g][1..] == [g] && [g][1..] == [];
    assert FileText([g]) == Entry(g.key, g.value) + ['\n'] + [];
  }

  /** The text as it is built up in a buffer. */
  method SubnetFileText(showV6: Net -> string, config: FileConfig, sn: Net, ipv6Sn: Net, mtu: nat, ipMasq: bool)
    returns (b: string)
    ensures b == FileText(Fields(showV6, config, sn, ipv6Sn, mtu, ipMasq))
  {
    hide ShowNet, Decimal, ShowBool, FileText,
         NetworkKey, SubnetKey, Ipv6NetworkKey, Ipv6SubnetKey, MtuKey, IpMasqKey;
    b := "";
    ghost var v4: seq<Field>, v6: seq<Field> := [], [];
    NoText();
    if config.enableIpv4 {
      var first := sn.(ip := WrappingAdd(W4, sn.ip, 1));
      b := b + (NetworkKey() + ['='] + ShowNet(config.network) + ['\n']
                + SubnetKey() + ['='] + ShowNet(first) + ['\n']);
      v4 := V4Fields(config.network, sn);
      TextOfTwo(v4[0], v4[1]);
    }
    assert b == FileText(v4);
    if config.enableIpv6 {
      var first := ipv6Sn.(ip := WrappingAdd(W6, ipv6Sn.ip, 1));
      b := b + (Ipv6NetworkKey() + ['='] + showV6(config.ipv6Network) + ['\n']
                + Ipv6SubnetKey() + ['='] + showV6(first) + ['\n']);
      v6 := V6Fields(showV6, config.ipv6Network, ipv6Sn);
      TextOfTwo(v6[0], v6[1]);
    }
    assert b == FileText(v4) + FileText(v6);
    b := b + (MtuKey() + ['='] + Decimal(mtu) + ['\n'] + IpMasqKey() + ['='] + ShowBool(ipMasq) + ['\n']);
    ghost var last := LastFields(mtu, ipMasq);
    TextOfTwo(last[0], last[1]);
    TextOfConcat(v4, v6 + last);
    TextOfConcat(v6, last);
    assert FileText(v4) + FileText(v6) + FileText(last) == FileText(v4) + (FileText(v6) + FileText(last));
  }

  /** The text of an address and of a network, by its octets. */
  lemma {:induction false} ShownText(ip: nat, a: byte, b: byte, c: byte, d: byte, len: nat)
    requires ip == 16_777_216 * a + 65_536 * b + 256 * c + d
    ensures ShowIp(ip) == Decimal(a) + "." + Decimal(b) + "." + Decimal(c) + "." + Decimal(d)
    ensures ShowNet(Net(ip, len)) == ShowIp(ip) + "/" + Decimal(len)
  {
    hide ShowIp, ShowNet, Decimal, Octet;
    OctetsOf(ip, a, b, c, d);
    ShownOctets(ip, a, b, c, d);
    ShownPrefix(Net(ip, len));
  }

  lemma {:induction false} ShownOctets(ip: nat, a: nat, b: nat, c: nat, d: nat)
    requires Octet(ip, 0) == a && Octet(ip, 1) == b && Octet(ip, 2) == c && Octet(ip, 3) == d
    ensures ShowIp(ip) == Decimal(a) + "." + Decimal(b) + "." + Decimal(c) + "." + Decimal(d)
  {
    hide Decimal, Octet;
    Dotted(Decimal(a), Decimal(b), Decimal(c), Decimal(d));
  }

  lemma ShownPrefix(n: Net)
    ensures ShowNet(n) == ShowIp(n.ip) + "/" + Decimal(n.prefixLen)
  {
    hide Decimal, ShowIp;
    assert ['/'] == "/";
  }

  lemma Dotted(a: string, b: string, c: string, d: string)
    ensures a + ['.'] + (b + ['.'] + (c + ['.'] + d)) == a + "." + b + "." + c + "." + d
  {
    assert ['.'] == ".";
    assert b + "." + (c + "." + d) == b + "." + c + "." + d;
    assert a + "." + (b + "." + c + "." + d) == a + "." + b + "." + c + "." + d;
  }

  lemma OctetsOf(ip: nat, a: byte, b: byte, c: byte, d: byte)
    requires ip == 16_777_216 * a + 65_536 * b + 256 * c + d
    ensures Octet(ip, 0) == a && Octet(ip, 1) == b && Octet(ip, 2) == c && Octet(ip, 3) == d
  {
    assert ip / 256 == 65_536 * a + 256 * b + c;
    assert ip / 65_536 == 256 * a + b;
    assert ip / 16_777_216 == a;
  }

  lemma TwoEntries(f: Field, g: Field, k: string, k': string)
    requires k == f.key + "=" && k' == g.key + "="
    ensures FileText([f, g]) == k + f.value + "\n" + k' + g.value + "\n"
  {
    hide FileText;
    TextOfTwo(f, g);
    assert ['='] == "=" && ['\n'] == "\n";
    var x := k + f.value + "\n";
    assert x + g.key + "=" == x + k';
  }

  lemma V4Text(network: Net, sn: Net)
    ensures FileText(V4Fields(network, sn)) ==
      "FLANNEL_NETWORK=" + ShowNet(network) + "\n"
      + "FLANNEL_SUBNET=" + ShowNet(Net((sn.ip + 1) % Pow2(32), sn.prefixLen)) + "\n"
  {
    hide ShowNet, FileText, Pow2;
    var fs := V4Fields(network, sn);
    TwoEntries(fs[0], fs[1], "FLANNEL_NETWORK=", "FLANNEL_SUBNET=");
  }

  lemma V6Text(showV6: Net -> string, network: Net, sn: Net)
    ensures FileText(V6Fields(showV6, network, sn)) ==
      "FLANNEL_IPV6_NETWORK=" + showV6(network) + "\n"
      + "FLANNEL_IPV6_SUBNET=" + showV6(Net((sn.ip + 1) % Pow2(128), sn.prefixLen)) + "\n"
  {
    hide FileText, Pow2;
    var fs := V6Fields(showV6, network, sn);
    TwoEntries(fs[0], fs[1], "FLANNEL_IPV6_NETWORK=", "FLANNEL_IPV6_SUBNET=");
  }

  lemma {:induction false} LastText(mtu: nat, ipMasq: bool)
    ensures FileText(LastFields(mtu, ipMasq)) ==
      "FLANNEL_MTU=" + Decimal(mtu) + "\n" + "FLANNEL_IPMASQ=" + (if ipMasq then "true" else "false") + "\n"
  {
    hide FileText, Decimal;
    var fs := LastFields(mtu, ipMasq);
    TwoEntries(fs[0], fs[1], "FLANNEL_MTU=", "FLANNEL_IPMASQ=");
  }

  /** The file, line by line. */
  lemma {:induction false} WrittenText(
    showV6: Net -> string, config: FileConfig, sn: Net, ipv6Sn: Net, mtu: nat, ipMasq: bool)
    ensures FileText(Fields(showV6, config, sn, ipv6Sn, mtu, ipMasq)) ==
      (if config.enableIpv4 then
         "FLANNEL_NETWORK=" + ShowNet(config.network) + "\n"
         + "FLANNEL_SUBNET=" + ShowNet(Net((sn.ip + 1) % Pow2(32), sn.prefixLen)) + "\n"
       else [])
      + ((if config.enableIpv6 then
            "FLANNEL_IPV6_NETWORK=" + showV6(config.ipv6Network) + "\n"
            + "FLANNEL_IPV6_SUBNET=" + showV6(Net((ipv6Sn.ip + 1) % Pow2(128), ipv6Sn.prefixLen)) + "\n"
          else [])
         + ("FLANNEL_MTU=" + Decimal(mtu) + "\n" + "FLANNEL_IPMASQ=" + (if ipMasq then "true" else "false") + "\n"))
  {
    hide ShowNet, Decimal, FileText, Pow2, V4Fields, V6Fields, LastFields;
    NoText();
    V4Text(config.network, sn);
    V6Text(showV6, config.ipv6Network, ipv6Sn);
    LastText(mtu, ipMasq);
    var v4 := if config.enableIpv4 then V4Fields(config.network, sn) else [];
    var v6 := if config.enableIpv6 then V6Fields(showV6, config.ipv6Network, ipv6Sn) else [];
    TextOfConcat(v4, v6 + LastFields(mtu, ipMasq));
    TextOfConcat(v6, LastFields(mtu, ipMasq));
  }

  lemma NoText()
    ensures FileText([]) == []
  {
  }

  // ----- reader of the CNI plugin -----

  datatype Env = Env(
    network: Option<Net>,
    subnet: Option<Net>,
    ipv6Network: Option<Net>,
    ipv6Subnet: Option<Net>,
    mtu: Option<nat>,
    ipMasq: bool)

  datatype EnvError = Invalid(key: string, value: string)

  function Lower(c: char): char {
    if 'A' <= c <= 'Z' then c - 'A' + 'a' else c
  }

  function LowerAll(s: string): string {
    seq(|s|, i requires 0 <= i < |s| => Lower(s[i]))
  }

  function ParseBool(s: string): Option<bool> {
    var l := LowerAll(s);
    if l == "true" then Some(true) else if l == "false" then Some(false) else None
  }

  /** Stores one field; unknown keys are ignored.  The decoder of IPv6 networks is a parameter. */
  function SetField(parseV6: string -> Option<Net>, env: Env, key: string, val: string): Result<Env, EnvError> {
    if key == NetworkKey() then
      var n := ParseNet(val);
      if n.Some? then Ok(env.(network := n)) else Err(Invalid(key, val))
    else if key == SubnetKey() then
      var n := ParseNet(val);
      if n.Some? then Ok(env.(subnet := n)) else Err(Invalid(key, val))
    else if key == Ipv6NetworkKey() then
      var n := parseV6(val);
      if n.Some? then Ok(env.(ipv6Network := n)) else Err(Invalid(key, val))
    else if key == Ipv6SubnetKey() then
      var n := parseV6(val);
      if n.Some? then Ok(env.(ipv6Subnet := n)) else Err(Invalid(key, val))
    else if key == MtuKey() then
      var m := ParseU32(val);
      if m.Some? then Ok(env.(mtu := m)) else Err(Invalid(key, val))
    else if key == IpMasqKey() then
      var b := ParseBool(val);
      if b.Some? then Ok(env.(ipMasq := b.value)) else Err(Invalid(key, val))
    else Ok(env)
  }

  /** One line of the file. */
  function EnvLine(parseV6: string -> Option<Net>, env: Env, rawLine: string): Result<Env, EnvError> {
    var line := Trim(rawLine);
    if line == [] then Ok(env)
    else match SplitOnce(line, '=')
      case None => Ok(env)
      case Some((k, v)) => SetField(parseV6, env, Trim(k), Trim(v))
  }

  function EnvLines(parseV6: string -> Option<Net>, env: Env, lines: seq<string>): Result<Env, EnvError>
    decreases |lines|
  {
    if lines == [] then Ok(env)
    else match EnvLine(parseV6, env, lines[0])
      case Err(e) => Err(e)
      case Ok(env') => EnvLines(parseV6, env', lines[1..])
  }

  const EMPTY_ENV := Env(None, None, None, None, None, false)

  method ParseSubnetEnv(parseV6: string -> Option<Net>, contents: string) returns (r: Result<Env, EnvError>)
    ensures r == EnvLines(parseV6, EMPTY_ENV, Lines(contents))
  {
    hide EnvLine;
    var env := EMPTY_ENV;
    var lines := Lines(contents);
    for n := 0 to |lines|
      invariant EnvLines(parseV6, env, lines[n..]) == EnvLines(parseV6, EMPTY_ENV, lines)
    {
      assert lines[n..][1..] == lines[n + 1..];
      var next := EnvLine(parseV6, env, lines[n]);
      if next.Err? {
        return Err(next.error);
      }
      env := next.value;
    }
    r := Ok(env);
  }

  // ----- reader of the daemon -----

  function ValuesLine(values: map<string, string>, rawLine: string): map<string, string> {
    var line := Trim(rawLine);
    if line == [] || line[0] == '#' then values
    else match SplitOnce(line, '=')
      case None => values
      case Some((k, v)) => if Trim(k) == [] then values else values[Trim(k) := Trim(v)]
  }

  function ValuesLines(values: map<string, string>, lines: seq<string>): map<string, string>
    decreases |lines|
  {
    if lines == [] then values else ValuesLines(ValuesLine(values, lines[0]), lines[1..])
  }

  method ReadEnv(content: string) returns (values: map<string, string>)
    ensures values == ValuesLines(map[], Lines(content))
  {
    hide ValuesLine;
    values := map[];
    var lines := Lines(content);
    for n := 0 to |lines|
      invariant ValuesLines(values, lines[n..]) == ValuesLines(map[], lines)
    {
      assert lines[n..][1..] == lines[n + 1..];
      values := ValuesLine(values, lines[n]);
    }
  }

  /** The networks among the comma-separated parts; parts that do not parse are skipped. */
  function Cidrs(parts: seq<string>): seq<Net> {
    if parts == [] then []
    else match ParseNet(parts[0])
      case Some(n) => [n] + Cidrs(parts[1..])
      case None => Cidrs(parts[1..])
  }

  function CidrsFromFile(content: string, key: string): seq<Net> {
    var values := ValuesLines(map[], Lines(content));
    if key in values then Cidrs(SplitOn(values[key], ',')) else []
  }

  method ReadCidrsFromSubnetFile(content: string, key: string) returns (cidrs: seq<Net>)
    ensures cidrs == CidrsFromFile(content, key)
  {
    hide ParseNet, SplitOn;
    var values := ReadEnv(content);
    if key !in values {
      return [];
    }
    cidrs := [];
    var parts := SplitOn(values[key], ',');
    for n := 0 to |parts|
      invariant cidrs + Cidrs(parts[n..]) == Cidrs(parts)
    {
      assert parts[n..][1..] == parts[n + 1..];
      var net := ParseNet(parts[n]);
      if net.Some? {
        assert cidrs + ([net.value] + Cidrs(parts[n + 1..])) == cidrs + [net.value] + Cidrs(parts[n + 1..]);
        cidrs := cidrs + [net.value];
      }
    }
    assert cidrs + [] == cidrs;
  }

  /** The one network stored under the key; the zero network when there is none or more than one. */
  function CidrFromFile(content: string, key: string): Net {
    var cidrs := CidrsFromFile(content, key);
    if |cidrs| == 1 then cidrs[0] else Net(0, 0)
  }

  // ----- round trip -----

  /** A field that both readers take as it is: no space, no equals sign in the key, not a comment. */
  predicate Plain(f: Field) {
    PlainKey(f.key) && Solid(f.value)
  }

  predicate PlainKey(key: string) {
    Solid(key) && '=' !in key && key != [] && key[0] != '#'
  }

  predicate AllPlain(fields: seq<Field>) {
    forall f :: f in fields ==> Plain(f)
  }

  lemma EntryIsSolid(key: string, value: string)
    requires Solid(key) && Solid(value)
    ensures Solid(Entry(key, value))
  {
  }

  /** A solid entry with a key free of `=` is read back as its key and value. */
  lemma EntrySplits(key: string, value: string)
    requires Solid(key) && Solid(value) && '=' !in key
    ensures Trim(Entry(key, value)) == Entry(key, value) && Trim(key) == key && Trim(value) == value
    ensures Entry(key, value) != [] && SplitOnce(Entry(key, value), '=') == Some((key, value))
    ensures key != [] ==> Entry(key, value)[0] == key[0]
  {
    EntryIsSolid(key, value);
    TrimSolid(Entry(key, value));
    TrimSolid(key);
    TrimSolid(value);
    SplitOnceConcat(key, '=', value);
  }

  /** The CNI reader, field by field. */
  function SetFields(parseV6: string -> Option<Net>, env: Env, fields: seq<Field>): Result<Env, EnvError>
    decreases |fields|
  {
    if fields == [] then Ok(env)
    else match SetField(parseV6, env, fields[0].key, fields[0].value)
      case Err(e) => Err(e)
      case Ok(env') => SetFields(parseV6, env', fields[1..])
  }

  lemma {:induction false} EnvOfFile(parseV6: string -> Option<Net>, env: Env, fields: seq<Field>)
    requires AllPlain(fields)
    ensures EnvLines(parseV6, env, Lines(FileText(fields))) == SetFields(parseV6, env, fields)
    decreases |fields|
  {
    hide SetField, Entry, Lines, Plain, Solid, EnvLine;
    if fields == [] {
      NoLines();
    } else {
      var f, rest := fields[0], fields[1..];
      assert f in fields && AllPlain(rest);
      PlainLine(f, FileText(rest));
      EnvOfField(parseV6, env, f);
      var e, lines := Entry(f.key, f.value), Lines(FileText(rest));
      assert ([e] + lines)[0] == e && ([e] + lines)[1..] == lines;
      match SetField(parseV6, env, f.key, f.value) {
        case Err(_) =>
        case Ok(env') => EnvOfFile(parseV6, env', rest);
      }
    }
  }

  lemma EnvOfField(parseV6: string -> Option<Net>, env: Env, f: Field)
    requires Plain(f)
    ensures EnvLine(parseV6, env, Entry(f.key, f.value)) == SetField(parseV6, env, f.key, f.value)
  {
    hide SetField, Entry, Trim, SplitOnce, Solid;
    EntrySplits(f.key, f.value);
  }

  /** The daemon's reader, field by field. */
  function PutFields(values: map<string, string>, fields: seq<Field>): map<string, string>
    decreases |fields|
  {
    if fields == [] then values else PutFields(values[fields[0].key := fields[0].value], fields[1..])
  }

  lemma {:induction false} ValuesOfFile(values: map<string, string>, fields: seq<Field>)
    requires AllPlain(fields)
    ensures ValuesLines(values, Lines(FileText(fields))) == PutFields(values, fields)
    decreases |fields|
  {
    hide Entry, Lines, Solid, ValuesLine, Plain;
    if fields == [] {
      NoLines();
    } else {
      var f, rest := fields[0], fields[1..];
      assert f in fields && AllPlain(rest);
      PlainLine(f, FileText(rest));
      ValuesOfField(values, f);
      var e, lines := Entry(f.key, f.value), Lines(FileText(rest));
      assert ([e] + lines)[0] == e && ([e] + lines)[1..] == lines;
      ValuesOfFile(values[f.key := f.value], rest);
    }
  }

  lemma {:induction false} NoLines()
    ensures Lines([]) == []
  {
  }

  lemma {:induction false} PlainLine(f: Field, text: string)
    requires Plain(f)
    ensures Lines(Entry(f.key, f.value) + ['\n'] + text) == [Entry(f.key, f.value)] + Lines(text)
  {
    hide Lines, Entry;
    EntryIsSolid(f.key, f.value);
    FirstLine(Entry(f.key, f.value), text);
  }

  lemma ValuesOfField(values: map<string, string>, f: Field)
    requires Plain(f)
    ensures ValuesLine(values, Entry(f.key, f.value)) == values[f.key := f.value]
  {
    hide Entry, Trim, SplitOnce, Solid;
    EntrySplits(f.key, f.value);
  }

  lemma {:induction false} SetConcat(parseV6: string -> Option<Net>, env: Env, a: seq<Field>, b: seq<Field>)
    requires SetFields(parseV6, env, a).Ok?
    ensures SetFields(parseV6, env, a + b) == SetFields(parseV6, SetFields(parseV6, env, a).value, b)
    decreases |a|
  {
    hide SetField;
    if a == [] {
      assert a + b == b;
    } else {
      assert (a + b)[1..] == a[1..] + b && (a + b)[0] == a[0];
      SetConcat(parseV6, SetField(parseV6, env, a[0].key, a[0].value).value, a[1..], b);
    }
  }

  lemma {:induction false} SetTwo(parseV6: string -> Option<Net>, env: Env, f: Field, g: Field)
    requires SetField(parseV6, env, f.key, f.value).Ok?
    ensures SetFields(parseV6, env, [f, g]) ==
      SetField(parseV6, SetField(parseV6, env, f.key, f.value).value, g.key, g.value)
  {
    hide SetField;
    assert [f, g][1..] == [g] && [g][1..] == [];
    var env' := SetField(parseV6, env, f.key, f.value).value;
    assert SetFields(parseV6, env', [g]) == SetField(parseV6, env', g.key, g.value);
  }

  lemma {:induction false} ValuesAreSolid(n: Net, m: nat, b: bool)
    ensures Solid(ShowNet(n)) && Solid(Decimal(m)) && Solid(ShowBool(b))
  {
    hide ShowNet;
    ShownChars(n);
  }

  lemma KeysDiffer()
    ensures NetworkKey() != SubnetKey() && NetworkKey() != Ipv6NetworkKey() && NetworkKey() != Ipv6SubnetKey()
    ensures NetworkKey() != MtuKey() && NetworkKey() != IpMasqKey()
    ensures SubnetKey() != Ipv6NetworkKey() && SubnetKey() != Ipv6SubnetKey() && SubnetKey() != MtuKey()
    ensures SubnetKey() != IpMasqKey() && Ipv6NetworkKey() != Ipv6SubnetKey() && Ipv6NetworkKey() != MtuKey()
    ensures Ipv6NetworkKey() != IpMasqKey() && Ipv6SubnetKey() != MtuKey() && Ipv6SubnetKey() != IpMasqKey()
    ensures MtuKey() != IpMasqKey()
  {
    assert |NetworkKey()| == 15 && |SubnetKey()| == 14 && |Ipv6NetworkKey()| == 20 && |Ipv6SubnetKey()| == 19;
    assert |MtuKey()| == 11 && |IpMasqKey()| == 14 && SubnetKey()[8] == 'S' && IpMasqKey()[8] == 'I';
  }

  lemma KeysArePlain()
    ensures PlainKey(NetworkKey()) && PlainKey(SubnetKey()) && PlainKey(Ipv6NetworkKey()) && PlainKey(Ipv6SubnetKey())
    ensures PlainKey(MtuKey()) && PlainKey(IpMasqKey())
  {
  }

  lemma BoolRoundTrip(b: bool)
    ensures ParseBool(ShowBool(b)) == Some(b)
  {
    assert LowerAll("true") == "true" && LowerAll("false") == "false";
  }

  /** Clearing the host bits of the first usable address gives the lease subnet back, unless it is a single address. */
  lemma {:induction false} FirstAddressMasksBack(w: nat, subnet: Net)
    requires w > 0 && Fits(w, subnet) && Network(w, subnet) == subnet
    ensures Fits(w, IncrementIp(w, subnet)) && IncrementIp(w, subnet).prefixLen == subnet.prefixLen
    ensures Network(w, IncrementIp(w, subnet)) == subnet <==> subnet.prefixLen < w
  {
    var p, ip, next := subnet.prefixLen, subnet.ip, IncrementIp(w, subnet).ip;
    MaskedIsBlockStart(w, p, ip);
    MaskedIsBlockStart(w, p, next);
    BlockFits(w, p, ip);
    BlockIsOne(w, p);
    BlockIsOne(w, 0);
    hide And, MaskValue, Pow2;
    IncrementInBlock(Pow2(w), BlockSize(w, p), ip, next);
  }

  /** The lease of a single address: its first usable address is another one. */
  lemma {:induction false} SingleAddressLost(w: nat, ip: nat)
    requires w > 0 && ip < Pow2(w)
    ensures var sn := Net(ip, w); Network(w, sn) == sn && Network(w, IncrementIp(w, sn)) != sn
  {
    MaskedIsBlockStart(w, w, ip);
    BlockIsOne(w, w);
    hide And, MaskValue, Pow2;
    assert ip % 1 == 0;
    FirstAddressMasksBack(w, Net(ip, w));
  }

  lemma {:induction false} BlockIsOne(w: nat, p: nat)
    requires p <= w
    ensures BlockSize(w, p) == 1 <==> p == w
  {
    if p < w {
      Pow2Monotonic(0, w - p);
    }
  }

  lemma IncrementInBlock(m: int, size: int, ip: nat, next: nat)
    requires 0 < size && ip - ip % size == ip && ip + size <= m && 1 < m && next == (ip + 1) % m
    ensures next - next % size == ip <==> size != 1
  {
    if size == 1 {
      assert next % size == 0;
      if ip + 1 < m {
        DivModUnique(ip + 1, m, 0, ip + 1);
      } else {
        DivModUnique(ip + 1, m, 1, 0);
      }
    } else {
      DivModUnique(ip + 1, m, 0, ip + 1);
      BlockStartUnique(size, ip, next);
    }
  }

  /** A masked IPv4 or IPv6 network. */
  predicate Masked(w: nat, n: Net) {
    Fits(w, n) && Network(w, n) == n
  }

  /** IPv6 networks have a text without spaces that reads back masked. */
  ghost predicate TextV6(showV6: Net -> string, parseV6: string -> Option<Net>) {
    forall n :: Fits(W6, n) ==> Solid(showV6(n)) && parseV6(showV6(n)) == Some(Network(W6, n))
  }

  ghost predicate GoodFile(
    showV6: Net -> string, parseV6: string -> Option<Net>, config: FileConfig, sn: Net, ipv6Sn: Net) {
    && (config.enableIpv4 ==> Masked(W4, config.network) && Masked(W4, sn))
    && (config.enableIpv6 ==> TextV6(showV6, parseV6) && Masked(W6, config.ipv6Network) && Masked(W6, ipv6Sn))
  }

  lemma {:induction false} V4Set(parseV6: string -> Option<Net>, env: Env, network: Net, sn: Net)
    requires Masked(W4, network) && Masked(W4, sn)
    ensures AllPlain(V4Fields(network, sn))
    ensures SetFields(parseV6, env, V4Fields(network, sn)) ==
      Ok(env.(network := Some(network), subnet := Some(Network(W4, IncrementIp(W4, sn)))))
  {
    hide ShowNet, ParseNet, Network, IncrementIp, Pow2, PlainKey, SetFields, Solid,
         NetworkKey, SubnetKey, Ipv6NetworkKey, Ipv6SubnetKey, MtuKey, IpMasqKey;
    var first := IncrementIp(W4, sn);
    FirstAddressMasksBack(W4, sn);
    Pow2Values();
    NetRoundTrip(network);
    NetRoundTrip(first);
    ValuesAreSolid(network, 0, true);
    ValuesAreSolid(first, 0, true);
    KeysDiffer();
    KeysArePlain();
    SetTwo(parseV6, env, V4Fields(network, sn)[0], V4Fields(network, sn)[1]);
  }

  lemma {:induction false} V6Set(showV6: Net -> string, parseV6: string -> Option<Net>, env: Env, network: Net, sn: Net)
    requires TextV6(showV6, parseV6) && Masked(W6, network) && Masked(W6, sn)
    ensures AllPlain(V6Fields(showV6, network, sn))
    ensures SetFields(parseV6, env, V6Fields(showV6, network, sn)) ==
      Ok(env.(ipv6Network := Some(network), ipv6Subnet := Some(Network(W6, IncrementIp(W6, sn)))))
  {
    FirstAddressMasksBack(W6, sn);
    KeysDiffer();
    KeysArePlain();
    hide Network, IncrementIp, Pow2, PlainKey, SetFields,
         NetworkKey, SubnetKey, Ipv6NetworkKey, Ipv6SubnetKey, MtuKey, IpMasqKey;
    SetTwo(parseV6, env, V6Fields(showV6, network, sn)[0], V6Fields(showV6, network, sn)[1]);
  }

  lemma {:induction false} LastSet(parseV6: string -> Option<Net>, env: Env, mtu: nat, ipMasq: bool)
    ensures AllPlain(LastFields(mtu, ipMasq))
    ensures mtu <= 0xFFFF_FFFF ==>
      SetFields(parseV6, env, LastFields(mtu, ipMasq)) == Ok(env.(mtu := Some(mtu), ipMasq := ipMasq))
  {
    ValuesAreSolid(Net(0, 0), mtu, ipMasq);
    BoolRoundTrip(ipMasq);
    KeysDiffer();
    KeysArePlain();
    hide Decimal, ShowBool, ParseU32, ParseBool, PlainKey, SetFields,
         NetworkKey, SubnetKey, Ipv6NetworkKey, Ipv6SubnetKey, MtuKey, IpMasqKey;
    if mtu <= 0xFFFF_FFFF {
      ParseU32OfDecimal(mtu);
      SetTwo(parseV6, env, LastFields(mtu, ipMasq)[0], LastFields(mtu, ipMasq)[1]);
    }
  }

  lemma PlainConcat(a: seq<Field>, b: seq<Field>)
    requires AllPlain(a) && AllPlain(b)
    ensures AllPlain(a + b)
  {
  }

  lemma FieldsPlain(
    showV6: Net -> string, parseV6: string -> Option<Net>, config: FileConfig, sn: Net, ipv6Sn: Net, mtu: nat,
    ipMasq: bool)
    requires GoodFile(showV6, parseV6, config, sn, ipv6Sn)
    ensures AllPlain(Fields(showV6, config, sn, ipv6Sn, mtu, ipMasq))
  {
    hide AllPlain, V4Fields, V6Fields, LastFields, SetFields, TextV6, Masked;
    NonePlain();
    LastSet(parseV6, EMPTY_ENV, mtu, ipMasq);
    var v6 := if config.enableIpv6 then V6Fields(showV6, config.ipv6Network, ipv6Sn) else [];
    var v4 := if config.enableIpv4 then V4Fields(config.network, sn) else [];
    if config.enableIpv6 {
      V6Set(showV6, parseV6, EMPTY_ENV, config.ipv6Network, ipv6Sn);
    }
    if config.enableIpv4 {
      V4Set(parseV6, EMPTY_ENV, config.network, sn);
    }
    PlainConcat(v6, LastFields(mtu, ipMasq));
    PlainConcat(v4, v6 + LastFields(mtu, ipMasq));
  }

  lemma NonePlain()
    ensures AllPlain([])
  {
  }

  /** What the CNI plugin finds in the file of a configuration. */
  function ReadBack(config: FileConfig, sn: Net, ipv6Sn: Net, mtu: nat, ipMasq: bool): Env {
    Env(
      if config.enableIpv4 then Some(config.network) else None,
      if config.enableIpv4 then Some(Network(W4, IncrementIp(W4, sn))) else None,
      if config.enableIpv6 then Some(config.ipv6Network) else None,
      if config.enableIpv6 then Some(Network(W6, IncrementIp(W6, ipv6Sn))) else None,
      Some(mtu), ipMasq)
  }

  /**
    What the CNI plugin reads from the file: of each enabled family the network and
    the lease subnet, the MTU and the flag, and nothing of a disabled family.  A
    subnet is the one that was written exactly when it is not a single address.
   */
  lemma CniRoundTrip(
    showV6: Net -> string, parseV6: string -> Option<Net>, config: FileConfig, sn: Net, ipv6Sn: Net, mtu: nat,
    ipMasq: bool)
    requires GoodFile(showV6, parseV6, config, sn, ipv6Sn) && mtu <= 0xFFFF_FFFF
    ensures var text := FileText(Fields(showV6, config, sn, ipv6Sn, mtu, ipMasq));
      EnvLines(parseV6, EMPTY_ENV, Lines(text)) == Ok(ReadBack(config, sn, ipv6Sn, mtu, ipMasq))
    ensures var env := ReadBack(config, sn, ipv6Sn, mtu, ipMasq);
      && (config.enableIpv4 ==> (env.subnet == Some(sn) <==> sn.prefixLen <= 31))
      && (config.enableIpv6 ==> (env.ipv6Subnet == Some(ipv6Sn) <==> ipv6Sn.prefixLen <= 127))
  {
    hide V4Fields, V6Fields, LastFields, SetFields, TextV6, FileText, Lines, EnvLines, Network, IncrementIp,
         AllPlain, Pow2;
    FieldsPlain(showV6, parseV6, config, sn, ipv6Sn, mtu, ipMasq);
    EnvOfFile(parseV6, EMPTY_ENV, Fields(showV6, config, sn, ipv6Sn, mtu, ipMasq));
    var last := LastFields(mtu, ipMasq);
    var env4, env6 := EMPTY_ENV, EMPTY_ENV;
    assert [] + last == last;
    if config.enableIpv4 {
      V4Set(parseV6, EMPTY_ENV, config.network, sn);
      env4 := SetFields(parseV6, EMPTY_ENV, V4Fields(config.network, sn)).value;
      FirstAddressMasksBack(W4, sn);
    }
    env6 := env4;
    var tail := last;
    if config.enableIpv6 {
      V6Set(showV6, parseV6, env4, config.ipv6Network, ipv6Sn);
      env6 := SetFields(parseV6, env4, V6Fields(showV6, config.ipv6Network, ipv6Sn)).value;
      SetConcat(parseV6, env4, V6Fields(showV6, config.ipv6Network, ipv6Sn), last);
      tail := V6Fields(showV6, config.ipv6Network, ipv6Sn) + last;
      FirstAddressMasksBack(W6, ipv6Sn);
    }
    LastSet(parseV6, env6, mtu, ipMasq);
    if config.enableIpv4 {
      SetConcat(parseV6, EMPTY_ENV, V4Fields(config.network, sn), tail);
    } else {
      assert [] + tail == tail;
    }
  }

  // ----- round trip through the daemon -----

  lemma {:induction false} PutOthers(values: map<string, string>, fields: seq<Field>, key: string)
    requires forall f :: f in fields ==> f.key != key
    ensures key in PutFields(values, fields) <==> key in values
    ensures key in values ==> PutFields(values, fields)[key] == values[key]
    decreases |fields|
  {
    if fields == [] {
    } else {
      assert fields[0] in fields;
      PutOthers(values[fields[0].key := fields[0].value], fields[1..], key);
    }
  }

  lemma {:induction false} PutFirstTwo(f: Field, g: Field, tail: seq<Field>)
    requires f.key != g.key && forall h :: h in tail ==> h.key != f.key && h.key != g.key
    ensures var values := PutFields(map[], [f, g] + tail);
      f.key in values && values[f.key] == f.value && g.key in values && values[g.key] == g.value
  {
    var all := [f, g] + tail;
    assert all[0] == f && all[1..][0] == g && all[1..][1..] == tail;
    var v: map<string, string> := map[f.key := f.value];
    assert PutFields(map[], all) == PutFields(v[g.key := g.value], tail);
    PutOthers(v[g.key := g.value], tail, f.key);
    PutOthers(v[g.key := g.value], tail, g.key);
  }

  lemma SingleCidr(n: Net)
    requires n.ip < 0x1_0000_0000 && n.prefixLen <= 32
    ensures Cidrs(SplitOn(ShowNet(n), ',')) == [Network(W4, n)]
  {
    hide Network, ShowNet, ParseNet, SplitOn;
    ShownChars(n);
    SplitOnConcat(ShowNet(n), ',', "");
    NetRoundTrip(n);
    var parts := [ShowNet(n)];
    assert parts[1..] == [];
  }

  lemma TailKeys(showV6: Net -> string, config: FileConfig, ipv6Sn: Net, mtu: nat, ipMasq: bool)
    ensures var v6 := if config.enableIpv6 then V6Fields(showV6, config.ipv6Network, ipv6Sn) else [];
      forall f :: f in v6 + LastFields(mtu, ipMasq) ==> f.key != NetworkKey() && f.key != SubnetKey()
  {
    KeysDiffer();
    hide Decimal, ShowBool, IncrementIp,
         NetworkKey, SubnetKey, Ipv6NetworkKey, Ipv6SubnetKey, MtuKey, IpMasqKey;
  }

  /**
    What the daemon reads back after a restart: the IPv4 network, and the lease
    subnet unless it is a single address; the zero network if IPv4 is disabled.
   */
  lemma DaemonRoundTrip(
    showV6: Net -> string, parseV6: string -> Option<Net>, config: FileConfig, sn: Net, ipv6Sn: Net, mtu: nat,
    ipMasq: bool)
    requires GoodFile(showV6, parseV6, config, sn, ipv6Sn)
    ensures var text := FileText(Fields(showV6, config, sn, ipv6Sn, mtu, ipMasq));
      var network, subnet := CidrFromFile(text, NetworkKey()), CidrFromFile(text, SubnetKey());
      if config.enableIpv4 then network == config.network && (subnet == sn <==> sn.prefixLen <= 31)
      else network == subnet == Net(0, 0)
  {
    var fields := Fields(showV6, config, sn, ipv6Sn, mtu, ipMasq);
    FieldsPlain(showV6, parseV6, config, sn, ipv6Sn, mtu, ipMasq);
    ValuesOfFile(map[], fields);
    TailKeys(showV6, config, ipv6Sn, mtu, ipMasq);
    hide V6Fields, LastFields, FileText, Lines, ValuesLines, Network, IncrementIp, AllPlain, Pow2, ShowNet, Cidrs,
         SplitOn,
         PutFields, TextV6,
         NetworkKey, SubnetKey, Ipv6NetworkKey, Ipv6SubnetKey, MtuKey, IpMasqKey;
    var v6 := if config.enableIpv6 then V6Fields(showV6, config.ipv6Network, ipv6Sn) else [];
    var tail := v6 + LastFields(mtu, ipMasq);
    if config.enableIpv4 {
      var v4 := V4Fields(config.network, sn);
      KeysDiffer();
      PutFirstTwo(v4[0], v4[1], tail);
      assert fields == [v4[0], v4[1]] + tail;
      CidrsOfMasked(config.network, sn);
    } else {
      assert fields == tail;
      PutOthers(map[], tail, NetworkKey());
      PutOthers(map[], tail, SubnetKey());
    }
  }

  lemma CidrsOfMasked(network: Net, sn: Net)
    requires Masked(W4, network) && Masked(W4, sn)
    ensures Cidrs(SplitOn(ShowNet(network), ',')) == [network]
    ensures Cidrs(SplitOn(ShowNet(IncrementIp(W4, sn)), ',')) == [Network(W4, IncrementIp(W4, sn))]
    ensures Network(W4, IncrementIp(W4, sn)) == sn <==> sn.prefixLen <= 31
  {
    FirstAddressMasksBack(W4, sn);
    Pow2Values();
    hide Network, IncrementIp, ShowNet, Cidrs, SplitOn, Pow2;
    SingleCidr(network);
    SingleCidr(IncrementIp(W4, sn));
  }
}
