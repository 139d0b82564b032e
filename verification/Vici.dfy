/**
  The strongSwan VICI protocol: nested messages ("Message format" of the VICI
  README), length-prefixed packets ("Packet layer"), and the request loop.
  Names are kept as their bytes.
 */
module Vici {
  import opened Base

  const CMD_REQUEST: byte := 0
  const CMD_RESPONSE: byte := 1
  const CMD_UNKNOWN: byte := 2
  const SECTION_START: byte := 1
  const SECTION_END: byte := 2
  const KEY_VALUE: byte := 3
  const LIST_START: byte := 4
  const LIST_ITEM: byte := 5
  const LIST_END: byte := 6
  const MAX_PACKET_LEN := 65_536

  datatype Segment =
    | Key(name: Bytes, value: Bytes)
    | List(name: Bytes, items: seq<Bytes>)
    | Section(name: Bytes, inner: seq<Segment>)

  datatype Error =
    | TruncatedName
    | TruncatedLength
    | TruncatedValue
    | UnterminatedList
    | InsideList(segment: byte)
    | UnknownSegment(segment: byte)
    | TrailingBytes
    | EmptyPacket
    | OversizedPacket
    | EndOfStream
    | UnknownCommand

  // ----- encoding -----

  function U16(n: nat): Bytes {
    [n / 256 % 256, n % 256]
  }

  function Len16(hi: byte, lo: byte): nat {
    hi as int * 256 + lo as int
  }

  /** The length byte is the length truncated to 8 bits. */
  function EncodeName(name: Bytes): Bytes {
    [|name| % 256] + name
  }

  /** The length word is the length truncated to 16 bits. */
  function EncodeValue(value: Bytes): Bytes {
    U16(|value|) + value
  }

  function EncodeItems(items: seq<Bytes>): Bytes {
    if items == [] then [] else [LIST_ITEM] + EncodeValue(items[0]) + EncodeItems(items[1..])
  }

  function EncodeSegment(s: Segment): Bytes
    decreases s, 1
  {
    match s
    case Key(name, value) => [KEY_VALUE] + EncodeName(name) + EncodeValue(value)
    case List(name, items) => [LIST_START] + EncodeName(name) + EncodeItems(items) + [LIST_END]
    case Section(name, inner) => [SECTION_START] + EncodeName(name) + Encode(inner) + [SECTION_END]
  }

  function Encode(segments: seq<Segment>): Bytes
    decreases segments, 0
  {
    if segments == [] then [] else EncodeSegment(segments[0]) + Encode(segments[1..])
  }

  lemma {:induction false} EncodeConcat(a: seq<Segment>, b: seq<Segment>)
    ensures Encode(a + b) == Encode(a) + Encode(b)
    decreases |a|
  {
    if a == [] {
      assert a + b == b;
    } else {
      assert (a + b)[1..] == a[1..] + b;
      EncodeConcat(a[1..], b);
    }
  }

  lemma {:induction false} EncodeItemsConcat(a: seq<Bytes>, b: seq<Bytes>)
    ensures EncodeItems(a + b) == EncodeItems(a) + EncodeItems(b)
  {
    if a == [] {
      assert a + b == b;
    } else {
      assert (a + b)[1..] == a[1..] + b;
      EncodeItemsConcat(a[1..], b);
    }
  }

  /** The encoder as written: it pushes onto a buffer, segment by segment. */
  method EncodeSegments(segments: seq<Segment>, out: Bytes) returns (out': Bytes)
    ensures out' == out + Encode(segments)
    decreases segments, 0
  {
    out' := out;
    for n := 0 to |segments|
      invariant out' == out + Encode(segments[..n])
    {
      out' := PushSegment(segments[n], out');
      EncodeConcat(segments[..n], [segments[n]]);
      assert segments[..n + 1] == segments[..n] + [segments[n]];
      assert Encode([segments[n]]) == EncodeSegment(segments[n]);
    }
    assert segments[..|segments|] == segments;
  }

  method PushSegment(s: Segment, out: Bytes) returns (out': Bytes)
    ensures out' == out + EncodeSegment(s)
    decreases s, 1
  {
    match s {
      case Key(name, value) =>
        out' := out + [KEY_VALUE];
        out' := out' + EncodeName(name);
        out' := out' + U16(|value|);
        out' := out' + value;
        assert out' == out + ([KEY_VALUE] + EncodeName(name) + (U16(|value|) + value));
      case List(name, items) =>
        out' := out + [LIST_START];
        out' := out' + EncodeName(name);
        out' := PushItems(items, out');
        out' := out' + [LIST_END];
        assert out' == out + ([LIST_START] + EncodeName(name) + EncodeItems(items) + [LIST_END]);
      case Section(name, inner) =>
        out' := out + [SECTION_START];
        out' := out' + EncodeName(name);
        out' := EncodeSegments(inner, out');
        out' := out' + [SECTION_END];
        assert out' == out + ([SECTION_START] + EncodeName(name) + Encode(inner) + [SECTION_END]);
    }
  }

  method PushItems(items: seq<Bytes>, out: Bytes) returns (out': Bytes)
    ensures out' == out + EncodeItems(items)
  {
    out' := out;
    for n := 0 to |items|
      invariant out' == out + EncodeItems(items[..n])
    {
      EncodeItemsConcat(items[..n], [items[n]]);
      assert items[..n + 1] == items[..n] + [items[n]];
      assert EncodeItems([items[n]]) == [LIST_ITEM] + EncodeValue(items[n]);
      out' := out' + [LIST_ITEM];
      out' := out' + U16(|items[n]|);
      out' := out' + items[n];
    }
    assert items[..|items|] == items;
  }

  // ----- parsing -----

  /** What was read, and the input after it. */
  datatype Read<+T> = Read(value: T, rest: Bytes)

  function ReadName(s: Bytes): (r: Result<Read<Bytes>, Error>)
    ensures r.Ok? ==> |r.value.rest| < |s| && |r.value.value| <= 255
  {
    if s == [] then Err(TruncatedName)
    else
      var len: int := s[0];
      if |s| < 1 + len then Err(TruncatedName) else Ok(Read(s[1..1 + len], s[1 + len..]))
  }

  function ReadU16Bytes(s: Bytes): (r: Result<Read<Bytes>, Error>)
    ensures r.Ok? ==> |r.value.rest| < |s| && |r.value.value| <= 65_535
  {
    if |s| < 2 then Err(TruncatedLength)
    else
      var len := Len16(s[0], s[1]);
      if |s| < 2 + len then Err(TruncatedValue) else Ok(Read(s[2..2 + len], s[2 + len..]))
  }

  function ReadItems(s: Bytes): (r: Result<Read<seq<Bytes>>, Error>)
    ensures r.Ok? ==> |r.value.rest| < |s|
    decreases |s|
  {
    if s == [] then Err(UnterminatedList)
    else if s[0] == LIST_ITEM then
      match ReadU16Bytes(s[1..])
      case Err(e) => Err(e)
      case Ok(item) =>
        match ReadItems(item.rest)
        case Err(e) => Err(e)
        case Ok(items) => Ok(Read([item.value] + items.value, items.rest))
    else if s[0] == LIST_END then Ok(Read([], s[1..]))
    else Err(InsideList(s[0]))
  }

  /** One segment, whose type byte is the first of `s` and is not a section end. */
  function ParseSegment(s: Bytes): (r: Result<Read<Segment>, Error>)
    requires s != [] && s[0] != SECTION_END
    ensures r.Ok? ==> |r.value.rest| < |s|
    decreases |s|, 0
  {
    if s[0] == SECTION_START then
      match ReadName(s[1..])
      case Err(e) => Err(e)
      case Ok(name) =>
        match ParseSegments(name.rest)
        case Err(e) => Err(e)
        case Ok(inner) => Ok(Read(Section(name.value, inner.value), inner.rest))
    else if s[0] == KEY_VALUE then
      match ReadName(s[1..])
      case Err(e) => Err(e)
      case Ok(name) =>
        match ReadU16Bytes(name.rest)
        case Err(e) => Err(e)
        case Ok(value) => Ok(Read(Key(name.value, value.value), value.rest))
    else if s[0] == LIST_START then
      match ReadName(s[1..])
      case Err(e) => Err(e)
      case Ok(name) =>
        match ReadItems(name.rest)
        case Err(e) => Err(e)
        case Ok(items) => Ok(Read(List(name.value, items.value), items.rest))
    else Err(UnknownSegment(s[0]))
  }

  function Prepend<T>(before: seq<T>, r: Result<Read<seq<T>>, Error>): Result<Read<seq<T>>, Error> {
    match r
    case Err(e) => Err(e)
    case Ok(p) => Ok(Read(before + p.value, p.rest))
  }

  /** Segments up to a section end or the end of the input. */
  function ParseSegments(s: Bytes): (r: Result<Read<seq<Segment>>, Error>)
    ensures r.Ok? ==> |r.value.rest| <= |s|
    decreases |s|, 1
  {
    if s == [] then Ok(Read([], []))
    else if s[0] == SECTION_END then Ok(Read([], s[1..]))
    else match ParseSegment(s)
      case Err(e) => Err(e)
      case Ok(p) => Prepend([p.value], ParseSegments(p.rest))
  }

  function Parse(s: Bytes): Result<seq<Segment>, Error> {
    match ParseSegments(s)
    case Err(e) => Err(e)
    case Ok(p) => if p.rest != [] then Err(TrailingBytes) else Ok(p.value)
  }

  // The parser as written: it advances an offset.

  method ReadNameAt(bytes: Bytes, off: nat) returns (r: Result<Bytes, Error>, off': nat)
    requires off <= |bytes|
    ensures off <= off' <= |bytes|
    ensures At(ReadName(bytes[off..]), r, bytes, off')
  {
    off' := off;
    if off' == |bytes| {
      return Err(TruncatedName), off';
    }
    var len: int := bytes[off'];
    off' := off' + 1;
    if off' + len > |bytes| {
      return Err(TruncatedName), off';
    }
    r := Ok(bytes[off'..off' + len]);
    off' := off' + len;
    assert bytes[off'..] == bytes[off..][1 + len..];
    assert bytes[off..][1..1 + len] == bytes[off + 1..off + 1 + len];
  }

  method ReadU16BytesAt(bytes: Bytes, off: nat) returns (r: Result<Bytes, Error>, off': nat)
    requires off <= |bytes|
    ensures off <= off' <= |bytes|
    ensures At(ReadU16Bytes(bytes[off..]), r, bytes, off')
  {
    off' := off;
    if off' + 2 > |bytes| {
      return Err(TruncatedLength), off';
    }
    var len := Len16(bytes[off'], bytes[off' + 1]);
    off' := off' + 2;
    if off' + len > |bytes| {
      return Err(TruncatedValue), off';
    }
    r := Ok(bytes[off'..off' + len]);
    off' := off' + len;
    assert bytes[off'..] == bytes[off..][2 + len..];
    assert bytes[off..][2..2 + len] == bytes[off + 2..off + 2 + len];
  }

  /** A read from the offset gives the specified value, and leaves the offset at the specified rest. */
  ghost predicate At<T>(spec: Result<Read<T>, Error>, r: Result<T, Error>, bytes: Bytes, off: nat)
    requires off <= |bytes|
  {
    match spec
    case Err(e) => r == Err(e)
    case Ok(p) => r == Ok(p.value) && bytes[off..] == p.rest
  }

  method ReadItemsAt(bytes: Bytes, off: nat) returns (r: Result<seq<Bytes>, Error>, off': nat)
    requires off <= |bytes|
    ensures off <= off' <= |bytes|
    ensures At(ReadItems(bytes[off..]), r, bytes, off')
  {
    hide ReadU16Bytes;
    var items: seq<Bytes> := [];
    off' := off;
    PrependNothing(ReadItems(bytes[off..]));
    while true
      invariant off <= off' <= |bytes|
      invariant ReadItems(bytes[off..]) == Prepend(items, ReadItems(bytes[off'..]))
      decreases |bytes| - off'
    {
      ghost var s := bytes[off'..];
      if off' >= |bytes| {
        return Err(UnterminatedList), off';
      }
      assert s[1..] == bytes[off' + 1..];
      if bytes[off'] == LIST_ITEM {
        var item;
        item, off' := ReadU16BytesAt(bytes, off' + 1);
        if item.Err? {
          return Err(item.error), off';
        }
        PrependTwice(items, [item.value], ReadItems(bytes[off'..]));
        items := items + [item.value];
      } else if bytes[off'] == LIST_END {
        off' := off' + 1;
        assert items + [] == items;
        return Ok(items), off';
      } else {
        return Err(InsideList(bytes[off'])), off';
      }
    }
  }

  method ParseSegmentsAt(bytes: Bytes, off: nat) returns (r: Result<seq<Segment>, Error>, off': nat)
    requires off <= |bytes|
    ensures off <= off' <= |bytes|
    ensures At(ParseSegments(bytes[off..]), r, bytes, off')
    decreases |bytes| - off
  {
    var out: seq<Segment> := [];
    off' := off;
    PrependNothing(ParseSegments(bytes[off..]));
    while off' < |bytes|
      invariant off <= off' <= |bytes|
      invariant ParseSegments(bytes[off..]) == Prepend(out, ParseSegments(bytes[off'..]))
    {
      ghost var s := bytes[off'..];
      assert s[1..] == bytes[off' + 1..];
      if bytes[off'] == SECTION_END {
        off' := off' + 1;
        assert out + [] == out;
        return Ok(out), off';
      }
      var segment;
      segment, off' := ParseSegmentAt(bytes, off');
      if segment.Err? {
        return Err(segment.error), off';
      }
      PrependTwice(out, [segment.value], ParseSegments(bytes[off'..]));
      out := out + [segment.value];
    }
    assert out + [] == out;
    r := Ok(out);
  }

  method ParseSegmentAt(bytes: Bytes, off: nat) returns (r: Result<Segment, Error>, off': nat)
    requires off < |bytes| && bytes[off] != SECTION_END
    ensures off < off' <= |bytes|
    ensures At(ParseSegment(bytes[off..]), r, bytes, off')
    decreases |bytes| - off, 0
  {
    assert bytes[off..][1..] == bytes[off + 1..];
    if bytes[off] == SECTION_START {
      var name;
      name, off' := ReadNameAt(bytes, off + 1);
      if name.Err? {
        return Err(name.error), off';
      }
      var inner;
      inner, off' := ParseSegmentsAt(bytes, off');
      r := if inner.Err? then Err(inner.error) else Ok(Section(name.value, inner.value));
    } else if bytes[off] == KEY_VALUE {
      var name;
      name, off' := ReadNameAt(bytes, off + 1);
      if name.Err? {
        return Err(name.error), off';
      }
      var value;
      value, off' := ReadU16BytesAt(bytes, off');
      r := if value.Err? then Err(value.error) else Ok(Key(name.value, value.value));
    } else if bytes[off] == LIST_START {
      var name;
      name, off' := ReadNameAt(bytes, off + 1);
      if name.Err? {
        return Err(name.error), off';
      }
      var items;
      items, off' := ReadItemsAt(bytes, off');
      r := if items.Err? then Err(items.error) else Ok(List(name.value, items.value));
    } else {
      r, off' := Err(UnknownSegment(bytes[off])), off + 1;
    }
  }

  method ParseMessage(bytes: Bytes) returns (r: Result<seq<Segment>, Error>)
    ensures r == Parse(bytes)
  {
    var off;
    assert bytes[0..] == bytes;
    r, off := ParseSegmentsAt(bytes, 0);
    if r.Ok? && off != |bytes| {
      r := Err(TrailingBytes);
    }
  }

  lemma PrependNothing<T>(r: Result<Read<seq<T>>, Error>)
    ensures Prepend([], r) == r
  {
    if r.Ok? {
      assert [] + r.value.value == r.value.value;
    }
  }

  lemma PrependTwice<T>(a: seq<T>, b: seq<T>, r: Result<Read<seq<T>>, Error>)
    ensures Prepend(a + b, r) == Prepend(a, Prepend(b, r))
  {
    if r.Ok? {
      assert a + b + r.value.value == a + (b + r.value.value);
    }
  }
}
