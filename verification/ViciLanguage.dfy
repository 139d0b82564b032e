/**
  The exact language of the VICI parser, and what the packet layer and the
  request loop deliver.
 */
module ViciLanguage {
  import opened Base
  import opened Vici

  // ----- sizes that the length fields can carry -----

  predicate WellSizedItems(items: seq<Bytes>) {
    items == [] || (|items[0]| <= 65_535 && WellSizedItems(items[1..]))
  }

  predicate WellSizedSegment(s: Segment)
    decreases s, 1
  {
    |s.name| <= 255 &&
    match s
    case Key(_, value) => |value| <= 65_535
    case List(_, items) => WellSizedItems(items)
    case Section(_, inner) => WellSized(inner)
  }

  predicate WellSized(m: seq<Segment>)
    decreases m, 0
  {
    m == [] || (WellSizedSegment(m[0]) && WellSized(m[1..]))
  }

  /** How many sections are open just before the last section end of the encoding. */
  function TailDepth(m: seq<Segment>): nat
    decreases m
  {
    if m == [] then 0
    else if |m| == 1 then (if m[0].Section? then 1 + TailDepth(m[0].inner) else 0)
    else TailDepth(m[1..])
  }

  /** `k` section-end bytes. */
  function Ends(k: nat): (r: Bytes)
    ensures |r| == k && forall i :: 0 <= i < k ==> r[i] == SECTION_END
  {
    if k == 0 then [] else [SECTION_END] + Ends(k - 1)
  }

  lemma EndsAppend(k: nat)
    ensures Ends(k) + [SECTION_END] == Ends(k + 1)
  {
  }

  // ----- reading back what was written -----

  lemma ReadNameOfEncoded(name: Bytes, t: Bytes)
    requires |name| <= 255
    ensures ReadName(EncodeName(name) + t) == Ok(Read(name, t))
  {
    var s := EncodeName(name) + t;
    assert s[0] == |name| && s[1..1 + |name|] == name && s[1 + |name|..] == t;
  }

  lemma ReadValueOfEncoded(value: Bytes, t: Bytes)
    requires |value| <= 65_535
    ensures ReadU16Bytes(EncodeValue(value) + t) == Ok(Read(value, t))
  {
    var s := EncodeValue(value) + t;
    assert s[0] == |value| / 256 && s[1] == |value| % 256;
    assert s[2..2 + |value|] == value && s[2 + |value|..] == t;
  }

  lemma {:induction false} ReadItemsOfEncoded(items: seq<Bytes>, t: Bytes)
    requires WellSizedItems(items)
    ensures ReadItems(EncodeItems(items) + ([LIST_END] + t)) == Ok(Read(items, t))
    decreases |items|
  {
    hide EncodeValue, ReadU16Bytes;
    var end := [LIST_END] + t;
    if items == [] {
      assert EncodeItems(items) + end == end && end[1..] == t;
    } else {
      var rest := EncodeItems(items[1..]) + end;
      var s := EncodeItems(items) + end;
      assert s == [LIST_ITEM] + (EncodeValue(items[0]) + rest);
      assert s[1..] == EncodeValue(items[0]) + rest;
      ReadValueOfEncoded(items[0], rest);
      ReadItemsOfEncoded(items[1..], t);
      assert [items[0]] + items[1..] == items;
    }
  }

  /** A segment is read back from the front of its encoding, whatever follows. */
  lemma {:induction false} ParseOfEncodedSegment(s: Segment, t: Bytes)
    requires WellSizedSegment(s)
    ensures EncodeSegment(s) + t != [] && (EncodeSegment(s) + t)[0] != SECTION_END
    ensures ParseSegment(EncodeSegment(s) + t) == Ok(Read(s, t))
    decreases s, 1
  {
    hide EncodeName, EncodeValue, EncodeItems, ReadName, ReadU16Bytes, ReadItems, WellSizedItems;
    var b := EncodeSegment(s) + t;
    match s {
      case Key(name, value) =>
        assert b[1..] == EncodeName(name) + (EncodeValue(value) + t);
        ReadNameOfEncoded(name, EncodeValue(value) + t);
        ReadValueOfEncoded(value, t);
      case List(name, items) =>
        assert b[1..] == EncodeName(name) + (EncodeItems(items) + ([LIST_END] + t));
        ReadNameOfEncoded(name, EncodeItems(items) + ([LIST_END] + t));
        ReadItemsOfEncoded(items, t);
      case Section(name, inner) =>
        var end := [SECTION_END] + t;
        assert b[1..] == EncodeName(name) + (Encode(inner) + end);
        ReadNameOfEncoded(name, Encode(inner) + end);
        ParseOfEncoded(inner, end);
        assert end[1..] == t && inner + [] == inner;
        assert ParseSegments(end) == Ok(Read([], t));
    }
  }

  /** At any depth: parsing an encoding followed by `t` gives the message, then what `t` gives. */
  lemma {:induction false} ParseOfEncoded(m: seq<Segment>, t: Bytes)
    requires WellSized(m)
    ensures ParseSegments(Encode(m) + t) == Prepend(m, ParseSegments(t))
    decreases m, 0
  {
    if m == [] {
      assert Encode(m) + t == t;
      PrependNothing(ParseSegments(t));
    } else {
      var rest := Encode(m[1..]) + t;
      assert Encode(m) + t == EncodeSegment(m[0]) + rest;
      ParseOfEncodedSegment(m[0], rest);
      ParseOfEncoded(m[1..], t);
      assert [m[0]] + m[1..] == m;
      PrependTwice([m[0]], m[1..], ParseSegments(t));
    }
  }

  lemma {:induction false} TruncatedSection(name: Bytes, inner: seq<Segment>, k: nat)
    requires 1 <= k <= 1 + |Encode(inner)| && |name| <= 255
    requires ParseSegments(Encode(inner)[..|Encode(inner)| - (k - 1)]) == Ok(Read(inner, []))
    ensures var b := EncodeSegment(Section(name, inner));
      k <= |b| && ParseSegments(b[..|b| - k]) == Ok(Read([Section(name, inner)], []))
  {
    hide EncodeName, Encode, ReadName;
    var s := Section(name, inner);
    var head := [SECTION_START] + EncodeName(name);
    var short := Encode(inner)[..|Encode(inner)| - (k - 1)];
    assert EncodeSegment(s) == head + Encode(inner) + [SECTION_END];
    var b := EncodeSegment(s)[..|EncodeSegment(s)| - k];
    assert b == head + short;
    assert b[1..] == EncodeName(name) + short;
    ReadNameOfEncoded(name, short);
    assert ParseSegment(b) == Ok(Read(s, []));
    assert ParseSegments([]) == Ok(Read([], []));
    assert [s] + [] == [s];
  }

  lemma {:induction false} TruncatedTail(m: seq<Segment>, k: nat)
    requires m != [] && WellSizedSegment(m[0]) && k <= |Encode(m[1..])|
    requires ParseSegments(Encode(m[1..])[..|Encode(m[1..])| - k]) == Ok(Read(m[1..], []))
    ensures k <= |Encode(m)| && ParseSegments(Encode(m)[..|Encode(m)| - k]) == Ok(Read(m, []))
  {
    hide EncodeSegment, ParseSegment, WellSizedSegment;
    var rest := Encode(m[1..])[..|Encode(m[1..])| - k];
    assert Encode(m) == EncodeSegment(m[0]) + Encode(m[1..]);
    var b := Encode(m)[..|Encode(m)| - k];
    assert b == EncodeSegment(m[0]) + rest;
    ParseOfEncodedSegment(m[0], rest);
    assert ParseSegments(b) == Prepend([m[0]], ParseSegments(rest));
    assert [m[0]] + m[1..] == m;
  }

  /** Section ends of the sections still open at the end of the encoding may be missing. */
  lemma {:induction false} ParseOfTruncated(m: seq<Segment>, k: nat)
    requires WellSized(m) && k <= TailDepth(m)
    ensures k <= |Encode(m)|
    ensures ParseSegments(Encode(m)[..|Encode(m)| - k]) == Ok(Read(m, []))
    decreases m
  {
    hide EncodeSegment, ParseSegments, ParseSegment;
    if k == 0 {
      EmptyInput();
      ParseOfEncoded(m, []);
      assert Encode(m) + [] == Encode(m);
      assert Encode(m)[..|Encode(m)|] == Encode(m) && m + [] == m;
    } else if |m| == 1 {
      ParseOfTruncated(m[0].inner, k - 1);
      TruncatedSection(m[0].name, m[0].inner, k);
      assert m == [m[0]] && Encode(m) == EncodeSegment(m[0]);
    } else {
      ParseOfTruncated(m[1..], k);
      TruncatedTail(m, k);
    }
  }

  // ----- whatever is accepted was an encoding -----

  lemma NameWasEncoded(s: Bytes)
    requires ReadName(s).Ok?
    ensures s == EncodeName(ReadName(s).value.value) + ReadName(s).value.rest
  {
  }

  lemma ValueWasEncoded(s: Bytes)
    requires ReadU16Bytes(s).Ok?
    ensures s == EncodeValue(ReadU16Bytes(s).value.value) + ReadU16Bytes(s).value.rest
  {
    var n := Len16(s[0], s[1]);
    assert n / 256 == s[0] as int && n % 256 == s[1] as int;
  }

  lemma {:induction false} ItemsWereEncoded(s: Bytes)
    requires ReadItems(s).Ok?
    ensures WellSizedItems(ReadItems(s).value.value)
    ensures s == EncodeItems(ReadItems(s).value.value) + ([LIST_END] + ReadItems(s).value.rest)
    decreases |s|
  {
    hide EncodeValue, ReadU16Bytes;
    if s[0] == LIST_ITEM {
      var item := ReadU16Bytes(s[1..]).value;
      var items := ReadItems(item.rest).value;
      ValueWasEncoded(s[1..]);
      ItemsWereEncoded(item.rest);
      var all := [item.value] + items.value;
      assert all[1..] == items.value;
      assert s == [LIST_ITEM] + (EncodeValue(item.value) + (EncodeItems(items.value) + ([LIST_END] + items.rest)));
    } else {
      assert s == [LIST_END] + s[1..];
    }
  }

  /** The input is the encoding up to a section end, or it ran out with `open` section ends missing. */
  predicate WasEncoded(s: Bytes, m: seq<Segment>, rest: Bytes, closed: bool, open: nat) {
    if closed then s == Encode(m) + ([SECTION_END] + rest)
    else rest == [] && open <= TailDepth(m) && s + Ends(open) == Encode(m)
  }

  lemma {:induction false} SegmentsWereEncoded(s: Bytes) returns (closed: bool, open: nat)
    requires ParseSegments(s).Ok?
    ensures var p := ParseSegments(s).value; WellSized(p.value) && WasEncoded(s, p.value, p.rest, closed, open)
    decreases |s|, 1
  {
    if s == [] {
      return false, 0;
    } else if s[0] == SECTION_END {
      assert s == [] + ([SECTION_END] + s[1..]);
      return true, 0;
    }
    var seg := ParseSegment(s).value;
    var whole, missing := SegmentWasEncoded(s);
    var tail := ParseSegments(seg.rest).value;
    var m := [seg.value] + tail.value;
    assert m[1..] == tail.value;
    assert ParseSegments(s) == Ok(Read(m, tail.rest));
    if whole {
      closed, open := SegmentsWereEncoded(seg.rest);
      WholeThenTail(s, seg.value, seg.rest, tail.value, tail.rest, closed, open);
    } else {
      assert tail == Read([], []) && m == [seg.value];
      assert Encode(m) == EncodeSegment(seg.value);
      closed, open := false, missing;
    }
  }

  lemma {:induction false} WholeThenTail(
    s: Bytes, first: Segment, between: Bytes, tail: seq<Segment>, rest: Bytes, closed: bool, open: nat)
    requires s == EncodeSegment(first) + between && WasEncoded(between, tail, rest, closed, open)
    ensures WasEncoded(s, [first] + tail, rest, closed, open)
  {
    var m := [first] + tail;
    assert m[1..] == tail && Encode(m) == EncodeSegment(first) + Encode(tail);
    if closed {
      assert s == Encode(m) + ([SECTION_END] + rest);
    } else {
      assert s + Ends(open) == EncodeSegment(first) + (between + Ends(open));
      if tail == [] {
        assert open == 0;
      }
    }
  }

  lemma {:induction false} SegmentWasEncoded(s: Bytes) returns (whole: bool, missing: nat)
    requires s != [] && s[0] != SECTION_END && ParseSegment(s).Ok?
    ensures WellSizedSegment(ParseSegment(s).value.value)
    ensures var p := ParseSegment(s).value;
      if whole then s == EncodeSegment(p.value) + p.rest
      else p.rest == [] && missing <= TailDepth([p.value]) && s + Ends(missing) == EncodeSegment(p.value)
    decreases |s|, 0
  {
    hide EncodeName, EncodeValue, EncodeItems, Encode, ReadName, ReadU16Bytes, ReadItems, WellSizedItems;
    whole, missing := true, 0;
    var name := ReadName(s[1..]).value;
    NameWasEncoded(s[1..]);
    var head := [s[0]] + EncodeName(name.value);
    assert s == head + name.rest;
    if s[0] == SECTION_START {
      var inner := ParseSegments(name.rest).value;
      var closed, open := SegmentsWereEncoded(name.rest);
      var seg := Section(name.value, inner.value);
      assert EncodeSegment(seg) == head + Encode(inner.value) + [SECTION_END];
      if closed {
        assert s == EncodeSegment(seg) + inner.rest;
      } else {
        whole, missing := false, open + 1;
        EndsAppend(open);
        assert s + Ends(missing) == head + (name.rest + Ends(open)) + [SECTION_END];
        assert TailDepth([seg]) == 1 + TailDepth(inner.value);
      }
    } else if s[0] == KEY_VALUE {
      ValueWasEncoded(name.rest);
      var value := ReadU16Bytes(name.rest).value;
      assert s == EncodeSegment(Key(name.value, value.value)) + value.rest;
    } else {
      ItemsWereEncoded(name.rest);
      var items := ReadItems(name.rest).value;
      assert s == EncodeSegment(List(name.value, items.value)) + items.rest;
    }
  }

  lemma EmptyInput()
    ensures ParseSegments([]) == Ok(Read([], []))
  {
  }

  lemma LoneEnd()
    ensures ParseSegments([SECTION_END]) == Ok(Read([], []))
  {
    assert [SECTION_END][1..] == [];
  }

  // ----- main results -----

  /** `b` is the encoding of `m` without its last `k` bytes, all of them ends of sections open at the end. */
  predicate CutShort(b: Bytes, m: seq<Segment>, k: nat) {
    k <= TailDepth(m) && b + Ends(k) == Encode(m)
  }

  lemma {:induction false} CutShortIsAccepted(b: Bytes, m: seq<Segment>, k: nat)
    requires WellSized(m) && CutShort(b, m, k)
    ensures Parse(b) == Ok(m)
  {
    hide ParseSegments, Encode, TailDepth, WellSized, Ends;
    ParseOfTruncated(m, k);
    assert Encode(m)[..|Encode(m)| - k] == b;
  }

  lemma {:induction false} StrayEndIsAccepted(b: Bytes, m: seq<Segment>)
    requires WellSized(m) && b == Encode(m) + [SECTION_END]
    ensures Parse(b) == Ok(m)
  {
    hide ParseSegments, Encode, WellSized;
    ParseOfEncoded(m, [SECTION_END]);
    LoneEnd();
    assert m + [] == m;
  }

  lemma {:induction false} AcceptedWasEncoded(b: Bytes, m: seq<Segment>)
    requires Parse(b) == Ok(m)
    ensures WellSized(m)
    ensures b == Encode(m) + [SECTION_END] || exists k: nat :: CutShort(b, m, k)
  {
    hide ParseSegments, Encode, TailDepth, WellSized, Ends;
    var closed, open := SegmentsWereEncoded(b);
    if closed {
      assert [SECTION_END] + [] == [SECTION_END];
    } else {
      assert CutShort(b, m, open);
    }
  }

  /**
    The parser accepts `b` as the message `m` if and only if the length fields
    can carry `m` and `b` is its encoding, or its encoding without some of the
    section ends of sections open at the end, or its encoding followed by one
    stray section end.
   */
  lemma {:induction false} ParserLanguage(b: Bytes, m: seq<Segment>)
    ensures Parse(b) == Ok(m) <==>
      WellSized(m) && (b == Encode(m) + [SECTION_END] || exists k: nat :: CutShort(b, m, k))
  {
    hide Parse, Encode, WellSized, CutShort;
    if Parse(b) == Ok(m) {
      AcceptedWasEncoded(b, m);
    } else if WellSized(m) {
      if b == Encode(m) + [SECTION_END] {
        StrayEndIsAccepted(b, m);
      }
      forall k: nat | CutShort(b, m, k)
        ensures false
      {
        CutShortIsAccepted(b, m, k);
      }
    }
  }

  /** Round trip: exactly the messages whose lengths fit their fields are read back. */
  lemma {:induction false} RoundTrip(m: seq<Segment>)
    ensures Parse(Encode(m)) == Ok(m) <==> WellSized(m)
  {
    ParserLanguage(Encode(m), m);
    assert Encode(m) + Ends(0) == Encode(m);
    assert CutShort(Encode(m), m, 0);
  }

  lemma {:induction false} EncodeInjective(m: seq<Segment>, m': seq<Segment>)
    requires WellSized(m) && WellSized(m') && Encode(m) == Encode(m')
    ensures m == m'
  {
    RoundTrip(m);
    RoundTrip(m');
  }

  /** One stray section end at the top level is accepted: not every accepted input is an encoding cut short. */
  lemma StrayEndAccepted()
    ensures Parse([SECTION_END]) == Ok([]) && Encode([]) == []
  {
  }

  // ----- packets -----

  function U32(n: nat): (r: Bytes)
    ensures |r| == 4
  {
    [n / 16_777_216 % 256, n / 65_536 % 256, n / 256 % 256, n % 256]
  }

  function Len32(b: Bytes): nat
    requires |b| >= 4
  {
    b[0] as int * 16_777_216 + b[1] as int * 65_536 + b[2] as int * 256 + b[3] as int
  }

  datatype Packet = Packet(kind: byte, payload: Bytes)

  /** Length word truncated to 32 bits, type byte, payload. */
  function Frame(p: Packet): Bytes {
    U32(|p.payload| + 1) + [p.kind] + p.payload
  }

  function ReadFrame(s: Bytes): (r: Result<Read<Packet>, Error>)
    ensures r.Ok? ==> |r.value.rest| < |s|
  {
    if |s| < 4 then Err(EndOfStream)
    else
      var len := Len32(s);
      if len == 0 then Err(EmptyPacket)
      else if len > MAX_PACKET_LEN then Err(OversizedPacket)
      else if |s| < 4 + len then Err(EndOfStream)
      else Ok(Read(Packet(s[4], s[5..4 + len]), s[4 + len..]))
  }

  lemma Len32OfU32(n: nat, t: Bytes)
    ensures Len32(U32(n) + t) == n % 4_294_967_296
  {
    var b := U32(n) + t;
    assert b[0] == n / 16_777_216 % 256 && b[1] == n / 65_536 % 256 && b[2] == n / 256 % 256 && b[3] == n % 256;
    Digits(n, n / 256, n / 65_536, n / 16_777_216);
  }

  lemma Digits(n: nat, q1: nat, q2: nat, q3: nat)
    requires q1 == n / 256 && q2 == n / 65_536 && q3 == n / 16_777_216
    ensures q3 % 256 * 16_777_216 + q2 % 256 * 65_536 + q1 % 256 * 256 + n % 256 == n % 4_294_967_296
  {
    assert q1 == q2 * 256 + q1 % 256;
    assert q2 == q3 * 256 + q2 % 256;
    assert n == q1 * 256 + n % 256;
  }

  /** A written packet is read back, with what follows it intact, exactly when it is within the size limit. */
  lemma FrameRoundTrip(p: Packet, t: Bytes)
    ensures ReadFrame(Frame(p) + t) == Ok(Read(p, t)) <==> |p.payload| + 1 <= MAX_PACKET_LEN
  {
    hide U32, Len32;
    var s, n := Frame(p) + t, |p.payload| + 1;
    assert s == U32(n) + ([p.kind] + p.payload + t);
    Len32OfU32(n, [p.kind] + p.payload + t);
    if n <= MAX_PACKET_LEN {
      assert s[4] == p.kind && s[5..4 + n] == p.payload && s[4 + n..] == t;
    } else if ReadFrame(s).Ok? {
      assert |ReadFrame(s).value.value.payload| < |p.payload|;
    }
  }

  function Frames(ps: seq<Packet>): Bytes {
    if ps == [] then [] else Frame(ps[0]) + Frames(ps[1..])
  }

  /** Packets read from a stream until it ends or fails. */
  function ReadFrames(s: Bytes): seq<Packet>
    decreases |s|
  {
    match ReadFrame(s)
    case Err(_) => []
    case Ok(p) => [p.value] + ReadFrames(p.rest)
  }

  lemma {:induction false} StreamRoundTrip(ps: seq<Packet>)
    requires forall p :: p in ps ==> |p.payload| + 1 <= MAX_PACKET_LEN
    ensures ReadFrames(Frames(ps)) == ps
    decreases |ps|
  {
    if ps == [] {
    } else {
      assert ps[0] in ps;
      FrameRoundTrip(ps[0], Frames(ps[1..]));
      StreamRoundTrip(ps[1..]);
      assert [ps[0]] + ps[1..] == ps;
    }
  }

  // ----- requests -----

  /** A connection: bytes still to be read, bytes written. */
  class Connection {
    var input: Bytes
    var output: Bytes

    constructor (input: Bytes)
      ensures this.input == input && output == []
    {
      this.input, output := input, [];
    }

    method WritePacket(p: Packet)
      modifies this`output
      ensures output == old(output) + Frame(p)
    {
      output := output + U32(|p.payload| + 1);
      output := output + [p.kind];
      output := output + p.payload;
      assert output == old(output) + (U32(|p.payload| + 1) + [p.kind] + p.payload);
    }

    /** A refused length word is consumed; at the end of the stream nothing is left to frame. */
    method ReadPacket() returns (r: Result<Packet, Error>)
      modifies this`input
      ensures match ReadFrame(old(input))
        case Ok(p) => r == Ok(p.value) && input == p.rest
        case Err(EndOfStream) => r == Err(EndOfStream) && input == []
        case Err(e) => r == Err(e) && input == old(input)[4..]
    {
      if |input| < 4 {
        input := [];
        return Err(EndOfStream);
      }
      var len := Len32(input);
      input := input[4..];
      if len == 0 {
        return Err(EmptyPacket);
      }
      if len > MAX_PACKET_LEN {
        return Err(OversizedPacket);
      }
      if |input| < len {
        input := [];
        return Err(EndOfStream);
      }
      var body := input[..len];
      input := input[len..];
      assert body[0] == old(input)[4] && body[1..] == old(input)[5..4 + len] && input == old(input)[4 + len..];
      r := Ok(Packet(body[0], body[1..]));
    }

    /** Sends the command and waits for its response; packets of other kinds are skipped. */
    method Request(name: Bytes, msg: Bytes) returns (r: Result<seq<Segment>, Error>)
      modifies this
      ensures output == old(output) + Frame(Packet(CMD_REQUEST, EncodeName(name) + msg))
      ensures r == Awaited(old(input))
    {
      WritePacket(Packet(CMD_REQUEST, EncodeName(name) + msg));
      while true
        invariant output == old(output) + Frame(Packet(CMD_REQUEST, EncodeName(name) + msg))
        invariant Awaited(old(input)) == Awaited(input)
        decreases |input|
      {
        var p := ReadPacket();
        if p.Err? {
          return Err(p.error);
        }
        if p.value.kind == CMD_RESPONSE {
          r := ParseMessage(p.value.payload);
          return;
        }
        if p.value.kind == CMD_UNKNOWN {
          return Err(UnknownCommand);
        }
      }
    }
  }

  /** Outcome of waiting on an input stream. */
  function Awaited(s: Bytes): Result<seq<Segment>, Error>
    decreases |s|
  {
    match ReadFrame(s)
    case Err(e) => Err(e)
    case Ok(p) =>
      if p.value.kind == CMD_RESPONSE then Parse(p.value.payload)
      else if p.value.kind == CMD_UNKNOWN then Err(UnknownCommand)
      else Awaited(p.rest)
  }

  /** However many event packets come first, the request returns the message of the response. */
  lemma {:induction false} ResponseDelivered(events: seq<Packet>, m: seq<Segment>, t: Bytes)
    requires forall p :: p in events ==>
      |p.payload| + 1 <= MAX_PACKET_LEN && p.kind != CMD_RESPONSE && p.kind != CMD_UNKNOWN
    requires WellSized(m) && |Encode(m)| + 1 <= MAX_PACKET_LEN
    ensures Awaited(Frames(events) + (Frame(Packet(CMD_RESPONSE, Encode(m))) + t)) == Ok(m)
    decreases |events|
  {
    var response := Packet(CMD_RESPONSE, Encode(m));
    var last := Frame(response) + t;
    if events == [] {
      assert Frames(events) + last == last;
      FrameRoundTrip(response, t);
      RoundTrip(m);
    } else {
      var rest := Frames(events[1..]) + last;
      assert Frames(events) + last == Frame(events[0]) + rest;
      assert events[0] in events;
      FrameRoundTrip(events[0], rest);
      ResponseDelivered(events[1..], m, t);
    }
  }
}
