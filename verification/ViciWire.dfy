/**
  The bytes of VICI messages and packets, written out from the format
  (strongSwan VICI README, "Message format" and "Packet layer") without the
  constants and helpers of the encoder.
 */
module ViciWire {
  import opened Base
  import opened Vici
  import opened ViciLanguage

  /** Two bytes, most significant first, before the value they count. */
  predicate IsCounted(b: Bytes, value: Bytes) {
    |b| == 2 + |value| && 256 * (b[0] as int) + b[1] as int == |value| && b[2..] == value
  }

  /** One byte before the name it counts. */
  predicate IsNamed(b: Bytes, name: Bytes) {
    |b| == 1 + |name| && b[0] == |name| && b[1..] == name
  }

  /** Key/value: type 3, name, value. */
  predicate IsKeyValue(b: Bytes, name: Bytes, value: Bytes) {
    |b| == 4 + |name| + |value| && b[0] == 3 && IsNamed(b[1..2 + |name|], name) && IsCounted(b[2 + |name|..], value)
  }

  /** List items: type 5 and value, one after the other. */
  predicate AreItems(b: Bytes, items: seq<Bytes>) {
    if items == [] then b == []
    else
      && |b| >= 3 + |items[0]| && b[0] == 5 && IsCounted(b[1..3 + |items[0]|], items[0])
      && AreItems(b[3 + |items[0]|..], items[1..])
  }

  /** List: type 4, name, items, type 6. */
  predicate IsList(b: Bytes, name: Bytes, items: seq<Bytes>) {
    && |b| >= 3 + |name| && b[0] == 4 && IsNamed(b[1..2 + |name|], name)
    && AreItems(b[2 + |name|..|b| - 1], items) && b[|b| - 1] == 6
  }

  /** Section: type 1, name, the segments inside, type 2. */
  predicate IsSection(b: Bytes, name: Bytes, inner: Bytes) {
    |b| == 3 + |name| + |inner| && b[0] == 1 && IsNamed(b[1..2 + |name|], name)
    && b[2 + |name|..|b| - 1] == inner && b[|b| - 1] == 2
  }

  lemma NameBytes(name: Bytes)
    requires |name| <= 255
    ensures IsNamed(EncodeName(name), name)
  {
  }

  lemma ValueBytes(value: Bytes)
    requires |value| <= 65_535
    ensures IsCounted(EncodeValue(value), value)
  {
  }

  lemma {:induction false} OneSegment(s: Segment)
    ensures Encode([s]) == EncodeSegment(s)
  {
    hide EncodeSegment;
    assert [s][1..] == [] && EncodeSegment(s) + [] == EncodeSegment(s);
    assert Encode([]) == [];
  }

  /** The bytes of a key/value pair. */
  lemma KeyValueBytes(name: Bytes, value: Bytes)
    requires |name| <= 255 && |value| <= 65_535
    ensures IsKeyValue(Encode([Key(name, value)]), name, value)
  {
    OneSegment(Key(name, value));
    NameBytes(name);
    ValueBytes(value);
    var b := EncodeSegment(Key(name, value));
    var n, v := EncodeName(name), EncodeValue(value);
    hide EncodeName, EncodeValue;
    assert b[1..2 + |name|] == n && b[2 + |name|..] == v;
  }

  lemma {:induction false} ItemBytes(items: seq<Bytes>)
    requires WellSizedItems(items)
    ensures AreItems(EncodeItems(items), items)
    decreases |items|
  {
    hide EncodeValue, IsCounted;
    if items == [] {
    } else {
      var first, rest := items[0], items[1..];
      assert first in items && WellSizedItems(rest);
      ItemBytes(rest);
      CountedLength(first);
      ValueBytes(first);
      var b, v := EncodeItems(items), EncodeValue(first);
      assert b == [5] + v + EncodeItems(rest);
      assert b[1..3 + |first|] == v && b[3 + |first|..] == EncodeItems(rest);
    }
  }

  lemma CountedLength(value: Bytes)
    ensures |EncodeValue(value)| == 2 + |value|
  {
  }

  /** The bytes of a list. */
  lemma {:induction false} ListBytes(name: Bytes, items: seq<Bytes>)
    requires |name| <= 255 && WellSizedItems(items)
    ensures IsList(Encode([List(name, items)]), name, items)
  {
    OneSegment(List(name, items));
    NameBytes(name);
    ItemBytes(items);
    NamedLength(name);
    var b := EncodeSegment(List(name, items));
    var n, i := EncodeName(name), EncodeItems(items);
    hide EncodeName, EncodeItems, AreItems, IsNamed;
    assert b == [4] + n + i + [6];
    assert b[1..2 + |name|] == n && b[2 + |name|..|b| - 1] == i;
  }

  lemma NamedLength(name: Bytes)
    ensures |EncodeName(name)| == 1 + |name|
  {
  }

  /** The bytes of a section, around those of the message in it. */
  lemma {:induction false} SectionBytes(name: Bytes, inner: seq<Segment>)
    requires |name| <= 255
    ensures IsSection(Encode([Section(name, inner)]), name, Encode(inner))
  {
    OneSegment(Section(name, inner));
    NameBytes(name);
    NamedLength(name);
    var b := EncodeSegment(Section(name, inner));
    var n, i := EncodeName(name), Encode(inner);
    assert b == [1] + n + i + [2];
    hide EncodeName, Encode, EncodeSegment, IsNamed;
    assert b[1..2 + |name|] == n && b[2 + |name|..|b| - 1] == i;
  }

  /** A message is its segments, one after the other. */
  lemma {:induction false} MessageBytes(a: seq<Segment>, b: seq<Segment>)
    ensures Encode(a + b) == Encode(a) + Encode(b) && Encode([]) == []
  {
    EncodeConcat(a, b);
  }

  /** A packet: four bytes, most significant first, that count what follows; the kind; the payload. */
  lemma PacketBytes(p: Packet)
    requires |p.payload| < 0xFFFF_FFFF
    ensures var b := Frame(p);
      && |b| == 5 + |p.payload|
      && 16_777_216 * (b[0] as int) + 65_536 * (b[1] as int) + 256 * (b[2] as int) + b[3] as int == |p.payload| + 1
      && b[4] == p.kind && b[5..] == p.payload
  {
    var n := |p.payload| + 1;
    Digits(n, n / 256, n / 65_536, n / 16_777_216);
  }

  /** A request: kind 0, the counted command name and the message; kind 1 answers it, kind 2 refuses it. */
  lemma RequestBytes(name: Bytes, msg: Bytes)
    requires |name| <= 255
    ensures CMD_REQUEST == 0 && CMD_RESPONSE == 1 && CMD_UNKNOWN == 2 && MAX_PACKET_LEN == 65_536
    ensures var b := Frame(Packet(CMD_REQUEST, EncodeName(name) + msg));
      |b| == 6 + |name| + |msg| && b[4] == 0 && b[5] == |name| && b[6..6 + |name|] == name && b[6 + |name|..] == msg
  {
  }
}
