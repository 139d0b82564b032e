/**
  Decoding of the apiserver watch stream: newline-delimited frames that arrive
  cut into arbitrary chunks.  The decoding of one frame is a parameter.
 */
module KubeWatch {
  import opened Base

  const LF: byte := 10
  const CR: byte := 13

  /** How a complete line and an unterminated last line are decoded. */
  datatype Decoder<!E, !X> = Decoder(line: Bytes -> Result<E, X>, tail: Bytes -> Result<E, X>)

  datatype Chunk = Data(bytes: Bytes) | Broken

  datatype StreamError<X> = BadFrame(error: X) | Transport

  /** The events a stream yields, and the error it ends with, if any. */
  datatype Outcome<E, X> = Outcome(events: seq<E>, error: Option<StreamError<X>>)

  // ----- lines -----

  /** Index of the first newline, or the length of the buffer. */
  function NewlineAt(b: Bytes): (i: nat)
    ensures i <= |b|
    ensures i < |b| ==> b[i] == LF
    ensures forall j :: 0 <= j < i ==> b[j] != LF
  {
    IndexOf(b, LF)
  }

  datatype Split = Split(lines: seq<Bytes>, rest: Bytes)

  /** The newline-terminated lines of a buffer, and what follows the last newline. */
  function SplitLines(b: Bytes): (s: Split)
    ensures NewlineAt(s.rest) == |s.rest|
    decreases |b|
  {
    var i := NewlineAt(b);
    if i == |b| then Split([], b)
    else
      var s := SplitLines(b[i + 1..]);
      Split([b[..i]] + s.lines, s.rest)
  }

  function StripTail(b: Bytes): Bytes {
    if b != [] && (b[|b| - 1] == LF || b[|b| - 1] == CR) then StripTail(b[..|b| - 1]) else b
  }

  /** Blank lines are skipped; the first line that does not decode ends it. */
  function DecodeAll<E, X>(d: Decoder<E, X>, lines: seq<Bytes>): Result<seq<E>, X> {
    if lines == [] then Ok([])
    else if StripLast(lines[0], CR) == [] then DecodeAll(d, lines[1..])
    else match d.line(StripLast(lines[0], CR))
      case Err(x) => Err(x)
      case Ok(e) =>
        match DecodeAll(d, lines[1..])
        case Err(x) => Err(x)
        case Ok(es) => Ok([e] + es)
  }

  /** The events of the lines before the first one that does not decode. */
  function GoodEvents<E, X>(d: Decoder<E, X>, lines: seq<Bytes>): seq<E> {
    if lines == [] then []
    else if StripLast(lines[0], CR) == [] then GoodEvents(d, lines[1..])
    else match d.line(StripLast(lines[0], CR))
      case Err(_) => []
      case Ok(e) => [e] + GoodEvents(d, lines[1..])
  }

  function Final<E, X>(d: Decoder<E, X>, buf: Bytes): Outcome<E, X> {
    if StripTail(buf) == [] then Outcome([], None)
    else match d.tail(StripTail(buf))
      case Ok(e) => Outcome([e], None)
      case Err(x) => Outcome([], Some(BadFrame(x)))
  }

  function After<E, X>(events: seq<E>, o: Outcome<E, X>): Outcome<E, X> {
    Outcome(events + o.events, o.error)
  }

  /** What the rest of the stream yields when `buf` is pending. */
  function Feed<E, X>(d: Decoder<E, X>, buf: Bytes, chunks: seq<Chunk>): Outcome<E, X>
    decreases |chunks|
  {
    if chunks == [] then Final(d, buf)
    else match chunks[0]
      case Broken => Outcome([], Some(Transport))
      case Data(bytes) =>
        var s := SplitLines(buf + bytes);
        match DecodeAll(d, s.lines)
        case Err(x) => Outcome([], Some(BadFrame(x)))
        case Ok(es) => After(es, Feed(d, s.rest, chunks[1..]))
  }

  // ----- the decoder as written -----

  /** Drains every complete line from the buffer; an error discards what this call had decoded. */
  method DecodeLines<E, X>(d: Decoder<E, X>, buf: Bytes) returns (r: Result<seq<E>, X>, buf': Bytes)
    ensures r == DecodeAll(d, SplitLines(buf).lines)
    ensures r.Ok? ==> buf' == SplitLines(buf).rest
  {
    hide SplitLines, DecodeAll;
    var events: seq<E> := [];
    buf' := buf;
    NothingBefore(DecodeAll(d, SplitLines(buf).lines));
    while NewlineAt(buf') < |buf'|
      invariant SplitLines(buf').rest == SplitLines(buf).rest
      invariant DecodeAll(d, SplitLines(buf).lines) == Before(events, DecodeAll(d, SplitLines(buf').lines))
      decreases |buf'|
    {
      DrainStep(d, buf');
      var pos := NewlineAt(buf');
      var line := buf'[..pos + 1];
      line := line[..|line| - 1];
      assert line == buf'[..pos];
      if line != [] && line[|line| - 1] == CR {
        line := line[..|line| - 1];
      }
      buf' := buf'[pos + 1..];
      if line == [] {
        continue;
      }
      var e := d.line(line);
      if e.Err? {
        return Err(e.error), buf';
      }
      BeforeTwice(events, [e.value], DecodeAll(d, SplitLines(buf').lines));
      events := events + [e.value];
    }
    NoMoreLines(d, buf');
    r := Ok(events);
    assert events + [] == events;
  }

  /** Draining one line: it is skipped, fails, or contributes an event. */
  lemma DrainStep<E, X>(d: Decoder<E, X>, buf: Bytes)
    requires NewlineAt(buf) < |buf|
    ensures var i := NewlineAt(buf);
      var line, s := StripLast(buf[..i], CR), SplitLines(buf[i + 1..]);
      && SplitLines(buf).rest == s.rest
      && DecodeAll(d, SplitLines(buf).lines) ==
           (if line == [] then DecodeAll(d, s.lines)
            else if d.line(line).Err? then Err(d.line(line).error)
            else Before([d.line(line).value], DecodeAll(d, s.lines)))
  {
    hide StripLast;
    var i := NewlineAt(buf);
    var s := SplitLines(buf[i + 1..]);
    var lines := [buf[..i]] + s.lines;
    assert SplitLines(buf) == Split(lines, s.rest);
    assert lines[1..] == s.lines && lines[0] == buf[..i];
  }

  lemma {:induction false} NoMoreLines<E, X>(d: Decoder<E, X>, buf: Bytes)
    requires NewlineAt(buf) == |buf|
    ensures SplitLines(buf) == Split([], buf) && DecodeAll(d, SplitLines(buf).lines) == Ok([])
  {
  }

  method TakeTrailing(buf: Bytes) returns (line: Bytes)
    ensures line == StripTail(buf)
  {
    line := buf;
    while line != [] && (line[|line| - 1] == LF || line[|line| - 1] == CR)
      invariant StripTail(line) == StripTail(buf)
    {
      line := line[..|line| - 1];
    }
  }

  method DecodeWatchStream<E, X>(d: Decoder<E, X>, chunks: seq<Chunk>) returns (o: Outcome<E, X>)
    ensures o == Feed(d, [], chunks)
  {
    hide Feed, SplitLines, DecodeAll, StripTail;
    var buf: Bytes, events: seq<E> := [], [];
    AfterNothing(Feed(d, [], chunks));
    assert chunks[0..] == chunks;
    for n := 0 to |chunks|
      invariant Feed(d, [], chunks) == After(events, Feed(d, buf, chunks[n..]))
    {
      FeedStep(d, buf, chunks, n);
      if chunks[n].Broken? {
        AfterNone<E, X>(events, Transport);
        return Outcome(events, Some(Transport));
      }
      var more, buf' := DecodeLines(d, buf + chunks[n].bytes);
      if more.Err? {
        AfterNone(events, BadFrame(more.error));
        return Outcome(events, Some(BadFrame(more.error)));
      }
      buf := buf';
      AfterTwice(events, more.value, Feed(d, buf, chunks[n + 1..]));
      events := events + more.value;
    }
    FeedEnd(d, buf, chunks);
    var line := TakeTrailing(buf);
    if line == [] {
      assert events + [] == events;
      return Outcome(events, None);
    }
    match d.tail(line) {
      case Ok(e) => o := Outcome(events + [e], None);
      case Err(x) =>
        AfterNone(events, BadFrame(x));
        o := Outcome(events, Some(BadFrame(x)));
    }
  }

  lemma {:induction false} FeedStep<E, X>(d: Decoder<E, X>, buf: Bytes, chunks: seq<Chunk>, n: nat)
    requires n < |chunks|
    ensures Feed(d, buf, chunks[n..]) ==
      match chunks[n]
      case Broken => Outcome([], Some(Transport))
      case Data(bytes) =>
        var s := SplitLines(buf + bytes);
        match DecodeAll(d, s.lines)
        case Err(x) => Outcome([], Some(BadFrame(x)))
        case Ok(es) => After(es, Feed(d, s.rest, chunks[n + 1..]))
  {
    hide SplitLines, DecodeAll;
    assert chunks[n..][1..] == chunks[n + 1..];
  }

  lemma {:induction false} FeedEnd<E, X>(d: Decoder<E, X>, buf: Bytes, chunks: seq<Chunk>)
    ensures Feed(d, buf, chunks[|chunks|..]) == Final(d, buf)
  {
  }

  lemma AfterNothing<E, X>(o: Outcome<E, X>)
    ensures After([], o) == o
  {
    assert [] + o.events == o.events;
  }

  lemma AfterNone<E, X>(events: seq<E>, x: StreamError<X>)
    ensures After(events, Outcome([], Some(x))) == Outcome(events, Some(x))
  {
    assert events + [] == events;
  }

  lemma AfterTwice<E, X>(a: seq<E>, b: seq<E>, o: Outcome<E, X>)
    ensures After(a + b, o) == After(a, After(b, o))
  {
    assert a + b + o.events == a + (b + o.events);
  }

  function Before<E, X>(events: seq<E>, r: Result<seq<E>, X>): Result<seq<E>, X> {
    if r.Ok? then Ok(events + r.value) else r
  }

  lemma NothingBefore<E, X>(r: Result<seq<E>, X>)
    ensures Before([], r) == r
  {
    if r.Ok? {
      assert [] + r.value == r.value;
    }
  }

  lemma BeforeTwice<E, X>(a: seq<E>, b: seq<E>, r: Result<seq<E>, X>)
    ensures Before(a + b, r) == Before(a, Before(b, r))
  {
    if r.Ok? {
      assert a + b + r.value == a + (b + r.value);
    }
  }

  // ----- chunk independence -----

  lemma NewlineOfConcat(a: Bytes, b: Bytes)
    ensures NewlineAt(a) < |a| ==> NewlineAt(a + b) == NewlineAt(a)
    ensures NewlineAt(a) == |a| ==> NewlineAt(a + b) == |a| + NewlineAt(b)
  {
    assert forall j :: 0 <= j < |a| ==> (a + b)[j] == a[j];
    assert forall j :: 0 <= j < |b| ==> (a + b)[|a| + j] == b[j];
    if NewlineAt(a) == |a| {
      NewlineUnique(a + b, |a| + NewlineAt(b));
    } else {
      NewlineUnique(a + b, NewlineAt(a));
    }
  }

  lemma NewlineUnique(b: Bytes, i: nat)
    requires i <= |b| && (i < |b| ==> b[i] == LF) && forall j :: 0 <= j < i ==> b[j] != LF
    ensures NewlineAt(b) == i
  {
    var k := NewlineAt(b);
    assert k < i || i < k || k == i;
  }

  /** Splitting a buffer in two steps: the pending rest of the first joins the second. */
  lemma {:induction false} SplitConcat(a: Bytes, b: Bytes)
    ensures var s, t := SplitLines(a), SplitLines(SplitLines(a).rest + b);
      SplitLines(a + b) == Split(s.lines + t.lines, t.rest)
    decreases |a|
  {
    hide SplitLines;
    var i := NewlineAt(a);
    NewlineOfConcat(a, b);
    if i == |a| {
      SplitNone(a);
      assert [] + SplitLines(a + b).lines == SplitLines(a + b).lines;
    } else {
      SplitConcat(a[i + 1..], b);
      SplitFirst(a, i);
      SplitFirst(a + b, i);
      assert (a + b)[..i] == a[..i];
      assert (a + b)[i + 1..] == a[i + 1..] + b;
      var s := SplitLines(a[i + 1..]);
      var t := SplitLines(s.rest + b);
      assert [a[..i]] + (s.lines + t.lines) == [a[..i]] + s.lines + t.lines;
    }
  }

  lemma {:induction false} SplitNone(b: Bytes)
    requires NewlineAt(b) == |b|
    ensures SplitLines(b) == Split([], b)
  {
  }

  lemma {:induction false} SplitFirst(b: Bytes, i: nat)
    requires i == NewlineAt(b) < |b|
    ensures SplitLines(b) == Split([b[..i]] + SplitLines(b[i + 1..]).lines, SplitLines(b[i + 1..]).rest)
  {
  }

  lemma {:induction false} DecodeConcat<E, X>(d: Decoder<E, X>, a: seq<Bytes>, b: seq<Bytes>)
    ensures DecodeAll(d, a).Ok? ==>
      DecodeAll(d, a + b) == Before(DecodeAll(d, a).value, DecodeAll(d, b))
      && GoodEvents(d, a + b) == DecodeAll(d, a).value + GoodEvents(d, b)
    ensures DecodeAll(d, a).Err? ==> DecodeAll(d, a + b) == DecodeAll(d, a) && GoodEvents(d, a + b) == GoodEvents(d, a)
    decreases |a|
  {
    if a == [] {
      assert a + b == b && [] + GoodEvents(d, b) == GoodEvents(d, b);
      NothingBefore(DecodeAll(d, b));
    } else {
      assert (a + b)[1..] == a[1..] + b && (a + b)[0] == a[0];
      DecodeConcat(d, a[1..], b);
      if StripLast(a[0], CR) != [] && d.line(StripLast(a[0], CR)).Ok? && DecodeAll(d, a[1..]).Ok? {
        var e, es := d.line(StripLast(a[0], CR)).value, DecodeAll(d, a[1..]).value;
        BeforeTwice([e], es, DecodeAll(d, b));
        assert [e] + (es + GoodEvents(d, b)) == [e] + es + GoodEvents(d, b);
      }
    }
  }

  function Concat(parts: seq<Bytes>): Bytes {
    if parts == [] then [] else parts[0] + Concat(parts[1..])
  }

  function Chunks(parts: seq<Bytes>): seq<Chunk> {
    seq(|parts|, i requires 0 <= i < |parts| => Data(parts[i]))
  }

  /**
    The outcome for the whole input, uncut: `lines` are its complete lines and
    `rest` what follows.  When a complete line is bad, what is yielded depends on
    the cut and is only known to be a prefix.
   */
  ghost predicate Describes<E, X>(d: Decoder<E, X>, all: Bytes, o: Outcome<E, X>) {
    var s := SplitLines(all);
    match DecodeAll(d, s.lines)
    case Ok(es) => o == After(es, Final(d, s.rest))
    case Err(x) => o.error == Some(BadFrame(x)) && o.events <= GoodEvents(d, s.lines)
  }

  lemma {:induction false} FeedDescribes<E, X>(d: Decoder<E, X>, buf: Bytes, parts: seq<Bytes>)
    requires NewlineAt(buf) == |buf|
    ensures Describes(d, buf + Concat(parts), Feed(d, buf, Chunks(parts)))
    decreases |parts|
  {
    if parts == [] {
      assert buf + Concat(parts) == buf && Chunks(parts) == [];
      assert [] + Final(d, buf).events == Final(d, buf).events;
    } else {
      var tail := Concat(parts[1..]);
      var now := buf + parts[0];
      var s := SplitLines(now);
      assert Chunks(parts)[1..] == Chunks(parts[1..]);
      assert buf + Concat(parts) == now + tail;
      SplitConcat(now, tail);
      var t := SplitLines(s.rest + tail);
      DecodeConcat(d, s.lines, t.lines);
      FeedDescribes(d, s.rest, parts[1..]);
      if DecodeAll(d, s.lines).Ok? {
        var es := DecodeAll(d, s.lines).value;
        var o := Feed(d, s.rest, Chunks(parts[1..]));
        StepDescribes(d, s.lines, t, es, o);
      }
    }
  }

  lemma {:induction false} StepDescribes<E, X>(
    d: Decoder<E, X>, lines: seq<Bytes>, t: Split, es: seq<E>, o: Outcome<E, X>)
    requires DecodeAll(d, lines) == Ok(es)
    requires match DecodeAll(d, t.lines)
      case Ok(fs) => o == After(fs, Final(d, t.rest))
      case Err(x) => o.error == Some(BadFrame(x)) && o.events <= GoodEvents(d, t.lines)
    ensures match DecodeAll(d, lines + t.lines)
      case Ok(fs) => After(es, o) == After(fs, Final(d, t.rest))
      case Err(x) => After(es, o).error == Some(BadFrame(x)) && After(es, o).events <= GoodEvents(d, lines + t.lines)
  {
    DecodeConcat(d, lines, t.lines);
    match DecodeAll(d, t.lines) {
      case Ok(fs) => assert es + (fs + Final(d, t.rest).events) == es + fs + Final(d, t.rest).events;
      case Err(_) =>
    }
  }

  /**
    Chunk independence: if every complete line decodes, any way to cut the input
    gives the same outcome as the uncut input; otherwise the stream ends with the
    error of the first bad line, after a prefix of the events before it.
   */
  lemma {:induction false} ChunkIndependence<E, X>(d: Decoder<E, X>, parts: seq<Bytes>)
    ensures var all := Concat(parts);
      var lines := SplitLines(all).lines;
      var o := Feed(d, [], Chunks(parts));
      match DecodeAll(d, lines)
      case Ok(es) => o == Feed(d, [], [Data(all)]) == After(es, Final(d, SplitLines(all).rest))
      case Err(x) => o.error == Some(BadFrame(x)) && o.events <= GoodEvents(d, lines)
  {
    var all := Concat(parts);
    assert [] + all == all;
    FeedDescribes(d, [], parts);
    var whole := [all];
    assert whole[1..] == [] && Concat(whole) == all + [] == all;
    assert Chunks(whole) == [Data(all)];
    FeedDescribes(d, [], whole);
  }

  /** The events lost to a bad line are those of good lines completed in the same chunk, and no others. */
  lemma {:induction false} LossIsOneChunk<E, X>(d: Decoder<E, X>, buf: Bytes, parts: seq<Bytes>) returns (j: nat)
    requires NewlineAt(buf) == |buf|
    requires DecodeAll(d, SplitLines(buf + Concat(parts)).lines).Err?
    ensures j < |parts|
    ensures DecodeAll(d, SplitLines(buf + Concat(parts[..j])).lines) == Ok(Feed(d, buf, Chunks(parts)).events)
    ensures DecodeAll(d, SplitLines(buf + Concat(parts[..j + 1])).lines).Err?
    decreases |parts|
  {
    hide SplitLines, DecodeAll, Feed, NewlineAt;
    NoMoreLines(d, buf);
    assert parts == [] ==> buf + Concat(parts) == buf;
    var now, tail := buf + parts[0], Concat(parts[1..]);
    var s := SplitLines(now);
    assert buf + Concat(parts) == now + tail;
    SplitConcat(now, tail);
    DecodeConcat(d, s.lines, SplitLines(s.rest + tail).lines);
    FirstFeed(d, buf, parts);
    if DecodeAll(d, s.lines).Err? {
      j := 0;
      assert buf + Concat(parts[..0]) == buf;
      assert parts[..1][1..] == [] && buf + Concat(parts[..1]) == now;
    } else {
      var i := LossIsOneChunk(d, s.rest, parts[1..]);
      j := i + 1;
      SplitPrefix(d, buf, parts, j);
      SplitPrefix(d, buf, parts, j + 1);
    }
  }

  lemma {:induction false} FirstFeed<E, X>(d: Decoder<E, X>, buf: Bytes, parts: seq<Bytes>)
    requires parts != []
    ensures var s := SplitLines(buf + parts[0]);
      Feed(d, buf, Chunks(parts)) ==
      match DecodeAll(d, s.lines)
      case Err(x) => Outcome([], Some(BadFrame(x)))
      case Ok(es) => After(es, Feed(d, s.rest, Chunks(parts[1..])))
  {
    hide SplitLines, DecodeAll;
    assert Chunks(parts)[1..] == Chunks(parts[1..]);
  }

  lemma {:induction false} SplitPrefix<E, X>(d: Decoder<E, X>, buf: Bytes, parts: seq<Bytes>, j: nat)
    requires 1 <= j <= |parts| && DecodeAll(d, SplitLines(buf + parts[0]).lines).Ok?
    ensures var s := SplitLines(buf + parts[0]);
      DecodeAll(d, SplitLines(buf + Concat(parts[..j])).lines)
      == Before(DecodeAll(d, s.lines).value, DecodeAll(d, SplitLines(s.rest + Concat(parts[1..][..j - 1])).lines))
  {
    var s, t := SplitLines(buf + parts[0]), Concat(parts[1..][..j - 1]);
    assert parts[..j][1..] == parts[1..][..j - 1];
    assert buf + Concat(parts[..j]) == buf + parts[0] + t;
    SplitConcat(buf + parts[0], t);
    DecodeConcat(d, s.lines, SplitLines(s.rest + t).lines);
  }

  lemma {:induction false} ConcatSplit(parts: seq<Bytes>, j: nat)
    requires j <= |parts|
    ensures Concat(parts) == Concat(parts[..j]) + Concat(parts[j..])
  {
    if j == 0 {
      assert parts[0..] == parts;
    } else {
      ConcatSplit(parts[1..], j - 1);
      assert parts[..j][1..] == parts[1..][..j - 1] && parts[1..][j - 1..] == parts[j..];
    }
  }

  lemma ConcatOneMore(parts: seq<Bytes>, j: nat)
    requires j < |parts|
    ensures Concat(parts[..j + 1]) == Concat(parts[..j]) + parts[j]
  {
    ConcatSplit(parts[..j + 1], j);
    assert parts[..j + 1][..j] == parts[..j] && parts[..j + 1][j..] == [parts[j]];
    assert Concat([parts[j]]) == parts[j] + Concat([]) == parts[j];
  }

  /** Chunk `j` completes the first bad line: the chunks before it decode, with it they do not. */
  ghost predicate Completes<E, X>(d: Decoder<E, X>, parts: seq<Bytes>, j: nat) {
    && j < |parts|
    && DecodeAll(d, SplitLines(Concat(parts[..j])).lines).Ok?
    && DecodeAll(d, SplitLines(Concat(parts[..j + 1])).lines).Err?
  }

  /** Once a bad line is complete, it stays the first one. */
  lemma {:induction false} BadStays<E, X>(d: Decoder<E, X>, parts: seq<Bytes>, i: nat, j: nat)
    requires i <= j <= |parts| && DecodeAll(d, SplitLines(Concat(parts[..i])).lines).Err?
    ensures DecodeAll(d, SplitLines(Concat(parts[..j])).lines).Err?
  {
    hide SplitLines, DecodeAll;
    ConcatSplit(parts[..j], i);
    assert parts[..j][..i] == parts[..i];
    var a, b := Concat(parts[..i]), Concat(parts[..j][i..]);
    SplitConcat(a, b);
    DecodeConcat(d, SplitLines(a).lines, SplitLines(SplitLines(a).rest + b).lines);
  }

  /** Only one chunk completes the first bad line. */
  lemma CompletesUnique<E, X>(d: Decoder<E, X>, parts: seq<Bytes>, i: nat, j: nat)
    requires Completes(d, parts, i) && Completes(d, parts, j)
    ensures i == j
  {
    hide SplitLines, DecodeAll;
    if i < j {
      BadStays(d, parts, i + 1, j);
    } else if j < i {
      BadStays(d, parts, j + 1, i);
    }
  }

  /** A stream with a bad line has such a chunk, and yields the events of the chunks before it. */
  lemma YieldedBefore<E, X>(d: Decoder<E, X>, parts: seq<Bytes>) returns (i: nat)
    requires DecodeAll(d, SplitLines(Concat(parts)).lines).Err?
    ensures Completes(d, parts, i)
    ensures DecodeAll(d, SplitLines(Concat(parts[..i])).lines) == Ok(Feed(d, [], Chunks(parts)).events)
  {
    NewlineUnique([], 0);
    hide SplitLines, DecodeAll, Feed, NewlineAt;
    assert [] + Concat(parts) == Concat(parts);
    i := LossIsOneChunk(d, [], parts);
    assert [] + Concat(parts[..i]) == Concat(parts[..i]);
    assert [] + Concat(parts[..i + 1]) == Concat(parts[..i + 1]);
  }

  /**
    What a stream with a bad line yields: the events of the chunks before the one
    that completes it.  What it loses are the good lines completed by that same
    chunk, so nothing is lost if and only if there are none.
   */
  lemma {:induction false} LossExactly<E, X>(d: Decoder<E, X>, parts: seq<Bytes>, j: nat)
    requires Completes(d, parts, j)
    ensures var yielded := Feed(d, [], Chunks(parts)).events;
      var before := GoodEvents(d, SplitLines(Concat(parts)).lines);
      var pending := SplitLines(Concat(parts[..j])).rest;
      var lost := GoodEvents(d, SplitLines(pending + parts[j]).lines);
      && DecodeAll(d, SplitLines(Concat(parts[..j])).lines) == Ok(yielded)
      && before == yielded + lost
      && (yielded == before <==> lost == [])
  {
    hide SplitLines, DecodeAll, GoodEvents, Feed;
    var a, b, c := Concat(parts[..j]), parts[j], Concat(parts[j + 1..]);
    ConcatOneMore(parts, j);
    ConcatSplit(parts, j + 1);
    BadStays(d, parts, j + 1, |parts|);
    assert parts[..|parts|] == parts;
    var i := YieldedBefore(d, parts);
    CompletesUnique(d, parts, i, j);
    SplitConcat(a, b);
    SplitConcat(a + b, c);
    var t := SplitLines(SplitLines(a).rest + b);
    DecodeConcat(d, SplitLines(a).lines, t.lines);
    DecodeConcat(d, SplitLines(a + b).lines, SplitLines(SplitLines(a + b).rest + c).lines);
  }

  lemma {:induction false} OneLine(line: Bytes, t: Bytes)
    requires LF !in line
    ensures SplitLines(line + [LF] + t) == Split([line] + SplitLines(t).lines, SplitLines(t).rest)
  {
    var b := line + [LF] + t;
    assert forall j :: 0 <= j < |line| ==> b[j] == line[j];
    NewlineUnique(b, |line|);
    assert b[..|line|] == line && b[|line| + 1..] == t;
    SplitFirst(b, |line|);
  }

  lemma {:induction false} TwoLines(a: Bytes, b: Bytes)
    requires LF !in a && LF !in b
    ensures SplitLines(a + [LF]) == Split([a], []) && SplitLines(b + [LF]) == Split([b], [])
    ensures SplitLines(a + [LF] + (b + [LF])) == Split([a, b], [])
  {
    NewlineUnique([], 0);
    SplitNone([]);
    OneLine(a, []);
    OneLine(b, []);
    OneLine(a, b + [LF]);
    hide SplitLines;
    assert a + [LF] + [] == a + [LF] && b + [LF] + [] == b + [LF];
    assert [a] + [] == [a] && [b] + [] == [b] && [a] + [b] == [a, b];
  }

  /** A frame: a line as it is sent, without line ends of its own. */
  predicate IsFrame(line: Bytes) {
    line != [] && LF !in line && StripLast(line, CR) == line
  }

  lemma {:induction false} DecodeTwo<E, X>(d: Decoder<E, X>, a: Bytes, b: Bytes)
    requires IsFrame(a) && IsFrame(b) && d.line(a).Ok? && d.line(b).Err?
    ensures DecodeAll(d, [a]) == Ok([d.line(a).value]) && DecodeAll(d, [b]) == Err(d.line(b).error)
    ensures DecodeAll(d, [a, b]) == Err(d.line(b).error) && GoodEvents(d, [a, b]) == [d.line(a).value]
  {
    var e := d.line(a).value;
    assert [a, b][1..] == [b] && [a][1..] == [] && [b][1..] == [];
    assert DecodeAll(d, [b]) == Err(d.line(b).error) && GoodEvents(d, [b]) == [];
    assert DecodeAll(d, [a][1..]) == Ok([]) && [e] + [] == [e];
    assert GoodEvents(d, [a, b]) == [e] + GoodEvents(d, [b]);
  }

  /** A good frame and then a bad one: the event of the good one is yielded from two chunks, and lost from one. */
  lemma {:induction false} EventLost<E, X>(d: Decoder<E, X>, a: Bytes, b: Bytes)
    requires IsFrame(a) && IsFrame(b) && d.line(a).Ok? && d.line(b).Err?
    ensures var e, bad := d.line(a).value, Some(BadFrame(d.line(b).error));
      && Feed(d, [], [Data(a + [LF]), Data(b + [LF])]) == Outcome([e], bad)
      && Feed(d, [], [Data(a + [LF] + (b + [LF]))]) == Outcome([], bad)
      && GoodEvents(d, SplitLines(a + [LF] + (b + [LF])).lines) == [e]
  {
    TwoLines(a, b);
    DecodeTwo(d, a, b);
    hide SplitLines, DecodeAll, GoodEvents, Feed;
    var x, y := a + [LF], b + [LF];
    FeedOne(d, x, [Data(y)]);
    FeedOne(d, y, []);
    FeedOne(d, x + y, []);
    assert [Data(x)] + [Data(y)] == [Data(x), Data(y)] && [Data(y)] + [] == [Data(y)];
    assert [Data(x + y)] + [] == [Data(x + y)];
  }

  lemma {:induction false} FeedOne<E, X>(d: Decoder<E, X>, x: Bytes, chunks: seq<Chunk>)
    ensures Feed(d, [], [Data(x)] + chunks) ==
      match DecodeAll(d, SplitLines(x).lines)
      case Err(e) => Outcome([], Some(BadFrame(e)))
      case Ok(es) => After(es, Feed(d, SplitLines(x).rest, chunks))
  {
    hide SplitLines, DecodeAll;
    assert [] + x == x && ([Data(x)] + chunks)[1..] == chunks;
  }

  /** Such an input: a decoder that knows the line A only, and the lines A and B in one chunk. */
  lemma LetterLost()
    ensures var d: Decoder<int, ()> := Decoder(s => if s == [65] then Ok(65) else Err(()), s => Err(()));
      && Feed(d, [], [Data([65] + [LF] + ([66] + [LF]))]).events == []
      && GoodEvents(d, SplitLines([65] + [LF] + ([66] + [LF])).lines) == [65]
  {
    var d: Decoder<int, ()> := Decoder(s => if s == [65] then Ok(65) else Err(()), s => Err(()));
    assert [66][0] == 66;
    hide Feed, GoodEvents, SplitLines;
    EventLost(d, [65], [66]);
  }
}
