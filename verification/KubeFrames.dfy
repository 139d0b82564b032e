/**
  What the watch decoder yields for a stream as the apiserver writes it: lines
  that end in a newline (byte 10) or in a carriage return and a newline (13, 10),
  and perhaps a last line without its newline.
 */
module KubeFrames {
  import opened Base
  import opened KubeWatch

  datatype Line = Line(body: Bytes, crlf: bool)

  /** A return at the end of the body is written only before another return. */
  predicate ValidLine(l: Line) {
    10 !in l.body && (l.crlf || l.body == [] || l.body[|l.body| - 1] != 13)
  }

  predicate ValidLines(lines: seq<Line>) {
    forall l :: l in lines ==> ValidLine(l)
  }

  function LineText(l: Line): Bytes {
    l.body + if l.crlf then [13, 10] else [10]
  }

  function StreamText(lines: seq<Line>): Bytes {
    if lines == [] then [] else LineText(lines[0]) + StreamText(lines[1..])
  }

  /** The lines that are not blank decode to `es`, in order. */
  ghost predicate Yields<E, X>(d: Decoder<E, X>, lines: seq<Line>, es: seq<E>) {
    if lines == [] then es == []
    else if lines[0].body == [] then Yields(d, lines[1..], es)
    else es != [] && d.line(lines[0].body) == Ok(es[0]) && Yields(d, lines[1..], es[1..])
  }

  /** What is split off and decoded for a line, before its end is removed. */
  function Raw(l: Line): Bytes {
    l.body + if l.crlf then [13] else []
  }

  function Raws(lines: seq<Line>): seq<Bytes> {
    if lines == [] then [] else [Raw(lines[0])] + Raws(lines[1..])
  }

  lemma RawLine(l: Line)
    requires ValidLine(l)
    ensures LF !in Raw(l) && StripLast(Raw(l), CR) == l.body && LineText(l) == Raw(l) + [LF]
  {
    if l.crlf {
      assert LineText(l) == Raw(l) + [LF];
    } else {
      assert Raw(l) == l.body;
    }
  }

  lemma {:induction false} SplitStream(lines: seq<Line>, t: Bytes)
    requires ValidLines(lines) && LF !in t
    ensures SplitLines(StreamText(lines) + t) == Split(Raws(lines), t)
  {
    hide SplitLines, LineText, Raw, ValidLine;
    if lines == [] {
      assert StreamText(lines) + t == t;
      NewlineUnique(t, |t|);
      SplitNone(t);
    } else {
      assert lines[0] in lines;
      RawLine(lines[0]);
      SplitStream(lines[1..], t);
      var more := StreamText(lines[1..]) + t;
      assert StreamText(lines) + t == Raw(lines[0]) + [LF] + more;
      OneLine(Raw(lines[0]), more);
    }
  }

  lemma {:induction false} DecodeNothing<E, X>(d: Decoder<E, X>)
    ensures DecodeAll(d, []) == Ok([])
  {
  }

  lemma {:induction false} DecodeFirst<E, X>(d: Decoder<E, X>, raw: Bytes, rest: seq<Bytes>)
    ensures var body := StripLast(raw, CR);
      DecodeAll(d, [raw] + rest) ==
      if body == [] then DecodeAll(d, rest)
      else if d.line(body).Err? then Err(d.line(body).error)
      else Before([d.line(body).value], DecodeAll(d, rest))
  {
    hide StripLast;
    var lines := [raw] + rest;
    assert lines[0] == raw && lines[1..] == rest;
  }

  lemma {:induction false} DecodeStream<E, X>(d: Decoder<E, X>, lines: seq<Line>, es: seq<E>)
    requires ValidLines(lines) && Yields(d, lines, es)
    ensures DecodeAll(d, Raws(lines)) == Ok(es)
    decreases |lines|
  {
    hide Raw, ValidLine, StripLast, DecodeAll;
    DecodeNothing(d);
    if lines != [] {
      assert lines[0] in lines;
      RawLine(lines[0]);
      DecodeFirst(d, Raw(lines[0]), Raws(lines[1..]));
      if lines[0].body == [] {
        DecodeStream(d, lines[1..], es);
      } else {
        DecodeStream(d, lines[1..], es[1..]);
        assert es == [es[0]] + es[1..];
      }
    }
  }

  /** Chunks whose lines all decode yield their events; the pending rest goes on to what follows. */
  lemma {:induction false} FeedThen<E, X>(
    d: Decoder<E, X>, buf: Bytes, parts: seq<Bytes>, more: seq<Chunk>, es: seq<E>)
    requires NewlineAt(buf) == |buf|
    requires DecodeAll(d, SplitLines(buf + Concat(parts)).lines) == Ok(es)
    ensures Feed(d, buf, Chunks(parts) + more) == After(es, Feed(d, SplitLines(buf + Concat(parts)).rest, more))
    decreases |parts|
  {
    hide SplitLines, DecodeAll, Feed, NewlineAt;
    if parts == [] {
      assert buf + Concat(parts) == buf && Chunks(parts) + more == more;
      NoMoreLines(d, buf);
      AfterNothing(Feed(d, buf, more));
    } else {
      var now, tail := buf + parts[0], Concat(parts[1..]);
      assert buf + Concat(parts) == now + tail;
      SplitConcat(now, tail);
      var s := SplitLines(now);
      var t := SplitLines(s.rest + tail);
      DecodeConcat(d, s.lines, t.lines);
      var a, b := DecodeAll(d, s.lines).value, DecodeAll(d, t.lines).value;
      FeedThen(d, s.rest, parts[1..], more, b);
      var chunks := Chunks(parts) + more;
      assert chunks[0..] == chunks && chunks[0] == Data(parts[0]) && chunks[1..] == Chunks(parts[1..]) + more;
      FeedStep(d, buf, chunks, 0);
      AfterTwice(a, b, Feed(d, t.rest, more));
    }
  }

  lemma {:induction false} FeedStream<E, X>(
    d: Decoder<E, X>, lines: seq<Line>, t: Bytes, es: seq<E>, parts: seq<Bytes>, more: seq<Chunk>)
    requires ValidLines(lines) && LF !in t && Yields(d, lines, es)
    requires Concat(parts) == StreamText(lines) + t
    ensures Feed(d, [], Chunks(parts) + more) == After(es, Feed(d, t, more))
  {
    hide ValidLines, Yields, Feed, SplitLines, DecodeAll;
    SplitStream(lines, t);
    DecodeStream(d, lines, es);
    assert [] + Concat(parts) == Concat(parts);
    NewlineUnique([], 0);
    FeedThen(d, [], parts, more, es);
  }

  // ----- the laws -----

  /** The last line without its newline: `core` without the returns that follow it. */
  predicate Unterminated(t: Bytes, core: Bytes) {
    && 10 !in core && (core == [] || core[|core| - 1] != 13)
    && |core| <= |t| && t[..|core|] == core && forall i :: |core| <= i < |t| ==> t[i] == 13
  }

  lemma {:induction false} StripUnterminated(t: Bytes, core: Bytes)
    requires Unterminated(t, core)
    ensures StripTail(t) == core && LF !in t
    decreases |t|
  {
    if |t| > |core| {
      var t' := t[..|t| - 1];
      assert t'[..|core|] == t[..|core|];
      StripUnterminated(t', core);
      assert t == t' + [13];
    } else {
      assert t == core;
      assert core != [] ==> core[|core| - 1] in core;
    }
  }

  /**
    A stream that ends: the events of its lines in order, however it is cut, and
    then the last line, if it lacks its newline and is not blank.
   */
  lemma {:induction false} StreamYields<E, X>(
    d: Decoder<E, X>, lines: seq<Line>, t: Bytes, core: Bytes, es: seq<E>, parts: seq<Bytes>)
    requires ValidLines(lines) && Unterminated(t, core) && Yields(d, lines, es)
    requires Concat(parts) == StreamText(lines) + t
    ensures Feed(d, [], Chunks(parts)) ==
      if core == [] then Outcome(es, None)
      else match d.tail(core)
        case Ok(e) => Outcome(es + [e], None)
        case Err(x) => Outcome(es, Some(BadFrame(x)))
  {
    hide ValidLines, Unterminated, Yields, StripTail, Feed, Concat;
    StripUnterminated(t, core);
    FeedStream(d, lines, t, es, parts, []);
    assert Chunks(parts) + [] == Chunks(parts);
    var none: seq<Chunk> := [];
    FeedEnd(d, t, none);
    assert es + [] == es;
  }

  /** A stream that breaks: the events of its complete lines, and the pending line is lost. */
  lemma {:induction false} BreakYields<E, X>(
    d: Decoder<E, X>, lines: seq<Line>, t: Bytes, es: seq<E>, parts: seq<Bytes>, later: seq<Chunk>)
    requires ValidLines(lines) && 10 !in t && Yields(d, lines, es)
    requires Concat(parts) == StreamText(lines) + t
    ensures Feed(d, [], Chunks(parts) + ([Broken] + later)) == Outcome(es, Some(Transport))
  {
    hide ValidLines, Yields, Concat;
    var more := [Broken] + later;
    FeedStream(d, lines, t, es, parts, more);
    assert more[0] == Broken && es + [] == es;
  }

  /** The first line that does not decode ends the stream, after some of the events before it. */
  lemma {:induction false} BadLineEnds<E, X>(
    d: Decoder<E, X>, lines: seq<Line>, bad: Line, later: Bytes, es: seq<E>, parts: seq<Bytes>)
    requires ValidLines(lines) && ValidLine(bad) && Yields(d, lines, es)
    requires bad.body != [] && d.line(bad.body).Err?
    requires Concat(parts) == StreamText(lines) + LineText(bad) + later
    ensures var o := Feed(d, [], Chunks(parts));
      o.error == Some(BadFrame(d.line(bad.body).error)) && o.events <= es
  {
    hide ValidLines, ValidLine, Yields, Concat, SplitLines, DecodeAll, GoodEvents, Feed, StripLast, LineText, Raw;
    var more := LineText(bad) + later;
    RawLine(bad);
    SplitStream(lines, []);
    DecodeStream(d, lines, es);
    assert StreamText(lines) + [] == StreamText(lines);
    assert [] + more == more && Concat(parts) == StreamText(lines) + more;
    SplitConcat(StreamText(lines), more);
    assert more == Raw(bad) + [LF] + later;
    OneLine(Raw(bad), later);
    var rest := SplitLines(later).lines;
    DecodeConcat(d, Raws(lines), [Raw(bad)] + rest);
    BadFirst(d, Raw(bad), rest);
    assert es + [] == es;
    ChunkIndependence(d, parts);
  }

  lemma {:induction false} BadFirst<E, X>(d: Decoder<E, X>, raw: Bytes, rest: seq<Bytes>)
    requires StripLast(raw, CR) != [] && d.line(StripLast(raw, CR)).Err?
    ensures DecodeAll(d, [raw] + rest) == Err(d.line(StripLast(raw, CR)).error) && GoodEvents(d, [raw] + rest) == []
  {
    hide StripLast;
    assert ([raw] + rest)[0] == raw;
  }
}
