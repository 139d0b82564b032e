/**
  Which argument lists the flag parser accepts, as a grammar of the written
  words that does not mention the parser.
 */
module FlagsGrammar {
  import opened Base
  import opened Text
  import opened Flags

  /** How a flag is given its value: after an equals sign, by the next word, or not at all. */
  datatype Given = Inline(v: string) | Next(v: string) | Nothing

  datatype Item = Item(doubled: bool, name: string, given: Given)

  /** What ends the flags: a positional word or the end of the list, or two dashes alone. */
  datatype End = Positional(rest: seq<string>) | Terminated(rest: seq<string>)

  function Dashes(doubled: bool): string {
    if doubled then "--" else "-"
  }

  function Words(it: Item): seq<string> {
    match it.given
    case Inline(v) => [Dashes(it.doubled) + (it.name + "=" + v)]
    case Next(v) => [Dashes(it.doubled) + it.name, v]
    case Nothing => [Dashes(it.doubled) + it.name]
  }

  function Written(items: seq<Item>, end: End): seq<string> {
    if items != [] then Words(items[0]) + Written(items[1..], end)
    else match end
      case Positional(rest) => rest
      case Terminated(rest) => ["--"] + rest
  }

  predicate StartsWithDash(word: string) {
    word != [] && word[0] == '-'
  }

  /** The raw text is a value of the kind. */
  predicate ValueFits(kind: Kind, raw: string) {
    match kind
    case BoolKind => ParseBool(raw).Ok?
    case IntKind => ParseInt(raw).Ok?
    case _ => true
  }

  predicate Registered(flags: seq<Flag>, name: string) {
    Find(flags, name) < |flags|
  }

  /** The raw value an item stands for; a bool flag alone means true. */
  function Raw(it: Item): string {
    match it.given
    case Inline(v) => v
    case Next(v) => v
    case Nothing => "true"
  }

  /**
    The item may stand before the words `after`: a registered flag with a value of
    its kind, bool flags never taking the next word and others never alone; or a
    tolerated unknown name, which takes the next word unless that has a dash.
   */
  predicate Fits(flags: seq<Flag>, tolerated: seq<string>, it: Item, after: seq<string>) {
    && PlainName(it.name)
    && if Registered(flags, it.name) then
         var kind := flags[Find(flags, it.name)].kind;
         && (if kind.BoolKind? then !it.given.Next? else !it.given.Nothing?)
         && ValueFits(kind, Raw(it))
       else
         && it.name in tolerated && it.name != "help" && it.name != "h"
         && (it.given.Next? ==> !StartsWithDash(it.given.v))
         && (it.given.Nothing? ==> after == [] || StartsWithDash(after[0]))
  }

  predicate Grammatical(flags: seq<Flag>, tolerated: seq<string>, items: seq<Item>, end: End) {
    if items == [] then end.Positional? ==> end.rest == [] || !IsFlag(end.rest[0])
    else Fits(flags, tolerated, items[0], Written(items[1..], end)) && Grammatical(flags, tolerated, items[1..], end)
  }

  /** The name/value pairs of the registered items, in order. */
  function PairsOf(flags: seq<Flag>, items: seq<Item>): seq<Pair> {
    if items == [] then []
    else if Registered(flags, items[0].name) then
      [Pair(Find(flags, items[0].name), Raw(items[0]))] + PairsOf(flags, items[1..])
    else PairsOf(flags, items[1..])
  }

  // ----- one item -----

  /** The step that an item stands for. */
  function StepOf(flags: seq<Flag>, it: Item, after: seq<string>): Step {
    if Registered(flags, it.name) then Assign(Find(flags, it.name), it.name, Raw(it), after) else Skip(after)
  }

  function Body(it: Item): string {
    if it.given.Inline? then it.name + "=" + it.given.v else it.name
  }

  lemma BodySplits(it: Item)
    requires PlainName(it.name)
    ensures var body := Body(it);
      && body != [] && body[0] == it.name[0] && body[0] != '=' && IndexOf(body, '=') == |it.name|
      && body[..|it.name|] == it.name
      && (it.given.Inline? <==> |it.name| < |body|)
      && (it.given.Inline? ==> body[|it.name| + 1..] == it.given.v)
  {
    var body := Body(it);
    if it.given.Inline? {
      assert body == it.name + ['='] + it.given.v;
      IndexOfConcat(it.name, '=', it.given.v);
    } else {
      IndexOfAbsent(it.name, '=');
    }
  }

  lemma NamedItem(flags: seq<Flag>, tolerated: seq<string>, it: Item, after: seq<string>)
    requires Fits(flags, tolerated, it, after)
    ensures NamedStep(flags, tolerated, Body(it), (if it.given.Next? then [it.given.v] else []) + after) ==
      StepOf(flags, it, after)
  {
    hide IndexOf, Find, ParseBool, ParseInt;
    BodySplits(it);
    hide Body;
    assert [] + after == after;
    if it.given.Next? {
      assert ([it.given.v] + after)[0] == it.given.v && ([it.given.v] + after)[1..] == after;
    }
  }

  /** The loop takes exactly the words of a fitting item. */
  lemma ItemStep(flags: seq<Flag>, tolerated: seq<string>, it: Item, after: seq<string>)
    requires Fits(flags, tolerated, it, after)
    ensures NextStep(flags, tolerated, Words(it) + after) == StepOf(flags, it, after)
  {
    var body, next := Body(it), if it.given.Next? then [it.given.v] else [];
    BodySplits(it);
    NamedItem(flags, tolerated, it, after);
    hide NextStep, NamedStep, Find, Fits, StepOf;
    assert Words(it) + after == [Dashes(it.doubled) + body] + (next + after);
    if it.doubled {
      DoubleDash(flags, tolerated, body, next + after);
    } else {
      SingleDash(flags, tolerated, body, next + after);
    }
  }

  function BodyAt(arg: string): string
    requires IsFlag(arg)
  {
    arg[if arg[1] == '-' then 2 else 1..]
  }

  /** How the name that starts a body gets its value when the words `rest` follow. */
  function GivenAt(flags: seq<Flag>, body: string, rest: seq<string>): Given {
    var pos := IndexOf(body, '=');
    if pos < |body| then Inline(body[pos + 1..])
    else if rest == [] then Nothing
    else if Registered(flags, body) then
      if flags[Find(flags, body)].kind.BoolKind? then Nothing else Next(rest[0])
    else if StartsWithDash(rest[0]) then Nothing else Next(rest[0])
  }

  /** The item that a word with one or two dashes starts. */
  function ItemAt(flags: seq<Flag>, args: seq<string>): Item
    requires args != [] && IsFlag(args[0])
  {
    var body := BodyAt(args[0]);
    Item(args[0][1] == '-', body[..IndexOf(body, '=')], GivenAt(flags, body, args[1..]))
  }

  lemma {:induction false} NamedStepItem(
    flags: seq<Flag>, tolerated: seq<string>, doubled: bool, body: string, rest: seq<string>)
    requires body != [] && body[0] != '-' && body[0] != '='
    requires var s := NamedStep(flags, tolerated, body, rest);
      s.Skip? || (s.Assign? && ValueFits(flags[s.idx].kind, s.raw))
    ensures var s := NamedStep(flags, tolerated, body, rest);
      var it := Item(doubled, body[..IndexOf(body, '=')], GivenAt(flags, body, rest));
      && Fits(flags, tolerated, it, s.rest) && Body(it) == body
      && rest == (if it.given.Next? then [it.given.v] else []) + s.rest
  {
    hide Find, ParseBool, ParseInt;
    NameIsPlain(body);
    var pos := IndexOf(body, '=');
    if pos < |body| {
      assert body == body[..pos] + "=" + body[pos + 1..];
    } else {
      assert body[..pos] == body;
    }
    hide IndexOf, PlainName;
    assert rest != [] ==> rest == [rest[0]] + rest[1..];
    assert [] + rest == rest;
  }

  lemma StepIsNamed(flags: seq<Flag>, tolerated: seq<string>, args: seq<string>)
    requires NextStep(flags, tolerated, args).Skip? || NextStep(flags, tolerated, args).Assign?
    ensures args != [] && IsFlag(args[0]) && args == [args[0]] + args[1..]
    ensures var body := BodyAt(args[0]);
      && body != [] && body[0] != '-' && body[0] != '=' && args[0] == Dashes(args[0][1] == '-') + body
      && NextStep(flags, tolerated, args) == NamedStep(flags, tolerated, body, args[1..])
  {
    hide NamedStep;
  }

  /** Every step that the loop takes with a good value is the step of a fitting item. */
  lemma StepItem(flags: seq<Flag>, tolerated: seq<string>, args: seq<string>)
    requires var s := NextStep(flags, tolerated, args);
      s.Skip? || (s.Assign? && ValueFits(flags[s.idx].kind, s.raw))
    ensures args != [] && IsFlag(args[0])
    ensures var s, it := NextStep(flags, tolerated, args), ItemAt(flags, args);
      Fits(flags, tolerated, it, s.rest) && args == Words(it) + s.rest
  {
    StepIsNamed(flags, tolerated, args);
    hide NextStep, NamedStep, Find, IndexOf, ValueFits, Fits, GivenAt, BodyAt, Words, Body, Dashes, IsFlag;
    var it, rest := ItemAt(flags, args), args[1..];
    NamedStepItem(flags, tolerated, it.doubled, BodyAt(args[0]), rest);
    WordsOf(it, args[0], NextStep(flags, tolerated, args).rest);
  }

  lemma WordsOf(it: Item, arg: string, after: seq<string>)
    requires arg == Dashes(it.doubled) + Body(it)
    ensures Words(it) + after == [arg] + ((if it.given.Next? then [it.given.v] else []) + after)
  {
    hide Dashes;
    assert [] + after == after;
  }

  lemma {:induction false} NameIsPlain(body: string)
    requires body != [] && body[0] != '-' && body[0] != '='
    ensures PlainName(body[..IndexOf(body, '=')])
  {
  }

  // ----- the whole list -----

  lemma {:induction false} GrammarSameShape(
    a: seq<Flag>, b: seq<Flag>, tolerated: seq<string>, items: seq<Item>, end: End)
    requires SameShape(a, b)
    ensures Grammatical(a, tolerated, items, end) <==> Grammatical(b, tolerated, items, end)
    ensures PairsOf(a, items) == PairsOf(b, items)
    decreases |items|
  {
    if items == [] {
    } else {
      GrammarSameShape(a, b, tolerated, items[1..], end);
      FindSameShape(a, b, items[0].name);
    }
  }

  lemma ValueIsSet(f: Flag, raw: string)
    ensures SetFlagValue(f, raw).Ok? <==> ValueFits(f.kind, raw)
  {
  }

  /** A grammatical list is accepted, with the pairs and the remaining words it was written with. */
  lemma {:induction false} WrittenIsAccepted(flags: seq<Flag>, tolerated: seq<string>, items: seq<Item>, end: End)
    requires Grammatical(flags, tolerated, items, end)
    ensures var args := Written(items, end);
      var p := ParseArgs(flags, tolerated, args);
      p.error == None && p.remaining == Some(end.rest) && Pairs(flags, tolerated, args) == PairsOf(flags, items)
    decreases |items|
  {
    hide Find, SetFlagValue, Words, Fits, ValueFits;
    if items == [] {
      EndStops(flags, tolerated, end);
    } else {
      var it, after := items[0], Written(items[1..], end);
      ItemStep(flags, tolerated, it, after);
      hide NextStep;
      if Registered(flags, it.name) {
        var idx := Find(flags, it.name);
        FitsValue(flags, tolerated, it, after);
        ValueIsSet(flags[idx], Raw(it));
        var flags' := flags[idx := SetFlagValue(flags[idx], Raw(it)).value.(setByCli := true)];
        SetKeepsShape(flags, idx, Raw(it));
        GrammarSameShape(flags, flags', tolerated, items[1..], end);
        PairsSameShape(flags, flags', tolerated, after);
        WrittenIsAccepted(flags', tolerated, items[1..], end);
      } else {
        WrittenIsAccepted(flags, tolerated, items[1..], end);
      }
    }
  }

  lemma {:induction false} FitsValue(flags: seq<Flag>, tolerated: seq<string>, it: Item, after: seq<string>)
    requires Fits(flags, tolerated, it, after) && Registered(flags, it.name)
    ensures ValueFits(flags[Find(flags, it.name)].kind, Raw(it))
  {
  }

  lemma {:induction false} EndStops(flags: seq<Flag>, tolerated: seq<string>, end: End)
    requires Grammatical(flags, tolerated, [], end)
    ensures NextStep(flags, tolerated, Written([], end)) == Stop(end.rest)
  {
    if end.Terminated? {
      assert (["--"] + end.rest)[0] == "--" && (["--"] + end.rest)[1..] == end.rest;
    }
  }

  lemma StopEnds(flags: seq<Flag>, tolerated: seq<string>, args: seq<string>) returns (end: End)
    requires NextStep(flags, tolerated, args).Stop?
    ensures Grammatical(flags, tolerated, [], end) && Written([], end) == args
  {
    if args == [] || !IsFlag(args[0]) {
      end := Positional(args);
    } else {
      end := Terminated(args[1..]);
      assert args[0] == "--" && args == ["--"] + args[1..];
    }
  }

  /** Every accepted list is grammatical. */
  lemma {:induction false} AcceptedIsWritten(flags: seq<Flag>, tolerated: seq<string>, args: seq<string>)
    returns (items: seq<Item>, end: End)
    requires ParseArgs(flags, tolerated, args).error == None
    ensures Grammatical(flags, tolerated, items, end) && Written(items, end) == args
    decreases |args|
  {
    hide Find, NextStep, SetFlagValue, Fits, Words, ValueFits;
    var s := NextStep(flags, tolerated, args);
    if s.Stop? {
      items := [];
      end := StopEnds(flags, tolerated, args);
    } else {
      var flags' := flags;
      if s.Assign? {
        ValueIsSet(flags[s.idx], s.raw);
        flags' := flags[s.idx := SetFlagValue(flags[s.idx], s.raw).value.(setByCli := true)];
        SetKeepsShape(flags, s.idx, s.raw);
      }
      StepItem(flags, tolerated, args);
      var later;
      later, end := AcceptedIsWritten(flags', tolerated, s.rest);
      GrammarSameShape(flags, flags', tolerated, later, end);
      items := [ItemAt(flags, args)] + later;
      assert items[0] == ItemAt(flags, args) && items[1..] == later;
    }
  }

  /** The list is written by the items and the end, and these obey the grammar. */
  ghost predicate Parses(flags: seq<Flag>, tolerated: seq<string>, args: seq<string>, items: seq<Item>, end: End) {
    Grammatical(flags, tolerated, items, end) && Written(items, end) == args
  }

  /**
    The accepted lists are exactly the grammatical ones.  However an accepted list
    is read by the grammar, its pairs and its remaining words are the parser's.
   */
  lemma {:induction false} AcceptedLanguage(flags: seq<Flag>, tolerated: seq<string>, args: seq<string>)
    ensures ParseArgs(flags, tolerated, args).error == None <==>
      exists items, end :: Parses(flags, tolerated, args, items, end)
    ensures forall items, end :: Parses(flags, tolerated, args, items, end) ==>
      && Pairs(flags, tolerated, args) == PairsOf(flags, items)
      && ParseArgs(flags, tolerated, args).remaining == Some(end.rest)
  {
    hide ParseArgs, Pairs, PairsOf, Grammatical, Written;
    if ParseArgs(flags, tolerated, args).error == None {
      var items, end := AcceptedIsWritten(flags, tolerated, args);
      assert Parses(flags, tolerated, args, items, end);
    }
    forall items, end | Parses(flags, tolerated, args, items, end)
      ensures ParseArgs(flags, tolerated, args).error == None
      ensures Pairs(flags, tolerated, args) == PairsOf(flags, items)
      ensures ParseArgs(flags, tolerated, args).remaining == Some(end.rest)
    {
      WrittenIsAccepted(flags, tolerated, items, end);
    }
  }
}
