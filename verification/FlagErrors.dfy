/** Which argument lists the flag parser rejects, and with which error, by the written words. */
module FlagErrors {
  import opened Base
  import opened Text
  import opened Flags
  import opened FlagsGrammar

  /** Three dashes, or an equals sign right after the dashes. */
  predicate IsBadWord(word: string) {
    "---" <= word || "-=" <= word || "--=" <= word
  }

  /** A well-formed item that is refused: no value left, a value of the wrong kind, or a name that is not known. */
  predicate Faulty(flags: seq<Flag>, tolerated: seq<string>, it: Item, after: seq<string>, e: FlagError) {
    && PlainName(it.name)
    && if Registered(flags, it.name) then
         var kind := flags[Find(flags, it.name)].kind;
         match it.given
         case Nothing => !kind.BoolKind? && after == [] && e == MissingValue(it.name)
         case Inline(v) => BadText(kind, it.name, v, e)
         case Next(v) => !kind.BoolKind? && BadText(kind, it.name, v, e)
       else
         && !it.given.Next?
         && if it.name == "help" || it.name == "h" then e == Help
            else it.name !in tolerated && e == UnknownFlag(it.name)
  }

  predicate BadText(kind: Kind, name: string, v: string, e: FlagError) {
    match kind
    case BoolKind => ParseBool(v).Err? && e == BadValue(name, v, ParseBool(v).error)
    case IntKind => ParseInt(v).Err? && e == BadValue(name, v, ParseInt(v).error)
    case _ => false
  }

  /** The words `bad` start with an error. */
  ghost predicate Wrong(flags: seq<Flag>, tolerated: seq<string>, bad: seq<string>, e: FlagError) {
    || (bad != [] && IsBadWord(bad[0]) && e == BadSyntax(bad[0]))
    || exists it, after :: WrongItem(flags, tolerated, bad, it, after, e)
  }

  predicate WrongItem(
    flags: seq<Flag>, tolerated: seq<string>, bad: seq<string>, it: Item, after: seq<string>, e: FlagError)
  {
    Words(it) + after == bad && Faulty(flags, tolerated, it, after, e)
  }

  /** The items may stand one after the other before the words `bad`. */
  predicate ItemsFit(flags: seq<Flag>, tolerated: seq<string>, items: seq<Item>, bad: seq<string>) {
    items == [] ||
    (Fits(flags, tolerated, items[0], Written(items[1..], Positional(bad)))
     && ItemsFit(flags, tolerated, items[1..], bad))
  }

  // ----- the first error -----

  lemma BadTextIsError(f: Flag, name: string, v: string, e: FlagError)
    ensures BadText(f.kind, name, v, e) <==>
      SetFlagValue(f, v).Err? && e == BadValue(name, v, SetFlagValue(f, v).error)
  {
    hide ParseBool, ParseInt;
  }

  lemma BadWordStep(flags: seq<Flag>, tolerated: seq<string>, args: seq<string>)
    requires args != []
    ensures IsBadWord(args[0]) <==> NextStep(flags, tolerated, args) == Fail(BadSyntax(args[0]), None)
  {
    hide NamedStep;
    var arg := args[0];
    if IsFlag(arg) {
      var body := BodyAt(arg);
      NamedNoSyntax(flags, tolerated, body, args[1..], arg);
    }
  }

  lemma NamedNoSyntax(flags: seq<Flag>, tolerated: seq<string>, body: string, rest: seq<string>, arg: string)
    ensures NamedStep(flags, tolerated, body, rest) != Fail(BadSyntax(arg), None)
  {
  }

  lemma NamedFaulty(flags: seq<Flag>, tolerated: seq<string>, it: Item, after: seq<string>, e: FlagError)
    requires Faulty(flags, tolerated, it, after, e)
    ensures var s := NamedStep(flags, tolerated, Body(it), (if it.given.Next? then [it.given.v] else []) + after);
      || s == Fail(e, if e == Help then Some(after) else None)
      || (s == Assign(Find(flags, it.name), it.name, Raw(it), after)
          && BadText(flags[Find(flags, it.name)].kind, it.name, Raw(it), e))
  {
    hide IndexOf, Find, ParseBool, ParseInt;
    BodySplits(it);
    hide Body;
    assert [] + after == after;
    if it.given.Next? {
      assert ([it.given.v] + after)[0] == it.given.v && ([it.given.v] + after)[1..] == after;
    }
  }

  /** A faulty item ends the parse with its error; only a request for help sets the remaining words. */
  lemma {:induction false} FaultyEnds(
    flags: seq<Flag>, tolerated: seq<string>, it: Item, after: seq<string>, e: FlagError)
    requires Faulty(flags, tolerated, it, after, e)
    ensures ParseArgs(flags, tolerated, Words(it) + after)
         == Parsed(flags, Some(e), if e == Help then Some(after) else None)
  {
    var body, next := Body(it), if it.given.Next? then [it.given.v] else [];
    BodySplits(it);
    NamedFaulty(flags, tolerated, it, after, e);
    hide NextStep, NamedStep, Find, Faulty, BadText, SetFlagValue;
    assert Words(it) + after == [Dashes(it.doubled) + body] + (next + after);
    if it.doubled {
      DoubleDash(flags, tolerated, body, next + after);
    } else {
      SingleDash(flags, tolerated, body, next + after);
    }
    var i := Find(flags, it.name);
    if i < |flags| {
      BadTextIsError(flags[i], it.name, Raw(it), e);
    }
  }

  /** The item that a refused body starts when the words `rest` follow. */
  function RefusedItem(flags: seq<Flag>, doubled: bool, body: string, rest: seq<string>): Item {
    var pos := IndexOf(body, '=');
    Item(doubled, body[..pos],
      if pos < |body| then Inline(body[pos + 1..])
      else if rest != [] && Registered(flags, body) && !flags[Find(flags, body)].kind.BoolKind? then Next(rest[0])
      else Nothing)
  }

  function RestOf(it: Item, rest: seq<string>): seq<string> {
    if it.given.Next? && rest != [] then rest[1..] else rest
  }

  lemma TrueIsBool()
    ensures ParseBool("true") == Ok(true)
  {
  }

  /** A failing step, or one whose value is refused, is that of a faulty item. */
  lemma {:induction false} NamedRefused(
    flags: seq<Flag>, tolerated: seq<string>, doubled: bool, body: string, rest: seq<string>, e: FlagError)
    requires body != [] && body[0] != '-' && body[0] != '='
    requires var s := NamedStep(flags, tolerated, body, rest);
      || (s.Fail? && s.error == e)
      || (s.Assign? && BadText(flags[s.idx].kind, s.name, s.raw, e))
    ensures var it := RefusedItem(flags, doubled, body, rest);
      && Faulty(flags, tolerated, it, RestOf(it, rest), e) && Body(it) == body
      && rest == (if it.given.Next? then [it.given.v] else []) + RestOf(it, rest)
  {
    hide Find, ParseBool, ParseInt, IndexOf, PlainName, Body;
    TrueIsBool();
    RefusedBody(flags, doubled, body, rest);
    assert IndexOf(body, '=') == |body| ==> body[..IndexOf(body, '=')] == body;
  }

  lemma {:induction false} RefusedBody(flags: seq<Flag>, doubled: bool, body: string, rest: seq<string>)
    requires body != [] && body[0] != '-' && body[0] != '='
    ensures var it := RefusedItem(flags, doubled, body, rest);
      && PlainName(it.name) && Body(it) == body
      && rest == (if it.given.Next? then [it.given.v] else []) + RestOf(it, rest)
  {
    hide Find, IndexOf, PlainName;
    NameIsPlain(body);
    var pos := IndexOf(body, '=');
    if pos < |body| {
      assert body == body[..pos] + "=" + body[pos + 1..];
    } else {
      assert body[..pos] == body;
    }
    assert rest != [] ==> rest == [rest[0]] + rest[1..];
    assert [] + rest == rest;
  }

  lemma FlagStepIsNamed(flags: seq<Flag>, tolerated: seq<string>, args: seq<string>)
    requires args != [] && !NextStep(flags, tolerated, args).Stop? && !IsBadWord(args[0])
    ensures IsFlag(args[0]) && args == [args[0]] + args[1..]
    ensures var body := BodyAt(args[0]);
      && body != [] && body[0] != '-' && body[0] != '=' && args[0] == Dashes(args[0][1] == '-') + body
      && NextStep(flags, tolerated, args) == NamedStep(flags, tolerated, body, args[1..])
  {
    hide NamedStep;
  }

  /** The loop stops with an error at its first step only where the words are wrong. */
  lemma {:induction false} ErrorIsWrong(flags: seq<Flag>, tolerated: seq<string>, args: seq<string>, e: FlagError)
    requires var s := NextStep(flags, tolerated, args);
      || (s.Fail? && s.error == e)
      || (s.Assign? && BadText(flags[s.idx].kind, s.name, s.raw, e))
    ensures Wrong(flags, tolerated, args, e)
  {
    hide NamedStep, Find, BadText, Faulty, IsBadWord, IndexOf, RefusedItem, RestOf;
    assert args != [];
    BadWordStep(flags, tolerated, args);
    if !IsBadWord(args[0]) {
      FlagStepIsNamed(flags, tolerated, args);
      var doubled, body := args[0][1] == '-', BodyAt(args[0]);
      NamedRefused(flags, tolerated, doubled, body, args[1..], e);
      var it := RefusedItem(flags, doubled, body, args[1..]);
      RefusedDoubled(flags, doubled, body, args[1..]);
      WordsOf(it, args[0], RestOf(it, args[1..]));
      assert WrongItem(flags, tolerated, args, it, RestOf(it, args[1..]), e);
    }
  }

  lemma RefusedDoubled(flags: seq<Flag>, doubled: bool, body: string, rest: seq<string>)
    ensures RefusedItem(flags, doubled, body, rest).doubled == doubled
  {
  }

  lemma {:induction false} WrongIsError(flags: seq<Flag>, tolerated: seq<string>, bad: seq<string>, e: FlagError)
    requires Wrong(flags, tolerated, bad, e)
    ensures ParseArgs(flags, tolerated, bad).error == Some(e) && ParseArgs(flags, tolerated, bad).flags == flags
  {
    hide NextStep, Faulty, SetFlagValue, Words, IsBadWord;
    if bad != [] && IsBadWord(bad[0]) && e == BadSyntax(bad[0]) {
      BadWordStep(flags, tolerated, bad);
    } else {
      var it, after :| WrongItem(flags, tolerated, bad, it, after, e);
      FaultyEnds(flags, tolerated, it, after, e);
    }
  }

  // ----- the rejected lists -----

  lemma {:induction false} ItemsFitSameShape(
    a: seq<Flag>, b: seq<Flag>, tolerated: seq<string>, items: seq<Item>, bad: seq<string>)
    requires SameShape(a, b)
    ensures ItemsFit(a, tolerated, items, bad) <==> ItemsFit(b, tolerated, items, bad)
    decreases |items|
  {
    if items != [] {
      ItemsFitSameShape(a, b, tolerated, items[1..], bad);
      FindSameShape(a, b, items[0].name);
    }
  }

  lemma {:induction false} WrongSameShape(
    a: seq<Flag>, b: seq<Flag>, tolerated: seq<string>, bad: seq<string>, e: FlagError)
    requires SameShape(a, b) && Wrong(a, tolerated, bad, e)
    ensures Wrong(b, tolerated, bad, e)
  {
    hide Words, IsBadWord, BadText;
    if !(bad != [] && IsBadWord(bad[0]) && e == BadSyntax(bad[0])) {
      var it, after :| WrongItem(a, tolerated, bad, it, after, e);
      FindSameShape(a, b, it.name);
      assert WrongItem(b, tolerated, bad, it, after, e);
    }
  }

  /** Fitting items and then an error: that error is reported. */
  lemma {:induction false} WrittenIsRejected(
    flags: seq<Flag>, tolerated: seq<string>, items: seq<Item>, bad: seq<string>, e: FlagError)
    requires ItemsFit(flags, tolerated, items, bad) && Wrong(flags, tolerated, bad, e)
    ensures ParseArgs(flags, tolerated, Written(items, Positional(bad))).error == Some(e)
    decreases |items|
  {
    hide Find, SetFlagValue, Words, Fits, ValueFits, Wrong;
    if items == [] {
      WrongIsError(flags, tolerated, bad, e);
    } else {
      var it, after := items[0], Written(items[1..], Positional(bad));
      ItemStep(flags, tolerated, it, after);
      hide NextStep;
      if Registered(flags, it.name) {
        var idx := Find(flags, it.name);
        FitsValue(flags, tolerated, it, after);
        ValueIsSet(flags[idx], Raw(it));
        var flags' := flags[idx := SetFlagValue(flags[idx], Raw(it)).value.(setByCli := true)];
        SetKeepsShape(flags, idx, Raw(it));
        ItemsFitSameShape(flags, flags', tolerated, items[1..], bad);
        WrongSameShape(flags, flags', tolerated, bad, e);
        WrittenIsRejected(flags', tolerated, items[1..], bad, e);
      } else {
        WrittenIsRejected(flags, tolerated, items[1..], bad, e);
      }
    }
  }

  /** Every rejected list is fitting items and then its error. */
  lemma {:induction false} RejectedIsWritten(
    flags: seq<Flag>, tolerated: seq<string>, args: seq<string>, e: FlagError)
    returns (items: seq<Item>, bad: seq<string>)
    requires ParseArgs(flags, tolerated, args).error == Some(e)
    ensures ItemsFit(flags, tolerated, items, bad) && Wrong(flags, tolerated, bad, e)
    ensures Written(items, Positional(bad)) == args
    decreases |args|
  {
    hide Find, NextStep, SetFlagValue, Fits, Words, ValueFits, Wrong, BadText;
    var s := NextStep(flags, tolerated, args);
    if s.Assign? {
      ValueIsSet(flags[s.idx], s.raw);
      BadTextIsError(flags[s.idx], s.name, s.raw, e);
    }
    if s.Fail? || (s.Assign? && SetFlagValue(flags[s.idx], s.raw).Err?) {
      ErrorIsWrong(flags, tolerated, args, e);
      items, bad := [], args;
    } else {
      var flags' := flags;
      if s.Assign? {
        flags' := flags[s.idx := SetFlagValue(flags[s.idx], s.raw).value.(setByCli := true)];
        SetKeepsShape(flags, s.idx, s.raw);
      }
      StepItem(flags, tolerated, args);
      var later;
      later, bad := RejectedIsWritten(flags', tolerated, s.rest, e);
      ItemsFitSameShape(flags, flags', tolerated, later, bad);
      WrongBack(flags, flags', tolerated, bad, e);
      items := [ItemAt(flags, args)] + later;
      assert items[0] == ItemAt(flags, args) && items[1..] == later;
    }
  }

  lemma {:induction false} WrongBack(
    a: seq<Flag>, b: seq<Flag>, tolerated: seq<string>, bad: seq<string>, e: FlagError)
    requires SameShape(a, b) && Wrong(b, tolerated, bad, e)
    ensures Wrong(a, tolerated, bad, e)
  {
    hide Wrong;
    WrongSameShape(b, a, tolerated, bad, e);
  }

  /** The list is fitting items and then an error. */
  ghost predicate Rejects(
    flags: seq<Flag>, tolerated: seq<string>, args: seq<string>, items: seq<Item>, bad: seq<string>, e: FlagError)
  {
    && Written(items, Positional(bad)) == args
    && ItemsFit(flags, tolerated, items, bad) && Wrong(flags, tolerated, bad, e)
  }

  /** An error is reported exactly for the lists whose first item that does not fit has it. */
  lemma {:induction false} RejectedLanguage(flags: seq<Flag>, tolerated: seq<string>, args: seq<string>, e: FlagError)
    ensures ParseArgs(flags, tolerated, args).error == Some(e) <==>
      exists items, bad :: Rejects(flags, tolerated, args, items, bad, e)
  {
    hide ParseArgs, ItemsFit, Wrong, Written;
    if ParseArgs(flags, tolerated, args).error == Some(e) {
      var items, bad := RejectedIsWritten(flags, tolerated, args, e);
      assert Rejects(flags, tolerated, args, items, bad, e);
    }
    forall items, bad | Rejects(flags, tolerated, args, items, bad, e)
      ensures ParseArgs(flags, tolerated, args).error == Some(e)
    {
      WrittenIsRejected(flags, tolerated, items, bad, e);
    }
  }
}
