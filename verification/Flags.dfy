/** The command-line parser, compatible with Go's `flag` package. */
module Flags {
  import opened Base
  import opened Text

  datatype Kind = BoolKind | IntKind | StrKind | SliceKind

  datatype Value = BoolValue(b: bool) | IntValue(n: int) | StrValue(s: string) | SliceValue(items: seq<string>)

  datatype Flag = Flag(name: string, kind: Kind, value: Value, setByCli: bool)

  datatype Reason = InvalidSyntax | OutOfRange

  datatype FlagError =
    | UnknownFlag(name: string)
    | BadValue(name: string, value: string, reason: Reason)
    | MissingValue(name: string)
    | BadSyntax(arg: string)
    | Help

  // ----- values -----

  function ParseBool(s: string): Result<bool, Reason> {
    if s in {"1", "t", "T", "TRUE", "true", "True"} then Ok(true)
    else if s in {"0", "f", "F", "FALSE", "false", "False"} then Ok(false)
    else Err(InvalidSyntax)
  }

  const I64_MAX := 0x7FFF_FFFF_FFFF_FFFF
  const I64_MIN := -0x8000_0000_0000_0000

  function Digit(c: char): int {
    if '0' <= c <= '9' then c as int - '0' as int
    else if 'a' <= c <= 'z' then c as int - 'a' as int + 10
    else if 'A' <= c <= 'Z' then c as int - 'A' as int + 10
    else 36
  }

  /** Digits accumulated from the left; the first bad digit or overflow decides. */
  function Accumulate(acc: int, digits: string, radix: int, negative: bool): Result<int, Reason>
    decreases |digits|
  {
    if digits == [] then Ok(acc)
    else if Digit(digits[0]) >= radix then Err(InvalidSyntax)
    else
      var next := if negative then acc * radix - Digit(digits[0]) else acc * radix + Digit(digits[0]);
      if I64_MIN <= next <= I64_MAX then Accumulate(next, digits[1..], radix, negative) else Err(OutOfRange)
  }

  function FromStrRadix(s: string, radix: int): Result<int, Reason> {
    var signed := s != [] && (s[0] == '+' || s[0] == '-');
    var digits := if signed then s[1..] else s;
    if digits == [] then Err(InvalidSyntax) else Accumulate(0, digits, radix, signed && s[0] == '-')
  }

  /** Length and radix of a `0x`, `0o` or `0b` mark in either case; a bare leading 0 means octal. */
  function MarkAt(body: string): (m: (nat, nat))
    ensures m.0 <= |body|
  {
    var p := if |body| >= 2 && body[0] == '0' then body[1] else '_';
    if p == 'x' || p == 'X' then (2, 16)
    else if p == 'o' || p == 'O' then (2, 8)
    else if p == 'b' || p == 'B' then (2, 2)
    else if |body| > 1 && body[0] == '0' then (1, 8)
    else (0, 10)
  }

  /** Sign, mark and digits. */
  function ParseInt(s: string): Result<int, Reason> {
    var signed := s != [] && (s[0] == '+' || s[0] == '-');
    var sign, body := if signed then s[..1] else "", if signed then s[1..] else s;
    if body == [] then Err(InvalidSyntax)
    else
      var (skip, radix) := MarkAt(body);
      if body[skip..] == [] then Err(InvalidSyntax) else FromStrRadix(sign + body[skip..], radix)
  }

  function SetFlagValue(f: Flag, raw: string): Result<Flag, Reason> {
    match f.kind
    case BoolKind =>
      var b := ParseBool(raw);
      if b.Ok? then Ok(f.(value := BoolValue(b.value))) else Err(b.error)
    case IntKind =>
      var n := ParseInt(raw);
      if n.Ok? then Ok(f.(value := IntValue(n.value))) else Err(n.error)
    case StrKind => Ok(f.(value := StrValue(raw)))
    case SliceKind =>
      Ok(if f.value.SliceValue? then f.(value := SliceValue(f.value.items + [raw])) else f)
  }

  // ----- one argument -----

  function Find(flags: seq<Flag>, name: string): (i: nat)
    ensures i <= |flags|
    ensures i < |flags| ==> flags[i].name == name
    ensures forall j :: 0 <= j < i ==> flags[j].name != name
  {
    FirstIndex(flags, (f: Flag) => f.name == name)
  }

  predicate IsFlag(arg: string) {
    |arg| >= 2 && arg[0] == '-'
  }

  /** What the loop does at an argument position; it does not depend on the values of the flags. */
  datatype Step =
    | Stop(rest: seq<string>)
    | Fail(error: FlagError, remaining: Option<seq<string>>)
    | Assign(idx: nat, name: string, raw: string, rest: seq<string>)
    | Skip(rest: seq<string>)

  function NextStep(flags: seq<Flag>, tolerated: seq<string>, args: seq<string>): (s: Step)
    ensures s.Assign? ==> s.idx < |flags| && flags[s.idx].name == s.name
    ensures (s.Assign? || s.Skip?) ==> |s.rest| < |args|
  {
    if args == [] || !IsFlag(args[0]) then Stop(args)
    else
      var arg := args[0];
      var minuses := if arg[1] == '-' then 2 else 1;
      if arg[1] == '-' && |arg| == 2 then Stop(args[1..])
      else
        var body := arg[minuses..];
        if body == [] || body[0] == '-' || body[0] == '=' then Fail(BadSyntax(arg), None)
        else NamedStep(flags, tolerated, body, args[1..])
  }

  function NamedStep(flags: seq<Flag>, tolerated: seq<string>, body: string, rest: seq<string>): (s: Step)
    ensures s.Assign? ==> s.idx < |flags| && flags[s.idx].name == s.name
    ensures !s.Stop? && (s.Assign? || s.Skip? ==> |s.rest| <= |rest|)
  {
    var pos := IndexOf(body, '=');
    var hasValue := pos < |body|;
    var name := body[..pos];
    var inline := if hasValue then body[pos + 1..] else "";
    var idx := Find(flags, name);
    if idx < |flags| then
      if flags[idx].kind.BoolKind? then Assign(idx, name, if hasValue then inline else "true", rest)
      else if hasValue then Assign(idx, name, inline, rest)
      else if rest != [] then Assign(idx, name, rest[0], rest[1..])
      else Fail(MissingValue(name), None)
    else if name == "help" || name == "h" then Fail(Help, Some(rest))
    else if name in tolerated then
      if !hasValue && rest != [] && (rest[0] == [] || rest[0][0] != '-') then Skip(rest[1..]) else Skip(rest)
    else Fail(UnknownFlag(name), None)
  }

  /** Flags after the loop, the error, and the remaining arguments when the loop sets them. */
  datatype Parsed = Parsed(flags: seq<Flag>, error: Option<FlagError>, remaining: Option<seq<string>>)

  function ParseArgs(flags: seq<Flag>, tolerated: seq<string>, args: seq<string>): Parsed
    decreases |args|
  {
    match NextStep(flags, tolerated, args)
    case Stop(rest) => Parsed(flags, None, Some(rest))
    case Fail(e, remaining) => Parsed(flags, Some(e), remaining)
    case Skip(rest) => ParseArgs(flags, tolerated, rest)
    case Assign(idx, name, raw, rest) =>
      match SetFlagValue(flags[idx], raw)
      case Err(reason) => Parsed(flags, Some(BadValue(name, raw, reason)), None)
      case Ok(f) => ParseArgs(flags[idx := f.(setByCli := true)], tolerated, rest)
  }

  class FlagSet {
    var flags: seq<Flag>
    var remaining: seq<string>
    const toleratedUnknown: seq<string>

    constructor (flags: seq<Flag>, toleratedUnknown: seq<string>)
      ensures this.flags == flags && remaining == [] && this.toleratedUnknown == toleratedUnknown
    {
      this.flags, remaining, this.toleratedUnknown := flags, [], toleratedUnknown;
    }

    /** The index loop over the arguments. */
    method Parse(args: seq<string>) returns (r: Result<(), FlagError>)
      modifies this
      ensures var p := ParseArgs(old(flags), toleratedUnknown, args);
        && flags == p.flags
        && remaining == (if p.remaining.Some? then p.remaining.value else old(remaining))
        && r == (if p.error.Some? then Err(p.error.value) else Ok(()))
    {
      hide NamedStep, SetFlagValue;
      var i := 0;
      while i < |args|
        invariant 0 <= i <= |args| && remaining == old(remaining)
        invariant ParseArgs(flags, toleratedUnknown, args[i..]) == ParseArgs(old(flags), toleratedUnknown, args)
        decreases |args| - i
      {
        var arg := args[i];
        ghost var here := args[i..];
        assert here[0] == arg && here[1..] == args[i + 1..];
        if !IsFlag(arg) {
          break;
        }
        var minuses := 1;
        if arg[1] == '-' {
          minuses := 2;
          if |arg| == 2 {
            i := i + 1;
            remaining := args[i..];
            return Ok(());
          }
        }
        var body := arg[minuses..];
        if body == [] || body[0] == '-' || body[0] == '=' {
          return Err(BadSyntax(arg));
        }
        i := i + 1;
        assert NextStep(flags, toleratedUnknown, here) == NamedStep(flags, toleratedUnknown, body, args[i..]);
        assert i < |args| ==> args[i..][0] == args[i] && args[i..][1..] == args[i + 1..];
        var step;
        step, i := ApplyNamed(body, args, i);
        match step {
          case Some(e) => return Err(e);
          case None =>
        }
      }
      remaining := args[i..];
      r := Ok(());
    }

    /** The second half of the loop body: look the name up, take a value, set the flag. */
    method ApplyNamed(body: string, args: seq<string>, i: nat) returns (error: Option<FlagError>, i': nat)
      requires i <= |args|
      modifies this
      ensures i <= i' <= |args|
      ensures match NamedStep(old(flags), toleratedUnknown, body, args[i..])
        case Fail(e, rem) =>
          && error == Some(e) && flags == old(flags)
          && remaining == (if rem.Some? then rem.value else old(remaining))
        case Skip(rest) => error == None && flags == old(flags) && remaining == old(remaining) && args[i'..] == rest
        case Stop(_) => true
        case Assign(idx, name, raw, rest) =>
          && remaining == old(remaining)
          && match SetFlagValue(old(flags)[idx], raw)
             case Err(reason) => error == Some(BadValue(name, raw, reason)) && flags == old(flags)
             case Ok(f) => error == None && flags == old(flags)[idx := f.(setByCli := true)] && args[i'..] == rest
    {
      hide IndexOf, Find, SetFlagValue;
      assert i < |args| ==> args[i] == args[i..][0] && args[i + 1..] == args[i..][1..];
      i' := i;
      var pos := IndexOf(body, '=');
      var hasValue, name := pos < |body|, body[..pos];
      var inline := if hasValue then body[pos + 1..] else "";
      var idx := Find(flags, name);
      if idx < |flags| {
        var raw;
        if flags[idx].kind.BoolKind? {
          raw := if hasValue then inline else "true";
        } else if hasValue {
          raw := inline;
        } else if i' < |args| {
          raw := args[i'];
          i' := i' + 1;
        } else {
          return Some(MissingValue(name)), i';
        }
        var updated := SetFlagValue(flags[idx], raw);
        if updated.Err? {
          return Some(BadValue(name, raw, updated.error)), i';
        }
        flags := flags[idx := updated.value.(setByCli := true)];
      } else if name == "help" || name == "h" {
        remaining := args[i'..];
        return Some(Help), i';
      } else if name in toleratedUnknown {
        if !hasValue && i' < |args| && (args[i'] == [] || args[i'][0] != '-') {
          i' := i' + 1;
        }
      } else {
        return Some(UnknownFlag(name)), i';
      }
      error := None;
    }
  }

  // ----- values are the fold of the name/value pairs -----

  datatype Pair = Pair(idx: nat, raw: string)

  /** Names and kinds, the part of a flag that parsing does not change. */
  ghost predicate SameShape(a: seq<Flag>, b: seq<Flag>) {
    |a| == |b| && forall i :: 0 <= i < |a| ==> a[i].name == b[i].name && a[i].kind == b[i].kind
  }

  lemma SetKeepsShape(flags: seq<Flag>, idx: nat, raw: string)
    requires idx < |flags| && SetFlagValue(flags[idx], raw).Ok?
    ensures SameShape(flags, flags[idx := SetFlagValue(flags[idx], raw).value.(setByCli := true)])
  {
  }

  lemma FindSameShape(a: seq<Flag>, b: seq<Flag>, name: string)
    requires SameShape(a, b)
    ensures Find(a, name) == Find(b, name)
  {
    var i, j := Find(a, name), Find(b, name);
    assert i < j || j < i || i == j;
  }

  lemma StepSameShape(a: seq<Flag>, b: seq<Flag>, tolerated: seq<string>, args: seq<string>)
    requires SameShape(a, b)
    ensures NextStep(a, tolerated, args) == NextStep(b, tolerated, args)
  {
    if NextStep(a, tolerated, args) != NextStep(b, tolerated, args) {
      var arg := args[0];
      var body := arg[if arg[1] == '-' then 2 else 1..];
      FindSameShape(a, b, body[..IndexOf(body, '=')]);
    }
  }

  /** The name/value pairs of an argument list, in order, and the arguments left over. */
  function Pairs(flags: seq<Flag>, tolerated: seq<string>, args: seq<string>): seq<Pair>
    decreases |args|
  {
    match NextStep(flags, tolerated, args)
    case Stop(_) => []
    case Fail(_, _) => []
    case Skip(rest) => Pairs(flags, tolerated, rest)
    case Assign(idx, _, raw, rest) => [Pair(idx, raw)] + Pairs(flags, tolerated, rest)
  }

  lemma {:induction false} PairsSameShape(a: seq<Flag>, b: seq<Flag>, tolerated: seq<string>, args: seq<string>)
    requires SameShape(a, b)
    ensures Pairs(a, tolerated, args) == Pairs(b, tolerated, args)
    decreases |args|
  {
    hide NextStep, SameShape;
    StepSameShape(a, b, tolerated, args);
    match NextStep(a, tolerated, args) {
      case Skip(rest) => PairsSameShape(a, b, tolerated, rest);
      case Assign(_, _, _, rest) => PairsSameShape(a, b, tolerated, rest);
      case _ =>
    }
  }

  /** The raw values given for flag `k`, in order. */
  function RawsFor(pairs: seq<Pair>, k: nat): seq<string> {
    if pairs == [] then []
    else if pairs[0].idx == k then [pairs[0].raw] + RawsFor(pairs[1..], k)
    else RawsFor(pairs[1..], k)
  }

  /** A slice collects all raw values; any other flag has the value of the last one. */
  ghost predicate FinalValue(f: Flag, raws: seq<string>, v: Value) {
    if raws == [] then v == f.value
    else
      var last := raws[|raws| - 1];
      match f.kind
      case BoolKind => ParseBool(last).Ok? && v == BoolValue(ParseBool(last).value)
      case IntKind => ParseInt(last).Ok? && v == IntValue(ParseInt(last).value)
      case StrKind => v == StrValue(last)
      case SliceKind => v == if f.value.SliceValue? then SliceValue(f.value.items + raws) else f.value
  }

  lemma FinalValueStep(f: Flag, f': Flag, raw: string, raws: seq<string>, v: Value)
    requires SetFlagValue(f, raw) == Ok(f') && FinalValue(f', raws, v)
    ensures FinalValue(f, [raw] + raws, v)
  {
    hide ParseInt, ParseBool;
    if raws == [] {
      assert [raw] + raws == [raw];
    } else {
      assert ([raw] + raws)[|raws|] == raws[|raws| - 1];
      if f.kind.SliceKind? && f.value.SliceValue? {
        assert f.value.items + [raw] + raws == f.value.items + ([raw] + raws);
      }
    }
  }

  /**
    An accepted argument list splits into a consumed prefix and the remaining
    suffix; each flag ends up with the last value given for it, or with all of
    them in order if it is a slice, and is marked exactly when one was given.
   */
  lemma {:induction false} AcceptedIsFold(flags: seq<Flag>, tolerated: seq<string>, args: seq<string>)
    requires ParseArgs(flags, tolerated, args).error.None?
    ensures var p, pairs := ParseArgs(flags, tolerated, args), Pairs(flags, tolerated, args);
      && p.remaining.Some? && |p.remaining.value| <= |args|
      && p.remaining.value == args[|args| - |p.remaining.value|..]
      && SameShape(flags, p.flags)
      && forall k :: 0 <= k < |flags| ==>
           && FinalValue(flags[k], RawsFor(pairs, k), p.flags[k].value)
           && (p.flags[k].setByCli <==> flags[k].setByCli || RawsFor(pairs, k) != [])
    decreases |args|
  {
    hide FinalValue, SetFlagValue, NextStep;
    var step := NextStep(flags, tolerated, args);
    RestIsSuffix(flags, tolerated, args);
    match step {
      case Stop(rest) =>
        forall k | 0 <= k < |flags|
          ensures FinalValue(flags[k], [], flags[k].value)
        {
          NoValueGiven(flags[k]);
        }
      case Skip(rest) => AcceptedIsFold(flags, tolerated, rest);
      case Assign(idx, _, raw, rest) =>
        var f := SetFlagValue(flags[idx], raw).value;
        var flags' := flags[idx := f.(setByCli := true)];
        SetKeepsShape(flags, idx, raw);
        AcceptedIsFold(flags', tolerated, rest);
        PairsSameShape(flags, flags', tolerated, rest);
        FoldStep(flags, idx, raw, Pairs(flags, tolerated, rest), ParseArgs(flags', tolerated, rest).flags);
    }
  }

  lemma NoValueGiven(f: Flag)
    ensures FinalValue(f, [], f.value)
  {
  }

  lemma {:induction false} FoldStep(flags: seq<Flag>, idx: nat, raw: string, rest: seq<Pair>, result: seq<Flag>)
    requires idx < |flags| == |result| && SetFlagValue(flags[idx], raw).Ok?
    requires var flags' := flags[idx := SetFlagValue(flags[idx], raw).value.(setByCli := true)];
      forall k :: 0 <= k < |flags| ==>
        && FinalValue(flags'[k], RawsFor(rest, k), result[k].value)
        && (result[k].setByCli <==> flags'[k].setByCli || RawsFor(rest, k) != [])
    ensures var pairs := [Pair(idx, raw)] + rest;
      forall k :: 0 <= k < |flags| ==>
        && FinalValue(flags[k], RawsFor(pairs, k), result[k].value)
        && (result[k].setByCli <==> flags[k].setByCli || RawsFor(pairs, k) != [])
  {
    var pairs := [Pair(idx, raw)] + rest;
    assert pairs[1..] == rest;
    var f := SetFlagValue(flags[idx], raw).value.(setByCli := true);
    forall k | 0 <= k < |flags|
      ensures FinalValue(flags[k], RawsFor(pairs, k), result[k].value)
    {
      if k == idx {
        MarkedSameFinal(SetFlagValue(flags[idx], raw).value, RawsFor(rest, k), result[k].value);
        FinalValueStep(flags[k], SetFlagValue(flags[idx], raw).value, raw, RawsFor(rest, k), result[k].value);
      }
    }
  }

  lemma MarkedSameFinal(f: Flag, raws: seq<string>, v: Value)
    ensures FinalValue(f.(setByCli := true), raws, v) <==> FinalValue(f, raws, v)
  {
    hide ParseInt, ParseBool;
  }

  lemma RestIsSuffix(flags: seq<Flag>, tolerated: seq<string>, args: seq<string>)
    ensures var s := NextStep(flags, tolerated, args);
      !s.Fail? ==> |s.rest| <= |args| && s.rest == args[|args| - |s.rest|..]
  {
  }

  // ----- spellings -----

  /** A name that can be written on the command line. */
  predicate PlainName(name: string) {
    name != [] && name[0] != '-' && '=' !in name
  }

  /** The four ways to give value `v` to flag `name`. */
  function Spelling(name: string, v: string, doubled: bool, inline: bool): seq<string> {
    var dashes := if doubled then "--" else "-";
    if inline then [dashes + (name + "=" + v)] else [dashes + name, v]
  }

  /** Every spelling is the same step: assign `v`, go on after it. */
  lemma {:induction false} SpellingStep(
    flags: seq<Flag>, tolerated: seq<string>, name: string, v: string, doubled: bool, inline: bool, post: seq<string>)
    requires PlainName(name) && Find(flags, name) < |flags| && !flags[Find(flags, name)].kind.BoolKind?
    ensures NextStep(flags, tolerated, Spelling(name, v, doubled, inline) + post) ==
      Assign(Find(flags, name), name, v, post)
  {
    hide Find, NextStep, NamedStep;
    var body := if inline then name + "=" + v else name;
    var rest := if inline then post else [v] + post;
    assert body[0] == name[0];
    NamedSpelling(flags, tolerated, name, v, inline, rest, post);
    if doubled {
      DoubleDash(flags, tolerated, body, rest);
      Shifted("--" + body, v, post);
    } else {
      SingleDash(flags, tolerated, body, rest);
      Shifted("-" + body, v, post);
    }
  }

  lemma Shifted(a: string, v: string, post: seq<string>)
    ensures [a, v] + post == [a] + ([v] + post)
  {
  }

  lemma SingleDash(flags: seq<Flag>, tolerated: seq<string>, body: string, rest: seq<string>)
    requires body != [] && body[0] != '-' && body[0] != '='
    ensures NextStep(flags, tolerated, ["-" + body] + rest) == NamedStep(flags, tolerated, body, rest)
  {
    hide NamedStep;
    var args := ["-" + body] + rest;
    assert args[0] == "-" + body && args[1..] == rest;
    assert args[0][1] == body[0] && args[0][1..] == body;
  }

  lemma DoubleDash(flags: seq<Flag>, tolerated: seq<string>, body: string, rest: seq<string>)
    requires body != [] && body[0] != '-' && body[0] != '='
    ensures NextStep(flags, tolerated, ["--" + body] + rest) == NamedStep(flags, tolerated, body, rest)
  {
    hide NamedStep;
    var args := ["--" + body] + rest;
    assert args[0] == "--" + body && args[1..] == rest;
    assert args[0][1] == '-' && args[0][2..] == body;
  }

  lemma {:induction false} NamedSpelling(
    flags: seq<Flag>, tolerated: seq<string>, name: string, v: string, inline: bool, rest: seq<string>,
    post: seq<string>)
    requires PlainName(name) && Find(flags, name) < |flags| && !flags[Find(flags, name)].kind.BoolKind?
    requires if inline then rest == post else rest == [v] + post
    ensures NamedStep(flags, tolerated, if inline then name + "=" + v else name, rest) ==
      Assign(Find(flags, name), name, v, post)
  {
    hide Find, IndexOf;
    if inline {
      var body := name + "=" + v;
      assert body == name + ['='] + v;
      IndexOfConcat(name, '=', v);
      assert body[..|name|] == name && body[|name| + 1..] == v;
    } else {
      IndexOfAbsent(name, '=');
      assert name[..|name|] == name && rest[0] == v && rest[1..] == post;
    }
  }

  /** The loop consumes all of `pre` without stopping, failing or running out of a value. */
  predicate Consumes(flags: seq<Flag>, tolerated: seq<string>, pre: seq<string>)
    decreases |pre|
  {
    pre == [] ||
    match NextStep(flags, tolerated, pre)
    case Assign(_, _, _, rest) => Consumes(flags, tolerated, rest)
    case Skip(rest) => Consumes(flags, tolerated, rest)
    case _ => false
  }

  lemma StepBeforeFlag(flags: seq<Flag>, tolerated: seq<string>, pre: seq<string>, t: seq<string>)
    requires pre != [] && t != [] && IsFlag(t[0])
    requires NextStep(flags, tolerated, pre).Assign? || NextStep(flags, tolerated, pre).Skip?
    ensures var s, s' := NextStep(flags, tolerated, pre), NextStep(flags, tolerated, pre + t);
      if s.Assign? then s' == s.(rest := s.rest + t) else s' == Skip(s.rest + t)
  {
    hide NamedStep;
    var arg := pre[0];
    assert (pre + t)[0] == arg && (pre + t)[1..] == pre[1..] + t;
    NamedBeforeFlag(flags, tolerated, arg[if arg[1] == '-' then 2 else 1..], pre[1..], t);
  }

  lemma NamedBeforeFlag(flags: seq<Flag>, tolerated: seq<string>, body: string, rest: seq<string>, t: seq<string>)
    requires t != [] && IsFlag(t[0])
    ensures var s, s' := NamedStep(flags, tolerated, body, rest), NamedStep(flags, tolerated, body, rest + t);
      && (s.Assign? ==> s' == s.(rest := s.rest + t))
      && (s.Skip? ==> s' == Skip(s.rest + t))
  {
    hide Find, IndexOf;
    if rest == [] {
      assert rest + t == t;
    } else {
      assert (rest + t)[0] == rest[0] && (rest + t)[1..] == rest[1..] + t;
    }
  }

  /** After a consumed prefix only what follows, up to its steps, matters. */
  lemma {:induction false} AfterPrefix(
    flags: seq<Flag>, tolerated: seq<string>, pre: seq<string>, t: seq<string>, u: seq<string>)
    requires Consumes(flags, tolerated, pre)
    requires t != [] && IsFlag(t[0]) && u != [] && IsFlag(u[0])
    requires forall g :: SameShape(flags, g) ==> ParseArgs(g, tolerated, t) == ParseArgs(g, tolerated, u)
    ensures ParseArgs(flags, tolerated, pre + t) == ParseArgs(flags, tolerated, pre + u)
    decreases |pre|
  {
    hide NextStep;
    if pre == [] {
      assert pre + t == t && pre + u == u && SameShape(flags, flags);
    } else {
      var s := NextStep(flags, tolerated, pre);
      StepBeforeFlag(flags, tolerated, pre, t);
      StepBeforeFlag(flags, tolerated, pre, u);
      if s.Skip? {
        AfterPrefix(flags, tolerated, s.rest, t, u);
      } else if SetFlagValue(flags[s.idx], s.raw).Ok? {
        var flags' := flags[s.idx := SetFlagValue(flags[s.idx], s.raw).value.(setByCli := true)];
        SetKeepsShape(flags, s.idx, s.raw);
        ConsumesSameShape(flags, flags', tolerated, s.rest);
        AfterPrefix(flags', tolerated, s.rest, t, u);
      }
    }
  }

  lemma {:induction false} ConsumesSameShape(a: seq<Flag>, b: seq<Flag>, tolerated: seq<string>, pre: seq<string>)
    requires SameShape(a, b) && Consumes(a, tolerated, pre)
    ensures Consumes(b, tolerated, pre)
    decreases |pre|
  {
    hide NextStep, SameShape;
    if pre == [] {
    } else {
      StepSameShape(a, b, tolerated, pre);
      var s := NextStep(a, tolerated, pre);
      ConsumesSameShape(a, b, tolerated, s.rest);
    }
  }

  /**
    For a registered flag that is not a bool, at any position the loop reaches:
    replacing one spelling by another changes neither the flags, nor the error,
    nor the remaining arguments, whatever the value.
   */
  lemma {:induction false} SpellingsAgree(
    flags: seq<Flag>, tolerated: seq<string>, pre: seq<string>, name: string, v: string, post: seq<string>,
    doubled: bool, inline: bool, doubled': bool, inline': bool)
    requires PlainName(name) && Find(flags, name) < |flags| && !flags[Find(flags, name)].kind.BoolKind?
    requires Consumes(flags, tolerated, pre)
    ensures ParseArgs(flags, tolerated, pre + (Spelling(name, v, doubled, inline) + post))
         == ParseArgs(flags, tolerated, pre + (Spelling(name, v, doubled', inline') + post))
  {
    var t, u := Spelling(name, v, doubled, inline) + post, Spelling(name, v, doubled', inline') + post;
    forall g | SameShape(flags, g)
      ensures ParseArgs(g, tolerated, t) == ParseArgs(g, tolerated, u)
    {
      FindSameShape(flags, g, name);
      SpellingStep(g, tolerated, name, v, doubled, inline, post);
      SpellingStep(g, tolerated, name, v, doubled', inline', post);
      hide NextStep, SetFlagValue;
    }
    assert IsFlag(t[0]) && IsFlag(u[0]);
    AfterPrefix(flags, tolerated, pre, t, u);
  }
}
