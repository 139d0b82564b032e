/**
  What the text of a flag value means: the words for true and false, and the
  number a text stands for as a sum of its digits.
 */
module FlagValues {
  import opened Base
  import opened Text
  import opened Flags

  // ----- digits -----

  /** The digit `c` stands for in either case; 16 if it is none. */
  function Place(c: char): (d: nat)
    ensures d <= 16
  {
    var lower, upper := IndexOf("0123456789abcdef", c), IndexOf("0123456789ABCDEF", c);
    if lower < 16 then lower else upper
  }

  lemma PlaceIsDigit(c: char)
    ensures if Place(c) < 16 then Digit(c) == Place(c) else Digit(c) >= 16
  {
    hide IndexOf;
    var lower, upper := "0123456789abcdef", "0123456789ABCDEF";
    if '0' <= c <= '9' {
      assert lower[c as int - '0' as int] == c;
    } else if 'a' <= c <= 'f' {
      assert lower[c as int - 'a' as int + 10] == c;
    } else if 'A' <= c <= 'F' {
      assert upper[c as int - 'A' as int + 10] == c;
    }
  }

  function Power(radix: nat, n: nat): (p: nat)
    ensures radix > 0 ==> p > 0
  {
    if n == 0 then 1 else radix * Power(radix, n - 1)
  }

  function Term(d: nat, radix: nat, n: nat): nat {
    d * Power(radix, n)
  }

  /** The digits, each times the power of the radix that belongs to its position. */
  function Amount(digits: string, radix: nat): nat {
    if digits == [] then 0 else Term(Place(digits[0]), radix, |digits| - 1) + Amount(digits[1..], radix)
  }

  /** How many leading characters are digits of the radix. */
  function Run(digits: string, radix: nat): (k: nat)
    ensures k <= |digits|
    ensures forall j :: 0 <= j < k ==> Place(digits[j]) < radix
    ensures k < |digits| ==> Place(digits[k]) >= radix
  {
    FirstIndex(digits, c => Place(c) >= radix)
  }

  lemma RunUnique(digits: string, radix: nat, k: nat)
    requires k <= |digits| && (k < |digits| ==> Place(digits[k]) >= radix)
    requires forall j :: 0 <= j < k ==> Place(digits[j]) < radix
    ensures Run(digits, radix) == k
  {
    hide Place;
    var r := Run(digits, radix);
    assert r < k || k < r || r == k;
  }

  /** The largest amount a 64-bit number of that sign can have. */
  function Limit(negative: bool): nat {
    if negative then 9_223_372_036_854_775_808 else 9_223_372_036_854_775_807
  }

  function WithSign(negative: bool, n: nat): int {
    if negative then 0 - n else n
  }

  /** The number of a text of digits, or which of the two errors is met first. */
  function NumberOf(before: nat, digits: string, radix: nat, negative: bool): Result<int, Reason> {
    var k := Run(digits, radix);
    var amount := Term(before, radix, k) + Amount(digits[..k], radix);
    if amount > Limit(negative) then Err(OutOfRange)
    else if k < |digits| then Err(InvalidSyntax)
    else Ok(WithSign(negative, amount))
  }

  lemma RunOfFirst(digits: string, radix: nat)
    requires digits != [] && Place(digits[0]) < radix
    ensures Run(digits, radix) == 1 + Run(digits[1..], radix)
  {
    hide Place;
    var k := Run(digits[1..], radix);
    forall j | 0 <= j < 1 + k
      ensures Place(digits[j]) < radix
    {
      if j > 0 {
        assert digits[j] == digits[1..][j - 1];
      }
    }
    RunUnique(digits, radix, 1 + k);
  }

  lemma {:induction false} NumberOfNoDigit(before: nat, digits: string, radix: nat, negative: bool)
    requires before <= Limit(negative) && (digits == [] || Place(digits[0]) >= radix)
    ensures NumberOf(before, digits, radix, negative) ==
      if digits == [] then Ok(WithSign(negative, before)) else Err(InvalidSyntax)
  {
    hide Place, Limit, Term;
    RunUnique(digits, radix, 0);
    assert digits[..0] == [];
    TermZero(before, radix);
  }

  lemma {:induction false} TermZero(d: nat, radix: nat)
    ensures Term(d, radix, 0) == d
  {
  }

  /** The amount with one more digit at the end. */
  function Extended(before: nat, radix: nat, d: nat): nat {
    before * radix + d
  }

  lemma {:induction false} NumberStep(before: nat, digits: string, radix: nat, negative: bool)
    requires digits != [] && Place(digits[0]) < radix <= 16
    ensures var next := Extended(before, radix, Place(digits[0]));
      && NumberOf(before, digits, radix, negative) == NumberOf(next, digits[1..], radix, negative)
      && (next > Limit(negative) ==> NumberOf(before, digits, radix, negative) == Err(OutOfRange))
  {
    hide Place, Power, Term, Limit, WithSign, Extended;
    RunOfFirst(digits, radix);
    var k := Run(digits[1..], radix);
    assert digits[..1 + k][1..] == digits[1..][..k] && digits[..1 + k][0] == digits[0];
    TermStep(before, Place(digits[0]), radix, k);
  }

  lemma {:induction false} TermStep(before: nat, d: nat, radix: nat, k: nat)
    requires radix > 0
    ensures var next := Extended(before, radix, d);
      && Term(before, radix, 1 + k) + Term(d, radix, k) == Term(next, radix, k)
      && Term(next, radix, k) >= next
  {
    var p := Power(radix, k);
    assert Power(radix, 1 + k) == radix * p;
    Regroup(before, radix, d, p);
  }

  lemma Regroup(before: nat, radix: nat, d: nat, p: nat)
    requires p > 0
    ensures before * (radix * p) + d * p == Extended(before, radix, d) * p
    ensures Extended(before, radix, d) * p >= Extended(before, radix, d)
  {
    assert before * (radix * p) == before * radix * p;
    Distribute(before * radix, d, p);
    AtLeast(Extended(before, radix, d), p);
  }

  lemma Distribute(a: nat, b: nat, p: nat)
    ensures (a + b) * p == a * p + b * p
  {
  }

  lemma AtLeast(a: nat, p: nat)
    requires p > 0
    ensures a * p >= a
  {
  }

  /** Accumulating from the left gives the number of the text. */
  lemma {:induction false} AccumulateIsNumber(before: nat, digits: string, radix: nat, negative: bool)
    requires 0 < radix <= 16 && before <= Limit(negative)
    ensures Accumulate(WithSign(negative, before), digits, radix, negative)
         == NumberOf(before, digits, radix, negative)
    decreases |digits|
  {
    hide Place, Digit, NumberOf, Extended, Accumulate;
    if digits != [] {
      PlaceIsDigit(digits[0]);
    }
    if digits == [] || Place(digits[0]) >= radix {
      NumberOfNoDigit(before, digits, radix, negative);
      AccumulateNoDigit(WithSign(negative, before), digits, radix, negative);
    } else {
      var next := Extended(before, radix, Place(digits[0]));
      NumberStep(before, digits, radix, negative);
      AccumulateStep(before, digits, radix, negative);
      if next <= Limit(negative) {
        AccumulateIsNumber(next, digits[1..], radix, negative);
      }
    }
  }

  lemma {:induction false} AccumulateNoDigit(acc: int, digits: string, radix: nat, negative: bool)
    requires digits == [] || Digit(digits[0]) >= radix
    ensures Accumulate(acc, digits, radix, negative) == if digits == [] then Ok(acc) else Err(InvalidSyntax)
  {
    hide Digit;
  }

  lemma {:induction false} AccumulateStep(before: nat, digits: string, radix: nat, negative: bool)
    requires digits != [] && Digit(digits[0]) == Place(digits[0]) < radix
    ensures var next := Extended(before, radix, Place(digits[0]));
      Accumulate(WithSign(negative, before), digits, radix, negative) ==
      if next <= Limit(negative) then Accumulate(WithSign(negative, next), digits[1..], radix, negative)
      else Err(OutOfRange)
  {
    hide Place, Digit;
    SignedStep(before, radix, Digit(digits[0]), negative);
  }

  lemma SignedStep(before: nat, radix: nat, d: nat, negative: bool)
    ensures var acc, next := WithSign(negative, before), Extended(before, radix, d);
      && (if negative then acc * radix - d else acc * radix + d) == WithSign(negative, next)
      && (I64_MIN <= WithSign(negative, next) <= I64_MAX <==> next <= Limit(negative))
  {
    assert (0 - before) * radix == 0 - before * radix;
  }

  // ----- integers -----

  function RadixOf(mark: string): (radix: nat)
    ensures 0 < radix <= 16
  {
    if mark == "0x" || mark == "0X" then 16
    else if mark == "0b" || mark == "0B" then 2
    else if mark == "" then 10
    else 8
  }

  predicate IsSign(sign: string) {
    sign == "" || sign == "+" || sign == "-"
  }

  /**
    A mark and the digits after it: the letter mark wins over the octal zero,
    and digits without a mark start with 0 only if that is all.
   */
  predicate IsMarked(mark: string, digits: string) {
    && digits != []
    && mark in {"", "0", "0x", "0X", "0o", "0O", "0b", "0B"}
    && (mark == "" ==> digits[0] != '0' || |digits| == 1)
    && (mark == "0" ==> digits[0] !in {'x', 'X', 'o', 'O', 'b', 'B'})
  }

  predicate StartsWithSign(s: string) {
    s != [] && (s[0] == '+' || s[0] == '-')
  }

  lemma MarkOfText(mark: string, digits: string)
    requires IsMarked(mark, digits)
    ensures MarkAt(mark + digits) == (|mark|, RadixOf(mark))
  {
    var body := mark + digits;
    assert |mark| == 2 ==> body[0] == '0' && body[1] == mark[1];
    assert |mark| == 1 ==> body[0] == '0' && body[1] == digits[0];
    assert |mark| == 0 ==> body == digits;
  }

  lemma SplitText(sign: string, mark: string, digits: string)
    requires IsSign(sign) && IsMarked(mark, digits) && (sign == mark == "" ==> !StartsWithSign(digits))
    ensures ParseInt(sign + mark + digits) == FromStrRadix(sign + digits, RadixOf(mark))
  {
    hide FromStrRadix, MarkAt, RadixOf;
    var s, body := sign + mark + digits, mark + digits;
    MarkOfText(mark, digits);
    assert body[|mark|..] == digits && body[0] == if mark == "" then digits[0] else '0';
    if sign == "" {
      assert s == body;
    } else {
      assert s[..1] == sign && s[1..] == body;
    }
  }

  lemma SignedDigits(sign: string, digits: string, radix: nat)
    requires IsSign(sign) && digits != [] && 0 < radix <= 16 && (sign == "" ==> !StartsWithSign(digits))
    ensures FromStrRadix(sign + digits, radix) == NumberOf(0, digits, radix, sign == "-")
  {
    hide Accumulate, NumberOf;
    AccumulateIsNumber(0, digits, radix, sign == "-");
    var s := sign + digits;
    if sign == "" {
      assert s == digits;
    } else {
      assert s[0] == sign[0] && s[1..] == digits;
    }
  }

  /** The number of a sign, a mark and digits; without a sign in front one may follow the mark. */
  lemma ParseIntOf(sign: string, mark: string, digits: string)
    requires IsSign(sign) && IsMarked(mark, digits)
    ensures sign != "" || !StartsWithSign(digits) ==>
      ParseInt(sign + mark + digits) == NumberOf(0, digits, RadixOf(mark), sign == "-")
    ensures sign != "" && mark != "" ==>
      ParseInt(mark + sign + digits) == NumberOf(0, digits, RadixOf(mark), sign == "-")
  {
    hide ParseInt, FromStrRadix, NumberOf;
    if sign != "" || !StartsWithSign(digits) {
      SplitText(sign, mark, digits);
      SignedDigits(sign, digits, RadixOf(mark));
    }
    if sign != "" && mark != "" {
      assert "" + mark + (sign + digits) == mark + sign + digits && "" + (sign + digits) == sign + digits;
      SplitText("", mark, sign + digits);
    }
  }

  /** A text of a number: the sign in front of the mark or right after it. */
  predicate Stands(s: string, sign: string, mark: string, digits: string) {
    && IsSign(sign) && IsMarked(mark, digits)
    && (s == sign + mark + digits || s == mark + sign + digits)
    && AllPlaced(digits, RadixOf(mark))
  }

  /** The number of a text, if it has 64 bits. */
  predicate IsNumber(n: int, sign: string, mark: string, digits: string) {
    && n == WithSign(sign == "-", Amount(digits, RadixOf(mark)))
    && -9_223_372_036_854_775_808 <= n <= 9_223_372_036_854_775_807
  }

  /** Which texts are accepted, and as which number. */
  lemma ParseIntExactly(s: string, n: int)
    ensures ParseInt(s) == Ok(n) <==>
      exists sign, mark, digits :: Stands(s, sign, mark, digits) && IsNumber(n, sign, mark, digits)
  {
    hide ParseInt, Stands, IsNumber;
    if ParseInt(s) == Ok(n) {
      var sign, mark, digits := TextOfNumber(s);
      NumberOfStanding(s, n, sign, mark, digits);
    }
    forall sign, mark, digits | Stands(s, sign, mark, digits)
      ensures ParseInt(s) == Ok(n) <==> IsNumber(n, sign, mark, digits)
    {
      NumberOfStanding(s, n, sign, mark, digits);
    }
  }

  predicate AllPlaced(digits: string, radix: nat) {
    forall c :: c in digits ==> Place(c) < radix
  }

  lemma {:induction false} NumberOfAll(digits: string, radix: nat, negative: bool)
    requires 0 < radix <= 16
    ensures AllPlaced(digits, radix) ==>
      var amount := Amount(digits, radix);
      NumberOf(0, digits, radix, negative)
      == if amount > Limit(negative) then Err(OutOfRange) else Ok(WithSign(negative, amount))
    ensures NumberOf(0, digits, radix, negative).Ok? ==> AllPlaced(digits, radix)
  {
    hide Place, Amount, Power, Limit, WithSign;
    var k := Run(digits, radix);
    if AllPlaced(digits, radix) {
      assert k == |digits|;
    }
    assert digits[..|digits|] == digits;
    NoTerm(radix, k);
    hide Term;
  }

  lemma {:induction false} NoTerm(radix: nat, k: nat)
    ensures Term(0, radix, k) == 0
  {
  }

  lemma NotASign(c: char)
    requires Place(c) < 16
    ensures c != '+' && c != '-'
  {
    hide Place;
    PlaceIsDigit(c);
  }

  lemma {:induction false} NumberOfStanding(s: string, n: int, sign: string, mark: string, digits: string)
    requires Stands(s, sign, mark, digits)
    ensures ParseInt(s) == Ok(n) <==> IsNumber(n, sign, mark, digits)
    ensures ParseInt(s) == Err(OutOfRange) <==> Amount(digits, RadixOf(mark)) > Limit(sign == "-")
  {
    hide ParseInt, NumberOf, Place, RadixOf, Amount;
    ParseIntOf(sign, mark, digits);
    NumberOfAll(digits, RadixOf(mark), sign == "-");
    assert digits[0] in digits;
    NotASign(digits[0]);
    if sign == "" {
      assert mark + sign + digits == sign + mark + digits;
    } else if mark == "" {
      assert mark + sign + digits == sign + mark + digits;
    }
  }

  /** Sign, mark and the rest, which starts with a sign only after a mark. */
  lemma Apart(s: string) returns (sign: string, mark: string, rest: string)
    requires ParseInt(s).Ok?
    ensures IsSign(sign) && IsMarked(mark, rest) && s == sign + mark + rest
    ensures sign == mark == "" ==> !StartsWithSign(rest)
  {
    hide ParseInt, IsMarked, MarkAt;
    BodyOf(s);
    if StartsWithSign(s) {
      sign := s[..1];
      mark, rest := ApartMark(s[1..]);
      Joined(s, sign, mark, rest);
    } else {
      sign := "";
      mark, rest := ApartMark(s);
      assert s[0..] == s;
      Joined(s, sign, mark, rest);
      assert mark == "" ==> rest == s;
    }
  }

  lemma Joined(s: string, sign: string, mark: string, rest: string)
    requires |sign| <= |s| && sign == s[..|sign|] && s[|sign|..] == mark + rest
    ensures s == sign + mark + rest
  {
    assert s == sign + (mark + rest);
  }

  lemma BodyOf(s: string)
    requires ParseInt(s).Ok?
    ensures var body := if StartsWithSign(s) then s[1..] else s; MarkAt(body).0 < |body|
  {
    hide FromStrRadix, MarkAt;
  }

  lemma ApartMark(body: string) returns (mark: string, rest: string)
    requires MarkAt(body).0 < |body|
    ensures body == mark + rest && IsMarked(mark, rest)
  {
    var n := MarkAt(body).0;
    mark, rest := body[..n], body[n..];
    assert body == mark + rest && rest[0] == body[n];
    if n == 2 {
      assert mark == ['0', body[1]];
    } else if n == 1 {
      assert mark == ['0'];
    }
  }

  lemma DigitAfterZero(c: char)
    requires Place(c) < 8
    ensures c !in {'x', 'X', 'o', 'O', 'b', 'B'}
  {
    hide Place;
    PlaceIsDigit(c);
  }

  /** Every accepted text comes apart. */
  lemma TextOfNumber(s: string) returns (sign: string, mark: string, digits: string)
    requires ParseInt(s).Ok?
    ensures Stands(s, sign, mark, digits)
  {
    hide ParseInt, FromStrRadix, NumberOf, AllPlaced, RadixOf, IsMarked, Place;
    var rest;
    sign, mark, rest := Apart(s);
    digits := rest;
    if sign == "" && StartsWithSign(rest) {
      sign, digits := rest[..1], rest[1..];
      assert sign + digits == rest && s == "" + mark + rest && "" + mark + rest == mark + sign + digits;
      LateSign(sign, mark, digits);
    } else {
      ParseIntOf(sign, mark, digits);
      NumberOfAll(digits, RadixOf(mark), sign == "-");
    }
  }

  lemma LateSign(sign: string, mark: string, digits: string)
    requires sign != "" && IsSign(sign) && mark != "" && IsMarked(mark, sign + digits)
    requires ParseInt("" + mark + (sign + digits)).Ok?
    ensures IsMarked(mark, digits) && AllPlaced(digits, RadixOf(mark))
  {
    hide ParseInt, FromStrRadix, NumberOf, Place;
    SplitText("", mark, sign + digits);
    assert "" + (sign + digits) == sign + digits;
    NotJustASign(sign, RadixOf(mark));
    SignedDigits(sign, digits, RadixOf(mark));
    NumberOfAll(digits, RadixOf(mark), sign == "-");
    if mark == "0" {
      assert digits[0] in digits;
      DigitAfterZero(digits[0]);
    }
  }

  lemma NotJustASign(sign: string, radix: nat)
    requires IsSign(sign)
    ensures FromStrRadix(sign + "", radix).Err?
  {
    assert sign + "" == sign;
  }

  /** A sign after the mark, which Go refuses. */
  lemma {:induction false} LateSignAccepted()
    ensures ParseInt("0x-5") == Ok(-5)
  {
    hide ParseInt, Place;
    PlaceOfDigit(5);
    AmountSnoc([], '5', 16);
    assert [] + ['5'] == "5" && Amount([], 16) == 0;
    assert "0x-5" == "0x" + "-" + "5";
    assert AllPlaced("5", 16);
    NumberOfStanding("0x-5", -5, "-", "0x", "5");
  }

  // ----- decimal numbers -----

  lemma {:induction false} AmountSnoc(digits: string, c: char, radix: nat)
    ensures Amount(digits + [c], radix) == radix * Amount(digits, radix) + Place(c)
    decreases |digits|
  {
    hide Place, Term;
    var t := digits + [c];
    if digits == [] {
      assert t[1..] == [];
      TermZero(Place(c), radix);
    } else {
      assert t[1..] == digits[1..] + [c] && t[0] == digits[0];
      AmountSnoc(digits[1..], c, radix);
      TermTimes(Place(digits[0]), radix, |digits| - 1);
    }
  }

  lemma {:induction false} TermTimes(d: nat, radix: nat, n: nat)
    ensures Term(d, radix, 1 + n) == radix * Term(d, radix, n)
  {
    var p := Power(radix, n);
    assert d * (radix * p) == radix * (d * p);
  }

  lemma {:induction false} AmountOfDecimal(n: nat)
    ensures Amount(Decimal(n), 10) == n
  {
    hide Place, Power, Amount;
    if n < 10 {
      AmountSnoc([], DigitChar(n), 10);
      assert [] + [DigitChar(n)] == Decimal(n);
      NoAmount();
      PlaceOfDigit(n);
    } else {
      AmountOfDecimal(n / 10);
      AmountSnoc(Decimal(n / 10), DigitChar(n % 10), 10);
      PlaceOfDigit(n % 10);
    }
  }

  lemma {:induction false} NoAmount()
    ensures Amount([], 10) == 0
  {
  }

  lemma PlaceOfDigit(d: nat)
    requires d < 10
    ensures Place(DigitChar(d)) == d
  {
    PlaceIsDigit(DigitChar(d));
    PlaceOfChar(DigitChar(d));
  }

  lemma PlaceOfChar(c: char)
    requires IsDigit(c)
    ensures Place(c) < 10
  {
    hide IndexOf;
    assert "0123456789abcdef"[c as int - '0' as int] == c;
    PlaceIsDigit(c);
  }

  /** The decimal text of a number is read as that number exactly when it has 64 bits. */
  lemma {:induction false} DecimalIsRead(n: nat, sign: string)
    requires IsSign(sign)
    ensures ParseInt(sign + Decimal(n)) ==
      if n > Limit(sign == "-") then Err(OutOfRange) else Ok(WithSign(sign == "-", n))
  {
    hide ParseInt, Place, Decimal, NumberOf;
    var s := Decimal(n);
    DecimalCanonical(n);
    AmountOfDecimal(n);
    forall c | c in s
      ensures Place(c) < 10
    {
      PlaceOfChar(c);
    }
    assert AllPlaced(s, 10);
    NumberOfAll(s, 10, sign == "-");
    assert sign + "" + s == sign + s && s[0] in s;
    NotASign(s[0]);
    ParseIntOf(sign, "", s);
  }

  // ----- flags -----

  function Dashed(doubled: bool, body: string): string {
    if doubled then "--" + body else "-" + body
  }

  /** The flags after flag `i` got a value on the command line. */
  function Given(flags: seq<Flag>, i: nat, v: Value): seq<Flag>
    requires i < |flags|
  {
    flags[i := flags[i].(value := v, setByCli := true)]
  }

  lemma DashedStep(flags: seq<Flag>, tolerated: seq<string>, doubled: bool, body: string, rest: seq<string>)
    requires body != [] && body[0] != '-' && body[0] != '='
    ensures NextStep(flags, tolerated, [Dashed(doubled, body)] + rest) == NamedStep(flags, tolerated, body, rest)
  {
    hide NextStep, NamedStep;
    if doubled {
      DoubleDash(flags, tolerated, body, rest);
    } else {
      SingleDash(flags, tolerated, body, rest);
    }
  }

  /** A bool flag alone becomes true. */
  lemma {:induction false} BoolAlone(
    flags: seq<Flag>, tolerated: seq<string>, name: string, doubled: bool, rest: seq<string>)
    requires PlainName(name) && Find(flags, name) < |flags| && flags[Find(flags, name)].kind.BoolKind?
    ensures ParseArgs(flags, tolerated, [Dashed(doubled, name)] + rest)
         == ParseArgs(Given(flags, Find(flags, name), BoolValue(true)), tolerated, rest)
  {
    hide Find, NextStep, NamedStep;
    DashedStep(flags, tolerated, doubled, name, rest);
    assert NamedStep(flags, tolerated, name, rest) == Assign(Find(flags, name), name, "true", rest) by {
      NamedBool(flags, tolerated, name, None, rest);
    }
  }

  lemma NamedBool(flags: seq<Flag>, tolerated: seq<string>, name: string, v: Option<string>, rest: seq<string>)
    requires PlainName(name) && Find(flags, name) < |flags| && flags[Find(flags, name)].kind.BoolKind?
    ensures NamedStep(flags, tolerated, if v.Some? then name + "=" + v.value else name, rest) ==
      Assign(Find(flags, name), name, if v.Some? then v.value else "true", rest)
  {
    hide Find, IndexOf;
    if v.Some? {
      var body := name + "=" + v.value;
      assert body == name + ['='] + v.value;
      IndexOfConcat(name, '=', v.value);
      assert body[..|name|] == name && body[|name| + 1..] == v.value;
    } else {
      IndexOfAbsent(name, '=');
      assert name[..|name|] == name;
    }
  }

  /** A bool flag takes six words for true and six for false, and no other. */
  lemma {:induction false} BoolGiven(
    flags: seq<Flag>, tolerated: seq<string>, name: string, v: string, doubled: bool, rest: seq<string>)
    requires PlainName(name) && Find(flags, name) < |flags| && flags[Find(flags, name)].kind.BoolKind?
    ensures var i := Find(flags, name);
      ParseArgs(flags, tolerated, [Dashed(doubled, name + "=" + v)] + rest) ==
      if v in ["1", "t", "T", "true", "True", "TRUE"] then ParseArgs(Given(flags, i, BoolValue(true)), tolerated, rest)
      else if v in ["0", "f", "F", "false", "False", "FALSE"] then
        ParseArgs(Given(flags, i, BoolValue(false)), tolerated, rest)
      else Parsed(flags, Some(BadValue(name, v, InvalidSyntax)), None)
  {
    hide Find, NextStep, NamedStep;
    var body := name + "=" + v;
    assert body[0] == name[0];
    DashedStep(flags, tolerated, doubled, body, rest);
    NamedBool(flags, tolerated, name, Some(v), rest);
  }

  /** An integer flag given the decimal text of a number has that number. */
  lemma {:induction false} IntGiven(
    flags: seq<Flag>, tolerated: seq<string>, name: string, sign: string, n: nat, doubled: bool, inline: bool,
    rest: seq<string>)
    requires PlainName(name) && Find(flags, name) < |flags| && flags[Find(flags, name)].kind.IntKind?
    requires IsSign(sign)
    ensures var i, v := Find(flags, name), sign + Decimal(n);
      ParseArgs(flags, tolerated, Spelling(name, v, doubled, inline) + rest) ==
      if n <= Limit(sign == "-") then
        ParseArgs(Given(flags, i, IntValue(WithSign(sign == "-", n))), tolerated, rest)
      else Parsed(flags, Some(BadValue(name, v, OutOfRange)), None)
  {
    hide Find, NextStep, ParseInt, Spelling;
    DecimalIsRead(n, sign);
    SpellingStep(flags, tolerated, name, sign + Decimal(n), doubled, inline, rest);
  }
}
