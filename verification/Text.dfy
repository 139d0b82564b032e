/** Splitting, trimming and decimal numbers, as the readers of subnet.env use them. */
module Text {
  import opened Base

  lemma {:induction false} IndexOfConcat(x: string, c: char, y: string)
    requires c !in x
    ensures IndexOf(x + [c] + y, c) == |x|
  {
    var s := x + [c] + y;
    var i := IndexOf(s, c);
    assert s[|x|] == c && forall j :: 0 <= j < |x| ==> s[j] == x[j];
    assert i < |x| || |x| < i || i == |x|;
  }

  lemma {:induction false} IndexOfAbsent(x: string, c: char)
    requires c !in x
    ensures IndexOf(x, c) == |x|
  {
  }

  /** The parts before and after the first `c`. */
  function SplitOnce(s: string, c: char): Option<(string, string)> {
    var i := IndexOf(s, c);
    if i < |s| then Some((s[..i], s[i + 1..])) else None
  }

  /** All parts between occurrences of `c`. */
  function SplitOn(s: string, c: char): seq<string>
    decreases |s|
  {
    var i := IndexOf(s, c);
    if i < |s| then [s[..i]] + SplitOn(s[i + 1..], c) else [s]
  }

  /** Lines without their terminators; a final newline does not start another line. */
  function Lines(s: string): seq<string>
    decreases |s|
  {
    if s == [] then []
    else
      var i := IndexOf(s, '\n');
      if i < |s| then [StripLast(s[..i], '\r')] + Lines(s[i + 1..]) else [StripLast(s, '\r')]
  }

  predicate IsSpace(c: char) {
    c == ' ' || '\t' <= c <= '\r'
  }

  function TrimStart(s: string): string {
    if s != [] && IsSpace(s[0]) then TrimStart(s[1..]) else s
  }

  function TrimEnd(s: string): string {
    if s != [] && IsSpace(s[|s| - 1]) then TrimEnd(s[..|s| - 1]) else s
  }

  function Trim(s: string): string {
    TrimEnd(TrimStart(s))
  }

  lemma SplitOnceConcat(x: string, c: char, y: string)
    requires c !in x
    ensures SplitOnce(x + [c] + y, c) == Some((x, y))
  {
    IndexOfConcat(x, c, y);
    var s := x + [c] + y;
    assert s[..|x|] == x && s[|x| + 1..] == y;
  }

  lemma {:induction false} SplitOnConcat(x: string, c: char, y: string)
    requires c !in x
    ensures SplitOn(x + [c] + y, c) == [x] + SplitOn(y, c)
    ensures SplitOn(x, c) == [x]
  {
    IndexOfConcat(x, c, y);
    IndexOfAbsent(x, c);
    var s := x + [c] + y;
    assert s[..|x|] == x && s[|x| + 1..] == y;
  }

  /** No space of any kind in it. */
  predicate Solid(s: string) {
    forall c :: c in s ==> !IsSpace(c)
  }

  lemma TrimSolid(s: string)
    requires Solid(s)
    ensures Trim(s) == s
  {
    if s != [] {
      assert s[0] in s && s[|s| - 1] in s;
    }
  }

  lemma {:induction false} FirstLine(x: string, t: string)
    requires Solid(x)
    ensures Lines(x + ['\n'] + t) == [x] + Lines(t)
  {
    assert '\n' !in x;
    IndexOfConcat(x, '\n', t);
    var s := x + ['\n'] + t;
    assert s[..|x|] == x && s[|x| + 1..] == t;
    if x != [] {
      assert x[|x| - 1] in x;
    }
  }

  // ----- decimal numbers -----

  predicate IsDigit(c: char) {
    '0' <= c <= '9'
  }

  function DigitChar(d: nat): (c: char)
    requires d < 10
    ensures IsDigit(c) && c as int - '0' as int == d
  {
    '0' + d as char
  }

  function Decimal(n: nat): (s: string)
    ensures s != [] && forall c :: c in s ==> IsDigit(c)
  {
    if n < 10 then [DigitChar(n)] else Decimal(n / 10) + [DigitChar(n % 10)]
  }

  predicate AllDigits(s: string) {
    forall c :: c in s ==> IsDigit(c)
  }

  function DigitsValue(s: string): nat
    requires AllDigits(s)
  {
    if s == [] then 0
    else
      assert s[|s| - 1] in s;
      10 * DigitsValue(s[..|s| - 1]) + (s[|s| - 1] as int - '0' as int)
  }

  lemma {:induction false} DecimalValue(n: nat)
    ensures AllDigits(Decimal(n)) && DigitsValue(Decimal(n)) == n
  {
    var s := Decimal(n);
    if n < 10 {
      assert s[..0] == [];
    } else {
      DecimalValue(n / 10);
      assert s[..|s| - 1] == Decimal(n / 10);
    }
  }

  /** No leading zero, except for zero itself. */
  lemma {:induction false} DecimalCanonical(n: nat)
    ensures |Decimal(n)| > 1 ==> Decimal(n)[0] != '0'
    ensures n > 0 ==> Decimal(n)[0] != '0'
    ensures n < 1000 ==> |Decimal(n)| <= 3
  {
    if n >= 10 {
      DecimalCanonical(n / 10);
      if n < 1000 && n >= 100 {
        assert Decimal(n / 10) == Decimal(n / 100) + [DigitChar(n / 10 % 10)];
        assert n / 100 < 10;
      }
    }
  }

  /** An unsigned 32-bit number: digits with an optional plus sign. */
  function ParseU32(s: string): Option<nat> {
    var digits := if s != [] && s[0] == '+' then s[1..] else s;
    if digits == [] || !AllDigits(digits) || DigitsValue(digits) > 0xFFFF_FFFF then None
    else Some(DigitsValue(digits))
  }

  lemma {:induction false} ParseU32OfDecimal(n: nat)
    requires n <= 0xFFFF_FFFF
    ensures ParseU32(Decimal(n)) == Some(n)
  {
    DecimalValue(n);
    assert Decimal(n)[0] in Decimal(n);
  }

  /** One octet of a dotted quad: one to three digits, no leading zero, at most 255. */
  function ParseOctet(s: string): Option<nat> {
    if s == [] || |s| > 3 || !AllDigits(s) || (|s| > 1 && s[0] == '0') || DigitsValue(s) > 255 then None
    else Some(DigitsValue(s))
  }

  lemma {:induction false} ParseOctetOfDecimal(n: nat)
    requires n <= 255
    ensures ParseOctet(Decimal(n)) == Some(n)
  {
    DecimalValue(n);
    DecimalCanonical(n);
  }
}
