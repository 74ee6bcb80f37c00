// Decimal text of integers: what std::to_string writes and what
// std::from_chars reads back, with the int64 range made explicit.
module Decimal {

  const INT64_MIN: int := -0x8000_0000_0000_0000
  const INT64_MAX: int := 0x7FFF_FFFF_FFFF_FFFF

  predicate IsInt64(i: int) {
    INT64_MIN <= i <= INT64_MAX
  }

  predicate IsDigit(c: char) {
    '0' <= c <= '9'
  }

  predicate AllDigits(s: string) {
    forall k :: 0 <= k < |s| ==> IsDigit(s[k])
  }

  function Digits(n: nat): (s: string)
    ensures s != "" && AllDigits(s)
  {
    var last := ('0' as int + n % 10) as char;
    if n < 10 then [last] else Digits(n / 10) + [last]
  }

  /** What std::to_string(i) returns. */
  function Decimal(i: int): string {
    if i < 0 then "-" + Digits(-i) else Digits(i)
  }

  /** The number that a run of digits stands for. */
  function Value(s: string): nat
    requires AllDigits(s)
  {
    if s == "" then 0
    else Value(s[..|s| - 1]) * 10 + (s[|s| - 1] as int - '0' as int)
  }

  /** The length of the longest prefix of `s` made of digits. */
  function DigitRun(s: string): (k: nat)
    ensures k <= |s| && AllDigits(s[..k])
    ensures k < |s| ==> !IsDigit(s[k])
  {
    if s == "" || !IsDigit(s[0]) then 0
    else
      var k := DigitRun(s[1..]);
      assert s[..k + 1] == [s[0]] + s[1..][..k];
      k + 1
  }

  datatype Option<+T> = None | Some(value: T)

  /** std::from_chars into an int64: an optional '-', then the longest run of
      digits; whatever follows the run is ignored. No digit and a value out of
      range are the two errors. */
  function FromChars(s: string): Option<int> {
    var negative := s != "" && s[0] == '-';
    var body := if negative then s[1..] else s;
    var k := DigitRun(body);
    if k == 0 then None
    else
      var value: int := Value(body[..k]);
      var i := if negative then -value else value;
      if IsInt64(i) then Some(i) else None
  }

  lemma {:induction false} ValueOfDigits(n: nat)
    ensures Value(Digits(n)) == n
  {
    var s := Digits(n);
    if n < 10 {
      assert s[..0] == "";
    } else {
      ValueOfDigits(n / 10);
      assert s[..|s| - 1] == Digits(n / 10);
    }
  }

  lemma {:induction false} WholeRun(s: string)
    requires AllDigits(s)
    ensures DigitRun(s) == |s|
  {
    if s == "" {
    } else {
      WholeRun(s[1..]);
    }
  }

  /** Every int64 survives being printed and read back. */
  lemma FromCharsDecimal(i: int)
    requires IsInt64(i)
    ensures FromChars(Decimal(i)) == Some(i)
  {
    var n: nat := if i < 0 then -i else i;
    var s := Digits(n);
    ValueOfDigits(n);
    WholeRun(s);
    assert s[..|s|] == s;
    if i < 0 {
      assert Decimal(i)[1..] == s;
    } else {
      assert s[0] != '-';
    }
  }

  lemma DecimalHasNoCR(i: int)
    ensures '\r' !in Decimal(i) && Decimal(i) != ""
  {
  }

  /** What from_chars makes of any text: a run of digits is read up to its end
      and whatever stands behind it is ignored, with and without a sign; text
      without a digit in that place is refused. */
  lemma FromCharsExactly(digits: string, rest: string)
    requires AllDigits(digits) && (rest == "" || !IsDigit(rest[0]))
    ensures digits != "" || rest == "" || rest[0] != '-' ==>
              FromChars(digits + rest) == InRange(digits, Value(digits))
    ensures var n: int := Value(digits); FromChars("-" + (digits + rest)) == InRange(digits, -n)
  {
    RunStops(digits, rest);
    FromCharsPositive(digits, rest);
    FromCharsNegative(digits, rest);
  }

  lemma FromCharsNegative(digits: string, rest: string)
    requires AllDigits(digits) && DigitRun(digits + rest) == |digits|
    ensures var n: int := Value(digits); FromChars("-" + (digits + rest)) == InRange(digits, -n)
  {
    var body := digits + rest;
    assert body[..|digits|] == digits;
    assert ("-" + body)[1..] == body;
  }

  lemma FromCharsPositive(digits: string, rest: string)
    requires AllDigits(digits) && DigitRun(digits + rest) == |digits|
    ensures digits != "" || rest == "" || rest[0] != '-' ==>
              FromChars(digits + rest) == InRange(digits, Value(digits))
  {
    var body := digits + rest;
    assert body[..|digits|] == digits;
    if digits != "" {
      assert body[0] == digits[0];
      assert IsDigit(body[0]);
    } else {
      assert body == rest;
    }
  }

  function InRange(digits: string, i: int): Option<int> {
    if digits != "" && IsInt64(i) then Some(i) else None
  }

  lemma {:induction false} RunStops(digits: string, rest: string)
    requires AllDigits(digits) && (rest == "" || !IsDigit(rest[0]))
    ensures DigitRun(digits + rest) == |digits|
  {
    if digits == "" {
      assert digits + rest == rest;
    } else {
      RunStops(digits[1..], rest);
      assert (digits + rest)[1..] == digits[1..] + rest;
    }
  }

  /** The range in figures: every 64-bit number survives, and the first ones on
      either side of it are refused. */
  lemma EveryInt64(i: int)
    requires -9223372036854775808 <= i <= 9223372036854775807
    ensures FromChars(Decimal(i)) == Some(i)
  {
    FromCharsDecimal(i);
  }

  lemma Int64Limits()
    ensures FromChars("9223372036854775807") == Some(9223372036854775807)
    ensures FromChars("-9223372036854775808") == Some(-9223372036854775808)
    ensures FromChars("9223372036854775808") == FromChars("-9223372036854775809") == None
  {
    hide FromChars;
    NineteenFigures("807");
    NineteenFigures("808");
    NineteenFigures("809");
    var front := "9223372036854775";
    assert front + "807" == "9223372036854775807";
    assert front + "808" == "9223372036854775808" && "-" + (front + "808") == "-9223372036854775808";
    assert "-" + (front + "809") == "-9223372036854775809";
  }

  /** Sixteen given figures, and three more behind them. */
  lemma NineteenFigures(last: string)
    requires |last| == 3 && AllDigits(last)
    ensures var text := "9223372036854775" + last;
            var i: int := 9223372036854775000 + Figures(last);
            && FromChars(text) == (if i <= 9223372036854775807 then Some(i) else None)
            && FromChars("-" + text) == (if i <= 9223372036854775808 then Some(-i) else None)
  {
    var front := "9223372036854775";
    SixteenFigures();
    ThreeFigures(front, last);
    assert front + last + "" == front + last;
    FromCharsExactly(front + last, "");
  }

  lemma SixteenFigures()
    ensures AllDigits("9223372036854775") && Value("9223372036854775") == 9223372036854775
  {
    NextFigure("", '9');
    hide Value;
    assert "" + "9" == "9";
    ThreeFigures("9", "223");
    assert "9" + "223" == "9223";
    ThreeFigures("9223", "372");
    assert "9223" + "372" == "9223372";
    ThreeFigures("9223372", "036");
    assert "9223372" + "036" == "9223372036";
    ThreeFigures("9223372036", "854");
    assert "9223372036" + "854" == "9223372036854";
    ThreeFigures("9223372036854", "775");
    assert "9223372036854" + "775" == "9223372036854775";
  }

  function Figures(s: string): nat
    requires |s| == 3 && AllDigits(s)
  {
    (s[0] as int - '0' as int) * 100 + (s[1] as int - '0' as int) * 10 + (s[2] as int - '0' as int)
  }

  lemma ThreeFigures(front: string, s: string)
    requires AllDigits(front) && |s| == 3 && AllDigits(s)
    ensures AllDigits(front + s) && Value(front + s) == Value(front) * 1000 + Figures(s)
  {
    hide Value;
    NextFigure(front, s[0]);
    NextFigure(front + [s[0]], s[1]);
    NextFigure(front + [s[0]] + [s[1]], s[2]);
    assert front + [s[0]] + [s[1]] + [s[2]] == front + s;
  }

  lemma NextFigure(front: string, c: char)
    requires AllDigits(front) && IsDigit(c)
    ensures AllDigits(front + [c]) && Value(front + [c]) == Value(front) * 10 + (c as int - '0' as int)
  {
    assert (front + [c])[..|front|] == front;
  }
}
