/** Octal and decimal numerals, as printf writes them and strtoll reads them. */
module Numerals {

  datatype Base = Octal | Decimal {
    function Size(): nat {
      if Octal? then 8 else 10
    }

    function Quotient(n: nat): nat {
      if Octal? then n / 8 else n / 10
    }

    function Remainder(n: nat): (r: nat)
      ensures r < Size()
    {
      if Octal? then n % 8 else n % 10
    }

    function Shift(n: nat): nat {
      if Octal? then n * 8 else n * 10
    }

    predicate IsDigit(c: char) {
      '0' <= c && c as int < '0' as int + Size()
    }
  }

  function Digit(d: nat): char
    requires d < 10
  {
    '0' + d as char
  }

  function DigitValue(c: char): nat
    requires Decimal.IsDigit(c)
  {
    c as int - '0' as int
  }

  predicate AllDigits(b: Base, s: string) {
    forall c <- s :: b.IsDigit(c)
  }

  /** The digits of n, most significant first. */
  function Numeral(b: Base, n: nat): (s: string)
    ensures s != ""
  {
    if n < b.Size() then [Digit(n)] else Numeral(b, b.Quotient(n)) + [Digit(b.Remainder(n))]
  }

  function Value(b: Base, s: string): nat
    requires AllDigits(b, s)
  {
    if s == "" then 0
    else
      assert s[|s| - 1] in s;
      b.Shift(Value(b, s[..|s| - 1])) + DigitValue(s[|s| - 1])
  }

  /** Reading what was written. */
  lemma {:induction false} ValueOfNumeral(b: Base, n: nat)
    ensures AllDigits(b, Numeral(b, n)) && Value(b, Numeral(b, n)) == n
  {
    if n >= b.Size() {
      var s := Numeral(b, b.Quotient(n));
      ValueOfNumeral(b, b.Quotient(n));
      assert (s + [Digit(b.Remainder(n))])[..|s|] == s;
    } else {
      assert [Digit(n)][..0] == "";
    }
  }

  function Zeros(k: nat): (s: string)
    ensures |s| == k && forall c <- s :: c == '0'
  {
    seq(k, _ => '0')
  }

  lemma {:induction false} LeadingZeros(b: Base, k: nat, s: string)
    requires AllDigits(b, s)
    ensures AllDigits(b, Zeros(k) + s) && Value(b, Zeros(k) + s) == Value(b, s)
    decreases k + |s|
  {
    if s == "" {
      if k != 0 {
        LeadingZeros(b, k - 1, "");
        assert (Zeros(k) + "")[..k - 1] == Zeros(k - 1) + "";
      }
    } else {
      var t := s[..|s| - 1];
      LeadingZeros(b, k, t);
      assert (Zeros(k) + s)[..k + |s| - 1] == Zeros(k) + t;
    }
  }

  function Pow(b: Base, k: nat): (p: nat)
    ensures p > 0
  {
    if k == 0 then 1 else b.Shift(Pow(b, k - 1))
  }

  lemma {:induction false} PowMonotone(m: nat, n: nat)
    requires m <= n
    ensures Pow(Decimal, m) <= Pow(Decimal, n)
    decreases n - m
  {
    if m < n { PowMonotone(m + 1, n); }
  }

  /** k digits are enough exactly for the numbers below the base to the power k. */
  lemma {:induction false} NumeralLength(b: Base, n: nat, k: nat)
    requires k > 0
    ensures |Numeral(b, n)| <= k <==> n < Pow(b, k)
  {
    if k == 1 {
      assert Pow(b, 1) == b.Shift(Pow(b, 0));
    } else if n >= b.Size() {
      NumeralLength(b, b.Quotient(n), k - 1);
    } else {
      assert Pow(b, k) == b.Shift(Pow(b, k - 1));
    }
  }

  /** The number of leading characters that are digits. */
  function DigitRun(b: Base, s: string): (k: nat)
    ensures k <= |s| && AllDigits(b, s[..k])
  {
    if s == "" || !b.IsDigit(s[0]) then 0
    else
      var k := DigitRun(b, s[1..]);
      assert s[..1 + k] == [s[0]] + s[1..][..k];
      1 + k
  }

  lemma {:induction false} RunOfDigits(b: Base, s: string, rest: string)
    requires AllDigits(b, s) && (rest == "" || !b.IsDigit(rest[0]))
    ensures DigitRun(b, s + rest) == |s|
  {
    if s == "" {
      assert s + rest == rest;
    } else {
      assert (s + rest)[1..] == s[1..] + rest;
      RunOfDigits(b, s[1..], rest);
    }
  }

  // isspace
  predicate IsSpace(c: char) {
    c == ' ' || 9 <= c as int <= 13
  }

  function SkipSpace(s: string): (k: nat)
    ensures k <= |s| && (k < |s| ==> !IsSpace(s[k]))
  {
    if s == "" || !IsSpace(s[0]) then 0 else 1 + SkipSpace(s[1..])
  }

  /** What strtoll and its kin find: a sign, a magnitude and where it ends; no
      digits is a conversion to 0 that ends where it began. */
  datatype Scan = Scan(negative: bool, magnitude: nat, end: nat) {
    function Signed(): int {
      if negative then 0 - magnitude else magnitude
    }
  }

  // The digits from position j on.
  function ScanFrom(b: Base, s: string, negative: bool, j: nat): (r: Scan)
    requires j <= |s|
    ensures r.end <= |s|
  {
    var k := DigitRun(b, s[j..]);
    if k == 0 then Scan(false, 0, 0) else Scan(negative, Value(b, s[j..][..k]), j + k)
  }

  function ScanNumber(b: Base, s: string): (r: Scan)
    ensures r.end <= |s|
  {
    var i := SkipSpace(s);
    if i < |s| && s[i] == '-' then ScanFrom(b, s, true, i + 1)
    else if i < |s| && s[i] == '+' then ScanFrom(b, s, false, i + 1)
    else ScanFrom(b, s, false, i)
  }

  // %lld
  function SignedText(n: int): string {
    if n < 0 then "-" + Numeral(Decimal, -n) else Numeral(Decimal, n)
  }

  lemma ScanFromNumeral(b: Base, pre: string, negative: bool, digits: string, rest: string)
    requires digits != "" && AllDigits(b, digits) && (rest == "" || !b.IsDigit(rest[0]))
    ensures ScanFrom(b, pre + digits + rest, negative, |pre|) == Scan(negative, Value(b, digits), |pre| + |digits|)
  {
    assert (pre + digits + rest)[|pre|..] == digits + rest;
    assert (digits + rest)[..|digits|] == digits;
    RunOfDigits(b, digits, rest);
  }

  lemma ScanNumeral(b: Base, digits: string, rest: string)
    requires digits != "" && AllDigits(b, digits) && (rest == "" || !b.IsDigit(rest[0]))
    ensures ScanNumber(b, digits + rest) == Scan(false, Value(b, digits), |digits|)
  {
    assert digits[0] in digits;
    assert "" + digits + rest == digits + rest;
    ScanFromNumeral(b, "", false, digits, rest);
  }

  /** Printing a signed number and scanning it gives the number back. */
  lemma ScanSignedText(n: int, rest: string)
    requires rest == "" || !Decimal.IsDigit(rest[0])
    ensures var r := ScanNumber(Decimal, SignedText(n) + rest);
            r.Signed() == n && r.end == |SignedText(n)|
    ensures SignedText(n) != "" && !IsSpace(SignedText(n)[0])
  {
    var digits := Numeral(Decimal, if n < 0 then -n else n);
    ValueOfNumeral(Decimal, if n < 0 then -n else n);
    if n < 0 {
      ScanFromNumeral(Decimal, "-", true, digits, rest);
    } else {
      ScanNumeral(Decimal, digits, rest);
      assert digits[0] in digits;
    }
  }

  // ------------------------------------------------------------ a scan is local

  lemma {:induction false} SkipSpaceLocal(pre: string, c: char, x: string, y: string)
    requires !IsSpace(c)
    ensures SkipSpace(pre + [c] + x) == SkipSpace(pre + [c] + y) <= |pre|
  {
    if pre != "" {
      assert (pre + [c] + x)[1..] == pre[1..] + [c] + x && (pre + [c] + y)[1..] == pre[1..] + [c] + y;
      SkipSpaceLocal(pre[1..], c, x, y);
    }
  }

  lemma {:induction false} DigitRunLocal(b: Base, pre: string, c: char, x: string, y: string)
    requires !b.IsDigit(c)
    ensures DigitRun(b, pre + [c] + x) == DigitRun(b, pre + [c] + y) <= |pre|
  {
    if pre != "" {
      assert (pre + [c] + x)[1..] == pre[1..] + [c] + x && (pre + [c] + y)[1..] == pre[1..] + [c] + y;
      DigitRunLocal(b, pre[1..], c, x, y);
    }
  }

  lemma ScanFromLocal(b: Base, pre: string, c: char, x: string, y: string, negative: bool, j: nat)
    requires !b.IsDigit(c) && j <= |pre|
    ensures ScanFrom(b, pre + [c] + x, negative, j) == ScanFrom(b, pre + [c] + y, negative, j)
  {
    var s, t := (pre + [c] + x)[j..], (pre + [c] + y)[j..];
    assert s == pre[j..] + [c] + x && t == pre[j..] + [c] + y;
    DigitRunLocal(b, pre[j..], c, x, y);
    var k := DigitRun(b, s);
    assert s[..k] == pre[j..][..k] == t[..k];
  }

  /** What follows a character that cannot be part of a number makes no difference. */
  lemma ScanLocal(b: Base, pre: string, c: char, x: string, y: string)
    requires !IsSpace(c) && !b.IsDigit(c) && c != '-' && c != '+'
    ensures ScanNumber(b, pre + [c] + x) == ScanNumber(b, pre + [c] + y)
  {
    SkipSpaceLocal(pre, c, x, y);
    var i := SkipSpace(pre + [c] + x);
    ScanFromLocal(b, pre, c, x, y, false, i);
    if i < |pre| {
      ScanFromLocal(b, pre, c, x, y, true, i + 1);
      ScanFromLocal(b, pre, c, x, y, false, i + 1);
    }
  }

  // ------------------------------------------------------------ what a number is

  const DIGITS: string := "0123456789"

  /** Digits have the values of their places in the usual order. */
  lemma DigitTable(d: nat)
    requires d < 10
    ensures Digit(d) == DIGITS[d] && Decimal.IsDigit(DIGITS[d]) && DigitValue(DIGITS[d]) == d
    ensures Octal.IsDigit(DIGITS[d]) <==> d < 8
  {}

  lemma DigitInTable(c: char)
    ensures Decimal.IsDigit(c) ==> DIGITS[DigitValue(c)] == c
  {
    if Decimal.IsDigit(c) { DigitTable(DigitValue(c)); }
  }

  // The white space of isspace, by its codes: tab, newline, vertical tab, form feed,
  // carriage return and blank.
  lemma SpaceCodes(c: char)
    ensures IsSpace(c) <==> c as int in {9, 10, 11, 12, 13, 32}
  {}

  /** The grammar of a number in a text: white space up to i, a sign or nothing up to j, at
      least one digit up to end, and no further digit. */
  predicate NumberAt(b: Base, s: string, i: nat, j: nat, end: nat) {
    && i <= j < end <= |s|
    && (forall k | 0 <= k < i :: IsSpace(s[k]))
    && (s[i..j] == "" || s[i..j] == "+" || s[i..j] == "-")
    && (forall k | j <= k < end :: b.IsDigit(s[k]))
    && (end < |s| ==> !b.IsDigit(s[end]))
  }

  lemma {:induction false} SkipSpaceIs(s: string, i: nat)
    requires i < |s| && !IsSpace(s[i]) && forall k | 0 <= k < i :: IsSpace(s[k])
    ensures SkipSpace(s) == i
  {
    if i > 0 { SkipSpaceIs(s[1..], i - 1); }
  }

  lemma {:induction false} SkipSpaceSkips(s: string)
    ensures forall k | 0 <= k < SkipSpace(s) :: IsSpace(s[k])
  {
    if s != "" && IsSpace(s[0]) {
      SkipSpaceSkips(s[1..]);
      forall k | 0 <= k < SkipSpace(s) ensures IsSpace(s[k]) {
        if k > 0 { assert s[k] == s[1..][k - 1]; }
      }
    }
  }

  lemma {:induction false} DigitRunIs(b: Base, s: string, k: nat)
    requires k <= |s| && (forall i | 0 <= i < k :: b.IsDigit(s[i])) && (k < |s| ==> !b.IsDigit(s[k]))
    ensures DigitRun(b, s) == k
  {
    if k > 0 { DigitRunIs(b, s[1..], k - 1); }
  }

  lemma {:induction false} DigitRunRuns(b: Base, s: string)
    ensures var k := DigitRun(b, s);
            (forall i | 0 <= i < k :: b.IsDigit(s[i])) && (k < |s| ==> !b.IsDigit(s[k]))
  {
    if s != "" && b.IsDigit(s[0]) {
      DigitRunRuns(b, s[1..]);
      forall i | 0 <= i < DigitRun(b, s) ensures b.IsDigit(s[i]) {
        if i > 0 { assert s[i] == s[1..][i - 1]; }
      }
    }
  }

  lemma DigitsFrom(b: Base, s: string, j: nat, end: nat)
    requires j < end <= |s| && (forall k | j <= k < end :: b.IsDigit(s[k])) && (end < |s| ==> !b.IsDigit(s[end]))
    ensures DigitRun(b, s[j..]) == end - j && s[j..][..end - j] == s[j..end] && AllDigits(b, s[j..end])
  {
    DigitRunIs(b, s[j..], end - j);
  }

  // Where the digits start, after white space up to i and a sign.
  function SignEnd(s: string, i: nat): nat {
    if i < |s| && (s[i] == '-' || s[i] == '+') then i + 1 else i
  }

  lemma ScanInParts(b: Base, s: string)
    ensures var i := SkipSpace(s);
            SignEnd(s, i) <= |s| && ScanNumber(b, s) == ScanFrom(b, s, i < |s| && s[i] == '-', SignEnd(s, i))
  {}

  lemma SignIs(s: string, i: nat, j: nat)
    requires i <= j < |s| && (s[i..j] == "" || s[i..j] == "+" || s[i..j] == "-") && Decimal.IsDigit(s[j])
    ensures SignEnd(s, i) == j && !IsSpace(s[i]) && (s[i] == '-' <==> s[i..j] == "-")
  {
    if i < j { assert s[i] == s[i..j][0]; }
  }

  /** A number that is there is what is scanned. */
  lemma ScanFinds(b: Base, s: string, i: nat, j: nat, end: nat)
    requires NumberAt(b, s, i, j, end)
    ensures AllDigits(b, s[j..end])
    ensures ScanNumber(b, s) == Scan(s[i..j] == "-", Value(b, s[j..end]), end)
  {
    SignIs(s, i, j);
    SkipSpaceIs(s, i);
    ScanInParts(b, s);
    DigitsFrom(b, s, j, end);
  }

  lemma SignIsThere(s: string, i: nat)
    requires i <= |s|
    ensures var j := SignEnd(s, i); i <= j <= |s| && (s[i..j] == "" || s[i..j] == "+" || s[i..j] == "-")
  {
    if SignEnd(s, i) == i + 1 { assert s[i..i + 1] == [s[i]]; }
  }

  lemma RunIsThere(b: Base, s: string, j: nat, k: nat)
    requires j <= |s| && k == DigitRun(b, s[j..])
    ensures (forall x | j <= x < j + k :: b.IsDigit(s[x])) && (j + k < |s| ==> !b.IsDigit(s[j + k]))
  {
    DigitRunRuns(b, s[j..]);
    forall x | j <= x < j + k ensures b.IsDigit(s[x]) {
      assert s[x] == s[j..][x - j];
    }
    assert j + k < |s| ==> s[j + k] == s[j..][k];
  }

  /** What is scanned is there. */
  lemma ScanIsThere(b: Base, s: string) returns (i: nat, j: nat)
    requires ScanNumber(b, s).end > 0
    ensures NumberAt(b, s, i, j, ScanNumber(b, s).end)
  {
    i := SkipSpace(s);
    j := SignEnd(s, i);
    SkipSpaceSkips(s);
    SignIsThere(s, i);
    ScanInParts(b, s);
    RunIsThere(b, s, j, DigitRun(b, s[j..]));
  }

  lemma NothingScanned(b: Base, s: string)
    ensures ScanNumber(b, s).end == 0 ==> ScanNumber(b, s) == Scan(false, 0, 0)
  {}
}
