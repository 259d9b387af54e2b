/** pax_err.h: the codes in use. */
module PaxErrors {
  const PX_SUCCESS := 0
  const PX_SUCCESS_STD_HEADER := 2

  const PX_ERROR_INVALID := -101
  const PX_ERROR_NOT_PAX_HEADER := -105
  const PX_ERROR_INVALID_HEADER := -106
  const PX_ERROR_NOT_SUPPORTED := -107
  const PX_ERROR_REQUIRE_DEFAULTS := -108
  const PX_ERROR_DEFAULTS_XHDR := -109
  const PX_ERROR_INVALID_BUFFER := -110
  const PX_ERROR_NO_KEY := -200
  const PX_ERROR_MALFORMED := -201
  const PX_ERROR_DUPLICATE_INSERTION := -202
  const PX_ERROR_I64_TYPE := -211
  const PX_ERROR_U64_TYPE := -212
  const PX_ERROR_TIME_TYPE := -213
  const PX_ERROR_STRING_TYPE := -214
  const PX_ERROR_RANGE := -301
  const PX_ERROR_FPART_TOO_PRECISE := -303
  const PX_ERROR_DIV_ZERO := -304
  const PX_ERROR_IMPROPER_FRACTION := -305
  const PX_ERROR_OVERFLOW := -400
  const PX_ERROR_LEADING_CHARS := -401
  const PX_ERROR_TRAILING_CHARS := -402
  const PX_ERROR_END_OF_HEADER := -404
  const PX_ERROR_WONT_FIT := -500
}

/** pax_util.c: numbers in header text, and nanoseconds as a decimal fraction. */
module PaxUtil {
  import opened Common
  import opened Numerals
  import opened PaxErrors

  const I64_MAX: nat := 0x7fff_ffff_ffff_ffff
  const U64_MAX: nat := 0xffff_ffff_ffff_ffff

  type I64 = x: int | -0x8000_0000_0000_0000 <= x <= I64_MAX
  type U64 = x: nat | x <= U64_MAX

  /** A parsed number and where the conversion stopped. */
  datatype Parsed<T> = Parsed(value: T, next: nat)

  // The checks the two integer parsers share after the conversion.
  function Ended<T>(value: T, next: nat, end: Option<nat>, allowTrailing: bool): Result<Parsed<T>> {
    if end.Some? && next > end.value then Err(PX_ERROR_MALFORMED)
    else if end.Some? && !allowTrailing && next != end.value then Err(PX_ERROR_TRAILING_CHARS)
    else Ok(Parsed(value, next))
  }

  /** parse_i64 over the C string s. */
  function ParseI64(b: Base, s: string, end: Option<nat>, allowSpace: bool, allowTrailing: bool)
    : Result<Parsed<I64>>
  {
    if s != "" && IsSpace(s[0]) && !allowSpace then Err(PX_ERROR_LEADING_CHARS)
    else
      var r := ScanNumber(b, s);
      if r.Signed() > I64_MAX || r.Signed() < 0 - I64_MAX - 1 then Err(PX_ERROR_RANGE)
      else Ended<I64>(r.Signed(), r.end, end, allowTrailing)
  }

  /** parse_u64 over the C string s; a negative number is out of range. */
  function ParseU64(b: Base, s: string, end: Option<nat>, allowSpace: bool, allowTrailing: bool)
    : Result<Parsed<U64>>
  {
    if s != "" && IsSpace(s[0]) && !allowSpace then Err(PX_ERROR_LEADING_CHARS)
    else
      var r := ScanNumber(b, s);
      if r.Signed() < 0 || r.magnitude > U64_MAX then Err(PX_ERROR_RANGE)
      else Ended<U64>(r.magnitude, r.end, end, allowTrailing)
  }

  // ------------------------------------------------------------ what the parsers accept

  /** The text begins with this number, which ends at next; or with none, and both are 0. */
  ghost predicate Reads(b: Base, s: string, v: int, next: nat) {
    || (next == 0 && v == 0 && forall i, j, end :: !NumberAt(b, s, i, j, end))
    || (exists i, j :: NumberAt(b, s, i, j, next) && v == SignedAt(b, s, i, j, next))
  }

  function SignedAt(b: Base, s: string, i: nat, j: nat, end: nat): int
    requires NumberAt(b, s, i, j, end)
  {
    ScanFinds(b, s, i, j, end);
    if s[i..j] == "-" then 0 - Value(b, s[j..end]) else Value(b, s[j..end])
  }

  lemma ReadsIsScanned(b: Base, s: string, v: int, next: nat)
    ensures Reads(b, s, v, next) <==> ScanNumber(b, s).Signed() == v && ScanNumber(b, s).end == next
  {
    NothingScanned(b, s);
    var end := ScanNumber(b, s).end;
    if end > 0 {
      var i, j := ScanIsThere(b, s);
      ScanFinds(b, s, i, j, end);
      assert SignedAt(b, s, i, j, end) == ScanNumber(b, s).Signed();
    }
    if i, j :| NumberAt(b, s, i, j, next) && v == SignedAt(b, s, i, j, next) {
      ScanFinds(b, s, i, j, next);
    }
    if end == 0 {
      forall i, j, e ensures !NumberAt(b, s, i, j, e) {
        if NumberAt(b, s, i, j, e) { ScanFinds(b, s, i, j, e); }
      }
    }
  }

  /** There is always one such reading. */
  lemma SomethingIsRead(b: Base, s: string) returns (v: int, next: nat)
    ensures Reads(b, s, v, next)
  {
    v, next := ScanNumber(b, s).Signed(), ScanNumber(b, s).end;
    ReadsIsScanned(b, s, v, next);
  }

  // What both parsers do with a number in range.
  function Outcome<T>(v: T, next: nat, end: Option<nat>, allowTrailing: bool): Result<Parsed<T>> {
    match end
    case None => Ok(Parsed(v, next))
    case Some(e) =>
      if next > e then Err(-201) else if next < e && !allowTrailing then Err(-402) else Ok(Parsed(v, next))
  }

  /** parse_i64 and parse_u64 on every text: leading white space that is not allowed, a
      number out of range, one that goes beyond the end, one that stops before it, or
      the number. */
  lemma ParseOutcome(
      b: Base, s: string, end: Option<nat>, allowSpace: bool, allowTrailing: bool, v: int, next: nat)
    requires Reads(b, s, v, next)
    ensures var blocked := s != "" && s[0] as int in {9, 10, 11, 12, 13, 32} && !allowSpace;
            && ParseI64(b, s, end, allowSpace, allowTrailing)
               == (if blocked then Err(-401)
                   else if v < -0x8000_0000_0000_0000 || v > 0x7fff_ffff_ffff_ffff then Err(-301)
                   else Outcome<I64>(v, next, end, allowTrailing))
            && ParseU64(b, s, end, allowSpace, allowTrailing)
               == (if blocked then Err(-401)
                   else if v < 0 || v > 0xffff_ffff_ffff_ffff then Err(-301)
                   else Outcome<U64>(v, next, end, allowTrailing))
  {
    ReadsIsScanned(b, s, v, next);
    if s != "" { SpaceCodes(s[0]); }
  }

  const BLOCK: nat := 512

  /** round_to_block, for the one block size in use. */
  function RoundToBlock(value: nat): (r: nat)
    ensures r % BLOCK == 0 && value <= r < value + BLOCK
  {
    (value / BLOCK + if value % BLOCK != 0 then 1 else 0) * BLOCK
  }

  // The same in a size_t of 64 bits.
  function RoundToBlock64(value: U64): U64 {
    (value / BLOCK + if value % BLOCK != 0 then 1 else 0) * BLOCK % (U64_MAX + 1)
  }

  /** A size_t is rounded up if and only if it is not among the last 511; those become 0. */
  lemma RoundWrapsIff(value: U64)
    ensures RoundToBlock64(value) == RoundToBlock(value) <==> value <= U64_MAX + 1 - BLOCK
    ensures value > U64_MAX + 1 - BLOCK ==> RoundToBlock64(value) == 0
  {
    if value > U64_MAX + 1 - BLOCK {
      assert RoundToBlock(value) == U64_MAX + 1;
    }
  }

  // ------------------------------------------------------------ format_ppb

  const BILLION: nat := 1_000_000_000

  /** The digits of ppb / 10^width after the decimal point, without trailing
      zeros. */
  function Fraction(ppb: nat, width: nat): (s: string)
    requires 0 < ppb < Pow(Decimal, width)
    ensures 0 < |s| <= width
    decreases width
  {
    if ppb % 10 == 0 then
      assert Pow(Decimal, 1) == 10;
      Fraction(ppb / 10, width - 1)
    else
      assert width > 0;
      NumeralLength(Decimal, ppb, width);
      Zeros(width - |Numeral(Decimal, ppb)|) + Numeral(Decimal, ppb)
  }

  lemma PowBillion()
    ensures Pow(Decimal, 9) == BILLION
  {
    assert Pow(Decimal, 3) == 1000;
    assert Pow(Decimal, 6) == 1000_000;
  }

  /** ppb as a decimal fraction of one: a point and one to nine digits. */
  function PpbText(ppb: nat): (s: string)
    requires 0 < ppb < BILLION
    ensures 2 <= |s| <= 10
  {
    PowBillion();
    "." + Fraction(ppb, 9)
  }

  lemma TimesTen(q: nat, d: nat)
    requires d > 0
    ensures (q * d) % (d * 10) == (q % 10) * d
  {
    var a, r := q / 10, q % 10;
    DivTenSplit(q * d, d, q, 0, a, r);
    DivModUnique(q * d, d * 10, a, r * d);
  }

  lemma StripStep(q: nat, d: nat, width: nat)
    requires d > 0 && width >= 1 && 0 < q < Pow(Decimal, width) && (q * d) % (d * 10) == 0
    ensures width >= 2 && 0 < q / 10 < Pow(Decimal, width - 1)
    ensures q * d == q / 10 * (d * 10)
    ensures Fraction(q / 10, width - 1) == Fraction(q, width)
  {
    TimesTen(q, d);
    assert Pow(Decimal, 1) == 10;
    assert q * d == 10 * (q / 10) * d;
  }

  lemma DivModUnique(x: nat, d: nat, a: nat, r: nat)
    requires d > 0 && x == d * a + r && r < d
    ensures x / d == a && x % d == r
  {
    var e := x / d - a;
    assert d * e == r - x % d;
    assert e >= 1 ==> d * e >= d;
    assert e <= -1 ==> d * e <= d * -1;
  }

  lemma DivTen(x: nat, d: nat)
    requires d > 0
    ensures x / (d * 10) == x / d / 10
  {
    var q, r := x / d, x % d;
    var a, s := q / 10, q % 10;
    DivTenSplit(x, d, q, r, a, s);
    DivModUnique(x, d * 10, a, s * d + r);
  }

  lemma DivTenSplit(x: nat, d: nat, q: nat, r: nat, a: nat, s: nat)
    requires x == d * q + r && q == 10 * a + s && s < 10 && r < d
    ensures x == (d * 10) * a + (s * d + r)
    ensures s * d + r < d * 10
  {
    assert d * q == d * (10 * a) + d * s;
    assert s * d <= 9 * d;
  }

  /** The first loop: divide by ever larger powers of ten until there is a
      remainder.  What remains of ppb has the same fraction, in fewer places. */
  method StripZeros(ppb: nat) returns (reqLen: nat, divisor: nat)
    requires 0 < ppb < Pow(Decimal, 9)
    ensures 2 <= reqLen <= 10 && divisor > 0
    ensures var q := ppb / divisor;
            && 0 < q < Pow(Decimal, reqLen - 1) && q % 10 != 0
            && Fraction(q, reqLen - 1) == Fraction(ppb, 9)
  {
    reqLen, divisor := 10, 1;
    ghost var q := ppb;
    while ppb % (divisor * 10) == 0
      invariant divisor > 0 && ppb == q * divisor
      invariant 2 <= reqLen <= 10 && 0 < q < Pow(Decimal, reqLen - 1)
      invariant Fraction(q, reqLen - 1) == Fraction(ppb, 9)
      decreases q
    {
      StripStep(q, divisor, reqLen - 1);
      q, divisor, reqLen := q / 10, divisor * 10, reqLen - 1;
    }
    TimesTen(q, divisor);
    DivModUnique(ppb, divisor, q, 0);
  }

  /** The second loop: one place less to fill for every digit but the first. */
  method LeadingPlaces(ppb: nat, start: nat, places: nat) returns (zeros: int)
    requires start > 0 && ppb / start > 0
    ensures zeros == places + 1 - |Numeral(Decimal, ppb / start)|
  {
    zeros := places;
    var divisor := start;
    ghost var m := ppb / start;
    while ppb / (divisor * 10) != 0
      invariant divisor > 0 && ppb / divisor == m > 0
      invariant zeros - |Numeral(Decimal, m)| == places - |Numeral(Decimal, ppb / start)|
      decreases m
    {
      DivTen(ppb, divisor);
      divisor, m, zeros := divisor * 10, m / 10, zeros - 1;
    }
    DivTen(ppb, divisor);
  }

  /** format_ppb: the length needed, and the bytes written - the text and a NUL - if
      there is a buffer as long as the text.  An improper fraction gives the negated,
      so positive, error code. */
  method FormatPpb(ppb: nat, bufLen: Option<nat>) returns (r: int, bytes: Option<string>)
    ensures r == if ppb >= BILLION then -PX_ERROR_IMPROPER_FRACTION else if ppb == 0 then 0 else |PpbText(ppb)|
    ensures bytes == if 0 < ppb < BILLION && bufLen.Some? && r <= bufLen.value then Some(PpbText(ppb) + "\0") else None
  {
    if ppb >= BILLION {
      return -PX_ERROR_IMPROPER_FRACTION, None;
    }
    if ppb == 0 {
      return 0, None;
    }
    PowBillion();
    var reqLen, divisor := StripZeros(ppb);
    var digits := ppb / divisor;
    var zeros := LeadingPlaces(ppb, divisor, reqLen - 2);
    NumeralLength(Decimal, digits, reqLen - 1);
    assert PpbText(ppb) == "." + (Zeros(zeros) + Numeral(Decimal, digits));
    if bufLen.None? || reqLen > bufLen.value {
      return reqLen, None;
    }
    return reqLen, Some("." + (Zeros(zeros) + Numeral(Decimal, digits)) + "\0");
  }

  // ------------------------------------------------------------ parse_fpart

  /** The variables of parse_fpart's loop. */
  datatype Fpart = Fpart(pos: nat, num: nat, den: nat, tooPrecise: bool)

  /** How far the loop has got after a number of iterations. */
  datatype Progress = Running(at: Fpart) | Left(at: Fpart) | Aborted(code: int)

  predicate LoopGuard(s: string, end: nat, f: Fpart) {
    f.pos <= end && f.pos < |s| && Decimal.IsDigit(s[f.pos])
  }

  /** One iteration: once tooPrecise is set, continue skips the increment of the
      position as well. */
  function LoopBody(s: string, skip: bool, f: Fpart): Progress
    requires f.pos < |s| && Decimal.IsDigit(s[f.pos])
  {
    if f.tooPrecise then Running(f)
    else
      var num, den := f.num * 10 + DigitValue(s[f.pos]), f.den * 10;
      if den > I64_MAX / 10 && !skip then Aborted(PX_ERROR_FPART_TOO_PRECISE)
      else Running(Fpart(f.pos + 1, num, den, den > I64_MAX / 10))
  }

  function Iterated(s: string, end: nat, skip: bool, n: nat): Progress {
    if n == 0 then Running(Fpart(0, 0, 1, false))
    else
      var p := Iterated(s, end, skip, n - 1);
      if !p.Running? then p
      else if !LoopGuard(s, end, p.at) then Left(p.at)
      else LoopBody(s, skip, p.at)
  }

  lemma PowEighteen()
    ensures Pow(Decimal, 18) == 1_000_000_000_000_000_000 > I64_MAX / 10
    ensures Pow(Decimal, 17) == 100_000_000_000_000_000 <= I64_MAX / 10
  {
    PowBillion();
    assert Pow(Decimal, 12) == 1000 * Pow(Decimal, 9);
    assert Pow(Decimal, 15) == 1000 * Pow(Decimal, 12);
    assert Pow(Decimal, 17) == 100 * Pow(Decimal, 15);
  }

  // n digits read: numerator and denominator so far.
  function After(s: string, n: nat): Fpart
    requires n <= |s| && AllDigits(Decimal, s[..n])
  {
    Fpart(n, Value(Decimal, s[..n]), Pow(Decimal, n), n >= 18)
  }

  // One more digit.
  lemma ReadsOne(s: string, skip: bool, n: nat)
    requires n < |s| && n < 18 && (n < 17 || skip) && AllDigits(Decimal, s[..n + 1])
    ensures AllDigits(Decimal, s[..n]) && Decimal.IsDigit(s[n])
    ensures LoopBody(s, skip, After(s, n)) == Running(After(s, n + 1))
  {
    assert s[n] == s[..n + 1][n] && s[..n + 1][n] in s[..n + 1];
    assert s[..n + 1][..n] == s[..n];
    assert forall c <- s[..n] :: c in s[..n + 1];
    PowEighteen();
    PowMonotone(n, 17);
    if n < 17 { PowMonotone(n + 1, 17); }
  }

  lemma {:induction false} ReadsDigits(s: string, end: nat, skip: bool, k: nat, n: nat)
    requires k <= |s| && AllDigits(Decimal, s[..k]) && k <= end + 1
    requires n <= k && n <= 18 && (n < 18 || skip)
    ensures AllDigits(Decimal, s[..n]) && Iterated(s, end, skip, n) == Running(After(s, n))
  {
    assert forall c <- s[..n] :: c in s[..k];
    if n != 0 {
      ReadsDigits(s, end, skip, k, n - 1);
      ReadsOne(s, skip, n - 1);
    }
  }

  lemma {:induction false} StaysStuck(s: string, end: nat, n: nat)
    requires |s| > 18 && AllDigits(Decimal, s[..19]) && 18 <= end && n >= 18
    ensures AllDigits(Decimal, s[..18]) && Iterated(s, end, true, n) == Running(After(s, 18))
  {
    assert s[18] == s[..19][18] && s[..19][18] in s[..19];
    if n == 18 {
      ReadsDigits(s, end, true, 19, 18);
    } else {
      StaysStuck(s, end, n - 1);
    }
  }

  /** Asked to skip over-precise digits, parse_fpart never returns on 19 or more
      digits: after any number of iterations the loop is still running. */
  lemma NeverReturns(s: string, end: nat, n: nat)
    requires DigitRun(Decimal, s) >= 19 && 18 <= end
    ensures Iterated(s, end, true, n).Running?
  {
    var k := DigitRun(Decimal, s);
    assert forall c <- s[..19] :: c in s[..k];
    if n >= 18 { StaysStuck(s, end, n); } else { ReadsDigits(s, end, true, 19, n); }
  }

  // The digits up to and including the one at end, if there are as many.
  function DigitsUpTo(s: string, end: nat): (k: nat)
    ensures k <= |s| && AllDigits(Decimal, s[..k]) && k <= end + 1
  {
    var k := DigitRun(Decimal, s);
    if k <= end then k
    else
      assert forall c <- s[..end + 1] :: c in s[..k];
      end + 1
  }

  /** On at most 18 digits up to end it leaves the loop with the value of the digits over
      a power of ten. */
  lemma ReturnsOnEighteenDigits(s: string, end: nat)
    requires DigitsUpTo(s, end) <= 18
    ensures var k := DigitsUpTo(s, end);
            forall n: nat | n > k :: Iterated(s, end, true, n) == Left(After(s, k))
  {
    var k := DigitsUpTo(s, end);
    RunEnds(s);
    ReadsDigits(s, end, true, k, k);
    forall n: nat | n > k ensures Iterated(s, end, true, n) == Left(After(s, k)) {
      StaysLeft(s, end, k, n);
    }
  }

  lemma {:induction false} RunEnds(s: string)
    ensures var k := DigitRun(Decimal, s); k < |s| ==> !Decimal.IsDigit(s[k])
  {
    if s != "" && Decimal.IsDigit(s[0]) { RunEnds(s[1..]); }
  }

  lemma {:induction false} StaysLeft(s: string, end: nat, k: nat, n: nat)
    requires k < n && Iterated(s, end, true, k).Running? && !LoopGuard(s, end, Iterated(s, end, true, k).at)
    ensures Iterated(s, end, true, n) == Left(Iterated(s, end, true, k).at)
  {
    if n > k + 1 { StaysLeft(s, end, k, n - 1); }
  }

  /** Exactly: the loop is left after some number of iterations iff there are at most 18
      digits, or the end comes before a nineteenth. */
  lemma FpartTerminatesIff(s: string, end: nat)
    ensures (exists n: nat :: !Iterated(s, end, true, n).Running?) <==> DigitRun(Decimal, s) <= 18 || end < 18
  {
    var k := DigitsUpTo(s, end);
    if k <= 18 {
      ReturnsOnEighteenDigits(s, end);
      assert !Iterated(s, end, true, k + 1).Running?;
    } else {
      forall n: nat ensures Iterated(s, end, true, n).Running? {
        NeverReturns(s, end, n);
      }
    }
  }

  /** fpart_to_ppb */
  function FpartToPpb(num: nat, den: nat): Result<nat> {
    if den == 0 then Err(PX_ERROR_DIV_ZERO)
    else if num >= den then Err(PX_ERROR_IMPROPER_FRACTION)
    else
      var result := if den < BILLION then (BILLION / den) * num else num / (den / BILLION);
      if result >= BILLION then Err(PX_ERROR_INVALID) else Ok(result)
  }

  lemma TenTimes(v: nat, p: nat, x: nat)
    requires v * p == x
    ensures v * (p * 10) == x * 10
  {
  }

  lemma OnePlaceLess(ppb: nat, width: nat)
    requires 0 < ppb < Pow(Decimal, width) && ppb % 10 == 0
    ensures width > 1 && 0 < ppb / 10 < Pow(Decimal, width - 1)
    ensures Fraction(ppb, width) == Fraction(ppb / 10, width - 1)
  {
    assert Pow(Decimal, 1) == 10;
  }

  // Without a trailing zero all places are printed.
  lemma FullFraction(ppb: nat, width: nat)
    requires 0 < ppb < Pow(Decimal, width) && ppb % 10 != 0
    ensures AllDigits(Decimal, Fraction(ppb, width)) && |Fraction(ppb, width)| == width
    ensures Value(Decimal, Fraction(ppb, width)) == ppb
  {
    var s := Numeral(Decimal, ppb);
    NumeralLength(Decimal, ppb, width);
    ValueOfNumeral(Decimal, ppb);
    LeadingZeros(Decimal, width - |s|, s);
  }

  lemma {:induction false} ValueOfFraction(ppb: nat, width: nat)
    requires 0 < ppb < Pow(Decimal, width)
    ensures |Fraction(ppb, width)| <= width && AllDigits(Decimal, Fraction(ppb, width))
    ensures Value(Decimal, Fraction(ppb, width)) * Pow(Decimal, width - |Fraction(ppb, width)|) == ppb
    decreases width
  {
    var f := Fraction(ppb, width);
    if ppb % 10 == 0 {
      OnePlaceLess(ppb, width);
      ValueOfFraction(ppb / 10, width - 1);
      OnePowerMore(width - 1 - |f|);
      TenTimes(Value(Decimal, f), Pow(Decimal, width - 1 - |f|), ppb / 10);
    } else {
      FullFraction(ppb, width);
      assert Pow(Decimal, 0) == 1;
    }
  }

  lemma OnePowerMore(k: nat)
    ensures Pow(Decimal, k + 1) == Pow(Decimal, k) * 10
  {}

  lemma {:induction false} NoTrailingZero(ppb: nat, width: nat)
    requires 0 < ppb < Pow(Decimal, width)
    ensures Fraction(ppb, width)[|Fraction(ppb, width)| - 1] != '0'
    decreases width
  {
    if ppb % 10 == 0 {
      assert Pow(Decimal, 1) == 10;
      NoTrailingZero(ppb / 10, width - 1);
    } else {
      NumeralLength(Decimal, ppb, width);
    }
  }

  lemma {:induction false} ValueBelowPower(s: string)
    requires AllDigits(Decimal, s)
    ensures Value(Decimal, s) < Pow(Decimal, |s|)
  {
    if s != "" {
      assert s[|s| - 1] in s;
      ValueBelowPower(s[..|s| - 1]);
    }
  }

  lemma BillionOverPower(k: nat)
    requires k <= 9
    ensures BILLION / Pow(Decimal, k) == Pow(Decimal, 9 - k)
    ensures Pow(Decimal, k) < BILLION <==> k < 9
  {
    assert Pow(Decimal, 3) == 1000;
    assert Pow(Decimal, 6) == 1000_000;
    PowBillion();
  }

  lemma FpartOfDigits(v: nat, k: nat, ppb: nat)
    requires 1 <= k <= 9 && v < Pow(Decimal, k) && v * Pow(Decimal, 9 - k) == ppb < BILLION
    ensures FpartToPpb(v, Pow(Decimal, k)) == Ok(ppb)
  {
    BillionOverPower(k);
    if k == 9 {
      PowBillion();
      assert Pow(Decimal, 0) == 1;
    }
  }

  lemma FractionLength(ppb: nat, width: nat)
    requires 0 < ppb < Pow(Decimal, width)
    ensures 1 <= |Fraction(ppb, width)| <= width
    decreases width
  {
    if ppb % 10 == 0 {
      OnePlaceLess(ppb, width);
      FractionLength(ppb / 10, width - 1);
    } else {
      NumeralLength(Decimal, ppb, width);
    }
  }

  lemma PowerOverBillion(k: nat)
    requires 9 <= k <= 18
    ensures Pow(Decimal, k) >= BILLION && Pow(Decimal, k) / BILLION == Pow(Decimal, k - 9)
  {
    PowBillion();
    assert Pow(Decimal, 3) == 1000 && Pow(Decimal, 6) == 1000_000;
    assert Pow(Decimal, 12) == 1000 * Pow(Decimal, 9);
    assert Pow(Decimal, 15) == 1000 * Pow(Decimal, 12);
    assert Pow(Decimal, 18) == 1000 * Pow(Decimal, 15);
  }

  lemma {:induction false} PowAdds(m: nat, n: nat)
    ensures Pow(Decimal, m + n) == Pow(Decimal, m) * Pow(Decimal, n)
  {
    if m > 0 {
      PowAdds(m - 1, n);
      OnePowerMore(m - 1);
      OnePowerMore(m - 1 + n);
    }
  }

  lemma QuotientBelow(v: nat, p: nat, q: nat)
    requires p > 0 && v < p * q
    ensures v / p < q
  {
    var d := v / p;
    assert v == p * d + v % p;
    assert d >= q ==> p * d >= p * q;
  }

  /** With more than nine digits the further ones are cut off; with fewer, zeros are
      added. */
  lemma FractionOfDigits(v: nat, k: nat)
    requires 1 <= k <= 18 && v < Pow(Decimal, k)
    ensures FpartToPpb(v, Pow(Decimal, k))
            == Ok(if k <= 9 then v * Pow(Decimal, 9 - k) else v / Pow(Decimal, k - 9))
  {
    PowBillion();
    if k <= 9 {
      PowAdds(k, 9 - k);
      assert v * Pow(Decimal, 9 - k) < Pow(Decimal, k) * Pow(Decimal, 9 - k);
      FpartOfDigits(v, k, v * Pow(Decimal, 9 - k));
    } else {
      PowerOverBillion(k);
      PowAdds(k - 9, 9);
      QuotientBelow(v, Pow(Decimal, k - 9), BILLION);
    }
  }

  // The digits as a fraction are the number.
  lemma FractionIsPpb(ppb: nat, f: string)
    requires 0 < ppb < BILLION && f == Fraction(ppb, 9)
    ensures 1 <= |f| <= 9 && AllDigits(Decimal, f)
    ensures FpartToPpb(Value(Decimal, f), Pow(Decimal, |f|)) == Ok(ppb)
  {
    PowBillion();
    FractionLength(ppb, 9);
    ValueOfFraction(ppb, 9);
    ValueBelowPower(f);
    FpartOfDigits(Value(Decimal, f), |f|, ppb);
  }

  // The loop reads exactly the digits.
  lemma FractionIsRead(f: string, rest: string)
    requires 1 <= |f| <= 9 && AllDigits(Decimal, f) && (rest == "" || !Decimal.IsDigit(rest[0]))
    ensures DigitRun(Decimal, f + rest) == |f| && (f + rest)[..|f|] == f
    ensures forall n: nat | n > |f| :: Iterated(f + rest, |f|, true, n) == Left(After(f + rest, |f|))
  {
    RunOfDigits(Decimal, f, rest);
    assert (f + rest)[..|f|] == f;
    ReturnsOnEighteenDigits(f + rest, |f|);
  }

  /** For every number of parts per billion, the text has no trailing zero, the
      loop reads it back and fpart_to_ppb returns the number. */
  lemma FractionRoundTrip(ppb: nat, rest: string)
    requires 0 < ppb < BILLION && (rest == "" || !Decimal.IsDigit(rest[0]))
    ensures var f := PpbText(ppb)[1..];
            && f[|f| - 1] != '0'
            && DigitRun(Decimal, f + rest) == |f|
            && (forall n: nat | n > |f| ::
                  Iterated(f + rest, |f|, true, n) == Left(After(f + rest, |f|)))
            && FpartToPpb(After(f + rest, |f|).num, After(f + rest, |f|).den) == Ok(ppb)
  {
    PowBillion();
    var f := Fraction(ppb, 9);
    assert PpbText(ppb)[1..] == f;
    FractionIsPpb(ppb, f);
    FractionIsRead(f, rest);
    NoTrailingZero(ppb, 9);
  }
}
