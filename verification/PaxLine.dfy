/** The length that counts its own digits. */
module PaxLength {
  import opened Common
  import opened Numerals
  import opened PaxErrors

  function NumDigits(n: nat): (d: nat)
    ensures d > 0
  {
    |Numeral(Decimal, n)|
  }

  /** A line of total length total consists of its length in decimal and len more
      characters. */
  predicate SelfCounting(len: nat, total: nat) {
    total == len + NumDigits(total)
  }

  /** The least self-counting length. */
  function LineLength(len: nat): nat {
    var d := NumDigits(len);
    if NumDigits(len + d) == d then len + d else len + d + 1
  }

  lemma DigitsBetween(n: nat, k: nat)
    requires k > 0
    ensures NumDigits(n) == k <==> (k == 1 || Pow(Decimal, k - 1) <= n) && n < Pow(Decimal, k)
  {
    NumeralLength(Decimal, n, k);
    if k > 1 { NumeralLength(Decimal, n, k - 1); }
  }

  lemma {:induction false} PowExceeds(k: nat)
    ensures Pow(Decimal, k) > k
  {
    if k > 0 { PowExceeds(k - 1); }
  }

  // Adding the digit count carries into at most one more digit.
  lemma AtMostOneMore(len: nat)
    ensures var d := NumDigits(len);
            d <= NumDigits(len + d) <= d + 1 && NumDigits(len + d + 1) <= d + 1
  {
    var d := NumDigits(len);
    DigitsBetween(len, d);
    PowExceeds(d);
    NumeralLength(Decimal, len + d, d + 1);
    NumeralLength(Decimal, len + d + 1, d + 1);
    if d > 1 { NumeralLength(Decimal, len + d, d - 1); }
  }

  // A length with two or more extra digits is too far away to be reached.
  lemma TooManyDigits(len: nat, total: nat)
    requires SelfCounting(len, total)
    ensures NumDigits(len) <= NumDigits(total) <= NumDigits(len) + 1
  {
    var d, e := NumDigits(len), NumDigits(total);
    DigitsBetween(len, d);
    DigitsBetween(total, e);
    if e > d + 1 {
      PowMonotone(d, e - 2);
      PowExceeds(e - 2);
    }
    if e < d { NumeralLength(Decimal, total, d - 1); }
  }

  /** A self-counting length always exists, LineLength is the least one, and the
      only other candidate is the next number. */
  lemma LineLengthIsLeast(len: nat, other: nat)
    ensures SelfCounting(len, LineLength(len))
    ensures SelfCounting(len, other) ==> other == LineLength(len) || other == LineLength(len) + 1
  {
    var d := NumDigits(len);
    AtMostOneMore(len);
    DigitsBetween(len + d, d);
    DigitsBetween(len + d + 1, d + 1);
    DigitsBetween(len + d, d + 1);
    NumeralLength(Decimal, len + d + 1, d + 1);
    if SelfCounting(len, other) { TooManyDigits(len, other); }
  }

  /** There are two exactly when the longer one is a power of ten. */
  lemma TwoLengths(len: nat)
    ensures SelfCounting(len, LineLength(len) + 1)
            <==> len + NumDigits(len) + 1 == Pow(Decimal, NumDigits(len))
  {
    var d := NumDigits(len);
    LineLengthIsLeast(len, 0);
    AtMostOneMore(len);
    DigitsBetween(len + d, d);
    DigitsBetween(len + d + 1, d + 1);
    DigitsBetween(len + d + 1, d);
    DigitsBetween(len + d + 2, d + 2);
    PowExceeds(d);
    DigitsBetween(len, d);
    assert Pow(Decimal, d + 1) == 10 * Pow(Decimal, d);
  }

  /** _adjust_line_length: the least self-counting length, or an error when it
      does not fit a size_t whose maximum is sizeMax. */
  method AdjustLineLength(len: nat, sizeMax: nat) returns (r: Result<nat>)
    requires 65535 <= sizeMax && len <= sizeMax
    ensures r == if LineLength(len) <= sizeMax then Ok(LineLength(len)) else Err(PX_ERROR_RANGE)
  {
    var exp, tenExp := 1, 10;
    assert Pow(Decimal, 1) == 10;
    while tenExp < len
      invariant exp >= 1 && tenExp == Pow(Decimal, exp) <= sizeMax
      invariant exp == 1 || Pow(Decimal, exp - 1) < len
      decreases len - tenExp
    {
      if tenExp > sizeMax / 10 {
        break;
      }
      exp, tenExp := exp + 1, tenExp * 10;
    }
    PowExceeds(exp);
    assert Pow(Decimal, exp + 1) == 10 * Pow(Decimal, exp);
    var adjustment := exp;
    if len >= tenExp - exp {
      adjustment := adjustment + 1;
    }
    AdjustmentIsRight(len, exp, adjustment, sizeMax);
    if sizeMax - adjustment < len {
      return Err(PX_ERROR_RANGE);
    }
    return Ok(len + adjustment);
  }

  lemma AdjustmentIsRight(len: nat, exp: nat, adjustment: nat, sizeMax: nat)
    requires exp >= 1 && len <= sizeMax && (exp == 1 || Pow(Decimal, exp - 1) < len)
    requires len <= Pow(Decimal, exp) || sizeMax < Pow(Decimal, exp + 1)
    requires adjustment == if len >= Pow(Decimal, exp) - exp then exp + 1 else exp
    ensures LineLength(len) == len + adjustment || (LineLength(len) > sizeMax && len + adjustment > sizeMax)
  {
    var p := Pow(Decimal, exp);
    PowExceeds(exp);
    assert Pow(Decimal, exp + 1) == 10 * p;
    DigitsBetween(len, exp);
    DigitsBetween(len, exp + 1);
    DigitsBetween(len + exp, exp);
    DigitsBetween(len + exp + 1, exp + 1);
  }
}

/** Extended header records: one keyword and value per line. */
module PaxRecord {
  import opened Common
  import opened Numerals
  import opened PaxErrors
  import opened PaxLength
  import opened PaxUtil

  // Not a code of the library: the line says its length is 0, and the byte before
  // the copied line is inspected.
  const READS_OUT_OF_BOUNDS := -1

  /** The typed values a pair can be made from. */
  datatype PaxValue = I64(i: I64) | U64(u: U64) | Time(sec: I64, nsec: nat) | Text(text: string)

  predicate ValidValue(v: PaxValue) {
    (v.Time? ==> v.nsec < BILLION) && (v.Text? ==> '\0' !in v.text)
  }

  /** What a pair was made from: a typed value, or a line read from a header. */
  datatype Origin = Typed(v: PaxValue) | FromLine(line: string, text: string)

  // How _format_line prints a value.
  function ValueText(v: PaxValue): string
    requires ValidValue(v)
  {
    match v
    case I64(i) => SignedText(i)
    case U64(u) => Numeral(Decimal, u)
    case Time(sec, nsec) => SignedText(sec) + if nsec == 0 then "" else PpbText(nsec)
    case Text(text) => text
  }

  // The line without its length field.
  function Body(keyword: string, text: string): (s: string)
    ensures |s| == |keyword| + |text| + 3
  {
    " " + keyword + "=" + text + "\n"
  }

  /** The header line: its own length, the keyword and the value. */
  function Line(keyword: string, text: string): string {
    Numeral(Decimal, LineLength(|Body(keyword, text)|)) + Body(keyword, text)
  }

  predicate Printable(o: Origin) {
    o.Typed? ==> ValidValue(o.v)
  }

  // The value's text, and the whole line, however the pair was made.
  function TextOf(o: Origin): string
    requires Printable(o)
  {
    match o
    case Typed(v) => ValueText(v)
    case FromLine(_, text) => text
  }

  function LineOf(keyword: string, o: Origin): string
    requires Printable(o)
  {
    match o
    case Typed(v) => Line(keyword, ValueText(v))
    case FromLine(line, _) => line
  }

  /** The number printed at the front of the line is the line's length. */
  lemma LineCountsItself(keyword: string, text: string)
    ensures |Line(keyword, text)| == LineLength(|Body(keyword, text)|)
  {
    LineLengthIsLeast(|Body(keyword, text)|, 0);
  }

  // ------------------------------------------------------------ pxp_mkpair_line

  datatype Parse = NoMorePairs | Bad(code: int) | Record(keyword: string, text: string, len: nat)

  /** strtosize_t on a 64-bit machine: a minus sign wraps around. */
  function ParseSize(b: Base, s: string): Result<nat> {
    var r := ScanNumber(b, s);
    if r.magnitude > U64_MAX then Err(PX_ERROR_RANGE)
    else if r.magnitude == 0 && r.end == 0 then Err(PX_ERROR_INVALID)
    else Ok(if r.negative && r.magnitude > 0 then U64_MAX + 1 - r.magnitude else r.magnitude)
  }

  /** strchr: the first c before any NUL. */
  function Find(s: string, c: char): (r: Option<nat>)
    ensures r.Some? ==> r.value < |s| && s[r.value] == c
  {
    if s == "" then None
    else if s[0] == c then Some(0)
    else if s[0] == '\0' then None
    else
      match Find(s[1..], c)
      case None => None
      case Some(i) => Some(i + 1)
  }

  // The keyword and value of a complete line.
  function SplitLine(line: string): Parse
    requires line != ""
  {
    if line[|line| - 1] != '\n' then Bad(PX_ERROR_MALFORMED)
    else
      match Find(line, ' ')
      case None => Bad(PX_ERROR_MALFORMED)
      case Some(sp) =>
        var parse := line[sp + 1..];
        match Find(parse, '=')
        case None => Bad(PX_ERROR_MALFORMED)
        case Some(eq) =>
          if eq == 0 then Bad(PX_ERROR_NO_KEY)
          else Record(parse[..eq], parse[eq + 1..|parse| - 1], |line|)
  }

  /** pxp_mkpair_line on a non-empty rest of the buffer. */
  function ParseLine(buf: string): (p: Parse)
    requires buf != ""
    ensures p.Record? ==> 0 < p.len <= |buf| && p.len <= U64_MAX
    ensures p.Bad? ==> p.code < 0
  {
    if buf[0] == '\0' then NoMorePairs
    else
      match ParseSize(Decimal, buf)
      case Err(code) => Bad(code)
      case Ok(len) =>
        if len > |buf| then Bad(PX_ERROR_END_OF_HEADER)
        else if len == 0 then Bad(READS_OUT_OF_BOUNDS)
        else SplitLine(buf[..len])
  }

  // ------------------------------------------------------------ the round trip

  predicate IsCString(s: string) {
    '\0' !in s
  }

  lemma {:induction false} FindSkips(pre: string, c: char, rest: string)
    requires c !in pre && '\0' !in pre
    ensures Find(pre + [c] + rest, c) == Some(|pre|)
  {
    if pre == "" {
      assert pre + [c] + rest == [c] + rest;
    } else {
      assert (pre + [c] + rest)[1..] == pre[1..] + [c] + rest;
      FindSkips(pre[1..], c, rest);
    }
  }

  /** A keyword ends at its first '='; what follows it slips into the value. */
  function KeyEnd(keyword: string): (i: nat)
    ensures i <= |keyword| && '=' !in keyword[..i] && (i < |keyword| ==> keyword[i] == '=')
  {
    if keyword == "" || keyword[0] == '=' then 0
    else
      var i := KeyEnd(keyword[1..]);
      assert keyword[..i + 1] == [keyword[0]] + keyword[1..][..i];
      i + 1
  }

  lemma KeyEndIsWhole(keyword: string)
    ensures KeyEnd(keyword) == |keyword| <==> '=' !in keyword
  {
    assert keyword[..|keyword|] == keyword;
  }

  // What comes back for one printed record.
  function Reread(keyword: string, text: string): Parse {
    var i := KeyEnd(keyword);
    if i == 0 then Bad(PX_ERROR_NO_KEY)
    else Record(keyword[..i], (keyword + "=" + text)[i + 1..], |Line(keyword, text)|)
  }

  // The part behind the length field is split at the first '='.
  lemma FindsEquals(keyword: string, text: string)
    requires IsCString(keyword)
    ensures var kv, i := keyword + "=" + text, KeyEnd(keyword);
            Find(kv + "\n", '=') == Some(i) && kv[..i] == keyword[..i] && i < |kv|
  {
    var kv, i := keyword + "=" + text, KeyEnd(keyword);
    assert kv[i] == '=' && kv[..i] == keyword[..i];
    assert kv + "\n" == keyword[..i] + ['='] + (kv[i + 1..] + "\n");
    FindSkips(keyword[..i], '=', kv[i + 1..] + "\n");
  }

  lemma SplitAt(line: string, digits: string, kv: string, i: nat)
    requires ' ' !in digits && '\0' !in digits && line == digits + [' '] + (kv + "\n")
    requires i < |kv| && Find(kv + "\n", '=') == Some(i)
    ensures SplitLine(line) == if i == 0 then Bad(PX_ERROR_NO_KEY) else Record(kv[..i], kv[i + 1..], |line|)
  {
    var parse := kv + "\n";
    FindSkips(digits, ' ', parse);
    assert line[|digits| + 1..] == parse;
    assert parse[..i] == kv[..i] && parse[i + 1..|parse| - 1] == kv[i + 1..];
  }

  lemma SplitPrinted(keyword: string, text: string)
    requires IsCString(keyword) && IsCString(text)
    ensures SplitLine(Line(keyword, text)) == Reread(keyword, text)
  {
    var n := LineLength(|Body(keyword, text)|);
    var kv := keyword + "=" + text;
    ValueOfNumeral(Decimal, n);
    FindsEquals(keyword, text);
    assert Line(keyword, text) == Numeral(Decimal, n) + [' '] + (kv + "\n");
    SplitAt(Line(keyword, text), Numeral(Decimal, n), kv, KeyEnd(keyword));
  }

  /** Whatever follows it, a printed line that fits a size_t is consumed to its
      last byte and split at the first '='. */
  lemma ParsePrinted(keyword: string, text: string, rest: string)
    requires IsCString(keyword) && IsCString(text) && |Line(keyword, text)| <= U64_MAX
    ensures ParseLine(Line(keyword, text) + rest) == Reread(keyword, text)
  {
    var line := Line(keyword, text);
    var n := LineLength(|Body(keyword, text)|);
    LineCountsItself(keyword, text);
    PrintedSize(Numeral(Decimal, n), Body(keyword, text) + rest, n);
    PrintedThen(Numeral(Decimal, n), Body(keyword, text), rest);
    LineInFront(line + rest, line);
    SplitPrinted(keyword, text);
  }

  lemma PrintedThen(digits: string, body: string, rest: string)
    ensures digits + body + rest == digits + (body + rest)
    ensures (digits + body + rest)[..|digits + body|] == digits + body
  {}

  lemma LineInFront(buf: string, line: string)
    requires line != "" && line <= buf && buf[0] != '\0' && ParseSize(Decimal, buf) == Ok(|line|)
    ensures ParseLine(buf) == SplitLine(line)
  {
    assert buf[..|line|] == line;
  }

  lemma PrintedSize(digits: string, after: string, n: nat)
    requires 0 < n <= U64_MAX && digits == Numeral(Decimal, n) && after != "" && !Decimal.IsDigit(after[0])
    ensures digits != "" && digits[0] != '\0' && ParseSize(Decimal, digits + after) == Ok(n)
  {
    ValueOfNumeral(Decimal, n);
    ScanNumeral(Decimal, digits, after);
    assert digits[0] in digits;
  }

  // ------------------------------------------------------------ lines as they were read

  // What follows an equals sign does not change the length that is announced.
  lemma SizeIsLocal(line: string, e: nat, rest: string)
    requires e < |line| && line[e] == '='
    ensures ParseSize(Decimal, line + rest) == ParseSize(Decimal, line)
  {
    var pre, tail := line[..e], line[e + 1..];
    assert line == pre + ['='] + tail && line + rest == pre + ['='] + (tail + rest);
    ScanLocal(Decimal, pre, '=', tail, tail + rest);
  }

  lemma {:induction false} FindIsFirst(s: string, c: char)
    requires Find(s, c).Some?
    ensures c !in s[..Find(s, c).value]
  {
    if s[0] != c {
      FindIsFirst(s[1..], c);
      var i := Find(s[1..], c).value;
      assert s[..i + 1] == [s[0]] + s[1..][..i];
    }
  }

  // A complete line has an equals sign, and before it a keyword without one.
  lemma SplitHasEquals(line: string)
    requires line != "" && SplitLine(line).Record?
    ensures GoodKey(SplitLine(line).keyword) && '=' in line
  {
    var parse := line[Find(line, ' ').value + 1..];
    FindIsFirst(parse, '=');
    assert '=' in parse;
  }

  lemma AnnouncedIsParsed(line: string, rest: string)
    requires line != "" && line[0] != '\0' && ParseSize(Decimal, line + rest) == Ok(|line|)
    ensures ParseLine(line + rest) == SplitLine(line)
  {
    assert (line + rest)[..|line|] == line;
  }

  lemma SameAnnounced(line: string, x: string, y: string)
    requires '=' in line
    ensures ParseSize(Decimal, line + x) == ParseSize(Decimal, line + y)
  {
    var e :| 0 <= e < |line| && line[e] == '=';
    SizeIsLocal(line, e, x);
    SizeIsLocal(line, e, y);
  }

  // The line of a parsed record and what is behind it.
  lemma ParsedParts(buf: string) returns (line: string, rest: string)
    requires buf != "" && ParseLine(buf).Record?
    ensures buf == line + rest && line == buf[..ParseLine(buf).len]
    ensures line != "" && line[0] != '\0' && ParseSize(Decimal, buf) == Ok(|line|)
    ensures SplitLine(line) == ParseLine(buf)
  {
    var len := ParseLine(buf).len;
    line, rest := buf[..len], buf[len..];
  }

  /** A parsed line is parsed in the same way without what follows it, and with anything
      else behind it. */
  lemma ParseIsLocal(buf: string, rest: string)
    requires buf != "" && ParseLine(buf).Record?
    ensures var p := ParseLine(buf);
            GoodKey(p.keyword) && ParseLine(buf[..p.len]) == p && ParseLine(buf[..p.len] + rest) == p
  {
    var line, behind := ParsedParts(buf);
    SplitHasEquals(line);
    SameAnnounced(line, behind, rest);
    SameAnnounced(line, behind, "");
    AnnouncedIsParsed(line, rest);
    AnnouncedIsParsed(line, "");
    assert line + "" == line;
  }

  // ------------------------------------------------------------ whole headers

  /** A keyword and what its value was made from. */
  datatype Entry = Entry(keyword: string, origin: Origin)

  /** A pair the library can hold: made from a value, or read from a line. */
  predicate Sound(e: Entry) {
    match e.origin
    case Typed(v) => ValidValue(v) && IsCString(e.keyword)
    case FromLine(line, text) => line != "" && ParseLine(line) == Record(e.keyword, text, |line|)
  }

  lemma LineIsNotEmpty(e: Entry)
    requires Sound(e)
    ensures Printable(e.origin) && LineOf(e.keyword, e.origin) != ""
  {}

  predicate PrintableEntries(entries: seq<Entry>) {
    forall e <- entries :: Printable(e.origin)
  }

  predicate AllSound(entries: seq<Entry>)
    ensures AllSound(entries) ==> PrintableEntries(entries)
  {
    forall e <- entries :: Sound(e) && |LineOf(e.keyword, e.origin)| <= U64_MAX
  }

  /** pxh_write_xheader's data: the list is kept newest first and written oldest
      first. */
  function EntryLines(entries: seq<Entry>): string
    requires PrintableEntries(entries)
  {
    if entries == [] then "" else EntryLines(entries[1..]) + LineOf(entries[0].keyword, entries[0].origin)
  }

  /** pxh_mkpairs: every parsed pair goes, with its line, to the head of the list.  The
      status it stops with, and the list it leaves. */
  function ParseRun(buf: string, list: seq<Entry>): (int, seq<Entry>) {
    if buf == "" then (PX_SUCCESS, list)
    else
      match ParseLine(buf)
      case NoMorePairs => (PX_SUCCESS, list)
      case Bad(code) => (code, list)
      case Record(keyword, text, len) => ParseRun(buf[len..], [Entry(keyword, FromLine(buf[..len], text))] + list)
  }

  function ParseAll(buf: string, list: seq<Entry>): Result<seq<Entry>> {
    var (status, parsed) := ParseRun(buf, list);
    if status == PX_SUCCESS then Ok(parsed) else Err(status)
  }

  // What is in the list already stays under what is parsed.
  lemma {:induction false} ParseRunAdds(buf: string, above: seq<Entry>, list: seq<Entry>)
    ensures ParseRun(buf, above + list) == (ParseRun(buf, above).0, ParseRun(buf, above).1 + list)
    decreases |buf|
  {
    if buf != "" && ParseLine(buf).Record? {
      var p := ParseLine(buf);
      var first := [Entry(p.keyword, FromLine(buf[..p.len], p.text))];
      assert first + (above + list) == (first + above) + list;
      ParseRunAdds(buf[p.len..], first + above, list);
    }
  }

  predicate GoodKey(keyword: string) {
    keyword != "" && '=' !in keyword
  }

  // ------------------------------------------------------------ reading, then writing

  /** A pair that is written and read again with the same keyword and text. */
  predicate Rereadable(e: Entry) {
    Sound(e) && GoodKey(e.keyword)
  }

  predicate AllRereadable(entries: seq<Entry>)
    ensures AllRereadable(entries) ==> PrintableEntries(entries)
  {
    forall e <- entries :: Rereadable(e)
  }

  predicate AllFromLines(entries: seq<Entry>) {
    forall e <- entries :: e.origin.FromLine?
  }

  lemma OneMoreLine(e: Entry, list: seq<Entry>)
    requires Rereadable(e) && AllRereadable(list)
    ensures AllRereadable([e] + list)
    ensures EntryLines([e] + list) == EntryLines(list) + LineOf(e.keyword, e.origin)
  {
    assert ([e] + list)[1..] == list;
  }

  // Parsing stops, or goes on behind the first line with its pair in the list.
  lemma ParseStep(buf: string, list: seq<Entry>) returns (e: Option<Entry>, rest: string)
    ensures e.None? ==> ParseRun(buf, list).1 == list
    ensures e.None? && ParseRun(buf, list).0 == PX_SUCCESS ==> buf == "" || buf[0] == '\0'
    ensures e.Some? ==> e.value.origin.FromLine? && Rereadable(e.value)
                        && buf == e.value.origin.line + rest && |rest| < |buf|
                        && ParseRun(buf, list) == ParseRun(rest, [e.value] + list)
  {
    if buf == "" || !ParseLine(buf).Record? {
      e, rest := None, buf;
      ParseRunStops(buf, list);
    } else {
      var first;
      first, rest := FirstParsed(buf, list);
      e := Some(first);
    }
  }

  /** Whatever the buffer holds and however its lengths are spelled, what is read is
      written back byte for byte: the lines of the new pairs are the first n bytes. */
  lemma {:induction false} LinesComeBack(buf: string, list: seq<Entry>) returns (n: nat)
    requires AllRereadable(list)
    ensures AllRereadable(ParseRun(buf, list).1) && n <= |buf|
    ensures EntryLines(ParseRun(buf, list).1) == EntryLines(list) + buf[..n]
    ensures ParseRun(buf, list).0 == PX_SUCCESS ==> EndsAt(buf, n)
    decreases |buf|
  {
    var e, rest := ParseStep(buf, list);
    if e.None? {
      n := 0;
      assert EntryLines(list) + buf[..0] == EntryLines(list);
    } else {
      var line := e.value.origin.line;
      OneMoreLine(e.value, list);
      var m := LinesComeBack(rest, [e.value] + list);
      n := |line| + m;
      PrefixJoined(EntryLines(list), line, rest, m);
      EndsBehind(line, rest, m);
    }
  }

  // Nothing, or a NUL.
  predicate EndsAt(buf: string, n: nat) {
    n >= |buf| || buf[n] == '\0'
  }

  lemma EndsBehind(line: string, rest: string, m: nat)
    ensures EndsAt(line + rest, |line| + m) <==> EndsAt(rest, m)
  {}

  lemma {:induction false} ParsedFromLines(buf: string, list: seq<Entry>)
    requires AllFromLines(list)
    ensures AllFromLines(ParseRun(buf, list).1)
    decreases |buf|
  {
    var e, rest := ParseStep(buf, list);
    if e.Some? { ParsedFromLines(rest, [e.value] + list); }
  }

  lemma FirstParsed(buf: string, list: seq<Entry>) returns (e: Entry, rest: string)
    requires buf != "" && ParseLine(buf).Record?
    ensures e.origin.FromLine? && Rereadable(e) && buf == e.origin.line + rest && |rest| < |buf|
    ensures ParseRun(buf, list) == ParseRun(rest, [e] + list)
  {
    var p := ParseLine(buf);
    e, rest := ParsedEntry(buf, p);
    ParsedIsRereadable(buf, p, e, rest);
    ParseRunStep(buf, list, p, e, rest);
  }

  lemma ParsedEntry(buf: string, p: Parse) returns (e: Entry, rest: string)
    requires p.Record? && 0 < p.len <= |buf|
    ensures e == Entry(p.keyword, FromLine(buf[..p.len], p.text)) && rest == buf[p.len..]
    ensures buf == e.origin.line + rest && |rest| < |buf|
  {
    e, rest := Entry(p.keyword, FromLine(buf[..p.len], p.text)), buf[p.len..];
  }

  lemma ParsedIsRereadable(buf: string, p: Parse, e: Entry, rest: string)
    requires buf != "" && ParseLine(buf) == p && p.Record?
    requires p.len <= |buf| && e == Entry(p.keyword, FromLine(buf[..p.len], p.text))
    ensures Rereadable(e)
  {
    ParseIsLocal(buf, "");
  }

  lemma ParseRunStep(buf: string, list: seq<Entry>, p: Parse, e: Entry, rest: string)
    requires buf != "" && ParseLine(buf) == p && p.Record? && p.len <= |buf|
    requires e == Entry(p.keyword, FromLine(buf[..p.len], p.text)) && rest == buf[p.len..]
    ensures ParseRun(buf, list) == ParseRun(rest, [e] + list)
  {}

  lemma ParseRunStops(buf: string, list: seq<Entry>)
    requires buf == "" || !ParseLine(buf).Record?
    ensures ParseRun(buf, list).1 == list
  {}

  lemma PrefixJoined(a: string, line: string, rest: string, m: nat)
    requires m <= |rest|
    ensures a + line + rest[..m] == a + (line + rest)[..|line| + m]
  {
    assert (line + rest)[..|line| + m] == line + rest[..m];
  }

  // ------------------------------------------------------------ the grammar of the data

  /** The text begins with the number n, as strtosize_t reads it: below 2^64, and counted
      down from there after a minus sign. */
  ghost predicate Announces(b: Base, s: string, n: nat) {
    exists i, j, end :: NumberAt(b, s, i, j, end) && AnnouncedBy(b, s, i, j, end, n)
  }

  predicate AnnouncedBy(b: Base, s: string, i: nat, j: nat, end: nat, n: nat)
    requires NumberAt(b, s, i, j, end)
  {
    ScanFinds(b, s, i, j, end);
    var v := Value(b, s[j..end]);
    v < 0x1_0000_0000_0000_0000 && n == if s[i..j] == "-" && v > 0 then 0x1_0000_0000_0000_0000 - v else v
  }

  lemma AnnouncesIff(b: Base, s: string, n: nat)
    ensures ParseSize(b, s) == Ok(n) <==> Announces(b, s, n)
  {
    if ParseSize(b, s) == Ok(n) { SizeIsAnnounced(b, s, n); }
    if Announces(b, s, n) { AnnouncedIsSize(b, s, n); }
  }

  lemma SizeIsAnnounced(b: Base, s: string, n: nat)
    requires ParseSize(b, s) == Ok(n)
    ensures Announces(b, s, n)
  {
    NothingScanned(b, s);
    var i, j := ScanIsThere(b, s);
    var end := ScanNumber(b, s).end;
    ScanFinds(b, s, i, j, end);
    assert AnnouncedBy(b, s, i, j, end, n);
  }

  lemma AnnouncedIsSize(b: Base, s: string, n: nat)
    requires Announces(b, s, n)
    ensures ParseSize(b, s) == Ok(n)
  {
    var i, j, end :| NumberAt(b, s, i, j, end) && AnnouncedBy(b, s, i, j, end, n);
    ScanFinds(b, s, i, j, end);
  }

  // Before the blank a front without blanks, then the keyword, '=', the text and a newline.
  predicate IsSplit(line: string, front: string, keyword: string, text: string) {
    && line == front + " " + keyword + "=" + text + "\n"
    && ' ' !in front && '\0' !in front
    && keyword != "" && '=' !in keyword && '\0' !in keyword
  }

  /** The grammar of a line: its length, a blank, a keyword that is not empty and has no
      '=', '=', the text and a newline. */
  ghost predicate IsRecord(line: string, keyword: string, text: string) {
    Announces(Decimal, line, |line|) && exists front :: IsSplit(line, front, keyword, text)
  }

  /** strchr finds the first one if there is no NUL before it. */
  lemma {:induction false} FindIff(s: string, c: char, i: nat)
    requires c != '\0'
    ensures Find(s, c) == Some(i) <==> i < |s| && s[i] == c && c !in s[..i] && '\0' !in s[..i]
  {
    if s != "" && i > 0 {
      FindIff(s[1..], c, i - 1);
      if i < |s| { assert s[..i] == [s[0]] + s[1..][..i - 1]; }
    }
  }

  lemma LineRegrouped(line: string, front: string, keyword: string, text: string)
    requires line == front + " " + keyword + "=" + text + "\n"
    ensures line == front + [' '] + (keyword + "=" + text + "\n")
    ensures line != "" && line[|line| - 1] == '\n' && line[|front| + 1 + |keyword|] == '='
  {}

  lemma SplitGiven(line: string, sp: nat, parse: string, eq: nat)
    requires line != "" && line[|line| - 1] == '\n' && Find(line, ' ') == Some(sp) && parse == line[sp + 1..]
    requires Find(parse, '=') == Some(eq) && 0 < eq < |parse| - 1
    ensures SplitLine(line) == Record(parse[..eq], parse[eq + 1..|parse| - 1], |line|)
  {}

  lemma SplitFinds(line: string, front: string, keyword: string, text: string)
    requires IsSplit(line, front, keyword, text)
    ensures line != "" && '=' in line && SplitLine(line) == Record(keyword, text, |line|)
  {
    var parse := keyword + "=" + text + "\n";
    LineRegrouped(line, front, keyword, text);
    BlankIsFound(line, front, parse);
    EqualsIsFound(parse, keyword, text);
    SplitGiven(line, |front|, parse, |keyword|);
  }

  lemma BlankIsFound(line: string, front: string, parse: string)
    requires line == front + [' '] + parse && ' ' !in front && '\0' !in front
    ensures Find(line, ' ') == Some(|front|) && line[|front| + 1..] == parse
  {
    assert line[..|front|] == front;
    FindIff(line, ' ', |front|);
  }

  lemma EqualsIsFound(parse: string, keyword: string, text: string)
    requires parse == keyword + "=" + text + "\n" && '=' !in keyword && '\0' !in keyword
    ensures Find(parse, '=') == Some(|keyword|) && parse[|keyword|] == '='
    ensures parse[..|keyword|] == keyword && parse[|keyword| + 1..|parse| - 1] == text
  {
    assert parse[..|keyword|] == keyword;
    FindIff(parse, '=', |keyword|);
  }

  lemma SplitIsThere(line: string) returns (front: string)
    requires line != "" && SplitLine(line).Record?
    ensures IsSplit(line, front, SplitLine(line).keyword, SplitLine(line).text)
  {
    var sp, eq := SplitFacts(line);
    front := line[..sp];
    SplitAssembled(line, sp, line[sp + 1..], eq);
  }

  lemma SplitFacts(line: string) returns (sp: nat, eq: nat)
    requires line != "" && SplitLine(line).Record?
    ensures Find(line, ' ') == Some(sp) && sp < |line| && line[|line| - 1] == '\n'
    ensures var parse := line[sp + 1..];
            && Find(parse, '=') == Some(eq) && 0 < eq < |parse|
            && SplitLine(line) == Record(parse[..eq], parse[eq + 1..|parse| - 1], |line|)
  {
    sp := Find(line, ' ').value;
    eq := Find(line[sp + 1..], '=').value;
  }

  lemma SplitAssembled(line: string, sp: nat, parse: string, eq: nat)
    requires Find(line, ' ') == Some(sp) && sp < |line| && line[|line| - 1] == '\n' && parse == line[sp + 1..]
    requires Find(parse, '=') == Some(eq) && 0 < eq < |parse|
    ensures IsSplit(line, line[..sp], parse[..eq], parse[eq + 1..|parse| - 1])
  {
    FindIff(line, ' ', sp);
    FindIff(parse, '=', eq);
    assert parse[|parse| - 1] == line[|line| - 1];
    Reassembled(line, sp, parse, eq);
  }

  lemma Reassembled(line: string, sp: nat, parse: string, eq: nat)
    requires sp < |line| && line[sp] == ' ' && parse == line[sp + 1..]
    requires eq < |parse| - 1 && parse[eq] == '=' && parse[|parse| - 1] == '\n'
    ensures line == line[..sp] + " " + parse[..eq] + "=" + parse[eq + 1..|parse| - 1] + "\n"
  {
    assert line == line[..sp] + [' '] + parse;
    assert parse == parse[..eq] + ['='] + parse[eq + 1..|parse| - 1] + ['\n'];
  }

  /** A record is parsed if and only if the first bytes of the buffer are such a line. */
  lemma RecordIff(buf: string, keyword: string, text: string, len: nat)
    requires buf != ""
    ensures ParseLine(buf) == Record(keyword, text, len)
            <==> 0 < len <= |buf| && IsRecord(buf[..len], keyword, text)
  {
    if ParseLine(buf) == Record(keyword, text, len) {
      RecordIsThere(buf, Record(keyword, text, len));
    }
    if 0 < len <= |buf| && IsRecord(buf[..len], keyword, text) {
      RecordInFront(buf, keyword, text, len);
    }
  }

  lemma RecordInFront(buf: string, keyword: string, text: string, len: nat)
    requires 0 < len <= |buf| && IsRecord(buf[..len], keyword, text)
    ensures ParseLine(buf) == Record(keyword, text, len)
  {
    assert buf == buf[..len] + buf[len..];
    RecordIsParsed(buf[..len], buf[len..], keyword, text);
  }

  lemma RecordIsThere(buf: string, p: Parse)
    requires buf != "" && ParseLine(buf) == p && p.Record?
    ensures 0 < p.len <= |buf| && IsRecord(buf[..p.len], p.keyword, p.text)
  {
    var line, rest := ParsedParts(buf);
    var front := SplitIsThere(line);
    SplitHasEquals(line);
    SameAnnounced(line, rest, "");
    assert line + "" == line;
    AnnouncesIff(Decimal, line, |line|);
  }

  lemma RecordIsParsed(line: string, rest: string, keyword: string, text: string)
    requires IsRecord(line, keyword, text)
    ensures line != "" && ParseLine(line + rest) == Record(keyword, text, |line|)
  {
    var front :| IsSplit(line, front, keyword, text);
    SplitFinds(line, front, keyword, text);
    AnnouncesIff(Decimal, line, |line|);
    SameAnnounced(line, rest, "");
    assert line + "" == line;
    FirstIsNotNul(line, front, keyword, text);
    AnnouncedIsParsed(line, rest);
  }

  lemma FirstIsNotNul(line: string, front: string, keyword: string, text: string)
    requires IsSplit(line, front, keyword, text)
    ensures line[0] != '\0'
  {
    if front != "" { assert line[0] == front[0] && front[0] in front; } else { assert line[0] == ' '; }
  }

  /** A line that begins with no number. */
  lemma NoNumberHasCode(buf: string)
    requires buf != "" && buf[0] != '\0' && forall i, j, end :: !NumberAt(Decimal, buf, i, j, end)
    ensures ParseLine(buf) == Bad(PX_ERROR_INVALID)
  {
    NothingScanned(Decimal, buf);
    if ScanNumber(Decimal, buf).end > 0 {
      var i, j := ScanIsThere(Decimal, buf);
      assert false;
    }
  }

  /** A line that is longer than the buffer, that has no length, or that does not end in a
      newline. */
  lemma BadLengthHasCode(buf: string, n: nat)
    requires buf != "" && buf[0] != '\0' && Announces(Decimal, buf, n)
    ensures n > |buf| ==> ParseLine(buf) == Bad(PX_ERROR_END_OF_HEADER)
    ensures n == 0 ==> ParseLine(buf) == Bad(READS_OUT_OF_BOUNDS)
    ensures 0 < n <= |buf| && buf[n - 1] != '\n' ==> ParseLine(buf) == Bad(PX_ERROR_MALFORMED)
  {
    AnnouncesIff(Decimal, buf, n);
  }

  /** A line whose number does not fit a size_t. */
  lemma TooLargeHasCode(buf: string, i: nat, j: nat, end: nat)
    requires buf != "" && buf[0] != '\0' && NumberAt(Decimal, buf, i, j, end)
    ensures AllDigits(Decimal, buf[j..end])
    ensures Value(Decimal, buf[j..end]) >= 0x1_0000_0000_0000_0000 ==> ParseLine(buf) == Bad(PX_ERROR_RANGE)
  {
    ScanFinds(Decimal, buf, i, j, end);
  }

  /** A line of the announced length that ends in a newline fails without a blank, without
      an '=' behind its first blank - in either case before any NUL - or without a
      keyword between the two. */
  lemma SplitFailures(line: string, rest: string, sp: nat)
    requires line != "" && line[0] != '\0' && Announces(Decimal, line + rest, |line|) && line[|line| - 1] == '\n'
    ensures (forall k | 0 <= k < |line| && line[k] == ' ' :: '\0' in line[..k]) ==>
              ParseLine(line + rest) == Bad(PX_ERROR_MALFORMED)
    ensures sp < |line| && line[sp] == ' ' && ' ' !in line[..sp] && '\0' !in line[..sp] ==>
              && ((forall k | sp < k < |line| && line[k] == '=' :: '\0' in line[sp + 1..k])
                  ==> ParseLine(line + rest) == Bad(PX_ERROR_MALFORMED))
              && (sp + 1 < |line| && line[sp + 1] == '=' ==> ParseLine(line + rest) == Bad(PX_ERROR_NO_KEY))
  {
    AnnouncesIff(Decimal, line + rest, |line|);
    AnnouncedIsParsed(line, rest);
    SplitLineFails(line, sp);
  }

  lemma SplitLineFails(line: string, sp: nat)
    requires line != "" && line[|line| - 1] == '\n'
    ensures (forall k | 0 <= k < |line| && line[k] == ' ' :: '\0' in line[..k]) ==>
              SplitLine(line) == Bad(PX_ERROR_MALFORMED)
    ensures sp < |line| && line[sp] == ' ' && ' ' !in line[..sp] && '\0' !in line[..sp] ==>
              && ((forall k | sp < k < |line| && line[k] == '=' :: '\0' in line[sp + 1..k])
                  ==> SplitLine(line) == Bad(PX_ERROR_MALFORMED))
              && (sp + 1 < |line| && line[sp + 1] == '=' ==> SplitLine(line) == Bad(PX_ERROR_NO_KEY))
  {
    if Find(line, ' ').Some? { FindIff(line, ' ', Find(line, ' ').value); }
    if sp < |line| && line[sp] == ' ' && ' ' !in line[..sp] && '\0' !in line[..sp] {
      FindIff(line, ' ', sp);
      KeyIsMissing(line, sp);
    }
  }

  lemma KeyIsMissing(line: string, sp: nat)
    requires line != "" && line[|line| - 1] == '\n' && Find(line, ' ') == Some(sp)
    ensures (forall k | sp < k < |line| && line[k] == '=' :: '\0' in line[sp + 1..k]) ==>
              SplitLine(line) == Bad(PX_ERROR_MALFORMED)
    ensures sp + 1 < |line| && line[sp + 1] == '=' ==> SplitLine(line) == Bad(PX_ERROR_NO_KEY)
  {
    if forall k | sp < k < |line| && line[k] == '=' :: '\0' in line[sp + 1..k] { FindsNone(line, '=', sp + 1); }
    if sp + 1 < |line| && line[sp + 1] == '=' { assert Find(line[sp + 1..], '=') == Some(0); }
  }

  lemma FindsNone(s: string, c: char, from: nat)
    requires c != '\0' && from <= |s| && forall k | from <= k < |s| && s[k] == c :: '\0' in s[from..k]
    ensures Find(s[from..], c).None?
  {
    var t := s[from..];
    if Find(t, c).Some? { FindIff(t, c, Find(t, c).value); }
  }

  // ------------------------------------------------------------ the grammar of all lines

  ghost predicate AllRecords(entries: seq<Entry>) {
    forall e <- entries :: e.origin.FromLine? && IsRecord(e.origin.line, e.keyword, e.origin.text)
  }

  /** The buffer is a run of such lines, the newest last, and then nothing or a NUL. */
  ghost predicate IsRun(buf: string, entries: seq<Entry>) {
    && AllRecords(entries) && PrintableEntries(entries) && EntryLines(entries) <= buf
    && EndsAt(buf, |EntryLines(entries)|)
  }

  lemma {:induction false} RereadableAreRecords(entries: seq<Entry>)
    requires AllRereadable(entries) && AllFromLines(entries)
    ensures AllRecords(entries)
  {
    forall e | e in entries ensures IsRecord(e.origin.line, e.keyword, e.origin.text) {
      assert Rereadable(e);
      var line := e.origin.line;
      RecordIff(line, e.keyword, e.origin.text, |line|);
      assert line[..|line|] == line;
    }
  }

  lemma RecordsAreRereadable(entries: seq<Entry>)
    requires AllRecords(entries)
    ensures AllRereadable(entries) && AllFromLines(entries) && AllSound(entries) && AllGoodKeys(entries)
  {
    forall e | e in entries ensures Rereadable(e) && |e.origin.line| <= U64_MAX {
      var line := e.origin.line;
      RecordIsParsed(line, "", e.keyword, e.origin.text);
      assert line + "" == line;
      ParseIsLocal(line, "");
    }
  }

  /** Parsing succeeds, with these pairs, if and only if the buffer is a run of lines of
      them followed by nothing or a NUL. */
  lemma RunIff(buf: string, entries: seq<Entry>)
    ensures ParseRun(buf, []) == (PX_SUCCESS, entries) <==> IsRun(buf, entries)
  {
    if ParseRun(buf, []) == (PX_SUCCESS, entries) { RunIsThere(buf, entries); }
    if IsRun(buf, entries) { RunIsParsed(buf, entries); }
  }

  lemma RunIsThere(buf: string, entries: seq<Entry>)
    requires ParseRun(buf, []) == (PX_SUCCESS, entries)
    ensures IsRun(buf, entries)
  {
    ParsedIsPrefix(buf, [], PX_SUCCESS, entries);
    RereadableAreRecords(entries);
  }

  lemma NoLines()
    ensures EntryLines([]) == ""
  {}

  // What is read into an empty list.
  lemma ParsedIsPrefix(buf: string, list: seq<Entry>, status: int, entries: seq<Entry>)
    requires list == [] && ParseRun(buf, list) == (status, entries)
    ensures AllRereadable(entries) && AllFromLines(entries) && EntryLines(entries) <= buf
    ensures status == PX_SUCCESS ==> EndsAt(buf, |EntryLines(entries)|)
  {
    var n := LinesComeBack(buf, list);
    ParsedFromLines(buf, list);
    NoLines();
    PrefixOf(EntryLines(entries), buf, n);
  }

  lemma PrefixOf(a: string, buf: string, n: nat)
    requires n <= |buf| && a == "" + buf[..n]
    ensures a <= buf && |a| == n
  {}

  lemma ParsedList(data: string, entries: seq<Entry>)
    requires ParseAll(data, []) == Ok(entries)
    ensures AllRereadable(entries) && AllFromLines(entries) && EntryLines(entries) <= data
  {
    ParsedIsPrefix(data, [], PX_SUCCESS, entries);
  }

  lemma RunIsParsed(buf: string, entries: seq<Entry>)
    requires IsRun(buf, entries)
    ensures ParseRun(buf, []) == (PX_SUCCESS, entries)
  {
    var lines := EntryLines(entries);
    TailIsThere(buf, lines);
    RecordsAreParsed(entries, buf[|lines|..]);
    AllIsRun(buf, entries);
  }

  lemma TailIsThere(buf: string, lines: string)
    requires lines <= buf && EndsAt(buf, |lines|)
    ensures var tail := buf[|lines|..]; buf == lines + tail && (tail == "" || tail[0] == '\0')
  {}

  lemma AllIsRun(buf: string, entries: seq<Entry>)
    requires ParseAll(buf, []) == Ok(entries)
    ensures ParseRun(buf, []) == (PX_SUCCESS, entries)
  {}

  lemma RecordsAreParsed(entries: seq<Entry>, tail: string)
    requires AllRecords(entries) && PrintableEntries(entries) && (tail == "" || tail[0] == '\0')
    ensures ParseAll(EntryLines(entries) + tail, []) == Ok(entries)
  {
    RecordsAreRereadable(entries);
    ParseWritten(entries, tail, []);
    RereadAllIdentity(entries);
    ReloadedIsSame(entries);
    assert entries + [] == entries;
    TailEnds(tail, entries);
  }

  lemma TailEnds(tail: string, list: seq<Entry>)
    requires tail == "" || tail[0] == '\0'
    ensures ParseAll(tail, list) == Ok(list)
  {}

  // ------------------------------------------------------------ writing, then reading

  // The pair as it is after its line was written and read.
  function Reloaded(e: Entry): Entry
    requires Printable(e.origin)
  {
    Entry(e.keyword, FromLine(LineOf(e.keyword, e.origin), TextOf(e.origin)))
  }

  function ReloadedAll(entries: seq<Entry>): (es: seq<Entry>)
    requires PrintableEntries(entries)
    ensures |es| == |entries|
  {
    if entries == [] then []
    else
      assert entries[0] in entries;
      [Reloaded(entries[0])] + ReloadedAll(entries[1..])
  }

  // The pair that is read from the line of another, split at its first '='.
  function RereadEntry(e: Entry): Entry
    requires Printable(e.origin)
  {
    var i := KeyEnd(e.keyword);
    Entry(e.keyword[..i], FromLine(LineOf(e.keyword, e.origin), (e.keyword + "=" + TextOf(e.origin))[i + 1..]))
  }

  function RereadAll(entries: seq<Entry>): (es: seq<Entry>)
    requires PrintableEntries(entries)
    ensures |es| == |entries|
  {
    if entries == [] then []
    else
      assert entries[0] in entries;
      [RereadEntry(entries[0])] + RereadAll(entries[1..])
  }

  lemma RereadIdentity(e: Entry)
    requires Printable(e.origin)
    ensures RereadEntry(e) == Reloaded(e) <==> '=' !in e.keyword
  {
    KeyEndIsWhole(e.keyword);
    var kv := e.keyword + "=" + TextOf(e.origin);
    if '=' !in e.keyword {
      assert kv[|e.keyword| + 1..] == TextOf(e.origin);
      assert e.keyword[..|e.keyword|] == e.keyword;
    }
  }

  // No keyword is empty or starts with '='.
  predicate AllKeyed(entries: seq<Entry>) {
    forall e <- entries :: KeyEnd(e.keyword) > 0
  }

  // One line, whatever follows it.
  lemma ParseLineOf(e: Entry, tail: string)
    requires Sound(e) && |LineOf(e.keyword, e.origin)| <= U64_MAX
    ensures LineOf(e.keyword, e.origin) != ""
    ensures ParseLine(LineOf(e.keyword, e.origin) + tail)
            == if KeyEnd(e.keyword) == 0 then Bad(PX_ERROR_NO_KEY)
               else Record(RereadEntry(e).keyword, RereadEntry(e).origin.text, |LineOf(e.keyword, e.origin)|)
  {
    match e.origin
    case Typed(v) =>
      TypedRoundTrip(v);
      ParsePrinted(e.keyword, ValueText(v), tail);
    case FromLine(line, text) =>
      ParseReadLine(line, e.keyword, text, tail);
      RereadIdentity(e);
      KeyEndIsWhole(e.keyword);
  }

  lemma ParseReadLine(line: string, keyword: string, text: string, tail: string)
    requires line != "" && ParseLine(line) == Record(keyword, text, |line|)
    ensures GoodKey(keyword) && ParseLine(line + tail) == Record(keyword, text, |line|)
  {
    ParseIsLocal(line, tail);
    assert line[..|line|] == line;
  }

  lemma ParseOne(e: Entry, tail: string, list: seq<Entry>)
    requires Sound(e) && |LineOf(e.keyword, e.origin)| <= U64_MAX
    ensures ParseAll(LineOf(e.keyword, e.origin) + tail, list)
            == if KeyEnd(e.keyword) > 0 then ParseAll(tail, [RereadEntry(e)] + list) else Err(PX_ERROR_NO_KEY)
  {
    var line := LineOf(e.keyword, e.origin);
    ParseLineOf(e, tail);
    assert (line + tail)[|line|..] == tail && (line + tail)[..|line|] == line;
  }

  lemma KeyedStep(entries: seq<Entry>)
    requires entries != []
    ensures AllKeyed(entries) <==> AllKeyed(entries[1..]) && KeyEnd(entries[0].keyword) > 0
  {
    assert entries == [entries[0]] + entries[1..];
  }

  lemma {:induction false} ParseWritten(entries: seq<Entry>, tail: string, list: seq<Entry>)
    requires AllSound(entries)
    ensures ParseAll(EntryLines(entries) + tail, list)
            == if AllKeyed(entries) then ParseAll(tail, RereadAll(entries) + list) else Err(PX_ERROR_NO_KEY)
  {
    if entries == [] {
      assert EntryLines(entries) + tail == tail && RereadAll(entries) + list == list;
    } else {
      var e, rest := entries[0], entries[1..];
      assert e in entries;
      var line, reread := LineOf(e.keyword, e.origin), RereadAll(rest);
      Regroup(EntryLines(rest), line, tail);
      Regroup([RereadEntry(e)], reread, list);
      KeyedStep(entries);
      ParseWritten(rest, line + tail, list);
      ParseOne(e, tail, reread + list);
    }
  }

  lemma Regroup<T>(a: seq<T>, b: seq<T>, c: seq<T>)
    ensures a + b + c == a + (b + c)
  {}

  lemma PaddingEnds(n: nat, list: seq<Entry>)
    ensures ParseAll(Padding(n), list) == Ok(list)
  {}

  // The zero padding up to a whole block.
  function Padding(n: nat): (s: string)
    ensures |s| == n
  {
    seq(n, _ => '\0')
  }

  predicate AllGoodKeys(entries: seq<Entry>) {
    forall e <- entries :: GoodKey(e.keyword)
  }

  lemma {:induction false} RereadAllIdentity(entries: seq<Entry>)
    requires PrintableEntries(entries)
    ensures AllKeyed(entries) && RereadAll(entries) == ReloadedAll(entries) <==> AllGoodKeys(entries)
  {
    if entries != [] {
      var e, rest := entries[0], entries[1..];
      assert e in entries && entries == [e] + rest;
      RereadAllIdentity(rest);
      RereadIdentity(e);
      KeyEndIsWhole(e.keyword);
      KeyedStep(entries);
      assert RereadAll(entries)[1..] == RereadAll(rest) && ReloadedAll(entries)[1..] == ReloadedAll(rest);
    }
  }

  /** Writing any list of pairs, made from values or read from lines, and reading the
      exact or padded bytes back gives the same keywords, texts and lines in the same
      order, if and only if every keyword is non-empty and free of '='. */
  lemma XheaderRoundTrip(entries: seq<Entry>, padding: nat)
    requires AllSound(entries)
    ensures ParseAll(EntryLines(entries) + Padding(padding), []) == Ok(ReloadedAll(entries))
            <==> AllGoodKeys(entries)
  {
    ParseWritten(entries, Padding(padding), []);
    RereadAllIdentity(entries);
    assert RereadAll(entries) + [] == RereadAll(entries);
    PaddingEnds(padding, RereadAll(entries));
  }

  // Pairs that were read are not changed by being written and read again.
  lemma {:induction false} ReloadedIsSame(entries: seq<Entry>)
    requires AllFromLines(entries)
    ensures PrintableEntries(entries) && ReloadedAll(entries) == entries
  {
    if entries != [] {
      assert entries[0] in entries;
      ReloadedIsSame(entries[1..]);
    }
  }

  // ------------------------------------------------------------ typed values

  // Not a code of the library: parse_fpart does not return.
  const NEVER_RETURNS := -2

  function ValueOf<T>(r: Result<Parsed<T>>): Result<T> {
    match r
    case Ok(p) => Ok(p.value)
    case Err(code) => Err(code)
  }

  /** pxp_parse_val_i64 and pxp_parse_val_u64: all of the text up to the newline. */
  function ReadI64(text: string): Result<I64> {
    ValueOf(ParseI64(Decimal, text + "\n", Some(|text|), false, false))
  }

  function ReadU64(text: string): Result<U64> {
    ValueOf(ParseU64(Decimal, text + "\n", Some(|text|), false, false))
  }

  // The digits behind the decimal point, as parse_fpart and fpart_to_ppb see them.
  function ReadFraction(digits: string): Result<nat> {
    var s := digits + "\n";
    var k := DigitRun(Decimal, s);
    if k > 18 then Err(NEVER_RETURNS)
    else if k != |digits| then Err(PX_ERROR_TRAILING_CHARS)
    else FpartToPpb(After(s, k).num, After(s, k).den)
  }

  /** pxp_parse_val_time: whole seconds, then perhaps a point and a fraction. */
  function ReadTime(text: string): Result<(I64, nat)> {
    match ParseI64(Decimal, text + "\n", None, false, true)
    case Err(code) => Err(code)
    case Ok(Parsed(sec, next)) =>
      if next >= |text| then Ok((sec, 0))
      else if text[next] != '.' then Err(PX_ERROR_TRAILING_CHARS)
      else
        match ReadFraction(text[next + 1..])
        case Err(code) => Err(code)
        case Ok(nsec) => Ok((sec, nsec))
  }

  // White space at the start, the end of the line included.
  predicate StartsBlank(text: string) {
    text == "" || text[0] as int in {9, 10, 11, 12, 13, 32}
  }

  /** The value of a line read as a number, for every text: it may not begin with white
      space or be empty, must be in range, and must be the number alone. */
  lemma ReadOutcome(text: string, v: int, next: nat)
    requires Reads(Decimal, text + "\n", v, next)
    ensures ReadI64(text)
            == if StartsBlank(text) then Err(-401)
               else if v < -0x8000_0000_0000_0000 || v > 0x7fff_ffff_ffff_ffff then Err(-301)
               else if next > |text| then Err(-201) else if next < |text| then Err(-402)
               else Ok(v)
    ensures ReadU64(text)
            == if StartsBlank(text) then Err(-401)
               else if v < 0 || v > 0xffff_ffff_ffff_ffff then Err(-301)
               else if next > |text| then Err(-201) else if next < |text| then Err(-402)
               else Ok(v)
  {
    ParseOutcome(Decimal, text + "\n", Some(|text|), false, false, v, next);
  }

  /** Read as a time: the same for the seconds, but a point and a fraction may follow. */
  lemma TimeOutcome(text: string, v: int, next: nat)
    requires Reads(Decimal, text + "\n", v, next)
    ensures ReadTime(text)
            == if StartsBlank(text) then Err(-401)
               else if v < -0x8000_0000_0000_0000 || v > 0x7fff_ffff_ffff_ffff then Err(-301)
               else if next >= |text| then Ok((v, 0))
               else if text[next] != '.' then Err(-402)
               else match ReadFraction(text[next + 1..])
                    case Err(code) => Err(code)
                    case Ok(nsec) => Ok((v, nsec))
  {
    ParseOutcome(Decimal, text + "\n", None, false, true, v, next);
  }

  // Nine digits of a fraction: the further ones are cut off, or zeros added.
  function NineDigits(run: string): int
    requires AllDigits(Decimal, run)
  {
    if |run| <= 9 then Value(Decimal, run) * Pow(Decimal, 9 - |run|) else Value(Decimal, run) / Pow(Decimal, |run| - 9)
  }

  /** A fraction, for every text: digits alone, not more than 18 of them, and nine of them
      count. */
  lemma FractionOutcome(run: string, rest: string)
    requires AllDigits(Decimal, run) && (rest != "" ==> !Decimal.IsDigit(rest[0]))
    ensures |run| > 18 ==> ReadFraction(run + rest) == Err(NEVER_RETURNS)
    ensures |run| <= 18 && rest != "" ==> ReadFraction(run + rest) == Err(-402)
    ensures |run| <= 18 && rest == "" ==> ReadFraction(run + rest) == Ok(NineDigits(run))
  {
    RunInFront(run, rest + "\n");
    assert run + rest + "\n" == run + (rest + "\n");
    if |run| <= 18 && rest == "" { DigitsAlone(run, run + rest); }
  }

  lemma DigitsAlone(run: string, digits: string)
    requires AllDigits(Decimal, run) && |run| <= 18 && digits == run
    requires DigitRun(Decimal, digits + "\n") == |run|
    ensures ReadFraction(digits) == Ok(NineDigits(run))
  {
    assert (digits + "\n")[..|run|] == run;
    PpbOfDigits(run);
  }

  lemma RunInFront(run: string, rest: string)
    requires AllDigits(Decimal, run) && (rest != "" ==> !Decimal.IsDigit(rest[0]))
    ensures DigitRun(Decimal, run + rest) == |run| && (run + rest)[..|run|] == run
  {
    var s := run + rest;
    forall i | 0 <= i < |run| ensures Decimal.IsDigit(s[i]) {
      assert s[i] == run[i] && run[i] in run;
    }
    DigitRunIs(Decimal, s, |run|);
  }

  lemma PpbOfDigits(run: string)
    requires AllDigits(Decimal, run) && |run| <= 18
    ensures FpartToPpb(Value(Decimal, run), Pow(Decimal, |run|)) == Ok(NineDigits(run))
  {
    if run == "" {
      assert Value(Decimal, run) == 0 && Pow(Decimal, |run|) == 1;
    } else {
      ValueBelowPower(run);
      FractionOfDigits(Value(Decimal, run), |run|);
    }
  }

  lemma ReadPrintedI64(i: I64)
    ensures ReadI64(SignedText(i)) == Ok(i)
  {
    ScanSignedText(i, "\n");
  }

  lemma ReadPrintedU64(u: U64)
    ensures ReadU64(Numeral(Decimal, u)) == Ok(u)
    ensures u <= I64_MAX ==> ReadI64(Numeral(Decimal, u)) == Ok(u)
  {
    ScanSignedText(u, "\n");
  }

  lemma ReadWithFraction(sec: I64, f: string)
    ensures var text := SignedText(sec) + "." + f;
            ReadTime(text) == match ReadFraction(f)
                              case Err(code) => Err(code)
                              case Ok(nsec) => Ok((sec, nsec))
  {
    var whole := SignedText(sec);
    var text := whole + "." + f;
    assert text + "\n" == whole + ("." + f + "\n");
    ScanSignedText(sec, "." + f + "\n");
    assert text[|whole|] == '.' && text[|whole| + 1..] == f;
  }

  lemma ReadPrintedTime(sec: I64, nsec: nat)
    requires nsec < BILLION
    ensures ReadTime(ValueText(Time(sec, nsec))) == Ok((sec, nsec))
  {
    if nsec == 0 {
      ScanSignedText(sec, "\n");
      assert SignedText(sec) + "" == SignedText(sec);
    } else {
      var f := PpbText(nsec)[1..];
      assert SignedText(sec) + PpbText(nsec) == SignedText(sec) + "." + f;
      ReadWithFraction(sec, f);
      FractionRoundTrip(nsec, "\n");
    }
  }

  /** Each typed value, printed and read back as its own type, is unchanged. */
  lemma TypedRoundTrip(v: PaxValue)
    requires ValidValue(v)
    ensures v.I64? ==> ReadI64(ValueText(v)) == Ok(v.i)
    ensures v.U64? ==> ReadU64(ValueText(v)) == Ok(v.u)
    ensures v.Time? ==> ReadTime(ValueText(v)) == Ok((v.sec, v.nsec))
    ensures IsCString(ValueText(v))
  {
    match v
    case I64(i) => ReadPrintedI64(i); SignedIsCString(i);
    case U64(u) => ReadPrintedU64(u); ValueOfNumeral(Decimal, u);
    case Time(sec, nsec) =>
      ReadPrintedTime(sec, nsec);
      SignedIsCString(sec);
      if nsec != 0 {
        PowBillion();
        ValueOfFraction(nsec, 9);
      }
    case Text(_) =>
  }

  lemma SignedIsCString(n: int)
    ensures IsCString(SignedText(n))
  {
    ValueOfNumeral(Decimal, if n < 0 then -n else n);
  }
}
