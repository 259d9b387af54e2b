/** CHECK_SUM: the XOR of a record's bytes, taken as signed characters. */
module LicenseChecksum {
  import opened Bits
  import opened LicenseCipher

  type Byte = b: nat | b < 256

  // A signed char converted to an unsigned 32-bit word.
  function SignExtended(b: Byte): Word {
    if b < 128 then b else b + 0xffff_ff00
  }

  function XorByte(a: Byte, b: Byte): (r: Byte)
    ensures r == Xor(a, b)
  {
    WordBound();
    XorBound(a, b, 8);
    Xor(a, b)
  }

  function XorAll(s: seq<Byte>): Byte {
    if s == [] then 0 else XorByte(XorAll(s[..|s| - 1]), s[|s| - 1])
  }

  lemma TopBit(a: Byte)
    ensures Drop(a, 7) == a / 128
  {
    FourBits(a, 3);
    var c := a / 16;
    assert Drop(c, 3) == Drop(c / 2, 2) && Drop(c / 2, 2) == Drop(c / 2 / 2, 1);
  }

  // The sign of an XOR.
  lemma SignOfXor(a: Byte, b: Byte)
    ensures XorByte(a, b) >= 128 <==> (a >= 128) != (b >= 128)
  {
    XorDrop(a, b, 7);
    TopBit(a);
    TopBit(b);
    TopBit(XorByte(a, b));
    XorZero(a / 128);
    XorZero(b / 128);
    XorSelf(a / 128);
  }

  // The bytes above the lowest, all zeros or all ones.
  function Signs(b: Byte): nat {
    if b < 128 then 0 else 0xff_ffff
  }

  lemma SignsOfXor(a: Byte, b: Byte)
    ensures Xor(Signs(a), Signs(b)) == Signs(XorByte(a, b))
  {
    SignOfXor(a, b);
    XorZero(Signs(a));
    XorZero(Signs(b));
    XorSelf(Signs(a));
  }

  /** Sign extension commutes with XOR. */
  lemma SignExtendedXor(a: Byte, b: Byte)
    ensures Xor(SignExtended(a), SignExtended(b)) == SignExtended(XorByte(a, b))
  {
    LowByte(Signs(a), a);
    LowByte(Signs(b), b);
    XorBytewise(SignExtended(a), SignExtended(b));
    SignsOfXor(a, b);
  }

  /** The macro's loop: for any number of bytes the sum is the sign extension of
      their plain XOR. */
  method CheckSum(a: seq<Byte>, len: nat) returns (sum: Word)
    requires len <= |a|
    ensures sum == SignExtended(XorAll(a[..len]))
    ensures sum % 256 == XorAll(a[..len]) && sum / 256 == if XorAll(a[..len]) >= 128 then 0xff_ffff else 0
  {
    sum := 0;
    for i := 0 to len
      invariant sum == SignExtended(XorAll(a[..i]))
    {
      SignExtendedXor(XorAll(a[..i]), a[i]);
      assert a[..i + 1][..i] == a[..i];
      sum := XorWord(sum, SignExtended(a[i]));
    }
  }

  /** Any byte can be taken out to the front. */
  lemma {:induction false} XorAllWithout(s: seq<Byte>, i: nat)
    requires i < |s|
    ensures XorAll(s) == Xor(XorAll(s[..i] + s[i + 1..]), s[i])
  {
    var n := |s| - 1;
    if i == n {
      assert s[..i] + s[i + 1..] == s[..n];
    } else {
      var t := s[..n];
      XorAllWithout(t, i);
      var rest := t[..i] + t[i + 1..];
      assert s[..i] + s[i + 1..] == rest + [s[n]];
      assert (rest + [s[n]])[..|rest|] == rest;
      XorAssociates(XorAll(rest), s[i], s[n]);
      XorCommutes(s[i], s[n]);
      XorAssociates(XorAll(rest), s[n], s[i]);
    }
  }

  lemma MultisetWithout(s: seq<Byte>, i: nat)
    requires i < |s|
    ensures multiset(s[..i] + s[i + 1..]) == multiset(s) - multiset{s[i]}
  {
    assert s == s[..i] + [s[i]] + s[i + 1..];
  }

  /** The sum depends only on which bytes there are, not on their order - so it is
      the same on big- and little-endian machines. */
  lemma {:induction false} OrderDoesNotMatter(s: seq<Byte>, t: seq<Byte>)
    requires multiset(s) == multiset(t)
    ensures XorAll(s) == XorAll(t)
    decreases |s|
  {
    assert |multiset(s)| == |s| && |multiset(t)| == |t|;
    if s != [] {
      var n := |s| - 1;
      assert s[n] in multiset(s);
      var i :| 0 <= i < |t| && t[i] == s[n];
      var rest := t[..i] + t[i + 1..];
      MultisetWithout(t, i);
      MultisetWithout(s, n);
      assert s[..n] + s[n + 1..] == s[..n];
      XorAllWithout(t, i);
      OrderDoesNotMatter(s[..n], rest);
    }
  }

  /** A change confined to one byte always changes the sum. */
  lemma OneByteChangeIsSeen(s: seq<Byte>, i: nat, b: Byte)
    requires i < |s| && b != s[i]
    ensures SignExtended(XorAll(s[i := b])) != SignExtended(XorAll(s))
  {
    var t := s[i := b];
    XorAllWithout(s, i);
    XorAllWithout(t, i);
    assert t[..i] + t[i + 1..] == s[..i] + s[i + 1..];
    var rest := XorAll(s[..i] + s[i + 1..]);
    XorUndo(s[i], rest);
    XorUndo(b, rest);
  }

  // The bytes of a word, least significant first, as they lie in memory.
  function BytesOf(w: Word): seq<Byte> {
    [ByteOf(w, 0), ByteOf(w, 1), ByteOf(w, 2), ByteOf(w, 3)]
  }

  // A record is three words of data and their checksum.
  function DataBytes(r: Block): seq<Byte> {
    BytesOf(r[0]) + BytesOf(r[1]) + BytesOf(r[2])
  }

  predicate Matches(r: Block) {
    r[3] == SignExtended(XorAll(DataBytes(r)))
  }

  // The twelve data bytes, each in its place in its word.
  function TwelveBytes(a: Word, b: Word, c: Word): seq<Byte> {
    [a % 256, a / 256 % 256, a / 256 / 256 % 256, a / 256 / 256 / 256 % 256,
     b % 256, b / 256 % 256, b / 256 / 256 % 256, b / 256 / 256 / 256 % 256,
     c % 256, c / 256 % 256, c / 256 / 256 % 256, c / 256 / 256 / 256 % 256]
  }

  /** The checksum word is the XOR of the twelve data bytes read as a signed char. */
  lemma MatchesIff(r: Block)
    ensures var sum := XorAll(TwelveBytes(r[0], r[1], r[2]));
            Matches(r) <==> r[3] % 256 == sum && r[3] / 256 == if sum >= 128 then 0xff_ffff else 0
  {
    WordBytes(r[0]);
    WordBytes(r[1]);
    WordBytes(r[2]);
    assert DataBytes(r) == TwelveBytes(r[0], r[1], r[2]);
    SignedChar(r[3], XorAll(DataBytes(r)));
  }

  lemma SignedChar(w: Word, b: Byte)
    ensures w == SignExtended(b) <==> w % 256 == b && w / 256 == if b >= 128 then 0xff_ffff else 0
  {}

  lemma WordBytes(w: Word)
    ensures BytesOf(w) == [w % 256, w / 256 % 256, w / 256 / 256 % 256, w / 256 / 256 / 256 % 256]
  {
    assert ByteOf(w, 1) == ByteOf(w / 256, 0);
    assert ByteOf(w, 2) == ByteOf(w / 256, 1) == ByteOf(w / 256 / 256, 0);
    assert ByteOf(w, 3) == ByteOf(w / 256, 2) == ByteOf(w / 256 / 256, 1) == ByteOf(w / 256 / 256 / 256, 0);
  }

  /** A record in which one byte of the data was changed, and nothing else, no longer
      matches. */
  lemma ChangedRecordIsRefused(r: Block, t: Block, i: nat)
    requires Matches(r) && t[3] == r[3] && i < 12
    requires DataBytes(t)[i] != DataBytes(r)[i] && DataBytes(t) == DataBytes(r)[i := DataBytes(t)[i]]
    ensures !Matches(t)
  {
    OneByteChangeIsSeen(DataBytes(r), i, DataBytes(t)[i]);
  }
}

/** The license file's text: one record per line, as 32 hexadecimal digits. */
module LicenseText {
  import opened LicenseCipher

  predicate IsXDigit(c: char) {
    '0' <= c <= '9' || 'a' <= c <= 'f' || 'A' <= c <= 'F'
  }

  function DigitValue(c: char): (d: nat)
    requires IsXDigit(c)
    ensures d < 16
  {
    if c <= '9' then c as int % 16 else (c as int - 1) % 16 + 10
  }

  function Digit(d: nat): (c: char)
    requires d < 16
    ensures IsXDigit(c) && DigitValue(c) == d
  {
    if d < 10 then '0' + d as char else 'a' + (d - 10) as char
  }

  // x without its m low hexadecimal digits
  function High(x: nat, m: nat): nat {
    if m == 0 then x else High(x / 16, m - 1)
  }

  function Pow16(m: nat): nat {
    if m == 0 then 1 else 16 * Pow16(m - 1)
  }

  lemma {:induction false} HighStep(x: nat, m: nat)
    ensures High(x, m + 1) == High(x, m) / 16
  {
    if m != 0 { HighStep(x / 16, m - 1); }
  }

  lemma {:induction false} HighZero(x: nat, m: nat)
    ensures High(x, m) == 0 <==> x < Pow16(m)
  {
    if m != 0 { HighZero(x / 16, m - 1); }
  }

  lemma Pow16Values()
    ensures Pow16(7) == 0x1000_0000 && Pow16(8) == WORDS
  {
    assert Pow16(2) == 0x100;
    assert Pow16(4) == 0x1_0000;
    assert Pow16(6) == 0x100_0000;
  }

  // The n low hexadecimal digits of x
  function DigitsOf(x: nat, n: nat): (s: string)
    ensures |s| == n
  {
    if n == 0 then "" else [Digit(High(x, n - 1) % 16)] + DigitsOf(x, n - 1)
  }

  function PrintedWords(b: seq<Word>): (s: string)
    ensures |s| == 8 * |b|
  {
    if b == [] then "" else DigitsOf(b[0], 8) + PrintedWords(b[1..])
  }

  /** The four words, each printed with %8.8lx. */
  function LicToString(b: Block): (s: string)
    ensures |s| == 32
  {
    PrintedWords(b)
  }

  /** The inner loop of string_to_lic: read up to n digits into tmp; a character
      that is no digit ends the word, is skipped, and leaves tmp shifted.  Returns
      the word and the rest of the text. */
  function ReadWord(s: string, n: nat, tmp: Word): (r: (Word, string))
    requires n <= |s|
    ensures |s| - n <= |r.1| <= |s|
    decreases n
  {
    if n == 0 then (tmp, s)
    else
      var t := tmp * 16 % WORDS;
      if IsXDigit(s[0]) then ReadWord(s[1..], n - 1, t + DigitValue(s[0])) else (t, s[1..])
  }

  // A word of all ones is taken for an overflow and becomes 0.
  function Accepted(tmp: Word): Word {
    if tmp == WORDS - 1 then 0 else tmp
  }

  function ReadWords(s: string, n: nat): (b: seq<Word>)
    requires 8 * n <= |s|
    ensures |b| == n
    decreases n
  {
    if n == 0 then []
    else
      var (w, rest) := ReadWord(s, 8, 0);
      [Accepted(w)] + ReadWords(rest, n - 1)
  }

  function StringToLic(s: string): Block
    requires |s| >= 32
  {
    ReadWords(s, 4)
  }

  // One character of the inner loop.
  lemma ReadStep(s: string, q: nat, n: nat, tmp: Word)
    requires 0 < n && q + n <= |s|
    ensures var t := tmp * 16 % WORDS;
            && t <= WORDS - 16
            && ReadWord(s[q..], n, tmp)
               == if IsXDigit(s[q]) then ReadWord(s[q + 1..], n - 1, t + DigitValue(s[q])) else (t, s[q + 1..])
  {
    assert s[q..][1..] == s[q + 1..];
  }

  /** string_to_lic's inner loop: one word of at most n digits, from position p. */
  method ParseWord(s: string, p: nat, n: nat) returns (tmp: Word, q: nat)
    requires p + n <= |s|
    ensures p <= q <= p + n
    ensures (tmp, s[q..]) == ReadWord(s[p..], n, 0)
  {
    tmp, q := 0, p;
    ghost var expected := ReadWord(s[p..], n, 0);
    for i2 := 0 to n
      invariant q == p + i2 && ReadWord(s[q..], n - i2, tmp) == expected
    {
      ReadStep(s, q, n - i2, tmp);
      tmp := tmp * 16 % WORDS;
      if IsXDigit(s[q]) {
        tmp := tmp + DigitValue(s[q]);
        q := q + 1;
      } else {
        q := q + 1;
        break;
      }
    }
  }

  // One word, all ones taken for 0.
  method ParseAccepted(s: string, p: nat, n: nat) returns (w: Word, q: nat)
    requires n > 0 && p + 8 * n <= |s|
    ensures p <= q <= p + 8
    ensures ReadWords(s[p..], n) == [w] + ReadWords(s[q..], n - 1)
  {
    w, q := ParseWord(s, p, 8);
    w := Accepted(w);
  }

  /** string_to_lic's outer loop: n words, one after the other. */
  method ParseWords(s: string, n: nat) returns (lic: seq<Word>)
    requires |s| >= 8 * n
    ensures lic == ReadWords(s, n)
  {
    lic := [];
    var p := 0;
    assert s[0..] == s;
    ghost var expected := ReadWords(s, n);
    ghost var left := expected;
    for i1 := 0 to n
      invariant |lic| == i1 && p <= 8 * i1
      invariant left == ReadWords(s[p..], n - i1) && lic + left == expected
    {
      var w, q := ParseAccepted(s, p, n - i1);
      left := ReadWords(s[q..], n - i1 - 1);
      assert lic + ([w] + left) == lic + [w] + left;
      lic, p := lic + [w], q;
    }
  }

  // The characters of s are digits and spell the low |s| digits of x.
  predicate Spells(s: string, x: nat) {
    s == "" || (IsXDigit(s[0]) && DigitValue(s[0]) == High(x, |s| - 1) % 16 && Spells(s[1..], x))
  }

  lemma {:induction false} DigitsSpell(x: nat, n: nat)
    ensures Spells(DigitsOf(x, n), x)
  {
    if n != 0 {
      DigitsSpell(x, n - 1);
      assert DigitsOf(x, n)[1..] == DigitsOf(x, n - 1);
    }
  }

  lemma {:induction false} HighLess(x: nat, m: nat)
    ensures High(x, m) <= x
  {
    if m != 0 { HighLess(x / 16, m - 1); }
  }

  lemma SpelledStep(x: Word, n: nat, d: nat)
    requires d == High(x, n) % 16
    ensures var tmp := High(x, n + 1);
            tmp * 16 + d == High(x, n) < WORDS && tmp * 16 % WORDS == tmp * 16
  {
    HighStep(x, n);
    HighLess(x, n);
  }

  /** Reading a spelled word yields it, in either letter case. */
  lemma {:induction false} ReadSpelled(s: string, rest: string, x: Word, tmp: Word)
    requires Spells(s, x) && tmp == High(x, |s|)
    ensures ReadWord(s + rest, |s|, tmp) == (x, rest)
  {
    if s == "" {
      assert s + rest == rest;
    } else {
      var n := |s| - 1;
      SpelledStep(x, n, DigitValue(s[0]));
      ReadDigit(s, rest, tmp);
      ReadSpelled(s[1..], rest, x, High(x, n));
    }
  }

  lemma NoOverflow(tmp: Word, d: nat, m: nat)
    requires m < 8 && tmp < Pow16(m) && d < 16
    ensures tmp * 16 % WORDS == tmp * 16 && tmp * 16 + d < Pow16(m + 1) <= WORDS
  {
    Pow16Grows(m, 7);
    Pow16Grows(m + 1, 8);
    Pow16Values();
  }

  lemma LastDigit(tmp: nat, d: nat)
    requires d < 16
    ensures (tmp * 16 + d) % 16 == d && (tmp * 16 + d) / 16 == tmp
  {}

  /** Whatever digits are read into a word with room for them, they spell the word x
      that comes out. */
  lemma {:induction false} ReadWordSpells(s: string, rest: string, tmp: Word, m: nat) returns (x: Word)
    requires m + |s| == 8 && tmp < Pow16(m) && forall c <- s :: IsXDigit(c)
    ensures ReadWord(s + rest, |s|, tmp) == (x, rest) && Spells(s, x) && High(x, |s|) == tmp
    decreases |s|
  {
    if s == "" {
      assert s + rest == rest;
      x := tmp;
    } else {
      var d := DigitValue(s[0]);
      NoOverflow(tmp, d, m);
      ReadDigit(s, rest, tmp);
      x := ReadWordSpells(s[1..], rest, tmp * 16 + d, m + 1);
      HighStep(x, |s| - 1);
      LastDigit(tmp, d);
    }
  }

  lemma ReadDigit(s: string, rest: string, tmp: Word)
    requires s != "" && IsXDigit(s[0]) && tmp * 16 % WORDS == tmp * 16 && tmp * 16 + DigitValue(s[0]) < WORDS
    ensures ReadWord(s + rest, |s|, tmp) == ReadWord(s[1..] + rest, |s| - 1, tmp * 16 + DigitValue(s[0]))
  {
    assert (s + rest)[1..] == s[1..] + rest;
  }

  lemma {:induction false} Pow16Grows(m: nat, n: nat)
    requires m <= n
    ensures Pow16(m) <= Pow16(n)
    decreases n - m
  {
    if m < n { Pow16Grows(m + 1, n); }
  }

  predicate NoAllOnes(b: Block) {
    forall w <- b :: w != WORDS - 1
  }

  function AcceptedBlock(b: Block): Block {
    [Accepted(b[0]), Accepted(b[1]), Accepted(b[2]), Accepted(b[3])]
  }

  lemma ReadWordText(x: Word, rest: string)
    ensures ReadWord(DigitsOf(x, 8) + rest, 8, 0) == (x, rest)
  {
    Pow16Values();
    HighZero(x, 8);
    DigitsSpell(x, 8);
    ReadSpelled(DigitsOf(x, 8), rest, x, 0);
  }

  lemma {:induction false} ReadPrinted(b: seq<Word>, text: string, rest: string)
    requires |text| == 8 * |b| && text == PrintedWords(b)
    ensures ReadWords(text + rest, |b|) == seq(|b|, i requires 0 <= i < |b| => Accepted(b[i]))
  {
    if b != [] {
      var d := DigitsOf(b[0], 8);
      var tail := PrintedWords(b[1..]);
      assert text + rest == d + (tail + rest);
      ReadWordText(b[0], tail + rest);
      ReadPrinted(b[1..], tail, rest);
    }
  }

  /** Printing and reading back returns every word, except that all ones becomes
      0: the original block comes back exactly when it holds no such word. */
  lemma HexRoundTrip(b: Block)
    ensures StringToLic(LicToString(b)) == AcceptedBlock(b)
    ensures StringToLic(LicToString(b)) == b <==> NoAllOnes(b)
  {
    assert LicToString(b) + "" == LicToString(b);
    ReadPrinted(b, LicToString(b), "");
    assert b[0] in b && b[1] in b && b[2] in b && b[3] in b;
    assert b == [b[0], b[1], b[2], b[3]];
  }

  // ------------------------------------------------------------ text, then words

  const HEX_DIGITS: string := "0123456789abcdef"

  /** Digits have the values of their places in the usual order. */
  lemma DigitTable(d: nat)
    requires d < 16
    ensures Digit(d) == HEX_DIGITS[d]
  {}

  lemma DigitInTable(c: char)
    requires IsXDigit(c)
    ensures HEX_DIGITS[DigitValue(c)] == Lowered(c)
  {
    DigitTable(DigitValue(c));
    LoweredDigit(c);
  }

  lemma DigitsAreTheTable(c: char)
    ensures IsXDigit(c) <==> exists d: nat :: d < 16 && HEX_DIGITS[d] == Lowered(c)
  {
    if IsXDigit(c) { DigitInTable(c); }
    if d: nat :| d < 16 && HEX_DIGITS[d] == Lowered(c) {
      DigitTable(d);
      LoweredDigit(c);
    }
  }

  // tolower
  function Lowered(c: char): char {
    if 'A' <= c <= 'Z' then c + 32 as char else c
  }

  function Lower(s: string): (l: string)
    ensures |l| == |s|
  {
    if s == "" then "" else [Lowered(s[0])] + Lower(s[1..])
  }

  lemma {:induction false} LowerConcat(a: string, b: string)
    ensures Lower(a + b) == Lower(a) + Lower(b)
  {
    if a == "" {
      assert a + b == b;
    } else {
      assert (a + b)[1..] == a[1..] + b;
      LowerConcat(a[1..], b);
    }
  }

  lemma LoweredDigit(c: char)
    ensures IsXDigit(Lowered(c)) <==> IsXDigit(c)
    ensures IsXDigit(c) ==> DigitValue(Lowered(c)) == DigitValue(c) && Digit(DigitValue(c)) == Lowered(c)
  {}

  lemma {:induction false} ReadWordLower(s: string, n: nat, tmp: Word)
    requires n <= |s|
    ensures var (w, rest) := ReadWord(s, n, tmp);
            ReadWord(Lower(s), n, tmp) == (w, Lower(rest))
    decreases n
  {
    if n > 0 {
      LoweredDigit(s[0]);
      assert Lower(s)[1..] == Lower(s[1..]);
      if IsXDigit(s[0]) {
        ReadWordLower(s[1..], n - 1, tmp * 16 % WORDS + DigitValue(s[0]));
      }
    }
  }

  lemma {:induction false} ReadWordsLower(s: string, n: nat)
    requires 8 * n <= |s|
    ensures ReadWords(Lower(s), n) == ReadWords(s, n)
    decreases n
  {
    if n > 0 {
      ReadWordLower(s, 8, 0);
      ReadWordsLower(ReadWord(s, 8, 0).1, n - 1);
    }
  }

  /** Letter case makes no difference, in digits or anything else. */
  lemma CaseDoesNotMatter(s: string)
    requires |s| >= 32
    ensures StringToLic(s) == StringToLic(Lower(s))
  {
    ReadWordsLower(s, 4);
  }

  lemma {:induction false} SpelledDigits(s: string, x: nat)
    requires Spells(s, x)
    ensures DigitsOf(x, |s|) == Lower(s)
  {
    if s != "" {
      LoweredDigit(s[0]);
      SpelledDigits(s[1..], x);
    }
  }

  // Eight digits read and printed.
  lemma PrintedWord(s: string, rest: string)
    requires |s| == 8 && forall c <- s :: IsXDigit(c)
    ensures var (w, r) := ReadWord(s + rest, 8, 0);
            r == rest && DigitsOf(w, 8) == Lower(s)
  {
    var x := ReadWordSpells(s, rest, 0, 0);
    SpelledDigits(s, x);
  }

  // Eight digits as a number, the first the most significant.
  function HexNumber(s: string): nat
    requires forall c <- s :: IsXDigit(c)
  {
    if s == "" then 0 else 16 * HexNumber(s[..|s| - 1]) + DigitValue(s[|s| - 1])
  }

  lemma {:induction false} ReadDigits(s: string, rest: string, tmp: Word, pre: string)
    requires |pre| + |s| <= 8 && tmp < Pow16(|pre|) && forall c <- pre + s :: IsXDigit(c)
    requires tmp == HexNumber(pre)
    ensures ReadWord(s + rest, |s|, tmp) == (HexNumber(pre + s), rest)
    decreases |s|
  {
    if s == "" {
      assert s + rest == rest && pre + s == pre;
    } else {
      var d := DigitValue(s[0]);
      NoOverflow(tmp, d, |pre|);
      ReadDigit(s, rest, tmp);
      var more := pre + [s[0]];
      assert more[..|pre|] == pre && more + s[1..] == pre + s;
      ReadDigits(s[1..], rest, tmp * 16 + d, more);
    }
  }

  lemma DigitsAreInjective(x: Word, y: Word)
    ensures DigitsOf(x, 8) == DigitsOf(y, 8) <==> x == y
  {
    ReadWordText(x, "");
    ReadWordText(y, "");
  }

  predicate AllF(s: string) {
    forall i | 0 <= i < |s| :: s[i] == 'f' || s[i] == 'F'
  }

  lemma ReadF(s: string, tmp: Word)
    requires s != "" && AllF(s) && tmp * 16 % WORDS == tmp * 16 && tmp * 16 + 15 < WORDS
    ensures ReadWord(s, |s|, tmp) == ReadWord(s[1..], |s| - 1, tmp * 16 + 15)
  {
    assert DigitValue(s[0]) == 15;
  }

  lemma {:induction false} ReadFs(s: string, tmp: Word, m: nat)
    requires m + |s| == 8 && tmp == Pow16(m) - 1 && AllF(s)
    ensures ReadWord(s, |s|, tmp).0 == WORDS - 1
    decreases |s|
  {
    if s == "" {
      Pow16Values();
    } else {
      NoOverflow(tmp, 15, m);
      ReadF(s, tmp);
      ReadFs(s[1..], tmp * 16 + 15, m + 1);
    }
  }

  lemma {:induction false} LowerAllF(s: string, t: string)
    requires AllF(s) && Lower(s) == Lower(t)
    ensures AllF(t)
  {
    if s != "" {
      assert Lower(s)[1..] == Lower(s[1..]) && Lower(t)[1..] == Lower(t[1..]);
      LowerAllF(s[1..], t[1..]);
      assert Lower(s)[0] == Lowered(s[0]) && Lower(t)[0] == Lowered(t[0]);
      assert t == [t[0]] + t[1..];
    }
  }

  // Eight digits read as all ones exactly when each of them is f.
  lemma AllOnesText(s: string)
    requires |s| == 8 && forall c <- s :: IsXDigit(c)
    ensures ReadWord(s, 8, 0).0 == WORDS - 1 <==> AllF(s)
  {
    if AllF(s) {
      ReadFs(s, 0, 0);
    }
    var fs := seq(8, i => 'f');
    ReadFs(fs, 0, 0);
    assert s + "" == s && fs + "" == fs;
    PrintedWord(s, "");
    PrintedWord(fs, "");
    if ReadWord(s, 8, 0).0 == WORDS - 1 {
      LowerAllF(fs, s);
    }
  }

  // Fewer digits than a word takes, then another character: it is skipped, and the digits
  // are shifted by one place.
  lemma {:induction false} ReadStops(s: string, c: char, rest: string, n: nat, tmp: Word, pre: string)
    requires (forall x <- pre :: IsXDigit(x)) && (forall x <- s :: IsXDigit(x)) && !IsXDigit(c)
    requires |pre| + |s| < 8 && tmp == HexNumber(pre) < Pow16(|pre|) && |s| < n <= |s| + 1 + |rest|
    ensures ReadWord(s + [c] + rest, n, tmp) == (16 * HexNumber(pre + s), rest)
    decreases |s|
  {
    if s == "" {
      assert s + [c] + rest == [c] + rest && pre + s == pre && ([c] + rest)[1..] == rest;
      NoOverflow(tmp, 0, |pre|);
    } else {
      var d := DigitValue(s[0]);
      NoOverflow(tmp, d, |pre|);
      var more := pre + [s[0]];
      assert more[..|pre|] == pre && more + s[1..] == pre + s;
      assert (s + [c] + rest)[1..] == s[1..] + [c] + rest;
      ReadStops(s[1..], c, rest, n - 1, tmp * 16 + d, more);
    }
  }

  /** A word that is cut short by another character is its digits shifted by one place;
      reading goes on behind that character. */
  lemma ShortWord(s: string, c: char, rest: string)
    requires |s| < 8 <= |s| + 1 + |rest| && (forall x <- s :: IsXDigit(x)) && !IsXDigit(c)
    ensures ReadWord(s + [c] + rest, 8, 0) == (16 * HexNumber(s), rest)
  {
    assert "" + s == s;
    ReadStops(s, c, rest, 8, 0, "");
  }

  // One group of digits comes back, in lower case, unless it is all f.
  lemma GroupComesBack(s: string, rest: string)
    requires |s| == 8 && forall c <- s :: IsXDigit(c)
    ensures var (w, r) := ReadWord(s + rest, 8, 0);
            r == rest && (DigitsOf(Accepted(w), 8) == Lower(s) <==> !AllF(s))
  {
    PrintedWord(s, rest);
    PrintedWord(s, "");
    assert s + "" == s;
    AllOnesText(s);
    var w := ReadWord(s + rest, 8, 0).0;
    DigitsAreInjective(w, ReadWord(s, 8, 0).0);
    DigitsAreInjective(Accepted(w), w);
  }

  // The k-th group of eight digits.
  function Group(s: string, k: nat): string
    requires 8 * k + 8 <= |s|
  {
    s[8 * k..8 * k + 8]
  }

  predicate AllHex(s: string) {
    forall c <- s :: IsXDigit(c)
  }

  // The k-th group of eight digits as a number.
  function GroupNumber(s: string, k: nat): nat
    requires 8 * k + 8 <= |s| && AllHex(s)
  {
    assert AllHex(Group(s, k));
    HexNumber(Group(s, k))
  }

  lemma NextGroup(first: string, rest: string, k: nat)
    requires |first| == 8 && 8 * k + 8 <= |rest| && AllHex(first + rest)
    ensures AllHex(rest) && GroupNumber(first + rest, k + 1) == GroupNumber(rest, k)
  {
    var s := first + rest;
    assert rest == s[8..];
    assert Group(s, k + 1) == Group(rest, k);
  }

  // The groups as words, all f as 0.
  function GroupWords(s: string, n: nat): (ws: seq<Word>)
    requires |s| == 8 * n && AllHex(s)
    ensures |ws| == n
    decreases n
  {
    if n == 0 then []
    else
      var first := s[..8];
      assert AllHex(first) && AllHex(s[8..]);
      HexBound(first);
      [Accepted(HexNumber(first))] + GroupWords(s[8..], n - 1)
  }

  lemma HexBound(s: string)
    requires |s| == 8 && AllHex(s)
    ensures HexNumber(s) < WORDS
  {
    assert "" + s == s;
    ReadDigits(s, "", 0, "");
  }

  lemma {:induction false} ReadsGroups(s: string, n: nat)
    requires |s| == 8 * n && AllHex(s)
    ensures ReadWords(s, n) == GroupWords(s, n)
    decreases n
  {
    if n > 0 {
      assert s == s[..8] + s[8..] && AllHex(s[..8]) && AllHex(s[8..]);
      FirstWord(s[..8], s[8..], n);
      ReadsGroups(s[8..], n - 1);
    }
  }

  lemma {:induction false} GroupsAreWords(s: string, n: nat, k: nat)
    requires |s| == 8 * n && k < n && AllHex(s)
    ensures GroupNumber(s, k) < WORDS && GroupWords(s, n)[k] == Accepted(GroupNumber(s, k))
    decreases n
  {
    var first, rest := s[..8], s[8..];
    assert s == first + rest && AllHex(first) && AllHex(rest);
    HexBound(first);
    if k == 0 {
      assert Group(s, 0) == first;
    } else {
      NextGroup(first, rest, k - 1);
      GroupsAreWords(rest, n - 1, k - 1);
    }
  }

  lemma FirstWord(first: string, rest: string, n: nat)
    requires |first| == 8 && |rest| == 8 * n - 8 && n > 0 && forall c <- first :: IsXDigit(c)
    ensures HexNumber(first) < WORDS
    ensures ReadWords(first + rest, n) == [Accepted(HexNumber(first))] + ReadWords(rest, n - 1)
  {
    assert "" + first == first;
    ReadDigits(first, rest, 0, "");
  }

  /** The k-th word read from 32 digits is the k-th group of eight as a number, and 0 for
      all f. */
  lemma WordsOfText(s: string, k: nat)
    requires |s| == 32 && k < 4 && AllHex(s)
    ensures StringToLic(s)[k] == if GroupNumber(s, k) == WORDS - 1 then 0 else GroupNumber(s, k)
  {
    ReadsGroups(s, 4);
    GroupsAreWords(s, 4, k);
  }

  predicate NoGroupAllF(s: string, n: nat)
    requires |s| == 8 * n
  {
    forall k | 0 <= k < n :: !AllF(Group(s, k))
  }

  lemma NoGroupStep(first: string, rest: string, n: nat)
    requires |first| == 8 && |rest| == 8 * n
    ensures NoGroupAllF(first + rest, n + 1) <==> !AllF(first) && NoGroupAllF(rest, n)
  {
    var s := first + rest;
    assert Group(s, 0) == first;
    assert forall k | 0 <= k < n :: Group(rest, k) == Group(s, k + 1);
    assert forall k | 0 < k < n + 1 :: Group(s, k) == Group(rest, k - 1);
  }

  lemma SameHalves(a: string, b: string, c: string, d: string)
    requires |a| == |c|
    ensures a + b == c + d <==> a == c && b == d
  {
    assert a + b == c + d ==> a == (a + b)[..|a|] == (c + d)[..|a|] == c;
    assert a + b == c + d ==> b == (a + b)[|a|..] == (c + d)[|a|..] == d;
  }

  lemma {:induction false} GroupsComeBack(s: string, n: nat)
    requires |s| == 8 * n && forall c <- s :: IsXDigit(c)
    ensures PrintedWords(ReadWords(s, n)) == Lower(s) <==> NoGroupAllF(s, n)
    decreases n
  {
    if n > 0 {
      var first, rest := s[..8], s[8..];
      assert s == first + rest;
      GroupComesBack(first, rest);
      GroupsComeBack(rest, n - 1);
      NoGroupStep(first, rest, n - 1);
      LowerConcat(first, rest);
      var w := ReadWord(s, 8, 0).0;
      assert ReadWords(s, n)[1..] == ReadWords(rest, n - 1);
      SameHalves(DigitsOf(Accepted(w), 8), PrintedWords(ReadWords(rest, n - 1)), Lower(first), Lower(rest));
    }
  }

  /** Any 32 hexadecimal digits, of either case, read and printed again are the same
      digits in lower case - if and only if no group of eight is all f. */
  lemma TextRoundTrip(s: string)
    requires |s| == 32 && forall c <- s :: IsXDigit(c)
    ensures LicToString(StringToLic(s)) == Lower(s) <==> NoGroupAllF(s, 4)
  {
    GroupsComeBack(s, 4);
  }
}

/** read_licenses over any record type: dec decodes 32 characters, ok checks a
    record. */
module LicenseLines {
  import opened Common

  const RL_OK := 0
  const RL_CANT_STAT := 1
  const RL_MOD_TIME := 2
  const RL_CANT_OPEN := 3
  const RL_CANT_READ := 4
  const RL_LIC_DATA := 5

  /** What the operating system says about the license file. */
  datatype FileAccess = FileAccess(statOk: bool, inFuture: bool, openOk: bool, readOk: bool, text: string)

  /** The return code and the three outputs; None is a null pointer. */
  datatype Outcome<R> = Outcome(code: int, system: Option<R>, media: Option<seq<R>>, num: int)

  /** strchr from position p of a C string that ends with the text. */
  function StrChr(text: string, p: nat, c: char): (r: Option<nat>)
    requires p <= |text|
    ensures r.Some? ==> p <= r.value < |text| && text[r.value] == c
    decreases |text| - p
  {
    if p == |text| then None
    else if text[p] == c then Some(p)
    else if text[p] == '\0' then None
    else StrChr(text, p + 1, c)
  }

  /** It is the first one, and there is no NUL before it; or there is none before a NUL. */
  lemma {:induction false} StrChrIsFirst(text: string, p: nat, c: char, q: nat)
    requires p <= q < |text| && c != '\0'
    ensures StrChr(text, p, c) == Some(q) <==> text[q] == c && c !in text[p..q] && '\0' !in text[p..q]
    decreases |text| - p
  {
    if p < q {
      StrChrIsFirst(text, p + 1, c, q);
      assert text[p..q] == [text[p]] + text[p + 1..q];
    }
  }

  function SkipNewlines(text: string, p: nat): (q: nat)
    requires p <= |text|
    ensures p <= q <= |text| && (p < |text| && text[p] == '\n' ==> p < q)
    decreases |text| - p
  {
    if p < |text| && text[p] == '\n' then SkipNewlines(text, p + 1) else p
  }

  lemma {:induction false} SkipsAllNewlines(text: string, p: nat)
    requires p <= |text|
    ensures var q := SkipNewlines(text, p);
            (forall i | p <= i < q :: text[i] == '\n') && (q < |text| ==> text[q] != '\n')
    decreases |text| - p
  {
    if p < |text| && text[p] == '\n' { SkipsAllNewlines(text, p + 1); }
  }

  /** The first loop: a run of newlines ends one line. */
  function CountLines(text: string, p: nat): nat
    requires p <= |text|
    decreases |text| - p
  {
    match StrChr(text, p, '\n')
    case None => 0
    case Some(q) => 1 + CountLines(text, SkipNewlines(text, q))
  }

  /** The 32 characters copied from position p, which may reach behind the text's
      terminator into whatever memory follows it. */
  function CopiedAt(text: string, behind: string, p: nat): (kbuf: string)
    requires p <= |text| && |behind| >= 31
    ensures |kbuf| == 32
  {
    (text + "\0" + behind)[p..p + 32]
  }

  /** The second loop: n records, each behind the next single newline; None when
      a record does not check. */
  function ReadMedia<R>(dec: string -> R, ok: R -> bool, text: string, behind: string, p: nat, n: int)
    : Option<seq<R>>
    requires p <= |text| && |behind| >= 31
    decreases |text| - p
  {
    if n <= 0 then Some([])
    else
      var r := dec(CopiedAt(text, behind, p));
      if !ok(r) then None
      else
        match StrChr(text, p, '\n')
        case None => Some([r])
        case Some(q) => Prepended([r], ReadMedia(dec, ok, text, behind, q + 1, n - 1))
  }

  function Prepended<R>(rs: seq<R>, rest: Option<seq<R>>): Option<seq<R>> {
    match rest
    case None => None
    case Some(more) => Some(rs + more)
  }

  lemma PrependNothing<R>(rest: Option<seq<R>>)
    ensures Prepended([], rest) == rest
  {
    if rest.Some? { assert [] + rest.value == rest.value; }
  }

  lemma PrependTwice<R>(rs: seq<R>, r: R, rest: Option<seq<R>>)
    ensures Prepended(rs + [r], rest) == Prepended(rs, Prepended([r], rest))
  {
    if rest.Some? { assert rs + [r] + rest.value == rs + ([r] + rest.value); }
  }

  function Failed<R>(code: int, num: int): Outcome<R> {
    Outcome(code, None, None, num)
  }

  function ReadText<R>(dec: string -> R, ok: R -> bool, text: string, behind: string, num: int): Outcome<R>
    requires |behind| >= 31
  {
    var n := CountLines(text, 0) - 1;
    var system := dec(CopiedAt(text, behind, 0));
    if !ok(system) then Failed(RL_LIC_DATA, num)
    else
      match StrChr(text, 0, '\n')
      case None => Outcome(RL_OK, Some(system), None, n)
      case Some(q) =>
        match ReadMedia(dec, ok, text, behind, q + 1, n)
        case None => Failed(RL_LIC_DATA, num)
        case Some(rs) => Outcome(RL_OK, Some(system), if n > 0 then Some(rs) else None, n)
  }

  /** The counting loop. */
  method LineCount(text: string) returns (nlines: nat)
    ensures nlines == CountLines(text, 0)
  {
    nlines := 0;
    var p := Some(0);
    while p.Some?
      invariant p.Some? ==> p.value <= |text| && nlines + CountLines(text, p.value) == CountLines(text, 0)
      invariant p.None? ==> nlines == CountLines(text, 0)
      decreases if p.Some? then 1 + |text| - p.value else 0
    {
      var from := p.value;
      p := StrChr(text, from, '\n');
      if p.Some? {
        nlines := nlines + 1;
        var q := p.value;
        ghost var first := q;
        while q < |text| && text[q] == '\n'
          invariant first <= q <= |text|
          invariant SkipNewlines(text, q) == SkipNewlines(text, first)
        {
          q := q + 1;
        }
        p := Some(q);
      }
    }
  }

  /** The loop over the media lines. */
  method ReadMediaLines<R>(dec: string -> R, ok: R -> bool, text: string, behind: string, start: nat, n: int)
    returns (media: Option<seq<R>>)
    requires start <= |text| && |behind| >= 31
    ensures media == ReadMedia(dec, ok, text, behind, start, n)
  {
    var mlp: seq<R> := [];
    var p: nat := start;
    var i := 0;
    PrependNothing(ReadMedia(dec, ok, text, behind, start, n));
    while i < n
      invariant 0 <= i && 0 <= p <= |text|
      invariant ReadMedia(dec, ok, text, behind, start, n)
                == Prepended(mlp, ReadMedia(dec, ok, text, behind, p, n - i))
    {
      var r := dec(CopiedAt(text, behind, p));
      if !ok(r) { return None; }
      ghost var before := mlp;
      mlp := mlp + [r];
      var newline := StrChr(text, p, '\n');
      if newline.None? { return Some(mlp); }
      p := newline.value + 1;
      PrependTwice(before, r, ReadMedia(dec, ok, text, behind, p, n - i - 1));
      i := i + 1;
    }
    assert mlp + [] == mlp;
    return Some(mlp);
  }

  /** read_licenses; the outputs of a failed call are null. */
  method ReadLicenses<R>(dec: string -> R, ok: R -> bool, f: FileAccess, behind: string, num: int)
    returns (o: Outcome<R>)
    requires |behind| >= 31
    ensures !f.statOk ==> o == Failed(RL_CANT_STAT, num)
    ensures f.statOk && f.inFuture ==> o == Failed(RL_MOD_TIME, num)
    ensures f.statOk && !f.inFuture && !f.openOk ==> o == Failed(RL_CANT_OPEN, num)
    ensures f.statOk && !f.inFuture && f.openOk && !f.readOk ==> o == Failed(RL_CANT_READ, num)
    ensures f.statOk && !f.inFuture && f.openOk && f.readOk ==> o == ReadText(dec, ok, f.text, behind, num)
    ensures o.code != RL_OK ==> o.system.None? && o.media.None? && o.num == num
  {
    if !f.statOk { return Failed(RL_CANT_STAT, num); }
    if f.inFuture { return Failed(RL_MOD_TIME, num); }
    if !f.openOk { return Failed(RL_CANT_OPEN, num); }
    if !f.readOk { return Failed(RL_CANT_READ, num); }
    var nlines: int := LineCount(f.text);
    var system := dec(CopiedAt(f.text, behind, 0));
    if !ok(system) { return Failed(RL_LIC_DATA, num); }
    var newline := StrChr(f.text, 0, '\n');
    if newline.None? {
      return Outcome(RL_OK, Some(system), None, nlines - 1);
    }
    var media := ReadMediaLines(dec, ok, f.text, behind, newline.value + 1, nlines - 1);
    if media.None? { return Failed(RL_LIC_DATA, num); }
    return Outcome(RL_OK, Some(system), if nlines - 1 > 0 then media else None, nlines - 1);
  }

  // ------------------------------------------------- every text

  lemma SkipOne(text: string, q: nat)
    requires q < |text| && text[q] == '\n'
    ensures CountLines(text, SkipNewlines(text, q)) <= CountLines(text, q + 1)
  {
    if q + 1 < |text| && text[q + 1] == '\n' {
      assert SkipNewlines(text, q) == SkipNewlines(text, q + 1);
    }
  }

  lemma {:induction false} MediaIsRead<R>(
      dec: string -> R, ok: R -> bool, text: string, behind: string, p: nat, n: nat)
    requires p <= |text| && |behind| >= 31
    requires n <= CountLines(text, p) && ReadMedia(dec, ok, text, behind, p, n).Some?
    ensures |ReadMedia(dec, ok, text, behind, p, n).value| == n
    decreases n
  {
    if n > 0 {
      var q := StrChr(text, p, '\n').value;
      SkipOne(text, q);
      MediaIsRead(dec, ok, text, behind, q + 1, n - 1);
    }
  }

  /** The two loops disagree about blank lines, but never so that the media array, sized
      by the first, is left partly unfilled by the second: on success there is an array
      exactly if there are media lines, and it holds as many records as are announced. */
  lemma MediaArrayIsFilled<R>(dec: string -> R, ok: R -> bool, text: string, behind: string, num: int)
    requires |behind| >= 31
    ensures var o := ReadText(dec, ok, text, behind, num);
            o.code == RL_OK ==> (o.media.Some? <==> o.num > 0) && (o.media.Some? ==> |o.media.value| == o.num)
  {
    match StrChr(text, 0, '\n')
    case None =>
    case Some(q) =>
      var n := CountLines(text, 0) - 1;
      SkipOne(text, q);
      if ReadMedia(dec, ok, text, behind, q + 1, n).Some? { MediaIsRead(dec, ok, text, behind, q + 1, n); }
  }

  /** The newlines before any NUL that no other newline follows. */
  function RunEnds(text: string): nat {
    if text == "" || text[0] == '\0' then 0
    else (if text[0] == '\n' && (|text| == 1 || text[1] != '\n') then 1 else 0) + RunEnds(text[1..])
  }

  lemma {:induction false} RunEndsBehind(text: string, p: nat, q: nat)
    requires p <= q <= |text| && forall i | p <= i < q :: text[i] != '\n' && text[i] != '\0'
    ensures RunEnds(text[p..]) == RunEnds(text[q..])
    decreases q - p
  {
    if p < q {
      assert text[p..][1..] == text[p + 1..];
      RunEndsBehind(text, p + 1, q);
    }
  }

  lemma {:induction false} RunEndsOnce(text: string, q: nat)
    requires q < |text| && text[q] == '\n'
    ensures RunEnds(text[q..]) == 1 + RunEnds(text[SkipNewlines(text, q)..])
    decreases |text| - q
  {
    assert text[q..][1..] == text[q + 1..];
    if q + 1 < |text| && text[q + 1] == '\n' {
      RunEndsOnce(text, q + 1);
    } else {
      assert SkipNewlines(text, q) == q + 1;
    }
  }

  lemma {:induction false} NoRunEnds(text: string, p: nat)
    requires p <= |text| && StrChr(text, p, '\n').None?
    ensures RunEnds(text[p..]) == 0
    decreases |text| - p
  {
    if p < |text| && text[p] != '\0' {
      assert text[p..][1..] == text[p + 1..];
      NoRunEnds(text, p + 1);
    }
  }

  /** The first loop counts runs of newlines, in any text. */
  lemma {:induction false} CountsRuns(text: string, p: nat)
    requires p <= |text|
    ensures CountLines(text, p) == RunEnds(text[p..])
    decreases |text| - p
  {
    match StrChr(text, p, '\n')
    case None => NoRunEnds(text, p);
    case Some(q) =>
      StrChrIsFirst(text, p, '\n', q);
      forall i | p <= i < q ensures text[i] != '\n' && text[i] != '\0' {
        assert text[i] in text[p..q];
      }
      RunEndsBehind(text, p, q);
      RunEndsOnce(text, q);
      CountsRuns(text, SkipNewlines(text, q));
  }

  /** How many newlines a text has. */
  function Newlines(text: string): nat {
    if text == "" then 0 else (if text[0] == '\n' then 1 else 0) + Newlines(text[1..])
  }

  /** Position q is just behind the k-th newline from p on, or p itself. */
  predicate StartsLine(text: string, p: nat, k: nat, q: nat) {
    && p <= q <= |text| && '\0' !in text[p..q]
    && Newlines(text[p..q]) == k && (q == p || text[q - 1] == '\n')
  }

  lemma {:induction false} NewlinesJoin(a: string, b: string)
    ensures Newlines(a + b) == Newlines(a) + Newlines(b)
  {
    if a == "" {
      assert a + b == b;
    } else {
      assert (a + b)[1..] == a[1..] + b;
      NewlinesJoin(a[1..], b);
    }
  }

  lemma {:induction false} NoNewlines(a: string)
    ensures Newlines(a) == 0 <==> '\n' !in a
  {
    if a != "" {
      NoNewlines(a[1..]);
      assert a == [a[0]] + a[1..];
    }
  }

  // The first newline of the text from p on is at m.
  lemma ThroughNewline(text: string, p: nat, m: nat, q: nat)
    requires p <= m < q <= |text| && StrChr(text, p, '\n') == Some(m)
    ensures Newlines(text[p..q]) == 1 + Newlines(text[m + 1..q])
    ensures '\0' !in text[p..q] <==> '\0' !in text[m + 1..q]
  {
    StrChrIsFirst(text, p, '\n', m);
    NoNewlines(text[p..m]);
    NewlinesJoin(text[p..m], text[m..q]);
    assert text[p..q] == text[p..m] + text[m..q] && text[m..q] == [text[m]] + text[m + 1..q];
  }

  lemma NextStart(text: string, p: nat, m: nat, k: nat, q: nat)
    requires p <= m < |text| && StrChr(text, p, '\n') == Some(m) && StartsLine(text, m + 1, k, q)
    ensures StartsLine(text, p, k + 1, q)
  {
    ThroughNewline(text, p, m, q);
  }

  // A later start lies behind the first newline.
  lemma LaterStart(text: string, p: nat, k: nat, q: nat) returns (m: nat)
    requires k > 0 && StartsLine(text, p, k, q)
    ensures p <= m < q && StrChr(text, p, '\n') == Some(m) && StartsLine(text, m + 1, k - 1, q)
  {
    NoNewlines(text[p..q]);
    m := FirstNewline(text, p, q);
    ThroughNewline(text, p, m, q);
  }

  lemma {:induction false} FirstNewline(text: string, p: nat, q: nat) returns (m: nat)
    requires p <= q <= |text| && '\n' in text[p..q] && '\0' !in text[p..q]
    ensures p <= m < q && StrChr(text, p, '\n') == Some(m)
    decreases q - p
  {
    assert text[p] in text[p..q];
    if text[p] == '\n' {
      m := p;
    } else {
      assert text[p..q] == [text[p]] + text[p + 1..q];
      m := FirstNewline(text, p + 1, q);
    }
  }

  lemma FirstStart(text: string, p: nat, q: nat)
    requires StartsLine(text, p, 0, q)
    ensures q == p
  {
    assert q > p ==> text[p..q][q - 1 - p] == text[q - 1];
    NoNewlines(text[p..q]);
  }

  /** In any text, the k-th media record is decoded from just behind the k-th single
      newline, and it checks. */
  lemma {:induction false} MediaStandBehindNewlines<R>(
      dec: string -> R, ok: R -> bool, text: string, behind: string, p: nat, n: nat, k: nat, q: nat)
    requires p <= |text| && |behind| >= 31 && k < n && StartsLine(text, p, k, q)
    requires ReadMedia(dec, ok, text, behind, p, n).Some?
    ensures var rs := ReadMedia(dec, ok, text, behind, p, n).value;
            k < |rs| && rs[k] == dec(CopiedAt(text, behind, q)) && ok(rs[k])
    decreases k
  {
    if k == 0 {
      FirstStart(text, p, q);
    } else {
      var m := LaterStart(text, p, k, q);
      MediaStandBehindNewlines(dec, ok, text, behind, m + 1, n - 1, k - 1, q);
    }
  }

  /** And reading fails only on such a record that does not check. */
  lemma {:induction false} BadMediaIsThere<R>(
      dec: string -> R, ok: R -> bool, text: string, behind: string, p: nat, n: nat) returns (k: nat, q: nat)
    requires p <= |text| && |behind| >= 31 && ReadMedia(dec, ok, text, behind, p, n).None?
    ensures k < n && StartsLine(text, p, k, q) && !ok(dec(CopiedAt(text, behind, q)))
    decreases n
  {
    if !ok(dec(CopiedAt(text, behind, p))) {
      k, q := 0, p;
    } else {
      var m := StrChr(text, p, '\n').value;
      k, q := BadMediaIsThere(dec, ok, text, behind, m + 1, n - 1);
      NextStart(text, p, m, k, q);
      k := k + 1;
    }
  }

  // ------------------------------------------------- well-formed files

  predicate IsLine(l: string) {
    |l| == 32 && '\n' !in l && '\0' !in l
  }

  predicate AllLines(lines: seq<string>) {
    forall l <- lines :: IsLine(l)
  }

  function Joined(lines: seq<string>): string {
    if lines == [] then "" else lines[0] + "\n" + Joined(lines[1..])
  }

  // f applied to each element: decoding lines, or printing records.
  function Each<A, B>(f: A -> B, s: seq<A>): (r: seq<B>)
    ensures |r| == |s|
  {
    seq(|s|, i requires 0 <= i < |s| => f(s[i]))
  }

  ghost predicate AllOk<R(!new)>(ok: R -> bool, rs: seq<R>) {
    forall r <- rs :: ok(r)
  }

  lemma {:induction false} FindsLineEnd(text: string, p: nat, q: nat)
    requires p <= q < |text| && text[q] == '\n'
    requires forall i | p <= i < q :: text[i] != '\n' && text[i] != '\0'
    ensures StrChr(text, p, '\n') == Some(q)
    decreases q - p
  {
    if p < q { FindsLineEnd(text, p + 1, q); }
  }

  /** At the start of a line: where it ends, what is copied and what follows. */
  lemma AtLine(text: string, behind: string, pre: string, lines: seq<string>)
    requires lines != [] && AllLines(lines) && text == pre + Joined(lines) && |behind| >= 31
    ensures StrChr(text, |pre|, '\n') == Some(|pre| + 32)
    ensures SkipNewlines(text, |pre| + 32) == |pre| + 33
    ensures CopiedAt(text, behind, |pre|) == lines[0]
    ensures AllLines(lines[1..]) && text == (pre + lines[0] + "\n") + Joined(lines[1..])
    ensures |pre + lines[0] + "\n"| == |pre| + 33
  {
    var l, p := lines[0], |pre|;
    assert l in lines;
    assert text == pre + l + "\n" + Joined(lines[1..]);
    forall i | p <= i < p + 32 ensures text[i] != '\n' && text[i] != '\0' {
      assert text[i] == l[i - p] && l[i - p] in l;
    }
    FindsLineEnd(text, p, p + 32);
    if |lines| > 1 {
      var m := lines[1];
      assert m in lines && lines[1..][0] == m;
      assert text[p + 33] == m[0] && m[0] in m;
    }
  }

  lemma {:induction false} CountsLines(text: string, behind: string, pre: string, lines: seq<string>)
    requires AllLines(lines) && text == pre + Joined(lines) && |behind| >= 31
    ensures CountLines(text, |pre|) == |lines|
    decreases |lines|
  {
    if lines != [] {
      AtLine(text, behind, pre, lines);
      CountsLines(text, behind, pre + lines[0] + "\n", lines[1..]);
    } else {
      assert text == pre;
    }
  }

  lemma AllOkStep<R(!new)>(dec: string -> R, ok: R -> bool, lines: seq<string>)
    requires lines != []
    ensures Each(dec, lines) == [dec(lines[0])] + Each(dec, lines[1..])
    ensures AllOk(ok, Each(dec, lines)) <==> ok(dec(lines[0])) && AllOk(ok, Each(dec, lines[1..]))
  {
    var rest := Each(dec, lines[1..]);
    assert Each(dec, lines) == [dec(lines[0])] + rest;
    assert dec(lines[0]) in [dec(lines[0])] + rest;
  }

  lemma {:induction false} ReadsLines<R(!new)>(
      dec: string -> R, ok: R -> bool, text: string, behind: string, pre: string, lines: seq<string>)
    requires AllLines(lines) && text == pre + Joined(lines) && |behind| >= 31
    ensures ReadMedia(dec, ok, text, behind, |pre|, |lines|)
            == if AllOk(ok, Each(dec, lines)) then Some(Each(dec, lines)) else None
    decreases |lines|
  {
    if lines != [] {
      AtLine(text, behind, pre, lines);
      ReadsLines(dec, ok, text, behind, pre + lines[0] + "\n", lines[1..]);
      AllOkStep(dec, ok, lines);
    }
  }

  // The outputs for a list of records: the first, and an array of the others.
  function Success<R>(rs: seq<R>): Outcome<R>
    requires rs != []
  {
    Outcome(RL_OK, Some(rs[0]), if |rs| > 1 then Some(rs[1..]) else None, |rs| - 1)
  }

  /** On any non-empty file of 32-character lines read_licenses succeeds iff every
      decoded record checks, and then returns them all in order. */
  lemma WellFormedFile<R(!new)>(
      dec: string -> R, ok: R -> bool, lines: seq<string>, behind: string, num: int)
    requires lines != [] && AllLines(lines) && |behind| >= 31
    ensures ReadText(dec, ok, Joined(lines), behind, num)
            == if AllOk(ok, Each(dec, lines)) then Success(Each(dec, lines)) else Failed(RL_LIC_DATA, num)
  {
    var text := Joined(lines);
    assert text == "" + text;
    CountsLines(text, behind, "", lines);
    AtLine(text, behind, "", lines);
    ReadsLines(dec, ok, text, behind, "" + lines[0] + "\n", lines[1..]);
    AllOkStep(dec, ok, lines);
    assert Each(dec, lines)[1..] == Each(dec, lines[1..]);
  }

  lemma SuccessInjective<R>(a: seq<R>, b: seq<R>)
    requires a != [] && b != []
    ensures Success(a) == Success(b) <==> a == b
  {
    if Success(a) == Success(b) {
      assert a == [a[0]] + a[1..] && b == [b[0]] + b[1..];
    }
  }

  /** Whatever is printed as a line and decodes again survives the file: if print
      makes lines and all records check, the file reads back as the same list iff
      each record's line decodes to it. */
  lemma FileRoundTrip<R(!new)>(
      printer: R -> string, dec: string -> R, ok: R -> bool, rs: seq<R>, behind: string, num: int)
    requires rs != [] && AllOk(ok, rs) && |behind| >= 31
    requires forall r <- rs :: IsLine(printer(r))
    ensures ReadText(dec, ok, Joined(Each(printer, rs)), behind, num) == Success(rs)
            <==> forall r <- rs :: dec(printer(r)) == r
  {
    var ls := Each(printer, rs);
    WellFormedFile(dec, ok, ls, behind, num);
    SuccessInjective(Each(dec, ls), rs);
    if Each(dec, ls) == rs {
      forall i | 0 <= i < |rs| ensures dec(printer(rs[i])) == rs[i] {
        assert Each(dec, ls)[i] == rs[i];
      }
    }
    if forall r <- rs :: dec(printer(r)) == r {
      assert Each(dec, ls) == rs;
    }
  }
}

/** The license file proper: encrypted, checksummed records. */
module LicenseFile {
  import opened Bits
  import opened LicenseCipher
  import opened LicenseChecksum
  import opened LicenseText
  import opened LicenseLines

  /** The record on a line; only ever asked about 32 characters. */
  function Decoded(l: string): Block {
    if |l| < 32 then [0, 0, 0, 0] else Decrypted(StringToLic(l), CRYPT_33)
  }

  function Line(r: Block): string {
    LicToString(Encrypted(r, CRYPT_33))
  }

  /** string_to_lic, decrypt and CHECK_SUM on one 32-character buffer. */
  method DecodeRecord(kbuf: string) returns (r: Block, ok: bool)
    requires |kbuf| == 32
    ensures r == Decoded(kbuf) && ok == Matches(r)
  {
    var encrypted := ParseWords(kbuf, 4);
    r := DecryptBlock(encrypted);
    var sum := CheckSum(DataBytes(r), 12);
    assert DataBytes(r)[..12] == DataBytes(r);
    ok := r[3] == sum;
  }

  // decrypt in place with the fixed key.
  method DecryptBlock(encrypted: Block) returns (r: Block)
    ensures r == Decrypted(encrypted, CRYPT_33)
  {
    var id := new Word[4](i requires 0 <= i < 4 => encrypted[i]);
    var key := new Word[8](i requires 0 <= i < 8 => CRYPT_33[i]);
    assert id[..4] == encrypted && key[..8] == CRYPT_33;
    Decrypt(id, id, key);
    r := id[..4];
  }

  lemma {:induction false} DigitsAreDigits(x: nat, n: nat)
    ensures forall c <- DigitsOf(x, n) :: IsXDigit(c)
  {
    if n != 0 { DigitsAreDigits(x, n - 1); }
  }

  lemma {:induction false} PrintedIsDigits(b: seq<Word>)
    ensures forall c <- PrintedWords(b) :: IsXDigit(c)
  {
    if b != [] {
      DigitsAreDigits(b[0], 8);
      PrintedIsDigits(b[1..]);
    }
  }

  /** One record: it survives exactly when no encrypted word is all ones. */
  lemma LineRoundTrip(r: Block)
    ensures IsLine(Line(r))
    ensures Decoded(Line(r)) == r <==> NoAllOnes(Encrypted(r, CRYPT_33))
  {
    var e := Encrypted(r, CRYPT_33);
    PrintedIsDigits(e);
    HexRoundTrip(e);
    DecodesIff(r, StringToLic(LicToString(e)), CRYPT_33);
  }

  // What is decrypted is the record iff what was read is what was encrypted.
  lemma DecodesIff(r: Block, read: Block, k: Key)
    ensures Decrypted(read, k) == r <==> read == Encrypted(r, k)
  {
    DecryptUndoesEncrypt(r, k);
    DecryptedInjective(read, Encrypted(r, k), k);
  }

  /** Encrypting, printing and reading back any non-empty list of checksummed
      records returns RL_OK and the same list - if and only if no encrypted word
      is all ones. */
  lemma Pipeline(rs: seq<Block>, behind: string, num: int)
    requires rs != [] && AllOk(Matches, rs) && |behind| >= 31
    ensures ReadText(Decoded, Matches, Joined(Each(Line, rs)), behind, num) == Success(rs)
            <==> forall r <- rs :: NoAllOnes(Encrypted(r, CRYPT_33))
  {
    forall r | r in rs
      ensures IsLine(Line(r)) && (Decoded(Line(r)) == r <==> NoAllOnes(Encrypted(r, CRYPT_33)))
    {
      LineRoundTrip(r);
    }
    FileRoundTrip(Line, Decoded, Matches, rs, behind, num);
  }

  // Three words of data under their checksum.
  function Sealed(a: Word, b: Word, c: Word): (r: Block)
    ensures Matches(r) && r[..3] == [a, b, c]
  {
    [a, b, c, SignExtended(XorAll(BytesOf(a) + BytesOf(b) + BytesOf(c)))]
  }

  /** For every key there is a record with a matching checksum whose encryption holds a
      word of all ones. */
  lemma AllOnesOccurs(k: Key) returns (r: Block)
    ensures Matches(r) && !NoAllOnes(Encrypted(r, k))
  {
    var ones: Word := WORDS - 1;
    r := Sealed(XorWord(XorWord(ones, k[5]), k[0]), 0, 0);
    SecondWord(r, ones, k);
  }

  lemma SecondWord(r: Block, w: Word, k: Key)
    requires r[0] == XorWord(XorWord(w, k[5]), k[0])
    ensures Encrypted(r, k)[1] == w && w in Encrypted(r, k)
  {
    XorUndo(XorWord(w, k[5]), k[0]);
    XorUndo(w, k[5]);
  }

  /** So there is a checksummed record whose file does not read back. */
  lemma PipelineFails(behind: string, num: int) returns (r: Block)
    requires |behind| >= 31
    ensures Matches(r) && ReadText(Decoded, Matches, Joined(Each(Line, [r])), behind, num) != Success([r])
  {
    r := AllOnesOccurs(CRYPT_33);
    assert r in [r];
    Pipeline([r], behind, num);
  }
}
