/** Exclusive or on natural numbers, bit by bit, with the laws the license code
    relies on. */
module Bits {

  function BitXor(a: nat, b: nat): nat {
    if a % 2 == b % 2 then 0 else 1
  }

  function Xor(a: nat, b: nat): nat {
    if a == 0 && b == 0 then 0 else 2 * Xor(a / 2, b / 2) + BitXor(a, b)
  }

  function Pow2(n: nat): nat {
    if n == 0 then 1 else 2 * Pow2(n - 1)
  }

  lemma {:induction false} XorParts(a: nat, b: nat)
    ensures Xor(a, b) / 2 == Xor(a / 2, b / 2)
    ensures Xor(a, b) % 2 == BitXor(a, b)
  {
  }

  lemma {:induction false} SameParts(a: nat, b: nat)
    requires a / 2 == b / 2 && a % 2 == b % 2
    ensures a == b
  {
  }

  lemma {:induction false} XorAssociates(a: nat, b: nat, c: nat)
    ensures Xor(Xor(a, b), c) == Xor(a, Xor(b, c))
    decreases a + b + c
  {
    if a == 0 && b == 0 && c == 0 {
    } else {
      XorAssociates(a / 2, b / 2, c / 2);
      XorParts(a, b);
      XorParts(b, c);
      XorParts(Xor(a, b), c);
      XorParts(a, Xor(b, c));
      SameParts(Xor(Xor(a, b), c), Xor(a, Xor(b, c)));
    }
  }

  lemma XorCommutes(a: nat, b: nat)
    ensures Xor(a, b) == Xor(b, a)
  {
  }

  lemma XorZero(a: nat)
    ensures Xor(a, 0) == a && Xor(0, a) == a
  {
  }

  lemma XorSelf(a: nat)
    ensures Xor(a, a) == 0
  {
  }

  lemma {:induction false} XorBound(a: nat, b: nat, n: nat)
    requires a < Pow2(n) && b < Pow2(n)
    ensures Xor(a, b) < Pow2(n)
  {
    if n != 0 { XorBound(a / 2, b / 2, n - 1); }
  }

  // The bits of a from bit n up, and the n bits below them.
  function Drop(a: nat, n: nat): nat {
    if n == 0 then a else Drop(a / 2, n - 1)
  }

  function Take(a: nat, n: nat): nat {
    if n == 0 then 0 else 2 * Take(a / 2, n - 1) + a % 2
  }

  lemma {:induction false} XorDrop(a: nat, b: nat, n: nat)
    ensures Drop(Xor(a, b), n) == Xor(Drop(a, n), Drop(b, n))
  {
    if n != 0 {
      XorParts(a, b);
      XorDrop(a / 2, b / 2, n - 1);
    }
  }

  lemma TakeParts(a: nat, n: nat)
    requires n > 0
    ensures Take(a, n) / 2 == Take(a / 2, n - 1) && Take(a, n) % 2 == a % 2
  {
  }

  lemma {:induction false} XorTake(a: nat, b: nat, n: nat)
    ensures Take(Xor(a, b), n) == Xor(Take(a, n), Take(b, n))
  {
    if n != 0 {
      XorTake(a / 2, b / 2, n - 1);
      XorParts(a, b);
      TakeParts(a, n);
      TakeParts(b, n);
      TakeParts(Xor(a, b), n);
      XorParts(Take(a, n), Take(b, n));
      SameParts(Take(Xor(a, b), n), Xor(Take(a, n), Take(b, n)));
    }
  }

  lemma TwoBits(a: nat, n: nat)
    ensures Drop(a, n + 2) == Drop(a / 4, n)
    ensures Take(a, n + 2) == 4 * Take(a / 4, n) + a % 4
  {
    var h := a / 2;
    assert h / 2 == a / 4 && a % 4 == 2 * (h % 2) + a % 2;
    assert Drop(a, n + 2) == Drop(h, n + 1) && Drop(h, n + 1) == Drop(h / 2, n);
    assert Take(a, n + 2) == 2 * Take(h, n + 1) + a % 2 && Take(h, n + 1) == 2 * Take(h / 2, n) + h % 2;
  }

  lemma FourBits(a: nat, n: nat)
    ensures Drop(a, n + 4) == Drop(a / 16, n)
    ensures Take(a, n + 4) == 16 * Take(a / 16, n) + a % 16
  {
    var q := a / 4;
    assert q / 4 == a / 16 && a % 16 == 4 * (q % 4) + a % 4;
    TwoBits(a, n + 2);
    TwoBits(q, n);
  }

  lemma DropTakeByte(a: nat)
    ensures Drop(a, 8) == a / 256 && Take(a, 8) == a % 256
  {
    FourBits(a, 4);
    FourBits(a / 16, 0);
  }

  /** XOR works on the low byte and on the rest independently. */
  lemma XorBytewise(a: nat, b: nat)
    ensures Xor(a, b) / 256 == Xor(a / 256, b / 256)
    ensures Xor(a, b) % 256 == Xor(a % 256, b % 256)
  {
    XorDrop(a, b, 8);
    XorTake(a, b, 8);
    DropTakeByte(a);
    DropTakeByte(b);
    DropTakeByte(Xor(a, b));
  }

  /** XOR-ing with the same number twice changes nothing. */
  lemma XorUndo(a: nat, b: nat)
    ensures Xor(Xor(a, b), b) == a && Xor(b, Xor(b, a)) == a
  {
    XorAssociates(a, b, b);
    XorAssociates(b, b, a);
    XorSelf(b);
    XorZero(a);
  }
}

/** The license key transform: four 32-bit words mixed with an eight-word key. */
module LicenseCipher {
  import opened Bits

  const WORDS: nat := 0x1_0000_0000

  // ulong_t, taken as 32 bits wide
  type Word = x: nat | x < WORDS

  function XorWord(a: Word, b: Word): (r: Word)
    ensures r == Xor(a, b)
  {
    WordBound();
    XorBound(a, b, 32);
    Xor(a, b)
  }

  lemma WordBound()
    ensures Pow2(8) == 256 && Pow2(32) == WORDS
  {
    assert Pow2(4) == 16;
    assert Pow2(8) == 16 * Pow2(4);
    assert Pow2(12) == 16 * Pow2(8);
    assert Pow2(16) == 16 * Pow2(12);
    assert Pow2(20) == 16 * Pow2(16);
    assert Pow2(24) == 16 * Pow2(20);
    assert Pow2(28) == 16 * Pow2(24);
    assert Pow2(32) == 16 * Pow2(28);
  }

  /** Byte i of a word, byte 0 the least significant. */
  function ByteOf(x: nat, i: nat): (b: nat)
    ensures b < 256
    decreases i, x
  {
    if i == 0 then x % 256 else ByteOf(x / 256, i - 1)
  }

  /** The word whose bytes, from the least significant, are bytes 1, 3, 0, 2 of x. */
  function Shuffle(x: Word): (y: Word)
  {
    ((ByteOf(x, 2) * 256 + ByteOf(x, 0)) * 256 + ByteOf(x, 3)) * 256 + ByteOf(x, 1)
  }

  function Mix(x: Word): Word {
    (x + Shuffle(x)) % WORDS
  }

  // The number whose bytes, from the least significant, are bytes 1, 3, 0 and 2 of x.
  function Rearranged(x: Word): nat {
    x / 256 % 256 + 256 * (x / 256 / 256 / 256 % 256) + 0x1_0000 * (x % 256) + 0x100_0000 * (x / 256 / 256 % 256)
  }

  lemma MixIsSum(x: Word)
    ensures Mix(x) == (x + Rearranged(x)) % WORDS
  {
    assert ByteOf(x, 1) == ByteOf(x / 256, 0);
    assert ByteOf(x, 2) == ByteOf(x / 256, 1) == ByteOf(x / 256 / 256, 0);
    assert ByteOf(x, 3) == ByteOf(x / 256, 2) == ByteOf(x / 256 / 256, 1) == ByteOf(x / 256 / 256 / 256, 0);
  }

  lemma LowByte(high: nat, b: nat)
    requires b < 256
    ensures (high * 256 + b) % 256 == b && (high * 256 + b) / 256 == high
  {}

  lemma FourBytes(a: nat, b: nat, c: nat, d: nat)
    requires a < 256 && b < 256 && c < 256 && d < 256
    ensures var y := ((d * 256 + c) * 256 + b) * 256 + a;
            ByteOf(y, 0) == a && ByteOf(y, 1) == b && ByteOf(y, 2) == c && ByteOf(y, 3) == d
  {
    var y2 := d * 256 + c;
    var y1 := y2 * 256 + b;
    var y := y1 * 256 + a;
    LowByte(y1, a);
    LowByte(y2, b);
    LowByte(d, c);
    assert ByteOf(y, 1) == ByteOf(y1, 0);
    assert ByteOf(y, 2) == ByteOf(y1, 1) && ByteOf(y1, 1) == ByteOf(y2, 0);
    assert ByteOf(y, 3) == ByteOf(y1, 2) && ByteOf(y1, 2) == ByteOf(y2, 1) && ByteOf(y2, 1) == ByteOf(d, 0);
  }

  /** Shuffle moves each byte and loses none. */
  lemma ShuffleIsPermutation(x: Word)
    ensures ByteOf(Shuffle(x), 0) == ByteOf(x, 1) && ByteOf(Shuffle(x), 1) == ByteOf(x, 3)
    ensures ByteOf(Shuffle(x), 2) == ByteOf(x, 0) && ByteOf(Shuffle(x), 3) == ByteOf(x, 2)
  {
    FourBytes(ByteOf(x, 1), ByteOf(x, 3), ByteOf(x, 0), ByteOf(x, 2));
  }

  /** Shifting a byte in from the right: XOR adds when the low byte is clear. */
  lemma XorIntoClearByte(y: nat, b: nat)
    requires b < 256
    ensures Xor(y * 256, b) == y * 256 + b
  {
    XorBytewise(y * 256, b);
    LowByte(y, 0);
    LowByte(0, b);
    XorZero(y);
    XorZero(b);
  }

  // The word without its i low bytes.
  function Rest(x: nat, i: nat): nat {
    if i == 0 then x else Rest(x, i - 1) / 256
  }

  lemma {:induction false} ByteOfRest(x: nat, i: nat, k: nat)
    ensures ByteOf(x, i + k) == ByteOf(Rest(x, i), k)
  {
    if i > 0 {
      ByteOfRest(x, i - 1, k + 1);
      assert ByteOf(Rest(x, i - 1), k + 1) == ByteOf(Rest(x, i - 1) / 256, k);
    }
  }

  /** The source's F: split the word into four bytes, put them back in another
      order, add. */
  method F(x: Word) returns (z: Word)
    ensures z == Mix(x) && z == (x + Rearranged(x)) % WORDS
  {
    MixIsSum(x);
    var arr := new nat[4];
    var y: nat := x;
    for i := 0 to 4
      invariant y == Rest(x, i) && forall k | 0 <= k < i :: arr[k] == ByteOf(x, k)
    {
      ByteOfRest(x, i, 0);
      arr[i] := y % 256;
      y := y / 256;
    }
    y := ShiftIn(arr[2], arr[0]);
    y := ShiftIn(y, arr[3]);
    y := ShiftIn(y, arr[1]);
    z := (x + y) % WORDS;
  }

  // y << 8 ^ b
  function ShiftIn(y: nat, b: nat): (r: nat)
    requires b < 256
    ensures r == y * 256 + b
  {
    XorIntoClearByte(y, b);
    Xor(y * 256, b)
  }

  type Block = s: seq<Word> | |s| == 4 witness [0, 0, 0, 0]
  type Key = s: seq<Word> | |s| == 8 witness [0, 0, 0, 0, 0, 0, 0, 0]

  const CRYPT_33: Key := [33469, 37159, 42017, 51257, 60169, 70111, 80141, 89821]

  function Encrypted(w: Block, k: Key): Block {
    var x0 := XorWord(w[0], k[0]);
    var x1 := XorWord(XorWord(Mix(x0), w[1]), k[1]);
    var x2 := XorWord(XorWord(Mix(x1), w[2]), k[2]);
    var x3 := XorWord(XorWord(Mix(x2), w[3]), k[3]);
    [XorWord(x1, k[4]), XorWord(x0, k[5]), XorWord(x2, k[6]), XorWord(x3, k[7])]
  }

  function Decrypted(id: Block, k: Key): Block {
    var x3, x2 := XorWord(id[3], k[7]), XorWord(id[2], k[6]);
    var x0, x1 := XorWord(id[1], k[5]), XorWord(id[0], k[4]);
    [XorWord(x0, k[0]), XorWord(XorWord(Mix(x0), x1), k[1]),
     XorWord(XorWord(Mix(x1), x2), k[2]), XorWord(XorWord(Mix(x2), x3), k[3])]
  }

  lemma XorCancel(m: Word, a: Word, b: Word)
    ensures XorWord(XorWord(m, XorWord(XorWord(m, a), b)), b) == a
  {
    XorAssociates(m, Xor(m, a), b);
    XorUndo(a, m);
    XorUndo(a, b);
  }

  lemma DecryptUndoesEncrypt(b: Block, k: Key)
    ensures Decrypted(Encrypted(b, k), k) == b
  {
    var x0 := XorWord(b[0], k[0]);
    var x1 := XorWord(XorWord(Mix(x0), b[1]), k[1]);
    var x2 := XorWord(XorWord(Mix(x1), b[2]), k[2]);
    var x3 := XorWord(XorWord(Mix(x2), b[3]), k[3]);
    var e := Encrypted(b, k);
    assert XorWord(e[1], k[5]) == x0 by { XorUndo(x0, k[5]); }
    assert XorWord(e[0], k[4]) == x1 by { XorUndo(x1, k[4]); }
    assert XorWord(e[2], k[6]) == x2 by { XorUndo(x2, k[6]); }
    assert XorWord(e[3], k[7]) == x3 by { XorUndo(x3, k[7]); }
    var d := Decrypted(e, k);
    assert d[0] == b[0] by { XorUndo(b[0], k[0]); }
    assert d[1] == b[1] by { XorCancel(Mix(x0), b[1], k[1]); }
    assert d[2] == b[2] by { XorCancel(Mix(x1), b[2], k[2]); }
    assert d[3] == b[3] by { XorCancel(Mix(x2), b[3], k[3]); }
  }

  lemma EncryptUndoesDecrypt(id: Block, k: Key)
    ensures Encrypted(Decrypted(id, k), k) == id
  {
    var x3, x2 := XorWord(id[3], k[7]), XorWord(id[2], k[6]);
    var x0, x1 := XorWord(id[1], k[5]), XorWord(id[0], k[4]);
    var d := Decrypted(id, k);
    assert XorWord(d[0], k[0]) == x0 by { XorUndo(x0, k[0]); }
    assert XorWord(XorWord(Mix(x0), d[1]), k[1]) == x1 by { XorCancel(Mix(x0), x1, k[1]); }
    assert XorWord(XorWord(Mix(x1), d[2]), k[2]) == x2 by { XorCancel(Mix(x1), x2, k[2]); }
    assert XorWord(XorWord(Mix(x2), d[3]), k[3]) == x3 by { XorCancel(Mix(x2), x3, k[3]); }
    var e := Encrypted(d, k);
    assert e[0] == id[0] by { XorUndo(id[0], k[4]); }
    assert e[1] == id[1] by { XorUndo(id[1], k[5]); }
    assert e[2] == id[2] by { XorUndo(id[2], k[6]); }
    assert e[3] == id[3] by { XorUndo(id[3], k[7]); }
  }

  /** For every block and every key, each transform undoes the other. */
  lemma MutualInverses(b: Block, k: Key)
    ensures Decrypted(Encrypted(b, k), k) == b
    ensures Encrypted(Decrypted(b, k), k) == b
  {
    DecryptUndoesEncrypt(b, k);
    EncryptUndoesDecrypt(b, k);
  }

  lemma DecryptedInjective(a: Block, b: Block, k: Key)
    ensures Decrypted(a, k) == Decrypted(b, k) <==> a == b
  {
    EncryptUndoesDecrypt(a, k);
    EncryptUndoesDecrypt(b, k);
  }

  // ------------------------------------------------------------ the rounds

  function FSum(x: Word): Word {
    (x + Rearranged(x)) % WORDS
  }

  /** The cipher as equations between the words of the plain block w, the encrypted block
      id and the key. */
  predicate Rounds(w: Block, id: Block, k: Key) {
    && XorWord(id[1], k[5]) == XorWord(w[0], k[0])
    && XorWord(XorWord(XorWord(id[0], k[4]), w[1]), k[1]) == FSum(XorWord(id[1], k[5]))
    && XorWord(XorWord(XorWord(id[2], k[6]), w[2]), k[2]) == FSum(XorWord(id[0], k[4]))
    && XorWord(XorWord(XorWord(id[3], k[7]), w[3]), k[3]) == FSum(XorWord(id[2], k[6]))
  }

  lemma XorSwap(f: Word, a: Word, b: Word)
    ensures XorWord(XorWord(f, a), b) == XorWord(XorWord(f, b), a)
  {
    XorAssociates(f, a, b);
    XorCommutes(a, b);
    XorAssociates(f, b, a);
  }

  // One round solved for either word.
  lemma RoundSolved(x: Word, w: Word, k: Word, f: Word)
    ensures XorWord(XorWord(x, w), k) == f <==> x == XorWord(XorWord(f, w), k)
    ensures XorWord(XorWord(x, w), k) == f <==> w == XorWord(XorWord(f, x), k)
  {
    XorUndo(XorWord(x, w), k);
    XorUndo(f, k);
    XorUndo(x, w);
    XorUndo(w, x);
    XorCommutes(x, w);
    XorSwap(f, w, k);
    XorSwap(f, x, k);
    XorUndo(XorWord(f, k), w);
    XorUndo(XorWord(f, k), x);
  }

  lemma KeyedWord(a: Word, b: Word, k: Word)
    ensures XorWord(a, k) == b <==> a == XorWord(b, k)
  {
    XorUndo(a, k);
    XorUndo(b, k);
  }

  // One equation solved for the encrypted word.
  lemma OneRound(id: Word, out: Word, w: Word, k: Word, x: Word)
    ensures XorWord(XorWord(XorWord(id, out), w), k) == FSum(x)
            <==> id == XorWord(XorWord(XorWord(Mix(x), w), k), out)
  {
    MixIsSum(x);
    RoundSolved(XorWord(id, out), w, k, Mix(x));
    KeyedWord(id, XorWord(XorWord(Mix(x), w), k), out);
  }

  /** The equations say exactly what encrypting gives. */
  lemma RoundsEncrypt(w: Block, id: Block, k: Key)
    ensures Rounds(w, id, k) <==> id == Encrypted(w, k)
  {
    var x0, x1, x2 := XorWord(id[1], k[5]), XorWord(id[0], k[4]), XorWord(id[2], k[6]);
    OneRound(id[0], k[4], w[1], k[1], x0);
    OneRound(id[2], k[6], w[2], k[2], x1);
    OneRound(id[3], k[7], w[3], k[3], x2);
    KeyedWord(id[1], XorWord(w[0], k[0]), k[5]);
    SolvedInOrder(w, id, k, x0, x1, x2);
  }

  // The equations solved one after the other.
  lemma SolvedInOrder(w: Block, id: Block, k: Key, x0: Word, x1: Word, x2: Word)
    requires x0 == XorWord(id[1], k[5]) && x1 == XorWord(id[0], k[4]) && x2 == XorWord(id[2], k[6])
    ensures (&& id[1] == XorWord(XorWord(w[0], k[0]), k[5])
             && id[0] == XorWord(XorWord(XorWord(Mix(x0), w[1]), k[1]), k[4])
             && id[2] == XorWord(XorWord(XorWord(Mix(x1), w[2]), k[2]), k[6])
             && id[3] == XorWord(XorWord(XorWord(Mix(x2), w[3]), k[3]), k[7]))
            <==> id == Encrypted(w, k)
  {
    var y0 := XorWord(w[0], k[0]);
    var y1 := XorWord(XorWord(Mix(y0), w[1]), k[1]);
    var y2 := XorWord(XorWord(Mix(y1), w[2]), k[2]);
    KeyedWord(id[1], y0, k[5]);
    KeyedWord(id[0], y1, k[4]);
    KeyedWord(id[2], y2, k[6]);
  }

  /** They determine the encrypted block from the plain one, and the plain one from the
      encrypted one. */
  lemma RoundsDetermine(w: Block, id: Block, v: Block, jd: Block, k: Key)
    requires Rounds(w, id, k) && Rounds(v, jd, k)
    ensures w == v <==> id == jd
  {
    RoundsEncrypt(w, id, k);
    RoundsEncrypt(v, jd, k);
    DecryptUndoesEncrypt(w, k);
    DecryptUndoesEncrypt(v, k);
  }

  lemma DecryptedRounds(id: Block, k: Key)
    ensures Rounds(Decrypted(id, k), id, k)
  {
    EncryptUndoesDecrypt(id, k);
    RoundsEncrypt(Decrypted(id, k), id, k);
  }

  /** encrypt: word and id may be the same array. */
  method Encrypt(word: array<Word>, id: array<Word>, crypt: array<Word>)
    requires word.Length >= 4 && id.Length >= 4 && crypt.Length >= 8 && crypt != id
    modifies id
    ensures Rounds(old(word[..4]), id[..4], old(crypt[..8]))
    ensures id[..4] == Encrypted(old(word[..4]), old(crypt[..8]))
    ensures id[4..] == old(id[4..])
  {
    ghost var w: Block, k: Key := word[..4], crypt[..8];
    var x0 := XorWord(word[0], crypt[0]);
    var f := F(x0);
    var x1 := XorWord(XorWord(f, word[1]), crypt[1]);
    f := F(x1);
    var x2 := XorWord(XorWord(f, word[2]), crypt[2]);
    f := F(x2);
    var x3 := XorWord(XorWord(f, word[3]), crypt[3]);
    id[0] := XorWord(x1, crypt[4]);
    id[1] := XorWord(x0, crypt[5]);
    id[2] := XorWord(x2, crypt[6]);
    id[3] := XorWord(x3, crypt[7]);
    RoundsEncrypt(w, id[..4], k);
  }

  /** decrypt: id and check may be the same array. */
  method Decrypt(id: array<Word>, check: array<Word>, crypt: array<Word>)
    requires id.Length >= 4 && check.Length >= 4 && crypt.Length >= 8 && crypt != check
    modifies check
    ensures Rounds(check[..4], old(id[..4]), old(crypt[..8]))
    ensures check[..4] == Decrypted(old(id[..4]), old(crypt[..8]))
    ensures check[4..] == old(check[4..])
  {
    ghost var encrypted: Block, k: Key := id[..4], crypt[..8];
    var x3 := XorWord(id[3], crypt[7]);
    var x2 := XorWord(id[2], crypt[6]);
    var x0 := XorWord(id[1], crypt[5]);
    var x1 := XorWord(id[0], crypt[4]);
    var f := F(x2);
    check[3] := XorWord(XorWord(f, x3), crypt[3]);
    f := F(x1);
    check[2] := XorWord(XorWord(f, x2), crypt[2]);
    f := F(x0);
    check[1] := XorWord(XorWord(f, x1), crypt[1]);
    check[0] := XorWord(x0, crypt[0]);
    DecryptedRounds(encrypted, k);
  }

  /** Encrypting and then decrypting in the same array restores all of it. */
  method InPlaceRoundTrip(a: array<Word>, crypt: array<Word>)
    requires a.Length >= 4 && crypt.Length >= 8 && crypt != a
    modifies a
    ensures a[..] == old(a[..])
  {
    ghost var w: Block, k: Key := a[..4], crypt[..8];
    Encrypt(a, a, crypt);
    Decrypt(a, a, crypt);
    MutualInverses(w, k);
    assert a[..] == a[..4] + a[4..];
    assert old(a[..]) == old(a[..4]) + old(a[4..]);
  }
}
