/** Bit sets over JavaScript numbers (src/bitset.ts).

    JavaScript's bitwise operators see a number as the 32 bits of a
    two's-complement int32.  A word is modelled by exactly those bits, least
    significant first, and every operator the source applies is written out
    bit by bit.  Three int32 quirks of the source stay explicit:
    - `1 << i` takes the shift count modulo 32 (`Mask`);
    - `x > 0` compares the signed number, so it is false as soon as bit 31
      is set (`Positive`);
    - `n >>= 1` is an arithmetic shift that copies bit 31 (`Asr`). */
module Bitsets {
  import opened Bytes

  const WORD_SIZE: nat := 32

  /** The 32 bits of an int32, bit k at index k. */
  type Word = s: seq<bool> | |s| == 32 witness seq(32, _ => false)

  /** The word 0. */
  function Zero(): Word
  {
    seq(32, _ => false)
  }

  /** `MAX` of the source: a binary literal of thirty ones, bits 0 to 29. */
  const MAX: Word := seq(32, k => k < 30)

  // ---------------------------------------------------------------------
  // Words and the operators on them

  /** `1 << i`: only bit `i mod 32` is one. */
  function Mask(i: int): Word
  {
    seq(32, k => k == i % 32)
  }

  /** `a | b` */
  function Or(a: Word, b: Word): Word
  {
    seq(32, k requires 0 <= k < 32 => a[k] || b[k])
  }

  /** `a & b` */
  function And(a: Word, b: Word): Word
  {
    seq(32, k requires 0 <= k < 32 => a[k] && b[k])
  }

  /** `a ^ b` */
  function Xor(a: Word, b: Word): Word
  {
    seq(32, k requires 0 <= k < 32 => a[k] != b[k])
  }

  /** `~a` */
  function Not(a: Word): Word
  {
    seq(32, k requires 0 <= k < 32 => !a[k])
  }

  /** `n >> 1` on an int32: every bit moves down one place and bit 31 keeps
      its value. */
  function Asr(n: Word): Word
  {
    n[1..] + [n[31]]
  }

  /** Value of bits read least significant first. */
  function Unsigned(s: seq<bool>): nat
  {
    if s == [] then 0 else (if s[0] then 1 else 0) + 2 * Unsigned(s[1..])
  }

  /** The number a word denotes in JavaScript. */
  function Int32(w: Word): int
  {
    Unsigned(w) - if w[31] then 0x1_0000_0000 else 0
  }

  /** `w > 0` */
  predicate Positive(w: Word)
  {
    Int32(w) > 0
  }

  lemma {:induction false} UnsignedBound(s: seq<bool>)
    ensures Unsigned(s) < Pow2(|s|)
  {
    if s != [] {
      UnsignedBound(s[1..]);
    }
  }

  lemma {:induction false} UnsignedZero(s: seq<bool>)
    ensures Unsigned(s) == 0 <==> forall k :: 0 <= k < |s| ==> !s[k]
  {
    if s != [] {
      UnsignedZero(s[1..]);
      if Unsigned(s) == 0 {
        forall k | 0 <= k < |s| ensures !s[k] {
          if k > 0 {
            assert s[k] == s[1..][k - 1];
          }
        }
      } else if forall k :: 0 <= k < |s| ==> !s[k] {
        assert !s[0];
        forall k | 0 <= k < |s| - 1 ensures !s[1..][k] {
          assert s[1..][k] == s[k + 1];
        }
      }
    }
  }

  /** The top bit of `s` is one exactly when its value reaches the top
      bit's weight. */
  lemma {:induction false} UnsignedTop(s: seq<bool>)
    requires |s| > 0
    ensures s[|s| - 1] <==> Unsigned(s) >= Pow2(|s| - 1)
  {
    if |s| == 1 {
      assert Unsigned(s) == if s[0] then 1 else 0;
    } else {
      UnsignedTop(s[1..]);
      UnsignedBound(s[1..]);
      assert s[1..][|s| - 2] == s[|s| - 1];
      assert Pow2(|s| - 1) == 2 * Pow2(|s| - 2);
    }
  }

  /** The weights of bits 31 and 32, stated for a width that is not a
      literal so that callers do not unfold `Pow2`. */
  lemma Pow2Word(k: nat)
    ensures k == 31 ==> Pow2(k) == 0x8000_0000
    ensures k == 32 ==> Pow2(k) == 0x1_0000_0000
  {
    Pow2Words();
  }

  /** A word's unsigned value is below 2^32 and reaches 2^31 exactly when
      bit 31 is set. */
  lemma WordRange(w: Word)
    ensures Unsigned(w) < 0x1_0000_0000
    ensures w[31] <==> Unsigned(w) >= 0x8000_0000
  {
    UnsignedBound(w);
    UnsignedTop(w);
    Pow2Word(|w|);
    Pow2Word(|w| - 1);
  }

  /** The 32 bits of a number below 2^32 have that number as their value. */
  lemma WordBitsOf(n: nat, w: nat)
    requires w == 32 && n < 0x1_0000_0000
    ensures Unsigned(BitsOf(n, w)) == n
  {
    Pow2Word(w);
    UnsignedBitsOf(n, w);
  }

  /** `w > 0` holds exactly when bit 31 is clear and some other bit is one. */
  lemma PositiveBits(w: Word)
    ensures Positive(w) <==> !w[31] && exists k :: 0 <= k < 31 && w[k]
  {
    WordRange(w);
    UnsignedZero(w);
    if !w[31] && Unsigned(w) != 0 {
      var k :| 0 <= k < 32 && w[k];
      assert k < 31;
    }
  }

  /** `w | (1 << i)` or `w & ~(1 << i)` */
  function SetWord(w: Word, i: int, b: bool): Word
  {
    if b then Or(w, Mask(i)) else And(w, Not(Mask(i)))
  }

  /** Setting bit i changes bit `i mod 32` and no other bit. */
  lemma SetWordBit(w: Word, i: int, b: bool)
    ensures SetWord(w, i, b) == w[i % 32 := b]
  {
  }

  /** `w ^ (1 << i)` */
  function FlipWord(w: Word, i: int): Word
  {
    Xor(w, Mask(i))
  }

  /** Flipping bit i inverts bit `i mod 32` and no other bit. */
  lemma FlipWordBit(w: Word, i: int)
    ensures FlipWord(w, i) == w[i % 32 := !w[i % 32]]
  {
  }

  /** `w ^ (1 << i)` twice gives back `w`. */
  lemma FlipWordTwice(w: Word, i: int)
    ensures FlipWord(FlipWord(w, i), i) == w
  {
  }

  /** `(w & (1 << i)) > 0`, the test the source performs. */
  predicate WordTest(w: Word, i: int)
  {
    Positive(And(w, Mask(i)))
  }

  /** The signed comparison sees every bit except bit 31. */
  lemma WordTestMissesTopBit(w: Word, i: int)
    ensures WordTest(w, i) == (w[i % 32] && i % 32 != 31)
  {
    var m := And(w, Mask(i));
    PositiveBits(m);
    if w[i % 32] && i % 32 != 31 {
      assert m[i % 32];
    }
  }

  /** Number of one bits. */
  function CountBits(s: seq<bool>): nat
  {
    if s == [] then 0 else (if s[0] then 1 else 0) + CountBits(s[1..])
  }

  function PopCount(w: Word): nat
  {
    CountBits(w)
  }

  lemma {:induction false} CountAppend(a: seq<bool>, b: seq<bool>)
    ensures CountBits(a + b) == CountBits(a) + CountBits(b)
  {
    if a == [] {
      assert a + b == b;
    } else {
      CountAppend(a[1..], b);
      assert (a + b)[0] == a[0];
      assert (a + b)[1..] == a[1..] + b;
    }
  }

  lemma {:induction false} CountZero(n: nat)
    ensures CountBits(seq(n, _ => false)) == 0
  {
    if n > 0 {
      CountZero(n - 1);
      assert seq(n, _ => false)[1..] == seq(n - 1, _ => false);
    }
  }

  lemma {:induction false} UnsignedAppendFalse(s: seq<bool>)
    ensures Unsigned(s + [false]) == Unsigned(s)
  {
    if s != [] {
      UnsignedAppendFalse(s[1..]);
      assert (s + [false])[1..] == s[1..] + [false];
    }
  }

  /** `n >>= 1` on a non-negative word counts off the low bit, shrinks the
      value and keeps the word non-negative. */
  lemma AsrNonNegative(n: Word)
    requires !n[31]
    ensures !Asr(n)[31]
    ensures CountBits(Asr(n)) + (if n[0] then 1 else 0) == CountBits(n)
    ensures n != Zero() ==> Unsigned(Asr(n)) < Unsigned(n)
  {
    CountAppend(n[1..], [false]);
    UnsignedAppendFalse(n[1..]);
    ZeroValue(n);
  }

  /** The word 0 is the only word whose value is 0. */
  lemma ZeroValue(w: Word)
    ensures (Unsigned(w) == 0) == (w == Zero())
  {
    UnsignedZero(w);
    if Unsigned(w) == 0 {
      assert w == Zero();
    }
  }

  function Iterate(n: Word, k: nat): Word
  {
    if k == 0 then n else Asr(Iterate(n, k - 1))
  }

  /** Once bit 31 is set, `n >>= 1` never reaches zero, so the counting loop
      of the source never ends on such a word. */
  lemma {:induction false} AsrKeepsNegative(n: Word, k: nat)
    requires n[31]
    ensures Iterate(n, k)[31] && Iterate(n, k) != Zero()
  {
    if k > 0 {
      AsrKeepsNegative(n, k - 1);
    }
    assert Iterate(n, k)[31] != Zero()[31];
  }

  /** The inner `while (n) { r += n & 1; n >>= 1; }` of both `couht`s. */
  method WordPopCount(w: Word) returns (r: nat)
    requires !w[31]
    ensures r == PopCount(w)
  {
    var n := w;
    r := 0;
    while n != Zero()
      invariant !n[31]
      invariant r + CountBits(n) == CountBits(w)
      decreases Unsigned(n)
    {
      AsrNonNegative(n);
      r := r + (if n[0] then 1 else 0);
      n := Asr(n);
    }
    CountZero(32);
  }

  // ---------------------------------------------------------------------
  // Word sequences of `Bitset`

  /** Words `expand(needed)` leaves: enough for `needed` bits, never fewer
      than there were, and no word more than that. */
  function WordsFor(len: nat, needed: int): (r: nat)
    ensures r >= len && r * WORD_SIZE >= needed
    ensures r > len ==> (r - 1) * WORD_SIZE < needed
  {
    if len * WORD_SIZE >= needed then len else (needed + 31) / 32
  }

  function ZeroWords(n: nat): (r: seq<Word>)
    ensures |r| == n && forall k :: 0 <= k < n ==> r[k] == Zero()
  {
    seq(n, _ => Zero())
  }

  /** The words after `expand(needed)`: the old ones followed by zeros. */
  function Expanded(vs: seq<Word>, needed: int): (r: seq<Word>)
    ensures |r| == WordsFor(|vs|, needed) && r[..|vs|] == vs
    ensures forall k :: |vs| <= k < |r| ==> r[k] == Zero()
  {
    vs + ZeroWords(WordsFor(|vs|, needed) - |vs|)
  }

  /** Bit `j` of a word sequence: bit `j mod 32` of word `j / 32`; a bit past
      the last word is clear. */
  predicate Bit(vs: seq<Word>, j: nat)
  {
    j / 32 < |vs| && vs[j / 32][j % 32]
  }

  /** Expanding never changes a bit. */
  lemma ExpandedBits(vs: seq<Word>, needed: int, j: nat)
    ensures Bit(Expanded(vs, needed), j) == Bit(vs, j)
  {
    var e := Expanded(vs, needed);
    if j / 32 < |e| && j / 32 >= |vs| {
      assert e[j / 32] == Zero();
    } else if j / 32 < |vs| {
      assert e[j / 32] == e[..|vs|][j / 32];
    }
  }

  /** Expanding to no more bits than there are changes nothing. */
  lemma ExpandedNoop(vs: seq<Word>, needed: int)
    requires |vs| * WORD_SIZE >= needed
    ensures Expanded(vs, needed) == vs
  {
    assert ZeroWords(0) == [];
  }

  /** `set(i, b)`: expand to `i + 1` bits, then set or clear one bit of word
      `i >>> 5`. */
  function SetAt(vs: seq<Word>, i: nat, b: bool): (r: seq<Word>)
    ensures |r| == WordsFor(|vs|, i + 1) && i / 32 < |r|
  {
    var e := Expanded(vs, i + 1);
    e[i / 32 := SetWord(e[i / 32], i, b)]
  }

  /** After `set(i, b)` bit i is b; every other bit is as before. */
  lemma SetAtBit(vs: seq<Word>, i: nat, b: bool, j: nat)
    ensures Bit(SetAt(vs, i, b), j) == if j == i then b else Bit(vs, j)
  {
    var e := Expanded(vs, i + 1);
    ExpandedBits(vs, i + 1, j);
    SetWordBit(e[i / 32], i, b);
  }

  /** `flip(i)`: expand to `i + 1` bits, then invert one bit. */
  function FlipAt(vs: seq<Word>, i: nat): (r: seq<Word>)
    ensures |r| == WordsFor(|vs|, i + 1) && i / 32 < |r|
  {
    var e := Expanded(vs, i + 1);
    e[i / 32 := FlipWord(e[i / 32], i)]
  }

  /** After `flip(i)` bit i is inverted; every other bit is as before. */
  lemma FlipAtBit(vs: seq<Word>, i: nat, j: nat)
    ensures Bit(FlipAt(vs, i), j) == ((j == i) != Bit(vs, j))
  {
    var e := Expanded(vs, i + 1);
    ExpandedBits(vs, i + 1, j);
    FlipWordBit(e[i / 32], i);
  }

  /** Flipping the same bit twice gives back the (expanded) words. */
  lemma FlipTwice(vs: seq<Word>, i: nat)
    ensures FlipAt(FlipAt(vs, i), i) == Expanded(vs, i + 1)
  {
    var e := Expanded(vs, i + 1);
    ExpandedNoop(FlipAt(vs, i), i + 1);
    FlipWordTwice(e[i / 32], i);
  }

  /** What `test(i)` returns: `(word & (1 << i)) > 0` on the expanded words. */
  predicate TestAt(vs: seq<Word>, i: nat)
  {
    var e := Expanded(vs, i + 1);
    WordTest(e[i / 32], i)
  }

  /** `test(i)` reports bit i, except that bit 31 of every word reads as
      clear. */
  lemma TestAtBit(vs: seq<Word>, i: nat)
    ensures TestAt(vs, i) == (Bit(vs, i) && i % 32 != 31)
  {
    var e := Expanded(vs, i + 1);
    WordTestMissesTopBit(e[i / 32], i);
    ExpandedBits(vs, i + 1, i);
  }

  /** After `set(i, b)`, `test(i)` returns b unless i is bit 31 of its word. */
  lemma SetThenTest(vs: seq<Word>, i: nat, b: bool)
    ensures TestAt(SetAt(vs, i, b), i) == (b && i % 32 != 31)
  {
    TestAtBit(SetAt(vs, i, b), i);
    SetAtBit(vs, i, b, i);
  }

  /** Concrete instance: `set(31)` on an empty set, then `test(31)`. */
  lemma SetThenTestTopBit()
    ensures Bit(SetAt([], 31, true), 31)
    ensures !TestAt(SetAt([], 31, true), 31)
  {
    SetAtBit([], 31, true, 31);
    SetThenTest([], 31, true);
  }

  /** `(word & (1 << i)) !== 0`: the test without the sign comparison. */
  predicate TestAtFixed(vs: seq<Word>, i: nat)
  {
    var e := Expanded(vs, i + 1);
    And(e[i / 32], Mask(i)) != Zero()
  }

  /** The corrected test reports exactly bit i ... */
  lemma TestAtFixedBit(vs: seq<Word>, i: nat)
    ensures TestAtFixed(vs, i) == Bit(vs, i)
  {
    var e := Expanded(vs, i + 1);
    ExpandedBits(vs, i + 1, i);
    if e[i / 32][i % 32] {
      assert And(e[i / 32], Mask(i))[i % 32] != Zero()[i % 32];
    } else {
      assert And(e[i / 32], Mask(i)) == Zero();
    }
  }

  /** ... so it reads back what `set` wrote at every index, bit 31
      included. */
  lemma SetThenTestFixed(vs: seq<Word>, i: nat, b: bool)
    ensures TestAtFixed(SetAt(vs, i, b), i) == b
  {
    TestAtFixedBit(SetAt(vs, i, b), i);
    SetAtBit(vs, i, b, i);
  }

  /** What `any()` checks: some word is a positive int32. */
  predicate AnyPositive(vs: seq<Word>)
  {
    exists k :: 0 <= k < |vs| && Positive(vs[k])
  }

  /** Some word is not 0: what `any()` evidently means. */
  predicate AnyBit(vs: seq<Word>)
  {
    exists k :: 0 <= k < |vs| && vs[k] != Zero()
  }

  /** `any()` only reports a set that has a set bit ... */
  lemma AnyPositiveSound(vs: seq<Word>)
    requires AnyPositive(vs)
    ensures AnyBit(vs)
  {
    var k :| 0 <= k < |vs| && Positive(vs[k]);
    PositiveBits(vs[k]);
    var j :| 0 <= j < 31 && vs[k][j];
    assert vs[k][j] != Zero()[j];
  }

  /** ... but misses a set whose only set bit is bit 31 of a word. */
  lemma AnyMissesTopBit()
    ensures Bit(SetAt([], 31, true), 31)
    ensures AnyBit(SetAt([], 31, true)) && !AnyPositive(SetAt([], 31, true))
  {
    var vs := SetAt([], 31, true);
    SetAtBit([], 31, true, 31);
    assert |vs| == 1;
    assert vs[0][31] != Zero()[31];
    PositiveBits(vs[0]);
  }

  /** The corrected `any()` is true exactly when some bit is one. */
  lemma AnyBitExactly(vs: seq<Word>)
    ensures AnyBit(vs) <==> exists j: nat :: Bit(vs, j)
  {
    if AnyBit(vs) {
      var k :| 0 <= k < |vs| && vs[k] != Zero();
      var b :| 0 <= b < 32 && vs[k][b] != Zero()[b];
      assert Bit(vs, 32 * k + b);
    }
    if exists j: nat :: Bit(vs, j) {
      var j: nat :| Bit(vs, j);
      assert vs[j / 32][j % 32] != Zero()[j % 32];
    }
  }

  function WordsPopCount(vs: seq<Word>): nat
  {
    if vs == [] then 0 else WordsPopCount(vs[..|vs| - 1]) + PopCount(vs[|vs| - 1])
  }

  predicate NoSignBits(vs: seq<Word>)
  {
    forall k :: 0 <= k < |vs| ==> !vs[k][31]
  }

  // ---------------------------------------------------------------------
  // Text form of `Bitset`: one `parseInt(c, base)` per character in, and
  // `word.toString(base)` per word out.

  function DigitChar(d: nat): char
    requires d < 36
  {
    if d < 10 then ('0' as int + d) as char else ('a' as int + d - 10) as char
  }

  /** The digit value `parseInt` gives a single character, -1 for none. */
  function DigitValue(c: char): (r: int)
    ensures -1 <= r < 36
  {
    if '0' <= c <= '9' then c as int - '0' as int
    else if 'a' <= c <= 'z' then c as int - 'a' as int + 10
    else if 'A' <= c <= 'Z' then c as int - 'A' as int + 10
    else -1
  }

  lemma DigitCharValue(d: nat)
    requires d < 36
    ensures DigitValue(DigitChar(d)) == d
  {
  }

  /** The low `w` bits of `n`, least significant first. */
  function BitsOf(n: nat, w: nat): (s: seq<bool>)
    ensures |s| == w
  {
    if w == 0 then [] else [n % 2 == 1] + BitsOf(n / 2, w - 1)
  }

  /** The bits of a number below 2^w have that number as their value ... */
  lemma {:induction false} UnsignedBitsOf(n: nat, w: nat)
    requires n < Pow2(w)
    ensures Unsigned(BitsOf(n, w)) == n
  {
    if w > 0 {
      UnsignedBitsOf(n / 2, w - 1);
      assert BitsOf(n, w)[1..] == BitsOf(n / 2, w - 1);
    }
  }

  /** ... and bits are determined by their value. */
  lemma {:induction false} BitsOfUnsigned(s: seq<bool>)
    ensures BitsOf(Unsigned(s), |s|) == s
  {
    if s != [] {
      BitsOfUnsigned(s[1..]);
      var u := Unsigned(s);
      assert u / 2 == Unsigned(s[1..]);
      assert (u % 2 == 1) == s[0];
    }
  }

  lemma {:induction false} BitsOfZero(w: nat)
    ensures BitsOf(0, w) == seq(w, _ => false)
  {
    if w > 0 {
      BitsOfZero(w - 1);
    }
  }

  /** The word a number in the int32 range is stored as. */
  function WordOf(v: int): Word
  {
    BitsOf(v % 0x1_0000_0000, 32)
  }

  /** An int32 survives being stored as a word and read back. */
  lemma Int32WordOf(v: int)
    requires -0x8000_0000 <= v < 0x8000_0000
    ensures Int32(WordOf(v)) == v
  {
    var u := v % 0x1_0000_0000;
    WordBitsOf(u, 32);
    WordRange(WordOf(v));
    if v < 0 {
      assert u == v + 0x1_0000_0000;
    } else {
      assert u == v;
    }
  }

  /** `parseInt(c, base)` stored as a word.  NaN (no digit of this base)
      behaves as 0 under every bitwise operator and is stored as 0. */
  function ParseWord(c: char, base: nat): Word
    requires 2 <= base <= 36
  {
    var d := DigitValue(c);
    if 0 <= d < base then WordOf(d) else Zero()
  }

  function ParseWords(s: string, base: nat): (r: seq<Word>)
    requires 2 <= base <= 36
    ensures |r| == |s|
  {
    if s == [] then [] else ParseWords(s[..|s| - 1], base) + [ParseWord(s[|s| - 1], base)]
  }

  /** Digits of `n` in `base`, most significant first, as `toString` writes. */
  function Digits(n: nat, base: nat): string
    requires 2 <= base <= 36
    decreases n
  {
    if n < base then [DigitChar(n)]
    else DigitStep(n, base); Digits(n / base, base) + [DigitChar(n % base)]
  }

  lemma DigitStep(n: nat, base: nat)
    requires 2 <= base <= n
    ensures n / base < n && n % base < base
  {
  }

  /** `Number.prototype.toString(base)` of a word. */
  function Radix(w: Word, base: nat): string
    requires 2 <= base <= 36
  {
    var n := Int32(w);
    if n < 0 then ['-'] + Digits(-n, base) else Digits(n, base)
  }

  /** `toString(base)`: the words' texts joined with no separator. */
  function Render(vs: seq<Word>, base: nat): string
    requires 2 <= base <= 36
  {
    if vs == [] then [] else Render(vs[..|vs| - 1], base) + Radix(vs[|vs| - 1], base)
  }

  lemma {:induction false} ParseWordsAppend(a: string, c: char, base: nat)
    requires 2 <= base <= 36
    ensures ParseWords(a + [c], base) == ParseWords(a, base) + [ParseWord(c, base)]
  {
    assert (a + [c])[..|a|] == a;
  }

  /** A word that denotes a non-negative number denotes its unsigned value. */
  lemma NonNegativeWord(w: Word)
    requires Int32(w) >= 0
    ensures !w[31] && Int32(w) == Unsigned(w)
  {
    WordRange(w);
  }

  /** Storing the number a non-negative word denotes gives that word back. */
  lemma WordOfNonNegative(w: Word)
    requires Int32(w) >= 0
    ensures WordOf(Int32(w)) == w
  {
    NonNegativeWord(w);
    var u := Unsigned(w);
    WordRange(w);
    assert u % 0x1_0000_0000 == u;
    BitsOfUnsigned(w);
  }

  /** A word holding one digit of the base prints as that digit ... */
  lemma RadixDigit(w: Word, base: nat)
    requires 2 <= base <= 36 && 0 <= Int32(w) < base
    ensures Radix(w, base) == [DigitChar(Int32(w))]
  {
  }

  /** ... and that digit parses back to the same word. */
  lemma ParseDigit(w: Word, base: nat)
    requires 2 <= base <= 36 && 0 <= Int32(w) < base
    ensures ParseWord(DigitChar(Int32(w)), base) == w
  {
    var d := Int32(w);
    DigitCharValue(d);
    WordOfNonNegative(w);
  }

  /** The text form reads back as the same words when every word is a
      single digit of the base. */
  lemma {:induction false} RenderParse(vs: seq<Word>, base: nat)
    requires 2 <= base <= 36
    requires forall k :: 0 <= k < |vs| ==> 0 <= Int32(vs[k]) < base
    ensures ParseWords(Render(vs, base), base) == vs
  {
    if vs != [] {
      var init, last := vs[..|vs| - 1], vs[|vs| - 1];
      RenderParse(init, base);
      RadixDigit(last, base);
      ParseDigit(last, base);
      ParseWordsAppend(Render(init, base), DigitChar(Int32(last)), base);
    }
  }

  /** A word of two or more digits splits into several words when read back:
      the word 32 prints as "10" in base 32 and reads back as [1, 0]. */
  lemma RenderParseSplits(w: Word)
    requires Int32(w) == 32
    ensures Render([w], 32) == "10"
    ensures ParseWords(Render([w], 32), 32) == [WordOf(1), Zero()]
  {
    RenderThirtyTwo(w);
    ParseOneZero();
  }

  /** The word 32 prints as "10" in base 32. */
  lemma RenderThirtyTwo(w: Word)
    requires Int32(w) == 32
    ensures Render([w], 32) == "10"
  {
    assert Render([w], 32) == Radix(w, 32) by {
      assert [w][..0] == [];
    }
    assert Digits(32, 32) == Digits(1, 32) + [DigitChar(0)];
  }

  /** "10" in base 32 reads back as two words, 1 and 0. */
  lemma ParseOneZero()
    ensures ParseWords("10", 32) == [WordOf(1), Zero()]
  {
    assert ParseWords("1", 32) == [WordOf(1)] by {
      assert "1"[..0] == [];
    }
    ParseWordsAppend("1", '0', 32);
    assert "10" == "1" + ['0'];
    BitsOfZero(32);
  }

  // ---------------------------------------------------------------------

  /** `Bitset`: a growable sequence of words. */
  class Bitset {
    var values: seq<Word>

    constructor (initialValue: seq<Word>)
      ensures values == initialValue
    {
      values := initialValue;
    }

    /** The string form of the constructor: one `parseInt` per character. */
    constructor FromString(initialValue: string, base: nat)
      requires 2 <= base <= 36
      ensures values == ParseWords(initialValue, base)
    {
      var words := [];
      var i := 0;
      while i < |initialValue|
        invariant 0 <= i <= |initialValue|
        invariant words == ParseWords(initialValue[..i], base)
      {
        assert initialValue[..i + 1] == initialValue[..i] + [initialValue[i]];
        ParseWordsAppend(initialValue[..i], initialValue[i], base);
        words := words + [ParseWord(initialValue[i], base)];
        i := i + 1;
      }
      assert initialValue[..i] == initialValue;
      values := words;
    }

    method Expand(neededSize: int)
      modifies this
      ensures values == Expanded(old(values), neededSize)
    {
      var size := |values| * WORD_SIZE;
      ghost var added: nat := 0;
      while size < neededSize
        invariant size == |values| * WORD_SIZE
        invariant values == old(values) + ZeroWords(added)
        invariant added > 0 ==> (|values| - 1) * WORD_SIZE < neededSize
        decreases neededSize - size
      {
        values := values + [Zero()];
        added := added + 1;
        size := size + WORD_SIZE;
      }
      assert |values| == WordsFor(|old(values)|, neededSize);
    }

    method Set(index: nat, value: bool)
      requires index < 0x8000_0000
      modifies this
      ensures values == SetAt(old(values), index, value)
    {
      Expand(index + 1);
      var arrayIndex := index / 32;
      values := values[arrayIndex := SetWord(values[arrayIndex], index, value)];
    }

    method Any() returns (r: bool)
      ensures r == AnyPositive(values)
    {
      var i := 0;
      while i < |values|
        invariant 0 <= i <= |values|
        invariant forall k :: 0 <= k < i ==> !Positive(values[k])
      {
        if Positive(values[i]) {
          return true;
        }
        i := i + 1;
      }
      return false;
    }

    method None() returns (r: bool)
      ensures r == !AnyPositive(values)
    {
      var i := 0;
      while i < |values|
        invariant 0 <= i <= |values|
        invariant forall k :: 0 <= k < i ==> !Positive(values[k])
      {
        if Positive(values[i]) {
          return false;
        }
        i := i + 1;
      }
      return true;
    }

    method Reset()
      modifies this
      ensures values == [] && !AnyPositive(values)
    {
      values := [];
    }

    method Test(index: nat) returns (r: bool)
      requires index < 0x8000_0000
      modifies this
      ensures values == Expanded(old(values), index + 1)
      ensures r == TestAt(old(values), index)
    {
      Expand(index + 1);
      var arrayIndex := index / 32;
      r := WordTest(values[arrayIndex], index);
    }

    method Flip(index: nat)
      requires index < 0x8000_0000
      modifies this
      ensures values == FlipAt(old(values), index)
    {
      Expand(index + 1);
      var arrayIndex := index / 32;
      values := values[arrayIndex := FlipWord(values[arrayIndex], index)];
    }

    /** `couht()`: terminates only when no word has bit 31 set. */
    method Count() returns (r: nat)
      requires NoSignBits(values)
      ensures r == WordsPopCount(values)
    {
      r := 0;
      var i := 0;
      while i < |values|
        invariant 0 <= i <= |values|
        invariant r == WordsPopCount(values[..i])
      {
        var c := WordPopCount(values[i]);
        assert values[..i + 1][..i] == values[..i];
        r := r + c;
        i := i + 1;
      }
      assert values[..i] == values;
    }

    method ToString(base: nat) returns (s: string)
      requires 2 <= base <= 36
      ensures s == Render(values, base)
    {
      s := [];
      var i := 0;
      while i < |values|
        invariant 0 <= i <= |values|
        invariant s == Render(values[..i], base)
      {
        assert values[..i + 1][..i] == values[..i];
        s := s + Radix(values[i], base);
        i := i + 1;
      }
      assert values[..i] == values;
    }
  }

  /** `Bitset32`: a single word. */
  class Bitset32 {
    var value: Word

    constructor (initialValue: int)
      requires -0x8000_0000 <= initialValue < 0x8000_0000
      ensures value == WordOf(initialValue)
    {
      value := WordOf(initialValue);
    }

    method Any() returns (r: bool)
      ensures r == Positive(value)
    {
      r := Positive(value);
    }

    method None() returns (r: bool)
      ensures r == (value == Zero())
    {
      r := value == Zero();
    }

    method Reset()
      modifies this
      ensures value == Zero()
    {
      value := Zero();
    }

    method Test(index: int) returns (r: bool)
      ensures r == (value[index % 32] && index % 32 != 31)
    {
      r := WordTest(value, index);
      WordTestMissesTopBit(value, index);
    }

    method SetAll()
      modifies this
      ensures value == MAX
    {
      value := MAX;
    }

    method Set(index: int, v: bool)
      modifies this
      ensures value == old(value)[index % 32 := v]
    {
      SetWordBit(value, index, v);
      value := SetWord(value, index, v);
    }

    method FlipAll()
      modifies this
      ensures value == Xor(old(value), MAX)
    {
      value := Xor(value, MAX);
    }

    method Flip(index: int)
      modifies this
      ensures value == old(value)[index % 32 := !old(value)[index % 32]]
    {
      FlipWordBit(value, index);
      value := FlipWord(value, index);
    }

    /** `couht()`: terminates only when bit 31 is clear. */
    method Count() returns (r: nat)
      requires !value[31]
      ensures r == PopCount(value)
    {
      r := WordPopCount(value);
    }

    method GetValue() returns (r: int)
      ensures r == Int32(value)
    {
      r := Int32(value);
    }

    method GetSize() returns (r: nat)
      ensures r == WORD_SIZE
    {
      r := WORD_SIZE;
    }
  }

  /** `flipAll` twice restores a `Bitset32`. */
  lemma FlipAllTwice(w: Word)
    ensures Xor(Xor(w, MAX), MAX) == w
  {
  }

  /** `setAll` turns on bits 0 to 29 and leaves bits 30 and 31 clear, so
      `any()` then holds and `couht()` ends with 30. */
  lemma SetAllBits()
    ensures forall j :: MAX[j % 32] == (j % 32 < 30)
    ensures Positive(MAX) && PopCount(MAX) == 30
  {
    PositiveBits(MAX);
    assert MAX[0];
    CountPrefix(30, 2);
  }

  lemma {:induction false} CountPrefix(ones: nat, zeros: nat)
    ensures CountBits(seq(ones + zeros, k => k < ones)) == ones
  {
    var s := seq(ones + zeros, k => k < ones);
    if ones > 0 {
      CountPrefix(ones - 1, zeros);
      assert s[1..] == seq(ones - 1 + zeros, k => k < ones - 1);
    } else {
      CountZero(zeros);
      assert s == seq(zeros, _ => false);
    }
  }
}
