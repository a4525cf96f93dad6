/** Bit strings for the bit-packed codec: a byte array seen as a stream of
    bits (most significant bit of each byte first), the fixed-width bit
    fields of an integer, JavaScript's bitwise OR on naturals and its
    32-bit wrap-around. */
module Bits {
  import opened Bytes

  /** The low `w` bits of `n`, most significant first. */
  function ToBits(n: int, w: nat): (r: seq<bool>)
    ensures |r| == w
    decreases w
  {
    if w == 0 then [] else ToBits(n / 2, w - 1) + [n % 2 == 1]
  }

  /** The number a bit string spells, most significant bit first. */
  function FromBits(bs: seq<bool>): (r: nat)
    ensures r < Pow2(|bs|)
  {
    if bs == [] then 0 else 2 * FromBits(bs[..|bs| - 1]) + (if bs[|bs| - 1] then 1 else 0)
  }

  /** `w` clear bits. */
  function NoBits(w: nat): (r: seq<bool>)
    ensures |r| == w
  {
    seq(w, _ => false)
  }

  /** The bits of a byte array, byte by byte. */
  function BitsOf(a: seq<byte>): (r: seq<bool>)
    ensures |r| == 8 * |a|
  {
    seq(8 * |a|, i requires 0 <= i < 8 * |a| => ToBits(a[i / 8], 8)[i % 8])
  }

  /** Element-wise OR of two bit strings of one length. */
  function OrSeq(s: seq<bool>, t: seq<bool>): (r: seq<bool>)
    requires |s| == |t|
    ensures |r| == |s|
  {
    seq(|s|, i requires 0 <= i < |s| => s[i] || t[i])
  }

  /** The stream `s` with the bits of `t` ORed in from position `p`; bits
      of `t` that fall past the end of `s` are lost. */
  function OrAt(s: seq<bool>, p: nat, t: seq<bool>): (r: seq<bool>)
    ensures |r| == |s|
  {
    seq(|s|, i requires 0 <= i < |s| => s[i] || (p <= i < p + |t| && t[i - p]))
  }

  /** JavaScript's `x | y` on non-negative operands, bit by bit. */
  function Or(x: nat, y: nat): nat
    decreases x + y
  {
    if x == 0 && y == 0 then 0
    else 2 * Or(x / 2, y / 2) + (if x % 2 == 1 || y % 2 == 1 then 1 else 0)
  }

  /** ToInt32: the 32-bit two's-complement value JavaScript's bitwise
      operators reduce a number to. */
  function Int32(x: int): (r: int)
    ensures -0x8000_0000 <= r < 0x8000_0000
  {
    (x + 0x8000_0000) % 0x1_0000_0000 - 0x8000_0000
  }

  lemma Pow2Add(i: nat, j: nat)
    ensures Pow2(i + j) == Pow2(i) * Pow2(j)
    decreases j
  {
    if j > 0 {
      Pow2Add(i, j - 1);
      assert Pow2(i + j) == 2 * Pow2(i + j - 1);
      assert Pow2(i) * Pow2(j) == Pow2(i) * (2 * Pow2(j - 1));
    }
  }

  /** Dividing twice is dividing by the product; the remainders combine. */
  lemma DivMod(v: int, a: nat, p: nat)
    requires a >= 1 && p >= 1
    ensures (v / a) % p * a + v % a == v % (a * p)
    ensures v / a / p == v / (a * p)
  {
    var q := v / a;
    var r := v % a;
    var q2 := q / p;
    var r2 := q % p;
    assert v == a * q + r;
    assert q == p * q2 + r2;
    assert a * q == (a * p) * q2 + a * r2 by {
      assert a * q == a * (p * q2 + r2);
    }
    MulMono(a, r2, p - 1);
    assert a * (p - 1) == a * p - a;
    ModUnique(v, a * p, q2, a * r2 + r);
    assert r2 * a == a * r2;
  }

  lemma Double(f: int, p: int)
    ensures f * (2 * p) == 2 * (f * p)
  {
  }

  lemma MulMono(a: nat, x: int, y: int)
    requires x <= y
    ensures a * x <= a * y
  {
    assert a * y - a * x == a * (y - x);
  }

  lemma {:induction false} ToBitsSplit(n: int, m: nat, s: nat)
    ensures ToBits(n, m + s) == ToBits(n / Pow2(s), m) + ToBits(n, s)
    decreases s
  {
    if s > 0 {
      ToBitsSplit(n / 2, m, s - 1);
      DivMod(n, 2, Pow2(s - 1));
      assert ToBits(n, m + s) == ToBits(n / 2, m + s - 1) + [n % 2 == 1];
    }
  }

  /** The low `s` bits of `n` do not depend on the higher ones. */
  lemma {:induction false} ToBitsMod(n: int, s: nat)
    ensures ToBits(n % Pow2(s), s) == ToBits(n, s)
    decreases s
  {
    if s > 0 {
      var p := Pow2(s - 1);
      var x := n % Pow2(s);
      DivMod(n, 2, p);
      ModUnique(x, 2, (n / 2) % p, n % 2);
      ToBitsMod(n / 2, s - 1);
    }
  }

  /** Two bit fields side by side spell `x * 2^s + y`. */
  lemma ToBitsFields(x: int, y: int, m: nat, s: nat)
    requires 0 <= y < Pow2(s)
    ensures ToBits(x * Pow2(s) + y, m + s) == ToBits(x, m) + ToBits(y, s)
  {
    var z := x * Pow2(s) + y;
    ModUnique(z, Pow2(s), x, y);
    ToBitsSplit(z, m, s);
    ToBitsMod(z, s);
    ToBitsMod(y, s);
  }

  /** A window of the field of `n` is the field of `n` shifted right. */
  lemma ToBitsSlice(n: int, w: nat, i: nat, m: nat)
    requires i + m <= w
    ensures ToBits(n, w)[i..i + m] == ToBits(n / Pow2(w - i - m), m)
  {
    ToBitsSplit(n, i, w - i);
    ToBitsSplit(n, m, w - i - m);
    assert ToBits(n, w)[i..] == ToBits(n, w - i);
  }

  lemma {:induction false} FromToBits(n: int, w: nat)
    ensures FromBits(ToBits(n, w)) == n % Pow2(w)
    decreases w
  {
    if w > 0 {
      var t := ToBits(n, w);
      assert t[..w - 1] == ToBits(n / 2, w - 1);
      FromToBits(n / 2, w - 1);
      DivMod(n, 2, Pow2(w - 1));
    }
  }

  lemma {:induction false} ToFromBits(bs: seq<bool>)
    ensures ToBits(FromBits(bs), |bs|) == bs
    decreases |bs|
  {
    if bs != [] {
      var init := bs[..|bs| - 1];
      var d := if bs[|bs| - 1] then 1 else 0;
      ModUnique(FromBits(bs), 2, FromBits(init), d);
      ToFromBits(init);
    }
  }

  lemma {:induction false} FromBitsAppend(s: seq<bool>, t: seq<bool>)
    ensures FromBits(s + t) == FromBits(s) * Pow2(|t|) + FromBits(t)
    decreases |t|
  {
    if t != [] {
      var t0 := t[..|t| - 1];
      var d := if t[|t| - 1] then 1 else 0;
      assert (s + t)[..|s + t| - 1] == s + t0;
      assert FromBits(s + t) == 2 * FromBits(s + t0) + d;
      assert FromBits(t) == 2 * FromBits(t0) + d;
      FromBitsAppend(s, t0);
      var f := FromBits(s);
      var p0 := Pow2(|t0|);
      assert Pow2(|t|) == 2 * p0;
      Double(f, p0);
    } else {
      assert s + t == s;
    }
  }

  lemma {:induction false} ToBitsZero(w: nat)
    ensures ToBits(0, w) == NoBits(w)
    decreases w
  {
    if w > 0 {
      ToBitsZero(w - 1);
    }
  }

  /** A field `v` of `m` bits placed `s` bits from the low end of a field
      of width `w`. */
  lemma PlacedField(v: nat, m: nat, s: nat, w: nat)
    requires v < Pow2(m) && m + s <= w
    ensures v * Pow2(s) < Pow2(w)
    ensures ToBits(v * Pow2(s), w) == NoBits(w - m - s) + ToBits(v, m) + NoBits(s)
  {
    PlacedBound(v, m, s, w);
    PlacedBits(v, m, s, w, v * Pow2(s));
  }

  lemma PlacedBits(v: nat, m: nat, s: nat, w: nat, z: nat)
    requires z == v * Pow2(s) && z < Pow2(m + s) && m + s <= w
    ensures ToBits(z, w) == NoBits(w - m - s) + ToBits(v, m) + NoBits(s)
  {
    HighClear(z, m + s, w - m - s, w);
    ShiftedBits(v, m, s, z);
    assert NoBits(w - m - s) + (ToBits(v, m) + NoBits(s)) == NoBits(w - m - s) + ToBits(v, m) + NoBits(s);
  }

  /** `v` shifted left by `s` has `s` clear low bits under the bits of `v`. */
  lemma ShiftedBits(v: nat, m: nat, s: nat, z: int)
    requires z == v * Pow2(s)
    ensures ToBits(z, m + s) == ToBits(v, m) + NoBits(s)
  {
    ToBitsFields(v, 0, m, s);
    ToBitsZero(s);
  }

  /** A value below 2^k has only clear bits above its low `k`. */
  lemma HighClear(z: nat, k: nat, r: nat, w: nat)
    requires z < Pow2(k) && w == r + k
    ensures ToBits(z, w) == NoBits(r) + ToBits(z, k)
  {
    ToBitsFields(0, z, r, k);
    ToBitsZero(r);
  }

  lemma PlacedBound(v: nat, m: nat, s: nat, w: nat)
    requires v < Pow2(m) && m + s <= w
    ensures 0 <= v * Pow2(s) < Pow2(m + s) <= Pow2(w)
  {
    NonNegMul(v, Pow2(s));
    Pow2Add(m, s);
    MulStrict(v, Pow2(m), Pow2(s));
    if m + s < w {
      Pow2Grows(m + s, w);
    }
  }

  lemma NonNegMul(x: nat, y: nat)
    ensures x * y >= 0
  {
  }

  lemma MulStrict(x: int, y: int, c: nat)
    requires x < y && c >= 1
    ensures x * c < y * c
  {
    MulAtLeast(c, y - x);
    assert y * c - x * c == c * (y - x);
  }

  lemma OrSeqAppend(s: seq<bool>, t: seq<bool>, x: bool, y: bool)
    requires |s| == |t|
    ensures OrSeq(s + [x], t + [y]) == OrSeq(s, t) + [x || y]
  {
  }

  /** `|` works bit by bit. */
  lemma {:induction false} OrBits(x: nat, y: nat, w: nat)
    ensures ToBits(Or(x, y), w) == OrSeq(ToBits(x, w), ToBits(y, w))
    decreases w
  {
    if w > 0 {
      var d := if x % 2 == 1 || y % 2 == 1 then 1 else 0;
      ModUnique(Or(x, y), 2, Or(x / 2, y / 2), d);
      OrBits(x / 2, y / 2, w - 1);
      OrSeqAppend(ToBits(x / 2, w - 1), ToBits(y / 2, w - 1), x % 2 == 1, y % 2 == 1);
    }
  }

  /** ORing bits past the end of the stream changes nothing. */
  lemma OrAtPast(s: seq<bool>, p: nat, t: seq<bool>)
    requires p >= |s|
    ensures OrAt(s, p, t) == s
  {
  }

  /** ORing two adjacent runs is ORing their concatenation. */
  lemma OrAtTwice(s: seq<bool>, p: nat, t1: seq<bool>, q: nat, t2: seq<bool>)
    requires q == p + |t1|
    ensures OrAt(OrAt(s, p, t1), q, t2) == OrAt(s, p, t1 + t2)
  {
  }

  /** Storing byte `x` at index `j` changes bits 8j..8j+8 of the stream. */
  lemma BitsOfUpdate(a: seq<byte>, j: nat, x: byte)
    requires j < |a|
    ensures BitsOf(a[j := x]) == BitsOf(a)[..8 * j] + ToBits(x, 8) + BitsOf(a)[8 * j + 8..]
  {
    var lhs := BitsOf(a[j := x]);
    var rhs := BitsOf(a)[..8 * j] + ToBits(x, 8) + BitsOf(a)[8 * j + 8..];
    forall i | 0 <= i < 8 * |a|
      ensures lhs[i] == rhs[i]
    {
      var q := i / 8;
      assert 8 * q <= i < 8 * q + 8;
      assert lhs[i] == ToBits(a[j := x][q], 8)[i % 8];
      if q == j {
        assert rhs[i] == ToBits(x, 8)[i - 8 * j];
      } else {
        assert rhs[i] == BitsOf(a)[i] == ToBits(a[q], 8)[i % 8];
      }
    }
  }

  /** The byte at `j` after `arr[j] |= part`, with `part` holding the run
      `chunk` at bit `p` and nothing else, is the stream with `chunk` ORed
      in at `p`. */
  lemma OrIntoByte(a: seq<byte>, j: nat, p: nat, chunk: seq<bool>, part: nat)
    requires j < |a| && 8 * j <= p && p + |chunk| <= 8 * j + 8
    requires ToBits(part, 8) == NoBits(p - 8 * j) + chunk + NoBits(8 * j + 8 - p - |chunk|)
    ensures BitsOf(a[j := Or(a[j], part) % 256]) == OrAt(BitsOf(a), p, chunk)
  {
    var x: byte := Or(a[j], part) % 256;
    StoredOr(a[j], part, x);
    ByteRun(a, j, x, p, chunk);
  }

  /** Replacing byte `j` by one whose bits are the old bits ORed with a run
      placed at stream position `p`. */
  lemma ByteRun(a: seq<byte>, j: nat, x: byte, p: nat, chunk: seq<bool>)
    requires j < |a| && 8 * j <= p && p + |chunk| <= 8 * j + 8
    requires ToBits(x, 8) == OrSeq(ToBits(a[j], 8), NoBits(p - 8 * j) + chunk + NoBits(8 * j + 8 - p - |chunk|))
    ensures BitsOf(a[j := x]) == OrAt(BitsOf(a), p, chunk)
  {
    hide BitsOf, ToBits, OrAt, OrSeq, NoBits;
    BitsOfUpdate(a, j, x);
    BitsOfByte(a, j);
    OrAtWithin(BitsOf(a), 8 * j, p, chunk, ToBits(a[j], 8), ToBits(x, 8));
  }

  /** Bits 8j..8j+8 of the stream are the bits of byte `j`. */
  lemma BitsOfByte(a: seq<byte>, j: nat)
    requires j < |a|
    ensures BitsOf(a)[8 * j..8 * j + 8] == ToBits(a[j], 8)
  {
    hide BitsOf, ToBits;
    var bits := BitsOf(a);
    forall k | 0 <= k < 8
      ensures bits[8 * j..8 * j + 8][k] == ToBits(a[j], 8)[k]
    {
      ModUnique(8 * j + k, 8, j, k);
      BitOfByte(a, 8 * j + k);
    }
  }

  lemma BitOfByte(a: seq<byte>, i: nat)
    requires i < 8 * |a|
    ensures BitsOf(a)[i] == ToBits(a[i / 8], 8)[i % 8]
  {
  }

  /** ORing a run that lies inside the 8 bits from `b` touches only them. */
  lemma OrAtWithin(s: seq<bool>, b: nat, p: nat, t: seq<bool>, old8: seq<bool>, new8: seq<bool>)
    requires b <= p && p + |t| <= b + 8 <= |s|
    requires s[b..b + 8] == old8
    requires new8 == OrSeq(old8, NoBits(p - b) + t + NoBits(b + 8 - p - |t|))
    ensures OrAt(s, p, t) == s[..b] + new8 + s[b + 8..]
  {
    var rhs := s[..b] + new8 + s[b + 8..];
    forall i | 0 <= i < |s|
      ensures OrAt(s, p, t)[i] == rhs[i]
    {
      if b <= i < b + 8 {
        assert rhs[i] == new8[i - b];
        assert old8[i - b] == s[i];
      }
    }
  }

  /** The byte a Uint8Array stores for `c | part`. */
  lemma StoredOr(c: nat, part: nat, x: int)
    requires x == Or(c, part) % 256
    ensures ToBits(x, 8) == OrSeq(ToBits(c, 8), ToBits(part, 8))
  {
    Pow2Words();
    ToBitsMod(Or(c, part), 8);
    OrBits(c, part, 8);
  }

  /** Growing the store with zero bytes appends clear bits. */
  lemma BitsOfPad(a: seq<byte>, len: nat)
    requires |a| <= len
    ensures BitsOf(Pad(a, len)) == BitsOf(a) + NoBits(8 * (len - |a|))
  {
    PadAt(a, len);
    ToBitsZero(8);
    var lhs := BitsOf(Pad(a, len));
    var rhs := BitsOf(a) + NoBits(8 * (len - |a|));
    forall i | 0 <= i < 8 * len
      ensures lhs[i] == rhs[i]
    {
      if i / 8 >= |a| {
        assert Pad(a, len)[i / 8] == 0;
      }
    }
  }

  /** A prefix of the bytes holds a prefix of the bits. */
  lemma BitsOfPrefix(a: seq<byte>, k: nat)
    requires k <= |a|
    ensures BitsOf(a[..k]) == BitsOf(a)[..8 * k]
  {
  }

  lemma Int32Small(x: int)
    requires -0x8000_0000 <= x < 0x8000_0000
    ensures Int32(x) == x
  {
    ModUnique(x + 0x8000_0000, 0x1_0000_0000, 0, x + 0x8000_0000);
  }

  /** Int32 depends only on the value modulo 2^32. */
  lemma Int32Period(x: int, k: int)
    ensures Int32(x + 0x1_0000_0000 * k) == Int32(x)
  {
    var w := 0x1_0000_0000;
    var q := (x + 0x8000_0000) / w;
    var e := (x + 0x8000_0000) % w;
    ModUnique(x + w * k + 0x8000_0000, w, q + k, e);
  }

  /** One step of the reader's accumulator `r = (r << c) | part`: the
      shifted value has its low `c` bits clear, so the OR adds `part`, and
      the wrap-around of the shift can be taken at the end. */
  lemma Int32Step(f: int, c: nat, part: nat)
    requires c <= 8 && part < Pow2(c)
    ensures Int32(Int32(f) * Pow2(c)) + part == Int32(f * Pow2(c) + part)
  {
    var m := Pow2(c);
    Pow2Words();
    Pow2Add(c, 31 - c);
    Pow2Add(c, 32 - c);
    var t := -((f + 0x8000_0000) / 0x1_0000_0000);
    assert Int32(f) == f + 0x1_0000_0000 * t;
    ShiftOffset(f, t, m);
    Int32Period(f * m, t * m);
    Int32AddLow(f, m, Pow2(31 - c), Pow2(32 - c), part);
  }

  lemma ShiftOffset(f: int, t: int, m: int)
    ensures (f + 0x1_0000_0000 * t) * m == f * m + 0x1_0000_0000 * (t * m)
  {
  }

  /** Adding a value below `m` to a multiple of `m` does not cross a
      multiple of 2^32 when `m` divides 2^31. */
  lemma Int32AddLow(f: int, m: nat, hm: nat, wm: nat, part: nat)
    requires m >= 1 && m * hm == 0x8000_0000 && m * wm == 0x1_0000_0000 && part < m
    ensures Int32(f * m) + part == Int32(f * m + part)
  {
    var w := 0x1_0000_0000;
    var y := f * m;
    var k := (y + 0x8000_0000) / w;
    var e := (y + 0x8000_0000) % w;
    assert y + 0x8000_0000 == w * k + e;
    var j := f + hm - wm * k;
    Factor(m, f, hm, wm, k);
    assert e == m * j;
    if j >= wm {
      MulMono(m, wm, j);
    }
    MulMono(m, j, wm - 1);
    assert m * (wm - 1) == m * wm - m;
    ModUnique(y + part + 0x8000_0000, w, k, e + part);
  }

  lemma Factor(m: int, f: int, hm: int, wm: int, k: int)
    ensures f * m + m * hm - (m * wm) * k == m * (f + hm - wm * k)
  {
  }

  /** `n >>> k` for a number below 2^32. */
  function ShiftRight(n: nat, k: nat): (r: nat)
  {
    var d := Pow2(k);
    DivNonNegative(n, d);
    n / d
  }

  lemma DivNonNegative(n: nat, d: nat)
    requires d >= 1
    ensures n / d >= 0
  {
  }

  /** `n & ((1 << k) - 1)` for `k` below 32: the low `k` bits. */
  function Mask(n: nat, k: nat): (r: nat)
    ensures r < Pow2(k)
  {
    n % Pow2(k)
  }

  /** `n << k` when the result stays below 2^31. */
  function ShiftLeft(n: nat, k: nat): (r: nat)
  {
    n * Pow2(k)
  }
}
