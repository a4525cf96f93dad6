/** Byte-level building blocks shared by the three codecs: the power-of-two
    growth rule of their backing stores and the big-endian integer layout of
    a JavaScript DataView. */
module Bytes {

  /** An element of a Uint8Array. */
  type byte = x: int | 0 <= x < 256

  /** A result that is missing when the source throws a RangeError. */
  datatype Option<T> = None | Some(value: T)

  /** 2^k */
  function Pow2(k: nat): (r: nat)
    ensures r >= 1
  {
    if k == 0 then 1 else 2 * Pow2(k - 1)
  }

  lemma Pow2Words()
    ensures Pow2(8) == 256 && Pow2(16) == 0x1_0000 && Pow2(24) == 0x100_0000
    ensures Pow2(31) == 0x8000_0000 && Pow2(32) == 0x1_0000_0000
  {
    assert Pow2(8) == 256;
    assert Pow2(16) == 0x1_0000;
    assert Pow2(24) == 0x100_0000;
    assert Pow2(31) == 0x8000_0000;
  }

  ghost predicate IsPowerOf2(n: nat)
  {
    exists k: nat :: n == Pow2(k)
  }

  /** The least power of two that is at least n.  The repository imports
      `nextPowerOf2` from a module that is not part of this model; this is
      the contract its callers rely on. */
  function NextPowerOf2(n: nat): (r: nat)
    ensures IsPowerOf2(r) && n <= r
    ensures r == 1 || r / 2 < n
  {
    PowerAtLeast(n, 0)
  }

  function PowerAtLeast(n: nat, k: nat): (r: nat)
    requires k == 0 || Pow2(k - 1) < n
    ensures IsPowerOf2(r) && n <= r
    ensures r == 1 || r / 2 < n
    decreases n - Pow2(k)
  {
    if n <= Pow2(k) then Pow2(k) else PowerAtLeast(n, k + 1)
  }

  /** Capacity of a growable store after `expand(needed)`: unchanged when it
      already suffices, otherwise the next power of two. */
  function GrownLength(capacity: nat, needed: nat): (r: nat)
    ensures r >= capacity && r >= needed
    ensures capacity < needed ==> IsPowerOf2(r)
  {
    if capacity >= needed then capacity else NextPowerOf2(needed)
  }

  lemma {:induction false} Pow2Grows(i: nat, j: nat)
    requires i < j
    ensures Pow2(j) >= 2 * Pow2(i)
    decreases j
  {
    if j > i + 1 {
      Pow2Grows(i, j - 1);
    }
  }

  /** There is only one least power of two at or above n. */
  lemma LeastPowerUnique(p: nat, q: nat, n: nat)
    requires IsPowerOf2(p) && n <= p && (p == 1 || p / 2 < n)
    requires IsPowerOf2(q) && n <= q && (q == 1 || q / 2 < n)
    ensures p == q
  {
    var i: nat :| p == Pow2(i);
    var j: nat :| q == Pow2(j);
    if i < j {
      Pow2Grows(i, j);
    } else if j < i {
      Pow2Grows(j, i);
    }
  }

  /** Growing for m1 and then for a larger m2 ends at the same capacity as
      growing for m2 at once, so a run of forward writes leaves the store
      at the size its last byte needs. */
  lemma GrownTwice(capacity: nat, m1: nat, m2: nat)
    requires m1 <= m2
    ensures GrownLength(GrownLength(capacity, m1), m2) == GrownLength(capacity, m2)
  {
    if capacity < m1 && NextPowerOf2(m1) >= m2 {
      LeastPowerUnique(NextPowerOf2(m1), NextPowerOf2(m2), m2);
    }
  }

  function Zeros(n: nat): (r: seq<byte>)
    ensures |r| == n
  {
    seq(n, _ => 0)
  }

  /** `s` copied into the low end of a zero-filled store of `len` bytes. */
  function Pad(s: seq<byte>, len: nat): (r: seq<byte>)
    requires |s| <= len
    ensures |r| == len
  {
    s + Zeros(len - |s|)
  }

  /** `data` written over `s` starting at `off`. */
  function Splice(s: seq<byte>, off: nat, data: seq<byte>): (r: seq<byte>)
    requires off + |data| <= |s|
    ensures |r| == |s|
  {
    s[..off] + data + s[off + |data|..]
  }

  /** Padding keeps the old bytes and adds zeros. */
  lemma PadAt(s: seq<byte>, len: nat)
    requires |s| <= len
    ensures Pad(s, len)[..|s|] == s
    ensures forall i :: |s| <= i < len ==> Pad(s, len)[i] == 0
  {
  }

  /** A splice holds the data at its offset and the old bytes elsewhere. */
  lemma SpliceAt(s: seq<byte>, off: nat, data: seq<byte>)
    requires off + |data| <= |s|
    ensures Splice(s, off, data)[off..off + |data|] == data
    ensures forall i :: 0 <= i < |s| && !(off <= i < off + |data|) ==> Splice(s, off, data)[i] == s[i]
  {
    var r := Splice(s, off, data);
    assert r[off..off + |data|] == data;
  }

  lemma SpliceTwice(s: seq<byte>, off: nat, a: seq<byte>, b: seq<byte>)
    requires off + |a| + |b| <= |s|
    ensures Splice(Splice(s, off, a), off + |a|, b) == Splice(s, off, a + b)
  {
    var l := Splice(Splice(s, off, a), off + |a|, b);
    var r := Splice(s, off, a + b);
    forall i | 0 <= i < |s| ensures l[i] == r[i] {
      if off <= i < off + |a| {
        assert l[i] == a[i - off];
      } else if off + |a| <= i < off + |a| + |b| {
        assert r[i] == (a + b)[i - off];
      }
    }
  }

  lemma PadSplice(s: seq<byte>, off: nat, data: seq<byte>, len: nat)
    requires off + |data| <= |s| <= len
    ensures Pad(Splice(s, off, data), len) == Splice(Pad(s, len), off, data)
  {
    var l := Pad(Splice(s, off, data), len);
    var r := Splice(Pad(s, len), off, data);
    forall i | 0 <= i < len ensures l[i] == r[i] {
      if i < |s| {
        assert l[i] == Splice(s, off, data)[i];
      }
    }
  }

  lemma PadPad(s: seq<byte>, m: nat, n: nat)
    requires |s| <= m <= n
    ensures Pad(Pad(s, m), n) == Pad(s, n)
  {
    var l := Pad(Pad(s, m), n);
    forall i | 0 <= i < n ensures l[i] == Pad(s, n)[i] {
      if i < m {
        assert l[i] == Pad(s, m)[i];
      }
    }
  }

  /** `expand(neededSize)` of the three buffers: keep the store when it is
      large enough, otherwise allocate the next power of two and copy the old
      bytes into its low end, the rest staying zero. */
  method Grow(a: array<byte>, needed: nat) returns (b: array<byte>)
    ensures b.Length == GrownLength(a.Length, needed)
    ensures b[..] == Pad(a[..], b.Length)
    ensures a.Length >= needed ==> b == a
    ensures b == a || fresh(b)
  {
    if a.Length >= needed {
      return a;
    }
    b := new byte[NextPowerOf2(needed)](_ => 0);
    var i := 0;
    while i < a.Length
      invariant 0 <= i <= a.Length
      invariant forall j :: 0 <= j < i ==> b[j] == a[j]
      invariant forall j :: i <= j < b.Length ==> b[j] == 0
    {
      b[i] := a[i];
      i := i + 1;
    }
    assert b[..] == Pad(a[..], b.Length);
  }

  /** `TypedArray.prototype.set(data, off)` on a store that has room. */
  method Put(a: array<byte>, off: nat, data: seq<byte>)
    requires off + |data| <= a.Length
    modifies a
    ensures a[..] == Splice(old(a[..]), off, data)
  {
    var i := 0;
    while i < |data|
      invariant 0 <= i <= |data|
      invariant forall j :: 0 <= j < a.Length && !(off <= j < off + i) ==> a[j] == old(a[j])
      invariant forall j :: off <= j < off + i ==> a[j] == data[j - off]
    {
      a[off + i] := data[i];
      i := i + 1;
    }
    assert a[..] == Splice(old(a[..]), off, data);
  }

  /** The `w` bytes that a DataView setter stores for `v`: `v` modulo 2^(8w),
      most significant byte first. */
  function BigEndian(v: int, w: nat): (r: seq<byte>)
    ensures |r| == w
    decreases w
  {
    if w == 0 then [] else BigEndian(v / 256, w - 1) + [v % 256]
  }

  /** The unsigned value a DataView getter reads from big-endian bytes. */
  function FromBigEndian(s: seq<byte>): (r: nat)
  {
    if s == [] then 0 else FromBigEndian(s[..|s| - 1]) * 256 + s[|s| - 1]
  }

  function Pow256(w: nat): (r: nat)
    ensures r >= 1
  {
    if w == 0 then 1 else 256 * Pow256(w - 1)
  }

  lemma {:induction false} FromBigEndianBound(s: seq<byte>)
    ensures FromBigEndian(s) < Pow256(|s|)
  {
    if s != [] {
      FromBigEndianBound(s[..|s| - 1]);
    }
  }

  /** Reading back what a setter stored yields the value reduced modulo
      2^(8w): unsigned DataView round trip. */
  lemma {:induction false} BigEndianRoundTrip(v: int, w: nat)
    ensures FromBigEndian(BigEndian(v, w)) == v % Pow256(w)
    decreases w
  {
    if w > 0 {
      var s := BigEndian(v, w);
      var p := Pow256(w - 1);
      assert s[..w - 1] == BigEndian(v / 256, w - 1);
      assert Pow256(w) == 256 * p;
      BigEndianRoundTrip(v / 256, w - 1);
      assert FromBigEndian(s) == (v / 256) % p * 256 + v % 256;
      DivMod256(v, p);
    }
  }

  lemma DivMod256(v: int, p: nat)
    requires p >= 1
    ensures (v / 256) % p * 256 + v % 256 == v % (256 * p)
    ensures v / 256 / p == v / (256 * p)
  {
    var q := v / 256;
    var r := v % 256;
    assert v == 256 * q + r;
    var q2 := q / p;
    var r2 := q % p;
    assert q == p * q2 + r2;
    assert v == (256 * p) * q2 + (256 * r2 + r);
    assert 0 <= 256 * r2 + r < 256 * p;
    ModUnique(v, 256 * p, q2, 256 * r2 + r);
  }

  lemma ModUnique(v: int, d: nat, q: int, r: int)
    requires d >= 1 && v == d * q + r && 0 <= r < d
    ensures v % d == r && v / d == q
  {
    var q0, r0 := v / d, v % d;
    assert d * (q - q0) == r0 - r;
    if q > q0 {
      MulAtLeast(d, q - q0);
    } else if q < q0 {
      MulAtLeast(d, q0 - q);
    }
  }

  /** The leading byte a setter stores is the value's top digit. */
  lemma {:induction false} BigEndianHead(v: nat, w: nat)
    requires 1 <= w && v < Pow256(w)
    ensures BigEndian(v, w)[0] == v / Pow256(w - 1)
    decreases w
  {
    if w > 1 {
      var p := Pow256(w - 2);
      assert Pow256(w) == 256 * (256 * p);
      assert BigEndian(v, w)[0] == BigEndian(v / 256, w - 1)[0];
      BigEndianHead(v / 256, w - 1);
      DivMod256(v, p);
    }
  }

  lemma MulAtLeast(d: nat, k: int)
    requires k >= 1
    ensures d * k >= d
  {
  }

  /** Two's-complement reading of a `w`-byte unsigned value, as the signed
      DataView getters return it: values from half of 2^(8w) up are
      negative. */
  function Signed(u: int, w: nat): (r: int)
    requires w >= 1
  {
    if u >= 128 * Pow256(w - 1) then u - Pow256(w) else u
  }

  /** A signed value stored modulo 2^(8w) and read back signed is unchanged. */
  lemma SignedRoundTrip(v: int, w: nat)
    requires w >= 1 && -128 * Pow256(w - 1) <= v < 128 * Pow256(w - 1)
    ensures Signed(v % Pow256(w), w) == v
  {
    var h := 128 * Pow256(w - 1);
    var p := Pow256(w);
    assert p == 2 * h;
    if v < 0 {
      ModUnique(v, p, -1, v + p);
    } else {
      ModUnique(v, p, 0, v);
    }
  }

  /** The integer kinds of a DataView (the float kinds are not modelled). */
  datatype NumType = U8 | U16 | U32 | I8 | I16 | I32

  /** Bytes a kind occupies. */
  function Width(t: NumType): (w: nat)
    ensures w == 1 || w == 2 || w == 4
  {
    match t
    case U8 => 1
    case I8 => 1
    case U16 => 2
    case I16 => 2
    case U32 => 4
    case I32 => 4
  }

  predicate IsSigned(t: NumType)
  {
    t.I8? || t.I16? || t.I32?
  }

  /** The values a kind holds without loss. */
  predicate InRange(t: NumType, v: int)
  {
    var p := Pow256(Width(t) - 1);
    if IsSigned(t) then -128 * p <= v < 128 * p else 0 <= v < 256 * p
  }

  /** `setUint8` ... `setInt32`: every setter stores the value modulo
      2^(8w), big-endian, the signed ones included. */
  function Store(t: NumType, v: int): (r: seq<byte>)
    ensures |r| == Width(t)
  {
    BigEndian(v, Width(t))
  }

  /** `getUint8` ... `getInt32` on the `Width(t)` bytes at the offset. */
  function Load(t: NumType, s: seq<byte>): int
    requires |s| == Width(t)
  {
    if IsSigned(t) then Signed(FromBigEndian(s), Width(t)) else FromBigEndian(s)
  }

  /** What a getter reads back after the matching setter: the value reduced
      modulo 2^(8w), then read as two's complement for the signed kinds. */
  lemma StoreLoadAny(t: NumType, v: int)
    ensures Load(t, Store(t, v)) ==
      if IsSigned(t) then Signed(v % Pow256(Width(t)), Width(t)) else v % Pow256(Width(t))
  {
    BigEndianRoundTrip(v, Width(t));
  }

  /** A value in the range of its kind reads back unchanged. */
  lemma StoreLoad(t: NumType, v: int)
    requires InRange(t, v)
    ensures Load(t, Store(t, v)) == v
  {
    var w := Width(t);
    StoreLoadAny(t, v);
    assert Pow256(w) == 256 * Pow256(w - 1);
    if IsSigned(t) {
      SignedRoundTrip(v, w);
    } else {
      ModUnique(v, Pow256(w), 0, v);
    }
  }

  /** `getUint8(off)` ... `getInt32(off)`: None where the DataView getter
      throws a RangeError. */
  function NumberAt(s: seq<byte>, off: int, t: NumType): (r: Option<int>)
    ensures r.Some? <==> 0 <= off && off + Width(t) <= |s|
  {
    if 0 <= off && off + Width(t) <= |s| then Some(Load(t, s[off..off + Width(t)])) else None
  }

  /** An index argument of `slice`, resolved against a length. */
  function SliceIndex(i: int, len: nat): (r: nat)
    ensures r <= len
  {
    if i < 0 then (if len + i < 0 then 0 else len + i) else if i < len then i else len
  }

  /** `Uint8Array.prototype.slice(start, end)`: negative indices count from
      the end, both are clamped, and an empty range gives no bytes. */
  function Slice(s: seq<byte>, start: int, end: int): (r: seq<byte>)
    ensures |r| <= |s|
  {
    var a, b := SliceIndex(start, |s|), SliceIndex(end, |s|);
    if a < b then s[a..b] else []
  }

  /** A slice inside the store is the subsequence. */
  lemma SliceInside(s: seq<byte>, start: nat, end: nat)
    requires start <= end <= |s|
    ensures Slice(s, start, end) == s[start..end]
  {
  }

  /** The store after `data` is written at `off` by a buffer that first
      grows itself to `off + |data|` bytes. */
  function WrittenAt(s: seq<byte>, off: nat, data: seq<byte>): (r: seq<byte>)
    ensures |r| == GrownLength(|s|, off + |data|)
  {
    Splice(Pad(s, GrownLength(|s|, off + |data|)), off, data)
  }

  /** Growing the store to `need = off + |data|` bytes and putting `data`
      at `off` is a write. */
  lemma GrowThenPut(s: seq<byte>, need: nat, grown: seq<byte>, off: nat, data: seq<byte>, put: seq<byte>)
    requires |grown| == GrownLength(|s|, need) && grown == Pad(s, |grown|)
    requires need == off + |data| && put == Splice(grown, off, data)
    ensures put == WrittenAt(s, off, data)
  {
  }

  /** Two writes, the second starting where the first ended, leave the store
      one write of both would. */
  lemma WrittenTwice(s: seq<byte>, off: nat, a: seq<byte>, b: seq<byte>)
    ensures WrittenAt(WrittenAt(s, off, a), off + |a|, b) == WrittenAt(s, off, a + b)
  {
    var g1 := GrownLength(|s|, off + |a|);
    var g2 := GrownLength(g1, off + |a| + |b|);
    GrownTwice(|s|, off + |a|, off + |a| + |b|);
    PadSplice(Pad(s, g1), off, a, g2);
    PadPad(s, g1, g2);
    SpliceTwice(Pad(s, g2), off, a, b);
  }

  /** A store written with `a` at `off` and then with `b` right after it
      holds what one write of `a + b` would leave. */
  lemma WrittenAfter(s: seq<byte>, off: nat, a: seq<byte>, s1: seq<byte>, at: nat, b: seq<byte>, s2: seq<byte>)
    requires s1 == WrittenAt(s, off, a) && at == off + |a| && s2 == WrittenAt(s1, at, b)
    ensures s2 == WrittenAt(s, off, a + b)
  {
    WrittenTwice(s, off, a, b);
  }

  /** Moving the head of the rest onto the end of the part done keeps their
      concatenation. */
  lemma MoveHead<T>(done: seq<T>, head: seq<T>, rest: seq<T>, whole: seq<T>)
    requires done + (head + rest) == whole
    ensures (done + head) + rest == whole
  {
    assert (done + head) + rest == done + (head + rest);
  }

  /** What a write leaves at its own offset is the data written. */
  lemma WrittenAtHolds(s: seq<byte>, off: nat, data: seq<byte>)
    ensures WrittenAt(s, off, data)[off..off + |data|] == data
  {
    SpliceAt(Pad(s, GrownLength(|s|, off + |data|)), off, data);
  }

  /** A write changes no byte outside its own range; bytes past the old end
      are the zeros of the growth. */
  lemma WrittenAtFrame(s: seq<byte>, off: nat, data: seq<byte>, i: nat)
    requires i < GrownLength(|s|, off + |data|) && !(off <= i < off + |data|)
    ensures WrittenAt(s, off, data)[i] == if i < |s| then s[i] else 0
  {
    PadAt(s, GrownLength(|s|, off + |data|));
    SpliceAt(Pad(s, GrownLength(|s|, off + |data|)), off, data);
  }

  /** The store holds `data` at `off`. */
  predicate At(s: seq<byte>, off: nat, data: seq<byte>)
  {
    off + |data| <= |s| && s[off..off + |data|] == data
  }

  lemma AtSplit(s: seq<byte>, off: nat, a: seq<byte>, b: seq<byte>)
    requires At(s, off, a + b)
    ensures At(s, off, a) && At(s, off + |a|, b)
  {
    assert s[off..off + |a|] == (a + b)[..|a|];
    assert s[off + |a|..off + |a| + |b|] == (a + b)[|a|..];
  }
}
