/** The bit-packed self-describing codec of src/binary-messagepack.ts:
    every value starts with a three-bit type tag; integers carry a two-bit
    byte count and a magnitude; strings, lists and maps carry their length
    as such an integer.  Fields are packed most significant bit first,
    across byte boundaries. */
module BitPack {
  import opened Bytes
  import opened Bits

  /** A value the writer accepts and the reader hands back.  Numbers are
      integers, strings are their UTF-8 bytes, and an object is its keys in
      `Object.keys` order with their values. */
  datatype Value =
    | Null
    | Num(n: int)
    | Bool(b: bool)
    | Str(bytes: seq<byte>)
    | List(items: seq<Value>)
    | Map(entries: seq<(seq<byte>, Value)>)

  /** The type tags of `typeMap`. */
  const UIntTag: nat := 0
  const IntTag: nat := 1
  const BoolTag: nat := 2
  const StrTag: nat := 3
  const ListTag: nat := 4
  const BigIntTag: nat := 5
  const MapTag: nat := 6
  const NullTag: nat := 7

  /** The tag `write` puts in front of a value. */
  function Tag(v: Value): (t: nat)
    ensures t < 8 && t != BigIntTag
  {
    match v
    case Null => NullTag
    case Num(n) => if n < 0 then IntTag else UIntTag
    case Bool(_) => BoolTag
    case Str(_) => StrTag
    case List(_) => ListTag
    case Map(_) => MapTag
  }

  /** `absInt`, imported from the repository index, which is not part of
      this model: the absolute value. */
  function AbsInt(x: int): (r: nat)
    ensures r == x || r == -x
  {
    if x < 0 then -x else x
  }

  /** The magnitude `writeInt` stores: `n |= 0` wraps to 32 bits, and a
      negative value is stored as |n| - 1. */
  function Magnitude(n: int): (r: nat)
    ensures r < 0x8000_0000
  {
    var m := Int32(n);
    if m < 0 then AbsInt(m) - 1 else m
  }

  /** `getNumByteSize`: how many bytes the magnitude takes. */
  function NumByteSize(n: nat): (r: nat)
    ensures 1 <= r <= 4
    ensures n < 0x1_0000_0000 ==> n < Pow2(8 * r)
    ensures r > 1 ==> n >= Pow2(8 * (r - 1))
  {
    Pow2Words();
    if n < 0x100 then 1 else if n < 0x1_0000 then 2 else if n < 0x100_0000 then 3 else 4
  }

  /** The bits `writeInt` emits for `n`: the byte count less one in two
      bits, then the magnitude in that many bytes. */
  function IntBits(n: int): (r: seq<bool>)
  {
    var mag := Magnitude(n);
    var size := NumByteSize(mag);
    ToBits(size - 1, 2) + ToBits(mag, 8 * size)
  }

  /** The bits `write(v)` emits: the tag, then the body. */
  function Encode(v: Value): (r: seq<bool>)
    decreases v, 1
  {
    ToBits(Tag(v), 3) + Body(v)
  }

  function Body(v: Value): (r: seq<bool>)
    decreases v, 0
  {
    match v
    case Null => []
    case Num(n) => IntBits(n)
    case Bool(b) => ToBits(if b then 1 else 0, 1)
    case Str(bytes) => IntBits(|bytes|) + BitsOf(bytes)
    case List(items) => IntBits(|items|) + EncodeItems(v, 0)
    case Map(entries) => IntBits(|entries|) + EncodeEntries(v, 0)
  }

  /** The items of a list from index `i` on. */
  function EncodeItems(v: Value, i: nat): (r: seq<bool>)
    requires v.List? && i <= |v.items|
    decreases v, 0, |v.items| - i
  {
    if i == |v.items| then [] else EncodeItem(v, i) + EncodeItems(v, i + 1)
  }

  function EncodeItem(v: Value, i: nat): (r: seq<bool>)
    requires v.List? && i < |v.items|
    decreases v, 0, 0
  {
    Encode(v.items[i])
  }

  /** The entries of a map from index `i` on: each key as a string, then
      its value. */
  function EncodeEntries(v: Value, i: nat): (r: seq<bool>)
    requires v.Map? && i <= |v.entries|
    decreases v, 0, |v.entries| - i
  {
    if i == |v.entries| then [] else EncodeEntry(v, i) + EncodeEntries(v, i + 1)
  }

  function EncodeEntry(v: Value, i: nat): (r: seq<bool>)
    requires v.Map? && i < |v.entries|
    decreases v, 0, 0
  {
    var key := v.entries[i].0;
    IntBits(|key|) + BitsOf(key) + Encode(v.entries[i].1)
  }

  /** A value the codec can carry: numbers within 32 bits, lengths below
      2^31, and map keys distinct, as `Object.keys` yields them. */
  predicate WellFormed(v: Value)
    decreases v
  {
    match v
    case Num(n) => -0x8000_0000 <= n < 0x8000_0000
    case Str(bytes) => |bytes| < 0x8000_0000
    case List(items) => |items| < 0x8000_0000 && forall i :: 0 <= i < |items| ==> WellFormed(items[i])
    case Map(entries) =>
      |entries| < 0x8000_0000 &&
      (forall i :: 0 <= i < |entries| ==> |entries[i].0| < 0x8000_0000 && WellFormed(entries[i].1)) &&
      (forall i, j :: 0 <= i < j < |entries| ==> entries[i].0 != entries[j].0)
    case _ => true
  }

  // ---------------------------------------------------------------------
  // Reading

  /** The bit the reader sees at stream position `i`: past the end of the
      array it reads `undefined`, which the shift and mask turn into 0. */
  predicate BitAt(s: seq<bool>, i: nat)
  {
    i < |s| && s[i]
  }

  /** The `m` bits from position `p`. */
  function Window(s: seq<bool>, p: nat, m: nat): (r: seq<bool>)
    ensures |r| == m
  {
    seq(m, k requires 0 <= k < m => BitAt(s, p + k))
  }

  /** `readPartial(m)` at position `p`: the bits as a number, reduced to 32
      bits by the accumulator's shifts. */
  function ReadBits(s: seq<bool>, p: nat, m: nat): (r: int)
    ensures m < 32 ==> r >= 0
    ensures m <= 8 ==> r < 256
  {
    SmallBits(Window(s, p, m));
    Int32(FromBits(Window(s, p, m)))
  }

  lemma SmallBits(bs: seq<bool>)
    ensures |bs| < 32 ==> Int32(FromBits(bs)) == FromBits(bs)
    ensures |bs| <= 8 ==> FromBits(bs) < 256
  {
    Pow2Words();
    if |bs| < 8 {
      Pow2Grows(|bs|, 8);
    }
    if |bs| < 32 {
      if |bs| < 31 {
        Pow2Grows(|bs|, 31);
      }
      Int32Small(FromBits(bs));
    }
  }

  /** Past the end of the array every bit reads as clear. */
  lemma PastEnd(s: seq<bool>, p: nat, m: nat)
    requires p >= |s|
    ensures ReadBits(s, p, m) == 0
  {
    forall k | 0 <= k < m
      ensures Window(s, p, m)[k] == NoBits(m)[k]
    {
      assert !BitAt(s, p + k);
    }
    assert Window(s, p, m) == NoBits(m);
    ToBitsZero(m);
    FromToBits(0, m);
    Int32Small(0);
  }

  /** The number of items a length field announces: a loop `i < length`
      runs no times for a negative length. */
  function Count(length: int): (r: nat)
  {
    if length < 0 then 0 else length
  }

  /** `readInt(negative)` at `p`: the value and the position after it. */
  function ReadInt(s: seq<bool>, p: nat, negative: bool): (r: (int, nat))
    ensures r.1 > p
  {
    var size := ReadBits(s, p, 2) + 1;
    var n := ReadBits(s, p + 2, 8 * size) + (if negative then 1 else 0);
    (if negative then -n else n, p + 2 + 8 * size)
  }

  /** `readString` at `p`: its bytes and the position after them, or
      nothing when the length is negative and `new Uint8Array` throws. */
  function ReadString(s: seq<bool>, p: nat): (r: Option<(seq<byte>, nat)>)
    ensures r.Some? ==> r.value.1 > p
  {
    var (size, q) := ReadInt(s, p, false);
    if size < 0 then None
    else Some((ReadBytes(s, q, size), q + 8 * size))
  }

  /** The loop of `readString`: `count` bytes of eight bits each from `q`. */
  function ReadBytes(s: seq<bool>, q: nat, count: nat): (r: seq<byte>)
    ensures |r| == count
  {
    seq(count, i requires 0 <= i < count => ReadBits(s, q + 8 * i, 8) as byte)
  }

  /** How many bits are left before the end of the array. */
  function Room(s: seq<bool>, p: nat): nat
  {
    if p < |s| then |s| - p else 0
  }

  /** `readNext` at `p`: the value and the position after it, or nothing
      when a string inside has a negative length. */
  function DecodeNext(s: seq<bool>, p: nat): (r: Option<(Value, nat)>)
    ensures r.Some? ==> r.value.1 > p
    decreases Room(s, p), 2
  {
    var tag := ReadBits(s, p, 3);
    var q := p + 3;
    if tag == NullTag then Some((Null, q))
    else if tag == UIntTag || tag == IntTag then
      var (n, q') := ReadInt(s, q, tag == IntTag);
      Some((Num(n), q'))
    else if tag == BoolTag then Some((Bool(ReadBits(s, q, 1) > 0), q + 1))
    else if tag == StrTag then
      match ReadString(s, q)
      case None => None
      case Some((bytes, q')) => Some((Str(bytes), q'))
    else if tag == ListTag then
      PastEndTag(s, p);
      var (length, q') := ReadInt(s, q, false);
      DecodeItems(s, q', Count(length), [], Room(s, p))
    else if tag == MapTag then
      PastEndTag(s, p);
      var (length, q') := ReadInt(s, q, false);
      DecodeEntries(s, q', Count(length), [], Room(s, p))
    else Some((Num(0), q))
  }

  /** The loop of `readList` from position `q` with `count` items to go
      and `acc` read so far. */
  function DecodeItems(s: seq<bool>, q: nat, count: nat, acc: seq<Value>, bound: nat): (r: Option<(Value, nat)>)
    requires Room(s, q) < bound
    ensures r.Some? ==> r.value.1 >= q
    decreases bound, 1, count
  {
    if count == 0 then Some((List(acc), q))
    else
      match DecodeNext(s, q)
      case None => None
      case Some((x, q')) => DecodeItems(s, q', count - 1, acc + [x], bound)
  }

  /** `r[k] = v` on a plain object: an existing key keeps its place and
      takes the new value, a new key goes last. */
  function Assign(entries: seq<(seq<byte>, Value)>, key: seq<byte>, x: Value): (r: seq<(seq<byte>, Value)>)
  {
    if entries == [] then [(key, x)]
    else if entries[0].0 == key then [(key, x)] + entries[1..]
    else [entries[0]] + Assign(entries[1..], key, x)
  }

  /** The loop of `readMap`: a key string, then its value, `count` times. */
  function DecodeEntries(s: seq<bool>, q: nat, count: nat, acc: seq<(seq<byte>, Value)>, bound: nat): (r: Option<(Value, nat)>)
    requires Room(s, q) < bound
    ensures r.Some? ==> r.value.1 >= q
    decreases bound, 1, count
  {
    if count == 0 then Some((Map(acc), q))
    else
      match ReadString(s, q)
      case None => None
      case Some((key, q1)) =>
        match DecodeNext(s, q1)
        case None => None
        case Some((x, q2)) => DecodeEntries(s, q2, count - 1, Assign(acc, key, x), bound)
  }

  // ---------------------------------------------------------------------
  // The reader undoes the encoding

  /** The bits from position `p` are `t`. */
  predicate Spells(s: seq<bool>, p: nat, t: seq<bool>)
  {
    Window(s, p, |t|) == t
  }

  /** A window inside a window. */
  lemma WindowSlice(s: seq<bool>, p: nat, m: nat, i: nat, k: nat)
    requires i + k <= m
    ensures Window(s, p + i, k) == Window(s, p, m)[i..i + k]
  {
  }

  /** The bits of a concatenation are the bits of its parts, one after
      the other. */
  lemma WindowParts(s: seq<bool>, p: nat, x: seq<bool>, y: seq<bool>)
    requires Spells(s, p, x + y)
    ensures Spells(s, p, x) && Spells(s, p + |x|, y)
  {
    WindowSlice(s, p, |x + y|, 0, |x|);
    WindowSlice(s, p, |x + y|, |x|, |y|);
  }

  /** A field of `m` bits written from `x` reads back as `x`. */
  lemma ReadBack(s: seq<bool>, p: nat, m: nat, x: nat)
    requires m <= 32 && x < Pow2(m) && x < 0x8000_0000
    requires Spells(s, p, ToBits(x, m))
    ensures ReadBits(s, p, m) == x
  {
    FromToBits(x, m);
    ModUnique(x, Pow2(m), 0, x);
    Int32Small(x);
  }

  /** The magnitude of a 32-bit integer fits in 31 bits and determines it
      together with the sign. */
  lemma MagnitudeBound(n: int)
    requires -0x8000_0000 <= n < 0x8000_0000
    ensures Magnitude(n) < 0x8000_0000
    ensures n < 0 ==> n == -(Magnitude(n) + 1)
    ensures n >= 0 ==> n == Magnitude(n)
  {
    Int32Small(n);
  }

  /** `readInt` undoes `writeInt` for every 32-bit integer whose sign the
      tag records. */
  lemma ReadIntBack(s: seq<bool>, p: nat, n: int)
    requires -0x8000_0000 <= n < 0x8000_0000
    requires Spells(s, p, IntBits(n))
    ensures ReadInt(s, p, n < 0) == (n, p + |IntBits(n)|)
  {
    var mag := Magnitude(n);
    var size := NumByteSize(mag);
    MagnitudeBound(n);
    WindowParts(s, p, ToBits(size - 1, 2), ToBits(mag, 8 * size));
    assert Pow2(2) == 4;
    ReadBack(s, p, 2, size - 1);
    ReadBack(s, p + 2, 8 * size, mag);
    assert |IntBits(n)| == 2 + 8 * size;
    if n < 0 {
      assert ReadInt(s, p, true).0 == -(ReadBits(s, p + 2, 8 * size) + 1);
    } else {
      assert ReadInt(s, p, false).0 == ReadBits(s, p + 2, 8 * size);
    }
  }

  /** Byte `i` of a written run reads back from its eight bits. */
  lemma ReadByteBack(s: seq<bool>, q: nat, bytes: seq<byte>, i: nat)
    requires i < |bytes|
    requires Spells(s, q, BitsOf(bytes))
    ensures ReadBits(s, q + 8 * i, 8) == bytes[i]
  {
    BitsOfByte(bytes, i);
    WindowSlice(s, q, |BitsOf(bytes)|, 8 * i, 8);
    assert Pow2(8) == 256;
    ReadBack(s, q + 8 * i, 8, bytes[i]);
  }

  /** `readString` undoes `writeString`. */
  lemma ReadStringBack(s: seq<bool>, p: nat, bytes: seq<byte>)
    requires |bytes| < 0x8000_0000
    requires Spells(s, p, IntBits(|bytes|) + BitsOf(bytes))
    ensures ReadString(s, p) == Some((bytes, p + |IntBits(|bytes|) + BitsOf(bytes)|))
  {
    hide Spells, Window, ReadInt, ReadBytes, ReadBits, ToBits, BitsOf, IntBits;
    WindowParts(s, p, IntBits(|bytes|), BitsOf(bytes));
    ReadIntBack(s, p, |bytes|);
    ReadBytesBack(s, p + |IntBits(|bytes|)|, bytes);
  }

  /** The bytes a run of whole bytes was written from read back. */
  lemma ReadBytesBack(s: seq<bool>, q: nat, bytes: seq<byte>)
    requires Spells(s, q, BitsOf(bytes))
    ensures ReadBytes(s, q, |bytes|) == bytes
  {
    forall i | 0 <= i < |bytes|
      ensures ReadBytes(s, q, |bytes|)[i] == bytes[i]
    {
      ReadByteBack(s, q, bytes, i);
    }
  }

  /** A key new to the object goes last. */
  lemma {:induction false} AssignFresh(entries: seq<(seq<byte>, Value)>, key: seq<byte>, x: Value)
    requires forall j :: 0 <= j < |entries| ==> entries[j].0 != key
    ensures Assign(entries, key, x) == entries + [(key, x)]
  {
    if entries != [] {
      AssignFresh(entries[1..], key, x);
    }
  }

  /** `readNext` undoes `write`: the bits `write(v)` emits, wherever they
      sit in the array, decode to `v` and end where they end. */
  lemma {:induction false} DecodeEncode(s: seq<bool>, p: nat, v: Value)
    requires WellFormed(v)
    requires Spells(s, p, Encode(v))
    ensures DecodeNext(s, p) == Some((v, p + |Encode(v)|))
    decreases v, 1
  {
    hide Spells, Window, DecodeNext, Body, IntBits, BitsOf, ReadBits, ReadInt, ReadString;
    WindowParts(s, p, ToBits(Tag(v), 3), Body(v));
    assert Pow2(3) == 8;
    ReadBack(s, p, 3, Tag(v));
    DecodeBodyBack(s, p, v);
  }

  /** Once the tag is read, the body decodes case by case. */
  lemma {:induction false} DecodeBodyBack(s: seq<bool>, p: nat, v: Value)
    requires WellFormed(v)
    requires ReadBits(s, p, 3) == Tag(v)
    requires Spells(s, p + 3, Body(v))
    ensures DecodeNext(s, p) == Some((v, p + 3 + |Body(v)|))
    decreases v, 0, 3
  {
    hide Spells, Window, Encode, ToBits, BitsOf, EncodeItems, EncodeEntries, DecodeItems, DecodeEntries, ReadBytes;
    match v
    case Null =>
    case Num(n) =>
      hide ReadString, ReadBits;
      ReadIntBack(s, p + 3, n);
      assert ReadInt(s, p + 3, n < 0) == (n, p + 3 + |IntBits(n)|);
    case Bool(b) =>
      assert Pow2(1) == 2;
      ReadBack(s, p + 3, 1, if b then 1 else 0);
    case Str(bytes) =>
      hide ReadString, ReadInt, IntBits;
      ReadStringBack(s, p + 3, bytes);
    case List(_) =>
      hide DecodeNext, Body;
      DecodeListBack(s, p, v);
    case Map(_) =>
      hide DecodeNext, Body;
      DecodeMapBack(s, p, v);
  }

  lemma {:induction false} DecodeListBack(s: seq<bool>, p: nat, v: Value)
    requires v.List? && WellFormed(v)
    requires ReadBits(s, p, 3) == ListTag
    requires Spells(s, p + 3, Body(v))
    ensures DecodeNext(s, p) == Some((v, p + 3 + |Body(v)|))
    decreases v, 0, 2
  {
    var q, e := ListParts(s, p, v);
    DecodeListStep(s, p, |v.items|, q, Some((v, e)));
  }

  /** The list's length field and items, read back after its tag. */
  lemma {:induction false} ListParts(s: seq<bool>, p: nat, v: Value) returns (q: nat, e: nat)
    requires v.List? && WellFormed(v)
    requires ReadBits(s, p, 3) == ListTag
    requires Spells(s, p + 3, Body(v))
    ensures ReadInt(s, p + 3, false) == (|v.items|, q)
    ensures Room(s, q) < Room(s, p)
    ensures DecodeItems(s, q, |v.items|, [], Room(s, p)) == Some((v, e))
    ensures e == p + 3 + |Body(v)|
    decreases v, 0, 1
  {
    hide Spells, Window, DecodeNext, DecodeItems, EncodeItems, EncodeItem, Encode, IntBits, ToBits, BitsOf, ReadBits, ReadInt, ReadString;
    var lengthBits := IntBits(|v.items|);
    assert Body(v) == lengthBits + EncodeItems(v, 0);
    WindowParts(s, p + 3, lengthBits, EncodeItems(v, 0));
    ReadIntBack(s, p + 3, |v.items|);
    q := p + 3 + |lengthBits|;
    e := q + |EncodeItems(v, 0)|;
    PastEndTag(s, p);
    assert v.items[..0] == [];
    DecodeItemsBack(s, q, v, 0, Room(s, p));
  }

  /** `readNext` after a list tag: the length, then the items. */
  lemma DecodeListStep(s: seq<bool>, p: nat, n: nat, q: nat, r: Option<(Value, nat)>)
    requires ReadBits(s, p, 3) == ListTag
    requires ReadInt(s, p + 3, false) == (n, q)
    requires Room(s, q) < Room(s, p)
    requires DecodeItems(s, q, n, [], Room(s, p)) == r
    ensures DecodeNext(s, p) == r
  {
  }

  lemma {:induction false} DecodeMapBack(s: seq<bool>, p: nat, v: Value)
    requires v.Map? && WellFormed(v)
    requires ReadBits(s, p, 3) == MapTag
    requires Spells(s, p + 3, Body(v))
    ensures DecodeNext(s, p) == Some((v, p + 3 + |Body(v)|))
    decreases v, 0, 2
  {
    var q, e := MapParts(s, p, v);
    DecodeMapStep(s, p, |v.entries|, q, Some((v, e)));
  }

  /** The map's length field and entries, read back after its tag. */
  lemma {:induction false} MapParts(s: seq<bool>, p: nat, v: Value) returns (q: nat, e: nat)
    requires v.Map? && WellFormed(v)
    requires ReadBits(s, p, 3) == MapTag
    requires Spells(s, p + 3, Body(v))
    ensures ReadInt(s, p + 3, false) == (|v.entries|, q)
    ensures Room(s, q) < Room(s, p)
    ensures DecodeEntries(s, q, |v.entries|, [], Room(s, p)) == Some((v, e))
    ensures e == p + 3 + |Body(v)|
    decreases v, 0, 1
  {
    hide Spells, Window, DecodeNext, DecodeEntries, EncodeEntries, EncodeEntry, Encode, IntBits, ToBits, BitsOf, ReadBits, ReadInt, ReadString;
    var lengthBits := IntBits(|v.entries|);
    assert Body(v) == lengthBits + EncodeEntries(v, 0);
    WindowParts(s, p + 3, lengthBits, EncodeEntries(v, 0));
    ReadIntBack(s, p + 3, |v.entries|);
    q := p + 3 + |lengthBits|;
    e := q + |EncodeEntries(v, 0)|;
    PastEndTag(s, p);
    assert v.entries[..0] == [];
    DecodeEntriesBack(s, q, v, 0, Room(s, p));
  }

  /** `readNext` after a map tag: the length, then the entries. */
  lemma DecodeMapStep(s: seq<bool>, p: nat, n: nat, q: nat, r: Option<(Value, nat)>)
    requires ReadBits(s, p, 3) == MapTag
    requires ReadInt(s, p + 3, false) == (n, q)
    requires Room(s, q) < Room(s, p)
    requires DecodeEntries(s, q, n, [], Room(s, p)) == r
    ensures DecodeNext(s, p) == r
  {
  }

  /** A tag other than 0 was read from inside the array, so the reader
      has moved closer to its end. */
  lemma PastEndTag(s: seq<bool>, p: nat)
    ensures ReadBits(s, p, 3) != 0 ==> Room(s, p + 3) < Room(s, p)
  {
    if p >= |s| {
      PastEnd(s, p, 3);
    }
  }

  lemma {:induction false} DecodeItemsBack(s: seq<bool>, q: nat, v: Value, i: nat, bound: nat)
    requires v.List? && WellFormed(v) && i <= |v.items|
    requires Room(s, q) < bound
    requires Spells(s, q, EncodeItems(v, i))
    ensures DecodeItems(s, q, |v.items| - i, v.items[..i], bound) == Some((v, q + |EncodeItems(v, i)|))
    decreases v, 0, 0, |v.items| - i
  {
    hide Spells, Window, DecodeNext, ReadString, EncodeItem, Encode, Body, IntBits, ToBits, BitsOf, ReadBits, ReadInt;
    if i == |v.items| {
      assert v.items[..i] == v.items;
    } else {
      assert EncodeItems(v, i) == EncodeItem(v, i) + EncodeItems(v, i + 1);
      WindowParts(s, q, EncodeItem(v, i), EncodeItems(v, i + 1));
      var q' := ItemBack(s, q, v, i);
      ItemsStep(s, q, |v.items| - i, v.items[..i], bound, v.items[i], q');
      Snoc(v.items, i);
      DecodeItemsBack(s, q', v, i + 1, bound);
    }
  }

  /** One item of a list reads back. */
  lemma {:induction false} ItemBack(s: seq<bool>, q: nat, v: Value, i: nat) returns (q': nat)
    requires v.List? && WellFormed(v) && i < |v.items|
    requires Spells(s, q, EncodeItem(v, i))
    ensures DecodeNext(s, q) == Some((v.items[i], q'))
    ensures q' == q + |EncodeItem(v, i)|
    decreases v, 0, 0, 0
  {
    hide Spells, Window, DecodeNext, Body, IntBits, ToBits, BitsOf, ReadBits, ReadInt, ReadString;
    ItemWellFormed(v, i);
    DecodeEncode(s, q, v.items[i]);
    q' := q + |Encode(v.items[i])|;
  }

  /** One turn of the `readList` loop. */
  lemma ItemsStep(s: seq<bool>, q: nat, n: nat, acc: seq<Value>, bound: nat, x: Value, q': nat)
    requires n > 0 && Room(s, q) < bound
    requires DecodeNext(s, q) == Some((x, q'))
    ensures Room(s, q') < bound
    ensures DecodeItems(s, q, n, acc, bound) == DecodeItems(s, q', n - 1, acc + [x], bound)
  {
  }

  lemma ItemWellFormed(v: Value, i: nat)
    requires v.List? && WellFormed(v) && i < |v.items|
    ensures WellFormed(v.items[i])
  {
  }

  lemma EntryWellFormed(v: Value, i: nat)
    requires v.Map? && WellFormed(v) && i < |v.entries|
    ensures |v.entries[i].0| < 0x8000_0000 && WellFormed(v.entries[i].1)
    ensures forall j :: 0 <= j < i ==> v.entries[j].0 != v.entries[i].0
  {
  }

  /** Extending a prefix by the next element. */
  lemma Snoc<T>(s: seq<T>, i: nat)
    requires i < |s|
    ensures s[..i] + [s[i]] == s[..i + 1]
  {
  }

  lemma {:induction false} DecodeEntriesBack(s: seq<bool>, q: nat, v: Value, i: nat, bound: nat)
    requires v.Map? && WellFormed(v) && i <= |v.entries|
    requires Room(s, q) < bound
    requires Spells(s, q, EncodeEntries(v, i))
    ensures DecodeEntries(s, q, |v.entries| - i, v.entries[..i], bound) == Some((v, q + |EncodeEntries(v, i)|))
    decreases v, 0, 0, |v.entries| - i
  {
    hide Spells, Window, DecodeNext, ReadString, EncodeEntry, Encode, Body, IntBits, ToBits, BitsOf, ReadBits, ReadInt;
    if i == |v.entries| {
      assert v.entries[..i] == v.entries;
    } else {
      assert EncodeEntries(v, i) == EncodeEntry(v, i) + EncodeEntries(v, i + 1);
      WindowParts(s, q, EncodeEntry(v, i), EncodeEntries(v, i + 1));
      var q1, q2 := EntryBack(s, q, v, i);
      EntriesStep(s, q, |v.entries| - i, v.entries[..i], bound, v.entries[i].0, q1, v.entries[i].1, q2);
      EntryWellFormed(v, i);
      AssignFresh(v.entries[..i], v.entries[i].0, v.entries[i].1);
      Snoc(v.entries, i);
      DecodeEntriesBack(s, q2, v, i + 1, bound);
    }
  }

  /** One entry of a map reads back: its key, then its value. */
  lemma {:induction false} EntryBack(s: seq<bool>, q: nat, v: Value, i: nat) returns (q1: nat, q2: nat)
    requires v.Map? && WellFormed(v) && i < |v.entries|
    requires Spells(s, q, EncodeEntry(v, i))
    ensures ReadString(s, q) == Some((v.entries[i].0, q1))
    ensures DecodeNext(s, q1) == Some((v.entries[i].1, q2))
    ensures q2 == q + |EncodeEntry(v, i)|
    decreases v, 0, 0, 0
  {
    hide Spells, Window, DecodeNext, Body, ToBits, BitsOf, ReadBits, ReadInt, ReadString;
    var key := v.entries[i].0;
    var keyBits := IntBits(|key|) + BitsOf(key);
    EntryWellFormed(v, i);
    WindowParts(s, q, keyBits, Encode(v.entries[i].1));
    ReadStringBack(s, q, key);
    q1 := q + |keyBits|;
    DecodeEncode(s, q1, v.entries[i].1);
    q2 := q1 + |Encode(v.entries[i].1)|;
  }

  /** One turn of the `readMap` loop. */
  lemma EntriesStep(s: seq<bool>, q: nat, n: nat, acc: seq<(seq<byte>, Value)>, bound: nat,
                    key: seq<byte>, q1: nat, x: Value, q2: nat)
    requires n > 0 && Room(s, q) < bound
    requires ReadString(s, q) == Some((key, q1))
    requires DecodeNext(s, q1) == Some((x, q2))
    ensures Room(s, q2) < bound
    ensures DecodeEntries(s, q, n, acc, bound) == DecodeEntries(s, q2, n - 1, Assign(acc, key, x), bound)
  {
  }

  // ---------------------------------------------------------------------
  // Tags and numbers outside the round trip

  /** Tag 5 (`bigint`) has no case in `readNext`: it yields 0 and the
      reader moves on past the tag alone. */
  lemma BigIntTagReadsZero(s: seq<bool>, p: nat)
    requires Spells(s, p, ToBits(BigIntTag, 3))
    ensures DecodeNext(s, p) == Some((Num(0), p + 3))
  {
    assert Pow2(3) == 8;
    ReadBack(s, p, 3, BigIntTag);
  }

  /** A stream read from its start spells itself. */
  lemma SpellsWhole(s: seq<bool>)
    ensures Spells(s, 0, s)
  {
    forall k | 0 <= k < |s|
      ensures Window(s, 0, |s|)[k] == s[k]
    {
      assert BitAt(s, k) == s[k];
    }
  }

  /** A number from 2^31 up to 2^32 gets the unsigned tag, but `n |= 0`
      turns it negative and `writeInt` stores |n| - 1: it is written as,
      and read back as, 2^32 - 1 - n. */
  lemma LargeNumberWraps(n: int)
    requires 0x8000_0000 <= n < 0x1_0000_0000
    ensures Encode(Num(n)) == Encode(Num(0xFFFF_FFFF - n))
    ensures DecodeNext(Encode(Num(n)), 0) == Some((Num(0xFFFF_FFFF - n), |Encode(Num(n))|))
  {
    var m := 0xFFFF_FFFF - n;
    Int32Period(n, -1);
    Int32Small(n - 0x1_0000_0000);
    Int32Small(m);
    assert Magnitude(n) == m == Magnitude(m);
    assert IntBits(n) == IntBits(m);
    assert Body(Num(n)) == Body(Num(m));
    SpellsWhole(Encode(Num(m)));
    DecodeEncode(Encode(Num(m)), 0, Num(m));
  }
}
