/** The schema codec of src/binary-message.ts: a value is written against a
    type descriptor, with no type information in the bytes.  Scalars go
    through a big-endian DataView; strings, lists and objects are preceded by
    a 1-, 2- or 4-byte size tag whose top three bits give its own width.

    Descriptors are a datatype.  The repository builds recursive descriptors
    with getters that return the descriptor object itself (`get mentor() {
    return this; }`); here such a getter is a `Ref` to an entry of a finite
    arena of descriptors.  Writing is imperative, on a growable `BBuffer`;
    reading only looks at the bytes and is a family of functions. */
module SchemaCodec {
  import opened Bytes

  // ---------------------------------------------------------------------
  // Descriptors and values

  /** The integer and boolean tags of `BType`, and `str`. */
  datatype Scalar = NumKind(kind: NumType) | BoolKind | StrKind

  /** A type descriptor: a scalar tag, a one-element array `[T]` for a list
      of `T`, a key-to-descriptor object, or a getter returning the arena
      entry `id`. */
  datatype Desc =
    | Leaf(scalar: Scalar)
    | ListOf(elem: Desc)
    | Object(fields: seq<(string, Desc)>)
    | Ref(id: nat)

  /** The values the codec handles; strings are their bytes. */
  datatype Value =
    | Int(n: int)
    | Bool(b: bool)
    | Str(bytes: seq<byte>)
    | List(items: seq<Value>)
    | Obj(entries: map<string, Value>)
    | Null

  /** The descriptor a node stands for.  A reference whose target is missing
      or is itself a reference stays unresolved; no value matches it. */
  function Resolve(d: Desc, arena: seq<Desc>): (r: Desc)
    ensures r.Ref? ==> r == d
    ensures d.Ref? && d.id < |arena| && !arena[d.id].Ref? ==> r == arena[d.id]
    ensures !d.Ref? ==> r == d
  {
    if d.Ref? && d.id < |arena| && !arena[d.id].Ref? then arena[d.id] else d
  }

  /** The keys of the first `k` fields of an object descriptor. */
  function KeysBefore(fs: seq<(string, Desc)>, k: nat): set<string>
    requires k <= |fs|
  {
    set j | 0 <= j < k :: fs[j].0
  }

  /** `v` has the shape `d` asks for, so that serializing it takes no
      JavaScript coercion: a number for an integer tag, a boolean for
      `bool`, a string for `str`, a list for `[T]`, and `null` or an object
      with every key of the descriptor for an object descriptor. */
  predicate Matches(v: Value, d: Desc, arena: seq<Desc>)
    decreases v, 1
  {
    match Resolve(d, arena)
    case Leaf(b) => ScalarMatches(b, v)
    case ListOf(e) => v.List? && ItemsMatch(v, e, arena)
    case Object(fs) => v.Null? || (v.Obj? && FieldsMatch(v, fs, arena))
    case Ref(_) => false
  }

  predicate ScalarMatches(b: Scalar, v: Value)
  {
    match b
    case NumKind(_) => v.Int?
    case BoolKind => v.Bool?
    case StrKind => v.Str?
  }

  predicate ItemsMatch(v: Value, e: Desc, arena: seq<Desc>)
    requires v.List?
    decreases v, 0
  {
    forall i :: 0 <= i < |v.items| ==> Matches(v.items[i], e, arena)
  }

  predicate FieldsMatch(v: Value, fs: seq<(string, Desc)>, arena: seq<Desc>)
    requires v.Obj?
    decreases v, 0
  {
    forall k :: 0 <= k < |fs| ==>
      fs[k].0 in v.entries && Matches(v.entries[fs[k].0], fs[k].1, arena)
  }

  /** Sizes the tag carries without loss: 29 bits. */
  const SizeLimit: nat := 0x2000_0000

  /** `v` matches `d` and comes back unchanged from the bytes. */
  predicate Exact(v: Value, d: Desc, arena: seq<Desc>)
  {
    Matches(v, d, arena) && Fits(v, d, arena)
  }

  /** The bounds of a lossless round trip: integers in the range of their
      kind, sizes below `SizeLimit`, objects with exactly the descriptor's
      keys and at least one of them (a count of 0 reads as `null`). */
  predicate Fits(v: Value, d: Desc, arena: seq<Desc>)
    decreases v, 2
  {
    match Resolve(d, arena)
    case Leaf(b) => ScalarFits(b, v)
    case ListOf(e) => v.List? ==> ItemsFit(v, e, arena)
    case Object(fs) => v.Obj? ==> FieldsFit(v, fs, arena)
    case Ref(_) => true
  }

  predicate ScalarFits(b: Scalar, v: Value)
  {
    match b
    case NumKind(t) => v.Int? ==> InRange(t, v.n)
    case BoolKind => true
    case StrKind => v.Str? ==> |v.bytes| < SizeLimit
  }

  predicate ItemsFit(v: Value, e: Desc, arena: seq<Desc>)
    requires v.List?
    decreases v, 0
  {
    |v.items| < SizeLimit && forall i :: 0 <= i < |v.items| ==> Fits(v.items[i], e, arena)
  }

  predicate FieldsFit(v: Value, fs: seq<(string, Desc)>, arena: seq<Desc>)
    requires v.Obj?
    decreases v, 1
  {
    0 < |fs| < SizeLimit && v.entries.Keys == KeysBefore(fs, |fs|) && ValuesFit(v, fs, arena)
  }

  predicate ValuesFit(v: Value, fs: seq<(string, Desc)>, arena: seq<Desc>)
    requires v.Obj?
    decreases v, 0
  {
    forall k :: 0 <= k < |fs| && fs[k].0 in v.entries ==> Fits(v.entries[fs[k].0], fs[k].1, arena)
  }

  // ---------------------------------------------------------------------
  // The size tag

  /** `writeSize(size)`: below 32 one byte holding (1 << 5) | size, below
      8192 two bytes holding (2 << 13) | size, otherwise four bytes holding
      (4 << 29) | size, that is bit 31 over the low 31 bits of the size.  The
      first two ors add, since the size lies below the tag bit. */
  function SizeTag(size: nat): (r: seq<byte>)
    ensures |r| == Width(TagKind(size))
  {
    Store(TagKind(size), TagValue(size))
  }

  /** The setter `writeSize` calls. */
  function TagKind(size: nat): (t: NumType)
    ensures t == U8 || t == U16 || t == U32
  {
    if size < 32 then U8 else if size < 8192 then U16 else U32
  }

  /** The value `writeSize` passes to that setter. */
  function TagValue(size: nat): (v: nat)
  {
    if size < 32 then 32 + size
    else if size < 8192 then 0x4000 + size
    else 0x8000_0000 + size % 0x8000_0000
  }

  /** `readSize(off)`: the width is the top three bits of the first byte;
      1 reads a u8, 2 a u16 and anything else a u32, and the size is the
      value read masked to its low (8·width − 3) mod 32 bits.  None where a
      getter throws. */
  function ReadSize(s: seq<byte>, off: nat): (r: Option<(nat, nat)>)
    ensures r.Some? ==> off + r.value.1 <= |s| && 1 <= r.value.1
  {
    match NumberAt(s, off, U8)
    case None => None
    case Some(first) =>
      var width := first / 32;
      match NumberAt(s, off, SizeKind(width))
      case None => None
      case Some(x) => Some((SizeMasked(x, width), Width(SizeKind(width))))
  }

  /** The getter `readSize` uses for a width: u8 for 1, u16 for 2, u32 for
      every other value of the three top bits. */
  function SizeKind(width: int): (t: NumType)
    ensures !IsSigned(t)
  {
    if width == 1 then U8 else if width == 2 then U16 else U32
  }

  /** The mask width of `readSize`: 8·width − 3, as a JavaScript shift
      count, that is modulo 32 (a width of 0 gives 29). */
  function SizeBits(width: int): nat
  {
    (width * 8 - 3) % 32
  }

  /** `x & ((1 << (8·width − 3)) − 1)` for a getter result `x`: the low
      `SizeBits(width)` bits.  The shift count depends on `width` modulo 4
      only, and all four masks are non-negative int32 values, so the `&`
      keeps exactly those bits of the unsigned value. */
  function SizeMasked(x: int, width: int): nat
  {
    var k := width % 4;
    if k == 1 then x % 32
    else if k == 2 then x % 0x2000
    else if k == 3 then x % 0x20_0000
    else x % 0x2000_0000
  }

  /** `SizeMasked` is the mask of `SizeBits(width)` bits. */
  lemma SizeMaskedBits(x: int, width: int)
    ensures SizeMasked(x, width) == x % Pow2(SizeBits(width))
  {
    SizeMasks();
    var q, k := width / 4, width % 4;
    if k == 0 {
      ModUnique(width * 8 - 3, 32, q - 1, 29);
    } else {
      ModUnique(width * 8 - 3, 32, q, 8 * k - 3);
    }
  }

  /** `writeSize` picks the narrowest width for the size and returns it,
      and the top three bits of the first byte are that width. */
  lemma SizeTagWidth(size: nat)
    requires size < SizeLimit
    ensures |SizeTag(size)| == if size < 32 then 1 else if size < 8192 then 2 else 4
    ensures SizeTag(size)[0] / 32 == |SizeTag(size)|
  {
    var t, v := TagKind(size), TagValue(size);
    TagFits(size);
    BigEndianHead(v, Width(t));
    TagHead(size);
  }

  /** The tag value is in range for the setter's kind. */
  lemma TagFits(size: nat)
    requires size < SizeLimit
    ensures InRange(TagKind(size), TagValue(size))
    ensures TagValue(size) < Pow256(Width(TagKind(size)))
  {
    assert Pow256(3) == 0x100_0000;
  }

  /** The top digit of the tag value, shifted right by five, is the width. */
  lemma TagHead(size: nat)
    requires size < SizeLimit
    ensures TagValue(size) / Pow256(Width(TagKind(size)) - 1) / 32 == Width(TagKind(size))
  {
    if size < 32 {
    } else if size < 8192 {
      ModUnique(0x4000 + size, 256, 64 + size / 256, size % 256);
    } else {
      assert Pow256(3) == 0x100_0000;
      ModUnique(size, 0x8000_0000, 0, size);
      ModUnique(0x8000_0000 + size, 0x100_0000, 128 + size / 0x100_0000, size % 0x100_0000);
    }
  }

  /** Masking the tag value to its size bits leaves the size. */
  lemma TagMask(size: nat)
    requires size < SizeLimit
    ensures SizeMasked(TagValue(size), Width(TagKind(size))) == size
  {
    if size < 32 {
      ModUnique(32 + size, 32, 1, size);
    } else if size < 8192 {
      ModUnique(0x4000 + size, 0x2000, 2, size);
    } else {
      ModUnique(size, 0x8000_0000, 0, size);
      ModUnique(0x8000_0000 + size, 0x2000_0000, 4, size);
    }
  }

  lemma SizeMasks()
    ensures Pow2(5) == 32 && Pow2(13) == 0x2000 && Pow2(21) == 0x20_0000 && Pow2(29) == 0x2000_0000
  {
    assert Pow2(5) == 32;
    assert Pow2(13) == 0x2000;
    assert Pow2(21) == 0x20_0000;
    assert Pow2(29) == 0x2000_0000;
  }

  /** For every size below 2^29, `readSize` after `writeSize` gives back the
      size and the width. */
  lemma SizeRoundTrip(s: seq<byte>, off: nat, size: nat)
    requires size < SizeLimit && At(s, off, SizeTag(size))
    ensures ReadSize(s, off) == Some((size, |SizeTag(size)|))
  {
    SizeTagWidth(size);
    TagFits(size);
    ReadSizeOf(s, off, TagKind(size), TagValue(size));
    TagMask(size);
  }

  /** `readSize` over the stored bytes of an unsigned `v` whose first byte
      names the width of `t`. */
  lemma ReadSizeOf(s: seq<byte>, off: nat, t: NumType, v: nat)
    requires t == U8 || t == U16 || t == U32
    requires InRange(t, v) && At(s, off, Store(t, v))
    requires Store(t, v)[0] / 32 == Width(t)
    ensures ReadSize(s, off) == Some((SizeMasked(v, Width(t)), Width(t)))
  {
    var first := Store(t, v)[0];
    assert s[off..off + 1] == [first];
    assert FromBigEndian([first]) == first by {
      assert [first][..0] == [];
    }
    assert NumberAt(s, off, U8) == Some(first);
    var width := first / 32;
    assert SizeKind(width) == t;
    StoreLoad(t, v);
    assert NumberAt(s, off, SizeKind(width)) == Some(v);
    ReadSizeSteps(s, off, first, v);
  }

  lemma ReadSizeSteps(s: seq<byte>, off: nat, first: int, x: int)
    requires NumberAt(s, off, U8) == Some(first)
    requires NumberAt(s, off, SizeKind(first / 32)) == Some(x)
    ensures ReadSize(s, off) == Some((SizeMasked(x, first / 32), Width(SizeKind(first / 32))))
  {
  }

  // ---------------------------------------------------------------------
  // Scalars

  /** `BSIZE`: the bytes a scalar tag occupies; 0 for `str`, whose width
      depends on the string. */
  function BSize(b: Scalar): nat
  {
    match b
    case NumKind(t) => Width(t)
    case BoolKind => 1
    case StrKind => 0
  }

  /** The bytes `write(b, offset, v)` stores: an integer modulo 2^(8w)
      big-endian, a boolean as 1 or 0, a string as its size tag and its
      bytes. */
  function EncodeScalar(b: Scalar, v: Value): (r: seq<byte>)
    requires ScalarMatches(b, v)
    ensures !b.StrKind? ==> |r| == BSize(b)
  {
    match b
    case NumKind(t) => Store(t, v.n)
    case BoolKind => Store(U8, if v.b then 1 else 0)
    case StrKind => SizeTag(|v.bytes|) + v.bytes
  }

  /** `read(b, offset)`: the value and the bytes it took.  A boolean is a
      byte above 0; a string is the slice after its size tag, clamped to the
      end of the store. */
  function ReadScalar(s: seq<byte>, off: nat, b: Scalar): (r: Option<(Value, nat)>)
    ensures r.Some? ==> 1 <= r.value.1 && off < |s|
  {
    match b
    case NumKind(t) =>
      (match NumberAt(s, off, t)
       case None => None
       case Some(x) => Some((Int(x), BSize(b))))
    case BoolKind =>
      (match NumberAt(s, off, U8)
       case None => None
       case Some(x) => Some((Bool(x > 0), BSize(b))))
    case StrKind =>
      (match ReadSize(s, off)
       case None => None
       case Some((size, tagWidth)) =>
         var p := off + tagWidth;
         Some((Str(Slice(s, p, p + size)), tagWidth + size)))
  }

  /** `read` after `write` gives back the scalar and the number of bytes
      written: integers in range, booleans, and strings below 2^29 bytes. */
  lemma ScalarRoundTrip(s: seq<byte>, off: nat, b: Scalar, v: Value)
    requires ScalarMatches(b, v) && ScalarFits(b, v) && At(s, off, EncodeScalar(b, v))
    ensures ReadScalar(s, off, b) == Some((v, |EncodeScalar(b, v)|))
  {
    match b
    case NumKind(t) => NumberReadBack(s, off, t, v.n);
    case BoolKind => NumberReadBack(s, off, U8, if v.b then 1 else 0);
    case StrKind => StringReadBack(s, off, v.bytes);
  }

  lemma NumberReadBack(s: seq<byte>, off: nat, t: NumType, n: int)
    requires InRange(t, n) && At(s, off, Store(t, n))
    ensures NumberAt(s, off, t) == Some(n)
  {
    StoreLoad(t, n);
  }

  lemma StringReadBack(s: seq<byte>, off: nat, data: seq<byte>)
    requires |data| < SizeLimit && At(s, off, SizeTag(|data|) + data)
    ensures ReadScalar(s, off, StrKind) == Some((Str(data), |SizeTag(|data|)| + |data|))
  {
    var w := |SizeTag(|data|)|;
    AtSplit(s, off, SizeTag(|data|), data);
    SizeRoundTrip(s, off, |data|);
    SliceInside(s, off + w, off + w + |data|);
    StringReadSteps(s, off, |data|, w, data);
  }

  lemma StringReadSteps(s: seq<byte>, off: nat, size: nat, w: nat, data: seq<byte>)
    requires ReadSize(s, off) == Some((size, w)) && Slice(s, off + w, off + w + size) == data
    ensures ReadScalar(s, off, StrKind) == Some((Str(data), w + size))
  {
  }

  // ---------------------------------------------------------------------
  // The serialized form

  /** The bytes `serializeValue(v, d)` writes: a scalar as `write` stores
      it; a list as its size tag and its items; an object as a tag holding
      its descriptor's key count and the values in descriptor order, or, for
      `null`, a tag holding 0 alone. */
  function Encode(v: Value, d: Desc, arena: seq<Desc>): seq<byte>
    requires Matches(v, d, arena)
    decreases v, 1
  {
    match Resolve(d, arena)
    case Leaf(b) => EncodeScalar(b, v)
    case ListOf(e) => EncodeList(v, e, arena)
    case Object(fs) => EncodeObject(v, fs, arena)
  }

  /** `serializeArray`: the size tag, then the items. */
  function EncodeList(v: Value, e: Desc, arena: seq<Desc>): seq<byte>
    requires v.List? && ItemsMatch(v, e, arena)
    decreases v, 0, |v.items| + 1
  {
    SizeTag(|v.items|) + EncodeItems(v, e, arena, 0)
  }

  /** `serializeObject`: for `null` a count-0 tag alone, otherwise a tag
      holding the descriptor's key count and the values in key order. */
  function EncodeObject(v: Value, fs: seq<(string, Desc)>, arena: seq<Desc>): seq<byte>
    requires v.Null? || (v.Obj? && FieldsMatch(v, fs, arena))
    decreases v, 0, |fs| + 1
  {
    if v.Null? then SizeTag(0) else SizeTag(|fs|) + EncodeFields(v, fs, arena, 0)
  }

  /** The items of a list from the `i`-th on, one after the other. */
  function EncodeItems(v: Value, e: Desc, arena: seq<Desc>, i: nat): seq<byte>
    requires v.List? && ItemsMatch(v, e, arena) && i <= |v.items|
    decreases v, 0, |v.items| - i
  {
    if i == |v.items| then [] else EncodeItem(v, e, arena, i) + EncodeItems(v, e, arena, i + 1)
  }

  /** The bytes the `forEach` callback of `serializeArray` writes for the
      `i`-th item. */
  function EncodeItem(v: Value, e: Desc, arena: seq<Desc>, i: nat): seq<byte>
    requires v.List? && ItemsMatch(v, e, arena) && i < |v.items|
    decreases v, 0, 0
  {
    Encode(v.items[i], e, arena)
  }

  /** The values of an object for the descriptor's fields from the `k`-th
      on. */
  function EncodeFields(v: Value, fs: seq<(string, Desc)>, arena: seq<Desc>, k: nat): seq<byte>
    requires v.Obj? && FieldsMatch(v, fs, arena) && k <= |fs|
    decreases v, 0, |fs| - k
  {
    if k == |fs| then [] else EncodeField(v, fs, arena, k) + EncodeFields(v, fs, arena, k + 1)
  }

  /** The bytes the `forEach` callback of `serializeObject` writes for the
      `k`-th key. */
  function EncodeField(v: Value, fs: seq<(string, Desc)>, arena: seq<Desc>, k: nat): seq<byte>
    requires v.Obj? && FieldsMatch(v, fs, arena) && k < |fs|
    decreases v, 0, 0
  {
    Encode(v.entries[fs[k].0], fs[k].1, arena)
  }

  // ---------------------------------------------------------------------
  // Reading back

  /** Bytes left from `off`; every read that succeeds consumes some. */
  function Room(s: seq<byte>, off: nat): nat
  {
    if off < |s| then |s| - off else 0
  }

  /** `deserializeValue(d, off)`: the value and the bytes it took, None
      where a getter throws. */
  function DecodeValue(s: seq<byte>, off: nat, d: Desc, arena: seq<Desc>): (r: Option<(Value, nat)>)
    decreases Room(s, off), 1, 0
  {
    match Resolve(d, arena)
    case Leaf(b) => ReadScalar(s, off, b)
    case ListOf(e) => DecodeList(s, off, e, arena)
    case Object(fs) => DecodeObject(s, off, fs, arena)
    case Ref(_) => None
  }

  /** `deserializeArray(e, off)`: the size tag, then that many items. */
  function DecodeList(s: seq<byte>, off: nat, e: Desc, arena: seq<Desc>): (r: Option<(Value, nat)>)
    decreases Room(s, off), 0, 0
  {
    match ReadSize(s, off)
    case None => None
    case Some(tag) =>
      match DecodeItems(s, off + tag.1, e, arena, tag.0, [])
      case None => None
      case Some(items) => Some((List(items.0), items.1 - off))
  }

  /** `deserializeObject(fs, off)`: the size tag; a count of 0 reads as
      `null`, any other count is followed by one value per descriptor key,
      whatever the count says. */
  function DecodeObject(s: seq<byte>, off: nat, fs: seq<(string, Desc)>, arena: seq<Desc>)
    : (r: Option<(Value, nat)>)
    decreases Room(s, off), 0, 0
  {
    match ReadSize(s, off)
    case None => None
    case Some(tag) =>
      if tag.0 == 0 then Some((Null, tag.1))
      else
        match DecodeFields(s, off + tag.1, fs, arena, 0, map[])
        case None => None
        case Some(fields) => Some((Obj(fields.0), fields.1 - off))
  }

  /** The loop of `deserializeArray` from offset `off` with `count` items
      still to read after the ones in `acc`; it ends at the offset after the
      last item. */
  function DecodeItems(s: seq<byte>, off: nat, e: Desc, arena: seq<Desc>, count: nat, acc: seq<Value>)
    : (r: Option<(seq<Value>, nat)>)
    ensures r.Some? ==> off <= r.value.1
    decreases Room(s, off), 2, count
  {
    if count == 0 then Some((acc, off))
    else
      match DecodeItem(s, off, e, arena)
      case None => None
      case Some(item) => DecodeItems(s, off + item.1, e, arena, count - 1, acc + [item.0])
  }

  /** One call of `deserializeValue` in the loop of `deserializeArray`. */
  function DecodeItem(s: seq<byte>, off: nat, e: Desc, arena: seq<Desc>): (r: Option<(Value, nat)>)
    decreases Room(s, off), 1, 1
  {
    DecodeValue(s, off, e, arena)
  }

  /** The loop of `deserializeObject` from field `k` on, with the fields
      before it in `acc`; a later assignment to a key replaces an earlier
      one, as `result[k] = value` does. */
  function DecodeFields(s: seq<byte>, off: nat, fs: seq<(string, Desc)>, arena: seq<Desc>, k: nat,
                        acc: map<string, Value>): (r: Option<(map<string, Value>, nat)>)
    requires k <= |fs|
    ensures r.Some? ==> off <= r.value.1
    decreases Room(s, off), 2, |fs| - k
  {
    if k == |fs| then Some((acc, off))
    else
      match DecodeField(s, off, fs, arena, k)
      case None => None
      case Some(field) => DecodeFields(s, off + field.1, fs, arena, k + 1, acc[fs[k].0 := field.0])
  }

  /** One call of `deserializeValue` in the loop of `deserializeObject`, for
      the `k`-th key. */
  function DecodeField(s: seq<byte>, off: nat, fs: seq<(string, Desc)>, arena: seq<Desc>, k: nat)
    : (r: Option<(Value, nat)>)
    requires k < |fs|
    decreases Room(s, off), 1, 1
  {
    DecodeValue(s, off, fs[k].1, arena)
  }

  /** The value `deserialize(bytes, d)` returns. */
  function Decoded(s: seq<byte>, d: Desc, arena: seq<Desc>): Option<Value>
  {
    match DecodeValue(s, 0, d, arena)
    case None => None
    case Some((v, _)) => Some(v)
  }

  // ---------------------------------------------------------------------
  // The round trip

  /** `deserializeValue` reads back every exact value `serializeValue`
      wrote, whatever follows it, and takes exactly the bytes written. */
  lemma {:induction false} DecodeEncode(s: seq<byte>, off: nat, v: Value, d: Desc, arena: seq<Desc>)
    requires Exact(v, d, arena) && At(s, off, Encode(v, d, arena))
    ensures DecodeValue(s, off, d, arena) == Some((v, |Encode(v, d, arena)|))
    decreases v, 2
  {
    match Resolve(d, arena)
    case Leaf(b) =>
      ScalarRoundTrip(s, off, b, v);
    case ListOf(e) =>
      ListRoundTrip(s, off, v, d, e, arena);
    case Object(fs) =>
      if v.Null? {
        NullWritesZero(d, arena);
        SizeRoundTrip(s, off, 0);
        ZeroCountIsNull(s, off, d, arena, 1);
      } else {
        ObjectRoundTrip(s, off, v, d, fs, arena);
      }
  }

  lemma {:induction false} ListRoundTrip(s: seq<byte>, off: nat, v: Value, d: Desc, e: Desc, arena: seq<Desc>)
    requires Resolve(d, arena) == ListOf(e) && Exact(v, d, arena) && At(s, off, Encode(v, d, arena))
    ensures DecodeValue(s, off, d, arena) == Some((v, |Encode(v, d, arena)|))
    decreases v, 1
  {
    var w := ListHeader(s, off, v, d, e, arena);
    ItemsDecode(s, off + w, v, e, arena, 0, []);
    assert [] + v.items[0..] == v.items;
    DecodeListAt(s, off, d, e, arena, |v.items|, w, v.items, off + |Encode(v, d, arena)|);
  }

  /** The size tag of a list holds its length and its items follow it. */
  lemma ListHeader(s: seq<byte>, off: nat, v: Value, d: Desc, e: Desc, arena: seq<Desc>) returns (w: nat)
    requires Resolve(d, arena) == ListOf(e) && Exact(v, d, arena) && At(s, off, Encode(v, d, arena))
    ensures v.List? && ItemsMatch(v, e, arena) && ItemsFit(v, e, arena)
    ensures ReadSize(s, off) == Some((|v.items|, w))
    ensures At(s, off + w, EncodeItems(v, e, arena, 0))
    ensures |Encode(v, d, arena)| == w + |EncodeItems(v, e, arena, 0)|
  {
    EncodeListAt(v, d, e, arena);
    var tag, body := SizeTag(|v.items|), EncodeItems(v, e, arena, 0);
    AtSplit(s, off, tag, body);
    SizeRoundTrip(s, off, |v.items|);
    w := |tag|;
  }

  lemma {:induction false} ObjectRoundTrip(s: seq<byte>, off: nat, v: Value, d: Desc, fs: seq<(string, Desc)>,
                                           arena: seq<Desc>)
    requires Resolve(d, arena) == Object(fs) && Exact(v, d, arena) && v.Obj? && At(s, off, Encode(v, d, arena))
    ensures DecodeValue(s, off, d, arena) == Some((v, |Encode(v, d, arena)|))
    decreases v, 1
  {
    var w := ObjectHeader(s, off, v, d, fs, arena);
    FieldsDecode(s, off + w, v, fs, arena, 0);
    TakenAll(v.entries, fs);
    DecodeObjectAt(s, off, d, fs, arena, |fs|, w, v.entries, off + |Encode(v, d, arena)|);
  }

  /** The size tag of an object holds its descriptor's key count and the
      values follow it. */
  lemma ObjectHeader(s: seq<byte>, off: nat, v: Value, d: Desc, fs: seq<(string, Desc)>, arena: seq<Desc>)
    returns (w: nat)
    requires Resolve(d, arena) == Object(fs) && Exact(v, d, arena) && v.Obj? && At(s, off, Encode(v, d, arena))
    ensures FieldsMatch(v, fs, arena) && ValuesFit(v, fs, arena) && v.entries.Keys == KeysBefore(fs, |fs|)
    ensures ReadSize(s, off) == Some((|fs|, w)) && |fs| != 0
    ensures At(s, off + w, EncodeFields(v, fs, arena, 0))
    ensures |Encode(v, d, arena)| == w + |EncodeFields(v, fs, arena, 0)|
  {
    EncodeObjectAt(v, d, fs, arena);
    var tag, body := SizeTag(|fs|), EncodeFields(v, fs, arena, 0);
    AtSplit(s, off, tag, body);
    SizeRoundTrip(s, off, |fs|);
    w := |tag|;
  }

  lemma EncodeListAt(v: Value, d: Desc, e: Desc, arena: seq<Desc>)
    requires Resolve(d, arena) == ListOf(e) && Exact(v, d, arena)
    ensures v.List? && ItemsMatch(v, e, arena) && ItemsFit(v, e, arena)
    ensures Encode(v, d, arena) == SizeTag(|v.items|) + EncodeItems(v, e, arena, 0)
  {
  }

  lemma EncodeObjectAt(v: Value, d: Desc, fs: seq<(string, Desc)>, arena: seq<Desc>)
    requires Resolve(d, arena) == Object(fs) && Exact(v, d, arena) && v.Obj?
    ensures FieldsMatch(v, fs, arena) && FieldsFit(v, fs, arena)
    ensures Encode(v, d, arena) == SizeTag(|fs|) + EncodeFields(v, fs, arena, 0)
  {
  }

  lemma DecodeListAt(s: seq<byte>, off: nat, d: Desc, e: Desc, arena: seq<Desc>,
                     count: nat, w: nat, items: seq<Value>, end: nat)
    requires Resolve(d, arena) == ListOf(e) && ReadSize(s, off) == Some((count, w))
    requires DecodeItems(s, off + w, e, arena, count, []) == Some((items, end))
    ensures end >= off && DecodeValue(s, off, d, arena) == Some((List(items), end - off))
  {
    assert DecodeList(s, off, e, arena) == Some((List(items), end - off));
  }

  lemma DecodeObjectAt(s: seq<byte>, off: nat, d: Desc, fs: seq<(string, Desc)>, arena: seq<Desc>,
                       count: nat, w: nat, m: map<string, Value>, end: nat)
    requires Resolve(d, arena) == Object(fs) && ReadSize(s, off) == Some((count, w)) && count != 0
    requires DecodeFields(s, off + w, fs, arena, 0, map[]) == Some((m, end))
    ensures end >= off && DecodeValue(s, off, d, arena) == Some((Obj(m), end - off))
  {
    assert DecodeObject(s, off, fs, arena) == Some((Obj(m), end - off));
  }

  lemma DecodeItemsStep(s: seq<byte>, off: nat, e: Desc, arena: seq<Desc>, count: nat,
                        acc: seq<Value>, x: Value, n: nat)
    requires count > 0 && DecodeValue(s, off, e, arena) == Some((x, n))
    ensures DecodeItems(s, off, e, arena, count, acc) == DecodeItems(s, off + n, e, arena, count - 1, acc + [x])
  {
  }

  lemma DecodeItemsStop(s: seq<byte>, off: nat, e: Desc, arena: seq<Desc>, count: nat, acc: seq<Value>)
    requires count > 0 && DecodeValue(s, off, e, arena).None?
    ensures DecodeItems(s, off, e, arena, count, acc).None?
  {
  }

  lemma DecodeFieldsStop(s: seq<byte>, off: nat, fs: seq<(string, Desc)>, arena: seq<Desc>, k: nat,
                         acc: map<string, Value>)
    requires k < |fs| && DecodeValue(s, off, fs[k].1, arena).None?
    ensures DecodeFields(s, off, fs, arena, k, acc).None?
  {
  }

  lemma DecodeFieldsStep(s: seq<byte>, off: nat, fs: seq<(string, Desc)>, arena: seq<Desc>, k: nat,
                         acc: map<string, Value>, x: Value, n: nat)
    requires k < |fs| && DecodeValue(s, off, fs[k].1, arena) == Some((x, n))
    ensures DecodeFields(s, off, fs, arena, k, acc) == DecodeFields(s, off + n, fs, arena, k + 1, acc[fs[k].0 := x])
  {
  }

  /** The loop of `deserializeArray` reads the items written from the
      `i`-th on after the ones already in `acc`. */
  lemma {:induction false} ItemsDecode(s: seq<byte>, off: nat, v: Value, e: Desc, arena: seq<Desc>, i: nat,
                                       acc: seq<Value>)
    requires v.List? && ItemsMatch(v, e, arena) && ItemsFit(v, e, arena) && i <= |v.items|
    requires At(s, off, EncodeItems(v, e, arena, i))
    ensures DecodeItems(s, off, e, arena, |v.items| - i, acc) ==
      Some((acc + v.items[i..], off + |EncodeItems(v, e, arena, i)|))
    decreases v, 0, |v.items| - i, 1
  {
    if i < |v.items| {
      var x := v.items[i];
      var w := ItemAt(s, off, v, e, arena, i, acc);
      ItemsDecode(s, off + w, v, e, arena, i + 1, acc + [x]);
      ConsTail(acc, v.items, i);
    } else {
      assert acc + v.items[i..] == acc;
    }
  }

  /** One item of the loop: it reads back and leaves the rest in place. */
  lemma {:induction false} ItemAt(s: seq<byte>, off: nat, v: Value, e: Desc, arena: seq<Desc>, i: nat,
                                  acc: seq<Value>) returns (w: nat)
    requires v.List? && ItemsMatch(v, e, arena) && ItemsFit(v, e, arena) && i < |v.items|
    requires At(s, off, EncodeItems(v, e, arena, i))
    ensures DecodeItems(s, off, e, arena, |v.items| - i, acc) ==
      DecodeItems(s, off + w, e, arena, |v.items| - (i + 1), acc + [v.items[i]])
    ensures At(s, off + w, EncodeItems(v, e, arena, i + 1))
    ensures |EncodeItems(v, e, arena, i)| == w + |EncodeItems(v, e, arena, i + 1)|
    decreases v, 0, |v.items| - i, 0
  {
    var x := v.items[i];
    var item := EncodeItem(v, e, arena, i);
    AtSplit(s, off, item, EncodeItems(v, e, arena, i + 1));
    assert item == Encode(x, e, arena);
    DecodeEncode(s, off, x, e, arena);
    w := |item|;
    DecodeItemsStep(s, off, e, arena, |v.items| - i, acc, x, w);
  }

  lemma ConsTail<T>(acc: seq<T>, xs: seq<T>, i: nat)
    requires i < |xs|
    ensures acc + [xs[i]] + xs[i + 1..] == acc + xs[i..]
  {
    assert xs[i..] == [xs[i]] + xs[i + 1..];
  }

  /** The loop of `deserializeObject` reads the values written for the
      fields from the `k`-th on, on top of the ones before them. */
  lemma {:induction false} FieldsDecode(s: seq<byte>, off: nat, v: Value, fs: seq<(string, Desc)>, arena: seq<Desc>,
                                        k: nat)
    requires v.Obj? && FieldsMatch(v, fs, arena) && ValuesFit(v, fs, arena) && k <= |fs|
    requires At(s, off, EncodeFields(v, fs, arena, k))
    ensures DecodeFields(s, off, fs, arena, k, Taken(v.entries, fs, k)) ==
      Some((Taken(v.entries, fs, |fs|), off + |EncodeFields(v, fs, arena, k)|))
    decreases v, 0, |fs| - k, 1
  {
    if k < |fs| {
      var w := FieldAt(s, off, v, fs, arena, k);
      FieldsDecode(s, off + w, v, fs, arena, k + 1);
    }
  }

  /** One field of the loop: it reads back, is stored, and leaves the rest
      in place. */
  lemma {:induction false} FieldAt(s: seq<byte>, off: nat, v: Value, fs: seq<(string, Desc)>, arena: seq<Desc>,
                                   k: nat) returns (w: nat)
    requires v.Obj? && FieldsMatch(v, fs, arena) && ValuesFit(v, fs, arena) && k < |fs|
    requires At(s, off, EncodeFields(v, fs, arena, k))
    ensures DecodeFields(s, off, fs, arena, k, Taken(v.entries, fs, k)) ==
      DecodeFields(s, off + w, fs, arena, k + 1, Taken(v.entries, fs, k + 1))
    ensures At(s, off + w, EncodeFields(v, fs, arena, k + 1))
    ensures |EncodeFields(v, fs, arena, k)| == w + |EncodeFields(v, fs, arena, k + 1)|
    decreases v, 0, |fs| - k, 0
  {
    var x := v.entries[fs[k].0];
    var item := EncodeField(v, fs, arena, k);
    AtSplit(s, off, item, EncodeFields(v, fs, arena, k + 1));
    assert item == Encode(x, fs[k].1, arena);
    assert Exact(x, fs[k].1, arena);
    DecodeEncode(s, off, x, fs[k].1, arena);
    w := |item|;
    DecodeFieldsStep(s, off, fs, arena, k, Taken(v.entries, fs, k), x, w);
    assert Taken(v.entries, fs, k)[fs[k].0 := x] == Taken(v.entries, fs, k + 1);
  }

  /** The entries of `m` for the first `k` keys of a descriptor: what the
      loop of `deserializeObject` has stored after `k` fields. */
  function Taken(m: map<string, Value>, fs: seq<(string, Desc)>, k: nat): map<string, Value>
    requires k <= |fs|
  {
    if k == 0 then map[]
    else if fs[k - 1].0 in m then Taken(m, fs, k - 1)[fs[k - 1].0 := m[fs[k - 1].0]]
    else Taken(m, fs, k - 1)
  }

  /** What has been stored are entries of `m`, one per key so far. */
  lemma {:induction false} TakenKeys(m: map<string, Value>, fs: seq<(string, Desc)>, k: nat)
    requires k <= |fs| && KeysBefore(fs, k) <= m.Keys
    ensures Taken(m, fs, k).Keys == KeysBefore(fs, k)
    ensures forall key :: key in Taken(m, fs, k) ==> Taken(m, fs, k)[key] == m[key]
  {
    if k > 0 {
      assert KeysBefore(fs, k) == KeysBefore(fs, k - 1) + {fs[k - 1].0};
      TakenKeys(m, fs, k - 1);
    }
  }

  /** An object with exactly the descriptor's keys is rebuilt whole. */
  lemma TakenAll(m: map<string, Value>, fs: seq<(string, Desc)>)
    requires m.Keys == KeysBefore(fs, |fs|)
    ensures Taken(m, fs, |fs|) == m
  {
    TakenKeys(m, fs, |fs|);
  }

  /** `deserialize(serialize(v, d), d) == v` for every exact value, the
      self-referential descriptors of the repository's tests included, and
      the bytes read are exactly the bytes written. */
  lemma SerializeRoundTrip(v: Value, d: Desc, arena: seq<Desc>)
    requires Exact(v, d, arena)
    ensures DecodeValue(Encode(v, d, arena), 0, d, arena) == Some((v, |Encode(v, d, arena)|))
    ensures Decoded(Encode(v, d, arena), d, arena) == Some(v)
  {
    var bytes := Encode(v, d, arena);
    assert bytes[0..|bytes|] == bytes;
    DecodeEncode(bytes, 0, v, d, arena);
  }

  /** `null` at an object descriptor writes a count-0 tag alone, one byte. */
  lemma NullWritesZero(d: Desc, arena: seq<Desc>)
    requires Resolve(d, arena).Object?
    ensures Matches(Null, d, arena) && Encode(Null, d, arena) == SizeTag(0)
    ensures |Encode(Null, d, arena)| == 1
  {
  }

  /** A count of 0 at an object descriptor reads as `null`, whatever the
      descriptor's keys. */
  lemma ZeroCountIsNull(s: seq<byte>, off: nat, d: Desc, arena: seq<Desc>, w: nat)
    requires Resolve(d, arena).Object? && ReadSize(s, off) == Some((0, w))
    ensures DecodeValue(s, off, d, arena) == Some((Null, w))
  {
  }

  /** So an object descriptor without keys turns every object into `null`. */
  lemma EmptyObjectIsNull(v: Value, d: Desc, arena: seq<Desc>)
    requires Resolve(d, arena) == Object([]) && Matches(v, d, arena)
    ensures Decoded(Encode(v, d, arena), d, arena) == Some(Null)
  {
    var bytes := Encode(v, d, arena);
    assert bytes == EncodeObject(v, [], arena);
    if v.Obj? {
      assert EncodeFields(v, [], arena, 0) == [];
      assert SizeTag(0) + [] == SizeTag(0);
    }
    assert bytes == SizeTag(0);
    assert At(bytes, 0, SizeTag(0));
    SizeRoundTrip(bytes, 0, 0);
  }

  // ---------------------------------------------------------------------
  // The buffer and the serializer

  /** `BBuffer`: a growable store; the DataView over it sees the same bytes,
      so one array stands for both. */
  class BBuffer {
    var arr: array<byte>

    /** `BBuffer.create(size)`: `size` zero bytes. */
    constructor Create(size: nat)
      ensures arr[..] == Zeros(size) && fresh(arr)
    {
      arr := new byte[size](_ => 0);
    }

    /** `expand(neededSize)`: nothing when the store is large enough,
        otherwise a zeroed store of `nextPowerOf2(neededSize)` bytes with the
        old bytes at its low end. */
    method Expand(neededSize: nat)
      modifies this
      ensures arr.Length == GrownLength(old(arr.Length), neededSize)
      ensures arr[..] == Pad(old(arr[..]), arr.Length)
      ensures old(arr.Length) >= neededSize ==> arr == old(arr)
      ensures arr == old(arr) || fresh(arr)
    {
      arr := Grow(arr, neededSize);
    }

    /** `write(b, offset, v)`: grows the store to hold what it writes, stores
        the scalar at `offset` and returns its width, `BSIZE[b]` for the
        fixed-width tags. */
    method Write(b: Scalar, offset: nat, v: Value) returns (n: nat)
      requires ScalarMatches(b, v)
      modifies this, arr
      ensures arr[..] == WrittenAt(old(arr[..]), offset, EncodeScalar(b, v))
      ensures n == |EncodeScalar(b, v)|
      ensures arr == old(arr) || fresh(arr)
      decreases if b.StrKind? then 3 else 0
    {
      ghost var s0 := arr[..];
      if !b.StrKind? {
        // the DataView setter for the tag; `bool` goes through `setUint8`
        var stored := if b.BoolKind? then Store(U8, if v.b then 1 else 0) else Store(b.kind, v.n);
        assert stored == EncodeScalar(b, v);
        Expand(offset + |stored|);
        ghost var s1 := arr[..];
        Put(arr, offset, stored);
        GrowThenPut(s0, offset + |stored|, s1, offset, stored, arr[..]);
        n := |stored|;
      } else {
        n := WriteStr(offset, v.bytes);
      }
    }

    /** The `str` branch of `write`: the size tag through `writeSize`, then
        the bytes after it. */
    method WriteStr(offset: nat, bytes: seq<byte>) returns (n: nat)
      modifies this, arr
      ensures arr[..] == WrittenAt(old(arr[..]), offset, SizeTag(|bytes|) + bytes)
      ensures n == |SizeTag(|bytes|) + bytes|
      ensures arr == old(arr) || fresh(arr)
      decreases 2
    {
      ghost var s0 := arr[..];
      var valueSize := |bytes|;
      var typeSize := WriteSize(offset, valueSize);
      ghost var s1 := arr[..];
      Expand(offset + typeSize + valueSize);
      ghost var s2 := arr[..];
      Put(arr, offset + typeSize, bytes);
      GrowThenPut(s1, offset + typeSize + valueSize, s2, offset + typeSize, bytes, arr[..]);
      WrittenAfter(s0, offset, SizeTag(valueSize), s1, offset + typeSize, bytes, arr[..]);
      n := typeSize + valueSize;
    }

    /** `writeSize(offset, size)`: the size tag through `write`. */
    method WriteSize(offset: nat, size: nat) returns (n: nat)
      modifies this, arr
      ensures arr[..] == WrittenAt(old(arr[..]), offset, SizeTag(size))
      ensures n == |SizeTag(size)|
      ensures arr == old(arr) || fresh(arr)
      decreases 1
    {
      if size < 32 {
        n := Write(NumKind(U8), offset, Int(32 + size));
      } else if size < 8192 {
        n := Write(NumKind(U16), offset, Int(0x4000 + size));
      } else {
        n := Write(NumKind(U32), offset, Int(0x8000_0000 + size % 0x8000_0000));
      }
    }
  }

  /** `serializeValue(buffer, v, d, offset)`: writes the encoding of `v` at
      `offset` and returns its length. */
  method SerializeValue(buffer: BBuffer, v: Value, d: Desc, arena: seq<Desc>, offset: nat) returns (n: nat)
    requires Matches(v, d, arena)
    modifies buffer, buffer.arr
    ensures buffer.arr[..] == WrittenAt(old(buffer.arr[..]), offset, Encode(v, d, arena))
    ensures n == |Encode(v, d, arena)|
    ensures buffer.arr == old(buffer.arr) || fresh(buffer.arr)
    decreases v, 2
  {
    match Resolve(d, arena)
    case Leaf(b) => n := buffer.Write(b, offset, v);
    case ListOf(e) => n := SerializeArray(buffer, v, e, arena, offset);
    case Object(fs) => n := SerializeObject(buffer, v, fs, arena, offset);
  }

  /** The `forEach` callback of `serializeArray` for the `i`-th item. */
  method SerializeItem(buffer: BBuffer, v: Value, e: Desc, arena: seq<Desc>, i: nat, offset: nat) returns (n: nat)
    requires v.List? && ItemsMatch(v, e, arena) && i < |v.items|
    modifies buffer, buffer.arr
    ensures buffer.arr[..] == WrittenAt(old(buffer.arr[..]), offset, EncodeItem(v, e, arena, i))
    ensures n == |EncodeItem(v, e, arena, i)|
    ensures buffer.arr == old(buffer.arr) || fresh(buffer.arr)
    decreases v, 0
  {
    n := SerializeValue(buffer, v.items[i], e, arena, offset);
  }

  /** The `forEach` callback of `serializeObject` for the `k`-th key. */
  method SerializeField(buffer: BBuffer, v: Value, fs: seq<(string, Desc)>, arena: seq<Desc>, k: nat, offset: nat)
    returns (n: nat)
    requires v.Obj? && FieldsMatch(v, fs, arena) && k < |fs|
    modifies buffer, buffer.arr
    ensures buffer.arr[..] == WrittenAt(old(buffer.arr[..]), offset, EncodeField(v, fs, arena, k))
    ensures n == |EncodeField(v, fs, arena, k)|
    ensures buffer.arr == old(buffer.arr) || fresh(buffer.arr)
    decreases v, 0
  {
    n := SerializeValue(buffer, v.entries[fs[k].0], fs[k].1, arena, offset);
  }

  /** `serializeArray`: the size tag, then each item where the previous one
      ended. */
  method SerializeArray(buffer: BBuffer, v: Value, e: Desc, arena: seq<Desc>, offset: nat) returns (n: nat)
    requires v.List? && ItemsMatch(v, e, arena)
    modifies buffer, buffer.arr
    ensures buffer.arr[..] == WrittenAt(old(buffer.arr[..]), offset, EncodeList(v, e, arena))
    ensures n == |EncodeList(v, e, arena)|
    ensures buffer.arr == old(buffer.arr) || fresh(buffer.arr)
    decreases v, 1
  {
    ghost var s0 := buffer.arr[..];
    var currentOffset := offset;
    var typeSize := buffer.WriteSize(currentOffset, |v.items|);
    currentOffset := currentOffset + typeSize;
    ghost var done := SizeTag(|v.items|);
    ghost var rest := EncodeItems(v, e, arena, 0);
    var i := 0;
    while i < |v.items|
      invariant i <= |v.items|
      invariant buffer.arr[..] == WrittenAt(s0, offset, done)
      invariant currentOffset == offset + |done|
      invariant rest == EncodeItems(v, e, arena, i)
      invariant done + rest == EncodeList(v, e, arena)
      invariant buffer.arr == old(buffer.arr) || fresh(buffer.arr)
    {
      ghost var before := buffer.arr[..];
      ghost var item := EncodeItem(v, e, arena, i);
      var k := SerializeItem(buffer, v, e, arena, i, currentOffset);
      WrittenAfter(s0, offset, done, before, currentOffset, item, buffer.arr[..]);
      MoveHead(done, item, EncodeItems(v, e, arena, i + 1), EncodeList(v, e, arena));
      done := done + item;
      rest := EncodeItems(v, e, arena, i + 1);
      currentOffset := currentOffset + k;
      i := i + 1;
    }
    assert done == done + rest;
    n := currentOffset - offset;
  }

  /** `serializeObject`: a size tag holding the descriptor's key count, or 0
      for `null`, which ends there; otherwise each value in key order. */
  method SerializeObject(buffer: BBuffer, v: Value, fs: seq<(string, Desc)>, arena: seq<Desc>, offset: nat)
    returns (n: nat)
    requires v.Null? || (v.Obj? && FieldsMatch(v, fs, arena))
    modifies buffer, buffer.arr
    ensures buffer.arr[..] == WrittenAt(old(buffer.arr[..]), offset, EncodeObject(v, fs, arena))
    ensures n == |EncodeObject(v, fs, arena)|
    ensures buffer.arr == old(buffer.arr) || fresh(buffer.arr)
    decreases v, 1
  {
    ghost var s0 := buffer.arr[..];
    var currentOffset := offset;
    var typeSize := buffer.WriteSize(currentOffset, if v.Obj? then |fs| else 0);
    if v.Null? {
      return typeSize;
    }
    currentOffset := currentOffset + typeSize;
    ghost var done := SizeTag(|fs|);
    ghost var rest := EncodeFields(v, fs, arena, 0);
    var k := 0;
    while k < |fs|
      invariant k <= |fs|
      invariant buffer.arr[..] == WrittenAt(s0, offset, done)
      invariant currentOffset == offset + |done|
      invariant rest == EncodeFields(v, fs, arena, k)
      invariant done + rest == EncodeObject(v, fs, arena)
      invariant buffer.arr == old(buffer.arr) || fresh(buffer.arr)
    {
      ghost var before := buffer.arr[..];
      ghost var field := EncodeField(v, fs, arena, k);
      var w := SerializeField(buffer, v, fs, arena, k, currentOffset);
      WrittenAfter(s0, offset, done, before, currentOffset, field, buffer.arr[..]);
      MoveHead(done, field, EncodeFields(v, fs, arena, k + 1), EncodeObject(v, fs, arena));
      done := done + field;
      rest := EncodeFields(v, fs, arena, k + 1);
      currentOffset := currentOffset + w;
      k := k + 1;
    }
    assert done == done + rest;
    n := currentOffset - offset;
  }

  /** `serialize(v, d)`: the bytes written into a fresh 128-byte buffer, cut
      to the length reported. */
  method Serialize(v: Value, d: Desc, arena: seq<Desc>) returns (r: seq<byte>)
    requires Matches(v, d, arena)
    ensures r == Encode(v, d, arena)
  {
    var buffer := new BBuffer.Create(128);
    var size := SerializeValue(buffer, v, d, arena, 0);
    WrittenAtHolds(Zeros(128), 0, Encode(v, d, arena));
    r := buffer.arr[..size];
  }

  // ---------------------------------------------------------------------
  // The deserializer

  /** `deserializeValue(d, offset)` on the bytes of the buffer. */
  method DeserializeValue(s: seq<byte>, d: Desc, arena: seq<Desc>, offset: nat) returns (r: Option<(Value, nat)>)
    ensures r == DecodeValue(s, offset, d, arena)
    decreases Room(s, offset), 1, 0
  {
    match Resolve(d, arena)
    case Leaf(b) => r := ReadScalar(s, offset, b);
    case ListOf(e) => r := DeserializeArray(s, e, arena, offset);
    case Object(fs) => r := DeserializeObject(s, fs, arena, offset);
    case Ref(_) => r := None;
  }

  /** `deserializeArray(e, offset)`: the size tag, then that many items,
      each read where the previous one ended. */
  method DeserializeArray(s: seq<byte>, e: Desc, arena: seq<Desc>, offset: nat) returns (r: Option<(Value, nat)>)
    ensures r == DecodeList(s, offset, e, arena)
    decreases Room(s, offset), 0, 0
  {
    hide DecodeValue, DecodeObject, DecodeFields, ReadScalar, Matches, Fits;
    var tag := ReadSize(s, offset);
    if tag.None? {
      return None;
    }
    var size, typeSize := tag.value.0, tag.value.1;
    var currentOffset := offset + typeSize;
    var result := [];
    var i := 0;
    while i < size
      invariant i <= size && offset + typeSize <= currentOffset
      invariant DecodeItems(s, offset + typeSize, e, arena, size, []) ==
        DecodeItems(s, currentOffset, e, arena, size - i, result)
    {
      var item := DeserializeValue(s, e, arena, currentOffset);
      if item.None? {
        DecodeItemsStop(s, currentOffset, e, arena, size - i, result);
        return None;
      }
      DecodeItemsStep(s, currentOffset, e, arena, size - i, result, item.value.0, item.value.1);
      result := result + [item.value.0];
      currentOffset := currentOffset + item.value.1;
      i := i + 1;
    }
    r := Some((List(result), currentOffset - offset));
  }

  /** `deserializeObject(fs, offset)`: the size tag; `null` for a count of 0,
      otherwise one value per descriptor key, in key order. */
  method DeserializeObject(s: seq<byte>, fs: seq<(string, Desc)>, arena: seq<Desc>, offset: nat)
    returns (r: Option<(Value, nat)>)
    ensures r == DecodeObject(s, offset, fs, arena)
    decreases Room(s, offset), 0, 0
  {
    var tag := ReadSize(s, offset);
    if tag.None? {
      return None;
    }
    var size, typeSize := tag.value.0, tag.value.1;
    if size == 0 {
      return Some((Null, typeSize));
    }
    var currentOffset := offset + typeSize;
    var result := map[];
    var k := 0;
    while k < |fs|
      invariant k <= |fs| && offset + typeSize <= currentOffset
      invariant DecodeFields(s, offset + typeSize, fs, arena, 0, map[]) ==
        DecodeFields(s, currentOffset, fs, arena, k, result)
    {
      var field := DeserializeValue(s, fs[k].1, arena, currentOffset);
      if field.None? {
        DecodeFieldsStop(s, currentOffset, fs, arena, k, result);
        return None;
      }
      DecodeFieldsStep(s, currentOffset, fs, arena, k, result, field.value.0, field.value.1);
      result := result[fs[k].0 := field.value.0];
      currentOffset := currentOffset + field.value.1;
      k := k + 1;
    }
    r := Some((Obj(result), currentOffset - offset));
  }

  /** `deserialize(bytes, d)`: the value read from offset 0. */
  method Deserialize(s: seq<byte>, d: Desc, arena: seq<Desc>) returns (r: Option<Value>)
    ensures r == Decoded(s, d, arena)
  {
    var res := DeserializeValue(s, d, arena, 0);
    r := if res.None? then None else Some(res.value.0);
  }
}
