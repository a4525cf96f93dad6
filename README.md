# Binary codecs and bitsets, modelled in Dafny

This project models the byte- and bit-level core of a small TypeScript game
utility library: three binary codecs and two bitset classes.

- **Schema codec** (`src/binary-message.ts`, module `SchemaCodec`).
  - `BBuffer` is a growable byte store. It writes scalars big-endian through
    a `DataView`, and strings as a 1/2/4-byte size tag followed by their
    bytes.
  - `serialize*`/`deserialize*` walk a type descriptor: a scalar tag, a
    one-element array for a homogeneous list, or a key-to-descriptor
    object.
  - Recursive descriptors (getters that return the descriptor itself) are
    `Ref(id)` nodes resolved through a finite arena.
- **Bit-packed self-describing codec** (`src/binary-messagepack.ts`).
  - Module `BitPack` holds the encoding as a bit stream and the reader as
    functions over it.
  - Module `BitPackWriter` holds the writer as a function from stream to
    stream, and the class `BMWriter`. Its methods are proved against those
    functions.
  - Module `BitPackReader` holds the class `BMReader`. Its methods are
    proved against the reader functions.
  - A value is a 3-bit tag followed by its body. Integers take a 2-bit
    width class and 1–4 magnitude bytes. Strings, lists and maps take an
    untagged count and then their payload.
- **Cursor codec** (`src/binary-meesage2.ts`, module `CursorBuffer`).
  - `BufferWriter` and `BufferReader` write and read numbers, booleans and
    length-prefixed strings at an advancing `currentOffset`.
- **Bitsets** (`src/bitset.ts`, module `Bitsets`).
  - `Bitset` is a growable sequence of 32-bit words.
  - `Bitset32` is one word.
  - JavaScript's int32 behaviour is stated, not hidden:
    - shift counts are taken mod 32;
    - a word with bit 31 set is negative;
    - `couht` shifts arithmetically.
- **Shared helpers.**
  - Module `Bytes` holds `nextPowerOf2`, growth of a typed array,
    big-endian `DataView` numbers, and `slice`.
  - Module `Bits` holds MSB-first bit strings, JavaScript's `|` and
    `ToInt32`.

Representation choices:

- Bytes are integers in `0..255`. Words and bit streams are sequences of
  booleans.
- Every bitwise operator of the source is written out arithmetically, with
  JavaScript's 32-bit wrap-around made explicit.
- A getter or setter that throws a RangeError, and a string length the
  reader cannot allocate, appear as `None` or a `thrown` flag.

Each stateful class is a Dafny `class` with the source's fields. Each method
is specified by a function of the old state, and the properties are proved
about those functions:

- the round trips `deserialize(serialize(v)) == v`, `readNext` after
  `write`, and `read*` after `write*`;
- widths, tag layouts and cursor arithmetic;
- the bitset bit invariants.

## Model

| member | source | states |
|---|---|---|
| Bytes.NextPowerOf2 | src/binary-message.ts:80 | the result is a power of two, at least `n`, and either 1 or less than `2n` (the least such power) |
| Bytes.LeastPowerUnique | src/binary-message.ts:80 | at most one power of two is the least one at or above `n`, so `NextPowerOf2` is determined by its contract |
| Bytes.GrownLength | src/binary-message.ts:75-89 | the length after `expand(needed)`: never shrinks, covers `needed`, and is a power of two whenever it grew |
| Bytes.GrownTwice | src/binary-meesage2.ts:41-55 | growing to `m1` and then to `m2 >= m1` has the same length as growing to `m2` directly |
| Bytes.PadAt | src/binary-message.ts:85 | `newArr.set(arr, 0)` keeps the old bytes as a prefix, and every new byte is zero |
| Bytes.SpliceAt | src/binary-message.ts:143 | `arr.set(data, off)` puts `data` at `off` and leaves every other byte unchanged |
| Bytes.SpliceTwice | src/binary-message.ts:143 | two adjacent copies equal one copy of the concatenation |
| Bytes.PadSplice | src/binary-message.ts:85 | growing after a copy equals copying after growing |
| Bytes.PadPad | src/binary-message.ts:85 | growing twice equals growing once to the final length |
| Bytes.Grow | src/binary-message.ts:75-89 | `expand`: the new array has length `GrownLength`, keeps the old bytes followed by zeros, and is the same array when it was long enough |
| Bytes.Put | src/binary-message.ts:143 | `TypedArray.set` in place: the array becomes the old contents with `data` spliced in at `off` |
| Bytes.FromBigEndianBound | src/binary-message.ts:150-152 | a `w`-byte big-endian number is below 256^w |
| Bytes.BigEndianRoundTrip | src/binary-message.ts:125-127 | reading back `w` big-endian bytes of `v` gives `v mod 256^w`, the `DataView` setters' wrap-around |
| Bytes.BigEndianHead | src/binary-message.ts:125-127 | the first big-endian byte of `v` is its top byte |
| Bytes.SignedRoundTrip | src/binary-message.ts:153-155 | the signed getters map the stored `v mod 256^w` back to `v` for every `v` in the signed range |
| Bytes.Width | src/binary-message.ts:31-42 | `BSIZE` of the integer kinds is 1, 2 or 4 |
| Bytes.Store | src/binary-message.ts:125-130 | a `DataView` setter writes exactly `BSIZE[type]` bytes |
| Bytes.StoreLoadAny | src/binary-message.ts:125-155 | for every integer value, a setter followed by the matching getter gives the value modulo 256^width, reinterpreted as signed for `i8`/`i16`/`i32` |
| Bytes.StoreLoad | src/binary-message.ts:125-155 | a value within its type's range reads back unchanged |
| Bytes.NumberAt | src/binary-message.ts:149-161 | a getter yields a value exactly when the offset and the width fit inside the buffer, and throws a RangeError otherwise |
| Bytes.SliceIndex | src/binary-message.ts:173 | `slice` clamps an index into `0..length`, counting negative indices from the end |
| Bytes.Slice | src/binary-message.ts:173 | `slice` never yields more bytes than the array holds |
| Bytes.SliceInside | src/binary-message.ts:173 | `slice(start, end)` within bounds is exactly the bytes `start..end` |
| Bytes.WrittenAt | src/binary-message.ts:121-147 | an expand followed by a copy at `off` gives the store length `GrownLength(len, off + len(data))` |
| Bytes.GrowThenPut | src/binary-message.ts:142-143 | the `expand` then `set` of `write` is the store `WrittenAt` |
| Bytes.WrittenTwice | src/binary-message.ts:193-199 | writing `a` at `off` and then `b` right after it equals writing `a + b` at `off` |
| Bytes.WrittenAfter | src/binary-message.ts:193-199 | the same as WrittenTwice, for the stores a loop holds |
| Bytes.WrittenAtHolds | src/binary-message.ts:121-147 | after a write, the bytes at `off` are the data written |
| Bytes.WrittenAtFrame | src/binary-message.ts:121-147 | every other byte is unchanged, and a grown byte is 0 |
| Bytes.AtSplit | src/binary-message.ts:185-200 | data found at `off` splits into its parts at consecutive offsets |
| Bits.ToBits | src/binary-messagepack.ts:53-77 | the `w` bits of `n`, most significant first, have length `w` |
| Bits.FromBits | src/binary-messagepack.ts:174-198 | the number a bit string spells is below 2 to the power of its length |
| Bits.BitsOf | src/binary-messagepack.ts:67 | the bit view of a byte array has eight bits per byte |
| Bits.OrAt | src/binary-messagepack.ts:67 | OR-ing a bit string into a stream keeps the stream's length (bits past the end are dropped, as a typed array drops them) |
| Bits.Int32 | src/binary-messagepack.ts:103 | `ToInt32` lies in the int32 range |
| Bits.ToBitsSplit | src/binary-messagepack.ts:53-77 | the bits of `n` are the bits of its high part followed by the bits of its low part |
| Bits.ToBitsMod | src/binary-messagepack.ts:64 | only the low `w` bits of `n` appear in `ToBits(n, w)` |
| Bits.ToBitsFields | src/binary-messagepack.ts:53-77 | the bits of `a·2^k + b` are the bits of `a` followed by the bits of `b` |
| Bits.ToBitsSlice | src/binary-messagepack.ts:63 | a slice of the bits of `n` is the bits of `n` shifted right |
| Bits.FromToBits | src/binary-messagepack.ts:174-198 | reading back the `w` bits of `n` gives `n mod 2^w` |
| Bits.ToFromBits | src/binary-messagepack.ts:174-198 | writing the value of a bit string gives the bit string back |
| Bits.FromBitsAppend | src/binary-messagepack.ts:186 | the value of `a + b` is the value of `a` shifted left by the length of `b`, plus the value of `b`: the reader's shift-and-or step |
| Bits.ToBitsZero | src/binary-messagepack.ts:23 | zero is all clear bits |
| Bits.PlacedField | src/binary-messagepack.ts:64-65 | a masked field shifted left has its bits where `writePartial` puts them |
| Bits.OrBits | src/binary-messagepack.ts:67 | JavaScript's bitwise or on naturals is the OR of their bits |
| Bits.OrAtPast | src/binary-messagepack.ts:67 | an OR entirely past the end of the array changes nothing |
| Bits.OrAtTwice | src/binary-messagepack.ts:67 | two adjacent ORs equal one OR of the concatenation |
| Bits.BitsOfUpdate | src/binary-messagepack.ts:67 | updating one byte changes only that byte's eight bits in the bit view |
| Bits.OrIntoByte | src/binary-messagepack.ts:67 | the or-assignment into `arr[offset]` ORs the bits of `part` into that byte |
| Bits.OrAtWithin | src/binary-messagepack.ts:67 | an OR inside one byte is an OR into the stream at that byte's bit position |
| Bits.StoredOr | src/binary-messagepack.ts:67 | the byte the typed array keeps of `arr[offset]` or-ed with `part` has the OR of the two values' bits |
| Bits.BitsOfPad | src/binary-messagepack.ts:40 | growing the array appends clear bits to the stream |
| Bits.BitsOfPrefix | src/binary-messagepack.ts:155 | the bit view of a prefix of the bytes is a prefix of the bit view |
| Bits.Int32Small | src/binary-messagepack.ts:103 | the int32 truncation of `writeInt` leaves an int32 value unchanged |
| Bits.Int32Period | src/binary-messagepack.ts:103 | `ToInt32` depends only on the value modulo 2^32 |
| Bits.Int32Step | src/binary-messagepack.ts:186 | shifting the int32 accumulator left by `c` and or-ing in `part` equals one wrap of `r·2^c + part`, so the accumulator wraps once at the end |
| Bits.Mask | src/binary-messagepack.ts:64 | `n & ((1 << k) - 1)` is below `2^k` |
| SchemaCodec.Resolve | src/binary-message.ts:230-248 | a `Ref` descriptor is resolved to its arena entry, and every other descriptor is itself |
| SchemaCodec.Matches | src/binary-message.ts:224-249 | the values `serializeValue` stores without JavaScript coercion: a number under an integer tag, a boolean under `bool`, a string under `str`, a list under `[T]`, and `null` or an object holding every descriptor key under an object descriptor |
| SchemaCodec.Encode | src/binary-message.ts:224-249 | the bytes `serializeValue(v, d)` writes, dispatching on the resolved descriptor to a scalar, a list or an object |
| SchemaCodec.EncodeList | src/binary-message.ts:185-200 | the bytes `serializeArray` writes: the size tag of the length, then each item in order |
| SchemaCodec.EncodeObject | src/binary-message.ts:202-222 | the bytes `serializeObject` writes: a zero tag alone for `null`, else the tag of the descriptor's key count and the values in descriptor order |
| SchemaCodec.DecodeValue | src/binary-message.ts:305-319 | what `deserializeValue(d, off)` returns: a scalar, list or object read by the resolved descriptor, or nothing where a getter throws |
| SchemaCodec.DecodeList | src/binary-message.ts:258-278 | what `deserializeArray` returns: the size tag, then that many items, and the bytes consumed |
| SchemaCodec.DecodeObject | src/binary-message.ts:280-303 | what `deserializeObject` returns: `null` for a count of 0, otherwise one value per descriptor key whatever the count |
| SchemaCodec.SizeTag | src/binary-message.ts:91-104 | `writeSize` writes as many bytes as the width of the setter it picks |
| SchemaCodec.TagKind | src/binary-message.ts:91-104 | `writeSize` picks `u8`, `u16` or `u32` |
| SchemaCodec.SizeTagWidth | src/binary-message.ts:91-104 | for `size < 2^29` the tag is 1 byte below 32, 2 below 8192, else 4, and the top three bits of its first byte equal that width |
| SchemaCodec.TagFits | src/binary-message.ts:93-102 | the value `writeSize` passes fits its setter |
| SchemaCodec.TagHead | src/binary-message.ts:108 | the width discriminant sits in the top three bits of the big-endian first byte |
| SchemaCodec.TagMask | src/binary-message.ts:114-116 | masking the stored tag value with `readSize`'s mask recovers the size |
| SchemaCodec.SizeMaskedBits | src/binary-message.ts:114-116 | `readSize`'s mask, including its shift count taken mod 32, keeps exactly the low `8·width − 3` bits |
| SchemaCodec.ReadSize | src/binary-message.ts:106-119 | a size read stays inside the buffer and consumes at least one byte |
| SchemaCodec.SizeKind | src/binary-message.ts:110-111 | `readSize` always uses an unsigned getter |
| SchemaCodec.SizeRoundTrip | src/binary-message.ts:106-119 | `readSize` after `writeSize(size)` with `size < 2^29` gives `(size, width)` |
| SchemaCodec.ReadSizeOf | src/binary-message.ts:106-119 | `readSize` on a stored tag of width `t` yields the masked value and `BSIZE[t]` |
| SchemaCodec.ReadSizeSteps | src/binary-message.ts:106-119 | `readSize` is the first-byte read followed by the read of the width it names |
| SchemaCodec.EncodeScalar | src/binary-message.ts:121-135 | a non-string scalar write takes `BSIZE[type]` bytes |
| SchemaCodec.ReadScalar | src/binary-message.ts:163-178 | a successful `read` consumes at least one byte, starting inside the buffer |
| SchemaCodec.ScalarRoundTrip | src/binary-message.ts:163-178 | `read(type, off)` after `write(type, off, v)` gives `v` and the write's width, for in-range integers, booleans (byte > 0) and strings |
| SchemaCodec.NumberReadBack | src/binary-message.ts:149-155 | an in-range integer stored at `off` reads back unchanged |
| SchemaCodec.StringReadBack | src/binary-message.ts:168-177 | a size tag followed by the bytes reads back as those bytes and `tagWidth + length` |
| SchemaCodec.StringReadSteps | src/binary-message.ts:168-177 | a string read is `readSize` followed by a slice of that many bytes |
| SchemaCodec.DecodeItems | src/binary-message.ts:270-275 | the list loop never moves the offset backwards |
| SchemaCodec.DecodeFields | src/binary-message.ts:295-300 | the object loop never moves the offset backwards |
| SchemaCodec.DecodeEncode | src/binary-message.ts:305-319 | `deserializeValue` at `off`, over bytes that hold `serializeValue(v)` there, returns `v` and exactly the encoded length, for every value that fits its descriptor (recursive descriptors included) |
| SchemaCodec.ListRoundTrip | src/binary-message.ts:258-278 | the same for a list descriptor |
| SchemaCodec.ListHeader | src/binary-message.ts:193 | a list's encoding starts with the size tag of its length, followed by the items |
| SchemaCodec.ObjectRoundTrip | src/binary-message.ts:280-303 | the same for an object descriptor, with keys visited in descriptor order |
| SchemaCodec.ObjectHeader | src/binary-message.ts:209-215 | an object's encoding starts with the size tag of its key count, followed by the fields |
| SchemaCodec.EncodeListAt | src/binary-message.ts:185-200 | the encoding of a list is its size tag followed by every item's encoding |
| SchemaCodec.EncodeObjectAt | src/binary-message.ts:202-222 | the encoding of an object is its size tag followed by every field's encoding, in descriptor order |
| SchemaCodec.DecodeListAt | src/binary-message.ts:258-278 | `deserializeArray` is `readSize` followed by the item loop |
| SchemaCodec.DecodeObjectAt | src/binary-message.ts:280-303 | `deserializeObject` with a non-zero count is `readSize` followed by the field loop |
| SchemaCodec.DecodeItemsStep | src/binary-message.ts:270-275 | one list-loop turn reads one item and appends it |
| SchemaCodec.DecodeItemsStop | src/binary-message.ts:270-275 | an item that fails to read fails the list |
| SchemaCodec.DecodeFieldsStep | src/binary-message.ts:295-300 | one object-loop turn reads one field and assigns it under its key |
| SchemaCodec.DecodeFieldsStop | src/binary-message.ts:295-300 | a field that fails to read fails the object |
| SchemaCodec.ItemsDecode | src/binary-message.ts:270-275 | the list loop from item `i` on reads back the remaining items and ends after their encodings |
| SchemaCodec.ItemAt | src/binary-message.ts:271-274 | one list-loop turn over an encoded item reads that item and moves past its encoding |
| SchemaCodec.FieldsDecode | src/binary-message.ts:295-300 | the object loop from key `k` on rebuilds the value's entries for the remaining keys |
| SchemaCodec.FieldAt | src/binary-message.ts:296-299 | one object-loop turn over an encoded field reads it and moves past its encoding |
| SchemaCodec.TakenKeys | src/binary-message.ts:293-300 | the map the field loop builds has exactly the keys visited so far, each with the value's entry |
| SchemaCodec.TakenAll | src/binary-message.ts:293-300 | after the last key, the built map is the whole object |
| SchemaCodec.SerializeRoundTrip | src/binary-message.ts:251-325 | `deserialize(serialize(v, T), T) == v` for every value that fits `T`, and the bytes consumed equal the output length |
| SchemaCodec.NullWritesZero | src/binary-message.ts:211-213 | a `null` object writes only the one-byte size tag of 0 |
| SchemaCodec.ZeroCountIsNull | src/binary-message.ts:289 | a count of 0 at an object node decodes to `null` |
| SchemaCodec.EmptyObjectIsNull | src/binary-message.ts:209-213 | with a descriptor of no keys, any object round-trips to `null` |
| SchemaCodec.BBuffer.Create | src/binary-message.ts:65-69 | `BBuffer.create(size)` holds `size` zero bytes |
| SchemaCodec.BBuffer.Expand | src/binary-message.ts:75-89 | `expand` leaves the store alone when it is long enough; otherwise it grows to `nextPowerOf2(needed)`, keeps the old bytes and zero-fills the rest |
| SchemaCodec.BBuffer.Write | src/binary-message.ts:121-147 | `write` stores the scalar's encoding at `offset`, growing as needed, and returns its width |
| SchemaCodec.BBuffer.WriteStr | src/binary-message.ts:136-146 | a string write stores its size tag and then its bytes, and returns `tagWidth + length` |
| SchemaCodec.BBuffer.WriteSize | src/binary-message.ts:91-104 | `writeSize` stores the size tag and returns its width |
| SchemaCodec.SerializeValue | src/binary-message.ts:224-249 | `serializeValue` stores `Encode(v)` at `offset` and returns its length |
| SchemaCodec.SerializeItem | src/binary-message.ts:195-197 | the `forEach` callback stores one item's encoding |
| SchemaCodec.SerializeField | src/binary-message.ts:217-219 | the `forEach` callback stores one field's encoding |
| SchemaCodec.SerializeArray | src/binary-message.ts:185-200 | `serializeArray` stores the list's encoding and returns the bytes it advanced |
| SchemaCodec.SerializeObject | src/binary-message.ts:202-222 | `serializeObject` stores the object's encoding (a zero tag for `null`) and returns its length |
| SchemaCodec.Serialize | src/binary-message.ts:251-256 | `serialize` returns exactly `Encode(v)`: a 128-byte buffer, written and then sliced to the reported size |
| SchemaCodec.DeserializeValue | src/binary-message.ts:305-319 | `deserializeValue` returns the value and the consumed size that `DecodeValue` describes |
| SchemaCodec.DeserializeArray | src/binary-message.ts:258-278 | the array loop returns what `DecodeList` describes |
| SchemaCodec.DeserializeObject | src/binary-message.ts:280-303 | the key loop returns what `DecodeObject` describes |
| SchemaCodec.Deserialize | src/binary-message.ts:321-325 | `deserialize` returns the value decoded from offset 0 |
| BitPack.Tag | src/binary-messagepack.ts:79-100 | `write` tags every value with one of the 3-bit tags of `typeMap`, never 5 |
| BitPack.Encode | src/binary-messagepack.ts:79-100 | the bits `write(v)` emits: the 3-bit tag followed by the body of the value's kind |
| BitPack.WellFormed | src/binary-messagepack.ts:102-104 | the values the codec carries: numbers within int32, lengths below 2^31, distinct map keys |
| BitPack.AbsInt | src/binary-messagepack.ts:104 | `absInt` is the absolute value |
| BitPack.Magnitude | src/binary-messagepack.ts:103-104 | the stored magnitude, `n` wrapped to int32 and a negative made `abs(n) - 1`, is below 2^31 |
| BitPack.NumByteSize | src/binary-messagepack.ts:45-51 | `getNumByteSize` is the least `k` in 1..3 with `n < 2^(8k)`, else 4 |
| BitPack.ReadBits | src/binary-messagepack.ts:174-198 | a read of fewer than 32 bits is non-negative, and a read of at most 8 bits is a byte |
| BitPack.ReadInt | src/binary-messagepack.ts:223-228 | `readInt(negative)` reads a 2-bit size and that many bytes, and always moves past them |
| BitPack.ReadString | src/binary-messagepack.ts:236-246 | `readString` reads a length and then that many bytes, and a successful read moves forward |
| BitPack.PastEnd | src/binary-messagepack.ts:179 | bits read past the end of the array (`undefined` shifted and masked) are 0 |
| BitPack.SmallBits | src/binary-messagepack.ts:186 | below 32 bits the accumulator never wraps |
| BitPack.DecodeNext | src/binary-messagepack.ts:200-221 | a successful `readNext` always moves the cursor forward |
| BitPack.DecodeItems | src/binary-messagepack.ts:252-254 | the list loop never moves the cursor backwards |
| BitPack.DecodeEntries | src/binary-messagepack.ts:263-268 | the map loop never moves the cursor backwards |
| BitPack.WindowParts | src/binary-messagepack.ts:174-198 | reading a concatenation reads its parts one after the other |
| BitPack.ReadBack | src/binary-messagepack.ts:174-198 | `readPartial(m)` over the bits `writePartial(x, m)` left returns `x` |
| BitPack.MagnitudeBound | src/binary-messagepack.ts:103-104 | an int32's stored magnitude (`n`, or its absolute value less one when negative) fits in 31 bits and gives `n` back with the sign |
| BitPack.ReadIntBack | src/binary-messagepack.ts:223-228 | `readInt(n < 0)` over the bits of `writeInt(n)` returns `n` for every int32 |
| BitPack.ReadByteBack | src/binary-messagepack.ts:241-243 | each `readPartial(8)` of the string loop reads back its byte |
| BitPack.ReadBytesBack | src/binary-messagepack.ts:239-243 | the string loop reads back all the bytes written |
| BitPack.ReadStringBack | src/binary-messagepack.ts:236-246 | `readString` over a length and its bytes returns those bytes and ends after them |
| BitPack.AssignFresh | src/binary-messagepack.ts:267 | `r[k] = v` for a key not yet present appends it last |
| BitPack.DecodeEncode | src/binary-messagepack.ts:200-221 | `readNext` over the bits of `write(v)` returns `v` and stops right after them, for every value with int32 numbers and distinct map keys |
| BitPack.DecodeBodyBack | src/binary-messagepack.ts:203-220 | after the tag, each reader case reads back the body its writer emitted |
| BitPack.DecodeListBack | src/binary-messagepack.ts:248-257 | `readList` reads back a written list, items in order |
| BitPack.ListParts | src/binary-messagepack.ts:249-254 | a written list is its count followed by the item loop's input |
| BitPack.DecodeListStep | src/binary-messagepack.ts:214-215 | tag 4 dispatches to `readList` |
| BitPack.DecodeMapBack | src/binary-messagepack.ts:259-271 | `readMap` reads back a written map, entries in order |
| BitPack.MapParts | src/binary-messagepack.ts:260-268 | a written map is its count followed by the entry loop's input |
| BitPack.DecodeMapStep | src/binary-messagepack.ts:216-217 | tag 6 dispatches to `readMap` |
| BitPack.PastEndTag | src/binary-messagepack.ts:201 | a non-zero tag comes from inside the array, so the nested reads make progress |
| BitPack.DecodeItemsBack | src/binary-messagepack.ts:252-254 | the list loop from item `i` on reads back the remaining items |
| BitPack.ItemBack | src/binary-messagepack.ts:253 | one list-loop turn reads back one written item |
| BitPack.ItemsStep | src/binary-messagepack.ts:252-254 | one list-loop turn appends the value `readNext` returns |
| BitPack.ItemWellFormed | src/binary-messagepack.ts:135-137 | every item of a codable list is codable |
| BitPack.EntryWellFormed | src/binary-messagepack.ts:141-151 | every entry of a codable map has a codable key and value, and no earlier entry has the same key |
| BitPack.DecodeEntriesBack | src/binary-messagepack.ts:263-268 | the map loop from entry `i` on reads back the remaining entries |
| BitPack.EntryBack | src/binary-messagepack.ts:264-265 | one map-loop turn reads back one key and its value |
| BitPack.EntriesStep | src/binary-messagepack.ts:263-268 | one map-loop turn assigns the value under its key |
| BitPack.BigIntTagReadsZero | src/binary-messagepack.ts:218-219 | tag 5 (`bigint`) reads as 0 and consumes only the tag |
| BitPack.LargeNumberWraps | src/binary-messagepack.ts:91-104 | a number from 2^31 to 2^32 is written exactly as `2^32 − 1 − n` and reads back as that |
| BitPackWriter.Grown | src/binary-messagepack.ts:32-43 | `expand(needed)` keeps the position and the bits written, appends clear bits, and leaves room for `needed` bytes |
| BitPackWriter.Partial | src/binary-messagepack.ts:53-77 | `writePartial(n, b)` advances the bit position by exactly `b`, keeps the array length, and changes no bit before the old position |
| BitPackWriter.BytesWritten | src/binary-messagepack.ts:127-129 | the string loop advances the position by eight bits per byte and changes no bit before where it started |
| BitPackWriter.IntWritten | src/binary-messagepack.ts:102-112 | `writeInt(n)`, under any reservation, advances the position by the length of the width class and magnitude bits and changes no bit before it |
| BitPackWriter.StrWritten | src/binary-messagepack.ts:119-130 | `writeString`, under any reservation, advances past the length and eight bits per byte and changes no bit before it |
| BitPackWriter.ValueWritten | src/binary-messagepack.ts:79-100 | `write(v)`, under any reservation, advances the position by exactly the length of `Encode(v)` and never alters a bit written before it, even where a bit of `v` itself is lost |
| BitPackWriter.BodyWritten | src/binary-messagepack.ts:82-99 | each branch of `write` advances by the length of its body and keeps the bits before it |
| BitPackWriter.ItemsWritten | src/binary-messagepack.ts:132-138 | the `writeList` loop from item `i` advances by the items' encodings and keeps the bits before it |
| BitPackWriter.ItemWritten | src/binary-messagepack.ts:135-137 | one `writeList` turn advances by the item's encoding |
| BitPackWriter.EntriesWritten | src/binary-messagepack.ts:140-152 | the `writeMap` loop from entry `i` advances by the entries' encodings and keeps the bits before it |
| BitPackWriter.EntryWritten | src/binary-messagepack.ts:144-150 | one `writeMap` turn advances by the key string and the value's encoding |
| BitPackWriter.GrownHolds | src/binary-messagepack.ts:32-43 | growing keeps the bits already written and a clean tail |
| BitPackWriter.PartialHolds | src/binary-messagepack.ts:53-77 | with room, `writePartial(n, b)` appends the `b` bits of `n`, MSB first, and leaves earlier bits unchanged |
| BitPackWriter.GrownRoom | src/binary-messagepack.ts:108-111 | reserving `k` bytes past `offset` leaves room for `8k − 7` bits at any `reminder` |
| BitPackWriter.WriteBytesHolds | src/binary-messagepack.ts:127-129 | the string loop appends the bytes' bits |
| BitPackWriter.WriteIntHolds | src/binary-messagepack.ts:102-112 | `writeInt(n)` appends exactly the width class and the magnitude bits whenever its reservation covers them: with the source's one byte when at least two bits of the current byte are free, with two bytes always |
| BitPackWriter.WriteStrHolds | src/binary-messagepack.ts:119-130 | `writeString` appends exactly the length and then the bytes, under the same condition as its `writeInt` |
| BitPackWriter.WriteValueHolds | src/binary-messagepack.ts:79-100 | with the corrected two-byte reservation, `write(v)` appends exactly `Encode(v)` after what is already written, inside the array |
| BitPackWriter.WriteBodyHolds | src/binary-messagepack.ts:82-99 | with the corrected reservation, each branch of `write` appends its body after the tag |
| BitPackWriter.WriteItemsHolds | src/binary-messagepack.ts:132-138 | with the corrected reservation, the `writeList` loop appends every item's encoding |
| BitPackWriter.WriteEntriesHolds | src/binary-messagepack.ts:140-152 | with the corrected reservation, the `writeMap` loop appends every key and value |
| BitPackWriter.HoldsSpells | src/binary-messagepack.ts:154-156 | the bits a writer holds are what a reader sees from the same position |
| BitPackWriter.WriteThenRead | src/binary-messagepack.ts:79-100 | with the corrected reservation, after `write(v)` from any clean state `readNext` at the old position returns `v` and ends at the new position |
| BitPackWriter.WriteScalarHolds | src/binary-messagepack.ts:79-130 | with the source's one-byte reservation, `write(v)` of a null, number, boolean or string appends exactly `Encode(v)` when at least five bits of the current byte are free, as on a fresh writer |
| BitPackWriter.ScalarBodyHolds | src/binary-messagepack.ts:82-99 | with the source's reservation and two free bits, the body of a null, number, boolean or string lands whole |
| BitPackWriter.BufferReadsBack | src/binary-messagepack.ts:154-156 | the prefix `getBuffer` returns still holds the whole encoding |
| BitPackWriter.OneByte | src/binary-messagepack.ts:22-24 | `new BMWriter(1)` is a clean one-byte stream at position 0 |
| BitPackWriter.WriteTrue | src/binary-messagepack.ts:79-117 | as written, `write(true)` on a one-byte writer leaves tag 2 and bit 1 in the first four bits |
| BitPackWriter.WriteFive | src/binary-messagepack.ts:79-112 | as written, `write(5)` next starts its width bits at `reminder = 1`, reserves one byte too few, and the magnitude's lowest bit falls off the end |
| BitPackWriter.ReadFour | src/binary-messagepack.ts:200-228 | those bits read back as 4 |
| BitPackWriter.ReadTrue | src/binary-messagepack.ts:200-234 | the first value of those bits reads back as `true`, ending at bit 4 |
| BitPackWriter.ShortReservation | src/binary-messagepack.ts:108 | as written, `write(true)` then `write(5)` on `new BMWriter(1)` reads back `true` and 4 |
| BitPackWriter.FullReservation | src/binary-messagepack.ts:108 | with the two-byte reservation, the same writes read back 5 |
| BitPackWriter.ChunkBits | src/binary-messagepack.ts:61-65 | each `part` is the next bits of `n` placed at the free bits of the current byte, clear elsewhere |
| BitPackWriter.ChunkFills | src/binary-messagepack.ts:63 | `n >>> (unprocessed − reminder)` fills the free bits with the next bits of `n` |
| BitPackWriter.ChunkFits | src/binary-messagepack.ts:64-65 | the masked, left-shifted tail of `n` sits right after the used bits |
| BitPackWriter.MagnitudeFits | src/binary-messagepack.ts:106-111 | the magnitude fits the byte count `getNumByteSize` chose |
| BitPackWriter.ZerosClear | src/binary-messagepack.ts:23 | a fresh `Uint8Array` is all clear bits |
| BitPackWriter.BMWriter.constructor | src/binary-messagepack.ts:22-24 | a new writer is `initialSize` clear bytes at bit position 0 |
| BitPackWriter.BMWriter.Reset | src/binary-messagepack.ts:26-30 | `reset(size)` gives a fresh clear array and position 0 |
| BitPackWriter.BMWriter.Expand | src/binary-messagepack.ts:32-43 | `expand` changes the state exactly as `Grown` says, keeping `offset` and `reminder` |
| BitPackWriter.BMWriter.WritePartial | src/binary-messagepack.ts:53-77 | the loop ORs the bits of `n` in at the cursor, advances it by `bitSize`, and keeps `reminder` in 1..8 |
| BitPackWriter.BMWriter.WriteChunk | src/binary-messagepack.ts:57-75 | one loop turn ORs `min(reminder, unprocessed)` bits in, and a byte is left part-filled only at the end |
| BitPackWriter.BMWriter.OrPart | src/binary-messagepack.ts:67 | the or-assignment into `arr[offset]` ORs the chunk in at the cursor, and does nothing past the end of the array |
| BitPackWriter.BMWriter.Write | src/binary-messagepack.ts:79-100 | `write(v)` reserves `offset + 1` bytes, writes the tag and dispatches, changing the state exactly as `ValueWritten` with the source's one-byte reservation |
| BitPackWriter.BMWriter.WriteInt | src/binary-messagepack.ts:102-112 | `writeInt` reserves `offset + 1 + size` bytes, then writes the width class and the magnitude, as `IntWritten` with that reservation |
| BitPackWriter.BMWriter.WriteBoolean | src/binary-messagepack.ts:114-117 | `writeBoolean` reserves a byte and writes one bit |
| BitPackWriter.BMWriter.WriteString | src/binary-messagepack.ts:119-130 | `writeString` writes the length through `writeInt`, reserves `offset + strSize + 1` bytes, and writes eight bits per byte, as `StrWritten` with the source's reservation |
| BitPackWriter.BMWriter.WriteList | src/binary-messagepack.ts:132-138 | `writeList` writes the count and then every item with `write`, as `ItemsWritten` with the source's reservation |
| BitPackWriter.BMWriter.WriteMap | src/binary-messagepack.ts:140-152 | `writeMap` writes the count and then each key string and its value, as `EntriesWritten` with the source's reservation |
| BitPackWriter.BMWriter.GetBuffer | src/binary-messagepack.ts:154-156 | `getBuffer` has exactly `offset + 1` bytes when the array has them and the whole array otherwise, is a prefix of the array, and covers every bit written |
| BitPackReader.ChunkRead | src/binary-messagepack.ts:179-184 | `(n >>> (reminder − count)) & ((1 << count) − 1)` is the next `count` bits of the stream, 0 past the end |
| BitPackReader.ChunkInside | src/binary-messagepack.ts:183-184 | inside the array, the part is the byte's bits at the cursor |
| BitPackReader.ChunkPast | src/binary-messagepack.ts:179 | past the array, the part is 0 |
| BitPackReader.WindowJoin | src/binary-messagepack.ts:186 | reading `m` bits and then `k` more reads the `m + k` bits together |
| BitPackReader.BMReader.constructor | src/binary-messagepack.ts:164-166 | a new reader is at bit position 0 of the given bytes |
| BitPackReader.BMReader.Reset | src/binary-messagepack.ts:168-172 | `reset(buffer)` replaces the bytes and returns to position 0 |
| BitPackReader.BMReader.ReadPartial | src/binary-messagepack.ts:174-198 | `readPartial(b)` returns the next `b` bits as an int32 and advances the cursor by exactly `b` |
| BitPackReader.BMReader.ReadChunk | src/binary-messagepack.ts:179-195 | one loop turn reads `min(reminder, wanted)` bits, which are the next bits of the stream, and moves the cursor past them |
| BitPackReader.BMReader.ReadNext | src/binary-messagepack.ts:200-221 | `readNext` returns the value `DecodeNext` reads and moves to where it stops |
| BitPackReader.BMReader.ReadInt | src/binary-messagepack.ts:223-228 | `readInt` reads the width class and the magnitude and turns a negative's stored magnitude back into the number |
| BitPackReader.BMReader.ReadBoolean | src/binary-messagepack.ts:230-234 | `readBoolean` reads one bit as `bit > 0` |
| BitPackReader.BMReader.ReadString | src/binary-messagepack.ts:236-246 | `readString` reads the length and that many bytes, and fails (`new Uint8Array` throws) on a negative length |
| BitPackReader.BMReader.ReadList | src/binary-messagepack.ts:248-257 | `readList` reads the count and then as many values |
| BitPackReader.BMReader.ReadMap | src/binary-messagepack.ts:259-271 | `readMap` reads the count and then each key and value, assigning into the result |
| BitPackReader.WriteThenReadNext | test/binary-messagepack.test.ts:43-51 | on the classes as written: `new BMWriter()`, `write(v)`, `new BMReader(getBuffer())`, `readNext()` returns `v` for every null, int32 number, boolean and string, the kinds the test writes |
| BitPackReader.ShortReservationRun | src/binary-messagepack.ts:79-112 | on the classes as written: `new BMWriter(1)`, `write(true)`, `write(5)`, then `readNext()` twice over `getBuffer()` returns `true` and then 4 |
| CursorBuffer.Expanded | src/binary-meesage2.ts:41-55 | `expand(n)` yields `GrownLength` bytes, at least `n` |
| CursorBuffer.NumberWritten | src/binary-meesage2.ts:57-74 | `writeNumber` makes room for the number at the old offset |
| CursorBuffer.Prefixed | src/binary-meesage2.ts:88-90 | after the length prefix and the `expand` that follows, there is room for the prefix and the string |
| CursorBuffer.StringWritten | src/binary-meesage2.ts:84-94 | `writeString(t, data)` as written: the length prefix, room for the bytes, then the copy `CopiedPastRoom` describes |
| CursorBuffer.CopiedPastRoom | src/binary-meesage2.ts:91-93 | the copy lands the string's length in bytes past the prefix, and throws with the offset just past the prefix when that runs past the store |
| CursorBuffer.StringAt | src/binary-meesage2.ts:144-157 | what `readString(t)` returns: the length, that many bytes after it, and the offset past them, or nothing when the length read fails |
| CursorBuffer.StringWrittenAdjacent | src/binary-meesage2.ts:84-94 | the intended string write never throws and advances past the prefix and the bytes |
| CursorBuffer.NumberRoundTrip | src/binary-meesage2.ts:128-134 | `readNumber(t)` at an offset where `writeNumber(t, v)` wrote an in-range `v` returns `v` |
| CursorBuffer.NumberTruncates | src/binary-meesage2.ts:57-74 | any number is stored modulo its width and read back reinterpreted by the getter |
| CursorBuffer.NumberWrittenFrame | src/binary-meesage2.ts:57-74 | `writeNumber` changes no byte outside its width |
| CursorBuffer.BooleanRoundTrip | src/binary-meesage2.ts:136-142 | `readBoolean` after `writeBoolean(b)` returns `b` |
| CursorBuffer.PrefixedHoldsLength | src/binary-meesage2.ts:88 | the prefix holds the string's length |
| CursorBuffer.NumberAtStored | src/binary-meesage2.ts:128-134 | bytes holding a stored in-range number read back as it |
| CursorBuffer.StringAtStored | src/binary-meesage2.ts:144-157 | a length prefix followed by the bytes reads back as those bytes |
| CursorBuffer.StringRoundTrip | src/binary-meesage2.ts:144-157 | `readString` after the adjacent string write returns the bytes and the offset past them |
| CursorBuffer.StoredAfterPrefix | src/binary-meesage2.ts:91 | a copy right after the prefix leaves the prefix intact |
| CursorBuffer.StringGap | src/binary-meesage2.ts:91 | as written, `[7]` written at offset 0 of a 16-byte buffer reads back as `[0]` |
| CursorBuffer.StringOverruns | src/binary-meesage2.ts:90-91 | as written, ten bytes at offset 0 of a 16-byte buffer make `set` throw |
| CursorBuffer.NumberKept | src/binary-meesage2.ts:57-74 | a number written at or past the end of an earlier number leaves that earlier number reading the same |
| CursorBuffer.NumberThenBoolean | src/binary-meesage2.ts:29-142 | on the classes: a fresh `BufferWriter` of any initial size writes an in-range number and a boolean, and a `BufferReader` over `getBuffer()` reads back both |
| CursorBuffer.BufferWriter.constructor | src/binary-meesage2.ts:34-39 | a new writer owns a fresh store of `initialSize` zero bytes at offset 0 |
| CursorBuffer.BufferWriter.Expand | src/binary-meesage2.ts:41-55 | `expand` changes the store as `Expanded` says and keeps the offset |
| CursorBuffer.BufferWriter.WriteNumber | src/binary-meesage2.ts:57-74 | `writeNumber` stores the big-endian number at the old offset and advances by its width |
| CursorBuffer.BufferWriter.WriteBoolean | src/binary-meesage2.ts:76-82 | `writeBoolean` stores 1 or 0 and advances by 1 |
| CursorBuffer.BufferWriter.WritePrefix | src/binary-meesage2.ts:87-90 | the prefix write and the `expand` after it |
| CursorBuffer.BufferWriter.WriteString | src/binary-meesage2.ts:84-94 | `writeString` as written: the copy lands `strSize` bytes past the prefix, and it throws when the copy runs past the store |
| CursorBuffer.BufferWriter.CopyPastRoom | src/binary-meesage2.ts:91-93 | the copy past the room and the offset update |
| CursorBuffer.BufferWriter.WriteStringAdjacent | src/binary-meesage2.ts:84-94 | the corrected `writeString`: the bytes directly after the prefix |
| CursorBuffer.BufferWriter.GetBuffer | src/binary-meesage2.ts:96-98 | `getBuffer` is the whole store, unused capacity included |
| CursorBuffer.BufferReader.constructor | src/binary-meesage2.ts:106-109 | a new reader is at offset 0 of the given bytes |
| CursorBuffer.BufferReader.Reset | src/binary-meesage2.ts:111-113 | `reset` sets the offset to 0 and changes nothing else |
| CursorBuffer.BufferReader.ReadNumber | src/binary-meesage2.ts:128-134 | `readNumber` returns the getter's value and advances by the width, and a read out of range throws |
| CursorBuffer.BufferReader.ReadBoolean | src/binary-meesage2.ts:136-142 | `readBoolean` returns byte > 0 and advances by 1 |
| CursorBuffer.BufferReader.ReadString | src/binary-meesage2.ts:144-157 | `readString` reads the length, slices that many bytes right after it, and advances past them |
| Bitsets.UnsignedBound | src/bitset.ts:2 | a word's unsigned value is below 2^32 |
| Bitsets.UnsignedZero | src/bitset.ts:93 | a bit string is 0 exactly when every bit is clear |
| Bitsets.UnsignedTop | src/bitset.ts:47 | the top bit is set exactly when the unsigned value is at least 2^(n−1) |
| Bitsets.WordRange | src/bitset.ts:47 | bit 31 of a word is set exactly when its unsigned value is at least 2^31 |
| Bitsets.WordBitsOf | src/bitset.ts:120-121 | the word of an unsigned value has that value |
| Bitsets.PositiveBits | src/bitset.ts:47 | a word is `> 0` exactly when bit 31 is clear and some lower bit is set |
| Bitsets.SetWordBit | src/bitset.ts:36-42 | or-ing in `1 << i` and and-ing with `~(1 << i)` change only bit `i mod 32` |
| Bitsets.FlipWordBit | src/bitset.ts:81-84 | `^= 1 << i` negates only bit `i mod 32` |
| Bitsets.FlipWordTwice | src/bitset.ts:164-170 | flipping the same bit twice restores the word |
| Bitsets.WordTestMissesTopBit | src/bitset.ts:136-142 | `(w & (1 << i)) > 0` is bit `i mod 32`, except that bit 31 is never reported |
| Bitsets.CountAppend | src/bitset.ts:87-100 | the set bits of a concatenation add up |
| Bitsets.AsrNonNegative | src/bitset.ts:93-96 | on a non-negative word, `n >>= 1` keeps it non-negative, removes bit 0 from the count and makes it smaller |
| Bitsets.ZeroValue | src/bitset.ts:93 | `while (n)` stops exactly at the zero word |
| Bitsets.AsrKeepsNegative | src/bitset.ts:93-96 | on a negative word, `n >>= 1` never reaches 0, so `couht` would not stop |
| Bitsets.WordPopCount | src/bitset.ts:172-182 | the `couht` loop on a non-negative word returns its number of set bits |
| Bitsets.WordsFor | src/bitset.ts:20-28 | `expand` ends with the fewest words, no fewer than before, that cover `needed` bits |
| Bitsets.ZeroWords | src/bitset.ts:24 | the pushed words are zero |
| Bitsets.Expanded | src/bitset.ts:20-28 | `expand` keeps the existing words and appends zero words |
| Bitsets.ExpandedBits | src/bitset.ts:20-28 | `expand` changes no bit |
| Bitsets.ExpandedNoop | src/bitset.ts:20-28 | `expand` changes nothing when the words already cover `needed` bits |
| Bitsets.SetAt | src/bitset.ts:30-43 | `set(i, v)` leaves enough words to hold bit `i` |
| Bitsets.SetAtBit | src/bitset.ts:30-43 | after `set(i, v)` bit `i` is `v` and every other bit is unchanged |
| Bitsets.FlipAt | src/bitset.ts:76-85 | `flip(i)` leaves enough words to hold bit `i` |
| Bitsets.FlipAtBit | src/bitset.ts:76-85 | `flip(i)` negates bit `i` and no other |
| Bitsets.FlipTwice | src/bitset.ts:76-85 | `flip(i)` twice restores every word, apart from the growth `expand` made |
| Bitsets.TestAtBit | src/bitset.ts:65-74 | `test(i)` is bit `i`, except that a bit with `i mod 32 = 31` is never reported |
| Bitsets.SetThenTest | src/bitset.ts:30-74 | `test(i)` after `set(i, v)` is `v`, except at bit 31 of a word |
| Bitsets.SetThenTestTopBit | src/bitset.ts:73 | as written, `set(31)` sets the bit and `test(31)` returns false |
| Bitsets.TestAtFixedBit | src/bitset.ts:73 | an unsigned comparison (`!== 0`) reports exactly bit `i` |
| Bitsets.SetThenTestFixed | src/bitset.ts:30-74 | with that comparison, `test(i)` after `set(i, v)` is `v` for every `i` |
| Bitsets.AnyPositiveSound | src/bitset.ts:45-51 | when `any()` is true, some bit is set |
| Bitsets.AnyMissesTopBit | src/bitset.ts:45-51 | a set whose only bit is 31 has a bit set, but `any()` is false |
| Bitsets.AnyBitExactly | src/bitset.ts:45-51 | some word is non-zero exactly when some bit is set |
| Bitsets.DigitValue | src/bitset.ts:13 | `parseInt` of one character gives a digit value below 36, or −1 for a character that is no digit |
| Bitsets.DigitCharValue | src/bitset.ts:110 | parsing a digit that `toString` rendered gives it back |
| Bitsets.BitsOf | src/bitset.ts:13 | the low `w` bits of a number, least significant first, are `w` bits |
| Bitsets.UnsignedBitsOf | src/bitset.ts:13 | the bits of `n < 2^w` have value `n` |
| Bitsets.BitsOfUnsigned | src/bitset.ts:110 | the bits of a bit string's value are that bit string |
| Bitsets.Int32WordOf | src/bitset.ts:120-121 | an int32 becomes a word with that int32 value |
| Bitsets.Positive | src/bitset.ts:47 | `w > 0` on the word's signed int32 value |
| Bitsets.TestAt | src/bitset.ts:65-74 | what `test(i)` returns: `(word & (1 << i)) > 0` on the words expanded to cover bit `i` |
| Bitsets.AnyPositive | src/bitset.ts:45-51 | what `any()` returns: some word is a positive int32 |
| Bitsets.ParseWord | src/bitset.ts:9-14 | `parseInt(c, base)` stored as a word, NaN stored as 0 |
| Bitsets.Render | src/bitset.ts:106-114 | `toString(base)`: each word's `toString(base)` joined with no separator |
| Bitsets.ParseWords | src/bitset.ts:9-14 | the string constructor pushes one word per character |
| Bitsets.ParseWordsAppend | src/bitset.ts:12-14 | each loop turn pushes the word of one character |
| Bitsets.NonNegativeWord | src/bitset.ts:110 | a non-negative word has bit 31 clear and equals its unsigned value |
| Bitsets.WordOfNonNegative | src/bitset.ts:110 | a non-negative word is the word of its value |
| Bitsets.RadixDigit | src/bitset.ts:110 | a word below the base renders as one digit |
| Bitsets.ParseDigit | src/bitset.ts:13 | that digit parses back to the word |
| Bitsets.RenderParse | src/bitset.ts:106-114 | `toString(base)` then the string constructor with the same base restores the words when each is a single digit |
| Bitsets.RenderParseSplits | src/bitset.ts:106-114 | a word of 32 renders as "10" in base 32 and parses back as two words, 1 and 0 |
| Bitsets.RenderThirtyTwo | src/bitset.ts:106-114 | `toString(32)` of the word 32 is "10" |
| Bitsets.ParseOneZero | src/bitset.ts:9-14 | the string constructor in base 32 reads "10" as the words 1 and 0 |
| Bitsets.Bitset.constructor | src/bitset.ts:15-17 | the array constructor keeps the given words |
| Bitsets.Bitset.FromString | src/bitset.ts:9-14 | the string constructor parses each character in `base` |
| Bitsets.Bitset.Expand | src/bitset.ts:20-28 | the loop appends zero words until the words cover `neededSize` bits |
| Bitsets.Bitset.Set | src/bitset.ts:30-43 | `set` expands and then sets or clears bit `index` |
| Bitsets.Bitset.Any | src/bitset.ts:45-51 | `any` is true exactly when some word is `> 0` |
| Bitsets.Bitset.None | src/bitset.ts:53-59 | `none` is exactly `!any()` |
| Bitsets.Bitset.Reset | src/bitset.ts:61-63 | `reset` empties the words, after which `none()` holds |
| Bitsets.Bitset.Test | src/bitset.ts:65-74 | `test` expands and reports bit `index` by the signed comparison |
| Bitsets.Bitset.Flip | src/bitset.ts:76-85 | `flip` expands and negates bit `index` |
| Bitsets.Bitset.Count | src/bitset.ts:87-100 | the nested loops return the number of set bits over all words, when no word is negative |
| Bitsets.Bitset.ToString | src/bitset.ts:106-114 | `toString` joins each word rendered in `base` |
| Bitsets.Bitset32.constructor | src/bitset.ts:120-122 | the word holds the initial int32 value |
| Bitsets.Bitset32.Any | src/bitset.ts:124-126 | `any` is `value > 0` |
| Bitsets.Bitset32.None | src/bitset.ts:128-130 | `none` is `value === 0` |
| Bitsets.Bitset32.Reset | src/bitset.ts:132-134 | `reset` clears the word |
| Bitsets.Bitset32.Test | src/bitset.ts:136-142 | `test` is bit `index mod 32`, never bit 31 |
| Bitsets.Bitset32.SetAll | src/bitset.ts:144-146 | `setAll` assigns `MAX` |
| Bitsets.Bitset32.Set | src/bitset.ts:148-158 | `set` sets or clears bit `index mod 32` only |
| Bitsets.Bitset32.FlipAll | src/bitset.ts:160-162 | `flipAll` XORs with `MAX` |
| Bitsets.Bitset32.Flip | src/bitset.ts:164-170 | `flip` negates bit `index mod 32` only |
| Bitsets.Bitset32.Count | src/bitset.ts:172-182 | `couht` returns the number of set bits of a non-negative word |
| Bitsets.Bitset32.GetValue | src/bitset.ts:184-186 | `getValue` is the word's int32 value |
| Bitsets.Bitset32.GetSize | src/bitset.ts:188-190 | `getSize` is always 32 |
| Bitsets.FlipAllTwice | src/bitset.ts:160-162 | `flipAll` twice is the identity |
| Bitsets.SetAllBits | src/bitset.ts:1 | `MAX` has exactly bits 0–29 set: it is positive with 30 set bits, and bits 30 and 31 are clear |
| Bitsets.CountPrefix | src/bitset.ts:1 | a run of ones followed by zeros counts its ones |

## Left out

- Floating point: the `f32`/`f64` kinds of both `DataView` codecs. Their round trip holds only to a decimal tolerance.
- UTF-8: `TextEncoder`/`TextDecoder` are calls into the platform. Strings are their byte sequences throughout.
- `nextPowerOf2`, `absInt` and `minInt` come from the library's index module, which is not part of this model. They are specified as the least power of two at or above `n`, the absolute value, and the minimum.
- The value types JavaScript admits:
  - `typeof` dispatch over arbitrary objects, `bigint` and function values, and `undefined` as a distinct value (it encodes like `null`);
  - non-integer numbers, which `n |= 0` truncates.
  All of these are outside the value datatypes.
- `Object.keys` ordering rules (integer-like keys first) and the `__proto__` key. A map is the sequence of its keys in enumeration order.
- `readNext`'s `nullValue` argument: tag 7 always reads as `Null`, its default.
- `BMReader`'s constructor with no buffer: the model passes the empty byte sequence.
- The `dv`/`arr` pair of `BBuffer` and `BufferWriter` is one store seen through two views, and the model keeps the one store. `toArrayBuffer` is the store itself.
- BitPack.DecodeEncode: the round trip is proved for numbers within the int32 range only. A number from 2^31 up gets the unsigned tag before `n |= 0` wraps it, and `BitPack.LargeNumberWraps` states what it reads back as. Numbers of 2^32 or more wrap further and are not stated.
- BitPackWriter.WriteThenRead: the same int32 bound. It is also proved for the corrected two-byte reservation only, because the source's one-byte reservation loses bits (see Findings).
- BitPackWriter.WriteValueHolds, BitPackWriter.WriteBodyHolds, BitPackWriter.WriteItemsHolds and BitPackWriter.WriteEntriesHolds: these are stated for the corrected two-byte reservation, the half of the finding at src/binary-messagepack.ts:108 that the rest of the model relies on. The class `BMWriter` follows the source's one-byte reservation, stated by `ValueWritten` with a slack of 1.
- BitPackWriter.WriteIntHolds and BitPackWriter.WriteStrHolds: under the source's one-byte reservation they are stated only when at least two bits of the current byte are free. With fewer, the last magnitude bits can fall past the array.
- BitPackWriter.WriteScalarHolds: stated for nulls, numbers, booleans and strings when at least five bits of the current byte are free, as on a fresh writer. Lists, maps and later writes can lose bits under the source's reservation, as `BitPackReader.ShortReservationRun` shows.
- BitPackReader.WriteThenReadNext: proved on the classes as written for a fresh writer and a null, int32 number, boolean or string, the kinds the codec's tests write. Lists and maps are covered only by `BitPackWriter.WriteThenRead`, under the corrected reservation.
- BitPackWriter.BMWriter.GetBuffer: `getBuffer` slices `offset + 1` bytes, and `slice` clamps that to the array. The two differ only when the bit position has reached the array's end, so that `offset` equals the array length. This happens after a write whose last bits fell on or past the end. The model states the clamped length in both cases.
- Bitsets.Bitset.constructor: the words are 32-bit patterns read as int32. A caller's number outside the int32 range (2^31, say) is kept by the source as it is, and `any()` then sees it as positive. Such a number has no word of its own in the model, and its int32 pattern (`WordOf`) is negative, so `any()` would differ on it. Numbers outside int32 and non-integers are not modelled.
- SchemaCodec.Serialize and SchemaCodec.SerializeRoundTrip: stated for values that `Matches` their descriptor. The source also writes a value of the wrong kind through JavaScript coercion (a string under `u8` becomes NaN and is stored as 0), and the model does not cover those values.
- `BitPack.WellFormed`: lengths and counts at or above 2^31 are excluded, because their int32 wrap makes the length field negative.
- `Bitsets.Bitset.Set`, `Bitsets.Bitset.Test`, `Bitsets.Bitset.Flip`: the index is a natural below 2^31. A negative or larger index makes `index >>> 5` a huge array index, which the model does not cover.
- `Bitsets.Bitset.Count` and `Bitsets.Bitset32.Count` require that no word is negative. Otherwise the source's loop never ends (`Bitsets.AsrKeepsNegative`).
- `Bitsets.Bitset32.constructor`: the initial value is an int32. A non-integer or wider number is not modelled.
- `Bitsets.Bitset.ToString` and `Bitsets.Bitset.FromString`: the base is 2..36, the range `toString` and `parseInt` accept.
- A character that is no digit of the base makes `parseInt` return NaN. The model stores it as the word 0, which is how every bitwise operator treats NaN. `toString` would render it as "NaN", which the model does not.
- Caller aliasing in `Bitset`: the array constructor and `toArray` share the caller's array. The model owns its words.
- `createBitset`/`createBitset32` are one-line factories for the constructors, and `toArray` returns the words. Neither is modelled separately.
- Update in place of the schema codec's output: `serialize` returns a fresh `ArrayBuffer` slice, which the model returns as a sequence.

## Findings

| source | as written | input that shows it | evidently intended | confidence | as-written member | corrected member |
|---|---|---|---|---|---|---|
| src/bitset.ts:73 | `test` returns `(word & (1 << i)) > 0`, a signed comparison, so bit 31 of any word is never reported; `any`/`none` (lines 47, 55, 125) miss a word whose only bit is 31 the same way | `set(31)` then `test(31)` returns false | `test(i)` returns the bit, e.g. `!== 0` | not executed | Bitsets.SetThenTestTopBit | Bitsets.SetThenTestFixed |
| src/binary-meesage2.ts:91 | `writeString` copies the bytes to `currentOffset + strSize`, `strSize` bytes past the prefix, and throws when that copy runs past the store | `new BufferWriter()`, `writeString(u8, [7])`, then `readString(u8)` returns `[0]` | the bytes directly after the prefix, so `readString` returns them | not executed | CursorBuffer.StringGap | CursorBuffer.StringRoundTrip |
| src/binary-messagepack.ts:108 | `writeInt` reserves `offset + 1 + size` bytes, but its `2 + 8·size` bits touch `size + 2` bytes when `reminder` is 1. Likewise, `write` reserves only `offset + 1` (line 80) for the 3-bit tag, which spills into the next byte when `reminder` is below 3. A bit past the array is silently dropped | `new BMWriter(1)`, `write(true)`, `write(5)`: `readNext` twice returns `true`, then 4 | reserve one byte more (`offset + 2`, `offset + 2 + size`), so every written bit lands in the array | not executed | BitPackReader.ShortReservationRun | BitPackWriter.FullReservation |
