/** The reader of src/binary-messagepack.ts.  `BMReader` walks the same bit
    stream as the writer: `offset` is the byte being read and `reminder` the
    number of its bits still unread.  Each method is specified by the
    reading functions of module BitPack on `BitsOf(arr)` from the reader's
    position; `None` stands for the RangeError `new Uint8Array` throws on a
    negative string length. */
module BitPackReader {
  import opened Bytes
  import opened Bits
  import opened BitPack
  import opened BitPackWriter

  /** `(r << count) | part` on the 32-bit accumulator of `readPartial`: the
      shift wraps to 32 bits and leaves the low `count` bits clear, so the
      OR with a part below 2^count adds it. */
  function ShiftIn(r: int, count: nat, part: nat): (r': int)
  {
    Int32(r * Pow2(count)) + part
  }

  /** The part `readPartial` takes from byte `offset` when `free` of its
      bits are unread: the next `count` bits of the stream.  Past the end of
      the array the byte reads `undefined`, which the shift turns into 0. */
  lemma ChunkRead(a: seq<byte>, offset: nat, free: nat, count: nat, part: nat)
    requires 1 <= count <= free <= 8
    requires part == Mask(ShiftRight(if offset < |a| then a[offset] else 0, free - count), count)
    ensures part == FromBits(Window(BitsOf(a), 8 * offset + 8 - free, count))
  {
    hide ToBits, BitsOf, Window, FromBits;
    if offset < |a| {
      ChunkInside(a, offset, free, count);
      FromToBits(ShiftRight(a[offset], free - count), count);
    } else {
      ChunkPast(a, offset, free, count);
      FromToBits(0, count);
    }
  }

  lemma ChunkInside(a: seq<byte>, offset: nat, free: nat, count: nat)
    requires 1 <= count <= free <= 8 && offset < |a|
    ensures Window(BitsOf(a), 8 * offset + 8 - free, count) == ToBits(ShiftRight(a[offset], free - count), count)
  {
    hide ToBits, BitsOf;
    var p := 8 * offset + 8 - free;
    var byteBits := ToBits(a[offset], 8);
    BitsOfByte(a, offset);
    forall k | 0 <= k < count
      ensures Window(BitsOf(a), p, count)[k] == byteBits[8 - free..8 - free + count][k]
    {
      assert BitsOf(a)[8 * offset..8 * offset + 8][8 - free + k] == BitsOf(a)[p + k];
    }
    ToBitsSlice(a[offset], 8, 8 - free, count);
  }

  lemma ChunkPast(a: seq<byte>, offset: nat, free: nat, count: nat)
    requires 1 <= count <= free <= 8 && offset >= |a|
    ensures Window(BitsOf(a), 8 * offset + 8 - free, count) == ToBits(0, count)
  {
    var p := 8 * offset + 8 - free;
    forall k | 0 <= k < count
      ensures Window(BitsOf(a), p, count)[k] == NoBits(count)[k]
    {
      assert !BitAt(BitsOf(a), p + k);
    }
    ToBitsZero(count);
  }

  /** A window is the window before it followed by the next bits. */
  lemma WindowJoin(s: seq<bool>, p: nat, m: nat, k: nat)
    ensures Window(s, p, m + k) == Window(s, p, m) + Window(s, p + m, k)
  {
    hide BitAt;
    WindowSlice(s, p, m + k, 0, m);
    WindowSlice(s, p, m + k, m, k);
    assert Window(s, p, m + k) == Window(s, p, m + k)[0..m] + Window(s, p, m + k)[m..m + k];
  }

  /** `BMReader` */
  class BMReader {
    var arr: seq<byte>
    var offset: nat
    var reminder: nat

    /** `reminder` counts the unread bits of the byte at `offset`. */
    ghost predicate Valid()
      reads this
    {
      1 <= reminder <= 8
    }

    /** The array as a bit stream. */
    ghost function Bits(): seq<bool>
      reads this
    {
      BitsOf(arr)
    }

    /** The reader's position in the stream. */
    ghost function Position(): nat
      requires Valid()
      reads this
    {
      8 * offset + 8 - reminder
    }

    /** `new BMReader(buffer)`; no buffer is the empty array. */
    constructor (buffer: seq<byte>)
      ensures Valid() && arr == buffer && Position() == 0
    {
      arr := buffer;
      offset := 0;
      reminder := 8;
    }

    /** `reset(buffer)`: a new array, read from its start. */
    method Reset(buffer: seq<byte>)
      modifies this
      ensures Valid() && arr == buffer && Position() == 0
    {
      arr := buffer;
      offset := 0;
      reminder := 8;
    }

    /** `readPartial(bitSize)`: the next `bitSize` bits as a number in the
        32-bit accumulator. */
    method ReadPartial(bitSize: nat) returns (r: int)
      requires Valid()
      modifies this
      ensures Valid() && arr == old(arr)
      ensures r == ReadBits(Bits(), old(Position()), bitSize)
      ensures Position() == old(Position()) + bitSize
    {
      hide ToBits, BitsOf, FromBits, Int32, Window, Mask, ShiftRight;
      ghost var s := Bits();
      ghost var p0 := Position();
      r := 0;
      var processed := 0;
      assert Window(s, p0, 0) == [];
      assert FromBits([]) == 0 by { FromToBits(0, 0); }
      Int32Small(0);
      while processed < bitSize
        invariant Valid() && arr == old(arr) && processed <= bitSize
        invariant Position() == p0 + processed
        invariant r == Int32(FromBits(Window(s, p0, processed)))
      {
        var processCount, part := ReadChunk(bitSize - processed);
        WindowJoin(s, p0, processed, processCount);
        FromBitsAppend(Window(s, p0, processed), Window(s, p0 + processed, processCount));
        Int32Step(FromBits(Window(s, p0, processed)), processCount, part);
        r := ShiftIn(r, processCount, part);
        processed := processed + processCount;
      }
    }

    /** One turn of the loop of `readPartial`: as many of the `want` bits
        still to read as the current byte has unread, as a number. */
    method ReadChunk(want: nat) returns (processCount: nat, part: nat)
      requires Valid() && want >= 1
      modifies this
      ensures Valid() && arr == old(arr)
      ensures 1 <= processCount <= want && processCount <= 8
      ensures part < Pow2(processCount)
      ensures part == FromBits(Window(Bits(), old(Position()), processCount))
      ensures Position() == old(Position()) + processCount
    {
      hide ToBits, BitsOf, FromBits, Window, Mask, ShiftRight;
      var n := if offset < |arr| then arr[offset] else 0;
      processCount := if reminder < want then reminder else want;
      part := Mask(ShiftRight(n, reminder - processCount), processCount);
      ChunkRead(arr, offset, reminder, processCount, part);
      reminder := reminder - processCount;
      if reminder == 0 {
        offset := offset + 1;
        reminder := 8;
      }
    }

    /** `readNext()`: the tag, then the value it announces; tag 5, which
        the writer never emits, reads as 0. */
    method ReadNext() returns (r: Option<Value>)
      requires Valid()
      modifies this
      ensures Valid() && arr == old(arr)
      ensures match DecodeNext(Bits(), old(Position()))
        case None => r.None?
        case Some((v, q)) => r == Some(v) && Position() == q
      decreases Room(Bits(), Position()), 2
    {
      hide ToBits, BitsOf, Window, ReadBits, BitPack.ReadInt, BitPack.ReadString, DecodeItems, DecodeEntries;
      ghost var p := Position();
      var tag := ReadPartial(3);
      PastEndTag(Bits(), p);
      if tag == NullTag {
        r := Some(Null);
      } else if tag == UIntTag || tag == IntTag {
        var n := ReadInt(tag == IntTag);
        r := Some(Num(n));
      } else if tag == BoolTag {
        var b := ReadBoolean();
        r := Some(Bool(b));
      } else if tag == StrTag {
        var bytes := ReadString();
        r := if bytes.Some? then Some(Str(bytes.value)) else None;
      } else if tag == ListTag {
        r := ReadList(Room(Bits(), p));
      } else if tag == MapTag {
        r := ReadMap(Room(Bits(), p));
      } else {
        r := Some(Num(0));
      }
    }

    /** `readInt(isNegative)`: the byte count less one in two bits, then
        the magnitude; a negative number was stored as |n| - 1. */
    method ReadInt(isNegative: bool) returns (n: int)
      requires Valid()
      modifies this
      ensures Valid() && arr == old(arr)
      ensures (n, Position()) == BitPack.ReadInt(Bits(), old(Position()), isNegative)
    {
      var size := ReadPartial(2);
      size := size + 1;
      n := ReadPartial(size * 8);
      n := n + (if isNegative then 1 else 0);
      n := if isNegative then -n else n;
    }

    method ReadBoolean() returns (b: bool)
      requires Valid()
      modifies this
      ensures Valid() && arr == old(arr)
      ensures b == (ReadBits(Bits(), old(Position()), 1) > 0)
      ensures Position() == old(Position()) + 1
    {
      var n := ReadPartial(1);
      b := n > 0;
    }

    /** `readString()` up to the text decoding: the length, then that many
        bytes; a negative length makes `new Uint8Array` throw. */
    method ReadString() returns (r: Option<seq<byte>>)
      requires Valid()
      modifies this
      ensures Valid() && arr == old(arr)
      ensures match BitPack.ReadString(Bits(), old(Position()))
        case None => r.None?
        case Some((bytes, q)) => r == Some(bytes) && Position() == q
    {
      hide ToBits, BitsOf, Window, ReadBits, BitPack.ReadInt;
      var strSize := ReadInt(false);
      if strSize < 0 {
        return None;
      }
      ghost var q := Position();
      var x := new byte[strSize](_ => 0);
      var i := 0;
      while i < strSize
        invariant Valid() && arr == old(arr) && 0 <= i <= strSize
        invariant Position() == q + 8 * i
        invariant x[..i] == ReadBytes(Bits(), q, strSize)[..i]
      {
        var b := ReadPartial(8);
        x[i] := b;
        i := i + 1;
      }
      assert x[..] == x[..strSize];
      assert ReadBytes(Bits(), q, strSize)[..strSize] == ReadBytes(Bits(), q, strSize);
      r := Some(x[..]);
    }

    /** `readList()`: the length, then that many values.  `bound` is the
        room left before the list's tag, which every item's start is below. */
    method ReadList(ghost bound: nat) returns (r: Option<Value>)
      requires Valid() && Room(Bits(), Position()) < bound
      modifies this
      ensures Valid() && arr == old(arr)
      ensures var (length, q) := BitPack.ReadInt(Bits(), old(Position()), false);
        match DecodeItems(Bits(), q, Count(length), [], bound)
        case None => r.None?
        case Some((v, q')) => r == Some(v) && Position() == q'
      decreases bound, 1
    {
      hide ToBits, BitsOf, Window, ReadBits, BitPack.ReadInt, BitPack.ReadString, DecodeNext;
      var length := ReadInt(false);
      ghost var q := Position();
      var items: seq<Value> := [];
      var i := 0;
      while i < length
        invariant Valid() && arr == old(arr) && Room(Bits(), Position()) < bound
        invariant 0 <= i <= Count(length)
        invariant DecodeItems(Bits(), Position(), Count(length) - i, items, bound) ==
                  DecodeItems(Bits(), q, Count(length), [], bound)
        decreases Count(length) - i
      {
        var x := ReadNext();
        if x.None? {
          return None;
        }
        items := items + [x.value];
        i := i + 1;
      }
      r := Some(List(items));
    }

    /** `readMap()`: the length, then that many keys and values, each value
        assigned to its key on a fresh object. */
    method ReadMap(ghost bound: nat) returns (r: Option<Value>)
      requires Valid() && Room(Bits(), Position()) < bound
      modifies this
      ensures Valid() && arr == old(arr)
      ensures var (length, q) := BitPack.ReadInt(Bits(), old(Position()), false);
        match DecodeEntries(Bits(), q, Count(length), [], bound)
        case None => r.None?
        case Some((v, q')) => r == Some(v) && Position() == q'
      decreases bound, 1
    {
      hide ToBits, BitsOf, Window, ReadBits, BitPack.ReadInt, BitPack.ReadString, DecodeNext;
      var length := ReadInt(false);
      ghost var q := Position();
      var entries: seq<(seq<byte>, Value)> := [];
      var i := 0;
      while i < length
        invariant Valid() && arr == old(arr) && Room(Bits(), Position()) < bound
        invariant 0 <= i <= Count(length)
        invariant DecodeEntries(Bits(), Position(), Count(length) - i, entries, bound) ==
                  DecodeEntries(Bits(), q, Count(length), [], bound)
        decreases Count(length) - i
      {
        var k := ReadString();
        if k.None? {
          return None;
        }
        var x := ReadNext();
        if x.None? {
          return None;
        }
        entries := Assign(entries, k.value, x.value);
        i := i + 1;
      }
      r := Some(Map(entries));
    }
  }

  /** The round trip of the codec's tests, which write numbers, booleans
      and strings: a fresh writer writes one value, and a reader over its
      buffer reads that value back. */
  method WriteThenReadNext(v: Value) returns (r: Option<Value>)
    requires WellFormed(v) && !v.List? && !v.Map?
    ensures r == Some(v)
  {
    hide ToBits, BitsOf, NoBits, Encode, ValueWritten, DecodeNext, Holds;
    var w := new BMWriter(16);
    ghost var fresh16 := Stream(NoBits(128), 0);
    FreshHolds(128);
    WriteScalarHolds(fresh16, 0, [], v);
    w.Write(v);
    assert [] + Encode(v) == Encode(v);
    var buffer := w.GetBuffer();
    BufferReadsBack(w.arr[..], w.State().pos, buffer, v);
    var reader := new BMReader(buffer);
    r := reader.ReadNext();
  }

  /** The reservation as written, run on the classes: `new BMWriter(1)`,
      `write(true)`, `write(5)`, then a reader over `getBuffer()` reads
      `true` and then 4, the low bit of 5 having fallen past the array. */
  method ShortReservationRun() returns (first: Option<Value>, second: Option<Value>)
    ensures first == Some(Bool(true)) && second == Some(Num(4))
  {
    hide ToBits, BitsOf, NoBits, DecodeNext, ValueWritten, AfterTrue, AfterFive;
    var w := new BMWriter(1);
    assert w.State() == OneByte();
    WriteTrue();
    w.Write(Bool(true));
    WriteFive();
    w.Write(Num(5));
    assert BitsOf(w.arr[..]) == AfterFive() && w.State().pos == 17;
    var buffer := w.GetBuffer();
    assert w.arr.Length == 2 && buffer == w.arr[..];
    ReadTrue();
    ReadFour();
    var reader := new BMReader(buffer);
    first := reader.ReadNext();
    second := reader.ReadNext();
  }
}
