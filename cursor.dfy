/** The cursor codec of src/binary-meesage2.ts: a writer and a reader that
    keep one byte offset each and advance it past every number, boolean and
    length-prefixed string they handle.

    The writer's state is its backing store and its offset.  Each method is
    specified by a function from the old state to the new one; the lemmas
    that follow relate those functions to the reader's. */
module CursorBuffer {
  import opened Bytes

  // ---------------------------------------------------------------------
  // Writer transitions

  /** The store after `expand(needed)`. */
  function Expanded(s: seq<byte>, needed: nat): (r: seq<byte>)
    ensures |r| == GrownLength(|s|, needed) && |r| >= needed
  {
    Pad(s, GrownLength(|s|, needed))
  }

  /** The store after `writeNumber(t, v)` at offset `off`. */
  function NumberWritten(s: seq<byte>, off: nat, t: NumType, v: int): (r: seq<byte>)
    ensures |r| >= off + Width(t)
  {
    WrittenAt(s, off, Store(t, v))
  }

  /** The store after the length prefix of a `|data|`-byte string and the
      `expand` that follows it. */
  function Prefixed(s: seq<byte>, off: nat, t: NumType, n: nat): (r: seq<byte>)
    ensures |r| >= off + Width(t) + n
  {
    Expanded(NumberWritten(s, off, t, n), off + Width(t) + n)
  }

  /** Store, offset and whether `TypedArray.set` threw, after a string write. */
  datatype Written = Written(bytes: seq<byte>, offset: nat, thrown: bool)

  /** `writeString(t, data)` as the source has it: the length prefix, then
      room for `|data|` more bytes, then the copy that `CopiedPastRoom`
      describes. */
  function StringWritten(s: seq<byte>, off: nat, t: NumType, data: seq<byte>): (r: Written)
  {
    CopiedPastRoom(Prefixed(s, off, t, |data|), off + Width(t), data)
  }

  /** The copy of `writeString` as the source has it, from the store `s2`
      that holds the prefix and the room, with the offset `p` just past the
      prefix: the bytes go `|data|` bytes past `p`.  The copy throws a
      RangeError when it runs past the store; the offset has then moved past
      the prefix only. */
  function CopiedPastRoom(s2: seq<byte>, p: nat, data: seq<byte>): (r: Written)
  {
    if p + 2 * |data| > |s2| then Written(s2, p, true)
    else Written(Splice(s2, p + |data|, data), p + |data|, false)
  }

  /** The evident intent of `writeString`: the bytes directly after the
      prefix, inside the room just reserved. */
  function StringWrittenAdjacent(s: seq<byte>, off: nat, t: NumType, data: seq<byte>): (r: Written)
    ensures !r.thrown && r.offset == off + Width(t) + |data|
  {
    var p := off + Width(t);
    var s2 := Prefixed(s, off, t, |data|);
    Written(Splice(s2, p, data), p + |data|, false)
  }

  // ---------------------------------------------------------------------
  // Reader functions

  /** `readString(t)`: the bytes and the offset after them. */
  function StringAt(s: seq<byte>, off: int, t: NumType): Option<(seq<byte>, int)>
  {
    match NumberAt(s, off, t)
    case None => None
    case Some(n) =>
      var p := off + Width(t);
      Some((Slice(s, p, p + n), p + n))
  }

  // ---------------------------------------------------------------------
  // Properties

  /** `writeNumber` then `readNumber` at the same offset gives back a value
      that is in the range of its kind. */
  lemma NumberRoundTrip(s: seq<byte>, off: nat, t: NumType, v: int)
    requires InRange(t, v)
    ensures NumberAt(NumberWritten(s, off, t, v), off, t) == Some(v)
  {
    StoreLoad(t, v);
  }

  /** Out of range, the getter reads the value modulo 2^(8w), as two's
      complement for the signed kinds. */
  lemma NumberTruncates(s: seq<byte>, off: nat, t: NumType, v: int)
    ensures NumberAt(NumberWritten(s, off, t, v), off, t) ==
      Some(if IsSigned(t) then Signed(v % Pow256(Width(t)), Width(t)) else v % Pow256(Width(t)))
  {
    StoreLoadAny(t, v);
  }

  /** Writing a number keeps every byte before it and every byte of the old
      store after it. */
  lemma NumberWrittenFrame(s: seq<byte>, off: nat, t: NumType, v: int, i: nat)
    requires i < |s| && !(off <= i < off + Width(t))
    ensures NumberWritten(s, off, t, v)[i] == s[i]
  {
  }

  /** The boolean byte reads back as the boolean written. */
  lemma BooleanRoundTrip(s: seq<byte>, off: nat, b: bool)
    ensures var r := NumberAt(NumberWritten(s, off, U8, if b then 1 else 0), off, U8);
      r.Some? && (r.value > 0) == b
  {
    NumberRoundTrip(s, off, U8, if b then 1 else 0);
  }

  /** The prefix written for a string is still in place after the room
      for the string is made. */
  lemma PrefixedHoldsLength(s: seq<byte>, off: nat, t: NumType, n: nat)
    ensures Prefixed(s, off, t, n)[off..off + Width(t)] == Store(t, n)
  {
    var p := off + Width(t);
    var s1 := NumberWritten(s, off, t, n);
    WrittenAtHolds(s, off, Store(t, n));
    PadAt(s1, GrownLength(|s1|, p + n));
    var s2 := Prefixed(s, off, t, n);
    assert s2[..|s1|] == s1;
    assert s2[off..p] == s2[..|s1|][off..p];
  }

  /** A store holding the bytes of `n` at `off` reads back `n` there. */
  lemma NumberAtStored(r: seq<byte>, off: nat, t: NumType, n: int)
    requires off + Width(t) <= |r| && r[off..off + Width(t)] == Store(t, n) && InRange(t, n)
    ensures NumberAt(r, off, t) == Some(n)
  {
    StoreLoad(t, n);
  }

  /** A store holding a prefix for `data` and then `data` reads back `data`. */
  lemma StringAtStored(r: seq<byte>, off: nat, t: NumType, data: seq<byte>)
    requires off + Width(t) + |data| <= |r| && InRange(t, |data|)
    requires r[off..off + Width(t)] == Store(t, |data|)
    requires r[off + Width(t)..off + Width(t) + |data|] == data
    ensures StringAt(r, off, t) == Some((data, off + Width(t) + |data|))
  {
    NumberAtStored(r, off, t, |data|);
  }

  /** The corrected string write reads back as the string and the offset
      after it, when the length fits its prefix kind. */
  lemma StringRoundTrip(s: seq<byte>, off: nat, t: NumType, data: seq<byte>)
    requires InRange(t, |data|)
    ensures StringAt(StringWrittenAdjacent(s, off, t, data).bytes, off, t) ==
      Some((data, off + Width(t) + |data|))
  {
    var p := off + Width(t);
    var s2 := Prefixed(s, off, t, |data|);
    var r := Splice(s2, p, data);
    assert StringWrittenAdjacent(s, off, t, data).bytes == r;
    StoredAfterPrefix(s2, off, t, data);
    StringAtStored(r, off, t, data);
  }

  lemma StoredAfterPrefix(s2: seq<byte>, off: nat, t: NumType, data: seq<byte>)
    requires off + Width(t) + |data| <= |s2|
    ensures var r := Splice(s2, off + Width(t), data);
      r[off..off + Width(t)] == s2[off..off + Width(t)] &&
      r[off + Width(t)..off + Width(t) + |data|] == data
  {
    var p := off + Width(t);
    SpliceAt(s2, p, data);
    var r := Splice(s2, p, data);
    assert r[off..p] == s2[off..p];
  }

  /** As written, the string lands one prefix-length too far: one byte [7]
      written at offset 0 of a fresh 16-byte store reads back as [0]. */
  lemma StringGap()
    ensures var w := StringWritten(Zeros(16), 0, U8, [7]);
      !w.thrown && StringAt(w.bytes, 0, U8) == Some(([0], 2))
  {
    var s1 := NumberWritten(Zeros(16), 0, U8, 1);
    assert s1[0] == 1 && s1[1] == 0;
    var w := StringWritten(Zeros(16), 0, U8, [7]);
    assert w.bytes[0] == 1 && w.bytes[1] == 0;
    assert w.bytes[0..1] == [1];
    assert w.bytes[1..2] == [0];
  }

  /** As written, a string longer than the room left after it throws: ten
      bytes at offset 0 of a fresh 16-byte store would end at byte 21. */
  lemma StringOverruns()
    ensures StringWritten(Zeros(16), 0, U8, Zeros(10)).thrown
  {
  }

  // ---------------------------------------------------------------------
  // The classes

  /** `BufferWriter` */
  class BufferWriter {
    var arr: array<byte>
    var currentOffset: nat

    constructor (initialSize: nat)
      ensures arr[..] == Zeros(initialSize) && currentOffset == 0
      ensures fresh(arr)
    {
      arr := new byte[initialSize](_ => 0);
      currentOffset := 0;
    }

    method Expand(neededSize: nat)
      modifies this
      ensures arr[..] == Expanded(old(arr[..]), neededSize)
      ensures currentOffset == old(currentOffset)
      ensures arr == old(arr) || fresh(arr)
    {
      arr := Grow(arr, neededSize);
    }

    method WriteNumber(t: NumType, value: int)
      modifies this, arr
      ensures arr[..] == NumberWritten(old(arr[..]), old(currentOffset), t, value)
      ensures currentOffset == old(currentOffset) + Width(t)
      ensures arr == old(arr) || fresh(arr)
    {
      Expand(currentOffset + Width(t));
      Put(arr, currentOffset, Store(t, value));
      currentOffset := currentOffset + Width(t);
    }

    method WriteBoolean(value: bool)
      modifies this, arr
      ensures arr[..] == NumberWritten(old(arr[..]), old(currentOffset), U8, if value then 1 else 0)
      ensures currentOffset == old(currentOffset) + 1
      ensures arr == old(arr) || fresh(arr)
    {
      Expand(currentOffset + 1);
      Put(arr, currentOffset, Store(U8, if value then 1 else 0));
      currentOffset := currentOffset + 1;
    }

    /** The length prefix of a string and the room after it. */
    method WritePrefix(sizeType: NumType, strSize: nat)
      modifies this, arr
      ensures arr[..] == Prefixed(old(arr[..]), old(currentOffset), sizeType, strSize)
      ensures currentOffset == old(currentOffset) + Width(sizeType)
      ensures arr == old(arr) || fresh(arr)
    {
      WriteNumber(sizeType, strSize);
      Expand(currentOffset + strSize);
    }

    /** `thrown` reports the RangeError of the copy; the state is then the
        one the source leaves behind. */
    method WriteString(sizeType: NumType, value: seq<byte>) returns (thrown: bool)
      modifies this, arr
      ensures Written(arr[..], currentOffset, thrown) ==
        StringWritten(old(arr[..]), old(currentOffset), sizeType, value)
      ensures arr == old(arr) || fresh(arr)
    {
      WritePrefix(sizeType, |value|);
      thrown := CopyPastRoom(value);
    }

    /** The copy that ends `writeString`. */
    method CopyPastRoom(value: seq<byte>) returns (thrown: bool)
      modifies this, arr
      ensures Written(arr[..], currentOffset, thrown) ==
        CopiedPastRoom(old(arr[..]), old(currentOffset), value)
      ensures arr == old(arr)
    {
      var strSize := |value|;
      thrown := currentOffset + 2 * strSize > arr.Length;
      if !thrown {
        Put(arr, currentOffset + strSize, value);
        currentOffset := currentOffset + strSize;
      }
    }

    /** The corrected `writeString`: the copy follows the prefix. */
    method WriteStringAdjacent(sizeType: NumType, value: seq<byte>)
      modifies this, arr
      ensures var w := StringWrittenAdjacent(old(arr[..]), old(currentOffset), sizeType, value);
        arr[..] == w.bytes && currentOffset == w.offset
      ensures arr == old(arr) || fresh(arr)
    {
      var strSize := |value|;
      WritePrefix(sizeType, strSize);
      Put(arr, currentOffset, value);
      currentOffset := currentOffset + strSize;
    }

    /** `getBuffer()`: the whole store, unused capacity included. */
    method GetBuffer() returns (r: seq<byte>)
      ensures r == arr[..] && |r| == arr.Length
    {
      r := arr[..];
    }
  }

  /** `BufferReader` */
  class BufferReader {
    var arr: seq<byte>
    var currentOffset: int

    constructor (buffer: seq<byte>)
      ensures arr == buffer && currentOffset == 0
    {
      arr := buffer;
      currentOffset := 0;
    }

    method Reset()
      modifies this
      ensures currentOffset == 0 && arr == old(arr)
    {
      currentOffset := 0;
    }

    /** None stands for the RangeError of a read past the end. */
    method ReadNumber(t: NumType) returns (r: Option<int>)
      modifies this
      ensures r == NumberAt(arr, old(currentOffset), t) && arr == old(arr)
      ensures currentOffset == if r.Some? then old(currentOffset) + Width(t) else old(currentOffset)
    {
      r := NumberAt(arr, currentOffset, t);
      if r.Some? {
        currentOffset := currentOffset + Width(t);
      }
    }

    method ReadBoolean() returns (r: Option<bool>)
      modifies this
      ensures arr == old(arr)
      ensures match NumberAt(arr, old(currentOffset), U8)
        case None => r.None? && currentOffset == old(currentOffset)
        case Some(n) => r == Some(n > 0) && currentOffset == old(currentOffset) + 1
    {
      var n := NumberAt(arr, currentOffset, U8);
      if n.None? {
        return None;
      }
      currentOffset := currentOffset + 1;
      r := Some(n.value > 0);
    }

    method ReadString(sizeType: NumType) returns (r: Option<seq<byte>>)
      modifies this
      ensures arr == old(arr)
      ensures match StringAt(arr, old(currentOffset), sizeType)
        case None => r.None? && currentOffset == old(currentOffset)
        case Some(x) => r == Some(x.0) && currentOffset == x.1
    {
      var strSize := ReadNumber(sizeType);
      if strSize.None? {
        return None;
      }
      r := Some(Slice(arr, currentOffset, currentOffset + strSize.value));
      currentOffset := currentOffset + strSize.value;
    }
  }

  /** A later write past a number leaves that number readable. */
  lemma NumberKept(s: seq<byte>, off: nat, t: NumType, t2: NumType, v2: int)
    requires Width(t) <= off && Width(t) <= |s|
    ensures NumberAt(NumberWritten(s, off, t2, v2), 0, t) == NumberAt(s, 0, t)
  {
    var s2 := NumberWritten(s, off, t2, v2);
    forall i | 0 <= i < Width(t)
      ensures s2[i] == s[i]
    {
      NumberWrittenFrame(s, off, t2, v2, i);
    }
    assert s2[0..Width(t)] == s[0..Width(t)];
  }

  /** The codec's tests run on the classes: a fresh writer writes a number
      and a boolean, and a reader over `getBuffer()` reads both back. */
  method NumberThenBoolean(initialSize: nat, t: NumType, v: int, b: bool) returns (n: Option<int>, c: Option<bool>)
    requires InRange(t, v)
    ensures n == Some(v) && c == Some(b)
  {
    hide NumberWritten, NumberAt, Zeros, Store;
    var w := new BufferWriter(initialSize);
    w.WriteNumber(t, v);
    ghost var s1 := w.arr[..];
    NumberRoundTrip(Zeros(initialSize), 0, t, v);
    NumberKept(s1, Width(t), t, U8, if b then 1 else 0);
    BooleanRoundTrip(s1, Width(t), b);
    w.WriteBoolean(b);
    var buffer := w.GetBuffer();
    var reader := new BufferReader(buffer);
    n := reader.ReadNumber(t);
    c := reader.ReadBoolean();
  }
}
