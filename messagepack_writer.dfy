/** The writer of src/binary-messagepack.ts.  `BMWriter` keeps a byte array,
    the index of the byte being filled (`offset`) and how many of its bits
    are still free (`reminder`, 1 to 8).  Seen as a bit stream, the array
    is `BitsOf(arr)` and the writer sits at bit `8 * offset + 8 - reminder`.

    The functional model below follows `write` call by call on that stream.
    Its `slack` parameter is the number of bytes `write` and `writeInt`
    reserve beyond the current one: the source reserves one (slack 1),
    which is one byte short when the current byte has fewer free bits than
    the field needs; two (slack 2) is enough for every field. */
module BitPackWriter {
  import opened Bytes
  import opened Bits
  import opened BitPack

  /** The writer as a bit stream and a position in it. */
  datatype Stream = Stream(bits: seq<bool>, pos: nat)

  /** The byte the writer is filling: `offset`. */
  function Offset(w: Stream): nat
  {
    w.pos / 8
  }

  /** The array's length in bytes. */
  function Capacity(w: Stream): nat
  {
    |w.bits| / 8
  }

  /** The free bits of the byte being filled: `reminder`. */
  function Free(w: Stream): nat
  {
    8 * Offset(w) + 8 - w.pos
  }

  /** `r` comes after `w`: the position has not gone back, the array has
      not shrunk, and every bit before `w`'s position is as it was. */
  predicate Extends(w: Stream, r: Stream)
  {
    w.pos <= r.pos && |w.bits| <= |r.bits| &&
    forall i :: 0 <= i < w.pos && i < |w.bits| ==> r.bits[i] == w.bits[i]
  }

  lemma ExtendsTrans(a: Stream, b: Stream, c: Stream)
    requires Extends(a, b) && Extends(b, c)
    ensures Extends(a, c)
  {
  }

  /** `expand(needed)`: a new zero-filled array of the next power of two
      at or above `needed` bytes when the array is shorter, holding the old
      bytes at its start. */
  function Grown(w: Stream, needed: nat): (r: Stream)
    ensures r.pos == w.pos && |r.bits| >= |w.bits|
    ensures |r.bits| >= 8 * needed
    ensures r.bits[..|w.bits|] == w.bits
    ensures forall i :: |w.bits| <= i < |r.bits| ==> !r.bits[i]
    ensures Extends(w, r)
  {
    if Capacity(w) >= needed then w
    else Stream(w.bits + NoBits(8 * NextPowerOf2(needed) - |w.bits|), w.pos)
  }

  /** `writePartial(n, bitSize)`: the low `bitSize` bits of `n` ORed into
      the stream at the writer's position; bits past the end of the array
      are lost, as a typed array ignores stores past its end. */
  function Partial(w: Stream, n: nat, bitSize: nat): (r: Stream)
    ensures r.pos == w.pos + bitSize && |r.bits| == |w.bits|
    ensures Extends(w, r)
  {
    Stream(OrAt(w.bits, w.pos, ToBits(n, bitSize)), w.pos + bitSize)
  }

  /** `writeInt(n)`: reserve room, then the byte count less one and the
      magnitude. */
  function IntWritten(w: Stream, n: int, slack: nat): (r: Stream)
    ensures r.pos == w.pos + |IntBits(n)| && Extends(w, r)
  {
    var mag := Magnitude(n);
    var size := NumByteSize(mag);
    var w1 := Grown(w, Offset(w) + slack + size);
    var w2 := Partial(w1, size - 1, 2);
    ExtendsTrans(w, w1, w2);
    ExtendsTrans(w, w2, Partial(w2, mag, 8 * size));
    Partial(w2, mag, 8 * size)
  }

  /** The loop of `writeString`: each byte in eight bits. */
  function BytesWritten(w: Stream, bytes: seq<byte>): (r: Stream)
    ensures r.pos == w.pos + 8 * |bytes| && |r.bits| == |w.bits|
    ensures Extends(w, r)
    decreases |bytes|
  {
    if bytes == [] then w
    else
      var w1 := Partial(w, bytes[0], 8);
      ExtendsTrans(w, w1, BytesWritten(w1, bytes[1..]));
      BytesWritten(w1, bytes[1..])
  }

  /** `writeString`: the length as an integer, then room for the bytes,
      then the bytes. */
  function StrWritten(w: Stream, bytes: seq<byte>, slack: nat): (r: Stream)
    ensures r.pos == w.pos + |IntBits(|bytes|)| + 8 * |bytes| && Extends(w, r)
  {
    var w1 := IntWritten(w, |bytes|, slack);
    var w2 := Grown(w1, Offset(w1) + |bytes| + 1);
    ExtendsTrans(w, w1, w2);
    ExtendsTrans(w, w2, BytesWritten(w2, bytes));
    BytesWritten(w2, bytes)
  }

  /** `write(v)`: room for the tag, the tag, then the body. */
  function ValueWritten(w: Stream, v: Value, slack: nat): (r: Stream)
    ensures r.pos == w.pos + |Encode(v)| && Extends(w, r)
    decreases v, 1
  {
    var w0 := Grown(w, Offset(w) + slack);
    var w1 := Partial(w0, Tag(v), 3);
    ExtendsTrans(w, w0, w1);
    ExtendsTrans(w, w1, BodyWritten(w1, v, slack));
    BodyWritten(w1, v, slack)
  }

  function BodyWritten(w: Stream, v: Value, slack: nat): (r: Stream)
    ensures r.pos == w.pos + |Body(v)| && Extends(w, r)
    decreases v, 0
  {
    match v
    case Null => w
    case Num(n) => IntWritten(w, n, slack)
    case Bool(b) =>
      var w1 := Grown(w, Offset(w) + 1);
      ExtendsTrans(w, w1, Partial(w1, if b then 1 else 0, 1));
      Partial(w1, if b then 1 else 0, 1)
    case Str(bytes) => StrWritten(w, bytes, slack)
    case List(items) =>
      var w1 := IntWritten(w, |items|, slack);
      ExtendsTrans(w, w1, ItemsWritten(w1, v, 0, slack));
      ItemsWritten(w1, v, 0, slack)
    case Map(entries) =>
      var w1 := IntWritten(w, |entries|, slack);
      ExtendsTrans(w, w1, EntriesWritten(w1, v, 0, slack));
      EntriesWritten(w1, v, 0, slack)
  }

  /** The loop of `writeList` from item `i` on. */
  function ItemsWritten(w: Stream, v: Value, i: nat, slack: nat): (r: Stream)
    requires v.List? && i <= |v.items|
    ensures r.pos == w.pos + |EncodeItems(v, i)| && Extends(w, r)
    decreases v, 0, |v.items| - i
  {
    if i == |v.items| then w
    else
      var w1 := ItemWritten(w, v, i, slack);
      ExtendsTrans(w, w1, ItemsWritten(w1, v, i + 1, slack));
      ItemsWritten(w1, v, i + 1, slack)
  }

  function ItemWritten(w: Stream, v: Value, i: nat, slack: nat): (r: Stream)
    requires v.List? && i < |v.items|
    ensures r.pos == w.pos + |EncodeItem(v, i)| && Extends(w, r)
    decreases v, 0, 0
  {
    ValueWritten(w, v.items[i], slack)
  }

  /** The loop of `writeMap` from entry `i` on: the key, then the value. */
  function EntriesWritten(w: Stream, v: Value, i: nat, slack: nat): (r: Stream)
    requires v.Map? && i <= |v.entries|
    ensures r.pos == w.pos + |EncodeEntries(v, i)| && Extends(w, r)
    decreases v, 0, |v.entries| - i
  {
    if i == |v.entries| then w
    else
      var w1 := EntryWritten(w, v, i, slack);
      ExtendsTrans(w, w1, EntriesWritten(w1, v, i + 1, slack));
      EntriesWritten(w1, v, i + 1, slack)
  }

  function EntryWritten(w: Stream, v: Value, i: nat, slack: nat): (r: Stream)
    requires v.Map? && i < |v.entries|
    ensures r.pos == w.pos + |EncodeEntry(v, i)| && Extends(w, r)
    decreases v, 0, 0
  {
    var w1 := StrWritten(w, v.entries[i].0, slack);
    ExtendsTrans(w, w1, ValueWritten(w1, v.entries[i].1, slack));
    ValueWritten(w1, v.entries[i].1, slack)
  }

  // ---------------------------------------------------------------------
  // What the writer keeps true

  /** Every bit from the writer's position on is still clear. */
  predicate Clean(w: Stream)
  {
    forall i :: w.pos <= i < |w.bits| ==> !w.bits[i]
  }

  /** Since position `start` the writer has put down exactly `t`, all of
      it inside the array, and nothing after it. */
  predicate Holds(w: Stream, start: nat, t: seq<bool>)
  {
    start + |t| == w.pos <= |w.bits| && w.bits[start..w.pos] == t && Clean(w)
  }

  /** Growing keeps what was written and adds clear bits. */
  lemma GrownHolds(w: Stream, start: nat, t: seq<bool>, needed: nat)
    requires Holds(w, start, t)
    ensures Holds(Grown(w, needed), start, t)
  {
    var r := Grown(w, needed);
    assert r.bits[start..r.pos] == r.bits[..|w.bits|][start..w.pos];
  }

  /** A field put down inside the array, on clear bits, extends what was
      written by exactly its bits. */
  lemma PartialHolds(w: Stream, start: nat, t: seq<bool>, n: nat, bitSize: nat)
    requires Holds(w, start, t) && w.pos + bitSize <= |w.bits|
    ensures Holds(Partial(w, n, bitSize), start, t + ToBits(n, bitSize))
  {
    var r := Partial(w, n, bitSize);
    var u := t + ToBits(n, bitSize);
    forall i | start <= i < r.pos
      ensures r.bits[i] == u[i - start]
    {
      if i < w.pos {
        assert w.bits[start..w.pos][i - start] == w.bits[i];
      }
    }
    assert r.bits[start..r.pos] == u;
  }

  /** After `expand(offset + k)` there is room for `8 * k - 7` bits. */
  lemma GrownRoom(w: Stream, k: nat, bitSize: nat)
    requires bitSize + 7 <= 8 * k
    ensures w.pos + bitSize <= |Grown(w, Offset(w) + k).bits|
  {
  }

  /** The bits of a run of bytes, the first byte first. */
  lemma BitsOfCons(bytes: seq<byte>)
    requires bytes != []
    ensures BitsOf(bytes) == ToBits(bytes[0], 8) + BitsOf(bytes[1..])
  {
    hide ToBits;
    var u := ToBits(bytes[0], 8) + BitsOf(bytes[1..]);
    forall i | 0 <= i < |u|
      ensures BitsOf(bytes)[i] == u[i]
    {
      if i >= 8 {
        assert (i - 8) / 8 == i / 8 - 1;
        assert u[i] == BitsOf(bytes[1..])[i - 8];
      }
    }
  }

  lemma {:induction false} WriteBytesHolds(w: Stream, start: nat, t: seq<bool>, bytes: seq<byte>)
    requires Holds(w, start, t) && w.pos + 8 * |bytes| <= |w.bits|
    ensures Holds(BytesWritten(w, bytes), start, t + BitsOf(bytes))
    decreases |bytes|
  {
    hide ToBits, BitsOf, OrAt, Partial;
    if bytes == [] {
      assert t + BitsOf(bytes) == t;
    } else {
      PartialHolds(w, start, t, bytes[0], 8);
      WriteBytesHolds(Partial(w, bytes[0], 8), start, t + ToBits(bytes[0], 8), bytes[1..]);
      BitsOfCons(bytes);
      assert t + ToBits(bytes[0], 8) + BitsOf(bytes[1..]) == t + BitsOf(bytes);
    }
  }

  /** `writeInt` puts down exactly `IntBits(n)` when its reservation
      covers the two size bits that spill past the magnitude's bytes: with
      the source's one byte that takes two free bits in the current byte,
      with two bytes it always holds. */
  lemma WriteIntHolds(w: Stream, start: nat, t: seq<bool>, n: int, slack: nat)
    requires Holds(w, start, t) && 10 <= Free(w) + 8 * slack
    ensures Holds(IntWritten(w, n, slack), start, t + IntBits(n))
  {
    hide ToBits, BitsOf, OrAt, Partial, Grown, Magnitude, NumByteSize;
    var mag := Magnitude(n);
    var size := NumByteSize(mag);
    var w1 := Grown(w, Offset(w) + slack + size);
    GrownHolds(w, start, t, Offset(w) + slack + size);
    assert w.pos + 2 + 8 * size <= |w1.bits|;
    PartialHolds(w1, start, t, size - 1, 2);
    PartialHolds(Partial(w1, size - 1, 2), start, t + ToBits(size - 1, 2), mag, 8 * size);
    assert t + ToBits(size - 1, 2) + ToBits(mag, 8 * size) == t + IntBits(n);
  }

  /** `writeString` puts down the length and then the bytes, under the
      same condition as its `writeInt`. */
  lemma WriteStrHolds(w: Stream, start: nat, t: seq<bool>, bytes: seq<byte>, slack: nat)
    requires Holds(w, start, t) && 10 <= Free(w) + 8 * slack
    ensures Holds(StrWritten(w, bytes, slack), start, t + (IntBits(|bytes|) + BitsOf(bytes)))
  {
    hide ToBits, BitsOf, OrAt, Partial, Grown, IntWritten, IntBits, BytesWritten;
    var w1 := IntWritten(w, |bytes|, slack);
    var t1 := t + IntBits(|bytes|);
    WriteIntHolds(w, start, t, |bytes|, slack);
    GrownHolds(w1, start, t1, Offset(w1) + |bytes| + 1);
    GrownRoom(w1, |bytes| + 1, 8 * |bytes|);
    WriteBytesHolds(Grown(w1, Offset(w1) + |bytes| + 1), start, t1, bytes);
    assert t1 + BitsOf(bytes) == t + (IntBits(|bytes|) + BitsOf(bytes));
  }

  /** With the corrected reservation, `write(v)` puts down exactly
      `Encode(v)`, inside the array, on clear bits. */
  lemma {:induction false} WriteValueHolds(w: Stream, start: nat, t: seq<bool>, v: Value)
    requires Holds(w, start, t)
    ensures Holds(ValueWritten(w, v, 2), start, t + Encode(v))
    decreases v, 1
  {
    hide ToBits, BitsOf, OrAt, Partial, Grown, BodyWritten, Body;
    var w0 := Grown(w, Offset(w) + 2);
    GrownHolds(w, start, t, Offset(w) + 2);
    GrownRoom(w, 2, 3);
    PartialHolds(w0, start, t, Tag(v), 3);
    WriteBodyHolds(Partial(w0, Tag(v), 3), start, t + ToBits(Tag(v), 3), v);
    assert t + ToBits(Tag(v), 3) + Body(v) == t + Encode(v);
  }

  lemma {:induction false} WriteBodyHolds(w: Stream, start: nat, t: seq<bool>, v: Value)
    requires Holds(w, start, t)
    ensures Holds(BodyWritten(w, v, 2), start, t + Body(v))
    decreases v, 0
  {
    hide ToBits, BitsOf, OrAt, Grown, IntWritten, IntBits, StrWritten, ItemsWritten, EntriesWritten, EncodeItems, EncodeEntries, Encode;
    match v
    case Null =>
      assert t + Body(v) == t;
    case Num(n) =>
      WriteIntHolds(w, start, t, n, 2);
    case Bool(b) =>
      GrownHolds(w, start, t, Offset(w) + 1);
      GrownRoom(w, 1, 1);
      PartialHolds(Grown(w, Offset(w) + 1), start, t, if b then 1 else 0, 1);
    case Str(bytes) =>
      WriteStrHolds(w, start, t, bytes, 2);
    case List(items) =>
      WriteIntHolds(w, start, t, |items|, 2);
      WriteItemsHolds(IntWritten(w, |items|, 2), start, t + IntBits(|items|), v, 0);
      assert t + IntBits(|items|) + EncodeItems(v, 0) == t + Body(v);
    case Map(entries) =>
      WriteIntHolds(w, start, t, |entries|, 2);
      WriteEntriesHolds(IntWritten(w, |entries|, 2), start, t + IntBits(|entries|), v, 0);
      assert t + IntBits(|entries|) + EncodeEntries(v, 0) == t + Body(v);
  }

  lemma {:induction false} WriteItemsHolds(w: Stream, start: nat, t: seq<bool>, v: Value, i: nat)
    requires v.List? && i <= |v.items|
    requires Holds(w, start, t)
    ensures Holds(ItemsWritten(w, v, i, 2), start, t + EncodeItems(v, i))
    decreases v, 0, |v.items| - i
  {
    hide ToBits, BitsOf, OrAt, Partial, Grown, ValueWritten, Encode, Body;
    if i == |v.items| {
      assert t + EncodeItems(v, i) == t;
    } else {
      WriteValueHolds(w, start, t, v.items[i]);
      WriteItemsHolds(ItemWritten(w, v, i, 2), start, t + Encode(v.items[i]), v, i + 1);
      assert t + Encode(v.items[i]) + EncodeItems(v, i + 1) == t + EncodeItems(v, i);
    }
  }

  lemma {:induction false} WriteEntriesHolds(w: Stream, start: nat, t: seq<bool>, v: Value, i: nat)
    requires v.Map? && i <= |v.entries|
    requires Holds(w, start, t)
    ensures Holds(EntriesWritten(w, v, i, 2), start, t + EncodeEntries(v, i))
    decreases v, 0, |v.entries| - i
  {
    hide ToBits, BitsOf, OrAt, Partial, Grown, ValueWritten, StrWritten, Encode, Body, IntBits;
    if i == |v.entries| {
      assert t + EncodeEntries(v, i) == t;
    } else {
      var key := v.entries[i].0;
      var x := v.entries[i].1;
      var keyBits := IntBits(|key|) + BitsOf(key);
      WriteStrHolds(w, start, t, key, 2);
      WriteValueHolds(StrWritten(w, key, 2), start, t + keyBits, x);
      WriteEntriesHolds(EntryWritten(w, v, i, 2), start, t + keyBits + Encode(x), v, i + 1);
      assert t + keyBits + Encode(x) + EncodeEntries(v, i + 1) == t + EncodeEntries(v, i);
    }
  }

  // ---------------------------------------------------------------------
  // Writing, then reading back

  /** What the writer holds is what the reader sees there. */
  lemma HoldsSpells(w: Stream, start: nat, t: seq<bool>)
    requires Holds(w, start, t)
    ensures Spells(w.bits, start, t)
  {
    forall k | 0 <= k < |t|
      ensures Window(w.bits, start, |t|)[k] == t[k]
    {
      assert w.bits[start..w.pos][k] == w.bits[start + k];
      assert BitAt(w.bits, start + k) == w.bits[start + k];
    }
  }

  /** A fresh or partly written writer: everything past its position is
      clear and the position is inside the array. */
  predicate Ready(w: Stream)
  {
    w.pos <= |w.bits| && Clean(w)
  }

  /** With the corrected reservation, `readNext` at the position where
      `write(v)` started returns `v` and stops where the writer stopped. */
  lemma WriteThenRead(w: Stream, v: Value)
    requires Ready(w) && WellFormed(v)
    ensures Ready(ValueWritten(w, v, 2))
    ensures DecodeNext(ValueWritten(w, v, 2).bits, w.pos) == Some((v, ValueWritten(w, v, 2).pos))
  {
    hide ValueWritten, Encode, DecodeNext, Window, Spells;
    assert w.bits[w.pos..w.pos] == [];
    WriteValueHolds(w, w.pos, [], v);
    assert [] + Encode(v) == Encode(v);
    HoldsSpells(ValueWritten(w, v, 2), w.pos, Encode(v));
    DecodeEncode(ValueWritten(w, v, 2).bits, w.pos, v);
  }

  /** With the source's one-byte reservation, `write(v)` of a null, a
      number, a boolean or a string puts down exactly `Encode(v)` when at
      least five bits of the current byte are free: the tag then leaves
      the two free bits `writeInt` needs. */
  lemma WriteScalarHolds(w: Stream, start: nat, t: seq<bool>, v: Value)
    requires Holds(w, start, t) && Free(w) >= 5
    requires !v.List? && !v.Map?
    ensures Holds(ValueWritten(w, v, 1), start, t + Encode(v))
  {
    hide ToBits, BitsOf, OrAt, Partial, Grown, BodyWritten, Body;
    var w0 := Grown(w, Offset(w) + 1);
    GrownHolds(w, start, t, Offset(w) + 1);
    var w1 := Partial(w0, Tag(v), 3);
    PartialHolds(w0, start, t, Tag(v), 3);
    assert Offset(w1) == Offset(w) by {
      ModUnique(w1.pos, 8, Offset(w), w1.pos - 8 * Offset(w));
    }
    ScalarBodyHolds(w1, start, t + ToBits(Tag(v), 3), v);
    assert t + ToBits(Tag(v), 3) + Body(v) == t + Encode(v);
  }

  /** The body of a null, a number, a boolean or a string, with the
      source's reservation and at least two bits free. */
  lemma ScalarBodyHolds(w: Stream, start: nat, t: seq<bool>, v: Value)
    requires Holds(w, start, t) && Free(w) >= 2
    requires !v.List? && !v.Map?
    ensures Holds(BodyWritten(w, v, 1), start, t + Body(v))
  {
    hide ToBits, BitsOf, OrAt, Partial, Grown, IntWritten, StrWritten, IntBits;
    match v {
      case Null =>
        assert t + Body(v) == t;
      case Num(n) =>
        WriteIntHolds(w, start, t, n, 1);
      case Bool(b) =>
        GrownHolds(w, start, t, Offset(w) + 1);
        GrownRoom(w, 1, 1);
        PartialHolds(Grown(w, Offset(w) + 1), start, t, if b then 1 else 0, 1);
      case Str(bytes) =>
        WriteStrHolds(w, start, t, bytes, 1);
    }
  }

  /** A fresh writer holds nothing yet and has its first byte free. */
  lemma FreshHolds(n: nat)
    ensures Holds(Stream(NoBits(n), 0), 0, []) && Free(Stream(NoBits(n), 0)) == 8
  {
  }

  /** The bytes `getBuffer()` returns hold everything written from the
      start, so reading them gives back the value written. */
  lemma BufferReadsBack(a: seq<byte>, pos: nat, r: seq<byte>, v: Value)
    requires Holds(Stream(BitsOf(a), pos), 0, Encode(v)) && WellFormed(v)
    requires |r| <= |a| && r == a[..|r|]
    requires pos <= 8 * |r| || |r| == |a|
    ensures DecodeNext(BitsOf(r), 0) == Some((v, pos))
  {
    hide Encode, DecodeNext, ToBits;
    var bits := BitsOf(a);
    BitsOfPrefix(a, |r|);
    assert BitsOf(r) == bits[..8 * |r|];
    if |r| < |a| {
      assert BitsOf(r)[0..pos] == bits[0..pos];
    }
    assert Holds(Stream(BitsOf(r), pos), 0, Encode(v));
    HoldsSpells(Stream(BitsOf(r), pos), 0, Encode(v));
    DecodeEncode(BitsOf(r), 0, v);
  }

  // ---------------------------------------------------------------------
  // The reservation as written

  /** A writer over a one-byte array, as `new BMWriter(1)` makes it. */
  function OneByte(): (w: Stream)
    ensures Ready(w) && w.pos == 0 && |w.bits| == 8
  {
    Stream(NoBits(8), 0)
  }

  /** The first byte after `write(true)`: tag 2 in three bits, then 1. */
  function AfterTrue(): seq<bool>
  {
    [false, true, false, true, false, false, false, false]
  }

  /** Both bytes after `write(5)` with the reservation as written: tag 0,
      size 0, then the magnitude's bits 9 to 16, of which bit 16 falls past
      the array. */
  function AfterFive(): (r: seq<bool>)
    ensures |r| == 16
  {
    AfterTrue() + [false, false, false, false, false, false, true, false]
  }

  lemma WriteTrue()
    ensures ValueWritten(OneByte(), Bool(true), 1) == Stream(AfterTrue(), 4)
  {
    assert ToBits(2, 3) == [false, true, false];
    assert ToBits(1, 1) == [true];
  }

  lemma WriteFive()
    ensures ValueWritten(Stream(AfterTrue(), 4), Num(5), 1) == Stream(AfterFive(), 17)
  {
    var w0 := Stream(AfterTrue(), 4);
    assert Grown(w0, 1) == w0;
    assert ToBits(0, 3) == [false, false, false];
    assert Partial(w0, 0, 3) == Stream(AfterTrue(), 7);
    WriteIntFive();
  }

  lemma WriteIntFive()
    ensures IntWritten(Stream(AfterTrue(), 7), 5, 1) == Stream(AfterFive(), 17)
  {
    hide Partial, Grown;
    Int32Small(5);
    assert Magnitude(5) == 5 && NumByteSize(5) == 1;
    GrowToTwo();
    PartialFive();
  }

  lemma GrowToTwo()
    ensures Grown(Stream(AfterTrue(), 7), 2) == Stream(AfterTrue() + NoBits(8), 7)
  {
    assert NextPowerOf2(2) == 2 by {
      assert Pow2(1) == 2;
      assert IsPowerOf2(2);
      LeastPowerUnique(NextPowerOf2(2), 2, 2);
    }
  }

  lemma PartialFive()
    ensures Partial(Partial(Stream(AfterTrue() + NoBits(8), 7), 0, 2), 5, 8) == Stream(AfterFive(), 17)
  {
    assert ToBits(0, 2) == [false, false];
    assert ToBits(5, 8) == [false, false, false, false, false, true, false, true];
    hide ToBits;
    var w := Partial(Stream(AfterTrue() + NoBits(8), 7), 0, 2);
    assert w.bits == AfterTrue() + NoBits(8);
    assert OrAt(w.bits, 9, ToBits(5, 8)) == AfterFive();
  }

  lemma ReadFour()
    ensures DecodeNext(AfterFive(), 4) == Some((Num(4), 17))
  {
    ReadFields();
    hide ReadBits, Window, ReadString, ReadBytes, DecodeItems, DecodeEntries;
    assert ReadInt(AfterFive(), 7, false) == (4, 17);
  }

  /** The first value of those two bytes is the `true` written first. */
  lemma ReadTrue()
    ensures DecodeNext(AfterFive(), 0) == Some((Bool(true), 4))
  {
    var t := [false, true, false, true];
    assert ToBits(2, 3) == [false, true, false];
    assert ToBits(1, 1) == [true];
    assert Encode(Bool(true)) == t;
    hide ToBits, Encode, DecodeNext;
    forall k | 0 <= k < 4
      ensures Window(AfterFive(), 0, 4)[k] == t[k]
    {
    }
    DecodeEncode(AfterFive(), 0, Bool(true));
  }

  lemma ReadFields()
    ensures ReadBits(AfterFive(), 4, 3) == 0
    ensures ReadBits(AfterFive(), 7, 2) == 0
    ensures ReadBits(AfterFive(), 9, 8) == 4
  {
    ZeroWindow(4, 3);
    ZeroWindow(7, 2);
    FourWindow();
    hide Window, AfterFive, ToBits;
    Pow2Words();
    FromToBits(4, 8);
    Int32Small(4);
  }

  lemma FourWindow()
    ensures Window(AfterFive(), 9, 8) == ToBits(4, 8)
  {
    var four := [false, false, false, false, false, true, false, false];
    assert ToBits(4, 8) == four;
    hide ToBits;
    forall k | 0 <= k < 8
      ensures Window(AfterFive(), 9, 8)[k] == four[k]
    {
    }
  }

  /** Clear bits read as zero. */
  lemma ZeroWindow(p: nat, m: nat)
    requires 4 <= p && p + m <= 14
    ensures ReadBits(AfterFive(), p, m) == 0
  {
    ToBitsZero(m);
    var bits := [false, true, false, true, false, false, false, false,
                 false, false, false, false, false, false, true, false];
    assert AfterFive() == bits;
    forall k | 0 <= k < m
      ensures Window(AfterFive(), p, m)[k] == ToBits(0, m)[k]
    {
      assert !bits[p + k];
      assert !BitAt(AfterFive(), p + k);
      assert !NoBits(m)[k];
    }
    assert Window(AfterFive(), p, m) == ToBits(0, m);
    hide Window, AfterFive, ToBits;
    FromToBits(0, m);
    Int32Small(0);
  }

  /** With the reservation as written, `write(true)` then `write(5)` on a
      one-byte writer loses the low bit of 5: `writeInt` grows the array to
      two bytes, but the field starts at bit 9 and ends at bit 17.  The
      reader then finds 4 where 5 was written. */
  lemma ShortReservation()
    ensures var w1 := ValueWritten(OneByte(), Bool(true), 1);
            var w2 := ValueWritten(w1, Num(5), 1);
            w1.pos == 4 && w2.pos == 17 && |w2.bits| == 16 &&
            DecodeNext(w2.bits, 4) == Some((Num(4), 17))
  {
    hide ValueWritten, DecodeNext;
    WriteTrue();
    WriteFive();
    ReadFour();
  }

  /** With the corrected reservation the same two writes read back. */
  lemma FullReservation()
    ensures var w1 := ValueWritten(OneByte(), Bool(true), 2);
            var w2 := ValueWritten(w1, Num(5), 2);
            DecodeNext(w2.bits, w1.pos) == Some((Num(5), w2.pos))
  {
    var w1 := ValueWritten(OneByte(), Bool(true), 2);
    WriteThenRead(OneByte(), Bool(true));
    WriteThenRead(w1, Num(5));
  }

  // ---------------------------------------------------------------------
  // The class

  /** The byte `writePartial` ORs in for one chunk of `n`: with `free` bits
      free in the current byte and `left` bits of the field still to go, the
      chunk is the next `min(free, left)` bits, placed just below the bits
      already used.  When the chunk fills the byte the shift keeps the
      field's higher bits too, but only the byte's low eight reach the
      array, and above the free bits those are clear. */
  lemma ChunkBits(n: nat, bitSize: nat, processed: nat, free: nat, part: nat)
    requires n < Pow2(bitSize) && processed < bitSize && 1 <= free <= 8
    requires processed > 0 ==> free == 8
    requires var left := bitSize - processed;
      part == if free <= left then ShiftRight(n, left - free) else ShiftLeft(Mask(n, left), free - left)
    ensures var count := if free <= bitSize - processed then free else bitSize - processed;
      ToBits(part, 8) == NoBits(8 - free) + ToBits(n, bitSize)[processed..processed + count] + NoBits(free - count)
  {
    if free <= bitSize - processed {
      ChunkFills(n, bitSize, processed, free, part);
    } else {
      ChunkFits(n, bitSize, processed, free, part);
    }
  }

  /** The chunk takes every free bit: the shift right. */
  lemma ChunkFills(n: nat, bitSize: nat, processed: nat, free: nat, part: nat)
    requires n < Pow2(bitSize) && processed + free <= bitSize && 1 <= free <= 8
    requires processed > 0 ==> free == 8
    requires part == ShiftRight(n, bitSize - processed - free)
    ensures ToBits(part, 8) == NoBits(8 - free) + ToBits(n, bitSize)[processed..processed + free] + NoBits(0)
  {
    hide ToBits;
    var shift := bitSize - processed - free;
    ToBitsSlice(n, bitSize, processed, free);
    ToBitsSplit(part, 8 - free, free);
    if free < 8 {
      assert shift + free == bitSize;
      Pow2Add(shift, free);
      DivMod(n, Pow2(shift), Pow2(free));
      assert part / Pow2(free) == n / Pow2(bitSize);
      ModUnique(n, Pow2(bitSize), 0, n);
      ToBitsZero(8 - free);
    } else {
      ToBitsZero(0);
    }
  }

  /** The chunk ends the field inside the byte: the mask and the shift
      left. */
  lemma ChunkFits(n: nat, bitSize: nat, processed: nat, free: nat, part: nat)
    requires n < Pow2(bitSize) && bitSize - free < processed < bitSize && free <= 8
    requires part == ShiftLeft(Mask(n, bitSize - processed), free - (bitSize - processed))
    ensures ToBits(part, 8) == NoBits(8 - free) + ToBits(n, bitSize)[processed..bitSize] + NoBits(free - (bitSize - processed))
  {
    hide ToBits;
    var left := bitSize - processed;
    PlacedField(n % Pow2(left), left, free - left, 8);
    ToBitsMod(n, left);
    ToBitsSlice(n, bitSize, processed, left);
    assert Pow2(0) == 1;
  }

  /** The offset of the byte being filled is the stream's byte. */
  lemma OffsetOf(w: Stream, offset: nat, free: nat)
    requires 1 <= free <= 8 && w.pos == 8 * offset + 8 - free
    ensures Offset(w) == offset
  {
  }

  /** The magnitude of a 32-bit integer fits the bytes counted for it. */
  lemma MagnitudeFits(n: int)
    ensures Magnitude(n) < Pow2(8 * NumByteSize(Magnitude(n)))
  {
    Pow2Words();
  }

  /** A fresh array of zeros is a clear stream. */
  lemma ZerosClear(size: nat)
    ensures BitsOf(Zeros(size)) == NoBits(8 * size)
  {
    BitsOfPad([], size);
    assert Pad([], size) == Zeros(size);
    assert BitsOf([]) + NoBits(8 * size) == NoBits(8 * size);
  }

  /** `BMWriter` */
  class BMWriter {
    var arr: array<byte>
    var offset: nat
    var reminder: nat

    /** `reminder` counts the free bits of the byte at `offset`. */
    ghost predicate Valid()
      reads this
    {
      1 <= reminder <= 8
    }

    /** The writer as a bit stream. */
    ghost function State(): Stream
      requires Valid()
      reads this, arr
    {
      Stream(BitsOf(arr[..]), 8 * offset + 8 - reminder)
    }

    constructor (initialSize: nat)
      ensures Valid() && State() == Stream(NoBits(8 * initialSize), 0)
      ensures Ready(State()) && fresh(arr)
    {
      arr := new byte[initialSize](_ => 0);
      offset := 0;
      reminder := 8;
      new;
      assert arr[..] == Zeros(initialSize);
      ZerosClear(initialSize);
    }

    /** `reset(size)`: a fresh array and the start of it. */
    method Reset(size: nat)
      modifies this
      ensures Valid() && State() == Stream(NoBits(8 * size), 0)
      ensures Ready(State()) && fresh(arr)
    {
      arr := new byte[size](_ => 0);
      offset := 0;
      reminder := 8;
      assert arr[..] == Zeros(size);
      ZerosClear(size);
    }

    method Expand(neededSize: nat)
      requires Valid()
      modifies this
      ensures Valid() && State() == Grown(old(State()), neededSize)
      ensures arr == old(arr) || fresh(arr)
    {
      ghost var a := arr[..];
      arr := Grow(arr, neededSize);
      BitsOfPad(a, arr.Length);
      OffsetOf(State(), offset, reminder);
    }

    method WritePartial(n: nat, bitSize: nat)
      requires Valid() && n < Pow2(bitSize) && bitSize <= 32
      modifies this, arr
      ensures Valid() && arr == old(arr)
      ensures State() == Partial(old(State()), n, bitSize)
    {
      hide ToBits, BitsOf, OrAt, NoBits;
      ghost var start := State();
      ghost var field := ToBits(n, bitSize);
      OrAtNothing(start.bits, start.pos);
      var processed := 0;
      while processed < bitSize
        invariant Valid() && arr == old(arr) && processed <= bitSize
        invariant 0 < processed < bitSize ==> reminder == 8
        invariant State() == Stream(OrAt(start.bits, start.pos, field[..processed]), start.pos + processed)
      {
        ghost var mid := State();
        var processCount := WriteChunk(n, bitSize, processed);
        OrAtTwice(start.bits, start.pos, field[..processed], mid.pos, field[processed..processed + processCount]);
        assert field[..processed] + field[processed..processed + processCount] == field[..processed + processCount];
        processed := processed + processCount;
      }
      assert field[..processed] == field;
    }

    /** One turn of the loop of `writePartial`: the next chunk of the field,
        as many of its bits as the current byte has free. */
    method WriteChunk(n: nat, bitSize: nat, processed: nat) returns (processCount: nat)
      requires Valid() && n < Pow2(bitSize) && processed < bitSize
      requires processed > 0 ==> reminder == 8
      modifies this, arr
      ensures Valid() && arr == old(arr)
      ensures 1 <= processCount <= bitSize - processed
      ensures processed + processCount < bitSize ==> reminder == 8
      ensures State() == Stream(OrAt(old(State()).bits, old(State()).pos, ToBits(n, bitSize)[processed..processed + processCount]),
                                old(State()).pos + processCount)
    {
      hide ToBits, BitsOf, OrAt, NoBits;
      var unprocessedCount := bitSize - processed;
      processCount := if reminder < unprocessedCount then reminder else unprocessedCount;
      var part: nat;
      if processCount == reminder {
        part := ShiftRight(n, unprocessedCount - reminder);
      } else {
        part := ShiftLeft(Mask(n, unprocessedCount), reminder - processCount);
      }
      ChunkBits(n, bitSize, processed, reminder, part);
      OrPart(part, ToBits(n, bitSize)[processed..processed + processCount]);
      reminder := reminder - processCount;
      if reminder == 0 {
        offset := offset + 1;
        reminder := 8;
      }
    }

    /** `write(v)`: room for one byte, the tag, then the value's body. */
    method Write(v: Value)
      requires Valid()
      modifies this, arr
      ensures Valid() && State() == ValueWritten(old(State()), v, 1)
      ensures arr == old(arr) || fresh(arr)
      decreases v, 1
    {
      hide ToBits, BitsOf, OrAt, NoBits, Partial, Grown, IntWritten, StrWritten, ItemsWritten, EntriesWritten, Extends, Encode;
      OffsetOf(State(), offset, reminder);
      Expand(offset + 1);
      assert Pow2(3) == 8;
      WritePartial(Tag(v), 3);
      match v
      case Null =>
      case Num(n) => WriteInt(n);
      case Bool(b) => WriteBoolean(b);
      case Str(bytes) => WriteString(bytes);
      case List(_) => WriteList(v);
      case Map(_) => WriteMap(v);
    }

    /** `writeInt(n)`: room for the magnitude's bytes and one more, the
        byte count less one in two bits, then the magnitude. */
    method WriteInt(n: int)
      requires Valid()
      modifies this, arr
      ensures Valid() && State() == IntWritten(old(State()), n, 1)
      ensures arr == old(arr) || fresh(arr)
    {
      hide ToBits, BitsOf, OrAt, NoBits, Partial, Grown;
      var mag := Magnitude(n);
      var size := NumByteSize(mag);
      OffsetOf(State(), offset, reminder);
      Expand(offset + 1 + size);
      MagnitudeFits(n);
      Pow2Words();
      WritePartial(size - 1, 2);
      WritePartial(mag, size * 8);
    }

    method WriteBoolean(b: bool)
      requires Valid()
      modifies this, arr
      ensures Valid() && State() == Partial(Grown(old(State()), Offset(old(State())) + 1), if b then 1 else 0, 1)
      ensures arr == old(arr) || fresh(arr)
    {
      hide ToBits, BitsOf, OrAt, NoBits, Partial, Grown;
      OffsetOf(State(), offset, reminder);
      Expand(offset + 1);
      WritePartial(if b then 1 else 0, 1);
    }

    /** `writeString` on the UTF-8 bytes of the string. */
    method WriteString(bytes: seq<byte>)
      requires Valid()
      modifies this, arr
      ensures Valid() && State() == StrWritten(old(State()), bytes, 1)
      ensures arr == old(arr) || fresh(arr)
    {
      hide ToBits, BitsOf, OrAt, NoBits, Partial, Grown, IntWritten;
      WriteInt(|bytes|);
      OffsetOf(State(), offset, reminder);
      Expand(offset + |bytes| + 1);
      ghost var w := State();
      Pow2Words();
      var i := 0;
      while i < |bytes|
        invariant Valid() && (arr == old(arr) || fresh(arr)) && i <= |bytes|
        invariant BytesWritten(State(), bytes[i..]) == BytesWritten(w, bytes)
      {
        assert bytes[i..][1..] == bytes[i + 1..];
        WritePartial(bytes[i], 8);
        i := i + 1;
      }
    }

    method WriteList(v: Value)
      requires Valid() && v.List?
      modifies this, arr
      ensures Valid() && State() == ItemsWritten(IntWritten(old(State()), |v.items|, 1), v, 0, 1)
      ensures arr == old(arr) || fresh(arr)
      decreases v, 0
    {
      hide ToBits, BitsOf, OrAt, NoBits, Partial, Grown, IntWritten, ValueWritten;
      WriteInt(|v.items|);
      ghost var w := State();
      var i := 0;
      while i < |v.items|
        invariant Valid() && (arr == old(arr) || fresh(arr)) && i <= |v.items|
        invariant ItemsWritten(State(), v, i, 1) == ItemsWritten(w, v, 0, 1)
      {
        Write(v.items[i]);
        i := i + 1;
      }
    }

    /** `writeMap`: each key as a string, then its value. */
    method WriteMap(v: Value)
      requires Valid() && v.Map?
      modifies this, arr
      ensures Valid() && State() == EntriesWritten(IntWritten(old(State()), |v.entries|, 1), v, 0, 1)
      ensures arr == old(arr) || fresh(arr)
      decreases v, 0
    {
      hide ToBits, BitsOf, OrAt, NoBits, Partial, Grown, IntWritten, ValueWritten, StrWritten;
      WriteInt(|v.entries|);
      ghost var w := State();
      var i := 0;
      while i < |v.entries|
        invariant Valid() && (arr == old(arr) || fresh(arr)) && i <= |v.entries|
        invariant EntriesWritten(State(), v, i, 1) == EntriesWritten(w, v, 0, 1)
      {
        WriteString(v.entries[i].0);
        Write(v.entries[i].1);
        i := i + 1;
      }
    }

    /** `getBuffer()`: the bytes up to and including the one being filled,
        as far as the array reaches. */
    method GetBuffer() returns (r: seq<byte>)
      requires Valid()
      ensures |r| == if offset + 1 <= arr.Length then offset + 1 else arr.Length
      ensures |r| <= arr.Length && r == arr[..|r|]
      ensures State().pos <= 8 * |r| || |r| == arr.Length
    {
      r := Slice(arr[..], 0, offset + (if reminder > 0 then 1 else 0));
    }

    /** `this.arr[this.offset] |= part`: a store past the end of the array
        is dropped. */
    method OrPart(part: nat, ghost chunk: seq<bool>)
      requires Valid() && |chunk| <= reminder
      requires ToBits(part, 8) == NoBits(8 - reminder) + chunk + NoBits(reminder - |chunk|)
      modifies arr
      ensures BitsOf(arr[..]) == OrAt(old(BitsOf(arr[..])), State().pos, chunk)
    {
      if offset < arr.Length {
        ghost var before := arr[..];
        arr[offset] := Or(arr[offset], part) % 256;
        OrIntoByte(before, offset, State().pos, chunk, part);
      } else {
        OrAtPast(BitsOf(arr[..]), State().pos, chunk);
      }
    }
  }

  lemma OrAtNothing(s: seq<bool>, p: nat)
    ensures OrAt(s, p, []) == s
  {
  }
}
