/** The block of Block.java: a run of length-prefixed entries (`data`) and the
    start offset of each entry (`offsets`, Java `short`s), with its wire form
    `data | u16be offset* | u16be count`. A `Block` is immutable once made by
    `BlockBuilder.build` or `Block.decode`, so it is a value here. */
module Blocks {
  import opened JavaBytes

  datatype Block = Block(data: Bytes, offsets: seq<Short>)

  /** One key-value pair as the builder receives it. */
  datatype Entry = Entry(key: Bytes, value: Bytes)

  /** The bytes `BlockBuilder.add` appends for one entry:
      `u16be(|key|) key u16be(|value|) value`. */
  function EncodeEntry(e: Entry): (r: Bytes)
    ensures |r| == |e.key| + |e.value| + 4
  {
    U16Be(|e.key|) + e.key + U16Be(|e.value|) + e.value
  }

  /** The `data` of a block that was given `es` in this order. */
  function EntriesData(es: seq<Entry>): Bytes {
    if es == [] then [] else EntriesData(es[..|es| - 1]) + EncodeEntry(es[|es| - 1])
  }

  /** The `offsets` of that block: each entry's start in `data`, cast to `short`. */
  function Starts(es: seq<Entry>): (r: seq<Short>)
    ensures |r| == |es|
  {
    if es == [] then [] else Starts(es[..|es| - 1]) + [ToShort(|EntriesData(es[..|es| - 1])|)]
  }

  /** The block a builder holds after accepting `es`. */
  function Built(es: seq<Entry>): Block {
    Block(EntriesData(es), Starts(es))
  }

  /** The encoded size of the block holding `es`, entry by entry: two bytes of
      count, and per entry its two length prefixes, its offset slot, its key and
      its value. */
  function SizeOf(es: seq<Entry>): nat {
    if es == [] then 2
    else SizeOf(es[..|es| - 1]) + |es[|es| - 1].key| + |es[|es| - 1].value| + 6
  }

  lemma BuiltAppend(es: seq<Entry>, e: Entry)
    ensures EntriesData(es + [e]) == EntriesData(es) + EncodeEntry(e)
    ensures Starts(es + [e]) == Starts(es) + [ToShort(|EntriesData(es)|)]
    ensures SizeOf(es + [e]) == SizeOf(es) + |e.key| + |e.value| + 6
  {
    assert (es + [e])[..|es|] == es;
  }

  /** `SizeOf` is the builder's estimate `2 * |offsets| + |data| + 2`. */
  lemma {:induction false} SizeOfIsEstimate(es: seq<Entry>)
    ensures SizeOf(es) == 2 * |Starts(es)| + |EntriesData(es)| + 2
  {
    if es != [] {
      SizeOfIsEstimate(es[..|es| - 1]);
    }
  }

  /** The offset table as the encoder writes it: each offset as two bytes. */
  function OffsetBytes(offsets: seq<Short>): (r: Bytes)
    ensures |r| == 2 * |offsets|
  {
    if offsets == [] then []
    else OffsetBytes(offsets[..|offsets| - 1]) + U16Be(offsets[|offsets| - 1])
  }

  /** The wire form `Block.encode` produces. */
  function Encoded(b: Block): (r: Bytes)
    ensures |r| == |b.data| + 2 * |b.offsets| + 2
  {
    b.data + OffsetBytes(b.offsets) + U16Be(|b.offsets|)
  }

  /** The offsets `Block.decode` reads from an offset table `s`. */
  function ReadShorts(s: Bytes): (r: seq<Short>)
    requires |s| % 2 == 0
    ensures |r| == |s| / 2
  {
    if s == [] then [] else ReadShorts(s[..|s| - 2]) + [ToShort(ReadU16(s, |s| - 2))]
  }

  /** What `Block.decode` returns: the count from the last two bytes, the offset
      table before it and the data before that. A buffer shorter than two bytes,
      or one whose count claims more offsets than fit, makes Java index outside
      the array. */
  function Decoded(bytes: Bytes): Result<Block> {
    if |bytes| < 2 then Err(IndexOutOfBounds)
    else
      var dataEnd := |bytes| - 2 - ReadU16(bytes, |bytes| - 2) * 2;
      if dataEnd < 0 then Err(IndexOutOfBounds)
      else Ok(Block(bytes[..dataEnd], ReadShorts(bytes[dataEnd..|bytes| - 2])))
  }

  /** `Block.encode`: copy `data`, append each offset, then the count. */
  method Encode(b: Block) returns (bytes: Bytes)
    ensures bytes == Encoded(b)
  {
    var buf := b.data;
    var offsetsLen := |b.offsets|;
    var i := 0;
    while i < offsetsLen
      invariant 0 <= i <= offsetsLen
      invariant buf == b.data + OffsetBytes(b.offsets[..i])
    {
      var offset := b.offsets[i];
      assert b.offsets[..i + 1][..i] == b.offsets[..i];
      buf := buf + [ToByte(offset / 0x100), ToByte(offset)];
      i := i + 1;
    }
    assert b.offsets[..offsetsLen] == b.offsets;
    buf := buf + [ToByte(offsetsLen / 0x100), ToByte(offsetsLen)];
    bytes := buf;
  }

  /** `Block.decode`: read the count, then the offsets, then the data. */
  method Decode(bytes: Bytes) returns (r: Result<Block>)
    ensures r == Decoded(bytes)
  {
    var bytesLen := |bytes|;
    if bytesLen < 2 {
      return Err(IndexOutOfBounds);
    }
    var offsetsLen := Unsigned(bytes[bytesLen - 2]) * 0x100 + Unsigned(bytes[bytesLen - 1]);
    assert offsetsLen == ReadU16(bytes, bytesLen - 2);
    var dataEnd := bytesLen - 2 - offsetsLen * 2;
    if dataEnd < 0 {
      return Err(IndexOutOfBounds);
    }
    var offsets := ReadOffsets(bytes, dataEnd, offsetsLen);
    var data := CopyData(bytes, dataEnd);
    DecodedShape(bytes, offsetsLen);
    r := Ok(Block(data, offsets));
  }

  /** The first loop of `decode`: read `count` big-endian shorts from `lo`. */
  method ReadOffsets(bytes: Bytes, lo: nat, count: nat) returns (offsets: seq<Short>)
    requires lo + 2 * count == |bytes| - 2
    ensures offsets == ReadShorts(bytes[lo..|bytes| - 2])
  {
    offsets := [];
    var i := lo;
    ghost var k := 0;
    while i < |bytes| - 2
      invariant 0 <= k <= count && i == lo + 2 * k
      invariant offsets == ReadShorts(bytes[lo..i])
    {
      var offset := ToShort(Unsigned(bytes[i]) * 0x100 + Unsigned(bytes[i + 1]));
      assert offset == ToShort(ReadU16(bytes, lo + 2 * k));
      ReadShortsStep(bytes, lo, k);
      offsets := offsets + [offset];
      i, k := i + 2, k + 1;
    }
  }

  /** The second loop of `decode`: copy the first `n` bytes. */
  method CopyData(bytes: Bytes, n: nat) returns (data: Bytes)
    requires n <= |bytes|
    ensures data == bytes[..n]
  {
    data := [];
    var i := 0;
    while i < n
      invariant 0 <= i <= n
      invariant data == bytes[..i]
    {
      data := data + [bytes[i]];
      i := i + 1;
    }
  }

  lemma ReadShortsStep(bytes: Bytes, lo: int, k: nat)
    requires 0 <= lo && lo + 2 * k + 2 <= |bytes|
    ensures ReadShorts(bytes[lo..lo + 2 * k + 2])
         == ReadShorts(bytes[lo..lo + 2 * k]) + [ToShort(ReadU16(bytes, lo + 2 * k))]
  {
    var i := lo + 2 * k;
    var s := bytes[lo..i + 2];
    assert s[..|s| - 2] == bytes[lo..i];
    assert s[|s| - 2] == bytes[i] && s[|s| - 1] == bytes[i + 1];
  }

  lemma {:induction false} ReadOffsetBytes(offsets: seq<Short>)
    ensures ReadShorts(OffsetBytes(offsets)) == offsets
  {
    if offsets != [] {
      var init := offsets[..|offsets| - 1];
      var last := offsets[|offsets| - 1];
      var s := OffsetBytes(offsets);
      ReadOffsetBytes(init);
      assert s[..|s| - 2] == OffsetBytes(init);
      assert s[|s| - 2..] == U16Be(last);
      assert ReadU16(s, |s| - 2) == ReadU16(U16Be(last), 0);
      ShortRoundTrip(last);
    }
  }

  /** Decoding an encoded block gives back the same `data` and `offsets`, as
      long as the count fits its two bytes. */
  lemma DecodeEncode(b: Block)
    requires |b.offsets| < 0x1_0000
    ensures Decoded(Encoded(b)) == Ok(b)
  {
    var bytes := Encoded(b);
    var count := |b.offsets|;
    assert ReadU16(bytes, |bytes| - 2) == count by {
      EncodedCount(b);
      assert count % 0x1_0000 == count;
    }
    assert |bytes| - 2 - 2 * count == |b.data|;
    DecodedShape(bytes, count);
    EncodedParts(b);
    ReadOffsetBytes(b.offsets);
  }

  lemma EncodedCount(b: Block)
    ensures ReadU16(Encoded(b), |Encoded(b)| - 2) == |b.offsets| % 0x1_0000
  {
    var bytes := Encoded(b);
    var n := |bytes|;
    assert bytes[n - 2..] == U16Be(|b.offsets|);
    assert ReadU16(bytes, n - 2) == ReadU16(U16Be(|b.offsets|), 0);
  }

  lemma EncodedParts(b: Block)
    ensures Encoded(b)[..|b.data|] == b.data
    ensures Encoded(b)[|b.data|..|Encoded(b)| - 2] == OffsetBytes(b.offsets)
  {
  }

  lemma DecodedShape(bytes: Bytes, count: nat)
    requires |bytes| >= 2 && count == ReadU16(bytes, |bytes| - 2)
    requires |bytes| - 2 - 2 * count >= 0
    ensures Decoded(bytes)
         == Ok(Block(bytes[..|bytes| - 2 - 2 * count], ReadShorts(bytes[|bytes| - 2 - 2 * count..|bytes| - 2])))
  {
  }

  /** The encoded length of a built block is `SizeOf` its entries, which is the
      builder's estimate. */
  lemma EncodedSizeOfBuilt(es: seq<Entry>)
    ensures |Encoded(Built(es))| == SizeOf(es)
  {
    SizeOfIsEstimate(es);
  }

  /** Every key the builder accepted, in order. */
  ghost predicate KeysNonEmpty(es: seq<Entry>) {
    forall i :: 0 <= i < |es| ==> es[i].key != []
  }

  /** What `BlockIterator.seekToOffset` loads from `data` at `off`: a key length,
      the key, a value length, the value. `None` where one of Java's `subList`
      or `get` calls would index outside the list. */
  function EntryAt(data: Bytes, off: int): Option<Entry> {
    if off < 0 || |data| - off < 2 then None
    else
      var keyLen := ReadU16(data, off);
      var valueAt := off + 2 + keyLen;
      if |data| - valueAt < 2 then None
      else
        var valueLen := ReadU16(data, valueAt);
        if |data| - (valueAt + 2) < valueLen then None
        else Some(Entry(data[off + 2..valueAt], data[valueAt + 2..valueAt + 2 + valueLen]))
  }

  /** The block an iterator can walk: every offset points at a complete entry
      with a non-empty key. */
  ghost predicate WellFormed(b: Block) {
    forall i :: 0 <= i < |b.offsets| ==>
      EntryAt(b.data, b.offsets[i]).Some? && EntryAt(b.data, b.offsets[i]).value.key != []
  }

  /** The entry at index `i` of a well-formed block. */
  ghost function EntryOf(b: Block, i: int): Entry
    requires WellFormed(b) && 0 <= i < |b.offsets|
  {
    EntryAt(b.data, b.offsets[i]).value
  }

  /** All entries of a well-formed block, in offset order. */
  ghost function EntriesOf(b: Block): (r: seq<Entry>)
    requires WellFormed(b)
    ensures |r| == |b.offsets|
  {
    seq(|b.offsets|, i requires 0 <= i < |b.offsets| => EntryOf(b, i))
  }

  /** An entry encoded between any prefix and suffix is read back whole, as
      long as both lengths fit their two-byte prefixes. */
  lemma EntryAtEncoded(p: Bytes, e: Entry, q: Bytes)
    requires |e.key| < 0x1_0000 && |e.value| < 0x1_0000
    ensures EntryAt(p + EncodeEntry(e) + q, |p|) == Some(e)
  {
    var data := p + EncodeEntry(e) + q;
    var off := |p|;
    var k := |e.key|;
    var v := |e.value|;
    assert data[off..off + 2] == U16Be(k);
    ReadU16Slice(data, off, U16Be(k));
    assert data[off + 2..off + 2 + k] == e.key;
    assert data[off + 2 + k..off + 4 + k] == U16Be(v);
    ReadU16Slice(data, off + 2 + k, U16Be(v));
    assert data[off + 4 + k..off + 4 + k + v] == e.value;
    EntryAtShape(data, off, k, v);
  }

  lemma SmallShort(x: int)
    requires 0 <= x < 0x8000
    ensures ToShort(x) == x
  {
  }

  lemma EntryAtShape(data: Bytes, off: int, k: nat, v: nat)
    requires 0 <= off && off + 4 + k + v <= |data|
    requires ReadU16(data, off) == k && ReadU16(data, off + 2 + k) == v
    ensures EntryAt(data, off) == Some(Entry(data[off + 2..off + 2 + k], data[off + 4 + k..off + 4 + k + v]))
  {
  }

  lemma {:induction false} StartsAt(es: seq<Entry>, i: int)
    requires 0 <= i < |es|
    ensures Starts(es)[i] == ToShort(|EntriesData(es[..i])|)
  {
    var init := es[..|es| - 1];
    if i < |es| - 1 {
      StartsAt(init, i);
      assert init[..i] == es[..i];
    } else {
      assert init == es[..i];
    }
  }

  lemma {:induction false} PrefixData(es: seq<Entry>, j: int)
    requires 0 <= j <= |es|
    ensures EntriesData(es[..j]) <= EntriesData(es)
    ensures SizeOf(es[..j]) <= SizeOf(es)
  {
    if j < |es| {
      var init := es[..|es| - 1];
      PrefixData(init, j);
      assert init[..j] == es[..j];
    } else {
      assert es[..j] == es;
    }
  }

  /** A block built from entries whose encoded size stays within 2^15 bytes is
      well formed, and reading it entry by entry gives back exactly the entries
      that were added, in the order they were added. */
  lemma BuiltEntries(es: seq<Entry>)
    requires SizeOf(es) <= 0x8000 && KeysNonEmpty(es)
    ensures WellFormed(Built(es))
    ensures EntriesOf(Built(es)) == es
  {
    var b := Built(es);
    forall i | 0 <= i < |es|
      ensures EntryAt(b.data, b.offsets[i]) == Some(es[i])
    {
      BuiltEntryAt(es, i);
    }
  }

  lemma BuiltEntryAt(es: seq<Entry>, i: int)
    requires SizeOf(es) <= 0x8000 && 0 <= i < |es|
    ensures EntryAt(Built(es).data, Built(es).offsets[i]) == Some(es[i])
  {
    var data := EntriesData(es);
    var p := EntriesData(es[..i]);
    var m := |EntriesData(es[..i + 1])|;
    BuiltOffsetAt(es, i);
    BuiltDataAt(es, i);
    EntryAtEncoded(p, es[i], data[m..]);
  }

  /** Entry `i` starts at the length of the data before it, which is below 2^15. */
  lemma BuiltOffsetAt(es: seq<Entry>, i: int)
    requires SizeOf(es) <= 0x8000 && 0 <= i < |es|
    ensures Built(es).offsets[i] == |EntriesData(es[..i])|
    ensures |es[i].key| < 0x1_0000 && |es[i].value| < 0x1_0000
  {
    var upto := es[..i + 1];
    assert upto[..i] == es[..i];
    PrefixData(es, i + 1);
    SizeOfIsEstimate(upto);
    StartsAt(es, i);
    SmallShort(|EntriesData(es[..i])|);
  }

  /** Below 2^15 bytes the offsets strictly increase: each entry starts after
      the entries added before it. */
  lemma BuiltOffsetsIncrease(es: seq<Entry>, i: int, j: int)
    requires SizeOf(es) <= 0x8000 && 0 <= i < j < |es|
    ensures Built(es).offsets[i] < Built(es).offsets[j]
  {
    BuiltOffsetAt(es, i);
    BuiltOffsetAt(es, j);
    PrefixDataGrows(es, i, j);
  }

  /** The data of the first `j` entries is longer than that of the first `i`. */
  lemma PrefixDataGrows(es: seq<Entry>, i: int, j: int)
    requires 0 <= i < j <= |es|
    ensures |EntriesData(es[..i])| < |EntriesData(es[..j])|
  {
    var upto := es[..j];
    assert upto[..i + 1] == es[..i + 1];
    PrefixData(upto, i + 1);
    assert es[..i] + [es[i]] == es[..i + 1];
    BuiltAppend(es[..i], es[i]);
  }

  /** Above 2^15 the `(short)` cast breaks the order: a start of 2^15 is
      recorded as -2^15, below the start 0 of the first entry. */
  lemma OffsetWrapsAt2To15()
    ensures ToShort(0x7fff) == 0x7fff && ToShort(0x8000) == -0x8000
    ensures ToShort(0x8000) < ToShort(0)
  {
  }

  lemma BuiltDataAt(es: seq<Entry>, i: int)
    requires 0 <= i < |es|
    ensures |EntriesData(es[..i + 1])| <= |EntriesData(es)|
    ensures EntriesData(es)
         == EntriesData(es[..i]) + EncodeEntry(es[i]) + EntriesData(es)[|EntriesData(es[..i + 1])|..]
  {
    var upto := es[..i + 1];
    assert upto[..i] == es[..i];
    PrefixData(es, i + 1);
    assert EntriesData(upto) == EntriesData(es[..i]) + EncodeEntry(es[i]);
    PrefixRest(EntriesData(es), EntriesData(upto));
  }

  /** A sequence is its prefix followed by the rest. */
  lemma PrefixRest(s: Bytes, a: Bytes)
    requires a <= s
    ensures s == a + s[|a|..]
  { }
}
