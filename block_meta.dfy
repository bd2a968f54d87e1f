/** `SsTable.BlockMeta`: where a block starts in the table and the key it
    records, and the codec for the list of them that follows the blocks. Each
    meta is written as `u32be(offset) | u16be(|firstKey|) | firstKey`. */
module BlockMetas {
  import opened JavaBytes

  datatype BlockMeta = BlockMeta(offset: int, firstKey: Bytes)

  /** The bytes one meta is written as. */
  function MetaBytes(m: BlockMeta): (r: Bytes)
    ensures |r| == SIZEOF_U32 + SIZEOF_U16 + |m.firstKey|
  {
    U32Be(m.offset) + U16Be(|m.firstKey|) + m.firstKey
  }

  /** The metas written one after another, in list order. */
  function EncodedMetas(ms: seq<BlockMeta>): Bytes {
    if ms == [] then [] else EncodedMetas(ms[..|ms| - 1]) + MetaBytes(ms[|ms| - 1])
  }

  /** The size `encodeBlockMeta` estimates before it writes anything. */
  function MetasSize(ms: seq<BlockMeta>): nat {
    if ms == [] then 0
    else MetasSize(ms[..|ms| - 1]) + SIZEOF_U32 + SIZEOF_U16 + |ms[|ms| - 1].firstKey|
  }

  /** The estimate is exact. */
  lemma {:induction false} EncodedMetasSize(ms: seq<BlockMeta>)
    ensures |EncodedMetas(ms)| == MetasSize(ms)
  {
    if ms != [] {
      EncodedMetasSize(ms[..|ms| - 1]);
    }
  }

  /** Writing two lists one after the other writes their concatenation. */
  lemma {:induction false} EncodedMetasConcat(a: seq<BlockMeta>, b: seq<BlockMeta>)
    ensures EncodedMetas(a + b) == EncodedMetas(a) + EncodedMetas(b)
    decreases |b|
  {
    if b == [] {
      assert a + b == a;
    } else {
      var b' := b[..|b| - 1];
      var last := b[|b| - 1];
      assert (a + b)[..|a + b| - 1] == a + b';
      assert (a + b)[|a + b| - 1] == last;
      EncodedMetasConcat(a, b');
      assert EncodedMetas(a + b) == EncodedMetas(a + b') + MetaBytes(last);
      assert EncodedMetas(b) == EncodedMetas(b') + MetaBytes(last);
      assert EncodedMetas(a) + EncodedMetas(b') + MetaBytes(last)
          == EncodedMetas(a) + (EncodedMetas(b') + MetaBytes(last));
    }
  }

  /** `encodeBlockMeta`: append the metas to `buf`. The caller's list is
      extended in place; here the extended list is returned. The existing
      bytes are kept, the metas follow in list order, and the number of bytes
      added equals the estimate computed first. */
  method EncodeBlockMeta(blockMetas: seq<BlockMeta>, buf: Bytes) returns (out: Bytes)
    ensures out == buf + EncodedMetas(blockMetas)
    ensures out[..|buf|] == buf
    ensures |out| - |buf| == MetasSize(blockMetas)
  {
    var estimateSize := 0;
    for k := 0 to |blockMetas|
      invariant estimateSize == MetasSize(blockMetas[..k])
    {
      assert blockMetas[..k + 1][..k] == blockMetas[..k];
      estimateSize := estimateSize + SIZEOF_U32;
      estimateSize := estimateSize + SIZEOF_U16;
      estimateSize := estimateSize + |blockMetas[k].firstKey|;
    }
    assert blockMetas[..|blockMetas|] == blockMetas;
    var originalLen := |buf|;
    out := buf;
    for k := 0 to |blockMetas|
      invariant out == buf + EncodedMetas(blockMetas[..k])
    {
      assert blockMetas[..k + 1][..k] == blockMetas[..k];
      var meta := blockMetas[k];
      out := out + U32Be(meta.offset);
      var firstLen := |meta.firstKey|;
      out := out + U16Be(firstLen);
      out := out + meta.firstKey;
    }
    EncodedMetasSize(blockMetas);
    assert estimateSize == |out| - originalLen;
  }

  /** Put decoded metas in front of the rest of a decode; failures pass through. */
  function PrependAll(ms: seq<BlockMeta>, r: Result<seq<BlockMeta>>): Result<seq<BlockMeta>> {
    match r
    case Ok(rest) => Ok(ms + rest)
    case Err(e) => Err(e)
  }

  lemma PrependNothing(r: Result<seq<BlockMeta>>)
    ensures PrependAll([], r) == r
  {
    if r.Ok? {
      assert [] + r.value == r.value;
    }
  }

  lemma PrependAllTwice(ms: seq<BlockMeta>, m: BlockMeta, r: Result<seq<BlockMeta>>)
    ensures PrependAll(ms + [m], r) == PrependAll(ms, PrependAll([m], r))
  {
    if r.Ok? {
      assert ms + [m] + r.value == ms + ([m] + r.value);
    }
  }

  /** `decodeBlockMeta` AS WRITTEN, from cursor `i` on. It reads the offset
      from bytes `i`..`i + 3`, then moves the cursor 4 further and once more by
      4, reads the key length from bytes `i + 8`..`i + 9` and the key from
      byte `i + 10`, and then moves the cursor only 1 past byte `i + 10`. A
      read past the end is an `IndexOutOfBoundsException`. */
  function DecodeMetasAsWritten(buf: Bytes, i: nat): Result<seq<BlockMeta>>
    decreases |buf| - i
  {
    if i >= |buf| then Ok([])
    else if i + 10 > |buf| then Err(IndexOutOfBounds)
    else
      var keyLen := ReadU16(buf, i + 8);
      if i + 10 + keyLen > |buf| then Err(IndexOutOfBounds)
      else
        var m := BlockMeta(ReadU32(buf, i), buf[i + 10..i + 10 + keyLen]);
        PrependAll([m], DecodeMetasAsWritten(buf, i + 11))
  }

  /** One turn of the as-written decoder that reads a whole meta. */
  lemma AsWrittenUnfold(buf: Bytes, i: nat)
    requires i + 10 <= |buf| && i + 10 + ReadU16(buf, i + 8) <= |buf|
    ensures DecodeMetasAsWritten(buf, i) == PrependAll([BlockMeta(ReadU32(buf, i), buf[i + 10..i + 10 + ReadU16(buf, i + 8)])], DecodeMetasAsWritten(buf, i + 11))
  {}

  /** `decodeBlockMeta` as written: the cursor loop computes
      `DecodeMetasAsWritten` from cursor 0. */
  method DecodeBlockMetaAsWritten(buf: Bytes) returns (r: Result<seq<BlockMeta>>)
    ensures r == DecodeMetasAsWritten(buf, 0)
  {
    var blockMetas: seq<BlockMeta> := [];
    var i := 0;
    PrependNothing(DecodeMetasAsWritten(buf, 0));
    while i < |buf|
      invariant 0 <= i
      invariant PrependAll(blockMetas, DecodeMetasAsWritten(buf, i)) == DecodeMetasAsWritten(buf, 0)
      decreases |buf| - i
    {
      if i + 10 > |buf| {
        return Err(IndexOutOfBounds);
      }
      ghost var at := i;
      var o1 := Unsigned(buf[i]) * 0x100_0000;
      var o2 := Unsigned(buf[i + 1]) * 0x1_0000;
      var o3 := Unsigned(buf[i + 2]) * 0x100;
      var o4 := Unsigned(buf[i + 3]);
      // The four parts occupy disjoint bits, so `|` adds them; the shift into
      // bit 31 wraps in 32-bit `int`.
      var offset := ToInt(o1 + o2 + o3 + o4);
      SignedWord(o1 + o2 + o3 + o4);
      assert offset == ReadU32(buf, at);
      i := i + 4;
      i := i + 4;
      var k1 := Unsigned(buf[i]) * 0x100;
      var k2 := Unsigned(buf[i + 1]);
      var keyLen := k1 + k2;
      i := i + 2;
      if i + keyLen > |buf| {
        return Err(IndexOutOfBounds);
      }
      var firstKey := buf[i..i + keyLen];
      i := i + 1;
      var m := BlockMeta(offset, firstKey);
      AsWrittenUnfold(buf, at);
      assert m == BlockMeta(ReadU32(buf, at), buf[at + 10..at + 10 + ReadU16(buf, at + 8)]);
      PrependAllTwice(blockMetas, m, DecodeMetasAsWritten(buf, i));
      blockMetas := blockMetas + [m];
    }
    assert blockMetas + [] == blockMetas;
    return Ok(blockMetas);
  }

  /** A single meta with an empty key is six bytes, which the as-written
      decoder reads past. */
  lemma AsWrittenRejectsShortMeta()
    ensures EncodedMetas([BlockMeta(0, [])]) == [0, 0, 0, 0, 0, 0]
    ensures DecodeMetasAsWritten(EncodedMetas([BlockMeta(0, [])]), 0) == Err(IndexOutOfBounds)
  {
    assert [BlockMeta(0, [])][..0] == [];
  }

  /** For a meta with a five-byte key, the as-written decoder takes key bytes
      for the key length and returns a meta with an empty key. */
  lemma AsWrittenLosesKey()
    ensures EncodedMetas([BlockMeta(0, [1, 1, 0, 0, 1])]) == [0, 0, 0, 0, 0, 5, 1, 1, 0, 0, 1]
    ensures DecodeMetasAsWritten(EncodedMetas([BlockMeta(0, [1, 1, 0, 0, 1])]), 0) == Ok([BlockMeta(0, [])])
  {
    assert [BlockMeta(0, [1, 1, 0, 0, 1])][..0] == [];
    var s: Bytes := [0, 0, 0, 0, 0, 5, 1, 1, 0, 0, 1];
    assert ReadU16(s, 8) == 0 && ReadU32(s, 0) == 0;
    assert s[10..10] == [];
    assert DecodeMetasAsWritten(s, 0) == PrependAll([BlockMeta(0, [])], DecodeMetasAsWritten(s, 11));
    assert [BlockMeta(0, [])] + [] == [BlockMeta(0, [])];
  }

  /** What the as-written decoder does get right: a meta it returns first
      carries the offset of the first meta encoded. */
  lemma AsWrittenFirstOffset(ms: seq<BlockMeta>)
    requires ms != [] && Representable(ms[0])
    ensures DecodeMetasAsWritten(EncodedMetas(ms), 0).Ok? && DecodeMetasAsWritten(EncodedMetas(ms), 0).value != [] ==>
      DecodeMetasAsWritten(EncodedMetas(ms), 0).value[0].offset == ms[0].offset
  {
    var buf := EncodedMetas(ms);
    EncodedMetasSplit(buf, 0, ms);
    MetaFields(ms[0]);
    ReadU32Within(buf, 0, MetaBytes(ms[0]), 0);
  }

  /** The strict inverse of `encodeBlockMeta` (not the code as written), from
      cursor `i` on: the key length is read right after the offset, and the
      cursor moves past the key. */
  function DecodeMetas(buf: Bytes, i: nat): Result<seq<BlockMeta>>
    decreases |buf| - i
  {
    if i >= |buf| then Ok([])
    else if i + SIZEOF_U32 + SIZEOF_U16 > |buf| then Err(IndexOutOfBounds)
    else
      var keyAt := i + SIZEOF_U32 + SIZEOF_U16;
      var keyLen := ReadU16(buf, i + SIZEOF_U32);
      if keyAt + keyLen > |buf| then Err(IndexOutOfBounds)
      else
        var m := BlockMeta(ReadU32(buf, i), buf[keyAt..keyAt + keyLen]);
        PrependAll([m], DecodeMetas(buf, keyAt + keyLen))
  }

  /** One turn of the corrected decoder that reads a whole meta. */
  lemma DecodeMetasUnfold(buf: Bytes, i: nat)
    requires i + 6 <= |buf| && i + 6 + ReadU16(buf, i + 4) <= |buf|
    ensures DecodeMetas(buf, i)
         == PrependAll([BlockMeta(ReadU32(buf, i), buf[i + 6..i + 6 + ReadU16(buf, i + 4)])],
                       DecodeMetas(buf, i + 6 + ReadU16(buf, i + 4)))
  {
  }

  /** The corrected decoder's cursor loop computes `DecodeMetas` from cursor 0. */
  method DecodeBlockMetaStrict(buf: Bytes) returns (r: Result<seq<BlockMeta>>)
    ensures r == DecodeMetas(buf, 0)
  {
    var blockMetas: seq<BlockMeta> := [];
    var i := 0;
    PrependNothing(DecodeMetas(buf, 0));
    while i < |buf|
      invariant 0 <= i
      invariant PrependAll(blockMetas, DecodeMetas(buf, i)) == DecodeMetas(buf, 0)
      decreases |buf| - i
    {
      if i + 6 > |buf| {
        return Err(IndexOutOfBounds);
      }
      ghost var at := i;
      var o1 := Unsigned(buf[i]) * 0x100_0000;
      var o2 := Unsigned(buf[i + 1]) * 0x1_0000;
      var o3 := Unsigned(buf[i + 2]) * 0x100;
      var o4 := Unsigned(buf[i + 3]);
      var offset := ToInt(o1 + o2 + o3 + o4);
      SignedWord(o1 + o2 + o3 + o4);
      assert offset == ReadU32(buf, at);
      i := i + 4;
      var k1 := Unsigned(buf[i]) * 0x100;
      var k2 := Unsigned(buf[i + 1]);
      var keyLen := k1 + k2;
      i := i + 2;
      if i + keyLen > |buf| {
        return Err(IndexOutOfBounds);
      }
      var firstKey := buf[i..i + keyLen];
      i := i + keyLen;
      var m := BlockMeta(offset, firstKey);
      DecodeMetasUnfold(buf, at);
      assert m == BlockMeta(ReadU32(buf, at), buf[at + 6..at + 6 + ReadU16(buf, at + 4)]);
      PrependAllTwice(blockMetas, m, DecodeMetas(buf, i));
      blockMetas := blockMetas + [m];
    }
    assert blockMetas + [] == blockMetas;
    return Ok(blockMetas);
  }

  /** A meta whose offset is an `int` and whose key length fits the two-byte
      field; only such metas can be written and read back. */
  predicate Representable(m: BlockMeta) {
    -0x8000_0000 <= m.offset < 0x8000_0000 && |m.firstKey| < 0x1_0000
  }

  /** The fields of one written meta read back. */
  lemma MetaFields(m: BlockMeta)
    requires Representable(m)
    ensures ReadU32(MetaBytes(m), 0) == m.offset
    ensures ReadU16(MetaBytes(m), 4) == |m.firstKey|
    ensures MetaBytes(m)[6..] == m.firstKey
  {
    var mb := MetaBytes(m);
    var k := |m.firstKey|;
    assert mb[..4] == U32Be(m.offset);
    ReadU32Slice(mb, 0, U32Be(m.offset));
    IntRoundTrip(m.offset);
    assert mb[4..6] == U16Be(k);
    ReadU16Slice(mb, 4, U16Be(k));
    assert k % 0x1_0000 == k;
  }

  /** Reading one written meta at the cursor where it starts, whatever comes
      before and after it. */
  lemma DecodeMetasCons(buf: Bytes, at: nat, m: BlockMeta)
    requires Representable(m)
    requires at + |MetaBytes(m)| <= |buf| && buf[at..at + |MetaBytes(m)|] == MetaBytes(m)
    ensures DecodeMetas(buf, at) == PrependAll([m], DecodeMetas(buf, at + |MetaBytes(m)|))
  {
    var mb := MetaBytes(m);
    var k := |m.firstKey|;
    MetaFields(m);
    ReadU32Within(buf, at, mb, 0);
    ReadU16Within(buf, at, mb, 4);
    assert buf[at + 6..at + 6 + k] == mb[6..] by {
      assert buf[at..at + |mb|][6..] == mb[6..];
    }
    DecodeMetasUnfold(buf, at);
  }

  /** Metas written at a cursor start with the first one's bytes, followed by
      the rest. */
  lemma EncodedMetasSplit(buf: Bytes, at: nat, ms: seq<BlockMeta>)
    requires ms != [] && at <= |buf| && buf[at..] == EncodedMetas(ms)
    ensures at + |MetaBytes(ms[0])| <= |buf|
    ensures buf[at..at + |MetaBytes(ms[0])|] == MetaBytes(ms[0])
    ensures buf[at + |MetaBytes(ms[0])|..] == EncodedMetas(ms[1..])
  {
    var m, rest := ms[0], ms[1..];
    var mb, tail := MetaBytes(m), EncodedMetas(rest);
    EncodedMetasConcat([m], rest);
    assert [m] + rest == ms;
    assert [m][..0] == [];
    assert EncodedMetas([m]) == mb;
    assert buf[at..] == mb + tail;
    assert buf[at..][..|mb|] == mb;
    assert buf[at..][|mb|..] == tail;
  }

  /** The corrected decoder inverts `encodeBlockMeta`: metas written at a
      cursor, up to the end of the buffer, are read back from that cursor. */
  lemma {:induction false} DecodeEncodeMetas(buf: Bytes, at: nat, ms: seq<BlockMeta>)
    requires forall i :: 0 <= i < |ms| ==> Representable(ms[i])
    requires at <= |buf| && buf[at..] == EncodedMetas(ms)
    ensures DecodeMetas(buf, at) == Ok(ms)
    decreases |ms|
  {
    if ms == [] {
      assert |buf[at..]| == 0;
      assert at == |buf|;
    } else {
      var next := at + |MetaBytes(ms[0])|;
      EncodedMetasSplit(buf, at, ms);
      DecodeMetasCons(buf, at, ms[0]);
      DecodeEncodeMetas(buf, next, ms[1..]);
      assert [ms[0]] + ms[1..] == ms;
      assert DecodeMetas(buf, at) == PrependAll([ms[0]], Ok(ms[1..]));
    }
  }
}
