/** `SsTable` and `SsTable.SsTableBuilder`: entries are fed to a block builder
    that rolls over to a fresh block when one is refused; every finished block
    is encoded and appended to the table's bytes, with a meta recording where
    it starts. `build` appends the meta list and a four-byte footer holding
    the start of that list. */
module SsTables {
  import opened JavaBytes
  import opened Blocks
  import opened BlockBuilders
  import opened BlockMetas

  /** An SSTable: its id, the bytes its file object is created from, the
      metas of its blocks and the offset of the meta list. */
  datatype SsTable = SsTable(id: int, file: Bytes, blockMetas: seq<BlockMeta>, blockMetaOffset: int)

  /** The encoded blocks holding `blocks`, end to end. */
  function Layout(blocks: seq<seq<Entry>>): Bytes {
    if blocks == [] then []
    else Layout(blocks[..|blocks| - 1]) + Encoded(Built(blocks[|blocks| - 1]))
  }

  /** The sum of the blocks' encoded sizes, block by block. */
  function BlocksSize(blocks: seq<seq<Entry>>): nat {
    if blocks == [] then 0 else BlocksSize(blocks[..|blocks| - 1]) + SizeOf(blocks[|blocks| - 1])
  }

  /** All entries of `blocks`, block after block. */
  function Flatten(blocks: seq<seq<Entry>>): seq<Entry> {
    if blocks == [] then [] else Flatten(blocks[..|blocks| - 1]) + blocks[|blocks| - 1]
  }

  lemma LayoutAppend(blocks: seq<seq<Entry>>, es: seq<Entry>)
    ensures Layout(blocks + [es]) == Layout(blocks) + Encoded(Built(es))
    ensures Flatten(blocks + [es]) == Flatten(blocks) + es
  {
    assert (blocks + [es])[..|blocks|] == blocks;
  }

  /** The length of the laid-out blocks is the sum of their sizes. */
  lemma {:induction false} LayoutSize(blocks: seq<seq<Entry>>)
    ensures |Layout(blocks)| == BlocksSize(blocks)
  {
    if blocks != [] {
      LayoutSize(blocks[..|blocks| - 1]);
      EncodedSizeOfBuilt(blocks[|blocks| - 1]);
    }
  }

  /** The layout of the first `i` blocks is a prefix of the layout of all. */
  lemma {:induction false} LayoutPrefix(blocks: seq<seq<Entry>>, i: int)
    requires 0 <= i <= |blocks|
    ensures Layout(blocks[..i]) <= Layout(blocks)
  {
    if i < |blocks| {
      var init := blocks[..|blocks| - 1];
      LayoutPrefix(init, i);
      assert init[..i] == blocks[..i];
    } else {
      assert blocks[..i] == blocks;
    }
  }

  /** The metas `finishBlock` records for `blocks`: block `i` starts where the
      blocks before it end; block 0 records an empty first key, since
      `firstKey` is set only on rollover, and every later block records the
      key of its first entry. */
  ghost predicate Describes(metas: seq<BlockMeta>, blocks: seq<seq<Entry>>) {
    && |metas| == |blocks|
    && (forall i :: 0 <= i < |blocks| ==> blocks[i] != [])
    && (forall i :: 0 <= i < |metas| ==> metas[i].offset == |Layout(blocks[..i])|)
    && (forall i :: 0 <= i < |metas| ==> metas[i].firstKey == RecordedKey(blocks, i))
  }

  /** The first key recorded for block `i`: none for block 0, the key of its
      first entry for every later block. */
  function RecordedKey(blocks: seq<seq<Entry>>, i: int): Bytes
    requires 0 <= i < |blocks| && blocks[i] != []
  {
    if i == 0 then [] else blocks[i][0].key
  }

  /** Finishing one more block extends the description by the meta
      `finishBlock` creates. */
  lemma DescribesAppend(metas: seq<BlockMeta>, blocks: seq<seq<Entry>>, es: seq<Entry>, key: Bytes)
    requires Describes(metas, blocks) && es != []
    requires blocks == [] ==> key == []
    requires blocks != [] ==> key == es[0].key
    ensures Describes(metas + [BlockMeta(|Layout(blocks)|, key)], blocks + [es])
  {
    var metas' := metas + [BlockMeta(|Layout(blocks)|, key)];
    var blocks' := blocks + [es];
    forall i | 0 <= i < |blocks'|
      ensures blocks'[i] != []
      ensures metas'[i].offset == |Layout(blocks'[..i])|
      ensures metas'[i].firstKey == RecordedKey(blocks', i)
    {
      if i < |blocks| {
        assert blocks'[i] == blocks[i] && metas'[i] == metas[i];
        assert blocks'[..i] == blocks[..i];
      } else {
        assert blocks'[..i] == blocks;
      }
    }
  }

  /** The offsets the metas record: the first block starts at 0, each block
      starts where the one before it ends, so the offsets strictly increase,
      and every block ends inside the laid-out blocks. */
  lemma MetaOffsets(metas: seq<BlockMeta>, blocks: seq<seq<Entry>>)
    requires Describes(metas, blocks)
    ensures metas != [] ==> metas[0].offset == 0
    ensures forall i :: 0 <= i < |metas| - 1 ==>
      metas[i + 1].offset == metas[i].offset + SizeOf(blocks[i]) > metas[i].offset
    ensures forall i :: 0 <= i < |metas| ==> metas[i].offset + SizeOf(blocks[i]) <= |Layout(blocks)|
  {
    if metas != [] {
      assert blocks[..0] == [];
    }
    forall i | 0 <= i < |metas|
      ensures |Layout(blocks[..i + 1])| == metas[i].offset + SizeOf(blocks[i]) <= |Layout(blocks)|
    {
      BlockSpan(blocks, i);
    }
  }

  /** Block `i` occupies `SizeOf(blocks[i])` bytes right after the blocks
      before it. */
  lemma BlockSpan(blocks: seq<seq<Entry>>, i: int)
    requires 0 <= i < |blocks|
    ensures |Layout(blocks[..i + 1])| == |Layout(blocks[..i])| + SizeOf(blocks[i])
    ensures Layout(blocks[..i + 1]) == Layout(blocks[..i]) + Encoded(Built(blocks[i]))
    ensures Layout(blocks[..i + 1]) <= Layout(blocks)
  {
    assert blocks[..i + 1] == blocks[..i] + [blocks[i]];
    LayoutAppend(blocks[..i], blocks[i]);
    EncodedSizeOfBuilt(blocks[i]);
    LayoutPrefix(blocks, i + 1);
  }

  /** The table `build` produces from finished blocks `blocks` and their metas. */
  ghost predicate LaidOut(t: SsTable, blocks: seq<seq<Entry>>) {
    && Describes(t.blockMetas, blocks)
    && t.blockMetaOffset == |Layout(blocks)|
    && t.file == Layout(blocks) + EncodedMetas(t.blockMetas) + U32Be(t.blockMetaOffset)
  }

  /** Where block `i` of a laid-out table ends: at the next block's offset, or
      at the meta list for the last block. */
  function BlockEnd(t: SsTable, i: int): int
    requires 0 <= i < |t.blockMetas|
  {
    if i + 1 < |t.blockMetas| then t.blockMetas[i + 1].offset else t.blockMetaOffset
  }

  /** Each block of a laid-out table can be read back: the bytes between its
      offset and the next decode to the block built from its entries, which
      an iterator walks entry by entry, giving the entries in order. */
  lemma BlockReadBack(t: SsTable, blocks: seq<seq<Entry>>, i: int)
    requires LaidOut(t, blocks) && 0 <= i < |blocks|
    requires SizeOf(blocks[i]) <= 0x8000 && KeysNonEmpty(blocks[i])
    ensures 0 <= t.blockMetas[i].offset <= BlockEnd(t, i) <= |t.file|
    ensures Decoded(t.file[t.blockMetas[i].offset..BlockEnd(t, i)]) == Ok(Built(blocks[i]))
    ensures WellFormed(Built(blocks[i])) && EntriesOf(Built(blocks[i])) == blocks[i]
  {
    BlockSlice(t, blocks, i);
    SizeOfIsEstimate(blocks[i]);
    DecodeEncode(Built(blocks[i]));
    BuiltEntries(blocks[i]);
  }

  /** The bytes of block `i` in a laid-out table are its encoding. */
  lemma BlockSlice(t: SsTable, blocks: seq<seq<Entry>>, i: int)
    requires LaidOut(t, blocks) && 0 <= i < |blocks|
    ensures 0 <= t.blockMetas[i].offset <= BlockEnd(t, i) <= |t.file|
    ensures t.file[t.blockMetas[i].offset..BlockEnd(t, i)] == Encoded(Built(blocks[i]))
  {
    BlockBounds(t, blocks, i);
    LayoutSlice(blocks, i);
    FirstPart(Layout(blocks), EncodedMetas(t.blockMetas), U32Be(t.blockMetaOffset));
    PrefixSlice(t.file, Layout(blocks), |Layout(blocks[..i])|, |Layout(blocks[..i + 1])|);
  }

  /** Block `i` of a laid-out table starts where the blocks before it end and
      ends where the blocks up to it end. */
  lemma BlockBounds(t: SsTable, blocks: seq<seq<Entry>>, i: int)
    requires LaidOut(t, blocks) && 0 <= i < |blocks|
    ensures t.blockMetas[i].offset == |Layout(blocks[..i])|
    ensures BlockEnd(t, i) == |Layout(blocks[..i + 1])|
  {
    if i + 1 == |blocks| {
      assert blocks[..i + 1] == blocks;
    }
  }

  /** The first part of a three-part concatenation is a prefix of it. */
  lemma FirstPart(a: Bytes, b: Bytes, c: Bytes)
    ensures a <= a + b + c
  {
    assert (a + b + c)[..|a|] == a;
  }

  /** Block `i` is the slice of the layout between the end of the blocks
      before it and the end of the blocks up to it. */
  lemma LayoutSlice(blocks: seq<seq<Entry>>, i: int)
    requires 0 <= i < |blocks|
    ensures 0 <= |Layout(blocks[..i])| <= |Layout(blocks[..i + 1])| <= |Layout(blocks)|
    ensures Layout(blocks)[|Layout(blocks[..i])|..|Layout(blocks[..i + 1])|] == Encoded(Built(blocks[i]))
  {
    var before, block := Layout(blocks[..i]), Encoded(Built(blocks[i]));
    BlockSpan(blocks, i);
    assert before + block == Layout(blocks[..i + 1]) <= Layout(blocks);
    SecondPart(Layout(blocks), before, block);
  }

  /** The second part of a prefix `a + b` of `s` is a slice of `s`. */
  lemma SecondPart(s: Bytes, a: Bytes, b: Bytes)
    requires a + b <= s
    ensures |a| + |b| <= |s| && s[|a|..|a| + |b|] == b
  {
    assert s[|a|..|a| + |b|] == (a + b)[|a|..];
  }

  /** A slice inside a prefix of `s` is the same slice of `s`. */
  lemma PrefixSlice(s: Bytes, prefix: Bytes, lo: int, hi: int)
    requires prefix <= s && 0 <= lo <= hi <= |prefix|
    ensures s[lo..hi] == prefix[lo..hi]
  {
  }

  /** The footer of a laid-out table reads back as the meta list's offset, and
      the corrected meta decoder, started there on the bytes before the footer,
      recovers the metas, when the table fits `int` offsets and its blocks
      are at most 2^15 bytes. */
  lemma FooterReadBack(t: SsTable, blocks: seq<seq<Entry>>)
    requires LaidOut(t, blocks)
    requires |Layout(blocks)| < 0x8000_0000
    requires forall i :: 0 <= i < |blocks| ==> SizeOf(blocks[i]) <= 0x8000
    ensures |t.file| >= t.blockMetaOffset + 4
    ensures ReadU32(t.file, |t.file| - 4) == t.blockMetaOffset
    ensures DecodeMetas(t.file[..|t.file| - 4], t.blockMetaOffset) == Ok(t.blockMetas)
  {
    FooterOffset(t, blocks);
    FooterMetas(t, blocks);
  }

  /** The footer half of `FooterReadBack`. */
  lemma FooterOffset(t: SsTable, blocks: seq<seq<Entry>>)
    requires LaidOut(t, blocks) && |Layout(blocks)| < 0x8000_0000
    ensures |t.file| >= t.blockMetaOffset + 4
    ensures ReadU32(t.file, |t.file| - 4) == t.blockMetaOffset
  {
    ReadFooter(t.file, Layout(blocks), EncodedMetas(t.blockMetas), t.blockMetaOffset);
  }

  /** The meta-list half of `FooterReadBack`. */
  lemma FooterMetas(t: SsTable, blocks: seq<seq<Entry>>)
    requires LaidOut(t, blocks) && |Layout(blocks)| < 0x8000_0000
    requires forall i :: 0 <= i < |blocks| ==> SizeOf(blocks[i]) <= 0x8000
    ensures |t.file| >= t.blockMetaOffset + 4
    ensures DecodeMetas(t.file[..|t.file| - 4], t.blockMetaOffset) == Ok(t.blockMetas)
  {
    var body, metas := Layout(blocks), EncodedMetas(t.blockMetas);
    MetasRepresentable(t.blockMetas, blocks);
    ReadFooter(t.file, body, metas, t.blockMetaOffset);
    assert t.file[..|t.file| - 4][|body|..] == metas;
    DecodeEncodeMetas(t.file[..|t.file| - 4], |body|, t.blockMetas);
  }

  /** Bytes `f` ending in a four-byte `int` field: the field reads back, and
      what lies before it is the first two parts. */
  lemma ReadFooter(f: Bytes, a: Bytes, b: Bytes, x: int)
    requires f == a + b + U32Be(x) && -0x8000_0000 <= x < 0x8000_0000
    ensures |f| == |a| + |b| + 4
    ensures ReadU32(f, |f| - 4) == x
    ensures f[..|f| - 4] == a + b
  {
    assert f[|a| + |b|..|a| + |b| + 4] == U32Be(x);
    ReadU32Slice(f, |a| + |b|, U32Be(x));
    IntRoundTrip(x);
  }

  /** The metas of table-sized blocks can be written and read back: offsets
      fit `int` and first keys fit the two-byte length. */
  lemma MetasRepresentable(metas: seq<BlockMeta>, blocks: seq<seq<Entry>>)
    requires Describes(metas, blocks)
    requires |Layout(blocks)| < 0x8000_0000
    requires forall i :: 0 <= i < |blocks| ==> SizeOf(blocks[i]) <= 0x8000
    ensures forall i :: 0 <= i < |metas| ==> Representable(metas[i])
  {
    MetaOffsets(metas, blocks);
    forall i | 0 <= i < |metas|
      ensures Representable(metas[i])
    {
      if i > 0 {
        BuiltOffsetAt(blocks[i], 0);
      }
    }
  }

  /** `data` is the encoded finished blocks end to end, `metas` describes
      them, and each was a complete block within `blockSize`. */
  ghost predicate Assembly(blocks: seq<seq<Entry>>, data: Bytes, metas: seq<BlockMeta>, blockSize: int) {
    && (forall i :: 0 <= i < |blocks| ==> KeysNonEmpty(blocks[i]) && SizeOf(blocks[i]) <= blockSize)
    && data == Layout(blocks)
    && Describes(metas, blocks)
  }

  /** What `finishBlock` does to the assembly: one more block, its encoding
      and its meta. */
  lemma AssemblyAppend(blocks: seq<seq<Entry>>, data: Bytes, metas: seq<BlockMeta>, blockSize: int,
                       es: seq<Entry>, key: Bytes,
                       blocks': seq<seq<Entry>>, data': Bytes, metas': seq<BlockMeta>)
    requires Assembly(blocks, data, metas, blockSize)
    requires es != [] && KeysNonEmpty(es) && SizeOf(es) <= blockSize
    requires blocks == [] ==> key == []
    requires blocks != [] ==> key == es[0].key
    requires blocks' == blocks + [es] && data' == data + Encoded(Built(es))
    requires metas' == metas + [BlockMeta(|data|, key)]
    ensures Assembly(blocks', data', metas', blockSize)
  {
    assert metas' == metas + [BlockMeta(|Layout(blocks)|, key)];
    DescribesAppend(metas, blocks, es, key);
    LayoutAppend(blocks, es);
    BudgetAppend(blocks, es, blockSize);
  }

  /** One more complete block within the budget keeps every block within it. */
  lemma BudgetAppend(blocks: seq<seq<Entry>>, es: seq<Entry>, blockSize: int)
    requires forall i :: 0 <= i < |blocks| ==> KeysNonEmpty(blocks[i]) && SizeOf(blocks[i]) <= blockSize
    requires KeysNonEmpty(es) && SizeOf(es) <= blockSize
    ensures forall i :: 0 <= i < |blocks + [es]| ==>
      KeysNonEmpty((blocks + [es])[i]) && SizeOf((blocks + [es])[i]) <= blockSize
  {
    forall i | 0 <= i < |blocks + [es]|
      ensures KeysNonEmpty((blocks + [es])[i]) && SizeOf((blocks + [es])[i]) <= blockSize
    {
      if i < |blocks| {
        assert (blocks + [es])[i] == blocks[i];
      }
    }
  }

  /** The copy loop of `finishBlock`: `bytes` appended to `data` one by one. */
  method AppendBytes(data: Bytes, bytes: Bytes) returns (r: Bytes)
    ensures r == data + bytes
  {
    r := data;
    for k := 0 to |bytes|
      invariant r == data + bytes[..k]
    {
      r := r + [bytes[k]];
    }
    assert bytes[..|bytes|] == bytes;
  }

  class SsTableBuilder {
    var builder: BlockBuilder
    var firstKey: Bytes
    var data: Bytes
    var metas: seq<BlockMeta>
    const blockSize: int
    /** The entries of each finished block, in order. */
    ghost var blocks: seq<seq<Entry>>

    /** `data` is the encoded finished blocks end to end, `metas` describes
        them, and each was a complete block within the budget. */
    ghost predicate Assembled()
      reads this
    {
      Assembly(blocks, data, metas, blockSize)
    }

    /** Assembled, with a valid current block builder on the same budget;
        before the first rollover `firstKey` is empty, after it `firstKey` is
        the key of the current block's first entry. */
    ghost predicate Valid()
      reads this, builder
    {
      && Assembled()
      && builder.Valid() && builder.blockSize == blockSize
      && (blocks == [] ==> firstKey == [])
      && (blocks != [] ==> builder.entries != [] && firstKey == builder.entries[0].key)
    }

    /** Every entry accepted so far: the finished blocks, then the current one. */
    ghost function Entries(): seq<Entry>
      reads this, builder
    {
      Flatten(blocks) + builder.entries
    }

    constructor (blockSize: int)
      ensures Valid() && this.blockSize == blockSize
      ensures blocks == [] && builder.entries == [] && firstKey == [] && data == [] && metas == []
      ensures fresh(builder)
    {
      builder := new BlockBuilder(blockSize);
      firstKey := [];
      data := [];
      metas := [];
      this.blockSize := blockSize;
      blocks := [];
    }

    /** `estimateSize`: the size of the finished blocks only; the entries of
        the current block are not counted. */
    function EstimateSize(): (n: int)
      reads this
      requires Assembled()
      ensures n == BlocksSize(blocks)
    {
      LayoutSize(blocks);
      |data|
    }

    /** `finishBlock`: build and encode the current block, record a meta with
        the current size and `firstKey`, start an empty block builder, clear
        `firstKey` and append the encoded block. With no entry in the current
        block, `build` throws before anything changes. */
    method FinishBlock() returns (r: Result<()>)
      requires Valid()
      modifies this
      ensures old(builder.entries) == [] ==>
        && r == Err(IllegalArgument) && Valid()
        && builder == old(builder) && blocks == old(blocks) && firstKey == old(firstKey)
        && data == old(data) && metas == old(metas)
      ensures old(builder.entries) != [] ==>
        && r == Ok(()) && Assembled()
        && fresh(builder) && builder.Valid() && builder.blockSize == blockSize && builder.entries == []
        && firstKey == []
        && blocks == old(blocks) + [old(builder.entries)]
        && metas == old(metas) + [BlockMeta(|old(data)|, old(firstKey))]
        && data == old(data) + Encoded(Built(old(builder.entries)))
    {
      ghost var finished := builder.entries;
      var block := builder.Build();
      if block.Err? {
        return Err(block.error);
      }
      var encodedBlock := Encode(block.value);
      Append(finished, encodedBlock);
      return Ok(());
    }

    /** The state change of `finishBlock` once the block is built: record
        its meta, clear `firstKey`, append its encoding and start an empty
        block builder. */
    method Append(ghost finished: seq<Entry>, encodedBlock: Bytes)
      requires Assembled() && finished != [] && KeysNonEmpty(finished) && SizeOf(finished) <= blockSize
      requires blocks == [] ==> firstKey == []
      requires blocks != [] ==> firstKey == finished[0].key
      requires encodedBlock == Encoded(Built(finished))
      modifies this
      ensures Assembled() && fresh(builder) && builder.Valid() && builder.blockSize == blockSize
      ensures builder.entries == [] && firstKey == []
      ensures blocks == old(blocks) + [finished]
      ensures metas == old(metas) + [BlockMeta(|old(data)|, old(firstKey))]
      ensures data == old(data) + encodedBlock
    {
      ghost var blocks0, data0, metas0, key0 := blocks, data, metas, firstKey;
      metas := metas + [BlockMeta(|data|, firstKey)];
      firstKey := [];
      data := AppendBytes(data, encodedBlock);
      blocks := blocks + [finished];
      AssemblyAppend(blocks0, data0, metas0, blockSize, finished, key0, blocks, data, metas);
      builder := new BlockBuilder(blockSize);
    }

    /** `add`: an entry the current block accepts joins it; one it refuses
        finishes the block, goes first into a fresh block, and becomes
        `firstKey`. An empty key is an `IllegalArgumentException` and changes
        nothing. Either way no accepted entry is lost or reordered. The retry
        is the `assert` of the code, proved here. */
    method Add(key: Bytes, value: Bytes) returns (r: Result<()>)
      requires Valid()
      requires key != [] ==> |key| + |value| + 8 <= blockSize
      modifies this, builder
      ensures Valid()
      ensures key == [] ==>
        && r == Err(IllegalArgument)
        && builder == old(builder) && builder.entries == old(builder.entries)
        && blocks == old(blocks) && data == old(data) && metas == old(metas) && firstKey == old(firstKey)
      ensures key != [] ==> r == Ok(()) && Entries() == old(Entries()) + [Entry(key, value)]
      ensures key != [] && old(builder.EstimateSize()) + |key| + |value| + 6 <= blockSize ==>
        && builder == old(builder) && builder.entries == old(builder.entries) + [Entry(key, value)]
        && blocks == old(blocks) && data == old(data) && metas == old(metas) && firstKey == old(firstKey)
      ensures key != [] && old(builder.EstimateSize()) + |key| + |value| + 6 > blockSize ==>
        && fresh(builder) && builder.entries == [Entry(key, value)] && firstKey == key
        && blocks == old(blocks) + [old(builder.entries)]
        && metas == old(metas) + [BlockMeta(|old(data)|, old(firstKey))]
        && data == old(data) + Encoded(Built(old(builder.entries)))
    {
      ghost var before := builder.entries;
      ghost var estimate := builder.EstimateSize();
      var accepted := builder.Add(key, value);
      if accepted.Err? {
        return Err(accepted.error);
      }
      if accepted.value {
        assert builder.entries == before + [Entry(key, value)];
        assert Entries() == Flatten(blocks) + before + [Entry(key, value)];
        return Ok(());
      }
      assert estimate + |key| + |value| + 6 > blockSize;
      Rollover(key, value);
      return Ok(());
    }

    /** The refusing half of `add`: finish the current block, add the entry to
        the fresh one (which must accept it) and record its key as `firstKey`. */
    method Rollover(key: Bytes, value: Bytes)
      requires Valid() && key != [] && |key| + |value| + 8 <= blockSize
      requires builder.EstimateSize() + |key| + |value| + 6 > blockSize
      modifies this
      ensures Valid() && Entries() == old(Entries()) + [Entry(key, value)]
      ensures fresh(builder) && builder.entries == [Entry(key, value)] && firstKey == key
      ensures blocks == old(blocks) + [old(builder.entries)]
      ensures metas == old(metas) + [BlockMeta(|old(data)|, old(firstKey))]
      ensures data == old(data) + Encoded(Built(old(builder.entries)))
    {
      ghost var finished := builder.entries;
      var flushed := FinishBlock();
      assert flushed.Ok?;
      ghost var assembly := Assembly(blocks, data, metas, blockSize);
      assert assembly;
      var retried := builder.Add(key, value);
      assert retried == Ok(true);
      firstKey := key;
      assert Assembled() by {
        assert assembly;
      }
      assert blocks != [] && builder.entries == [Entry(key, value)];
      LayoutAppend(old(blocks), finished);
    }

    /** `build`: finish the current block, then append the metas and the
        offset where they start, big-endian. The table's bytes are the
        encoded blocks, the encoded metas and that offset, and every accepted
        entry is in exactly one block, in order. With no entry in the current
        block (in particular before any `add`) `build` throws. Afterwards
        `data` holds the whole file, so the builder is not used again. */
    method Build(id: int) returns (r: Result<SsTable>)
      requires Valid()
      modifies this
      ensures old(builder.entries) == [] ==>
        && r == Err(IllegalArgument) && Valid()
        && builder == old(builder) && blocks == old(blocks) && data == old(data)
        && metas == old(metas) && firstKey == old(firstKey)
      ensures old(builder.entries) != [] ==>
        && blocks == old(blocks) + [old(builder.entries)]
        && Flatten(blocks) == old(Entries())
        && r == Ok(SsTable(id, Layout(blocks) + EncodedMetas(metas) + U32Be(|Layout(blocks)|), metas, |Layout(blocks)|))
        && LaidOut(r.value, blocks)
        && data == r.value.file
    {
      ghost var finished := builder.entries;
      var flushed := FinishBlock();
      if flushed.Err? {
        return Err(flushed.error);
      }
      LayoutAppend(old(blocks), finished);
      var metaOffset := |data|;
      data := EncodeBlockMeta(metas, data);
      data := data + U32Be(metaOffset);
      var file := data;
      return Ok(SsTable(id, file, metas, metaOffset));
    }
  }

  /** With a 16-byte budget, ([1, 1], [1, 1]) fills most of the first block,
      so ([2, 2], [2, 2]) rolls over into a second one. */
  method TwoBlockScenario() {
    var builder := new SsTableBuilder(16);
    var first := builder.Add([1, 1], [1, 1]);
    ghost var one := [Entry([1, 1], [1, 1])];
    assert builder.builder.entries == one && builder.blocks == [];
    assert SizeOf(one) == 12 by { assert one[..0] == []; }
    var second := builder.Add([2, 2], [2, 2]);
    assert builder.blocks == [one] && builder.builder.entries == [Entry([2, 2], [2, 2])];
    var table := builder.Build(7);
    assert table.Ok?;
    assert |builder.blocks| == 2 && builder.blocks[0] == one && builder.blocks[1] == [Entry([2, 2], [2, 2])];
    TwoBlockTable(table.value, builder.blocks);
  }


  /** The table of that scenario: block 0 records an empty first key, block 1
      records [2, 2] at offset 12, the metas start at 24, and both blocks and
      the footer read back from the table's bytes. */
  lemma TwoBlockTable(t: SsTable, blocks: seq<seq<Entry>>)
    requires LaidOut(t, blocks)
    requires |blocks| == 2 && blocks[0] == [Entry([1, 1], [1, 1])] && blocks[1] == [Entry([2, 2], [2, 2])]
    ensures t.blockMetas == [BlockMeta(0, []), BlockMeta(12, [2, 2])] && t.blockMetaOffset == 24
    ensures Decoded(t.file[0..12]) == Ok(Built(blocks[0])) && Decoded(t.file[12..24]) == Ok(Built(blocks[1]))
    ensures ReadU32(t.file, |t.file| - 4) == 24
    ensures DecodeMetas(t.file[..|t.file| - 4], 24) == Ok(t.blockMetas)
  {
    TwoBlockSizes(blocks);
    TwelveByteMetas(t.blockMetas, blocks);
    TwelveByteLayout(blocks);
    TwelveByteFooter(t, blocks);
    TwelveByteBodies(t, blocks);
  }

  /** The two blocks of that scenario take 12 bytes each, and the second
      starts with key `[2, 2]`. */
  lemma TwoBlockSizes(blocks: seq<seq<Entry>>)
    requires |blocks| == 2 && blocks[0] == [Entry([1, 1], [1, 1])] && blocks[1] == [Entry([2, 2], [2, 2])]
    ensures |blocks| == 2 && blocks[0] != [] && blocks[1] != [] && blocks[1][0].key == [2, 2]
    ensures SizeOf(blocks[0]) == 12 && SizeOf(blocks[1]) == 12
    ensures KeysNonEmpty(blocks[0]) && KeysNonEmpty(blocks[1])
  {
    assert blocks[0][..0] == [] && blocks[1][..0] == [];
  }

  /** Metas that describe two 12-byte blocks, the second starting with key
      `[2, 2]`, are (0, empty key) and (12, `[2, 2]`). */
  lemma TwelveByteMetas(metas: seq<BlockMeta>, blocks: seq<seq<Entry>>)
    requires Describes(metas, blocks)
    requires |blocks| == 2 && blocks[1] != [] && blocks[1][0].key == [2, 2]
    requires SizeOf(blocks[0]) == 12
    ensures metas == [BlockMeta(0, []), BlockMeta(12, [2, 2])]
  {
    MetaOffsets(metas, blocks);
    assert metas[0] == BlockMeta(0, []) && metas[1] == BlockMeta(12, [2, 2]);
  }

  /** Two 12-byte blocks take 24 bytes. */
  lemma TwelveByteLayout(blocks: seq<seq<Entry>>)
    requires |blocks| == 2 && SizeOf(blocks[0]) == 12 && SizeOf(blocks[1]) == 12
    ensures |Layout(blocks)| == 24
  {
    LayoutSize(blocks);
    var first := blocks[..1];
    assert first[..0] == [] && first[0] == blocks[0];
    assert BlocksSize(first) == 12;
  }

  /** The footer of such a table reads back. */
  lemma TwelveByteFooter(t: SsTable, blocks: seq<seq<Entry>>)
    requires LaidOut(t, blocks)
    requires |blocks| == 2 && blocks[0] != [] && blocks[1] != [] && blocks[1][0].key == [2, 2]
    requires SizeOf(blocks[0]) == 12 && SizeOf(blocks[1]) == 12
    requires KeysNonEmpty(blocks[0]) && KeysNonEmpty(blocks[1])
    requires t.blockMetaOffset == 24
    ensures ReadU32(t.file, |t.file| - 4) == 24 && DecodeMetas(t.file[..|t.file| - 4], 24) == Ok(t.blockMetas)
  {
    assert |Layout(blocks)| < 0x8000_0000;
    forall i | 0 <= i < |blocks|
      ensures SizeOf(blocks[i]) <= 0x8000
    {
      assert i == 0 || i == 1;
    }
    FooterReadBack(t, blocks);
  }

  /** Both blocks of such a table read back. */
  lemma TwelveByteBodies(t: SsTable, blocks: seq<seq<Entry>>)
    requires LaidOut(t, blocks)
    requires |blocks| == 2 && blocks[0] != [] && blocks[1] != [] && blocks[1][0].key == [2, 2]
    requires SizeOf(blocks[0]) == 12 && SizeOf(blocks[1]) == 12
    requires KeysNonEmpty(blocks[0]) && KeysNonEmpty(blocks[1])
    requires t.blockMetaOffset == 24 && t.blockMetas == [BlockMeta(0, []), BlockMeta(12, [2, 2])]
    ensures Decoded(t.file[0..12]) == Ok(Built(blocks[0])) && Decoded(t.file[12..24]) == Ok(Built(blocks[1]))
  {
    BlockReadBack(t, blocks, 0);
    BlockReadBack(t, blocks, 1);
  }


}
