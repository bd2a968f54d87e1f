# jlsm blocks and SSTable builder in Dafny

This project models the storage core of jlsm, a small log-structured merge
tree written in Java: the block layer (`Block`, `Block.BlockBuilder`,
`Block.BlockIterator`) and the SSTable builder with its meta-index codec
(`SsTable`, `SsTable.SsTableBuilder`, `SsTable.BlockMeta`).

- `java_bytes.dfy` (`JavaBytes`): Java `byte`, `short` and `int` as bounded
  integers. It also has the narrowing casts, the `& 0xff` widening and the
  big-endian two- and four-byte fields these formats use. It holds the
  `Result` type that stands for the exceptions the code throws.
- `key_order.dfy` (`KeyOrder`): the order that `BlockIterator.compare` gets
  from `Arrays.compare` on `Byte[]`. It compares byte by byte, with bytes
  signed, and a proper prefix sorts first.
- `blocks.dfy` (`Blocks`): a block is its entry bytes and its `short` entry
  offsets. Its wire form is `data | u16be offset* | u16be count`. The file
  has `encode`/`decode` as specification functions plus loop methods, and the
  encoding of entries (`u16be |key| | key | u16be |value| | value`). It also
  says what an entry read back at an offset is.
- `block_builder.dfy` (`BlockBuilders`): the builder as a class whose
  `data` and `offsets` grow in place under the `blockSize` budget. It also
  holds the two builder scenarios of the unit tests.
- `block_iterator.dfy` (`BlockIterators`): the iterator as a class with
  `key`, `value` and `index` fields. It covers stepping, seeking, and the
  binary search `seekToKey`, which is proved to be a lower bound on sorted
  blocks.
- `block_meta.dfy` (`BlockMetas`): the meta list
  `u32be offset | u16be |firstKey| | firstKey`, repeated. The file has the
  encoder and the decoder exactly as written, which is not an inverse (see
  Findings). It also has a separately named strict inverse, which is not
  the code.
- `sstable.dfy` (`SsTables`): the SSTable and its builder as a class whose
  current block builder, `firstKey`, `data` and `metas` are updated in
  place. Its lemmas show how each finished block and the table's footer
  read back from the bytes `build` produces, in general and for a two-block
  scenario.

Java exceptions are `Err` values: `IllegalArgumentException` is
`IllegalArgument`, and an out-of-range list or array access is
`IndexOutOfBounds`. Entries that the builders accept are tracked as ghost
state (`BlockBuilder.entries` and `SsTableBuilder.blocks`). This lets each
method's contract state the bytes it produces as a function of the entries.

## Model

| member | source | states |
|---|---|---|
| JavaBytes.ToInt | src/main/java/io/geekya215/jlsm/SsTable.java:120-124 | the `int` the OR of shifted bytes wraps to lies in the 32-bit signed range |
| JavaBytes.ToByte | src/main/java/io/geekya215/jlsm/Block.java:100-101 | the `(byte)` cast: the value in [-128, 128) congruent to its argument mod 256 (its properties are ByteCastCongruent, UnsignedToByte and MaskBeforeCast) |
| JavaBytes.ToShort | src/main/java/io/geekya215/jlsm/Block.java:98 | the `(short)` cast: the value in [-2^15, 2^15) congruent to its argument mod 2^16 (its properties are ShortCastCongruent, SmallShort and OffsetWrapsAt2To15) |
| JavaBytes.Unsigned | src/main/java/io/geekya215/jlsm/Block.java:52 | `b & 0xff` of a byte is below 256 |
| JavaBytes.U16Be | src/main/java/io/geekya215/jlsm/Block.java:100-101 | writing `(byte)(n >> 8), (byte) n` gives two bytes that read back big-endian as `n` mod 2^16 |
| JavaBytes.ReadU16 | src/main/java/io/geekya215/jlsm/Block.java:51-52 | a two-byte big-endian read of masked bytes is below 2^16 |
| JavaBytes.U32Be | src/main/java/io/geekya215/jlsm/SsTable.java:72-75 | the four masked, shifted bytes are four bytes that read back as `n` narrowed to `int` |
| JavaBytes.ReadU32 | src/main/java/io/geekya215/jlsm/SsTable.java:120-124 | the four-byte read is always a Java `int` |
| JavaBytes.SignedWord | src/main/java/io/geekya215/jlsm/SsTable.java:120-124 | an unsigned 32-bit value narrowed to `int` is itself below 2^31 and wraps to negative from 2^31 on |
| JavaBytes.UnsignedToByte | src/main/java/io/geekya215/jlsm/Block.java:180 | masking a byte cast of `x` with `0xff` gives `x` mod 256 |
| JavaBytes.ByteCastCongruent | src/main/java/io/geekya215/jlsm/Block.java:100 | the `(byte)` cast differs from its argument by a multiple of 256 |
| JavaBytes.ShortCastCongruent | src/main/java/io/geekya215/jlsm/Block.java:98 | the `(short)` cast differs from its argument by a multiple of 2^16 |
| JavaBytes.IntCastCongruent | src/main/java/io/geekya215/jlsm/SsTable.java:124 | the wrap to `int` differs from the value by a multiple of 2^32 |
| JavaBytes.MaskBeforeCast | src/main/java/io/geekya215/jlsm/SsTable.java:102-105 | `& 0xff` before a `(byte)` cast does not change the cast |
| JavaBytes.UnsignedInverse | src/main/java/io/geekya215/jlsm/Block.java:59 | `b & 0xff` differs from `b` by a multiple of 256, and casting it back gives `b` |
| JavaBytes.ShortRoundTrip | src/main/java/io/geekya215/jlsm/Block.java:34-35 | a `short` written as two bytes and read back through `(short)` as at line 59 is the same `short` |
| JavaBytes.IntRoundTrip | src/main/java/io/geekya215/jlsm/SsTable.java:102-105 | an `int` written as four big-endian bytes reads back, as at lines 120-124, as the same `int` |
| KeyOrder.Compare | src/main/java/io/geekya215/jlsm/Block.java:214-218 | the comparison is zero exactly when the keys are equal |
| KeyOrder.CompareAntisymmetric | src/main/java/io/geekya215/jlsm/Block.java:214-218 | swapping the arguments negates the comparison |
| KeyOrder.Trichotomy | src/main/java/io/geekya215/jlsm/Block.java:214-218 | of two keys one is below the other or they are equal, never both below |
| KeyOrder.LessTransitive | src/main/java/io/geekya215/jlsm/Block.java:214-218 | the key order is transitive |
| KeyOrder.SignedAndPrefixOrder | src/main/java/io/geekya215/jlsm/Block.java:214-218 | bytes compare signed (`-1` before `1`) and a proper prefix comes first |
| Blocks.EncodeEntry | src/main/java/io/geekya215/jlsm/Block.java:100-110 | one entry takes its key and value lengths plus four bytes |
| Blocks.EntriesData | src/main/java/io/geekya215/jlsm/Block.java:98-110 | specification of `data` after a run of `add` calls: the entries' length-prefixed encodings in insertion order (related to the builder by BlockBuilder.AppendEntry and to reads by BuiltEntryAt) |
| Blocks.Built | src/main/java/io/geekya215/jlsm/Block.java:115-120 | specification of the block `build` returns for the accepted entries: their data and their `(short)` starts (BuiltEntries, EncodedSizeOfBuilt) |
| Blocks.SizeOf | src/main/java/io/geekya215/jlsm/Block.java:81-83 | specification of `estimateSize` after the accepted entries, entry by entry (proved equal to the estimate by SizeOfIsEstimate and to the encoded length by EncodedSizeOfBuilt) |
| Blocks.Starts | src/main/java/io/geekya215/jlsm/Block.java:98 | there is one offset per accepted entry |
| Blocks.BuiltAppend | src/main/java/io/geekya215/jlsm/Block.java:98-110 | accepting an entry appends its encoding to `data`, appends the old `(short) data.size()` to `offsets`, and raises the size by `|key| + |value| + 6` |
| Blocks.SizeOfIsEstimate | src/main/java/io/geekya215/jlsm/Block.java:81-83 | the size of the accepted entries is `2·|offsets| + |data| + 2` |
| Blocks.OffsetBytes | src/main/java/io/geekya215/jlsm/Block.java:33-36 | the offsets take two bytes each |
| Blocks.Encoded | src/main/java/io/geekya215/jlsm/Block.java:29-47 | the encoded length is `|data| + 2·|offsets| + 2` |
| Blocks.Decoded | src/main/java/io/geekya215/jlsm/Block.java:49-68 | specification of `decode`: the count from the last two bytes, the offsets before it and the data before them, or `IndexOutOfBounds` where Java's array accesses fail (its inverse property is DecodeEncode) |
| Blocks.ReadShorts | src/main/java/io/geekya215/jlsm/Block.java:58-61 | an even run of bytes yields half as many shorts |
| Blocks.Encode | src/main/java/io/geekya215/jlsm/Block.java:29-47 | the copy loops produce `data`, each offset big-endian, then the count |
| Blocks.Decode | src/main/java/io/geekya215/jlsm/Block.java:49-68 | the two loops compute `Decoded`, which fails like the Java array accesses on short or inconsistent input |
| Blocks.ReadOffsets | src/main/java/io/geekya215/jlsm/Block.java:58-61 | the offsets loop reads the shorts between the data and the count |
| Blocks.CopyData | src/main/java/io/geekya215/jlsm/Block.java:63-65 | the data loop copies the first `dataEnd` bytes |
| Blocks.ReadShortsStep | src/main/java/io/geekya215/jlsm/Block.java:58-61 | reading one more pair of bytes appends one more short |
| Blocks.ReadOffsetBytes | src/main/java/io/geekya215/jlsm/Block.java:58-61 | reading back written offsets gives the offsets |
| Blocks.DecodeEncode | src/main/java/io/geekya215/jlsm/Block.java:29-68 | `decode(encode(b))` is `b`, with the same data and offsets, for fewer than 2^16 offsets |
| Blocks.EncodedCount | src/main/java/io/geekya215/jlsm/Block.java:38-39 | the last two bytes hold the offset count mod 2^16 |
| Blocks.EncodedParts | src/main/java/io/geekya215/jlsm/Block.java:30-36 | the encoding starts with `data`, followed by the written offsets |
| Blocks.DecodedShape | src/main/java/io/geekya215/jlsm/Block.java:50-67 | with a count that fits, decoding splits at `dataEnd` into data and offsets |
| Blocks.EncodedSizeOfBuilt | src/main/java/io/geekya215/jlsm/Block.java:81-83 | the encoded length of a built block is the builder's estimate |
| Blocks.EntriesOf | src/main/java/io/geekya215/jlsm/Block.java:168-189 | a well-formed block yields one entry per offset |
| Blocks.EntryAtEncoded | src/main/java/io/geekya215/jlsm/Block.java:178-189 | reading at the start of an encoded entry yields that entry, whatever surrounds it |
| Blocks.SmallShort | src/main/java/io/geekya215/jlsm/Block.java:98 | `(short) x` is `x` below 2^15 |
| Blocks.EntryAtShape | src/main/java/io/geekya215/jlsm/Block.java:178-189 | where both lengths fit, the read returns the key and value slices |
| Blocks.EntryAt | src/main/java/io/geekya215/jlsm/Block.java:178-189 | specification of the read at one offset: key length, key, value length, value, or none where `get`/`subList` would throw (EntryAtEncoded, EntryAtShape) |
| Blocks.StartsAt | src/main/java/io/geekya215/jlsm/Block.java:98 | offset `i` is `(short)` of the data length before entry `i` |
| Blocks.PrefixData | src/main/java/io/geekya215/jlsm/Block.java:98-110 | the data and size of the first `j` entries are a prefix of, and at most, those of all |
| Blocks.BuiltEntries | src/main/java/io/geekya215/jlsm/Block.java:98-110 | a block built from non-empty keys within 2^15 bytes is well formed, and its entries read back in insertion order |
| Blocks.BuiltEntryAt | src/main/java/io/geekya215/jlsm/Block.java:178-189 | reading at `offsets[i]` of a built block yields the `i`-th added entry |
| Blocks.BuiltOffsetAt | src/main/java/io/geekya215/jlsm/Block.java:98 | below 2^15 the recorded offset is the exact data length before entry `i`, and lengths fit two bytes |
| Blocks.BuiltDataAt | src/main/java/io/geekya215/jlsm/Block.java:98-110 | entry `i`'s encoding sits in `data` right after the entries before it |
| Blocks.BuiltOffsetsIncrease | src/main/java/io/geekya215/jlsm/Block.java:98-110 | within 2^15 bytes the recorded offsets strictly increase: each entry starts after every entry added before it |
| Blocks.PrefixDataGrows | src/main/java/io/geekya215/jlsm/Block.java:98-110 | more accepted entries mean strictly more data |
| Blocks.OffsetWrapsAt2To15 | src/main/java/io/geekya215/jlsm/Block.java:98 | the `(short)` cast keeps 0x7fff but turns 0x8000 into -0x8000, so an entry starting at 2^15 gets an offset below the first entry's |
| BlockBuilders.BlockBuilder.constructor | src/main/java/io/geekya215/jlsm/Block.java:75-79 | a new builder is empty, with the given budget |
| BlockBuilders.BlockBuilder.EstimateSize | src/main/java/io/geekya215/jlsm/Block.java:81-83 | the estimate is the encoded length of the block built now, and 2 when empty |
| BlockBuilders.BlockBuilder.Add | src/main/java/io/geekya215/jlsm/Block.java:85-113 | an empty key throws and changes nothing; `false` exactly when the estimate plus `|key| + |value| + 6`, summed without 32-bit wrap-around, exceeds the budget, changing nothing; otherwise the entry is appended, the estimate rises by exactly that much and stays within the budget |
| BlockBuilders.BlockBuilder.AppendEntry | src/main/java/io/geekya215/jlsm/Block.java:98-110 | the entry's start is appended to `offsets` and its length-prefixed key and value to `data` |
| BlockBuilders.BlockBuilder.AppendAll | src/main/java/io/geekya215/jlsm/Block.java:102-104 | a `for (byte b : ...)` copy loop appends the bytes to `data` in order and changes nothing else |
| BlockBuilders.BlockBuilder.Build | src/main/java/io/geekya215/jlsm/Block.java:115-120 | no entries throws; otherwise the block holds exactly the builder's data and offsets, is the block of the accepted entries and fits the budget |
| BlockBuilders.AppendKeepsBudget | src/main/java/io/geekya215/jlsm/Block.java:94-110 | an accepted entry keeps keys non-empty and the size within the budget |
| BlockBuilders.SingleKeyScenario | src/test/java/BlockTest.java:26-30 | adding ("233", "23333") to a 16-byte builder succeeds and the estimate is 16 |
| BlockBuilders.FullBlockScenario | src/test/java/BlockTest.java:33-38 | with a 16-byte budget ("11", "11") is accepted and ("22", "22") is refused |
| BlockIterators.BlockIterator.constructor | src/main/java/io/geekya215/jlsm/Block.java:132-137 | a new iterator holds nothing, at index 0 |
| BlockIterators.BlockIterator.IsValid | src/main/java/io/geekya215/jlsm/Block.java:159-161 | valid means the entry at `index` is loaded; invalid means key and value are empty |
| BlockIterators.BlockIterator.GetKey | src/main/java/io/geekya215/jlsm/Block.java:139-141 | returns the loaded key (empty when invalid, by IsValid) |
| BlockIterators.BlockIterator.GetValue | src/main/java/io/geekya215/jlsm/Block.java:143-145 | returns the loaded value (empty when invalid, by IsValid) |
| BlockIterators.BlockIterator.CreateAndSeekFirst | src/main/java/io/geekya215/jlsm/Block.java:147-151 | the iterator is at entry 0, or invalid for an empty block |
| BlockIterators.BlockIterator.CreateAndSeekToKey | src/main/java/io/geekya215/jlsm/Block.java:153-157 | on a sorted block the iterator is at the lower bound of the key, or invalid when every key is below it |
| BlockIterators.BlockIterator.Next | src/main/java/io/geekya215/jlsm/Block.java:163-166 | the index advances by one; it loads that entry, or invalidates past the end |
| BlockIterators.BlockIterator.SeekTo | src/main/java/io/geekya215/jlsm/Block.java:168-176 | it loads entry `i` and sets `index`; from `|offsets|` on it clears key and value and keeps `index` |
| BlockIterators.BlockIterator.SeekToOffset | src/main/java/io/geekya215/jlsm/Block.java:178-189 | it loads the key and value encoded at the offset |
| BlockIterators.BlockIterator.SeekToFirst | src/main/java/io/geekya215/jlsm/Block.java:191-193 | at entry 0, or invalid for an empty block |
| BlockIterators.BlockIterator.SeekToKey | src/main/java/io/geekya215/jlsm/Block.java:195-212 | on a sorted block it lands on a key not below the target with every earlier key below it, or is invalid when every key is below the target, with `index` left at the last probe, the last entry (unchanged on an empty block) |
| BlockIterators.BelowThrough | src/main/java/io/geekya215/jlsm/Block.java:203-204 | a key below the target at `mid` puts every key up to `mid` below it |
| BlockIterators.AboveFrom | src/main/java/io/geekya215/jlsm/Block.java:205-206 | a key above the target at `mid` puts every key from `mid` on above it |
| BlockIterators.LowerBoundPosition | src/test/java/BlockTest.java:84-98 | the lower bound of a key in the block is that key's entry, and of a key below all keys (such as "k") is entry 0 |
| BlockIterators.ScanAll | src/test/java/BlockTest.java:71-82 | `seekToFirst` then `next` until invalid visits exactly the block's entries in insertion order |
| BlockMetas.MetaBytes | src/main/java/io/geekya215/jlsm/SsTable.java:101-111 | one meta takes 4 + 2 + `|firstKey|` bytes |
| BlockMetas.EncodedMetas | src/main/java/io/geekya215/jlsm/SsTable.java:101-112 | specification of the bytes the second loop writes: each meta's bytes, in list order (EncodeBlockMeta, EncodedMetasConcat) |
| BlockMetas.MetasSize | src/main/java/io/geekya215/jlsm/SsTable.java:93-98 | specification of the first loop's size estimate (EncodedMetasSize proves it the written length) |
| BlockMetas.EncodedMetasSize | src/main/java/io/geekya215/jlsm/SsTable.java:93-98 | the first loop's estimate is the exact length of the written metas |
| BlockMetas.EncodedMetasConcat | src/main/java/io/geekya215/jlsm/SsTable.java:101-112 | writing two lists in turn writes their concatenation |
| BlockMetas.EncodeBlockMeta | src/main/java/io/geekya215/jlsm/SsTable.java:92-115 | `buf` is kept as a prefix, the metas follow in list order, and exactly the estimate is added (the `assert` at line 114) |
| BlockMetas.PrependNothing | src/main/java/io/geekya215/jlsm/SsTable.java:118 | starting the result list empty adds nothing |
| BlockMetas.PrependAllTwice | src/main/java/io/geekya215/jlsm/SsTable.java:133 | adding metas one at a time is adding them together |
| BlockMetas.AsWrittenUnfold | src/main/java/io/geekya215/jlsm/SsTable.java:119-134 | one turn reads the offset at `i`, the key length at `i + 8`, the key from `i + 10`, and continues at `i + 11` |
| BlockMetas.DecodeMetasAsWritten | src/main/java/io/geekya215/jlsm/SsTable.java:119-134 | specification of the decoder as written, from a cursor: offset at `i`, key length at `i + 8`, key from `i + 10`, next at `i + 11`, `IndexOutOfBounds` past the end (AsWrittenRejectsShortMeta, AsWrittenLosesKey) |
| BlockMetas.DecodeBlockMetaAsWritten | src/main/java/io/geekya215/jlsm/SsTable.java:117-136 | the cursor loop computes the as-written decoding from cursor 0 |
| BlockMetas.AsWrittenRejectsShortMeta | src/main/java/io/geekya215/jlsm/SsTable.java:125-128 | the six bytes of one meta with an empty key are read past, an `IndexOutOfBoundsException` |
| BlockMetas.AsWrittenLosesKey | src/main/java/io/geekya215/jlsm/SsTable.java:125-132 | a meta with key `[1, 1, 0, 0, 1]` decodes as a meta with an empty key |
| BlockMetas.AsWrittenFirstOffset | src/main/java/io/geekya215/jlsm/SsTable.java:120-124 | when the as-written decoder returns a first meta, its offset is the first encoded meta's offset |
| BlockMetas.DecodeMetasUnfold | src/main/java/io/geekya215/jlsm/SsTable.java:119-134 | one turn of the strict inverse reads offset, key length at `i + 4` and key, then moves past the key |
| BlockMetas.DecodeMetas | src/main/java/io/geekya215/jlsm/SsTable.java:119-134 | specification of the corrected decoder: key length right after the offset and the cursor past the key (DecodeEncodeMetas proves it the inverse of EncodedMetas) |
| BlockMetas.DecodeBlockMetaStrict | src/main/java/io/geekya215/jlsm/SsTable.java:117-136 | the strict inverse's cursor loop computes its decoding from cursor 0 |
| BlockMetas.MetaFields | src/main/java/io/geekya215/jlsm/SsTable.java:101-111 | a written meta's offset, key length and key read back from bytes 0, 4 and 6 on |
| BlockMetas.DecodeMetasCons | src/main/java/io/geekya215/jlsm/SsTable.java:119-134 | decoding at a written meta yields it, then the decoding of what follows |
| BlockMetas.EncodedMetasSplit | src/main/java/io/geekya215/jlsm/SsTable.java:101-112 | a written list starts with its first meta's bytes, followed by the rest's |
| BlockMetas.DecodeEncodeMetas | src/main/java/io/geekya215/jlsm/SsTable.java:92-136 | the strict inverse recovers every list of metas whose offsets fit `int` and keys fit two bytes |
| SsTables.LayoutAppend | src/main/java/io/geekya215/jlsm/SsTable.java:63-65 | one more finished block appends its encoding and its entries |
| SsTables.Layout | src/main/java/io/geekya215/jlsm/SsTable.java:63-65 | specification of `data` after the finished blocks: their encodings in order (LayoutAppend, LayoutSize, BlockSpan) |
| SsTables.RecordedKey | src/main/java/io/geekya215/jlsm/SsTable.java:43-61 | the `firstKey` recorded for block `i`: empty for the first block, whose key `add` never stores, and the first entry's key for every later block |
| SsTables.Describes | src/main/java/io/geekya215/jlsm/SsTable.java:53-66 | the metas describe the blocks: one per block, block `i` at the length of the blocks before it, with its recorded key (DescribesAppend, MetaOffsets) |
| SsTables.LaidOut | src/main/java/io/geekya215/jlsm/SsTable.java:68-79 | a table is laid out from blocks when its metas describe them, the meta offset is the blocks' length, and the file is blocks, metas and footer (BlockReadBack, FooterReadBack) |
| SsTables.LayoutSize | src/main/java/io/geekya215/jlsm/SsTable.java:49-51 | the data length is the sum of the finished blocks' sizes |
| SsTables.LayoutPrefix | src/main/java/io/geekya215/jlsm/SsTable.java:63-65 | the bytes of the first `i` blocks are a prefix of all |
| SsTables.DescribesAppend | src/main/java/io/geekya215/jlsm/SsTable.java:53-66 | the meta `finishBlock` records (current size, `firstKey`) describes the new block |
| SsTables.MetaOffsets | src/main/java/io/geekya215/jlsm/SsTable.java:55-58 | meta 0 is at offset 0; each next offset is the previous one plus that block's encoded length, strictly larger; every block ends within the data |
| SsTables.BlockSpan | src/main/java/io/geekya215/jlsm/SsTable.java:63-65 | block `i`'s encoding follows the blocks before it |
| SsTables.BlockReadBack | src/main/java/io/geekya215/jlsm/SsTable.java:68-79 | the bytes from meta `i`'s offset to the next decode to block `i`, whose entries read back in order |
| SsTables.BlockSlice | src/main/java/io/geekya215/jlsm/SsTable.java:68-79 | the bytes between meta `i`'s offset and the next are block `i`'s encoding |
| SsTables.BlockBounds | src/main/java/io/geekya215/jlsm/SsTable.java:55-58 | block `i` starts after the blocks before it and ends after the blocks up to it |
| SsTables.LayoutSlice | src/main/java/io/geekya215/jlsm/SsTable.java:63-65 | block `i` is the slice between those two ends |
| SsTables.FooterReadBack | src/main/java/io/geekya215/jlsm/SsTable.java:68-79 | the last four bytes read back as the meta offset, and the strict inverse started there recovers the metas |
| SsTables.FooterOffset | src/main/java/io/geekya215/jlsm/SsTable.java:70-75 | the footer reads back as the offset at which the metas start |
| SsTables.FooterMetas | src/main/java/io/geekya215/jlsm/SsTable.java:70-71 | the bytes from the meta offset to the footer decode to the metas |
| SsTables.ReadFooter | src/main/java/io/geekya215/jlsm/SsTable.java:72-75 | a trailing four-byte `int` reads back, with the rest before it |
| SsTables.MetasRepresentable | src/main/java/io/geekya215/jlsm/SsTable.java:55-58 | recorded offsets fit `int` and recorded keys fit two bytes |
| SsTables.AssemblyAppend | src/main/java/io/geekya215/jlsm/SsTable.java:53-66 | finishing a block keeps the data the encoded blocks and the metas their description |
| SsTables.BudgetAppend | src/main/java/io/geekya215/jlsm/SsTable.java:54 | every finished block was a complete block within the budget |
| SsTables.AppendBytes | src/main/java/io/geekya215/jlsm/SsTable.java:63-65 | the copy loop appends the encoded block to `data` |
| SsTables.SsTableBuilder.constructor | src/main/java/io/geekya215/jlsm/SsTable.java:30-36 | a new builder has no blocks, no data, no metas and an empty `firstKey` |
| SsTables.SsTableBuilder.EstimateSize | src/main/java/io/geekya215/jlsm/SsTable.java:49-51 | the estimate counts the finished blocks only |
| SsTables.SsTableBuilder.FinishBlock | src/main/java/io/geekya215/jlsm/SsTable.java:53-66 | an empty current block throws with nothing changed; otherwise the meta (old size, old `firstKey`) is recorded, the encoded block is appended, and the builder and `firstKey` are reset |
| SsTables.SsTableBuilder.Append | src/main/java/io/geekya215/jlsm/SsTable.java:55-65 | the meta is recorded, `firstKey` cleared, the encoded block appended and a fresh block builder started |
| SsTables.SsTableBuilder.Add | src/main/java/io/geekya215/jlsm/SsTable.java:38-47 | an empty key throws with nothing changed; an accepted entry joins the current block with `firstKey` untouched; a refused one finishes the block, goes first into a fresh one and becomes `firstKey`; no entry is lost |
| SsTables.SsTableBuilder.Rollover | src/main/java/io/geekya215/jlsm/SsTable.java:43-46 | after `finishBlock` the fresh builder accepts the entry (the `assert` at line 45) and `firstKey` is its key |
| SsTables.SsTableBuilder.Build | src/main/java/io/geekya215/jlsm/SsTable.java:68-80 | with no entries in the current block it throws and changes no field; otherwise the file is the blocks, the encoded metas and the big-endian meta offset, and every accepted entry is in one block, in order |
| SsTables.TwoBlockTable | src/main/java/io/geekya215/jlsm/SsTable.java:38-79 | two entries that overflow a 16-byte budget make two blocks: the metas are (0, empty key) and (12, `[2, 2]`), the meta list starts at 24, and both blocks and the footer read back from the file |
| SsTables.TwoBlockSizes | src/main/java/io/geekya215/jlsm/SsTable.java:38-47 | each one-entry block of the scenario takes 12 bytes, and the second block starts with key `[2, 2]` |
| SsTables.TwelveByteMetas | src/main/java/io/geekya215/jlsm/SsTable.java:53-66 | metas describing two 12-byte blocks whose second starts with `[2, 2]` are (0, empty key) and (12, `[2, 2]`) |
| SsTables.TwelveByteLayout | src/main/java/io/geekya215/jlsm/SsTable.java:49-51 | two 12-byte blocks take 24 bytes of data |
| SsTables.TwelveByteFooter | src/main/java/io/geekya215/jlsm/SsTable.java:68-79 | in a table laid out from two 12-byte blocks the footer reads back as 24 and the metas decode from there |
| SsTables.TwelveByteBodies | src/main/java/io/geekya215/jlsm/SsTable.java:68-79 | in such a table bytes 0–12 and 12–24 decode to the two blocks |
| SsTables.TwoBlockScenario | src/main/java/io/geekya215/jlsm/SsTable.java:38-79 | adding ([1, 1], [1, 1]) and ([2, 2], [2, 2]) with a 16-byte budget and building gives a table of two one-entry blocks, laid out as TwoBlockTable states |

## Left out

- `FileObject` and `Pair` are not part of this model. The table's `file` is the byte list that `build` hands to `FileObject.create`.
- There is no read path for a table, because the code has none; the lemmas show only that blocks and footer can be read back.
- The boxed `List<Byte>` representation and `subList` aliasing are not modelled. Every key, value and buffer is a value-type byte sequence, and `decodeBlockMeta`'s keys are copies, not views of `buf`.
- `BlockMetas.EncodeBlockMeta` returns the extended buffer rather than extending the caller's list in place. The caller assigns it back.
- `SsTableBuilder.add` passes `List<Byte>` where `BlockBuilder.add` takes `byte[]`. This does not compile as written; the model uses one byte-sequence type for both.
- Java `assert` is modelled as enabled. `seekToKey`'s `assert` (Block.java:201) and `encodeBlockMeta`'s `assert` are proved. The retry in `SsTableBuilder.add` is the entry being added; with assertions disabled, the JVM default, Java would drop it.
- BlockBuilders.BlockBuilder.Add: the budget test (Block.java:94) is computed on unbounded integers. Java computes `estimateSize() + keyLen + valLen + 3 * SIZEOF_U16` as a 32-bit `int`, which wraps to a negative number once the sum reaches 2^31; Java then accepts an entry over the budget (for instance a key and a value of 2^30 bytes each), where the model refuses it.
- SsTables.SsTableBuilder.Add: inherits the unwrapped budget test of `BlockBuilder.add`, so it does not model a rollover skipped because that sum wrapped.
- SsTables.SsTableBuilder.Add: requires that a non-empty entry fits an empty block (`|key| + |value| + 8 <= blockSize`). The model does not cover an entry too large for any block, which would throw in `build` or fail the retry `assert`.
- SsTables.SsTableBuilder.Build: does not re-establish the builder's invariant after success, since `data` then holds the whole file. Using the builder after `build` is not modelled.
- SsTables.SsTableBuilder.FinishBlock: creates the fresh block builder after appending the encoded block, not before. No caller can observe the order.
- BlockIterators.BlockIterator.SeekToKey and the other iterator methods require `Blocks.WellFormed`, which demands two things of every offset, visited or not. First, it must point at a complete entry; Java throws `IndexOutOfBoundsException` from `subList` or `get` only when such a broken entry is actually visited. Second, the entry's key must be non-empty; Java does not throw for an empty key but loads it, `isValid` is then false, and only `seekToKey`'s `assert isValid()` (Block.java:201) fails, with assertions enabled. Blocks the builder produces within 2^15 bytes meet both (`Blocks.BuiltEntries`).
- The `short` offsets are read back correctly only below 2^15 (`Blocks.OffsetWrapsAt2To15`); above that the lemmas about built blocks do not apply.
- Blocks.BuiltEntries: requires at most 2^15 encoded bytes. This bound is sufficient, not necessary: an offset survives the `short` cast as long as its entry starts below 2^15 (`Blocks.OffsetWrapsAt2To15`).
- SsTables.BlockReadBack: requires the block to be at most 2^15 bytes, as above.
- SsTables.FooterReadBack: requires fewer than 2^31 bytes of blocks. It does not model 32-bit `int` overflow of table offsets.
- From BlockTest, the two builder tests are modelled as scenarios. The decode round trip, iteration and seek tests are modelled as statements over all blocks (`Blocks.DecodeEncode`, `BlockIterators.ScanAll`, `BlockIterators.LowerBoundPosition`) rather than over the 100 generated keys. The JUnit harness itself is left out.
- The `id` of a table is only stored, as in the code.

## Findings

| source | as written | input that shows it | evidently intended | confidence | as-written member | corrected member |
|---|---|---|---|---|---|---|
| src/main/java/io/geekya215/jlsm/SsTable.java:117-136 | after the four offset bytes the cursor skips 4 more bytes before the key length; after the key it moves only 1 byte past the key start | `[BlockMeta(0, [])]` encodes to six zero bytes, which the decoder reads past (`IndexOutOfBoundsException`); `[BlockMeta(0, [1, 1, 0, 0, 1])]` decodes to `[BlockMeta(0, [])]` | read the key length right after the offset, and move the cursor past the key, so decoding inverts `encodeBlockMeta` | not executed | BlockMetas.DecodeBlockMetaAsWritten, BlockMetas.AsWrittenRejectsShortMeta, BlockMetas.AsWrittenLosesKey | BlockMetas.DecodeBlockMetaStrict, BlockMetas.DecodeEncodeMetas |
