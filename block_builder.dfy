/** `Block.BlockBuilder`: packs length-prefixed entries into a byte list under
    a size budget and records where each entry starts. */
module BlockBuilders {
  import opened JavaBytes
  import opened Blocks

  class BlockBuilder {
    var data: Bytes
    var offsets: seq<Short>
    const blockSize: int
    /** The entries accepted so far, in the order they were added. */
    ghost var entries: seq<Entry>

    /** `data` and `offsets` are exactly the encoding of the accepted entries,
        every accepted key is non-empty, and a builder holding entries is within
        its budget. */
    ghost predicate Valid()
      reads this
    {
      && data == EntriesData(entries)
      && offsets == Starts(entries)
      && KeysNonEmpty(entries)
      && (entries != [] ==> SizeOf(entries) <= blockSize)
    }

    constructor (blockSize: int)
      ensures Valid() && this.blockSize == blockSize
      ensures entries == [] && data == [] && offsets == []
    {
      data := [];
      offsets := [];
      this.blockSize := blockSize;
      entries := [];
    }

    /** `estimateSize`: the size the block would have if encoded now. */
    function EstimateSize(): (n: int)
      reads this
      requires Valid()
      ensures n == SizeOf(entries)
      ensures n == |Encoded(Block(data, offsets))|
      ensures entries == [] ==> n == 2
    {
      SizeOfIsEstimate(entries);
      |offsets| * SIZEOF_U16 + |data| + SIZEOF_U16
    }

    /** `add`: an empty key is an `IllegalArgumentException`; an entry that
        would push the estimate past `blockSize` is refused with `false` and
        changes nothing; otherwise its start is appended to `offsets` and its
        encoding to `data`. */
    method Add(key: Bytes, value: Bytes) returns (r: Result<bool>)
      requires Valid()
      modifies this
      ensures Valid()
      ensures key == [] ==> r == Err(IllegalArgument)
      ensures key != [] ==> r == Ok(old(EstimateSize()) + |key| + |value| + 3 * SIZEOF_U16 <= blockSize)
      ensures r == Ok(true) ==>
        && entries == old(entries) + [Entry(key, value)]
        && data == old(data) + EncodeEntry(Entry(key, value))
        && offsets == old(offsets) + [ToShort(|old(data)|)]
        && EstimateSize() == old(EstimateSize()) + |key| + |value| + 6
        && EstimateSize() <= blockSize
      ensures r != Ok(true) ==> entries == old(entries) && data == old(data) && offsets == old(offsets)
    {
      var keyLen := |key|;
      var valLen := |value|;
      if keyLen == 0 {
        return Err(IllegalArgument);
      }
      if EstimateSize() + keyLen + valLen + 3 * SIZEOF_U16 > blockSize {
        return Ok(false);
      }
      AppendEntry(key, value);
      return Ok(true);
    }

    /** The accepting half of `add`: record the entry's start, then append its
        two length prefixes, key and value. */
    method AppendEntry(key: Bytes, value: Bytes)
      requires Valid() && key != []
      requires EstimateSize() + |key| + |value| + 3 * SIZEOF_U16 <= blockSize
      modifies this
      ensures Valid()
      ensures entries == old(entries) + [Entry(key, value)]
      ensures data == old(data) + EncodeEntry(Entry(key, value))
      ensures offsets == old(offsets) + [ToShort(|old(data)|)]
    {
      var keyLen := |key|;
      var valLen := |value|;
      ghost var before := data;
      offsets := offsets + [ToShort(|data|)];
      data := data + [ToByte(keyLen / 0x100), ToByte(keyLen)];
      AppendAll(key);
      data := data + [ToByte(valLen / 0x100), ToByte(valLen)];
      AppendAll(value);
      assert data == before + U16Be(keyLen) + key + U16Be(valLen) + value;
      ghost var e := Entry(key, value);
      assert data == before + EncodeEntry(e);
      BuiltAppend(entries, e);
      AppendKeepsBudget(entries, e, blockSize);
      entries := entries + [e];
    }

    /** One `for (byte b : ...) data.add(b)` loop: `bytes` are appended to
        `data` in order, and nothing else changes. */
    method AppendAll(bytes: Bytes)
      modifies this
      ensures data == old(data) + bytes
      ensures offsets == old(offsets) && entries == old(entries)
    {
      for j := 0 to |bytes|
        invariant data == old(data) + bytes[..j]
        invariant offsets == old(offsets) && entries == old(entries)
      {
        data := data + [bytes[j]];
      }
      assert bytes[..|bytes|] == bytes;
    }

    /** `build`: a builder that never accepted an entry throws; otherwise the
        block holds exactly the builder's `data` and `offsets`, and its encoding
        fits the budget. */
    method Build() returns (r: Result<Block>)
      requires Valid()
      ensures offsets == [] ==> r == Err(IllegalArgument)
      ensures offsets != [] ==> r == Ok(Block(data, offsets)) && r.value == Built(entries)
      ensures r.Ok? ==> |Encoded(r.value)| <= blockSize
    {
      if |offsets| == 0 {
        return Err(IllegalArgument);
      }
      EncodedSizeOfBuilt(entries);
      return Ok(Block(data, offsets));
    }
  }

  /** Accepting a non-empty key within the budget keeps the builder's key and
      budget clauses. */
  lemma AppendKeepsBudget(es: seq<Entry>, e: Entry, blockSize: int)
    requires KeysNonEmpty(es) && e.key != []
    requires SizeOf(es) + |e.key| + |e.value| + 6 <= blockSize
    ensures KeysNonEmpty(es + [e]) && SizeOf(es + [e]) <= blockSize
  {
    BuiltAppend(es, e);
  }

  /** The bytes of an ASCII string. */
  function Ascii(s: string): Bytes
    requires forall i :: 0 <= i < |s| ==> s[i] as int < 0x80
  {
    seq(|s|, i requires 0 <= i < |s| => s[i] as int)
  }

  /** With a 16-byte budget, ("233", "23333") fills the block exactly. */
  method SingleKeyScenario() {
    var builder := new BlockBuilder(16);
    var added := builder.Add(Ascii("233"), Ascii("23333"));
    assert added == Ok(true);
    assert builder.EstimateSize() == 16;
    var block := builder.Build();
    assert block.Ok?;
  }

  /** With a 16-byte budget, ("11", "11") is accepted and ("22", "22") is then
      refused; the block built afterwards holds the first entry only. */
  method FullBlockScenario() {
    var builder := new BlockBuilder(16);
    var first := builder.Add(Ascii("11"), Ascii("11"));
    assert first == Ok(true);
    var second := builder.Add(Ascii("22"), Ascii("22"));
    assert second == Ok(false);
    var block := builder.Build();
    assert block.Ok? && |block.value.offsets| == 1;
  }
}
