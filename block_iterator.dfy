/** `Block.BlockIterator`: a cursor over one block that loads the key and value
    of the entry at an index, steps forward, and seeks by binary search to the
    first entry whose key is not below a target. */
module BlockIterators {
  import opened JavaBytes
  import opened KeyOrder
  import opened Blocks

  /** The keys of a well-formed block strictly increase in offset order. */
  ghost predicate Sorted(b: Block)
    requires WellFormed(b)
  {
    forall i, j :: 0 <= i < j < |b.offsets| ==> Less(EntryOf(b, i).key, EntryOf(b, j).key)
  }

  class BlockIterator {
    const block: Block
    var key: Bytes
    var value: Bytes
    var index: int

    /** The block can be walked, `index` is never negative, and the iterator
        either holds nothing or holds exactly the entry at `index`. */
    ghost predicate Consistent()
      reads this
    {
      && WellFormed(block)
      && 0 <= index
      && ((key == [] && value == []) ||
          (index < |block.offsets| && Entry(key, value) == EntryOf(block, index)))
    }

    /** The private constructor: nothing loaded, index 0. */
    constructor (block: Block)
      requires WellFormed(block)
      ensures Consistent() && this.block == block
      ensures key == [] && value == [] && index == 0
    {
      this.block := block;
      key := [];
      value := [];
      index := 0;
    }

    function GetKey(): Bytes
      reads this
    {
      key
    }

    function GetValue(): Bytes
      reads this
    {
      value
    }

    /** `isValid`: an entry is loaded exactly when the key is non-empty, and
        then it is the entry at `index`; otherwise key and value are empty. */
    function IsValid(): (v: bool)
      reads this
      requires Consistent()
      ensures v ==> 0 <= index < |block.offsets| && Entry(key, value) == EntryOf(block, index)
      ensures !v ==> key == [] && value == []
    {
      key != []
    }

    /** `createAndSeekFirst`. */
    static method CreateAndSeekFirst(block: Block) returns (iter: BlockIterator)
      requires WellFormed(block)
      ensures fresh(iter) && iter.Consistent() && iter.block == block
      ensures |block.offsets| > 0 ==> iter.IsValid() && iter.index == 0
      ensures |block.offsets| == 0 ==> !iter.IsValid()
    {
      iter := new BlockIterator(block);
      iter.SeekToFirst();
    }

    /** `createAndSeekToKey`: see `SeekToKey`. */
    static method CreateAndSeekToKey(block: Block, target: Bytes) returns (iter: BlockIterator)
      requires WellFormed(block)
      ensures fresh(iter) && iter.Consistent() && iter.block == block
      ensures Sorted(block) && iter.IsValid() ==> iter.IsLowerBound(target)
      ensures Sorted(block) && !iter.IsValid() ==> AllBelow(block, target)
    {
      iter := new BlockIterator(block);
      iter.SeekToKey(target);
    }

    /** `next`: advance the index by one and load that entry, or clear the
        iterator when the index passes the last entry. */
    method Next()
      requires Consistent()
      modifies this
      ensures Consistent() && index == old(index) + 1
      ensures index < |block.offsets| ==> IsValid()
      ensures index >= |block.offsets| ==> !IsValid()
    {
      index := index + 1;
      SeekTo(index);
    }

    /** `seekTo`: load entry `i`; past the end, clear key and value and leave
        `index` as it was. `next` calls it after moving `index` on, so the
        entry loaded on entry need not be the one at `index`. */
    method SeekTo(i: int)
      requires WellFormed(block) && 0 <= index && 0 <= i
      modifies this
      ensures Consistent()
      ensures i < |block.offsets| ==> index == i && IsValid()
      ensures i >= |block.offsets| ==> key == [] && value == [] && index == old(index)
    {
      if i >= |block.offsets| {
        key := [];
        value := [];
        return;
      }
      SeekToOffset(block.offsets[i]);
      index := i;
    }

    /** `seekToOffset`: read the key length, the key, the value length and the
        value found at `offset`. */
    method SeekToOffset(offset: int)
      requires EntryAt(block.data, offset).Some?
      modifies this
      ensures Entry(key, value) == EntryAt(block.data, offset).value
      ensures index == old(index)
    {
      var entry := block.data[offset..];
      var keyLen := Unsigned(entry[0]) * 0x100 + Unsigned(entry[1]);
      assert keyLen == ReadU16(block.data, offset);
      key := entry[2..2 + keyLen];
      assert key == block.data[offset + 2..offset + 2 + keyLen];
      var entry2 := entry[2 + keyLen..];
      var valueLen := Unsigned(entry2[0]) * 0x100 + Unsigned(entry2[1]);
      assert valueLen == ReadU16(block.data, offset + 2 + keyLen);
      value := entry2[2..2 + valueLen];
      assert value == block.data[offset + 4 + keyLen..offset + 4 + keyLen + valueLen];
    }

    /** `seekToFirst`. */
    method SeekToFirst()
      requires Consistent()
      modifies this
      ensures Consistent()
      ensures |block.offsets| > 0 ==> index == 0 && IsValid()
      ensures |block.offsets| == 0 ==> !IsValid()
    {
      SeekTo(0);
    }

    /** The loaded key is not below `target`, and every earlier key is. */
    ghost predicate IsLowerBound(target: Bytes)
      reads this
      requires Consistent()
    {
      && key != []
      && !Less(key, target)
      && forall j :: 0 <= j < index ==> Less(EntryOf(block, j).key, target)
    }

    /** `seekToKey`: a binary search over the entries. In a block with sorted
        keys it lands on the first entry whose key is not below `target` (on an
        exact match, that entry), and clears the iterator when every key is
        below `target`. */
    method SeekToKey(target: Bytes)
      requires Consistent()
      modifies this
      ensures Consistent()
      ensures Sorted(block) && IsValid() ==> IsLowerBound(target)
      ensures Sorted(block) && !IsValid() ==> AllBelow(block, target)
      ensures !IsValid() && |block.offsets| == 0 ==> index == old(index)
      ensures !IsValid() && |block.offsets| > 0 ==> index == |block.offsets| - 1
    {
      var low := 0;
      var high := |block.offsets|;
      while low < high
        invariant Consistent()
        invariant 0 <= low <= high <= |block.offsets|
        invariant |block.offsets| == 0 ==> index == old(index)
        invariant low == |block.offsets| && low > 0 ==> index == low - 1
        invariant Sorted(block) ==> forall j :: 0 <= j < low ==> Less(EntryOf(block, j).key, target)
        invariant Sorted(block) ==> forall j :: high <= j < |block.offsets| ==> Less(target, EntryOf(block, j).key)
      {
        var mid := low + (high - low) / 2;
        SeekTo(mid);
        assert IsValid();
        var cmp := Compare(key, target);
        if cmp < 0 {
          if Sorted(block) {
            BelowThrough(block, mid, target);
          }
          low := mid + 1;
        } else if cmp > 0 {
          CompareAntisymmetric(key, target);
          if Sorted(block) {
            AboveFrom(block, mid, target);
          }
          high := mid;
        } else {
          return;
        }
      }
      SeekTo(low);
      if IsValid() && Sorted(block) {
        Trichotomy(key, target);
      }
    }
  }

  /** In a sorted block, a key below `target` has only keys below `target`
      before it. */
  lemma BelowThrough(b: Block, mid: int, target: Bytes)
    requires WellFormed(b) && Sorted(b) && 0 <= mid < |b.offsets|
    requires Less(EntryOf(b, mid).key, target)
    ensures forall j :: 0 <= j <= mid ==> Less(EntryOf(b, j).key, target)
  {
    forall j | 0 <= j < mid
      ensures Less(EntryOf(b, j).key, target)
    {
      LessTransitive(EntryOf(b, j).key, EntryOf(b, mid).key, target);
    }
  }

  /** In a sorted block, a key above `target` has only keys above `target`
      after it. */
  lemma AboveFrom(b: Block, mid: int, target: Bytes)
    requires WellFormed(b) && Sorted(b) && 0 <= mid < |b.offsets|
    requires Less(target, EntryOf(b, mid).key)
    ensures forall j :: mid <= j < |b.offsets| ==> Less(target, EntryOf(b, j).key)
  {
    forall j | mid < j < |b.offsets|
      ensures Less(target, EntryOf(b, j).key)
    {
      LessTransitive(target, EntryOf(b, mid).key, EntryOf(b, j).key);
    }
  }

  /** Every key of the block is below `target`. */
  ghost predicate AllBelow(b: Block, target: Bytes)
    requires WellFormed(b)
  {
    forall j :: 0 <= j < |b.offsets| ==> Less(EntryOf(b, j).key, target)
  }

  /** In a sorted block the lower bound is unique: an iterator at the lower
      bound of a key the block holds is at that key's entry, and one at the
      lower bound of a key below every key is at the first entry. */
  lemma LowerBoundPosition(iter: BlockIterator, target: Bytes)
    requires iter.Consistent() && Sorted(iter.block) && iter.IsLowerBound(target)
    ensures forall j :: 0 <= j < |iter.block.offsets| && EntryOf(iter.block, j).key == target ==> iter.index == j
    ensures |iter.block.offsets| > 0 && Less(target, EntryOf(iter.block, 0).key) ==> iter.index == 0
  {
    var b := iter.block;
    assert !Less(target, target);
    if |b.offsets| > 0 && Less(target, EntryOf(b, 0).key) && iter.index > 0 {
      Trichotomy(target, EntryOf(b, 0).key);
    }
  }

  /** Walking a block from `seekToFirst` with `next` until the iterator is no
      longer valid visits exactly the block's entries, in order. */
  method ScanAll(block: Block) returns (seen: seq<Entry>)
    requires WellFormed(block)
    ensures seen == EntriesOf(block)
  {
    var iter := BlockIterator.CreateAndSeekFirst(block);
    seen := [];
    while iter.IsValid()
      invariant fresh(iter) && iter.Consistent() && iter.block == block
      invariant iter.IsValid() ==> iter.index == |seen|
      invariant !iter.IsValid() ==> |seen| == |block.offsets|
      invariant |seen| <= |block.offsets| && seen == EntriesOf(block)[..|seen|]
      decreases |block.offsets| - |seen|
    {
      seen := seen + [Entry(iter.GetKey(), iter.GetValue())];
      iter.Next();
    }
    assert EntriesOf(block)[..|block.offsets|] == EntriesOf(block);
  }
}
