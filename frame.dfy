/** readFrame: with the stream just past the tag of an encapsulated pixel
    data element, read its VR and length, the basic offset table item, and
    return the data of the item that holds frame `frameIndex`. */
module FrameReader {
  import opened Bytes
  import opened ByteStream
  import opened Tags
  import opened Wire
  import opened ValueRepresentations
  import opened Values
  import opened Encapsulated

  // ---- the pure reading --------------------------------------------------------

  /** The VR and the length field after it, whose value is not used: two
      reserved bytes and 32 bits for an explicit-length VR, 16 bits otherwise. */
  function SkipHeader(c: seq<byte>, le: bool): (r: Result<seq<byte>>)
    ensures r.Ok? ==> var k := HeaderSize(c);
      k <= |c| && r.value == c[k..]
  {
    var code :- AsciiText(c, 2);
    if IsExplicit(CreateByTypeString(code.0)) then
      var reserved :- Take(code.1, 2);
      var length :- U32(reserved.1, le);
      Ok(length.1)
    else
      var length :- U16(code.1, le);
      Ok(length.1)
  }

  /** The size of the header SkipHeader skips. */
  function HeaderSize(c: seq<byte>): (k: nat)
    ensures k == 4 || k == 8
  {
    if 2 <= |c| && IsExplicit(CreateByTypeString(Ascii(c[..2]))) then 8 else 4
  }

  /** One item or delimiter read and dropped. */
  function SkipOne(c: seq<byte>, le: bool): (r: Result<seq<byte>>)
    ensures r.Ok? ==> |r.value| + 8 <= |c|
    ensures r.Ok? <==> NextItem(c, le).Ok?
    ensures r.Ok? ==> r.value == NextItem(c, le).value.1
    ensures r.Err? ==> r.error == NextItem(c, le).error
  {
    var x :- NextItem(c, le);
    Ok(x.1)
  }

  /** `i === frameIndex + 1` ends the loop over the offsets; before that one
      item is skipped for every offset that rises above its predecessor. */
  function SkipRising(c: seq<byte>, le: bool, offsets: seq<nat>, i: nat, frameIndex: int): (r: Result<seq<byte>>)
    requires 1 <= i
    ensures r.Ok? ==> |r.value| <= |c|
    decreases |offsets| - i
  {
    if i >= |offsets| || i == frameIndex + 1 then Ok(c)
    else if offsets[i] > offsets[i - 1] then
      var rest :- SkipOne(c, le);
      SkipRising(rest, le, offsets, i + 1, frameIndex)
    else SkipRising(c, le, offsets, i + 1, frameIndex)
  }

  /** Without an offset table, items are skipped until `current` reaches
      `frameIndex`; a sequence delimiter first means there is no such frame. */
  function SkipItems(c: seq<byte>, le: bool, current: nat, frameIndex: int): (r: Result<seq<byte>>)
    ensures r.Ok? ==> |r.value| <= |c|
    ensures r.Err? && r.error.FrameIndexOutOfRange? ==> r.error.index == frameIndex
    decreases frameIndex - current
  {
    if current >= frameIndex then Ok(c)
    else
      var x :- NextItem(c, le);
      if x.0.None? then Err(FrameIndexOutOfRange(frameIndex))
      else SkipItems(x.1, le, current + 1, frameIndex)
  }

  /** The frames the offset table describes: `itemLength / 4`, which the
      range check compares with as a real number. */
  predicate InRange(itemLength: nat, frameIndex: int)
  {
    0 <= frameIndex && 4 * frameIndex < itemLength
  }

  /** The header and the basic offset table's item tag and length. */
  function TableItem(c: seq<byte>, le: bool): (r: Parse<nat>)
    ensures r.Ok? ==> var k := HeaderSize(c);
      && k + 8 <= |c| && TagAt(c[k..], le) == ITEM
      && r.value == (Uint32(c[k + 4..k + 8], le), c[k + 8..])
  {
    var afterHeader :- SkipHeader(c, le);
    ghost var k := HeaderSize(c);
    assert afterHeader == c[k..];
    var t :- TagOf(afterHeader, le);
    if t.0 != ITEM then Err(ItemTagNotFound)
    else
      assert t.1 == c[k + 4..];
      assert |t.1| >= 4 ==> t.1[..4] == c[k + 4..k + 8];
      U32(t.1, le)
  }

  /** The frame chosen once the offsets have been read. */
  function FrameAfterTable(c: seq<byte>, le: bool, offsets: seq<nat>, frameIndex: int): (r: Parse<Frame>)
  {
    if |offsets| == 1 && frameIndex == 0 then NextItem(c, le)
    else if |offsets| == 1 then Err(FrameIndexOutOfRange(frameIndex))
    else if |offsets| > 1 then
      var rest :- SkipRising(c, le, offsets, 1, frameIndex);
      NextItem(rest, le)
    else
      var rest :- SkipItems(c, le, 0, frameIndex);
      NextItem(rest, le)
  }

  /** readFrame over the bytes `c` in byte order `le`: the frame (null where
      a delimiter stood) and the bytes after it. */
  function FrameOf(c: seq<byte>, le: bool, frameIndex: int): (r: Parse<Frame>)
  {
    var len :- TableItem(c, le);
    if len.0 > 0 && !InRange(len.0, frameIndex) then Err(FrameIndexOutOfRange(frameIndex))
    else
      var offsets :- Offsets(len.1, le, OffsetCount(len.0));
      FrameAfterTable(offsets.1, le, offsets.0, frameIndex)
  }

  // ---- a reference for the skipping --------------------------------------------

  /** `n` items or delimiters read one after the other. */
  function SkipN(c: seq<byte>, le: bool, n: nat): (r: Result<seq<byte>>)
    ensures r.Ok? ==> |r.value| <= |c|
    decreases n
  {
    if n == 0 then Ok(c)
    else
      var rest :- SkipOne(c, le);
      SkipN(rest, le, n - 1)
  }

  /** The number of positions k, with i <= k <= frameIndex and k inside the
      table, whose offset rises above the one before it. */
  function RisingUpTo(offsets: seq<nat>, i: nat, frameIndex: int): (n: nat)
    requires 1 <= i
    ensures n <= if i < |offsets| then |offsets| - i else 0
    decreases |offsets| - i
  {
    if i >= |offsets| || i > frameIndex then 0
    else (if offsets[i] > offsets[i - 1] then 1 else 0) + RisingUpTo(offsets, i + 1, frameIndex)
  }

  /** With several offsets, exactly one item is skipped per rising offset
      up to the frame index, whatever the items hold. */
  lemma {:induction false} SkipsOnePerRisingOffset(c: seq<byte>, le: bool, offsets: seq<nat>, i: nat, frameIndex: int)
    requires 1 <= i && i <= frameIndex + 1
    ensures SkipRising(c, le, offsets, i, frameIndex) == SkipN(c, le, RisingUpTo(offsets, i, frameIndex))
    decreases |offsets| - i
  {
    if i >= |offsets| || i == frameIndex + 1 {
      assert RisingUpTo(offsets, i, frameIndex) == 0;
    } else if offsets[i] > offsets[i - 1] {
      var x := SkipOne(c, le);
      if x.Ok? {
        SkipsOnePerRisingOffset(x.value, le, offsets, i + 1, frameIndex);
      }
      RisingStep(c, le, offsets, i, frameIndex);
    } else {
      SkipsOnePerRisingOffset(c, le, offsets, i + 1, frameIndex);
      FlatStep(c, le, offsets, i, frameIndex);
    }
  }

  /** An offset that does not rise: nothing read on either side. */
  lemma FlatStep(c: seq<byte>, le: bool, offsets: seq<nat>, i: nat, frameIndex: int)
    requires 1 <= i < |offsets| && i <= frameIndex && offsets[i] <= offsets[i - 1]
    requires SkipRising(c, le, offsets, i + 1, frameIndex)
             == SkipN(c, le, RisingUpTo(offsets, i + 1, frameIndex))
    ensures SkipRising(c, le, offsets, i, frameIndex) == SkipN(c, le, RisingUpTo(offsets, i, frameIndex))
  {
    assert RisingUpTo(offsets, i, frameIndex) == RisingUpTo(offsets, i + 1, frameIndex);
  }

  /** One rising offset: one item read on both sides. */
  lemma RisingStep(c: seq<byte>, le: bool, offsets: seq<nat>, i: nat, frameIndex: int)
    requires 1 <= i < |offsets| && i <= frameIndex && offsets[i] > offsets[i - 1]
    requires var x := SkipOne(c, le);
      x.Ok? ==> SkipRising(x.value, le, offsets, i + 1, frameIndex)
                == SkipN(x.value, le, RisingUpTo(offsets, i + 1, frameIndex))
    ensures SkipRising(c, le, offsets, i, frameIndex) == SkipN(c, le, RisingUpTo(offsets, i, frameIndex))
  {
    var n := RisingUpTo(offsets, i + 1, frameIndex);
    assert RisingUpTo(offsets, i, frameIndex) == n + 1;
  }

  /** A frame index past the table counts every rising offset of it. */
  lemma {:induction false} RisingUpToTheEnd(offsets: seq<nat>, i: nat, frameIndex: int)
    requires 1 <= i && |offsets| - 1 <= frameIndex
    ensures RisingUpTo(offsets, i, frameIndex) == Rising(offsets, i)
    decreases |offsets| - i
  {
    if i < |offsets| {
      RisingUpToTheEnd(offsets, i + 1, frameIndex);
    }
  }

  /** Without a table, a target in range skips exactly `frameIndex` items. */
  lemma {:induction false} SkipsFrameIndexItems(c: seq<byte>, le: bool, current: nat, frameIndex: int)
    requires current <= frameIndex
    requires SkipItems(c, le, current, frameIndex).Ok?
    ensures SkipItems(c, le, current, frameIndex) == SkipN(c, le, frameIndex - current)
    decreases frameIndex - current
  {
    if current < frameIndex {
      var x := NextItem(c, le).value;
      assert SkipOne(c, le) == Ok(x.1);
      SkipsFrameIndexItems(x.1, le, current + 1, frameIndex);
    }
  }

  /** Without a table, a delimiter where an item was to be skipped means
      the frame does not exist. */
  lemma DelimiterBeforeTargetIsOutOfRange(c: seq<byte>, le: bool, current: nat, frameIndex: int)
    requires current < frameIndex && NextItem(c, le).Ok? && NextItem(c, le).value.0.None?
    ensures SkipItems(c, le, current, frameIndex) == Err(FrameIndexOutOfRange(frameIndex))
  {
  }

  // ---- properties of readFrame -------------------------------------------------

  /** Every frame that is returned came from an item tag right after the header. */
  lemma FrameFollowsAnItemTag(c: seq<byte>, le: bool, frameIndex: int)
    requires FrameOf(c, le, frameIndex).Ok?
    ensures var k := HeaderSize(c); k + 8 <= |c| && TagAt(c[k..], le) == ITEM
  {
  }

  /** Any other tag after the header is rejected. */
  lemma MissingItemTagIsRejected(c: seq<byte>, le: bool, frameIndex: int)
    requires SkipHeader(c, le).Ok?
    requires var k := HeaderSize(c); k + 4 <= |c| && TagAt(c[k..], le) != ITEM
    ensures FrameOf(c, le, frameIndex) == Err(ItemTagNotFound)
  {
  }

  /** An index outside the table, which has `itemLength / 4` entries, is
      rejected before any offset is read: the bytes after the item length
      do not matter. */
  lemma OutOfRangeBeforeOffsets(c: seq<byte>, le: bool, frameIndex: int)
    requires TableItem(c, le).Ok?
    requires var n := TableItem(c, le).value.0; n > 0 && !InRange(n, frameIndex)
    ensures FrameOf(c, le, frameIndex) == Err(FrameIndexOutOfRange(frameIndex))
  {
  }

  /** A table of one entry admits only frame 0. */
  lemma OneOffsetIsFrameZero(itemLength: nat, frameIndex: int)
    requires OffsetCount(itemLength) == 1 && InRange(itemLength, frameIndex)
    ensures frameIndex == 0
  {
  }

  /** Of a table of one entry, frame 0 is the next item. */
  lemma OneOffsetFrame(c: seq<byte>, le: bool, offset: nat)
    ensures FrameAfterTable(c, le, [offset], 0) == NextItem(c, le)
  {
  }

  /** Of a table of several entries, the frame is the item after one skipped
      item per rising offset up to the index. */
  lemma TableFrameSkipsRisingItems(c: seq<byte>, le: bool, offsets: seq<nat>, frameIndex: int)
    requires |offsets| > 1 && 0 <= frameIndex
    ensures FrameAfterTable(c, le, offsets, frameIndex)
      == (var rest :- SkipN(c, le, RisingUpTo(offsets, 1, frameIndex)); NextItem(rest, le))
  {
    SkipsOnePerRisingOffset(c, le, offsets, 1, frameIndex);
  }

  /** Without a table, a frame that is found is the item after `frameIndex`
      skipped items. */
  lemma UntabledFrameSkipsFrameIndexItems(c: seq<byte>, le: bool, frameIndex: int)
    requires 0 <= frameIndex && SkipItems(c, le, 0, frameIndex).Ok?
    ensures FrameAfterTable(c, le, [], frameIndex)
      == (var rest :- SkipN(c, le, frameIndex); NextItem(rest, le))
  {
    SkipsFrameIndexItems(c, le, 0, frameIndex);
  }

  // ---- readFrame on the stream -------------------------------------------------

  /** A skip seen as a read of nothing. */
  function Skipped(x: Result<seq<byte>>): Parse<()>
  {
    if x.Ok? then Ok(((), x.value)) else Err(x.error)
  }

  /** The VR and the length field after it. */
  method SkipVrAndLength(s: BufferStream) returns (r: Result<()>)
    requires s.Valid()
    modifies s
    ensures s.Valid() && s.Follows(Skipped(SkipHeader(old(s.Contents()), old(s.isLittleEndian))), r)
  {
    var vrType := s.ReadVR();
    if vrType.Err? { return Err(vrType.error); }
    if IsExplicit(CreateByTypeString(vrType.value)) {
      var reserved := s.Increment(2);
      if reserved.Err? { return Err(reserved.error); }
      var length := s.ReadUint32();
      if length.Err? { return Err(length.error); }
    } else {
      var length := s.ReadUint16();
      if length.Err? { return Err(length.error); }
    }
    r := Ok(());
  }

  /** The VR, the length field, the table's item tag and its length. */
  method ReadTableItem(s: BufferStream) returns (r: Result<nat>)
    requires s.Valid()
    modifies s
    ensures s.Valid() && s.Follows(TableItem(old(s.Contents()), old(s.isLittleEndian)), r)
  {
    ghost var c := s.Contents();
    var header := SkipVrAndLength(s);
    if header.Err? { return Err(header.error); }
    assert s.Contents() == c[HeaderSize(c)..];
    var tag := ReadTag(s);
    if tag.Err? { return Err(tag.error); }
    if tag.value != ITEM { return Err(ItemTagNotFound); }
    var itemLength := s.ReadUint32();
    if itemLength.Err? { return Err(itemLength.error); }
    r := Ok(itemLength.value);
  }

  /** The loop over the offsets: one item read per rising offset, up to
      `frameIndex`. */
  method SkipRisingItems(s: BufferStream, offsets: seq<nat>, frameIndex: int) returns (r: Result<()>)
    requires s.Valid()
    modifies s
    ensures s.Valid()
    ensures s.Follows(Skipped(SkipRising(old(s.Contents()), old(s.isLittleEndian), offsets, 1, frameIndex)), r)
  {
    ghost var c := s.Contents();
    ghost var le := s.isLittleEndian;
    var i := 1;
    while i < |offsets|
      invariant s.Valid() && 1 <= i && (old(s.pending) == [] ==> s.pending == [])
      invariant s.isLittleEndian == le && s.decoder == old(s.decoder)
      invariant SkipRising(s.Contents(), le, offsets, i, frameIndex) == SkipRising(c, le, offsets, 1, frameIndex)
      decreases |offsets| - i
    {
      if i == frameIndex + 1 { break; }
      var frameLength := offsets[i] as int - offsets[i - 1] as int;
      if frameLength > 0 {
        var x := GetNextItem(s);
        if x.Err? { return Err(x.error); }
      }
      i := i + 1;
    }
    r := Ok(());
  }

  /** Without a table: `frameIndex` items read, a delimiter among them
      meaning the frame is not there. */
  method SkipFrames(s: BufferStream, frameIndex: int) returns (r: Result<()>)
    requires s.Valid()
    modifies s
    ensures s.Valid()
    ensures s.Follows(Skipped(SkipItems(old(s.Contents()), old(s.isLittleEndian), 0, frameIndex)), r)
  {
    ghost var c := s.Contents();
    ghost var le := s.isLittleEndian;
    var current: nat := 0;
    while current < frameIndex
      invariant s.Valid() && (old(s.pending) == [] ==> s.pending == [])
      invariant s.isLittleEndian == le && s.decoder == old(s.decoder)
      invariant SkipItems(s.Contents(), le, current, frameIndex) == SkipItems(c, le, 0, frameIndex)
      decreases frameIndex - current
    {
      var buffer := GetNextItem(s);
      if buffer.Err? { return Err(buffer.error); }
      if buffer.value.None? { return Err(FrameIndexOutOfRange(frameIndex)); }
      current := current + 1;
    }
    r := Ok(());
  }

  /** The frame chosen once the offsets have been read. */
  method ReadAfterTable(s: BufferStream, offsets: seq<nat>, frameIndex: int) returns (r: Result<Frame>)
    requires s.Valid()
    modifies s
    ensures s.Valid()
    ensures s.Follows(FrameAfterTable(old(s.Contents()), old(s.isLittleEndian), offsets, frameIndex), r)
  {
    if |offsets| > 0 {
      if |offsets| == 1 && frameIndex == 0 {
        r := GetNextItem(s);
        return;
      }
      if |offsets| == 1 && frameIndex != 0 {
        return Err(FrameIndexOutOfRange(frameIndex));
      }
      var skipped := SkipRisingItems(s, offsets, frameIndex);
      if skipped.Err? { return Err(skipped.error); }
    } else {
      var skipped := SkipFrames(s, frameIndex);
      if skipped.Err? { return Err(skipped.error); }
    }
    r := GetNextItem(s);
  }

  /** readFrame: the frame `frameIndex` of an encapsulated pixel data
      element whose tag has just been read. */
  method ReadFrame(s: BufferStream, frameIndex: int) returns (r: Result<Frame>)
    requires s.Valid()
    modifies s
    ensures s.Valid()
    ensures s.Follows(FrameOf(old(s.Contents()), old(s.isLittleEndian), frameIndex), r)
  {
    var itemLength := ReadTableItem(s);
    if itemLength.Err? { return Err(itemLength.error); }
    var offsets: seq<nat> := [];
    if itemLength.value > 0 {
      if frameIndex < 0 || 4 * frameIndex >= itemLength.value {
        return Err(FrameIndexOutOfRange(frameIndex));
      }
      var read := ReadOffsets(s, OffsetCount(itemLength.value));
      if read.Err? { return Err(read.error); }
      offsets := read.value;
    }
    r := ReadAfterTable(s, offsets, frameIndex);
  }
}
