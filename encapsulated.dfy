/** The value of OB, OD, OF, OW and UN elements: the bytes of a defined
    length, or for the undefined length 0xFFFFFFFF the encapsulated frames,
    located through the basic offset table when it has entries and by
    reading items up to the sequence delimiter when it is empty. */
module Encapsulated {
  import opened Bytes
  import opened ByteStream
  import opened Tags
  import opened Wire

  const UNDEFINED_LENGTH: nat := 0xFFFF_FFFF

  /** A frame is the data of one item, or null where a sequence delimiter stood. */
  type Frame = Option<seq<byte>>

  /** The table loop: for every offset after the first that rises above its
      predecessor, one item is read; `acc` holds the frames read so far. */
  function RisingFrames(c: seq<byte>, le: bool, offsets: seq<nat>, i: nat, acc: seq<Frame>): (r: Parse<seq<Frame>>)
    requires 1 <= i
    ensures r.Ok? ==> |r.value.0| == |acc| + Rising(offsets, i) && r.value.0[..|acc|] == acc
    ensures r.Ok? ==> |r.value.1| <= |c|
    decreases |offsets| - i
  {
    if i >= |offsets| then Ok((acc, c))
    else if offsets[i] > offsets[i - 1] then
      var x :- NextItem(c, le);
      var r := RisingFrames(x.1, le, offsets, i + 1, acc + [x.0]);
      assert r.Ok? ==> r.value.0[..|acc|] == (acc + [x.0])[..|acc|];
      r
    else RisingFrames(c, le, offsets, i + 1, acc)
  }

  /** The loop without an offset table: items are read while the stream has
      bytes, and a sequence delimiter ends it. */
  function FramesToDelimiter(c: seq<byte>, le: bool, acc: seq<Frame>): (r: Parse<seq<Frame>>)
    ensures r.Ok? ==> |acc| <= |r.value.0| && r.value.0[..|acc|] == acc
    ensures r.Ok? ==> forall i :: |acc| <= i < |r.value.0| ==> r.value.0[i].Some?
    ensures r.Ok? ==> |r.value.1| <= |c|
    decreases |c|
  {
    if c == [] then Ok((acc, c))
    else
      var x :- NextItem(c, le);
      if x.0.None? then Ok((acc, x.1))
      else
        var r := FramesToDelimiter(x.1, le, acc + [x.0]);
        assert r.Ok? ==> r.value.0[..|acc|] == (acc + [x.0])[..|acc|];
        r
  }

  /** The undefined-length branch of BinaryRepresentation.readBytes. */
  function Frames(c: seq<byte>, le: bool): (r: Parse<seq<Frame>>)
    ensures r.Ok? ==> |r.value.1| <= |c|
  {
    var t :- TagOf(c, le);
    if t.0 != ITEM then Ok(([], t.1))
    else
      var len :- U32(t.1, le);
      var offsets :- Offsets(len.1, le, OffsetCount(len.0));
      if |offsets.0| == 1 then
        var x :- NextItem(offsets.1, le);
        Ok(([x.0], x.1))
      else if |offsets.0| > 0 then
        var xs :- RisingFrames(offsets.1, le, offsets.0, 1, []);
        var x :- NextItem(xs.1, le);
        Ok((xs.0 + [x.0], x.1))
      else FramesToDelimiter(offsets.1, le, [])
  }

  /** BinaryRepresentation.readBytes. */
  function BinaryBytes(c: seq<byte>, le: bool, length: nat): (r: Parse<seq<Frame>>)
    ensures r.Ok? ==> |r.value.1| <= |c|
  {
    if length == UNDEFINED_LENGTH then Frames(c, le)
    else
      var b :- Take(c, length);
      Ok(([Some(b.0)], b.1))
  }

  /** A defined length yields exactly the next `length` bytes, as one frame. */
  lemma DefinedLengthIsOneFrame(c: seq<byte>, le: bool, length: nat)
    requires length != UNDEFINED_LENGTH
    ensures BinaryBytes(c, le, length).Ok? <==> length <= |c|
    ensures length <= |c| ==> BinaryBytes(c, le, length) == Ok(([Some(c[..length])], c[length..]))
  {
  }

  /** Without an item tag first the value has no frames. */
  lemma NoItemNoFrames(c: seq<byte>, le: bool)
    requires 4 <= |c| && TagAt(c, le) != ITEM
    ensures Frames(c, le) == Ok(([], c[4..]))
  {
  }

  /** The count of an offset table that has more than one entry decides the
      number of frames: one per rising offset, plus the last. */
  lemma {:induction false} FrameCountFollowsTable(c: seq<byte>, le: bool)
    requires 8 <= |c| && TagAt(c, le) == ITEM
    requires var k := OffsetCount(Uint32(c[4..8], le)); k > 1 && 8 + 4 * k <= |c|
    ensures var k := OffsetCount(Uint32(c[4..8], le));
      var offsets := Offsets(c[8..], le, k).value.0;
      Frames(c, le).Ok? ==> |Frames(c, le).value.0| == 1 + Rising(offsets, 1)
  {
    var k := OffsetCount(Uint32(c[4..8], le));
    assert c[4..][..4] == c[4..8];
    assert c[4..][4..] == c[8..];
    var offsets := Offsets(c[8..], le, k);
    assert offsets.Ok?;
    var xs := RisingFrames(offsets.value.1, le, offsets.value.0, 1, []);
    if Frames(c, le).Ok? {
      assert xs.Ok?;
      assert |xs.value.0| == Rising(offsets.value.0, 1);
    }
  }

  /** Without an offset table every frame is an item's data: the delimiter
      ends the loop instead of adding a null frame. */
  lemma EmptyTableFramesAreItems(c: seq<byte>, le: bool)
    requires 8 <= |c| && TagAt(c, le) == ITEM && Uint32(c[4..8], le) == 0
    ensures Frames(c, le).Ok? ==> forall i :: 0 <= i < |Frames(c, le).value.0| ==> Frames(c, le).value.0[i].Some?
  {
    assert c[4..][..4] == c[4..8];
  }

  /** Each item's data as a frame. */
  function AsFrames(ds: seq<ItemData>): (fs: seq<Frame>)
    ensures |fs| == |ds| && forall i :: 0 <= i < |ds| ==> fs[i] == Some(ds[i])
  {
    seq(|ds|, i requires 0 <= i < |ds| => Some(ds[i]))
  }

  /** One turn of the loop without a table at an item. */
  lemma FramesStep(c: seq<byte>, le: bool, acc: seq<Frame>, d: seq<byte>, tail: seq<byte>)
    requires NextItem(c, le) == Ok((Some(d), tail))
    ensures FramesToDelimiter(c, le, acc) == FramesToDelimiter(tail, le, acc + [Some(d)])
  {
  }

  lemma AsFramesCons(ds: seq<ItemData>, acc: seq<Frame>)
    requires ds != []
    ensures acc + [Some(ds[0])] + AsFrames(ds[1..]) == acc + AsFrames(ds)
  {
  }

  /** Without a table the loop reads back every item before the sequence
      delimiter, consumes the delimiter, and stops there. */
  lemma {:induction false} FramesUpToTheDelimiter(ds: seq<ItemData>, le: bool, acc: seq<Frame>, rest: seq<byte>)
    ensures FramesToDelimiter(EncodeItems(ds, le) + SequenceDelimiter(le) + rest, le, acc) == Ok((acc + AsFrames(ds), rest))
    decreases |ds|
  {
    var c := EncodeItems(ds, le) + SequenceDelimiter(le) + rest;
    if ds == [] {
      assert EncodeItems(ds, le) == [] && acc + AsFrames(ds) == acc;
      assert c == SequenceDelimiter(le) + rest;
      NextItemAtDelimiter(le, rest);
    } else {
      var tail := EncodeItems(ds[1..], le) + SequenceDelimiter(le) + rest;
      assert c == EncodeItem(ds[0], le) + tail;
      NextItemEncoded(ds[0], le, tail);
      FramesStep(c, le, acc, ds[0], tail);
      FramesUpToTheDelimiter(ds[1..], le, acc + [Some(ds[0])], rest);
      AsFramesCons(ds, acc);
    }
  }

  /** ... and, when the stream ends before any delimiter, every item up to the end. */
  lemma {:induction false} FramesUpToTheEnd(ds: seq<ItemData>, le: bool, acc: seq<Frame>)
    ensures FramesToDelimiter(EncodeItems(ds, le), le, acc) == Ok((acc + AsFrames(ds), []))
    decreases |ds|
  {
    if ds == [] {
      assert EncodeItems(ds, le) == [] && acc + AsFrames(ds) == acc;
    } else {
      var tail := EncodeItems(ds[1..], le);
      var c := EncodeItems(ds, le);
      assert c == EncodeItem(ds[0], le) + tail;
      NextItemEncoded(ds[0], le, tail);
      FramesStep(c, le, acc, ds[0], tail);
      FramesUpToTheEnd(ds[1..], le, acc + [Some(ds[0])]);
      AsFramesCons(ds, acc);
    }
  }

  /** An empty basic offset table followed by items and the sequence
      delimiter: the value's frames are exactly the items' data. */
  lemma EmptyTableRoundTrip(ds: seq<ItemData>, le: bool, rest: seq<byte>)
    ensures Frames(EncodeItem([], le) + EncodeItems(ds, le) + SequenceDelimiter(le) + rest, le)
      == Ok((AsFrames(ds), rest))
  {
    var body := EncodeItems(ds, le) + SequenceDelimiter(le) + rest;
    assert EncodeItem([], le) + EncodeItems(ds, le) + SequenceDelimiter(le) + rest == EncodeItem([], le) + body;
    EmptyTableThenFrames(le, body);
    FramesUpToTheDelimiter(ds, le, [], rest);
  }

  /** After an empty table the frames are read up to the sequence delimiter. */
  lemma EmptyTableThenFrames(le: bool, body: seq<byte>)
    ensures Frames(EncodeItem([], le) + body, le) == FramesToDelimiter(body, le, [])
  {
    assert EncodeItem([], le) + body == EncodeTag(ITEM, le) + (Encode32(0, le) + body);
    TagOfEncoded(ITEM, le, Encode32(0, le) + body);
    U32Encoded(0, le, body);
  }

  /** A table of one offset (a length of 1 to 4 bytes): the value is exactly
      one frame, the next item, whatever follows it. */
  lemma OneOffsetIsOneFrame(itemLength: nat, offset: seq<byte>, d: seq<byte>, le: bool, rest: seq<byte>)
    requires 1 <= itemLength <= 4 && |offset| == 4 && |d| < UINT32
    ensures Frames(EncodeTag(ITEM, le) + Encode32(itemLength, le) + offset + EncodeItem(d, le) + rest, le)
      == Ok(([Some(d)], rest))
  {
    var body := offset + (EncodeItem(d, le) + rest);
    var c := EncodeTag(ITEM, le) + Encode32(itemLength, le) + offset + EncodeItem(d, le) + rest;
    assert c == EncodeTag(ITEM, le) + (Encode32(itemLength, le) + body);
    TagOfEncoded(ITEM, le, Encode32(itemLength, le) + body);
    U32Encoded(itemLength, le, body);
    assert OffsetCount(itemLength) == 1;
    assert body[4..] == EncodeItem(d, le) + rest;
    NextItemEncoded(d, le, rest);
  }

  method ReadRisingFrames(s: BufferStream, offsets: seq<nat>) returns (r: Result<seq<Frame>>)
    requires s.Valid()
    modifies s
    ensures s.Valid() && s.Follows(RisingFrames(old(s.Contents()), old(s.isLittleEndian), offsets, 1, []), r)
  {
    ghost var c := s.Contents();
    ghost var le := s.isLittleEndian;
    var frames: seq<Frame> := [];
    var i := 1;
    while i < |offsets|
      invariant s.Valid() && 1 <= i && (old(s.pending) == [] ==> s.pending == [])
      invariant s.isLittleEndian == le && s.decoder == old(s.decoder)
      invariant RisingFrames(s.Contents(), le, offsets, i, frames) == RisingFrames(c, le, offsets, 1, [])
      decreases |offsets| - i
    {
      if offsets[i] > offsets[i - 1] {
        var x := GetNextItem(s);
        if x.Err? { return Err(x.error); }
        frames := frames + [x.value];
      }
      i := i + 1;
    }
    r := Ok(frames);
  }

  method ReadFramesToDelimiter(s: BufferStream) returns (r: Result<seq<Frame>>)
    requires s.Valid()
    modifies s
    ensures s.Valid() && s.Follows(FramesToDelimiter(old(s.Contents()), old(s.isLittleEndian), []), r)
  {
    ghost var c := s.Contents();
    ghost var le := s.isLittleEndian;
    var frames: seq<Frame> := [];
    while !s.End()
      invariant s.Valid() && (old(s.pending) == [] ==> s.pending == [])
      invariant s.isLittleEndian == le && s.decoder == old(s.decoder)
      invariant FramesToDelimiter(s.Contents(), le, frames) == FramesToDelimiter(c, le, [])
      decreases |s.Contents()|
    {
      var x := GetNextItem(s);
      if x.Err? { return Err(x.error); }
      if x.value.None? { return Ok(frames); }
      frames := frames + [x.value];
    }
    r := Ok(frames);
  }

  method ReadBinaryBytes(s: BufferStream, length: nat) returns (r: Result<seq<Frame>>)
    requires s.Valid()
    modifies s
    ensures s.Valid() && s.Follows(BinaryBytes(old(s.Contents()), old(s.isLittleEndian), length), r)
  {
    ghost var c := s.Contents();
    ghost var le := s.isLittleEndian;
    if length != UNDEFINED_LENGTH {
      var b := s.ReadNBytes(length);
      if b.Err? { return Err(b.error); }
      return Ok([Some(b.value)]);
    }
    var t := ReadTag(s);
    if t.Err? { return Err(t.error); }
    if t.value != ITEM { return Ok([]); }
    ghost var c1 := s.Contents();
    var itemLength := s.ReadUint32();
    if itemLength.Err? { return Err(itemLength.error); }
    var offsets := ReadOffsets(s, OffsetCount(itemLength.value));
    if offsets.Err? { return Err(offsets.error); }
    if |offsets.value| == 1 {
      var x := GetNextItem(s);
      if x.Err? { return Err(x.error); }
      r := Ok([x.value]);
    } else if |offsets.value| > 0 {
      var xs := ReadRisingFrames(s, offsets.value);
      if xs.Err? { return Err(xs.error); }
      var x := GetNextItem(s);
      if x.Err? { return Err(x.error); }
      r := Ok(xs.value + [x.value]);
    } else {
      r := ReadFramesToDelimiter(s);
    }
  }
}
