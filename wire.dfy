/** Pure readers over the bytes a stream still holds. Each returns the value
    it parsed together with the bytes after it; the stream methods that do the
    same reads are proved to follow them. */
module Wire {
  import opened Bytes
  import opened ByteStream
  import opened Tags

  type Parse<T> = Result<(T, seq<byte>)>

  /** The next `n` bytes (readNBytes). */
  function Take(c: seq<byte>, n: nat): (r: Parse<seq<byte>>)
    ensures r.Ok? <==> n <= |c|
    ensures r.Ok? ==> |r.value.0| == n && r.value.0 + r.value.1 == c
    ensures r.Err? ==> r.error == EndOfStream(n)
  {
    if n <= |c| then Ok((c[..n], c[n..])) else Err(EndOfStream(n))
  }

  function U16(c: seq<byte>, le: bool): (r: Parse<nat>)
    ensures r.Ok? <==> 2 <= |c|
    ensures r.Ok? ==> r.value.0 == Uint16(c[..2], le) && r.value.1 == c[2..]
    ensures r.Err? ==> r.error == EndOfStream(2)
  {
    if 2 <= |c| then Ok((Uint16(c[..2], le), c[2..])) else Err(EndOfStream(2))
  }

  function U32(c: seq<byte>, le: bool): (r: Parse<nat>)
    ensures r.Ok? <==> 4 <= |c|
    ensures r.Ok? ==> r.value.0 == Uint32(c[..4], le) && r.value.1 == c[4..]
    ensures r.Err? ==> r.error == EndOfStream(4)
  {
    if 4 <= |c| then Ok((Uint32(c[..4], le), c[4..])) else Err(EndOfStream(4))
  }

  /** TagAsync.readTag: two 16-bit reads, so a short stream fails on a 2-byte read. */
  function TagOf(c: seq<byte>, le: bool): (r: Parse<Tag>)
    ensures r.Ok? <==> 4 <= |c|
    ensures r.Ok? ==> r.value.0 == TagAt(c, le) && r.value.1 == c[4..]
    ensures r.Err? ==> r.error == EndOfStream(2)
  {
    if 4 <= |c| then Ok((TagAt(c, le), c[4..])) else Err(EndOfStream(2))
  }

  /** getNextSequenceItemData: an item yields its length-prefixed bytes, a
      sequence delimiter with a zero length yields nothing, and any other tag
      is an error. */
  function NextItem(c: seq<byte>, le: bool): (r: Parse<Option<seq<byte>>>)
    ensures r.Ok? ==> 8 <= |c| && |r.value.1| + 8 <= |c|
  {
    var t :- TagOf(c, le);
    if t.0 == ITEM then
      var n :- U32(t.1, le);
      assert t.1[..4] == c[4..8];
      var d :- Take(n.1, n.0);
      Ok((Some(d.0), d.1))
    else if t.0 == SEQUENCE_DELIMITER then
      var n :- U32(t.1, le);
      assert t.1[..4] == c[4..8];
      if n.0 != 0 then Err(DelimiterLengthNotZero) else Ok((None, n.1))
    else
      Err(InvalidTagInSequence)
  }

  /** An item yields the bytes its length announces, and a delimiter of
      length 0 yields nothing; either way the 8 header bytes and the data
      are consumed. */
  lemma NextItemAccepts(c: seq<byte>, le: bool)
    requires NextItem(c, le).Ok?
    ensures var r := NextItem(c, le).value;
      && (r.0.Some? ==> TagAt(c, le) == ITEM && Uint32(c[4..8], le) == |r.0.value|
                        && c[8..] == r.0.value + r.1)
      && (r.0.None? ==> TagAt(c, le) == SEQUENCE_DELIMITER && Uint32(c[4..8], le) == 0
                        && r.1 == c[8..])
  {
    assert c[4..][..4] == c[4..8];
  }

  /** A tag that is neither an item nor a sequence delimiter, and a
      delimiter with a length other than zero, are rejected. */
  lemma NextItemRejects(c: seq<byte>, le: bool)
    requires 4 <= |c|
    ensures TagAt(c, le) != ITEM && TagAt(c, le) != SEQUENCE_DELIMITER ==>
      NextItem(c, le) == Err(InvalidTagInSequence)
    ensures 8 <= |c| && TagAt(c, le) == SEQUENCE_DELIMITER && Uint32(c[4..8], le) != 0 ==>
      NextItem(c, le) == Err(DelimiterLengthNotZero)
  {
    if 8 <= |c| {
      assert c[4..][..4] == c[4..8];
    }
  }

  /** `count` offsets of the basic offset table, one 32-bit word each. */
  function Offsets(c: seq<byte>, le: bool, count: nat): (r: Parse<seq<nat>>)
    ensures r.Ok? <==> 4 * count <= |c|
    ensures r.Ok? ==> |r.value.0| == count && r.value.1 == c[4 * count..]
    ensures r.Ok? ==> forall i :: 0 <= i < count ==> r.value.0[i] == Uint32(c[4 * i..4 * i + 4], le)
    ensures r.Err? ==> r.error == EndOfStream(4)
    decreases count
  {
    if count == 0 then Ok(([], c))
    else
      var x :- U32(c, le);
      var rest :- Offsets(x.1, le, count - 1);
      forall i | 1 <= i < count
        ensures c[4 * i..4 * i + 4] == x.1[4 * (i - 1)..4 * (i - 1) + 4]
      {
        assert x.1 == c[4..];
        assert 4 * (i - 1) + 4 == 4 * i;
        assert c[4..][4 * (i - 1)..4 * (i - 1) + 4] == c[4 * i..4 * i + 4];
      }
      Ok(([x.0] + rest.0, rest.1))
  }

  /** `numOfFrames = itemLength / 4` is a float, and the loop `i < numOfFrames`
      runs once for each integer below it: ceil(itemLength / 4) times. */
  function OffsetCount(itemLength: nat): (k: nat)
    ensures 4 * (k - 1) < itemLength <= 4 * k || (itemLength == 0 && k == 0)
  {
    (itemLength + 3) / 4
  }

  /** The number of offsets after the first that rise above their predecessor. */
  function Rising(offsets: seq<nat>, i: nat): (n: nat)
    requires 1 <= i
    ensures n <= if i < |offsets| then |offsets| - i else 0
    decreases |offsets| - i
  {
    if i >= |offsets| then 0
    else (if offsets[i] > offsets[i - 1] then 1 else 0) + Rising(offsets, i + 1)
  }

  // ---- reference encoders ------------------------------------------------------

  /** The four bytes a tag is written as: its group word, then its element word. */
  function EncodeTag(t: Tag, le: bool): (b: seq<byte>)
    ensures |b| == 4
  {
    TagDecomposes(t);
    Encode16(Group(t), le) + Encode16(Element(t), le)
  }

  /** An item as it stands in an encapsulated value or a sequence: the item
      tag, the 32-bit length, then the data. */
  function EncodeItem(d: seq<byte>, le: bool): (b: seq<byte>)
    requires |d| < UINT32
    ensures |b| == 8 + |d|
  {
    EncodeTag(ITEM, le) + Encode32(|d|, le) + d
  }

  /** The data of an item that can be written: the length field holds its
      length, and that length is not the undefined length 0xFFFFFFFF. */
  type ItemData = d: seq<byte> | |d| < UINT32 - 1

  /** The items one after another. */
  function EncodeItems(ds: seq<ItemData>, le: bool): (b: seq<byte>)
  {
    if ds == [] then [] else EncodeItem(ds[0], le) + EncodeItems(ds[1..], le)
  }

  lemma EncodeItemsCons(ds: seq<ItemData>, le: bool, after: seq<byte>)
    requires ds != []
    ensures EncodeItems(ds, le) + after == EncodeItem(ds[0], le) + (EncodeItems(ds[1..], le) + after)
  {
  }

  /** The sequence delimitation item: its tag and a zero length. */
  function SequenceDelimiter(le: bool): (b: seq<byte>)
    ensures |b| == 8
  {
    EncodeTag(SEQUENCE_DELIMITER, le) + Encode32(0, le)
  }

  /** An encoded tag reads back as the tag. */
  lemma TagOfEncoded(t: Tag, le: bool, rest: seq<byte>)
    ensures TagOf(EncodeTag(t, le) + rest, le) == Ok((t, rest))
  {
    TagDecomposes(t);
    var c := EncodeTag(t, le) + rest;
    assert c[..2] == Encode16(Group(t), le) && c[2..4] == Encode16(Element(t), le);
    Uint16RoundTrip(Group(t), le);
    Uint16RoundTrip(Element(t), le);
    assert c[4..] == rest;
  }

  /** An encoded 16-bit word reads back as the word. */
  lemma U16Encoded(v: nat, le: bool, rest: seq<byte>)
    requires v < UINT16
    ensures U16(Encode16(v, le) + rest, le) == Ok((v, rest))
  {
    var c := Encode16(v, le) + rest;
    assert c[..2] == Encode16(v, le) && c[2..] == rest;
    Uint16RoundTrip(v, le);
  }

  /** An encoded 32-bit word reads back as the word. */
  lemma U32Encoded(v: nat, le: bool, rest: seq<byte>)
    requires v < UINT32
    ensures U32(Encode32(v, le) + rest, le) == Ok((v, rest))
  {
    var c := Encode32(v, le) + rest;
    assert c[..4] == Encode32(v, le) && c[4..] == rest;
    Uint32RoundTrip(v, le);
  }

  /** getNextSequenceItemData reads an encoded item back as its data. */
  lemma NextItemEncoded(d: seq<byte>, le: bool, rest: seq<byte>)
    requires |d| < UINT32
    ensures NextItem(EncodeItem(d, le) + rest, le) == Ok((Some(d), rest))
  {
    var c := EncodeItem(d, le) + rest;
    assert c == EncodeTag(ITEM, le) + (Encode32(|d|, le) + (d + rest));
    TagOfEncoded(ITEM, le, Encode32(|d|, le) + (d + rest));
    U32Encoded(|d|, le, d + rest);
    assert (d + rest)[..|d|] == d && (d + rest)[|d|..] == rest;
  }

  /** ... and the sequence delimiter as null. */
  lemma NextItemAtDelimiter(le: bool, rest: seq<byte>)
    ensures NextItem(SequenceDelimiter(le) + rest, le) == Ok((None, rest))
  {
    var c := SequenceDelimiter(le) + rest;
    assert c == EncodeTag(SEQUENCE_DELIMITER, le) + (Encode32(0, le) + rest);
    TagOfEncoded(SEQUENCE_DELIMITER, le, Encode32(0, le) + rest);
    U32Encoded(0, le, rest);
  }

  method GetNextItem(s: BufferStream) returns (r: Result<Option<seq<byte>>>)
    requires s.Valid()
    modifies s
    ensures s.Valid() && s.Follows(NextItem(old(s.Contents()), old(s.isLittleEndian)), r)
    ensures r.Err? ==> |s.Contents()| <= |old(s.Contents())|
  {
    ghost var c := s.Contents();
    ghost var le := s.isLittleEndian;
    var t := ReadTag(s);
    if t.Err? { return Err(t.error); }
    assert s.Contents() == c[4..];
    if t.value == ITEM {
      var n := s.ReadUint32();
      if n.Err? { return Err(n.error); }
      assert c[4..][..4] == c[4..8];
      var d := s.ReadNBytes(n.value);
      if d.Err? { return Err(d.error); }
      r := Ok(Some(d.value));
    } else if t.value == SEQUENCE_DELIMITER {
      var n := s.ReadUint32();
      if n.Err? { return Err(n.error); }
      assert c[4..][..4] == c[4..8];
      if n.value != 0 { return Err(DelimiterLengthNotZero); }
      r := Ok(None);
    } else {
      r := Err(InvalidTagInSequence);
    }
  }

  method ReadOffsets(s: BufferStream, count: nat) returns (r: Result<seq<nat>>)
    requires s.Valid()
    modifies s
    ensures s.Valid() && s.Follows(Offsets(old(s.Contents()), old(s.isLittleEndian), count), r)
    ensures r.Err? ==> |s.Contents()| <= |old(s.Contents())|
  {
    ghost var c := s.Contents();
    var offsets: seq<nat> := [];
    var i := 0;
    while i < count
      invariant s.Valid() && 0 <= i <= count && 4 * i <= |c| && (old(s.pending) == [] ==> s.pending == [])
      invariant s.isLittleEndian == old(s.isLittleEndian) && s.decoder == old(s.decoder)
      invariant s.Contents() == c[4 * i..]
      invariant |offsets| == i
      invariant forall j :: 0 <= j < i ==> offsets[j] == Uint32(c[4 * j..4 * j + 4], s.isLittleEndian)
    {
      var o := s.ReadUint32();
      if o.Err? {
        return Err(o.error);
      }
      assert c[4 * i..][..4] == c[4 * i..4 * i + 4];
      assert c[4 * i..][4..] == c[4 * (i + 1)..];
      offsets := offsets + [o.value];
      i := i + 1;
    }
    r := Ok(offsets);
    ghost var spec := Offsets(c, s.isLittleEndian, count);
    assert spec.value.0 == offsets;
  }
}
