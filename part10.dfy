/** readFile: a DICOM Part 10 file is a 128-byte preamble, the four letters
    DICM, the group length element (0002,0000) in explicit little endian,
    that many bytes of file meta information, and then the data set in the
    transfer syntax the meta information names. */
module Part10 {
  import opened Bytes
  import opened ByteStream
  import opened Tags
  import opened Wire
  import opened ValueRepresentations
  import opened Values
  import opened Elements
  import opened Dataset

  const PREAMBLE_LENGTH: nat := 128
  const MAGIC: string := "DICM"
  const META_LENGTH_TAG: string := "00020000"
  const TRANSFER_SYNTAX_TAG: string := "00020010"
  const DEFLATED_EXPLICIT_LITTLE_ENDIAN: string := "1.2.840.10008.1.2.1.99"

  /** The options readFile hands to _readTag for the group length element:
      no stop tag and nothing forced. */
  const META_LENGTH_OPTIONS: ReadOptions := ReadOptions(false, None, false, false)

  /** What readFile calls in dcmjs: DicomMessage._read over the meta bytes,
      which may throw, and DicomMessage._normalizeSyntax. */
  datatype Host = Host(
    readMeta: seq<byte> -> Result<map<string, Entry>>,
    normalizeSyntax: string -> string)

  /** The DicomDict readFile returns: the meta header and the data set. */
  datatype DicomFile = DicomFile(meta: map<string, Entry>, dict: map<string, Entry>)

  /** `el.values[0]`, the length of the meta information. */
  function MetaLength(e: DataElement): (r: Result<nat>)
    ensures r.Ok? <==> e.Parsed? && e.values.List? && |e.values.items| > 0
                       && e.values.items[0].Num? && e.values.items[0].n >= 0
    ensures r.Ok? ==> r.value == e.values.items[0].n
    ensures r.Err? ==> r.error == MalformedMetaLength
  {
    if e.Parsed? && e.values.List? && |e.values.items| > 0
       && e.values.items[0].Num? && e.values.items[0].n >= 0
    then Ok(e.values.items[0].n)
    else Err(MalformedMetaLength)
  }

  /** `metaHeader["00020010"].Value[0]`: a missing element is a TypeError. */
  function TransferSyntax(meta: map<string, Entry>): (r: Result<string>)
    ensures TRANSFER_SYNTAX_TAG !in meta ==> r == Err(TypeError)
    ensures r.Ok? ==>
      (&& TRANSFER_SYNTAX_TAG in meta
       && meta[TRANSFER_SYNTAX_TAG].value.List?
       && |meta[TRANSFER_SYNTAX_TAG].value.items| > 0
       && meta[TRANSFER_SYNTAX_TAG].value.items[0] == Str(r.value))
  {
    if TRANSFER_SYNTAX_TAG !in meta then Err(TypeError)
    else
      var v := meta[TRANSFER_SYNTAX_TAG].value;
      if v.List? && |v.items| > 0 && v.items[0].Str? then Ok(v.items[0].s)
      else Err(TypeError)
  }

  /** The meta information after the DICM marker: the group length element,
      then the meta header parsed from that many bytes. */
  function MetaOf(c: seq<byte>, env: Env, host: Host): (r: Parse<map<string, Entry>>)
    ensures r.Ok? ==> |r.value.1| <= |c|
  {
    var n :- MetaLengthOf(c, env);
    var meta :- Take(n.1, n.0);
    var header :- host.readMeta(meta.0);
    Ok((header, meta.1))
  }

  /** The group length element, which must be the first after the marker. */
  function MetaLengthOf(c: seq<byte>, env: Env): (r: Parse<nat>)
    ensures r.Ok? ==> 4 <= |c| && CleanString(TagAt(c, true)) == META_LENGTH_TAG && |r.value.1| <= |c|
  {
    var el :- ElementOf(c, EXPLICIT_LITTLE_ENDIAN, "latin1", META_LENGTH_OPTIONS, env);
    if CleanString(el.0.tag) != META_LENGTH_TAG then Err(MalformedMetaLength)
    else
      var n :- MetaLength(el.0);
      Ok((n, el.1))
  }

  /** readFile over the bytes of the file `c`. */
  function FileOf(c: seq<byte>, opts: ReadOptions, env: Env, host: Host): (r: Result<DicomFile>)
  {
    var preamble :- Take(c, PREAMBLE_LENGTH);
    var magic :- AsciiText(preamble.1, 4);
    if magic.0 != MAGIC then Err(MissingMagic)
    else
      var m :- MetaOf(magic.1, env, host);
      var syntax :- TransferSyntax(m.0);
      if syntax == DEFLATED_EXPLICIT_LITTLE_ENDIAN then Err(DeflatedUnsupported)
      else
        var d :- DatasetOf(m.1, host.normalizeSyntax(syntax), Walk(map[], "latin1"), opts, env);
        Ok(DicomFile(m.0, d.0.dict))
  }

  // ---- properties --------------------------------------------------------------

  /** A file shorter than its preamble fails on the first read. */
  lemma ShortFileFails(c: seq<byte>, opts: ReadOptions, env: Env, host: Host)
    requires |c| < PREAMBLE_LENGTH
    ensures FileOf(c, opts, env, host) == Err(EndOfStream(PREAMBLE_LENGTH))
  {
  }

  /** A file is accepted only when bytes 128 to 131 read as DICM and the
      next tag is the meta group length. */
  lemma AcceptedFilesAreMarked(c: seq<byte>, opts: ReadOptions, env: Env, host: Host)
    requires FileOf(c, opts, env, host).Ok?
    ensures 136 <= |c|
    ensures Ascii(c[128..132]) == MAGIC
    ensures CleanString(TagAt(c[132..], true)) == META_LENGTH_TAG
  {
    assert c[128..][..4] == c[128..132];
    assert c[128..][4..] == c[132..];
  }

  /** Bytes 128 to 131 that do not read as DICM are rejected. */
  lemma MissingMagicIsRejected(c: seq<byte>, opts: ReadOptions, env: Env, host: Host)
    requires 132 <= |c| && Ascii(c[128..132]) != MAGIC
    ensures FileOf(c, opts, env, host) == Err(MissingMagic)
  {
    assert c[128..][..4] == c[128..132];
  }

  /** The 'ascii' decoding clears the high bit, so the letters DICM with the
      high bit set pass the check as well. */
  lemma HighBitMagicPasses()
    ensures Ascii([0xC4, 0xC9, 0xC3, 0xCD]) == MAGIC
    ensures Ascii([0x44, 0x49, 0x43, 0x4D]) == MAGIC
  {
  }

  /** A file whose meta information names the deflated syntax is rejected
      before its data set is read. */
  lemma DeflatedIsRejected(c: seq<byte>, opts: ReadOptions, env: Env, host: Host)
    requires 132 <= |c| && Ascii(c[128..132]) == MAGIC
    requires var m := MetaOf(c[132..], env, host);
      m.Ok? && TransferSyntax(m.value.0) == Ok(DEFLATED_EXPLICIT_LITTLE_ENDIAN)
    ensures FileOf(c, opts, env, host) == Err(DeflatedUnsupported)
  {
    assert c[128..][..4] == c[128..132];
    assert c[128..][4..] == c[132..];
  }

  /** The meta header is parsed from exactly the `metaLength` bytes after
      the group length element, and what follows them is left. */
  lemma ReadsExactlyTheMetaLength(c: seq<byte>, env: Env, host: Host)
    requires MetaOf(c, env, host).Ok?
    ensures var el := ElementOf(c, EXPLICIT_LITTLE_ENDIAN, "latin1", META_LENGTH_OPTIONS, env);
      && el.Ok? && CleanString(el.value.0.tag) == META_LENGTH_TAG
      && MetaLength(el.value.0).Ok?
      && var n := MetaLength(el.value.0).value;
      && n <= |el.value.1|
      && MetaLengthOf(c, env) == Ok((n, el.value.1))
      && MetaOf(c, env, host) == Ok((host.readMeta(el.value.1[..n]).value, el.value.1[n..]))
  {
  }

  /** The data set of an accepted file is read from the bytes after the
      meta information, in the normalised transfer syntax it names. */
  lemma DatasetFollowsTheMeta(c: seq<byte>, opts: ReadOptions, env: Env, host: Host)
    requires FileOf(c, opts, env, host).Ok?
    ensures var m := MetaOf(c[132..], env, host);
      && m.Ok? && m.value.0 == FileOf(c, opts, env, host).value.meta
      && TransferSyntax(m.value.0).Ok?
      && TransferSyntax(m.value.0).value != DEFLATED_EXPLICIT_LITTLE_ENDIAN
      && var d := DatasetOf(m.value.1, host.normalizeSyntax(TransferSyntax(m.value.0).value),
                            Walk(map[], "latin1"), opts, env);
      && d.Ok? && d.value.0.dict == FileOf(c, opts, env, host).value.dict
  {
    assert c[128..][4..] == c[132..];
  }

  /** A 32-bit unsigned integer written least significant byte first. */
  function Le32(n: nat): (b: seq<byte>)
    requires n < UINT32
    ensures |b| == 4 && Uint32(b, true) == n
  {
    var q0 := n / 256;
    var q1 := q0 / 256;
    assert n == n % 256 + 256 * q0;
    assert q0 == q0 % 256 + 256 * q1;
    assert q1 == q1 % 256 + 256 * (q1 / 256);
    assert q1 < 0x1_0000;
    [n % 256, q0 % 256, q1 % 256, q1 / 256]
  }

  /** The group length element as a writer emits it: tag (0002,0000), VR
      UL, the 16-bit length 4 and the 32-bit value `n`. */
  function MetaLengthBytes(n: nat): (b: seq<byte>)
    requires n < UINT32
    ensures |b| == 12
  {
    [0x02, 0x00, 0x00, 0x00, 0x55, 0x4C, 0x04, 0x00] + Le32(n)
  }

  /** The tag (0002,0000) as a dictionary key. */
  lemma MetaLengthTagIsClean()
    ensures CleanString(0x0002_0000) == META_LENGTH_TAG
  {
    assert Group(0x0002_0000) == 2 && Element(0x0002_0000) == 0;
    HexOfSmall(2);
    HexOfSmall(0);
  }

  /** Four hex digits of a value below 16: three zeros and the digit. */
  lemma HexOfSmall(v: nat)
    requires v < 16
    ensures Hex(v, 4) == "000" + [HEX_DIGITS[v]]
  {
    assert v / 16 == 0;
    assert Hex(0, 1) == "0";
    assert Hex(0, 2) == "00";
    assert Hex(0, 3) == "000";
  }

  /** The two letters UL name the representation UL, which has a short length. */
  lemma UlCode()
    ensures CreateByTypeString(Ascii([0x55, 0x4C])) == UL && !IsExplicit(UL)
  {
    assert Ascii([0x55, 0x4C]) == TypeString(UL);
    CreateByTypeStringRoundTrip(UL);
  }

  /** The header VR UL with the 16-bit length 4. */
  lemma {:induction false} UlHeader(v: seq<byte>, tag: Tag, env: Env)
    ensures HeaderOf([0x55, 0x4C, 0x04, 0x00] + v, true, false, tag, env) == Ok((Header(UL, Some(4)), v))
  {
    var h := [0x55, 0x4C, 0x04, 0x00] + v;
    assert h[..2] == [0x55, 0x4C] && h[2..4] == [0x04, 0x00] && h[4..] == v;
    UlCode();
    assert Ascii(h[..2]) != "UN" by {
      assert Ascii(h[..2])[1] == 'L';
    }
    ShortExplicitHeader(h, true, tag, env);
  }

  /** A UL value of length 4 is one number, wrapped in an array. */
  lemma {:induction false} UlValue(n: nat, rest: seq<byte>, decoder: string, env: Env)
    requires n < UINT32
    ensures var r := ValueOf(Le32(n) + rest, true, Header(UL, Some(4)), decoder, false, env);
      r.Ok? && r.value.0.0 == List([Num(n)]) && r.value.1 == rest
  {
    var v := Le32(n) + rest;
    assert v[..4] == Le32(n) && v[4..] == rest;
    assert !SplitsIntoBlocks(UL, Some(4));
    var o := ReadSpec(v, UL, Some(4), true, decoder, false, env);
    assert BytesOf(v, UL, Some(4), true, decoder, env) == Ok((Num(n), rest));
    assert o == Ok((Kept(UL, Num(n), false), rest));
    assert Kept(UL, Num(n), false).value == Num(n);
  }

  /** The group length element a writer emits is read as one UL number. */
  lemma {:induction false} MetaLengthElement(n: nat, rest: seq<byte>, env: Env)
    requires n < UINT32
    ensures var e := ElementOf(MetaLengthBytes(n) + rest, EXPLICIT_LITTLE_ENDIAN, "latin1", META_LENGTH_OPTIONS, env);
      && e.Ok? && e.value.0.Parsed? && e.value.0.tag == 0x0002_0000
      && e.value.0.values == List([Num(n)]) && e.value.1 == rest
  {
    var v := Le32(n) + rest;
    var h := [0x55, 0x4C, 0x04, 0x00] + v;
    var c := [0x02, 0x00, 0x00, 0x00] + h;
    assert c == MetaLengthBytes(n) + rest;
    assert c[..2] == [0x02, 0x00] && c[2..4] == [0x00, 0x00] && c[4..] == h;
    var tag := TagAt(c, true);
    assert tag == 0x0002_0000;
    assert TagOf(c, true) == Ok((tag, h));
    assert !StopsBefore(META_LENGTH_OPTIONS, tag);
    UlHeader(v, tag, env);
    UlValue(n, rest, "latin1", env);
  }

  /** The group length element a writer emits is read back as its value,
      leaving exactly the bytes after it. */
  lemma MetaLengthRoundTrip(n: nat, rest: seq<byte>, env: Env)
    requires n < UINT32
    ensures MetaLengthOf(MetaLengthBytes(n) + rest, env) == Ok((n, rest))
  {
    MetaLengthElement(n, rest, env);
    MetaLengthTagIsClean();
  }

  // ---- the reader ----------------------------------------------------------------

  /** The group length element, read from the stream. */
  method ReadMetaLength(s: BufferStream, env: Env) returns (r: Result<nat>)
    requires s.Valid() && s.decoder == "latin1"
    modifies s
    ensures s.Valid() && s.decoder == "latin1"
    ensures old(s.pending) == [] ==> var spec := MetaLengthOf(old(s.Contents()), env);
      && s.pending == []
      && (spec.Err? ==> r == Err(spec.error))
      && (spec.Ok? ==> r == Ok(spec.value.0) && s.Contents() == spec.value.1)
    ensures r.Ok? ==> 4 <= |old(s.Contents())| && CleanString(TagAt(old(s.Contents()), true)) == META_LENGTH_TAG
  {
    ghost var c := s.Contents();
    var el, tail := ReadElement(s, EXPLICIT_LITTLE_ENDIAN, META_LENGTH_OPTIONS, env);
    if old(s.pending) == [] {
      SingleBufferElement(c, EXPLICIT_LITTLE_ENDIAN, "latin1", META_LENGTH_OPTIONS, env, tail, el, s.Contents());
    }
    if el.Err? { return Err(el.error); }
    if CleanString(el.value.tag) != META_LENGTH_TAG { return Err(MalformedMetaLength); }
    r := MetaLength(el.value);
  }

  /** The meta information, read from the stream. */
  method ReadMeta(s: BufferStream, env: Env, host: Host) returns (r: Result<map<string, Entry>>)
    requires s.Valid() && s.decoder == "latin1"
    modifies s
    ensures s.Valid() && s.decoder == "latin1"
    ensures old(s.pending) == [] ==> var spec := MetaOf(old(s.Contents()), env, host);
      && s.pending == []
      && (spec.Err? ==> r == Err(spec.error))
      && (spec.Ok? ==> r == Ok(spec.value.0) && s.Contents() == spec.value.1)
    ensures r.Ok? ==> 4 <= |old(s.Contents())| && CleanString(TagAt(old(s.Contents()), true)) == META_LENGTH_TAG
  {
    var n := ReadMetaLength(s, env);
    if n.Err? { return Err(n.error); }
    var meta := s.ReadNBytes(n.value);
    if meta.Err? { return Err(meta.error); }
    r := host.readMeta(meta.value);
  }

  /** readFile on a file delivered as `chunks`. A file that arrives in one
      chunk is read as FileOf says; in every case an accepted file carries
      the DICM marker and starts with the meta group length. */
  method ReadFile(chunks: seq<seq<byte>>, opts: ReadOptions, env: Env, host: Host)
    returns (r: Result<DicomFile>)
    requires forall i :: 0 <= i < |chunks| ==> |chunks[i]| > 0
    ensures |chunks| <= 1 ==> r == FileOf(Concat(chunks), opts, env, host)
    ensures r.Ok? ==> var c := Concat(chunks);
      && 136 <= |c| && Ascii(c[128..132]) == MAGIC
      && CleanString(TagAt(c[132..], true)) == META_LENGTH_TAG
  {
    var s := new BufferStream(chunks, false);
    ghost var c := s.Contents();
    ghost var single := |chunks| <= 1;
    var skipped := s.Increment(PREAMBLE_LENGTH);
    if skipped.Err? { return Err(skipped.error); }
    assert single ==> s.pending == [];
    var magic := s.ReadAsciiString(4);
    if magic.Err? { return Err(magic.error); }
    assert c[128..][..4] == c[128..132];
    assert s.Contents() == c[132..];
    if magic.value != MAGIC { return Err(MissingMagic); }
    var header := ReadMeta(s, env, host);
    if header.Err? { return Err(header.error); }
    var syntax := TransferSyntax(header.value);
    if syntax.Err? { return Err(syntax.error); }
    if syntax.value == DEFLATED_EXPLICIT_LITTLE_ENDIAN { return Err(DeflatedUnsupported); }
    var dict := ReadDataset(s, host.normalizeSyntax(syntax.value), opts, env);
    if dict.Err? { return Err(dict.error); }
    r := Ok(DicomFile(header.value, dict.value));
  }
}
