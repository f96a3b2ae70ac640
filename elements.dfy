/** One data element, as DicomMessageAsync._readTag reads it: the tag, then
    for an implicit transfer syntax a 32-bit length and a VR taken from the
    data dictionary, or for an explicit one a two-letter VR and a 16- or
    32-bit length; then the value, split into blocks for a long binary
    value, and shaped into the arrays of values and raw values. */
module Elements {
  import opened Bytes
  import opened ByteStream
  import opened Tags
  import opened Wire
  import opened ValueRepresentations
  import opened Text
  import opened Encapsulated
  import opened Values

  const IMPLICIT_LITTLE_ENDIAN: string := "1.2.840.10008.1.2"
  const EXPLICIT_LITTLE_ENDIAN: string := "1.2.840.10008.1.2.1"

  predicate IsImplicit(syntax: string)
  {
    syntax == IMPLICIT_LITTLE_ENDIAN
  }

  /** Every syntax other than the two little-endian ones is read big-endian. */
  predicate SyntaxIsLittleEndian(syntax: string)
  {
    syntax == IMPLICIT_LITTLE_ENDIAN || syntax == EXPLICIT_LITTLE_ENDIAN
  }

  /** The reader's options; `untilTag` is a clean tag string or null. */
  datatype ReadOptions = ReadOptions(
    ignoreErrors: bool,
    untilTag: Option<string>,
    includeUntilTagValue: bool,
    forceStoreRaw: bool)

  /** What _readTag returns: the placeholder `{tag, vr: 0, values: 0}` for the
      stop tag, or the tag with its VR, values and raw values. */
  datatype DataElement =
    | Placeholder(tag: Tag)
    | Parsed(tag: Tag, vr: VrCode, values: JsValue, rawValues: JsValue)

  /** The VR and the length the header gives; a length read that failed
      leaves the length null. */
  datatype Header = Header(vr: VrCode, length: Option<nat>)

  /** The stop tag is there and its value is not wanted. */
  predicate StopsBefore(opts: ReadOptions, t: Tag)
  {
    opts.untilTag == Some(CleanString(t)) && !opts.includeUntilTagValue
  }

  // ---- the header ------------------------------------------------------------

  /** The VR of an implicit element: the dictionary's, and for a tag the
      dictionary does not know SQ for an undefined length, then OW for pixel
      data, LO for a private creator and UN for the rest. (The source's test
      for "xs" in between looks at a VR that is still unset, so it never holds.) */
  function ImplicitVr(env: Env, tag: Tag, length: nat): (vr: VrCode)
    ensures env.lookupVr(tag).Some? && Registered(env.lookupVr(tag).value).Some? ==>
      TypeString(vr) == env.lookupVr(tag).value
    ensures env.lookupVr(tag).None? ==> vr in {SQ, OW, LO, UN}
    ensures env.lookupVr(tag).None? ==> (vr == SQ <==> length == UNDEFINED_LENGTH)
    ensures env.lookupVr(tag).None? ==>
      (vr == OW <==> length != UNDEFINED_LENGTH && env.isPixelData(tag))
    ensures env.lookupVr(tag).None? ==>
      (vr == LO <==> length != UNDEFINED_LENGTH && !env.isPixelData(tag) && env.isPrivateCreator(tag))
  {
    match env.lookupVr(tag)
    case Some(code) => CreateByTypeString(code)
    case None =>
      if length == UNDEFINED_LENGTH then SQ
      else if env.isPixelData(tag) then OW
      else if env.isPrivateCreator(tag) then LO
      else UN
  }

  /** The length after an explicit VR: for a VR with the long form two
      reserved bytes and a 32-bit length, for the others a 16-bit length. A
      read that runs past the end is caught, and the length stays null. */
  function ExplicitLength(c: seq<byte>, le: bool, vr: VrCode): (r: (Header, seq<byte>))
    ensures r.0.vr == vr && |r.1| <= |c|
    ensures IsExplicit(vr) ==>
      (r.0.length.Some? <==> 6 <= |c|)
      && (6 <= |c| ==> r.0.length == Some(Uint32(c[2..6], le)) && r.1 == c[6..])
    ensures !IsExplicit(vr) ==>
      (r.0.length.Some? <==> 2 <= |c|)
      && (2 <= |c| ==> r.0.length == Some(Uint16(c[..2], le)) && r.1 == c[2..])
    ensures r.0.length.None? ==> r.1 == (if IsExplicit(vr) && 2 <= |c| then c[2..] else c)
  {
    if IsExplicit(vr) then
      if |c| < 2 then (Header(vr, None), c)
      else
        match U32(c[2..], le)
        case Ok(x) =>
          assert c[2..][..4] == c[2..6];
          (Header(vr, Some(x.0)), x.1)
        case Err(_) => (Header(vr, None), c[2..])
    else
      match U16(c, le)
      case Ok(x) => (Header(vr, Some(x.0)), x.1)
      case Err(_) => (Header(vr, None), c)
  }

  /** The header after the tag. An explicit UN element whom the dictionary
      gives a VR is handed to a reader of unknown values, which is not part
      of this model and is taken to fail. */
  function HeaderOf(c: seq<byte>, le: bool, implicit: bool, tag: Tag, env: Env): (r: Parse<Header>)
    ensures r.Ok? ==> |r.value.1| <= |c|
    ensures implicit ==> (r.Ok? <==> 4 <= |c|) && (r.Err? ==> r.error == EndOfStream(4))
    ensures implicit && r.Ok? ==>
      r.value.0 == Header(ImplicitVr(env, tag, Uint32(c[..4], le)), Some(Uint32(c[..4], le)))
      && r.value.1 == c[4..]
    ensures !implicit && |c| < 2 ==> r == Err(EndOfStream(2))
    ensures !implicit && 2 <= |c| ==>
      var code := Ascii(c[..2]);
      var dict := env.lookupVr(tag);
      if code == "UN" && dict.Some? && dict.value != "" then r == Err(UnknownVrReparse)
      else r == Ok(ExplicitLength(c[2..], le, CreateByTypeString(code)))
    ensures r.Ok? && r.value.0.length.None? ==> !implicit && |r.value.1| < 4
  {
    if implicit then
      var len :- U32(c, le);
      Ok((Header(ImplicitVr(env, tag, len.0), Some(len.0)), len.1))
    else
      var code :- AsciiText(c, 2);
      var dict := env.lookupVr(tag);
      if code.0 == "UN" && dict.Some? && dict.value != "" then Err(UnknownVrReparse)
      else Ok(ExplicitLength(code.1, le, CreateByTypeString(code.0)))
  }

  // ---- the value -------------------------------------------------------------

  /** `length / maxLength` is a float and `i++ < times` runs once for each
      integer below it: the block count is the ceiling of the quotient. */
  function BlockCount(length: nat, m: nat): (k: nat)
    requires m > 0
    ensures k * m >= length && (k == 0 || (k - 1) * m < length)
  {
    (length + m - 1) / m
  }

  /** `const { rawValue, value } = await vr.read(...)`: a bare default value
      has neither field, and destructuring an undefined default is a TypeError. */
  function Parts(o: Outcome): (r: Result<(JsValue, JsValue)>)
    ensures o.Read? ==> r == Ok((o.raw, o.value))
    ensures o.Bare? ==> (r.Err? <==> o.default == Undefined)
    ensures r.Ok? && o.Bare? ==> r.value == (Undefined, Undefined)
  {
    match o
    case Read(raw, value) => Ok((raw, value))
    case Bare(d) => if d == Undefined then Err(TypeError) else Ok((Undefined, Undefined))
  }

  /** One block of a long binary value: `read` at the maximum length reads
      one number of the representation's own width, which is its raw value
      as well as its value (BlockIsARead). */
  function Block(c: seq<byte>, vr: VrCode, le: bool): (r: Parse<(JsValue, JsValue)>)
    requires IsBinary(vr)
    ensures r.Ok? ==> r.value.0.0 == r.value.0.1 && |r.value.1| <= |c|
  {
    var x :- NumberBytes(c, vr, le);
    Ok(((x.0, x.0), x.1))
  }

  /** For a binary representation, `read` of a block is the general read:
      the number is stored raw, and applyFormatting leaves it as it is. */
  lemma BlockIsARead(c: seq<byte>, vr: VrCode, le: bool, decoder: string, force: bool, env: Env)
    requires IsBinary(vr)
    ensures var o := ReadSpec(c, vr, Some(MaxLengthOf(vr).n), le, decoder, force, env);
      var b := Block(c, vr, le);
      && (o.Err? <==> b.Err?)
      && (o.Err? ==> o.error == b.error)
      && (o.Ok? ==> o.value.0.Read? && Parts(o.value.0) == Ok(b.value.0) && o.value.1 == b.value.1)
  {
    FixedIsBinaryOrAgeString(vr);
    assert BytesOf(c, vr, Some(MaxLengthOf(vr).n), le, decoder, env) == NumberBytes(c, vr, le);
  }

  /** The block loop: `times` more blocks, the values and raw values pushed
      onto `vals` and `raws`. */
  function Blocks(c: seq<byte>, vr: VrCode, times: nat, le: bool, vals: seq<JsValue>, raws: seq<JsValue>)
    : (r: Parse<(seq<JsValue>, seq<JsValue>)>)
    requires IsBinary(vr)
    ensures r.Ok? ==> |r.value.0.0| == |vals| + times && |r.value.0.1| == |raws| + times
    ensures r.Ok? ==> |r.value.1| <= |c|
    decreases times
  {
    if times == 0 then Ok(((vals, raws), c))
    else
      var b :- Block(c, vr, le);
      Blocks(b.1, vr, times - 1, le, vals + [b.0.1], raws + [b.0.0])
  }

  /** One turn of the block loop: a block read from `c` leaves `rest`, and
      `left` more blocks remain. */
  lemma BlockStep(c: seq<byte>, rest: seq<byte>, vr: VrCode, before: nat, left: nat, le: bool,
                  vals: seq<JsValue>, raws: seq<JsValue>, vals': seq<JsValue>, raws': seq<JsValue>)
    requires IsBinary(vr) && before == left + 1
    requires var b := Block(c, vr, le);
      b.Ok? && rest == b.value.1 && vals' == vals + [b.value.0.1] && raws' == raws + [b.value.0.0]
    ensures Blocks(rest, vr, left, le, vals', raws') == Blocks(c, vr, before, le, vals, raws)
  {
  }

  /** A block that cannot be read ends the loop with its error. */
  lemma BlockFails(c: seq<byte>, vr: VrCode, left: nat, le: bool, vals: seq<JsValue>, raws: seq<JsValue>)
    requires IsBinary(vr) && left > 0 && Block(c, vr, le).Err?
    ensures Blocks(c, vr, left, le, vals, raws) == Err(Block(c, vr, le).error)
  {
  }

  /** An array stays, anything else becomes the only element of one. */
  function Wrap(v: JsValue): (r: JsValue)
    ensures r.List?
    ensures v.List? ==> r == v
    ensures !v.List? ==> r.items == [v]
  {
    if v.List? then v else List([v])
  }

  /** How _readTag turns what `read` returned into values and raw values:
      text of a representation that is neither binary nor single-valued is
      split on the value delimiter with its padding dropped, SQ, OW and OB
      pass through, and every other value is wrapped in an array. */
  function Shape(vr: VrCode, o: Outcome, env: Env): (r: Result<(JsValue, JsValue)>)
  {
    var p :- Parts(o);
    var (raw, value) := p;
    if !IsBinary(vr) && !InSingleList(vr) then
      if value.Str? then
        if raw.Str? then
          Ok((Strs(env.dropPadByte(vr, Split(value.s, VM_DELIMITER))),
              Strs(env.dropPadByte(vr, Split(raw.s, VM_DELIMITER)))))
        else Err(TypeError)
      else Ok((value, raw))
    else if vr == SQ || vr == OW || vr == OB then Ok((value, raw))
    else Ok((Wrap(value), Wrap(raw)))
  }

  /** The values and raw values of an element with header `h`, and the bytes after them. */
  function ValueOf(c: seq<byte>, le: bool, h: Header, decoder: string, force: bool, env: Env)
    : (r: Parse<(JsValue, JsValue)>)
    ensures r.Ok? ==> |r.value.1| <= |c|
  {
    if SplitsIntoBlocks(h.vr, h.length) then
      BlocksHavePositiveSize(h.vr, h.length);
      var m := MaxLengthOf(h.vr).n;
      var b :- Blocks(c, h.vr, BlockCount(h.length.value, m), le, [], []);
      Ok(((List(b.0.0), List(b.0.1)), b.1))
    else
      var o :- ReadSpec(c, h.vr, h.length, le, decoder, force, env);
      var v :- Shape(h.vr, o.0, env);
      Ok((v, o.1))
  }

  /** The element whose header `h` left the bytes `rest`. */
  function ElementAfter(tag: Tag, h: Header, rest: seq<byte>, le: bool, decoder: string,
                        opts: ReadOptions, env: Env): (r: Parse<DataElement>)
    ensures r.Ok? ==> |r.value.1| <= |rest|
    ensures r.Ok? ==> r.value.0.Parsed? && r.value.0.tag == tag && r.value.0.vr == h.vr
  {
    var v :- ValueOf(rest, le, h, decoder, opts.forceStoreRaw, env);
    Ok((Parsed(tag, h.vr, v.0.0, v.0.1), v.1))
  }

  /** _readTag over the bytes `c`, with the text decoder `decoder`. The
      element is read in the byte order of the syntax. */
  function ElementOf(c: seq<byte>, syntax: string, decoder: string, opts: ReadOptions, env: Env)
    : (r: Parse<DataElement>)
    ensures r.Ok? ==> 4 <= |c| && |r.value.1| + 4 <= |c|
    ensures r.Ok? ==> r.value.0.tag == TagAt(c, SyntaxIsLittleEndian(syntax))
  {
    var le := SyntaxIsLittleEndian(syntax);
    var t :- TagOf(c, le);
    if StopsBefore(opts, t.0) then Ok((Placeholder(t.0), t.1))
    else
      var h :- HeaderOf(t.1, le, IsImplicit(syntax), t.0, env);
      ElementAfter(t.0, h.0, h.1, le, decoder, opts, env)
  }

  // ---- properties --------------------------------------------------------------

  /** The stop tag without its value costs only the four bytes of the tag. */
  lemma StopTagReadsOnlyTheTag(c: seq<byte>, syntax: string, decoder: string, opts: ReadOptions, env: Env)
    requires 4 <= |c| && StopsBefore(opts, TagAt(c, SyntaxIsLittleEndian(syntax)))
    ensures ElementOf(c, syntax, decoder, opts, env)
      == Ok((Placeholder(TagAt(c, SyntaxIsLittleEndian(syntax))), c[4..]))
  {
  }

  /** An explicit header with the long form occupies twelve bytes after the
      tag's own four: the VR, two reserved bytes and a 32-bit length. */
  lemma {:induction false} LongExplicitHeader(c: seq<byte>, le: bool, tag: Tag, env: Env)
    requires 8 <= |c|
    requires IsExplicit(CreateByTypeString(Ascii(c[..2])))
    requires Ascii(c[..2]) != "UN" || env.lookupVr(tag).None? || env.lookupVr(tag).value == ""
    ensures HeaderOf(c, le, false, tag, env)
      == Ok((Header(CreateByTypeString(Ascii(c[..2])), Some(Uint32(c[4..8], le))), c[8..]))
  {
    assert c[2..][2..6] == c[4..8];
    assert c[2..][6..] == c[8..];
  }

  /** A short explicit header is the VR and a 16-bit length. */
  lemma {:induction false} ShortExplicitHeader(c: seq<byte>, le: bool, tag: Tag, env: Env)
    requires 4 <= |c|
    requires !IsExplicit(CreateByTypeString(Ascii(c[..2])))
    requires Ascii(c[..2]) != "UN" || env.lookupVr(tag).None? || env.lookupVr(tag).value == ""
    ensures HeaderOf(c, le, false, tag, env)
      == Ok((Header(CreateByTypeString(Ascii(c[..2])), Some(Uint16(c[2..4], le))), c[4..]))
  {
    assert c[2..][..2] == c[2..4];
  }

  /** A header whose length read fails is still a header: the length is
      null and fewer than four bytes are left. */
  lemma {:induction false} TruncatedHeaderHasNoLength(c: seq<byte>, le: bool, tag: Tag, env: Env)
    requires 2 <= |c| < 4
    requires Ascii(c[..2]) != "UN" || env.lookupVr(tag).None? || env.lookupVr(tag).value == ""
    ensures HeaderOf(c, le, false, tag, env).Ok?
    ensures HeaderOf(c, le, false, tag, env).value.0.length.None?
  {
  }

  /** A number occupies as many bytes as its representation's maximum length. */
  lemma NumberWidth(c: seq<byte>, vr: VrCode, le: bool)
    requires IsBinary(vr)
    ensures var w := MaxLengthOf(vr).n; var b := Block(c, vr, le);
      MaxLengthOf(vr).Limit? && (b.Ok? <==> w <= |c|) && (b.Ok? ==> b.value.1 == c[w..])
  {
  }

  /** `times` blocks of `m` bytes, counted without multiplying. */
  function Span(times: nat, m: nat): (n: nat)
  {
    if times == 0 then 0 else Span(times - 1, m) + m
  }

  lemma {:induction false} SpanIsProduct(times: nat, m: nat)
    ensures Span(times, m) == times * m
  {
    if times > 0 {
      SpanIsProduct(times - 1, m);
      assert times * m == (times - 1) * m + m;
    }
  }

  /** What the blocks after the first consume, counted from the start. */
  lemma SpanAfterABlock(c: seq<byte>, m: nat, k: nat, r: Parse<(seq<JsValue>, seq<JsValue>)>)
    requires m <= |c|
    requires (r.Ok? <==> k <= |c[m..]|) && (r.Ok? ==> r.value.1 == c[m..][k..])
    ensures (r.Ok? <==> k + m <= |c|) && (r.Ok? ==> r.value.1 == c[k + m..])
  {
    if k + m <= |c| {
      assert c[m..][k..] == c[k + m..];
    }
  }

  /** The blocks after a first block that can be read consume the rest of
      the span after it. */
  lemma BlocksAfterABlock(c: seq<byte>, vr: VrCode, times: nat, le: bool, vals: seq<JsValue>, raws: seq<JsValue>)
    requires IsBinary(vr) && times > 0 && Block(c, vr, le).Ok?
    requires var b := Block(c, vr, le); var m := MaxLengthOf(vr).n;
      var r := Blocks(b.value.1, vr, times - 1, le, vals + [b.value.0.1], raws + [b.value.0.0]);
      MaxLengthOf(vr).Limit? && m <= |c| && b.value.1 == c[m..]
      && (r.Ok? <==> Span(times - 1, m) <= |c[m..]|) && (r.Ok? ==> r.value.1 == c[m..][Span(times - 1, m)..])
    ensures var m := MaxLengthOf(vr).n;
      var r := Blocks(c, vr, times, le, vals, raws);
      (r.Ok? <==> Span(times, m) <= |c|) && (r.Ok? ==> r.value.1 == c[Span(times, m)..])
  {
    var b := Block(c, vr, le);
    var m := MaxLengthOf(vr).n;
    BlockStep(c, c[m..], vr, times, times - 1, le, vals, raws, vals + [b.value.0.1], raws + [b.value.0.0]);
    SpanAfterABlock(c, m, Span(times - 1, m), Blocks(c[m..], vr, times - 1, le, vals + [b.value.0.1], raws + [b.value.0.0]));
  }

  lemma {:induction false} BlocksConsumeSpan(c: seq<byte>, vr: VrCode, times: nat, le: bool,
      vals: seq<JsValue>, raws: seq<JsValue>)
    requires IsBinary(vr)
    ensures var m := MaxLengthOf(vr).n;
      var r := Blocks(c, vr, times, le, vals, raws);
      MaxLengthOf(vr).Limit? && (r.Ok? <==> Span(times, m) <= |c|) && (r.Ok? ==> r.value.1 == c[Span(times, m)..])
    decreases times
  {
    NumberWidth(c, vr, le);
    if times > 0 {
      var b := Block(c, vr, le);
      if b.Ok? {
        BlocksConsumeSpan(b.value.1, vr, times - 1, le, vals + [b.value.0.1], raws + [b.value.0.0]);
        BlocksAfterABlock(c, vr, times, le, vals, raws);
      } else {
        BlockFails(c, vr, times, le, vals, raws);
      }
    }
  }

  /** A binary value is read block by block at its own width, which is its
      maximum length, so the blocks consume `times * m` bytes: for a length
      that is not a multiple of the width the last read runs past it. */
  lemma BlocksConsumeWholeBlocks(c: seq<byte>, vr: VrCode, times: nat, le: bool)
    requires IsBinary(vr)
    ensures var m := MaxLengthOf(vr).n;
      var r := Blocks(c, vr, times, le, [], []);
      MaxLengthOf(vr).Limit? && (r.Ok? <==> times * m <= |c|) && (r.Ok? ==> r.value.1 == c[times * m..])
  {
    BlocksConsumeSpan(c, vr, times, le, [], []);
    SpanIsProduct(times, MaxLengthOf(vr).n);
  }

  /** SQ, OW and OB values are passed through as they were read. */
  lemma ShapePassesThrough(vr: VrCode, raw: JsValue, value: JsValue, env: Env)
    requires vr in {SQ, OW, OB}
    ensures Shape(vr, Read(raw, value), env) == Ok((value, raw))
  {
  }

  /** The values of a binary or single-valued VR other than SQ, OW and OB
      are always an array, holding a scalar value alone. */
  lemma ShapeWrapsScalars(vr: VrCode, o: Outcome, env: Env)
    requires IsBinary(vr) || vr in {OF, UN, LT}
    ensures var r := Shape(vr, o, env);
      r.Ok? ==> r.value.0.List? && r.value.1.List?
    ensures var r := Shape(vr, o, env);
      o.Read? && !o.value.List? ==> r.Ok? && r.value.0 == List([o.value])
  {
  }

  /** The values of a text VR read as one string are its components, split
      at the value delimiter, after dcmjs drops their padding. */
  lemma ShapeSplitsText(vr: VrCode, raw: string, value: string, env: Env)
    requires !IsBinary(vr) && !InSingleList(vr)
    ensures Shape(vr, Read(Str(raw), Str(value)), env)
      == Ok((Strs(env.dropPadByte(vr, Split(value, VM_DELIMITER))),
             Strs(env.dropPadByte(vr, Split(raw, VM_DELIMITER)))))
  {
  }

  // ---- the reads on the stream -------------------------------------------------

  method ReadExplicitLength(s: BufferStream, vr: VrCode) returns (h: Header)
    requires s.Valid()
    modifies s
    ensures s.Valid() && s.isLittleEndian == old(s.isLittleEndian) && s.decoder == old(s.decoder)
    ensures old(s.pending) == [] ==> s.pending == []
    ensures var spec := ExplicitLength(old(s.Contents()), old(s.isLittleEndian), vr);
      && h == spec.0
      && (h.length.Some? || old(s.pending) == [] ==> s.Contents() == spec.1)
      && (h.length.None? ==> s.pending == [] && IsPrefix(s.Contents(), spec.1))
  {
    ghost var c := s.Contents();
    if IsExplicit(vr) {
      var skip := s.Increment(2);
      if skip.Err? { return Header(vr, None); }
      assert s.Contents() == c[2..];
      var length := s.ReadUint32();
      if length.Err? { return Header(vr, None); }
      assert c[2..][..4] == c[2..6];
      h := Header(vr, Some(length.value));
    } else {
      var length := s.ReadUint16();
      if length.Err? { return Header(vr, None); }
      h := Header(vr, Some(length.value));
    }
  }

  method ReadHeader(s: BufferStream, implicit: bool, tag: Tag, env: Env) returns (r: Result<Header>)
    requires s.Valid()
    modifies s
    ensures s.Valid() && s.isLittleEndian == old(s.isLittleEndian) && s.decoder == old(s.decoder)
    ensures old(s.pending) == [] ==> s.pending == []
    ensures var spec := HeaderOf(old(s.Contents()), old(s.isLittleEndian), implicit, tag, env);
      && (spec.Err? ==> r == Err(spec.error))
      && (spec.Ok? ==> r == Ok(spec.value.0))
      && (spec.Ok? && (spec.value.0.length.Some? || old(s.pending) == []) ==> s.Contents() == spec.value.1)
      && (spec.Ok? && spec.value.0.length.None? ==> s.pending == [] && IsPrefix(s.Contents(), spec.value.1))
  {
    if implicit {
      var length := s.ReadUint32();
      if length.Err? { return Err(length.error); }
      return Ok(Header(ImplicitVr(env, tag, length.value), Some(length.value)));
    }
    var code := s.ReadVR();
    if code.Err? { return Err(code.error); }
    var dict := env.lookupVr(tag);
    if code.value == "UN" && dict.Some? && dict.value != "" {
      return Err(UnknownVrReparse);
    }
    var h := ReadExplicitLength(s, CreateByTypeString(code.value));
    r := Ok(h);
  }

  /** `vr.read(stream, vr.maxLength, ...)` of one block. */
  method ReadBlock(s: BufferStream, vr: VrCode, force: bool, env: Env) returns (r: Result<(JsValue, JsValue)>)
    requires s.Valid() && IsBinary(vr)
    modifies s
    ensures s.Valid()
    ensures s.Follows(Block(old(s.Contents()), vr, old(s.isLittleEndian)), r)
  {
    BlockIsARead(s.Contents(), vr, s.isLittleEndian, s.decoder, force, env);
    var o := ReadValue(s, vr, Some(MaxLengthOf(vr).n), force, env);
    if o.Err? { return Err(o.error); }
    r := Parts(o.value);
  }

  method ReadBlocks(s: BufferStream, vr: VrCode, times: nat, force: bool, env: Env)
    returns (r: Result<(seq<JsValue>, seq<JsValue>)>)
    requires s.Valid() && IsBinary(vr)
    modifies s
    ensures s.Valid()
    ensures s.Follows(Blocks(old(s.Contents()), vr, times, old(s.isLittleEndian), [], []), r)
  {
    ghost var c := s.Contents();
    ghost var le := s.isLittleEndian;
    ghost var decoder := s.decoder;
    var vals: seq<JsValue> := [];
    var raws: seq<JsValue> := [];
    ghost var target := Blocks(c, vr, times, le, [], []);
    var left: nat := times;
    while left > 0
      invariant s.Valid() && (old(s.pending) == [] ==> s.pending == [])
      invariant s.isLittleEndian == le && s.decoder == decoder
      invariant Blocks(s.Contents(), vr, left, le, vals, raws) == target
    {
      ghost var ci, before, vals0, raws0 := s.Contents(), left, vals, raws;
      var b := ReadBlock(s, vr, force, env);
      if b.Err? {
        BlockFails(ci, vr, left, le, vals, raws);
        return Err(b.error);
      }
      vals := vals + [b.value.1];
      raws := raws + [b.value.0];
      left := left - 1;
      BlockStep(ci, s.Contents(), vr, before, left, le, vals0, raws0, vals, raws);
    }
    r := Ok((vals, raws));
  }

  method ReadElementValue(s: BufferStream, h: Header, force: bool, env: Env)
    returns (r: Result<(JsValue, JsValue)>)
    requires s.Valid()
    modifies s
    ensures s.Valid()
    ensures s.Follows(ValueOf(old(s.Contents()), old(s.isLittleEndian), h, old(s.decoder), force, env), r)
  {
    ghost var c := s.Contents();
    ghost var spec := ValueOf(c, s.isLittleEndian, h, s.decoder, force, env);
    if SplitsIntoBlocks(h.vr, h.length) {
      BlocksHavePositiveSize(h.vr, h.length);
      var m := MaxLengthOf(h.vr).n;
      var b := ReadBlocks(s, h.vr, BlockCount(h.length.value, m), force, env);
      if b.Err? { return Err(b.error); }
      r := Ok((List(b.value.0), List(b.value.1)));
    } else {
      ghost var ospec := ReadSpec(c, h.vr, h.length, s.isLittleEndian, s.decoder, force, env);
      var o := ReadValue(s, h.vr, h.length, force, env);
      if o.Err? {
        assert spec == Err(ospec.error);
        return Err(o.error);
      }
      var v := Shape(h.vr, o.value, env);
      if v.Err? {
        assert spec == Err(v.error);
        return Err(v.error);
      }
      assert spec == Ok((v.value, ospec.value.1));
      r := Ok(v.value);
    }
  }

  /** The header and the value after the tag `tag`, in the stream's byte order. */
  method ReadElementBody(s: BufferStream, implicit: bool, tag: Tag, opts: ReadOptions, env: Env)
    returns (r: Result<DataElement>, ghost tail: seq<byte>)
    requires s.Valid()
    modifies s
    ensures s.Valid() && s.decoder == old(s.decoder) && s.isLittleEndian == old(s.isLittleEndian)
    ensures old(s.pending) == [] ==> s.pending == []
    ensures var h := HeaderOf(old(s.Contents()), old(s.isLittleEndian), implicit, tag, env);
      && (h.Err? ==> r == Err(h.error))
      && (h.Ok? && (h.value.0.length.Some? || old(s.pending) == []) ==> tail == h.value.1)
      && (h.Ok? && h.value.0.length.None? ==> IsPrefix(tail, h.value.1))
      && (h.Ok? ==>
            var e := ElementAfter(tag, h.value.0, tail, old(s.isLittleEndian), old(s.decoder), opts, env);
            && (e.Err? ==> r == Err(e.error))
            && (e.Ok? ==> r == Ok(e.value.0) && s.Contents() == e.value.1))
  {
    var h := ReadHeader(s, implicit, tag, env);
    if h.Err? { return Err(h.error), []; }
    tail := s.Contents();
    var v := ReadElementValue(s, h.value, opts.forceStoreRaw, env);
    if v.Err? { return Err(v.error), tail; }
    r := Ok(Parsed(tag, h.value.vr, v.value.0, v.value.1));
  }

  /** _readTag. The stream is switched to the byte order of the syntax; a
      full read switches it back afterwards, the stop tag's placeholder
      returns without doing so. Where the header's length read failed, the
      value is read from the bytes that were left, `tail`; the pure reading
      `ElementOf` is followed exactly when no chunk was pending. */
  method ReadElement(s: BufferStream, syntax: string, opts: ReadOptions, env: Env)
    returns (r: Result<DataElement>, ghost tail: seq<byte>)
    requires s.Valid()
    modifies s
    ensures s.Valid() && s.decoder == old(s.decoder)
    ensures old(s.pending) == [] ==> s.pending == []
    ensures r.Ok? ==> |s.Contents()| + 4 <= |old(s.Contents())|
    ensures var le := SyntaxIsLittleEndian(syntax);
      var t := TagOf(old(s.Contents()), le);
      && (t.Err? ==> r == Err(t.error))
      && (t.Ok? && StopsBefore(opts, t.value.0) ==>
            r == Ok(Placeholder(t.value.0)) && s.Contents() == t.value.1 && s.isLittleEndian == le)
      && (t.Ok? && !StopsBefore(opts, t.value.0) ==>
            var h := HeaderOf(t.value.1, le, IsImplicit(syntax), t.value.0, env);
            && (h.Err? ==> r == Err(h.error))
            && (h.Ok? && (h.value.0.length.Some? || old(s.pending) == []) ==> tail == h.value.1)
            && (h.Ok? && h.value.0.length.None? ==> IsPrefix(tail, h.value.1))
            && (h.Ok? ==>
                  var e := ElementAfter(t.value.0, h.value.0, tail, le, old(s.decoder), opts, env);
                  && (e.Err? ==> r == Err(e.error))
                  && (e.Ok? ==> r == Ok(e.value.0) && s.Contents() == e.value.1
                                && s.isLittleEndian == old(s.isLittleEndian))))
  {
    ghost var c := s.Contents();
    var oldEndian := s.GetEndian();
    s.SetEndian(SyntaxIsLittleEndian(syntax));
    var tag := ReadTag(s);
    if tag.Err? { return Err(tag.error), []; }
    assert TagOf(c, SyntaxIsLittleEndian(syntax)) == Ok((tag.value, s.Contents()));
    if StopsBefore(opts, tag.value) {
      return Ok(Placeholder(tag.value)), s.Contents();
    }
    r, tail := ReadElementBody(s, IsImplicit(syntax), tag.value, opts, env);
    if r.Ok? {
      s.SetEndian(oldEndian);
    }
  }

  /** With no chunk pending, _readTag follows ElementOf exactly. */
  lemma {:induction false} SingleBufferElement(c: seq<byte>, syntax: string, decoder: string,
      opts: ReadOptions, env: Env, tail: seq<byte>, r: Result<DataElement>, after: seq<byte>)
    requires var le := SyntaxIsLittleEndian(syntax);
      var t := TagOf(c, le);
      && (t.Err? ==> r == Err(t.error))
      && (t.Ok? && StopsBefore(opts, t.value.0) ==> r == Ok(Placeholder(t.value.0)) && after == t.value.1)
      && (t.Ok? && !StopsBefore(opts, t.value.0) ==>
            var h := HeaderOf(t.value.1, le, IsImplicit(syntax), t.value.0, env);
            && (h.Err? ==> r == Err(h.error))
            && (h.Ok? ==> tail == h.value.1)
            && (h.Ok? ==>
                  var e := ElementAfter(t.value.0, h.value.0, tail, le, decoder, opts, env);
                  && (e.Err? ==> r == Err(e.error))
                  && (e.Ok? ==> r == Ok(e.value.0) && after == e.value.1)))
    ensures var spec := ElementOf(c, syntax, decoder, opts, env);
      && (spec.Err? ==> r == Err(spec.error))
      && (spec.Ok? ==> r == Ok(spec.value.0) && after == spec.value.1)
  {
  }
}
