/** Reading one value: each representation's `readBytes`, its
    `applyFormatting`, and `read`, which returns the default value of a
    fixed-length representation whose length is zero and otherwise the raw
    and the formatted value. */
module Values {
  import opened Bytes
  import opened ByteStream
  import opened Tags
  import opened Wire
  import opened ValueRepresentations
  import opened Text
  import opened Encapsulated
  import opened Sequences

  /** The JavaScript values a read produces. */
  datatype JsValue =
    | Undefined
    | Null
    | Str(s: string)
    | Num(n: int)                   // an integer read from the stream, or a default 0
    | NumberText(text: string)      // `Number(text)` of a DS or IS component; the conversion is not modelled
    | FloatBits(bits: seq<byte>)    // an FL or FD number, as the bytes it was read from
    | Blob(data: seq<byte>)         // a Buffer of binary data
    | SequenceItem(data: seq<byte>) // an SQ item, as the bytes dcmjs parses into a dataset
    | PersonName(text: string)      // `pnConvertToJsonObject(text)`; the conversion is not modelled
    | List(items: seq<JsValue>)

  /** What the code calls out to: TextDecoder, dcmjs's `dropPadByte`, its
      data dictionary, and the tag predicates of dcmjs's Tag. */
  datatype Env = Env(
    decode: Decoder,
    dropPadByte: (VrCode, seq<string>) -> seq<string>,
    lookupVr: Tag -> Option<string>,
    isPrivateCreator: Tag -> bool,
    isPixelData: Tag -> bool)

  function Strs(ss: seq<string>): (v: JsValue)
    ensures v.List? && |v.items| == |ss|
    ensures forall i :: 0 <= i < |ss| ==> v.items[i] == Str(ss[i])
  {
    List(seq(|ss|, i requires 0 <= i < |ss| => Str(ss[i])))
  }

  /** The frames as an array of Buffers, a null frame staying null. */
  function FramesValue(frames: seq<Frame>): (v: JsValue)
    ensures v.List? && |v.items| == |frames|
    ensures forall i :: 0 <= i < |frames| ==>
      v.items[i] == (if frames[i].Some? then Blob(frames[i].value) else Null)
  {
    List(seq(|frames|, i requires 0 <= i < |frames| =>
      if frames[i].Some? then Blob(frames[i].value) else Null))
  }

  function ItemsValue(items: seq<seq<byte>>): (v: JsValue)
    ensures v.List? && |v.items| == |items|
    ensures forall i :: 0 <= i < |items| ==> v.items[i] == SequenceItem(items[i])
  {
    List(seq(|items|, i requires 0 <= i < |items| => SequenceItem(items[i])))
  }

  // ---- Strings -------------------------------------------------------------

  function AsciiText(c: seq<byte>, n: nat): (r: Parse<string>)
    ensures r.Ok? <==> n <= |c|
    ensures r.Ok? ==> r.value == (Ascii(c[..n]), c[n..])
    ensures r.Err? ==> r.error == EndOfStream(n)
  {
    var b :- Take(c, n);
    Ok((Ascii(b.0), b.1))
  }

  function EncodedText(c: seq<byte>, n: nat, decoder: string, decode: Decoder): (r: Parse<string>)
    ensures r.Ok? <==> n <= |c|
    ensures r.Ok? ==> r.value == (decode(decoder, c[..n]), c[n..])
    ensures r.Err? ==> r.error == EndOfStream(n)
  {
    var b :- Take(c, n);
    Ok((decode(decoder, b.0), b.1))
  }

  /** readPaddedAsciiString: the `n` bytes as ASCII, without the last one
      when it is the padding byte; nothing is read for length 0. */
  function PaddedAscii(c: seq<byte>, n: nat, pad: byte): (r: Parse<string>)
    ensures r.Ok? ==> |r.value.1| <= |c|
  {
    if n == 0 then Ok(("", c))
    else if |c| < n then Err(EndOfStream(n))
    else if c[n - 1] != pad then Ok((Ascii(c[..n]), c[n..]))
    else Ok((Ascii(c[..n - 1]), c[n..]))
  }

  /** readPaddedEncodedString: the decoded text without its last character
      when that is the padding character. */
  function PaddedEncoded(c: seq<byte>, n: nat, pad: byte, decoder: string, decode: Decoder): (r: Parse<string>)
    ensures r.Ok? ==> |r.value.1| <= |c|
  {
    if n == 0 then Ok(("", c))
    else
      var t :- EncodedText(c, n, decoder, decode);
      var v := t.0;
      if v != [] && v[|v| - 1] != pad as char then Ok((v, t.1))
      else Ok((if v == [] then v else v[..|v| - 1], t.1))
  }

  /** The padded ASCII read drops exactly the one padding byte, if any, and
      consumes all `n` bytes. */
  lemma PaddedAsciiDropsOnlyPadding(c: seq<byte>, n: nat, pad: byte)
    requires 0 < n <= |c|
    ensures var r := PaddedAscii(c, n, pad);
      r.Ok? && r.value.1 == c[n..]
      && (c[n - 1] != pad ==> r.value.0 == Ascii(c[..n]))
      && (c[n - 1] == pad ==> r.value.0 + [(pad % 128) as char] == Ascii(c[..n]))
  {
    if c[n - 1] == pad {
      assert c[..n] == c[..n - 1] + [pad];
    }
  }

  /** The padded decoded read removes at most one character, and only the
      padding character. */
  lemma PaddedEncodedDropsOnlyPadding(c: seq<byte>, n: nat, pad: byte, decoder: string, decode: Decoder)
    requires 0 < n <= |c|
    ensures var r := PaddedEncoded(c, n, pad, decoder, decode);
      var v := decode(decoder, c[..n]);
      r.Ok? && r.value.1 == c[n..]
      && (r.value.0 == v || (v != [] && v[|v| - 1] == pad as char && r.value.0 + [pad as char] == v))
  {
    var v := decode(decoder, c[..n]);
    if v != [] {
      assert v == v[..|v| - 1] + [v[|v| - 1]];
    }
  }

  // ---- readBytes -------------------------------------------------------------

  /** The fixed-width numeric representations. */
  function NumberBytes(c: seq<byte>, vr: VrCode, le: bool): (r: Parse<JsValue>)
    requires IsBinary(vr)
    ensures r.Ok? ==> |r.value.1| < |c|
  {
    match vr
    case AT => var t :- TagOf(c, le); Ok((Num(t.0), t.1))
    case FL => var b :- Take(c, 4); Ok((FloatBits(b.0), b.1))
    case FD => var b :- Take(c, 8); Ok((FloatBits(b.0), b.1))
    case SL => var b :- Take(c, 4); Ok((Num(Int32(b.0, le)), b.1))
    case SS => var b :- Take(c, 2); Ok((Num(Int16(b.0, le)), b.1))
    case UL => var x :- U32(c, le); Ok((Num(x.0), x.1))
    case US => var x :- U16(c, le); Ok((Num(x.0), x.1))
  }

  /** The string representations read `n` bytes; CS, DS and IS split them on
      the value delimiter, PN and a UI containing the delimiter too. */
  function TextBytes(c: seq<byte>, vr: VrCode, n: nat, decoder: string, env: Env): (r: Parse<JsValue>)
    requires !IsBinary(vr) && !NoMultiple(vr)
    ensures r.Ok? ==> |r.value.1| <= |c|
  {
    match vr
    case CS => var t :- AsciiText(c, n); Ok((Strs(env.dropPadByte(vr, Split(t.0, VM_DELIMITER))), t.1))
    case DS => var t :- AsciiText(c, n); Ok((Strs(env.dropPadByte(vr, Split(t.0, VM_DELIMITER))), t.1))
    case IS => var t :- AsciiText(c, n); Ok((Strs(env.dropPadByte(vr, Split(t.0, VM_DELIMITER))), t.1))
    case PN =>
      var t :- PaddedEncoded(c, n, PadByte(vr), decoder, env.decode);
      Ok((Strs(Split(t.0, VM_DELIMITER)), t.1))
    case UI =>
      var t :- PaddedAscii(c, n, PadByte(vr));
      if VM_DELIMITER !in t.0 then Ok((Str(t.0), t.1))
      else Ok((Strs(env.dropPadByte(vr, Split(t.0, VM_DELIMITER))), t.1))
    case LO => var t :- EncodedText(c, n, decoder, env.decode); Ok((Str(t.0), t.1))
    case LT => var t :- EncodedText(c, n, decoder, env.decode); Ok((Str(t.0), t.1))
    case SH => var t :- EncodedText(c, n, decoder, env.decode); Ok((Str(t.0), t.1))
    case ST => var t :- EncodedText(c, n, decoder, env.decode); Ok((Str(t.0), t.1))
    case UC => var t :- EncodedText(c, n, decoder, env.decode); Ok((Str(t.0), t.1))
    case UT => var t :- EncodedText(c, n, decoder, env.decode); Ok((Str(t.0), t.1))
    case AE | AS | DA | DT | TM | UR => var t :- AsciiText(c, n); Ok((Str(t.0), t.1))
  }

  /** `readBytes(stream, length)` of each representation. A null length
      reads as 0 everywhere but in SQ. */
  function BytesOf(c: seq<byte>, vr: VrCode, length: Option<nat>, le: bool, decoder: string, env: Env)
    : (r: Parse<JsValue>)
    ensures r.Ok? ==> |r.value.1| <= |c|
  {
    var n := if length.Some? then length.value else 0;
    if IsBinary(vr) then NumberBytes(c, vr, le)
    else if vr == SQ then
      var items :- SequenceBytes(c, le, length);
      Ok((ItemsValue(items.0), items.1))
    else if NoMultiple(vr) then
      var frames :- BinaryBytes(c, le, n);
      Ok((FramesValue(frames.0), frames.1))
    else TextBytes(c, vr, n, decoder, env)
  }

  // ---- applyFormatting -------------------------------------------------------

  /** `formatNumber` of DS and IS: trim, keep the number characters, and an
      empty result is null. */
  function FormatNumber(s: string): (v: JsValue)
    ensures v == Null <==> Filter(Trim(s), IsNumberChar) == []
    ensures v.NumberText? ==> forall i :: 0 <= i < |v.text| ==> IsNumberChar(v.text[i])
  {
    var t := Filter(Trim(s), IsNumberChar);
    if t == [] then Null else NumberText(t)
  }

  /** A string, or each string of an array, with `f` applied; anything else unchanged. */
  function MapText(v: JsValue, f: string -> JsValue): (r: JsValue)
    ensures v.Str? ==> r == f(v.s)
    ensures v.List? ==> r.List? && |r.items| == |v.items|
    ensures v.List? ==> forall i :: 0 <= i < |v.items| ==>
      r.items[i] == (if v.items[i].Str? then f(v.items[i].s) else v.items[i])
    ensures !v.Str? && !v.List? ==> r == v
  {
    match v
    case Str(s) => f(s)
    case List(xs) =>
      List(seq(|xs|, i requires 0 <= i < |xs| => if xs[i].Str? then f(xs[i].s) else xs[i]))
    case _ => v
  }

  function TrimmedStr(s: string): JsValue { Str(Trim(s)) }

  function RightTrimmedStr(s: string): JsValue { Str(RTrim(s)) }

  function UidStr(s: string): JsValue { Str(Filter(s, IsUidChar)) }

  /** `applyFormatting` of each representation; those that do not override
      it keep the value as read. */
  function Format(vr: VrCode, raw: JsValue): JsValue
  {
    match Formatter(vr)
    case Some(f) => MapText(raw, f)
    case None => raw
  }

  /** The formatting applied to each string of a value, where there is one. */
  function Formatter(vr: VrCode): (f: Option<string -> JsValue>)
    ensures vr == AE || vr == CS || vr == LO || vr == SH ==> f == Some(TrimmedStr)
    ensures vr == LT || vr == ST || vr == TM || vr == UC || vr == UT ==> f == Some(RightTrimmedStr)
    ensures vr == UI ==> f == Some(UidStr)
  {
    match vr
    case AE | CS | LO | SH => Some(TrimmedStr)
    case LT | ST | TM | UC | UT => Some(RightTrimmedStr)
    case DS | IS => Some(FormatNumber)
    case PN => Some(s => PersonName(s))
    case UI => Some(UidStr)
    case _ => None
  }

  /** Formatted UI values hold only digits and dots. */
  lemma UidValuesAreClean(raw: JsValue)
    requires raw.Str? || (raw.List? && forall i :: 0 <= i < |raw.items| ==> raw.items[i].Str?)
    ensures var v := Format(UI, raw);
      (v.Str? ==> forall k :: 0 <= k < |v.s| ==> IsUidChar(v.s[k]))
      && (v.List? ==> forall i :: 0 <= i < |v.items| ==>
            v.items[i].Str? && forall k :: 0 <= k < |v.items[i].s| ==> IsUidChar(v.items[i].s[k]))
  {
  }

  lemma {:induction false} RTrimIdempotent(s: string)
    ensures RTrim(RTrim(s)) == RTrim(s)
  {
    var r := RTrim(s);
    if r != [] {
      assert !IsSpace(r[|r| - 1]);
    }
  }

  /** Formatting a formatted text value again changes nothing, for every
      representation whose formatting only trims or filters. */
  lemma FormatIdempotent(vr: VrCode, raw: JsValue)
    requires vr in {AE, CS, LO, SH, LT, ST, TM, UC, UT, UI}
    ensures Format(vr, Format(vr, raw)) == Format(vr, raw)
  {
    var once := Format(vr, raw);
    if raw.Str? {
      TextFormatIdempotent(vr, raw.s);
    } else if raw.List? {
      var twice := Format(vr, once);
      forall i | 0 <= i < |raw.items|
        ensures twice.items[i] == once.items[i]
      {
        if raw.items[i].Str? {
          TextFormatIdempotent(vr, raw.items[i].s);
        }
      }
    }
  }

  lemma TextFormatIdempotent(vr: VrCode, s: string)
    requires vr in {AE, CS, LO, SH, LT, ST, TM, UC, UT, UI}
    ensures Format(vr, Format(vr, Str(s))) == Format(vr, Str(s))
  {
    if vr == AE || vr == CS || vr == LO || vr == SH {
      TrimmedTwice(vr, s);
    } else if vr == UI {
      UidTwice(s);
    } else {
      RightTrimmedTwice(vr, s);
    }
  }

  lemma TrimmedTwice(vr: VrCode, s: string)
    requires vr == AE || vr == CS || vr == LO || vr == SH
    ensures Format(vr, Format(vr, Str(s))) == Format(vr, Str(s))
  {
    var t := Trim(s);
    TrimmedText(vr, s);
    TrimmedText(vr, t);
    TrimIdempotent(s);
  }

  lemma RightTrimmedTwice(vr: VrCode, s: string)
    requires vr == LT || vr == ST || vr == TM || vr == UC || vr == UT
    ensures Format(vr, Format(vr, Str(s))) == Format(vr, Str(s))
  {
    var t := RTrim(s);
    RightTrimmedText(vr, s);
    RightTrimmedText(vr, t);
    RTrimIdempotent(s);
  }

  lemma UidTwice(s: string)
    ensures Format(UI, Format(UI, Str(s))) == Format(UI, Str(s))
  {
    var t := Filter(s, IsUidChar);
    assert Format(UI, Str(s)) == MapText(Str(s), UidStr) == UidStr(s) == Str(t);
    assert Format(UI, Str(t)) == MapText(Str(t), UidStr) == UidStr(t);
    FilterIdempotent(s, IsUidChar);
  }

  lemma TrimmedText(vr: VrCode, s: string)
    requires vr == AE || vr == CS || vr == LO || vr == SH
    ensures Format(vr, Str(s)) == Str(Trim(s))
  {
    assert Format(vr, Str(s)) == MapText(Str(s), TrimmedStr) == TrimmedStr(s);
  }

  lemma RightTrimmedText(vr: VrCode, s: string)
    requires vr == LT || vr == ST || vr == TM || vr == UC || vr == UT
    ensures Format(vr, Str(s)) == Str(RTrim(s))
  {
    assert Format(vr, Str(s)) == MapText(Str(s), RightTrimmedStr) == RightTrimmedStr(s);
  }

  // ---- read ------------------------------------------------------------------

  /** What `read` returns: the raw and formatted value, or for a fixed-length
      representation read with length 0 its bare default value. */
  datatype Outcome = Read(raw: JsValue, value: JsValue) | Bare(default: JsValue)

  /** The `defaultValue` fields; AT has none. */
  function DefaultValue(vr: VrCode): JsValue
  {
    match vr
    case AS => Str("")
    case FL => Num(0) case FD => Num(0)
    case SL => Num(0) case SS => Num(0) case UL => Num(0) case US => Num(0)
    case _ => Undefined
  }

  /** StreamValueRepresentation.read. The raw value is kept when the
      representation stores raw values or the options force it. */
  function ReadSpec(c: seq<byte>, vr: VrCode, length: Option<nat>, le: bool, decoder: string,
                    forceStoreRaw: bool, env: Env): (r: Parse<Outcome>)
    ensures r.Ok? ==> |r.value.1| <= |c|
  {
    if FixedWithLength(vr) && (length.None? || length == Some(0)) then Ok((Bare(DefaultValue(vr)), c))
    else
      var raw :- BytesOf(c, vr, length, le, decoder, env);
      Ok((Kept(vr, raw.0, forceStoreRaw), raw.1))
  }

  /** The raw and the formatted value, the raw one dropped unless it is stored. */
  function Kept(vr: VrCode, raw: JsValue, forceStoreRaw: bool): Outcome
  {
    Read(if StoresRaw(vr) || forceStoreRaw then raw else Undefined, Format(vr, raw))
  }

  /** A fixed-length value of length zero reads nothing and is its default. */
  lemma ZeroLengthFixedIsDefault(c: seq<byte>, vr: VrCode, le: bool, decoder: string, force: bool, env: Env)
    requires IsFixed(vr)
    ensures ReadSpec(c, vr, Some(0), le, decoder, force, env) == Ok((Bare(DefaultValue(vr)), c))
    ensures ReadSpec(c, vr, None, le, decoder, force, env) == Ok((Bare(DefaultValue(vr)), c))
  {
  }

  /** A fixed-width number is read at its own width whatever the length says. */
  lemma NumbersIgnoreLength(c: seq<byte>, vr: VrCode, a: nat, b: nat, le: bool, decoder: string, env: Env)
    requires IsBinary(vr)
    ensures BytesOf(c, vr, Some(a), le, decoder, env) == BytesOf(c, vr, Some(b), le, decoder, env)
  {
  }

  /** `read` as written: a fixed-length value whose length is neither 0 nor
      the maximum reaches `log.error`, and `log` is not declared in the
      module, so the read throws instead of logging and going on. */
  function ReadSpecAsWritten(c: seq<byte>, vr: VrCode, length: Option<nat>, le: bool, decoder: string,
                             forceStoreRaw: bool, env: Env): (r: Parse<Outcome>)
  {
    if FixedWithLength(vr) && length.Some? && length.value != 0 && length.value != MaxLengthOf(vr).n
    then Err(ReferenceError)
    else ReadSpec(c, vr, length, le, decoder, forceStoreRaw, env)
  }

  /** Two ages in one AS value, `045Y\046Y` and a padding space (length
      10), make the written read throw, where the intended read returns
      the ten characters. */
  lemma TwoAgesThrow(c: seq<byte>, le: bool, decoder: string, env: Env)
    requires 10 <= |c|
    ensures ReadSpecAsWritten(c, AS, Some(10), le, decoder, false, env) == Err(ReferenceError)
    ensures ReadSpec(c, AS, Some(10), le, decoder, false, env)
      == Ok((Read(Str(Ascii(c[..10])), Str(Ascii(c[..10]))), c[10..]))
  {
  }

  /** The written read differs from ReadSpec exactly on the mismatched
      fixed lengths. */
  lemma AsWrittenReadAgreesOtherwise(c: seq<byte>, vr: VrCode, length: Option<nat>, le: bool,
                                     decoder: string, force: bool, env: Env)
    ensures var mismatch := FixedWithLength(vr) && length.Some? && length.value != 0
                            && length.value != MaxLengthOf(vr).n;
      && (mismatch ==> ReadSpecAsWritten(c, vr, length, le, decoder, force, env) == Err(ReferenceError))
      && (!mismatch ==> ReadSpecAsWritten(c, vr, length, le, decoder, force, env)
                        == ReadSpec(c, vr, length, le, decoder, force, env))
  {
  }

  /** SQ never keeps its raw value unless the options force it. */
  lemma SequenceDropsRaw(c: seq<byte>, length: Option<nat>, le: bool, decoder: string, env: Env)
    ensures var r := ReadSpec(c, SQ, length, le, decoder, false, env);
      r.Ok? ==> r.value.0 == Read(Undefined, r.value.0.value)
  {
  }

  // ---- the reads on the stream -------------------------------------------------

  method ReadPaddedAscii(s: BufferStream, n: nat, pad: byte) returns (r: Result<string>)
    requires s.Valid()
    modifies s
    ensures s.Valid() && s.Follows(PaddedAscii(old(s.Contents()), n, pad), r)
  {
    if n == 0 {
      return Ok("");
    }
    var p := s.PeekUint8(n - 1);
    if p.Err? {
      return Err(p.error);
    }
    if p.value != pad {
      r := s.ReadAsciiString(n);
    } else {
      r := ReadDroppingLast(s, n);
    }
  }

  /** The first `n - 1` of the next `n` bytes as ASCII, all `n` consumed. */
  method ReadDroppingLast(s: BufferStream, n: nat) returns (r: Result<string>)
    requires s.Valid() && 0 < n
    modifies s
    ensures s.Valid() && s.Took(n, r.Ok?)
    ensures r.Ok? ==> r.value == Ascii(old(s.Contents())[..n - 1])
  {
    ghost var c := s.Contents();
    var t := s.ReadAsciiString(n - 1);
    if t.Err? { return t; }
    ghost var c2 := s.Contents();
    var i := s.Increment(1);
    if i.Err? { return Err(i.error); }
    assert s.Contents() == c2[1..] == c[n..];
    r := t;
  }

  method ReadPaddedEncoded(s: BufferStream, n: nat, pad: byte, decode: Decoder) returns (r: Result<string>)
    requires s.Valid()
    modifies s
    ensures s.Valid() && s.Follows(PaddedEncoded(old(s.Contents()), n, pad, old(s.decoder), decode), r)
  {
    if n == 0 {
      return Ok("");
    }
    var t := s.ReadEncodedString(n, decode);
    if t.Err? { return Err(t.error); }
    var v := t.value;
    if v != [] && v[|v| - 1] != pad as char {
      r := Ok(v);
    } else {
      r := Ok(if v == [] then v else v[..|v| - 1]);
    }
  }

  method ReadNumber(s: BufferStream, vr: VrCode) returns (r: Result<JsValue>)
    requires s.Valid() && IsBinary(vr)
    modifies s
    ensures s.Valid() && s.Follows(NumberBytes(old(s.Contents()), vr, old(s.isLittleEndian)), r)
  {
    match vr
    case AT =>
      var t := ReadTag(s);
      if t.Err? { return Err(t.error); }
      r := Ok(Num(t.value));
    case FL =>
      var b := s.ReadFloatBytes(4);
      if b.Err? { return Err(b.error); }
      r := Ok(FloatBits(b.value));
    case FD =>
      var b := s.ReadFloatBytes(8);
      if b.Err? { return Err(b.error); }
      r := Ok(FloatBits(b.value));
    case SL =>
      var x := s.ReadInt32();
      if x.Err? { return Err(x.error); }
      r := Ok(Num(x.value));
    case SS =>
      var x := s.ReadInt16();
      if x.Err? { return Err(x.error); }
      r := Ok(Num(x.value));
    case UL =>
      var x := s.ReadUint32();
      if x.Err? { return Err(x.error); }
      r := Ok(Num(x.value));
    case US =>
      var x := s.ReadUint16();
      if x.Err? { return Err(x.error); }
      r := Ok(Num(x.value));
  }

  method ReadSplitAscii(s: BufferStream, vr: VrCode, n: nat, env: Env) returns (r: Result<JsValue>)
    requires s.Valid()
    modifies s
    ensures s.Valid()
    ensures s.Follows(
      var t :- AsciiText(old(s.Contents()), n);
      Ok((Strs(env.dropPadByte(vr, Split(t.0, VM_DELIMITER))), t.1)), r)
  {
    var t := s.ReadAsciiString(n);
    if t.Err? { return Err(t.error); }
    r := Ok(Strs(env.dropPadByte(vr, Split(t.value, VM_DELIMITER))));
  }

  method ReadText(s: BufferStream, vr: VrCode, n: nat, env: Env) returns (r: Result<JsValue>)
    requires s.Valid() && !IsBinary(vr) && !NoMultiple(vr)
    modifies s
    ensures s.Valid() && s.Follows(TextBytes(old(s.Contents()), vr, n, old(s.decoder), env), r)
  {
    if vr == CS || vr == DS || vr == IS {
      r := ReadSplitAscii(s, vr, n, env);
    } else if vr == PN {
      r := ReadPersonName(s, n, env);
    } else if vr == UI {
      r := ReadUid(s, n, env);
    } else {
      r := ReadSingleText(s, vr, n, env);
    }
  }

  /** PN: the encoded text split at backslashes. */
  method ReadPersonName(s: BufferStream, n: nat, env: Env) returns (r: Result<JsValue>)
    requires s.Valid()
    modifies s
    ensures s.Valid() && s.Follows(TextBytes(old(s.Contents()), PN, n, old(s.decoder), env), r)
  {
    var t := ReadPaddedEncoded(s, n, PadByte(PN), env.decode);
    if t.Err? { return Err(t.error); }
    r := Ok(Strs(Split(t.value, VM_DELIMITER)));
  }

  /** UI: one string, or the split strings with their padding dropped. */
  method ReadUid(s: BufferStream, n: nat, env: Env) returns (r: Result<JsValue>)
    requires s.Valid()
    modifies s
    ensures s.Valid() && s.Follows(TextBytes(old(s.Contents()), UI, n, old(s.decoder), env), r)
  {
    var t := ReadPaddedAscii(s, n, PadByte(UI));
    if t.Err? { return Err(t.error); }
    if VM_DELIMITER !in t.value {
      r := Ok(Str(t.value));
    } else {
      r := Ok(Strs(env.dropPadByte(UI, Split(t.value, VM_DELIMITER))));
    }
  }

  /** The representations read as a single string, encoded or ASCII. */
  method ReadSingleText(s: BufferStream, vr: VrCode, n: nat, env: Env) returns (r: Result<JsValue>)
    requires s.Valid() && !IsBinary(vr) && !NoMultiple(vr) && vr !in {CS, DS, IS, PN, UI}
    modifies s
    ensures s.Valid() && s.Follows(TextBytes(old(s.Contents()), vr, n, old(s.decoder), env), r)
  {
    if vr in {LO, LT, SH, ST, UC, UT} {
      var t := s.ReadEncodedString(n, env.decode);
      if t.Err? { return Err(t.error); }
      r := Ok(Str(t.value));
    } else {
      var t := s.ReadAsciiString(n);
      if t.Err? { return Err(t.error); }
      r := Ok(Str(t.value));
    }
  }

  /** readBytes of the numeric, sequence and binary representations; the
      text environment plays no part in them. */
  method ReadNonText(s: BufferStream, vr: VrCode, length: Option<nat>, env: Env) returns (r: Result<JsValue>)
    requires s.Valid() && (IsBinary(vr) || NoMultiple(vr))
    modifies s
    ensures s.Valid()
    ensures s.Follows(BytesOf(old(s.Contents()), vr, length, old(s.isLittleEndian), old(s.decoder), env), r)
  {
    ghost var c := s.Contents();
    ghost var le := s.isLittleEndian;
    var n := if length.Some? then length.value else 0;
    if IsBinary(vr) {
      r := ReadNumber(s, vr);
    } else if vr == SQ {
      ghost var spec := SequenceBytes(c, le, length);
      var items := ReadSequence(s, length);
      if items.Err? {
        assert BytesOf(c, vr, length, le, s.decoder, env) == Err(spec.error);
        return Err(items.error);
      }
      assert BytesOf(c, vr, length, le, s.decoder, env) == Ok((ItemsValue(items.value), spec.value.1));
      r := Ok(ItemsValue(items.value));
    } else {
      ghost var spec := BinaryBytes(c, le, n);
      var frames := ReadBinaryBytes(s, n);
      if frames.Err? {
        assert BytesOf(c, vr, length, le, s.decoder, env) == Err(spec.error);
        return Err(frames.error);
      }
      assert BytesOf(c, vr, length, le, s.decoder, env) == Ok((FramesValue(frames.value), spec.value.1));
      r := Ok(FramesValue(frames.value));
    }
  }

  method ReadBytes(s: BufferStream, vr: VrCode, length: Option<nat>, env: Env) returns (r: Result<JsValue>)
    requires s.Valid()
    modifies s
    ensures s.Valid()
    ensures s.Follows(BytesOf(old(s.Contents()), vr, length, old(s.isLittleEndian), old(s.decoder), env), r)
  {
    if IsBinary(vr) || NoMultiple(vr) {
      r := ReadNonText(s, vr, length, env);
    } else {
      var n := if length.Some? then length.value else 0;
      r := ReadText(s, vr, n, env);
    }
  }

  /** StreamValueRepresentation.read on the stream. */
  method ReadValue(s: BufferStream, vr: VrCode, length: Option<nat>, forceStoreRaw: bool, env: Env)
    returns (r: Result<Outcome>)
    requires s.Valid()
    modifies s
    ensures s.Valid()
    ensures s.Follows(ReadSpec(old(s.Contents()), vr, length, old(s.isLittleEndian), old(s.decoder), forceStoreRaw, env), r)
  {
    if FixedWithLength(vr) && (length.None? || length == Some(0)) {
      return Ok(Bare(DefaultValue(vr)));
    }
    var raw := ReadBytes(s, vr, length, env);
    if raw.Err? { return Err(raw.error); }
    r := Ok(Kept(vr, raw.value, forceStoreRaw));
  }
}
