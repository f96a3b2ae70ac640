/** Bytes, the failure type shared by every reader, and the fixed-width
    integer codecs the byte stream uses. */
module Bytes {

  type byte = b: int | 0 <= b < 256

  datatype Option<+T> = None | Some(value: T)

  /** Why a read fails. Each variant stands for one exception the decoder throws. */
  datatype Error =
    | EndOfStream(wanted: nat)        // "Stream ended before reading n bytes"
    | ItemTagNotFound                 // readFrame: no item tag after the header
    | DelimiterLengthNotZero          // "SequenceDelimiterItem tag value was not zero"
    | InvalidTagInSequence            // "Invalid tag in sequence"
    | FrameIndexOutOfRange(index: int)
    | MissingMagic                    // "expected header is missing"
    | MalformedMetaLength             // "meta length tag is malformed or not present"
    | DeflatedUnsupported
    | UnsupportedCharacterSet(coding: string)
    | MultipleCharacterSets
    | TypeError                       // a JavaScript TypeError (destructuring or splitting undefined)
    | UnknownVrReparse                // the re-decoding of a UN value through its dictionary VR
    | ReferenceError                  // a JavaScript ReferenceError (an identifier that is not declared)

  datatype Result<+T> = Ok(value: T) | Err(error: Error) {
    predicate IsFailure() { Err? }
    function PropagateFailure<U>(): Result<U> requires Err? { Err(error) }
    function Extract(): T requires Ok? { value }
  }

  const UINT16: nat := 0x1_0000
  const UINT32: nat := 0x1_0000_0000

  /** The bytes of a sequence of chunks, in order. */
  function Concat(chunks: seq<seq<byte>>): (r: seq<byte>)
    decreases |chunks|
  {
    if chunks == [] then [] else chunks[0] + Concat(chunks[1..])
  }

  lemma {:induction false} ConcatAppend(chunks: seq<seq<byte>>, c: seq<byte>)
    ensures Concat(chunks + [c]) == Concat(chunks) + c
    decreases |chunks|
  {
    if chunks == [] {
      assert [] + [c] == [c];
    } else {
      assert (chunks + [c])[1..] == chunks[1..] + [c];
      ConcatAppend(chunks[1..], c);
    }
  }

  /** An unsigned 16-bit integer from two bytes, least significant first iff `le`. */
  function Uint16(b: seq<byte>, le: bool): (v: nat)
    requires |b| == 2
    ensures v < UINT16
  {
    var b0, b1: int := b[0], b[1];
    if le then b0 + 256 * b1 else 256 * b0 + b1
  }

  /** An unsigned 32-bit integer from four bytes, least significant first iff `le`. */
  function Uint32(b: seq<byte>, le: bool): (v: nat)
    requires |b| == 4
    ensures v < UINT32
  {
    var b0, b1, b2, b3: int := b[0], b[1], b[2], b[3];
    if le then b0 + 256 * (b1 + 256 * (b2 + 256 * b3))
    else b3 + 256 * (b2 + 256 * (b1 + 256 * b0))
  }

  /** Two's complement reading of a 16-bit pattern. */
  function Int16(b: seq<byte>, le: bool): (v: int)
    requires |b| == 2
    ensures -0x8000 <= v < 0x8000
    ensures (v - Uint16(b, le)) % UINT16 == 0
    ensures v < 0 <==> Uint16(b, le) >= 0x8000
  {
    var u := Uint16(b, le);
    if u >= 0x8000 then u - UINT16 else u
  }

  /** Two's complement reading of a 32-bit pattern. */
  function Int32(b: seq<byte>, le: bool): (v: int)
    requires |b| == 4
    ensures -0x8000_0000 <= v < 0x8000_0000
    ensures (v - Uint32(b, le)) % UINT32 == 0
    ensures v < 0 <==> Uint32(b, le) >= 0x8000_0000
  {
    var u := Uint32(b, le);
    if u >= 0x8000_0000 then u - UINT32 else u
  }

  /** Reference encoders: the bytes a 16- or 32-bit value is written as. */
  function Encode16(v: nat, le: bool): (b: seq<byte>)
    requires v < UINT16
    ensures |b| == 2
  {
    var lo, hi := v % 256, v / 256;
    if le then [lo, hi] else [hi, lo]
  }

  function Encode32(v: nat, le: bool): (b: seq<byte>)
    requires v < UINT32
    ensures |b| == 4
  {
    var b0, b1, b2, b3 := v % 256, (v / 256) % 256, (v / 65536) % 256, v / 16777216;
    if le then [b0, b1, b2, b3] else [b3, b2, b1, b0]
  }

  lemma Uint16RoundTrip(v: nat, le: bool)
    requires v < UINT16
    ensures Uint16(Encode16(v, le), le) == v
  {
  }

  lemma Encode16RoundTrip(b: seq<byte>, le: bool)
    requires |b| == 2
    ensures Encode16(Uint16(b, le), le) == b
  {
    var v := Uint16(b, le);
    var lo, hi: int := if le then b[0] else b[1], if le then b[1] else b[0];
    assert v == lo + 256 * hi;
    assert v % 256 == lo && v / 256 == hi;
  }

  lemma Uint32RoundTrip(v: nat, le: bool)
    requires v < UINT32
    ensures Uint32(Encode32(v, le), le) == v
  {
    var q1 := v / 256;
    var q2 := q1 / 256;
    var q3 := q2 / 256;
    assert v == v % 256 + 256 * q1;
    assert q1 == q1 % 256 + 256 * q2;
    assert q2 == q2 % 256 + 256 * q3;
    assert q3 < 256;
    assert v / 65536 == q2;
    assert v / 16777216 == q3;
  }

  /** The base-256 digits of a 32-bit value. */
  lemma Digits32(b0: int, b1: int, b2: int, b3: int)
    requires 0 <= b0 < 256 && 0 <= b1 < 256 && 0 <= b2 < 256 && 0 <= b3 < 256
    ensures var v := b0 + 256 * (b1 + 256 * (b2 + 256 * b3));
      v % 256 == b0 && (v / 256) % 256 == b1 && (v / 65536) % 256 == b2 && v / 16777216 == b3
  {
    var t2 := b2 + 256 * b3;
    var t1 := b1 + 256 * t2;
    var v := b0 + 256 * t1;
    assert v % 256 == b0 && v / 256 == t1;
    assert t1 % 256 == b1 && t1 / 256 == t2;
    assert t2 % 256 == b2 && t2 / 256 == b3;
    assert v / 65536 == t2 by {
      assert v == (b0 + 256 * b1) + 65536 * t2;
    }
    assert v / 16777216 == b3 by {
      assert v == (b0 + 256 * b1 + 65536 * b2) + 16777216 * b3;
    }
  }

  lemma Encode32RoundTrip(b: seq<byte>, le: bool)
    requires |b| == 4
    ensures Encode32(Uint32(b, le), le) == b
  {
    if le {
      Digits32(b[0], b[1], b[2], b[3]);
    } else {
      Digits32(b[3], b[2], b[1], b[0]);
    }
  }

  /** The two byte orders read the same bytes reversed. */
  lemma Uint32ByteOrder(b: seq<byte>)
    requires |b| == 4
    ensures Uint32(b, false) == Uint32([b[3], b[2], b[1], b[0]], true)
  {
  }

}
