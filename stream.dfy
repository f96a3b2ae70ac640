/** The chunked byte reader. The Node read stream it wraps is modelled as
    the sequence of chunks it has still to deliver; every wait for a 'data'
    event becomes a pull of the next chunk, and the 'end' event arrives once
    the last chunk has been delivered. */
module ByteStream {
  import opened Bytes

  /** The buffer a read has gathered and the chunks still to come. */
  datatype Gathered = Gathered(buffer: seq<byte>, pending: seq<seq<byte>>)

  /** Pull chunks onto `buffer` until it holds at least `n` bytes or no chunk is left. */
  function Pull(buffer: seq<byte>, pending: seq<seq<byte>>, n: nat): (g: Gathered)
    ensures g.buffer + Concat(g.pending) == buffer + Concat(pending)
    ensures |g.buffer| < n ==> g.pending == []
    decreases |pending|
  {
    if n <= |buffer| || pending == [] then Gathered(buffer, pending)
    else
      var g := Pull(buffer + pending[0], pending[1..], n);
      assert buffer + Concat(pending) == (buffer + pending[0]) + Concat(pending[1..]);
      g
  }

  /** What a pull means for the byte sequence as a whole: a successful one
      splits it after `n` bytes, a failed one saw all of it. */
  lemma PullSplits(buffer: seq<byte>, pending: seq<seq<byte>>, n: nat)
    ensures var g := Pull(buffer, pending, n);
      var all := buffer + Concat(pending);
      if n <= |g.buffer| then
        n <= |all| && g.buffer[..n] == all[..n] && g.buffer[n..] + Concat(g.pending) == all[n..]
      else
        |all| < n && g.buffer == all && g.pending == []
  {
    var g := Pull(buffer, pending, n);
    var all := buffer + Concat(pending);
    assert all == g.buffer + Concat(g.pending);
    if n <= |g.buffer| {
      assert g.buffer == g.buffer[..n] + g.buffer[n..];
      assert all[..n] == g.buffer[..n];
      assert all[n..] == g.buffer[n..] + Concat(g.pending);
    } else {
      assert g.pending == [];
      assert all == g.buffer + [];
    }
  }

  /** A read past the buffer with at most one chunk to come pulls that chunk. */
  lemma PullTakesTheLastChunk(buffer: seq<byte>, pending: seq<seq<byte>>, n: nat)
    requires |pending| <= 1 && |buffer| < n
    ensures Pull(buffer, pending, n).pending == []
  {
    if pending != [] {
      assert pending[1..] == [];
    }
  }

  /** Node's 'ascii' decoding: the high bit of every byte is cleared. */
  function Ascii(bs: seq<byte>): (s: string)
    ensures |s| == |bs|
    ensures forall i :: 0 <= i < |bs| ==> s[i] as int == bs[i] % 128
  {
    seq(|bs|, i requires 0 <= i < |bs| => (bs[i] % 128) as char)
  }

  predicate IsSuffix<T(==)>(a: seq<T>, b: seq<T>) {
    |a| <= |b| && a == b[|b| - |a|..]
  }

  predicate IsPrefix<T(==)>(a: seq<T>, b: seq<T>) {
    |a| <= |b| && a == b[..|a|]
  }

  /** A text decoder: the decoded text of some bytes under an encoding label.
      TextDecoder itself is not part of this model. */
  type Decoder = (string, seq<byte>) -> string

  class BufferStream {
    var remaining: seq<byte>
    var pending: seq<seq<byte>>
    var isStreamEnded: bool
    var isLittleEndian: bool
    var decoder: string

    /** Chunks are never empty, and the end has been signalled once no chunk is left. */
    ghost predicate Valid()
      reads this
    {
      && (forall i :: 0 <= i < |pending| ==> |pending[i]| > 0)
      && (isStreamEnded <==> pending == [])
    }

    /** Every byte the stream will still hand out, in order. */
    ghost function Contents(): seq<byte>
      reads this
    {
      remaining + Concat(pending)
    }

    /** A read of `n` bytes left the cursor state alone and, when `ok`,
        consumed exactly the first `n` bytes; it fails only when fewer than
        `n` bytes were left, and then the source has ended. No chunk is
        pulled once none is pending. */
    twostate predicate Took(n: nat, ok: bool)
      reads this
    {
      && isLittleEndian == old(isLittleEndian)
      && decoder == old(decoder)
      && (old(pending) == [] ==> pending == [])
      && (ok <==> n <= |old(Contents())|)
      && (ok ==> Contents() == old(Contents())[n..])
      && (!ok ==> pending == [] && |Contents()| < n && |Contents()| <= |old(Contents())|)
    }

    /** After a failed single read only the bytes that were buffered before
        it are left, which is all of them if no chunk was pending: the chunks
        it pulled are lost. */
    twostate predicate KeptBuffered(ok: bool)
      reads this
    {
      && (!ok ==> IsPrefix(Contents(), old(Contents())))
      && (!ok && old(pending) == [] ==> Contents() == old(Contents()))
    }

    /** A read followed the pure parse `spec` of the bytes it started from: on
        success it returned the parsed value and left exactly the bytes after
        it, on failure it failed with the same error. */
    twostate predicate Follows<T>(new spec: Result<(T, seq<byte>)>, new r: Result<T>)
      reads this
    {
      && isLittleEndian == old(isLittleEndian)
      && decoder == old(decoder)
      && (old(pending) == [] ==> pending == [])
      && (spec.Ok? ==> r == Ok(spec.value.0) && Contents() == spec.value.1)
      && (spec.Err? ==> r == Err(spec.error))
    }

    constructor (chunks: seq<seq<byte>>, littleEndian: bool)
      requires forall i :: 0 <= i < |chunks| ==> |chunks[i]| > 0
      ensures Valid()
      ensures remaining == [] && pending == chunks && Contents() == Concat(chunks)
      ensures isLittleEndian == littleEndian && decoder == "latin1"
    {
      remaining := [];
      pending := chunks;
      isStreamEnded := chunks == [];
      isLittleEndian := littleEndian;
      decoder := "latin1";
    }

    /** The 'data' handler of readNBytes: pull chunks onto `chunks` until
        `bytesRead` reaches n or the source ends. */
    method Gather(n: nat) returns (buffer: seq<byte>)
      requires Valid()
      modifies this`pending, this`isStreamEnded
      ensures Valid()
      ensures Gathered(buffer, pending) == Pull(remaining, old(pending), n)
    {
      var chunks := [remaining];
      var bytesRead := |remaining|;
      assert Concat(chunks) == remaining;
      while bytesRead < n && pending != []
        invariant Valid()
        invariant bytesRead == |Concat(chunks)|
        invariant Pull(Concat(chunks), pending, n) == Pull(remaining, old(pending), n)
        decreases |pending|
      {
        var chunk := pending[0];
        pending := pending[1..];
        isStreamEnded := pending == [];
        ConcatAppend(chunks, chunk);
        chunks := chunks + [chunk];
        bytesRead := bytesRead + |chunk|;
      }
      buffer := Concat(chunks);
    }

    method ReadNBytes(n: nat) returns (r: Result<seq<byte>>)
      requires Valid()
      modifies this
      ensures Valid() && Took(n, r.Ok?) && KeptBuffered(r.Ok?)
      ensures var g := Pull(old(remaining), old(pending), n);
        if n <= |g.buffer| then r == Ok(g.buffer[..n]) && remaining == g.buffer[n..] && pending == g.pending
        else r == Err(EndOfStream(n)) && remaining == old(remaining) && pending == []
      ensures r.Ok? ==> r.value == old(Contents())[..n]
      ensures r.Err? ==> r.error == EndOfStream(n)
      ensures n <= |old(remaining)| ==> pending == old(pending) && remaining == old(remaining)[n..]
      ensures |old(remaining)| < n && |old(pending)| <= 1 ==> pending == []
    {
      ghost var all := Contents();
      if |remaining| >= n {
        r := Ok(remaining[..n]);
        assert all[..n] == old(remaining)[..n];
        remaining := remaining[n..];
        assert Contents() == all[n..];
        return;
      }
      PullSplits(remaining, pending, n);
      if |pending| <= 1 {
        PullTakesTheLastChunk(remaining, pending, n);
      }
      var buffer := Gather(n);
      if |buffer| < n {
        r := Err(EndOfStream(n));
        assert Contents() == old(remaining);
        return;
      }
      assert buffer[..n] == all[..n];
      r := Ok(buffer[..n]);
      remaining := buffer[n..];
      assert Contents() == all[n..];
    }

    method ReadToEnd() returns (r: seq<byte>)
      requires Valid()
      modifies this
      ensures Valid()
      ensures r == old(Contents())
      ensures remaining == [] && pending == [] && Contents() == []
      ensures isLittleEndian == old(isLittleEndian) && decoder == old(decoder)
    {
      var chunks := [remaining];
      assert Concat(chunks) == remaining;
      while pending != []
        invariant Valid()
        invariant isLittleEndian == old(isLittleEndian) && decoder == old(decoder)
        invariant Concat(chunks) + Concat(pending) == old(Contents())
        decreases |pending|
      {
        var chunk := pending[0];
        ConcatAppend(chunks, chunk);
        assert Concat(pending) == chunk + Concat(pending[1..]);
        chunks := chunks + [chunk];
        pending := pending[1..];
        isStreamEnded := pending == [];
      }
      r := Concat(chunks);
      remaining := [];
    }

    method ReadUint16() returns (r: Result<nat>)
      requires Valid()
      modifies this
      ensures Valid() && Took(2, r.Ok?) && KeptBuffered(r.Ok?)
      ensures r.Ok? ==> r.value == Uint16(old(Contents())[..2], isLittleEndian)
      ensures r.Err? ==> r.error == EndOfStream(2)
    {
      var b := ReadNBytes(2);
      if b.Err? { return Err(b.error); }
      r := Ok(Uint16(b.value, isLittleEndian));
    }

    method ReadUint32() returns (r: Result<nat>)
      requires Valid()
      modifies this
      ensures Valid() && Took(4, r.Ok?) && KeptBuffered(r.Ok?)
      ensures r.Ok? ==> r.value == Uint32(old(Contents())[..4], isLittleEndian)
      ensures r.Err? ==> r.error == EndOfStream(4)
    {
      var b := ReadNBytes(4);
      if b.Err? { return Err(b.error); }
      r := Ok(Uint32(b.value, isLittleEndian));
    }

    method ReadInt16() returns (r: Result<int>)
      requires Valid()
      modifies this
      ensures Valid() && Took(2, r.Ok?) && KeptBuffered(r.Ok?)
      ensures r.Ok? ==> r.value == Int16(old(Contents())[..2], isLittleEndian)
      ensures r.Err? ==> r.error == EndOfStream(2)
    {
      var b := ReadNBytes(2);
      if b.Err? { return Err(b.error); }
      r := Ok(Int16(b.value, isLittleEndian));
    }

    method ReadInt32() returns (r: Result<int>)
      requires Valid()
      modifies this
      ensures Valid() && Took(4, r.Ok?) && KeptBuffered(r.Ok?)
      ensures r.Ok? ==> r.value == Int32(old(Contents())[..4], isLittleEndian)
      ensures r.Err? ==> r.error == EndOfStream(4)
    {
      var b := ReadNBytes(4);
      if b.Err? { return Err(b.error); }
      r := Ok(Int32(b.value, isLittleEndian));
    }

    /** The raw bytes of a 4- or 8-byte float; their numeric value is not modelled. */
    method ReadFloatBytes(width: nat) returns (r: Result<seq<byte>>)
      requires Valid()
      modifies this
      ensures Valid() && Took(width, r.Ok?) && KeptBuffered(r.Ok?)
      ensures r.Ok? ==> r.value == old(Contents())[..width]
      ensures r.Err? ==> r.error == EndOfStream(width)
    {
      r := ReadNBytes(width);
    }

    method ReadVR() returns (r: Result<string>)
      requires Valid()
      modifies this
      ensures Valid() && Took(2, r.Ok?) && KeptBuffered(r.Ok?)
      ensures r.Ok? ==> r.value == Ascii(old(Contents())[..2])
      ensures r.Err? ==> r.error == EndOfStream(2)
    {
      var b := ReadNBytes(2);
      if b.Err? { return Err(b.error); }
      r := Ok(Ascii(b.value));
    }

    method ReadAsciiString(length: nat) returns (r: Result<string>)
      requires Valid()
      modifies this
      ensures Valid() && Took(length, r.Ok?) && KeptBuffered(r.Ok?)
      ensures r.Ok? ==> r.value == Ascii(old(Contents())[..length])
      ensures r.Err? ==> r.error == EndOfStream(length)
    {
      var b := ReadNBytes(length);
      if b.Err? { return Err(b.error); }
      r := Ok(Ascii(b.value));
    }

    method ReadEncodedString(length: nat, decode: Decoder) returns (r: Result<string>)
      requires Valid()
      modifies this
      ensures Valid() && Took(length, r.Ok?) && KeptBuffered(r.Ok?)
      ensures r.Ok? ==> r.value == decode(decoder, old(Contents())[..length])
      ensures r.Err? ==> r.error == EndOfStream(length)
    {
      var b := ReadNBytes(length);
      if b.Err? { return Err(b.error); }
      r := Ok(decode(decoder, b.value));
    }

    method SetEndian(littleEndian: bool)
      requires Valid()
      modifies this
      ensures Valid() && GetEndian() == littleEndian
      ensures remaining == old(remaining) && pending == old(pending) && decoder == old(decoder)
    {
      isLittleEndian := littleEndian;
    }

    function GetEndian(): (le: bool)
      reads this
    {
      isLittleEndian
    }

    method SetDecoder(name: string)
      requires Valid()
      modifies this
      ensures Valid() && decoder == name
      ensures remaining == old(remaining) && pending == old(pending) && isLittleEndian == old(isLittleEndian)
    {
      decoder := name;
    }

    method Increment(n: nat) returns (r: Result<()>)
      requires Valid()
      modifies this
      ensures Valid() && Took(n, r.Ok?) && KeptBuffered(r.Ok?)
      ensures r.Err? ==> r.error == EndOfStream(n)
      ensures |old(remaining)| < n && |old(pending)| <= 1 ==> pending == []
    {
      var b := ReadNBytes(n);
      if b.Err? { return Err(b.error); }
      r := Ok(());
    }

    /** end(): the source has signalled its end and nothing is buffered. */
    function End(): (atEnd: bool)
      reads this
      ensures Valid() ==> (atEnd <==> Contents() == [])
    {
      isStreamEnded && |remaining| == 0
    }

    /** Byte `offset` ahead of the cursor, as peekUint8 is written: when it is
        not yet buffered, the remainder is replaced by just the first
        offset + 1 bytes, so the bytes a pulled chunk held beyond them are
        dropped. */
    method PeekUint8AsWritten(offset: nat) returns (r: Result<byte>)
      requires Valid()
      modifies this
      ensures Valid()
      ensures isLittleEndian == old(isLittleEndian) && decoder == old(decoder)
      ensures old(pending) == [] ==> pending == []
      ensures offset < |old(remaining)| ==>
        r == Ok(old(remaining)[offset]) && remaining == old(remaining) && pending == old(pending)
      ensures r.Ok? <==> offset < |old(Contents())|
      ensures r.Ok? ==> r.value == old(Contents())[offset]
      ensures r.Ok? ==> offset < |Contents()|
      ensures r.Ok? ==> Contents()[..offset + 1] == old(Contents())[..offset + 1]
      ensures r.Ok? ==> IsSuffix(Contents()[offset + 1..], old(Contents())[offset + 1..])
      ensures |old(remaining)| <= offset && r.Ok? ==>
        var g := Pull(old(remaining), old(pending), offset + 1);
        remaining == g.buffer[..offset + 1] && pending == g.pending
      ensures r.Err? ==> Contents() == old(remaining) && r.error == EndOfStream(offset + 1)
    {
      if |remaining| > offset {
        return Ok(remaining[offset]);
      }
      ghost var g := Pull(remaining, pending, offset + 1);
      ghost var before := Contents();
      var b := ReadNBytes(offset + 1);
      if b.Err? { return Err(b.error); }
      assert g.buffer + Concat(g.pending) == before;
      remaining := b.value;
      r := Ok(b.value[offset]);
      assert Contents() == before[..offset + 1] + Concat(g.pending);
    }

    /** Byte `offset` ahead of the cursor, as peekUint8 is meant to work: a
        peek past the buffer pulls chunks and keeps every byte they held, so a
        successful peek leaves the stream's bytes as they were. */
    method PeekUint8(offset: nat) returns (r: Result<byte>)
      requires Valid()
      modifies this
      ensures Valid()
      ensures isLittleEndian == old(isLittleEndian) && decoder == old(decoder)
      ensures old(pending) == [] ==> pending == []
      ensures offset < |old(remaining)| ==>
        r == Ok(old(remaining)[offset]) && remaining == old(remaining) && pending == old(pending)
      ensures r.Ok? <==> offset < |old(Contents())|
      ensures r.Ok? ==> r.value == old(Contents())[offset] && Contents() == old(Contents())
      ensures |old(remaining)| <= offset && r.Ok? ==>
        var g := Pull(old(remaining), old(pending), offset + 1);
        remaining == g.buffer && pending == g.pending
      ensures r.Err? ==> Contents() == old(remaining) && r.error == EndOfStream(offset + 1)
    {
      if |remaining| > offset {
        return Ok(remaining[offset]);
      }
      ghost var g := Pull(remaining, pending, offset + 1);
      ghost var before := Contents();
      var b := ReadNBytes(offset + 1);
      if b.Err? { return Err(b.error); }
      remaining := b.value + remaining;
      assert remaining == g.buffer;
      r := Ok(b.value[offset]);
      assert Contents() == before[..offset + 1] + before[offset + 1..];
    }
  }

  /** A stream whose one chunk is "123": peeking at its first byte with the
      peek as written leaves only "1" to be read, the corrected peek leaves
      all three bytes. */
  method PeekAtAChunk() returns (asWritten: seq<byte>, corrected: seq<byte>)
    ensures asWritten == [0x31] && corrected == [0x31, 0x32, 0x33]
  {
    var s := new BufferStream([[0x31, 0x32, 0x33]], true);
    assert Concat([[0x31, 0x32, 0x33]]) == [0x31, 0x32, 0x33];
    var p := s.PeekUint8AsWritten(0);
    assert s.pending == [];
    asWritten := s.remaining;
    var t := new BufferStream([[0x31, 0x32, 0x33]], true);
    var q := t.PeekUint8(0);
    assert t.pending == [];
    corrected := t.remaining;
  }
}
