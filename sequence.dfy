/** The value of an SQ element: the bytes of each item. An item of defined
    length is read whole; an item of undefined length is scanned word by word,
    counting nested undefined-length items, until the item delimiter that
    closes it. The items' own datasets are parsed by dcmjs's synchronous
    reader, which is not part of this model, so an item is its bytes. */
module Sequences {
  import opened Bytes
  import opened ByteStream
  import opened Tags
  import opened Wire
  import opened Encapsulated

  /** The eight bytes of a closing item delimiter as the scan re-encodes them. */
  const CLOSING_DELIMITER: seq<byte> := [0xFE, 0xFF, 0x0D, 0xE0, 0, 0, 0, 0]

  /** The scan of an undefined-length item. Every 16-bit word is appended to
      `temp` re-encoded least significant byte first; after a 0xFFFE group
      word the element word and a 32-bit length follow. A delimiter of zero
      length closes one level, an item of undefined length opens one, and the
      scan ends once the level drops below zero, returning the buffer with that
      delimiter at its end. */
  function Scan(c: seq<byte>, le: bool, stack: int, temp: seq<byte>): (r: Parse<seq<byte>>)
    ensures r.Ok? ==> |temp| + 8 <= |r.value.0| && r.value.0[..|temp|] == temp
    ensures r.Ok? ==> |r.value.1| + 8 <= |c|
    decreases |c|
  {
    var g :- U16(c, le);
    if g.0 == 0xFFFE then
      var m :- MarkerOf(g.1, le);
      var (ge, n) := m.0;
      var next := Marker(temp, ge, n);
      if Closes(ge, n) && stack - 1 < 0 then Ok((next, m.1))
      else
        var r := Scan(m.1, le, Level(stack, ge, n), next);
        assert r.Ok? ==> r.value.0[..|temp|] == next[..|temp|];
        r
    else
      var next := temp + Encode16(g.0, true);
      var r := Scan(g.1, le, stack, next);
      assert r.Ok? ==> r.value.0[..|temp|] == next[..|temp|];
      r
  }

  /** The element word and the 32-bit length after a 0xFFFE group word. */
  function MarkerOf(c: seq<byte>, le: bool): (r: Parse<(nat, nat)>)
    ensures r.Ok? <==> 6 <= |c|
    ensures r.Ok? ==> r.value.0.0 < UINT16 && r.value.0.1 < UINT32
    ensures r.Ok? ==> r.value.0 == (Uint16(c[..2], le), Uint32(c[2..6], le)) && r.value.1 == c[6..]
    ensures r.Err? ==> r.error == (if |c| < 2 then EndOfStream(2) else EndOfStream(4))
  {
    var ge :- U16(c, le);
    var n :- U32(ge.1, le);
    assert ge.1[..4] == c[2..6];
    Ok(((ge.0, n.0), n.1))
  }

  /** A zero-length item delimiter closes one nesting level. */
  predicate Closes(ge: nat, length: nat)
  {
    ge == 0xE00D && length == 0
  }

  /** The nesting level after a marker: down at a closing delimiter, up at an
      item of undefined length. */
  function Level(stack: int, ge: nat, length: nat): int
  {
    if Closes(ge, length) then stack - 1
    else if ge == 0xE000 && length == UNDEFINED_LENGTH then stack + 1
    else stack
  }

  /** `temp` followed by a marker's eight bytes, re-encoded least significant first. */
  function Marker(temp: seq<byte>, ge: nat, length: nat): (next: seq<byte>)
    requires ge < UINT16 && length < UINT32
    ensures |next| == |temp| + 8 && next[..|temp|] == temp
    ensures Closes(ge, length) ==> next[|temp|..] == CLOSING_DELIMITER
  {
    var next := temp + [0xFE, 0xFF] + Encode16(ge, true) + Encode32(length, true);
    assert next[|temp|..] == [0xFE, 0xFF] + Encode16(ge, true) + Encode32(length, true);
    next
  }

  /** Where one round of the item loop leaves it: finished with the items
      and the bytes after the sequence, or going on from `rest`. */
  datatype Step =
    | Done(items: seq<seq<byte>>)
    | Continue(read: nat, acc: seq<seq<byte>>)

  /** One round of the item loop. `read` counts the bytes consumed so far
      against a defined sequence length; `undef` is set for the undefined length.
      A sequence delimiter ends the loop, so does reaching the defined length;
      an item adds its bytes, and any other tag is skipped. */
  function ItemStep(c: seq<byte>, le: bool, undef: bool, sqlength: Option<nat>, read: nat, acc: seq<seq<byte>>)
    : (r: Parse<Step>)
    ensures r.Ok? ==> |r.value.1| < |c|
    ensures r.Ok? && r.value.0.Done? ==> |acc| <= |r.value.0.items| && r.value.0.items[..|acc|] == acc
    ensures r.Ok? && r.value.0.Continue? ==> |acc| <= |r.value.0.acc| && r.value.0.acc[..|acc|] == acc
  {
    var t :- TagOf(c, le);
    var read1 := read + 4;
    if t.0 == SEQUENCE_DELIMITER then
      var n :- U32(t.1, le);
      Ok((Done(acc), n.1))
    else if !undef && sqlength == Some(read1) then
      Ok((Done(acc), t.1))
    else if t.0 == ITEM then
      var item :- Item(t.1, le);
      var acc' := if item.0.Some? then acc + [item.0.value] else acc;
      var read3 := read1 + item.2;
      assert acc'[..|acc|] == acc;
      if !undef && sqlength == Some(read3) then Ok((Done(acc'), item.1))
      else Ok((Continue(read3, acc'), item.1))
    else
      Ok((Continue(read1, acc), t.1))
  }

  /** The item loop, round after round. */
  function Items(c: seq<byte>, le: bool, undef: bool, sqlength: Option<nat>, read: nat, acc: seq<seq<byte>>)
    : (r: Parse<seq<seq<byte>>>)
    ensures r.Ok? ==> |acc| <= |r.value.0| && r.value.0[..|acc|] == acc
    ensures r.Ok? ==> |r.value.1| <= |c|
    decreases |c|
  {
    var step :- ItemStep(c, le, undef, sqlength, read, acc);
    match step.0
    case Done(items) => Ok((items, step.1))
    case Continue(read', acc') =>
      var r := Items(step.1, le, undef, sqlength, read', acc');
      assert r.Ok? ==> r.value.0[..|acc|] == acc'[..|acc|];
      r
  }

  /** One item's value after its length: for an undefined length the scan's
      buffer without its closing delimiter, kept only when it is not empty,
      and then counted with the delimiter; for a defined length the next
      `length` bytes, kept when the length is not zero. The third component
      is what the item adds to `read`. */
  function ItemBytes(c: seq<byte>, le: bool, length: nat): (r: Result<(Option<seq<byte>>, seq<byte>, nat)>)
    ensures r.Ok? ==> |r.value.1| <= |c|
  {
    if length == UNDEFINED_LENGTH then
      var scan :- Scan(c, le, 0, []);
      var toRead := |scan.0| - 8;
      if toRead > 0 then Ok((Some(scan.0[..toRead]), scan.1, toRead + 8))
      else Ok((None, scan.1, 0))
    else if length > 0 then
      var d :- Take(c, length);
      Ok((Some(d.0), d.1, length))
    else Ok((None, c, 0))
  }

  /** An item after its tag: its 32-bit length, then its value. The count
      includes the four bytes of the length. */
  function Item(c: seq<byte>, le: bool): (r: Result<(Option<seq<byte>>, seq<byte>, nat)>)
    ensures r.Ok? ==> |r.value.1| + 4 <= |c|
  {
    var n :- U32(c, le);
    var item :- ItemBytes(n.1, le, n.0);
    Ok((item.0, item.1, 4 + item.2))
  }

  /** SequenceOfItems.readBytes: a zero length holds no item. A missing
      (null) length is not zero, and never equals the count read. */
  function SequenceBytes(c: seq<byte>, le: bool, sqlength: Option<nat>): (r: Parse<seq<seq<byte>>>)
    ensures r.Ok? ==> |r.value.1| <= |c|
  {
    if sqlength == Some(0) then Ok(([], c))
    else Items(c, le, sqlength == Some(UNDEFINED_LENGTH), sqlength, 0, [])
  }

  /** Whatever the byte order, the scan's buffer ends with the closing delimiter. */
  lemma {:induction false} ScanEndsWithDelimiter(c: seq<byte>, le: bool, stack: int, temp: seq<byte>)
    ensures var r := Scan(c, le, stack, temp);
      r.Ok? ==> r.value.0[|r.value.0| - 8..] == CLOSING_DELIMITER
    decreases |c|
  {
    var r := Scan(c, le, stack, temp);
    if r.Ok? {
      var g := U16(c, le).value;
      if g.0 == 0xFFFE {
        var m := MarkerOf(g.1, le).value;
        var (ge, n) := m.0;
        var next := Marker(temp, ge, n);
        if Closes(ge, n) && stack - 1 < 0 {
          assert r.value.0 == next;
        } else {
          ScanEndsWithDelimiter(m.1, le, Level(stack, ge, n), next);
        }
      } else {
        ScanEndsWithDelimiter(g.1, le, stack, temp + Encode16(g.0, true));
      }
    }
  }

  /** Read little-endian, the scan copies the bytes it passes over exactly:
      the buffer is the item's own bytes followed by the closing delimiter. */
  lemma {:induction false} ScanIsExactInLittleEndian(c: seq<byte>, stack: int, temp: seq<byte>)
    ensures var r := Scan(c, true, stack, temp);
      r.Ok? ==> temp + c == r.value.0 + r.value.1
    decreases |c|
  {
    var r := Scan(c, true, stack, temp);
    if r.Ok? {
      var g := U16(c, true).value;
      Encode16RoundTrip(c[..2], true);
      if g.0 == 0xFFFE {
        var m := MarkerOf(g.1, true).value;
        var (ge, n) := m.0;
        assert c[..2] == [0xFE, 0xFF] by {
          assert c[0] as int + 256 * c[1] as int == 0xFFFE;
        }
        Encode16RoundTrip(g.1[..2], true);
        Encode32RoundTrip(g.1[2..6], true);
        var next := Marker(temp, ge, n);
        assert c == c[..2] + g.1[..2] + g.1[2..6] + m.1;
        assert temp + c == next + m.1;
        if !(Closes(ge, n) && stack - 1 < 0) {
          ScanIsExactInLittleEndian(m.1, Level(stack, ge, n), next);
        }
      } else {
        assert c == c[..2] + g.1;
        ScanIsExactInLittleEndian(g.1, stack, temp + Encode16(g.0, true));
      }
    }
  }

  /** So in a little-endian stream an undefined-length item's data are the
      bytes up to its closing delimiter, and the delimiter is consumed. */
  lemma UndefinedItemIsItsBytes(c: seq<byte>)
    ensures var r := ItemBytes(c, true, UNDEFINED_LENGTH);
      r.Ok? && r.value.0.Some? ==>
        var d := r.value.0.value;
        c == d + CLOSING_DELIMITER + r.value.1 && r.value.2 == |d| + 8
  {
    var scan := Scan(c, true, 0, []);
    ScanIsExactInLittleEndian(c, 0, []);
    ScanEndsWithDelimiter(c, true, 0, []);
    if scan.Ok? {
      var b := scan.value.0;
      assert b == b[..|b| - 8] + b[|b| - 8..];
      assert [] + c == c;
    }
  }

  /** A sequence of length zero has no items and reads nothing. */
  lemma EmptySequence(c: seq<byte>, le: bool)
    ensures SequenceBytes(c, le, Some(0)) == Ok(([], c))
  {
  }

  // ---- what one round of the item loop does ---------------------------------------

  /** A sequence delimiter ends the loop after its tag and 32-bit length,
      whatever has been read and whatever the length field holds. */
  lemma StepAtSequenceDelimiter(n: nat, le: bool, undef: bool, sqlength: Option<nat>, read: nat,
                                acc: seq<seq<byte>>, rest: seq<byte>)
    requires n < UINT32
    ensures ItemStep(EncodeTag(SEQUENCE_DELIMITER, le) + Encode32(n, le) + rest, le, undef, sqlength, read, acc)
      == Ok((Done(acc), rest))
  {
    assert EncodeTag(SEQUENCE_DELIMITER, le) + Encode32(n, le) + rest
      == EncodeTag(SEQUENCE_DELIMITER, le) + (Encode32(n, le) + rest);
    TagOfEncoded(SEQUENCE_DELIMITER, le, Encode32(n, le) + rest);
    U32Encoded(n, le, rest);
  }

  /** Any tag but the sequence delimiter ends a defined-length sequence when
      its four bytes bring the count to the length, before anything else is read. */
  lemma StepAtSequenceLength(t: Tag, le: bool, sqlength: nat, read: nat, acc: seq<seq<byte>>, rest: seq<byte>)
    requires t != SEQUENCE_DELIMITER && sqlength == read + 4
    ensures ItemStep(EncodeTag(t, le) + rest, le, false, Some(sqlength), read, acc) == Ok((Done(acc), rest))
  {
    TagOfEncoded(t, le, rest);
  }

  /** Any other tag that is not an item is skipped: four bytes are counted
      and nothing is added. */
  lemma StepSkipsOtherTags(t: Tag, le: bool, undef: bool, sqlength: Option<nat>, read: nat,
                           acc: seq<seq<byte>>, rest: seq<byte>)
    requires t != SEQUENCE_DELIMITER && t != ITEM && (undef || sqlength != Some(read + 4))
    ensures ItemStep(EncodeTag(t, le) + rest, le, undef, sqlength, read, acc) == Ok((Continue(read + 4, acc), rest))
  {
    TagOfEncoded(t, le, rest);
  }

  /** The data of the items that are not empty: what the loop keeps. */
  function NonEmpty(ds: seq<ItemData>): (kept: seq<seq<byte>>)
    ensures |kept| <= |ds|
    ensures forall i :: 0 <= i < |kept| ==> kept[i] != []
  {
    if ds == [] then [] else (if ds[0] != [] then [ds[0]] else []) + NonEmpty(ds[1..])
  }

  /** An item of defined length is its next `length` bytes, and a
      zero-length item contributes no data; the count covers the length field. */
  lemma DefinedItemIsItsBytes(d: seq<byte>, le: bool, rest: seq<byte>)
    requires |d| < UNDEFINED_LENGTH
    ensures Item(Encode32(|d|, le) + d + rest, le) == Ok((if d != [] then Some(d) else None, rest, 4 + |d|))
  {
    assert Encode32(|d|, le) + d + rest == Encode32(|d|, le) + (d + rest);
    U32Encoded(|d|, le, d + rest);
    assert (d + rest)[..|d|] == d && (d + rest)[|d|..] == rest;
  }

  /** An encoded item read by one round: its data are added unless empty,
      eight bytes and the data are counted, and a defined-length sequence
      ends when that count reaches its length. */
  lemma StepAtItem(d: seq<byte>, le: bool, undef: bool, sqlength: Option<nat>, read: nat,
                   acc: seq<seq<byte>>, rest: seq<byte>)
    requires |d| < UNDEFINED_LENGTH && (undef || sqlength != Some(read + 4))
    ensures var acc' := acc + NonEmpty([d]);
      ItemStep(EncodeItem(d, le) + rest, le, undef, sqlength, read, acc)
      == if !undef && sqlength == Some(read + 8 + |d|) then Ok((Done(acc'), rest))
         else Ok((Continue(read + 8 + |d|, acc'), rest))
  {
    var body := Encode32(|d|, le) + d + rest;
    assert EncodeItem(d, le) + rest == EncodeTag(ITEM, le) + body;
    TagOfEncoded(ITEM, le, body);
    DefinedItemIsItsBytes(d, le, rest);
    KeptItem(d, acc);
    StepAtItemTag(EncodeItem(d, le) + rest, body, le, undef, sqlength, read, acc,
                  if d != [] then Some(d) else None, rest, 4 + |d|, read + 8 + |d|, acc + NonEmpty([d]));
  }

  /** An item tag followed by an item that can be read: the round counts the
      tag and the item, `count` in all, and keeps its data when there are any. */
  lemma StepAtItemTag(c: seq<byte>, body: seq<byte>, le: bool, undef: bool, sqlength: Option<nat>, read: nat,
                      acc: seq<seq<byte>>, item: Option<seq<byte>>, rest: seq<byte>, n: nat,
                      count: nat, kept: seq<seq<byte>>)
    requires TagOf(c, le) == Ok((ITEM, body)) && Item(body, le) == Ok((item, rest, n))
    requires undef || sqlength != Some(read + 4)
    requires count == read + 4 + n && kept == (if item.Some? then acc + [item.value] else acc)
    ensures ItemStep(c, le, undef, sqlength, read, acc)
      == if !undef && sqlength == Some(count) then Ok((Done(kept), rest)) else Ok((Continue(count, kept), rest))
  {
  }

  /** The loop keeps an item's data unless they are empty. */
  lemma KeptItem(d: ItemData, acc: seq<seq<byte>>)
    ensures acc + NonEmpty([d]) == if d != [] then acc + [d] else acc
  {
    assert [d][1..] == [];
    if d == [] {
      assert acc + NonEmpty([d]) == acc;
    } else {
      assert acc + NonEmpty([d]) == acc + [d];
    }
  }

  // ---- the scan of an undefined-length item, word by word -------------------------

  type Word16 = n: nat | n < UINT16
  type Word32 = n: nat | n < UINT32

  /** What the scan meets: a 16-bit data word, or a marker (0xFFFE, element
      word, 32-bit length). */
  datatype Word = Data(w: Word16) | Mark(ge: Word16, length: Word32)

  /** The bytes of a word in the stream's byte order. */
  function WordBytes(x: Word, le: bool): (b: seq<byte>)
  {
    match x
    case Data(w) => Encode16(w, le)
    case Mark(ge, n) => Encode16(0xFFFE, le) + Encode16(ge, le) + Encode32(n, le)
  }

  function Words(xs: seq<Word>, le: bool): (b: seq<byte>)
  {
    if xs == [] then [] else WordBytes(xs[0], le) + Words(xs[1..], le)
  }

  /** The bytes the scan keeps for a word: re-encoded least significant first. */
  function Copy(x: Word): (b: seq<byte>)
  {
    match x
    case Data(w) => Encode16(w, true)
    case Mark(ge, n) => [0xFE, 0xFF] + Encode16(ge, true) + Encode32(n, true)
  }

  function Copies(xs: seq<Word>): (b: seq<byte>)
  {
    if xs == [] then [] else Copy(xs[0]) + Copies(xs[1..])
  }

  /** In little endian the copy is the word's own bytes. */
  lemma {:induction false} CopiesAreWordsInLittleEndian(xs: seq<Word>)
    ensures Copies(xs) == Words(xs, true)
    decreases |xs|
  {
    if xs != [] {
      CopiesAreWordsInLittleEndian(xs[1..]);
    }
  }

  /** The words never close the item: no data word is 0xFFFE, a zero-length
      delimiter comes only while a nested item is open, and at the end none
      is open. */
  predicate Balanced(stack: int, xs: seq<Word>)
    decreases |xs|
  {
    if xs == [] then stack < 1
    else match xs[0]
      case Data(w) => w != 0xFFFE && Balanced(stack, xs[1..])
      case Mark(ge, n) => !(Closes(ge, n) && stack - 1 < 0) && Balanced(Level(stack, ge, n), xs[1..])
  }

  /** The closing delimiter (FFFE,E00D) of length 0, in the stream's byte order. */
  function ClosingDelimiter(le: bool): (b: seq<byte>)
  {
    WordBytes(Mark(0xE00D, 0), le)
  }

  /** One word the scan goes past. */
  lemma ScanStep(x: Word, le: bool, stack: int, temp: seq<byte>, rest: seq<byte>)
    requires !(x.Data? && x.w == 0xFFFE) && !(x.Mark? && Closes(x.ge, x.length) && stack - 1 < 0)
    ensures var stack' := if x.Mark? then Level(stack, x.ge, x.length) else stack;
      Scan(WordBytes(x, le) + rest, le, stack, temp) == Scan(rest, le, stack', temp + Copy(x))
  {
    match x
    case Data(w) =>
      U16Encoded(w, le, rest);
    case Mark(ge, n) =>
      var c := WordBytes(x, le) + rest;
      assert c == Encode16(0xFFFE, le) + (Encode16(ge, le) + (Encode32(n, le) + rest));
      U16Encoded(0xFFFE, le, Encode16(ge, le) + (Encode32(n, le) + rest));
      var m := Encode16(ge, le) + (Encode32(n, le) + rest);
      assert m[..2] == Encode16(ge, le) && m[2..6] == Encode32(n, le) && m[6..] == rest;
      Uint16RoundTrip(ge, le);
      Uint32RoundTrip(n, le);
      assert MarkerOf(m, le) == Ok(((ge, n), rest));
      assert Marker(temp, ge, n) == temp + Copy(x);
  }

  lemma BalancedTail(stack: int, xs: seq<Word>)
    requires xs != [] && Balanced(stack, xs)
    ensures var x := xs[0];
      && !(x.Data? && x.w == 0xFFFE)
      && !(x.Mark? && Closes(x.ge, x.length) && stack - 1 < 0)
      && Balanced(if x.Mark? then Level(stack, x.ge, x.length) else stack, xs[1..])
  {
  }

  lemma WordsCons(xs: seq<Word>, le: bool, after: seq<byte>)
    requires xs != []
    ensures Words(xs, le) + after == WordBytes(xs[0], le) + (Words(xs[1..], le) + after)
  {
  }

  /** The closing delimiter met while no nested item is open ends the scan. */
  lemma ScanAtTheClosingDelimiter(le: bool, stack: int, temp: seq<byte>, rest: seq<byte>)
    requires stack < 1
    ensures Scan(ClosingDelimiter(le) + rest, le, stack, temp) == Ok((temp + CLOSING_DELIMITER, rest))
  {
    var c := ClosingDelimiter(le) + rest;
    var m := Encode16(0xE00D, le) + (Encode32(0, le) + rest);
    assert c == Encode16(0xFFFE, le) + m;
    U16Encoded(0xFFFE, le, m);
    assert m[..2] == Encode16(0xE00D, le) && m[2..6] == Encode32(0, le) && m[6..] == rest;
    Uint16RoundTrip(0xE00D, le);
    Uint32RoundTrip(0, le);
    assert MarkerOf(m, le) == Ok(((0xE00D, 0), rest));
    var next := Marker(temp, 0xE00D, 0);
    assert next == temp + CLOSING_DELIMITER;
  }

  /** The scan of balanced words goes past the first one. */
  lemma ScanPastTheFirstWord(xs: seq<Word>, le: bool, stack: int, temp: seq<byte>, rest: seq<byte>)
    requires xs != [] && Balanced(stack, xs)
    requires var x := xs[0];
      var stack' := if x.Mark? then Level(stack, x.ge, x.length) else stack;
      Scan(Words(xs[1..], le) + (ClosingDelimiter(le) + rest), le, stack', temp + Copy(x))
        == Ok((temp + Copy(x) + Copies(xs[1..]) + CLOSING_DELIMITER, rest))
    ensures Scan(Words(xs, le) + (ClosingDelimiter(le) + rest), le, stack, temp)
      == Ok((temp + Copies(xs) + CLOSING_DELIMITER, rest))
  {
    var x := xs[0];
    BalancedTail(stack, xs);
    WordsCons(xs, le, ClosingDelimiter(le) + rest);
    ScanStep(x, le, stack, temp, Words(xs[1..], le) + (ClosingDelimiter(le) + rest));
    CopiesCons(xs, temp);
  }

  lemma CopiesCons(xs: seq<Word>, temp: seq<byte>)
    requires xs != []
    ensures temp + Copy(xs[0]) + Copies(xs[1..]) + CLOSING_DELIMITER == temp + Copies(xs) + CLOSING_DELIMITER
  {
    assert Copies(xs) == Copy(xs[0]) + Copies(xs[1..]);
  }

  /** The scan stops at the first zero-length item delimiter met while no
      nested item is open: for balanced words followed by that delimiter it
      consumes exactly them and the delimiter, and keeps their copies with
      the delimiter at the end. */
  lemma {:induction false} ScanStopsWhereTheItemCloses(xs: seq<Word>, le: bool, stack: int, temp: seq<byte>, rest: seq<byte>)
    requires Balanced(stack, xs)
    ensures Scan(Words(xs, le) + (ClosingDelimiter(le) + rest), le, stack, temp)
      == Ok((temp + Copies(xs) + CLOSING_DELIMITER, rest))
    decreases |xs|
  {
    if xs == [] {
      assert Words(xs, le) == [] && Copies(xs) == [];
      assert Words(xs, le) + (ClosingDelimiter(le) + rest) == ClosingDelimiter(le) + rest;
      ScanAtTheClosingDelimiter(le, stack, temp, rest);
      assert temp + Copies(xs) + CLOSING_DELIMITER == temp + CLOSING_DELIMITER;
    } else {
      var x := xs[0];
      BalancedTail(stack, xs);
      var stack' := if x.Mark? then Level(stack, x.ge, x.length) else stack;
      ScanStopsWhereTheItemCloses(xs[1..], le, stack', temp + Copy(x), rest);
      ScanPastTheFirstWord(xs, le, stack, temp, rest);
    }
  }

  /** So an undefined-length item holds the copies of its balanced words,
      counted with the eight bytes of its delimiter, and an item closed at
      once holds nothing and counts nothing. */
  lemma UndefinedItemHoldsItsWords(xs: seq<Word>, le: bool, rest: seq<byte>)
    requires Balanced(0, xs)
    ensures var d := Copies(xs);
      ItemBytes(Words(xs, le) + (ClosingDelimiter(le) + rest), le, UNDEFINED_LENGTH)
      == if d != [] then Ok((Some(d), rest, |d| + 8)) else Ok((None, rest, 0))
  {
    ScanStopsWhereTheItemCloses(xs, le, 0, [], rest);
    var b := [] + Copies(xs) + CLOSING_DELIMITER;
    assert b[..|b| - 8] == Copies(xs);
  }

  /** An undefined-length item closed at once adds nothing: only its tag
      and length are counted. */
  lemma StepAtEmptyUndefinedItem(le: bool, undef: bool, sqlength: Option<nat>, read: nat,
                                 acc: seq<seq<byte>>, rest: seq<byte>)
    requires undef || (sqlength != Some(read + 4) && sqlength != Some(read + 8))
    ensures ItemStep(EncodeTag(ITEM, le) + Encode32(UNDEFINED_LENGTH, le) + ClosingDelimiter(le) + rest,
                     le, undef, sqlength, read, acc)
      == Ok((Continue(read + 8, acc), rest))
  {
    var body := Encode32(UNDEFINED_LENGTH, le) + (ClosingDelimiter(le) + rest);
    assert EncodeTag(ITEM, le) + Encode32(UNDEFINED_LENGTH, le) + ClosingDelimiter(le) + rest
      == EncodeTag(ITEM, le) + body;
    TagOfEncoded(ITEM, le, body);
    U32Encoded(UNDEFINED_LENGTH, le, ClosingDelimiter(le) + rest);
    UndefinedItemHoldsItsWords([], le, rest);
    assert Words([], le) + (ClosingDelimiter(le) + rest) == ClosingDelimiter(le) + rest;
  }

  // ---- whole sequences -------------------------------------------------------------

  lemma NonEmptyCons(ds: seq<ItemData>, acc: seq<seq<byte>>)
    requires ds != []
    ensures acc + NonEmpty([ds[0]]) + NonEmpty(ds[1..]) == acc + NonEmpty(ds)
  {
    var kept := if ds[0] != [] then [ds[0]] else [];
    assert [ds[0]][1..] == [];
    assert NonEmpty([ds[0]]) == kept + NonEmpty([]) == kept;
    assert NonEmpty(ds) == kept + NonEmpty(ds[1..]);
    assert acc + kept + NonEmpty(ds[1..]) == acc + (kept + NonEmpty(ds[1..]));
  }

  /** One round that continues is followed by the rest of the loop. */
  lemma ItemsStep(c: seq<byte>, le: bool, undef: bool, sqlength: Option<nat>, read: nat, acc: seq<seq<byte>>,
                  read': nat, acc': seq<seq<byte>>, tail: seq<byte>)
    requires ItemStep(c, le, undef, sqlength, read, acc) == Ok((Continue(read', acc'), tail))
    ensures Items(c, le, undef, sqlength, read, acc) == Items(tail, le, undef, sqlength, read', acc')
  {
  }

  /** The loop goes past an item that does not end the sequence. */
  lemma ItemsPastAnItem(d: seq<byte>, le: bool, undef: bool, sqlength: Option<nat>, read: nat,
                        acc: seq<seq<byte>>, tail: seq<byte>)
    requires |d| < UNDEFINED_LENGTH
    requires undef || (sqlength != Some(read + 4) && sqlength != Some(read + 8 + |d|))
    ensures Items(EncodeItem(d, le) + tail, le, undef, sqlength, read, acc)
      == Items(tail, le, undef, sqlength, read + 8 + |d|, acc + NonEmpty([d]))
  {
    StepAtItem(d, le, undef, sqlength, read, acc, tail);
    ItemsStep(EncodeItem(d, le) + tail, le, undef, sqlength, read, acc, read + 8 + |d|, acc + NonEmpty([d]), tail);
  }

  /** ... and ends a defined-length sequence at the item that fills it. */
  lemma ItemsAtTheLastItem(d: seq<byte>, le: bool, sqlength: nat, read: nat, acc: seq<seq<byte>>, rest: seq<byte>)
    requires |d| < UNDEFINED_LENGTH && sqlength == read + 8 + |d|
    ensures Items(EncodeItem(d, le) + rest, le, false, Some(sqlength), read, acc) == Ok((acc + NonEmpty([d]), rest))
  {
    StepAtItem(d, le, false, Some(sqlength), read, acc, rest);
  }

  /** An undefined-length sequence reads each item's data, keeping those not
      empty, up to its sequence delimiter, and consumes the delimiter. */
  lemma {:induction false} UndefinedItemsRead(ds: seq<ItemData>, le: bool, sqlength: Option<nat>, read: nat,
                                              acc: seq<seq<byte>>, rest: seq<byte>)
    ensures Items(EncodeItems(ds, le) + (SequenceDelimiter(le) + rest), le, true, sqlength, read, acc)
      == Ok((acc + NonEmpty(ds), rest))
    decreases |ds|
  {
    var after := SequenceDelimiter(le) + rest;
    if ds == [] {
      assert EncodeItems(ds, le) + after == EncodeTag(SEQUENCE_DELIMITER, le) + Encode32(0, le) + rest;
      assert acc + NonEmpty(ds) == acc;
      StepAtSequenceDelimiter(0, le, true, sqlength, read, acc, rest);
    } else {
      var d := ds[0];
      EncodeItemsCons(ds, le, after);
      ItemsPastAnItem(d, le, true, sqlength, read, acc, EncodeItems(ds[1..], le) + after);
      UndefinedItemsRead(ds[1..], le, sqlength, read + 8 + |d|, acc + NonEmpty([d]), rest);
      NonEmptyCons(ds, acc);
    }
  }

  /** The bytes the items take up: a tag, a length and the data each. */
  function Size(ds: seq<ItemData>): nat
  {
    if ds == [] then 0 else 8 + |ds[0]| + Size(ds[1..])
  }

  /** One item at least fills its tag and length. */
  lemma SizeIsAtLeast(ds: seq<ItemData>)
    requires ds != []
    ensures Size(ds) >= 8
  {
  }

  /** The items' encoding is as long as their size. */
  lemma {:induction false} SizeIsLength(ds: seq<ItemData>, le: bool)
    ensures |EncodeItems(ds, le)| == Size(ds)
    decreases |ds|
  {
    if ds != [] {
      SizeIsLength(ds[1..], le);
    }
  }

  /** A function with the item loop's signature. The reading of a defined-length
      sequence is proved for any such function that passes and ends at items as
      the item loop does, so that the proof by induction is about those two
      properties alone. */
  type Loop = (seq<byte>, bool, bool, Option<nat>, nat, seq<seq<byte>>) -> Parse<seq<seq<byte>>>

  /** A loop that, for a defined length, goes past an encoded item that leaves
      some of the length to fill, counting its bytes and keeping its data unless empty. */
  ghost predicate PassesItems(loop: Loop, le: bool, sqlength: nat)
  {
    forall d: ItemData, read: nat, acc: seq<seq<byte>>, tail: seq<byte> | read + 8 + |d| < sqlength ::
      loop(EncodeItem(d, le) + tail, le, false, Some(sqlength), read, acc)
      == loop(tail, le, false, Some(sqlength), read + 8 + |d|, acc + NonEmpty([d]))
  }

  /** A loop that stops right after an encoded item that fills the defined length. */
  ghost predicate EndsAtItems(loop: Loop, le: bool, sqlength: nat)
  {
    forall d: ItemData, read: nat, acc: seq<seq<byte>>, tail: seq<byte> | read + 8 + |d| == sqlength ::
      loop(EncodeItem(d, le) + tail, le, false, Some(sqlength), read, acc) == Ok((acc + NonEmpty([d]), tail))
  }

  /** Such a loop, over items that fill the defined length exactly, gives each
      item's data, keeping those not empty, and stops right after the last item. */
  lemma {:induction false} LoopReadsItems(loop: Loop, ds: seq<ItemData>, le: bool, sqlength: nat, read: nat,
                                          acc: seq<seq<byte>>, rest: seq<byte>)
    requires PassesItems(loop, le, sqlength) && EndsAtItems(loop, le, sqlength)
    requires ds != [] && read + Size(ds) == sqlength
    ensures loop(EncodeItems(ds, le) + rest, le, false, Some(sqlength), read, acc) == Ok((acc + NonEmpty(ds), rest))
    decreases |ds|
  {
    var d, others := ds[0], ds[1..];
    EncodeItemsCons(ds, le, rest);
    if others == [] {
      assert ds == [d] && EncodeItems(others, le) + rest == rest;
    } else {
      SizeIsAtLeast(others);
      LoopReadsItems(loop, others, le, sqlength, read + 8 + |d|, acc + NonEmpty([d]), rest);
      NonEmptyCons(ds, acc);
    }
  }

  /** The item loop goes past the items that do not fill a defined length ... */
  lemma ItemsPassItems(le: bool, sqlength: nat)
    ensures PassesItems(Items, le, sqlength)
  {
    forall d: ItemData, read: nat, acc: seq<seq<byte>>, tail: seq<byte> | read + 8 + |d| < sqlength
      ensures Items(EncodeItem(d, le) + tail, le, false, Some(sqlength), read, acc)
        == Items(tail, le, false, Some(sqlength), read + 8 + |d|, acc + NonEmpty([d]))
    {
      ItemsPastAnItem(d, le, false, Some(sqlength), read, acc, tail);
    }
  }

  /** ... and stops after the item that fills it. */
  lemma ItemsEndAtItems(le: bool, sqlength: nat)
    ensures EndsAtItems(Items, le, sqlength)
  {
    forall d: ItemData, read: nat, acc: seq<seq<byte>>, tail: seq<byte> | read + 8 + |d| == sqlength
      ensures Items(EncodeItem(d, le) + tail, le, false, Some(sqlength), read, acc) == Ok((acc + NonEmpty([d]), tail))
    {
      ItemsAtTheLastItem(d, le, sqlength, read, acc, tail);
    }
  }

  /** A defined-length sequence whose items fill its length exactly reads
      each item's data, keeping those not empty, and stops right after the
      last item. */
  lemma DefinedItemsRead(ds: seq<ItemData>, le: bool, sqlength: nat, read: nat,
                         acc: seq<seq<byte>>, rest: seq<byte>)
    requires ds != [] && read + Size(ds) == sqlength
    ensures Items(EncodeItems(ds, le) + rest, le, false, Some(sqlength), read, acc) == Ok((acc + NonEmpty(ds), rest))
  {
    ItemsPassItems(le, sqlength);
    ItemsEndAtItems(le, sqlength);
    LoopReadsItems(Items, ds, le, sqlength, read, acc, rest);
  }

  /** An SQ value of defined length made of items: readBytes gives back
      their data, without the empty ones, and leaves the bytes after it. */
  lemma DefinedSequenceRoundTrip(ds: seq<ItemData>, le: bool, rest: seq<byte>)
    requires |EncodeItems(ds, le)| != UNDEFINED_LENGTH
    ensures SequenceBytes(EncodeItems(ds, le) + rest, le, Some(|EncodeItems(ds, le)|)) == Ok((NonEmpty(ds), rest))
  {
    if ds == [] {
      assert EncodeItems(ds, le) == [] && NonEmpty(ds) == [];
      assert EncodeItems(ds, le) + rest == rest;
    } else {
      SizeIsLength(ds, le);
      DefinedItemsRead(ds, le, |EncodeItems(ds, le)|, 0, [], rest);
    }
  }

  /** An SQ value of undefined length: readBytes gives back the items' data,
      without the empty ones, up to the sequence delimiter it consumes. */
  lemma UndefinedSequenceRoundTrip(ds: seq<ItemData>, le: bool, rest: seq<byte>)
    ensures SequenceBytes(EncodeItems(ds, le) + (SequenceDelimiter(le) + rest), le, Some(UNDEFINED_LENGTH))
      == Ok((NonEmpty(ds), rest))
  {
    UndefinedItemsRead(ds, le, Some(UNDEFINED_LENGTH), 0, [], rest);
  }

  method ReadMarker(s: BufferStream) returns (r: Result<(nat, nat)>)
    requires s.Valid()
    modifies s
    ensures s.Valid() && s.Follows(MarkerOf(old(s.Contents()), old(s.isLittleEndian)), r)
  {
    ghost var c := s.Contents();
    var ge := s.ReadUint16();
    if ge.Err? { return Err(ge.error); }
    var itemLength := s.ReadUint32();
    if itemLength.Err? { return Err(itemLength.error); }
    assert c[2..][..4] == c[2..6];
    r := Ok((ge.value, itemLength.value));
  }

  method ScanUndefinedItem(s: BufferStream) returns (r: Result<seq<byte>>)
    requires s.Valid()
    modifies s
    ensures s.Valid() && s.Follows(Scan(old(s.Contents()), old(s.isLittleEndian), 0, []), r)
  {
    ghost var c := s.Contents();
    ghost var le := s.isLittleEndian;
    var stack := 0;
    var temp: seq<byte> := [];
    while true
      invariant s.Valid() && (old(s.pending) == [] ==> s.pending == [])
      invariant s.isLittleEndian == le && s.decoder == old(s.decoder)
      invariant Scan(s.Contents(), le, stack, temp) == Scan(c, le, 0, [])
      decreases |s.Contents()|
    {
      var g := s.ReadUint16();
      if g.Err? { return Err(g.error); }
      if g.value == 0xFFFE {
        var m := ReadMarker(s);
        if m.Err? { return Err(m.error); }
        var (ge, itemLength) := m.value;
        temp := Marker(temp, ge, itemLength);
        if Closes(ge, itemLength) && stack - 1 < 0 {
          return Ok(temp);
        }
        stack := Level(stack, ge, itemLength);
      } else {
        temp := temp + Encode16(g.value, true);
      }
    }
  }

  method ReadItemBytes(s: BufferStream, length: nat) returns (r: Result<(Option<seq<byte>>, nat)>)
    requires s.Valid()
    modifies s
    ensures s.Valid() && s.isLittleEndian == old(s.isLittleEndian) && s.decoder == old(s.decoder)
    ensures old(s.pending) == [] ==> s.pending == []
    ensures var spec := ItemBytes(old(s.Contents()), old(s.isLittleEndian), length);
      (spec.Ok? ==> r == Ok((spec.value.0, spec.value.2)) && s.Contents() == spec.value.1)
      && (spec.Err? ==> r == Err(spec.error))
  {
    if length == UNDEFINED_LENGTH {
      var scan := ScanUndefinedItem(s);
      if scan.Err? { return Err(scan.error); }
      var toRead := |scan.value| - 8;
      if toRead > 0 {
        r := Ok((Some(scan.value[..toRead]), toRead + 8));
      } else {
        r := Ok((None, 0));
      }
    } else if length > 0 {
      var d := s.ReadNBytes(length);
      if d.Err? { return Err(d.error); }
      r := Ok((Some(d.value), length));
    } else {
      r := Ok((None, 0));
    }
  }

  method ReadItem(s: BufferStream) returns (r: Result<(Option<seq<byte>>, nat)>)
    requires s.Valid()
    modifies s
    ensures s.Valid() && s.isLittleEndian == old(s.isLittleEndian) && s.decoder == old(s.decoder)
    ensures old(s.pending) == [] ==> s.pending == []
    ensures var spec := Item(old(s.Contents()), old(s.isLittleEndian));
      (spec.Ok? ==> r == Ok((spec.value.0, spec.value.2)) && s.Contents() == spec.value.1)
      && (spec.Err? ==> r == Err(spec.error))
  {
    var length := s.ReadUint32();
    if length.Err? { return Err(length.error); }
    var item := ReadItemBytes(s, length.value);
    if item.Err? { return Err(item.error); }
    r := Ok((item.value.0, 4 + item.value.1));
  }

  method ReadItemStep(s: BufferStream, undef: bool, sqlength: Option<nat>, read: nat, acc: seq<seq<byte>>)
    returns (r: Result<Step>)
    requires s.Valid()
    modifies s
    ensures s.Valid() && s.Follows(ItemStep(old(s.Contents()), old(s.isLittleEndian), undef, sqlength, read, acc), r)
  {
    ghost var c := s.Contents();
    ghost var le := s.isLittleEndian;
    ghost var spec := ItemStep(c, le, undef, sqlength, read, acc);
    var tag := ReadTag(s);
    if tag.Err? { return Err(tag.error); }
    ghost var c1 := s.Contents();
    assert TagOf(c, le) == Ok((tag.value, c1));
    var read1 := read + 4;
    if tag.value == SEQUENCE_DELIMITER {
      var n := s.ReadUint32();
      if n.Err? {
        assert spec == Err(EndOfStream(4));
        return Err(n.error);
      }
      assert spec == Ok((Done(acc), s.Contents()));
      return Ok(Done(acc));
    } else if !undef && sqlength == Some(read1) {
      assert spec == Ok((Done(acc), c1));
      return Ok(Done(acc));
    } else if tag.value == ITEM {
      ghost var ispec := Item(c1, le);
      var item := ReadItem(s);
      if item.Err? {
        assert spec == Err(ispec.error);
        return Err(item.error);
      }
      var acc' := if item.value.0.Some? then acc + [item.value.0.value] else acc;
      var read3 := read1 + item.value.1;
      if !undef && sqlength == Some(read3) {
        assert spec == Ok((Done(acc'), ispec.value.1));
        return Ok(Done(acc'));
      }
      assert spec == Ok((Continue(read3, acc'), ispec.value.1));
      return Ok(Continue(read3, acc'));
    }
    assert spec == Ok((Continue(read1, acc), c1));
    r := Ok(Continue(read1, acc));
  }

  method ReadSequence(s: BufferStream, sqlength: Option<nat>) returns (r: Result<seq<seq<byte>>>)
    requires s.Valid()
    modifies s
    ensures s.Valid() && s.Follows(SequenceBytes(old(s.Contents()), old(s.isLittleEndian), sqlength), r)
  {
    if sqlength == Some(0) {
      return Ok([]);
    }
    ghost var c := s.Contents();
    ghost var le := s.isLittleEndian;
    var undef := sqlength == Some(UNDEFINED_LENGTH);
    var elements: seq<seq<byte>> := [];
    var read := 0;
    while true
      invariant s.Valid() && (old(s.pending) == [] ==> s.pending == [])
      invariant s.isLittleEndian == le && s.decoder == old(s.decoder)
      invariant Items(s.Contents(), le, undef, sqlength, read, elements) == Items(c, le, undef, sqlength, 0, [])
      decreases |s.Contents()|
    {
      var step := ReadItemStep(s, undef, sqlength, read, elements);
      if step.Err? { return Err(step.error); }
      if step.value.Done? { return Ok(step.value.items); }
      read, elements := step.value.read, step.value.acc;
    }
  }
}
