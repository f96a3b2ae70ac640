/** Data element tags: a 32-bit (group, element) pair. */
module Tags {
  import opened Bytes
  import opened ByteStream

  type Tag = t: nat | t < UINT32

  const ITEM: Tag := 0xFFFE_E000
  const ITEM_DELIMITER: Tag := 0xFFFE_E00D
  const SEQUENCE_DELIMITER: Tag := 0xFFFE_E0DD

  /** `((group << 16) | element) >>> 0`: for 16-bit operands the shifted
      group and the element occupy disjoint bits, so the or is a sum, and
      `>>> 0` reads the 32-bit result as unsigned. */
  function FromNumbers(group: nat, element: nat): (t: Tag)
    requires group < UINT16 && element < UINT16
    ensures Group(t) == group && Element(t) == element
  {
    (group * UINT16 + element) % UINT32
  }

  /** dcmjs's `group()` and `element()`: the high and low 16 bits. */
  function Group(t: Tag): nat { t / UINT16 }
  function Element(t: Tag): nat { t % UINT16 }

  /** The tag whose group and element are the next two 16-bit words of `bs`. */
  function TagAt(bs: seq<byte>, le: bool): (t: Tag)
    requires |bs| >= 4
    ensures Group(t) == Uint16(bs[..2], le) && Element(t) == Uint16(bs[2..4], le)
  {
    FromNumbers(Uint16(bs[..2], le), Uint16(bs[2..4], le))
  }

  /** Every tag is made of its group and element. */
  lemma {:induction false} TagDecomposes(t: Tag)
    ensures Group(t) < UINT16 && Element(t) < UINT16
    ensures FromNumbers(Group(t), Element(t)) == t
  {
  }

  method ReadTag(s: BufferStream) returns (r: Result<Tag>)
    requires s.Valid()
    modifies s
    ensures s.Valid() && s.Took(4, r.Ok?)
    ensures r.Ok? ==> r.value == TagAt(old(s.Contents()), s.isLittleEndian)
    ensures r.Err? ==> r.error == EndOfStream(2)
  {
    ghost var before := s.Contents();
    var group := s.ReadUint16();
    if group.Err? { return Err(group.error); }
    var element := s.ReadUint16();
    if element.Err? { return Err(element.error); }
    assert before[2..][..2] == before[2..4];
    r := Ok(FromNumbers(group.value, element.value));
  }

  // The canonical tag string, dcmjs's toCleanString: eight upper-case hex digits.

  const HEX_DIGITS: string := "0123456789ABCDEF"

  function Pow16(n: nat): (p: nat)
    ensures p > 0
  {
    if n == 0 then 1 else 16 * Pow16(n - 1)
  }

  /** The last `n` hex digits of `v`. */
  function Hex(v: nat, n: nat): (s: string)
    ensures |s| == n
    ensures forall i :: 0 <= i < n ==> s[i] in HEX_DIGITS
  {
    if n == 0 then "" else Hex(v / 16, n - 1) + [HEX_DIGITS[v % 16]]
  }

  function CleanString(t: Tag): (s: string)
    ensures |s| == 8
  {
    Hex(Group(t), 4) + Hex(Element(t), 4)
  }

  function DigitValue(c: char): (d: nat)
    ensures d < 16
    ensures c in HEX_DIGITS ==> HEX_DIGITS[d] == c
  {
    if '0' <= c <= '9' then c as nat - '0' as nat
    else if 'A' <= c <= 'F' then c as nat - 'A' as nat + 10
    else 0
  }

  /** The value of a string of hex digits. */
  function ParseHex(s: string): nat
  {
    if s == [] then 0 else 16 * ParseHex(s[..|s| - 1]) + DigitValue(s[|s| - 1])
  }

  /** Each hex digit reads back as its value. */
  lemma DigitRoundTrip(k: nat)
    requires k < 16
    ensures DigitValue(HEX_DIGITS[k]) == k
  {
    if k < 10 {
      assert HEX_DIGITS[k] as nat == '0' as nat + k;
    } else {
      assert HEX_DIGITS[k] as nat == 'A' as nat + k - 10;
    }
  }

  /** Reading the hex digits back gives the value. */
  lemma {:induction false} HexRoundTrip(v: nat, n: nat)
    requires v < Pow16(n)
    ensures ParseHex(Hex(v, n)) == v
  {
    if n > 0 {
      var s := Hex(v, n);
      var q, k := v / 16, v % 16;
      assert v == 16 * q + k;
      assert s[..|s| - 1] == Hex(q, n - 1) && s[|s| - 1] == HEX_DIGITS[k];
      assert q < Pow16(n - 1);
      HexRoundTrip(q, n - 1);
      DigitRoundTrip(k);
      assert ParseHex(s) == 16 * ParseHex(Hex(q, n - 1)) + DigitValue(HEX_DIGITS[k]);
    }
  }

  /** The clean string determines the tag, so it is a sound dictionary key:
      its first four digits read back as the group, its last four as the element. */
  lemma CleanStringRoundTrip(t: Tag)
    ensures ParseHex(CleanString(t)[..4]) == Group(t)
    ensures ParseHex(CleanString(t)[4..]) == Element(t)
  {
    assert Pow16(4) == UINT16;
    assert CleanString(t)[..4] == Hex(Group(t), 4);
    assert CleanString(t)[4..] == Hex(Element(t), 4);
    HexRoundTrip(Group(t), 4);
    HexRoundTrip(Element(t), 4);
  }

  lemma CleanStringInjective(a: Tag, b: Tag)
    requires CleanString(a) == CleanString(b)
    ensures a == b
  {
    CleanStringRoundTrip(a);
    CleanStringRoundTrip(b);
    assert a == Group(a) * UINT16 + Element(a);
    assert b == Group(b) * UINT16 + Element(b);
  }
}
