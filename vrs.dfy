/** The value representations the stream reader registers, and the fixed
    descriptor of each: maximum length, padding byte, and whether it is
    fixed-length, binary, read with a long explicit header, or single-valued. */
module ValueRepresentations {
  import opened Bytes

  datatype VrCode =
    | AE | AS | AT | CS | DA | DS | DT | FL | FD | IS
    | LO | LT | OB | OD | OF | OW | PN | SH | SL | SQ
    | SS | ST | TM | UC | UI | UL | UN | UR | US | UT

  /** The two-letter type string of each registered representation. */
  function TypeString(vr: VrCode): (s: string)
    ensures |s| == 2
  {
    match vr
    case AE => "AE" case AS => "AS" case AT => "AT" case CS => "CS" case DA => "DA"
    case DS => "DS" case DT => "DT" case FL => "FL" case FD => "FD" case IS => "IS"
    case LO => "LO" case LT => "LT" case OB => "OB" case OD => "OD" case OF => "OF"
    case OW => "OW" case PN => "PN" case SH => "SH" case SL => "SL" case SQ => "SQ"
    case SS => "SS" case ST => "ST" case TM => "TM" case UC => "UC" case UI => "UI"
    case UL => "UL" case UN => "UN" case UR => "UR" case US => "US" case UT => "UT"
  }

  /** The registered representations, in the order of the `VRinstances` table. */
  const VR_INSTANCES: seq<VrCode> :=
    [AE, AS, AT, CS, DA, DS, DT, FL, FD, IS, LO, LT, OB, OD, OF,
     OW, PN, SH, SL, SQ, SS, ST, TM, UC, UI, UL, UN, UR, US, UT]

  lemma EveryVrIsRegistered(vr: VrCode)
    ensures vr in VR_INSTANCES
  {
  }

  /** The first registered representation from `i` on whose type string is `code`. */
  function Lookup(code: string, i: nat): (r: Option<VrCode>)
    requires i <= |VR_INSTANCES|
    ensures r.Some? ==> TypeString(r.value) == code
    ensures r.None? ==> forall j :: i <= j < |VR_INSTANCES| ==> TypeString(VR_INSTANCES[j]) != code
    decreases |VR_INSTANCES| - i
  {
    if i == |VR_INSTANCES| then None
    else if TypeString(VR_INSTANCES[i]) == code then Some(VR_INSTANCES[i])
    else Lookup(code, i + 1)
  }

  /** `VRinstances[type]`: the registered representation of a type string, if any. */
  function Registered(code: string): (r: Option<VrCode>)
    ensures r.Some? ==> TypeString(r.value) == code
    ensures r.None? ==> forall vr :: TypeString(vr) != code
  {
    var r := Lookup(code, 0);
    assert r.None? ==> forall vr :: TypeString(vr) != code by {
      forall vr ensures r.None? ==> TypeString(vr) != code {
        EveryVrIsRegistered(vr);
      }
    }
    r
  }

  /** createByTypeString: the registered representation, or for an unknown
      type string OW for "ox", US for "xs" and UN for anything else. */
  function CreateByTypeString(code: string): (vr: VrCode)
    ensures (exists v :: TypeString(v) == code) ==> TypeString(vr) == code
    ensures (forall v :: TypeString(v) != code) ==>
      vr == (if code == "ox" then OW else if code == "xs" then US else UN)
  {
    match Registered(code)
    case Some(v) => v
    case None => if code == "ox" then OW else if code == "xs" then US else UN
  }

  /** Looking a representation up by its own type string finds it. */
  lemma CreateByTypeStringRoundTrip(vr: VrCode)
    ensures CreateByTypeString(TypeString(vr)) == vr
  {
    var r := Registered(TypeString(vr));
    TypeStringInjective(r.value, vr);
  }

  lemma TypeStringInjective(a: VrCode, b: VrCode)
    requires TypeString(a) == TypeString(b)
    ensures a == b
  {
    var s := TypeString(a);
    assert s[0] == TypeString(b)[0] && s[1] == TypeString(b)[1];
  }

  /** A `maxLength` field: a number, `null`, or never assigned. The
      distinction matters because `length > null` compares with 0 while
      `length > undefined` is always false. */
  datatype MaxLength = Limit(n: nat) | NullLimit | Unset

  function MaxLengthOf(vr: VrCode): MaxLength
  {
    match vr
    case AE => Limit(16) case AS => Limit(4) case AT => Limit(4) case CS => Limit(16)
    case DA => Limit(8) case DS => Limit(16) case DT => Limit(26) case FL => Limit(4)
    case FD => Limit(8) case IS => Limit(12) case SL => Limit(4) case SS => Limit(2)
    case TM => Limit(14) case UI => Limit(64) case UL => Limit(4) case US => Limit(2)
    case LO => Unset case LT => Unset case SH => Unset case ST => Unset
    case _ => NullLimit
  }

  const PADDING_SPACE: byte := 0x20
  const PADDING_NULL: byte := 0x00
  const VM_DELIMITER: char := '\\'

  function PadByte(vr: VrCode): byte
  {
    match vr
    case AE => PADDING_SPACE case AS => PADDING_SPACE case CS => PADDING_SPACE
    case DA => PADDING_SPACE case DS => PADDING_SPACE case DT => PADDING_SPACE
    case IS => PADDING_SPACE case LO => PADDING_SPACE case LT => PADDING_SPACE
    case PN => PADDING_SPACE case SH => PADDING_SPACE case ST => PADDING_SPACE
    case TM => PADDING_SPACE case UC => PADDING_SPACE case UR => PADDING_SPACE
    case UT => PADDING_SPACE
    case _ => PADDING_NULL
  }

  /** The representations whose `fixed` flag is set (DA's is commented out). */
  predicate IsFixed(vr: VrCode)
  {
    vr in {AS, AT, FL, FD, SL, SS, UL, US}
  }

  predicate NoMultiple(vr: VrCode)
  {
    vr in {OB, OD, OF, OW, SQ, UN}
  }

  /** dcmjs's base constructor marks FL FD SL SS UL US AT as binary. */
  predicate IsBinary(vr: VrCode)
  {
    vr in {FL, FD, SL, SS, UL, US, AT}
  }

  /** dcmjs's base constructor gives OB OW OF SQ UC UR UT UN a 4-byte explicit length. */
  predicate IsExplicit(vr: VrCode)
  {
    vr in {OB, OW, OF, SQ, UC, UR, UT, UN}
  }

  /** `storeRaw()` is true except for SQ, which clears `_storeRaw`. */
  predicate StoresRaw(vr: VrCode)
  {
    vr != SQ
  }

  /** The message reader's own `singleVRs` list (it includes LT). */
  predicate InSingleList(vr: VrCode)
  {
    vr in {SQ, OF, OW, OB, UN, LT}
  }

  /** `length > maxLength` in JavaScript, with a null length compared as 0. */
  predicate Exceeds(length: Option<nat>, m: MaxLength)
  {
    match (length, m)
    case (Some(l), Limit(n)) => l > n
    case (Some(l), NullLimit) => l > 0
    case _ => false
  }

  /** `this.fixed && this.maxLength`: fixed with a non-zero maximum. */
  predicate FixedWithLength(vr: VrCode)
  {
    IsFixed(vr) && MaxLengthOf(vr).Limit? && MaxLengthOf(vr).n > 0
  }

  /** The values are read block by block: a binary, multi-valued
      representation whose length exceeds its maximum. */
  predicate SplitsIntoBlocks(vr: VrCode, length: Option<nat>)
  {
    IsBinary(vr) && Exceeds(length, MaxLengthOf(vr)) && !NoMultiple(vr)
  }

  /** Every representation that is split into blocks has a positive block
      size, so the block count `length / maxLength` is finite. */
  lemma BlocksHavePositiveSize(vr: VrCode, length: Option<nat>)
    requires SplitsIntoBlocks(vr, length)
    ensures MaxLengthOf(vr).Limit? && 2 <= MaxLengthOf(vr).n <= 8
    ensures FixedWithLength(vr)
    ensures length.Some? && length.value > MaxLengthOf(vr).n
  {
  }

  /** Binary and fixed coincide, except for AS, which is fixed text. */
  lemma FixedIsBinaryOrAgeString(vr: VrCode)
    ensures IsFixed(vr) <==> IsBinary(vr) || vr == AS
    ensures IsBinary(vr) ==> !NoMultiple(vr) && !IsExplicit(vr) && PadByte(vr) == PADDING_NULL
  {
  }
}
