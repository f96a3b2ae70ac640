/** DicomMessageAsync._read: elements are read until the stream ends or the
    stop tag has been stored, each kept under its clean tag string; the
    Specific Character Set element selects the text decoder for the
    elements after it. */
module Dataset {
  import opened Bytes
  import opened ByteStream
  import opened Tags
  import opened Wire
  import opened ValueRepresentations
  import opened Values
  import opened Elements

  const SPECIFIC_CHARACTER_SET: string := "00080005"

  /** What the character set element is replaced with: UTF-8, which the values have been decoded to. */
  const UTF8_DEFINED_TERM: string := "ISO_IR 192"

  // ---- the character set -------------------------------------------------------

  /** encodingMapping: the normalised defined term and the decoder label. */
  const ENCODING_MAPPING: seq<(string, string)> := [
    ("", "iso-8859-1"),
    ("iso-ir-6", "iso-8859-1"),
    ("iso-ir-13", "shift-jis"),
    ("iso-ir-100", "latin1"),
    ("iso-ir-101", "iso-8859-2"),
    ("iso-ir-109", "iso-8859-3"),
    ("iso-ir-110", "iso-8859-4"),
    ("iso-ir-126", "iso-ir-126"),
    ("iso-ir-127", "iso-ir-127"),
    ("iso-ir-138", "iso-ir-138"),
    ("iso-ir-144", "iso-ir-144"),
    ("iso-ir-148", "iso-ir-148"),
    ("iso-ir-166", "tis-620"),
    ("iso-2022-ir-6", "iso-8859-1"),
    ("iso-2022-ir-13", "shift-jis"),
    ("iso-2022-ir-87", "iso-2022-jp"),
    ("iso-2022-ir-100", "latin1"),
    ("iso-2022-ir-101", "iso-8859-2"),
    ("iso-2022-ir-109", "iso-8859-3"),
    ("iso-2022-ir-110", "iso-8859-4"),
    ("iso-2022-ir-126", "iso-ir-126"),
    ("iso-2022-ir-127", "iso-ir-127"),
    ("iso-2022-ir-138", "iso-ir-138"),
    ("iso-2022-ir-144", "iso-ir-144"),
    ("iso-2022-ir-148", "iso-ir-148"),
    ("iso-2022-ir-149", "euc-kr"),
    ("iso-2022-ir-159", "iso-2022-jp"),
    ("iso-2022-ir-166", "tis-620"),
    ("iso-2022-ir-58", "iso-ir-58"),
    ("iso-ir-192", "utf-8"),
    ("gb18030", "gb18030"),
    ("iso-2022-gbk", "gbk"),
    ("iso-2022-58", "gb2312"),
    ("gbk", "gbk")]

  /** The decoder label of `key`, searched from entry `i` on. */
  function EncodingFrom(key: string, i: nat): (r: Option<string>)
    requires i <= |ENCODING_MAPPING|
    ensures r.Some? ==> exists j :: i <= j < |ENCODING_MAPPING| && ENCODING_MAPPING[j] == (key, r.value)
    ensures r.None? ==> forall j :: i <= j < |ENCODING_MAPPING| ==> ENCODING_MAPPING[j].0 != key
    decreases |ENCODING_MAPPING| - i
  {
    if i == |ENCODING_MAPPING| then None
    else if ENCODING_MAPPING[i].0 == key then Some(ENCODING_MAPPING[i].1)
    else EncodingFrom(key, i + 1)
  }

  /** `coding in encodingMapping` and `encodingMapping[coding]`. */
  function Encoding(key: string): (r: Option<string>)
    ensures r.Some? <==> exists j :: 0 <= j < |ENCODING_MAPPING| && ENCODING_MAPPING[j].0 == key
    ensures r.Some? ==> exists j :: 0 <= j < |ENCODING_MAPPING| && ENCODING_MAPPING[j] == (key, r.value)
  {
    EncodingFrom(key, 0)
  }

  /** `replace(/[_ ]/g, "-")` followed by `toLowerCase()`, on one character. */
  function NormalChar(c: char): (d: char)
  {
    if c == '_' || c == ' ' then '-'
    else if 'A' <= c <= 'Z' then (c as int + 32) as char
    else c
  }

  /** The defined term as the table spells it. */
  function Normalise(coding: string): (key: string)
    ensures |key| == |coding|
    ensures forall i :: 0 <= i < |key| ==> key[i] == NormalChar(coding[i])
    ensures forall i :: 0 <= i < |key| ==> key[i] != '_' && key[i] != ' ' && !('A' <= key[i] <= 'Z')
  {
    seq(|coding|, i requires 0 <= i < |coding| => NormalChar(coding[i]))
  }

  /** A normalised term normalises to itself. */
  lemma NormaliseIdempotent(coding: string)
    ensures Normalise(Normalise(coding)) == Normalise(coding)
  {
  }

  /** Terms that differ only in case, or in `_`, ` ` and `-`, are looked up alike. */
  lemma NormaliseIgnoresCaseAndSeparators(a: string, b: string)
    requires |a| == |b|
    requires forall i :: 0 <= i < |a| ==> NormalChar(a[i]) == NormalChar(b[i])
    ensures Encoding(Normalise(a)) == Encoding(Normalise(b))
  {
    assert Normalise(a) == Normalise(b);
  }

  /** `values.length`: an error on undefined and null, nothing for a value
      that has no length. */
  function JsLength(v: JsValue): (r: Result<Option<nat>>)
    ensures r.Err? <==> v == Undefined || v == Null
    ensures v.List? ==> r == Ok(Some(|v.items|))
    ensures v.Str? ==> r == Ok(Some(|v.s|))
  {
    match v
    case Undefined => Err(TypeError)
    case Null => Err(TypeError)
    case Str(s) => Ok(Some(|s|))
    case List(items) => Ok(Some(|items|))
    case Blob(data) => Ok(Some(|data|))
    case _ => Ok(None)
  }

  /** `values[0]`, on which `replace` is called: only a string has it. */
  function FirstString(v: JsValue): (r: Result<string>)
    ensures v.List? && |v.items| > 0 && v.items[0].Str? ==> r == Ok(v.items[0].s)
    ensures v.Str? && |v.s| > 0 ==> r == Ok([v.s[0]])
  {
    match v
    case List(items) => if |items| > 0 && items[0].Str? then Ok(items[0].s) else Err(TypeError)
    case Str(s) => if |s| > 0 then Ok([s[0]]) else Err(TypeError)
    case _ => Err(TypeError)
  }

  /** The decoder `_read` switches to as soon as it has looked the first term
      up, before it checks for a second term: the label of a known first
      term, or none. */
  function Selected(values: JsValue): (r: Option<string>)
    ensures r.Some? ==> exists j :: 0 <= j < |ENCODING_MAPPING| && ENCODING_MAPPING[j].1 == r.value
    ensures r.Some? ==> FirstString(values).Ok? && r == Encoding(Normalise(FirstString(values).value))
  {
    match JsLength(values)
    case Ok(Some(n)) =>
      if n > 0 && FirstString(values).Ok? then Encoding(Normalise(FirstString(values).value)) else None
    case _ => None
  }

  /** The decoder label the character set element selects, or none. An
      unknown term and a second term are errors unless errors are ignored;
      then the first term is used if it is known. */
  function CharacterSet(values: JsValue, ignoreErrors: bool): (r: Result<Option<string>>)
    ensures r.Ok? && r.value.Some? ==>
      exists j :: 0 <= j < |ENCODING_MAPPING| && ENCODING_MAPPING[j].1 == r.value.value
    ensures ignoreErrors ==> r.Ok? || r.error == TypeError
    ensures r.Err? && r.error.UnsupportedCharacterSet? ==>
      !ignoreErrors && Encoding(r.error.coding).None?
    ensures r.Err? && r.error == MultipleCharacterSets ==>
      && !ignoreErrors
      && JsLength(values).Ok? && JsLength(values).value.Some? && JsLength(values).value.value > 1
      && FirstString(values).Ok? && Encoding(Normalise(FirstString(values).value)).Some?
    ensures r.Ok? && r.value.Some? ==>
      FirstString(values).Ok? && r.value == Encoding(Normalise(FirstString(values).value))
    ensures JsLength(values) == Ok(None) || JsLength(values) == Ok(Some(0)) ==> r == Ok(None)
    ensures r.Ok? ==> r.value == Selected(values)
    ensures values.List? && |values.items| > 0 && values.items[0].Str? ==>
      var key := Normalise(values.items[0].s);
      var known := Encoding(key).Some?;
      && (known && (|values.items| == 1 || ignoreErrors) ==> r == Ok(Encoding(key)))
      && (known && |values.items| > 1 && !ignoreErrors ==> r == Err(MultipleCharacterSets))
      && (!known && !ignoreErrors ==> r == Err(UnsupportedCharacterSet(key)))
      && (!known && ignoreErrors ==> r == Ok(None))
  {
    var len :- JsLength(values);
    if len.None? || len.value == 0 then Ok(None)
    else
      var coding :- FirstString(values);
      var key := Normalise(coding);
      var found := Encoding(key);
      if found.None? && !ignoreErrors then Err(UnsupportedCharacterSet(key))
      else if len.value > 1 && !ignoreErrors then Err(MultipleCharacterSets)
      else Ok(found)
  }

  /** The same code as written: both branches for ignored errors call
      `log.warn`, and `log` is not declared in the module. */
  function CharacterSetAsWritten(values: JsValue, ignoreErrors: bool): (r: Result<Option<string>>)
  {
    var len :- JsLength(values);
    if len.None? || len.value == 0 then Ok(None)
    else
      var coding :- FirstString(values);
      var key := Normalise(coding);
      var found := Encoding(key);
      if found.None? then
        if ignoreErrors then Err(ReferenceError) else Err(UnsupportedCharacterSet(key))
      else if len.value > 1 then
        if ignoreErrors then Err(ReferenceError) else Err(MultipleCharacterSets)
      else Ok(found)
  }

  /** As written, ignoring errors does not help: an unknown first term fails
      either way, with a ReferenceError instead of the intended warning, while
      the intended code keeps the current decoder. */
  lemma IgnoredErrorsStillFail(t: string, rest: seq<JsValue>)
    requires Encoding(Normalise(t)).None?
    ensures CharacterSetAsWritten(List([Str(t)] + rest), true) == Err(ReferenceError)
    ensures CharacterSet(List([Str(t)] + rest), true) == Ok(None)
  {
  }

  /** A second term, too, makes the written code throw where a known first
      term was meant to be used. */
  lemma IgnoredSecondTermStillFails(t: string, other: JsValue, rest: seq<JsValue>)
    requires Encoding(Normalise(t)).Some?
    ensures CharacterSetAsWritten(List([Str(t), other] + rest), true) == Err(ReferenceError)
    ensures CharacterSet(List([Str(t), other] + rest), true) == Ok(Encoding(Normalise(t)))
  {
  }

  /** The counterexample: a Specific Character Set of "ISO_IR 999", which no
      defined term of the table matches, read with errors ignored. As written
      the read throws; as intended it keeps the current decoder. */
  lemma UnknownTermThrows()
    ensures CharacterSetAsWritten(List([Str("ISO_IR 999")]), true) == Err(ReferenceError)
    ensures CharacterSet(List([Str("ISO_IR 999")]), true) == Ok(None)
  {
    var key := Normalise("ISO_IR 999");
    assert key == "iso-ir-999";
    forall j | 0 <= j < |ENCODING_MAPPING| ensures ENCODING_MAPPING[j].0 != key {
      assert |ENCODING_MAPPING[j].0| != |key| || ENCODING_MAPPING[j].0[7..] != key[7..];
    }
    assert [Str("ISO_IR 999")] + [] == [Str("ISO_IR 999")];
    IgnoredErrorsStillFail("ISO_IR 999", []);
  }

  /** Where the written code does not throw, it agrees with CharacterSet;
      the two differ only in the ReferenceError of the ignored errors. */
  lemma AsWrittenAgreesOtherwise(values: JsValue, ignoreErrors: bool)
    ensures var w := CharacterSetAsWritten(values, ignoreErrors);
      w != Err(ReferenceError) ==> w == CharacterSet(values, ignoreErrors)
    ensures !ignoreErrors ==> CharacterSetAsWritten(values, ignoreErrors) == CharacterSet(values, ignoreErrors)
  {
  }

  /** The search finds the first entry whose key matches. */
  lemma {:induction false} FirstMatchIsFound(key: string, i: nat, j: nat)
    requires i <= j < |ENCODING_MAPPING| && ENCODING_MAPPING[j].0 == key
    requires forall k :: i <= k < j ==> ENCODING_MAPPING[k].0 != key
    ensures EncodingFrom(key, i) == Some(ENCODING_MAPPING[j].1)
    decreases j - i
  {
    if i < j {
      assert ENCODING_MAPPING[i].0 != key;
      FirstMatchIsFound(key, i + 1, j);
      assert EncodingFrom(key, i) == EncodingFrom(key, i + 1);
    } else {
      assert ENCODING_MAPPING[i].0 == key;
    }
  }

  /** No two entries of the table share a key. */
  lemma KeysAreDistinct(i: nat, j: nat)
    requires i < j < |ENCODING_MAPPING|
    ensures ENCODING_MAPPING[i].0 != ENCODING_MAPPING[j].0
  {
  }

  /** So every entry of the table is found under its own key: each defined
      term the mapping lists selects its own decoder. */
  lemma EveryEntryIsFound(j: nat)
    requires j < |ENCODING_MAPPING|
    ensures Encoding(ENCODING_MAPPING[j].0) == Some(ENCODING_MAPPING[j].1)
  {
    forall k | 0 <= k < j
      ensures ENCODING_MAPPING[k].0 != ENCODING_MAPPING[j].0
    {
      KeysAreDistinct(k, j);
    }
    FirstMatchIsFound(ENCODING_MAPPING[j].0, 0, j);
  }

  // ---- the dictionary ----------------------------------------------------------

  /** `{ vr: readInfo.vr.type, Value, _rawValue }`; the placeholder's VR and
      raw values are undefined. */
  datatype Entry = Entry(vr: Option<VrCode>, value: JsValue, rawValue: JsValue)

  /** The dictionary read so far and the stream's decoder. */
  datatype Walk = Walk(dict: map<string, Entry>, decoder: string)

  function EntryOf(e: DataElement): (entry: Entry)
    ensures e.Parsed? ==> entry == Entry(Some(e.vr), e.values, e.rawValues)
    ensures e.Placeholder? ==> entry == Entry(None, Num(0), Undefined)
  {
    match e
    case Placeholder(_) => Entry(None, Num(0), Undefined)
    case Parsed(_, vr, values, rawValues) => Entry(Some(vr), values, rawValues)
  }

  /** One turn of the loop: the element is stored under its clean tag
      string, a character set element first selecting the decoder. */
  function Store(w: Walk, e: DataElement, ignoreErrors: bool): (r: Result<Walk>)
    ensures r.Ok? ==> r.value.dict.Keys == w.dict.Keys + {CleanString(e.tag)}
    ensures r.Ok? ==> forall k :: k in w.dict && k != CleanString(e.tag) ==> r.value.dict[k] == w.dict[k]
    ensures r.Ok? && CleanString(e.tag) != SPECIFIC_CHARACTER_SET ==>
      r.value == Walk(w.dict[CleanString(e.tag) := EntryOf(e)], w.decoder)
    ensures r.Ok? && CleanString(e.tag) == SPECIFIC_CHARACTER_SET ==>
      r.value.dict[SPECIFIC_CHARACTER_SET].value == List([Str(UTF8_DEFINED_TERM)])
    ensures CleanString(e.tag) != SPECIFIC_CHARACTER_SET ==> r.Ok?
  {
    var key := CleanString(e.tag);
    var entry := EntryOf(e);
    if key == SPECIFIC_CHARACTER_SET then
      var cs :- CharacterSet(entry.value, ignoreErrors);
      Ok(Walk(w.dict[key := entry.(value := List([Str(UTF8_DEFINED_TERM)]))],
              if cs.Some? then cs.value else w.decoder))
    else Ok(Walk(w.dict[key := entry], w.decoder))
  }

  /** The value the dictionary keeps for Specific Character Set names UTF-8:
      reading it again would select the UTF-8 decoder. */
  lemma StoredCharacterSetIsUtf8(w: Walk, e: DataElement, ignoreErrors: bool)
    requires CleanString(e.tag) == SPECIFIC_CHARACTER_SET && Store(w, e, ignoreErrors).Ok?
    ensures CharacterSet(Store(w, e, ignoreErrors).value.dict[SPECIFIC_CHARACTER_SET].value, false) == Ok(Some("utf-8"))
  {
    assert Normalise(UTF8_DEFINED_TERM) == "iso-ir-192";
    FirstMatchIsFound("iso-ir-192", 0, 29);
  }

  /** _read over the bytes `c`, starting from the walk `w`: the walk at the
      end and the bytes after the last element read. */
  function DatasetOf(c: seq<byte>, syntax: string, w: Walk, opts: ReadOptions, env: Env): (r: Parse<Walk>)
    ensures r.Ok? ==> w.dict.Keys <= r.value.0.dict.Keys
    ensures r.Ok? ==> r.value.1 == [] || (opts.untilTag.Some? && opts.untilTag.value in r.value.0.dict)
    decreases |c|
  {
    if c == [] then Ok((w, c))
    else
      var e :- ElementOf(c, syntax, w.decoder, opts, env);
      var w' :- Store(w, e.0, opts.ignoreErrors);
      if opts.untilTag == Some(CleanString(e.0.tag)) then Ok((w', e.1))
      else
        DatasetOf(e.1, syntax, w', opts, env)
  }

  /** The loop stops right after storing the stop tag, leaving what follows it unread. */
  lemma StopsAfterTheStopTag(c: seq<byte>, syntax: string, w: Walk, opts: ReadOptions, env: Env)
    requires c != [] && ElementOf(c, syntax, w.decoder, opts, env).Ok?
    requires var e := ElementOf(c, syntax, w.decoder, opts, env).value;
      opts.untilTag == Some(CleanString(e.0.tag)) && Store(w, e.0, opts.ignoreErrors).Ok?
    ensures var e := ElementOf(c, syntax, w.decoder, opts, env).value;
      DatasetOf(c, syntax, w, opts, env) == Ok((Store(w, e.0, opts.ignoreErrors).value, e.1))
  {
  }

  /** An element the stop tag does not end is followed by the rest of the walk. */
  lemma ContinuesAfterOtherTags(c: seq<byte>, syntax: string, w: Walk, opts: ReadOptions, env: Env)
    requires c != [] && ElementOf(c, syntax, w.decoder, opts, env).Ok?
    requires var e := ElementOf(c, syntax, w.decoder, opts, env).value;
      opts.untilTag != Some(CleanString(e.0.tag)) && Store(w, e.0, opts.ignoreErrors).Ok?
    ensures var e := ElementOf(c, syntax, w.decoder, opts, env).value;
      DatasetOf(c, syntax, w, opts, env)
        == DatasetOf(e.1, syntax, Store(w, e.0, opts.ignoreErrors).value, opts, env)
  {
  }

  /** An element that cannot be read or stored ends the walk with its error. */
  lemma FailsWithTheStep(c: seq<byte>, syntax: string, w: Walk, opts: ReadOptions, env: Env)
    requires c != []
    ensures var e := ElementOf(c, syntax, w.decoder, opts, env);
      e.Err? ==> DatasetOf(c, syntax, w, opts, env) == Err(e.error)
    ensures var e := ElementOf(c, syntax, w.decoder, opts, env);
      e.Ok? && Store(w, e.value.0, opts.ignoreErrors).Err? ==>
        DatasetOf(c, syntax, w, opts, env) == Err(Store(w, e.value.0, opts.ignoreErrors).error)
  {
  }

  // ---- the loop on the stream ----------------------------------------------------

  /** The body of the loop after the element is read: Store on the stream's decoder. */
  method StoreElement(s: BufferStream, dict: map<string, Entry>, e: DataElement, ignoreErrors: bool)
    returns (r: Result<map<string, Entry>>)
    requires s.Valid()
    modifies s
    ensures s.Valid() && s.Contents() == old(s.Contents()) && s.pending == old(s.pending)
    ensures var spec := Store(Walk(dict, old(s.decoder)), e, ignoreErrors);
      && (spec.Err? ==> r == Err(spec.error))
      && (spec.Ok? ==> r == Ok(spec.value.dict) && s.decoder == spec.value.decoder)
    ensures CleanString(e.tag) == SPECIFIC_CHARACTER_SET ==>
      var sel := Selected(EntryOf(e).value);
      s.decoder == if sel.Some? then sel.value else old(s.decoder)
  {
    var key := CleanString(e.tag);
    var entry := EntryOf(e);
    if key == SPECIFIC_CHARACTER_SET {
      // the decoder is set before a second term is checked, so it stays set
      // when that check fails
      var sel := Selected(entry.value);
      if sel.Some? {
        s.SetDecoder(sel.value);
      }
      var cs := CharacterSet(entry.value, ignoreErrors);
      if cs.Err? { return Err(cs.error); }
      entry := entry.(value := List([Str(UTF8_DEFINED_TERM)]));
    }
    r := Ok(dict[key := entry]);
  }

  /** _read. With no chunk pending it follows DatasetOf from the empty
      dictionary; in every case a dictionary is returned only once the
      stream has ended or the stop tag has been stored. */
  method ReadDataset(s: BufferStream, syntax: string, opts: ReadOptions, env: Env)
    returns (r: Result<map<string, Entry>>)
    requires s.Valid()
    modifies s
    ensures s.Valid()
    ensures r.Ok? ==> s.End() || (opts.untilTag.Some? && opts.untilTag.value in r.value)
    ensures old(s.pending) == [] ==>
      var spec := DatasetOf(old(s.Contents()), syntax, Walk(map[], old(s.decoder)), opts, env);
      && (spec.Err? ==> r == Err(spec.error))
      && (spec.Ok? ==>
            r == Ok(spec.value.0.dict) && s.decoder == spec.value.0.decoder && s.Contents() == spec.value.1)
  {
    ghost var single := s.pending == [];
    ghost var target := DatasetOf(s.Contents(), syntax, Walk(map[], s.decoder), opts, env);
    var dict: map<string, Entry> := map[];
    while !s.End()
      invariant s.Valid() && (single ==> s.pending == [])
      invariant single ==> DatasetOf(s.Contents(), syntax, Walk(dict, s.decoder), opts, env) == target
      decreases |s.Contents()|
    {
      ghost var c := s.Contents();
      ghost var w := Walk(dict, s.decoder);
      var e, tail := ReadElement(s, syntax, opts, env);
      if single {
        SingleBufferElement(c, syntax, w.decoder, opts, env, tail, e, s.Contents());
      }
      if e.Err? {
        if single { FailsWithTheStep(c, syntax, w, opts, env); }
        return Err(e.error);
      }
      var stored := StoreElement(s, dict, e.value, opts.ignoreErrors);
      if stored.Err? {
        if single { FailsWithTheStep(c, syntax, w, opts, env); }
        return Err(stored.error);
      }
      dict := stored.value;
      if opts.untilTag == Some(CleanString(e.value.tag)) {
        if single { StopsAfterTheStopTag(c, syntax, w, opts, env); }
        return Ok(dict);
      }
      if single { ContinuesAfterOtherTags(c, syntax, w, opts, env); }
    }
    r := Ok(dict);
  }
}
