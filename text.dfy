/** The string operations the value formatters use: JavaScript's trim and
    the `\s*$` replacement, `split` on the value delimiter, and the
    character filters of UI, DS and IS values. */
module Text {

  /** JavaScript's `\s`: the ASCII spaces and the Unicode space separators,
      line terminators and the byte order mark. */
  predicate IsSpace(c: char)
  {
    var k := c as int;
    k == 0x09 || k == 0x0A || k == 0x0B || k == 0x0C || k == 0x0D || k == 0x20
    || k == 0xA0 || k == 0x1680 || (0x2000 <= k <= 0x200A) || k == 0x2028 || k == 0x2029
    || k == 0x202F || k == 0x205F || k == 0x3000 || k == 0xFEFF
  }

  predicate AllSpace(s: string)
  {
    forall i :: 0 <= i < |s| ==> IsSpace(s[i])
  }

  /** `rtrim`: the longest prefix that does not end in a space. */
  function RTrim(s: string): (r: string)
    ensures |r| <= |s| && r == s[..|r|]
    ensures AllSpace(s[|r|..])
    ensures r == [] || !IsSpace(r[|r| - 1])
    decreases |s|
  {
    if s != [] && IsSpace(s[|s| - 1]) then
      var r := RTrim(s[..|s| - 1]);
      assert s[|r|..] == s[..|s| - 1][|r|..] + [s[|s| - 1]];
      r
    else s
  }

  /** The longest suffix that does not start with a space. */
  function LTrim(s: string): (r: string)
    ensures |r| <= |s| && r == s[|s| - |r|..]
    ensures AllSpace(s[..|s| - |r|])
    ensures r == [] || !IsSpace(r[0])
    decreases |s|
  {
    if s != [] && IsSpace(s[0]) then
      var r := LTrim(s[1..]);
      assert s[..|s| - |r|] == [s[0]] + s[1..][..|s[1..]| - |r|];
      r
    else s
  }

  /** `s[i..i + |r|]` is `r`, with only spaces on either side. */
  predicate Pads(s: string, i: int, r: string)
  {
    0 <= i && i + |r| <= |s| && s[i..i + |r|] == r && AllSpace(s[..i]) && AllSpace(s[i + |r|..])
  }

  /** `trim()`: `s` with its leading and trailing spaces removed. */
  function Trim(s: string): (r: string)
    ensures r == [] || (!IsSpace(r[0]) && !IsSpace(r[|r| - 1]))
  {
    LTrim(RTrim(s))
  }

  /** What `trim()` removes are spaces on either side. */
  lemma TrimRemovesPadding(s: string)
    ensures exists i :: Pads(s, i, Trim(s))
  {
    var p := RTrim(s);
    var r := LTrim(p);
    assert r == Trim(s);
    var i := |p| - |r|;
    assert r == p[i..];
    assert p == s[..|p|];
    assert AllSpace(s[|p|..]);
    assert AllSpace(p[..i]);
    assert s[i..i + |r|] == p[i..];
    assert s[..i] == p[..i];
    assert s[i + |r|..] == s[|p|..];
    assert Pads(s, i, r);
  }

  /** A string without surrounding spaces is its own trim, so trimming twice
      is trimming once. */
  lemma {:induction false} TrimIdempotent(s: string)
    ensures Trim(Trim(s)) == Trim(s)
  {
    var t := Trim(s);
    TrimKeeps(t);
  }

  lemma TrimKeeps(t: string)
    requires t == [] || (!IsSpace(t[0]) && !IsSpace(t[|t| - 1]))
    ensures Trim(t) == t
  {
    assert RTrim(t) == t;
    assert LTrim(t) == t;
  }

  /** A string of spaces trims to nothing. */
  lemma TrimSpaces(s: string)
    requires AllSpace(s)
    ensures Trim(s) == [] && RTrim(s) == []
  {
  }

  /** `split(d)`: the pieces between the delimiters; the empty string splits
      into one empty piece. */
  function Split(s: string, d: char): (parts: seq<string>)
    ensures |parts| >= 1
    ensures forall i :: 0 <= i < |parts| ==> d !in parts[i]
    ensures |parts| == 1 <==> d !in s
    decreases |s|
  {
    if s == [] then [""]
    else
      var rest := Split(s[1..], d);
      if s[0] == d then [""] + rest
      else
        assert d !in [s[0]] + rest[0];
        assert d in s ==> d in s[1..];
        [[s[0]] + rest[0]] + rest[1..]
  }

  /** `join(d)`, the inverse of `split`. */
  function Join(parts: seq<string>, d: char): (s: string)
    requires |parts| >= 1
    decreases |parts|
  {
    if |parts| == 1 then parts[0] else parts[0] + [d] + Join(parts[1..], d)
  }

  /** Joining the pieces of a split gives the string back. */
  lemma {:induction false} JoinSplit(s: string, d: char)
    ensures Join(Split(s, d), d) == s
    decreases |s|
  {
    if s != [] {
      var rest := Split(s[1..], d);
      JoinSplit(s[1..], d);
      if s[0] == d {
        assert Split(s, d)[1..] == rest;
      } else {
        var parts := Split(s, d);
        if |rest| == 1 {
          assert parts == [[s[0]] + rest[0]];
        } else {
          assert parts[1..] == rest[1..];
          assert Join(rest, d) == rest[0] + [d] + Join(rest[1..], d);
        }
      }
    }
  }

  /** Splitting a join of delimiter-free pieces gives the pieces back. */
  lemma {:induction false} SplitJoin(parts: seq<string>, d: char)
    requires |parts| >= 1
    requires forall i :: 0 <= i < |parts| ==> d !in parts[i]
    ensures Split(Join(parts, d), d) == parts
    decreases |parts|, |parts[0]|
  {
    var p := parts[0];
    if p == [] {
      if |parts| > 1 {
        SplitJoin(parts[1..], d);
        var j := Join(parts, d);
        assert j == [d] + Join(parts[1..], d);
        assert j[1..] == Join(parts[1..], d);
        assert Split(j, d) == [""] + parts[1..];
      }
    } else {
      var tail := [p[1..]] + parts[1..];
      assert d !in p[1..];
      forall i | 0 <= i < |tail| ensures d !in tail[i] {
        if i > 0 { assert tail[i] == parts[i]; }
      }
      SplitJoin(tail, d);
      JoinPeels(parts, d);
      SplitCons(p[0], Join(tail, d), d);
      assert [p[0]] + p[1..] == p;
      assert tail[1..] == parts[1..];
    }
  }

  /** The first character of a non-empty first piece comes first in the join. */
  lemma JoinPeels(parts: seq<string>, d: char)
    requires |parts| >= 1 && parts[0] != []
    ensures Join(parts, d) == [parts[0][0]] + Join([parts[0][1..]] + parts[1..], d)
  {
    var p := parts[0];
    var tail := [p[1..]] + parts[1..];
    assert p == [p[0]] + p[1..];
    if |parts| == 1 {
      assert tail == [p[1..]];
    } else {
      assert tail[1..] == parts[1..];
      assert Join(tail, d) == p[1..] + [d] + Join(parts[1..], d);
    }
  }

  /** A character other than the delimiter joins the first piece. */
  lemma SplitCons(c: char, s: string, d: char)
    requires c != d
    ensures Split([c] + s, d) == [[c] + Split(s, d)[0]] + Split(s, d)[1..]
  {
    assert ([c] + s)[1..] == s;
  }

  /** `replace(/[^...]/g, "")`: the characters of `s` that `keep` accepts, in order. */
  function Filter(s: string, keep: char -> bool): (r: string)
    ensures |r| <= |s|
    ensures forall i :: 0 <= i < |r| ==> keep(r[i])
    ensures forall c :: keep(c) ==> multiset(r)[c] == multiset(s)[c]
    ensures forall c :: !keep(c) ==> multiset(r)[c] == 0
    decreases |s|
  {
    if s == [] then []
    else
      var rest := Filter(s[1..], keep);
      assert s == [s[0]] + s[1..];
      if keep(s[0]) then [s[0]] + rest else rest
  }

  /** Filtering keeps a string whose characters all pass, so it is idempotent. */
  lemma {:induction false} FilterKeepsAccepted(s: string, keep: char -> bool)
    requires forall i :: 0 <= i < |s| ==> keep(s[i])
    ensures Filter(s, keep) == s
    decreases |s|
  {
    if s != [] {
      FilterKeepsAccepted(s[1..], keep);
    }
  }

  lemma FilterIdempotent(s: string, keep: char -> bool)
    ensures Filter(Filter(s, keep), keep) == Filter(s, keep)
  {
    FilterKeepsAccepted(Filter(s, keep), keep);
  }

  /** `[0-9.]`, the characters a UID keeps. */
  predicate IsUidChar(c: char)
  {
    '0' <= c <= '9' || c == '.'
  }

  /** `[0-9.\\\-+e]` matched case-insensitively: the characters a DS or IS value keeps. */
  predicate IsNumberChar(c: char)
  {
    '0' <= c <= '9' || c == '.' || c == '\\' || c == '-' || c == '+' || c == 'e' || c == 'E'
  }
}
