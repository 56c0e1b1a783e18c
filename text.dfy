/**
  The few operations on Python `str` that the handler relies on, over ASCII.
  Python's `\d`, `\s`, `str.lower` and `str.strip` follow Unicode; this model
  keeps what they do on ASCII characters: the digits `0`-`9`, the ten ASCII
  characters Python counts as whitespace, and the letters `A`-`Z`.
 */
module Text {

  /** `\d` restricted to ASCII. */
  predicate IsDigit(c: char) {
    '0' <= c <= '9'
  }

  /** `\s` (and what `str.strip()` removes) restricted to ASCII: tab, line
      feed, vertical tab, form feed, carriage return, the four information
      separators U+001C..U+001F, and space. */
  predicate IsSpace(c: char) {
    || c == ' ' || c == '\t' || c == '\n' || c == '\r' || c == '\U{B}' || c == '\U{C}'
    || '\U{1C}' <= c <= '\U{1F}'
  }

  lemma DigitIsNotSpace(c: char)
    ensures !(IsDigit(c) && IsSpace(c))
  {
  }

  predicate IsUpper(c: char) {
    'A' <= c <= 'Z'
  }

  /** `str.lower` on one character. */
  function LowerChar(c: char): (r: char)
    ensures IsUpper(c) ==> r as int == c as int + 32
    ensures !IsUpper(c) ==> r == c
    ensures !IsUpper(r)
  {
    if IsUpper(c) then (c as int + 32) as char else c
  }

  /** `str.lower`: the string with every upper-case letter lowered, in place. */
  function Lower(s: string): (r: string)
    ensures |r| == |s|
    ensures forall i :: 0 <= i < |s| ==> r[i] == LowerChar(s[i])
  {
    seq(|s|, i requires 0 <= i < |s| => LowerChar(s[i]))
  }

  lemma LowerIdempotent(s: string)
    ensures Lower(Lower(s)) == Lower(s)
  {
  }

  lemma LowerSlice(s: string, i: nat)
    requires i <= |s|
    ensures Lower(s[i..]) == Lower(s)[i..]
  {
  }

  /** Lowering keeps '.' exactly where it was. */
  lemma LowerKeepsDots(s: string, i: nat)
    requires i < |s|
    ensures Lower(s)[i] == '.' <==> s[i] == '.'
  {
  }

  /** Where `rsplit(c, 1)` splits: the index of the last occurrence of `c`, or -1. */
  function LastIndexOf(s: string, c: char): (r: int)
    ensures -1 <= r < |s|
    ensures r == -1 <==> c !in s
    ensures r >= 0 ==> s[r] == c && c !in s[r + 1..]
  {
    LastIndexBelow(s, c, |s|)
  }

  /** The last index below `n` holding `c`, or -1. */
  function LastIndexBelow(s: string, c: char, n: nat): (r: int)
    requires n <= |s|
    ensures -1 <= r < n
    ensures r >= 0 ==> s[r] == c
    ensures forall j :: r < j < n ==> s[j] != c
  {
    if n == 0 then -1
    else if s[n - 1] == c then n - 1
    else LastIndexBelow(s, c, n - 1)
  }

  /** `str.rsplit(sep, 1)`: one part when `sep` does not occur, otherwise the
      text before and after its last occurrence. */
  function RSplitOnce(s: string, sep: char): (parts: seq<string>)
    ensures sep !in s ==> parts == [s]
    ensures sep in s ==> |parts| == 2 && s == parts[0] + [sep] + parts[1] && sep !in parts[1]
  {
    var k := LastIndexOf(s, sep);
    if k < 0 then [s]
    else
      assert s == s[..k] + [sep] + s[k + 1..];
      [s[..k], s[k + 1..]]
  }

  /** Whatever splits `s` at an occurrence of `sep` with no `sep` after it is what `RSplitOnce` returns. */
  lemma {:induction false} RSplitOnceUnique(stem: string, sep: char, tail: string)
    requires sep !in tail
    ensures RSplitOnce(stem + [sep] + tail, sep) == [stem, tail]
  {
    var s := stem + [sep] + tail;
    assert s[|stem|] == sep;
    var parts := RSplitOnce(s, sep);
    var k := |parts[0]|;
    assert s[k] == sep;
    assert parts[0] == s[..k] == stem;
    assert parts[1] == s[k + 1..] == tail;
  }

  /** `str.strip()`: drop leading and trailing whitespace. */
  function Strip(s: string): (r: string)
    ensures |r| <= |s|
    ensures r == [] || (!IsSpace(r[0]) && !IsSpace(r[|r| - 1]))
  {
    TrimEnd(TrimStart(s))
  }

  /** `Strip` keeps a contiguous part of the text and drops only whitespace around it. */
  lemma StripSlice(s: string) returns (k: nat)
    ensures k + |Strip(s)| <= |s| && Strip(s) == s[k..k + |Strip(s)|]
    ensures forall i :: 0 <= i < k ==> IsSpace(s[i])
    ensures forall i :: k + |Strip(s)| <= i < |s| ==> IsSpace(s[i])
  {
    var t := TrimStart(s);
    k := |s| - |t|;
    var r := TrimEnd(t);
    assert r == t[..|r|];
    forall i | k + |r| <= i < |s|
      ensures IsSpace(s[i])
    {
      assert s[i] == t[i - k];
    }
  }

  /** A text that neither starts nor ends with whitespace is left alone by `Strip`. */
  lemma StripUnpadded(t: string)
    requires |t| >= 1 && !IsSpace(t[0]) && !IsSpace(t[|t| - 1])
    ensures Strip(t) == t
  {
    assert SpaceRunEnd(t, 0) == 0;
    assert TrimStart(t) == t;
    assert SpaceRunStart(t, |t|) == |t|;
  }

  /** One trailing whitespace character before a non-space is all `Strip` removes. */
  lemma StripOneTrailing(t: string, u: string)
    requires |t| >= 2 && !IsSpace(t[0]) && IsSpace(t[|t| - 1])
    requires u == t[..|t| - 1] && !IsSpace(u[|u| - 1])
    ensures Strip(t) == u
  {
    assert SpaceRunEnd(t, 0) == 0;
    assert TrimStart(t) == t;
    assert SpaceRunStart(t, |t|) == |t| - 1;
  }

  /** `lstrip()`: the text after its leading whitespace. */
  function TrimStart(s: string): (r: string)
    ensures |r| <= |s| && r == s[|s| - |r|..]
    ensures r == [] || !IsSpace(r[0])
    ensures forall i :: 0 <= i < |s| - |r| ==> IsSpace(s[i])
  {
    s[SpaceRunEnd(s, 0)..]
  }

  /** `rstrip()`: the text before its trailing whitespace. */
  function TrimEnd(s: string): (r: string)
    ensures |r| <= |s| && r == s[..|r|]
    ensures r == [] || !IsSpace(r[|r| - 1])
    ensures forall i :: |r| <= i < |s| ==> IsSpace(s[i])
  {
    s[..SpaceRunStart(s, |s|)]
  }

  /** The end of the whitespace run that starts at `i`. */
  function SpaceRunEnd(s: string, i: nat): (j: nat)
    requires i <= |s|
    ensures i <= j <= |s| && (j == |s| || !IsSpace(s[j]))
    ensures forall k :: i <= k < j ==> IsSpace(s[k])
    decreases |s| - i
  {
    if i < |s| && IsSpace(s[i]) then SpaceRunEnd(s, i + 1) else i
  }

  /** The start of the whitespace run that ends at `j`. */
  function SpaceRunStart(s: string, j: nat): (i: nat)
    requires j <= |s|
    ensures i <= j && (i == 0 || !IsSpace(s[i - 1]))
    ensures forall k :: i <= k < j ==> IsSpace(s[k])
  {
    if j > 0 && IsSpace(s[j - 1]) then SpaceRunStart(s, j - 1) else j
  }

  /** `sep.join(parts)`. */
  function Join(parts: seq<string>, sep: string): (r: string)
    ensures parts != [] ==> |parts[0]| <= |r| && r[..|parts[0]|] == parts[0]
  {
    if |parts| == 0 then ""
    else if |parts| == 1 then parts[0]
    else parts[0] + sep + Join(parts[1..], sep)
  }
}
