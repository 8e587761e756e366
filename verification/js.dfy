/** The JavaScript built-ins the server's handlers rely on: strings as
    sequences of UTF-16 code units, `String.prototype.trim`,
    `String.prototype.substring`, `Math.min` and `Math.max`. */
module Js {

  /** One UTF-16 code unit. JavaScript's `length`, indexing and `substring`
      all count code units, not characters. */
  newtype CodeUnit = n: int | 0 <= n < 0x1_0000

  type JsString = seq<CodeUnit>

  /** The JavaScript string a string literal denotes. Every literal the
      server uses is ASCII, and a character below U+10000 is stored as the
      single code unit of the same value; characters above U+FFFF (which
      would take a surrogate pair) do not occur and are not modelled. */
  function Lit(s: string): (r: JsString)
    ensures |r| == |s|
    ensures forall i :: 0 <= i < |s| && (s[i] as int) < 0x1_0000 ==> r[i] as int == s[i] as int
  {
    seq(|s|, i requires 0 <= i < |s| => (s[i] as int % 0x1_0000) as CodeUnit)
  }

  /** WhiteSpace and LineTerminator code points of ECMA-262 (sections 12.2
      and 12.3): the set that `trim` removes and `parseInt` skips. The
      space separators are those of Unicode general category Zs. */
  predicate IsWhitespace(u: CodeUnit) {
    || u == 0x0009 || u == 0x000A || u == 0x000B || u == 0x000C || u == 0x000D
    || u == 0x0020 || u == 0x00A0 || u == 0x1680 || (0x2000 <= u <= 0x200A)
    || u == 0x2028 || u == 0x2029 || u == 0x202F || u == 0x205F || u == 0x3000
    || u == 0xFEFF
  }

  predicate AllWhitespace(s: JsString) {
    forall i :: 0 <= i < |s| ==> IsWhitespace(s[i])
  }

  /** The index of the first non-whitespace code unit at or after `i`. */
  function WhitespaceEnd(s: JsString, i: nat): (n: nat)
    requires i <= |s|
    ensures i <= n <= |s|
    ensures forall k :: i <= k < n ==> IsWhitespace(s[k])
    ensures n < |s| ==> !IsWhitespace(s[n])
    decreases |s| - i
  {
    if i == |s| || !IsWhitespace(s[i]) then i else WhitespaceEnd(s, i + 1)
  }

  /** The index just after the last non-whitespace code unit before `j`. */
  function WhitespaceStart(s: JsString, j: nat): (n: nat)
    requires j <= |s|
    ensures n <= j
    ensures forall k :: n <= k < j ==> IsWhitespace(s[k])
    ensures 0 < n ==> !IsWhitespace(s[n - 1])
  {
    if j == 0 || !IsWhitespace(s[j - 1]) then j else WhitespaceStart(s, j - 1)
  }

  /** `WhitespaceEnd` is determined by where the whitespace stops. */
  lemma WhitespaceEndAt(s: JsString, i: nat, n: nat)
    requires i <= n <= |s|
    requires forall k :: i <= k < n ==> IsWhitespace(s[k])
    requires n < |s| ==> !IsWhitespace(s[n])
    ensures WhitespaceEnd(s, i) == n
  {
  }

  /** Drops the leading whitespace: what `parseInt` does first, and the
      first half of `trim`. */
  function TrimStart(s: JsString): (r: JsString)
    ensures |r| <= |s| && r == s[|s| - |r|..]
    ensures AllWhitespace(s[..|s| - |r|])
    ensures r == [] || !IsWhitespace(r[0])
  {
    s[WhitespaceEnd(s, 0)..]
  }

  /** Drops the trailing whitespace. */
  function TrimEnd(s: JsString): (r: JsString)
    ensures |r| <= |s| && r == s[..|r|]
    ensures AllWhitespace(s[|r|..])
    ensures r == [] || !IsWhitespace(r[|r| - 1])
  {
    s[..WhitespaceStart(s, |s|)]
  }

  /** `s.trim()`: the part of `s` between its leading and its trailing
      whitespace. */
  function Trim(s: JsString): (r: JsString)
    ensures exists i, j :: 0 <= i <= j <= |s| && r == s[i..j] && AllWhitespace(s[..i]) && AllWhitespace(s[j..])
    ensures r == [] <==> AllWhitespace(s)
    ensures r == [] || (!IsWhitespace(r[0]) && !IsWhitespace(r[|r| - 1]))
  {
    var t := TrimStart(s);
    var i := |s| - |t|;
    TrimWithin(s, i, t);
    TrimEnd(t)
  }

  /** Trimming the end of a suffix that follows whitespace leaves a slice
      of the whole string with whitespace on both sides. */
  lemma TrimWithin(s: JsString, i: nat, t: JsString)
    requires i <= |s| && t == s[i..] && AllWhitespace(s[..i])
    ensures var j := i + |TrimEnd(t)|;
      j <= |s| && TrimEnd(t) == s[i..j] && AllWhitespace(s[j..])
  {
    var j := i + |TrimEnd(t)|;
    assert s[j..] == t[|TrimEnd(t)|..];
  }

  /** `s` is its leading whitespace followed by `TrimStart(s)`. */
  lemma TrimStartSplit(s: JsString)
    ensures s == s[..|s| - |TrimStart(s)|] + TrimStart(s)
    ensures AllWhitespace(s[..|s| - |TrimStart(s)|])
  {
  }

  /** `s` is `TrimEnd(s)` followed by its trailing whitespace. */
  lemma TrimEndSplit(s: JsString)
    ensures s == TrimEnd(s) + s[|TrimEnd(s)|..]
    ensures AllWhitespace(s[|TrimEnd(s)|..])
  {
  }

  /** `s.substring(start, end)`: both indices are clamped to `[0, |s|]` and
      swapped when they are out of order. */
  function Substring(s: JsString, start: int, end: int): (r: JsString)
    ensures |r| <= |s|
    ensures 0 <= end <= start ==> r == s[Min(end, |s|)..Min(start, |s|)]
    ensures 0 <= start <= end ==> r == s[Min(start, |s|)..Min(end, |s|)]
    ensures start <= 0 <= end ==> r == s[..Min(end, |s|)]
    ensures end <= 0 <= start ==> r == s[..Min(start, |s|)]
    ensures start <= 0 && end <= 0 ==> r == []
  {
    var a := Min(Max(start, 0), |s|);
    var b := Min(Max(end, 0), |s|);
    s[Min(a, b)..Max(a, b)]
  }

  /** `Math.min` on integers. */
  function Min(a: int, b: int): (r: int)
    ensures r <= a && r <= b && (r == a || r == b)
  {
    if a <= b then a else b
  }

  /** `Math.max` on integers. */
  function Max(a: int, b: int): (r: int)
    ensures a <= r && b <= r && (r == a || r == b)
  {
    if a <= b then b else a
  }
}
