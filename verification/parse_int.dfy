/** `parseInt(string)` with no radix argument, following the algorithm of
    section 19.2.5 of ECMA-262: skip leading whitespace, read an optional
    sign, switch to base 16 on a `0x`/`0X` prefix, read the longest run of
    digits, and give NaN when that run is empty.

    The result is the exact mathematical integer; JavaScript rounds it to the
    nearest double, which never moves a value across 0 or 100, so the
    clamped confidence built on it is the same. */
module ParseInt {
  import opened Js

  datatype ParsedInt = NaN | Int(value: int)

  datatype Radix = Ten | Sixteen

  /** `v` times the base of `radix`. */
  function Shift(v: nat, radix: Radix): nat {
    if radix == Ten then v * 10 else v * 16
  }

  const Plus: CodeUnit := 0x2B
  const Minus: CodeUnit := 0x2D
  const Zero: CodeUnit := 0x30

  predicate IsDecimalDigit(u: CodeUnit) {
    0x30 <= u <= 0x39
  }

  /** `x` or `X`, the second character of a hexadecimal prefix. */
  predicate IsHexMarker(u: CodeUnit) {
    u == 0x78 || u == 0x58
  }

  predicate IsDigitIn(u: CodeUnit, radix: Radix) {
    || IsDecimalDigit(u)
    || (radix == Sixteen && (0x41 <= u <= 0x46 || 0x61 <= u <= 0x66))
  }

  predicate AllDigitsIn(s: JsString, radix: Radix) {
    forall i :: 0 <= i < |s| ==> IsDigitIn(s[i], radix)
  }

  function DigitValue(u: CodeUnit, radix: Radix): (d: nat)
    requires IsDigitIn(u, radix)
    ensures radix == Ten ==> d < 10
    ensures d < 16
  {
    if IsDecimalDigit(u) then u as int - 0x30
    else if 0x41 <= u <= 0x46 then u as int - 0x41 + 10
    else u as int - 0x61 + 10
  }

  /** The index of the first code unit at or after `i` that is not a digit
      of `radix`. */
  function DigitEnd(s: JsString, radix: Radix, i: nat): (n: nat)
    requires i <= |s|
    ensures i <= n <= |s|
    ensures forall k :: i <= k < n ==> IsDigitIn(s[k], radix)
    ensures n < |s| ==> !IsDigitIn(s[n], radix)
    decreases |s| - i
  {
    if i == |s| || !IsDigitIn(s[i], radix) then i else DigitEnd(s, radix, i + 1)
  }

  /** `DigitEnd` is determined by where the digits stop. */
  lemma DigitEndAt(s: JsString, radix: Radix, i: nat, n: nat)
    requires i <= n <= |s|
    requires forall k :: i <= k < n ==> IsDigitIn(s[k], radix)
    requires n < |s| ==> !IsDigitIn(s[n], radix)
    ensures DigitEnd(s, radix, i) == n
  {
  }

  /** The number the digits `s[lo..hi]` denote in `radix`, most significant
      first. */
  function ValueBetween(s: JsString, radix: Radix, lo: nat, hi: nat): nat
    requires lo <= hi <= |s|
    requires forall k :: lo <= k < hi ==> IsDigitIn(s[k], radix)
    decreases hi
  {
    if hi == lo then 0
    else Shift(ValueBetween(s, radix, lo, hi - 1), radix) + DigitValue(s[hi - 1], radix)
  }

  /** The number a whole digit string denotes. */
  function DigitsValue(ds: JsString, radix: Radix): nat
    requires AllDigitsIn(ds, radix)
  {
    ValueBetween(ds, radix, 0, |ds|)
  }

  /** The value of a digit run depends only on the digits, not on where
      they sit. */
  lemma {:induction false} ValueBetweenShift(s: JsString, t: JsString, radix: Radix, lo: nat, hi: nat, d: nat)
    requires lo <= hi <= |s| && hi + d <= |t|
    requires forall k :: lo <= k < hi ==> IsDigitIn(s[k], radix)
    requires forall k :: lo + d <= k < hi + d ==> t[k] == s[k - d]
    ensures ValueBetween(t, radix, lo + d, hi + d) == ValueBetween(s, radix, lo, hi)
  {
    if hi > lo {
      ValueBetweenShift(s, t, radix, lo, hi - 1, d);
      assert t[hi + d - 1] == s[hi - 1];
    }
  }

  /** Steps 3 and 4: the index after an optional `+` or `-` at `i`. */
  function SignEnd(s: JsString, i: nat): nat
    requires i <= |s|
  {
    if i < |s| && (s[i] == Plus || s[i] == Minus) then i + 1 else i
  }

  /** Steps 9 and 10: a `0x` or `0X` prefix at `j` selects base 16. */
  predicate HexAt(s: JsString, j: nat) {
    j + 1 < |s| && s[j] == Zero && IsHexMarker(s[j + 1])
  }

  function RadixAt(s: JsString, j: nat): Radix {
    if HexAt(s, j) then Sixteen else Ten
  }

  /** Where the digits start once the sign has ended at `j`. */
  function DigitsStart(s: JsString, j: nat): (k: nat)
    requires j <= |s|
    ensures k <= |s|
  {
    if HexAt(s, j) then j + 2 else j
  }

  /** Steps 11 to 16: the longest run of digits of `radix` from `k`, NaN if
      there is none, negated when a minus sign was read. */
  function ReadDigits(s: JsString, radix: Radix, k: nat, negative: bool): ParsedInt
    requires k <= |s|
  {
    var e := DigitEnd(s, radix, k);
    if e == k then NaN
    else
      var m: int := ValueBetween(s, radix, k, e);
      Int(if negative then -m else m)
  }

  /** Steps 3 to 16, once the whitespace has ended at index `i`. */
  function ParseFrom(s: JsString, i: nat): ParsedInt
    requires i <= |s|
  {
    var j := SignEnd(s, i);
    ReadDigits(s, RadixAt(s, j), DigitsStart(s, j), i < |s| && s[i] == Minus)
  }

  /** `parseInt(s)` with no radix: NaN for a string of whitespace only. */
  function ParseLeadingInt(s: JsString): (r: ParsedInt)
    ensures AllWhitespace(s) ==> r == NaN
  {
    ParseFrom(s, WhitespaceEnd(s, 0))
  }

  /** `t` holds the code units of `s`, `d` places further on, followed by
      nothing or by whitespace. */
  predicate MovedWithin(s: JsString, t: JsString, d: nat) {
    && |s| + d <= |t|
    && (forall x :: d <= x < |s| + d ==> t[x] == s[x - d])
    && (|s| + d < |t| ==> IsWhitespace(t[|s| + d]))
  }

  /** `ReadDigits` gives the same result on `t` at `k + d` as on `s` at `k`. */
  lemma ReadDigitsMoved(s: JsString, t: JsString, d: nat, radix: Radix, k: nat, negative: bool)
    requires MovedWithin(s, t, d) && k <= |s|
    ensures ReadDigits(t, radix, k + d, negative) == ReadDigits(s, radix, k, negative)
  {
    var e := DigitEnd(s, radix, k);
    DigitEndAt(t, radix, k + d, e + d);
    if e > k {
      ValueBetweenShift(s, t, radix, k, e, d);
    }
  }

  /** The sign and the radix prefix are read the same in `t`. */
  lemma PrefixMoved(s: JsString, t: JsString, d: nat, i: nat)
    requires MovedWithin(s, t, d) && i <= |s|
    ensures SignEnd(t, i + d) == SignEnd(s, i) + d
    ensures RadixAt(t, SignEnd(s, i) + d) == RadixAt(s, SignEnd(s, i))
    ensures DigitsStart(t, SignEnd(s, i) + d) == DigitsStart(s, SignEnd(s, i)) + d
    ensures (i + d < |t| && t[i + d] == Minus) == (i < |s| && s[i] == Minus)
  {
    var j := SignEnd(s, i);
    if i < |s| {
      assert t[i + d] == s[i];
    }
    if j < |s| {
      assert t[j + d] == s[j];
    }
    if j + 1 < |s| {
      assert t[j + 1 + d] == s[j + 1];
    }
  }

  /** `ParseFrom` reads the same result from `t` at `i + d` as from `s` at
      `i`: the position of the text does not matter, and reading stops
      before whitespace. */
  lemma ParseFromMoved(s: JsString, t: JsString, d: nat, i: nat)
    requires MovedWithin(s, t, d) && i <= |s|
    ensures ParseFrom(t, i + d) == ParseFrom(s, i)
  {
    PrefixMoved(s, t, d, i);
    var j := SignEnd(s, i);
    ReadDigitsMoved(s, t, d, RadixAt(s, j), DigitsStart(s, j), i < |s| && s[i] == Minus);
  }

  /** Nothing left to read gives NaN. */
  lemma ParseFromEnd(s: JsString)
    ensures ParseFrom(s, |s|) == NaN
  {
  }

  lemma AppendedMoved(w: JsString, s: JsString)
    ensures MovedWithin(s, w + s, |w|)
  {
  }

  /** Leading whitespace is skipped. */
  lemma ParseIgnoresLeadingWhitespace(w: JsString, s: JsString)
    requires AllWhitespace(w)
    ensures ParseLeadingInt(w + s) == ParseLeadingInt(s)
  {
    var t := w + s;
    var i := WhitespaceEnd(s, 0);
    AppendedMoved(w, s);
    assert forall k :: 0 <= k < |w| ==> t[k] == w[k];
    WhitespaceEndAt(t, 0, i + |w|);
    ParseFromMoved(s, t, |w|, i);
  }

  /** Trailing whitespace is ignored: reading stops before it. */
  lemma ParseIgnoresTrailingWhitespace(s: JsString, w: JsString)
    requires AllWhitespace(w)
    ensures ParseLeadingInt(s + w) == ParseLeadingInt(s)
  {
    var t := s + w;
    var i := WhitespaceEnd(s, 0);
    assert MovedWithin(s, t, 0);
    if i < |s| {
      WhitespaceEndAt(t, 0, i);
      ParseFromMoved(s, t, 0, i);
    } else {
      WhitespaceEndAt(t, 0, |t|);
      ParseFromEnd(t);
      ParseFromEnd(s);
    }
  }

  /** Trimming a reply before `parseInt` makes no difference to the result. */
  lemma ParseAfterTrim(s: JsString)
    ensures ParseLeadingInt(Trim(s)) == ParseLeadingInt(s)
  {
    var t := TrimStart(s);
    TrimEndSplit(t);
    ParseIgnoresTrailingWhitespace(TrimEnd(t), t[|TrimEnd(t)|..]);
    TrimStartSplit(s);
    ParseIgnoresLeadingWhitespace(s[..|s| - |t|], t);
  }

  /** A sign (or none) followed by decimal digits, then something that
      neither continues the digits nor makes a hexadecimal prefix. */
  lemma ParseSignedDecimal(sign: JsString, d: JsString, rest: JsString)
    requires sign == [] || sign == [Plus] || sign == [Minus]
    requires |d| > 0 && AllDigitsIn(d, Ten)
    requires rest == [] || !IsDecimalDigit(rest[0])
    requires !(d == [Zero] && rest != [] && IsHexMarker(rest[0]))
    ensures ParseFrom(sign + (d + rest), 0)
         == Int(if sign == [Minus] then -(DigitsValue(d, Ten) as int) else DigitsValue(d, Ten))
  {
    var s := sign + (d + rest);
    var j := |sign|;
    var e := j + |d|;
    assert forall k :: j <= k < e ==> s[k] == d[k - j];
    assert e < |s| ==> s[e] == rest[0];
    assert SignEnd(s, 0) == j;
    assert !HexAt(s, j) by {
      if |d| > 1 {
        assert s[j + 1] == d[1];
      }
    }
    assert RadixAt(s, j) == Ten && DigitsStart(s, j) == j;
    DigitEndAt(s, Ten, j, e);
    ValueBetweenShift(d, s, Ten, 0, |d|, j);
    assert (0 < |s| && s[0] == Minus) <==> sign == [Minus];
  }

  /** A run of decimal digits after optional whitespace and sign is read up
      to the first non-digit; the only exception is a lone `0` followed by
      `x` or `X`, which starts a hexadecimal number instead. */
  lemma ParseDecimalPrefix(w: JsString, sign: JsString, d: JsString, rest: JsString)
    requires AllWhitespace(w)
    requires sign == [] || sign == [Plus] || sign == [Minus]
    requires |d| > 0 && AllDigitsIn(d, Ten)
    requires rest == [] || !IsDecimalDigit(rest[0])
    requires !(d == [Zero] && rest != [] && IsHexMarker(rest[0]))
    ensures ParseLeadingInt(w + sign + d + rest)
         == Int(if sign == [Minus] then -(DigitsValue(d, Ten) as int) else DigitsValue(d, Ten))
  {
    var t := sign + (d + rest);
    ConcatFour(w, sign, d, rest);
    ParseIgnoresLeadingWhitespace(w, t);
    assert t[0] == if sign == [] then d[0] else sign[0];
    WhitespaceEndAt(t, 0, 0);
    ParseSignedDecimal(sign, d, rest);
  }

  /** A sign (or none), a `0x` or `0X` prefix and hexadecimal digits, then
      something that does not continue the digits. */
  lemma ParseSignedHex(sign: JsString, x: CodeUnit, h: JsString, rest: JsString)
    requires sign == [] || sign == [Plus] || sign == [Minus]
    requires IsHexMarker(x)
    requires |h| > 0 && AllDigitsIn(h, Sixteen)
    requires rest == [] || !IsDigitIn(rest[0], Sixteen)
    ensures ParseFrom(sign + ([Zero, x] + h + rest), 0)
         == Int(if sign == [Minus] then -(DigitsValue(h, Sixteen) as int) else DigitsValue(h, Sixteen))
  {
    var s := sign + ([Zero, x] + h + rest);
    var j := |sign|;
    var k := j + 2;
    var e := k + |h|;
    assert SignEnd(s, 0) == j && ((0 < |s| && s[0] == Minus) <==> sign == [Minus]);
    assert HexAt(s, j) by {
      assert s[j] == Zero && s[j + 1] == x;
    }
    assert forall i :: k <= i < e ==> s[i] == h[i - k];
    var v: int := ValueBetween(s, Sixteen, k, e);
    assert ParseFrom(s, 0) == Int(if s[0] == Minus then -v else v) by {
      assert e < |s| ==> s[e] == rest[0];
      ParseFromHexAt(s, j, e);
    }
    assert v == DigitsValue(h, Sixteen) by {
      ValueBetweenShift(h, s, Sixteen, 0, |h|, k);
    }
  }

  /** Once the sign has ended at `j` and a hexadecimal prefix follows, the
      number is the run of hexadecimal digits after the prefix. */
  lemma ParseFromHexAt(s: JsString, j: nat, e: nat)
    requires SignEnd(s, 0) == j && HexAt(s, j) && j + 2 < e <= |s|
    requires forall i :: j + 2 <= i < e ==> IsDigitIn(s[i], Sixteen)
    requires e < |s| ==> !IsDigitIn(s[e], Sixteen)
    ensures ParseFrom(s, 0)
         == var v: int := ValueBetween(s, Sixteen, j + 2, e); Int(if s[0] == Minus then -v else v)
  {
    DigitEndAt(s, Sixteen, j + 2, e);
  }

  /** With no radix, `parseInt` reads a `0x` or `0X` prefix (after optional
      whitespace and sign) as the start of a hexadecimal number, and reads
      hexadecimal digits up to the first character that is not one. */
  lemma ParseHexPrefix(w: JsString, sign: JsString, x: CodeUnit, h: JsString, rest: JsString)
    requires AllWhitespace(w)
    requires sign == [] || sign == [Plus] || sign == [Minus]
    requires IsHexMarker(x)
    requires |h| > 0 && AllDigitsIn(h, Sixteen)
    requires rest == [] || !IsDigitIn(rest[0], Sixteen)
    ensures ParseLeadingInt(w + sign + [Zero, x] + h + rest)
         == Int(if sign == [Minus] then -(DigitsValue(h, Sixteen) as int) else DigitsValue(h, Sixteen))
  {
    var t := sign + ([Zero, x] + h + rest);
    ConcatFive(w, sign, [Zero, x], h, rest);
    ParseFromStart(w, t);
    ParseSignedHex(sign, x, h, rest);
  }

  /** After whitespace, `parseInt` starts reading at the first code unit
      that is not whitespace. */
  lemma ParseFromStart(w: JsString, t: JsString)
    requires AllWhitespace(w)
    requires t != [] && !IsWhitespace(t[0])
    ensures ParseLeadingInt(w + t) == ParseFrom(t, 0)
  {
    ParseIgnoresLeadingWhitespace(w, t);
    WhitespaceEndAt(t, 0, 0);
  }

  lemma ConcatFive(a: JsString, b: JsString, c: JsString, d: JsString, e: JsString)
    ensures a + b + c + d + e == a + (b + (c + d + e))
  {
    assert (a + b) + c == a + (b + c);
    assert (a + (b + c)) + d == a + ((b + c) + d);
    assert (b + c) + d == b + (c + d);
    assert (a + (b + (c + d))) + e == a + ((b + (c + d)) + e);
    assert (b + (c + d)) + e == b + ((c + d) + e);
  }

  lemma ConcatFour(a: JsString, b: JsString, c: JsString, d: JsString)
    ensures a + b + c + d == a + (b + (c + d))
  {
    assert (a + b) + c == a + (b + c);
    assert (a + (b + c)) + d == a + ((b + c) + d);
    assert (b + c) + d == b + (c + d);
  }

  /** There is no number to read: nothing follows the sign, a non-digit
      follows it, or a hexadecimal prefix is followed by a non-hex-digit. */
  predicate NoDigits(u: JsString) {
    || u == []
    || !IsDecimalDigit(u[0])
    || (|u| >= 2 && u[0] == Zero && IsHexMarker(u[1]) && (|u| == 2 || !IsDigitIn(u[2], Sixteen)))
  }

  /** Drops one leading `+` or `-`. */
  function DropSign(t: JsString): JsString {
    if |t| > 0 && (t[0] == Plus || t[0] == Minus) then t[1..] else t
  }

  lemma ReadDigitsNaN(s: JsString, j: nat)
    requires j <= |s|
    ensures ReadDigits(s, RadixAt(s, j), DigitsStart(s, j), false) == NaN <==> NoDigits(s[j..])
  {
    var u := s[j..];
    if j < |s| {
      assert u[0] == s[j];
    }
    if HexAt(s, j) {
      assert u[1] == s[j + 1];
      if j + 2 < |s| {
        assert u[2] == s[j + 2];
      }
    }
  }

  /** The text left once the leading whitespace and the sign are dropped. */
  lemma AfterSign(s: JsString)
    ensures DropSign(TrimStart(s)) == s[SignEnd(s, WhitespaceEnd(s, 0))..]
  {
  }

  /** parseInt gives NaN exactly when no digit follows the leading
      whitespace, the sign and the optional hexadecimal prefix. */
  lemma ParseNaNIff(s: JsString)
    ensures ParseLeadingInt(s) == NaN <==> NoDigits(DropSign(TrimStart(s)))
  {
    var i := WhitespaceEnd(s, 0);
    var j := SignEnd(s, i);
    AfterSign(s);
    ReadDigitsNaN(s, j);
    var negative := i < |s| && s[i] == Minus;
    assert ReadDigits(s, RadixAt(s, j), DigitsStart(s, j), negative) == NaN
       <==> ReadDigits(s, RadixAt(s, j), DigitsStart(s, j), false) == NaN;
  }

  /** The decimal text of a non-negative integer, as `String(n)` writes it. */
  function DecimalString(n: nat): (r: JsString)
    ensures |r| > 0 && AllDigitsIn(r, Ten)
    ensures DigitsValue(r, Ten) == n
    ensures r[0] == Zero ==> r == [Zero]
  {
    if n < 10 then
      var r := [(0x30 + n) as CodeUnit];
      assert ValueBetween(r, Ten, 0, 0) == 0;
      r
    else
      var p := DecimalString(n / 10);
      var r := p + [(0x30 + n % 10) as CodeUnit];
      ValueBetweenShift(p, r, Ten, 0, |p|, 0);
      r
  }

  /** Round trip: `parseInt(String(n) + rest) == n` whenever `rest` does
      not extend the digit run (nor turn a lone `0` into a hex prefix). */
  lemma ParseDecimalString(n: nat, rest: JsString)
    requires rest == [] || !IsDecimalDigit(rest[0])
    requires n != 0 || rest == [] || !IsHexMarker(rest[0])
    ensures ParseLeadingInt(DecimalString(n) + rest) == Int(n)
  {
    var d := DecimalString(n);
    assert [] + [] + d + rest == d + rest;
    ParseDecimalPrefix([], [], d, rest);
  }

  /** A single-pass scanner computing the same result as `ParseLeadingInt`. */
  method ScanLeadingInt(s: JsString) returns (r: ParsedInt)
    ensures r == ParseLeadingInt(s)
  {
    var i := 0;
    while i < |s| && IsWhitespace(s[i])
      invariant 0 <= i <= |s|
      invariant WhitespaceEnd(s, i) == WhitespaceEnd(s, 0)
    {
      i := i + 1;
    }
    assert i == WhitespaceEnd(s, 0);
    var negative := i < |s| && s[i] == Minus;
    var j := SignEnd(s, i);
    var radix := Ten;
    var k := j;
    if j + 1 < |s| && s[j] == Zero && IsHexMarker(s[j + 1]) {
      radix := Sixteen;
      k := j + 2;
    }
    assert radix == RadixAt(s, j) && k == DigitsStart(s, j);
    var e := k;
    var acc := 0;
    while e < |s| && IsDigitIn(s[e], radix)
      invariant k <= e <= |s|
      invariant forall x :: k <= x < e ==> IsDigitIn(s[x], radix)
      invariant acc == ValueBetween(s, radix, k, e)
    {
      assert ValueBetween(s, radix, k, e + 1) == Shift(acc, radix) + DigitValue(s[e], radix);
      acc := Shift(acc, radix) + DigitValue(s[e], radix);
      e := e + 1;
    }
    DigitEndAt(s, radix, k, e);
    assert ParseLeadingInt(s) == ReadDigits(s, radix, k, negative);
    if e == k {
      r := NaN;
    } else {
      r := Int(if negative then -acc else acc);
    }
  }
}
