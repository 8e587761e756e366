/** The confidence score the match handler reports: the model's reply is
    trimmed, its leading integer read with `parseInt`, NaN taken as 0, and
    the result clamped to [0, 100]; a call that threw also gives 0. */
module Confidence {
  import opened Wrappers
  import opened Js
  import opened ParseInt

  /** `Math.min(100, Math.max(0, x))`. */
  function Clamp(x: int): (r: int)
    ensures 0 <= r <= 100
    ensures 0 <= x <= 100 ==> r == x
    ensures x < 0 ==> r == 0
    ensures 100 < x ==> r == 100
  {
    Min(100, Max(0, x))
  }

  lemma ClampIdempotent(x: int)
    ensures Clamp(Clamp(x)) == Clamp(x)
  {
  }

  lemma ClampMonotone(x: int, y: int)
    requires x <= y
    ensures Clamp(x) <= Clamp(y)
  {
  }

  /** The confidence for one language-model outcome: `None` when the call
      threw, otherwise the text of the reply. */
  function ConfidenceFromReply(reply: Option<JsString>): (c: int)
    ensures 0 <= c <= 100
    ensures reply.None? ==> c == 0
  {
    match reply
    case None => 0
    case Some(text) =>
      match ParseLeadingInt(Trim(text))
      case NaN => 0
      case Int(v) => Clamp(v)
  }

  /** The `trim()` before `parseInt` is redundant: the confidence is the
      clamped leading integer of the raw reply, or 0 when there is none. */
  lemma ConfidenceOfRawReply(text: JsString)
    ensures ConfidenceFromReply(Some(text))
         == match ParseLeadingInt(text) case NaN => 0 case Int(v) => Clamp(v)
  {
    ParseAfterTrim(text);
  }

  /** A reply with no number at its start (after whitespace and a sign)
      gives 0, as does an empty reply. */
  lemma ConfidenceWithoutDigits(text: JsString)
    requires NoDigits(DropSign(TrimStart(text)))
    ensures ConfidenceFromReply(Some(text)) == 0
  {
    ConfidenceOfRawReply(text);
    ParseNaNIff(text);
  }

  /** A reply made of optional whitespace, an optional sign and decimal
      digits, then anything that does not continue the number, scores the
      clamped signed value of those digits. */
  lemma ConfidenceOfDigits(w: JsString, sign: JsString, d: JsString, rest: JsString)
    requires AllWhitespace(w)
    requires sign == [] || sign == [Plus] || sign == [Minus]
    requires |d| > 0 && AllDigitsIn(d, Ten)
    requires rest == [] || !IsDecimalDigit(rest[0])
    requires !(d == [Zero] && rest != [] && IsHexMarker(rest[0]))
    ensures ConfidenceFromReply(Some(w + sign + d + rest))
         == Clamp(if sign == [Minus] then -(DigitsValue(d, Ten) as int) else DigitsValue(d, Ten))
  {
    ConfidenceOfRawReply(w + sign + d + rest);
    ParseDecimalPrefix(w, sign, d, rest);
  }

  /** The answer the model is asked for, a number from 0 to 100 written in
      decimal (possibly padded or followed by `%` or an explanation), is
      reported unchanged. */
  lemma ConfidenceOfScore(w: JsString, n: nat, rest: JsString)
    requires n <= 100
    requires AllWhitespace(w)
    requires rest == [] || !IsDecimalDigit(rest[0])
    requires n != 0 || rest == [] || !IsHexMarker(rest[0])
    ensures ConfidenceFromReply(Some(w + DecimalString(n) + rest)) == n
  {
    var d := DecimalString(n);
    var none: JsString := [];
    assert w + none == w;
    ConfidenceOfDigits(w, none, d, rest);
  }

  /** A score padded with whitespace is read through the padding. */
  lemma ConfidenceOfPaddedScore()
    ensures ConfidenceFromReply(Some(Lit(" 85 "))) == 85
  {
    var none: JsString := [];
    var d: JsString := [0x38, 0x35];
    assert DigitsValue(d, Ten) == 85 by {
      assert ValueBetween(d, Ten, 0, 1) == 8;
    }
    assert Lit(" 85 ") == [0x20] + none + d + [0x20];
    ConfidenceOfDigits([0x20], none, d, [0x20]);
  }

  /** A percent sign after the score is ignored. */
  lemma ConfidenceOfPercentScore()
    ensures ConfidenceFromReply(Some(Lit("72%"))) == 72
  {
    var none: JsString := [];
    var d: JsString := [0x37, 0x32];
    assert DigitsValue(d, Ten) == 72 by {
      assert ValueBetween(d, Ten, 0, 1) == 7;
    }
    assert Lit("72%") == none + none + d + [0x25];
    ConfidenceOfDigits(none, none, d, [0x25]);
  }

  /** A reply in hexadecimal is read as such: `0x50` is 80. */
  lemma ConfidenceOfHexScore()
    ensures ConfidenceFromReply(Some(Lit("0x50"))) == 80
  {
    var none: JsString := [];
    var h: JsString := [0x35, 0x30];
    assert DigitsValue(h, Sixteen) == 80 by {
      assert ValueBetween(h, Sixteen, 0, 1) == 5;
    }
    assert Lit("0x50") == none + none + [Zero, 0x78] + h + none;
    ParseHexPrefix(none, none, 0x78, h, none);
    ConfidenceOfRawReply(Lit("0x50"));
  }

  /** A score above 100 is capped at 100. */
  lemma ConfidenceOfLargeScore()
    ensures ConfidenceFromReply(Some(Lit("150"))) == 100
  {
    var none: JsString := [];
    var d: JsString := [0x31, 0x35, 0x30];
    assert DigitsValue(d, Ten) == 150 by {
      assert ValueBetween(d, Ten, 0, 1) == 1;
      assert ValueBetween(d, Ten, 0, 2) == 15;
    }
    assert Lit("150") == none + none + d + none;
    ConfidenceOfDigits(none, none, d, none);
  }

  /** A negative score is raised to 0. */
  lemma ConfidenceOfNegativeScore()
    ensures ConfidenceFromReply(Some(Lit("-5"))) == 0
  {
    var none: JsString := [];
    var d: JsString := [0x35];
    assert DigitsValue(d, Ten) == 5 by {
      assert ValueBetween(d, Ten, 0, 0) == 0;
    }
    assert Lit("-5") == none + [Minus] + d + none;
    ConfidenceOfDigits(none, [Minus], d, none);
  }

  /** A reply in words scores 0. */
  lemma ConfidenceOfWords()
    ensures ConfidenceFromReply(Some(Lit("high"))) == 0
  {
    var high: JsString := [0x68, 0x69, 0x67, 0x68];
    assert Lit("high") == high;
    assert WhitespaceEnd(high, 0) == 0;
    assert TrimStart(high) == high;
    ConfidenceWithoutDigits(high);
  }
}
