/** The quality label the match handler attaches to a confidence score: a
    ladder of thresholds at 90, 70, 50 and 30, tried from the top. */
module Quality {
  import opened Js

  /** The five rungs of the ladder, from worst to best. */
  datatype Band = NoMatch | Weak | Moderate | Good | Excellent

  /** The position of a band on the ladder, 0 for the worst. */
  function Rank(b: Band): nat {
    match b
    case NoMatch => 0
    case Weak => 1
    case Moderate => 2
    case Good => 3
    case Excellent => 4
  }

  /** The interval of scores each band stands for; the bottom band also
      takes every score below 30 and the top one every score from 90 up. */
  predicate InBand(c: int, b: Band) {
    match b
    case Excellent => 90 <= c
    case Good => 70 <= c < 90
    case Moderate => 50 <= c < 70
    case Weak => 30 <= c < 50
    case NoMatch => c < 30
  }

  /** The band the if/else-if chain selects for a score. */
  function BandOf(c: int): (b: Band)
    ensures InBand(c, b)
  {
    if c >= 90 then Excellent
    else if c >= 70 then Good
    else if c >= 50 then Moderate
    else if c >= 30 then Weak
    else NoMatch
  }

  /** The label text of each band, exactly as the handler sends it: each
      ends in " Match", and two of the five carry a leading space. */
  function Label(b: Band): (r: JsString)
    ensures |r| > 6 && r[|r| - 6..] == Lit(" Match")
  {
    match b
    case Excellent => Lit("Excellent Match")
    case Good => Lit("Good Match")
    case Moderate => Lit(" Moderate Match")
    case Weak => Lit("Weak Match")
    case NoMatch => Lit(" No Match")
  }

  /** The `quality` field of a successful match response: the label of the
      band the score lies in. */
  function QualityLabel(c: int): (r: JsString)
    ensures forall b :: InBand(c, b) ==> r == Label(b)
  {
    Label(BandOf(c))
  }

  /** The bands' intervals do not overlap, so a score lies in the band
      `BandOf` gives it and in no other. */
  lemma BandOfIff(c: int, b: Band)
    ensures BandOf(c) == b <==> InBand(c, b)
  {
  }

  /** A higher score never gets a lower band. */
  lemma {:induction false} BandOfMonotone(c1: int, c2: int)
    requires c1 <= c2
    ensures Rank(BandOf(c1)) <= Rank(BandOf(c2))
  {
    if BandOf(c1) != BandOf(c2) {
      BandOfIff(c1, BandOf(c2));
    }
  }

  /** The lowest score of each band, the threshold the chain tests. */
  function Threshold(b: Band): (t: int)
    ensures InBand(t, b)
    ensures b != NoMatch ==> !InBand(t - 1, b)
  {
    match b
    case Excellent => 90
    case Good => 70
    case Moderate => 50
    case Weak => 30
    case NoMatch => 0
  }

  /** Every band is reached by some score in [0, 100], the range the
      confidence score is clamped to. */
  lemma EveryBandReachable(b: Band)
    ensures 0 <= Threshold(b) <= 100 && BandOf(Threshold(b)) == b
  {
    BandOfIff(Threshold(b), b);
  }

  /** The first code unit and the length of each label. */
  function Shape(b: Band): (shape: (CodeUnit, nat))
    ensures |Label(b)| == shape.1 > 0 && Label(b)[0] == shape.0
  {
    match b
    case Excellent => (0x45, 15)
    case Good => (0x47, 10)
    case Moderate => (0x20, 15)
    case Weak => (0x57, 10)
    case NoMatch => (0x20, 9)
  }

  /** Exactly the "Moderate" and "No Match" labels start with a space. */
  lemma LabelLeadingSpace(b: Band)
    ensures Label(b)[0] == 0x20 <==> b == Moderate || b == NoMatch
  {
    var _ := Shape(b);
  }

  /** The labels of two bands are equal only when the bands are: no two
      bands share both the first code unit and the length of their label. */
  lemma LabelsDistinct(b1: Band, b2: Band)
    ensures Label(b1) == Label(b2) <==> b1 == b2
  {
    var shape1 := Shape(b1);
    var shape2 := Shape(b2);
    assert b1 != b2 ==> shape1 != shape2;
  }

  /** Two scores get the same label exactly when they fall in the same band. */
  lemma QualityLabelSame(c1: int, c2: int)
    ensures QualityLabel(c1) == QualityLabel(c2) <==> BandOf(c1) == BandOf(c2)
  {
    LabelsDistinct(BandOf(c1), BandOf(c2));
  }

  /** The boundaries of the ladder: each threshold opens its band and the
      score just below it falls in the band underneath. */
  lemma QualityBoundaries()
    ensures QualityLabel(100) == QualityLabel(90) == Lit("Excellent Match")
    ensures QualityLabel(89) == QualityLabel(70) == Lit("Good Match")
    ensures QualityLabel(69) == QualityLabel(50) == Lit(" Moderate Match")
    ensures QualityLabel(49) == QualityLabel(30) == Lit("Weak Match")
    ensures QualityLabel(29) == QualityLabel(0) == Lit(" No Match")
  {
  }
}
