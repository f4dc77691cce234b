/** The display decisions of the firmware's main loop: the comfort phrase for a heat index, the
    rounding of the heat index to the integer shown, the whole-degree temperature handed to the
    heat-index formula, and the heartbeat glyph chosen from the sensor status. */
module Comfort {
  import opened CTypes
  import opened Aht10Decode

  // ---------------------------------------------------------------------------------------
  // Comfort bands
  // ---------------------------------------------------------------------------------------

  /** The lowest heat index of bands 1..5; band 0 has no lower end, band 5 no upper end. */
  const Thresholds: seq<int> := [1, 11, 18, 28, 35]
  const BandCount := 6

  /** The phrase of each band, coldest first. */
  const Phrases: seq<string> :=
    ["Freezing!!", "Very cold!", "It's cold.", "It's nice!", "Very warm!", "Too hot!!!"]

  /** How many of the thresholds `ts` the value `temp` reaches. */
  function Reached(ts: seq<int>, temp: int): (n: nat)
    ensures n <= |ts|
  {
    if ts == [] then 0 else (if ts[0] <= temp then 1 else 0) + Reached(ts[1..], temp)
  }

  /** The comfort band of a heat index: the number of thresholds it reaches. */
  function Band(temp: int): (b: nat)
    ensures b < BandCount
  {
    Reached(Thresholds, temp)
  }

  /** `outFuzzyHeatIndex( temp )`: the 10-character phrase written to the display for an
      integer heat index; the phrase is returned instead of written. */
  function FuzzyHeatIndex(temp: int): (phrase: string)
    ensures |phrase| == 10
    ensures phrase in Phrases
  {
    if temp < 1 then "Freezing!!"
    else if temp < 11 then "Very cold!"
    else if temp < 18 then "It's cold."
    else if temp < 28 then "It's nice!"
    else if temp < 35 then "Very warm!"
    else "Too hot!!!"
  }

  /** The band count written out for the five thresholds. */
  lemma BandUnfold(temp: int)
    ensures Band(temp) == (if 1 <= temp then 1 else 0) + (if 11 <= temp then 1 else 0)
      + (if 18 <= temp then 1 else 0) + (if 28 <= temp then 1 else 0) + (if 35 <= temp then 1 else 0)
  {
    assert Reached([35], temp) == (if 35 <= temp then 1 else 0) by {
      assert [35][1..] == [];
    }
    assert Reached([28, 35], temp) == (if 28 <= temp then 1 else 0) + Reached([35], temp) by {
      assert [28, 35][1..] == [35];
    }
    assert Reached([18, 28, 35], temp) == (if 18 <= temp then 1 else 0) + Reached([28, 35], temp) by {
      assert [18, 28, 35][1..] == [28, 35];
    }
    assert Reached([11, 18, 28, 35], temp)
      == (if 11 <= temp then 1 else 0) + Reached([18, 28, 35], temp) by {
      assert [11, 18, 28, 35][1..] == [18, 28, 35];
    }
    assert Thresholds[1..] == [11, 18, 28, 35];
  }

  /** The if/else-if chain writes the phrase of the band its argument falls in. */
  lemma FuzzyMatchesBand(temp: int)
    ensures FuzzyHeatIndex(temp) == Phrases[Band(temp)]
  {
    BandUnfold(temp);
  }

  /** The bands are half open: band b holds exactly the heat indices from threshold b-1
      (inclusive) up to threshold b (exclusive). */
  lemma BandHalfOpen(temp: int, b: nat)
    requires b < BandCount
    ensures Band(temp) == b <==>
      (b == 0 || Thresholds[b - 1] <= temp) && (b == BandCount - 1 || temp < Thresholds[b])
  {
    BandUnfold(temp);
  }

  /** Reaching thresholds is monotone in the value, for any list of thresholds. */
  lemma {:induction false} ReachedMonotone(ts: seq<int>, a: int, b: int)
    requires a <= b
    ensures Reached(ts, a) <= Reached(ts, b)
  {
    if ts != [] {
      ReachedMonotone(ts[1..], a, b);
    }
  }

  /** A warmer heat index never falls in a colder band. */
  lemma BandMonotone(a: int, b: int)
    requires a <= b
    ensures Band(a) <= Band(b)
  {
    ReachedMonotone(Thresholds, a, b);
  }

  /** The six phrases are distinct and all ten characters long, so the phrase shown names
      the band. */
  lemma PhrasesDistinct()
    ensures |Phrases| == BandCount
    ensures forall i :: 0 <= i < |Phrases| ==> |Phrases[i]| == 10
    ensures forall i, j :: 0 <= i < j < |Phrases| ==> Phrases[i] != Phrases[j]
  {
    forall i, j | 0 <= i < j < |Phrases|
      ensures Phrases[i] != Phrases[j]
    {
      assert Phrases[i][0] != Phrases[j][0] || Phrases[i][5] != Phrases[j][5];
    }
  }

  /** Two heat indices get the same phrase exactly when they lie in the same band. */
  lemma SamePhraseSameBand(a: int, b: int)
    ensures FuzzyHeatIndex(a) == FuzzyHeatIndex(b) <==> Band(a) == Band(b)
  {
    FuzzyMatchesBand(a);
    FuzzyMatchesBand(b);
    PhrasesDistinct();
  }

  /** The values on either side of each threshold. */
  lemma FuzzyBoundaries()
    ensures FuzzyHeatIndex(-1) == "Freezing!!" && FuzzyHeatIndex(0) == "Freezing!!"
    ensures FuzzyHeatIndex(1) == "Very cold!" && FuzzyHeatIndex(10) == "Very cold!"
    ensures FuzzyHeatIndex(11) == "It's cold." && FuzzyHeatIndex(17) == "It's cold."
    ensures FuzzyHeatIndex(18) == "It's nice!" && FuzzyHeatIndex(27) == "It's nice!"
    ensures FuzzyHeatIndex(28) == "Very warm!" && FuzzyHeatIndex(34) == "Very warm!"
    ensures FuzzyHeatIndex(35) == "Too hot!!!"
  {
  }

  // ---------------------------------------------------------------------------------------
  // Rounding the heat index
  // ---------------------------------------------------------------------------------------

  /** The C conversion of a floating value to `int`: truncation toward zero. */
  function TruncToInt(x: real): (n: int)
    ensures 0.0 <= x ==> n as real <= x < n as real + 1.0
    ensures x < 0.0 ==> n as real - 1.0 < x <= n as real
  {
    if 0.0 <= x then x.Floor else -((-x).Floor)
  }

  /** The in-place adjustment of `heatIdx`: half a unit away from zero. */
  function Nudge(h: real): (r: real)
    ensures Dist(r, h) == 0.5
    ensures h < 0.0 ==> r < h
    ensures 0.0 <= h ==> h < r
  {
    if h < 0.0 then h - 0.5 else h + 0.5
  }

  /** The integer shown for a heat index `h`: nudged away from zero, then truncated. */
  function RoundHeatIndex(h: real): (n: int)
    ensures -0.5 <= n as real - h <= 0.5
  {
    TruncToInt(Nudge(h))
  }

  /** The shown integer is a nearest integer to the heat index. */
  lemma RoundIsNearest(h: real, m: int)
    ensures Dist(RoundHeatIndex(h) as real, h) <= Dist(m as real, h)
  {
    var n := RoundHeatIndex(h);
    if m < n {
      assert m as real <= n as real - 1.0;
    } else if m > n {
      assert m as real >= n as real + 1.0;
    }
  }

  function Dist(x: real, y: real): real
  {
    if x <= y then y - x else x - y
  }

  /** Rounding is symmetric about zero. */
  lemma RoundOdd(h: real)
    ensures RoundHeatIndex(-h) == -RoundHeatIndex(h)
  {
    if h > 0.0 {
      assert Nudge(-h) == -(h + 0.5);
    } else if h < 0.0 {
      assert Nudge(-h) == -h + 0.5;
      assert -(Nudge(h)) == -h + 0.5;
    }
  }

  /** Exact halves go away from zero. */
  lemma RoundHalvesAway(k: nat)
    ensures RoundHeatIndex(k as real + 0.5) == k + 1
    ensures RoundHeatIndex(-(k as real) - 0.5) == -(k + 1)
  {
    assert Nudge(k as real + 0.5) == (k + 1) as real;
    assert ((k + 1) as real).Floor == k + 1;
    RoundOdd(k as real + 0.5);
    assert -(k as real + 0.5) == -(k as real) - 0.5;
  }

  lemma RoundSamples()
    ensures RoundHeatIndex(17.4) == 17 && RoundHeatIndex(-0.6) == -1
    ensures RoundHeatIndex(0.0) == 0 && RoundHeatIndex(-0.4) == 0
  {
    assert Nudge(17.4) == 17.9;
    assert Nudge(-0.6) == -1.1;
    assert (1.1).Floor == 1;
    assert Nudge(-0.4) == -0.9;
    assert (0.9).Floor == 0;
  }

  // ---------------------------------------------------------------------------------------
  // Whole degrees for the heat-index formula
  // ---------------------------------------------------------------------------------------

  /** C integer division `a / b`: the quotient truncated toward zero. */
  function CDiv(a: int, b: int): (q: int)
    requires b != 0
    ensures 0 <= a ==> 0 <= a - q * b < Abs(b)
    ensures a < 0 ==> -Abs(b) < a - q * b <= 0
  {
    if 0 <= a then
      (if 0 < b then a / b else -(a / -b))
    else
      (if 0 < b then -((-a) / b) else (-a) / (-b))
  }

  function Abs(x: int): (r: int)
    ensures r >= 0 && (r == x || r == -x)
  {
    if x < 0 then -x else x
  }

  /** Different quotients leave remainders at least the divisor apart. */
  lemma RemaindersApart(a: int, b: int, lo: int, hi: int)
    requires b != 0 && lo < hi
    ensures Abs((a - lo * b) - (a - hi * b)) >= Abs(b)
  {
    var d := Abs(b);
    MulGap(d, lo, hi);
    if b > 0 {
      assert (a - lo * b) - (a - hi * b) == d * hi - d * lo;
    } else {
      assert b * hi == -(d * hi) && b * lo == -(d * lo);
      assert (a - lo * b) - (a - hi * b) == -(d * hi - d * lo);
    }
  }

  /** The quotient is fixed by the remainder rule of C: it is the only q whose remainder has
      the dividend's sign and is smaller than the divisor in magnitude. */
  lemma CDivUnique(a: int, b: int, q: int)
    requires b != 0
    requires 0 <= a ==> 0 <= a - q * b < Abs(b)
    requires a < 0 ==> -Abs(b) < a - q * b <= 0
    ensures q == CDiv(a, b)
  {
    var p := CDiv(a, b);
    if q < p {
      RemaindersApart(a, b, q, p);
    } else if p < q {
      RemaindersApart(a, b, p, q);
    }
  }

  /** Negating the dividend negates the quotient; Euclidean division does not do this. */
  lemma CDivOdd(a: int, b: int)
    requires b != 0
    ensures CDiv(-a, b) == -CDiv(a, b)
  {
    var q := CDiv(a, b);
    if a != 0 {
      assert (-a) - (-q) * b == -(a - q * b);
      CDivUnique(-a, b, -q);
    }
  }

  /** `temp100 / 100` at -1.5 and 1.5 degrees, beside Euclidean division. */
  lemma CDivSamples()
    ensures CDiv(-150, 100) == -1 && CDiv(150, 100) == 1
    ensures -150 / 100 == -2
    ensures CDiv(-99, 100) == 0 && CDiv(-5000, 100) == -50
  {
  }

  /** `rTemp = temp100 / 100`: whole degrees, truncated toward zero. */
  function WholeDegrees(temp100: Int16): (deg: int)
    ensures -327 <= deg <= 327
  {
    CDiv(temp100, 100)
  }

  /** For a temperature the decoder can produce, the whole degrees lie in -50..149. */
  lemma WholeDegreesOfSensor(tempData: UInt32)
    requires tempData < FieldLimit
    ensures -50 <= WholeDegrees(CentiCelsius(tempData)) <= 149
  {
    CentiCelsiusExact(tempData);
  }

  // ---------------------------------------------------------------------------------------
  // The "Feels like" line
  // ---------------------------------------------------------------------------------------

  /** What the second display line shows: the rounded heat index and, later, its phrase. */
  datatype FeelsLike = FeelsLike(shown: int, phrase: string)

  /** The chain of the main loop from a reading to the "Feels like" line: whole degrees and
      whole percent go to the heat-index formula `heatIndex`, which is not part of this model;
      the result is rounded once, and both the number and the phrase use that one value, the
      phrase through the implicit truncation of the argument of `outFuzzyHeatIndex`. */
  function FeelsLikeLine(temp100: Int16, humid100: Int16, heatIndex: (real, real) -> real)
    : (line: FeelsLike)
    ensures -0.5 <= line.shown as real - heatIndex(WholeDegrees(temp100) as real, humid100 as real) <= 0.5
    ensures line.shown == RoundHeatIndex(heatIndex(WholeDegrees(temp100) as real, humid100 as real))
    ensures line.phrase == Phrases[Band(line.shown)]
  {
    var heatIdx := heatIndex(WholeDegrees(temp100) as real, humid100 as real);
    var nudged := Nudge(heatIdx);
    FuzzyMatchesBand(TruncToInt(nudged));
    FeelsLike(TruncToInt(nudged), FuzzyHeatIndex(TruncToInt(nudged)))
  }

  // ---------------------------------------------------------------------------------------
  // Heartbeat
  // ---------------------------------------------------------------------------------------

  /** The status the sensor reports when it is calibrated and idle. */
  const StatusNormal: Byte := 0x19
  /** The glyph for normal operation: the display's centre dot. */
  const HeartbeatDot: Byte := 0xA5
  /** The glyph for any other status: 'E'. */
  const ErrorGlyph: Byte := 0x45

  /** The character shown at the end of the first line for the status of the last reading. */
  function Heartbeat(status: Byte): (glyph: Byte)
    ensures glyph == HeartbeatDot <==> status == StatusNormal
    ensures glyph != HeartbeatDot ==> glyph == 'E' as int
  {
    if status == StatusNormal then HeartbeatDot else ErrorGlyph
  }

  /** A busy sensor (bit 7 set) is shown as an error, like any status but 0x19. */
  lemma HeartbeatOfBusy()
    ensures Heartbeat(0x99) == 'E' as int
    ensures Heartbeat(0x18) == 'E' as int
  {
  }

  /** The heartbeat reflects the first byte of the frame the sensor sent. */
  lemma HeartbeatOfFrame(f: Frame)
    ensures Heartbeat(Decode(f).status) == HeartbeatDot <==> f[0] == StatusNormal
  {
  }
}
