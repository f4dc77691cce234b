/** The fixed-point decoder of the AHT10 library: the two 20-bit fields of the 6-byte frame
    and their conversion to centi-degrees Celsius and to whole percent relative humidity, in
    the C integer arithmetic the library uses (no floating point). */
module Aht10Decode {
  import opened CTypes

  /** Byte 0 is the status register, bytes 1..5 hold humidity [19:0] and temperature [19:0]. */
  type Frame = s: seq<Byte> | |s| == 6 witness [0, 0, 0, 0, 0, 0]

  const FieldLimit: int := 0x10_0000

  /** `( ahtData[1]<<16 | ahtData[2]<<8 | ahtData[3] ) >> 4`; the bytes are promoted to int. */
  function HumidData(f: Frame): (h: UInt32)
    ensures h < FieldLimit
  {
    OrBytes3(f[1], f[2], f[3]) / 16
  }

  /** `( ahtData[3] & 0x0F ) <<16 | ahtData[4]<<8 | ahtData[5]` */
  function TempData(f: Frame): (t: UInt32)
    ensures t < FieldLimit
  {
    Pow2Values();
    AndLowMask(f[3], 4);
    OrBytes3(BitAnd(f[3], 0x0F), f[4], f[5])
  }

  /** `a<<16 | b<<8 | c` as C groups it, for a < 2^8; the value stays far below 2^31. */
  function OrBytes3(a: nat, b: Byte, c: Byte): (r: nat)
    requires a < 0x100
    ensures r == a * 0x1_0000 + b * 0x100 + c
  {
    Pow2Values();
    OrOfDisjoint(a, Shl(b, 8), 16);
    OrOfDisjoint(a * 0x100 + b, c, 8);
    BitOr(BitOr(Shl(a, 16), Shl(b, 8)), c)
  }

  /** The humidity field is bytes 1 and 2 and the high nibble of byte 3, below 2^20. */
  lemma HumidDataLayout(f: Frame)
    ensures HumidData(f) == f[1] as int * 0x1000 + f[2] as int * 0x10 + f[3] as int / 0x10
    ensures HumidData(f) < FieldLimit
  {
  }

  /** The temperature field is the low nibble of byte 3 and bytes 4 and 5, below 2^20. */
  lemma TempDataLayout(f: Frame)
    ensures TempData(f) == (f[3] as int % 0x10) * 0x1_0000 + f[4] as int * 0x100 + f[5] as int
    ensures TempData(f) < FieldLimit
  {
    Pow2Values();
    AndLowMask(f[3], 4);
  }

  /** The frame the sensor sends for a status byte and two 20-bit readings. */
  function EncodeFrame(status: Byte, humid: nat, temp: nat): (f: Frame)
    requires humid < FieldLimit && temp < FieldLimit
    ensures f[0] == status
  {
    var humidHigh := humid / 0x10;
    var tempHigh := temp / 0x100;
    [status, humidHigh / 0x100, humidHigh % 0x100,
     (humid % 0x10) * 0x10 + tempHigh / 0x100, tempHigh % 0x100, temp % 0x100]
  }

  /** Extraction undoes the sensor's packing of the two fields. */
  lemma ExtractEncoded(status: Byte, humid: nat, temp: nat)
    requires humid < FieldLimit && temp < FieldLimit
    ensures HumidData(EncodeFrame(status, humid, temp)) == humid
    ensures TempData(EncodeFrame(status, humid, temp)) == temp
  {
    var f := EncodeFrame(status, humid, temp);
    var humidHigh, tempHigh := humid / 0x10, temp / 0x100;
    ModUnique(f[3], 0x10, humid % 0x10, tempHigh / 0x100);
    HumidDataLayout(f);
    TempDataLayout(f);
  }

  /** Every frame is the packing of its status and its two fields: nothing but those
      three values is carried by a frame. */
  lemma EncodeExtracted(f: Frame)
    ensures EncodeFrame(f[0], HumidData(f), TempData(f)) == f
  {
    HumidDataLayout(f);
    TempDataLayout(f);
    var h, t := HumidData(f), TempData(f);
    var b1: int, b2: int, b3: int, b4: int, b5: int := f[1], f[2], f[3], f[4], f[5];
    ModUnique(h, 0x10, b1 * 0x100 + b2, b3 / 0x10);
    ModUnique(b1 * 0x100 + b2, 0x100, b1, b2);
    ModUnique(t, 0x100, (b3 % 0x10) * 0x100 + b4, b5);
    ModUnique((b3 % 0x10) * 0x100 + b4, 0x100, b3 % 0x10, b4);
    var g := EncodeFrame(f[0], h, t);
    assert g[3] == b3;
    assert g == f;
  }

  /** The humidity field is determined by, and determines, exactly bytes 1, 2 and the high
      nibble of byte 3; the status byte, bytes 4 and 5 and the low nibble of byte 3 play no part. */
  lemma HumidDataDependsOn(f: Frame, g: Frame)
    ensures HumidData(f) == HumidData(g) <==> f[1] == g[1] && f[2] == g[2] && f[3] / 0x10 == g[3] / 0x10
  {
    HumidDataLayout(f);
    HumidDataLayout(g);
    if HumidData(f) == HumidData(g) {
      var f1: int, f2: int, f3: int, g1: int, g2: int, g3: int := f[1], f[2], f[3], g[1], g[2], g[3];
      ModUnique(HumidData(f), 0x10, f1 * 0x100 + f2, f3 / 0x10);
      ModUnique(HumidData(g), 0x10, g1 * 0x100 + g2, g3 / 0x10);
      ModUnique(f1 * 0x100 + f2, 0x100, f1, f2);
      ModUnique(g1 * 0x100 + g2, 0x100, g1, g2);
    }
  }

  /** The temperature field is determined by, and determines, exactly the low nibble of
      byte 3 and bytes 4 and 5; the status byte, bytes 1 and 2 and the high nibble of byte 3
      play no part. */
  lemma TempDataDependsOn(f: Frame, g: Frame)
    ensures TempData(f) == TempData(g) <==> f[3] % 0x10 == g[3] % 0x10 && f[4] == g[4] && f[5] == g[5]
  {
    TempDataLayout(f);
    TempDataLayout(g);
    if TempData(f) == TempData(g) {
      var f3: int, f4: int, f5: int, g3: int, g4: int, g5: int := f[3], f[4], f[5], g[3], g[4], g[5];
      ModUnique(TempData(f), 0x100, (f3 % 0x10) * 0x100 + f4, f5);
      ModUnique(TempData(g), 0x100, (g3 % 0x10) * 0x100 + g4, g5);
      ModUnique((f3 % 0x10) * 0x100 + f4, 0x100, f3 % 0x10, f4);
      ModUnique((g3 % 0x10) * 0x100 + g4, 0x100, g3 % 0x10, g4);
    }
  }

  /** `*temp100 = (tempData*625) / 32768 - 5000`: the arithmetic is done in uint32_t, so
      the subtraction wraps below zero, and the result is stored into an int16_t. */
  function CentiCelsius(tempData: UInt32): (r: Int16)
    ensures tempData < FieldLimit ==> r == tempData * 625 / 32768 - 5000
  {
    var r := ToInt16(U32Sub(U32Div(U32Mul(tempData, 625), 32768), 5000));
    if tempData < FieldLimit then ConversionExact(tempData); r else r
  }

  /** The uint32_t steps of the temperature conversion, narrowed, give the mathematical value
      for every 20-bit field, although the subtraction wraps below 0 degrees Celsius. */
  lemma ConversionExact(t: UInt32)
    requires t < FieldLimit
    ensures ToInt16(U32Sub(U32Div(U32Mul(t, 625), 32768), 5000)) == t * 625 / 32768 - 5000
  {
    var q := t * 625 / 32768;
    assert 0 <= q < 20000;
    var w := U32Sub(q, 5000);
    assert (w - (q - 5000)) % U16Modulus == 0 by {
      if q < 5000 {
        assert w - (q - 5000) == U16Modulus * 0x1_0000;
      }
    }
    ToInt16Congruent(w, q - 5000);
  }

  /** `*humid100 = humidData/10486`, stored into an int16_t. */
  function HumidPercent(humidData: UInt32): (r: Int16)
    ensures humidData < FieldLimit ==> r == humidData / 10486
  {
    ToInt16(U32Div(humidData, 10486))
  }

  /** For every 20-bit field the product does not overflow, the subtraction wraps exactly
      when the quotient is below 5000, and after narrowing the result is the mathematical
      value, which lies in -5000..14999. */
  lemma CentiCelsiusExact(t: UInt32)
    requires t < FieldLimit
    ensures U32Mul(t, 625) == t * 625
    ensures var q := t * 625 / 32768;
      U32Sub(q, 5000) == (if q < 5000 then q - 5000 + U32Modulus else q - 5000)
    ensures CentiCelsius(t) == t * 625 / 32768 - 5000
    ensures -5000 <= CentiCelsius(t) <= 14999
  {
    assert 0 <= t * 625 / 32768 < 20000;
  }

  /** Two integers congruent modulo 2^16 narrow to the same int16_t. */
  lemma ToInt16Congruent(x: int, y: int)
    requires (x - y) % U16Modulus == 0
    ensures ToInt16(x) == ToInt16(y)
  {
    var k := (x - y) / U16Modulus;
    assert x == y + U16Modulus * k;
    ModUnique(x, U16Modulus, y / U16Modulus + k, y % U16Modulus);
  }

  /** The stored value is the true centi-degree value truncated downwards: never above it,
      less than one centi-degree below it. The true value is 100 * (200 * t / 2^20 - 50). */
  lemma CentiCelsiusTruncates(t: UInt32)
    requires t < FieldLimit
    ensures var exact := 100.0 * (200.0 * (t as real) / 1048576.0 - 50.0);
      (CentiCelsius(t) as real) <= exact < (CentiCelsius(t) as real) + 1.0
  {
    CentiCelsiusExact(t);
    var q := t * 625 / 32768;
    assert q * 32768 <= t * 625 < q * 32768 + 32768;
    assert (q as real) * 32768.0 <= (t as real) * 625.0 < (q as real) * 32768.0 + 32768.0;
  }

  /** A larger temperature field never gives a smaller temperature. */
  lemma CentiCelsiusMonotone(t1: UInt32, t2: UInt32)
    requires t1 <= t2 < FieldLimit
    ensures CentiCelsius(t1) <= CentiCelsius(t2)
  {
    CentiCelsiusExact(t1);
    CentiCelsiusExact(t2);
    DivMonotone(t1 * 625, t2 * 625, 32768);
  }

  lemma DivMonotone(a: nat, b: nat, d: int)
    requires a <= b && d > 0
    ensures a / d <= b / d
  {
    if a / d > b / d {
      MulGap(d, b / d, a / d);
    }
  }

  /** For every 20-bit field the stored value is the truncated quotient, a whole percent
      between 0 and 99 (not hundredths of a percent). */
  lemma HumidPercentExact(h: UInt32)
    requires h < FieldLimit
    ensures HumidPercent(h) == h / 10486
    ensures 0 <= HumidPercent(h) <= 99
  {
  }

  /** 10486 slightly exceeds 2^20 / 100, so the stored percent is the true whole percent
      (100 * h / 2^20, truncated) or one below it. */
  lemma HumidPercentApproximates(h: UInt32)
    requires h < FieldLimit
    ensures var exact := h * 100 / FieldLimit;
      exact == HumidPercent(h) || exact == HumidPercent(h) + 1
  {
    HumidPercentExact(h);
    var r := h / 10486;
    var exact := h * 100 / FieldLimit;
    assert r * 10486 <= h < r * 10486 + 10486;
    assert exact * FieldLimit <= h * 100 < exact * FieldLimit + FieldLimit;
    if exact < r {
      MulGap(FieldLimit, exact, r);
    }
    if exact > r + 1 {
      MulGap(FieldLimit, r + 1, exact);
    }
  }

  /** The lower of the two cases happens: a field just above 5% of 2^20 is stored as 4. */
  lemma HumidPercentCanUnderstate()
    ensures HumidPercent(52429) == 4 && 52429 * 100 / FieldLimit == 5
  {
  }

  /** A larger humidity field never gives a smaller humidity. */
  lemma HumidPercentMonotone(h1: UInt32, h2: UInt32)
    requires h1 <= h2 < FieldLimit
    ensures HumidPercent(h1) <= HumidPercent(h2)
  {
    HumidPercentExact(h1);
    HumidPercentExact(h2);
    DivMonotone(h1, h2, 10486);
  }

  /** What `AHT10_getTempHumid100` hands back: the status byte and the two converted readings. */
  datatype Reading = Reading(status: Byte, temp100: Int16, humid100: Int16)

  function Decode(f: Frame): Reading
  {
    Reading(f[0], CentiCelsius(TempData(f)), HumidPercent(HumidData(f)))
  }

  /** The status is the first byte unchanged, the temperature is the exact truncated
      conversion of its field within -5000..14999, the humidity a whole percent within 0..99. */
  lemma DecodeMeaning(f: Frame)
    ensures Decode(f).status == f[0]
    ensures Decode(f).temp100 == TempData(f) * 625 / 32768 - 5000
    ensures -5000 <= Decode(f).temp100 <= 14999
    ensures Decode(f).humid100 == HumidData(f) / 10486 && 0 <= Decode(f).humid100 <= 99
  {
    TempDataLayout(f);
    HumidDataLayout(f);
    CentiCelsiusExact(TempData(f));
  }

  /** Frames that agree on the temperature bits agree on the temperature, whatever the
      status and humidity bits; likewise for humidity. */
  lemma DecodeFieldsIndependent(f: Frame, g: Frame)
    ensures f[3] % 0x10 == g[3] % 0x10 && f[4] == g[4] && f[5] == g[5]
      ==> Decode(f).temp100 == Decode(g).temp100
    ensures f[1] == g[1] && f[2] == g[2] && f[3] / 0x10 == g[3] / 0x10
      ==> Decode(f).humid100 == Decode(g).humid100
  {
    TempDataDependsOn(f, g);
    HumidDataDependsOn(f, g);
  }

  /** A sample frame with a complete-measurement status: 17.49 degrees Celsius, 19%. */
  lemma DecodeSample()
    ensures Decode([0x19, 0x33, 0x33, 0x35, 0x66, 0x66]) == Reading(0x19, 1749, 19)
  {
    var f: Frame := [0x19, 0x33, 0x33, 0x35, 0x66, 0x66];
    SampleFields(f);
    assert CentiCelsius(0x56666) == 1749;
    assert HumidPercent(0x33333) == 19;
  }

  lemma SampleFields(f: Frame)
    requires f == [0x19, 0x33, 0x33, 0x35, 0x66, 0x66]
    ensures HumidData(f) == 0x33333 && TempData(f) == 0x56666
  {
    var b1: int, b2: int, b3: int, b4: int, b5: int := f[1], f[2], f[3], f[4], f[5];
    assert b1 == 0x33 && b2 == 0x33 && b3 == 0x35 && b4 == 0x66 && b5 == 0x66;
    HumidDataLayout(f);
    TempDataLayout(f);
  }

  /** A mid-scale temperature field 0x6AAAA converts to 33.33 degrees Celsius. */
  lemma CentiCelsiusSample()
    ensures CentiCelsius(0x6AAAA) == 3333
  {
    CentiCelsiusExact(0x6AAAA);
  }
}
