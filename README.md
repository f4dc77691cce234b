# AHT10 temperature and humidity sensor on the STM32F103: a Dafny model

This project models the sensor path of a bare-metal STM32F103 firmware that reads an AHT10
temperature and humidity sensor over I2C and shows the result on a character LCD. It proves
properties of that model.

- **The AHT10 library** (`STM32F103-CMSIS-AHT10-lib.c`).
  - `AHT10_init` binds the driver to an I2C interface and sends the initialisation command.
  - `AHT10_readSensorData` triggers a measurement, waits 75 ms and reads the 6-byte frame into the caller's array.
  - `AHT10_getTempHumid100` extracts the two 20-bit fields from the frame. It converts them with unsigned 32-bit integer arithmetic into centi-degrees Celsius and whole percent relative humidity, and returns the status byte.
- **The display decisions of `main.c`.**
  - The comfort phrase chosen by `outFuzzyHeatIndex`.
  - The rounding of the floating heat index to the integer shown.
  - The truncating division `temp100 / 100`.
  - The heartbeat glyph chosen from the status byte.

Modules:

- `CTypes` (`ctypes.dfy`): C integer semantics over unbounded integers.
  - `uint8_t`, `uint32_t` and `int16_t` as subset types.
  - `<<` and `|` / `&` on non-negative operands.
  - `uint32_t` multiplication and subtraction modulo 2^32, and truncating division.
  - Two's complement narrowing to `int16_t`.
- `I2CBus` (`i2c_bus.dfy`): the I2C library and `delay_us` as a `Board` object.
  - Every call appends one event to a trace.
  - A read returns the next byte of an oracle, the `Responder`.
- `Aht10Decode` (`aht10_decode.dfy`): the frame layout, the field extraction and the two conversions. These are pure functions.
- `Aht10Driver` (`aht10_driver.dfy`): the driver as a `Sensor` object.
  - Its `binding` field is the global `AHT10_I2C`.
  - Its methods issue the library's bus sequences in order and fill the caller's array.
- `Aht10Protocol` (`aht10_protocol.dfy`): what those sequences mean. This covers the bytes written, the bytes read and their acknowledge bits, the waits, and the interface used.
- `Comfort` (`comfort.dfy`): the decisions of `main.c` as pure functions.

## Model

| member | source | states |
|---|---|---|
| CTypes.U32Mul | STM32F103-CMSIS-AHT10-lib.c:167 | the `uint32_t` product is congruent to the true product modulo 2^32, and equal to it when it fits |
| CTypes.U32Div | STM32F103-CMSIS-AHT10-lib.c:167 | unsigned division truncates: r*b <= a < r*b + b |
| CTypes.U32Sub | STM32F103-CMSIS-AHT10-lib.c:167 | `uint32_t` subtraction: the difference when a >= b, otherwise the difference plus 2^32 |
| CTypes.ToInt16 | STM32F103-CMSIS-AHT10-lib.c:167 | narrowing to `int16_t` gives the value congruent modulo 2^16 in range, and leaves values already in range unchanged |
| CTypes.Shl | STM32F103-CMSIS-AHT10-lib.c:164-165 | `x << n` on a non-negative operand is x*2^n (the definition; its use is stated by `CTypes.OrOfDisjoint`) |
| CTypes.BitOr | STM32F103-CMSIS-AHT10-lib.c:164-165 | the bitwise OR of a and b is at least each operand and at most their sum |
| CTypes.BitAnd | STM32F103-CMSIS-AHT10-lib.c:165 | `a & b` is at most each operand |
| CTypes.OrOfDisjoint | STM32F103-CMSIS-AHT10-lib.c:164-165 | OR-ing `x << n` with a value below 2^n is addition |
| CTypes.AndLowMask | STM32F103-CMSIS-AHT10-lib.c:165 | AND with 2^n - 1 keeps the value modulo 2^n (the `& 0x0F` mask) |
| I2CBus.Board.I2CInit | STM32F103-CMSIS-AHT10-lib.c:97 | appends the interface initialisation, with its speed, to the trace |
| I2CBus.Board.I2CStart | STM32F103-CMSIS-AHT10-lib.c:98 | appends a start condition on the interface |
| I2CBus.Board.I2CAddress | STM32F103-CMSIS-AHT10-lib.c:99 | appends the address byte with its direction bit |
| I2CBus.Board.I2CWrite | STM32F103-CMSIS-AHT10-lib.c:100-102 | appends one written byte |
| I2CBus.Board.I2CRead | STM32F103-CMSIS-AHT10-lib.c:134-140 | returns the next byte the device sends, counts it, and appends the read with its acknowledge bit |
| I2CBus.Board.I2CStop | STM32F103-CMSIS-AHT10-lib.c:103 | appends a stop condition |
| I2CBus.Board.DelayUs | STM32F103-CMSIS-AHT10-lib.c:104 | appends a wait of the given microseconds |
| Aht10Decode.HumidData | STM32F103-CMSIS-AHT10-lib.c:164 | the humidity field is below 2^20 |
| Aht10Decode.TempData | STM32F103-CMSIS-AHT10-lib.c:165 | the temperature field is below 2^20 |
| Aht10Decode.OrBytes3 | STM32F103-CMSIS-AHT10-lib.c:164-165 | the OR of a<<16, b<<8 and c is a*2^16 + b*2^8 + c |
| Aht10Decode.HumidDataLayout | STM32F103-CMSIS-AHT10-lib.c:164 | the humidity field is byte 1, byte 2 and the high nibble of byte 3, weighted 2^12, 2^4 and 1 |
| Aht10Decode.TempDataLayout | STM32F103-CMSIS-AHT10-lib.c:165 | the temperature field is the low nibble of byte 3, byte 4 and byte 5, weighted 2^16, 2^8 and 1 |
| Aht10Decode.EncodeFrame | STM32F103-CMSIS-AHT10-lib.c:134-140 | the sensor's packing of a status and two 20-bit fields keeps the status as byte 0 |
| Aht10Decode.ExtractEncoded | STM32F103-CMSIS-AHT10-lib.c:164-165 | extracting the fields undoes the packing |
| Aht10Decode.EncodeExtracted | STM32F103-CMSIS-AHT10-lib.c:164-165 | repacking a frame's status and fields gives back the frame, so the two extractions lose nothing |
| Aht10Decode.HumidDataDependsOn | STM32F103-CMSIS-AHT10-lib.c:164 | two frames have equal humidity fields iff they agree on bytes 1, 2 and the high nibble of byte 3 |
| Aht10Decode.TempDataDependsOn | STM32F103-CMSIS-AHT10-lib.c:165 | two frames have equal temperature fields iff they agree on the low nibble of byte 3 and on bytes 4 and 5 |
| Aht10Decode.CentiCelsiusExact | STM32F103-CMSIS-AHT10-lib.c:158-167 | for a 20-bit field, t*625 does not overflow, the subtraction wraps exactly when the quotient is below 5000, and the `int16_t` result is t*625 div 32768 - 5000, within -5000..14999 |
| Aht10Decode.CentiCelsius | STM32F103-CMSIS-AHT10-lib.c:167 | for every 20-bit field, `temp100` is t*625 div 32768 - 5000 |
| Aht10Decode.ConversionExact | STM32F103-CMSIS-AHT10-lib.c:167 | the narrowed result of the `uint32_t` multiply, divide and wrapping subtract is the mathematical value for every 20-bit field |
| Aht10Decode.HumidPercent | STM32F103-CMSIS-AHT10-lib.c:174 | for every 20-bit field, `humid100` is h div 10486 |
| Aht10Decode.Decode | STM32F103-CMSIS-AHT10-lib.c:164-176 | the status, `temp100` and `humid100` computed from a frame (meaning stated by `Aht10Decode.DecodeMeaning`) |
| Aht10Decode.ToInt16Congruent | STM32F103-CMSIS-AHT10-lib.c:167 | values congruent modulo 2^16 narrow to the same `int16_t` |
| Aht10Decode.CentiCelsiusTruncates | STM32F103-CMSIS-AHT10-lib.c:167-172 | the result is the datasheet formula 100*(200*t/2^20 - 50) rounded down |
| Aht10Decode.CentiCelsiusMonotone | STM32F103-CMSIS-AHT10-lib.c:167 | a larger temperature field never gives a smaller `temp100` |
| Aht10Decode.DivMonotone | STM32F103-CMSIS-AHT10-lib.c:167-174 | truncating division by a positive constant is monotone |
| Aht10Decode.HumidPercentExact | STM32F103-CMSIS-AHT10-lib.c:174 | `humid100` is the field divided by 10486, a whole percent within 0..99 |
| Aht10Decode.HumidPercentApproximates | STM32F103-CMSIS-AHT10-lib.c:174 | the true whole percent 100*h/2^20 is `humid100` or `humid100 + 1` |
| Aht10Decode.HumidPercentCanUnderstate | STM32F103-CMSIS-AHT10-lib.c:174 | the field 52429 is 5% of full scale but is stored as 4 |
| Aht10Decode.HumidPercentMonotone | STM32F103-CMSIS-AHT10-lib.c:174 | a larger humidity field never gives a smaller `humid100` |
| Aht10Decode.DecodeMeaning | STM32F103-CMSIS-AHT10-lib.c:164-176 | the returned status is byte 0 unchanged; temperature and humidity are the exact conversions of their fields, within their ranges |
| Aht10Decode.DecodeFieldsIndependent | STM32F103-CMSIS-AHT10-lib.c:164-174 | the temperature ignores the status and humidity bits, and the humidity ignores the status and temperature bits |
| Aht10Decode.DecodeSample | STM32F103-CMSIS-AHT10-lib.c:164-176 | a concrete frame with status 0x19 decodes to 17.49 degrees Celsius and 19% |
| Aht10Decode.SampleFields | STM32F103-CMSIS-AHT10-lib.c:164-165 | the sample frame's humidity field is 0x33333 and its temperature field 0x56666 |
| Aht10Decode.CentiCelsiusSample | STM32F103-CMSIS-AHT10-lib.c:167 | the field 0x6AAAA decodes to 33.33 degrees Celsius |
| Aht10Driver.InitTrace | STM32F103-CMSIS-AHT10-lib.c:97-104 | the bus sequence of `AHT10_init` (meaning stated by `Aht10Protocol.InitViews`) |
| Aht10Driver.MeasureTrace | STM32F103-CMSIS-AHT10-lib.c:123-142 | the trigger sequence followed by the read sequence (meaning stated by `Aht10Protocol.MeasureTraceViews`) |
| Aht10Driver.TriggerTrace | STM32F103-CMSIS-AHT10-lib.c:123-130 | the trigger transaction and the 75000 us wait (meaning stated by `Aht10Protocol.TriggerViews`) |
| Aht10Driver.FetchTrace | STM32F103-CMSIS-AHT10-lib.c:132-142 | the read transaction and the 420 us wait (meaning stated by `Aht10Protocol.FetchViews`) |
| Aht10Driver.FrameReads | STM32F103-CMSIS-AHT10-lib.c:134-140 | the six reads, acknowledged 1,1,1,1,1,0, carrying the frame bytes in order |
| Aht10Driver.Sensor.constructor | STM32F103-CMSIS-AHT10-lib.c:94 | before `AHT10_init` the driver is bound to no interface |
| Aht10Driver.Sensor.Init | STM32F103-CMSIS-AHT10-lib.c:92-105 | binds the driver to the given interface, then emits the I2C init, start, address 0x38 for writing, writes 0xE1 0x08 0x00, stop and a 40 us wait, reading nothing |
| Aht10Driver.Sensor.ReadSensorData | STM32F103-CMSIS-AHT10-lib.c:120-143 | emits the trigger sequence, the 75000 us wait and the read sequence on the bound interface; data[i] is the i-th byte read for i in 0..5, and no other element changes |
| Aht10Driver.Sensor.Trigger | STM32F103-CMSIS-AHT10-lib.c:123-130 | start, address 0x38 for writing, 0xAC 0x33 0x00, stop and the 75000 us wait |
| Aht10Driver.Sensor.Fetch | STM32F103-CMSIS-AHT10-lib.c:132-142 | start, address 0x38 for reading, six reads acknowledged 1,1,1,1,1,0, stop and a 420 us wait; returns the six bytes in the order read |
| Aht10Driver.Sensor.GetTempHumid100 | STM32F103-CMSIS-AHT10-lib.c:154-178 | one measurement cycle; the status, `temp100` and `humid100` handed back are the decoding of exactly the six bytes read |
| Aht10Protocol.ViewsAppend | STM32F103-CMSIS-AHT10-lib.c:120-143 | the written, read, acknowledge and delay views of a trace split over concatenation |
| Aht10Protocol.ViewsPeel | STM32F103-CMSIS-AHT10-lib.c:120-143 | the views of a trace are those of its first event followed by those of the rest |
| Aht10Protocol.InitViews | STM32F103-CMSIS-AHT10-lib.c:94-104 | initialisation starts with the bus initialisation, writes exactly the init command, reads nothing, waits 40 us and uses only the given interface |
| Aht10Protocol.TriggerViews | STM32F103-CMSIS-AHT10-lib.c:123-130 | the trigger writes exactly 0xAC 0x33 0x00, reads nothing, and ends with the 75000 us wait on the bound interface |
| Aht10Protocol.FetchViews | STM32F103-CMSIS-AHT10-lib.c:132-142 | the read transaction writes nothing, reads exactly the frame acknowledged 1,1,1,1,1,0, then waits 420 us |
| Aht10Protocol.MeasureTraceViews | STM32F103-CMSIS-AHT10-lib.c:120-143 | a measurement writes only the trigger command and reads exactly the frame, every byte acknowledged but the last; the waits are 75000 then 420 us, all on the bound interface |
| Aht10Protocol.OnlyOnAppend | STM32F103-CMSIS-AHT10-lib.c:94-123 | two traces on one interface concatenate to a trace on that interface |
| Aht10Protocol.SessionStaysOnPort | STM32F103-CMSIS-AHT10-lib.c:94-143 | after `AHT10_init` on an interface, a measurement uses no other interface; the session writes the init then trigger commands and reads just the frame |
| Aht10Protocol.InitThenRead | main.c:137-143 | initialisation followed by one reading: the driver is bound to the interface, the whole new trace is on it, and the reading decodes the bytes sent |
| Comfort.Reached | main.c:104-115 | the count of thresholds reached is at most their number |
| Comfort.Band | main.c:104-115 | there are six comfort bands |
| Comfort.FuzzyHeatIndex | main.c:101-116 | the phrase is one of the six and has 10 characters |
| Comfort.BandUnfold | main.c:104-115 | the band is the number of the thresholds 1, 11, 18, 28, 35 the heat index reaches |
| Comfort.FuzzyMatchesBand | main.c:104-115 | the if/else-if chain picks the phrase of the band its argument is in |
| Comfort.BandHalfOpen | main.c:104-115 | band b holds a heat index iff it is at least threshold b-1 and below threshold b, both directions |
| Comfort.ReachedMonotone | main.c:104-115 | a larger value reaches at least as many thresholds |
| Comfort.BandMonotone | main.c:104-115 | if a <= b then the band of a is at most the band of b |
| Comfort.PhrasesDistinct | main.c:100-115 | six pairwise distinct phrases, each 10 characters long |
| Comfort.SamePhraseSameBand | main.c:104-115 | two heat indices get the same phrase iff they are in the same band |
| Comfort.FuzzyBoundaries | main.c:104-115 | -1 and 0 Freezing!!, 1 and 10 Very cold!, 11 and 17 It's cold., 18 and 27 It's nice!, 28 and 34 Very warm!, 35 Too hot!!! |
| Comfort.TruncToInt | main.c:182-190 | conversion to `int` truncates toward zero |
| Comfort.Nudge | main.c:177-180 | the heat index moves half a unit away from zero: down when negative, up otherwise |
| Comfort.RoundHeatIndex | main.c:177-182 | the integer shown is within 1/2 of the heat index |
| Comfort.RoundIsNearest | main.c:177-182 | no integer is closer to the heat index than the one shown |
| Comfort.RoundOdd | main.c:177-182 | round(-h) = -round(h) |
| Comfort.RoundHalvesAway | main.c:177-182 | exact halves k + 1/2 go to k + 1 and -(k + 1/2) to -(k + 1) |
| Comfort.RoundSamples | main.c:177-182 | 17.4 shows 17, -0.6 shows -1, 0 and -0.4 show 0 |
| Comfort.CDiv | main.c:172 | C division: the remainder has the sign of the dividend and is smaller than the divisor in magnitude |
| Comfort.RemaindersApart | main.c:172 | different quotients leave remainders at least the divisor apart |
| Comfort.CDivUnique | main.c:172 | the C remainder rule determines the quotient |
| Comfort.CDivOdd | main.c:172 | negating the dividend negates the quotient |
| Comfort.CDivSamples | main.c:172 | -150/100 is -1 and 150/100 is 1, where Euclidean division gives -2 |
| Comfort.WholeDegrees | main.c:172 | whole degrees of any `int16_t` lie in -327..327 |
| Comfort.WholeDegreesOfSensor | main.c:172 | for any temperature the decoder produces, the whole degrees lie in -50..149 |
| Comfort.FeelsLikeLine | main.c:172-190 | the number shown is the heat index rounded half away from zero (so within 1/2 of it), and the phrase is that of the band of the number shown |
| Comfort.Heartbeat | main.c:148-151 | the glyph is 0xA5 iff the status is 0x19, and 'E' otherwise |
| Comfort.HeartbeatOfBusy | main.c:148-151 | the busy status 0x99 and the status 0x18 both show 'E' |
| Comfort.HeartbeatOfFrame | main.c:143-151 | the normal-operation dot is shown iff the first byte the sensor sent is 0x19 |

## Left out

- The heat-index polynomial `heatIndex` (main.c:64-95) is single-precision floating point. `Comfort.FeelsLikeLine` takes it as a parameter.
- Floating point in general: `heatIdx`, `rTemp` and `rHumid` are modelled as `real`. The `float` rounding of the nudge by 0.5 is not modelled.
- The I2C library, the LCD library, `i100toa` and `itoa` are not part of this model.
  - The bus calls are trace events whose read results come from an oracle.
  - The LCD output (cursor commands, strings, the backspace) is not modelled. The phrase and the glyph are returned instead.
- `delay_us` and `pause` (`STM32F103-Pause-lib.c`) are busy loops. Only the requested delay is recorded, as a `Delay` event.
- The forever loop of `main` (main.c:140-194), its 400 ms and 5 s pauses and the LCD start-up are left out. `Aht10Protocol.InitThenRead` covers initialisation and one reading.
- Register structures, pin wiring and the meaning of the I2C speed argument are left out. The speed is passed through to the trace.
- Arity mismatch: main.c:137 calls `AHT10_init( I2C2 )` with one argument, but the definition at STM32F103-CMSIS-AHT10-lib.c:92 takes two. The model follows the two-parameter definition.
- Aht10Driver.Sensor.ReadSensorData: the source stores each byte into `data[i]` as it is read. The model stores the six bytes together once the read transaction ends. Nothing reads the buffer in between, so the final state is the same, but the order of the six array stores relative to the bus calls is not captured.
- `int16_t` narrowing is implementation-defined in C for out-of-range values. The model uses two's complement, which is what the target compiler does. For temperature fields below 262144 (below 0 °C) the wrapped `uint32_t` value lies outside the `int16_t` range, so `temp100` depends on this modulo narrowing; the humidity quotient always fits.
- Humidity scale: the comment at STM32F103-CMSIS-AHT10-lib.c:149-150 calls `humid100` "100 times the relative humidity". The code at line 174 and its own comment ("65% = 65") give whole percent. The model follows the code: 0..99.
- The hardware's behaviour is left out. Nothing constrains the bytes the sensor sends, or the status values beyond what the code tests (0x19).
