# GPS logger core: NMEA reader and BMP085 sequencer

A Dafny model of the two pieces of the GPS logger firmware that hold its logic.

**The NMEA reader** (`GPSMTK339.cpp`):
- `gps_read_serial_and_parse_nmea` assembles serial bytes into sentences in a 120-byte buffer. While locked it overwrites `buffer[0]` until a `$` arrives. Once unlocked it stores bytes at `buffer[counter]`.
- A line feed ends the frame. The frame goes to `parse_rmc` and then to `parse_gga`, and their successes are latched. The call reports `true` (and clears both latches) once both kinds of sentence have been decoded. Then it zeroes the used cells and locks again.
- Each decoder:
  - compares the five-byte header (`GPGGA` / `GPRMC`);
  - XORs the cells before the first `*` among the first 100 cells;
  - reads the hex digits after the `*` with `strtol` into a byte;
  - only when the two checksums agree, splits the line with `strtok_r` on `,` and stores its fields.
- The PMTK configuration sentences the firmware defines are checked as test vectors: each carries the checksum of its own body.

**The BMP085 driver** (`BMP085.cpp`):
- `beginBMP085` clamps the oversampling setting to 3. It checks that the chip-id register reads 0x55 and then loads the eleven calibration words.
- `updateBMP085Cycle` is a three-state poller (none → temperature → pressure → temperature …). The first call writes the temperature command at once, without reading the end-of-conversion pin. After that the state changes only on a call that sees the pin high; each such change reads the finished conversion and writes the next command, and a finished pressure reading completes a cycle.
- `readBMP085All` is the datasheet's integer compensation of the raw temperature and pressure. The model writes out the C integer semantics it relies on: truncating division, arithmetic shifts, `uint32_t` wrap-around, and `int16_t`/`int32_t` reinterpretation.

Modules:
- `CInt` (`c_int.dfy`): C integer semantics.
- `NmeaText` (`nmea_text.dfy`): XOR checksum, `strtol`-style digit reading, the C string end, and `strtok_r` tokens.
- `NmeaSentence` (`nmea_sentence.dfy`): the two decoders as functions of the buffer.
- `NmeaReader` (`nmea_reader.dfy`): the reader as a value-level state machine (`Advance`, `Run`). Also the class `GpsReader`, whose buffer is an `array` and whose methods are proved to follow `Advance` and `Run`.
- `PmtkCommands` (`pmtk_commands.dfy`): the configuration sentences.
- `Bmp085` (`bmp085.dfy`): the driver as functions over a register file. Also the class `Bmp085Sensor`, whose methods are proved to follow them.

The NMEA reader deviates from the source on purpose:
- The source never bounds `counter`.
- This model drops a frame that reaches 119 stored cells without a line feed and locks until the next `$`.
- The unchecked behaviour is modelled separately and shown to overrun the buffer (see Findings).

## Model

| member | source | states |
|---|---|---|
| CInt.TruncDiv | BMP085.cpp:190 | the quotient truncated toward zero: the remainder is smaller than the divisor and has the dividend's sign |
| CInt.Shr | BMP085.cpp:187-194 | arithmetic right shift is division by 2^k rounded toward minus infinity |
| CInt.ShrNonNegative | BMP085.cpp:148 | shifting a non-negative value right gives a non-negative value |
| CInt.U32 | BMP085.cpp:195-196 | the uint32_t conversion is the representative modulo 2^32 in [0, 2^32) |
| CInt.ToInt16 | BMP085.cpp:94-106 | a uint16_t read into int16_t is the value or the value minus 2^16, negative exactly when bit 15 is set |
| CInt.ToInt32 | BMP085.cpp:198-202 | a uint32_t quotient stored in int32_t is the value or the value minus 2^32, negative exactly when bit 31 is set |
| CInt.Strtol | GPSMTK339.cpp:173 | strtol saturates at LONG_MAX (2^31-1) and is exact below it |
| NmeaText.Xor | GPSMTK339.cpp:169-180 | defined as the XOR of the cells in a range; its properties are the Xor lemmas below |
| NmeaText.XorExtend | GPSMTK339.cpp:169-180 | each loop iteration XORs one more cell into the accumulator |
| NmeaText.XorUpdate | GPSMTK339.cpp:169-180 | changing one cell changes the XOR of a range by exactly old^new when the cell is in the range, and not at all otherwise |
| NmeaText.XorDetectsSingleByteChange | GPSMTK339.cpp:169-180 | any single-cell change inside the range changes the XOR |
| NmeaText.XorShift | GPSMTK339.cpp:169-180 | the XOR depends only on the cells of the range, wherever they sit |
| NmeaText.XorSplit | GPSMTK339.cpp:169-180 | the XOR of a range is the XOR of its two halves |
| NmeaText.XorConcat | GPSMTK339.cpp:169-180 | the XOR of a concatenation is the XOR of the parts' XORs |
| NmeaText.DigitRun | GPSMTK339.cpp:173 | strtol consumes the maximal run of digits of the base: every cell of the run is a digit and the cell after it is not |
| NmeaText.DigitsValue | GPSMTK339.cpp:173 | a run of n digits has a value below base^n |
| NmeaText.ReadNumber | GPSMTK339.cpp:173 | the value strtol reads at an index is below base^(length of the digit run there), so 0 when no digit follows |
| NmeaText.ReadNumberLocal | GPSMTK339.cpp:173 | the number read depends only on the text from the read position on |
| NmeaText.StrEnd | GPSMTK339.cpp:184 | the C string ends at the first NUL: no NUL before it, a NUL at it |
| NmeaText.FieldEnd | GPSMTK339.cpp:184-200 | a field ends at the first comma or at the string end |
| NmeaText.Tokens | GPSMTK339.cpp:184-200 | every strtok_r token is a non-empty span inside the string |
| NmeaText.Texts | GPSMTK339.cpp:184-200 | the token texts are exactly the buffer slices of the spans |
| NmeaText.TokensAreNonEmptyFields | GPSMTK339.cpp:184-200 | the strtok_r tokens are the comma-separated fields with the empty ones removed |
| NmeaSentence.HeaderIs | GPSMTK339.cpp:166 | defined as strncmp(buffer, header, 5) == 0; see HeadersExclusive |
| NmeaSentence.StarIndex | GPSMTK339.cpp:169-180 | the checksum loop stops at the first '*' among the first 100 cells, or scans all of them |
| NmeaSentence.ComputedChecksum | GPSMTK339.cpp:169-180 | defined as the XOR of the cells before StarIndex; see CorruptionChangesComputed and FramedChecksum |
| NmeaSentence.ReceivedChecksum | GPSMTK339.cpp:169-175 | without a '*' in the first 100 cells the decoder's static received checksum keeps its previous value |
| NmeaSentence.Fields | GPSMTK339.cpp:184-200 | the tokens lie inside the buffer |
| NmeaSentence.Atoi | GPSMTK339.cpp:191 | atoi reads the leading decimal digits: the value is below 10^(length of that run), so 0 when the text does not start with a digit |
| NmeaSentence.GgaFields | GPSMTK339.cpp:184-202 | GGA writes only fix, sats, hdop and altitude; which fields they come from is GgaFieldsFromNonEmptyFields |
| NmeaSentence.ParseGga | GPSMTK339.cpp:160-207 | returns true iff the header is GPGGA and the checksums agree; a rejected sentence leaves the record unchanged; the received checksum is updated only when the header matches |
| NmeaSentence.GgaFieldsFromNonEmptyFields | GPSMTK339.cpp:184-202 | an accepted GGA sentence has ten non-empty fields; fix, sats, hdop and altitude come from fields 6 to 9; nothing else in the record changes |
| NmeaSentence.SplitSixDigits | GPSMTK339.cpp:273-276 | hour / minute / second (and day / month / year) are in their ranges |
| NmeaSentence.SplitSixDigitsRecombines | GPSMTK339.cpp:273-276 | hhmmss splits into parts that recombine to the original |
| NmeaSentence.SplitSixDigitsOfParts | GPSMTK339.cpp:334-337 | splitting h*10000 + m*100 + s gives back (h, m, s) |
| NmeaSentence.ReadCoordinate | GPSMTK339.cpp:286-325 | the scaled minutes are below 10^6 and the value is negative iff the hemisphere field starts with the S/W mark; degrees and minutes are CoordinateOfToken |
| NmeaSentence.ScaledMinutes | GPSMTK339.cpp:292-294 | (temp * 10000 + temp2) % 1000000 in unsigned long is below 10^6 |
| NmeaSentence.CoordinateSplit | GPSMTK339.cpp:288-296 | for ddmm.ffff the degree part is dd, the scaled minutes are mm*10^4 + ffff, and both recombine to the input |
| NmeaSentence.DecimalTokenBounds | GPSMTK339.cpp:288-292 | in a token of at most five digits, a '.' and at most four digits, the whole part is below 10^5 and the fraction below 10^4, so strtol does not saturate and temp*10000 + temp2 stays below 2^32 |
| NmeaSentence.CoordinateOfToken | GPSMTK339.cpp:286-325 | the coordinate read from a token has degrees = (leading digits)/100 and is negative iff its hemisphere field starts with the S/W mark; for a ddmm.ffff token its scaled minutes are mm*10^4 + ffff |
| NmeaSentence.RmcFields | GPSMTK339.cpp:266-337 | RMC leaves fix, sats, hdop and altitude alone; hour and day are uint8_t values, minute, second, month and year are below 100, and both coordinates' scaled minutes are below 10^6 |
| NmeaSentence.ParseRmc | GPSMTK339.cpp:233-343 | returns true iff the header is GPRMC and the checksums agree; a rejected sentence leaves the record unchanged; the received checksum is updated only when the header matches |
| NmeaSentence.RmcFieldsFromNonEmptyFields | GPSMTK339.cpp:266-337 | an accepted RMC sentence has ten non-empty fields and the time, speed, heading and date come from fields 1, 7, 8, 9, and each coordinate from fields 3/4 and 5/6: degrees dd, negative iff the hemisphere is S/W, and minutes mm*10^4 + ffff for a ddmm.ffff token |
| NmeaSentence.RmcFieldsFromTexts | GPSMTK339.cpp:266-337 | the RMC fields are stored from the token texts, including the degrees, minutes and sign of both coordinates |
| NmeaSentence.HeadersExclusive | GPSMTK339.cpp:166 | no buffer matches both headers, so at most one decoder accepts a frame |
| NmeaSentence.SingleByteCorruptionRejected | GPSMTK339.cpp:169-182 | corrupting one cell before the '*' (into anything but '*') makes an accepted sentence rejected |
| NmeaSentence.CorruptionKeepsReceived | GPSMTK339.cpp:169-175 | such a corruption leaves the received checksum unchanged |
| NmeaSentence.CorruptionChangesComputed | GPSMTK339.cpp:176-180 | such a corruption changes the computed checksum |
| NmeaSentence.StarUnchanged | GPSMTK339.cpp:169-175 | a corruption before the '*' does not move where the scan stops |
| NmeaSentence.FramedChecksum | GPSMTK339.cpp:169-182 | for body + '*' + tail with a short body without '*', the computed checksum is the body's XOR and the received one is the hex value of the tail, truncated to a byte |
| NmeaReader.Initial | GPSMTK339.cpp:80-83 | the reset state is well formed, unlocked, with counter 0 |
| NmeaReader.ZeroPrefix | GPSMTK339.cpp:114-117 | the restart loop zeroes cells 0..n-1 and leaves the rest |
| NmeaReader.Stored | GPSMTK339.cpp:89-99 | defined as the buffer with the byte read stored at buffer[0] while locked and at buffer[counter] otherwise; see LockedDropsByte and DataByteStored |
| NmeaReader.Latch | GPSMTK339.cpp:105-119 | defined as the latch, report, zeroing and relock at a frame's end; see StepReadiness, ReadyNeedsBothKinds and LineFeedEndsFrame |
| NmeaReader.EndOfFrame | GPSMTK339.cpp:99-118 | running both decoders and latching keeps the state shaped |
| NmeaReader.Advance | GPSMTK339.cpp:86-127 | one loop iteration keeps the write index inside the frame |
| NmeaReader.Run | GPSMTK339.cpp:86-129 | a whole call keeps the write index inside the frame |
| NmeaReader.LockedDropsByte | GPSMTK339.cpp:89-92 | while locked, a byte other than '$' only overwrites buffer[0] |
| NmeaReader.DollarUnlocks | GPSMTK339.cpp:89-95 | '$' unlocks with counter 0, so the next byte overwrites the '$' |
| NmeaReader.DataByteStored | GPSMTK339.cpp:97-124 | inside a frame, a byte other than LF is stored at counter and counter moves on by one |
| NmeaReader.LineFeedEndsFrame | GPSMTK339.cpp:99-118 | LF runs parse_rmc and then parse_gga on the frame; the record is the one parse_gga leaves; the reader ends locked at counter 0 with an all-zero buffer |
| NmeaReader.OverlongFrameDropped | GPSMTK339.cpp:118-124 | a frame that fills 119 cells without LF is dropped: locked, counter 0, zero buffer, record and latches untouched |
| NmeaReader.StepKeepsWellFormed | GPSMTK339.cpp:86-127 | every step keeps the invariant: counter within the frame, cells past it NUL, locked implies counter 0, never both latches pending |
| NmeaReader.RunKeepsWellFormed | GPSMTK339.cpp:86-129 | every call keeps that invariant |
| NmeaReader.StepReadiness | GPSMTK339.cpp:105-113 | a step reports ready iff it ends a frame and both kinds are now latched; a report clears both latches; otherwise each latch becomes old latch or this frame's success |
| NmeaReader.ReadyNeedsBothKinds | GPSMTK339.cpp:105-113 | a call returns true only if a GGA and an RMC sentence were each accepted during it or pending from before |
| NmeaReader.RunConcat | GPSMTK339.cpp:86-130 | reading a + b is reading a then b, and the result is the OR of the two |
| NmeaReader.RunSingle | GPSMTK339.cpp:86-130 | a call with one waiting byte is one step |
| NmeaReader.UncheckedFraming | GPSMTK339.cpp:89-124 | defined as the as-written lock flag and uint8_t counter with no bound check; see UncheckedCounterGrows and UncheckedFrameOverruns |
| NmeaReader.UncheckedCounterGrows | GPSMTK339.cpp:118-124 | as written, each byte other than LF in a frame moves counter on by one, with no bound |
| NmeaReader.UncheckedFrameOverruns | GPSMTK339.cpp:97-124 | as written, '$' followed by 120 bytes without LF leaves counter at 120, one cell past the buffer |
| NmeaReader.GpsReader.constructor | GPSMTK339.cpp:80-83 | the object starts in the reset state |
| NmeaReader.GpsReader.ScanChecksum | GPSMTK339.cpp:169-180 | the checksum loop over the array computes the computed and received checksums |
| NmeaReader.GpsReader.ParseGga | GPSMTK339.cpp:160-207 | the method returns what the ParseGga function gives and updates only parse_gga's statics |
| NmeaReader.GpsReader.ParseRmc | GPSMTK339.cpp:233-343 | the method returns what the ParseRmc function gives and updates only parse_rmc's statics |
| NmeaReader.GpsReader.ClearPrefix | GPSMTK339.cpp:114-117 | the restart loop leaves the array equal to ZeroPrefix of the old contents |
| NmeaReader.GpsReader.Decode | GPSMTK339.cpp:105-107 | parse_rmc runs first and parse_gga sees the record it left |
| NmeaReader.GpsReader.CloseFrame | GPSMTK339.cpp:101-118 | latching, reporting, zeroing and locking give the state Latch describes |
| NmeaReader.GpsReader.EndFrame | GPSMTK339.cpp:99-118 | the end of a frame gives the state EndOfFrame describes |
| NmeaReader.GpsReader.StepInFrame | GPSMTK339.cpp:97-124 | a byte read inside a frame gives the state Advance describes |
| NmeaReader.GpsReader.Step | GPSMTK339.cpp:86-127 | one iteration gives the state Advance describes and keeps the invariant |
| NmeaReader.GpsReader.ReadSerialAndParse | GPSMTK339.cpp:78-130 | the whole call, a while loop over the waiting bytes, gives the state and result Run describes and keeps the invariant |
| PmtkCommands.CommandAccepted | GPSMTK339.cpp:169-182 | a command whose body XORs to the value its checksum digits spell passes the checksum comparison, whatever the previous received value |
| PmtkCommands.OutputBodyChecksum | GPSMTK339.cpp:33-36 | a PMTK314 body has 45 cells and no '*', and its checksum is the checksum of its first six rates combined with two constants |
| PmtkCommands.Update1HzChecksum | GPSMTK339.cpp:25 | "*1F" is the checksum of PMTK220,1000 |
| PmtkCommands.Update5HzChecksum | GPSMTK339.cpp:26 | "*2C" is the checksum of PMTK220,200 |
| PmtkCommands.Update10HzChecksum | GPSMTK339.cpp:27 | "*2F" is the checksum of PMTK220,100 |
| PmtkCommands.Baud57600Checksum | GPSMTK339.cpp:29 | "*2C" is the checksum of PMTK251,57600 |
| PmtkCommands.Baud9600Checksum | GPSMTK339.cpp:30 | "*17" is the checksum of PMTK251,9600 |
| PmtkCommands.RmcOnlyChecksum | GPSMTK339.cpp:33 | "*29" is the checksum of the RMC-only PMTK314 |
| PmtkCommands.RmcGgaChecksum | GPSMTK339.cpp:34 | "*28" is the checksum of the RMC+GGA PMTK314 |
| PmtkCommands.AllDataChecksum | GPSMTK339.cpp:35 | "*28" is the checksum of the all-data PMTK314 |
| PmtkCommands.OutputOffChecksum | GPSMTK339.cpp:36 | "*28" is the checksum of the all-off PMTK314 |
| Bmp085.Read8 | BMP085.cpp:218-231 | a register read is a byte |
| Bmp085.Read16 | BMP085.cpp:233-248 | a 16-bit read is the high register times 256 plus the next register |
| Bmp085.ReadCalibration | BMP085.cpp:94-106 | defined as the eleven calibration words, ac4-ac6 unsigned and the others as int16_t; see Begin |
| Bmp085.Initial | BMP085.cpp:58-68 | the driver starts with no conversion running |
| Bmp085.ClampOversampling | BMP085.cpp:81-84 | the setting is at most ULTRAHIGHRES (3) and equals the request unless the request is above 3 |
| Bmp085.Begin | BMP085.cpp:80-109 | the setting is clamped and the pin stored; the result is true iff register 0xD0 reads 0x55; the eleven calibration words are loaded only then; nothing else changes |
| Bmp085.PressureCommand | BMP085.cpp:136 | the pressure command is 0x34 + oss*64: 0x34, 0x74, 0xB4 or 0xF4 |
| Bmp085.RawPressure | BMP085.cpp:144-148 | the raw pressure (24 bits shifted right by 8 - oss) fits in 16 + oss bits |
| Bmp085.ShrBelow | BMP085.cpp:148 | shifting a value below 2^(m+k) right by k gives a value below 2^m |
| Bmp085.Update | BMP085.cpp:121-164 | a poll keeps the oversampling and the calibration; its transitions, commands and readings are UpdateCommands and UpdateReadings |
| Bmp085.UpdateCommands | BMP085.cpp:121-164 | after a poll a conversion is always running; with EOC low a running conversion changes nothing; a command is written iff the state changes, and it is the command for the new state; NONE writes the temperature command without reading EOC; TEMPERATURE with EOC high reads UT, writes the pressure command and moves to PRESSURE; PRESSURE with EOC high writes the temperature command and moves to TEMPERATURE |
| Bmp085.UpdateReadings | BMP085.cpp:130-158 | a cycle completes iff a pressure conversion ends; it then restarts temperature with up the raw pressure of that poll's registers, in range, and ut kept; ut changes only when a temperature conversion ends; up changes only when a cycle completes |
| Bmp085.Trace | BMP085.cpp:111-120 | successive calls: each state is the previous one updated by its poll, and the oversampling never changes |
| Bmp085.NeverBackToNone | BMP085.cpp:124-158 | after the first call the sequencer never returns to NONE |
| Bmp085.CompletesSeparated | BMP085.cpp:130-156 | between two completed cycles a new pressure conversion was started |
| Bmp085.StaysTemperature | BMP085.cpp:130-140 | while no pressure conversion starts, a temperature conversion stays in progress |
| Bmp085.HighPollsComplete | BMP085.cpp:124-158 | from any state, three polls in a row that see EOC high include one that completes a cycle |
| Bmp085.CycleReadings | BMP085.cpp:130-156 | a completed cycle leaves up read at its own poll, and ut read at the poll that started its pressure conversion, with the state kept between those polls |
| Bmp085.PressureStarted | BMP085.cpp:130-141 | a pressure conversion in progress was started by an earlier poll that read ut, and nothing has changed since |
| Bmp085.B3 | BMP085.cpp:186-190 | defined as the B3 term from B6, ac1, ac2, b2 and the oversampling; see WorkedExample |
| Bmp085.B4 | BMP085.cpp:195 | B4 is a uint32_t value |
| Bmp085.B7 | BMP085.cpp:196 | B7 is a uint32_t value |
| Bmp085.QuotientPressure | BMP085.cpp:198-202 | defined as the two-branch uint32_t quotient stored in int32_t; see QuotientBounds |
| Bmp085.CorrectedPressure | BMP085.cpp:204-208 | defined as the final pressure correction with arithmetic shifts; see WorkedExample |
| Bmp085.TruePressure | BMP085.cpp:186-208 | defined as the compensated pressure from UT, UP and the calibration; see ReadAll and WorkedExample |
| Bmp085.QuotientBounds | BMP085.cpp:198-202 | both branches compute 2*B7/B4 within one: exactly when B7 < 2^31, and at most one below it otherwise |
| Bmp085.HalvedQuotient | BMP085.cpp:200-201 | the B7 >= 2^31 branch gives 2*(B7/B4), which is 2*B7/B4 or one less |
| Bmp085.DoubleQuotient | BMP085.cpp:198-202 | 2*(a/b) <= (2a)/b <= 2*(a/b) + 1 |
| Bmp085.TemperatureX1 | BMP085.cpp:178 | defined as (UT - ac6) * ac5 / 2^15 truncated; see TemperatureInputs and WorkedExample |
| Bmp085.B5 | BMP085.cpp:179-180 | defined as X1 + mc * 2^11 / (X1 + md) truncated; see TemperatureInputs and WorkedExample |
| Bmp085.TemperatureInputs | BMP085.cpp:178-180 | B5 depends only on UT, ac5, ac6, mc and md |
| Bmp085.ReadAll | BMP085.cpp:172-212 | the output record's altitude is computed from its own pressure and the sea-level pressure; hpa0 is untouched |
| Bmp085.WorkedExample | BMP085.cpp:177-208 | the datasheet calibration and readings give X1 = 4743, B5 = 2400 and a pressure of 69964 Pa |
| Bmp085.Bmp085Sensor.constructor | BMP085.cpp:58-68 | the object starts in the initial state with no register writes |
| Bmp085.Bmp085Sensor.BeginSensor | BMP085.cpp:80-109 | the object's new state and the result are those that Begin gives |
| Bmp085.Bmp085Sensor.UpdateCycle | BMP085.cpp:121-164 | the object's new state and the result are those that Update gives, and its writes are appended to the written log |

## Left out

- Serial, Wire (I2C), digitalRead and delay: serial input is the sequence of waiting bytes. Register reads are a 256-byte register file, the EOC pin is a boolean per poll, and writes are an append-only log.
- begin_gps and GpsLogger.cpp: they only send the PMTK sentences and call the other routines, so they are not part of this model.
- Floating point:
  - `atof` values, speed in km/h, milliseconds, temperature and altitude are kept uninterpreted: they record the text or the integer they come from.
  - The coordinate float is represented by its integer degrees and scaled minutes.
- Bmp085.B5 (and through it ReadAll): X1 and X2 on lines 178-179 are computed in avr-gcc's 32-bit `double`. The model uses exact truncating integer division. This differs only if a numerator exceeds 2^24 and rounding crosses an integer.
- Bmp085.B3, B4, QuotientPressure, CorrectedPressure: signed `int32_t` overflow is undefined behaviour in C. The model computes these on unbounded integers and wraps only the `uint32_t` values (B4, B7) and the pressure store.
- NmeaSentence.GgaFields/RmcFields: `atoi` and `strtol` are modelled on leading digits only: no whitespace, sign or `0x` prefix, and no `int16_t` overflow of `atoi`. Time and date use the value of the leading digits, while the source converts the `atof` float to `uint32_t`.
- NmeaSentence.RmcFields: the time and date agree with the source only when the float32 value of the field does not round up to the next integer, that is, when the fraction is below 1 minus half the float spacing (about 0.992 for six-digit values, so `.000` to `.990` is always safe). When it does round up, the source stores the next second: "064951.999" gives 64952.0 and 52 seconds where the model stores 51, and "235959.993" gives 23:59:60.
- strtok_r writing NULs into the buffer: not modelled. Only `parse_rmc` tokenises before `parse_gga` runs, and a buffer holding a GPRMC header can never match GPGGA (HeadersExclusive). Coordinate decimals read past a token's end are read from the unmodified buffer, where the next comma stops the digit run just as the NUL that strtok_r writes there does.
- NmeaReader.StepDefined / NmeaSentence.Decodable: an accepted sentence with fewer than ten tokens makes `strtok_r` return NULL, which the source then dereferences. The model requires ten tokens there instead of modelling the undefined behaviour.
- Bmp085.TemperatureDefined / PressureDefined: division by zero in the compensation is excluded by precondition.
- NmeaReader.Advance: the source does not bound `counter` (see Findings). The model drops a frame that reaches 119 stored cells without a line feed and waits for the next `$`. The source's commented-out remedy, `fatal_error_overflow`, is not modelled.
- NmeaReader.GpsReader.CloseFrame: the model sets the lock flag after the decoders run, while the source sets it before. Neither decoder reads the flag, so the order does not change any result.
- PmtkCommands: the sentences are checked without their leading `$`, as the reader stores them (the byte after `$` overwrites `buffer[0]`), and with the CR LF that `Serial.println` appends.

## Findings

| source | as written | input that shows it | evidently intended | confidence | as-written member | corrected member |
|---|---|---|---|---|---|---|
| GPSMTK339.cpp:118-124 | `counter++` for every byte other than LF in a frame, with the bound check commented out | `$` followed by 120 bytes none of which is LF: counter reaches 120, and the next byte is stored at `buffer[120]`, past the 120-byte buffer | never write outside the buffer, and keep a NUL after the frame | not executed | NmeaReader.UncheckedFrameOverruns | NmeaReader.StepKeepsWellFormed |
