/**
 * The BMP085 barometer driver (BMP085.cpp): beginBMP085, updateBMP085Cycle's
 * three-state conversion sequencer, and readBMP085All's fixed-point
 * compensation, following section 3.5 "Calculating pressure and
 * temperature" of the Bosch BMP085 datasheet as the code writes it.
 *
 * The I2C bus is replaced by a snapshot of the sensor's register file for
 * each read, and by a log of the (register, byte) pairs written; the
 * end-of-conversion pin is a boolean input.
 */
module Bmp085 {
  import opened CInt

  const UltraLowPower: nat := 0
  const UltraHighRes: nat := 3

  const ChipIdRegister: nat := 0xD0
  const ChipId: Byte := 0x55

  const CalAc1: nat := 0xAA
  const CalAc2: nat := 0xAC
  const CalAc3: nat := 0xAE
  const CalAc4: nat := 0xB0
  const CalAc5: nat := 0xB2
  const CalAc6: nat := 0xB4
  const CalB1: nat := 0xB6
  const CalB2: nat := 0xB8
  const CalMb: nat := 0xBA
  const CalMc: nat := 0xBC
  const CalMd: nat := 0xBE

  const Control: Byte := 0xF4
  const TempData: nat := 0xF6
  const PressureData: nat := 0xF6
  const ReadTempCmd: Byte := 0x2E
  const ReadPressureCmd: nat := 0x34

  /** The sensor's 256 registers as the bus would return them. */
  type Registers = r: seq<Byte> | |r| == 256 witness seq(256, _ => 0)

  /** read8(a) */
  function Read8(regs: Registers, a: nat): (v: nat)
    requires a < 256
    ensures v < 256
  {
    regs[a] as nat
  }

  /** read16(a): the byte at a, then the byte at a + 1, most significant first. */
  function Read16(regs: Registers, a: nat): (v: nat)
    requires a + 1 < 256
    ensures v < Uint16Range
    ensures v / 256 == Read8(regs, a) && v % 256 == Read8(regs, a + 1)
  {
    Read8(regs, a) * 256 + Read8(regs, a + 1)
  }

  // ---------------------------------------------------------------------
  // State
  // ---------------------------------------------------------------------

  /** ac1..md: ac4, ac5, ac6 are uint16_t, the others int16_t. */
  datatype Calibration = Calibration(
    ac1: int, ac2: int, ac3: int, ac4: nat, ac5: nat, ac6: nat,
    b1: int, b2: int, mb: int, mc: int, md: int)

  datatype CycleStep = None | TemperatureInProgress | PressureInProgress

  datatype RegWrite = RegWrite(address: Byte, value: Byte)

  /** The driver's globals: currentStep, oversampling, eocPinNumber, the coefficients, UT, UP. */
  datatype Sensor = Sensor(step: CycleStep, oversampling: nat, eocPin: nat, cal: Calibration, ut: int, up: int)

  /** Globals before beginBMP085: all zero, currentStep NONE. */
  function Initial(): (s: Sensor)
    ensures s.step == None && s.oversampling == UltraLowPower
  {
    Sensor(None, 0, 0, Calibration(0, 0, 0, 0, 0, 0, 0, 0, 0, 0, 0), 0, 0)
  }

  // ---------------------------------------------------------------------
  // beginBMP085
  // ---------------------------------------------------------------------

  /** The oversampling setting stored: mode, capped at BMP085_ULTRAHIGHRES. */
  function ClampOversampling(mode: nat): (o: nat)
    ensures o <= UltraHighRes
    ensures o == mode || (mode > UltraHighRes && o == UltraHighRes)
  {
    if mode > UltraHighRes then UltraHighRes else mode
  }

  /** The eleven coefficients as beginBMP085 reads them. */
  function ReadCalibration(regs: Registers): Calibration {
    Calibration(
      ToInt16(Read16(regs, CalAc1)), ToInt16(Read16(regs, CalAc2)), ToInt16(Read16(regs, CalAc3)),
      Read16(regs, CalAc4), Read16(regs, CalAc5), Read16(regs, CalAc6),
      ToInt16(Read16(regs, CalB1)), ToInt16(Read16(regs, CalB2)),
      ToInt16(Read16(regs, CalMb)), ToInt16(Read16(regs, CalMc)), ToInt16(Read16(regs, CalMd)))
  }

  datatype BeginResult = BeginResult(sensor: Sensor, present: bool)

  /**
   * beginBMP085(mode, pin): the oversampling setting and pin are stored
   * first; the coefficients are loaded only when the chip id reads 0x55.
   */
  function Begin(s: Sensor, mode: nat, pin: nat, regs: Registers): (r: BeginResult)
    requires mode < 256
    ensures r.sensor.oversampling == ClampOversampling(mode) && r.sensor.eocPin == pin
    ensures r.present <==> regs[ChipIdRegister] == ChipId
    ensures r.present ==> r.sensor.cal == ReadCalibration(regs)
    ensures !r.present ==> r.sensor.cal == s.cal
    ensures r.sensor.step == s.step && r.sensor.ut == s.ut && r.sensor.up == s.up
  {
    var t := s.(oversampling := ClampOversampling(mode), eocPin := pin);
    if regs[ChipIdRegister] != ChipId then BeginResult(t, false)
    else BeginResult(t.(cal := ReadCalibration(regs)), true)
  }

  // ---------------------------------------------------------------------
  // updateBMP085Cycle
  // ---------------------------------------------------------------------

  /** BMP085_READPRESSURECMD + (oversampling << 6): fits in the byte write8 sends. */
  function PressureCommand(oss: nat): (c: Byte)
    requires oss <= UltraHighRes
    ensures c as int == ReadPressureCmd + oss * 64
    ensures c == 0x34 || c == 0x74 || c == 0xB4 || c == 0xF4
  {
    (ReadPressureCmd + oss * 64) as Byte
  }

  /**
   * The raw pressure: the 24-bit big-endian value of registers 0xF6, 0xF7
   * and 0xF8, shifted right by 8 - oss. The low byte lands in eight zero
   * bits, so or-ing it in is the same as adding it.
   */
  function RawPressure(msb: nat, xlsb: nat, oss: nat): (up: nat)
    requires msb < Uint16Range && xlsb < 256 && oss <= UltraHighRes
    ensures up < Pow2(16 + oss)
  {
    var v := msb * 256 + xlsb;
    Pow2Of24();
    ShrBelow(v, 8 - oss, 16 + oss);
    Shr(v, 8 - oss)
  }

  lemma Pow2Of24()
    ensures Pow2(24) == 0x100_0000
  {
    assert Pow2(8) == 256;
    assert Pow2(16) == 256 * Pow2(8) by { Pow2Split(8, 8); }
    Pow2Split(16, 8);
  }

  /** Shifting a value of m + k bits right by k leaves a value of m bits. */
  lemma ShrBelow(v: int, k: nat, m: nat)
    requires 0 <= v < Pow2(m + k)
    ensures 0 <= Shr(v, k) < Pow2(m)
  {
    ShrNonNegative(v, k);
    var r := Shr(v, k);
    Pow2Split(m, k);
    if r >= Pow2(m) {
      MulMono(Pow2(m), r, Pow2(k));
    }
  }

  lemma {:induction false} Pow2Split(a: nat, b: nat)
    decreases b
    ensures Pow2(a + b) == Pow2(a) * Pow2(b)
  {
    if b > 0 {
      Pow2Split(a, b - 1);
    }
  }

  /** The command that starts the conversion a state waits for. */
  function CommandFor(step: CycleStep, oss: nat): Byte
    requires oss <= UltraHighRes
  {
    if step == PressureInProgress then PressureCommand(oss) else ReadTempCmd
  }

  datatype UpdateResult = UpdateResult(sensor: Sensor, writes: seq<RegWrite>, complete: bool)

  /** One call of updateBMP085Cycle, with the level of the EOC pin and the registers as the sensor holds them. */
  function Update(s: Sensor, eoc: bool, regs: Registers): (r: UpdateResult)
    requires s.oversampling <= UltraHighRes
    ensures r.sensor.oversampling == s.oversampling && r.sensor.cal == s.cal
  {
    match s.step
    case None =>
      UpdateResult(s.(step := TemperatureInProgress), [RegWrite(Control, ReadTempCmd)], false)
    case TemperatureInProgress =>
      if eoc then
        UpdateResult(
          s.(ut := ToInt16(Read16(regs, TempData)), step := PressureInProgress),
          [RegWrite(Control, PressureCommand(s.oversampling))], false)
      else UpdateResult(s, [], false)
    case PressureInProgress =>
      if eoc then
        UpdateResult(
          s.(up := RawPressure(Read16(regs, PressureData), Read8(regs, PressureData + 2), s.oversampling),
             step := TemperatureInProgress),
          [RegWrite(Control, ReadTempCmd)], true)
      else UpdateResult(s, [], false)
  }

  /**
   * Every call leaves NONE behind; a call with EOC low in a conversion
   * state changes nothing and writes nothing; a call that changes state
   * writes exactly the command for the conversion it now waits for, to
   * the control register. The transitions themselves: NONE starts a
   * temperature conversion without looking at the pin; with EOC high a
   * finished temperature conversion is read into UT and a pressure
   * conversion started, and a finished pressure conversion starts the next
   * temperature conversion.
   */
  lemma UpdateCommands(s: Sensor, eoc: bool, regs: Registers)
    requires s.oversampling <= UltraHighRes
    ensures var r := Update(s, eoc, regs);
            r.sensor.step != None &&
            (s.step != None && !eoc ==> r == UpdateResult(s, [], false)) &&
            (r.sensor.step == s.step <==> r.writes == []) &&
            (r.sensor.step != s.step ==> r.writes == [RegWrite(Control, CommandFor(r.sensor.step, s.oversampling))])
    ensures var r := Update(s, eoc, regs);
            s.step == None ==>
              r.sensor == s.(step := TemperatureInProgress) &&
              r.writes == [RegWrite(Control, ReadTempCmd)] && !r.complete
    ensures var r := Update(s, eoc, regs);
            s.step == TemperatureInProgress && eoc ==>
              r.sensor.step == PressureInProgress && r.sensor.ut == ToInt16(Read16(regs, TempData)) &&
              r.sensor.up == s.up && !r.complete &&
              r.writes == [RegWrite(Control, PressureCommand(s.oversampling))]
    ensures var r := Update(s, eoc, regs);
            s.step == PressureInProgress && eoc ==>
              r.sensor.step == TemperatureInProgress &&
              r.writes == [RegWrite(Control, ReadTempCmd)]
  {
  }

  /**
   * A call reports a completed cycle exactly when it reads a finished
   * pressure conversion; UT changes only when a temperature conversion is
   * read, UP only when a pressure conversion is, and UP is then the raw
   * pressure of that reading, of 16 + oss bits.
   */
  lemma UpdateReadings(s: Sensor, eoc: bool, regs: Registers)
    requires s.oversampling <= UltraHighRes
    ensures var r := Update(s, eoc, regs);
            (r.complete <==> s.step == PressureInProgress && eoc) &&
            (r.complete ==> r.sensor.step == TemperatureInProgress &&
                            r.sensor.up == RawPressure(Read16(regs, PressureData), Read8(regs, PressureData + 2), s.oversampling) &&
                            0 <= r.sensor.up < Pow2(16 + s.oversampling) && r.sensor.ut == s.ut) &&
            (r.sensor.ut != s.ut ==> s.step == TemperatureInProgress && eoc &&
                                     r.sensor.ut == ToInt16(Read16(regs, TempData))) &&
            (r.sensor.up != s.up ==> r.complete)
  {
  }

  /** The pin level and register snapshot seen by one call. */
  datatype Poll = Poll(eoc: bool, regs: Registers)

  /** The states t[0] = s, t[1], … that successive calls go through. */
  function Trace(s: Sensor, polls: seq<Poll>): (t: seq<Sensor>)
    requires s.oversampling <= UltraHighRes
    decreases |polls|
    ensures |t| == |polls| + 1 && t[0] == s
    ensures forall k :: 0 <= k < |t| ==> t[k].oversampling == s.oversampling
    ensures forall k :: 0 <= k < |polls| ==> t[k + 1] == Update(t[k], polls[k].eoc, polls[k].regs).sensor
  {
    if polls == [] then [s]
    else [s] + Trace(Update(s, polls[0].eoc, polls[0].regs).sensor, polls[1..])
  }

  /** Call k of the run returns true. */
  predicate CompleteAt(s: Sensor, polls: seq<Poll>, k: nat)
    requires s.oversampling <= UltraHighRes && k < |polls|
  {
    Update(Trace(s, polls)[k], polls[k].eoc, polls[k].regs).complete
  }

  /** Call k of the run starts a pressure conversion. */
  predicate StartsPressureAt(s: Sensor, polls: seq<Poll>, k: nat)
    requires s.oversampling <= UltraHighRes && k < |polls|
  {
    var t := Trace(s, polls);
    t[k].step == TemperatureInProgress && t[k + 1].step == PressureInProgress
  }

  /** Once the sequencer has been called, it never returns to NONE. */
  lemma NeverBackToNone(s: Sensor, polls: seq<Poll>)
    requires s.oversampling <= UltraHighRes
    ensures var t := Trace(s, polls); forall k :: 1 <= k < |t| ==> t[k].step != None
  {
    var t := Trace(s, polls);
    forall k | 1 <= k < |t|
      ensures t[k].step != None
    {
      UpdateCommands(t[k - 1], polls[k - 1].eoc, polls[k - 1].regs);
    }
  }

  /**
   * Between two calls that return true there is a call that moves from
   * TEMPERATURE_IN_PROGRESS to PRESSURE_IN_PROGRESS: each completed cycle
   * has its own pressure conversion.
   */
  lemma CompletesSeparated(s: Sensor, polls: seq<Poll>, i: nat, j: nat)
    requires s.oversampling <= UltraHighRes && i < j < |polls|
    requires CompleteAt(s, polls, i) && CompleteAt(s, polls, j)
    ensures exists k :: i < k < j && StartsPressureAt(s, polls, k)
  {
    var t := Trace(s, polls);
    UpdateReadings(t[i], polls[i].eoc, polls[i].regs);
    UpdateReadings(t[j], polls[j].eoc, polls[j].regs);
    if forall k :: i < k < j ==> !StartsPressureAt(s, polls, k) {
      StaysTemperature(s, polls, i + 1, j);
      assert false;
    }
  }

  /** Without a pressure start, TEMPERATURE_IN_PROGRESS persists. */
  lemma {:induction false} StaysTemperature(s: Sensor, polls: seq<Poll>, lo: nat, hi: nat)
    requires s.oversampling <= UltraHighRes && lo <= hi <= |polls|
    requires Trace(s, polls)[lo].step == TemperatureInProgress
    requires forall k :: lo <= k < hi ==> !StartsPressureAt(s, polls, k)
    decreases hi - lo
    ensures Trace(s, polls)[hi].step == TemperatureInProgress
  {
    if lo < hi {
      assert !StartsPressureAt(s, polls, lo);
      StaysTemperature(s, polls, lo + 1, hi);
    }
  }

  /**
   * The sequencer makes progress: from any state, three calls in a row that
   * see EOC high include one that completes a cycle (NONE needs one call to
   * start, a temperature conversion one to finish, and then the pressure
   * conversion finishes).
   */
  lemma HighPollsComplete(s: Sensor, polls: seq<Poll>)
    requires s.oversampling <= UltraHighRes
    requires |polls| >= 3 && polls[0].eoc && polls[1].eoc && polls[2].eoc
    ensures exists k :: 0 <= k < 3 && CompleteAt(s, polls, k)
  {
    var t := Trace(s, polls);
    UpdateCommands(t[0], polls[0].eoc, polls[0].regs);
    UpdateCommands(t[1], polls[1].eoc, polls[1].regs);
    UpdateReadings(t[0], polls[0].eoc, polls[0].regs);
    UpdateReadings(t[1], polls[1].eoc, polls[1].regs);
    UpdateReadings(t[2], polls[2].eoc, polls[2].regs);
    if t[0].step == PressureInProgress {
      assert CompleteAt(s, polls, 0);
    } else if t[1].step == PressureInProgress {
      assert CompleteAt(s, polls, 1);
    } else {
      assert t[2].step == PressureInProgress;
      assert CompleteAt(s, polls, 2);
    }
  }

  /**
   * Starting anywhere but PRESSURE_IN_PROGRESS, the UT and UP a completed
   * cycle leaves behind belong together: UP is the conversion read by the
   * completing call, and UT was read by the call k that started that
   * pressure conversion, after which the state stood still until the
   * conversion was read.
   */
  lemma CycleReadings(s: Sensor, polls: seq<Poll>, j: nat)
    requires s.oversampling <= UltraHighRes && s.step != PressureInProgress
    requires j < |polls| && CompleteAt(s, polls, j)
    ensures var t := Trace(s, polls);
            t[j + 1].up == RawPressure(Read16(polls[j].regs, PressureData), Read8(polls[j].regs, PressureData + 2), s.oversampling) &&
            exists k :: 0 <= k < j && StartsPressureAt(s, polls, k) &&
                        t[j + 1].ut == ToInt16(Read16(polls[k].regs, TempData)) &&
                        forall m :: k < m <= j ==> t[m] == t[k + 1]
  {
    var t := Trace(s, polls);
    UpdateReadings(t[j], polls[j].eoc, polls[j].regs);
    PressureStarted(s, polls, j);
  }

  /** The pressure conversion under way at call j was started by an earlier call and nothing changed since. */
  lemma {:induction false} PressureStarted(s: Sensor, polls: seq<Poll>, j: nat)
    requires s.oversampling <= UltraHighRes && s.step != PressureInProgress
    requires j <= |polls| && Trace(s, polls)[j].step == PressureInProgress
    ensures var t := Trace(s, polls);
            exists k :: 0 <= k < j && StartsPressureAt(s, polls, k) &&
                        t[k + 1].ut == ToInt16(Read16(polls[k].regs, TempData)) &&
                        forall m :: k < m <= j ==> t[m] == t[k + 1]
  {
    var t := Trace(s, polls);
    var r := t[j - 1];
    UpdateCommands(r, polls[j - 1].eoc, polls[j - 1].regs);
    if r.step == PressureInProgress {
      PressureStarted(s, polls, j - 1);
      var k :| 0 <= k < j - 1 && StartsPressureAt(s, polls, k) &&
               t[k + 1].ut == ToInt16(Read16(polls[k].regs, TempData)) &&
               forall m :: k < m <= j - 1 ==> t[m] == t[k + 1];
      assert t[j] == t[j - 1];
      assert forall m :: k < m <= j ==> t[m] == t[k + 1];
    } else {
      assert r.step == TemperatureInProgress;
      assert StartsPressureAt(s, polls, j - 1);
    }
  }

  // ---------------------------------------------------------------------
  // readBMP085All
  // ---------------------------------------------------------------------

  /** X1 = (UT - ac6) * ac5 / 2^15, the double quotient truncated to int32_t. */
  function TemperatureX1(ut: int, cal: Calibration): int {
    TruncDiv((ut - cal.ac6) * cal.ac5, Pow2(15))
  }

  /** The X2 division needs a non-zero divisor. */
  predicate TemperatureDefined(ut: int, cal: Calibration) {
    TemperatureX1(ut, cal) + cal.md != 0
  }

  /**
   * B5 = X1 + X2 with X2 = mc * 2^11 / (X1 + md), truncated. The model takes
   * the exact quotient truncated toward zero. The firmware divides in 32-bit
   * float, and |mc * 2^11| can exceed 2^24, so its quotient can round across
   * an integer (mc = -11997 with X1 + md = 5317 gives -4621, not -4620);
   * README lists this under Left out.
   */
  function B5(ut: int, cal: Calibration): int
    requires TemperatureDefined(ut, cal)
  {
    var x1 := TemperatureX1(ut, cal);
    x1 + TruncDiv(cal.mc * Pow2(11), x1 + cal.md)
  }

  /** B4 = (uint32)ac4 * (uint32)(X3 + 32768) >> 15, from B6 = B5 - 4000. */
  function B4(b6: int, cal: Calibration): (r: int)
    ensures 0 <= r < Uint32Range
  {
    var x1 := Shr(cal.ac3 * b6, 13);
    var x2 := Shr(cal.b1 * Shr(b6 * b6, 12), 16);
    var x3 := Shr(x1 + x2 + 2, 2);
    Shr(U32(cal.ac4 * U32(x3 + 32768)), 15)
  }

  /** B3 = ((ac1 * 4 + X3) << oss + 2) / 4, with C's truncating division. */
  function B3(b6: int, cal: Calibration, oss: nat): int {
    var x1 := Shr(cal.b2 * Shr(b6 * b6, 12), 11);
    var x2 := Shr(cal.ac2 * b6, 11);
    var x3 := x1 + x2;
    TruncDiv((cal.ac1 * 4 + x3) * Pow2(oss) + 2, 4)
  }

  /** B7 = ((uint32)UP - B3) * (50000 >> oss), in uint32_t. */
  function B7(up: int, b3: int, oss: nat): (r: int)
    ensures 0 <= r < Uint32Range
  {
    U32(U32(up - b3) * Shr(50000, oss))
  }

  /**
   * p = B7 < 0x80000000 ? (B7 * 2) / B4 : (B7 / B4) * 2, unsigned, then
   * stored in the int32_t pressure field.
   */
  function QuotientPressure(b7: int, b4: int): int
    requires 0 <= b7 < Uint32Range && 0 < b4 < Uint32Range
  {
    ToInt32(if b7 < 0x8000_0000 then (b7 * 2) / b4 else U32((b7 / b4) * 2))
  }

  /** p + (((p >> 8)^2 * 3038 >> 16) + (-7357 * p >> 16) + 3791) >> 4 */
  function CorrectedPressure(p: int): int {
    var x1 := Shr(Shr(p, 8) * Shr(p, 8) * 3038, 16);
    var x2 := Shr(-7357 * p, 16);
    p + Shr(x1 + x2 + 3791, 4)
  }

  /** The pressure division needs B4 != 0. */
  predicate PressureDefined(s: Sensor) {
    TemperatureDefined(s.ut, s.cal) && B4(B5(s.ut, s.cal) - 4000, s.cal) != 0
  }

  /** The compensated pressure in Pa. */
  function TruePressure(s: Sensor): int
    requires PressureDefined(s)
  {
    var b6 := B5(s.ut, s.cal) - 4000;
    var b4 := B4(b6, s.cal);
    var b7 := B7(s.up, B3(b6, s.cal, s.oversampling), s.oversampling);
    CorrectedPressure(QuotientPressure(b7, b4))
  }

  /** (B5 + 8) / 2^4 / 10 as a float: the temperature in degrees Celsius. */
  datatype Temperature = FromB5(b5: int)

  /** 44330 * (1 - pow(pressure / sealevelPressure, 0.1903)) as a float. */
  datatype Altitude = FromPressure(pressure: int, seaLevel: real)

  /** bmpData_t; hpa0 is the reference pressure the caller keeps there. */
  datatype BmpData = BmpData(temperature: Temperature, pressure: int, altitude: Altitude, hpa0: real)

  /** readBMP085All(sealevelPressure, &data): fills temperature, pressure and altitude. */
  function ReadAll(s: Sensor, sealevelPressure: real, data: BmpData): (r: BmpData)
    requires PressureDefined(s)
    ensures r.hpa0 == data.hpa0
    ensures r.altitude == FromPressure(r.pressure, sealevelPressure)
  {
    var p := TruePressure(s);
    BmpData(FromB5(B5(s.ut, s.cal)), p, FromPressure(p, sealevelPressure), data.hpa0)
  }

  /** The temperature depends only on UT, ac5, ac6, mc and md. */
  lemma TemperatureInputs(ut: int, c: Calibration, d: Calibration)
    requires c.ac5 == d.ac5 && c.ac6 == d.ac6 && c.mc == d.mc && c.md == d.md
    requires TemperatureDefined(ut, c)
    ensures TemperatureDefined(ut, d) && B5(ut, c) == B5(ut, d)
  {
  }

  /**
   * Both branches of the pressure division give the exact quotient
   * 2 * B7 / B4 or one less: the doubling cannot wrap on the first branch,
   * which is exact, and the second loses at most the low bit.
   */
  lemma QuotientBounds(b7: int, b4: int)
    requires 0 <= b7 < Uint32Range && 0 < b4 < Uint32Range
    requires 2 * b7 / b4 < 0x8000_0000
    ensures var p := QuotientPressure(b7, b4);
            (2 * b7) / b4 - 1 <= p <= (2 * b7) / b4 &&
            (b7 < 0x8000_0000 ==> p == (2 * b7) / b4)
  {
    if b7 >= 0x8000_0000 {
      HalvedQuotient(b7, b4);
    }
  }

  /** The second branch: (B7 / B4) * 2 does not wrap and is 2 * B7 / B4 rounded down to even. */
  lemma HalvedQuotient(b7: int, b4: int)
    requires 0x8000_0000 <= b7 < Uint32Range && 0 < b4 < Uint32Range
    requires 2 * b7 / b4 < 0x8000_0000
    ensures QuotientPressure(b7, b4) == 2 * (b7 / b4)
    ensures (2 * b7) / b4 - 1 <= 2 * (b7 / b4) <= (2 * b7) / b4
  {
    DoubleQuotient(b7, b4);
    assert 0 <= (b7 / b4) * 2 < Uint32Range;
    assert U32((b7 / b4) * 2) == (b7 / b4) * 2;
  }

  /** Doubling before dividing gains at most one over doubling after. */
  lemma DoubleQuotient(a: int, b: int)
    requires a >= 0 && b > 0
    ensures 2 * (a / b) <= (2 * a) / b <= 2 * (a / b) + 1
  {
    var q := a / b;
    var r := a % b;
    assert 2 * a == (2 * q) * b + 2 * r;
    if 2 * r < b {
      DivUnique(2 * a, b, 2 * q, 2 * r);
    } else {
      assert 2 * a == (2 * q + 1) * b + (2 * r - b);
      DivUnique(2 * a, b, 2 * q + 1, 2 * r - b);
    }
  }

  /** Euclidean division: a quotient and remainder in range are the quotient. */
  lemma DivUnique(a: int, b: int, m: int, c: int)
    requires b > 0 && a == m * b + c && 0 <= c < b
    ensures a / b == m
  {
    var d := a / b - m;
    assert d * b == c - a % b;
    if d >= 1 {
      MulMono(1, d, b);
    } else if d <= -1 {
      MulMono(d, -1, b);
    }
  }

  /**
   * The datasheet's worked example (ac1 = 408 … md = 2868, UT = 27898,
   * UP = 23843, oss = 0) as the code computes it: its truncating division
   * gives X2 = -2343 and B5 = 2400 where the datasheet has -2344 and 2399
   * (15.05 °C instead of 15.0 °C); the pressure is 69964 Pa either way.
   */
  lemma WorkedExample()
    ensures var cal := Calibration(408, -72, -14383, 32741, 32757, 23153, 6190, 4, -32768, -8711, 2868);
            var s := Sensor(TemperatureInProgress, 0, 0, cal, 27898, 23843);
            TemperatureX1(27898, cal) == 4743 && TemperatureDefined(27898, cal) && B5(27898, cal) == 2400 &&
            PressureDefined(s) && TruePressure(s) == 69964
  {
    var cal := Calibration(408, -72, -14383, 32741, 32757, 23153, 6190, 4, -32768, -8711, 2868);
    assert Pow2(15) == 32768 && Pow2(11) == 2048;
    assert TemperatureX1(27898, cal) == 4743;
    assert B5(27898, cal) == 2400;
    var b6 := -1600;
    assert Pow2(12) == 4096 && Pow2(13) == 8192 && Pow2(16) == 65536;
    assert B3(b6, cal, 0) == 422;
    assert B4(b6, cal) == 33457;
    assert B7(23843, 422, 0) == 1171050000;
    assert QuotientPressure(1171050000, 33457) == 70003;
    assert Pow2(4) == 16 && Pow2(8) == 256;
    assert Shr(70003, 8) == 273;
    assert Shr(273 * 273 * 3038, 16) == 3454;
    assert Shr(-7357 * 70003, 16) == -7859;
    assert Shr(3454 - 7859 + 3791, 4) == -39;
    assert CorrectedPressure(70003) == 69964;
  }

  // ---------------------------------------------------------------------
  // The driver over its globals
  // ---------------------------------------------------------------------

  class Bmp085Sensor {
    var currentStep: CycleStep
    var oversampling: nat
    var eocPinNumber: nat
    var cal: Calibration
    var ut: int
    var up: int
    /** Every (register, byte) pair write8 has sent so far. */
    var written: seq<RegWrite>

    function State(): Sensor
      reads this
    {
      Sensor(currentStep, oversampling, eocPinNumber, cal, ut, up)
    }

    predicate Valid()
      reads this
    {
      oversampling <= UltraHighRes
    }

    constructor ()
      ensures Valid() && State() == Initial() && written == []
    {
      currentStep := None;
      oversampling := 0;
      eocPinNumber := 0;
      cal := Calibration(0, 0, 0, 0, 0, 0, 0, 0, 0, 0, 0);
      ut, up := 0, 0;
      written := [];
    }

    /** beginBMP085(mode, pin), reading from regs. */
    method BeginSensor(mode: nat, pin: nat, regs: Registers) returns (present: bool)
      requires mode < 256
      modifies this
      ensures Valid() && written == old(written)
      ensures BeginResult(State(), present) == Begin(old(State()), mode, pin, regs)
    {
      oversampling := mode;
      if oversampling > UltraHighRes {
        oversampling := UltraHighRes;
      }
      eocPinNumber := pin;
      if regs[ChipIdRegister] != ChipId {
        return false;
      }
      cal := ReadCalibration(regs);
      present := true;
    }

    /** updateBMP085Cycle, with the EOC pin level and the registers it would read. */
    method UpdateCycle(eoc: bool, regs: Registers) returns (cycleComplete: bool)
      requires Valid()
      modifies this
      ensures Valid()
      ensures var r := Update(old(State()), eoc, regs);
              State() == r.sensor && cycleComplete == r.complete && written == old(written) + r.writes
    {
      cycleComplete := false;
      match currentStep {
        case None =>
          written := written + [RegWrite(Control, ReadTempCmd)];
          currentStep := TemperatureInProgress;
        case TemperatureInProgress =>
          if eoc {
            ut := ToInt16(Read16(regs, TempData));
            written := written + [RegWrite(Control, PressureCommand(oversampling))];
            currentStep := PressureInProgress;
          }
        case PressureInProgress =>
          if eoc {
            up := RawPressure(Read16(regs, PressureData), Read8(regs, PressureData + 2), oversampling);
            written := written + [RegWrite(Control, ReadTempCmd)];
            currentStep := TemperatureInProgress;
            cycleComplete := true;
          }
      }
    }
  }
}
