/**
 * The two NMEA 0183 sentence decoders of GPSMTK339.cpp, parse_gga and
 * parse_rmc, as functions of the receive buffer. A decoder
 *   1. compares the first five cells with its header ("GPGGA" / "GPRMC"),
 *   2. XORs the cells before the first '*' among the first 100 cells,
 *   3. reads the hex number after that '*' as the received checksum (a byte;
 *      when there is no '*' the previous received value is kept),
 *   4. only when both checksums agree, splits the C string with strtok_r on
 *      ',' and converts the tokens it needs into the output record.
 *
 * The receive buffer holds the sentence without its '$' (the reader stores
 * the byte after '$' at index 0).
 */
module NmeaSentence {
  import opened CInt
  import opened NmeaText

  const BufferSize: nat := 120
  /** The checksum loops look at cells 0..99 only. */
  const ScanLimit: nat := 100
  /** Both decoders consume ten strtok_r tokens. */
  const FieldsRead: nat := 10

  /** "GPGGA" */
  const GgaHeader: seq<Byte> := [0x47, 0x50, 0x47, 0x47, 0x41]
  /** "GPRMC" */
  const RmcHeader: seq<Byte> := [0x47, 0x50, 0x52, 0x4D, 0x43]

  // ---------------------------------------------------------------------
  // Output record (t_gpsData)
  // ---------------------------------------------------------------------

  /**
   * A float field, left uninterpreted: the text the firmware hands to atof
   * and what it does with the number.
   */
  datatype Real =
    | Atof(text: seq<Byte>)          // atof(text)
    | KnotsToKmh(text: seq<Byte>)    // atof(text) * 1.852
    | MillisOf(text: seq<Byte>)      // fmod(atof(text), 1.0) * 1000, as uint16_t

  /**
   * A latitude or longitude: the float is
   * (negative ? -1 : 1) * (degrees + minutes / 600000.0),
   * minutes being the minutes scaled by 10^4.
   */
  datatype Coordinate = Coordinate(degrees: nat, minutes: nat, negative: bool)

  datatype GpsData = GpsData(
    fix: int, sats: int, hdop: Real, altM: Real,
    hour: nat, minute: nat, seconds: nat, milliseconds: Real,
    lat: Coordinate, lon: Coordinate, speed: Real, heading: Real,
    day: nat, month: nat, year: nat)

  /** What one decoder call yields: its return value, the record, and its static received checksum. */
  datatype Outcome = Outcome(ok: bool, data: GpsData, received: Byte)

  // ---------------------------------------------------------------------
  // Header and checksum
  // ---------------------------------------------------------------------

  /** strncmp(buffer, header, 5) == 0 (the header has no NUL, so this is equality of five cells). */
  predicate HeaderIs(buf: seq<Byte>, header: seq<Byte>)
    requires |header| == 5
  {
    |buf| >= 5 && buf[..5] == header
  }

  /** The index of the first '*' in buf[x..ScanLimit], or the index where the scan loop gives up. */
  function StarFrom(buf: seq<Byte>, x: nat): (n: nat)
    decreases ScanLimit - x
    ensures x <= n
    ensures n == x || (n <= ScanLimit && n <= |buf|)
    ensures forall k :: x <= k < n ==> buf[k] != Star
    ensures n < ScanLimit && n < |buf| ==> buf[n] == Star
  {
    if x >= ScanLimit || x >= |buf| || buf[x] == Star then x else StarFrom(buf, x + 1)
  }

  /** Where the checksum loop stops. */
  function StarIndex(buf: seq<Byte>): (n: nat)
    ensures n <= ScanLimit && n <= |buf|
    ensures forall k :: 0 <= k < n ==> buf[k] != Star
    ensures n < ScanLimit && n < |buf| ==> buf[n] == Star
  {
    StarFrom(buf, 0)
  }

  predicate HasStar(buf: seq<Byte>) {
    StarIndex(buf) < ScanLimit && StarIndex(buf) < |buf|
  }

  /** The XOR the loop accumulates. */
  function ComputedChecksum(buf: seq<Byte>): Byte {
    Xor(buf, 0, StarIndex(buf))
  }

  /**
   * The static checksum_received after the loop: strtol(…, 16) of the text
   * after '*', truncated to a byte, or its previous value when no '*' was seen.
   */
  function ReceivedChecksum(buf: seq<Byte>, previous: Byte): (r: Byte)
    ensures !HasStar(buf) ==> r == previous
  {
    if HasStar(buf) then (Strtol(ReadNumber(buf, StarIndex(buf) + 1, 16)) % 256) as Byte
    else previous
  }

  /** The decoder's checksum test passes: the header matches and both checksums agree. */
  predicate Accepts(buf: seq<Byte>, header: seq<Byte>, previous: Byte)
    requires |header| == 5
  {
    HeaderIs(buf, header) && ComputedChecksum(buf) == ReceivedChecksum(buf, previous)
  }

  // ---------------------------------------------------------------------
  // Tokens
  // ---------------------------------------------------------------------

  /** The strtok_r tokens of the C string in buf. */
  function Fields(buf: seq<Byte>): (t: seq<Span>)
    ensures SpansWithin(t, 0, |buf|)
  {
    Tokens(buf, 0, StrEnd(buf, 0))
  }

  /** Reference definition: the non-empty comma-separated fields of the C string in buf. */
  function NonEmptyFields(buf: seq<Byte>): seq<seq<Byte>> {
    DropEmpty(Split(buf, 0, StrEnd(buf, 0)))
  }

  /**
   * strtok_r returns NULL when the tokens run out and both decoders then
   * hand NULL to atoi/atof/strtol: an accepted sentence must have ten tokens.
   */
  predicate Decodable(buf: seq<Byte>, header: seq<Byte>, previous: Byte)
    requires |header| == 5
  {
    Accepts(buf, header, previous) ==> |Fields(buf)| >= FieldsRead
  }

  /**
   * atoi(text), and the integer part of atof(text) when the fraction does not
   * round the float32 value up to the next integer (see README, Left out).
   */
  function Atoi(text: seq<Byte>): (v: nat)
    ensures v < Power(10, DigitRun(text, 0, 10))
  {
    ReadNumber(text, 0, 10)
  }

  // ---------------------------------------------------------------------
  // GGA
  // ---------------------------------------------------------------------

  /** The fields parse_gga stores from its tokens: fix, sats, hdop, alt_m from tokens 6..9. */
  function GgaFields(texts: seq<seq<Byte>>, data: GpsData): (r: GpsData)
    requires |texts| >= FieldsRead
    ensures r.(fix := data.fix, sats := data.sats, hdop := data.hdop, altM := data.altM) == data
  {
    data.(fix := Atoi(texts[6]), sats := Atoi(texts[7]), hdop := Atof(texts[8]), altM := Atof(texts[9]))
  }

  /** parse_gga: its result, the record afterwards, its checksum_received afterwards. */
  function ParseGga(buf: seq<Byte>, data: GpsData, previous: Byte): (o: Outcome)
    requires Decodable(buf, GgaHeader, previous)
    ensures o.ok <==> Accepts(buf, GgaHeader, previous)
    ensures !o.ok ==> o.data == data
    ensures !HeaderIs(buf, GgaHeader) ==> o == Outcome(false, data, previous)
    ensures HeaderIs(buf, GgaHeader) ==> o.received == ReceivedChecksum(buf, previous)
  {
    if !HeaderIs(buf, GgaHeader) then Outcome(false, data, previous)
    else
      var received := ReceivedChecksum(buf, previous);
      if ComputedChecksum(buf) != received then Outcome(false, data, received)
      else Outcome(true, GgaFields(Texts(buf, Fields(buf)), data), received)
  }

  // ---------------------------------------------------------------------
  // RMC
  // ---------------------------------------------------------------------

  /** hhmmss / ddmmyy split the way parse_rmc does it, each part stored in a uint8_t. */
  datatype Triple = Triple(high: nat, middle: nat, low: nat)

  function SplitSixDigits(t: nat): (r: Triple)
    ensures r.high < 256 && r.middle < 100 && r.low < 100
  {
    Triple((t / 10000) % 256, (t % 10000) / 100, t % 100)
  }

  /**
   * One coordinate from its token (ddmm.mmmm / dddmm.mmmm) and its
   * hemisphere token. The leading digit run is the whole part; the digits one
   * cell after that run are the fraction. The minutes are whole part times 10^4
   * plus fraction, reduced modulo 10^6 in unsigned long, and the degrees are the
   * whole part over 100. When the token has nothing after its digits, the cell
   * after the run is the NUL strtok_r left at the token's end, so the fraction
   * is read from the next, untouched, cell.
   */
  function ReadCoordinate(buf: seq<Byte>, token: Span, hemisphere: seq<Byte>, negativeMark: Byte): (c: Coordinate)
    requires token.start <= token.end <= |buf|
    ensures c.minutes < 1000000
    ensures c.negative <==> |hemisphere| > 0 && hemisphere[0] == negativeMark
  {
    var text := buf[token.start..token.end];
    var run := DigitRun(text, 0, 10);
    var whole := Strtol(ReadNumber(text, 0, 10));
    var frac := Strtol(if run < |text| then ReadNumber(text, run + 1, 10) else ReadNumber(buf, token.end + 1, 10));
    Coordinate(whole / 100, ScaledMinutes(whole, frac), |hemisphere| > 0 && hemisphere[0] == negativeMark)
  }

  /** The minutes times 10^4 from the whole part and the fraction, in unsigned long. */
  function ScaledMinutes(whole: nat, frac: nat): (m: nat)
    ensures m < 1000000
  {
    U32(whole * 10000 + frac) % 1000000
  }

  const Dot: Byte := 0x2E

  /** A ddmm.ffff-shaped token: at most five digits, a '.', then at most four digits up to its end. */
  predicate DecimalToken(text: seq<Byte>) {
    var run := DigitRun(text, 0, 10);
    run <= 5 && run < |text| && text[run] == Dot &&
    |text| - (run + 1) <= 4 && DigitRun(text, run + 1, 10) == |text| - (run + 1)
  }

  /**
   * What the decoder stores for a coordinate token and its hemisphere field:
   * negative iff the hemisphere starts with the mark, the degrees are the whole
   * part over 100, and for a ddmm.ffff token the minutes are mm * 10^4 + ffff.
   */
  predicate CoordinateFromToken(c: Coordinate, text: seq<Byte>, hemisphere: seq<Byte>, mark: Byte) {
    (c.negative <==> |hemisphere| > 0 && hemisphere[0] == mark) &&
    c.degrees == Strtol(Atoi(text)) / 100 &&
    (DecimalToken(text) ==>
       c.minutes == (Atoi(text) % 100) * 10000 + ReadNumber(text, DigitRun(text, 0, 10) + 1, 10))
  }

  const SouthMark: Byte := 0x53
  const WestMark: Byte := 0x57

  /**
   * The fields parse_rmc stores: time from token 1, latitude from 3 and 4,
   * longitude from 5 and 6, speed 7, heading 8, date 9 (token 2, the status, is skipped).
   */
  function RmcFields(buf: seq<Byte>, tokens: seq<Span>, data: GpsData): (r: GpsData)
    requires |tokens| >= FieldsRead && SpansWithin(tokens, 0, |buf|)
    ensures r.fix == data.fix && r.sats == data.sats && r.hdop == data.hdop && r.altM == data.altM
    ensures r.hour < 256 && r.minute < 100 && r.seconds < 100
    ensures r.day < 256 && r.month < 100 && r.year < 100
    ensures r.lat.minutes < 1000000 && r.lon.minutes < 1000000
  {
    var texts := Texts(buf, tokens);
    var time := SplitSixDigits(Atoi(texts[1]));
    var date := SplitSixDigits(Atoi(texts[9]));
    data.(hour := time.high, minute := time.middle, seconds := time.low, milliseconds := MillisOf(texts[1]),
          lat := ReadCoordinate(buf, tokens[3], texts[4], SouthMark),
          lon := ReadCoordinate(buf, tokens[5], texts[6], WestMark),
          speed := KnotsToKmh(texts[7]), heading := Atof(texts[8]),
          day := date.high, month := date.middle, year := date.low)
  }

  /** parse_rmc: its result, the record afterwards, its checksum_received afterwards. */
  function ParseRmc(buf: seq<Byte>, data: GpsData, previous: Byte): (o: Outcome)
    requires Decodable(buf, RmcHeader, previous)
    ensures o.ok <==> Accepts(buf, RmcHeader, previous)
    ensures !o.ok ==> o.data == data
    ensures !HeaderIs(buf, RmcHeader) ==> o == Outcome(false, data, previous)
    ensures HeaderIs(buf, RmcHeader) ==> o.received == ReceivedChecksum(buf, previous)
  {
    if !HeaderIs(buf, RmcHeader) then Outcome(false, data, previous)
    else
      var received := ReceivedChecksum(buf, previous);
      if ComputedChecksum(buf) != received then Outcome(false, data, received)
      else Outcome(true, RmcFields(buf, Fields(buf), data), received)
  }

  // ---------------------------------------------------------------------
  // Properties
  // ---------------------------------------------------------------------

  /**
   * Corrupting one cell before the '*' (into anything but a '*') makes the
   * decoder refuse the sentence it accepted.
   */
  lemma SingleByteCorruptionRejected(buf: seq<Byte>, header: seq<Byte>, previous: Byte, k: nat, c: Byte)
    requires |header| == 5 && Accepts(buf, header, previous)
    requires k < StarIndex(buf) && c != buf[k] && c != Star
    ensures !Accepts(buf[k := c], header, previous)
  {
    if HeaderIs(buf[k := c], header) {
      CorruptionKeepsReceived(buf, k, c, previous);
      CorruptionChangesComputed(buf, k, c);
    }
  }

  /** The corrupted cell lies before the '*': the scan stops at the same place and reads the same digits. */
  lemma CorruptionKeepsReceived(buf: seq<Byte>, k: nat, c: Byte, previous: Byte)
    requires k < StarIndex(buf) && c != Star
    ensures ReceivedChecksum(buf[k := c], previous) == ReceivedChecksum(buf, previous)
  {
    StarUnchanged(buf, k, c, 0);
    if HasStar(buf) {
      SameDigitsAfterStar(buf, k, c);
    }
  }

  lemma SameDigitsAfterStar(buf: seq<Byte>, k: nat, c: Byte)
    requires k < StarIndex(buf) && HasStar(buf) && StarIndex(buf[k := c]) == StarIndex(buf)
    ensures ReadNumber(buf[k := c], StarIndex(buf) + 1, 16) == ReadNumber(buf, StarIndex(buf) + 1, 16)
  {
    var i := StarIndex(buf) + 1;
    SuffixUnchanged(buf, k, c, i);
    ReadNumberLocal(buf[k := c], buf, i, i, 16);
  }

  lemma SuffixUnchanged(buf: seq<Byte>, k: nat, c: Byte, i: nat)
    requires k < i <= |buf|
    ensures buf[k := c][i..] == buf[i..]
  {
  }

  /** The corrupted cell lies inside the XOR-ed span, so the computed checksum changes. */
  lemma CorruptionChangesComputed(buf: seq<Byte>, k: nat, c: Byte)
    requires k < StarIndex(buf) && c != buf[k] && c != Star
    ensures ComputedChecksum(buf[k := c]) != ComputedChecksum(buf)
  {
    StarUnchanged(buf, k, c, 0);
    XorDetectsSingleByteChange(buf, 0, StarIndex(buf), k, c);
  }

  lemma {:induction false} StarUnchanged(buf: seq<Byte>, k: nat, c: Byte, x: nat)
    requires x <= k < StarFrom(buf, x) && c != Star
    decreases ScanLimit - x
    ensures StarFrom(buf[k := c], x) == StarFrom(buf, x)
  {
    var b := buf[k := c];
    if x < k {
      StarUnchanged(buf, k, c, x + 1);
    } else {
      assert b[x] != Star;
      StarFromCells(b, buf, x + 1);
    }
  }

  /** The scan only looks at cells it reaches: agreeing from x on, two buffers stop alike. */
  lemma {:induction false} StarFromCells(a: seq<Byte>, b: seq<Byte>, x: nat)
    requires |a| == |b| && forall k :: x <= k < |a| ==> a[k] == b[k]
    decreases ScanLimit - x
    ensures StarFrom(a, x) == StarFrom(b, x)
  {
    if x < ScanLimit && x < |a| && a[x] != Star {
      StarFromCells(a, b, x + 1);
    }
  }

  /**
   * For a sentence body with no '*', shorter than the scan limit, followed
   * by '*' and the transmitted checksum text: the loop stops at the '*',
   * computes the NMEA checksum of the body, and reads the text after it.
   */
  lemma FramedChecksum(body: seq<Byte>, tail: seq<Byte>, previous: Byte)
    requires |body| < ScanLimit && Star !in body
    ensures var buf := body + [Star] + tail;
            HasStar(buf) && StarIndex(buf) == |body| &&
            ComputedChecksum(buf) == Xor(body, 0, |body|) &&
            ReceivedChecksum(buf, previous) == (Strtol(ReadNumber(tail, 0, 16)) % 256) as Byte
  {
    var buf := body + [Star] + tail;
    StarAfterBody(body, tail);
    XorShift(body, buf, 0, |body|, 0);
    FramedTail(body, tail, previous);
  }

  /** What the reader after '*' sees is the tail. */
  lemma FramedTail(body: seq<Byte>, tail: seq<Byte>, previous: Byte)
    requires |body| < ScanLimit && StarIndex(body + [Star] + tail) == |body|
    ensures ReceivedChecksum(body + [Star] + tail, previous) == (Strtol(ReadNumber(tail, 0, 16)) % 256) as Byte
  {
    var buf := body + [Star] + tail;
    assert buf[|body| + 1..] == tail[0..];
    ReadNumberLocal(buf, tail, |body| + 1, 0, 16);
  }

  lemma StarAfterBody(body: seq<Byte>, tail: seq<Byte>)
    requires |body| < ScanLimit && Star !in body
    ensures StarIndex(body + [Star] + tail) == |body|
  {
    var buf := body + [Star] + tail;
    assert buf[|body|] == Star;
  }

  /** No buffer starts with both headers, so at most one decoder gets past strncmp. */
  lemma HeadersExclusive(buf: seq<Byte>)
    ensures !(HeaderIs(buf, GgaHeader) && HeaderIs(buf, RmcHeader))
  {
    if HeaderIs(buf, GgaHeader) {
      assert buf[2] == buf[..5][2] == 0x47;
    }
  }

  /** A GGA decode stores fix, sats, hdop and alt_m from the 7th to 10th non-empty fields, and nothing else. */
  lemma GgaFieldsFromNonEmptyFields(buf: seq<Byte>, data: GpsData, previous: Byte)
    requires Decodable(buf, GgaHeader, previous)
    ensures var o := ParseGga(buf, data, previous);
            var f := NonEmptyFields(buf);
            o.ok ==>
              |f| >= FieldsRead &&
              o.data.fix == Atoi(f[6]) && o.data.sats == Atoi(f[7]) &&
              o.data.hdop == Atof(f[8]) && o.data.altM == Atof(f[9]) &&
              o.data == data.(fix := o.data.fix, sats := o.data.sats, hdop := o.data.hdop, altM := o.data.altM)
  {
    TokensAreNonEmptyFields(buf, 0, StrEnd(buf, 0));
  }

  /**
   * An RMC decode stores the time, speed, heading and date from the 2nd, 8th,
   * 9th and 10th non-empty fields; each coordinate's degrees (and, for a
   * ddmm.ffff token, its minutes) from the 4th and 6th, and its sign from the
   * 5th and 7th; and leaves the GGA fields alone.
   */
  lemma RmcFieldsFromNonEmptyFields(buf: seq<Byte>, data: GpsData, previous: Byte)
    requires Decodable(buf, RmcHeader, previous)
    ensures var o := ParseRmc(buf, data, previous);
            var f := NonEmptyFields(buf);
            o.ok ==> |f| >= FieldsRead && RmcStoresFields(f, data, o.data)
  {
    var o := ParseRmc(buf, data, previous);
    if o.ok {
      var t := Fields(buf);
      TokensAreNonEmptyFields(buf, 0, StrEnd(buf, 0));
      RmcFieldsFromTexts(buf, t, data);
    }
  }

  /** What RMC stores, in terms of the tokens' texts f, from record d to record e. */
  predicate RmcStoresFields(f: seq<seq<Byte>>, d: GpsData, e: GpsData)
    requires |f| >= FieldsRead
  {
    Triple(e.hour, e.minute, e.seconds) == SplitSixDigits(Atoi(f[1])) &&
    e.milliseconds == MillisOf(f[1]) &&
    e.speed == KnotsToKmh(f[7]) && e.heading == Atof(f[8]) &&
    Triple(e.day, e.month, e.year) == SplitSixDigits(Atoi(f[9])) &&
    CoordinateFromToken(e.lat, f[3], f[4], SouthMark) &&
    CoordinateFromToken(e.lon, f[5], f[6], WestMark) &&
    e.fix == d.fix && e.sats == d.sats && e.hdop == d.hdop && e.altM == d.altM
  }

  lemma RmcFieldsFromTexts(buf: seq<Byte>, t: seq<Span>, data: GpsData)
    requires |t| >= FieldsRead && SpansWithin(t, 0, |buf|)
    ensures RmcStoresFields(Texts(buf, t), data, RmcFields(buf, t, data))
  {
    var texts := Texts(buf, t);
    CoordinateOfToken(buf, t[3], texts[4], SouthMark);
    CoordinateOfToken(buf, t[5], texts[6], WestMark);
  }

  /**
   * ReadCoordinate keeps what the token says: for ddmm.ffff, degrees dd and
   * minutes mm * 10^4 + ffff, with no loss in the unsigned long arithmetic.
   */
  lemma CoordinateOfToken(buf: seq<Byte>, token: Span, hemisphere: seq<Byte>, mark: Byte)
    requires token.start <= token.end <= |buf|
    ensures CoordinateFromToken(ReadCoordinate(buf, token, hemisphere, mark), buf[token.start..token.end], hemisphere, mark)
  {
    var text := buf[token.start..token.end];
    var c := ReadCoordinate(buf, token, hemisphere, mark);
    var run := DigitRun(text, 0, 10);
    var whole := Strtol(Atoi(text));
    assert c.degrees == whole / 100;
    assert c.negative <==> |hemisphere| > 0 && hemisphere[0] == mark;
    if DecimalToken(text) {
      var frac := ReadNumber(text, run + 1, 10);
      DecimalTokenBounds(text);
      assert whole == Atoi(text);
      assert c.minutes == ScaledMinutes(whole, Strtol(frac));
      assert Strtol(frac) == frac;
      MinutesOf(whole, frac);
      assert c.minutes == (Atoi(text) % 100) * 10000 + ReadNumber(text, DigitRun(text, 0, 10) + 1, 10);
    }
  }

  /** CoordinateSplit's first fact, stated over ScaledMinutes. */
  lemma MinutesOf(whole: nat, frac: nat)
    requires whole < 100000 && frac < 10000
    ensures ScaledMinutes(whole, frac) == (whole % 100) * 10000 + frac
  {
    CoordinateSplit(whole, frac);
  }

  /** Both parts of a ddmm.ffff token are small enough for strtol and the unsigned long arithmetic. */
  lemma DecimalTokenBounds(text: seq<Byte>)
    requires DecimalToken(text)
    ensures Atoi(text) < 100000 && ReadNumber(text, DigitRun(text, 0, 10) + 1, 10) < 10000
  {
    var run := DigitRun(text, 0, 10);
    PowerTenMono(run, 5);
    PowerTenMono(|text| - (run + 1), 4);
    assert Power(10, 4) == 10000;
    assert Power(10, 5) == 100000;
  }


  /** hhmmss / ddmmyy: the three parts recombine to the number when it has at most six digits and a high part below 256. */
  lemma SplitSixDigitsRecombines(t: nat)
    requires t < 2560000
    ensures var r := SplitSixDigits(t); t == r.high * 10000 + r.middle * 100 + r.low
  {
    var r := SplitSixDigits(t);
    assert t / 10000 < 256;
    assert t % 10000 == (t % 10000) / 100 * 100 + t % 100 by {
      assert t % 100 == (t % 10000) % 100;
    }
  }

  /** …and a number written from three in-range parts splits back into them. */
  lemma SplitSixDigitsOfParts(h: nat, m: nat, s: nat)
    requires h < 256 && m < 100 && s < 100
    ensures SplitSixDigits(h * 10000 + m * 100 + s) == Triple(h, m, s)
  {
    var t := h * 10000 + m * 100 + s;
    assert t / 10000 == h && t % 10000 == m * 100 + s;
    assert (m * 100 + s) / 100 == m && t % 100 == s;
  }

  /**
   * A ddmm.mmmm reading whose whole part has its minutes in the low two
   * digits and whose fraction has at most four digits keeps both exactly:
   * minutes is (whole % 100) * 10^4 + fraction, degrees * 100 + minutes / 10^4
   * is the whole part again.
   */
  lemma CoordinateSplit(whole: nat, frac: nat)
    requires frac < 10000 && whole * 10000 + frac < Uint32Range
    ensures var minutes := U32(whole * 10000 + frac) % 1000000;
            minutes == (whole % 100) * 10000 + frac &&
            (whole / 100) * 100 + minutes / 10000 == whole &&
            minutes % 10000 == frac
  {
    var v := whole * 10000 + frac;
    assert U32(v) == v;
    var q := whole / 100;
    assert whole == q * 100 + whole % 100;
    assert v == q * 1000000 + ((whole % 100) * 10000 + frac);
    assert (whole % 100) * 10000 + frac < 1000000;
  }
}
