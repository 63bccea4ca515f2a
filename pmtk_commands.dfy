/**
 * The MTK3339 configuration sentences that GPSMTK339.cpp defines (PMTK220
 * update rate, PMTK251 baud rate, PMTK314 sentence selection), used as
 * checksum test vectors: each one, as the reader's buffer would hold it
 * once the '$' has been overwritten (body, '*', two hex digits, CR, LF),
 * passes the decoders' checksum comparison.
 */
module PmtkCommands {
  import opened CInt
  import opened NmeaText
  import opened NmeaSentence

  const CR: Byte := 0x0D

  /** A command sentence: the text between '$' and '*', and the hex digits after '*'. */
  datatype Command = Command(body: seq<Byte>, checksum: seq<Byte>)

  /** What the buffer holds after the sentence's LF has been stored. */
  function Framed(c: Command): seq<Byte> {
    c.body + [Star] + (c.checksum + [CR, LF])
  }

  /** The checksum loop finds a '*' and its XOR equals the transmitted value, whatever the previous one. */
  ghost predicate ChecksumValid(c: Command) {
    HasStar(Framed(c)) &&
    forall previous: Byte :: ComputedChecksum(Framed(c)) == ReceivedChecksum(Framed(c), previous)
  }

  /** "PMTK220," */
  const Pmtk220: seq<Byte> := [0x50, 0x4D, 0x54, 0x4B, 0x32, 0x32, 0x30, 0x2C]
  /** "PMTK251," */
  const Pmtk251: seq<Byte> := [0x50, 0x4D, 0x54, 0x4B, 0x32, 0x35, 0x31, 0x2C]
  /** "PMTK314" */
  const Pmtk314: seq<Byte> := [0x50, 0x4D, 0x54, 0x4B, 0x33, 0x31, 0x34]
  /** ",0,0,0,0,0,0": six sentence kinds switched off. */
  const SixOff: seq<Byte> := [0x2C, 0x30, 0x2C, 0x30, 0x2C, 0x30, 0x2C, 0x30, 0x2C, 0x30, 0x2C, 0x30]

  /** A PMTK314 body: the rates of the first six sentence kinds as given, the other thirteen 0. */
  function OutputBody(firstSix: seq<Byte>): seq<Byte> {
    Pmtk314 + firstSix + SixOff + SixOff + [Comma, 0x30]
  }

  // "1000" … "9600" are the argument texts; "1F" … "28" the checksum texts.
  const SetNmeaUpdate1Hz := Command(Pmtk220 + [0x31, 0x30, 0x30, 0x30], [0x31, 0x46])
  const SetNmeaUpdate5Hz := Command(Pmtk220 + [0x32, 0x30, 0x30], [0x32, 0x43])
  const SetNmeaUpdate10Hz := Command(Pmtk220 + [0x31, 0x30, 0x30], [0x32, 0x46])
  const SetBaud57600 := Command(Pmtk251 + [0x35, 0x37, 0x36, 0x30, 0x30], [0x32, 0x43])
  const SetBaud9600 := Command(Pmtk251 + [0x39, 0x36, 0x30, 0x30], [0x31, 0x37])

  /** ",0,1,0,0,0,0": RMC only; ",0,1,0,1,0,0": RMC and GGA; ",1,1,1,1,1,1": all six; all off. */
  const SetNmeaOutputRmcOnly :=
    Command(OutputBody([0x2C, 0x30, 0x2C, 0x31, 0x2C, 0x30, 0x2C, 0x30, 0x2C, 0x30, 0x2C, 0x30]), [0x32, 0x39])
  const SetNmeaOutputRmcGga :=
    Command(OutputBody([0x2C, 0x30, 0x2C, 0x31, 0x2C, 0x30, 0x2C, 0x31, 0x2C, 0x30, 0x2C, 0x30]), [0x32, 0x38])
  const SetNmeaOutputAllData :=
    Command(OutputBody([0x2C, 0x31, 0x2C, 0x31, 0x2C, 0x31, 0x2C, 0x31, 0x2C, 0x31, 0x2C, 0x31]), [0x32, 0x38])
  const SetNmeaOutputOff := Command(OutputBody(SixOff), [0x32, 0x38])

  /** A command whose body XORs to the value digits its checksum text spells is accepted by the checksum test. */
  lemma CommandAccepted(c: Command, sum: Byte, digits: nat)
    requires |c.body| < ScanLimit && Star !in c.body
    requires Xor(c.body, 0, |c.body|) == sum
    requires ReadNumber(c.checksum + [CR, LF], 0, 16) == digits < 256 && digits as Byte == sum
    ensures ChecksumValid(c) && ComputedChecksum(Framed(c)) == sum
  {
    var tail := c.checksum + [CR, LF];
    assert Framed(c) == c.body + [Star] + tail;
    forall previous: Byte
      ensures ReceivedChecksum(Framed(c), previous) == sum
    {
      FramedChecksum(c.body, tail, previous);
    }
    FramedChecksum(c.body, tail, 0);
  }

  /** The checksum of a PMTK314 body, from the checksum of its first six rates. */
  lemma OutputBodyChecksum(firstSix: seq<Byte>)
    requires Star !in firstSix && |firstSix| == 12
    ensures Star !in OutputBody(firstSix) && |OutputBody(firstSix)| == 45
    ensures Xor(OutputBody(firstSix), 0, 45) == 0x34 ^ Xor(firstSix, 0, 12) ^ 0x1C
  {
    assert Xor(Pmtk314, 0, 7) == 0x34;
    assert Xor(SixOff, 0, 12) == 0;
    assert Xor([Comma, 0x30], 0, 2) == 0x1C;
    XorConcat(Pmtk314, firstSix);
    XorConcat(Pmtk314 + firstSix, SixOff);
    XorConcat(Pmtk314 + firstSix + SixOff, SixOff);
    XorConcat(Pmtk314 + firstSix + SixOff + SixOff, [Comma, 0x30]);
  }

  /** PMTK220 at 1 Hz: "*1F" is the checksum of its body. */
  lemma Update1HzChecksum()
    ensures ChecksumValid(SetNmeaUpdate1Hz)
  {
    assert Xor(Pmtk220, 0, 8) == 0x1E;
    XorConcat(Pmtk220, [0x31, 0x30, 0x30, 0x30]);
    assert [0x31, 0x46] + [CR, LF] == [0x31, 0x46, 0x0D, 0x0A];
    CommandAccepted(SetNmeaUpdate1Hz, 0x1F, 0x1F);
  }

  /** PMTK220 at 5 Hz: "*2C" is the checksum of its body. */
  lemma Update5HzChecksum()
    ensures ChecksumValid(SetNmeaUpdate5Hz)
  {
    assert Xor(Pmtk220, 0, 8) == 0x1E;
    XorConcat(Pmtk220, [0x32, 0x30, 0x30]);
    assert [0x32, 0x43] + [CR, LF] == [0x32, 0x43, 0x0D, 0x0A];
    CommandAccepted(SetNmeaUpdate5Hz, 0x2C, 0x2C);
  }

  /** PMTK220 at 10 Hz: "*2F" is the checksum of its body. */
  lemma Update10HzChecksum()
    ensures ChecksumValid(SetNmeaUpdate10Hz)
  {
    assert Xor(Pmtk220, 0, 8) == 0x1E;
    XorConcat(Pmtk220, [0x31, 0x30, 0x30]);
    assert [0x32, 0x46] + [CR, LF] == [0x32, 0x46, 0x0D, 0x0A];
    CommandAccepted(SetNmeaUpdate10Hz, 0x2F, 0x2F);
  }

  /** PMTK251 at 57600 baud: "*2C" is the checksum of its body. */
  lemma Baud57600Checksum()
    ensures ChecksumValid(SetBaud57600)
  {
    assert Xor(Pmtk251, 0, 8) == 0x18;
    XorConcat(Pmtk251, [0x35, 0x37, 0x36, 0x30, 0x30]);
    assert [0x32, 0x43] + [CR, LF] == [0x32, 0x43, 0x0D, 0x0A];
    CommandAccepted(SetBaud57600, 0x2C, 0x2C);
  }

  /** PMTK251 at 9600 baud: "*17" is the checksum of its body. */
  lemma Baud9600Checksum()
    ensures ChecksumValid(SetBaud9600)
  {
    assert Xor(Pmtk251, 0, 8) == 0x18;
    XorConcat(Pmtk251, [0x39, 0x36, 0x30, 0x30]);
    assert [0x31, 0x37] + [CR, LF] == [0x31, 0x37, 0x0D, 0x0A];
    CommandAccepted(SetBaud9600, 0x17, 0x17);
  }

  /** PMTK314 selecting RMC only: "*29" is the checksum of its body. */
  lemma RmcOnlyChecksum()
    ensures ChecksumValid(SetNmeaOutputRmcOnly)
  {
    var firstSix: seq<Byte> := [0x2C, 0x30, 0x2C, 0x31, 0x2C, 0x30, 0x2C, 0x30, 0x2C, 0x30, 0x2C, 0x30];
    assert Xor(firstSix, 0, 12) == 0x01;
    OutputBodyChecksum(firstSix);
    assert [0x32, 0x39] + [CR, LF] == [0x32, 0x39, 0x0D, 0x0A];
    CommandAccepted(SetNmeaOutputRmcOnly, 0x29, 0x29);
  }

  /** PMTK314 selecting RMC and GGA: "*28" is the checksum of its body. */
  lemma RmcGgaChecksum()
    ensures ChecksumValid(SetNmeaOutputRmcGga)
  {
    var firstSix: seq<Byte> := [0x2C, 0x30, 0x2C, 0x31, 0x2C, 0x30, 0x2C, 0x31, 0x2C, 0x30, 0x2C, 0x30];
    assert Xor(firstSix, 0, 12) == 0x00;
    OutputBodyChecksum(firstSix);
    assert [0x32, 0x38] + [CR, LF] == [0x32, 0x38, 0x0D, 0x0A];
    CommandAccepted(SetNmeaOutputRmcGga, 0x28, 0x28);
  }

  /** PMTK314 selecting all six kinds: "*28" is the checksum of its body. */
  lemma AllDataChecksum()
    ensures ChecksumValid(SetNmeaOutputAllData)
  {
    var firstSix: seq<Byte> := [0x2C, 0x31, 0x2C, 0x31, 0x2C, 0x31, 0x2C, 0x31, 0x2C, 0x31, 0x2C, 0x31];
    assert Xor(firstSix, 0, 12) == 0x00;
    OutputBodyChecksum(firstSix);
    assert [0x32, 0x38] + [CR, LF] == [0x32, 0x38, 0x0D, 0x0A];
    CommandAccepted(SetNmeaOutputAllData, 0x28, 0x28);
  }

  /** PMTK314 switching every sentence off: "*28" is the checksum of its body. */
  lemma OutputOffChecksum()
    ensures ChecksumValid(SetNmeaOutputOff)
  {
    var firstSix: seq<Byte> := SixOff;
    assert Xor(firstSix, 0, 12) == 0x00;
    OutputBodyChecksum(firstSix);
    assert [0x32, 0x38] + [CR, LF] == [0x32, 0x38, 0x0D, 0x0A];
    CommandAccepted(SetNmeaOutputOff, 0x28, 0x28);
  }
}
