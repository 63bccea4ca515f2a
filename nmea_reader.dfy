/**
 * gps_read_serial_and_parse_nmea (GPSMTK339.cpp): the byte-driven
 * sentence assembler. While locked it keeps overwriting buffer[0] until a
 * '$' arrives; once unlocked it stores each byte at buffer[counter]; a line
 * feed hands the frame to parse_rmc and then parse_gga, latches their
 * successes, reports "ready" (and clears both latches) once both kinds have
 * succeeded, zeroes buffer[0..counter] and locks again.
 *
 * Reader is the state as a value and Advance / Run its transition functions;
 * GpsReader is the same machine over a mutable array, its methods proved
 * to follow Advance and Run.
 *
 * Deviation: the source never checks counter against the buffer size.
 * Here a frame that reaches FrameCapacity bytes without a line feed is
 * discarded and the reader locks again until the next '$'.
 */
module NmeaReader {
  import opened CInt
  import opened NmeaText
  import opened NmeaSentence

  /** The most cells a frame may use: buffer[FrameCapacity], the last cell, stays NUL. */
  const FrameCapacity: nat := BufferSize - 1

  datatype Reader = Reader(
    buffer: seq<Byte>,
    unlocked: bool,
    counter: nat,
    rmcReady: bool,
    ggaReady: bool,
    rmcReceived: Byte,   // parse_rmc's static checksum_received
    ggaReceived: Byte)   // parse_gga's static checksum_received

  /** The shape every reachable state has: a full buffer and a write index inside the frame. */
  predicate Sane(r: Reader) {
    |r.buffer| == BufferSize && r.counter < FrameCapacity
  }

  function Max1(n: nat): nat { if n == 0 then 1 else n }

  /**
   * The invariant the machine keeps: no cell from the write position on
   * (from 1 on, since cell 0 holds the last byte read while locked) holds
   * anything, a locked reader writes at 0, and the two latches are never
   * both pending.
   */
  predicate WellFormed(r: Reader) {
    Sane(r) &&
    (!r.unlocked ==> r.counter == 0) &&
    (forall k :: Max1(r.counter) <= k < BufferSize ==> r.buffer[k] == NUL) &&
    !(r.rmcReady && r.ggaReady)
  }

  /** The statics and the global buffer at reset: unlock starts at 1. */
  function Initial(): (r: Reader)
    ensures WellFormed(r) && r.unlocked && r.counter == 0
  {
    Reader(seq(BufferSize, _ => NUL), true, 0, false, false, 0, 0)
  }

  /** buf with cells 0..n-1 set to NUL: the restart loop for a in 0..counter. */
  function ZeroPrefix(buf: seq<Byte>, n: nat): (z: seq<Byte>)
    requires n <= |buf|
    ensures |z| == |buf|
    ensures forall k :: 0 <= k < n ==> z[k] == NUL
    ensures forall k :: n <= k < |buf| ==> z[k] == buf[k]
  {
    seq(|buf|, k requires 0 <= k < |buf| => if k < n then NUL else buf[k])
  }

  /** The buffer once the byte read is stored: at 0 while locked, at counter otherwise. */
  function Stored(r: Reader, b: Byte): seq<Byte>
    requires Sane(r)
  {
    r.buffer[(if r.unlocked then r.counter else 0) := b]
  }

  /** A line feed completing a frame that a decoder accepts must give it its ten tokens. */
  predicate StepDefined(r: Reader, b: Byte)
    requires Sane(r)
  {
    r.unlocked && b == LF ==>
      Decodable(Stored(r, b), RmcHeader, r.rmcReceived) && Decodable(Stored(r, b), GgaHeader, r.ggaReceived)
  }

  datatype StepResult = StepResult(reader: Reader, data: GpsData, ready: bool)

  /**
   * The end of a frame once both decoders have run: latch their results,
   * report (and clear both latches) when both kinds are in, zero
   * buffer[0..counter], lock.
   */
  function Latch(r: Reader, rmc: Outcome, gga: Outcome): StepResult
    requires Sane(r)
  {
    var rmcReady := r.rmcReady || rmc.ok;
    var ggaReady := r.ggaReady || gga.ok;
    var report := rmcReady && ggaReady;
    StepResult(
      Reader(ZeroPrefix(r.buffer, r.counter + 1), false, 0, rmcReady && !report, ggaReady && !report, rmc.received, gga.received),
      gga.data, report)
  }

  /**
   * A line feed stored in r.buffer (at r.counter): parse_rmc runs, then
   * parse_gga on the record parse_rmc left.
   */
  function EndOfFrame(r: Reader, data: GpsData): (s: StepResult)
    requires Sane(r)
    requires Decodable(r.buffer, RmcHeader, r.rmcReceived) && Decodable(r.buffer, GgaHeader, r.ggaReceived)
    ensures Sane(s.reader)
  {
    var rmc := ParseRmc(r.buffer, data, r.rmcReceived);
    var gga := ParseGga(r.buffer, rmc.data, r.ggaReceived);
    Latch(r, rmc, gga)
  }

  /** One iteration of the while (Serial.available() > 0) loop, reading byte b. */
  function Advance(r: Reader, data: GpsData, b: Byte): (s: StepResult)
    requires Sane(r) && StepDefined(r, b)
    ensures Sane(s.reader)
  {
    var buf := Stored(r, b);
    if !r.unlocked then
      StepResult(r.(buffer := buf, unlocked := b == Dollar), data, false)
    else if b == LF then
      EndOfFrame(r.(buffer := buf), data)
    else if r.counter + 1 == FrameCapacity then
      // deviation: the frame would run into the last cell; drop it and wait for '$'
      StepResult(r.(buffer := ZeroPrefix(buf, r.counter + 1), unlocked := false, counter := 0), data, false)
    else
      StepResult(r.(buffer := buf, counter := r.counter + 1), data, false)
  }

  /** Every step of reading input from r is defined. */
  predicate RunDefined(r: Reader, data: GpsData, input: seq<Byte>)
    requires Sane(r)
    decreases |input|
  {
    input == [] ||
    (StepDefined(r, input[0]) &&
     var s := Advance(r, data, input[0]);
     RunDefined(s.reader, s.data, input[1..]))
  }

  /** One call of gps_read_serial_and_parse_nmea with input waiting on the serial port. */
  function Run(r: Reader, data: GpsData, input: seq<Byte>): (s: StepResult)
    requires Sane(r) && RunDefined(r, data, input)
    decreases |input|
    ensures Sane(s.reader)
  {
    if input == [] then StepResult(r, data, false)
    else
      var first := Advance(r, data, input[0]);
      var rest := Run(first.reader, first.data, input[1..]);
      StepResult(rest.reader, rest.data, first.ready || rest.ready)
  }

  // ---------------------------------------------------------------------
  // Framing
  // ---------------------------------------------------------------------

  /** While locked, a byte other than '$' only lands in buffer[0]. */
  lemma LockedDropsByte(r: Reader, data: GpsData, b: Byte)
    requires Sane(r) && !r.unlocked && b != Dollar
    ensures Advance(r, data, b) == StepResult(r.(buffer := r.buffer[0 := b]), data, false)
  {
  }

  /** '$' unlocks without moving counter, so the next byte overwrites buffer[0], where the '$' went. */
  lemma DollarUnlocks(r: Reader, data: GpsData, b: Byte, next: Byte)
    requires WellFormed(r) && !r.unlocked && b == Dollar
    ensures var s := Advance(r, data, b);
            s.reader.unlocked && s.reader.counter == 0 && s.data == data && !s.ready &&
            s.reader.buffer[0] == Dollar && Stored(s.reader, next) == s.reader.buffer[0 := next]
  {
  }

  /** Inside a frame, a byte other than a line feed is stored at counter and counter moves on. */
  lemma DataByteStored(r: Reader, data: GpsData, b: Byte)
    requires Sane(r) && r.unlocked && b != LF && r.counter + 1 < FrameCapacity
    ensures Advance(r, data, b) == StepResult(r.(buffer := r.buffer[r.counter := b], counter := r.counter + 1), data, false)
  {
  }

  /**
   * A line feed runs parse_rmc and then parse_gga on the frame, and leaves
   * the reader locked with counter 0 and the whole buffer zero.
   */
  lemma LineFeedEndsFrame(r: Reader, data: GpsData)
    requires WellFormed(r) && r.unlocked && StepDefined(r, LF)
    ensures var s := Advance(r, data, LF);
            var buf := r.buffer[r.counter := LF];
            var rmc := ParseRmc(buf, data, r.rmcReceived);
            !s.reader.unlocked && s.reader.counter == 0 &&
            (forall k :: 0 <= k < BufferSize ==> s.reader.buffer[k] == NUL) &&
            s.data == ParseGga(buf, rmc.data, r.ggaReceived).data &&
            s.reader.rmcReceived == rmc.received &&
            s.reader.ggaReceived == ParseGga(buf, rmc.data, r.ggaReceived).received
  {
    var s := Advance(r, data, LF);
    forall k | 0 <= k < BufferSize
      ensures s.reader.buffer[k] == NUL
    {
      if k > r.counter {
        assert Max1(r.counter) <= k;
      }
    }
  }

  /** The deviation: a frame that fills FrameCapacity cells without a line feed is dropped. */
  lemma OverlongFrameDropped(r: Reader, data: GpsData, b: Byte)
    requires WellFormed(r) && r.unlocked && b != LF && r.counter + 1 == FrameCapacity
    ensures var s := Advance(r, data, b);
            !s.reader.unlocked && s.reader.counter == 0 && s.data == data && !s.ready &&
            (forall k :: 0 <= k < BufferSize ==> s.reader.buffer[k] == NUL) &&
            s.reader.rmcReady == r.rmcReady && s.reader.ggaReady == r.ggaReady
  {
    var s := Advance(r, data, b);
    forall k | 0 <= k < BufferSize
      ensures s.reader.buffer[k] == NUL
    {
      if k > r.counter {
        assert Max1(r.counter) <= k;
      }
    }
  }

  /** Every step keeps the invariant. */
  lemma StepKeepsWellFormed(r: Reader, data: GpsData, b: Byte)
    requires WellFormed(r) && StepDefined(r, b)
    ensures WellFormed(Advance(r, data, b).reader)
  {
    var s := Advance(r, data, b).reader;
    if r.unlocked && b != LF && r.counter + 1 < FrameCapacity {
      forall k | Max1(s.counter) <= k < BufferSize
        ensures s.buffer[k] == NUL
      {
        assert Max1(r.counter) <= k;
      }
    }
  }

  /** …and so does every run. */
  lemma {:induction false} RunKeepsWellFormed(r: Reader, data: GpsData, input: seq<Byte>)
    requires WellFormed(r) && RunDefined(r, data, input)
    decreases |input|
    ensures WellFormed(Run(r, data, input).reader)
  {
    if input != [] {
      StepKeepsWellFormed(r, data, input[0]);
      var s := Advance(r, data, input[0]);
      RunKeepsWellFormed(s.reader, s.data, input[1..]);
    }
  }

  // ---------------------------------------------------------------------
  // Readiness latches
  // ---------------------------------------------------------------------

  /**
   * A step reports ready exactly when it ends a frame and both kinds have
   * now succeeded since the last report; a report clears both latches, and
   * a latch that is set stays set until a report.
   */
  lemma StepReadiness(r: Reader, data: GpsData, b: Byte)
    requires Sane(r) && StepDefined(r, b)
    ensures var s := Advance(r, data, b);
            var buf := Stored(r, b);
            var frame := r.unlocked && b == LF;
            var rmcOk := frame && ParseRmc(buf, data, r.rmcReceived).ok;
            var ggaOk := frame && ParseGga(buf, ParseRmc(buf, data, r.rmcReceived).data, r.ggaReceived).ok;
            (s.ready <==> frame && (r.rmcReady || rmcOk) && (r.ggaReady || ggaOk)) &&
            (s.ready ==> !s.reader.rmcReady && !s.reader.ggaReady) &&
            (!s.ready ==> s.reader.rmcReady == (r.rmcReady || rmcOk) && s.reader.ggaReady == (r.ggaReady || ggaOk))
  {
  }

  /** Some frame of the run was accepted by parse_gga. */
  predicate GgaAcceptedIn(r: Reader, data: GpsData, input: seq<Byte>)
    requires Sane(r) && RunDefined(r, data, input)
    decreases |input|
  {
    input != [] &&
    var s := Advance(r, data, input[0]);
    (r.unlocked && input[0] == LF &&
     ParseGga(Stored(r, LF), ParseRmc(Stored(r, LF), data, r.rmcReceived).data, r.ggaReceived).ok) ||
    GgaAcceptedIn(s.reader, s.data, input[1..])
  }

  /** Some frame of the run was accepted by parse_rmc. */
  predicate RmcAcceptedIn(r: Reader, data: GpsData, input: seq<Byte>)
    requires Sane(r) && RunDefined(r, data, input)
    decreases |input|
  {
    input != [] &&
    var s := Advance(r, data, input[0]);
    (r.unlocked && input[0] == LF && ParseRmc(Stored(r, LF), data, r.rmcReceived).ok) ||
    RmcAcceptedIn(s.reader, s.data, input[1..])
  }

  /**
   * A call reports ready only if a GGA sentence (and an RMC sentence) was
   * accepted during it or was pending from before: any number of sentences
   * of one kind alone never make it return true.
   */
  lemma {:induction false} ReadyNeedsBothKinds(r: Reader, data: GpsData, input: seq<Byte>)
    requires Sane(r) && RunDefined(r, data, input)
    decreases |input|
    ensures Run(r, data, input).ready ==> r.ggaReady || GgaAcceptedIn(r, data, input)
    ensures Run(r, data, input).ready ==> r.rmcReady || RmcAcceptedIn(r, data, input)
  {
    if input != [] {
      var s := Advance(r, data, input[0]);
      StepReadiness(r, data, input[0]);
      ReadyNeedsBothKinds(s.reader, s.data, input[1..]);
    }
  }

  /**
   * Splitting the waiting input in two: the call's result is the OR of the two
   * halves' results, so ready is returned iff some frame completed a pair.
   */
  lemma {:induction false} RunConcat(r: Reader, data: GpsData, a: seq<Byte>, b: seq<Byte>)
    requires Sane(r) && RunDefined(r, data, a + b)
    decreases |a|
    ensures RunDefined(r, data, a)
    ensures var m := Run(r, data, a);
            RunDefined(m.reader, m.data, b) &&
            var e := Run(m.reader, m.data, b);
            Run(r, data, a + b) == StepResult(e.reader, e.data, m.ready || e.ready)
  {
    if a == [] {
      assert a + b == b;
    } else {
      assert (a + b)[0] == a[0];
      assert (a + b)[1..] == a[1..] + b;
      var s := Advance(r, data, a[0]);
      RunConcat(s.reader, s.data, a[1..], b);
    }
  }

  /** A call that reads a single byte returns what that step returns. */
  lemma RunSingle(r: Reader, data: GpsData, b: Byte)
    requires Sane(r) && StepDefined(r, b)
    ensures RunDefined(r, data, [b]) && Run(r, data, [b]) == Advance(r, data, b)
  {
    assert [b][1..] == [];
  }

  // ---------------------------------------------------------------------
  // The write index as the source moves it
  // ---------------------------------------------------------------------

  /**
   * unlock and counter as the source's loop moves them over input, with no
   * bound on counter (a byte, so it wraps at 256). While unlocked, the next
   * byte read is stored at buffer[counter].
   */
  function UncheckedFraming(unlocked: bool, counter: nat, input: seq<Byte>): (bool, nat)
    decreases |input|
  {
    if input == [] then (unlocked, counter)
    else if !unlocked then UncheckedFraming(input[0] == Dollar, counter, input[1..])
    else if input[0] == LF then UncheckedFraming(false, 0, input[1..])
    else UncheckedFraming(true, (counter + 1) % 256, input[1..])
  }

  /** Inside a frame, each byte that is not a line feed moves the unchecked counter on by one. */
  lemma {:induction false} UncheckedCounterGrows(counter: nat, input: seq<Byte>)
    requires LF !in input && counter + |input| < 256
    decreases |input|
    ensures UncheckedFraming(true, counter, input) == (true, counter + |input|)
  {
    if input != [] {
      assert input[0] != LF;
      assert LF !in input[1..] by {
        forall k | 0 <= k < |input[1..]|
          ensures input[1..][k] != LF
        {
          assert input[1..][k] == input[k + 1];
        }
      }
      UncheckedCounterGrows(counter + 1, input[1..]);
    }
  }

  /**
   * From the locked state a line feed leaves (counter 0), a '$' followed by
   * BufferSize bytes with no line feed leaves the source unlocked with counter == BufferSize, so the next byte read is stored one
   * cell past the end of buffer.
   */
  lemma UncheckedFrameOverruns(input: seq<Byte>)
    requires |input| == BufferSize && LF !in input
    ensures UncheckedFraming(false, 0, [Dollar] + input) == (true, BufferSize)
  {
    assert ([Dollar] + input)[1..] == input;
    UncheckedCounterGrows(0, input);
  }

  // ---------------------------------------------------------------------
  // The machine over a mutable buffer
  // ---------------------------------------------------------------------

  class GpsReader {
    var buffer: array<Byte>
    var unlocked: bool
    var counter: nat
    var rmcReady: bool
    var ggaReady: bool
    /** parse_rmc's static checksum and checksum_received. */
    var rmcChecksum: Byte
    var rmcReceived: Byte
    /** parse_gga's static checksum and checksum_received. */
    var ggaChecksum: Byte
    var ggaReceived: Byte

    function State(): Reader
      reads this, buffer
    {
      Reader(buffer[..], unlocked, counter, rmcReady, ggaReady, rmcReceived, ggaReceived)
    }

    /** What the decoders need between calls: a full buffer and both accumulators reset. */
    predicate Shaped()
      reads this
    {
      buffer.Length == BufferSize && rmcChecksum == 0 && ggaChecksum == 0
    }

    predicate Valid()
      reads this, buffer
    {
      Shaped() && WellFormed(State())
    }

    constructor ()
      ensures Valid() && State() == Initial()
    {
      buffer := new Byte[BufferSize](_ => NUL);
      unlocked := true;
      counter := 0;
      rmcReady, ggaReady := false, false;
      rmcChecksum, rmcReceived := 0, 0;
      ggaChecksum, ggaReceived := 0, 0;
    }

    /** The checksum loop shared by both decoders (cells 0..99, stopping at '*'). */
    method ScanChecksum(previous: Byte) returns (sum: Byte, received: Byte)
      requires buffer.Length == BufferSize
      ensures sum == ComputedChecksum(buffer[..])
      ensures received == ReceivedChecksum(buffer[..], previous)
    {
      sum, received := 0, previous;
      var x := 0;
      while x < ScanLimit
        invariant 0 <= x <= ScanLimit
        invariant sum == Xor(buffer[..], 0, x)
        invariant forall k :: 0 <= k < x ==> buffer[k] != Star
        invariant received == previous
      {
        if buffer[x] == Star {
          received := (Strtol(ReadNumber(buffer[..], x + 1, 16)) % 256) as Byte;
          break;
        }
        XorExtend(buffer[..], 0, x);
        sum := sum ^ buffer[x];
        x := x + 1;
      }
      assert StarIndex(buffer[..]) == x;
    }

    /** parse_gga on the buffer: its result and the record it leaves, with its statics updated. */
    method ParseGga(data: GpsData) returns (ok: bool, out: GpsData)
      requires Shaped() && Decodable(buffer[..], GgaHeader, ggaReceived)
      modifies this`ggaChecksum, this`ggaReceived
      ensures Shaped()
      ensures Outcome(ok, out, ggaReceived) == NmeaSentence.ParseGga(buffer[..], data, old(ggaReceived))
    {
      ok, out := false, data;
      if buffer[..5] == GgaHeader {
        assert HeaderIs(buffer[..], GgaHeader);
        var sum, received := ScanChecksum(ggaReceived);
        ggaChecksum, ggaReceived := sum, received;
        if ggaReceived == ggaChecksum {
          out := GgaFields(Texts(buffer[..], Fields(buffer[..])), data);
          ok := true;
        }
        ggaChecksum := 0;
      }
    }

    /** parse_rmc on the buffer: its result and the record it leaves, with its statics updated. */
    method ParseRmc(data: GpsData) returns (ok: bool, out: GpsData)
      requires Shaped() && Decodable(buffer[..], RmcHeader, rmcReceived)
      modifies this`rmcChecksum, this`rmcReceived
      ensures Shaped()
      ensures Outcome(ok, out, rmcReceived) == NmeaSentence.ParseRmc(buffer[..], data, old(rmcReceived))
    {
      ok, out := false, data;
      if buffer[..5] == RmcHeader {
        assert HeaderIs(buffer[..], RmcHeader);
        var sum, received := ScanChecksum(rmcReceived);
        rmcChecksum, rmcReceived := sum, received;
        if rmcReceived == rmcChecksum {
          out := RmcFields(buffer[..], Fields(buffer[..]), data);
          ok := true;
        }
        rmcChecksum := 0;
      }
    }

    /** Clears buffer[0..n-1]. */
    method ClearPrefix(n: nat)
      requires n <= buffer.Length
      modifies buffer
      ensures buffer[..] == ZeroPrefix(old(buffer[..]), n)
    {
      for a := 0 to n
        invariant buffer[..] == ZeroPrefix(old(buffer[..]), a)
      {
        buffer[a] := NUL;
      }
    }

    /** parse_rmc, then parse_gga on the record parse_rmc leaves. */
    method Decode(data: GpsData) returns (rmc: Outcome, gga: Outcome)
      requires Shaped()
      requires Decodable(buffer[..], RmcHeader, rmcReceived) && Decodable(buffer[..], GgaHeader, ggaReceived)
      modifies this`rmcChecksum, this`rmcReceived, this`ggaChecksum, this`ggaReceived
      ensures Shaped()
      ensures rmc == NmeaSentence.ParseRmc(buffer[..], data, old(rmcReceived)) && rmcReceived == rmc.received
      ensures gga == NmeaSentence.ParseGga(buffer[..], rmc.data, old(ggaReceived)) && ggaReceived == gga.received
    {
      var rmcOk, afterRmc := ParseRmc(data);
      rmc := Outcome(rmcOk, afterRmc, rmcReceived);
      var ggaOk, afterGga := ParseGga(afterRmc);
      gga := Outcome(ggaOk, afterGga, ggaReceived);
    }

    /** The rest of the line-feed branch: latch both results, report, restart the buffer. */
    method CloseFrame(rmc: Outcome, gga: Outcome) returns (ready: bool)
      requires Shaped() && Sane(State())
      requires rmcReceived == rmc.received && ggaReceived == gga.received
      modifies this, buffer
      ensures Shaped() && buffer == old(buffer)
      ensures StepResult(State(), gga.data, ready) == Latch(old(State()), rmc, gga)
    {
      // the source locks before decoding; neither decoder reads the flag
      unlocked := false;
      rmcReady := rmcReady || rmc.ok;
      ggaReady := ggaReady || gga.ok;
      ready := false;
      if ggaReady && rmcReady {
        ggaReady, rmcReady := false, false;
        ready := true;
      }
      ClearPrefix(counter + 1);
      counter := 0;
    }

    /** The line-feed branch, once the line feed is stored at buffer[counter]. */
    method EndFrame(data: GpsData) returns (ready: bool, out: GpsData)
      requires Shaped() && Sane(State())
      requires Decodable(buffer[..], RmcHeader, rmcReceived) && Decodable(buffer[..], GgaHeader, ggaReceived)
      modifies this, buffer
      ensures Shaped() && buffer == old(buffer)
      ensures StepResult(State(), out, ready) == EndOfFrame(old(State()), data)
    {
      ghost var r := State();
      var rmc, gga := Decode(data);
      assert EndOfFrame(r, data) == Latch(r, rmc, gga);
      ready := CloseFrame(rmc, gga);
      out := gga.data;
    }

    /** A byte read while unlocked: stored at buffer[counter]. */
    method StepInFrame(b: Byte, data: GpsData) returns (ready: bool, out: GpsData)
      requires Shaped() && Sane(State()) && unlocked && StepDefined(State(), b)
      modifies this, buffer
      ensures Shaped() && buffer == old(buffer)
      ensures StepResult(State(), out, ready) == Advance(old(State()), data, b)
    {
      ghost var r := State();
      ready, out := false, data;
      buffer[counter] := b;
      assert buffer[..] == Stored(r, b);
      if b == LF {
        ready, out := EndFrame(data);
      } else if counter + 1 == FrameCapacity {
        ClearPrefix(counter + 1);
        unlocked := false;
        counter := 0;
      } else {
        counter := counter + 1;
      }
    }

    /** One iteration of the serial loop. */
    method Step(b: Byte, data: GpsData) returns (ready: bool, out: GpsData)
      requires Valid() && StepDefined(State(), b)
      modifies this, buffer
      ensures Valid() && buffer == old(buffer)
      ensures StepResult(State(), out, ready) == Advance(old(State()), data, b)
    {
      ghost var r := State();
      if !unlocked {
        buffer[0] := b;
        if b == Dollar {
          unlocked := true;
        }
        ready, out := false, data;
      } else {
        ready, out := StepInFrame(b, data);
      }
      StepKeepsWellFormed(r, data, b);
    }

    /** gps_read_serial_and_parse_nmea, with input the bytes waiting on the serial port. */
    method ReadSerialAndParse(input: seq<Byte>, data: GpsData) returns (res: bool, out: GpsData)
      requires Valid() && RunDefined(State(), data, input)
      modifies this, buffer
      ensures Valid() && buffer == old(buffer)
      ensures StepResult(State(), out, res) == Run(old(State()), data, input)
    {
      res, out := false, data;
      var i := 0;
      while i < |input|
        invariant 0 <= i <= |input|
        invariant Valid() && buffer == old(buffer)
        invariant RunDefined(State(), out, input[i..])
        invariant var rest := Run(State(), out, input[i..]);
                  Run(old(State()), data, input) == StepResult(rest.reader, rest.data, res || rest.ready)
      {
        assert input[i..][0] == input[i] && input[i..][1..] == input[i + 1..];
        var ready;
        ready, out := Step(input[i], out);
        res := res || ready;
        i := i + 1;
      }
    }
  }
}
