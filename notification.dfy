/**
 * Incoming notifications as `BTWATTCH2.format_message` handles them: the
 * energy-usage decoder, and the reassembler whose only state is the byte
 * buffer its closure captures.
 */
module Notification {
  import opened Common
  import opened Frame

  /** Byte 3 of a frame (its first payload byte) that marks an energy-usage report. */
  const EnergyUsage: byte := 0x08

  /** The decoder reads up to byte 28, so a shorter frame raises `IndexError`. */
  const MinimumLength: nat := 29

  /** The width of each measured field, in bytes. */
  const FieldWidth: nat := 6

  // ---------------------------------------------------------------------
  // Little-endian fields

  function Pow256(n: nat): (r: nat)
    ensures r > 0
  {
    if n == 0 then 1 else 256 * Pow256(n - 1)
  }

  /** `int.from_bytes(s, 'little')`: an unsigned value below 256 to the power of the length. */
  function FromLittleEndian(s: seq<byte>): (n: nat)
    ensures n < Pow256(|s|)
  {
    if s == [] then 0 else s[0] + 256 * FromLittleEndian(s[1..])
  }

  /** `n.to_bytes(k, 'little')` for a value that fits. */
  function ToLittleEndian(n: nat, k: nat): (s: seq<byte>)
    ensures |s| == k
  {
    if k == 0 then [] else [n % 256] + ToLittleEndian(n / 256, k - 1)
  }

  lemma {:induction false} LittleEndianRoundTrip(n: nat, k: nat)
    requires n < Pow256(k)
    ensures FromLittleEndian(ToLittleEndian(n, k)) == n
  {
    if k > 0 {
      var s := ToLittleEndian(n, k);
      assert s[1..] == ToLittleEndian(n / 256, k - 1);
      LittleEndianRoundTrip(n / 256, k - 1);
    }
  }

  lemma {:induction false} LittleEndianOfBytes(s: seq<byte>)
    ensures ToLittleEndian(FromLittleEndian(s), |s|) == s
  {
    if s != [] {
      var rest := FromLittleEndian(s[1..]);
      DivUnique(256 * rest + s[0], 256, rest, s[0]);
      LittleEndianOfBytes(s[1..]);
      assert s == [s[0]] + s[1..];
    }
  }

  /** Byte strings of one length denote one value each, and different ones different values. */
  lemma LittleEndianInjective(s: seq<byte>, t: seq<byte>)
    requires |s| == |t| && FromLittleEndian(s) == FromLittleEndian(t)
    ensures s == t
  {
    LittleEndianOfBytes(s);
    LittleEndianOfBytes(t);
  }

  // ---------------------------------------------------------------------
  // Timestamps

  datatype DateTime = DateTime(year: int, month: int, day: int, hour: int, minute: int, second: int)

  /** The Gregorian leap-year rule that `datetime` applies. */
  predicate IsLeapYear(y: int)
  {
    y % 4 == 0 && (y % 100 != 0 || y % 400 == 0)
  }

  function DaysInMonth(y: int, m: int): int
    requires 1 <= m <= 12
  {
    if m == 2 then (if IsLeapYear(y) then 29 else 28)
    else if m == 4 || m == 6 || m == 9 || m == 11 then 30
    else 31
  }

  /** What `datetime.datetime(year, month, day, hour, minute, second)` accepts without `ValueError`. */
  predicate ValidDateTime(t: DateTime)
  {
    && 1 <= t.year <= 9999
    && 1 <= t.month <= 12
    && 1 <= t.day <= DaysInMonth(t.year, t.month)
    && 0 <= t.hour <= 23 && 0 <= t.minute <= 59 && 0 <= t.second <= 59
  }

  /** `datetime(1900 + d[28], d[27] + 1, *d[26:22:-1])`: day, hour, minute and second read backwards. */
  function Timestamp(d: seq<byte>): DateTime
    requires |d| >= MinimumLength
  {
    DateTime(1900 + d[28] as int, d[27] as int + 1, d[26], d[25], d[24], d[23])
  }

  // ---------------------------------------------------------------------
  // Energy-usage reports

  /** One report with the raw field values; the units are the exact quotients below. */
  datatype Sample = Sample(voltage: nat, current: nat, wattage: nat, timestamp: DateTime)

  /** Volts: the voltage field over 16**6. */
  function Volts(s: Sample): real
  {
    s.voltage as real / 16777216.0
  }

  /** Milliamps: the current field over 32**6, times 1000. */
  function Milliamps(s: Sample): real
  {
    s.current as real / 1073741824.0 * 1000.0
  }

  /** Watts: the wattage field over 16**6. */
  function Watts(s: Sample): real
  {
    s.wattage as real / 16777216.0
  }

  /** The frame bytes the decoder reads hold `s`: the three fields at 5, 11 and 17, the clock from 23 to 28. */
  predicate Carries(d: seq<byte>, s: Sample)
  {
    && |d| >= MinimumLength
    && FromLittleEndian(d[5..11]) == s.voltage
    && FromLittleEndian(d[11..17]) == s.current
    && FromLittleEndian(d[17..23]) == s.wattage
    && Timestamp(d) == s.timestamp
  }

  /**
   * The energy-usage branch of `_format_message`: the three little-endian
   * fields and the timestamp.  Reading byte 28 of a shorter frame raises
   * `IndexError`; an impossible date raises `ValueError`.
   */
  function DecodeEnergyUsage(d: seq<byte>): (r: Result<Sample>)
  {
    if |d| < MinimumLength then Err(IndexError)
    else if !ValidDateTime(Timestamp(d)) then Err(ValueError)
    else Ok(Sample(FromLittleEndian(d[5..11]), FromLittleEndian(d[11..17]), FromLittleEndian(d[17..23]), Timestamp(d)))
  }

  /** The decoder yields `s` exactly when the frame carries `s` and its date is valid. */
  lemma DecodeSpec(d: seq<byte>, s: Sample)
    ensures DecodeEnergyUsage(d) == Ok(s) <==> Carries(d, s) && ValidDateTime(s.timestamp)
  {
  }

  /** The decoder fails exactly on short frames (`IndexError`) and impossible dates (`ValueError`). */
  lemma DecodeErrors(d: seq<byte>)
    ensures DecodeEnergyUsage(d) == Err(IndexError) <==> |d| < MinimumLength
    ensures DecodeEnergyUsage(d) == Err(ValueError) <==> |d| >= MinimumLength && !ValidDateTime(Timestamp(d))
  {
  }

  /** Every field value is below 2**48. */
  lemma SampleFieldsBounded(d: seq<byte>)
    requires DecodeEnergyUsage(d).Ok?
    ensures var s := DecodeEnergyUsage(d).value;
      s.voltage < Pow256(FieldWidth) && s.current < Pow256(FieldWidth) && s.wattage < Pow256(FieldWidth)
  {
    assert |d[5..11]| == FieldWidth && |d[11..17]| == FieldWidth && |d[17..23]| == FieldWidth;
  }

  /** A sample the device can report: fields below 2**48, a valid date, the year in 1900..2155. */
  predicate Reportable(s: Sample)
  {
    && s.voltage < Pow256(FieldWidth) && s.current < Pow256(FieldWidth) && s.wattage < Pow256(FieldWidth)
    && ValidDateTime(s.timestamp) && 1900 <= s.timestamp.year < 2156
  }

  /**
   * The payload of an energy-usage report as the decoder expects it: the
   * identifier, one byte the decoder skips, the three fields, and the clock
   * from the second up to the year.
   */
  function EnergyUsagePayload(s: Sample, skipped: byte): seq<byte>
    requires Reportable(s)
  {
    var t := s.timestamp;
    [EnergyUsage, skipped]
      + ToLittleEndian(s.voltage, FieldWidth) + ToLittleEndian(s.current, FieldWidth)
      + ToLittleEndian(s.wattage, FieldWidth)
      + [t.second, t.minute, t.hour, t.day, t.month - 1, t.year - 1900]
  }

  lemma EnergyUsagePayloadFields(s: Sample, skipped: byte)
    requires Reportable(s)
    ensures var p := EnergyUsagePayload(s, skipped);
      && |p| == 26 && p[0] == EnergyUsage
      && p[2..8] == ToLittleEndian(s.voltage, FieldWidth)
      && p[8..14] == ToLittleEndian(s.current, FieldWidth)
      && p[14..20] == ToLittleEndian(s.wattage, FieldWidth)
      && p[20..] == [s.timestamp.second, s.timestamp.minute, s.timestamp.hour,
                     s.timestamp.day, s.timestamp.month - 1, s.timestamp.year - 1900]
  {
  }

  /** A slice of a slice. */
  lemma SubSlice(f: seq<byte>, a: nat, b: nat, i: nat, j: nat)
    requires a <= b <= |f| && i <= j <= b - a
    ensures f[a + i..a + j] == f[a..b][i..j]
  {
    assert |f[a + i..a + j]| == |f[a..b][i..j]|;
    forall k | 0 <= k < j - i
      ensures f[a + i..a + j][k] == f[a..b][i..j][k]
    {
    }
  }

  /** The clock bytes of a report's payload, at 23 to 28 of the frame, give back its timestamp. */
  lemma ClockCarried(f: seq<byte>, t: DateTime)
    requires |f| >= MinimumLength && 1900 <= t.year < 2156 && 1 <= t.month <= 12
    requires 0 <= t.second < 256 && 0 <= t.minute < 256 && 0 <= t.hour < 256 && 0 <= t.day < 256
    requires f[23..29] == [t.second, t.minute, t.hour, t.day, t.month - 1, t.year - 1900]
    ensures Timestamp(f) == t
  {
    assert f[23] == t.second && f[24] == t.minute && f[25] == t.hour;
    assert f[26] == t.day && f[27] == t.month - 1 && f[28] == t.year - 1900;
  }

  /** Bytes 3 to 28 holding a report's payload carry its sample. */
  lemma PayloadCarries(f: seq<byte>, s: Sample, skipped: byte)
    requires Reportable(s) && |f| >= MinimumLength
    requires f[PayloadStart..MinimumLength] == EnergyUsagePayload(s, skipped)
    ensures f[3] == EnergyUsage && Carries(f, s)
  {
    var p := EnergyUsagePayload(s, skipped);
    EnergyUsagePayloadFields(s, skipped);
    SubSlice(f, 3, 29, 2, 8);
    SubSlice(f, 3, 29, 8, 14);
    SubSlice(f, 3, 29, 14, 20);
    SubSlice(f, 3, 29, 20, 26);
    LittleEndianRoundTrip(s.voltage, FieldWidth);
    LittleEndianRoundTrip(s.current, FieldWidth);
    LittleEndianRoundTrip(s.wattage, FieldWidth);
    ClockCarried(f, s.timestamp);
  }

  /** The frame of an energy-usage report carries its sample. */
  lemma ReportFrameCarries(s: Sample, skipped: byte)
    requires Reportable(s)
    ensures Cmd(EnergyUsagePayload(s, skipped)).Ok?
    ensures var f := Cmd(EnergyUsagePayload(s, skipped)).value;
      |f| == 30 && f[0] == Header && f[3] == EnergyUsage && Carries(f, s)
  {
    var p := EnergyUsagePayload(s, skipped);
    EnergyUsagePayloadFields(s, skipped);
    var f := Cmd(p).value;
    assert f[PayloadStart..MinimumLength] == p;
    PayloadCarries(f, s, skipped);
  }

  /** Decoding an encoded report gives back the sample. */
  lemma DecodeReport(s: Sample, skipped: byte)
    requires Reportable(s)
    ensures DecodeEnergyUsage(Cmd(EnergyUsagePayload(s, skipped)).value) == Ok(s)
  {
    ReportFrameCarries(s, skipped);
  }

  /** Two frames that decode to the same sample agree on every byte the decoder reads. */
  lemma DecodeInjective(d: seq<byte>, e: seq<byte>)
    requires DecodeEnergyUsage(d).Ok? && DecodeEnergyUsage(d) == DecodeEnergyUsage(e)
    ensures d[5..MinimumLength] == e[5..MinimumLength]
  {
    LittleEndianInjective(d[5..11], e[5..11]);
    LittleEndianInjective(d[11..17], e[11..17]);
    LittleEndianInjective(d[17..23], e[17..23]);
    assert d[5..MinimumLength] == d[5..11] + d[11..17] + d[17..23] + d[23..MinimumLength];
    assert e[5..MinimumLength] == e[5..11] + e[11..17] + e[17..23] + e[23..MinimumLength];
  }

  // ---------------------------------------------------------------------
  // Reassembly, as written

  datatype Outcome =
    | Buffered                  // a fragment starting with the header byte was appended
    | Emitted(sample: Sample)   // the callback received a decoded report
    | Ignored                   // a complete frame that is not an energy-usage report
    | Raised(error: PyError)    // the handler raised; the buffer is left as it was

  datatype Reaction = Reaction(buffer: seq<byte>, outcome: Outcome)

  /**
   * `_format_message` on one notification, as a function of the buffer:
   * a fragment whose first byte is 0xAA is appended; any other fragment
   * completes the frame, which is decoded when byte 3 is 0x08, and the
   * buffer is cleared.  An exception leaves the buffer untouched.
   */
  function React(buffer: seq<byte>, data: seq<byte>): Reaction
  {
    if data == [] then Reaction(buffer, Raised(IndexError))
    else if data[0] == Header then Reaction(buffer + data, Buffered)
    else
      var d := buffer + data;
      if |d| < 4 then Reaction(buffer, Raised(IndexError))
      else if d[3] != EnergyUsage then Reaction([], Ignored)
      else match DecodeEnergyUsage(d)
        case Ok(s) => Reaction([], Emitted(s))
        case Err(e) => Reaction(buffer, Raised(e))
  }

  /** The handler's closure: the buffer, and the callback's record of the samples it received. */
  class Reassembler {
    var buffer: seq<byte>
    ghost var emitted: seq<Sample>

    constructor()
      ensures buffer == [] && emitted == []
    {
      buffer := [];
      emitted := [];
    }

    /** `_format_message(sender, data)`. */
    method OnNotification(data: seq<byte>) returns (outcome: Outcome)
      modifies this
      ensures Reaction(buffer, outcome) == React(old(buffer), data)
      ensures emitted == if outcome.Emitted? then old(emitted) + [outcome.sample] else old(emitted)
    {
      if |data| == 0 {
        return Raised(IndexError);
      }
      if data[0] == Header {
        buffer := buffer + data;
        return Buffered;
      }
      var d := buffer + data;
      if |d| < 4 {
        return Raised(IndexError);
      }
      if d[3] == EnergyUsage {
        var r := DecodeEnergyUsage(d);
        if r.Err? {
          return Raised(r.error);
        }
        emitted := emitted + [r.value];
        outcome := Emitted(r.value);
      } else {
        outcome := Ignored;
      }
      buffer := [];
    }
  }

  /** A fragment starting with 0xAA is appended to the buffer and nothing is emitted. */
  lemma HeaderFragmentIsBuffered(buffer: seq<byte>, data: seq<byte>)
    requires data != [] && data[0] == Header
    ensures React(buffer, data) == Reaction(buffer + data, Buffered)
  {
  }

  /**
   * Any other fragment emits exactly one sample iff the joined bytes are a
   * decodable energy-usage report, and leaves the buffer empty unless the
   * handler raised.
   */
  lemma ContinuationCompletes(buffer: seq<byte>, data: seq<byte>)
    requires data != [] && data[0] != Header
    ensures var r := React(buffer, data); var d := buffer + data;
      && (r.outcome.Emitted? <==> |d| >= 4 && d[3] == EnergyUsage && DecodeEnergyUsage(d).Ok?)
      && (r.outcome.Emitted? ==> DecodeEnergyUsage(d) == Ok(r.outcome.sample))
      && (r.outcome.Raised? ==> r.buffer == buffer)
      && (!r.outcome.Raised? ==> r.buffer == [])
  {
  }

  /** An exception never loses or adds buffered bytes. */
  lemma RaisedKeepsBuffer(buffer: seq<byte>, data: seq<byte>)
    ensures React(buffer, data).outcome.Raised? ==> React(buffer, data).buffer == buffer
  {
  }

  /**
   * The delivery the handler is written for: a report frame in two
   * notifications, the second not starting with 0xAA, is emitted once and
   * leaves the buffer empty.
   */
  lemma TwoFragmentDelivery(f: seq<byte>, s: Sample, k: nat)
    requires f != [] && f[0] == Header && 1 <= k < |f| && f[k] != Header
    requires Carries(f, s) && f[3] == EnergyUsage && ValidDateTime(s.timestamp)
    ensures React([], f[..k]) == Reaction(f[..k], Buffered)
    ensures React(f[..k], f[k..]) == Reaction([], Emitted(s))
  {
    assert f[..k] + f[k..] == f;
    DecodeSpec(f, s);
  }

  /** A whole frame in a single notification starts with 0xAA, so it is only buffered. */
  lemma WholeFrameIsOnlyBuffered(buffer: seq<byte>, f: seq<byte>)
    requires f != [] && f[0] == Header
    ensures React(buffer, f).outcome == Buffered
  {
  }

  /**
   * The reassembler tells a frame's start by its first byte alone.  When a
   * report's continuation fragment happens to start with 0xAA, it is
   * buffered as if a new frame began: that report is not emitted, and when
   * the next report `g` arrives in two fragments, the handler decodes the
   * bytes of the first report and discards `g`.
   */
  lemma ContinuationStartingWithHeader(f: seq<byte>, s: Sample, k: nat, g: seq<byte>, j: nat)
    requires 1 <= k < |f| && f[0] == Header && f[k] == Header
    requires Carries(f, s) && f[3] == EnergyUsage && ValidDateTime(s.timestamp)
    requires g != [] && g[0] == Header && 1 <= j < |g| && g[j] != Header
    ensures React([], f[..k]) == Reaction(f[..k], Buffered)
    ensures React(f[..k], f[k..]) == Reaction(f, Buffered)
    ensures React(f, g[..j]) == Reaction(f + g[..j], Buffered)
    ensures React(f + g[..j], g[j..]) == Reaction([], Emitted(s))
  {
    assert f[..k] + f[k..] == f;
    var d := f + g[..j] + g[j..];
    assert d == f + g;
    assert d[..MinimumLength] == f[..MinimumLength];
    assert d[5..11] == f[5..11] && d[11..17] == f[11..17] && d[17..23] == f[17..23];
    DecodeSpec(d, s);
  }

  /** Byte `i` of a little-endian encoding is digit `i` in base 256. */
  lemma {:induction false} LittleEndianDigit(n: nat, k: nat, i: nat)
    requires i < k
    ensures ToLittleEndian(n, k)[i] == (n / Pow256(i)) % 256
  {
    if i > 0 {
      LittleEndianDigit(n / 256, k - 1, i - 1);
      DivDiv(n, Pow256(i - 1));
    }
  }

  lemma DivDiv(n: nat, m: nat)
    requires m > 0
    ensures n / 256 / m == n / (256 * m)
  {
    var q := n / 256;
    var rest := 256 * (q % m) + n % 256;
    assert 256 * (q % m) <= 256 * (m - 1);
    assert n == 256 * q + n % 256;
    assert q == m * (q / m) + q % m;
    assert n == (256 * m) * (q / m) + rest;
    DivUnique(n, 256 * m, q / m, rest);
  }

  /** The quotient is the only one that leaves a remainder in range. */
  lemma DivUnique(n: nat, d: nat, q: nat, r: nat)
    requires d > 0 && n == d * q + r && r < d
    ensures n / d == q
  {
    var q' := n / d;
    assert n == d * q' + n % d;
    assert q' > q ==> d * q' >= d * (q + 1);
    assert q' < q ==> d * q >= d * (q' + 1);
  }

  /** Byte 20 of a report frame is byte 3 of its wattage field. */
  lemma WattageByteIsHeader(s: Sample, skipped: byte)
    requires Reportable(s) && (s.wattage / 0x100_0000) % 256 == 0xAA
    ensures Cmd(EnergyUsagePayload(s, skipped)).value[20] == Header
  {
    var p := EnergyUsagePayload(s, skipped);
    EnergyUsagePayloadFields(s, skipped);
    assert Cmd(p).value[20] == p[17];
    assert p[17] == ToLittleEndian(s.wattage, FieldWidth)[3];
    LittleEndianDigit(s.wattage, FieldWidth, 3);
    assert Pow256(3) == 0x100_0000;
  }

  /**
   * A report split after 20 bytes (the payload of one notification at the
   * default ATT MTU of 23) whose wattage field has 0xAA in byte 3, that is
   * whose integer watt reading is 170 modulo 256, is not emitted when it
   * arrives: it is emitted only when the continuation of the next report
   * `g` arrives, and `g` itself is lost.
   */
  lemma ReportsAt170WattsAreDelayed(s: Sample, skipped: byte, g: seq<byte>, j: nat)
    requires Reportable(s) && (s.wattage / 0x100_0000) % 256 == 0xAA
    requires g != [] && g[0] == Header && 1 <= j < |g| && g[j] != Header
    ensures var f := Cmd(EnergyUsagePayload(s, skipped)).value;
      && React([], f[..20]) == Reaction(f[..20], Buffered)
      && React(f[..20], f[20..]) == Reaction(f, Buffered)
      && React(f, g[..j]) == Reaction(f + g[..j], Buffered)
      && React(f + g[..j], g[j..]) == Reaction([], Emitted(s))
  {
    ReportFrameCarries(s, skipped);
    WattageByteIsHeader(s, skipped);
    ContinuationStartingWithHeader(Cmd(EnergyUsagePayload(s, skipped)).value, s, 20, g, j);
  }
}
