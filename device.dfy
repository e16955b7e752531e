/**
 * The commands `BTWATTCH2` sends: switching the outlet on and off,
 * requesting a measurement, and setting the device clock.  The BLE
 * characteristic the frames are written to is modelled as the log `sent`.
 */
module Device {
  import opened Common
  import opened Frame

  /** The fields of `time.struct_time` that `set_rtc` reads. */
  datatype TimeTuple = TimeTuple(year: int, mon: int, mday: int, hour: int, min: int, sec: int, wday: int)

  /** `bytearray(xs)`: every item must be an int in 0..255. */
  function ByteArray(xs: seq<int>): (r: Result<seq<byte>>)
    ensures r.Ok? <==> forall i :: 0 <= i < |xs| ==> 0 <= xs[i] < 256
    ensures r.Err? ==> r.error == ValueError
    ensures r.Ok? ==> r.value == xs
  {
    if xs == [] then Ok([])
    else if !(0 <= xs[0] < 256) then Err(ValueError)
    else match ByteArray(xs[1..])
      case Err(e) => Err(e)
      case Ok(rest) => Ok([xs[0] as byte] + rest)
  }

  /** The tuple `set_rtc` builds: a 0x01 tag, then the clock from seconds upward, then the weekday. */
  function RtcFields(t: TimeTuple): seq<int>
  {
    [0x01, t.sec, t.min, t.hour, t.mday, t.mon - 1, t.year - 1900, t.wday]
  }

  /** The clock a `set_rtc` payload carries, read back field by field. */
  function RtcTime(p: seq<byte>): TimeTuple
    requires |p| == 8
  {
    TimeTuple(p[6] as int + 1900, p[5] as int + 1, p[4], p[3], p[2], p[1], p[7])
  }

  /** Each field of the tuple fits in a byte. */
  predicate RtcFieldsFit(t: TimeTuple)
  {
    && 0 <= t.sec < 256 && 0 <= t.min < 256 && 0 <= t.hour < 256 && 0 <= t.mday < 256
    && 1 <= t.mon < 257 && 1900 <= t.year < 2156 && 0 <= t.wday < 256
  }

  /**
   * The `set_rtc` payload: eight bytes, tag 0x01 first, from which the clock
   * is read back unchanged; `bytearray` refuses a tuple with a field that
   * does not fit in a byte.
   */
  function SetRtcPayload(t: TimeTuple): (r: Result<seq<byte>>)
    ensures r.Ok? <==> RtcFieldsFit(t)
    ensures r.Err? ==> r.error == ValueError
    ensures r.Ok? ==> |r.value| == 8 && r.value[0] == 0x01 && RtcTime(r.value) == t
  {
    var fields := RtcFields(t);
    assert RtcFieldsFit(t) <==> forall i :: 0 <= i < |fields| ==> 0 <= fields[i] < 256 by {
      assert fields[1] == t.sec && fields[2] == t.min && fields[3] == t.hour && fields[4] == t.mday;
      assert fields[5] == t.mon - 1 && fields[6] == t.year - 1900 && fields[7] == t.wday;
    }
    ByteArray(fields)
  }

  /** Every clock reading up to the year 2155 can be sent; from 2156 on `bytearray` refuses the year. */
  lemma ClockReadingFits(t: TimeTuple)
    requires 1 <= t.mon <= 12 && 1 <= t.mday <= 31 && 0 <= t.hour <= 23
    requires 0 <= t.min <= 59 && 0 <= t.sec <= 61 && 0 <= t.wday <= 6
    ensures SetRtcPayload(t).Ok? <==> 1900 <= t.year < 2156
  {
  }

  /** A connected wattmeter, reduced to the frames written to its transmit characteristic. */
  class Wattchecker {
    /** Every frame written so far, oldest first. */
    var sent: seq<seq<byte>>

    constructor()
      ensures sent == []
    {
      sent := [];
    }

    /** `write`: frame the payload with `cmd` and send it; `cmd` raises before anything is sent. */
    method Write(payload: seq<byte>) returns (r: Result<seq<byte>>)
      modifies this
      ensures r == Cmd(payload)
      ensures r.Ok? ==> sent == old(sent) + [r.value]
      ensures r.Err? ==> sent == old(sent)
    {
      r := Cmd(payload);
      if r.Ok? {
        sent := sent + [r.value];
      }
    }

    /** `on`. */
    method On()
      modifies this
      ensures sent == old(sent) + [Cmd(TurnOn).value]
      ensures IsFrameOf(Last(sent), TurnOn)
    {
      var _ := Write(TurnOn);
    }

    /** `off`. */
    method Off()
      modifies this
      ensures sent == old(sent) + [Cmd(TurnOff).value]
      ensures IsFrameOf(Last(sent), TurnOff)
    {
      var _ := Write(TurnOff);
    }

    /** `measure`: the five-byte measurement request. */
    method Measure()
      modifies this
      ensures sent == old(sent) + [[0xAA, 0x00, 0x01, 0x08, 0xB3]]
    {
      MeasureFrame();
      var _ := Write(RealtimeMonitoring);
    }

    /**
     * `set_rtc` with the clock reading passed in: build the payload and
     * write it; a field that does not fit in a byte raises `ValueError`
     * and nothing is sent.
     */
    method SetRtc(t: TimeTuple) returns (r: Result<seq<byte>>)
      modifies this
      ensures r.Ok? <==> RtcFieldsFit(t)
      ensures r.Err? ==> r.error == ValueError && sent == old(sent)
      ensures r.Ok? ==> sent == old(sent) + [r.value]
      ensures r.Ok? ==> IsFrameOf(r.value, SetRtcPayload(t).value) && |r.value| == 12
    {
      var payload := SetRtcPayload(t);
      if payload.Err? {
        return Err(payload.error);
      }
      r := Write(payload.value);
    }
  }
}
