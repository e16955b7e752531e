/**
 * A reassembler that tells where a frame ends by its declared length, and
 * a handler that accepts a frame only when its checksum vanishes.
 * `_format_message` decides by the first byte of each notification alone
 * whether a frame begins there, which goes wrong when a continuation
 * happens to start with 0xAA (see
 * `Notification.ContinuationStartingWithHeader`); this is the handler it
 * is evidently meant to be.  Frames are collected however they are split
 * into notifications, and decoded as the source decodes them.
 */
module CheckedReassembly {
  import opened Common
  import opened Checksum
  import opened Frame
  import opened Notification

  /** What one notification did to the frame being collected. */
  datatype Progress =
    | Incomplete                  // the bytes so far are the start of a frame
    | Complete(frame: seq<byte>)  // the bytes reached the length the header declares
    | Desync                      // the bytes cannot be the start of a frame; they are dropped

  datatype Fed = Fed(buffer: seq<byte>, progress: Progress)

  /** A header and as many bytes as its length field declares. */
  predicate Framed(f: seq<byte>)
  {
    |f| >= Overhead && f[0] == Header && ReadBigEndian16(f[1], f[2]) + Overhead == |f|
  }

  /** The buffer holds the start of a frame: nothing, or a header with fewer bytes than declared. */
  predicate Pending(b: seq<byte>)
  {
    b == [] || (b[0] == Header && (|b| < PayloadStart || |b| < ReadBigEndian16(b[1], b[2]) + Overhead))
  }

  /**
   * Append the notification to the buffer; a frame is complete when the
   * bytes reach the length its header declares.  Bytes that do not start
   * with the header, or run past the declared length, are dropped.
   */
  function Feed(buffer: seq<byte>, data: seq<byte>): (r: Fed)
    ensures Pending(r.buffer)
    ensures r.progress.Complete? ==>
      r.progress.frame == buffer + data && Framed(r.progress.frame) && r.buffer == []
  {
    var d := buffer + data;
    if d == [] then Fed([], Incomplete)
    else if d[0] != Header then Fed([], Desync)
    else if |d| < PayloadStart then Fed(d, Incomplete)
    else
      var size := ReadBigEndian16(d[1], d[2]) + Overhead;
      if |d| < size then Fed(d, Incomplete)
      else if |d| > size then Fed([], Desync)
      else Fed([], Complete(d))
  }

  /** The frames `cmd` builds are framed. */
  lemma CmdIsFramed(p: seq<byte>)
    requires |p| < LengthLimit
    ensures Framed(Cmd(p).value)
  {
  }

  /**
   * The handler with the checked reassembly: a complete frame whose
   * checksum does not vanish is dropped, and a complete energy-usage report
   * is decoded as the source decodes it.
   */
  function Deliver(buffer: seq<byte>, data: seq<byte>): Reaction
  {
    var fed := Feed(buffer, data);
    match fed.progress
    case Incomplete => Reaction(fed.buffer, Buffered)
    case Desync => Reaction([], Ignored)
    case Complete(f) =>
      if ParseFrame(f).None? || f[3] != EnergyUsage then Reaction([], Ignored)
      else match DecodeEnergyUsage(f)
        case Ok(s) => Reaction([], Emitted(s))
        case Err(e) => Reaction([], Raised(e))
  }

  /**
   * Feeding the next piece of a frame: the joined bytes are collected while
   * they are shorter than the frame, and the frame is complete when they
   * reach its end.
   */
  lemma FeedPrefix(f: seq<byte>, q: seq<byte>, c: seq<byte>)
    requires Framed(f)
    requires c != [] && |q| + |c| <= |f| && q + c == f[..|q| + |c|]
    ensures Feed(q, c) == if |q| + |c| < |f| then Fed(q + c, Incomplete) else Fed([], Complete(f))
  {
    var d := q + c;
    assert d[0] == f[0];
    if |d| >= PayloadStart {
      assert d[1] == f[1] && d[2] == f[2];
    }
    if |d| == |f| {
      assert d == f;
    }
  }

  /** `n` notifications that each only extended the buffer. */
  function Incompletes(n: nat): (r: seq<Progress>)
    ensures |r| == n && forall i :: 0 <= i < n ==> r[i] == Incomplete
  {
    if n == 0 then [] else [Incomplete] + Incompletes(n - 1)
  }

  /** The notifications, joined. */
  function Concat(chunks: seq<seq<byte>>): seq<byte>
    decreases chunks
  {
    if chunks == [] then [] else chunks[0] + Concat(chunks[1..])
  }

  datatype Run = Run(buffer: seq<byte>, progress: seq<Progress>)

  /** Feed every notification in turn, starting from `buffer`. */
  function FeedAll(buffer: seq<byte>, chunks: seq<seq<byte>>): (r: Run)
    ensures |r.progress| == |chunks|
    decreases chunks
  {
    if chunks == [] then Run(buffer, [])
    else
      var fed := Feed(buffer, chunks[0]);
      var rest := FeedAll(fed.buffer, chunks[1..]);
      Run(rest.buffer, [fed.progress] + rest.progress)
  }

  predicate NoneEmpty(chunks: seq<seq<byte>>)
  {
    forall i :: 0 <= i < |chunks| ==> chunks[i] != []
  }

  lemma TailNoneEmpty(chunks: seq<seq<byte>>)
    requires chunks != [] && NoneEmpty(chunks)
    ensures NoneEmpty(chunks[1..]) && chunks[0] != []
  {
    forall i | 0 <= i < |chunks[1..]| ensures chunks[1..][i] != [] {
      assert chunks[1..][i] == chunks[i + 1];
    }
  }

  /** Only nothing joins to nothing. */
  lemma ConcatEmpty(chunks: seq<seq<byte>>)
    requires NoneEmpty(chunks)
    ensures Concat(chunks) == [] ==> chunks == []
  {
    if chunks != [] {
      assert |Concat(chunks)| >= |chunks[0]| > 0;
    }
  }

  /** Continuing a frame from any proper prefix already buffered, however the rest is split. */
  lemma {:induction false} RestDelivers(f: seq<byte>, q: seq<byte>, chunks: seq<seq<byte>>)
    requires Framed(f) && chunks != [] && NoneEmpty(chunks)
    requires |q| < |f| && q + Concat(chunks) == f
    ensures FeedAll(q, chunks) == Run([], Incompletes(|chunks| - 1) + [Complete(f)])
    decreases |chunks|
  {
    var c := chunks[0];
    ConcatStep(q, chunks, f);
    TailNoneEmpty(chunks);
    FeedPrefix(f, q, c);
    if |q| + |c| < |f| {
      assert Concat(chunks[1..]) != [];
      RestDelivers(f, q + c, chunks[1..]);
      var n := |chunks| - 1;
      assert [Incomplete] + (Incompletes(n - 1) + [Complete(f)]) == Incompletes(n) + [Complete(f)];
    } else {
      ConcatEmpty(chunks[1..]);
      assert Incompletes(0) == [];
    }
  }

  /** Taking the first notification off: it extends the prefix, and the rest joins on after it. */
  lemma ConcatStep(q: seq<byte>, chunks: seq<seq<byte>>, f: seq<byte>)
    requires chunks != [] && q + Concat(chunks) == f
    ensures |q| + |chunks[0]| <= |f| && q + chunks[0] == f[..|q| + |chunks[0]|]
    ensures (q + chunks[0]) + Concat(chunks[1..]) == f
  {
    assert q + Concat(chunks) == (q + chunks[0]) + Concat(chunks[1..]);
  }

  /**
   * However a frame is split into non-empty notifications, every
   * notification but the last only extends the buffer, and the last
   * completes the frame and leaves the buffer empty.
   */
  lemma AnySplitDelivers(f: seq<byte>, chunks: seq<seq<byte>>)
    requires Framed(f) && chunks != [] && NoneEmpty(chunks) && Concat(chunks) == f
    ensures FeedAll([], chunks) == Run([], Incompletes(|chunks| - 1) + [Complete(f)])
  {
    assert [] + Concat(chunks) == Concat(chunks);
    RestDelivers(f, [], chunks);
  }

  /** In particular every frame `cmd` builds is delivered however it is split. */
  lemma AnySplitOfCmdDelivers(p: seq<byte>, chunks: seq<seq<byte>>)
    requires |p| < LengthLimit && chunks != [] && NoneEmpty(chunks) && Concat(chunks) == Cmd(p).value
    ensures FeedAll([], chunks) == Run([], Incompletes(|chunks| - 1) + [Complete(Cmd(p).value)])
  {
    CmdIsFramed(p);
    AnySplitDelivers(Cmd(p).value, chunks);
  }

  /**
   * An energy-usage report split anywhere into two notifications is
   * emitted once, on the second, and leaves the buffer empty; this includes
   * the split after 20 bytes that the handler as written mishandles when
   * the continuation starts with 0xAA
   * (`Notification.ReportsAt170WattsAreDelayed`).
   */
  lemma ReportInTwoNotifications(s: Sample, skipped: byte, k: nat)
    requires Reportable(s) && 1 <= k < 30
    ensures var f := Cmd(EnergyUsagePayload(s, skipped)).value;
      && Deliver([], f[..k]) == Reaction(f[..k], Buffered)
      && Deliver(f[..k], f[k..]) == Reaction([], Emitted(s))
  {
    var p := EnergyUsagePayload(s, skipped);
    ReportFrameCarries(s, skipped);
    var f := Cmd(p).value;
    ParseCmd(p);
    assert [] + f[..k] == f[..k];
    FeedPrefix(f, [], f[..k]);
    assert f[..k] + f[k..] == f;
    FeedPrefix(f, f[..k], f[k..]);
    CompletedReportIsEmitted(f[..k], f[k..], f, s);
  }

  /** A report in one notification is emitted at once. */
  lemma ReportInOneNotification(s: Sample, skipped: byte)
    requires Reportable(s)
    ensures Deliver([], Cmd(EnergyUsagePayload(s, skipped)).value) == Reaction([], Emitted(s))
  {
    var p := EnergyUsagePayload(s, skipped);
    ReportFrameCarries(s, skipped);
    var f := Cmd(p).value;
    ParseCmd(p);
    assert [] + f == f[..|f|];
    FeedPrefix(f, [], f);
    CompletedReportIsEmitted([], f, f, s);
  }

  /** A completed frame that carries a report is decoded to that report. */
  lemma CompletedReportIsEmitted(q: seq<byte>, c: seq<byte>, f: seq<byte>, s: Sample)
    requires Feed(q, c) == Fed([], Complete(f)) && ParseFrame(f).Some?
    requires f[3] == EnergyUsage && Carries(f, s) && ValidDateTime(s.timestamp)
    ensures Deliver(q, c) == Reaction([], Emitted(s))
  {
    DecodeSpec(f, s);
  }

  /** A frame whose trailer is not the checksum of its payload is collected, then dropped. */
  lemma CorruptTrailerIsDropped(p: seq<byte>, t: byte)
    requires |p| < LengthLimit && t != Crc8(p)
    ensures var g := DropLast(Cmd(p).value) + [t];
      Feed([], g) == Fed([], Complete(g)) && Deliver([], g) == Reaction([], Ignored)
  {
    var f := Cmd(p).value;
    var g := DropLast(f) + [t];
    assert g[1] == f[1] && g[2] == f[2] && g[0] == Header;
    assert g[PayloadStart..] == p + [t] by {
      FrameSplit(f);
      assert DropLast(f) == [f[0], f[1], f[2]] + p;
    }
    TrailerIsUnique(p, t);
    assert [] + g == g;
  }
}
