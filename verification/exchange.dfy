/** One request/reply exchange as the client reports it: the four
    timestamps read from the reply, and the two differences it prints,
    server receive time minus local send time and server transmit time
    minus local receipt time. These are the two terms whose mean is the
    clock offset of section 5 of RFC 4330; the client never adds them up. */
module Exchange {
  import opened Bytes
  import opened Timestamp
  import opened Packet

  /** Signed nanoseconds, as a 64-bit count. */
  type Duration = int64

  const MinDuration: Duration := MinInt64
  const MaxDuration: Duration := MaxInt64

  /** `t - u`, saturating at the ends of the Duration range when the exact
      difference does not fit. */
  function Sub(t: Time, u: Time): (d: Duration)
    ensures d < 0 <==> UnixNanos(t) < UnixNanos(u)
    ensures d == 0 <==> UnixNanos(t) == UnixNanos(u)
    ensures MinDuration <= UnixNanos(t) - UnixNanos(u) <= MaxDuration ==> d == UnixNanos(t) - UnixNanos(u)
    ensures UnixNanos(t) - UnixNanos(u) > MaxDuration ==> d == MaxDuration
    ensures UnixNanos(t) - UnixNanos(u) < MinDuration ==> d == MinDuration
  {
    var exact := UnixNanos(t) - UnixNanos(u);
    if exact < MinDuration then MinDuration
    else if exact > MaxDuration then MaxDuration
    else exact
  }

  /** `u + d`, for a sum whose seconds fit in 64 bits: the inverse of `Sub`
      for the round-trip lemmas below; the client itself adds no duration
      to a reply time. */
  function Add(u: Time, d: Duration): (t: Time)
    requires MinInt64 <= (UnixNanos(u) + d) / NanosPerSecond <= MaxInt64
    ensures UnixNanos(t) == UnixNanos(u) + d
  {
    var total := UnixNanos(u) + d;
    Time(total / NanosPerSecond, total % NanosPerSecond)
  }

  /** An instant is determined by its count of nanoseconds. */
  lemma UnixNanosInjective(t: Time, u: Time)
    requires UnixNanos(t) == UnixNanos(u)
    ensures t == u
  {
  }

  /** When the difference is not saturated, adding it back to `u` gives `t`. */
  lemma AddSub(t: Time, u: Time)
    requires MinDuration <= UnixNanos(t) - UnixNanos(u) <= MaxDuration
    ensures (UnixNanos(u) + Sub(t, u)) / NanosPerSecond == t.sec
    ensures Add(u, Sub(t, u)) == t
  {
    assert UnixNanos(u) + Sub(t, u) == UnixNanos(t);
    UnixNanosInjective(Add(u, Sub(t, u)), t);
  }

  /** Swapping the arguments negates an unsaturated difference. */
  lemma SubAntisymmetric(t: Time, u: Time)
    requires MinDuration < UnixNanos(t) - UnixNanos(u) <= MaxDuration
    ensures Sub(u, t) == -Sub(t, u)
  {
  }

  /** What the client prints after a reply: the reply's origin, reference,
      receive (T2) and transmit (T3) times, T2 - T1 and T3 - T4. */
  datatype Report = Report(
    origin: Time,
    reference: Time,
    receive: Time,
    transmit: Time,
    receiveSinceSend: Duration,
    transmitSinceReceipt: Duration)

  /** The report for a decoded reply, with T1 taken just before the request
      was written and T4 just after the reply was read. */
  function ReportOf(reply: Packet, t1: Time, t4: Time): (r: Report)
    ensures r.origin == ToUnixTime(reply.origTimeSec, reply.origTimeFrac)
    ensures r.reference == ToUnixTime(reply.refTimeSec, reply.refTimeFrac)
    ensures r.receive == ToUnixTime(reply.rxTimeSec, reply.rxTimeFrac)
    ensures r.transmit == ToUnixTime(reply.txTimeSec, reply.txTimeFrac)
    ensures r.receiveSinceSend == Sub(r.receive, t1)
    ensures r.transmitSinceReceipt == Sub(r.transmit, t4)
  {
    var t2 := ToUnixTime(reply.rxTimeSec, reply.rxTimeFrac);
    var t3 := ToUnixTime(reply.txTimeSec, reply.txTimeFrac);
    Report(ToUnixTime(reply.origTimeSec, reply.origTimeFrac),
           ToUnixTime(reply.refTimeSec, reply.refTimeFrac),
           t2, t3, Sub(t2, t1), Sub(t3, t4))
  }

  /** The two printed differences add up to twice the clock offset of
      section 5 of RFC 4330 whenever neither saturates. */
  lemma ReportedDifferencesGiveOffset(reply: Packet, t1: Time, t4: Time)
    requires MinDuration <= UnixNanos(ToUnixTime(reply.rxTimeSec, reply.rxTimeFrac)) - UnixNanos(t1) <= MaxDuration
    requires MinDuration <= UnixNanos(ToUnixTime(reply.txTimeSec, reply.txTimeFrac)) - UnixNanos(t4) <= MaxDuration
    ensures var r := ReportOf(reply, t1, t4);
            r.receiveSinceSend + r.transmitSinceReceipt
              == (UnixNanos(r.receive) - UnixNanos(t1)) + (UnixNanos(r.transmit) - UnixNanos(t4))
  {
  }

  /** What one run of the client does: the bytes it sends, and the report
      it prints for the reply stream it reads, or the read error it stops
      with. The stream is everything the connection yields. */
  datatype Run = Run(sent: seq<uint8>, outcome: Result<Report>)

  /** The bytes the client writes: the request packet on the wire. */
  function RequestBytes(): (b: seq<uint8>)
    ensures IsRequestWire(b)
    ensures Decode(b) == Success(Request())
  {
    RequestOnWire();
    DecodeEncode(Request());
    Encode(Request())
  }

  /** The report for the reply stream, or the read error that ends the
      client before it prints anything about the reply. */
  function ReadReply(reply: seq<uint8>, t1: Time, t4: Time): (r: Result<Report>)
    ensures r.Failure? <==> |reply| < PacketSize
    ensures r.Failure? ==> (r.error == EOF <==> |reply| == 0)
    ensures r.Success? ==>
              && r.value.reference == ToUnixTime(ReadBE32(reply[16..20]), ReadBE32(reply[20..24]))
              && r.value.origin == ToUnixTime(ReadBE32(reply[24..28]), ReadBE32(reply[28..32]))
              && r.value.receive == ToUnixTime(ReadBE32(reply[32..36]), ReadBE32(reply[36..40]))
              && r.value.transmit == ToUnixTime(ReadBE32(reply[40..44]), ReadBE32(reply[44..48]))
    ensures r.Success? ==>
              && r.value.receiveSinceSend == Sub(r.value.receive, t1)
              && r.value.transmitSinceReceipt == Sub(r.value.transmit, t4)
  {
    match Decode(reply)
    case Failure(e) => Failure(e)
    case Success(p) =>
      DecodeTimestampOffsets(reply);
      Success(ReportOf(p, t1, t4))
  }

  /** One run: the request goes out, then the reply stream is read and
      reported on, or the run stops with the read error. */
  function ClientRun(reply: seq<uint8>, t1: Time, t4: Time): (run: Run)
    ensures IsRequestWire(run.sent)
    ensures run.outcome.Failure? <==> |reply| < PacketSize
    ensures run.outcome.Failure? ==> (run.outcome.error == EOF <==> |reply| == 0)
    ensures run.outcome.Success? ==> run.outcome.value == ReportOf(Decode(reply).value, t1, t4)
  {
    Run(RequestBytes(), ReadReply(reply, t1, t4))
  }

  /** A server that writes packet `p` (and possibly more) is reported on
      with exactly `p`'s timestamps: the report is a function of the
      packet, not of how it was framed on the wire. */
  lemma ReadReplyOfEncode(p: Packet, trailing: seq<uint8>, t1: Time, t4: Time)
    ensures ReadReply(Encode(p) + trailing, t1, t4) == Success(ReportOf(p, t1, t4))
  {
    DecodeIgnoresTrailing(p, trailing);
  }

  /** The local clock readings can be recovered from the report: an
      unsaturated printed difference added back to T1 (resp. T4) gives T2
      (resp. T3). */
  lemma ReportRecoversTimes(reply: Packet, t1: Time, t4: Time)
    requires MinDuration <= UnixNanos(ToUnixTime(reply.rxTimeSec, reply.rxTimeFrac)) - UnixNanos(t1) <= MaxDuration
    requires MinDuration <= UnixNanos(ToUnixTime(reply.txTimeSec, reply.txTimeFrac)) - UnixNanos(t4) <= MaxDuration
    ensures var r := ReportOf(reply, t1, t4);
            Add(t1, r.receiveSinceSend) == r.receive && Add(t4, r.transmitSinceReceipt) == r.transmit
  {
    var r := ReportOf(reply, t1, t4);
    AddSub(r.receive, t1);
    AddSub(r.transmit, t4);
  }

  /** A reply stamped as received at 2024-01-01T00:00:00Z and transmitted
      half a second later is reported with exactly those Unix times. */
  lemma NewYearReply(p: Packet, t1: Time, t4: Time)
    requires p.rxTimeSec == 3913056000 && p.rxTimeFrac == 0
    requires p.txTimeSec == 3913056000 && p.txTimeFrac == 0x8000_0000
    ensures ReadReply(Encode(p), t1, t4).Success?
    ensures ReadReply(Encode(p), t1, t4).value.receive == Time(1704067200, 0)
    ensures ReadReply(Encode(p), t1, t4).value.transmit == Time(1704067200, 500_000_000)
  {
    DecodeEncode(p);
    NewYear2024();
  }
}
