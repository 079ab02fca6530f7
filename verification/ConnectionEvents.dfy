/** What the events and frames of one poll of a connection mean, for every state and every incoming header. */
module ConnectionEvents {
  import opened Messages
  import opened Connection

  /** A handshake is going on. */
  predicate Opening(c: Conn) {
    c.RstSent? || c.RstRecvd?
  }

  /** The header carries a segment or an acknowledgement that cannot be of this handshake. */
  predicate Unexpected(c: Conn, rh: Flags) {
    || rh.seg
    || (rh.ack && match c
        case RstSent(_, _, _, _) => !rh.rst
        case RstRecvd(_, _, sentRstAck) => !sentRstAck
        case _ => true)
  }

  /** The peer has answered, now or before. */
  predicate Answered(c: Conn, rh: Flags)
    requires Opening(c)
  {
    match c
    case RstSent(_, _, recvdRstAck, simultaneous) => rh.rst || recvdRstAck || simultaneous
    case RstRecvd(_, _, _) => rh.ack
  }

  /** A poll reports an established connection exactly when it establishes one. */
  lemma {:induction false} EstablishedEvent(c: Conn, cfg: Config, rh: Flags, dt: Time, room: bool)
    ensures var (c', out) := PollOnce(c, cfg, rh, dt, room);
      out.event == ConnEstablished <==> c' == Established && c != Established
  {
  }

  /** A handshake frame is due and can go out: the timer is over and no header stops it. */
  predicate Sends(c: Conn, rh: Flags, dt: Time, room: bool)
    requires Opening(c)
  {
    room && c.tmr <= dt && if c.RstSent? then !rh.rst && !c.recvdRstAck else !rh.ack
  }

  /**
   * During a handshake a failure is reported exactly when the connection closes: desync when the
   * header is unexpected; no response when the frame that goes out is one more than allowed and the
   * handshake does not complete at the same time.
   */
  lemma {:induction false} FailureEvents(c: Conn, cfg: Config, rh: Flags, dt: Time, room: bool)
    requires Opening(c)
    ensures var (c', out) := PollOnce(c, cfg, rh, dt, room);
      && (out.event in {FailedDesync, FailedNoResponse} <==> c' == Closed)
      && (out.event == FailedDesync <==> Unexpected(c, rh))
      && (out.event == FailedNoResponse <==>
          !Unexpected(c, rh) && Sends(c, rh, dt, room) && !Answered(c, rh) && Increment(c.cnt) > cfg.attempts)
  {
  }

  /**
   * The frames of a handshake: RST from the side that connected and RST with ACK from the side that
   * answers, whenever one is due, and ACK from the side that connected when it completes; nothing
   * else, and nothing after an unexpected header.
   */
  lemma {:induction false} FramesSent(c: Conn, cfg: Config, rh: Flags, dt: Time, room: bool)
    requires Opening(c)
    ensures var (c', out) := PollOnce(c, cfg, rh, dt, room);
      && (out.rst <==> !Unexpected(c, rh) && Sends(c, rh, dt, room))
      && (out.ack <==> if c.RstSent? then c' == Established else out.rst)
      && (out.emit <==> out.rst || out.ack)
  {
  }

  /**
   * A closed connection stays closed and reports desync exactly on a segment or an acknowledgement. A
   * bare RST, and nothing else, makes it answer at once if a frame can go out, and give up at once if
   * no answer is allowed.
   */
  lemma {:induction false} ClosedEvents(cfg: Config, rh: Flags, dt: Time, room: bool)
    ensures var (c', out) := PollOnce(Closed, cfg, rh, dt, room); var bare := rh == Flags(true, false, false);
      && (out.event == FailedDesync <==> rh.ack || rh.seg)
      && (out.event == FailedNoResponse <==> bare && room && cfg.attempts == 0)
      && c' == (if !bare || out.event == FailedNoResponse then Closed
                else RstRecvd(if room then 1 else 0, if room then cfg.period else 0, room))
      && (out.emit <==> bare && room) && out.rst == out.ack == out.emit
  {
  }

  /**
   * A handshake completes exactly when nothing is unexpected and the peer has answered, and, on the
   * side that connected, its acknowledgement can go out.
   */
  lemma {:induction false} CompletesIff(c: Conn, cfg: Config, rh: Flags, dt: Time, room: bool)
    requires Opening(c)
    ensures PollOnce(c, cfg, rh, dt, room).0 == Established <==>
      !Unexpected(c, rh) && Answered(c, rh) && (c.RstSent? ==> room)
  {
  }

  /**
   * Otherwise the handshake goes on, and the side remembers what the header answered. A frame that goes
   * out is counted and another period starts; without one the timer runs on, except that a header, or
   * an earlier answer, stops the timer of the side that connected.
   */
  lemma {:induction false} GoesOn(c: Conn, cfg: Config, rh: Flags, dt: Time, room: bool)
    requires Opening(c)
    ensures var (c', out) := PollOnce(c, cfg, rh, dt, room);
      Opening(c') ==>
        && out.event == NoEvent
        && c'.cnt == (if out.emit then Increment(c.cnt) else c.cnt) && (out.emit ==> c'.cnt <= cfg.attempts)
        && c'.tmr == (if out.emit then cfg.period
                      else if c.RstSent? && (rh.rst || c.recvdRstAck) then c.tmr else SubSat(c.tmr, dt))
        && (if c.RstSent? then
              && c'.RstSent?
              && (c'.recvdRstAck <==> c.recvdRstAck || (rh.rst && rh.ack))
              && (c'.simultaneous <==> c.simultaneous || (rh.rst && !rh.ack))
            else c'.RstRecvd? && (c'.sentRstAck <==> c.sentRstAck || out.emit))
  {
  }

  // ---- An answered side waits for room ----

  /** The state after n polls without an incoming frame and without room for one to go out. */
  function QuietPolls(c: Conn, cfg: Config, dts: seq<Time>, n: nat): Conn
    requires n <= |dts|
  {
    if n == 0 then c else PollOnce(QuietPolls(c, cfg, dts, n - 1), cfg, QUIET, dts[n - 1], false).0
  }

  /**
   * A side that connected and was answered sends nothing until a frame can go out, however long that
   * takes; the first poll in which one can establishes the connection with an acknowledgement.
   */
  lemma {:induction false} AnsweredWaitsForRoom(c: Conn, cfg: Config, dts: seq<Time>, n: nat, dt: Time)
    requires c.RstSent? && (c.recvdRstAck || c.simultaneous) && n <= |dts|
    ensures var c' := QuietPolls(c, cfg, dts, n);
      && c'.RstSent? && (c'.recvdRstAck || c'.simultaneous)
      && (n < |dts| ==> PollOnce(c', cfg, QUIET, dts[n], false).1 == SILENT)
      && var (end, out) := PollOnce(c', cfg, QUIET, dt, true);
      end == Established && out.emit && out.ack && out.event == ConnEstablished
  {
    if n > 0 { AnsweredWaitsForRoom(c, cfg, dts, n - 1, dt); }
  }
}
