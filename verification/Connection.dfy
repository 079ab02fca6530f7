/** The connection state machine: one poll of it, and connect attempts that nobody answers. */
module Connection {
  import opened Messages

  const UINT_MAX: nat := 0xFFFF_FFFF

  type UInt = c: int | 0 <= c <= 0xFFFF_FFFF

  /** The handshake settings of arq_cfg_t. */
  datatype Config = Config(attempts: UInt, period: Time)

  /** The flags of a received header; no frame is all flags clear. */
  datatype Flags = Flags(rst: bool, ack: bool, seg: bool)

  const QUIET := Flags(false, false, false)

  datatype Event = NoEvent | ConnEstablished | FailedDesync | FailedNoResponse

  /** The states of a connection. Unused stands for the closing states, which nothing enters. */
  datatype Conn =
    | Closed
    | RstSent(cnt: UInt, tmr: Time, recvdRstAck: bool, simultaneous: bool)
    | RstRecvd(cnt: UInt, tmr: Time, sentRstAck: bool)
    | Established
    | Unused

  /** What a poll puts in the header to send, and the event it reports. */
  datatype Out = Out(emit: bool, rst: bool, ack: bool, event: Event)

  const SILENT := Out(false, false, false, NoEvent)

  /** `++cnt` on an unsigned. */
  function Increment(c: UInt): UInt {
    if c == UINT_MAX then 0 else c + 1
  }

  // ---- One poll ----

  function PollRstSent(c: Conn, cfg: Config, rh: Flags, dt: Time, room: bool): (r: (Conn, Out))
    requires c.RstSent?
  {
    if rh.seg || (rh.ack && !rh.rst) then (Closed, SILENT.(event := FailedDesync))
    else
      var answered := c.recvdRstAck || (rh.rst && rh.ack);
      var crossed := c.simultaneous || (rh.rst && !rh.ack);
      var waits := !rh.rst && !c.recvdRstAck;
      var tmr := if waits then SubSat(c.tmr, dt) else c.tmr;
      var sends := waits && tmr == 0 && room;
      var cnt := if sends then Increment(c.cnt) else c.cnt;
      if room && (answered || crossed) then
        (Established, Out(true, sends, true, ConnEstablished))
      else if sends && cnt > cfg.attempts then
        (Closed, Out(true, true, false, FailedNoResponse))
      else
        (RstSent(cnt, if sends then cfg.period else tmr, answered, crossed), Out(sends, sends, false, NoEvent))
  }

  function PollRstRecvd(c: Conn, cfg: Config, rh: Flags, dt: Time, room: bool): (r: (Conn, Out))
    requires c.RstRecvd?
  {
    if rh.seg || (rh.ack && !c.sentRstAck) then (Closed, SILENT.(event := FailedDesync))
    else if rh.ack then (Established, SILENT.(event := ConnEstablished))
    else
      var tmr := SubSat(c.tmr, dt);
      var sends := tmr == 0 && room;
      var cnt := if sends then Increment(c.cnt) else c.cnt;
      if sends && cnt > cfg.attempts then
        (Closed, Out(true, true, true, FailedNoResponse))
      else
        (RstRecvd(cnt, if sends then cfg.period else tmr, c.sentRstAck || sends), Out(sends, sends, sends, NoEvent))
  }

  function PollOnce(c: Conn, cfg: Config, rh: Flags, dt: Time, room: bool): (r: (Conn, Out))
  {
    match c
    case Closed =>
      if rh.ack || rh.seg then (Closed, SILENT.(event := FailedDesync))
      else if rh.rst then PollRstRecvd(RstRecvd(0, 0, false), cfg, rh, dt, room)
      else (Closed, SILENT)
    case RstSent(_, _, _, _) => PollRstSent(c, cfg, rh, dt, room)
    case RstRecvd(_, _, _) => PollRstRecvd(c, cfg, rh, dt, room)
    case Established => (c, SILENT)
    case Unused => (c, SILENT)
  }

  // ---- The connection as a structure updated in place ----

  datatype State = CLOSED | RST_RECVD | RST_SENT | ESTABLISHED | CLOSING_STATE

  class Connection {
    var state: State
    var cnt: UInt
    var tmr: Time
    var recvdRstAck: bool
    var simultaneous: bool
    var sentRstAck: bool

    ghost function View(): Conn
      reads this
    {
      match state
      case CLOSED => Closed
      case RST_RECVD => RstRecvd(cnt, tmr, sentRstAck)
      case RST_SENT => RstSent(cnt, tmr, recvdRstAck, simultaneous)
      case ESTABLISHED => Established
      case CLOSING_STATE => Unused
    }

    constructor ()
      ensures View() == Closed
    {
      state, cnt, tmr := CLOSED, 0, 0;
      recvdRstAck, simultaneous, sentRstAck := false, false, false;
    }

    /** arq_connect: only a closed connection can start one. */
    method Connect() returns (ok: bool)
      modifies this
      ensures ok == (old(View()) == Closed)
      ensures View() == if ok then RstSent(0, 0, false, false) else old(View())
    {
      if state != CLOSED {
        return false;
      }
      state, cnt, tmr := RST_SENT, 0, 0;
      recvdRstAck, simultaneous := false, false;
      return true;
    }

    /** arq__conn_poll_state_closed; more says that the new state has to be polled as well. */
    method StepClosed(rh: Flags, out: Out) returns (res: Out, more: bool)
      requires state == CLOSED
      modifies this
      ensures more == (rh.rst && !rh.ack && !rh.seg)
      ensures res == if rh.ack || rh.seg then out.(event := FailedDesync) else out
      ensures View() == if more then RstRecvd(0, 0, false) else Closed
    {
      res, more := out, false;
      if rh.ack || rh.seg {
        res := res.(event := FailedDesync);
      } else if rh.rst {
        state, tmr, cnt, sentRstAck := RST_RECVD, 0, 0, false;
        more := true;
      }
    }

    /** arq__conn_poll_state_rst_sent. */
    method StepRstSent(cfg: Config, rh: Flags, dt: Time, room: bool) returns (out: Out)
      requires state == RST_SENT
      modifies this
      ensures (View(), out) == PollRstSent(old(View()), cfg, rh, dt, room)
    {
      out := SILENT;
      if rh.seg || (rh.ack && !rh.rst) {
        state := CLOSED;
        return out.(event := FailedDesync);
      }
      if rh.rst && rh.ack {
        recvdRstAck := true;
      } else if rh.rst {
        simultaneous := true;
      } else if !recvdRstAck {
        tmr := SubSat(tmr, dt);
        if tmr == 0 && room {
          out := out.(rst := true, emit := true);
          cnt := Increment(cnt);
          tmr := cfg.period;
          if cnt > cfg.attempts {
            out := out.(event := FailedNoResponse);
            state := CLOSED;
          }
        }
      }
      if room && (simultaneous || recvdRstAck) {
        out := out.(ack := true, emit := true, event := ConnEstablished);
        state := ESTABLISHED;
      }
    }

    /** arq__conn_poll_state_rst_recvd. */
    method StepRstRecvd(cfg: Config, rh: Flags, dt: Time, room: bool) returns (out: Out)
      requires state == RST_RECVD
      modifies this
      ensures (View(), out) == PollRstRecvd(old(View()), cfg, rh, dt, room)
    {
      out := SILENT;
      if rh.seg {
        state := CLOSED;
        return out.(event := FailedDesync);
      }
      if rh.ack {
        if sentRstAck {
          state := ESTABLISHED;
          out := out.(event := ConnEstablished);
        } else {
          state := CLOSED;
          out := out.(event := FailedDesync);
        }
      } else {
        tmr := SubSat(tmr, dt);
        if tmr == 0 && room {
          out := out.(rst := true, ack := true, emit := true);
          sentRstAck := true;
          cnt := Increment(cnt);
          tmr := cfg.period;
          if cnt > cfg.attempts {
            out := out.(event := FailedNoResponse);
            state := CLOSED;
          }
        }
      }
    }

    /** arq__conn_poll: polls states until one says stop. */
    method Poll(cfg: Config, rh: Flags, dt: Time, room: bool) returns (out: Out)
      modifies this
      ensures (View(), out) == PollOnce(old(View()), cfg, rh, dt, room)
    {
      out := SILENT;
      var more := true;
      while more
        invariant more ==> out == SILENT
        invariant more ==> PollOnce(View(), cfg, rh, dt, room) == PollOnce(old(View()), cfg, rh, dt, room)
        invariant !more ==> (View(), out) == PollOnce(old(View()), cfg, rh, dt, room)
        decreases more, state == CLOSED
      {
        more := false;
        match state {
          case CLOSED => out, more := StepClosed(rh, out);
          case RST_SENT => out := StepRstSent(cfg, rh, dt, room);
          case RST_RECVD => out := StepRstRecvd(cfg, rh, dt, room);
          case ESTABLISHED =>
          case CLOSING_STATE =>
        }
      }
    }
  }
}
