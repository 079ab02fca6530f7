/** When the next poll is due: the least time after which some timer runs out. */
module NextPoll {
  import opened Arith
  import opened Messages
  import opened Connection
  import opened SendLayout
  import SendWindowImpl
  import RecvWindowImpl
  import S = SendWindow
  import R = RecvWindow

  /** A timer at zero does not run. */
  function Sooner(np: Time, t: Time): Time {
    if t > 0 then Min(np, t) else np
  }

  /** The least running retransmission timer of the first n messages. */
  function LeastRtx(msgs: seq<S.Message>, n: nat): Time
    requires n <= |msgs|
  {
    if n == 0 then TIME_INFINITY else Sooner(LeastRtx(msgs, n - 1), msgs[n - 1].rtx)
  }

  /** A handshake timer is waited for until the peer has answered. */
  predicate Awaits(c: Conn) {
    c.RstRecvd? || (c.RstSent? && !c.recvdRstAck && !c.simultaneous)
  }

  /** The value arq__next_poll computes. */
  function Due(sw: S.SendWnd, rw: R.RecvWnd, c: Conn): Time {
    var np := LeastRtx(sw.msgs, |sw.msgs|);
    var np := if sw.tinyOn then Sooner(np, sw.tiny) else np;
    var np := if rw.isaOn then Sooner(np, rw.isa) else np;
    if Awaits(c) then Min(np, c.tmr) else np
  }

  /** arq__next_poll and arq__conn_next_poll. */
  method ComputeNextPoll(sw: SendWindowImpl.SendWindow, rw: RecvWindowImpl.RecvWindow, c: Connection) returns (np: Time)
    requires sw.Valid() && rw.Valid()
    ensures np == Due(sw.view, rw.view, c.View())
  {
    hide Rem, Mul, Quo, Flatten;
    np := TIME_INFINITY;
    for i := 0 to sw.size
      invariant np == LeastRtx(sw.view.msgs, i)
    {
      var t := sw.rtx[SlotOf(sw.base, i, sw.sh.cap)];
      if t > 0 {
        np := Min(np, t);
      }
    }
    if sw.tinyOn && sw.tiny > 0 {
      np := Min(np, sw.tiny);
    }
    if rw.isaOn && rw.isa > 0 {
      np := Min(np, rw.isa);
    }
    var conn: Time := TIME_INFINITY;
    match c.state {
      case RST_SENT =>
        if !c.recvdRstAck && !c.simultaneous {
          conn := Min(conn, c.tmr);
        }
      case RST_RECVD => conn := Min(conn, c.tmr);
      case _ =>
    }
    np := Min(np, conn);
  }

  // ---- What runs out in a step of dt ----

  ghost predicate RtxExpires(sw: S.SendWnd, dt: Time) {
    exists j :: 0 <= j < |sw.msgs| && sw.msgs[j].rtx > 0 && S.Step(sw, dt).msgs[j].rtx == 0
  }

  /** A poll flushes the unfinished message. */
  ghost predicate TinyExpires(sw: S.SendWnd, dt: Time) {
    sw.tinyOn && S.Step(sw, dt).tiny == 0
  }

  /** An acknowledgement is raised for the message the inter-segment timer watches. */
  ghost predicate IsaExpires(sh: Shape, rw: R.RecvWnd, dt: Time)
    requires R.Valid(sh, rw)
  {
    rw.isaOn && !R.InterSegment(sh, rw, dt).isaOn
  }

  /** A poll without an incoming frame repeats a handshake frame, or gives up; it does not complete the handshake. */
  ghost predicate HandshakeExpires(c: Conn, cfg: Config, dt: Time) {
    var out := PollOnce(c, cfg, QUIET, dt, true).1;
    out.emit && out.event != ConnEstablished
  }

  ghost predicate Expires(sh: Shape, sw: S.SendWnd, rw: R.RecvWnd, c: Conn, cfg: Config, dt: Time)
    requires R.Valid(sh, rw)
  {
    RtxExpires(sw, dt) || TinyExpires(sw, dt) || IsaExpires(sh, rw, dt) || HandshakeExpires(c, cfg, dt)
  }

  lemma {:induction false} LeastRtxIs(msgs: seq<S.Message>, n: nat, dt: Time)
    requires n <= |msgs| && dt < TIME_INFINITY
    ensures LeastRtx(msgs, n) <= dt <==> exists j :: 0 <= j < n && 0 < msgs[j].rtx <= dt
  {
    if n > 0 { LeastRtxIs(msgs, n - 1, dt); }
  }

  lemma {:induction false} RtxExpiresIff(sw: S.SendWnd, dt: Time)
    requires dt < TIME_INFINITY
    ensures RtxExpires(sw, dt) <==> LeastRtx(sw.msgs, |sw.msgs|) <= dt
  {
    LeastRtxIs(sw.msgs, |sw.msgs|, dt);
    if RtxExpires(sw, dt) {
      var j :| 0 <= j < |sw.msgs| && sw.msgs[j].rtx > 0 && S.Step(sw, dt).msgs[j].rtx == 0;
      assert sw.msgs[j].rtx <= dt;
    }
    if LeastRtx(sw.msgs, |sw.msgs|) <= dt {
      var j :| 0 <= j < |sw.msgs| && 0 < sw.msgs[j].rtx <= dt;
      assert S.Step(sw, dt).msgs[j].rtx == 0;
    }
  }

  /** No timer that can be on is on and spent. */
  predicate Armed(sw: S.SendWnd, rw: R.RecvWnd) {
    (sw.tinyOn ==> sw.tiny > 0) && (rw.isaOn ==> rw.isa > 0)
  }

  /**
   * The next poll is tight: a step of dt, with no incoming frame, makes some timer run out exactly
   * when it reaches the time arq__next_poll returned.
   */
  lemma {:induction false} NextPollIsTight(sh: Shape, sw: S.SendWnd, rw: R.RecvWnd, c: Conn, cfg: Config, dt: Time)
    requires R.Valid(sh, rw) && Armed(sw, rw) && dt < TIME_INFINITY
    ensures Expires(sh, sw, rw, c, cfg, dt) <==> Due(sw, rw, c) <= dt
  {
    hide R.Valid, RtxExpires, LeastRtx;
    RtxExpiresIff(sw, dt);
  }

  /** Every receive poll and every send poll leave it armed, so that the result after both is tight. */
  lemma {:induction false} PollsLeaveArmed(sh: Shape, w: R.RecvWnd, a: R.Arrival, dt: Time, delay: Time, room: bool,
                                           ssh: Shape, sw: S.SendWnd, p: S.Ptr, ack: S.AckHdr, rto: Time, sroom: bool)
    requires R.Valid(sh, w) && (a.Arrived? ==> R.FrameOk(sh, a.f))
    requires S.Valid(ssh, sw) && S.PtrOk(p)
    ensures Armed(S.Poll(ssh, sw, p, ack, dt, rto, sroom).0, R.Poll(sh, w, a, dt, delay, room).0)
  {
    R.ArriveValid(sh, w, a, delay);
    SendPollArmed(ssh, sw, p, ack, dt, rto, sroom);
    hide R.Valid, R.Arrive, S.Poll, S.Valid;
  }

  lemma {:induction false} SendPollArmed(sh: Shape, sw: S.SendWnd, p: S.Ptr, ack: S.AckHdr, dt: Time, rto: Time, room: bool)
    requires S.Valid(sh, sw) && S.PtrOk(p)
    ensures var w := S.Poll(sh, sw, p, ack, dt, rto, room).0; w.tinyOn ==> w.tiny > 0
  {
    hide S.PtrNext, S.Done, Rem, Mul, Quo, S.Ack;
    S.AckValid(sh, sw, ack);
    S.TimersValid(sh, S.AckStep(sw, ack), dt);
  }

  ghost predicate Tight(sh: Shape, sw: S.SendWnd, rw: R.RecvWnd, c: Conn, cfg: Config)
    requires R.Valid(sh, rw)
  {
    forall dt: Time :: dt < TIME_INFINITY ==> (Expires(sh, sw, rw, c, cfg, dt) <==> Due(sw, rw, c) <= dt)
  }

  /**
   * In any state at all, the result is tight exactly when no timer is on and spent, or a handshake
   * frame is due at once in any case.
   */
  lemma {:induction false} TightIff(sh: Shape, sw: S.SendWnd, rw: R.RecvWnd, c: Conn, cfg: Config)
    requires R.Valid(sh, rw)
    ensures Tight(sh, sw, rw, c, cfg) <==> Armed(sw, rw) || Due(sw, rw, c) == 0
  {
    hide R.Valid, Expires, Due;
    if Armed(sw, rw) {
      forall dt: Time | dt < TIME_INFINITY
        ensures Expires(sh, sw, rw, c, cfg, dt) <==> Due(sw, rw, c) <= dt
      {
        NextPollIsTight(sh, sw, rw, c, cfg, dt);
      }
    } else {
      forall dt: Time ensures Expires(sh, sw, rw, c, cfg, dt) { SpentExpires(sh, sw, rw, c, cfg, dt); }
      var now: Time := 0;
      assert Expires(sh, sw, rw, c, cfg, now);
    }
  }

  /** A timer that is on and spent runs out in every step. */
  lemma {:induction false} SpentExpires(sh: Shape, sw: S.SendWnd, rw: R.RecvWnd, c: Conn, cfg: Config, dt: Time)
    requires R.Valid(sh, rw) && !Armed(sw, rw)
    ensures Expires(sh, sw, rw, c, cfg, dt)
  {
    hide R.Valid;
  }

  // ---- Stepping adds up ----

  lemma {:induction false} StepsAdd(sh: Shape, sw: S.SendWnd, rw: R.RecvWnd, c: Conn, cfg: Config, d1: Time, d2: Time)
    requires R.Valid(sh, rw) && d1 + d2 <= TIME_INFINITY
    ensures S.Step(S.Step(sw, d1), d2) == S.Step(sw, d1 + d2)
    ensures R.Valid(sh, R.InterSegment(sh, rw, d1))
    ensures R.InterSegment(sh, R.InterSegment(sh, rw, d1), d2) == R.InterSegment(sh, rw, d1 + d2)
    ensures PollOnce(PollOnce(c, cfg, QUIET, d1, false).0, cfg, QUIET, d2, false) == PollOnce(c, cfg, QUIET, d1 + d2, false)
  {
    R.InterSegmentValid(sh, rw, d1);
    hide R.Valid;
    assert S.Step(S.Step(sw, d1), d2).msgs == S.Step(sw, d1 + d2).msgs;
  }
}
