/**
 * Attempts that nobody answers: what one side does between entering a handshake state and giving up,
 * for every schedule of polls without an incoming frame.
 */
module ConnectAttempts {
  import opened Messages
  import opened Connection

  /** One poll: the time since the one before, and whether a frame can go out. */
  datatype Tick = Tick(dt: Time, room: bool)

  /** Start of a handshake: after arq_connect, or passive on a first RST. */
  function Start(passive: bool): Conn {
    if passive then RstRecvd(0, 0, false) else RstSent(0, 0, false, false)
  }

  /** The state after the first k polls. */
  function StateAt(passive: bool, cfg: Config, ts: seq<Tick>, k: nat): Conn
    requires k <= |ts|
  {
    if k == 0 then Start(passive)
    else PollOnce(StateAt(passive, cfg, ts, k - 1), cfg, QUIET, ts[k - 1].dt, ts[k - 1].room).0
  }

  /** What poll k does. */
  function OutAt(passive: bool, cfg: Config, ts: seq<Tick>, k: nat): Out
    requires k < |ts|
  {
    PollOnce(StateAt(passive, cfg, ts, k), cfg, QUIET, ts[k].dt, ts[k].room).1
  }

  /** Frames emitted by the first k polls. */
  function Emitted(passive: bool, cfg: Config, ts: seq<Tick>, k: nat): (n: nat)
    requires k <= |ts|
    ensures n <= k
  {
    if k == 0 then 0
    else Emitted(passive, cfg, ts, k - 1) + (if OutAt(passive, cfg, ts, k - 1).emit then 1 else 0)
  }

  /** Time that polls i to k - 1 add up to. */
  function Elapsed(ts: seq<Tick>, i: nat, k: nat): (t: nat)
    requires i <= k <= |ts|
    decreases k - i
  {
    if i == k then 0 else Elapsed(ts, i, k - 1) + ts[k - 1].dt
  }

  lemma {:induction false} ElapsedGrows(ts: seq<Tick>, i: nat, j: nat, k: nat)
    requires i <= j <= k <= |ts|
    ensures Elapsed(ts, i, k) == Elapsed(ts, i, j) + Elapsed(ts, j, k)
    decreases k - j
  {
    if j < k { ElapsedGrows(ts, i, j, k - 1); }
  }

  /** The first poll after the last emission among the first k polls, or 0. */
  function SinceLast(passive: bool, cfg: Config, ts: seq<Tick>, k: nat): (i: nat)
    requires k <= |ts|
    ensures i <= k
  {
    if k == 0 then 0
    else if OutAt(passive, cfg, ts, k - 1).emit then k
    else SinceLast(passive, cfg, ts, k - 1)
  }

  lemma {:induction false} SinceLastIs(passive: bool, cfg: Config, ts: seq<Tick>, k: nat)
    requires k <= |ts|
    ensures var i := SinceLast(passive, cfg, ts, k);
      && (i == 0 <==> Emitted(passive, cfg, ts, k) == 0)
      && (i > 0 ==> OutAt(passive, cfg, ts, i - 1).emit)
      && forall j :: i <= j < k ==> !OutAt(passive, cfg, ts, j).emit
  {
    hide OutAt;
    if k > 0 { SinceLastIs(passive, cfg, ts, k - 1); }
  }

  /** The state with n frames emitted, the last one t ago. */
  function Waiting(passive: bool, cfg: Config, n: nat, t: nat): Conn
    requires n <= UINT_MAX
  {
    var tmr := if n == 0 then 0 else Max(0, cfg.period - t);
    if passive then RstRecvd(n, tmr, n > 0) else RstSent(n, tmr, false, false)
  }

  /** One poll of a side that waits, t being the time since the last emission with this poll's own included. */
  lemma {:induction false} WaitingStep(passive: bool, cfg: Config, n: nat, t: nat, tick: Tick)
    requires n <= cfg.attempts < UINT_MAX
    ensures var due := tick.room && (n == 0 || t + tick.dt >= cfg.period);
      PollOnce(Waiting(passive, cfg, n, t), cfg, QUIET, tick.dt, tick.room) ==
      if !due then (Waiting(passive, cfg, n, t + tick.dt), SILENT)
      else if n == cfg.attempts then (Closed, Out(true, true, passive, FailedNoResponse))
      else (Waiting(passive, cfg, n + 1, 0), Out(true, true, passive, NoEvent))
  {
  }

  lemma {:induction false} ClosedStep(cfg: Config, tick: Tick)
    ensures PollOnce(Closed, cfg, QUIET, tick.dt, tick.room) == (Closed, SILENT)
  {
  }

  /**
   * The state follows from the number of frames emitted and the time since the last one: with more
   * than the allowed attempts the connection is closed, and until then it waits.
   */
  lemma {:induction false} StateIs(passive: bool, cfg: Config, ts: seq<Tick>, k: nat)
    requires k <= |ts| && cfg.attempts < UINT_MAX
    ensures var n := Emitted(passive, cfg, ts, k);
      && n <= cfg.attempts + 1
      && StateAt(passive, cfg, ts, k) ==
           if n == cfg.attempts + 1 then Closed
           else Waiting(passive, cfg, n, Elapsed(ts, SinceLast(passive, cfg, ts, k), k))
  {
    hide PollOnce;
    if k == 0 {
      assert Waiting(passive, cfg, 0, 0) == Start(passive);
    } else {
      StateIs(passive, cfg, ts, k - 1);
      var c, tick := StateAt(passive, cfg, ts, k - 1), ts[k - 1];
      assert OutAt(passive, cfg, ts, k - 1) == PollOnce(c, cfg, QUIET, tick.dt, tick.room).1;
      var n, i := Emitted(passive, cfg, ts, k - 1), SinceLast(passive, cfg, ts, k - 1);
      hide Waiting, OutAt;
      if n <= cfg.attempts {
        WaitingStep(passive, cfg, n, Elapsed(ts, i, k - 1), ts[k - 1]);
      } else {
        ClosedStep(cfg, ts[k - 1]);
      }
    }
  }

  /** Poll k emits exactly when the side has not given up, a frame can go out, and the period is over. */
  lemma {:induction false} EmitsWhenDue(passive: bool, cfg: Config, ts: seq<Tick>, k: nat)
    requires k < |ts| && cfg.attempts < UINT_MAX
    ensures var n, i := Emitted(passive, cfg, ts, k), SinceLast(passive, cfg, ts, k);
      (OutAt(passive, cfg, ts, k).emit
       <==> (n <= cfg.attempts && ts[k].room && (n == 0 || Elapsed(ts, i, k + 1) >= cfg.period)))
    ensures OutAt(passive, cfg, ts, k).emit ==>
      OutAt(passive, cfg, ts, k).rst && OutAt(passive, cfg, ts, k).ack == passive
  {
    StateIs(passive, cfg, ts, k);
    var n, i := Emitted(passive, cfg, ts, k), SinceLast(passive, cfg, ts, k);
    if n <= cfg.attempts {
      WaitingStep(passive, cfg, n, Elapsed(ts, i, k), ts[k]);
    }
  }

  /** Two emissions are at least one period of summed time apart. */
  lemma {:induction false} EmissionsApart(passive: bool, cfg: Config, ts: seq<Tick>, i: nat, k: nat)
    requires i < k < |ts| && cfg.attempts < UINT_MAX
    requires OutAt(passive, cfg, ts, i).emit && OutAt(passive, cfg, ts, k).emit
    ensures Elapsed(ts, i + 1, k + 1) >= cfg.period
  {
    hide OutAt, Emitted;
    var last := SinceLast(passive, cfg, ts, k);
    SinceLastIs(passive, cfg, ts, k);
    assert last > i;
    EmitsWhenDue(passive, cfg, ts, k);
    ElapsedGrows(ts, i + 1, last, k + 1);
  }

  /**
   * At most attempts + 1 frames go out; the connection closes for want of a response at the last of
   * them, and at no other poll; after that the polls are silent.
   */
  lemma {:induction false} AttemptsBounded(passive: bool, cfg: Config, ts: seq<Tick>, k: nat)
    requires k < |ts| && cfg.attempts < UINT_MAX
    ensures Emitted(passive, cfg, ts, |ts|) <= cfg.attempts + 1
    ensures var out, n := OutAt(passive, cfg, ts, k), Emitted(passive, cfg, ts, k + 1);
      && (out.event == FailedNoResponse <==> out.emit && n == cfg.attempts + 1)
      && (out.event != NoEvent ==> out.event == FailedNoResponse)
      && (StateAt(passive, cfg, ts, k + 1) == Closed <==> n == cfg.attempts + 1)
      && (StateAt(passive, cfg, ts, k) == Closed ==> out == SILENT)
  {
    StateIs(passive, cfg, ts, |ts|);
    StateIs(passive, cfg, ts, k);
    StateIs(passive, cfg, ts, k + 1);
    var n, i := Emitted(passive, cfg, ts, k), SinceLast(passive, cfg, ts, k);
    if n <= cfg.attempts {
      WaitingStep(passive, cfg, n, Elapsed(ts, i, k), ts[k]);
    }
  }

  // ---- When a side gives up at all ----

  /** Polls that come a period apart with room each time. */
  function Steady(cfg: Config, n: nat): (ts: seq<Tick>)
    ensures |ts| == n && forall i :: 0 <= i < n ==> ts[i] == Tick(cfg.period, true)
  {
    seq(n, _ => Tick(cfg.period, true))
  }

  lemma {:induction false} SteadyEmits(passive: bool, cfg: Config, n: nat, k: nat)
    requires k <= n <= cfg.attempts + 1 && cfg.attempts < UINT_MAX
    ensures Emitted(passive, cfg, Steady(cfg, n), k) == k
  {
    hide PollOnce, Waiting, SinceLast;
    if k > 0 {
      SteadyEmits(passive, cfg, n, k - 1);
      EmitsWhenDue(passive, cfg, Steady(cfg, n), k - 1);
    }
  }

  /** With the largest count of attempts the counter wraps before it can exceed it. */
  lemma {:induction false} NeverCloses(passive: bool, cfg: Config, ts: seq<Tick>, k: nat)
    requires k <= |ts| && cfg.attempts == UINT_MAX
    ensures var c := StateAt(passive, cfg, ts, k);
      if passive then c.RstRecvd? else c.RstSent? && !c.recvdRstAck && !c.simultaneous
  {
    if k > 0 { NeverCloses(passive, cfg, ts, k - 1); }
  }

  ghost predicate CanClose(passive: bool, cfg: Config) {
    exists ts: seq<Tick> :: StateAt(passive, cfg, ts, |ts|) == Closed
  }

  /** A side that nobody answers can give up exactly when the configured attempts are below the largest unsigned. */
  lemma {:induction false} GivesUpIff(passive: bool, cfg: Config)
    ensures CanClose(passive, cfg) <==> cfg.attempts < UINT_MAX
  {
    if cfg.attempts < UINT_MAX {
      var n := cfg.attempts + 1;
      SteadyEmits(passive, cfg, n, n);
      StateIs(passive, cfg, Steady(cfg, n), n);
      assert StateAt(passive, cfg, Steady(cfg, n), |Steady(cfg, n)|) == Closed;
    } else {
      forall ts: seq<Tick> ensures StateAt(passive, cfg, ts, |ts|) != Closed {
        NeverCloses(passive, cfg, ts, |ts|);
      }
    }
  }
}
