/**
 * Two connection ends over a channel that loses, repeats and reorders frames: a frame once sent can
 * arrive at any later time, any number of times, or never. The data windows are idle, so the only
 * frames are those of the handshake.
 */
module Handshake {
  import opened Messages
  import opened Connection

  /** Both ends and the frames each has ever been sent. */
  datatype Sys = Sys(a: Conn, b: Conn, toA: set<Flags>, toB: set<Flags>)

  const START := Sys(Closed, Closed, {}, {})

  datatype Act =
    | ConnectA
    | ConnectB
    | PollA(rh: Flags, dt: Time, room: bool)
    | PollB(rh: Flags, dt: Time, room: bool)

  /** A poll sees a frame of the channel or none. */
  predicate Enabled(s: Sys, act: Act) {
    match act
    case PollA(rh, _, _) => rh == QUIET || rh in s.toA
    case PollB(rh, _, _) => rh == QUIET || rh in s.toB
    case _ => true
  }

  function Connected(c: Conn): Conn {
    if c == Closed then RstSent(0, 0, false, false) else c
  }

  function Sent(out: Out): set<Flags> {
    if out.emit then {Flags(out.rst, out.ack, false)} else {}
  }

  function Next(s: Sys, cfgA: Config, cfgB: Config, act: Act): Sys {
    match act
    case ConnectA => s.(a := Connected(s.a))
    case ConnectB => s.(b := Connected(s.b))
    case PollA(rh, dt, room) =>
      var (c, out) := PollOnce(s.a, cfgA, rh, dt, room);
      s.(a := c, toB := s.toB + Sent(out))
    case PollB(rh, dt, room) =>
      var (c, out) := PollOnce(s.b, cfgB, rh, dt, room);
      s.(b := c, toA := s.toA + Sent(out))
  }

  /** Every act is possible when its turn comes. */
  predicate Possible(s: Sys, cfgA: Config, cfgB: Config, acts: seq<Act>)
    decreases |acts|
  {
    acts == [] || (Enabled(s, acts[0]) && Possible(Next(s, cfgA, cfgB, acts[0]), cfgA, cfgB, acts[1..]))
  }

  function Run(s: Sys, cfgA: Config, cfgB: Config, acts: seq<Act>): Sys
    decreases |acts|
  {
    if acts == [] then s else Run(Next(s, cfgA, cfgB, acts[0]), cfgA, cfgB, acts[1..])
  }

  const RST := Flags(true, false, false)
  const RST_ACK := Flags(true, true, false)
  const ACK := Flags(false, true, false)

  /** What holds while only A ever connects. */
  predicate OneSided(s: Sys) {
    && s.toA <= {RST_ACK}
    && s.toB <= {RST, ACK}
    && (s.a.Closed? || (s.a.RstSent? && !s.a.simultaneous) || s.a.Established?)
    && (s.b.Closed? || s.b.RstRecvd? || s.b.Established?)
    && (ACK in s.toB ==> s.a == Established)
    && (s.b == Established ==> s.a == Established)
    && (s.a == Established ==> RST_ACK in s.toA)
    && (s.a.RstSent? && s.a.recvdRstAck ==> RST_ACK in s.toA)
    && (s.b.RstRecvd? && s.b.sentRstAck ==> RST_ACK in s.toA)
  }

  lemma {:induction false} OneSidedStep(s: Sys, cfgA: Config, cfgB: Config, act: Act)
    requires OneSided(s) && Enabled(s, act) && act != ConnectB
    ensures OneSided(Next(s, cfgA, cfgB, act))
  {
  }

  lemma {:induction false} OneSidedRun(s: Sys, cfgA: Config, cfgB: Config, acts: seq<Act>)
    requires OneSided(s) && Possible(s, cfgA, cfgB, acts) && ConnectB !in acts
    ensures OneSided(Run(s, cfgA, cfgB, acts))
    decreases |acts|
  {
    hide OneSided, Next, Enabled;
    if acts != [] {
      OneSidedStep(s, cfgA, cfgB, acts[0]);
      OneSidedRun(Next(s, cfgA, cfgB, acts[0]), cfgA, cfgB, acts[1..]);
    }
  }

  /**
   * When only A connects, B is established only while A is, and A only after B has sent RST and ACK,
   * in every run.
   */
  lemma {:induction false} HandshakeAgrees(cfgA: Config, cfgB: Config, acts: seq<Act>)
    requires Possible(START, cfgA, cfgB, acts) && ConnectB !in acts
    ensures var s := Run(START, cfgA, cfgB, acts);
      && (s.b == Established ==> s.a == Established)
      && (s.a == Established ==> RST_ACK in s.toA)
  {
    OneSidedRun(START, cfgA, cfgB, acts);
  }

  // ---- What is reported ----

  /** The events one side reports in a run, those of A or those of B. */
  function Reported(s: Sys, cfgA: Config, cfgB: Config, acts: seq<Act>, ofA: bool): seq<Event>
    decreases |acts|
  {
    if acts == [] then []
    else ReportedBy(s, cfgA, cfgB, acts[0], ofA) + Reported(Next(s, cfgA, cfgB, acts[0]), cfgA, cfgB, acts[1..], ofA)
  }

  function ReportedBy(s: Sys, cfgA: Config, cfgB: Config, act: Act, ofA: bool): seq<Event> {
    match act
    case PollA(rh, dt, room) => if ofA then [PollOnce(s.a, cfgA, rh, dt, room).1.event] else []
    case PollB(rh, dt, room) => if ofA then [] else [PollOnce(s.b, cfgB, rh, dt, room).1.event]
    case _ => []
  }

  /** Desync is reported only after no response was. */
  predicate GivesUpFirst(es: seq<Event>) {
    es == [] || es[0] == FailedNoResponse || (es[0] != FailedDesync && GivesUpFirst(es[1..]))
  }

  /** A side that has not given up: A is closed only before anything happened, and B, once it has answered, waits or is established. */
  predicate Persists(s: Sys, ofA: bool) {
    if ofA then s.a.Closed? ==> s == START
    else RST_ACK in s.toA ==> s.b == Established || (s.b.RstRecvd? && s.b.sentRstAck)
  }

  lemma {:induction false} PersistsStep(s: Sys, cfgA: Config, cfgB: Config, act: Act, ofA: bool)
    requires OneSided(s) && Persists(s, ofA) && Enabled(s, act) && act != ConnectB
    ensures var es := ReportedBy(s, cfgA, cfgB, act, ofA);
      && |es| <= 1 && FailedDesync !in es
      && (FailedNoResponse in es || Persists(Next(s, cfgA, cfgB, act), ofA))
  {
  }

  /** When only A connects, the first failure that either side reports is that nobody answered, in every run. */
  lemma {:induction false} DesyncOnlyAfterGivingUp(cfgA: Config, cfgB: Config, acts: seq<Act>, ofA: bool)
    requires Possible(START, cfgA, cfgB, acts) && ConnectB !in acts
    ensures GivesUpFirst(Reported(START, cfgA, cfgB, acts, ofA))
  {
    FailsInOrder(START, cfgA, cfgB, acts, ofA);
  }

  lemma {:induction false} FailsInOrder(s: Sys, cfgA: Config, cfgB: Config, acts: seq<Act>, ofA: bool)
    requires OneSided(s) && Persists(s, ofA) && Possible(s, cfgA, cfgB, acts) && ConnectB !in acts
    ensures GivesUpFirst(Reported(s, cfgA, cfgB, acts, ofA))
    decreases |acts|
  {
    hide OneSided, Persists, Next, Enabled, ReportedBy;
    if acts != [] {
      OneSidedStep(s, cfgA, cfgB, acts[0]);
      PersistsStep(s, cfgA, cfgB, acts[0], ofA);
      var es, rest := ReportedBy(s, cfgA, cfgB, acts[0], ofA), Reported(Next(s, cfgA, cfgB, acts[0]), cfgA, cfgB, acts[1..], ofA);
      if FailedNoResponse !in es { FailsInOrder(Next(s, cfgA, cfgB, acts[0]), cfgA, cfgB, acts[1..], ofA); }
      if es == [] { assert es + rest == rest; } else { assert (es + rest)[0] == es[0] && (es + rest)[1..] == rest; }
    }
  }

  /** When neither side connects, nothing happens. */
  lemma {:induction false} NobodyConnects(cfgA: Config, cfgB: Config, acts: seq<Act>)
    requires Possible(START, cfgA, cfgB, acts) && ConnectA !in acts && ConnectB !in acts
    ensures Run(START, cfgA, cfgB, acts) == START
    decreases |acts|
  {
    if acts != [] {
      assert Next(START, cfgA, cfgB, acts[0]) == START;
      NobodyConnects(cfgA, cfgB, acts[1..]);
    }
  }

  /** In every run, whoever connects, a side is established only after the other has sent it a frame. */
  lemma {:induction false} EstablishedHeardPeer(cfgA: Config, cfgB: Config, acts: seq<Act>)
    requires Possible(START, cfgA, cfgB, acts)
    ensures var s := Run(START, cfgA, cfgB, acts);
      (s.a == Established ==> s.toA != {}) && (s.b == Established ==> s.toB != {})
  {
    HeardRun(START, cfgA, cfgB, acts);
  }

  /** A side that needed a frame to get where it is has been sent one. */
  predicate Heard(c: Conn, sent: set<Flags>) {
    sent == {} ==> c.Closed? || (c.RstSent? && !c.recvdRstAck && !c.simultaneous)
  }

  lemma {:induction false} HeardRun(s: Sys, cfgA: Config, cfgB: Config, acts: seq<Act>)
    requires Heard(s.a, s.toA) && Heard(s.b, s.toB) && Possible(s, cfgA, cfgB, acts)
    ensures var t := Run(s, cfgA, cfgB, acts); Heard(t.a, t.toA) && Heard(t.b, t.toB)
    decreases |acts|
  {
    if acts != [] {
      HeardRun(Next(s, cfgA, cfgB, acts[0]), cfgA, cfgB, acts[1..]);
    }
  }

  /** One act at the head of a run. */
  lemma {:induction false} Unroll(s: Sys, cfgA: Config, cfgB: Config, act: Act, acts: seq<Act>)
    ensures Run(s, cfgA, cfgB, [act] + acts) == Run(Next(s, cfgA, cfgB, act), cfgA, cfgB, acts)
    ensures Possible(s, cfgA, cfgB, [act] + acts)
      <==> Enabled(s, act) && Possible(Next(s, cfgA, cfgB, act), cfgA, cfgB, acts)
  {
    assert ([act] + acts)[1..] == acts;
  }

  // ---- Who may connect ----

  /** Both sides change places. */
  function Swapped(s: Sys): Sys {
    Sys(s.b, s.a, s.toB, s.toA)
  }

  function SwappedAct(act: Act): Act {
    match act
    case ConnectA => ConnectB
    case ConnectB => ConnectA
    case PollA(rh, dt, room) => PollB(rh, dt, room)
    case PollB(rh, dt, room) => PollA(rh, dt, room)
  }

  function SwappedActs(acts: seq<Act>): (r: seq<Act>)
    ensures |r| == |acts| && forall i :: 0 <= i < |acts| ==> r[i] == SwappedAct(acts[i])
  {
    seq(|acts|, i requires 0 <= i < |acts| => SwappedAct(acts[i]))
  }

  /** The rules are the same for both sides. */
  lemma {:induction false} RunSwapped(s: Sys, cfgA: Config, cfgB: Config, acts: seq<Act>)
    ensures Run(Swapped(s), cfgB, cfgA, SwappedActs(acts)) == Swapped(Run(s, cfgA, cfgB, acts))
    ensures Possible(Swapped(s), cfgB, cfgA, SwappedActs(acts)) <==> Possible(s, cfgA, cfgB, acts)
    decreases |acts|
  {
    hide PollOnce;
    if acts != [] {
      var s1 := Next(s, cfgA, cfgB, acts[0]);
      assert Next(Swapped(s), cfgB, cfgA, SwappedAct(acts[0])) == Swapped(s1);
      assert SwappedActs(acts)[1..] == SwappedActs(acts[1..]);
      RunSwapped(s1, cfgA, cfgB, acts[1..]);
    }
  }

  /** A side that is established while its peer is not is the one, and the only one, that connected. */
  predicate Agrees(s: Sys, acts: seq<Act>) {
    && (s.a == Established && s.b != Established ==> ConnectA in acts && ConnectB !in acts)
    && (s.b == Established && s.a != Established ==> ConnectB in acts && ConnectA !in acts)
  }

  /** All possible runs agree in which only the sides that may connect do. */
  ghost predicate AllAgree(cfgA: Config, cfgB: Config, mayA: bool, mayB: bool) {
    forall acts: seq<Act> ::
      Possible(START, cfgA, cfgB, acts) && (ConnectA in acts ==> mayA) && (ConnectB in acts ==> mayB)
      ==> Agrees(Run(START, cfgA, cfgB, acts), acts)
  }

  lemma {:induction false} SwappedHas(acts: seq<Act>)
    ensures ConnectB in SwappedActs(acts) ==> ConnectA in acts
  {
    if ConnectB in SwappedActs(acts) {
      var i :| 0 <= i < |acts| && SwappedActs(acts)[i] == ConnectB;
      assert acts[i] == ConnectA;
    }
  }

  lemma {:induction false} OneConnectsAgrees(cfgA: Config, cfgB: Config, acts: seq<Act>)
    requires Possible(START, cfgA, cfgB, acts) && !(ConnectA in acts && ConnectB in acts)
    ensures Agrees(Run(START, cfgA, cfgB, acts), acts)
  {
    hide Possible, Run, Next;
    if ConnectA !in acts && ConnectB !in acts {
      NobodyConnects(cfgA, cfgB, acts);
    } else if ConnectB !in acts {
      HandshakeAgrees(cfgA, cfgB, acts);
    } else {
      RunSwapped(START, cfgA, cfgB, acts);
      SwappedHas(acts);
      HandshakeAgrees(cfgB, cfgA, SwappedActs(acts));
    }
  }

  /** Both sides connect; B hears the RST of A and is established, A hears the ACK of B and closes. */
  const CROSSING: seq<Act> :=
    [ConnectA] + ([ConnectB] + ([PollA(QUIET, 0, true)] + ([PollB(RST, 0, true)] + ([PollA(ACK, 0, true)] + []))))

  /** When both sides connect, one can be left established against a closed peer. */
  lemma {:induction false} CrossedConnectsCanDisagree(cfgA: Config, cfgB: Config)
    requires cfgA.attempts >= 1
    ensures Possible(START, cfgA, cfgB, CROSSING)
    ensures var s := Run(START, cfgA, cfgB, CROSSING); s.a == Closed && s.b == Established
  {
    var s1 := Next(START, cfgA, cfgB, ConnectA);
    var s2 := Next(s1, cfgA, cfgB, ConnectB);
    var s3 := Next(s2, cfgA, cfgB, PollA(QUIET, 0, true));
    var s4 := Next(s3, cfgA, cfgB, PollB(RST, 0, true));
    var s5 := Next(s4, cfgA, cfgB, PollA(ACK, 0, true));
    assert s2.a == RstSent(0, 0, false, false) == s2.b;
    assert s3.a == RstSent(1, cfgA.period, false, false) && s3.toB == {RST};
    assert s4.b == Established && s4.toA == {ACK};
    assert s5.a == Closed && s5.b == Established;
    var r4 := [PollA(ACK, 0, true)] + [];
    var r3 := [PollB(RST, 0, true)] + r4;
    var r2 := [PollA(QUIET, 0, true)] + r3;
    var r1 := [ConnectB] + r2;
    Unroll(START, cfgA, cfgB, ConnectA, r1);
    Unroll(s1, cfgA, cfgB, ConnectB, r2);
    Unroll(s2, cfgA, cfgB, PollA(QUIET, 0, true), r3);
    Unroll(s3, cfgA, cfgB, PollB(RST, 0, true), r4);
    Unroll(s4, cfgA, cfgB, PollA(ACK, 0, true), []);
  }

  /**
   * Whatever the settings of the two ends, all runs agree if and only if not both sides may connect.
   */
  lemma {:induction false} HandshakeAgreesIff(cfgA: Config, cfgB: Config, mayA: bool, mayB: bool)
    requires cfgA.attempts >= 1
    ensures AllAgree(cfgA, cfgB, mayA, mayB) <==> !(mayA && mayB)
  {
    hide Possible, Run, Agrees;
    if mayA && mayB {
      CrossedConnectsCanDisagree(cfgA, cfgB);
      CrossingDisagrees(Run(START, cfgA, cfgB, CROSSING));
    } else {
      forall acts: seq<Act> |
        Possible(START, cfgA, cfgB, acts) && (ConnectA in acts ==> mayA) && (ConnectB in acts ==> mayB)
        ensures Agrees(Run(START, cfgA, cfgB, acts), acts)
      {
        OneConnectsAgrees(cfgA, cfgB, acts);
      }
    }
  }

  lemma {:induction false} CrossingDisagrees(s: Sys)
    requires s.a == Closed && s.b == Established
    ensures !Agrees(s, CROSSING)
  {
    assert CROSSING[0] == ConnectA;
  }
}
