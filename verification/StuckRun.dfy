/**
 * A run within the guards that gets stuck: the only frame of a message is received and the message is
 * read while no acknowledgement can go out.
 */
module StuckRun {
  import opened Arith
  import opened AckVec
  import opened SeqNum
  import opened Messages
  import opened TwoEnded
  import opened ReadBeforeAck
  import L = LostByte
  import S = SendWindow
  import R = RecvWindow
  import SenderSteps

  function Only(a: Byte, b: Byte): DataFrame {
    DataFrame(0, R.Frame(0, 0, 1, [a, b]))
  }

  /** The five states, for windows as in LostByte. */
  function State(a: Byte, b: Byte, i: nat): Sys {
    var off, on := S.Ptr(0, 0, false), S.Ptr(0, 0, true);
    var empty, held := L.Rcv(0, 0, 0, 0, L.FRESH), L.Rcv(0, 0, 1, 0, R.Slot(2, 1, 1, [a, b], true));
    var read := L.Rcv(0, 1, 1, 1, R.Slot(0, 0, 1, [a, b], true));
    var d := Only(a, b);
    match i
    case 0 => Sys(L.Snd(0, [], 0, 0, false), off, [], false, empty, 0, {}, {}, [], [])
    case 1 => Sys(L.Snd(0, [a, b], 0, 0, false), off, [], false, empty, 0, {}, {}, [a, b], [])
    case 2 => Sys(L.Snd(0, [a, b], 0, 0, false), on, [], false, empty, 0, {d}, {}, [a, b], [])
    case 3 => Sys(L.Snd(0, [a, b], 0, 0, false), on, [], false, held, 0, {d}, {}, [a, b], [])
    case _ => Sys(L.Snd(0, [a, b], 0, 0, false), on, [], false, read, 0, {d}, {}, [a, b], [a, b])
  }

  function Events(a: Byte, b: Byte): (es: seq<Event>)
    ensures |es| == 4
  {
    [ Send([a, b]), PollSender(None, 0, true), PollReceiver(Some(Only(a, b)), 0, false), Read(2) ]
  }

  lemma {:induction false} SndForms(cfg: Config, a: Byte, b: Byte, i: nat)
    requires L.Small(cfg) && i <= 4
    ensures S.Valid(cfg.snd, State(a, b, i).s) && S.PtrOk(State(a, b, i).p)
  {
    hide S.Valid;
    L.SndValid(cfg, 0, [], 0, 0, false);
    L.SndValid(cfg, 0, [a, b], 0, 0, false);
  }

  lemma {:induction false} RcvForms(cfg: Config, a: Byte, b: Byte, i: nat)
    requires L.Small(cfg) && i <= 4
    ensures var x := State(a, b, i);
      R.Valid(cfg.rcv, x.r) && forall e :: e in x.net ==> R.FrameOk(cfg.rcv, e.f)
  {
    hide R.Valid;
    L.RcvValid(cfg, L.Rcv(0, 0, 0, 0, L.FRESH), L.FRESH);
    L.RcvValid(cfg, L.Rcv(0, 0, 1, 0, R.Slot(2, 1, 1, [a, b], true)), R.Slot(2, 1, 1, [a, b], true));
    L.RcvValid(cfg, L.Rcv(0, 1, 1, 1, R.Slot(0, 0, 1, [a, b], true)), R.Slot(0, 0, 1, [a, b], true));
  }

  lemma {:induction false} StatesFormed(cfg: Config, a: Byte, b: Byte, i: nat)
    requires L.Small(cfg) && i <= 4
    ensures Formed(cfg, State(a, b, i)) && L.Facts(cfg)
  {
    hide S.Valid, R.Valid, S.PtrOk, State;
    L.SmallFacts(cfg);
    SndForms(cfg, a, b, i);
    RcvForms(cfg, a, b, i);
  }

  lemma {:induction false} Step0(cfg: Config, a: Byte, b: Byte)
    requires L.Small(cfg)
    ensures Step(cfg, State(a, b, 0), Events(a, b)[0], State(a, b, 1))
  {
    hide Rem, Mul, Quo, Mask, FirstClear, Has, Within, R.Marks, Mark, Wire, SegCount, S.Cut, Flatten, S.Send, S.Taken;
    StatesFormed(cfg, a, b, 0);
    L.SendNew(cfg, 0, [a, b], 0);
    assert [] + [a, b][..2] == [a, b];
  }

  lemma {:induction false} Step1(cfg: Config, a: Byte, b: Byte)
    requires L.Small(cfg)
    ensures Step(cfg, State(a, b, 1), Events(a, b)[1], State(a, b, 2))
  {
    hide Rem, Mul, Quo, Mask, FirstClear, Has, Within, R.Marks, Mark, Wire, SegCount, S.Cut, Flatten, S.Flush, S.Valid, R.Valid;
    StatesFormed(cfg, a, b, 1);
    var x, y := State(a, b, 1), State(a, b, 2);
    SenderSteps.AckedCases(x, None);
    assert S.StepAll(x.s.msgs, 0) == x.s.msgs;
    assert TimedSys(cfg, x, 0) == x;
    assert S.Scan(x.s, x.p, 0) == 0;
    assert Cut([a, b], 0, cfg.snd.segLen) == [a, b];
    assert EmitSys(cfg, x) == y;
  }

  lemma {:induction false} Step2(cfg: Config, a: Byte, b: Byte)
    requires L.Small(cfg)
    ensures Step(cfg, State(a, b, 2), Events(a, b)[2], State(a, b, 3))
  {
    hide Rem, Mul, Quo, Mask, FirstClear, Has, Within, R.Marks, Mark, Wire, SegCount, S.Cut, Flatten, R.Receive, R.Stored, R.Reach;
    StatesFormed(cfg, a, b, 2);
    L.ReceiveNext(cfg, 0, L.FRESH, [a, b]);
    assert [a, b] + L.FRESH.data[2..] == [a, b];
  }

  lemma {:induction false} Step3(cfg: Config, a: Byte, b: Byte)
    requires L.Small(cfg)
    ensures Step(cfg, State(a, b, 3), Events(a, b)[3], State(a, b, 4))
  {
    hide Rem, Mul, Quo, Mask, FirstClear, Has, Within, R.Marks, Mark, Wire, SegCount, S.Cut, Flatten, R.Read;
    StatesFormed(cfg, a, b, 3);
    L.ReadNext(cfg, 0, R.Slot(2, 1, 1, [a, b], true), [a, b]);
    assert [] + [a, b] == [a, b];
  }

  lemma {:induction false} EndsStuck(cfg: Config, a: Byte, b: Byte)
    requires L.Small(cfg)
    ensures cfg.Valid() && State(a, b, 0) == Init(cfg)
    ensures Stuck(cfg, State(a, b, 4), 0)
  {
    hide Rem, Mul, Quo, Mask, Wire, SegCount, FirstClear, Has, Within, R.Marks, Mark;
    L.SmallFacts(cfg);
    L.StartsFresh(cfg, a, b, 0, 0);
    assert Sealed(State(a, b, 4)) == [[a, b]];
  }

  /**
   * Four steps within the guards lead to a message that is stuck; by ReadBeforeAckIsStuck it is in the
   * send window for the rest of any run that goes on from there.
   */
  lemma {:induction false} GuardedRunGetsStuck(cfg: Config, a: Byte, b: Byte, xs: seq<Sys>)
    requires L.Small(cfg) && |xs| == 5 && forall i :: 0 <= i <= 4 ==> xs[i] == State(a, b, i)
    ensures Run(cfg, xs, Events(a, b))
    ensures cfg.snd.segLen > 0 && Stuck(cfg, xs[4], 0)
  {
    hide Step, State, Events, Init, Stuck;
    EndsStuck(cfg, a, b);
    Step0(cfg, a, b);
    Step1(cfg, a, b);
    Step2(cfg, a, b);
    Step3(cfg, a, b);
    forall i | 0 <= i < 4 ensures Step(cfg, xs[i], Events(a, b)[i], xs[i + 1]) {
      assert i == 0 || i == 1 || i == 2 || i == 3;
    }
  }
}
