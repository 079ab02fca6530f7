/** Bursts of send polls in the reachable states of a two-ended run. */
module RunBursts {
  import opened Arith
  import opened AckVec
  import opened Messages
  import opened TwoEnded
  import B = Burst
  import S = SendWindow
  import I = RecvInvariant
  import Safety

  /** In a reachable state every message whose timer has run out has a vector that counts its segments. */
  lemma {:induction false} InvReady(cfg: Config, x: Sys)
    requires Inv(cfg, x) && !(x.s.tinyOn && x.s.tiny == 0)
    ensures B.Ready(cfg.snd, x.s) && S.PtrOk(x.p)
  {
    hide Mul, Quo, Rem, Flatten, I.Inv, NetInv, AcksInv, PastInv, I.Delivered, I.Got, Has, Mask, Within;
    forall j | 0 <= j < |x.s.msgs| && x.s.msgs[j].rtx == 0 ensures B.Counted(cfg.snd, x.s.msgs[j]) {
      assert MessageInv(cfg, x, j);
      SegCountBounds(|x.s.msgs[j].data|, cfg.snd);
    }
  }

  const QUIET: Event := PollSender(None, 0, true)

  /** hs[i] is what the send poll announces in state n + i of a run that polls quietly from n on. */
  ghost predicate Announces(cfg: Config, xs: seq<Sys>, es: seq<Event>, n: nat, hs: seq<S.SegHdr>) {
    && n + |hs| <= |es| < |xs|
    && forall i :: n <= i < n + |hs| ==>
      && es[i] == QUIET && S.Valid(cfg.snd, xs[i].s) && S.PtrOk(xs[i].p)
      && hs[i - n] == S.Poll(cfg.snd, xs[i].s, xs[i].p, S.NoAck, 0, cfg.rto, true).2
  }

  /** The polls of a run follow one another as the send polls do. */
  lemma {:induction false} RunPolls(cfg: Config, xs: seq<Sys>, es: seq<Event>, n: nat, hs: seq<S.SegHdr>)
    requires Run(cfg, xs, es) && Announces(cfg, xs, es, n, hs)
    ensures B.Polls(cfg.snd, xs[n].s, xs[n].p, cfg.rto, hs)
    decreases |hs|
  {
    hide Inv, S.Poll, S.Valid, S.PtrOk, Enabled, Next, Formed;
    if hs != [] {
      Safety.RunInv(cfg, xs, es, n);
      assert Step(cfg, xs[n], es[n], xs[n + 1]);
      Safety.SenderPolls(cfg, xs[n], None, 0, true);
      RunPolls(cfg, xs, es, n + 1, hs[1..]);
    }
  }

  /**
   * In every run: from any state whose pointer is invalid and whose tinygram timer is not spent, polls
   * without an acknowledgement and without passing time announce exactly the missing segments of the
   * messages whose timer is zero, once each, in window and segment order, and after them nothing.
   */
  lemma {:induction false} RunBurstEnumerates(cfg: Config, xs: seq<Sys>, es: seq<Event>, n: nat, hs: seq<S.SegHdr>)
    requires Run(cfg, xs, es) && Announces(cfg, xs, es, n, hs) && cfg.rto > 0
    requires !xs[n].p.valid && !(xs[n].s.tinyOn && xs[n].s.tiny == 0)
    ensures cfg.snd.segLen > 0 && hs == B.Padded(B.Due(cfg.snd, xs[n].s, -1, 0), |hs|)
  {
    hide Inv, B.Polls, B.Due, B.Ready, Step, Announces;
    RunPolls(cfg, xs, es, n, hs);
    assert n <= |es| by { AnnouncesWithin(cfg, xs, es, n, hs); }
    Safety.RunInv(cfg, xs, es, n);
    InvReady(cfg, xs[n]);
    B.BurstEnumerates(cfg.snd, xs[n].s, xs[n].p, cfg.rto, hs);
  }

  lemma {:induction false} AnnouncesWithin(cfg: Config, xs: seq<Sys>, es: seq<Event>, n: nat, hs: seq<S.SegHdr>)
    requires Announces(cfg, xs, es, n, hs)
    ensures n <= |es| < |xs|
  {
  }
}
