/** What a flush does as a whole: how much it admits, what it clears, that a second one has
    nothing left to say, and what it makes of losses. */
module Flushing {
  import opened SerialNumbers
  import opened Segments
  import opened SendSide
  import opened Engine
  import opened Shape
  import opened Robustness
  import opened Channel
  import opened Retransmission

  // ----- admission -------------------------------------------------------------------------------------

  /** How many segments may be outstanding: the smallest of the send window, the peer's
      window and, unless it is switched off, the congestion window. */
  function Allowed(cfg: Config, c: Congestion): nat {
    if cfg.noCwnd then Min(cfg.sndWnd, c.rmtWnd) else Min(Min(cfg.sndWnd, c.rmtWnd), c.cwnd)
  }

  /** Segment `i` of those a flush looks at: one that was outstanding, or a new one. */
  function Outstanding(e: Engine, i: nat): SendSeg
    requires i < |e.snd.buf| + |e.snd.queue|
  {
    var n := |e.snd.buf|;
    if i < n then e.snd.buf[i]
    else SendSeg(e.snd.nxt + (i - n), e.snd.queue[i - n], e.current, e.rtt.rto, 0, 0)
  }

  /** Admission numbers as many queued segments as the windows allow, in order, behind those
      outstanding already, and leaves the rest queued. */
  lemma AdmittedExactly(cfg: Config, e: Engine)
    requires cfg.Valid() && Ok(cfg, e)
    ensures var t := Admitted(Exact, cfg, e); var m := t.nxt - e.snd.nxt;
      && t.una == e.snd.una
      && t.nxt == Max(e.snd.nxt, Min(e.snd.nxt + |e.snd.queue|, e.snd.una + Allowed(cfg, e.cong)))
      && t.queue == e.snd.queue[m..] && |t.buf| == |e.snd.buf| + m
      && (forall i :: 0 <= i < |t.buf| ==> t.buf[i] == Outstanding(e, i))
  {
    hide Admit, Ok;
    var m := AdmitPrefix(e.snd, SendWindow(cfg, e.cong), e.current, e.rtt.rto);
    var t, n := Admitted(Exact, cfg, e), |e.snd.buf|;
    forall i | 0 <= i < |t.buf| ensures t.buf[i] == Outstanding(e, i) {
      if i < n { assert t.buf[i] == t.buf[..n][i]; }
    }
  }

  /** So does a flush, which then leaves every segment of `snd_buf` its place and number. */
  lemma FlushAdmits(cfg: Config, e: Engine)
    requires cfg.Valid() && Ok(cfg, e)
    ensures var t := FlushState(Exact, cfg, e).snd; var m := t.nxt - e.snd.nxt;
      && t.una == e.snd.una
      && t.nxt == Max(e.snd.nxt, Min(e.snd.nxt + |e.snd.queue|, e.snd.una + Allowed(cfg, e.cong)))
      && t.queue == e.snd.queue[m..] && |t.buf| == |e.snd.buf| + m
      && (forall i :: 0 <= i < |t.buf| ==>
            t.buf[i].sn == Outstanding(e, i).sn && t.buf[i].frag == Outstanding(e, i).frag)
  {
    hide Admitted, Reduce, ProbeTimer, U32, Ok, CountCause, ReachesDeadLink, CauseOf, Transmit, Allowed, Outstanding;
    AdmittedExactly(cfg, e);
    var buf := Admitted(Exact, cfg, e).buf;
    forall i | 0 <= i < |buf|
      ensures Transmit(TxOf(cfg, e), buf[i]).sn == buf[i].sn && Transmit(TxOf(cfg, e), buf[i]).frag == buf[i].frag
    {
      TransmitCounts(TxOf(cfg, e), buf[i]);
    }
  }

  /** The very first flush: it sends as many fragments as the default peer window and the
      send window hold; with congestion control it sends none, and opens the window to one. */
  lemma FirstFlush(cfg: Config, msg: Bytes, now: u32)
    requires cfg.Valid() && Sendable(cfg.Mss(), msg)
    ensures var e := Update(Exact, cfg, Send(cfg, Create(), msg).0, now).0;
      && e.snd.nxt == (if cfg.noCwnd then Min(FragCount(cfg.Mss(), |msg|), Min(cfg.sndWnd, 32)) else 0)
      && (!cfg.noCwnd ==> e.cong.cwnd == 1 && e.cong.ssthresh == 2)
      && (forall i :: 0 <= i < |e.snd.buf| ==>
            && e.snd.buf[i].sn == i && e.snd.buf[i].xmit == 1 && e.snd.buf[i].rto == 200
            && e.snd.buf[i].resendts == U32(now + if cfg.nodelay then 200 else 225))
  {
    hide U32, FlushSegs, Pack, Admitted, TimeDiff, FragCount, Fragments, Sendable, FlushState, Emissions;
    var e0 := Send(cfg, Create(), msg).0;
    CreateOk(cfg);
    SendOk(cfg, Create(), msg);
    var (pace, due) := Tick(e0.pace, cfg.interval, now);
    FirstTick(e0.pace, cfg.interval, now);
    var e1 := e0.(current := now, pace := pace);
    FlushAdmits(cfg, e1);
    AdmittedExactly(cfg, e1);
    if !cfg.noCwnd { NothingLostYet(cfg, e1); }
    var e := FlushState(Exact, cfg, e1);
    SmallU32(200);
    SmallU32(225);
    SmallU32(1);
    forall i | 0 <= i < |e.snd.buf|
      ensures e.snd.buf[i].sn == i && e.snd.buf[i].xmit == 1 && e.snd.buf[i].rto == 200
      ensures e.snd.buf[i].resendts == U32(now + if cfg.nodelay then 200 else 225)
    {
      FlushDiscipline(cfg, e1, i);
    }
  }

  lemma FirstTick(p: Pace, interval: u32, now: u32)
    requires !p.updated
    ensures Tick(p, interval, now).0.updated && Tick(p, interval, now).1
  {
    assert TimeDiff(now, now) == 0;
  }

  lemma NothingLostYet(cfg: Config, e: Engine)
    requires cfg.Valid() && Ok(cfg, e) && !cfg.noCwnd
    requires e.snd.buf == [] && e.snd.nxt == e.snd.una == 0 && e.cong.cwnd == 0
    ensures FlushState(Exact, cfg, e).cong.cwnd == 1 && FlushState(Exact, cfg, e).cong.ssthresh == e.cong.ssthresh
  {
    hide U32, ProbeTimer, CauseOf;
    AdmittedExactly(cfg, e);
  }

  // ----- a second flush ------------------------------------------------------------------------------------

  /** After a flush nothing is pending: no acknowledgement, no question and no answer. */
  lemma FlushClears(cfg: Config, e: Engine)
    requires cfg.Valid() && Ok(cfg, e)
    ensures var e' := FlushState(Exact, cfg, e);
      && e'.acks == [] && !e'.probe.ask && !e'.probe.tell
      && e'.rcv == e.rcv && e'.rtt == e.rtt && e'.pace == e.pace && e'.current == e.current
      && e'.cong.rmtWnd == e.cong.rmtWnd
      && !ProbeTimer(e'.probe, e'.cong.rmtWnd, e'.current).ask
  {
    hide Admitted, U32, TimeDiff, ProbeTimer, CountCause, ReachesDeadLink;
    var p := ProbeTimer(e.probe, e.cong.rmtWnd, e.current);
    ProbeDiscipline(e.probe, e.cong.rmtWnd, e.current);
    ProbeDiscipline(p.(ask := false, tell := false), e.cong.rmtWnd, e.current);
  }

  /** So each pending acknowledgement and each probe is sent once: a second flush sends
      nothing but data. */
  lemma OnlyDataIsRepeated(cfg: Config, e: Engine)
    requires cfg.Valid() && Ok(cfg, e)
    ensures forall s :: s in FlushSegs(Exact, cfg, FlushState(Exact, cfg, e)) ==> s.cmd == CMD_PUSH
  {
    hide FlushSegs, FlushState, Admitted, ProbeTimer, WndUnused, Due;
    FlushClears(cfg, e);
    FlushSegsKinds(Exact, cfg, FlushState(Exact, cfg, e));
  }

  /** And exactly when a second flush at the same time sends segment `i` again: its deadline
      counts as passed at once, or it timed out while at the fast-resend threshold, or its
      count of emissions has wrapped. In particular a fast-resent segment is sent once. */
  lemma SecondFlush(cfg: Config, e: Engine, i: nat)
    requires cfg.Valid() && Ok(cfg, e) && i < |Admitted(Exact, cfg, e).buf|
    ensures var s := Admitted(Exact, cfg, e).buf[i];
      var late := TimeDiff(e.current, s.resendts) >= 0;
      var sends := s.xmit == 0 || late || s.fastack >= Threshold(cfg);
      var next := NextTimeout(Tx(e.current, e.rtt.rto, cfg.nodelay, Threshold(cfg)), s);
      Emissions(FlushSegs(Exact, cfg, FlushState(Exact, cfg, e)), s.sn) ==
        if sends && (|| !(0 < next <= TWO31)
                     || ((s.xmit == 0 || late) && s.fastack >= Threshold(cfg))
                     || s.xmit == TWO32 - 1) then 1 else 0
  {
    hide FlushSegs, FlushState, Admitted, TimeDiff, Emissions, Ok, NextTimeout;
    var e' := FlushState(Exact, cfg, e);
    FlushStateOk(cfg, e);
    FlushClears(cfg, e);
    FlushDiscipline(cfg, e, i);
    AdmittedExactly(cfg, e);
    FlushAdmits(cfg, e);
    AdmittedExactly(cfg, e');
    FlushDiscipline(cfg, e', i);
    assert Admitted(Exact, cfg, e').buf[i] == e'.snd.buf[i];
  }

  // ----- losses ------------------------------------------------------------------------------------------------

  /** A segment that was sent before and whose deadline has passed. */
  predicate TimedOut(now: u32, s: SendSeg) { s.xmit != 0 && TimeDiff(now, s.resendts) >= 0 }

  /** A segment that was sent before, has time left, and was overtaken often enough. */
  predicate Overtaken(now: u32, threshold: u32, s: SendSeg) {
    s.xmit != 0 && TimeDiff(now, s.resendts) < 0 && s.fastack >= threshold
  }

  /** The places of `buf` that timed out. */
  ghost function Late(now: u32, buf: seq<SendSeg>): set<int> {
    set i | 0 <= i < |buf| && TimedOut(now, buf[i])
  }

  lemma {:induction false} TimeoutsCounted(tx: Tx, buf: seq<SendSeg>)
    ensures CountCause(tx, buf, Timeout) == |Late(tx.now, buf)|
  {
    hide TimeDiff;
    if buf == [] {
      assert Late(tx.now, buf) == {};
    } else {
      var n := |buf| - 1;
      TimeoutsCounted(tx, buf[..n]);
      var x, y := Late(tx.now, buf[..n]), Late(tx.now, buf);
      if TimedOut(tx.now, buf[n]) {
        assert y == x + {n};
      } else {
        assert y == x;
      }
    }
  }

  lemma {:induction false} OvertakenCounted(tx: Tx, buf: seq<SendSeg>)
    ensures CountCause(tx, buf, FastResend) > 0 <==>
      exists i :: 0 <= i < |buf| && Overtaken(tx.now, tx.resent, buf[i])
  {
    hide TimeDiff;
    if buf != [] {
      var n := |buf| - 1;
      OvertakenCounted(tx, buf[..n]);
      assert forall i :: 0 <= i < n ==> buf[..n][i] == buf[i];
      if i :| 0 <= i < n && Overtaken(tx.now, tx.resent, buf[i]) {
        assert Overtaken(tx.now, tx.resent, buf[..n][i]);
      }
    }
  }

  /** What a flush makes of losses: `xmit` counts the segments that timed out; the link is
      dead once a segment has been sent `dead_link` times. A timeout shuts the congestion
      window to one segment and sets the threshold to half of what was allowed; otherwise a
      fast resend sets the threshold to half of what is outstanding, and the window that many
      segments plus the fast-resend threshold; neither threshold is below two. Without losses
      the window stays, but is at least one. */
  lemma FlushLosses(cfg: Config, e: Engine)
    requires cfg.Valid() && Ok(cfg, e)
    ensures var e' := FlushState(Exact, cfg, e); var buf, now, c := Admitted(Exact, cfg, e).buf, e.current, e'.cong;
      var lost := exists i :: 0 <= i < |buf| && TimedOut(now, buf[i]);
      var change := exists i :: 0 <= i < |buf| && Overtaken(now, Threshold(cfg), buf[i]);
      && e'.xmit == U32(e.xmit + |Late(now, buf)|)
      && c.rmtWnd == e.cong.rmtWnd
      && (lost ==> c.cwnd == 1 && c.incr == cfg.Mss() && c.ssthresh == Max(2, Allowed(cfg, e.cong) / 2))
      && (!lost && change ==>
            && c.ssthresh == Max(2, (e'.snd.nxt - e'.snd.una) / 2)
            && c.cwnd == Max(1, U32(c.ssthresh + Threshold(cfg)))
            && c.incr == U32(c.cwnd * cfg.Mss()))
      && (!lost && !change ==>
            && c.ssthresh == e.cong.ssthresh && c.cwnd == Max(1, e.cong.cwnd)
            && c.incr == if e.cong.cwnd == 0 then cfg.Mss() else e.cong.incr)
  {
    hide Admitted, ProbeTimer, CountCause, ReachesDeadLink, TimeDiff, U32, Ok;
    var tx, buf := TxOf(cfg, e), Admitted(Exact, cfg, e).buf;
    TimeoutsCounted(tx, buf);
    OvertakenCounted(tx, buf);
    SomeLate(e.current, buf);
    OutstandingFits(cfg, e);
    SmallU32(cfg.Mss());
  }

  lemma SomeLate(now: u32, buf: seq<SendSeg>)
    ensures |Late(now, buf)| > 0 <==> exists i :: 0 <= i < |buf| && TimedOut(now, buf[i])
  {
    hide TimedOut;
    if i :| 0 <= i < |buf| && TimedOut(now, buf[i]) {
      assert i in Late(now, buf);
    }
    if |Late(now, buf)| > 0 {
      var i :| i in Late(now, buf);
    }
  }

  lemma OutstandingFits(cfg: Config, e: Engine)
    requires cfg.Valid() && Ok(cfg, e)
    ensures var t := Admitted(Exact, cfg, e); U32(t.nxt - t.una) == t.nxt - t.una
  {
    AdmitShape(e.snd, cfg.sndWnd, SendWindow(cfg, e.cong), e.current, e.rtt.rto);
  }

  /** A segment just sent for the `dead_link`-th time or later. */
  predicate GivenUp(cfg: Config, before: SendSeg, after: SendSeg) {
    after.xmit != before.xmit && after.xmit >= cfg.deadLink
  }

  /** The link is given up on once, and only once, some segment has been sent `dead_link`
      times or more. */
  lemma DeadExactly(cfg: Config, e: Engine)
    requires cfg.Valid() && Ok(cfg, e)
    ensures var e' := FlushState(Exact, cfg, e); var buf := Admitted(Exact, cfg, e).buf;
      e'.dead <==> e.dead || exists i :: 0 <= i < |buf| && GivenUp(cfg, buf[i], e'.snd.buf[i])
  {
    hide Admitted, ProbeTimer, CountCause, TimeDiff, U32, Ok, CauseOf, Transmit;
    var tx, buf := TxOf(cfg, e), Admitted(Exact, cfg, e).buf;
    forall i | 0 <= i < |buf| ensures CauseOf(tx, buf[i]) != Wait <==> Transmit(tx, buf[i]).xmit != buf[i].xmit {
      EmissionCounts(tx, buf[i]);
    }
  }

  lemma EmissionCounts(tx: Tx, s: SendSeg)
    ensures CauseOf(tx, s) != Wait <==> Transmit(tx, s).xmit != s.xmit
  {
    hide TimeDiff;
  }
}
