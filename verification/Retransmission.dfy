/** Which segments a flush emits, and the deadlines it leaves behind. */
module Retransmission {
  import opened SerialNumbers
  import opened Segments
  import opened SendSide
  import opened RecvSide
  import opened Engine
  import opened Shape
  import opened Robustness
  import opened Channel
  import Rtt

  /** A deadline `r` milliseconds ahead counts as not yet passed exactly when `r`, as an
      unsigned 32-bit number, is positive and at most 2^31. */
  lemma DeadlineAhead(now: u32, r: u32)
    ensures TimeDiff(now, U32(now + r)) < 0 <==> 0 < r <= TWO31
  {
    if r <= TWO31 {
      if r > 0 {
        TimeDiffExact(now, now + r);
      } else {
        assert U32(now) == now;
      }
    } else {
      U32Shift(now + r, -1);
      TimeDiffExact(now, now + r - TWO32);
    }
  }

  /** The timeout with which a flush leaves a segment, told from what the segment and the
      flush know beforehand. */
  function NextTimeout(tx: Tx, s: SendSeg): u32 {
    if s.xmit == 0 then U32(tx.rto + if tx.nodelay then 0 else tx.rto / 8)
    else if TimeDiff(tx.now, s.resendts) >= 0 then U32(s.rto + if tx.nodelay then tx.rto / 2 else tx.rto)
    else s.rto
  }

  /** Exactly when the deadline lies ahead after a flush has looked at a segment: it was left
      alone, or its next timeout is positive and at most 2^31 milliseconds. */
  lemma DeadlineExact(tx: Tx, s: SendSeg)
    ensures TimeDiff(tx.now, Transmit(tx, s).resendts) < 0 <==>
      CauseOf(tx, s) == Wait || 0 < NextTimeout(tx, s) <= TWO31
    ensures CauseOf(tx, s) != Wait ==> Transmit(tx, s).resendts == U32(tx.now + NextTimeout(tx, s))
  {
    hide U32, TimeDiff;
    var r := NextTimeout(tx, s);
    DeadlineAhead(tx.now, r);
    if CauseOf(tx, s) == New {
      var wait := tx.rto + if tx.nodelay then 0 else tx.rto / 8;
      U32Plus(wait, tx.now);
      assert U32(wait) + tx.now == tx.now + r;
    }
  }

  /** In a well-formed engine that is so for the first 35791 emissions of every segment. */
  lemma DeadlineAfterTransmit(cfg: Config, tx: Tx, s: SendSeg)
    requires cfg.Valid() && TimerOk(cfg, s) && cfg.minRto <= tx.rto <= Rtt.RTO_MAX && s.xmit < XMIT_LIMIT
    ensures TimeDiff(tx.now, Transmit(tx, s).resendts) < 0
  {
    DeadlineExact(tx, s);
    TransmitOk(cfg, tx, s);
  }

  /** The property fails beyond: two segments that have been sent very often, one fast resent
      and one timed out, whose new deadline counts as passed already, so that they are sent in
      every flush from then on. */
  lemma DeadlineCanBePassed()
    ensures var tx := Tx(0, 200, false, 2);
      var fast := SendSeg(5, Frag(0, []), 0x7000_0000, 0x8000_0001, 3, 40000);
      var late := SendSeg(5, Frag(0, []), 0, 0x7fff_ffff, 0, 40000);
      && CauseOf(tx, fast) == FastResend && TimeDiff(tx.now, Transmit(tx, fast).resendts) >= 0
      && CauseOf(tx, late) == Timeout && TimeDiff(tx.now, Transmit(tx, late).resendts) >= 0
  {
  }

  /** A segment that is sent again exactly at its deadline, `n` times, with a timeout of one
      minute in the estimator. */
  function Retries(s: SendSeg, n: nat): SendSeg {
    if n == 0 then s
    else var t := Retries(s, n - 1); Transmit(Tx(t.resendts, Rtt.RTO_MAX, false, 0xffff_ffff), t)
  }

  lemma {:induction false} RetriesCount(s: SendSeg, n: nat)
    requires s.xmit == 1 && s.rto == Rtt.RTO_MAX && n <= XMIT_LIMIT
    ensures Retries(s, n).xmit == n + 1 && Retries(s, n).rto == Rtt.RTO_MAX * (n + 1)
  {
    if n > 0 {
      RetriesCount(s, n - 1);
      var t := Retries(s, n - 1);
      assert TimeDiff(t.resendts, t.resendts) == 0;
    }
  }

  /** 35791 is the most that holds for: emission 35792 can leave a passed deadline. */
  lemma EmissionLimitIsTight(s: SendSeg)
    requires s.xmit == 1 && s.rto == Rtt.RTO_MAX
    ensures var t, u := Retries(s, XMIT_LIMIT - 1), Retries(s, XMIT_LIMIT);
      u.xmit == XMIT_LIMIT + 1 && TimeDiff(t.resendts, u.resendts) >= 0
  {
    hide Retries;
    RetriesCount(s, XMIT_LIMIT - 1);
    RetriesCount(s, XMIT_LIMIT);
    RetriesStep(s, XMIT_LIMIT);
    var t := Retries(s, XMIT_LIMIT - 1);
    var tx := Tx(t.resendts, Rtt.RTO_MAX, false, 0xffff_ffff);
    assert TimeDiff(t.resendts, t.resendts) == 0;
    DeadlineExact(tx, t);
  }

  lemma RetriesStep(s: SendSeg, n: nat)
    requires n > 0
    ensures var t := Retries(s, n - 1); Retries(s, n) == Transmit(Tx(t.resendts, Rtt.RTO_MAX, false, 0xffff_ffff), t)
  {
  }

  /** `fastresend` as a threshold: never, when it is zero. */
  function Threshold(cfg: Config): u32 { if cfg.fastResend == 0 then 0xffff_ffff else cfg.fastResend }

  /** One flush, segment by segment: after new segments have been admitted, segment `i` is
      emitted once if it is new, past its deadline or at the fast-resend threshold, and not at
      all otherwise. Its number and payload stay; `xmit` counts the emission, modulo 2^32; a
      fast resend, and nothing else, clears `fastack`; and an emission sets the deadline to
      the next timeout from now. The deadline then lies ahead exactly when the segment was
      left alone or that timeout is positive and at most 2^31, which is so for the first
      35791 emissions. */
  lemma FlushDiscipline(cfg: Config, e: Engine, i: nat)
    requires cfg.Valid() && Ok(cfg, e) && i < |Admitted(Exact, cfg, e).buf|
    ensures var s := Admitted(Exact, cfg, e).buf[i];
      var s' := FlushState(Exact, cfg, e).snd.buf[i];
      var late := TimeDiff(e.current, s.resendts) >= 0;
      var sends := s.xmit == 0 || late || s.fastack >= Threshold(cfg);
      var next := NextTimeout(Tx(e.current, e.rtt.rto, cfg.nodelay, Threshold(cfg)), s);
      && Emissions(FlushSegs(Exact, cfg, e), s.sn) == (if sends then 1 else 0)
      && s'.sn == s.sn && s'.frag == s.frag
      && s'.xmit == (if sends then U32(s.xmit + 1) else s.xmit)
      && (s'.xmit >= 1 <==> s.xmit != TWO32 - 1 || !sends)
      && s'.fastack == (if s.xmit != 0 && !late && s.fastack >= Threshold(cfg) then 0 else s.fastack)
      && s'.rto == (if s.xmit == 0 then e.rtt.rto else next)
      && s'.resendts == (if sends then U32(e.current + next) else s.resendts)
      && (TimeDiff(e.current, s'.resendts) < 0 <==> !sends || 0 < next <= TWO31)
      && (s.xmit < XMIT_LIMIT ==> TimeDiff(e.current, s'.resendts) < 0)
  {
    hide FlushSegs, Admit, Reduce, ProbeTimer, Emissions, U32, TimeDiff;
    var tx := TxOf(cfg, e);
    var s := Admitted(Exact, cfg, e).buf[i];
    FlushEmissions(cfg, e, i);
    TransmitCounts(tx, s);
    NextCount(s.xmit);
    AdmitOk(cfg, e.snd, SendWindow(cfg, e.cong), e.current, e.rtt.rto);
    DeadlineExact(tx, s);
    if s.xmit < XMIT_LIMIT { DeadlineAfterTransmit(cfg, tx, s); }
  }

  lemma NextCount(x: u32)
    ensures U32(x + 1) == 0 <==> x == TWO32 - 1
  {
  }

  /** The data segments of a flush come in the order of their numbers. */
  lemma {:induction false} DueIncreasing(tx: Tx, buf: seq<SendSeg>)
    requires Increasing(buf)
    ensures Increasing(Due(tx, buf))
  {
    hide CauseOf;
    if buf != [] {
      var n := |buf| - 1;
      var front := Due(tx, buf[..n]);
      DueIncreasing(tx, buf[..n]);
      DueElements(tx, buf[..n]);
      forall i | 0 <= i < |front| ensures front[i].sn < buf[n].sn {
        assert front[i] in front;
      }
    }
  }

  /** The zero-window probe timer: off while the peer has room, otherwise waiting between 7
      and 120 seconds. It asks for a probe exactly when its time has come, and then waits half
      as long again, with the next time ahead. */
  lemma ProbeDiscipline(p: Probe, rmtWnd: u32, now: u32)
    requires ProbeOk(p)
    ensures var q := ProbeTimer(p, rmtWnd, now);
      && (rmtWnd != 0 <==> q.wait == 0)
      && ProbeOk(q)
      && (q.ask <==> p.ask || (rmtWnd == 0 && p.wait != 0 && TimeDiff(now, p.ts) >= 0))
      && q.tell == p.tell
      && (rmtWnd == 0 && (p.wait == 0 || TimeDiff(now, p.ts) >= 0) ==>
            && TimeDiff(now, q.ts) < 0 && TimeDiff(q.ts, now) == q.wait
            && q.wait == if p.wait == 0 then 7000 else Min(p.wait + p.wait / 2, 120000))
      && (rmtWnd == 0 && p.wait != 0 && TimeDiff(now, p.ts) < 0 ==> q == p)
  {
    hide U32, I32;
    var q := ProbeTimer(p, rmtWnd, now);
    SmallU32(p.wait + p.wait / 2);
    SmallU32(now);
    TimeDiffExact(now, now + q.wait);
    TimeDiffExact(now + q.wait, now);
  }

  lemma SmallU32(x: nat)
    ensures x < TWO32 ==> U32(x) == x
  {
  }

  // ----- window announcements and congestion ------------------------------------------------------

  /** Whether the next flush tells the peer how much room there is. */
  ghost predicate Announces(cfg: Config, e: Engine) {
    exists s :: s in FlushSegs(Exact, cfg, e) && s.cmd == CMD_WINS && s.wnd == WndUnused(cfg, e.rcv)
  }

  lemma TellAnnounces(cfg: Config, e: Engine)
    requires e.probe.tell
    ensures Announces(cfg, e)
  {
    hide AckSegs, PushSegs, Due, Admitted, WndUnused;
    var p := ProbeTimer(e.probe, e.cong.rmtWnd, e.current);
    var last := if e.acks == [] then Ack(0, 0) else e.acks[|e.acks| - 1];
    var s := Control(cfg, e.rcv, CMD_WINS, last);
    assert s in ProbeSegs(cfg, e.rcv, e.acks, p);
    assert s in FlushSegs(Exact, cfg, e);
  }

  /** A receive call that makes room in a full queue, and a peer's question, are both answered
      by a window announcement in the next flush. */
  lemma WindowIsAnnounced(cfg: Config, e: Engine, len: int, s: Segment)
    ensures var (e', res) := Recv(Exact, cfg, e, len);
      res.Message? && |e.rcv.queue| >= cfg.rcvWnd && |e'.rcv.queue| < cfg.rcvWnd ==> Announces(cfg, e')
    ensures s.cmd == CMD_WASK ==> Announces(cfg, InputSeg(Exact, cfg, e, s))
  {
    hide Take, TakeUna, Announces;
    var e' := Recv(Exact, cfg, e, len).0;
    if e'.probe.tell { TellAnnounces(cfg, e'); }
    if s.cmd == CMD_WASK { TellAnnounces(cfg, InputSeg(Exact, cfg, e, s)); }
  }

  /** Window growth takes at most one step and does not go past the peer's window. */
  lemma GrowthBounded(mss: int, c: Congestion)
    requires 0 < mss < TWO31
    ensures var d := Grow(mss, c);
      && d.rmtWnd == c.rmtWnd && d.ssthresh == c.ssthresh
      && (c.cwnd < c.rmtWnd ==> c.cwnd <= d.cwnd <= c.cwnd + 1 && d.cwnd <= c.rmtWnd)
      && (c.cwnd >= c.rmtWnd ==> d == c)
      && (c.cwnd < c.rmtWnd && c.cwnd < c.ssthresh ==> d.cwnd == c.cwnd + 1)
  {
    SmallU32(c.cwnd + 1);
    hide U32;
  }
}
