/** How the congestion window grows. The test in the congestion-avoidance branch of
    `ikcp_input` lets the window grow when it should hold it back, so that above the
    threshold it grows just as below: by one for every datagram that moves `snd_una`. */
module CongestionWindow {
  import opened SerialNumbers
  import opened Segments
  import opened SendSide
  import opened RecvSide
  import opened Engine
  import opened Refinement32
  import opened Robustness
  import opened Wire
  import opened Retransmission
  import opened Flushing
  import opened Feedback

  /** The largest congestion window that can come about. */
  function Cap(cfg: Config): nat { Max(65535, cfg.sndWnd / 2 + 2 + cfg.fastResend) }

  /** Parameters with which the byte count of the window fits 32 bits. */
  predicate Tame(cfg: Config) { cfg.Valid() && Cap(cfg) * cfg.Mss() < TWO32 }

  /** Products, kept out of sight of the solver. */
  function Times(x: int, y: int): int { x * y }

  lemma TimesGrows(x: int, y: int, m: int)
    requires x <= y && m >= 0
    ensures Times(x, m) <= Times(y, m) && Times(y + 1, m) == Times(y, m) + m
  {
    assert (y - x) * m >= 0;
  }

  lemma TimesTwice(d: int, m: int, incr: int)
    requires d >= 0 && incr >= 2 * m
    ensures Times(d, incr) >= Times(2 * d, m)
  {
    assert d * (incr - 2 * m) >= 0;
  }

  /** A square over at least twice its root is at most half the root. */
  lemma HalfRoot(q: nat, m: nat, incr: nat)
    requires m > 0 && q <= Times(m, m) && incr >= 2 * m
    ensures 0 <= 2 * (q / incr) <= m
  {
    var d := q / incr;
    DivisionBounds(q, incr);
    TimesTwice(d, m, incr);
    if 2 * d > m {
      TimesGrows(m + 1, 2 * d, m);
      TimesGrows(m, m, m);
    }
  }

  lemma U32Below(x: nat)
    ensures 0 <= U32(x) <= x
  {
  }

  /** What every operation keeps: the byte count `incr` is at most the window, and at least
      two segments once the window is. */
  ghost predicate CongOk(cfg: Config, c: Congestion) {
    && c.rmtWnd <= 65535 && c.cwnd <= Cap(cfg) && c.ssthresh >= 2
    && c.incr <= Times(c.cwnd, cfg.Mss())
    && (c.cwnd >= 1 ==> c.incr >= cfg.Mss())
    && (c.cwnd >= 2 ==> c.incr >= 2 * cfg.Mss())
  }

  lemma Fits(cfg: Config, w: nat)
    requires Tame(cfg) && w <= Cap(cfg)
    ensures Times(w, cfg.Mss()) < TWO32 && U32(Times(w, cfg.Mss())) == Times(w, cfg.Mss())
    ensures cfg.Mss() < 65540
  {
    TimesGrows(w, Cap(cfg), cfg.Mss());
    assert w * cfg.Mss() >= 0;
    SmallU32(Times(w, cfg.Mss()));
    TimesGrows(65535, Cap(cfg), cfg.Mss());
    hide U32;
  }

  /** The two branches of the growth, for windows whose byte count fits 32 bits. */
  lemma Slow(mss: int, c: Congestion)
    requires 0 < mss < TWO31 && c.cwnd < c.rmtWnd && c.cwnd < c.ssthresh && c.incr + mss < TWO32
    ensures Grow(mss, c) == c.(cwnd := c.cwnd + 1, incr := c.incr + mss)
  {
    SmallU32(c.cwnd + 1);
    SmallU32(c.incr + mss);
    hide U32;
  }

  lemma AvoidStep(mss: int, incr: u32)
    requires 0 < mss < 65540 && 2 * mss <= incr && incr + mss < TWO32
    ensures incr <= Avoid(mss, incr) <= incr + mss
  {
    var q := U32(Times(mss, mss));
    assert mss * mss >= 0;
    U32Below(Times(mss, mss));
    HalfRoot(q, mss, incr);
    var d := q / incr;
    SmallU32(incr + d + mss / 16);
    hide U32;
    assert Avoid(mss, incr) == U32(incr + d + mss / 16);
  }

  lemma Avoiding(mss: int, c: Congestion)
    requires 0 < mss < TWO31 && c.ssthresh <= c.cwnd < c.rmtWnd
    requires Avoid(mss, c.incr) <= Times(c.cwnd + 1, mss) < TWO32
    ensures Grow(mss, c) == c.(cwnd := c.cwnd + 1, incr := Avoid(mss, c.incr))
  {
    SmallU32(c.cwnd + 1);
    SmallU32(Times(c.cwnd + 1, mss));
    hide U32, Avoid;
  }

  /** Growth: by exactly one, below and above the threshold. */
  lemma GrowsByOne(cfg: Config, c: Congestion)
    requires Tame(cfg) && CongOk(cfg, c)
    ensures var d := Grow(cfg.Mss(), c);
      && CongOk(cfg, d) && d.rmtWnd == c.rmtWnd && d.ssthresh == c.ssthresh
      && d.cwnd == if c.cwnd < c.rmtWnd then c.cwnd + 1 else c.cwnd
  {
    hide U32, Times, Avoid, Grow;
    var m := cfg.Mss();
    if c.cwnd < c.rmtWnd {
      Fits(cfg, c.cwnd + 1);
      TimesGrows(c.cwnd, c.cwnd, m);
      if c.cwnd < c.ssthresh {
        Slow(m, c);
      } else {
        AvoidStep(m, c.incr);
        Avoiding(m, c);
      }
    } else {
      NoGrowth(m, c);
    }
  }

  lemma NoGrowth(mss: int, c: Congestion)
    requires 0 < mss < TWO31 && c.cwnd >= c.rmtWnd
    ensures Grow(mss, c) == c
  {
  }

  // ----- every operation, and every run ------------------------------------------------------------------

  lemma FlushKeepsCong(cfg: Config, e: Engine)
    requires Tame(cfg) && Ok(cfg, e) && CongOk(cfg, e.cong)
    ensures CongOk(cfg, FlushState(Exact, cfg, e).cong)
  {
    hide FlushState, Admitted, U32, Times, TimedOut, Overtaken, Late, Ok, Allowed;
    FlushLosses(cfg, e);
    var e' := FlushState(Exact, cfg, e);
    var c := e'.cong;
    FlushStateOk(cfg, e);
    OkWindow(cfg, e');
    AllowedFits(cfg, e.cong);
    FastWindow(cfg, c.ssthresh);
    Fits(cfg, Max(1, e.cong.cwnd));
    if c.cwnd <= Cap(cfg) { Fits(cfg, c.cwnd); }
    ByteCount(c.cwnd, cfg.Mss());
  }

  lemma OkWindow(cfg: Config, e: Engine)
    requires Ok(cfg, e)
    ensures 0 <= e.snd.nxt - e.snd.una <= cfg.sndWnd
  {
  }

  lemma AllowedFits(cfg: Config, c: Congestion)
    ensures Allowed(cfg, c) <= cfg.sndWnd
  {
  }

  /** The window after a fast resend. */
  lemma FastWindow(cfg: Config, ssthresh: u32)
    requires Tame(cfg) && 2 <= ssthresh
    ensures ssthresh <= cfg.sndWnd / 2 + 2 ==> 1 <= U32(ssthresh + Threshold(cfg)) <= Cap(cfg)
  {
    if ssthresh <= cfg.sndWnd / 2 + 2 {
      if cfg.fastResend == 0 {
        U32Shift(ssthresh - 1, 1);
      } else {
        CapFits(cfg);
      }
    }
  }

  lemma CapFits(cfg: Config)
    requires Tame(cfg)
    ensures Cap(cfg) < TWO32
  {
    hide Cap;
    CapPositive(cfg);
    ByteCount(cfg.Mss(), Cap(cfg));
  }

  lemma CapPositive(cfg: Config)
    ensures Cap(cfg) >= 65535
  {
  }

  lemma ByteCount(w: nat, m: nat)
    ensures w == 1 ==> Times(w, m) == m
    ensures w >= 1 ==> Times(w, m) >= m
    ensures w >= 2 ==> Times(w, m) >= 2 * m
    ensures w * m == Times(w, m)
  {
    if w >= 1 { assert (w - 1) * m >= 0; }
    if w >= 2 { assert (w - 2) * m >= 0; }
  }

  lemma InputKeepsCong(a: Arith, cfg: Config, e: Engine, segs: seq<Segment>, ok: bool)
    requires Tame(cfg) && CongOk(cfg, e.cong)
    ensures var e' := Input(a, cfg, e, segs, ok);
      && CongOk(cfg, e'.cong)
      && e'.cong.cwnd ==
           if ok && a.Diff(e'.snd.una, e.snd.una) > 0 && e.cong.cwnd < e'.cong.rmtWnd
           then e.cong.cwnd + 1 else e.cong.cwnd
  {
    hide InputSegs, Grow, Times, Cap;
    InputEffects(a, cfg, e, segs);
    GrowsByOne(cfg, InputSegs(a, cfg, e, segs).cong);
  }

  lemma ApplyKeepsCong(cfg: Config, e: Engine, c: Call)
    requires Tame(cfg) && Ok(cfg, e) && CongOk(cfg, e.cong)
    ensures CongOk(cfg, Apply(cfg, Img(e), c).cong)
  {
    hide CongOk, Ok, Parse, Tame, FlushState, FlushSegs, Pack, Take, InputSegs, Grow, Enqueue, Tick, Sendable;
    TameValid(cfg);
    OkShape(cfg, e);
    match c
    case DoSend(msg) =>
    case DoRecv(len) =>
    case DoInput(data) =>
      var p := Parse(cfg.conv, data);
      InputKeepsCong(Wrapped, cfg, Img(e), p.segs, p.code == 0);
    case DoFlush =>
      FlushImg32(cfg, e);
      FlushKeepsCong(cfg, e);
    case DoUpdate(now) =>
      UpdateImg32(cfg, e, now);
      var e1 := e.(current := now, pace := Tick(e.pace, cfg.interval, now).0);
      OkTimer(cfg, e, now, e1.pace);
      FlushKeepsCong(cfg, e1);
  }

  lemma TameValid(cfg: Config)
    requires Tame(cfg)
    ensures cfg.Valid()
  {
  }

  lemma OkTimer(cfg: Config, e: Engine, now: u32, pace: Pace)
    requires Ok(cfg, e)
    ensures Ok(cfg, e.(current := now, pace := pace))
  {
  }

  lemma {:induction false} EveryRunCong(cfg: Config, calls: seq<Call>)
    requires Tame(cfg)
    ensures CongOk(cfg, Run(cfg, calls).cong)
  {
    hide Apply, Ok;
    if calls == [] {
      FreshCong(cfg);
    } else {
      var n := |calls| - 1;
      EveryRunCong(cfg, calls[..n]);
      var trace := EveryRunIsExact(cfg, calls[..n]);
      assert calls[..n][..n] == calls[..n];
      assert StandsBehind(cfg, calls[..n][..n], trace[n]);
      ApplyKeepsCong(cfg, trace[n], calls[n]);
    }
  }

  lemma FreshCong(cfg: Config)
    requires Tame(cfg)
    ensures CongOk(cfg, Create().cong)
  {
  }

  /** After any calls whatever, a datagram that is well-formed to its end and moves `snd_una`
      makes the congestion window one larger, unless it has reached the peer's window; any
      other datagram leaves it as it is. It makes no difference whether the window is below
      the threshold or above. */
  lemma WindowGrowsByOne(cfg: Config, calls: seq<Call>, data: Bytes)
    requires Tame(cfg)
    ensures var e, e' := Run(cfg, calls), Run(cfg, calls + [DoInput(data)]);
      e'.cong.cwnd ==
        if Parse(cfg.conv, data).code == 0 && TimeDiff(e'.snd.una, e.snd.una) > 0 && e.cong.cwnd < e'.cong.rmtWnd
        then e.cong.cwnd + 1 else e.cong.cwnd
  {
    hide Input, Parse, Run, TimeDiff, CongOk, Tame;
    TameValid(cfg);
    EveryRunCong(cfg, calls);
    RunNext(cfg, calls, DoInput(data));
    var p := Parse(cfg.conv, data);
    InputKeepsCong(Wrapped, cfg, Run(cfg, calls), p.segs, p.code == 0);
  }

  lemma RunNext(cfg: Config, calls: seq<Call>, c: Call)
    requires cfg.Valid()
    ensures Run(cfg, calls + [c]) == Apply(cfg, Run(cfg, calls), c)
  {
    hide Apply;
    assert (calls + [c])[..|calls|] == calls;
  }
}
