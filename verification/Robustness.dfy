/** Every sequence of API calls, with arbitrary bytes given to `ikcp_input`, keeps the
    engine well-formed, and the 32-bit engine is at all times the image of an exact one
    whose `snd_una` and `rcv_nxt` never move backward. */
module Robustness {
  import opened SerialNumbers
  import opened Segments
  import opened SendSide
  import opened RecvSide
  import opened Engine
  import opened Shape
  import opened Refinement32
  import opened Wire
  import Rtt

  /** A retransmission timeout grows by at most a minute per emission, so it stays within
      2^31 milliseconds for the first 35791 emissions of a segment. */
  const XMIT_LIMIT := 35791

  ghost predicate TimerOk(cfg: Config, s: SendSeg) {
    1 <= s.xmit <= XMIT_LIMIT ==> cfg.minRto <= s.rto <= Rtt.RTO_MAX * s.xmit
  }

  ghost predicate SegsOk(cfg: Config, snd: Sender) {
    && (forall i :: 0 <= i < |snd.queue| ==> |snd.queue[i].data| <= cfg.Mss())
    && (forall i :: 0 <= i < |snd.buf| ==> |snd.buf[i].frag.data| <= cfg.Mss() && TimerOk(cfg, snd.buf[i]))
  }

  /** The zero-window probe is off, or waits between 7 and 120 seconds. */
  predicate ProbeOk(p: Probe) { p.wait == 0 || PROBE_INIT <= p.wait <= PROBE_LIMIT }

  /** What every entry point keeps. */
  ghost predicate Ok(cfg: Config, e: Engine) {
    && EngineShape(cfg, e)
    && SegsOk(cfg, e.snd)
    && cfg.minRto <= e.rtt.rto <= Rtt.RTO_MAX
    && THRESH_MIN <= e.cong.ssthresh
    && ProbeOk(e.probe)
  }

  /** Neither window edge moves back. */
  ghost predicate Forward(e: Engine, e': Engine) {
    e.snd.una <= e'.snd.una && e.snd.nxt <= e'.snd.nxt && e.rcv.nxt <= e'.rcv.nxt
  }

  lemma CreateOk(cfg: Config)
    requires cfg.Valid()
    ensures Ok(cfg, Create()) && Img(Create()) == Create()
  {
  }

  // ----- the exact engine keeps `Ok`, whatever it is given -----------------------------------------

  lemma SendOk(cfg: Config, e: Engine, msg: Bytes)
    requires cfg.Valid() && Ok(cfg, e)
    ensures Ok(cfg, Send(cfg, e, msg).0) && Forward(e, Send(cfg, e, msg).0)
  {
  }

  lemma RecvOk(cfg: Config, e: Engine, len: int)
    requires cfg.Valid() && Ok(cfg, e)
    ensures Ok(cfg, Recv(Exact, cfg, e, len).0) && Forward(e, Recv(Exact, cfg, e, len).0)
  {
    TakeShape(e.rcv, cfg.rcvWnd, len);
  }

  lemma TakeUnaOk(cfg: Config, s: Sender, una: int)
    requires SenderShape(s, cfg.sndWnd) && SegsOk(cfg, s)
    ensures SenderShape(TakeUna(Exact, s, una), cfg.sndWnd) && SegsOk(cfg, TakeUna(Exact, s, una))
    ensures s.una <= TakeUna(Exact, s, una).una
  {
    TakeUnaShape(s, cfg.sndWnd, una);
    var k := DropBeforeSuffix(Exact, s.buf, una);
  }

  lemma TakeAckOk(cfg: Config, s: Sender, sn: int)
    requires SenderShape(s, cfg.sndWnd) && SegsOk(cfg, s)
    ensures SenderShape(TakeAck(Exact, s, sn), cfg.sndWnd) && SegsOk(cfg, TakeAck(Exact, s, sn))
    ensures s.una <= TakeAck(Exact, s, sn).una
  {
    TakeAckShape(s, cfg.sndWnd, sn);
    var t := TakeAck(Exact, s, sn);
    if s.una <= sn < s.nxt {
      forall i | 0 <= i < |t.buf| ensures |t.buf[i].frag.data| <= cfg.Mss() && TimerOk(cfg, t.buf[i]) {
        var j := RemoveKeeps(s.buf, sn, i);
      }
    }
  }

  lemma InputSegOk(cfg: Config, e: Engine, s: Segment)
    requires cfg.Valid() && Ok(cfg, e)
    ensures Ok(cfg, InputSeg(Exact, cfg, e, s)) && Forward(e, InputSeg(Exact, cfg, e, s))
    ensures InputSeg(Exact, cfg, e, s).snd.nxt == e.snd.nxt
  {
    TakeUnaOk(cfg, e.snd, s.una);
    var snd := TakeUna(Exact, e.snd, s.una);
    if s.cmd == CMD_ACK {
      TakeAckOk(cfg, snd, s.sn);
    } else if s.cmd == CMD_PUSH {
      TakeDataShape(e.rcv, cfg.rcvWnd, RecvSeg(s.sn, s.frag));
    }
  }

  lemma TransmitOk(cfg: Config, tx: Tx, s: SendSeg)
    requires cfg.Valid() && TimerOk(cfg, s) && cfg.minRto <= tx.rto <= Rtt.RTO_MAX
    ensures TimerOk(cfg, Transmit(tx, s))
  {
  }

  lemma FlushStateOk(cfg: Config, e: Engine)
    requires cfg.Valid() && Ok(cfg, e)
    ensures Ok(cfg, FlushState(Exact, cfg, e)) && Forward(e, FlushState(Exact, cfg, e))
    ensures FlushState(Exact, cfg, e).cong.cwnd >= 1
  {
    hide Admit, U32, ProbeTimer, CountCause, ReachesDeadLink, SegsOk, SenderShape, ProbeOk;
    var w := SendWindow(cfg, e.cong);
    var tx := TxOf(cfg, e);
    ProbeTimerOk(e.probe, e.cong.rmtWnd, e.current);
    AdmitShape(e.snd, cfg.sndWnd, w, e.current, e.rtt.rto);
    AdmitOk(cfg, e.snd, w, e.current, e.rtt.rto);
    TransmitShape(Admitted(Exact, cfg, e), cfg.sndWnd, tx);
    TransmitAllOk(cfg, tx, Admitted(Exact, cfg, e));
  }

  lemma ProbeTimerOk(p: Probe, rmtWnd: u32, now: u32)
    requires ProbeOk(p)
    ensures ProbeOk(ProbeTimer(p, rmtWnd, now).(ask := false, tell := false))
  {
  }

  lemma AdmitOk(cfg: Config, s: Sender, cwnd: nat, now: u32, rto: u32)
    requires SegsOk(cfg, s)
    ensures SegsOk(cfg, Admit(Exact, s, cwnd, now, rto))
    ensures Admit(Exact, s, cwnd, now, rto).una == s.una && s.nxt <= Admit(Exact, s, cwnd, now, rto).nxt
  {
    var m := AdmitPrefix(s, cwnd, now, rto);
    var t := Admit(Exact, s, cwnd, now, rto);
    forall i | 0 <= i < |t.buf| ensures |t.buf[i].frag.data| <= cfg.Mss() && TimerOk(cfg, t.buf[i]) {
      if i < |s.buf| { assert t.buf[i] == t.buf[..|s.buf|][i]; }
    }
  }

  lemma TransmitAllOk(cfg: Config, tx: Tx, snd: Sender)
    requires cfg.Valid() && SegsOk(cfg, snd) && cfg.minRto <= tx.rto <= Rtt.RTO_MAX
    ensures SegsOk(cfg, Transmitted(tx, snd))
  {
    var t := Transmitted(tx, snd);
    forall i | 0 <= i < |t.buf| ensures |t.buf[i].frag.data| <= cfg.Mss() && TimerOk(cfg, t.buf[i]) {
      TransmitOk(cfg, tx, snd.buf[i]);
    }
  }

  lemma FlushOk(cfg: Config, e: Engine)
    requires cfg.Valid() && Ok(cfg, e)
    ensures Ok(cfg, Flush(Exact, cfg, e).0) && Forward(e, Flush(Exact, cfg, e).0)
  {
    FlushStateOk(cfg, e);
  }

  lemma UpdateOk(cfg: Config, e: Engine, now: u32)
    requires cfg.Valid() && Ok(cfg, e)
    ensures Ok(cfg, Update(Exact, cfg, e, now).0) && Forward(e, Update(Exact, cfg, e, now).0)
  {
    FlushOk(cfg, e.(current := now, pace := Tick(e.pace, cfg.interval, now).0));
  }

  // ----- arbitrary 32-bit segments stand for exact ones ----------------------------------------------

  /** The number congruent to `x` modulo 2^32 that is within 2^31 of `base`. */
  function Closest(base: int, x: u32): (r: int)
    ensures U32(r) == x && -TWO31 <= r - base < TWO31
  {
    TimeDiffCongruent(x, base);
    base + TimeDiff(x, base)
  }

  /** The exact segment that a 32-bit one is understood as in a given state. */
  function Lift(cfg: Config, e: Engine, s: Segment): (r: Segment)
    requires ImgSeg(s) == s
    ensures ImgSeg(r) == s
    ensures Near(cfg, e, r)
  {
    var una := Closest(e.snd.una, s.una);
    var sn := if s.cmd == CMD_ACK then Closest(TakeUna(Exact, e.snd, una).una, s.sn)
              else if s.cmd == CMD_PUSH then Closest(e.rcv.nxt + cfg.rcvWnd, s.sn)
              else s.sn;
    s.(una := una, sn := sn)
  }

  lemma OkShape(cfg: Config, e: Engine)
    requires Ok(cfg, e)
    ensures EngineShape(cfg, e)
  {
  }

  /** Whatever segments a datagram holds, the 32-bit engine does what the exact one does on
      segments with the same images. */
  lemma {:induction false} InputSegsLift(cfg: Config, e: Engine, segs: seq<Segment>) returns (exact: seq<Segment>)
    requires cfg.Valid() && Ok(cfg, e) && ImgSegs(segs) == segs
    ensures ImgSegs(exact) == segs
    ensures InputSegs(Wrapped, cfg, Img(e), segs) == Img(InputSegs(Exact, cfg, e, exact))
    ensures Ok(cfg, InputSegs(Exact, cfg, e, exact)) && Forward(e, InputSegs(Exact, cfg, e, exact))
    ensures InputSegs(Exact, cfg, e, exact).snd.nxt == e.snd.nxt
  {
    hide InputSeg, Ok, Near, Lift, Img, U32;
    if segs == [] {
      exact := [];
    } else {
      var n := |segs| - 1;
      assert ImgSegs(segs[..n]) == ImgSegs(segs)[..n];
      var front := InputSegsLift(cfg, e, segs[..n]);
      var e1 := InputSegs(Exact, cfg, e, front);
      var s := Lift(cfg, e1, segs[n]);
      exact := front + [s];
      assert exact[..n] == front && exact[n] == s;
      OkShape(cfg, e1);
      InputSegImg(cfg, e1, s);
      InputSegOk(cfg, e1, s);
    }
  }

  /** The final comparison of `ikcp_input` is between numbers at most a window apart. */
  lemma InputImg(cfg: Config, e: Engine, segs: seq<Segment>, exact: seq<Segment>, ok: bool)
    requires cfg.Valid() && Ok(cfg, e)
    requires InputSegs(Wrapped, cfg, Img(e), segs) == Img(InputSegs(Exact, cfg, e, exact))
    requires Ok(cfg, InputSegs(Exact, cfg, e, exact)) && Forward(e, InputSegs(Exact, cfg, e, exact))
    requires InputSegs(Exact, cfg, e, exact).snd.nxt == e.snd.nxt
    ensures Input(Wrapped, cfg, Img(e), segs, ok) == Img(Input(Exact, cfg, e, exact, ok))
    ensures Ok(cfg, Input(Exact, cfg, e, exact, ok)) && Forward(e, Input(Exact, cfg, e, exact, ok))
  {
    var e1 := InputSegs(Exact, cfg, e, exact);
    DiffNear(e1.snd.una, e.snd.una);
  }

  // ----- runs ------------------------------------------------------------------------------------------

  /** One call into the library by its user. */
  datatype Call = DoSend(msg: Bytes) | DoRecv(len: int) | DoInput(data: Bytes) | DoFlush | DoUpdate(now: u32)

  /** The 32-bit engine after a call. */
  function Apply(cfg: Config, e: Engine, c: Call): Engine
    requires cfg.Valid()
  {
    match c
    case DoSend(msg) => Send(cfg, e, msg).0
    case DoRecv(len) => Recv(Wrapped, cfg, e, len).0
    case DoInput(data) => var p := Parse(cfg.conv, data); Input(Wrapped, cfg, e, p.segs, p.code == 0)
    case DoFlush => Flush(Wrapped, cfg, e).0
    case DoUpdate(now) => Update(Wrapped, cfg, e, now).0
  }

  function Run(cfg: Config, calls: seq<Call>): Engine
    requires cfg.Valid()
  {
    if calls == [] then Create() else Apply(cfg, Run(cfg, calls[..|calls| - 1]), calls[|calls| - 1])
  }

  lemma SendImg(cfg: Config, e: Engine, msg: Bytes)
    requires cfg.Valid()
    ensures Send(cfg, Img(e), msg).0 == Img(Send(cfg, e, msg).0)
  {
  }

  /** One call on the image of a well-formed exact engine leads to the image of another,
      further on. */
  lemma ApplyIsExact(cfg: Config, e: Engine, c: Call) returns (e': Engine)
    requires cfg.Valid() && Ok(cfg, e)
    ensures Apply(cfg, Img(e), c) == Img(e')
    ensures Ok(cfg, e') && Forward(e, e')
  {
    hide Ok, EngineShape, Img, Parse, Flush, Update, Recv, Input, InputSegs, AllSound;
    OkShape(cfg, e);
    match c
    case DoSend(msg) =>
      SendOk(cfg, e, msg);
      SendImg(cfg, e, msg);
      e' := Send(cfg, e, msg).0;
    case DoRecv(len) =>
      RecvOk(cfg, e, len);
      RecvImg32(cfg, e, len);
      e' := Recv(Exact, cfg, e, len).0;
    case DoInput(data) =>
      var p := Parse(cfg.conv, data);
      ParsedSound(cfg.conv, data);
      var exact := InputSegsLift(cfg, e, p.segs);
      InputImg(cfg, e, p.segs, exact, p.code == 0);
      e' := Input(Exact, cfg, e, exact, p.code == 0);
    case DoFlush =>
      FlushOk(cfg, e);
      FlushImg32(cfg, e);
      e' := Flush(Exact, cfg, e).0;
    case DoUpdate(now) =>
      UpdateOk(cfg, e, now);
      UpdateImg32(cfg, e, now);
      e' := Update(Exact, cfg, e, now).0;
  }

  /** Exact engines standing behind the run, one per prefix of the calls. */
  ghost predicate Behind(cfg: Config, calls: seq<Call>, trace: seq<Engine>)
    requires cfg.Valid()
  {
    && |trace| == |calls| + 1
    && forall i :: 0 <= i <= |calls| ==> StandsBehind(cfg, calls[..i], trace[i])
  }

  ghost predicate StandsBehind(cfg: Config, calls: seq<Call>, e: Engine)
    requires cfg.Valid()
  {
    Run(cfg, calls) == Img(e) && Ok(cfg, e)
  }

  ghost predicate AllForward(trace: seq<Engine>) {
    forall i, j :: 0 <= i <= j < |trace| ==> Forward(trace[i], trace[j])
  }

  lemma ForwardExtends(trace: seq<Engine>, e: Engine)
    requires AllForward(trace) && trace != [] && Forward(trace[|trace| - 1], e)
    ensures AllForward(trace + [e])
  {
  }

  lemma BehindExtends(cfg: Config, calls: seq<Call>, trace: seq<Engine>, c: Call, e: Engine)
    requires cfg.Valid() && Behind(cfg, calls, trace)
    requires Apply(cfg, Img(trace[|calls|]), c) == Img(e) && Ok(cfg, e)
    ensures Behind(cfg, calls + [c], trace + [e])
  {
    hide Apply, Ok, Img;
    var all := calls + [c];
    assert StandsBehind(cfg, all, e) by {
      assert calls[..|calls|] == calls && all[..|all| - 1] == calls;
    }
    forall i | 0 <= i <= |all| ensures StandsBehind(cfg, all[..i], (trace + [e])[i]) {
      if i <= |calls| { assert all[..i] == calls[..i]; } else { assert all[..i] == all; }
    }
  }

  /** After any calls whatever the 32-bit engine is the image of a well-formed exact one, and
      along the run the exact counters only move forward. */
  lemma {:induction false} EveryRunIsExact(cfg: Config, calls: seq<Call>) returns (trace: seq<Engine>)
    requires cfg.Valid()
    ensures Behind(cfg, calls, trace) && AllForward(trace)
  {
    if calls == [] {
      CreateOk(cfg);
      trace := [Create()];
    } else {
      var n := |calls| - 1;
      var front := EveryRunIsExact(cfg, calls[..n]);
      var e := ApplyIsExact(cfg, front[n], calls[n]);
      ForwardExtends(front, e);
      BehindExtends(cfg, calls[..n], front, calls[n], e);
      assert calls == calls[..n] + [calls[n]];
      trace := front + [e];
    }
  }

  /** What that says about the 32-bit counters themselves, measured from the window edges:
      at most a send window is outstanding, `snd_buf` increases strictly from `snd_una` and
      stays below `snd_nxt`, `rcv_buf` increases strictly within the receive window, neither
      receiving queue outgrows the window, and the timers stay in their ranges. */
  lemma EveryRunWellFormed(cfg: Config, calls: seq<Call>)
    requires cfg.Valid()
    ensures var e := Run(cfg, calls); var s, r := e.snd, e.rcv;
      && U32(s.nxt - s.una) <= cfg.sndWnd
      && s.una == (if s.buf == [] then s.nxt else s.buf[0].sn)
      && (forall i :: 0 <= i < |s.buf| ==> U32(s.buf[i].sn - s.una) < U32(s.nxt - s.una))
      && (forall i, j :: 0 <= i < j < |s.buf| ==> U32(s.buf[i].sn - s.una) < U32(s.buf[j].sn - s.una))
      && (forall i :: 0 <= i < |r.buf| ==> U32(r.buf[i].sn - r.nxt) < cfg.rcvWnd)
      && (forall i, j :: 0 <= i < j < |r.buf| ==> U32(r.buf[i].sn - r.nxt) < U32(r.buf[j].sn - r.nxt))
      && |r.buf| <= cfg.rcvWnd && |r.queue| <= cfg.rcvWnd
      && ProbeOk(e.probe) && cfg.minRto <= e.rtt.rto <= Rtt.RTO_MAX
  {
    hide Run, U32, ReceiverShape, SenderShape;
    var trace := EveryRunIsExact(cfg, calls);
    assert calls[..|calls|] == calls;
    var e := trace[|calls|];
    assert StandsBehind(cfg, calls[..|calls|], e);
    SenderWellFormed(e.snd, cfg.sndWnd);
    ReceiverWellFormed(e.rcv, cfg.rcvWnd);
  }

  lemma Offset(x: int, base: int)
    requires 0 <= x - base < TWO32
    ensures U32(U32(x) - U32(base)) == x - base
  {
    U32Minus(x, base);
  }

  lemma SenderWellFormed(s: Sender, wnd: nat)
    requires SenderShape(s, wnd) && wnd < TWO31
    ensures var t := ImgSender(s);
      && U32(t.nxt - t.una) <= wnd && t.una == (if t.buf == [] then t.nxt else t.buf[0].sn)
      && (forall i :: 0 <= i < |t.buf| ==> U32(t.buf[i].sn - t.una) < U32(t.nxt - t.una))
      && (forall i, j :: 0 <= i < j < |t.buf| ==> U32(t.buf[i].sn - t.una) < U32(t.buf[j].sn - t.una))
  {
    hide U32;
    Offset(s.nxt, s.una);
    forall i | 0 <= i < |s.buf| ensures U32(U32(s.buf[i].sn) - U32(s.una)) == s.buf[i].sn - s.una {
      Offset(s.buf[i].sn, s.una);
    }
  }

  lemma ReceiverWellFormed(r: Receiver, wnd: nat)
    requires ReceiverShape(r, wnd) && wnd < TWO31
    ensures var t := ImgReceiver(r);
      && (forall i :: 0 <= i < |t.buf| ==> U32(t.buf[i].sn - t.nxt) < wnd)
      && (forall i, j :: 0 <= i < j < |t.buf| ==> U32(t.buf[i].sn - t.nxt) < U32(t.buf[j].sn - t.nxt))
      && |t.buf| <= wnd && |t.queue| <= wnd
  {
    hide U32;
    NextIsLeastMissing(r, wnd);
    forall i | 0 <= i < |r.buf| ensures U32(U32(r.buf[i].sn) - U32(r.nxt)) == r.buf[i].sn - r.nxt {
      Offset(r.buf[i].sn, r.nxt);
    }
  }
}
