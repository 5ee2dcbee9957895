/** `ikcp_update` as a timer, and `ikcp_check` as the promise of when it next matters. */
module Pacing {
  import opened SerialNumbers
  import opened Segments
  import opened SendSide
  import opened Engine
  import opened Wire
  import opened Robustness

  // ----- flush pacing --------------------------------------------------------------------------------

  /** The timer after updates at the given times of an unbounded millisecond clock, and the
      number of flushes they caused. */
  function PaceRun(interval: u32, times: seq<nat>): (Pace, nat) {
    if times == [] then (Create().pace, 0)
    else
      var (p, n) := PaceRun(interval, times[..|times| - 1]);
      var (p', due) := Tick(p, interval, U32(times[|times| - 1]));
      (p', if due then n + 1 else n)
  }

  /** The times of the updates among the calls. */
  function UpdateTimes(calls: seq<Call>): seq<u32> {
    if calls == [] then []
    else
      var n := |calls| - 1;
      UpdateTimes(calls[..n]) + if calls[n].DoUpdate? then [calls[n].now] else []
  }

  /** The readings of a 32-bit clock. */
  function Reduced(times: seq<nat>): (r: seq<u32>)
    ensures |r| == |times|
    ensures forall i :: 0 <= i < |r| ==> r[i] == U32(times[i])
  {
    seq(|times|, i requires 0 <= i < |times| => U32(times[i]))
  }

  /** How many of the calls are updates that flush. */
  function FlushingUpdates(cfg: Config, calls: seq<Call>): nat
    requires cfg.Valid()
  {
    if calls == [] then 0
    else
      var n := |calls| - 1;
      var flushes := calls[n].DoUpdate? && Tick(Run(cfg, calls[..n]).pace, cfg.interval, calls[n].now).1;
      FlushingUpdates(cfg, calls[..n]) + if flushes then 1 else 0
  }

  /** In any run of the 32-bit engine the timer is driven by the updates alone: sending,
      receiving, input and explicit flushes leave it as it is. */
  lemma {:induction false} TimerOfRun(cfg: Config, calls: seq<Call>, times: seq<nat>)
    requires cfg.Valid() && UpdateTimes(calls) == Reduced(times)
    ensures Run(cfg, calls).pace == PaceRun(cfg.interval, times).0
    ensures FlushingUpdates(cfg, calls) == PaceRun(cfg.interval, times).1
  {
    hide Tick, U32, Apply, Reduced;
    if calls != [] {
      var n, m := |calls| - 1, |times| - 1;
      ApplyPace(cfg, Run(cfg, calls[..n]), calls[n]);
      if calls[n].DoUpdate? {
        assert Reduced(times[..m]) == UpdateTimes(calls)[..m] == UpdateTimes(calls[..n]);
        TimerOfRun(cfg, calls[..n], times[..m]);
        assert Reduced(times)[m] == calls[n].now;
      } else {
        TimerOfRun(cfg, calls[..n], times);
      }
    } else {
      assert times == [];
    }
  }

  lemma ApplyPace(cfg: Config, e: Engine, c: Call)
    requires cfg.Valid()
    ensures Apply(cfg, e, c).pace == if c.DoUpdate? then Tick(e.pace, cfg.interval, c.now).0 else e.pace
  {
    hide Tick, Send, Recv, InputSegs, Grow, FlushState, FlushSegs, Pack, Parse;
    if c.DoUpdate? {
      FlushKeepsPace(cfg, e.(current := c.now, pace := Tick(e.pace, cfg.interval, c.now).0));
    } else {
      OthersKeepPace(cfg, e, c);
    }
  }

  lemma FlushKeepsPace(cfg: Config, e: Engine)
    requires cfg.Valid()
    ensures FlushState(Wrapped, cfg, e).pace == e.pace
  {
  }

  lemma OthersKeepPace(cfg: Config, e: Engine, c: Call)
    requires cfg.Valid() && !c.DoUpdate?
    ensures Apply(cfg, e, c).pace == e.pace
  {
    hide InputSegs, Grow, Pack, FlushSegs, Parse, Reduce, Admitted, ProbeTimer;
    if c.DoInput? {
      InputSegsKeepPace(cfg, e, Parse(cfg.conv, c.data).segs);
    }
  }

  lemma {:induction false} InputSegsKeepPace(cfg: Config, e: Engine, segs: seq<Segment>)
    ensures InputSegs(Wrapped, cfg, e, segs).pace == e.pace
  {
    if segs != [] {
      InputSegsKeepPace(cfg, e, segs[..|segs| - 1]);
    }
  }

  /** A clock that never goes back, read at least every 2^31 milliseconds. */
  ghost predicate Clock(times: seq<nat>) {
    forall i :: 0 < i < |times| ==> 0 <= times[i] - times[i - 1] < TWO31
  }

  /** One tick at time `t` when the next flush time is `ts`: a flush is due from then on, and
      the next flush time moves on by an interval, or to an interval from now when that has
      passed as well. A clock that seems to have gone back more than ten seconds is believed:
      a flush is due at once, and the next an interval from now. */
  lemma TickAt(ts: int, interval: u32, t: int)
    requires 2 <= interval <= 5000 && -TWO31 <= t - ts < TWO31
    ensures var (p, due) := Tick(Pace(true, U32(ts)), interval, U32(t));
      && p.updated
      && (due <==> t >= ts || t - ts < -10000)
      && p.tsFlush == U32(if -10000 <= t - ts < 0 then ts
                          else if t - ts < -10000 || t - ts >= 10000 || t >= ts + interval then t + interval
                          else ts + interval)
  {
    hide U32, I32;
    TimeDiffExact(t, ts);
    TimeDiffExact(t, t);
    TimeDiffExact(t, t + interval);
    U32Plus(t, interval);
    if -10000 <= t - ts < 10000 {
      TimeDiffExact(t, ts + interval);
      U32Plus(ts, interval);
    }
  }

  lemma TickFirst(interval: u32, t: int)
    requires 2 <= interval <= 5000
    ensures Tick(Create().pace, interval, U32(t)) == (Pace(true, U32(t + interval)), true)
  {
    hide U32, I32;
    TimeDiffExact(t, t);
    TimeDiffExact(t, t + interval);
    U32Plus(t, interval);
  }

  /** The time `n` intervals take. */
  function Span(n: nat, interval: u32): int { n * interval }

  lemma SpanNext(n: nat, interval: u32)
    ensures Span(n + 1, interval) == Span(n, interval) + interval && Span(0, interval) == 0
  {
  }

  lemma SpanFits(n: nat, interval: u32, x: nat)
    requires interval > 0 && Span(n, interval) <= x + interval
    ensures n <= 1 + x / interval
  {
    var q := x / interval;
    DivisionBounds(x, interval);
    assert (q + 2) * interval == q * interval + 2 * interval;
    SmallerFactor(n, q + 2, interval);
  }

  lemma SmallerFactor(x: int, y: int, d: int)
    requires d > 0 && x * d < y * d
    ensures x < y
  {
    assert (y - x) * d > 0;
  }

  /** Over a whole run the next flush time is `ts`, strictly ahead and at most an interval
      away, and each flush has moved it on by at least an interval. */
  lemma {:induction false} PaceInvariant(interval: u32, times: seq<nat>) returns (ts: int)
    requires 2 <= interval <= 5000 && times != [] && Clock(times)
    ensures var (p, n) := PaceRun(interval, times); var t := times[|times| - 1];
      && p == Pace(true, U32(ts)) && t < ts <= t + interval
      && times[0] + Span(n, interval) <= ts
  {
    hide Tick, U32, Span;
    var k := |times| - 1;
    var t := times[k];
    SpanNext(0, interval);
    if k == 0 {
      assert times[..0] == [];
      TickFirst(interval, t);
      ts := t + interval;
    } else {
      var front := times[..k];
      assert Clock(front) && front[k - 1] == times[k - 1] && front[0] == times[0];
      var ts0 := PaceInvariant(interval, front);
      TickAt(ts0, interval, t);
      var n := PaceRun(interval, front).1;
      SpanNext(n, interval);
      ts := if t < ts0 then ts0 else if t - ts0 >= 10000 || t >= ts0 + interval then t + interval else ts0 + interval;
    }
  }

  /** Flushes are at least an interval apart on average: from the first update at t0, at most
      1 + (t - t0) / interval of them by time t; and the next one is due strictly after now,
      within an interval. */
  lemma FlushesArePaced(interval: u32, times: seq<nat>)
    requires 2 <= interval <= 5000 && times != [] && Clock(times)
    ensures var (p, n) := PaceRun(interval, times); var t := times[|times| - 1];
      && times[0] <= t && n <= 1 + (t - times[0]) / interval
      && p.updated && 0 < TimeDiff(p.tsFlush, U32(t)) <= interval
  {
    hide U32, Tick, Span, PaceRun;
    var ts := PaceInvariant(interval, times);
    var n := PaceRun(interval, times).1;
    var t := times[|times| - 1];
    TimeDiffExact(ts, t);
    ClockAdvances(times);
    SpanFits(n, interval, t - times[0]);
  }

  /** So in every run of the engine, whatever else is called, the updates flush at most
      1 + (t - t0) / interval times, and the next flush is strictly ahead within an interval. */
  lemma RunFlushesArePaced(cfg: Config, calls: seq<Call>, times: seq<nat>)
    requires cfg.Valid() && UpdateTimes(calls) == Reduced(times) && times != [] && Clock(times)
    ensures var p := Run(cfg, calls).pace; var t := times[|times| - 1];
      && times[0] <= t && FlushingUpdates(cfg, calls) <= 1 + (t - times[0]) / cfg.interval
      && p.updated && 0 < TimeDiff(p.tsFlush, U32(t)) <= cfg.interval
  {
    hide Run, FlushingUpdates, PaceRun, UpdateTimes, TimeDiff, U32;
    TimerOfRun(cfg, calls, times);
    FlushesArePaced(cfg.interval, times);
  }

  lemma {:induction false} ClockAdvances(times: seq<nat>)
    requires times != [] && Clock(times)
    ensures times[0] <= times[|times| - 1]
  {
    var k := |times| - 1;
    if k > 0 {
      assert Clock(times[..k]);
      ClockAdvances(times[..k]);
    }
  }

  // ----- ikcp_check -------------------------------------------------------------------------------------

  lemma {:induction false} PacketWaitPositive(buf: seq<SendSeg>, now: u32)
    ensures PacketWait(buf, now).In? ==> PacketWait(buf, now).ms > 0
  {
    if buf != [] {
      PacketWaitPositive(buf[..|buf| - 1], now);
    }
  }

  /** The packet wait is the nearest deadline. */
  lemma {:induction false} PacketWaitIsNearest(buf: seq<SendSeg>, now: u32)
    ensures PacketWait(buf, now).Overdue? <==> exists i :: 0 <= i < |buf| && TimeDiff(buf[i].resendts, now) <= 0
    ensures PacketWait(buf, now).In? ==>
      && (forall i :: 0 <= i < |buf| ==> PacketWait(buf, now).ms <= TimeDiff(buf[i].resendts, now))
      && (|| PacketWait(buf, now).ms == 0x7fff_ffff
          || exists i :: 0 <= i < |buf| && PacketWait(buf, now).ms == TimeDiff(buf[i].resendts, now))
  {
    hide TimeDiff;
    if buf != [] {
      var n := |buf| - 1;
      PacketWaitIsNearest(buf[..n], now);
      assert forall i :: 0 <= i < n ==> buf[..n][i] == buf[i];
      var w := PacketWait(buf[..n], now);
      if w.Overdue? {
        var i :| 0 <= i < n && TimeDiff(buf[..n][i].resendts, now) <= 0;
        assert TimeDiff(buf[i].resendts, now) <= 0;
      } else if w.ms != 0x7fff_ffff {
        var i :| 0 <= i < n && w.ms == TimeDiff(buf[..n][i].resendts, now);
        assert w.ms == TimeDiff(buf[i].resendts, now);
      }
    }
  }

  /** Something calls for an update now: there has been none, the flush time has come or lies
      more than ten seconds ahead, or a deadline has passed. */
  ghost predicate Urgent(e: Engine, now: u32) {
    || !e.pace.updated || TimeDiff(now, e.pace.tsFlush) >= 0 || TimeDiff(now, e.pace.tsFlush) < -10000
    || exists i :: 0 <= i < |e.snd.buf| && TimeDiff(e.snd.buf[i].resendts, now) <= 0
  }

  /** Exactly what `ikcp_check` answers: now, when something is urgent; otherwise the nearest
      of the flush time, the deadlines and one interval from now, which lies ahead. */
  lemma CheckIsTight(cfg: Config, e: Engine, now: u32)
    requires cfg.Valid()
    ensures Urgent(e, now) ==> Check(cfg, e, now) == now
    ensures !Urgent(e, now) ==>
      var w := TimeDiff(Check(cfg, e, now), now); var f := TimeDiff(e.pace.tsFlush, now);
      && 0 < w <= f && w <= cfg.interval
      && (forall i :: 0 <= i < |e.snd.buf| ==> w <= TimeDiff(e.snd.buf[i].resendts, now))
      && (w == f || w == cfg.interval || exists i :: 0 <= i < |e.snd.buf| && w == TimeDiff(e.snd.buf[i].resendts, now))
  {
    hide I32, U32;
    PacketWaitIsNearest(e.snd.buf, now);
    PacketWaitPositive(e.snd.buf, now);
    NowIsU32(now);
    if !Urgent(e, now) {
      TimeDiffFlip(now, e.pace.tsFlush);
      var p := PacketWait(e.snd.buf, now);
      var w := Min(Min(p.ms, TimeDiff(e.pace.tsFlush, now)), cfg.interval);
      TimeDiffExact(now + w, now);
    }
  }

  lemma NowIsU32(now: u32)
    ensures U32(now) == now
  {
  }

  /** `ikcp_check` never asks for more than an interval of patience. */
  lemma CheckRange(cfg: Config, e: Engine, now: u32)
    requires cfg.Valid()
    ensures 0 <= TimeDiff(Check(cfg, e, now), now) <= cfg.interval
  {
    hide U32, I32;
    var w := CheckWaits(cfg, e, now);
  }

  /** How far ahead the answer is, and that the flush timer does not fire before. */
  lemma CheckWaits(cfg: Config, e: Engine, now: u32) returns (w: int)
    requires cfg.Valid()
    ensures 0 <= w <= cfg.interval && Check(cfg, e, now) == U32(now + w) && TimeDiff(Check(cfg, e, now), now) == w
    ensures w > 0 ==> e.pace.updated && w <= TimeDiff(e.pace.tsFlush, now) <= 10000
  {
    var d := TimeDiff(now, e.pace.tsFlush);
    PacketWaitPositive(e.snd.buf, now);
    var p := PacketWait(e.snd.buf, now);
    assert now == U32(now) && TimeDiff(now, now) == 0;
    if !e.pace.updated || d >= 0 || d < -10000 || p.Overdue? {
      w := 0;
    } else {
      TimeDiffFlip(now, e.pace.tsFlush);
      w := Min(Min(p.ms, TimeDiff(e.pace.tsFlush, now)), cfg.interval);
      TimeDiffExact(now + w, now);
    }
  }

  lemma TimeDiffFlip(x: u32, y: u32)
    requires -TWO31 < TimeDiff(x, y)
    ensures TimeDiff(y, x) == -TimeDiff(x, y)
  {
    var d := TimeDiff(x, y);
    TimeDiffCongruent(x, y);
    assert U32(y + d) == x && U32(y) == y;
    TimeDiffExact(y, y + d);
  }

  /** `ikcp_check` is sound for `ikcp_update`: at any time before the answer an update does
      nothing but note the time. */
  lemma CheckIsSound(a: Arith, cfg: Config, e: Engine, now: u32, j: nat)
    requires cfg.Valid() && j < TimeDiff(Check(cfg, e, now), now)
    ensures Update(a, cfg, e, U32(now + j)) == (e.(current := U32(now + j)), [])
  {
    var w := CheckWaits(cfg, e, now);
    var ts := now + TimeDiff(e.pace.tsFlush, now);
    TimeDiffCongruent(e.pace.tsFlush, now);
    assert U32(ts) == e.pace.tsFlush;
    TimeDiffExact(now + j, ts);
    assert TimeDiff(U32(now + j), e.pace.tsFlush) == now + j - ts;
  }

  /** Updates at the given times, one after the other. */
  function Updates(a: Arith, cfg: Config, e: Engine, times: seq<u32>): Engine
    requires cfg.Valid()
  {
    if times == [] then e else Update(a, cfg, Updates(a, cfg, e, times[..|times| - 1]), times[|times| - 1]).0
  }

  /** So all updates before the answer can be skipped without changing what comes after. */
  lemma {:induction false} UpdatesCanBeSkipped(a: Arith, cfg: Config, e: Engine, now: u32, offsets: seq<nat>,
                                               times: seq<u32>, t: u32)
    requires cfg.Valid() && |times| == |offsets|
    requires forall i :: 0 <= i < |offsets| ==>
      offsets[i] < TimeDiff(Check(cfg, e, now), now) && times[i] == U32(now + offsets[i])
    ensures Updates(a, cfg, e, times).(current := e.current) == e
    ensures Update(a, cfg, Updates(a, cfg, e, times), t) == Update(a, cfg, e, t)
  {
    hide Check, Flush, TimeDiff, Tick;
    if times != [] {
      var n := |times| - 1;
      UpdatesCanBeSkipped(a, cfg, e, now, offsets[..n], times[..n], times[n]);
      CheckIsSound(a, cfg, e, now, offsets[n]);
    }
  }
}
