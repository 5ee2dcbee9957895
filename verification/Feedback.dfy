/** What the segments that come in do to an engine, field by field, and the round-trip times
    it measures from them. */
module Feedback {
  import opened SerialNumbers
  import opened Segments
  import opened SendSide
  import opened RecvSide
  import opened Engine
  import opened Shape
  import opened Robustness
  import opened Wire
  import opened Channel
  import opened Progress
  import Rtt

  // ----- everything but the data -----------------------------------------------------------------------

  /** The round-trip samples in some segments, in order: for each acknowledgement the time
      since the timestamp it echoes, unless that lies ahead. */
  function Samples(now: u32, segs: seq<Segment>): seq<int> {
    if segs == [] then []
    else
      var n := |segs| - 1;
      var sample := TimeDiff(now, segs[n].ts);
      Samples(now, segs[..n]) + if segs[n].cmd == CMD_ACK && sample >= 0 then [sample] else []
  }

  /** Whether one of some segments asks for the window. */
  ghost predicate Asked(segs: seq<Segment>) { exists s :: s in segs && s.cmd == CMD_WASK }

  /** The peer's window, the probe flag and the clocks after some segments, and the estimator
      as the estimator of their samples. */
  lemma {:induction false} InputEffects(a: Arith, cfg: Config, e: Engine, segs: seq<Segment>)
    ensures var e' := InputSegs(a, cfg, e, segs);
      && e'.rtt == Rtt.UpdateAll(e.rtt, cfg.minRto, Samples(e.current, segs))
      && e'.cong == (if segs == [] then e.cong else e.cong.(rmtWnd := segs[|segs| - 1].wnd))
      && e'.probe == e.probe.(tell := e.probe.tell || Asked(segs))
      && e'.snd.nxt == e.snd.nxt && e'.snd.queue == e.snd.queue
      && e'.pace == e.pace && e'.current == e.current && e'.xmit == e.xmit && e'.dead == e.dead
  {
    hide InputSeg, TimeDiff, Rtt.Update, Samples, Rtt.UpdateAll, Asked;
    AskedLast(segs);
    if segs == [] {
      NoSamples(e.rtt, cfg.minRto, e.current);
    } else {
      var n := |segs| - 1;
      InputEffects(a, cfg, e, segs[..n]);
      SegEffects(a, cfg, InputSegs(a, cfg, e, segs[..n]), segs[n]);
      SampleNext(e.rtt, cfg.minRto, e.current, segs);
    }
  }

  lemma AskedLast(segs: seq<Segment>)
    ensures Asked(segs) <==> segs != [] && (Asked(segs[..|segs| - 1]) || segs[|segs| - 1].cmd == CMD_WASK)
  {
    if segs != [] {
      assert segs == segs[..|segs| - 1] + [segs[|segs| - 1]];
    }
  }

  lemma NoSamples(r: Rtt.Rtt, minRto: u32, now: u32)
    ensures Rtt.UpdateAll(r, minRto, Samples(now, [])) == r
  {
  }

  lemma SampleNext(r: Rtt.Rtt, minRto: u32, now: u32, segs: seq<Segment>)
    requires segs != []
    ensures var n := |segs| - 1; var sample := TimeDiff(now, segs[n].ts);
      var before := Rtt.UpdateAll(r, minRto, Samples(now, segs[..n]));
      Rtt.UpdateAll(r, minRto, Samples(now, segs)) ==
        if segs[n].cmd == CMD_ACK && sample >= 0 then Rtt.Update(before, minRto, sample) else before
  {
    hide TimeDiff, Rtt.Update;
    var n := |segs| - 1;
    var x, y := Samples(now, segs[..n]), Samples(now, segs);
    if y != x { assert y[..|y| - 1] == x; }
  }

  lemma SegEffects(a: Arith, cfg: Config, e: Engine, s: Segment)
    ensures var e' := InputSeg(a, cfg, e, s); var sample := TimeDiff(e.current, s.ts);
      && e'.rtt == (if s.cmd == CMD_ACK && sample >= 0 then Rtt.Update(e.rtt, cfg.minRto, sample) else e.rtt)
      && e'.cong == e.cong.(rmtWnd := s.wnd)
      && e'.probe == e.probe.(tell := e.probe.tell || s.cmd == CMD_WASK)
      && e'.snd.nxt == e.snd.nxt && e'.snd.queue == e.snd.queue
      && e'.pace == e.pace && e'.current == e.current && e'.xmit == e.xmit && e'.dead == e.dead
  {
    hide TakeData, TimeDiff, DropBefore, Remove, Rtt.Update;
  }

  lemma InputAllSamples(cfg: Config, e: Engine, ds: seq<Datagram>)
    requires cfg.Valid()
    ensures InputAll(cfg, e, ds).rtt == Rtt.UpdateAll(e.rtt, cfg.minRto, Samples(e.current, Flatten(ds)))
  {
    hide InputSegs, Samples, Flatten, InputAll;
    InputAllFlattens(cfg, e, ds);
    InputEffects(Exact, cfg, e, Flatten(ds));
  }

  /** The acknowledgements that some segments call for, in order: one for each data segment
      below the end of the receive window of its moment, duplicates included. */
  function Called(a: Arith, cfg: Config, e: Engine, segs: seq<Segment>): seq<Ack> {
    if segs == [] then []
    else
      var n := |segs| - 1;
      var end := a.Num(InputSegs(a, cfg, e, segs[..n]).rcv.nxt + cfg.rcvWnd);
      var x := segs[n];
      Called(a, cfg, e, segs[..n]) + if x.cmd == CMD_PUSH && a.Diff(x.sn, end) < 0 then [Ack(x.sn, x.ts)] else []
  }

  lemma {:induction false} AcksExact(a: Arith, cfg: Config, e: Engine, segs: seq<Segment>)
    ensures InputSegs(a, cfg, e, segs).acks == e.acks + Called(a, cfg, e, segs)
  {
    hide InputSeg;
    if segs != [] {
      var n := |segs| - 1;
      AcksExact(a, cfg, e, segs[..n]);
      SegCalls(a, cfg, InputSegs(a, cfg, e, segs[..n]), segs[n]);
    }
  }

  lemma SegCalls(a: Arith, cfg: Config, e: Engine, s: Segment)
    ensures InputSeg(a, cfg, e, s).acks ==
      e.acks + if s.cmd == CMD_PUSH && a.Diff(s.sn, a.Num(e.rcv.nxt + cfg.rcvWnd)) < 0 then [Ack(s.sn, s.ts)] else []
  {
    hide TakeUna, TakeAck, TakeData;
    assert e.acks + [] == e.acks;
  }

  /** A datagram of another conversation, whatever else it says, changes nothing; neither
      does one too short for a header, or one whose first segment is cut short or unknown. */
  lemma ForeignIsIgnored(cfg: Config, e: Engine, data: Bytes)
    requires cfg.Valid() && StopReason(cfg.conv, data).Some?
    ensures Apply(cfg, e, DoInput(data)) == e
  {
    hide ParseHead, StopReason, Grow;
    HeadStops(cfg.conv, data);
    assert InputSegs(Wrapped, cfg, e, []) == e;
    SameUna(e.snd.una);
  }

  lemma SameUna(x: int)
    ensures TimeDiff(x, x) == 0
  {
  }

  // ----- what is acknowledged ------------------------------------------------------------------------------

  /** Whether a segment acknowledges number `sn`, cumulatively or by itself. */
  predicate Acknowledges(s: Segment, sn: int) { sn < s.una || (s.cmd == CMD_ACK && s.sn == sn) }

  /** Exactly the acknowledged segments leave `snd_buf`. */
  lemma {:induction false} AcknowledgedExactly(cfg: Config, e: Engine, segs: seq<Segment>, sn: int)
    requires cfg.Valid() && Ok(cfg, e)
    ensures Queued(InputSegs(Exact, cfg, e, segs).snd.buf, sn) <==>
      Queued(e.snd.buf, sn) && forall i :: 0 <= i < |segs| ==> !Acknowledges(segs[i], sn)
  {
    hide InputSeg, Ok, Queued;
    if segs != [] {
      var n := |segs| - 1;
      AcknowledgedExactly(cfg, e, segs[..n], sn);
      InputKeepsOk(cfg, e, segs[..n]);
      OneAcknowledges(cfg, InputSegs(Exact, cfg, e, segs[..n]), segs[n], sn);
      assert forall i :: 0 <= i < n ==> segs[..n][i] == segs[i];
    }
  }

  lemma OneAcknowledges(cfg: Config, e: Engine, s: Segment, sn: int)
    requires cfg.Valid() && Ok(cfg, e)
    ensures Queued(InputSeg(Exact, cfg, e, s).snd.buf, sn) <==> Queued(e.snd.buf, sn) && !Acknowledges(s, sn)
  {
    hide DropBefore, Remove, TakeData, Queued;
    TakeUnaShape(e.snd, cfg.sndWnd, s.una);
    TakeAckShape(TakeUna(Exact, e.snd, s.una), cfg.sndWnd, s.sn);
  }

  // ----- the round trip ------------------------------------------------------------------------------------

  lemma {:induction false} SampleOf(now: u32, segs: seq<Segment>, j: nat)
    requires j < |segs| && segs[j].cmd == CMD_ACK && TimeDiff(now, segs[j].ts) >= 0
    ensures TimeDiff(now, segs[j].ts) in Samples(now, segs)
    decreases |segs|
  {
    hide TimeDiff;
    if j < |segs| - 1 {
      SampleOf(now, segs[..|segs| - 1], j);
    }
  }

  lemma {:induction false} SamplesFrom(now: u32, segs: seq<Segment>, x: int)
    requires forall s :: s in segs && s.cmd == CMD_ACK ==> TimeDiff(now, s.ts) == x
    ensures forall y :: y in Samples(now, segs) ==> y == x
  {
    hide TimeDiff;
    if segs != [] {
      var n := |segs| - 1;
      assert segs[n] in segs;
      SamplesFrom(now, segs[..n], x);
    }
  }

  lemma {:induction false} CalledAt(cfg: Config, e: Engine, segs: seq<Segment>, t: u32)
    requires forall s :: s in segs && s.cmd == CMD_PUSH ==> s.ts == t
    ensures forall k :: k in Called(Exact, cfg, e, segs) ==> k.ts == t
  {
    hide InputSegs;
    if segs != [] {
      var n := |segs| - 1;
      assert segs[n] in segs;
      CalledAt(cfg, e, segs[..n], t);
    }
  }

  /** The clock of an engine set. */
  function Clocked(e: Engine, now: u32): Engine { e.(current := now) }

  /** A round trip is measured. `a` flushes at time t0, all of it reaches `b`, `b` flushes,
      and all of that reaches `a` at time t1. If one of the data segments arrived below the
      end of `b`'s window then t1 - t0 is among the samples `a` takes; and if `b` had nothing
      pending before, it is the only sample. */
  lemma RoundTripMeasured(ca: Config, cb: Config, a: Engine, b: Engine, i: nat, t0: int, t1: int)
    requires ca.Valid() && cb.Valid() && Ok(ca, a) && Ok(cb, b)
    requires a.pace.updated && b.pace.updated && a.current == U32(t0) && 0 <= t1 - t0 < TWO31
    requires i < |FlushSegs(Exact, ca, a)| && FlushSegs(Exact, ca, a)[i].cmd == CMD_PUSH
    requires var segs := FlushSegs(Exact, ca, a);
      segs[i].sn < InputSegs(Exact, cb, b, segs[..i]).rcv.nxt + cb.rcvWnd
    ensures var (a1, ds) := Flush(Exact, ca, a);
      var b1 := InputAll(cb, b, ds);
      var (_, ds2) := Flush(Exact, cb, b1);
      var samples := Samples(U32(t1), Flatten(ds2));
      && InputAll(ca, Clocked(a1, U32(t1)), ds2).rtt == Rtt.UpdateAll(a.rtt, ca.minRto, samples)
      && t1 - t0 in samples
      && (b.acks == [] ==> forall x :: x in samples ==> x == t1 - t0)
  {
    hide FlushSegs, InputSegs, Pack, Ok, Samples, Called, Flatten, U32, TimeDiff, InputAll, Admitted, Reduce,
         ProbeTimer;
    var segs := FlushSegs(Exact, ca, a);
    var (a1, ds) := Flush(Exact, ca, a);
    FlushLossless(ca, a);
    var b1 := InputAll(cb, b, ds);
    InputAllFlattens(cb, b, ds);
    ArrivalIsAcknowledged(cb, b, segs, i);
    FlushSegsKinds(Exact, ca, a);
    assert segs[i] in segs;
    var k := Ack(segs[i].sn, U32(t0));
    assert k in b1.acks;
    var j :| 0 <= j < |b1.acks| && b1.acks[j] == k;
    PendingAcksAreSent(cb, b1);
    InputAllKeepsOk(cb, b, ds);
    FlushLossless(cb, b1);
    var ds2 := Flush(Exact, cb, b1).1;
    var back := FlushSegs(Exact, cb, b1);
    InputAllSamples(ca, Clocked(a1, U32(t1)), ds2);
    TimeDiffExact(t1, t0);
    SampleOf(U32(t1), back, j);
    if b.acks == [] {
      OnlySample(cb, b, b1, segs, t0, t1);
    }
  }

  lemma OnlySample(cb: Config, b: Engine, b1: Engine, segs: seq<Segment>, t0: int, t1: int)
    requires 0 <= t1 - t0 < TWO31 && b.acks == [] && b1.acks == InputSegs(Exact, cb, b, segs).acks
    requires forall s :: s in segs && s.cmd == CMD_PUSH ==> s.ts == U32(t0)
    ensures forall x :: x in Samples(U32(t1), FlushSegs(Exact, cb, b1)) ==> x == t1 - t0
  {
    hide FlushSegs, InputSegs, Samples, Called, U32, TimeDiff, Admitted, ProbeTimer;
    AcksExact(Exact, cb, b, segs);
    CalledAt(cb, b, segs, U32(t0));
    FlushSegsKinds(Exact, cb, b1);
    TimeDiffExact(t1, t0);
    SamplesFrom(U32(t1), FlushSegs(Exact, cb, b1), t1 - t0);
  }

  /** Repeating one sample does not move the smoothed time away from it. */
  lemma {:induction false} SteadySamples(minRto: u32, samples: seq<int>, x: int)
    requires 0 < x && 8 * x < TWO31 && minRto <= Rtt.RTO_MAX && samples != [] && forall y :: y in samples ==> y == x
    ensures var r := Rtt.UpdateAll(Rtt.Rtt(0, 0, Rtt.RTO_DEF), minRto, samples);
      r.srtt == x && 0 <= r.rttval <= x / 2
  {
    hide Rtt.Update;
    var n := |samples| - 1;
    var start := Rtt.Rtt(0, 0, Rtt.RTO_DEF);
    assert samples[n] in samples;
    if n == 0 {
      assert samples[..0] == [];
      assert Rtt.UpdateAll(start, minRto, []) == start;
      Rtt.UpdateIsRfc6298(start, minRto, x, x);
    } else {
      assert forall y :: y in samples[..n] ==> y in samples;
      SteadySamples(minRto, samples[..n], x);
      Rtt.UpdateIsRfc6298(Rtt.UpdateAll(start, minRto, samples[..n]), minRto, x, x);
    }
  }

  /** So the first clean exchange of a connection sets the smoothed round-trip time to
      exactly the time it took, whatever number of segments it carried. */
  lemma FirstRoundTrip(ca: Config, cb: Config, a: Engine, b: Engine, i: nat, t0: int, t1: int)
    requires ca.Valid() && cb.Valid() && Ok(ca, a) && Ok(cb, b)
    requires a.pace.updated && b.pace.updated && a.current == U32(t0) && 0 < t1 - t0 && 8 * (t1 - t0) < TWO31
    requires a.rtt == Create().rtt && b.acks == []
    requires i < |FlushSegs(Exact, ca, a)| && FlushSegs(Exact, ca, a)[i].cmd == CMD_PUSH
    requires var segs := FlushSegs(Exact, ca, a);
      segs[i].sn < InputSegs(Exact, cb, b, segs[..i]).rcv.nxt + cb.rcvWnd
    ensures var (a1, ds) := Flush(Exact, ca, a);
      var (_, ds2) := Flush(Exact, cb, InputAll(cb, b, ds));
      InputAll(ca, Clocked(a1, U32(t1)), ds2).rtt.srtt == t1 - t0
  {
    hide FlushSegs, InputSegs, Flush, Ok, Samples, Flatten, U32, InputAll;
    RoundTripMeasured(ca, cb, a, b, i, t0, t1);
    var ds := Flush(Exact, ca, a).1;
    var ds2 := Flush(Exact, cb, InputAll(cb, b, ds)).1;
    SteadySamples(ca.minRto, Samples(U32(t1), Flatten(ds2)), t1 - t0);
  }
}
