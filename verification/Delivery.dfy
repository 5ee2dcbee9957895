/** Messages get through. From every reachable state of the two endpoints, whatever has been
    lost, there is a way on, made of timer calls, flushes, receive calls and deliveries of
    datagrams not yet emitted, after which a message has been received: if and only if neither
    it nor a message before it has more fragments than the receive window. */
module Delivery {
  import opened SerialNumbers
  import opened Segments
  import opened SendSide
  import opened RecvSide
  import opened Engine
  import opened Shape
  import opened Robustness
  import opened Wire
  import opened Channel
  import opened Protocol
  import opened Guarantees
  import opened Progress
  import opened Retransmission

  // ----- ways on from a state ----------------------------------------------------------------------

  function Other(who: End): End { if who == A then B else A }

  /** The system with `src` at end `who` and `dst` facing it. */
  function Pair(who: End, src: Host, dst: Host): System { if who == A then System(src, dst) else System(dst, src) }

  ghost predicate ValidSystem(s: System) { s.a.cfg.Valid() && s.b.cfg.Valid() }

  /** The system after further actions. */
  function Do(s: System, acts: seq<(End, Action)>): (t: System)
    requires s.a.cfg.Valid() && s.b.cfg.Valid()
    ensures t.a.cfg == s.a.cfg && t.b.cfg == s.b.cfg
  {
    if acts == [] then s
    else
      var n := |acts| - 1;
      SystemStep(Do(s, acts[..n]), acts[n].0, acts[n].1)
  }

  /** Nothing new is sent, and nothing is delivered that had been emitted before `s`: all
      that was under way may as well be lost. */
  ghost predicate Quiet(s: System, acts: seq<(End, Action)>) {
    forall i :: 0 <= i < |acts| ==>
      && !acts[i].1.Say?
      && (acts[i].1.Deliver? ==> acts[i].1.k >= |Facing(s, acts[i].0).out|)
  }

  ghost predicate Leads(s: System, t: System)
    requires ValidSystem(s)
  {
    exists acts :: Quiet(s, acts) && Do(s, acts) == t
  }

  lemma {:induction false} DoConcat(s: System, x: seq<(End, Action)>, y: seq<(End, Action)>)
    requires ValidSystem(s)
    ensures Do(s, x + y) == Do(Do(s, x), y)
  {
    hide SystemStep;
    if y == [] {
      assert x + y == x;
    } else {
      var n := |y| - 1;
      assert (x + y)[..|x + y| - 1] == x + y[..n];
      DoConcat(s, x, y[..n]);
    }
  }

  lemma {:induction false} DoRun(ca: Config, cb: Config, run: seq<(End, Action)>, acts: seq<(End, Action)>)
    requires ca.Valid() && cb.Valid()
    ensures RunSystem(ca, cb, run + acts) == Do(RunSystem(ca, cb, run), acts)
  {
    hide SystemStep;
    if acts == [] {
      assert run + acts == run;
    } else {
      var n := |acts| - 1;
      assert (run + acts)[..|run + acts| - 1] == run + acts[..n];
      DoRun(ca, cb, run, acts[..n]);
    }
  }

  /** What an endpoint never loses: its link, its place, its parameters and its histories. */
  ghost predicate Onward(h: Host, h': Host) {
    && h'.cfg == h.cfg && h'.sent == h.sent && h.got <= h'.got && h.out <= h'.out
    && Forward(h.eng, h'.eng)
    && (h.eng.pace.updated ==> h'.eng.pace.updated)
  }

  lemma FlushPace(cfg: Config, e: Engine)
    requires cfg.Valid()
    ensures FlushState(Exact, cfg, e).pace == e.pace
  {
  }

  lemma StepOnward(h: Host, peer: Host, act: Action)
    requires h.cfg.Valid() && Ok(h.cfg, h.eng) && !act.Say?
    ensures Onward(h, Step(h, peer, act))
  {
    hide Ok, InputSegs, Take, FlushState, FlushSegs, Pack, Tick, Grow;
    StepHistory(h, peer, act);
    match act
    case Say(msg) =>
    case Hear(len) => RecvOk(h.cfg, h.eng, len);
    case Advance(now) =>
      UpdateOk(h.cfg, h.eng, now);
      TickUpdates(h.eng.pace, h.cfg.interval, now);
      FlushPace(h.cfg, h.eng.(current := now, pace := Tick(h.eng.pace, h.cfg.interval, now).0));
    case FlushNow =>
      FlushOk(h.cfg, h.eng);
      FlushPace(h.cfg, h.eng);
    case Deliver(k) =>
      if k < |peer.out| {
        InputKeepsOk(h.cfg, h.eng, peer.out[k]);
        InputKeepsPace(h.cfg, h.eng, peer.out[k]);
      }
  }

  lemma TickUpdates(p: Pace, interval: u32, now: u32)
    ensures Tick(p, interval, now).0.updated
  {
  }

  ghost predicate BothOnward(s: System, t: System) { Onward(s.a, t.a) && Onward(s.b, t.b) }

  lemma {:induction false} DoKeeps(s: System, acts: seq<(End, Action)>)
    requires Linked(s) && ValidSystem(s) && forall i :: 0 <= i < |acts| ==> !acts[i].1.Say?
    ensures Linked(Do(s, acts)) && BothOnward(s, Do(s, acts))
  {
    hide Step, Link;
    if acts != [] {
      var n := |acts| - 1;
      DoKeeps(s, acts[..n]);
      var t := Do(s, acts[..n]);
      SystemStepLinked(t, acts[n].0, acts[n].1);
      LinkValid(t.a, t.b);
      StepOnward(t.a, t.b, acts[n].1);
      StepOnward(t.b, t.a, acts[n].1);
    }
  }

  lemma LeadsKeeps(s: System, t: System)
    requires ValidSystem(s) && Linked(s) && Leads(s, t)
    ensures ValidSystem(t) && Linked(t) && BothOnward(s, t)
  {
    hide Linked, BothOnward;
    var acts :| Quiet(s, acts) && Do(s, acts) == t;
    DoKeeps(s, acts);
  }

  lemma LeadsOn(s: System, t: System, u: System)
    requires ValidSystem(s) && Linked(s) && Leads(s, t) && ValidSystem(t) && Leads(t, u)
    ensures Leads(s, u)
  {
    hide Linked, Do, Quiet, Forward;
    LeadsKeeps(s, t);
    var x :| Quiet(s, x) && Do(s, x) == t;
    var y :| Quiet(t, y) && Do(t, y) == u;
    DoConcat(s, x, y);
    QuietConcat(s, t, x, y);
  }

  lemma QuietConcat(s: System, t: System, x: seq<(End, Action)>, y: seq<(End, Action)>)
    requires Quiet(s, x) && Quiet(t, y) && s.a.out <= t.a.out && s.b.out <= t.b.out
    ensures Quiet(s, x + y)
  {
    var z := x + y;
    forall i | 0 <= i < |z| ensures !z[i].1.Say? && (z[i].1.Deliver? ==> z[i].1.k >= |Facing(s, z[i].0).out|) {
      assert z[i] == if i < |x| then x[i] else y[i - |x|];
    }
  }

  lemma LeadsNowhere(s: System)
    requires ValidSystem(s)
    ensures Leads(s, s)
  {
    assert Quiet(s, []) && Do(s, []) == s;
  }

  // ----- one flush, delivered whole -------------------------------------------------------------------

  /** What `dst` becomes when the datagrams `ds` reach it. */
  function Reached(dst: Host, ds: seq<Datagram>): Host
    requires dst.cfg.Valid()
  {
    dst.(eng := InputAll(dst.cfg, dst.eng, ds))
  }

  /** `src` flushes, and all of it reaches `dst` in order. */
  function Over(who: End, src: Host, dst: Host): System
    requires src.cfg.Valid() && dst.cfg.Valid()
  {
    var (e, ds) := Flush(Exact, src.cfg, src.eng);
    Pair(who, src.(eng := e, out := src.out + ds), Reached(dst, ds))
  }

  function Deliveries(who: End, from: nat, n: nat): (acts: seq<(End, Action)>)
    ensures |acts| == n
    ensures forall i :: 0 <= i < n ==> acts[i] == (Other(who), Deliver(from + i))
  {
    seq(n, i requires 0 <= i < n => (Other(who), Deliver(from + i)))
  }

  lemma {:induction false} DeliveriesReach(who: End, src: Host, dst: Host, from: nat, n: nat)
    requires src.cfg.Valid() && dst.cfg.Valid() && from + n <= |src.out|
    ensures Do(Pair(who, src, dst), Deliveries(who, from, n)) == Pair(who, src, Reached(dst, src.out[from..from + n]))
  {
    hide Input, Do, Deliveries;
    var s := Pair(who, src, dst);
    var ds := src.out[from..from + n];
    if n == 0 {
      assert Deliveries(who, from, n) == [];
      DoNothing(s);
    } else {
      DeliveriesReach(who, src, dst, from, n - 1);
      assert Deliveries(who, from, n) == Deliveries(who, from, n - 1) + [(Other(who), Deliver(from + (n - 1)))];
      assert ds[..n - 1] == src.out[from..from + (n - 1)] && ds[n - 1] == src.out[from + (n - 1)];
      DoConcat(s, Deliveries(who, from, n - 1), [(Other(who), Deliver(from + (n - 1)))]);
      DoOne(Pair(who, src, Reached(dst, ds[..n - 1])), Other(who), Deliver(from + (n - 1)));
    }
  }

  lemma DoNothing(s: System)
    requires ValidSystem(s)
    ensures Do(s, []) == s
  {
  }

  /** The clock of an endpoint moves, and its timer notes it. */
  function Awake(h: Host, now: u32): Host {
    h.(eng := h.eng.(current := now, pace := Tick(h.eng.pace, h.cfg.interval, now).0))
  }

  /** The actions that make an endpoint flush at a given time. */
  function FlushAt(who: End, h: Host, now: u32): seq<(End, Action)> {
    if Tick(h.eng.pace, h.cfg.interval, now).1 then [(who, Advance(now))] else [(who, Advance(now)), (who, FlushNow)]
  }

  lemma DoOne(s: System, who: End, act: Action)
    requires ValidSystem(s)
    ensures Do(s, [(who, act)]) == SystemStep(s, who, act)
  {
    hide SystemStep;
    assert [(who, act)][..0] == [];
    assert Do(s, []) == s;
  }

  lemma FlushAtDoes(who: End, src: Host, dst: Host, now: u32)
    requires src.cfg.Valid() && dst.cfg.Valid()
    ensures Do(Pair(who, src, dst), FlushAt(who, src, now)) == Pair(who, Step(Awake(src, now), dst, FlushNow), dst)
  {
    hide Step, Tick, Do;
    var s := Pair(who, src, dst);
    AdvanceSplits(src, dst, now);
    DoOne(s, who, Advance(now));
    if !Tick(src.eng.pace, src.cfg.interval, now).1 {
      DoOne(Pair(who, Awake(src, now), dst), who, FlushNow);
      DoConcat(s, [(who, Advance(now))], [(who, FlushNow)]);
      assert FlushAt(who, src, now) == [(who, Advance(now))] + [(who, FlushNow)];
    }
  }

  /** A flush at a given time, delivered whole, is a way on. */
  lemma CanSendAt(who: End, src: Host, dst: Host, now: u32)
    requires src.cfg.Valid() && dst.cfg.Valid()
    ensures Leads(Pair(who, src, dst), Over(who, Awake(src, now), dst))
  {
    hide Tick, Flush, Reached, Do;
    var s := Pair(who, src, dst);
    var src1 := Step(Awake(src, now), dst, FlushNow);
    var ds := Flush(Exact, src.cfg, Awake(src, now).eng).1;
    FlushAtDoes(who, src, dst, now);
    var from := |src.out|;
    DeliveriesReach(who, src1, dst, from, |ds|);
    assert src1.out[from..from + |ds|] == ds;
    var x, y := FlushAt(who, src, now), Deliveries(who, from, |ds|);
    DoConcat(s, x, y);
    assert Quiet(s, x + y);
  }

  /** So is a flush now, once the endpoint has been updated. */
  lemma CanSend(who: End, src: Host, dst: Host)
    requires src.cfg.Valid() && dst.cfg.Valid()
    ensures Leads(Pair(who, src, dst), Over(who, src, dst))
  {
    hide Tick, Flush, Reached, Do;
    var s := Pair(who, src, dst);
    var src1 := Step(src, dst, FlushNow);
    var ds := Flush(Exact, src.cfg, src.eng).1;
    DoOne(s, who, FlushNow);
    var from := |src.out|;
    DeliveriesReach(who, src1, dst, from, |ds|);
    assert src1.out[from..from + |ds|] == ds;
    var x, y := [(who, FlushNow)], Deliveries(who, from, |ds|);
    DoConcat(s, x, y);
    assert Quiet(s, x + y);
  }

  // ----- the receiver is drained ------------------------------------------------------------------------

  /** No whole message waits at the front of the receive queue. */
  predicate Drained(r: Receiver) { PeekSize(r.queue) < 0 }

  lemma TakeShrinks(r: Receiver, wnd: nat)
    requires !Drained(r)
    ensures var (t, res) := Take(Exact, r, wnd, PeekSize(r.queue));
      res.Message? && |t.buf| + |t.queue| < |r.buf| + |r.queue|
  {
    hide Payload, Promote, PeekSize;
    PeekEmpty();
    var r1 := r.(queue := r.queue[MergeCount(r.queue)..]);
    var m := PromotePrefix(r1, wnd);
  }

  lemma PeekEmpty()
    ensures PeekSize([]) == -1
  {
  }

  /** Receive calls until nothing whole is left are a way on. */
  lemma {:induction false} CanDrain(who: End, src: Host, dst: Host) returns (dst': Host)
    requires src.cfg.Valid() && dst.cfg.Valid() && Linked(Pair(who, src, dst))
    ensures Leads(Pair(who, src, dst), Pair(who, src, dst')) && Drained(dst'.eng.rcv)
    decreases |dst.eng.rcv.buf| + |dst.eng.rcv.queue|
  {
    hide Linked, Take, Leads, Drained;
    var s := Pair(who, src, dst);
    if Drained(dst.eng.rcv) {
      dst' := dst;
      LeadsNowhere(s);
    } else {
      var len := PeekSize(dst.eng.rcv.queue);
      TakeShrinks(dst.eng.rcv, dst.cfg.rcvWnd);
      var dst1 := Step(dst, src, Hear(len));
      var t := Pair(who, src, dst1);
      LeadsHear(who, src, dst, len);
      LeadsKeeps(s, t);
      dst' := CanDrain(who, src, dst1);
      LeadsOn(s, t, Pair(who, src, dst'));
    }
  }

  lemma LeadsHear(who: End, src: Host, dst: Host, len: int)
    requires src.cfg.Valid() && dst.cfg.Valid()
    ensures Leads(Pair(who, src, dst), Pair(who, src, Step(dst, src, Hear(len))))
  {
    hide Step, Do;
    var s := Pair(who, src, dst);
    DoOne(s, Other(who), Hear(len));
    assert Quiet(s, [(Other(who), Hear(len))]);
  }

  /** Neither message `i` nor a message before it has more fragments than the window. */
  ghost predicate FitUpTo(src: Host, dst: Host, i: nat)
    requires src.cfg.Valid()
  {
    forall j :: 0 <= j <= i ==> !Oversized(src.cfg.Mss(), dst.cfg.rcvWnd, src.sent, j)
  }

  /** A drained receiver does not hold all of the next message, so it has room for it. */
  lemma DrainedHasRoom(src: Host, dst: Host, i: nat)
    requires Link(src, dst) && Drained(dst.eng.rcv) && FitUpTo(src, dst, i) && |dst.got| <= i
    ensures |dst.eng.rcv.queue| < dst.cfg.rcvWnd
    ensures dst.eng.rcv.queue != [] ==>
      |dst.got| < |src.sent| && |dst.eng.rcv.queue| < FragCount(src.cfg.Mss(), |src.sent[|dst.got|]|)
  {
    hide SenderHolds, PushesOk, Counted, AcksOk, NothingLost, InOrder, Payload, Promote, Holds, FragCount, Sendable,
         Stream;
    hide PeekSize;
    var r := dst.eng.rcv;
    if r.queue != [] {
      QueueStartsMessage(src.cfg.Mss(), src.sent, dst.got, r, dst.cfg.rcvWnd, src.eng.snd.nxt);
      TakeDeliversMessage(r, dst.cfg.rcvWnd, 0, src.cfg.Mss(), src.sent[|dst.got|]);
      assert !Oversized(src.cfg.Mss(), dst.cfg.rcvWnd, src.sent, |dst.got|);
    }
  }

  /** How many fragments messages 0 to `i` amount to. */
  ghost function Upto(src: Host, i: nat): nat
    requires src.cfg.Valid() && AllSendable(src.cfg.Mss(), src.sent) && i < |src.sent|
  {
    |Stream(src.cfg.Mss(), src.sent[..i + 1])|
  }

  /** While a drained receiver lacks one of the messages, some fragment of them is not
      acknowledged. */
  lemma MissingIsOutstanding(src: Host, dst: Host, i: nat)
    requires Link(src, dst) && Drained(dst.eng.rcv) && FitUpTo(src, dst, i) && |dst.got| <= i < |src.sent|
    ensures src.eng.snd.una < Upto(src, i)
  {
    hide SenderHolds, PushesOk, Counted, AcksOk, NothingLost, Holds, FragCount, Sendable, Stream, PeekSize, Drained;
    var k, mss, r := |dst.got|, src.cfg.Mss(), dst.eng.rcv;
    FragCountPositive(mss, src.sent[k]);
    DrainedHasRoom(src, dst, i);
    RoomMeansReachable(src, dst);
    assert dst.got == src.sent[..k];
    StreamSlice(mss, src.sent, k, r.nxt - |r.queue|);
    assert src.sent[..i + 1][..k + 1] == src.sent[..k + 1];
    StreamAt(mss, src.sent[..i + 1], k + 1);
  }

  lemma FragCountPositive(mss: int, msg: Bytes)
    requires mss > 0
    ensures FragCount(mss, |msg|) > 0
  {
  }

  // ----- one round ------------------------------------------------------------------------------------------

  /** What a round needs: the receiver has room and has been updated. */
  ghost predicate Prepared(who: End, src: Host, dst: Host) {
    && src.cfg.Valid() && dst.cfg.Valid() && Linked(Pair(who, src, dst))
    && dst.eng.pace.updated && |dst.eng.rcv.queue| < dst.cfg.rcvWnd
  }

  /** The first segment in `snd_buf`, once new ones are admitted, is emitted by a flush. */
  ghost predicate HeadDue(cfg: Config, e: Engine) {
    var buf := Admitted(Exact, cfg, e).buf;
    buf != [] && CauseOf(TxOf(cfg, e), buf[0]) != Wait
  }

  lemma PairLinks(who: End, src: Host, dst: Host)
    requires Linked(Pair(who, src, dst))
    ensures Link(src, dst) && Link(dst, src)
  {
    hide Link;
  }

  lemma AwakeLinked(src: Host, dst: Host, now: u32)
    requires Link(src, dst)
    ensures Link(Awake(src, now), dst) && Awake(src, now).eng.pace.updated
  {
    hide Link;
    LinkTimer(src, dst, now, Tick(src.eng.pace, src.cfg.interval, now).0);
    TickUpdates(src.eng.pace, src.cfg.interval, now);
  }

  /** A flush each way, delivered whole, moves `snd_una` if the first segment was due. */
  lemma CanAdvance(who: End, src: Host, dst: Host, now: u32) returns (t: System)
    requires Prepared(who, src, dst) && HeadDue(src.cfg, Awake(src, now).eng)
    ensures Leads(Pair(who, src, dst), t) && At(t, who).eng.snd.una > src.eng.snd.una
  {
    hide Link, Leads, Flush, InputAll, CauseOf, Admitted;
    var s, a := Pair(who, src, dst), Awake(src, now);
    PairLinks(who, src, dst);
    AwakeLinked(src, dst, now);
    var t1 := Over(who, a, dst);
    CanSendAt(who, src, dst, now);
    LeadsKeeps(s, t1);
    t := Over(Other(who), Facing(t1, who), At(t1, who));
    CanSend(Other(who), Facing(t1, who), At(t1, who));
    LeadsOn(s, t1, t);
    RoundTripAdvances(a, dst);
  }

  /** The time at which the first segment in `snd_buf` is due: now, or its deadline. */
  function DueTime(src: Host): u32 {
    var buf := src.eng.snd.buf;
    if buf != [] && CauseOf(TxOf(src.cfg, src.eng), buf[0]) == Wait then buf[0].resendts else src.eng.current
  }

  lemma OutstandingIsDue(src: Host)
    requires src.eng.snd.buf != []
    ensures HeadDue(src.cfg, Awake(src, DueTime(src)).eng)
  {
    hide Tick, Admit;
    var e := Awake(src, DueTime(src)).eng;
    var m := AdmitPrefix(e.snd, SendWindow(src.cfg, e.cong), e.current, e.rtt.rto);
    var head := src.eng.snd.buf[0];
    assert Admitted(Exact, src.cfg, e).buf[..|e.snd.buf|][0] == head;
    SameTime(head.resendts);
  }

  lemma SameTime(x: u32)
    ensures TimeDiff(x, x) == 0
  {
  }

  /** With nothing outstanding, an open window lets the first queued segment out at once. */
  lemma QueuedIsDue(src: Host, wnd: nat)
    requires SenderShape(src.eng.snd, wnd) && src.eng.snd.buf == [] && src.eng.snd.queue != []
    requires SendWindow(src.cfg, src.eng.cong) >= 1
    ensures HeadDue(src.cfg, Awake(src, DueTime(src)).eng)
  {
    hide Tick, Admit, SendWindow;
    var e := Awake(src, DueTime(src)).eng;
    var m := AdmitPrefix(e.snd, SendWindow(src.cfg, e.cong), e.current, e.rtt.rto);
  }

  // ----- opening the window -----------------------------------------------------------------------------------

  /** With nothing outstanding and a closed window, a flush carries no data. */
  lemma IdleFlush(cfg: Config, e: Engine)
    requires cfg.Valid() && Ok(cfg, e) && e.snd.buf == [] && SendWindow(cfg, e.cong) == 0
    ensures Admitted(Exact, cfg, e) == e.snd
    ensures forall s :: s in FlushSegs(Exact, cfg, e) ==> s.cmd != CMD_PUSH
  {
    hide SendWindow, FlushSegs, CauseOf, Push;
    FlushSegsKinds(Exact, cfg, e);
    assert Due(TxOf(cfg, e), []) == [];
  }

  lemma IdleState(cfg: Config, e: Engine)
    requires cfg.Valid() && Ok(cfg, e) && Admitted(Exact, cfg, e) == e.snd && e.snd.buf == []
    ensures var e' := FlushState(Exact, cfg, e);
      && e'.snd == e.snd && e'.cong.cwnd >= 1 && e'.cong.rmtWnd == e.cong.rmtWnd
      && e'.probe.wait == ProbeTimer(e.probe, e.cong.rmtWnd, e.current).wait
  {
    hide ProbeTimer, SendWindow, U32, CountCause, ReachesDeadLink, Admitted, Ok;
    FlushStateOk(cfg, e);
  }

  lemma {:induction false} WithoutData(cfg: Config, e: Engine, segs: seq<Segment>)
    requires forall s :: s in segs ==> s.cmd != CMD_PUSH
    ensures InputSegs(Exact, cfg, e, segs).rcv == e.rcv
  {
    hide TakeUna, TakeAck;
    if segs != [] {
      var n := |segs| - 1;
      WithoutData(cfg, e, segs[..n]);
      assert segs[n] in segs;
    }
  }

  /** A window question is remembered until the next flush. */
  lemma {:induction false} QuestionIsHeard(cfg: Config, e: Engine, segs: seq<Segment>, i: nat)
    requires i < |segs| && segs[i].cmd == CMD_WASK
    ensures InputSegs(Exact, cfg, e, segs).probe.tell
    decreases |segs|
  {
    hide TakeUna, TakeAck, TakeData;
    var n := |segs| - 1;
    if i < n {
      QuestionIsHeard(cfg, e, segs[..n], i);
    }
  }

  /** The window last reported is the one that counts. */
  lemma {:induction false} ReportIsNoted(cfg: Config, e: Engine, segs: seq<Segment>, w: u16)
    requires segs != [] && segs[|segs| - 1].wnd == w
    ensures InputSegs(Exact, cfg, e, segs).cong == InputSegs(Exact, cfg, e, segs[..|segs| - 1]).cong.(rmtWnd := w)
  {
    hide TakeUna, TakeAck, TakeData;
  }

  lemma {:induction false} InputKeepsCwnd(cfg: Config, e: Engine, segs: seq<Segment>)
    ensures InputSegs(Exact, cfg, e, segs).cong.cwnd == e.cong.cwnd
  {
    if segs != [] {
      var n := |segs| - 1;
      InputKeepsCwnd(cfg, e, segs[..n]);
      ReportIsNoted(cfg, e, segs, segs[n].wnd);
    }
  }

  lemma GrowKeepsOpen(mss: int, c: Congestion)
    requires 0 < mss < TWO31
    ensures Grow(mss, c).rmtWnd == c.rmtWnd && (c.cwnd >= 1 ==> Grow(mss, c).cwnd >= 1)
  {
    hide Grow;
    GrowthBounded(mss, c);
  }

  /** Datagrams that all report the same window leave it as the peer's window. */
  lemma {:induction false} ReportsAreNoted(cfg: Config, e: Engine, ds: seq<Datagram>, w: u16)
    requires cfg.Valid() && forall s :: s in Flatten(ds) ==> s.wnd == w
    requires forall i :: 0 <= i < |ds| ==> ds[i] != []
    ensures var e' := InputAll(cfg, e, ds);
      && (ds != [] ==> e'.cong.rmtWnd == w)
      && (e.cong.cwnd >= 1 ==> e'.cong.cwnd >= 1)
  {
    hide InputSegs, Grow, Flatten;
    if ds != [] {
      var n := |ds| - 1;
      var e1, d := InputAll(cfg, e, ds[..n]), ds[n];
      forall s | s in Flatten(ds[..n]) ensures s.wnd == w { FlattenFront(ds, s); }
      ReportsAreNoted(cfg, e, ds[..n], w);
      FlattenContains(ds, n, d[|d| - 1]);
      ReportIsNoted(cfg, e1, d, w);
      InputKeepsCwnd(cfg, e1, d);
      GrowKeepsOpen(cfg.Mss(), InputSegs(Exact, cfg, e1, d).cong);
    }
  }

  lemma FlattenFront(ds: seq<Datagram>, s: Segment)
    requires ds != [] && s in Flatten(ds[..|ds| - 1])
    ensures s in Flatten(ds)
  {
  }

  /** Such a flush, delivered whole, leaves the receiver as it was, and a window question in
      it makes the receiver answer. */
  lemma IdleOver(who: End, a: Host, dst: Host)
    requires Link(a, dst) && Link(dst, a) && a.eng.pace.updated
    requires a.eng.snd.buf == [] && SendWindow(a.cfg, a.eng.cong) == 0
    ensures var t := Over(who, a, dst); var p := ProbeTimer(a.eng.probe, a.eng.cong.rmtWnd, a.eng.current);
      && At(t, who).eng.snd == a.eng.snd && At(t, who).eng.cong.cwnd >= 1
      && At(t, who).eng.cong.rmtWnd == a.eng.cong.rmtWnd
      && At(t, who).eng.probe.wait == p.wait
      && Facing(t, who).eng.rcv == dst.eng.rcv
      && (p.ask ==> Facing(t, who).eng.probe.tell)
  {
    hide Link, FlushSegs, FlushState, Pack, InputSegs, Ok, ProbeTimer, SendWindow, InputAll;
    LinkValid(a, dst);
    IdleFlush(a.cfg, a.eng);
    IdleState(a.cfg, a.eng);
    FlushLossless(a.cfg, a.eng);
    var segs, ds := FlushSegs(Exact, a.cfg, a.eng), Flush(Exact, a.cfg, a.eng).1;
    InputAllFlattens(dst.cfg, dst.eng, ds);
    WithoutData(dst.cfg, dst.eng, segs);
    if ProbeTimer(a.eng.probe, a.eng.cong.rmtWnd, a.eng.current).ask {
      var i := QuestionIsAsked(a.cfg, a.eng);
      QuestionIsHeard(dst.cfg, dst.eng, segs, i);
    }
  }

  lemma QuestionIsAsked(cfg: Config, e: Engine) returns (i: nat)
    requires ProbeTimer(e.probe, e.cong.rmtWnd, e.current).ask
    ensures i < |FlushSegs(Exact, cfg, e)| && FlushSegs(Exact, cfg, e)[i].cmd == CMD_WASK
  {
    hide ProbeTimer, Admitted, Due, WndUnused;
    i := |e.acks|;
  }

  lemma Opens(cfg: Config, c: Congestion)
    requires cfg.Valid() && c.cwnd >= 1
    ensures SendWindow(cfg, c) >= 1 <==> c.rmtWnd >= 1
  {
  }

  /** A receiver that has been asked and has room opens the window with its next flush. */
  lemma AnswerOpens(who: End, src: Host, dst: Host)
    requires Link(src, dst) && dst.eng.pace.updated && dst.eng.probe.tell && src.eng.cong.cwnd >= 1
    requires |dst.eng.rcv.queue| < dst.cfg.rcvWnd < TWO16
    ensures var t := Over(Other(who), dst, src);
      SendWindow(src.cfg, At(t, who).eng.cong) >= 1 && Facing(t, who).eng.rcv == dst.eng.rcv
  {
    hide Link, FlushSegs, Pack, Ok, InputAll, SendWindow, Admitted, Reduce, ProbeTimer, Flatten;
    LinkValid(src, dst);
    FlushLossless(dst.cfg, dst.eng);
    FlushSegsKinds(Exact, dst.cfg, dst.eng);
    TellAnnounces(dst.cfg, dst.eng);
    var ds := Flush(Exact, dst.cfg, dst.eng).1;
    FlattenEmpty();
    ReportsAreNoted(src.cfg, src.eng, ds, WndUnused(dst.cfg, dst.eng.rcv));
    Opens(src.cfg, InputAll(src.cfg, src.eng, ds).cong);
  }

  lemma FlattenEmpty()
    ensures Flatten([]) == []
  {
  }

  /** The probe timer starts, and runs out at its time. */
  lemma ProbeRunsOut(p: Probe)
    requires p.wait != 0
    ensures ProbeTimer(p, 0, p.ts).ask
  {
    SameTime(p.ts);
    hide TimeDiff, U32;
  }

  lemma ProbeStarts(p: Probe, now: u32)
    requires ProbeOk(p)
    ensures ProbeTimer(p, 0, now).wait != 0
  {
    hide ProbeTimer;
    ProbeDiscipline(p, 0, now);
  }

  lemma ProbeIsOk(cfg: Config, e: Engine)
    requires Ok(cfg, e)
    ensures ProbeOk(e.probe)
  {
  }

  /** A closed window can be opened: the probe timer runs out, the receiver is asked, and its
      answer comes back. Meanwhile the receiver takes in nothing. */
  lemma CanOpen(who: End, src: Host, dst: Host) returns (t: System)
    requires Prepared(who, src, dst) && src.eng.snd.buf == [] && dst.cfg.rcvWnd < TWO16
    ensures Leads(Pair(who, src, dst), t) && SendWindow(src.cfg, At(t, who).eng.cong) >= 1
    ensures Facing(t, who).eng.rcv == dst.eng.rcv
  {
    hide Link, Leads, Over, SendWindow, ProbeTimer, Tick, ProbeOk;
    var s := Pair(who, src, dst);
    if SendWindow(src.cfg, src.eng.cong) >= 1 {
      LeadsNowhere(s);
      return s;
    }
    var a := Awake(src, src.eng.current);
    PairLinks(who, src, dst);
    AwakeLinked(src, dst, src.eng.current);
    AwakeFaces(src, dst, src.eng.current);
    IdleOver(who, a, dst);
    var t1 := Over(who, a, dst);
    CanSendAt(who, src, dst, src.eng.current);
    LeadsKeeps(s, t1);
    var src1, dst1 := At(t1, who), Facing(t1, who);
    Opens(src.cfg, src1.eng.cong);
    if a.eng.cong.rmtWnd != 0 {
      return t1;
    }
    LinkValid(src, dst);
    ProbeIsOk(src.cfg, src.eng);
    ProbeStarts(src.eng.probe, src.eng.current);
    t := CanAsk(who, src1, dst1);
    LeadsOn(s, t1, t);
  }

  /** Asking, once the probe timer is running. */
  lemma CanAsk(who: End, src: Host, dst: Host) returns (t: System)
    requires Prepared(who, src, dst) && src.eng.snd.buf == [] && dst.cfg.rcvWnd < TWO16
    requires src.eng.cong.rmtWnd == 0 && src.eng.cong.cwnd >= 1 && src.eng.probe.wait != 0
    ensures Leads(Pair(who, src, dst), t) && SendWindow(src.cfg, At(t, who).eng.cong) >= 1
    ensures Facing(t, who).eng.rcv == dst.eng.rcv
  {
    hide Link, Leads, Over, SendWindow, ProbeTimer, Tick;
    var s, now := Pair(who, src, dst), src.eng.probe.ts;
    var a := Awake(src, now);
    PairLinks(who, src, dst);
    AwakeLinked(src, dst, now);
    AwakeFaces(src, dst, now);
    Opens(src.cfg, src.eng.cong);
    ProbeRunsOut(src.eng.probe);
    IdleOver(who, a, dst);
    var t1 := Over(who, a, dst);
    CanSendAt(who, src, dst, now);
    LeadsKeeps(s, t1);
    var src1, dst1 := At(t1, who), Facing(t1, who);
    PairLinks(who, src1, dst1);
    AnswerOpens(who, src1, dst1);
    t := Over(Other(who), dst1, src1);
    CanSend(Other(who), dst1, src1);
    LeadsOn(s, t1, t);
  }

  lemma AwakeFaces(src: Host, dst: Host, now: u32)
    requires Link(dst, src)
    ensures Link(dst, Awake(src, now))
  {
    hide Link;
    LinkTimerReceiver(dst, src, now, Tick(src.eng.pace, src.cfg.interval, now).0);
  }

  // ----- round after round ---------------------------------------------------------------------------------------

  /** While a fragment is unacknowledged and none is outstanding, one is queued. */
  lemma MoreToSend(src: Host, dst: Host, i: nat)
    requires Link(src, dst) && i < |src.sent| && src.eng.snd.una < Upto(src, i) && src.eng.snd.buf == []
    ensures src.eng.snd.queue != [] && SenderShape(src.eng.snd, src.cfg.sndWnd)
  {
    hide PushesOk, Counted, AcksOk, NothingLost, InOrder, ReceiverMatches, Stream;
    StreamAt(src.cfg.Mss(), src.sent, i);
  }

  /** A round is always possible, with the window opened first if need be, and moves
      `snd_una`. */
  lemma CanMove(who: End, src: Host, dst: Host, i: nat) returns (t: System)
    requires Prepared(who, src, dst) && dst.cfg.rcvWnd < TWO16
    requires AllSendable(src.cfg.Mss(), src.sent) && i < |src.sent| && src.eng.snd.una < Upto(src, i)
    ensures Leads(Pair(who, src, dst), t) && At(t, who).eng.snd.una > src.eng.snd.una
  {
    hide Link, Leads, HeadDue, SendWindow, Upto;
    if src.eng.snd.buf != [] {
      OutstandingIsDue(src);
      t := CanAdvance(who, src, dst, DueTime(src));
    } else {
      var s := Pair(who, src, dst);
      var t1 := CanOpen(who, src, dst);
      LeadsKeeps(s, t1);
      var src1, dst1 := At(t1, who), Facing(t1, who);
      if src1.eng.snd.una > src.eng.snd.una {
        return t1;
      }
      if src1.eng.snd.buf != [] {
        OutstandingIsDue(src1);
      } else {
        PairLinks(who, src1, dst1);
        SameUpto(src, src1, i);
        MoreToSend(src1, dst1, i);
        QueuedIsDue(src1, src1.cfg.sndWnd);
      }
      t := CanAdvance(who, src1, dst1, DueTime(src1));
      LeadsOn(s, t1, t);
    }
  }

  lemma SameUpto(h: Host, h': Host, i: nat)
    requires h.cfg.Valid() && h'.cfg == h.cfg && h'.sent == h.sent
    requires AllSendable(h.cfg.Mss(), h.sent) && i < |h.sent|
    ensures Upto(h', i) == Upto(h, i)
  {
  }

  lemma LinkSendable(src: Host, dst: Host)
    requires Link(src, dst)
    ensures AllSendable(src.cfg.Mss(), src.sent)
  {
  }

  /** Drain, and play a round, until the message is there. */
  lemma {:induction false} CanArrive(who: End, src: Host, dst: Host, i: nat) returns (t: System)
    requires src.cfg.Valid() && dst.cfg.Valid() && Linked(Pair(who, src, dst))
    requires dst.eng.pace.updated && dst.cfg.rcvWnd < TWO16
    requires AllSendable(src.cfg.Mss(), src.sent) && i < |src.sent| && FitUpTo(src, dst, i)
    ensures Leads(Pair(who, src, dst), t) && |Facing(t, who).got| > i
    decreases Upto(src, i) - src.eng.snd.una
  {
    hide Link, Leads, Upto, Drained, FitUpTo;
    var s := Pair(who, src, dst);
    var dst1 := CanDrain(who, src, dst);
    var s1 := Pair(who, src, dst1);
    LeadsKeeps(s, s1);
    if |dst1.got| > i {
      return s1;
    }
    PairLinks(who, src, dst1);
    SameFit(src, dst, src, dst1, i);
    DrainedHasRoom(src, dst1, i);
    MissingIsOutstanding(src, dst1, i);
    var s2 := CanMove(who, src, dst1, i);
    LeadsKeeps(s1, s2);
    var src2, dst2 := At(s2, who), Facing(s2, who);
    SameUpto(src, src2, i);
    SameFit(src, dst, src2, dst2, i);
    t := CanArrive(who, src2, dst2, i);
    LeadsOn(s1, s2, t);
    LeadsOn(s, s1, t);
  }

  lemma SameFit(src: Host, dst: Host, src': Host, dst': Host, i: nat)
    requires src.cfg.Valid() && src'.cfg == src.cfg && src'.sent == src.sent && dst'.cfg == dst.cfg
    ensures FitUpTo(src', dst', i) == FitUpTo(src, dst, i)
  {
    hide Oversized;
  }

  /** An endpoint can always be updated. */
  lemma CanUpdate(who: End, src: Host, dst: Host) returns (t: System)
    requires src.cfg.Valid() && dst.cfg.Valid()
    ensures Leads(Pair(who, src, dst), t) && Facing(t, who).eng.pace.updated
  {
    hide Do, Flush, Tick;
    var s, act := Pair(who, src, dst), Advance(dst.eng.current);
    DoOne(s, Other(who), act);
    assert Quiet(s, [(Other(who), act)]);
    t := SystemStep(s, Other(who), act);
    var pace := Tick(dst.eng.pace, dst.cfg.interval, dst.eng.current).0;
    TickUpdates(dst.eng.pace, dst.cfg.interval, dst.eng.current);
    FlushKeepsUpdated(dst.cfg, dst.eng.(current := dst.eng.current, pace := pace));
  }

  lemma FlushKeepsUpdated(cfg: Config, e: Engine)
    requires cfg.Valid()
    ensures Flush(Exact, cfg, e).0.pace == e.pace
  {
    FlushPace(cfg, e);
  }

  /** Message `i` can still be received after the run, even if all that is under way is lost. */
  ghost predicate CanBeReceived(ca: Config, cb: Config, run: seq<(End, Action)>, who: End, i: nat)
    requires ca.Valid() && cb.Valid()
  {
    exists acts :: Quiet(RunSystem(ca, cb, run), acts) && |Facing(RunSystem(ca, cb, run + acts), who).got| > i
  }

  /** Messages get through: after any run, a message that was accepted can still be received
      if and only if neither it nor a message before it has more fragments than the window. */
  lemma ReceivableExactly(ca: Config, cb: Config, run: seq<(End, Action)>, who: End, i: nat)
    requires ca.Valid() && cb.Valid() && ca.rcvWnd < TWO16 && cb.rcvWnd < TWO16
    requires i < |At(RunSystem(ca, cb, run), who).sent|
    ensures var s := RunSystem(ca, cb, run);
      CanBeReceived(ca, cb, run, who, i) <==> FitUpTo(At(s, who), Facing(s, who), i)
  {
    hide RunSystem, Quiet, FitUpTo;
    var s := RunSystem(ca, cb, run);
    if FitUpTo(At(s, who), Facing(s, who), i) {
      FittingIsReceivable(ca, cb, run, who, i);
    }
    if CanBeReceived(ca, cb, run, who, i) {
      var acts :| Quiet(s, acts) && |Facing(RunSystem(ca, cb, run + acts), who).got| > i;
      ReceivedFits(ca, cb, run, acts, who, i);
    }
  }

  lemma FittingIsReceivable(ca: Config, cb: Config, run: seq<(End, Action)>, who: End, i: nat)
    requires ca.Valid() && cb.Valid() && ca.rcvWnd < TWO16 && cb.rcvWnd < TWO16
    requires var s := RunSystem(ca, cb, run); i < |At(s, who).sent| && FitUpTo(At(s, who), Facing(s, who), i)
    ensures CanBeReceived(ca, cb, run, who, i)
  {
    hide RunSystem, Quiet, FitUpTo, Link, Do;
    var s := RunSystem(ca, cb, run);
    EveryRunLinked(ca, cb, run);
    var src, dst := At(s, who), Facing(s, who);
    assert Pair(who, src, dst) == s;
    var s1 := CanUpdate(who, src, dst);
    LeadsKeeps(s, s1);
    var src1, dst1 := At(s1, who), Facing(s1, who);
    assert Pair(who, src1, dst1) == s1;
    PairLinks(who, src1, dst1);
    LinkSendable(src1, dst1);
    SameFit(src, dst, src1, dst1, i);
    var t := CanArrive(who, src1, dst1, i);
    LeadsOn(s, s1, t);
    var acts :| Quiet(s, acts) && Do(s, acts) == t;
    DoRun(ca, cb, run, acts);
  }

  lemma ReceivedFits(ca: Config, cb: Config, run: seq<(End, Action)>, acts: seq<(End, Action)>, who: End, i: nat)
    requires ca.Valid() && cb.Valid() && |Facing(RunSystem(ca, cb, run + acts), who).got| > i
    ensures var s := RunSystem(ca, cb, run); FitUpTo(At(s, who), Facing(s, who), i)
  {
    hide RunSystem, FragCount;
    var s := RunSystem(ca, cb, run);
    HistoriesGrow(ca, cb, run, acts, who);
    forall j | 0 <= j <= i ensures !Oversized(At(s, who).cfg.Mss(), Facing(s, who).cfg.rcvWnd, At(s, who).sent, j) {
      OversizedNeverReceived(ca, cb, run + acts, who, j);
    }
  }
}
