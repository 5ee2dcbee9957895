/** What the link between two endpoints means to their users, over every run. */
module Guarantees {
  import opened SerialNumbers
  import opened Segments
  import opened SendSide
  import opened RecvSide
  import opened Engine
  import opened Shape
  import opened Robustness
  import opened Wire
  import opened Channel
  import opened Protocol

  /** Safety end to end: at every moment the messages received at one end are the first
      messages accepted at the other: whole, in order, exactly once. */
  lemma ReceivedIsPrefixOfSent(ca: Config, cb: Config, run: seq<(End, Action)>)
    requires ca.Valid() && cb.Valid()
    ensures var s := RunSystem(ca, cb, run); s.b.got <= s.a.sent && s.a.got <= s.b.sent
  {
    hide SenderHolds, PushesOk, Counted, ReceiverMatches, AcksOk, NothingLost, Ok;
    EveryRunLinked(ca, cb, run);
  }

  /** No data is ever forgotten: every number below `snd_nxt` is still in the sender's
      `snd_buf`, or below the receiver's `rcv_nxt`, or in its `rcv_buf`. */
  lemma NothingForgotten(ca: Config, cb: Config, run: seq<(End, Action)>, who: End, sn: int)
    requires ca.Valid() && cb.Valid()
    ensures var s := RunSystem(ca, cb, run); var snd := At(s, who).eng.snd; var r := Facing(s, who).eng.rcv;
      0 <= sn < snd.nxt ==> Queued(snd.buf, sn) || sn < r.nxt || Buffered(r.buf, sn)
  {
    hide SenderHolds, PushesOk, Counted, ReceiverMatches, AcksOk, Ok, InOrder;
    EveryRunLinked(ca, cb, run);
  }

  /** Acknowledgements are true: every segment an endpoint has ever emitted reports a `una`
      it has reached, and acknowledges only a number it holds. */
  lemma AcknowledgementsAreTrue(ca: Config, cb: Config, run: seq<(End, Action)>, who: End, x: Segment)
    requires ca.Valid() && cb.Valid()
    requires x in Flatten(At(RunSystem(ca, cb, run), who).out)
    ensures var r := At(RunSystem(ca, cb, run), who).eng.rcv;
      0 <= x.una <= r.nxt && (x.cmd == CMD_ACK ==> Holds(r, x.sn))
  {
    hide SenderHolds, PushesOk, Counted, ReceiverMatches, NothingLost, Ok, InOrder, Holds, Flatten;
    EveryRunLinked(ca, cb, run);
  }

  /** A data segment carries the same payload in all its emissions, which is what `snd_buf`
      still holds for it, and `xmit` counts the emissions. */
  lemma EmissionsAgree(ca: Config, cb: Config, run: seq<(End, Action)>, who: End)
    requires ca.Valid() && cb.Valid()
    ensures var h := At(RunSystem(ca, cb, run), who); var wire := Flatten(h.out);
      && (forall x, y :: x in wire && y in wire && x.cmd == y.cmd == CMD_PUSH && x.sn == y.sn ==> x.frag == y.frag)
      && (forall x, t :: x in wire && t in h.eng.snd.buf && x.cmd == CMD_PUSH && x.sn == t.sn ==> x.frag == t.frag)
      && (forall t :: t in h.eng.snd.buf ==> t.xmit == U32(Emissions(wire, t.sn)))
  {
    hide ReceiverMatches, AcksOk, NothingLost, Ok, InOrder, Emissions, Flatten;
    EveryRunLinked(ca, cb, run);
    var h := At(RunSystem(ca, cb, run), who);
    var f := StreamOf(h);
    forall x | x in Flatten(h.out) && x.cmd == CMD_PUSH ensures Carries(f, h.eng.snd.nxt, x.sn, x.frag) {
      assert PushOk(x, h.eng.snd.nxt, f);
    }
  }

  /** The sender is never further ahead than the two windows together. */
  lemma WindowSpread(snd: Sender, sndWnd: nat, r: Receiver, rcvWnd: nat)
    requires SenderShape(snd, sndWnd) && ReceiverShape(r, rcvWnd) && NothingLost(snd, r) && 0 <= r.nxt && 0 <= snd.una
    ensures snd.nxt <= r.nxt + rcvWnd + sndWnd
  {
    var x := snd.una - 1;
    if x >= 0 {
      assert !Queued(snd.buf, x);
      assert Holds(r, x);
    }
  }

  /** So in every run, in both directions, `snd_nxt` of one end is at most both windows ahead
      of `rcv_nxt` of the other. */
  lemma EveryRunSpread(ca: Config, cb: Config, run: seq<(End, Action)>, who: End)
    requires ca.Valid() && cb.Valid()
    ensures var s := RunSystem(ca, cb, run); var src, dst := At(s, who), Facing(s, who);
      dst.eng.rcv.nxt <= src.eng.snd.nxt <= dst.eng.rcv.nxt + dst.cfg.rcvWnd + src.cfg.sndWnd
  {
    hide PushesOk, Counted, AcksOk, InOrder, NothingLost;
    EveryRunLinked(ca, cb, run);
    var s := RunSystem(ca, cb, run);
    var src, dst := At(s, who), Facing(s, who);
    WindowSpread(src.eng.snd, src.cfg.sndWnd, dst.eng.rcv, dst.cfg.rcvWnd);
  }

  /** Nothing goes out before the first update: neither messages nor explicit flushes nor
      anything that comes in make an endpoint emit. */
  lemma {:induction false} SilentBeforeUpdate(ca: Config, cb: Config, run: seq<(End, Action)>, who: End)
    requires ca.Valid() && cb.Valid()
    requires forall i :: 0 <= i < |run| && run[i].0 == who ==> !run[i].1.Advance?
    ensures var h := At(RunSystem(ca, cb, run), who); h.out == [] && !h.eng.pace.updated
  {
    hide Recv, Input, Send;
    if run != [] {
      var n := |run| - 1;
      assert forall i :: 0 <= i < n ==> run[..n][i] == run[i];
      SilentBeforeUpdate(ca, cb, run[..n], who);
      var s := RunSystem(ca, cb, run[..n]);
      if run[n].0 == who { SilentStep(At(s, who), Facing(s, who), run[n].1); }
    }
  }

  lemma SilentStep(h: Host, peer: Host, act: Action)
    requires h.cfg.Valid() && h.out == [] && !h.eng.pace.updated && !act.Advance?
    ensures Step(h, peer, act).out == [] && !Step(h, peer, act).eng.pace.updated
  {
    hide InputSegs, Take, Grow, Fragments, Sendable;
    if act.Deliver? && act.k < |peer.out| {
      PaceStays(h.cfg, h.eng, peer.out[act.k]);
    }
  }

  lemma {:induction false} PaceStays(cfg: Config, e: Engine, segs: seq<Segment>)
    ensures InputSegs(Exact, cfg, e, segs).pace == e.pace
  {
    hide TakeUna, TakeAck, TakeData;
    if segs != [] {
      PaceStays(cfg, e, segs[..|segs| - 1]);
    }
  }

  // ----- the receive window ------------------------------------------------------------------------

  /** The queue is full and the message at its front is not whole. */
  ghost predicate Stuck(cfg: Config, r: Receiver) {
    |r.queue| == cfg.rcvWnd && r.queue != [] && r.queue[0].frag.frg + 1 > |r.queue|
  }

  /** When the receive queue is full, offering a large enough buffer succeeds exactly when
      the next message has no more fragments than the window; it then returns that message,
      and the endpoint can take in more than before. Otherwise the queue is stuck. */
  lemma FullQueueDelivers(ca: Config, cb: Config, run: seq<(End, Action)>, len: nat)
    requires ca.Valid() && cb.Valid()
    requires |RunSystem(ca, cb, run).b.eng.rcv.queue| == cb.rcvWnd
    ensures var s := RunSystem(ca, cb, run); var (t, res) := Recv(Exact, cb, s.b.eng, len);
      && |s.b.got| < |s.a.sent|
      && var next := s.a.sent[|s.b.got|];
      && (|next| <= len ==> (res.Message? <==> FragCount(ca.Mss(), |next|) <= cb.rcvWnd))
      && (res.Message? ==> res.msg == next && (|t.rcv.queue| < cb.rcvWnd || t.rcv.nxt > s.b.eng.rcv.nxt))
      && (FragCount(ca.Mss(), |next|) > cb.rcvWnd ==> Stuck(cb, s.b.eng.rcv))
  {
    hide SenderHolds, PushesOk, Counted, AcksOk, NothingLost, InOrder, PeekSize, Payload, Promote, Holds, FragCount,
         Sendable, Stream;
    EveryRunLinked(ca, cb, run);
    var s := RunSystem(ca, cb, run);
    var r := s.b.eng.rcv;
    QueueStartsMessage(ca.Mss(), s.a.sent, s.b.got, r, cb.rcvWnd, s.a.eng.snd.nxt);
    var next := s.a.sent[|s.b.got|];
    TakeDeliversMessage(r, cb.rcvWnd, len, ca.Mss(), next);
    TakeMatches(r, cb.rcvWnd, len, s.a.eng.snd.nxt, StreamOf(s.a));
    TakeShape(r, cb.rcvWnd, len);
    assert r.queue[0].frag == Fragments(ca.Mss(), next)[0];
  }

  lemma {:induction false} StuckInput(cfg: Config, e: Engine, segs: seq<Segment>)
    requires Stuck(cfg, e.rcv)
    ensures InputSegs(Exact, cfg, e, segs).rcv.queue == e.rcv.queue
  {
    hide TakeUna, TakeAck;
    if segs != [] {
      StuckInput(cfg, e, segs[..|segs| - 1]);
    }
  }

  lemma StuckStep(h: Host, peer: Host, act: Action)
    requires h.cfg.Valid() && Stuck(h.cfg, h.eng.rcv)
    ensures Step(h, peer, act).eng.rcv.queue == h.eng.rcv.queue
    ensures Step(h, peer, act).got == h.got
  {
    hide InputSegs, Payload, Tick, Reduce, Admitted, FlushSegs, Pack, ProbeTimer, Grow;
    match act
    case Deliver(k) => if k < |peer.out| { StuckInput(h.cfg, h.eng, peer.out[k]); }
    case _ =>
  }

  /** A stuck queue stays stuck whatever happens at either end: nothing is received any more. */
  lemma {:induction false} StuckForever(ca: Config, cb: Config, run: seq<(End, Action)>, more: seq<(End, Action)>)
    requires ca.Valid() && cb.Valid() && Stuck(cb, RunSystem(ca, cb, run).b.eng.rcv)
    ensures RunSystem(ca, cb, run + more).b.eng.rcv.queue == RunSystem(ca, cb, run).b.eng.rcv.queue
    ensures RunSystem(ca, cb, run + more).b.got == RunSystem(ca, cb, run).b.got
    decreases |more|
  {
    hide Step;
    if more == [] {
      assert run + more == run;
    } else {
      var n := |more| - 1;
      StuckForever(ca, cb, run, more[..n]);
      assert (run + more)[..|run + more| - 1] == run + more[..n];
      var s := RunSystem(ca, cb, run + more[..n]);
      StuckStep(s.b, s.a, more[n].1);
    }
  }

  // ----- messages that do not fit the window ---------------------------------------------------------

  /** Whether message `i` of `sent` has more fragments than the receive window. */
  predicate Oversized(mss: int, rcvWnd: nat, sent: seq<Bytes>, i: nat)
    requires mss > 0
  {
    i < |sent| && FragCount(mss, |sent[i]|) > rcvWnd
  }

  /** A receive call returns a message only if all of it is in the queue at once. */
  lemma HearFits(src: Host, dst: Host, len: int)
    requires Link(src, dst)
    ensures var dst' := Step(dst, src, Hear(len));
      |dst'.got| > |dst.got| ==>
        |dst.got| < |src.sent| && !Oversized(src.cfg.Mss(), dst.cfg.rcvWnd, src.sent, |dst.got|)
  {
    hide SenderHolds, PushesOk, Counted, AcksOk, NothingLost, InOrder, PeekSize, Payload, Promote, Holds, FragCount;
    hide Sendable, Stream;
    var r := dst.eng.rcv;
    if r.queue != [] {
      QueueStartsMessage(src.cfg.Mss(), src.sent, dst.got, r, dst.cfg.rcvWnd, src.eng.snd.nxt);
      TakeDeliversMessage(r, dst.cfg.rcvWnd, len, src.cfg.Mss(), src.sent[|dst.got|]);
    }
  }

  /** What an action does to the histories: it appends. */
  lemma StepHistory(h: Host, peer: Host, act: Action)
    requires h.cfg.Valid()
    ensures var h' := Step(h, peer, act);
      && h'.cfg == h.cfg && h.sent <= h'.sent && h.got <= h'.got && h.out <= h'.out
      && (!act.Say? ==> h'.sent == h.sent) && (!act.Hear? ==> h'.got == h.got)
      && |h'.got| <= |h.got| + 1
  {
    hide Send, Recv, Input, Update, Flush;
  }

  /** A message with more fragments than the receive window is never received, and neither is
      any message after it, in any run. */
  lemma {:induction false} OversizedNeverReceived(ca: Config, cb: Config, run: seq<(End, Action)>, who: End, i: nat)
    requires ca.Valid() && cb.Valid()
    ensures var s := RunSystem(ca, cb, run); var src, dst := At(s, who), Facing(s, who);
      Oversized(src.cfg.Mss(), dst.cfg.rcvWnd, src.sent, i) ==> |dst.got| <= i
  {
    hide Step, Link, FragCount;
    if run != [] {
      var n := |run| - 1;
      var s := RunSystem(ca, cb, run[..n]);
      OversizedNeverReceived(ca, cb, run[..n], who, i);
      EveryRunLinked(ca, cb, run[..n]);
      ReceivedIsPrefixOfSent(ca, cb, run[..n]);
      var src, dst := At(s, who), Facing(s, who);
      StepHistory(src, dst, run[n].1);
      StepHistory(dst, src, run[n].1);
      if run[n].1.Hear? {
        HearFits(src, dst, run[n].1.len);
      }
    }
  }

  lemma {:induction false} HistoriesGrow(ca: Config, cb: Config, run: seq<(End, Action)>, more: seq<(End, Action)>,
                                         who: End)
    requires ca.Valid() && cb.Valid()
    ensures var h, h' := At(RunSystem(ca, cb, run), who), At(RunSystem(ca, cb, run + more), who);
      h.sent <= h'.sent && h.got <= h'.got && h.out <= h'.out
    decreases |more|
  {
    hide Step;
    if more == [] {
      assert run + more == run;
    } else {
      var n := |more| - 1;
      HistoriesGrow(ca, cb, run, more[..n], who);
      assert (run + more)[..|run + more| - 1] == run + more[..n];
      var s := RunSystem(ca, cb, run + more[..n]);
      StepHistory(At(s, who), Facing(s, who), more[n].1);
    }
  }

  /** Such messages are accepted: under the default MTU of 1400 bytes and the default window
      of 32 segments, a message of 33 full fragments is, and then nothing is ever received. */
  lemma OversizedIsAccepted(ca: Config, cb: Config, msg: Bytes, more: seq<(End, Action)>)
    requires ca.Valid() && cb.Valid() && ca.mtu == 1400 && cb.rcvWnd == 32 && |msg| == 33 * 1376
    ensures RunSystem(ca, cb, [(A, Say(msg))]).a.sent == [msg]
    ensures RunSystem(ca, cb, [(A, Say(msg))] + more).b.got == []
  {
    hide RunSystem;
    var run := [(A, Say(msg))];
    assert FragCount(1376, |msg|) == 33;
    OneAction(ca, cb, A, Say(msg));
    HistoriesGrow(ca, cb, run, more, A);
    var sent := RunSystem(ca, cb, run + more).a.sent;
    assert sent[0] == msg;
    OversizedNeverReceived(ca, cb, run + more, A, 0);
  }

  lemma OneAction(ca: Config, cb: Config, who: End, act: Action)
    requires ca.Valid() && cb.Valid()
    ensures RunSystem(ca, cb, [(who, act)]) == SystemStep(System(Fresh(ca), Fresh(cb)), who, act)
  {
    hide SystemStep;
    assert [(who, act)][..0] == [];
  }
}
