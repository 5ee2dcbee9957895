/** Two endpoints over a network that may lose, duplicate, reorder and delay datagrams. The
    network keeps every datagram ever emitted; a delivery picks any of them, any number of
    times. Sequence numbers are exact here. */
module Protocol {
  import opened SerialNumbers
  import opened Segments
  import opened SendSide
  import opened RecvSide
  import opened Engine
  import opened Shape
  import opened Robustness
  import opened Wire
  import opened Channel

  /** An endpoint with its history: messages accepted by `ikcp_send`, messages returned by
      `ikcp_recv`, and datagrams given to the output callback. */
  datatype Host = Host(cfg: Config, eng: Engine, sent: seq<Bytes>, got: seq<Bytes>, out: seq<Datagram>)

  datatype Action =
    | Say(msg: Bytes)       // ikcp_send
    | Hear(len: int)        // ikcp_recv
    | Advance(now: u32)     // ikcp_update
    | FlushNow              // ikcp_flush
    | Deliver(k: nat)       // ikcp_input on the k-th datagram the peer has emitted

  function Step(h: Host, peer: Host, act: Action): Host
    requires h.cfg.Valid()
  {
    match act
    case Say(msg) =>
      var (e, code) := Send(h.cfg, h.eng, msg);
      h.(eng := e, sent := if code == 0 then h.sent + [msg] else h.sent)
    case Hear(len) =>
      var (e, res) := Recv(Exact, h.cfg, h.eng, len);
      h.(eng := e, got := if len >= 0 && res.Message? then h.got + [res.msg] else h.got)
    case Advance(now) =>
      var (e, ds) := Update(Exact, h.cfg, h.eng, now);
      h.(eng := e, out := h.out + ds)
    case FlushNow =>
      var (e, ds) := Flush(Exact, h.cfg, h.eng);
      h.(eng := e, out := h.out + ds)
    case Deliver(k) =>
      if k < |peer.out| then h.(eng := Input(Exact, h.cfg, h.eng, peer.out[k], true)) else h
  }

  /** The stream of fragments the messages sent so far amount to. */
  ghost function StreamOf(h: Host): seq<Frag>
    requires h.cfg.Valid() && AllSendable(h.cfg.Mss(), h.sent)
  {
    Stream(h.cfg.Mss(), h.sent)
  }

  /** The messages received are the first messages sent, and the fragments taken from the
      stream are exactly theirs. */
  ghost predicate InOrder(mss: int, sent: seq<Bytes>, got: seq<Bytes>, r: Receiver)
    requires mss > 0 && AllSendable(mss, sent)
  {
    && got <= sent
    && AllSendable(mss, got)
    && |Stream(mss, got)| == r.nxt - |r.queue|
  }

  /** What holds between a sending and a receiving endpoint at every moment. */
  ghost predicate Link(src: Host, dst: Host) {
    && src.cfg.Valid() && dst.cfg.Valid()
    && Ok(src.cfg, src.eng) && Ok(dst.cfg, dst.eng)
    && AllSendable(src.cfg.Mss(), src.sent)
    && SenderHolds(src.eng.snd, StreamOf(src))
    && PushesOk(Flatten(src.out), src.eng.snd.nxt, StreamOf(src))
    && Counted(src.eng.snd, Flatten(src.out))
    && ReceiverMatches(dst.eng.rcv, src.eng.snd.nxt, StreamOf(src))
    && AcksOk(Flatten(dst.out), dst.eng.acks, dst.eng.rcv)
    && NothingLost(src.eng.snd, dst.eng.rcv)
    && InOrder(src.cfg.Mss(), src.sent, dst.got, dst.eng.rcv)
  }

  // ----- histories ----------------------------------------------------------------------------------

  lemma {:induction false} FlattenConcat(x: seq<Datagram>, y: seq<Datagram>)
    ensures Flatten(x + y) == Flatten(x) + Flatten(y)
  {
    if y == [] {
      assert x + y == x;
    } else {
      var n := |y| - 1;
      assert (x + y)[..|x + y| - 1] == x + y[..n];
      FlattenConcat(x, y[..n]);
      ConcatAssoc(Flatten(x), Flatten(y[..n]), y[n]);
    }
  }

  lemma {:induction false} FlattenContains(ds: seq<Datagram>, k: nat, s: Segment)
    requires k < |ds| && s in ds[k]
    ensures s in Flatten(ds)
  {
    if k < |ds| - 1 {
      FlattenContains(ds[..|ds| - 1], k, s);
    }
  }

  /** What a flush adds to the history of segments. */
  lemma FlushWire(cfg: Config, e: Engine, out: seq<Datagram>)
    requires cfg.Valid() && Ok(cfg, e)
    ensures Flatten(out + Pack(cfg.mtu, FlushSegs(Exact, cfg, e))) == Flatten(out) + FlushSegs(Exact, cfg, e)
    ensures AllSound(cfg.conv, FlushSegs(Exact, cfg, e))
  {
    hide FlushSegs, Pack;
    FlushSegsSound(cfg, e);
    PackLossless(cfg.mtu, FlushSegs(Exact, cfg, e));
    FlattenConcat(out, Pack(cfg.mtu, FlushSegs(Exact, cfg, e)));
  }

  // ----- steps of the sender -----------------------------------------------------------------------

  lemma SayAsSender(h: Host, peer: Host, msg: Bytes)
    requires Link(h, peer)
    ensures Link(Step(h, peer, Say(msg)), peer)
  {
    hide SenderHolds, PushesOk, ReceiverMatches, Counted, AcksOk, NothingLost, Holds, Fragments;
    var mss := h.cfg.Mss();
    var h' := Step(h, peer, Say(msg));
    SendOk(h.cfg, h.eng, msg);
    if Sendable(mss, msg) {
      var more := Fragments(mss, msg);
      assert h'.sent[..|h.sent|] == h.sent;
      assert StreamOf(h') == StreamOf(h) + more;
      StreamExtends(h.eng.snd, Flatten(h.out), peer.eng.rcv, StreamOf(h), more);
      SameBuffer(h.eng.snd, h'.eng.snd, Flatten(h.out), peer.eng.rcv);
    }
  }

  /** More fragments at the end of the stream disturb nothing that is under way. */
  lemma StreamExtends(snd: Sender, wire: seq<Segment>, r: Receiver, frags: seq<Frag>, more: seq<Frag>)
    requires SenderHolds(snd, frags) && PushesOk(wire, snd.nxt, frags) && ReceiverMatches(r, snd.nxt, frags)
    ensures SenderHolds(snd.(queue := snd.queue + more), frags + more)
    ensures PushesOk(wire, snd.nxt, frags + more) && ReceiverMatches(r, snd.nxt, frags + more)
  {
    assert forall nxt, sn, g :: Carries(frags, nxt, sn, g) ==> Carries(frags + more, nxt, sn, g);
  }

  /** Counting and loss depend on the buffer and `snd_nxt` alone. */
  lemma SameBuffer(snd: Sender, snd': Sender, wire: seq<Segment>, r: Receiver)
    requires snd'.buf == snd.buf && snd'.nxt == snd.nxt && Counted(snd, wire) && NothingLost(snd, r)
    ensures Counted(snd', wire) && NothingLost(snd', r)
  {
  }

  /** A flush that is due keeps the link on the sender's side. */
  lemma LinkAfterFlush(h: Host, peer: Host, h': Host)
    requires Link(h, peer)
    requires h' == h.(eng := FlushState(Exact, h.cfg, h.eng),
                      out := h.out + Pack(h.cfg.mtu, FlushSegs(Exact, h.cfg, h.eng)))
    ensures Link(h', peer)
  {
    hide FlushSegs, FlushState, Pack, Holds, SenderHolds, Counted, PushesOk, NothingLost, AcksOk;
    var f := StreamOf(h);
    FlushStateOk(h.cfg, h.eng);
    FlushAsSender(h.cfg, h.eng, f, peer.eng.rcv, Flatten(h.out));
    FlushWire(h.cfg, h.eng, h.out);
    SenderHoldsBound(h'.eng.snd, f);
    MatchesLater(peer.eng.rcv, h.eng.snd.nxt, h'.eng.snd.nxt, f);
  }

  lemma SenderHoldsBound(snd: Sender, frags: seq<Frag>)
    requires SenderHolds(snd, frags)
    ensures snd.nxt <= |frags|
  {
  }

  lemma MatchesLater(r: Receiver, nxt: int, nxt': int, frags: seq<Frag>)
    requires ReceiverMatches(r, nxt, frags) && nxt <= nxt' <= |frags|
    ensures ReceiverMatches(r, nxt', frags)
  {
  }

  /** Link looks at neither the clock nor the pacing timer. */
  lemma LinkTimer(h: Host, peer: Host, now: u32, pace: Pace)
    requires Link(h, peer)
    ensures Link(h.(eng := h.eng.(current := now, pace := pace)), peer)
  {
  }

  lemma FlushAsSenderStep(h: Host, peer: Host)
    requires Link(h, peer)
    ensures Link(Step(h, peer, FlushNow), peer)
  {
    hide Link, FlushSegs, FlushState, Pack;
    LinkValid(h, peer);
    var h' := Step(h, peer, FlushNow);
    if h.eng.pace.updated {
      LinkAfterFlush(h, peer, h');
    } else {
      assert h' == h by { assert h.out + [] == h.out; }
    }
  }

  lemma LinkValid(h: Host, peer: Host)
    requires Link(h, peer)
    ensures h.cfg.Valid() && peer.cfg.Valid() && Ok(h.cfg, h.eng) && Ok(peer.cfg, peer.eng)
  {
  }

  /** An update is a clock change followed, when the timer says so, by a flush. */
  lemma AdvanceSplits(h: Host, peer: Host, now: u32)
    requires h.cfg.Valid()
    ensures var (pace, due) := Tick(h.eng.pace, h.cfg.interval, now);
      var h1 := h.(eng := h.eng.(current := now, pace := pace));
      Step(h, peer, Advance(now)) == if due then Step(h1, peer, FlushNow) else h1
  {
    hide FlushSegs, FlushState, Pack, Tick;
    assert h.out + [] == h.out;
  }

  lemma AdvanceAsSender(h: Host, peer: Host, now: u32)
    requires Link(h, peer)
    ensures Link(Step(h, peer, Advance(now)), peer)
  {
    hide Link, Step, Tick;
    LinkValid(h, peer);
    var pace := Tick(h.eng.pace, h.cfg.interval, now).0;
    AdvanceSplits(h, peer, now);
    LinkTimer(h, peer, now, pace);
    FlushAsSenderStep(h.(eng := h.eng.(current := now, pace := pace)), peer);
  }

  lemma HearAsSender(h: Host, peer: Host, len: int)
    requires Link(h, peer)
    ensures Link(Step(h, peer, Hear(len)), peer)
  {
    RecvOk(h.cfg, h.eng, len);
  }

  /** Segments from the peer, one after the other. */
  lemma {:induction false} InputSegsAsSender(cfg: Config, e: Engine, segs: seq<Segment>, frags: seq<Frag>,
                                             r: Receiver, wire: seq<Segment>)
    requires cfg.Valid() && Ok(cfg, e)
    requires forall s :: s in segs ==> AckOk(s, r)
    requires SenderHolds(e.snd, frags) && NothingLost(e.snd, r) && Counted(e.snd, wire)
    ensures var e' := InputSegs(Exact, cfg, e, segs);
      && Ok(cfg, e') && Forward(e, e') && e'.snd.nxt == e.snd.nxt
      && SenderHolds(e'.snd, frags) && NothingLost(e'.snd, r) && Counted(e'.snd, wire)
  {
    hide InputSeg, Ok, SenderHolds, NothingLost, Counted, AckOk;
    if segs != [] {
      var n := |segs| - 1;
      InputSegsAsSender(cfg, e, segs[..n], frags, r, wire);
      var e1 := InputSegs(Exact, cfg, e, segs[..n]);
      assert segs[n] in segs;
      InputSegAsSender(cfg, e1, segs[n], frags, r, wire);
      InputSegOk(cfg, e1, segs[n]);
    }
  }

  lemma DeliverAsSender(h: Host, peer: Host, k: nat)
    requires Link(h, peer)
    ensures Link(Step(h, peer, Deliver(k)), peer)
  {
    hide InputSegs, Ok, SenderHolds, NothingLost, Counted, AckOk, Grow, Link;
    LinkValid(h, peer);
    if k < |peer.out| {
      var d := peer.out[k];
      DatagramAcks(h, peer, k);
      LinkSender(h, peer);
      InputSegsAsSender(h.cfg, h.eng, d, StreamOf(h), peer.eng.rcv, Flatten(h.out));
      GrowKeeps(h.cfg, InputSegs(Exact, h.cfg, h.eng, d));
      LinkWithSender(h, peer, Step(h, peer, Deliver(k)));
    }
  }

  lemma DatagramAcks(h: Host, peer: Host, k: nat)
    requires Link(h, peer) && k < |peer.out|
    ensures forall s :: s in peer.out[k] ==> AckOk(s, peer.eng.rcv)
  {
    forall s | s in peer.out[k] ensures AckOk(s, peer.eng.rcv) {
      FlattenContains(peer.out, k, s);
    }
  }

  /** The sender's share of a link. */
  lemma LinkSender(h: Host, peer: Host)
    requires Link(h, peer)
    ensures AllSendable(h.cfg.Mss(), h.sent)
    ensures SenderHolds(h.eng.snd, StreamOf(h)) && Counted(h.eng.snd, Flatten(h.out))
    ensures NothingLost(h.eng.snd, peer.eng.rcv)
  {
  }

  /** A sender that keeps its share, its history and `snd_nxt` keeps the link. */
  lemma LinkWithSender(h: Host, peer: Host, h': Host)
    requires Link(h, peer) && h'.cfg == h.cfg && h'.out == h.out && h'.sent == h.sent && Ok(h'.cfg, h'.eng)
    requires SenderHolds(h'.eng.snd, StreamOf(h)) && Counted(h'.eng.snd, Flatten(h.out))
    requires NothingLost(h'.eng.snd, peer.eng.rcv) && h'.eng.snd.nxt == h.eng.snd.nxt
    ensures Link(h', peer)
  {
    hide SenderHolds, Counted, PushesOk, NothingLost, ReceiverMatches, AcksOk, Ok;
  }

  lemma GrowKeeps(cfg: Config, e: Engine)
    requires cfg.Valid() && Ok(cfg, e)
    ensures Ok(cfg, e.(cong := Grow(cfg.Mss(), e.cong)))
  {
  }

  // ----- steps of the receiver -----------------------------------------------------------------------

  lemma SayAsReceiver(peer: Host, h: Host, msg: Bytes)
    requires Link(peer, h)
    ensures Link(peer, Step(h, peer, Say(msg)))
  {
    SendOk(h.cfg, h.eng, msg);
  }

  lemma LinkTimerReceiver(peer: Host, h: Host, now: u32, pace: Pace)
    requires Link(peer, h)
    ensures Link(peer, h.(eng := h.eng.(current := now, pace := pace)))
  {
  }

  lemma LinkAfterFlushReceiver(peer: Host, h: Host, h': Host)
    requires Link(peer, h)
    requires h' == h.(eng := FlushState(Exact, h.cfg, h.eng),
                      out := h.out + Pack(h.cfg.mtu, FlushSegs(Exact, h.cfg, h.eng)))
    ensures Link(peer, h')
  {
    hide FlushSegs, Pack, Holds, SenderHolds, Counted, PushesOk, NothingLost, AcksOk, Admitted, Reduce, ProbeTimer;
    FlushStateOk(h.cfg, h.eng);
    FlushAsReceiver(h.cfg, h.eng, Flatten(h.out));
    FlushWire(h.cfg, h.eng, h.out);
  }

  lemma FlushAsReceiverStep(peer: Host, h: Host)
    requires Link(peer, h)
    ensures Link(peer, Step(h, peer, FlushNow))
  {
    hide Link, FlushSegs, FlushState, Pack;
    LinkValid(peer, h);
    var h' := Step(h, peer, FlushNow);
    if h.eng.pace.updated {
      LinkAfterFlushReceiver(peer, h, h');
    } else {
      assert h' == h by { assert h.out + [] == h.out; }
    }
  }

  lemma AdvanceAsReceiver(peer: Host, h: Host, now: u32)
    requires Link(peer, h)
    ensures Link(peer, Step(h, peer, Advance(now)))
  {
    hide Link, Step, Tick;
    LinkValid(peer, h);
    var pace := Tick(h.eng.pace, h.cfg.interval, now).0;
    AdvanceSplits(h, peer, now);
    LinkTimerReceiver(peer, h, now, pace);
    FlushAsReceiverStep(peer, h.(eng := h.eng.(current := now, pace := pace)));
  }

  lemma {:induction false} InputSegsAsReceiver(cfg: Config, e: Engine, segs: seq<Segment>, nxt: int, frags: seq<Frag>,
                                               wire: seq<Segment>)
    requires cfg.Valid() && Ok(cfg, e)
    requires forall s :: s in segs ==> PushOk(s, nxt, frags)
    requires ReceiverMatches(e.rcv, nxt, frags) && AcksOk(wire, e.acks, e.rcv)
    ensures var e' := InputSegs(Exact, cfg, e, segs);
      && Ok(cfg, e') && ReceiverMatches(e'.rcv, nxt, frags) && AcksOk(wire, e'.acks, e'.rcv)
      && e'.rcv.nxt - |e'.rcv.queue| == e.rcv.nxt - |e.rcv.queue|
      && (forall x :: Holds(e.rcv, x) ==> Holds(e'.rcv, x))
  {
    hide InputSeg, Ok, ReceiverMatches, AcksOk, PushOk, Holds;
    if segs != [] {
      var n := |segs| - 1;
      InputSegsAsReceiver(cfg, e, segs[..n], nxt, frags, wire);
      var e1 := InputSegs(Exact, cfg, e, segs[..n]);
      assert segs[n] in segs;
      InputSegAsReceiver(cfg, e1, segs[n], nxt, frags, wire);
      InputSegOk(cfg, e1, segs[n]);
    }
  }

  lemma DeliverAsReceiver(peer: Host, h: Host, k: nat)
    requires Link(peer, h)
    ensures Link(peer, Step(h, peer, Deliver(k)))
  {
    hide InputSegs, Ok, SenderHolds, Counted, PushOk, PushesOk, NothingLost, Holds, ReceiverMatches, AcksOk, Grow, Link;
    LinkValid(peer, h);
    if k < |peer.out| {
      var d := peer.out[k];
      DatagramCarriesStream(peer, h, k);
      LinkReceiver(peer, h);
      InputSegsAsReceiver(h.cfg, h.eng, d, peer.eng.snd.nxt, StreamOf(peer), Flatten(h.out));
      var e1 := InputSegs(Exact, h.cfg, h.eng, d);
      GrowKeeps(h.cfg, e1);
      NothingLostMonotone(peer.eng.snd, h.eng.rcv, e1.rcv);
      LinkWith(peer, h, Step(h, peer, Deliver(k)));
    }
  }

  lemma DatagramCarriesStream(peer: Host, h: Host, k: nat)
    requires Link(peer, h) && k < |peer.out|
    ensures forall s :: s in peer.out[k] ==> PushOk(s, peer.eng.snd.nxt, StreamOf(peer))
  {
    forall s | s in peer.out[k] ensures PushOk(s, peer.eng.snd.nxt, StreamOf(peer)) {
      FlattenContains(peer.out, k, s);
    }
  }

  /** The receiver's share of a link. */
  lemma LinkReceiver(peer: Host, h: Host)
    requires Link(peer, h)
    ensures AllSendable(peer.cfg.Mss(), peer.sent)
    ensures ReceiverMatches(h.eng.rcv, peer.eng.snd.nxt, StreamOf(peer))
    ensures AcksOk(Flatten(h.out), h.eng.acks, h.eng.rcv) && NothingLost(peer.eng.snd, h.eng.rcv)
  {
  }

  /** A receiver that keeps its share, its history and its place in the stream keeps the link. */
  lemma LinkWith(peer: Host, h: Host, h': Host)
    requires Link(peer, h) && h'.cfg == h.cfg && h'.out == h.out && h'.got == h.got && Ok(h'.cfg, h'.eng)
    requires ReceiverMatches(h'.eng.rcv, peer.eng.snd.nxt, StreamOf(peer))
    requires AcksOk(Flatten(h'.out), h'.eng.acks, h'.eng.rcv) && NothingLost(peer.eng.snd, h'.eng.rcv)
    requires h'.eng.rcv.nxt - |h'.eng.rcv.queue| == h.eng.rcv.nxt - |h.eng.rcv.queue|
    ensures Link(peer, h')
  {
    hide SenderHolds, Counted, PushesOk, NothingLost, ReceiverMatches, AcksOk, Ok;
  }

  // ----- delivery to the user --------------------------------------------------------------------------

  lemma {:induction false} MergeCountAt(q: seq<RecvSeg>, c: nat)
    requires 0 < c <= |q|
    requires forall i :: 0 <= i < c ==> q[i].frag.frg == c - 1 - i
    ensures MergeCount(q) == c
  {
    if c > 1 {
      assert q[0].frag.frg == c - 1;
      assert forall i :: 0 <= i < c - 1 ==> q[1..][i] == q[i + 1];
      MergeCountAt(q[1..], c - 1);
    }
  }

  /** The front of the receive queue is the next message, as far as it has arrived. */
  ghost predicate NextMessage(q: seq<RecvSeg>, fs: seq<Frag>) {
    forall i :: 0 <= i < |q| && i < |fs| ==> q[i].frag == fs[i]
  }

  /** A queue that starts a message delivers exactly that message, as soon as all of it has
      arrived and the buffer offered is large enough, and otherwise nothing. */
  lemma TakeDeliversMessage(r: Receiver, wnd: nat, len: int, mss: int, msg: Bytes)
    requires mss > 0 && Sendable(mss, msg) && r.queue != []
    requires NextMessage(r.queue, Fragments(mss, msg))
    ensures var c := FragCount(mss, |msg|); var res := Take(Exact, r, wnd, len).1;
      && (res.Message? <==> c <= |r.queue| && |msg| <= (if len < 0 then -len else len))
      && (res.Message? ==> res.msg == msg && MergeCount(r.queue) == c)
      && (c <= |r.queue| ==> PeekSize(r.queue) == |msg|)
      && (c > |r.queue| ==> res == Again(-2))
  {
    hide Promote, Sendable, Join;
    var fs := Fragments(mss, msg);
    var c := |fs|;
    JoinFragments(mss, msg);
    assert r.queue[0].frag == fs[0];
    if c <= |r.queue| {
      MergeCountAt(r.queue, c);
      assert Frags(r.queue[..c]) == fs;
      if c == 1 {
        assert fs == [fs[0]];
        JoinOne(fs[0]);
      }
    }
  }

  /** The queue starts where the messages received so far end. */
  lemma QueueStartsMessage(mss: int, sent: seq<Bytes>, got: seq<Bytes>, r: Receiver, wnd: nat, nxt: int)
    requires mss > 0 && AllSendable(mss, sent) && InOrder(mss, sent, got, r)
    requires ReceiverShape(r, wnd) && ReceiverMatches(r, nxt, Stream(mss, sent)) && r.queue != []
    ensures |got| < |sent| && NextMessage(r.queue, Fragments(mss, sent[|got|]))
    ensures AllSendable(mss, sent[..|got| + 1])
    ensures |Stream(mss, sent[..|got| + 1])| == r.nxt - |r.queue| + FragCount(mss, |sent[|got|]|)
  {
    hide Stream, Fragments, FragCount, Sendable;
    var k := |got|;
    assert got == sent[..k];
    var off := r.nxt - |r.queue|;
    StreamSlice(mss, sent, k, off);
    assert r.queue[0] in r.queue;
    var fs := Fragments(mss, sent[k]);
    forall i | 0 <= i < |r.queue| && i < |fs| ensures r.queue[i].frag == fs[i] {
      assert r.queue[i] in r.queue;
      assert Stream(mss, sent)[off + i] == Stream(mss, sent)[off..off + |fs|][i];
    }
  }

  lemma HearAsReceiver(peer: Host, h: Host, len: int)
    requires Link(peer, h)
    ensures Link(peer, Step(h, peer, Hear(len)))
  {
    hide Promote, SenderHolds, Counted, PushesOk, AcksOk, NothingLost, Holds, PeekSize, Payload, ReceiverShape,
         ReceiverMatches, MergeCount;
    var r := h.eng.rcv;
    var wnd := h.cfg.rcvWnd;
    var h' := Step(h, peer, Hear(len));
    var r' := h'.eng.rcv;
    RecvOk(h.cfg, h.eng, len);
    TakeShape(r, wnd, len);
    AcksOkMonotone(Flatten(h.out), h.eng.acks, r, r');
    NothingLostMonotone(peer.eng.snd, r, r');
    TakeMatches(r, wnd, len, peer.eng.snd.nxt, StreamOf(peer));
    if len >= 0 && Take(Exact, r, wnd, len).1.Message? {
      var mss := peer.cfg.Mss();
      QueueStartsMessage(mss, peer.sent, h.got, r, wnd, peer.eng.snd.nxt);
      var msg := peer.sent[|h.got|];
      TakeDeliversMessage(r, wnd, len, mss, msg);
      assert h'.got == peer.sent[..|h.got| + 1];
    }
  }

  lemma NothingLostMonotone(snd: Sender, r: Receiver, r': Receiver)
    requires NothingLost(snd, r) && forall x :: Holds(r, x) ==> Holds(r', x)
    ensures NothingLost(snd, r')
  {
  }

  /** Receiving takes a message's worth off the queue and leaves a matching receiver. */
  lemma TakeMatches(r: Receiver, wnd: nat, len: int, nxt: int, frags: seq<Frag>)
    requires ReceiverShape(r, wnd) && ReceiverMatches(r, nxt, frags)
    ensures ReceiverMatches(Take(Exact, r, wnd, len).0, nxt, frags)
    ensures var (t, res) := Take(Exact, r, wnd, len);
      t.nxt - |t.queue| == r.nxt - |r.queue| + if res.Message? && len >= 0 then MergeCount(r.queue) else 0
  {
    hide PeekSize, Payload;
    var n := MergeCount(r.queue);
    var r1 := if len < 0 then r else r.(queue := r.queue[n..]);
    assert forall t :: t in r1.queue ==> t in r.queue;
    PromoteMatches(r1, wnd, nxt, frags);
    PromoteShape(r1, wnd);
  }

  // ----- runs --------------------------------------------------------------------------------------------

  datatype System = System(a: Host, b: Host)
  datatype End = A | B

  /** The endpoint at one end, and the one facing it. */
  function At(s: System, who: End): Host { if who == A then s.a else s.b }

  function Facing(s: System, who: End): Host { if who == A then s.b else s.a }

  function SystemStep(s: System, who: End, act: Action): System
    requires s.a.cfg.Valid() && s.b.cfg.Valid()
  {
    match who
    case A => s.(a := Step(s.a, s.b, act))
    case B => s.(b := Step(s.b, s.a, act))
  }

  function Fresh(cfg: Config): Host { Host(cfg, Create(), [], [], []) }

  /** The system after a run: any interleaving of calls and deliveries at the two ends. */
  function RunSystem(ca: Config, cb: Config, run: seq<(End, Action)>): (s: System)
    requires ca.Valid() && cb.Valid()
    ensures s.a.cfg == ca && s.b.cfg == cb
  {
    if run == [] then System(Fresh(ca), Fresh(cb))
    else
      var n := |run| - 1;
      SystemStep(RunSystem(ca, cb, run[..n]), run[n].0, run[n].1)
  }

  ghost predicate Linked(s: System) { Link(s.a, s.b) && Link(s.b, s.a) }

  lemma StepAsSender(h: Host, peer: Host, act: Action)
    requires Link(h, peer)
    ensures Link(Step(h, peer, act), peer)
  {
    hide Link, Step;
    match act
    case Say(msg) => SayAsSender(h, peer, msg);
    case Hear(len) => HearAsSender(h, peer, len);
    case Advance(now) => AdvanceAsSender(h, peer, now);
    case FlushNow => FlushAsSenderStep(h, peer);
    case Deliver(k) => DeliverAsSender(h, peer, k);
  }

  lemma StepAsReceiver(peer: Host, h: Host, act: Action)
    requires Link(peer, h)
    ensures Link(peer, Step(h, peer, act))
  {
    hide Link, Step;
    match act
    case Say(msg) => SayAsReceiver(peer, h, msg);
    case Hear(len) => HearAsReceiver(peer, h, len);
    case Advance(now) => AdvanceAsReceiver(peer, h, now);
    case FlushNow => FlushAsReceiverStep(peer, h);
    case Deliver(k) => DeliverAsReceiver(peer, h, k);
  }

  lemma SystemStepLinked(s: System, who: End, act: Action)
    requires s.a.cfg.Valid() && s.b.cfg.Valid() && Linked(s)
    ensures Linked(SystemStep(s, who, act))
  {
    hide Link, Step;
    if who == A {
      StepAsSender(s.a, s.b, act);
      StepAsReceiver(s.b, s.a, act);
    } else {
      StepAsSender(s.b, s.a, act);
      StepAsReceiver(s.a, s.b, act);
    }
  }

  lemma FreshLinked(ca: Config, cb: Config)
    requires ca.Valid() && cb.Valid()
    ensures Linked(System(Fresh(ca), Fresh(cb)))
  {
  }

  /** Every reachable state of the two endpoints is linked in both directions. */
  lemma {:induction false} EveryRunLinked(ca: Config, cb: Config, run: seq<(End, Action)>)
    requires ca.Valid() && cb.Valid()
    ensures Linked(RunSystem(ca, cb, run))
  {
    hide Linked, SystemStep;
    if run == [] {
      FreshLinked(ca, cb);
    } else {
      var n := |run| - 1;
      EveryRunLinked(ca, cb, run[..n]);
      SystemStepLinked(RunSystem(ca, cb, run[..n]), run[n].0, run[n].1);
    }
  }
}
