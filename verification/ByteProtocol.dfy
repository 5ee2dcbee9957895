/** The two endpoints as they really are: 32-bit counters and datagrams of bytes. As long
    as no datagram is delivered after 2^31 newer numbers have been given out, every run is
    the image of the exact run of the same actions. */
module ByteProtocol {
  import opened SerialNumbers
  import opened Segments
  import opened SendSide
  import opened RecvSide
  import opened Engine
  import opened Shape
  import opened Refinement32
  import opened Robustness
  import opened Wire
  import opened Channel
  import opened Protocol
  import opened Guarantees

  datatype ByteHost = ByteHost(cfg: Config, eng: Engine, sent: seq<Bytes>, got: seq<Bytes>, out: seq<Bytes>)

  function ByteStep(h: ByteHost, peer: ByteHost, act: Action): ByteHost
    requires h.cfg.Valid()
  {
    match act
    case Say(msg) =>
      var (e, code) := Send(h.cfg, h.eng, msg);
      h.(eng := e, sent := if code == 0 then h.sent + [msg] else h.sent)
    case Hear(len) =>
      var (e, res) := Recv(Wrapped, h.cfg, h.eng, len);
      h.(eng := e, got := if len >= 0 && res.Message? then h.got + [res.msg] else h.got)
    case Advance(now) =>
      var (e, ds) := Update(Wrapped, h.cfg, h.eng, now);
      h.(eng := e, out := h.out + EncodeAll(ds))
    case FlushNow =>
      var (e, ds) := Flush(Wrapped, h.cfg, h.eng);
      h.(eng := e, out := h.out + EncodeAll(ds))
    case Deliver(k) =>
      if k < |peer.out| then
        var p := Parse(h.cfg.conv, peer.out[k]);
        h.(eng := Input(Wrapped, h.cfg, h.eng, p.segs, p.code == 0))
      else h
  }

  datatype ByteSystem = ByteSystem(a: ByteHost, b: ByteHost)

  function RunBytes(ca: Config, cb: Config, run: seq<(End, Action)>): (s: ByteSystem)
    requires ca.Valid() && cb.Valid()
    ensures s.a.cfg == ca && s.b.cfg == cb
  {
    if run == [] then ByteSystem(ByteHost(ca, Create(), [], [], []), ByteHost(cb, Create(), [], [], []))
    else
      var n := |run| - 1;
      var s := RunBytes(ca, cb, run[..n]);
      match run[n].0
      case A => s.(a := ByteStep(s.a, s.b, run[n].1))
      case B => s.(b := ByteStep(s.b, s.a, run[n].1))
  }

  /** The byte-level endpoint behind an exact one. */
  function HostImg(h: Host): ByteHost { ByteHost(h.cfg, Img(h.eng), h.sent, h.got, EncodeAll(h.out)) }

  function SystemImg(s: System): ByteSystem { ByteSystem(HostImg(s.a), HostImg(s.b)) }

  // ----- what is on the wire can be parsed --------------------------------------------------------

  ghost predicate WireSound(conv: u32, out: seq<Datagram>) {
    forall s :: s in Flatten(out) ==> Sound(conv, s)
  }

  lemma StepSound(h: Host, peer: Host, act: Action)
    requires Link(h, peer) && WireSound(h.cfg.conv, h.out)
    ensures WireSound(h.cfg.conv, Step(h, peer, act).out)
  {
    hide Link, FlushSegs, Pack, Sound, Flatten, Tick, FlushState;
    LinkValid(h, peer);
    match act
    case FlushNow =>
      FlushWire(h.cfg, h.eng, h.out);
      assert h.out + [] == h.out;
    case Advance(now) =>
      var e := h.eng.(current := now, pace := Tick(h.eng.pace, h.cfg.interval, now).0);
      FlushWire(h.cfg, e, h.out);
      assert h.out + [] == h.out;
    case _ =>
  }

  lemma {:induction false} EveryRunSound(ca: Config, cb: Config, run: seq<(End, Action)>)
    requires ca.Valid() && cb.Valid()
    ensures var s := RunSystem(ca, cb, run); WireSound(ca.conv, s.a.out) && WireSound(cb.conv, s.b.out)
  {
    hide Step, Link;
    if run != [] {
      var n := |run| - 1;
      var s := RunSystem(ca, cb, run[..n]);
      EveryRunSound(ca, cb, run[..n]);
      EveryRunLinked(ca, cb, run[..n]);
      StepSound(s.a, s.b, run[n].1);
      StepSound(s.b, s.a, run[n].1);
    }
  }

  // ----- delivery of recent datagrams ---------------------------------------------------------------

  /** No number in the datagram is more than 2^31 behind the counters it will be compared
      with: `snd_nxt` of this end for acknowledgements, and the sender's `snd_nxt`, plus the
      receive window, for data. */
  ghost predicate Recent(h: Host, peer: Host, d: Datagram) {
    forall s :: s in d ==>
      && h.eng.snd.nxt - s.una <= TWO31
      && (s.cmd == CMD_ACK ==> h.eng.snd.nxt - s.sn <= TWO31)
      && (s.cmd == CMD_PUSH ==> peer.eng.snd.nxt + h.cfg.rcvWnd - s.sn <= TWO31)
  }

  /** The counters of an endpoint, part way through a datagram from its peer. */
  ghost predicate Midway(cfg: Config, e: Engine, peer: Host)
    requires peer.cfg.Valid() && AllSendable(peer.cfg.Mss(), peer.sent)
  {
    && Ok(cfg, e) && Ok(peer.cfg, peer.eng)
    && 0 <= e.snd.una && 0 <= e.rcv.nxt && 0 <= peer.eng.snd.una
    && peer.eng.rcv.nxt <= e.snd.nxt && e.rcv.nxt <= peer.eng.snd.nxt
    && (forall t :: t in peer.eng.rcv.buf ==> t.sn < e.snd.nxt)
    && NothingLost(peer.eng.snd, e.rcv)
  }

  lemma RecentIsNear(cfg: Config, e: Engine, peer: Host, s: Segment)
    requires cfg.Valid() && peer.cfg.Valid() && AllSendable(peer.cfg.Mss(), peer.sent)
    requires Midway(cfg, e, peer) && AckOk(s, peer.eng.rcv) && PushOk(s, peer.eng.snd.nxt, StreamOf(peer))
    requires e.snd.nxt - s.una <= TWO31
    requires s.cmd == CMD_ACK ==> e.snd.nxt - s.sn <= TWO31
    requires s.cmd == CMD_PUSH ==> peer.eng.snd.nxt + cfg.rcvWnd - s.sn <= TWO31
    ensures Near(cfg, e, s)
  {
    hide DropBefore, Stream, NothingLost;
    TakeUnaShape(e.snd, cfg.sndWnd, s.una);
    if s.cmd == CMD_ACK {
      assert s.sn < e.snd.nxt;
    } else if s.cmd == CMD_PUSH {
      WindowSpread(peer.eng.snd, peer.cfg.sndWnd, e.rcv, cfg.rcvWnd);
    }
  }

  lemma MidwayAfter(h: Host, peer: Host, segs: seq<Segment>)
    requires Link(h, peer) && Link(peer, h)
    requires forall s :: s in segs ==> AckOk(s, peer.eng.rcv) && PushOk(s, peer.eng.snd.nxt, StreamOf(peer))
    ensures var e := InputSegs(Exact, h.cfg, h.eng, segs);
      Midway(h.cfg, e, peer) && Ok(h.cfg, e) && Forward(h.eng, e) && e.snd.nxt == h.eng.snd.nxt
  {
    hide InputSegs, Counted, PushesOk, AcksOk, NothingLost, Ok, Stream, InOrder, Holds;
    InputSegsAsSender(h.cfg, h.eng, segs, StreamOf(h), peer.eng.rcv, Flatten(h.out));
    InputSegsAsReceiver(h.cfg, h.eng, segs, peer.eng.snd.nxt, StreamOf(peer), Flatten(h.out));
    var e := InputSegs(Exact, h.cfg, h.eng, segs);
    NothingLostMonotone(peer.eng.snd, h.eng.rcv, e.rcv);
  }

  lemma {:induction false} InputRecentImg(h: Host, peer: Host, segs: seq<Segment>)
    requires Link(h, peer) && Link(peer, h) && Recent(h, peer, segs)
    requires forall s :: s in segs ==> AckOk(s, peer.eng.rcv) && PushOk(s, peer.eng.snd.nxt, StreamOf(peer))
    ensures InputSegs(Wrapped, h.cfg, Img(h.eng), ImgSegs(segs)) == Img(InputSegs(Exact, h.cfg, h.eng, segs))
  {
    if segs != [] {
      hide Link, InputSeg, InputSegs, AckOk, PushOk, Near, Midway, Ok, Recent, Img, StreamOf;
      LinkValid(h, peer);
      LinkReceiver(peer, h);
      var n := |segs| - 1;
      assert segs[n] in segs;
      RecentFront(h, peer, segs);
      InputRecentImg(h, peer, segs[..n]);
      MidwayAfter(h, peer, segs[..n]);
      var e := InputSegs(Exact, h.cfg, h.eng, segs[..n]);
      RecentIsNear(h.cfg, e, peer, segs[n]);
      OkShape(h.cfg, e);
      InputSegImg(h.cfg, e, segs[n]);
      assert ImgSegs(segs)[..n] == ImgSegs(segs[..n]);
      InputNext(Exact, h.cfg, h.eng, segs);
      InputNext(Wrapped, h.cfg, Img(h.eng), ImgSegs(segs));
    } else {
      NoInput(h.cfg, h.eng);
    }
  }

  lemma InputNext(a: Arith, cfg: Config, e: Engine, segs: seq<Segment>)
    requires segs != []
    ensures InputSegs(a, cfg, e, segs) == InputSeg(a, cfg, InputSegs(a, cfg, e, segs[..|segs| - 1]), segs[|segs| - 1])
  {
  }

  lemma NoInput(cfg: Config, e: Engine)
    ensures InputSegs(Exact, cfg, e, []) == e && InputSegs(Wrapped, cfg, Img(e), ImgSegs([])) == Img(e)
  {
  }

  lemma RecentFront(h: Host, peer: Host, segs: Datagram)
    requires segs != [] && Recent(h, peer, segs)
    ensures Recent(h, peer, segs[..|segs| - 1])
    ensures var s := segs[|segs| - 1];
      && h.eng.snd.nxt - s.una <= TWO31
      && (s.cmd == CMD_ACK ==> h.eng.snd.nxt - s.sn <= TWO31)
      && (s.cmd == CMD_PUSH ==> peer.eng.snd.nxt + h.cfg.rcvWnd - s.sn <= TWO31)
  {
  }

  lemma DeliverImg(h: Host, peer: Host, k: nat)
    requires Link(h, peer) && Link(peer, h) && WireSound(peer.cfg.conv, peer.out) && h.cfg.conv == peer.cfg.conv
    requires k < |peer.out| ==> Recent(h, peer, peer.out[k])
    ensures ByteStep(HostImg(h), HostImg(peer), Deliver(k)) == HostImg(Step(h, peer, Deliver(k)))
  {
    hide Link, InputSegs, Parse, AckOk, PushOk, Recent, Ok, WireSound, Grow, Midway, Forward, EncodeDatagram;
    LinkValid(h, peer);
    if k < |peer.out| {
      var d := peer.out[k];
      DatagramCarriesStream(peer, h, k);
      DatagramAcks(h, peer, k);
      ParseDelivered(peer.cfg.conv, peer.out, k);
      InputRecentImg(h, peer, d);
      MidwayAfter(h, peer, d);
      InputImg(h.cfg, h.eng, ImgSegs(d), d, true);
    }
  }

  lemma ParseDelivered(conv: u32, out: seq<Datagram>, k: nat)
    requires WireSound(conv, out) && k < |out|
    ensures Parse(conv, EncodeAll(out)[k]) == Parsed(ImgSegs(out[k]), 0)
  {
    hide Parse, Sound;
    var d := out[k];
    forall i | 0 <= i < |d| ensures Sound(conv, d[i]) { FlattenContains(out, k, d[i]); }
    ParseEncode(conv, d);
  }

  lemma {:induction false} EncodeImg(d: Datagram)
    ensures EncodeDatagram(ImgSegs(d)) == EncodeDatagram(d)
  {
    if d != [] {
      hide Header;
      var n := |d| - 1;
      EncodeImg(d[..n]);
      assert ImgSegs(d)[..n] == ImgSegs(d[..n]);
      HeaderImg(d[n]);
    }
  }

  lemma HeaderImg(s: Segment)
    ensures Header(ImgSeg(s)) == Header(s)
  {
  }

  lemma EncodeAllImg(out: seq<Datagram>, ds: seq<Datagram>)
    ensures EncodeAll(out) + EncodeAll(ImgDatagrams(ds)) == EncodeAll(out + ds)
  {
    forall i | 0 <= i < |ds| ensures EncodeAll(ImgDatagrams(ds))[i] == EncodeDatagram(ds[i]) {
      EncodeImg(ds[i]);
    }
  }

  /** One step of the byte-level endpoint is the image of the exact step. */
  lemma StepImg(h: Host, peer: Host, act: Action)
    requires Link(h, peer) && Link(peer, h) && WireSound(peer.cfg.conv, peer.out) && h.cfg.conv == peer.cfg.conv
    requires act.Deliver? && act.k < |peer.out| ==> Recent(h, peer, peer.out[act.k])
    ensures ByteStep(HostImg(h), HostImg(peer), act) == HostImg(Step(h, peer, act))
  {
    hide Link, Recent, WireSound, Update, Flush, Recv, Ok, EngineShape, Input, Parse;
    LinkValid(h, peer);
    OkShape(h.cfg, h.eng);
    match act
    case Say(msg) =>
    case Hear(len) => RecvImg32(h.cfg, h.eng, len);
    case Advance(now) =>
      UpdateImg32(h.cfg, h.eng, now);
      EncodeAllImg(h.out, Update(Exact, h.cfg, h.eng, now).1);
    case FlushNow =>
      FlushImg32(h.cfg, h.eng);
      EncodeAllImg(h.out, Flush(Exact, h.cfg, h.eng).1);
    case Deliver(k) => DeliverImg(h, peer, k);
  }

  // ----- runs ----------------------------------------------------------------------------------------

  /** Every delivery along the run is of a recent datagram. */
  ghost predicate AllRecent(ca: Config, cb: Config, run: seq<(End, Action)>)
    requires ca.Valid() && cb.Valid()
  {
    forall i :: 0 <= i < |run| ==> RecentAt(ca, cb, run[..i], run[i].0, run[i].1)
  }

  ghost predicate RecentAt(ca: Config, cb: Config, run: seq<(End, Action)>, who: End, act: Action)
    requires ca.Valid() && cb.Valid()
  {
    var s := RunSystem(ca, cb, run);
    act.Deliver? && act.k < |Facing(s, who).out| ==> Recent(At(s, who), Facing(s, who), Facing(s, who).out[act.k])
  }

  lemma AllRecentFront(ca: Config, cb: Config, run: seq<(End, Action)>)
    requires ca.Valid() && cb.Valid() && run != [] && AllRecent(ca, cb, run)
    ensures AllRecent(ca, cb, run[..|run| - 1])
    ensures var n := |run| - 1; RecentAt(ca, cb, run[..n], run[n].0, run[n].1)
  {
    hide RecentAt;
    var n := |run| - 1;
    forall i | 0 <= i < n ensures RecentAt(ca, cb, run[..n][..i], run[..n][i].0, run[..n][i].1) {
      assert run[..n][..i] == run[..i];
    }
  }

  lemma FreshImg(cfg: Config)
    ensures HostImg(Fresh(cfg)) == ByteHost(cfg, Create(), [], [], [])
  {
    assert EncodeAll([]) == [];
  }

  /** The 32-bit, byte-level system does, action by action, what the exact one does. */
  lemma {:induction false} BytesSimulateExact(ca: Config, cb: Config, run: seq<(End, Action)>)
    requires ca.Valid() && cb.Valid() && ca.conv == cb.conv && AllRecent(ca, cb, run)
    ensures RunBytes(ca, cb, run) == SystemImg(RunSystem(ca, cb, run))
  {
    hide ByteStep, Step, Link, WireSound, Recent, HostImg, AllRecent;
    if run == [] {
      FreshImg(ca);
      FreshImg(cb);
    } else {
      var n := |run| - 1;
      var s := RunSystem(ca, cb, run[..n]);
      AllRecentFront(ca, cb, run);
      BytesSimulateExact(ca, cb, run[..n]);
      EveryRunLinked(ca, cb, run[..n]);
      EveryRunSound(ca, cb, run[..n]);
      HostImgCfg(s);
      if run[n].0 == A {
        StepImg(s.a, s.b, run[n].1);
      } else {
        StepImg(s.b, s.a, run[n].1);
      }
    }
  }

  lemma HostImgCfg(s: System)
    ensures HostImg(s.a).cfg == s.a.cfg && HostImg(s.b).cfg == s.b.cfg
  {
  }

  /** Safety end to end for the real thing: over bytes, with 32-bit counters, across any
      number of wrap-arounds. */
  lemma BytesReceivedIsPrefixOfSent(ca: Config, cb: Config, run: seq<(End, Action)>)
    requires ca.Valid() && cb.Valid() && ca.conv == cb.conv && AllRecent(ca, cb, run)
    ensures var s := RunBytes(ca, cb, run); s.b.got <= s.a.sent && s.a.got <= s.b.sent
  {
    BytesSimulateExact(ca, cb, run);
    ReceivedIsPrefixOfSent(ca, cb, run);
  }

  // ----- when the condition is met, and what happens when it is not ---------------------------------

  lemma {:induction false} StreamBounded(ca: Config, cb: Config, run: seq<(End, Action)>, who: End)
    requires ca.Valid() && cb.Valid()
    ensures var h := At(RunSystem(ca, cb, run), who);
      AllSendable(h.cfg.Mss(), h.sent) && |StreamOf(h)| <= 255 * |run|
  {
    hide Recv, Update, Flush, Input, Fragments;
    if run != [] {
      var n := |run| - 1;
      StreamBounded(ca, cb, run[..n], who);
      var h, h' := At(RunSystem(ca, cb, run[..n]), who), At(RunSystem(ca, cb, run), who);
      if h'.sent != h.sent {
        assert h'.sent[..|h.sent|] == h.sent;
      }
    }
  }

  lemma YoungLinkRecent(h: Host, peer: Host, k: nat)
    requires Link(h, peer) && Link(peer, h) && k < |peer.out|
    requires |StreamOf(h)| <= TWO31 && |StreamOf(peer)| + h.cfg.rcvWnd <= TWO31
    ensures Recent(h, peer, peer.out[k])
  {
    hide Stream, Counted, PushesOk, NothingLost, AcksOk, InOrder, Ok, ReceiverMatches;
    DatagramCarriesStream(peer, h, k);
    DatagramAcks(h, peer, k);
  }

  /** In a run of at most 2^30 / 255 actions nothing can be too old, so safety over bytes
      needs no condition on the network at all. */
  lemma ShortRunsAreSafe(ca: Config, cb: Config, run: seq<(End, Action)>)
    requires ca.Valid() && cb.Valid() && ca.conv == cb.conv && 255 * |run| <= 0x4000_0000
    ensures AllRecent(ca, cb, run)
    ensures var s := RunBytes(ca, cb, run); s.b.got <= s.a.sent && s.a.got <= s.b.sent
  {
    hide Link, Recent, Stream, RunSystem, RunBytes;
    forall i | 0 <= i < |run| ensures RecentAt(ca, cb, run[..i], run[i].0, run[i].1) {
      EveryRunLinked(ca, cb, run[..i]);
      StreamBounded(ca, cb, run[..i], A);
      StreamBounded(ca, cb, run[..i], B);
      var s := RunSystem(ca, cb, run[..i]);
      assert s.a.cfg == ca && s.b.cfg == cb;
      var h, peer := At(s, run[i].0), Facing(s, run[i].0);
      if run[i].1.Deliver? && run[i].1.k < |peer.out| {
        YoungLinkRecent(h, peer, run[i].1.k);
      }
    }
    BytesReceivedIsPrefixOfSent(ca, cb, run);
  }

  /** Exactly which numbers the 32-bit window test lets through: those at most a window past
      `rcv_nxt` modulo 2^32. The exact test asks the same of the difference itself, so a late
      segment is taken for a new one if and only if it is late by some multiple of 2^32 less
      what the window allows, and a segment late by anything else is refused by both. */
  lemma StaleIsTakenForNew(cfg: Config, r: Receiver, sn: int)
    requires cfg.Valid()
    ensures InWindow(Exact, r, cfg.rcvWnd, sn) <==> 0 <= sn - r.nxt < cfg.rcvWnd
    ensures InWindow(Wrapped, ImgReceiver(r), cfg.rcvWnd, U32(sn)) <==> U32(sn - r.nxt) < cfg.rcvWnd
  {
    hide U32, TimeDiff, InWindow;
    var x := Closest(r.nxt + cfg.rcvWnd, U32(sn));
    ExactWindow(r, cfg.rcvWnd, x);
    ExactWindow(r, cfg.rcvWnd, sn);
    WindowOfImage(r, cfg.rcvWnd, x);
    SameOffset(x, sn, r.nxt);
    SmallOffset(x - r.nxt, cfg.rcvWnd);
  }

  lemma ExactWindow(r: Receiver, wnd: nat, sn: int)
    ensures InWindow(Exact, r, wnd, sn) <==> 0 <= sn - r.nxt < wnd
  {
  }

  lemma WindowOfImage(r: Receiver, wnd: nat, x: int)
    requires wnd <= 0x4000_0000 && -TWO31 <= x - (r.nxt + wnd) < TWO31
    ensures InWindow(Wrapped, ImgReceiver(r), wnd, U32(x)) <==> InWindow(Exact, r, wnd, x)
  {
    hide U32, TimeDiff;
    WindowImg(r.nxt, wnd, x);
    if x - (r.nxt + wnd) < 0 { DiffNear(x, r.nxt); }
  }

  lemma SameOffset(x: int, y: int, base: int)
    requires U32(x) == U32(y)
    ensures U32(x - base) == U32(y - base)
  {
    U32Plus(x, -base);
    U32Plus(y, -base);
  }

  lemma SmallOffset(d: int, wnd: nat)
    requires wnd <= 0x4000_0000 && wnd - TWO31 <= d < wnd + TWO31
    ensures U32(d) < wnd <==> 0 <= d < wnd
  {
    if d < 0 { U32Shift(d, 1); }
  }
}
