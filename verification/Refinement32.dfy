/** The 32-bit engine simulates the exact one: taking every sequence number modulo 2^32
    commutes with each operation, across any number of wrap-arounds. */
module Refinement32 {
  import opened SerialNumbers
  import opened Segments
  import opened SendSide
  import opened RecvSide
  import opened Engine
  import opened Shape

  // ----- images ------------------------------------------------------------------------------

  function ImgSend(buf: seq<SendSeg>): (r: seq<SendSeg>)
    ensures |r| == |buf|
    ensures forall i :: 0 <= i < |buf| ==> r[i] == buf[i].(sn := U32(buf[i].sn))
  {
    seq(|buf|, i requires 0 <= i < |buf| => buf[i].(sn := U32(buf[i].sn)))
  }

  function ImgRecv(buf: seq<RecvSeg>): (r: seq<RecvSeg>)
    ensures |r| == |buf|
    ensures forall i :: 0 <= i < |buf| ==> r[i] == buf[i].(sn := U32(buf[i].sn))
  {
    seq(|buf|, i requires 0 <= i < |buf| => buf[i].(sn := U32(buf[i].sn)))
  }

  function ImgAcks(acks: seq<Ack>): (r: seq<Ack>)
    ensures |r| == |acks|
    ensures forall i :: 0 <= i < |acks| ==> r[i] == acks[i].(sn := U32(acks[i].sn))
  {
    seq(|acks|, i requires 0 <= i < |acks| => acks[i].(sn := U32(acks[i].sn)))
  }

  function ImgSeg(s: Segment): Segment { s.(sn := U32(s.sn), una := U32(s.una)) }

  function ImgSegs(segs: seq<Segment>): (r: seq<Segment>)
    ensures |r| == |segs|
    ensures forall i :: 0 <= i < |segs| ==> r[i] == ImgSeg(segs[i])
  {
    seq(|segs|, i requires 0 <= i < |segs| => ImgSeg(segs[i]))
  }

  function ImgSender(s: Sender): Sender { Sender(U32(s.una), U32(s.nxt), s.queue, ImgSend(s.buf)) }

  function ImgReceiver(r: Receiver): Receiver { Receiver(U32(r.nxt), ImgRecv(r.buf), ImgRecv(r.queue)) }

  /** The 32-bit control block that an exact one stands behind. */
  function Img(e: Engine): Engine {
    e.(snd := ImgSender(e.snd), rcv := ImgReceiver(e.rcv), acks := ImgAcks(e.acks))
  }

  // ----- sending half --------------------------------------------------------------------------

  lemma {:induction false} DropBeforeImg(buf: seq<SendSeg>, una: int)
    requires Increasing(buf)
    requires forall i :: 0 <= i < |buf| ==> buf[i].sn - buf[0].sn < TWO31
    requires buf != [] ==> -TWO31 <= una - buf[0].sn < TWO31
    ensures DropBefore(Wrapped, ImgSend(buf), U32(una)) == ImgSend(DropBefore(Exact, buf, una))
  {
    if buf != [] {
      DiffNear(una, buf[0].sn);
      if una > buf[0].sn {
        var rest := buf[1..];
        assert ImgSend(buf)[1..] == ImgSend(rest);
        assert forall i :: 0 <= i < |rest| ==> rest[i] == buf[i + 1];
        DropBeforeImg(rest, una);
      }
    }
  }

  lemma {:induction false} RemoveImg(buf: seq<SendSeg>, sn: int)
    requires forall i :: 0 <= i < |buf| ==> -TWO32 < buf[i].sn - sn < TWO32
    ensures Remove(ImgSend(buf), U32(sn)) == ImgSend(Remove(buf, sn))
  {
    hide U32, Remove;
    RemoveFirst(buf, sn);
    RemoveFirst(ImgSend(buf), U32(sn));
    if buf != [] {
      U32Injective(buf[0].sn, sn);
      var rest := buf[1..];
      assert ImgSend(buf)[1..] == ImgSend(rest);
      assert forall i :: 0 <= i < |rest| ==> rest[i] == buf[i + 1];
      RemoveImg(rest, sn);
      ImgSendCons(buf[0].(fastack := U32(buf[0].fastack + 1)), Remove(rest, sn));
    }
  }

  lemma RemoveFirst(buf: seq<SendSeg>, sn: int)
    ensures buf == [] ==> Remove(buf, sn) == []
    ensures buf != [] && buf[0].sn == sn ==> Remove(buf, sn) == buf[1..]
    ensures buf != [] && buf[0].sn != sn ==>
      Remove(buf, sn) == [buf[0].(fastack := U32(buf[0].fastack + 1))] + Remove(buf[1..], sn)
  {
  }

  lemma ImgSendCons(s: SendSeg, buf: seq<SendSeg>)
    ensures ImgSend([s] + buf) == [s.(sn := U32(s.sn))] + ImgSend(buf)
  {
  }

  lemma ShrinkImg(s: Sender)
    ensures Shrink(ImgSender(s)) == ImgSender(Shrink(s))
  {
  }

  lemma TakeUnaImg(s: Sender, wnd: nat, una: int)
    requires SenderShape(s, wnd) && wnd < TWO31
    requires -TWO31 <= una - s.una < TWO31
    ensures TakeUna(Wrapped, ImgSender(s), U32(una)) == ImgSender(TakeUna(Exact, s, una))
  {
    DropBeforeImg(s.buf, una);
    ShrinkImg(s.(buf := DropBefore(Exact, s.buf, una)));
  }

  lemma TakeAckImg(s: Sender, wnd: nat, sn: int)
    requires SenderShape(s, wnd) && wnd < TWO31
    requires -TWO31 <= sn - s.una < TWO31
    ensures TakeAck(Wrapped, ImgSender(s), U32(sn)) == ImgSender(TakeAck(Exact, s, sn))
  {
    DiffNear(sn, s.una);
    if sn >= s.una {
      DiffNear(sn, s.nxt);
      RemoveImg(s.buf, sn);
      ShrinkImg(s.(buf := Remove(s.buf, sn)));
    }
    ShrinkImg(s);
  }

  lemma ImgSendAppend(buf: seq<SendSeg>, s: SendSeg)
    ensures ImgSend(buf + [s]) == ImgSend(buf) + [s.(sn := U32(s.sn))]
  {
  }

  lemma AdmitOneImg(s: Sender, now: u32, rto: u32)
    requires s.queue != []
    ensures AdmitOne(Wrapped, ImgSender(s), now, rto) == ImgSender(AdmitOne(Exact, s, now, rto))
  {
    U32Plus(s.nxt, 1);
    ImgSendAppend(s.buf, SendSeg(s.nxt, s.queue[0], now, rto, 0, 0));
  }

  lemma HasRoomImg(s: Sender, cwnd: nat)
    requires cwnd < TWO31 && s.una <= s.nxt < s.una + TWO31
    ensures HasRoom(Wrapped, ImgSender(s), cwnd) == HasRoom(Exact, s, cwnd)
  {
    U32Plus(s.una, cwnd);
    DiffNear(s.nxt, s.una + cwnd);
  }

  lemma {:induction false} AdmitImg(s: Sender, cwnd: nat, now: u32, rto: u32)
    requires cwnd < TWO31
    requires s.una <= s.nxt < s.una + TWO31
    ensures Admit(Wrapped, ImgSender(s), cwnd, now, rto) == ImgSender(Admit(Exact, s, cwnd, now, rto))
    decreases |s.queue|
  {
    HasRoomImg(s, cwnd);
    if s.queue != [] && HasRoom(Exact, s, cwnd) {
      AdmitOneImg(s, now, rto);
      AdmitImg(AdmitOne(Exact, s, now, rto), cwnd, now, rto);
    }
  }

  /** Timers and counters do not look at sequence numbers. */
  lemma TransmitImg(tx: Tx, s: SendSeg, x: int)
    ensures CauseOf(tx, s.(sn := x)) == CauseOf(tx, s)
    ensures Transmit(tx, s.(sn := x)) == Transmit(tx, s).(sn := x)
  {
  }

  lemma TransmitAllImg(tx: Tx, buf: seq<SendSeg>)
    ensures TransmitAll(tx, ImgSend(buf)) == ImgSend(TransmitAll(tx, buf))
  {
    var l, r := TransmitAll(tx, ImgSend(buf)), ImgSend(TransmitAll(tx, buf));
    forall i | 0 <= i < |buf| ensures l[i] == r[i] {
      TransmitImg(tx, buf[i], U32(buf[i].sn));
    }
  }

  lemma {:induction false} DueImg(tx: Tx, buf: seq<SendSeg>)
    ensures Due(tx, ImgSend(buf)) == ImgSend(Due(tx, buf))
  {
    if buf != [] {
      var n := |buf| - 1;
      assert ImgSend(buf)[..n] == ImgSend(buf[..n]);
      DueImg(tx, buf[..n]);
      TransmitImg(tx, buf[n], U32(buf[n].sn));
      ImgSendAppend(Due(tx, buf[..n]), buf[n]);
    }
  }

  lemma {:induction false} CountCauseImg(tx: Tx, buf: seq<SendSeg>, c: Cause)
    ensures CountCause(tx, ImgSend(buf), c) == CountCause(tx, buf, c)
  {
    if buf != [] {
      var n := |buf| - 1;
      assert ImgSend(buf)[..n] == ImgSend(buf[..n]);
      CountCauseImg(tx, buf[..n], c);
      TransmitImg(tx, buf[n], U32(buf[n].sn));
    }
  }

  lemma DeadLinkImg(tx: Tx, buf: seq<SendSeg>, deadLink: u32)
    ensures ReachesDeadLink(tx, ImgSend(buf), deadLink) == ReachesDeadLink(tx, buf, deadLink)
  {
    forall i | 0 <= i < |buf|
      ensures CauseOf(tx, ImgSend(buf)[i]) == CauseOf(tx, buf[i])
      ensures Transmit(tx, ImgSend(buf)[i]).xmit == Transmit(tx, buf[i]).xmit
    {
      TransmitImg(tx, buf[i], U32(buf[i].sn));
    }
  }

  // ----- receiving half ------------------------------------------------------------------------

  lemma {:induction false} ScanStopImg(buf: seq<RecvSeg>, sn: int)
    requires forall i :: 0 <= i < |buf| ==> -TWO31 < sn - buf[i].sn < TWO31
    ensures ScanStop(Wrapped, ImgRecv(buf), U32(sn)) == ScanStop(Exact, buf, sn)
  {
    if buf != [] {
      var n := |buf| - 1;
      DiffNear(sn, buf[n].sn);
      U32Injective(sn, buf[n].sn);
      assert ImgRecv(buf)[..n] == ImgRecv(buf[..n]);
      ScanStopImg(buf[..n], sn);
    }
  }

  lemma ImgRecvSplice(buf: seq<RecvSeg>, k: nat, s: RecvSeg)
    requires k <= |buf|
    ensures ImgRecv(buf[..k] + [s] + buf[k..]) == ImgRecv(buf)[..k] + [s.(sn := U32(s.sn))] + ImgRecv(buf)[k..]
  {
  }

  lemma InsertImg(buf: seq<RecvSeg>, s: RecvSeg)
    requires forall i :: 0 <= i < |buf| ==> -TWO31 < s.sn - buf[i].sn < TWO31
    ensures Insert(Wrapped, ImgRecv(buf), s.(sn := U32(s.sn))) == ImgRecv(Insert(Exact, buf, s))
  {
    hide U32, ScanStop;
    ScanStopImg(buf, s.sn);
    var p := ScanStop(Exact, buf, s.sn);
    if p >= 0 { U32Injective(buf[p].sn, s.sn); }
    ImgRecvSplice(buf, p + 1, s);
  }

  lemma {:induction false} PromoteImg(r: Receiver, wnd: nat)
    requires forall i :: 0 <= i < |r.buf| ==> -TWO31 < r.buf[i].sn - r.nxt < TWO31
    requires Ordered(r.buf)
    ensures Promote(Wrapped, ImgReceiver(r), wnd) == ImgReceiver(Promote(Exact, r, wnd))
    decreases |r.buf|
  {
    hide U32;
    if r.buf != [] {
      U32Injective(r.buf[0].sn, r.nxt);
      if r.buf[0].sn == r.nxt && |r.queue| < wnd {
        var r1 := Receiver(r.nxt + 1, r.buf[1..], r.queue + [r.buf[0]]);
        U32Plus(r.nxt, 1);
        assert ImgRecv(r.buf)[1..] == ImgRecv(r1.buf);
        assert ImgRecv(r.queue) + [ImgRecv(r.buf)[0]] == ImgRecv(r1.queue);
        assert forall i :: 0 <= i < |r1.buf| ==> r1.buf[i] == r.buf[i + 1];
        PromoteImg(r1, wnd);
      }
    }
  }

  /** The two window tests compare correctly for numbers within 2^31 of the window's end. */
  lemma WindowImg(nxt: int, wnd: nat, sn: int)
    requires wnd < TWO31
    requires -TWO31 <= sn - (nxt + wnd) < TWO31
    ensures Wrapped.Diff(U32(sn), Wrapped.Num(U32(nxt) + wnd)) == sn - (nxt + wnd)
    ensures sn < nxt + wnd ==> (Wrapped.Diff(U32(sn), U32(nxt)) < 0 <==> sn < nxt)
  {
    U32Plus(nxt, wnd);
    DiffNear(sn, nxt + wnd);
    if sn < nxt + wnd {
      DiffNear(sn, nxt);
    }
  }

  lemma TakeDataImg(r: Receiver, wnd: nat, s: RecvSeg)
    requires ReceiverShape(r, wnd) && wnd < TWO31
    requires -TWO31 <= s.sn - (r.nxt + wnd) < TWO31
    ensures TakeData(Wrapped, ImgReceiver(r), wnd, s.(sn := U32(s.sn))) == ImgReceiver(TakeData(Exact, r, wnd, s))
  {
    WindowImg(r.nxt, wnd, s.sn);
    assert InWindow(Wrapped, ImgReceiver(r), wnd, U32(s.sn)) == InWindow(Exact, r, wnd, s.sn);
    if InWindow(Exact, r, wnd, s.sn) {
      InsertImg(r.buf, s);
      var r1 := Inserted(r, wnd, s);
      PromoteImg(r1, wnd);
    }
  }

  lemma {:induction false} MergeImg(q: seq<RecvSeg>)
    ensures MergeCount(ImgRecv(q)) == MergeCount(q)
    ensures Frags(ImgRecv(q)) == Frags(q)
  {
    if q != [] {
      assert ImgRecv(q)[1..] == ImgRecv(q[1..]);
      MergeImg(q[1..]);
    }
  }

  lemma TakeImg(r: Receiver, wnd: nat, len: int)
    requires ReceiverShape(r, wnd) && wnd < TWO31
    ensures Take(Wrapped, ImgReceiver(r), wnd, len).0 == ImgReceiver(Take(Exact, r, wnd, len).0)
    ensures Take(Wrapped, ImgReceiver(r), wnd, len).1 == Take(Exact, r, wnd, len).1
  {
    hide U32, Promote;
    var n := MergeCount(r.queue);
    MergeImg(r.queue);
    assert ImgRecv(r.queue)[..n] == ImgRecv(r.queue[..n]);
    MergeImg(r.queue[..n]);
    assert ImgRecv(r.queue)[n..] == ImgRecv(r.queue[n..]);
    PromoteImg(r, wnd);
    PromoteImg(r.(queue := r.queue[n..]), wnd);
  }

  // ----- whole operations ------------------------------------------------------------------------

  /** The shape every entry point keeps. */
  ghost predicate EngineShape(cfg: Config, e: Engine) {
    SenderShape(e.snd, cfg.sndWnd) && ReceiverShape(e.rcv, cfg.rcvWnd)
  }

  /** The numbers of a segment are within 2^31 of the counters they are compared with. */
  ghost predicate Near(cfg: Config, e: Engine, s: Segment) {
    && -TWO31 <= s.una - e.snd.una < TWO31
    && (s.cmd == CMD_ACK ==> -TWO31 <= s.sn - TakeUna(Exact, e.snd, s.una).una < TWO31)
    && (s.cmd == CMD_PUSH ==> -TWO31 <= s.sn - (e.rcv.nxt + cfg.rcvWnd) < TWO31)
  }

  lemma ImgAcksAppend(acks: seq<Ack>, k: Ack)
    ensures ImgAcks(acks + [k]) == ImgAcks(acks) + [k.(sn := U32(k.sn))]
  {
  }

  lemma InputPushImg(cfg: Config, e: Engine, s: Segment)
    requires cfg.Valid() && ReceiverShape(e.rcv, cfg.rcvWnd)
    requires -TWO31 <= s.sn - (e.rcv.nxt + cfg.rcvWnd) < TWO31
    ensures InputPush(Wrapped, cfg, Img(e), ImgSeg(s)) == Img(InputPush(Exact, cfg, e, s))
  {
    hide TakeData, U32, TimeDiff;
    WindowImg(e.rcv.nxt, cfg.rcvWnd, s.sn);
    if s.sn < e.rcv.nxt + cfg.rcvWnd {
      ImgAcksAppend(e.acks, Ack(s.sn, s.ts));
      TakeDataImg(e.rcv, cfg.rcvWnd, RecvSeg(s.sn, s.frag));
    }
  }

  lemma InputSegImg(cfg: Config, e: Engine, s: Segment)
    requires cfg.Valid() && EngineShape(cfg, e) && Near(cfg, e, s)
    ensures InputSeg(Wrapped, cfg, Img(e), ImgSeg(s)) == Img(InputSeg(Exact, cfg, e, s))
  {
    TakeUnaImg(e.snd, cfg.sndWnd, s.una);
    TakeUnaShape(e.snd, cfg.sndWnd, s.una);
    var e1 := e.(cong := e.cong.(rmtWnd := s.wnd), snd := TakeUna(Exact, e.snd, s.una));
    if s.cmd == CMD_ACK {
      TakeAckImg(e1.snd, cfg.sndWnd, s.sn);
    } else if s.cmd == CMD_PUSH {
      InputPushImg(cfg, e1, s);
    }
  }

  /** Every operation that reads no datagram commutes with taking images outright. */
  lemma RecvImg32(cfg: Config, e: Engine, len: int)
    requires cfg.Valid() && EngineShape(cfg, e)
    ensures Recv(Wrapped, cfg, Img(e), len).0 == Img(Recv(Exact, cfg, e, len).0)
    ensures Recv(Wrapped, cfg, Img(e), len).1 == Recv(Exact, cfg, e, len).1
  {
    TakeImg(e.rcv, cfg.rcvWnd, len);
  }

  lemma AdmittedImg(cfg: Config, e: Engine)
    requires cfg.Valid() && EngineShape(cfg, e)
    ensures Admitted(Wrapped, cfg, Img(e)) == ImgSender(Admitted(Exact, cfg, e))
  {
    AdmitImg(e.snd, SendWindow(cfg, e.cong), e.current, e.rtt.rto);
  }

  lemma ControlImg(cfg: Config, r: Receiver, acks: seq<Ack>, p: Probe)
    ensures AckSegs(cfg, ImgReceiver(r), ImgAcks(acks)) == ImgSegs(AckSegs(cfg, r, acks))
    ensures ProbeSegs(cfg, ImgReceiver(r), ImgAcks(acks), p) == ImgSegs(ProbeSegs(cfg, r, acks, p))
  {
  }

  lemma PushSegsImg(cfg: Config, r: Receiver, now: u32, due: seq<SendSeg>)
    ensures PushSegs(cfg, ImgReceiver(r), now, ImgSend(due)) == ImgSegs(PushSegs(cfg, r, now, due))
  {
  }

  lemma FlushSegsImg(cfg: Config, e: Engine)
    requires cfg.Valid() && EngineShape(cfg, e)
    ensures FlushSegs(Wrapped, cfg, Img(e)) == ImgSegs(FlushSegs(Exact, cfg, e))
  {
    AdmittedImg(cfg, e);
    var buf := Admitted(Exact, cfg, e).buf;
    DueImg(TxOf(cfg, e), buf);
    var due := Due(TxOf(cfg, e), buf);
    var p := ProbeTimer(e.probe, e.cong.rmtWnd, e.current);
    ControlImg(cfg, e.rcv, e.acks, p);
    PushSegsImg(cfg, e.rcv, e.current, due);
    var s, t, u := AckSegs(cfg, e.rcv, e.acks), ProbeSegs(cfg, e.rcv, e.acks, p), PushSegs(cfg, e.rcv, e.current, due);
    assert FlushSegs(Exact, cfg, e) == s + t + u;
    assert FlushSegs(Wrapped, cfg, Img(e)) == ImgSegs(s) + ImgSegs(t) + ImgSegs(u);
    ImgSegsConcat(s, t);
    ImgSegsConcat(s + t, u);
  }

  lemma ImgSegsConcat(s: seq<Segment>, t: seq<Segment>)
    ensures ImgSegs(s + t) == ImgSegs(s) + ImgSegs(t)
  {
  }

  lemma FlushedImg(cfg: Config, e: Engine, snd: Sender, t: Tally)
    requires cfg.Valid()
    ensures Flushed(cfg, Img(e), ImgSender(snd), t) == Img(Flushed(cfg, e, snd, t))
  {
    assert ImgAcks([]) == [];
  }

  lemma DataLoopImg(tx: Tx, snd: Sender, deadLink: u32)
    ensures Transmitted(tx, ImgSender(snd)) == ImgSender(Transmitted(tx, snd))
    ensures TallyOf(tx, ImgSender(snd), deadLink) == TallyOf(tx, snd, deadLink)
  {
    hide U32, CountCause, ReachesDeadLink, TransmitAll;
    TransmitAllImg(tx, snd.buf);
    CountCauseImg(tx, snd.buf, Timeout);
    CountCauseImg(tx, snd.buf, FastResend);
    DeadLinkImg(tx, snd.buf, deadLink);
    U32Minus(snd.nxt, snd.una);
  }

  lemma FlushStateImg(cfg: Config, e: Engine)
    requires cfg.Valid() && EngineShape(cfg, e)
    ensures FlushState(Wrapped, cfg, Img(e)) == Img(FlushState(Exact, cfg, e))
  {
    var tx := TxOf(cfg, e);
    var snd := Admitted(Exact, cfg, e);
    AdmittedImg(cfg, e);
    DataLoopImg(tx, snd, cfg.deadLink);
    FlushedImg(cfg, e, Transmitted(tx, snd), TallyOf(tx, snd, cfg.deadLink));
  }

  // ----- packing is blind to sequence numbers ------------------------------------------------------

  function ImgDatagrams(ds: seq<Datagram>): (r: seq<Datagram>)
    ensures |r| == |ds|
    ensures forall i :: 0 <= i < |ds| ==> r[i] == ImgSegs(ds[i])
  {
    seq(|ds|, i requires 0 <= i < |ds| => ImgSegs(ds[i]))
  }

  function ImgPacker(p: Packer): Packer { Packer(ImgDatagrams(p.done), ImgSegs(p.cur)) }

  lemma {:induction false} SizeOfImg(d: Datagram)
    ensures SizeOf(ImgSegs(d)) == SizeOf(d)
  {
    if d != [] {
      var n := |d| - 1;
      assert ImgSegs(d)[..n] == ImgSegs(d[..n]);
      SizeOfImg(d[..n]);
    }
  }

  lemma CloseImg(p: Packer)
    ensures Close(ImgPacker(p)) == ImgDatagrams(Close(p))
  {
  }

  lemma {:induction false} PutAllImg(mtu: nat, p: Packer, segs: seq<Segment>)
    ensures PutAll(mtu, ImgPacker(p), ImgSegs(segs)) == ImgPacker(PutAll(mtu, p, segs))
  {
    if segs != [] {
      var n := |segs| - 1;
      assert ImgSegs(segs)[..n] == ImgSegs(segs[..n]);
      PutAllImg(mtu, p, segs[..n]);
      PutImg(mtu, PutAll(mtu, p, segs[..n]), segs[n]);
    }
  }

  lemma PutImg(mtu: nat, p: Packer, s: Segment)
    ensures Put(mtu, ImgPacker(p), ImgSeg(s)) == ImgPacker(Put(mtu, p, s))
  {
    SizeOfImg(p.cur);
    CloseImg(p);
    assert ImgSegs(p.cur + [s]) == ImgSegs(p.cur) + [ImgSeg(s)];
    assert ImgSegs([s]) == [ImgSeg(s)];
  }

  lemma PackImg(mtu: nat, segs: seq<Segment>)
    ensures Pack(mtu, ImgSegs(segs)) == ImgDatagrams(Pack(mtu, segs))
  {
    var p := Packer([], []);
    assert ImgPacker(p) == p;
    PutAllImg(mtu, p, segs);
    CloseImg(PutAll(mtu, p, segs));
  }

  lemma FlushImg32(cfg: Config, e: Engine)
    requires cfg.Valid() && EngineShape(cfg, e)
    ensures Flush(Wrapped, cfg, Img(e)).0 == Img(Flush(Exact, cfg, e).0)
    ensures Flush(Wrapped, cfg, Img(e)).1 == ImgDatagrams(Flush(Exact, cfg, e).1)
  {
    FlushStateImg(cfg, e);
    FlushSegsImg(cfg, e);
    PackImg(cfg.mtu, FlushSegs(Exact, cfg, e));
  }

  lemma UpdateImg32(cfg: Config, e: Engine, now: u32)
    requires cfg.Valid() && EngineShape(cfg, e)
    ensures Update(Wrapped, cfg, Img(e), now).0 == Img(Update(Exact, cfg, e, now).0)
    ensures Update(Wrapped, cfg, Img(e), now).1 == ImgDatagrams(Update(Exact, cfg, e, now).1)
  {
    var e1 := e.(current := now, pace := Tick(e.pace, cfg.interval, now).0);
    assert Img(e).(current := now, pace := Tick(e.pace, cfg.interval, now).0) == Img(e1);
    FlushImg32(cfg, e1);
  }
}
