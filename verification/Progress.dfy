/** One clean round trip makes progress: what a flush sent and the peer could take is
    acknowledged and gone after the peer's next flush has come back. */
module Progress {
  import opened SerialNumbers
  import opened Segments
  import opened SendSide
  import opened RecvSide
  import opened Engine
  import opened Shape
  import opened Refinement32
  import opened Robustness
  import opened Wire
  import opened Channel
  import opened Protocol

  /** Datagrams given to `ikcp_input` one after the other. */
  function InputAll(cfg: Config, e: Engine, ds: seq<Datagram>): Engine
    requires cfg.Valid()
  {
    if ds == [] then e
    else Input(Exact, cfg, InputAll(cfg, e, ds[..|ds| - 1]), ds[|ds| - 1], true)
  }

  /** Congestion control aside. */
  ghost predicate Alike(e: Engine, f: Engine) { e.(cong := f.cong) == f }

  lemma InputSegAlike(cfg: Config, e: Engine, f: Engine, s: Segment)
    requires Alike(e, f)
    ensures Alike(InputSeg(Exact, cfg, e, s), InputSeg(Exact, cfg, f, s))
  {
    hide TakeUna, TakeAck, TakeData;
  }

  lemma {:induction false} InputSegsAlike(cfg: Config, e: Engine, f: Engine, segs: seq<Segment>)
    requires Alike(e, f)
    ensures Alike(InputSegs(Exact, cfg, e, segs), InputSegs(Exact, cfg, f, segs))
  {
    hide InputSeg, Alike;
    if segs != [] {
      var n := |segs| - 1;
      InputSegsAlike(cfg, e, f, segs[..n]);
      InputSegAlike(cfg, InputSegs(Exact, cfg, e, segs[..n]), InputSegs(Exact, cfg, f, segs[..n]), segs[n]);
    }
  }

  lemma {:induction false} InputSegsConcat(cfg: Config, e: Engine, s: seq<Segment>, t: seq<Segment>)
    ensures InputSegs(Exact, cfg, e, s + t) == InputSegs(Exact, cfg, InputSegs(Exact, cfg, e, s), t)
  {
    hide InputSeg;
    if t == [] {
      assert s + t == s;
    } else {
      var n := |t| - 1;
      assert (s + t)[..|s + t| - 1] == s + t[..n];
      InputSegsConcat(cfg, e, s, t[..n]);
    }
  }

  /** However the segments are cut into datagrams, their effect is the same. */
  lemma {:induction false} InputAllFlattens(cfg: Config, e: Engine, ds: seq<Datagram>)
    requires cfg.Valid()
    ensures Alike(InputAll(cfg, e, ds), InputSegs(Exact, cfg, e, Flatten(ds)))
  {
    if ds != [] {
      hide InputSegs, Grow;
      var n := |ds| - 1;
      InputAllFlattens(cfg, e, ds[..n]);
      InputSegsConcat(cfg, e, Flatten(ds[..n]), ds[n]);
      InputSegsAlike(cfg, InputAll(cfg, e, ds[..n]), InputSegs(Exact, cfg, e, Flatten(ds[..n])), ds[n]);
    } else {
      assert Flatten(ds) == [];
    }
  }

  // ----- the peer acknowledges what it could take ---------------------------------------------------

  /** A data segment below the end of the receive window is acknowledged, also when it is a
      duplicate, and stays due for acknowledgement until the next flush. */
  lemma {:induction false} ArrivalIsAcknowledged(cfg: Config, e: Engine, segs: seq<Segment>, i: nat)
    requires i < |segs| && segs[i].cmd == CMD_PUSH
    requires segs[i].sn < InputSegs(Exact, cfg, e, segs[..i]).rcv.nxt + cfg.rcvWnd
    ensures Ack(segs[i].sn, segs[i].ts) in InputSegs(Exact, cfg, e, segs).acks
    decreases |segs|
  {
    hide TakeUna, TakeAck, TakeData;
    var n := |segs| - 1;
    if i < n {
      assert segs[..n][..i] == segs[..i];
      ArrivalIsAcknowledged(cfg, e, segs[..n], i);
    }
  }

  /** Every pending acknowledgement is in the next flush, in order, before anything else. */
  lemma PendingAcksAreSent(cfg: Config, e: Engine)
    ensures |e.acks| <= |FlushSegs(Exact, cfg, e)|
    ensures forall j :: 0 <= j < |e.acks| ==> FlushSegs(Exact, cfg, e)[j] == Control(cfg, e.rcv, CMD_ACK, e.acks[j])
  {
    hide Admitted, Due, WndUnused, ProbeTimer;
  }

  // ----- the sender lets go of what is acknowledged ----------------------------------------------------

  lemma InputSegShrinks(cfg: Config, e: Engine, s: Segment, sn: int)
    requires cfg.Valid() && Ok(cfg, e)
    ensures Queued(InputSeg(Exact, cfg, e, s).snd.buf, sn) ==>
      Queued(e.snd.buf, sn) && !(s.cmd == CMD_ACK && s.sn == sn)
  {
    hide DropBefore, Remove, TakeData, Queued;
    TakeUnaShape(e.snd, cfg.sndWnd, s.una);
    TakeAckShape(TakeUna(Exact, e.snd, s.una), cfg.sndWnd, s.sn);
  }

  /** A segment acknowledged anywhere in the input is not in `snd_buf` at the end. */
  lemma {:induction false} AcknowledgedIsGone(cfg: Config, e: Engine, segs: seq<Segment>, j: nat)
    requires cfg.Valid() && Ok(cfg, e) && j < |segs| && segs[j].cmd == CMD_ACK
    ensures !Queued(InputSegs(Exact, cfg, e, segs).snd.buf, segs[j].sn)
    decreases |segs|
  {
    hide InputSeg, Ok, Queued;
    var n := |segs| - 1;
    var e1 := InputSegs(Exact, cfg, e, segs[..n]);
    InputKeepsOk(cfg, e, segs[..n]);
    InputSegShrinks(cfg, e1, segs[n], segs[j].sn);
    if j < n {
      AcknowledgedIsGone(cfg, e, segs[..n], j);
    }
  }

  lemma {:induction false} InputKeepsOk(cfg: Config, e: Engine, segs: seq<Segment>)
    requires cfg.Valid() && Ok(cfg, e)
    ensures Ok(cfg, InputSegs(Exact, cfg, e, segs)) && Forward(e, InputSegs(Exact, cfg, e, segs))
  {
    hide InputSeg, Ok;
    if segs != [] {
      var n := |segs| - 1;
      InputKeepsOk(cfg, e, segs[..n]);
      InputSegOk(cfg, InputSegs(Exact, cfg, e, segs[..n]), segs[n]);
    }
  }

  /** The round trip. `a` flushes, all its datagrams reach `b` in order, `b` flushes, and all
      of that comes back: then every data segment of the first flush that arrived below `b`'s
      rcv_nxt + rcv_wnd of that moment has left `a`'s snd_buf. */
  lemma CleanRoundTrip(ca: Config, cb: Config, a: Engine, b: Engine, i: nat)
    requires ca.Valid() && cb.Valid() && Ok(ca, a) && Ok(cb, b)
    requires a.pace.updated && b.pace.updated
    requires i < |FlushSegs(Exact, ca, a)| && FlushSegs(Exact, ca, a)[i].cmd == CMD_PUSH
    requires var segs := FlushSegs(Exact, ca, a);
      segs[i].sn < InputSegs(Exact, cb, b, segs[..i]).rcv.nxt + cb.rcvWnd
    ensures var (a1, ds) := Flush(Exact, ca, a);
      var b1 := InputAll(cb, b, ds);
      var (_, ds2) := Flush(Exact, cb, b1);
      !Queued(InputAll(ca, a1, ds2).snd.buf, FlushSegs(Exact, ca, a)[i].sn)
  {
    hide FlushSegs, InputSegs, Pack, Ok, Queued, FlushState;
    var segs := FlushSegs(Exact, ca, a);
    var (a1, ds) := Flush(Exact, ca, a);
    FlushLossless(ca, a);
    var b1 := InputAll(cb, b, ds);
    InputAllFlattens(cb, b, ds);
    ArrivalIsAcknowledged(cb, b, segs, i);
    var k := Ack(segs[i].sn, segs[i].ts);
    assert k in b1.acks;
    var j :| 0 <= j < |b1.acks| && b1.acks[j] == k;
    PendingAcksAreSent(cb, b1);
    InputAllKeepsOk(cb, b, ds);
    var ds2 := Flush(Exact, cb, b1).1;
    FlushLossless(cb, b1);
    FlushStateOk(ca, a);
    InputAllFlattens(ca, a1, ds2);
    AcknowledgedIsGone(ca, a1, FlushSegs(Exact, cb, b1), j);
  }

  lemma {:induction false} InputAllKeepsOk(cfg: Config, e: Engine, ds: seq<Datagram>)
    requires cfg.Valid() && Ok(cfg, e)
    ensures Ok(cfg, InputAll(cfg, e, ds)) && Forward(e, InputAll(cfg, e, ds))
    ensures e.pace.updated ==> InputAll(cfg, e, ds).pace.updated
  {
    hide InputSegs;
    if ds != [] {
      var n := |ds| - 1;
      InputAllKeepsOk(cfg, e, ds[..n]);
      InputKeepsOk(cfg, InputAll(cfg, e, ds[..n]), ds[n]);
      InputKeepsPace(cfg, InputAll(cfg, e, ds[..n]), ds[n]);
    }
  }

  lemma {:induction false} InputKeepsPace(cfg: Config, e: Engine, segs: seq<Segment>)
    ensures InputSegs(Exact, cfg, e, segs).pace == e.pace
  {
    hide TakeUna, TakeAck, TakeData;
    if segs != [] {
      InputKeepsPace(cfg, e, segs[..|segs| - 1]);
    }
  }

  /** The datagrams of a flush are its segments, each datagram non-empty and within the MTU. */
  lemma FlushLossless(cfg: Config, e: Engine)
    requires cfg.Valid() && Ok(cfg, e)
    ensures Flatten(Pack(cfg.mtu, FlushSegs(Exact, cfg, e))) == FlushSegs(Exact, cfg, e)
    ensures WellPacked(cfg.mtu, Pack(cfg.mtu, FlushSegs(Exact, cfg, e)))
    ensures Greedy(cfg.mtu, Pack(cfg.mtu, FlushSegs(Exact, cfg, e)))
    ensures AllSound(cfg.conv, FlushSegs(Exact, cfg, e))
  {
    hide FlushSegs, Pack, Admit, WndUnused, Flatten, Ok;
    FlushSegsSound(cfg, e);
    PackLossless(cfg.mtu, FlushSegs(Exact, cfg, e));
    PackGreedy(cfg.mtu, FlushSegs(Exact, cfg, e));
  }

  /** Flush packing over the wire: the datagrams decode, with the parser of `ikcp_input`, to
      the pending acknowledgements in order, then the probes, then the due data segments; and
      each of them is non-empty, at most the MTU, and reports the free space of the window. */
  lemma FlushDecodes(cfg: Config, e: Engine)
    requires cfg.Valid() && Ok(cfg, e) && e.pace.updated
    ensures var ds := Flush(Exact, cfg, e).1; var probe := ProbeTimer(e.probe, e.cong.rmtWnd, e.current);
      && Flatten(ds) == AckSegs(cfg, e.rcv, e.acks) + ProbeSegs(cfg, e.rcv, e.acks, probe)
                      + PushSegs(cfg, e.rcv, e.current, Due(TxOf(cfg, e), Admitted(Exact, cfg, e).buf))
      && (forall i :: 0 <= i < |ds| ==>
            && Parse(cfg.conv, EncodeDatagram(ds[i])) == Parsed(ImgSegs(ds[i]), 0)
            && 0 < |EncodeDatagram(ds[i])| <= cfg.mtu)
      && Greedy(cfg.mtu, ds)
      && (cfg.rcvWnd < TWO16 ==> forall s :: s in Flatten(ds) ==> s.wnd == cfg.rcvWnd - |e.rcv.queue|)
  {
    hide Pack, Ok, Parse, EncodeDatagram, Flatten, Due, Admitted, ProbeSegs, ProbeTimer, SizeOf, AckSegs, PushSegs,
         Greedy;
    FlushLossless(cfg, e);
    FlushSegsKinds(Exact, cfg, e);
    var segs := FlushSegs(Exact, cfg, e);
    var ds := Flush(Exact, cfg, e).1;
    forall i | 0 <= i < |ds|
      ensures Parse(cfg.conv, EncodeDatagram(ds[i])) == Parsed(ImgSegs(ds[i]), 0)
      ensures 0 < |EncodeDatagram(ds[i])| <= cfg.mtu
    {
      forall j | 0 <= j < |ds[i]| ensures Sound(cfg.conv, ds[i][j]) {
        FlattenContains(ds, i, ds[i][j]);
        var k :| 0 <= k < |segs| && segs[k] == ds[i][j];
      }
      ParseEncode(cfg.conv, ds[i]);
      EncodedSize(ds[i]);
      SizeNotZero(ds[i]);
    }
    OkQueue(cfg, e);
  }

  lemma OkQueue(cfg: Config, e: Engine)
    requires Ok(cfg, e)
    ensures |e.rcv.queue| <= cfg.rcvWnd
  {
  }

  lemma SizeNotZero(d: Datagram)
    requires d != []
    ensures SizeOf(d) > 0
  {
  }

  lemma {:induction false} EmittedSomewhere(wire: seq<Segment>, sn: int) returns (i: nat)
    requires Emissions(wire, sn) > 0
    ensures i < |wire| && wire[i].cmd == CMD_PUSH && wire[i].sn == sn
  {
    var n := |wire| - 1;
    if wire[n].cmd == CMD_PUSH && wire[n].sn == sn {
      i := n;
    } else {
      i := EmittedSomewhere(wire[..n], sn);
    }
  }

  /** A receiver with room in its queue is missing nothing before the sender's window. */
  lemma RoomMeansReachable(a: Host, b: Host)
    requires Link(a, b) && |b.eng.rcv.queue| < b.cfg.rcvWnd
    ensures a.eng.snd.una <= b.eng.rcv.nxt
  {
    hide Counted, PushesOk, AcksOk, InOrder, Stream, Flatten, Holds;
    var r := b.eng.rcv;
    NextIsLeastMissing(r, b.cfg.rcvWnd);
    assert r.nxt < a.eng.snd.nxt ==> Queued(a.eng.snd.buf, r.nxt);
  }

  /** A clean round trip moves the window: if the oldest unacknowledged segment is due and the
      receiver has room, then after one flush each way, delivered whole, `snd_una` is larger. */
  lemma RoundTripAdvances(a: Host, b: Host)
    requires Link(a, b) && a.eng.pace.updated && b.eng.pace.updated
    requires |b.eng.rcv.queue| < b.cfg.rcvWnd
    requires var buf := Admitted(Exact, a.cfg, a.eng).buf; buf != [] && CauseOf(TxOf(a.cfg, a.eng), buf[0]) != Wait
    ensures var (a1, ds) := Flush(Exact, a.cfg, a.eng);
      var (_, ds2) := Flush(Exact, b.cfg, InputAll(b.cfg, b.eng, ds));
      InputAll(a.cfg, a1, ds2).snd.una > a.eng.snd.una
  {
    hide Link, FlushSegs, InputSegs, Pack, Queued, CauseOf, Due, Emissions;
    LinkValid(a, b);
    RoomMeansReachable(a, b);
    var snd := Admitted(Exact, a.cfg, a.eng);
    AdmitShape(a.eng.snd, a.cfg.sndWnd, SendWindow(a.cfg, a.eng.cong), a.eng.current, a.eng.rtt.rto);
    AdmitOk(a.cfg, a.eng.snd, SendWindow(a.cfg, a.eng.cong), a.eng.current, a.eng.rtt.rto);
    FlushEmissions(a.cfg, a.eng, 0);
    var segs := FlushSegs(Exact, a.cfg, a.eng);
    var i := EmittedSomewhere(segs, snd.buf[0].sn);
    InputKeepsOk(b.cfg, b.eng, segs[..i]);
    CleanRoundTrip(a.cfg, b.cfg, a.eng, b.eng, i);
    var (a1, ds) := Flush(Exact, a.cfg, a.eng);
    var ds2 := Flush(Exact, b.cfg, InputAll(b.cfg, b.eng, ds)).1;
    FlushStateOk(a.cfg, a.eng);
    InputAllKeepsOk(a.cfg, a1, ds2);
    UnaMoved(a.cfg, a1, InputAll(a.cfg, a1, ds2), a.eng.snd.una);
  }

  lemma UnaMoved(cfg: Config, e: Engine, e': Engine, una: int)
    requires Ok(cfg, e) && Ok(cfg, e') && Forward(e, e') && e.snd.una == una < e.snd.nxt
    requires !Queued(e'.snd.buf, una)
    ensures e'.snd.una > una
  {
    if e'.snd.buf != [] {
      assert e'.snd.buf[0].sn == e'.snd.una;
    }
  }
}
