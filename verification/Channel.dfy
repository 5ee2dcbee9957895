/** One direction of a connection: what must hold between the sending half of one endpoint
    and the receiving half of the other, and that single segments keep it. */
module Channel {
  import opened SerialNumbers
  import opened Segments
  import opened SendSide
  import opened RecvSide
  import opened Engine
  import opened Shape
  import opened Robustness
  import opened Wire

  /** Segment `sn` is fragment `sn` of the stream. */
  ghost predicate Carries(frags: seq<Frag>, nxt: int, sn: int, frag: Frag) {
    0 <= sn < nxt <= |frags| && frag == frags[sn]
  }

  /** The sender holds the stream: what is not numbered yet is queued, in order, and what
      is unacknowledged is numbered as in the stream. */
  ghost predicate SenderHolds(snd: Sender, frags: seq<Frag>) {
    && 0 <= snd.una <= snd.nxt <= |frags|
    && snd.queue == frags[snd.nxt..]
    && forall s :: s in snd.buf ==> Carries(frags, snd.nxt, s.sn, s.frag)
  }

  /** Data segments carry the stream. */
  ghost predicate PushOk(s: Segment, nxt: int, frags: seq<Frag>) {
    s.cmd == CMD_PUSH ==> Carries(frags, nxt, s.sn, s.frag)
  }

  ghost predicate PushesOk(wire: seq<Segment>, nxt: int, frags: seq<Frag>) {
    forall s :: s in wire ==> PushOk(s, nxt, frags)
  }

  /** What was received is the stream. */
  ghost predicate ReceiverMatches(r: Receiver, nxt: int, frags: seq<Frag>) {
    && 0 <= r.nxt - |r.queue| && r.nxt <= nxt <= |frags|
    && (forall t :: t in r.buf ==> Carries(frags, nxt, t.sn, t.frag))
    && (forall t :: t in r.queue ==> Carries(frags, nxt, t.sn, t.frag))
  }

  /** Acknowledgements speak only of what is held. */
  ghost predicate AckOk(s: Segment, r: Receiver) {
    && 0 <= s.una <= r.nxt
    && (s.cmd == CMD_ACK ==> 0 <= s.sn && Holds(r, s.sn))
  }

  ghost predicate AcksOk(wire: seq<Segment>, acks: seq<Ack>, r: Receiver) {
    && (forall s :: s in wire ==> AckOk(s, r))
    && (forall k :: k in acks ==> 0 <= k.sn && Holds(r, k.sn))
  }

  /** Every number given out is still with the sender or already with the receiver. */
  ghost predicate NothingLost(snd: Sender, r: Receiver) {
    forall sn :: 0 <= sn < snd.nxt ==> Queued(snd.buf, sn) || Holds(r, sn)
  }

  /** How often segment `sn` has been emitted. */
  ghost function Emissions(wire: seq<Segment>, sn: int): nat {
    if wire == [] then 0
    else
      var n := |wire| - 1;
      Emissions(wire[..n], sn) + if wire[n].cmd == CMD_PUSH && wire[n].sn == sn then 1 else 0
  }

  /** `xmit` counts the emissions of a segment, modulo 2^32. */
  ghost predicate Counted(snd: Sender, wire: seq<Segment>) {
    forall s :: s in snd.buf ==> s.xmit == U32(Emissions(wire, s.sn))
  }

  // ----- an incoming segment, seen from the sender -----------------------------------------------

  lemma TakeUnaLink(s: Sender, wnd: nat, una: int, frags: seq<Frag>, r: Receiver, wire: seq<Segment>)
    requires SenderShape(s, wnd) && SenderHolds(s, frags) && NothingLost(s, r) && Counted(s, wire)
    requires una <= r.nxt
    ensures var t := TakeUna(Exact, s, una);
      SenderHolds(t, frags) && NothingLost(t, r) && Counted(t, wire)
  {
    TakeUnaShape(s, wnd, una);
    var t := TakeUna(Exact, s, una);
    forall sn | 0 <= sn < t.nxt ensures Queued(t.buf, sn) || Holds(r, sn) {
      if sn < una { assert Holds(r, sn); }
    }
    assert forall x :: x in t.buf ==> x in s.buf;
  }

  lemma TakeAckLink(s: Sender, wnd: nat, sn: int, frags: seq<Frag>, r: Receiver, wire: seq<Segment>)
    requires SenderShape(s, wnd) && SenderHolds(s, frags) && NothingLost(s, r) && Counted(s, wire)
    requires Holds(r, sn)
    ensures var t := TakeAck(Exact, s, sn);
      SenderHolds(t, frags) && NothingLost(t, r) && Counted(t, wire)
  {
    TakeAckShape(s, wnd, sn);
    var t := TakeAck(Exact, s, sn);
    forall x | x in t.buf
      ensures Carries(frags, t.nxt, x.sn, x.frag) && x.xmit == U32(Emissions(wire, x.sn))
    {
      var i :| 0 <= i < |t.buf| && t.buf[i] == x;
      if s.una <= sn < s.nxt {
        var j := RemoveKeeps(s.buf, sn, i);
        assert s.buf[j] in s.buf;
      }
    }
  }

  /** An acknowledgement that is sound about the receiver takes nothing away that the
      receiver does not hold. */
  lemma InputSegAsSender(cfg: Config, e: Engine, s: Segment, frags: seq<Frag>, r: Receiver, wire: seq<Segment>)
    requires cfg.Valid() && Ok(cfg, e) && AckOk(s, r)
    requires SenderHolds(e.snd, frags) && NothingLost(e.snd, r) && Counted(e.snd, wire)
    ensures var t := InputSeg(Exact, cfg, e, s).snd;
      SenderHolds(t, frags) && NothingLost(t, r) && Counted(t, wire)
  {
    TakeUnaLink(e.snd, cfg.sndWnd, s.una, frags, r, wire);
    TakeUnaOk(cfg, e.snd, s.una);
    if s.cmd == CMD_ACK {
      TakeAckLink(TakeUna(Exact, e.snd, s.una), cfg.sndWnd, s.sn, frags, r, wire);
    }
  }

  // ----- an incoming segment, seen from the receiver -----------------------------------------------

  lemma PromoteMatches(r: Receiver, wnd: nat, nxt: int, frags: seq<Frag>)
    requires ReceiverMatches(r, nxt, frags)
    ensures ReceiverMatches(Promote(Exact, r, wnd), nxt, frags)
  {
    var m := PromotePrefix(r, wnd);
    var t := Promote(Exact, r, wnd);
    forall x | x in t.queue ensures Carries(frags, nxt, x.sn, x.frag) {
      assert x in r.queue || x in r.buf;
    }
    if m > 0 { assert r.buf[m - 1] in r.buf && r.buf[m - 1].sn == t.nxt - 1; }
  }

  lemma TakeDataMatches(r: Receiver, wnd: nat, s: RecvSeg, nxt: int, frags: seq<Frag>)
    requires ReceiverMatches(r, nxt, frags) && Carries(frags, nxt, s.sn, s.frag)
    ensures ReceiverMatches(TakeData(Exact, r, wnd, s), nxt, frags)
  {
    InsertElements(Exact, r.buf, s);
    PromoteMatches(r.(buf := Insert(Exact, r.buf, s)), wnd, nxt, frags);
  }

  lemma AcksOkMonotone(wire: seq<Segment>, acks: seq<Ack>, r: Receiver, r': Receiver)
    requires AcksOk(wire, acks, r)
    requires r.nxt <= r'.nxt && forall x :: Holds(r, x) ==> Holds(r', x)
    ensures AcksOk(wire, acks, r')
  {
  }

  /** A data segment of the stream leaves the receiver with the stream, acknowledgements that
      are true, and nothing forgotten. */
  lemma InputSegAsReceiver(cfg: Config, e: Engine, s: Segment, nxt: int, frags: seq<Frag>, wire: seq<Segment>)
    requires cfg.Valid() && Ok(cfg, e) && PushOk(s, nxt, frags)
    requires ReceiverMatches(e.rcv, nxt, frags) && AcksOk(wire, e.acks, e.rcv)
    ensures var t := InputSeg(Exact, cfg, e, s);
      && ReceiverMatches(t.rcv, nxt, frags) && AcksOk(wire, t.acks, t.rcv)
      && t.rcv.nxt - |t.rcv.queue| == e.rcv.nxt - |e.rcv.queue|
      && (forall x :: Holds(e.rcv, x) ==> Holds(t.rcv, x))
  {
    hide TakeUna, TakeAck, InputPush, AcksOk, ReceiverMatches, Holds;
    if s.cmd == CMD_PUSH {
      var e1 := e.(cong := e.cong.(rmtWnd := s.wnd), snd := TakeUna(Exact, e.snd, s.una));
      InputPushAsReceiver(cfg, e1, s, nxt, frags, wire);
    }
  }

  lemma InputPushAsReceiver(cfg: Config, e: Engine, s: Segment, nxt: int, frags: seq<Frag>, wire: seq<Segment>)
    requires cfg.Valid() && ReceiverShape(e.rcv, cfg.rcvWnd) && Carries(frags, nxt, s.sn, s.frag)
    requires ReceiverMatches(e.rcv, nxt, frags) && AcksOk(wire, e.acks, e.rcv)
    ensures var t := InputPush(Exact, cfg, e, s);
      && ReceiverMatches(t.rcv, nxt, frags) && AcksOk(wire, t.acks, t.rcv)
      && t.rcv.nxt - |t.rcv.queue| == e.rcv.nxt - |e.rcv.queue|
      && (forall x :: Holds(e.rcv, x) ==> Holds(t.rcv, x))
  {
    hide TakeData, ReceiverShape, ReceiverMatches, Holds;
    if s.sn < e.rcv.nxt + cfg.rcvWnd {
      var seg := RecvSeg(s.sn, s.frag);
      TakeDataShape(e.rcv, cfg.rcvWnd, seg);
      TakeDataMatches(e.rcv, cfg.rcvWnd, seg, nxt, frags);
      HeldBelow(e.rcv, s.sn);
      var t := InputPush(Exact, cfg, e, s);
      AcksOkMonotone(wire, e.acks, e.rcv, t.rcv);
      AcksOkAppend(wire, e.acks, t.rcv, Ack(s.sn, s.ts));
    }
  }

  lemma HeldBelow(r: Receiver, sn: int)
    ensures sn < r.nxt ==> Holds(r, sn)
  {
  }

  lemma AcksOkAppend(wire: seq<Segment>, acks: seq<Ack>, r: Receiver, k: Ack)
    requires AcksOk(wire, acks, r) && 0 <= k.sn && Holds(r, k.sn)
    ensures AcksOk(wire, acks + [k], r)
  {
  }

  // ----- a flush ---------------------------------------------------------------------------------------

  lemma {:induction false} DueElements(tx: Tx, buf: seq<SendSeg>)
    ensures forall s :: s in Due(tx, buf) <==> s in buf && CauseOf(tx, s) != Wait
  {
    if buf != [] {
      var n := |buf| - 1;
      DueElements(tx, buf[..n]);
      assert buf == buf[..n] + [buf[n]];
    }
  }

  /** Every segment a flush emits comes from this connection, and is an acknowledgement of
      something pending, a probe, or a due data segment; all report the same `una`. */
  lemma FlushSegsKinds(a: Arith, cfg: Config, e: Engine)
    ensures forall s :: s in FlushSegs(a, cfg, e) ==>
      && s.conv == cfg.conv && s.una == e.rcv.nxt && s.wnd == WndUnused(cfg, e.rcv)
      && (|| (s.cmd == CMD_ACK && s.frag.data == [] && Ack(s.sn, s.ts) in e.acks)
          || (s.cmd in {CMD_WASK, CMD_WINS} && s.frag.data == [])
          || (s.cmd == CMD_PUSH && s.ts == e.current && exists d ::
                d in Due(TxOf(cfg, e), Admitted(a, cfg, e).buf) && s == Push(cfg, e.rcv, e.current, d)))
      && (s.cmd == CMD_WASK ==> ProbeTimer(e.probe, e.cong.rmtWnd, e.current).ask)
      && (s.cmd == CMD_WINS ==> e.probe.tell)
  {
    var p := ProbeTimer(e.probe, e.cong.rmtWnd, e.current);
    var due := Due(TxOf(cfg, e), Admitted(a, cfg, e).buf);
    var x, y, z := AckSegs(cfg, e.rcv, e.acks), ProbeSegs(cfg, e.rcv, e.acks, p), PushSegs(cfg, e.rcv, e.current, due);
    forall s | s in FlushSegs(a, cfg, e)
      ensures s.conv == cfg.conv && s.una == e.rcv.nxt && s.wnd == WndUnused(cfg, e.rcv)
      ensures || (s.cmd == CMD_ACK && s.frag.data == [] && Ack(s.sn, s.ts) in e.acks)
              || (s.cmd in {CMD_WASK, CMD_WINS} && s.frag.data == [])
              || (s.cmd == CMD_PUSH && s.ts == e.current && exists d :: d in due && s == Push(cfg, e.rcv, e.current, d))
      ensures (s.cmd == CMD_WASK ==> p.ask) && (s.cmd == CMD_WINS ==> e.probe.tell)
    {
      TimerKeepsTell(e.probe, e.cong.rmtWnd, e.current);
      hide ProbeTimer, WndUnused;
      assert s in x || s in y || s in z;
      if s in x {
        var i :| 0 <= i < |x| && x[i] == s;
        assert e.acks[i] in e.acks;
      } else if s in z {
        var i :| 0 <= i < |z| && z[i] == s;
        assert due[i] in due;
      }
    }
  }

  lemma TimerKeepsTell(p: Probe, rmtWnd: u32, now: u32)
    ensures ProbeTimer(p, rmtWnd, now).tell == p.tell
  {
  }

  lemma {:induction false} EmissionsConcat(x: seq<Segment>, y: seq<Segment>, sn: int)
    ensures Emissions(x + y, sn) == Emissions(x, sn) + Emissions(y, sn)
  {
    if y == [] {
      assert x + y == x;
    } else {
      var n := |y| - 1;
      assert (x + y)[..|x + y| - 1] == x + y[..n];
      EmissionsConcat(x, y[..n], sn);
    }
  }

  lemma {:induction false} NoEmissions(wire: seq<Segment>, sn: int)
    requires forall s :: s in wire ==> s.cmd != CMD_PUSH || s.sn != sn
    ensures Emissions(wire, sn) == 0
  {
    if wire != [] {
      var n := |wire| - 1;
      assert wire[n] in wire;
      NoEmissions(wire[..n], sn);
    }
  }

  /** A flush emits a segment once if it is due and not at all otherwise. */
  lemma {:induction false} EmissionsOfDue(tx: Tx, cfg: Config, r: Receiver, now: u32, buf: seq<SendSeg>, i: nat)
    requires Increasing(buf) && i < |buf|
    ensures Emissions(PushSegs(cfg, r, now, Due(tx, buf)), buf[i].sn) == if CauseOf(tx, buf[i]) == Wait then 0 else 1
  {
    hide CauseOf, Emissions, WndUnused;
    var n := |buf| - 1;
    var front := Due(tx, buf[..n]);
    var last := if CauseOf(tx, buf[n]) == Wait then [] else [buf[n]];
    var x, y := PushSegs(cfg, r, now, front), PushSegs(cfg, r, now, last);
    assert PushSegs(cfg, r, now, Due(tx, buf)) == x + y;
    EmissionsConcat(x, y, buf[i].sn);
    EmissionsOfOne(cfg, r, now, last, buf[i].sn);
    if i < n {
      EmissionsOfDue(tx, cfg, r, now, buf[..n], i);
    } else {
      DueElements(tx, buf[..n]);
      forall s | s in x ensures s.sn != buf[n].sn {
        var j :| 0 <= j < |x| && x[j] == s;
        assert front[j] in front;
      }
      NoEmissions(x, buf[n].sn);
    }
  }

  lemma EmissionsOfOne(cfg: Config, r: Receiver, now: u32, due: seq<SendSeg>, sn: int)
    requires |due| <= 1
    ensures Emissions(PushSegs(cfg, r, now, due), sn) == if |due| == 1 && due[0].sn == sn then 1 else 0
  {
    hide WndUnused;
    var y := PushSegs(cfg, r, now, due);
    if |due| == 1 {
      assert y[..0] == [];
      assert Emissions(y[..0], sn) == 0;
    }
  }

  lemma FlushEmissions(cfg: Config, e: Engine, i: nat)
    requires cfg.Valid() && Ok(cfg, e) && i < |Admitted(Exact, cfg, e).buf|
    ensures var s := Admitted(Exact, cfg, e).buf[i];
      Emissions(FlushSegs(Exact, cfg, e), s.sn) == if CauseOf(TxOf(cfg, e), s) == Wait then 0 else 1
  {
    hide CauseOf, ProbeTimer, WndUnused, Due;
    var tx := TxOf(cfg, e);
    var buf := Admitted(Exact, cfg, e).buf;
    AdmitShape(e.snd, cfg.sndWnd, SendWindow(cfg, e.cong), e.current, e.rtt.rto);
    var p := ProbeTimer(e.probe, e.cong.rmtWnd, e.current);
    var x, y := AckSegs(cfg, e.rcv, e.acks), ProbeSegs(cfg, e.rcv, e.acks, p);
    var z := PushSegs(cfg, e.rcv, e.current, Due(tx, buf));
    EmissionsConcat(x + y, z, buf[i].sn);
    NoEmissions(x + y, buf[i].sn);
    EmissionsOfDue(tx, cfg, e.rcv, e.current, buf, i);
  }

  /** Admission: the new segments are the next of the stream, and none was emitted before. */
  lemma AdmitHolds(s: Sender, cwnd: nat, now: u32, rto: u32, frags: seq<Frag>, wire: seq<Segment>)
    requires SenderHolds(s, frags) && Counted(s, wire) && PushesOk(wire, s.nxt, frags)
    ensures var t := Admit(Exact, s, cwnd, now, rto); SenderHolds(t, frags) && Counted(t, wire) && s.nxt <= t.nxt
  {
    hide Emissions, U32, Admit;
    var m := AdmitPrefix(s, cwnd, now, rto);
    var t := Admit(Exact, s, cwnd, now, rto);
    var n := |s.buf|;
    assert t.queue == frags[t.nxt..];
    forall x | x in t.buf
      ensures Carries(frags, t.nxt, x.sn, x.frag) && x.xmit == U32(Emissions(wire, x.sn))
    {
      var i :| 0 <= i < |t.buf| && t.buf[i] == x;
      if i < n {
        assert t.buf[..n][i] == x;
        assert x in s.buf;
      } else {
        assert s.queue[i - n] == frags[x.sn];
        NoEmissions(wire, x.sn);
      }
    }
  }

  lemma AdmitLosesNothing(s: Sender, cwnd: nat, now: u32, rto: u32, r: Receiver)
    requires NothingLost(s, r)
    ensures NothingLost(Admit(Exact, s, cwnd, now, rto), r)
  {
    hide Holds;
    var m := AdmitPrefix(s, cwnd, now, rto);
    var t := Admit(Exact, s, cwnd, now, rto);
    var n := |s.buf|;
    forall sn | 0 <= sn < t.nxt ensures Queued(t.buf, sn) || Holds(r, sn) {
      if sn >= s.nxt {
        assert t.buf[n + (sn - s.nxt)].sn == sn;
      } else if Queued(s.buf, sn) {
        var i :| 0 <= i < n && s.buf[i].sn == sn;
        assert t.buf[..n][i].sn == sn;
        assert t.buf[i].sn == sn;
      }
    }
  }

  lemma PushesOkLater(wire: seq<Segment>, nxt: int, nxt': int, frags: seq<Frag>)
    requires PushesOk(wire, nxt, frags) && nxt <= nxt' <= |frags|
    ensures PushesOk(wire, nxt', frags)
  {
  }

  /** The data loop keeps numbers and payloads, and counts what it emits. */
  lemma TransmittedHolds(cfg: Config, e: Engine, frags: seq<Frag>, wire: seq<Segment>)
    requires cfg.Valid() && Ok(cfg, e)
    requires var s := Admitted(Exact, cfg, e); SenderHolds(s, frags) && Counted(s, wire)
    ensures var t := Transmitted(TxOf(cfg, e), Admitted(Exact, cfg, e));
      SenderHolds(t, frags) && Counted(t, wire + FlushSegs(Exact, cfg, e))
  {
    hide CauseOf, FlushSegs, Admit, Emissions, U32, Transmit, Ok;
    var s := Admitted(Exact, cfg, e);
    var tx := TxOf(cfg, e);
    var t := Transmitted(tx, s);
    forall x | x in t.buf
      ensures Carries(frags, t.nxt, x.sn, x.frag) && x.xmit == U32(Emissions(wire + FlushSegs(Exact, cfg, e), x.sn))
    {
      var i :| 0 <= i < |t.buf| && t.buf[i] == x;
      assert s.buf[i] in s.buf && x == Transmit(tx, s.buf[i]);
      TransmitCounts(tx, s.buf[i]);
      FlushEmissions(cfg, e, i);
      EmissionsConcat(wire, FlushSegs(Exact, cfg, e), x.sn);
      U32Plus(Emissions(wire, x.sn), 1);
    }
  }

  lemma TransmittedLosesNothing(tx: Tx, s: Sender, r: Receiver)
    requires NothingLost(s, r)
    ensures NothingLost(Transmitted(tx, s), r)
  {
    hide Transmit, CauseOf, Holds;
    var t := Transmitted(tx, s);
    forall sn | 0 <= sn < t.nxt ensures Queued(t.buf, sn) || Holds(r, sn) {
      if Queued(s.buf, sn) {
        var i :| 0 <= i < |s.buf| && s.buf[i].sn == sn;
        assert t.buf[i] == Transmit(tx, s.buf[i]);
        TransmitCounts(tx, s.buf[i]);
      }
    }
  }

  /** A flush keeps everything the sender owes the stream. */
  lemma FlushAsSender(cfg: Config, e: Engine, frags: seq<Frag>, r: Receiver, wire: seq<Segment>)
    requires cfg.Valid() && Ok(cfg, e)
    requires SenderHolds(e.snd, frags) && NothingLost(e.snd, r) && Counted(e.snd, wire) &&
      PushesOk(wire, e.snd.nxt, frags)
    ensures var t := FlushState(Exact, cfg, e).snd; var wire' := wire + FlushSegs(Exact, cfg, e);
      && SenderHolds(t, frags) && NothingLost(t, r) && Counted(t, wire') && PushesOk(wire', t.nxt, frags)
      && e.snd.nxt <= t.nxt
  {
    hide CauseOf, FlushSegs, Reduce, ProbeTimer, Admit, SendWindow, WndUnused, NothingLost, Counted, TransmitAll;
    var w := SendWindow(cfg, e.cong);
    var s := Admitted(Exact, cfg, e);
    AdmitHolds(e.snd, w, e.current, e.rtt.rto, frags, wire);
    AdmitLosesNothing(e.snd, w, e.current, e.rtt.rto, r);
    PushesOkLater(wire, e.snd.nxt, s.nxt, frags);
    TransmittedHolds(cfg, e, frags, wire);
    TransmittedLosesNothing(TxOf(cfg, e), s, r);
    FlushSegsKinds(Exact, cfg, e);
    DueElements(TxOf(cfg, e), s.buf);
    forall x | x in FlushSegs(Exact, cfg, e) ensures PushOk(x, s.nxt, frags) {
    }
  }

  /** A flush acknowledges only what is pending, hence held. */
  lemma FlushAsReceiver(cfg: Config, e: Engine, wire: seq<Segment>)
    requires cfg.Valid() && 0 <= e.rcv.nxt
    requires AcksOk(wire, e.acks, e.rcv)
    ensures AcksOk(wire + FlushSegs(Exact, cfg, e), [], e.rcv)
  {
    hide FlushSegs, Holds, Admitted, WndUnused;
    FlushSegsKinds(Exact, cfg, e);
    forall s | s in FlushSegs(Exact, cfg, e) ensures AckOk(s, e.rcv) {
    }
  }

  /** Everything a flush emits belongs to the connection, is well-formed, and fits the MTU. */
  lemma FlushSegsSound(cfg: Config, e: Engine)
    requires cfg.Valid() && Ok(cfg, e)
    ensures AllSound(cfg.conv, FlushSegs(Exact, cfg, e))
    ensures forall i :: 0 <= i < |FlushSegs(Exact, cfg, e)| ==> FlushSegs(Exact, cfg, e)[i].Size() <= cfg.mtu
  {
    hide FlushSegs, Admit, WndUnused;
    FlushSegsKinds(Exact, cfg, e);
    var segs := FlushSegs(Exact, cfg, e);
    DueElements(TxOf(cfg, e), Admitted(Exact, cfg, e).buf);
    AdmitOk(cfg, e.snd, SendWindow(cfg, e.cong), e.current, e.rtt.rto);
    forall i | 0 <= i < |segs| ensures Sound(cfg.conv, segs[i]) && segs[i].Size() <= cfg.mtu {
      assert segs[i] in segs;
    }
  }
}
