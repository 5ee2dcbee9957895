/** A client and a server's endpoint. What the client does once connected is what a KCP
    endpoint does, so end-to-end safety holds for what its user sees: the messages reported
    by the event callback, and the messages given to `send_msg`. */
module ClientEndpoint {
  import opened SerialNumbers
  import opened Segments
  import opened RecvSide
  import opened Engine
  import opened Wire
  import opened Handshake
  import opened UserCalls
  import opened ByteProtocol
  import Protocol
  import opened ClientModel
  import opened Feedback

  type Act = Protocol.Action

  /** Actions at one endpoint while the other rests. */
  function ByteDo(h: ByteHost, peer: ByteHost, acts: seq<Act>): (t: ByteHost)
    requires h.cfg.Valid()
    ensures t.cfg == h.cfg
  {
    if acts == [] then h else ByteStep(ByteDo(h, peer, acts[..|acts| - 1]), peer, acts[|acts| - 1])
  }

  lemma {:induction false} ByteDoConcat(h: ByteHost, peer: ByteHost, x: seq<Act>, y: seq<Act>)
    requires h.cfg.Valid()
    ensures ByteDo(h, peer, x + y) == ByteDo(ByteDo(h, peer, x), peer, y)
  {
    hide ByteStep;
    if y == [] {
      assert x + y == x;
    } else {
      var n := |y| - 1;
      assert (x + y)[..|x + y| - 1] == x + y[..n];
      ByteDoConcat(h, peer, x, y[..n]);
    }
  }

  lemma ByteDoOne(h: ByteHost, peer: ByteHost, act: Act)
    requires h.cfg.Valid()
    ensures ByteDo(h, peer, [act]) == ByteStep(h, peer, act)
  {
    hide ByteStep;
    assert [act][..0] == [];
    assert ByteDo(h, peer, []) == h;
  }

  // ----- sending ------------------------------------------------------------------------------------------

  function Says(msgs: seq<Bytes>): (acts: seq<Act>)
    ensures |acts| == |msgs|
    ensures forall i :: 0 <= i < |msgs| ==> acts[i] == Protocol.Say(msgs[i])
  {
    seq(|msgs|, i requires 0 <= i < |msgs| => Protocol.Say(msgs[i]))
  }

  /** The loop over the send queue, seen from its end. */
  lemma {:induction false} SendAllLast(cfg: Config, e: Engine, msgs: seq<Bytes>, m: Bytes)
    requires cfg.Valid()
    ensures SendAll(cfg, e, msgs + [m]) == Send(cfg, SendAll(cfg, e, msgs), m).0
    decreases |msgs|
  {
    hide Send;
    var all := msgs + [m];
    if msgs == [] {
      assert all[1..] == [] && all[0] == m;
    } else {
      assert all[1..] == msgs[1..] + [m];
      SendAllLast(cfg, Send(cfg, e, msgs[0]).0, msgs[1..], m);
    }
  }

  lemma {:induction false} SendAllIsSaying(h: ByteHost, peer: ByteHost, msgs: seq<Bytes>)
    requires h.cfg.Valid()
    ensures ByteDo(h, peer, Says(msgs)) ==
      h.(eng := SendAll(h.cfg, h.eng, msgs), sent := h.sent + Accepted(h.cfg.Mss(), msgs))
  {
    hide Sendable, Says, Fragments;
    if msgs == [] {
      assert Says(msgs) == [] && h.sent + [] == h.sent;
    } else {
      var n := |msgs| - 1;
      assert Says(msgs)[..n] == Says(msgs[..n]);
      assert msgs == msgs[..n] + [msgs[n]];
      SendAllIsSaying(h, peer, msgs[..n]);
      SendAllLast(h.cfg, h.eng, msgs[..n], msgs[n]);
      ConcatAssoc(h.sent, Accepted(h.cfg.Mss(), msgs[..n]), [msgs[n]]);
    }
  }

  /** The loop over the send queue queues the fragments of the messages that are not too long,
      in order, behind what waited before, and changes nothing else. */
  lemma {:induction false} SendAllQueues(cfg: Config, e: Engine, msgs: seq<Bytes>)
    requires cfg.Valid()
    ensures var mss := cfg.Mss();
      SendAll(cfg, e, msgs) == e.(snd := e.snd.(queue := e.snd.queue + Stream(mss, Accepted(mss, msgs))))
  {
    hide Fragments, Sendable, SendAll;
    var mss := cfg.Mss();
    if msgs == [] {
      SendAllNone(cfg, e);
      assert e.snd.queue + [] == e.snd.queue;
    } else {
      var n := |msgs| - 1;
      SendAllQueues(cfg, e, msgs[..n]);
      assert msgs == msgs[..n] + [msgs[n]];
      SendAllLast(cfg, e, msgs[..n], msgs[n]);
      var x, y := Accepted(mss, msgs[..n]), Accepted(mss, msgs);
      if y != x {
        assert y[..|y| - 1] == x;
        ConcatAssoc(e.snd.queue, Stream(mss, x), Fragments(mss, msgs[n]));
      }
    }
  }

  lemma SendAllNone(cfg: Config, e: Engine)
    requires cfg.Valid()
    ensures SendAll(cfg, e, []) == e
  {
  }

  // ----- receiving ----------------------------------------------------------------------------------------

  function Hears(n: nat): (acts: seq<Act>)
    ensures |acts| == n
    ensures forall i :: 0 <= i < n ==> acts[i] == Protocol.Hear(10240)
  {
    seq(n, i => Protocol.Hear(10240))
  }

  /** The messages that are not empty. */
  function NonEmpty(msgs: seq<Bytes>): seq<Bytes> {
    if msgs == [] then []
    else
      var n := |msgs| - 1;
      NonEmpty(msgs[..n]) + if msgs[n] == [] then [] else [msgs[n]]
  }

  lemma {:induction false} NonEmptyConcat(x: seq<Bytes>, y: seq<Bytes>)
    ensures NonEmpty(x + y) == NonEmpty(x) + NonEmpty(y)
  {
    if y == [] {
      assert x + y == x;
    } else {
      var n := |y| - 1;
      assert (x + y)[..|x + y| - 1] == x + y[..n];
      NonEmptyConcat(x, y[..n]);
    }
  }

  lemma NonEmptyOne(m: Bytes)
    ensures NonEmpty([m]) == if m == [] then [] else [m]
  {
    assert [m][..0] == [];
  }

  lemma HearsFirst(n: nat)
    ensures Hears(n + 1) == [Protocol.Hear(10240)] + Hears(n)
  {
  }

  /** Nothing more can be received, or an empty message came last. */
  ghost predicate Drained(h: ByteHost) {
    || Recv(Wrapped, h.cfg, h.eng, 10240).1.Again?
    || (h.got != [] && h.got[|h.got| - 1] == [])
  }

  /** The receive loop is a number of receive calls, until nothing more can be received or an
      empty message comes; what it hands on are the messages they return, less that one. */
  lemma {:induction false} DrainIsHearing(h: ByteHost, peer: ByteHost) returns (n: nat)
    requires h.cfg.Valid()
    ensures var (e, msgs) := Drain(h.cfg, h.eng); var t := ByteDo(h, peer, Hears(n));
      t == h.(eng := e, got := t.got) && NonEmpty(t.got) == NonEmpty(h.got) + msgs && Drained(t)
    decreases |h.eng.rcv.buf| + |h.eng.rcv.queue|
  {
    hide Recv, ByteDo, NonEmpty, Hears, Whole, Payload, MergeCount;
    var (e', res) := Recv(Wrapped, h.cfg, h.eng, 10240);
    var h1 := ByteStep(h, peer, Protocol.Hear(10240));
    RecvShrinks(h.cfg, h.eng, 10240);
    RecvExactly(Wrapped, h.cfg, h.eng, 10240);
    ByteDoOne(h, peer, Protocol.Hear(10240));
    if res.Message? {
      NonEmptyConcat(h.got, [res.msg]);
      NonEmptyOne(res.msg);
    }
    if res.Message? && res.msg != [] {
      var k := DrainIsHearing(h1, peer);
      n := k + 1;
      HearsFirst(k);
      ByteDoConcat(h, peer, [Protocol.Hear(10240)], Hears(k));
      ConcatAssoc(NonEmpty(h.got), [res.msg], Drain(h.cfg, e').1);
    } else {
      n := 1;
      assert Hears(1) == [Protocol.Hear(10240)];
      assert NonEmpty(h.got) + [] == NonEmpty(h.got);
    }
  }

  // ----- one update -----------------------------------------------------------------------------------------

  /** The messages among the reports. */
  function Messages(reports: seq<Report>): seq<Bytes> {
    if reports == [] then []
    else
      var n := |reports| - 1;
      Messages(reports[..n]) + if reports[n].event.RcvMsg? then [reports[n].event.msg] else []
  }

  lemma {:induction false} MessagesConcat(x: seq<Report>, y: seq<Report>)
    ensures Messages(x + y) == Messages(x) + Messages(y)
  {
    if y == [] {
      assert x + y == x;
    } else {
      var n := |y| - 1;
      assert (x + y)[..|x + y| - 1] == x + y[..n];
      MessagesConcat(x, y[..n]);
    }
  }

  lemma {:induction false} MessagesReported(now: nat, conv: u32, msgs: seq<Bytes>)
    ensures Messages(MsgReports(now, conv, msgs)) == msgs
  {
    if msgs != [] {
      var n := |msgs| - 1;
      MessagesReported(now, conv, msgs[..n]);
      assert MsgReports(now, conv, msgs)[..n] == MsgReports(now, conv, msgs[..n]);
    }
  }

  /** Bytes the connected client gives to its engine. */
  predicate ForEngine(r: Read) { r.Data? && r.bytes != [] && !IsDisconnect(r.bytes) }

  /** Where the bytes come from: the peer has emitted them, or the engine refuses them at
      once, because they are of another conversation or malformed from the start. */
  ghost predicate Honest(conv: u32, peer: ByteHost, r: Read) {
    ForEngine(r) ==> r.bytes in peer.out || StopReason(conv, r.bytes).Some?
  }

  /** The actions that taking in what was read amounts to: a delivery, unless the engine
      refuses the bytes, and then receive calls. */
  ghost predicate Taken(peer: ByteHost, r: Read, k: nat, n: nat, acts: seq<Act>) {
    if !ForEngine(r) then acts == []
    else if r.bytes in peer.out then
      k < |peer.out| && peer.out[k] == r.bytes && acts == [Protocol.Deliver(k)] + Hears(n)
    else acts == Hears(n)
  }

  lemma ReadIsDelivery(h: ByteHost, peer: ByteHost, now: nat, r: Read) returns (k: nat, n: nat, acts: seq<Act>)
    requires h.cfg.Valid() && Honest(h.cfg.conv, peer, r)
    ensures Taken(peer, r, k, n, acts)
    ensures var (e, rs) := DoRecv(h.cfg, h.eng, now, r); var t := ByteDo(h, peer, acts);
      && t == h.(eng := e, got := t.got) && NonEmpty(t.got) == NonEmpty(h.got) + Messages(rs)
      && (ForEngine(r) ==> Drained(t))
      && rs == match r
               case Nothing => []
               case Error => [Report(now, Disconnected(h.cfg.conv, []))]
               case Data(b) => if b != [] && IsDisconnect(b) then [Report(now, Disconnected(h.cfg.conv, b))]
                               else MsgReports(now, h.cfg.conv, Messages(rs))
  {
    hide ByteDo, NonEmpty, Drain, Parse, Input, StopReason, IsDisconnect, Hears, Drained, Messages;
    k, n := 0, 0;
    if ForEngine(r) {
      var p := Parse(h.cfg.conv, r.bytes);
      var h1 := h.(eng := Input(Wrapped, h.cfg, h.eng, p.segs, p.code == 0));
      n := DrainIsHearing(h1, peer);
      MessagesReported(now, h.cfg.conv, Drain(h.cfg, h1.eng).1);
      if r.bytes in peer.out {
        k :| 0 <= k < |peer.out| && peer.out[k] == r.bytes;
        acts := [Protocol.Deliver(k)] + Hears(n);
        ByteDoOne(h, peer, Protocol.Deliver(k));
        ByteDoConcat(h, peer, [Protocol.Deliver(k)], Hears(n));
      } else {
        Refused(h.cfg, h.eng, r.bytes);
        acts := Hears(n);
      }
    } else {
      acts := [];
      NothingDone(h, peer);
      NoMessages(now, h.cfg.conv, if r.Data? then r.bytes else []);
      assert NonEmpty(h.got) + [] == NonEmpty(h.got);
    }
  }

  lemma Refused(cfg: Config, e: Engine, data: Bytes)
    requires cfg.Valid() && StopReason(cfg.conv, data).Some?
    ensures var p := Parse(cfg.conv, data); Input(Wrapped, cfg, e, p.segs, p.code == 0) == e
  {
    hide StopReason, Parse, Input;
    ForeignIsIgnored(cfg, e, data);
  }

  lemma NothingDone(h: ByteHost, peer: ByteHost)
    requires h.cfg.Valid()
    ensures ByteDo(h, peer, []) == h
  {
  }

  lemma NoMessages(now: nat, conv: u32, b: Bytes)
    ensures Messages([]) == [] && Messages([Report(now, Disconnected(conv, b))]) == []
  {
    assert [Report(now, Disconnected(conv, b))][..0] == [];
  }

  /** The endpoint of a connected client. */
  function Endpoint(c: Client, sent: seq<Bytes>, got: seq<Bytes>): ByteHost
    requires c.conn.Some?
  {
    ByteHost(c.conn.value.cfg, c.conn.value.eng, sent, got, c.conn.value.out)
  }

  /** An update of a connected client is what its endpoint does in these actions: it sends the
      queued messages, takes in what was read, receives until there is nothing more, and
      updates its engine. */
  lemma UpdateIsEndpoint(c: Client, now: nat, r: Read, sent: seq<Bytes>, got: seq<Bytes>, peer: ByteHost)
    returns (k: nat, n: nat, taken: seq<Act>, acts: seq<Act>)
    requires c.conn.Some? && c.conn.value.cfg.Valid() && Honest(c.conn.value.cfg.conv, peer, r)
    ensures Taken(peer, r, k, n, taken)
    ensures acts == Says(c.queue) + taken + [Protocol.Advance(U32(now))]
    ensures ForEngine(r) ==> Drained(ByteDo(Endpoint(c, sent, got), peer, Says(c.queue) + taken))
    ensures var c', t := DoTraffic(c, now, r), ByteDo(Endpoint(c, sent, got), peer, acts);
      && c'.conn.Some? && Endpoint(c', t.sent, t.got) == t
      && t.sent == sent + Accepted(t.cfg.Mss(), c.queue) && c'.queue == []
      && (Messages(c.reports) == NonEmpty(got) ==> Messages(c'.reports) == NonEmpty(t.got))
  {
    hide ByteDo, NonEmpty, DoRecv, SendAll, Accepted, Update, Honest, U32, EncodeAll, Messages, Drained, Taken,
         ForEngine;
    var h := Endpoint(c, sent, got);
    var cfg := h.cfg;
    SendAllIsSaying(h, peer, c.queue);
    var h1 := h.(eng := SendAll(cfg, h.eng, c.queue), sent := sent + Accepted(cfg.Mss(), c.queue));
    k, n, taken := ReadIsDelivery(h1, peer, now, r);
    var h2 := ByteDo(h1, peer, taken);
    MessagesConcat(c.reports, DoRecv(cfg, h1.eng, now, r).1);
    var last := [Protocol.Advance(U32(now))];
    ByteDoOne(h2, peer, Protocol.Advance(U32(now)));
    acts := Says(c.queue) + taken + last;
    ByteDoConcat(h, peer, Says(c.queue), taken);
    ByteDoConcat(h, peer, Says(c.queue) + taken, last);
  }

  // ----- a client and a server's endpoint ----------------------------------------------------------------------

  datatype World = World(client: Client, server: ByteHost)

  datatype Happening = AtClient(m: Move) | AtServer(act: Act)

  /** The client as its peer sees it: by the datagrams it has put on the wire. */
  function Outgoing(c: Client): ByteHost {
    ByteHost(ClientConfig(0), Create(), [], [], if c.conn.Some? then c.conn.value.out else [])
  }

  function Happen(w: World, h: Happening): World
    requires w.server.cfg.Valid() && (w.client.conn.Some? ==> w.client.conn.value.cfg.Valid())
  {
    match h
    case AtClient(m) => w.(client := Apply(w.client, m))
    case AtServer(act) => w.(server := ByteStep(w.server, Outgoing(w.client), act))
  }

  function RunWorld(cs: Config, hs: seq<Happening>): (w: World)
    requires cs.Valid()
    ensures w.server.cfg == cs && (w.client.conn.Some? ==> w.client.conn.value.cfg.Valid())
  {
    if hs == [] then World(INITIAL, ByteHost(cs, Create(), [], [], []))
    else Happen(RunWorld(cs, hs[..|hs| - 1]), hs[|hs| - 1])
  }

  /** The messages the client's user has sent. */
  function Said(hs: seq<Happening>): seq<Bytes> {
    if hs == [] then []
    else
      var n := |hs| - 1;
      Said(hs[..n]) + if hs[n].AtClient? && hs[n].m.DoSendMsg? then [hs[n].m.msg] else []
  }

  /** The server's answer carries its conversation number, and once connected the client reads
      nothing but the server's datagrams and what its engine refuses. */
  ghost predicate HonestAt(w: World, h: Happening) {
    h.AtClient? && h.m.DoUpdate? ==>
      && (w.client.inConnect && Answer(h.m.r) ==> GrabSendBack(h.m.r.bytes) == w.server.cfg.conv)
      && (!w.client.inConnect ==> Honest(w.server.cfg.conv, w.server, h.m.r))
  }

  ghost predicate AllHonest(cs: Config, hs: seq<Happening>)
    requires cs.Valid()
  {
    forall i :: 0 <= i < |hs| ==> HonestAt(RunWorld(cs, hs[..i]), hs[i])
  }

  /** The client's phases, whatever its clock does. */
  ghost predicate Sane(c: Client) {
    && (c.conn.Some? <==> c.succeeded) && !(c.inConnect && c.succeeded)
    && (c.inConnect || c.succeeded ==> c.socket != -1)
  }

  /** The byte-level run that the client and the server amount to. */
  ghost predicate Embeds(cs: Config, w: World, said: seq<Bytes>, run: seq<(Protocol.End, Act)>)
    requires cs.Valid()
  {
    var cc := ClientConfig(cs.conv);
    var s := RunBytes(cc, cs, run);
    && Sane(w.client) && w.server == s.b
    && (w.client.conn.None? ==> s.a == ByteHost(cc, Create(), [], [], []))
    && (w.client.conn.Some? ==> w.client.conn.value == Conn(cc, s.a.eng, s.a.out))
    && Messages(w.client.reports) == NonEmpty(s.a.got)
    && Accepted(cc.Mss(), said) == s.a.sent + Accepted(cc.Mss(), w.client.queue)
  }

  function Each(who: Protocol.End, acts: seq<Act>): (r: seq<(Protocol.End, Act)>)
    ensures |r| == |acts|
    ensures forall i :: 0 <= i < |acts| ==> r[i] == (who, acts[i])
  {
    seq(|acts|, i requires 0 <= i < |acts| => (who, acts[i]))
  }

  lemma {:induction false} RunBytesDo(ca: Config, cb: Config, run: seq<(Protocol.End, Act)>, acts: seq<Act>)
    requires ca.Valid() && cb.Valid()
    ensures var s := RunBytes(ca, cb, run);
      RunBytes(ca, cb, run + Each(Protocol.A, acts)) == s.(a := ByteDo(s.a, s.b, acts))
  {
    hide ByteStep, Each;
    var more := Each(Protocol.A, acts);
    if acts == [] {
      assert run + more == run;
    } else {
      var n := |acts| - 1;
      assert (run + more)[..|run + more| - 1] == run + Each(Protocol.A, acts[..n]);
      RunBytesDo(ca, cb, run, acts[..n]);
    }
  }

  lemma RunBytesAtB(ca: Config, cb: Config, run: seq<(Protocol.End, Act)>, act: Act)
    requires ca.Valid() && cb.Valid()
    ensures var s := RunBytes(ca, cb, run);
      RunBytes(ca, cb, run + [(Protocol.B, act)]) == s.(b := ByteStep(s.b, s.a, act))
  {
    hide ByteStep;
    var more := run + [(Protocol.B, act)];
    assert more[..|more| - 1] == run;
  }

  lemma SamePeer(h: ByteHost, p: ByteHost, p': ByteHost, act: Act)
    requires h.cfg.Valid() && p.out == p'.out
    ensures ByteStep(h, p, act) == ByteStep(h, p', act)
  {
    hide Send, Recv, Update, Flush, Input, Parse;
  }

  lemma {:induction false} AcceptedConcat(mss: int, x: seq<Bytes>, y: seq<Bytes>)
    requires mss > 0
    ensures Accepted(mss, x + y) == Accepted(mss, x) + Accepted(mss, y)
  {
    hide Sendable;
    if y == [] {
      assert x + y == x;
    } else {
      var n := |y| - 1;
      assert (x + y)[..|x + y| - 1] == x + y[..n];
      AcceptedConcat(mss, x, y[..n]);
    }
  }

  lemma ServerEmbeds(cs: Config, w: World, said: seq<Bytes>, run: seq<(Protocol.End, Act)>, act: Act)
    requires cs.Valid() && Embeds(cs, w, said, run)
    ensures Embeds(cs, World(w.client, ByteStep(w.server, Outgoing(w.client), act)), said, run + [(Protocol.B, act)])
  {
    hide RunBytes, ByteStep, Messages, NonEmpty, Accepted;
    var cc := ClientConfig(cs.conv);
    var s := RunBytes(cc, cs, run);
    RunBytesAtB(cc, cs, run, act);
    SamePeer(s.b, Outgoing(w.client), s.a, act);
  }

  lemma TrafficEmbeds(cs: Config, w: World, said: seq<Bytes>, run: seq<(Protocol.End, Act)>, now: nat, r: Read)
    returns (run': seq<(Protocol.End, Act)>)
    requires cs.Valid() && Embeds(cs, w, said, run) && w.client.succeeded && Honest(cs.conv, w.server, r)
    ensures w.client.conn.Some? && w.client.conn.value.cfg.Valid()
    ensures Embeds(cs, World(DoTraffic(w.client, now, r), w.server), said, run')
  {
    hide RunBytes, ByteDo, Messages, NonEmpty, Accepted, Honest, DoRecv, SendAll, Update, Taken, Drained,
         ForEngine, EncodeAll;
    var cc := ClientConfig(cs.conv);
    var s := RunBytes(cc, cs, run);
    var k, n, taken, acts := UpdateIsEndpoint(w.client, now, r, s.a.sent, s.a.got, w.server);
    run' := run + Each(Protocol.A, acts);
    RunBytesDo(cc, cs, run, acts);
    AcceptedNone(cc.Mss());
  }

  lemma AcceptedNone(mss: int)
    requires mss > 0
    ensures Accepted(mss, []) == []
  {
  }

  lemma ConnectEmbeds(cs: Config, w: World, said: seq<Bytes>, run: seq<(Protocol.End, Act)>, now: nat, r: Read)
    requires cs.Valid() && Embeds(cs, w, said, run) && w.client.inConnect
    requires Answer(r) ==> GrabSendBack(r.bytes) == cs.conv
    ensures Embeds(cs, World(DoConnect(w.client, now, r), w.server), said, run)
  {
    hide RunBytes, NonEmpty, Accepted, IsSendBack, GrabSendBack, MakeConnect, Elapsed, Messages;
    NotAMessage(w.client.reports, Report(now, ConnectFailed));
    NotAMessage(w.client.reports, Report(now, Connected(cs.conv)));
  }

  lemma NotAMessage(reports: seq<Report>, r: Report)
    requires !r.event.RcvMsg?
    ensures Messages(reports + [r]) == Messages(reports)
  {
    assert (reports + [r])[..|reports|] == reports;
  }

  lemma UserEmbeds(cs: Config, w: World, said: seq<Bytes>, run: seq<(Protocol.End, Act)>, m: Move)
    requires cs.Valid() && Embeds(cs, w, said, run) && !m.DoUpdate?
    requires w.client.conn.Some? ==> w.client.conn.value.cfg.Valid()
    ensures Embeds(cs, World(Apply(w.client, m), w.server), if m.DoSendMsg? then said + [m.msg] else said, run)
  {
    hide RunBytes, NonEmpty, Accepted, Messages;
    var cc := ClientConfig(cs.conv);
    var s := RunBytes(cc, cs, run);
    if m.DoSendMsg? {
      AcceptedConcat(cc.Mss(), said, [m.msg]);
      AcceptedConcat(cc.Mss(), w.client.queue, [m.msg]);
      ConcatAssoc(s.a.sent, Accepted(cc.Mss(), w.client.queue), Accepted(cc.Mss(), [m.msg]));
    }
  }

  /** Every run of a client and a server's endpoint is a run of two endpoints. */
  lemma {:induction false} EveryWorldEmbeds(cs: Config, hs: seq<Happening>) returns (run: seq<(Protocol.End, Act)>)
    requires cs.Valid() && AllHonest(cs, hs)
    ensures Embeds(cs, RunWorld(cs, hs), Said(hs), run)
  {
    hide Embeds, ByteStep, DoConnect, DoTraffic, Honest, GrabSendBack, Answer;
    if hs == [] {
      run := [];
      NothingEmbeds(cs);
    } else {
      var n := |hs| - 1;
      HonestFront(cs, hs);
      var w, h := RunWorld(cs, hs[..n]), hs[n];
      run := EveryWorldEmbeds(cs, hs[..n]);
      EmbedsSane(cs, w, Said(hs[..n]), run);
      assert Said(hs[..n]) + [] == Said(hs[..n]);
      assert RunWorld(cs, hs) == Happen(w, h);
      if h.AtServer? {
        ServerEmbeds(cs, w, Said(hs[..n]), run, h.act);
        run := run + [(Protocol.B, h.act)];
      } else if !h.m.DoUpdate? {
        UserEmbeds(cs, w, Said(hs[..n]), run, h.m);
      } else if w.client.inConnect {
        ConnectEmbeds(cs, w, Said(hs[..n]), run, h.m.now, h.m.r);
      } else if w.client.succeeded {
        run := TrafficEmbeds(cs, w, Said(hs[..n]), run, h.m.now, h.m.r);
      }
    }
  }

  lemma EmbedsSane(cs: Config, w: World, said: seq<Bytes>, run: seq<(Protocol.End, Act)>)
    requires cs.Valid() && Embeds(cs, w, said, run)
    ensures Sane(w.client)
  {
  }

  lemma NothingEmbeds(cs: Config)
    requires cs.Valid()
    ensures Embeds(cs, World(INITIAL, ByteHost(cs, Create(), [], [], [])), [], [])
  {
  }

  lemma HonestFront(cs: Config, hs: seq<Happening>)
    requires cs.Valid() && hs != [] && AllHonest(cs, hs)
    ensures AllHonest(cs, hs[..|hs| - 1]) && HonestAt(RunWorld(cs, hs[..|hs| - 1]), hs[|hs| - 1])
  {
    hide HonestAt, RunWorld;
    var n := |hs| - 1;
    forall i | 0 <= i < n ensures HonestAt(RunWorld(cs, hs[..n][..i]), hs[..n][i]) {
      assert hs[..n][..i] == hs[..i];
    }
  }

  /** End to end for the client's user: the messages the callback reports are the non-empty
      ones among the first messages the server sent, in order; and what the server receives
      are the first of the messages given to `send_msg` that are not too long. As for two
      endpoints, on runs that deliver no stale datagram. */
  lemma ClientEndToEnd(cs: Config, hs: seq<Happening>) returns (run: seq<(Protocol.End, Act)>, n: nat)
    requires cs.Valid() && AllHonest(cs, hs)
    ensures Embeds(cs, RunWorld(cs, hs), Said(hs), run)
    ensures var cc, w := ClientConfig(cs.conv), RunWorld(cs, hs);
      AllRecent(cc, cs, run) ==>
        && n <= |w.server.sent| && Messages(w.client.reports) == NonEmpty(w.server.sent[..n])
        && w.server.got <= Accepted(cc.Mss(), Said(hs))
  {
    hide RunBytes, AllRecent, Messages, NonEmpty, Accepted, RunWorld;
    var cc := ClientConfig(cs.conv);
    run := EveryWorldEmbeds(cs, hs);
    n := 0;
    if AllRecent(cc, cs, run) {
      BytesReceivedIsPrefixOfSent(cc, cs, run);
      var s := RunBytes(cc, cs, run);
      n := |s.a.got|;
      assert s.b.sent[..n] == s.a.got;
    }
  }
}
