/** The client of client_lib/kcp_client.cpp as a state machine: the handshake over text
    packets, then the KCP engine. Sockets and the clock are inputs: each call is given the
    time and what `recv` returned. */
module ClientModel {
  import opened SerialNumbers
  import opened Segments
  import opened RecvSide
  import opened Engine
  import opened Wire
  import opened Handshake

  const RESEND_CONNECT_INTERVAL := 500
  const CONNECT_TIMEOUT := 5000
  const MAX_MSG_SIZE := 10240
  const ERR_ALREADY_CONNECTED := -2001
  const ERR_ADDRESS_INVALID := -2002
  const ERR_CREATE_SOCKET := -2003

  datatype Event =
    | Connected(conv: u32)
    | ConnectFailed
    | Disconnected(conv: u32, detail: Bytes)
    | RcvMsg(conv: u32, msg: Bytes)

  /** A call of the event callback, with the time it was made at. */
  datatype Report = Report(at: nat, event: Event)

  /** The engine behind `p_kcp_`, and the datagrams it has given to `udp_output`. */
  datatype Conn = Conn(cfg: Config, eng: Engine, out: seq<Bytes>)

  /** A datagram sent on the socket during the handshake, with the time it was sent at. */
  datatype Packet = Packet(at: nat, bytes: Bytes)

  /** The client's fields, the reports it has made and the packets of its handshake. */
  datatype Client = Client(inConnect: bool, start: nat, lastSend: nat, succeeded: bool, socket: int,
                           queue: seq<Bytes>, conn: Option<Conn>, reports: seq<Report>, connects: seq<Packet>)

  const INITIAL := Client(false, 0, 0, false, -1, [], None, [], [])

  /** How `init_udp_connect` can end: before there is a socket, or with one. */
  datatype Opening = BadAddress | NoSocket | SetupFailed(fd: nat, code: int) | Opened(fd: nat)

  /** What `recv` returned: EAGAIN, another error, or bytes. */
  datatype Read = Nothing | Error | Data(bytes: Bytes)

  /** Unsigned 64-bit subtraction. */
  function Elapsed(now: nat, since: nat): nat { (now - since) % 0x1_0000_0000_0000_0000 }

  predicate TimedOut(c: Client, now: nat) { Elapsed(now, c.start) > CONNECT_TIMEOUT }

  predicate NeedsConnectPacket(c: Client, now: nat) { Elapsed(now, c.lastSend) > RESEND_CONNECT_INTERVAL }

  /** `ikcp_create` followed by `ikcp_nodelay(p_kcp_, 1, 2, 1, 1)`. */
  function ClientConfig(conv: u32): (cfg: Config)
    ensures cfg.Valid()
  {
    NoDelay(Defaults(conv), 1, 2, 1, 1)
  }

  /** The parameters every client runs with: full-size segments, windows of 32, a flush every
      two milliseconds, no delay, resending after one overtaking acknowledgement, and no
      congestion control. */
  lemma ClientParameters(conv: u32)
    ensures ClientConfig(conv) == Config(conv, 1400, 32, 32, 2, true, 30, 1, true, 10)
  {
  }

  /** `connect_async`: the new state and the return code. */
  function ConnectAsync(c: Client, now: nat, o: Opening): (Client, int) {
    if c.socket != -1 then (c, ERR_ALREADY_CONNECTED)
    else
      match o
      case BadAddress => (c, ERR_ADDRESS_INVALID)
      case NoSocket => (c, ERR_CREATE_SOCKET)
      case SetupFailed(fd, code) => (c.(socket := fd), code)
      case Opened(fd) => (c.(socket := fd, inConnect := true, start := now), 0)
  }

  /** `try_recv_connect_back_packet`. */
  function TryConnectBack(c: Client, now: nat, r: Read): Client {
    if r.Data? && IsSendBack(r.bytes) then
      var cfg := ClientConfig(GrabSendBack(r.bytes));
      c.(conn := Some(Conn(cfg, Create(), [])), inConnect := false, succeeded := true,
         reports := c.reports + [Report(now, Connected(cfg.conv))])
    else c
  }

  /** `do_send_connect_packet`. */
  function SendConnect(c: Client, now: nat): Client {
    c.(lastSend := now, connects := c.connects + [Packet(now, MakeConnect())])
  }

  /** `do_asio_kcp_connect`. */
  function DoConnect(c: Client, now: nat, r: Read): Client {
    if TimedOut(c, now) then c.(inConnect := false, reports := c.reports + [Report(now, ConnectFailed)])
    else TryConnectBack(if NeedsConnectPacket(c, now) then SendConnect(c, now) else c, now, r)
  }

  /** `do_send_msg_in_queue`; refused messages are dropped. */
  function SendAll(cfg: Config, e: Engine, msgs: seq<Bytes>): Engine
    requires cfg.Valid()
    decreases |msgs|
  {
    if msgs == [] then e else SendAll(cfg, Send(cfg, e, msgs[0]).0, msgs[1..])
  }

  /** A successful receive takes segments off the receiving half for good. */
  lemma {:induction false} PromoteKeepsCount(a: Arith, r: Receiver, wnd: nat)
    ensures |Promote(a, r, wnd).buf| + |Promote(a, r, wnd).queue| == |r.buf| + |r.queue|
    decreases |r.buf|
  {
    if r.buf != [] && r.buf[0].sn == r.nxt && |r.queue| < wnd {
      PromoteKeepsCount(a, Receiver(a.Num(r.nxt + 1), r.buf[1..], r.queue + [r.buf[0]]), wnd);
    }
  }

  lemma RecvShrinks(cfg: Config, e: Engine, len: nat)
    ensures var (e', res) := Recv(Wrapped, cfg, e, len);
      res.Message? ==> |e'.rcv.buf| + |e'.rcv.queue| < |e.rcv.buf| + |e.rcv.queue|
  {
    hide Payload, PeekSize;
    PromoteKeepsCount(Wrapped, e.rcv.(queue := e.rcv.queue[MergeCount(e.rcv.queue)..]), cfg.rcvWnd);
  }

  /** The receive loop of `handle_udp_packet`: it ends at the first refusal, and also at the
      first empty message, which it takes without reporting it. */
  function Drain(cfg: Config, e: Engine): (Engine, seq<Bytes>)
    decreases |e.rcv.buf| + |e.rcv.queue|
  {
    RecvShrinks(cfg, e, MAX_MSG_SIZE);
    var (e', res) := Recv(Wrapped, cfg, e, MAX_MSG_SIZE);
    if res.Message? && res.msg != [] then
      var (e'', msgs) := Drain(cfg, e');
      (e'', [res.msg] + msgs)
    else (e', [])
  }

  function MsgReports(now: nat, conv: u32, msgs: seq<Bytes>): (rs: seq<Report>)
    ensures |rs| == |msgs|
    ensures forall i :: 0 <= i < |msgs| ==> rs[i] == Report(now, RcvMsg(conv, msgs[i]))
  {
    seq(|msgs|, i requires 0 <= i < |msgs| => Report(now, RcvMsg(conv, msgs[i])))
  }

  /** `do_recv_udp_packet_in_loop` and `handle_udp_packet`: the engine afterwards and the
      reports made. */
  function DoRecv(cfg: Config, e: Engine, now: nat, r: Read): (Engine, seq<Report>)
    requires cfg.Valid()
  {
    match r
    case Nothing => (e, [])
    case Error => (e, [Report(now, Disconnected(cfg.conv, []))])
    case Data(b) =>
      if b == [] then (e, [])
      else if IsDisconnect(b) then (e, [Report(now, Disconnected(cfg.conv, b))])
      else
        var p := Parse(cfg.conv, b);
        var (e', msgs) := Drain(cfg, Input(Wrapped, cfg, e, p.segs, p.code == 0));
        (e', MsgReports(now, cfg.conv, msgs))
  }

  ghost predicate ConnOk(c: Client) { c.conn.Some? ==> c.conn.value.cfg.Valid() }

  /** `update` once connected. */
  function DoTraffic(c: Client, now: nat, r: Read): Client
    requires c.conn.Some? && c.conn.value.cfg.Valid()
  {
    var Conn(cfg, e, out) := c.conn.value;
    var (e1, rs) := DoRecv(cfg, SendAll(cfg, e, c.queue), now, r);
    var (e2, ds) := Update(Wrapped, cfg, e1, U32(now));
    c.(queue := [], reports := c.reports + rs, conn := Some(Conn(cfg, e2, out + EncodeAll(ds))))
  }

  /** `update`. */
  function Step(c: Client, now: nat, r: Read): Client
    requires c.conn.Some? ==> c.conn.value.cfg.Valid()
  {
    if c.inConnect then DoConnect(c, now, r)
    else if c.succeeded && c.conn.Some? then DoTraffic(c, now, r)
    else c
  }

  // ----- runs ----------------------------------------------------------------------------------------

  datatype Move = DoConnectAsync(now: nat, o: Opening) | DoUpdate(now: nat, r: Read) | DoSendMsg(msg: Bytes)

  function Apply(c: Client, m: Move): Client
    requires c.conn.Some? ==> c.conn.value.cfg.Valid()
  {
    match m
    case DoConnectAsync(now, o) => ConnectAsync(c, now, o).0
    case DoUpdate(now, r) => Step(c, now, r)
    case DoSendMsg(msg) => c.(queue := c.queue + [msg])
  }

  function RunClient(moves: seq<Move>): (c: Client)
    ensures c.conn.Some? ==> c.conn.value.cfg.Valid()
  {
    if moves == [] then INITIAL else Apply(RunClient(moves[..|moves| - 1]), moves[|moves| - 1])
  }

  /** The last time given to the client. */
  function Latest(moves: seq<Move>): nat {
    if moves == [] then 0
    else if moves[|moves| - 1].DoSendMsg? then Latest(moves[..|moves| - 1])
    else moves[|moves| - 1].now
  }

  /** The clock never goes back, and fits 64 bits. */
  ghost predicate ClockOk(moves: seq<Move>) {
    forall i :: 0 <= i < |moves| && !moves[i].DoSendMsg? ==>
      Latest(moves[..i]) <= moves[i].now < 0x1_0000_0000_0000_0000
  }

  /** Connect packets are more than half a second apart, from the start of the attempt to
      its end. */
  ghost predicate Spaced(c: Client) {
    && (forall i :: 0 <= i < |c.connects| ==> c.start <= c.connects[i].at <= c.start + CONNECT_TIMEOUT)
    && (forall i :: 0 <= i < |c.connects| ==> c.connects[i].bytes == MakeConnect())
    && (forall i :: 0 < i < |c.connects| ==> c.connects[i].at - c.connects[i - 1].at > RESEND_CONNECT_INTERVAL)
    && c.lastSend == if c.connects == [] then 0 else c.connects[|c.connects| - 1].at
  }

  ghost predicate Traffic(r: Report) { r.event.RcvMsg? || r.event.Disconnected? }

  /** The three phases of a client after its start, and what it has reported in each. */
  ghost predicate Phase(c: Client) {
    if c.inConnect then !c.succeeded && c.socket != -1 && c.reports == []
    else if c.succeeded then
      && c.socket != -1 && c.reports != [] && c.reports[0].event.Connected?
      && forall i :: 0 < i < |c.reports| ==> Traffic(c.reports[i])
    else
      || (c.reports == [] && c.connects == [])
      || (&& c.socket != -1 && |c.reports| == 1
          && c.reports[0].event.ConnectFailed? && c.reports[0].at - c.start > CONNECT_TIMEOUT)
  }

  ghost predicate ClientOk(c: Client, t: nat) {
    && (c.conn.Some? <==> c.succeeded)
    && ConnOk(c)
    && c.start <= t && c.lastSend <= t && (c.socket == -1 ==> c.connects == [])
    && Spaced(c) && Phase(c)
  }

  lemma ConnectOk(c: Client, t: nat, now: nat, r: Read)
    requires ClientOk(c, t) && c.inConnect && t <= now < 0x1_0000_0000_0000_0000
    ensures ClientOk(DoConnect(c, now, r), now)
  {
    hide IsSendBack, GrabSendBack, Elapsed, Spaced, MakeConnect;
    ElapsedExact(now, c.start);
    ElapsedExact(now, c.lastSend);
    var d := DoConnect(c, now, r);
    if d.connects != c.connects {
      SpacedSend(c, now);
      SpacedSame(SendConnect(c, now), d);
    } else {
      SpacedSame(c, d);
    }
  }

  lemma SpacedSend(c: Client, now: nat)
    requires Spaced(c) && c.start <= now <= c.start + CONNECT_TIMEOUT && now - c.lastSend > RESEND_CONNECT_INTERVAL
    ensures Spaced(SendConnect(c, now))
  {
    hide MakeConnect;
  }

  lemma SpacedSame(c: Client, d: Client)
    requires Spaced(c) && d.start == c.start && d.lastSend == c.lastSend && d.connects == c.connects
    ensures Spaced(d)
  {
  }

  lemma ElapsedExact(now: nat, since: nat)
    requires since <= now < 0x1_0000_0000_0000_0000
    ensures Elapsed(now, since) == now - since
  {
  }

  lemma TrafficOk(c: Client, t: nat, now: nat, r: Read)
    requires ClientOk(c, t) && c.succeeded && t <= now
    ensures ClientOk(DoTraffic(c, now, r), now)
  {
    hide Update, SendAll, Drain, Parse, Input, IsDisconnect, U32, EncodeAll;
  }

  lemma ApplyOk(c: Client, t: nat, m: Move)
    requires ClientOk(c, t) && (!m.DoSendMsg? ==> t <= m.now < 0x1_0000_0000_0000_0000)
    ensures ClientOk(Apply(c, m), if m.DoSendMsg? then t else m.now)
  {
    hide DoConnect, DoTraffic;
    match m
    case DoUpdate(now, r) =>
      if c.inConnect {
        ConnectOk(c, t, now, r);
      } else if c.succeeded {
        TrafficOk(c, t, now, r);
      }
    case _ =>
  }

  lemma {:induction false} EveryRunOk(moves: seq<Move>)
    requires ClockOk(moves)
    ensures ClientOk(RunClient(moves), Latest(moves))
  {
    if moves != [] {
      hide Apply;
      var n := |moves| - 1;
      assert ClockOk(moves[..n]) by {
        forall i | 0 <= i < n && !moves[..n][i].DoSendMsg?
          ensures Latest(moves[..n][..i]) <= moves[..n][i].now < 0x1_0000_0000_0000_0000
        {
          assert moves[..n][..i] == moves[..i];
        }
      }
      EveryRunOk(moves[..n]);
      ApplyOk(RunClient(moves[..n]), Latest(moves[..n]), moves[n]);
    }
  }

  lemma {:induction false} SpacedOut(c: Client, i: nat)
    requires Spaced(c) && i < |c.connects|
    ensures c.connects[i].at >= c.start + 501 * i
  {
    if i > 0 {
      SpacedOut(c, i - 1);
    }
  }

  /** Over every run with a clock that does not go back: at most ten connect packets; the
      outcome of the attempt is reported at most once, before everything else; failure is
      reported only after more than five seconds; messages and disconnections are reported
      only after success; and there is an engine exactly when the attempt has succeeded. */
  lemma ClientRuns(moves: seq<Move>)
    requires ClockOk(moves)
    ensures var c := RunClient(moves);
      && |c.connects| <= 10
      && (c.conn.Some? <==> c.succeeded) && !(c.inConnect && c.succeeded)
      && (forall i :: 0 < i < |c.reports| ==> Traffic(c.reports[i]) && c.reports[0].event.Connected?)
      && (c.reports != [] ==> c.reports[0].event.Connected? || c.reports[0].event.ConnectFailed?)
      && (c.reports != [] && c.reports[0].event.ConnectFailed? ==> c.reports[0].at > c.start + CONNECT_TIMEOUT)
      && (c.reports != [] && c.reports[0].event.Connected? <==> c.succeeded)
  {
    EveryRunOk(moves);
    var c := RunClient(moves);
    if |c.connects| > 10 {
      SpacedOut(c, 10);
    }
  }

  /** The server's answer completes the handshake: the first update that reads it within the
      time limit creates an engine for the conversation number the server chose. */
  lemma AnswerConnects(c: Client, t: nat, now: nat, conv: u32)
    requires ClientOk(c, t) && c.inConnect && t <= now < 0x1_0000_0000_0000_0000 && now - c.start <= CONNECT_TIMEOUT
    ensures var c' := Step(c, now, Data(MakeSendBack(conv)));
      && c'.succeeded && c'.conn == Some(Conn(ClientConfig(conv), Create(), []))
      && c'.reports == [Report(now, Connected(conv))]
  {
    hide IsSendBack, GrabSendBack, MakeSendBack;
    PacketsRoundTrip(conv);
    assert Elapsed(now, c.start) == now - c.start;
  }

  // ----- the connect stage, update by update ------------------------------------------------------------

  /** The time of the last connect packet, or zero, as the client's field has it. */
  function LastPacket(c: Client): nat { if c.connects == [] then 0 else c.connects[|c.connects| - 1].at }

  /** Whether what was read completes the handshake. */
  predicate Answer(r: Read) { r.Data? && IsSendBack(r.bytes) }

  /** Exactly what an update does in the connect stage, over every run with a clock that does
      not go back. After more than five seconds it reports failure and gives up. Until then it
      sends the connect packet if the last one is more than half a second old; and an answer,
      and nothing else, completes the handshake. */
  lemma ConnectStage(moves: seq<Move>, now: nat, r: Read)
    requires ClockOk(moves + [DoUpdate(now, r)]) && RunClient(moves).inConnect
    ensures var c, c' := RunClient(moves), RunClient(moves + [DoUpdate(now, r)]);
      && c.start <= now && c.reports == []
      && (now > c.start + 5000 ==> c' == c.(inConnect := false, reports := [Report(now, ConnectFailed)]))
      && (now <= c.start + 5000 ==>
            && c'.connects == c.connects + (if now > LastPacket(c) + 500 then [Packet(now, MakeConnect())] else [])
            && now <= LastPacket(c') + 500
            && (Answer(r) ==>
                  && !c'.inConnect && c'.succeeded && c'.reports == [Report(now, Connected(GrabSendBack(r.bytes)))]
                  && c'.conn == Some(Conn(ClientConfig(GrabSendBack(r.bytes)), Create(), [])))
            && (!Answer(r) ==> c'.inConnect && c'.reports == [] && c'.conn == None))
  {
    hide IsSendBack, GrabSendBack, Elapsed, MakeConnect, RunClient;
    var all := moves + [DoUpdate(now, r)];
    RunNextMove(moves, DoUpdate(now, r));
    ClockFront(moves, DoUpdate(now, r));
    EveryRunOk(moves);
    var c := RunClient(moves);
    assert c.connects + [] == c.connects;
    ElapsedExact(now, c.start);
    ElapsedExact(now, c.lastSend);
  }

  lemma RunNextMove(moves: seq<Move>, m: Move)
    ensures RunClient(moves + [m]) == Apply(RunClient(moves), m)
  {
    hide Apply;
    assert (moves + [m])[..|moves|] == moves;
  }

  lemma ClockFront(moves: seq<Move>, m: Move)
    requires ClockOk(moves + [m])
    ensures ClockOk(moves) && (!m.DoSendMsg? ==> Latest(moves) <= m.now < 0x1_0000_0000_0000_0000)
  {
    var all := moves + [m];
    assert all[..|moves|] == moves && all[|moves|] == m;
    forall i | 0 <= i < |moves| && !moves[i].DoSendMsg?
      ensures Latest(moves[..i]) <= moves[i].now < 0x1_0000_0000_0000_0000
    {
      assert all[..i] == moves[..i] && all[i] == moves[i];
    }
  }

  /** A move that leaves an attempt begun at `t0` going. */
  predicate Idle(m: Move, t0: nat) { m.DoUpdate? ==> m.now <= t0 + 5000 && !Answer(m.r) }

  /** An attempt lasts five seconds: begun at t0, it is still going after any further moves
      without an answer up to t0 + 5000, whatever else the user does. */
  lemma {:induction false} AttemptLasts(moves: seq<Move>, t0: nat, fd: nat, more: seq<Move>)
    requires RunClient(moves).socket == -1
    requires ClockOk(moves + [DoConnectAsync(t0, Opened(fd))] + more)
    requires forall i :: 0 <= i < |more| ==> Idle(more[i], t0)
    ensures var c := RunClient(moves + [DoConnectAsync(t0, Opened(fd))] + more);
      c.inConnect && c.start == t0 && c.socket == fd && c.reports == []
    decreases |more|
  {
    hide IsSendBack, MakeConnect, RunClient;
    var first := moves + [DoConnectAsync(t0, Opened(fd))];
    if more == [] {
      assert first + more == first;
      RunNextMove(moves, DoConnectAsync(t0, Opened(fd)));
      ClockFront(moves, DoConnectAsync(t0, Opened(fd)));
      EveryRunOk(moves);
    } else {
      var n := |more| - 1;
      var m := more[n];
      assert first + more == (first + more[..n]) + [m];
      ClockFront(first + more[..n], m);
      AttemptLasts(moves, t0, fd, more[..n]);
      RunNextMove(first + more[..n], m);
      if m.DoUpdate? {
        ConnectStage(first + more[..n], m.now, m.r);
        SocketStays(RunClient(first + more[..n]), m.now, m.r);
      }
    }
  }

  lemma SocketStays(c: Client, now: nat, r: Read)
    ensures DoConnect(c, now, r).socket == c.socket && DoConnect(c, now, r).start == c.start
  {
  }

  /** What `connect_async` returns, by number: -2001 with a socket already open; otherwise
      -2002 for a bad address, -2003 without a socket, what the set-up failed with, or 0. */
  lemma ConnectAsyncExactly(c: Client, now: nat, o: Opening)
    ensures var (c', code) := ConnectAsync(c, now, o);
      && (c.socket != -1 ==> code == -2001 && c' == c)
      && (c.socket == -1 && o.BadAddress? ==> code == -2002 && c' == c)
      && (c.socket == -1 && o.NoSocket? ==> code == -2003 && c' == c)
      && (c.socket == -1 && o.SetupFailed? ==> code == o.code && c' == c.(socket := o.fd))
      && (c.socket == -1 && o.Opened? ==> code == 0 && c' == c.(socket := o.fd, inConnect := true, start := now))
  {
  }
}
