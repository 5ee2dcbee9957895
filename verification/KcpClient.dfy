/** `kcp_client` as an object: its methods do to the fields, and to the engine object behind
    `p_kcp_`, what the functions of `ClientModel` do to their values. */
module ClientObject {
  import opened SerialNumbers
  import opened Segments
  import opened RecvSide
  import opened Engine
  import EngineSpec = Engine
  import opened Wire
  import opened Handshake
  import opened ClientModel
  import Spec = ClientModel
  import opened KcpObject

  class KcpClient {
    var inConnectStage: bool
    var connectStartTime: nat
    var lastSendConnectMsgTime: nat
    var connectSucceed: bool
    var udpSocket: int
    var sendMsgQueue: seq<Bytes>
    var kcp: Kcp?
    // calls of the event callback, and the packets of the handshake
    var reports: seq<Report>
    var connects: seq<Packet>

    ghost predicate Valid()
      reads this, kcp
    {
      && (kcp != null <==> connectSucceed) && (kcp != null ==> kcp.Valid())
      && !(inConnectStage && connectSucceed) && (inConnectStage || connectSucceed ==> udpSocket != -1)
    }

    ghost function Repr(): set<object?>
      reads this, kcp
    {
      if kcp == null then {this} else {this, kcp, kcp.acklist, kcp.buffer}
    }

    ghost function ConnView(): Option<Conn>
      reads this`kcp, kcp, if kcp == null then {} else {kcp.acklist}
      requires kcp != null ==> kcp.Valid()
    {
      if kcp == null then None else Some(Conn(kcp.cfg, kcp.State(), kcp.output))
    }

    /** The client as a value. */
    ghost function View(): Client
      reads this, kcp, if kcp == null then {} else {kcp.acklist}
      requires Valid()
    {
      Client(inConnectStage, connectStartTime, lastSendConnectMsgTime, connectSucceed, udpSocket, sendMsgQueue,
             ConnView(), reports, connects)
    }

    constructor ()
      ensures Valid() && View() == INITIAL
    {
      inConnectStage, connectStartTime, lastSendConnectMsgTime, connectSucceed := false, 0, 0, false;
      udpSocket, sendMsgQueue, kcp, reports, connects := -1, [], null, [], [];
    }

    /** `send_msg`. */
    method SendMsg(msg: Bytes)
      requires Valid()
      modifies this`sendMsgQueue
      ensures Valid() && View() == Spec.Apply(old(View()), DoSendMsg(msg))
    {
      sendMsgQueue := sendMsgQueue + [msg];
    }

    /** `connect_async`. */
    method ConnectAsync(now: nat, o: Opening) returns (code: int)
      requires Valid()
      modifies this`udpSocket, this`inConnectStage, this`connectStartTime
      ensures Valid() && (View(), code) == Spec.ConnectAsync(old(View()), now, o)
    {
      if udpSocket != -1 { return ERR_ALREADY_CONNECTED; }
      match o
      case BadAddress => return ERR_ADDRESS_INVALID;
      case NoSocket => return ERR_CREATE_SOCKET;
      case SetupFailed(fd, c) => udpSocket := fd; return c;
      case Opened(fd) =>
        udpSocket := fd;
        inConnectStage := true;
        connectStartTime := now;
        code := 0;
    }

    /** `do_asio_kcp_connect` with `do_send_connect_packet`. */
    method DoConnect(now: nat, r: Read)
      requires Valid() && inConnectStage
      modifies this`inConnectStage, this`reports, this`lastSendConnectMsgTime, this`connects, this`kcp,
        this`connectSucceed
      ensures Valid() && View() == Spec.DoConnect(old(View()), now, r)
    {
      hide IsSendBack, GrabSendBack, Elapsed, Kcp.Acks, Kcp.Snd, Kcp.Rcv;
      if Elapsed(now, connectStartTime) > CONNECT_TIMEOUT {
        reports := reports + [Report(now, ConnectFailed)];
        inConnectStage := false;
        return;
      }
      if Elapsed(now, lastSendConnectMsgTime) > RESEND_CONNECT_INTERVAL {
        lastSendConnectMsgTime := now;
        connects := connects + [Packet(now, MakeConnect())];
      }
      if r.Data? && IsSendBack(r.bytes) {
        var conv := GrabSendBack(r.bytes);
        kcp := new Kcp(ClientConfig(conv));
        inConnectStage := false;
        connectSucceed := true;
        reports := reports + [Report(now, Connected(conv))];
      }
    }

    /** `do_send_msg_in_queue`. */
    method SendQueued()
      requires Valid() && kcp != null
      modifies this`sendMsgQueue, kcp
      ensures Valid() && kcp.acklist == old(kcp.acklist) && sendMsgQueue == []
      ensures kcp.State() == SendAll(kcp.cfg, old(kcp.State()), old(sendMsgQueue)) && kcp.output == old(kcp.output)
    {
      var msgs := sendMsgQueue;
      sendMsgQueue := [];
      ghost var all, e := msgs, kcp.State();
      while |msgs| > 0
        modifies kcp
        invariant kcp.Valid() && kcp.acklist == old(kcp.acklist) && kcp.output == old(kcp.output)
        invariant SendAll(kcp.cfg, kcp.State(), msgs) == SendAll(kcp.cfg, e, all)
        decreases |msgs|
      {
        var code := kcp.Send(msgs[0]);
        msgs := msgs[1..];
      }
    }

    /** The receive loop of `handle_udp_packet`. */
    method ReportMessages(now: nat)
      requires Valid() && kcp != null
      modifies this`reports, kcp
      ensures Valid() && kcp.acklist == old(kcp.acklist) && kcp.output == old(kcp.output)
      ensures var (e, msgs) := Drain(kcp.cfg, old(kcp.State()));
        kcp.State() == e && reports == old(reports) + MsgReports(now, kcp.cfg.conv, msgs)
    {
      ghost var e := kcp.State();
      hide Recv, Drain, Kcp.Valid, Kcp.State;
      ghost var msgs: seq<Bytes> := [];
      assert forall rest: seq<Bytes> :: msgs + rest == rest;
      var more := true;
      while more
        modifies this`reports, kcp
        invariant kcp.Valid() && kcp.acklist == old(kcp.acklist) && kcp.output == old(kcp.output)
        invariant reports == old(reports) + MsgReports(now, kcp.cfg.conv, msgs)
        invariant more ==> Drain(kcp.cfg, e) == var (f, rest) := Drain(kcp.cfg, kcp.State()); (f, msgs + rest)
        invariant !more ==> Drain(kcp.cfg, e) == (kcp.State(), msgs)
        invariant |kcp.rcvBuf| == |kcp.State().rcv.buf| && |kcp.rcvQueue| == |kcp.State().rcv.queue|
        decreases more, |kcp.rcvBuf| + |kcp.rcvQueue|
      {
        DrainNext(kcp.cfg, kcp.State());
        RecvShrinks(kcp.cfg, kcp.State(), MAX_MSG_SIZE);
        ghost var rest := Drain(kcp.cfg, Recv(Wrapped, kcp.cfg, kcp.State(), MAX_MSG_SIZE).0).1;
        var msg := ReportNext(now);
        if |msg| > 0 {
          ConcatAssoc(msgs, [msg], rest);
          MsgReportsNext(now, kcp.cfg.conv, msgs, msg);
          ConcatAssoc(old(reports), MsgReports(now, kcp.cfg.conv, msgs), [Report(now, RcvMsg(kcp.cfg.conv, msg))]);
          msgs := msgs + [msg];
        } else {
          assert msgs + [] == msgs;
          more := false;
        }
      }
    }

    /** `recv_udp_package_from_kcp` and the report of what it returned. */
    method ReportNext(now: nat) returns (msg: Bytes)
      requires Valid() && kcp != null
      modifies this`reports, kcp
      ensures Valid() && kcp.acklist == old(kcp.acklist) && kcp.output == old(kcp.output)
      ensures var (e, res) := Recv(Wrapped, kcp.cfg, old(kcp.State()), MAX_MSG_SIZE);
        && kcp.State() == e && msg == (if res.Message? then res.msg else [])
        && |kcp.rcvBuf| == |e.rcv.buf| && |kcp.rcvQueue| == |e.rcv.queue|
      ensures reports == if msg == [] then old(reports) else old(reports) + [Report(now, RcvMsg(kcp.cfg.conv, msg))]
    {
      hide Recv;
      ghost var res := Recv(Wrapped, kcp.cfg, kcp.State(), MAX_MSG_SIZE).1;
      var code;
      code, msg := kcp.Recv(MAX_MSG_SIZE);
      assert res.Again? ==> msg == [];
      assert res.Message? ==> msg == res.msg;
      if |msg| > 0 {
        reports := reports + [Report(now, RcvMsg(kcp.cfg.conv, msg))];
      }
    }

    /** `do_recv_udp_packet_in_loop` and `handle_udp_packet`. */
    method DoRecv(now: nat, r: Read)
      requires Valid() && kcp != null
      modifies this`reports, kcp, kcp.acklist
      ensures Valid() && kcp.output == old(kcp.output) && (kcp.acklist == old(kcp.acklist) || fresh(kcp.acklist))
      ensures var (e, rs) := Spec.DoRecv(kcp.cfg, old(kcp.State()), now, r);
        kcp.State() == e && reports == old(reports) + rs
    {
      hide Drain, IsDisconnect, Parse, Input;
      match r
      case Nothing => assert reports + [] == reports;
      case Error => reports := reports + [Report(now, Disconnected(kcp.cfg.conv, []))];
      case Data(b) =>
        if |b| == 0 {
          assert reports + [] == reports;
        } else if IsDisconnect(b) {
          reports := reports + [Report(now, Disconnected(kcp.cfg.conv, b))];
        } else {
          var code := kcp.Input(b);
          ReportMessages(now);
        }
    }

    /** `update`. */
    method Update(now: nat, r: Read)
      requires Valid()
      modifies Repr()
      ensures Valid() && View() == Spec.Step(old(View()), now, r)
    {
      if inConnectStage {
        DoConnect(now, r);
      } else if connectSucceed {
        DoTraffic(now, r);
      }
    }

    /** `update` once connected. */
    method DoTraffic(now: nat, r: Read)
      requires Valid() && kcp != null
      modifies this`sendMsgQueue, this`reports, kcp, kcp.acklist, kcp.buffer
      ensures Valid() && View() == Spec.DoTraffic(old(View()), now, r)
    {
      hide Spec.DoRecv, SendAll, EngineSpec.Update, EncodeAll, U32;
      SendQueued();
      DoRecv(now, r);
      kcp.Update(U32(now));
    }
  }

  lemma MsgReportsNext(now: nat, conv: u32, msgs: seq<Bytes>, msg: Bytes)
    ensures MsgReports(now, conv, msgs + [msg]) == MsgReports(now, conv, msgs) + [Report(now, RcvMsg(conv, msg))]
  {
  }

  lemma DrainNext(cfg: Config, e: Engine)
    ensures var (e', res) := Recv(Wrapped, cfg, e, MAX_MSG_SIZE);
      Drain(cfg, e) ==
        if res.Message? && res.msg != [] then var (f, msgs) := Drain(cfg, e'); (f, [res.msg] + msgs) else (e', [])
  {
    hide Recv;
  }
}
