/** The KCP control block as a value, and each entry point of util/ikcp.c as a function on
    it. The functions are written once for exact and for 32-bit sequence numbers; clocks
    are 32-bit in both. */
module Engine {
  import opened SerialNumbers
  import opened Segments
  import opened SendSide
  import opened RecvSide
  import Rtt

  const WND_RCV := 32
  const THRESH_INIT := 2
  const THRESH_MIN := 2
  const INTERVAL := 100
  const PROBE_INIT := 7000
  const PROBE_LIMIT := 120000

  /** A pending acknowledgement: an entry of `acklist`. */
  datatype Ack = Ack(sn: int, ts: u32)

  datatype Congestion = Congestion(rmtWnd: u32, cwnd: u32, ssthresh: u32, incr: u32)

  /** `probe` as two flags, `ts_probe` and `probe_wait`. */
  datatype Probe = Probe(ask: bool, tell: bool, ts: u32, wait: u32)

  /** `updated` and `ts_flush`. */
  datatype Pace = Pace(updated: bool, tsFlush: u32)

  datatype Engine = Engine(snd: Sender, rcv: Receiver, acks: seq<Ack>, rtt: Rtt.Rtt, cong: Congestion,
                           probe: Probe, pace: Pace, current: u32, xmit: u32, dead: bool)

  /** `ikcp_create`. */
  function Create(): Engine {
    Engine(SendSide.EMPTY, RecvSide.EMPTY, [], Rtt.Rtt(0, 0, Rtt.RTO_DEF),
           Congestion(WND_RCV, 0, THRESH_INIT, 0), Probe(false, false, 0, 0), Pace(false, INTERVAL), 0, 0, false)
  }

  // ----- ikcp_send, ikcp_recv ------------------------------------------------------------

  /** `ikcp_send`: the new state and the return code. */
  function Send(cfg: Config, e: Engine, msg: Bytes): (Engine, int)
    requires cfg.Valid()
  {
    if Sendable(cfg.Mss(), msg) then (e.(snd := Enqueue(cfg.Mss(), e.snd, msg)), 0) else (e, -2)
  }

  /** `ikcp_recv`: a successful call that finds the queue full and leaves room in it
      schedules a window announcement. */
  function Recv(a: Arith, cfg: Config, e: Engine, len: int): (Engine, RecvResult) {
    var (rcv, res) := Take(a, e.rcv, cfg.rcvWnd, len);
    var tell := res.Message? && |e.rcv.queue| >= cfg.rcvWnd && |rcv.queue| < cfg.rcvWnd;
    (e.(rcv := rcv, probe := e.probe.(tell := e.probe.tell || tell)), res)
  }

  // ----- ikcp_input ----------------------------------------------------------------------

  /** The body of the loop of `ikcp_input` for one decoded segment. */
  function InputSeg(a: Arith, cfg: Config, e: Engine, s: Segment): Engine {
    Dispatch(a, cfg, e.(cong := e.cong.(rmtWnd := s.wnd), snd := TakeUna(a, e.snd, s.una)), s)
  }

  /** The part of the loop body that depends on the command. */
  function Dispatch(a: Arith, cfg: Config, e: Engine, s: Segment): Engine {
    if s.cmd == CMD_ACK then InputAck(a, cfg, e, s)
    else if s.cmd == CMD_PUSH then InputPush(a, cfg, e, s)
    else if s.cmd == CMD_WASK then e.(probe := e.probe.(tell := true))
    else e
  }

  function InputAck(a: Arith, cfg: Config, e: Engine, s: Segment): Engine {
    var sample := TimeDiff(e.current, s.ts);
    e.(rtt := if sample >= 0 then Rtt.Update(e.rtt, cfg.minRto, sample) else e.rtt,
       snd := TakeAck(a, e.snd, s.sn))
  }

  function InputPush(a: Arith, cfg: Config, e: Engine, s: Segment): Engine {
    if a.Diff(s.sn, a.Num(e.rcv.nxt + cfg.rcvWnd)) >= 0 then e
    else
      var e1 := e.(acks := e.acks + [Ack(s.sn, s.ts)]);
      if a.Diff(s.sn, e.rcv.nxt) < 0 then e1
      else e1.(rcv := TakeData(a, e.rcv, cfg.rcvWnd, RecvSeg(s.sn, s.frag)))
  }

  /** All segments of a datagram in order. */
  function InputSegs(a: Arith, cfg: Config, e: Engine, segs: seq<Segment>): Engine {
    if segs == [] then e
    else InputSeg(a, cfg, InputSegs(a, cfg, e, segs[..|segs| - 1]), segs[|segs| - 1])
  }

  /** The byte count after a step of congestion avoidance. */
  function Avoid(mss: int, incr: u32): u32
    requires 0 < mss < TWO32
  {
    var base := if incr < mss then mss else incr;
    U32(base + U32(mss * mss) / base + mss / 16)
  }

  /** The window growth at the end of `ikcp_input`, in unsigned 32-bit arithmetic. */
  function Grow(mss: int, c: Congestion): Congestion
    requires 0 < mss < TWO32
  {
    if c.cwnd >= c.rmtWnd then c
    else
      var c1 :=
        if c.cwnd < c.ssthresh then c.(cwnd := U32(c.cwnd + 1), incr := U32(c.incr + mss))
        else
          var incr := Avoid(mss, c.incr);
          c.(incr := incr, cwnd := if U32(U32(c.cwnd + 1) * mss) >= incr then U32(c.cwnd + 1) else c.cwnd);
      if c1.cwnd > c1.rmtWnd then c1.(cwnd := c1.rmtWnd, incr := U32(c1.rmtWnd * mss)) else c1
  }

  /** `ikcp_input` once the datagram is decoded: `segs` are the segments processed before the
      end or the first malformed one, and `ok` says that there was no malformed one. */
  function Input(a: Arith, cfg: Config, e: Engine, segs: seq<Segment>, ok: bool): Engine
    requires cfg.Valid()
  {
    var e1 := InputSegs(a, cfg, e, segs);
    if ok && a.Diff(e1.snd.una, e.snd.una) > 0 then e1.(cong := Grow(cfg.Mss(), e1.cong)) else e1
  }

  // ----- ikcp_flush ----------------------------------------------------------------------

  /** `ikcp_wnd_unused`, cut to the 16 bits of the header field. */
  function WndUnused(cfg: Config, r: Receiver): u16 {
    if |r.queue| < cfg.rcvWnd then (cfg.rcvWnd - |r.queue|) % TWO16 else 0
  }

  function Control(cfg: Config, r: Receiver, cmd: u8, k: Ack): Segment {
    Segment(cfg.conv, cmd, WndUnused(cfg, r), k.ts, k.sn, r.nxt, Frag(0, []))
  }

  function AckSegs(cfg: Config, r: Receiver, acks: seq<Ack>): (segs: seq<Segment>)
    ensures |segs| == |acks|
    ensures forall i :: 0 <= i < |acks| ==> segs[i] == Control(cfg, r, CMD_ACK, acks[i])
  {
    seq(|acks|, i requires 0 <= i < |acks| => Control(cfg, r, CMD_ACK, acks[i]))
  }

  /** The zero-window probe timer. */
  function ProbeTimer(p: Probe, rmtWnd: u32, now: u32): Probe {
    if rmtWnd != 0 then p.(ts := 0, wait := 0)
    else if p.wait == 0 then p.(wait := PROBE_INIT, ts := U32(now + PROBE_INIT))
    else if TimeDiff(now, p.ts) < 0 then p
    else
      var w := if p.wait < PROBE_INIT then PROBE_INIT else p.wait;
      var w' := U32(w + w / 2);
      var wait := if w' > PROBE_LIMIT then PROBE_LIMIT else w';
      Probe(true, p.tell, U32(now + wait), wait)
  }

  /** Probe segments carry the number and time of the last acknowledgement, because the
      source reuses one header record. */
  function ProbeSegs(cfg: Config, r: Receiver, acks: seq<Ack>, p: Probe): seq<Segment> {
    var last := if acks == [] then Ack(0, 0) else acks[|acks| - 1];
    (if p.ask then [Control(cfg, r, CMD_WASK, last)] else []) +
    (if p.tell then [Control(cfg, r, CMD_WINS, last)] else [])
  }

  function SendWindow(cfg: Config, c: Congestion): (w: nat)
    ensures w <= cfg.sndWnd && w <= c.rmtWnd
  {
    var w := Min(cfg.sndWnd, c.rmtWnd);
    if cfg.noCwnd then w else Min(c.cwnd, w)
  }

  function Resent(cfg: Config): u32 {
    if cfg.fastResend > 0 then cfg.fastResend else TWO32 - 1
  }

  function TxOf(cfg: Config, e: Engine): Tx {
    Tx(e.current, e.rtt.rto, cfg.nodelay, Resent(cfg))
  }

  function Push(cfg: Config, r: Receiver, now: u32, s: SendSeg): Segment {
    Segment(cfg.conv, CMD_PUSH, WndUnused(cfg, r), now, s.sn, r.nxt, s.frag)
  }

  function PushSegs(cfg: Config, r: Receiver, now: u32, due: seq<SendSeg>): (segs: seq<Segment>)
    ensures |segs| == |due|
    ensures forall i :: 0 <= i < |due| ==> segs[i] == Push(cfg, r, now, due[i])
  {
    seq(|due|, i requires 0 <= i < |due| => Push(cfg, r, now, due[i]))
  }

  /** The window reduction at the end of `ikcp_flush`. */
  function Reduce(cfg: Config, c: Congestion, inflight: u32, window: u32, change: bool, lost: bool): Congestion
    requires cfg.Valid()
  {
    var c1 :=
      if !change then c
      else
        var t := if inflight / 2 < THRESH_MIN then THRESH_MIN else inflight / 2;
        var w := U32(t + Resent(cfg));
        c.(ssthresh := t, cwnd := w, incr := U32(w * cfg.Mss()));
    var c2 :=
      if !lost then c1
      else c1.(ssthresh := if window / 2 < THRESH_MIN then THRESH_MIN else window / 2, cwnd := 1, incr := cfg.Mss());
    if c2.cwnd < 1 then c2.(cwnd := 1, incr := cfg.Mss()) else c2
  }

  /** The sending half once new segments have been admitted. */
  function Admitted(a: Arith, cfg: Config, e: Engine): Sender {
    Admit(a, e.snd, SendWindow(cfg, e.cong), e.current, e.rtt.rto)
  }

  /** The segments one flush emits: acknowledgements, probes, then due data. */
  function FlushSegs(a: Arith, cfg: Config, e: Engine): seq<Segment> {
    AckSegs(cfg, e.rcv, e.acks) +
    ProbeSegs(cfg, e.rcv, e.acks, ProbeTimer(e.probe, e.cong.rmtWnd, e.current)) +
    PushSegs(cfg, e.rcv, e.current, Due(TxOf(cfg, e), Admitted(a, cfg, e).buf))
  }

  /** What the data loop of `ikcp_flush` finds out: `xmit` increments, `change` and `lost`
      as counts, the amount in flight, and whether a segment reached the dead-link count. */
  datatype Tally = Tally(inflight: u32, timeouts: nat, fast: nat, dead: bool)

  function TallyOf(tx: Tx, snd: Sender, deadLink: u32): Tally {
    Tally(U32(snd.nxt - snd.una), CountCause(tx, snd.buf, Timeout), CountCause(tx, snd.buf, FastResend),
          ReachesDeadLink(tx, snd.buf, deadLink))
  }

  /** The end of `ikcp_flush`: `snd` is the sending half after the data loop. */
  function Flushed(cfg: Config, e: Engine, snd: Sender, t: Tally): Engine
    requires cfg.Valid()
  {
    e.(snd := snd,
       acks := [],
       probe := ProbeTimer(e.probe, e.cong.rmtWnd, e.current).(ask := false, tell := false),
       cong := Reduce(cfg, e.cong, t.inflight, SendWindow(cfg, e.cong), t.fast > 0, t.timeouts > 0),
       xmit := U32(e.xmit + t.timeouts),
       dead := e.dead || t.dead)
  }

  /** The sending half after the data loop. */
  function Transmitted(tx: Tx, snd: Sender): Sender { snd.(buf := TransmitAll(tx, snd.buf)) }

  /** The state after a flush. */
  function FlushState(a: Arith, cfg: Config, e: Engine): Engine
    requires cfg.Valid()
  {
    var tx := TxOf(cfg, e);
    var snd := Admitted(a, cfg, e);
    Flushed(cfg, e, Transmitted(tx, snd), TallyOf(tx, snd, cfg.deadLink))
  }

  // ----- packing into datagrams ----------------------------------------------------------

  type Datagram = seq<Segment>

  /** Datagrams already handed to the output callback, and the segments in the buffer. */
  datatype Packer = Packer(done: seq<Datagram>, cur: Datagram)

  function SizeOf(d: Datagram): nat {
    if d == [] then 0 else SizeOf(d[..|d| - 1]) + d[|d| - 1].Size()
  }

  /** Hand over the buffer unless it is empty. */
  function Close(p: Packer): seq<Datagram> {
    if p.cur == [] then p.done else p.done + [p.cur]
  }

  /** Append a segment, first handing over the buffer if the segment would not fit. */
  function Put(mtu: nat, p: Packer, s: Segment): Packer {
    if SizeOf(p.cur) + s.Size() > mtu then Packer(Close(p), [s]) else p.(cur := p.cur + [s])
  }

  function PutAll(mtu: nat, p: Packer, segs: seq<Segment>): Packer {
    if segs == [] then p else Put(mtu, PutAll(mtu, p, segs[..|segs| - 1]), segs[|segs| - 1])
  }

  function Pack(mtu: nat, segs: seq<Segment>): seq<Datagram> {
    Close(PutAll(mtu, Packer([], []), segs))
  }

  /** `ikcp_flush`: the new state and the datagrams given to the output callback. */
  function Flush(a: Arith, cfg: Config, e: Engine): (Engine, seq<Datagram>)
    requires cfg.Valid()
  {
    if e.pace.updated then (FlushState(a, cfg, e), Pack(cfg.mtu, FlushSegs(a, cfg, e))) else (e, [])
  }

  // ----- ikcp_update, ikcp_check -----------------------------------------------------------

  /** The timer part of `ikcp_update`: the new timer and whether a flush is due. */
  function Tick(p: Pace, interval: u32, now: u32): (Pace, bool) {
    var ts0 := if p.updated then p.tsFlush else now;
    var slap := TimeDiff(now, ts0);
    var ts1 := if slap >= 10000 || slap < -10000 then now else ts0;
    if TimeDiff(now, ts1) < 0 then (Pace(true, ts1), false)
    else
      var ts2 := U32(ts1 + interval);
      (Pace(true, if TimeDiff(now, ts2) >= 0 then U32(now + interval) else ts2), true)
  }

  /** `ikcp_update`. */
  function Update(a: Arith, cfg: Config, e: Engine, now: u32): (Engine, seq<Datagram>)
    requires cfg.Valid()
  {
    var (pace, due) := Tick(e.pace, cfg.interval, now);
    var e1 := e.(current := now, pace := pace);
    if due then Flush(a, cfg, e1) else (e1, [])
  }

  /** The smallest wait until some segment's deadline, unless a deadline has passed. */
  datatype Delay = Overdue | In(ms: int)

  function PacketWait(buf: seq<SendSeg>, now: u32): Delay {
    if buf == [] then In(0x7fff_ffff)
    else
      var w := PacketWait(buf[..|buf| - 1], now);
      var d := TimeDiff(buf[|buf| - 1].resendts, now);
      if w.Overdue? || d <= 0 then Overdue else In(Min(w.ms, d))
  }

  /** `ikcp_check`. */
  function Check(cfg: Config, e: Engine, now: u32): u32 {
    var d := TimeDiff(now, e.pace.tsFlush);
    if !e.pace.updated || d >= 10000 || d < -10000 || d >= 0 then now
    else
      match PacketWait(e.snd.buf, now)
      case Overdue => now
      case In(ms) =>
        U32(now + Min(Min(ms, TimeDiff(e.pace.tsFlush, now)), cfg.interval))
  }
}
