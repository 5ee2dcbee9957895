/** The sending half of an endpoint: `snd_queue`, `snd_buf`, `snd_una` and `snd_nxt`. */
module SendSide {
  import opened SerialNumbers
  import opened Segments

  /** A segment in `snd_buf`. The fields `ts`, `wnd` and `una` of the source's record are
      rewritten before each emission and read nowhere else, so they are not kept. */
  datatype SendSeg = SendSeg(sn: int, frag: Frag, resendts: u32, rto: u32, fastack: u32, xmit: u32)

  datatype Sender = Sender(una: int, nxt: int, queue: seq<Frag>, buf: seq<SendSeg>)

  const EMPTY := Sender(0, 0, [], [])

  /** `ikcp_parse_una`: drop segments from the front while they lie before `una`. */
  function DropBefore(a: Arith, buf: seq<SendSeg>, una: int): seq<SendSeg> {
    if buf != [] && a.Diff(una, buf[0].sn) > 0 then DropBefore(a, buf[1..], una) else buf
  }

  /** `ikcp_shrink_buf`. */
  function Shrink(s: Sender): Sender {
    s.(una := if s.buf == [] then s.nxt else s.buf[0].sn)
  }

  /** The loop of `ikcp_parse_ack`: remove segment `sn`, raising `fastack` on every segment
      passed on the way (all of them, when `sn` is no longer there). */
  function Remove(buf: seq<SendSeg>, sn: int): seq<SendSeg> {
    if buf == [] then []
    else if buf[0].sn == sn then buf[1..]
    else [buf[0].(fastack := U32(buf[0].fastack + 1))] + Remove(buf[1..], sn)
  }

  /** `ikcp_parse_una` followed by `ikcp_shrink_buf`. */
  function TakeUna(a: Arith, s: Sender, una: int): Sender {
    Shrink(s.(buf := DropBefore(a, s.buf, una)))
  }

  /** `ikcp_parse_ack` followed by `ikcp_shrink_buf`. */
  function TakeAck(a: Arith, s: Sender, sn: int): Sender {
    if a.Diff(sn, s.una) < 0 || a.Diff(sn, s.nxt) >= 0 then Shrink(s)
    else Shrink(s.(buf := Remove(s.buf, sn)))
  }

  /** `ikcp_send`, for a message that is not refused. */
  function Enqueue(mss: int, s: Sender, msg: Bytes): Sender
    requires mss > 0 && Sendable(mss, msg)
  {
    s.(queue := s.queue + Fragments(mss, msg))
  }

  /** Move the head of `snd_queue` to the end of `snd_buf` under the next number. */
  function AdmitOne(a: Arith, s: Sender, now: u32, rto: u32): Sender
    requires s.queue != []
  {
    s.(nxt := a.Num(s.nxt + 1), queue := s.queue[1..],
       buf := s.buf + [SendSeg(s.nxt, s.queue[0], now, rto, 0, 0)])
  }

  predicate HasRoom(a: Arith, s: Sender, cwnd: nat) {
    a.Diff(s.nxt, a.Num(s.una + cwnd)) < 0
  }

  /** The loop of `ikcp_flush` that moves segments from `snd_queue` to `snd_buf` while the
      window `cwnd` has room. */
  function Admit(a: Arith, s: Sender, cwnd: nat, now: u32, rto: u32): Sender
    decreases |s.queue|
  {
    if s.queue != [] && HasRoom(a, s, cwnd) then Admit(a, AdmitOne(a, s, now, rto), cwnd, now, rto) else s
  }

  /** What one flush knows when it decides about a segment. */
  datatype Tx = Tx(now: u32, rto: u32, nodelay: bool, resent: u32)

  datatype Cause = New | Timeout | FastResend | Wait

  function CauseOf(tx: Tx, s: SendSeg): Cause {
    if s.xmit == 0 then New
    else if TimeDiff(tx.now, s.resendts) >= 0 then Timeout
    else if s.fastack >= tx.resent then FastResend
    else Wait
  }

  /** The segment's bookkeeping after the flush has looked at it. */
  function Transmit(tx: Tx, s: SendSeg): SendSeg {
    match CauseOf(tx, s)
    case New =>
      var rtomin := if tx.nodelay then 0 else tx.rto / 8;
      s.(xmit := 1, rto := tx.rto, resendts := U32(tx.now + tx.rto + rtomin))
    case Timeout =>
      var rto := U32(s.rto + if tx.nodelay then tx.rto / 2 else tx.rto);
      s.(xmit := U32(s.xmit + 1), rto := rto, resendts := U32(tx.now + rto))
    case FastResend =>
      s.(xmit := U32(s.xmit + 1), fastack := 0, resendts := U32(tx.now + s.rto))
    case Wait => s
  }

  function TransmitAll(tx: Tx, buf: seq<SendSeg>): (r: seq<SendSeg>)
    ensures |r| == |buf|
    ensures forall i :: 0 <= i < |buf| ==> r[i] == Transmit(tx, buf[i])
  {
    seq(|buf|, i requires 0 <= i < |buf| => Transmit(tx, buf[i]))
  }

  /** The segments of `buf` that this flush emits, in order. */
  function Due(tx: Tx, buf: seq<SendSeg>): seq<SendSeg> {
    if buf == [] then []
    else
      var n := |buf| - 1;
      Due(tx, buf[..n]) + if CauseOf(tx, buf[n]) == Wait then [] else [buf[n]]
  }

  /** How many segments of `buf` the flush meets in the given condition. */
  function CountCause(tx: Tx, buf: seq<SendSeg>, c: Cause): nat {
    if buf == [] then 0
    else
      var n := |buf| - 1;
      CountCause(tx, buf[..n], c) + if CauseOf(tx, buf[n]) == c then 1 else 0
  }

  /** Whether an emitted segment has reached the dead-link count. */
  function ReachesDeadLink(tx: Tx, buf: seq<SendSeg>, deadLink: u32): bool {
    exists i :: 0 <= i < |buf| && CauseOf(tx, buf[i]) != Wait && Transmit(tx, buf[i]).xmit >= deadLink
  }
}
