/** The control block `IKCPCB` as an object updated in place. Each method is a function of
    util/ikcp.c with its loops, proved to do to the object what the function of the same
    step in `Engine` does, with wrapped arithmetic, to the value `State()`. */
module KcpObject {
  import opened SerialNumbers
  import opened Segments
  import opened SendSide
  import opened RecvSide
  import opened Engine
  import Spec = Engine
  import opened Wire
  import opened Shape
  import Rtt

  class Kcp {
    const cfg: Config
    // sequence numbers and queues, with their counters
    var sndUna: u32
    var sndNxt: u32
    var rcvNxt: u32
    var sndQueue: seq<Frag>
    var sndBuf: seq<SendSeg>
    var rcvBuf: seq<RecvSeg>
    var rcvQueue: seq<RecvSeg>
    var nsndQue: nat
    var nsndBuf: nat
    var nrcvBuf: nat
    var nrcvQue: nat
    // pending acknowledgements: pairs of number and time, in a block that doubles when full
    var acklist: array<u32>
    var ackcount: nat
    var ackblock: nat
    // estimator, windows, probing, timers
    var rxSrtt: int
    var rxRttval: int
    var rxRto: u32
    var rmtWnd: u32
    var cwnd: u32
    var ssthresh: u32
    var incr: u32
    var probeAsk: bool
    var probeTell: bool
    var tsProbe: u32
    var probeWait: u32
    var current: u32
    var tsFlush: u32
    var updated: bool
    var xmit: u32
    var dead: bool
    // the buffer datagrams are built in, and what was handed to the output callback
    const buffer: array<u8>
    var output: seq<Bytes>

    /** Counters agree with the queues. */
    ghost predicate CountersOk()
      reads this`sndQueue, this`sndBuf, this`rcvBuf, this`rcvQueue
      reads this`nsndQue, this`nsndBuf, this`nrcvBuf, this`nrcvQue
    {
      nsndQue == |sndQueue| && nsndBuf == |sndBuf| && nrcvBuf == |rcvBuf| && nrcvQue == |rcvQueue|
    }

    /** Segments to be sent are no larger than the MSS, and their numbers have 32 bits. */
    ghost predicate SegsOk()
      reads this`sndQueue, this`sndBuf
    {
      && (forall f :: f in sndQueue ==> |f.data| <= cfg.Mss())
      && (forall s :: s in sndBuf ==> |s.frag.data| <= cfg.Mss() && 0 <= s.sn < TWO32)
    }

    ghost predicate BlocksOk()
      reads this`acklist, this`ackcount, this`ackblock
    {
      && acklist.Length == 2 * ackblock && ackcount <= ackblock
      && buffer.Length == (cfg.mtu + OVERHEAD) * 3
    }

    ghost predicate Valid()
      reads this
    {
      cfg.Valid() && CountersOk() && SegsOk() && BlocksOk()
    }

    ghost function Acks(): seq<Ack>
      reads this`acklist, this`ackcount, this`ackblock, acklist
      requires BlocksOk()
    {
      AckPairs(acklist[..], ackcount)
    }

    ghost function Snd(): Sender
      reads this`sndUna, this`sndNxt, this`sndQueue, this`sndBuf
    {
      Sender(sndUna, sndNxt, sndQueue, sndBuf)
    }

    ghost function Rcv(): Receiver reads this`rcvNxt, this`rcvBuf, this`rcvQueue { Receiver(rcvNxt, rcvBuf, rcvQueue) }

    ghost function Cong(): Congestion
      reads this`rmtWnd, this`cwnd, this`ssthresh, this`incr
    {
      Congestion(rmtWnd, cwnd, ssthresh, incr)
    }

    ghost function Prb(): Probe
      reads this`probeAsk, this`probeTell, this`tsProbe, this`probeWait
    {
      Probe(probeAsk, probeTell, tsProbe, probeWait)
    }

    ghost function Est(): Rtt.Rtt reads this`rxSrtt, this`rxRttval, this`rxRto { Rtt.Rtt(rxSrtt, rxRttval, rxRto) }

    /** The control block as a value. */
    ghost function State(): Engine
      reads this, acklist
      requires Valid()
    {
      Engine(Snd(), Rcv(), Acks(), Est(), Cong(), Prb(), Pace(updated, tsFlush), current, xmit, dead)
    }

    /** `ikcp_create`. */
    constructor (c: Config)
      requires c.Valid()
      ensures Valid() && cfg == c && State() == Create() && output == []
      ensures fresh(acklist) && fresh(buffer)
    {
      cfg := c;
      sndUna, sndNxt, rcvNxt := 0, 0, 0;
      sndQueue, sndBuf, rcvBuf, rcvQueue := [], [], [], [];
      nsndQue, nsndBuf, nrcvBuf, nrcvQue := 0, 0, 0, 0;
      acklist := new u32[0];
      ackcount, ackblock := 0, 0;
      rxSrtt, rxRttval, rxRto := 0, 0, Rtt.RTO_DEF;
      rmtWnd, cwnd, ssthresh, incr := WND_RCV, 0, THRESH_INIT, 0;
      probeAsk, probeTell, tsProbe, probeWait := false, false, 0, 0;
      current, tsFlush, updated, xmit, dead := 0, INTERVAL, false, 0, false;
      buffer := new u8[(c.mtu + OVERHEAD) * 3];
      output := [];
    }

    // ----- user calls --------------------------------------------------------------------------------

    /** `ikcp_send`. */
    method Send(msg: Bytes) returns (code: int)
      requires Valid()
      modifies this`sndQueue, this`nsndQue
      ensures Valid() && (State(), code) == Spec.Send(cfg, old(State()), msg)
    {
      hide Split, Acks;
      var mss := cfg.Mss();
      var count := if |msg| <= mss then 1 else (|msg| + mss - 1) / mss;
      assert count == FragCount(mss, |msg|);
      if count > 255 { return -2; }
      hide FragCount;
      ghost var q := sndQueue;
      var i, rest := 0, msg;
      while i < count
        invariant 0 <= i <= count && Valid()
        invariant sndQueue + Split(mss, rest, count - i) == q + Split(mss, msg, count)
      {
        var size := if |rest| > mss then mss else |rest|;
        ghost var before := sndQueue;
        var frag := Frag(count - i - 1, rest[..size]);
        SplitNext(mss, rest, count - i);
        sndQueue := sndQueue + [frag];
        nsndQue := nsndQue + 1;
        ConcatAssoc(before, [frag], Split(mss, rest[size..], count - i - 1));
        rest := rest[size..];
        i := i + 1;
      }
      assert sndQueue + Split(mss, rest, 0) == sndQueue;
      code := 0;
    }

    /** `ikcp_peeksize`. */
    method PeekSize() returns (size: int)
      requires Valid()
      ensures size == RecvSide.PeekSize(rcvQueue)
    {
      if |rcvQueue| == 0 { return -1; }
      if rcvQueue[0].frag.frg == 0 { return |rcvQueue[0].frag.data|; }
      if nrcvQue < rcvQueue[0].frag.frg + 1 { return -1; }
      size := 0;
      var i := 0;
      while i < |rcvQueue|
        invariant 0 <= i <= |rcvQueue|
        invariant MergeCount(rcvQueue) == i + MergeCount(rcvQueue[i..])
        invariant size == |Payload(rcvQueue[..i])|
      {
        PayloadNext(rcvQueue, i);
        size := size + |rcvQueue[i].frag.data|;
        i := i + 1;
        if rcvQueue[i - 1].frag.frg == 0 { break; }
        assert rcvQueue[i - 1..][1..] == rcvQueue[i..];
      }
      assert i == MergeCount(rcvQueue);
    }

    /** The loop that `ikcp_recv` and `ikcp_parse_data` share: move what is next in order from
        `rcv_buf` to `rcv_queue` while there is room. */
    method MoveToQueue()
      requires Valid()
      modifies this`rcvNxt, this`rcvBuf, this`nrcvBuf, this`rcvQueue, this`nrcvQue
      ensures Valid() && Rcv() == Promote(Wrapped, old(Rcv()), cfg.rcvWnd)
    {
      while |rcvBuf| > 0
        invariant Valid()
        invariant Promote(Wrapped, Rcv(), cfg.rcvWnd) == Promote(Wrapped, old(Rcv()), cfg.rcvWnd)
        decreases |rcvBuf|
      {
        var seg := rcvBuf[0];
        if seg.sn == rcvNxt && nrcvQue < cfg.rcvWnd {
          rcvBuf := rcvBuf[1..];
          nrcvBuf := nrcvBuf - 1;
          rcvQueue := rcvQueue + [seg];
          nrcvQue := nrcvQue + 1;
          rcvNxt := U32(rcvNxt + 1);
        } else {
          break;
        }
      }
    }

    /** `ikcp_recv`: `msg` is what was copied to the caller's buffer, of `len` bytes; a negative
        `len` asks for a peek into a buffer of `-len`. */
    method Recv(len: int) returns (code: int, msg: Bytes)
      requires Valid()
      modifies this`rcvNxt, this`rcvBuf, this`nrcvBuf, this`rcvQueue, this`nrcvQue, this`probeTell
      ensures Valid()
      ensures var (e, res) := Spec.Recv(Wrapped, cfg, old(State()), len);
        && State() == e
        && (res.Again? ==> code == res.code && msg == [])
        && (res.Message? ==> code == |msg| && msg == res.msg && code <= if len < 0 then -len else len)
    {
      hide Take, Acks, Snd, Est, Cong, SegsOk, BlocksOk;
      var recover := nrcvQue >= cfg.rcvWnd;
      code, msg := TakeMessage(len);
      if code >= 0 && nrcvQue < cfg.rcvWnd && recover {
        probeTell := true;
      }
    }

    /** `ikcp_recv` up to the window announcement. */
    method TakeMessage(len: int) returns (code: int, msg: Bytes)
      requires Valid()
      modifies this`rcvNxt, this`rcvBuf, this`nrcvBuf, this`rcvQueue, this`nrcvQue
      ensures Valid()
      ensures var (r, res) := Take(Wrapped, old(Rcv()), cfg.rcvWnd, len);
        && Rcv() == r
        && (res.Again? ==> code == res.code < 0 && msg == [])
        && (res.Message? ==> code == |msg| && msg == res.msg && code <= if len < 0 then -len else len)
    {
      hide Promote, Payload, RecvSide.PeekSize, MergeCount;
      var ispeek := len < 0;
      var room := if len < 0 then -len else len;
      msg := [];
      if |rcvQueue| == 0 { return -1, []; }
      var peeksize := PeekSize();
      if peeksize < 0 { return -2, []; }
      if peeksize > room { return -3, []; }
      PeekSizeIsPayload(rcvQueue);
      msg := Merge(ispeek);
      assert |msg| == peeksize;
      MoveToQueue();
      code := |msg|;
    }

    /** The merge loop of `ikcp_recv`, which deletes as it walks unless it is peeking. */
    method Merge(ispeek: bool) returns (msg: Bytes)
      requires Valid() && rcvQueue != []
      modifies this`rcvQueue, this`nrcvQue
      ensures Valid()
      ensures var n := MergeCount(old(rcvQueue));
        msg == Payload(old(rcvQueue)[..n]) && rcvQueue == if ispeek then old(rcvQueue) else old(rcvQueue)[n..]
    {
      ghost var q := rcvQueue;
      ghost var n := 0;
      msg := [];
      var p := 0;
      while p < |rcvQueue|
        invariant Valid() && 0 <= n <= |q|
        invariant rcvQueue == (if ispeek then q else q[n..]) && p == if ispeek then n else 0
        invariant MergeCount(q) == n + MergeCount(q[n..])
        invariant msg == Payload(q[..n])
        decreases |q| - n
      {
        var seg := rcvQueue[p];
        assert seg == q[n];
        PayloadNext(q, n);
        msg := msg + seg.frag.data;
        if ispeek {
          p := p + 1;
        } else {
          rcvQueue := rcvQueue[..p] + rcvQueue[p + 1..];
          nrcvQue := nrcvQue - 1;
        }
        assert q[n..][1..] == q[n + 1..];
        n := n + 1;
        if seg.frag.frg == 0 { break; }
      }
      assert n == MergeCount(q);
    }

    // ----- acknowledgements coming in --------------------------------------------------------------

    /** `ikcp_shrink_buf`. */
    method ShrinkBuf()
      requires Valid()
      modifies this`sndUna
      ensures Valid() && Snd() == Shrink(old(Snd()))
    {
      if |sndBuf| > 0 {
        assert sndBuf[0] in sndBuf;
        sndUna := sndBuf[0].sn;
      } else {
        sndUna := sndNxt;
      }
    }

    /** `ikcp_parse_una`: delete from the front while traversing. */
    method ParseUna(una: u32)
      requires Valid()
      modifies this`sndBuf, this`nsndBuf
      ensures Valid() && sndBuf == DropBefore(Wrapped, old(sndBuf), una)
    {
      while |sndBuf| > 0
        invariant Valid()
        invariant DropBefore(Wrapped, sndBuf, una) == DropBefore(Wrapped, old(sndBuf), una)
        decreases |sndBuf|
      {
        if TimeDiff(una, sndBuf[0].sn) > 0 {
          sndBuf := sndBuf[1..];
          nsndBuf := nsndBuf - 1;
        } else {
          break;
        }
      }
    }

    /** `ikcp_parse_ack`: raise `fastack` on the way to the segment and delete it. */
    method ParseAck(sn: u32)
      requires Valid()
      modifies this`sndBuf, this`nsndBuf
      ensures Valid()
      ensures sndBuf ==
        if TimeDiff(sn, sndUna) < 0 || TimeDiff(sn, sndNxt) >= 0 then old(sndBuf) else Remove(old(sndBuf), sn)
    {
      if TimeDiff(sn, sndUna) < 0 || TimeDiff(sn, sndNxt) >= 0 { return; }
      RemoveLoop(sn);
    }

    method RemoveLoop(sn: u32)
      requires Valid()
      modifies this`sndBuf, this`nsndBuf
      ensures Valid() && sndBuf == Remove(old(sndBuf), sn)
    {
      hide Remove, U32;
      ghost var b := sndBuf;
      var i := 0;
      while i < |sndBuf|
        invariant Valid() && 0 <= i <= |sndBuf| == |b|
        invariant sndBuf[i..] == b[i..]
        invariant Remove(b, sn) == sndBuf[..i] + Remove(b[i..], sn)
      {
        var seg := sndBuf[i];
        assert seg in sndBuf && seg == sndBuf[i..][0] == b[i];
        RemoveNext(b, i, sn);
        if sn == seg.sn {
          assert sndBuf[i + 1..] == sndBuf[i..][1..] == b[i + 1..];
          sndBuf := sndBuf[..i] + sndBuf[i + 1..];
          nsndBuf := nsndBuf - 1;
          return;
        }
        var raised := seg.(fastack := U32(seg.fastack + 1));
        RaiseAt(sndBuf, b, i, raised, Remove(b[i + 1..], sn));
        sndBuf := sndBuf[i := raised];
        i := i + 1;
      }
      assert b[i..] == [] && sndBuf[..i] == sndBuf;
      RemoveNone(sn);
      assert sndBuf + [] == sndBuf;
    }

    /** `ikcp_update_ack`. */
    method UpdateAck(rtt: int)
      modifies this`rxSrtt, this`rxRttval, this`rxRto
      ensures Est() == Rtt.Update(old(Est()), cfg.minRto, rtt)
    {
      if rxSrtt == 0 {
        rxSrtt := rtt;
        rxRttval := Rtt.TruncDiv(rtt, 2);
      } else {
        var delta := rtt - rxSrtt;
        if delta < 0 { delta := -delta; }
        rxRttval := I32(Rtt.TruncDiv(I32(3 * rxRttval) + delta, 4));
        rxSrtt := Rtt.TruncDiv(I32(7 * rxSrtt + rtt), 8);
        if rxSrtt < 1 { rxSrtt := 1; }
      }
      var rto := U32(rxSrtt + Max(1, U32(4 * rxRttval)));
      rxRto := Rtt.Bound(cfg.minRto, rto, Rtt.RTO_MAX);
    }

    // ----- data coming in ------------------------------------------------------------------------------

    /** `ikcp_ack_push`: append a pair, moving to a block of at least twice the size when the
        current one is full. */
    method AckPush(sn: u32, ts: u32)
      requires Valid()
      modifies this`acklist, this`ackcount, this`ackblock, acklist
      ensures Valid() && Acks() == old(Acks()) + [Ack(sn, ts)]
      ensures acklist == old(acklist) || fresh(acklist)
    {
      ghost var pairs := Acks();
      if ackcount + 1 > ackblock { GrowBlock(); }
      acklist[ackcount * 2] := sn;
      acklist[ackcount * 2 + 1] := ts;
      ackcount := ackcount + 1;
      assert Acks()[..ackcount - 1] == pairs;
      assert Acks() == pairs + [Ack(sn, ts)];
    }

    /** The reallocation of `ikcp_ack_push`; it neither loses nor reorders a pair. */
    method GrowBlock()
      requires Valid()
      modifies this`acklist, this`ackblock
      ensures Valid() && Acks() == old(Acks()) && ackcount < ackblock && fresh(acklist)
    {
      var newblock := 8;
      while newblock < ackcount + 1
        invariant newblock > 0
        decreases ackcount + 1 - newblock
      {
        newblock := newblock * 2;
      }
      var block := new u32[newblock * 2];
      for x := 0 to ackcount
        modifies block
        invariant forall j :: 0 <= j < 2 * x ==> block[j] == acklist[j]
      {
        block[x * 2] := acklist[x * 2];
        block[x * 2 + 1] := acklist[x * 2 + 1];
      }
      acklist := block;
      ackblock := newblock;
    }

    /** `ikcp_parse_data`: scan back to the segment's place, insert unless it is there already,
        and move what has become next in order. */
    method ParseData(seg: RecvSeg)
      requires Valid()
      modifies this`rcvNxt, this`rcvBuf, this`nrcvBuf, this`rcvQueue, this`nrcvQue
      ensures Valid() && Rcv() == TakeData(Wrapped, old(Rcv()), cfg.rcvWnd, seg)
    {
      hide Promote, ScanStop, TimeDiff, U32, SegsOk, BlocksOk;
      var sn := seg.sn;
      if TimeDiff(sn, U32(rcvNxt + cfg.rcvWnd)) >= 0 || TimeDiff(sn, rcvNxt) < 0 { return; }
      var p, repeat := ScanBack(sn);
      if !repeat {
        rcvBuf := rcvBuf[..p + 1] + [seg] + rcvBuf[p + 1..];
        nrcvBuf := nrcvBuf + 1;
      }
      MoveToQueue();
    }

    /** The backward scan: `p` is where it stops, -1 standing for the list head. */
    method ScanBack(sn: int) returns (p: int, repeat: bool)
      ensures p == ScanStop(Wrapped, rcvBuf, sn)
      ensures repeat <==> p >= 0 && rcvBuf[p].sn == sn
    {
      hide TimeDiff;
      p, repeat := |rcvBuf| - 1, false;
      assert rcvBuf[..p + 1] == rcvBuf;
      while p >= 0
        invariant -1 <= p < |rcvBuf| && !repeat
        invariant ScanStop(Wrapped, rcvBuf, sn) == ScanStop(Wrapped, rcvBuf[..p + 1], sn)
      {
        assert rcvBuf[..p + 1][..p] == rcvBuf[..p] && rcvBuf[..p + 1][p] == rcvBuf[p];
        if rcvBuf[p].sn == sn {
          repeat := true;
          break;
        }
        if TimeDiff(sn, rcvBuf[p].sn) > 0 { break; }
        p := p - 1;
      }
    }

    // ----- ikcp_input ------------------------------------------------------------------------------------

    /** What `ikcp_input` does with an acknowledgement. */
    method InputAck(s: Segment)
      requires Valid() && 0 <= s.sn < TWO32
      modifies this`sndUna, this`sndBuf, this`nsndBuf, this`rxSrtt, this`rxRttval, this`rxRto
      ensures Valid() && State() == Spec.InputAck(Wrapped, cfg, old(State()), s)
    {
      hide Acks, Snd, Est, Cong, Prb, Rcv, CountersOk, SegsOk, BlocksOk, Rtt.Update, TimeDiff, TakeAck;
      if TimeDiff(current, s.ts) >= 0 {
        UpdateAck(TimeDiff(current, s.ts));
      }
      Acknowledge(s.sn);
    }

    /** `ikcp_parse_ack` and `ikcp_shrink_buf`. */
    method Acknowledge(sn: u32)
      requires Valid()
      modifies this`sndUna, this`sndBuf, this`nsndBuf
      ensures Valid() && Snd() == TakeAck(Wrapped, old(Snd()), sn)
    {
      hide Remove, TimeDiff;
      ParseAck(sn);
      ShrinkBuf();
    }

    /** `ikcp_parse_una` and `ikcp_shrink_buf`. */
    method AcknowledgeUpTo(una: u32)
      requires Valid()
      modifies this`sndUna, this`sndBuf, this`nsndBuf
      ensures Valid() && Snd() == TakeUna(Wrapped, old(Snd()), una)
    {
      hide DropBefore;
      ParseUna(una);
      ShrinkBuf();
    }

    /** What `ikcp_input` does with data. */
    method InputPush(s: Segment)
      requires Valid() && 0 <= s.sn < TWO32
      modifies this`acklist, this`ackcount, this`ackblock, acklist
      modifies this`rcvNxt, this`rcvBuf, this`nrcvBuf, this`rcvQueue, this`nrcvQue
      ensures Valid() && State() == Spec.InputPush(Wrapped, cfg, old(State()), s)
      ensures acklist == old(acklist) || fresh(acklist)
    {
      hide Acks, Snd, Est, Cong, Prb, CountersOk, SegsOk, BlocksOk, TakeData, TimeDiff;
      if TimeDiff(s.sn, U32(rcvNxt + cfg.rcvWnd)) < 0 {
        AckPush(s.sn, s.ts);
        if TimeDiff(s.sn, rcvNxt) >= 0 {
          ParseData(RecvSeg(s.sn, s.frag));
        }
      }
    }

    /** The body of the loop of `ikcp_input` once a segment is decoded. */
    method InputSeg(s: Segment)
      requires Valid() && 0 <= s.sn < TWO32 && 0 <= s.una < TWO32
      modifies this`rmtWnd, this`probeTell
      modifies this`sndUna, this`sndBuf, this`nsndBuf, this`rxSrtt, this`rxRttval, this`rxRto
      modifies this`acklist, this`ackcount, this`ackblock, acklist
      modifies this`rcvNxt, this`rcvBuf, this`nrcvBuf, this`rcvQueue, this`nrcvQue
      ensures Valid() && State() == Spec.InputSeg(Wrapped, cfg, old(State()), s)
      ensures acklist == old(acklist) || fresh(acklist)
    {
      hide Acks, Snd, Est, Rcv, Prb, CountersOk, SegsOk, BlocksOk, TakeUna, Dispatch;
      assert cfg.Valid();
      rmtWnd := s.wnd;
      AcknowledgeUpTo(s.una);
      Handle(s);
    }

    /** The part of the loop body that depends on the command. */
    method Handle(s: Segment)
      requires Valid() && 0 <= s.sn < TWO32
      modifies this`probeTell
      modifies this`sndUna, this`sndBuf, this`nsndBuf, this`rxSrtt, this`rxRttval, this`rxRto
      modifies this`acklist, this`ackcount, this`ackblock, acklist
      modifies this`rcvNxt, this`rcvBuf, this`nrcvBuf, this`rcvQueue, this`nrcvQue
      ensures Valid() && State() == Dispatch(Wrapped, cfg, old(State()), s)
      ensures acklist == old(acklist) || fresh(acklist)
    {
      hide Acks, Snd, Est, Rcv, Cong, CountersOk, SegsOk, BlocksOk, Spec.InputAck, Spec.InputPush;
      if s.cmd == CMD_ACK {
        InputAck(s);
      } else if s.cmd == CMD_PUSH {
        InputPush(s);
      } else if s.cmd == CMD_WASK {
        probeTell := true;
      }
    }

    /** The window growth at the end of `ikcp_input`. */
    method GrowWindow()
      requires Valid()
      modifies this`cwnd, this`incr
      ensures Valid() && Cong() == Grow(cfg.Mss(), old(Cong()))
    {
      hide U32;
      if cwnd < rmtWnd {
        var mss := cfg.Mss();
        if cwnd < ssthresh {
          cwnd := U32(cwnd + 1);
          incr := U32(incr + mss);
        } else {
          if incr < mss { incr := mss; }
          incr := U32(incr + U32(mss * mss) / incr + mss / 16);
          if U32(U32(cwnd + 1) * mss) >= incr {
            cwnd := U32(cwnd + 1);
          }
        }
        if cwnd > rmtWnd {
          cwnd := rmtWnd;
          incr := U32(rmtWnd * mss);
        }
      }
    }

    /** `ikcp_input` on arbitrary bytes: it reads no byte past the end, and its effect is that
        of the segments the parser finds. */
    method Input(data: Bytes) returns (code: int)
      requires Valid()
      modifies this`rmtWnd, this`probeTell, this`cwnd, this`incr
      modifies this`sndUna, this`sndBuf, this`nsndBuf, this`rxSrtt, this`rxRttval, this`rxRto
      modifies this`acklist, this`ackcount, this`ackblock, acklist
      modifies this`rcvNxt, this`rcvBuf, this`nrcvBuf, this`rcvQueue, this`nrcvQue
      ensures Valid()
      ensures var p := Parse(cfg.conv, data);
        code == p.code && State() == Spec.Input(Wrapped, cfg, old(State()), p.segs, p.code == 0)
      ensures acklist == old(acklist) || fresh(acklist)
    {
      hide Grow, Acks, Parse, InputSegs, TimeDiff;
      var una := sndUna;
      code := InputLoop(data);
      if code == 0 && TimeDiff(sndUna, una) > 0 {
        GrowWindow();
      }
    }

    /** The loop of `ikcp_input`. */
    method InputLoop(data: Bytes) returns (code: int)
      requires Valid()
      modifies this`rmtWnd, this`probeTell
      modifies this`sndUna, this`sndBuf, this`nsndBuf, this`rxSrtt, this`rxRttval, this`rxRto
      modifies this`acklist, this`ackcount, this`ackblock, acklist
      modifies this`rcvNxt, this`rcvBuf, this`nrcvBuf, this`rcvQueue, this`nrcvQue
      ensures Valid()
      ensures var p := Parse(cfg.conv, data);
        code == p.code && State() == InputSegs(Wrapped, cfg, old(State()), p.segs)
      ensures acklist == old(acklist) || fresh(acklist)
    {
      hide Spec.InputSeg, Acks, Parse, InputSegs, ParseHead;
      ghost var e := State();
      var pos := 0;
      ghost var done: seq<Segment> := [];
      assert data[0..] == data;
      InputNone(cfg, e);
      while true
        invariant 0 <= pos <= |data| && Valid()
        invariant acklist == old(acklist) || fresh(acklist)
        invariant Parse(cfg.conv, data) == var p := Parse(cfg.conv, data[pos..]); Parsed(done + p.segs, p.code)
        invariant State() == InputSegs(Wrapped, cfg, e, done)
        decreases |data| - pos
      {
        var head, next := DecodeAt(data, pos);
        ParseNext(cfg.conv, data[pos..]);
        if head.Stop? {
          assert done + [] == done;
          return head.code;
        }
        var s := head.seg;
        InputSeg(s);
        InputNext(cfg, e, done, s);
        ConcatAssoc(done, [s], Parse(cfg.conv, data[next..]).segs);
        done := done + [s];
        pos := next;
      }
    }

    /** The decoding and the checks at the start of the loop body, reading in place. */
    method DecodeAt(data: Bytes, pos: nat) returns (head: Head, next: nat)
      requires pos <= |data|
      ensures head == ParseHead(cfg.conv, data[pos..])
      ensures head.Seg? ==> pos < next <= |data| && head.rest == data[next..]
      ensures head.Seg? ==> 0 <= head.seg.sn < TWO32 && 0 <= head.seg.una < TWO32
    {
      next := pos;
      if |data| - pos < OVERHEAD { return Stop(0), next; }
      DecodeShift(data, pos);
      var conv := Decode32(data, pos);
      if conv != cfg.conv { return Stop(-1), next; }
      var cmd, frg, wnd := data[pos + 4], data[pos + 5], Decode16(data, pos + 6);
      var ts, sn := Decode32(data, pos + 8), Decode32(data, pos + 12);
      var una, len := Decode32(data, pos + 16), Decode32(data, pos + 20);
      if |data| - pos - OVERHEAD < len { return Stop(-2), next; }
      if cmd != CMD_PUSH && cmd != CMD_ACK && cmd != CMD_WASK && cmd != CMD_WINS { return Stop(-3), next; }
      next := pos + OVERHEAD + len;
      assert data[pos..][OVERHEAD..OVERHEAD + len] == data[pos + OVERHEAD..next];
      assert data[pos..][OVERHEAD + len..] == data[next..];
      head := Seg(Segment(conv, cmd, wnd, ts, sn, una, Frag(frg, data[pos + OVERHEAD..next])), data[next..]);
    }

    // ----- the output buffer -----------------------------------------------------------------------------

    /** The buffer up to `ptr` and the datagrams handed over since `output` was `base` are
        the segments `emitted`, packed. */
    ghost predicate Built(ptr: nat, emitted: seq<Segment>, base: seq<Bytes>)
      reads this`output, buffer
    {
      var p := PutAll(cfg.mtu, Packer([], []), emitted);
      && buffer.Length == (cfg.mtu + OVERHEAD) * 3
      && ptr == SizeOf(p.cur) <= cfg.mtu
      && buffer[..ptr] == EncodeDatagram(p.cur)
      && output == base + EncodeAll(p.done)
    }

    /** `ikcp_encode8u`. */
    method Encode8(at: nat, c: u8) returns (next: nat)
      requires at < buffer.Length
      modifies buffer
      ensures next == at + 1 && buffer[..next] == old(buffer[..at]) + [c]
    {
      buffer[at] := c;
      next := at + 1;
    }

    /** `ikcp_encode16u`. */
    method Encode16(at: nat, w: u16) returns (next: nat)
      requires at + 2 <= buffer.Length
      modifies buffer
      ensures next == at + 2 && buffer[..next] == old(buffer[..at]) + Wire.Encode16(w)
    {
      buffer[at], buffer[at + 1] := w % 256, w / 256;
      next := at + 2;
    }

    /** `ikcp_encode32u`. */
    method Encode32(at: nat, l: u32) returns (next: nat)
      requires at + 4 <= buffer.Length
      modifies buffer
      ensures next == at + 4 && buffer[..next] == old(buffer[..at]) + Wire.Encode32(l)
    {
      buffer[at], buffer[at + 1] := l % 256, l / 256 % 256;
      buffer[at + 2], buffer[at + 3] := l / 65536 % 256, l / 16777216;
      next := at + 4;
    }

    /** `ikcp_encode_seg`. */
    method EncodeHeader(at: nat, s: Segment) returns (next: nat)
      requires at + OVERHEAD <= buffer.Length && |s.frag.data| < TWO32
      modifies buffer
      ensures next == at + OVERHEAD && buffer[..next] == old(buffer[..at]) + Header(s)
    {
      hide Wire.Encode16, Wire.Encode32, U32;
      next := EncodeStart(at, s);
      next := Encode32(next, U32(s.sn));
      next := Encode32(next, U32(s.una));
      next := Encode32(next, U32(|s.frag.data|));
    }

    /** The header up to `ts`. */
    method EncodeStart(at: nat, s: Segment) returns (next: nat)
      requires at + 12 <= buffer.Length
      modifies buffer
      ensures next == at + 12
      ensures buffer[..next] == old(buffer[..at]) +
        (Wire.Encode32(s.conv) + [s.cmd, s.frag.frg] + Wire.Encode16(s.wnd) + Wire.Encode32(s.ts))
    {
      hide Wire.Encode16, Wire.Encode32;
      next := Encode32(at, s.conv);
      next := Encode8(next, s.cmd);
      next := Encode8(next, s.frag.frg);
      next := Encode16(next, s.wnd);
      next := Encode32(next, s.ts);
    }

    /** The `memcpy` of the payload. */
    method CopyData(at: nat, data: Bytes) returns (next: nat)
      requires at + |data| <= buffer.Length
      modifies buffer
      ensures next == at + |data| && buffer[..next] == old(buffer[..at]) + data
    {
      for j := 0 to |data|
        invariant buffer[..at + j] == old(buffer[..at]) + data[..j]
      {
        buffer[at + j] := data[j];
        assert buffer[..at + j] == old(buffer[..at]) + data[..j];
      }
      next := at + |data|;
    }

    /** Append one segment to the buffer, first handing the buffer over if it would not fit. */
    method Emit(s: Segment, ptr: nat, ghost emitted: seq<Segment>, ghost base: seq<Bytes>) returns (next: nat)
      requires cfg.Valid() && Built(ptr, emitted, base) && s.Size() <= cfg.mtu
      modifies this`output, buffer
      ensures Built(next, emitted + [s], base)
    {
      hide EncodeDatagram, PutAll, Header, SizeOf;
      ghost var p := PutAll(cfg.mtu, Packer([], []), emitted);
      PutNext(cfg.mtu, emitted, s);
      next := ptr;
      if ptr + s.Size() > cfg.mtu {
        if ptr > 0 {
          output := output + [buffer[..ptr]];
        }
        next := 0;
        HandOver(p, base);
      }
      ghost var cur := if ptr + s.Size() > cfg.mtu then [] else p.cur;
      EmptyDatagram();
      assert [] + [s] == [s];
      EncodeNext(cur, s);
      ghost var start := buffer[..next];
      next := EncodeHeader(next, s);
      if |s.frag.data| > 0 {
        next := CopyData(next, s.frag.data);
      }
      assert buffer[..next] == start + EncodeSeg(s);
    }

    /** Hand over what is left in the buffer. */
    method FlushBuffer(ptr: nat, ghost emitted: seq<Segment>, ghost base: seq<Bytes>)
      requires Built(ptr, emitted, base)
      modifies this`output
      ensures output == base + EncodeAll(Pack(cfg.mtu, emitted))
    {
      hide EncodeDatagram, PutAll, SizeOf;
      ghost var p := PutAll(cfg.mtu, Packer([], []), emitted);
      if ptr > 0 {
        output := output + [buffer[..ptr]];
      }
      HandOver(p, base);
    }

    // ----- ikcp_flush --------------------------------------------------------------------------------------

    /** `ikcp_wnd_unused` and the 16-bit cast of `ikcp_encode_seg`. */
    method UnusedWindow() returns (wnd: u16)
      requires Valid()
      ensures wnd == WndUnused(cfg, Rcv())
    {
      wnd := if nrcvQue < cfg.rcvWnd then (cfg.rcvWnd - nrcvQue) % TWO16 else 0;
    }

    /** Emit the pending acknowledgements; the header record keeps the last one. */
    method FlushAcks(wnd: u16) returns (ptr: nat, last: Ack)
      requires Valid() && wnd == WndUnused(cfg, Rcv())
      modifies this`output, this`ackcount, buffer
      ensures Valid() && Acks() == []
      ensures Built(ptr, AckSegs(cfg, Rcv(), old(Acks())), old(output))
      ensures last == if old(Acks()) == [] then Ack(0, 0) else old(Acks())[|old(Acks())| - 1]
    {
      hide Built, WndUnused;
      ghost var acks, base := Acks(), output;
      ghost var segs := AckSegs(cfg, Rcv(), acks);
      ptr, last := 0, Ack(0, 0);
      BuiltEmpty(base);
      var i := 0;
      while i < ackcount
        modifies this`output, buffer
        invariant 0 <= i <= ackcount
        invariant Acks() == acks
        invariant Built(ptr, segs[..i], base)
        invariant last == if i == 0 then Ack(0, 0) else acks[i - 1]
      {
        assert acks[i] == Ack(acklist[2 * i], acklist[2 * i + 1]);
        last := Ack(acklist[2 * i], acklist[2 * i + 1]);
        var s := Segment(cfg.conv, CMD_ACK, wnd, last.ts, last.sn, rcvNxt, Frag(0, []));
        ptr := Emit(s, ptr, segs[..i], base);
        assert segs[..i + 1] == segs[..i] + [s];
        i := i + 1;
      }
      assert segs[..i] == segs;
      ackcount := 0;
    }

    lemma BuiltEmpty(base: seq<Bytes>)
      requires output == base && buffer.Length == (cfg.mtu + OVERHEAD) * 3
      ensures Built(0, [], base)
    {
      assert base + EncodeAll([]) == base;
      EmptyDatagram();
    }

    /** The zero-window probe timer. */
    method RunProbeTimer()
      modifies this`tsProbe, this`probeWait, this`probeAsk
      ensures Prb() == ProbeTimer(old(Prb()), rmtWnd, current)
    {
      hide U32;
      if rmtWnd == 0 {
        if probeWait == 0 {
          probeWait := PROBE_INIT;
          tsProbe := U32(current + probeWait);
        } else {
          if TimeDiff(current, tsProbe) >= 0 {
            if probeWait < PROBE_INIT { probeWait := PROBE_INIT; }
            probeWait := U32(probeWait + probeWait / 2);
            if probeWait > PROBE_LIMIT { probeWait := PROBE_LIMIT; }
            tsProbe := U32(current + probeWait);
            probeAsk := true;
          }
        }
      } else {
        tsProbe := 0;
        probeWait := 0;
      }
    }

    /** Emit the window probes that are due. */
    method FlushProbes(wnd: u16, last: Ack, ptr: nat, ghost acks: seq<Ack>, ghost emitted: seq<Segment>,
                       ghost base: seq<Bytes>)
      returns (next: nat)
      requires Valid() && wnd == WndUnused(cfg, Rcv())
      requires last == if acks == [] then Ack(0, 0) else acks[|acks| - 1]
      requires Built(ptr, emitted, base)
      modifies this`output, this`probeAsk, this`probeTell, buffer
      ensures Built(next, emitted + ProbeSegs(cfg, Rcv(), acks, old(Prb())), base)
      ensures Prb() == old(Prb()).(ask := false, tell := false)
    {
      hide Built, WndUnused;
      next := ptr;
      ghost var out := emitted;
      if probeAsk {
        var s := Segment(cfg.conv, CMD_WASK, wnd, last.ts, last.sn, rcvNxt, Frag(0, []));
        next := Emit(s, next, out, base);
        out := out + [s];
      }
      if probeTell {
        var s := Segment(cfg.conv, CMD_WINS, wnd, last.ts, last.sn, rcvNxt, Frag(0, []));
        next := Emit(s, next, out, base);
        out := out + [s];
      }
      assert out == emitted + ProbeSegs(cfg, Rcv(), acks, Prb());
      probeAsk, probeTell := false, false;
    }

    /** Move segments from `snd_queue` to `snd_buf` while the window has room. */
    method AdmitSegments(w: nat)
      requires Valid()
      modifies this`sndNxt, this`sndQueue, this`nsndQue, this`sndBuf, this`nsndBuf
      ensures Valid() && Snd() == Admit(Wrapped, old(Snd()), w, current, rxRto)
    {
      hide U32, TimeDiff, AdmitOne, CountersOk, SegsOk, BlocksOk;
      while TimeDiff(sndNxt, U32(sndUna + w)) < 0
        invariant Valid() && sndUna == old(sndUna)
        invariant Admit(Wrapped, Snd(), w, current, rxRto) == Admit(Wrapped, old(Snd()), w, current, rxRto)
        decreases |sndQueue|
      {
        if |sndQueue| == 0 { break; }
        AdmitHead();
      }
    }

    method AdmitHead()
      requires Valid() && sndQueue != []
      modifies this`sndNxt, this`sndQueue, this`nsndQue, this`sndBuf, this`nsndBuf
      ensures Valid() && Snd() == AdmitOne(Wrapped, old(Snd()), current, rxRto) && sndQueue == old(sndQueue)[1..]
    {
      hide U32;
      assert sndQueue[0] in sndQueue;
      var seg := SendSeg(sndNxt, sndQueue[0], current, rxRto, 0, 0);
      sndQueue := sndQueue[1..];
      sndBuf := sndBuf + [seg];
      nsndQue := nsndQue - 1;
      nsndBuf := nsndBuf + 1;
      sndNxt := U32(sndNxt + 1);
    }

    /** What the data loop does with one segment's timers; `due` says that it is emitted. */
    method Examine(tx: Tx, s: SendSeg) returns (t: SendSeg, due: bool, timeout: bool, fast: bool)
      ensures t == Transmit(tx, s)
      ensures due <==> CauseOf(tx, s) != Wait
      ensures timeout <==> CauseOf(tx, s) == Timeout
      ensures fast <==> CauseOf(tx, s) == FastResend
    {
      hide U32;
      t, due, timeout, fast := s, false, false, false;
      var rtomin := if tx.nodelay then 0 else tx.rto / 8;
      if s.xmit == 0 {
        due := true;
        t := t.(xmit := 1);
        t := t.(rto := tx.rto);
        t := t.(resendts := U32(tx.now + t.rto + rtomin));
      } else if TimeDiff(tx.now, s.resendts) >= 0 {
        due, timeout := true, true;
        t := t.(xmit := U32(t.xmit + 1));
        if tx.nodelay {
          t := t.(rto := U32(t.rto + tx.rto / 2));
        } else {
          t := t.(rto := U32(t.rto + tx.rto));
        }
        t := t.(resendts := U32(tx.now + t.rto));
      } else if s.fastack >= tx.resent {
        due, fast := true, true;
        t := t.(xmit := U32(t.xmit + 1));
        t := t.(fastack := 0);
        t := t.(resendts := U32(tx.now + t.rto));
      }
    }

    /** The data loop of `ikcp_flush`: look at each segment of `snd_buf`, update it in place and
        emit it if it is due. */
    method FlushData(tx: Tx, wnd: u16, ptr: nat, ghost emitted: seq<Segment>, ghost base: seq<Bytes>)
      returns (next: nat, change: nat, lost: bool)
      requires Valid() && wnd == WndUnused(cfg, Rcv()) && tx.now == current
      requires Built(ptr, emitted, base)
      modifies this`sndBuf, this`xmit, this`dead, this`output, buffer
      ensures Valid() && sndBuf == TransmitAll(tx, old(sndBuf))
      ensures Built(next, emitted + PushSegs(cfg, Rcv(), current, Due(tx, old(sndBuf))), base)
      ensures change == CountCause(tx, old(sndBuf), FastResend)
      ensures lost <==> CountCause(tx, old(sndBuf), Timeout) > 0
      ensures xmit == U32(old(xmit) + CountCause(tx, old(sndBuf), Timeout))
      ensures dead == (old(dead) || ReachesDeadLink(tx, old(sndBuf), cfg.deadLink))
    {
      hide Built, WndUnused, Transmit, CauseOf, ReachesDeadLink, U32, CountersOk, SegsOk, BlocksOk, Due, CountCause,
           PushSegs, Rcv, Push;
      ghost var b := sndBuf;
      next, change, lost := ptr, 0, false;
      var i := 0;
      assert b[..0] == [];
      NothingDue(tx, cfg, Rcv(), current, xmit, cfg.deadLink, emitted);
      while i < |sndBuf|
        modifies this`sndBuf, this`xmit, this`dead, this`output, buffer
        invariant 0 <= i <= |sndBuf| == |b| && Valid()
        invariant forall k :: 0 <= k < i ==> sndBuf[k] == Transmit(tx, b[k])
        invariant forall k :: i <= k < |b| ==> sndBuf[k] == b[k]
        invariant Built(next, emitted + PushSegs(cfg, Rcv(), current, Due(tx, b[..i])), base)
        invariant change == CountCause(tx, b[..i], FastResend)
        invariant lost <==> CountCause(tx, b[..i], Timeout) > 0
        invariant xmit == U32(old(xmit) + CountCause(tx, b[..i], Timeout))
        invariant dead == (old(dead) || ReachesDeadLink(tx, b[..i], cfg.deadLink))
      {
        ghost var pushed := PushSegs(cfg, Rcv(), current, Due(tx, b[..i]));
        DueNext(tx, cfg, Rcv(), current, b, i);
        DeadLinkNext(tx, b, i, cfg.deadLink);
        CountNext(tx, b, i, Timeout);
        CountNext(tx, b, i, FastResend);
        U32Plus(old(xmit) + CountCause(tx, b[..i], Timeout), 1);
        ConcatAssoc(emitted, pushed, [Push(cfg, Rcv(), current, b[i])]);
        var timeout, fast;
        next, timeout, fast := FlushOne(tx, wnd, i, next, emitted + pushed, base);
        if timeout { lost := true; }
        if fast { change := change + 1; }
        i := i + 1;
      }
      assert b[..i] == b;
    }

    /** The body of the data loop. */
    method FlushOne(tx: Tx, wnd: u16, i: nat, ptr: nat, ghost emitted: seq<Segment>, ghost base: seq<Bytes>)
      returns (next: nat, timeout: bool, fast: bool)
      requires Valid() && wnd == WndUnused(cfg, Rcv()) && tx.now == current && i < |sndBuf|
      requires Built(ptr, emitted, base)
      modifies this`sndBuf, this`xmit, this`dead, this`output, buffer
      ensures Valid() && sndBuf == old(sndBuf)[i := Transmit(tx, old(sndBuf)[i])]
      ensures var s := old(sndBuf)[i]; var c := CauseOf(tx, s);
        && Built(next, if c == Wait then emitted else emitted + [Push(cfg, Rcv(), current, s)], base)
        && (timeout <==> c == Timeout) && (fast <==> c == FastResend)
        && xmit == (if timeout then U32(old(xmit) + 1) else old(xmit))
        && dead == (old(dead) || (c != Wait && Transmit(tx, s).xmit >= cfg.deadLink))
    {
      hide Built, WndUnused, Transmit, CauseOf, U32;
      var s := sndBuf[i];
      assert s in sndBuf;
      var t, due;
      t, due, timeout, fast := Examine(tx, s);
      TransmitCounts(tx, s);
      sndBuf := sndBuf[i := t];
      if timeout { xmit := U32(xmit + 1); }
      next := ptr;
      if due {
        next := Emit(Segment(cfg.conv, CMD_PUSH, wnd, current, t.sn, rcvNxt, t.frag), next, emitted, base);
        if t.xmit >= cfg.deadLink { dead := true; }
      }
    }

    /** The window reduction at the end of `ikcp_flush`. */
    method ReduceWindow(inflight: u32, window: u32, change: nat, lost: bool)
      requires cfg.Valid()
      modifies this`cwnd, this`ssthresh, this`incr
      ensures Cong() == Reduce(cfg, old(Cong()), inflight, window, change > 0, lost)
    {
      hide U32;
      if change > 0 {
        ssthresh := inflight / 2;
        if ssthresh < THRESH_MIN { ssthresh := THRESH_MIN; }
        cwnd := U32(ssthresh + Resent(cfg));
        incr := U32(cwnd * cfg.Mss());
      }
      if lost {
        ssthresh := window / 2;
        if ssthresh < THRESH_MIN { ssthresh := THRESH_MIN; }
        cwnd := 1;
        incr := cfg.Mss();
      }
      if cwnd < 1 {
        cwnd := 1;
        incr := cfg.Mss();
      }
    }

    /** `ikcp_flush`: the object goes to the state after a flush, and the datagrams handed to
        the output callback are the encoded datagrams of the flush. */
    method Flush()
      requires Valid()
      modifies this`ackcount, this`tsProbe, this`probeWait, this`probeAsk, this`probeTell
      modifies this`sndNxt, this`sndQueue, this`nsndQue, this`sndBuf, this`nsndBuf
      modifies this`xmit, this`dead, this`output, this`cwnd, this`ssthresh, this`incr, buffer
      ensures Valid()
      ensures var (e, ds) := Spec.Flush(Wrapped, cfg, old(State()));
        State() == e && output == old(output) + EncodeAll(ds)
    {
      if !updated {
        assert output + EncodeAll([]) == output;
        return;
      }
      FlushUpdated();
    }

    method FlushUpdated()
      requires Valid()
      modifies this`ackcount, this`tsProbe, this`probeWait, this`probeAsk, this`probeTell
      modifies this`sndNxt, this`sndQueue, this`nsndQue, this`sndBuf, this`nsndBuf
      modifies this`xmit, this`dead, this`output, this`cwnd, this`ssthresh, this`incr, buffer
      ensures Valid() && State() == FlushState(Wrapped, cfg, old(State()))
      ensures output == old(output) + EncodeAll(Pack(cfg.mtu, FlushSegs(Wrapped, cfg, old(State()))))
    {
      hide CountersOk, SegsOk, BlocksOk, Acks, Snd, Rcv, Est, Prb, Admitted, FlushSegs, TallyOf, Transmitted,
           ProbeTimer, Reduce, Pack, EncodeAll, SendWindow, U32;
      var window := SendWindow(cfg, Congestion(rmtWnd, cwnd, ssthresh, incr));
      ghost var t;
      var inflight, change, lost;
      inflight, change, lost, t := FlushWork(window);
      ReduceWindow(inflight, window, change, lost);
    }

    /** All of `ikcp_flush` but the window reduction; `t` is what the data loop found out. */
    method FlushWork(window: nat) returns (inflight: u32, change: nat, lost: bool, ghost t: Tally)
      requires Valid() && window == SendWindow(cfg, Cong())
      modifies this`ackcount, this`tsProbe, this`probeWait, this`probeAsk, this`probeTell
      modifies this`sndNxt, this`sndQueue, this`nsndQue, this`sndBuf, this`nsndBuf
      modifies this`xmit, this`dead, this`output, buffer
      ensures Valid() && Acks() == []
      ensures Prb() == ProbeTimer(old(Prb()), rmtWnd, current).(ask := false, tell := false)
      ensures var e := old(State()); var snd := Admitted(Wrapped, cfg, e);
        && t == TallyOf(TxOf(cfg, e), snd, cfg.deadLink) && Snd() == Transmitted(TxOf(cfg, e), snd)
      ensures inflight == t.inflight && change == t.fast && (lost <==> t.timeouts > 0)
      ensures xmit == U32(old(xmit) + t.timeouts) && dead == (old(dead) || t.dead)
      ensures output == old(output) + EncodeAll(Pack(cfg.mtu, FlushSegs(Wrapped, cfg, old(State()))))
    {
      hide Built, WndUnused, ProbeTimer, ProbeSegs, Admit, Due, Pack, CountersOk, SegsOk, BlocksOk, Acks, Snd, Rcv, Prb;
      hide SendWindow, Resent, TallyOf, Transmitted, AckSegs, PushSegs, EncodeAll, U32;
      ghost var e, base := State(), output;
      var wnd := UnusedWindow();
      var ptr := FlushControl(wnd);
      ghost var emitted := AckSegs(cfg, e.rcv, e.acks) +
        ProbeSegs(cfg, e.rcv, e.acks, ProbeTimer(e.probe, e.cong.rmtWnd, e.current));
      var tx := Tx(current, rxRto, cfg.nodelay, Resent(cfg));
      inflight, change, lost := FlushSend(tx, window, wnd, ptr, emitted, base);
      t := TallyOf(tx, Admitted(Wrapped, cfg, e), cfg.deadLink);
    }

    /** Acknowledgements and probes. */
    method FlushControl(wnd: u16) returns (ptr: nat)
      requires Valid() && wnd == WndUnused(cfg, Rcv())
      modifies this`ackcount, this`tsProbe, this`probeWait, this`probeAsk, this`probeTell, this`output, buffer
      ensures Valid() && Acks() == []
      ensures Prb() == ProbeTimer(old(Prb()), rmtWnd, current).(ask := false, tell := false)
      ensures Built(ptr, AckSegs(cfg, Rcv(), old(Acks())) +
        ProbeSegs(cfg, Rcv(), old(Acks()), ProbeTimer(old(Prb()), rmtWnd, current)), old(output))
    {
      hide Built, WndUnused, ProbeTimer, ProbeSegs, CountersOk, SegsOk, Acks, Rcv, Prb;
      ghost var base, acks := output, Acks();
      var last;
      ptr, last := FlushAcks(wnd);
      RunProbeTimer();
      ptr := FlushProbes(wnd, last, ptr, acks, AckSegs(cfg, Rcv(), acks), base);
    }

    /** Admission, the data loop and the last datagram. */
    method FlushSend(tx: Tx, window: nat, wnd: u16, ptr: nat, ghost emitted: seq<Segment>, ghost base: seq<Bytes>)
      returns (inflight: u32, change: nat, lost: bool)
      requires Valid() && wnd == WndUnused(cfg, Rcv()) && tx.now == current && tx.rto == rxRto
      requires Built(ptr, emitted, base)
      modifies this`sndNxt, this`sndQueue, this`nsndQue, this`sndBuf, this`nsndBuf
      modifies this`xmit, this`dead, this`output, buffer
      ensures Valid()
      ensures var snd := Admit(Wrapped, old(Snd()), window, current, rxRto); var t := TallyOf(tx, snd, cfg.deadLink);
        && Snd() == Transmitted(tx, snd)
        && output == base + EncodeAll(Pack(cfg.mtu, emitted + PushSegs(cfg, Rcv(), current, Due(tx, snd.buf))))
        && inflight == t.inflight && change == t.fast && (lost <==> t.timeouts > 0)
        && xmit == U32(old(xmit) + t.timeouts) && dead == (old(dead) || t.dead)
    {
      hide Built, WndUnused, Admit, Due, CountCause, ReachesDeadLink, Pack, TransmitAll, CountersOk, SegsOk, BlocksOk,
           Rcv, U32;
      AdmitSegments(window);
      ghost var snd := Snd();
      var next;
      next, change, lost := FlushData(tx, wnd, ptr, emitted, base);
      FlushBuffer(next, emitted + PushSegs(cfg, Rcv(), current, Due(tx, snd.buf)), base);
      inflight := U32(sndNxt - sndUna);
    }

    // ----- ikcp_update, ikcp_check ---------------------------------------------------------------------------

    /** `ikcp_update`. */
    method Update(now: u32)
      requires Valid()
      modifies this`ackcount, this`tsProbe, this`probeWait, this`probeAsk, this`probeTell
      modifies this`sndNxt, this`sndQueue, this`nsndQue, this`sndBuf, this`nsndBuf
      modifies this`xmit, this`dead, this`output, this`cwnd, this`ssthresh, this`incr, buffer
      modifies this`current, this`updated, this`tsFlush
      ensures Valid()
      ensures var (e, ds) := Spec.Update(Wrapped, cfg, old(State()), now);
        State() == e && output == old(output) + EncodeAll(ds)
    {
      hide Acks, Snd, Est, Rcv, Cong, Prb, CountersOk, SegsOk, BlocksOk, Spec.Flush, Tick;
      var due := RunTimer(now);
      if due {
        Flush();
      } else {
        assert output + EncodeAll([]) == output;
      }
    }

    /** The timer part of `ikcp_update`. */
    method RunTimer(now: u32) returns (due: bool)
      modifies this`current, this`updated, this`tsFlush
      ensures (Pace(updated, tsFlush), due) == Tick(old(Pace(updated, tsFlush)), cfg.interval, now) && current == now
    {
      hide TimeDiff, U32;
      current := now;
      if !updated {
        updated := true;
        tsFlush := current;
      }
      var slap := TimeDiff(current, tsFlush);
      SameTime(current);
      if slap >= 10000 || slap < -10000 {
        tsFlush := current;
        slap := 0;
      }
      due := slap >= 0;
      if due {
        tsFlush := U32(tsFlush + cfg.interval);
        if TimeDiff(current, tsFlush) >= 0 {
          tsFlush := U32(current + cfg.interval);
        }
      }
    }

    /** `ikcp_check`. */
    method Check(now: u32) returns (when: u32)
      requires Valid()
      ensures when == Spec.Check(cfg, State(), now)
    {
      hide Acks, TimeDiff, U32;
      if !updated { return now; }
      var ts := tsFlush;
      SameTime(now);
      if TimeDiff(now, ts) >= 10000 || TimeDiff(now, ts) < -10000 {
        ts := now;
      }
      if TimeDiff(now, ts) >= 0 { return now; }
      var tmFlush, tmPacket := TimeDiff(ts, now), 0x7fff_ffff;
      var i := 0;
      while i < |sndBuf|
        invariant 0 <= i <= |sndBuf|
        invariant PacketWait(sndBuf[..i], now) == In(tmPacket)
      {
        assert sndBuf[..i + 1][..i] == sndBuf[..i];
        var diff := TimeDiff(sndBuf[i].resendts, now);
        if diff <= 0 {
          StaysOverdue(sndBuf, i + 1, now);
          return now;
        }
        if diff < tmPacket { tmPacket := diff; }
        i := i + 1;
      }
      assert sndBuf[..i] == sndBuf;
      var minimal := if tmPacket < tmFlush then tmPacket else tmFlush;
      if minimal >= cfg.interval { minimal := cfg.interval; }
      return U32(now + minimal);
    }
  }

  /** The first `n` pairs of an acknowledgement block. */
  function AckPairs(xs: seq<u32>, n: nat): (k: seq<Ack>)
    requires 2 * n <= |xs|
    ensures |k| == n
    ensures forall i :: 0 <= i < n ==> k[i] == Ack(xs[2 * i], xs[2 * i + 1])
  {
    seq(n, i requires 0 <= i < n => Ack(xs[2 * i], xs[2 * i + 1]))
  }

  lemma DecodeShift(data: Bytes, pos: nat)
    requires pos + OVERHEAD <= |data|
    ensures var b := data[pos..];
      && Decode32(b, 0) == Decode32(data, pos) && Decode16(b, 6) == Decode16(data, pos + 6)
      && Decode32(b, 8) == Decode32(data, pos + 8) && Decode32(b, 12) == Decode32(data, pos + 12)
      && Decode32(b, 16) == Decode32(data, pos + 16) && Decode32(b, 20) == Decode32(data, pos + 20)
      && b[4] == data[pos + 4] && b[5] == data[pos + 5]
  {
  }

  lemma ParseNext(conv: u32, b: Bytes)
    ensures var h := ParseHead(conv, b);
      Parse(conv, b) == if h.Stop? then Parsed([], h.code) else
        var p := Parse(conv, h.rest); Parsed([h.seg] + p.segs, p.code)
  {
  }

  lemma InputNone(cfg: Config, e: Engine)
    ensures InputSegs(Wrapped, cfg, e, []) == e
  {
  }

  lemma InputNext(cfg: Config, e: Engine, segs: seq<Segment>, s: Segment)
    ensures InputSegs(Wrapped, cfg, e, segs + [s]) == Spec.InputSeg(Wrapped, cfg, InputSegs(Wrapped, cfg, e, segs), s)
  {
    hide Spec.InputSeg;
    assert (segs + [s])[..|segs|] == segs;
  }

  lemma PutNext(mtu: nat, emitted: seq<Segment>, s: Segment)
    ensures PutAll(mtu, Packer([], []), emitted + [s]) == Put(mtu, PutAll(mtu, Packer([], []), emitted), s)
  {
    assert (emitted + [s])[..|emitted|] == emitted;
  }

  lemma EmptyDatagram()
    ensures SizeOf([]) == 0 && EncodeDatagram([]) == []
  {
  }

  lemma EncodeNext(cur: Datagram, s: Segment)
    ensures EncodeDatagram(cur + [s]) == EncodeDatagram(cur) + EncodeSeg(s)
    ensures SizeOf(cur + [s]) == SizeOf(cur) + s.Size()
  {
    hide EncodeSeg;
    assert (cur + [s])[..|cur|] == cur;
  }

  lemma SizePositive(d: Datagram)
    ensures SizeOf(d) == 0 <==> d == []
  {
  }

  /** Closing a packer appends the buffer's bytes, unless there are none. */
  lemma HandOver(p: Packer, base: seq<Bytes>)
    ensures SizeOf(p.cur) > 0 ==> base + EncodeAll(p.done) + [EncodeDatagram(p.cur)] == base + EncodeAll(Close(p))
    ensures SizeOf(p.cur) == 0 ==> base + EncodeAll(p.done) == base + EncodeAll(Close(p))
  {
    hide EncodeDatagram, SizeOf;
    SizePositive(p.cur);
    if p.cur != [] {
      assert EncodeAll(p.done + [p.cur]) == EncodeAll(p.done) + [EncodeDatagram(p.cur)];
    }
  }

  lemma NothingDue(tx: Tx, cfg: Config, r: Receiver, now: u32, x: u32, deadLink: u32, emitted: seq<Segment>)
    ensures emitted + PushSegs(cfg, r, now, Due(tx, [])) == emitted
    ensures forall c :: CountCause(tx, [], c) == 0
    ensures U32(x + 0) == x && !ReachesDeadLink(tx, [], deadLink)
  {
  }

  lemma DueNext(tx: Tx, cfg: Config, r: Receiver, now: u32, b: seq<SendSeg>, i: nat)
    requires i < |b|
    ensures var front := PushSegs(cfg, r, now, Due(tx, b[..i]));
      PushSegs(cfg, r, now, Due(tx, b[..i + 1])) ==
        if CauseOf(tx, b[i]) == Wait then front else front + [Push(cfg, r, now, b[i])]
  {
    hide CauseOf;
    assert b[..i + 1][..i] == b[..i];
    assert Due(tx, b[..i]) + [] == Due(tx, b[..i]);
  }

  lemma DeadLinkNext(tx: Tx, b: seq<SendSeg>, i: nat, deadLink: u32)
    requires i < |b|
    ensures ReachesDeadLink(tx, b[..i + 1], deadLink) ==
      (ReachesDeadLink(tx, b[..i], deadLink) || (CauseOf(tx, b[i]) != Wait && Transmit(tx, b[i]).xmit >= deadLink))
  {
    hide CauseOf, Transmit;
    assert forall k :: 0 <= k < i ==> b[..i + 1][k] == b[..i][k];
    assert b[..i + 1][i] == b[i];
  }

  lemma CountNext(tx: Tx, b: seq<SendSeg>, i: nat, c: Cause)
    requires i < |b|
    ensures CountCause(tx, b[..i + 1], c) == CountCause(tx, b[..i], c) + if CauseOf(tx, b[i]) == c then 1 else 0
  {
    assert b[..i + 1][..i] == b[..i];
  }

  lemma SameTime(t: u32)
    ensures TimeDiff(t, t) == 0
  {
  }

  lemma {:induction false} StaysOverdue(buf: seq<SendSeg>, i: nat, now: u32)
    requires i <= |buf| && PacketWait(buf[..i], now).Overdue?
    ensures PacketWait(buf, now).Overdue?
    decreases |buf| - i
  {
    if i < |buf| {
      assert buf[..i + 1][..i] == buf[..i];
      StaysOverdue(buf, i + 1, now);
    } else {
      assert buf[..i] == buf;
    }
  }
}
