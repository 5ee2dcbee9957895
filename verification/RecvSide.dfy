/** The receiving half of an endpoint: `rcv_buf`, `rcv_queue` and `rcv_nxt`. */
module RecvSide {
  import opened SerialNumbers
  import opened Segments

  /** A received segment; of its header only `sn` and `frg` are ever read again. */
  datatype RecvSeg = RecvSeg(sn: int, frag: Frag)

  datatype Receiver = Receiver(nxt: int, buf: seq<RecvSeg>, queue: seq<RecvSeg>)

  const EMPTY := Receiver(0, [], [])

  /** Where the backward scan of `ikcp_parse_data` stops: at the last segment that is equal
      to or before `sn`, or at the list head (-1). */
  function ScanStop(a: Arith, buf: seq<RecvSeg>, sn: int): (p: int)
    ensures -1 <= p < |buf|
  {
    if buf == [] then -1
    else
      var n := |buf| - 1;
      if buf[n].sn == sn || a.Diff(sn, buf[n].sn) > 0 then n else ScanStop(a, buf[..n], sn)
  }

  /** The insertion after the scan; a segment whose number the scan stopped at is dropped. */
  function Insert(a: Arith, buf: seq<RecvSeg>, s: RecvSeg): seq<RecvSeg> {
    var p := ScanStop(a, buf, s.sn);
    if p >= 0 && buf[p].sn == s.sn then buf else buf[..p + 1] + [s] + buf[p + 1..]
  }

  /** The loop that moves segments from `rcv_buf` to `rcv_queue` while they are next in
      order and the queue has room. */
  function Promote(a: Arith, r: Receiver, wnd: nat): Receiver
    decreases |r.buf|
  {
    if r.buf != [] && r.buf[0].sn == r.nxt && |r.queue| < wnd then
      Promote(a, Receiver(a.Num(r.nxt + 1), r.buf[1..], r.queue + [r.buf[0]]), wnd)
    else r
  }

  /** Whether `sn` lies in the receive window as `ikcp_parse_data` tests it. */
  predicate InWindow(a: Arith, r: Receiver, wnd: nat, sn: int) {
    a.Diff(sn, a.Num(r.nxt + wnd)) < 0 && a.Diff(sn, r.nxt) >= 0
  }

  /** `ikcp_parse_data`. */
  function TakeData(a: Arith, r: Receiver, wnd: nat, s: RecvSeg): Receiver {
    if InWindow(a, r, wnd, s.sn) then Promote(a, r.(buf := Insert(a, r.buf, s)), wnd) else r
  }

  /** How many segments of the queue the merge loop of `ikcp_recv` walks over: through the
      first one with `frg` zero, or all. */
  function MergeCount(q: seq<RecvSeg>): (n: nat)
    ensures n <= |q|
    ensures q != [] ==> n > 0
  {
    if q == [] then 0
    else if q[0].frag.frg == 0 then 1
    else 1 + MergeCount(q[1..])
  }

  /** The payload of the segments of `q`. */
  function Payload(q: seq<RecvSeg>): Bytes {
    Join(Frags(q))
  }

  function Frags(q: seq<RecvSeg>): (fs: seq<Frag>)
    ensures |fs| == |q|
    ensures forall i :: 0 <= i < |q| ==> fs[i] == q[i].frag
  {
    seq(|q|, i requires 0 <= i < |q| => q[i].frag)
  }

  /** `ikcp_peeksize`. */
  function PeekSize(q: seq<RecvSeg>): int {
    if q == [] then -1
    else if q[0].frag.frg == 0 then |q[0].frag.data|
    else if |q| < q[0].frag.frg + 1 then -1
    else |Payload(q[..MergeCount(q)])|
  }

  datatype RecvResult = Again(code: int) | Message(msg: Bytes)

  /** `ikcp_recv` on this half; a negative `len` asks for a peek. */
  function Take(a: Arith, r: Receiver, wnd: nat, len: int): (Receiver, RecvResult) {
    var room := if len < 0 then -len else len;
    var size := PeekSize(r.queue);
    if r.queue == [] then (r, Again(-1))
    else if size < 0 then (r, Again(-2))
    else if size > room then (r, Again(-3))
    else
      var n := MergeCount(r.queue);
      var r' := if len < 0 then r else r.(queue := r.queue[n..]);
      (Promote(a, r', wnd), Message(Payload(r.queue[..n])))
  }
}
