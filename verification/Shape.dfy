/** What each operation on the two halves does to sequence numbers, and the shape that
    every operation keeps whatever it is given. Sequence numbers are exact here. */
module Shape {
  import opened SerialNumbers
  import opened Segments
  import opened SendSide
  import opened RecvSide

  // ----- sending half ----------------------------------------------------------------------

  /** `snd_buf` strictly increases within [snd_una, snd_nxt), `snd_una` is its head or
      `snd_nxt`, and no more than the send window is outstanding. */
  ghost predicate SenderShape(s: Sender, wnd: nat) {
    && s.una <= s.nxt <= s.una + wnd
    && Increasing(s.buf)
    && (forall i :: 0 <= i < |s.buf| ==> s.una <= s.buf[i].sn < s.nxt)
    && s.una == (if s.buf == [] then s.nxt else s.buf[0].sn)
  }

  ghost predicate Increasing(buf: seq<SendSeg>) {
    forall i, j :: 0 <= i < j < |buf| ==> buf[i].sn < buf[j].sn
  }

  ghost predicate Queued(buf: seq<SendSeg>, sn: int) {
    exists i :: 0 <= i < |buf| && buf[i].sn == sn
  }

  /** In either arithmetic `ikcp_parse_una` removes a prefix: the segments before `una`. */
  lemma {:induction false} DropBeforeSuffix(a: Arith, buf: seq<SendSeg>, una: int) returns (k: nat)
    ensures k <= |buf| && DropBefore(a, buf, una) == buf[k..]
    ensures forall i :: 0 <= i < k ==> a.Diff(una, buf[i].sn) > 0
    ensures k < |buf| ==> a.Diff(una, buf[k].sn) <= 0
  {
    if buf != [] && a.Diff(una, buf[0].sn) > 0 {
      var j := DropBeforeSuffix(a, buf[1..], una);
      k := j + 1;
      assert buf[1..][j..] == buf[k..];
      forall i | 0 <= i < k ensures a.Diff(una, buf[i].sn) > 0 {
        if i > 0 { assert buf[i] == buf[1..][i - 1]; }
      }
    } else {
      k := 0;
    }
  }

  /** `ikcp_parse_ack` removes at most the first segment numbered `sn`, raises `fastack` on
      those before it and leaves those after it alone. */
  lemma {:induction false} RemoveAt(buf: seq<SendSeg>, sn: int) returns (k: nat)
    ensures k <= |buf|
    ensures forall i :: 0 <= i < k ==> buf[i].sn != sn
    ensures k < |buf| ==> buf[k].sn == sn
    ensures |Remove(buf, sn)| == if k < |buf| then |buf| - 1 else |buf|
    ensures forall i :: 0 <= i < k ==> Remove(buf, sn)[i] == buf[i].(fastack := U32(buf[i].fastack + 1))
    ensures forall i :: k <= i < |Remove(buf, sn)| ==> Remove(buf, sn)[i] == buf[i + 1]
  {
    if buf == [] || buf[0].sn == sn {
      k := 0;
    } else {
      var j := RemoveAt(buf[1..], sn);
      k := j + 1;
    }
  }

  /** Taking in a cumulative acknowledgement keeps the shape, never moves `snd_una` back,
      and leaves exactly the segments numbered `una` and up, untouched. */
  lemma TakeUnaShape(s: Sender, wnd: nat, una: int)
    requires SenderShape(s, wnd)
    ensures SenderShape(TakeUna(Exact, s, una), wnd)
    ensures s.una <= TakeUna(Exact, s, una).una
    ensures forall x :: Queued(TakeUna(Exact, s, una).buf, x) <==> Queued(s.buf, x) && una <= x
    ensures forall i :: 0 <= i < |TakeUna(Exact, s, una).buf| ==> TakeUna(Exact, s, una).buf[i] in s.buf
  {
    var k := DropBeforeSuffix(Exact, s.buf, una);
    var t := TakeUna(Exact, s, una);
    assert t.buf == s.buf[k..];
    forall x ensures Queued(t.buf, x) <==> Queued(s.buf, x) && una <= x {
      if Queued(t.buf, x) {
        var i :| 0 <= i < |t.buf| && t.buf[i].sn == x;
        assert s.buf[k + i].sn == x;
      }
      if Queued(s.buf, x) && una <= x {
        var i :| 0 <= i < |s.buf| && s.buf[i].sn == x;
        assert t.buf[i - k].sn == x;
      }
    }
  }

  lemma RemoveNext(b: seq<SendSeg>, i: nat, sn: int)
    requires i < |b|
    ensures Remove(b[i..], sn) ==
      if b[i].sn == sn then b[i + 1..] else [b[i].(fastack := U32(b[i].fastack + 1))] + Remove(b[i + 1..], sn)
  {
    assert b[i..][1..] == b[i + 1..];
  }

  lemma RaiseAt(buf: seq<SendSeg>, b: seq<SendSeg>, i: nat, raised: SendSeg, tail: seq<SendSeg>)
    requires i < |buf| == |b| && buf[i..] == b[i..]
    ensures buf[i := raised][i + 1..] == b[i + 1..]
    ensures buf[i := raised][..i + 1] + tail == buf[..i] + ([raised] + tail)
  {
    assert buf[i := raised][i + 1..] == buf[i..][1..];
    assert buf[i := raised][..i + 1] == buf[..i] + [raised];
    assert buf[..i] + [raised] + tail == buf[..i] + ([raised] + tail);
  }

  lemma RemoveNone(sn: int)
    ensures Remove([], sn) == []
  {
  }

  /** Removing a number from an increasing buffer removes that number and no other. */
  lemma RemoveQueued(buf: seq<SendSeg>, sn: int)
    requires Increasing(buf)
    ensures Increasing(Remove(buf, sn))
    ensures forall x :: Queued(Remove(buf, sn), x) <==> Queued(buf, x) && x != sn
  {
    hide Remove, U32, Increasing, Queued;
    var k := RemoveAt(buf, sn);
    OneOut(buf, Remove(buf, sn), k, sn);
  }

  /** Increasing numbers with the one at `k`, if any, taken out. */
  lemma OneOut(buf: seq<SendSeg>, t: seq<SendSeg>, k: nat, sn: int)
    requires Increasing(buf) && k <= |buf| && |t| == (if k < |buf| then |buf| - 1 else |buf|)
    requires (forall i :: 0 <= i < k ==> buf[i].sn != sn) && (k < |buf| ==> buf[k].sn == sn)
    requires forall i :: 0 <= i < |t| ==> t[i].sn == buf[if i < k then i else i + 1].sn
    ensures Increasing(t) && forall x :: Queued(t, x) <==> Queued(buf, x) && x != sn
  {
    forall x ensures Queued(t, x) <==> Queued(buf, x) && x != sn {
      if Queued(t, x) {
        var i :| 0 <= i < |t| && t[i].sn == x;
        assert buf[if i < k then i else i + 1].sn == x;
      }
      if Queued(buf, x) && x != sn {
        var i :| 0 <= i < |buf| && buf[i].sn == x;
        assert t[if i < k then i else i - 1].sn == x;
      }
    }
  }

  /** What is left after a removal differs from what was there at most in `fastack`. */
  lemma RemoveKeeps(buf: seq<SendSeg>, sn: int, i: nat) returns (j: nat)
    requires i < |Remove(buf, sn)|
    ensures i <= j < |buf| && SameButFastack(buf[j], Remove(buf, sn)[i])
  {
    var k := RemoveAt(buf, sn);
    j := if i < k then i else i + 1;
  }

  /** Taking in a selective acknowledgement keeps the shape, never moves `snd_una` back, and
      removes exactly segment `sn`. */
  lemma TakeAckShape(s: Sender, wnd: nat, sn: int)
    requires SenderShape(s, wnd)
    ensures SenderShape(TakeAck(Exact, s, sn), wnd)
    ensures s.una <= TakeAck(Exact, s, sn).una
    ensures forall x :: Queued(TakeAck(Exact, s, sn).buf, x) <==> Queued(s.buf, x) && x != sn
    ensures !(s.una <= sn < s.nxt) ==> TakeAck(Exact, s, sn) == s
  {
    var t := TakeAck(Exact, s, sn);
    if s.una <= sn < s.nxt {
      RemoveQueued(s.buf, sn);
      forall i | 0 <= i < |t.buf| ensures s.una <= t.buf[i].sn < s.nxt {
        var j := RemoveKeeps(s.buf, sn, i);
      }
    } else {
      assert t == s;
    }
  }

  /** How an acknowledgement counts against the segments it does not remove: one more on
      each earlier one, or on all of them when its own segment is no longer there. */
  lemma AckOvertakes(s: Sender, wnd: nat, sn: int, j: nat)
    requires SenderShape(s, wnd) && s.una <= sn < s.nxt && j < |s.buf| && s.buf[j].sn != sn
    ensures var b := s.buf[j]; var passed := b.sn < sn || !Queued(s.buf, sn);
      b.(fastack := if passed then U32(b.fastack + 1) else b.fastack) in TakeAck(Exact, s, sn).buf
  {
    hide Remove, U32;
    var k := RemoveAt(s.buf, sn);
    var t := Remove(s.buf, sn);
    if j < k {
      assert t[j] in t;
      if k < |s.buf| { assert s.buf[j].sn < s.buf[k].sn; }
    } else {
      assert s.buf[k].sn < s.buf[j].sn;
      assert t[j - 1] in t;
    }
  }

  ghost predicate SameButFastack(s: SendSeg, t: SendSeg) {
    t == s.(fastack := t.fastack)
  }

  /** Admission moves a prefix of `snd_queue` to the end of `snd_buf`, numbering it from
      `snd_nxt` on, and stops at the window or at the end of the queue. */
  lemma {:induction false} AdmitPrefix(s: Sender, cwnd: nat, now: u32, rto: u32) returns (m: nat)
    ensures m <= |s.queue|
    ensures var t := Admit(Exact, s, cwnd, now, rto);
      && t.una == s.una && t.nxt == s.nxt + m && t.queue == s.queue[m..]
      && |t.buf| == |s.buf| + m && t.buf[..|s.buf|] == s.buf
      && (forall j :: |s.buf| <= j < |t.buf| ==>
            t.buf[j] == SendSeg(s.nxt + (j - |s.buf|), s.queue[j - |s.buf|], now, rto, 0, 0))
      && (m > 0 ==> t.nxt <= s.una + cwnd)
      && (m < |s.queue| ==> t.nxt >= s.una + cwnd)
    decreases |s.queue|
  {
    if s.queue != [] && s.nxt < s.una + cwnd {
      var s1 := AdmitOne(Exact, s, now, rto);
      var j := AdmitPrefix(s1, cwnd, now, rto);
      m := j + 1;
      var t := Admit(Exact, s, cwnd, now, rto);
      assert s.queue[m..] == s1.queue[j..];
      assert t.buf[..|s.buf|] == t.buf[..|s1.buf|][..|s.buf|];
      assert t.buf[|s.buf|] == t.buf[..|s1.buf|][|s.buf|];
    } else {
      m := 0;
    }
  }

  /** Admission keeps the shape as long as the window it is given is no larger than the
      send window. */
  lemma AdmitShape(s: Sender, wnd: nat, cwnd: nat, now: u32, rto: u32)
    requires SenderShape(s, wnd) && cwnd <= wnd
    ensures SenderShape(Admit(Exact, s, cwnd, now, rto), wnd)
  {
    var m := AdmitPrefix(s, cwnd, now, rto);
    var t := Admit(Exact, s, cwnd, now, rto);
    var n := |s.buf|;
    forall i | 0 <= i < |t.buf| ensures t.buf[i].sn == if i < n then s.buf[i].sn else s.nxt + (i - n) {
      if i < n { assert t.buf[i] == t.buf[..n][i]; }
    }
  }

  /** Looking at a segment leaves its number and payload alone and counts an emission. */
  lemma TransmitCounts(tx: Tx, s: SendSeg)
    ensures Transmit(tx, s).sn == s.sn && Transmit(tx, s).frag == s.frag
    ensures Transmit(tx, s).xmit == if CauseOf(tx, s) == Wait then s.xmit else U32(s.xmit + 1)
  {
  }

  /** A flush only touches timers and counters of the segments it keeps. */
  lemma TransmitShape(s: Sender, wnd: nat, tx: Tx)
    requires SenderShape(s, wnd)
    ensures SenderShape(s.(buf := TransmitAll(tx, s.buf)), wnd)
  {
    var t := TransmitAll(tx, s.buf);
    assert forall i :: 0 <= i < |t| ==> t[i].sn == s.buf[i].sn && t[i].frag == s.buf[i].frag;
  }

  // ----- receiving half ----------------------------------------------------------------------

  /** `rcv_buf` strictly increases within [rcv_nxt, rcv_nxt + rcv_wnd), `rcv_queue` holds
      the numbers just before `rcv_nxt`, at most a window of them, and a segment that is
      next in order waits in `rcv_buf` only while `rcv_queue` is full. */
  ghost predicate ReceiverShape(r: Receiver, wnd: nat) {
    && ReceiverOrder(r, wnd)
    && (r.buf != [] && r.buf[0].sn == r.nxt ==> |r.queue| == wnd)
  }

  ghost predicate ReceiverOrder(r: Receiver, wnd: nat) {
    && |r.queue| <= wnd
    && Ordered(r.buf)
    && (forall i :: 0 <= i < |r.buf| ==> r.nxt <= r.buf[i].sn < r.nxt + wnd)
    && (forall i :: 0 <= i < |r.queue| ==> r.queue[i].sn == r.nxt - |r.queue| + i)
  }

  ghost predicate Ordered(buf: seq<RecvSeg>) {
    forall i, j :: 0 <= i < j < |buf| ==> buf[i].sn < buf[j].sn
  }

  ghost predicate Buffered(buf: seq<RecvSeg>, sn: int) {
    exists i :: 0 <= i < |buf| && buf[i].sn == sn
  }

  /** The plain set of received numbers that the receiving half stands for. */
  ghost predicate Holds(r: Receiver, sn: int) {
    sn < r.nxt || Buffered(r.buf, sn)
  }

  /** An increasing run of numbers within a window fits the window. */
  lemma {:induction false} BufferBounded(buf: seq<RecvSeg>, lo: int, hi: int)
    requires Ordered(buf)
    requires forall i :: 0 <= i < |buf| ==> lo <= buf[i].sn < hi
    ensures |buf| == 0 || |buf| <= hi - lo
  {
    if |buf| > 0 {
      var n := |buf| - 1;
      BufferBounded(buf[..n], lo, buf[n].sn);
    }
  }

  /** Insertion brings in no segment but the one inserted, in either arithmetic. */
  lemma InsertElements(a: Arith, buf: seq<RecvSeg>, s: RecvSeg)
    ensures forall t :: t in Insert(a, buf, s) ==> t in buf || t == s
  {
  }

  /** In an increasing buffer the scan stops at the one place where `sn` belongs. */
  lemma {:induction false} ScanStopExact(buf: seq<RecvSeg>, sn: int)
    requires Ordered(buf)
    ensures var p := ScanStop(Exact, buf, sn);
      && (forall i :: 0 <= i <= p ==> buf[i].sn <= sn)
      && (forall i :: p < i < |buf| ==> sn < buf[i].sn)
  {
    if buf != [] {
      var n := |buf| - 1;
      if sn < buf[n].sn {
        ScanStopExact(buf[..n], sn);
        assert forall i :: 0 <= i < n ==> buf[..n][i] == buf[i];
      }
    }
  }

  /** Insertion keeps the buffer increasing. */
  lemma InsertOrdered(buf: seq<RecvSeg>, s: RecvSeg)
    requires Ordered(buf)
    ensures Ordered(Insert(Exact, buf, s))
  {
    ScanStopExact(buf, s.sn);
    var k := ScanStop(Exact, buf, s.sn) + 1;
    var b := Insert(Exact, buf, s);
    if b != buf {
      SpliceOrdered(buf, k, s);
    }
  }

  lemma SpliceOrdered(buf: seq<RecvSeg>, k: nat, s: RecvSeg)
    requires Ordered(buf) && k <= |buf|
    requires forall i :: 0 <= i < k ==> buf[i].sn < s.sn
    requires forall i :: k <= i < |buf| ==> s.sn < buf[i].sn
    ensures Ordered(buf[..k] + [s] + buf[k..])
  {
  }

  /** Insertion adds the number to the buffer and no other. */
  lemma InsertBuffered(buf: seq<RecvSeg>, s: RecvSeg, x: int)
    ensures Buffered(Insert(Exact, buf, s), x) <==> Buffered(buf, x) || x == s.sn
  {
    var k := ScanStop(Exact, buf, s.sn) + 1;
    var b := Insert(Exact, buf, s);
    if b == buf {
      assert k > 0 && buf[k - 1].sn == s.sn;
    } else {
      assert b[k].sn == s.sn;
      if Buffered(buf, x) {
        var i :| 0 <= i < |buf| && buf[i].sn == x;
        assert b[if i < k then i else i + 1].sn == x;
      }
      if Buffered(b, x) && x != s.sn {
        var i :| 0 <= i < |b| && b[i].sn == x;
        assert buf[if i < k then i else i - 1].sn == x;
      }
    }
  }

  /** Promotion moves the longest in-order prefix of `rcv_buf` that `rcv_queue` has room
      for. */
  lemma {:induction false} PromotePrefix(r: Receiver, wnd: nat) returns (m: nat)
    ensures m <= |r.buf|
    ensures var t := Promote(Exact, r, wnd);
      && t.nxt == r.nxt + m && t.buf == r.buf[m..] && t.queue == r.queue + r.buf[..m]
      && (forall i :: 0 <= i < m ==> r.buf[i].sn == r.nxt + i)
      && (m > 0 ==> |t.queue| <= wnd)
      && (t.buf != [] && t.buf[0].sn == t.nxt ==> |t.queue| >= wnd)
    decreases |r.buf|
  {
    if r.buf != [] && r.buf[0].sn == r.nxt && |r.queue| < wnd {
      var r1 := Receiver(r.nxt + 1, r.buf[1..], r.queue + [r.buf[0]]);
      assert Promote(Exact, r, wnd) == Promote(Exact, r1, wnd);
      hide Promote;
      var j := PromotePrefix(r1, wnd);
      m := j + 1;
      FirstMoves(r.buf, r.queue, j);
      forall i | 0 <= i < m ensures r.buf[i].sn == r.nxt + i {
        if i > 0 { assert r1.buf[i - 1].sn == r1.nxt + (i - 1); }
      }
    } else {
      m := 0;
      assert r.queue + r.buf[..0] == r.queue;
    }
  }

  lemma FirstMoves(buf: seq<RecvSeg>, queue: seq<RecvSeg>, j: nat)
    requires j < |buf|
    ensures buf[1..][j..] == buf[j + 1..] && (queue + [buf[0]]) + buf[1..][..j] == queue + buf[..j + 1]
  {
  }

  /** Promotion settles an ordered receiving half. */
  lemma PromoteShape(r: Receiver, wnd: nat)
    requires ReceiverOrder(r, wnd)
    ensures ReceiverShape(Promote(Exact, r, wnd), wnd)
    ensures r.nxt <= Promote(Exact, r, wnd).nxt
    ensures var t := Promote(Exact, r, wnd); t.nxt - |t.queue| == r.nxt - |r.queue|
  {
    hide Promote, Ordered;
    var m := PromotePrefix(r, wnd);
    OrderedRest(r.buf, m, r.nxt, wnd);
    MovedNumbers(r, m);
  }

  /** What is left of an ordered buffer when its first `m` segments, numbered from `nxt`, go. */
  lemma OrderedRest(buf: seq<RecvSeg>, m: nat, nxt: int, wnd: nat)
    requires Ordered(buf) && m <= |buf| && forall i :: 0 <= i < m ==> buf[i].sn == nxt + i
    requires forall i :: 0 <= i < |buf| ==> nxt <= buf[i].sn < nxt + wnd
    ensures Ordered(buf[m..]) && forall i :: 0 <= i < |buf| - m ==> nxt + m <= buf[m..][i].sn < nxt + m + wnd
  {
    forall i | 0 <= i < |buf| - m ensures nxt + m <= buf[m..][i].sn < nxt + m + wnd {
      if m > 0 { assert buf[m - 1].sn < buf[m + i].sn; }
    }
  }

  lemma MovedNumbers(r: Receiver, m: nat)
    requires m <= |r.buf| && forall i :: 0 <= i < m ==> r.buf[i].sn == r.nxt + i
    requires forall i :: 0 <= i < |r.queue| ==> r.queue[i].sn == r.nxt - |r.queue| + i
    ensures var q := r.queue + r.buf[..m]; forall i :: 0 <= i < |q| ==> q[i].sn == r.nxt + m - |q| + i
  {
  }

  /** Promotion does not change the numbers held. */
  lemma PromoteHolds(r: Receiver, wnd: nat)
    ensures forall x :: Holds(Promote(Exact, r, wnd), x) <==> Holds(r, x)
  {
    hide Promote;
    var m := PromotePrefix(r, wnd);
    var t := Promote(Exact, r, wnd);
    forall x ensures Holds(t, x) <==> Holds(r, x) {
      if Buffered(r.buf, x) {
        var i :| 0 <= i < |r.buf| && r.buf[i].sn == x;
        if i >= m { assert t.buf[i - m].sn == x; }
      }
      if Buffered(t.buf, x) {
        var i :| 0 <= i < |t.buf| && t.buf[i].sn == x;
        assert r.buf[m + i].sn == x;
      }
      if r.nxt <= x < t.nxt { assert r.buf[x - r.nxt].sn == x; }
    }
  }

  /** The out-of-order buffer agrees with a plain set: taking in segment `sn` adds `sn` to
      the numbers held when it lies in the window, and changes nothing else. */
  lemma TakeDataShape(r: Receiver, wnd: nat, s: RecvSeg)
    requires ReceiverShape(r, wnd)
    ensures ReceiverShape(TakeData(Exact, r, wnd, s), wnd)
    ensures r.nxt <= TakeData(Exact, r, wnd, s).nxt
    ensures var t := TakeData(Exact, r, wnd, s); t.nxt - |t.queue| == r.nxt - |r.queue|
    ensures forall x :: Holds(TakeData(Exact, r, wnd, s), x) <==>
              Holds(r, x) || (x == s.sn && r.nxt <= s.sn < r.nxt + wnd)
  {
    hide Promote, Insert, Ordered, Buffered;
    if r.nxt <= s.sn < r.nxt + wnd {
      var r1 := Inserted(r, wnd, s);
      PromoteShape(r1, wnd);
      PromoteHolds(r1, wnd);
    }
  }

  /** What has been taken in is never replaced: every segment held stays as it came, in
      `rcv_buf` or at its place in `rcv_queue`, whatever else arrives under its number. */
  lemma FirstCopyStays(r: Receiver, wnd: nat, s: RecvSeg)
    ensures var t := TakeData(Exact, r, wnd, s);
      && r.queue <= t.queue
      && (forall x :: x in r.buf ==> x in t.buf || x in t.queue)
      && (forall x :: x in t.buf || x in t.queue ==> x in r.buf || x in r.queue || x == s)
      && |t.buf| + |t.queue| <= |r.buf| + |r.queue| + 1
  {
    hide Promote, Insert;
    if InWindow(Exact, r, wnd, s.sn) {
      InsertKeeps(r.buf, s);
      PromoteKeeps(r.(buf := Insert(Exact, r.buf, s)), wnd);
    }
  }

  lemma InsertKeeps(buf: seq<RecvSeg>, s: RecvSeg)
    ensures var t := Insert(Exact, buf, s);
      && (forall x :: x in buf ==> x in t) && (forall x :: x in t ==> x in buf || x == s) && |t| <= |buf| + 1
  {
    hide ScanStop;
    var p := ScanStop(Exact, buf, s.sn);
    assert buf == buf[..p + 1] + buf[p + 1..];
  }

  lemma PromoteKeeps(r: Receiver, wnd: nat)
    ensures var t := Promote(Exact, r, wnd);
      && r.queue <= t.queue && |t.buf| + |t.queue| == |r.buf| + |r.queue|
      && (forall x :: x in r.buf ==> x in t.buf || x in t.queue)
      && (forall x :: x in t.buf || x in t.queue ==> x in r.buf || x in r.queue)
  {
    hide Promote;
    var m := PromotePrefix(r, wnd);
    assert r.buf == r.buf[..m] + r.buf[m..];
  }

  lemma Inserted(r: Receiver, wnd: nat, s: RecvSeg) returns (r1: Receiver)
    requires ReceiverOrder(r, wnd) && r.nxt <= s.sn < r.nxt + wnd
    ensures r1 == r.(buf := Insert(Exact, r.buf, s)) && ReceiverOrder(r1, wnd)
    ensures forall x :: Holds(r1, x) <==> Holds(r, x) || x == s.sn
  {
    r1 := r.(buf := Insert(Exact, r.buf, s));
    InsertOrdered(r.buf, s);
    InsertElements(Exact, r.buf, s);
    forall i | 0 <= i < |r1.buf| ensures r.nxt <= r1.buf[i].sn < r.nxt + wnd {
      assert r1.buf[i] in r.buf || r1.buf[i] == s;
    }
    forall x ensures Buffered(r1.buf, x) <==> Buffered(r.buf, x) || x == s.sn {
      InsertBuffered(r.buf, s, x);
    }
  }

  /** `rcv_nxt` is the smallest number not yet received, unless `rcv_queue` is full. */
  lemma NextIsLeastMissing(r: Receiver, wnd: nat)
    requires ReceiverShape(r, wnd)
    ensures forall x :: x < r.nxt ==> Holds(r, x)
    ensures |r.queue| < wnd ==> !Holds(r, r.nxt)
    ensures |r.buf| <= wnd && |r.queue| <= wnd
  {
    BufferBounded(r.buf, r.nxt, r.nxt + wnd);
    if Buffered(r.buf, r.nxt) {
      var i :| 0 <= i < |r.buf| && r.buf[i].sn == r.nxt;
      assert i == 0;
    }
  }

  /** A receive call keeps the shape; a peek changes nothing. */
  lemma TakeShape(r: Receiver, wnd: nat, len: int)
    requires ReceiverShape(r, wnd)
    ensures ReceiverShape(Take(Exact, r, wnd, len).0, wnd)
    ensures r.nxt <= Take(Exact, r, wnd, len).0.nxt
    ensures forall x :: Holds(Take(Exact, r, wnd, len).0, x) <==> Holds(r, x)
    ensures len < 0 ==> Take(Exact, r, wnd, len).0 == r
  {
    hide Payload;
    var (t, res) := Take(Exact, r, wnd, len);
    if res.Message? {
      var n := MergeCount(r.queue);
      var r1 := if len < 0 then r else r.(queue := r.queue[n..]);
      PromoteShape(r1, wnd);
      PromoteHolds(r1, wnd);
      if len < 0 { var m := PromotePrefix(r, wnd); }
    }
  }

  lemma PayloadNext(q: seq<RecvSeg>, i: nat)
    requires i < |q|
    ensures Payload(q[..i + 1]) == Payload(q[..i]) + q[i].frag.data
  {
    hide Join;
    assert Frags(q[..i + 1]) == Frags(q[..i]) + [q[i].frag];
    JoinConcat(Frags(q[..i]), [q[i].frag]);
    JoinOne(q[i].frag);
  }

  /** Whenever `ikcp_peeksize` gives a size, it is the size of what `ikcp_recv` will merge,
      whatever fragments the queue holds. */
  lemma PeekSizeIsPayload(q: seq<RecvSeg>)
    requires PeekSize(q) >= 0
    ensures PeekSize(q) == |Payload(q[..MergeCount(q)])|
  {
    if q[0].frag.frg == 0 {
      PayloadNext(q, 0);
      assert q[..0] == [];
      assert Frags(q[..0]) == [];
    }
  }

  /** In every state, also after hostile input: what a receive call copies is as long as
      `ikcp_peeksize` said, and fits the caller's buffer. */
  lemma TakeFits(a: Arith, r: Receiver, wnd: nat, len: int)
    ensures var res := Take(a, r, wnd, len).1;
      res.Message? ==> |res.msg| == PeekSize(r.queue) <= if len < 0 then -len else len
  {
    hide Promote, PeekSize, Payload;
    if PeekSize(r.queue) >= 0 {
      PeekSizeIsPayload(r.queue);
    }
  }
}
