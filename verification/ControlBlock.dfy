/** The queues of the control block as what they are in memory: four linked lists, threaded
    through segments that move between them, with the counters beside them. Every operation
    of util/ikcp.c on them keeps the four lists well linked and disjoint, and does to their
    contents what the engine specifies. */
module ControlBlock {
  import opened SerialNumbers
  import opened Segments
  import opened SendSide
  import opened RecvSide
  import opened LinkedQueue

  type Seg = Node<SendSeg>

  const BLANK := SendSeg(0, Frag(0, []), 0, 0, 0, 0)

  /** A list head with the nodes that hang on it. */
  class List {
    const head: Seg
    ghost var nodes: seq<Seg>
    ghost var Repr: set<object>

    ghost predicate Valid()
      reads this, Repr
      ensures Valid() ==> this in Repr
    {
      && this in Repr && head in Repr && (forall i :: 0 <= i < |nodes| ==> nodes[i] in Repr)
      && (forall x :: x in Repr ==> x == this || x == head || x in nodes)
      && Ring(head, nodes)
    }

    ghost function Held(): (r: seq<SendSeg>)
      requires Valid()
      reads this, Repr
    {
      Items(nodes)
    }

    constructor ()
      ensures Valid() && fresh(Repr) && Held() == []
    {
      var h := new Node(BLANK);
      Init(h);
      head := h;
      nodes := [];
      Repr := {this, h};
    }

    /** Account for a list whose nodes are now `xs`. */
    ghost method Relink(xs: seq<Seg>)
      requires Ring(head, xs) && (this as object) != head && forall i :: 0 <= i < |xs| ==> (this as object) != xs[i]
      modifies this
      ensures Valid() && nodes == xs && Held() == Items(xs)
      ensures forall x :: x in Repr <==> x == this || x == head || x in xs
    {
      hide Ring;
      nodes := xs;
      Repr := {this, head} + set x: Seg | x in xs;
    }

    /** A new segment at the end. */
    method Append(frag: Frag)
      requires Valid()
      modifies Repr
      ensures Valid() && fresh(Repr - old(Repr)) && Held() == old(Held()) + [BLANK.(frag := frag)]
    {
      hide Ring;
      var node := new Node(BLANK.(frag := frag));
      AddLast(node, head, nodes);
      Relink(nodes + [node]);
    }

    /** The first segment, if there is one. */
    method First() returns (some: bool, item: SendSeg)
      requires Valid()
      ensures some <==> Held() != []
      ensures some ==> item == Held()[0]
    {
      hide Ring;
      RingStep(head, nodes, 0);
      var p := head.next;
      some, item := p != head, p.item;
    }

    /** The admission loop of `ikcp_flush`, from this list to another. */
    method AdmitTo(to: List, una: int, nxt0: int, cwnd: nat, now: u32, rto: u32) returns (nxt: int, moved: nat)
      requires Valid() && to.Valid() && Repr !! to.Repr
      modifies Repr, to.Repr
      ensures Valid() && to.Valid() && Repr !! to.Repr && Repr + to.Repr == old(Repr + to.Repr)
      ensures |Held()| == |old(Held())| - moved && |to.Held()| == |old(to.Held())| + moved
      ensures Sender(una, nxt, Waiting(Held()), to.Held()) ==
        Admit(Wrapped, Sender(una, nxt0, old(Waiting(Held())), old(to.Held())), cwnd, now, rto)
    {
      hide Ring, Apart, Waiting, Admit, Items;
      ListsApart(head, nodes, Repr, to.head, to.nodes, to.Repr);
      ghost var xs, ys := nodes, to.nodes;
      nxt, moved := AdmitNodes(head, to.head, una, nxt0, cwnd, now, rto, xs, ys);
      Relink(xs[moved..]);
      to.Relink(ys + xs[..moved]);
      StayDisjoint(head, xs, to.head, ys, moved, this, to, Repr, to.Repr);
    }

    /** The loop of `ikcp_parse_una`. */
    method DropUna(una: u32) returns (gone: nat)
      requires Valid()
      modifies Repr
      ensures Valid() && Repr <= old(Repr) && |Held()| == |old(Held())| - gone
      ensures Held() == DropBefore(Wrapped, old(Held()), una)
    {
      hide Ring, DropBefore;
      ghost var rest;
      gone, rest := ParseUna(head, una, nodes);
      Relink(rest);
    }

    /** The loop of `ikcp_parse_ack`. */
    method RemoveSn(sn: u32) returns (found: bool)
      requires Valid()
      modifies Repr
      ensures Valid() && Repr <= old(Repr) && |Held()| == |old(Held())| - if found then 1 else 0
      ensures Held() == Remove(old(Held()), sn)
    {
      hide Ring, Remove;
      ghost var rest;
      found, rest := ParseAck(head, sn, nodes);
      Relink(rest);
    }

    /** The data loop of `ikcp_flush`, as far as it writes to segments. */
    method Rewrite(tx: Tx)
      requires Valid()
      modifies Repr
      ensures Valid() && Repr <= old(Repr) && Held() == TransmitAll(tx, old(Held()))
    {
      hide Ring, TransmitAll;
      TransmitNodes(head, tx, nodes);
    }

    /** The scan and the insertion of `ikcp_parse_data`, with a segment of its own. */
    method InsertSeg(sn: int, frag: Frag) returns (inserted: bool)
      requires Valid()
      modifies Repr
      ensures Valid() && fresh(Repr - old(Repr)) && |Held()| == |old(Held())| + if inserted then 1 else 0
      ensures Arrived(Held()) == Insert(Wrapped, old(Arrived(Held())), RecvSeg(sn, frag))
    {
      hide Ring, Insert, Arrived;
      var node := new Node(BLANK.(sn := sn, frag := frag));
      ghost var rest;
      inserted, rest := InsertScan(head, node, nodes);
      Relink(rest);
    }

    /** The loop that moves ready segments, from this list to another. */
    method MoveTo(to: List, nxt0: int, nque0: nat, wnd: nat) returns (nxt: int, nque: nat, moved: nat)
      requires Valid() && to.Valid() && Repr !! to.Repr && nque0 == |to.Held()|
      modifies Repr, to.Repr
      ensures Valid() && to.Valid() && Repr !! to.Repr && Repr + to.Repr == old(Repr + to.Repr)
      ensures |Held()| == |old(Held())| - moved && nque == |to.Held()|
      ensures Receiver(nxt, Arrived(Held()), Arrived(to.Held())) ==
        Promote(Wrapped, Receiver(nxt0, old(Arrived(Held())), old(Arrived(to.Held()))), wnd)
    {
      hide Ring, Apart, Arrived, Promote, Items;
      ListsApart(head, nodes, Repr, to.head, to.nodes, to.Repr);
      ghost var xs, ys := nodes, to.nodes;
      nxt, nque, moved := MoveReady(head, to.head, nxt0, nque0, wnd, xs, ys);
      Relink(xs[moved..]);
      to.Relink(ys + xs[..moved]);
      StayDisjoint(head, xs, to.head, ys, moved, this, to, Repr, to.Repr);
    }

    /** `ikcp_peeksize`. */
    method PeekSize(nque: nat) returns (size: int)
      requires Valid() && nque == |Held()|
      ensures size == RecvSide.PeekSize(Arrived(Held()))
    {
      hide Ring, Arrived, RecvSide.PeekSize;
      size := PeekNodes(head, nque, nodes);
    }

    /** The merge loop of `ikcp_recv`. */
    method Merge(ispeek: bool) returns (msg: Bytes, n: nat)
      requires Valid()
      modifies Repr
      ensures Valid() && Repr <= old(Repr) && n == MergeCount(old(Arrived(Held()))) <= |old(Held())|
      ensures msg == Payload(old(Arrived(Held()))[..n])
      ensures Held() == if ispeek then old(Held()) else old(Held())[n..]
    {
      hide Ring, Payload, MergeCount, Arrived;
      msg, n := MergeNodes(head, ispeek, nodes);
      Relink(if ispeek then nodes else nodes[n..]);
    }
  }

  lemma ListsApart(g: Seg, xs: seq<Seg>, r: set<object>, h: Seg, ys: seq<Seg>, s: set<object>)
    requires r !! s && g in r && h in s
    requires forall i :: 0 <= i < |xs| ==> xs[i] in r
    requires forall i :: 0 <= i < |ys| ==> ys[i] in s
    ensures Apart(g, xs, h, ys)
  {
  }

  /** What two lists own when the first `m` nodes of one have moved to the end of the other. */
  lemma StayDisjoint(g: Seg, xs: seq<Seg>, h: Seg, ys: seq<Seg>, m: nat, a: List, b: List,
                     r: set<object>, s: set<object>)
    requires m <= |xs| && Apart(g, xs[m..], h, ys + xs[..m]) && a != b
    requires forall x :: x in r <==> x == a || x == g || x in xs[m..]
    requires forall x :: x in s <==> x == b || x == h || x in ys + xs[..m]
    ensures r !! s
    ensures forall x :: x in r + s <==> x == a || x == b || x == g || x == h || x in xs || x in ys
  {
    forall x | x in xs ensures x in xs[m..] || x in ys + xs[..m] {
      var i :| 0 <= i < |xs| && xs[i] == x;
      if i < m { assert (ys + xs[..m])[|ys| + i] == x; } else { assert xs[m..][i - m] == x; }
    }
  }

  // ----- the four lists -----------------------------------------------------------------------------

  class Queues {
    const sndQueue: List
    const sndBuf: List
    const rcvBuf: List
    const rcvQueue: List
    var sndUna: int
    var sndNxt: int
    var rcvNxt: int
    var nsndQue: nat
    var nsndBuf: nat
    var nrcvBuf: nat
    var nrcvQue: nat

    /** Four rings, no two of which have a node in common, and the right counts. */
    ghost predicate Valid()
      reads this, sndQueue, sndQueue.Repr, sndBuf, sndBuf.Repr, rcvBuf, rcvBuf.Repr, rcvQueue, rcvQueue.Repr
    {
      && sndQueue.Valid() && sndBuf.Valid() && rcvBuf.Valid() && rcvQueue.Valid()
      && this !in sndQueue.Repr && this !in sndBuf.Repr && this !in rcvBuf.Repr && this !in rcvQueue.Repr
      && sndQueue.Repr !! sndBuf.Repr && sndQueue.Repr !! rcvBuf.Repr && sndQueue.Repr !! rcvQueue.Repr
      && sndBuf.Repr !! rcvBuf.Repr && sndBuf.Repr !! rcvQueue.Repr && rcvBuf.Repr !! rcvQueue.Repr
      && nsndQue == |sndQueue.Held()| && nsndBuf == |sndBuf.Held()|
      && nrcvBuf == |rcvBuf.Held()| && nrcvQue == |rcvQueue.Held()|
    }

    /** The sending half the lists stand for. */
    ghost function Snd(): Sender
      requires sndQueue.Valid() && sndBuf.Valid()
      reads this, sndQueue, sndQueue.Repr, sndBuf, sndBuf.Repr
    {
      Sender(sndUna, sndNxt, Waiting(sndQueue.Held()), sndBuf.Held())
    }

    /** The receiving half the lists stand for. */
    ghost function Rcv(): Receiver
      requires rcvBuf.Valid() && rcvQueue.Valid()
      reads this, rcvBuf, rcvBuf.Repr, rcvQueue, rcvQueue.Repr
    {
      Receiver(rcvNxt, Arrived(rcvBuf.Held()), Arrived(rcvQueue.Held()))
    }

    /** The queue part of `ikcp_create`. */
    constructor ()
      ensures Valid() && Snd() == SendSide.EMPTY && Rcv() == RecvSide.EMPTY
    {
      hide List.Valid, List.Held;
      sndQueue := new List();
      sndBuf := new List();
      rcvBuf := new List();
      rcvQueue := new List();
      sndUna, sndNxt, rcvNxt := 0, 0, 0;
      nsndQue, nsndBuf, nrcvBuf, nrcvQue := 0, 0, 0, 0;
    }

    // ----- the sending lists ---------------------------------------------------------------------

    /** `ikcp_send`. */
    method Send(mss: nat, msg: Bytes) returns (code: int)
      requires Valid() && mss > 0
      modifies this`nsndQue, sndQueue.Repr
      ensures Valid() && Rcv() == old(Rcv()) && code == (if Sendable(mss, msg) then 0 else -2)
      ensures Snd() == if Sendable(mss, msg) then Enqueue(mss, old(Snd()), msg) else old(Snd())
    {
      hide Split, Snd, Rcv, List.Valid, List.Held;
      var count := if |msg| <= mss then 1 else (|msg| + mss - 1) / mss;
      assert count == FragCount(mss, |msg|);
      if count > 255 { return -2; }
      hide FragCount;
      ghost var s0 := Snd();
      var i, rest := 0, msg;
      while i < count
        invariant 0 <= i <= count && Valid() && Rcv() == old(Rcv())
        invariant fresh(sndQueue.Repr - old(sndQueue.Repr))
        invariant Snd() == s0.(queue := Snd().queue)
        invariant Snd().queue + Split(mss, rest, count - i) == s0.queue + Split(mss, msg, count)
      {
        var size := if |rest| > mss then mss else |rest|;
        ghost var before := Snd().queue;
        var frag := Frag(count - i - 1, rest[..size]);
        SplitNext(mss, rest, count - i);
        AppendFrag(frag);
        ConcatAssoc(before, [frag], Split(mss, rest[size..], count - i - 1));
        rest := rest[size..];
        i := i + 1;
      }
      assert Snd().queue + Split(mss, rest, 0) == Snd().queue;
      code := 0;
    }

    /** A new segment at the end of `snd_queue`. */
    method AppendFrag(frag: Frag)
      requires Valid()
      modifies this`nsndQue, sndQueue.Repr
      ensures Valid() && Snd() == old(Snd()).(queue := old(Snd()).queue + [frag]) && Rcv() == old(Rcv())
      ensures fresh(sndQueue.Repr - old(sndQueue.Repr))
    {
      hide List.Valid, List.Held, Arrived;
      sndQueue.Append(frag);
      nsndQue := nsndQue + 1;
      assert Snd().queue == old(Snd()).queue + [frag];
    }

    /** The admission loop of `ikcp_flush`. */
    method Admit(cwnd: nat, now: u32, rto: u32)
      requires Valid()
      modifies this`sndNxt, this`nsndQue, this`nsndBuf, sndQueue.Repr, sndBuf.Repr
      ensures Valid() && Snd() == SendSide.Admit(Wrapped, old(Snd()), cwnd, now, rto) && Rcv() == old(Rcv())
    {
      hide List.Valid, List.Held, Arrived, Waiting, SendSide.Admit;
      var nxt, moved := sndQueue.AdmitTo(sndBuf, sndUna, sndNxt, cwnd, now, rto);
      sndNxt := nxt;
      nsndQue, nsndBuf := nsndQue - moved, nsndBuf + moved;
    }

    /** `ikcp_shrink_buf`. */
    method ShrinkBuf()
      requires Valid()
      modifies this`sndUna
      ensures Valid() && Snd() == Shrink(old(Snd())) && Rcv() == old(Rcv())
    {
      hide List.Valid, List.Held, Arrived, Waiting;
      var some, item := sndBuf.First();
      sndUna := if some then item.sn else sndNxt;
    }

    /** `ikcp_parse_una` and `ikcp_shrink_buf`. */
    method TakeUna(una: u32)
      requires Valid()
      modifies this`sndUna, this`nsndBuf, sndBuf.Repr
      ensures Valid() && Snd() == SendSide.TakeUna(Wrapped, old(Snd()), una) && Rcv() == old(Rcv())
    {
      hide List.Valid, List.Held, Arrived, Waiting, DropBefore;
      var gone := sndBuf.DropUna(una);
      nsndBuf := nsndBuf - gone;
      ShrinkBuf();
    }

    /** `ikcp_parse_ack` and `ikcp_shrink_buf`. */
    method TakeAck(sn: u32)
      requires Valid()
      modifies this`sndUna, this`nsndBuf, sndBuf.Repr
      ensures Valid() && Snd() == SendSide.TakeAck(Wrapped, old(Snd()), sn) && Rcv() == old(Rcv())
    {
      hide List.Valid, List.Held, Arrived, Waiting, Remove, TimeDiff;
      if TimeDiff(sn, sndUna) >= 0 && TimeDiff(sn, sndNxt) < 0 {
        var found := sndBuf.RemoveSn(sn);
        nsndBuf := if found then nsndBuf - 1 else nsndBuf;
      }
      ShrinkBuf();
    }

    /** What the data loop of `ikcp_flush` writes. */
    method Transmit(tx: Tx)
      requires Valid()
      modifies sndBuf.Repr
      ensures Valid() && Snd() == old(Snd()).(buf := TransmitAll(tx, old(Snd()).buf)) && Rcv() == old(Rcv())
    {
      hide List.Valid, List.Held, Arrived, Waiting, TransmitAll;
      sndBuf.Rewrite(tx);
    }

    // ----- the receiving lists -------------------------------------------------------------------

    /** The loop that moves ready segments from `rcv_buf` to `rcv_queue`. */
    method MoveToQueue(wnd: nat)
      requires Valid()
      modifies this`rcvNxt, this`nrcvBuf, this`nrcvQue, rcvBuf.Repr, rcvQueue.Repr
      ensures Valid() && Rcv() == Promote(Wrapped, old(Rcv()), wnd) && Snd() == old(Snd())
    {
      hide List.Valid, List.Held, Arrived, Waiting, Promote;
      var nxt, nque, moved := rcvBuf.MoveTo(rcvQueue, rcvNxt, nrcvQue, wnd);
      rcvNxt, nrcvQue, nrcvBuf := nxt, nque, nrcvBuf - moved;
    }

    /** `ikcp_parse_data`. */
    method ParseData(wnd: nat, sn: int, frag: Frag)
      requires Valid()
      modifies this`rcvNxt, this`nrcvBuf, this`nrcvQue, rcvBuf.Repr, rcvQueue.Repr
      ensures Valid() && Rcv() == TakeData(Wrapped, old(Rcv()), wnd, RecvSeg(sn, frag)) && Snd() == old(Snd())
    {
      hide List.Valid, List.Held, Arrived, Waiting, Promote, Insert, TimeDiff, U32;
      if TimeDiff(sn, U32(rcvNxt + wnd)) >= 0 || TimeDiff(sn, rcvNxt) < 0 { return; }
      var inserted := rcvBuf.InsertSeg(sn, frag);
      nrcvBuf := if inserted then nrcvBuf + 1 else nrcvBuf;
      MoveToQueue(wnd);
    }

    /** `ikcp_recv`, the window announcement aside. */
    method Recv(wnd: nat, len: int) returns (res: RecvResult)
      requires Valid()
      modifies this`rcvNxt, this`nrcvBuf, this`nrcvQue, rcvBuf.Repr, rcvQueue.Repr
      ensures Valid() && Snd() == old(Snd()) && (Rcv(), res) == Take(Wrapped, old(Rcv()), wnd, len)
    {
      hide List.Valid, List.Held, Waiting, Payload, MergeCount, Promote, RecvSide.PeekSize;
      var some, item := rcvQueue.First();
      if !some { return Again(-1); }
      var room := if len < 0 then -len else len;
      var size := rcvQueue.PeekSize(nrcvQue);
      if size < 0 { return Again(-2); }
      if size > room { return Again(-3); }
      ghost var items := rcvQueue.Held();
      var msg, n := rcvQueue.Merge(len < 0);
      if len >= 0 {
        nrcvQue := nrcvQue - n;
        assert Arrived(items[n..]) == Arrived(items)[n..];
      }
      MoveToQueue(wnd);
      res := Message(msg);
    }
  }
}
