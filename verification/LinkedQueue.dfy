/** The intrusive circular doubly linked lists of util/ikcp.h, and the traversals that
    util/ikcp.c makes over them. A list head is a node whose item is never looked at. The
    source has one record type for the segments of all four lists; here it is `SendSeg`, of
    which the receiving lists read `sn` and `frag` and `snd_queue` reads `frag`. */
module LinkedQueue {
  import opened SerialNumbers
  import opened Segments
  import opened SendSide
  import opened RecvSide
  import opened Shape

  class Node<T> {
    var next: Node?<T>
    var prev: Node?<T>
    var item: T

    constructor (x: T)
      ensures item == x && next == null && prev == null
    {
      item := x;
      next, prev := null, null;
    }
  }

  /** Position `k` of a ring: the head is at 0 and again past the last node. */
  ghost function Elem<T>(head: Node<T>, nodes: seq<Node<T>>, k: int): Node<T>
    requires 0 <= k <= |nodes| + 1
  {
    if 1 <= k <= |nodes| then nodes[k - 1] else head
  }

  ghost predicate Distinct<T>(head: Node<T>, nodes: seq<Node<T>>) {
    && head !in nodes
    && forall i, j :: 0 <= i < j < |nodes| ==> nodes[i] != nodes[j]
  }

  /** `head` and `nodes` form a ring: `next` and `prev` lead around it and are inverse. */
  ghost predicate Ring<T>(head: Node<T>, nodes: seq<Node<T>>)
    reads head, nodes
  {
    && Distinct(head, nodes)
    && (forall k {:trigger Elem(head, nodes, k).next} :: 0 <= k <= |nodes| ==>
         Elem(head, nodes, k).next == Elem(head, nodes, k + 1))
    && (forall k {:trigger Elem(head, nodes, k).prev} :: 1 <= k <= |nodes| + 1 ==>
         Elem(head, nodes, k).prev == Elem(head, nodes, k - 1))
  }

  /** The contents of a list, in order. */
  ghost function Items<T>(nodes: seq<Node<T>>): (r: seq<T>)
    reads nodes
    ensures |r| == |nodes|
    ensures forall i :: 0 <= i < |nodes| ==> r[i] == nodes[i].item
  {
    seq(|nodes|, i requires 0 <= i < |nodes| reads nodes => nodes[i].item)
  }

  /** What the receiving half reads of the records in a list. */
  ghost function Arrived(items: seq<SendSeg>): (r: seq<RecvSeg>)
    ensures |r| == |items|
    ensures forall i :: 0 <= i < |r| ==> r[i] == RecvSeg(items[i].sn, items[i].frag)
  {
    seq(|items|, i requires 0 <= i < |items| => RecvSeg(items[i].sn, items[i].frag))
  }

  /** What is read of the records in `snd_queue`. */
  ghost function Waiting(items: seq<SendSeg>): (r: seq<Frag>)
    ensures |r| == |items|
    ensures forall i :: 0 <= i < |r| ==> r[i] == items[i].frag
  {
    seq(|items|, i requires 0 <= i < |items| => items[i].frag)
  }

  /** Different positions hold different nodes, except that the head is at both ends. */
  lemma PositionsDiffer<T>(head: Node<T>, nodes: seq<Node<T>>, i: int, j: int)
    requires Distinct(head, nodes) && 0 <= i <= |nodes| + 1 && 0 <= j <= |nodes| + 1 && i != j
    requires !(i == 0 && j == |nodes| + 1) && !(j == 0 && i == |nodes| + 1)
    ensures Elem(head, nodes, i) != Elem(head, nodes, j)
  {
  }

  lemma ElemInsert<T>(head: Node<T>, nodes: seq<Node<T>>, k: nat, node: Node<T>, j: int)
    requires k <= |nodes| && 0 <= j <= |nodes| + 2
    ensures Elem(head, nodes[..k] + [node] + nodes[k..], j) ==
      if j <= k then Elem(head, nodes, j) else if j == k + 1 then node else Elem(head, nodes, j - 1)
  {
  }

  lemma ElemDelete<T>(head: Node<T>, nodes: seq<Node<T>>, k: nat, j: int)
    requires k < |nodes| && 0 <= j <= |nodes|
    ensures Elem(head, nodes[..k] + nodes[k + 1..], j) ==
      if j <= k then Elem(head, nodes, j) else Elem(head, nodes, j + 1)
  {
  }

  lemma RingStep<T>(head: Node<T>, nodes: seq<Node<T>>, k: nat)
    requires Ring(head, nodes) && k <= |nodes|
    ensures Elem(head, nodes, k).next == Elem(head, nodes, k + 1)
    ensures Elem(head, nodes, k + 1).prev == Elem(head, nodes, k)
    ensures Elem(head, nodes, k + 1) == head <==> k == |nodes|
    ensures k > 0 ==> Elem(head, nodes, k) != head
  {
  }

  lemma RingDistinct<T>(head: Node<T>, nodes: seq<Node<T>>)
    requires Ring(head, nodes)
    ensures Distinct(head, nodes)
  {
  }

  /** `IQUEUE_INIT`. */
  method Init<T>(head: Node<T>)
    modifies head
    ensures Ring(head, [])
    ensures head.item == old(head.item)
  {
    head.next := head;
    head.prev := head;
  }

  /** `IQUEUE_ADD` after position `k` of a ring. */
  method Add<T>(node: Node<T>, at: Node<T>, head: Node<T>, ghost nodes: seq<Node<T>>, ghost k: nat)
    requires Ring(head, nodes) && k <= |nodes| && at == Elem(head, nodes, k)
    requires node != head && node !in nodes
    modifies node, at, Elem(head, nodes, k + 1)
    ensures Ring(head, nodes[..k] + [node] + nodes[k..])
    ensures forall n :: n in nodes || n == node || n == head ==> n.item == old(n.item)
  {
    assert at.next == Elem(head, nodes, k + 1);
    node.prev := at;
    node.next := at.next;
    at.next.prev := node;
    at.next := node;
    ghost var nodes' := nodes[..k] + [node] + nodes[k..];
    forall j | 0 <= j <= |nodes'| ensures Elem(head, nodes', j).next == Elem(head, nodes', j + 1) {
      ElemInsert(head, nodes, k, node, j);
      ElemInsert(head, nodes, k, node, j + 1);
      var i := if j <= k then j else j - 1;
      assert old(Elem(head, nodes, i).next) == Elem(head, nodes, i + 1);
      if i != k { PositionsDiffer(head, nodes, i, k); }
    }
    forall j | 1 <= j <= |nodes'| + 1 ensures Elem(head, nodes', j).prev == Elem(head, nodes', j - 1) {
      ElemInsert(head, nodes, k, node, j);
      ElemInsert(head, nodes, k, node, j - 1);
      var i := if j <= k then j else j - 1;
      assert i >= 1 ==> old(Elem(head, nodes, i).prev) == Elem(head, nodes, i - 1);
      if i >= 1 && i != k + 1 { PositionsDiffer(head, nodes, i, k + 1); }
    }
  }

  /** `IQUEUE_DEL`. */
  method Del<T>(entry: Node<T>, head: Node<T>, ghost nodes: seq<Node<T>>, ghost k: nat)
    requires Ring(head, nodes) && k < |nodes| && entry == nodes[k]
    modifies entry, Elem(head, nodes, k), Elem(head, nodes, k + 2)
    ensures Ring(head, nodes[..k] + nodes[k + 1..])
    ensures entry.next == null && entry.prev == null
    ensures forall n :: n in nodes || n == head ==> n.item == old(n.item)
  {
    assert entry == Elem(head, nodes, k + 1);
    assert entry.next == Elem(head, nodes, k + 2) && entry.prev == Elem(head, nodes, k);
    entry.next.prev := entry.prev;
    entry.prev.next := entry.next;
    entry.next := null;
    entry.prev := null;
    ghost var nodes' := nodes[..k] + nodes[k + 1..];
    forall j | 0 <= j <= |nodes'| ensures Elem(head, nodes', j).next == Elem(head, nodes', j + 1) {
      ElemDelete(head, nodes, k, j);
      ElemDelete(head, nodes, k, j + 1);
      var i := if j <= k then j else j + 1;
      assert old(Elem(head, nodes, i).next) == Elem(head, nodes, i + 1);
      if i != k { PositionsDiffer(head, nodes, i, k); }
      PositionsDiffer(head, nodes, i, k + 1);
    }
    forall j | 1 <= j <= |nodes'| + 1 ensures Elem(head, nodes', j).prev == Elem(head, nodes', j - 1) {
      ElemDelete(head, nodes, k, j);
      ElemDelete(head, nodes, k, j - 1);
      var i := if j <= k then j else j + 1;
      assert old(Elem(head, nodes, i).prev) == Elem(head, nodes, i - 1);
      if i != k + 2 { PositionsDiffer(head, nodes, i, k + 2); }
      PositionsDiffer(head, nodes, i, k + 1);
    }
  }

  /** `IQUEUE_ADD_TAIL`. */
  method AddTail<T>(node: Node<T>, head: Node<T>, ghost nodes: seq<Node<T>>)
    requires Ring(head, nodes) && node != head && node !in nodes
    modifies node, head, Elem(head, nodes, |nodes|)
    ensures Ring(head, nodes + [node])
    ensures forall n :: n in nodes || n == node || n == head ==> n.item == old(n.item)
  {
    ghost var k := |nodes|;
    assert head == Elem(head, nodes, k + 1) && head.prev == Elem(head, nodes, k);
    node.prev := head.prev;
    node.next := head;
    head.prev.next := node;
    head.prev := node;
    ghost var nodes' := nodes + [node];
    assert nodes' == nodes[..k] + [node] + nodes[k..];
    forall j | 0 <= j <= |nodes'| ensures Elem(head, nodes', j).next == Elem(head, nodes', j + 1) {
      ElemInsert(head, nodes, k, node, j);
      ElemInsert(head, nodes, k, node, j + 1);
      var i := if j <= k then j else j - 1;
      assert old(Elem(head, nodes, i).next) == Elem(head, nodes, i + 1);
      if i != k { PositionsDiffer(head, nodes, i, k); }
    }
    forall j | 1 <= j <= |nodes'| + 1 ensures Elem(head, nodes', j).prev == Elem(head, nodes', j - 1) {
      ElemInsert(head, nodes, k, node, j);
      ElemInsert(head, nodes, k, node, j - 1);
      var i := if j <= k then j else j - 1;
      assert i >= 1 ==> old(Elem(head, nodes, i).prev) == Elem(head, nodes, i - 1);
      if i >= 1 && i != k + 1 { PositionsDiffer(head, nodes, i, k + 1); }
    }
  }

  /** The same, in terms of the contents. */
  method AddLast<T>(node: Node<T>, head: Node<T>, ghost nodes: seq<Node<T>>)
    requires Ring(head, nodes) && node != head && node !in nodes
    modifies node, head, nodes
    ensures Ring(head, nodes + [node]) && Items(nodes + [node]) == old(Items(nodes)) + [old(node.item)]
  {
    hide Ring;
    ghost var items := Items(nodes);
    AddTail(node, head, nodes);
    assert Items(nodes + [node]) == items + [node.item];
  }

  /** `IQUEUE_IS_EMPTY`. */
  method IsEmpty<T>(head: Node<T>, ghost nodes: seq<Node<T>>) returns (empty: bool)
    requires Ring(head, nodes)
    ensures empty <==> nodes == []
  {
    assert Elem(head, nodes, 0).next == Elem(head, nodes, 1);
    empty := head == head.next;
  }

  // ----- deleting while traversing -------------------------------------------------------------------

  /** The loop of `ikcp_parse_una` on the list itself. */
  method ParseUna(head: Node<SendSeg>, una: u32, ghost nodes: seq<Node<SendSeg>>)
    returns (gone: nat, ghost rest: seq<Node<SendSeg>>)
    requires Ring(head, nodes)
    modifies head, nodes
    ensures Ring(head, rest) && gone <= |nodes| && rest == nodes[gone..]
    ensures Items(rest) == DropBefore(Wrapped, old(Items(nodes)), una)
  {
    hide TimeDiff, Ring;
    gone, rest := 0, nodes;
    ghost var b := Items(nodes);
    RingStep(head, nodes, 0);
    var p := head.next;
    while p != head
      invariant gone <= |nodes| && rest == nodes[gone..] && Ring(head, rest)
      invariant p == Elem(head, rest, 1)
      invariant DropBefore(Wrapped, Items(rest), una) == DropBefore(Wrapped, b, una)
      decreases |rest|
    {
      RingStep(head, rest, 1);
      assert p == rest[0];
      var next := p.next;
      if TimeDiff(una, p.item.sn) > 0 {
        DelFirst(p, head, rest);
        gone, rest := gone + 1, rest[1..];
      } else {
        break;
      }
      p := next;
    }
    RingStep(head, rest, 0);
  }

  method DelFirst<T>(entry: Node<T>, head: Node<T>, ghost nodes: seq<Node<T>>)
    requires Ring(head, nodes) && nodes != [] && entry == nodes[0]
    modifies head, nodes
    ensures Ring(head, nodes[1..]) && Items(nodes[1..]) == old(Items(nodes))[1..]
    ensures Elem(head, nodes[1..], 1) == Elem(head, nodes, 2)
    ensures entry.item == old(entry.item)
  {
    hide Ring, Elem;
    ghost var items := Items(nodes);
    NothingBefore(nodes);
    NothingBefore(items);
    ElemDelete(head, nodes, 0, 1);
    DelAt(entry, head, nodes, 0);
  }

  lemma NothingBefore<T>(s: seq<T>)
    requires s != []
    ensures s[..0] + s[1..] == s[1..]
  {
  }

  /** The loop of `ikcp_parse_ack` on the list itself. */
  method ParseAck(head: Node<SendSeg>, sn: u32, ghost nodes: seq<Node<SendSeg>>)
    returns (found: bool, ghost rest: seq<Node<SendSeg>>)
    requires Ring(head, nodes)
    modifies head, nodes
    ensures Ring(head, rest)
    ensures if found then exists k :: 0 <= k < |nodes| && rest == nodes[..k] + nodes[k + 1..] else rest == nodes
    ensures Items(rest) == Remove(old(Items(nodes)), sn)
  {
    hide U32, Ring, Remove;
    found, rest := false, nodes;
    ghost var b, i := Items(nodes), 0;
    ghost var cur := b;
    RingStep(head, nodes, 0);
    assert b[0..] == b;
    var p := head.next;
    while p != head
      invariant 0 <= i <= |nodes| && Ring(head, nodes) && p == Elem(head, nodes, i + 1)
      invariant cur == Items(nodes) && cur[i..] == b[i..]
      invariant Remove(b, sn) == cur[..i] + Remove(b[i..], sn)
      decreases |nodes| - i
    {
      RingStep(head, nodes, i);
      RingStep(head, nodes, i + 1);
      var next := p.next;
      SameTail(cur, b, i);
      RemoveNext(b, i, sn);
      if sn == p.item.sn {
        DelAt(p, head, nodes, i);
        found, rest := true, nodes[..i] + nodes[i + 1..];
        return;
      }
      SetItem(p, p.item.(fastack := U32(p.item.fastack + 1)), head, nodes, i);
      RaiseAt(cur, b, i, p.item, Remove(b[i + 1..], sn));
      cur := cur[i := p.item];
      p := next;
      i := i + 1;
    }
    RingStep(head, nodes, i);
    RemoveNone(sn);
    assert b[i..] == [] && cur[..i] + [] == cur;
  }

  lemma SameTail<T>(x: seq<T>, y: seq<T>, i: nat)
    requires i < |x| == |y| && x[i..] == y[i..]
    ensures x[i] == y[i] && x[i + 1..] == y[i + 1..]
  {
    assert x[i] == x[i..][0] && y[i] == y[i..][0];
    assert x[i + 1..] == x[i..][1..] && y[i + 1..] == y[i..][1..];
  }

  method DelAt<T>(entry: Node<T>, head: Node<T>, ghost nodes: seq<Node<T>>, ghost k: nat)
    requires Ring(head, nodes) && k < |nodes| && entry == nodes[k]
    modifies head, nodes
    ensures Ring(head, nodes[..k] + nodes[k + 1..])
    ensures Items(nodes[..k] + nodes[k + 1..]) == old(Items(nodes))[..k] + old(Items(nodes))[k + 1..]
    ensures entry.item == old(entry.item)
  {
    hide Ring;
    ghost var items := Items(nodes);
    Del(entry, head, nodes, k);
    assert Items(nodes[..k] + nodes[k + 1..]) == items[..k] + items[k + 1..];
  }

  /** A write to the record of a node in a list. */
  method SetItem<T>(p: Node<T>, x: T, head: Node<T>, ghost nodes: seq<Node<T>>, ghost i: nat)
    requires Ring(head, nodes) && i < |nodes| && p == nodes[i]
    modifies p`item
    ensures Ring(head, nodes) && Items(nodes) == old(Items(nodes))[i := x] && p.item == x
  {
    ghost var before := Items(nodes);
    p.item := x;
    assert Items(nodes) == before[i := x];
  }

  // ----- scanning backward and inserting ---------------------------------------------------------------

  /** The scan of `ikcp_parse_data`: `p`, at position `k`, is where it stops. */
  method ScanBack(head: Node<SendSeg>, sn: int, ghost nodes: seq<Node<SendSeg>>)
    returns (p: Node<SendSeg>, repeat: bool, ghost k: nat)
    requires Ring(head, nodes)
    ensures k <= |nodes| && p == Elem(head, nodes, k) && ScanStop(Wrapped, Arrived(Items(nodes)), sn) == k - 1
    ensures repeat <==> k > 0 && Arrived(Items(nodes))[k - 1].sn == sn
  {
    hide TimeDiff, Ring;
    ghost var b := Arrived(Items(nodes));
    k := |nodes|;
    RingStep(head, nodes, k);
    assert b[..k] == b;
    p, repeat := head.prev, false;
    while p != head
      invariant 0 <= k <= |nodes| && p == Elem(head, nodes, k) && !repeat
      invariant ScanStop(Wrapped, b, sn) == ScanStop(Wrapped, b[..k], sn)
      decreases k
    {
      RingStep(head, nodes, k - 1);
      assert p == nodes[k - 1] && p.item.sn == b[k - 1].sn;
      assert b[..k][k - 1] == b[k - 1] && b[..k][..k - 1] == b[..k - 1];
      var prev := p.prev;
      if p.item.sn == sn {
        repeat := true;
        break;
      }
      if TimeDiff(sn, p.item.sn) > 0 { break; }
      p := prev;
      k := k - 1;
    }
    if k > 0 { RingStep(head, nodes, k); }
  }

  /** `ikcp_parse_data` up to the insertion, on the list itself. */
  method InsertScan(head: Node<SendSeg>, node: Node<SendSeg>, ghost nodes: seq<Node<SendSeg>>)
    returns (inserted: bool, ghost rest: seq<Node<SendSeg>>)
    requires Ring(head, nodes) && node != head && node !in nodes
    modifies head, nodes, node
    ensures Ring(head, rest)
    ensures inserted ==> exists k :: 0 <= k <= |nodes| && rest == nodes[..k] + [node] + nodes[k..]
    ensures !inserted ==> rest == nodes
    ensures Arrived(Items(rest)) ==
      Insert(Wrapped, old(Arrived(Items(nodes))), RecvSeg(old(node.item.sn), old(node.item.frag)))
  {
    hide Ring, ScanStop;
    ghost var b := Arrived(Items(nodes));
    var p, repeat;
    ghost var k;
    p, repeat, k := ScanBack(head, node.item.sn, nodes);
    inserted := !repeat;
    if repeat {
      rest := nodes;
    } else {
      Add(node, p, head, nodes, k);
      rest := nodes[..k] + [node] + nodes[k..];
      assert Arrived(Items(rest)) == b[..k] + [RecvSeg(node.item.sn, node.item.frag)] + b[k..];
    }
  }

  // ----- moving from one list to another ------------------------------------------------------------------

  /** The loop that moves ready segments from `rcv_buf` to `rcv_queue`, on the two lists: the
      very nodes taken off one are put on the other, and the lists stay disjoint. */
  method MoveReady(bufHead: Node<SendSeg>, queueHead: Node<SendSeg>, nxt0: int, nque0: nat, wnd: nat,
                   ghost buf: seq<Node<SendSeg>>, ghost queue: seq<Node<SendSeg>>)
    returns (nxt: int, nque: nat, m: nat)
    requires Ring(bufHead, buf) && Ring(queueHead, queue) && nque0 == |queue|
    requires Apart(bufHead, buf, queueHead, queue)
    modifies bufHead, buf, queueHead, queue
    ensures m <= |buf| && Ring(bufHead, buf[m..]) && Ring(queueHead, queue + buf[..m])
    ensures Apart(bufHead, buf[m..], queueHead, queue + buf[..m]) && nque == |queue| + m
    ensures Receiver(nxt, Arrived(Items(buf[m..])), Arrived(Items(queue + buf[..m]))) ==
      Promote(Wrapped, Receiver(nxt0, old(Arrived(Items(buf))), old(Arrived(Items(queue)))), wnd)
  {
    hide Ring, U32, Apart, Promote, Arrived, Items, Elem;
    nxt, nque, m := nxt0, nque0, 0;
    ghost var r0 := Receiver(nxt0, Arrived(Items(buf)), Arrived(Items(queue)));
    ghost var xs, ys := buf, queue;
    var empty := IsEmpty(bufHead, xs);
    while !empty
      invariant m <= |buf| && xs == buf[m..] && ys == queue + buf[..m]
      invariant Ring(bufHead, xs) && Ring(queueHead, ys) && Apart(bufHead, xs, queueHead, ys) && nque == |queue| + m
      invariant empty <==> xs == []
      invariant Promote(Wrapped, Receiver(nxt, Arrived(Items(xs)), Arrived(Items(ys))), wnd) ==
        Promote(Wrapped, r0, wnd)
      decreases |buf| - m
    {
      PromoteUnfold(nxt, Arrived(Items(xs)), Arrived(Items(ys)), wnd);
      FirstNode(bufHead, xs);
      SliceMoves(buf, queue, m);
      var seg := bufHead.next;
      if seg.item.sn != nxt || nque >= wnd { break; }
      MoveFirst(bufHead, queueHead, xs, ys);
      xs, ys := xs[1..], ys + [xs[0]];
      m := m + 1;
      nque := nque + 1;
      nxt := U32(nxt + 1);
      empty := IsEmpty(bufHead, xs);
    }
    PromoteUnfold(nxt, Arrived(Items(xs)), Arrived(Items(ys)), wnd);
  }

  lemma SliceMoves<T>(s: seq<T>, t: seq<T>, m: nat)
    requires m < |s|
    ensures s[m..][1..] == s[m + 1..] && (t + s[..m]) + [s[m..][0]] == t + s[..m + 1]
  {
  }

  /** One turn of that loop, in terms of what is read of the records. */
  method MoveFirst(h: Node<SendSeg>, g: Node<SendSeg>, ghost xs: seq<Node<SendSeg>>, ghost ys: seq<Node<SendSeg>>)
    requires Ring(h, xs) && Ring(g, ys) && Apart(h, xs, g, ys) && xs != []
    modifies h, xs, g, ys
    ensures Ring(h, xs[1..]) && Ring(g, ys + [xs[0]]) && Apart(h, xs[1..], g, ys + [xs[0]])
    ensures Arrived(Items(xs[1..])) == old(Arrived(Items(xs)))[1..]
    ensures Arrived(Items(ys + [xs[0]])) == old(Arrived(Items(ys))) + [old(Arrived(Items(xs)))[0]]
  {
    hide Ring, Apart, Elem;
    ArrivedMoves(Items(xs), Items(ys));
    MoveHead(h, g, xs, ys);
  }

  lemma FirstNode<T>(head: Node<T>, nodes: seq<Node<T>>)
    requires Ring(head, nodes) && nodes != []
    ensures head.next == nodes[0]
  {
    RingStep(head, nodes, 0);
  }

  lemma ArrivedMoves(bs: seq<SendSeg>, qs: seq<SendSeg>)
    requires bs != []
    ensures Arrived(bs[1..]) == Arrived(bs)[1..] && Arrived(qs + [bs[0]]) == Arrived(qs) + [Arrived(bs)[0]]
  {
  }

  lemma PromoteUnfold(nxt: int, buf: seq<RecvSeg>, queue: seq<RecvSeg>, wnd: nat)
    ensures Promote(Wrapped, Receiver(nxt, buf, queue), wnd) ==
      if buf != [] && buf[0].sn == nxt && |queue| < wnd
      then Promote(Wrapped, Receiver(U32(nxt + 1), buf[1..], queue + [buf[0]]), wnd)
      else Receiver(nxt, buf, queue)
  {
  }

  /** Two lists without a node in common. */
  ghost predicate Apart<T>(h: Node<T>, xs: seq<Node<T>>, g: Node<T>, ys: seq<Node<T>>) {
    && h != g && h !in ys && g !in xs
    && forall i, j :: 0 <= i < |xs| && 0 <= j < |ys| ==> xs[i] != ys[j]
  }

  /** `iqueue_del` of the first node and `iqueue_add_tail` to the other list. */
  method MoveHead<T>(h: Node<T>, g: Node<T>, ghost xs: seq<Node<T>>, ghost ys: seq<Node<T>>)
    requires Ring(h, xs) && Ring(g, ys) && Apart(h, xs, g, ys) && xs != []
    modifies h, xs, g, ys
    ensures Ring(h, xs[1..]) && Ring(g, ys + [xs[0]]) && Apart(h, xs[1..], g, ys + [xs[0]])
    ensures Items(xs[1..]) == old(Items(xs))[1..] && Items(ys + [xs[0]]) == old(Items(ys)) + [old(Items(xs))[0]]
  {
    hide Ring;
    RingStep(h, xs, 0);
    var node := h.next;
    ghost var a, b := Items(xs), Items(ys);
    RingDistinct(h, xs);
    DelFirst(node, h, xs);
    assert Items(ys) == b;
    assert Ring(g, ys);
    AddTail(node, g, ys);
    assert Items(xs[1..]) == a[1..];
    assert Items(ys + [node]) == b + [a[0]];
  }

  /** The admission loop of `ikcp_flush` on the two lists: nodes leave `snd_queue`, join
      `snd_buf`, and are then filled in. */
  method AdmitNodes(queueHead: Node<SendSeg>, bufHead: Node<SendSeg>, una: int, nxt0: int, cwnd: nat,
                    now: u32, rto: u32,
                    ghost queue: seq<Node<SendSeg>>, ghost buf: seq<Node<SendSeg>>)
    returns (nxt: int, moved: nat)
    requires Ring(queueHead, queue) && Ring(bufHead, buf) && Apart(queueHead, queue, bufHead, buf)
    modifies queueHead, queue, bufHead, buf
    ensures moved <= |queue| && Ring(queueHead, queue[moved..]) && Ring(bufHead, buf + queue[..moved])
    ensures Apart(queueHead, queue[moved..], bufHead, buf + queue[..moved])
    ensures Sender(una, nxt, Waiting(Items(queue[moved..])), Items(buf + queue[..moved])) ==
      Admit(Wrapped, Sender(una, nxt0, old(Waiting(Items(queue))), old(Items(buf))), cwnd, now, rto)
  {
    hide Ring, U32, TimeDiff, Apart, Admit, Waiting;
    nxt, moved := nxt0, 0;
    ghost var s0 := Sender(una, nxt0, Waiting(Items(queue)), Items(buf));
    ghost var xs, ys := queue, buf;
    while TimeDiff(nxt, U32(una + cwnd)) < 0
      invariant moved <= |queue| && xs == queue[moved..] && ys == buf + queue[..moved]
      invariant Ring(queueHead, xs) && Ring(bufHead, ys) && Apart(queueHead, xs, bufHead, ys)
      invariant Admit(Wrapped, Sender(una, nxt, Waiting(Items(xs)), Items(ys)), cwnd, now, rto) ==
        Admit(Wrapped, s0, cwnd, now, rto)
      decreases |queue| - moved
    {
      AdmitUnfold(una, nxt, Items(xs), Items(ys), cwnd, now, rto);
      var empty := IsEmpty(queueHead, xs);
      if empty { break; }
      SliceMoves(queue, buf, moved);
      AdmitHead(queueHead, bufHead, nxt, now, rto, xs, ys);
      xs, ys := xs[1..], ys + [xs[0]];
      moved := moved + 1;
      nxt := U32(nxt + 1);
    }
    AdmitUnfold(una, nxt, Items(xs), Items(ys), cwnd, now, rto);
  }

  lemma AdmitUnfold(una: int, nxt: int, queue: seq<SendSeg>, buf: seq<SendSeg>, cwnd: nat, now: u32, rto: u32)
    ensures Admit(Wrapped, Sender(una, nxt, Waiting(queue), buf), cwnd, now, rto) ==
      if queue != [] && TimeDiff(nxt, U32(una + cwnd)) < 0 then
        var seg := SendSeg(nxt, queue[0].frag, now, rto, 0, 0);
        Admit(Wrapped, Sender(una, U32(nxt + 1), Waiting(queue[1..]), buf + [seg]), cwnd, now, rto)
      else Sender(una, nxt, Waiting(queue), buf)
  {
    hide U32, TimeDiff;
    if queue != [] { assert Waiting(queue[1..]) == Waiting(queue)[1..]; }
  }

  /** One turn of that loop. */
  method AdmitHead(g: Node<SendSeg>, h: Node<SendSeg>, sn: int, now: u32, rto: u32,
                   ghost xs: seq<Node<SendSeg>>, ghost ys: seq<Node<SendSeg>>)
    requires Ring(g, xs) && Ring(h, ys) && Apart(g, xs, h, ys) && xs != []
    modifies g, xs, h, ys
    ensures Ring(g, xs[1..]) && Ring(h, ys + [xs[0]]) && Apart(g, xs[1..], h, ys + [xs[0]])
    ensures Items(xs[1..]) == old(Items(xs))[1..]
    ensures Items(ys + [xs[0]]) == old(Items(ys)) + [SendSeg(sn, old(Items(xs))[0].frag, now, rto, 0, 0)]
  {
    hide Ring;
    RingStep(g, xs, 0);
    RingDistinct(g, xs);
    var node := g.next;
    MoveHead(g, h, xs, ys);
    ghost var zs := Items(xs[1..]);
    SetItem(node, SendSeg(sn, node.item.frag, now, rto, 0, 0), h, ys + [node], |ys|);
    assert Items(xs[1..]) == zs;
  }

  // ----- walking and deleting, or walking and rewriting --------------------------------------------------

  /** The merge loop of `ikcp_recv` on the list itself: `n` nodes are read, and taken out
      unless this is a peek. */
  method MergeNodes(head: Node<SendSeg>, ispeek: bool, ghost nodes: seq<Node<SendSeg>>) returns (msg: Bytes, n: nat)
    requires Ring(head, nodes)
    modifies head, nodes
    ensures n == MergeCount(old(Arrived(Items(nodes)))) <= |nodes|
    ensures msg == Payload(old(Arrived(Items(nodes)))[..n])
    ensures var rest := if ispeek then nodes else nodes[n..];
      Ring(head, rest) && Items(rest) == if ispeek then old(Items(nodes)) else old(Items(nodes))[n..]
  {
    hide Ring, Payload, Arrived, Distinct, Elem;
    ghost var items, rest := Items(nodes), nodes;
    ghost var q := Arrived(items);
    RingStep(head, nodes, 0);
    RingDistinct(head, nodes);
    msg, n := [], 0;
    NothingMerged(q);
    ElemAt(head, nodes, 0);
    ElemAt(head, nodes, 1);
    assert nodes[0..] == nodes && items[0..] == items;
    var p := head.next;
    while p != head
      invariant 0 <= n <= |nodes| && rest == (if ispeek then nodes else nodes[n..]) && Ring(head, rest)
      invariant Items(rest) == if ispeek then items else items[n..]
      invariant p == Elem(head, nodes, n + 1) && (p == head <==> n == |nodes|)
      invariant MergeCount(q) == n + MergeCount(q[n..])
      invariant msg == Payload(q[..n])
      decreases |nodes| - n
    {
      ElemAt(head, nodes, n + 1);
      ElemAt(head, nodes, n + 2);
      var seg := p;
      p := ReadOut(seg, head, ispeek, nodes, n, rest);
      rest := if ispeek then nodes else nodes[n + 1..];
      PayloadNext(q, n);
      MergeNext(q, n);
      msg := msg + seg.item.frag.data;
      n := n + 1;
      if seg.item.frag.frg == 0 { break; }
    }
  }

  /** `ikcp_peeksize` on the list itself. */
  method PeekNodes(head: Node<SendSeg>, nque: nat, ghost nodes: seq<Node<SendSeg>>) returns (size: int)
    requires Ring(head, nodes) && nque == |nodes|
    ensures size == PeekSize(Arrived(Items(nodes)))
  {
    hide Ring, Payload, Distinct, Elem;
    ghost var q, i := Arrived(Items(nodes)), 0;
    RingStep(head, nodes, 0);
    RingDistinct(head, nodes);
    ElemAt(head, nodes, 0);
    ElemAt(head, nodes, 1);
    NothingMerged(q);
    var p := head.next;
    if p == head { return -1; }
    if p.item.frag.frg == 0 { return |p.item.frag.data|; }
    if nque < p.item.frag.frg + 1 { return -1; }
    size := 0;
    while p != head
      invariant 0 <= i <= |nodes| && p == Elem(head, nodes, i + 1) && (p == head <==> i == |nodes|)
      invariant MergeCount(q) == i + MergeCount(q[i..])
      invariant size == |Payload(q[..i])|
      decreases |nodes| - i
    {
      ElemAt(head, nodes, i + 1);
      ElemAt(head, nodes, i + 2);
      RingStep(head, nodes, i + 1);
      PayloadNext(q, i);
      MergeNext(q, i);
      size := size + |p.item.frag.data|;
      i := i + 1;
      if p.item.frag.frg == 0 { break; }
      p := p.next;
    }
  }

  /** Step to the next node, taking this one out unless peeking. */
  method ReadOut(seg: Node<SendSeg>, head: Node<SendSeg>, ispeek: bool,
                 ghost nodes: seq<Node<SendSeg>>, ghost n: nat, ghost rest: seq<Node<SendSeg>>)
    returns (p: Node<SendSeg>)
    requires n < |nodes| && rest == (if ispeek then nodes else nodes[n..]) && Ring(head, rest) && seg == nodes[n]
    modifies head, nodes
    ensures p == Elem(head, nodes, n + 2) && seg.item == old(seg.item)
    ensures seg.item == old(Items(rest))[if ispeek then n else 0]
    ensures var rest' := if ispeek then nodes else nodes[n + 1..];
      Ring(head, rest') && Items(rest') == if ispeek then old(Items(nodes)) else old(Items(rest))[1..]
  {
    hide Ring;
    ghost var k := if ispeek then n else 0;
    RingStep(head, rest, k + 1);
    p := seg.next;
    if !ispeek {
      DelFirst(seg, head, rest);
      assert rest[1..] == nodes[n + 1..];
    }
  }

  lemma ElemAt<T>(head: Node<T>, nodes: seq<Node<T>>, k: nat)
    requires Distinct(head, nodes) && k <= |nodes| + 1
    ensures 1 <= k <= |nodes| ==> Elem(head, nodes, k) == nodes[k - 1]
    ensures Elem(head, nodes, k) == head <==> k == 0 || k == |nodes| + 1
  {
  }

  lemma NothingMerged(q: seq<RecvSeg>)
    ensures q[0..] == q && Payload(q[..0]) == []
  {
    assert q[..0] == [];
  }

  lemma MergeNext(q: seq<RecvSeg>, n: nat)
    requires n < |q|
    ensures MergeCount(q[n..]) == if q[n].frag.frg == 0 then 1 else 1 + MergeCount(q[n + 1..])
  {
    assert q[n..][1..] == q[n + 1..];
  }

  /** The data loop of `ikcp_flush` on `snd_buf`: every record is rewritten in place and the
      list stays as it is. */
  method TransmitNodes(head: Node<SendSeg>, tx: Tx, ghost nodes: seq<Node<SendSeg>>)
    requires Ring(head, nodes)
    modifies nodes`item
    ensures Ring(head, nodes) && Items(nodes) == TransmitAll(tx, old(Items(nodes)))
  {
    hide Ring, Transmit;
    ghost var b, i := Items(nodes), 0;
    RingStep(head, nodes, 0);
    var p := head.next;
    while p != head
      invariant 0 <= i <= |nodes| && Ring(head, nodes) && p == Elem(head, nodes, i + 1)
      invariant forall j :: 0 <= j < |nodes| ==> Items(nodes)[j] == if j < i then Transmit(tx, b[j]) else b[j]
      decreases |nodes| - i
    {
      RingStep(head, nodes, i);
      RingStep(head, nodes, i + 1);
      var next := p.next;
      SetItem(p, Transmit(tx, p.item), head, nodes, i);
      p := next;
      i := i + 1;
    }
    RingStep(head, nodes, i);
  }
}
