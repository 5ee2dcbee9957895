/** `ikcp_send` and `ikcp_recv` as their user sees them: what they accept and return, and what
    they leave alone. */
module UserCalls {
  import opened SerialNumbers
  import opened Segments
  import opened RecvSide
  import opened Engine
  import opened Shape

  // ----- sending -----------------------------------------------------------------------------------------

  /** A message is accepted if and only if 255 segments hold it. */
  lemma SendableExactly(mss: int, msg: Bytes)
    requires mss > 0
    ensures Sendable(mss, msg) <==> |msg| <= 255 * mss
  {
    var n := FragCount(mss, |msg|);
    hide FragCount;
    if n <= 255 {
      Scaled(n, 255, mss);
    } else {
      Scaled(255, n - 1, mss);
    }
  }

  lemma Scaled(x: int, y: int, m: int)
    requires x <= y && m >= 0
    ensures x * m <= y * m
  {
    assert (y - x) * m >= 0;
  }

  /** An accepted message waits, whole, behind what waited before; a refused one leaves no
      trace; nothing else is touched. */
  lemma SendExactly(cfg: Config, e: Engine, msg: Bytes)
    requires cfg.Valid()
    ensures var (e', code) := Send(cfg, e, msg); var n := |e.snd.queue|;
      && code == (if |msg| <= 255 * cfg.Mss() then 0 else -2)
      && (code != 0 ==> e' == e)
      && (code == 0 ==>
            && e' == e.(snd := e.snd.(queue := e'.snd.queue))
            && |e'.snd.queue| == n + FragCount(cfg.Mss(), |msg|) && e'.snd.queue[..n] == e.snd.queue
            && Join(e'.snd.queue[n..]) == msg
            && (forall i :: n <= i < |e'.snd.queue| ==>
                  e'.snd.queue[i].frg == |e'.snd.queue| - 1 - i && |e'.snd.queue[i].data| <= cfg.Mss()))
  {
    hide FragCount, Sendable, Join;
    var mss := cfg.Mss();
    SendableExactly(mss, msg);
    if Sendable(mss, msg) {
      var fs := Fragments(mss, msg);
      JoinFragments(mss, msg);
      hide Fragments;
      var q := e.snd.queue + fs;
      assert q[..|e.snd.queue|] == e.snd.queue && q[|e.snd.queue|..] == fs;
    }
  }

  /** The messages that are accepted. */
  function Accepted(mss: int, msgs: seq<Bytes>): (r: seq<Bytes>)
    requires mss > 0
    ensures AllSendable(mss, r)
  {
    if msgs == [] then []
    else
      var n := |msgs| - 1;
      Accepted(mss, msgs[..n]) + if Sendable(mss, msgs[n]) then [msgs[n]] else []
  }

  // ----- receiving -----------------------------------------------------------------------------------------

  /** The next message is whole when as many segments are queued as its first one says. */
  predicate Whole(q: seq<RecvSeg>) { q != [] && q[0].frag.frg < |q| }

  /** The merge loop runs through the first final fragment, or through all there is. */
  lemma {:induction false} MergeCountExactly(q: seq<RecvSeg>)
    requires q != []
    ensures var n := MergeCount(q);
      && (forall i :: 0 <= i < n - 1 ==> q[i].frag.frg != 0)
      && (q[n - 1].frag.frg == 0 || n == |q|)
  {
    if q[0].frag.frg != 0 && |q| > 1 {
      MergeCountExactly(q[1..]);
      forall i | 0 <= i < MergeCount(q) - 1 ensures q[i].frag.frg != 0 {
        if i > 0 { assert q[i] == q[1..][i - 1]; }
      }
    }
  }

  /** In any state: nothing queued, an incomplete message, a buffer that is too small, and
      otherwise the payload up to the first final fragment. A refused call changes nothing; a
      successful one touches the receiving half and, when it takes the queue from full to not
      full, notes that the window is to be announced. */
  lemma RecvExactly(a: Arith, cfg: Config, e: Engine, len: int)
    ensures var (e', res) := Recv(a, cfg, e, len); var q := e.rcv.queue; var room := if len < 0 then -len else len;
      && (q == [] <==> res == Again(-1))
      && (q != [] && !Whole(q) <==> res == Again(-2))
      && (Whole(q) && |Payload(q[..MergeCount(q)])| > room <==> res == Again(-3))
      && (Whole(q) && |Payload(q[..MergeCount(q)])| <= room <==> res == Message(Payload(q[..MergeCount(q)])))
      && (res.Again? ==> e' == e && res.code in {-1, -2, -3})
      && e' == e.(rcv := e'.rcv, probe := e.probe.(tell := e'.probe.tell))
      && (e'.probe.tell <==> e.probe.tell || (res.Message? && |q| >= cfg.rcvWnd && |e'.rcv.queue| < cfg.rcvWnd))
  {
    hide Payload, Promote;
    var q := e.rcv.queue;
    if PeekSize(q) >= 0 { PeekSizeIsPayload(q); }
  }
}
