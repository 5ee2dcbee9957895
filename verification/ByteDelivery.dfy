/** Messages get through over bytes, too: on connections that have given out fewer than
    2^31 numbers less a window, where nothing can be too old. */
module ByteDelivery {
  import opened SerialNumbers
  import opened Segments
  import opened Protocol
  import opened Guarantees
  import opened ByteProtocol
  import opened Delivery

  function FacingBytes(s: ByteSystem, who: End): ByteHost { if who == A then s.b else s.a }

  /** Nothing new is sent, and nothing is delivered that had been emitted before `s`. */
  ghost predicate QuietBytes(s: ByteSystem, acts: seq<(End, Action)>) {
    forall i :: 0 <= i < |acts| ==>
      && !acts[i].1.Say?
      && (acts[i].1.Deliver? ==> acts[i].1.k >= |FacingBytes(s, acts[i].0).out|)
  }

  lemma QuietImg(s: System, acts: seq<(End, Action)>)
    ensures QuietBytes(SystemImg(s), acts) <==> Quiet(s, acts)
  {
  }

  /** A connection on which every number and every window end is below 2^31. */
  ghost predicate Young(s: System) {
    && s.a.cfg.Valid() && s.b.cfg.Valid()
    && AllSendable(s.a.cfg.Mss(), s.a.sent) && AllSendable(s.b.cfg.Mss(), s.b.sent)
    && |StreamOf(s.a)| + s.b.cfg.rcvWnd <= TWO31 && |StreamOf(s.b)| + s.a.cfg.rcvWnd <= TWO31
  }

  lemma YoungStepRecent(s: System, who: End, act: Action)
    requires Linked(s) && Young(s)
    ensures act.Deliver? && act.k < |Facing(s, who).out| ==>
      Recent(At(s, who), Facing(s, who), Facing(s, who).out[act.k])
  {
    hide Link, Recent, Stream;
    if act.Deliver? && act.k < |Facing(s, who).out| {
      YoungLinkRecent(At(s, who), Facing(s, who), act.k);
    }
  }

  lemma StaysYoung(s: System, t: System)
    requires Young(s) && BothOnward(s, t)
    ensures Young(t)
  {
    hide Stream;
  }

  /** What was sent before is a shorter stream. */
  lemma ShorterStream(h: Host, h': Host)
    requires h.cfg.Valid() && h'.cfg == h.cfg && h.sent <= h'.sent && AllSendable(h'.cfg.Mss(), h'.sent)
    ensures AllSendable(h.cfg.Mss(), h.sent) && |StreamOf(h)| <= |StreamOf(h')|
  {
    hide Stream, Sendable;
    assert h.sent == h'.sent[..|h.sent|];
    StreamAt(h.cfg.Mss(), h'.sent, |h.sent|);
  }

  /** On a connection that is still young nothing delivered was stale. */
  lemma YoungIsRecent(ca: Config, cb: Config, run: seq<(End, Action)>)
    requires ca.Valid() && cb.Valid() && Young(RunSystem(ca, cb, run))
    ensures AllRecent(ca, cb, run)
  {
    hide RunSystem, Recent, Link, StreamOf, AllSendable;
    var t := RunSystem(ca, cb, run);
    forall i | 0 <= i < |run| ensures RecentAt(ca, cb, run[..i], run[i].0, run[i].1) {
      var s := RunSystem(ca, cb, run[..i]);
      assert run[..i] + run[i..] == run;
      EveryRunLinked(ca, cb, run[..i]);
      HistoriesGrow(ca, cb, run[..i], run[i..], A);
      HistoriesGrow(ca, cb, run[..i], run[i..], B);
      ShorterStream(s.a, t.a);
      ShorterStream(s.b, t.b);
      YoungStepRecent(s, run[i].0, run[i].1);
    }
  }

  /** So on such a connection the byte-level system is safe end to end, whatever the network
      does. */
  lemma YoungConnectionsAreSafe(ca: Config, cb: Config, run: seq<(End, Action)>)
    requires ca.Valid() && cb.Valid() && ca.conv == cb.conv && Young(RunSystem(ca, cb, run))
    ensures var s := RunBytes(ca, cb, run); s.b.got <= s.a.sent && s.a.got <= s.b.sent
  {
    hide RunSystem, RunBytes, Young, AllRecent;
    YoungIsRecent(ca, cb, run);
    BytesReceivedIsPrefixOfSent(ca, cb, run);
  }

  /** Nor does a way on from there deliver anything stale. */
  lemma StaysRecent(ca: Config, cb: Config, run: seq<(End, Action)>, acts: seq<(End, Action)>)
    requires ca.Valid() && cb.Valid() && Young(RunSystem(ca, cb, run)) && Quiet(RunSystem(ca, cb, run), acts)
    ensures AllRecent(ca, cb, run + acts)
  {
    hide RunSystem, Young, Link, BothOnward, AllRecent;
    var s := RunSystem(ca, cb, run);
    EveryRunLinked(ca, cb, run);
    DoRun(ca, cb, run, acts);
    DoKeeps(s, acts);
    StaysYoung(s, Do(s, acts));
    YoungIsRecent(ca, cb, run + acts);
  }

  /** Message `i` can still be received after the run of the byte-level system. */
  ghost predicate CanBeReceivedBytes(ca: Config, cb: Config, run: seq<(End, Action)>, who: End, i: nat)
    requires ca.Valid() && cb.Valid()
  {
    exists acts :: QuietBytes(RunBytes(ca, cb, run), acts) && |FacingBytes(RunBytes(ca, cb, run + acts), who).got| > i
  }

  /** After any run of the byte-level system on such a connection, a message that was accepted
      can still be received if and only if neither it nor a message before it has more
      fragments than the window. */
  lemma BytesReceivableExactly(ca: Config, cb: Config, run: seq<(End, Action)>, who: End, i: nat)
    requires ca.Valid() && cb.Valid() && ca.conv == cb.conv && ca.rcvWnd < TWO16 && cb.rcvWnd < TWO16
    requires Young(RunSystem(ca, cb, run)) && i < |At(RunSystem(ca, cb, run), who).sent|
    ensures RunBytes(ca, cb, run) == SystemImg(RunSystem(ca, cb, run))
    ensures var s := RunSystem(ca, cb, run);
      CanBeReceivedBytes(ca, cb, run, who, i) <==> FitUpTo(At(s, who), Facing(s, who), i)
  {
    hide RunSystem, RunBytes, Quiet, QuietBytes, FitUpTo, Young, AllRecent;
    var s := RunSystem(ca, cb, run);
    YoungIsRecent(ca, cb, run);
    BytesSimulateExact(ca, cb, run);
    ReceivableExactly(ca, cb, run, who, i);
    if CanBeReceived(ca, cb, run, who, i) {
      var acts :| Quiet(s, acts) && |Facing(RunSystem(ca, cb, run + acts), who).got| > i;
      SameOutcome(ca, cb, run, acts, who);
    }
    if CanBeReceivedBytes(ca, cb, run, who, i) {
      var acts :| QuietBytes(SystemImg(s), acts) && |FacingBytes(RunBytes(ca, cb, run + acts), who).got| > i;
      QuietImg(s, acts);
      SameOutcome(ca, cb, run, acts, who);
    }
  }

  lemma SameOutcome(ca: Config, cb: Config, run: seq<(End, Action)>, acts: seq<(End, Action)>, who: End)
    requires ca.Valid() && cb.Valid() && ca.conv == cb.conv
    requires Young(RunSystem(ca, cb, run)) && Quiet(RunSystem(ca, cb, run), acts)
    ensures QuietBytes(SystemImg(RunSystem(ca, cb, run)), acts)
    ensures FacingBytes(RunBytes(ca, cb, run + acts), who).got == Facing(RunSystem(ca, cb, run + acts), who).got
  {
    hide RunSystem, RunBytes, Quiet, QuietBytes, Young, AllRecent;
    QuietImg(RunSystem(ca, cb, run), acts);
    StaysRecent(ca, cb, run, acts);
    BytesSimulateExact(ca, cb, run + acts);
  }
}
