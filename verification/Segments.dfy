/** Segments, connection parameters, and the splitting of messages into fragments. */
module Segments {
  import opened SerialNumbers

  const OVERHEAD := 24
  const CMD_PUSH: u8 := 81
  const CMD_ACK: u8 := 82
  const CMD_WASK: u8 := 83
  const CMD_WINS: u8 := 84

  type Bytes = seq<u8>

  datatype Option<T> = None | Some(value: T)

  /** One fragment of a message: `frg` counts the fragments still to come. */
  datatype Frag = Frag(frg: u8, data: Bytes)

  /** A segment as it travels: the header fields of `ikcp_encode_seg` and the payload. */
  datatype Segment = Segment(conv: u32, cmd: u8, wnd: u16, ts: u32, sn: int, una: int, frag: Frag) {
    function Size(): nat { OVERHEAD + |frag.data| }
  }

  /** The parameters of one endpoint; nothing in the repository changes them after creation. */
  datatype Config = Config(conv: u32, mtu: nat, sndWnd: nat, rcvWnd: nat, interval: u32,
                           nodelay: bool, minRto: u32, fastResend: u32, noCwnd: bool, deadLink: u32) {
    function Mss(): int { mtu - OVERHEAD }

    predicate Valid() {
      && OVERHEAD < mtu < TWO31
      && 0 < sndWnd <= 0x4000_0000
      && 0 < rcvWnd <= 0x4000_0000
      && 2 <= interval <= 5000
      && 0 < minRto <= 200
    }
  }

  /** The parameters `ikcp_create` sets. */
  function Defaults(conv: u32): Config { Config(conv, 1400, 32, 32, 100, false, 100, 0, false, 10) }

  /** `ikcp_nodelay`; a negative argument leaves its parameter as it is. */
  function NoDelay(cfg: Config, nodelay: int, interval: int, resend: int, nc: int): Config
    requires resend < TWO32
  {
    var c1 := if nodelay < 0 then cfg else cfg.(nodelay := nodelay != 0, minRto := if nodelay != 0 then 30 else 100);
    var c2 := if interval < 0 then c1
              else c1.(interval := if interval > 5000 then 5000 else if interval < 2 then 2 else interval);
    var c3 := if resend < 0 then c2 else c2.(fastResend := resend);
    if nc < 0 then c3 else c3.(noCwnd := nc != 0)
  }

  /** Whatever its arguments, `ikcp_nodelay` leaves parameters the engine can work with. */
  lemma NoDelayKeepsValid(cfg: Config, nodelay: int, interval: int, resend: int, nc: int)
    requires cfg.Valid() && resend < TWO32
    ensures var c := NoDelay(cfg, nodelay, interval, resend, nc);
      && c.Valid() && c.mtu == cfg.mtu && c.sndWnd == cfg.sndWnd && c.rcvWnd == cfg.rcvWnd && c.conv == cfg.conv
      && (interval >= 0 ==> c.interval == Min(Max(interval, 2), 5000))
      && (nodelay >= 0 ==> (c.nodelay <==> nodelay > 0) && (c.minRto == 30 <==> nodelay > 0))
  {
  }

  /** How many fragments `ikcp_send` makes of a message of `len` bytes. */
  function FragCount(mss: int, len: nat): (n: nat)
    requires mss > 0
    ensures n > 0
    ensures (n - 1) * mss < len <= n * mss || (n == 1 && len == 0)
  {
    if len <= mss then 1 else
      DivisionBounds(len + mss - 1, mss);
      (len + mss - 1) / mss
  }

  lemma DivisionBounds(x: int, d: int)
    requires d > 0
    ensures (x / d) * d <= x < (x / d) * d + d
    ensures x >= d ==> x / d > 0
  {
    if x >= d {
      assert x / d >= 1 by {
        assert x < (x / d + 1) * d;
      }
    }
  }

  /** The loop of `ikcp_send`: `n` fragments of at most `mss` bytes, numbered down to 0. */
  function Split(mss: int, msg: Bytes, n: nat): (r: seq<Frag>)
    requires mss > 0 && n <= 256
    ensures |r| == n
    ensures forall i :: 0 <= i < n ==> r[i].frg == n - 1 - i && |r[i].data| <= mss
  {
    if n == 0 then [] else
      var size := Min(|msg|, mss);
      [Frag(n - 1, msg[..size])] + Split(mss, msg[size..], n - 1)
  }

  lemma SplitNext(mss: int, msg: Bytes, n: nat)
    requires mss > 0 && 0 < n <= 256
    ensures var size := Min(|msg|, mss);
      Split(mss, msg, n) == [Frag(n - 1, msg[..size])] + Split(mss, msg[size..], n - 1)
  {
  }

  lemma ConcatAssoc<T>(x: seq<T>, y: seq<T>, z: seq<T>)
    ensures (x + y) + z == x + (y + z)
  {
  }

  predicate Sendable(mss: int, msg: Bytes)
    requires mss > 0
  {
    FragCount(mss, |msg|) <= 255
  }

  function Fragments(mss: int, msg: Bytes): (r: seq<Frag>)
    requires mss > 0 && Sendable(mss, msg)
    ensures |r| == FragCount(mss, |msg|)
    ensures forall i :: 0 <= i < |r| ==> r[i].frg == |r| - 1 - i && |r[i].data| <= mss
  {
    Split(mss, msg, FragCount(mss, |msg|))
  }

  /** The payloads of a run of fragments, end to end. */
  function Join(fs: seq<Frag>): Bytes {
    if fs == [] then [] else fs[0].data + Join(fs[1..])
  }

  /** Splitting into enough fragments loses no byte. */
  lemma {:induction false} JoinSplit(mss: int, msg: Bytes, n: nat)
    requires mss > 0 && n <= 256 && |msg| <= n * mss
    ensures Join(Split(mss, msg, n)) == msg
  {
    if n > 0 {
      var size := Min(|msg|, mss);
      assert n * mss == (n - 1) * mss + mss;
      assert |msg| - size <= (n - 1) * mss;
      JoinSplit(mss, msg[size..], n - 1);
      assert Split(mss, msg, n)[1..] == Split(mss, msg[size..], n - 1);
    }
  }

  /** Joining the fragments of a message gives the message back. */
  lemma JoinFragments(mss: int, msg: Bytes)
    requires mss > 0 && Sendable(mss, msg)
    ensures Join(Fragments(mss, msg)) == msg
  {
    var n := FragCount(mss, |msg|);
    assert |msg| <= n * mss;
    JoinSplit(mss, msg, n);
  }

  lemma {:induction false} JoinConcat(a: seq<Frag>, b: seq<Frag>)
    ensures Join(a + b) == Join(a) + Join(b)
  {
    if a == [] {
      assert a + b == b;
    } else {
      var c := a + b;
      assert c[0] == a[0] && c[1..] == a[1..] + b;
      JoinConcat(a[1..], b);
      ConcatAssoc(a[0].data, Join(a[1..]), Join(b));
    }
  }

  lemma JoinOne(f: Frag)
    ensures Join([f]) == f.data
  {
    assert [f][1..] == [];
    assert f.data + [] == f.data;
  }

  ghost predicate AllSendable(mss: int, msgs: seq<Bytes>)
    requires mss > 0
  {
    forall i :: 0 <= i < |msgs| ==> Sendable(mss, msgs[i])
  }

  /** The fragments of a sequence of messages: fragment `i` is the one that is given
      sequence number `i`. */
  function Stream(mss: int, msgs: seq<Bytes>): (fs: seq<Frag>)
    requires mss > 0 && AllSendable(mss, msgs)
    ensures forall i :: 0 <= i < |fs| ==> |fs[i].data| <= mss
  {
    if msgs == [] then [] else
      Stream(mss, msgs[..|msgs| - 1]) + Fragments(mss, msgs[|msgs| - 1])
  }

  /** The fragments of message `k` lie whole in the stream, right after those of the
      messages before it. */
  lemma {:induction false} StreamAt(mss: int, msgs: seq<Bytes>, k: nat)
    requires mss > 0 && AllSendable(mss, msgs) && k <= |msgs|
    ensures AllSendable(mss, msgs[..k])
    ensures Stream(mss, msgs[..k]) <= Stream(mss, msgs)
    ensures k < |msgs| ==>
              && AllSendable(mss, msgs[..k + 1])
              && Stream(mss, msgs[..k + 1]) == Stream(mss, msgs[..k]) + Fragments(mss, msgs[k])
              && Stream(mss, msgs[..k + 1]) <= Stream(mss, msgs)
    decreases |msgs|
  {
    hide Fragments, Sendable;
    if k == |msgs| {
      assert msgs[..k] == msgs;
    } else {
      var n := |msgs| - 1;
      assert msgs[..n][..k] == msgs[..k];
      StreamAt(mss, msgs[..n], k);
      assert msgs[..k + 1][..k] == msgs[..k];
      if k < n {
        assert msgs[..n][..k + 1] == msgs[..k + 1];
      } else {
        assert msgs[..k + 1] == msgs;
      }
    }
  }

  /** Fragment by fragment: message `k` starts where the messages before it end, so an
      offset short of the whole stream is short of the last message. */
  lemma StreamSlice(mss: int, msgs: seq<Bytes>, k: nat, off: nat)
    requires mss > 0 && AllSendable(mss, msgs) && k <= |msgs|
    requires AllSendable(mss, msgs[..k]) && off == |Stream(mss, msgs[..k])|
    ensures off <= |Stream(mss, msgs)|
    ensures off < |Stream(mss, msgs)| ==> k < |msgs|
    ensures k < |msgs| ==>
              && AllSendable(mss, msgs[..k + 1])
              && |Stream(mss, msgs[..k + 1])| == off + FragCount(mss, |msgs[k]|) <= |Stream(mss, msgs)|
              && Stream(mss, msgs)[off..off + FragCount(mss, |msgs[k]|)] == Fragments(mss, msgs[k])
  {
    hide Fragments, FragCount, Sendable;
    StreamAt(mss, msgs, k);
    if k == |msgs| {
      assert msgs[..k] == msgs;
    } else {
      var c := |Fragments(mss, msgs[k])|;
      assert Stream(mss, msgs[..k + 1])[off..off + c] == Fragments(mss, msgs[k]);
      assert Stream(mss, msgs)[..off + c] == Stream(mss, msgs[..k + 1]);
    }
  }
}
