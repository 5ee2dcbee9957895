/** The little-endian wire format: `ikcp_encode_seg`, the parser of `ikcp_input`, and the
    packing of segments into datagrams. */
module Wire {
  import opened SerialNumbers
  import opened Segments
  import opened Engine
  import opened Refinement32

  function Encode16(w: u16): (b: Bytes)
    ensures |b| == 2
  {
    [w % 256, w / 256]
  }

  function Encode32(l: u32): (b: Bytes)
    ensures |b| == 4
  {
    [l % 256, l / 256 % 256, l / 65536 % 256, l / 16777216]
  }

  function Decode16(b: Bytes, at: nat): (w: u16)
    requires at + 2 <= |b|
  {
    b[at] as int + 256 * (b[at + 1] as int)
  }

  function Decode32(b: Bytes, at: nat): (l: u32)
    requires at + 4 <= |b|
  {
    b[at] as int + 256 * (b[at + 1] as int) + 65536 * (b[at + 2] as int) + 16777216 * (b[at + 3] as int)
  }

  /** Numbers travel with their low byte first. */
  lemma LittleEndian(w: u16, l: u32)
    ensures var b := Encode16(w); var x: int, y: int := b[0], b[1]; x + 256 * y == w
    ensures var b := Encode32(l); var x: int, y: int, z: int, v: int := b[0], b[1], b[2], b[3];
      x + 256 * (y + 256 * (z + 256 * v)) == l
  {
    HighBytes(l);
  }

  lemma Decode16Encode(w: u16, b: Bytes, at: nat)
    requires at + 2 <= |b| && b[at..at + 2] == Encode16(w)
    ensures Decode16(b, at) == w
  {
    var c := b[at..at + 2];
    assert b[at] == c[0] && b[at + 1] == c[1];
  }

  lemma Decode32Encode(l: u32, b: Bytes, at: nat)
    requires at + 4 <= |b| && b[at..at + 4] == Encode32(l)
    ensures Decode32(b, at) == l
  {
    var c := b[at..at + 4];
    assert b[at] == c[0] && b[at + 1] == c[1] && b[at + 2] == c[2] && b[at + 3] == c[3];
    assert l / 65536 == l / 256 / 256 && l / 16777216 == l / 65536 / 256;
  }

  /** The 24 header bytes of `ikcp_encode_seg`. */
  function Header(s: Segment): (b: Bytes)
    ensures |b| == OVERHEAD
    ensures b[..4] == Encode32(s.conv) && b[4] == s.cmd && b[5] == s.frag.frg
    ensures b[6..8] == Encode16(s.wnd) && b[8..12] == Encode32(s.ts)
    ensures b[12..16] == Encode32(U32(s.sn)) && b[16..20] == Encode32(U32(s.una))
    ensures b[20..24] == Encode32(U32(|s.frag.data|))
  {
    Encode32(s.conv) + [s.cmd, s.frag.frg] + Encode16(s.wnd) + Encode32(s.ts)
      + Encode32(U32(s.sn)) + Encode32(U32(s.una)) + Encode32(U32(|s.frag.data|))
  }

  function EncodeSeg(s: Segment): (b: Bytes)
    ensures |b| == s.Size()
  {
    Header(s) + s.frag.data
  }

  function EncodeDatagram(d: Datagram): (b: Bytes) {
    if d == [] then [] else EncodeDatagram(d[..|d| - 1]) + EncodeSeg(d[|d| - 1])
  }

  function EncodeAll(ds: seq<Datagram>): (bs: seq<Bytes>)
    ensures |bs| == |ds|
    ensures forall i :: 0 <= i < |ds| ==> bs[i] == EncodeDatagram(ds[i])
  {
    seq(|ds|, i requires 0 <= i < |ds| => EncodeDatagram(ds[i]))
  }

  predicate KnownCommand(cmd: u8) { CMD_PUSH <= cmd <= CMD_WINS }

  /** The segments `ikcp_input` processes before it returns, and what it returns. */
  datatype Parsed = Parsed(segs: seq<Segment>, code: int)

  /** The segment that starts the bytes, or the code with which `ikcp_input` gives up. */
  datatype Head = Seg(seg: Segment, rest: Bytes) | Stop(code: int)

  function ParseHead(conv: u32, b: Bytes): (h: Head)
    ensures h.Seg? ==> |h.rest| + OVERHEAD <= |b|
  {
    if |b| < OVERHEAD then Stop(0)
    else if Decode32(b, 0) != conv then Stop(-1)
    else if |b| - OVERHEAD < Decode32(b, 20) then Stop(-2)
    else if !KnownCommand(b[4]) then Stop(-3)
    else
      var end := OVERHEAD + Decode32(b, 20);
      Seg(Segment(conv, b[4], Decode16(b, 6), Decode32(b, 8), Decode32(b, 12), Decode32(b, 16),
                  Frag(b[5], b[OVERHEAD..end])), b[end..])
  }

  /** The parsing loop of `ikcp_input`. */
  function Parse(conv: u32, b: Bytes): (p: Parsed)
    decreases |b|
  {
    match ParseHead(conv, b)
    case Stop(code) => Parsed([], code)
    case Seg(s, rest) =>
      var p := Parse(conv, rest);
      Parsed([s] + p.segs, p.code)
  }

  /** A segment that a connection with number `conv` may put on the wire. */
  predicate Sound(conv: u32, s: Segment) {
    s.conv == conv && KnownCommand(s.cmd) && |s.frag.data| < TWO32
  }

  ghost predicate AllSound(conv: u32, segs: seq<Segment>) {
    forall i :: 0 <= i < |segs| ==> Sound(conv, segs[i])
  }

  /** Reading back one segment: sequence numbers come out modulo 2^32, the rest as it was. */
  lemma ParseHeadEncode(conv: u32, s: Segment, rest: Bytes)
    requires Sound(conv, s)
    ensures ParseHead(conv, EncodeSeg(s) + rest) == Seg(ImgSeg(s), rest)
  {
    var h := Header(s);
    var b := EncodeSeg(s) + rest;
    assert b == h + (s.frag.data + rest);
    assert b[..4] == h[..4] && b[0..4] == h[..4];
    assert b[6..8] == h[6..8] && b[8..12] == h[8..12] && b[12..16] == h[12..16];
    assert b[16..20] == h[16..20] && b[20..24] == h[20..24];
    Decode32Encode(s.conv, b, 0);
    Decode16Encode(s.wnd, b, 6);
    Decode32Encode(s.ts, b, 8);
    Decode32Encode(U32(s.sn), b, 12);
    Decode32Encode(U32(s.una), b, 16);
    Decode32Encode(|s.frag.data|, b, 20);
    var end := OVERHEAD + |s.frag.data|;
    assert b[OVERHEAD..end] == s.frag.data;
    assert b[end..] == rest;
  }

  lemma {:induction false} EncodeFirst(d: Datagram)
    requires d != []
    ensures EncodeDatagram(d) == EncodeSeg(d[0]) + EncodeDatagram(d[1..])
  {
    var n := |d| - 1;
    if n == 0 {
      assert d[..0] == [] && d[1..] == [];
      assert [] + EncodeSeg(d[0]) == EncodeSeg(d[0]) + [];
    } else {
      var tail := d[1..];
      EncodeFirst(d[..n]);
      assert d[..n][1..] == tail[..n - 1] && tail[n - 1] == d[n];
      ConcatAssoc(EncodeSeg(d[0]), EncodeDatagram(tail[..n - 1]), EncodeSeg(d[n]));
    }
  }

  lemma ImgSegsFirst(d: Datagram)
    requires d != []
    ensures ImgSegs(d) == [ImgSeg(d[0])] + ImgSegs(d[1..])
  {
  }

  /** Decoding a datagram gives back its segments, in order, and nothing else. */
  lemma {:induction false} ParseEncode(conv: u32, d: Datagram)
    requires AllSound(conv, d)
    ensures Parse(conv, EncodeDatagram(d)) == Parsed(ImgSegs(d), 0)
  {
    if d != [] {
      EncodeFirst(d);
      var rest := EncodeDatagram(d[1..]);
      ParseHeadEncode(conv, d[0], rest);
      ParseEncode(conv, d[1..]);
      ImgSegsFirst(d);
      assert Parse(conv, EncodeSeg(d[0]) + rest) == Parsed([ImgSeg(d[0])] + ImgSegs(d[1..]), 0);
    }
  }

  /** Every segment that comes out of the parser carries 32-bit numbers and a known command. */
  lemma {:induction false} ParsedSound(conv: u32, b: Bytes)
    ensures AllSound(conv, Parse(conv, b).segs)
    ensures ImgSegs(Parse(conv, b).segs) == Parse(conv, b).segs
    decreases |b|
  {
    var h := ParseHead(conv, b);
    if h.Seg? {
      ParsedSound(conv, h.rest);
      assert Sound(conv, h.seg) && ImgSeg(h.seg) == h.seg;
    }
  }

  lemma Encode32Decode(b: Bytes, at: nat)
    requires at + 4 <= |b|
    ensures Encode32(Decode32(b, at)) == b[at..at + 4]
  {
    var x, y, z, w := b[at] as int, b[at + 1] as int, b[at + 2] as int, b[at + 3] as int;
    var l := Decode32(b, at);
    LowByte(z, w);
    LowByte(y, z + 256 * w);
    LowByte(x, y + 256 * (z + 256 * w));
    assert l == x + 256 * (y + 256 * (z + 256 * w));
    HighBytes(l);
  }

  lemma LowByte(x: int, r: int)
    requires 0 <= x < 256
    ensures (x + 256 * r) % 256 == x && (x + 256 * r) / 256 == r
  {
  }

  lemma HighBytes(l: nat)
    ensures l / 65536 == l / 256 / 256 && l / 16777216 == l / 256 / 256 / 256
  {
  }

  lemma Encode16Decode(b: Bytes, at: nat)
    requires at + 2 <= |b|
    ensures Encode16(Decode16(b, at)) == b[at..at + 2]
  {
  }

  lemma NumberFits(x: u32)
    ensures U32(x) == x
  {
  }

  /** A segment the parser finds is what the bytes say: encoding it gives them back. */
  lemma HeadIsPrefix(conv: u32, b: Bytes)
    requires ParseHead(conv, b).Seg?
    ensures var Seg(s, rest) := ParseHead(conv, b); Sound(conv, s) && ImgSeg(s) == s && EncodeSeg(s) + rest == b
  {
    hide Encode16, Encode32, Decode16, Decode32, U32;
    var Seg(s, rest) := ParseHead(conv, b);
    Encode32Decode(b, 0);
    Encode16Decode(b, 6);
    Encode32Decode(b, 8);
    Encode32Decode(b, 12);
    Encode32Decode(b, 16);
    Encode32Decode(b, 20);
    NumberFits(s.sn);
    NumberFits(s.una);
    NumberFits(|s.frag.data|);
    var end := OVERHEAD + |s.frag.data|;
    assert b[..24] == b[0..4] + [b[4], b[5]] + b[6..8] + b[8..12] + b[12..16] + b[16..20] + b[20..24];
    assert b == b[..24] + b[24..end] + b[end..];
  }

  /** Why the parser stops at some bytes, read from the bytes alone: too few for a header,
      another conversation, fewer than the header announces, or an unknown command. */
  function StopReason(conv: u32, b: Bytes): Option<int> {
    if |b| < 24 then Some(0)
    else if b[..4] != Encode32(conv) then Some(-1)
    else if 24 + Decode32(b, 20) > |b| then Some(-2)
    else if b[4] != 81 && b[4] != 82 && b[4] != 83 && b[4] != 84 then Some(-3)
    else None
  }

  lemma HeadStops(conv: u32, b: Bytes)
    ensures StopReason(conv, b) == if ParseHead(conv, b).Stop? then Some(ParseHead(conv, b).code) else None
  {
    hide Encode32, Decode32, Decode16;
    if |b| >= 24 {
      Encode32Decode(b, 0);
      if b[0..4] == Encode32(conv) { Decode32Encode(conv, b, 0); }
    }
  }

  /** Exactly what the parser makes of arbitrary bytes: the segments it yields, encoded, are
      the beginning of the bytes; they are of this conversation with known commands; and it
      returns the code for the reason to stop at what follows them. */
  lemma {:induction false} ParseExact(conv: u32, b: Bytes)
    ensures var p := Parse(conv, b); var done := EncodeDatagram(p.segs);
      && AllSound(conv, p.segs)
      && done <= b
      && StopReason(conv, b[|done|..]) == Some(p.code)
    decreases |b|
  {
    hide ParseHead, StopReason, EncodeSeg;
    HeadStops(conv, b);
    var h := ParseHead(conv, b);
    if h.Seg? {
      HeadIsPrefix(conv, b);
      ParseExact(conv, h.rest);
      var p := Parse(conv, b);
      assert p.segs[1..] == Parse(conv, h.rest).segs;
      EncodeFirst(p.segs);
      var done := EncodeDatagram(p.segs[1..]);
      assert h.rest == done + h.rest[|done|..];
      ConcatAssoc(EncodeSeg(h.seg), done, h.rest[|done|..]);
      assert b[|EncodeSeg(h.seg) + done|..] == h.rest[|done|..];
    } else {
      assert b[0..] == b;
    }
  }

  // ----- packing -------------------------------------------------------------------------------

  lemma {:induction false} EncodedSize(d: Datagram)
    ensures |EncodeDatagram(d)| == SizeOf(d)
  {
    if d != [] {
      EncodedSize(d[..|d| - 1]);
    }
  }

  function Flatten(ds: seq<Datagram>): seq<Segment> {
    if ds == [] then [] else Flatten(ds[..|ds| - 1]) + ds[|ds| - 1]
  }

  /** Each datagram is non-empty and fits the MTU. */
  ghost predicate WellPacked(mtu: nat, ds: seq<Datagram>) {
    forall i :: 0 <= i < |ds| ==> ds[i] != [] && SizeOf(ds[i]) <= mtu
  }

  lemma FlattenClose(p: Packer)
    ensures Flatten(Close(p)) == Flatten(p.done) + p.cur
  {
    if p.cur != [] {
      assert Close(p)[..|Close(p)| - 1] == p.done;
    }
  }

  lemma {:induction false} PutAllLossless(mtu: nat, p: Packer, segs: seq<Segment>)
    requires WellPacked(mtu, p.done) && SizeOf(p.cur) <= mtu
    requires forall i :: 0 <= i < |segs| ==> segs[i].Size() <= mtu
    ensures var q := PutAll(mtu, p, segs);
      && Flatten(q.done) + q.cur == Flatten(p.done) + p.cur + segs
      && WellPacked(mtu, q.done) && SizeOf(q.cur) <= mtu
  {
    hide Flatten, SizeOf, Put;
    if segs == [] {
      assert Flatten(p.done) + p.cur + segs == Flatten(p.done) + p.cur;
    } else {
      var n := |segs| - 1;
      PutAllLossless(mtu, p, segs[..n]);
      PutLossless(mtu, PutAll(mtu, p, segs[..n]), segs[n]);
      assert segs == segs[..n] + [segs[n]];
      ConcatAssoc(Flatten(p.done) + p.cur, segs[..n], [segs[n]]);
    }
  }

  lemma PutLossless(mtu: nat, p: Packer, s: Segment)
    requires WellPacked(mtu, p.done) && SizeOf(p.cur) <= mtu && s.Size() <= mtu
    ensures var q := Put(mtu, p, s);
      && Flatten(q.done) + q.cur == Flatten(p.done) + p.cur + [s]
      && WellPacked(mtu, q.done) && SizeOf(q.cur) <= mtu
  {
    if SizeOf(p.cur) + s.Size() > mtu {
      FlattenClose(p);
      assert [s][..0] == [];
    } else {
      var cur := p.cur + [s];
      assert cur[..|cur| - 1] == p.cur && cur[|cur| - 1] == s;
      ConcatAssoc(Flatten(p.done), p.cur, [s]);
    }
  }

  /** Packing is lossless: the datagrams, end to end, are the segments in order, each
      datagram is non-empty, and none is larger than the MTU. */
  lemma PackLossless(mtu: nat, segs: seq<Segment>)
    requires forall i :: 0 <= i < |segs| ==> segs[i].Size() <= mtu
    ensures Flatten(Pack(mtu, segs)) == segs
    ensures WellPacked(mtu, Pack(mtu, segs))
  {
    var p := Packer([], []);
    PutAllLossless(mtu, p, segs);
    FlattenClose(PutAll(mtu, p, segs));
    assert Flatten([]) + [] + segs == segs;
  }

  /** No datagram could have taken the segment that starts the next one. */
  ghost predicate Greedy(mtu: nat, ds: seq<Datagram>) {
    forall i :: 0 < i < |ds| ==> ds[i] != [] && SizeOf(ds[i - 1]) + ds[i][0].Size() > mtu
  }

  lemma PutGreedy(mtu: nat, p: Packer, s: Segment)
    requires Greedy(mtu, Close(p)) && (p.cur == [] ==> p.done == []) && s.Size() <= mtu
    ensures var q := Put(mtu, p, s); Greedy(mtu, Close(q)) && q.cur != []
  {
    hide SizeOf;
    SizeOfNothing();
    var q := Put(mtu, p, s);
    var x: seq<Datagram>, y: seq<Datagram> := Close(p), Close(q);
    forall i | 0 < i < |y| ensures y[i] != [] && SizeOf(y[i - 1]) + y[i][0].Size() > mtu {
      if i < |x| && p.cur != [] { assert SizeOf(x[i - 1]) + x[i][0].Size() > mtu; }
    }
  }

  lemma SizeOfNothing()
    ensures SizeOf([]) == 0
  {
  }

  lemma {:induction false} PutAllGreedy(mtu: nat, segs: seq<Segment>)
    requires forall i :: 0 <= i < |segs| ==> segs[i].Size() <= mtu
    ensures var q := PutAll(mtu, Packer([], []), segs); Greedy(mtu, Close(q)) && (q.cur == [] ==> q.done == [])
  {
    hide Put, Greedy;
    if segs == [] {
      NothingGreedy(mtu);
    } else {
      var n := |segs| - 1;
      PutAllGreedy(mtu, segs[..n]);
      PutGreedy(mtu, PutAll(mtu, Packer([], []), segs[..n]), segs[n]);
    }
  }

  lemma NothingGreedy(mtu: nat)
    ensures Greedy(mtu, [])
  {
  }

  /** Packing is economical: a datagram is handed over only when the next segment does not
      fit behind it. */
  lemma PackGreedy(mtu: nat, segs: seq<Segment>)
    requires forall i :: 0 <= i < |segs| ==> segs[i].Size() <= mtu
    ensures Greedy(mtu, Pack(mtu, segs))
  {
    hide PutAll, Greedy;
    PutAllGreedy(mtu, segs);
  }
}
