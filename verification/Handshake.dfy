/** The text packets of the connection handshake in util/connect_packet.cpp, and their
    separation from KCP datagrams. Characters are bytes; text constants are ASCII. */
module Handshake {
  import opened SerialNumbers
  import opened Segments
  import opened Engine
  import opened Robustness
  import opened Wire
  import opened Progress
  import Protocol

  const CONNECT := Ascii("asio_kcp_connect_package get_conv")
  const SEND_BACK := Ascii("asio_kcp_connect_back_package get_conv:")
  const DISCONNECT := Ascii("asio_kcp_disconnect_package")

  const SPACE: u8 := 32
  const ZERO: u8 := 48

  function Ascii(s: string): (b: Bytes)
    requires forall i :: 0 <= i < |s| ==> s[i] < 128 as char
    ensures |b| == |s|
    ensures forall i :: 0 <= i < |s| ==> b[i] == s[i] as int
  {
    seq(|s|, i requires 0 <= i < |s| => s[i] as int)
  }

  // ----- printing and parsing numbers --------------------------------------------------------------

  /** `%u`. */
  function Decimal(n: nat): (b: Bytes)
    ensures |b| > 0
  {
    if n < 10 then [ZERO + n] else Decimal(n / 10) + [ZERO + n % 10]
  }

  predicate IsDigit(c: u8) { ZERO <= c <= ZERO + 9 }

  /** The characters C's `isspace` accepts. */
  predicate IsSpace(c: u8) { c == SPACE || 9 <= c <= 13 }

  /** The value of the digits at the front of `b`, continued from `acc`; the end of the bytes
      stands for the terminating NUL. */
  function Digits(b: Bytes, acc: nat): nat {
    if b != [] && IsDigit(b[0]) then Digits(b[1..], 10 * acc + (b[0] - ZERO)) else acc
  }

  function SkipSpace(b: Bytes): Bytes {
    if b != [] && IsSpace(b[0]) then SkipSpace(b[1..]) else b
  }

  /** `atol` with a 64-bit `long`: white space, a sign, digits, clamped to the range. */
  function Atol(b: Bytes): int {
    var t := SkipSpace(b);
    if t != [] && t[0] == 45 then Max(0 - Digits(t[1..], 0), -0x8000_0000_0000_0000)
    else Min(Digits(if t != [] && t[0] == 43 then t[1..] else t, 0), 0x7fff_ffff_ffff_ffff)
  }

  // ----- the packets -----------------------------------------------------------------------------------

  /** `making_connect_packet`: the text with its terminating NUL. */
  function MakeConnect(): Bytes { CONNECT + [0] }

  /** `making_send_back_conv_packet`. */
  function MakeSendBack(conv: u32): Bytes { SEND_BACK + [SPACE] + Decimal(conv) }

  /** `making_disconnect_packet`. */
  function MakeDisconnect(conv: u32): Bytes { DISCONNECT + [SPACE] + Decimal(conv) }

  predicate IsConnect(b: Bytes) { |b| == |CONNECT| + 1 && b[..|CONNECT|] == CONNECT }

  predicate IsSendBack(b: Bytes) { |b| > |SEND_BACK| + 1 && b[..|SEND_BACK|] == SEND_BACK }

  predicate IsDisconnect(b: Bytes) { |b| > |DISCONNECT| + 1 && b[..|DISCONNECT|] == DISCONNECT }

  /** `grab_conv_from_send_back_conv_packet`; the recogniser keeps the read in bounds. */
  function GrabSendBack(b: Bytes): u32
    requires IsSendBack(b)
  {
    U32(Atol(b[|SEND_BACK| + 1..]))
  }

  /** `grab_conv_from_disconnect_packet`. */
  function GrabDisconnect(b: Bytes): u32
    requires IsDisconnect(b)
  {
    U32(Atol(b[|DISCONNECT| + 1..]))
  }

  /** What the recognisers accept: the text and exactly one more byte of any kind; or the
      text, one more byte of any kind, and something after it. */
  lemma RecognisedExactly(b: Bytes)
    ensures IsConnect(b) <==> exists x: u8 :: b == CONNECT + [x]
    ensures IsSendBack(b) <==> exists x: u8, rest: Bytes :: rest != [] && b == SEND_BACK + [x] + rest
    ensures IsDisconnect(b) <==> exists x: u8, rest: Bytes :: rest != [] && b == DISCONNECT + [x] + rest
  {
    hide Ascii;
    OneMore(b, CONNECT);
    SomethingAfter(b, SEND_BACK);
    SomethingAfter(b, DISCONNECT);
  }

  lemma OneMore(b: Bytes, text: Bytes)
    ensures |b| == |text| + 1 && b[..|text|] == text <==> exists x: u8 :: b == text + [x]
  {
    if |b| == |text| + 1 && b[..|text|] == text { assert b == text + [b[|text|]]; }
  }

  lemma SomethingAfter(b: Bytes, text: Bytes)
    ensures |b| > |text| + 1 && b[..|text|] == text <==>
      exists x: u8, rest: Bytes :: rest != [] && b == text + [x] + rest
  {
    var n := |text|;
    if |b| > n + 1 && b[..n] == text { assert b == text + [b[n]] + b[n + 1..]; }
  }

  // ----- round trips -------------------------------------------------------------------------------------

  lemma {:induction false} DecimalIsDigits(n: nat)
    ensures forall i :: 0 <= i < |Decimal(n)| ==> IsDigit(Decimal(n)[i])
  {
    if n >= 10 {
      DecimalIsDigits(n / 10);
    }
  }

  /** Parsing `b` then one more digit. */
  lemma {:induction false} DigitsAppend(b: Bytes, d: u8, acc: nat)
    requires IsDigit(d) && forall i :: 0 <= i < |b| ==> IsDigit(b[i])
    ensures Digits(b + [d], acc) == 10 * Digits(b, acc) + (d - ZERO)
  {
    if b == [] {
      assert (b + [d])[1..] == [];
    } else {
      assert (b + [d])[1..] == b[1..] + [d];
      DigitsAppend(b[1..], d, 10 * acc + (b[0] - ZERO));
    }
  }

  lemma {:induction false} DigitsDecimal(n: nat)
    ensures Digits(Decimal(n), 0) == n
  {
    if n >= 10 {
      DigitsDecimal(n / 10);
      DecimalIsDigits(n / 10);
      DigitsAppend(Decimal(n / 10), ZERO + n % 10, 0);
    } else {
      assert [ZERO + n][1..] == [];
    }
  }

  /** Printing a number and reading it with `atol` gives the number back. */
  lemma AtolDecimal(n: u32)
    ensures Atol(Decimal(n)) == n
  {
    DecimalIsDigits(n);
    DigitsDecimal(n);
    assert IsDigit(Decimal(n)[0]);
  }

  /** The digits that count are those before the first other byte. */
  lemma {:induction false} DigitsStop(b: Bytes, rest: Bytes, acc: nat)
    requires (forall i :: 0 <= i < |b| ==> IsDigit(b[i])) && (rest == [] || !IsDigit(rest[0]))
    ensures Digits(b + rest, acc) == Digits(b, acc)
    decreases |b|
  {
    if b == [] {
      assert b + rest == rest;
    } else {
      assert (b + rest)[1..] == b[1..] + rest;
      DigitsStop(b[1..], rest, 10 * acc + (b[0] - ZERO));
    }
  }

  lemma {:induction false} SpaceSkipped(ws: Bytes, t: Bytes)
    requires (forall i :: 0 <= i < |ws| ==> IsSpace(ws[i])) && (t == [] || !IsSpace(t[0]))
    ensures SkipSpace(ws + t) == t
    decreases |ws|
  {
    if ws == [] {
      assert ws + t == t;
    } else {
      assert (ws + t)[1..] == ws[1..] + t;
      SpaceSkipped(ws[1..], t);
    }
  }

  /** What `atol` reads: after any white space an optional sign and a number, up to the first
      byte that is no digit; numbers beyond 64 bits are clamped. */
  lemma AtolReads(ws: Bytes, sign: Bytes, n: nat, rest: Bytes)
    requires (forall i :: 0 <= i < |ws| ==> IsSpace(ws[i])) && (rest == [] || !IsDigit(rest[0]))
    requires sign == [] || sign == [43] || sign == [45]
    ensures Atol(ws + (sign + (Decimal(n) + rest))) ==
      if sign == [45] then Max(0 - n, -0x8000_0000_0000_0000) else Min(n, 0x7fff_ffff_ffff_ffff)
  {
    DecimalIsDigits(n);
    DigitsDecimal(n);
    hide Decimal, Digits, SkipSpace;
    var d := Decimal(n);
    DigitsStop(d, rest, 0);
    var t := sign + (d + rest);
    SpaceSkipped(ws, t);
    if sign == [] { assert t == d + rest; } else { assert t[1..] == d + rest; }
  }

  /** For every conversation number each packet is recognised and yields the number it was
      made from. */
  lemma PacketsRoundTrip(conv: u32)
    ensures IsConnect(MakeConnect())
    ensures IsSendBack(MakeSendBack(conv)) && GrabSendBack(MakeSendBack(conv)) == conv
    ensures IsDisconnect(MakeDisconnect(conv)) && GrabDisconnect(MakeDisconnect(conv)) == conv
  {
    hide Atol, Decimal, Ascii;
    AtolDecimal(conv);
    assert MakeConnect()[..|CONNECT|] == CONNECT;
    var s, d := MakeSendBack(conv), MakeDisconnect(conv);
    assert s[..|SEND_BACK|] == SEND_BACK && s[|SEND_BACK| + 1..] == Decimal(conv);
    assert d[..|DISCONNECT|] == DISCONNECT && d[|DISCONNECT| + 1..] == Decimal(conv);
  }

  // ----- separation ----------------------------------------------------------------------------------------

  /** Where the three texts differ: position 9, and position 17. */
  lemma TextsDiffer()
    ensures |CONNECT| == 33 && |SEND_BACK| == 39 && |DISCONNECT| == 27
    ensures CONNECT[9] == SEND_BACK[9] != DISCONNECT[9]
    ensures CONNECT[17] != SEND_BACK[17]
    ensures CONNECT[4] == SEND_BACK[4] == DISCONNECT[4] == 95
  {
  }

  /** No bytes are taken for two kinds of packet. */
  lemma RecognisersExclusive(b: Bytes)
    ensures !(IsConnect(b) && IsSendBack(b))
    ensures !(IsConnect(b) && IsDisconnect(b))
    ensures !(IsSendBack(b) && IsDisconnect(b))
  {
    hide Ascii;
    TextsDiffer();
    if IsConnect(b) { assert b[9] == CONNECT[9] && b[17] == CONNECT[17]; }
    if IsSendBack(b) { assert b[9] == SEND_BACK[9] && b[17] == SEND_BACK[17]; }
    if IsDisconnect(b) { assert b[9] == DISCONNECT[9]; }
  }

  /** A handshake packet has an underscore where a KCP datagram has its command. */
  lemma RecognisedHasUnderscore(b: Bytes)
    requires IsConnect(b) || IsSendBack(b) || IsDisconnect(b)
    ensures |b| > 4 && b[4] == 95
  {
    hide Ascii;
    TextsDiffer();
    if IsConnect(b) { assert b[4] == CONNECT[4]; }
    else if IsSendBack(b) { assert b[4] == SEND_BACK[4]; }
    else { assert b[4] == DISCONNECT[4]; }
  }

  /** No datagram that a flush emits is ever taken for a handshake packet, whatever the
      conversation number and the payload. */
  lemma DatagramsAreNotHandshakes(cfg: Config, e: Engine, i: nat)
    requires cfg.Valid() && Ok(cfg, e) && i < |Flush(Exact, cfg, e).1|
    ensures var b := EncodeDatagram(Flush(Exact, cfg, e).1[i]); !IsConnect(b) && !IsSendBack(b) && !IsDisconnect(b)
  {
    hide FlushSegs, FlushState, Pack, Header, IsConnect, IsSendBack, IsDisconnect, Flatten;
    FlushLossless(cfg, e);
    var ds := Flush(Exact, cfg, e).1;
    var s := ds[i][0];
    EncodeFirst(ds[i]);
    var b := EncodeDatagram(ds[i]);
    assert b[4] == Header(s)[4] == s.cmd;
    Protocol.FlattenContains(ds, i, s);
    var segs := FlushSegs(Exact, cfg, e);
    var j :| 0 <= j < |segs| && segs[j] == s;
    if IsConnect(b) || IsSendBack(b) || IsDisconnect(b) {
      RecognisedHasUnderscore(b);
    }
  }
}
