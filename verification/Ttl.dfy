/** route.c: decrementing the time to live of a packet in place. */
module Ttl {
  import opened OnesComplement

  const ETHER_SIZE := 14
  const ETH_P_IP := 0x0800
  const ETH_P_8021Q := 0x8100
  const ETH_P_IPV6 := 0x86DD
  const IP_SIZE := 20
  const IP6_SIZE := 40
  const IPPROTO_ICMP := 1
  const IPPROTO_ICMPV6 := 58
  const ICMP_TIME_EXCEEDED := 11
  const ICMP6_TIME_EXCEEDED := 3

  /** An IPv4 header with the time to live one lower and its checksum adjusted. */
  function Decremented(h: seq<Byte>): (r: seq<Byte>)
    requires |h| >= 12 && h[8] > 1
  {
    var before: int, after: int := WordOf(Big, h[8], h[9]), WordOf(Big, h[8] - 1, h[9]);
    var c := Fold(WordOf(Big, h[10], h[11]) + before + (0xFFFF - after));
    h[8 := h[8] - 1][10 := c / 256][11 := c % 256]
  }

  /** The adjusted header as two word replacements. */
  lemma DecrementedWords(h: seq<Byte>)
    requires |h| >= 12 && h[8] > 1
    ensures var before, after := WordAt(Big, h, 8), WordAt(Big, h, 8) - 256;
            var c := Fold(WordAt(Big, h, 10) + before + (0xFFFF - after));
            Decremented(h) == WithWord(Big, WithWord(Big, h, 8, after), 10, c)
  {
    hide Fold;
    var after := WordAt(Big, h, 8) - 256;
    assert after / 256 == h[8] - 1 && after % 256 == h[9];
  }

  lemma DecrementedSum(h: seq<Byte>) returns (q: int)
    requires |h| % 2 == 0 && |h| >= 12 && h[8] > 1
    ensures Sum(Big, Decremented(h)) == Sum(Big, h) + 0xFFFF * q
    ensures Sum(Big, h) > 0 && Sum(Big, Decremented(h)) > 0
  {
    DecrementedWords(h);
    var before, after := WordAt(Big, h, 8), WordAt(Big, h, 8) - 256;
    var total := WordAt(Big, h, 10) + before + (0xFFFF - after);
    var c := Fold(total);
    var g := WithWord(Big, h, 8, after);
    SumWith(Big, h, 8, after);
    SumWith(Big, g, 10, c);
    assert WordAt(Big, g, 10) == WordAt(Big, h, 10);
    var k := FoldIs(total);
    var one: int := 1;
    q := one - k;
    SumAt(Big, h, 8);
    SumAt(Big, Decremented(h), 8);
    hide *;
  }

  lemma SameMultiple(x: int, y: int, q: int)
    requires y == x + 0xFFFF * q
    ensures x % 0xFFFF == 0 <==> y % 0xFFFF == 0
  {
  }

  /** The header checks afterwards exactly if it checked before, in either byte order. */
  lemma DecrementedChecks(o: Order, h: seq<Byte>)
    requires |h| % 2 == 0 && |h| >= 12 && h[8] > 1
    ensures Valid(o, Decremented(h)) <==> Valid(o, h)
  {
    var q := DecrementedSum(h);
    SameMultiple(Sum(Big, h), Sum(Big, Decremented(h)), q);
    ValidIff(Big, h);
    ValidIff(Big, Decremented(h));
    OrderIrrelevant(h);
    OrderIrrelevant(Decremented(h));
    hide *;
  }

  /** Where the network header starts, and which protocol it is. */
  function Layer(d: seq<Byte>): (p: (nat, Word))
    requires |d| >= 18
  {
    var kind := WordOf(Big, d[12], d[13]);
    if kind == ETH_P_8021Q then (ETHER_SIZE + 4, WordOf(Big, d[16], d[17])) else (ETHER_SIZE, kind)
  }

  /** What do_decrement_ttl makes of a packet: it goes on, changed, or it stops here, with
      or without an ICMP message to its source. */
  datatype Outcome = Forward(packet: seq<Byte>) | Stop(unreachable: bool)

  /** The packet with the header from place e on replaced by what Decremented makes of it. */
  function Ttl4(d: seq<Byte>, e: nat): (r: seq<Byte>)
    requires e + 12 <= |d| && d[e + 8] > 1
  {
    d[..e] + Decremented(d[e..])
  }

  function Handled(d: seq<Byte>, len: nat): (r: Outcome)
    requires |d| >= 64 && len <= |d|
  {
    var (e, kind) := Layer(d);
    if kind == ETH_P_IP then
      if len < e + IP_SIZE then Stop(false)
      else if d[e + 8] <= 1 then Stop(d[e + 11] != IPPROTO_ICMP || d[e + 32] != ICMP_TIME_EXCEEDED)
      else Forward(Ttl4(d, e))
    else if kind == ETH_P_IPV6 then
      if len < e + IP6_SIZE then Stop(false)
      else if d[e + 7] <= 1 then Stop(d[e + 6] != IPPROTO_ICMPV6 || d[e + 40] != ICMP6_TIME_EXCEEDED)
      else Forward(d[e + 7 := d[e + 7] - 1])
    else Forward(d)
  }

  // When an expired packet is answered. An error message about a time-exceeded message is
  // the one thing not to send.

  /** An ICMP time-exceeded message behind an IPv4 header at place e of any length. */
  predicate TimeExceeded4(d: seq<Byte>, e: nat, len: nat)
    requires e + IP_SIZE <= len <= |d|
  {
    var icmp := e + 4 * (d[e] % 16);
    d[e + 9] == IPPROTO_ICMP && icmp < len && d[icmp] == ICMP_TIME_EXCEEDED
  }

  predicate TimeExceeded6(d: seq<Byte>, e: nat, len: nat)
    requires e + IP6_SIZE <= len <= |d|
  {
    d[e + 6] == IPPROTO_ICMPV6 && e + IP6_SIZE < len && d[e + IP6_SIZE] == ICMP6_TIME_EXCEEDED
  }

  predicate Expired4(d: seq<Byte>, e: nat, len: nat)
    requires |d| >= 64 && len <= |d|
  {
    Layer(d) == (e, ETH_P_IP) && e + IP_SIZE <= len && d[e + 8] <= 1
  }

  predicate Expired6(d: seq<Byte>, e: nat, len: nat)
    requires |d| >= 64 && len <= |d|
  {
    Layer(d) == (e, ETH_P_IPV6) && e + IP6_SIZE <= len && d[e + 7] <= 1
  }

  /** The code looks at bytes 11 and 32 of the header, the low half of the checksum and the
      payload, and is right exactly if they happen to say what bytes 9 and the first byte
      behind the header say. */
  lemma Answered4Iff(d: seq<Byte>, e: nat, len: nat)
    requires |d| >= 64 && len <= |d| && Expired4(d, e, len)
    ensures Handled(d, len) == Stop(!TimeExceeded4(d, e, len)) <==>
            ((d[e + 11] == 1 && d[e + 32] == 11) <==> TimeExceeded4(d, e, len))
  {
  }

  /** A packet of 64 bytes with an IPv4 header of 20 at place 14, expired. */
  function Sample(protocol: Byte, sum: Byte, icmp: Byte, payload: Byte): (d: seq<Byte>)
    ensures |d| == 64
  {
    seq(64, _ => 0)[12 := 8][14 := 0x45][22 := 1][23 := protocol][25 := sum][34 := icmp][46 := payload]
  }

  /** Both mistakes: an expired time-exceeded message is answered, and an expired UDP packet
      is not. */
  lemma AnsweredWrongly()
    ensures var d := Sample(1, 0, 11, 0); Expired4(d, 14, 64) && TimeExceeded4(d, 14, 64) && Handled(d, 64) == Stop(true)
    ensures var d := Sample(17, 1, 0, 11); Expired4(d, 14, 64) && !TimeExceeded4(d, 14, 64) && Handled(d, 64) == Stop(false)
  {
  }

  /** The IPv6 test is right for every packet that goes beyond its header, and otherwise
      unless the byte behind the packet misleads it. */
  lemma Answered6Iff(d: seq<Byte>, e: nat, len: nat)
    requires |d| >= 64 && len <= |d| && Expired6(d, e, len)
    ensures Handled(d, len) == Stop(!TimeExceeded6(d, e, len)) <==>
            e + IP6_SIZE < len || d[e + 6] != IPPROTO_ICMPV6 || d[e + IP6_SIZE] != ICMP6_TIME_EXCEEDED
  {
  }

  /** Nothing but the time to live and the checksum of the header changes, and the header,
      whatever its length, checks afterwards exactly if it checked before. */
  lemma ForwardedChecks(o: Order, d: seq<Byte>, e: nat, n: nat)
    requires e + n <= |d| && n >= 12 && n % 2 == 0 && d[e + 8] > 1
    ensures var r := Ttl4(d, e);
            && |r| == |d| && r[e + 8] == d[e + 8] - 1
            && (forall i :: 0 <= i < |d| && i != e + 8 && i != e + 10 && i != e + 11 ==> r[i] == d[i])
            && (Valid(o, r[e..e + n]) <==> Valid(o, d[e..e + n]))
  {
    hide Valid;
    hide Fold;
    DecrementedChecks(o, d[e..e + n]);
    assert Ttl4(d, e)[e..e + n] == Decremented(d[e..e + n]);
  }

  /** Where the network header starts, by the bytes themselves: behind 14, or behind 18 with
      an 802.1Q tag. */
  function Start(d: seq<Byte>): (e: nat)
    requires |d| >= 64
  {
    if d[12] == 0x81 && d[13] == 0x00 then 18 else 14
  }

  predicate Carries(d: seq<Byte>, e: nat, high: Byte, low: Byte)
    requires 14 <= e <= 18 && |d| >= 64
  {
    d[e - 2] == high && d[e - 1] == low
  }

  /** What becomes of every packet. It stops exactly if it is IPv4 or IPv6 and too short for
      its header or expired, and a short one is not answered. A forwarded IPv4 packet has
      lived one hop less, its header checks if it did before, and nothing else changes; a
      forwarded IPv6 packet changes in its hop limit only, and any other not at all. */
  lemma HandledIs(d: seq<Byte>, len: nat)
    requires |d| >= 64 && len <= |d|
    ensures var e, r := Start(d), Handled(d, len);
            var v4, v6 := Carries(d, e, 0x08, 0x00), Carries(d, e, 0x86, 0xDD);
            && (r.Stop? <==> (v4 && (len < e + 20 || d[e + 8] <= 1)) || (v6 && (len < e + 40 || d[e + 7] <= 1)))
            && ((v4 && len < e + 20) || (v6 && len < e + 40) ==> r == Stop(false))
            && (r.Forward? && v4 ==> Aged4(d, r.packet, e))
            && (r.Forward? && v6 ==> |r.packet| == |d| && r.packet[e + 7] == d[e + 7] - 1
                                     && forall i :: 0 <= i < |d| && i != e + 7 ==> r.packet[i] == d[i])
            && (r.Forward? && !v4 && !v6 ==> r.packet == d)
  {
    var e := Start(d);
    if Carries(d, e, 0x08, 0x00) && len >= e + 20 && d[e + 8] > 1 {
      AgedBy(d, e);
    }
    hide Aged4;
    hide Ttl4;
  }

  lemma AgedBy(d: seq<Byte>, e: nat)
    requires e + 12 <= |d| && d[e + 8] > 1
    ensures Aged4(d, Ttl4(d, e), e)
  {
    hide Valid;
    hide Ttl4;
    var r := Ttl4(d, e);
    ForwardedChecks(Big, d, e, 12);
    forall o: Order, m: nat | e + 12 <= m <= |d| && (m - e) % 2 == 0
      ensures Valid(o, r[e..m]) <==> Valid(o, d[e..m])
    {
      ForwardedChecks(o, d, e, m - e);
    }
  }

  /** One hop later: time to live one lower, at most the checksum changed besides, and the
      header, whatever its length, valid exactly if it was before. */
  ghost predicate Aged4(d: seq<Byte>, r: seq<Byte>, e: nat) {
    && |r| == |d| >= e + 12 && d[e + 8] > 1 && r[e + 8] == d[e + 8] - 1
    && (forall i :: 0 <= i < |d| && i != e + 8 && i != e + 10 && i != e + 11 ==> r[i] == d[i])
    && (forall o: Order, m: nat | e + 12 <= m <= |d| && (m - e) % 2 == 0 :: Valid(o, r[e..m]) <==> Valid(o, d[e..m]))
  }

  /** do_decrement_ttl, in place; the buffer is always larger than the longest header. */
  method DecrementTtl(data: array<Byte>, len: nat) returns (forward: bool, unreachable: bool)
    requires data.Length >= 64 && len <= data.Length
    modifies data
    ensures match Handled(old(data[..]), len)
            case Forward(packet) => forward && data[..] == packet
            case Stop(u) => !forward && unreachable == u && data[..] == old(data[..])
  {
    hide Fold;
    forward, unreachable := true, false;
    var kind: int := WordOf(Big, data[12], data[13]);
    var ethlen := ETHER_SIZE;
    if kind == ETH_P_8021Q {
      kind := WordOf(Big, data[16], data[17]);
      ethlen := ethlen + 4;
    }
    if kind == ETH_P_IP {
      if len < ethlen + IP_SIZE {
        return false, false;
      }
      if data[ethlen + 8] <= 1 {
        return false, data[ethlen + 11] != IPPROTO_ICMP || data[ethlen + 32] != ICMP_TIME_EXCEEDED;
      }
      Update(data, ethlen);
    } else if kind == ETH_P_IPV6 {
      if len < ethlen + IP6_SIZE {
        return false, false;
      }
      if data[ethlen + 7] <= 1 {
        return false, data[ethlen + 6] != IPPROTO_ICMPV6 || data[ethlen + 40] != ICMP6_TIME_EXCEEDED;
      }
      data[ethlen + 7] := data[ethlen + 7] - 1;
    }
  }

  method Update(data: array<Byte>, ethlen: nat)
    requires ethlen + 12 <= data.Length && data[ethlen + 8] > 1
    modifies data
    ensures data[..] == Ttl4(old(data[..]), ethlen)
  {
    var before: int := WordOf(Big, data[ethlen + 8], data[ethlen + 9]);
    data[ethlen + 8] := data[ethlen + 8] - 1;
    var after: int := WordOf(Big, data[ethlen + 8], data[ethlen + 9]);
    var sum: nat := WordOf(Big, data[ethlen + 10], data[ethlen + 11]) + before + (0xFFFF - after);
    var c := Folded(sum);
    hide Fold;
    data[ethlen + 10] := c / 256;
    data[ethlen + 11] := c % 256;
  }
}
