/** route.c: IPv4 fragmentation (section 3.2 of RFC 791). */
module Fragment {
  import opened OnesComplement

  const IP_SIZE := 20
  const MIN_MTU := 590
  const OFFSETS := 0x2000

  /** The flags and fragment offset word of an IPv4 header, field by field. */
  datatype Field = Field(reserved: bool, df: bool, mf: bool, offset: nat)

  function FieldOf(w: Word): (f: Field) { Field(w / 0x8000 == 1, w / 0x4000 % 2 == 1, w / 0x2000 % 2 == 1, w % OFFSETS) }

  /** The word made by or-ing flags and an offset of up to 14 bits. The offset's fourteenth
      bit is where MF is. */
  function Ored(f: Field): (w: Word)
    requires f.offset < 2 * OFFSETS
  {
    f.offset % OFFSETS + (if f.mf || f.offset >= OFFSETS then 0x2000 else 0) + (if f.df then 0x4000 else 0) + (if f.reserved then 0x8000 else 0)
  }

  lemma OredField(f: Field)
    requires f.offset < 2 * OFFSETS
    ensures FieldOf(Ored(f)) == f.(mf := f.mf || f.offset >= OFFSETS, offset := f.offset % OFFSETS)
  {
  }

  /** A header for a fragment: length, flags and offset, and a fresh checksum. */
  function Header(o: Order, h: seq<Byte>, len: nat, f: Field): (r: seq<Byte>)
    requires |h| == IP_SIZE && IP_SIZE + len < 0x1_0000 && f.offset < 2 * OFFSETS
    ensures |r| == IP_SIZE
  {
    var blank := WithWord(Big, WithWord(Big, WithWord(Big, h, 2, IP_SIZE + len), 6, Ored(f)), 10, 0);
    WithWord(o, blank, 10, Checksum(o, blank, 0xFFFF))
  }

  function LengthIn(h: seq<Byte>): (w: Word)
    requires |h| == IP_SIZE
  {
    WordAt(Big, h, 2)
  }

  function FieldIn(h: seq<Byte>): (f: Field)
    requires |h| == IP_SIZE
  {
    FieldOf(WordAt(Big, h, 6))
  }

  /** The parts of the header that all fragments share. */
  ghost predicate SameOtherwise(h: seq<Byte>, r: seq<Byte>) {
    |h| == |r| == IP_SIZE && forall i :: 0 <= i < IP_SIZE && i !in {2, 3, 6, 7, 10, 11} ==> r[i] == h[i]
  }

  lemma WordBack(d: seq<Byte>, i: nat, w: Word)
    requires i + 2 <= |d|
    ensures WordAt(Big, WithWord(Big, d, i, w), i) == w
  {
  }

  lemma HeaderIs(o: Order, h: seq<Byte>, len: nat, f: Field)
    requires |h| == IP_SIZE && IP_SIZE + len < 0x1_0000 && f.offset < 2 * OFFSETS
    ensures var r := Header(o, h, len, f);
            && Valid(Little, r) && Valid(Big, r) && SameOtherwise(h, r)
            && LengthIn(r) == IP_SIZE + len && FieldIn(r) == f.(mf := f.mf || f.offset >= OFFSETS, offset := f.offset % OFFSETS)
  {
    var a := WithWord(Big, h, 2, IP_SIZE + len);
    var b := WithWord(Big, a, 6, Ored(f));
    var blank := WithWord(Big, b, 10, 0);
    var c := Checksum(o, blank, 0xFFFF);
    InsertedChecks(o, blank, 10);
    OrderIrrelevant(Header(o, h, len, f));
    WordBack(h, 2, IP_SIZE + len);
    WordBack(a, 6, Ored(f));
    OredField(f);
    hide Ored;
    hide FieldOf;
    hide Valid;
    hide Checksum;
  }

  /** The offset of what follows n bytes from off on has at most 14 bits. */
  predicate Fits(off: nat, n: nat) { off + n / 8 < 2 * OFFSETS }

  function Min(a: nat, b: nat): (c: nat) { if a < b then a else b }

  /** The fragments of payload p, the first of which belongs at offset off. */
  function Fragments(o: Order, eth: seq<Byte>, h: seq<Byte>, maxlen: nat, orig: Field, p: seq<Byte>, off: nat): (r: seq<seq<Byte>>)
    requires |h| == IP_SIZE && maxlen > 0 && IP_SIZE + |p| < 0x1_0000 && Fits(off, |p|)
    decreases |p|
  {
    if p == [] then []
    else
      var len := Min(maxlen, |p|);
      var f := orig.(offset := off, mf := orig.mf || len < |p|);
      [eth + Header(o, h, len, f) + p[..len]] + Fragments(o, eth, h, maxlen, orig, p[len..], off + len / 8)
  }

  /** g is a datagram on its own that carries the first n bytes of p: within the limit,
      with a length, a checksum and flags that are right, at offset off. */
  ghost predicate Carries(g: seq<Byte>, eth: seq<Byte>, h: seq<Byte>, limit: nat, orig: Field, p: seq<Byte>, off: nat, n: nat) {
    var e := |eth|;
    && 0 < n <= |p| && |g| == e + IP_SIZE + n && |g| <= limit
    && g[..e] == eth && g[e + IP_SIZE..] == p[..n]
    && (n < |p| ==> n % 8 == 0)
    && var r := g[e..e + IP_SIZE];
       && Valid(Little, r) && Valid(Big, r) && SameOtherwise(h, r) && LengthIn(r) == IP_SIZE + n
       && FieldIn(r) == orig.(offset := off, mf := orig.mf || n < |p|)
  }

  /** Putting the payloads where their offsets say gives p, without gap or overlap. */
  ghost predicate Reassembles(r: seq<seq<Byte>>, eth: seq<Byte>, h: seq<Byte>, limit: nat, orig: Field, p: seq<Byte>, off: nat)
    decreases |p|
  {
    if p == [] then r == []
    else
      r != [] &&
      var n := |r[0]| - |eth| - IP_SIZE;
      n > 0 && Carries(r[0], eth, h, limit, orig, p, off, n) && Reassembles(r[1..], eth, h, limit, orig, p[n..], off + n / 8)
  }

  /** The offset of the last fragment. */
  function LastOffset(off: nat, n: nat, maxlen: nat): (r: nat)
    requires maxlen > 0
    ensures r >= off
    decreases n
  {
    if n <= maxlen then off else LastOffset(off + maxlen / 8, n - maxlen, maxlen)
  }

  lemma FirstCarries(o: Order, eth: seq<Byte>, h: seq<Byte>, maxlen: nat, limit: nat, orig: Field, p: seq<Byte>, off: nat)
    requires |h| == IP_SIZE && 0 < maxlen && maxlen % 8 == 0 && |eth| + IP_SIZE + maxlen <= limit
    requires p != [] && IP_SIZE + |p| < 0x1_0000 && Fits(off, |p|)
    ensures var len := Min(maxlen, |p|);
            var f := orig.(offset := off, mf := orig.mf || len < |p|);
            Carries(eth + Header(o, h, len, f) + p[..len], eth, h, limit, orig, p, off, len) <==> off < OFFSETS
  {
    var len := Min(maxlen, |p|);
    var f := orig.(offset := off, mf := orig.mf || len < |p|);
    var r := Header(o, h, len, f);
    HeaderIs(o, h, len, f);
    var g, e := eth + r + p[..len], |eth|;
    assert g[..e] == eth && g[e..e + IP_SIZE] == r && g[e + IP_SIZE..] == p[..len];
    hide Header;
    hide Valid;
    hide SameOtherwise;
    hide FieldIn;
    hide LengthIn;
    assert Carries(g, eth, h, limit, orig, p, off, len) <==> off < OFFSETS;
  }

  /** The fragments reassemble exactly if the last offset fits its 13 bits. */
  lemma {:induction false} ReassemblesIff(o: Order, eth: seq<Byte>, h: seq<Byte>, maxlen: nat, limit: nat, orig: Field, p: seq<Byte>, off: nat)
    requires |h| == IP_SIZE && 0 < maxlen && maxlen % 8 == 0 && |eth| + IP_SIZE + maxlen <= limit
    requires IP_SIZE + |p| < 0x1_0000 && Fits(off, |p|)
    ensures Reassembles(Fragments(o, eth, h, maxlen, orig, p, off), eth, h, limit, orig, p, off)
            <==> p == [] || LastOffset(off, |p|, maxlen) < OFFSETS
    decreases |p|
  {
    hide Header;
    hide Carries;
    hide Reassembles;
    if p == [] {
      NoneLeft(eth, h, limit, orig, off);
    } else {
      FirstCarries(o, eth, h, maxlen, limit, orig, p, off);
      var len := Min(maxlen, |p|);
      var f := orig.(offset := off, mf := orig.mf || len < |p|);
      var g := eth + Header(o, h, len, f) + p[..len];
      var rest := Fragments(o, eth, h, maxlen, orig, p[len..], off + len / 8);
      assert Fragments(o, eth, h, maxlen, orig, p, off) == [g] + rest;
      hide Fragments;
      OneMore(g, rest, eth, h, limit, orig, p, off, len);
      ReassemblesIff(o, eth, h, maxlen, limit, orig, p[len..], off + len / 8);
    }
  }

  lemma NoneLeft(eth: seq<Byte>, h: seq<Byte>, limit: nat, orig: Field, off: nat)
    ensures Reassembles([], eth, h, limit, orig, [], off)
  {
  }

  lemma OneMore(g: seq<Byte>, rest: seq<seq<Byte>>, eth: seq<Byte>, h: seq<Byte>, limit: nat, orig: Field, p: seq<Byte>, off: nat, n: nat)
    requires 0 < n <= |p| && |g| == |eth| + IP_SIZE + n
    ensures Reassembles([g] + rest, eth, h, limit, orig, p, off)
            <==> Carries(g, eth, h, limit, orig, p, off, n) && Reassembles(rest, eth, h, limit, orig, p[n..], off + n / 8)
  {
    hide Carries;
    assert ([g] + rest)[1..] == rest;
  }

  /** No legal datagram, which ends within 65535 bytes, runs out of offsets. */
  lemma {:induction false} LegalFits(off: nat, n: nat, maxlen: nat)
    requires maxlen > 0 && maxlen % 8 == 0 && 8 * off + n < 0x1_0000 && n > 0
    ensures LastOffset(off, n, maxlen) < OFFSETS
    decreases n
  {
    if n > maxlen {
      LegalFits(off + maxlen / 8, n - maxlen, maxlen);
    }
  }

  /** Headers that agree where a fragment header is not rewritten give the same one. */
  lemma HeaderSame(o: Order, h: seq<Byte>, ip: seq<Byte>, len: nat, f: Field)
    requires SameOtherwise(h, ip) && IP_SIZE + len < 0x1_0000 && f.offset < 2 * OFFSETS
    ensures Header(o, ip, len, f) == Header(o, h, len, f)
  {
    hide Ored;
    hide Checksum;
    var w := Ored(f);
    var a := WithWord(Big, WithWord(Big, WithWord(Big, h, 2, IP_SIZE + len), 6, w), 10, 0);
    var b := WithWord(Big, WithWord(Big, WithWord(Big, ip, 2, IP_SIZE + len), 6, w), 10, 0);
    assert a == b;
  }

  function Limit(mtu: nat): (m: nat) { if mtu > MIN_MTU then mtu else MIN_MTU }

  /** (limit - ether_size - ip_size) & ~0x7. */
  function MaxLen(mtu: nat, ether: nat): (m: nat)
    requires ether + IP_SIZE + 8 <= MIN_MTU
    ensures m > 0 && m % 8 == 0 && ether + IP_SIZE + m <= Limit(mtu)
  {
    (Limit(mtu) - ether - IP_SIZE) / 8 * 8
  }

  /** No IP options, and the length in the header is that of the packet. */
  predicate Fragmentable(packet: seq<Byte>, ether: nat)
    requires ether + IP_SIZE <= |packet|
  {
    packet[ether] % 16 == IP_SIZE / 4 && ether + LengthIn(packet[ether..ether + IP_SIZE]) == |packet|
  }

  /** fragment_ipv4_packet. */
  method FragmentIpv4(o: Order, packet: seq<Byte>, ether: nat, mtu: nat) returns (sent: seq<seq<Byte>>)
    requires ether + IP_SIZE <= |packet| && ether + IP_SIZE + 8 <= MIN_MTU
    ensures !Fragmentable(packet, ether) ==> sent == []
    ensures Fragmentable(packet, ether) ==>
              var h := packet[ether..ether + IP_SIZE];
              sent == Fragments(o, packet[..ether], h, MaxLen(mtu, ether), FieldIn(h), packet[ether + IP_SIZE..], FieldIn(h).offset)
  {
    sent := [];
    var h := packet[ether..ether + IP_SIZE];
    if h[0] % 16 != IP_SIZE / 4 || ether + LengthIn(h) != |packet| {
      return;
    }
    var p := packet[ether + IP_SIZE..];
    OffsetSmall(h);
    hide FieldIn;
    hide MaxLen;
    hide Fragments;
    sent := SendAll(o, packet[..ether], h, p, MaxLen(mtu, ether), FieldIn(h));
  }

  lemma OffsetSmall(h: seq<Byte>)
    requires |h| == IP_SIZE
    ensures FieldIn(h).offset < OFFSETS
  {
  }

  /** The loop of fragment_ipv4_packet. */
  method SendAll(o: Order, eth: seq<Byte>, h: seq<Byte>, p: seq<Byte>, maxlen: nat, origf: Field) returns (sent: seq<seq<Byte>>)
    requires |h| == IP_SIZE && maxlen > 0 && maxlen % 8 == 0 && IP_SIZE + |p| < 0x1_0000 && origf.offset < OFFSETS
    ensures Fits(origf.offset, |p|) && sent == Fragments(o, eth, h, maxlen, origf, p, origf.offset)
  {
    sent := [];
    var todo, offset: nat := |p|, 0;
    var ipoff: nat := origf.offset;
    var ip := h;
    hide *;
    SameItself(h);
    StartFits(origf.offset, |p|);
    ghost var all := Fragments(o, eth, h, maxlen, origf, p, ipoff);
    AllPending(o, eth, h, maxlen, origf, p, ipoff);
    while todo > 0
      invariant 0 <= todo && offset + todo == |p| && SameOtherwise(h, ip) && Fits(ipoff, todo)
      invariant Pending(all, sent, Fragments(o, eth, h, maxlen, origf, p[offset..], ipoff))
    {
      var len, g;
      len, ipoff, ip, g := One(o, eth, h, p, maxlen, origf, ip, offset, ipoff, todo, sent, all);
      todo, offset := todo - len, offset + len;
      sent := sent + [g];
    }
    Finished(o, eth, h, maxlen, origf, p, ipoff, sent, all);
  }

  /** The rest is still to be sent. */
  predicate Pending(all: seq<seq<Byte>>, sent: seq<seq<Byte>>, rest: seq<seq<Byte>>) { all == sent + rest }

  lemma AllPending(o: Order, eth: seq<Byte>, h: seq<Byte>, maxlen: nat, orig: Field, p: seq<Byte>, off: nat)
    requires |h| == IP_SIZE && maxlen > 0 && IP_SIZE + |p| < 0x1_0000 && Fits(off, |p|)
    ensures Pending(Fragments(o, eth, h, maxlen, orig, p, off), [], Fragments(o, eth, h, maxlen, orig, p[0..], off))
  {
    hide Fragments;
    assert p[0..] == p;
  }

  lemma FitsItself(off: nat, n: nat)
    requires Fits(off, n)
    ensures off < 2 * OFFSETS
  {
  }

  lemma StartFits(off: nat, n: nat)
    requires off < OFFSETS && IP_SIZE + n < 0x1_0000
    ensures Fits(off, n)
  {
  }

  /** One turn of that loop. */
  method One(o: Order, eth: seq<Byte>, h: seq<Byte>, p: seq<Byte>, maxlen: nat, origf: Field, was: seq<Byte>, offset: nat, ipoff: nat,
             todo: nat, ghost sent: seq<seq<Byte>>, ghost all: seq<seq<Byte>>)
    returns (len: nat, next: nat, ip: seq<Byte>, g: seq<Byte>)
    requires |h| == IP_SIZE && maxlen > 0 && maxlen % 8 == 0 && IP_SIZE + |p| < 0x1_0000 && Fits(ipoff, todo)
    requires 0 < todo && offset + todo == |p| && SameOtherwise(h, was)
    requires Pending(all, sent, Fragments(o, eth, h, maxlen, origf, p[offset..], ipoff))
    ensures 0 < len <= todo && SameOtherwise(h, ip) && Fits(next, todo - len)
    ensures Pending(all, sent + [g], Fragments(o, eth, h, maxlen, origf, p[offset + len..], next))
  {
    hide *;
    FitsItself(ipoff, todo);
    len := if todo > maxlen then maxlen else todo;
    next := ipoff + len / 8;
    var f := origf.(offset := ipoff, mf := origf.mf || todo - len > 0);
    ip, g := Emit(o, eth, h, was, len, f, p[offset..offset + len]);
    Advance(o, eth, h, maxlen, origf, p, offset, ipoff, len, f, g, sent, all);
  }

  lemma SameItself(h: seq<Byte>)
    requires |h| == IP_SIZE
    ensures SameOtherwise(h, h)
  {
  }

  lemma Advance(o: Order, eth: seq<Byte>, h: seq<Byte>, maxlen: nat, orig: Field, p: seq<Byte>, i: nat, off: nat, len: nat, f: Field,
                g: seq<Byte>, sent: seq<seq<Byte>>, all: seq<seq<Byte>>)
    requires |h| == IP_SIZE && maxlen > 0 && maxlen % 8 == 0 && i < |p| && IP_SIZE + |p| < 0x1_0000 && Fits(off, |p| - i)
    requires len == if |p| - i > maxlen then maxlen else |p| - i
    requires f == orig.(offset := off, mf := orig.mf || len < |p| - i) && g == eth + Header(o, h, len, f) + p[i..i + len]
    requires Pending(all, sent, Fragments(o, eth, h, maxlen, orig, p[i..], off))
    ensures Fits(off + len / 8, |p| - i - len)
    ensures Pending(all, sent + [g], Fragments(o, eth, h, maxlen, orig, p[i + len..], off + len / 8))
  {
    hide Fragments;
    hide Header;
    hide Fits;
    Unfolded(o, eth, h, maxlen, orig, p, i, off, len);
  }

  lemma Finished(o: Order, eth: seq<Byte>, h: seq<Byte>, maxlen: nat, orig: Field, p: seq<Byte>, off: nat,
                 sent: seq<seq<Byte>>, all: seq<seq<Byte>>)
    requires |h| == IP_SIZE && maxlen > 0 && Fits(off, 0) && Pending(all, sent, Fragments(o, eth, h, maxlen, orig, p[|p|..], off))
    ensures sent == all
  {
    assert p[|p|..] == [];
  }

  lemma Unfolded(o: Order, eth: seq<Byte>, h: seq<Byte>, maxlen: nat, orig: Field, p: seq<Byte>, i: nat, off: nat, len: nat)
    requires |h| == IP_SIZE && maxlen > 0 && maxlen % 8 == 0 && i < |p| && IP_SIZE + |p| < 0x1_0000 && Fits(off, |p| - i)
    requires len == if |p| - i > maxlen then maxlen else |p| - i
    ensures Fits(off + len / 8, |p| - i - len)
    ensures var f := orig.(offset := off, mf := orig.mf || len < |p| - i);
            Fragments(o, eth, h, maxlen, orig, p[i..], off)
            == [eth + Header(o, h, len, f) + p[i..i + len]] + Fragments(o, eth, h, maxlen, orig, p[i + len..], off + len / 8)
  {
    hide Header;
    assert p[i..][..len] == p[i..i + len] && p[i..][len..] == p[i + len..];
  }

  /** Rewrite the header for one fragment and put the fragment together. */
  method Emit(o: Order, eth: seq<Byte>, ghost h: seq<Byte>, was: seq<Byte>, len: nat, f: Field, payload: seq<Byte>)
    returns (ip: seq<Byte>, g: seq<Byte>)
    requires SameOtherwise(h, was) && IP_SIZE + len < 0x1_0000 && f.offset < 2 * OFFSETS
    ensures SameOtherwise(h, ip) && g == eth + Header(o, h, len, f) + payload
  {
    hide Ored;
    hide Checksum;
    HeaderSame(o, h, was, len, f);
    HeaderIs(o, h, len, f);
    ip := WithWord(Big, was, 2, IP_SIZE + len);
    ip := WithWord(Big, ip, 6, Ored(f));
    ip := WithWord(Big, ip, 10, 0);
    var sum := InetChecksum(o, ip, 0xFFFF);
    ip := WithWord(o, ip, 10, sum);
    g := eth + ip + payload;
  }

  /** What is sent for a legal datagram reassembles to it. */
  lemma SentReassembles(o: Order, packet: seq<Byte>, ether: nat, mtu: nat)
    requires ether + IP_SIZE <= |packet| && ether + IP_SIZE + 8 <= MIN_MTU && Fragmentable(packet, ether)
    requires 8 * FieldIn(packet[ether..ether + IP_SIZE]).offset + |packet| - ether - IP_SIZE < 0x1_0000
    ensures var eth, h, p := packet[..ether], packet[ether..ether + IP_SIZE], packet[ether + IP_SIZE..];
            var f := FieldIn(h);
            Reassembles(Fragments(o, eth, h, MaxLen(mtu, ether), f, p, f.offset), eth, h, Limit(mtu), f, p, f.offset)
  {
    var eth, h, p := packet[..ether], packet[ether..ether + IP_SIZE], packet[ether + IP_SIZE..];
    var f := FieldIn(h);
    ReassemblesIff(o, eth, h, MaxLen(mtu, ether), Limit(mtu), f, p, f.offset);
    if p != [] {
      LegalFits(f.offset, |p|, MaxLen(mtu, ether));
    }
    hide *;
  }

  // The same in bytes, and how large the fragments are.

  /** Where length, flags and offset are in a header. */
  lemma FieldBytes(h: seq<Byte>)
    requires |h| == IP_SIZE
    ensures var f := FieldIn(h);
            && LengthIn(h) == 256 * (h[2] as int) + h[3] as int && f.offset == 256 * (h[6] % 32) + h[7] as int
            && (f.mf <==> h[6] / 32 % 2 == 1) && (f.df <==> h[6] / 64 % 2 == 1) && (f.reserved <==> h[6] >= 128)
  {
  }

  /** Which packets are fragmented: a header of five words, whose length is the packet's. */
  lemma FragmentableIff(packet: seq<Byte>, ether: nat)
    requires ether + IP_SIZE <= |packet|
    ensures Fragmentable(packet, ether) <==>
            packet[ether] % 16 == 5 && ether + 256 * (packet[ether + 2] as int) + packet[ether + 3] as int == |packet|
  {
    var h := packet[ether..ether + IP_SIZE];
    assert h[2] == packet[ether + 2] && h[3] == packet[ether + 3];
    FieldBytes(h);
  }

  lemma {:induction false} FullFragments(o: Order, eth: seq<Byte>, h: seq<Byte>, maxlen: nat, orig: Field, p: seq<Byte>, off: nat, i: nat)
    requires |h| == IP_SIZE && maxlen > 0 && IP_SIZE + |p| < 0x1_0000 && Fits(off, |p|)
    requires i + 1 < |Fragments(o, eth, h, maxlen, orig, p, off)|
    ensures |Fragments(o, eth, h, maxlen, orig, p, off)[i]| == |eth| + IP_SIZE + maxlen
    decreases |p|
  {
    hide Header;
    var len := Min(maxlen, |p|);
    if i > 0 {
      FullFragments(o, eth, h, maxlen, orig, p[len..], off + len / 8, i - 1);
    }
  }

  /** All fragments but the last are as large as the path allows, in steps of eight bytes. */
  lemma LargestFragments(o: Order, packet: seq<Byte>, ether: nat, mtu: nat, i: nat)
    requires ether + IP_SIZE <= |packet| && ether + IP_SIZE + 8 <= MIN_MTU && Fragmentable(packet, ether)
    requires var h := packet[ether..ether + IP_SIZE];
             i + 1 < |Fragments(o, packet[..ether], h, MaxLen(mtu, ether), FieldIn(h), packet[ether + IP_SIZE..], FieldIn(h).offset)|
    ensures var h, limit := packet[ether..ether + IP_SIZE], if mtu > 590 then mtu else 590;
            var g := Fragments(o, packet[..ether], h, MaxLen(mtu, ether), FieldIn(h), packet[ether + IP_SIZE..], FieldIn(h).offset)[i];
            |g| <= limit < |g| + 8
  {
    var h := packet[ether..ether + IP_SIZE];
    LargestStep(mtu, ether);
    FullFragments(o, packet[..ether], h, MaxLen(mtu, ether), FieldIn(h), packet[ether + IP_SIZE..], FieldIn(h).offset, i);
    hide *;
  }

  lemma LargestStep(mtu: nat, ether: nat)
    requires ether + IP_SIZE + 8 <= MIN_MTU
    ensures var limit := if mtu > 590 then mtu else 590;
            ether + IP_SIZE + MaxLen(mtu, ether) <= limit < ether + IP_SIZE + MaxLen(mtu, ether) + 8
  {
  }
}
