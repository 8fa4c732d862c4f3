/** What an endpoint does with the messages of an arbitrary peer. */
module SptpsGuard {
  import opened Basics
  import opened Sptps
  import opened SptpsStream

  // The layout of what is signed, hashed, keyed and sent, byte by byte.

  /** m is role, first KEX message, second KEX message and label, one after the other. */
  predicate Spells(m: Bytes, role: byte, first: KexMsg, second: KexMsg, name: Bytes) {
    |m| == 131 + |name| && m[0] == role && m[1..66] == first && m[66..131] == second && m[131..] == name
  }

  /** The signed message is the one that is spelled like this, and no other. */
  lemma SignedIs(m: Bytes, initiator: bool, first: KexMsg, second: KexMsg, name: Bytes)
    ensures Spells(m, if initiator then 1 else 0, first, second, name) <==> m == SigMessage(initiator, first, second, name)
  {
    var role := if initiator then 1 else 0;
    var n := SigMessage(initiator, first, second, name);
    assert Spells(n, role, first, second, name);
    if Spells(m, role, first, second, name) {
      assert m == [m[0]] + m[1..66] + m[66..131] + m[131..];
    }
  }

  /** "key expansion", the nonces of initiator and responder, and the label. */
  predicate Seeds(seed: Bytes, initiatorKex: KexMsg, responderKex: KexMsg, name: Bytes) {
    && |seed| == 77 + |name| && seed[..13] == [107, 101, 121, 32, 101, 120, 112, 97, 110, 115, 105, 111, 110]
    && seed[13..45] == initiatorKex[1..33] && seed[45..77] == responderKex[1..33] && seed[77..] == name
  }

  lemma MaterialIs(c: Crypto, shared: Bytes, initiatorKex: KexMsg, responderKex: KexMsg, name: Bytes, seed: Bytes)
    requires Seeds(seed, initiatorKex, responderKex, name)
    ensures KeyMaterial(c, shared, initiatorKex, responderKex, name) == c.prf(shared, seed)
  {
    assert seed == seed[..13] + seed[13..45] + seed[45..77] + seed[77..];
  }

  /** The first two bytes hold n, most significant first. */
  predicate HeaderIs(w: Bytes, n: int) { |w| >= 2 && 256 * (w[0] as int) + w[1] as int == n }

  /** A record on the wire: its length in two bytes, most significant first, and then type
      and data, in the clear or sealed under key and number. */
  lemma WireIs(c: Crypto, key: Option<Bytes>, seqno: nat, ty: byte, data: Bytes)
    requires |data| < 65536
    ensures var w := Wire(c, key, seqno, ty, data);
            && |w| >= 2 && HeaderIs(w, |data|)
            && (key == None ==> |w| == 3 + |data| && w[2] == ty && w[3..] == data)
            && (key.Some? ==> w[2..] == c.seal(key.value, seqno, [ty] + data))
  {
  }

  /** Application data goes out only after the handshake, and only sealed. */
  lemma SendsSealed(c: Crypto, s: Sess, ty: byte, data: Bytes)
    requires Valid(s) && |data| < 65536
    ensures var o := SendRecord(c, s, ty, data);
            && (o.ok <==> s.outstate && ty < 128)
            && (!o.ok ==> o.s == s)
            && (o.ok ==> exists head :: HeaderIs(head, |data|) && |head| == 2 &&
                           o.s == s.(sent := s.sent + head + c.seal(s.outKey.value, s.outseqno, [ty] + data), outseqno := (s.outseqno + 1) % U32))
  {
    var o := SendRecord(c, s, ty, data);
    if o.ok {
      var head := Header(|data|);
      assert s.sent + (head + c.seal(s.outKey.value, s.outseqno, [ty] + data)) == s.sent + head + c.seal(s.outKey.value, s.outseqno, [ty] + data);
    }
  }

  /** Our own KEX message: version, nonce and ephemeral public key of a fresh draw. */
  lemma KexIs(c: Crypto, g: Config, s: Sess)
    requires Valid(s)
    ensures var o, d := SendKex(c, g, s), g.rand(s.draws);
            && (o.ok <==> s.mykex == None) && (!o.ok ==> o.s == s)
            && (o.ok ==> exists k: KexMsg ::
                  && k[0] == 0 && k[1..33] == d.nonce && k[33..65] == c.publicOf(d.secret)
                  && o.s == SendRecordPriv(c, s, 128, k).(mykex := Some(k), ecdh := Some(d.secret), draws := s.draws + 1))
  {
    var d := g.rand(s.draws);
    var k := KexBytes(c, d);
    assert k[33..65] == k[33..];
    assert k[0] == 0 && k[1..33] == d.nonce && k[33..65] == c.publicOf(d.secret);
  }

  /** A rekey can be forced from the idle state only, and starts with our KEX message. */
  lemma ForceIff(c: Crypto, g: Config, s: Sess)
    requires Valid(s)
    ensures var o := ForceKex(c, g, s);
            && (o.ok <==> s.state == SecondaryKex && s.mykex == None)
            && (s.state != SecondaryKex ==> o.s == s)
            && (o.ok ==> o.s == SendKex(c, g, s.(state := Kex)).s)
  {
  }

  // Handshake messages of any content, state by state.

  /** The message that the peer has to sign: his role, his KEX message, mine, and the label. */
  ghost predicate Proves(c: Crypto, g: Config, his: KexMsg, mine: KexMsg, sig: Bytes) {
    |sig| == 64 && exists m :: Spells(m, if g.initiator then 0 else 1, his, mine, g.name) && c.verify(g.hisKey, m, sig)
  }

  lemma ProvesIff(c: Crypto, g: Config, his: KexMsg, mine: KexMsg, sig: Bytes)
    ensures Proves(c, g, his, mine, sig) <==> |sig| == 64 && c.verify(g.hisKey, SigMessage(!g.initiator, his, mine, g.name), sig)
  {
    hide SigMessage;
    hide Spells;
    var role: byte := if g.initiator then 0 else 1;
    forall m: Bytes {:trigger Spells(m, role, his, mine, g.name)}
      ensures Spells(m, role, his, mine, g.name) <==> m == SigMessage(!g.initiator, his, mine, g.name)
    {
      SignedIs(m, !g.initiator, his, mine, g.name);
    }
  }

  /** A signature that does not verify changes nothing. One that does switches to the key
      material of this exchange: the initiator sends with bytes 64 to 127 of it and
      receives with bytes 0 to 63, the responder the other way round. */
  lemma SigIff(c: Crypto, g: Config, s: Sess, data: Bytes)
    requires Valid(s) && s.state.Sig?
    ensures var o, his, mine := ReceiveHandshake(c, g, s, data), s.hiskex.value, s.mykex.value;
            && (o.ok <==> Proves(c, g, his, mine, data))
            && (!o.ok ==> o.s == s)
            && (o.ok ==> exists seed ::
                  && Seeds(seed, if g.initiator then mine else his, if g.initiator then his else mine, g.name)
                  && var k := c.prf(c.shared(s.ecdh.value, his[33..]), seed);
                     && o.s.outstate && o.s.outKey == Some(if g.initiator then k[64..128] else k[0..64])
                     && o.s.mykex == None && o.s.hiskex == None && o.s.ecdh == None && o.s.inseqno == s.inseqno
                     && if s.outstate then
                          && o.s.state == Ack && o.s.key == Some(k) && o.s.delivered == s.delivered
                          && o.s.instate == s.instate && o.s.inKey == s.inKey
                        else
                          && o.s.state == SecondaryKex && o.s.key == None && o.s.delivered == s.delivered + [Record(128, [])]
                          && o.s.instate && o.s.inKey == Some(if g.initiator then k[0..64] else k[64..128]))
  {
    var o, his, mine := ReceiveHandshake(c, g, s, data), s.hiskex.value, s.mykex.value;
    ProvesIff(c, g, his, mine, data);
    hide Proves;
    hide SigMessage;
    if o.ok {
      var a, b := if g.initiator then mine else his, if g.initiator then his else mine;
      var shared := c.shared(s.ecdh.value, his[33..]);
      var seed := KEY_EXPANSION + a[1..33] + b[1..33] + g.name;
      SeedOf(a, b, g.name);
      MaterialIs(c, shared, a, b, g.name, seed);
      hide Seeds;
      hide KeyMaterial;
      var k := c.prf(shared, seed);
      assert k[64..128] == k[64..] && k[0..64] == k[..64];
    }
  }

  lemma SeedOf(a: KexMsg, b: KexMsg, name: Bytes)
    ensures Seeds(KEY_EXPANSION + a[1..33] + b[1..33] + name, a, b, name)
  {
  }

  /** A KEX message is taken if it has 65 bytes and version 0, and nothing else about it
      matters; no key changes. */
  lemma KexIff(c: Crypto, g: Config, s: Sess, data: Bytes)
    requires Valid(s) && (s.state.Kex? || s.state.SecondaryKex?)
    ensures var o := ReceiveHandshake(c, g, s, data);
            && (o.ok <==> |data| == 65 && data[0] == 0 && (s.state.SecondaryKex? ==> s.mykex == None))
            && o.s.(state := s.state, hiskex := s.hiskex, mykex := s.mykex, ecdh := s.ecdh, draws := s.draws, sent := s.sent, outseqno := s.outseqno) == s
            && (s.state.Kex? ==> o.s.mykex == s.mykex && o.s.ecdh == s.ecdh && o.s.draws == s.draws && (!o.ok ==> o.s == s))
            && (o.ok ==> o.s.state == Sig && o.s.hiskex == Some(data))
            && (!o.ok ==> o.s.state == s.state && o.s.hiskex == s.hiskex)
  {
  }

  /** The acknowledgement is empty and brings the incoming half of the new key. */
  lemma AckIff(c: Crypto, g: Config, s: Sess, data: Bytes)
    requires Valid(s) && s.state.Ack?
    ensures var o, k := ReceiveHandshake(c, g, s, data), s.key.value;
            && (o.ok <==> data == []) && (!o.ok ==> o.s == s)
            && (o.ok ==> o.s == s.(inKey := Some(if g.initiator then k[0..64] else k[64..128]), key := None, instate := true,
                                   delivered := s.delivered + [Record(128, [])], state := SecondaryKex))
  {
    var k := s.key.value;
    assert k[64..128] == k[64..] && k[0..64] == k[..64];
  }

  /** Which records are dealt with at all: data once there is an incoming key, handshake
      messages in any started state, and nothing else. */
  lemma RecordIff(c: Crypto, g: Config, s: Sess, ty: byte, data: Bytes)
    requires Valid(s)
    ensures var o := HandleRecord(c, g, s, ty, data);
            && (ty < 128 && s.instate ==> o.s == s.(delivered := s.delivered + [Record(ty, data)]) && (o.ok <==> g.accepts(ty, data)))
            && ((ty < 128 && !s.instate) || ty > 128 || (ty == 128 && s.state.Zero?) ==> o == Outcome(s, false))
            && (ty == 128 ==> o == ReceiveHandshake(c, g, s, data))
  {
  }

  /** Before sptps_start nothing is read at all. */
  lemma NotStarted(c: Crypto, g: Config, e: Endpoint, data: Bytes)
    requires OpenDropsTag(c) && ValidEndpoint(e) && e.sess.state.Zero?
    ensures ReceiveData(c, g, e, data) == (e, 0)
  {
  }

  // Streams of any bytes.

  /** An endpoint between two records. */
  ghost predicate Between(c: Crypto, e: Endpoint) {
    OpenDropsTag(c) && Reading(e) && e.inbuf == []
  }

  /** A plaintext record that has not arrived completely changes no session field. */
  lemma Short(c: Crypto, g: Config, e: Endpoint, data: Bytes)
    requires Between(c, e) && !e.sess.instate
    requires |data| < 2 || |data| < 3 + HeaderValue(data)
    ensures var o := PushAll(c, g, e, data); o.ok && o.s.sess == e.sess
  {
    hide PushAll;
    if data == [] {
      PushNone(c, g, e);
    } else if |data| <= 2 {
      PushHeader(c, g, e, data);
    } else {
      Headed(c, g, e, data);
      var e1 := PushAll(c, g, e, data[..2]).s;
      PushPartial(c, g, e1, data[2..]);
    }
  }

  lemma PushNone(c: Crypto, g: Config, e: Endpoint)
    requires OpenDropsTag(c) && Reading(e)
    ensures PushAll(c, g, e, []) == Outcome(e, true)
  {
  }

  lemma Headed(c: Crypto, g: Config, e: Endpoint, data: Bytes)
    requires Between(c, e) && |data| >= 2
    ensures var e1 := e.(inbuf := data[..2], reclen := HeaderValue(data));
            && PushAll(c, g, e, data[..2]) == Outcome(e1, true) && Reading(e1)
            && PushAll(c, g, e, data) == PushAll(c, g, e1, data[2..])
  {
    hide PushAll;
    PushHeader(c, g, e, data[..2]);
    assert e.inbuf + data[..2] == data[..2];
    assert data == data[..2] + data[2..];
    PushAllAppend(c, g, e, data[..2], data[2..]);
  }

  /** A plaintext record that has: it is handled, and reading goes on unless that fails. */
  lemma Whole(c: Crypto, g: Config, e: Endpoint, data: Bytes)
    requires Between(c, e) && !e.sess.instate && |data| >= 2 && |data| >= 3 + HeaderValue(data)
    ensures var n, s1 := HeaderValue(data), e.sess.(inseqno := Low32(e.sess.inseqno + 1));
            var h, o := HandleRecord(c, g, s1, data[2], data[3..3 + n]), PushAll(c, g, e, data);
            && (!h.ok ==> !o.ok && o.s.sess == h.s)
            && (h.ok ==> Between(c, Endpoint(h.s, [], n)) && o == PushAll(c, g, Endpoint(h.s, [], n), data[3 + n..]))
  {
    hide PushAll;
    hide HandleRecord;
    var n := HeaderValue(data);
    Headed(c, g, e, data);
    var e1 := e.(inbuf := data[..2], reclen := n);
    var body := data[2..3 + n];
    PushRest(c, g, e1, body);
    assert data[2..] == body + data[3 + n..];
    PushAllAppend(c, g, e1, body, data[3 + n..]);
    var e2 := e1.(inbuf := e1.inbuf + body);
    assert e2.inbuf == data[..3 + n] && e2.inbuf[2] == data[2] && e2.inbuf[3..] == data[3..3 + n];
    CompleteValid(c, g, e2);
  }

  /** Once there are keys, no byte, good or bad, takes them away. */
  lemma CompleteStays(c: Crypto, g: Config, e: Endpoint)
    requires OpenDropsTag(c) && ValidEndpoint(e) && |e.inbuf| == RecordSize(e) && e.sess.outstate && e.sess.instate
    ensures var r := Complete(c, g, e).s.sess; r.outstate && r.instate
  {
    var s1 := e.sess.(inseqno := Low32(e.sess.inseqno + 1));
    var p := c.open(e.sess.inKey.value, e.sess.inseqno, e.inbuf[2..]);
    if p.Some? {
      HandshakeStays(c, g, s1, p.value[1..]);
      hide ReceiveHandshake;
    }
  }

  lemma HandshakeStays(c: Crypto, g: Config, s: Sess, data: Bytes)
    requires Valid(s)
    ensures var r := ReceiveHandshake(c, g, s, data).s; (s.outstate ==> r.outstate) && (s.instate ==> r.instate)
  {
  }

  lemma {:induction false} Stays(c: Crypto, g: Config, e: Endpoint, data: Bytes)
    requires OpenDropsTag(c) && Reading(e) && e.sess.outstate && e.sess.instate
    ensures var r := PushAll(c, g, e, data).s.sess; r.outstate && r.instate
    decreases |data|
  {
    hide Complete;
    if data != [] {
      var e1 := e.(inbuf := e.inbuf + [data[0]]);
      if |e1.inbuf| > 2 && |e1.inbuf| == RecordSize(e1) {
        CompleteStays(c, g, e1);
      }
      PushByteReading(c, g, e, data[0]);
      var o := PushByte(c, g, e, data[0]);
      if o.ok {
        Stays(c, g, o.s, data[1..]);
      }
    }
  }

  /** The stream begins with a KEX record of version 0 and a SIG record that verifies, under
      the key we expect, over that KEX message and the one we sent. */
  ghost predicate Authentic(c: Crypto, g: Config, mine: KexMsg, data: Bytes) {
    && |data| >= 135
    && data[..3] == [0, 65, 128] && data[3] == 0
    && data[68..71] == [0, 64, 128] && Proves(c, g, data[3..68], mine, data[71..135])
  }

  /** The endpoint after sptps_start. */
  function Fresh(c: Crypto, g: Config): (e: Endpoint) { Endpoint(Start(c, g), [], 0) }

  function FreshKex(c: Crypto, g: Config): (k: KexMsg) { KexBytes(c, g.rand(0)) }

  lemma FreshIs(c: Crypto, g: Config)
    requires OpenDropsTag(c)
    ensures var e, s := Fresh(c, g), Start(c, g);
            && Between(c, e) && s.state == Kex && s.mykex == Some(FreshKex(c, g)) && s.ecdh.Some? && s.hiskex == None
            && !s.instate && !s.outstate && s.delivered == []
  {
  }

  /** The first record, if it is complete, is a KEX record or ends everything. */
  lemma FirstRecord(c: Crypto, g: Config, data: Bytes)
    requires OpenDropsTag(c) && |data| >= 2 && |data| >= 3 + HeaderValue(data)
    ensures Between(c, Fresh(c, g))
    ensures var o, kex := PushAll(c, g, Fresh(c, g), data), |data| >= 68 && data[..3] == [0, 65, 128] && data[3] == 0;
            && (!kex ==> !o.ok && !o.s.sess.outstate && !o.s.sess.instate && o.s.sess.delivered == [])
            && (kex ==> exists e ::
                  && Between(c, e) && e.sess.state == Sig && e.sess.mykex == Some(FreshKex(c, g)) && e.sess.hiskex == Some(data[3..68])
                  && !e.sess.instate && !e.sess.outstate && e.sess.delivered == [] && o == PushAll(c, g, e, data[68..]))
  {
    var n, s0 := HeaderValue(data), Start(c, g);
    var s := s0.(inseqno := Low32(s0.inseqno + 1));
    FreshIs(c, g);
    FreshValid(c, g);
    hide Start;
    hide *;
    FreshSess(c, g);
    Whole(c, g, Fresh(c, g), data);
    FirstHandled(c, g, s, data);
  }

  lemma FreshSess(c: Crypto, g: Config)
    ensures Fresh(c, g).sess == Start(c, g) && Fresh(c, g).inbuf == []
  {
  }

  lemma FreshValid(c: Crypto, g: Config)
    ensures var s := Start(c, g); Valid(s.(inseqno := Low32(s.inseqno + 1)))
  {
  }

  /** The start of a record, and what it says. */
  lemma RecordStart(data: Bytes)
    requires |data| >= 2 && |data| >= 3 + HeaderValue(data)
    ensures data[..3] == [data[0], data[1], data[2]]
    ensures forall n: byte :: data[..3] == [0, n, 128] ==> HeaderValue(data) == n && data[2] == 128
    ensures forall n: byte :: HeaderValue(data) == n && data[2] == 128 ==> data[..3] == [0, n, 128]
  {
    assert data[..3] == [data[0], data[1], data[2]];
  }

  lemma FirstHandled(c: Crypto, g: Config, s: Sess, data: Bytes)
    requires Valid(s) && s.state == Kex && !s.instate && !s.outstate && s.delivered == []
    requires |data| >= 2 && |data| >= 3 + HeaderValue(data)
    ensures var n := HeaderValue(data);
            var h, kex := HandleRecord(c, g, s, data[2], data[3..3 + n]), |data| >= 68 && data[..3] == [0, 65, 128] && data[3] == 0;
            && (h.ok <==> kex) && !h.s.outstate && !h.s.instate && h.s.delivered == []
            && (kex ==> n == 65 && h.s.state == Sig && h.s.mykex == s.mykex && h.s.hiskex == Some(data[3..68]))
  {
    hide HandleRecord;
    hide ReceiveHandshake;
    hide HeaderValue;
    var n := HeaderValue(data);
    var body := data[3..3 + n];
    RecordStart(data);
    RecordIff(c, g, s, data[2], body);
    if data[2] == 128 {
      KexIff(c, g, s, body);
      if n == 65 {
        assert body == data[3..68] && body[0] == data[3];
      }
    }
  }

  /** The second, if it is complete, is a SIG record that verifies or ends everything. */
  lemma SecondRecord(c: Crypto, g: Config, e: Endpoint, his: KexMsg, mine: KexMsg, data: Bytes)
    requires Between(c, e) && e.sess.state == Sig && e.sess.mykex == Some(mine) && e.sess.hiskex == Some(his)
    requires !e.sess.instate && !e.sess.outstate && e.sess.delivered == []
    requires |data| >= 2 && |data| >= 3 + HeaderValue(data)
    ensures var r, sig := PushAll(c, g, e, data).s.sess,
                          |data| >= 67 && data[..3] == [0, 64, 128] && Proves(c, g, his, mine, data[3..67]);
            && (!sig ==> !r.outstate && !r.instate && r.delivered == [])
            && (sig ==> r.outstate && r.instate)
  {
    var n := HeaderValue(data);
    var s := e.sess.(inseqno := Low32(e.sess.inseqno + 1));
    assert Valid(s);
    hide *;
    Whole(c, g, e, data);
    SecondHandled(c, g, s, his, mine, data);
    var h := HandleRecord(c, g, s, data[2], data[3..3 + n]);
    if h.ok {
      BetweenReads(c, Endpoint(h.s, [], n));
      Stays(c, g, Endpoint(h.s, [], n), data[3 + n..]);
    }
  }

  lemma BetweenReads(c: Crypto, e: Endpoint)
    requires Between(c, e)
    ensures OpenDropsTag(c) && Reading(e)
  {
  }

  lemma SecondHandled(c: Crypto, g: Config, s: Sess, his: KexMsg, mine: KexMsg, data: Bytes)
    requires Valid(s) && s.state == Sig && s.mykex == Some(mine) && s.hiskex == Some(his)
    requires !s.instate && !s.outstate && s.delivered == []
    requires |data| >= 2 && |data| >= 3 + HeaderValue(data)
    ensures var n := HeaderValue(data);
            var h, sig := HandleRecord(c, g, s, data[2], data[3..3 + n]),
                          |data| >= 67 && data[..3] == [0, 64, 128] && Proves(c, g, his, mine, data[3..67]);
            && (h.ok <==> sig) && (!sig ==> !h.s.outstate && !h.s.instate && h.s.delivered == [])
            && (sig ==> h.s.outstate && h.s.instate)
  {
    hide HandleRecord;
    hide ReceiveHandshake;
    hide HeaderValue;
    var n := HeaderValue(data);
    var body := data[3..3 + n];
    RecordStart(data);
    RecordIff(c, g, s, data[2], body);
    if data[2] == 128 {
      SigIff(c, g, s, body);
      ProofLength(c, g, his, mine, body);
      if n == 64 {
        assert body == data[3..67];
      }
    }
    hide Proves;
    hide Seeds;
  }

  lemma ProofLength(c: Crypto, g: Config, his: KexMsg, mine: KexMsg, sig: Bytes)
    ensures Proves(c, g, his, mine, sig) ==> |sig| == 64
  {
  }

  /** Main result, for any peer and any stream of bytes: an endpoint gets keys exactly if the
      stream begins with a KEX message and a signature, by the key it expects, over that
      message and its own. Before that it delivers nothing. */
  lemma AuthenticIff(c: Crypto, g: Config, data: Bytes)
    requires OpenDropsTag(c)
    ensures Between(c, Fresh(c, g))
    ensures var r := PushAll(c, g, Fresh(c, g), data).s.sess;
            && (r.outstate <==> Authentic(c, g, FreshKex(c, g), data))
            && (r.instate <==> Authentic(c, g, FreshKex(c, g), data))
            && (!Authentic(c, g, FreshKex(c, g), data) ==> r.delivered == [])
  {
    hide PushAll;
    hide Start;
    hide Proves;
    hide Authentic;
    hide Reading;
    FreshIs(c, g);
    var mine := FreshKex(c, g);
    hide FreshKex;
    if |data| < 2 || |data| < 3 + HeaderValue(data) {
      Short(c, g, Fresh(c, g), data);
      TooShort(c, g, mine, data);
    } else {
      FirstRecord(c, g, data);
      if |data| >= 68 && data[..3] == [0, 65, 128] && data[3] == 0 {
        var e :| && Between(c, e) && e.sess.state == Sig && e.sess.mykex == Some(mine) && e.sess.hiskex == Some(data[3..68])
                 && !e.sess.instate && !e.sess.outstate && e.sess.delivered == []
                 && PushAll(c, g, Fresh(c, g), data) == PushAll(c, g, e, data[68..]);
        var rest := data[68..];
        AuthenticRest(c, g, mine, data);
        if |rest| < 2 || |rest| < 3 + HeaderValue(rest) {
          Short(c, g, e, rest);
          Unsigned(c, g, data[3..68], mine, rest);
        } else {
          SecondRecord(c, g, e, data[3..68], mine, rest);
        }
      } else {
        NotAuthentic(c, g, mine, data);
      }
    }
  }

  lemma AuthenticRest(c: Crypto, g: Config, mine: KexMsg, data: Bytes)
    requires |data| >= 68 && data[..3] == [0, 65, 128] && data[3] == 0
    ensures var rest := data[68..];
            Authentic(c, g, mine, data) <==> |rest| >= 67 && rest[..3] == [0, 64, 128] && Proves(c, g, data[3..68], mine, rest[3..67])
  {
    hide Proves;
    var rest := data[68..];
    if |rest| >= 67 {
      assert rest[..3] == data[68..71] && rest[3..67] == data[71..135];
    }
  }

  lemma NotAuthentic(c: Crypto, g: Config, mine: KexMsg, data: Bytes)
    requires !(|data| >= 68 && data[..3] == [0, 65, 128] && data[3] == 0)
    ensures !Authentic(c, g, mine, data)
  {
    hide Proves;
  }

  lemma TooShort(c: Crypto, g: Config, mine: KexMsg, data: Bytes)
    requires |data| < 2 || |data| < 3 + HeaderValue(data)
    ensures !Authentic(c, g, mine, data)
  {
    hide Proves;
    assert |data| >= 3 ==> data[0] == data[..3][0] && data[1] == data[..3][1];
  }

  lemma Unsigned(c: Crypto, g: Config, his: KexMsg, mine: KexMsg, rest: Bytes)
    requires |rest| < 2 || |rest| < 3 + HeaderValue(rest)
    ensures !(|rest| >= 67 && rest[..3] == [0, 64, 128] && Proves(c, g, his, mine, rest[3..67]))
  {
    hide Proves;
    assert |rest| >= 3 ==> rest[0] == rest[..3][0] && rest[1] == rest[..3][1];
  }

  /** Later on, too, whatever comes in: a record counts only if it opens under the incoming
      key and number, the outgoing key changes only on a signature that verifies, and the
      incoming key only on the acknowledgement that follows. */
  lemma KeysMove(c: Crypto, g: Config, e: Endpoint)
    requires OpenDropsTag(c) && ValidEndpoint(e) && |e.inbuf| == RecordSize(e) && e.sess.instate
    ensures var s, o, p := e.sess, Complete(c, g, e), c.open(e.sess.inKey.value, e.sess.inseqno, e.inbuf[2..]);
            && (p == None ==> !o.ok && o.s.sess == s.(inseqno := (s.inseqno + 1) % U32))
            && (o.s.sess.outKey != s.outKey ==>
                  s.state == Sig && p.Some? && p.value[0] == 128 && Proves(c, g, s.hiskex.value, s.mykex.value, p.value[1..]))
            && (o.s.sess.inKey != s.inKey ==> (s.state == Ack && p == Some([128])) || (s.state == Sig && !s.outstate))
            && (o.s.sess.delivered != s.delivered ==>
                  p.Some? && o.s.sess.delivered == s.delivered + [if p.value[0] == 128 then Record(128, []) else Record(p.value[0], p.value[1..])])
  {
    hide Proves;
    var s, p := e.sess, c.open(e.sess.inKey.value, e.sess.inseqno, e.inbuf[2..]);
    var s1 := s.(inseqno := Low32(s.inseqno + 1));
    if p.Some? {
      var ty, data := p.value[0], p.value[1..];
      assert p.value == [ty] + data;
      RecordIff(c, g, s1, ty, data);
      hide HandleRecord;
      if ty == 128 {
        if s.state.Sig? {
          SigIff(c, g, s1, data);
        } else if s.state.Ack? {
          AckIff(c, g, s1, data);
          assert data == [] ==> p.value == [128];
        } else if !s.state.Zero? {
          KexIff(c, g, s1, data);
        }
      }
      hide ReceiveHandshake;
    }
  }
}
