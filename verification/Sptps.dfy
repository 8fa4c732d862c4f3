/** The value-level specification of one stream-mode SPTPS endpoint: what each
    function of the session code does to the session record. The class
    `SptpsSession.Session` is the imperative form proved equal to it. */
module Sptps {
  import opened Basics

  type byte = x: int | 0 <= x < 256
  type Bytes = seq<byte>
  type Block32 = b: Bytes | |b| == 32 witness seq(32, _ => 0)
  type Block64 = b: Bytes | |b| == 64 witness seq(64, _ => 0)
  type Block128 = b: Bytes | |b| == 128 witness seq(128, _ => 0)
  /** A key exchange message: version byte, nonce, ephemeral public key. */
  type KexMsg = b: Bytes | |b| == 65 witness seq(65, _ => 0)

  /** uint32_t arithmetic wraps around. */
  function Low32(n: nat): (r: nat)
    ensures r < U32
    ensures n < U32 ==> r == n
  {
    n % U32
  }

  lemma Low32Add(a: nat, b: nat)
    ensures Low32(Low32(a) + b) == Low32(a + b)
  {
  }

  const HANDSHAKE: byte := 128
  const VERSION: byte := 0
  /** Length prefix plus type byte. */
  const PLAIN_OVERHEAD: nat := 3
  /** Length prefix, type byte and authentication tag. */
  const SEALED_OVERHEAD: nat := 19

  /** One use of the random source: a nonce and an ephemeral ECDH secret. */
  datatype Draw = Draw(nonce: Block32, secret: Bytes)

  /** The cryptography, as uninterpreted total functions. */
  datatype Crypto = Crypto(
    publicOf: Bytes -> Block32,
    shared: (Bytes, Bytes) -> Block32,
    verifyKeyOf: Bytes -> Bytes,
    sign: (Bytes, Bytes) -> Block64,
    verify: (Bytes, Bytes, Bytes) -> bool,
    prf: (Bytes, Bytes) -> Block128,
    seal: (Bytes, int, Bytes) -> Bytes,
    open: (Bytes, int, Bytes) -> Option<Bytes>)

  /** The algebraic laws: Diffie-Hellman commutes, honest signatures verify,
      sealing adds a 16-byte tag and opening with the same key and sequence
      number undoes it, opening never lengthens. */
  ghost predicate Lawful(c: Crypto) {
    && (forall a, b :: c.shared(a, c.publicOf(b)) == c.shared(b, c.publicOf(a)))
    && (forall k, m :: c.verify(c.verifyKeyOf(k), m, c.sign(k, m)))
    && (forall k, n, p :: |c.seal(k, n, p)| == |p| + 16 && c.open(k, n, c.seal(k, n, p)) == Some(p))
    && OpenDropsTag(c)
  }

  ghost predicate OpenDropsTag(c: Crypto) {
    forall k, n, t :: c.open(k, n, t).Some? && |t| >= 16 ==> |c.open(k, n, t).value| == |t| - 16
  }

  /** What sptps_start is given: role, long-term keys, label, random source,
      and whether the application accepts a record it is handed. */
  datatype Config = Config(
    initiator: bool,
    myKey: Bytes,
    hisKey: Bytes,
    name: Bytes,
    rand: nat -> Draw,
    accepts: (byte, Bytes) -> bool)

  datatype Phase = Zero | Kex | SecondaryKex | Sig | Ack

  datatype Record = Record(ty: byte, data: Bytes)

  /** The fields of sptps_t apart from the receive buffer; `sent` and `delivered`
      log the arguments of the send_data and receive_record callbacks. */
  datatype Sess = Sess(
    state: Phase,
    instate: bool,
    inKey: Option<Bytes>,
    inseqno: nat,
    outstate: bool,
    outKey: Option<Bytes>,
    outseqno: nat,
    ecdh: Option<Bytes>,
    mykex: Option<KexMsg>,
    hiskex: Option<KexMsg>,
    key: Option<Block128>,
    draws: nat,
    sent: Bytes,
    delivered: seq<Record>)

  /** A session and its receive buffer: the bytes so far of the current record,
      and its length field. */
  datatype Endpoint = Endpoint(sess: Sess, inbuf: Bytes, reclen: nat)

  datatype Outcome<T> = Outcome(s: T, ok: bool)

  /** Which pointers are non-null in which state, on every run, failed or not. */
  predicate Valid(s: Sess) {
    && (s.state.Kex? ==> s.mykex.Some? && s.ecdh.Some? && s.hiskex.None?)
    && (s.state.Sig? ==> s.mykex.Some? && s.ecdh.Some? && s.hiskex.Some?)
    && (s.state.Ack? ==> s.key.Some? && s.hiskex.None? && s.outstate)
    && (s.state.SecondaryKex? ==> s.hiskex.None? && s.outstate)
    && (s.instate ==> s.inKey.Some?)
    && (s.outstate ==> s.outKey.Some?)
    && s.inseqno < U32
    && s.outseqno < U32
  }

  /** Bytes on the wire of the record whose length field has been read. */
  function RecordSize(e: Endpoint): (n: nat) {
    e.reclen + if e.sess.instate then SEALED_OVERHEAD else PLAIN_OVERHEAD
  }

  predicate ValidEndpoint(e: Endpoint) {
    && Valid(e.sess)
    && e.reclen < 65536
    && (|e.inbuf| >= 2 ==> |e.inbuf| <= RecordSize(e))
  }

  function Header(n: nat): (r: Bytes)
    requires n < 65536
  {
    [n / 256, n % 256]
  }

  function HeaderValue(b: Bytes): (n: nat)
    requires |b| >= 2
  {
    b[0] as int * 256 + b[1] as int
  }

  // Sending.

  /** A record as it goes out: sealed under `key`, or in the clear when there is none. */
  function Wire(c: Crypto, key: Option<Bytes>, seqno: nat, ty: byte, data: Bytes): (w: Bytes)
    requires |data| < 65536
  {
    Header(|data|) +
    match key
    case Some(k) => c.seal(k, seqno, [ty] + data)
    case None => [ty] + data
  }

  function SendRecordPriv(c: Crypto, s: Sess, ty: byte, data: Bytes): (r: Sess)
    requires |data| < 65536
  {
    s.(sent := s.sent + Wire(c, if s.outstate then s.outKey else None, s.outseqno, ty, data),
    outseqno := Low32(s.outseqno + 1))
  }

  function SendRecord(c: Crypto, s: Sess, ty: byte, data: Bytes): (r: Outcome<Sess>)
    requires |data| < 65536
  {
    if !s.outstate || ty >= HANDSHAKE then Outcome(s, false)
    else Outcome(SendRecordPriv(c, s, ty, data), true)
  }

  function KexBytes(c: Crypto, d: Draw): (k: KexMsg) {
    [VERSION] + d.nonce + c.publicOf(d.secret)
  }

  function SendKex(c: Crypto, g: Config, s: Sess): (r: Outcome<Sess>) {
    if s.mykex.Some? then Outcome(s, false)
    else
      var d := g.rand(s.draws);
      var kex := KexBytes(c, d);
      Outcome(SendRecordPriv(c, s, HANDSHAKE, kex).(mykex := Some(kex), ecdh := Some(d.secret), draws := s.draws + 1), true)
  }

  function SigMessage(initiator: bool, kex0: KexMsg, kex1: KexMsg, name: Bytes): (m: Bytes) {
    [if initiator then 1 else 0] + kex0 + kex1 + name
  }

  function SendSig(c: Crypto, g: Config, s: Sess): (r: Sess)
    requires s.mykex.Some? && s.hiskex.Some?
  {
    SendRecordPriv(c, s, HANDSHAKE, c.sign(g.myKey, SigMessage(g.initiator, s.mykex.value, s.hiskex.value, g.name)))
  }

  function ForceKex(c: Crypto, g: Config, s: Sess): (r: Outcome<Sess>) {
    if !s.outstate || !s.state.SecondaryKex? then Outcome(s, false)
    else SendKex(c, g, s.(state := Kex))
  }

  /** The zeroed struct of sptps_start. */
  const CLEARED: Sess := Sess(Zero, false, None, 0, false, None, 0, None, None, None, None, 0, [], [])

  function Start(c: Crypto, g: Config): (r: Sess) {
    SendKex(c, g, CLEARED.(state := Kex)).s
  }

  // Handshake.

  const KEY_EXPANSION: Bytes := [107, 101, 121, 32, 101, 120, 112, 97, 110, 115, 105, 111, 110]

  function Nonce(k: KexMsg): (n: Bytes) { k[1..33] }

  function PublicKey(k: KexMsg): (p: Bytes) { k[33..] }

  function KeyMaterial(c: Crypto, shared: Bytes, initiatorKex: KexMsg, responderKex: KexMsg, name: Bytes): (k: Block128) {
    c.prf(shared, KEY_EXPANSION + Nonce(initiatorKex) + Nonce(responderKex) + name)
  }

  /** The initiator sends with the second half of the key material and receives with the first. */
  function OutHalf(initiator: bool, k: Block128): (r: Bytes) { if initiator then k[64..] else k[..64] }

  function InHalf(initiator: bool, k: Block128): (r: Bytes) { OutHalf(!initiator, k) }

  function ReceiveAck(g: Config, s: Sess, data: Bytes): (r: Outcome<Sess>)
    requires s.key.Some?
  {
    if data != [] then Outcome(s, false)
    else Outcome(s.(inKey := Some(InHalf(g.initiator, s.key.value)), key := None, instate := true), true)
  }

  function ReceiveKex(c: Crypto, g: Config, s: Sess, data: Bytes): (r: Outcome<Sess>)
    requires s.mykex.Some?
  {
    if |data| != 65 || data[0] != VERSION || s.hiskex.Some? then Outcome(s, false)
    else
      var s1 := s.(hiskex := Some(data));
      Outcome(if g.initiator then SendSig(c, g, s1) else s1, true)
  }

  /** Compute the shared secret and the key material of this exchange; before the
      first one is complete the ciphers are opened afresh. */
  function DeriveKeys(c: Crypto, g: Config, s: Sess): (r: Sess)
    requires s.mykex.Some? && s.hiskex.Some? && s.ecdh.Some?
  {
    var mine, his := s.mykex.value, s.hiskex.value;
    var shared := c.shared(s.ecdh.value, PublicKey(his));
    var km := KeyMaterial(c, shared, if g.initiator then mine else his, if g.initiator then his else mine, g.name);
    s.(ecdh := None, key := Some(km),
    inKey := if s.outstate then s.inKey else None, outKey := if s.outstate then s.outKey else None)
  }

  /** The responder signs back, a rekey is acknowledged under the old key, and
      sending moves to the new key. */
  function SwitchOutgoing(c: Crypto, g: Config, s: Sess): (r: Sess)
    requires s.mykex.Some? && s.hiskex.Some? && s.key.Some?
  {
    var s2 := if g.initiator then s else SendSig(c, g, s);
    var s3 := s2.(mykex := None, hiskex := None);
    var s4 := if s.outstate then SendRecordPriv(c, s3, HANDSHAKE, []) else s3;
    s4.(outKey := Some(OutHalf(g.initiator, s.key.value)))
  }

  function ReceiveSig(c: Crypto, g: Config, s: Sess, data: Bytes): (r: Outcome<Sess>)
    requires s.mykex.Some? && s.hiskex.Some? && s.ecdh.Some?
  {
    if |data| != 64 || !c.verify(g.hisKey, SigMessage(!g.initiator, s.hiskex.value, s.mykex.value, g.name), data) then
      Outcome(s, false)
    else
      Outcome(SwitchOutgoing(c, g, DeriveKeys(c, g, s)), true)
  }

  function ReceiveHandshake(c: Crypto, g: Config, s: Sess, data: Bytes): (r: Outcome<Sess>)
    requires Valid(s)
  {
    match s.state
    case SecondaryKex =>
      var o := SendKex(c, g, s);
      if !o.ok then o else ExpectKex(c, g, o.s, data)
    case Kex =>
      ExpectKex(c, g, s, data)
    case Sig =>
      var o := ReceiveSig(c, g, s, data);
      if !o.ok then o
      else if o.s.outstate then Outcome(o.s.(state := Ack), true)
      else FinishHandshake(g, o.s.(outstate := true), [])
    case Ack =>
      FinishHandshake(g, s, data)
    case Zero =>
      Outcome(s, false)
  }

  function ExpectKex(c: Crypto, g: Config, s: Sess, data: Bytes): (r: Outcome<Sess>)
    requires s.mykex.Some?
  {
    var o := ReceiveKex(c, g, s, data);
    if o.ok then Outcome(o.s.(state := Sig), true) else o
  }

  function FinishHandshake(g: Config, s: Sess, data: Bytes): (r: Outcome<Sess>)
    requires s.key.Some?
  {
    var o := ReceiveAck(g, s, data);
    if o.ok then Outcome(o.s.(delivered := o.s.delivered + [Record(HANDSHAKE, [])], state := SecondaryKex), true) else o
  }

  // Receiving.

  function HandleRecord(c: Crypto, g: Config, s: Sess, ty: byte, data: Bytes): (r: Outcome<Sess>)
    requires Valid(s)
  {
    if ty < HANDSHAKE then
      if !s.instate then Outcome(s, false)
      else Outcome(s.(delivered := s.delivered + [Record(ty, data)]), g.accepts(ty, data))
    else if ty == HANDSHAKE then ReceiveHandshake(c, g, s, data)
    else Outcome(s, false)
  }

  /** A whole record is in `inbuf`: count it, decrypt it in place, act on it. */
  function Complete(c: Crypto, g: Config, e: Endpoint): (r: Outcome<Endpoint>)
    requires OpenDropsTag(c) && ValidEndpoint(e) && |e.inbuf| == RecordSize(e)
  {
    var s := e.sess;
    var s1 := s.(inseqno := Low32(s.inseqno + 1));
    if s.instate then
      var p := c.open(s.inKey.value, s.inseqno, e.inbuf[2..]);
      if p.None? then Outcome(e.(sess := s1), false)
      else
        var plain := e.inbuf[..2] + p.value + [0] + e.inbuf[e.reclen + 4..];
        Settle(e.(inbuf := plain), HandleRecord(c, g, s1, p.value[0], p.value[1..]))
    else
      Settle(e, HandleRecord(c, g, s1, e.inbuf[2], e.inbuf[3..]))
  }

  function Settle(e: Endpoint, o: Outcome<Sess>): (r: Outcome<Endpoint>) {
    Outcome(Endpoint(o.s, if o.ok then [] else e.inbuf, e.reclen), o.ok)
  }

  /** The rest of sptps_receive_data, once the length field is known. */
  function ReceiveBody(c: Crypto, g: Config, e: Endpoint, data: Bytes, already: nat): (r: (Endpoint, nat))
    requires OpenDropsTag(c) && ValidEndpoint(e) && |e.inbuf| >= 2
    ensures r.1 <= already + |data|
  {
    var want := RecordSize(e) - |e.inbuf|;
    var toread := if want > |data| then |data| else want;
    var e1 := e.(inbuf := e.inbuf + data[..toread]);
    if |e1.inbuf| < RecordSize(e) then (e1, already + toread)
    else
      var o := Complete(c, g, e1);
      (o.s, if o.ok then already + toread else 0)
  }

  /** One call of sptps_receive_data: the new state and the number of bytes
      consumed, zero meaning failure. */
  function ReceiveData(c: Crypto, g: Config, e: Endpoint, data: Bytes): (r: (Endpoint, nat))
    requires OpenDropsTag(c) && ValidEndpoint(e)
    ensures r.1 <= |data|
  {
    if e.sess.state.Zero? then (e, 0)
    else if |e.inbuf| < 2 then
      var want := 2 - |e.inbuf|;
      var toread := if want > |data| then |data| else want;
      var buf := e.inbuf + data[..toread];
      if |buf| < 2 then (e.(inbuf := buf), toread)
      else
        var e1 := e.(inbuf := buf, reclen := HeaderValue(buf));
        if toread == |data| then (e1, toread)
        else ReceiveBody(c, g, e1, data[toread..], toread)
    else ReceiveBody(c, g, e, data, 0)
  }

  /** A handshake message, accepted or refused, leaves a consistent session that
      neither loses its incoming key nor counts records. */
  lemma HandshakeValid(c: Crypto, g: Config, s: Sess, data: Bytes)
    requires Valid(s)
    ensures var r := ReceiveHandshake(c, g, s, data).s;
            Valid(r) && (s.instate ==> r.instate) && r.inseqno == s.inseqno && (s.state.Zero? <==> r.state.Zero?)
  {
  }

  lemma CompleteValid(c: Crypto, g: Config, e: Endpoint)
    requires OpenDropsTag(c) && ValidEndpoint(e) && |e.inbuf| == RecordSize(e)
    ensures var o := Complete(c, g, e);
            ValidEndpoint(o.s) && (o.ok ==> o.s.inbuf == []) && (e.sess.state.Zero? <==> o.s.sess.state.Zero?)
  {
    hide ReceiveHandshake;
    var s := e.sess;
    var s1 := s.(inseqno := Low32(s.inseqno + 1));
    if s.instate {
      var p := c.open(s.inKey.value, s.inseqno, e.inbuf[2..]);
      if p.Some? {
        HandshakeValid(c, g, s1, p.value[1..]);
      }
    } else {
      HandshakeValid(c, g, s1, e.inbuf[3..]);
    }
  }

  /** Every call keeps the session record consistent, failing calls included. */
  lemma ReceiveDataValid(c: Crypto, g: Config, e: Endpoint, data: Bytes)
    requires OpenDropsTag(c) && ValidEndpoint(e)
    ensures ValidEndpoint(ReceiveData(c, g, e, data).0)
  {
    hide ReceiveBody;
    var toread := if 2 - |e.inbuf| > |data| then |data| else 2 - |e.inbuf|;
    if |e.inbuf| >= 2 {
      BodyValid(c, g, e, data, 0);
    } else if |e.inbuf| + toread == 2 {
      var buf := e.inbuf + data[..toread];
      BodyValid(c, g, e.(inbuf := buf, reclen := HeaderValue(buf)), data[toread..], toread);
    }
  }

  lemma BodyValid(c: Crypto, g: Config, e: Endpoint, data: Bytes, already: nat)
    requires OpenDropsTag(c) && ValidEndpoint(e) && |e.inbuf| >= 2
    ensures ValidEndpoint(ReceiveBody(c, g, e, data, already).0)
  {
    hide Complete;
    var want := RecordSize(e) - |e.inbuf|;
    if want <= |data| {
      CompleteValid(c, g, e.(inbuf := e.inbuf + data[..want]));
    }
  }
}
