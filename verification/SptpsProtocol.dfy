/** Two honest endpoints joined by FIFO byte channels: safety of every run. */
module SptpsProtocol {
  import opened Basics
  import opened Sptps
  import opened SptpsStream

  // The numbered handshake messages. Each direction carries KEX, SIG for the first
  // exchange (numbers 0 and 1) and KEX, SIG, ACK for each rekey (2, 3, 4; 5, 6, 7; ...).
  // The content of every one of them is fixed by the configurations.

  datatype Kind = MsgKex | MsgSig | MsgAck

  function KindOf(m: nat): (k: Kind) {
    if m == 0 || m % 3 == 2 then MsgKex
    else if m == 1 || m % 3 == 0 then MsgSig
    else MsgAck
  }

  /** The exchange message m belongs to, which is also the number of key changes
      its direction has seen before it. */
  function RoundOf(m: nat): (r: nat) { (m + 1) / 3 }

  function KexOf(c: Crypto, g: Config, round: nat): (k: KexMsg) { KexBytes(c, g.rand(round)) }

  function SharedOf(c: Crypto, me: Config, him: Config, round: nat): (s: Bytes) {
    c.shared(me.rand(round).secret, c.publicOf(him.rand(round).secret))
  }

  /** The key material both sides derive in a round. */
  function Material(c: Crypto, me: Config, him: Config, round: nat): (k: Block128) {
    var mine, his := KexOf(c, me, round), KexOf(c, him, round);
    KeyMaterial(c, SharedOf(c, me, him, round),
                if me.initiator then mine else his, if me.initiator then his else mine, me.name)
  }

  /** What `from` seals with after `epoch` key changes; nothing before the first. */
  function KeyAt(c: Crypto, from: Config, to: Config, epoch: nat): (k: Option<Bytes>) {
    if epoch == 0 then None else Some(OutHalf(from.initiator, Material(c, from, to, epoch - 1)))
  }

  function Message(c: Crypto, from: Config, to: Config, m: nat): (b: Bytes)
    ensures |b| <= 65
  {
    var r := RoundOf(m);
    match KindOf(m)
    case MsgKex => KexOf(c, from, r)
    case MsgSig => c.sign(from.myKey, SigMessage(from.initiator, KexOf(c, from, r), KexOf(c, to, r), from.name))
    case MsgAck => []
  }

  /** Same label, opposite roles, each knows the other's public key, laws hold,
      applications accept what they are handed. */
  ghost predicate Matching(c: Crypto, me: Config, him: Config) {
    && Lawful(c)
    && me.initiator != him.initiator
    && me.name == him.name
    && me.hisKey == c.verifyKeyOf(him.myKey)
    && him.hisKey == c.verifyKeyOf(me.myKey)
    && (forall t, d :: me.accepts(t, d))
    && (forall t, d :: him.accepts(t, d))
  }

  lemma SameMaterial(c: Crypto, me: Config, him: Config, round: nat)
    requires Matching(c, me, him)
    ensures Material(c, me, him, round) == Material(c, him, me, round)
  {
    assert SharedOf(c, me, him, round) == SharedOf(c, him, me, round);
  }

  // An endpoint's position: 4 * rounds completed + 0 (idle), 1 (KEX sent),
  // 2 (KEX received) or 3 (SIG received); the first exchange has no position 3.

  predicate Position(p: nat) { p != 0 && p != 3 }

  function Base(round: nat): (m: nat) { if round == 0 then 0 else 3 * round - 1 }

  /** Handshake messages received by an endpoint in position p. */
  function Received(p: nat): (m: nat) {
    Base(p / 4) + if p % 4 <= 1 then 0 else p % 4 - 1
  }

  /** Handshake messages sent: the initiator signs on KEX, the responder on SIG. */
  function Sent(initiator: bool, p: nat): (m: nat) {
    Base(p / 4) + if p % 4 == 2 && !initiator then 1 else p % 4
  }

  /** Everything an endpoint's fields hold in a position. */
  ghost predicate At(c: Crypto, me: Config, him: Config, s: Sess, p: nat) {
    var r := p / 4;
    && Position(p)
    && s.outstate == s.instate == (p >= 4)
    && s.inseqno < U32 && s.outseqno < U32
    && s.draws == (if p % 4 == 0 then r else r + 1)
    && (p >= 4 ==> s.inKey == KeyAt(c, him, me, r) && s.outKey == KeyAt(c, me, him, (p + 1) / 4))
    && s.state == (match p % 4 case 0 => SecondaryKex case 1 => Kex case 2 => Sig case _ => Ack)
    && s.mykex == (if p % 4 == 1 || p % 4 == 2 then Some(KexOf(c, me, r)) else None)
    && s.hiskex == (if p % 4 == 2 then Some(KexOf(c, him, r)) else None)
    && (p % 4 == 1 || p % 4 == 2 ==> s.ecdh == Some(me.rand(r).secret))
    && (p % 4 == 3 ==> s.key == Some(Material(c, me, him, r)))
  }

  lemma AtValid(c: Crypto, me: Config, him: Config, s: Sess, p: nat)
    requires At(c, me, him, s, p)
    ensures Position(p) && Valid(s) && !s.state.Zero?
    ensures s.state.SecondaryKex? == (p % 4 == 0)
    ensures p % 4 == 0 ==> s.mykex.None?
    ensures p % 4 == 1 ==> s.mykex.Some?
    ensures s.outstate == (p >= 4)
  {
  }

  // Records in flight.

  datatype Item = App(rec: Record) | Hs

  predicate Sendable(rec: Record) { rec.ty < HANDSHAKE && |rec.data| < 65536 }

  /** An application record never travels before the first exchange is complete. */
  predicate Proper(q: seq<Item>, m: nat)
    decreases |q|
  {
    q == [] || (match q[0]
                case App(rec) => Sendable(rec) && m >= 2 && Proper(q[1..], m)
                case Hs => Proper(q[1..], m + 1))
  }

  function Handshakes(q: seq<Item>): (k: nat) {
    if q == [] then 0 else (if q[0].Hs? then 1 else 0) + Handshakes(q[1..])
  }

  function Apps(q: seq<Item>): (r: seq<Record>) {
    if q == [] then [] else (if q[0].App? then [q[0].rec] else []) + Apps(q[1..])
  }

  /** The application records among those handed to receive_record. */
  function AppRecords(d: seq<Record>): (r: seq<Record>) {
    if d == [] then []
    else AppRecords(d[..|d| - 1]) + if d[|d| - 1].ty < HANDSHAKE then [d[|d| - 1]] else []
  }

  function ItemRecord(c: Crypto, from: Config, to: Config, item: Item, m: nat): (r: Record) {
    if item.App? then item.rec else Record(HANDSHAKE, Message(c, from, to, m))
  }

  function ItemWire(c: Crypto, from: Config, to: Config, item: Item, m: nat, n: nat): (w: Bytes)
    requires item.App? ==> Sendable(item.rec)
  {
    var rec := ItemRecord(c, from, to, item, m);
    Wire(c, KeyAt(c, from, to, RoundOf(m)), Low32(n), rec.ty, rec.data)
  }

  /** The bytes of a queue whose first record is number n of its direction and whose
      first handshake message is number m. */
  function Encode(c: Crypto, from: Config, to: Config, q: seq<Item>, m: nat, n: nat): (w: Bytes)
    requires Proper(q, m)
    decreases |q|
  {
    if q == [] then []
    else
      ItemWire(c, from, to, q[0], m, n)
      + Encode(c, from, to, q[1..], if q[0].Hs? then m + 1 else m, n + 1)
  }

  lemma {:induction false} EncodeSnoc(c: Crypto, from: Config, to: Config, q: seq<Item>, item: Item, m: nat, n: nat)
    requires Proper(q, m)
    requires item.App? ==> Sendable(item.rec) && m + Handshakes(q) >= 2
    ensures Proper(q + [item], m)
    ensures Encode(c, from, to, q + [item], m, n)
         == Encode(c, from, to, q, m, n) + ItemWire(c, from, to, item, m + Handshakes(q), n + |q|)
    ensures Handshakes(q + [item]) == Handshakes(q) + if item.Hs? then 1 else 0
    ensures Apps(q + [item]) == Apps(q) + if item.App? then [item.rec] else []
    decreases |q|
  {
    hide ItemWire;
    var q' := q + [item];
    if q == [] {
      assert q'[1..] == [];
    } else {
      var m1 := if q[0].Hs? then m + 1 else m;
      assert q'[1..] == q[1..] + [item] && q'[0] == q[0];
      EncodeSnoc(c, from, to, q[1..], item, m1, n + 1);
      var w := ItemWire(c, from, to, q[0], m, n);
      assert Encode(c, from, to, q', m, n) == w + Encode(c, from, to, q'[1..], m1, n + 1);
      assert Encode(c, from, to, q, m, n) == w + Encode(c, from, to, q[1..], m1, n + 1);
    }
  }

  // One handshake message taken in.

  function Next(p: nat): (r: nat)
    requires Position(p)
  {
    if p % 4 == 0 then p + 2 else if p == 2 then 4 else p + 1
  }

  lemma NextCounts(p: nat)
    requires Position(p)
    ensures Position(Next(p)) && Received(Next(p)) == Received(p) + 1
    ensures Sent(true, p) <= Sent(true, Next(p)) && Sent(false, p) <= Sent(false, Next(p))
    ensures KindOf(Received(p)) == (match p % 4 case 2 => MsgSig case 3 => MsgAck case _ => MsgKex)
    ensures RoundOf(Received(p)) == p / 4
  {
  }

  /** Handshake messages m up to k as they go out, the first as record n. */
  function HsWires(c: Crypto, from: Config, to: Config, m: nat, k: nat, n: nat): (w: Bytes)
    decreases k - m
  {
    if m >= k then [] else ItemWire(c, from, to, Hs, m, n) + HsWires(c, from, to, m + 1, k, n + 1)
  }

  /** `t` is `s` after sending handshake messages m up to k. */
  ghost predicate SentHs(c: Crypto, from: Config, to: Config, s: Sess, t: Sess, m: nat, k: nat) {
    && m <= k
    && t.sent == s.sent + HsWires(c, from, to, m, k, s.outseqno)
    && t.outseqno == Low32(s.outseqno + (k - m))
  }

  lemma SendOne(c: Crypto, me: Config, him: Config, s: Sess, m: nat)
    requires (if s.outstate then s.outKey else None) == KeyAt(c, me, him, RoundOf(m))
    requires s.outseqno < U32
    ensures SentHs(c, me, him, s, SendRecordPriv(c, s, HANDSHAKE, Message(c, me, him, m)), m, m + 1)
  {
    hide KeyAt;
    hide Message;
    assert HsWires(c, me, him, m + 1, m + 1, s.outseqno + 1) == [];
    assert Low32(s.outseqno) == s.outseqno;
  }

  lemma SendNone(c: Crypto, me: Config, him: Config, s: Sess, t: Sess, m: nat)
    requires t.sent == s.sent && t.outseqno == s.outseqno < U32
    ensures SentHs(c, me, him, s, t, m, m)
  {
    assert s.sent + HsWires(c, me, him, m, m, s.outseqno) == s.sent;
  }

  lemma {:induction false} HsWiresSplit(c: Crypto, from: Config, to: Config, m: nat, k: nat, j: nat, n: nat)
    requires m <= k <= j
    ensures HsWires(c, from, to, m, j, n) == HsWires(c, from, to, m, k, n) + HsWires(c, from, to, k, j, n + (k - m))
    decreases k - m
  {
    hide ItemWire;
    if m < k {
      HsWiresSplit(c, from, to, m + 1, k, j, n + 1);
    }
  }

  /** Only the low 32 bits of a record's number reach the cipher. */
  lemma {:induction false} HsWiresSeqno(c: Crypto, from: Config, to: Config, m: nat, k: nat, n: nat, n': nat)
    requires Low32(n) == Low32(n')
    ensures HsWires(c, from, to, m, k, n) == HsWires(c, from, to, m, k, n')
    decreases k - m
  {
    hide ItemWire;
    hide Low32;
    if m < k {
      WireSeqno(c, from, to, m, n, n');
      Low32Add(n, 1);
      Low32Add(n', 1);
      HsWiresSeqno(c, from, to, m + 1, k, n + 1, n' + 1);
    }
  }

  lemma WireSeqno(c: Crypto, from: Config, to: Config, m: nat, n: nat, n': nat)
    requires Low32(n) == Low32(n')
    ensures ItemWire(c, from, to, Hs, m, n) == ItemWire(c, from, to, Hs, m, n')
  {
  }

  lemma SendBoth(c: Crypto, me: Config, him: Config, s: Sess, s1: Sess, s2: Sess, m: nat, k: nat, j: nat)
    requires SentHs(c, me, him, s, s1, m, k) && SentHs(c, me, him, s1, s2, k, j)
    ensures SentHs(c, me, him, s, s2, m, j)
  {
    hide HsWires;
    HsWiresSplit(c, me, him, m, k, j, s.outseqno);
    HsWiresSeqno(c, me, him, k, j, s.outseqno + (k - m), s1.outseqno);
    hide Low32;
    Low32Add(s.outseqno + (k - m), j - k);
  }

  /** Opening an exchange, on our own initiative or in answer to the peer's KEX. */
  lemma OpenExchange(c: Crypto, me: Config, him: Config, s: Sess, p: nat)
    requires At(c, me, him, s, p) && p % 4 == 0
    ensures var o := SendKex(c, me, s.(state := Kex));
            o.ok && At(c, me, him, o.s, p + 1)
            && SentHs(c, me, him, s, o.s, Sent(me.initiator, p), Sent(me.initiator, p + 1))
            && o.s.delivered == s.delivered && o.s.inseqno == s.inseqno
  {
    hide KeyAt;
    hide KexBytes;
    var m := Sent(me.initiator, p);
    assert KindOf(m) == MsgKex && RoundOf(m) == p / 4 == (p + 1) / 4;
    SendOne(c, me, him, s, m);
  }

  lemma TakeKex(c: Crypto, me: Config, him: Config, s: Sess, p: nat)
    requires At(c, me, him, s, p) && p % 4 == 1
    ensures var o := ExpectKex(c, me, s, KexOf(c, him, p / 4));
            o.ok && At(c, me, him, o.s, p + 1)
            && SentHs(c, me, him, s, o.s, Sent(me.initiator, p), Sent(me.initiator, p + 1))
            && o.s.delivered == s.delivered && o.s.inseqno == s.inseqno
  {
    var m := Sent(me.initiator, p);
    assert KexOf(c, him, p / 4)[0] == VERSION;
    if me.initiator {
      assert KindOf(m) == MsgSig && RoundOf(m) == p / 4 == (p + 1) / 4;
      SendOne(c, me, him, s, m);
    }
  }

  lemma DerivedMaterial(c: Crypto, me: Config, him: Config, s: Sess, p: nat)
    requires At(c, me, him, s, p) && p % 4 == 2
    ensures DeriveKeys(c, me, s).key == Some(Material(c, me, him, p / 4))
  {
    hide KeyMaterial;
    var d := him.rand(p / 4);
    assert PublicKey(KexBytes(c, d)) == c.publicOf(d.secret);
  }

  lemma KeyHalves(c: Crypto, me: Config, him: Config, round: nat)
    requires Matching(c, me, him)
    ensures KeyAt(c, him, me, round + 1) == Some(InHalf(me.initiator, Material(c, me, him, round)))
    ensures KeyAt(c, me, him, round + 1) == Some(OutHalf(me.initiator, Material(c, me, him, round)))
  {
    hide Material;
    SameMaterial(c, me, him, round);
  }

  /** The outgoing side of the key change: what is sent, in which order, under which key. */
  lemma Switch(c: Crypto, me: Config, him: Config, s: Sess, p: nat)
    requires Matching(c, me, him)
    requires Position(p) && p % 4 == 2 && s.outstate == (p >= 4) && s.outseqno < U32
    requires p >= 4 ==> s.outKey == KeyAt(c, me, him, p / 4)
    requires s.mykex == Some(KexOf(c, me, p / 4)) && s.hiskex == Some(KexOf(c, him, p / 4))
    requires s.key == Some(Material(c, me, him, p / 4))
    ensures var t := SwitchOutgoing(c, me, s);
            && SentHs(c, me, him, s, t, Sent(me.initiator, p), Sent(me.initiator, Next(p)))
            && t == s.(sent := t.sent, outseqno := t.outseqno, mykex := None, hiskex := None,
                    outKey := KeyAt(c, me, him, p / 4 + 1))
            && t.outseqno < U32
  {
    hide Material;
    hide KexBytes;
    hide OutHalf;
    hide SigMessage;
    hide HsWires;
    hide Wire;
    hide SentHs;
    var m := Sent(me.initiator, p);
    var r := p / 4;
    KeyHalves(c, me, him, r);
    assert KeyAt(c, me, him, 0).None?;
    hide KeyAt;
    var s2 := if me.initiator then s else SendSig(c, me, s);
    var s3 := s2.(mykex := None, hiskex := None);
    var a := if me.initiator then m else m + 1;
    SwitchMessages(c, me, him, p);
    hide Message;
    var s4 := if s.outstate then SendRecordPriv(c, s3, HANDSHAKE, []) else s3;
    var k := Sent(me.initiator, Next(p));
    if p >= 4 {
      SendOne(c, me, him, s3, a);
    } else {
      SendNone(c, me, him, s3, s3, a);
    }
    if me.initiator {
      SentSame(c, me, him, s3, s, s4, s4, m, k);
    } else {
      SendOne(c, me, him, s, m);
      SentSame(c, me, him, s, s, s2, s3, m, a);
      SendBoth(c, me, him, s, s3, s4, m, a, k);
    }
    SentSame(c, me, him, s, s, s4, SwitchOutgoing(c, me, s), m, k);
  }

  lemma SwitchMessages(c: Crypto, me: Config, him: Config, p: nat)
    requires Position(p) && p % 4 == 2
    ensures var m, r := Sent(me.initiator, p), p / 4;
            && Sent(me.initiator, Next(p)) == m + (if me.initiator then 0 else 1) + (if p >= 4 then 1 else 0)
            && (!me.initiator ==> RoundOf(m) == r && Message(c, me, him, m)
                                  == c.sign(me.myKey, SigMessage(me.initiator, KexOf(c, me, r), KexOf(c, him, r), me.name)))
            && (p >= 4 ==> var a := if me.initiator then m else m + 1; RoundOf(a) == r && Message(c, me, him, a) == [])
  {
    var m := Sent(me.initiator, p);
    assert !me.initiator ==> KindOf(m) == MsgSig;
    assert p >= 4 ==> KindOf(if me.initiator then m else m + 1) == MsgAck;
  }

  /** Sending is visible in two fields only. */
  lemma SentSame(c: Crypto, me: Config, him: Config, s: Sess, s': Sess, t: Sess, t': Sess, m: nat, k: nat)
    requires SentHs(c, me, him, s, t, m, k)
    requires s'.sent == s.sent && s'.outseqno == s.outseqno
    requires t'.sent == t.sent && t'.outseqno == t.outseqno
    ensures SentHs(c, me, him, s', t', m, k)
  {
  }

  lemma TakeSig(c: Crypto, me: Config, him: Config, s: Sess, p: nat)
    requires Matching(c, me, him) && At(c, me, him, s, p) && p % 4 == 2
    ensures var o := ReceiveHandshake(c, me, s, Message(c, him, me, Received(p)));
            Taken(c, me, him, s, o, p)
  {
    hide Material;
    hide KexBytes;
    hide SwitchOutgoing;
    hide KeyMaterial;
    hide OutHalf;
    hide SentHs;
    hide SigMessage;
    hide AppRecords;
    hide Received;
    hide Sent;
    hide Low32;
    NextCounts(p);
    var r := p / 4;
    var data := Message(c, him, me, Received(p));
    hide Message;
    var s1 := DeriveKeys(c, me, s);
    DerivedMaterial(c, me, him, s, p);
    KeyHalves(c, me, him, r);
    hide KeyAt;
    Switch(c, me, him, s1, p);
    var t := SwitchOutgoing(c, me, s1);
    var o := ReceiveHandshake(c, me, s, data);
    assert ReceiveSig(c, me, s, data) == Outcome(t, true);
    SentSame(c, me, him, s1, s, t, o.s, Sent(me.initiator, p), Sent(me.initiator, Next(p)));
    AppRecordsSnoc(s.delivered, Record(HANDSHAKE, []));
  }

  lemma AppRecordsSnoc(d: seq<Record>, rec: Record)
    ensures AppRecords(d + [rec]) == AppRecords(d) + if rec.ty < HANDSHAKE then [rec] else []
  {
    assert (d + [rec])[..|d|] == d;
  }

  lemma TakeAck(c: Crypto, me: Config, him: Config, s: Sess, p: nat)
    requires Matching(c, me, him) && At(c, me, him, s, p) && p % 4 == 3
    ensures var o := ReceiveHandshake(c, me, s, Message(c, him, me, Received(p)));
            Taken(c, me, him, s, o, p)
  {
    hide Material;
    hide OutHalf;
    NextCounts(p);
    KeyHalves(c, me, him, p / 4);
    AppRecordsSnoc(s.delivered, Record(HANDSHAKE, []));
    SendNone(c, me, him, s, s, Sent(me.initiator, p));
  }

  /** What taking in the expected handshake message in position p must achieve. */
  ghost predicate Taken(c: Crypto, me: Config, him: Config, s: Sess, o: Outcome<Sess>, p: nat)
    requires Position(p)
  {
    && o.ok
    && At(c, me, him, o.s, Next(p))
    && SentHs(c, me, him, s, o.s, Sent(me.initiator, p), Sent(me.initiator, Next(p)))
    && AppRecords(o.s.delivered) == AppRecords(s.delivered)
    && o.s.inseqno == s.inseqno
  }

  /** Both halves of answering a KEX from idle: opening, then taking it in. */
  lemma AnswerKex(c: Crypto, me: Config, him: Config, s: Sess, p: nat)
    requires At(c, me, him, s, p) && p % 4 == 0
    ensures Valid(s)
    ensures var o := ReceiveHandshake(c, me, s, KexOf(c, him, p / 4));
            o.ok && At(c, me, him, o.s, p + 2)
            && SentHs(c, me, him, s, o.s, Sent(me.initiator, p), Sent(me.initiator, p + 2))
            && o.s.delivered == s.delivered && o.s.inseqno == s.inseqno
  {
    hide At;
    hide KexBytes;
    hide SentHs;
    hide SendKex;
    hide ExpectKex;
    hide Valid;
    hide Sent;
    hide ReceiveHandshake;
    AtValid(c, me, him, s, p);
    OpenExchange(c, me, him, s, p);
    var s1 := SendKex(c, me, s.(state := Kex)).s;
    AtValid(c, me, him, s1, p + 1);
    TakeKex(c, me, him, s1, p + 1);
    assert (p + 1) / 4 == p / 4;
    var data := KexOf(c, him, p / 4);
    SameButState(c, me, s, data);
    SendBoth(c, me, him, s, s1, ExpectKex(c, me, s1, data).s,
             Sent(me.initiator, p), Sent(me.initiator, p + 1), Sent(me.initiator, p + 2));
  }

  lemma TakeFirst(c: Crypto, me: Config, him: Config, s: Sess, p: nat)
    requires Matching(c, me, him) && At(c, me, him, s, p) && p % 4 <= 1
    ensures var o := ReceiveHandshake(c, me, s, Message(c, him, me, Received(p)));
            Taken(c, me, him, s, o, p)
  {
    hide KexBytes;
    hide SentHs;
    hide ExpectKex;
    hide AppRecords;
    NextCounts(p);
    if p % 4 == 0 {
      hide ReceiveHandshake;
      AnswerKex(c, me, him, s, p);
    } else {
      TakeKex(c, me, him, s, p);
    }
  }

  lemma SameButState(c: Crypto, me: Config, s: Sess, data: Bytes)
    requires s.state.SecondaryKex? && Valid(s) && s.mykex.None?
    requires ExpectKex(c, me, SendKex(c, me, s.(state := Kex)).s, data).ok
    ensures ReceiveHandshake(c, me, s, data) == ExpectKex(c, me, SendKex(c, me, s.(state := Kex)).s, data)
  {
    hide KexBytes;
    hide SigMessage;
    hide Wire;
  }

  /** The expected handshake message is accepted in every position. */
  lemma TakeHandshake(c: Crypto, me: Config, him: Config, s: Sess, p: nat)
    requires Matching(c, me, him) && At(c, me, him, s, p)
    ensures Valid(s)
    ensures var o := ReceiveHandshake(c, me, s, Message(c, him, me, Received(p)));
            Taken(c, me, him, s, o, p)
  {
    hide ReceiveHandshake;
    hide Message;
    AtValid(c, me, him, s, p);
    if p % 4 <= 1 {
      TakeFirst(c, me, him, s, p);
    } else if p % 4 == 2 {
      TakeSig(c, me, him, s, p);
    } else {
      TakeAck(c, me, him, s, p);
    }
  }

  // The two-party system.

  /** An endpoint, how many bytes of the peer's output it has been given, and the
      application records its application has sent. */
  datatype Party = Party(g: Config, e: Endpoint, got: nat, app: seq<Record>)

  datatype Sys = Sys(a: Party, b: Party)

  /** Bytes sent and not yet given to the other side. */
  function Flight(from: Party, to: Party): (w: Bytes)
    requires to.got <= |from.e.sess.sent|
  {
    from.e.sess.sent[to.got..]
  }

  /** Positions, and for each direction the records not yet taken in and the number
      of those that were. */
  datatype View = View(pa: nat, pb: nat, qa: seq<Item>, qb: seq<Item>, na: nat, nb: nat)

  /** One direction: the receiver's partial record and the bytes in flight are the
      encoding of the queue, and the queue is what the positions say. */
  ghost predicate Link(c: Crypto, from: Party, to: Party, pf: nat, pt: nat, q: seq<Item>, n: nat) {
    && to.got <= |from.e.sess.sent|
    && Proper(q, Received(pt))
    && to.e.inbuf + Flight(from, to) == Encode(c, from.g, to.g, q, Received(pt), n)
    && Handshakes(q) == Sent(from.g.initiator, pf) - Received(pt)
    && Low32(n) == to.e.sess.inseqno
    && Low32(n + |q|) == from.e.sess.outseqno
    && from.app == AppRecords(to.e.sess.delivered) + Apps(q)
  }

  /** A partial record is shorter than the whole and its length field has been read. */
  ghost predicate Partial(c: Crypto, from: Config, to: Party, q: seq<Item>, pt: nat, n: nat) {
    && to.e.reclen < 65536
    && (|to.e.inbuf| >= 2 ==> to.e.reclen == HeaderValue(to.e.inbuf))
    && (to.e.inbuf != [] ==>
          && q != [] && (q[0].App? ==> Sendable(q[0].rec))
          && |to.e.inbuf| < |ItemWire(c, from, to.g, q[0], Received(pt), n)|)
  }

  ghost predicate Inv(c: Crypto, y: Sys, v: View) {
    && Matching(c, y.a.g, y.b.g)
    && At(c, y.a.g, y.b.g, y.a.e.sess, v.pa)
    && At(c, y.b.g, y.a.g, y.b.e.sess, v.pb)
    && Link(c, y.a, y.b, v.pa, v.pb, v.qa, v.na)
    && Link(c, y.b, y.a, v.pb, v.pa, v.qb, v.nb)
    && Partial(c, y.a.g, y.b, v.qa, v.pb, v.na)
    && Partial(c, y.b.g, y.a, v.qb, v.pa, v.nb)
  }

  function Flip(y: Sys): (r: Sys) { Sys(y.b, y.a) }

  function FlipView(v: View): (r: View) { View(v.pb, v.pa, v.qb, v.qa, v.nb, v.na) }

  lemma FlipInv(c: Crypto, y: Sys, v: View)
    requires Inv(c, y, v)
    ensures Inv(c, Flip(y), FlipView(v))
  {
  }

  // The shape of the record being received.

  lemma WireShape(c: Crypto, key: Option<Bytes>, seqno: nat, ty: byte, data: Bytes)
    requires Lawful(c) && |data| < 65536
    ensures var w := Wire(c, key, seqno, ty, data);
            |w| == |data| + (if key.Some? then SEALED_OVERHEAD else PLAIN_OVERHEAD) && HeaderValue(w) == |data|
  {
  }

  lemma FirstOfQueue(c: Crypto, from: Config, to: Config, q: seq<Item>, m: nat, n: nat)
    requires Lawful(c) && Proper(q, m) && Encode(c, from, to, q, m, n) != []
    ensures q != [] && (q[0].App? ==> Sendable(q[0].rec) && m >= 2)
    ensures var rec := ItemRecord(c, from, to, q[0], m);
            var w := ItemWire(c, from, to, q[0], m, n);
            |rec.data| < 65536 && w <= Encode(c, from, to, q, m, n)
            && |w| == |rec.data| + (if RoundOf(m) > 0 then SEALED_OVERHEAD else PLAIN_OVERHEAD)
            && HeaderValue(w) == |rec.data|
  {
    var rec := ItemRecord(c, from, to, q[0], m);
    WireShape(c, KeyAt(c, from, to, RoundOf(m)), Low32(n), rec.ty, rec.data);
  }

  lemma BodyOf(c: Crypto, w: Bytes, key: Option<Bytes>, seqno: nat, ty: byte, data: Bytes)
    requires |data| < 65536 && w == Wire(c, key, seqno, ty, data)
    ensures w[2..] == match key case Some(k) => c.seal(k, seqno, [ty] + data) case None => [ty] + data
    ensures key.None? ==> |w| == |data| + 3 && w[2] == ty && w[3..] == data
  {
    if key.None? {
      assert w[3..] == w[2..][1..];
    }
  }

  /** Taking in a whole record under the key and number it was sealed with. */
  lemma CompleteOpens(c: Crypto, g: Config, e: Endpoint, ty: byte, data: Bytes)
    requires Lawful(c) && ValidEndpoint(e) && |data| < 65536 && e.reclen == |data|
    requires e.inbuf == Wire(c, if e.sess.instate then e.sess.inKey else None, e.sess.inseqno, ty, data)
    requires HandleRecord(c, g, e.sess.(inseqno := Low32(e.sess.inseqno + 1)), ty, data).ok
    ensures |e.inbuf| == RecordSize(e)
    ensures var o := HandleRecord(c, g, e.sess.(inseqno := Low32(e.sess.inseqno + 1)), ty, data);
            Complete(c, g, e) == Outcome(Endpoint(o.s, [], e.reclen), true)
  {
    hide HandleRecord;
    hide Wire;
    WireShape(c, if e.sess.instate then e.sess.inKey else None, e.sess.inseqno, ty, data);
    BodyOf(c, e.inbuf, if e.sess.instate then e.sess.inKey else None, e.sess.inseqno, ty, data);
    if e.sess.instate {
      var body := [ty] + data;
      assert c.open(e.sess.inKey.value, e.sess.inseqno, e.inbuf[2..]) == Some(body);
      assert body[0] == ty && body[1..] == data;
    } else {
      assert e.inbuf[2] == ty && e.inbuf[3..] == data;
    }
  }

  // One byte given to party a.

  /** The record party a is receiving. */
  function Current(c: Crypto, y: Sys, v: View): (r: Record)
    requires v.qb != []
  {
    ItemRecord(c, y.b.g, y.a.g, v.qb[0], Received(v.pa))
  }

  ghost predicate Receiving(c: Crypto, y: Sys, v: View) {
    Inv(c, y, v) && y.a.got < |y.b.e.sess.sent|
  }

  function NextByte(y: Sys): (b: byte)
    requires y.a.got < |y.b.e.sess.sent|
  {
    y.b.e.sess.sent[y.a.got]
  }

  /** What the next byte is part of, and how much of it is there. */
  lemma CurrentRecord(c: Crypto, y: Sys, v: View)
    requires Receiving(c, y, v)
    ensures Reading(y.a.e) && v.qb != [] && |Current(c, y, v).data| < 65536
    ensures v.qb[0].App? ==> Sendable(v.qb[0].rec) && v.pa >= 4
    ensures var rec := Current(c, y, v);
            var s := y.a.e.sess;
            var w := Wire(c, if s.instate then s.inKey else None, s.inseqno, rec.ty, rec.data);
            var buf := y.a.e.inbuf + [NextByte(y)];
            && |buf| <= |w| && buf == w[..|buf|]
            && |w| == |rec.data| + (if s.instate then SEALED_OVERHEAD else PLAIN_OVERHEAD)
            && (|buf| >= 2 ==> HeaderValue(buf) == |rec.data|)
            && w == ItemWire(c, y.b.g, y.a.g, v.qb[0], Received(v.pa), v.nb)
  {
    hide KeyAt;
    hide Wire;
    hide Message;
    var e := y.a.e;
    var flight := Flight(y.b, y.a);
    assert flight[0] == NextByte(y) && e.inbuf + flight != [];
    NextCounts(v.pa);
    FirstOfQueue(c, y.b.g, y.a.g, v.qb, Received(v.pa), v.nb);
    var w := ItemWire(c, y.b.g, y.a.g, v.qb[0], Received(v.pa), v.nb);
    var buf := e.inbuf + [flight[0]];
    assert buf == (e.inbuf + flight)[..|buf|];
    ByteKey(c, y, v);
    AtValid(c, y.a.g, y.b.g, e.sess, v.pa);
  }

  lemma ByteKey(c: Crypto, y: Sys, v: View)
    requires Inv(c, y, v)
    ensures var s := y.a.e.sess;
            (if s.instate then s.inKey else None) == KeyAt(c, y.b.g, y.a.g, RoundOf(Received(v.pa)))
  {
    hide Material;
    NextCounts(v.pa);
  }

  function Pushed(c: Crypto, y: Sys): (r: Outcome<Sys>)
    requires OpenDropsTag(c) && Reading(y.a.e) && y.a.got < |y.b.e.sess.sent|
  {
    var o := PushByte(c, y.a.g, y.a.e, NextByte(y));
    Outcome(y.(a := y.a.(e := o.s, got := y.a.got + 1)), o.ok)
  }

  lemma PushInside(c: Crypto, y: Sys, v: View)
    requires Receiving(c, y, v) && Reading(y.a.e) && v.qb != [] && (v.qb[0].App? ==> Sendable(v.qb[0].rec))
    requires |y.a.e.inbuf| + 1 < |ItemWire(c, y.b.g, y.a.g, v.qb[0], Received(v.pa), v.nb)|
    ensures Pushed(c, y).ok && Inv(c, Pushed(c, y).s, v)
  {
    hide At;
    hide Encode;
    hide ItemWire;
    hide Complete;
    hide Proper;
    hide Handshakes;
    hide Apps;
    hide AppRecords;
    hide Low32;
    hide Received;
    hide Sent;
    CurrentRecord(c, y, v);
    var y' := Pushed(c, y).s;
    Shift(y.a.e.inbuf, y.b.e.sess.sent, y.a.got);
    assert Link(c, y.b, y'.a, v.pb, v.pa, v.qb, v.nb);
    assert Link(c, y'.a, y.b, v.pa, v.pb, v.qa, v.na);
  }

  lemma Shift(buf: Bytes, sent: Bytes, got: nat)
    requires got < |sent|
    ensures (buf + [sent[got]]) + sent[got + 1..] == buf + sent[got..]
  {
  }

  /** The queue of party a's own output after it sent handshake messages. */
  lemma {:induction false} EncodeHs(c: Crypto, from: Config, to: Config, q: seq<Item>, m: nat, n: nat, k: nat)
    requires Proper(q, m)
    ensures var q' := q + seq(k, _ => Hs);
            && Proper(q', m)
            && Encode(c, from, to, q', m, n)
               == Encode(c, from, to, q, m, n) + HsWires(c, from, to, m + Handshakes(q), m + Handshakes(q) + k, n + |q|)
            && Handshakes(q') == Handshakes(q) + k
            && Apps(q') == Apps(q)
    decreases k
  {
    hide Encode;
    hide ItemWire;
    hide Proper;
    hide Handshakes;
    hide Apps;
    hide RoundOf;
    if k == 0 {
      assert q + seq(k, _ => Hs) == q;
    } else {
      EncodeHs(c, from, to, q, m, n, k - 1);
      var q1 := q + seq(k - 1, _ => Hs);
      assert q + seq(k, _ => Hs) == q1 + [Hs];
      EncodeSnoc(c, from, to, q1, Hs, m, n);
      var m1, n1 := m + Handshakes(q), n + |q|;
      HsWiresSplit(c, from, to, m1, m1 + k - 1, m1 + k, n1);
      assert HsWires(c, from, to, m1 + k - 1, m1 + k, n1 + (k - 1)) == ItemWire(c, from, to, Hs, m1 + k - 1, n1 + k - 1);
    }
  }

  /** Sending handshake messages extends the outgoing direction and nothing else. */
  lemma LinkSends(c: Crypto, from: Party, s': Sess, to: Party, pf: nat, pf': nat, pt: nat, q: seq<Item>, n: nat)
    requires Link(c, from, to, pf, pt, q, n)
    requires SentHs(c, from.g, to.g, from.e.sess, s', Sent(from.g.initiator, pf), Sent(from.g.initiator, pf'))
    ensures var k := Sent(from.g.initiator, pf') - Sent(from.g.initiator, pf);
            Link(c, from.(e := from.e.(sess := s')), to, pf', pt, q + seq(k, _ => Hs), n)
  {
    hide Encode;
    hide HsWires;
    hide Proper;
    hide Handshakes;
    hide Apps;
    hide AppRecords;
    hide Low32;
    hide Sent;
    hide Received;
    var s := from.e.sess;
    var m, k := Sent(from.g.initiator, pf), Sent(from.g.initiator, pf') - Sent(from.g.initiator, pf);
    EncodeHs(c, from.g, to.g, q, Received(pt), n, k);
    Low32Add(n + |q|, 0);
    Low32Add(n + |q|, k);
    HsWiresSeqno(c, from.g, to.g, m, m + k, n + |q|, s.outseqno);
    TailAppend(to.e.inbuf, s.sent, to.got, HsWires(c, from.g, to.g, m, m + k, s.outseqno));
  }

  lemma TailAppend(buf: Bytes, sent: Bytes, got: nat, w: Bytes)
    requires got <= |sent|
    ensures buf + (sent + w)[got..] == (buf + sent[got..]) + w
  {
    assert (sent + w)[got..] == sent[got..] + w;
  }

  function Counted(s: Sess): (r: Sess) { s.(inseqno := Low32(s.inseqno + 1)) }

  lemma AtCounted(c: Crypto, me: Config, him: Config, s: Sess, p: nat)
    requires At(c, me, him, s, p)
    ensures At(c, me, him, Counted(s), p) && Position(p)
    ensures Valid(Counted(s))
  {
  }

  /** The last byte of a record hands it over, whole and opened. */
  lemma PushLast(c: Crypto, y: Sys, v: View)
    requires Receiving(c, y, v) && Reading(y.a.e) && v.qb != [] && (v.qb[0].App? ==> Sendable(v.qb[0].rec))
    requires |y.a.e.inbuf| + 1 == |ItemWire(c, y.b.g, y.a.g, v.qb[0], Received(v.pa), v.nb)|
    requires Valid(Counted(y.a.e.sess))
    requires HandleRecord(c, y.a.g, Counted(y.a.e.sess), Current(c, y, v).ty, Current(c, y, v).data).ok
    ensures var o := HandleRecord(c, y.a.g, Counted(y.a.e.sess), Current(c, y, v).ty, Current(c, y, v).data);
            Pushed(c, y) == Outcome(y.(a := y.a.(e := Endpoint(o.s, [], y.a.e.reclen), got := y.a.got + 1)), true)
  {
    hide At;
    hide Link;
    hide ItemWire;
    hide Complete;
    hide HandleRecord;
    CurrentRecord(c, y, v);
    var rec := Current(c, y, v);
    var e := y.a.e.(inbuf := y.a.e.inbuf + [NextByte(y)]);
    var s := e.sess;
    var w := Wire(c, if s.instate then s.inKey else None, s.inseqno, rec.ty, rec.data);
    assert e.inbuf == w[..|w|] == w;
    assert e.reclen == |rec.data|;
    CompleteOpens(c, y.a.g, e, rec.ty, rec.data);
  }

  lemma QueueTail(c: Crypto, from: Config, to: Config, q: seq<Item>, m: nat, n: nat)
    requires Proper(q, m) && q != []
    ensures q[0].App? ==> Sendable(q[0].rec)
    ensures var m' := if q[0].Hs? then m + 1 else m;
            && Proper(q[1..], m')
            && Encode(c, from, to, q, m, n) == ItemWire(c, from, to, q[0], m, n) + Encode(c, from, to, q[1..], m', n + 1)
            && m + Handshakes(q) == m' + Handshakes(q[1..])
            && Apps(q) == Apps([q[0]]) + Apps(q[1..])
  {
    hide ItemWire;
    assert [q[0]][1..] == [];
  }

  /** The incoming direction after its first record has been taken in. */
  lemma LinkTakes(c: Crypto, from: Party, to: Party, s': Sess, pf: nat, pt: nat, pt': nat, q: seq<Item>, n: nat)
    requires Link(c, from, to, pf, pt, q, n) && q != [] && to.got < |from.e.sess.sent|
    requires q[0].App? ==> Sendable(q[0].rec)
    requires to.e.inbuf + [from.e.sess.sent[to.got]] == ItemWire(c, from.g, to.g, q[0], Received(pt), n)
    requires Received(pt') == Received(pt) + (if q[0].Hs? then 1 else 0)
    requires s'.inseqno == Low32(to.e.sess.inseqno + 1)
    requires AppRecords(s'.delivered) == AppRecords(to.e.sess.delivered) + Apps([q[0]])
    ensures Link(c, from, to.(e := Endpoint(s', [], to.e.reclen), got := to.got + 1), pf, pt', q[1..], n + 1)
  {
    hide ItemWire;
    hide AppRecords;
    hide Low32;
    hide Sent;
    hide Received;
    hide Encode;
    hide Proper;
    hide Handshakes;
    hide Apps;
    QueueTail(c, from.g, to.g, q, Received(pt), n);
    var w := ItemWire(c, from.g, to.g, q[0], Received(pt), n);
    var after := Encode(c, from.g, to.g, q[1..], Received(pt'), n + 1);
    SplitOff(to.e.inbuf, from.e.sess.sent, to.got, w, after);
    Low32Add(n, 1);
  }

  lemma SplitOff(buf: Bytes, sent: Bytes, got: nat, w: Bytes, after: Bytes)
    requires got < |sent| && buf + [sent[got]] == w && buf + sent[got..] == w + after
    ensures [] + sent[got + 1..] == after
  {
    assert sent[got..] == [sent[got]] + sent[got + 1..];
    assert buf + sent[got..] == w + sent[got + 1..];
    assert sent[got + 1..] == (w + sent[got + 1..])[|w|..] == (w + after)[|w|..] == after;
  }

  lemma PushApp(c: Crypto, y: Sys, v: View) returns (v': View)
    requires Receiving(c, y, v) && Reading(y.a.e) && v.qb != [] && v.qb[0].App? && Sendable(v.qb[0].rec) && v.pa >= 4
    requires |y.a.e.inbuf| + 1 == |ItemWire(c, y.b.g, y.a.g, v.qb[0], Received(v.pa), v.nb)|
    ensures Pushed(c, y).ok && Inv(c, Pushed(c, y).s, v')
  {
    hide ItemWire;
    hide Encode;
    hide Pushed;
    hide PushByte;
    hide Link;
    hide ReceiveHandshake;
    hide AppRecords;
    hide Material;
    var s := Counted(y.a.e.sess);
    AtValid(c, y.a.g, y.b.g, s, v.pa);
    var rec := v.qb[0].rec;
    var s' := s.(delivered := s.delivered + [rec]);
    assert HandleRecord(c, y.a.g, s, rec.ty, rec.data) == Outcome(s', true);
    PushLast(c, y, v);
    CurrentRecord(c, y, v);
    AppRecordsSnoc(s.delivered, rec);
    assert Apps([v.qb[0]]) == [rec] + Apps([v.qb[0]][1..]) == [rec];
    LinkTakes(c, y.b, y.a, s', v.pb, v.pa, v.pa, v.qb, v.nb);
    LinkSame(c, y.a, y.a.(e := Endpoint(s', [], y.a.e.reclen), got := y.a.got + 1), y.b, v.pa, v.pb, v.qa, v.na);
    v' := v.(qb := v.qb[1..], nb := v.nb + 1);
  }

  /** A direction depends on its sender only through what has been sent. */
  lemma LinkSame(c: Crypto, from: Party, from': Party, to: Party, pf: nat, pt: nat, q: seq<Item>, n: nat)
    requires Link(c, from, to, pf, pt, q, n)
    requires from'.g == from.g && from'.app == from.app
    requires from'.e.sess.sent == from.e.sess.sent && from'.e.sess.outseqno == from.e.sess.outseqno
    ensures Link(c, from', to, pf, pt, q, n)
  {
  }

  lemma PushHs(c: Crypto, y: Sys, v: View) returns (v': View)
    requires Receiving(c, y, v) && Reading(y.a.e) && v.qb != [] && v.qb[0].Hs?
    requires |y.a.e.inbuf| + 1 == |ItemWire(c, y.b.g, y.a.g, v.qb[0], Received(v.pa), v.nb)|
    ensures Pushed(c, y).ok && Inv(c, Pushed(c, y).s, v')
  {
    hide ItemWire;
    hide Encode;
    hide Pushed;
    hide PushByte;
    hide ReceiveHandshake;
    hide Link;
    hide At;
    hide SentHs;
    hide Sent;
    hide Received;
    hide Message;
    hide AppRecords;
    hide Low32;
    hide Valid;
    var me, him := y.a.g, y.b.g;
    var s := Counted(y.a.e.sess);
    AtCounted(c, me, him, y.a.e.sess, v.pa);
    TakeHandshake(c, me, him, s, v.pa);
    NextCounts(v.pa);
    var s' := ReceiveHandshake(c, me, s, Message(c, him, me, Received(v.pa))).s;
    PushLast(c, y, v);
    CurrentRecord(c, y, v);
    assert Apps([v.qb[0]]) == [];
    var p' := Next(v.pa);
    var k := Sent(me.initiator, p') - Sent(me.initiator, v.pa);
    HsTakes(c, y, v, s');
    HsSends(c, y, v, s, s', p');
    v' := v.(pa := p', qa := v.qa + seq(k, _ => Hs), qb := v.qb[1..], nb := v.nb + 1);
  }

  lemma HsTakes(c: Crypto, y: Sys, v: View, s': Sess)
    requires Receiving(c, y, v) && v.qb != [] && v.qb[0].Hs?
    requires y.a.e.inbuf + [NextByte(y)] == ItemWire(c, y.b.g, y.a.g, v.qb[0], Received(v.pa), v.nb)
    requires s'.inseqno == Low32(y.a.e.sess.inseqno + 1)
    requires AppRecords(s'.delivered) == AppRecords(y.a.e.sess.delivered)
    ensures Link(c, y.b, y.a.(e := Endpoint(s', [], y.a.e.reclen), got := y.a.got + 1), v.pb, Next(v.pa), v.qb[1..], v.nb + 1)
  {
    hide Link;
    hide ItemWire;
    NextCounts(v.pa);
    assert Apps([v.qb[0]]) == [];
    LinkTakes(c, y.b, y.a, s', v.pb, v.pa, Next(v.pa), v.qb, v.nb);
  }

  lemma HsSends(c: Crypto, y: Sys, v: View, s: Sess, s': Sess, p': nat)
    requires Inv(c, y, v) && s == Counted(y.a.e.sess)
    requires SentHs(c, y.a.g, y.b.g, s, s', Sent(y.a.g.initiator, v.pa), Sent(y.a.g.initiator, p'))
    ensures var k := Sent(y.a.g.initiator, p') - Sent(y.a.g.initiator, v.pa);
            Link(c, y.a.(e := Endpoint(s', [], y.a.e.reclen), got := y.a.got + 1), y.b, p', v.pb,
                 v.qa + seq(k, _ => Hs), v.na)
  {
    hide Encode;
    hide At;
    hide HsWires;
    hide Proper;
    hide Handshakes;
    hide Apps;
    hide AppRecords;
    hide Low32;
    hide Received;
    hide Sent;
    LinkSends(c, y.a.(e := y.a.e.(sess := s)), s', y.b, v.pa, p', v.pb, v.qa, v.na);
  }

  /** Every byte the peer sent is taken in without failure, keeping the invariant. */
  lemma PushKeeps(c: Crypto, y: Sys, v: View) returns (v': View)
    requires Receiving(c, y, v)
    ensures Reading(y.a.e) && Pushed(c, y).ok && Inv(c, Pushed(c, y).s, v')
  {
    hide Inv;
    hide Pushed;
    hide ItemWire;
    CurrentRecord(c, y, v);
    if |y.a.e.inbuf| + 1 < |ItemWire(c, y.b.g, y.a.g, v.qb[0], Received(v.pa), v.nb)| {
      PushInside(c, y, v);
      v' := v;
    } else if v.qb[0].App? {
      v' := PushApp(c, y, v);
    } else {
      v' := PushHs(c, y, v);
    }
  }

  lemma {:induction false} PushAllKeeps(c: Crypto, y: Sys, v: View, k: nat) returns (v': View)
    requires Inv(c, y, v) && y.a.got + k <= |y.b.e.sess.sent|
    ensures Reading(y.a.e)
    ensures var o := PushAll(c, y.a.g, y.a.e, y.b.e.sess.sent[y.a.got..y.a.got + k]);
            o.ok && Inv(c, y.(a := y.a.(e := o.s, got := y.a.got + k)), v')
    decreases k
  {
    hide Inv;
    hide PushByte;
    InvReading(c, y, v);
    var data := y.b.e.sess.sent[y.a.got..y.a.got + k];
    if k == 0 {
      assert data == [];
      v' := v;
    } else {
      var v1 := PushKeeps(c, y, v);
      var y1 := Pushed(c, y).s;
      assert data[0] == NextByte(y);
      assert data[1..] == y.b.e.sess.sent[y1.a.got..y1.a.got + (k - 1)];
      v' := PushAllKeeps(c, y1, v1, k - 1);
    }
  }

  lemma InvReading(c: Crypto, y: Sys, v: View)
    requires Inv(c, y, v)
    ensures Reading(y.a.e) && OpenDropsTag(c)
  {
    hide Message;
    hide KeyAt;
    hide Encode;
    var e := y.a.e;
    AtValid(c, y.a.g, y.b.g, e.sess, v.pa);
    NextCounts(v.pa);
    if e.inbuf != [] {
      InvWhole(c, y, v);
    }
  }

  lemma InvWhole(c: Crypto, y: Sys, v: View)
    requires Inv(c, y, v) && y.a.e.inbuf != []
    ensures |y.a.e.inbuf| >= 2 ==> |y.a.e.inbuf| < RecordSize(y.a.e)
  {
    hide Message;
    hide Wire;
    var e := y.a.e;
    NextCounts(v.pa);
    var pending := e.inbuf + Flight(y.b, y.a);
    assert pending[..|e.inbuf|] == e.inbuf;
    FirstOfQueue(c, y.b.g, y.a.g, v.qb, Received(v.pa), v.nb);
    ByteKey(c, y, v);
  }

  // Runs.

  /** What may happen at one endpoint: its application sends a record or asks for a
      rekey, or it is given the next k bytes of the peer's output in one call. */
  datatype Event = SendApp(rec: Record) | Rekey | Deliver(k: nat)

  datatype Act = Act(first: bool, ev: Event)

  /** One event at party a. A refused send or rekey changes nothing; only a failing
      sptps_receive_data makes a step fail. */
  function StepA(c: Crypto, y: Sys, ev: Event): (r: Outcome<Sys>)
    requires OpenDropsTag(c)
  {
    var e := y.a.e;
    match ev
    case SendApp(rec) =>
      if |rec.data| >= 65536 then Outcome(y, true)
      else
        var o := SendRecord(c, e.sess, rec.ty, rec.data);
        Outcome(if o.ok then y.(a := y.a.(e := e.(sess := o.s), app := y.a.app + [rec])) else y, true)
    case Rekey =>
      Outcome(y.(a := y.a.(e := e.(sess := ForceKex(c, y.a.g, e.sess).s))), true)
    case Deliver(k) =>
      if k == 0 || y.a.got + k > |y.b.e.sess.sent| then Outcome(y, true)
      else if !ValidEndpoint(e) then Outcome(y, false)
      else
        var (e', n) := ReceiveData(c, y.a.g, e, y.b.e.sess.sent[y.a.got..y.a.got + k]);
        Outcome(y.(a := y.a.(e := e', got := y.a.got + n)), n > 0)
  }

  function Step(c: Crypto, y: Sys, act: Act): (r: Outcome<Sys>)
    requires OpenDropsTag(c)
  {
    if act.first then StepA(c, y, act.ev)
    else var o := StepA(c, Flip(y), act.ev); Outcome(Flip(o.s), o.ok)
  }

  function Init(c: Crypto, ga: Config, gb: Config): (y: Sys) {
    Sys(Party(ga, Endpoint(Start(c, ga), [], 0), 0, []), Party(gb, Endpoint(Start(c, gb), [], 0), 0, []))
  }

  /** The state after a sequence of actions, up to the first failing one. */
  function Run(c: Crypto, ga: Config, gb: Config, acts: seq<Act>): (r: Outcome<Sys>)
    requires OpenDropsTag(c)
  {
    if acts == [] then Outcome(Init(c, ga, gb), true)
    else
      var o := Run(c, ga, gb, acts[..|acts| - 1]);
      if o.ok then Step(c, o.s, acts[|acts| - 1]) else o
  }

  lemma InitInv(c: Crypto, ga: Config, gb: Config)
    requires Matching(c, ga, gb)
    ensures Inv(c, Init(c, ga, gb), View(1, 1, [Hs], [Hs], 0, 0))
  {
    StartInv(c, ga, gb);
    StartInv(c, gb, ga);
    hide Start;
    hide Encode;
    hide Handshakes;
    hide Apps;
    var y := Init(c, ga, gb);
    assert y.b.e.inbuf + Flight(y.a, y.b) == Start(c, ga).sent;
    assert y.a.e.inbuf + Flight(y.b, y.a) == Start(c, gb).sent;
  }

  lemma StartInv(c: Crypto, me: Config, him: Config)
    requires Lawful(c)
    ensures At(c, me, him, Start(c, me), 1)
    ensures Proper([Hs], 0) && Handshakes([Hs]) == 1 && Apps([Hs]) == []
    ensures Start(c, me).sent == Encode(c, me, him, [Hs], 0, 0)
    ensures Start(c, me).outseqno == 1 && Start(c, me).inseqno == 0 && Start(c, me).delivered == []
  {
    hide KexBytes;
    hide Wire;
    assert [Hs][1..] == [];
    assert Message(c, me, him, 0) == KexOf(c, me, 0);
    assert Encode(c, me, him, [Hs], 0, 0) == ItemWire(c, me, him, Hs, 0, 0) + [];
  }

  lemma SendingKey(c: Crypto, me: Config, him: Config, s: Sess, p: nat)
    requires At(c, me, him, s, p) && p >= 4
    ensures s.outKey == KeyAt(c, me, him, RoundOf(Sent(me.initiator, p))) && Sent(me.initiator, p) >= 2
  {
    hide KeyAt;
    hide KexBytes;
    assert RoundOf(Sent(me.initiator, p)) == (p + 1) / 4;
  }

  lemma SendKeeps(c: Crypto, y: Sys, v: View, rec: Record) returns (v': View)
    requires Inv(c, y, v) && Sendable(rec) && y.a.e.sess.outstate
    ensures Inv(c, StepA(c, y, SendApp(rec)).s, v')
  {
    hide At;
    hide Encode;
    hide Proper;
    hide Handshakes;
    hide Apps;
    hide AppRecords;
    hide Low32;
    hide Received;
    hide Sent;
    hide KeyAt;
    hide RoundOf;
    hide Wire;
    var me, him, s := y.a.g, y.b.g, y.a.e.sess;
    AtValid(c, me, him, s, v.pa);
    SendingKey(c, me, him, s, v.pa);
    var m := Received(v.pb);
    EncodeSnoc(c, me, him, v.qa, App(rec), m, v.na);
    var s' := SendRecordPriv(c, s, rec.ty, rec.data);
    AtSent(c, me, him, s, v.pa, rec);
    Low32Add(v.na + |v.qa|, 1);
    TailAppend(y.b.e.inbuf, s.sent, y.b.got, Wire(c, s.outKey, s.outseqno, rec.ty, rec.data));
    v' := v.(qa := v.qa + [App(rec)]);
    var a' := y.a.(e := y.a.e.(sess := s'), app := y.a.app + [rec]);
    assert Link(c, a', y.b, v.pa, v.pb, v'.qa, v.na);
    assert Link(c, y.b, a', v.pb, v.pa, v.qb, v.nb);
  }

  lemma AtSent(c: Crypto, me: Config, him: Config, s: Sess, p: nat, rec: Record)
    requires At(c, me, him, s, p) && |rec.data| < 65536
    ensures At(c, me, him, SendRecordPriv(c, s, rec.ty, rec.data), p)
  {
    hide KeyAt;
    hide Wire;
    hide KexBytes;
  }

  /** A direction depends on its receiver only through what has been received. */
  lemma LinkSameTo(c: Crypto, from: Party, to: Party, to': Party, pf: nat, pt: nat, pt': nat, q: seq<Item>, n: nat)
    requires Link(c, from, to, pf, pt, q, n) && Received(pt') == Received(pt)
    requires to'.g == to.g && to'.got == to.got && to'.e.inbuf == to.e.inbuf
    requires to'.e.sess.inseqno == to.e.sess.inseqno && to'.e.sess.delivered == to.e.sess.delivered
    ensures Link(c, from, to', pf, pt', q, n)
  {
  }

  lemma RekeyKeeps(c: Crypto, y: Sys, v: View) returns (v': View)
    requires Inv(c, y, v)
    ensures Inv(c, StepA(c, y, Rekey).s, v')
  {
    if v.pa % 4 == 0 {
      hide *;
      v' := RekeyStarts(c, y, v);
    } else {
      hide At;
      hide Link;
      hide SendKex;
      AtValid(c, y.a.g, y.b.g, y.a.e.sess, v.pa);
      v' := v;
      assert StepA(c, y, Rekey).s == y;
    }
  }

  /** A rekey that is not already under way. */
  lemma RekeyStarts(c: Crypto, y: Sys, v: View) returns (v': View)
    requires Inv(c, y, v) && v.pa % 4 == 0
    ensures Inv(c, StepA(c, y, Rekey).s, v')
  {
    hide At;
    hide Link;
    hide SentHs;
    hide SendKex;
    hide Partial;
    hide ItemWire;
    var me, him, s := y.a.g, y.b.g, y.a.e.sess;
    AtValid(c, me, him, s, v.pa);
    OpenExchange(c, me, him, s, v.pa);
    assert Received(v.pa + 1) == Received(v.pa) && Sent(me.initiator, v.pa + 1) - Sent(me.initiator, v.pa) == 1;
    hide Sent;
    hide Received;
    var s' := SendKex(c, me, s.(state := Kex)).s;
    var a' := y.a.(e := y.a.e.(sess := s'));
    assert StepA(c, y, Rekey).s == y.(a := a');
    hide StepA;
    hide ForceKex;
    LinkSends(c, y.a, s', y.b, v.pa, v.pa + 1, v.pb, v.qa, v.na);
    LinkSameTo(c, y.b, y.a, a', v.pb, v.pa, v.pa + 1, v.qb, v.nb);
    v' := v.(pa := v.pa + 1, qa := v.qa + seq(1, _ => Hs));
    StillPartial(c, y, v, a', v.qa + seq(1, _ => Hs));
    assert Inv(c, y.(a := a'), v');
  }

  lemma StillPartial(c: Crypto, y: Sys, v: View, a': Party, q: seq<Item>)
    requires Partial(c, y.a.g, y.b, v.qa, v.pb, v.na) && v.qa <= q
    requires Partial(c, y.b.g, y.a, v.qb, v.pa, v.nb) && Received(v.pa + 1) == Received(v.pa)
    requires a'.g == y.a.g && a'.e.inbuf == y.a.e.inbuf && a'.e.reclen == y.a.e.reclen
    ensures Partial(c, a'.g, y.b, q, v.pb, v.na) && Partial(c, y.b.g, a', v.qb, v.pa + 1, v.nb)
  {
    hide ItemWire;
    hide Received;
  }

  /** One call of sptps_receive_data on any number of bytes the peer sent. */
  lemma DeliverKeeps(c: Crypto, y: Sys, v: View, k: nat) returns (v': View)
    requires Inv(c, y, v) && 0 < k && y.a.got + k <= |y.b.e.sess.sent|
    ensures OpenDropsTag(c)
    ensures StepA(c, y, Deliver(k)).ok && Inv(c, StepA(c, y, Deliver(k)).s, v')
  {
    hide Inv;
    hide ReceiveData;
    hide PushAll;
    InvReading(c, y, v);
    var data := y.b.e.sess.sent[y.a.got..y.a.got + k];
    CallIsPush(c, y.a.g, y.a.e, data);
    var (e', n) := ReceiveData(c, y.a.g, y.a.e, data);
    if n == 0 {
      var _ := PushAllKeeps(c, y, v, k);
      assert false;
    } else {
      assert data[..n] == y.b.e.sess.sent[y.a.got..y.a.got + n];
      v' := PushAllKeeps(c, y, v, n);
    }
  }

  lemma StepKeeps(c: Crypto, y: Sys, v: View, ev: Event) returns (v': View)
    requires Inv(c, y, v) && OpenDropsTag(c)
    ensures StepA(c, y, ev).ok && Inv(c, StepA(c, y, ev).s, v')
  {
    hide Inv;
    hide ReceiveData;
    hide ForceKex;
    hide SendRecordPriv;
    v' := v;
    match ev {
      case SendApp(rec) =>
        if Sendable(rec) && y.a.e.sess.outstate {
          v' := SendKeeps(c, y, v, rec);
        }
      case Rekey =>
        v' := RekeyKeeps(c, y, v);
      case Deliver(k) =>
        if 0 < k && y.a.got + k <= |y.b.e.sess.sent| {
          v' := DeliverKeeps(c, y, v, k);
        }
    }
  }

  lemma {:induction false} RunKeeps(c: Crypto, ga: Config, gb: Config, acts: seq<Act>) returns (v: View)
    requires Matching(c, ga, gb)
    ensures Run(c, ga, gb, acts).ok && Inv(c, Run(c, ga, gb, acts).s, v)
    decreases |acts|
  {
    hide Inv;
    hide StepA;
    if acts == [] {
      InitInv(c, ga, gb);
      v := View(1, 1, [Hs], [Hs], 0, 0);
    } else {
      var n := |acts| - 1;
      var v0 := RunKeeps(c, ga, gb, acts[..n]);
      var y := Run(c, ga, gb, acts[..n]).s;
      if acts[n].first {
        v := StepKeeps(c, y, v0, acts[n].ev);
      } else {
        FlipInv(c, y, v0);
        var v1 := StepKeeps(c, Flip(y), FlipView(v0), acts[n].ev);
        FlipInv(c, StepA(c, Flip(y), acts[n].ev).s, v1);
        v := FlipView(v1);
      }
    }
  }

  // What a user of the protocol is promised.

  /** Whatever is on its way to `to` begins with a record sealed under the very key and
      sequence number that `to` will open it with. */
  ghost predicate NextOpens(c: Crypto, from: Party, to: Party) {
    && to.got <= |from.e.sess.sent|
    && var pending := to.e.inbuf + Flight(from, to);
       pending != [] ==> exists rec :: StartsWith(c, pending, to.e.sess, rec)
  }

  predicate StartsWith(c: Crypto, pending: Bytes, s: Sess, rec: Record) {
    && |rec.data| < 65536
    && Wire(c, if s.instate then s.inKey else None, s.inseqno, rec.ty, rec.data) <= pending
  }

  /** Nothing is in flight in either direction. */
  predicate Quiet(y: Sys) {
    y.b.got == |y.a.e.sess.sent| && y.a.got == |y.b.e.sess.sent|
  }

  /** Both ends idle, keys and counters agree, everything sent has been delivered. */
  predicate Settled(y: Sys) {
    var s, t := y.a.e.sess, y.b.e.sess;
    && s.state.SecondaryKex? && t.state.SecondaryKex?
    && s.instate && s.outstate && t.instate && t.outstate
    && s.inKey == t.outKey && t.inKey == s.outKey
    && s.inseqno == t.outseqno && t.inseqno == s.outseqno
    && AppRecords(s.delivered) == y.b.app && AppRecords(t.delivered) == y.a.app
  }

  ghost predicate Safe(c: Crypto, y: Sys) {
    && AppRecords(y.b.e.sess.delivered) <= y.a.app
    && AppRecords(y.a.e.sess.delivered) <= y.b.app
    && NextOpens(c, y.a, y.b)
    && NextOpens(c, y.b, y.a)
    && (Quiet(y) ==> Settled(y))
  }

  lemma DeliveredPrefix(c: Crypto, y: Sys, v: View)
    requires Inv(c, y, v)
    ensures AppRecords(y.b.e.sess.delivered) <= y.a.app
  {
    hide At;
    hide Encode;
    hide Partial;
    hide AppRecords;
  }

  lemma OpensNext(c: Crypto, y: Sys, v: View)
    requires Inv(c, y, v)
    ensures NextOpens(c, y.b, y.a)
  {
    hide Message;
    hide KeyAt;
    var pending := y.a.e.inbuf + Flight(y.b, y.a);
    if pending != [] {
      NextCounts(v.pa);
      FirstOfQueue(c, y.b.g, y.a.g, v.qb, Received(v.pa), v.nb);
      ByteKey(c, y, v);
      var rec := Current(c, y, v);
      assert StartsWith(c, pending, y.a.e.sess, rec);
    }
  }

  /** With both queues empty the two message counts force equal, idle positions. */
  lemma QuietPositions(pa: nat, pb: nat)
    requires Position(pa) && Position(pb)
    requires Sent(true, pa) == Received(pb) && Sent(false, pb) == Received(pa)
    ensures pa == pb && pa % 4 == 0
  {
  }

  lemma EmptyQueue(c: Crypto, y: Sys, v: View)
    requires Inv(c, y, v) && y.a.got == |y.b.e.sess.sent|
    ensures v.qb == []
  {
    hide ItemWire;
    var pending := y.a.e.inbuf + Flight(y.b, y.a);
    assert pending == y.a.e.inbuf;
    if v.qb != [] {
      QueueTail(c, y.b.g, y.a.g, v.qb, Received(v.pa), v.nb);
      var w := ItemWire(c, y.b.g, y.a.g, v.qb[0], Received(v.pa), v.nb);
      assert |w| <= |pending|;
      WireNonEmpty(c, y.b.g, y.a.g, v.qb[0], Received(v.pa), v.nb);
    }
  }

  lemma WireNonEmpty(c: Crypto, from: Config, to: Config, item: Item, m: nat, n: nat)
    requires item.App? ==> Sendable(item.rec)
    ensures ItemWire(c, from, to, item, m, n) != []
  {
  }

  lemma QuietSettled(c: Crypto, y: Sys, v: View)
    requires Inv(c, y, v) && Quiet(y)
    ensures Settled(y)
  {
    hide Encode;
    hide Material;
    FlipInv(c, y, v);
    EmptyQueue(c, y, v);
    EmptyQueue(c, Flip(y), FlipView(v));
    if y.a.g.initiator {
      QuietPositions(v.pa, v.pb);
    } else {
      QuietPositions(v.pb, v.pa);
    }
  }

  /** Main result. For every lawful cryptography, every pair of matching endpoints and
      every sequence of application sends, rekey requests and deliveries of arbitrary
      numbers of bytes at either end: no call of sptps_receive_data fails, each record is
      opened with the key and number it was sealed with, the application records handed
      over are a prefix of those sent, and whenever the channels are empty both ends are
      idle with matching keys. */
  lemma EveryRunIsSafe(c: Crypto, ga: Config, gb: Config, acts: seq<Act>)
    requires Matching(c, ga, gb)
    ensures Run(c, ga, gb, acts).ok && Safe(c, Run(c, ga, gb, acts).s)
  {
    hide Run;
    hide Inv;
    hide NextOpens;
    hide Settled;
    hide AppRecords;
    var v := RunKeeps(c, ga, gb, acts);
    var y := Run(c, ga, gb, acts).s;
    OpensNext(c, y, v);
    DeliveredPrefix(c, y, v);
    FlipInv(c, y, v);
    OpensNext(c, Flip(y), FlipView(v));
    DeliveredPrefix(c, Flip(y), FlipView(v));
    if Quiet(y) {
      QuietSettled(c, y, v);
    }
  }
}