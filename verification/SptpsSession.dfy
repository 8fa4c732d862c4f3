/** The session object: the fields of sptps_t and the functions that update them
    one by one, each proved to do what its value-level specification says. */
module SptpsSession {
  import opened Basics
  import opened Sptps
  import Spec = Sptps

  class Session {
    const crypto: Crypto
    const cfg: Config

    var state: Phase
    var inbuf: array<byte>
    var buflen: nat
    var reclen: nat
    var instate: bool
    var inKey: Option<Bytes>
    var inseqno: nat
    var outstate: bool
    var outKey: Option<Bytes>
    var outseqno: nat
    var ecdh: Option<Bytes>
    var mykex: Option<KexMsg>
    var hiskex: Option<KexMsg>
    var key: Option<Block128>
    var draws: nat
    // What the two callbacks were handed so far.
    var sent: Bytes
    var delivered: seq<Record>

    /** The buffer is large enough for whatever may still be written to it. */
    ghost predicate Allocated()
      reads this
    {
      && buflen <= inbuf.Length
      && 2 <= inbuf.Length
      && (buflen >= 2 ==> inbuf.Length == reclen + SEALED_OVERHEAD)
    }

    ghost function Value(): (s: Sess)
      reads this
    {
      Sess(state, instate, inKey, inseqno, outstate, outKey, outseqno,
           ecdh, mykex, hiskex, key, draws, sent, delivered)
    }

    /** The session with the filled part of its receive buffer. */
    ghost function Contents(): (e: Endpoint)
      reads this, inbuf
      requires Allocated()
    {
      Endpoint(Value(), inbuf[..buflen], reclen)
    }

    ghost predicate Ready()
      reads this, inbuf
    {
      Allocated() && OpenDropsTag(crypto) && ValidEndpoint(Contents())
    }

    constructor (crypto: Crypto, cfg: Config)
      requires OpenDropsTag(crypto)
      ensures this.crypto == crypto && this.cfg == cfg
      ensures Ready() && fresh(inbuf)
      ensures Contents() == Endpoint(Spec.Start(crypto, cfg), [], 0)
    {
      this.crypto, this.cfg := crypto, cfg;
      inbuf := new byte[7];
      buflen, reclen := 0, 0;
      instate, inKey, inseqno := false, None, 0;
      outstate, outKey, outseqno := false, None, 0;
      ecdh, mykex, hiskex, key := None, None, None, None;
      draws, sent, delivered := 0, [], [];
      state := Kex;
      new;
      var ok := SendKex();
    }

    method SendRecordPriv(ty: byte, data: Bytes)
      requires |data| < 65536
      modifies this`sent, this`outseqno
      ensures Value() == Spec.SendRecordPriv(crypto, old(Value()), ty, data)
    {
      var seqno := outseqno;
      outseqno := Low32(outseqno + 1);
      var buffer := Header(|data|) + [ty] + data;
      if outstate && outKey.Some? {
        buffer := buffer[..2] + crypto.seal(outKey.value, seqno, buffer[2..]);
      }
      sent := sent + buffer;
      assert Header(|data|) + [ty] + data == Header(|data|) + ([ty] + data);
    }

    method SendRecord(ty: byte, data: Bytes) returns (ok: bool)
      requires |data| < 65536
      modifies this`sent, this`outseqno
      ensures Outcome(Value(), ok) == Spec.SendRecord(crypto, old(Value()), ty, data)
    {
      if !outstate {
        return false;
      }
      if ty >= HANDSHAKE {
        return false;
      }
      SendRecordPriv(ty, data);
      return true;
    }

    method SendKex() returns (ok: bool)
      modifies this`sent, this`outseqno, this`mykex, this`ecdh, this`draws
      ensures Outcome(Value(), ok) == Spec.SendKex(crypto, cfg, old(Value()))
      ensures ok ==> mykex.Some?
    {
      if mykex.Some? {
        return false;
      }
      var d := cfg.rand(draws);
      draws := draws + 1;
      mykex := Some(KexBytes(crypto, d));
      ecdh := Some(d.secret);
      SendRecordPriv(HANDSHAKE, mykex.value);
      return true;
    }

    method SendSig()
      requires mykex.Some? && hiskex.Some?
      modifies this`sent, this`outseqno
      ensures Value() == Spec.SendSig(crypto, cfg, old(Value()))
    {
      var msg := SigMessage(cfg.initiator, mykex.value, hiskex.value, cfg.name);
      SendRecordPriv(HANDSHAKE, crypto.sign(cfg.myKey, msg));
    }

    method ForceKex() returns (ok: bool)
      modifies this`state, this`sent, this`outseqno, this`mykex, this`ecdh, this`draws
      ensures Outcome(Value(), ok) == Spec.ForceKex(crypto, cfg, old(Value()))
    {
      if !outstate || state != SecondaryKex {
        return false;
      }
      state := Kex;
      ok := SendKex();
    }

    method GenerateKeyMaterial()
      requires mykex.Some? && hiskex.Some? && ecdh.Some?
      modifies this`ecdh, this`inKey, this`outKey, this`key
      ensures Value() == Spec.DeriveKeys(crypto, cfg, old(Value()))
    {
      var shared := crypto.shared(ecdh.value, PublicKey(hiskex.value));
      ecdh := None;
      if !outstate {
        inKey, outKey := None, None;
      }
      var first := if cfg.initiator then mykex.value else hiskex.value;
      var second := if cfg.initiator then hiskex.value else mykex.value;
      key := Some(crypto.prf(shared, KEY_EXPANSION + Nonce(first) + Nonce(second) + cfg.name));
    }

    method ReceiveAck(data: Bytes) returns (ok: bool)
      requires key.Some?
      modifies this`inKey, this`key, this`instate
      ensures Outcome(Value(), ok) == Spec.ReceiveAck(cfg, old(Value()), data)
    {
      if |data| != 0 {
        return false;
      }
      inKey := Some(if cfg.initiator then key.value[..64] else key.value[64..]);
      key := None;
      instate := true;
      return true;
    }

    method ReceiveKex(data: Bytes) returns (ok: bool)
      requires mykex.Some?
      modifies this`hiskex, this`sent, this`outseqno
      ensures Outcome(Value(), ok) == Spec.ReceiveKex(crypto, cfg, old(Value()), data)
    {
      if |data| != 65 {
        return false;
      }
      if data[0] != VERSION {
        return false;
      }
      if hiskex.Some? {
        return false;
      }
      hiskex := Some(data);
      if cfg.initiator {
        SendSig();
      }
      return true;
    }

    method SwitchOutgoing()
      requires mykex.Some? && hiskex.Some? && key.Some?
      modifies this`sent, this`outseqno, this`outKey, this`mykex, this`hiskex
      ensures Value() == Spec.SwitchOutgoing(crypto, cfg, old(Value()))
    {
      hide Spec.SendSig;
      hide Spec.SendRecordPriv;
      if !cfg.initiator {
        SendSig();
      }
      mykex := None;
      hiskex := None;
      if outstate {
        SendRecordPriv(HANDSHAKE, []);
      }
      outKey := Some(if cfg.initiator then key.value[64..] else key.value[..64]);
    }

    method ReceiveSig(data: Bytes) returns (ok: bool)
      requires mykex.Some? && hiskex.Some? && ecdh.Some?
      modifies this`sent, this`outseqno, this`ecdh, this`key, this`inKey, this`outKey, this`mykex, this`hiskex
      ensures Outcome(Value(), ok) == Spec.ReceiveSig(crypto, cfg, old(Value()), data)
      ensures ok ==> key.Some?
    {
      hide Spec.SwitchOutgoing;
      if |data| != 64 {
        return false;
      }
      var msg := SigMessage(!cfg.initiator, hiskex.value, mykex.value, cfg.name);
      if !crypto.verify(cfg.hisKey, msg, data) {
        return false;
      }
      GenerateKeyMaterial();
      assert key == Spec.DeriveKeys(crypto, cfg, old(Value())).key;
      SwitchOutgoing();
      return true;
    }

    method ReceiveHandshake(data: Bytes) returns (ok: bool)
      requires Valid(Value())
      modifies this`state, this`sent, this`outseqno, this`draws, this`ecdh, this`key, this`inKey, this`outKey,
               this`mykex, this`hiskex, this`instate, this`outstate, this`delivered
      ensures Outcome(Value(), ok) == Spec.ReceiveHandshake(crypto, cfg, old(Value()), data)
    {
      hide Spec.SendKex;
      hide Spec.ReceiveKex;
      hide Spec.ReceiveSig;
      match state {
        case SecondaryKex =>
          ok := SendKex();
          if ok {
            ok := ReceiveKex(data);
            if ok {
              state := Sig;
            }
          }
        case Kex =>
          ok := ReceiveKex(data);
          if ok {
            state := Sig;
          }
        case Sig =>
          ok := ReceiveSig(data);
          if !ok {
            return;
          }
          if outstate {
            state := Ack;
          } else {
            outstate := true;
            ok := ReceiveAck([]);
            delivered := delivered + [Record(HANDSHAKE, [])];
            state := SecondaryKex;
          }
        case Ack =>
          ok := ReceiveAck(data);
          if ok {
            delivered := delivered + [Record(HANDSHAKE, [])];
            state := SecondaryKex;
          }
        case Zero =>
          ok := false;
      }
    }

    /** memcpy into the receive buffer. */
    method Append(data: Bytes)
      requires Allocated() && buflen + |data| <= inbuf.Length
      modifies this`buflen, inbuf
      ensures buflen == old(buflen) + |data|
      ensures inbuf[..buflen] == old(inbuf[..buflen]) + data
    {
      forall i | 0 <= i < |data| {
        inbuf[buflen + i] := data[i];
      }
      buflen := buflen + |data|;
    }

    /** The realloc that makes room for the record about to come in. */
    method Grow(size: nat)
      requires inbuf.Length >= 2 && buflen == 2 <= size
      modifies this`inbuf
      ensures fresh(inbuf) && inbuf.Length == size
      ensures inbuf[..2] == old(inbuf[..2])
    {
      var bigger := new byte[size](_ => 0);
      bigger[0], bigger[1] := inbuf[0], inbuf[1];
      inbuf := bigger;
    }

    method ReceiveData(data: Bytes) returns (read: nat)
      requires Ready()
      modifies this, inbuf
      ensures Allocated() && (inbuf == old(inbuf) || fresh(inbuf))
      ensures (Contents(), read) == Spec.ReceiveData(crypto, cfg, old(Contents()), data)
      ensures Ready()
    {
      hide Spec.ReceiveBody;
      ghost var before := Contents();
      ReceiveDataValid(crypto, cfg, before, data);
      if state == Zero {
        return 0;
      }
      var rest := data;
      read := 0;
      if buflen < 2 {
        var toread := 2 - buflen;
        if toread > |rest| {
          toread := |rest|;
        }
        Append(rest[..toread]);
        read := read + toread;
        rest := rest[toread..];
        if buflen < 2 {
          return read;
        }
        reclen := HeaderValue(inbuf[..2]);
        Grow(reclen + SEALED_OVERHEAD);
        if |rest| == 0 {
          return read;
        }
      }
      read := ReceiveBody(rest, read);
    }

    /** From reading up to the end of the record on. */
    method ReceiveBody(data: Bytes, already: nat) returns (read: nat)
      requires Ready() && buflen >= 2
      modifies this, inbuf
      ensures Allocated() && inbuf == old(inbuf)
      ensures (Contents(), read) == Spec.ReceiveBody(crypto, cfg, old(Contents()), data, already)
    {
      var size := reclen + if instate then SEALED_OVERHEAD else PLAIN_OVERHEAD;
      var toread := size - buflen;
      if toread > |data| {
        toread := |data|;
      }
      Append(data[..toread]);
      if buflen < size {
        return already + toread;
      }
      var ok := Complete();
      return if ok then already + toread else 0;
    }

    /** chacha_poly1305_decrypt with source and destination both inside inbuf. */
    method DecryptInPlace(seqno: nat) returns (ok: bool)
      requires Ready() && instate && buflen == RecordSize(Contents())
      modifies inbuf
      ensures var was := old(inbuf[..buflen]);
              var p := crypto.open(inKey.value, seqno, was[2..]);
              ok == p.Some? &&
              inbuf[..buflen] == if ok then was[..2] + p.value + was[reclen + 3..] else was
    {
      var p := crypto.open(inKey.value, seqno, inbuf[2..buflen]);
      assert inbuf[2..buflen] == inbuf[..buflen][2..];
      if p.None? {
        return false;
      }
      forall i | 0 <= i <= reclen {
        inbuf[2 + i] := p.value[i];
      }
      return true;
    }

    method Complete() returns (ok: bool)
      requires Ready() && buflen == RecordSize(Contents())
      modifies this, inbuf
      ensures Allocated() && inbuf == old(inbuf)
      ensures Outcome(Contents(), ok) == Spec.Complete(crypto, cfg, old(Contents()))
    {
      hide Spec.HandleRecord;
      hide Low32;
      ghost var was := inbuf[..buflen];
      var seqno := inseqno;
      if instate {
        ok := DecryptInPlace(seqno);
        if !ok {
          inseqno := Low32(inseqno + 1);
          return;
        }
      }
      ghost var plain := inbuf[..buflen];
      inseqno := Low32(inseqno + 1);
      inbuf[reclen + 3] := 0;
      var ty, data := inbuf[2], inbuf[3..reclen + 3];
      assert data == plain[3..reclen + 3] && ty == plain[2];
      if instate {
        ghost var p := crypto.open(inKey.value, seqno, was[2..]).value;
        assert plain[2..reclen + 3] == p;
        assert inbuf[..buflen] == was[..2] + p + [0] + was[reclen + 4..];
      } else {
        assert inbuf[..buflen] == was && data == was[3..];
      }
      ok := HandleRecord(ty, data);
      if ok {
        buflen := 0;
      }
    }

    method HandleRecord(ty: byte, data: Bytes) returns (ok: bool)
      requires Valid(Value())
      modifies this`state, this`sent, this`outseqno, this`draws, this`ecdh, this`key, this`inKey, this`outKey,
               this`mykex, this`hiskex, this`instate, this`outstate, this`delivered
      ensures Outcome(Value(), ok) == Spec.HandleRecord(crypto, cfg, old(Value()), ty, data)
    {
      if ty < HANDSHAKE {
        if !instate {
          return false;
        }
        delivered := delivered + [Record(ty, data)];
        ok := cfg.accepts(ty, data);
      } else if ty == HANDSHAKE {
        ok := ReceiveHandshake(data);
      } else {
        ok := false;
      }
    }
  }
}
