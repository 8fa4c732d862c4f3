/** The framed stream reader: how bytes are cut into calls does not matter. */
module SptpsStream {
  import opened Basics
  import opened Sptps

  /** Mid-stream: a further byte can be read without completing a record twice. */
  predicate Reading(e: Endpoint) {
    ValidEndpoint(e) && !e.sess.state.Zero? && (|e.inbuf| >= 2 ==> |e.inbuf| < RecordSize(e))
  }

  /** The caller's loop over one received block: call sptps_receive_data on what
      is left until nothing is left or a call fails. */
  function Feed(c: Crypto, g: Config, e: Endpoint, data: Bytes): (r: Outcome<Endpoint>)
    requires OpenDropsTag(c) && ValidEndpoint(e)
    decreases |data|
  {
    if data == [] then Outcome(e, true)
    else
      var (e1, n) := ReceiveData(c, g, e, data);
      ReceiveDataValid(c, g, e, data);
      if n == 0 then Outcome(e1, false) else Feed(c, g, e1, data[n..])
  }

  /** Blocks as they come in from the socket, up to the first failure. */
  function FeedChunks(c: Crypto, g: Config, e: Endpoint, chunks: seq<Bytes>): (r: Outcome<Endpoint>)
    requires OpenDropsTag(c) && ValidEndpoint(e)
    decreases |chunks|
  {
    if chunks == [] then Outcome(e, true)
    else
      var o := Feed(c, g, e, chunks[0]);
      FeedValid(c, g, e, chunks[0]);
      if o.ok then FeedChunks(c, g, o.s, chunks[1..]) else o
  }

  lemma {:induction false} FeedValid(c: Crypto, g: Config, e: Endpoint, data: Bytes)
    requires OpenDropsTag(c) && ValidEndpoint(e)
    ensures ValidEndpoint(Feed(c, g, e, data).s)
    decreases |data|
  {
    hide ReceiveData;
    if data != [] {
      var (e1, n) := ReceiveData(c, g, e, data);
      ReceiveDataValid(c, g, e, data);
      if n != 0 {
        FeedValid(c, g, e1, data[n..]);
      }
    }
  }

  function Flatten(chunks: seq<Bytes>): (r: Bytes) {
    if chunks == [] then [] else chunks[0] + Flatten(chunks[1..])
  }

  /** The reference reader: it sees one byte at a time and has no notion of a call. */
  function PushByte(c: Crypto, g: Config, e: Endpoint, b: byte): (r: Outcome<Endpoint>)
    requires OpenDropsTag(c) && Reading(e)
  {
    var e1 := e.(inbuf := e.inbuf + [b]);
    if |e1.inbuf| < 2 then Outcome(e1, true)
    else if |e1.inbuf| == 2 then Outcome(e1.(reclen := HeaderValue(e1.inbuf)), true)
    else if |e1.inbuf| < RecordSize(e1) then Outcome(e1, true)
    else Complete(c, g, e1)
  }

  lemma PushByteReading(c: Crypto, g: Config, e: Endpoint, b: byte)
    requires OpenDropsTag(c) && Reading(e)
    ensures PushByte(c, g, e, b).ok ==> Reading(PushByte(c, g, e, b).s)
  {
    hide Complete;
    var e1 := e.(inbuf := e.inbuf + [b]);
    if |e1.inbuf| > 2 && |e1.inbuf| == RecordSize(e1) {
      CompleteValid(c, g, e1);
    }
  }

  function PushAll(c: Crypto, g: Config, e: Endpoint, data: Bytes): (r: Outcome<Endpoint>)
    requires OpenDropsTag(c) && Reading(e)
    ensures r.ok ==> Reading(r.s)
    decreases |data|
  {
    if data == [] then Outcome(e, true)
    else
      PushByteReading(c, g, e, data[0]);
      var o := PushByte(c, g, e, data[0]);
      if o.ok then PushAll(c, g, o.s, data[1..]) else o
  }

  lemma {:induction false} PushAllAppend(c: Crypto, g: Config, e: Endpoint, a: Bytes, b: Bytes)
    requires OpenDropsTag(c) && Reading(e)
    ensures var o := PushAll(c, g, e, a);
            PushAll(c, g, e, a + b) == if o.ok then PushAll(c, g, o.s, b) else o
    decreases |a|
  {
    hide PushByte;
    if a == [] {
      assert a + b == b;
    } else {
      assert (a + b)[1..] == a[1..] + b;
      PushByteReading(c, g, e, a[0]);
      var o := PushByte(c, g, e, a[0]);
      if o.ok {
        PushAllAppend(c, g, o.s, a[1..], b);
      }
    }
  }

  /** Body bytes that do not complete the record only accumulate. */
  lemma {:induction false} PushPartial(c: Crypto, g: Config, e: Endpoint, data: Bytes)
    requires OpenDropsTag(c) && Reading(e)
    requires |e.inbuf| >= 2 && |e.inbuf| + |data| < RecordSize(e)
    ensures PushAll(c, g, e, data) == Outcome(e.(inbuf := e.inbuf + data), true)
    decreases |data|
  {
    hide Complete;
    if data == [] {
      assert e.inbuf + data == e.inbuf;
    } else {
      var e1 := e.(inbuf := e.inbuf + [data[0]]);
      assert e1.inbuf + data[1..] == e.inbuf + data;
      PushPartial(c, g, e1, data[1..]);
    }
  }

  /** Exactly the missing bytes complete it. */
  lemma PushRest(c: Crypto, g: Config, e: Endpoint, data: Bytes)
    requires OpenDropsTag(c) && Reading(e)
    requires |e.inbuf| >= 2 && |e.inbuf| + |data| == RecordSize(e)
    ensures PushAll(c, g, e, data) == Complete(c, g, e.(inbuf := e.inbuf + data))
  {
    hide Complete;
    var k := |data| - 1;
    assert data == data[..k] + [data[k]];
    PushPartial(c, g, e, data[..k]);
    PushAllAppend(c, g, e, data[..k], [data[k]]);
    var e1 := e.(inbuf := e.inbuf + data[..k]);
    assert e1.inbuf + [data[k]] == e.inbuf + data;
    var o := PushByte(c, g, e1, data[k]);
    assert [data[k]][1..] == [];
    assert PushAll(c, g, e1, [data[k]]) == o;
  }

  lemma BodyIsPush(c: Crypto, g: Config, e: Endpoint, data: Bytes, already: nat)
    requires OpenDropsTag(c) && Reading(e)
    requires |e.inbuf| >= 2 && data != []
    ensures var (e1, n) := ReceiveBody(c, g, e, data, already);
            if n == 0 then PushAll(c, g, e, data) == Outcome(e1, false)
            else already < n && PushAll(c, g, e, data[..n - already]) == Outcome(e1, true)
  {
    hide Complete;
    hide PushAll;
    var want := RecordSize(e) - |e.inbuf|;
    if want > |data| {
      assert data[..|data|] == data;
      PushPartial(c, g, e, data);
    } else {
      PushRest(c, g, e, data[..want]);
      PushAllAppend(c, g, e, data[..want], data[want..]);
      assert data[..want] + data[want..] == data;
    }
  }

  lemma {:induction false} PushHeader(c: Crypto, g: Config, e: Endpoint, data: Bytes)
    requires OpenDropsTag(c) && Reading(e)
    requires 1 <= |data| && |e.inbuf| + |data| <= 2
    ensures var buf := e.inbuf + data;
            PushAll(c, g, e, data) ==
            Outcome(if |buf| < 2 then e.(inbuf := buf) else e.(inbuf := buf, reclen := HeaderValue(buf)), true)
    decreases |data|
  {
    hide Complete;
    if |data| == 2 {
      var e1 := e.(inbuf := [data[0]]);
      assert e.inbuf + [data[0]] == [data[0]];
      assert e1.inbuf + [data[1]] == e.inbuf + data;
      assert data[1..] == [data[1]];
      PushHeader(c, g, e1, data[1..]);
    } else {
      assert data == [data[0]];
    }
  }

  /** One call does what the reference reader does with the bytes it consumes, and
      consumes at least one unless it fails. */
  lemma CallIsPush(c: Crypto, g: Config, e: Endpoint, data: Bytes)
    requires OpenDropsTag(c) && Reading(e) && data != []
    ensures var (e1, n) := ReceiveData(c, g, e, data);
            if n == 0 then PushAll(c, g, e, data) == Outcome(e1, false)
            else PushAll(c, g, e, data[..n]) == Outcome(e1, true)
  {
    hide ReceiveBody;
    hide PushAll;
    if |e.inbuf| >= 2 {
      BodyIsPush(c, g, e, data, 0);
    } else {
      var toread := if 2 - |e.inbuf| > |data| then |data| else 2 - |e.inbuf|;
      var head, rest := data[..toread], data[toread..];
      PushHeader(c, g, e, head);
      if |e.inbuf| + toread == 2 && rest != [] {
        var e1 := PushAll(c, g, e, head).s;
        BodyIsPush(c, g, e1, rest, toread);
        var (e2, n) := ReceiveBody(c, g, e1, rest, toread);
        assert data == head + rest;
        PushAllAppend(c, g, e, head, rest);
        if n != 0 {
          PushAllAppend(c, g, e, head, rest[..n - toread]);
          assert head + rest[..n - toread] == data[..n];
        }
      }
    }
  }

  /** The caller's loop over a block equals the byte-at-a-time reader. */
  lemma {:induction false} FeedIsPush(c: Crypto, g: Config, e: Endpoint, data: Bytes)
    requires OpenDropsTag(c) && Reading(e)
    ensures Feed(c, g, e, data) == PushAll(c, g, e, data)
    decreases |data|
  {
    hide ReceiveData;
    hide PushByte;
    if data != [] {
      var (e1, n) := ReceiveData(c, g, e, data);
      CallIsPush(c, g, e, data);
      if n != 0 {
        assert data[..n] + data[n..] == data;
        PushAllAppend(c, g, e, data[..n], data[n..]);
        FeedIsPush(c, g, e1, data[n..]);
      }
    }
  }

  /** Main result: for every way of cutting a byte stream into blocks, the delivered
      records, the first failure and the whole final session state are those of
      feeding the stream in one block, and of reading it byte by byte. */
  lemma {:induction false} ChunkingIrrelevant(c: Crypto, g: Config, e: Endpoint, chunks: seq<Bytes>)
    requires OpenDropsTag(c) && Reading(e)
    ensures FeedChunks(c, g, e, chunks) == Feed(c, g, e, Flatten(chunks)) == PushAll(c, g, e, Flatten(chunks))
    decreases |chunks|
  {
    hide PushAll;
    var whole := Flatten(chunks);
    FeedIsPush(c, g, e, whole);
    if chunks == [] {
    } else {
      FeedIsPush(c, g, e, chunks[0]);
      PushAllAppend(c, g, e, chunks[0], Flatten(chunks[1..]));
      var o := PushAll(c, g, e, chunks[0]);
      if o.ok {
        ChunkingIrrelevant(c, g, o.s, chunks[1..]);
      }
    }
  }
}
