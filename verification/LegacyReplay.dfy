/** The replay check of the legacy UDP protocol, with the key life cycle around it. */
module LegacyReplay {
  import opened Basics
  import opened ReplayBitmap

  const MAX_SEQNO: nat := 1073741824

  /** Per-node state: status.validkey_in, received_seqno, farfuture, late. */
  datatype State = State(validKey: bool, last: nat, farfuture: nat, late: seq<bv8>)

  function Span(w: State): (n: nat) { 8 * |w.late| }

  predicate FarFuture(w: State, seqno: nat) {
    seqno != (w.last + 1) % U32 && seqno >= (w.last + Span(w)) % U32
  }

  predicate Stale(w: State, seqno: nat)
    requires |w.late| > 0
  {
    (w.last >= Span(w) && seqno <= w.last - Span(w)) || !Late(w.late, seqno)
  }

  predicate Accepts(w: State, seqno: nat) {
    w.validKey &&
    (|w.late| == 0 || seqno == (w.last + 1) % U32 ||
     if FarFuture(w, seqno) then w.farfuture >= |w.late| / 4
     else seqno > w.last || !Stale(w, seqno))
  }

  function LateAfter(w: State, seqno: nat): (bits: seq<bv8>)
    requires |w.late| > 0
    ensures |bits| == |w.late|
  {
    Clear(if seqno == (w.last + 1) % U32 then w.late
          else if FarFuture(w, seqno) then seq(|w.late|, _ => 0)
          else if seqno > w.last then MarkRange(w.late, w.last + 1, seqno)
          else w.late, seqno)
  }

  /** An authenticated packet; crossing MAX_SEQNO expires the keys. */
  function Receive(w: State, seqno: nat): (r: State) {
    if !Accepts(w, seqno) then
      if w.validKey && |w.late| > 0 && FarFuture(w, seqno) then w.(farfuture := (w.farfuture + 1) % U32) else w
    else
      var last := if seqno > w.last then seqno else w.last;
      State(last <= MAX_SEQNO, last, if |w.late| == 0 then w.farfuture else 0,
            if |w.late| == 0 then w.late else LateAfter(w, seqno))
  }

  /** regenerate_key: nobody has our key any more. */
  function Expire(w: State): (r: State) { w.(validKey := false) }

  /** send_ans_key: a new key is sent out and the window starts over. */
  function NewKey(w: State): (r: State) {
    State(true, 0, w.farfuture, seq(|w.late|, _ => 0))
  }

  class Node {
    var validKey: bool
    var last: nat
    var farfuture: nat
    const late: array<bv8>

    ghost function Value(): (w: State)
      reads this, late
    {
      State(validKey, last, farfuture, late[..])
    }

    constructor (replaywin: nat)
      ensures fresh(late) && Value() == State(false, 0, 0, seq(replaywin, _ => 0))
    {
      validKey, last, farfuture := false, 0, 0;
      late := new bv8[replaywin](_ => 0);
      new;
      assert late[..] == seq(replaywin, _ => 0);
    }

    method ReceivePacket(seqno: nat) returns (ok: bool)
      modifies this, late
      ensures ok == Accepts(old(Value()), seqno) && Value() == Receive(old(Value()), seqno)
    {
      hide HasBit;
      hide Clear;
      hide MarkRange;
      if !validKey {
        return false;
      }
      var replaywin := late.Length;
      if replaywin != 0 {
        if seqno != (last + 1) % U32 {
          if seqno >= (last + replaywin * 8) % U32 {
            var seen := farfuture;
            farfuture := (farfuture + 1) % U32;
            if seen < replaywin / 4 {
              return false;
            }
            ClearAll();
          } else if seqno <= last {
            if (last >= replaywin * 8 && seqno <= last - replaywin * 8)
               || !HasBit(late[(seqno / 8) % replaywin], seqno % 8) {
              return false;
            }
          } else {
            MarkMissing(seqno);
          }
        }
        farfuture := 0;
        ghost var bits := late[..];
        var i := (seqno / 8) % replaywin;
        late[i] := DropBit(late[i], seqno % 8);
        ClearIs(bits, late[..], seqno);
      }
      if seqno > last {
        last := seqno;
      }
      if last > MAX_SEQNO {
        RegenerateKey();
      }
      return true;
    }

    lemma ClearIs(bits: seq<bv8>, after: seq<bv8>, seqno: nat)
      requires |bits| > 0
      requires after == bits[(seqno / 8) % |bits| := DropBit(bits[(seqno / 8) % |bits|], seqno % 8)]
      ensures after == Clear(bits, seqno)
    {
    }

    method ClearAll()
      modifies late
      ensures late[..] == seq(late.Length, _ => 0)
    {
      forall i | 0 <= i < late.Length {
        late[i] := 0;
      }
    }

    method MarkMissing(seqno: nat)
      requires late.Length > 0 && last < seqno
      modifies late
      ensures late[..] == MarkRange(old(late[..]), last + 1, seqno)
    {
      var i := last + 1;
      while i < seqno
        invariant last + 1 <= i <= seqno
        invariant late[..] == MarkRange(old(late[..]), last + 1, i)
      {
        ghost var bits := late[..];
        var k := (i / 8) % late.Length;
        late[k] := SetBit(late[k], i % 8);
        assert late[..] == Mark(bits, i);
        i := i + 1;
      }
    }

    method RegenerateKey()
      modifies this`validKey
      ensures Value() == Expire(old(Value()))
    {
      validKey := false;
    }

    method SendAnsKey()
      modifies this`validKey, this`last, late
      ensures Value() == NewKey(old(Value()))
    {
      last := 0;
      ClearAll();
      validKey := true;
    }
  }

  // No number twice under one key.

  datatype Event = Packet(seqno: nat) | Expiry | Rekey

  function Step(w: State, ev: Event): (r: State) {
    match ev
    case Packet(n) => Receive(w, n)
    case Expiry => Expire(w)
    case Rekey => NewKey(w)
  }

  predicate Taken(w: State, ev: Event) { ev.Packet? && Accepts(w, ev.seqno) }

  function After(w: State, evs: seq<Event>): (r: State) {
    if evs == [] then w else Step(After(w, evs[..|evs| - 1]), evs[|evs| - 1])
  }

  /** The numbers accepted since the key last changed. */
  function AcceptedSet(w: State, evs: seq<Event>): (r: set<nat>) {
    if evs == [] then {}
    else
      var before, ev := evs[..|evs| - 1], evs[|evs| - 1];
      if ev.Rekey? then {}
      else AcceptedSet(w, before) + if Taken(After(w, before), ev) then {ev.seqno} else {}
  }

  /** The last number that came so far ahead that the window forgot what it missed. */
  function Floor(w: State, evs: seq<Event>): (n: nat) {
    if evs == [] then 0 else FloorAfter(After(w, evs[..|evs| - 1]), Floor(w, evs[..|evs| - 1]), evs[|evs| - 1])
  }

  function FloorAfter(w: State, floor: nat, ev: Event): (n: nat) {
    if ev.Rekey? then 0 else if Taken(w, ev) && FarFuture(w, ev.seqno) then ev.seqno else floor
  }

  /** While the key is valid, last stays below MAX_SEQNO, so nothing wraps. Accepted numbers
      lie at or below it, and inside the window exactly those numbers are marked that were
      not accepted and lie above the floor. */
  ghost predicate Covers(w: State, accepted: set<nat>, floor: nat) {
    && |w.late| > 0 && Span(w) < 0xC000_0000
    && (w.validKey ==>
          && floor <= w.last <= MAX_SEQNO
          && (forall s <- accepted :: s <= w.last)
          && (forall s: nat {:trigger Late(w.late, s)} :: s <= w.last < s + Span(w) ==>
                (Late(w.late, s) <==> s !in accepted && s > floor)))
  }

  /** What is accepted: the next number, any other ahead but within reach, one further ahead
      once enough of those were refused, and of the numbers behind those in the window that
      were neither accepted nor given up. */
  lemma AcceptsIff(w: State, accepted: set<nat>, floor: nat, seqno: nat)
    requires Covers(w, accepted, floor) && w.validKey
    ensures Accepts(w, seqno) <==>
            if seqno > w.last then seqno < w.last + Span(w) || w.farfuture >= |w.late| / 4
            else w.last < seqno + Span(w) && seqno !in accepted && seqno > floor
  {
    hide Late;
    if seqno <= w.last < seqno + Span(w) {
      assert Late(w.late, seqno) <==> seqno !in accepted && seqno > floor;
    }
  }

  lemma BitsAfter(w: State, accepted: set<nat>, floor: nat, seqno: nat, s: nat)
    requires Covers(w, accepted, floor) && Accepts(w, seqno) && s <= Receive(w, seqno).last < s + Span(w)
    ensures Late(LateAfter(w, seqno), s) <==> s !in accepted && s != seqno && s > FloorAfter(w, floor, Packet(seqno))
  {
    hide Late;
    hide Clear;
    hide MarkRange;
    AcceptsIff(w, accepted, floor, seqno);
    NoWrap(w, accepted, floor);
    var n, last := |w.late|, Receive(w, seqno).last;
    assert last == if seqno > w.last then seqno else w.last;
    assert w.validKey;
    hide Accepts;
    hide Receive;
    if s < seqno {
      WindowDistinct(n, s, seqno);
    } else if seqno < s {
      WindowDistinct(n, seqno, s);
    }
    if FarFuture(w, seqno) {
      ClearLate(seq(n, _ => 0), seqno, s);
      NoneLate(n, s);
    } else if seqno <= w.last {
      assert LateAfter(w, seqno) == Clear(w.late, seqno);
      ClearLate(w.late, seqno, s);
      assert Late(w.late, s) <==> s !in accepted && s > floor;
    } else {
      MarkedAfter(w, accepted, floor, seqno, s);
    }
  }

  lemma MarkedAfter(w: State, accepted: set<nat>, floor: nat, seqno: nat, s: nat)
    requires Covers(w, accepted, floor) && w.validKey && w.last < seqno < w.last + Span(w)
    requires s <= seqno < s + Span(w) && (s != seqno ==> !SameBit(|w.late|, seqno, s))
    ensures Late(LateAfter(w, seqno), s) <==> s !in accepted && s != seqno && s > floor
  {
    hide Late;
    hide Clear;
    hide MarkRange;
    NoWrap(w, accepted, floor);
    var base := if seqno == w.last + 1 then w.late else MarkRange(w.late, w.last + 1, seqno);
    assert LateAfter(w, seqno) == Clear(base, seqno);
    ClearLate(base, seqno, s);
    if s != seqno {
      MarkRangeLate(w.late, w.last + 1, seqno, s);
      if s <= w.last {
        assert Late(w.late, s) <==> s !in accepted && s > floor;
      }
    }
  }

  lemma NoWrap(w: State, accepted: set<nat>, floor: nat)
    requires Covers(w, accepted, floor) && w.validKey
    ensures (w.last + 1) % U32 == w.last + 1 && (w.last + Span(w)) % U32 == w.last + Span(w)
  {
    hide Late;
  }

  lemma NoneLate(n: nat, s: nat)
    requires n > 0
    ensures !Late(seq(n, _ => 0), s)
  {
    assert !HasBit(0, s % 8);
  }

  lemma StepCovers(w: State, accepted: set<nat>, floor: nat, ev: Event)
    requires Covers(w, accepted, floor)
    ensures Covers(Step(w, ev), if ev.Rekey? then {} else accepted + if Taken(w, ev) then {ev.seqno} else {}, FloorAfter(w, floor, ev))
  {
    if Taken(w, ev) {
      hide Late;
      hide LateAfter;
      AcceptsIff(w, accepted, floor, ev.seqno);
      var w' := Receive(w, ev.seqno);
      forall s: nat {:trigger Late(w'.late, s)} | s <= w'.last < s + Span(w)
        ensures Late(w'.late, s) <==> s !in accepted && s != ev.seqno && s > FloorAfter(w, floor, ev)
      {
        BitsAfter(w, accepted, floor, ev.seqno, s);
      }
      hide Accepts;
    } else if ev.Rekey? {
      forall s: nat
        ensures !Late(NewKey(w).late, s)
      {
        NoneLate(|w.late|, s);
      }
    }
  }

  lemma {:induction false} RunCovers(w: State, evs: seq<Event>)
    requires !w.validKey && 0 < |w.late| && Span(w) < 0xC000_0000
    ensures Covers(After(w, evs), AcceptedSet(w, evs), Floor(w, evs))
  {
    hide Covers;
    if evs == [] {
      StartCovers(w);
    } else {
      var before := evs[..|evs| - 1];
      RunCovers(w, before);
      StepCovers(After(w, before), AcceptedSet(w, before), Floor(w, before), evs[|evs| - 1]);
    }
  }

  lemma StartCovers(w: State)
    requires !w.validKey && 0 < |w.late| && Span(w) < 0xC000_0000
    ensures Covers(w, {}, 0)
  {
  }

  /** Position i of the run takes a packet. */
  predicate TakenAt(w: State, evs: seq<Event>, i: nat)
    requires i < |evs|
  {
    Taken(After(w, evs[..i]), evs[i])
  }

  lemma {:induction false} StaysAccepted(w: State, evs: seq<Event>, i: nat)
    requires i < |evs| && TakenAt(w, evs, i) && forall k :: i < k < |evs| ==> !evs[k].Rekey?
    ensures evs[i].seqno in AcceptedSet(w, evs)
    decreases |evs|
  {
    var n := |evs| - 1;
    if i < n {
      assert evs[..n][..i] == evs[..i];
      StaysAccepted(w, evs[..n], i);
    }
  }

  /** Two receptions of one number in a run, with no new key between them. */
  predicate Repeated(w: State, evs: seq<Event>, i: nat, j: nat) {
    && i < j < |evs|
    && TakenAt(w, evs, i) && TakenAt(w, evs, j) && evs[i].seqno == evs[j].seqno
    && forall k :: i < k < j ==> !evs[k].Rekey?
  }

  /** Main result: whatever packets, expiries and new keys follow the initial keyless
      state, in any order, no number is accepted twice under one key. */
  lemma AcceptedOncePerKey(w: State, evs: seq<Event>, i: nat, j: nat)
    requires !w.validKey && 0 < |w.late| && Span(w) < 0xC000_0000
    ensures !Repeated(w, evs, i, j)
  {
    if i < j < |evs| && TakenAt(w, evs, i) && TakenAt(w, evs, j) && forall k :: i < k < j ==> !evs[k].Rekey? {
      assert evs[..j][..i] == evs[..i];
      StaysAccepted(w, evs[..j], i);
      RunCovers(w, evs[..j]);
      AcceptsIff(After(w, evs[..j]), AcceptedSet(w, evs[..j]), Floor(w, evs[..j]), evs[j].seqno);
    }
  }

  // Refinement of a filter without bitmap, window pointer or 32-bit numbers.

  /** What the filter is for: whether there is a key, the numbers taken under it and the
      highest of them, the last one that was too far ahead to remember what it skipped, and
      the packets refused for being too far ahead since one was last taken. */
  datatype Memory = Memory(valid: bool, taken: set<nat>, highest: nat, floor: nat, refused: nat)

  predicate Ahead(m: Memory, replaywin: nat, n: nat) { n >= m.highest + 8 * replaywin }

  predicate Judged(m: Memory, replaywin: nat, n: nat) {
    m.valid &&
    if n > m.highest then !Ahead(m, replaywin, n) || m.refused >= replaywin / 4
    else m.highest < n + 8 * replaywin && n !in m.taken && n > m.floor
  }

  /** A packet that is taken ends the count of refusals; a new key does not. */
  function Remember(m: Memory, replaywin: nat, ev: Event): (r: Memory) {
    match ev
    case Expiry => m.(valid := false)
    case Rekey => Memory(true, {}, 0, 0, m.refused)
    case Packet(n) =>
      if Judged(m, replaywin, n) then
        var highest := if n > m.highest then n else m.highest;
        Memory(highest <= MAX_SEQNO, m.taken + {n}, highest, if Ahead(m, replaywin, n) then n else m.floor, 0)
      else if m.valid && Ahead(m, replaywin, n) then m.(refused := m.refused + 1)
      else m
  }

  function Remembered(replaywin: nat, evs: seq<Event>): (m: Memory) {
    if evs == [] then Memory(false, {}, 0, 0, 0)
    else Remember(Remembered(replaywin, evs[..|evs| - 1]), replaywin, evs[|evs| - 1])
  }

  ghost predicate Represents(w: State, m: Memory) {
    && Covers(w, m.taken, m.floor) && w.validKey == m.valid && (m.valid ==> w.last == m.highest)
    && w.farfuture == m.refused <= |w.late| / 4
  }

  lemma JudgedIff(w: State, m: Memory, n: nat)
    requires Represents(w, m)
    ensures Accepts(w, n) <==> Judged(m, |w.late|, n)
    ensures m.valid ==> (FarFuture(w, n) <==> Ahead(m, |w.late|, n))
  {
    if m.valid {
      AcceptsIff(w, m.taken, m.floor, n);
      NoWrap(w, m.taken, m.floor);
      hide Accepts;
    }
    hide Covers;
  }

  lemma StepRefines(w: State, m: Memory, ev: Event)
    requires Represents(w, m)
    ensures Represents(Step(w, ev), Remember(m, |w.late|, ev)) && |Step(w, ev).late| == |w.late|
  {
    StepCovers(w, m.taken, m.floor, ev);
    if ev.Packet? {
      JudgedIff(w, m, ev.seqno);
    }
    hide Covers;
    hide Accepts;
    hide Judged;
    hide LateAfter;
    hide FarFuture;
    hide Ahead;
    StepIs(w, ev);
    hide Step;
    var m' := Remember(m, |w.late|, ev);
    assert m'.taken == if ev.Rekey? then {} else m.taken + if Taken(w, ev) then {ev.seqno} else {};
    assert m.valid ==> m'.floor == FloorAfter(w, m.floor, ev);
    if !m.valid && !ev.Rekey? {
      Keyless(Step(w, ev), m'.taken, m'.floor);
    }
  }

  lemma StepIs(w: State, ev: Event)
    ensures var r := Step(w, ev);
            && |r.late| == |w.late|
            && (ev.Rekey? ==> r.validKey && r.last == 0 && r.farfuture == w.farfuture)
            && (ev.Expiry? ==> r == w.(validKey := false))
            && (ev.Packet? && !w.validKey ==> r == w)
            && (ev.Packet? && |w.late| > 0 && Accepts(w, ev.seqno) ==>
                  && r.last == (if ev.seqno > w.last then ev.seqno else w.last)
                  && r.validKey == (r.last <= MAX_SEQNO) && r.farfuture == 0)
            && (ev.Packet? && |w.late| > 0 && w.validKey && !Accepts(w, ev.seqno) ==>
                  r == w.(farfuture := if FarFuture(w, ev.seqno) then (w.farfuture + 1) % U32 else w.farfuture)
                  && (FarFuture(w, ev.seqno) ==> w.farfuture < |w.late| / 4))
  {
    hide LateAfter;
    hide Late;
  }

  lemma Keyless(w: State, taken: set<nat>, floor: nat)
    requires !w.validKey && 0 < |w.late| && Span(w) < 0xC000_0000
    ensures Covers(w, taken, floor)
  {
  }

  lemma {:induction false} RunRefines(w: State, evs: seq<Event>)
    requires !w.validKey && w.farfuture == 0 && 0 < |w.late| && Span(w) < 0xC000_0000
    ensures |After(w, evs).late| == |w.late| && Represents(After(w, evs), Remembered(|w.late|, evs))
  {
    hide Represents;
    hide Step;
    hide Remember;
    if evs == [] {
      StartRepresents(w);
    } else {
      var before := evs[..|evs| - 1];
      RunRefines(w, before);
      StepRefines(After(w, before), Remembered(|w.late|, before), evs[|evs| - 1]);
    }
  }

  lemma StartRepresents(w: State)
    requires !w.validKey && w.farfuture == 0 && 0 < |w.late| && Span(w) < 0xC000_0000
    ensures Represents(w, Memory(false, {}, 0, 0, 0))
  {
  }

  /** Main result: in every run of packets, expiries and new keys, every packet is taken or
      refused as the filter with unlimited memory would. In particular farfuture is the
      number of packets refused for being too far ahead since one was last taken. */
  lemma VerdictsAgree(w: State, evs: seq<Event>, i: nat)
    requires !w.validKey && w.farfuture == 0 && 0 < |w.late| && Span(w) < 0xC000_0000 && i < |evs|
    ensures TakenAt(w, evs, i) <==> evs[i].Packet? && Judged(Remembered(|w.late|, evs[..i]), |w.late|, evs[i].seqno)
    ensures After(w, evs).farfuture == Remembered(|w.late|, evs).refused
  {
    RunRefines(w, evs[..i]);
    RunRefines(w, evs);
    hide After;
    hide Remembered;
    if evs[i].Packet? {
      JudgedIff(After(w, evs[..i]), Remembered(|w.late|, evs[..i]), evs[i].seqno);
    }
    hide Accepts;
    hide Judged;
    hide Covers;
  }

  // Where that fails: without a window, and with one so long that its horizon wraps before
  // the key expires.

  function Jump(): (evs: seq<Event>) { [Rekey, Packet(MAX_SEQNO)] }

  /** The highest number of all, again and again. */
  function Insist(n: nat): (evs: seq<Event>) { Jump() + seq(n, _ => Packet(MAX_SEQNO)) }

  lemma JumpIs(w: State)
    requires 0xC000_0000 <= Span(w) < U32 && w.farfuture == 0
    ensures var t := After(w, Jump());
            && t.validKey && t.last == MAX_SEQNO && t.farfuture == 0 && |t.late| == |w.late| && Span(t) == Span(w)
            && TakenAt(w, Jump(), 1)
  {
    hide LateAfter;
    assert Jump()[..1] == [Rekey] && [Rekey][..0] == [];
    assert After(w, [Rekey]) == NewKey(w);
    assert Accepts(NewKey(w), MAX_SEQNO);
  }

  /** It is refused as often as the window allows, although it was taken before. */
  lemma {:induction false} InsistIs(w: State, n: nat)
    requires 0xC000_0000 <= Span(w) < U32 && w.farfuture == 0 && n <= |w.late| / 4
    ensures var t := After(w, Insist(n));
            t.validKey && t.last == MAX_SEQNO && t.farfuture == n && |t.late| == |w.late| && Span(t) == Span(w)
  {
    hide *;
    if n == 0 {
      JumpIs(w);
      InsistNone();
    } else {
      InsistIs(w, n - 1);
      InsistOn(w, n);
      RefusedAgain(After(w, Insist(n - 1)));
    }
  }

  lemma InsistNone()
    ensures Insist(0) == Jump()
  {
  }

  lemma RefusedAgain(t: State)
    requires 0xC000_0000 <= Span(t) < U32 && t.validKey && t.last == MAX_SEQNO
    ensures t.farfuture < |t.late| / 4 ==>
              Receive(t, MAX_SEQNO) == t.(farfuture := t.farfuture + 1) && Span(Receive(t, MAX_SEQNO)) == Span(t)
    ensures t.farfuture >= |t.late| / 4 ==> Accepts(t, MAX_SEQNO)
  {
    hide LateAfter;
    assert FarFuture(t, MAX_SEQNO);
  }

  lemma InsistOn(w: State, n: nat)
    requires n > 0
    ensures After(w, Insist(n)) == Receive(After(w, Insist(n - 1)), MAX_SEQNO)
    ensures Insist(n)[..|Insist(n)| - 1] == Insist(n - 1) && |Insist(n)| == n + 2 && Insist(n)[n + 1] == Packet(MAX_SEQNO)
  {
    assert Insist(n)[..|Insist(n)| - 1] == Insist(n - 1);
  }

  /** ... and then taken again. */
  lemma TooLong(w: State)
    requires 0xC000_0000 <= Span(w) < U32 && w.farfuture == 0
    ensures exists evs, i, j :: Repeated(w, evs, i, j)
  {
    hide LateAfter;
    hide After;
    var n := |w.late| / 4;
    var evs := Insist(n + 1);
    InsistOn(w, n + 1);
    InsistIs(w, n);
    JumpIs(w);
    assert evs[..n + 2] == Insist(n);
    RefusedAgain(After(w, Insist(n)));
    hide Accepts;
    assert TakenAt(w, evs, n + 2);
    assert evs[..1] == Jump()[..1] && evs[1] == Jump()[1];
    assert TakenAt(w, evs, 1);
    assert Repeated(w, evs, 1, n + 2);
  }

  lemma NoWindow(w: State)
    requires w.late == []
    ensures exists evs, i, j :: Repeated(w, evs, i, j)
  {
    var evs := [Rekey, Packet(0), Packet(0)];
    assert evs[..1] == [Rekey] && evs[..2] == [Rekey, Packet(0)];
    assert [Rekey][..0] == [] && [Rekey, Packet(0)][..1] == [Rekey];
    assert After(w, [Rekey]) == NewKey(w);
    assert After(w, [Rekey, Packet(0)]) == Receive(NewKey(w), 0);
    assert Repeated(w, evs, 1, 2);
  }

  /** Of all configurations, exactly those with a window whose length does not carry
      MAX_SEQNO beyond 32 bits never repeat a number. */
  lemma OnceIffWindow(replaywin: nat)
    requires 8 * replaywin < U32
    ensures var w := State(false, 0, 0, seq(replaywin, _ => 0));
            (forall evs, i, j :: !Repeated(w, evs, i, j)) <==> replaywin > 0 && MAX_SEQNO + 8 * replaywin < U32
  {
    var w := State(false, 0, 0, seq(replaywin, _ => 0));
    if replaywin == 0 {
      NoWindow(w);
    } else if MAX_SEQNO + 8 * replaywin >= U32 {
      TooLong(w);
    } else {
      forall evs, i, j
        ensures !Repeated(w, evs, i, j)
      {
        AcceptedOncePerKey(w, evs, i, j);
      }
    }
  }
}
