/** The SPTPS replay filter for datagrams: sptps_check_seqno. */
module SptpsReplay {
  import opened Basics
  import opened ReplayBitmap

  /** The fields of sptps_t it uses; an empty `late` means replaywin is 0. */
  datatype Window = Window(inseqno: nat, received: nat, farfuture: nat, late: seq<bv8>)

  /** Both inseqno and replaywin * 8 are 32-bit values. */
  ghost predicate Fits(w: Window) {
    w.inseqno < U32 && Span(w) < U32
  }

  function Span(w: Window): (n: nat) { 8 * |w.late| }

  /** s->inseqno + s->replaywin * 8, in 32 bits. */
  function Horizon(w: Window): (n: nat) { (w.inseqno + Span(w)) % U32 }

  predicate FarFuture(w: Window, seqno: nat) {
    seqno != w.inseqno && seqno >= Horizon(w)
  }

  predicate Stale(w: Window, seqno: nat)
    requires |w.late| > 0
  {
    (w.inseqno >= Span(w) && seqno < w.inseqno - Span(w)) || !Late(w.late, seqno)
  }

  /** The verdict, which does not depend on update_state. */
  predicate Verdict(w: Window, seqno: nat) {
    |w.late| == 0 || seqno == w.inseqno ||
    if FarFuture(w, seqno) then w.farfuture >= |w.late| / 4
    else seqno >= w.inseqno || !Stale(w, seqno)
  }

  function LateAfter(w: Window, seqno: nat): (bits: seq<bv8>)
    requires |w.late| > 0
    ensures |bits| == |w.late|
  {
    Clear(if FarFuture(w, seqno) then seq(|w.late|, _ => 255)
          else if seqno > w.inseqno then MarkRange(w.late, w.inseqno, seqno)
          else w.late, seqno)
  }

  /** The window after a call with update_state. */
  function Update(w: Window, seqno: nat): (r: Window) {
    if !Verdict(w, seqno) then
      if FarFuture(w, seqno) then w.(farfuture := (w.farfuture + 1) % U32) else w
    else
      var inseqno := if seqno >= w.inseqno then (seqno + 1) % U32 else w.inseqno;
      Window(inseqno, if inseqno == 0 then 0 else (w.received + 1) % U32,
             if |w.late| == 0 then w.farfuture else 0,
             if |w.late| == 0 then w.late else LateAfter(w, seqno))
  }

  class Filter {
    var inseqno: nat
    var received: nat
    var farfuture: nat
    const late: array<bv8>

    ghost function Value(): (w: Window)
      reads this, late
    {
      Window(inseqno, received, farfuture, late[..])
    }

    constructor (replaywin: nat)
      requires 8 * replaywin < U32
      ensures fresh(late) && Value() == Window(0, 0, 0, seq(replaywin, _ => 0))
    {
      inseqno, received, farfuture := 0, 0, 0;
      late := new bv8[replaywin](_ => 0);
      new;
      assert late[..] == seq(replaywin, _ => 0);
    }

    method CheckSeqno(seqno: nat, updateState: bool) returns (ok: bool)
      requires Fits(Value()) && seqno < U32
      modifies this, late
      ensures ok == Verdict(old(Value()), seqno)
      ensures Value() == if updateState then Update(old(Value()), seqno) else old(Value())
    {
      hide Mask;
      hide MarkRange;
      hide Clear;
      hide Late;
      ghost var w := Value();
      var replaywin := late.Length;
      if replaywin != 0 {
        if seqno != inseqno {
          if seqno >= (inseqno + replaywin * 8) % U32 {
            var drop := farfuture < replaywin / 4;
            if updateState {
              farfuture := (farfuture + 1) % U32;
            }
            if drop {
              return false;
            }
            if updateState {
              MarkAll();
            }
          } else if seqno < inseqno {
            if (inseqno >= replaywin * 8 && seqno < inseqno - replaywin * 8)
               || !IsLate(seqno) {
              return false;
            }
          } else if updateState {
            MarkMissing(seqno);
          }
        }
        if updateState {
          MarkReceived(seqno);
          farfuture := 0;
        }
      }
      if updateState {
        if seqno >= inseqno {
          inseqno := (seqno + 1) % U32;
        }
        received := if inseqno == 0 then 0 else (received + 1) % U32;
      }
      return true;
    }

    predicate IsLate(seqno: nat)
      requires late.Length > 0
      reads late
      ensures IsLate(seqno) == Late(late[..], seqno)
    {
      HasBit(late[(seqno / 8) % late.Length], seqno % 8)
    }

    method MarkAll()
      modifies late
      ensures late[..] == seq(late.Length, _ => 255)
    {
      forall i | 0 <= i < late.Length {
        late[i] := 255;
      }
    }

    method MarkReceived(seqno: nat)
      requires late.Length > 0
      modifies late
      ensures late[..] == Clear(old(late[..]), seqno)
    {
      var i := (seqno / 8) % late.Length;
      late[i] := DropBit(late[i], seqno % 8);
    }

    /** We missed some packets: mark them in the bitmap as being late. */
    method MarkMissing(seqno: nat)
      requires late.Length > 0 && inseqno <= seqno
      modifies late
      ensures late[..] == MarkRange(old(late[..]), inseqno, seqno)
    {
      var i := inseqno;
      while i < seqno
        invariant inseqno <= i <= seqno
        invariant late[..] == MarkRange(old(late[..]), inseqno, i)
      {
        ghost var bits := late[..];
        var k := (i / 8) % late.Length;
        late[k] := SetBit(late[k], i % 8);
        assert late[..] == Mark(bits, i);
        i := i + 1;
      }
    }
  }

  // Refinement of an abstract filter that remembers every accepted number.

  /** What the filter is for: the numbers accepted so far, the next one expected, and
      the far-future rejections since the last acceptance. */
  datatype History = History(accepted: set<nat>, next: nat, rejections: nat)

  /** Never accepted before, not older than the window, and not too far ahead unless
      enough such numbers have been turned away. */
  predicate Fresh(h: History, replaywin: nat, seqno: nat) {
    && seqno !in h.accepted
    && h.next <= seqno + 8 * replaywin
    && (seqno < h.next + 8 * replaywin || h.rejections >= replaywin / 4)
  }

  function Record(h: History, replaywin: nat, seqno: nat): (r: History) {
    if Fresh(h, replaywin, seqno) then
      History(h.accepted + {seqno}, if seqno >= h.next then seqno + 1 else h.next, 0)
    else if seqno >= h.next + 8 * replaywin then h.(rejections := h.rejections + 1)
    else h
  }

  /** A number inside the window has its bit set exactly when it was not accepted. */
  ghost predicate Represents(w: Window, h: History) {
    && |w.late| > 0
    && w.inseqno == h.next
    && w.farfuture == h.rejections <= |w.late| / 4
    && (forall s <- h.accepted :: s < h.next)
    && (h.next > 0 ==> h.next - 1 in h.accepted)
    && (forall s: nat {:trigger Late(w.late, s)} :: s < h.next <= s + Span(w) ==> (Late(w.late, s) <==> s !in h.accepted))
  }

  /** Neither the horizon nor the number expected after seqno leaves 32 bits. */
  predicate NoWrap(w: Window, seqno: nat) {
    w.inseqno + Span(w) < U32 && (Verdict(w, seqno) ==> seqno + 1 < U32)
  }

  lemma VerdictIsFresh(w: Window, h: History, seqno: nat)
    requires Represents(w, h) && w.inseqno + Span(w) < U32
    ensures Verdict(w, seqno) <==> Fresh(h, |w.late|, seqno)
  {
    if seqno < w.inseqno <= seqno + Span(w) {
      assert Late(w.late, seqno) <==> seqno !in h.accepted;
    }
  }

  lemma BitsAfter(w: Window, h: History, seqno: nat, s: nat)
    requires Represents(w, h) && NoWrap(w, seqno) && Fresh(h, |w.late|, seqno)
    requires var h' := Record(h, |w.late|, seqno); s < h'.next <= s + Span(w)
    ensures Late(LateAfter(w, seqno), s) <==> s !in h.accepted && s != seqno
  {
    hide Late;
    hide MarkRange;
    hide Clear;
    var n := |w.late|;
    NoWrapHorizon(w);
    if s < seqno {
      WindowDistinct(n, s, seqno);
    } else if seqno < s {
      WindowDistinct(n, seqno, s);
    }
    if FarFuture(w, seqno) {
      ClearLate(seq(n, _ => 255), seqno, s);
      AllLate(n, s);
    } else if seqno <= w.inseqno {
      assert LateAfter(w, seqno) == Clear(w.late, seqno);
      ClearLate(w.late, seqno, s);
      if s < h.next {
        assert Late(w.late, s) <==> s !in h.accepted;
      }
    } else {
      MarkedAfter(w, h, seqno, s);
    }
  }

  lemma NoWrapHorizon(w: Window)
    requires w.inseqno + Span(w) < U32
    ensures Horizon(w) == w.inseqno + Span(w)
  {
  }

  lemma MarkedAfter(w: Window, h: History, seqno: nat, s: nat)
    requires Represents(w, h) && Horizon(w) == w.inseqno + Span(w) && w.inseqno < seqno < w.inseqno + Span(w)
    requires s <= seqno < s + Span(w) && (s != seqno ==> !SameBit(|w.late|, seqno, s))
    ensures Late(LateAfter(w, seqno), s) <==> s !in h.accepted && s != seqno
  {
    hide Late;
    hide MarkRange;
    hide Clear;
    hide Horizon;
    var base := MarkRange(w.late, w.inseqno, seqno);
    assert LateAfter(w, seqno) == Clear(base, seqno);
    ClearLate(base, seqno, s);
    if s != seqno {
      MarkRangeLate(w.late, w.inseqno, seqno, s);
      if s < w.inseqno {
        assert Late(w.late, s) <==> s !in h.accepted;
      }
    }
  }

  lemma AllLate(n: nat, s: nat)
    requires n > 0
    ensures Late(seq(n, _ => 255), s)
  {
    assert HasBit(255, s % 8) by {
      MaskDisjoint(s % 8, s % 8);
    }
  }

  /** Each call of the bitmap filter is a step of the abstract one. */
  lemma UpdateRefines(w: Window, h: History, seqno: nat)
    requires Represents(w, h) && NoWrap(w, seqno)
    ensures Represents(Update(w, seqno), Record(h, |w.late|, seqno))
  {
    hide Verdict;
    hide LateAfter;
    hide Late;
    VerdictIsFresh(w, h, seqno);
    var w', h' := Update(w, seqno), Record(h, |w.late|, seqno);
    if Fresh(h, |w.late|, seqno) {
      forall s: nat {:trigger Late(w'.late, s)} | s < h'.next <= s + Span(w')
        ensures Late(w'.late, s) <==> s !in h'.accepted
      {
        BitsAfter(w, h, seqno, s);
      }
    }
  }

  function Below(k: nat): (r: set<nat>)
    ensures forall s: nat :: s in r <==> s < k
  {
    if k == 0 then {} else Below(k - 1) + {k - 1}
  }

  /** A session that took `k` plaintext handshake records before the filter starts. */
  lemma InitialRepresents(k: nat, received: nat, replaywin: nat)
    requires replaywin > 0
    ensures Represents(Window(k, received, 0, seq(replaywin, _ => 0)), History(Below(k), k, 0))
  {
    var w := Window(k, received, 0, seq(replaywin, _ => 0));
    forall s: nat {:trigger Late(w.late, s)}
      ensures !Late(w.late, s)
    {
      assert !HasBit(0, s % 8);
    }
  }

  /** The verdicts on a sequence of received numbers. */
  function Verdicts(w: Window, ns: seq<nat>): (r: seq<bool>)
    ensures |r| == |ns|
    decreases |ns|
  {
    if ns == [] then [] else [Verdict(w, ns[0])] + Verdicts(Update(w, ns[0]), ns[1..])
  }

  function FreshVerdicts(h: History, replaywin: nat, ns: seq<nat>): (r: seq<bool>)
    ensures |r| == |ns|
    decreases |ns|
  {
    if ns == [] then [] else [Fresh(h, replaywin, ns[0])] + FreshVerdicts(Record(h, replaywin, ns[0]), replaywin, ns[1..])
  }

  /** A run of received numbers in which no horizon wraps and no number is accepted that
      has no successor in 32 bits. */
  predicate InRange(w: Window, ns: seq<nat>)
    decreases |ns|
  {
    ns == [] || (ns[0] < U32 && NoWrap(w, ns[0]) && InRange(Update(w, ns[0]), ns[1..]))
  }

  /** Main result: in every such run the bitmap gives exactly the verdicts of the filter
      that remembers every accepted number. */
  lemma {:induction false} RunRefines(w: Window, h: History, ns: seq<nat>)
    requires Represents(w, h) && InRange(w, ns)
    ensures Verdicts(w, ns) == FreshVerdicts(h, |w.late|, ns)
    decreases |ns|
  {
    if ns != [] {
      hide Verdict;
      hide LateAfter;
      hide Fresh;
      var n := ns[0];
      VerdictIsFresh(w, h, n);
      UpdateRefines(w, h, n);
      RunRefines(Update(w, n), Record(h, |w.late|, n), ns[1..]);
    }
  }

  /** The bitmap accepts no number twice in such a run. */
  lemma AcceptedOnce(w: Window, h: History, ns: seq<nat>, i: nat, j: nat)
    requires Represents(w, h) && InRange(w, ns)
    requires i < j < |ns| && ns[i] == ns[j] && Verdicts(w, ns)[i]
    ensures !Verdicts(w, ns)[j]
  {
    RunRefines(w, h, ns);
    FreshOnce(h, |w.late|, ns, i, j);
  }

  lemma {:induction false} FreshOnce(h: History, replaywin: nat, ns: seq<nat>, i: nat, j: nat)
    requires i < j < |ns| && ns[i] == ns[j] && FreshVerdicts(h, replaywin, ns)[i]
    ensures !FreshVerdicts(h, replaywin, ns)[j]
    decreases j
  {
    var h' := Record(h, replaywin, ns[0]);
    if i == 0 {
      StaysAccepted(h', replaywin, ns[1..], j - 1);
    } else {
      FreshOnce(h', replaywin, ns[1..], i - 1, j - 1);
    }
  }

  lemma {:induction false} StaysAccepted(h: History, replaywin: nat, ns: seq<nat>, j: nat)
    requires j < |ns| && ns[j] in h.accepted
    ensures !FreshVerdicts(h, replaywin, ns)[j]
    decreases j
  {
    if j > 0 {
      StaysAccepted(Record(h, replaywin, ns[0]), replaywin, ns[1..], j - 1);
    }
  }

  /** A number accepted twice in a run in range. */
  predicate Repeated(w: Window, ns: seq<nat>, i: nat, j: nat) {
    InRange(w, ns) && i < j < |ns| && ns[i] == ns[j] && Verdicts(w, ns)[i] && Verdicts(w, ns)[j]
  }

  /** Of all configurations, exactly those with a window accept no number twice. */
  lemma OnceIffWindow(k: nat, received: nat, replaywin: nat)
    requires k + 1 < U32
    ensures var w := Window(k, received, 0, seq(replaywin, _ => 0));
            (forall ns, i, j :: !Repeated(w, ns, i, j)) <==> replaywin > 0
  {
    var w := Window(k, received, 0, seq(replaywin, _ => 0));
    if replaywin > 0 {
      InitialRepresents(k, received, replaywin);
      forall ns: seq<nat>, i: nat, j: nat
        ensures !Repeated(w, ns, i, j)
      {
        if InRange(w, ns) && i < j < |ns| && ns[i] == ns[j] && Verdicts(w, ns)[i] {
          AcceptedOnce(w, History(Below(k), k, 0), ns, i, j);
        }
      }
    } else {
      var ns := [k, k];
      assert ns[1..] == [k] && [k][1..] == [];
      assert Update(w, k).inseqno == k + 1 && Update(w, k).late == [];
      assert InRange(Update(w, k), [k]);
      assert Repeated(w, ns, 0, 1);
    }
  }

  function AfterAll(w: Window, ns: seq<nat>): (r: Window)
    decreases |ns|
  {
    if ns == [] then w else AfterAll(Update(w, ns[0]), ns[1..])
  }

  function CountTrue(bs: seq<bool>): (n: nat) { if bs == [] then 0 else (if bs[0] then 1 else 0) + CountTrue(bs[1..]) }

  lemma WrapTwice(a: nat, b: nat)
    ensures (a % U32 + b) % U32 == (a + b) % U32
  {
  }

  /** The received counter counts the accepted numbers. */
  lemma {:induction false} ReceivedCounts(w: Window, ns: seq<nat>)
    requires InRange(w, ns) && w.received < U32
    ensures AfterAll(w, ns).received == (w.received + CountTrue(Verdicts(w, ns))) % U32
    decreases |ns|
  {
    if ns != [] {
      var n := ns[0];
      assert Update(w, n).received == if Verdict(w, n) then (w.received + 1) % U32 else w.received;
      hide Update;
      hide Verdict;
      ReceivedCounts(Update(w, n), ns[1..]);
      WrapTwice(w.received + 1, CountTrue(Verdicts(Update(w, n), ns[1..])));
      assert Verdicts(w, ns)[1..] == Verdicts(Update(w, n), ns[1..]);
    }
  }

  /** The last number of all is expected, rejections are left, and no number from the
      wrapped horizon on is still missing: the wrap then has nothing to spoil. */
  ghost predicate Exhausted(w: Window)
    requires |w.late| > 0
  {
    && w.inseqno + 1 == U32
    && w.farfuture < |w.late| / 4
    && forall s: nat {:trigger Late(w.late, s)} :: Horizon(w) <= s < w.inseqno <= s + Span(w) ==> !Late(w.late, s)
  }

  /** The 32-bit condition is needed: in every state the verdicts on all numbers are right
      exactly when the horizon does not wrap, or the numbers are exhausted. */
  lemma RightIffNoWrap(w: Window, h: History)
    requires Represents(w, h) && Fits(w)
    ensures (forall n: nat | n < U32 :: Verdict(w, n) <==> Fresh(h, |w.late|, n))
            <==> w.inseqno + Span(w) < U32 || Exhausted(w)
  {
    if w.inseqno + Span(w) < U32 {
      forall n: nat | n < U32
        ensures Verdict(w, n) <==> Fresh(h, |w.late|, n)
      {
        VerdictIsFresh(w, h, n);
      }
    } else {
      WrapsRightIff(w, h);
    }
  }

  lemma WrapsRightIff(w: Window, h: History)
    requires Represents(w, h) && Fits(w) && w.inseqno + Span(w) >= U32
    ensures (forall n: nat | n < U32 :: Verdict(w, n) <==> Fresh(h, |w.late|, n)) <==> Exhausted(w)
  {
    assert Horizon(w) == w.inseqno + Span(w) - U32 < w.inseqno;
    if w.farfuture == |w.late| / 4 {
      var n := w.inseqno - 1;
      assert Verdict(w, n) && !Fresh(h, |w.late|, n);
    } else if w.inseqno + 1 < U32 {
      var n := w.inseqno + 1;
      assert !Verdict(w, n) && Fresh(h, |w.late|, n);
    } else {
      LastRightIff(w, h);
    }
  }

  lemma LastRightIff(w: Window, h: History)
    requires Represents(w, h) && Fits(w) && w.inseqno + 1 == U32 && w.farfuture < |w.late| / 4
    ensures (forall n: nat | n < U32 :: Verdict(w, n) <==> Fresh(h, |w.late|, n)) <==> Exhausted(w)
  {
    hide Late;
    forall n: nat | n < U32
      ensures (Verdict(w, n) <==> Fresh(h, |w.late|, n)) <==>
              (Horizon(w) <= n < w.inseqno <= n + Span(w) ==> !Late(w.late, n))
    {
      if n < w.inseqno <= n + Span(w) {
        assert Late(w.late, n) <==> n !in h.accepted;
      }
    }
  }
}
