/** A splay tree as the rest of the program sees it: a strictly increasing sequence,
    searched, inserted into and deleted from by comparison. */
module OrderedIndex {

  ghost predicate Increasing<T>(before: (T, T) -> bool, s: seq<T>) {
    forall i, j :: 0 <= i < j < |s| ==> before(s[i], s[j])
  }

  /** The first place, from i on, that is not before e. */
  function Place<T>(before: (T, T) -> bool, s: seq<T>, e: T, i: nat): (k: nat)
    requires i <= |s|
    ensures i <= k <= |s| && (k < |s| ==> !before(s[k], e)) && (forall j :: i <= j < k ==> before(s[j], e))
    decreases |s| - i
  {
    if i == |s| || !before(s[i], e) then i else Place(before, s, e, i + 1)
  }

  lemma {:induction false} PlaceUnique<T(!new)>(before: (T, T) -> bool, s: seq<T>, e: T, k: nat, i: nat)
    requires i <= k <= |s| && (forall j :: i <= j < k ==> before(s[j], e)) && (k < |s| ==> !before(s[k], e))
    ensures Place(before, s, e, i) == k
    decreases k - i
  {
    if i < k {
      PlaceUnique(before, s, e, k, i + 1);
    }
  }

  /** Whether something compares equal to e. */
  predicate Occupied<T>(before: (T, T) -> bool, s: seq<T>, e: T) {
    var k := Place(before, s, e, 0);
    k < |s| && !before(e, s[k])
  }

  /** splay_insert: no effect when something compares equal. */
  function Insert<T>(before: (T, T) -> bool, s: seq<T>, e: T): (r: seq<T>) {
    var k := Place(before, s, e, 0);
    if Occupied(before, s, e) then s else s[..k] + [e] + s[k..]
  }

  /** splay_delete: what compares equal goes. */
  function Delete<T>(before: (T, T) -> bool, s: seq<T>, e: T): (r: seq<T>) {
    var k := Place(before, s, e, 0);
    if Occupied(before, s, e) then s[..k] + s[k + 1..] else s
  }

  /** e has its place in the order of s, though some of s may compare equal to it. */
  ghost predicate Sits<T(!new)>(before: (T, T) -> bool, s: seq<T>, e: T) {
    && !before(e, e)
    && (forall x :: x in s && before(x, e) ==> !before(e, x))
    && (forall x, y :: x in s && y in s && before(e, x) && before(x, y) ==> before(e, y))
  }

  /** Only e itself compares equal. */
  ghost predicate Fits<T(!new)>(before: (T, T) -> bool, s: seq<T>, e: T) {
    Sits(before, s, e) && (forall x :: x in s && x != e ==> before(x, e) || before(e, x))
  }

  /** Something compares equal to e exactly if the place of e is taken. */
  lemma OccupiedIff<T(!new)>(before: (T, T) -> bool, s: seq<T>, e: T)
    requires Increasing(before, s) && Sits(before, s, e)
    ensures Occupied(before, s, e) <==> exists x :: x in s && !before(x, e) && !before(e, x)
    ensures e in s ==> var k := Place(before, s, e, 0); k < |s| && Occupied(before, s, e) && s[k] == e
  {
    var k := Place(before, s, e, 0);
    if Occupied(before, s, e) {
      assert s[k] in s;
    }
    if x :| x in s && !before(x, e) && !before(e, x) {
      var i :| 0 <= i < |s| && s[i] == x;
      assert i >= k && s[k] in s;
    }
    if e in s {
      var i :| 0 <= i < |s| && s[i] == e;
      assert i >= k && s[k] in s;
    }
  }

  lemma InsertSits<T(!new)>(before: (T, T) -> bool, s: seq<T>, e: T)
    requires Increasing(before, s) && Sits(before, s, e)
    ensures Increasing(before, Insert(before, s, e))
    ensures forall x :: x in Insert(before, s, e) <==> x in s || (x == e && !Occupied(before, s, e))
  {
    if !Occupied(before, s, e) {
      var k := Place(before, s, e, 0);
      forall i | k <= i < |s|
        ensures before(e, s[i])
      {
        assert s[i] in s && s[k] in s;
        assert before(e, s[k]);
      }
      hide Sits;
      Longer(before, s, e, k);
    }
  }

  lemma Longer<T(!new)>(before: (T, T) -> bool, s: seq<T>, e: T, k: nat)
    requires Increasing(before, s) && k <= |s|
    requires (forall i :: 0 <= i < k ==> before(s[i], e)) && (forall i :: k <= i < |s| ==> before(e, s[i]))
    ensures var r := s[..k] + [e] + s[k..];
            Increasing(before, r) && forall x :: x in r <==> x in s || x == e
  {
    var r := s[..k] + [e] + s[k..];
    forall i, j | 0 <= i < j < |r|
      ensures before(r[i], r[j])
    {
    }
    assert s == s[..k] + s[k..];
  }

  /** An insertion adds exactly the element. */
  lemma InsertIs<T(!new)>(before: (T, T) -> bool, s: seq<T>, e: T)
    requires Increasing(before, s) && Fits(before, s, e) && e !in s
    ensures Increasing(before, Insert(before, s, e)) && !Occupied(before, s, e)
    ensures forall x :: x in Insert(before, s, e) <==> x in s || x == e
  {
    OccupiedIff(before, s, e);
    InsertSits(before, s, e);
  }

  /** Without its k-th element a sequence is still increasing and has all the others. */
  lemma Without<T(!new)>(before: (T, T) -> bool, s: seq<T>, k: nat)
    requires Increasing(before, s) && k < |s| && !before(s[k], s[k])
    ensures var r := s[..k] + s[k + 1..];
            Increasing(before, r) && forall x :: x in r <==> x in s && x != s[k]
  {
    var r := s[..k] + s[k + 1..];
    forall i | 0 <= i < |r|
      ensures r[i] in s && r[i] != s[k]
    {
      assert r[i] == s[if i < k then i else i + 1];
    }
    forall x | x in s && x != s[k]
      ensures x in r
    {
      var i :| 0 <= i < |s| && s[i] == x;
      assert r[if i < k then i else i - 1] == x;
    }
  }

  /** A deletion removes exactly the element. */
  lemma DeleteIs<T(!new)>(before: (T, T) -> bool, s: seq<T>, e: T)
    requires Increasing(before, s) && Sits(before, s, e) && e in s
    ensures Increasing(before, Delete(before, s, e))
    ensures forall x :: x in Delete(before, s, e) <==> x in s && x != e
  {
    OccupiedIff(before, s, e);
    hide Sits;
    hide Place;
    Without(before, s, Place(before, s, e, 0));
  }

  /** Deleting undoes inserting exactly if nothing compared equal before. */
  lemma DeleteUndoesIff<T(!new)>(before: (T, T) -> bool, s: seq<T>, e: T)
    requires !before(e, e)
    ensures Delete(before, Insert(before, s, e), e) == s <==> !Occupied(before, s, e)
  {
    if !Occupied(before, s, e) {
      var k := Place(before, s, e, 0);
      InsertedPlace(before, s, e, k);
      var r := s[..k] + [e] + s[k..];
      assert r[..k] + r[k + 1..] == s;
    }
  }

  lemma InsertedPlace<T(!new)>(before: (T, T) -> bool, s: seq<T>, e: T, k: nat)
    requires k <= |s| && !before(e, e) && forall j :: 0 <= j < k ==> before(s[j], e)
    ensures var r := s[..k] + [e] + s[k..]; Place(before, r, e, 0) == k && Occupied(before, r, e)
  {
    var r := s[..k] + [e] + s[k..];
    assert forall j :: 0 <= j < k ==> r[j] == s[j];
    assert r[k] == e;
    PlaceUnique(before, r, e, k, 0);
  }

  /** Only the comparisons among the elements matter. */
  lemma IncreasingSame<T(!new)>(before: (T, T) -> bool, before': (T, T) -> bool, s: seq<T>)
    requires Increasing(before, s) && (forall x, y :: x in s && y in s ==> before(x, y) == before'(x, y))
    ensures Increasing(before', s)
  {
  }

  // The same index over what the elements stand for.

  function Image<T, U>(f: T -> U, s: seq<T>): (r: seq<U>) { seq(|s|, i requires 0 <= i < |s| => f(s[i])) }

  /** Comparing elements with e is comparing their images with the image of e. */
  ghost predicate Follows<T(!new), U>(before: (T, T) -> bool, under: (U, U) -> bool, f: T -> U, s: seq<T>, e: T) {
    forall x :: x in s ==> before(x, e) == under(f(x), f(e)) && before(e, x) == under(f(e), f(x))
  }

  lemma ImagePlace<T(!new), U(!new)>(before: (T, T) -> bool, under: (U, U) -> bool, f: T -> U, s: seq<T>, e: T)
    requires Follows(before, under, f, s, e)
    ensures Place(under, Image(f, s), f(e), 0) == Place(before, s, e, 0)
    ensures Occupied(under, Image(f, s), f(e)) == Occupied(before, s, e)
  {
    var k := Place(before, s, e, 0);
    assert forall i :: 0 <= i < |s| ==> s[i] in s;
    PlaceUnique(under, Image(f, s), f(e), k, 0);
  }

  lemma ImageInsert<T(!new), U(!new)>(before: (T, T) -> bool, under: (U, U) -> bool, f: T -> U, s: seq<T>, e: T)
    requires Follows(before, under, f, s, e)
    ensures Image(f, Insert(before, s, e)) == Insert(under, Image(f, s), f(e))
    ensures Image(f, Delete(before, s, e)) == Delete(under, Image(f, s), f(e))
  {
    ImagePlace(before, under, f, s, e);
    var k := Place(before, s, e, 0);
    assert Image(f, s[..k] + [e] + s[k..]) == Image(f, s)[..k] + [f(e)] + Image(f, s)[k..];
    if k < |s| {
      assert Image(f, s[..k] + s[k + 1..]) == Image(f, s)[..k] + Image(f, s)[k + 1..];
    }
  }
}
