/**
  The MRU -> LRU ordering list of the cache, seen as a sequence of arena
  identifiers with the sentinel left implicit: the front of the sequence is
  `head.next` (the most recently used entry), the back is `head.prev` (the
  least recently used one), and the empty sequence is the sentinel linked to
  itself. Unlinking a node keeps every other node in place, which on a
  sequence is `Remove`.
 */
module OrderList {

  /** Stable handle of an entry; the ordering list links handles instead of the `prev`/`next` pointers of `SimpleCacheEntry`. */
  type Id = nat

  /** No node is linked twice: a walk from the sentinel visits each node once. */
  predicate NoDup(s: seq<Id>) {
    forall i, j :: 0 <= i < j < |s| ==> s[i] != s[j]
  }

  /** `s` with every occurrence of `x` taken out; the others keep their relative order. */
  function Remove(s: seq<Id>, x: Id): (r: seq<Id>)
    ensures forall y :: y in r <==> y in s && y != x
    ensures NoDup(s) ==> NoDup(r)
    ensures NoDup(s) && x in s ==> |r| == |s| - 1
    ensures x !in s ==> r == s
  {
    if |s| == 0 then []
    else if s[0] == x then Remove(s[1..], x)
    else
      assert NoDup(s) ==> s[0] !in s[1..] && NoDup(s[1..]);
      [s[0]] + Remove(s[1..], x)
  }

  /** Position of a listed node: how many `next` hops it lies from the sentinel, less one. */
  function IndexOf(s: seq<Id>, x: Id): (i: nat)
    requires x in s
    ensures i < |s| && s[i] == x
    ensures forall j :: 0 <= j < i ==> s[j] != x
  {
    if s[0] == x then 0 else 1 + IndexOf(s[1..], x)
  }

  /** Removing a node that was just linked at the front gives back the list it was linked onto. */
  lemma RemoveFront(x: Id, s: seq<Id>)
    requires x !in s
    ensures Remove([x] + s, x) == s
  {
    assert ([x] + s)[1..] == s;
  }

  /** Unlinking from a list split in two unlinks from each part. */
  lemma {:induction false} RemoveAppend(a: seq<Id>, b: seq<Id>, x: Id)
    ensures Remove(a + b, x) == Remove(a, x) + Remove(b, x)
  {
    if |a| > 0 {
      assert (a + b)[0] == a[0];
      assert (a + b)[1..] == a[1..] + b;
      RemoveAppend(a[1..], b, x);
    } else {
      assert a + b == b;
    }
  }

  /** Unlinking the head of a list without repeated nodes leaves the rest. */
  lemma RemoveHead(t: seq<Id>)
    requires |t| > 0 && NoDup(t)
    ensures Remove(t, t[0]) == t[1..]
  {
    assert t[0] !in t[1..];
  }

  /** Unlinking a node that lies at or after position `p` keeps the first `p` nodes in place. */
  lemma RemoveAfter(s: seq<Id>, y: Id, p: nat)
    requires p <= |s| && y !in s[..p]
    ensures Remove(s, y) == s[..p] + Remove(s[p..], y)
  {
    assert s == s[..p] + s[p..];
    RemoveAppend(s[..p], s[p..], y);
  }

  /**
    Moving `y`, which lies after position `p`, to the front shifts the node at
    `p` one place back and leaves behind it the old remainder without `y`.
   */
  lemma MoveToFrontSuffix(s: seq<Id>, t: seq<Id>, y: Id, p: nat)
    requires NoDup(s) && NoDup(t) && |t| > 0 && t[0] == y && Remove(t, y) == Remove(s, y)
    requires p < |s| && y in s[p + 1..]
    ensures |t| == |s| && t[p + 1] == s[p] && t[p + 1..] == Remove(s[p..], y)
  {
    RemoveHead(t);
    assert y !in s[..p] && s[p] != y;
    RemoveAfter(s, y, p);
    RemoveAfter(s[p..], y, 1);
    assert s[p..][..1] == [s[p]] && s[p..][1..] == s[p + 1..];
    assert y in s;
  }

  /** Unlinking the tail of a list without repeated nodes drops exactly its last position. */
  lemma {:induction false} RemoveLast(s: seq<Id>)
    requires |s| > 0 && NoDup(s)
    ensures Remove(s, s[|s| - 1]) == s[..|s| - 1]
  {
    if |s| > 1 {
      assert s[0] != s[|s| - 1];
      var t := s[1..];
      assert NoDup(t);
      RemoveLast(t);
      assert t[|t| - 1] == s[|s| - 1];
      assert t[..|t| - 1] == s[1..|s| - 1];
      assert s[..|s| - 1] == [s[0]] + s[1..|s| - 1];
    }
  }
}
