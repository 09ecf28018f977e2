// The timestamp-ordered event queue: a priority queue of (timestamp, event)
// pairs. The binary-heap layout is not modelled; the queue's contents are a
// multiset, and every removal takes a pair whose timestamp is the smallest
// queued. Which of several pairs with the same smallest timestamp comes out
// first is left open.

module EventQueue {

  /** Timestamps never decrease along `s`. */
  ghost predicate SortedByTs<E>(s: seq<(int, E)>) {
    forall i, j :: 0 <= i < j < |s| ==> s[i].0 <= s[j].0
  }

  /** Timestamps strictly increase along `s`. */
  ghost predicate StrictlySortedByTs<E>(s: seq<(int, E)>) {
    forall i, j :: 0 <= i < j < |s| ==> s[i].0 < s[j].0
  }

  /** `e` has the smallest timestamp in `m`. */
  ghost predicate IsEarliest<E>(e: (int, E), m: multiset<(int, E)>) {
    e in m && forall x :: x in m ==> e.0 <= x.0
  }

  /** A non-empty queue always has an earliest pair, so `heappop` is defined
      on every non-empty heap. */
  lemma {:induction false} EarliestExists<E>(m: multiset<(int, E)>)
    requires m != multiset{}
    ensures exists e :: IsEarliest(e, m)
    decreases |m|
  {
    var y :| y in m;
    var rest := m - multiset{y};
    assert m == rest + multiset{y};
    if rest == multiset{} {
      assert IsEarliest(y, m);
    } else {
      EarliestExists(rest);
      var e :| IsEarliest(e, rest);
      if y.0 < e.0 {
        assert IsEarliest(y, m);
      } else {
        assert IsEarliest(e, m);
      }
    }
  }

  /** The head of a sorted sequence is an earliest pair of its contents. */
  lemma HeadIsEarliest<E>(s: seq<(int, E)>)
    requires SortedByTs(s) && |s| > 0
    ensures IsEarliest(s[0], multiset(s))
  {
    forall x | x in multiset(s)
      ensures s[0].0 <= x.0
    {
      var k :| 0 <= k < |s| && s[k] == x;
    }
  }

  /** Dropping the same head from two orderings of the same pairs leaves two
      orderings of the same pairs. */
  lemma SameTails<E>(a: seq<(int, E)>, b: seq<(int, E)>)
    requires |a| > 0 && |b| > 0 && a[0] == b[0]
    requires multiset(a) == multiset(b)
    ensures multiset(a[1..]) == multiset(b[1..])
  {
    assert a == [a[0]] + a[1..];
    assert b == [b[0]] + b[1..];
    assert forall z :: multiset(a[1..])[z] == multiset(a)[z] - multiset{a[0]}[z];
    assert forall z :: multiset(b[1..])[z] == multiset(b)[z] - multiset{b[0]}[z];
  }

  /** When one ordering of a non-empty set of pairs is sorted and another is
      strictly sorted, both start with the same pair. */
  lemma SameHeads<E>(a: seq<(int, E)>, b: seq<(int, E)>)
    requires SortedByTs(a) && StrictlySortedByTs(b)
    requires multiset(a) == multiset(b)
    requires |a| > 0 && |b| > 0
    ensures a[0] == b[0]
  {
    HeadIsEarliest(a);
    HeadIsEarliest(b);
    assert a[0] in multiset(b);
    var i :| 0 <= i < |b| && b[i] == a[0];
    assert b[0].0 <= a[0].0 <= b[0].0;
    assert i == 0;
  }

  /** Two orderings of the same pairs agree when one of them has strictly
      increasing timestamps: with distinct timestamps the drain order is
      fully determined. */
  lemma {:induction false} SortedPermutationUnique<E>(a: seq<(int, E)>, b: seq<(int, E)>)
    requires SortedByTs(a) && StrictlySortedByTs(b)
    requires multiset(a) == multiset(b)
    ensures a == b
    decreases |a|
  {
    assert |b| == |multiset(b)| == |multiset(a)| == |a|;
    if |a| > 0 {
      SameHeads(a, b);
      SameTails(a, b);
      var a', b' := a[1..], b[1..];
      assert SortedByTs(a') && StrictlySortedByTs(b');
      SortedPermutationUnique(a', b');
      assert a == [a[0]] + a' && b == [b[0]] + b';
    }
  }

  /** The state of a `pop_until` drain of `orig`: `rest` is still queued,
      `popped` has come out due by `bound`, in order, and nothing queued is
      earlier than the last pair that came out. */
  ghost predicate DrainedSoFar<E>(orig: multiset<(int, E)>, rest: multiset<(int, E)>, popped: seq<(int, E)>, bound: int) {
    && rest + multiset(popped) == orig
    && (forall i :: 0 <= i < |popped| ==> popped[i].0 <= bound)
    && SortedByTs(popped)
    && (popped != [] ==> forall x :: x in rest ==> popped[|popped| - 1].0 <= x.0)
  }

  /** One `heappop` of a due earliest pair keeps a drain in that state. */
  lemma DrainStep<E>(orig: multiset<(int, E)>, rest: multiset<(int, E)>, popped: seq<(int, E)>, bound: int, e: (int, E))
    requires DrainedSoFar(orig, rest, popped, bound)
    requires IsEarliest(e, rest) && e.0 <= bound
    ensures DrainedSoFar(orig, rest - multiset{e}, popped + [e], bound)
  {
    var rest', popped' := rest - multiset{e}, popped + [e];
    assert multiset(popped') == multiset(popped) + multiset{e};
    assert rest == rest' + multiset{e};
    assert rest' + multiset(popped') == orig;
    forall i | 0 <= i < |popped'|
      ensures popped'[i].0 <= bound
    {
      if i < |popped| {
        assert popped'[i] == popped[i];
      }
    }
    forall i, j | 0 <= i < j < |popped'|
      ensures popped'[i].0 <= popped'[j].0
    {
      assert popped'[i] == popped[i];
      if j == |popped| {
        assert e in rest;
        assert popped[i].0 <= popped[|popped| - 1].0 <= e.0;
      } else {
        assert popped'[j] == popped[j];
      }
    }
    forall x | x in rest'
      ensures e.0 <= x.0
    {
      assert x in rest;
    }
  }

  /** A drain that stops with nothing due left has removed as many pairs as
      it returned, and one that found nothing due returned nothing. */
  lemma DrainFinished<E>(orig: multiset<(int, E)>, rest: multiset<(int, E)>, popped: seq<(int, E)>, bound: int)
    requires DrainedSoFar(orig, rest, popped, bound)
    ensures |rest| + |popped| == |orig|
    ensures (forall x :: x in orig ==> x.0 > bound) ==> popped == [] && rest == orig
  {
    assert |rest + multiset(popped)| == |rest| + |multiset(popped)|;
    if popped != [] {
      assert popped[0] in orig;
    }
  }

  /** `EventQueue`: the pending (timestamp, event) pairs. */
  class EventQueue<E(==)> {
    /** The contents of `_heap`, without its layout. */
    var entries: multiset<(int, E)>

    /** `__init__`: an empty queue. */
    constructor ()
      ensures entries == multiset{}
    {
      entries := multiset{};
    }

    /** `__len__`: the number of pending pairs, counting repeats. */
    function Length(): (n: nat)
      reads this
      ensures n == 0 <==> entries == multiset{}
    {
      |entries|
    }

    /** `push`: insert exactly one pair. */
    method Push(ts: int, event: E)
      modifies this
      ensures entries == old(entries) + multiset{(ts, event)}
      ensures Length() == old(Length()) + 1
    {
      entries := entries + multiset{(ts, event)};
    }

    /** `_heap[0]`: a pair with the smallest timestamp. */
    method Peek() returns (e: (int, E))
      requires entries != multiset{}
      ensures IsEarliest(e, entries)
    {
      EarliestExists(entries);
      e :| e in entries && forall x :: x in entries ==> e.0 <= x.0;
    }

    /** The loop guard of `pop_until`: the heap is non-empty and its head is
        due by `bound`. */
    method HeadDue(bound: int) returns (due: bool)
      ensures due ==> entries != multiset{} && forall e :: IsEarliest(e, entries) ==> e.0 <= bound
      ensures !due ==> forall x :: x in entries ==> x.0 > bound
    {
      if entries == multiset{} {
        return false;
      }
      var head := Peek();
      due := head.0 <= bound;
    }

    /** `heapq.heappop`: remove and return a pair with the smallest timestamp. */
    method PopEarliest() returns (e: (int, E))
      requires entries != multiset{}
      modifies this
      ensures IsEarliest(e, old(entries))
      ensures entries == old(entries) - multiset{e}
    {
      e := Peek();
      entries := entries - multiset{e};
    }

    /** `pop_until`: remove every pair due by `bound` and return them in
        non-decreasing timestamp order. */
    method PopUntil(bound: int) returns (popped: seq<(int, E)>)
      modifies this
      ensures entries + multiset(popped) == old(entries)
      ensures forall i :: 0 <= i < |popped| ==> popped[i].0 <= bound
      ensures forall x :: x in entries ==> x.0 > bound
      ensures SortedByTs(popped)
      ensures Length() + |popped| == old(Length())
      ensures (forall x :: x in old(entries) ==> x.0 > bound) ==> popped == [] && entries == old(entries)
    {
      popped := [];
      var due := HeadDue(bound);
      while due
        invariant DrainedSoFar(old(entries), entries, popped, bound)
        invariant due ==> entries != multiset{} && forall e :: IsEarliest(e, entries) ==> e.0 <= bound
        invariant !due ==> forall x :: x in entries ==> x.0 > bound
        decreases |entries|
      {
        ghost var before := entries;
        var e := PopEarliest();
        DrainStep(old(entries), before, popped, bound, e);
        popped := popped + [e];
        due := HeadDue(bound);
      }
      DrainFinished(old(entries), entries, popped, bound);
    }
  }
}
