/**
  The intrusive doubly linked list. The list head holds the first node in `next`
  and the last one in `prev`; null ends the chain both ways.
*/
module Lists {
  import opened Common
  import opened Timers

  /** `node` is compared against one element after the other and put before the first larger one. */
  function SortedPosition(s: seq<Timer>, node: Timer, compare: (Timer, Timer) -> int): (k: nat)
    ensures k <= |s|
    ensures forall i :: 0 <= i < k ==> compare(node, s[i]) >= 0
    ensures k < |s| ==> compare(node, s[k]) < 0
  {
    if s == [] || compare(node, s[0]) < 0 then 0 else 1 + SortedPosition(s[1..], node, compare)
  }

  /** The element at a position, null off either end. */
  ghost function Nth(s: seq<Timer>, i: int): (n: Timer?) {
    if 0 <= i < |s| then s[i] else null
  }

  lemma RemovedNth(s: seq<Timer>, k: nat, i: int)
    requires k < |s|
    ensures Nth(RemovedAt(s, k), i) == if i < k then Nth(s, i) else Nth(s, i + 1)
  {
  }

  lemma DistinctInserted(s: seq<Timer>, k: nat, x: Timer)
    requires k <= |s| && Distinct(s) && x !in s
    ensures Distinct(s[..k] + [x] + s[k..])
  {
  }

  lemma DistinctRemoved(s: seq<Timer>, k: nat)
    requires k < |s| && Distinct(s)
    ensures Distinct(RemovedAt(s, k))
  {
  }

  lemma {:induction false} PositionUnique(s: seq<Timer>, node: Timer, compare: (Timer, Timer) -> int, k: nat)
    requires k <= |s|
    requires forall i :: 0 <= i < k ==> compare(node, s[i]) >= 0
    requires k < |s| ==> compare(node, s[k]) < 0
    ensures k == SortedPosition(s, node, compare)
  {
    if k > 0 {
      assert compare(node, s[0]) >= 0;
      PositionUnique(s[1..], node, compare, k - 1);
    }
  }

  class List {
    var prev: Timer?
    var next: Timer?

    /** The heap links exactly the nodes `s`, in this order. */
    ghost predicate Links(s: seq<Timer>)
      reads this, s`prev, s`next
    {
      Distinct(s) &&
      next == (if s == [] then null else s[0]) &&
      prev == (if s == [] then null else s[|s| - 1]) &&
      (forall i {:trigger s[i].next} {:trigger s[i].prev} :: 0 <= i < |s| ==>
        s[i].next == Nth(s, i + 1) && s[i].prev == Nth(s, i - 1))
    }

    constructor ()
      ensures Links([])
    {
      prev, next := null, null;
    }

    method Prepend(node: Timer, ghost s: seq<Timer>)
      requires Links(s) && node !in s
      modifies this, node`prev, node`next, s`prev
      ensures Links([node] + s)
    {
      node.prev := null;
      node.next := next;
      if next != null {
        next.prev := node;
      } else {
        prev := node;
      }
      next := node;
      ghost var r := [node] + s;
      forall i | 0 <= i < |r| ensures r[i].next == Nth(r, i + 1) && r[i].prev == Nth(r, i - 1) {
        if i > 0 {
          assert r[i] == s[i - 1] && s[i - 1] != node;
        }
      }
    }

    method Add(node: Timer, ghost s: seq<Timer>)
      requires Links(s) && node !in s
      modifies this, node`prev, node`next, s`next
      ensures Links(s + [node])
    {
      node.prev := prev;
      node.next := null;
      if prev != null {
        prev.next := node;
      } else {
        next := node;
      }
      prev := node;
      ghost var r := s + [node];
      forall i | 0 <= i < |r| ensures r[i].next == Nth(r, i + 1) && r[i].prev == Nth(r, i - 1) {
        if i < |s| {
          assert r[i] == s[i] && s[i] != node;
        }
      }
    }

    method Remove(node: Timer, ghost s: seq<Timer>, ghost k: nat)
      requires Links(s) && k < |s| && s[k] == node
      modifies this, s`prev, s`next
      ensures Links(RemovedAt(s, k))
    {
      var p, n := node.prev, node.next;
      assert p == Nth(s, k - 1) && n == Nth(s, k + 1);
      if p != null {
        p.next := n;
      } else {
        next := n;
      }
      if n != null {
        n.prev := p;
      } else {
        prev := p;
      }
      ghost var r := RemovedAt(s, k);
      DistinctRemoved(s, k);
      forall i | 0 <= i < |r| ensures r[i].next == Nth(r, i + 1) && r[i].prev == Nth(r, i - 1) {
        RemovedNth(s, k, i - 1);
        RemovedNth(s, k, i);
        RemovedNth(s, k, i + 1);
        assert r[i] == s[if i < k then i else i + 1];
      }
    }

    method InsertPrev(lnext: Timer, node: Timer, ghost s: seq<Timer>, ghost k: nat)
      requires Links(s) && node !in s && k < |s| && s[k] == lnext
      modifies this, node`prev, node`next, s`prev, s`next
      ensures Links(s[..k] + [node] + s[k..])
    {
      assert lnext.prev == Nth(s, k - 1);
      node.prev := lnext.prev;
      node.next := lnext;
      if lnext.prev != null {
        lnext.prev.next := node;
      } else {
        next := node;
      }
      lnext.prev := node;
      ghost var r := s[..k] + [node] + s[k..];
      DistinctInserted(s, k, node);
      forall i | 0 <= i < |r| ensures r[i].next == Nth(r, i + 1) && r[i].prev == Nth(r, i - 1) {
        if i != k {
          var j := if i < k then i else i - 1;
          assert r[i] == s[j] && s[j] != node;
        }
      }
    }

    method InsertNext(lprev: Timer, node: Timer, ghost s: seq<Timer>, ghost k: nat)
      requires Links(s) && node !in s && k < |s| && s[k] == lprev
      modifies this, node`prev, node`next, s`prev, s`next
      ensures Links(s[..k + 1] + [node] + s[k + 1..])
    {
      assert lprev.next == Nth(s, k + 1);
      node.prev := lprev;
      node.next := lprev.next;
      if lprev.next != null {
        lprev.next.prev := node;
      } else {
        prev := node;
      }
      lprev.next := node;
      ghost var r := s[..k + 1] + [node] + s[k + 1..];
      DistinctInserted(s, k + 1, node);
      forall i | 0 <= i < |r| ensures r[i].next == Nth(r, i + 1) && r[i].prev == Nth(r, i - 1) {
        if i != k + 1 {
          var j := if i <= k then i else i - 1;
          assert r[i] == s[j] && s[j] != node;
        }
      }
    }

    method InsertSorted(node: Timer, compare: (Timer, Timer) -> int, ghost s: seq<Timer>)
      requires Links(s) && node !in s
      modifies this, node`prev, node`next, s`prev, s`next
      ensures var k := SortedPosition(s, node, compare); Links(s[..k] + [node] + s[k..])
    {
      ghost var k := 0;
      var iter := next;
      while iter != null && compare(node, iter) >= 0
        invariant 0 <= k <= |s| && iter == (if k < |s| then s[k] else null)
        invariant forall i :: 0 <= i < k ==> compare(node, s[i]) >= 0
        decreases |s| - k
      {
        iter := iter.next;
        k := k + 1;
      }
      PositionUnique(s, node, compare, k);
      if iter != null {
        InsertPrev(iter, node, s, k);
      } else {
        assert s[..k] + [node] + s[k..] == s + [node];
        Add(node, s);
      }
    }

    method Count(ghost s: seq<Timer>) returns (i: nat)
      requires Links(s)
      ensures i == |s|
    {
      i := 0;
      var node := next;
      while node != null
        invariant i <= |s| && node == (if i < |s| then s[i] else null)
        decreases |s| - i
      {
        i := i + 1;
        node := node.next;
      }
    }

    method Exists(node: Timer, ghost s: seq<Timer>) returns (found: bool)
      requires Links(s)
      ensures found <==> node in s
    {
      ghost var i := 0;
      var iter := next;
      while iter != null
        invariant 0 <= i <= |s| && iter == (if i < |s| then s[i] else null)
        invariant node !in s[..i]
        decreases |s| - i
      {
        if node == iter {
          return true;
        }
        i := i + 1;
        iter := iter.next;
      }
      return false;
    }
  }

  ghost predicate Ordered(s: seq<Timer>, rank: Timer -> int) {
    forall i, j :: 0 <= i < j < |s| ==> rank(s[i]) <= rank(s[j])
  }

  /** Inserting by a comparison of ranks keeps a list sorted, with the new node after all its equals. */
  lemma InsertKeepsOrder(s: seq<Timer>, node: Timer, compare: (Timer, Timer) -> int, rank: Timer -> int)
    requires Ordered(s, rank)
    requires forall i :: 0 <= i < |s| ==> (compare(node, s[i]) < 0 <==> rank(node) < rank(s[i]))
    ensures var k := SortedPosition(s, node, compare);
            Ordered(InsertedAt(s, k, node), rank) &&
            (forall i :: 0 <= i < k ==> rank(s[i]) <= rank(node)) &&
              (forall i :: k <= i < |s| ==> rank(node) < rank(s[i]))
  {
    var k := SortedPosition(s, node, compare);
    var r := InsertedAt(s, k, node);
    forall i | k <= i < |s| ensures rank(node) < rank(s[i]) {
      assert k < i ==> rank(s[k]) <= rank(s[i]);
    }
    forall i, j | 0 <= i < j < |r| ensures rank(r[i]) <= rank(r[j]) {
      assert i != k ==> r[i] == s[if i < k then i else i - 1];
      assert j != k ==> r[j] == s[if j < k then j else j - 1];
    }
  }
}
