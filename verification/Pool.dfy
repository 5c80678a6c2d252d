/**
  The fixed-size pool: nodes are handed out from, and given back to, a ring.
*/
module Pools {
  import opened Common

  /** A pointer into the pool's `array`: `At(i)` is `&array[i]`. */
  datatype Node = Null | At(i: nat)

  ghost predicate Below(s: seq<nat>, n: nat) {
    forall i :: 0 <= i < |s| ==> s[i] < n
  }

  ghost function Upto(n: nat): (all: set<nat>)
    ensures forall i: nat :: i in all <==> i < n
    ensures |all| == n
  {
    if n == 0 then {} else Upto(n - 1) + {n - 1}
  }

  ghost function Elements(s: seq<nat>): (all: set<nat>)
    ensures forall x :: x in all <==> x in s
  {
    set x | x in s
  }

  /** The nodes of a pool of size `n` that are not waiting. */
  ghost predicate Split(n: nat, queue: seq<nat>, live: set<nat>) {
    Distinct(queue) && Below(queue, n) && live == Upto(n) - Elements(queue)
  }

  lemma {:induction false} SetOfSize(s: seq<nat>)
    requires Distinct(s)
    ensures |Elements(s)| == |s|
  {
    if s != [] {
      SetOfSize(s[1..]);
      assert s == [s[0]] + s[1..];
      assert s[0] !in s[1..];
      assert Elements(s) == {s[0]} + Elements(s[1..]);
    }
  }

  /** Every node is either live or waiting in the ring, so the counts add up. */
  lemma Conservation(n: nat, queue: seq<nat>, live: set<nat>)
    requires Split(n, queue, live)
    ensures |live| + |queue| == n
    ensures live != {} <==> |queue| < n
  {
    SetOfSize(queue);
    assert live + Elements(queue) == Upto(n) && live !! Elements(queue);
    assert |live| + |Elements(queue)| == n;
    if live != {} {
      var i :| i in live;
    }
  }

  /** Handing out the first waiting node makes it live. */
  lemma Handed(n: nat, queue: seq<nat>, live: set<nat>)
    requires Split(n, queue, live) && queue != []
    ensures Split(n, queue[1..], live + {queue[0]}) && queue[0] !in live && queue[0] < n
  {
    assert queue == [queue[0]] + queue[1..];
    assert queue[0] !in queue[1..] && queue[0] in queue;
    assert Elements(queue) == {queue[0]} + Elements(queue[1..]);
  }

  /** Giving back a live node makes it the last to wait. */
  lemma Given(n: nat, queue: seq<nat>, live: set<nat>, i: nat)
    requires Split(n, queue, live) && i in live
    ensures Split(n, queue + [i], live - {i}) && i < n
  {
    assert Elements(queue + [i]) == Elements(queue) + {i};
  }

  /** All nodes, in the order of the array. */
  ghost function Nodes(n: nat): (s: seq<nat>)
    ensures |s| == n && forall i {:trigger s[i]} :: 0 <= i < n ==> s[i] == i
  {
    seq(n, i => i)
  }

  lemma AllWait(n: nat)
    ensures Split(n, Nodes(n), {})
  {
    var s := Nodes(n);
    forall i: nat ensures i in Elements(s) <==> i in Upto(n) {
      if i < n {
        assert s[i] == i;
      }
    }
  }

  method FillRing(free: array<Node>)
    modifies free
    ensures forall k :: 0 <= k < free.Length ==> free[k] == At(k)
  {
    for i := 0 to free.Length
      invariant forall k :: 0 <= k < i ==> free[k] == At(k)
    {
      free[i] := At(i);
    }
  }

  method ClearIndex(index: array<Node>)
    modifies index
    ensures forall k :: 0 <= k < index.Length ==> index[k] == Null
  {
    for i := 0 to index.Length
      invariant forall k :: 0 <= k < i ==> index[k] == Null
    {
      index[i] := Null;
    }
  }

  class Pool {
    const size: nat
    const free: array<Node>
    const index: array<Node>
    var head: nat
    var tail: nat
    var avail: nat
    ghost var queue: seq<nat>
    ghost var live: set<nat>

    /** The ring's window from `head` holds the waiting nodes, in order. */
    ghost predicate Ring()
      reads `head, `tail, `avail, `queue, free
    {
      && avail == |queue| <= size == free.Length
      && (if size == 0 then head == tail == 0 else head < size && tail == Wrap(head + avail, size))
      && forall k {:trigger queue[k]} :: 0 <= k < avail ==> free[Wrap(head + k, size)] == At(queue[k])
    }

    /** `index` is not NULL exactly at the live nodes. */
    ghost predicate Known()
      reads `live, index
    {
      index.Length == size && forall i :: 0 <= i < size ==> index[i] == if i in live then At(i) else Null
    }

    ghost predicate Valid()
      reads this, free, index
    {
      free != index && Ring() && Known() && Split(size, queue, live)
    }

    /** `ogs_pool_init`: every node waits, in order. */
    constructor (size: nat)
      ensures Valid() && this.size == size && queue == Nodes(size) && live == {}
      ensures fresh(free) && fresh(index)
    {
      this.size := size;
      free := new Node[size];
      index := new Node[size];
      avail := size;
      head, tail := 0, 0;
      queue, live := Nodes(size), {};
      new;
      FillRing(free);
      ClearIndex(index);
      AllWait(this.size);
    }

    /** The first node of the window leaves it. */
    method FromRing() returns (node: Node)
      requires Ring() && avail > 0
      modifies `head, `avail, `queue, free
      ensures Ring() && node == At(old(queue)[0]) && queue == old(queue)[1..]
    {
      assert free[Wrap(head, size)] == At(queue[0]);
      avail := avail - 1;
      node := free[head];
      free[head] := Null;
      ghost var q, h := queue, head;
      head := Wrap(head + 1, size);
      queue := queue[1..];
      forall k {:trigger queue[k]} | 0 <= k < avail ensures free[Wrap(head + k, size)] == At(queue[k]) {
        assert queue[k] == q[k + 1];
        assert Wrap(head + k, size) == Wrap(h + k + 1, size) != h;
      }
    }

    /** A node joins the window at its end. */
    method ToRing(i: nat)
      requires Ring() && avail < size
      modifies `tail, `avail, `queue, free
      ensures Ring() && queue == old(queue) + [i]
    {
      free[tail] := At(i);
      ghost var q, t := queue, tail;
      tail := Wrap(tail + 1, size);
      avail := avail + 1;
      queue := queue + [i];
      forall k {:trigger queue[k]} | 0 <= k < avail ensures free[Wrap(head + k, size)] == At(queue[k]) {
        if k < |q| {
          assert queue[k] == q[k];
          assert Wrap(head + k, size) != t;
        }
      }
    }

    /** `ogs_pool_alloc`: the node that has waited longest, or NULL when none waits. */
    method Alloc() returns (node: Node)
      requires Valid()
      modifies this, free, index
      ensures Valid() && |live| + avail == size
      ensures old(queue) == [] ==> node == Null && queue == [] && live == old(live)
      ensures old(queue) != [] ==> node == At(old(queue)[0]) && queue == old(queue)[1..]
      ensures node.At? ==>
              node.i < size && node.i !in old(live) && live == old(live) + {node.i} && avail == old(avail) - 1
      ensures node.Null? <==> old(avail) == 0
      ensures node.Null? ==> avail == 0 && live == old(live)
    {
      node := Null;
      if avail > 0 {
        Handed(size, queue, live);
        node := FromRing();
        index[node.i] := node;
        live := live + {node.i};
      }
      Conservation(size, queue, live);
    }

    /** `ogs_pool_free`: a live node goes to the end of the ring. */
    method Free(i: nat)
      requires Valid() && i in live
      modifies this, free, index
      ensures Valid() && |live| + avail == size
      ensures queue == old(queue) + [i] && live == old(live) - {i} && avail == old(avail) + 1
    {
      Conservation(size, queue, live);
      Given(size, queue, live, i);
      if avail < size {
        ToRing(i);
        index[i] := Null;
        live := live - {i};
      }
      Conservation(size, queue, live);
    }

    /** `ogs_pool_find`: the live node with this index. */
    method Find(n: int) returns (node: Node)
      requires Valid()
      ensures node == if n >= 1 && n - 1 in live then At(n - 1) else Null
    {
      node := if n > 0 && n <= size then index[n - 1] else Null;
    }
  }

  // ------------------------------------------------------------------ in a run

  datatype Op = Take | Give(i: nat)

  /** Only live nodes are given back. */
  ghost predicate Proper(n: nat, queue: seq<nat>, ops: seq<Op>)
    decreases |ops|
  {
    ops == [] ||
    match ops[0]
      case Take => Proper(n, if queue == [] then [] else queue[1..], ops[1..])
      case Give(i) => i < n && i !in queue && Proper(n, queue + [i], ops[1..])
  }

  /** The nodes handed out in a run. */
  ghost function Issued(queue: seq<nat>, ops: seq<Op>): (r: seq<nat>)
    decreases |ops|
  {
    if ops == [] then [] else
    match ops[0]
      case Take => if queue == [] then Issued([], ops[1..]) else [queue[0]] + Issued(queue[1..], ops[1..])
      case Give(i) => Issued(queue + [i], ops[1..])
  }

  ghost function Returned(ops: seq<Op>): (r: seq<nat>) {
    if ops == [] then [] else (if ops[0].Give? then [ops[0].i] else []) + Returned(ops[1..])
  }

  ghost function Waiting(queue: seq<nat>, ops: seq<Op>): (r: seq<nat>)
    decreases |ops|
  {
    if ops == [] then queue else
    match ops[0]
      case Take => Waiting(if queue == [] then [] else queue[1..], ops[1..])
      case Give(i) => Waiting(queue + [i], ops[1..])
  }

  lemma TakeOrder(queue: seq<nat>, issued: seq<nat>, waiting: seq<nat>, returned: seq<nat>)
    requires queue != [] && issued + waiting == queue[1..] + returned
    ensures ([queue[0]] + issued) + waiting == queue + returned
  {
    assert ([queue[0]] + issued) + waiting == [queue[0]] + (issued + waiting);
    assert [queue[0]] + (queue[1..] + returned) == queue + returned;
  }

  lemma GiveOrder(queue: seq<nat>, i: nat, all: seq<nat>, returned: seq<nat>)
    requires all == (queue + [i]) + returned
    ensures all == queue + ([i] + returned)
  {
  }

  /** First in, first out: what was issued and what still waits is what waited and what was returned, in order. */
  lemma {:induction false} InOrder(queue: seq<nat>, ops: seq<Op>)
    ensures Issued(queue, ops) + Waiting(queue, ops) == queue + Returned(ops)
    decreases |ops|
  {
    if ops == [] {
    } else {
      match ops[0] {
        case Take =>
          if queue == [] {
            InOrder([], ops[1..]);
          } else {
            InOrder(queue[1..], ops[1..]);
            TakeOrder(queue, Issued(queue[1..], ops[1..]), Waiting(queue[1..], ops[1..]), Returned(ops[1..]));
            assert Returned(ops) == Returned(ops[1..]);
          }
        case Give(i) =>
          InOrder(queue + [i], ops[1..]);
          GiveOrder(queue, i, Issued(queue, ops) + Waiting(queue, ops), Returned(ops[1..]));
      }
    }
  }

  /** After a node is given back, every node waiting at that moment is issued before it is, in its order. */
  lemma ReissuedLast(queue: seq<nat>, i: nat, ops: seq<Op>)
    ensures var issued := Issued(queue, [Give(i)] + ops);
            if |issued| <= |queue| then issued <= queue else issued[..|queue|] == queue && issued[|queue|] == i
  {
    var run := [Give(i)] + ops;
    var issued, waiting := Issued(queue, run), Waiting(queue, run);
    InOrder(queue, run);
    assert run[1..] == ops && Returned(run) == [i] + Returned(ops);
    var all := queue + ([i] + Returned(ops));
    assert issued + waiting == all;
    if |issued| <= |queue| {
      assert forall k :: 0 <= k < |issued| ==> issued[k] == (issued + waiting)[k] == all[k] == queue[k];
    } else {
      assert forall k :: 0 <= k <= |queue| ==> issued[k] == (issued + waiting)[k] == all[k];
      assert all[|queue|] == i;
    }
  }

  /** In every run the nodes stay split into live and waiting ones. */
  lemma {:induction false} RunKeeps(n: nat, queue: seq<nat>, live: set<nat>, ops: seq<Op>)
    requires Split(n, queue, live) && Proper(n, queue, ops)
    ensures var q := Waiting(queue, ops); Split(n, q, Upto(n) - Elements(q)) && |Upto(n) - Elements(q)| + |q| == n
    decreases |ops|
  {
    if ops == [] {
      Conservation(n, queue, live);
    } else {
      match ops[0] {
        case Take =>
          if queue == [] {
            RunKeeps(n, [], live, ops[1..]);
          } else {
            Handed(n, queue, live);
            RunKeeps(n, queue[1..], live + {queue[0]}, ops[1..]);
          }
        case Give(i) =>
          Given(n, queue, live, i);
          RunKeeps(n, queue + [i], live - {i}, ops[1..]);
      }
    }
  }

  // ---------------------------------------------------------------- random ids

  ghost function Ids(n: nat): (s: seq<nat>) {
    seq(n, i => i + 1)
  }

  ghost function Swapped(s: seq<nat>, i: nat, j: nat): (r: seq<nat>)
    requires i < |s| && j < |s|
    ensures |r| == |s| && multiset(r) == multiset(s)
  {
    s[i := s[j]][j := s[i]]
  }

  /** The place the random number for place `i` chooses. */
  ghost function Choice(random: nat -> nat, i: nat): (j: nat)
    ensures j <= i
  {
    random(i) % (i + 1)
  }

  /** What the shuffle from place `i` down makes of `s` with the given random numbers. */
  ghost function Shuffled(s: seq<nat>, random: nat -> nat, i: int): (r: seq<nat>)
    ensures |r| == |s|
    decreases i
  {
    if 0 < i < |s| then Shuffled(Swapped(s, i, Choice(random, i)), random, i - 1) else s
  }

  /** `ogs_pool_random_id_generate`: whatever the random numbers are, each id appears once. */
  method RandomIds(ids: array<nat>, random: nat -> nat)
    modifies ids
    ensures multiset(ids[..]) == multiset(Ids(ids.Length))
    ensures ids[..] == Shuffled(Ids(ids.Length), random, ids.Length - 1)
  {
    for i := 0 to ids.Length
      invariant forall k :: 0 <= k < i ==> ids[k] == k + 1
    {
      ids[i] := i + 1;
    }
    assert ids[..] == Ids(ids.Length);
    var i := ids.Length - 1;
    while i > 0
      invariant i < ids.Length
      invariant multiset(ids[..]) == multiset(Ids(ids.Length))
      invariant Shuffled(ids[..], random, i) == Shuffled(Ids(ids.Length), random, ids.Length - 1)
    {
      var j := random(i) % (i + 1);
      ghost var next := Swapped(ids[..], i, j);
      var temp := ids[i];
      ids[i] := ids[j];
      ids[j] := temp;
      assert ids[..] == next;
      i := i - 1;
    }
  }

  lemma {:induction false} Untouched(s: seq<nat>, random: nat -> nat, i: int, k: nat)
    requires i < k < |s|
    ensures Shuffled(s, random, i)[k] == s[k]
    decreases i
  {
    if 0 < i {
      Untouched(Swapped(s, i, Choice(random, i)), random, i - 1, k);
    }
  }

  /** The same choice at every place. */
  ghost predicate SameChoices(f: nat -> nat, g: nat -> nat, i: int) {
    forall k: nat {:trigger Choice(f, k)} {:trigger Choice(g, k)} :: 0 < k <= i ==> Choice(f, k) == Choice(g, k)
  }

  lemma ChoicesStep(f: nat -> nat, g: nat -> nat, i: nat)
    requires 0 < i
    ensures SameChoices(f, g, i) <==> Choice(f, i) == Choice(g, i) && SameChoices(f, g, i - 1)
  {
  }

  lemma SwappedDistinct(s: seq<nat>, i: nat, j: nat)
    requires Distinct(s) && i < |s| && j < |s|
    ensures Distinct(Swapped(s, i, j))
  {
  }

  /** Different choices make different rearrangements, so no rearrangement has more ways than another. */
  lemma {:induction false} ShuffledOnce(s: seq<nat>, f: nat -> nat, g: nat -> nat, i: int)
    requires Distinct(s) && i < |s|
    ensures Shuffled(s, f, i) == Shuffled(s, g, i) <==> SameChoices(f, g, i)
    decreases i
  {
    if 0 < i {
      ChoicesStep(f, g, i);
      var j := Choice(f, i);
      if j == Choice(g, i) {
        var s' := Swapped(s, i, j);
        SwappedDistinct(s, i, j);
        ShuffledOnce(s', f, g, i - 1);
        assert Shuffled(s, f, i) == Shuffled(s', f, i - 1) && Shuffled(s, g, i) == Shuffled(s', g, i - 1);
      } else {
        OtherChoice(s, f, g, i);
      }
    }
  }

  lemma OtherChoice(s: seq<nat>, f: nat -> nat, g: nat -> nat, i: nat)
    requires Distinct(s) && 0 < i < |s| && Choice(f, i) != Choice(g, i)
    ensures Shuffled(s, f, i) != Shuffled(s, g, i)
  {
    var j, k := Choice(f, i), Choice(g, i);
    Untouched(Swapped(s, i, j), f, i - 1, i);
    Untouched(Swapped(s, i, k), g, i - 1, i);
    assert Shuffled(s, f, i)[i] == s[j] && Shuffled(s, g, i)[i] == s[k];
    assert j < k || k < j;
  }

  /** Random numbers that choose `j` at place `i`, and otherwise as `g` does. */
  ghost function Extended(g: nat -> nat, i: nat, j: nat): (random: nat -> nat) {
    k => if k == i then j else g(k)
  }

  lemma ExtendedChoices(g: nat -> nat, i: nat, j: nat)
    requires j <= i
    ensures Choice(Extended(g, i, j), i) == j && SameChoices(Extended(g, i, j), g, i - 1)
  {
  }

  /** And every rearrangement has a way: some random numbers lead to it. */
  lemma {:induction false} ShuffledOnto(s: seq<nat>, p: seq<nat>, i: int) returns (random: nat -> nat)
    requires |p| == |s| && -1 <= i < |s| && Arranged(s, p, i + 1)
    ensures Shuffled(s, random, i) == p
    decreases i
  {
    if i <= 0 {
      random := k => 0;
      OnlyOne(s, p, i);
    } else {
      var j := WhereIs(s[..i + 1], p[..i + 1], i);
      var s' := Swapped(s, i, j);
      SwapsOut(s, p, i, j);
      var g := ShuffledOnto(s', p, i - 1);
      random := Extended(g, i, j);
      ExtendedChoices(g, i, j);
      SameShuffle(s', random, g, i - 1);
    }
  }

  /** The first `n` elements of `p` are those of `s` in some order, the others are the same. */
  ghost predicate Arranged(s: seq<nat>, p: seq<nat>, n: nat)
    requires |p| == |s| >= n
  {
    multiset(p[..n]) == multiset(s[..n]) && p[n..] == s[n..]
  }

  lemma OnlyOne(s: seq<nat>, p: seq<nat>, i: int)
    requires |p| == |s| && -1 <= i < |s| && i <= 0 && Arranged(s, p, i + 1)
    ensures p == s
  {
    assert p == p[..i + 1] + p[i + 1..] && s == s[..i + 1] + s[i + 1..];
    if i == 0 {
      assert p[..1] == [p[0]] && s[..1] == [s[0]];
      assert p[0] in multiset(p[..1]);
    }
  }

  lemma WhereIs(s: seq<nat>, p: seq<nat>, i: nat) returns (j: nat)
    requires multiset(p) == multiset(s) && i < |p|
    ensures j < |s| && s[j] == p[i]
  {
    assert p[i] in multiset(p);
    assert p[i] in s;
    j :| 0 <= j < |s| && s[j] == p[i];
  }

  lemma LastOut(a: seq<nat>, b: seq<nat>, i: nat)
    requires |a| == |b| == i + 1 && multiset(a) == multiset(b) && a[i] == b[i]
    ensures multiset(a[..i]) == multiset(b[..i])
  {
    assert a == a[..i] + [a[i]] && b == b[..i] + [b[i]];
    assert multiset(a[..i]) == multiset(a) - multiset{a[i]};
    assert multiset(b[..i]) == multiset(b) - multiset{b[i]};
  }

  /** Once the right element is at place `i`, the ones below it are to be arranged. */
  lemma SwapsOut(s: seq<nat>, p: seq<nat>, i: nat, j: nat)
    requires |p| == |s| && j <= i < |s| && s[j] == p[i] && Arranged(s, p, i + 1)
    ensures Arranged(Swapped(s, i, j), p, i)
  {
    var r := Swapped(s, i, j);
    assert r[..i + 1] == Swapped(s[..i + 1], i, j);
    LastOut(r[..i + 1], p[..i + 1], i);
    assert r[..i + 1][..i] == r[..i] && p[..i + 1][..i] == p[..i];
    assert r[i + 1..] == s[i + 1..];
    assert r[i..] == [r[i]] + r[i + 1..] && p[i..] == [p[i]] + p[i + 1..];
  }

  lemma {:induction false} SameShuffle(s: seq<nat>, f: nat -> nat, g: nat -> nat, i: int)
    requires SameChoices(f, g, i)
    ensures Shuffled(s, f, i) == Shuffled(s, g, i)
    decreases i
  {
    if 0 < i < |s| {
      SameShuffle(Swapped(s, i, Choice(f, i)), f, g, i - 1);
    }
  }

  /** So every arrangement of the ids can come out of the generator. */
  lemma AnyArrangement(p: seq<nat>, n: nat) returns (random: nat -> nat)
    requires multiset(p) == multiset(Ids(n))
    ensures p == Shuffled(Ids(n), random, n - 1)
  {
    assert |multiset(p)| == |p| && |multiset(Ids(n))| == n;
    assert p[..n] == p && Ids(n)[..n] == Ids(n);
    random := ShuffledOnto(Ids(n), p, n - 1);
  }

  /** A rearrangement of the ids gives each id from 1 to `n` to exactly one place. */
  lemma IdsOnce(s: seq<nat>, n: nat)
    requires multiset(s) == multiset(Ids(n))
    ensures |s| == n && Distinct(s)
    ensures forall id :: id in s <==> 1 <= id <= n
  {
    assert |multiset(s)| == |s| && |multiset(Ids(n))| == n;
    forall id ensures id in s <==> 1 <= id <= n {
      assert id in s <==> id in multiset(s);
      if 1 <= id <= n {
        assert Ids(n)[id - 1] == id;
      }
    }
    IdsCount(n);
    forall i, j | 0 <= i < j < |s| ensures s[i] != s[j] {
      if s[i] == s[j] {
        Twice(s, i, j);
      }
    }
  }

  lemma Twice(s: seq<nat>, i: nat, j: nat)
    requires i < j < |s| && s[i] == s[j]
    ensures multiset(s)[s[i]] >= 2
  {
    var a, b := s[..j], s[j..];
    assert s == a + b && a[i] == s[i] && b[0] == s[j];
    assert s[i] in multiset(a) && s[i] in multiset(b);
    assert multiset(s) == multiset(a) + multiset(b);
  }

  lemma {:induction false} IdsCount(n: nat)
    ensures forall id :: multiset(Ids(n))[id] <= 1
    ensures forall id :: id in multiset(Ids(n)) ==> id <= n
  {
    if n > 0 {
      IdsCount(n - 1);
      assert Ids(n) == Ids(n - 1) + [n];
    }
  }
}
