/**
  Building, rendering and parsing type-length-value messages with nodes from a pool.
*/
module TlvMessages {
  import opened Common
  import opened TlvModel
  import opened TlvTree
  import Pools

  const CLEARED := Cell(null, null, null, null, null, T1L1, 0, 0, 0, [])

  /** The pool's array of cleared nodes. */
  method MakeNodes(size: nat) returns (nodes: seq<Tlv>, ghost m: Mem)
    ensures |nodes| == size && Synced(m) && fresh(m.Keys)
    ensures forall i {:trigger nodes[i]} :: 0 <= i < size ==> nodes[i].slot == i && nodes[i] in m
    ensures forall x {:trigger x in m} :: x in m ==> x.slot < size && nodes[x.slot] == x
  {
    nodes, m := [], map[];
    for i := 0 to size
      invariant |nodes| == i && Synced(m) && fresh(m.Keys)
      invariant forall k {:trigger nodes[k]} :: 0 <= k < i ==> nodes[k].slot == k && nodes[k] in m
      invariant forall x {:trigger x in m} :: x in m ==> x.slot < i && nodes[x.slot] == x
    {
      var n := new Tlv(i);
      nodes := nodes + [n];
      m := m[n := CLEARED];
    }
  }

  ghost predicate Placed(nodes: seq<Tlv>, all: set<Tlv>, i: nat) {
    i < |nodes| ==> nodes[i].slot == i && nodes[i] in all
  }

  ghost predicate Found(nodes: seq<Tlv>, x: Tlv) {
    x.slot < |nodes| && nodes[x.slot] == x
  }

  /** Every node knows its place. */
  ghost predicate Known(nodes: seq<Tlv>, all: set<Tlv>) {
    && (forall i: nat {:trigger Placed(nodes, all, i)} :: Placed(nodes, all, i))
    && (forall x {:trigger Found(nodes, x)} :: x in all ==> Found(nodes, x))
  }

  ghost predicate Tallied(x: Tlv, used: set<Tlv>, live: set<nat>) {
    x in used <==> x.slot in live
  }

  /** The pool's live nodes are the ones handed out. */
  ghost predicate Matched(all: set<Tlv>, used: set<Tlv>, live: set<nat>) {
    used <= all && forall x {:trigger Tallied(x, used, live)} :: x in all ==> Tallied(x, used, live)
  }

  lemma Taken(nodes: seq<Tlv>, all: set<Tlv>, used: set<Tlv>, live: set<nat>, i: nat)
    requires Known(nodes, all) && Matched(all, used, live) && i < |nodes| && i !in live
    ensures nodes[i] in all && nodes[i] !in used && Matched(all, used + {nodes[i]}, live + {i})
  {
    var n := nodes[i];
    assert Placed(nodes, all, i) && Tallied(n, used, live);
    forall x {:trigger Tallied(x, used + {n}, live + {i})} | x in all ensures Tallied(x, used + {n}, live + {i}) {
      assert Tallied(x, used, live) && Found(nodes, x);
    }
  }

  lemma Freed(nodes: seq<Tlv>, all: set<Tlv>, used: set<Tlv>, live: set<nat>, x: Tlv)
    requires Known(nodes, all) && Matched(all, used, live) && x in used
    ensures x.slot in live && Matched(all, used - {x}, live - {x.slot})
  {
    assert x in all && Tallied(x, used, live) && Found(nodes, x);
    forall y {:trigger Tallied(y, used - {x}, live - {x.slot})} | y in all ensures Tallied(y, used - {x},
      live - {x.slot}) {
      assert Tallied(y, used, live) && Found(nodes, y);
    }
  }

  lemma Overwritten(m: Mem, x: Tlv, a: Cell, b: Cell)
    ensures m[x := a][x := b] == m[x := b]
  {
  }

  lemma KnownNodes(nodes: seq<Tlv>, all: set<Tlv>)
    requires forall i {:trigger nodes[i]} :: 0 <= i < |nodes| ==> nodes[i].slot == i && nodes[i] in all
    requires forall x {:trigger x in all} :: x in all ==> x.slot < |nodes| && nodes[x.slot] == x
    ensures Known(nodes, all) && Matched(all, {}, {})
  {
  }

  class TlvPool {
    const pool: Pools.Pool
    const nodes: seq<Tlv>
    ghost const all: set<Tlv>
    ghost var m: Mem
    /** The nodes handed out. */
    ghost var used: set<Tlv>

    /** The pool deals in the nodes, and its live ones are the used ones. */
    ghost predicate Dealing()
      reads `used, pool, pool.free, pool.index
    {
      pool.Valid() && |nodes| == pool.size && Known(nodes, all) && Matched(all, used, pool.live)
    }

    ghost predicate Valid()
      reads this, pool, pool.free, pool.index, m.Keys
    {
      Dealing() && m.Keys == all && Synced(m)
    }

    /** `ogs_tlv_init`. */
    constructor (size: nat)
      ensures Valid() && used == {} && pool.avail == size
      ensures fresh(pool) && fresh(pool.free) && fresh(pool.index) && fresh(m.Keys)
    {
      pool := new Pools.Pool(size);
      var ns, m0 := MakeNodes(size);
      nodes := ns;
      all := m0.Keys;
      m, used := m0, {};
      KnownNodes(ns, m0.Keys);
    }

    method ClearLinks(tlv: Tlv)
      requires Synced(m) && tlv in m
      modifies `m, m.Keys
      ensures Synced(m) && m.Keys == old(m.Keys)
      ensures m ==
              old(m)[tlv := old(m)[tlv].(head := null, tail := null, next := null, parent := null, embedded := null)]
    {
      tlv.head, tlv.tail, tlv.next, tlv.parent, tlv.embedded := null, null, null, null, null;
      m := m[tlv := m[tlv].(head := null, tail := null, next := null, parent := null, embedded := null)];
    }

    /** The fields that are read from, or written to, a block. */
    method SetFields(tlv: Tlv, mode: Mode, typ: nat, len: nat, inst: nat, value: seq<byte>)
      requires Synced(m) && tlv in m
      modifies `m, m.Keys
      ensures Synced(m) && m.Keys == old(m.Keys)
      ensures m == old(m)[tlv := old(m)[tlv].(mode := mode, typ := typ, len := len, inst := inst, value := value)]
    {
      tlv.mode, tlv.typ, tlv.len, tlv.inst, tlv.value := mode, typ, len, inst, value;
      m := m[tlv := m[tlv].(mode := mode, typ := typ, len := len, inst := inst, value := value)];
    }

    /** `memset` of a node. */
    method Clear(tlv: Tlv)
      requires Synced(m) && tlv in m
      modifies `m, m.Keys
      ensures Synced(m) && m == old(m)[tlv := CLEARED] && m.Keys == old(m.Keys)
    {
      ClearLinks(tlv);
      SetFields(tlv, T1L1, 0, 0, 0, []);
    }

    /** What the pool's order is does not matter here. */
    method Draw() returns (i: Pools.Node)
      requires pool.Valid()
      modifies pool, pool.free, pool.index
      ensures pool.Valid()
      ensures i.Null? ==> old(pool.avail) == pool.avail == 0 && pool.live == old(pool.live)
      ensures i.At? ==> i.i < pool.size && i.i !in old(pool.live)
      ensures i.At? ==> pool.live == old(pool.live) + {i.i} && pool.avail == old(pool.avail) - 1
    {
      i := pool.Alloc();
    }

    /** A node of the pool becomes used. */
    method Take() returns (tlv: Tlv?)
      requires Valid()
      modifies `used, pool, pool.free, pool.index
      ensures Valid()
      ensures tlv == null <==> old(pool.avail) == 0
      ensures tlv == null ==> used == old(used) && pool.avail == 0
      ensures tlv != null ==>
              tlv in m && tlv !in old(used) && used == old(used) + {tlv} && pool.avail == old(pool.avail) - 1
    {
      tlv := null;
      ghost var live := pool.live;
      var i := Draw();
      if i.At? {
        Taken(nodes, all, used, live, i.i);
        tlv := nodes[i.i];
        used := used + {tlv};
      }
    }

    /** `ogs_tlv_get`: a cleared node, or NULL when the pool is empty. */
    method Get() returns (tlv: Tlv?)
      requires Valid()
      modifies this, pool, pool.free, pool.index, m.Keys
      ensures Valid()
      ensures tlv == null <==> old(pool.avail) == 0
      ensures tlv == null ==> m == old(m) && used == old(used) && pool.avail == 0
      ensures tlv != null ==>
              tlv in old(m) && tlv !in old(used) && used == old(used) + {tlv} && pool.avail == old(pool.avail) - 1
      ensures tlv != null ==> m == old(m)[tlv := CLEARED]
      ensures m.Keys == old(m.Keys)
    {
      tlv := Take();
      if tlv != null {
        Clear(tlv);
      }
    }

    /** `ogs_tlv_free`. */
    method Free(tlv: Tlv)
      requires Valid() && tlv in used
      modifies `used, pool, pool.free, pool.index
      ensures Valid() && m == old(m) && used == old(used) - {tlv} && pool.avail == old(pool.avail) + 1
    {
      Freed(nodes, all, used, pool.live, tlv);
      pool.Free(tlv.slot);
      used := used - {tlv};
    }

    /** The nodes left to free, after one turn. */
    static lemma FreedSoFar(used0: set<Tlv>, used1: set<Tlv>, t: Tree, r: Tree)
      requires r.Cons? && Apart(r) && Refs(r) <= Refs(t) <= used0 && used1 == used0 - (Refs(t) - Refs(r))
      ensures var used2 := used1 - Refs(r.sub) - {r.node};
              Apart(r.next) && Refs(r.next) <= Refs(t) && Refs(r.next) <= used2 &&
                used2 == used0 - (Refs(t) - Refs(r.next))
    {
    }

    static lemma AllFreed(used0: set<Tlv>, t: Tree)
      ensures used0 - (Refs(t) - Refs(Nil)) == used0 - Refs(t)
    {
    }

    /** `ogs_tlv_free_all`: every node of the message, at every depth, goes back to the pool. */
    method FreeAll(root: Tlv?, ghost t: Tree)
      requires Valid() && Holds(m, t, root) && Apart(t) && Refs(t) <= used
      modifies `used, pool, pool.free, pool.index
      ensures Valid() && used == old(used) - Refs(t) && pool.avail == old(pool.avail) + Count(t)
      decreases Count(t), 2
    {
      var iter := root;
      ghost var r := t;
      while iter != null
        invariant Valid() && Holds(m, r, iter) && Apart(r) && Refs(r) <= used
        invariant Refs(r) <= Refs(t) && Count(r) <= Count(t)
        invariant used == old(used) - (Refs(t) - Refs(r)) && pool.avail + Count(r) == old(pool.avail) + Count(t)
        decreases Count(r)
      {
        ghost var used1 := used;
        iter := FreeFirst(iter, r);
        FreedSoFar(old(used), used1, t, r);
        r := r.next;
      }
      AllFreed(old(used), t);
    }

    method FreeEmbedded(iter: Tlv, ghost r: Tree)
      requires Valid() && Holds(m, r, iter) && Apart(r) && Refs(r) <= used
      modifies `used, pool, pool.free, pool.index
      ensures r.Cons? && Valid() && used == old(used) - Refs(r.sub) && pool.avail == old(pool.avail) + Count(r.sub)
      decreases Count(r), 0
    {
      if iter.embedded != null {
        FreeAll(iter.embedded, r.sub);
      } else {
        assert Holds(m, r.sub, null);
        assert used == used - Refs(r.sub);
      }
    }

    /** One turn: the embedded list and the node itself. */
    method FreeFirst(iter: Tlv, ghost r: Tree) returns (next: Tlv?)
      requires Valid() && Holds(m, r, iter) && Apart(r) && Refs(r) <= used
      modifies `used, pool, pool.free, pool.index
      ensures r.Cons? && Valid() && Holds(m, r.next, next)
      ensures used == old(used) - Refs(r.sub) - {r.node} && pool.avail == old(pool.avail) + 1 + Count(r.sub)
      decreases Count(r), 1
    {
      FreeEmbedded(iter, r);
      next := iter.next;
      Free(iter);
    }

    /** `ogs_tlv_calc_length`: the size of the message; embedding nodes get their length. */
    method CalcLength(tlv: Tlv?, ghost t: Tree) returns (length: nat)
      requires Synced(m) && Holds(m, t, tlv)
      modifies `m, m.Keys`len
      ensures Synced(m) && LenStep(old(m), m) && length == Size(Content(t))
      ensures Outside(old(m), m, Refs(t)) && (Apart(t) ==> LensRight(m, t))
      ensures tlv != null && old(Built(m, t, tlv)) ==> Built(m, t, tlv)
      decreases Count(t), 2
    {
      var iter := tlv;
      length := 0;
      ghost var r, m0 := t, m;
      while iter != null
        invariant Synced(m) && LenStep(m0, m) && Holds(m, r, iter)
        invariant length + Size(Content(r)) == Size(Content(t)) && Count(r) <= Count(t)
        invariant Outside(m0, m, Refs(t)) && Refs(r) <= Refs(t) && (Apart(t) ==> LensRightTo(m, t, r))
        modifies `m, m0.Keys`len
        decreases Count(r)
      {
        var n, next := FirstLength(iter, r, t);
        length := length + n;
        iter := next;
        r := r.next;
      }
      if Apart(t) {
        LensAll(m, t);
      }
      if tlv != null && Built(m0, t, tlv) {
        LenBuilt(m0, m, t, tlv);
      }
    }

    /** One turn: header and value of one node, after the nodes of `t` in front of it. */
    method FirstLength(iter: Tlv, ghost r: Tree, ghost t: Tree) returns (n: nat, next: Tlv?)
      requires Synced(m) && Holds(m, r, iter)
      modifies `m, m.Keys`len
      ensures Synced(m) && LenStep(old(m), m)
      ensures r.Cons? && n == HeaderSize(r.item.mode) + BodySize(Content(r)) && Holds(m, r.next, next)
      ensures Outside(old(m), m, {r.node} + Refs(r.sub))
      ensures Apart(t) && old(LensRightTo(m, t, r)) ==> LensRightTo(m, t, r.next)
      decreases Count(r), 1
    {
      ghost var m0 := m;
      n := HeaderSize(iter.mode);
      if iter.embedded != null {
        EmbeddedLength(iter, r);
      } else {
        assert Holds(m, r.sub, null);
      }
      LenHolds(m0, m, r, iter);
      n := n + iter.len;
      next := iter.next;
      if Apart(t) && LensRightTo(m0, t, r) {
        SuffixApart(m0, t, r);
        LensStep(m0, m, t, r);
      }
    }

    /** `iter->length = ogs_tlv_calc_length(iter->embedded)`. */
    method EmbeddedLength(iter: Tlv, ghost r: Tree)
      requires Synced(m) && Holds(m, r, iter) && iter.embedded != null
      modifies `m, m.Keys`len
      ensures r.Cons? && r.sub.Cons? && Synced(m) && LenStep(old(m), m) && m[iter].len == Size(Content(r.sub))
      ensures Outside(old(m), m, {r.node} + Refs(r.sub)) && (Apart(r) ==> LensRight(m, r.sub))
      decreases Count(r), 0
    {
      assert Holds(m, r.sub, iter.embedded);
      var len := CalcLength(iter.embedded, r.sub);
      ghost var m1 := m;
      SetLength(iter, len);
      if Apart(r) {
        LensFrame(m1, m, r.sub, {iter});
      }
    }

    method SetLength(tlv: Tlv, len: nat)
      requires Synced(m) && tlv in m && m[tlv].embedded != null
      modifies `m, tlv`len
      ensures Synced(m) && LenStep(old(m), m) && m[tlv].len == len && Outside(old(m), m, {tlv})
    {
      tlv.len := len;
      m := m[tlv := m[tlv].(len := len)];
    }

    /** `ogs_tlv_find_root`: the head of the top list. */
    method FindRoot(tlv: Tlv, ghost t: Tree, ghost top: Tlv) returns (root: Tlv)
      requires Synced(m) && Built(m, t, top) && tlv in Refs(t)
      ensures root == top
    {
      Climb(m, t, top, null, tlv);
      root := tlv.head;
      ghost var x := tlv;
      AllKnown(m, t, top, null);
      var parent := root.parent;
      while parent != null
        invariant x in Refs(t) && x in m && m[x].head == root && root in m && parent == m[root].parent
        decreases Depth(t, x)
      {
        Climb(m, t, top, null, x);
        Climb(m, t, top, null, parent);
        x := parent;
        root := parent.head;
        parent := root.parent;
      }
      Climb(m, t, top, null, x);
    }

    // ---------------------------------------------------------------- building

    /** A node from the pool with its fields, not yet linked. */
    method Make(mode: Mode, typ: nat, inst: nat, value: seq<byte>) returns (tlv: Tlv)
      requires Valid() && pool.avail > 0
      modifies this, pool, pool.free, pool.index, m.Keys
      ensures Valid() && tlv in old(m) && tlv !in old(used)
      ensures used == old(used) + {tlv} && pool.avail == old(pool.avail) - 1
      ensures m == old(m)[tlv := Cell(null, null, null, null, null, mode, typ, |value|, inst, value)]
      ensures m.Keys == old(m.Keys)
    {
      ghost var m0 := m;
      tlv := Get();
      SetFields(tlv, mode, typ, |value|, inst, value);
      Overwritten(m0, tlv, CLEARED, Cell(null, null, null, null, null, mode, typ, |value|, inst, value));
    }

    method SetEnds(tlv: Tlv, head: Tlv, tail: Tlv?, parent: Tlv?)
      requires Synced(m) && tlv in m
      modifies `m, m.Keys
      ensures Synced(m) && m.Keys == old(m.Keys)
      ensures m == old(m)[tlv := old(m)[tlv].(head := head, tail := tail, parent := parent)]
    {
      tlv.head, tlv.tail, tlv.parent := head, tail, parent;
      m := m[tlv := m[tlv].(head := head, tail := tail, parent := parent)];
    }

    /** `head->tail->next = new; head->tail = new`. */
    method HangBehind(h: Tlv, tlv: Tlv)
      requires Synced(m) && h in m && m[h].tail != null && m[h].tail in m
      modifies `m, m.Keys
      ensures Synced(m) && m.Keys == old(m.Keys) && m == MemHung(old(m), h, tlv)
    {
      LinkNext(h.tail, tlv);
      SetTail(h, tlv);
    }

    method SetTail(h: Tlv, tlv: Tlv)
      requires Synced(m) && h in m
      modifies `m, m.Keys
      ensures Synced(m) && m.Keys == old(m.Keys) && m == old(m)[h := old(m)[h].(tail := tlv)]
    {
      h.tail := tlv;
      m := m[h := m[h].(tail := tlv)];
    }

    method SetEmbedded(x: Tlv, tlv: Tlv)
      requires Synced(m) && x in m
      modifies `m, m.Keys
      ensures Synced(m) && m.Keys == old(m.Keys) && m == old(m)[x := old(m)[x].(embedded := tlv)]
    {
      x.embedded := tlv;
      m := m[x := m[x].(embedded := tlv)];
    }

    /** A new node that knows its head. */
    method MakeFor(h: Tlv, d: Item) returns (tlv: Tlv)
      requires Valid() && pool.avail > 0
      modifies this, pool, pool.free, pool.index, m.Keys
      ensures Valid() && tlv in old(m) && tlv !in old(used)
      ensures used == old(used) + {tlv} && pool.avail == old(pool.avail) - 1
      ensures m == old(m)[tlv := NewCell(h, null, null, d)] && m.Keys == old(m.Keys)
    {
      ghost var m0 := m;
      tlv := Make(d.mode, d.typ, d.inst, d.value);
      ghost var m1 := m;
      SetEnds(tlv, h, null, null);
      Overwritten(m0, tlv, m1[tlv], NewCell(h, null, null, d));
    }

    /** A new leaf holds what it was made for. */
    static ghost predicate Filled(tlv: Tlv, d: Item)
      reads tlv
    {
      && tlv.mode == d.mode && tlv.typ == d.typ && tlv.inst == d.inst
      && tlv.value == d.value && tlv.len == |d.value| && tlv.next == tlv.embedded == null
    }

    /** A new node at the end of the list that starts at `h`. */
    method MakeBehind(h: Tlv, d: Item) returns (tlv: Tlv)
      requires Valid() && pool.avail > 0 && h in used && m[h].tail != null && m[h].tail in used
      modifies this, pool, pool.free, pool.index, m.Keys
      ensures Valid() && tlv in old(m) && tlv !in old(used)
      ensures used == old(used) + {tlv} && pool.avail == old(pool.avail) - 1
      ensures m == MemAppended(old(m), h, tlv, d) && m.Keys == old(m.Keys)
      ensures Filled(tlv, d)
    {
      tlv := MakeFor(h, d);
      HangBehind(h, tlv);
    }

    /** A new node that is a list of its own. */
    method MakeAlone(parent: Tlv?, d: Item) returns (tlv: Tlv)
      requires Valid() && pool.avail > 0
      modifies this, pool, pool.free, pool.index, m.Keys
      ensures Valid() && tlv in old(m) && tlv !in old(used)
      ensures used == old(used) + {tlv} && pool.avail == old(pool.avail) - 1
      ensures m == old(m)[tlv := NewCell(tlv, tlv, parent, d)] && m.Keys == old(m.Keys)
      ensures Filled(tlv, d)
    {
      ghost var m0 := m;
      tlv := Make(d.mode, d.typ, d.inst, d.value);
      ghost var m1 := m;
      SetEnds(tlv, tlv, tlv, parent);
      Overwritten(m0, tlv, m1[tlv], NewCell(tlv, tlv, parent, d));
    }

    /** A new node that is the first one `parent` embeds. */
    method MakeNested(parent: Tlv, d: Item) returns (tlv: Tlv)
      requires Valid() && pool.avail > 0 && parent in used
      modifies this, pool, pool.free, pool.index, m.Keys
      ensures Valid() && tlv in old(m) && tlv !in old(used)
      ensures used == old(used) + {tlv} && pool.avail == old(pool.avail) - 1
      ensures m == MemNested(old(m), parent, tlv, d) && m.Keys == old(m.Keys)
      ensures Filled(tlv, d)
    {
      tlv := MakeAlone(parent, d);
      SetEmbedded(parent, tlv);
    }

    /** `ogs_tlv_add`: a new last element of the list that `head` is in, or a new message. */
    method Add(head: Tlv?, d: Item, ghost t: Tree, ghost top: Tlv?) returns (tlv: Tlv)
      requires Valid() && pool.avail > 0
      requires head != null ==> top != null && Built(m, t, top) && head in Refs(t) && Refs(t) <= used
      modifies this, pool, pool.free, pool.index, m.Keys
      ensures Valid() && tlv !in old(used) && used == old(used) + {tlv} && pool.avail == old(pool.avail) - 1
      ensures if head == null then Built(m, Cons(tlv, d, Nil, Nil), tlv) else Built(m, AddTo(t, head, tlv, d), top)
      ensures Agree(old(m), m, old(used) - Refs(t))
      ensures tlv.mode == d.mode && tlv.typ == d.typ && tlv.inst == d.inst
      ensures tlv.value == d.value && tlv.len == |d.value| && tlv.next == tlv.embedded == null
    {
      ghost var m0 := m;
      if head == null {
        tlv := MakeAlone(null, d);
        NewBuilt(m0, tlv, d);
      } else {
        Whereabouts(m, t, top, null, head);
        AllKnown(m, t, top, null);
        var h := head.head;
        tlv := MakeBehind(h, d);
        assert Filled(tlv, d);
        AddBuilt(m0, t, top, head, tlv, d);
        AppendedAgree(m0, h, tlv, d, old(used) - Refs(t));
      }
    }

    /** `ogs_tlv_embed`: a new last element of the list that `parent` embeds. */
    method Embed(parent: Tlv, d: Item, ghost t: Tree, ghost top: Tlv) returns (tlv: Tlv)
      requires Valid() && pool.avail > 0
      requires Built(m, t, top) && parent in Refs(t) && Refs(t) <= used
      modifies this, pool, pool.free, pool.index, m.Keys
      ensures Valid() && tlv !in old(used) && used == old(used) + {tlv} && pool.avail == old(pool.avail) - 1
      ensures Built(m, EmbedIn(t, parent, tlv, d), top)
      ensures Agree(old(m), m, old(used) - Refs(t))
      ensures tlv.mode == d.mode && tlv.typ == d.typ && tlv.inst == d.inst
      ensures tlv.value == d.value && tlv.len == |d.value| && tlv.next == tlv.embedded == null
    {
      ghost var m0 := m;
      EmbeddedInside(m, t, top, top, null, parent);
      AllKnown(m, t, top, null);
      if parent.embedded == null {
        tlv := MakeNested(parent, d);
      } else {
        tlv := MakeBehind(parent.embedded, d);
      }
      EmbedBuilt(m0, t, top, parent, tlv, d);
      EmbeddedAgree(m0, parent, tlv, d, old(used) - Refs(t));
    }

    // --------------------------------------------------------------- rendering

    /** Writes `s` at `pos`; nothing else changes. */
    static method Put(data: array<byte>, pos: nat, s: seq<byte>) returns (next: nat)
      requires pos + |s| <= data.Length
      modifies data
      ensures next == pos + |s| && data[..next] == old(data[..pos]) + s
      ensures forall i :: next <= i < data.Length ==> data[i] == old(data[i])
    {
      next := pos;
      while next < pos + |s|
        invariant pos <= next <= pos + |s|
        invariant data[..next] == old(data[..pos]) + s[..next - pos]
        invariant forall i :: next <= i < data.Length ==> data[i] == old(data[i])
      {
        data[next] := s[next - pos];
        next := next + 1;
      }
    }

    /** `ogs_tlv_render`: writes the bytes of the message, and no others; its bound check never fails. */
    method Render(root: Tlv?, data: array<byte>, at: nat, length: nat, ghost t: Tree) returns (n: nat)
      requires Synced(m) && Holds(m, t, root)
      requires Size(Content(t)) <= length && at + length <= data.Length
      modifies data, `m, m.Keys`len
      ensures Synced(m) && LenStep(old(m), m)
      ensures root != null && old(Built(m, t, root)) ==> Built(m, t, root)
      ensures n == Size(Content(t)) && data[..at + n] == old(data[..at]) + Bytes(Content(t))
      ensures forall i :: at + n <= i < data.Length ==> data[i] == old(data[i])
      decreases Count(t), 4
    {
      var curr, pos := root, at;
      ghost var r, m0 := t, m;
      while curr != null
        invariant at <= pos && Synced(m) && LenStep(m0, m) && Holds(m, r, curr) && Count(r) <= Count(t)
        invariant pos - at + Size(Content(r)) == Size(Content(t))
        invariant data[..pos] + Bytes(Content(r)) == old(data[..at]) + Bytes(Content(t))
        invariant forall i :: pos <= i < data.Length ==> data[i] == old(data[i])
        modifies data, `m, m0.Keys`len
        decreases Count(r)
      {
        ghost var before := data[..pos];
        curr, pos := RenderFirst(curr, data, at, pos, length, r);
        NextBytes(before, r);
        r := r.next;
      }
      n := pos - at;
      if root != null && Built(m0, t, root) {
        LenBuilt(m0, m, t, root);
      }
    }

    /** What is rendered first of a message is what its first node holds. */
    static lemma FrontOnWire(m: Mem, t: Tree, root: Tlv)
      requires Holds(m, t, root)
      ensures root in m && m[root].mode == Content(t).mode
      ensures var s, c, body := Bytes(Content(t)), m[root], |Body(Content(t))|;
        && (c.embedded == null ==> Body(Content(t)) == c.value && body == c.len)
        && match c.mode
           case T1L1 => s[0] == c.typ % 256 && s[1] == body % 256 && Body(Content(t)) <= s[2..]
           case T1L2 =>
             && s[0] == c.typ % 256 && s[1] as int * 256 + s[2] as int == body % 65536
             && Body(Content(t)) <= s[3..]
           case T1L2I1 =>
             && s[0] == c.typ % 256 && s[1] as int * 256 + s[2] as int == body % 65536 && s[3] == c.inst % 256
             && Body(Content(t)) <= s[4..]
           case T2L2 =>
             && s[0] as int * 256 + s[1] as int == c.typ % 65536
             && s[2] as int * 256 + s[3] as int == body % 65536 && Body(Content(t)) <= s[4..]
           case T1 => s[0] == c.typ % 256 && Body(Content(t)) <= s[1..]
    {
      WireRendered(Content(t));
      if m[root].embedded == null {
        assert t.sub.Nil? by {
          assert Holds(m, t.sub, null);
        }
      }
    }

    static lemma NextBytes(before: seq<byte>, r: Tree)
      requires r.Cons?
      ensures before + Bytes(Content(r)) == before + FirstBytes(r) + Bytes(Content(r.next))
      ensures Size(Content(r)) == |FirstBytes(r)| + Size(Content(r.next))
    {
    }

    /** The bytes of the first element. */
    static ghost function FirstBytes(r: Tree): (s: seq<byte>)
      requires r.Cons?
    {
      Header(r.item.mode, r.item.typ, BodySize(Content(r)), r.item.inst) + Body(Content(r))
    }

    static lemma NestedBytes(before: seq<byte>, r: Tree)
      requires r.Cons? && r.sub.Cons?
      ensures before + Header(r.item.mode, r.item.typ, Size(Content(r.sub)), r.item.inst) + Bytes(Content(r.sub)) ==
              before + FirstBytes(r)
    {
    }

    /** One turn: one element. */
    method RenderFirst(curr: Tlv, data: array<byte>, at: nat, from: nat, length: nat, ghost r: Tree)
      returns (next: Tlv?, pos: nat)
      requires Synced(m) && Holds(m, r, curr) && at <= from
      requires from - at + Size(Content(r)) <= length && at + length <= data.Length
      modifies data, `m, m.Keys`len
      ensures Synced(m) && LenStep(old(m), m) && r.Cons? && Holds(m, r.next, next)
      ensures pos == from + |FirstBytes(r)| <= data.Length
      ensures data[..pos] == old(data[..from]) + FirstBytes(r) && forall i :: pos <= i < data.Length ==>
              data[i] == old(data[i])
      decreases Count(r), 3
    {
      if curr.embedded == null {
        pos := RenderLeaf(curr, data, at, from, length, r);
      } else {
        pos := RenderNested(curr, data, at, from, length, r);
      }
      next := curr.next;
    }

    /** The header of a leaf. */
    static method PutHeader(data: array<byte>, pos: nat, mode: Mode, typ: nat, len: nat, inst: nat) returns (next: nat)
      requires pos + HeaderSize(mode) <= data.Length
      modifies data
      ensures next == pos + HeaderSize(mode) && data[..next] == old(data[..pos]) + Header(mode, typ, len, inst)
      ensures forall i :: next <= i < data.Length ==> data[i] == old(data[i])
    {
      next := Put(data, pos, TypeField(mode, typ));
      next := Put(data, next, LengthField(mode, len));
      next := Put(data, next, InstanceField(mode, inst));
    }

    method RenderLeaf(curr: Tlv, data: array<byte>, at: nat, from: nat, length: nat, ghost r: Tree) returns (pos: nat)
      requires Synced(m) && Holds(m, r, curr) && at <= from && curr.embedded == null
      requires from - at + Size(Content(r)) <= length && at + length <= data.Length
      modifies data
      ensures r.Cons? && pos == from + |FirstBytes(r)| <= data.Length
      ensures data[..pos] == old(data[..from]) + FirstBytes(r) && forall i :: pos <= i < data.Length ==>
              data[i] == old(data[i])
    {
      assert Holds(m, r.sub, null);
      NextBytes([], r);
      pos := PutHeader(data, from, curr.mode, curr.typ, curr.len, curr.inst);
      assert pos - at + curr.len <= length;
      pos := Put(data, pos, curr.value);
    }

    /** The header of an embedding node, with the length computed for it. */
    method RenderHeader(curr: Tlv, data: array<byte>, from: nat, ghost r: Tree) returns (pos: nat, len: nat)
      requires Synced(m) && Holds(m, r, curr) && curr.embedded != null
      requires r.Cons? && from + HeaderSize(r.item.mode) <= data.Length
      modifies data, `m, m.Keys`len
      ensures Synced(m) && LenStep(old(m), m) && Holds(m, r, curr) && r.sub.Cons? && len == Size(Content(r.sub))
      ensures pos == from + HeaderSize(r.item.mode) && forall i :: pos <= i < data.Length ==> data[i] == old(data[i])
      ensures data[..pos] == old(data[..from]) + Header(r.item.mode, r.item.typ, len, r.item.inst)
      decreases Count(r), 1
    {
      ghost var m0 := m;
      assert Holds(m, r.sub, curr.embedded);
      pos := Put(data, from, TypeField(curr.mode, curr.typ));
      len := CalcLength(curr.embedded, r.sub);
      LenHolds(m0, m, r, curr);
      pos := Put(data, pos, LengthField(curr.mode, len));
      pos := Put(data, pos, InstanceField(curr.mode, curr.inst));
    }

    method RenderNested(curr: Tlv, data: array<byte>, at: nat, from: nat, length: nat, ghost r: Tree) returns (pos: nat)
      requires Synced(m) && Holds(m, r, curr) && at <= from && curr.embedded != null
      requires from - at + Size(Content(r)) <= length && at + length <= data.Length
      modifies data, `m, m.Keys`len
      ensures Synced(m) && LenStep(old(m), m) && r.Cons? && Holds(m, r, curr)
      ensures pos == from + |FirstBytes(r)| <= data.Length
      ensures data[..pos] == old(data[..from]) + FirstBytes(r) && forall i :: pos <= i < data.Length ==>
              data[i] == old(data[i])
      decreases Count(r), 2
    {
      var len;
      pos, len := RenderHeader(curr, data, from, r);
      NextBytes([], r);
      ghost var m1 := m;
      NestedBytes(old(data[..from]), r);
      var n := Render(curr.embedded, data, pos, length - (pos - at), r.sub);
      assert data[..pos + n] == old(data[..from]) + FirstBytes(r);
      pos := pos + len;
      LenHolds(m1, m, r, curr);
    }

    // ----------------------------------------------------------------- parsing

    /** `tlv_get_element`: the fields of the element at `pos`; the result is where the next one starts. */
    method GetElement(tlv: Tlv, data: seq<byte>, pos: nat, mode: Mode) returns (next: nat)
      requires Synced(m) && tlv in m && m[tlv].inst == 0 && pos + HeaderSize(mode) <= |data|
      modifies `m, m.Keys
      ensures Synced(m) && m.Keys == old(m.Keys)
      ensures next == NextAt(mode, data, pos)
      ensures var f := ElementAt(mode, data, pos);
              m == old(m)[tlv := old(m)[tlv].(mode := mode, typ := f.typ, len := LengthAt(mode, data[pos..]),
                inst := f.inst, value := f.value)]
    {
      var at := data[pos..];
      var typ, len, inst := 0, 0, tlv.inst;
      match mode {
        case T1L1 =>
          typ := at[0];
          len := at[1];
        case T1L2 =>
          typ := at[0];
          len := Pair(at[1], at[2]);
        case T1L2I1 =>
          typ := at[0];
          len := Pair(at[1], at[2]);
          inst := at[3] % 16;
        case T2L2 =>
          typ := Pair(at[0], at[1]);
          len := Pair(at[2], at[3]);
        case T1 =>
          typ := at[0];
          len := 0;
      }
      var start := pos + HeaderSize(mode);
      SetFields(tlv, mode, typ, len, inst, Slice(data, start, len));
      next := start + len;
    }

    method LinkNext(prev: Tlv, tlv: Tlv)
      requires Synced(m) && prev in m
      modifies `m, m.Keys
      ensures Synced(m) && m.Keys == old(m.Keys) && m == old(m)[prev := old(m)[prev].(next := tlv)]
    {
      prev.next := tlv;
      m := m[prev := m[prev].(next := tlv)];
    }

    /** The nodes of the elements read so far, and what they leave of the pool. */
    ghost predicate Parsing(m0: Mem, used0: set<Tlv>, avail0: nat, mode: Mode, t: Tree, fs: seq<Flat>, root: Tlv,
                            curr: Tlv)
      reads this, pool, pool.free, pool.index, m.Keys
    {
      Valid() && ListIs(m, mode, t, fs, root, curr) && Since(m0, used0, m, used, t) && pool.avail + |fs| == avail0
    }

    /** The nodes from `root` to `curr` are linked and hold the elements. */
    static ghost predicate ListIs(m: Mem, mode: Mode, t: Tree, fs: seq<Flat>, root: Tlv, curr: Tlv) {
      t.Cons? && Holds(m, t, root) && Apart(t) && Last(t) == curr && Content(t) == Message(mode, fs)
    }

    /** Only the nodes of `t` have come into use, and no node in use before has changed. */
    static ghost predicate Since(m0: Mem, used0: set<Tlv>, m: Mem, used: set<Tlv>, t: Tree) {
      Refs(t) !! used0 && used == used0 + Refs(t) && m.Keys == m0.Keys && Agree(m0, m, used0)
    }

    /** A new node with the fields of the element at `pos`. */
    method GetFilled(data: seq<byte>, pos: nat, mode: Mode) returns (curr: Tlv?, next: nat)
      requires Valid() && (pool.avail > 0 ==> pos + HeaderSize(mode) <= |data|)
      modifies this, pool, pool.free, pool.index, m.Keys
      ensures Valid() && (curr == null <==> old(pool.avail) == 0)
      ensures curr == null ==> used == old(used) && pool.avail == 0 && m == old(m)
      ensures curr != null ==> next == NextAt(mode, data, pos) && curr in old(m) && curr !in old(used)
      ensures curr != null ==> used == old(used) + {curr} && pool.avail == old(pool.avail) - 1
      ensures curr != null ==> m == old(m)[curr := FilledCell(mode, ElementAt(mode, data, pos))]
    {
      ghost var m0 := m;
      next := pos;
      curr := Get();
      if curr != null {
        next := GetElement(curr, data, pos, mode);
        Overwritten(m0, curr, CLEARED, FilledCell(mode, ElementAt(mode, data, pos)));
      }
    }

    /** What a node holds once it is parsed. */
    static ghost function FilledCell(mode: Mode, f: Flat): (c: Cell) {
      CLEARED.(mode := mode, typ := f.typ, len := |f.value|, inst := f.inst, value := f.value)
    }

    /** The element at `pos` becomes the first node. */
    method ParseFirst(data: seq<byte>, pos: nat, mode: Mode) returns (curr: Tlv?, next: nat, ghost t: Tree)
      requires Valid() && (pool.avail > 0 ==> pos + HeaderSize(mode) <= |data|)
      modifies this, pool, pool.free, pool.index, m.Keys
      ensures Valid() && (curr == null <==> old(pool.avail) == 0)
      ensures curr == null ==> used == old(used) && pool.avail == 0 && m == old(m)
      ensures curr != null ==> next == NextAt(mode, data, pos)
      ensures curr != null ==>
              Parsing(old(m), old(used), old(pool.avail), mode, t, [ElementAt(mode, data, pos)], curr, curr)
    {
      curr, next := GetFilled(data, pos, mode);
      t := Nil;
      if curr != null {
        ghost var f := ElementAt(mode, data, pos);
        t := Cons(curr, ItemOf(mode, f), Nil, Nil);
        FirstHolds(m, curr, mode, f);
      }
    }

    static lemma FirstHolds(m1: Mem, curr: Tlv, mode: Mode, f: Flat)
      requires NodeHolds(m1, curr, ItemOf(mode, f), true) && m1[curr].next == null && m1[curr].embedded == null
      ensures ListIs(m1, mode, Cons(curr, ItemOf(mode, f), Nil, Nil), [f], curr, curr)
    {
      assert Holds(m1, Nil, null);
      assert [f][1..] == [];
    }

    /** A new node behind `prev`. */
    method GetBehind(prev: Tlv) returns (curr: Tlv?)
      requires Valid() && prev in used
      modifies this, pool, pool.free, pool.index, m.Keys
      ensures Valid() && (curr == null <==> old(pool.avail) == 0)
      ensures curr == null ==> used == old(used) && pool.avail == 0 && m == old(m)
      ensures curr != null ==>
              curr in old(m) && curr !in old(used) && used == old(used) + {curr} && pool.avail == old(pool.avail) - 1
      ensures curr != null ==>
              m == old(m)[curr := CLEARED][prev := old(m)[prev].(next := curr)] && m.Keys == old(m.Keys)
    {
      curr := Get();
      if curr != null {
        LinkNext(prev, curr);
      }
    }

    static ghost function MemGrown(m: Mem, prev: Tlv, n: Tlv, mode: Mode, f: Flat): (m': Mem)
      requires prev in m
    {
      m[prev := m[prev].(next := n)][n := FilledCell(mode, f)]
    }

    static lemma GrownIs(m0: Mem, m2: Mem, prev: Tlv, n: Tlv, mode: Mode, f: Flat)
      requires prev in m0 && prev != n && m2 == m0[n := CLEARED][prev := m0[prev].(next := n)]
      ensures MemGrown(m0, prev, n, mode, f) ==
              m2[n := m2[n].(mode := mode, typ := f.typ, len := |f.value|, inst := f.inst, value := f.value)]
    {
    }

    /** A new node behind `prev`, with the fields of the element at `pos`. */
    method Grow(prev: Tlv, data: seq<byte>, pos: nat, mode: Mode) returns (curr: Tlv?, next: nat)
      requires Valid() && (pool.avail > 0 ==> pos + HeaderSize(mode) <= |data|) && prev in used
      modifies this, pool, pool.free, pool.index, m.Keys
      ensures Valid() && (curr == null <==> old(pool.avail) == 0)
      ensures curr == null ==> used == old(used) && pool.avail == 0 && m == old(m)
      ensures curr != null ==> next == NextAt(mode, data, pos) && curr in old(m) && curr !in old(used)
      ensures curr != null ==> used == old(used) + {curr} && pool.avail == old(pool.avail) - 1 && m.Keys == old(m.Keys)
      ensures curr != null ==> m == MemGrown(old(m), prev, curr, mode, ElementAt(mode, data, pos))
    {
      ghost var m0 := m;
      next := pos;
      curr := GetBehind(prev);
      if curr != null {
        GrownIs(m0, m, prev, curr, mode, ElementAt(mode, data, pos));
        next := GetElement(curr, data, pos, mode);
      }
    }

    static lemma GrownHolds(m0: Mem, mode: Mode, t: Tree, fs: seq<Flat>, root: Tlv, prev: Tlv, n: Tlv, f: Flat, m1: Mem,
                            t1: Tree)
      requires ListIs(m0, mode, t, fs, root, prev) && n !in Refs(t) && prev in m0
      requires m1 == MemGrown(m0, prev, n, mode, f) && t1 == Append(t, n, ItemOf(mode, f))
      ensures ListIs(m1, mode, t1, fs + [f], root, n)
    {
      ParsedMore(m0, m1, t, root, n, ItemOf(mode, f));
      ContentMore(mode, t, fs, n, f);
    }

    static lemma GrownSince(m0: Mem, used0: set<Tlv>, m1: Mem, used1: set<Tlv>, t: Tree, prev: Tlv, n: Tlv, mode: Mode,
                            f: Flat,
                            m2: Mem, used2: set<Tlv>)
      requires Since(m0, used0, m1, used1, t) && prev in Refs(t) && prev in m1 && n !in used1 && n in m1
      requires m2 == MemGrown(m1, prev, n, mode, f) && used2 == used1 + {n}
      ensures Since(m0, used0, m2, used2, Append(t, n, ItemOf(mode, f)))
    {
      assert m2.Keys == m1.Keys;
    }

    /** The element at `pos` becomes the next node. */
    method ParseNext(prev: Tlv, data: seq<byte>, pos: nat, mode: Mode, ghost m0: Mem, ghost used0: set<Tlv>,
                     ghost avail0: nat,
                     ghost t: Tree, ghost fs: seq<Flat>, ghost root: Tlv) returns (curr: Tlv?, next: nat,
                       ghost t': Tree, ghost fs': seq<Flat>)
      requires Parsing(m0, used0, avail0, mode, t, fs, root, prev)
      requires pool.avail > 0 ==> pos + HeaderSize(mode) <= |data|
      modifies this, pool, pool.free, pool.index, m.Keys
      ensures curr == null <==> old(pool.avail) == 0
      ensures curr == null ==>
              t' == t && fs' == fs && Parsing(m0, used0, avail0, mode, t, fs, root, prev) && pool.avail == 0
      ensures curr != null ==> next == NextAt(mode, data, pos) && fs' == fs + [ElementAt(mode, data, pos)]
      ensures curr != null ==> Parsing(m0, used0, avail0, mode, t', fs', root, curr)
      ensures curr != null ==> pool.avail == old(pool.avail) - 1
    {
      ghost var m1, used1 := m, used;
      assert prev in Refs(t);
      curr, next := Grow(prev, data, pos, mode);
      t', fs' := t, fs;
      if curr != null {
        ghost var f := ElementAt(mode, data, pos);
        t', fs' := Append(t, curr, ItemOf(mode, f)), fs + [f];
        GrownHolds(m1, mode, t, fs, root, prev, curr, f, m, t');
        GrownSince(m0, used0, m1, used1, t, prev, curr, mode, f, m, used);
      }
    }

    /**
      What is still to be read, from `pos` on: as much of `extent` as there are nodes
      for; `end` is how far the parser has read.
    */
    static ghost predicate ToRead(mode: Mode, data: seq<byte>, pos: nat, length: nat, avail: nat, end: nat,
                                  extent: nat) {
      extent <= |data| && extent == if pos < length && avail > 0 then ReadEnd(mode, data, pos, length, avail) else end
    }

    /** Where the loop of `ogs_tlv_parse_block` is. */
    ghost predicate Looping(m0: Mem, used0: set<Tlv>, avail0: nat, mode: Mode, block: seq<byte>, data: seq<byte>,
                            t: Tree, fs: seq<Flat>, root: Tlv, curr: Tlv, pos: nat, end: nat, extent: nat)
      reads this, pool, pool.free, pool.index, m.Keys
    {
      && Parsing(m0, used0, avail0, mode, t, fs, root, curr) && Progress(mode, block, pos, fs)
      && ToRead(mode, data, pos, |block|, pool.avail, end, extent)
    }

    static lemma CanRead(mode: Mode, data: seq<byte>, pos: nat, length: nat, avail: nat, end: nat, extent: nat)
      requires pos < length && ToRead(mode, data, pos, length, avail, end, extent)
      ensures if avail > 0 then pos + HeaderSize(mode) <= |data| else end == extent
    {
    }

    /** What one turn does to the progress and to what is still to be read. */
    static lemma TurnStep(mode: Mode, block: seq<byte>, data: seq<byte>, pos: nat, fs: seq<Flat>, avail: nat,
                          end: nat, extent: nat, next: nat, fs': seq<Flat>, avail': nat, end': nat)
      requires block <= data && pos < |block| && pos + HeaderSize(mode) <= |data|
      requires Progress(mode, block, pos, fs) && ToRead(mode, data, pos, |block|, avail, end, extent)
      requires next == NextAt(mode, data, pos) && fs' == fs + [ElementAt(mode, data, pos)]
      requires avail == avail' + 1 && end' == pos + HeaderSize(mode)
      ensures pos < next && Progress(mode, block, next, fs')
      ensures ToRead(mode, data, next, |block|, avail', end', extent)
    {
      ProgressStep(mode, block, data, pos, fs);
    }

    /** One turn of the loop. */
    method ParseTurn(prev: Tlv, data: seq<byte>, pos: nat, mode: Mode, ghost m0: Mem, ghost used0: set<Tlv>,
                     ghost avail0: nat, ghost block: seq<byte>, ghost t: Tree, ghost fs: seq<Flat>, ghost root: Tlv,
                     ghost end: nat, ghost extent: nat)
      returns (curr: Tlv?, next: nat, ghost t': Tree, ghost fs': seq<Flat>, ghost end': nat)
      requires Looping(m0, used0, avail0, mode, block, data, t, fs, root, prev, pos, end, extent)
      requires pos < |block| && block <= data
      modifies this, pool, pool.free, pool.index, m.Keys
      ensures curr != null ==>
              pos < next && Looping(m0, used0, avail0, mode, block, data, t', fs', root, curr, next, end', extent)
      ensures curr == null ==>
              t' == t && fs' == fs && Parsing(m0, used0, avail0, mode, t, fs, root, prev) && pool.avail == 0
      ensures curr == null ==> end' == extent
    {
      end' := end;
      ghost var avail := pool.avail;
      CanRead(mode, data, pos, |block|, avail, end, extent);
      curr, next, t', fs' := ParseNext(prev, data, pos, mode, m0, used0, avail0, t, fs, root);
      if curr != null {
        end' := pos + HeaderSize(mode);
        TurnStep(mode, block, data, pos, fs, avail, end, extent, next, fs', pool.avail, end');
      }
    }

    /** The loop of `ogs_tlv_parse_block`. */
    method ParseLoop(first: Tlv, data: seq<byte>, from: nat, length: nat, mode: Mode, ghost m0: Mem,
                     ghost used0: set<Tlv>, ghost avail0: nat, ghost t0: Tree, ghost fs0: seq<Flat>, ghost end0: nat,
                     ghost extent: nat)
      returns (curr: Tlv?, pos: nat, ghost t: Tree, ghost fs: seq<Flat>, ghost last: Tlv, ghost end: nat)
      requires length <= |data|
      requires Looping(m0, used0, avail0, mode, data[..length], data, t0, fs0, first, first, from, end0, extent)
      modifies this, pool, pool.free, pool.index, m.Keys
      ensures m.Keys == m0.Keys && Parsing(m0, used0, avail0, mode, t, fs, first, last) && end == extent
      ensures curr != null ==> length <= pos && Progress(mode, data[..length], pos, fs)
      ensures curr == null ==> pool.avail == 0 && pos < length && Progress(mode, data[..length], pos, fs)
    {
      curr, pos, t, fs, last, end := first, from, t0, fs0, first, end0;
      var prev := first;
      while pos < length
        invariant Looping(m0, used0, avail0, mode, data[..length], data, t, fs, first, last, pos, end, extent)
        invariant curr == prev == last
        decreases length - pos
      {
        var next;
        curr, next, t, fs, end := ParseTurn(prev, data, pos, mode, m0, used0, avail0, data[..length], t, fs, first,
          end, extent);
        if curr == null {
          return;
        }
        pos, last, prev := next, curr, curr;
      }
    }

    /** Gives a partly parsed block back. */
    method GiveUp(first: Tlv, mode: Mode, ghost m0: Mem, ghost used0: set<Tlv>, ghost avail0: nat, ghost t: Tree,
                  ghost fs: seq<Flat>, ghost last: Tlv)
      requires Parsing(m0, used0, avail0, mode, t, fs, first, last)
      modifies this, pool, pool.free, pool.index
      ensures Valid() && used == used0 && pool.avail == avail0 && Agree(m0, m, used0) && m == old(m)
    {
      FlatCount(mode, t, fs);
      FreeAll(first, t);
    }

    /** What a block must be to be accepted with `avail` nodes in the pool. */
    static ghost predicate Accepted(mode: Mode, block: seq<byte>, avail: nat) {
      Parsed(mode, block).Some? && |Parsed(mode, block).value| <= avail
    }

    static lemma NotEnough(mode: Mode, block: seq<byte>, pos: nat, fs: seq<Flat>)
      requires pos < |block| && Progress(mode, block, pos, fs)
      ensures !Accepted(mode, block, |fs|)
    {
      if Parsed(mode, block[pos..]).Some? {
        AcceptedIsWhole(mode, block[pos..]);
      }
    }

    static lemma NeedsOne(mode: Mode, block: seq<byte>)
      ensures !Accepted(mode, block, 0)
    {
      if Parsed(mode, block).Some? {
        AcceptedIsWhole(mode, block);
      }
    }

    /** Up to the loop of `ogs_tlv_parse_block`. */
    method ParseStart(data: seq<byte>, mode: Mode, ghost length: nat) returns (curr: Tlv?, next: nat, ghost t: Tree)
      requires Valid() && length <= |data| && Extent(mode, data, length, pool.avail) <= |data|
      modifies this, pool, pool.free, pool.index, m.Keys
      ensures Valid() && (curr == null <==> old(pool.avail) == 0)
      ensures curr == null ==> used == old(used) && pool.avail == 0 && m == old(m)
      ensures curr != null ==> HeaderSize(mode) <= |data|
      ensures curr != null ==>
              Looping(old(m), old(used), old(pool.avail), mode, data[..length], data, t, [ElementAt(mode, data, 0)],
                      curr, curr, next, HeaderSize(mode), Extent(mode, data, length, old(pool.avail)))
    {
      ghost var avail := pool.avail;
      CanStart(mode, data, length, avail);
      curr, next, t := ParseFirst(data, 0, mode);
      if curr != null {
        StartProgress(mode, data[..length], data, avail, next, pool.avail, Extent(mode, data, length, avail));
      }
    }

    /** `ogs_tlv_parse_block` up to what the fields of the first node are. */
    method ParseWhole(length: nat, data: seq<byte>, mode: Mode) returns (root: Tlv?, ghost t: Tree, ghost end: nat)
      requires Valid() && length <= |data| && Extent(mode, data, length, pool.avail) <= |data|
      modifies this, pool, pool.free, pool.index, m.Keys
      ensures Valid() && Agree(old(m), m, old(used)) && m.Keys == old(m.Keys)
      ensures root != null <==> Accepted(mode, data[..length], old(pool.avail))
      ensures root != null ==>
              Holds(m, t, root) && Apart(t) && Content(t) == Message(mode, Parsed(mode, data[..length]).value)
      ensures root != null ==>
              Refs(t) !! old(used) && used == old(used) + Refs(t) && pool.avail + Count(t) == old(pool.avail)
      ensures root == null ==> used == old(used) && pool.avail == old(pool.avail)
      ensures end == Extent(mode, data, length, old(pool.avail))
    {
      ghost var m0, used0, avail0, block := m, used, pool.avail, data[..length];
      ghost var extent := Extent(mode, data, length, avail0);
      var first, pos;
      first, pos, t := ParseStart(data, mode, length);
      if first == null {
        NeedsOne(mode, block);
        return null, t, 0;
      }
      var curr;
      ghost var fs, last;
      curr, pos, t, fs, last, end := ParseLoop(first, data, pos, length, mode, m0, used0, avail0, t, [ElementAt(mode,
        data, 0)], HeaderSize(mode), extent);
      if curr == null {
        NotEnough(mode, block, pos, fs);
        GiveUp(first, mode, m0, used0, avail0, t, fs, last);
        return null, t, end;
      }
      if length != pos {
        GiveUp(first, mode, m0, used0, avail0, t, fs, last);
        return null, t, end;
      }
      FlatCount(mode, t, fs);
      root := first;
    }

    /**
      `ogs_tlv_parse_block`: the elements of a block made of whole elements, or NULL and
      the pool as it was. `data` is the memory from the block on; it is read up to `end`.
    */
    method ParseBlock(length: nat, data: seq<byte>, mode: Mode) returns (root: Tlv?, ghost t: Tree, ghost end: nat)
      requires Valid() && length <= |data| && Extent(mode, data, length, pool.avail) <= |data|
      modifies this, pool, pool.free, pool.index, m.Keys
      ensures Valid() && Agree(old(m), m, old(used)) && m.Keys == old(m.Keys)
      ensures root != null <==> Accepted(mode, data[..length], old(pool.avail))
      ensures root != null ==>
              Holds(m, t, root) && Apart(t) && Content(t) == Message(mode, Parsed(mode, data[..length]).value)
      ensures root != null ==>
              Refs(t) !! old(used) && used == old(used) + Refs(t) && pool.avail + Count(t) == old(pool.avail)
      ensures root == null ==> used == old(used) && pool.avail == old(pool.avail)
      ensures end == Extent(mode, data, length, old(pool.avail))
      ensures root != null ==> FieldsAt(mode, data, root.typ, root.len, root.inst, root.value)
    {
      root, t, end := ParseWhole(length, data, mode);
      if root != null {
        RootOnWire(m, mode, t, root, data, length);
        assert m[root].typ == root.typ;
      }
    }

    /** The fields that stand at the front of a block. */
    static ghost predicate FieldsAt(mode: Mode, data: seq<byte>, typ: nat, len: nat, inst: nat, value: seq<byte>) {
      match mode
      case T1L1 =>
        && |data| >= 2 + len && typ == data[0] && len == data[1] && inst == 0
        && value == data[2..2 + len]
      case T1L2 =>
        && |data| >= 3 + len && typ == data[0] && len == data[1] as int * 256 + data[2] as int && inst == 0
        && value == data[3..3 + len]
      case T1L2I1 =>
        && |data| >= 4 + len && typ == data[0] && len == data[1] as int * 256 + data[2] as int
        && inst == data[3] % 16 && value == data[4..4 + len]
      case T2L2 =>
        && |data| >= 4 + len && typ == data[0] as int * 256 + data[1] as int
        && len == data[2] as int * 256 + data[3] as int && inst == 0 && value == data[4..4 + len]
      case T1 => data != [] && typ == data[0] && len == 0 && inst == 0 && value == []
    }

    /** The fields of the first node are the ones at the front of the block. */
    static lemma RootOnWire(m: Mem, mode: Mode, t: Tree, root: Tlv, data: seq<byte>, length: nat)
      requires length <= |data| && Parsed(mode, data[..length]).Some? && Holds(m, t, root)
      requires Content(t) == Message(mode, Parsed(mode, data[..length]).value)
      ensures root in m
      ensures var c := m[root]; FieldsAt(mode, data, c.typ, c.len, c.inst, c.value)
    {
      var block := data[..length];
      AcceptedIsWhole(mode, block);
      var n := WireParsed(mode, block, 0);
      assert block[0..] == block;
      var f := Parsed(mode, block).value[0];
      SliceOfPrefix(block, data, 0, HeaderSize(mode), |f.value|);
      assert t.item.typ == f.typ && t.item.inst == f.inst && t.item.value == f.value && t.sub.Nil?;
    }

    static lemma CanStart(mode: Mode, data: seq<byte>, length: nat, avail: nat)
      requires Extent(mode, data, length, avail) <= |data|
      ensures avail > 0 ==> HeaderSize(mode) <= |data|
    {
    }

    /** What reading the first element does to the progress and to what is still to be read. */
    static lemma StartProgress(mode: Mode, block: seq<byte>, data: seq<byte>, avail: nat, next: nat, avail': nat,
                               extent: nat)
      requires block <= data && avail == avail' + 1 && HeaderSize(mode) <= |data| && next == NextAt(mode, data, 0)
      requires extent == Extent(mode, data, |block|, avail) <= |data|
      ensures Progress(mode, block, next, [ElementAt(mode, data, 0)])
      ensures ToRead(mode, data, next, |block|, avail', HeaderSize(mode), extent)
    {
      assert block[0..] == block;
      if Parsed(mode, block).Some? {
        assert [] + Parsed(mode, block).value == Parsed(mode, block).value;
      }
      ProgressStep(mode, block, data, 0, []);
      assert [] + [ElementAt(mode, data, 0)] == [ElementAt(mode, data, 0)];
    }

    method SetParsed(tlv: Tlv, sub: Tlv?)
      requires Synced(m) && tlv in m
      modifies `m, m.Keys
      ensures Synced(m) && m.Keys == old(m.Keys) && m == old(m)[tlv := old(m)[tlv].(embedded := sub)]
    {
      tlv.embedded := sub;
      m := m[tlv := m[tlv].(embedded := sub)];
    }

    /** What parsing a block came to: its elements in new nodes, or nothing. */
    static ghost predicate Outcome(mode: Mode, block: seq<byte>, m: Mem, sub: Tlv?, t: Tree, used0: set<Tlv>,
                                   used: set<Tlv>, avail0: nat, avail: nat) {
      && (sub != null <==> Accepted(mode, block, avail0))
      && (if sub == null then used == used0 && avail == avail0
          else && Holds(m, t, sub) && Apart(t) && Content(t) == Message(mode, Parsed(mode, block).value)
               && Refs(t) !! used0 && used == used0 + Refs(t) && avail + Count(t) == avail0)
    }

    static lemma OutcomeKept(mode: Mode, block: seq<byte>, m: Mem, sub: Tlv?, t: Tree, used0: set<Tlv>, used: set<Tlv>,
                             avail0: nat, avail: nat,
                             tlv: Tlv, m': Mem)
      requires Outcome(mode, block, m, sub, t, used0, used, avail0, avail)
      requires tlv in used0 && tlv in m && m' == m[tlv := m[tlv].(embedded := sub)]
      ensures Outcome(mode, block, m', sub, t, used0, used, avail0, avail)
    {
      if sub != null {
        HoldsFrame(m, m', t, sub);
      }
    }

    /** The value of a node can be parsed: the memory `behind` it is read too if it breaks off inside a header. */
    ghost predicate Parsable(tlv: Tlv, mode: Mode, behind: seq<byte>)
      reads this, pool
      requires tlv in m
    {
      var value := m[tlv].value;
      m[tlv].len == |value| && Extent(mode, value + behind, |value|, pool.avail) <= |value + behind|
    }

    /** The value of a node, parsed. */
    method ParseValue(tlv: Tlv, mode: Mode, behind: seq<byte>) returns (sub: Tlv?, ghost t: Tree, ghost end: nat)
      requires Valid() && tlv in used && Parsable(tlv, mode, behind)
      modifies this, pool, pool.free, pool.index, m.Keys
      ensures Valid() && m.Keys == old(m.Keys) && Agree(old(m), m, old(used))
      ensures Outcome(mode, old(m)[tlv].value, m, sub, t, old(used), used, old(pool.avail), pool.avail)
      ensures end == Extent(mode, old(m)[tlv].value + behind, |old(m)[tlv].value|, old(pool.avail))
    {
      ghost var value := m[tlv].value;
      assert (value + behind)[..|value|] == value;
      sub, t, end := ParseBlock(tlv.len, tlv.value + behind, mode);
    }

    /** `tlv->embedded = ogs_tlv_parse_block(tlv->length, tlv->value)`. */
    method ParseInto(tlv: Tlv, mode: Mode, behind: seq<byte>) returns (sub: Tlv?, ghost t: Tree, ghost end: nat)
      requires Valid() && tlv in used && Parsable(tlv, mode, behind)
      modifies this, pool, pool.free, pool.index, m.Keys
      ensures Valid() && m.Keys == old(m.Keys) && m[tlv] == old(m)[tlv].(embedded := sub)
      ensures Agree(old(m), m, old(used) - {tlv})
      ensures Outcome(mode, old(m)[tlv].value, m, sub, t, old(used), used, old(pool.avail), pool.avail)
      ensures end == Extent(mode, old(m)[tlv].value + behind, |old(m)[tlv].value|, old(pool.avail))
    {
      ghost var value := m[tlv].value;
      sub, t, end := ParseValue(tlv, mode, behind);
      ghost var m1 := m;
      SetParsed(tlv, sub);
      OutcomeKept(mode, value, m1, sub, t, old(used), used, old(pool.avail), pool.avail, tlv, m);
    }

    /** The message `whole` after the value of its leaf `tlv` was parsed to the list `t`. */
    static ghost predicate Grown(m: Mem, root: Tlv?, whole: Tree, tlv: Tlv, sub: Tlv?, t: Tree, used: set<Tlv>)
      requires tlv in Refs(whole)
    {
      var r := if sub == null then whole else WithSub(whole, tlv, t);
      Holds(m, r, root) && Apart(r) && Refs(r) <= used && Count(r) == Count(whole) +
        (if sub == null then 0 else Count(t))
    }

    static lemma Reassembled(m0: Mem, used0: set<Tlv>, avail0: nat, root: Tlv?, whole: Tree, mode: Mode,
                             value: seq<byte>,
                             tlv: Tlv, m1: Mem, used1: set<Tlv>, avail1: nat, sub: Tlv?, t: Tree)
      requires Holds(m0, whole, root) && Apart(whole) && tlv in Refs(whole) && Refs(whole) <= used0
      requires tlv in m0 && m0[tlv].embedded == null && tlv in m1 && m1[tlv] == m0[tlv].(embedded := sub)
      requires Agree(m0, m1, used0 - {tlv}) && Outcome(mode, value, m1, sub, t, used0, used1, avail0, avail1)
      ensures Grown(m1, root, whole, tlv, sub, t, used1)
    {
      if sub == null {
        HoldsFrame(m0, m1, whole, root);
      } else {
        WithSubShape(m0, whole, root, tlv, t);
        WithSubHolds(m0, m1, whole, root, tlv, t, sub);
      }
    }

    /**
      `ogs_tlv_parse_embedded_block`: the value of a leaf of a parsed message, parsed
      in its turn, becomes the list the leaf embeds. Freeing the whole message gives
      back the nodes of both. `behind` is what lies behind the value in memory.
    */
    method ParseEmbedded(tlv: Tlv, mode: Mode, behind: seq<byte>, ghost whole: Tree, ghost root: Tlv?)
      returns (sub: Tlv?, ghost t: Tree, ghost end: nat)
      requires Valid() && Holds(m, whole, root) && Apart(whole) && tlv in Refs(whole) && Refs(whole) <= used
      requires tlv.embedded == null && Parsable(tlv, mode, behind)
      modifies this, pool, pool.free, pool.index, m.Keys
      ensures Valid() && m.Keys == old(m.Keys) && Agree(old(m), m, old(used) - {tlv})
      ensures Outcome(mode, old(m)[tlv].value, m, sub, t, old(used), used, old(pool.avail), pool.avail)
      ensures Grown(m, root, whole, tlv, sub, t, used)
      ensures end == Extent(mode, old(m)[tlv].value + behind, |old(m)[tlv].value|, old(pool.avail))
    {
      ghost var m0, used0, avail0, value := m, used, pool.avail, m[tlv].value;
      sub, t, end := ParseInto(tlv, mode, behind);
      Reassembled(m0, used0, avail0, root, whole, mode, value, tlv, m, used, pool.avail, sub, t);
    }
  }
}
