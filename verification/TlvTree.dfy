/**
  The linked nodes of a message, stated on a snapshot of their fields.
*/
module TlvTree {
  import opened Common
  import opened TlvModel

  class Tlv {
    /** The node's place in the pool's array. */
    const slot: nat
    var head: Tlv?
    var tail: Tlv?
    var next: Tlv?
    var parent: Tlv?
    var embedded: Tlv?
    var mode: Mode
    var typ: nat
    var len: nat
    var inst: nat
    var value: seq<byte>

    constructor (slot: nat)
      ensures this.slot == slot && head == tail == next == parent == embedded == null
      ensures mode == T1L1 && typ == len == inst == 0 && value == []
    {
      this.slot := slot;
      head, tail, next, parent, embedded := null, null, null, null, null;
      mode, typ, len, inst, value := T1L1, 0, 0, 0, [];
    }
  }

  datatype Cell = Cell(head: Tlv?, tail: Tlv?, next: Tlv?, parent: Tlv?, embedded: Tlv?,
                       mode: Mode, typ: nat, len: nat, inst: nat, value: seq<byte>)

  type Mem = map<Tlv, Cell>

  /** `m` is what the nodes it knows hold now. */
  ghost predicate Synced(m: Mem)
    reads m.Keys
  {
    forall x {:trigger m[x]} :: x in m ==>
      m[x] == Cell(x.head, x.tail, x.next, x.parent, x.embedded, x.mode, x.typ, x.len, x.inst, x.value)
  }

  datatype Item = Item(mode: Mode, typ: nat, inst: nat, value: seq<byte>)

  /** A list of nodes, each with what it holds and the list it embeds. */
  datatype Tree = Nil | Cons(node: Tlv, item: Item, sub: Tree, next: Tree)

  ghost function Content(t: Tree): (m: Msg)
    ensures m.End? <==> t.Nil?
  {
    match t
    case Nil => End
    case Cons(_, d, s, r) => El(d.mode, d.typ, d.inst, d.value, Content(s), Content(r))
  }

  ghost function Refs(t: Tree): (r: set<Tlv>) {
    match t
    case Nil => {}
    case Cons(n, _, s, r) => {n} + Refs(s) + Refs(r)
  }

  /** No node occurs twice. */
  ghost predicate Apart(t: Tree) {
    match t
    case Nil => true
    case Cons(n, _, s, r) => n !in Refs(s) && n !in Refs(r) && Refs(s) !! Refs(r) && Apart(s) && Apart(r)
  }

  ghost predicate NodeHolds(m: Mem, n: Tlv, d: Item, leaf: bool) {
    && n in m && m[n].mode == d.mode && m[n].typ == d.typ && m[n].inst == d.inst
    && (leaf ==> m[n].value == d.value && m[n].len == |d.value|)
  }

  /** From `p`, the nodes are linked and filled as `t` says. */
  ghost predicate Holds(m: Mem, t: Tree, p: Tlv?) {
    match t
    case Nil => p == null
    case Cons(n, d, s, r) =>
      p == n && NodeHolds(m, n, d, s.Nil?) && Holds(m, s, m[n].embedded) && Holds(m, r, m[n].next)
  }

  ghost function Last(t: Tree): (n: Tlv)
    requires t.Cons?
    ensures n in Refs(t)
  {
    if t.next.Nil? then t.node else Last(t.next)
  }

  /** A list's nodes know their head; the head knows the tail and the embedding node. */
  ghost predicate Threaded(m: Mem, t: Tree, head: Tlv, parent: Tlv?) {
    match t
    case Nil => true
    case Cons(n, _, s, r) =>
      n in m && m[n].head == head && m[n].parent == (if n == head then parent else null)
      && (s.Cons? ==> Threaded(m, s, s.node, n) && s.node in m && m[s.node].tail == Last(s)) &&
        Threaded(m, r, head, parent)
  }

  ghost predicate List(m: Mem, t: Tree, parent: Tlv?) {
    t.Cons? ==> Threaded(m, t, t.node, parent) && t.node in m && m[t.node].tail == Last(t)
  }

  ghost predicate Agree(m: Mem, m': Mem, s: set<Tlv>) {
    forall x :: x in s && x in m ==> x in m' && m'[x] == m[x]
  }

  lemma {:induction false} HoldsFrame(m: Mem, m': Mem, t: Tree, p: Tlv?)
    requires Holds(m, t, p) && Agree(m, m', Refs(t))
    ensures Holds(m', t, p)
  {
    if t.Cons? {
      HoldsFrame(m, m', t.sub, m[t.node].embedded);
      HoldsFrame(m, m', t.next, m[t.node].next);
    }
  }

  lemma {:induction false} ThreadedFrame(m: Mem, m': Mem, t: Tree, head: Tlv, parent: Tlv?)
    requires Threaded(m, t, head, parent) && Agree(m, m', Refs(t))
    ensures Threaded(m', t, head, parent)
  {
    if t.Cons? {
      if t.sub.Cons? {
        ThreadedFrame(m, m', t.sub, t.sub.node, t.node);
      }
      ThreadedFrame(m, m', t.next, head, parent);
    }
  }

  // ------------------------------------------------------------ finding the root

  ghost predicate InList(t: Tree, x: Tlv) {
    t.Cons? && (x == t.node || InList(t.next, x))
  }

  /** How deep a node is embedded. */
  ghost function Depth(t: Tree, x: Tlv): (d: nat)
    requires x in Refs(t)
  {
    if x == t.node then 0 else if x in Refs(t.sub) then Depth(t.sub, x) + 1 else Depth(t.next, x)
  }

  /** The head of a node's list is at the node's depth, and its `parent` one level up; there is none at the top. */
  lemma {:induction false} Climb(m: Mem, t: Tree, head: Tlv, parent: Tlv?, x: Tlv)
    requires Threaded(m, t, head, parent) && Apart(t) && x in Refs(t)
    ensures x in m && m[x].head != null
    ensures Depth(t, x) == 0 ==> m[x].head == head
    ensures Depth(t, x) > 0 ==> var h := m[x].head;
              h in m && m[h].parent != null && m[h].parent in Refs(t) && Depth(t, m[h].parent) == Depth(t, x) - 1
  {
    if x == t.node {
    } else if x in Refs(t.sub) {
      Climb(m, t.sub, t.sub.node, t.node, x);
      assert m[t.sub.node].parent == t.node;
      if Depth(t.sub, x) > 0 {
        assert m[m[x].head].parent in Refs(t.sub);
      }
    } else {
      Climb(m, t.next, head, parent, x);
      if Depth(t.next, x) > 0 {
        assert m[m[x].head].parent in Refs(t.next);
      }
    }
  }

  // --------------------------------------------------------- adding and embedding

  ghost function Append(t: Tree, n: Tlv, d: Item): (r: Tree)
    ensures r.Cons? && Refs(r) == Refs(t) + {n} && Last(r) == n && (t.Cons? ==> r.node == t.node)
    ensures n !in Refs(t) && Apart(t) ==> Apart(r)
  {
    match t
    case Nil => Cons(n, d, Nil, Nil)
    case Cons(y, e, s, next) => Cons(y, e, s, Append(next, n, d))
  }

  /** `n` at the end of the list that `x` is in. */
  ghost function AddTo(t: Tree, x: Tlv, n: Tlv, d: Item): (r: Tree)
    requires x in Refs(t)
    ensures r.Cons? && r.node == t.node && Refs(r) == Refs(t) + {n} && Last(r) == if InList(t, x) then n else Last(t)
    ensures n !in Refs(t) && Apart(t) ==> Apart(r)
  {
    if InList(t, x) then Append(t, n, d)
    else if x in Refs(t.sub) then Cons(t.node, t.item, AddTo(t.sub, x, n, d), t.next)
    else Cons(t.node, t.item, t.sub, AddTo(t.next, x, n, d))
  }

  /** `n` at the end of the list that `x` embeds. */
  ghost function EmbedIn(t: Tree, x: Tlv, n: Tlv, d: Item): (r: Tree)
    requires x in Refs(t)
    ensures r.Cons? && r.node == t.node && Refs(r) == Refs(t) + {n} && Last(r) == Last(t)
    ensures n !in Refs(t) && Apart(t) ==> Apart(r)
  {
    if t.node == x then Cons(x, t.item, Append(t.sub, n, d), t.next)
    else if x in Refs(t.sub) then Cons(t.node, t.item, EmbedIn(t.sub, x, n, d), t.next)
    else Cons(t.node, t.item, t.sub, EmbedIn(t.next, x, n, d))
  }

  /** The nodes of a list, in order. */
  ghost function Row(t: Tree): (s: seq<Tlv>) {
    match t
    case Nil => []
    case Cons(n, _, _, r) => [n] + Row(r)
  }

  /** The list that `x` is in. */
  ghost function ListOf(t: Tree, x: Tlv): (r: Tree)
    requires x in Refs(t)
  {
    if InList(t, x) then t else if x in Refs(t.sub) then ListOf(t.sub, x) else ListOf(t.next, x)
  }

  /** The list that `x` embeds. */
  ghost function SubOf(t: Tree, x: Tlv): (r: Tree)
    requires x in Refs(t)
  {
    if t.node == x then t.sub else if x in Refs(t.sub) then SubOf(t.sub, x) else SubOf(t.next, x)
  }

  lemma {:induction false} AppendRow(t: Tree, n: Tlv, d: Item)
    ensures Row(Append(t, n, d)) == Row(t) + [n]
    ensures forall y :: InList(Append(t, n, d), y) <==> InList(t, y) || y == n
  {
    if t.Cons? {
      AppendRow(t.next, n, d);
      assert [t.node] + Row(t.next) + [n] == [t.node] + (Row(t.next) + [n]);
    }
  }

  lemma {:induction false} AddedInList(t: Tree, x: Tlv, n: Tlv, d: Item)
    requires x in Refs(t) && !InList(t, x)
    ensures forall y :: InList(AddTo(t, x, n, d), y) <==> InList(t, y)
  {
    if x !in Refs(t.sub) {
      AddedInList(t.next, x, n, d);
    }
  }

  /** The list that `x` is in has got `n` as its last element. */
  lemma {:induction false} AddedLast(t: Tree, x: Tlv, n: Tlv, d: Item)
    requires x in Refs(t) && n !in Refs(t) && Apart(t)
    ensures Row(ListOf(AddTo(t, x, n, d), x)) == Row(ListOf(t, x)) + [n]
  {
    if InList(t, x) {
      AppendRow(t, n, d);
    } else {
      AddedInList(t, x, n, d);
      if x in Refs(t.sub) {
        AddedLast(t.sub, x, n, d);
      } else {
        AddedLast(t.next, x, n, d);
      }
    }
  }

  /** The list that `x` embeds has got `n` as its last element. */
  lemma {:induction false} EmbeddedLast(t: Tree, x: Tlv, n: Tlv, d: Item)
    requires x in Refs(t) && n !in Refs(t) && Apart(t)
    ensures Row(SubOf(EmbedIn(t, x, n, d), x)) == Row(SubOf(t, x)) + [n]
  {
    if t.node == x {
      AppendRow(t.sub, n, d);
    } else if x in Refs(t.sub) {
      EmbeddedLast(t.sub, x, n, d);
    } else {
      EmbeddedLast(t.next, x, n, d);
    }
  }

  ghost function NewCell(head: Tlv, tail: Tlv?, parent: Tlv?, d: Item): (c: Cell) {
    Cell(head, tail, null, parent, null, d.mode, d.typ, |d.value|, d.inst, d.value)
  }

  /** The node `n` is hung behind the tail of the list of `h`. */
  ghost function MemHung(m: Mem, h: Tlv, n: Tlv): (m': Mem)
    requires h in m && m[h].tail != null && m[h].tail in m
  {
    var last := m[h].tail;
    var m2 := m[last := m[last].(next := n)];
    m2[h := m2[h].(tail := n)]
  }

  /** The same with a new node. */
  ghost function MemAppended(m: Mem, h: Tlv, n: Tlv, d: Item): (m': Mem)
    requires h in m && m[h].tail != null && m[h].tail in m && n != h && n != m[h].tail
  {
    MemHung(m[n := NewCell(h, null, null, d)], h, n)
  }

  ghost predicate Full(m: Mem, t: Tree, p: Tlv?, head: Tlv, parent: Tlv?) {
    Holds(m, t, p) && Threaded(m, t, head, parent) && Apart(t)
  }

  lemma AppendedAgree(m: Mem, h: Tlv, n: Tlv, d: Item, s: set<Tlv>)
    requires h in m && m[h].tail != null && m[h].tail in m && n != h && n != m[h].tail
    requires h !in s && m[h].tail !in s && n !in s
    ensures Agree(m, MemAppended(m, h, n, d), s)
  {
  }

  /** The rest of the list from any of its nodes on. */
  lemma {:induction false} AppendFull(m: Mem, t: Tree, p: Tlv?, head: Tlv, parent: Tlv?, n: Tlv, d: Item)
    requires t.Cons? && Full(m, t, p, head, parent) && n !in Refs(t)
    requires head in m && m[head].tail == Last(t) && Last(t) in m && n != head && (head == t.node || head !in Refs(t))
    ensures Full(MemAppended(m, head, n, d), Append(t, n, d), p, head, parent)
  {
    var m' := MemAppended(m, head, n, d);
    LastIn(t);
    AppendedAgree(m, head, n, d, Refs(t.sub));
    HoldsFrame(m, m', t.sub, m[t.node].embedded);
    if t.sub.Cons? {
      ThreadedFrame(m, m', t.sub, t.sub.node, t.node);
    }
    if t.next.Cons? {
      AppendFull(m, t.next, m[t.node].next, head, parent, n, d);
    }
  }

  /** The last node of a list is not in a list that is embedded in it. */
  lemma {:induction false} LastIn(t: Tree)
    requires t.Cons? && Apart(t)
    ensures Last(t) !in Refs(t.sub)
  {
  }

  /** Where the head and the tail of a node's list are. */
  lemma {:induction false} Whereabouts(m: Mem, t: Tree, head: Tlv, parent: Tlv?, x: Tlv)
    requires Threaded(m, t, head, parent) && Apart(t) && x in Refs(t)
    ensures x in m && m[x].head != null
    ensures InList(t, x) ==> m[x].head == head
    ensures !InList(t, x) ==> var h := m[x].head;
              h in Refs(t) && !InList(t, h) && h in m && m[h].tail != null && m[h].tail in Refs(t) && m[h].tail in m
  {
    if x == t.node {
    } else if x in Refs(t.sub) {
      Whereabouts(m, t.sub, t.sub.node, t.node, x);
      AllKnown(m, t.sub, t.sub.node, t.node);
      NotInList(t.next, x);
      NotInList(t.next, m[x].head);
    } else {
      Whereabouts(m, t.next, head, parent, x);
    }
  }

  lemma {:induction false} NotInList(t: Tree, x: Tlv)
    requires x !in Refs(t)
    ensures !InList(t, x)
  {
    if t.Cons? {
      NotInList(t.next, x);
    }
  }

  lemma {:induction false} AllKnown(m: Mem, t: Tree, head: Tlv, parent: Tlv?)
    requires Threaded(m, t, head, parent)
    ensures forall x :: x in Refs(t) ==> x in m
  {
    if t.Cons? {
      if t.sub.Cons? {
        AllKnown(m, t.sub, t.sub.node, t.node);
      }
      AllKnown(m, t.next, head, parent);
    }
  }

  /** The rest of the top list, with its tail known to the head. */
  ghost predicate Rest(m: Mem, t: Tree, p: Tlv?, head: Tlv, parent: Tlv?) {
    && t.Cons? && Full(m, t, p, head, parent)
    && head in m && m[head].tail == Last(t) && Last(t) in m && (head == t.node || head !in Refs(t))
  }

  /** A changed embedded list in its place. */
  lemma GlueSub(m: Mem, m': Mem, t: Tree, p: Tlv?, head: Tlv, parent: Tlv?, s: Tree)
    requires t.Cons? && Full(m, t, p, head, parent) && Agree(m, m', {t.node} + Refs(t.next))
    requires s.Cons? && t.sub.Cons? && s.node == t.sub.node
    requires Full(m', s, m[t.node].embedded, s.node, t.node) && s.node in m' && m'[s.node].tail == Last(s)
    requires Apart(Cons(t.node, t.item, s, t.next))
    ensures Full(m', Cons(t.node, t.item, s, t.next), p, head, parent)
  {
    HoldsFrame(m, m', t.next, m[t.node].next);
    ThreadedFrame(m, m', t.next, head, parent);
  }

  /** A changed rest of the list in its place. */
  lemma GlueNext(m: Mem, m': Mem, t: Tree, p: Tlv?, head: Tlv, parent: Tlv?, r: Tree)
    requires t.Cons? && Full(m, t, p, head, parent) && Agree(m, m', Refs(t.sub)) && t.node in m'
    requires m'[t.node] == m[t.node] || m'[t.node] == m[t.node].(tail := m'[t.node].tail)
    requires Full(m', r, m[t.node].next, head, parent) && Apart(Cons(t.node, t.item, t.sub, r))
    ensures Full(m', Cons(t.node, t.item, t.sub, r), p, head, parent)
  {
    HoldsFrame(m, m', t.sub, m[t.node].embedded);
    if t.sub.Cons? {
      ThreadedFrame(m, m', t.sub, t.sub.node, t.node);
    }
  }

  lemma RestSub(m: Mem, t: Tree, p: Tlv?, head: Tlv, parent: Tlv?)
    requires t.Cons? && t.sub.Cons? && Full(m, t, p, head, parent)
    ensures Rest(m, t.sub, m[t.node].embedded, t.sub.node, t.node)
  {
    AllKnown(m, t.sub, t.sub.node, t.node);
  }

  lemma RestNext(m: Mem, t: Tree, p: Tlv?, head: Tlv, parent: Tlv?)
    requires Rest(m, t, p, head, parent) && t.next.Cons?
    ensures Rest(m, t.next, m[t.node].next, head, parent)
  {
  }

  /** Adding to the list of `x`, wherever that is. */
  lemma {:induction false} AddFull(m: Mem, t: Tree, p: Tlv?, head: Tlv, parent: Tlv?, x: Tlv, n: Tlv, d: Item)
    requires Rest(m, t, p, head, parent) && x in Refs(t) && n !in Refs(t) && n != head
    ensures x in m && m[x].head != null && m[x].head in m && m[m[x].head].tail != null && m[m[x].head].tail in m
    ensures n != m[x].head && n != m[m[x].head].tail
    ensures Full(MemAppended(m, m[x].head, n, d), AddTo(t, x, n, d), p, head, parent)
  {
    Whereabouts(m, t, head, parent, x);
    AllKnown(m, t, head, parent);
    var h := m[x].head;
    if InList(t, x) {
      AppendFull(m, t, p, head, parent, n, d);
    } else if x in Refs(t.sub) {
      Whereabouts(m, t.sub, t.sub.node, t.node, x);
      RestSub(m, t, p, head, parent);
      AddFull(m, t.sub, m[t.node].embedded, t.sub.node, t.node, x, n, d);
      AppendedAgree(m, h, n, d, {t.node} + Refs(t.next));
      GlueSub(m, MemAppended(m, h, n, d), t, p, head, parent, AddTo(t.sub, x, n, d));
    } else {
      Whereabouts(m, t.next, head, parent, x);
      RestNext(m, t, p, head, parent);
      AddFull(m, t.next, m[t.node].next, head, parent, x, n, d);
      AppendedAgree(m, h, n, d, Refs(t.sub));
      GlueNext(m, MemAppended(m, h, n, d), t, p, head, parent, AddTo(t.next, x, n, d));
    }
  }

  /** The memory after `x` has embedded its first node. */
  ghost function MemNested(m: Mem, x: Tlv, n: Tlv, d: Item): (m': Mem)
    requires x in m && x != n
  {
    var m1 := m[n := NewCell(n, n, x, d)];
    m1[x := m1[x].(embedded := n)]
  }

  /** Embedding in `x`, wherever that is; `h` is the head of the list it embeds already. */
  ghost function MemEmbedded(m: Mem, x: Tlv, n: Tlv, d: Item): (m': Mem)
    requires x in m && x != n
    requires m[x].embedded != null ==> var h := m[x].embedded;
               h in m && m[h].tail != null && m[h].tail in m && n != h && n != m[h].tail
  {
    if m[x].embedded == null then MemNested(m, x, n, d) else MemAppended(m, m[x].embedded, n, d)
  }

  lemma NestFull(m: Mem, t: Tree, p: Tlv?, head: Tlv, parent: Tlv?, n: Tlv, d: Item)
    requires t.Cons? && t.sub.Nil? && Full(m, t, p, head, parent) && n !in Refs(t) && n != head
    ensures Full(MemNested(m, t.node, n, d), EmbedIn(t, t.node, n, d), p, head, parent)
  {
    var m' := MemNested(m, t.node, n, d);
    HoldsFrame(m, m', t.next, m[t.node].next);
    ThreadedFrame(m, m', t.next, head, parent);
    assert Holds(m', Cons(n, d, Nil, Nil), n);
  }

  /** The list that `x` embeds, if any, is inside `t` below its top list. */
  lemma {:induction false} EmbeddedInside(m: Mem, t: Tree, p: Tlv?, head: Tlv, parent: Tlv?, x: Tlv)
    requires Full(m, t, p, head, parent) && x in Refs(t)
    ensures x in m && m[x].embedded != null ==> var h := m[x].embedded;
              h in Refs(t) && !InList(t, h) && h in m && m[h].tail != null && m[h].tail in Refs(t) && m[h].tail in m
  {
    if x == t.node {
      assert Holds(m, t.sub, m[x].embedded);
      if t.sub.Cons? {
        AllKnown(m, t.sub, t.sub.node, t.node);
        NotInList(t.next, t.sub.node);
      }
    } else if x in Refs(t.sub) {
      EmbeddedInside(m, t.sub, m[t.node].embedded, t.sub.node, t.node, x);
      if x in m && m[x].embedded != null {
        NotInList(t.next, m[x].embedded);
      }
    } else {
      EmbeddedInside(m, t.next, m[t.node].next, head, parent, x);
    }
  }

  lemma EmbeddedAgree(m: Mem, x: Tlv, n: Tlv, d: Item, s: set<Tlv>)
    requires x in m && x != n && x !in s && n !in s
    requires m[x].embedded != null ==> var h := m[x].embedded;
               h in m && m[h].tail != null && m[h].tail in m && n != h && n != m[h].tail && h !in s && m[h].tail !in s
    ensures Agree(m, MemEmbedded(m, x, n, d), s)
  {
  }

  lemma {:induction false} EmbedFull(m: Mem, t: Tree, p: Tlv?, head: Tlv, parent: Tlv?, x: Tlv, n: Tlv, d: Item)
    requires Full(m, t, p, head, parent) && x in Refs(t) && n !in Refs(t) && n != head
    ensures x in m && x != n
    ensures m[x].embedded != null ==> var h := m[x].embedded;
              h in m && m[h].tail != null && m[h].tail in m && n != h && n != m[h].tail
    ensures Full(MemEmbedded(m, x, n, d), EmbedIn(t, x, n, d), p, head, parent)
  {
    AllKnown(m, t, head, parent);
    EmbeddedInside(m, t, p, head, parent, x);
    if x == t.node {
      assert Holds(m, t.sub, m[x].embedded);
      if t.sub.Nil? {
        NestFull(m, t, p, head, parent, n, d);
      } else {
        RestSub(m, t, p, head, parent);
        AppendFull(m, t.sub, m[x].embedded, t.sub.node, x, n, d);
        GlueSub(m, MemEmbedded(m, x, n, d), t, p, head, parent, Append(t.sub, n, d));
      }
    } else if x in Refs(t.sub) {
      EmbeddedInside(m, t.sub, m[t.node].embedded, t.sub.node, t.node, x);
      EmbedFull(m, t.sub, m[t.node].embedded, t.sub.node, t.node, x, n, d);
      EmbeddedAgree(m, x, n, d, {t.node} + Refs(t.next));
      GlueSub(m, MemEmbedded(m, x, n, d), t, p, head, parent, EmbedIn(t.sub, x, n, d));
    } else {
      EmbeddedInside(m, t.next, m[t.node].next, head, parent, x);
      EmbedFull(m, t.next, m[t.node].next, head, parent, x, n, d);
      EmbeddedAgree(m, x, n, d, Refs(t.sub));
      GlueNext(m, MemEmbedded(m, x, n, d), t, p, head, parent, EmbedIn(t.next, x, n, d));
    }
  }

  /** A whole message that was built by adding and embedding. */
  ghost predicate Built(m: Mem, t: Tree, root: Tlv) {
    t.Cons? && t.node == root && Rest(m, t, root, root, null)
  }

  lemma AddBuilt(m: Mem, t: Tree, root: Tlv, x: Tlv, n: Tlv, d: Item)
    requires Built(m, t, root) && x in Refs(t) && n !in Refs(t)
    ensures x in m && m[x].head != null && m[x].head in m && m[m[x].head].tail != null && m[m[x].head].tail in m
    ensures n != m[x].head && n != m[m[x].head].tail && m[x].head in Refs(t) && m[m[x].head].tail in Refs(t)
    ensures Built(MemAppended(m, m[x].head, n, d), AddTo(t, x, n, d), root)
  {
    AddFull(m, t, root, root, null, x, n, d);
    Whereabouts(m, t, root, null, x);
    AllKnown(m, t, root, null);
  }

  lemma EmbedBuilt(m: Mem, t: Tree, root: Tlv, x: Tlv, n: Tlv, d: Item)
    requires Built(m, t, root) && x in Refs(t) && n !in Refs(t)
    ensures x in m && x != n
    ensures m[x].embedded != null ==> var h := m[x].embedded;
              h in m && m[h].tail != null && m[h].tail in m && n != h && n != m[h].tail && h in Refs(t) &&
                m[h].tail in Refs(t)
    ensures Built(MemEmbedded(m, x, n, d), EmbedIn(t, x, n, d), root)
  {
    EmbedFull(m, t, root, root, null, x, n, d);
    EmbeddedInside(m, t, root, root, null, x);
    AllKnown(m, t, root, null);
  }

  lemma NewBuilt(m: Mem, n: Tlv, d: Item)
    ensures Built(m[n := NewCell(n, n, null, d)], Cons(n, d, Nil, Nil), n)
  {
    assert Holds(m[n := NewCell(n, n, null, d)], Nil, null);
  }

  // ---------------------------------------------------- lengths written back

  /** Only lengths of nodes that embed a list differ. */
  ghost predicate LenStep(m: Mem, m': Mem) {
    m'.Keys == m.Keys && forall x {:trigger m[x]} {:trigger m'[x]} :: x in m ==>
      m'[x] == m[x].(len := m'[x].len) && (m[x].embedded == null ==> m'[x] == m[x])
  }

  lemma {:induction false} LenHolds(m: Mem, m': Mem, t: Tree, p: Tlv?)
    requires Holds(m, t, p) && LenStep(m, m')
    ensures Holds(m', t, p)
  {
    if t.Cons? {
      LenHolds(m, m', t.sub, m[t.node].embedded);
      LenHolds(m, m', t.next, m[t.node].next);
    }
  }

  lemma {:induction false} LenThreaded(m: Mem, m': Mem, t: Tree, head: Tlv, parent: Tlv?)
    requires Threaded(m, t, head, parent) && LenStep(m, m')
    ensures Threaded(m', t, head, parent)
  {
    if t.Cons? {
      if t.sub.Cons? {
        LenThreaded(m, m', t.sub, t.sub.node, t.node);
      }
      LenThreaded(m, m', t.next, head, parent);
    }
  }

  lemma LenBuilt(m: Mem, m': Mem, t: Tree, root: Tlv)
    requires Built(m, t, root) && LenStep(m, m')
    ensures Built(m', t, root)
  {
    LenHolds(m, m', t, root);
    LenThreaded(m, m', t, root, null);
  }

  /** A node that embeds a list holds the size of that list. */
  ghost predicate LenRight(m: Mem, n: Tlv, s: Tree) {
    n in m && (s.Cons? ==> m[n].len == Size(Content(s)))
  }

  /** All nodes of a message do. */
  ghost predicate LensRight(m: Mem, t: Tree) {
    t.Cons? ==> LenRight(m, t.node, t.sub) && LensRight(m, t.sub) && LensRight(m, t.next)
  }

  /** The nodes of the list `t` in front of `r` do. */
  ghost predicate LensRightTo(m: Mem, t: Tree, r: Tree) {
    t == r || (t.Cons? && LenRight(m, t.node, t.sub) && LensRight(m, t.sub) && LensRightTo(m, t.next, r))
  }

  /** Nodes outside `s` are as they were. */
  ghost predicate Outside(m: Mem, m': Mem, s: set<Tlv>) {
    forall x {:trigger m[x]} {:trigger m'[x]} :: x in m && x !in s ==> x in m' && m'[x] == m[x]
  }

  lemma {:induction false} LensFrame(m: Mem, m': Mem, t: Tree, s: set<Tlv>)
    requires LensRight(m, t) && Outside(m, m', s) && Refs(t) !! s
    ensures LensRight(m', t)
  {
    if t.Cons? {
      LensFrame(m, m', t.sub, s);
      LensFrame(m, m', t.next, s);
    }
  }

  /** One node more. */
  lemma {:induction false} LensStep(m: Mem, m': Mem, t: Tree, r: Tree)
    requires Apart(t) && LensRightTo(m, t, r) && r.Cons? && Outside(m, m', {r.node} + Refs(r.sub))
    requires LenRight(m', r.node, r.sub) && LensRight(m', r.sub)
    ensures LensRightTo(m', t, r.next)
  {
    if t != r {
      SuffixRefs(m, t.next, r);
      LensFrame(m, m', t.sub, {r.node} + Refs(r.sub));
      LensStep(m, m', t.next, r);
    } else {
      assert LensRightTo(m', t.next, r.next);
    }
  }

  lemma {:induction false} SuffixRefs(m: Mem, t: Tree, r: Tree)
    requires LensRightTo(m, t, r)
    ensures Refs(r) <= Refs(t)
  {
    if t != r {
      SuffixRefs(m, t.next, r);
    }
  }

  lemma {:induction false} SuffixApart(m: Mem, t: Tree, r: Tree)
    requires Apart(t) && LensRightTo(m, t, r)
    ensures Apart(r)
  {
    if t != r {
      SuffixApart(m, t.next, r);
    }
  }

  lemma {:induction false} LensAll(m: Mem, t: Tree)
    requires LensRightTo(m, t, Nil)
    ensures LensRight(m, t)
  {
    if t.Cons? {
      LensAll(m, t.next);
    }
  }

  /** How many nodes a message has. */
  ghost function Count(t: Tree): (n: nat) {
    match t
    case Nil => 0
    case Cons(_, _, s, r) => 1 + Count(s) + Count(r)
  }

  // ------------------------------------------------------- lists as parsed

  /** The parsed list after one more node. */
  lemma {:induction false} ParsedMore(m: Mem, m': Mem, t: Tree, p: Tlv?, n: Tlv, d: Item)
    requires t.Cons? && Holds(m, t, p) && Apart(t) && n !in Refs(t)
    requires Last(t) in m' && Last(t) in m && m'[Last(t)] == m[Last(t)].(next := n)
    requires Agree(m, m', Refs(t) - {Last(t)})
    requires NodeHolds(m', n, d, true) && m'[n].embedded == null && m'[n].next == null
    ensures Holds(m', Append(t, n, d), p)
  {
    LastIn(t);
    HoldsFrame(m, m', t.sub, m[t.node].embedded);
    if t.next.Cons? {
      ParsedMore(m, m', t.next, m[t.node].next, n, d);
    } else {
      assert Holds(m', Nil, null);
    }
  }

  ghost function ItemOf(mode: Mode, f: Flat): (d: Item) {
    Item(mode, f.typ, f.inst, f.value)
  }

  lemma {:induction false} ContentMore(mode: Mode, t: Tree, fs: seq<Flat>, n: Tlv, f: Flat)
    requires Content(t) == Message(mode, fs)
    ensures Content(Append(t, n, ItemOf(mode, f))) == Message(mode, fs + [f])
  {
    if t.Cons? {
      ContentMore(mode, t.next, fs[1..], n, f);
      assert (fs + [f])[1..] == fs[1..] + [f];
    } else {
      assert ([f])[1..] == [];
    }
  }

  lemma {:induction false} FlatCount(mode: Mode, t: Tree, fs: seq<Flat>)
    requires Content(t) == Message(mode, fs)
    ensures Count(t) == |fs|
  {
    if t.Cons? {
      FlatCount(mode, t.next, fs[1..]);
      assert t.sub.Nil?;
    }
  }

  /** The tree in which the leaf `x` embeds the list `s`. */
  ghost function WithSub(t: Tree, x: Tlv, s: Tree): (r: Tree)
    requires x in Refs(t)
    ensures r.Cons?
  {
    if t.node == x then Cons(x, t.item, s, t.next)
    else if x in Refs(t.sub) then Cons(t.node, t.item, WithSub(t.sub, x, s), t.next)
    else Cons(t.node, t.item, t.sub, WithSub(t.next, x, s))
  }

  /** A parsed list in its place: all nodes of both trees, each once. */
  lemma {:induction false} WithSubShape(m: Mem, t: Tree, p: Tlv?, x: Tlv, s: Tree)
    requires Holds(m, t, p) && Apart(t) && x in Refs(t) && x in m && m[x].embedded == null
    requires Apart(s) && Refs(s) !! Refs(t)
    ensures var r := WithSub(t, x, s); Apart(r) && Refs(r) == Refs(t) + Refs(s) && Count(r) == Count(t) + Count(s)
  {
    if t.node == x {
      assert Holds(m, t.sub, null);
    } else if x in Refs(t.sub) {
      WithSubShape(m, t.sub, m[t.node].embedded, x, s);
      ApartSub(t, WithSub(t.sub, x, s), Refs(s));
    } else {
      WithSubShape(m, t.next, m[t.node].next, x, s);
      ApartNext(t, WithSub(t.next, x, s), Refs(s));
    }
  }

  lemma ApartSub(t: Tree, s: Tree, more: set<Tlv>)
    requires t.Cons? && Apart(t) && Apart(s) && Refs(s) == Refs(t.sub) + more && more !! Refs(t)
    ensures var r := Cons(t.node, t.item, s, t.next); Apart(r) && Refs(r) == Refs(t) + more
  {
  }

  lemma ApartNext(t: Tree, r: Tree, more: set<Tlv>)
    requires t.Cons? && Apart(t) && Apart(r) && Refs(r) == Refs(t.next) + more && more !! Refs(t)
    ensures var r' := Cons(t.node, t.item, t.sub, r); Apart(r') && Refs(r') == Refs(t) + more
  {
  }

  lemma {:induction false} WithSubHolds(m: Mem, m': Mem, t: Tree, p: Tlv?, x: Tlv, s: Tree, sub: Tlv)
    requires Holds(m, t, p) && Apart(t) && x in Refs(t) && x in m && m[x].embedded == null
    requires x in m' && m'[x] == m[x].(embedded := sub) && Agree(m, m', Refs(t) - {x}) && Holds(m', s, sub)
    ensures Holds(m', WithSub(t, x, s), p)
  {
    if t.node == x {
      assert s.Cons?;
      HoldsFrame(m, m', t.next, m[x].next);
    } else if x in Refs(t.sub) {
      WithSubHolds(m, m', t.sub, m[t.node].embedded, x, s, sub);
      HoldsFrame(m, m', t.next, m[t.node].next);
    } else {
      WithSubHolds(m, m', t.next, m[t.node].next, x, s, sub);
      HoldsFrame(m, m', t.sub, m[t.node].embedded);
    }
  }
}
