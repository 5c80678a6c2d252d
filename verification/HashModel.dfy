/**
  What the linked entries of a hash table represent, stated on a snapshot of
  their fields.
*/
module HashModel {
  import opened Common

  type Key = seq<nat>

  class Entry<V> {
    var next: Entry?<V>
    var hash: nat
    var key: Key
    var val: V

    constructor (next: Entry?<V>, hash: nat, key: Key, val: V)
      ensures this.next == next && this.hash == hash && this.key == key && this.val == val
    {
      this.next, this.hash, this.key, this.val := next, hash, key, val;
    }
  }

  datatype Cell<V> = Cell(next: Entry?<V>, hash: nat, key: Key, val: V)

  type Mem<V> = map<Entry<V>, Cell<V>>

  /** `m` is what the entries it knows hold now. */
  ghost predicate Synced<V>(m: Mem<V>)
    reads m.Keys
  {
    forall e {:trigger m[e]} :: e in m ==> m[e] == Cell(e.next, e.hash, e.key, e.val)
  }

  ghost function Nth<V>(s: seq<Entry<V>>, i: int): (e: Entry?<V>) {
    if 0 <= i < |s| then s[i] else null
  }

  /** From `h`, the `next` links run through exactly `s`. */
  ghost predicate Linked<V>(m: Mem<V>, h: Entry?<V>, s: seq<Entry<V>>) {
    h == Nth(s, 0) &&
    (forall i, j :: 0 <= i < j < |s| ==> s[i] != s[j]) &&
    (forall i {:trigger s[i]} :: 0 <= i < |s| ==> s[i] in m && m[s[i]].next == Nth(s, i + 1))
  }

  /** `m'` differs from `m` on `changed` only. */
  ghost predicate Only<V>(m: Mem<V>, m': Mem<V>, changed: set<Entry<V>>) {
    forall e :: e in m && e !in changed ==> e in m' && m'[e] == m[e]
  }

  ghost predicate Apart<V>(s: seq<Entry<V>>, t: set<Entry<V>>) {
    forall i :: 0 <= i < |s| ==> s[i] !in t
  }

  lemma LinkedFrame<V>(m: Mem<V>, m': Mem<V>, h: Entry?<V>, s: seq<Entry<V>>, changed: set<Entry<V>>)
    requires Linked(m, h, s) && Only(m, m', changed) && Apart(s, changed)
    ensures Linked(m', h, s)
  {
  }

  lemma LinkedFront<V>(m: Mem<V>, h: Entry?<V>, s: seq<Entry<V>>, e: Entry<V>)
    requires Linked(m, h, s) && e !in s && e in m && m[e].next == h
    ensures Linked(m, e, [e] + s)
  {
    var r := [e] + s;
    forall i {:trigger r[i]} | 0 <= i < |r| ensures r[i] in m && m[r[i]].next == Nth(r, i + 1) {
      if i > 0 {
        assert r[i] == s[i - 1];
      }
    }
  }

  lemma LinkedTail<V>(m: Mem<V>, h: Entry?<V>, s: seq<Entry<V>>)
    requires Linked(m, h, s) && s != []
    ensures h == s[0] && Linked(m, m[s[0]].next, s[1..])
  {
    var r := s[1..];
    forall i {:trigger r[i]} | 0 <= i < |r| ensures r[i] in m && m[r[i]].next == Nth(r, i + 1) {
      assert r[i] == s[i + 1];
    }
  }

  /** Hanging a new last entry behind the last one. */
  lemma LinkedBack<V>(m: Mem<V>, m': Mem<V>, h: Entry?<V>, s: seq<Entry<V>>, e: Entry<V>)
    requires Linked(m, h, s) && e !in s && e in m' && m'[e].next == null
    requires forall i :: 0 <= i < |s| - 1 ==> s[i] in m' && m'[s[i]] == m[s[i]]
    requires s != [] ==> s[|s| - 1] in m' && m'[s[|s| - 1]].next == e
    ensures Linked(m', if s == [] then e else h, s + [e])
  {
    var r := s + [e];
    forall i {:trigger r[i]} | 0 <= i < |r| ensures r[i] in m' && m'[r[i]].next == Nth(r, i + 1) {
      if i < |s| {
        assert r[i] == s[i];
      }
    }
  }

  ghost function Removed<V>(s: seq<Entry<V>>, k: nat): (r: seq<Entry<V>>)
    requires k < |s|
  {
    s[..k] + s[k + 1..]
  }

  /** Unlinking the entry at position `k`. */
  lemma LinkedWithout<V>(m: Mem<V>, m': Mem<V>, h: Entry?<V>, s: seq<Entry<V>>, k: nat)
    requires Linked(m, h, s) && k < |s|
    requires forall i :: 0 <= i < |s| && i != k && i + 1 != k ==> s[i] in m' && m'[s[i]] == m[s[i]]
    requires k > 0 ==> s[k - 1] in m' && m'[s[k - 1]].next == m[s[k]].next
    ensures Linked(m', if k == 0 then m[s[0]].next else h, Removed(s, k))
  {
    var r := Removed(s, k);
    forall i {:trigger r[i]} | 0 <= i < |r| ensures r[i] in m' && m'[r[i]].next == Nth(r, i + 1) {
      var j := if i < k then i else i + 1;
      assert r[i] == s[j];
    }
  }

  // -------------------------------------------------------------- a whole table

  /** Which entry holds each bound key. */
  type Directory<V> = map<Key, Entry<V>>

  ghost predicate Listed<V>(m: Mem<V>, dir: Directory<V>) {
    forall k {:trigger dir[k]} :: k in dir ==> dir[k] in m && m[dir[k]].key == k
  }

  /** `e` is the entry of its key. */
  ghost predicate Live<V>(m: Mem<V>, dir: Directory<V>, e: Entry<V>) {
    e in m && m[e].key in dir && dir[m[e].key] == e
  }

  ghost function Bindings<V>(m: Mem<V>, dir: Directory<V>): (r: map<Key, V>)
    requires Listed(m, dir)
    ensures r.Keys == dir.Keys && |r| == |dir|
  {
    var r := map k | k in dir :: m[dir[k]].val;
    assert r.Keys == dir.Keys;
    r
  }

  /** The bucket of a hash: `hash & max`. */
  function Bucket(hash: nat, max: nat): (b: nat)
    ensures b <= max
  {
    BitAnd(hash, max)
  }

  /** An entry that may stand in chain `b`. */
  ghost predicate Belongs<V>(m: Mem<V>, dir: Directory<V>, e: Entry<V>, b: nat, max: nat, hashOf: Key -> nat) {
    Live(m, dir, e) && m[e].hash == hashOf(m[e].key) && Bucket(m[e].hash, max) == b
  }

  ghost predicate AllBelong<V>(m: Mem<V>, dir: Directory<V>, s: seq<Entry<V>>, b: nat, max: nat, hashOf: Key -> nat) {
    forall i {:trigger s[i]} :: 0 <= i < |s| ==> Belongs(m, dir, s[i], b, max, hashOf)
  }

  /** Chain `c` starts at its head and holds entries of its bucket only. */
  ghost predicate ChainOk<V>(m: Mem<V>, head: Entry?<V>, s: seq<Entry<V>>, dir: Directory<V>, c: nat, max: nat,
                             hashOf: Key -> nat) {
    Linked(m, head, s) && AllBelong(m, dir, s, c, max, hashOf)
  }

  ghost predicate Found<V>(chains: seq<seq<Entry<V>>>, dir: Directory<V>, k: Key, hashOf: Key -> nat)
    requires |chains| > 0 && k in dir
  {
    dir[k] in chains[Bucket(hashOf(k), |chains| - 1)]
  }

  /** The entry of every bound key is in the chain of the key's hash. */
  ghost predicate Indexed<V>(chains: seq<seq<Entry<V>>>, dir: Directory<V>, hashOf: Key -> nat)
    requires |chains| > 0
  {
    forall k {:trigger Found(chains, dir, k, hashOf)} :: k in dir ==> Found(chains, dir, k, hashOf)
  }

  ghost predicate ChainAt<V>(m: Mem<V>, heads: seq<Entry?<V>>, chains: seq<seq<Entry<V>>>, dir: Directory<V>, c: nat,
                             hashOf: Key -> nat)
    requires |heads| == |chains| && c < |chains|
  {
    ChainOk(m, heads[c], chains[c], dir, c, |chains| - 1, hashOf)
  }

  ghost predicate AllChains<V>(m: Mem<V>, heads: seq<Entry?<V>>, chains: seq<seq<Entry<V>>>, dir: Directory<V>,
                               hashOf: Key -> nat)
    requires |heads| == |chains|
  {
    forall c :: 0 <= c < |chains| ==> ChainAt(m, heads, chains, dir, c, hashOf)
  }

  /** The chains are a hash table for the directory. */
  ghost predicate Table<V>(m: Mem<V>, heads: seq<Entry?<V>>, chains: seq<seq<Entry<V>>>, dir: Directory<V>,
                           hashOf: Key -> nat) {
    |heads| == |chains| > 0 && Listed(m, dir) && AllChains(m, heads, chains, dir, hashOf) &&
      Indexed(chains, dir, hashOf)
  }

  /** No entry of `s` has the key. */
  ghost predicate NoneHas<V>(m: Mem<V>, s: seq<Entry<V>>, key: Key) {
    forall j {:trigger s[j]} :: 0 <= j < |s| ==> s[j] in m && m[s[j]].key != key
  }

  /** An entry with the key would have the hash. */
  ghost predicate Hashed<V>(m: Mem<V>, s: seq<Entry<V>>, key: Key, hash: nat) {
    forall j {:trigger s[j]} :: 0 <= j < |s| ==> s[j] in m && (m[s[j]].key == key ==> m[s[j]].hash == hash)
  }

  lemma ChainHashed<V>(m: Mem<V>, heads: seq<Entry?<V>>, chains: seq<seq<Entry<V>>>, dir: Directory<V>,
                       hashOf: Key -> nat, b: nat, key: Key)
    requires Table(m, heads, chains, dir, hashOf) && b < |chains|
    ensures Linked(m, heads[b], chains[b]) && Hashed(m, chains[b], key, hashOf(key))
  {
    assert ChainAt(m, heads, chains, dir, b, hashOf);
    forall j {:trigger chains[b][j]} | 0 <= j < |chains[b]|
      ensures chains[b][j] in m && (m[chains[b][j]].key == key ==> m[chains[b][j]].hash == hashOf(key))
    {
      assert Belongs(m, dir, chains[b][j], b, |chains| - 1, hashOf);
    }
  }

  /** Where the search in the chain of a key's bucket stops, there is the key's entry, or the key is not bound. */
  lemma KeyInBucket<V>(m: Mem<V>, heads: seq<Entry?<V>>, chains: seq<seq<Entry<V>>>, dir: Directory<V>,
                       hashOf: Key -> nat, key: Key, i: nat)
    requires Table(m, heads, chains, dir, hashOf)
    requires var s := chains[Bucket(hashOf(key), |chains| - 1)];
             i <= |s| && NoneHas(m, s[..i], key) && (i < |s| ==> s[i] in m && m[s[i]].key == key)
    ensures var s := chains[Bucket(hashOf(key), |chains| - 1)];
            (i < |s| <==> key in dir) && (i < |s| ==> dir[key] == s[i])
  {
    var b := Bucket(hashOf(key), |chains| - 1);
    var s := chains[b];
    assert ChainAt(m, heads, chains, dir, b, hashOf);
    assert key in dir ==> Found(chains, dir, key, hashOf);
    if i < |s| {
      assert Belongs(m, dir, s[i], b, |chains| - 1, hashOf);
    } else {
      assert s[..i] == s;
    }
  }

  /** The recycled entries are linked from `spare` and hold no binding. */
  ghost predicate Spare<V>(m: Mem<V>, dir: Directory<V>, spare: Entry?<V>, free: seq<Entry<V>>) {
    Linked(m, spare, free) && forall i {:trigger free[i]} :: 0 <= i < |free| ==> !Live(m, dir, free[i])
  }

  /** Apart from `e`, only `next` links differ. */
  ghost predicate DataKept<V>(m: Mem<V>, m': Mem<V>, e: Entry<V>) {
    forall f {:trigger m[f]} {:trigger m'[f]} :: f in m && f != e ==>
      f in m' && m'[f].key == m[f].key && m'[f].hash == m[f].hash && m'[f].val == m[f].val
  }

  lemma BelongKept<V>(m: Mem<V>, m': Mem<V>, dir: Directory<V>, dir': Directory<V>, s: seq<Entry<V>>, b: nat, max: nat,
                      hashOf: Key -> nat, e: Entry<V>, key: Key)
    requires AllBelong(m, dir, s, b, max, hashOf) && DataKept(m, m', e) && e !in s
    requires forall k :: k in dir && k != key ==> k in dir' && dir'[k] == dir[k]
    requires forall i :: 0 <= i < |s| ==> s[i] in m && m[s[i]].key != key
    ensures AllBelong(m', dir', s, b, max, hashOf)
  {
  }

  /** In a chain, only the entry of a key has that key. */
  lemma OthersHaveOtherKeys<V>(m: Mem<V>, dir: Directory<V>, s: seq<Entry<V>>, b: nat, max: nat, hashOf: Key -> nat,
                               e: Entry<V>)
    requires AllBelong(m, dir, s, b, max, hashOf) && Live(m, dir, e) && e !in s
    ensures forall i :: 0 <= i < |s| ==> s[i] in m && m[s[i]].key != m[e].key
  {
  }

  ghost function MemLinked<V>(m: Mem<V>, prev: Entry?<V>, x: Entry?<V>): (m': Mem<V>)
    requires prev != null ==> prev in m
  {
    if prev == null then m else m[prev := m[prev].(next := x)]
  }

  ghost function HeadsLinked<V>(heads: seq<Entry?<V>>, b: nat, prev: Entry?<V>, x: Entry?<V>): (heads': seq<Entry?<V>>)
    requires b < |heads|
  {
    if prev == null then heads[b := x] else heads
  }

  /** The memory after a new last entry `e` is hung behind `prev`. */
  ghost function MemAdded<V>(m: Mem<V>, prev: Entry?<V>, e: Entry<V>, hash: nat, key: Key, val: V): (m': Mem<V>)
    requires prev != null ==> prev in m
  {
    MemLinked(m[e := Cell(null, hash, key, val)], prev, e)
  }

  /** The chain that gets the new binding. */
  lemma AddHere<V>(m: Mem<V>, head: Entry?<V>, s: seq<Entry<V>>, dir: Directory<V>, b: nat, max: nat,
                   hashOf: Key -> nat,
                   e: Entry<V>, key: Key, val: V)
    requires ChainOk(m, head, s, dir, b, max, hashOf) && b == Bucket(hashOf(key), max)
    requires key !in dir && (e in m ==> !Live(m, dir, e))
    ensures var prev := Nth(s, |s| - 1);
            && (prev != null ==> prev in m)
            && var m' := MemAdded(m, prev, e, hashOf(key), key, val);
               ChainOk(m', if prev == null then e else head, s + [e], dir[key := e], b, max, hashOf)
  {
    var prev := Nth(s, |s| - 1);
    var m' := MemAdded(m, prev, e, hashOf(key), key, val);
    assert forall i {:trigger s[i]} :: 0 <= i < |s| ==> Live(m, dir, s[i]) && s[i] != e;
    assert Linked(m', if prev == null then e else head, s + [e]) by {
      LinkedBack(m, m', head, s, e);
    }
    assert AllBelong(m', dir[key := e], s + [e], b, max, hashOf) by {
      BelongKept(m, m', dir, dir[key := e], s, b, max, hashOf, e, key);
    }
  }

  /** A chain that does not. */
  lemma AddElsewhere<V>(m: Mem<V>, head: Entry?<V>, s: seq<Entry<V>>, dir: Directory<V>, c: nat, max: nat,
                        hashOf: Key -> nat,
                        prev: Entry?<V>, e: Entry<V>, key: Key, val: V)
    requires ChainOk(m, head, s, dir, c, max, hashOf)
    requires key !in dir && (e in m ==> !Live(m, dir, e))
    requires prev != null ==> prev in m && Bucket(m[prev].hash, max) != c
    ensures var m' := MemAdded(m, prev, e, hashOf(key), key, val);
            ChainOk(m', head, s, dir[key := e], c, max, hashOf)
  {
    var m' := MemAdded(m, prev, e, hashOf(key), key, val);
    assert forall i {:trigger s[i]} :: 0 <= i < |s| ==>
      Belongs(m, dir, s[i], c, max, hashOf) && s[i] != e && s[i] != prev;
    LinkedFrame(m, m', head, s, {e} + (if prev == null then {} else {prev}));
    BelongKept(m, m', dir, dir[key := e], s, c, max, hashOf, e, key);
  }

  lemma AddListed<V>(m: Mem<V>, dir: Directory<V>, prev: Entry?<V>, e: Entry<V>, hash: nat, key: Key, val: V)
    requires Listed(m, dir) && key !in dir && (e in m ==> !Live(m, dir, e)) && (prev != null ==> prev in m && prev != e)
    ensures Listed(MemAdded(m, prev, e, hash, key, val), dir[key := e])
  {
  }

  lemma AddIndexed<V>(chains: seq<seq<Entry<V>>>, dir: Directory<V>, hashOf: Key -> nat, e: Entry<V>, key: Key)
    requires |chains| > 0 && Indexed(chains, dir, hashOf) && key !in dir
    ensures var b := Bucket(hashOf(key), |chains| - 1); Indexed(chains[b := chains[b] + [e]], dir[key := e], hashOf)
  {
    var b := Bucket(hashOf(key), |chains| - 1);
    var chains', dir' := chains[b := chains[b] + [e]], dir[key := e];
    forall k {:trigger Found(chains', dir', k, hashOf)} | k in dir' ensures Found(chains', dir', k, hashOf) {
      if k != key {
        assert Found(chains, dir, k, hashOf);
      } else {
        assert (chains[b] + [e])[|chains[b]|] == e;
      }
    }
  }

  /** A new binding at the end of its chain. */
  lemma AddKeeps<V>(m: Mem<V>, heads: seq<Entry?<V>>, chains: seq<seq<Entry<V>>>, dir: Directory<V>, hashOf: Key -> nat,
                    e: Entry<V>, key: Key, val: V, b: nat, prev: Entry?<V>,
                    m': Mem<V>, heads': seq<Entry?<V>>, chains': seq<seq<Entry<V>>>, dir': Directory<V>)
    requires Table(m, heads, chains, dir, hashOf) && key !in dir && (e in m ==> !Live(m, dir, e))
    requires b == Bucket(hashOf(key), |chains| - 1)
    requires prev == Nth(chains[b], |chains[b]| - 1) && (prev != null ==> prev in m)
    requires m' == MemAdded(m, prev, e, hashOf(key), key, val) && heads' == HeadsLinked(heads, b, prev, e)
    requires chains' == chains[b := chains[b] + [e]] && dir' == dir[key := e]
    ensures Table(m', heads', chains', dir', hashOf)
  {
    LinkerIsLive(m, heads, chains, dir, hashOf, b, |chains[b]|);
    AddListed(m, dir, prev, e, hashOf(key), key, val);
    AddIndexed(chains, dir, hashOf, e, key);
    AddChains(m, heads, chains, dir, hashOf, e, key, val, b, prev);
  }

  lemma AddChains<V>(m: Mem<V>, heads: seq<Entry?<V>>, chains: seq<seq<Entry<V>>>, dir: Directory<V>,
                     hashOf: Key -> nat, e: Entry<V>, key: Key, val: V, b: nat, prev: Entry?<V>)
    requires |heads| == |chains| > 0 && AllChains(m, heads, chains, dir, hashOf)
    requires key !in dir && (e in m ==> !Live(m, dir, e)) && b == Bucket(hashOf(key), |chains| - 1)
    requires prev == Nth(chains[b], |chains[b]| - 1) && (prev != null ==> prev in m)
    ensures AllChains(MemAdded(m, prev, e, hashOf(key), key, val), HeadsLinked(heads, b, prev, e),
                      chains[b := chains[b] + [e]], dir[key := e], hashOf)
  {
    var m', heads' := MemAdded(m, prev, e, hashOf(key), key, val), HeadsLinked(heads, b, prev, e);
    var chains', dir' := chains[b := chains[b] + [e]], dir[key := e];
    forall c | 0 <= c < |chains| ensures ChainAt(m', heads', chains', dir', c, hashOf) {
      AddChain(m, heads, chains, dir, hashOf, e, key, val, b, prev, c);
    }
  }

  lemma IsChain<V>(m: Mem<V>, heads: seq<Entry?<V>>, chains: seq<seq<Entry<V>>>, dir: Directory<V>, c: nat,
                   hashOf: Key -> nat, head: Entry?<V>, s: seq<Entry<V>>, max: nat)
    requires |heads| == |chains| == max + 1 > c && heads[c] == head && chains[c] == s
    requires ChainOk(m, head, s, dir, c, max, hashOf)
    ensures ChainAt(m, heads, chains, dir, c, hashOf)
  {
  }

  lemma LinkerBelongs<V>(m: Mem<V>, heads: seq<Entry?<V>>, chains: seq<seq<Entry<V>>>, dir: Directory<V>, b: nat,
                         hashOf: Key -> nat, i: nat)
    requires |heads| == |chains| > b && AllChains(m, heads, chains, dir, hashOf) && i <= |chains[b]|
    ensures var prev := Nth(chains[b], i - 1); prev != null ==> Belongs(m, dir, prev, b, |chains| - 1, hashOf)
  {
    assert ChainAt(m, heads, chains, dir, b, hashOf);
  }

  lemma AddChain<V>(m: Mem<V>, heads: seq<Entry?<V>>, chains: seq<seq<Entry<V>>>, dir: Directory<V>,
                    hashOf: Key -> nat, e: Entry<V>, key: Key, val: V, b: nat, prev: Entry?<V>, c: nat)
    requires |heads| == |chains| > c && AllChains(m, heads, chains, dir, hashOf)
    requires key !in dir && (e in m ==> !Live(m, dir, e)) && b == Bucket(hashOf(key), |chains| - 1)
    requires prev == Nth(chains[b], |chains[b]| - 1) && (prev != null ==> prev in m)
    ensures ChainAt(MemAdded(m, prev, e, hashOf(key), key, val), HeadsLinked(heads, b, prev, e),
                    chains[b := chains[b] + [e]], dir[key := e], c, hashOf)
  {
    var max := |chains| - 1;
    assert ChainAt(m, heads, chains, dir, c, hashOf);
    var m', heads' := MemAdded(m, prev, e, hashOf(key), key, val), HeadsLinked(heads, b, prev, e);
    var chains', dir' := chains[b := chains[b] + [e]], dir[key := e];
    if c == b {
      AddHere(m, heads[b], chains[b], dir, b, max, hashOf, e, key, val);
      IsChain(m', heads', chains', dir', c, hashOf, if prev == null then e else heads[b], chains[b] + [e], max);
    } else {
      LinkerBelongs(m, heads, chains, dir, b, hashOf, |chains[b]|);
      AddElsewhere(m, heads[c], chains[c], dir, c, max, hashOf, prev, e, key, val);
      IsChain(m', heads', chains', dir', c, hashOf, heads[c], chains[c], max);
    }
  }

  /** The memory after `e`, linked from `prev`, has gone to the front of the free list. */
  ghost function MemRemoved<V>(m: Mem<V>, prev: Entry?<V>, e: Entry<V>, spare: Entry?<V>): (m': Mem<V>)
    requires e in m && (prev != null ==> prev in m)
  {
    var m1 := MemLinked(m, prev, m[e].next);
    m1[e := m1[e].(next := spare)]
  }

  lemma RemoveHere<V>(m: Mem<V>, head: Entry?<V>, s: seq<Entry<V>>, dir: Directory<V>, b: nat, max: nat,
                      hashOf: Key -> nat,
                      i: nat, spare: Entry?<V>)
    requires ChainOk(m, head, s, dir, b, max, hashOf) && i < |s|
    ensures var e, prev := s[i], Nth(s, i - 1);
            && e in m && (prev != null ==> prev in m)
            && var m' := MemRemoved(m, prev, e, spare);
               ChainOk(m', if prev == null then m[e].next else head, Removed(s, i), dir - {m[e].key}, b, max, hashOf)
  {
    var e, prev := s[i], Nth(s, i - 1);
    assert Belongs(m, dir, e, b, max, hashOf);
    var m' := MemRemoved(m, prev, e, spare);
    LinkedWithout(m, m', head, s, i);
    var r := Removed(s, i);
    forall j {:trigger r[j]} | 0 <= j < |r| ensures Belongs(m', dir - {m[e].key}, r[j], b, max, hashOf) {
      assert r[j] == s[if j < i then j else j + 1];
      assert Belongs(m, dir, r[j], b, max, hashOf) && r[j] != e;
    }
  }

  lemma RemoveElsewhere<V>(m: Mem<V>, head: Entry?<V>, s: seq<Entry<V>>, dir: Directory<V>, c: nat, b: nat, max: nat,
                           hashOf: Key -> nat,
                           prev: Entry?<V>, e: Entry<V>, spare: Entry?<V>)
    requires ChainOk(m, head, s, dir, c, max, hashOf) && b != c && Belongs(m, dir, e, b, max, hashOf)
    requires prev != null ==> Belongs(m, dir, prev, b, max, hashOf)
    ensures ChainOk(MemRemoved(m, prev, e, spare), head, s, dir - {m[e].key}, c, max, hashOf)
  {
    var m' := MemRemoved(m, prev, e, spare);
    assert forall i {:trigger s[i]} :: 0 <= i < |s| ==>
      Belongs(m, dir, s[i], c, max, hashOf) && s[i] != e && s[i] != prev;
    LinkedFrame(m, m', head, s, {e} + (if prev == null then {} else {prev}));
    OthersHaveOtherKeys(m, dir, s, c, max, hashOf, e);
    BelongKept(m, m', dir, dir - {m[e].key}, s, c, max, hashOf, e, m[e].key);
  }

  lemma RemoveListed<V>(m: Mem<V>, dir: Directory<V>, prev: Entry?<V>, e: Entry<V>, spare: Entry?<V>)
    requires Listed(m, dir) && Live(m, dir, e) && (prev != null ==> prev in m && prev != e)
    ensures Listed(MemRemoved(m, prev, e, spare), dir - {m[e].key})
  {
  }

  lemma RemoveSpare<V>(m: Mem<V>, dir: Directory<V>, prev: Entry?<V>, e: Entry<V>, spare: Entry?<V>,
                       free: seq<Entry<V>>,
                       m': Mem<V>, dir': Directory<V>)
    requires Spare(m, dir, spare, free) && Live(m, dir, e) && (prev != null ==> Live(m, dir, prev) && prev != e)
    requires m' == MemRemoved(m, prev, e, spare) && dir' == dir - {m[e].key}
    ensures Spare(m', dir', e, [e] + free)
  {
    LinkedFrame(m, m', spare, free, {e} + (if prev == null then {} else {prev}));
    LinkedFront(m', spare, free, e);
    forall i {:trigger ([e] + free)[i]} | 0 <= i < |free| + 1 ensures !Live(m', dir', ([e] + free)[i]) {
      if i > 0 {
        assert ([e] + free)[i] == free[i - 1];
      }
    }
  }

  /** Taking a binding out. */
  lemma RemoveKeeps<V>(m: Mem<V>, heads: seq<Entry?<V>>, chains: seq<seq<Entry<V>>>, dir: Directory<V>,
                       hashOf: Key -> nat,
                       b: nat, i: nat, e: Entry<V>, prev: Entry?<V>, spare: Entry?<V>,
                       m': Mem<V>, heads': seq<Entry?<V>>, chains': seq<seq<Entry<V>>>, dir': Directory<V>)
    requires Table(m, heads, chains, dir, hashOf) && b < |chains| && i < |chains[b]|
    requires e == chains[b][i] && prev == Nth(chains[b], i - 1) && Live(m, dir, e)
    requires prev != null ==> Live(m, dir, prev) && prev != e
    requires m' == MemRemoved(m, prev, e, spare) && heads' == HeadsLinked(heads, b, prev, m[e].next)
    requires chains' == chains[b := Removed(chains[b], i)] && dir' == dir - {m[e].key}
    ensures Table(m', heads', chains', dir', hashOf)
  {
    RemoveListed(m, dir, prev, e, spare);
    RemoveIndexed(m, chains, dir, hashOf, b, i);
    RemoveChains(m, heads, chains, dir, hashOf, b, i, e, prev, spare);
  }

  lemma RemoveChains<V>(m: Mem<V>, heads: seq<Entry?<V>>, chains: seq<seq<Entry<V>>>, dir: Directory<V>,
                        hashOf: Key -> nat, b: nat, i: nat, e: Entry<V>, prev: Entry?<V>, spare: Entry?<V>)
    requires |heads| == |chains| && AllChains(m, heads, chains, dir, hashOf) && b < |chains| && i < |chains[b]|
    requires e == chains[b][i] && prev == Nth(chains[b], i - 1) && Live(m, dir, e)
    requires prev != null ==> Live(m, dir, prev) && prev != e
    ensures AllChains(MemRemoved(m, prev, e, spare), HeadsLinked(heads, b, prev, m[e].next),
                      chains[b := Removed(chains[b], i)], dir - {m[e].key}, hashOf)
  {
    var m', heads' := MemRemoved(m, prev, e, spare), HeadsLinked(heads, b, prev, m[e].next);
    var chains', dir' := chains[b := Removed(chains[b], i)], dir - {m[e].key};
    forall c | 0 <= c < |chains| ensures ChainAt(m', heads', chains', dir', c, hashOf) {
      RemoveChain(m, heads, chains, dir, hashOf, b, i, e, prev, spare, c);
    }
  }

  lemma ChainIs<V>(m: Mem<V>, heads: seq<Entry?<V>>, chains: seq<seq<Entry<V>>>, dir: Directory<V>, c: nat,
                   hashOf: Key -> nat)
    requires |heads| == |chains| > c && AllChains(m, heads, chains, dir, hashOf)
    ensures ChainOk(m, heads[c], chains[c], dir, c, |chains| - 1, hashOf)
  {
    assert ChainAt(m, heads, chains, dir, c, hashOf);
  }

  lemma RemoveFromChain<V>(m: Mem<V>, heads: seq<Entry?<V>>, chains: seq<seq<Entry<V>>>, dir: Directory<V>,
                           hashOf: Key -> nat, b: nat, i: nat, e: Entry<V>, prev: Entry?<V>, spare: Entry?<V>)
    requires |heads| == |chains| > b && AllChains(m, heads, chains, dir, hashOf) && i < |chains[b]|
    requires e == chains[b][i] && prev == Nth(chains[b], i - 1) && Live(m, dir, e)
    requires prev != null ==> Live(m, dir, prev) && prev != e
    ensures ChainOk(MemRemoved(m, prev, e, spare), if prev == null then m[e].next else heads[b], Removed(chains[b], i),
                    dir - {m[e].key}, b, |chains| - 1, hashOf)
  {
    ChainIs(m, heads, chains, dir, b, hashOf);
    RemoveHere(m, heads[b], chains[b], dir, b, |chains| - 1, hashOf, i, spare);
  }

  lemma KeepChain<V>(m: Mem<V>, heads: seq<Entry?<V>>, chains: seq<seq<Entry<V>>>, dir: Directory<V>,
                     hashOf: Key -> nat, b: nat, i: nat, e: Entry<V>, prev: Entry?<V>, spare: Entry?<V>, c: nat)
    requires |heads| == |chains| > b && AllChains(m, heads, chains, dir, hashOf) && i < |chains[b]|
    requires e == chains[b][i] && prev == Nth(chains[b], i - 1) && Live(m, dir, e)
    requires prev != null ==> Live(m, dir, prev) && prev != e
    requires c < |chains| && c != b
    ensures ChainOk(MemRemoved(m, prev, e, spare), heads[c], chains[c], dir - {m[e].key}, c, |chains| - 1, hashOf)
  {
    ChainIs(m, heads, chains, dir, c, hashOf);
    LinkerBelongs(m, heads, chains, dir, b, hashOf, i);
    LinkerBelongs(m, heads, chains, dir, b, hashOf, i + 1);
    RemoveElsewhere(m, heads[c], chains[c], dir, c, b, |chains| - 1, hashOf, prev, e, spare);
  }

  lemma RemoveChain<V>(m: Mem<V>, heads: seq<Entry?<V>>, chains: seq<seq<Entry<V>>>, dir: Directory<V>,
                       hashOf: Key -> nat, b: nat, i: nat, e: Entry<V>, prev: Entry?<V>, spare: Entry?<V>, c: nat)
    requires |heads| == |chains| > b && AllChains(m, heads, chains, dir, hashOf) && i < |chains[b]|
    requires e == chains[b][i] && prev == Nth(chains[b], i - 1) && Live(m, dir, e)
    requires prev != null ==> Live(m, dir, prev) && prev != e
    requires c < |chains|
    ensures ChainOk(MemRemoved(m, prev, e, spare), HeadsLinked(heads, b, prev, m[e].next)[c],
                    chains[b := Removed(chains[b], i)][c], dir - {m[e].key}, c, |chains| - 1, hashOf)
  {
    if c == b {
      RemoveFromChain(m, heads, chains, dir, hashOf, b, i, e, prev, spare);
    } else {
      KeepChain(m, heads, chains, dir, hashOf, b, i, e, prev, spare, c);
    }
  }

  lemma RemoveIndexed<V>(m: Mem<V>, chains: seq<seq<Entry<V>>>, dir: Directory<V>, hashOf: Key -> nat, b: nat, i: nat)
    requires |chains| > 0 && Listed(m, dir) && Indexed(chains, dir, hashOf)
    requires b < |chains| && i < |chains[b]| && chains[b][i] in m
    ensures Indexed(chains[b := Removed(chains[b], i)], dir - {m[chains[b][i]].key}, hashOf)
  {
    var s, key := chains[b], m[chains[b][i]].key;
    var chains', dir' := chains[b := Removed(s, i)], dir - {key};
    forall k {:trigger Found(chains', dir', k, hashOf)} | k in dir' ensures Found(chains', dir', k, hashOf) {
      assert Found(chains, dir, k, hashOf);
      StillThere(s, i, dir[k]);
    }
  }

  lemma StillThere<V>(s: seq<Entry<V>>, i: nat, x: Entry<V>)
    requires i < |s|
    ensures x in s && x != s[i] ==> x in Removed(s, i)
  {
    if x in s && x != s[i] {
      var j :| 0 <= j < |s| && s[j] == x;
      assert Removed(s, i)[if j < i then j else j - 1] == x;
    }
  }

  lemma ReplaceChain<V>(m: Mem<V>, heads: seq<Entry?<V>>, chains: seq<seq<Entry<V>>>, dir: Directory<V>, c: nat,
                        hashOf: Key -> nat, e: Entry<V>, val: V)
    requires |heads| == |chains| > c && ChainAt(m, heads, chains, dir, c, hashOf) && e in m
    ensures ChainAt(m[e := m[e].(val := val)], heads, chains, dir, c, hashOf)
  {
    var m', s, max := m[e := m[e].(val := val)], chains[c], |chains| - 1;
    forall i {:trigger s[i]} | 0 <= i < |s| ensures Belongs(m', dir, s[i], c, max, hashOf) {
      assert Belongs(m, dir, s[i], c, max, hashOf);
    }
  }

  /** Giving a bound key another value. */
  lemma ReplaceKeeps<V>(m: Mem<V>, heads: seq<Entry?<V>>, chains: seq<seq<Entry<V>>>, dir: Directory<V>,
                        hashOf: Key -> nat,
                        e: Entry<V>, val: V)
    requires Table(m, heads, chains, dir, hashOf) && Live(m, dir, e)
    ensures Table(m[e := m[e].(val := val)], heads, chains, dir, hashOf)
  {
    assert Listed(m[e := m[e].(val := val)], dir);
    ReplaceChains(m, heads, chains, dir, hashOf, e, val);
  }

  lemma ReplaceChains<V>(m: Mem<V>, heads: seq<Entry?<V>>, chains: seq<seq<Entry<V>>>, dir: Directory<V>,
                         hashOf: Key -> nat, e: Entry<V>, val: V)
    requires |heads| == |chains| && AllChains(m, heads, chains, dir, hashOf) && e in m
    ensures AllChains(m[e := m[e].(val := val)], heads, chains, dir, hashOf)
  {
    var m' := m[e := m[e].(val := val)];
    forall c | 0 <= c < |chains| ensures ChainAt(m', heads, chains, dir, c, hashOf) {
      ReplaceChain(m, heads, chains, dir, c, hashOf, e, val);
    }
  }

  lemma Overwritten<V>(b: map<Key, V>, key: Key, val: V)
    ensures b[key := val][key := val] == b[key := val]
  {
  }

  lemma NotThere<V>(b: map<Key, V>, key: Key)
    ensures key !in b ==> b - {key} == b
  {
  }

  lemma ReplaceBindings<V>(m: Mem<V>, dir: Directory<V>, e: Entry<V>, val: V)
    requires Listed(m, dir) && Live(m, dir, e)
    ensures Listed(m[e := m[e].(val := val)], dir)
    ensures Bindings(m[e := m[e].(val := val)], dir) == Bindings(m, dir)[m[e].key := val]
  {
    var a, b := Bindings(m[e := m[e].(val := val)], dir), Bindings(m, dir)[m[e].key := val];
    assert a.Keys == b.Keys;
    forall k | k in a ensures a[k] == b[k] {
      assert dir[k] == e <==> k == m[e].key;
    }
  }

  lemma AddBindings<V>(m: Mem<V>, m': Mem<V>, dir: Directory<V>, e: Entry<V>, key: Key)
    requires Listed(m, dir) && key !in dir && (e in m ==> !Live(m, dir, e)) && DataKept(m, m', e)
    requires Listed(m', dir[key := e]) && e in m'
    ensures Bindings(m', dir[key := e]) == Bindings(m, dir)[key := m'[e].val]
  {
    var a, b := Bindings(m', dir[key := e]), Bindings(m, dir)[key := m'[e].val];
    assert a.Keys == b.Keys;
    forall k | k in a ensures a[k] == b[k] {
      if k != key {
        assert m[dir[k]].val == m'[dir[k]].val;
      }
    }
  }

  lemma RemoveBindings<V>(m: Mem<V>, m': Mem<V>, dir: Directory<V>, e: Entry<V>)
    requires Listed(m, dir) && Live(m, dir, e) && DataKept(m, m', e)
    requires Listed(m', dir - {m[e].key})
    ensures Bindings(m', dir - {m[e].key}) == Bindings(m, dir) - {m[e].key}
  {
    var a, b := Bindings(m', dir - {m[e].key}), Bindings(m, dir) - {m[e].key};
    assert a.Keys == b.Keys;
    forall k | k in a ensures a[k] == b[k] {
      assert dir[k] != e;
    }
  }

  lemma RemovedBindings<V>(m: Mem<V>, dir: Directory<V>, prev: Entry?<V>, e: Entry<V>, spare: Entry?<V>, m': Mem<V>,
                           dir': Directory<V>)
    requires Listed(m, dir) && Live(m, dir, e) && (prev != null ==> Live(m, dir, prev) && prev != e)
    requires m' == MemRemoved(m, prev, e, spare) && dir' == dir - {m[e].key}
    ensures Listed(m', dir') && Bindings(m', dir') == Bindings(m, dir) - {m[e].key}
  {
    RemoveListed(m, dir, prev, e, spare);
    RemoveBindings(m, m', dir, e);
  }

  lemma SpareWithout<V>(m: Mem<V>, dir: Directory<V>, spare: Entry?<V>, free: seq<Entry<V>>, cell: Cell<V>)
    requires Spare(m, dir, spare, free) && free != [] && cell.key !in dir && Listed(m, dir)
    ensures Spare(m[free[0] := cell], dir, m[free[0]].next, free[1..]) && free[0] !in free[1..]
  {
    var m' := m[free[0] := cell];
    LinkedTail(m, spare, free);
    LinkedFrame(m, m', m[free[0]].next, free[1..], {free[0]});
  }

  lemma SpareExtended<V>(m: Mem<V>, dir: Directory<V>, spare: Entry?<V>, free: seq<Entry<V>>, e: Entry<V>,
                         cell: Cell<V>)
    requires Spare(m, dir, spare, free) && e !in m
    ensures Spare(m[e := cell], dir, spare, free) && e !in free
  {
    LinkedFrame(m, m[e := cell], spare, free, {e});
  }

  lemma SpareRelinked<V>(m: Mem<V>, dir: Directory<V>, spare: Entry?<V>, free: seq<Entry<V>>, prev: Entry?<V>,
                         e: Entry<V>, key: Key)
    requires Spare(m, dir, spare, free) && e !in free && key !in dir && (prev != null ==> Live(m, dir, prev))
    ensures Spare(MemLinked(m, prev, e), dir[key := e], spare, free)
  {
    LinkedFrame(m, MemLinked(m, prev, e), spare, free, if prev == null then {} else {prev});
  }

  lemma ReplaceSpare<V>(m: Mem<V>, dir: Directory<V>, spare: Entry?<V>, free: seq<Entry<V>>, e: Entry<V>, val: V)
    requires Spare(m, dir, spare, free) && e in m
    ensures Spare(m[e := m[e].(val := val)], dir, spare, free)
  {
  }

  lemma LinkerIsLive<V>(m: Mem<V>, heads: seq<Entry?<V>>, chains: seq<seq<Entry<V>>>, dir: Directory<V>,
                        hashOf: Key -> nat, b: nat, i: nat)
    requires Table(m, heads, chains, dir, hashOf) && b < |chains| && i <= |chains[b]|
    ensures var prev := Nth(chains[b], i - 1); prev != null ==> Live(m, dir, prev)
  {
    assert ChainAt(m, heads, chains, dir, b, hashOf);
    if i > 0 {
      assert Belongs(m, dir, chains[b][i - 1], b, |chains| - 1, hashOf);
    }
  }

  lemma OneLess<V>(dir: Directory<V>, key: Key)
    requires key in dir
    ensures |dir - {key}| == |dir| - 1
  {
    assert (dir - {key}).Keys == dir.Keys - {key};
  }

  lemma LinkerIsOther<V>(m: Mem<V>, heads: seq<Entry?<V>>, chains: seq<seq<Entry<V>>>, dir: Directory<V>,
                         hashOf: Key -> nat, b: nat, i: nat)
    requires Table(m, heads, chains, dir, hashOf) && b < |chains| && i < |chains[b]|
    ensures Nth(chains[b], i - 1) != chains[b][i]
  {
    assert ChainAt(m, heads, chains, dir, b, hashOf);
  }

  lemma AddedBindings<V>(m: Mem<V>, dir: Directory<V>, prev: Entry?<V>, e: Entry<V>, hash: nat, key: Key, val: V)
    requires Listed(m, dir) && key !in dir && (e in m ==> !Live(m, dir, e)) && (prev != null ==> Live(m, dir, prev))
    ensures var m', dir' := MemAdded(m, prev, e, hash, key, val), dir[key := e];
            Listed(m', dir') && Bindings(m', dir') == Bindings(m, dir)[key := val] && |dir'| == |dir| + 1
  {
    var m' := MemAdded(m, prev, e, hash, key, val);
    AddListed(m, dir, prev, e, hash, key, val);
    AddBindings(m, m', dir, e, key);
  }

  lemma AddedSpare<V>(m: Mem<V>, dir: Directory<V>, prev: Entry?<V>, e: Entry<V>, hash: nat, key: Key, val: V,
                      spare: Entry?<V>, free: seq<Entry<V>>,
                      m': Mem<V>, dir': Directory<V>)
    requires key !in dir && (e in m ==> !Live(m, dir, e)) && (prev != null ==> Live(m, dir, prev))
    requires Spare(m[e := Cell(null, hash, key, val)], dir, spare, free) && e !in free
    requires m' == MemAdded(m, prev, e, hash, key, val) && dir' == dir[key := e]
    ensures Spare(m', dir', spare, free)
  {
    SpareRelinked(m[e := Cell(null, hash, key, val)], dir, spare, free, prev, e, key);
  }

  // ------------------------------------------------------------------- masking

  /** The bitwise conjunction of two natural numbers. */
  function BitAnd(a: nat, b: nat): (r: nat)
    ensures r <= b
  {
    if a == 0 || b == 0 then 0
    else 2 * BitAnd(a / 2, b / 2) + (if a % 2 == 1 && b % 2 == 1 then 1 else 0)
  }

  /** One less than a power of two. */
  ghost predicate IsMask(max: nat) {
    exists n: nat :: max + 1 == Pow2(n)
  }

  /** Masking with one less than a power of two takes the remainder. */
  lemma {:induction false} MaskIsRemainder(a: nat, n: nat)
    ensures BitAnd(a, Pow2(n) - 1) == a % Pow2(n)
  {
    if n == 0 {
      assert Pow2(0) == 1 && a % 1 == 0;
    } else if a == 0 {
    } else {
      var p := Pow2(n - 1);
      MaskIsRemainder(a / 2, n - 1);
      MaskStep(a, p);
    }
  }

  /** So the bucket of a hash is its remainder by the number of buckets. */
  lemma BucketIsRemainder(hash: nat, max: nat)
    requires IsMask(max)
    ensures Bucket(hash, max) == hash % (max + 1)
  {
    var n: nat :| max + 1 == Pow2(n);
    MaskIsRemainder(hash, n);
  }

  lemma MaskStep(a: nat, p: nat)
    requires a > 0 && p > 0 && BitAnd(a / 2, p - 1) == (a / 2) % p
    ensures BitAnd(a, 2 * p - 1) == a % (2 * p)
  {
    assert (2 * p - 1) / 2 == p - 1 && (2 * p - 1) % 2 == 1;
    ModStep(a, p);
  }
}
