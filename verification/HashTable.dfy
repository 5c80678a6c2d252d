/**
  The chained hash table.
*/
module HashTables {
  import opened Common
  import opened HashModel
  import opened HashOrder

  /** The state of one iteration; `rest` is the part of the current chain from `next` on. */
  class HashIndex<V> {
    var current: Entry?<V>
    var next: Entry?<V>
    var index: nat
    ghost var rest: seq<Entry<V>>

    constructor ()
      ensures current == null && next == null && index == 0 && rest == []
    {
      current, next, index, rest := null, null, 0, [];
    }
  }

  const INITIAL_MAX: nat := 15

  class HashTable<V> {
    const hashFn: Key -> nat
    const walker: HashIndex<V>
    var buckets: array<Entry?<V>>
    var count: nat
    var max: nat
    var free: Entry?<V>
    ghost var m: Mem<V>
    ghost var chains: seq<seq<Entry<V>>>
    ghost var dir: Directory<V>
    ghost var spares: seq<Entry<V>>

    /** What holds apart from the chains. */
    ghost predicate Sized()
      reads this, buckets, m.Keys
    {
      && buckets.Length == max + 1 == |chains|
      && Synced(m) && Spare(m, dir, free, spares) && count == |dir|
    }

    ghost predicate Valid()
      reads this, buckets, m.Keys
    {
      Sized() && Table(m, buckets[..], chains, dir, hashFn)
    }

    /** What every operation finds and leaves. */
    ghost predicate Ready()
      reads this, buckets, m.Keys
    {
      Valid() && count <= max && [] !in dir && IsMask(max)
    }

    /** The map the table stands for. */
    ghost function Contents(): (r: map<Key, V>)
      requires Listed(m, dir)
      reads `m, `dir
    {
      Bindings(m, dir)
    }

    /** `ogs_hash_make_custom`. */
    constructor (hashFn: Key -> nat)
      ensures Ready() && Contents() == map[] && spares == [] && fresh(buckets) && fresh(walker) && this.hashFn == hashFn
    {
      this.hashFn := hashFn;
      walker := new HashIndex();
      buckets := new Entry?<V>[INITIAL_MAX + 1](_ => null);
      count, max, free := 0, INITIAL_MAX, null;
      m, dir, chains, spares := map[], map[], seq(INITIAL_MAX + 1, _ => []), [];
      new;
      assert 15 + 1 == Pow2(4);
    }

    /** The loop of `find_entry`: stops at the first entry with the key, or behind the last one. */
    method Search(head: Entry?<V>, key: Key, hash: nat, ghost s: seq<Entry<V>>)
      returns (prev: Entry?<V>, he: Entry?<V>, ghost i: nat)
      requires Synced(m) && Linked(m, head, s) && Hashed(m, s, key, hash)
      ensures i <= |s| && he == Nth(s, i) && prev == Nth(s, i - 1)
      ensures NoneHas(m, s[..i], key) && (i < |s| ==> s[i] in m && m[s[i]].key == key)
      ensures he == null || (he in s && he.key == key)
    {
      prev, he := null, head;
      i := 0;
      while he != null && !(he.hash == hash && |he.key| == |key| && he.key == key)
        invariant i <= |s| && he == Nth(s, i) && prev == Nth(s, i - 1)
        invariant NoneHas(m, s[..i], key)
        decreases |s| - i
      {
        assert s[..i + 1] == s[..i] + [s[i]];
        prev, he := he, he.next;
        i := i + 1;
      }
    }

    /** The link behind `prev` is the one to `he`, the entry at position `i` of chain `b`. */
    ghost predicate LinkAt(b: nat, prev: Entry?<V>, he: Entry?<V>, i: nat)
      reads `chains
    {
      b < |chains| && i <= |chains[b]| && he == Nth(chains[b], i) && prev == Nth(chains[b], i - 1)
    }

    /** `he` is the entry of the key, null when it has none. */
    ghost predicate EntryOf(key: Key, he: Entry?<V>)
      reads `dir
    {
      (he != null <==> key in dir) && (he != null ==> dir[key] == he)
    }

    /** Looks along the chain of the key; `prev` holds the link to `he`. */
    method Scan(key: Key, hash: nat) returns (b: nat, prev: Entry?<V>, he: Entry?<V>, ghost i: nat)
      requires Valid() && hash == hashFn(key)
      ensures b == Bucket(hash, max) && LinkAt(b, prev, he, i) && EntryOf(key, he)
    {
      b := Bucket(hash, max);
      ChainHashed(m, buckets[..], chains, dir, hashFn, b, key);
      prev, he, i := Search(buckets[b], key, hash, chains[b]);
      KeyInBucket(m, buckets[..], chains, dir, hashFn, key, i);
    }

    /** `*hep = x`, where `hep` is the bucket's head or the `next` field of `prev`. */
    method StoreLink(b: nat, prev: Entry?<V>, x: Entry?<V>)
      requires b < buckets.Length && Synced(m) && (prev != null ==> prev in m)
      modifies buckets, `m, m.Keys
      ensures Synced(m) && m.Keys == old(m.Keys) && m == MemLinked(old(m), prev, x)
      ensures buckets[..] == HeadsLinked(old(buckets[..]), b, prev, x)
    {
      if prev == null {
        buckets[b] := x;
      } else {
        prev.next := x;
        m := m[prev := m[prev].(next := x)];
      }
    }

    /** The recycled entries once the first of them, if there is one, is used again. */
    static ghost function OneUsed(s: seq<Entry<V>>): (r: seq<Entry<V>>) {
      if s == [] then [] else s[1..]
    }

    /** A recycled entry, or a new one when there is none. */
    method FreshEntry(hash: nat, key: Key, val: V) returns (e: Entry<V>)
      requires Synced(m) && Spare(m, dir, free, spares) && Listed(m, dir) && key !in dir
      modifies `m, `free, `spares, m.Keys
      ensures Synced(m) && m == old(m)[e := Cell(null, hash, key, val)] && (e in old(m) ==> !Live(old(m), dir, e))
      ensures Spare(m, dir, free, spares) && e !in spares && fresh(m.Keys - old(m.Keys))
      ensures spares == OneUsed(old(spares)) && (old(spares) != [] ==> e == old(spares)[0])
    {
      if free != null {
        e := free;
        assert spares != [] && spares[0] == e;
        LinkedTail(m, free, spares);
        SpareWithout(m, dir, free, spares, Cell(null, hash, key, val));
        free := e.next;
        e.next, e.hash, e.key, e.val := null, hash, key, val;
        spares := spares[1..];
      } else {
        e := new Entry(null, hash, key, val);
        SpareExtended(m, dir, free, spares, e, Cell(null, hash, key, val));
      }
      m := m[e := Cell(null, hash, key, val)];
    }

    /** Fills an entry and hangs it at `*hep`. */
    method Hang(b: nat, prev: Entry?<V>, hash: nat, key: Key, val: V) returns (e: Entry<V>)
      requires Synced(m) && Spare(m, dir, free, spares) && Listed(m, dir) && key !in dir
      requires b < buckets.Length && (prev != null ==> prev in m && Live(m, dir, prev))
      modifies `m, `free, `spares, `count, buckets, m.Keys
      ensures Synced(m) && m == MemAdded(old(m), prev, e, hash, key, val) && count == old(count) + 1
      ensures buckets[..] == HeadsLinked(old(buckets[..]), b, prev, e) && fresh(m.Keys - old(m.Keys))
      ensures e in old(m) ==> !Live(old(m), dir, e)
      ensures Spare(m, dir[key := e], free, spares)
      ensures spares == OneUsed(old(spares)) && (old(spares) != [] ==> e == old(spares)[0])
    {
      ghost var m0 := m;
      e := FreshEntry(hash, key, val);
      StoreLink(b, prev, e);
      count := count + 1;
      AddedSpare(m0, dir, prev, e, hash, key, val, free, spares, m, dir[key := e]);
    }

    /** The same, with the entry in the chain of its bucket. */
    method HangChained(b: nat, prev: Entry?<V>, hash: nat, key: Key, val: V) returns (e: Entry<V>)
      requires Sized() && Listed(m, dir) && key !in dir && b < |chains| && (prev != null ==> Live(m, dir, prev))
      modifies `m, `free, `spares, `chains, `dir, `count, buckets, m.Keys
      ensures Sized() && m == MemAdded(old(m), prev, e, hash, key, val) && count == old(count) + 1
      ensures buckets[..] == HeadsLinked(old(buckets[..]), b, prev, e) && fresh(m.Keys - old(m.Keys))
      ensures e in old(m) ==> !Live(old(m), old(dir), e)
      ensures dir == old(dir)[key := e] && chains == old(chains)[b := old(chains)[b] + [e]]
      ensures spares == OneUsed(old(spares)) && (old(spares) != [] ==> e == old(spares)[0])
    {
      e := Hang(b, prev, hash, key, val);
      assert |dir[key := e]| == |dir| + 1;
      dir := dir[key := e];
      chains := chains[b := chains[b] + [e]];
    }

    /** `find_entry` when the key is new and there is a value. */
    method AddEntry(b: nat, prev: Entry?<V>, hash: nat, key: Key, val: V) returns (e: Entry<V>)
      requires Valid() && key !in dir && hash == hashFn(key) && b == Bucket(hash, max)
      requires prev == Nth(chains[b], |chains[b]| - 1) && (prev != null ==> Live(m, dir, prev))
      modifies `m, `free, `spares, `chains, `dir, `count, buckets, m.Keys
      ensures Valid() && fresh(m.Keys - old(m.Keys)) && count == old(count) + 1
      ensures e in old(m) ==> !Live(old(m), old(dir), e)
      ensures m == MemAdded(old(m), prev, e, hash, key, val) && dir == old(dir)[key := e]
      ensures spares == OneUsed(old(spares)) && (old(spares) != [] ==> e == old(spares)[0])
    {
      ghost var m0, heads, chains0, dir0 := m, buckets[..], chains, dir;
      e := HangChained(b, prev, hash, key, val);
      assert Table(m, buckets[..], chains, dir, hashFn) by {
        AddKeeps(m0, heads, chains0, dir0, hashFn, e, key, val, b, prev, m, buckets[..], chains, dir);
      }
    }

    method Insert(b: nat, prev: Entry?<V>, hash: nat, key: Key, val: V) returns (e: Entry<V>)
      requires Valid() && key !in dir && hash == hashFn(key) && b == Bucket(hash, max)
      requires prev == Nth(chains[b], |chains[b]| - 1)
      modifies `m, `free, `spares, `chains, `dir, `count, buckets, m.Keys
      ensures Valid() && fresh(m.Keys - old(m.Keys)) && count == old(count) + 1 && EntryOf(key, e)
      ensures Contents() == old(Contents())[key := val]
      ensures spares == OneUsed(old(spares)) && (old(spares) != [] ==> m.Keys == old(m.Keys))
    {
      ghost var m0, dir0 := m, dir;
      LinkerIsLive(m, buckets[..], chains, dir, hashFn, b, |chains[b]|);
      e := AddEntry(b, prev, hash, key, val);
      AddedBindings(m0, dir0, prev, e, hash, key, val);
    }

    /** Finds the entry of a key; makes one for a new key when there is a value for it. */
    method FindEntry(key: Key, val: Option<V>) returns (b: nat, prev: Entry?<V>, he: Entry?<V>, ghost i: nat)
      requires Valid()
      modifies `m, `free, `spares, `chains, `dir, `count, buckets, m.Keys
      ensures Valid() && fresh(m.Keys - old(m.Keys))
      ensures EntryOf(key, he)
      ensures key in old(dir) || val.None? ==>
                && m.Keys == old(m.Keys) && dir == old(dir) && chains == old(chains) && count == old(count) &&
                  spares == old(spares) && Contents() == old(Contents())
                && LinkAt(b, prev, he, i)
      ensures key !in old(dir) && val.Some? ==>
              key in dir && count == old(count) + 1 && Contents() == old(Contents())[key := val.value]
      ensures key !in old(dir) && val.Some? ==>
              spares == OneUsed(old(spares)) && (old(spares) != [] ==> m.Keys == old(m.Keys))
      ensures max == old(max)
    {
      var hash := hashFn(key);
      b, prev, he, i := Scan(key, hash);
      if he == null && val.Some? {
        he := Insert(b, prev, hash, key, val.value);
      }
    }

    /** `(*hep)->val = val`. */
    method Replace(ghost key: Key, he: Entry<V>, val: V)
      requires Valid() && EntryOf(key, he)
      modifies `m, m.Keys
      ensures Valid() && m.Keys == old(m.Keys)
      ensures Contents() == old(Contents())[key := val]
    {
      ReplaceKeeps(m, buckets[..], chains, dir, hashFn, he, val);
      ReplaceSpare(m, dir, free, spares, he, val);
      ReplaceBindings(m, dir, he, val);
      he.val := val;
      m := m[he := m[he].(val := val)];
    }

    /** `he->next = ht->free; ht->free = he`. */
    method PutFree(he: Entry<V>)
      requires Synced(m) && he in m
      modifies `m, `free, he`next
      ensures Synced(m) && m == old(m)[he := old(m)[he].(next := old(free))] && free == he
    {
      he.next := free;
      m := m[he := m[he].(next := free)];
      free := he;
    }

    /** `*hep = he->next`, and `he` is the first recycled entry. */
    method Detach(b: nat, prev: Entry?<V>, he: Entry<V>)
      requires b < buckets.Length && Synced(m) && he in m && (prev != null ==> prev in m && prev != he) && count > 0
      modifies `m, `free, `spares, `dir, `count, buckets, m.Keys
      ensures Synced(m) && m.Keys == old(m.Keys) && m == MemRemoved(old(m), prev, he, old(free))
      ensures buckets[..] == HeadsLinked(old(buckets[..]), b, prev, old(m)[he].next)
      ensures free == he && count == old(count) - 1
      ensures dir == old(dir) - {old(m)[he].key} && spares == [he] + old(spares)
    {
      dir := dir - {m[he].key};
      spares := [he] + spares;
      StoreLink(b, prev, he.next);
      PutFree(he);
      count := count - 1;
    }

    /** And the entry is out of its chain. */
    method Recycle(b: nat, prev: Entry?<V>, he: Entry<V>, ghost i: nat)
      requires Sized() && b < |chains| && i < |chains[b]|
      requires Live(m, dir, he) && (prev != null ==> Live(m, dir, prev) && prev != he)
      modifies `m, `free, `spares, `chains, `dir, `count, buckets, m.Keys
      ensures Sized() && m.Keys == old(m.Keys) && m == MemRemoved(old(m), prev, he, old(free))
      ensures buckets[..] == HeadsLinked(old(buckets[..]), b, prev, old(m)[he].next)
      ensures dir == old(dir) - {old(m)[he].key} && spares == [he] + old(spares)
      ensures chains == old(chains)[b := Removed(old(chains)[b], i)] && count == old(count) - 1
    {
      ghost var m0, dir0, spare0, spares0 := m, dir, free, spares;
      OneLess(dir0, m0[he].key);
      chains := chains[b := Removed(chains[b], i)];
      Detach(b, prev, he);
      assert Spare(m, dir, free, spares) by {
        RemoveSpare(m0, dir0, prev, he, spare0, spares0, m, dir);
      }
    }

    /** Takes an entry out of its chain and puts it in front of the recycled ones. */
    method Unlink(b: nat, prev: Entry?<V>, he: Entry<V>, ghost i: nat)
      requires Valid() && LinkAt(b, prev, he, i)
      requires Live(m, dir, he) && (prev != null ==> Live(m, dir, prev) && prev != he)
      modifies `m, `chains, `dir, `free, `spares, `count, buckets, m.Keys
      ensures Valid() && m == MemRemoved(old(m), prev, he, old(free)) && dir == old(dir) - {old(m)[he].key}
      ensures m.Keys == old(m.Keys) && count == old(count) - 1
      ensures spares == [he] + old(spares) && chains == old(chains)[b := Removed(old(chains)[b], i)]
    {
      ghost var m0, heads, chains0, dir0, spare0 := m, buckets[..], chains, dir, free;
      Recycle(b, prev, he, i);
      assert Table(m, buckets[..], chains, dir, hashFn) by {
        RemoveKeeps(m0, heads, chains0, dir0, hashFn, b, i, he, prev, spare0, m, buckets[..], chains, dir);
      }
    }

    /** The chains are `before` without `e`. */
    ghost predicate Without(before: seq<seq<Entry<V>>>, e: Entry<V>)
      reads `chains
    {
      |chains| == |before| && forall c {:trigger chains[c]} :: 0 <= c < |chains| ==> chains[c] == Minus(before[c], e)
    }

    /** The deleting branch of `ogs_hash_set`. */
    method DeleteEntry(b: nat, prev: Entry?<V>, he: Entry<V>, ghost i: nat, ghost key: Key)
      requires Valid() && LinkAt(b, prev, he, i)
      requires EntryOf(key, he)
      modifies `m, `chains, `dir, `free, `spares, `count, buckets, m.Keys
      ensures Valid() && Contents() == old(Contents()) - {key} && m.Keys == old(m.Keys) && count == old(count) - 1
      ensures spares == [he] + old(spares) && Without(old(chains), he)
      ensures max == old(max)
      ensures buckets == old(buckets)
    {
      ghost var m0, dir0, spare0 := m, dir, free;
      TakenOut(m, buckets[..], chains, dir, hashFn, b, i);
      LinkerIsLive(m, buckets[..], chains, dir, hashFn, b, i);
      LinkerIsOther(m, buckets[..], chains, dir, hashFn, b, i);
      LinkerIsLive(m, buckets[..], chains, dir, hashFn, b, i + 1);
      Unlink(b, prev, he, i);
      RemovedBindings(m0, dir0, prev, he, spare0, m, dir);
    }

    /** `ogs_hash_get`. */
    method Get(key: Key) returns (val: Option<V>)
      requires Valid() && key != []
      ensures val == if key in Contents() then Some(Contents()[key]) else None
    {
      var hash := hashFn(key);
      var b, prev, he, i := Scan(key, hash);
      val := None;
      if he != null {
        assert Live(m, dir, he) by {
          assert Listed(m, dir) && key in dir && m[dir[key]].key == key;
        }
        val := Some(he.val);
      }
    }

    // ------------------------------------------------------------- iteration

    /** The entries still to be met, in order. */
    ghost function Upcoming(hi: HashIndex<V>): (s: seq<Entry<V>>)
      reads `chains, hi
    {
      hi.rest + Flatten(chains, hi.index)
    }

    /** The links the index will follow are the chains it has ahead. */
    ghost predicate Ahead(hi: HashIndex<V>)
      reads `chains, `buckets, buckets, `m, `max, hi
    {
      && buckets.Length == max + 1 == |chains| && hi.index <= |chains|
      && Linked(m, hi.next, hi.rest) && ChainsLinked(m, buckets[..], chains, hi.index)
    }

    /** `cur` is a chain found by going on from chain `from`; the chains skipped are empty. */
    ghost predicate Reaches(hi: HashIndex<V>, from: nat, cur: seq<Entry<V>>)
      reads `chains, hi`index
    {
      && from < hi.index <= |chains| && chains[hi.index - 1] == cur
      && forall c {:trigger chains[c]} :: from <= c < hi.index - 1 ==> chains[c] == []
    }

    /** Inside `ogs_hash_next`: the chain at hand is `cur`, and what was ahead, `up`, still is. */
    ghost predicate Seeking(hi: HashIndex<V>, cur: seq<Entry<V>>, from: nat, up: seq<Entry<V>>)
      reads `chains, `buckets, buckets, `m, `max, hi
    {
      && buckets.Length == max + 1 == |chains| && hi.index <= |chains| && ChainsLinked(m, buckets[..], chains, hi.index)
      && Linked(m, hi.current, cur) && cur + Flatten(chains, hi.index) == up
      && if hi.index == from then cur == hi.rest else hi.rest == [] && Reaches(hi, from, cur)
    }

    /** Goes on to the next chain. */
    method Seek(hi: HashIndex<V>, ghost cur: seq<Entry<V>>, ghost from: nat, ghost up: seq<Entry<V>>)
      returns (ghost cur': seq<Entry<V>>)
      requires Seeking(hi, cur, from, up) && hi.current == null && hi.index <= max
      modifies hi`current, hi`index
      ensures Seeking(hi, cur', from, up) && hi.index == old(hi.index) + 1
    {
      assert cur == [] && Linked(m, buckets[..][hi.index], chains[hi.index]);
      hi.current := buckets[hi.index];
      cur' := chains[hi.index];
      hi.index := hi.index + 1;
    }

    /** Finds the next entry: the one prepared, or the first of the next chain that has one. */
    method Advance(hi: HashIndex<V>) returns (more: bool, ghost cur: seq<Entry<V>>)
      requires Ahead(hi) && Synced(m)
      modifies hi`current, hi`index
      ensures hi.index <= |chains| && ChainsLinked(m, buckets[..], chains, hi.index)
      ensures more ==> Linked(m, hi.current, cur) && cur != []
      ensures if more then cur + Flatten(chains, hi.index) == old(Upcoming(hi)) else old(Upcoming(hi)) == []
      ensures more && hi.rest != [] ==> hi.index == old(hi.index) && cur == hi.rest
      ensures more && hi.rest == [] ==> Reaches(hi, old(hi.index), cur)
    {
      ghost var from, up := hi.index, Upcoming(hi);
      hi.current := hi.next;
      cur := hi.rest;
      while hi.current == null
        invariant Seeking(hi, cur, from, up)
        decreases |chains| - hi.index
      {
        if hi.index > max {
          return false, cur;
        }
        cur := Seek(hi, cur, from, up);
      }
      more := true;
    }

    /** `ogs_hash_next`. */
    method Next(hi: HashIndex<V>) returns (more: bool)
      requires Ahead(hi) && Synced(m)
      modifies hi
      ensures Ahead(hi)
      ensures more <==> old(Upcoming(hi)) != []
      ensures more ==> hi.current != null && [hi.current] + Upcoming(hi) == old(Upcoming(hi))
      ensures more && old(hi.rest) != [] ==> hi.index == old(hi.index) && old(hi.rest) == [hi.current] + hi.rest
      ensures more && old(hi.rest) == [] ==> Reaches(hi, old(hi.index), [hi.current] + hi.rest)
    {
      ghost var cur;
      more, cur := Advance(hi);
      if more {
        LinkedTail(m, hi.current, cur);
        assert [cur[0]] + cur[1..] == cur;
        assert [cur[0]] + (cur[1..] + Flatten(chains, hi.index)) == cur + Flatten(chains, hi.index);
        hi.next := hi.current.next;
        hi.rest := cur[1..];
      }
    }

    /** An index at the front of the table, moved to its first entry. */
    method Start(hi: HashIndex<V>) returns (more: bool)
      requires Valid()
      modifies hi
      ensures Ahead(hi)
      ensures var up := Flatten(chains, 0);
              (more <==> up != []) && (more ==> hi.current != null && [hi.current] + Upcoming(hi) == up)
      ensures more ==> Reaches(hi, 0, [hi.current] + hi.rest)
    {
      hi.index, hi.current, hi.next := 0, null, null;
      hi.rest := [];
      TableLinked(m, buckets[..], chains, dir, hashFn, 0);
      assert Upcoming(hi) == Flatten(chains, 0);
      more := Next(hi);
    }

    /** `ogs_hash_first`. */
    method First() returns (more: bool)
      requires Valid()
      modifies walker
      ensures Ahead(walker)
      ensures var up := Flatten(chains, 0);
              (more <==> up != []) && (more ==> walker.current != null && [walker.current] + Upcoming(walker) == up)
      ensures more ==> Reaches(walker, 0, [walker.current] + walker.rest)
    {
      more := Start(walker);
    }

    // ------------------------------------------------------------- expansion

    /** Half way through `expand_array`: `k` of the entries `up` are in the new chains. */
    ghost predicate Expanding(m0: Mem<V>, newArray: array<Entry?<V>>, newChains: seq<seq<Entry<V>>>, up: seq<Entry<V>>,
                              k: nat)
      reads `m, `dir, `free, `spares, `buckets, newArray, m.Keys
    {
      && Synced(m) && newArray != buckets && newArray.Length == |newChains|
      && Steady(m0, m, dir, hashFn, up, free, spares)
      && Moving(m, newArray[..], newChains, dir, hashFn, up, k)
    }

    method PushFront(newArray: array<Entry?<V>>, i: nat, e: Entry<V>)
      requires Synced(m) && e in m && i < newArray.Length
      modifies newArray, `m, e`next
      ensures Synced(m) && m == MemNext(old(m), e, old(newArray[i])) && newArray[..] == old(newArray[..])[i := e]
    {
      e.next := newArray[i];
      m := m[e := m[e].(next := newArray[i])];
      newArray[i] := e;
    }

    /** Moves the entry just met to the front of its new chain. */
    method MoveEntry(newArray: array<Entry?<V>>, newMax: nat, ghost m0: Mem<V>, ghost newChains: seq<seq<Entry<V>>>,
                     ghost up: seq<Entry<V>>, ghost k: nat)
      returns (ghost newChains': seq<seq<Entry<V>>>)
      requires Ahead(walker) && Expanding(m0, newArray, newChains, up, k)
      requires newMax + 1 == newArray.Length && Distinct(up)
      requires walker.current != null && k < |up| && up[k..] == [walker.current] + Upcoming(walker)
      modifies newArray, `m, m.Keys
      ensures Ahead(walker) && Expanding(m0, newArray, newChains', up, k + 1) && Upcoming(walker) == up[k + 1..]
    {
      var e := walker.current;
      assert up[k..][0] == e && Live(m, dir, up[k]);
      NotAhead(up, k, Upcoming(walker));
      ghost var m1, heads, olds := m, newArray[..], buckets[..];
      var i := Bucket(e.hash, newMax);
      PushFront(newArray, i, e);
      newChains' := newChains[i := [e] + newChains[i]];
      assert buckets[..] == olds;
      AheadFrame(m1, olds, chains, walker.next, walker.rest, walker.index, e, m1[e].(next := heads[i]), m);
      SteadyStep(m0, m1, dir, hashFn, up, free, spares, e, heads[i], m);
      MoveOne(m1, heads, newChains, dir, hashFn, up, k, e, i, m, newArray[..], newChains');
    }

    /** Between two turns of the loop of `expand_array`. */
    ghost predicate Walking(m0: Mem<V>, newArray: array<Entry?<V>>, newChains: seq<seq<Entry<V>>>, up: seq<Entry<V>>,
                            k: nat, more: bool)
      reads `m, `dir, `free, `spares, `buckets, `chains, `max, buckets, newArray, walker, m.Keys
    {
      && Ahead(walker) && Expanding(m0, newArray, newChains, up, k)
      && if more then walker.current != null && k < |up| && up[k..] == [walker.current] +
        Upcoming(walker) else k == |up|
    }

    /** One turn. */
    method Turn(newArray: array<Entry?<V>>, newMax: nat, ghost m0: Mem<V>, ghost newChains: seq<seq<Entry<V>>>,
                ghost up: seq<Entry<V>>, ghost k: nat)
      returns (more: bool, ghost newChains': seq<seq<Entry<V>>>)
      requires Walking(m0, newArray, newChains, up, k, true) && newMax + 1 == newArray.Length && Distinct(up)
      modifies newArray, `m, walker, m.Keys
      ensures k < |up| && Walking(m0, newArray, newChains', up, k + 1, more)
    {
      newChains' := MoveEntry(newArray, newMax, m0, newChains, up, k);
      more := Next(walker);
    }

    /** The loop of `expand_array`. */
    method MoveAll(newArray: array<Entry?<V>>, newMax: nat, ghost up: seq<Entry<V>>)
      returns (ghost newChains: seq<seq<Entry<V>>>)
      requires Valid() && newArray != buckets && newMax + 1 == newArray.Length
      requires newArray[..] == seq(newMax + 1, i => null)
      requires up == Flatten(chains, 0) && Distinct(up) && Ours(m, dir, hashFn, up)
      modifies newArray, `m, walker, m.Keys
      ensures Synced(m) && SameData(old(m), m) && newArray.Length == |newChains|
      ensures Moving(m, newArray[..], newChains, dir, hashFn, up, |up|)
      ensures Ours(m, dir, hashFn, up) && Spare(m, dir, free, spares)
    {
      ghost var m0, k := m, 0;
      newChains := seq(newMax + 1, i => []);
      MoveStart(m, newMax + 1, dir, hashFn, up);
      var more := First();
      while more
        invariant m.Keys == m0.Keys && Walking(m0, newArray, newChains, up, k, more)
        modifies newArray, `m, walker, m0.Keys
        decreases |up| - k
      {
        more, newChains := Turn(newArray, newMax, m0, newChains, up, k);
        k := k + 1;
      }
    }

    /** `expand_array`. */
    method ExpandArray()
      requires Valid()
      modifies `m, `buckets, `max, `chains, walker, m.Keys
      ensures Valid() && max == 2 * old(max) + 1 && m.Keys == old(m.Keys) && fresh(buckets) && SameData(old(m), m)
    {
      ghost var m0, up := m, Flatten(chains, 0);
      OrderExact(m, buckets[..], chains, dir, hashFn);
      OrderOurs(m, buckets[..], chains, dir, hashFn);
      var newMax := max * 2 + 1;
      var newArray := new Entry?<V>[newMax + 1](_ => null);
      assert newArray[..] == seq(newMax + 1, i => null);
      ghost var newChains := MoveAll(newArray, newMax, up);
      RelinkedListed(m0, m, dir);
      MoveDone(m, newArray[..], newChains, dir, hashFn, up);
      buckets := newArray;
      max := newMax;
      chains := newChains;
    }

    /** The greatest index of the buckets that are enough for `count` entries, coming from `max`. */
    static ghost function Limit(count: nat, max: nat): (r: nat)
      ensures count > max ==> r == 2 * max + 1
      ensures count <= max ==> r == max
    {
      if count > max then 2 * max + 1 else max
    }

    /** `if (ht->count > ht->max) expand_array(ht)`. */
    method CheckLoad()
      requires Valid() && [] !in dir && count <= max + 1 && IsMask(max)
      modifies `m, `buckets, `max, `chains, walker, m.Keys
      ensures Ready() && m.Keys == old(m.Keys) && (buckets == old(buckets) || fresh(buckets)) && spares == old(spares)
      ensures Contents() == old(Contents())
      ensures max == Limit(count, old(max))
      ensures count <= old(max) ==> buckets == old(buckets)
    {
      if count > max {
        ghost var n: nat :| max + 1 == Pow2(n);
        ghost var m0 := m;
        ExpandArray();
        assert max + 1 == Pow2(n + 1);
        RelinkedBindings(m0, m, dir);
      }
    }

    // ---------------------------------------------------------- the operations

    /** The replacing branch of `ogs_hash_set`. */
    method ReplaceEntry(ghost key: Key, he: Entry<V>, val: V)
      requires Valid() && [] !in dir && EntryOf(key, he) && count <= max + 1
      requires IsMask(max)
      modifies `m, `buckets, `max, `chains, walker, m.Keys
      ensures Ready() && m.Keys == old(m.Keys) && (buckets == old(buckets) || fresh(buckets))
      ensures Contents() == old(Contents())[key := val]
      ensures max == Limit(count, old(max))
      ensures spares == old(spares)
    {
      Replace(key, he, val);
      CheckLoad();
    }

    /** `ogs_hash_set`, once the entry is found or made. */
    method SetFound(key: Key, val: Option<V>, b: nat, prev: Entry?<V>, he: Entry<V>, ghost i: nat,
                    ghost before: map<Key, V>)
      requires Valid() && [] !in dir && count <= max + 1 && IsMask(max) && EntryOf(key, he)
      requires val.None? ==> count <= max && LinkAt(b, prev, he, i)
      requires Contents() == before || (val.Some? && Contents() == before[key := val.value])
      modifies this, buckets, walker, m.Keys
      ensures Ready() && m.Keys == old(m.Keys) && (buckets == old(buckets) || fresh(buckets))
      ensures Contents() == if val.Some? then before[key := val.value] else before - {key}
      ensures val.None? ==> unchanged(walker) && buckets == old(buckets)
      ensures val.None? ==> spares == [he] + old(spares) && Without(old(chains), he)
      ensures max == Limit(count, old(max))
      ensures val.Some? ==> spares == old(spares)
    {
      if val.None? {
        DeleteEntry(b, prev, he, i, key);
      } else {
        ReplaceEntry(key, he, val.value);
      }
    }

    /** `ogs_hash_set`; without a value it deletes. */
    method Set(key: Key, val: Option<V>)
      requires Ready() && key != []
      modifies this, buckets, walker, m.Keys
      ensures Ready() && fresh(m.Keys - old(m.Keys)) && (buckets == old(buckets) || fresh(buckets))
      ensures Contents() == if val.Some? then old(Contents())[key := val.value] else old(Contents()) - {key}
      ensures val.None? ==> unchanged(walker) && m.Keys == old(m.Keys) && buckets == old(buckets)
      ensures val.None? && key in old(dir) ==>
              spares == [old(dir)[key]] + old(spares) && Without(old(chains), old(dir)[key])
      ensures max == Limit(count, old(max))
      ensures val.Some? ==> spares == if key in old(dir) then old(spares) else OneUsed(old(spares))
      ensures old(spares) != [] ==> m.Keys == old(m.Keys)
    {
      var b, prev, he, i := FindEntry(key, val);
      if he != null {
        SetFound(key, val, b, prev, he, i, old(Contents()));
      } else {
        NotThere(Contents(), key);
      }
    }

    /** `ogs_hash_get_or_set`. */
    method GetOrSet(key: Key, val: Option<V>) returns (r: Option<V>)
      requires Ready() && key != []
      modifies this, buckets, walker, m.Keys
      ensures Ready() && fresh(m.Keys - old(m.Keys)) && (buckets == old(buckets) || fresh(buckets))
      ensures Contents() ==
              if key in old(Contents()) || val.None? then old(Contents()) else old(Contents())[key := val.value]
      ensures r == if key in Contents() then Some(Contents()[key]) else None
      ensures max == Limit(count, old(max))
      ensures spares == if key in old(dir) || val.None? then old(spares) else OneUsed(old(spares))
    {
      var b, prev, he, i := FindEntry(key, val);
      if he != null {
        r := Fetch(key, he);
      } else {
        r := None;
      }
    }

    /** The entry is there now; its value is returned. */
    method Fetch(ghost key: Key, he: Entry<V>) returns (r: Option<V>)
      requires Valid() && [] !in dir && count <= max + 1 && IsMask(max) && EntryOf(key, he)
      modifies `m, `buckets, `max, `chains, walker, m.Keys
      ensures Ready() && m.Keys == old(m.Keys) && (buckets == old(buckets) || fresh(buckets))
      ensures Contents() == old(Contents()) && key in Contents() && r == Some(Contents()[key])
      ensures max == Limit(count, old(max))
      ensures spares == old(spares)
    {
      r := Some(he.val);
      assert he.val == Contents()[key];
      CheckLoad();
    }

    /** `ogs_hash_count`. */
    method Count() returns (n: nat)
      requires Valid()
      ensures n == |Contents()|
    {
      n := count;
    }

    // ------------------------------------------------------------------ clear

    /** `s` is the chain the walker is in; the chains before it are empty. */
    ghost predicate Emptied(s: seq<Entry<V>>)
      reads `chains, walker
    {
      && 0 < walker.index <= |chains| && chains[walker.index - 1] == s
      && forall c {:trigger chains[c]} :: 0 <= c < walker.index - 1 ==> chains[c] == []
    }

    /** The table with `next` of the walker still right. */
    lemma StillAhead()
      requires Valid() && Emptied(walker.rest) && walker.next == Nth(walker.rest, 0)
      ensures Ahead(walker)
    {
      var b := walker.index - 1;
      assert ChainAt(m, buckets[..], chains, dir, b, hashFn);
      TableLinked(m, buckets[..], chains, dir, hashFn, walker.index);
    }

    /** Deletes the entry the walker is at; its `next` is not followed again. */
    method DeleteCurrent()
      requires Ready() && Ahead(walker) && walker.current != null && Emptied([walker.current] + walker.rest)
      modifies this, buckets, walker, m.Keys
      ensures Ready() && Ahead(walker) && Emptied(walker.rest) && m.Keys == old(m.Keys) && buckets == old(buckets)
      ensures Upcoming(walker) == old(Upcoming(walker)) && spares == [old(walker.current)] + old(spares)
    {
      var e := walker.current;
      ghost var m0, heads, chains0, dir0 := m, buckets[..], chains, dir;
      assert chains0[walker.index - 1][0] == e;
      InChain(m0, heads, chains0, dir0, hashFn, walker.index - 1, e);
      Set(e.key, None);
      OthersStay(m0, heads, chains0, dir0, hashFn, walker.index - 1, e, walker.rest, chains);
      FlattenSame(chains0, chains, walker.index);
      StillAhead();
    }

    /** `ogs_hash_next` when everything met so far is gone. */
    method GoOn() returns (more: bool)
      requires Ahead(walker) && Synced(m) && Emptied(walker.rest)
      modifies walker
      ensures more <==> old(Upcoming(walker)) != []
      ensures more ==> Ahead(walker) && walker.current != null && Emptied([walker.current] + walker.rest)
      ensures more ==> [walker.current] + Upcoming(walker) == old(Upcoming(walker))
      ensures !more ==> Flatten(chains, 0) == []
    {
      ghost var index := walker.index;
      more := Next(walker);
      if !more {
        FlattenSkip(chains, 0, index - 1);
      }
    }

    /** Where `ogs_hash_clear` is: at the first of the entries left, if there are any. */
    ghost predicate AtFirst(more: bool)
      reads `chains, `buckets, buckets, `m, `max, walker
    {
      if more then Ahead(walker) && walker.current != null && Emptied([walker.current] + walker.rest)
      else Flatten(chains, 0) == []
    }

    /** What an index is at and has ahead. */
    ghost function Left(hi: HashIndex<V>, more: bool): (s: seq<Entry<V>>)
      reads `chains, hi
      requires more ==> hi.current != null
    {
      if more then [hi.current] + Upcoming(hi) else []
    }

    /** The recycled entries once the ones left are recycled too. */
    ghost function AtEnd(more: bool): (s: seq<Entry<V>>)
      reads `chains, `spares, walker
      requires more ==> walker.current != null
    {
      Reversed(Left(walker, more)) + spares
    }

    /** One turn of `ogs_hash_clear`. */
    method ClearTurn() returns (more: bool)
      requires Ready() && AtFirst(true)
      modifies this, buckets, walker, m.Keys
      ensures Ready() && AtFirst(more) && m.Keys == old(m.Keys) && buckets == old(buckets)
      ensures AtEnd(more) == old(AtEnd(true)) && |Left(walker, more)| < |old(Left(walker, true))|
    {
      DeleteCurrent();
      more := GoOn();
      Shifted(old(Left(walker, true)), old(walker.current), Left(walker, more), old(spares));
    }

    /** The loop of `ogs_hash_clear`. */
    method ClearLoop(found: bool)
      requires Ready() && AtFirst(found)
      modifies this, buckets, walker, m.Keys
      ensures Ready() && Flatten(chains, 0) == [] && spares == old(AtEnd(found))
    {
      var more := found;
      ghost var keys, array0 := m.Keys, buckets;
      while more
        invariant m.Keys == keys && buckets == array0
        invariant Ready() && AtFirst(more)
        invariant AtEnd(more) == old(AtEnd(found))
        modifies this, array0, walker, keys
        decreases |Left(walker, more)|
      {
        more := ClearTurn();
      }
    }

    /** `ogs_hash_clear`: nothing is bound, and every former entry is recycled. */
    method Clear()
      requires Ready()
      modifies this, buckets, walker, m.Keys
      ensures Ready() && Contents() == map[] && spares == Reversed(old(Flatten(chains, 0))) + old(spares)
    {
      var more := First();
      ClearLoop(more);
      NothingLeft(m, buckets[..], chains, dir, hashFn);
    }

    // --------------------------------------------------------------- visiting

    /** Between two turns of `ogs_hash_do`: `seen` has been shown. */
    ghost predicate Visiting(hi: HashIndex<V>, up: seq<Entry<V>>, seen: seq<Entry<V>>, more: bool)
      reads `chains, `buckets, buckets, `m, `max, hi
    {
      Ahead(hi) && (more ==> hi.current != null) && up == seen + Left(hi, more)
    }

    /** Shows the entry the index is at. */
    method VisitTurn(hi: HashIndex<V>, comp: (Key, V) -> bool, ghost up: seq<Entry<V>>, ghost seen: seq<Entry<V>>)
      returns (dorv: bool, more: bool, ghost seen': seq<Entry<V>>)
      requires Synced(m) && Ours(m, dir, hashFn, up) && Visiting(hi, up, seen, true) && Passes(m, comp, seen)
      modifies hi
      ensures dorv == Passes(m, comp, seen') && seen' <= up && |seen'| == |seen| + 1
      ensures dorv ==> Visiting(hi, up, seen', more)
      ensures !dorv ==> !more
    {
      var e := hi.current;
      ghost var left := Upcoming(hi);
      assert up[|seen|] == e && Live(m, dir, e);
      PassesNext(m, comp, seen, e);
      seen' := seen + [e];
      assert up == seen' + left;
      dorv, more := comp(e.key, e.val), false;
      if dorv {
        more := Next(hi);
      }
    }

    /** The loop of `ogs_hash_do`. */
    method Visit(hi: HashIndex<V>, comp: (Key, V) -> bool) returns (dorv: bool, ghost seen: seq<Entry<V>>)
      requires Valid() && Ours(m, dir, hashFn, Flatten(chains, 0))
      modifies hi
      ensures dorv == Passes(m, comp, seen) && seen <= Flatten(chains, 0) && (dorv ==> seen == Flatten(chains, 0))
    {
      ghost var up := Flatten(chains, 0);
      dorv, seen := true, [];
      var more := Start(hi);
      while more
        invariant dorv ==> Visiting(hi, up, seen, more)
        invariant more ==> dorv
        invariant seen <= up && dorv == Passes(m, comp, seen)
        decreases |up| - |seen|
      {
        dorv, more, seen := VisitTurn(hi, comp, up, seen);
      }
    }

    /** `ogs_hash_do`: the callback is shown every binding until it refuses one. */
    method Do(comp: (Key, V) -> bool) returns (dorv: bool, ghost seen: seq<Entry<V>>)
      requires Valid()
      ensures dorv <==> forall k :: k in dir ==> comp(k, Contents()[k])
      ensures seen <= Flatten(chains, 0) && (dorv ==> seen == Flatten(chains, 0))
    {
      var hi := new HashIndex();
      OrderOurs(m, buckets[..], chains, dir, hashFn);
      dorv, seen := Visit(hi, comp);
      if !dorv {
        PassesPrefix(m, comp, seen, Flatten(chains, 0));
      }
      PassAll(m, buckets[..], chains, dir, hashFn, comp);
    }
  }
}
