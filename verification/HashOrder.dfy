/**
  The order in which an iterator meets the entries of a hash table, and what is
  kept while `expand_array` moves them to their new chains in that order.
*/
module HashOrder {
  import opened Common
  import opened HashModel

  /** The chains from `from` on, one behind the other. */
  ghost function Flatten<V>(chains: seq<seq<Entry<V>>>, from: nat): (s: seq<Entry<V>>)
    decreases |chains| - from
  {
    if from >= |chains| then [] else chains[from] + Flatten(chains, from + 1)
  }

  lemma {:induction false} FlattenMembers<V>(chains: seq<seq<Entry<V>>>, from: nat, e: Entry<V>)
    ensures e in Flatten(chains, from) <==> exists c :: from <= c < |chains| && e in chains[c]
    decreases |chains| - from
  {
    if from < |chains| {
      FlattenMembers(chains, from + 1, e);
      assert e in Flatten(chains, from) <==> e in chains[from] || e in Flatten(chains, from + 1);
      if c :| from <= c < |chains| && e in chains[c] {
        assert c == from || from + 1 <= c;
      }
    }
  }

  lemma InChain<V>(m: Mem<V>, heads: seq<Entry?<V>>, chains: seq<seq<Entry<V>>>, dir: Directory<V>, hashOf: Key -> nat,
                   c: nat, e: Entry<V>)
    requires |heads| == |chains| && AllChains(m, heads, chains, dir, hashOf) && c < |chains| && e in chains[c]
    ensures Live(m, dir, e) && m[e].hash == hashOf(m[e].key) && Bucket(m[e].hash, |chains| - 1) == c
  {
    assert ChainAt(m, heads, chains, dir, c, hashOf);
    var i :| 0 <= i < |chains[c]| && chains[c][i] == e;
    assert Belongs(m, dir, chains[c][i], c, |chains| - 1, hashOf);
  }

  lemma DistinctJoin<V>(s: seq<Entry<V>>, t: seq<Entry<V>>)
    requires Distinct(s) && Distinct(t) && forall e :: e in s ==> e !in t
    ensures Distinct(s + t)
  {
    forall i, j | 0 <= i < j < |s + t| ensures (s + t)[i] != (s + t)[j] {
      if i < |s| <= j {
        assert s[i] in s && t[j - |s|] in t;
      }
    }
  }

  /** No entry is met twice. */
  lemma {:induction false} FlattenDistinct<V>(m: Mem<V>, heads: seq<Entry?<V>>, chains: seq<seq<Entry<V>>>,
                                              dir: Directory<V>, hashOf: Key -> nat, from: nat)
    requires |heads| == |chains| && AllChains(m, heads, chains, dir, hashOf)
    ensures Distinct(Flatten(chains, from))
    decreases |chains| - from
  {
    if from < |chains| {
      FlattenDistinct(m, heads, chains, dir, hashOf, from + 1);
      assert ChainAt(m, heads, chains, dir, from, hashOf);
      forall e | e in chains[from] ensures e !in Flatten(chains, from + 1) {
        FlattenMembers(chains, from + 1, e);
        InChain(m, heads, chains, dir, hashOf, from, e);
        forall c | from + 1 <= c < |chains| ensures e !in chains[c] {
          assert ChainAt(m, heads, chains, dir, c, hashOf);
        }
      }
      DistinctJoin(chains[from], Flatten(chains, from + 1));
    }
  }

  /** Exactly the live entries are met. */
  lemma OrderIsLive<V>(m: Mem<V>, heads: seq<Entry?<V>>, chains: seq<seq<Entry<V>>>, dir: Directory<V>,
                       hashOf: Key -> nat, e: Entry<V>)
    requires Table(m, heads, chains, dir, hashOf)
    ensures e in Flatten(chains, 0) <==> Live(m, dir, e)
    ensures Live(m, dir, e) ==> m[e].hash == hashOf(m[e].key)
  {
    FlattenMembers(chains, 0, e);
    if e in Flatten(chains, 0) {
      var c :| 0 <= c < |chains| && e in chains[c];
      InChain(m, heads, chains, dir, hashOf, c, e);
    }
    if Live(m, dir, e) {
      assert Found(chains, dir, m[e].key, hashOf);
      InChain(m, heads, chains, dir, hashOf, Bucket(hashOf(m[e].key), |chains| - 1), e);
    }
  }

  /** Each key is bound by exactly one of the entries met. */
  lemma OrderExact<V>(m: Mem<V>, heads: seq<Entry?<V>>, chains: seq<seq<Entry<V>>>, dir: Directory<V>,
                      hashOf: Key -> nat)
    requires Table(m, heads, chains, dir, hashOf)
    ensures var up := Flatten(chains, 0);
            && Distinct(up)
            && (forall j {:trigger up[j]} :: 0 <= j < |up| ==> Live(m, dir, up[j]))
            && (forall k {:trigger dir[k]} :: k in dir ==> dir[k] in up && m[dir[k]].key == k)
  {
    var up := Flatten(chains, 0);
    FlattenDistinct(m, heads, chains, dir, hashOf, 0);
    forall j {:trigger up[j]} | 0 <= j < |up| ensures Live(m, dir, up[j]) {
      OrderIsLive(m, heads, chains, dir, hashOf, up[j]);
    }
    forall k {:trigger dir[k]} | k in dir ensures dir[k] in up && m[dir[k]].key == k {
      OrderIsLive(m, heads, chains, dir, hashOf, dir[k]);
    }
  }

  lemma OrderOurs<V>(m: Mem<V>, heads: seq<Entry?<V>>, chains: seq<seq<Entry<V>>>, dir: Directory<V>,
                     hashOf: Key -> nat)
    requires Table(m, heads, chains, dir, hashOf)
    ensures Ours(m, dir, hashOf, Flatten(chains, 0))
  {
    var up := Flatten(chains, 0);
    forall j {:trigger up[j]} | 0 <= j < |up| ensures Live(m, dir, up[j]) && m[up[j]].hash == hashOf(m[up[j]].key) {
      OrderIsLive(m, heads, chains, dir, hashOf, up[j]);
    }
  }

  // ---------------------------------------------------------- what lies ahead

  ghost predicate ChainsLinked<V>(m: Mem<V>, heads: seq<Entry?<V>>, chains: seq<seq<Entry<V>>>, from: nat)
    requires |heads| == |chains|
  {
    forall c {:trigger Linked(m, heads[c], chains[c])} :: from <= c < |chains| ==> Linked(m, heads[c], chains[c])
  }

  lemma TableLinked<V>(m: Mem<V>, heads: seq<Entry?<V>>, chains: seq<seq<Entry<V>>>, dir: Directory<V>,
                       hashOf: Key -> nat, from: nat)
    requires Table(m, heads, chains, dir, hashOf)
    ensures ChainsLinked(m, heads, chains, from)
  {
    forall c {:trigger Linked(m, heads[c], chains[c])} | from <= c < |chains| ensures Linked(m, heads[c], chains[c]) {
      assert ChainAt(m, heads, chains, dir, c, hashOf);
    }
  }

  /** Changing an entry that is not ahead does not matter. */
  lemma AheadFrame<V>(m: Mem<V>, heads: seq<Entry?<V>>, chains: seq<seq<Entry<V>>>, next: Entry?<V>,
                      rest: seq<Entry<V>>,
                      from: nat, e: Entry<V>, cell: Cell<V>, m': Mem<V>)
    requires |heads| == |chains| && ChainsLinked(m, heads, chains, from) && Linked(m, next, rest)
    requires e !in rest + Flatten(chains, from) && m' == m[e := cell]
    ensures ChainsLinked(m', heads, chains, from) && Linked(m', next, rest)
  {
    LinkedFrame(m, m', next, rest, {e});
    forall c {:trigger Linked(m', heads[c], chains[c])} | from <= c < |chains| ensures Linked(m', heads[c], chains[c]) {
      assert Linked(m, heads[c], chains[c]);
      FlattenMembers(chains, from, e);
      LinkedFrame(m, m', heads[c], chains[c], {e});
    }
  }

  // ------------------------------------------------------ moving to new chains

  /** Only links differ. */
  ghost predicate SameData<V>(m: Mem<V>, m': Mem<V>) {
    m'.Keys == m.Keys && forall e {:trigger m[e]} {:trigger m'[e]} :: e in m ==>
      m'[e].key == m[e].key && m'[e].hash == m[e].hash && m'[e].val == m[e].val
  }

  ghost predicate InPrefix<V>(up: seq<Entry<V>>, k: nat, e: Entry<V>)
    requires k <= |up|
  {
    e in up[..k]
  }

  /** Everything in the new chains is one of the first `k` entries of `up`. */
  ghost predicate FromPrefix<V>(chains: seq<seq<Entry<V>>>, up: seq<Entry<V>>, k: nat)
    requires k <= |up|
  {
    forall c, e {:trigger e in chains[c]} :: 0 <= c < |chains| && e in chains[c] ==> InPrefix(up, k, e)
  }

  /** `e` is in the new chain of its hash. */
  ghost predicate Moved<V>(m: Mem<V>, chains: seq<seq<Entry<V>>>, e: Entry<V>)
    requires |chains| > 0
  {
    e in m && e in chains[Bucket(m[e].hash, |chains| - 1)]
  }

  ghost predicate Moving<V>(m: Mem<V>, heads: seq<Entry?<V>>, chains: seq<seq<Entry<V>>>, dir: Directory<V>,
                            hashOf: Key -> nat,
                            up: seq<Entry<V>>, k: nat) {
    && k <= |up| && |heads| == |chains| > 0
    && AllChains(m, heads, chains, dir, hashOf)
    && FromPrefix(chains, up, k)
    && (forall j {:trigger Moved(m, chains, up[j])} :: 0 <= j < k ==> Moved(m, chains, up[j]))
  }

  /** The entries to move are live and hashed. */
  ghost predicate Ours<V>(m: Mem<V>, dir: Directory<V>, hashOf: Key -> nat, up: seq<Entry<V>>) {
    forall j {:trigger up[j]} :: 0 <= j < |up| ==> Live(m, dir, up[j]) && m[up[j]].hash == hashOf(m[up[j]].key)
  }

  ghost function MemNext<V>(m: Mem<V>, e: Entry<V>, x: Entry?<V>): (m': Mem<V>)
    requires e in m
  {
    m[e := m[e].(next := x)]
  }

  lemma MoveChains<V>(m: Mem<V>, heads: seq<Entry?<V>>, chains: seq<seq<Entry<V>>>, dir: Directory<V>,
                      hashOf: Key -> nat, e: Entry<V>)
    requires |heads| == |chains| > 0 && AllChains(m, heads, chains, dir, hashOf)
    requires Live(m, dir, e) && m[e].hash == hashOf(m[e].key)
    requires forall c :: 0 <= c < |chains| ==> e !in chains[c]
    ensures var b := Bucket(m[e].hash, |chains| - 1);
            AllChains(MemNext(m, e, heads[b]), heads[b := e], chains[b := [e] + chains[b]], dir, hashOf)
  {
    var b := Bucket(m[e].hash, |chains| - 1);
    var m', heads', chains' := MemNext(m, e, heads[b]), heads[b := e], chains[b := [e] + chains[b]];
    forall c | 0 <= c < |chains| ensures ChainAt(m', heads', chains', dir, c, hashOf) {
      MoveChain(m, heads, chains, dir, hashOf, e, c);
    }
  }

  lemma MoveChain<V>(m: Mem<V>, heads: seq<Entry?<V>>, chains: seq<seq<Entry<V>>>, dir: Directory<V>,
                     hashOf: Key -> nat, e: Entry<V>, c: nat)
    requires |heads| == |chains| > c && ChainAt(m, heads, chains, dir, c, hashOf)
    requires Live(m, dir, e) && m[e].hash == hashOf(m[e].key) && e !in chains[c]
    ensures var b := Bucket(m[e].hash, |chains| - 1);
            ChainAt(MemNext(m, e, heads[b]), heads[b := e], chains[b := [e] + chains[b]], dir, c, hashOf)
  {
    var b := Bucket(m[e].hash, |chains| - 1);
    var m' := MemNext(m, e, heads[b]);
    LinkedFrame(m, m', heads[c], chains[c], {e});
    MovedBelong(m, chains[c], dir, c, |chains| - 1, hashOf, e, heads[b]);
    if c == b {
      MovedHere(m', heads[b], chains[b], dir, b, |chains| - 1, hashOf, e);
    }
  }

  lemma MovedHere<V>(m: Mem<V>, head: Entry?<V>, s: seq<Entry<V>>, dir: Directory<V>, b: nat, max: nat,
                     hashOf: Key -> nat, e: Entry<V>)
    requires ChainOk(m, head, s, dir, b, max, hashOf) && e !in s
    requires Belongs(m, dir, e, b, max, hashOf) && m[e].next == head
    ensures ChainOk(m, e, [e] + s, dir, b, max, hashOf)
  {
    LinkedFront(m, head, s, e);
  }

  lemma MovedBelong<V>(m: Mem<V>, s: seq<Entry<V>>, dir: Directory<V>, c: nat, max: nat, hashOf: Key -> nat,
                       e: Entry<V>, x: Entry?<V>)
    requires AllBelong(m, dir, s, c, max, hashOf) && e in m
    ensures AllBelong(MemNext(m, e, x), dir, s, c, max, hashOf)
  {
    forall i {:trigger s[i]} | 0 <= i < |s| ensures Belongs(MemNext(m, e, x), dir, s[i], c, max, hashOf) {
      assert Belongs(m, dir, s[i], c, max, hashOf);
    }
  }

  lemma MoveStart<V>(m: Mem<V>, n: nat, dir: Directory<V>, hashOf: Key -> nat, up: seq<Entry<V>>)
    requires n > 0
    ensures Moving(m, seq(n, i => null), seq(n, i => []), dir, hashOf, up, 0)
  {
  }

  /** One turn of the loop of `expand_array`. */
  lemma MoveOne<V>(m: Mem<V>, heads: seq<Entry?<V>>, chains: seq<seq<Entry<V>>>, dir: Directory<V>, hashOf: Key -> nat,
                   up: seq<Entry<V>>, k: nat, e: Entry<V>, b: nat, m': Mem<V>, heads': seq<Entry?<V>>,
                     chains': seq<seq<Entry<V>>>)
    requires Moving(m, heads, chains, dir, hashOf, up, k) && Distinct(up) && Ours(m, dir, hashOf, up)
    requires k < |up| && e == up[k] && e in m && b == Bucket(m[e].hash, |chains| - 1)
    requires m' == MemNext(m, e, heads[b]) && heads' == heads[b := e] && chains' == chains[b := [e] + chains[b]]
    ensures Moving(m', heads', chains', dir, hashOf, up, k + 1)
  {
    assert Live(m, dir, up[k]);
    assert forall c :: 0 <= c < |chains| ==> e !in chains[c];
    MoveChains(m, heads, chains, dir, hashOf, e);
    forall c, x {:trigger x in chains'[c]} | 0 <= c < |chains'| && x in chains'[c] ensures InPrefix(up, k + 1, x) {
      if x != e {
        assert x in chains[c] && InPrefix(up, k, x);
        var j :| 0 <= j < k && up[..k][j] == x;
        assert up[..k + 1][j] == x;
      } else {
        assert up[..k + 1][k] == x;
      }
    }
    forall j {:trigger Moved(m', chains', up[j])} | 0 <= j < k + 1 ensures Moved(m', chains', up[j]) {
      if j < k {
        assert Moved(m, chains, up[j]);
      }
    }
  }

  lemma OursKept<V>(m: Mem<V>, dir: Directory<V>, hashOf: Key -> nat, up: seq<Entry<V>>, e: Entry<V>, x: Entry?<V>)
    requires Ours(m, dir, hashOf, up) && e in m
    ensures Ours(MemNext(m, e, x), dir, hashOf, up)
  {
  }

  /** What does not change while entries are moved. */
  ghost predicate Steady<V>(m0: Mem<V>, m: Mem<V>, dir: Directory<V>, hashOf: Key -> nat, up: seq<Entry<V>>,
                            spare: Entry?<V>, free: seq<Entry<V>>) {
    SameData(m0, m) && Ours(m, dir, hashOf, up) && Spare(m, dir, spare, free)
  }

  lemma SteadyStep<V>(m0: Mem<V>, m: Mem<V>, dir: Directory<V>, hashOf: Key -> nat, up: seq<Entry<V>>, spare: Entry?<V>,
                      free: seq<Entry<V>>,
                      e: Entry<V>, x: Entry?<V>, m': Mem<V>)
    requires Steady(m0, m, dir, hashOf, up, spare, free) && Live(m, dir, e) && m' == MemNext(m, e, x)
    ensures Steady(m0, m', dir, hashOf, up, spare, free)
  {
    OursKept(m, dir, hashOf, up, e, x);
    RelinkedSpare(m, dir, spare, free, e, x);
  }

  lemma NotAhead<V>(up: seq<Entry<V>>, k: nat, todo: seq<Entry<V>>)
    requires Distinct(up) && k < |up| && up[k..] == [up[k]] + todo
    ensures up[k] !in todo && up[k + 1..] == todo
  {
    forall j | 0 <= j < |todo| ensures todo[j] == up[k + 1 + j] {
      assert up[k..][j + 1] == todo[j];
    }
  }

  /** When all are moved, the new chains are a table for the same directory. */
  lemma MoveDone<V>(m: Mem<V>, heads: seq<Entry?<V>>, chains: seq<seq<Entry<V>>>, dir: Directory<V>, hashOf: Key -> nat,
                    up: seq<Entry<V>>)
    requires Moving(m, heads, chains, dir, hashOf, up, |up|) && Listed(m, dir) && Ours(m, dir, hashOf, up)
    requires forall k {:trigger dir[k]} :: k in dir ==> dir[k] in up
    ensures Table(m, heads, chains, dir, hashOf)
  {
    forall k {:trigger Found(chains, dir, k, hashOf)} | k in dir ensures Found(chains, dir, k, hashOf) {
      var j :| 0 <= j < |up| && up[j] == dir[k];
      assert Moved(m, chains, up[j]);
    }
  }

  /** Changing the link of a live entry. */
  lemma RelinkedSpare<V>(m: Mem<V>, dir: Directory<V>, spare: Entry?<V>, free: seq<Entry<V>>, e: Entry<V>, x: Entry?<V>)
    requires Spare(m, dir, spare, free) && Live(m, dir, e)
    ensures Spare(MemNext(m, e, x), dir, spare, free)
  {
    LinkedFrame(m, MemNext(m, e, x), spare, free, {e});
  }

  lemma RelinkedListed<V>(m: Mem<V>, m': Mem<V>, dir: Directory<V>)
    requires Listed(m, dir) && SameData(m, m')
    ensures Listed(m', dir)
  {
  }

  lemma RelinkedBindings<V>(m: Mem<V>, m': Mem<V>, dir: Directory<V>)
    requires Listed(m, dir) && SameData(m, m')
    ensures Listed(m', dir)
    ensures Bindings(m', dir) == Bindings(m, dir)
  {
    var a, b := Bindings(m', dir), Bindings(m, dir);
    assert a.Keys == b.Keys;
  }

  // -------------------------------------------------------------- taking out

  /** `s` without `e`. */
  ghost function Minus<V>(s: seq<Entry<V>>, e: Entry<V>): (r: seq<Entry<V>>)
    ensures e !in s ==> r == s
  {
    if s == [] then [] else if s[0] == e then s[1..] else [s[0]] + Minus(s[1..], e)
  }

  lemma {:induction false} MinusIsRemoved<V>(s: seq<Entry<V>>, i: nat)
    requires Distinct(s) && i < |s|
    ensures Minus(s, s[i]) == Removed(s, i)
  {
    if i > 0 {
      MinusIsRemoved(s[1..], i - 1);
      assert [s[0]] + Removed(s[1..], i - 1) == Removed(s, i);
    }
  }

  /** The chains after one entry is taken out are the old ones without it. */
  lemma TakenOut<V>(m: Mem<V>, heads: seq<Entry?<V>>, chains: seq<seq<Entry<V>>>, dir: Directory<V>, hashOf: Key -> nat,
                    b: nat, i: nat)
    requires Table(m, heads, chains, dir, hashOf) && b < |chains| && i < |chains[b]|
    ensures forall c {:trigger chains[c]} :: 0 <= c < |chains| ==>
            chains[b := Removed(chains[b], i)][c] == Minus(chains[c], chains[b][i])
  {
    var e := chains[b][i];
    assert ChainAt(m, heads, chains, dir, b, hashOf);
    MinusIsRemoved(chains[b], i);
    InChain(m, heads, chains, dir, hashOf, b, e);
    forall c {:trigger chains[c]} | 0 <= c < |chains| && c != b ensures Minus(chains[c], e) == chains[c] {
      assert ChainAt(m, heads, chains, dir, c, hashOf);
    }
  }

  ghost function Reversed<V>(s: seq<Entry<V>>): (r: seq<Entry<V>>) {
    if s == [] then [] else Reversed(s[1..]) + [s[0]]
  }

  /** Moving the first of what is left to the front of what is there. */
  lemma Shifted<V>(left: seq<Entry<V>>, e: Entry<V>, left': seq<Entry<V>>, there: seq<Entry<V>>)
    requires left == [e] + left'
    ensures Reversed(left') + ([e] + there) == Reversed(left) + there
  {
    assert left[1..] == left';
  }

  lemma {:induction false} FlattenSkip<V>(chains: seq<seq<Entry<V>>>, from: nat, to: nat)
    requires from <= to <= |chains| && forall c {:trigger chains[c]} :: from <= c < to ==> chains[c] == []
    ensures Flatten(chains, from) == Flatten(chains, to)
    decreases |chains| - from
  {
    if from < to {
      FlattenSkip(chains, from + 1, to);
    }
  }

  lemma {:induction false} FlattenSame<V>(chains: seq<seq<Entry<V>>>, chains': seq<seq<Entry<V>>>, from: nat)
    requires |chains'| == |chains| && forall c {:trigger chains[c]} {:trigger chains'[c]} :: from <= c < |chains| ==>
            chains'[c] == chains[c]
    ensures Flatten(chains', from) == Flatten(chains, from)
    decreases |chains| - from
  {
    if from < |chains| {
      FlattenSame(chains, chains', from + 1);
    }
  }

  /** Taking out an entry leaves the other chains as they are. */
  lemma OthersStay<V>(m: Mem<V>, heads: seq<Entry?<V>>, chains: seq<seq<Entry<V>>>, dir: Directory<V>,
                      hashOf: Key -> nat,
                      b: nat, e: Entry<V>, rest: seq<Entry<V>>, chains': seq<seq<Entry<V>>>)
    requires Table(m, heads, chains, dir, hashOf) && b < |chains| && chains[b] == [e] + rest && |chains'| == |chains|
    requires forall c {:trigger chains'[c]} :: 0 <= c < |chains| ==> chains'[c] == Minus(chains[c], e)
    ensures chains'[b] == rest && forall c {:trigger chains'[c]} :: 0 <= c < |chains| && c != b ==>
            chains'[c] == chains[c]
    ensures Live(m, dir, e)
  {
    assert e == chains[b][0];
    InChain(m, heads, chains, dir, hashOf, b, e);
    forall c {:trigger chains'[c]} | 0 <= c < |chains| && c != b ensures chains'[c] == chains[c] {
      assert ChainAt(m, heads, chains, dir, c, hashOf);
    }
  }

  /** A table whose chains are all empty binds nothing. */
  lemma NothingLeft<V>(m: Mem<V>, heads: seq<Entry?<V>>, chains: seq<seq<Entry<V>>>, dir: Directory<V>,
                       hashOf: Key -> nat)
    requires Table(m, heads, chains, dir, hashOf) && Flatten(chains, 0) == []
    ensures dir == map[]
  {
    OrderExact(m, heads, chains, dir, hashOf);
  }

  // ---------------------------------------------------------------- visiting

  ghost predicate Passes<V>(m: Mem<V>, comp: (Key, V) -> bool, s: seq<Entry<V>>) {
    forall i {:trigger s[i]} :: 0 <= i < |s| ==> s[i] in m && comp(m[s[i]].key, m[s[i]].val)
  }

  lemma PassesNext<V>(m: Mem<V>, comp: (Key, V) -> bool, s: seq<Entry<V>>, e: Entry<V>)
    requires Passes(m, comp, s) && e in m
    ensures Passes(m, comp, s + [e]) <==> comp(m[e].key, m[e].val)
  {
    assert (s + [e])[|s|] == e;
  }

  lemma PassesPrefix<V>(m: Mem<V>, comp: (Key, V) -> bool, s: seq<Entry<V>>, up: seq<Entry<V>>)
    requires s <= up && !Passes(m, comp, s)
    ensures !Passes(m, comp, up)
  {
    var i :| 0 <= i < |s| && !(s[i] in m && comp(m[s[i]].key, m[s[i]].val));
    assert up[i] == s[i];
  }

  /** All entries met pass exactly if all bindings do. */
  lemma PassAll<V>(m: Mem<V>, heads: seq<Entry?<V>>, chains: seq<seq<Entry<V>>>, dir: Directory<V>, hashOf: Key -> nat,
                   comp: (Key, V) -> bool)
    requires Table(m, heads, chains, dir, hashOf)
    ensures Passes(m, comp, Flatten(chains, 0)) <==> forall k :: k in dir ==> comp(k, Bindings(m, dir)[k])
  {
    var up := Flatten(chains, 0);
    OrderExact(m, heads, chains, dir, hashOf);
    if forall k :: k in dir ==> comp(k, Bindings(m, dir)[k]) {
      forall i {:trigger up[i]} | 0 <= i < |up| ensures up[i] in m && comp(m[up[i]].key, m[up[i]].val) {
        assert Live(m, dir, up[i]);
        assert Bindings(m, dir)[m[up[i]].key] == m[up[i]].val;
      }
    }
    if Passes(m, comp, up) {
      forall k | k in dir ensures comp(k, Bindings(m, dir)[k]) {
        assert dir[k] in up;
        var i :| 0 <= i < |up| && up[i] == dir[k];
      }
    }
  }
}
