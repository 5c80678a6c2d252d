/**
  What a heap of linked tree nodes represents, stated on a snapshot of their
  tree fields so that it can be reasoned about as a value.
*/
module TreeHeap {
  import opened Common
  import opened Timers
  import opened TreeShape

  datatype Links = Links(parent: Timer?, left: Timer?, right: Timer?, color: Color)

  /** A snapshot of the tree fields of some nodes. */
  type Mem = map<Timer, Links>

  /** `m` is what the tree fields of the nodes in `s` hold now. */
  ghost predicate Synced(m: Mem, s: set<Timer>)
    reads s`left, s`right, s`parent, s`color
  {
    m.Keys == s &&
    forall x {:trigger m[x]} {:trigger x in s} :: x in s ==> m[x] == Links(x.parent, x.left, x.right, x.color)
  }

  /** In `m`, the tree below pointer `n`, whose parent field is `p`, is exactly `t`. */
  ghost predicate Rep(m: Mem, t: Tree, n: Timer?, p: Timer?) {
    match t
    case Leaf => n == null
    case Branch(l, x, k, r) =>
      n == x && x in m && m[x].parent == p && m[x].color == k &&
      x !in Nodes(l) && x !in Nodes(r) && Nodes(l) !! Nodes(r) &&
      Rep(m, l, m[x].left, x) && Rep(m, r, m[x].right, x)
  }

  /** The parent of the hole of `c`, when the whole hangs below `p`. */
  ghost function Above(c: Ctx, p: Timer?): (n: Timer?) {
    match c
    case Top => p
    case InLeft(x, _, _, _) => x
    case InRight(_, x, _, _) => x
  }

  /** In `m`, what surrounds a hole is exactly `c`: the hole's slot holds `n`, the top slot holds `root`. */
  ghost predicate RepCtx(m: Mem, c: Ctx, n: Timer?, root: Timer?, p: Timer?) {
    match c
    case Top => n == root
    case InLeft(x, k, r, up) =>
      x in m && m[x].left == n && m[x].color == k && m[x].parent == Above(up, p) &&
      x !in Nodes(r) && x !in CtxNodes(up) && Nodes(r) !! CtxNodes(up) &&
      Rep(m, r, m[x].right, x) && RepCtx(m, up, x, root, p)
    case InRight(l, x, k, up) =>
      x in m && m[x].right == n && m[x].color == k && m[x].parent == Above(up, p) &&
      x !in Nodes(l) && x !in CtxNodes(up) && Nodes(l) !! CtxNodes(up) &&
      Rep(m, l, m[x].left, x) && RepCtx(m, up, x, root, p)
  }

  /** In `m`, the tree at `root` below `p` is `Plug(c, t)`, and `n` points at its part `t`. */
  ghost predicate At(m: Mem, c: Ctx, t: Tree, n: Timer?, root: Timer?, p: Timer?) {
    RepCtx(m, c, n, root, p) && Rep(m, t, n, Above(c, p)) && Nodes(t) !! CtxNodes(c)
  }

  ghost predicate Same(m: Mem, m': Mem, s: set<Timer>) {
    forall x :: x in s && x in m ==> x in m' && m'[x] == m[x]
  }

  lemma {:induction false} RepFrame(m: Mem, m': Mem, t: Tree, n: Timer?, p: Timer?)
    requires Rep(m, t, n, p) && Same(m, m', Nodes(t))
    ensures Rep(m', t, n, p)
  {
    match t
    case Leaf =>
    case Branch(l, x, _, r) =>
      RepFrame(m, m', l, m[x].left, x);
      RepFrame(m, m', r, m[x].right, x);
  }

  lemma {:induction false} CtxFrame(m: Mem, m': Mem, c: Ctx, n: Timer?, root: Timer?, p: Timer?)
    requires RepCtx(m, c, n, root, p) && Same(m, m', CtxNodes(c))
    ensures RepCtx(m', c, n, root, p)
  {
    match c
    case Top =>
    case InLeft(x, _, r, up) =>
      RepFrame(m, m', r, m[x].right, x);
      CtxFrame(m, m', up, x, root, p);
    case InRight(l, x, _, up) =>
      RepFrame(m, m', l, m[x].left, x);
      CtxFrame(m, m', up, x, root, p);
  }

  /** Moving a tree below another parent. */
  lemma {:induction false} Rehang(m: Mem, m': Mem, t: Tree, n: Timer?, q: Timer?, p: Timer?)
    requires Rep(m, t, n, q) && Same(m, m', Nodes(t) - Only(n))
    requires n != null ==> n in m && n in m' && m'[n] == m[n].(parent := p)
    ensures Rep(m', t, n, p)
  {
    match t
    case Leaf =>
    case Branch(l, x, _, r) =>
      RepFrame(m, m', l, m[x].left, x);
      RepFrame(m, m', r, m[x].right, x);
  }

  /** Hanging another tree into a hole: only the link just above the hole changes. */
  lemma {:induction false} Refill(m: Mem, m': Mem, c: Ctx, n: Timer?, n': Timer?, root: Timer?, root': Timer?,
                                  p: Timer?)
    requires RepCtx(m, c, n, root, p) && Same(m, m', CtxNodes(c) - Only(Above(c, p)))
    requires c.Top? ==> root' == n'
    requires !c.Top? ==> root' == root
    requires c.InLeft? ==> c.node in m && c.node in m' && m'[c.node] == m[c.node].(left := n')
    requires c.InRight? ==> c.node in m && c.node in m' && m'[c.node] == m[c.node].(right := n')
    ensures RepCtx(m', c, n', root', p)
  {
    match c
    case Top =>
    case InLeft(x, _, r, up) =>
      RepFrame(m, m', r, m[x].right, x);
      CtxFrame(m, m', up, x, root, p);
    case InRight(l, x, _, up) =>
      RepFrame(m, m', l, m[x].left, x);
      CtxFrame(m, m', up, x, root, p);
  }

  lemma {:induction false} ZipUp(m: Mem, c: Ctx, t: Tree, n: Timer?, root: Timer?, p: Timer?)
    requires At(m, c, t, n, root, p)
    ensures Rep(m, Plug(c, t), root, p)
  {
    match c
    case Top =>
    case InLeft(x, k, r, up) => ZipUp(m, up, Branch(t, x, k, r), x, root, p);
    case InRight(l, x, k, up) => ZipUp(m, up, Branch(l, x, k, t), x, root, p);
  }

  lemma {:induction false} ZipDown(m: Mem, c: Ctx, t: Tree, root: Timer?, p: Timer?) returns (n: Timer?)
    requires Rep(m, Plug(c, t), root, p)
    ensures At(m, c, t, n, root, p)
  {
    match c
    case Top => n := root;
    case InLeft(x, k, r, up) =>
      var y := ZipDown(m, up, Branch(t, x, k, r), root, p);
      n := m[x].left;
    case InRight(l, x, k, up) =>
      var y := ZipDown(m, up, Branch(l, x, k, t), root, p);
      n := m[x].right;
  }

  ghost function RootOf(t: Tree): (n: Timer?) {
    if t.Leaf? then null else t.node
  }

  lemma {:induction false} RootAbove(m: Mem, c: Ctx, n: Timer?, root: Timer?, p: Timer?)
    requires RepCtx(m, c, n, root, p) && !c.Top?
    ensures root != null && root in CtxNodes(c)
  {
    match c
    case InLeft(x, _, _, up) => if !up.Top? { RootAbove(m, up, x, root, p); }
    case InRight(_, x, _, up) => if !up.Top? { RootAbove(m, up, x, root, p); }
  }

  /** The node above a hole links to the tree in it by the side the context names, and by no other. */
  lemma HoleOnly(m: Mem, c: Ctx, t: Tree, n: Timer?, root: Timer?, p: Timer?)
    requires At(m, c, t, n, root, p)
    ensures c.InLeft? ==> c.node in m && m[c.node].left == n && (n != null ==> m[c.node].right != n)
    ensures c.InRight? ==> c.node in m && m[c.node].right == n && (n != null ==> m[c.node].left != n)
  {
    match c
    case Top =>
    case InLeft(y, _, r, _) =>
      assert n != null ==> n in Nodes(t);
      assert Rep(m, r, m[y].right, y);
      assert m[y].right != null ==> m[y].right in Nodes(r);
    case InRight(l, y, _, _) =>
      assert n != null ==> n in Nodes(t);
      assert Rep(m, l, m[y].left, y);
      assert m[y].left != null ==> m[y].left in Nodes(l);
  }

  /** What the links of the node above a hole, and of the node in it, look like. */
  lemma Around(m: Mem, c: Ctx, t: Tree, root: Timer?) returns (n: Timer?)
    requires Rep(m, Plug(c, t), root, null)
    ensures n == RootOf(t) && (root == n <==> c.Top? || (n == null && root == null))
    ensures !c.Top? ==> root != null
    ensures t.Branch? ==> n in m && m[n] == Links(Above(c, null), RootOf(t.left), RootOf(t.right), t.color)
    ensures c.InLeft? ==> c.node in m && m[c.node] == Links(Above(c.up, null), n, RootOf(c.right), c.color)
    ensures c.InRight? ==> c.node in m && m[c.node] == Links(Above(c.up, null), RootOf(c.left), n, c.color)
    ensures n != null ==> (c.InRight? ==> m[c.node].left != n) && (c.InLeft? ==> m[c.node].right != n)
  {
    n := ZipDown(m, c, t, root, null);
    HoleOnly(m, c, t, n, root, null);
    if t.Branch? {
      assert Rep(m, t.left, m[n].left, n) && Rep(m, t.right, m[n].right, n);
    }
    match c {
      case Top =>
      case InLeft(x, _, r, _) =>
        RootAbove(m, c, n, root, null);
        assert Rep(m, r, m[x].right, x);
      case InRight(l, x, _, _) =>
        RootAbove(m, c, n, root, null);
        assert Rep(m, l, m[x].left, x);
    }
  }

  // ------------------------------------------------- memory after an operation

  /** `m` after the child link of `parent` that held `n` holds `n'`. */
  ghost function Relinked(m: Mem, n: Timer?, n': Timer?, parent: Timer?): (m': Mem)
    requires parent == null || parent in m
  {
    if parent == null then m
    else if m[parent].left == n then m[parent := m[parent].(left := n')]
    else m[parent := m[parent].(right := n')]
  }

  ghost function Reparented(m: Mem, n: Timer?, parent: Timer?): (m': Mem)
    requires n == null || n in m
  {
    if n == null then m else m[n := m[n].(parent := parent)]
  }

  ghost predicate CanRotateLeft(m: Mem, x: Timer) {
    x in m && m[x].right != null && m[x].right in m && m[x].right != x &&
    (m[x].parent == null || m[x].parent in m) &&
    (m[m[x].right].left == null || m[m[x].right].left in m) && m[m[x].right].left != x
  }

  ghost predicate CanRotateRight(m: Mem, x: Timer) {
    x in m && m[x].left != null && m[x].left in m && m[x].left != x &&
    (m[x].parent == null || m[x].parent in m) &&
    (m[m[x].left].right == null || m[m[x].left].right in m) && m[m[x].left].right != x
  }

  ghost function MemRotateLeft(m: Mem, x: Timer): (m': Mem)
    requires CanRotateLeft(m, x)
  {
    var r: Timer := m[x].right;
    var m1 := m[x := m[x].(right := m[r].left)];
    var m2 := Reparented(m1, m1[r].left, x);
    var p := m2[x].parent;
    var m3 := Reparented(Relinked(m2, x, r, p), r, p);
    var m4 := m3[r := m3[r].(left := x)];
    m4[x := m4[x].(parent := r)]
  }

  ghost function MemRotateRight(m: Mem, x: Timer): (m': Mem)
    requires CanRotateRight(m, x)
  {
    var l: Timer := m[x].left;
    var m1 := m[x := m[x].(left := m[l].right)];
    var m2 := Reparented(m1, m1[l].right, x);
    var p := m2[x].parent;
    var m3 := Reparented(Relinked(m2, x, l, p), l, p);
    var m4 := m3[l := m3[l].(right := x)];
    m4[x := m4[x].(parent := l)]
  }

  /** What stands around and below the two nodes of a left rotation. */
  lemma LeftPivot(m: Mem, c: Ctx, t: Tree, x: Timer, root: Timer?)
    requires At(m, c, t, x, root, null) && t.Branch? && t.right.Branch?
    ensures CanRotateLeft(m, x) && m[x].right == t.right.node && x == t.node
    ensures m[x].parent == Above(c, null)
    ensures var p := m[x].parent; p != null ==> p != t.right.node && p !in Nodes(t)
    ensures var b := m[t.right.node].left;
            b != null ==> b != t.right.node && t.right.left.Branch? && b == t.right.left.node
    ensures m[t.right.node].left == null ==> t.right.left.Leaf?
    ensures c.Top? ==> root == x
  {
    assert Rep(m, t.right, m[x].right, x);
    assert Rep(m, t.right.left, m[t.right.node].left, t.right.node);
    match c { case Top => case InLeft(_, _, _, _) => case InRight(_, _, _, _) => }
  }

  lemma RightPivot(m: Mem, c: Ctx, t: Tree, x: Timer, root: Timer?)
    requires At(m, c, t, x, root, null) && t.Branch? && t.left.Branch?
    ensures CanRotateRight(m, x) && m[x].left == t.left.node && x == t.node
    ensures m[x].parent == Above(c, null)
    ensures var p := m[x].parent; p != null ==> p != t.left.node && p !in Nodes(t)
    ensures var b := m[t.left.node].right;
            b != null ==> b != t.left.node && t.left.right.Branch? && b == t.left.right.node
    ensures m[t.left.node].right == null ==> t.left.right.Leaf?
    ensures c.Top? ==> root == x
  {
    assert Rep(m, t.left, m[x].left, x);
    assert Rep(m, t.left.right, m[t.left.node].right, t.left.node);
    match c { case Top => case InLeft(_, _, _, _) => case InRight(_, _, _, _) => }
  }

  /** A left rotation changes the two pivots, the middle subtree's parent link and the link from above. */
  lemma RotateLeftWrites(m: Mem, x: Timer, r: Timer, p: Timer?, n: Timer?)
    requires CanRotateLeft(m, x) && r == m[x].right && p == m[x].parent && n == m[r].left
    requires p != null ==> p != x && p != r && p != n
    requires n != null ==> n != x && n != r
    ensures var m' := MemRotateLeft(m, x);
            && Same(m, m', m.Keys - {x, r} - Only(p) - Only(n)) && x in m' && r in m'
            && m'[x] == m[x].(right := n, parent := r) && m'[r] == m[r].(left := x, parent := p)
            && (n != null ==> n in m' && m'[n] == m[n].(parent := x))
            && (p != null ==> p in m' && m'[p] == if m[p].left == x then m[p].(left := r) else m[p].(right := r))
  {
  }

  lemma RotateLeftRep(m: Mem, c: Ctx, t: Tree, x: Timer, root: Timer?, root': Timer?)
    requires At(m, c, t, x, root, null) && t.Branch? && t.right.Branch? && CanRotateLeft(m, x)
    requires root' == if m[x].parent == null then m[x].right else root
    ensures At(MemRotateLeft(m, x), c, RotatedLeft(t), t.right.node, root', null)
  {
    LeftPivot(m, c, t, x, root);
    HoleOnly(m, c, t, x, root, null);
    var m', a, b, d, r := MemRotateLeft(m, x), t.left, t.right.left, t.right.right, t.right.node;
    var p, n := m[x].parent, m[r].left;
    RotateLeftWrites(m, x, r, p, n);
    assert Rep(m, t.right, r, x);
    RepFrame(m, m', a, m[x].left, x);
    RepFrame(m, m', d, m[r].right, r);
    Rehang(m, m', b, n, r, x);
    Refill(m, m', c, x, r, root, root', null);
  }

  /** A right rotation changes the two pivots, the middle subtree's parent link and the link from above. */
  lemma RotateRightWrites(m: Mem, x: Timer, r: Timer, p: Timer?, n: Timer?)
    requires CanRotateRight(m, x) && r == m[x].left && p == m[x].parent && n == m[r].right
    requires p != null ==> p != x && p != r && p != n
    requires n != null ==> n != x && n != r
    ensures var m' := MemRotateRight(m, x);
            && Same(m, m', m.Keys - {x, r} - Only(p) - Only(n)) && x in m' && r in m'
            && m'[x] == m[x].(left := n, parent := r) && m'[r] == m[r].(right := x, parent := p)
            && (n != null ==> n in m' && m'[n] == m[n].(parent := x))
            && (p != null ==> p in m' && m'[p] == if m[p].left == x then m[p].(left := r) else m[p].(right := r))
  {
  }

  lemma RotateRightRep(m: Mem, c: Ctx, t: Tree, x: Timer, root: Timer?, root': Timer?)
    requires At(m, c, t, x, root, null) && t.Branch? && t.left.Branch? && CanRotateRight(m, x)
    requires root' == if m[x].parent == null then m[x].left else root
    ensures At(MemRotateRight(m, x), c, RotatedRight(t), t.left.node, root', null)
  {
    RightPivot(m, c, t, x, root);
    HoleOnly(m, c, t, x, root, null);
    var m', a, b, d, l := MemRotateRight(m, x), t.left.left, t.left.right, t.right, t.left.node;
    var p, n := m[x].parent, m[l].right;
    RotateRightWrites(m, x, l, p, n);
    assert Rep(m, t.left, l, x);
    RepFrame(m, m', a, m[l].left, l);
    RepFrame(m, m', d, m[x].right, x);
    Rehang(m, m', b, n, l, x);
    Refill(m, m', c, x, l, root, root', null);
  }

  lemma PaintRep(m: Mem, c: Ctx, t: Tree, x: Timer, k: Color, root: Timer?)
    requires At(m, c, t, x, root, null) && t.Branch? && x in m
    ensures At(m[x := m[x].(color := k)], c, t.(color := k), x, root, null)
  {
    var m' := m[x := m[x].(color := k)];
    RepFrame(m, m', t.left, m[x].left, x);
    RepFrame(m, m', t.right, m[x].right, x);
    CtxFrame(m, m', c, x, root, null);
  }

  // ------------------------------------------------------------------ removal

  /** No node is visited twice. */
  lemma {:induction false} OrderDistinct(m: Mem, t: Tree, n: Timer?, p: Timer?)
    requires Rep(m, t, n, p)
    ensures Distinct(InOrder(t))
  {
    match t
    case Leaf =>
    case Branch(l, x, _, r) =>
      OrderDistinct(m, l, m[x].left, x);
      OrderDistinct(m, r, m[x].right, x);
      InOrderNodes(l, x);
      InOrderNodes(r, x);
      forall y | y in InOrder(l) ensures y !in InOrder(r) { InOrderNodes(l, y); InOrderNodes(r, y); }
      DistinctJoin(InOrder(l), x, InOrder(r));
  }

  lemma DistinctJoin<T>(a: seq<T>, x: T, b: seq<T>)
    requires Distinct(a) && Distinct(b) && x !in a && x !in b
    requires forall y :: y in a ==> y !in b
    ensures Distinct(a + [x] + b)
  {
    var s := a + [x] + b;
    forall i, j | 0 <= i < j < |s| ensures s[i] != s[j] {
      if j < |a| {
      } else if i < |a| {
        assert s[i] in a;
      }
    }
  }

  /** A node with one subtree `ch` at most is replaced by that subtree. */
  lemma SpliceRep(m: Mem, c: Ctx, t: Tree, x: Timer, ch: Tree, root: Timer?, root': Timer?, p: Timer?)
    requires At(m, c, t, x, root, p) && t.Branch?
    requires (t.left.Leaf? && ch == t.right) || (t.right.Leaf? && ch == t.left)
    requires c.Top? ==> root' == RootOf(ch) && p == null
    requires !c.Top? ==> root' == root
    ensures var n, q := RootOf(ch), Above(c, p);
            (q == null || q in m) && (n == null || n in m) && n != x && q != x && (q != null ==> n != q) &&
            At(Reparented(Relinked(m, x, n, q), n, q), c, ch, n, root', p)
  {
    var n, q := RootOf(ch), Above(c, p);
    HoleOnly(m, c, t, x, root, p);
    assert Rep(m, t.left, m[x].left, x) && Rep(m, t.right, m[x].right, x);
    assert q != null ==> q in CtxNodes(c);
    var m1 := Relinked(m, x, n, q);
    var m' := Reparented(m1, n, q);
    Refill(m, m', c, x, n, root, root', p);
    Rehang(m, m', ch, n, x, q);
  }

  /** The replacement node takes over the left subtree of `x`. */
  ghost function TakeLeft(m: Mem, x: Timer, y: Timer): (m': Mem)
    requires x in m && y in m && m[x].left != null && m[x].left in m
  {
    var m1 := m[y := m[y].(left := m[x].left)];
    m1[m1[x].left := m1[m1[x].left].(parent := y)]
  }

  /** The replacement node takes over the color and the place of `x`. */
  ghost function TakePlace(m: Mem, x: Timer, y: Timer): (m': Mem)
    requires x in m && y in m && (m[x].parent != null ==> m[x].parent in m)
  {
    var m1 := m[y := m[y].(color := m[x].color)];
    Reparented(Relinked(m1, x, y, m1[x].parent), y, m1[x].parent)
  }

  /** The replacement node is cut out from below `q`, where `n` replaces it, and takes over the right subtree of `x`. */
  ghost function TakeRight(m: Mem, x: Timer, y: Timer, q: Timer, n: Timer?): (m': Mem)
    requires x in m && y in m && q in m && (n != null ==> n in m)
    requires m[x].right != null && m[x].right in m && x != y && x != q && x != n
  {
    var m1 := Reparented(m, n, q);
    var m2 := m1[q := m1[q].(left := n)];
    var m3 := m2[y := m2[y].(right := m2[x].right)];
    m3[m3[x].right := m3[m3[x].right].(parent := y)]
  }

  lemma AfterTakeLeft(m: Mem, x: Timer, y: Timer)
    requires x in m && y in m && m[x].left != null && m[x].left in m && m[x].left != y && m[x].left != x && x != y
    ensures var m', w := TakeLeft(m, x, y), m[x].left;
            m'.Keys == m.Keys && Same(m, m', m.Keys - {y, w}) &&
            m'[y] == m[y].(left := w) && m'[w] == m[w].(parent := y)
  {
  }

  lemma AfterTakePlace(m: Mem, x: Timer, y: Timer)
    requires x in m && y in m && (m[x].parent != null ==> m[x].parent in m && m[x].parent != y) && x != y
    ensures var m', q := TakePlace(m, x, y), m[x].parent;
            m'.Keys == m.Keys && Same(m, m', m.Keys - {y} - Only(q)) &&
            m'[y] == m[y].(color := m[x].color, parent := q) &&
            (q != null ==> m'[q] == if m[q].left == x then m[q].(left := y) else m[q].(right := y))
  {
  }

  lemma AfterTakeRight(m: Mem, x: Timer, y: Timer, q: Timer, n: Timer?)
    requires x in m && y in m && q in m && (n != null ==> n in m)
    requires m[x].right != null && m[x].right in m && x != y && x != q && x != n
    requires y != q && y != n && q != n && m[x].right != x && m[x].right != y && m[x].right != n
    ensures var m', w := TakeRight(m, x, y, q, n), m[x].right;
            m'.Keys == m.Keys && Same(m, m', m.Keys - {y, q, w} - Only(n)) &&
            m'[y] == m[y].(right := w) &&
            (n != null ==> m'[n] == m[n].(parent := q)) &&
            m'[q] == (if q == w then m[q].(left := n, parent := y) else m[q].(left := n)) &&
            (q != w ==> m'[w] == m[w].(parent := y))
  {
  }

  /** The successor was the right child itself. */
  lemma PromoteNear(m: Mem, c: Ctx, t: Tree, x: Timer, y: Timer, root: Timer?, root': Timer?)
    requires At(m, c, t, x, root, null) && t.Branch? && t.left.Branch? && t.right.Branch?
    requires t.right.left.Leaf? && t.right.node == y
    requires root' == if c.Top? then y else root
    ensures x in m && y in m && x != y && m[x].left == t.left.node && t.left.node in m && t.left.node != y
    ensures m[x].parent == Above(c, null) && (m[x].parent != null ==> m[x].parent in m)
    ensures var m' := TakePlace(TakeLeft(m, x, y), x, y);
            At(m', c, Branch(t.left, y, t.color, t.right.right), y, root', null)
  {
    var l, rr, w, q := t.left, t.right.right, t.left.node, m[x].parent;
    HoleOnly(m, c, t, x, root, null);
    assert q != null ==> q in CtxNodes(c);
    assert Rep(m, l, m[x].left, x) && Rep(m, t.right, m[x].right, x);
    assert Rep(m, rr, m[y].right, y);
    AfterTakeLeft(m, x, y);
    var m1 := TakeLeft(m, x, y);
    AfterTakePlace(m1, x, y);
    var m' := TakePlace(m1, x, y);
    Refill(m, m', c, x, y, root, root', null);
    Rehang(m, m', l, w, x, y);
    RepFrame(m, m', rr, m[y].right, y);
  }

  /** Where the successor `y` of `x` stands when it is not the right child itself. */
  lemma FarPlaces(m: Mem, c: Ctx, t: Tree, x: Timer, y: Timer, pc: Ctx, s: Tree, root: Timer?)
    requires At(m, c, t, x, root, null) && t.Branch? && t.left.Branch?
    requires t.right == Plug(pc, s) && pc.InLeft? && s.Branch? && s.left.Leaf? && s.node == y
    ensures x in m && y in m && x != y && m[x].left == t.left.node && t.left.node in m
    ensures m[x].parent == Above(c, null) && (m[x].parent != null ==> m[x].parent in m)
    ensures m[x].right != null && m[x].right in m && m[x].right in Nodes(t.right) - {y}
    ensures pc.node in m && pc.node in Nodes(t.right) - {y} && m[y].parent == pc.node
    ensures var n := RootOf(s.right);
            m[y].right == n && (n != null ==> n in m && n in Nodes(t.right) - {y} - CtxNodes(pc))
    ensures m[x].right in CtxNodes(pc) && y in Nodes(t.right)
  {
    HoleOnly(m, c, t, x, root, null);
    assert Rep(m, t.left, m[x].left, x) && Rep(m, t.right, m[x].right, x);
    PlugNodes(pc, s);
    var y' := ZipDown(m, pc, s, m[x].right, x);
    assert Rep(m, s.right, m[y].right, y);
    RootAbove(m, pc, y, m[x].right, x);
  }

  /** The node above a subtree is not in it. */
  lemma ClearOfAbove(m: Mem, c: Ctx, t: Tree, x: Timer, root: Timer?)
    requires At(m, c, t, x, root, null) && t.Branch?
    ensures x in m && m[x].parent == Above(c, null) && (m[x].parent != null ==> m[x].parent !in Nodes(t))
    ensures x !in Nodes(t.left) && x !in Nodes(t.right) && Nodes(t.left) !! Nodes(t.right)
    ensures c.Top? <==> m[x].parent == null
    ensures t.left.Branch? ==> t.left.node in Nodes(t.left)
  {
    match c
    case Top =>
    case InLeft(_, _, _, _) =>
    case InRight(_, _, _, _) =>
  }

  /** The first node of the right subtree of `x`, as its links tell. */
  lemma SuccessorPlace(m: Mem, r: Tree, x: Timer, v: Timer?, pc: Ctx, s: Tree)
    requires Rep(m, r, v, x) && x !in Nodes(r) && r == Plug(pc, s) && s.Branch?
    ensures s.node in m && s.node != x && m[s.node].color == s.color && m[s.node].right == RootOf(s.right)
    ensures m[s.node].parent == if pc.Top? then x else pc.node
    ensures !pc.Top? ==> pc.node != x
  {
    PlugNodes(pc, s);
    var y := ZipDown(m, pc, s, v, x);
    assert Rep(m, s.right, m[y].right, y);
  }

  /** The right subtree without its first node, still below `x`. */
  lemma FarRest(m: Mem, r: Tree, x: Timer, v: Timer, y: Timer, pc: Ctx, s: Tree)
    requires Rep(m, r, v, x) && x !in Nodes(r)
    requires r == Plug(pc, s) && pc.InLeft? && s.Branch? && s.left.Leaf? && s.node == y
    ensures pc.node in m && (RootOf(s.right) != null ==> RootOf(s.right) in m)
    ensures var n := RootOf(s.right);
            var mA := Reparented(m[pc.node := m[pc.node].(left := n)], n, pc.node);
            Rep(mA, Plug(pc, s.right), v, x) && Nodes(Plug(pc, s.right)) == Nodes(r) - {y}
  {
    PlugNodes(pc, s);
    PlugNodes(pc, s.right);
    var y' := ZipDown(m, pc, s, v, x);
    SpliceRep(m, pc, s, y, s.right, v, v, x);
    HoleOnly(m, pc, s, y, v, x);
    var n := RootOf(s.right);
    ZipUp(Reparented(Relinked(m, y, n, pc.node), n, pc.node), pc, s.right, n, v, x);
  }

  /** All that the replacement of `x` by a successor `y` from below `z` writes. */
  ghost predicate FarWritten(m: Mem, m': Mem, x: Timer, y: Timer, z: Timer, n: Timer?)
    requires x in m && m[x].left != null && m[x].right != null
  {
    var q, w, v := m[x].parent, m[x].left, m[x].right;
    && m'.Keys == m.Keys && {y, z, w, v} + Only(n) + Only(q) <= m.Keys
    && Same(m, m', m.Keys - {y, w, z, v} - Only(n) - Only(q))
    && m'[y] == Links(q, w, v, m[x].color)
    && m'[w] == m[w].(parent := y)
    && (n != null ==> m'[n] == m[n].(parent := z))
    && m'[z] == (if z == v then m[z].(left := n, parent := y) else m[z].(left := n))
    && (z != v ==> m'[v] == m[v].(parent := y))
    && (q != null ==> m'[q] == if m[q].left == x then m[q].(left := y) else m[q].(right := y))
  }

  /** The nodes concerned are there and do not coincide, but that `z` may be the right child of `x`. */
  ghost predicate CanPromote(m: Mem, x: Timer, y: Timer, z: Timer, n: Timer?) {
    && x in m && y in m && x != y && z in m && z != x && z != y && m[x].right != null
    && m[x].left != null && m[x].left in m && m[x].right in m
    && (m[x].parent != null ==> m[x].parent in m)
    && (n != null ==> n in m)
    && (var q, w, v := m[x].parent, m[x].left, m[x].right;
        n != x && n != y && w !in {x, y, z, v} && w != n && v !in {x, y} && v != n && z != n &&
        (q != null ==> q !in {x, y, z, w, v} && q != n))
  }

  lemma FarWrites(m: Mem, x: Timer, y: Timer, z: Timer, n: Timer?)
    requires CanPromote(m, x, y, z, n)
    ensures FarWritten(m, TakePlace(TakeRight(TakeLeft(m, x, y), x, y, z, n), x, y), x, y, z, n)
  {
    AfterTakeLeft(m, x, y);
    AfterTakeRight(TakeLeft(m, x, y), x, y, z, n);
    AfterTakePlace(TakeRight(TakeLeft(m, x, y), x, y, z, n), x, y);
  }

  /** The successor was further down the left spine of the right subtree. */
  lemma FarParts(m: Mem, m': Mem, c: Ctx, t: Tree, x: Timer, y: Timer, pc: Ctx, s: Tree, root: Timer?) returns (mA: Mem)
    requires At(m, c, t, x, root, null) && t.Branch? && t.left.Branch?
    requires t.right == Plug(pc, s) && pc.InLeft? && s.Branch? && s.left.Leaf? && s.node == y
    requires x in m && m[x].left != null && m[x].right != null && FarWritten(m, m', x, y, pc.node, RootOf(s.right))
    ensures Parts(m, mA, m', c, t, Plug(pc, s.right), x, y)
  {
    var v, z, n := m[x].right, pc.node, RootOf(s.right);
    FarPlaces(m, c, t, x, y, pc, s, root);
    assert Rep(m, t.right, v, x);
    FarRest(m, t.right, x, v, y, pc, s);
    mA := Reparented(m[z := m[z].(left := n)], n, z);
    Kept(m, m', c, t, x, y, z, n);
    Rest(m, mA, m', Nodes(t.right), x, y, z, n);
  }

  lemma PromoteFar(m: Mem, m': Mem, c: Ctx, t: Tree, x: Timer, y: Timer, pc: Ctx, s: Tree, root: Timer?, root': Timer?)
    requires At(m, c, t, x, root, null) && t.Branch? && t.left.Branch?
    requires t.right == Plug(pc, s) && pc.InLeft? && s.Branch? && s.left.Leaf? && s.node == y
    requires root' == if c.Top? then y else root
    requires x in m && m[x].left != null && m[x].right != null && FarWritten(m, m', x, y, pc.node, RootOf(s.right))
    ensures At(m', c, Branch(t.left, y, t.color, Plug(pc, s.right)), y, root', null)
  {
    var mA := FarParts(m, m', c, t, x, y, pc, s, root);
    Assemble(m, mA, m', c, t, Plug(pc, s.right), x, y, root, root');
  }

  lemma Rest(m: Mem, mA: Mem, m': Mem, s: set<Timer>, x: Timer, y: Timer, z: Timer, n: Timer?)
    requires x in m && m[x].left != null && m[x].right != null && FarWritten(m, m', x, y, z, n)
    requires z != n && n != m[x].right && n != y && mA == Reparented(m[z := m[z].(left := n)], n, z)
    requires m[x].left !in s && m[x].parent !in Only(m[x].parent) * s
    ensures Same(mA, m', s - {y} - Only(m[x].right))
    ensures m[x].right in mA && m'[m[x].right] == mA[m[x].right].(parent := y)
  {
  }

  /** Writes that stay in the right subtree, but for three links, leave the rest alone. */
  lemma Kept(m: Mem, m': Mem, c: Ctx, t: Tree, x: Timer, y: Timer, z: Timer, n: Timer?)
    requires x in m && m[x].left != null && m[x].right != null && FarWritten(m, m', x, y, z, n)
    requires t.Branch? && t.left.Branch? && m[x].left == t.left.node && m[x].parent == Above(c, null)
    requires {y, z, m[x].right} + Only(n) <= Nodes(t.right)
    requires Nodes(t.left) !! Nodes(t.right) && Nodes(t) !! CtxNodes(c)
    ensures Same(m, m', Nodes(t.left) - {t.left.node})
    ensures Same(m, m', CtxNodes(c) - Only(Above(c, null)))
  {
  }

  /** `m'` holds the subtrees moved below `y`, and `y` in place of `x`. */
  ghost predicate Parts(m: Mem, mA: Mem, m': Mem, c: Ctx, t: Tree, r': Tree, x: Timer, y: Timer)
    requires t.Branch? && t.left.Branch?
  {
    && r'.Branch? && r'.node in mA && r'.node in m' && m'[r'.node] == mA[r'.node].(parent := y)
    && Rep(mA, r', r'.node, x) && Same(mA, m', Nodes(r') - {r'.node}) && Nodes(r') <= Nodes(t.right) - {y}
    && t.left.node in m && t.left.node in m' && m'[t.left.node] == m[t.left.node].(parent := y)
    && Same(m, m', Nodes(t.left) - {t.left.node})
    && Same(m, m', CtxNodes(c) - Only(Above(c, null)))
    && (var q := Above(c, null); q != null ==>
               q in m && q in m' && m'[q] == if m[q].left == x then m[q].(left := y) else m[q].(right := y))
    && y in m' && y in Nodes(t.right) && m'[y] == Links(Above(c, null), t.left.node, r'.node, t.color)
  }

  /** The subtrees, moved below `y`, and the context, with `y` in its hole, make up the new tree. */
  lemma Assemble(m: Mem, mA: Mem, m': Mem, c: Ctx, t: Tree, r': Tree, x: Timer, y: Timer, root: Timer?, root': Timer?)
    requires At(m, c, t, x, root, null) && t.Branch? && t.left.Branch? && x in m
    requires Parts(m, mA, m', c, t, r', x, y)
    requires root' == if c.Top? then y else root
    ensures At(m', c, Branch(t.left, y, t.color, r'), y, root', null)
  {
    assert Rep(m, t.left, m[x].left, x);
    Rehang(mA, m', r', r'.node, x, y);
    Rehang(m, m', t.left, t.left.node, x, y);
    HoleOnly(m, c, t, x, root, null);
    Refill(m, m', c, x, y, root, root', null);
  }

  /** Leaving out one element that occurs once takes it out of the set of elements. */
  lemma MembersCut(a: seq<Timer>, x: Timer, b: seq<Timer>, t: Tree, t': Tree)
    requires InOrder(t) == a + [x] + b && InOrder(t') == a + b && Distinct(InOrder(t))
    ensures Nodes(t') == Nodes(t) - {x}
  {
    NodesOf(t);
    NodesOf(t');
    DistinctAround(a, x, b);
    ElementsCut(a, x, b);
  }

  lemma DistinctAround<T>(a: seq<T>, x: T, b: seq<T>)
    requires Distinct(a + [x] + b)
    ensures x !in a && x !in b
  {
    var s := a + [x] + b;
    assert s[|a|] == x;
    forall i | 0 <= i < |a| ensures a[i] != x { assert s[i] == a[i]; }
    forall i | 0 <= i < |b| ensures b[i] != x { assert s[|a| + 1 + i] == b[i]; }
  }

  lemma ElementsCut(a: seq<Timer>, x: Timer, b: seq<Timer>)
    requires x !in a && x !in b
    ensures Elements(a + b) == Elements(a + [x] + b) - {x}
  {
  }

  lemma SameNodes(t: Tree, t': Tree)
    requires InOrder(t) == InOrder(t')
    ensures Nodes(t) == Nodes(t')
  {
    NodesOf(t);
    NodesOf(t');
  }

  lemma RemovedMiddle<T>(a: seq<T>, x: T, b: seq<T>)
    ensures |a| < |a + [x] + b| && (a + [x] + b)[|a|] == x
    ensures RemovedAt(a + [x] + b, |a|) == a + b
  {
  }

  // -------------------------------------------------------------------- growth

  ghost function Stored(m: Mem, slot: Slot, parent: Timer?, x: Timer): (m': Mem)
    requires slot.AtRoot? || (parent != null && parent in m)
  {
    match slot
    case AtRoot => m
    case OnLeft => m[parent := m[parent].(left := x)]
    case OnRight => m[parent := m[parent].(right := x)]
  }

  /** A fresh leaf in an empty hole. */
  lemma LinkRep(m: Mem, c: Ctx, x: Timer, root: Timer?, root': Timer?)
    requires At(m, c, Leaf, null, root, null) && x !in m && x !in CtxNodes(c)
    requires root' == if c.Top? then x else root
    ensures !c.Top? ==> c.node in m
    ensures var m1 := m[x := Links(Above(c, null), null, null, Red)];
            At(Stored(m1, SlotOf(c), Above(c, null), x), c, Branch(Leaf, x, Red, Leaf), x, root', null)
  {
    var m1 := m[x := Links(Above(c, null), null, null, Red)];
    CtxFrame(m, m1, c, null, root, null);
    match c
    case Top =>
    case InLeft(y, _, _, _) =>
      Refill(m1, m1[y := m1[y].(left := x)], c, null, x, root, root', null);
    case InRight(_, y, _, _) =>
      Refill(m1, m1[y := m1[y].(right := x)], c, null, x, root, root', null);
  }

  lemma LeafLinked(m: Mem, t: Tree, c: Ctx, x: Timer, root: Timer?, root': Timer?)
    requires Rep(m, t, root, null) && t == Plug(c, Leaf) && x !in m && x !in Nodes(t)
    requires root' == if c.Top? then x else root
    ensures !c.Top? ==> c.node in m
    ensures var m1 := m[x := Links(Above(c, null), null, null, Red)];
            Rep(Stored(m1, SlotOf(c), Above(c, null), x), Plug(c, Branch(Leaf, x, Red, Leaf)), root', null)
    ensures Nodes(Plug(c, Branch(Leaf, x, Red, Leaf))) == Nodes(t) + {x}
  {
    var n := ZipDown(m, c, Leaf, root, null);
    PlugNodes(c, Leaf);
    PlugNodes(c, Branch(Leaf, x, Red, Leaf));
    LinkRep(m, c, x, root, root');
    var m1 := m[x := Links(Above(c, null), null, null, Red)];
    ZipUp(Stored(m1, SlotOf(c), Above(c, null), x), c, Branch(Leaf, x, Red, Leaf), x, root', null);
  }

  // -------------------------------------------------------- neighbours in order

  lemma InRightTree<T>(a: seq<T>, l: seq<T>, x: T, r: seq<T>, b: seq<T>)
    requires r != []
    ensures var s, i := a + (l + [x] + r) + b, |a| + |l|; i + 1 < |s| && s[i + 1] == r[0]
  {
  }

  lemma InLeftTree<T>(a: seq<T>, l: seq<T>, x: T, r: seq<T>, b: seq<T>)
    requires l != []
    ensures var s, i := a + (l + [x] + r) + b, |a| + |l|; 0 < i < |s| && s[i - 1] == l[|l| - 1]
  {
  }

  lemma AfterHole<T>(a: seq<T>, t: seq<T>, b: seq<T>)
    ensures var s, i := a + t + b, |a| + |t|; if b == [] then i == |s| else i < |s| && s[i] == b[0]
  {
  }

  lemma {:induction false} DistinctSize(s: seq<Timer>)
    requires Distinct(s)
    ensures |Elements(s)| == |s|
  {
    if s != [] {
      DistinctSize(s[1..]);
      assert Elements(s) == Elements(s[1..]) + {s[0]};
    }
  }
}
