/**
  The intrusive red-black tree with parent pointers.
*/
module RbTrees {
  import opened Common
  import opened Timers
  import opened TreeShape
  import opened TreeHeap

  method SetLeft(x: Timer, y: Timer?, ghost s: set<Timer>, ghost m: Mem) returns (ghost m': Mem)
    requires Synced(m, s) && x in s
    modifies x`left
    ensures Synced(m', s) && m' == m[x := m[x].(left := y)]
  {
    x.left := y;
    m' := m[x := m[x].(left := y)];
  }

  method SetRight(x: Timer, y: Timer?, ghost s: set<Timer>, ghost m: Mem) returns (ghost m': Mem)
    requires Synced(m, s) && x in s
    modifies x`right
    ensures Synced(m', s) && m' == m[x := m[x].(right := y)]
  {
    x.right := y;
    m' := m[x := m[x].(right := y)];
  }

  method SetParent(x: Timer, y: Timer?, ghost s: set<Timer>, ghost m: Mem) returns (ghost m': Mem)
    requires Synced(m, s) && x in s
    modifies x`parent
    ensures Synced(m', s) && m' == m[x := m[x].(parent := y)]
  {
    x.parent := y;
    m' := m[x := m[x].(parent := y)];
  }

  method SetColor(x: Timer, k: Color, ghost s: set<Timer>, ghost m: Mem) returns (ghost m': Mem)
    requires Synced(m, s) && x in s
    modifies x`color
    ensures Synced(m', s) && m' == m[x := m[x].(color := k)]
  {
    x.color := k;
    m' := m[x := m[x].(color := k)];
  }

  /** The leftmost node. */
  method Min(rbNode: Timer, ghost s: set<Timer>, ghost m: Mem, ghost t: Tree, ghost p: Timer?)
    returns (node: Timer, ghost c: Ctx, ghost u: Tree)
    requires Synced(m, s) && Rep(m, t, rbNode, p)
    ensures LeftSpine(c) && Plug(c, u) == t && u.Branch? && u.left.Leaf? && u.node == node && node.left == null
  {
    node, c, u := rbNode, Top, t;
    while node.left != null
      invariant At(m, c, u, node, rbNode, p) && LeftSpine(c) && Plug(c, u) == t
      decreases u
    {
      assert Rep(m, u.left, m[node].left, node);
      c := InLeft(node, u.color, u.right, c);
      u := u.left;
      node := node.left;
    }
    assert Rep(m, u.left, m[node].left, node);
  }

  /** The rightmost node. */
  method Max(rbNode: Timer, ghost s: set<Timer>, ghost m: Mem, ghost t: Tree, ghost p: Timer?)
    returns (node: Timer, ghost c: Ctx, ghost u: Tree)
    requires Synced(m, s) && Rep(m, t, rbNode, p)
    ensures RightSpine(c) && Plug(c, u) == t && u.Branch? && u.right.Leaf? && u.node == node && node.right == null
  {
    node, c, u := rbNode, Top, t;
    while node.right != null
      invariant At(m, c, u, node, rbNode, p) && RightSpine(c) && Plug(c, u) == t
      decreases u
    {
      assert Rep(m, u.right, m[node].right, node);
      c := InRight(u.left, node, u.color, c);
      u := u.right;
      node := node.right;
    }
    assert Rep(m, u.right, m[node].right, node);
  }

  class RbTree {
    var root: Timer?
    ghost var nodes: set<Timer>
    ghost var mem: Mem
    ghost var shape: Tree

    /** The heap below `root` is the tree `t`, and `m` is a snapshot of it. */
    ghost predicate Linked(m: Mem, t: Tree)
      reads `root, `nodes, nodes`left, nodes`right, nodes`parent, nodes`color
    {
      Synced(m, nodes) && Rep(m, t, root, null)
    }

    ghost predicate Valid()
      reads this, nodes`left, nodes`right, nodes`parent, nodes`color
    {
      Linked(mem, shape) && RedBlack(shape) && nodes == Nodes(shape)
    }

    /** The nodes from left to right. */
    ghost function Order(): (s: seq<Timer>)
      reads `shape
    {
      InOrder(shape)
    }

    constructor ()
      ensures Valid() && Order() == [] && nodes == {} && root == null
    {
      root, nodes, mem, shape := null, {}, map[], Leaf;
      new;
      assert Balanced(shape, 0);
    }

    method ChangeChild(old_: Timer, new_: Timer?, parent: Timer?, ghost m: Mem) returns (ghost m': Mem)
      requires Synced(m, nodes) && Only(parent) <= nodes
      modifies `root, nodes`left, nodes`right
      ensures Synced(m', nodes) && m' == Relinked(m, old_, new_, parent)
      ensures root == if parent == null then new_ else old(root)
    {
      m' := m;
      if parent != null {
        if old_ == parent.left {
          m' := SetLeft(parent, new_, nodes, m');
        } else {
          m' := SetRight(parent, new_, nodes, m');
        }
      } else {
        root := new_;
      }
    }

    method ReplaceNode(old_: Timer, new_: Timer?, parent: Timer?, ghost m: Mem) returns (ghost m': Mem)
      requires Synced(m, nodes) && Only(parent) + Only(new_) <= nodes
      modifies `root, nodes`left, nodes`right, nodes`parent
      ensures Synced(m', nodes) && m' == Reparented(Relinked(m, old_, new_, parent), new_, parent)
      ensures root == if parent == null then new_ else old(root)
    {
      m' := ChangeChild(old_, new_, parent, m);
      if new_ != null {
        m' := SetParent(new_, parent, nodes, m');
      }
    }

    method RotateLeft(node: Timer, ghost m: Mem) returns (ghost m': Mem)
      requires Synced(m, nodes) && CanRotateLeft(m, node)
      modifies `root, nodes`left, nodes`right, nodes`parent
      ensures Synced(m', nodes) && m' == MemRotateLeft(m, node)
      ensures root == if m[node].parent == null then m[node].right else old(root)
    {
      var right := node.right;
      m' := SetRight(node, right.left, nodes, m);
      if right.left != null {
        m' := SetParent(right.left, node, nodes, m');
      }
      m' := ReplaceNode(node, right, node.parent, m');
      m' := SetLeft(right, node, nodes, m');
      m' := SetParent(node, right, nodes, m');
    }

    /** What a left rotation does to the whole tree. */
    method TurnLeft(node: Timer, ghost c: Ctx, ghost t: Tree, ghost m: Mem) returns (ghost m': Mem)
      requires Linked(m, Plug(c, t)) && t.Branch? && t.right.Branch? && t.node == node
      modifies `root, nodes`left, nodes`right, nodes`parent
      ensures Linked(m', Plug(c, RotatedLeft(t)))
      ensures InOrder(Plug(c, RotatedLeft(t))) == InOrder(Plug(c, t))
    {
      ghost var top := root;
      ghost var n := ZipDown(m, c, t, root, null);
      LeftPivot(m, c, t, n, root);
      m' := RotateLeft(node, m);
      RotateLeftRep(m, c, t, node, top, root);
      ZipUp(m', c, RotatedLeft(t), t.right.node, root, null);
      RotatedLeftInOrder(t);
      SameOrder(c, t, RotatedLeft(t));
    }

    method RotateRight(node: Timer, ghost m: Mem) returns (ghost m': Mem)
      requires Synced(m, nodes) && CanRotateRight(m, node)
      modifies `root, nodes`left, nodes`right, nodes`parent
      ensures Synced(m', nodes) && m' == MemRotateRight(m, node)
      ensures root == if m[node].parent == null then m[node].left else old(root)
    {
      var left := node.left;
      m' := SetLeft(node, left.right, nodes, m);
      if left.right != null {
        m' := SetParent(left.right, node, nodes, m');
      }
      m' := ReplaceNode(node, left, node.parent, m');
      m' := SetRight(left, node, nodes, m');
      m' := SetParent(node, left, nodes, m');
    }

    /** What a right rotation does to the whole tree. */
    method TurnRight(node: Timer, ghost c: Ctx, ghost t: Tree, ghost m: Mem) returns (ghost m': Mem)
      requires Linked(m, Plug(c, t)) && t.Branch? && t.left.Branch? && t.node == node
      modifies `root, nodes`left, nodes`right, nodes`parent
      ensures Linked(m', Plug(c, RotatedRight(t)))
      ensures InOrder(Plug(c, RotatedRight(t))) == InOrder(Plug(c, t))
    {
      ghost var top := root;
      ghost var n := ZipDown(m, c, t, root, null);
      RightPivot(m, c, t, n, root);
      m' := RotateRight(node, m);
      RotateRightRep(m, c, t, node, top, root);
      ZipUp(m', c, RotatedRight(t), t.left.node, root, null);
      RotatedRightInOrder(t);
      SameOrder(c, t, RotatedRight(t));
    }

    /** `node->color = k`, for the node at the top of `t`. */
    method Paint(node: Timer, k: Color, ghost c: Ctx, ghost t: Tree, ghost m: Mem) returns (ghost m': Mem)
      requires Linked(m, Plug(c, t)) && t.Branch? && t.node == node
      modifies nodes`color
      ensures Linked(m', Plug(c, t.(color := k)))
      ensures InOrder(Plug(c, t.(color := k))) == InOrder(Plug(c, t))
    {
      ghost var n := ZipDown(m, c, t, root, null);
      m' := SetColor(node, k, nodes, m);
      PaintRep(m, c, t, node, k, root);
      ZipUp(m', c, t.(color := k), node, root, null);
      SameOrder(c, t, t.(color := k));
    }

    /** The color flip when both children of the grandparent are red. */
    method FlipColors(uncle: Timer, parent: Timer, gparent: Timer, ghost top: Ctx, ghost g: Tree, ghost m: Mem)
      returns (ghost m': Mem)
      requires Linked(m, Plug(top, g)) && g.Branch? && g.left.Branch? && g.right.Branch? && g.node == gparent
      requires (uncle, parent) == (g.left.node, g.right.node) || (uncle, parent) == (g.right.node, g.left.node)
      modifies nodes`color
      ensures Linked(m', Plug(top, Flipped(g)))
      ensures InOrder(Plug(top, Flipped(g))) == InOrder(Plug(top, g))
    {
      ghost var cl, cr := InLeft(g.node, g.color, g.right, top), InRight(g.left, g.node, g.color, top);
      ghost var l', r' := g.left.(color := Black), g.right.(color := Black);
      assert Plug(cl, g.left) == Plug(cr, g.right) == Plug(top, g);
      ghost var ul := uncle == g.left.node;
      m' := Paint(uncle, Black, if ul then cl else cr, if ul then g.left else g.right, m);
      cl, cr := InLeft(g.node, g.color, r', top), InRight(l', g.node, g.color, top);
      m' := Paint(parent, Black, if ul then cr else cl, if ul then g.right else g.left, m');
      m' := Paint(gparent, Red, top, Branch(l', g.node, g.color, r'), m');
    }

    /** The last two color changes and the rotation at the grandparent, when `node` is the outer left grandchild. */
    method LiftLeft(node: Timer, gparent: Timer, ghost top: Ctx, ghost p: Tree, ghost u: Tree, ghost m: Mem)
      returns (ghost m': Mem)
      requires Linked(m, Plug(top, Branch(p, gparent, Black, u)))
      requires p.Branch? && p.left.Branch? && p.left.node == node
      modifies `root, nodes`left, nodes`right, nodes`parent, nodes`color
      ensures Linked(m', Plug(top, RotatedRight(Branch(p.(color := Black), gparent, Red, u))))
      ensures InOrder(Plug(top, RotatedRight(Branch(p.(color := Black), gparent, Red, u)))) ==
              InOrder(Plug(top, Branch(p, gparent, Black, u)))
    {
      ghost var n := Around(m, InLeft(gparent, Black, u, top), p, root);
      assert p.node in nodes && node == p.node.left;
      n := Around(m, InLeft(p.node, p.color, p.right, InLeft(gparent, Black, u, top)), p.left, root);
      m' := Paint(node.parent, Black, InLeft(gparent, Black, u, top), p, m);
      ghost var p' := p.(color := Black);
      m' := Paint(gparent, Red, top, Branch(p', gparent, Black, u), m');
      m' := TurnRight(gparent, top, Branch(p', gparent, Red, u), m');
    }

    /** One round of the insertion fix-up, when the red parent is a left child. */
    method FixInsertLeft(node: Timer, parent: Timer, gparent: Timer, ghost c: Ctx, ghost t: Tree, ghost h: nat,
                         ghost m: Mem)
      returns (node': Timer, ghost c': Ctx, ghost t': Tree, ghost h': nat, ghost m': Mem)
      requires Linked(m, Plug(c, t)) && Violation(c, t, node, h)
      requires !c.Top? && c.node == parent && c.color == Red
      requires c.up.InLeft? && c.up.node == gparent && parent == gparent.left
      modifies `root, nodes`left, nodes`right, nodes`parent, nodes`color
      ensures Linked(m', Plug(c', t')) && Violation(c', t', node', h')
      ensures InOrder(Plug(c', t')) == InOrder(Plug(c, t)) && Depth(c') < Depth(c)
    {
      node', c', t', h', m' := node, c, t, h, m;
      Grandparent(c, t, node, h);
      ghost var p, u, top := Step(c, t), c.up.right, c.up.up;
      ghost var n := Around(m', InRight(p, gparent, Black, top), u, root);
      n := Around(m', InLeft(gparent, Black, u, top), p, root);
      n := Around(m', c, t, root);
      var uncle := gparent.right;
      if uncle != null && uncle.color == Red {
        m' := FlipColors(uncle, parent, gparent, top, Branch(p, gparent, Black, u), m');
        FlipFixes(c, t, node, h);
        node' := gparent;
        c', t', h' := top, Flipped(Branch(p, gparent, Black, u)), h + 1;
      } else {
        InnerToOuter(c, t, node, h);
        if node == parent.right {
          node' := node.parent;
          m' := TurnLeft(node', InLeft(gparent, Black, u, top), p, m');
          p := RotatedLeft(p);
          t' := p.left;
        }
        assert p.left == t';
        m' := LiftLeft(node', gparent, top, p, u, m');
        c' := InLeft(p.node, Black, Branch(p.right, gparent, Red, u), top);
        LiftFixes(top, gparent, p, u, h);
      }
    }

    /** The last two color changes and the rotation at the grandparent, when `node` is the outer right grandchild. */
    method LiftRight(node: Timer, gparent: Timer, ghost top: Ctx, ghost p: Tree, ghost u: Tree, ghost m: Mem)
      returns (ghost m': Mem)
      requires Linked(m, Plug(top, Branch(u, gparent, Black, p)))
      requires p.Branch? && p.right.Branch? && p.right.node == node
      modifies `root, nodes`left, nodes`right, nodes`parent, nodes`color
      ensures Linked(m', Plug(top, RotatedLeft(Branch(u, gparent, Red, p.(color := Black)))))
      ensures InOrder(Plug(top, RotatedLeft(Branch(u, gparent, Red, p.(color := Black))))) ==
              InOrder(Plug(top, Branch(u, gparent, Black, p)))
    {
      ghost var n := Around(m, InRight(u, gparent, Black, top), p, root);
      assert p.node in nodes && node == p.node.right;
      n := Around(m, InRight(p.left, p.node, p.color, InRight(u, gparent, Black, top)), p.right, root);
      m' := Paint(node.parent, Black, InRight(u, gparent, Black, top), p, m);
      ghost var p' := p.(color := Black);
      m' := Paint(gparent, Red, top, Branch(u, gparent, Black, p'), m');
      m' := TurnLeft(gparent, top, Branch(u, gparent, Red, p'), m');
    }

    /** One round of the insertion fix-up, when the red parent is a right child. */
    method FixInsertRight(node: Timer, parent: Timer, gparent: Timer, ghost c: Ctx, ghost t: Tree, ghost h: nat,
                          ghost m: Mem)
      returns (node': Timer, ghost c': Ctx, ghost t': Tree, ghost h': nat, ghost m': Mem)
      requires Linked(m, Plug(c, t)) && Violation(c, t, node, h)
      requires !c.Top? && c.node == parent && c.color == Red
      requires c.up.InRight? && c.up.node == gparent && parent == gparent.right
      modifies `root, nodes`left, nodes`right, nodes`parent, nodes`color
      ensures Linked(m', Plug(c', t')) && Violation(c', t', node', h')
      ensures InOrder(Plug(c', t')) == InOrder(Plug(c, t)) && Depth(c') < Depth(c)
    {
      node', c', t', h', m' := node, c, t, h, m;
      Grandparent(c, t, node, h);
      ghost var p, u, top := Step(c, t), c.up.left, c.up.up;
      ghost var n := Around(m', InLeft(gparent, Black, p, top), u, root);
      n := Around(m', InRight(u, gparent, Black, top), p, root);
      n := Around(m', c, t, root);
      var uncle := gparent.left;
      if uncle != null && uncle.color == Red {
        m' := FlipColors(uncle, parent, gparent, top, Branch(u, gparent, Black, p), m');
        FlipFixes(c, t, node, h);
        node' := gparent;
        c', t', h' := top, Flipped(Branch(u, gparent, Black, p)), h + 1;
      } else {
        InnerToOuter(c, t, node, h);
        if node == parent.left {
          node' := node.parent;
          m' := TurnRight(node', InRight(u, gparent, Black, top), p, m');
          p := RotatedRight(p);
          t' := p.right;
        }
        assert p.right == t';
        m' := LiftRight(node', gparent, top, p, u, m');
        c' := InRight(Branch(u, gparent, Red, p.left), p.node, Black, top);
        LiftFixes(top, gparent, p, u, h);
      }
    }

    /** One round of the insertion fix-up. */
    method FixInsert(node: Timer, parent: Timer, ghost c: Ctx, ghost t: Tree, ghost h: nat, ghost m: Mem)
      returns (node': Timer, parent': Timer?, ghost c': Ctx, ghost t': Tree, ghost h': nat, ghost m': Mem)
      requires Linked(m, Plug(c, t)) && Violation(c, t, node, h)
      requires !c.Top? && c.node == parent && c.color == Red
      modifies `root, nodes`left, nodes`right, nodes`parent, nodes`color
      ensures Linked(m', Plug(c', t')) && Violation(c', t', node', h')
      ensures parent' == node'.parent == Above(c', null) && (!c'.Top? ==> parent'.color == c'.color)
      ensures InOrder(Plug(c', t')) == InOrder(Plug(c, t)) && Depth(c') < Depth(c)
    {
      Grandparent(c, t, node, h);
      ghost var n := Around(m, c, t, root);
      n := Around(m, c.up, Step(c, t), root);
      var gparent := parent.parent;
      if parent == gparent.left {
        node', c', t', h', m' := FixInsertLeft(node, parent, gparent, c, t, h, m);
      } else {
        node', c', t', h', m' := FixInsertRight(node, parent, gparent, c, t, h, m);
      }
      n := Around(m', c', t', root);
      parent' := node'.parent;
    }

    method InsertColor(rbnode: Timer, ghost c0: Ctx)
      requires Linked(mem, Plug(c0, Branch(Leaf, rbnode, Red, Leaf)))
      requires RedBlack(Plug(c0, Leaf)) && nodes == Nodes(Plug(c0, Branch(Leaf, rbnode, Red, Leaf)))
      modifies `root, `mem, `shape, nodes`left, nodes`right, nodes`parent, nodes`color
      ensures Valid() && Order() == Before(c0) + [rbnode] + After(c0)
    {
      var node := rbnode;
      ghost var m, c, t := mem, c0, Branch(Leaf, rbnode, Red, Leaf);
      ghost var h := SplitBalanced(c0, Leaf);
      PlugInOrder(c, t);
      ghost var n := Around(m, c, t, root);
      var parent := node.parent;
      while parent != null && parent.color == Red
        invariant Linked(m, Plug(c, t)) && Violation(c, t, node, h)
        invariant parent == node.parent == Above(c, null)
        invariant !c.Top? ==> parent.color == c.color
        invariant InOrder(Plug(c, t)) == Before(c0) + [rbnode] + After(c0)
        decreases Depth(c)
      {
        node, parent, c, t, h, m := FixInsert(node, parent, c, t, h, m);
      }
      FinishInsert(c, t, h, m);
      SameNodes(Plug(c0, Branch(Leaf, rbnode, Red, Leaf)), shape);
    }

    /** The root turns black. */
    method FinishInsert(ghost c: Ctx, ghost t: Tree, ghost h: nat, ghost m: Mem)
      requires Linked(m, Plug(c, t)) && IsRed(t) && Balanced(t, h) && Fits(c, h, false)
      requires !c.Top? ==> c.color == Black
      modifies `mem, `shape, nodes`color
      ensures Linked(mem, shape) && RedBlack(shape) && InOrder(shape) == InOrder(Plug(c, t))
    {
      ghost var all := Plug(c, t);
      Blacken(c, t, h);
      ghost var n := Around(m, Top, all, root);
      mem := Paint(root, Black, Top, all, m);
      shape := all.(color := Black);
    }

    // ------------------------------------------------------- deletion fix-up

    /** Absent nodes count as black. */
    predicate IsBlack(n: Timer?)
      reads Only(n)`color
    {
      n == null || n.color == Black
    }

    /** Case 1 of the deletion fix-up, the hole being the left child. */
    method RedSiblingLeft(sibling: Timer, parent: Timer, ghost up: Ctx, ghost g: Tree, ghost m: Mem)
      returns (ghost m': Mem)
      requires Linked(m, Plug(up, g)) && g.Branch? && g.node == parent && g.right.Branch? && g.right.node == sibling
      modifies `root, nodes`left, nodes`right, nodes`parent, nodes`color
      ensures Linked(m', Plug(up, RotatedLeft(Branch(g.left, g.node, Red, g.right.(color := Black)))))
      ensures InOrder(Plug(up, RotatedLeft(Branch(g.left, g.node, Red, g.right.(color := Black))))) ==
              InOrder(Plug(up, g))
    {
      m' := Paint(sibling, Black, InRight(g.left, g.node, g.color, up), g.right, m);
      m' := Paint(parent, Red, up, Branch(g.left, g.node, g.color, g.right.(color := Black)), m');
      m' := TurnLeft(parent, up, Branch(g.left, g.node, Red, g.right.(color := Black)), m');
    }

    /** Case 3: `s` is the black sibling of a left hole, its left child is red. */
    method NearNephewLeft(sibling: Timer, ghost c: Ctx, ghost s: Tree, ghost m: Mem) returns (ghost m': Mem)
      requires Linked(m, Plug(c, s)) && s.Branch? && s.node == sibling && s.left.Branch?
      modifies `root, nodes`left, nodes`right, nodes`parent, nodes`color
      ensures Linked(m', Plug(c, RotatedRight(Branch(s.left.(color := Black), s.node, Red, s.right))))
      ensures InOrder(Plug(c, RotatedRight(Branch(s.left.(color := Black), s.node, Red, s.right)))) ==
              InOrder(Plug(c, s))
    {
      ghost var n := Around(m, c, s, root);
      n := Around(m, InLeft(s.node, s.color, s.right, c), s.left, root);
      m' := Paint(sibling.left, Black, InLeft(s.node, s.color, s.right, c), s.left, m);
      m' := Paint(sibling, Red, c, Branch(s.left.(color := Black), s.node, s.color, s.right), m');
      m' := TurnRight(sibling, c, Branch(s.left.(color := Black), s.node, Red, s.right), m');
    }

    /** Case 4: the right child of the black sibling is red. */
    method FarNephewLeft(sibling: Timer, parent: Timer, ghost up: Ctx, ghost g: Tree, ghost m: Mem)
      returns (ghost m': Mem)
      requires Linked(m, Plug(up, g)) && g.Branch? && g.node == parent && g.right.Branch? && g.right.node == sibling
      requires g.right.right.Branch?
      modifies `root, nodes`left, nodes`right, nodes`parent, nodes`color
      ensures Linked(m', Plug(up,
                RotatedLeft(Branch(g.left, g.node, Black,
                  Branch(g.right.left, g.right.node, g.color, g.right.right.(color := Black))))))
      ensures InOrder(Plug(up,
                RotatedLeft(Branch(g.left, g.node, Black,
                  Branch(g.right.left, g.right.node, g.color, g.right.right.(color := Black))))))
              == InOrder(Plug(up, g))
    {
      ghost var n := Around(m, up, g, root);
      m' := Paint(sibling, parent.color, InRight(g.left, g.node, g.color, up), g.right, m);
      ghost var s := Branch(g.right.left, g.right.node, g.color, g.right.right);
      m' := Paint(parent, Black, up, Branch(g.left, g.node, g.color, s), m');
      ghost var c := InRight(g.left, g.node, Black, up);
      n := Around(m', c, s, root);
      n := Around(m', InRight(s.left, s.node, s.color, c), s.right, root);
      m' := Paint(sibling.right, Black, InRight(s.left, s.node, s.color, c), s.right, m');
      m' := TurnLeft(parent, up, Branch(g.left, g.node, Black, Branch(s.left, s.node, s.color,
        s.right.(color := Black))), m');
    }

    /** Cases 3 and 4 together. */
    method EndDeleteLeft(sibling0: Timer, parent: Timer, ghost c: Ctx, ghost t: Tree, ghost h: nat, ghost m: Mem)
      returns (ghost t': Tree, ghost m': Mem)
      requires Linked(m, Plug(c, t)) && Short(c, t, h) && !IsRed(t)
      requires c.InLeft? && c.node == parent && c.right.Branch? && c.right.node == sibling0
      requires !IsRed(c.right) && !BlackChildren(c.right)
      modifies `root, nodes`left, nodes`right, nodes`parent, nodes`color
      ensures Linked(m', t') && RedBlack(t') && InOrder(t') == InOrder(Plug(c, t))
    {
      m' := m;
      var sibling := sibling0;
      ghost var s, up := c.right, c.up;
      ghost var cs := InRight(t, parent, c.color, up);
      SiblingExists(c, t, h);
      NearNephew(s, h + 1);
      assert Plug(cs, s) == Plug(c, t);
      ghost var n := Around(m', cs, s, root);
      n := Around(m', InRight(s.left, s.node, s.color, cs), s.right, root);
      if IsBlack(sibling.right) {
        m' := NearNephewLeft(sibling, cs, s, m');
        s := RotatedRight(Branch(s.left.(color := Black), s.node, Red, s.right));
        n := Around(m', cs, s, root);
        n := Around(m', InLeft(parent, c.color, s, up), t, root);
        assert Plug(InLeft(parent, c.color, s, up), t) == Plug(cs, s);
        sibling := parent.right;
      }
      ghost var g := Branch(t, parent, c.color, s);
      assert Plug(cs, s) == Plug(up, g);
      m' := FarNephewLeft(sibling, parent, up, g, m');
      FarNephew(c, t, s, h);
      t' := Plug(up, RotatedLeft(Branch(g.left, g.node, Black, Branch(g.right.left, g.right.node, g.color,
        g.right.right.(color := Black)))));
    }

    /** Cases 2 to 4: the sibling is black. */
    method BlackSiblingLeft(sibling: Timer, parent: Timer, ghost c: Ctx, ghost t: Tree, ghost h: nat, ghost m: Mem)
      returns (node': Timer?, parent': Timer?, ghost c': Ctx, ghost t': Tree, ghost h': nat, ghost m': Mem)
      requires Linked(m, Plug(c, t)) && Short(c, t, h) && !IsRed(t)
      requires c.InLeft? && c.node == parent && c.right.Branch? && c.right.node == sibling && !IsRed(c.right)
      modifies `root, nodes`left, nodes`right, nodes`parent, nodes`color
      ensures Linked(m', Plug(c', t')) && Short(c', t', h') && InOrder(Plug(c', t')) == InOrder(Plug(c, t))
      ensures node' == RootOf(t') && (c'.Top? || parent' == Above(c', null))
      ensures c' == Top || (c' == c.up && IsRed(t') == (c.color == Red))
    {
      m' := m;
      ghost var s, cs := c.right, InRight(t, parent, c.color, c.up);
      assert Plug(cs, s) == Plug(c, t);
      ghost var n := Around(m', cs, s, root);
      n := Around(m', InLeft(s.node, s.color, s.right, cs), s.left, root);
      n := Around(m', InRight(s.left, s.node, s.color, cs), s.right, root);
      if IsBlack(sibling.left) && IsBlack(sibling.right) {
        m' := Paint(sibling, Red, cs, s, m');
        node' := parent;
        h' := BlackNephews(c, t, h);
        c', t' := c.up, Branch(t, c.node, c.color, s.(color := Red));
        n := Around(m', c', t', root);
        parent' := node'.parent;
      } else {
        t', m' := EndDeleteLeft(sibling, parent, c, t, h, m');
        c' := Top;
        h' :| Balanced(t', h');
        node', parent' := root, parent;
        n := Around(m', c', t', root);
      }
    }

    /** One round of the deletion fix-up, the hole being the left child. */
    method FixDeleteLeft(node: Timer?, parent: Timer, ghost c0: Ctx, ghost t: Tree, ghost h: nat, ghost m: Mem)
      returns (node': Timer?, parent': Timer?, ghost c': Ctx, ghost t': Tree, ghost h': nat, ghost m': Mem)
      requires Linked(m, Plug(c0, t)) && Short(c0, t, h) && !IsRed(t) && node == RootOf(t)
      requires c0.InLeft? && c0.node == parent
      modifies `root, nodes`left, nodes`right, nodes`parent, nodes`color
      ensures Linked(m', Plug(c', t')) && Short(c', t', h') && InOrder(Plug(c', t')) == InOrder(Plug(c0, t))
      ensures node' == RootOf(t') && (c'.Top? || parent' == Above(c', null))
      ensures 2 * Depth(c') + (if IsRed(t') then 0 else 1) < 2 * Depth(c0) + 1
    {
      ghost var c := c0;
      m' := m;
      SiblingExists(c, t, h);
      ghost var n := Around(m', c, t, root);
      n := Around(m', InRight(t, parent, c.color, c.up), c.right, root);
      var sibling := parent.right;
      if sibling.color == Red {
        m' := RedSiblingLeft(sibling, parent, c.up, Branch(t, parent, c.color, c.right), m');
        RedSibling(c, t, h);
        c := InLeft(c.node, Red, c.right.left, InLeft(c.right.node, Black, c.right.right, c.up));
        n := Around(m', c, t, root);
        sibling := parent.right;
      }
      node', parent', c', t', h', m' := BlackSiblingLeft(sibling, parent, c, t, h, m');
    }

    /** Case 1 of the deletion fix-up, the hole being the right child. */
    method RedSiblingRight(sibling: Timer, parent: Timer, ghost up: Ctx, ghost g: Tree, ghost m: Mem)
      returns (ghost m': Mem)
      requires Linked(m, Plug(up, g)) && g.Branch? && g.node == parent && g.left.Branch? && g.left.node == sibling
      modifies `root, nodes`left, nodes`right, nodes`parent, nodes`color
      ensures Linked(m', Plug(up, RotatedRight(Branch(g.left.(color := Black), g.node, Red, g.right))))
      ensures InOrder(Plug(up, RotatedRight(Branch(g.left.(color := Black), g.node, Red, g.right)))) ==
              InOrder(Plug(up, g))
    {
      m' := Paint(sibling, Black, InLeft(g.node, g.color, g.right, up), g.left, m);
      m' := Paint(parent, Red, up, Branch(g.left.(color := Black), g.node, g.color, g.right), m');
      m' := TurnRight(parent, up, Branch(g.left.(color := Black), g.node, Red, g.right), m');
    }

    /** Case 3: `s` is the black sibling of a right hole, its right child is red. */
    method NearNephewRight(sibling: Timer, ghost c: Ctx, ghost s: Tree, ghost m: Mem) returns (ghost m': Mem)
      requires Linked(m, Plug(c, s)) && s.Branch? && s.node == sibling && s.right.Branch?
      modifies `root, nodes`left, nodes`right, nodes`parent, nodes`color
      ensures Linked(m', Plug(c, RotatedLeft(Branch(s.left, s.node, Red, s.right.(color := Black)))))
      ensures InOrder(Plug(c, RotatedLeft(Branch(s.left, s.node, Red, s.right.(color := Black))))) ==
              InOrder(Plug(c, s))
    {
      ghost var n := Around(m, c, s, root);
      n := Around(m, InRight(s.left, s.node, s.color, c), s.right, root);
      m' := Paint(sibling.right, Black, InRight(s.left, s.node, s.color, c), s.right, m);
      m' := Paint(sibling, Red, c, Branch(s.left, s.node, s.color, s.right.(color := Black)), m');
      m' := TurnLeft(sibling, c, Branch(s.left, s.node, Red, s.right.(color := Black)), m');
    }

    /** Case 4: the left child of the black sibling is red. */
    method FarNephewRight(sibling: Timer, parent: Timer, ghost up: Ctx, ghost g: Tree, ghost m: Mem)
      returns (ghost m': Mem)
      requires Linked(m, Plug(up, g)) && g.Branch? && g.node == parent && g.left.Branch? && g.left.node == sibling
      requires g.left.left.Branch?
      modifies `root, nodes`left, nodes`right, nodes`parent, nodes`color
      ensures Linked(m', Plug(up,
                RotatedRight(Branch(
                  Branch(g.left.left.(color := Black), g.left.node, g.color, g.left.right), g.node, Black, g.right))))
      ensures InOrder(Plug(up,
                RotatedRight(Branch(
                  Branch(g.left.left.(color := Black), g.left.node, g.color, g.left.right), g.node, Black, g.right))))
              == InOrder(Plug(up, g))
    {
      ghost var n := Around(m, up, g, root);
      m' := Paint(sibling, parent.color, InLeft(g.node, g.color, g.right, up), g.left, m);
      ghost var s := Branch(g.left.left, g.left.node, g.color, g.left.right);
      m' := Paint(parent, Black, up, Branch(s, g.node, g.color, g.right), m');
      ghost var c := InLeft(g.node, Black, g.right, up);
      n := Around(m', c, s, root);
      n := Around(m', InLeft(s.node, s.color, s.right, c), s.left, root);
      m' := Paint(sibling.left, Black, InLeft(s.node, s.color, s.right, c), s.left, m');
      m' := TurnRight(parent, up, Branch(Branch(s.left.(color := Black), s.node, s.color, s.right), g.node, Black,
        g.right), m');
    }

    /** Cases 3 and 4 together. */
    method EndDeleteRight(sibling0: Timer, parent: Timer, ghost c: Ctx, ghost t: Tree, ghost h: nat, ghost m: Mem)
      returns (ghost t': Tree, ghost m': Mem)
      requires Linked(m, Plug(c, t)) && Short(c, t, h) && !IsRed(t)
      requires c.InRight? && c.node == parent && c.left.Branch? && c.left.node == sibling0
      requires !IsRed(c.left) && !BlackChildren(c.left)
      modifies `root, nodes`left, nodes`right, nodes`parent, nodes`color
      ensures Linked(m', t') && RedBlack(t') && InOrder(t') == InOrder(Plug(c, t))
    {
      m' := m;
      var sibling := sibling0;
      ghost var s, up := c.left, c.up;
      ghost var cs := InLeft(parent, c.color, t, up);
      SiblingExists(c, t, h);
      NearNephew(s, h + 1);
      assert Plug(cs, s) == Plug(c, t);
      ghost var n := Around(m', cs, s, root);
      n := Around(m', InLeft(s.node, s.color, s.right, cs), s.left, root);
      if IsBlack(sibling.left) {
        m' := NearNephewRight(sibling, cs, s, m');
        s := RotatedLeft(Branch(s.left, s.node, Red, s.right.(color := Black)));
        n := Around(m', cs, s, root);
        n := Around(m', InRight(s, parent, c.color, up), t, root);
        assert Plug(InRight(s, parent, c.color, up), t) == Plug(cs, s);
        sibling := parent.left;
      }
      ghost var g := Branch(s, parent, c.color, t);
      assert Plug(cs, s) == Plug(up, g);
      m' := FarNephewRight(sibling, parent, up, g, m');
      FarNephew(c, t, s, h);
      t' := Plug(up, RotatedRight(Branch(Branch(g.left.left.(color := Black), g.left.node, g.color, g.left.right),
        g.node, Black, g.right)));
    }

    /** Cases 2 to 4: the sibling is black. */
    method BlackSiblingRight(sibling: Timer, parent: Timer, ghost c: Ctx, ghost t: Tree, ghost h: nat, ghost m: Mem)
      returns (node': Timer?, parent': Timer?, ghost c': Ctx, ghost t': Tree, ghost h': nat, ghost m': Mem)
      requires Linked(m, Plug(c, t)) && Short(c, t, h) && !IsRed(t)
      requires c.InRight? && c.node == parent && c.left.Branch? && c.left.node == sibling && !IsRed(c.left)
      modifies `root, nodes`left, nodes`right, nodes`parent, nodes`color
      ensures Linked(m', Plug(c', t')) && Short(c', t', h') && InOrder(Plug(c', t')) == InOrder(Plug(c, t))
      ensures node' == RootOf(t') && (c'.Top? || parent' == Above(c', null))
      ensures c' == Top || (c' == c.up && IsRed(t') == (c.color == Red))
    {
      m' := m;
      ghost var s, cs := c.left, InLeft(parent, c.color, t, c.up);
      assert Plug(cs, s) == Plug(c, t);
      ghost var n := Around(m', cs, s, root);
      n := Around(m', InRight(s.left, s.node, s.color, cs), s.right, root);
      n := Around(m', InLeft(s.node, s.color, s.right, cs), s.left, root);
      if IsBlack(sibling.left) && IsBlack(sibling.right) {
        m' := Paint(sibling, Red, cs, s, m');
        node' := parent;
        h' := BlackNephews(c, t, h);
        c', t' := c.up, Branch(s.(color := Red), c.node, c.color, t);
        n := Around(m', c', t', root);
        parent' := node'.parent;
      } else {
        t', m' := EndDeleteRight(sibling, parent, c, t, h, m');
        c' := Top;
        h' :| Balanced(t', h');
        node', parent' := root, parent;
        n := Around(m', c', t', root);
      }
    }

    /** One round of the deletion fix-up, the hole being the right child. */
    method FixDeleteRight(node: Timer?, parent: Timer, ghost c0: Ctx, ghost t: Tree, ghost h: nat, ghost m: Mem)
      returns (node': Timer?, parent': Timer?, ghost c': Ctx, ghost t': Tree, ghost h': nat, ghost m': Mem)
      requires Linked(m, Plug(c0, t)) && Short(c0, t, h) && !IsRed(t) && node == RootOf(t)
      requires c0.InRight? && c0.node == parent
      modifies `root, nodes`left, nodes`right, nodes`parent, nodes`color
      ensures Linked(m', Plug(c', t')) && Short(c', t', h') && InOrder(Plug(c', t')) == InOrder(Plug(c0, t))
      ensures node' == RootOf(t') && (c'.Top? || parent' == Above(c', null))
      ensures 2 * Depth(c') + (if IsRed(t') then 0 else 1) < 2 * Depth(c0) + 1
    {
      ghost var c := c0;
      m' := m;
      SiblingExists(c, t, h);
      ghost var n := Around(m', c, t, root);
      n := Around(m', InLeft(parent, c.color, t, c.up), c.left, root);
      var sibling := parent.left;
      if sibling.color == Red {
        m' := RedSiblingRight(sibling, parent, c.up, Branch(c.left, parent, c.color, t), m');
        RedSibling(c, t, h);
        c := InRight(c.left.right, c.node, Red, InRight(c.left.left, c.left.node, Black, c.up));
        n := Around(m', c, t, root);
        sibling := parent.left;
      }
      node', parent', c', t', h', m' := BlackSiblingRight(sibling, parent, c, t, h, m');
    }

    method DeleteColor(node0: Timer?, parent0: Timer?, ghost c0: Ctx, ghost t0: Tree, ghost h0: nat, ghost m0: Mem)
      requires Linked(m0, Plug(c0, t0)) && Short(c0, t0, h0)
      requires node0 == RootOf(t0) && parent0 == Above(c0, null)
      modifies `root, `mem, `shape, nodes`left, nodes`right, nodes`parent, nodes`color
      ensures Linked(mem, shape) && RedBlack(shape)
      ensures InOrder(shape) == InOrder(Plug(c0, t0))
    {
      var node, parent := node0, parent0;
      ghost var c, t, h, m := c0, t0, h0, m0;
      ghost var n := Around(m, c, t, root);
      while node != root && IsBlack(node)
        invariant Linked(m, Plug(c, t)) && Short(c, t, h)
        invariant node == RootOf(t) && (node != null ==> node.color == t.color)
        invariant node == root <==> c.Top?
        invariant c.Top? || parent == Above(c, null)
        invariant InOrder(Plug(c, t)) == InOrder(Plug(c0, t0))
        decreases 2 * Depth(c) + (if IsRed(t) then 0 else 1)
      {
        n := Around(m, c, t, root);
        SiblingExists(c, t, h);
        if node == parent.left {
          node, parent, c, t, h, m := FixDeleteLeft(node, parent, c, t, h, m);
        } else {
          node, parent, c, t, h, m := FixDeleteRight(node, parent, c, t, h, m);
        }
        n := Around(m, c, t, root);
      }
      FinishDelete(node, c, t, h, m);
    }

    method FinishDelete(node: Timer?, ghost c: Ctx, ghost t: Tree, ghost h: nat, ghost m: Mem)
      requires Linked(m, Plug(c, t)) && Short(c, t, h) && (c.Top? || IsRed(t)) && node == RootOf(t)
      modifies `mem, `shape, nodes`color
      ensures Linked(mem, shape) && RedBlack(shape) && InOrder(shape) == InOrder(Plug(c, t))
    {
      ShortEnds(c, t, h);
      mem, shape := m, Plug(c, t);
      if node != null {
        mem := Paint(node, Black, c, t, m);
        shape := Plug(c, t.(color := Black));
      }
    }

    // ------------------------------------------------------------- removal

    method HandLeft(node: Timer, new_: Timer, ghost m: Mem) returns (ghost m': Mem)
      requires Synced(m, nodes) && node in m && new_ in m && m[node].left != null && m[node].left in m && node != new_
      modifies nodes`left, nodes`parent
      ensures Synced(m', nodes) && m' == TakeLeft(m, node, new_)
    {
      m' := SetLeft(new_, node.left, nodes, m);
      m' := SetParent(node.left, new_, nodes, m');
    }

    method HandRight(node: Timer, new_: Timer, parent: Timer, child: Timer?, ghost m: Mem) returns (ghost m': Mem)
      requires Synced(m, nodes) && node in m && new_ in m && parent in m && (child != null ==> child in m)
      requires m[node].right != null && m[node].right in m && node != new_ && node != parent && node != child
      modifies nodes`left, nodes`right, nodes`parent
      ensures Synced(m', nodes) && m' == TakeRight(m, node, new_, parent, child)
    {
      m' := m;
      if child != null {
        m' := SetParent(child, parent, nodes, m');
      }
      m' := SetLeft(parent, child, nodes, m');
      m' := SetRight(new_, node.right, nodes, m');
      m' := SetParent(node.right, new_, nodes, m');
    }

    method HandPlace(node: Timer, new_: Timer, ghost m: Mem) returns (ghost m': Mem)
      requires Synced(m, nodes) && node in m && new_ in m
      requires (m[node].parent != null ==> m[node].parent in m) && node != new_
      modifies `root, nodes`left, nodes`right, nodes`parent, nodes`color
      ensures Synced(m', nodes) && m' == TakePlace(m, node, new_)
      ensures root == if m[node].parent == null then new_ else old(root)
    {
      m' := SetColor(new_, node.color, nodes, m);
      m' := ReplaceNode(node, new_, node.parent, m');
    }

    /** The successor is the right child. */
    method PromoteChild(node: Timer, new_: Timer, ghost c: Ctx, ghost t: Tree, ghost m: Mem) returns (ghost m': Mem)
      requires Linked(m, Plug(c, t)) && t.Branch? && t.node == node && t.left.Branch? && t.right.Branch?
      requires t.right.left.Leaf? && t.right.node == new_
      modifies `root, nodes`left, nodes`right, nodes`parent, nodes`color
      ensures Linked(m', Plug(c, Branch(t.left, new_, t.color, t.right.right)))
    {
      ghost var top := root;
      ghost var n := ZipDown(m, c, t, root, null);
      PromoteNear(m, c, t, node, new_, top, if c.Top? then new_ else top);
      m' := HandLeft(node, new_, m);
      m' := HandPlace(node, new_, m');
      ZipUp(m', c, Branch(t.left, new_, t.color, t.right.right), new_, root, null);
    }

    /** The successor is further down: `child` fills the place it leaves below `parent`. */
    method PromoteDeeper(node: Timer, new_: Timer, parent: Timer, child: Timer?,
                         ghost c: Ctx, ghost t: Tree, ghost pc: Ctx, ghost s: Tree,
                           ghost m: Mem) returns (ghost m': Mem)
      requires Linked(m, Plug(c, t)) && t.Branch? && t.node == node && t.left.Branch?
      requires t.right == Plug(pc, s) && pc.InLeft? && s.Branch? && s.left.Leaf? && s.node == new_
      requires parent == pc.node && child == RootOf(s.right)
      modifies `root, nodes`left, nodes`right, nodes`parent, nodes`color
      ensures Linked(m', Plug(c, Branch(t.left, new_, t.color, Plug(pc, s.right))))
    {
      ghost var top := root;
      ghost var n := ZipDown(m, c, t, root, null);
      FarPlaces(m, c, t, node, new_, pc, s, root);
      ClearOfAbove(m, c, t, node, root);
      m' := RelinkDeeper(node, new_, parent, child, m);
      PromoteFar(m, m', c, t, node, new_, pc, s, top, root);
      ZipUp(m', c, Branch(t.left, new_, t.color, Plug(pc, s.right)), new_, root, null);
    }

    method RelinkDeeper(x: Timer, y: Timer, z: Timer, n: Timer?, ghost m: Mem) returns (ghost m': Mem)
      requires Synced(m, nodes) && CanPromote(m, x, y, z, n)
      modifies `root, nodes`left, nodes`right, nodes`parent, nodes`color
      ensures Synced(m', nodes) && FarWritten(m, m', x, y, z, n)
      ensures root == if m[x].parent == null then y else old(root)
    {
      FarWrites(m, x, y, z, n);
      m' := HandLeft(x, y, m);
      m' := HandRight(x, y, z, n, m');
      m' := HandPlace(x, y, m');
    }

    /** A node with two children gives its place, links and color to its successor. */
    method Promote(node: Timer, ghost c: Ctx, ghost t: Tree, ghost m: Mem)
      returns (child: Timer?, parent: Timer, color: Color, ghost pc: Ctx, ghost s: Tree, ghost m': Mem)
      requires Linked(m, Plug(c, t)) && t.Branch? && t.node == node && t.left.Branch? && t.right.Branch?
      modifies `root, nodes`left, nodes`right, nodes`parent, nodes`color
      ensures LeftSpine(pc) && t.right == Plug(pc, s) && s.Branch? && s.left.Leaf? && s.node != node
      ensures Linked(m', Plug(c, Branch(t.left, s.node, t.color, Plug(pc, s.right))))
      ensures child == RootOf(s.right) && color == s.color
      ensures parent == if pc.Top? then s.node else pc.node
    {
      ghost var top := root;
      ghost var n := ZipDown(m, c, t, root, null);
      n := Around(m, c, t, root);
      assert Rep(m, t.left, node.left, node) && Rep(m, t.right, node.right, node);
      var new_;
      new_, pc, s := Min(node.right, nodes, m, t.right, node);
      SuccessorPlace(m, t.right, node, node.right, pc, s);
      child, parent, color := new_.right, new_.parent, new_.color;
      if parent == node {
        m' := PromoteChild(node, new_, c, t, m);
        parent := new_;
      } else {
        m' := PromoteDeeper(node, new_, parent, child, c, t, pc, s, m);
      }
    }

    /** Takes `node` out of the tree's bookkeeping, once nothing links to it. */
    ghost method Forget(node: Timer, m: Mem, c: Ctx, t: Tree) returns (m': Mem)
      requires Linked(m, Plug(c, t)) && node !in Nodes(Plug(c, t)) && node in nodes
      modifies `nodes
      ensures nodes == old(nodes) - {node} && Linked(m', Plug(c, t))
    {
      m' := m - {node};
      RepFrame(m, m', Plug(c, t), root, null);
      nodes := nodes - {node};
    }

    /** Takes `node` out of the links; `ht` stays in the hole `hc`, one black node short if `color` is black. */
    method Unlink(node: Timer, ghost c: Ctx, ghost t: Tree)
      returns (child: Timer?, parent: Timer?, color: Color, ghost hc: Ctx, ghost ht: Tree, ghost h: nat, ghost m': Mem)
      requires Linked(mem, Plug(c, t)) && RedBlack(Plug(c, t)) && t.Branch? && t.node == node
      modifies `root, nodes`left, nodes`right, nodes`parent, nodes`color
      ensures Linked(m', Plug(hc, ht)) && child == RootOf(ht) && parent == Above(hc, null)
      ensures InOrder(Plug(hc, ht)) == Preceding(c, t) + Following(c, t)
      ensures if color == Black then Short(hc, ht, h) else RedBlack(Plug(hc, ht))
    {
      ghost var top := root;
      ghost var n := ZipDown(mem, c, t, root, null);
      n := Around(mem, c, t, root);
      ClearOfAbove(mem, c, t, node, root);
      if node.left == null {
        child, parent, color := node.right, node.parent, node.color;
        hc, ht := c, t.right;
        h := CutBalanced(c, t, ht);
        OrderCut(c, t, ht);
        SpliceRep(mem, c, t, node, ht, top, if c.Top? then RootOf(ht) else top, null);
        m' := ReplaceNode(node, child, parent, mem);
        ZipUp(m', c, ht, child, root, null);
      } else if node.right == null {
        child, parent, color := node.left, node.parent, node.color;
        hc, ht := c, t.left;
        h := CutBalanced(c, t, ht);
        OrderCut(c, t, ht);
        SpliceRep(mem, c, t, node, ht, top, if c.Top? then RootOf(ht) else top, null);
        m' := ReplaceNode(node, child, parent, mem);
        ZipUp(m', c, ht, child, root, null);
      } else {
        ghost var pc, s;
        child, parent, color, pc, s, m' := Promote(node, c, t, mem);
        hc, ht := Attach(pc, InRight(t.left, s.node, t.color, c)), s.right;
        h := CutPromoted(c, t, pc, s);
        SpineOrder(pc, s);
        OrderPromoted(c, t, s.node, Plug(pc, s.right));
      }
    }

    /** Where `node` is in the tree and in the order. */
    lemma Position(node: Timer) returns (c: Ctx, t: Tree)
      requires Valid() && node in nodes
      ensures Plug(c, t) == shape && t.Branch? && t.node == node && Distinct(Order())
      ensures Order() == Preceding(c, t) + [node] + Following(c, t)
    {
      c, t := Locate(Top, shape, node);
      OrderDistinct(mem, shape, root, null);
      OrderAround(c, t);
    }

    method Delete(node: Timer) returns (ghost i: nat)
      requires Valid() && node in nodes
      modifies this, nodes`left, nodes`right, nodes`parent, nodes`color
      ensures Valid() && nodes == old(nodes) - {node}
      ensures i < |old(Order())| && old(Order())[i] == node && Order() == RemovedAt(old(Order()), i)
    {
      ghost var c, t := Position(node);
      i := |Preceding(c, t)|;
      RemovedMiddle(Preceding(c, t), node, Following(c, t));
      ghost var was := shape;
      var child, parent, color;
      ghost var hc, ht, h, m;
      child, parent, color, hc, ht, h, m := Unlink(node, c, t);
      MembersCut(Preceding(c, t), node, Following(c, t), was, Plug(hc, ht));
      m := Forget(node, m, hc, ht);
      Settle(child, parent, color, hc, ht, h, m);
    }

    /** A removed black node calls for the fix-up. */
    method Settle(child: Timer?, parent: Timer?, color: Color, ghost hc: Ctx, ghost ht: Tree, ghost h: nat,
                  ghost m: Mem)
      requires Linked(m, Plug(hc, ht)) && nodes == Nodes(Plug(hc, ht))
      requires child == RootOf(ht) && parent == Above(hc, null)
      requires if color == Black then Short(hc, ht, h) else RedBlack(Plug(hc, ht))
      modifies `root, `mem, `shape, nodes`left, nodes`right, nodes`parent, nodes`color
      ensures Valid() && Order() == InOrder(Plug(hc, ht))
    {
      if color == Black {
        DeleteColor(child, parent, hc, ht, h, m);
        SameNodes(Plug(hc, ht), shape);
      } else {
        mem, shape := m, Plug(hc, ht);
      }
    }

    // ----------------------------------------------------------------- growth

    method FreshLeaf(node: Timer, parent: Timer?)
      requires Synced(mem, nodes) && node !in nodes
      modifies `nodes, `mem, node`left, node`right, node`parent, node`color
      ensures nodes == old(nodes) + {node} && mem == old(mem)[node := Links(parent, null, null, Red)]
      ensures Synced(mem, nodes)
    {
      node.parent := parent;
      node.left, node.right := null, null;
      node.color := Red;
      nodes := nodes + {node};
      mem := mem[node := Links(parent, null, null, Red)];
    }

    /** Stores through the address of a link. */
    method StoreLink(rbLink: Slot, parent: Timer?, node: Timer, ghost m: Mem) returns (ghost m': Mem)
      requires Synced(m, nodes) && (rbLink.AtRoot? || (parent != null && parent in m))
      modifies `root, nodes`left, nodes`right
      ensures Synced(m', nodes) && m' == Stored(m, rbLink, parent, node)
      ensures root == if rbLink.AtRoot? then node else old(root)
    {
      m' := m;
      match rbLink {
        case AtRoot => root := node;
        case OnLeft => m' := SetLeft(parent, node, nodes, m);
        case OnRight => m' := SetRight(parent, node, nodes, m);
      }
    }

    /** `rb_link` is the address of one of the links that can hold a new leaf. */
    method LinkNode(node: Timer, parent: Timer?, rbLink: Slot, ghost c: Ctx)
      requires Valid() && node !in nodes
      requires Plug(c, Leaf) == shape && parent == Above(c, null) && rbLink == SlotOf(c)
      modifies `root, `nodes, `mem, nodes`left, nodes`right
      modifies node`left, node`right, node`parent, node`color
      ensures nodes == old(nodes) + {node} == Nodes(Plug(c, Branch(Leaf, node, Red, Leaf)))
      ensures Linked(mem, Plug(c, Branch(Leaf, node, Red, Leaf)))
    {
      LeafLinked(mem, shape, c, node, root, if c.Top? then node else root);
      FreshLeaf(node, parent);
      mem := StoreLink(rbLink, parent, node, mem);
    }

    // -------------------------------------------------------------- traversal

    method First() returns (node: Timer?)
      requires Valid()
      ensures if Order() == [] then node == null else node == Order()[0]
    {
      node := root;
      if node == null {
        return null;
      }
      ghost var c, u;
      node, c, u := Min(node, nodes, mem, shape, null);
      SpineOrder(c, u);
    }

    method Last() returns (node: Timer?)
      requires Valid()
      ensures if Order() == [] then node == null else node == Order()[|Order()| - 1]
    {
      node := root;
      if node == null {
        return null;
      }
      ghost var c, u;
      node, c, u := Max(node, nodes, mem, shape, null);
      SpineOrderLast(c, u);
    }

    /** The node after `rbNode`, null after the last one and for a node outside any tree. */
    method Next(rbNode: Timer) returns (r: Timer?, ghost i: nat)
      requires Valid() && (rbNode in nodes || rbNode.parent == rbNode)
      ensures rbNode !in nodes ==> r == null
      ensures rbNode in nodes ==>
                i < |Order()| && Order()[i] == rbNode && r == if i + 1 < |Order()| then Order()[i + 1] else null
    {
      i := 0;
      if rbNode in nodes {
        NotOwnParent(rbNode);
      }
      if rbNode.parent == rbNode {
        return null, 0;
      }
      var node := rbNode;
      ghost var c, t := Position(node);
      i := |Preceding(c, t)|;
      ghost var n := Around(mem, c, t, root);
      if node.right != null {
        n := ZipDown(mem, c, t, root, null);
        assert Rep(mem, t.right, node.right, node);
        ghost var c', u;
        r, c', u := Min(node.right, nodes, mem, t.right, node);
        SpineOrder(c', u);
        PlugInOrder(c, t);
        InRightTree(Before(c), InOrder(t.left), node, InOrder(t.right), After(c));
        return;
      }
      var parent := node.parent;
      PlugInOrder(c, t);
      while parent != null && node == parent.right
        invariant Plug(c, t) == shape && t.Branch? && t.node == node && parent == node.parent
        invariant |Before(c)| + |InOrder(t)| == i + 1
        decreases Depth(c)
      {
        n := Around(mem, c, t, root);
        PlugInOrder(c.up, Step(c, t));
        c, t := c.up, Step(c, t);
        node := parent;
        n := Around(mem, c, t, root);
        parent := node.parent;
      }
      n := Around(mem, c, t, root);
      PlugInOrder(c, t);
      AfterHole(Before(c), InOrder(t), After(c));
      r := parent;
    }

    /** The node before `rbNode`. */
    method Prev(rbNode: Timer) returns (r: Timer?, ghost i: nat)
      requires Valid() && (rbNode in nodes || rbNode.parent == rbNode)
      ensures rbNode !in nodes ==> r == null
      ensures rbNode in nodes ==>
                i < |Order()| && Order()[i] == rbNode && r == if i > 0 then Order()[i - 1] else null
    {
      i := 0;
      if rbNode in nodes {
        NotOwnParent(rbNode);
      }
      if rbNode.parent == rbNode {
        return null, 0;
      }
      var node := rbNode;
      ghost var c, t := Position(node);
      i := |Preceding(c, t)|;
      ghost var n := Around(mem, c, t, root);
      if node.left != null {
        n := ZipDown(mem, c, t, root, null);
        assert Rep(mem, t.left, node.left, node);
        ghost var c', u;
        r, c', u := Max(node.left, nodes, mem, t.left, node);
        SpineOrderLast(c', u);
        PlugInOrder(c, t);
        InLeftTree(Before(c), InOrder(t.left), node, InOrder(t.right), After(c));
        return;
      }
      var parent := node.parent;
      PlugInOrder(c, t);
      while parent != null && node == parent.left
        invariant Plug(c, t) == shape && t.Branch? && t.node == node && parent == node.parent
        invariant |Before(c)| == i
        decreases Depth(c)
      {
        n := Around(mem, c, t, root);
        PlugInOrder(c.up, Step(c, t));
        c, t := c.up, Step(c, t);
        node := parent;
        n := Around(mem, c, t, root);
        parent := node.parent;
      }
      n := Around(mem, c, t, root);
      PlugInOrder(c, t);
      r := parent;
    }

    lemma NotOwnParent(node: Timer)
      requires Valid() && node in nodes
      ensures node.parent != node
    {
      var c, t := Locate(Top, shape, node);
      var n := ZipDown(mem, c, t, root, null);
      ClearOfAbove(mem, c, t, n, root);
    }

    method Count() returns (i: nat)
      requires Valid()
      ensures i == |Order()| == |nodes|
    {
      i := 0;
      var node := First();
      OrderDistinct(mem, shape, root, null);
      while node != null
        invariant i <= |Order()| && (node == null <==> i == |Order()|) && (node != null ==> node == Order()[i])
        decreases |Order()| - i
      {
        ghost var k;
        InOrderNodes(shape, node);
        node, k := Next(node);
        i := i + 1;
      }
      NodesOf(shape);
      DistinctSize(Order());
    }
  }
}
