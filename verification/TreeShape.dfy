/**
  The objects that the intrusive containers link, and the mathematical trees
  that describe how they are linked.

  A `Timer` is one object of the program: it embeds a red-black tree node
  (`parent`, `left`, `right`, `color`) and a list node (`prev`, `next`).
*/
module Timers {

  datatype Color = Black | Red

  class Timer {
    // embedded red-black tree node
    var parent: Timer?
    var left: Timer?
    var right: Timer?
    var color: Color
    // embedded list node
    var prev: Timer?
    var next: Timer?
    // the timer itself
    var running: bool
    var timeout: int

    /** All fields zero, as after allocation from a pool. */
    constructor ()
      ensures !running && timeout == 0 && color == Black
      ensures parent == null && left == null && right == null && prev == null && next == null
    {
      parent, left, right, color := null, null, null, Black;
      prev, next := null, null;
      running, timeout := false, 0;
    }
  }

  ghost function InsertedAt<T>(s: seq<T>, k: nat, x: T): (r: seq<T>)
    requires k <= |s|
    ensures |r| == |s| + 1 && r[k] == x
    ensures forall i :: 0 <= i < k ==> r[i] == s[i]
    ensures forall i :: k < i < |r| ==> r[i] == s[i - 1]
  {
    s[..k] + [x] + s[k..]
  }

  ghost function RemovedAt<T>(s: seq<T>, k: nat): (r: seq<T>)
    requires k < |s|
    ensures |r| == |s| - 1
    ensures forall i :: 0 <= i < k ==> r[i] == s[i]
    ensures forall i :: k <= i < |r| ==> r[i] == s[i + 1]
  {
    s[..k] + s[k + 1..]
  }

  /** The set of objects a possibly null pointer refers to. */
  ghost function Only(n: Timer?): (s: set<Timer>) {
    if n == null then {} else {n}
  }
}

/**
  Trees, and contexts (trees with one hole), as values.
*/
module TreeShape {
  import opened Common
  import opened Timers

  datatype Tree =
    | Leaf
    | Branch(left: Tree, node: Timer, color: Color, right: Tree)

  /** The path from a hole up to the root, with the sibling subtree at every step. */
  datatype Ctx =
    | Top
    | InLeft(node: Timer, color: Color, right: Tree, up: Ctx)
    | InRight(left: Tree, node: Timer, color: Color, up: Ctx)

  ghost function InOrder(t: Tree): (s: seq<Timer>) {
    match t
    case Leaf => []
    case Branch(l, x, _, r) => InOrder(l) + [x] + InOrder(r)
  }

  ghost function Nodes(t: Tree): (s: set<Timer>) {
    match t
    case Leaf => {}
    case Branch(l, x, _, r) => Nodes(l) + {x} + Nodes(r)
  }

  ghost function CtxNodes(c: Ctx): (s: set<Timer>) {
    match c
    case Top => {}
    case InLeft(x, _, r, up) => {x} + Nodes(r) + CtxNodes(up)
    case InRight(l, x, _, up) => {x} + Nodes(l) + CtxNodes(up)
  }

  ghost function Plug(c: Ctx, t: Tree): (r: Tree) {
    match c
    case Top => t
    case InLeft(x, k, r, up) => Plug(up, Branch(t, x, k, r))
    case InRight(l, x, k, up) => Plug(up, Branch(l, x, k, t))
  }

  /** The tree one level above the hole. */
  ghost function Step(c: Ctx, t: Tree): (r: Tree)
    requires !c.Top?
  {
    if c.InLeft? then Branch(t, c.node, c.color, c.right) else Branch(c.left, c.node, c.color, t)
  }

  /** Which link of the node above a hole leads into it. */
  datatype Slot = AtRoot | OnLeft | OnRight

  ghost function SlotOf(c: Ctx): (s: Slot) {
    match c
    case Top => AtRoot
    case InLeft(_, _, _, _) => OnLeft
    case InRight(_, _, _, _) => OnRight
  }

  ghost function Depth(c: Ctx): (n: nat) {
    match c
    case Top => 0
    case InLeft(_, _, _, up) => 1 + Depth(up)
    case InRight(_, _, _, up) => 1 + Depth(up)
  }

  /** What the in-order sequence holds to the left of the hole. */
  ghost function Before(c: Ctx): (s: seq<Timer>) {
    match c
    case Top => []
    case InLeft(_, _, _, up) => Before(up)
    case InRight(l, x, _, up) => Before(up) + InOrder(l) + [x]
  }

  /** What the in-order sequence holds to the right of the hole. */
  ghost function After(c: Ctx): (s: seq<Timer>) {
    match c
    case Top => []
    case InLeft(x, _, r, up) => [x] + InOrder(r) + After(up)
    case InRight(_, _, _, up) => After(up)
  }

  lemma Regroup<T>(a: seq<T>, b: seq<T>, c: seq<T>, d: seq<T>, e: seq<T>)
    ensures a + (b + c + d) + e == a + b + (c + d + e)
    ensures a + (b + c + d) + e == (a + b + c) + d + e
  {
  }

  lemma {:induction false} PlugInOrder(c: Ctx, t: Tree)
    ensures InOrder(Plug(c, t)) == Before(c) + InOrder(t) + After(c)
  {
    match c
    case Top =>
    case InLeft(x, k, r, up) =>
      PlugInOrder(up, Branch(t, x, k, r));
      Regroup(Before(up), InOrder(t), [x], InOrder(r), After(up));
    case InRight(l, x, k, up) =>
      PlugInOrder(up, Branch(l, x, k, t));
      Regroup(Before(up), InOrder(l), [x], InOrder(t), After(up));
  }

  /** What comes before and after the node in the hole of `c`. */
  ghost function Preceding(c: Ctx, t: Tree): (s: seq<Timer>)
    requires t.Branch?
  {
    Before(c) + InOrder(t.left)
  }

  ghost function Following(c: Ctx, t: Tree): (s: seq<Timer>)
    requires t.Branch?
  {
    InOrder(t.right) + After(c)
  }

  lemma OrderAround(c: Ctx, t: Tree)
    requires t.Branch?
    ensures InOrder(Plug(c, t)) == Preceding(c, t) + [t.node] + Following(c, t)
  {
    PlugInOrder(c, t);
    FiveParts(Before(c), InOrder(t.left), [t.node], InOrder(t.right), After(c));
  }

  lemma FiveParts<T>(a: seq<T>, b: seq<T>, x: seq<T>, c: seq<T>, d: seq<T>)
    ensures a + (b + x + c) + d == (a + b) + x + (c + d)
  {
  }

  lemma {:induction false} PlugNodes(c: Ctx, t: Tree)
    ensures Nodes(Plug(c, t)) == CtxNodes(c) + Nodes(t)
  {
    match c
    case Top =>
    case InLeft(x, k, r, up) => PlugNodes(up, Branch(t, x, k, r));
    case InRight(l, x, k, up) => PlugNodes(up, Branch(l, x, k, t));
  }

  ghost function Elements(s: seq<Timer>): (r: set<Timer>) {
    set x | x in s
  }

  lemma {:induction false} NodesOf(t: Tree)
    ensures Nodes(t) == Elements(InOrder(t))
  {
    match t
    case Leaf =>
    case Branch(l, _, _, r) => NodesOf(l); NodesOf(r);
  }

  lemma {:induction false} InOrderNodes(t: Tree, x: Timer)
    ensures x in InOrder(t) <==> x in Nodes(t)
  {
    match t
    case Leaf =>
    case Branch(l, _, _, r) => InOrderNodes(l, x); InOrderNodes(r, x);
  }

  // ---------------------------------------------------------------- balance

  ghost predicate IsRed(t: Tree) {
    t.Branch? && t.color.Red?
  }

  /** `t` has no red node with a red child, and `h` black nodes on every path down. */
  ghost predicate Balanced(t: Tree, h: nat) {
    match t
    case Leaf => h == 0
    case Branch(l, _, Red, r) => !IsRed(l) && !IsRed(r) && Balanced(l, h) && Balanced(r, h)
    case Branch(l, _, Black, r) => h >= 1 && Balanced(l, h - 1) && Balanced(r, h - 1)
  }

  /**
    Filling the hole of `c` with a balanced tree of black height `h` whose root is
    red only if `red` gives a balanced tree with a black root.
  */
  ghost predicate Fits(c: Ctx, h: nat, red: bool) {
    match c
    case Top => !red
    case InLeft(_, k, r, up) =>
      Balanced(r, h) && (k.Red? ==> !red && !IsRed(r)) &&
      Fits(up, if k.Black? then h + 1 else h, k.Red?)
    case InRight(l, _, k, up) =>
      Balanced(l, h) && (k.Red? ==> !red && !IsRed(l)) &&
      Fits(up, if k.Black? then h + 1 else h, k.Red?)
  }

  /** The red-black property: balanced with a black root. */
  ghost predicate RedBlack(t: Tree) {
    !IsRed(t) && exists h: nat :: Balanced(t, h)
  }

  lemma {:induction false} FitsWeaker(c: Ctx, h: nat)
    requires Fits(c, h, true)
    ensures Fits(c, h, false)
  {
    match c
    case Top =>
    case InLeft(_, _, _, _) =>
    case InRight(_, _, _, _) =>
  }

  lemma {:induction false} FillBalanced(c: Ctx, t: Tree, h: nat)
    requires Balanced(t, h) && Fits(c, h, IsRed(t))
    ensures RedBlack(Plug(c, t))
    decreases c
  {
    match c
    case Top =>
    case InLeft(x, k, r, up) =>
      FillBalanced(up, Branch(t, x, k, r), if k.Black? then h + 1 else h);
    case InRight(l, x, k, up) =>
      FillBalanced(up, Branch(l, x, k, t), if k.Black? then h + 1 else h);
  }

  lemma {:induction false} SplitBalanced(c: Ctx, t: Tree) returns (h: nat)
    requires RedBlack(Plug(c, t))
    ensures Balanced(t, h) && Fits(c, h, IsRed(t))
    decreases c
  {
    match c
    case Top => h :| Balanced(t, h);
    case InLeft(x, k, r, up) =>
      var g := SplitBalanced(up, Branch(t, x, k, r));
      h := if k.Black? then g - 1 else g;
    case InRight(l, x, k, up) =>
      var g := SplitBalanced(up, Branch(l, x, k, t));
      h := if k.Black? then g - 1 else g;
  }

  // ---------------------------------------------------------------- rotations

  ghost function RotatedLeft(t: Tree): (r: Tree)
    requires t.Branch? && t.right.Branch?
  {
    Branch(Branch(t.left, t.node, t.color, t.right.left), t.right.node, t.right.color, t.right.right)
  }

  ghost function RotatedRight(t: Tree): (r: Tree)
    requires t.Branch? && t.left.Branch?
  {
    Branch(t.left.left, t.left.node, t.left.color, Branch(t.left.right, t.node, t.color, t.right))
  }

  lemma TwoNodes<T>(a: seq<T>, x: T, b: seq<T>, y: T, d: seq<T>)
    ensures a + [x] + (b + [y] + d) == (a + [x] + b) + [y] + d
  {
  }

  lemma RotatedLeftInOrder(t: Tree)
    requires t.Branch? && t.right.Branch?
    ensures InOrder(RotatedLeft(t)) == InOrder(t)
  {
    TwoNodes(InOrder(t.left), t.node, InOrder(t.right.left), t.right.node, InOrder(t.right.right));
  }

  lemma RotatedRightInOrder(t: Tree)
    requires t.Branch? && t.left.Branch?
    ensures InOrder(RotatedRight(t)) == InOrder(t)
  {
    TwoNodes(InOrder(t.left.left), t.left.node, InOrder(t.left.right), t.node, InOrder(t.right));
  }

  lemma SameOrder(c: Ctx, t: Tree, t': Tree)
    requires InOrder(t) == InOrder(t')
    ensures InOrder(Plug(c, t)) == InOrder(Plug(c, t'))
  {
    PlugInOrder(c, t);
    PlugInOrder(c, t');
  }

  // ------------------------------------------------------- insertion fix-up

  /** A red node over two black ones. */
  ghost function Flipped(t: Tree): (r: Tree)
    requires t.Branch? && t.left.Branch? && t.right.Branch?
  {
    Branch(t.left.(color := Black), t.node, Red, t.right.(color := Black))
  }

  /** Everything is balanced, except that the red root `node` of `t` may have a red parent. */
  ghost predicate Violation(c: Ctx, t: Tree, node: Timer, h: nat) {
    IsRed(t) && t.node == node && Balanced(t, h) && Fits(c, h, false)
  }

  /** A red parent is not the root, and the grandparent is black. */
  lemma Grandparent(c: Ctx, t: Tree, node: Timer, h: nat)
    requires Violation(c, t, node, h) && !c.Top? && c.color == Red
    ensures !c.up.Top? && c.up.color == Black && Fits(c.up.up, h + 1, false)
    ensures Plug(c, t) == Plug(c.up, Step(c, t)) == Plug(c.up.up, Step(c.up, Step(c, t)))
    ensures c.up.InLeft? ==> Balanced(c.up.right, h)
    ensures c.up.InRight? ==> Balanced(c.up.left, h)
    ensures c.InLeft? ==> Balanced(c.right, h) && !IsRed(c.right)
    ensures c.InRight? ==> Balanced(c.left, h) && !IsRed(c.left)
  {
    assert Fits(c.up, h, true);
  }

  lemma FlipFixes(c: Ctx, t: Tree, node: Timer, h: nat)
    requires Violation(c, t, node, h) && !c.Top? && c.color == Red && !c.up.Top?
    requires IsRed(if c.up.InLeft? then c.up.right else c.up.left)
    ensures var g := Step(c.up, Step(c, t));
            Violation(c.up.up, Flipped(g), g.node, h + 1) && Depth(c.up.up) < Depth(c)
  {
    Grandparent(c, t, node, h);
  }

  /** The two red nodes below the grandparent, the lower one on the outside. */
  ghost predicate OuterLeft(p: Tree, h: nat) {
    IsRed(p) && IsRed(p.left) && Balanced(p.left, h) && Balanced(p.right, h) && !IsRed(p.right)
  }

  ghost predicate OuterRight(p: Tree, h: nat) {
    IsRed(p) && IsRed(p.right) && Balanced(p.right, h) && Balanced(p.left, h) && !IsRed(p.left)
  }

  lemma InnerToOuter(c: Ctx, t: Tree, node: Timer, h: nat)
    requires Violation(c, t, node, h) && !c.Top? && c.color == Red
    ensures c.InLeft? ==> OuterLeft(Step(c, t), h) && OuterRight(RotatedRight(Step(c, t)), h)
    ensures c.InRight? ==> OuterRight(Step(c, t), h) && OuterLeft(RotatedLeft(Step(c, t)), h)
  {
    Grandparent(c, t, node, h);
  }

  lemma LiftFixes(top: Ctx, g: Timer, p: Tree, u: Tree, h: nat)
    requires Fits(top, h + 1, false) && Balanced(u, h) && !IsRed(u)
    ensures OuterLeft(p, h) ==>
            Violation(InLeft(p.node, Black, Branch(p.right, g, Red, u), top), p.left, p.left.node, h)
    ensures OuterRight(p, h) ==>
            Violation(InRight(Branch(u, g, Red, p.left), p.node, Black, top), p.right, p.right.node, h)
  {
    assert OuterLeft(p, h) ==> Balanced(Branch(p.right, g, Red, u), h);
    assert OuterRight(p, h) ==> Balanced(Branch(u, g, Red, p.left), h);
  }

  /** Once the parent is absent or black, a black root is all that is missing. */
  lemma Blacken(c: Ctx, t: Tree, h: nat)
    requires IsRed(t) && Balanced(t, h) && Fits(c, h, false)
    requires !c.Top? ==> c.color == Black
    ensures Plug(c, t).Branch? && RedBlack(Plug(c, t).(color := Black))
  {
    match c
    case Top =>
      assert Balanced(t.(color := Black), h + 1);
    case InLeft(_, _, _, _) =>
      FillBalanced(c, t, h);
      PlugInOrder(c, t);
    case InRight(_, _, _, _) =>
      FillBalanced(c, t, h);
      PlugInOrder(c, t);
  }

  // -------------------------------------------------------- deletion fix-up

  /**
    The tree would be balanced if `t`, of black height `h`, counted one black node
    more. A red `t` carries the missing black itself once it is painted.
  */
  ghost predicate Short(c: Ctx, t: Tree, h: nat) {
    Fits(c, h + 1, false) && if IsRed(t) then Balanced(t.(color := Black), h + 1) else Balanced(t, h)
  }

  /** The subtree on the other side of the parent. */
  ghost function Sibling(c: Ctx): (t: Tree)
    requires !c.Top?
  {
    if c.InLeft? then c.right else c.left
  }

  /** The sibling of a short black subtree exists. */
  lemma SiblingExists(c: Ctx, t: Tree, h: nat)
    requires Short(c, t, h) && !c.Top? && !IsRed(t)
    ensures Sibling(c).Branch? && Balanced(Sibling(c), h + 1)
    ensures IsRed(Sibling(c)) ==> c.color == Black
    ensures Plug(c, t) == Plug(c.up, Step(c, t))
    ensures Fits(c.up, if c.color == Black then h + 2 else h + 1, c.color == Red)
  {
  }

  /** Case 1 leaves the same hole, below a red parent with a black sibling. */
  lemma RedSibling(c: Ctx, t: Tree, h: nat)
    requires Short(c, t, h) && !c.Top? && !IsRed(t) && IsRed(Sibling(c))
    ensures c.InLeft? ==>
              var s := c.right;
              var c' := InLeft(c.node, Red, s.left, InLeft(s.node, Black, s.right, c.up));
              Short(c', t, h) && s.left.Branch? && !IsRed(s.left) &&
              Plug(c', t) == Plug(c.up, RotatedLeft(Branch(t, c.node, Red, s.(color := Black))))
    ensures c.InRight? ==>
              var s := c.left;
              var c' := InRight(s.right, c.node, Red, InRight(s.left, s.node, Black, c.up));
              Short(c', t, h) && s.right.Branch? && !IsRed(s.right) &&
              Plug(c', t) == Plug(c.up, RotatedRight(Branch(s.(color := Black), c.node, Red, t)))
  {
    SiblingExists(c, t, h);
  }

  ghost predicate BlackChildren(s: Tree)
    requires s.Branch?
  {
    !IsRed(s.left) && !IsRed(s.right)
  }

  /** Case 2 moves the hole one level up. */
  lemma BlackNephews(c: Ctx, t: Tree, h: nat) returns (h': nat)
    requires Short(c, t, h) && !c.Top? && !IsRed(t) && !IsRed(Sibling(c)) && Sibling(c).Branch?
    requires BlackChildren(Sibling(c))
    ensures var s := Sibling(c).(color := Red);
            var t' := if c.InLeft? then Branch(t, c.node, c.color, s) else Branch(s, c.node, c.color, t);
            Short(c.up, t', h')
  {
    SiblingExists(c, t, h);
    h' := if c.color == Black then h + 1 else h;
  }

  /** Case 3 makes the far child of the sibling the red one. */
  lemma NearNephew(s: Tree, h: nat)
    requires s.Branch? && !IsRed(s) && Balanced(s, h)
    ensures IsRed(s.left) && !IsRed(s.right) ==>
              var s' := RotatedRight(Branch(s.left.(color := Black), s.node, Red, s.right));
              Balanced(s', h) && !IsRed(s') && IsRed(s'.right)
    ensures IsRed(s.right) && !IsRed(s.left) ==>
              var s' := RotatedLeft(Branch(s.left, s.node, Red, s.right.(color := Black)));
              Balanced(s', h) && !IsRed(s') && IsRed(s'.left)
  {
  }

  /** Case 4 ends the fix-up: the whole tree is red-black again. */
  lemma FarNephew(c: Ctx, t: Tree, s: Tree, h: nat)
    requires Short(c, t, h) && !c.Top? && !IsRed(t)
    requires s.Branch? && !IsRed(s) && Balanced(s, h + 1)
    ensures c.InLeft? && IsRed(s.right) ==>
              RedBlack(Plug(c.up, RotatedLeft(Branch(t, c.node, Black, Branch(s.left, s.node, c.color,
                s.right.(color := Black))))))
    ensures c.InRight? && IsRed(s.left) ==>
              RedBlack(Plug(c.up, RotatedRight(Branch(Branch(s.left.(color := Black), s.node, c.color, s.right),
                c.node, Black, t))))
  {
    SiblingExists(c, t, h);
    var g := if c.color == Black then h + 2 else h + 1;
    if c.InLeft? && IsRed(s.right) {
      var r := RotatedLeft(Branch(t, c.node, Black, Branch(s.left, s.node, c.color, s.right.(color := Black))));
      assert Balanced(r.left, h + 1) && Balanced(r.right, h + 1);
      FillBalanced(c.up, r, g);
    }
    if c.InRight? && IsRed(s.left) {
      var r := RotatedRight(Branch(Branch(s.left.(color := Black), s.node, c.color, s.right), c.node, Black, t));
      assert Balanced(r.left, h + 1) && Balanced(r.right, h + 1);
      FillBalanced(c.up, r, g);
    }
  }

  /** At the top, or at a red node, painting the node black finishes. */
  lemma ShortEnds(c: Ctx, t: Tree, h: nat)
    requires Short(c, t, h) && (c.Top? || IsRed(t))
    ensures RedBlack(Plug(c, if t.Branch? then t.(color := Black) else t))
  {
    if IsRed(t) {
      FillBalanced(c, t.(color := Black), h + 1);
    }
  }

  // ---------------------------------------------------- positions in a tree

  /** Where a node sits in a tree. */
  lemma {:induction false} Locate(c: Ctx, t: Tree, x: Timer) returns (c': Ctx, t': Tree)
    requires x in Nodes(t)
    ensures Plug(c', t') == Plug(c, t) && t'.Branch? && t'.node == x
    decreases t
  {
    var Branch(l, y, k, r) := t;
    if x == y {
      c', t' := c, t;
    } else if x in Nodes(l) {
      c', t' := Locate(InLeft(y, k, r, c), l, x);
    } else {
      c', t' := Locate(InRight(l, y, k, c), r, x);
    }
  }

  /** The path down left children only. */
  ghost predicate LeftSpine(c: Ctx) {
    c.Top? || (c.InLeft? && LeftSpine(c.up))
  }

  ghost predicate RightSpine(c: Ctx) {
    c.Top? || (c.InRight? && RightSpine(c.up))
  }

  lemma {:induction false} LeftSpineFirst(c: Ctx)
    requires LeftSpine(c)
    ensures Before(c) == []
  {
    if c.InLeft? { LeftSpineFirst(c.up); }
  }

  lemma {:induction false} RightSpineLast(c: Ctx)
    requires RightSpine(c)
    ensures After(c) == []
  {
    if c.InRight? { RightSpineLast(c.up); }
  }

  /** The context of a hole inside a subtree, once that subtree sits in `base`. */
  ghost function Attach(c: Ctx, base: Ctx): (r: Ctx) {
    match c
    case Top => base
    case InLeft(x, k, r, up) => InLeft(x, k, r, Attach(up, base))
    case InRight(l, x, k, up) => InRight(l, x, k, Attach(up, base))
  }

  lemma {:induction false} PlugAttach(c: Ctx, base: Ctx, t: Tree)
    ensures Plug(Attach(c, base), t) == Plug(base, Plug(c, t))
  {
    match c
    case Top =>
    case InLeft(x, k, r, up) => PlugAttach(up, base, Branch(t, x, k, r));
    case InRight(l, x, k, up) => PlugAttach(up, base, Branch(l, x, k, t));
  }

  // ------------------------------------------------------------------- height

  ghost function Larger(a: nat, b: nat): (r: nat) {
    if a < b then b else a
  }

  ghost function Height(t: Tree): (h: nat) {
    match t
    case Leaf => 0
    case Branch(l, _, _, r) => 1 + Larger(Height(l), Height(r))
  }

  lemma {:induction false} BalancedSize(t: Tree, h: nat)
    requires Balanced(t, h)
    ensures |InOrder(t)| + 1 >= Pow2(h)
    ensures Height(t) <= 2 * h + (if IsRed(t) then 1 else 0)
  {
    match t
    case Leaf =>
    case Branch(l, _, k, r) =>
      var g := if k == Red then h else h - 1;
      BalancedSize(l, g);
      BalancedSize(r, g);
  }

  lemma {:induction false} Pow2Monotone(a: nat, b: nat)
    requires a <= b
    ensures Pow2(a) <= Pow2(b)
  {
    if a < b { Pow2Monotone(a, b - 1); }
  }

  lemma {:induction false} Pow2Double(h: nat)
    ensures Pow2(2 * h) == Pow2(h) * Pow2(h)
  {
    if h > 0 {
      Pow2Double(h - 1);
      var a := Pow2(h - 1);
      assert Pow2(2 * h) == 2 * Pow2(2 * h - 1) == 4 * Pow2(2 * (h - 1)) == 4 * (a * a);
      assert (2 * a) * (2 * a) == 4 * (a * a);
    }
  }

  /** A red-black tree of `n` nodes is at most `2 * log2(n + 1)` high. */
  lemma HeightBound(t: Tree)
    requires RedBlack(t)
    ensures Pow2(Height(t)) <= (|InOrder(t)| + 1) * (|InOrder(t)| + 1)
  {
    var h: nat :| Balanced(t, h);
    BalancedSize(t, h);
    Pow2Monotone(Height(t), 2 * h);
    Pow2Double(h);
    Square(Pow2(h), |InOrder(t)| + 1);
  }

  lemma Square(a: nat, b: nat)
    requires a <= b
    ensures a * a <= b * b
  {
    assert a * a <= b * a <= b * b;
  }

  // ----------------------------------------------------- balance after a cut

  /** Replacing a node by its only subtree loses one black node if the node was black. */
  lemma CutBalanced(c: Ctx, t: Tree, ch: Tree) returns (h: nat)
    requires RedBlack(Plug(c, t)) && t.Branch?
    requires (t.left.Leaf? && ch == t.right) || (t.right.Leaf? && ch == t.left)
    ensures if t.color == Black then Short(c, ch, h) else RedBlack(Plug(c, ch))
  {
    var g := SplitBalanced(c, t);
    if t.color == Black {
      h := g - 1;
    } else {
      h := g;
      FitsWeaker(c, g);
      FillBalanced(c, ch, g);
    }
  }

  lemma OrderCut(c: Ctx, t: Tree, ch: Tree)
    requires t.Branch? && ((t.left.Leaf? && ch == t.right) || (t.right.Leaf? && ch == t.left))
    ensures InOrder(Plug(c, ch)) == Preceding(c, t) + Following(c, t)
  {
    PlugInOrder(c, ch);
    assert InOrder(ch) == InOrder(t.left) + InOrder(t.right);
    FourParts(Before(c), InOrder(t.left), InOrder(t.right), After(c));
  }

  lemma FourParts<T>(a: seq<T>, b: seq<T>, c: seq<T>, d: seq<T>)
    ensures a + (b + c) + d == (a + b) + (c + d)
  {
  }

  /** Balance does not depend on which node stands where. */
  lemma {:induction false} Renamed(pc: Ctx, c: Ctx, l: Tree, x: Timer, y: Timer, k: Color, h: nat, red: bool)
    requires Fits(Attach(pc, InRight(l, x, k, c)), h, red)
    ensures Fits(Attach(pc, InRight(l, y, k, c)), h, red)
  {
    match pc
    case Top =>
    case InLeft(_, k', _, up) => Renamed(up, c, l, x, y, k, if k'.Black? then h + 1 else h, k'.Red?);
    case InRight(_, _, k', up) => Renamed(up, c, l, x, y, k, if k'.Black? then h + 1 else h, k'.Red?);
  }

  /** Moving the successor `s.node` into the place of `t.node` loses the successor's color. */
  lemma CutPromoted(c: Ctx, t: Tree, pc: Ctx, s: Tree) returns (h: nat)
    requires RedBlack(Plug(c, t)) && t.Branch? && t.right == Plug(pc, s) && LeftSpine(pc) && s.Branch? && s.left.Leaf?
    ensures var hc := Attach(pc, InRight(t.left, s.node, t.color, c));
            && Plug(hc, s.right) == Plug(c, Branch(t.left, s.node, t.color, Plug(pc, s.right)))
            && (if s.color == Black then Short(hc, s.right, h) else RedBlack(Plug(hc, s.right)))
            && (if pc.Top? then hc.InRight? && hc.node == s.node else !hc.Top? && hc.node == pc.node)
  {
    var y, l, k := s.node, t.left, t.color;
    var old_, hc := Attach(pc, InRight(l, t.node, k, c)), Attach(pc, InRight(l, y, k, c));
    PlugAttach(pc, InRight(l, t.node, k, c), s);
    PlugAttach(pc, InRight(l, y, k, c), s.right);
    var g := SplitBalanced(old_, s);
    Renamed(pc, c, l, t.node, y, k, g, IsRed(s));
    FillBalanced(hc, s, g);
    h := CutBalanced(hc, s, s.right);
  }

  /** The first node of a left spine is the first of the order. */
  lemma SpineOrder(pc: Ctx, s: Tree)
    requires LeftSpine(pc) && s.Branch? && s.left.Leaf?
    ensures InOrder(Plug(pc, s)) == [s.node] + InOrder(Plug(pc, s.right))
  {
    LeftSpineFirst(pc);
    PlugInOrder(pc, s);
    PlugInOrder(pc, s.right);
    var y, a, b := [s.node], InOrder(s.right), After(pc);
    assert InOrder(s) == [] + y + a;
    assert [] + ([] + y + a) + b == y + ([] + a + b);
  }

  lemma SpineOrderLast(pc: Ctx, s: Tree)
    requires RightSpine(pc) && s.Branch? && s.right.Leaf?
    ensures InOrder(Plug(pc, s)) == InOrder(Plug(pc, s.left)) + [s.node]
  {
    RightSpineLast(pc);
    PlugInOrder(pc, s);
    PlugInOrder(pc, s.left);
  }

  lemma OrderPromoted(c: Ctx, t: Tree, y: Timer, r: Tree)
    requires t.Branch? && InOrder(t.right) == [y] + InOrder(r)
    ensures InOrder(Plug(c, Branch(t.left, y, t.color, r))) == Preceding(c, t) + Following(c, t)
  {
    PlugInOrder(c, Branch(t.left, y, t.color, r));
    assert InOrder(t.left) + [y] + InOrder(r) == InOrder(t.left) + InOrder(t.right);
    FourParts(Before(c), InOrder(t.left), InOrder(t.right), After(c));
  }
}
