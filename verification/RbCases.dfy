/**
 What each case of insertion and erasure does to the tree, its order, its colours and the node
 memory. The methods of RbTree.Root are short because their proofs are here.
 */
module RbCases {
  import opened RbShape
  import opened RbMemory

  // ----- Colour arithmetic of the rebalancing cases -----

  /** Case 1 of insertion: the flipped grandparent is a red tree the path above accepts. */
  lemma FlipColors(up: Path, g: Ptr, s: Side, par: Tree, uncle: Tree)
    requires par.Branch? && uncle.Branch? && uncle.color.Red? && Balanced(uncle)
    requires Balanced(par.left) && Balanced(par.right) && Bh(par.left) == Bh(par.right) == Bh(uncle)
    requires PathBalanced(up, Bh(uncle) + 1)
    ensures var t := Mk(g, Red, s, Paint(par, Black), Paint(uncle, Black));
            Balanced(t) && PathBalanced(up, Bh(t))
  {
  }

  /** Case 3 of insertion: the rotated subtree is balanced and black. */
  lemma RotateColors(up: Path, x: Ptr, g: Ptr, s: Side, near: Tree, mid: Tree, uncle: Tree)
    requires Balanced(near) && Balanced(mid) && Balanced(uncle)
    requires Bh(near) == Bh(mid) == Bh(uncle) && mid.IsBlack() && uncle.IsBlack()
    requires PathBalanced(up, Bh(near) + 1)
    ensures var t := Mk(x, Black, s, near, Mk(g, Red, s, mid, uncle));
            Balanced(t) && t.IsBlack() && PathBalanced(up, Bh(t))
  {
  }

  /** The side on which the code takes `child` to hang: left if the left pointer is it, else right. */
  function SideOf(n: Node, child: Ptr): Side {
    if n.left == child then Left else Right
  }

  /** What is apart before insertion cases 2 and 3, in the form their two rotations need. */
  lemma FarApart(up: Path, n: Ptr, parent: Ptr, g: Ptr, s: Side, un: Tree, sib: Tree, a: Tree, b: Tree)
    requires ZipApart(Step(Step(up, g, Black, s, un), parent, Red, s.Flip(), sib), Mk(n, Red, s, a, b))
    ensures Separate(Step(up, g, Black, s, un), n, parent, sib, a, b)
    ensures parent != g && parent !in PathIds(up) && parent !in Ids(un)
    ensures Ids(a) !! PathIds(up) && Ids(a) !! Ids(un) && g !in Ids(a)
  {
    hide Mk, Ids, Apart, PathApart, PathIds;
    MkApart(n, Red, s, a, b);
    StepApart(up, g, Black, s, un);
    StepApart(Step(up, g, Black, s, un), parent, Red, s.Flip(), sib);
  }

  lemma FarApartAbove(up: Path, n: Ptr, parent: Ptr, g: Ptr, s: Side, un: Tree, sib: Tree, a: Tree, b: Tree)
    requires ZipApart(Step(Step(up, g, Black, s, un), parent, Red, s.Flip(), sib), Mk(n, Red, s, a, b))
    ensures Separate(up, n, g, Mk(parent, Red, s, sib, a), b, un)
  {
    hide Mk, Ids, Apart, PathApart, PathIds;
    MkApart(n, Red, s, a, b);
    MkApart(parent, Red, s, sib, a);
    StepApart(up, g, Black, s, un);
    StepApart(Step(up, g, Black, s, un), parent, Red, s.Flip(), sib);
  }

  /** Insertion case 2 leaves the grandparent, the uncle and the path above alone. */
  lemma FarFrame(m0: Memory, m: Memory, root: Ptr, up: Path, n: Ptr, parent: Ptr, g: Ptr, un: Tree, a: Tree)
    requires g in m0 && HoldsPath(m0, root, up, g) && Holds(m0, un, g)
    requires m.Keys == m0.Keys
    requires forall y :: y in m && y != parent && y != n && y !in Ids(a) ==> m[y] == m0[y]
    requires n != g && n !in PathIds(up) && n !in Ids(un)
    requires parent != g && parent !in PathIds(up) && parent !in Ids(un)
    requires Ids(a) !! PathIds(up) && Ids(a) !! Ids(un) && g !in Ids(a)
    ensures m[g] == m0[g] && HoldsPath(m, root, up, g) && Holds(m, un, g)
  {
    hide Ids, PathIds, Holds, HoldsPath;
    Frame(m0, m, un, g);
    FramePath(m0, m, root, up, g);
  }

  /** A balanced red tree in a balanced path; the edge above the tree may join two red nodes. */
  ghost predicate RedHole(p: Path, t: Tree) {
    t.Branch? && t.color.Red? && Balanced(t) && PathBalanced(p, Bh(t)) && RootBlack(p)
  }

  /** The colour rules around a red tree under a red parent. */
  lemma RedHoleUp(p: Path, t: Tree)
    requires RedHole(p, t) && p.Step? && p.color.Red?
    ensures p.up.Step? && p.up.color.Black?
    ensures Balanced(p.sib) && p.sib.IsBlack() && Bh(p.sib) == Bh(t)
    ensures Balanced(p.up.sib) && Bh(p.up.sib) == Bh(t)
    ensures PathBalanced(p.up.up, Bh(t) + 1) && RootBlack(p.up.up)
    ensures t.left.IsBlack() && t.right.IsBlack() && Balanced(t.left) && Balanced(t.right)
    ensures Bh(t.left) == Bh(t.right) == Bh(t)
  {
    assert RootBlack(p.up);
    assert PathBalanced(p.up, Bh(t));
  }

  /** A red node has a parent, and under a red parent there is a black grandparent. */
  lemma RedParent(m: Memory, root: Ptr, p: Path, t: Tree)
    requires Zip(m, root, p, t) && RedHole(p, t) && p.Step? && p.color.Red?
    ensures p.up.Step? && p.up.color.Black? && p.up.id in m && p.id in m && t.id in m
    ensures m[p.id] == MkNode(p.up.id, Red, p.side, t.id, p.sib.Root())
    ensures m[p.up.id] == MkNode(p.up.up.Head(), Black, p.up.side, p.id, p.up.sib.Root())
    ensures p.up.side == if p.id != m[p.up.id].right then Left else Right
    ensures p.side == if t.id == m[p.id].Kid(p.up.side.Flip()) then p.up.side.Flip() else p.up.side
    ensures p.up.sib.Branch? ==> p.up.sib.id in m && p.up.sib.id != 0 && m[p.up.sib.id].color == p.up.sib.color
  {
    RedHoleUp(p, t);
    assert HoldsPath(m, root, p.up, p.id) && PathApart(p.up) && Apart(p.up.sib);
  }

  /** Insertion case 1 as a change of trees. */
  ghost function Flipped(p: Path, t: Tree): Tree
    requires p.Step? && p.up.Step?
  {
    Mk(p.up.id, Red, p.up.side, Mk(p.id, Black, p.side, t, p.sib), Paint(p.up.sib, Black))
  }

  lemma FlippedTree(p: Path, t: Tree)
    requires RedHole(p, t) && p.Step? && p.color.Red? && p.up.Step? && p.up.color.Black?
    requires p.up.sib.Branch? && p.up.sib.color.Red?
    ensures RedHole(p.up.up, Flipped(p, t))
    ensures InOrder(Plug(p.up.up, Flipped(p, t))) == InOrder(Plug(p, t))
    ensures PathIds(p.up.up) + Ids(Flipped(p, t)) == PathIds(p) + Ids(t)
  {
    RedHoleUp(p, t);
    FlipColors(p.up.up, p.up.id, p.up.side, Mk(p.id, Red, p.side, t, p.sib), p.up.sib);
    PlugSameOrder(p.up.up, Flipped(p, t), Mk(p.up.id, Black, p.up.side, Mk(p.id, Red, p.side, t, p.sib), p.up.sib));
  }

  lemma FarInOrder(n: Ptr, parent: Ptr, s: Side, sib: Tree, a: Tree, b: Tree)
    ensures InOrder(Mk(n, Red, s, Mk(parent, Red, s, sib, a), b)) ==
            InOrder(Mk(parent, Red, s.Flip(), Mk(n, Red, s, a, b), sib))
  {
    RotateInOrder(parent, Red, n, Red, Red, Red, s, sib, a, b);
  }

  /** Insertion case 3 as a change of trees: `x` with children `a` and `b` ends up above `g`. */
  lemma RotatedTree(up: Path, x: Ptr, cx: Color, g: Ptr, s: Side, a: Tree, b: Tree, un: Tree)
    requires Balanced(a) && Balanced(b) && Balanced(un) && Bh(a) == Bh(b) == Bh(un)
    requires b.IsBlack() && un.IsBlack() && PathBalanced(up, Bh(a) + 1) && RootBlack(up)
    ensures var t' := Mk(x, Black, s, a, Mk(g, Red, s, b, un));
            && Balanced(t') && t'.IsBlack() && PathBalanced(up, Bh(t'))
            && InOrder(t') == InOrder(Mk(g, Black, s, Mk(x, cx, s, a, b), un))
            && Ids(t') == Ids(a) + Ids(b) + Ids(un) + {x, g}
  {
    RotateColors(up, x, g, s, a, b, un);
    RotateInOrder(x, Black, g, Red, cx, Black, s, a, b, un);
    MkApart(x, Black, s, a, Mk(g, Red, s, b, un));
    MkApart(g, Red, s, b, un);
  }

  /** What the pointers at the hole tell about the path. */
  lemma HoleFacts(m: Memory, root: Ptr, p: Path, t: Tree)
    requires Zip(m, root, p, t) && t.Branch?
    ensures t.id in m && m[t.id].parent == p.Head() && m[t.id].color == t.color
    ensures p.Top? <==> p.Head() == 0
    ensures p.Step? ==> p.id in m && m[p.id].color == p.color
  {
  }

  lemma PlugValid(m: Memory, root: Ptr, p: Path, t: Tree)
    requires Zip(m, root, p, t)
    requires Balanced(t) && PathBalanced(p, Bh(t)) && (p.HeadBlack() || t.IsBlack())
    requires if p.Top? then t.IsBlack() else RootBlack(p)
    ensures Rep(m, root, Plug(p, t)) && RedBlack(Plug(p, t))
  {
    ZipIsRep(m, root, p, t);
    PlugRedBlack(p, t);
  }

  lemma PaintedRoot(m: Memory, root: Ptr, t: Tree)
    requires Zip(m, root, Top, t) && t.Branch? && Balanced(t) && t.color.Red? && t.id in m
    ensures Rep(m[t.id := m[t.id].(parent := 0, color := Black)], root, Paint(t, Black)) && RedBlack(Paint(t, Black))
    ensures InOrder(Paint(t, Black)) == InOrder(t)
  {
    AdoptPainted(m, m[t.id := m[t.id].(parent := 0, color := Black)], t, 0, 0, Black);
  }

  /** Insertion cases 2 and 3 as a change of trees. */
  lemma FarTree(p: Path, t: Tree)
    requires RedHole(p, t) && p.Step? && p.color.Red? && p.up.Step? && p.up.color.Black?
    requires p.up.sib.IsBlack() && p.side == p.up.side.Flip()
    ensures var s, up := p.up.side, p.up.up;
            var a, b := t.Kid(s), t.Kid(s.Flip());
            var t' := Mk(t.id, Black, s, Mk(p.id, Red, s, p.sib, a), Mk(p.up.id, Red, s, b, p.up.sib));
            && a.IsBlack() && b.IsBlack() && Balanced(t') && t'.IsBlack() && PathBalanced(up, Bh(t'))
            && InOrder(Plug(up, t')) == InOrder(Plug(p, t))
  {
    var s, up, un, sib := p.up.side, p.up.up, p.up.sib, p.sib;
    var n, a, b := t.id, t.Kid(s), t.Kid(s.Flip());
    assert t == Mk(n, Red, s, a, b);
    RedHoleUp(p, t);
    var near := Mk(p.id, Red, s, sib, a);
    RotatedTree(up, n, Red, p.up.id, s, near, b, un);
    FarInOrder(n, p.id, s, sib, a, b);
    hide InOrder, Balanced, PathBalanced, RootBlack;
    var t' := Mk(n, Black, s, near, Mk(p.up.id, Red, s, b, un));
    PlugSameOrder(up, t', Mk(p.up.id, Black, s, Mk(n, Red, s, near, b), un));
    PlugSameOrder(p.up, Mk(n, Red, s, near, b), Mk(p.id, Red, s.Flip(), t, sib));
  }

  // ----- Where rb_add puts a node -----

  /** What the source's order functions are: a strict order under which incomparable means equal. */
  ghost predicate Weak(less: (Ptr, Ptr) -> bool) {
    && (forall x, y :: less(x, y) ==> !less(y, x))
    && (forall x, y, z :: less(x, z) ==> less(x, y) || less(y, z))
  }

  ghost predicate SortedBy(less: (Ptr, Ptr) -> bool, o: seq<Ptr>) {
    forall i, j :: 0 <= i < j < |o| ==> !less(o[j], o[i])
  }

  /** In sequence `o`, a right place for `n` is between `lo` and `hi`. */
  ghost predicate Between(less: (Ptr, Ptr) -> bool, n: Ptr, o: seq<Ptr>, lo: int, hi: int) {
    && (forall i :: 0 <= i < lo && i < |o| ==> !less(n, o[i]))
    && (forall i :: hi <= i < |o| && 0 <= i ==> less(n, o[i]))
  }

  /** One comparison with the node at `k` narrows the place down to one side of it. */
  lemma Narrow(less: (Ptr, Ptr) -> bool, n: Ptr, o: seq<Ptr>, lo: int, hi: int, k: nat)
    requires k < |o|
    ensures Weak(less) && SortedBy(less, o) && Between(less, n, o, lo, hi) ==>
              if less(n, o[k]) then Between(less, n, o, lo, k) else Between(less, n, o, k + 1, hi)
  {
  }

  lemma ZipTop(m: Memory, root: Ptr, t: Tree)
    requires Rep(m, root, t)
    ensures Zip(m, root, Top, t) && Plug(Top, t) == t && root == t.Root()
  {
  }

  lemma TopPlaces()
    ensures Before(Top) == [] && After(Top) == []
  {
  }

  lemma LeafRoot(m: Memory, root: Ptr, p: Path, t: Tree)
    requires Zip(m, root, p, t)
    ensures t.Root() == 0 <==> t.Leaf?
  {
  }

  lemma RootInIds(p: Path, t: Tree)
    requires t.Branch?
    ensures t.id in Ids(Plug(p, t))
  {
    PlugIds(p, t);
  }

  lemma NewNode(p: Path, n: Ptr)
    requires PathBalanced(p, 0) && RootBlack(p)
    ensures RedHole(p, Branch(Leaf, n, Red, Leaf)) && InOrder(Branch(Leaf, n, Red, Leaf)) == [n]
    ensures PathIds(p) + Ids(Branch(Leaf, n, Red, Leaf)) == PathIds(p) + {n}
  {
  }

  /** Moving the hole down to either child. */
  lemma Descend(m: Memory, root: Ptr, p: Path, t: Tree)
    requires Zip(m, root, p, t) && t.Branch?
    ensures t.id in m && t.id != 0 && m[t.id].left == t.left.Root() && m[t.id].right == t.right.Root()
    ensures Zip(m, root, Step(p, t.id, t.color, Left, t.right), t.left)
    ensures Zip(m, root, Step(p, t.id, t.color, Right, t.left), t.right)
    ensures Plug(Step(p, t.id, t.color, Left, t.right), t.left) == Plug(p, t)
    ensures Plug(Step(p, t.id, t.color, Right, t.left), t.right) == Plug(p, t)
  {
    ZipUp(m, root, p, t.id, t.color, Left, t.right, t.left);
    ZipUp(m, root, p, t.id, t.color, Right, t.left, t.right);
  }

  /** Where the hole of `p` and the root of `t` in it stand in the whole sequence. */
  lemma Places(p: Path, t: Tree)
    ensures var o := InOrder(Plug(p, t));
            && |o| == |Before(p)| + |InOrder(t)| + |After(p)| && (t.Leaf? ==> |InOrder(t)| == 0)
            && (t.Branch? ==>
                  var k := |Before(p)| + |InOrder(t.left)|;
                  && k < |o| && o[k] == t.id
                  && |Before(Step(p, t.id, t.color, Left, t.right))| == |Before(p)|
                  && |After(Step(p, t.id, t.color, Left, t.right))| == |o| - k
                  && |Before(Step(p, t.id, t.color, Right, t.left))| == k + 1
                  && |After(Step(p, t.id, t.color, Right, t.left))| == |After(p)|)
  {
    PlugInOrder(p, t);
    if t.Branch? { CutAt(p, t); }
  }

  /** The empty place found by the descent takes a red node. */
  lemma AtLeaf(tree: Tree, p: Path)
    requires RedBlack(tree) && Plug(p, Leaf) == tree
    ensures PathBalanced(p, 0) && RootBlack(p)
    ensures InOrder(tree) == Before(p) + After(p) && |InOrder(tree)| == |Before(p)| + |After(p)|
    ensures Ids(tree) == PathIds(p)
  {
    PlugBalanced(p, Leaf);
    PlugRootBlack(p, Leaf);
    PlugInOrder(p, Leaf);
    PlugIds(p, Leaf);
  }

  lemma SameIds(tree: Tree, p: Path, n: Ptr)
    requires InOrder(tree) == Before(p) + [n] + After(p)
    ensures Ids(tree) == PathIds(p) + {n}
  {
    var t := Branch(Leaf, n, Red, Leaf);
    PlugInOrder(p, t);
    PlugIds(p, t);
    forall x
      ensures x in Ids(tree) <==> x in Ids(Plug(p, t))
    {
      InOrderIds(tree, x);
      InOrderIds(Plug(p, t), x);
    }
  }

  /** Inserting at a right place keeps a sorted sequence sorted. */
  lemma InsertKeepsSorted(less: (Ptr, Ptr) -> bool, o: seq<Ptr>, k: nat, n: Ptr)
    requires Weak(less) && SortedBy(less, o) && k <= |o|
    requires forall i :: 0 <= i < k ==> !less(n, o[i])
    requires forall i :: k <= i < |o| ==> less(n, o[i])
    ensures SortedBy(less, o[..k] + [n] + o[k..])
  {
  }

  // ----- Erasure: trees and colours -----

  /** A black tree that is one black node short of what its path expects. */
  ghost predicate ShortHole(p: Path, t: Tree) {
    p.Step? && t.IsBlack() && Balanced(t) && PathBalanced(p, Bh(t) + 1) && RootBlack(p)
  }

  /** The hole's sibling exists; a red one has two black children and a black parent. */
  lemma ShortHoleSibling(p: Path, t: Tree)
    requires ShortHole(p, t)
    ensures p.sib.Branch? && Balanced(p.sib) && Bh(p.sib) == Bh(t) + 1
    ensures Balanced(p.sib.left) && Balanced(p.sib.right) && Bh(p.sib.left) == Bh(p.sib.right)
    ensures p.sib.color.Red? ==> p.color.Black? && p.sib.left.Branch? && p.sib.right.Branch?
    ensures p.sib.color.Red? ==> p.sib.left.IsBlack() && p.sib.right.IsBlack() && Bh(p.sib.left) == Bh(t) + 1
    ensures p.sib.color.Black? ==> Bh(p.sib.left) == Bh(t)
    ensures PathBalanced(p.up, Bh(t) + 1 + (if p.color.Black? then 1 else 0))
    ensures p.up.Step? ==> RootBlack(p.up)
    ensures p.up.Top? ==> p.color.Black?
    ensures p.color.Red? ==> p.up.HeadBlack()
  {
  }

  /** The path after erasure case 1: the old sibling is above the parent, which is now red. */
  ghost function LowerParent(p: Path): Path
    requires p.Step? && p.sib.Branch?
  {
    Step(Step(p.up, p.sib.id, p.color, p.side, p.sib.Kid(p.side.Flip())), p.id, Red, p.side, p.sib.Kid(p.side))
  }

  lemma LowerParentTree(p: Path, t: Tree)
    requires ShortHole(p, t) && p.sib.Branch? && p.sib.color.Red?
    ensures ShortHole(LowerParent(p), t)
    ensures LowerParent(p).sib.Branch? && LowerParent(p).sib.color.Black?
    ensures InOrder(Plug(LowerParent(p), t)) == InOrder(Plug(p, t))
    ensures PathIds(LowerParent(p)) + Ids(t) == PathIds(p) + Ids(t)
  {
    ShortHoleSibling(p, t);
    var s, f, sib := p.side, p.side.Flip(), p.sib;
    RotateInOrder(p.id, p.color, sib.id, Red, Red, p.color, s, t, sib.Kid(s), sib.Kid(f));
    assert sib == Mk(sib.id, Red, s, sib.Kid(s), sib.Kid(f));
    PlugSameOrder(p.up, Mk(p.id, p.color, s, t, sib), Mk(sib.id, p.color, s, Mk(p.id, Red, s, t, sib.Kid(s)), sib.Kid(f)));
  }

  /** Erasure case 2: recolouring the sibling makes the parent's subtree even. */
  lemma RecolorTree(p: Path, t: Tree)
    requires ShortHole(p, t) && p.sib.Branch? && p.sib.color.Black? && p.sib.left.IsBlack() && p.sib.right.IsBlack()
    ensures var t' := Mk(p.id, Black, p.side, t, Paint(p.sib, Red));
            && Balanced(t') && Bh(t') == Bh(t) + 1
            && InOrder(Plug(p.up, t')) == InOrder(Plug(p, t))
            && PathIds(p.up) + Ids(t') == PathIds(p) + Ids(t)
            && t'.IsBlack() && t'.Root() == p.id
            && (p.color.Black? && p.up.Step? ==> ShortHole(p.up, t'))
            && (p.color.Red? || p.up.Top? ==> PathBalanced(p.up, Bh(t')) && (p.up.Step? ==> RootBlack(p.up)))
  {
    ShortHoleSibling(p, t);
    var t' := Mk(p.id, Black, p.side, t, Paint(p.sib, Red));
    PlugSameOrder(p.up, t', Mk(p.id, p.color, p.side, t, p.sib));
  }

  /** Erasure case 4: `x` takes the parent's place and colour. */
  lemma RaiseSibling(p: Path, t: Tree, x: Ptr, near: Tree, mid: Tree)
    requires ShortHole(p, t) && Balanced(near) && Balanced(mid)
    requires near.IsBlack() && Bh(near) == Bh(t) + 1 && Bh(mid) == Bh(t)
    ensures var t' := Mk(x, p.color, p.side.Flip(), near, Mk(p.id, Black, p.side.Flip(), mid, t));
            && Balanced(t') && PathBalanced(p.up, Bh(t')) && (p.up.HeadBlack() || t'.IsBlack())
            && (if p.up.Top? then t'.IsBlack() else RootBlack(p.up))
  {
    ShortHoleSibling(p, t);
  }

  lemma RaiseSiblingOrder(p: Path, t: Tree, x: Ptr, near: Tree, mid: Tree)
    requires p.Step? && InOrder(p.sib) == InOrder(Mk(x, Black, p.side.Flip(), near, mid))
    ensures var t' := Mk(x, p.color, p.side.Flip(), near, Mk(p.id, Black, p.side.Flip(), mid, t));
            InOrder(Plug(p.up, t')) == InOrder(Plug(p, t))
  {
    var f := p.side.Flip();
    var t' := Mk(x, p.color, f, near, Mk(p.id, Black, f, mid, t));
    var sib' := Mk(x, Black, f, near, mid);
    RotateInOrder(x, p.color, p.id, Black, Black, p.color, f, near, mid, t);
    assert InOrder(t') == InOrder(Mk(p.id, p.color, p.side, t, sib'));
    PlugSameOrder(p.up, t', Mk(p.id, p.color, p.side, t, p.sib));
  }

  /** Erasure case 4 first paints the sibling's far child black. */
  lemma NearPainted(m0: Memory, m: Memory, root: Ptr, p: Path, t: Tree)
    requires Zip(m0, root, p, t) && p.Step? && p.sib.Branch? && p.sib.Kid(p.side.Flip()).Branch?
    requires var x := p.sib.Kid(p.side.Flip()).id; x in m0 && m == m0[x := m0[x].(color := Black)]
    ensures var s, f, sib := p.side, p.side.Flip(), p.sib;
            var near := Paint(sib.Kid(f), Black);
            && Separate(p.up, sib.id, p.id, near, sib.Kid(s), t)
            && HoldsPath(m, root, p.up, p.id)
            && p.id in m && m[p.id] == m0[p.id] && sib.id in m && m[sib.id] == m0[sib.id]
            && Holds(m, sib.Kid(s), sib.id) && Holds(m, near, sib.id) && Holds(m, t, p.id)
  {
    var s, f, sib := p.side, p.side.Flip(), p.sib;
    SiblingPieces(m0, root, p, t);
    assert sib.Kid(f).id in Ids(sib.Kid(f));
    assert Ids(Paint(sib.Kid(f), Black)) == Ids(sib.Kid(f)) && Apart(Paint(sib.Kid(f), Black));
    hide Ids, PathIds, Apart, PathApart, Zip;
    FramePath(m0, m, root, p.up, p.id);
    Frame(m0, m, sib.Kid(s), sib.id);
    Frame(m0, m, t, p.id);
    AdoptPainted(m0, m, sib.Kid(f), sib.id, sib.id, Black);
  }

  /** The sibling after erasure case 3, below its former near child. */
  ghost function FarPiece(p: Path): Tree
    requires p.Step? && p.sib.Branch? && p.sib.Kid(p.side).Branch?
  {
    var s := p.side;
    Mk(p.sib.id, Black, s, p.sib.Kid(s).Kid(s.Flip()), p.sib.Kid(s.Flip()))
  }

  /** The pieces of erasure case 3 before it, `a` being the subtree that moves over. */
  lemma FarPieces(m: Memory, root: Ptr, p: Path, t: Tree)
    requires Zip(m, root, p, t) && ShortHole(p, t) && p.sib.Branch? && p.sib.color.Black?
    requires p.sib.Kid(p.side).Branch? && p.sib.Kid(p.side).color.Red?
    ensures var s, f, sib, q := p.side, p.side.Flip(), p.sib, p.sib.Kid(p.side);
            var a, b, d := q.Kid(f), q.Kid(s), sib.Kid(f);
            && p.id in m && m[p.id] == MkNode(p.up.Head(), p.color, s, t.Root(), sib.id)
            && sib.id in m && m[sib.id] == MkNode(p.id, Black, s, q.id, d.Root())
            && q.id in m && m[q.id] == MkNode(sib.id, Red, s, b.Root(), a.Root())
            && (a.Branch? ==> a.id in m && m[a.id].parent == q.id && m[a.id].color == Black)
            && HoldsPath(m, root, p.up, p.id) && Holds(m, t, p.id) && Holds(m, d, sib.id)
            && Holds(m, a, q.id) && Holds(m, b, q.id) && Apart(a) && (a.Branch? ==> a.id != 0)
  {
    var s, f, sib, q := p.side, p.side.Flip(), p.sib, p.sib.Kid(p.side);
    SiblingPieces(m, root, p, t);
    ShortHoleSibling(p, t);
    assert Apart(q);
  }

  /** They are all apart. */
  lemma FarPiecesApart(p: Path, t: Tree)
    requires ZipApart(p, t) && p.Step? && p.sib.Branch? && p.sib.Kid(p.side).Branch?
    ensures var s, f, sib, q := p.side, p.side.Flip(), p.sib, p.sib.Kid(p.side);
            var a, b, d := q.Kid(f), q.Kid(s), sib.Kid(f);
            && Separate(Step(p.up, p.id, p.color, s, t), q.id, sib.id, b, a, d)
  {
    var s, f, sib, q := p.side, p.side.Flip(), p.sib, p.sib.Kid(p.side);
    var a, b, d := q.Kid(f), q.Kid(s), sib.Kid(f);
    var up' := Step(p.up, p.id, p.color, s, t);
    assert sib == Mk(sib.id, sib.color, s, Mk(q.id, q.color, s, b, a), d);
    assert ZipApart(up', sib) by { StepApart(p.up, p.id, p.color, s, t); }
    SeparateAbove(up', q.id, q.color, sib.id, sib.color, s, b, a, d);
  }

  /** The pieces are different nodes, and the two that are rotated last are separate. */
  lemma FarDistinct(m: Memory, root: Ptr, p: Path, t: Tree)
    requires Zip(m, root, p, t) && p.Step? && p.sib.Branch? && p.sib.Kid(p.side).Branch?
    ensures var s, f, sib, q := p.side, p.side.Flip(), p.sib, p.sib.Kid(p.side);
            var a := q.Kid(f);
            && p.id != sib.id && sib.id != q.id && q.id != p.id && (a.Branch? ==> a.id !in {p.id, sib.id, q.id})
            && Separate(Step(p.up, p.id, p.color, s, t), q.id, sib.id, q.Kid(s), a, sib.Kid(f))
            && Separate(p.up, q.id, p.id, FarPiece(p), q.Kid(s), t)
  {
    FarPiecesApart(p, t);
    FarPiecesAbove(p, t);
    var q := p.sib.Kid(p.side);
    var a := q.Kid(p.side.Flip());
    assert a.Branch? ==> a.id in Ids(a);
  }

  /** What erasure case 3 writes, up to the rotation of case 4. */
  ghost predicate FarWritten(m0: Memory, m: Memory, p: Path)
    requires p.Step? && p.sib.Branch? && p.sib.Kid(p.side).Branch?
  {
    var s, f, sib, q := p.side, p.side.Flip(), p.sib, p.sib.Kid(p.side);
    var a := q.Kid(f);
    && m.Keys == m0.Keys && p.id in m && q.id in m && sib.id in m
    && m[p.id] == m0[p.id].WithKid(f, q.id) && m[q.id] == m0[q.id].WithKid(f, sib.id)
    && m[sib.id] == MkNode(q.id, Black, s, a.Root(), sib.Kid(f).Root())
    && (a.Branch? ==> a.id in m && m[a.id] == m0[a.id].(parent := sib.id))
    && (forall y :: y in m0 && y != p.id && y != q.id && y != sib.id && (a.Branch? ==> y != a.id) ==> m[y] == m0[y])
  }

  /** The pieces are then ready for the rotation of case 4. */
  lemma FarPrepared(m0: Memory, m: Memory, root: Ptr, p: Path, t: Tree)
    requires Zip(m0, root, p, t) && ShortHole(p, t) && p.sib.Branch? && p.sib.color.Black?
    requires p.sib.Kid(p.side).Branch? && p.sib.Kid(p.side).color.Red? && FarWritten(m0, m, p)
    ensures var s, q := p.side, p.sib.Kid(p.side);
            HoldsPath(m, root, p.up, p.id) && Holds(m, q.Kid(s), q.id) && Holds(m, t, p.id)
  {
    var s, f, sib, q := p.side, p.side.Flip(), p.sib, p.sib.Kid(p.side);
    var a := q.Kid(f);
    FarPieces(m0, root, p, t);
    FarPiecesApart(p, t);
    assert a.Branch? ==> a.id in Ids(a);
    hide Mk, Ids, PathIds, Apart, PathApart, Zip, HoldsPath;
    StepApart(p.up, p.id, p.color, s, t);
    FramePath(m0, m, root, p.up, p.id);
    Frame(m0, m, q.Kid(s), q.id);
    Frame(m0, m, t, p.id);
  }

  lemma FarPreparedPiece(m0: Memory, m: Memory, root: Ptr, p: Path, t: Tree)
    requires Zip(m0, root, p, t) && ShortHole(p, t) && p.sib.Branch? && p.sib.color.Black?
    requires p.sib.Kid(p.side).Branch? && p.sib.Kid(p.side).color.Red? && FarWritten(m0, m, p)
    ensures Holds(m, FarPiece(p), p.sib.Kid(p.side).id)
  {
    var s, f, sib, q := p.side, p.side.Flip(), p.sib, p.sib.Kid(p.side);
    var a, d := q.Kid(f), sib.Kid(f);
    FarPieces(m0, root, p, t);
    FarPiecesApart(p, t);
    assert a.Branch? ==> a.id in Ids(a);
    hide Mk, Ids, PathIds, Apart, PathApart, Zip, HoldsPath;
    StepApart(p.up, p.id, p.color, s, t);
    Frame(m0, m, d, sib.id);
    Adopt(m0, m, a, q.id, sib.id);
    HoldsMk(m, sib.id, Black, s, a, d, q.id);
  }

  lemma FarPiecesAbove(p: Path, t: Tree)
    requires ZipApart(p, t) && p.Step? && p.sib.Branch? && p.sib.Kid(p.side).Branch?
    ensures Separate(p.up, p.sib.Kid(p.side).id, p.id, FarPiece(p), p.sib.Kid(p.side).Kid(p.side), t)
  {
    var s, f, sib, q := p.side, p.side.Flip(), p.sib, p.sib.Kid(p.side);
    var a, b, d := q.Kid(f), q.Kid(s), sib.Kid(f);
    FarPiecesApart(p, t);
    hide Mk, Ids, PathIds, Apart, PathApart;
    StepApart(p.up, p.id, p.color, s, t);
    MkApart(sib.id, Black, s, a, d);
  }

  lemma FarPiecesIds(p: Path, t: Tree)
    requires p.Step? && p.sib.Branch? && p.sib.Kid(p.side).Branch?
    ensures var q := p.sib.Kid(p.side);
            {p.id, p.sib.id, q.id} + PathIds(p.up) + Ids(q.left) + Ids(q.right) <= PathIds(p) + Ids(t)
    ensures var a := p.sib.Kid(p.side).Kid(p.side.Flip()); a.Branch? ==> a.id in PathIds(p) + Ids(t)
  {
    var q := p.sib.Kid(p.side);
    assert Ids(q) == Ids(q.left) + {q.id} + Ids(q.right);
    assert Ids(q) <= Ids(p.sib);
  }

  /** Erasure case 4 as a change of trees. */
  lemma RaiseNearTree(p: Path, t: Tree)
    requires ShortHole(p, t) && p.sib.Branch? && p.sib.color.Black?
    requires p.sib.Kid(p.side.Flip()).Branch? && p.sib.Kid(p.side.Flip()).color.Red?
    ensures var f, sib := p.side.Flip(), p.sib;
            var t' := Mk(sib.id, p.color, f, Paint(sib.Kid(f), Black), Mk(p.id, Black, f, sib.Kid(p.side), t));
            && Balanced(t') && PathBalanced(p.up, Bh(t')) && (p.up.HeadBlack() || t'.IsBlack())
            && (if p.up.Top? then t'.IsBlack() else RootBlack(p.up))
            && InOrder(Plug(p.up, t')) == InOrder(Plug(p, t))
  {
    var f, sib := p.side.Flip(), p.sib;
    ShortHoleSibling(p, t);
    RaiseSibling(p, t, sib.id, Paint(sib.Kid(f), Black), sib.Kid(p.side));
    RaiseSiblingOrder(p, t, sib.id, Paint(sib.Kid(f), Black), sib.Kid(p.side));
  }

  /** Erasure cases 3 and 4 as a change of trees. */
  lemma RaiseFarTree(p: Path, t: Tree)
    requires ShortHole(p, t) && p.sib.Branch? && p.sib.color.Black? && p.sib.Kid(p.side.Flip()).IsBlack()
    requires p.sib.Kid(p.side).Branch? && p.sib.Kid(p.side).color.Red?
    ensures var s, f, q := p.side, p.side.Flip(), p.sib.Kid(p.side);
            var t' := Mk(q.id, p.color, f, FarPiece(p), Mk(p.id, Black, f, q.Kid(s), t));
            && Balanced(t') && PathBalanced(p.up, Bh(t')) && (p.up.HeadBlack() || t'.IsBlack())
            && (if p.up.Top? then t'.IsBlack() else RootBlack(p.up))
            && InOrder(Plug(p.up, t')) == InOrder(Plug(p, t))
  {
    var s, f, sib, q := p.side, p.side.Flip(), p.sib, p.sib.Kid(p.side);
    ShortHoleSibling(p, t);
    RaiseSibling(p, t, q.id, FarPiece(p), q.Kid(s));
    assert sib == Mk(sib.id, Black, s, Mk(q.id, Red, s, q.Kid(s), q.Kid(f)), sib.Kid(f));
    RotateInOrder(q.id, Red, sib.id, Black, Red, Black, s, q.Kid(s), q.Kid(f), sib.Kid(f));
    assert Mk(q.id, Red, s, q.Kid(s), Mk(sib.id, Black, s, q.Kid(f), sib.Kid(f))) == Mk(q.id, Red, f, FarPiece(p), q.Kid(s));
    RaiseSiblingOrder(p, t, q.id, FarPiece(p), q.Kid(s));
  }

  /** What the pointers around a short hole tell. */
  lemma SiblingFacts(m: Memory, root: Ptr, p: Path, t: Tree)
    requires Zip(m, root, p, t) && ShortHole(p, t)
    ensures p.Step? && p.sib.Branch? && p.id in m && p.sib.id in m
    ensures m[p.id].Kid(p.side.Flip()) == p.sib.id && m[p.sib.id].color == p.sib.color
    ensures p.side == if t.Root() != m[p.id].right then Left else Right
    ensures forall s: Side :: m[p.sib.id].Kid(s) == p.sib.Kid(s).Root()
    ensures forall s: Side :: var k := p.sib.Kid(s).Root();
                              if k == 0 then p.sib.Kid(s).Leaf? else k in m && m[k].color == p.sib.Kid(s).color
  {
    ShortHoleSibling(p, t);
    SiblingPieces(m, root, p, t);
    assert Apart(p.sib.left) && Apart(p.sib.right);
  }

  lemma ShortHeads(m: Memory, root: Ptr, p: Path, t: Tree)
    requires Zip(m, root, p, t) && ShortHole(p, t) && t.Branch?
    ensures p.Step? && t.id in m && m[t.id].parent == p.id
  {
  }

  // ----- Erasure of a node with two children -----

  lemma BelowRoot(w: Path, v: Tree)
    requires v.Branch? && Apart(Plug(w, v))
    ensures w.Top? <==> v.id == Plug(w, v).Root()
    ensures w.Step? ==> Bottom(w) == Plug(w, v).Root()
  {
    PlugApart(w, v);
    if w.Step? { BottomIsRoot(w, v); }
  }

  /** The nodes that the swap writes are different from one another. */
  lemma SwapApart(w: Path, q: Path, v: Tree)
    requires q.Step? && q.sib.Branch? && v.Branch? && ZipApart(Join(w, q), v)
    ensures v.id != q.id && v.id != q.sib.id && q.id != q.sib.id
    ensures w.Step? ==> w.id !in {v.id, q.id, q.sib.id} && Bottom(w) !in {v.id, q.id, q.sib.id}
    ensures q.up.Step? ==> q.up.id !in {v.id, q.id, q.sib.id}
    ensures q.up.Step? && w.Step? ==> q.up.id !in {w.id, Bottom(w)}
    ensures v.right.Branch? ==> v.right.id !in {0, v.id, q.id, q.sib.id}
    ensures v.right.Branch? && w.Step? ==> v.right.id !in {w.id, Bottom(w)}
    ensures v.right.Branch? && q.up.Step? ==> v.right.id != q.up.id
    ensures q.up.Top? <==> q.up.Head() == 0
  {
    JoinApart(w, q);
    if w.Step? { BottomIsRoot(w, Leaf); }
    assert Apart(v.right) && (v.right.Branch? ==> v.right.id in Ids(v.right));
    assert q.sib.id in Ids(q.sib) && (q.up.Step? ==> q.up.id in PathIds(q.up));
    assert w.Step? ==> w.id in PathIds(w);
    assert v.id in Ids(v) && Ids(v.right) <= Ids(v) && v.id !in Ids(v.right) && Ids(v) !! PathIds(w) && Ids(v) !! PathIds(q);
    assert q.id in PathIds(q) && Ids(q.sib) <= PathIds(q) && PathIds(q.up) <= PathIds(q);
    assert PathApart(q.up) && q.id !in PathIds(q.up) && q.id !in Ids(q.sib) && Ids(q.sib) !! PathIds(q.up);
    assert PathIds(w) !! PathIds(q);
    hide Ids, PathIds, Apart, PathApart, Join;
  }

  /** They are in memory, linked as the paths say. */
  lemma SwapLinks(m: Memory, root: Ptr, w: Path, q: Path, v: Tree)
    requires q.Step? && q.sib.Branch? && v.Branch? && Zip(m, root, Join(w, q), v)
    ensures q.sib.id in m && v.id in m && q.id in m
    ensures w.Step? ==> w.id in m && Bottom(w) in m
    ensures q.up.Step? ==> q.up.id in m
    ensures q.up.Step? ==> SideOf(m[q.up.id], q.id) == q.up.side
    ensures m[v.id].left == v.left.Root() && m[v.id].right == v.right.Root()
    ensures v.right.Branch? ==> v.right.id in m
    ensures Holds(m, v.right, v.id) && m[v.id].color == v.color
  {
    assert Holds(m, v, Join(w, q).Head()) && Holds(m, v.right, v.id);
    var child := if w.Top? then v.id else Bottom(w);
    if w.Step? { JoinHolds(m, root, w, q, v.id); }
    assert HoldsPath(m, root, q, child);
    assert PathApart(q) by { JoinApart(w, q); }
    hide Zip, ZipApart, Join;
    BaseLinks(m, root, q, child);
  }

  lemma BaseLinks(m: Memory, root: Ptr, q: Path, child: Ptr)
    requires q.Step? && q.sib.Branch? && HoldsPath(m, root, q, child) && PathApart(q)
    ensures q.id in m && q.sib.id in m
    ensures q.up.Step? ==> q.up.id in m && SideOf(m[q.up.id], q.id) == q.up.side
  {
    assert HoldsPath(m, root, q.up, q.id) && PathApart(q.up);
    if q.up.Step? && q.up.sib.Branch? {
      assert q.up.sib.id in PathIds(q.up);
    }
  }

  lemma {:induction false} JoinHolds(m: Memory, root: Ptr, w: Path, q: Path, child: Ptr)
    requires w.Step? && HoldsPath(m, root, Join(w, q), child)
    ensures HoldsPath(m, root, q, Bottom(w)) && Bottom(w) in m && w.id in m
  {
    assert HoldsPath(m, root, Join(w.up, q), w.id);
    if w.up.Step? { JoinHolds(m, root, w.up, q, w.id); }
  }

  /** What the swap of `q.id` with its successor `v.id` writes. */
  ghost predicate Swapped(m0: Memory, m: Memory, root: Ptr, root': Ptr, w: Path, q: Path, v: Tree)
    requires q.Step? && q.sib.Branch? && v.Branch?
  {
    var succ, e := v.id, v.right;
    && m.Keys == m0.Keys && succ in m && q.sib.id in m
    && m[succ] == Node(q.up.Head(), q.color, q.sib.id, if w.Top? then e.Root() else Bottom(w))
    && (q.up.Top? ==> root' == succ)
    && (q.up.Step? ==> root' == root && q.up.id in m && m[q.up.id] == m0[q.up.id].WithKid(q.up.side, succ))
    && m[q.sib.id] == m0[q.sib.id].(parent := succ)
    && (w.Step? ==> w.id in m && m[w.id] == m0[w.id].(left := e.Root(),
                                                     parent := if w.id == Bottom(w) then succ else m0[w.id].parent))
    && (w.Step? && w.id != Bottom(w) ==> Bottom(w) in m && m[Bottom(w)] == m0[Bottom(w)].(parent := succ))
    && (e.Branch? ==> e.id in m && m[e.id] == m0[e.id].(parent := if w.Top? then succ else w.id, color := Black))
    && (forall y :: y in m0 && !SwapTouches(y, w, q, v) ==> m[y] == m0[y])
  }

  ghost predicate SwapTouches(y: Ptr, w: Path, q: Path, v: Tree)
    requires q.Step? && q.sib.Branch? && v.Branch?
  {
    || y == v.id || y == q.sib.id || (q.up.Step? && y == q.up.id) || (v.right.Branch? && y == v.right.id)
    || (w.Step? && (y == w.id || y == Bottom(w)))
  }

  lemma SwappedMemory(m0: Memory, m: Memory, root: Ptr, root': Ptr, w: Path, q: Path, v: Tree)
    requires q.Step? && q.side.Right? && q.sib.Branch? && v.Branch? && v.left.Leaf? && AllLeft(w)
    requires Zip(m0, root, Join(w, q), v) && Swapped(m0, m, root, root', w, q, v)
    ensures Zip(m, root', Join(w, q.(id := v.id)), Paint(v.right, Black))
  {
    var succ, e := v.id, v.right;
    var q' := q.(id := succ);
    JoinApart(w, q);
    JoinApart(w, q');
    SwapApart(w, q, v);
    SwapLinks(m0, root, w, q, v);
    assert Holds(m0, e, succ) && Apart(e) && succ !in Ids(e);
    SwappedChild(m0, m, root, root', w, q, v);
    if w.Top? {
      SwappedIsReplaced(m0, m, m0, root, root', w, q, v);
      ReplacedBase(m0, m, root, root', q, succ, succ, e.Root());
    } else {
      var m1 := m0[w.id := m0[w.id].(left := e.Root())];
      Reroute(m0, m1, root, root, Join(w, q), succ, e.Root());
      SwappedIsReplaced(m0, m, m1, root, root', w, q, v);
      ReplacedPath(m1, m, root, root', w, q, succ, e.Root());
    }
  }

  lemma SwapIds(w: Path, q: Path, v: Tree)
    requires q.Step? && q.sib.Branch? && v.Branch?
    ensures forall y :: SwapTouches(y, w, q, v) ==> y in PathIds(Join(w, q)) + Ids(v)
  {
    JoinApart(w, q);
    if w.Step? { BottomIsRoot(w, Leaf); }
    assert q.sib.id in PathIds(q) && (q.up.Step? ==> q.up.id in PathIds(q)) && (w.Step? ==> w.id in PathIds(w));
    assert v.id in Ids(v) && (v.right.Branch? ==> v.right.id in Ids(v));
  }

  lemma SwappedChild(m0: Memory, m: Memory, root: Ptr, root': Ptr, w: Path, q: Path, v: Tree)
    requires q.Step? && q.sib.Branch? && v.Branch? && Zip(m0, root, Join(w, q), v) && Swapped(m0, m, root, root', w, q, v)
    ensures Holds(m, Paint(v.right, Black), Join(w, q.(id := v.id)).Head())
    ensures Ids(Paint(v.right, Black)) == Ids(v.right) && Apart(Paint(v.right, Black))
  {
    var e := v.right;
    JoinApart(w, q);
    assert Holds(m0, e, v.id) && Apart(e) && v.id !in Ids(e) && Ids(e) <= Ids(v);
    assert q.sib.id in PathIds(q) && (q.up.Step? ==> q.up.id in PathIds(q));
    if w.Step? { BottomIsRoot(w, Leaf); }
    AdoptPainted(m0, m, e, v.id, if w.Top? then v.id else w.id, Black);
  }

  lemma SwappedIsReplaced(m0: Memory, m: Memory, m1: Memory, root: Ptr, root': Ptr, w: Path, q: Path, v: Tree)
    requires q.Step? && q.side.Right? && q.sib.Branch? && v.Branch? && Zip(m0, root, Join(w, q), v)
    requires Swapped(m0, m, root, root', w, q, v)
    requires w.Top? ==> m1 == m0
    requires w.Step? ==> w.id in m0 && m1 == m0[w.id := m0[w.id].(left := v.right.Root())]
    ensures Replaced(m1, m, root, root', w, q, v.id, v.right.Root())
  {
    SwapApart(w, q, v);
    SwapLinks(m0, root, w, q, v);
    JoinApart(w, q);
    assert v.right.Branch? ==> v.right.id in Ids(v);
    forall y | y in m && y in PathIds(w) + PathIds(q) && !Rewritten(y, w, q)
      ensures m[y] == m1[y]
    {
      assert (w.Step? && y == w.id) || !SwapTouches(y, w, q, v);
    }
  }

  /** `q` around `u` is `p` around `t` without the root of `t`. */
  ghost predicate WithoutRoot(p: Path, t: Tree, q: Path, u: Tree)
    requires t.Branch?
  {
    Before(q) + InOrder(u) + After(q) == Before(p) + InOrder(t.left) + InOrder(t.right) + After(p)
  }

  lemma SameInOrder(t: Tree, t': Tree)
    requires InOrder(t) == InOrder(t')
    ensures Ids(t) == Ids(t')
  {
    forall x
      ensures x in Ids(t) <==> x in Ids(t')
    {
      InOrderIds(t, x);
      InOrderIds(t', x);
    }
  }

  lemma NoHole(q: Path)
    ensures Before(q) + InOrder(Leaf) + After(q) == Before(q) + After(q)
    ensures PathIds(q) + Ids(Leaf) == PathIds(q)
  {
    assert Before(q) + [] == Before(q);
  }

  /** A node with an empty side: what replaces it, and what that does to the colours. */
  lemma OneChild(p: Path, t: Tree, s: Side)
    requires RedBlack(Plug(p, t)) && t.Branch? && t.Kid(s).Leaf?
    ensures var u := t.Kid(s.Flip());
            && WithoutRoot(p, t, p, Paint(u, t.color))
            && (u.Branch? ==> RedBlack(Plug(p, Paint(u, t.color))))
            && (u.Leaf? && (t.color.Red? || p.Top?) ==> RedBlack(Plug(p, Leaf)))
            && (u.Leaf? && t.color.Black? && p.Step? ==> ShortHole(p, Leaf))
  {
    var u := Paint(t.Kid(s.Flip()), t.color);
    assert WithoutRoot(p, t, p, u) by {
      assert InOrder(u) == InOrder(t.Kid(s.Flip()));
      assert Before(p) + [] == Before(p);
      assert Before(p) + InOrder(u) + [] == Before(p) + InOrder(u);
    }
    OneChildColors(p, t, s);
  }

  lemma OneChildColors(p: Path, t: Tree, s: Side)
    requires RedBlack(Plug(p, t)) && t.Branch? && t.Kid(s).Leaf?
    ensures var u := t.Kid(s.Flip());
            && (u.Branch? ==> RedBlack(Plug(p, Paint(u, t.color))))
            && (u.Leaf? && (t.color.Red? || p.Top?) ==> RedBlack(Plug(p, Leaf)))
            && (u.Leaf? && t.color.Black? && p.Step? ==> ShortHole(p, Leaf))
  {
    hide Balanced, PathBalanced, RootBlack, Bh, Plug;
    PlugBalanced(p, t);
    PlugRootBlack(p, t);
    OnlyChild(t, s);
    TopBalanced(0);
    var u := Paint(t.Kid(s.Flip()), t.color);
    PlugBalanced(p, u);
    PlugRootBlack(p, u);
  }

  lemma TopBalanced(h: nat)
    ensures PathBalanced(Top, h)
  {
  }

  /** An only child is red under black, so that it can take its parent's place and colour. */
  lemma OnlyChild(t: Tree, s: Side)
    requires Balanced(t) && t.Branch? && t.Kid(s).Leaf?
    ensures var k := t.Kid(s.Flip());
            var u := Paint(k, t.color);
            && Balanced(u) && (k.Branch? ==> t.color.Black? && u.Branch? && Bh(u) == Bh(t))
            && (k.Leaf? ==> u == Leaf && Bh(u) == 0 && Bh(t) == if t.color.Black? then 1 else 0)
  {
    var k := t.Kid(s.Flip());
    assert Bh(k) == 0 && Balanced(k);
    assert k.Branch? ==> k.color.Red? && t.color.Black?;
  }

  lemma Leftmost(w: Path, v: Tree)
    requires AllLeft(w) && v.Branch? && v.left.Leaf?
    ensures InOrder(Plug(w, v)) != [] && InOrder(Plug(w, v))[0] == v.id
  {
    hide Plug, Before, After;
    AllLeftBefore(w);
    PlugInOrder(w, v);
  }

  /** Swapping in the successor: colours. */
  lemma SwapColors(p: Path, t: Tree, w: Path, v: Tree)
    requires RedBlack(Plug(p, t)) && t.Branch? && t.right == Plug(w, v) && v.Branch? && v.left.Leaf?
    ensures var q, u := Join(w, Step(p, v.id, t.color, Right, t.left)), Paint(v.right, Black);
            && (v.right.Branch? || v.color.Red? ==> RedBlack(Plug(q, u)))
            && (v.right.Leaf? && v.color.Black? ==> ShortHole(q, Leaf))
  {
    var b := Step(p, t.id, t.color, Right, t.left);
    var q, u := Join(w, b.(id := v.id)), Paint(v.right, Black);
    JoinPlug(w, b, v);
    assert Plug(Join(w, b), v) == Plug(p, t);
    PlugBalanced(Join(w, b), v);
    PlugRootBlack(Join(w, b), v);
    JoinRename(w, b, v.id, Bh(v));
    assert Join(w, b).Step? && q.Step?;
    assert v.right.Branch? ==> v.color.Black? && Balanced(u) && Bh(u) == Bh(v);
    assert v.right.Leaf? ==> u == Leaf && Bh(v) == if v.color.Black? then 1 else 0;
    hide Plug, Join, Balanced, PathBalanced, RootBlack, Bh;
    PlugBalanced(q, u);
    PlugRootBlack(q, u);
  }

  /** Swapping in the successor: order. */
  lemma SwapOrder(p: Path, t: Tree, w: Path, v: Tree)
    requires t.Branch? && t.right == Plug(w, v) && AllLeft(w) && v.Branch? && v.left.Leaf?
    ensures WithoutRoot(p, t, Join(w, Step(p, v.id, t.color, Right, t.left)), Paint(v.right, Black))
  {
    var b := Step(p, v.id, t.color, Right, t.left);
    var e := InOrder(v.right);
    AllLeftBefore(w);
    PlugInOrder(w, v);
    JoinInOrder(w, b);
    assert InOrder(Paint(v.right, Black)) == e;
    assert InOrder(v) == [v.id] + e;
    Shuffle(Before(p), InOrder(t.left), [v.id], e, After(w), After(p));
  }

  lemma Shuffle(a: seq<Ptr>, b: seq<Ptr>, c: seq<Ptr>, d: seq<Ptr>, e: seq<Ptr>, f: seq<Ptr>)
    ensures ((a + b + c) + []) + d + (e + f) == a + b + ([] + (c + d) + e) + f
  {
  }

  lemma SwapNewIds(w: Path, q: Path, v: Tree)
    requires q.Step? && v.Branch? && v.left.Leaf?
    ensures PathIds(Join(w, q)) + Ids(v) <= PathIds(Join(w, q.(id := v.id))) + Ids(Paint(v.right, Black)) + {q.id}
  {
    JoinApart(w, q);
    JoinApart(w, q.(id := v.id));
  }

  lemma FocusTree(tree: Tree, x: Ptr)
    requires x in Ids(tree)
    ensures var (p, t) := Focus(tree, Top, x); Plug(p, t) == tree
  {
  }

  /** Where the root of `t` stands in the whole sequence, and the sequence without it. */
  lemma CutAt(p: Path, t: Tree)
    requires t.Branch?
    ensures var o, k := InOrder(Plug(p, t)), |Before(p)| + |InOrder(t.left)|;
            && k < |o| && o[k] == t.id
            && Before(p) + InOrder(t.left) + InOrder(t.right) + After(p) == o[..k] + o[k + 1..]
  {
    hide *;
    PlugInOrder(p, t);
    InOrderBranch(t);
    var o := InOrder(Plug(p, t));
    CutSeq(o, Before(p), InOrder(t.left), t.id, InOrder(t.right), After(p));
  }

  lemma InOrderBranch(t: Tree)
    requires t.Branch?
    ensures InOrder(t) == InOrder(t.left) + [t.id] + InOrder(t.right)
  {
  }

  /** A node is at one place only. */
  lemma PlaceOf(t: Tree, k: nat)
    requires Apart(t) && k < |InOrder(t)|
    ensures forall i :: 0 <= i < |InOrder(t)| && InOrder(t)[i] == InOrder(t)[k] ==> i == k
  {
    forall i | 0 <= i < |InOrder(t)| && i != k
      ensures InOrder(t)[i] != InOrder(t)[k]
    {
      if i < k { InOrderOnce(t, i, k); } else { InOrderOnce(t, k, i); }
    }
  }

  lemma CutSeq(o: seq<Ptr>, a: seq<Ptr>, b: seq<Ptr>, x: Ptr, c: seq<Ptr>, d: seq<Ptr>)
    requires o == a + (b + [x] + c) + d
    ensures var k := |a| + |b|; k < |o| && o[k] == x && a + b + c + d == o[..k] + o[k + 1..]
  {
    var k := |a| + |b|;
    assert o[..k] == a + b;
    assert o[k + 1..] == c + d;
  }

  // ----- Iteration and search -----

  /** The node after place `k`, or before it; null at the end. */
  function Beside(o: seq<Ptr>, k: nat, s: Side): Ptr
    requires k < |o|
  {
    if s.Right? then (if k + 1 < |o| then o[k + 1] else 0) else (if k > 0 then o[k - 1] else 0)
  }

  /** The first node above a hole that is after it, or the last that is before it; null if there is none. */
  ghost function NextUp(p: Path, s: Side): Ptr {
    match p
    case Top => 0
    case Step(up, x, _, d, _) => if d == s then NextUp(up, s) else x
  }

  lemma {:induction false} NextUpPlace(p: Path, s: Side)
    ensures NextUp(p, s) == if s.Right? then (if After(p) == [] then 0 else After(p)[0])
                            else (if Before(p) == [] then 0 else Before(p)[|Before(p)| - 1])
  {
    if p.Step? { NextUpPlace(p.up, s); }
  }

  /** What is beside a node: the nearest end of its subtree on that side, or else the next one above. */
  lemma BesideAt(p: Path, t: Tree, s: Side)
    requires t.Branch?
    ensures var o, k := InOrder(Plug(p, t)), |Before(p)| + |InOrder(t.left)|;
            && k < |o| && o[k] == t.id
            && Beside(o, k, s) == if InOrder(t.Kid(s)) != [] then OuterEnd(t.Kid(s), s.Flip()) else NextUp(p, s)
  {
    hide Plug, InOrder, Before, After, NextUp;
    PlugInOrder(p, t);
    InOrderBranch(t);
    NextUpPlace(p, s);
  }

  lemma FocusRoot(m: Memory, root: Ptr, tree: Tree, x: Ptr)
    requires Rep(m, root, tree) && x in Ids(tree)
    ensures var (p, t) := Focus(tree, Top, x); Zip(m, root, p, t) && Plug(p, t) == tree && t.Branch? && t.id == x
  {
    var (p, t) := Focus(tree, Top, x);
    ZipIsRep(m, root, p, t);
  }

  ghost function FocusAt(m: Memory, root: Ptr, tree: Tree, x: Ptr): (f: (Path, Tree))
    requires Rep(m, root, tree) && x in Ids(tree)
    ensures Zip(m, root, f.0, f.1) && Plug(f.0, f.1) == tree && f.1.Branch? && f.1.id == x
  {
    FocusRoot(m, root, tree, x);
    Focus(tree, Top, x)
  }

  lemma KidFacts(m: Memory, root: Ptr, p: Path, t: Tree, s: Side)
    requires Zip(m, root, p, t) && t.Branch?
    ensures t.id in m && m[t.id].Kid(s) == t.Kid(s).Root()
    ensures t.Kid(s).Branch? ==> t.Kid(s).id != 0 && InOrder(t.Kid(s)) != []
                                 && Zip(m, root, Step(p, t.id, t.color, s, t.Kid(s.Flip())), t.Kid(s))
    ensures t.Kid(s).Leaf? ==> InOrder(t.Kid(s)) == []
  {
    assert t == Mk(t.id, t.color, s, t.Kid(s), t.Kid(s.Flip())) && Apart(t.Kid(s));
    ZipUp(m, root, p, t.id, t.color, s, t.Kid(s.Flip()), t.Kid(s));
  }

  ghost function OuterEnd(t: Tree, s: Side): Ptr
    requires InOrder(t) != []
  {
    InOrder(t)[if s.Left? then 0 else |InOrder(t)| - 1]
  }

  /** On which side of its parent a node hangs. */
  lemma SideFacts(m: Memory, root: Ptr, p: Path, t: Tree)
    requires Zip(m, root, p, t) && t.Branch? && p.Step?
    ensures p.id in m && forall s: Side :: m[p.id].Kid(s) == t.id <==> s == p.side
  {
    assert p.sib.Branch? ==> p.sib.id in Ids(p.sib);
    assert t.id in Ids(t) && t.id != 0;
  }

  /** The signs of `cmp` fall along the sequence: positive, then zero, then negative. */
  ghost predicate Agrees(cmp: Ptr -> int, o: seq<Ptr>) {
    forall i, j :: 0 <= i < j < |o| ==> (cmp(o[i]) < 0 ==> cmp(o[j]) < 0) && (cmp(o[j]) > 0 ==> cmp(o[i]) > 0)
  }

  /** In sequence `o`, what `cmp` accepts can only be between `lo` and `hi`. */
  ghost predicate NoneOutside(cmp: Ptr -> int, o: seq<Ptr>, lo: int, hi: int) {
    forall i :: 0 <= i < |o| && (i < lo || hi <= i) ==> cmp(o[i]) != 0
  }

  lemma FoundNone(cmp: Ptr -> int, tree: Tree, k: nat)
    requires NoneOutside(cmp, InOrder(tree), k, k)
    ensures forall x :: x in Ids(tree) ==> cmp(x) != 0
  {
    forall x | x in Ids(tree)
      ensures cmp(x) != 0
    {
      InOrderIds(tree, x);
    }
  }
}
