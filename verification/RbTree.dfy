/**
 The red-black tree of lib/rbtree.cc and its headers: insertion, erasure and the
 iterators, as pointer code over the node memory.
 */
module RbTree {
  import opened RbShape
  import opened RbMemory
  import opened RbCases

  class Root {
    var node: Ptr
    var mem: Memory
    /** The tree that the memory holds. */
    ghost var tree: Tree

    ghost predicate Valid()
      reads this
    {
      Rep(mem, node, tree) && RedBlack(tree)
    }

    constructor (m: Memory)
      ensures Valid() && tree == Leaf && mem == m
    {
      node, mem, tree := 0, m, Leaf;
    }

    /** `__rb_change_child`. */
    method ChangeChild(old_: Ptr, new_: Ptr, parent: Ptr)
      requires parent != 0 ==> parent in mem
      modifies this
      ensures tree == old(tree)
      ensures parent == 0 ==> node == new_ && mem == old(mem)
      ensures parent != 0 ==> node == old(node)
      ensures parent != 0 ==> mem == old(mem)[parent := old(mem)[parent].WithKid(SideOf(old(mem)[parent], old_), new_)]
    {
      if parent != 0 {
        if mem[parent].left == old_ {
          mem := mem[parent := mem[parent].(left := new_)];
        } else {
          mem := mem[parent := mem[parent].(right := new_)];
        }
      } else {
        node := new_;
      }
    }

    /** `__rb_rotate_set_parents`: `new_` takes the place and colour of `old_`, which goes below it. */
    method RotateSetParents(old_: Ptr, new_: Ptr, color: Color, ghost up: Path)
      requires old_ in mem && new_ in mem && old_ != new_ && old_ != 0
      requires mem[old_].parent == up.Head()
      requires HoldsPath(mem, node, up, old_) && PathApart(up)
      requires old_ !in PathIds(up) && new_ !in PathIds(up)
      modifies this
      ensures tree == old(tree)
      ensures HoldsPath(mem, node, up, new_)
      ensures mem.Keys == old(mem.Keys)
      ensures mem[new_] == old(mem)[new_].(parent := old(mem)[old_].parent, color := old(mem)[old_].color)
      ensures mem[old_] == old(mem)[old_].(parent := new_, color := color)
      ensures forall x :: x in mem && x != old_ && x != new_ && x !in PathIds(up) ==> mem[x] == old(mem)[x]
    {
      ghost var m0, r0 := mem, node;
      var parent := mem[old_].parent;
      mem := mem[new_ := mem[new_].(parent := mem[old_].parent, color := mem[old_].color)];
      mem := mem[old_ := mem[old_].(parent := new_, color := color)];
      ChangeChild(old_, new_, parent);
      Reroute(m0, mem, r0, node, up, old_, new_);
    }

    /** Insertion case 1: the uncle is red; colours flip and the work moves up two levels. */
    method FlipUncle(parent: Ptr, g: Ptr, uncle: Ptr, ghost up: Path, ghost s: Side, ghost par: Tree, ghost un: Tree)
      returns (next: Ptr, ghost t': Tree)
      requires Zip(mem, node, up, Mk(g, Black, s, par, un))
      requires par.Branch? && par.id == parent && un.Branch? && un.id == uncle && un.color.Red?
      modifies this
      ensures tree == old(tree) && node == old(node)
      ensures t' == Mk(g, Red, s, Paint(par, Black), Paint(un, Black))
      ensures Zip(mem, node, up, t')
      ensures next == up.Head()
      ensures mem.Keys == old(mem.Keys)
      ensures forall y :: y in mem && y != parent && y != g && y != uncle ==> mem[y] == old(mem)[y]
    {
      ghost var m0 := mem;
      assert Holds(mem, par, g) && Holds(mem, un, g) && parent != uncle && parent != g && uncle != g by {
        MkApart(g, Black, s, par, un);
      }
      hide Apart, PathApart, PathIds, HoldsPath, Holds, Ids, Mk;
      mem := mem[uncle := mem[uncle].(parent := g, color := Black)];
      mem := mem[parent := mem[parent].(parent := g, color := Black)];
      next := mem[g].parent;
      mem := mem[g := mem[g].(parent := next, color := Red)];
      t' := Mk(g, Red, s, Paint(par, Black), Paint(un, Black));
      FlippedMemory(m0, mem, node, up, g, s, par, un);
    }

    /** The child pointers of a rotation: `g` takes the inner child of `x`, and `x` takes `g`. */
    method MoveKids(x: Ptr, g: Ptr, s: Side, tmp: Ptr, paint: bool)
      requires x in mem && g in mem && x != g && tmp != x && tmp != g && (tmp != 0 ==> tmp in mem)
      modifies this
      ensures tree == old(tree) && node == old(node) && mem.Keys == old(mem.Keys)
      ensures mem[g] == old(mem)[g].WithKid(s, tmp) && mem[x] == old(mem)[x].WithKid(s.Flip(), g)
      ensures tmp != 0 ==>
        mem[tmp] == old(mem)[tmp].(parent := g, color := if paint then Black else old(mem)[tmp].color)
      ensures forall y :: y in mem && y != x && y != g && (y == tmp ==> y == 0) ==> mem[y] == old(mem)[y]
    {
      mem := mem[g := mem[g].WithKid(s, tmp)];
      mem := mem[x := mem[x].WithKid(s.Flip(), g)];
      if tmp != 0 {
        mem := mem[tmp := mem[tmp].(parent := g, color := if paint then Black else mem[tmp].color)];
      }
    }

    /**
     The rotation that ends insertion case 3 and erasure cases 1 and 4: `x`, on side `s` of `g`,
     comes up in the place of `g`, takes its colour, and gives it the subtree `mid`.
     */
    method Rotate(x: Ptr, g: Ptr, s: Side, color: Color, paint: bool,
                  ghost up: Path, ghost near: Tree, ghost mid: Tree, ghost far: Tree)
      requires Separate(up, x, g, near, mid, far)
      requires HoldsPath(mem, node, up, g)
      requires g in mem && mem[g].parent == up.Head() && mem[g].Kid(s.Flip()) == far.Root()
      requires x in mem && mem[x].Kid(s) == near.Root() && mem[x].Kid(s.Flip()) == mid.Root()
      requires Holds(mem, near, x) && Holds(mem, mid, x) && Holds(mem, far, g) && (paint ==> mid.IsBlack())
      modifies this
      ensures tree == old(tree)
      ensures Zip(mem, node, up, Mk(x, old(mem)[g].color, s, near, Mk(g, color, s, mid, far)))
      ensures mem.Keys == old(mem.Keys)
      ensures forall y :: y in mem && y != x && y != g && y !in PathIds(up) && y !in Ids(mid) ==> mem[y] == old(mem)[y]
    {
      ghost var m0, cg := mem, mem[g].color;
      assert x != g && g != 0 && x !in PathIds(up) && g !in PathIds(up) && PathApart(up);
      assert Ids(mid) !! PathIds(up) && x !in Ids(mid) && g !in Ids(mid);
      var tmp := mem[x].Kid(s.Flip());
      assert tmp != 0 ==> mid.Branch? && tmp in mem && tmp in Ids(mid);
      assert mid.Branch? && paint ==> mem[tmp].color == Black;
      assert tmp != x && tmp != g;
      hide Separate, Mk, Ids, Apart, PathApart, PathIds, Holds, HoldsPath;
      MoveKids(x, g, s, tmp, paint);
      FramePath(m0, mem, node, up, g);
      RotateSetParents(g, x, color, up);
      RotatedMemory(m0, mem, node, up, x, cg, g, color, s, near, mid, far);
    }

    /** Insertion case 2: `n`, with children `a` and `b`, is on the far side of `parent`; rotate it above `parent`. */
    method RotateParent(n: Ptr, parent: Ptr, s: Side, ghost up: Path, ghost near: Tree, ghost a: Tree, ghost b: Tree)
      requires Separate(up, n, parent, near, a, b)
      requires parent in mem && mem[parent].Kid(s) == near.Root()
      requires n in mem && mem[n].Kid(s) == a.Root() && mem[n].Kid(s.Flip()) == b.Root()
      requires Holds(mem, near, parent) && Holds(mem, a, n) && Holds(mem, b, n) && a.IsBlack()
      modifies this
      ensures tree == old(tree) && node == old(node)
      ensures n in mem && mem[n].Kid(s) == parent && mem[n].Kid(s.Flip()) == b.Root()
      ensures Holds(mem, Mk(parent, Red, s, near, a), n) && Holds(mem, b, n)
      ensures mem.Keys == old(mem.Keys)
      ensures forall y :: y in mem && y != parent && y != n && y !in Ids(a) ==> mem[y] == old(mem)[y]
    {
      ghost var m0 := mem;
      var tmp := mem[n].Kid(s);
      assert tmp != 0 ==> a.Branch? && tmp in mem && tmp in Ids(a) && mem[tmp].color == Black;
      hide Ids, Apart;
      MoveKids(n, parent, s.Flip(), tmp, true);
      mem := mem[parent := mem[parent].(parent := n, color := Red)];
      Frame(m0, mem, near, parent);
      Adopt(m0, mem, a, n, parent);
      Frame(m0, mem, b, n);
    }

    /** Insertion case 3 alone: `n` is on the same side of `parent` as `parent` is of `g`. */
    method InsertNear(parent: Ptr, g: Ptr, s: Side, ghost up: Path, ghost un: Tree, ghost sib: Tree, ghost t: Tree)
      requires Zip(mem, node, Step(Step(up, g, Black, s, un), parent, Red, s, sib), t)
      requires sib.IsBlack()
      modifies this
      ensures tree == old(tree)
      ensures Zip(mem, node, up, Mk(parent, Black, s, t, Mk(g, Red, s, sib, un)))
      ensures mem.Keys == old(mem.Keys)
      ensures forall y :: y in mem && y != parent && y != g && y !in PathIds(up) && y !in Ids(sib) ==> mem[y] == old(mem)[y]
    {
      ZipUp(mem, node, Step(up, g, Black, s, un), parent, Red, s, sib, t);
      ZipUp(mem, node, up, g, Black, s, un, Mk(parent, Red, s, t, sib));
      SeparateAbove(up, parent, Red, g, Black, s, t, sib, un);
      assert HoldsPath(mem, node, Step(up, g, Black, s, un), parent);
      hide Mk, Ids, Apart, PathApart, PathIds, Separate;
      Rotate(parent, g, s, Red, true, up, t, sib, un);
    }

    /** Insertion cases 2 and 3: `n`, with children `a` and `b`, is on the other side of `parent`. */
    method InsertFar(n: Ptr, parent: Ptr, g: Ptr, s: Side, ghost up: Path, ghost un: Tree, ghost sib: Tree,
                     ghost a: Tree, ghost b: Tree)
      requires Zip(mem, node, Step(Step(up, g, Black, s, un), parent, Red, s.Flip(), sib), Mk(n, Red, s, a, b))
      requires a.IsBlack() && b.IsBlack()
      modifies this
      ensures tree == old(tree)
      ensures Zip(mem, node, up, Mk(n, Black, s, Mk(parent, Red, s, sib, a), Mk(g, Red, s, b, un)))
      ensures mem.Keys == old(mem.Keys)
      ensures forall y :: y in mem && y != parent && y != g && y != n && y !in PathIds(up) && y !in Ids(a) && y !in Ids(b)
                ==> mem[y] == old(mem)[y]
    {
      ghost var m0, near := mem, Mk(parent, Red, s, sib, a);
      FarApart(up, n, parent, g, s, un, sib, a, b);
      FarApartAbove(up, n, parent, g, s, un, sib, a, b);
      assert HoldsPath(mem, node, Step(up, g, Black, s, un), parent) && Holds(mem, Mk(n, Red, s, a, b), parent);
      assert n != g && n !in PathIds(up) && n !in Ids(un);
      hide Ids, Apart, PathApart, PathIds, Separate;
      RotateParent(n, parent, s, Step(up, g, Black, s, un), sib, a, b);
      FarFrame(m0, mem, node, up, n, parent, g, un, a);
      Rotate(n, g, s, Red, true, up, near, b, un);
    }

    /** The loop of insertion works on a red tree `t` whose only flaw can be a red parent. */
    ghost predicate Inserting(p: Path, t: Tree, n: Ptr)
      reads this
    {
      Zip(mem, node, p, t) && RedHole(p, t) && t.id == n
    }

    /** One round of insertion case 1. */
    method FlipStep(parent: Ptr, g: Ptr, uncle: Ptr, ghost p: Path, ghost t: Tree) returns (next: Ptr, ghost t': Tree)
      requires Zip(mem, node, p, t) && RedHole(p, t)
      requires p.Step? && p.color.Red? && p.up.Step? && p.up.color.Black? && p.id == parent && p.up.id == g
      requires p.up.sib.Branch? && p.up.sib.color.Red? && p.up.sib.id == uncle
      modifies this
      ensures Inserting(p.up.up, t', g) && next == p.up.up.Head()
      ensures InOrder(Plug(p.up.up, t')) == InOrder(Plug(p, t))
      ensures PathIds(p.up.up) + Ids(t') == PathIds(p) + Ids(t)
      ensures mem.Keys == old(mem.Keys)
      ensures forall y :: y in mem && y !in PathIds(p) + Ids(t) ==> mem[y] == old(mem)[y]
    {
      ghost var par := Mk(p.id, Red, p.side, t, p.sib);
      ZipUp(mem, node, p.up, p.id, Red, p.side, p.sib, t);
      ZipUp(mem, node, p.up.up, p.up.id, Black, p.up.side, p.up.sib, par);
      next, t' := FlipUncle(parent, g, uncle, p.up.up, p.up.side, par, p.up.sib);
      assert t' == Flipped(p, t);
      FlippedTree(p, t);
    }

    /** Insertion case 3, to the end. */
    method NearStep(parent: Ptr, g: Ptr, s: Side, ghost p: Path, ghost t: Tree) returns (ghost t': Tree)
      requires Zip(mem, node, p, t) && RedHole(p, t)
      requires p.Step? && p.color.Red? && p.up.Step? && p.up.color.Black? && p.id == parent && p.up.id == g
      requires p.up.sib.IsBlack() && p.side == p.up.side == s
      modifies this
      ensures Zip(mem, node, p.up.up, t') && t'.IsBlack() && Balanced(t') && PathBalanced(p.up.up, Bh(t'))
      ensures InOrder(Plug(p.up.up, t')) == InOrder(Plug(p, t))
      ensures mem.Keys == old(mem.Keys)
      ensures forall y :: y in mem && y !in PathIds(p) + Ids(t) ==> mem[y] == old(mem)[y]
    {
      ghost var up, un := p.up.up, p.up.sib;
      RedHoleUp(p, t);
      InsertNear(parent, g, s, up, un, p.sib, t);
      t' := Mk(parent, Black, s, t, Mk(g, Red, s, p.sib, un));
      RotatedTree(up, parent, Red, g, s, t, p.sib, un);
      PlugSameOrder(up, t', Mk(g, Black, s, Mk(parent, Red, s, t, p.sib), un));
    }

    /** Insertion cases 2 and 3, to the end. */
    method FarStep(n: Ptr, parent: Ptr, g: Ptr, s: Side, ghost p: Path, ghost t: Tree) returns (ghost t': Tree)
      requires Zip(mem, node, p, t) && RedHole(p, t) && t.id == n
      requires p.Step? && p.color.Red? && p.up.Step? && p.up.color.Black? && p.id == parent && p.up.id == g
      requires p.up.sib.IsBlack() && p.up.side == s && p.side == s.Flip()
      modifies this
      ensures Zip(mem, node, p.up.up, t') && t'.IsBlack() && Balanced(t') && PathBalanced(p.up.up, Bh(t'))
      ensures InOrder(Plug(p.up.up, t')) == InOrder(Plug(p, t))
      ensures mem.Keys == old(mem.Keys)
      ensures forall y :: y in mem && y !in PathIds(p) + Ids(t) ==> mem[y] == old(mem)[y]
    {
      ghost var up, un, a, b := p.up.up, p.up.sib, t.Kid(s), t.Kid(s.Flip());
      assert t == Mk(n, Red, s, a, b);
      assert {n, parent, g} + PathIds(up) + Ids(a) + Ids(b) <= PathIds(p) + Ids(t);
      t' := Mk(n, Black, s, Mk(parent, Red, s, p.sib, a), Mk(g, Red, s, b, un));
      FarTree(p, t);
      hide Mk, Zip, Separate, Apart, PathApart, Ids, PathIds;
      InsertFar(n, parent, g, s, up, un, p.sib, a, b);
    }

    /** Insertion with a black uncle: cases 2 and 3 end the loop with a valid tree. */
    method RotateStep(n: Ptr, parent: Ptr, g: Ptr, s: Side, ghost p: Path, ghost t: Tree)
      requires Inserting(p, t, n)
      requires p.Step? && p.color.Red? && p.up.Step? && p.up.color.Black? && p.id == parent && p.up.id == g
      requires p.up.sib.IsBlack() && p.up.side == s && parent in mem
      requires p.side == if n == mem[parent].Kid(s.Flip()) then s.Flip() else s
      modifies this
      ensures Valid()
      ensures InOrder(tree) == InOrder(Plug(p, t))
      ensures mem.Keys == old(mem.Keys)
      ensures forall y :: y in mem && y !in PathIds(p) + Ids(t) ==> mem[y] == old(mem)[y]
    {
      RedHoleUp(p, t);
      hide Zip, Rep, Balanced, PathBalanced, RootBlack, Ids, PathIds, InOrder, Plug;
      var tmp := mem[parent].Kid(s.Flip());
      ghost var t';
      if n == tmp {
        t' := FarStep(n, parent, g, s, p, t);
      } else {
        t' := NearStep(parent, g, s, p, t);
      }
      PlugValid(mem, node, p.up.up, t');
      tree := Plug(p.up.up, t');
    }

    /** `rb_insert_color`: restore the colour rules above the red node `node0`. */
    method InsertColor(node0: Ptr, ghost p0: Path, ghost t0: Tree)
      requires Inserting(p0, t0, node0)
      modifies this
      ensures Valid()
      ensures InOrder(tree) == Before(p0) + InOrder(t0) + After(p0)
      ensures mem.Keys == old(mem.Keys)
      ensures forall y :: y in mem && y !in PathIds(p0) + Ids(t0) ==> mem[y] == old(mem)[y]
    {
      ghost var p, t := p0, t0;
      ghost var ids := PathIds(p0) + Ids(t0);
      PlugInOrder(p, t);
      HoleFacts(mem, node, p, t);
      hide Zip, Rep, Balanced, PathBalanced, RootBlack, Ids, PathIds, InOrder;
      var n := node0;
      var parent := mem[n].parent;
      while true
        invariant Inserting(p, t, n) && parent == p.Head()
        invariant InOrder(Plug(p, t)) == Before(p0) + InOrder(t0) + After(p0)
        invariant PathIds(p) + Ids(t) == ids
        invariant mem.Keys == old(mem.Keys)
        invariant forall y :: y in mem && y !in ids ==> mem[y] == old(mem)[y]
        decreases p
      {
        HoleFacts(mem, node, p, t);
        if parent == 0 {
          PaintedRoot(mem, node, t);
          mem := mem[n := mem[n].(parent := 0, color := Black)];
          tree := Paint(t, Black);
          return;
        }
        if mem[parent].color.Black? {
          PlugValid(mem, node, p, t);
          tree := Plug(p, t);
          return;
        }
        RedParent(mem, node, p, t);
        RedHoleUp(p, t);
        var g := mem[parent].parent;
        var s := if parent != mem[g].right then Left else Right;
        var tmp := mem[g].Kid(s.Flip());
        if tmp != 0 && mem[tmp].color.Red? {
          parent, t := FlipStep(parent, g, tmp, p, t);
          n, p := g, p.up.up;
          continue;
        }
        RotateStep(n, parent, g, s, p, t);
        return;
      }
    }

    /** `rb_link_node` at the empty place that `side` of `parent` (or the root pointer) points from. */
    method LinkNode(n: Ptr, parent: Ptr, side: Side, ghost p: Path)
      requires Zip(mem, node, p, Leaf) && n != 0 && n in mem && n !in PathIds(p)
      requires parent == p.Head() && (p.Step? ==> side == p.side)
      modifies this
      ensures tree == old(tree)
      ensures Zip(mem, node, p, Branch(Leaf, n, Red, Leaf))
      ensures mem.Keys == old(mem.Keys)
      ensures forall y :: y in mem && y != n && y !in PathIds(p) ==> mem[y] == old(mem)[y]
    {
      ghost var m0, r0 := mem, node;
      mem := mem[n := Node(parent, Red, 0, 0)];
      if parent == 0 {
        node := n;
      } else {
        mem := mem[parent := mem[parent].WithKid(side, n)];
      }
      Reroute(m0, mem, r0, node, p, 0, n);
    }

    /**
     `rb_add`: insert `n` at the place `less` leads to, which is after its equals. `k` is that place
     in the in-order sequence.
     */
    method Add(n: Ptr, less: (Ptr, Ptr) -> bool) returns (ghost k: nat)
      requires Valid() && n != 0 && n in mem && n !in Ids(tree)
      modifies this
      ensures Valid()
      ensures var o := old(InOrder(tree)); k <= |o| && InOrder(tree) == o[..k] + [n] + o[k..]
      ensures var o := old(InOrder(tree));
              Weak(less) && SortedBy(less, o) ==>
                && (forall i :: 0 <= i < k ==> !less(n, o[i]))
                && (forall i :: k <= i < |o| ==> less(n, o[i]))
      ensures mem.Keys == old(mem.Keys)
      ensures forall y :: y in mem && y !in Ids(tree) ==> mem[y] == old(mem)[y]
    {
      hide InOrder, Before, After, Apart, PathApart, Holds, HoldsPath, Zip, Ids, PathIds, RedBlack, Plug, Rep;
      ghost var o := InOrder(tree);
      ghost var p, t := Top, tree;
      var parent, side, link := 0, Left, node;
      ZipTop(mem, node, tree);
      assert Before(p) == [] && After(p) == [] by { TopPlaces(); }
      while link != 0
        invariant Plug(p, t) == tree && Zip(mem, node, p, t)
        invariant parent == p.Head() && (p.Step? ==> side == p.side) && link == t.Root()
        invariant Weak(less) && SortedBy(less, o) ==> Between(less, n, o, |Before(p)|, |o| - |After(p)|)
        invariant mem == old(mem) && node == old(node) && tree == old(tree)
        decreases t
      {
        parent := link;
        ghost var q := t;
        Places(p, t);
        Descend(mem, node, p, t);
        Narrow(less, n, o, |Before(p)|, |o| - |After(p)|, |Before(p)| + |InOrder(q.left)|);
        if less(n, parent) {
          side, link := Left, mem[parent].left;
          p, t := Step(p, q.id, q.color, Left, q.right), q.left;
        } else {
          side, link := Right, mem[parent].right;
          p, t := Step(p, q.id, q.color, Right, q.left), q.right;
        }
      }
      assert t.Leaf? by { LeafRoot(mem, node, p, t); }
      AtLeaf(tree, p);
      LinkNode(n, parent, side, p);
      k := |Before(p)|;
      NewNode(p, n);
      InsertColor(n, p, Branch(Leaf, n, Red, Leaf));
      assert o[..k] == Before(p) && o[k..] == After(p);
      SameIds(tree, p, n);
    }

    /** Erasure case 1: the sibling is red; rotate it above the parent. */
    method RaiseRedSibling(parent: Ptr, sibling: Ptr, s: Side, ghost p: Path, ghost t: Tree)
      requires Zip(mem, node, p, t) && ShortHole(p, t) && p.id == parent && p.side == s
      requires p.sib.Branch? && p.sib.id == sibling && p.sib.color.Red?
      modifies this
      ensures tree == old(tree)
      ensures Zip(mem, node, LowerParent(p), t)
      ensures mem.Keys == old(mem.Keys)
      ensures forall y :: y in mem && y !in PathIds(p) + Ids(t) ==> mem[y] == old(mem)[y]
    {
      ghost var f, sib, up := s.Flip(), p.sib, p.up;
      ShortHoleSibling(p, t);
      SiblingPieces(mem, node, p, t);
      assert {sibling, parent} + PathIds(up) + Ids(sib.Kid(s)) <= PathIds(p) + Ids(t);
      hide Zip, Separate, Ids, PathIds, Apart, PathApart, Balanced, PathBalanced, Holds, HoldsPath;
      Rotate(sibling, parent, s.Flip(), Red, true, up, sib.Kid(f), sib.Kid(s), t);
      ZipUp(mem, node, up, sibling, p.color, s, sib.Kid(f), Mk(parent, Red, s, t, sib.Kid(s)));
      ZipUp(mem, node, Step(up, sibling, p.color, s, sib.Kid(f)), parent, Red, s, sib.Kid(s), t);
    }

    /** Erasure case 4: the sibling's far child `tmp1` is red. */
    method RaiseSiblingNear(parent: Ptr, sibling: Ptr, tmp1: Ptr, s: Side, ghost p: Path, ghost t: Tree)
      returns (ghost t': Tree)
      requires Zip(mem, node, p, t) && ShortHole(p, t) && p.id == parent && p.side == s
      requires p.sib.Branch? && p.sib.id == sibling && p.sib.color.Black?
      requires p.sib.Kid(s.Flip()).Branch? && p.sib.Kid(s.Flip()).id == tmp1 && p.sib.Kid(s.Flip()).color.Red?
      modifies this
      ensures tree == old(tree)
      ensures t' == Mk(sibling, p.color, s.Flip(), Paint(p.sib.Kid(s.Flip()), Black),
                       Mk(parent, Black, s.Flip(), p.sib.Kid(s), t))
      ensures Zip(mem, node, p.up, t')
      ensures mem.Keys == old(mem.Keys)
      ensures forall y :: y in mem && y !in PathIds(p) + Ids(t) ==> mem[y] == old(mem)[y]
    {
      ghost var m0, f, sib, up := mem, s.Flip(), p.sib, p.up;
      ghost var near := sib.Kid(f);
      SiblingPieces(mem, node, p, t);
      assert {sibling, parent, tmp1} + PathIds(up) + Ids(sib.Kid(s)) <= PathIds(p) + Ids(t);
      assert tmp1 in Ids(near) && tmp1 in mem && mem[tmp1].parent == sibling;
      mem := mem[tmp1 := mem[tmp1].(parent := sibling, color := Black)];
      NearPainted(m0, mem, node, p, t);
      hide Zip, Separate, Ids, PathIds, Apart, PathApart, Balanced, PathBalanced, Holds, HoldsPath;
      Rotate(sibling, parent, s.Flip(), Black, false, up, Paint(near, Black), sib.Kid(s), t);
      t' := Mk(sibling, p.color, f, Paint(near, Black), Mk(parent, Black, f, sib.Kid(s), t));
    }

    /** The pointer writes of erasure case 3, and the write of case 4 that puts the sibling below `tmp2`. */
    method PushSibling(parent: Ptr, sibling: Ptr, tmp2: Ptr, s: Side)
      requires parent in mem && sibling in mem && tmp2 in mem && parent != sibling && sibling != tmp2 && tmp2 != parent
      requires var x := mem[tmp2].Kid(s.Flip()); x != 0 ==> x in mem && x !in {parent, sibling, tmp2}
      modifies this
      ensures tree == old(tree) && node == old(node) && mem.Keys == old(mem.Keys)
      ensures mem[parent] == old(mem)[parent].WithKid(s.Flip(), tmp2)
      ensures mem[tmp2] == old(mem)[tmp2].WithKid(s.Flip(), sibling)
      ensures mem[sibling] == old(mem)[sibling].WithKid(s, old(mem)[tmp2].Kid(s.Flip())).(parent := tmp2, color := Black)
      ensures var x := old(mem)[tmp2].Kid(s.Flip()); x != 0 ==> mem[x] == old(mem)[x].(parent := sibling, color := Black)
      ensures var x := old(mem)[tmp2].Kid(s.Flip());
              forall y :: y in mem && y !in {parent, sibling, tmp2} && (x != 0 ==> y != x) ==> mem[y] == old(mem)[y]
    {
      var tmp1 := mem[tmp2].Kid(s.Flip());
      mem := mem[sibling := mem[sibling].WithKid(s, tmp1)];
      mem := mem[tmp2 := mem[tmp2].WithKid(s.Flip(), sibling)];
      mem := mem[parent := mem[parent].WithKid(s.Flip(), tmp2)];
      if tmp1 != 0 {
        mem := mem[tmp1 := mem[tmp1].(parent := sibling, color := Black)];
      }
      mem := mem[sibling := mem[sibling].(parent := tmp2, color := Black)];
    }

    /** Erasure cases 3 and 4: the sibling's near child `tmp2` is red and its far child is not. */
    method RaiseSiblingFar(parent: Ptr, sibling: Ptr, tmp2: Ptr, s: Side, ghost p: Path, ghost t: Tree)
      returns (ghost t': Tree)
      requires Zip(mem, node, p, t) && ShortHole(p, t) && p.id == parent && p.side == s
      requires p.sib.Branch? && p.sib.id == sibling && p.sib.color.Black?
      requires p.sib.Kid(s).Branch? && p.sib.Kid(s).id == tmp2 && p.sib.Kid(s).color.Red?
      modifies this
      ensures tree == old(tree)
      ensures t' == Mk(tmp2, p.color, s.Flip(), FarPiece(p), Mk(parent, Black, s.Flip(), p.sib.Kid(s).Kid(s), t))
      ensures Zip(mem, node, p.up, t')
      ensures mem.Keys == old(mem.Keys)
      ensures forall y :: y in mem && y !in PathIds(p) + Ids(t) ==> mem[y] == old(mem)[y]
    {
      hide Zip, Ids, PathIds, Apart, PathApart, Balanced, PathBalanced, Holds, HoldsPath, Separate;
      ghost var m0, f, sib, up, q := mem, s.Flip(), p.sib, p.up, p.sib.Kid(s);
      FarPieces(mem, node, p, t);
      FarPiecesIds(p, t);
      FarDistinct(mem, node, p, t);
      PushSibling(parent, sibling, tmp2, s);
      assert FarWritten(m0, mem, p);
      FarPrepared(m0, mem, node, p, t);
      FarPreparedPiece(m0, mem, node, p, t);
      Rotate(tmp2, parent, s.Flip(), Black, false, up, FarPiece(p), q.Kid(s), t);
      t' := Mk(tmp2, p.color, f, FarPiece(p), Mk(parent, Black, f, q.Kid(s), t));
    }

    /** The writes of erasure case 2. */
    method PaintSibling(parent: Ptr, sibling: Ptr) returns (up: bool)
      requires parent in mem && sibling in mem && parent != sibling && mem[sibling].parent == parent
      modifies this
      ensures tree == old(tree) && node == old(node)
      ensures mem == old(mem)[sibling := old(mem)[sibling].(color := Red)][parent := old(mem)[parent].(color := Black)]
      ensures up <==> old(mem)[parent].color.Black? && old(mem)[parent].parent != 0
    {
      mem := mem[sibling := mem[sibling].(parent := parent, color := Red)];
      up := false;
      if mem[parent].color.Red? {
        mem := mem[parent := mem[parent].(color := Black)];
      } else if mem[parent].parent != 0 {
        up := true;
      }
      assert mem == old(mem)[sibling := old(mem)[sibling].(color := Red)][parent := old(mem)[parent].(color := Black)];
    }

    /** Erasure case 2. The result says whether the shortage moved up to the parent. */
    method RecolorSibling(parent: Ptr, sibling: Ptr, ghost p: Path, ghost t: Tree) returns (up: bool, ghost t': Tree)
      requires Zip(mem, node, p, t) && ShortHole(p, t) && p.id == parent
      requires p.sib.Branch? && p.sib.id == sibling && p.sib.color.Black? && p.sib.left.IsBlack() && p.sib.right.IsBlack()
      modifies this
      ensures up ==> Zip(mem, node, p.up, t') && ShortHole(p.up, t') && t'.Root() == parent
      ensures up ==> InOrder(Plug(p.up, t')) == InOrder(Plug(p, t)) && PathIds(p.up) + Ids(t') == PathIds(p) + Ids(t)
      ensures !up ==> Valid() && InOrder(tree) == InOrder(Plug(p, t))
      ensures up <==> p.color.Black? && p.up.Step?
      ensures mem.Keys == old(mem.Keys)
      ensures forall y :: y in mem && y !in PathIds(p) + Ids(t) ==> mem[y] == old(mem)[y]
    {
      ghost var m0 := mem;
      SiblingPieces(mem, node, p, t);
      RecolorTree(p, t);
      ShortHoleSibling(p, t);
      assert {sibling, parent} <= PathIds(p) && parent != sibling && (p.up.Top? <==> p.up.Head() == 0);
      hide Mk, Zip, Rep, Ids, PathIds, InOrder, Plug, Holds, HoldsPath, Separate;
      hide Balanced, PathBalanced, RootBlack, ShortHole;
      t' := Mk(p.id, Black, p.side, t, Paint(p.sib, Red));
      up := PaintSibling(parent, sibling);
      RecoloredMemory(m0, mem, node, p, t);
      if !up {
        PlugValid(mem, node, p.up, t');
        tree := Plug(p.up, t');
      }
    }

    /** Erasure with a black sibling and a red nephew: cases 3 and 4 end the loop with a valid tree. */
    method RaiseSiblingStep(parent: Ptr, sibling: Ptr, s: Side, ghost p: Path, ghost t: Tree)
      requires Zip(mem, node, p, t) && ShortHole(p, t) && p.id == parent && p.side == s
      requires p.sib.Branch? && p.sib.id == sibling && p.sib.color.Black?
      requires !p.sib.left.IsBlack() || !p.sib.right.IsBlack()
      modifies this
      ensures Valid() && InOrder(tree) == InOrder(Plug(p, t))
      ensures mem.Keys == old(mem.Keys)
      ensures forall y :: y in mem && y !in PathIds(p) + Ids(t) ==> mem[y] == old(mem)[y]
    {
      ghost var f, sib := s.Flip(), p.sib;
      ghost var t';
      SiblingPieces(mem, node, p, t);
      ShortHoleSibling(p, t);
      var tmp1 := mem[sibling].Kid(s.Flip());
      if tmp1 == 0 || mem[tmp1].color.Black? {
        var tmp2 := mem[sibling].Kid(s);
        RaiseFarTree(p, t);
        t' := RaiseSiblingFar(parent, sibling, tmp2, s, p, t);
      } else {
        RaiseNearTree(p, t);
        t' := RaiseSiblingNear(parent, sibling, tmp1, s, p, t);
      }
      PlugValid(mem, node, p.up, t');
      tree := Plug(p.up, t');
    }

    /** `____rb_erase_color`: restore equal black heights, starting at an empty place below `parent0`. */
    method EraseColor(parent0: Ptr, ghost p0: Path)
      requires Zip(mem, node, p0, Leaf) && ShortHole(p0, Leaf) && p0.id == parent0
      modifies this
      ensures Valid() && InOrder(tree) == Before(p0) + After(p0)
      ensures mem.Keys == old(mem.Keys)
      ensures forall y :: y in mem && y !in PathIds(p0) ==> mem[y] == old(mem)[y]
    {
      ghost var p, t := p0, Leaf;
      PlugInOrder(p0, Leaf);
      assert Before(p0) + [] + After(p0) == Before(p0) + After(p0);
      hide Zip, Rep, Balanced, PathBalanced, RootBlack, Ids, PathIds, InOrder, Plug, ShortHole, RedBlack;
      var n, parent, more := 0, parent0, true;
      while more
        invariant more ==> Zip(mem, node, p, t) && ShortHole(p, t) && p.Step? && n == t.Root() && parent == p.id
        invariant more ==> InOrder(Plug(p, t)) == Before(p0) + After(p0) && PathIds(p) + Ids(t) == PathIds(p0)
        invariant !more ==> Valid() && InOrder(tree) == Before(p0) + After(p0)
        invariant mem.Keys == old(mem.Keys)
        invariant forall y :: y in mem && y !in PathIds(p0) ==> mem[y] == old(mem)[y]
        decreases more, p
      {
        SiblingFacts(mem, node, p, t);
        ghost var q := p;
        var s := if n != mem[parent].right then Left else Right;
        var sibling := mem[parent].Kid(s.Flip());
        if mem[sibling].color.Red? {
          var tmp1 := mem[sibling].Kid(s);
          LowerParentTree(p, t);
          RaiseRedSibling(parent, sibling, s, p, t);
          p := LowerParent(p);
          SiblingFacts(mem, node, p, t);
          sibling := tmp1;
        }
        var tmp1, tmp2 := mem[sibling].Kid(s.Flip()), mem[sibling].Kid(s);
        if (tmp1 == 0 || mem[tmp1].color.Black?) && (tmp2 == 0 || mem[tmp2].color.Black?) {
          ghost var t';
          more, t' := RecolorSibling(parent, sibling, p, t);
          if more {
            n, parent, p, t := parent, mem[parent].parent, p.up, t';
            ShortHeads(mem, node, p, t);
          }
        } else {
          RaiseSiblingStep(parent, sibling, s, p, t);
          more := false;
        }
      }
    }

    /** Erasing a node with at most one child: the child `u`, if any, takes its place and colour. */
    method SpliceOut(n: Ptr, child: Ptr, ghost p: Path, ghost t: Tree, ghost u: Tree)
      requires Zip(mem, node, p, t) && t.Branch? && t.id == n && child == u.Root()
      requires (t.left == Leaf && t.right == u) || (t.right == Leaf && t.left == u)
      modifies this
      ensures tree == old(tree)
      ensures Zip(mem, node, p, Paint(u, t.color))
      ensures mem.Keys == old(mem.Keys)
      ensures forall y :: y in mem && y !in PathIds(p) + Ids(u) ==> mem[y] == old(mem)[y]
    {
      ghost var m0, r0 := mem, node;
      assert Holds(mem, u, n) && Apart(u) && Ids(u) !! PathIds(p) && n !in PathIds(p) && n !in Ids(u);
      assert u.Branch? ==> u.id in mem && u.id in Ids(u) && u.id != 0;
      var pc := mem[n];
      ChangeChild(n, child, pc.parent);
      if child != 0 {
        mem := mem[child := mem[child].(parent := pc.parent, color := pc.color)];
      }
      AdoptPainted(m0, mem, u, n, p.Head(), t.color);
      Reroute(m0, mem, r0, node, p, n, child);
    }

    /** The successor of the node above `child`: leftmost in its right subtree `r`. */
    method Successor(child: Ptr, ghost q: Path, ghost r: Tree) returns (succ: Ptr, parent: Ptr, ghost w: Path, ghost v: Tree)
      requires Zip(mem, node, q, r) && r.Branch? && r.id == child
      ensures InOrder(r) != [] && succ == InOrder(r)[0]
      ensures v.Branch? && v.left.Leaf? && v.id == succ && Plug(w, v) == r && AllLeft(w)
      ensures Zip(mem, node, Join(w, q), v)
      ensures parent == if w.Top? then succ else w.id
      ensures w.Top? <==> succ == child
    {
      succ, parent, w, v := child, child, Top, r;
      var tmp := mem[child].left;
      while tmp != 0
        invariant v.Branch? && v.id == succ && Plug(w, v) == r && AllLeft(w) && Zip(mem, node, Join(w, q), v)
        invariant succ in mem && tmp == v.left.Root() && parent == if w.Top? then succ else w.id
        decreases v
      {
        ZipUp(mem, node, Join(w, q), v.id, v.color, Left, v.right, v.left);
        parent := succ;
        succ := tmp;
        tmp := mem[tmp].left;
        w, v := Step(w, v.id, v.color, Left, v.right), v.left;
      }
      assert Apart(v.left);
      BelowRoot(w, v);
      Leftmost(w, v);
    }

    /** Take the successor out from below `parent`, and put it above `child`. */
    method PullSuccessor(child: Ptr, succ: Ptr, parent: Ptr, child2: Ptr)
      requires child in mem && succ in mem && parent in mem && succ != child && succ != parent
      modifies this
      ensures tree == old(tree) && node == old(node) && mem.Keys == old(mem.Keys)
      ensures mem[succ] == old(mem)[succ].(right := child)
      ensures mem[parent] == old(mem)[parent].(left := child2, parent := if parent == child then succ else old(mem)[parent].parent)
      ensures child != parent ==> mem[child] == old(mem)[child].(parent := succ)
      ensures forall y :: y in mem && y != child && y != succ && y != parent ==> mem[y] == old(mem)[y]
    {
      mem := mem[parent := mem[parent].(left := child2)];
      mem := mem[succ := mem[succ].(right := child)];
      mem := mem[child := mem[child].(parent := succ)];
    }

    /** Give the successor the left child, the parent and the colour of `n`. */
    method PlaceSuccessor(n: Ptr, succ: Ptr, parent: Ptr, child2: Ptr) returns (rebalance: Ptr)
      requires n in mem && succ in mem && n != succ
      requires var l, g := mem[n].left, mem[n].parent;
               && l in mem && l !in {n, succ} && (g != 0 ==> g in mem && g !in {n, succ, l})
               && (child2 != 0 ==> child2 in mem && child2 !in {n, succ, l, g})
      modifies this
      ensures tree == old(tree) && mem.Keys == old(mem.Keys)
      ensures rebalance == if child2 != 0 || old(mem)[succ].color.Red? then 0 else parent
      ensures mem[n] == old(mem)[n]
      ensures mem[succ] == old(mem)[succ].(left := mem[n].left, parent := mem[n].parent, color := mem[n].color)
      ensures mem[mem[n].left] == old(mem)[mem[n].left].(parent := succ)
      ensures var g := mem[n].parent;
              if g == 0 then node == succ
              else node == old(node) && mem[g] == old(mem)[g].WithKid(SideOf(old(mem)[g], n), succ)
      ensures child2 != 0 ==> mem[child2] == old(mem)[child2].(parent := parent, color := Black)
      ensures forall y :: y in mem && y !in {succ, mem[n].left} && !(y in {mem[n].parent, child2} && y != 0)
                ==> mem[y] == old(mem)[y]
    {
      var tmp := mem[n].left;
      mem := mem[succ := mem[succ].(left := tmp)];
      mem := mem[tmp := mem[tmp].(parent := succ)];
      var pc := mem[n];
      ChangeChild(n, succ, pc.parent);
      if child2 != 0 {
        mem := mem[child2 := mem[child2].(parent := parent, color := Black)];
        rebalance := 0;
      } else {
        rebalance := if mem[succ].color.Black? then parent else 0;
      }
      mem := mem[succ := mem[succ].(parent := pc.parent, color := pc.color)];
    }

    /** Put the successor `succ` of `n` in the place of `n`; `parent` is above the place it left. */
    method SwapIn(n: Ptr, child: Ptr, succ: Ptr, parent: Ptr, ghost w: Path, ghost q: Path, ghost v: Tree)
      returns (rebalance: Ptr)
      requires q.Step? && q.id == n && q.side.Right? && q.sib.Branch?
      requires Zip(mem, node, Join(w, q), v) && v.Branch? && v.left.Leaf? && v.id == succ && AllLeft(w)
      requires parent == (if w.Top? then succ else w.id) && child == (if w.Top? then succ else Bottom(w))
      requires w.Top? <==> succ == child
      requires n in mem && mem[n].left == q.sib.id && mem[n].parent == q.up.Head() && mem[n].color == q.color
      modifies this
      ensures tree == old(tree) && rebalance == if v.right.Branch? || v.color.Red? then 0 else parent
      ensures Zip(mem, node, Join(w, q.(id := succ)), Paint(v.right, Black))
      ensures mem.Keys == old(mem.Keys)
      ensures forall y :: y in mem && (y == n || y !in PathIds(Join(w, q)) + Ids(v)) ==> mem[y] == old(mem)[y]
    {
      ghost var m0, r0, e := mem, node, v.right;
      SwapApart(w, q, v);
      SwapLinks(mem, node, w, q, v);
      SwapIds(w, q, v);
      hide Zip, Ids, PathIds, Apart, PathApart, Holds, HoldsPath, Join;
      var child2 := mem[succ].right;
      if succ != child {
        PullSuccessor(child, succ, parent, child2);
      }
      rebalance := PlaceSuccessor(n, succ, parent, child2);
      SwappedMemory(m0, mem, r0, node, w, q, v);
    }

    /**
     `__rb_erase_augmented`: take `n` out of the tree. A non-null result is the node above an empty
     place that is one black node short.
     */
    method EraseNode(n: Ptr, ghost p: Path, ghost t: Tree) returns (rebalance: Ptr, ghost q: Path, ghost u: Tree)
      requires Zip(mem, node, p, t) && RedBlack(Plug(p, t)) && t.Branch? && t.id == n
      modifies this
      ensures Zip(mem, node, q, u) && WithoutRoot(p, t, q, u)
      ensures rebalance == 0 ==> RedBlack(Plug(q, u))
      ensures rebalance != 0 ==> u == Leaf && ShortHole(q, Leaf) && q.id == rebalance
      ensures mem.Keys == old(mem.Keys)
      ensures forall y :: y in mem && y !in PathIds(q) + Ids(u) ==> mem[y] == old(mem)[y]
    {
      HoleFacts(mem, node, p, t);
      if t.left.Leaf? { OneChild(p, t, Left); }
      if t.right.Leaf? { OneChild(p, t, Right); }
      ghost var l, c, r := t.left, t.color, t.right;
      assert Holds(mem, l, n) && Holds(mem, r, n) && mem[n] == Node(p.Head(), c, l.Root(), r.Root());
      assert Apart(l) && Apart(r);
      var child := mem[n].right;
      var tmp := mem[n].left;
      if tmp == 0 {
        rebalance := if child != 0 || mem[n].color.Red? then 0 else mem[n].parent;
        SpliceOut(n, child, p, t, r);
        q, u := p, Paint(r, c);
        assert r.Branch? ==> Ids(Paint(r, c)) == Ids(r);
      } else if child == 0 {
        rebalance := 0;
        SpliceOut(n, tmp, p, t, l);
        q, u := p, Paint(l, c);
        assert Ids(Paint(l, c)) == Ids(l);
      } else {
        ghost var b := Step(p, n, c, Right, l);
        ZipUp(mem, node, p, n, c, Right, l, r);
        var succ, parent;
        ghost var w, v;
        succ, parent, w, v := Successor(child, b, r);
        SwapOrder(p, t, w, v);
        SwapColors(p, t, w, v);
        SwapNewIds(w, b, v);
        if w.Step? { BottomIsRoot(w, v); }
        rebalance := SwapIn(n, child, succ, parent, w, b, v);
        q, u := Join(w, Step(p, succ, c, Right, l)), Paint(v.right, Black);
        assert q.Head() == parent;
      }
    }

    /** `rb_erase`: take `n` out of the tree and restore the colour rules. `k` was its place in order. */
    method Erase(n: Ptr) returns (ghost k: nat)
      requires Valid() && n in Ids(tree)
      modifies this
      ensures Valid()
      ensures var o := old(InOrder(tree)); k < |o| && o[k] == n && InOrder(tree) == o[..k] + o[k + 1..]
      ensures mem.Keys == old(mem.Keys)
      ensures forall y :: y in mem && y !in Ids(tree) ==> mem[y] == old(mem)[y]
    {
      hide Zip, Rep, RedBlack, Plug, InOrder, Before, After, Ids, PathIds, ShortHole, Holds, HoldsPath, Apart;
      ghost var (p, t) := Focus(tree, Top, n);
      ghost var o := InOrder(tree);
      FocusTree(tree, n);
      ZipIsRep(mem, node, p, t);
      k := |Before(p)| + |InOrder(t.left)|;
      CutAt(p, t);
      var rebalance;
      ghost var q, u;
      rebalance, q, u := EraseNode(n, p, t);
      PlugInOrder(q, u);
      PlugIds(q, u);
      if rebalance != 0 {
        NoHole(q);
        EraseColor(rebalance, q);
        SameInOrder(tree, Plug(q, u));
      } else {
        ZipIsRep(mem, node, q, u);
        tree := Plug(q, u);
      }
    }

    /** `rb_first`: the first node in order, or null. */
    method First() returns (r: Ptr)
      requires Valid()
      ensures r == if InOrder(tree) == [] then 0 else InOrder(tree)[0]
    {
      r := node;
      if r != 0 {
        r := Outermost(r, Left, Top, tree);
      }
    }

    /** Going down on side `s` as far as possible: the outermost node of `t` on that side. */
    method Outermost(x: Ptr, s: Side, ghost p: Path, ghost t: Tree) returns (r: Ptr)
      requires Zip(mem, node, p, t) && t.Branch? && t.id == x
      ensures InOrder(t) != [] && r == InOrder(t)[if s.Left? then 0 else |InOrder(t)| - 1]
    {
      r := x;
      ghost var w, v := p, t;
      while mem[r].Kid(s) != 0
        invariant Zip(mem, node, w, v) && v.Branch? && v.id == r && r in mem && InOrder(v) != []
        invariant InOrder(t) != [] && OuterEnd(t, s) == OuterEnd(v, s)
        decreases v
      {
        ghost var f := s.Flip();
        assert v == Mk(r, v.color, s, v.Kid(s), v.Kid(f));
        ZipUp(mem, node, w, r, v.color, s, v.Kid(f), v.Kid(s));
        assert v.Kid(s).Branch?;
        r := mem[r].Kid(s);
        w, v := Step(w, v.id, v.color, s, v.Kid(f)), v.Kid(s);
      }
      assert Apart(v.Kid(s));
    }

    /**
     `rb_next` for side Right and `rb_prev` for side Left: the neighbour of `x` in order on that
     side, or null at the end.
     */
    method Neighbor(x: Ptr, s: Side) returns (r: Ptr)
      requires Valid() && x in Ids(tree)
      ensures x in InOrder(tree)
      ensures var o := InOrder(tree);
              forall k :: 0 <= k < |o| && o[k] == x ==> r == Beside(o, k, s)
    {
      hide Zip, Holds, HoldsPath, Apart, PathApart, RedBlack, Plug, InOrder, Before, After, Ids, PathIds, NextUp;
      ghost var (p, t) := FocusAt(mem, node, tree, x);
      BesideAt(p, t, s);
      PlaceOf(tree, |Before(p)| + |InOrder(t.left)|);
      KidFacts(mem, node, p, t, s);
      if mem[x].Kid(s) != 0 {
        r := Outermost(mem[x].Kid(s), s.Flip(), Step(p, x, t.color, s, t.Kid(s.Flip())), t.Kid(s));
      } else {
        r := Climb(x, s, p, t);
      }
    }

    /** The loop of `rb_next` and `rb_prev` that climbs until it comes up from the other side. */
    method Climb(x: Ptr, s: Side, ghost p: Path, ghost t: Tree) returns (r: Ptr)
      requires Zip(mem, node, p, t) && t.Branch? && t.id == x
      ensures r == NextUp(p, s)
    {
      hide Zip, Holds, HoldsPath, Apart, PathApart, Ids, PathIds;
      var n := x;
      HoleFacts(mem, node, p, t);
      r := mem[n].parent;
      ghost var q, v := p, t;
      while r != 0 && n == mem[r].Kid(s)
        invariant Zip(mem, node, q, v) && v.Branch? && v.id == n && r == q.Head() && (r != 0 ==> q.Step? && r in mem)
        invariant r == 0 ==> q.Top?
        invariant NextUp(q, s) == NextUp(p, s)
        decreases q
      {
        SideFacts(mem, node, q, v);
        ZipUp(mem, node, q.up, q.id, q.color, q.side, q.sib, v);
        v := Mk(q.id, q.color, q.side, v, q.sib);
        q := q.up;
        n := r;
        HoleFacts(mem, node, q, v);
        r := mem[n].parent;
      }
      if q.Step? { SideFacts(mem, node, q, v); }
    }

    /** `rb_find`: `cmp` leads to a node it accepts, whenever the order of the tree agrees with it. */
    method Find(cmp: Ptr -> int) returns (r: Ptr)
      requires Valid()
      ensures r != 0 ==> r in Ids(tree) && cmp(r) == 0
      ensures Agrees(cmp, InOrder(tree)) && r == 0 ==> forall x :: x in Ids(tree) ==> cmp(x) != 0
    {
      r := node;
      ghost var o := InOrder(tree);
      ghost var p, t := Top, tree;
      hide InOrder, Before, After, Apart, PathApart, Holds, HoldsPath, Zip, Ids, PathIds, RedBlack, Plug;
      assert Plug(p, t) == tree && Zip(mem, node, p, t) by { ZipTop(mem, node, tree); }
      assert Before(p) == [] && After(p) == [] by { TopPlaces(); }
      while r != 0
        invariant Zip(mem, node, p, t) && Plug(p, t) == tree && r == t.Root()
        invariant Agrees(cmp, o) ==> NoneOutside(cmp, o, |Before(p)|, |o| - |After(p)|)
        decreases t
      {
        var c := cmp(r);
        ghost var v := t;
        Places(p, t);
        Descend(mem, node, p, t);
        if c < 0 {
          r := mem[r].left;
          p, t := Step(p, v.id, v.color, Left, v.right), v.left;
        } else if c > 0 {
          r := mem[r].right;
          p, t := Step(p, v.id, v.color, Right, v.left), v.right;
        } else {
          RootInIds(p, t);
          return;
        }
      }
      assert t.Leaf? by { LeafRoot(mem, node, p, t); }
      Places(p, t);
      if Agrees(cmp, o) { FoundNone(cmp, tree, |Before(p)|); }
    }
  }
}
