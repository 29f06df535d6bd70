/**
 The node memory of the red-black tree and what it means for it to hold a tree.
 Parent pointer and colour share one word in the source; here they are two
 fields of the node record.
 */
module RbMemory {
  import opened RbShape

  datatype Node = Node(parent: Ptr, color: Color, left: Ptr, right: Ptr) {
    function Kid(s: Side): Ptr { if s.Left? then left else right }

    function WithKid(s: Side, v: Ptr): Node {
      if s.Left? then this.(left := v) else this.(right := v)
    }
  }

  type Memory = map<Ptr, Node>

  /** The record of a node with child `near` on side `s` and `far` on the other. */
  function MkNode(parent: Ptr, color: Color, s: Side, near: Ptr, far: Ptr): Node {
    if s.Left? then Node(parent, color, near, far) else Node(parent, color, far, near)
  }

  /** Memory `m` holds `t`, with every parent pointer right and `parent` above its root. */
  ghost predicate Holds(m: Memory, t: Tree, parent: Ptr) {
    match t
    case Leaf => true
    case Branch(l, x, c, r) =>
      && x in m && m[x] == Node(parent, c, l.Root(), r.Root())
      && Holds(m, l, x) && Holds(m, r, x)
  }

  /** Memory `m` and the root pointer hold path `p`, whose hole points at `child`. */
  ghost predicate HoldsPath(m: Memory, root: Ptr, p: Path, child: Ptr) {
    match p
    case Top => root == child
    case Step(up, x, c, s, sib) =>
      && x in m && m[x] == MkNode(up.Head(), c, s, child, sib.Root())
      && Holds(m, sib, x) && HoldsPath(m, root, up, x)
  }

  /** The memory holds the whole tree `t` and nothing in it is shared. */
  ghost predicate Rep(m: Memory, root: Ptr, t: Tree) {
    root == t.Root() && Holds(m, t, 0) && Apart(t)
  }

  /** The same, seen from the hole of path `p` that holds `t`. */
  ghost predicate Zip(m: Memory, root: Ptr, p: Path, t: Tree) {
    HoldsPath(m, root, p, t.Root()) && Holds(m, t, p.Head()) && ZipApart(p, t)
  }

  lemma HoldsMk(m: Memory, x: Ptr, c: Color, s: Side, a: Tree, b: Tree, parent: Ptr)
    ensures Holds(m, Mk(x, c, s, a, b), parent) <==>
            x in m && m[x] == MkNode(parent, c, s, a.Root(), b.Root()) && Holds(m, a, x) && Holds(m, b, x)
  {
  }

  lemma {:induction false} ZipIsRep(m: Memory, root: Ptr, p: Path, t: Tree)
    ensures Zip(m, root, p, t) <==> Rep(m, root, Plug(p, t))
  {
    match p
    case Top =>
    case Step(up, x, c, s, sib) => ZipIsRep(m, root, up, Mk(x, c, s, t, sib));
  }

  /** Moving the hole up one step. */
  lemma ZipUp(m: Memory, root: Ptr, up: Path, x: Ptr, c: Color, s: Side, sib: Tree, t: Tree)
    ensures Zip(m, root, Step(up, x, c, s, sib), t) <==> Zip(m, root, up, Mk(x, c, s, t, sib))
    ensures PathIds(Step(up, x, c, s, sib)) + Ids(t) == PathIds(up) + Ids(Mk(x, c, s, t, sib))
  {
    MkApart(x, c, s, t, sib);
  }

  ghost predicate Same(m: Memory, m': Memory, ids: set<Ptr>) {
    forall x :: x in ids && x in m ==> x in m' && m'[x] == m[x]
  }

  lemma {:induction false} Frame(m: Memory, m': Memory, t: Tree, parent: Ptr)
    requires Holds(m, t, parent) && Same(m, m', Ids(t))
    ensures Holds(m', t, parent)
  {
    match t
    case Leaf =>
    case Branch(l, x, _, r) => Frame(m, m', l, x); Frame(m, m', r, x);
  }

  lemma {:induction false} FramePath(m: Memory, m': Memory, root: Ptr, p: Path, child: Ptr)
    requires HoldsPath(m, root, p, child) && Same(m, m', PathIds(p))
    ensures HoldsPath(m', root, p, child)
  {
    match p
    case Top =>
    case Step(up, x, _, _, sib) => Frame(m, m', sib, x); FramePath(m, m', root, up, x);
  }

  /** A subtree moves under another parent when only its root's parent pointer changes. */
  lemma Adopt(m: Memory, m': Memory, t: Tree, parent: Ptr, parent': Ptr)
    requires Holds(m, t, parent) && Apart(t)
    requires t.Branch? ==> t.id in m' && m'[t.id] == m[t.id].(parent := parent')
    requires Same(m, m', Ids(t) - {t.Root()})
    ensures Holds(m', t, parent')
  {
    if t.Branch? {
      Frame(m, m', t.left, t.id);
      Frame(m, m', t.right, t.id);
    }
  }

  function Paint(t: Tree, c: Color): Tree {
    if t.Leaf? then t else t.(color := c)
  }

  /** The same, when the root also takes colour `c`. */
  lemma AdoptPainted(m: Memory, m': Memory, t: Tree, parent: Ptr, parent': Ptr, c: Color)
    requires Holds(m, t, parent) && Apart(t)
    requires t.Branch? ==> t.id in m' && m'[t.id] == m[t.id].(parent := parent', color := c)
    requires Same(m, m', Ids(t) - {t.Root()})
    ensures Holds(m', Paint(t, c), parent')
    ensures Ids(Paint(t, c)) == Ids(t) && InOrder(Paint(t, c)) == InOrder(t) && Apart(Paint(t, c))
  {
    if t.Branch? {
      Frame(m, m', t.left, t.id);
      Frame(m, m', t.right, t.id);
    }
  }

  /** The hole of a path gets a new child when only that one pointer changes. */
  lemma Reroute(m: Memory, m': Memory, root: Ptr, root': Ptr, p: Path, child: Ptr, child': Ptr)
    requires HoldsPath(m, root, p, child) && PathApart(p)
    requires p.Top? ==> root' == child'
    requires p.Step? ==> root' == root && p.id in m' && m'[p.id] == m[p.id].WithKid(p.side, child')
    requires Same(m, m', PathIds(p) - {p.Head()})
    ensures HoldsPath(m', root', p, child')
  {
    if p.Step? {
      Frame(m, m', p.sib, p.id);
      FramePath(m, m', root, p.up, p.id);
    }
  }

  // ----- Rotations -----

  /**
   Everything that takes part in a rotation is apart: the two nodes `x` and `g`, the three
   subtrees and the path above.
   */
  ghost predicate Separate(up: Path, x: Ptr, g: Ptr, a: Tree, b: Tree, c: Tree) {
    && x != 0 && g != 0 && x != g && PathApart(up) && Apart(a) && Apart(b) && Apart(c)
    && x !in Ids(a) && x !in Ids(b) && x !in Ids(c) && x !in PathIds(up)
    && g !in Ids(a) && g !in Ids(b) && g !in Ids(c) && g !in PathIds(up)
    && Ids(a) !! Ids(b) && Ids(a) !! Ids(c) && Ids(b) !! Ids(c)
    && Ids(a) !! PathIds(up) && Ids(b) !! PathIds(up) && Ids(c) !! PathIds(up)
  }

  lemma SeparateAbove(up: Path, x: Ptr, cx: Color, g: Ptr, cg: Color, s: Side, a: Tree, b: Tree, c: Tree)
    requires ZipApart(up, Mk(g, cg, s, Mk(x, cx, s, a, b), c))
    ensures Separate(up, x, g, a, b, c)
  {
    hide Mk, Ids, Apart, PathApart, PathIds;
    MkApart(g, cg, s, Mk(x, cx, s, a, b), c);
    MkApart(x, cx, s, a, b);
  }

  lemma SeparateBelow(up: Path, x: Ptr, cx: Color, g: Ptr, cg: Color, s: Side, a: Tree, b: Tree, c: Tree)
    requires Separate(up, x, g, a, b, c)
    ensures ZipApart(up, Mk(x, cx, s, a, Mk(g, cg, s, b, c)))
    ensures Ids(Mk(x, cx, s, a, Mk(g, cg, s, b, c))) == Ids(a) + Ids(b) + Ids(c) + {x, g}
  {
    hide Mk, Ids, Apart, PathApart, PathIds;
    MkApart(x, cx, s, a, Mk(g, cg, s, b, c));
    MkApart(g, cg, s, b, c);
  }

  /** The memory after `x` has come up above `g`. */
  lemma HoldsRotated(m: Memory, root: Ptr, up: Path, x: Ptr, cx: Color, g: Ptr, cg: Color, s: Side,
                     a: Tree, b: Tree, c: Tree)
    requires Separate(up, x, g, a, b, c) && HoldsPath(m, root, up, x)
    requires x in m && m[x] == MkNode(up.Head(), cx, s, a.Root(), g)
    requires g in m && m[g] == MkNode(x, cg, s, b.Root(), c.Root())
    requires Holds(m, a, x) && Holds(m, b, g) && Holds(m, c, g)
    ensures Zip(m, root, up, Mk(x, cx, s, a, Mk(g, cg, s, b, c)))
  {
    hide Ids, Apart, PathApart, PathIds, HoldsPath;
    SeparateBelow(up, x, cx, g, cg, s, a, b, c);
    assert Holds(m, Mk(g, cg, s, b, c), x);
  }

  /** The same, told by what a rotation writes: only `x`, `g`, the path's last pointer and the root of `b`. */
  lemma RotatedMemory(m0: Memory, m: Memory, root: Ptr, up: Path, x: Ptr, cx: Color, g: Ptr, cg: Color, s: Side,
                      a: Tree, b: Tree, c: Tree)
    requires Separate(up, x, g, a, b, c) && HoldsPath(m, root, up, x)
    requires x in m && m[x] == MkNode(up.Head(), cx, s, a.Root(), g)
    requires g in m && m[g] == MkNode(x, cg, s, b.Root(), c.Root())
    requires Holds(m0, a, x) && Holds(m0, b, x) && Holds(m0, c, g)
    requires b.Branch? ==> b.id in m && m[b.id] == m0[b.id].(parent := g)
    requires m0.Keys == m.Keys
    requires forall y :: y in m0 && y != x && y != g && (b.Branch? ==> y != b.id) && y !in PathIds(up) ==> m[y] == m0[y]
    ensures Zip(m, root, up, Mk(x, cx, s, a, Mk(g, cg, s, b, c)))
  {
    assert b.Branch? ==> b.id in Ids(b);
    hide Mk, Ids, Apart, PathApart, PathIds, HoldsPath;
    Frame(m0, m, a, x);
    Frame(m0, m, c, g);
    Adopt(m0, m, b, x, g);
    HoldsRotated(m, root, up, x, cx, g, cg, s, a, b, c);
  }

  /** The memory after insertion case 1 has flipped the colours of `g` and its two children. */
  lemma FlippedMemory(m0: Memory, m: Memory, root: Ptr, up: Path, g: Ptr, s: Side, par: Tree, un: Tree)
    requires par.Branch? && un.Branch? && Zip(m0, root, up, Mk(g, Black, s, par, un))
    requires un.id in m0 && par.id in m0 && g in m0
    requires m == m0[un.id := m0[un.id].(color := Black)]
                    [par.id := m0[par.id].(color := Black)][g := m0[g].(color := Red)]
    ensures Zip(m, root, up, Mk(g, Red, s, Paint(par, Black), Paint(un, Black)))
  {
    MkApart(g, Black, s, par, un);
    MkApart(g, Red, s, Paint(par, Black), Paint(un, Black));
    assert Ids(par) !! PathIds(up) && Ids(un) !! PathIds(up) && g !in PathIds(up);
    assert Holds(m0, par, g) && Holds(m0, un, g) && m0[g] == MkNode(up.Head(), Black, s, par.id, un.id);
    AdoptPainted(m0, m, par, g, g, Black);
    AdoptPainted(m0, m, un, g, g, Black);
    FramePath(m0, m, root, up, g);
  }

  // ----- Erasure -----

  /** The pieces around a hole whose sibling is `sib`, apart and in memory. */
  lemma SiblingPieces(m: Memory, root: Ptr, p: Path, t: Tree)
    requires Zip(m, root, p, t) && p.Step? && p.sib.Branch?
    ensures var s, f, sib := p.side, p.side.Flip(), p.sib;
            && Separate(p.up, sib.id, p.id, sib.Kid(f), sib.Kid(s), t)
            && HoldsPath(m, root, p.up, p.id)
            && p.id in m && m[p.id] == MkNode(p.up.Head(), p.color, s, t.Root(), sib.id)
            && sib.id in m && m[sib.id] == MkNode(p.id, sib.color, s, sib.Kid(s).Root(), sib.Kid(f).Root())
            && Holds(m, sib.Kid(s), sib.id) && Holds(m, sib.Kid(f), sib.id) && Holds(m, t, p.id)
  {
    var s, f, sib := p.side, p.side.Flip(), p.sib;
    ZipUp(m, root, p.up, p.id, p.color, s, sib, t);
    assert Mk(p.id, p.color, s, t, sib) == Mk(p.id, p.color, f, Mk(sib.id, sib.color, f, sib.Kid(f), sib.Kid(s)), t);
    SeparateAbove(p.up, sib.id, sib.color, p.id, p.color, f, sib.Kid(f), sib.Kid(s), t);
  }

  /** The memory after erasure case 2 has made the sibling red and the parent black. */
  lemma RecoloredMemory(m0: Memory, m: Memory, root: Ptr, p: Path, t: Tree)
    requires Zip(m0, root, p, t) && p.Step? && p.sib.Branch? && p.id in m0 && p.sib.id in m0
    requires m == m0[p.sib.id := m0[p.sib.id].(color := Red)][p.id := m0[p.id].(color := Black)]
    ensures Zip(m, root, p.up, Mk(p.id, Black, p.side, t, Paint(p.sib, Red)))
  {
    AdoptPainted(m0, m, p.sib, p.id, p.id, Red);
    Frame(m0, m, t, p.id);
    FramePath(m0, m, root, p.up, p.id);
    ZipUp(m, root, p.up, p.id, Black, p.side, Paint(p.sib, Red), t);
  }

  /** A node next to `q.id`, or `q.id` itself. */
  ghost predicate Rewritten(y: Ptr, w: Path, q: Path)
    requires q.Step?
  {
    || y == q.id || (q.up.Step? && y == q.up.id) || (q.sib.Branch? && y == q.sib.id) || (w.Step? && y == Bottom(w))
  }

  /** What is written when `succ` takes the place of `n`, the node between path `w` below and `p` above. */
  ghost predicate Replaced(m0: Memory, m: Memory, root: Ptr, root': Ptr, w: Path, q: Path, succ: Ptr, child: Ptr)
    requires q.Step?
  {
    && m.Keys == m0.Keys && succ in m
    && m[succ] == MkNode(q.up.Head(), q.color, q.side, if w.Top? then child else Bottom(w), q.sib.Root())
    && (q.up.Top? ==> root' == succ)
    && (q.up.Step? ==> root' == root && q.up.id in m && m[q.up.id] == m0[q.up.id].WithKid(q.up.side, succ))
    && (q.sib.Branch? ==> q.sib.id in m && m[q.sib.id] == m0[q.sib.id].(parent := succ))
    && (w.Step? ==> Bottom(w) in m && m[Bottom(w)] == m0[Bottom(w)].(parent := succ))
    && (forall y :: y in m && y in PathIds(w) + PathIds(q) && !Rewritten(y, w, q) ==> m[y] == m0[y])
  }

  lemma {:induction false} ReplacedBase(m0: Memory, m: Memory, root: Ptr, root': Ptr, q: Path, succ: Ptr, child: Ptr, child': Ptr)
    requires q.Step? && HoldsPath(m0, root, q, child) && PathApart(q)
    requires Replaced(m0, m, root, root', Top, q, succ, child')
    ensures HoldsPath(m, root', q.(id := succ), child')
  {
    assert q.sib.Branch? ==> q.sib.id in Ids(q.sib);
    assert q.up.Step? ==> q.up.id in PathIds(q.up);
    Reroute(m0, m, root, root', q.up, q.id, succ);
    Adopt(m0, m, q.sib, q.id, succ);
  }

  lemma {:induction false} ReplacedPath(m0: Memory, m: Memory, root: Ptr, root': Ptr, w: Path, q: Path, succ: Ptr, child: Ptr)
    requires q.Step? && HoldsPath(m0, root, Join(w, q), child) && PathApart(Join(w, q))
    requires Replaced(m0, m, root, root', w, q, succ, child)
    ensures HoldsPath(m, root', Join(w, q.(id := succ)), child)
  {
    JoinApart(w, q);
    match w
    case Top =>
      ReplacedBase(m0, m, root, root', q, succ, child, child);
    case Step(up, x, c, s, sib) =>
      BottomIsRoot(w, Leaf);
      if up.Step? { BottomIsRoot(up, Leaf); }
      assert q.up.Step? ==> q.up.id in PathIds(q);
      assert q.sib.Branch? ==> q.sib.id in PathIds(q);
      ReplacedUp(m0, m, root, root', w, q, succ, child);
      Frame(m0, m, sib, x);
      if up.Top? {
        ReplacedBase(m0, m, root, root', q, succ, x, x);
      } else {
        ReplacedPath(m0, m, root, root', up, q, succ, x);
      }
  }

  lemma ReplacedUp(m0: Memory, m: Memory, root: Ptr, root': Ptr, w: Path, q: Path, succ: Ptr, child: Ptr)
    requires q.Step? && w.Step? && PathApart(w) && PathApart(q) && PathIds(w) !! PathIds(q)
    requires Replaced(m0, m, root, root', w, q, succ, child)
    ensures Replaced(m0, m, root, root', w.up, q, succ, w.id)
  {
    BottomIsRoot(w, Leaf);
    forall y | y in m && y in PathIds(w.up) + PathIds(q) && !Rewritten(y, w.up, q)
      ensures m[y] == m0[y]
    {
      assert y in PathIds(w) + PathIds(q);
      assert !Rewritten(y, w, q);
    }
  }
}
