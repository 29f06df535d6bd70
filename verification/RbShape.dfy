/**
 Red-black trees as values: the tree, the path from a hole up to the root, the
 in-order sequence and the colour rules. The pointer code in RbTree is proved
 against these definitions.

 The source writes every rebalancing case twice, once for each side. Here the
 side is a value, and a mirrored pair of cases is one case.
 */
module RbShape {
  import opened Powers

  /** A node address; 0 is the null pointer. */
  type Ptr = nat

  datatype Color = Red | Black

  datatype Side = Left | Right {
    function Flip(): Side { if Left? then Right else Left }
  }

  datatype Tree = Leaf | Branch(left: Tree, id: Ptr, color: Color, right: Tree) {
    function Root(): Ptr { if Leaf? then 0 else id }

    predicate IsBlack() { Branch? ==> color.Black? }

    function Kid(s: Side): Tree
      requires Branch?
    {
      if s.Left? then left else right
    }
  }

  /** A branch whose child on side `s` is `near` and on the other side `far`. */
  function Mk(id: Ptr, color: Color, s: Side, near: Tree, far: Tree): Tree {
    if s.Left? then Branch(near, id, color, far) else Branch(far, id, color, near)
  }

  /** The way from a hole to the root: the hole hangs on side `side` of `id`, `sib` on the other. */
  datatype Path = Top | Step(up: Path, id: Ptr, color: Color, side: Side, sib: Tree) {
    function Head(): Ptr { if Top? then 0 else id }

    predicate HeadBlack() { Step? ==> color.Black? }
  }

  /** Fill the hole of `p` with `t`. */
  function Plug(p: Path, t: Tree): Tree {
    match p
    case Top => t
    case Step(up, x, c, s, sib) => Plug(up, Mk(x, c, s, t, sib))
  }

  /** The path `inner`, continued by `outer` above its top. */
  function Join(inner: Path, outer: Path): Path {
    match inner
    case Top => outer
    case Step(up, x, c, s, sib) => Step(Join(up, outer), x, c, s, sib)
  }

  // ----- Node sets -----

  ghost function Ids(t: Tree): set<Ptr> {
    match t
    case Leaf => {}
    case Branch(l, x, _, r) => Ids(l) + {x} + Ids(r)
  }

  ghost function PathIds(p: Path): set<Ptr> {
    match p
    case Top => {}
    case Step(up, x, _, _, sib) => Ids(sib) + {x} + PathIds(up)
  }

  /** No node occurs twice in the tree. */
  ghost predicate Apart(t: Tree) {
    match t
    case Leaf => true
    case Branch(l, x, _, r) =>
      && Apart(l) && Apart(r)
      && x != 0 && x !in Ids(l) && x !in Ids(r) && Ids(l) !! Ids(r)
  }

  ghost predicate PathApart(p: Path) {
    match p
    case Top => true
    case Step(up, x, _, _, sib) =>
      && PathApart(up) && Apart(sib)
      && x != 0 && x !in Ids(sib) && x !in PathIds(up) && Ids(sib) !! PathIds(up)
  }

  ghost predicate ZipApart(p: Path, t: Tree) {
    PathApart(p) && Apart(t) && Ids(t) !! PathIds(p)
  }

  /** `Ids` and `Apart` of a branch, whatever the side. */
  lemma MkApart(x: Ptr, c: Color, s: Side, a: Tree, b: Tree)
    ensures Ids(Mk(x, c, s, a, b)) == Ids(a) + {x} + Ids(b)
    ensures Apart(Mk(x, c, s, a, b)) <==>
            Apart(a) && Apart(b) && x != 0 && x !in Ids(a) && x !in Ids(b) && Ids(a) !! Ids(b)
  {
  }

  lemma StepApart(up: Path, x: Ptr, c: Color, s: Side, sib: Tree)
    ensures PathIds(Step(up, x, c, s, sib)) == Ids(sib) + {x} + PathIds(up)
    ensures PathApart(Step(up, x, c, s, sib)) <==>
            PathApart(up) && Apart(sib) && x != 0 && x !in Ids(sib) && x !in PathIds(up) && Ids(sib) !! PathIds(up)
  {
  }

  lemma {:induction false} PlugIds(p: Path, t: Tree)
    ensures Ids(Plug(p, t)) == PathIds(p) + Ids(t)
  {
    match p
    case Top =>
    case Step(up, x, c, s, sib) => PlugIds(up, Mk(x, c, s, t, sib));
  }

  lemma {:induction false} PlugApart(p: Path, t: Tree)
    ensures ZipApart(p, t) <==> Apart(Plug(p, t))
  {
    match p
    case Top =>
    case Step(up, x, c, s, sib) => PlugApart(up, Mk(x, c, s, t, sib));
  }

  lemma {:induction false} JoinPlug(inner: Path, outer: Path, t: Tree)
    ensures Plug(Join(inner, outer), t) == Plug(outer, Plug(inner, t))
  {
    match inner
    case Top =>
    case Step(up, x, c, s, sib) => JoinPlug(up, outer, Mk(x, c, s, t, sib));
  }

  // ----- In-order sequence -----

  ghost function InOrder(t: Tree): seq<Ptr> {
    match t
    case Leaf => []
    case Branch(l, x, _, r) => InOrder(l) + [x] + InOrder(r)
  }

  /** What comes before the hole, in order. */
  ghost function Before(p: Path): seq<Ptr> {
    match p
    case Top => []
    case Step(up, x, _, s, sib) => if s.Left? then Before(up) else Before(up) + InOrder(sib) + [x]
  }

  /** What comes after the hole, in order. */
  ghost function After(p: Path): seq<Ptr> {
    match p
    case Top => []
    case Step(up, x, _, s, sib) => if s.Left? then [x] + InOrder(sib) + After(up) else After(up)
  }

  lemma Regroup(a: seq<Ptr>, b: seq<Ptr>, c: seq<Ptr>, d: seq<Ptr>, e: seq<Ptr>)
    ensures a + (b + c + d) + e == a + b + (c + d + e)
    ensures a + (b + c + d) + e == (a + b + c) + d + e
  {
  }

  lemma {:induction false} PlugInOrder(p: Path, t: Tree)
    ensures InOrder(Plug(p, t)) == Before(p) + InOrder(t) + After(p)
  {
    match p
    case Top =>
      assert [] + InOrder(t) + [] == InOrder(t);
    case Step(up, x, c, s, sib) =>
      PlugInOrder(up, Mk(x, c, s, t, sib));
      if s.Left? {
        Regroup(Before(up), InOrder(t), [x], InOrder(sib), After(up));
      } else {
        Regroup(Before(up), InOrder(sib), [x], InOrder(t), After(up));
      }
  }

  lemma {:induction false} JoinInOrder(inner: Path, outer: Path)
    ensures Before(Join(inner, outer)) == Before(outer) + Before(inner)
    ensures After(Join(inner, outer)) == After(inner) + After(outer)
  {
    match inner
    case Top =>
    case Step(up, x, c, s, sib) =>
      JoinInOrder(up, outer);
      if s.Left? {
        assert [x] + InOrder(sib) + (After(up) + After(outer)) == ([x] + InOrder(sib) + After(up)) + After(outer);
      } else {
        assert (Before(outer) + Before(up)) + InOrder(sib) + [x] == Before(outer) + (Before(up) + InOrder(sib) + [x]);
      }
  }

  /** Equal in-order sequences in the hole give equal in-order sequences of the whole. */
  lemma PlugSameOrder(p: Path, t: Tree, t': Tree)
    requires InOrder(t) == InOrder(t')
    ensures InOrder(Plug(p, t)) == InOrder(Plug(p, t'))
  {
    PlugInOrder(p, t);
    PlugInOrder(p, t');
  }

  /** A rotation keeps the in-order sequence. */
  lemma RotateInOrder(x: Ptr, cx: Color, y: Ptr, cy: Color, cx': Color, cy': Color,
                      s: Side, a: Tree, b: Tree, c: Tree)
    ensures InOrder(Mk(x, cx, s, a, Mk(y, cy, s, b, c))) == InOrder(Mk(y, cy', s, Mk(x, cx', s, a, b), c))
  {
    if s.Left? {
      assert InOrder(a) + [x] + (InOrder(b) + [y] + InOrder(c)) == (InOrder(a) + [x] + InOrder(b)) + [y] + InOrder(c);
    } else {
      assert (InOrder(c) + [y] + InOrder(b)) + [x] + InOrder(a) == InOrder(c) + [y] + (InOrder(b) + [x] + InOrder(a));
    }
  }

  /** The in-order sequence has no node twice. */
  lemma {:induction false} InOrderOnce(t: Tree, i: nat, j: nat)
    requires Apart(t) && i < j < |InOrder(t)|
    ensures InOrder(t)[i] != InOrder(t)[j]
  {
    var l, r, n := t.left, t.right, |InOrder(t.left)|;
    InOrderIds(l, InOrder(t)[i]);
    InOrderIds(r, InOrder(t)[j]);
    if j < n {
      InOrderOnce(l, i, j);
    } else if i > n {
      InOrderOnce(r, i - n - 1, j - n - 1);
    } else {
      assert i < n ==> InOrder(t)[i] == InOrder(l)[i];
      assert j > n ==> InOrder(t)[j] == InOrder(r)[j - n - 1];
    }
  }

  lemma {:induction false} InOrderIds(t: Tree, x: Ptr)
    ensures x in InOrder(t) <==> x in Ids(t)
  {
    match t
    case Leaf =>
    case Branch(l, y, _, r) => InOrderIds(l, x); InOrderIds(r, x);
  }

  // ----- Colour rules -----

  /** Black nodes on the leftmost way down. */
  function Bh(t: Tree): nat {
    match t
    case Leaf => 0
    case Branch(l, _, c, _) => Bh(l) + (if c.Black? then 1 else 0)
  }

  /** Rules 4 and 5: no red node has a red child, all ways down meet as many black nodes. */
  ghost predicate Balanced(t: Tree) {
    match t
    case Leaf => true
    case Branch(l, _, c, r) =>
      && Balanced(l) && Balanced(r) && Bh(l) == Bh(r)
      && (c.Red? ==> l.IsBlack() && r.IsBlack())
  }

  /** All colour rules. */
  ghost predicate RedBlack(t: Tree) {
    Balanced(t) && t.IsBlack()
  }

  /** The path obeys rules 4 and 5 when its hole holds a tree of black height `h`. */
  ghost predicate PathBalanced(p: Path, h: nat) {
    match p
    case Top => true
    case Step(up, _, c, _, sib) =>
      && Balanced(sib) && Bh(sib) == h
      && (c.Red? ==> sib.IsBlack() && up.HeadBlack())
      && PathBalanced(up, h + (if c.Black? then 1 else 0))
  }

  /** The outermost node of the path is black. */
  ghost predicate RootBlack(p: Path) {
    match p
    case Top => true
    case Step(up, _, c, _, _) => if up.Top? then c.Black? else RootBlack(up)
  }

  lemma {:induction false} PlugBalanced(p: Path, t: Tree)
    ensures Balanced(Plug(p, t)) <==>
            Balanced(t) && PathBalanced(p, Bh(t)) && (p.HeadBlack() || t.IsBlack())
  {
    match p
    case Top =>
    case Step(up, x, c, s, sib) => PlugBalanced(up, Mk(x, c, s, t, sib));
  }

  lemma {:induction false} PlugRootBlack(p: Path, t: Tree)
    ensures Plug(p, t).IsBlack() <==> if p.Top? then t.IsBlack() else RootBlack(p)
  {
    match p
    case Top =>
    case Step(up, x, c, s, sib) => PlugRootBlack(up, Mk(x, c, s, t, sib));
  }

  lemma PlugRedBlack(p: Path, t: Tree)
    requires Balanced(t) && PathBalanced(p, Bh(t)) && (p.HeadBlack() || t.IsBlack())
    requires if p.Top? then t.IsBlack() else RootBlack(p)
    ensures RedBlack(Plug(p, t))
  {
    PlugBalanced(p, t);
    PlugRootBlack(p, t);
  }

  // ----- Paths joined -----

  lemma {:induction false} JoinApart(w: Path, q: Path)
    ensures PathIds(Join(w, q)) == PathIds(w) + PathIds(q)
    ensures PathApart(Join(w, q)) <==> PathApart(w) && PathApart(q) && PathIds(w) !! PathIds(q)
  {
    match w
    case Top =>
    case Step(up, x, c, s, sib) => JoinApart(up, q);
  }

  /** The node at the bottom of `q` matters neither to the colours nor to black heights. */
  lemma {:induction false} JoinRename(w: Path, q: Path, x: Ptr, h: nat)
    requires q.Step?
    ensures PathBalanced(Join(w, q), h) <==> PathBalanced(Join(w, q.(id := x)), h)
    ensures RootBlack(Join(w, q)) <==> RootBlack(Join(w, q.(id := x)))
    ensures Join(w, q).HeadBlack() <==> Join(w, q.(id := x)).HeadBlack()
  {
    match w
    case Top =>
    case Step(up, y, c, s, sib) => JoinRename(up, q, x, h + (if c.Black? then 1 else 0));
  }

  /** The outermost node of a path. */
  function Bottom(w: Path): Ptr
    requires w.Step?
  {
    if w.up.Top? then w.id else Bottom(w.up)
  }

  ghost predicate AllLeft(w: Path) {
    w.Step? ==> w.side.Left? && AllLeft(w.up)
  }

  lemma {:induction false} AllLeftBefore(w: Path)
    requires AllLeft(w)
    ensures Before(w) == []
  {
    if w.Step? { AllLeftBefore(w.up); }
  }

  lemma {:induction false} BottomIsRoot(w: Path, t: Tree)
    requires w.Step?
    ensures Plug(w, t).Root() == Bottom(w) && Bottom(w) in PathIds(w)
  {
    if w.up.Step? { BottomIsRoot(w.up, Mk(w.id, w.color, w.side, t, w.sib)); }
  }

  // ----- Height -----

  function Height(t: Tree): nat {
    match t
    case Leaf => 0
    case Branch(l, _, _, r) => 1 + if Height(l) > Height(r) then Height(l) else Height(r)
  }

  lemma {:induction false} Pow2Double(a: nat)
    ensures Pow2(2 * a) == Pow2(a) * Pow2(a)
  {
    if a > 0 {
      Pow2Double(a - 1);
      assert Pow2(2 * a) == 4 * Pow2(2 * (a - 1)) by {
        assert Pow2(2 * a) == 2 * Pow2(2 * a - 1);
        assert Pow2(2 * a - 1) == 2 * Pow2(2 * a - 2);
      }
      var q := Pow2(a - 1);
      assert Pow2(a) == 2 * q;
      assert 4 * (q * q) == (2 * q) * (2 * q);
    }
  }

  lemma {:induction false} BlackHeightBounds(t: Tree)
    requires Balanced(t)
    ensures Pow2(Bh(t)) <= |InOrder(t)| + 1
    ensures Height(t) <= 2 * Bh(t) + (if t.IsBlack() then 0 else 1)
  {
    match t
    case Leaf =>
    case Branch(l, _, _, r) => BlackHeightBounds(l); BlackHeightBounds(r);
  }

  /** The height is at most 2 * log2(n + 1), stated without logarithms. */
  lemma HeightIsLogarithmic(t: Tree)
    requires RedBlack(t)
    ensures var n := |InOrder(t)|; Pow2(Height(t)) <= (n + 1) * (n + 1)
  {
    var n, b := |InOrder(t)|, Bh(t);
    BlackHeightBounds(t);
    Pow2Mono(Height(t), 2 * b);
    Pow2Double(b);
    assert Pow2(b) * Pow2(b) <= (n + 1) * (n + 1) by { MulMono(Pow2(b), n + 1); }
  }

  lemma MulMono(a: nat, b: nat)
    requires a <= b
    ensures a * a <= b * b
  {
    assert b * b - a * a == (b - a) * (b + a);
  }

  // ----- Focusing on a node -----

  /** The path to node `x` of `t`, and the subtree rooted there. */
  ghost function Focus(t: Tree, p: Path, x: Ptr): (r: (Path, Tree))
    requires x in Ids(t)
    ensures r.1.Branch? && r.1.id == x && Plug(r.0, r.1) == Plug(p, t)
  {
    if t.id == x then (p, t)
    else if x in Ids(t.left) then Focus(t.left, Step(p, t.id, t.color, Left, t.right), x)
    else Focus(t.right, Step(p, t.id, t.color, Right, t.left), x)
  }
}
