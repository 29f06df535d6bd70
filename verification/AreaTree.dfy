/**
 The tree of areas of a space: the red-black tree of `RbTree`, with the order functions of mm/vma.cc,
 is the sorted sequence of areas that `VmaList` and `Vmm` reason about.
 */
module AreaTree {
  import opened Options
  import opened RbShape
  import opened RbCases
  import opened RbTree
  import opened VmaList

  /** The area around each node. */
  type AreaMap = map<Ptr, Vma>

  function AreaOf(area: AreaMap, n: Ptr): Vma {
    if n in area then area[n] else Vma(0, 0, Perm(false, false, false, false))
  }

  function Areas(o: seq<Ptr>, area: AreaMap): seq<Vma> {
    seq(|o|, i requires 0 <= i < |o| => AreaOf(area, o[i]))
  }

  /** `vma_less` and `vma_cmp`. */
  function Less(area: AreaMap): (Ptr, Ptr) -> bool {
    (x: Ptr, y: Ptr) => AreaOf(area, x).start < AreaOf(area, y).start
  }

  function Cmp(area: AreaMap, p: nat): Ptr -> int {
    (n: Ptr) => if p < AreaOf(area, n).start then -1 else if p >= AreaOf(area, n).end then 1 else 0
  }

  /** Areas that are in order and apart are in the order of `vma_less`. */
  lemma OrderedByStart(o: seq<Ptr>, area: AreaMap)
    requires Sorted(Areas(o, area))
    ensures Weak(Less(area)) && SortedBy(Less(area), o)
  {
    var v := Areas(o, area);
    forall i, j | 0 <= i < j < |o|
      ensures !Less(area)(o[j], o[i])
    {
      assert v[i].end <= v[j].start;
    }
  }

  /** And `vma_cmp` agrees with that order. */
  lemma ComparesInOrder(o: seq<Ptr>, area: AreaMap, p: nat)
    requires Sorted(Areas(o, area))
    ensures Agrees(Cmp(area, p), o)
  {
    var v, cmp := Areas(o, area), Cmp(area, p);
    forall i, j | 0 <= i < j < |o|
      ensures (cmp(o[i]) < 0 ==> cmp(o[j]) < 0) && (cmp(o[j]) > 0 ==> cmp(o[i]) > 0)
    {
      assert v[i].start < v[i].end <= v[j].start < v[j].end;
    }
  }

  /** `rb_add` of an area is `Insert`. */
  method AddArea(r: Root, area: AreaMap, n: Ptr)
    requires r.Valid() && n != 0 && n in r.mem && n !in Ids(r.tree) && Sorted(Areas(InOrder(r.tree), area))
    modifies r
    ensures r.Valid() && Areas(InOrder(r.tree), area) == Insert(old(Areas(InOrder(r.tree), area)), AreaOf(area, n))
    ensures r.mem.Keys == old(r.mem.Keys) && Ids(r.tree) == old(Ids(r.tree)) + {n}
  {
    hide Sorted, Weak, SortedBy, InOrder, Ids, Insert, RedBlack;
    ghost var o := InOrder(r.tree);
    OrderedByStart(o, area);
    ghost var k := r.Add(n, Less(area));
    InsertAreas(o, area, k, n);
    IdsAdded(old(r.tree), r.tree, k, n);
  }

  lemma InsertAreas(o: seq<Ptr>, area: AreaMap, k: nat, n: Ptr)
    requires k <= |o|
    requires forall i :: 0 <= i < k ==> !Less(area)(n, o[i])
    requires forall i :: k <= i < |o| ==> Less(area)(n, o[i])
    ensures Areas(o[..k] + [n] + o[k..], area) == Insert(Areas(o, area), AreaOf(area, n))
  {
    var v, x := Areas(o, area), AreaOf(area, n);
    InsertIsAdd(v, x, k);
  }

  lemma IdsAdded(t: Tree, t': Tree, k: nat, n: Ptr)
    requires k <= |InOrder(t)| && InOrder(t') == InOrder(t)[..k] + [n] + InOrder(t)[k..]
    ensures Ids(t') == Ids(t) + {n}
  {
    hide InOrder, Ids;
    var o := InOrder(t);
    forall x
      ensures x in Ids(t') <==> x in Ids(t) || x == n
    {
      InOrderIds(t, x);
      InOrderIds(t', x);
      assert o == o[..k] + o[k..];
    }
  }

  /** `rb_erase` takes out exactly that area. */
  method EraseArea(r: Root, area: AreaMap, n: Ptr) returns (ghost k: nat)
    requires r.Valid() && n in Ids(r.tree)
    modifies r
    ensures r.Valid()
    ensures var v := old(Areas(InOrder(r.tree), area));
            k < |v| && v[k] == AreaOf(area, n) && Areas(InOrder(r.tree), area) == v[..k] + v[k + 1..]
  {
    hide InOrder, Ids, RedBlack;
    k := r.Erase(n);
  }

  /** `rb_find` of an address: the node whose area has the page, or null exactly when the page is in no area. */
  method FindArea(r: Root, area: AreaMap, p: nat) returns (n: Ptr)
    requires r.Valid() && Sorted(Areas(InOrder(r.tree), area))
    ensures var v := Areas(InOrder(r.tree), area);
            && (n == 0 <==> PermAt(v, p).None?)
            && (n != 0 ==> n in InOrder(r.tree) && AreaOf(area, n).Has(p) && PermAt(v, p) == Some(AreaOf(area, n).perm))
  {
    hide Sorted, InOrder, Ids, RedBlack, PermAt, Agrees;
    ghost var o := InOrder(r.tree);
    ComparesInOrder(o, area, p);
    n := r.Find(Cmp(area, p));
    if n != 0 {
      InOrderIds(r.tree, n);
      HasPerm(o, area, n, p);
    } else {
      NoneHas(r.tree, area, p);
    }
  }

  lemma HasPerm(o: seq<Ptr>, area: AreaMap, n: Ptr, p: nat)
    requires Sorted(Areas(o, area)) && n in o && AreaOf(area, n).Has(p)
    ensures PermAt(Areas(o, area), p) == Some(AreaOf(area, n).perm)
  {
    var v := Areas(o, area);
    var i :| 0 <= i < |o| && o[i] == n;
    assert v[i] == AreaOf(area, n);
    PermAtIndex(v, i, p);
  }

  lemma NoneHas(t: Tree, area: AreaMap, p: nat)
    requires forall x :: x in Ids(t) ==> Cmp(area, p)(x) != 0
    ensures PermAt(Areas(InOrder(t), area), p).None?
  {
    hide InOrder, Ids, PermAt;
    var o := InOrder(t);
    forall i | 0 <= i < |o|
      ensures !Areas(o, area)[i].Has(p)
    {
      InOrderIds(t, o[i]);
      assert Cmp(area, p)(o[i]) != 0;
    }
    PermAtNone(Areas(o, area), p);
  }

  /** `rb_first` and `rb_next` walk the areas in order: the node of the first one, and of the one after `k`. */
  method FirstArea(r: Root) returns (n: Ptr)
    requires r.Valid()
    ensures InOrder(r.tree) == [] <==> n == 0
    ensures n != 0 ==> n == InOrder(r.tree)[0]
  {
    hide InOrder, RedBlack;
    n := r.First();
    NoNull(r.tree);
  }

  method NextArea(r: Root, x: Ptr, ghost k: nat) returns (n: Ptr)
    requires r.Valid() && k < |InOrder(r.tree)| && InOrder(r.tree)[k] == x
    ensures n == 0 <==> k + 1 == |InOrder(r.tree)|
    ensures n != 0 ==> n == InOrder(r.tree)[k + 1]
  {
    hide InOrder, RedBlack, Ids;
    InOrderIds(r.tree, x);
    n := r.Neighbor(x, Right);
    NoNull(r.tree);
  }

  lemma {:induction false} NoNull(t: Tree)
    requires Apart(t)
    ensures forall i :: 0 <= i < |InOrder(t)| ==> InOrder(t)[i] != 0
  {
    if t.Branch? {
      NoNull(t.left);
      NoNull(t.right);
    }
  }
}
