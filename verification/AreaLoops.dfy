/**
 The other loops of mm/vma.cc over the red-black tree of areas: the overlap and coverage tests, map with
 its merges, split, protect and destroy.
 */
module AreaLoops {
  import opened Options
  import opened RbShape
  import opened RbCases
  import opened RbTree
  import opened VmaList
  import opened AreaTree
  import opened UnmapTree
  import V = Vmm

  /** The node at place `i` of the order, or null after the last. */
  ghost predicate AtNode(o: seq<Ptr>, i: nat, n: Ptr) { i <= |o| && if i < |o| then n == o[i] && n != 0 else n == 0 }

  lemma AreaCount(o: seq<Ptr>, area: AreaMap)
    ensures |Areas(o, area)| == |o| && forall i :: 0 <= i < |o| ==> Areas(o, area)[i] == AreaOf(area, o[i])
  {
  }

  // ----- Tests -----

  /** `vma_overlaps_locked`. */
  method Overlaps(r: Root, area: AreaMap, a: nat, b: nat) returns (found: bool)
    requires r.Valid()
    ensures found <==> AnyOverlap(Areas(InOrder(r.tree), area), a, b)
  {
    hide InOrder, RedBlack, Areas;
    ghost var o, v, i := InOrder(r.tree), Areas(InOrder(r.tree), area), 0;
    AreaCount(o, area);
    var node := FirstArea(r);
    while node != 0
      invariant AtNode(o, i, node) && forall k :: 0 <= k < i ==> !Overlap(a, b, v[k])
      decreases |o| - i
    {
      if Overlap(a, b, AreaOf(area, node)) {
        assert Overlap(a, b, v[i]);
        return true;
      }
      node := NextArea(r, node, i);
      i := i + 1;
    }
    return false;
  }

  /** `vma_range_covered_locked`. */
  method RangeCovered(r: Root, area: AreaMap, a: nat, b: nat) returns (all: bool)
    requires r.Valid() && Sorted(Areas(InOrder(r.tree), area))
    ensures all <==> Covered(Areas(InOrder(r.tree), area), a, b)
  {
    hide InOrder, RedBlack, Areas, PermAt, Sorted;
    ghost var o, v, i := InOrder(r.tree), Areas(InOrder(r.tree), area), 0;
    AreaCount(o, area);
    var cursor := a;
    var node := FirstArea(r);
    while node != 0 && cursor < b
      invariant AtNode(o, i, node) && a <= cursor
      invariant forall p: nat :: a <= p < cursor ==> PermAt(v, p).Some?
      invariant forall k :: 0 <= k < i ==> v[k].end <= cursor
      decreases |o| - i
    {
      var vma := AreaOf(area, node);
      if vma.end <= cursor {
        node := NextArea(r, node, i);
        i := i + 1;
        continue;
      }
      if vma.start > cursor {
        NotCovered(v, i, cursor);
        return false;
      }
      forall p: nat | cursor <= p < vma.end
        ensures PermAt(v, p).Some?
      {
        PermAtIndex(v, i, p);
      }
      cursor := vma.end;
      node := NextArea(r, node, i);
      i := i + 1;
    }
    if cursor < b { NotCovered(v, i, cursor); }
    return cursor >= b;
  }

  lemma NotCovered(v: seq<Vma>, i: nat, p: nat)
    requires Sorted(v) && i <= |v| && (forall k :: 0 <= k < i ==> v[k].end <= p) && (i < |v| ==> p < v[i].start)
    ensures PermAt(v, p).None?
  {
    forall k | 0 <= k < |v|
      ensures !v[k].Has(p)
    {
      if k > i { assert v[i].end <= v[k].start; }
    }
    PermAtNone(v, p);
  }

  // ----- Map -----

  /** Two areas that touch become one: the first is extended in place and the second erased. */
  method Join(r: Root, area: AreaMap, n: Ptr, next: Ptr, ghost k: nat) returns (area': AreaMap)
    requires r.Valid() && k + 1 < |InOrder(r.tree)| && InOrder(r.tree)[k] == n && InOrder(r.tree)[k + 1] == next
    modifies r
    ensures r.Valid() && r.mem.Keys == old(r.mem.Keys)
    ensures var v := old(Areas(InOrder(r.tree), area));
            Areas(InOrder(r.tree), area') == v[..k] + [v[k].(end := v[k + 1].end)] + v[k + 2..]
    ensures InOrder(r.tree) == old(InOrder(r.tree))[..k + 1] + old(InOrder(r.tree))[k + 2..]
  {
    hide InOrder, RedBlack, Areas, Apart;
    ghost var t, o, v := r.tree, InOrder(r.tree), Areas(InOrder(r.tree), area);
    AreaCount(o, area);
    area' := area[n := AreaOf(area, n).(end := AreaOf(area, next).end)];
    SetArea(t, area, k, v[k].(end := v[k + 1].end));
    AreasParts(o, area', k + 1);
    EraseAt(r, next, k + 1);
    JoinParts(v, k, v[k].(end := v[k + 1].end));
  }

  lemma JoinParts(v: seq<Vma>, k: nat, x: Vma)
    requires k + 1 < |v|
    ensures v[k := x][..k + 1] + v[k := x][k + 2..] == v[..k] + [x] + v[k + 2..]
  {
  }

  /** `vma_try_merge_neighbors_locked` on the node at place `k`. */
  method MergeNeighbors(r: Root, area: AreaMap, n: Ptr, ghost k: nat) returns (area': AreaMap)
    requires r.Valid() && k < |InOrder(r.tree)| && InOrder(r.tree)[k] == n
    modifies r
    ensures r.Valid()
    ensures var v1 := old(Areas(InOrder(r.tree), area));
            var v2 := Merge(v1, k - 1);
            Areas(InOrder(r.tree), area') == Merge(v2, if |v2| < |v1| then k - 1 else k)
  {
    hide InOrder, RedBlack, Areas, Ids;
    ghost var o, v1, i := InOrder(r.tree), Areas(InOrder(r.tree), area), k;
    AreaCount(o, area);
    InOrderIds(r.tree, n);
    NoNull(r.tree);
    var node := n;
    var prev := r.Neighbor(n, Left);
    area' := area;
    if prev != 0 && AreaOf(area, prev).end == AreaOf(area, n).start && AreaOf(area, prev).perm == AreaOf(area, n).perm {
      area' := Join(r, area, prev, n, k - 1);
      node, i := prev, k - 1;
    }
    AreaCount(InOrder(r.tree), area');
    ghost var v2 := Areas(InOrder(r.tree), area');
    assert v2 == Merge(v1, k - 1);
    var next := NextArea(r, node, i);
    if next != 0 && AreaOf(area', node).end == AreaOf(area', next).start && AreaOf(area', node).perm == AreaOf(area', next).perm {
      area' := Join(r, area', node, next, i);
    }
  }

  /** `vmm_map_user` on the tree of areas, with a new node `n`: the areas become those of the map step. */
  method MapArea(r: Root, area: AreaMap, n: Ptr, x: Vma) returns (area': AreaMap, ok: bool)
    requires r.Valid() && Sorted(Areas(InOrder(r.tree), area)) && n != 0 && n in r.mem && n !in Ids(r.tree)
    modifies r
    ensures r.Valid()
    ensures var v := old(Areas(InOrder(r.tree), area));
            && (ok <==> !AnyOverlap(v, x.start, x.end))
            && Areas(InOrder(r.tree), area') == if ok then MapVmas(v, x) else v
  {
    hide InOrder, RedBlack, Areas, Ids, Sorted, Merge, AnyOverlap, Weak, SortedBy;
    ghost var t, o, v := r.tree, InOrder(r.tree), Areas(InOrder(r.tree), area);
    var overlaps := Overlaps(r, area, x.start, x.end);
    if overlaps {
      return area, false;
    }
    area' := area[n := x];
    InOrderIds(t, n);
    SetOther(o, area, n, x);
    OrderedByStart(o, area');
    ghost var k := r.Add(n, Less(area'));
    InsertAreas(o, area', k, n);
    AreaCount(o, area');
    AddPlace(o, area', k, n, x);
    area' := MergeNeighbors(r, area', n, k);
    return area', true;
  }

  lemma AddPlace(o: seq<Ptr>, area: AreaMap, k: nat, n: Ptr, x: Vma)
    requires k <= |o| && AreaOf(area, n) == x
    requires forall i :: 0 <= i < k ==> !Less(area)(n, o[i])
    requires forall i :: k <= i < |o| ==> Less(area)(n, o[i])
    ensures k == Place(Areas(o, area), x.start)
  {
    var v := Areas(o, area);
    var p := Place(v, x.start);
    assert p < |v| ==> x.start < v[p].start == AreaOf(area, o[p]).start;
    assert k < |v| ==> Less(area)(n, o[k]) && v[k].start == AreaOf(area, o[k]).start;
  }

  // ----- Protect -----

  lemma SplitSorted(v: seq<Vma>, i: nat, c: nat)
    requires Sorted(v) && i < |v| && Straddles(v[i], c)
    ensures var w := v[i := v[i].(end := c)]; Sorted(w) && Belongs(w, c, i + 1)
  {
    var w := v[i := v[i].(end := c)];
    forall k | 0 <= k < |w|
      ensures if k < i + 1 then w[k].start < c else c < w[k].start
    {
      if k < i { assert v[k].end <= v[i].start; }
      if k > i { assert v[i].end <= v[k].start; }
    }
  }

  /** The areas while a new node `n` for the second part of the area at `i` waits to be added, and after. */
  lemma SplitParts(t: Tree, area: AreaMap, i: nat, c: nat, n: Ptr)
    requires Apart(t) && i < |InOrder(t)| && Sorted(Areas(InOrder(t), area)) && n !in Ids(t)
    requires Straddles(AreaOf(area, InOrder(t)[i]), c)
    ensures var o, x, v := InOrder(t), AreaOf(area, InOrder(t)[i]), Areas(InOrder(t), area);
            var area' := area[n := x.(start := c)][o[i] := x.(end := c)];
            && Sorted(Areas(o, area')) && Belongs(Areas(o, area'), AreaOf(area', n).start, i + 1)
            && Areas(o[..i + 1] + [n] + o[i + 1..], area') == v[..i] + [x.(end := c), x.(start := c)] + v[i + 1..]
  {
    hide InOrder, Ids, Apart, Areas, Sorted, Belongs;
    var o, x := InOrder(t), AreaOf(area, InOrder(t)[i]);
    var v, area1 := Areas(o, area), area[n := x.(start := c)];
    var area' := area1[o[i] := x.(end := c)];
    InOrderIds(t, n);
    AreaAt(o, area, i);
    SetOther(o, area, n, x.(start := c));
    SetArea(t, area1, i, x.(end := c));
    SplitSorted(v, i, c);
    AreasInsert(o, area', i + 1, n);
    MiddleParts(v, i, x.(end := c), x.(start := c));
  }

  /** `vma_split_locked` on the node at place `i`. */
  method SplitNode(r: Root, area: AreaMap, n: Ptr, split: nat, spare: Ptr, ghost i: nat) returns (area': AreaMap, ok: bool)
    requires r.Valid() && i < |InOrder(r.tree)| && InOrder(r.tree)[i] == n && Sorted(Areas(InOrder(r.tree), area))
    requires spare != 0 ==> spare in r.mem && spare !in Ids(r.tree)
    modifies r
    ensures r.Valid() && r.mem.Keys == old(r.mem.Keys) && Ids(r.tree) <= old(Ids(r.tree)) + {spare}
    ensures ok <==> spare != 0 || !Straddles(AreaOf(area, n), split)
    ensures var v, x := old(Areas(InOrder(r.tree), area)), AreaOf(area, n);
            Areas(InOrder(r.tree), area') ==
            if ok && Straddles(x, split) then v[..i] + [x.(end := split), x.(start := split)] + v[i + 1..] else v
  {
    hide InOrder, Ids, RedBlack, Apart, Areas, Sorted, Belongs;
    var vma := AreaOf(area, n);
    if split <= vma.start || split >= vma.end {
      return area, true;
    }
    if spare == 0 {
      return area, false;
    }
    SplitParts(r.tree, area, i, split, spare);
    area' := area[spare := vma.(start := split)][n := vma.(end := split)];
    AddAt(r, area', spare, i + 1);
    return area', true;
  }

  /** Only the area that has page `key` can go across `split`. */
  lemma OnlyHere(v: seq<Vma>, i: nat, key: nat, split: nat)
    requires Sorted(v) && i < |v| && v[i].Has(key) && key <= split <= key + 1
    ensures NeedsCut(v, split) <==> Straddles(v[i], split)
    ensures Cut(v, split) == if Straddles(v[i], split) then v[..i] + [v[i].(end := split), v[i].(start := split)] + v[i + 1..] else v
  {
    forall k | 0 <= k < |v| && k != i
      ensures !Straddles(v[k], split)
    {
      if k < i { assert v[k].end <= v[i].start; } else { assert v[i].end <= v[k].start; }
    }
    if Straddles(v[i], split) { V.CutAtIndex(v, split, i); } else { V.CutNone(v, split); }
  }

  /** Find the area of page `key`, and split it. */
  method SplitAt(r: Root, area: AreaMap, key: nat, split: nat, spare: Ptr) returns (area': AreaMap, ok: bool)
    requires r.Valid() && Sorted(Areas(InOrder(r.tree), area)) && PermAt(Areas(InOrder(r.tree), area), key).Some?
    requires key <= split <= key + 1 && (spare != 0 ==> spare in r.mem && spare !in Ids(r.tree))
    modifies r
    ensures r.Valid() && r.mem.Keys == old(r.mem.Keys) && Ids(r.tree) <= old(Ids(r.tree)) + {spare}
    ensures var v := old(Areas(InOrder(r.tree), area));
            && (ok <==> spare != 0 || !NeedsCut(v, split))
            && Areas(InOrder(r.tree), area') == if ok then Cut(v, split) else v
  {
    hide InOrder, Ids, RedBlack, Areas, Sorted, PermAt, NeedsCut, Cut;
    ghost var o, v := InOrder(r.tree), Areas(InOrder(r.tree), area);
    var n := FindArea(r, area, key);
    ghost var i :| 0 <= i < |o| && o[i] == n;
    AreaCount(o, area);
    OnlyHere(v, i, key, split);
    area', ok := SplitNode(r, area, n, split, spare, i);
  }

  /** The loop of `vmm_protect_user` over the areas of a range that is cut out. */
  method SetAreas(r: Root, area: AreaMap, a: nat, b: nat, perm: Perm) returns (area': AreaMap)
    requires r.Valid() && a < b && V.CutOut(Areas(InOrder(r.tree), area), a, b)
    ensures Areas(InOrder(r.tree), area') == V.SetPerms(Areas(InOrder(r.tree), area), a, b, perm)
  {
    hide InOrder, RedBlack, Areas, PermAt, V.SetPerms, Sorted, Apart;
    ghost var o, w := InOrder(r.tree), Areas(InOrder(r.tree), area);
    AreaCount(o, area);
    CutCovers(w, a, b);
    var node := FindArea(r, area, a);
    ghost var i :| 0 <= i < |o| && o[i] == node;
    ghost var c := a;
    CutStart(w, a, b, i);
    NothingSet(w, a, perm);
    area' := area;
    while node != 0
      invariant AtNode(o, i, node) && a <= c <= b && Areas(o, area') == V.SetPerms(w, a, c, perm)
      invariant (i > 0 ==> w[i - 1].end <= c) && (i < |w| ==> c <= w[i].start)
      decreases |o| - i
    {
      AreaCount(o, area');
      SetAfter(w, a, c, i, perm);
      var vma := AreaOf(area', node);
      if vma.start >= b {
        break;
      }
      if c < b { V.NextArea(w, a, b, i, c); }
      V.SetPermsNext(w, a, i, c, perm);
      SetArea(r.tree, area', i, vma.(perm := perm));
      area' := area'[node := vma.(perm := perm)];
      node := NextArea(r, node, i);
      c, i := w[i].end, i + 1;
      AfterArea(w, i);
    }
    if c < b { V.NextArea(w, a, b, i, c); }
  }

  lemma CutCovers(w: seq<Vma>, a: nat, b: nat)
    requires V.CutOut(w, a, b) && a < b
    ensures Sorted(w) && PermAt(w, a).Some?
  {
  }

  lemma CutStart(w: seq<Vma>, a: nat, b: nat, i: nat)
    requires V.CutOut(w, a, b) && i < |w| && w[i].Has(a)
    ensures w[i].start == a && (i > 0 ==> w[i - 1].end <= a)
  {
    assert !Straddles(w[i], a);
  }

  lemma NothingSet(w: seq<Vma>, a: nat, perm: Perm)
    requires Sorted(w)
    ensures V.SetPerms(w, a, a, perm) == w
  {
    assert forall i :: 0 <= i < |w| ==> !(a <= w[i].start && w[i].end <= a);
  }

  lemma SetAfter(w: seq<Vma>, a: nat, c: nat, i: nat, perm: Perm)
    requires Sorted(w) && i < |w| && c <= w[i].start
    ensures |V.SetPerms(w, a, c, perm)| == |w| && V.SetPerms(w, a, c, perm)[i] == w[i]
  {
  }

  lemma AfterArea(w: seq<Vma>, i: nat)
    requires Sorted(w) && 0 < i <= |w|
    ensures i < |w| ==> w[i - 1].end <= w[i].start
  {
  }

  /**
   `vmm_protect_user` on the tree of areas, with two new nodes or null for want of memory: the areas become
   those of the protect step, also when it fails.
   */
  method ProtectAreas(r: Root, area: AreaMap, a: nat, b: nat, perm: Perm, spare1: Ptr, spare2: Ptr)
    returns (area': AreaMap, ok: bool)
    requires r.Valid() && a < b && Sorted(Areas(InOrder(r.tree), area))
    requires spare1 != 0 ==> spare1 in r.mem && spare1 !in Ids(r.tree)
    requires spare2 != 0 ==> spare2 in r.mem && spare2 !in Ids(r.tree) && spare1 != spare2
    modifies r
    ensures r.Valid()
    ensures var v := old(Areas(InOrder(r.tree), area));
            if !Covered(v, a, b) || (spare1 == 0 && NeedsCut(v, a)) then !ok && Areas(InOrder(r.tree), area') == v
            else if spare2 == 0 && NeedsCut(v, b) then !ok && Areas(InOrder(r.tree), area') == Cut(v, a)
            else ok && Areas(InOrder(r.tree), area') == ProtectVmas(v, a, b, perm)
  {
    hide InOrder, Ids, RedBlack, Areas, Sorted, PermAt, NeedsCut, Cut, ProtectVmas, V.SetPerms, Covered, V.CutOut;
    ghost var v := Areas(InOrder(r.tree), area);
    area' := area;
    var covered := RangeCovered(r, area, a, b);
    if !covered {
      return area, false;
    }
    V.CutTwice(v, a, b);
    CoveredAt(v, a, b, a);
    CoveredAt(Cut(v, a), a, b, b - 1);
    area', ok := SplitAt(r, area', a, a, spare1);
    if !ok {
      return;
    }
    area', ok := SplitAt(r, area', b - 1, b, spare2);
    if !ok {
      return;
    }
    V.ProtectIsCut(v, a, b, perm);
    area' := SetAreas(r, area', a, b, perm);
  }

  lemma CoveredAt(v: seq<Vma>, a: nat, b: nat, p: nat)
    requires Covered(v, a, b) && a <= p < b
    ensures PermAt(v, p).Some?
  {
  }

  // ----- Destroy -----

  /** The loop of `destroy`: every area is visited once, in order, and erased. */
  method DestroyAreas(r: Root, area: AreaMap) returns (visited: seq<Vma>)
    requires r.Valid()
    modifies r
    ensures r.Valid() && InOrder(r.tree) == [] && visited == old(Areas(InOrder(r.tree), area))
  {
    hide InOrder, Ids, RedBlack;
    ghost var o, j := InOrder(r.tree), 0;
    visited := [];
    var node := FirstArea(r);
    while node != 0
      invariant r.Valid() && j <= |o| && InOrder(r.tree) == o[j..] && AtNode(o, j, node)
      invariant visited == Areas(o[..j], area)
      decreases |o| - j
    {
      visited := visited + [AreaOf(area, node)];
      var next := NextArea(r, node, 0);
      EraseAt(r, node, 0);
      node, j := next, j + 1;
    }
    assert o[..j] == o;
  }
}
