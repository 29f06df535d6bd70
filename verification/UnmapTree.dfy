/**
 `vmm_unmap_user` over the red-black tree itself: areas are changed in place while they are linked, and
 the next node is remembered across erasures and insertions.
 */
module UnmapTree {
  import opened RbShape
  import opened RbMemory
  import opened RbCases
  import opened RbTree
  import opened VmaList
  import opened VmSteps
  import opened AreaTree
  import V = Vmm

  // ----- Areas in place -----

  /** Changing the area of one linked node changes one element of the sequence. */
  lemma SetArea(t: Tree, area: AreaMap, i: nat, x: Vma)
    requires Apart(t) && i < |InOrder(t)|
    ensures Areas(InOrder(t), area[InOrder(t)[i] := x]) == Areas(InOrder(t), area)[i := x]
  {
    PlaceOf(t, i);
  }

  /** Changing the area of a node that is not linked changes nothing. */
  lemma SetOther(o: seq<Ptr>, area: AreaMap, n: Ptr, x: Vma)
    requires n !in o
    ensures Areas(o, area[n := x]) == Areas(o, area)
  {
  }

  lemma AreasParts(o: seq<Ptr>, area: AreaMap, i: nat)
    requires i < |o|
    ensures Areas(o[..i] + o[i + 1..], area) == Areas(o, area)[..i] + Areas(o, area)[i + 1..]
  {
  }

  lemma SortedRemove(v: seq<Vma>, i: nat)
    requires Sorted(v) && i < |v|
    ensures Sorted(v[..i] + v[i + 1..])
  {
  }

  // ----- The sequence while the loop is under way -----

  /** The areas when the first `j` of them have been dealt with. */
  function Part(v: seq<Vma>, a: nat, b: nat, j: nat): seq<Vma>
    requires j <= |v|
  {
    UnmapVmas(v[..j], a, b) + v[j..]
  }

  lemma {:induction false} UnmapUpto(v: seq<Vma>, a: nat, b: nat, hi: nat)
    requires Sorted(v) && Upto(v, hi) && a <= b
    ensures Upto(UnmapVmas(v, a, b), hi)
  {
    if v != [] {
      assert v[0].end <= hi;
      UnmapUpto(v[1..], a, b, hi);
    }
  }

  lemma PartSorted(v: seq<Vma>, a: nat, b: nat, j: nat)
    requires Sorted(v) && a <= b && j <= |v|
    ensures Sorted(Part(v, a, b, j))
  {
    UnmapVmasSpec(v[..j], a, b, 0);
    if j < |v| {
      UnmapUpto(v[..j], a, b, v[j].start);
      SortedConcat(UnmapVmas(v[..j], a, b), v[j..], v[j].start);
    } else {
      assert v[j..] == [];
    }
  }

  /** One more area: it is replaced by what lies outside the range. */
  lemma PartNext(v: seq<Vma>, a: nat, b: nat, j: nat)
    requires j < |v|
    ensures var w, i := Part(v, a, b, j), |UnmapVmas(v[..j], a, b)|;
            && i < |w| && w[i] == v[j] && |w| == i + |v| - j
            && Part(v, a, b, j + 1) == w[..i] + Outside(v[j], a, b) + w[i + 1..]
            && |UnmapVmas(v[..j + 1], a, b)| == i + |Outside(v[j], a, b)|
  {
    V.UnmapVmasNext(v, a, b, j);
    var u := UnmapVmas(v[..j], a, b);
    assert (u + v[j..])[..|u|] + Outside(v[j], a, b) + (u + v[j..])[|u| + 1..] == u + Outside(v[j], a, b) + v[j + 1..];
  }

  // ----- The four ways to take a range out of an area -----

  /** Erase the node at place `i`. */
  method EraseAt(r: Root, n: Ptr, ghost i: nat)
    requires r.Valid() && i < |InOrder(r.tree)| && InOrder(r.tree)[i] == n
    modifies r
    ensures r.Valid() && r.mem.Keys == old(r.mem.Keys)
    ensures InOrder(r.tree) == old(InOrder(r.tree))[..i] + old(InOrder(r.tree))[i + 1..]
    ensures Ids(r.tree) == old(Ids(r.tree)) - {n}
  {
    hide InOrder, Ids, RedBlack, Apart;
    InOrderIds(r.tree, n);
    PlaceOf(r.tree, i);
    ghost var t := r.tree;
    ghost var k := r.Erase(n);
    IdsRemoved(t, r.tree, i);
  }

  lemma IdsRemoved(t: Tree, t': Tree, i: nat)
    requires Apart(t) && i < |InOrder(t)| && InOrder(t') == InOrder(t)[..i] + InOrder(t)[i + 1..]
    ensures Ids(t') == Ids(t) - {InOrder(t)[i]}
  {
    hide InOrder, Ids, Apart;
    PlaceOf(t, i);
    var o := InOrder(t);
    forall x
      ensures x in Ids(t') <==> x in Ids(t) && x != o[i]
    {
      InOrderIds(t, x);
      InOrderIds(t', x);
    }
  }

  /** Add a node whose area belongs at place `i`. */
  method AddAt(r: Root, area: AreaMap, n: Ptr, ghost i: nat)
    requires r.Valid() && n != 0 && n in r.mem && n !in Ids(r.tree) && Sorted(Areas(InOrder(r.tree), area))
    requires Belongs(Areas(InOrder(r.tree), area), AreaOf(area, n).start, i)
    modifies r
    ensures r.Valid() && r.mem.Keys == old(r.mem.Keys)
    ensures i <= |old(InOrder(r.tree))|
    ensures InOrder(r.tree) == old(InOrder(r.tree))[..i] + [n] + old(InOrder(r.tree))[i..]
    ensures Ids(r.tree) == old(Ids(r.tree)) + {n}
  {
    hide InOrder, Ids, RedBlack, Sorted, Weak, SortedBy;
    ghost var t, o := r.tree, InOrder(r.tree);
    OrderedByStart(o, area);
    ghost var k := r.Add(n, Less(area));
    OnePlace(o, area, n, k, i);
    IdsAdded(t, r.tree, k, n);
  }

  /** Everything before place `i` starts before `start`, and everything from there on after it. */
  ghost predicate Belongs(v: seq<Vma>, start: nat, i: nat) {
    && i <= |v| && (forall k :: 0 <= k < i ==> v[k].start < start) && forall k :: i <= k < |v| ==> start < v[k].start
  }

  lemma OnePlace(o: seq<Ptr>, area: AreaMap, n: Ptr, k: nat, i: nat)
    requires k <= |o| && Belongs(Areas(o, area), AreaOf(area, n).start, i)
    requires forall x :: 0 <= x < k ==> !Less(area)(n, o[x])
    requires forall x :: k <= x < |o| ==> Less(area)(n, o[x])
    ensures k == i
  {
    var v := Areas(o, area);
    assert k < |o| ==> v[k].start == AreaOf(area, o[k]).start && Less(area)(n, o[k]);
    assert i < |o| ==> v[i].start == AreaOf(area, o[i]).start && AreaOf(area, n).start < v[i].start;
  }

  /** Move the front of an area: it is erased, changed and added again, at the same place. */
  method MoveFront(r: Root, area: AreaMap, n: Ptr, start: nat, ghost i: nat) returns (area': AreaMap)
    requires r.Valid() && i < |InOrder(r.tree)| && InOrder(r.tree)[i] == n && n in r.mem
    requires Sorted(Areas(InOrder(r.tree), area)) && AreaOf(area, n).start <= start < AreaOf(area, n).end
    modifies r
    ensures r.Valid() && r.mem.Keys == old(r.mem.Keys)
    ensures area' == area[n := AreaOf(area, n).(start := start)]
    ensures InOrder(r.tree) == old(InOrder(r.tree)) && Ids(r.tree) == old(Ids(r.tree))
  {
    hide InOrder, Ids, RedBlack, Apart, Areas;
    ghost var o := InOrder(r.tree);
    InOrderIds(r.tree, n);
    NodeNotNull(r.tree, i);
    MovedPlace(r.tree, area, start, i);
    EraseAt(r, n, i);
    area' := area[n := AreaOf(area, n).(start := start)];
    AddAt(r, area', n, i);
    assert o == o[..i] + [n] + o[i + 1..];
  }

  lemma NodeNotNull(t: Tree, i: nat)
    requires Apart(t) && i < |InOrder(t)|
    ensures InOrder(t)[i] != 0
  {
    NoNull(t);
  }

  /** Without the node, its changed area still belongs where it was. */
  lemma MovedPlace(t: Tree, area: AreaMap, start: nat, i: nat)
    requires Apart(t) && i < |InOrder(t)| && Sorted(Areas(InOrder(t), area))
    requires var x := AreaOf(area, InOrder(t)[i]); x.start <= start < x.end
    ensures var o, n := InOrder(t), InOrder(t)[i];
            var o', area' := o[..i] + o[i + 1..], area[n := AreaOf(area, n).(start := start)];
            Sorted(Areas(o', area')) && Belongs(Areas(o', area'), AreaOf(area', n).start, i)
  {
    hide InOrder, Apart;
    var o, v, n := InOrder(t), Areas(InOrder(t), area), InOrder(t)[i];
    var o' := o[..i] + o[i + 1..];
    PlaceOf(t, i);
    assert n !in o';
    SetOther(o', area, n, AreaOf(area, n).(start := start));
    AreasParts(o, area, i);
    SortedRemove(v, i);
    var w := v[..i] + v[i + 1..];
    assert v[i] == AreaOf(area, n);
    forall k | 0 <= k < |w|
      ensures if k < i then w[k].start < start else start < w[k].start
    {
      if k < i { assert v[k].end <= v[i].start; } else { assert v[i].end <= v[k + 1].start; }
    }
  }

  /** The node and its area replaced by what lies outside [a, b), with the rest of the tree as it was. */
  ghost predicate TakenOut(o: seq<Ptr>, area: AreaMap, o': seq<Ptr>, area': AreaMap, i: nat, a: nat, b: nat)
    requires i < |o|
  {
    var v, x := Areas(o, area), AreaOf(area, o[i]);
    && Areas(o', area') == v[..i] + Outside(x, a, b) + v[i + 1..]
    && |o'| == |o| - 1 + |Outside(x, a, b)| && o'[i + |Outside(x, a, b)|..] == o[i + 1..]
  }

  /** The body of the loop, for an area that meets [a, b). `spare` is a new node, or null for want of memory. */
  method TakeOut(r: Root, area: AreaMap, n: Ptr, a: nat, b: nat, spare: Ptr, ghost i: nat) returns (area': AreaMap, ok: bool)
    requires r.Valid() && i < |InOrder(r.tree)| && InOrder(r.tree)[i] == n && n in r.mem && a < b
    requires Sorted(Areas(InOrder(r.tree), area)) && a < AreaOf(area, n).end && AreaOf(area, n).start < b
    requires spare != 0 ==> spare in r.mem && spare !in Ids(r.tree)
    modifies r
    ensures r.Valid() && r.mem.Keys == old(r.mem.Keys)
    ensures ok <==> spare != 0 || !(AreaOf(area, n).start < a && b < AreaOf(area, n).end)
    ensures !ok ==> area' == area && InOrder(r.tree) == old(InOrder(r.tree))
    ensures ok ==> TakenOut(old(InOrder(r.tree)), area, InOrder(r.tree), area', i, a, b)
    ensures Ids(r.tree) <= old(Ids(r.tree)) + {spare}
    ensures !(AreaOf(area, n).start < a && b < AreaOf(area, n).end) ==> Ids(r.tree) <= old(Ids(r.tree))
  {
    hide InOrder, Ids, RedBlack, Apart, TakenOut;
    ghost var t := r.tree;
    var vma := AreaOf(area, n);
    area', ok := area, true;
    NonEmptyAt(t, area, i);
    if a <= vma.start && vma.end <= b {
      GoneOut(t, area, i, a, b);
      EraseAt(r, n, i);
    } else if a <= vma.start {
      FrontOut(t, area, i, a, b);
      area' := MoveFront(r, area, n, b, i);
    } else if vma.end <= b {
      BackOut(t, area, i, a, b);
      area' := area[n := vma.(end := a)];
    } else if spare == 0 {
      ok := false;
    } else {
      MiddleOut(t, area, i, a, b, spare);
      area' := area[spare := vma.(start := b)][n := vma.(end := a)];
      AddAt(r, area', spare, i + 1);
    }
  }

  lemma NonEmptyAt(t: Tree, area: AreaMap, i: nat)
    requires i < |InOrder(t)| && Sorted(Areas(InOrder(t), area))
    ensures var x := AreaOf(area, InOrder(t)[i]); x.start < x.end
  {
    assert Areas(InOrder(t), area)[i] == AreaOf(area, InOrder(t)[i]);
  }

  lemma GoneOut(t: Tree, area: AreaMap, i: nat, a: nat, b: nat)
    requires i < |InOrder(t)|
    requires var x := AreaOf(area, InOrder(t)[i]); a <= x.start < x.end <= b
    ensures var o := InOrder(t); TakenOut(o, area, o[..i] + o[i + 1..], area, i, a, b)
  {
    var o := InOrder(t);
    AreasParts(o, area, i);
    assert Outside(AreaOf(area, o[i]), a, b) == [];
  }

  lemma FrontOut(t: Tree, area: AreaMap, i: nat, a: nat, b: nat)
    requires Apart(t) && i < |InOrder(t)|
    requires var x := AreaOf(area, InOrder(t)[i]); a <= x.start < b < x.end
    ensures var o, x := InOrder(t), AreaOf(area, InOrder(t)[i]);
            TakenOut(o, area, o, area[o[i] := x.(start := b)], i, a, b)
  {
    hide InOrder, Apart, Areas;
    var o, x := InOrder(t), AreaOf(area, InOrder(t)[i]);
    AreaAt(o, area, i);
    assert Outside(x, a, b) == [x.(start := b)];
    SetArea(t, area, i, x.(start := b));
  }

  lemma BackOut(t: Tree, area: AreaMap, i: nat, a: nat, b: nat)
    requires Apart(t) && i < |InOrder(t)|
    requires var x := AreaOf(area, InOrder(t)[i]); x.start < a < x.end <= b
    ensures var o, x := InOrder(t), AreaOf(area, InOrder(t)[i]);
            TakenOut(o, area, o, area[o[i] := x.(end := a)], i, a, b)
  {
    hide InOrder, Apart, Areas;
    var o, x := InOrder(t), AreaOf(area, InOrder(t)[i]);
    AreaAt(o, area, i);
    assert Outside(x, a, b) == [x.(end := a)];
    SetArea(t, area, i, x.(end := a));
  }

  lemma MiddleOut(t: Tree, area: AreaMap, i: nat, a: nat, b: nat, n: Ptr)
    requires Apart(t) && i < |InOrder(t)| && Sorted(Areas(InOrder(t), area)) && n !in Ids(t)
    requires var x := AreaOf(area, InOrder(t)[i]); x.start < a < b < x.end
    ensures var o, x := InOrder(t), AreaOf(area, InOrder(t)[i]);
            var area' := area[n := x.(start := b)][o[i] := x.(end := a)];
            && Sorted(Areas(o, area')) && Belongs(Areas(o, area'), AreaOf(area', n).start, i + 1)
            && TakenOut(o, area, o[..i + 1] + [n] + o[i + 1..], area', i, a, b)
  {
    hide InOrder, Ids, Apart, Areas, Outside, Sorted, Belongs;
    var o, x := InOrder(t), AreaOf(area, InOrder(t)[i]);
    var v, area1 := Areas(o, area), area[n := x.(start := b)];
    var area' := area1[o[i] := x.(end := a)];
    InOrderIds(t, n);
    AreaAt(o, area, i);
    SetOther(o, area, n, x.(start := b));
    SetArea(t, area1, i, x.(end := a));
    MiddleSorted(v, i, a, b);
    TwoOutside(x, a, b);
    AreasInsert(o, area', i + 1, n);
    MiddleParts(v, i, x.(end := a), x.(start := b));
    var o' := o[..i + 1] + [n] + o[i + 1..];
    assert o'[i + 2..] == o[i + 1..];
  }

  lemma AreaAt(o: seq<Ptr>, area: AreaMap, i: nat)
    requires i < |o|
    ensures |Areas(o, area)| == |o| && Areas(o, area)[i] == AreaOf(area, o[i])
  {
  }

  lemma TwoOutside(x: Vma, a: nat, b: nat)
    requires x.start < a < b < x.end
    ensures Outside(x, a, b) == [x.(end := a), x.(start := b)]
  {
  }

  lemma AreasInsert(o: seq<Ptr>, area: AreaMap, i: nat, n: Ptr)
    requires i <= |o|
    ensures |Areas(o, area)| == |o|
    ensures Areas(o[..i] + [n] + o[i..], area) == Areas(o, area)[..i] + [AreaOf(area, n)] + Areas(o, area)[i..]
  {
  }

  lemma MiddleParts(v: seq<Vma>, i: nat, x: Vma, y: Vma)
    requires i < |v|
    ensures v[i := x][..i + 1] + [y] + v[i := x][i + 1..] == v[..i] + [x, y] + v[i + 1..]
  {
  }

  lemma MiddleSorted(v: seq<Vma>, i: nat, a: nat, b: nat)
    requires Sorted(v) && i < |v| && v[i].start < a < b < v[i].end
    ensures var w := v[i := v[i].(end := a)]; Sorted(w) && Belongs(w, b, i + 1)
  {
    var w := v[i := v[i].(end := a)];
    forall k | 0 <= k < |w|
      ensures if k < i + 1 then w[k].start < b else b < w[k].start
    {
      if k < i { assert v[k].end <= v[i].start; }
      if k > i { assert v[i].end <= v[k].start; }
    }
  }

  // ----- The loop -----

  /** The tree and the areas when the first `j` areas have been dealt with. */
  ghost predicate Reached(r: Root, area: AreaMap, v: seq<Vma>, a: nat, b: nat, j: nat)
    reads r
  {
    j <= |v| && r.Valid() && Areas(InOrder(r.tree), area) == Part(v, a, b, j)
  }

  /** The node at which the loop is then: that of the next area, or null. */
  ghost predicate Cursor(o: seq<Ptr>, v: seq<Vma>, a: nat, b: nat, j: nat, n: Ptr)
    requires j <= |v|
  {
    var i := |UnmapVmas(v[..j], a, b)|;
    |o| == i + |v| - j && if j < |v| then n == o[i] && n != 0 else n == 0
  }

  lemma {:induction false} IdsHeld(m: Memory, t: Tree, parent: Ptr)
    requires Holds(m, t, parent)
    ensures Ids(t) <= m.Keys
  {
    if t.Branch? {
      IdsHeld(m, t.left, t.id);
      IdsHeld(m, t.right, t.id);
    }
  }

  lemma PartStart(o: seq<Ptr>, v: seq<Vma>, a: nat, b: nat, n: Ptr)
    requires |o| == |v| && (o == [] <==> n == 0) && (n != 0 ==> n == o[0])
    ensures Part(v, a, b, 0) == v && Cursor(o, v, a, b, 0, n)
  {
    assert v[..0] == [] && v[0..] == v;
  }

  lemma CursorAt(o: seq<Ptr>, v: seq<Vma>, a: nat, b: nat, j: nat, n: Ptr)
    requires j <= |v| && Cursor(o, v, a, b, j, n) && n != 0
    ensures var i := |UnmapVmas(v[..j], a, b)|; j < |v| && |o| == i + |v| - j && i < |o| && o[i] == n
  {
  }

  lemma CursorEnd(o: seq<Ptr>, v: seq<Vma>, a: nat, b: nat, j: nat)
    requires j <= |v| && Cursor(o, v, a, b, j, 0)
    ensures j == |v|
  {
  }

  /** An area before the range stays, and the loop goes on to the next. */
  lemma SkipArea(v: seq<Vma>, a: nat, b: nat, j: nat, o: seq<Ptr>, next: Ptr)
    requires j < |v| && v[j].start < v[j].end <= a < b && |o| == |UnmapVmas(v[..j], a, b)| + |v| - j
    requires var i := |UnmapVmas(v[..j], a, b)|; (next == 0 <==> i + 1 == |o|) && (next != 0 ==> next == o[i + 1])
    ensures Part(v, a, b, j + 1) == Part(v, a, b, j) && Cursor(o, v, a, b, j + 1, next)
  {
    hide UnmapVmas, Outside, Part;
    PartNext(v, a, b, j);
    AllOutside(v[j], a, b);
    var w, i := Part(v, a, b, j), |UnmapVmas(v[..j], a, b)|;
    assert w[..i] + [w[i]] + w[i + 1..] == w;
  }

  lemma AllOutside(x: Vma, a: nat, b: nat)
    requires x.start < x.end <= a < b
    ensures Outside(x, a, b) == [x]
  {
  }

  /** After the body of the loop the remembered node is that of the next area. */
  lemma NextReached(v: seq<Vma>, a: nat, b: nat, j: nat, o: seq<Ptr>, o': seq<Ptr>, next: Ptr)
    requires j < |v| && |o| == |UnmapVmas(v[..j], a, b)| + |v| - j
    requires var i, n := |UnmapVmas(v[..j], a, b)|, |Outside(v[j], a, b)|;
             && |o'| == |o| - 1 + n && o'[i + n..] == o[i + 1..]
             && (next == 0 <==> i + 1 == |o|) && (next != 0 ==> next == o[i + 1])
    ensures Cursor(o', v, a, b, j + 1, next)
  {
    PartNext(v, a, b, j);
    var i, n := |UnmapVmas(v[..j], a, b)|, |Outside(v[j], a, b)|;
    assert next != 0 ==> o'[i + n..][0] == o[i + 1..][0];
  }

  lemma AreaInside(v: seq<Vma>, a: nat, b: nat, j: nat)
    requires Sorted(v) && j < |v| && v[j].start < a < b < v[j].end
    ensures Inside(v, a, b) && Part(v, a, b, j) == v
  {
    V.UnmapBefore(v, a, b, j);
  }

  lemma PartEnd(v: seq<Vma>, a: nat, b: nat, j: nat)
    requires Sorted(v) && a < b && j <= |v| && (j < |v| ==> b <= v[j].start)
    ensures Part(v, a, b, j) == UnmapVmas(v, a, b)
    ensures NoneInside(v, a, b, j) ==> !Inside(v, a, b)
  {
    V.UnmapRest(v, a, b, j);
    forall k | j <= k < |v|
      ensures b <= v[k].start
    {
      if k > j { assert v[j].end <= v[k].start; }
    }
  }

  lemma NonEmptyArea(v: seq<Vma>, j: nat)
    requires Sorted(v) && j < |v|
    ensures v[j].start < v[j].end
  {
  }

  /**
   `vmm_unmap_user` on the tree of areas: they become what is left of them outside [a, b). It fails, and
   changes none of them, if and only if there is no node for the second part of an area that contains
   the range with room on both sides.
   */
  method UnmapAreas(r: Root, area0: AreaMap, a: nat, b: nat, spare: Ptr) returns (area: AreaMap, ok: bool)
    requires r.Valid() && a < b && Sorted(Areas(InOrder(r.tree), area0))
    requires spare != 0 ==> spare in r.mem && spare !in Ids(r.tree)
    modifies r
    ensures r.Valid()
    ensures var v := old(Areas(InOrder(r.tree), area0));
            && (ok <==> spare != 0 || !Inside(v, a, b))
            && Areas(InOrder(r.tree), area) == if ok then UnmapVmas(v, a, b) else v
  {
    hide InOrder, Ids, RedBlack, Apart, Part, UnmapVmas, Sorted, Inside, Cursor, Outside;
    ghost var v, j := Areas(InOrder(r.tree), area0), 0;
    area, ok := area0, true;
    var node := FirstArea(r);
    PartStart(InOrder(r.tree), v, a, b, node);
    while node != 0
      invariant Reached(r, area, v, a, b, j) && Cursor(InOrder(r.tree), v, a, b, j, node) && Sorted(v)
      invariant spare != 0 ==> spare in r.mem && spare !in Ids(r.tree)
      invariant ok && NoneInside(v, a, b, j)
      decreases |v| - j
    {
      ghost var i := |UnmapVmas(v[..j], a, b)|;
      CursorAt(InOrder(r.tree), v, a, b, j, node);
      PartNext(v, a, b, j);
      PartSorted(v, a, b, j);
      NonEmptyArea(v, j);
      assert Areas(InOrder(r.tree), area)[i] == AreaOf(area, node);
      var vma := AreaOf(area, node);
      var next := NextArea(r, node, i);
      if vma.end <= a {
        SkipArea(v, a, b, j, InOrder(r.tree), next);
        node, j := next, j + 1;
        continue;
      }
      if vma.start >= b {
        break;
      }
      InOrderIds(r.tree, node);
      IdsHeld(r.mem, r.tree, 0);
      ghost var o := InOrder(r.tree);
      area, ok := TakeOut(r, area, node, a, b, spare, i);
      if !ok {
        AreaInside(v, a, b, j);
        return;
      }
      NextReached(v, a, b, j, o, InOrder(r.tree), next);
      j := j + 1;
      if vma.start < a && b < vma.end {
        V.SortedNext(v, j);
        break;
      }
      node := next;
    }
    if node == 0 { CursorEnd(InOrder(r.tree), v, a, b, j); }
    PartEnd(v, a, b, j);
  }

  /** None of the first `j` areas contains [a, b) with room on both sides. */
  ghost predicate NoneInside(v: seq<Vma>, a: nat, b: nat, j: nat) {
    forall k :: 0 <= k < j && k < |v| ==> !(v[k].start < a && b < v[k].end)
  }
}
