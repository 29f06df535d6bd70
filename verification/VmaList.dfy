/**
 The virtual memory areas of one address space, in address order. The source keeps them in a
 red-black tree ordered by start; here they are the in-order sequence of that tree. Addresses are
 page numbers.
 */
module VmaList {
  import opened Options
  import opened Basics

  /** VM_READ, VM_WRITE, VM_EXEC and VM_USER. */
  datatype Perm = Perm(r: bool, w: bool, x: bool, u: bool) {
    predicate Zero() { !r && !w && !x && !u }

    /** `perm | VM_USER`. */
    function User(): Perm { this.(u := true) }
  }

  datatype Vma = Vma(start: nat, end: nat, perm: Perm) {
    predicate Has(p: nat) { start <= p < end }
  }

  /** Non-empty, in order and disjoint. */
  ghost predicate Sorted(v: seq<Vma>) {
    && (forall i :: 0 <= i < |v| ==> v[i].start < v[i].end)
    && (forall i, j :: 0 <= i < j < |v| ==> v[i].end <= v[j].start)
  }

  /** The permissions of page `p`: what the whole list stands for. */
  function PermAt(v: seq<Vma>, p: nat): Option<Perm> {
    if v == [] then None
    else if v[0].Has(p) then Some(v[0].perm)
    else PermAt(v[1..], p)
  }

  lemma {:induction false} PermAtConcat(a: seq<Vma>, b: seq<Vma>, p: nat)
    ensures PermAt(a + b, p) == if PermAt(a, p).Some? then PermAt(a, p) else PermAt(b, p)
  {
    if a == [] {
      assert a + b == b;
    } else {
      assert (a + b)[1..] == a[1..] + b;
      PermAtConcat(a[1..], b, p);
    }
  }

  lemma {:induction false} PermAtNone(v: seq<Vma>, p: nat)
    ensures PermAt(v, p).None? <==> forall i :: 0 <= i < |v| ==> !v[i].Has(p)
  {
    if v != [] {
      PermAtNone(v[1..], p);
      assert forall i :: 1 <= i < |v| ==> v[i] == v[1..][i - 1];
      assert forall i :: 0 <= i < |v[1..]| ==> v[1..][i] == v[i + 1];
    }
  }

  /** Page `p` has the permissions of the one area that contains it. */
  lemma {:induction false} PermAtIndex(v: seq<Vma>, i: nat, p: nat)
    requires Sorted(v) && i < |v| && v[i].Has(p)
    ensures PermAt(v, p) == Some(v[i].perm)
  {
    if i > 0 {
      assert v[0].end <= v[i].start;
      PermAtIndex(v[1..], i - 1, p);
    }
  }

  // ----- Mapping -----

  predicate Overlap(a: nat, b: nat, x: Vma) { a < x.end && x.start < b }

  predicate AnyOverlap(v: seq<Vma>, a: nat, b: nat) {
    exists i :: 0 <= i < |v| && Overlap(a, b, v[i])
  }

  /** How many areas start at or before `start`: where rb_add puts a new one. */
  function Place(v: seq<Vma>, start: nat): (k: nat)
    ensures k <= |v|
    ensures forall i :: 0 <= i < k ==> v[i].start <= start
    ensures k < |v| ==> v[k].start > start
  {
    if v == [] || v[0].start > start then 0 else 1 + Place(v[1..], start)
  }

  function Insert(v: seq<Vma>, x: Vma): seq<Vma> {
    var k := Place(v, x.start);
    v[..k] + [x] + v[k..]
  }

  /** The place that a red-black insertion ordered by `start` chooses is this one. */
  lemma InsertIsAdd(v: seq<Vma>, x: Vma, k: nat)
    requires k <= |v|
    requires forall i :: 0 <= i < k ==> !(x.start < v[i].start)
    requires forall i :: k <= i < |v| ==> x.start < v[i].start
    ensures Insert(v, x) == v[..k] + [x] + v[k..]
  {
    var p := Place(v, x.start);
    assert p < |v| ==> x.start < v[p].start;
    assert k < |v| ==> x.start < v[k].start;
  }

  /** Join areas `k` and `k + 1` if they touch and agree. */
  function Merge(v: seq<Vma>, k: int): seq<Vma> {
    if 0 <= k < |v| - 1 && v[k].end == v[k + 1].start && v[k].perm == v[k + 1].perm
    then v[..k] + [v[k].(end := v[k + 1].end)] + v[k + 2..]
    else v
  }

  /** Insert an area and merge it with the one before and the one after. */
  function MapVmas(v: seq<Vma>, x: Vma): seq<Vma> {
    var k := Place(v, x.start);
    var v1 := Insert(v, x);
    var v2 := Merge(v1, k - 1);
    Merge(v2, if |v2| < |v1| then k - 1 else k)
  }

  lemma NoOverlapUnmapped(v: seq<Vma>, a: nat, b: nat, p: nat)
    requires !AnyOverlap(v, a, b) && a <= p < b
    ensures PermAt(v, p).None?
  {
    forall i | 0 <= i < |v|
      ensures !v[i].Has(p)
    {
      assert !Overlap(a, b, v[i]);
    }
    PermAtNone(v, p);
  }

  /** Some area meets the range if and only if some page of the range is mapped. */
  lemma OverlapIffMapped(v: seq<Vma>, a: nat, b: nat)
    requires Sorted(v) && a < b
    ensures AnyOverlap(v, a, b) <==> exists p: nat :: a <= p < b && PermAt(v, p).Some?
  {
    if AnyOverlap(v, a, b) {
      var i :| 0 <= i < |v| && Overlap(a, b, v[i]);
      var p := Max(a, v[i].start);
      PermAtIndex(v, i, p);
      assert a <= p < b && PermAt(v, p).Some?;
    } else {
      forall p: nat | a <= p < b
        ensures PermAt(v, p).None?
      {
        NoOverlapUnmapped(v, a, b, p);
      }
    }
  }

  lemma InsertSorted(v: seq<Vma>, x: Vma)
    requires Sorted(v) && x.start < x.end && !AnyOverlap(v, x.start, x.end)
    ensures Sorted(Insert(v, x))
  {
    var k := Place(v, x.start);
    hide Place;
    var v' := Insert(v, x);
    assert forall i :: 0 <= i < |v| ==> !Overlap(x.start, x.end, v[i]);
    forall i, j | 0 <= i < j < |v'|
      ensures v'[i].end <= v'[j].start
    {
      assert v'[i] == if i < k then v[i] else if i == k then x else v[i - 1];
      assert v'[j] == if j < k then v[j] else if j == k then x else v[j - 1];
      if j == k { assert !Overlap(x.start, x.end, v[i]); }
      if i == k { assert !Overlap(x.start, x.end, v[j - 1]); assert v[k].start <= v[j - 1].start; }
    }
  }

  lemma InsertPermAt(v: seq<Vma>, x: Vma, p: nat)
    requires !AnyOverlap(v, x.start, x.end)
    ensures PermAt(Insert(v, x), p) == if x.Has(p) then Some(x.perm) else PermAt(v, p)
  {
    var k := Place(v, x.start);
    PermAtConcat(v[..k] + [x], v[k..], p);
    PermAtConcat(v[..k], [x], p);
    PermAtConcat(v[..k], v[k..], p);
    assert v[..k] + v[k..] == v;
    if x.Has(p) { NoOverlapUnmapped(v, x.start, x.end, p); }
  }

  lemma MergeSorted(v: seq<Vma>, k: int)
    requires Sorted(v)
    ensures Sorted(Merge(v, k))
  {
    var v' := Merge(v, k);
    if v' != v {
      assert forall i :: 0 <= i < |v'| ==> v'[i] == if i < k then v[i] else if i == k then v[k].(end := v[k + 1].end) else v[i + 1];
    }
  }

  lemma PermAtReplace(a: seq<Vma>, m: seq<Vma>, m': seq<Vma>, b: seq<Vma>, p: nat)
    requires PermAt(m, p) == PermAt(m', p)
    ensures PermAt(a + m + b, p) == PermAt(a + m' + b, p)
  {
    PermAtConcat(a + m, b, p);
    PermAtConcat(a, m, p);
    PermAtConcat(a + m', b, p);
    PermAtConcat(a, m', p);
  }

  /** Merging neighbours changes no page's permissions. */
  lemma MergePermAt(v: seq<Vma>, k: int, p: nat)
    requires Sorted(v)
    ensures PermAt(Merge(v, k), p) == PermAt(v, p)
  {
    if Merge(v, k) != v {
      var a, x, y, b := v[..k], v[k], v[k + 1], v[k + 2..];
      var m := x.(end := y.end);
      assert v == a + [x, y] + b;
      assert [x, y] == [x] + [y];
      PermAtConcat([x], [y], p);
      assert PermAt([x, y], p) == PermAt([m], p);
      PermAtReplace(a, [x, y], [m], b, p);
    }
  }

  /** Mapping sets the permissions of exactly the new pages and keeps the list sorted. */
  lemma MapVmasSpec(v: seq<Vma>, x: Vma)
    requires Sorted(v) && x.start < x.end && !AnyOverlap(v, x.start, x.end)
    ensures Sorted(MapVmas(v, x))
    ensures forall p: nat :: PermAt(MapVmas(v, x), p) == if x.Has(p) then Some(x.perm) else PermAt(v, p)
  {
    hide Insert, Merge, PermAt, Sorted, Place, AnyOverlap;
    var k: int := Place(v, x.start);
    var v1 := Insert(v, x);
    var v2 := Merge(v1, k - 1);
    var j := if |v2| < |v1| then k - 1 else k;
    InsertSorted(v, x);
    MergeSorted(v1, k - 1);
    MergeSorted(v2, j);
    forall p: nat
      ensures PermAt(MapVmas(v, x), p) == if x.Has(p) then Some(x.perm) else PermAt(v, p)
    {
      InsertPermAt(v, x, p);
      MergePermAt(v1, k - 1, p);
      MergePermAt(v2, j, p);
    }
  }

  // ----- Cutting -----

  function NonEmpty(x: Vma): seq<Vma> { if x.start < x.end then [x] else [] }

  /** What is left of `x` outside [a, b). */
  function Outside(x: Vma, a: nat, b: nat): seq<Vma> {
    NonEmpty(x.(end := Min(x.end, a))) + NonEmpty(x.(start := Max(x.start, b)))
  }

  function UnmapVmas(v: seq<Vma>, a: nat, b: nat): seq<Vma> {
    if v == [] then [] else Outside(v[0], a, b) + UnmapVmas(v[1..], a, b)
  }

  /** `x` cut at `a` and `b`, the middle piece with permissions `perm`. */
  function Recast(x: Vma, a: nat, b: nat, perm: Perm): seq<Vma> {
    NonEmpty(x.(end := Min(x.end, a)))
    + NonEmpty(Vma(Max(x.start, a), Min(x.end, b), perm))
    + NonEmpty(x.(start := Max(x.start, b)))
  }

  function ProtectVmas(v: seq<Vma>, a: nat, b: nat, perm: Perm): seq<Vma> {
    if v == [] then [] else Recast(v[0], a, b, perm) + ProtectVmas(v[1..], a, b, perm)
  }

  /** All of `v` lies at or after `lo`. */
  ghost predicate From(v: seq<Vma>, lo: nat) {
    forall i :: 0 <= i < |v| ==> lo <= v[i].start
  }

  /** All of `v` lies at or before `hi`. */
  ghost predicate Upto(v: seq<Vma>, hi: nat) {
    forall i :: 0 <= i < |v| ==> v[i].end <= hi
  }

  lemma SortedConcat(u: seq<Vma>, v: seq<Vma>, m: nat)
    requires Sorted(u) && Sorted(v) && Upto(u, m) && From(v, m)
    ensures Sorted(u + v)
  {
    forall i, j | 0 <= i < j < |u + v|
      ensures (u + v)[i].end <= (u + v)[j].start
    {
    }
  }

  lemma OutsideSpec(x: Vma, a: nat, b: nat)
    requires x.start < x.end && a <= b
    ensures Sorted(Outside(x, a, b)) && From(Outside(x, a, b), x.start) && Upto(Outside(x, a, b), x.end)
    ensures forall p: nat :: PermAt(Outside(x, a, b), p) == if x.Has(p) && !(a <= p < b) then Some(x.perm) else None
  {
    var u, w := NonEmpty(x.(end := Min(x.end, a))), NonEmpty(x.(start := Max(x.start, b)));
    forall p: nat
      ensures PermAt(u + w, p) == if x.Has(p) && !(a <= p < b) then Some(x.perm) else None
    {
      PermAtConcat(u, w, p);
    }
  }

  /** Unmapping takes the permissions of exactly [a, b) away and keeps the list sorted. */
  lemma {:induction false} UnmapVmasSpec(v: seq<Vma>, a: nat, b: nat, lo: nat)
    requires Sorted(v) && a <= b && From(v, lo)
    ensures Sorted(UnmapVmas(v, a, b)) && From(UnmapVmas(v, a, b), lo)
    ensures forall p: nat :: PermAt(UnmapVmas(v, a, b), p) == if a <= p < b then None else PermAt(v, p)
  {
    if v != [] {
      var x, rest := v[0], v[1..];
      UnmapVmasSpec(rest, a, b, x.end);
      OutsideSpec(x, a, b);
      SortedConcat(Outside(x, a, b), UnmapVmas(rest, a, b), x.end);
      forall p: nat
        ensures PermAt(UnmapVmas(v, a, b), p) == if a <= p < b then None else PermAt(v, p)
      {
        PermAtConcat(Outside(x, a, b), UnmapVmas(rest, a, b), p);
        if x.Has(p) { PermAtNone(rest, p); }
      }
    }
  }

  lemma RecastSpec(x: Vma, a: nat, b: nat, perm: Perm)
    requires x.start < x.end && a <= b
    ensures Sorted(Recast(x, a, b, perm)) && From(Recast(x, a, b, perm), x.start) && Upto(Recast(x, a, b, perm), x.end)
    ensures forall p: nat :: PermAt(Recast(x, a, b, perm), p) ==
                             if !x.Has(p) then None else if a <= p < b then Some(perm) else Some(x.perm)
  {
    var u, m, w := NonEmpty(x.(end := Min(x.end, a))), NonEmpty(Vma(Max(x.start, a), Min(x.end, b), perm)),
                   NonEmpty(x.(start := Max(x.start, b)));
    forall p: nat
      ensures PermAt(u + m + w, p) == if !x.Has(p) then None else if a <= p < b then Some(perm) else Some(x.perm)
    {
      PermAtConcat(u + m, w, p);
      PermAtConcat(u, m, p);
    }
  }

  /** Protecting changes the permissions of exactly the mapped pages of [a, b). */
  lemma {:induction false} ProtectVmasSpec(v: seq<Vma>, a: nat, b: nat, perm: Perm, lo: nat)
    requires Sorted(v) && a <= b && From(v, lo)
    ensures Sorted(ProtectVmas(v, a, b, perm)) && From(ProtectVmas(v, a, b, perm), lo)
    ensures forall p: nat :: PermAt(ProtectVmas(v, a, b, perm), p) ==
                             if PermAt(v, p).Some? && a <= p < b then Some(perm) else PermAt(v, p)
  {
    if v != [] {
      var x, rest := v[0], v[1..];
      ProtectVmasSpec(rest, a, b, perm, x.end);
      RecastSpec(x, a, b, perm);
      SortedConcat(Recast(x, a, b, perm), ProtectVmas(rest, a, b, perm), x.end);
      forall p: nat
        ensures PermAt(ProtectVmas(v, a, b, perm), p) ==
                if PermAt(v, p).Some? && a <= p < b then Some(perm) else PermAt(v, p)
      {
        PermAtConcat(Recast(x, a, b, perm), ProtectVmas(rest, a, b, perm), p);
        if x.Has(p) { PermAtNone(rest, p); }
      }
    }
  }

  // ----- Splitting -----

  /** An area that lies on both sides of `a`. */
  predicate Straddles(x: Vma, a: nat) { x.start < a < x.end }

  predicate NeedsCut(v: seq<Vma>, a: nat) {
    exists i :: 0 <= i < |v| && Straddles(v[i], a)
  }

  /** The list with the area around `a` split there. */
  function Cut(v: seq<Vma>, a: nat): seq<Vma> {
    if v == [] then []
    else if Straddles(v[0], a) then [v[0].(end := a), v[0].(start := a)] + v[1..]
    else [v[0]] + Cut(v[1..], a)
  }

  /** Splitting changes no page's permissions and keeps the list sorted. */
  lemma {:induction false} CutSpec(v: seq<Vma>, a: nat, lo: nat)
    requires Sorted(v) && From(v, lo)
    ensures Sorted(Cut(v, a)) && From(Cut(v, a), lo)
    ensures forall p: nat :: PermAt(Cut(v, a), p) == PermAt(v, p)
    ensures forall i :: 0 <= i < |Cut(v, a)| ==> !Straddles(Cut(v, a)[i], a)
  {
    if v != [] {
      var x, rest := v[0], v[1..];
      assert v == [x] + rest;
      if Straddles(x, a) {
        var l, r := x.(end := a), x.(start := a);
        SortedConcat([l, r], rest, x.end);
        forall p: nat
          ensures PermAt(Cut(v, a), p) == PermAt(v, p)
        {
          CutHalves(x, rest, a, p);
        }
      } else {
        CutSpec(rest, a, x.end);
        SortedConcat([x], Cut(rest, a), x.end);
        forall p: nat
          ensures PermAt(Cut(v, a), p) == PermAt(v, p)
        {
          PermAtConcat([x], Cut(rest, a), p);
        }
      }
    }
  }

  lemma CutHalves(x: Vma, rest: seq<Vma>, a: nat, p: nat)
    requires Straddles(x, a)
    ensures PermAt([x.(end := a), x.(start := a)] + rest, p) == PermAt([x] + rest, p)
  {
    var l, r := x.(end := a), x.(start := a);
    assert [l, r] == [l] + [r];
    PermAtConcat([l], [r], p);
    PermAtConcat([l, r], rest, p);
    PermAtConcat([x], rest, p);
  }

  /** Every page of [a, b) is mapped. */
  ghost predicate Covered(v: seq<Vma>, a: nat, b: nat) {
    forall p: nat :: a <= p < b ==> PermAt(v, p).Some?
  }
}
