/**
 The exception table of arch/riscv/trap/extable.cc. An entry stores its two addresses relative to
 where it lies itself, so moving an entry means rewriting it.
 */
module Extable {
  import opened Basics

  /** Relative offsets, as 32-bit signed numbers. */
  datatype Entry = Entry(insn: int, fixup: int)

  /** What an entry stands for. */
  datatype Pair = Pair(insn: int, fixup: int)

  const INT_MIN: int := -0x8000_0000
  const INT_MAX: int := 0x7FFF_FFFF

  /** `static_cast<int32>`. */
  function AsInt32(x: int): (r: int)
    ensures INT_MIN <= r <= INT_MAX
    ensures r == x <==> INT_MIN <= x <= INT_MAX
  {
    var m := x % U32;
    if m > INT_MAX then m - U32 else m
  }

  /** The addresses of the two fields of entry `i`. */
  function InsnAt(base: int, i: int): int { base + 8 * i }
  function FixupAt(base: int, i: int): int { base + 8 * i + 4 }

  function Decode(base: int, i: int, e: Entry): Pair {
    Pair(InsnAt(base, i) + e.insn, FixupAt(base, i) + e.fixup)
  }

  function View(base: int, es: seq<Entry>): (v: seq<Pair>)
    ensures |v| == |es|
  {
    seq(|es|, i requires 0 <= i < |es| => Decode(base, i, es[i]))
  }

  /** Entry `i` is eight bytes, two offsets from their own addresses. */
  lemma Layout(base: int, es: seq<Entry>, i: nat)
    requires i < |es|
    ensures View(base, es)[i] == Pair(base + 8 * i + es[i].insn, base + 8 * i + 4 + es[i].fixup)
  {
  }

  /** Entry `i`, rewritten to stand for `p`. */
  function Rewritten(base: int, i: int, p: Pair): Entry {
    Entry(AsInt32(p.insn - InsnAt(base, i)), AsInt32(p.fixup - FixupAt(base, i)))
  }

  /** `p` can be written at place `i`. */
  predicate Reaches(base: int, i: int, p: Pair) {
    && INT_MIN <= p.insn - InsnAt(base, i) <= INT_MAX
    && INT_MIN <= p.fixup - FixupAt(base, i) <= INT_MAX
  }

  /** Rewriting is exact if and only if both offsets fit in 32 bits. */
  lemma RewrittenIff(base: int, i: int, p: Pair)
    ensures Decode(base, i, Rewritten(base, i, p)) == p <==> Reaches(base, i, p)
  {
  }

  /** Every address is within 2 GB of every entry of the table. */
  ghost predicate Near(base: int, v: seq<Pair>) {
    forall k, i :: 0 <= k < |v| && 0 <= i < |v| ==> Reaches(base, i, v[k])
  }

  function Swapped(v: seq<Pair>, i: nat, j: nat): seq<Pair>
    requires i < |v| && j < |v|
  {
    v[i := v[j]][j := v[i]]
  }

  lemma SwapNear(base: int, v: seq<Pair>, i: nat, j: nat)
    requires i < |v| && j < |v| && Near(base, v)
    ensures Near(base, Swapped(v, i, j))
  {
    hide Reaches;
  }

  lemma NearReaches(base: int, v: seq<Pair>, i: nat, j: nat)
    requires i < |v| && j < |v| && Near(base, v)
    ensures Reaches(base, i, v[j]) && Reaches(base, j, v[i])
  {
  }

  ghost predicate SortedIn(v: seq<Pair>, lo: int, hi: int) {
    forall a, b :: 0 <= lo <= a < b <= hi < |v| ==> v[a].insn <= v[b].insn
  }

  /** Between `lo` and `hi` the same pairs in some order; elsewhere the same pairs in place. */
  ghost predicate Rearranged(v: seq<Pair>, w: seq<Pair>, lo: nat, hi: nat) {
    && |v| == |w| && lo <= hi + 1 <= |v|
    && v[..lo] == w[..lo] && v[hi + 1..] == w[hi + 1..]
    && multiset(v[lo..hi + 1]) == multiset(w[lo..hi + 1])
  }

  ghost predicate AllAtMost(v: seq<Pair>, lo: int, hi: int, x: int) {
    forall k :: 0 <= k < |v| && lo <= k <= hi ==> v[k].insn <= x
  }

  ghost predicate AllAtLeast(v: seq<Pair>, lo: int, hi: int, x: int) {
    forall k :: 0 <= k < |v| && lo <= k <= hi ==> v[k].insn >= x
  }

  lemma SwapRearranges(v: seq<Pair>, w: seq<Pair>, lo: nat, hi: nat, i: nat, j: nat)
    requires Rearranged(v, w, lo, hi) && lo <= i <= hi && lo <= j <= hi
    ensures Rearranged(v, Swapped(w, i, j), lo, hi)
  {
    var s, w' := w[lo..hi + 1], Swapped(w, i, j);
    assert w'[lo..hi + 1] == Swapped(s, i - lo, j - lo);
    assert w'[..lo] == w[..lo] && w'[hi + 1..] == w[hi + 1..];
  }

  lemma RearrangedTrans(u: seq<Pair>, v: seq<Pair>, w: seq<Pair>, lo: nat, hi: nat)
    requires Rearranged(u, v, lo, hi) && Rearranged(v, w, lo, hi)
    ensures Rearranged(u, w, lo, hi)
  {
  }

  /** What is rearranged in part is rearranged as a whole. */
  lemma Widen(v: seq<Pair>, w: seq<Pair>, lo: nat, hi: nat, lo': nat, hi': nat)
    requires Rearranged(v, w, lo, hi) && lo' <= lo && hi <= hi' < |v|
    ensures Rearranged(v, w, lo', hi')
  {
    assert forall k :: 0 <= k < lo ==> v[k] == v[..lo][k] == w[..lo][k] == w[k];
    assert forall k :: hi + 1 <= k < |v| ==> v[k] == v[hi + 1..][k - hi - 1] == w[hi + 1..][k - hi - 1] == w[k];
    assert v[lo'..hi' + 1] == v[lo'..lo] + v[lo..hi + 1] + v[hi + 1..hi' + 1];
    assert w[lo'..hi' + 1] == w[lo'..lo] + w[lo..hi + 1] + w[hi + 1..hi' + 1];
    assert v[lo'..lo] == w[lo'..lo] && v[hi + 1..hi' + 1] == w[hi + 1..hi' + 1];
  }

  /** Every pair of the rearranged part was in it before. */
  lemma From(v: seq<Pair>, w: seq<Pair>, lo: nat, hi: nat, k: nat) returns (m: nat)
    requires Rearranged(v, w, lo, hi) && lo <= k <= hi
    ensures lo <= m <= hi && v[m] == w[k]
  {
    var p := w[k];
    assert w[lo..hi + 1][k - lo] == p;
    assert p in multiset(w[lo..hi + 1]);
    assert p in v[lo..hi + 1];
    var i :| 0 <= i < |v[lo..hi + 1]| && v[lo..hi + 1][i] == p;
    m := lo + i;
  }

  lemma Outside(v: seq<Pair>, w: seq<Pair>, lo: nat, hi: nat, k: nat)
    requires Rearranged(v, w, lo, hi) && k < |v| && !(lo <= k <= hi)
    ensures v[k] == w[k]
  {
    if k < lo {
      assert v[..lo][k] == w[..lo][k];
    } else {
      assert v[hi + 1..][k - hi - 1] == w[hi + 1..][k - hi - 1];
    }
  }

  lemma BoundsKept(v: seq<Pair>, w: seq<Pair>, lo: nat, hi: nat, x: int)
    requires Rearranged(v, w, lo, hi)
    ensures AllAtMost(v, lo, hi, x) ==> AllAtMost(w, lo, hi, x)
    ensures AllAtLeast(v, lo, hi, x) ==> AllAtLeast(w, lo, hi, x)
  {
    forall k | lo <= k <= hi
      ensures exists m :: lo <= m <= hi && v[m] == w[k]
    {
      var m := From(v, w, lo, hi, k);
    }
  }

  /** Parted by a pivot: small keys up to `j`, large keys from `i`, the pivot between. */
  ghost predicate Parted(v: seq<Pair>, left: int, right: int, i: int, j: int, pivot: int) {
    && left < i && j < right && j < i <= right + 1 && left - 1 <= j
    && AllAtMost(v, left, i - 1, pivot) && AllAtLeast(v, j + 1, right, pivot)
  }

  lemma PartStart(v: seq<Pair>, left: nat, right: nat, pivot: int)
    requires left <= right < |v|
    ensures AllAtMost(v, left, left - 1, pivot) && AllAtLeast(v, right + 1, right, pivot) && Rearranged(v, v, left, right)
  {
  }

  lemma ScanJoin(v: seq<Pair>, left: nat, right: nat, i: int, j: int, i': int, j': int, pivot: int)
    requires AllAtMost(v, left, i - 1, pivot) && AllAtMost(v, i, i' - 1, pivot)
    requires AllAtLeast(v, j' + 1, j, pivot) && AllAtLeast(v, j + 1, right, pivot)
    ensures AllAtMost(v, left, i' - 1, pivot) && AllAtLeast(v, j' + 1, right, pivot)
  {
  }

  lemma SwapBounds(v: seq<Pair>, left: nat, right: nat, i: nat, j: nat, pivot: int)
    requires left <= i <= j <= right < |v| && v[j].insn <= pivot <= v[i].insn
    requires AllAtMost(v, left, i - 1, pivot) && AllAtLeast(v, j + 1, right, pivot)
    ensures var w := Swapped(v, i, j);
            AllAtMost(w, left, i, pivot) && AllAtLeast(w, j, right, pivot) && w[i] == v[j] && w[j] == v[i]
  {
  }

  lemma LastBound(v: seq<Pair>, j: int, right: int, pivot: int)
    requires AllAtLeast(v, j, right, pivot)
    ensures AllAtLeast(v, j + 1, right, pivot)
  {
  }

  /** Sorting the two parts sorts the whole. */
  lemma PartsSorted(v: seq<Pair>, left: nat, right: nat, i: int, j: int, pivot: int)
    requires right < |v| && Parted(v, left, right, i, j, pivot) && SortedIn(v, left, j) && SortedIn(v, i, right)
    ensures SortedIn(v, left, right)
  {
    forall a, b | left <= a < b <= right
      ensures v[a].insn <= v[b].insn
    {
      if b > j && a < i {
        assert v[a].insn <= pivot <= v[b].insn;
      }
    }
  }

  class Table {
    const base: int
    const entries: array<Entry>

    ghost function Pairs(): (v: seq<Pair>)
      reads this, entries
      ensures |v| == entries.Length
    {
      View(base, entries[..])
    }

    function Key(i: nat): (k: int)
      requires i < entries.Length
      reads this, entries
      ensures k == Pairs()[i].insn
    {
      InsnAt(base, i) + entries[i].insn
    }

    /** `swap_extable_entries`: the two pairs change places if and only if each reaches the other's. */
    method Swap(i: nat, j: nat)
      requires i < entries.Length && j < entries.Length
      modifies entries
      ensures Pairs() == Swapped(old(Pairs()), i, j) <==>
              Reaches(base, i, old(Pairs()[j])) && Reaches(base, j, old(Pairs()[i]))
      ensures forall k :: 0 <= k < entries.Length && k != i && k != j ==> entries[k] == old(entries[k])
    {
      hide Reaches, Rewritten, Decode;
      ghost var v := Pairs();
      var a, b := Decode(base, i, entries[i]), Decode(base, j, entries[j]);
      RewrittenIff(base, i, b);
      RewrittenIff(base, j, a);
      assert a == v[i] && b == v[j];
      entries[i] := Rewritten(base, i, b);
      entries[j] := Rewritten(base, j, a);
      if Decode(base, i, entries[i]) == b && Decode(base, j, entries[j]) == a {
        assert Pairs() == Swapped(v, i, j);
      } else {
        assert Pairs()[j] == Decode(base, j, entries[j]) && (i != j ==> Pairs()[i] == Decode(base, i, entries[i]));
      }
    }

    /** The first place from `start` on whose key is not below the pivot; there is one by `stop`. */
    method ScanUp(start: nat, pivot: int, ghost stop: nat) returns (i: nat)
      requires start <= stop < entries.Length && Key(stop) >= pivot
      ensures start <= i <= stop && Key(i) >= pivot && AllAtMost(Pairs(), start, i - 1, pivot)
    {
      i := start;
      while Key(i) < pivot
        invariant start <= i <= stop && AllAtMost(Pairs(), start, i - 1, pivot)
        decreases stop - i
      {
        i := i + 1;
      }
    }

    /** The first place from `start` down whose key is not above the pivot; there is one by `stop`. */
    method ScanDown(start: nat, pivot: int, ghost stop: nat) returns (j: nat)
      requires stop <= start < entries.Length && Key(stop) <= pivot
      ensures stop <= j <= start && Key(j) <= pivot && AllAtLeast(Pairs(), j + 1, start, pivot)
    {
      j := start;
      while Key(j) > pivot
        invariant stop <= j <= start && AllAtLeast(Pairs(), j + 1, start, pivot)
        decreases j
      {
        if j == 0 {
          break;
        }
        j := j - 1;
      }
    }

    /** The two scans of one turn of the partition loop. */
    method ScanBoth(ghost left: nat, ghost right: nat, i: nat, j: nat, pivot: int, ghost m1: nat, ghost m2: nat)
      returns (i': nat, j': nat)
      requires left <= i <= m1 <= right < entries.Length && left <= m2 <= j <= right
      requires Key(m1) >= pivot && Key(m2) <= pivot
      requires AllAtMost(Pairs(), left, i - 1, pivot) && AllAtLeast(Pairs(), j + 1, right, pivot)
      ensures i <= i' <= m1 && m2 <= j' <= j && Key(i') >= pivot && Key(j') <= pivot
      ensures AllAtMost(Pairs(), left, i' - 1, pivot) && AllAtLeast(Pairs(), j' + 1, right, pivot)
    {
      hide AllAtMost, AllAtLeast, View;
      i' := ScanUp(i, pivot, m1);
      j' := ScanDown(j, pivot, m2);
      ScanJoin(Pairs(), left, right, i, j, i', j', pivot);
    }

    /** The partition loop of `sort_extable`. */
    method Partition(left: nat, right: nat) returns (i: nat, j: nat, ghost pivot: int)
      requires left < right < entries.Length && Near(base, Pairs())
      modifies entries
      ensures Near(base, Pairs()) && Rearranged(old(Pairs()), Pairs(), left, right)
      ensures Parted(Pairs(), left, right, i, j, pivot)
    {
      hide Near, Rearranged, AllAtMost, AllAtLeast, View, Swapped;
      var mid := left + (right - left) / 2;
      var pivotVal := Key(mid);
      pivot := pivotVal;
      i, j := left, right;
      ghost var m1, m2 := mid, mid;
      PartStart(Pairs(), left, right, pivotVal);
      while i <= j
        invariant left <= i <= right + 1 && j <= right && left <= j + 1
        invariant Near(base, Pairs()) && Rearranged(old(Pairs()), Pairs(), left, right)
        invariant AllAtMost(Pairs(), left, i - 1, pivotVal) && AllAtLeast(Pairs(), j + 1, right, pivotVal)
        invariant i <= j ==> i <= m1 <= right && left <= m2 <= j && Key(m1) >= pivotVal && Key(m2) <= pivotVal
        invariant (i == left && j == right && m1 == m2) || (left < i && j < right)
        decreases j + 1 - i
      {
        i, j := ScanBoth(left, right, i, j, pivotVal, m1, m2);
        if i <= j {
          SwapRearranges(old(Pairs()), Pairs(), left, right, i, j);
          SwapBounds(Pairs(), left, right, i, j, pivotVal);
          SwapNear(base, Pairs(), i, j);
          NearReaches(base, Pairs(), i, j);
          Swap(i, j);
          m1, m2 := j, i;
          i := i + 1;
          if j == 0 {
            LastBound(Pairs(), j, right, pivotVal);
            break;
          }
          j := j - 1;
        }
      }
    }

    /** `sort_extable`. */
    method Sort(left: nat, right: nat)
      requires left <= right < entries.Length && Near(base, Pairs())
      modifies entries
      ensures Near(base, Pairs()) && Rearranged(old(Pairs()), Pairs(), left, right) && SortedIn(Pairs(), left, right)
      decreases right - left
    {
      if left >= right {
        return;
      }
      ghost var v0 := Pairs();
      var i, j, pivot := Partition(left, right);
      ghost var v1 := Pairs();
      if j > left {
        Sort(left, j);
      }
      ghost var v2 := Pairs();
      if i < right {
        Sort(i, right);
      }
      SortedWhole(v0, v1, v2, Pairs(), left, right, i, j, pivot);
    }

    /** `extable_init`. */
    method Init()
      requires Near(base, Pairs())
      modifies entries
      ensures multiset(Pairs()) == multiset(old(Pairs())) && SortedIn(Pairs(), 0, entries.Length - 1)
    {
      var count := entries.Length;
      if count <= 1 {
        return;
      }
      Sort(0, count - 1);
      assert Pairs()[0..count] == Pairs() && old(Pairs())[0..count] == old(Pairs());
    }

    /** `search_extable`. */
    method Search(pc: int) returns (fixup: int)
      requires SortedIn(Pairs(), 0, entries.Length - 1)
      ensures Found(Pairs(), pc, fixup)
    {
      var count := entries.Length;
      if count == 0 {
        return 0;
      }
      var left, right := 0, count - 1;
      while left <= right
        invariant 0 <= left <= count && -1 <= right < count
        invariant forall k :: 0 <= k < left ==> Pairs()[k].insn < pc
        invariant forall k :: right < k < count ==> Pairs()[k].insn > pc
      {
        var mid := left + (right - left) / 2;
        var midPc := Key(mid);
        if midPc == pc {
          assert Pairs()[mid] == Pair(pc, FixupAt(base, mid) + entries[mid].fixup);
          return FixupAt(base, mid) + entries[mid].fixup;
        }
        if midPc < pc {
          left := mid + 1;
        } else {
          if mid == 0 {
            break;
          }
          right := mid - 1;
        }
      }
      return 0;
    }
  }

  /** The fixup of some entry for `pc`, or 0 if there is none. */
  ghost predicate Found(v: seq<Pair>, pc: int, fixup: int) {
    if exists k :: 0 <= k < |v| && v[k].insn == pc
    then exists k :: 0 <= k < |v| && v[k] == Pair(pc, fixup)
    else fixup == 0
  }

  lemma SortedWhole(v0: seq<Pair>, v1: seq<Pair>, v2: seq<Pair>, v3: seq<Pair>, left: nat, right: nat, i: nat, j: nat, pivot: int)
    requires right < |v0| && left < right && Rearranged(v0, v1, left, right) && Parted(v1, left, right, i, j, pivot)
    requires if j > left then Rearranged(v1, v2, left, j) && SortedIn(v2, left, j) else v2 == v1
    requires if i < right then Rearranged(v2, v3, i, right) && SortedIn(v3, i, right) else v3 == v2
    ensures Rearranged(v0, v3, left, right) && SortedIn(v3, left, right)
  {
    if j > left {
      Widen(v1, v2, left, j, left, right);
      SortLeft(v1, v2, left, right, i, j, pivot);
    } else {
      RearrangedSelf(v1, left, right);
    }
    RearrangedTrans(v0, v1, v2, left, right);
    if i < right {
      Widen(v2, v3, i, right, left, right);
      SortRight(v2, v3, left, right, i, j, pivot);
    } else {
      RearrangedSelf(v2, left, right);
    }
    RearrangedTrans(v0, v2, v3, left, right);
    PartsSorted(v3, left, right, i, j, pivot);
  }

  lemma RearrangedSelf(v: seq<Pair>, lo: nat, hi: nat)
    requires lo <= hi < |v|
    ensures Rearranged(v, v, lo, hi)
  {
  }

  /** Sorting the part up to `j` leaves the pivot where it is. */
  lemma SortLeft(v: seq<Pair>, w: seq<Pair>, left: nat, right: nat, i: nat, j: nat, pivot: int)
    requires right < |v| && left < j && Rearranged(v, w, left, j) && Parted(v, left, right, i, j, pivot)
    ensures Parted(w, left, right, i, j, pivot)
  {
    BoundsKept(v, w, left, j, pivot);
    forall k | j < k <= right
      ensures w[k] == v[k]
    {
      Outside(v, w, left, j, k);
    }
  }

  /** Sorting the part from `i` on leaves the rest as it is. */
  lemma SortRight(v: seq<Pair>, w: seq<Pair>, left: nat, right: nat, i: nat, j: nat, pivot: int)
    requires right < |v| && i < right && Rearranged(v, w, i, right) && Parted(v, left, right, i, j, pivot) && SortedIn(v, left, j)
    ensures Parted(w, left, right, i, j, pivot) && SortedIn(w, left, j)
  {
    BoundsKept(v, w, i, right, pivot);
    forall k | left <= k < i
      ensures w[k] == v[k]
    {
      Outside(v, w, i, right, k);
    }
  }

  // ----- The whole table -----

  function Linear(v: seq<Pair>, pc: int): int {
    if v == [] then 0 else if v[0].insn == pc then v[0].fixup else Linear(v[1..], pc)
  }

  ghost predicate DistinctKeys(v: seq<Pair>) {
    forall a, b :: 0 <= a < b < |v| ==> v[a].insn != v[b].insn
  }

  lemma {:induction false} LinearFinds(v: seq<Pair>, pc: int, k: nat)
    requires DistinctKeys(v) && k < |v| && v[k].insn == pc
    ensures Linear(v, pc) == v[k].fixup
  {
    if k > 0 {
      assert v[0].insn != v[k].insn;
      LinearFinds(v[1..], pc, k - 1);
    }
  }

  lemma {:induction false} LinearMisses(v: seq<Pair>, pc: int)
    requires forall k :: 0 <= k < |v| ==> v[k].insn != pc
    ensures Linear(v, pc) == 0
  {
    if v != [] { LinearMisses(v[1..], pc); }
  }

  /** With distinct keys, what the search of the sorted table finds is what a scan of the original finds. */
  lemma FoundIsLinear(v: seq<Pair>, w: seq<Pair>, pc: int, fixup: int)
    requires multiset(v) == multiset(w) && DistinctKeys(v) && Found(w, pc, fixup)
    ensures fixup == Linear(v, pc)
  {
    if exists k :: 0 <= k < |w| && w[k].insn == pc {
      var k :| 0 <= k < |w| && w[k] == Pair(pc, fixup);
      assert w[k] in multiset(w);
      assert Pair(pc, fixup) in v;
      var m :| 0 <= m < |v| && v[m] == Pair(pc, fixup);
      LinearFinds(v, pc, m);
    } else {
      forall m | 0 <= m < |v|
        ensures v[m].insn != pc
      {
        assert v[m] in multiset(v);
        assert v[m] in w;
      }
      LinearMisses(v, pc);
    }
  }

  /** `extable_init`, then a search: the answer of a scan of the table as it was linked. */
  method InitAndSearch(t: Table, pc: int) returns (fixup: int)
    requires Near(t.base, t.Pairs()) && DistinctKeys(t.Pairs())
    modifies t.entries
    ensures fixup == Linear(old(t.Pairs()), pc)
  {
    t.Init();
    fixup := t.Search(pc);
    FoundIsLinear(old(t.Pairs()), t.Pairs(), pc, fixup);
  }
}
