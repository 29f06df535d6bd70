/**
 The boot-time allocator of mm/memblock.cc: one range of RAM and a table of reserved regions, kept
 sorted by base. RAM and reservations are physical addresses, of 56 bits; sums are in 64 bits, so that
 they wrap only for sizes beyond the end of RAM.
 */
module Memblock {
  import opened Options
  import opened Basics
  import opened Rounding
  import opened Powers

  datatype Region = Region(base: nat, size: nat) {
    function End(): nat { base + size }
    predicate Has(p: nat) { base <= p < base + size }
  }

  /** kMemblockMaxRegions. */
  const MAX_REGIONS: nat := 128

  // ----- Regions -----

  ghost predicate Sorted(rs: seq<Region>) {
    forall i, j :: 0 <= i < j < |rs| ==> rs[i].base <= rs[j].base
  }

  predicate Reserved(rs: seq<Region>, p: nat) {
    exists i :: 0 <= i < |rs| && rs[i].Has(p)
  }

  /** The test `overlaps_reserved` makes on one region. */
  predicate Meets(r: Region, base: nat, size: nat) { base < r.End() && base + size > r.base }

  predicate Overlaps(rs: seq<Region>, base: nat, size: nat) {
    exists i :: 0 <= i < |rs| && Meets(rs[i], base, size)
  }

  /** The same when the end of the range may have wrapped around. */
  predicate MeetsTo(r: Region, base: nat, end: nat) { base < r.End() && end > r.base }

  predicate OverlapsTo(rs: seq<Region>, base: nat, end: nat) {
    exists i :: 0 <= i < |rs| && MeetsTo(rs[i], base, end)
  }

  lemma OverlapsSame(rs: seq<Region>, base: nat, size: nat)
    ensures OverlapsTo(rs, base, base + size) <==> Overlaps(rs, base, size)
  {
    if OverlapsTo(rs, base, base + size) {
      var i :| 0 <= i < |rs| && MeetsTo(rs[i], base, base + size);
      assert Meets(rs[i], base, size);
    }
    if Overlaps(rs, base, size) {
      var i :| 0 <= i < |rs| && Meets(rs[i], base, size);
      assert MeetsTo(rs[i], base, base + size);
    }
  }

  /** A range that is not empty overlaps a reservation exactly when some byte of it is reserved. */
  lemma OverlapsIffReserved(rs: seq<Region>, base: nat, size: nat)
    requires size > 0 && forall i :: 0 <= i < |rs| ==> rs[i].size > 0
    ensures Overlaps(rs, base, size) <==> exists p :: base <= p < base + size && Reserved(rs, p)
  {
    if Overlaps(rs, base, size) {
      var i :| 0 <= i < |rs| && Meets(rs[i], base, size);
      var p := if base < rs[i].base then rs[i].base else base;
      assert rs[i].Has(p);
      assert Reserved(rs, p);
    }
    if exists p :: base <= p < base + size && Reserved(rs, p) {
      var p :| base <= p < base + size && Reserved(rs, p);
      var i :| 0 <= i < |rs| && rs[i].Has(p);
      assert Meets(rs[i], base, size);
    }
  }

  function Insert(rs: seq<Region>, r: Region): seq<Region> {
    if rs == [] || rs[0].base > r.base then [r] + rs else [rs[0]] + Insert(rs[1..], r)
  }

  lemma {:induction false} InsertAt(rs: seq<Region>, r: Region, k: nat)
    requires k <= |rs| && (forall i :: 0 <= i < k ==> rs[i].base <= r.base) && (k < |rs| ==> rs[k].base > r.base)
    ensures Insert(rs, r) == rs[..k] + [r] + rs[k..]
  {
    if k > 0 {
      InsertAt(rs[1..], r, k - 1);
      assert rs[1..][..k - 1] == rs[1..k] && rs[1..][k - 1..] == rs[k..];
      assert [rs[0]] + rs[1..k] == rs[..k];
    }
  }

  lemma {:induction false} InsertSorted(rs: seq<Region>, r: Region)
    requires Sorted(rs)
    ensures Sorted(Insert(rs, r))
    ensures forall x :: x in Insert(rs, r) <==> x in rs || x == r
  {
    if rs != [] && rs[0].base <= r.base {
      var rest := rs[1..];
      assert rs == [rs[0]] + rest;
      InsertSorted(rest, r);
      forall i | 0 <= i < |Insert(rest, r)|
        ensures rs[0].base <= Insert(rest, r)[i].base
      {
        assert Insert(rest, r)[i] in Insert(rest, r);
      }
    }
  }

  // ----- The search -----

  /** [start, start + size) is aligned, lies in [lo, hi) and meets no reservation. */
  predicate Fits(rs: seq<Region>, start: nat, size: nat, align: nat, lo: nat, hi: nat)
    requires align > 0
  {
    start % align == 0 && lo <= start && start + size <= hi && !Overlaps(rs, start, size)
  }

  ghost predicate NoFit(rs: seq<Region>, size: nat, align: nat, lo: nat, hi: nat)
    requires align > 0
  {
    forall s: nat :: !Fits(rs, s, size, align, lo, hi)
  }

  ghost predicate LowestFit(rs: seq<Region>, start: nat, size: nat, align: nat, lo: nat, hi: nat)
    requires align > 0
  {
    Fits(rs, start, size, align, lo, hi) && forall s: nat :: Fits(rs, s, size, align, lo, hi) ==> start <= s
  }

  ghost predicate HighestFit(rs: seq<Region>, start: nat, size: nat, align: nat, lo: nat, hi: nat)
    requires align > 0
  {
    Fits(rs, start, size, align, lo, hi) && forall s: nat :: Fits(rs, s, size, align, lo, hi) ==> s <= start
  }

  /** A start from which [start, start + size) wraps around, as far as `hi`, and that passes the tests. */
  predicate Wraps(rs: seq<Region>, start: nat, size: nat, align: nat, lo: nat, hi: nat)
    requires align > 0
  {
    && start % align == 0 && lo <= start < U64 && U64 <= start + size <= U64 + hi
    && !OverlapsTo(rs, start, start + size - U64)
  }

  ghost predicate NoWrap(rs: seq<Region>, size: nat, align: nat, lo: nat, hi: nat)
    requires align > 0
  {
    forall s: nat :: !Wraps(rs, s, size, align, lo, hi)
  }

  ghost predicate HighestWrap(rs: seq<Region>, start: nat, size: nat, align: nat, lo: nat, hi: nat)
    requires align > 0
  {
    Wraps(rs, start, size, align, lo, hi) && forall s: nat :: Wraps(rs, s, size, align, lo, hi) ==> s <= start
  }

  /**
   What a search from the top answers. A size up to the last whole page of RAM gets the highest fit, or
   none if there is none. A larger size gets the highest start that wraps around, if there is one.
   */
  ghost predicate TopResult(rs: seq<Region>, size: nat, align: nat, lo: nat, memEnd: nat, r: Option<nat>)
    requires align > 0
  {
    var hi := DownTo(memEnd, PAGE);
    if size <= hi then
      match r
      case Some(start) => HighestFit(rs, start, size, align, lo, hi)
      case None => NoFit(rs, size, align, lo, hi)
    else
      match r
      case Some(start) => HighestWrap(rs, start, size, align, lo, hi) || (NoWrap(rs, size, align, lo, hi) && start + size <= memEnd)
      case None => NoWrap(rs, size, align, lo, hi)
  }

  /** Nothing that fits, or wraps, starts above `start`. */
  ghost predicate TopBound(rs: seq<Region>, start: nat, size: nat, align: nat, lo: nat, memEnd: nat)
    requires align > 0
  {
    var end := DownTo(memEnd, PAGE);
    if size <= end then start + size <= end && forall s: nat :: Fits(rs, s, size, align, lo, end) ==> s <= start
    else start + size <= U64 + end && forall s: nat :: Wraps(rs, s, size, align, lo, end) ==> s <= start
  }

  ghost predicate Physical(rs: seq<Region>) {
    forall i :: 0 <= i < |rs| ==> rs[i].End() <= PHYS
  }

  lemma {:induction false} InsertPhysical(rs: seq<Region>, r: Region)
    requires Physical(rs)
    ensures Physical(Insert(rs, r)) <==> r.End() <= PHYS
  {
    if rs != [] && rs[0].base <= r.base {
      InsertPhysical(rs[1..], r);
      var more := Insert(rs[1..], r);
      assert Insert(rs, r) == [rs[0]] + more;
      assert forall i :: 0 <= i < |more| ==> Insert(rs, r)[i + 1] == more[i];
    } else {
      assert Insert(rs, r)[0] == r;
    }
  }

  lemma PagesPhysical(end: nat)
    ensures UpTo(end, PAGE) <= PHYS <==> end <= PHYS
  {
    if end <= PHYS < UpTo(end, PAGE) { MultipleGap(PHYS, UpTo(end, PAGE), PAGE); }
  }

  /** Where the first candidate from the bottom is, and whether its end wraps around and passes the test. */
  predicate FirstWraps(size: nat, align: nat, memBase: nat, memEnd: nat)
    requires align > 0
  {
    var lo := UpTo(memBase, PAGE);
    lo + size >= U64 && UpTo(lo, align) + size <= U64 + memEnd
  }

  /**
   What a search from the bottom answers. A size up to the end of RAM gets the lowest fit, or none if
   there is none. A larger size gets none if the first candidate does not wrap into range, and else,
   whenever nothing is reserved, that candidate.
   */
  ghost predicate LowResult(rs: seq<Region>, size: nat, align: nat, memBase: nat, memEnd: nat, r: Option<nat>)
    requires align > 0
  {
    var lo := UpTo(memBase, PAGE);
    var first := UpTo(lo, align);
    if size <= memEnd then
      match r
      case Some(start) => LowestFit(rs, start, size, align, lo, memEnd)
      case None => NoFit(rs, size, align, lo, memEnd)
    else if FirstWraps(size, align, memBase, memEnd) then
      match r
      case Some(start) => && Wraps(rs, start, size, align, lo, memEnd)
                          && (start == first || OverlapsTo(rs, first, first + size - U64))
      case None => OverlapsTo(rs, first, first + size - U64)
    else r.None?
  }

  /** Where the search from the bottom is. */
  ghost predicate LowBound(rs: seq<Region>, start: nat, size: nat, align: nat, memBase: nat, memEnd: nat)
    requires align > 0
  {
    var lo := UpTo(memBase, PAGE);
    var first := UpTo(lo, align);
    if size <= memEnd then
      && lo <= start <= PHYS + PAGE + align
      && forall s: nat :: Fits(rs, s, size, align, lo, memEnd) ==> start <= s
    else
      start == lo || (FirstWraps(size, align, memBase, memEnd) && OverlapsTo(rs, first, first + size - U64) && (lo <= start || start == 0))
  }

  class Memblock {
    const memBase: nat
    const memSize: nat
    const reserved: array<Region>
    var count: nat

    /** The table is in order. */
    ghost predicate Shaped()
      reads this, reserved
    {
      memBase + memSize <= PHYS && count <= reserved.Length == MAX_REGIONS && Sorted(reserved[..count])
    }

    /** And its regions are physical addresses. */
    ghost predicate Valid()
      reads this, reserved
    {
      Shaped() && Physical(reserved[..count])
    }

    function Regions(): seq<Region>
      requires count <= reserved.Length
      reads this, reserved
    {
      reserved[..count]
    }

    constructor (memBase: nat, memSize: nat)
      requires memBase + memSize <= PHYS
      ensures Valid() && Regions() == [] && fresh(reserved) && this.memBase == memBase && this.memSize == memSize
    {
      this.memBase, this.memSize, count := memBase, memSize, 0;
      reserved := new Region[MAX_REGIONS](i => Region(0, 0));
    }

    /** The loop of `insert_reserved`: make room for a region that starts at `base`. */
    method ShiftUp(base: nat) returns (i: nat)
      requires Shaped() && count < MAX_REGIONS
      modifies reserved
      ensures i <= count && (i > 0 ==> old(Regions())[i - 1].base <= base) && (i < count ==> old(Regions())[i].base > base)
      ensures forall k :: 0 <= k < i ==> reserved[k] == old(Regions())[k]
      ensures forall k :: i <= k < count ==> reserved[k + 1] == old(Regions())[k]
    {
      hide Sorted;
      ghost var rs := Regions();
      i := count;
      while i > 0 && reserved[i - 1].base > base
        invariant i <= count
        invariant forall k :: 0 <= k < i ==> reserved[k] == rs[k]
        invariant forall k :: i <= k < count ==> reserved[k + 1] == rs[k]
        invariant i < count ==> rs[i].base > base
      {
        reserved[i] := reserved[i - 1];
        i := i - 1;
      }
    }

    /** `insert_reserved`; not `ok` is the panic when the table is full. */
    method InsertReserved(base: nat, size: nat) returns (ok: bool)
      requires Valid()
      modifies this`count, reserved
      ensures Shaped() && ok == (old(count) < MAX_REGIONS)
      ensures Regions() == if ok then Insert(old(Regions()), Region(base, size)) else old(Regions())
      ensures Valid() <==> !ok || base + size <= PHYS
    {
      hide Insert, Sorted, Physical;
      if count >= MAX_REGIONS {
        return false;
      }
      ghost var rs := Regions();
      var i := ShiftUp(base);
      reserved[i] := Region(base, size);
      count := count + 1;
      InsertLast(rs, Region(base, size), i);
      Shifted(rs, reserved[..count], i, Region(base, size));
      InsertPhysical(rs, Region(base, size));
      return true;
    }

    /** `memblock_reserve`: the whole pages that the range touches. */
    method Reserve(base: nat, size: nat) returns (ok: bool)
      requires Valid()
      modifies this`count, reserved
      ensures Shaped() && ok == (old(count) < MAX_REGIONS)
      ensures Regions() == if ok then Insert(old(Regions()), Pages(base, size)) else old(Regions())
      ensures Valid() <==> !ok || base + size <= PHYS
    {
      hide Sorted, Insert, Physical;
      PagesPhysical(base + size);
      var b, e := DownTo(base, PAGE), UpTo(base + size, PAGE);
      ok := InsertReserved(b, e - b);
    }

    /** `overlaps_reserved` of the range from `base` to `end`, which is a sum in 64 bits. */
    method OverlapsReserved(base: nat, end: nat) returns (r: bool)
      requires Valid()
      ensures r == OverlapsTo(Regions(), base, end)
    {
      var i := 0;
      while i < count
        invariant i <= count && forall k :: 0 <= k < i ==> !MeetsTo(reserved[k], base, end)
      {
        if MeetsTo(reserved[i], base, end) {
          assert MeetsTo(Regions()[i], base, end);
          return true;
        }
        i := i + 1;
      }
      return false;
    }

    /** `reserved_end_covering`. */
    method EndCovering(p: nat) returns (e: nat)
      requires Valid()
      ensures !Reserved(Regions(), p) ==> e == p
      ensures Reserved(Regions(), p) ==> exists r :: r in Regions() && r.Has(p) && e == r.End()
    {
      var i := 0;
      while i < count
        invariant i <= count && forall k :: 0 <= k < i ==> !reserved[k].Has(p)
      {
        if reserved[i].Has(p) {
          assert Regions()[i].Has(p) && reserved[i] in Regions();
          return reserved[i].End();
        }
        i := i + 1;
      }
      return p;
    }

    /** `memblock_alloc`, in 64 bits. */
    method Alloc(size: nat, shift: nat) returns (r: Option<nat>)
      requires Valid() && size < U64 && shift < 64
      modifies this`count, reserved
      ensures Shaped() && (Valid() <==> r.None? || r.value + size <= PHYS)
      ensures match r
              case Some(start) => && LowResult(old(Regions()), size, Pow2(shift), memBase, memBase + memSize, r)
                                  && Regions() == Insert(old(Regions()), Pages(start, size))
              case None => && (old(count) == MAX_REGIONS || LowResult(old(Regions()), size, Pow2(shift), memBase, memBase + memSize, r))
                           && Regions() == old(Regions())
    {
      hide Sorted, Insert, OverlapsTo, Reserved, Physical, LowResult, LowBound;
      var align, memEnd := Pow2(shift), memBase + memSize;
      var start: nat := UpTo(memBase, PAGE);
      AlignFits(shift);
      LowStart(Regions(), size, shift, memBase, memEnd);
      while (start + size) % U64 <= memEnd
        invariant Valid() && Regions() == old(Regions()) && count == old(count)
        invariant start < U64 && LowBound(Regions(), start, size, align, memBase, memEnd)
        decreases if start == 0 && size > memEnd then 0 else U64 - start
      {
        ghost var before := start;
        LowRound(Regions(), start, size, shift, memBase, memEnd);
        start := UpTo(start, align) % U64;
        if (start + size) % U64 > memEnd {
          LowOver(Regions(), before, size, shift, memBase, memEnd);
          return None;
        }
        var overlaps := OverlapsReserved(start, (start + size) % U64);
        if !overlaps {
          LowFound(Regions(), before, size, shift, memBase, memEnd);
          var ok := Reserve(start, size);
          return if ok then Some(start) else None;
        }
        var skip := EndCovering(start);
        LowNext(Regions(), before, size, shift, memBase, memEnd, skip);
        if skip <= start {
          start := (start + align) % U64;
        } else {
          start := skip;
        }
      }
      LowNone(Regions(), start, size, shift, memBase, memEnd);
      return None;
    }

    /** `memblock_alloc_top`, in 64 bits. */
    method AllocTop(size: nat, shift: nat) returns (r: Option<nat>)
      requires Valid() && size < U64 && shift < 64
      modifies this`count, reserved
      ensures Shaped() && (Valid() <==> r.None? || r.value + size <= PHYS)
      ensures match r
              case Some(start) => && TopResult(old(Regions()), size, Pow2(shift), memBase, memBase + memSize, r)
                                  && Regions() == Insert(old(Regions()), Pages(start, size))
              case None => && (old(count) == MAX_REGIONS || TopResult(old(Regions()), size, Pow2(shift), memBase, memBase + memSize, r))
                           && Regions() == old(Regions())
    {
      hide Sorted, Insert, OverlapsTo, Physical, TopResult, TopBound;
      var align, memEnd := Pow2(shift), memBase + memSize;
      var end := DownTo(memEnd, PAGE);
      var start: nat := DownTo((U64 + end - size) % U64, align);
      TopStart(Regions(), size, align, memBase, memEnd);
      while start >= memBase && (start + size) % U64 <= memEnd
        invariant Valid() && Regions() == old(Regions()) && count == old(count)
        invariant start % align == 0 && start < U64 && TopBound(Regions(), start, size, align, memBase, memEnd)
      {
        var overlaps := OverlapsReserved(start, (start + size) % U64);
        if !overlaps {
          TopFound(Regions(), start, size, align, memBase, memEnd);
          var ok := Reserve(start, size);
          return if ok then Some(start) else None;
        }
        TopNext(Regions(), start, size, align, memBase, memEnd);
        if start < align {
          return None;
        }
        MultipleBack(start, align);
        start := start - align;
      }
      TopNone(Regions(), start, size, align, memBase, memEnd);
      return None;
    }

    /** `memblock_for_each_free`: the regions that it calls back with, in order. */
    method ForEachFree() returns (gaps: seq<Region>)
      requires Valid()
      ensures gaps == Gaps(Regions(), memBase, memBase + memSize)
    {
      hide Sorted, Physical, Gaps;
      var pos: nat, memEnd := memBase, memBase + memSize;
      gaps := [];
      var i := 0;
      while i < count && pos < memEnd
        invariant i <= count
        invariant gaps + Gaps(Regions()[i..], pos, memEnd) == Gaps(Regions(), memBase, memEnd)
      {
        var r := reserved[i];
        assert Regions()[i..][0] == r && Regions()[i..][1..] == Regions()[i + 1..];
        GapsOne(Regions()[i..], pos, memEnd);
        i := i + 1;
        if r.base < pos {
          if r.End() > pos {
            pos := r.End();
          }
          continue;
        }
        if r.base > pos {
          gaps := gaps + [Region(pos, r.base - pos)];
        }
        pos := r.End();
      }
      GapsLast(Regions()[i..], pos, memEnd);
      if pos < memEnd {
        gaps := gaps + [Region(pos, memEnd - pos)];
      }
    }
  }

  // ----- What is free -----

  function Gaps(rs: seq<Region>, pos: nat, end: nat): seq<Region> {
    if pos >= end then []
    else if rs == [] then [Region(pos, end - pos)]
    else
      var r := rs[0];
      if r.base < pos then Gaps(rs[1..], if r.End() > pos then r.End() else pos, end)
      else (if r.base > pos then [Region(pos, r.base - pos)] else []) + Gaps(rs[1..], r.End(), end)
  }

  ghost predicate Exact(rs: seq<Region>, pos: nat, end: nat) {
    forall p: nat :: Reserved(Gaps(rs, pos, end), p) <==> pos <= p < end && !Reserved(rs, p)
  }

  /** A reservation lies beyond the end, and none stands between it and the last free byte. */
  predicate Overruns(rs: seq<Region>, pos: nat, end: nat) {
    pos < end && !Reserved(rs, end - 1) && (forall i :: 0 <= i < |rs| ==> rs[i].base != end)
    && exists i :: 0 <= i < |rs| && rs[i].base > end
  }

  lemma ReservedConcat(a: seq<Region>, b: seq<Region>, p: nat)
    ensures Reserved(a + b, p) <==> Reserved(a, p) || Reserved(b, p)
  {
    forall i | 0 <= i < |a|
      ensures (a + b)[i] == a[i]
    {
    }
    forall i | 0 <= i < |b|
      ensures (a + b)[|a| + i] == b[i]
    {
    }
  }

  lemma ReservedOne(r: Region, p: nat)
    ensures Reserved([r], p) <==> r.Has(p)
  {
    assert [r][0] == r;
  }

  /** Reservations that start at or after `lo` have no byte below it. */
  lemma ReservedFrom(rs: seq<Region>, lo: nat, p: nat)
    requires Sorted(rs) && (rs != [] ==> rs[0].base >= lo) && p < lo
    ensures !Reserved(rs, p)
  {
  }

  /** Without an overrun, what is called free is exactly the RAM that is not reserved. */
  lemma {:induction false} GapsExact(rs: seq<Region>, pos: nat, end: nat)
    requires Sorted(rs) && !Overruns(rs, pos, end)
    ensures Exact(rs, pos, end)
  {
    if pos < end && rs == [] {
      forall p: nat
        ensures Reserved([Region(pos, end - pos)], p) <==> pos <= p < end && !Reserved(rs, p)
      {
        ReservedOne(Region(pos, end - pos), p);
      }
    } else if pos < end {
      var r, rest := rs[0], rs[1..];
      var pos' := if r.base < pos && r.End() <= pos then pos else r.End();
      assert rs == [r] + rest;
      OverrunsRest(rs, pos, end);
      GapsExact(rest, pos', end);
      forall p: nat
        ensures Reserved(Gaps(rs, pos, end), p) <==> pos <= p < end && !Reserved(rs, p)
      {
        ReservedConcat([r], rest, p);
        ReservedOne(r, p);
        if r.base >= pos {
          var gap := Region(pos, r.base - pos);
          ReservedConcat(if r.base > pos then [gap] else [], Gaps(rest, pos', end), p);
          ReservedOne(gap, p);
          if p < r.base { ReservedFrom(rs, r.base, p); }
        }
      }
    }
  }

  lemma OverrunsRest(rs: seq<Region>, pos: nat, end: nat)
    requires Sorted(rs) && !Overruns(rs, pos, end) && rs != [] && pos < end
    ensures var r := rs[0];
            && !Overruns(rs[1..], if r.base < pos && r.End() <= pos then pos else r.End(), end)
            && (r.base >= pos ==> r.base <= end)
  {
    var r, rest := rs[0], rs[1..];
    assert rs == [r] + rest;
    ReservedConcat([r], rest, end - 1);
    ReservedOne(r, end - 1);
  }

  /** With an overrun, the first byte after RAM is called free. */
  lemma {:induction false} OverrunCallsEndFree(rs: seq<Region>, pos: nat, end: nat)
    requires Sorted(rs) && Overruns(rs, pos, end)
    ensures Reserved(Gaps(rs, pos, end), end)
  {
    var r, rest := rs[0], rs[1..];
    assert rs == [r] + rest;
    var pos' := if r.base < pos && r.End() <= pos then pos else r.End();
    if r.base > end {
      ReservedOne(Region(pos, r.base - pos), end);
      ReservedConcat([Region(pos, r.base - pos)], Gaps(rest, pos', end), end);
    } else {
      ReservedConcat([r], rest, end - 1);
      ReservedOne(r, end - 1);
      assert Overruns(rest, pos', end);
      OverrunCallsEndFree(rest, pos', end);
      if r.base >= pos {
        ReservedConcat(if r.base > pos then [Region(pos, r.base - pos)] else [], Gaps(rest, pos', end), end);
      }
    }
  }

  /** Exactly when `memblock_for_each_free` is right. */
  lemma GapsExactIff(rs: seq<Region>, pos: nat, end: nat)
    requires Sorted(rs)
    ensures Exact(rs, pos, end) <==> !Overruns(rs, pos, end)
  {
    if Overruns(rs, pos, end) {
      OverrunCallsEndFree(rs, pos, end);
    } else {
      GapsExact(rs, pos, end);
    }
  }

  /** A reservation beyond RAM: memory that is not there is called free. */
  lemma OverrunExample()
    ensures Gaps([Region(0x3000, 0x1000)], 0, 0x2000) == [Region(0, 0x3000)]
  {
    assert Gaps([], 0x4000, 0x2000) == [];
  }

  /** Gaps are not empty, in order, and not adjacent. */
  ghost predicate Spaced(gaps: seq<Region>, lo: nat) {
    && (forall i :: 0 <= i < |gaps| ==> lo <= gaps[i].base && gaps[i].size > 0)
    && (forall i, j :: 0 <= i < j < |gaps| ==> gaps[i].End() < gaps[j].base)
  }

  /** Whole pages, except that a gap may end with RAM. */
  ghost predicate Paged(gaps: seq<Region>, end: nat) {
    forall i :: 0 <= i < |gaps| ==> gaps[i].base % PAGE == 0 && (gaps[i].End() % PAGE == 0 || gaps[i].End() == end)
  }

  ghost predicate WholePages(rs: seq<Region>) {
    forall i :: 0 <= i < |rs| ==> rs[i].base % PAGE == 0 && rs[i].size % PAGE == 0
  }

  lemma {:induction false} GapsPaged(rs: seq<Region>, pos: nat, end: nat)
    requires WholePages(rs) && pos % PAGE == 0
    ensures Paged(Gaps(rs, pos, end), end)
  {
    if pos < end && rs != [] {
      var r, rest := rs[0], rs[1..];
      SumMultiple(r.base, r.size);
      GapsPaged(rest, if r.base < pos && r.End() <= pos then pos else r.End(), end);
    }
  }

  /** A reservation of no bytes in the middle of a gap. */
  predicate Splits(rs: seq<Region>, pos: nat, end: nat, i: nat)
    requires i < |rs|
  {
    rs[i].size == 0 && pos < rs[i].base < end && !Reserved(rs, rs[i].base - 1) && !Reserved(rs, rs[i].base)
  }

  ghost predicate AnySplits(rs: seq<Region>, pos: nat, end: nat) {
    exists i :: 0 <= i < |rs| && Splits(rs, pos, end, i)
  }

  /** Gaps are in order and not adjacent if and only if no empty reservation splits one. */
  lemma {:induction false} GapsSpacedIff(rs: seq<Region>, pos: nat, end: nat)
    requires Sorted(rs)
    ensures Spaced(Gaps(rs, pos, end), pos) <==> !AnySplits(rs, pos, end)
  {
    hide AnySplits, Sorted;
    if pos >= end || rs == [] {
      NoSplits(rs, pos, end);
    } else {
      var r, rest := rs[0], rs[1..];
      var pos' := if r.base < pos && r.End() <= pos then pos else r.End();
      SortedRest(rs);
      GapsSpacedIff(rest, pos', end);
      SplitsRest(rs, pos, end);
      GapHead(rest, pos', end);
      SpacedWith(rs, pos, end);
    }
  }

  lemma SortedRest(rs: seq<Region>)
    requires Sorted(rs) && rs != []
    ensures Sorted(rs[1..]) && forall i :: 0 <= i < |rs| ==> rs[0].base <= rs[i].base
  {
  }

  lemma NoSplits(rs: seq<Region>, pos: nat, end: nat)
    requires pos >= end || rs == []
    ensures !AnySplits(rs, pos, end) && Spaced(Gaps(rs, pos, end), pos)
  {
  }

  /** The first gap starts where the search does exactly when that byte is free. */
  lemma {:induction false} GapHead(rs: seq<Region>, pos: nat, end: nat)
    requires Sorted(rs)
    ensures var gaps := Gaps(rs, pos, end);
            && (gaps != [] && gaps[0].base == pos <==> pos < end && !Reserved(rs, pos))
            && forall i :: 0 <= i < |gaps| ==> pos <= gaps[i].base
  {
    if pos < end && rs != [] {
      var r, rest := rs[0], rs[1..];
      var pos' := if r.base < pos && r.End() <= pos then pos else r.End();
      SortedRest(rs);
      GapHead(rest, pos', end);
      assert rs == [r] + rest;
      ReservedConcat([r], rest, pos);
      ReservedOne(r, pos);
      if r.base > pos { ReservedFrom(rs, r.base, pos); }
    }
  }

  lemma SpacedWith(rs: seq<Region>, pos: nat, end: nat)
    requires Sorted(rs) && rs != [] && pos < end
    requires var r, rest := rs[0], rs[1..];
             var pos' := if r.base < pos && r.End() <= pos then pos else r.End();
             var more := Gaps(rest, pos', end);
             && (more != [] && more[0].base == pos' <==> pos' < end && !Reserved(rest, pos'))
             && forall i :: 0 <= i < |more| ==> pos' <= more[i].base
    ensures var r, rest := rs[0], rs[1..];
            var pos' := if r.base < pos && r.End() <= pos then pos else r.End();
            Spaced(Gaps(rs, pos, end), pos) <==>
              Spaced(Gaps(rest, pos', end), pos') && !(pos < r.base < end && r.size == 0 && !Reserved(rest, r.base))
  {
    hide Reserved, Spaced, Gaps;
    var r, rest := rs[0], rs[1..];
    var pos' := if r.base < pos && r.End() <= pos then pos else r.End();
    var more := Gaps(rest, pos', end);
    GapsOne(rs, pos, end);
    if r.base > pos { SpacedCons(Region(pos, r.base - pos), more, pos'); } else { SpacedFrom(more, pos, pos'); }
  }

  lemma GapsLast(rs: seq<Region>, pos: nat, end: nat)
    requires rs == [] || pos >= end
    ensures Gaps(rs, pos, end) == if pos < end then [Region(pos, end - pos)] else []
  {
  }

  lemma GapsOne(rs: seq<Region>, pos: nat, end: nat)
    requires rs != [] && pos < end
    ensures var r, rest := rs[0], rs[1..];
            var pos' := if r.base < pos && r.End() <= pos then pos else r.End();
            Gaps(rs, pos, end) == (if r.base > pos then [Region(pos, r.base - pos)] + Gaps(rest, pos', end) else Gaps(rest, pos', end))
  {
  }

  lemma SpacedFrom(more: seq<Region>, lo: nat, lo': nat)
    requires lo <= lo' && forall i :: 0 <= i < |more| ==> lo' <= more[i].base
    ensures Spaced(more, lo) <==> Spaced(more, lo')
  {
  }

  lemma SpacedCons(g: Region, more: seq<Region>, lo: nat)
    requires g.size > 0 && g.End() <= lo && forall i :: 0 <= i < |more| ==> lo <= more[i].base
    ensures Spaced([g] + more, g.base) <==> Spaced(more, lo) && (more != [] ==> g.End() < more[0].base)
  {
    var all := [g] + more;
    if Spaced(more, lo) && (more != [] ==> g.End() < more[0].base) {
      forall i, j | 0 <= i < j < |all|
        ensures all[i].End() < all[j].base
      {
        if i == 0 && j > 1 { assert more[0].End() < more[j - 1].base; }
      }
    }
    if Spaced(all, g.base) {
      forall i | 0 <= i < |more|
        ensures more[i].size > 0 && (i == 0 ==> g.End() < more[i].base)
      {
        assert all[i + 1] == more[i] && all[0] == g;
      }
      forall i, j | 0 <= i < j < |more|
        ensures more[i].End() < more[j].base
      {
        assert all[i + 1].End() < all[j + 1].base;
      }
    }
  }

  /** What splits a gap, one reservation at a time. */
  lemma SplitsRest(rs: seq<Region>, pos: nat, end: nat)
    requires Sorted(rs) && rs != [] && pos < end
    ensures var r, rest := rs[0], rs[1..];
            var pos' := if r.base < pos && r.End() <= pos then pos else r.End();
            AnySplits(rs, pos, end) <==>
              AnySplits(rest, pos', end) || (pos < r.base < end && r.size == 0 && !Reserved(rest, r.base))
  {
    var r, rest := rs[0], rs[1..];
    var pos' := if r.base < pos && r.End() <= pos then pos else r.End();
    assert rs == [r] + rest;
    forall p: nat
      ensures Reserved(rs, p) <==> r.Has(p) || Reserved(rest, p)
    {
      ReservedConcat([r], rest, p);
      ReservedOne(r, p);
    }
    forall p: nat | p < r.base
      ensures !Reserved(rs, p)
    {
      ReservedFrom(rs, r.base, p);
    }
    hide Reserved;
    forall i | 0 <= i < |rest|
      ensures Splits(rest, pos', end, i) ==> Splits(rs, pos, end, i + 1)
      ensures Splits(rs, pos, end, i + 1) ==>
                Splits(rest, pos', end, i) || (pos < r.base < end && r.size == 0 && !Reserved(rest, r.base))
    {
      assert rs[i + 1] == rest[i] && r.base <= rest[i].base;
    }
    if AnySplits(rs, pos, end) {
      var i :| 0 <= i < |rs| && Splits(rs, pos, end, i);
      if i > 0 {
        var k := i - 1;
        assert Splits(rs, pos, end, k + 1);
        assert Splits(rest, pos', end, k) || (pos < r.base < end && r.size == 0 && !Reserved(rest, r.base));
      } else {
        assert pos < r.base < end && r.size == 0 && !Reserved(rest, r.base);
      }
    }
    if i :| 0 <= i < |rest| && Splits(rest, pos', end, i) {
      assert Splits(rs, pos, end, i + 1);
    }
    if pos < r.base < end && r.size == 0 && !Reserved(rest, r.base) {
      assert Splits(rs, pos, end, 0);
    }
  }

  /** An empty reservation on a page boundary makes two gaps where there is one. */
  lemma SplitExample()
    ensures Gaps([Region(0x1000, 0)], 0, 0x2000) == [Region(0, 0x1000), Region(0x1000, 0x1000)]
    ensures !Spaced(Gaps([Region(0x1000, 0)], 0, 0x2000), 0)
  {
    var rs := [Region(0x1000, 0)];
    assert rs[1..] == [];
    var gaps := Gaps(rs, 0, 0x2000);
    assert gaps == [Region(0, 0x1000), Region(0x1000, 0x1000)];
    assert gaps[0].End() == gaps[1].base;
  }

  lemma SumMultiple(x: nat, y: nat)
    requires x % PAGE == 0 && y % PAGE == 0
    ensures (x + y) % PAGE == 0
  {
  }

  /** The place that the shifting loop stops at. */
  lemma InsertLast(rs: seq<Region>, r: Region, i: nat)
    requires Sorted(rs) && i <= |rs| && (i > 0 ==> rs[i - 1].base <= r.base) && (i < |rs| ==> rs[i].base > r.base)
    ensures Insert(rs, r) == rs[..i] + [r] + rs[i..] && Sorted(Insert(rs, r))
  {
    InsertAt(rs, r, i);
    InsertSorted(rs, r);
  }

  /** What the shifting loop leaves behind. */
  lemma Shifted(rs: seq<Region>, out: seq<Region>, i: nat, r: Region)
    requires i <= |rs| && |out| == |rs| + 1 && out[i] == r
    requires (forall k :: 0 <= k < i ==> out[k] == rs[k]) && forall k :: i <= k < |rs| ==> out[k + 1] == rs[k]
    ensures out == rs[..i] + [r] + rs[i..]
  {
  }

  /** The pages that a range of bytes touches. */
  function Pages(base: nat, size: nat): Region {
    var b, e := DownTo(base, PAGE), UpTo(base + size, PAGE);
    Region(b, e - b)
  }

  predicate CoversPages(r: Region, base: nat, size: nat) {
    r.base % PAGE == 0 && r.End() % PAGE == 0 && r.base <= base && base + size <= r.End()
  }

  /** They are the least whole pages that hold the range. */
  lemma PagesLeast(base: nat, size: nat, r: Region)
    ensures CoversPages(Pages(base, size), base, size)
    ensures CoversPages(r, base, size) ==> r.base <= Pages(base, size).base && Pages(base, size).End() <= r.End()
  {
    if CoversPages(r, base, size) {
      NearestMultiples(base, base + size, r.base, r.End());
    }
  }

  lemma NearestMultiples(x: nat, y: nat, lo: nat, hi: nat)
    requires lo % PAGE == 0 && hi % PAGE == 0 && lo <= x && y <= hi
    ensures lo <= DownTo(x, PAGE) && UpTo(y, PAGE) <= hi
  {
    if DownTo(x, PAGE) < lo { MultipleGap(DownTo(x, PAGE), lo, PAGE); }
    if hi < UpTo(y, PAGE) { MultipleGap(hi, UpTo(y, PAGE), PAGE); }
  }

  const HALF: nat := 0x8000_0000_0000_0000

  lemma PowersOfWord()
    ensures Pow2(64) == U64 && Pow2(63) == HALF
  {
    hide Pow2;
    SmallPowers();
    PowSum(4, 4);
    PowSum(8, 8);
    PowSum(16, 16);
    PowSum(32, 32);
    PowSum(1, 63);
  }

  lemma SmallPowers()
    ensures Pow2(1) == 2 && Pow2(4) == 16
  {
  }

  /** A power of two of one word divides 2^64. */
  lemma AlignFits(shift: nat)
    requires shift < 64
    ensures Pow2(shift) <= HALF && U64 % Pow2(shift) == 0
  {
    hide Pow2;
    PowersOfWord();
    Pow2Mono(shift, 63);
    PowerAligned(64, shift);
  }

  lemma UpToWord(x: nat, align: nat)
    requires align > 0 && U64 % align == 0 && x <= U64
    ensures UpTo(x, align) <= U64
  {
    if U64 < UpTo(x, align) { MultipleGap(U64, UpTo(x, align), align); }
  }

  lemma LowStart(rs: seq<Region>, size: nat, shift: nat, memBase: nat, memEnd: nat)
    requires memBase <= memEnd <= PHYS
    ensures UpTo(memBase, PAGE) < U64 && LowBound(rs, UpTo(memBase, PAGE), size, Pow2(shift), memBase, memEnd)
  {
  }

  /** The end in 64 bits: it passes the test only without wrapping for a small size, and only by wrapping for a large one. */
  lemma End64(start: nat, size: nat, memEnd: nat)
    requires start < U64 && size < U64 && memEnd <= PHYS
    ensures (start + size) % U64 == if start + size < U64 then start + size else start + size - U64
    ensures size > memEnd && (start + size) % U64 <= memEnd ==> U64 <= start + size <= U64 + memEnd && start > 0
    ensures size <= memEnd && start <= PHYS + PAGE + HALF ==> start + size < U64
  {
  }

  lemma LowRound(rs: seq<Region>, start: nat, size: nat, shift: nat, memBase: nat, memEnd: nat)
    requires start < U64 && size < U64 && shift < 64 && memBase <= memEnd <= PHYS
    requires LowBound(rs, start, size, Pow2(shift), memBase, memEnd) && (start + size) % U64 <= memEnd
    ensures UpTo(start, Pow2(shift)) <= U64
    ensures size <= memEnd ==> start + size <= memEnd && UpTo(start, Pow2(shift)) + size < U64
    ensures size > memEnd ==> U64 <= start + size && start > 0
  {
    AlignFits(shift);
    UpToWord(start, Pow2(shift));
    End64(start, size, memEnd);
  }

  lemma LowOver(rs: seq<Region>, start: nat, size: nat, shift: nat, memBase: nat, memEnd: nat)
    requires start < U64 && size < U64 && shift < 64 && memBase <= memEnd <= PHYS
    requires LowBound(rs, start, size, Pow2(shift), memBase, memEnd) && (start + size) % U64 <= memEnd
    requires (UpTo(start, Pow2(shift)) % U64 + size) % U64 > memEnd
    ensures LowResult(rs, size, Pow2(shift), memBase, memEnd, None)
  {
    hide Pow2, UpTo, DownTo, OverlapsTo, Fits;
    LowRound(rs, start, size, shift, memBase, memEnd);
    var align, lo := Pow2(shift), UpTo(memBase, PAGE);
    var s := UpTo(start, align);
    WordMod(s);
    if size <= memEnd {
      AtMultiple(rs, start, size, align, lo, memEnd);
      End64(s, size, memEnd);
      NoneAbove(rs, s, size, align, lo, memEnd);
    } else if s < U64 {
      End64(s, size, memEnd);
    }
  }

  lemma WordMod(s: nat)
    requires s <= U64
    ensures s % U64 == if s < U64 then s else 0
  {
  }

  lemma NoneAbove(rs: seq<Region>, s: nat, size: nat, align: nat, lo: nat, memEnd: nat)
    requires align > 0 && s + size > memEnd && forall x: nat :: Fits(rs, x, size, align, lo, memEnd) ==> s <= x
    ensures NoFit(rs, size, align, lo, memEnd)
  {
  }

  lemma LowFound(rs: seq<Region>, start: nat, size: nat, shift: nat, memBase: nat, memEnd: nat)
    requires start < U64 && size < U64 && shift < 64 && memBase <= memEnd <= PHYS
    requires LowBound(rs, start, size, Pow2(shift), memBase, memEnd) && (start + size) % U64 <= memEnd
    requires var s := UpTo(start, Pow2(shift)) % U64;
             (s + size) % U64 <= memEnd && !OverlapsTo(rs, s, (s + size) % U64)
    ensures LowResult(rs, size, Pow2(shift), memBase, memEnd, Some(UpTo(start, Pow2(shift)) % U64))
    ensures size <= memEnd ==> UpTo(start, Pow2(shift)) % U64 + size <= PHYS
  {
    hide Pow2, UpTo, DownTo, OverlapsTo, Overlaps;
    LowRound(rs, start, size, shift, memBase, memEnd);
    var align, lo := Pow2(shift), UpTo(memBase, PAGE);
    var s := UpTo(start, align);
    WordMod(s);
    End64(s % U64, size, memEnd);
    if size <= memEnd {
      AtMultiple(rs, start, size, align, lo, memEnd);
      OverlapsSame(rs, s, size);
    }
  }

  lemma LowNext(rs: seq<Region>, start: nat, size: nat, shift: nat, memBase: nat, memEnd: nat, skip: nat)
    requires start < U64 && size < U64 && shift < 64 && memBase <= memEnd <= PHYS && Physical(rs)
    requires LowBound(rs, start, size, Pow2(shift), memBase, memEnd) && (start + size) % U64 <= memEnd
    requires var s := UpTo(start, Pow2(shift)) % U64;
             && (s + size) % U64 <= memEnd && OverlapsTo(rs, s, (s + size) % U64)
             && (!Reserved(rs, s) ==> skip == s) && (Reserved(rs, s) ==> exists r :: r in rs && r.Has(s) && skip == r.End())
    ensures var s := UpTo(start, Pow2(shift)) % U64;
            var next := if skip <= s then (s + Pow2(shift)) % U64 else skip;
            && next < U64 && LowBound(rs, next, size, Pow2(shift), memBase, memEnd)
            && (next > start || (next == 0 && size > memEnd && start > 0))
  {
    hide Pow2, UpTo, DownTo, OverlapsTo, Overlaps, Reserved, Physical, Fits;
    LowRound(rs, start, size, shift, memBase, memEnd);
    AlignFits(shift);
    var align, lo := Pow2(shift), UpTo(memBase, PAGE);
    var s := UpTo(start, align) % U64;
    WordMod(UpTo(start, align));
    SkipPhysical(rs, s, skip);
    End64(s, size, memEnd);
    WordStep(s, align);
    if size <= memEnd {
      AtMultiple(rs, start, size, align, lo, memEnd);
      OverlapsSame(rs, s, size);
      if skip <= s { StepMultiple(rs, s, size, align, lo, memEnd); } else { SkipReserved(rs, s, size, align, lo, memEnd, skip); }
    }
  }

  /** From a multiple, a step of the alignment ends at most at 2^64. */
  lemma WordStep(s: nat, align: nat)
    requires align > 0 && U64 % align == 0 && s < U64 && s % align == 0
    ensures s + align <= U64 && (s + align) % U64 == if s + align < U64 then s + align else 0
  {
    MultipleGap(s, U64, align);
  }

  lemma SkipPhysical(rs: seq<Region>, s: nat, skip: nat)
    requires Physical(rs) && (!Reserved(rs, s) ==> skip == s)
    requires Reserved(rs, s) ==> exists r :: r in rs && r.Has(s) && skip == r.End()
    ensures skip == s || s < skip <= PHYS
  {
  }

  lemma LowNone(rs: seq<Region>, start: nat, size: nat, shift: nat, memBase: nat, memEnd: nat)
    requires start < U64 && size < U64 && shift < 64 && memBase <= memEnd <= PHYS
    requires LowBound(rs, start, size, Pow2(shift), memBase, memEnd) && (start + size) % U64 > memEnd
    ensures LowResult(rs, size, Pow2(shift), memBase, memEnd, None)
  {
    AlignFits(shift);
    End64(start, size, memEnd);
  }

  /** With 128 MB of RAM at 2 GB, a request whose end wraps to 0 gets the first byte of RAM. */
  lemma LowWrapExample()
    ensures var size := U64 - 0x8000_0000;
            && FirstWraps(size, PAGE, 0x8000_0000, 0x8800_0000) && UpTo(UpTo(0x8000_0000, PAGE), PAGE) == 0x8000_0000
            && Wraps([], 0x8000_0000, size, PAGE, 0x8000_0000, 0x8800_0000)
            && NoFit([], size, PAGE, 0x8000_0000, 0x8800_0000)
  {
  }

  /** The answer is right, whatever is reserved, if and only if the first candidate does not wrap into range. */
  lemma LowRightIff(size: nat, align: nat, memBase: nat, memEnd: nat)
    requires align > 0 && size < U64 && memBase <= memEnd <= PHYS && size > memEnd
    ensures (forall rs: seq<Region>, r: Option<nat> :: LowResult(rs, size, align, memBase, memEnd, r) ==> r.None?) <==>
            !FirstWraps(size, align, memBase, memEnd)
  {
    if FirstWraps(size, align, memBase, memEnd) {
      var first := UpTo(UpTo(memBase, PAGE), align);
      assert LowResult([], size, align, memBase, memEnd, Some(first));
    }
  }

  lemma AtMultiple(rs: seq<Region>, start: nat, size: nat, align: nat, lo: nat, hi: nat)
    requires align > 0 && forall s: nat :: Fits(rs, s, size, align, lo, hi) ==> start <= s
    ensures forall s: nat :: Fits(rs, s, size, align, lo, hi) ==> UpTo(start, align) <= s
  {
    forall s: nat | Fits(rs, s, size, align, lo, hi)
      ensures UpTo(start, align) <= s
    {
      if s < UpTo(start, align) { MultipleGap(s, UpTo(start, align), align); }
    }
  }

  lemma StepMultiple(rs: seq<Region>, start: nat, size: nat, align: nat, lo: nat, hi: nat)
    requires align > 0 && start % align == 0 && Overlaps(rs, start, size)
    requires forall s: nat :: Fits(rs, s, size, align, lo, hi) ==> start <= s
    ensures forall s: nat :: Fits(rs, s, size, align, lo, hi) ==> start + align <= s
  {
    forall s: nat | Fits(rs, s, size, align, lo, hi)
      ensures start + align <= s
    {
      if start < s { MultipleGap(start, s, align); }
    }
  }

  /** Nothing fits between a reserved byte and the end of its region. */
  lemma SkipReserved(rs: seq<Region>, start: nat, size: nat, align: nat, lo: nat, hi: nat, skip: nat)
    requires align > 0 && Overlaps(rs, start, size)
    requires exists r :: r in rs && r.Has(start) && skip == r.End()
    requires forall s: nat :: Fits(rs, s, size, align, lo, hi) ==> start <= s
    ensures forall s: nat :: Fits(rs, s, size, align, lo, hi) ==> skip <= s
  {
    var r :| r in rs && r.Has(start) && skip == r.End();
    var i :| 0 <= i < |rs| && rs[i] == r;
    forall s: nat | Fits(rs, s, size, align, lo, hi)
      ensures skip <= s
    {
      if start < s < skip { assert Meets(rs[i], s, size); }
    }
  }

  lemma TopStart(rs: seq<Region>, size: nat, align: nat, lo: nat, memEnd: nat)
    requires align > 0 && size < U64 && memEnd < U64
    ensures var start := DownTo((U64 + DownTo(memEnd, PAGE) - size) % U64, align);
            start < U64 && TopBound(rs, start, size, align, lo, memEnd)
  {
    var end := DownTo(memEnd, PAGE);
    var top := (U64 + end - size) % U64;
    assert top == if size <= end then end - size else U64 + end - size;
    forall s: nat | s % align == 0 && s <= top
      ensures s <= DownTo(top, align)
    {
      if DownTo(top, align) < s { MultipleGap(DownTo(top, align), s, align); }
    }
  }

  /** The end in 64 bits of a candidate that the loop looks at. */
  lemma TopEnd(rs: seq<Region>, start: nat, size: nat, align: nat, lo: nat, memEnd: nat)
    requires align > 0 && size < U64 && memEnd < U64 && start < U64 && TopBound(rs, start, size, align, lo, memEnd)
    ensures (start + size) % U64 == if start + size < U64 then start + size else start + size - U64
    ensures size <= DownTo(memEnd, PAGE) ==> start + size < U64
  {
  }

  lemma TopFound(rs: seq<Region>, start: nat, size: nat, align: nat, lo: nat, memEnd: nat)
    requires align > 0 && size < U64 && memEnd < U64 && start % align == 0 && lo <= start < U64
    requires TopBound(rs, start, size, align, lo, memEnd)
    requires (start + size) % U64 <= memEnd && !OverlapsTo(rs, start, (start + size) % U64)
    ensures TopResult(rs, size, align, lo, memEnd, Some(start))
  {
    TopEnd(rs, start, size, align, lo, memEnd);
    OverlapsSame(rs, start, size);
    hide Overlaps, OverlapsTo;
  }

  lemma TopNext(rs: seq<Region>, start: nat, size: nat, align: nat, lo: nat, memEnd: nat)
    requires align > 0 && size < U64 && memEnd < U64 && start % align == 0 && lo <= start < U64
    requires TopBound(rs, start, size, align, lo, memEnd) && OverlapsTo(rs, start, (start + size) % U64)
    ensures if start < align then TopResult(rs, size, align, lo, memEnd, None)
            else TopBound(rs, start - align, size, align, lo, memEnd)
  {
    TopEnd(rs, start, size, align, lo, memEnd);
    OverlapsSame(rs, start, size);
    hide Overlaps, OverlapsTo;
    forall s: nat | s % align == 0 && s < start
      ensures s + align <= start
    {
      MultipleGap(s, start, align);
    }
  }

  lemma TopNone(rs: seq<Region>, start: nat, size: nat, align: nat, lo: nat, memEnd: nat)
    requires align > 0 && size < U64 && memEnd < U64 && start < U64 && TopBound(rs, start, size, align, lo, memEnd)
    requires start < lo || (start + size) % U64 > memEnd
    ensures TopResult(rs, size, align, lo, memEnd, None)
  {
    TopEnd(rs, start, size, align, lo, memEnd);
  }

  /** With 128 MB of RAM at 2 GB, a request for 4 GB is answered with an address far above RAM. */
  lemma WrapExample()
    ensures var start := U64 + 0x8800_0000 - 0x1_0000_0000;
            HighestWrap([], start, 0x1_0000_0000, PAGE, 0x8000_0000, 0x8800_0000) && start >= 0x8800_0000
  {
  }

  /** For such a size nothing fits. */
  lemma TooLargeNoFit(rs: seq<Region>, size: nat, align: nat, lo: nat, hi: nat)
    requires align > 0 && size > hi
    ensures NoFit(rs, size, align, lo, hi)
  {
  }
}
