/** The hand-off of RAM from the boot-time allocator to the buddy allocator, in `pmm_init`. */
module HandOff {
  import opened Memblock
  import opened Basics
  import opened Powers
  import opened BuddyBlocks
  import P = Pmm

  /** The first byte of frame `f`. */
  function Byte(base: nat, f: nat): nat { base + f * PAGE }

  /** The frames of a gap, as `pmm_init` computes them. */
  function First(base: nat, g: Region): nat
    requires base <= g.base
  {
    (g.base - base) / PAGE
  }

  function Last(base: nat, g: Region): nat
    requires base <= g.base
  {
    First(base, g) + g.size / PAGE
  }

  /** Managed are the frames that start in the first `i` gaps. */
  ghost predicate FedGaps(owner: map<nat, nat>, gaps: seq<Region>, i: nat, base: nat, n: nat)
    requires i <= |gaps|
  {
    forall f: nat :: f in owner <==> f < n && Reserved(gaps[..i], Byte(base, f))
  }

  /** Gaps of RAM: in order, not adjacent, and of whole pages but for the end of RAM. */
  ghost predicate InRam(gaps: seq<Region>, base: nat, size: nat) {
    && base % PAGE == 0 && Spaced(gaps, base) && Paged(gaps, base + size)
    && forall i :: 0 <= i < |gaps| ==> gaps[i].End() <= base + size
  }

  lemma FrameInGap(base: nat, size: nat, g: Region, f: nat)
    requires base % PAGE == 0 && g.base % PAGE == 0 && base <= g.base && f < size / PAGE
    requires g.End() % PAGE == 0 || g.End() == base + size
    ensures g.Has(Byte(base, f)) <==> First(base, g) <= f < Last(base, g)
  {
  }

  lemma GapsInRam(rs: seq<Region>, base: nat, size: nat)
    requires Sorted(rs) && WholePages(rs) && base % PAGE == 0
    requires !Overruns(rs, base, base + size) && !AnySplits(rs, base, base + size)
    ensures Exact(rs, base, base + size) && InRam(Gaps(rs, base, base + size), base, size)
  {
    hide Gaps, Sorted, WholePages, Overruns, AnySplits, Paged, Exact;
    var gaps := Gaps(rs, base, base + size);
    GapsExact(rs, base, base + size);
    GapsPaged(rs, base, base + size);
    GapsSpacedIff(rs, base, base + size);
    forall i | 0 <= i < |gaps|
      ensures gaps[i].End() <= base + size
    {
      GapEnd(rs, base, size, i);
    }
  }

  lemma GapEnd(rs: seq<Region>, base: nat, size: nat, i: nat)
    requires Exact(rs, base, base + size) && i < |Gaps(rs, base, base + size)| && Gaps(rs, base, base + size)[i].size > 0
    ensures Gaps(rs, base, base + size)[i].End() <= base + size
  {
    hide Gaps;
    var g := Gaps(rs, base, base + size)[i];
    assert g.Has(g.End() - 1);
    assert Reserved(Gaps(rs, base, base + size), g.End() - 1);
  }

  /** No frame of a gap, nor one next to it, belongs to an earlier gap. */
  lemma EarlierGaps(gaps: seq<Region>, i: nat, base: nat, size: nat, f: nat)
    requires InRam(gaps, base, size) && i < |gaps| && First(base, gaps[i]) <= f + 1 && f <= Last(base, gaps[i])
    ensures !Reserved(gaps[..i], Byte(base, f))
  {
    forall k | 0 <= k < |gaps[..i]|
      ensures !gaps[..i][k].Has(Byte(base, f))
    {
      assert gaps[k].End() < gaps[i].base;
      BeforeGap(base, gaps[k].End(), gaps[i].base, f);
    }
  }

  lemma BeforeGap(base: nat, end: nat, start: nat, f: nat)
    requires base % PAGE == 0 && end % PAGE == 0 && start % PAGE == 0 && base <= start && end < start
    requires (start - base) / PAGE <= f + 1
    ensures end <= Byte(base, f)
  {
  }

  lemma NextGap(owner: map<nat, nat>, gaps: seq<Region>, i: nat, base: nat, size: nat)
    requires InRam(gaps, base, size) && i < |gaps| && FedGaps(owner, gaps, i, base, size / PAGE)
    ensures base <= gaps[i].base
    ensures var start, end := First(base, gaps[i]), Last(base, gaps[i]);
            end <= size / PAGE && end !in owner && start - 1 !in owner && forall f :: start <= f < end ==> f !in owner
  {
    var g := gaps[i];
    forall f: nat | First(base, g) <= f + 1 && f <= Last(base, g)
      ensures f !in owner
    {
      EarlierGaps(gaps, i, base, size, f);
    }
  }

  lemma FedNext(owner: map<nat, nat>, owner': map<nat, nat>, gaps: seq<Region>, i: nat, base: nat, size: nat)
    requires InRam(gaps, base, size) && i < |gaps| && FedGaps(owner, gaps, i, base, size / PAGE)
    requires Last(base, gaps[i]) <= size / PAGE
    requires forall f :: f in owner' <==> f in owner || First(base, gaps[i]) <= f < Last(base, gaps[i])
    ensures FedGaps(owner', gaps, i + 1, base, size / PAGE)
  {
    hide Reserved, Byte;
    var g := gaps[i];
    forall f: nat | f < size / PAGE
      ensures Reserved(gaps[..i + 1], Byte(base, f)) <==> Reserved(gaps[..i], Byte(base, f)) || First(base, g) <= f < Last(base, g)
    {
      assert gaps[..i + 1] == gaps[..i] + [g];
      ReservedConcat(gaps[..i], [g], Byte(base, f));
      ReservedOne(g, Byte(base, f));
      FrameInGap(base, size, g, f);
    }
  }

  // ----- Exactly when the right frames are fed -----

  ghost predicate InSomeGap(gaps: seq<Region>, base: nat, f: nat) {
    exists i :: 0 <= i < |gaps| && FeedsFrame(gaps[i], base, f)
  }

  predicate FeedsFrame(g: Region, base: nat, f: nat) { base <= g.base && First(base, g) <= f < Last(base, g) }

  /** The frames that are fed from the gaps are those whose first byte is not reserved. */
  ghost predicate RightFrames(rs: seq<Region>, base: nat, size: nat) {
    forall f: nat :: f < size / PAGE ==>
      (InSomeGap(Gaps(rs, base, base + size), base, f) <==> !Reserved(rs, Byte(base, f)))
  }

  /** Whatever is reserved, empty reservations included, the frames are right if the base is page-aligned. */
  lemma AlignedFrames(rs: seq<Region>, base: nat, size: nat)
    requires Sorted(rs) && WholePages(rs) && !Overruns(rs, base, base + size) && base % PAGE == 0
    ensures RightFrames(rs, base, size)
  {
    var gaps := Gaps(rs, base, base + size);
    GapsExact(rs, base, base + size);
    GapsPaged(rs, base, base + size);
    GapHead(rs, base, base + size);
    hide Gaps, Sorted, WholePages, Overruns, First, Last;
    forall f: nat | f < size / PAGE
      ensures InSomeGap(gaps, base, f) <==> !Reserved(rs, Byte(base, f))
    {
      forall i | 0 <= i < |gaps|
        ensures FeedsFrame(gaps[i], base, f) <==> gaps[i].Has(Byte(base, f))
      {
        FrameInGap(base, size, gaps[i], f);
      }
      FrameInside(base, size, f);
      assert Reserved(gaps, Byte(base, f)) <==> InSomeGap(gaps, base, f);
    }
  }

  lemma FrameInside(base: nat, size: nat, f: nat)
    requires f < size / PAGE
    ensures base <= Byte(base, f) < base + size
  {
  }

  /** With a base that is not, a reservation of the second page loses the first frame. */
  lemma UnalignedBase(base: nat, size: nat)
    requires base % PAGE != 0 && size >= PAGE
    ensures var rs := [Region((base / PAGE + 1) * PAGE, PAGE)];
            && Sorted(rs) && WholePages(rs) && !Overruns(rs, base, base + size)
            && !InSomeGap(Gaps(rs, base, base + size), base, 0) && !Reserved(rs, Byte(base, 0))
  {
    var q, end := (base / PAGE + 1) * PAGE, base + size;
    var rs := [Region(q, PAGE)];
    assert rs[1..] == [] && base < q < base + PAGE;
    var more := Gaps([], q + PAGE, end);
    assert Gaps(rs, base, end) == [Region(base, q - base)] + more;
    assert First(base, Region(base, q - base)) == 0 && Last(base, Region(base, q - base)) == 0;
    assert more != [] ==> more == [Region(q + PAGE, end - (q + PAGE))] && First(base, more[0]) >= 1;
  }

  /** The right frames are fed, whatever is reserved, if and only if the base is page-aligned or there is no frame. */
  lemma RightFramesIff(base: nat, size: nat)
    ensures base % PAGE == 0 || size < PAGE <==>
            forall rs: seq<Region> :: Sorted(rs) && WholePages(rs) && !Overruns(rs, base, base + size) ==> RightFrames(rs, base, size)
  {
    hide Sorted, WholePages, Overruns, InSomeGap;
    if base % PAGE == 0 || size < PAGE {
      forall rs: seq<Region> | Sorted(rs) && WholePages(rs) && !Overruns(rs, base, base + size)
        ensures RightFrames(rs, base, size)
      {
        if base % PAGE == 0 { AlignedFrames(rs, base, size); }
      }
    } else {
      UnalignedBase(base, size);
      assert !RightFrames([Region((base / PAGE + 1) * PAGE, PAGE)], base, size);
    }
  }

  /** What an empty reservation between two frames leaves: free buddies, and a free run that is in no block. */
  lemma SplitBuddies()
    ensures var blocks, owner := map[0 := Block(0, OnFree), 1 := Block(0, OnFree)], map[0 := 0, 1 := 1];
            Tiles(blocks, owner, 2) && !Separated(blocks) && HasFreeRun(blocks, owner, 1) && !HasBlock(blocks, 1)
  {
    var blocks, owner := map[0 := Block(0, OnFree), 1 := Block(0, OnFree)], map[0 := 0, 1 := 1];
    assert Pow2(0) == 1 && Pow2(1) == 2;
    assert Buddy(0, 0) == 1;
    assert !Apart(blocks, 0);
    assert FreeRun(blocks, owner, 0, 1);
  }

  /**
   The frames that are fed are exactly those of RAM that are not reserved, and each is in one block,
   which is free.
   */
  method FeedAll(mb: Memblock, pmm: P.Pmm)
    requires mb.Valid() && mb.memBase % PAGE == 0 && WholePages(mb.Regions())
    requires !Overruns(mb.Regions(), mb.memBase, mb.memBase + mb.memSize)
    requires !AnySplits(mb.Regions(), mb.memBase, mb.memBase + mb.memSize)
    requires pmm.Valid() && pmm.owner == map[] && pmm.pages.Length == mb.memSize / PAGE
    requires pmm.pages as object != mb.reserved as object
    modifies pmm, pmm.pages
    ensures pmm.Valid() && Held(pmm.blocks) == Held(old(pmm.blocks))
    ensures forall f: nat :: f in pmm.owner <==>
                             f < mb.memSize / PAGE && !Reserved(mb.Regions(), Byte(mb.memBase, f))
  {
    hide P.Good, Held, Sorted, Overruns, AnySplits, WholePages, FedGaps, InRam, Reserved, Gaps, Byte;
    var base, size := mb.memBase, mb.memSize;
    ghost var rs := mb.Regions();
    var gaps := mb.ForEachFree();
    GapsInRam(rs, base, size);
    FedNone(gaps, base, size / PAGE);
    var i := 0;
    while i < |gaps|
      invariant i <= |gaps| && pmm.Valid() && Held(pmm.blocks) == Held(old(pmm.blocks))
      invariant FedGaps(pmm.owner, gaps, i, base, size / PAGE) && mb.Valid() && mb.Regions() == rs
    {
      NextGap(pmm.owner, gaps, i, base, size);
      var start := (gaps[i].base - base) / PAGE;
      ghost var owner := pmm.owner;
      pmm.Feed(start, start + gaps[i].size / PAGE);
      FedNext(owner, pmm.owner, gaps, i, base, size);
      i := i + 1;
    }
    FedEverything(pmm.owner, rs, base, size);
  }

  lemma FedNone(gaps: seq<Region>, base: nat, n: nat)
    ensures FedGaps(map[], gaps, 0, base, n)
  {
  }

  lemma FedEverything(owner: map<nat, nat>, rs: seq<Region>, base: nat, size: nat)
    requires Exact(rs, base, base + size)
    requires var gaps := Gaps(rs, base, base + size); FedGaps(owner, gaps, |gaps|, base, size / PAGE)
    ensures forall f: nat :: f in owner <==> f < size / PAGE && !Reserved(rs, Byte(base, f))
  {
    var gaps := Gaps(rs, base, base + size);
    assert gaps[..|gaps|] == gaps;
    hide Reserved, Gaps;
  }
}
