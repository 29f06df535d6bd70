/**
 The page loops of mm/vma.cc over the Sv39 tables and the page allocator together: with the table of a
 space held by a `Pmap`, and counts and pool by a `Pmm`, they are the steps of `AddressSpace`.
 */
module PageLoops {
  import opened Basics
  import opened Options
  import opened VmaList
  import opened AddressSpace
  import opened VmSteps
  import opened UserTable
  import opened FramePool
  import S = Sv39
  import P = Pmm

  /** Space `id` of `s` has its table in `m`, and the frames of `s` are those of `pmm`. */
  ghost predicate Holds(m: S.Pmap, pmm: P.Pmm, s: Sys, id: SpaceId)
    reads m, pmm, pmm.pages
  {
    id in s.spaces && m.Valid() && s.spaces[id].table == TableOf(m.State()) && pmm.Valid() && Backs(pmm, s)
  }

  lemma PageAddress(p: nat)
    requires p < PAGE_LIMIT
    ensures p * PAGE / PAGE == p && p * PAGE < S.PAGES * PAGE
  {
  }

  /** An entry's frame is counted. */
  lemma FrameCounted(s: Sys, id: SpaceId, p: nat)
    requires Counted(s) && id in s.spaces && p in s.spaces[id].table
    ensures var f := s.spaces[id].table[p].frame; f in s.refs && s.refs[f] >= 1
  {
    EntryIsCounted(s, id, p);
  }

  /** Drop one page, if `lookup` sees it. */
  method DropOne(m: S.Pmap, pmm: P.Pmm, cpu: nat, p: nat, ghost s: Sys, ghost id: SpaceId)
    requires Holds(m, pmm, s, id) && Counted(s) && cpu < |pmm.pcp| && p < PAGE_LIMIT
    modifies m, pmm`free, pmm`pcp, pmm`count, pmm`blocks, pmm`owner, pmm.pages
    ensures |pmm.pcp| == |old(pmm.pcp)| && Holds(m, pmm, DropPage(s, id, p), id)
  {
    hide Counted, Backs, TableOf, S.Tree, P.Good;
    PageAddress(p);
    var f := LookupPage(m, p * PAGE);
    if f.Some? {
      FrameCounted(s, id, p);
      DropFrame(pmm, cpu, f.value, s);
      BacksSame(pmm, Decref(s, f.value), ClearPte(Decref(s, f.value), id, p));
      UnmapPage(m, p * PAGE);
    }
  }

  /** Tables matter to no count and no pool. */
  lemma BacksSame(pmm: P.Pmm, s: Sys, s': Sys)
    requires Backs(pmm, s) && s'.refs == s.refs && s'.pool == s.pool
    ensures Backs(pmm, s')
  {
  }

  /** The page loop of `vmm_unmap_user`. */
  method DropRange(m: S.Pmap, pmm: P.Pmm, cpu: nat, a: nat, b: nat, ghost s: Sys, ghost id: SpaceId)
    requires Holds(m, pmm, s, id) && Counted(s) && Pooled(s) && cpu < |pmm.pcp| && a <= b <= PAGE_LIMIT
    modifies m, pmm`free, pmm`pcp, pmm`count, pmm`blocks, pmm`owner, pmm.pages
    ensures |pmm.pcp| == |old(pmm.pcp)| && Holds(m, pmm, DropPages(s, id, a, b), id)
  {
    hide Counted, Pooled, Holds, DropPage;
    HoldsId(m, pmm, s, id);
    var p := a;
    while p < b
      invariant a <= p <= b && |pmm.pcp| == |old(pmm.pcp)| && id in s.spaces
      invariant Holds(m, pmm, DropPages(s, id, a, p), id)
      invariant Counted(DropPages(s, id, a, p)) && Pooled(DropPages(s, id, a, p))
    {
      ghost var d := DropPages(s, id, a, p);
      DropPageCounted(d, id, p);
      DropOne(m, pmm, cpu, p, d, id);
      p := p + 1;
      assert DropPages(s, id, a, p) == DropPage(d, id, p - 1);
    }
  }

  lemma HoldsId(m: S.Pmap, pmm: P.Pmm, s: Sys, id: SpaceId)
    requires Holds(m, pmm, s, id)
    ensures id in s.spaces
  {
  }

  /** Protect one page, if `lookup` sees it. */
  method ProtectOne(m: S.Pmap, pmm: P.Pmm, cpu: nat, p: nat, perm: Perm, ghost s: Sys, ghost id: SpaceId)
    requires Holds(m, pmm, s, id) && Counted(s) && cpu < |pmm.pcp| && p < PAGE_LIMIT
    modifies m, pmm`free, pmm`pcp, pmm`count, pmm`blocks, pmm`owner, pmm.pages
    ensures |pmm.pcp| == |old(pmm.pcp)| && Holds(m, pmm, VmSteps.ProtectPage(s, id, p, perm), id)
  {
    hide Counted, Backs, TableOf, S.Tree, P.Good;
    PageAddress(p);
    var f := LookupPage(m, p * PAGE);
    if f.None? {
      return;
    }
    if perm.Zero() {
      FrameCounted(s, id, p);
      DropFrame(pmm, cpu, f.value, s);
      BacksSame(pmm, Decref(s, f.value), ClearPte(Decref(s, f.value), id, p));
      UnmapPage(m, p * PAGE);
    } else {
      BacksSame(pmm, s, VmSteps.ProtectPage(s, id, p, perm));
      var ret := UserTable.ProtectPage(m, p * PAGE, perm);
    }
  }

  /** The page loop of `vmm_protect_user`. */
  method ProtectRange(m: S.Pmap, pmm: P.Pmm, cpu: nat, a: nat, b: nat, perm: Perm, ghost s: Sys, ghost id: SpaceId)
    requires Holds(m, pmm, s, id) && Counted(s) && Pooled(s) && cpu < |pmm.pcp| && a <= b <= PAGE_LIMIT
    modifies m, pmm`free, pmm`pcp, pmm`count, pmm`blocks, pmm`owner, pmm.pages
    ensures |pmm.pcp| == |old(pmm.pcp)| && Holds(m, pmm, ProtectPages(s, id, a, b, perm), id)
  {
    hide Counted, Pooled, Holds, VmSteps.ProtectPage;
    HoldsId(m, pmm, s, id);
    var p := a;
    while p < b
      invariant a <= p <= b && |pmm.pcp| == |old(pmm.pcp)| && id in s.spaces
      invariant Holds(m, pmm, ProtectPages(s, id, a, p, perm), id)
      invariant Counted(ProtectPages(s, id, a, p, perm)) && Pooled(ProtectPages(s, id, a, p, perm))
    {
      ghost var d := ProtectPages(s, id, a, p, perm);
      ProtectOneCounted(d, id, p, perm);
      ProtectOne(m, pmm, cpu, p, perm, d, id);
      p := p + 1;
      assert ProtectPages(s, id, a, p, perm) == VmSteps.ProtectPage(d, id, p - 1, perm);
    }
  }

  lemma ProtectOneCounted(s: Sys, id: SpaceId, p: nat, perm: Perm)
    requires Counted(s) && Pooled(s) && id in s.spaces
    ensures Counted(VmSteps.ProtectPage(s, id, p, perm)) && Pooled(VmSteps.ProtectPage(s, id, p, perm))
  {
    hide Counted, Pooled;
    var t := s.spaces[id].table;
    if p in t && t[p].Seen() {
      if perm.Zero() { DropPageCounted(s, id, p); } else { RewriteCounted(s, id, p, ProtectPte(t[p], perm)); }
    }
  }

  /** A copy-on-write copy before the old frame is let go. */
  ghost function Copied(s: Sys, id: SpaceId, p: nat, f: Frame, perm: Perm): (s': Sys)
    requires id in s.spaces && p in s.spaces[id].table && s.spaces[id].table[p].frame in s.refs
    ensures s'.refs == s.refs[f := 1] && s'.pool == s.pool - {f}
    ensures CopyPage(s, id, p, f, perm) == Decref(s', s.spaces[id].table[p].frame)
  {
    var g := s.spaces[id].table[p].frame;
    var s1 := Alloc(s, f);
    SetPte(if g in s.mem then s1.(mem := s.mem[f := s.mem[g]]) else s1, id, p, Own(f, perm))
  }

  lemma ValidCounted(s: Sys)
    requires Valid(s)
    ensures Counted(s) && s.pool !! s.refs.Keys
  {
  }

  lemma PoolInside(pmm: P.Pmm, s: Sys, f: Frame)
    requires Backs(pmm, Alloc(s, f))
    ensures f < pmm.pages.Length
  {
    assert f in Alloc(s, f).refs;
  }

  /** A frame that is taken and freed again. */
  lemma TakenBack(s: Sys, f: Frame)
    requires f in s.pool && f !in s.refs
    ensures Decref(Alloc(s, f), f).refs == s.refs && Decref(Alloc(s, f), f).pool == s.pool
  {
  }

  /** What a fault asks the allocator for, and what it does with the answer. */
  method FaultPage(m: S.Pmap, pmm: P.Pmm, cpu: nat, p: nat, cause: Cause, perm: Option<Perm>,
                   mid: Option<S.Frame>, low: Option<S.Frame>, ghost s: Sys, ghost id: SpaceId)
    returns (ghost frame: Option<Frame>, ghost tables: bool)
    requires Holds(m, pmm, s, id) && Valid(s) && cpu < |pmm.pcp| && p < PAGE_LIMIT
    requires perm == PermAt(s.spaces[id].vmas, p) && pmm.pages.Length <= S.FRAMES
    requires mid.Some? ==> mid.value !in m.tables && mid.value < S.FRAMES
    requires low.Some? ==> low.value !in m.tables && low.value < S.FRAMES
    requires mid.Some? && low.Some? ==> mid != low
    modifies m, pmm`free, pmm`pcp, pmm`count, pmm`blocks, pmm`owner, pmm.pages
    ensures Possible(s, Fault(id, p, cause, frame, tables))
    ensures mid.Some? && low.Some? ==> tables
    ensures Holds(m, pmm, FaultStep(s, id, p, cause, frame, tables), id)
  {
    hide Valid, Backs, TableOf, S.Tree, P.Good, PermAt, Allows;
    frame, tables := None, true;
    if perm.None? || !Allows(perm.value, cause) {
      return;
    }
    PageAddress(p);
    ValidCounted(s);
    var found := LookupPage(m, p * PAGE);
    if found.Some? {
      var cow := IsCowPage(m, p * PAGE);
      if !(cause.Write? && cow) {
        return;
      }
    }
    var page := TakeFrame(pmm, cpu, s);
    if page.None? {
      return;
    }
    var f := page.value;
    frame := Some(f);
    PoolInside(pmm, s, f);
    var ret := MapPage(m, p * PAGE, f, perm.value, false, mid, low);
    tables := ret == 0;
    if ret != 0 {
      DropFrame(pmm, cpu, f, Alloc(s, f));
      TakenBack(s, f);
      BacksSame(pmm, Decref(Alloc(s, f), f), s);
    } else if found.Some? {
      FrameCounted(s, id, p);
      ghost var s3 := Copied(s, id, p, f, perm.value);
      BacksSame(pmm, Alloc(s, f), s3);
      DropFrame(pmm, cpu, found.value, s3);
    } else {
      BacksSame(pmm, Alloc(s, f), FillPage(s, id, p, f, perm.value));
    }
  }

  /** The parent's side of sharing one page. */
  function Marked(s: Sys, from: SpaceId, p: nat, perm: Perm): (s': Sys)
    requires from in s.spaces && p in s.spaces[from].table
    ensures s'.refs == s.refs && s'.pool == s.pool
  {
    if perm.w then SetPte(s, from, p, s.spaces[from].table[p].MakeCow()) else s
  }

  lemma FrameInRange(s: S.Pt, p: nat)
    requires p in TableOf(s)
    ensures TableOf(s)[p].frame < S.FRAMES
  {
  }

  /**
   Share one page with a fork. When the child cannot map it, the parent's entry has been marked already
   and nothing else has changed.
   */
  method ShareOne(m: S.Pmap, c: S.Pmap, pmm: P.Pmm, p: nat, perm: Perm, mid: Option<S.Frame>, low: Option<S.Frame>,
                  ghost s: Sys, ghost from: SpaceId, ghost to: SpaceId)
    returns (ok: bool)
    requires Holds(m, pmm, s, from) && Holds(c, pmm, s, to) && from != to && m != c && Counted(s) && p < PAGE_LIMIT
    requires mid.Some? ==> mid.value !in c.tables && mid.value < S.FRAMES
    requires low.Some? ==> low.value !in c.tables && low.value < S.FRAMES
    requires mid.Some? && low.Some? ==> mid != low
    modifies m, c, pmm.pages
    ensures mid.Some? && low.Some? ==> ok
    ensures ok ==> Holds(m, pmm, SharePage(s, from, to, p, perm), from) && Holds(c, pmm, SharePage(s, from, to, p, perm), to)
    ensures !ok ==> && p in s.spaces[from].table && Holds(m, pmm, Marked(s, from, p, perm), from)
                    && Holds(c, pmm, Marked(s, from, p, perm), to)
  {
    hide Counted, Backs, TableOf, S.Tree, P.Good;
    PageAddress(p);
    var f := LookupPage(m, p * PAGE);
    if f.None? {
      return true;
    }
    FrameCounted(s, from, p);
    FrameInRange(m.State(), p);
    ghost var s1 := Marked(s, from, p, perm);
    BacksSame(pmm, s, s1);
    if perm.w {
      var ret := CowPage(m, p * PAGE);
    }
    var ret := MapPage(c, p * PAGE, f.value, perm, true, mid, low);
    if ret != 0 {
      return false;
    }
    ghost var s2 := SetPte(s1, to, p, Share(f.value, perm));
    BacksSame(pmm, s1, s2);
    KeepFrame(pmm, f.value, s2);
    return true;
  }
}
