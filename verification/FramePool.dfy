/**
 The frames of user spaces come from the page allocator: the pool of free frames and the reference
 counts that `AddressSpace` reasons about are those of `Pmm`, call by call.
 */
module FramePool {
  import opened Options
  import opened Powers
  import opened BuddyBlocks
  import P = Pmm
  import A = AddressSpace

  /** Frame `p` is in a block that is handed out. */
  ghost predicate Taken(live: Blocks, p: nat) {
    exists h :: h in live && In(p, h, live[h].order)
  }

  /** The managed frames that nobody has: on a free list or in a cache. */
  ghost function Unused(live: Blocks, managed: set<nat>): set<nat> { set p | p in managed && !Taken(live, p) }

  /** The pool is what nobody has, and every count is that of a page that is handed out. */
  ghost predicate Backs(pmm: P.Pmm, s: A.Sys)
    reads pmm, pmm.pages
  {
    && s.pool == Unused(LiveOf(pmm.blocks), pmm.owner.Keys)
    && forall f :: f in s.refs ==> Counts(pmm.pages[..], LiveOf(pmm.blocks), f, s.refs[f])
  }

  predicate Counts(pages: seq<Page>, live: Blocks, f: nat, n: nat) {
    f in live && live[f].order == 0 && f < |pages| && pages[f].refcount == n
  }

  lemma OneFrame(p: nat, h: nat)
    ensures In(p, h, 0) <==> p == h
  {
    assert Pow2(0) == 1;
  }

  lemma TakenMore(live: Blocks, h: nat, p: nat)
    requires h !in live
    ensures Taken(live[h := Block(0, Live)], p) <==> Taken(live, p) || p == h
  {
    var live' := live[h := Block(0, Live)];
    OneFrame(p, h);
    if Taken(live, p) {
      var g :| g in live && In(p, g, live[g].order);
      assert g in live' && In(p, g, live'[g].order);
    }
    if p == h { assert h in live' && In(p, h, live'[h].order); }
  }

  lemma TakenLess(blocks: Blocks, owner: map<nat, nat>, n: nat, h: nat, p: nat)
    requires Tiles(blocks, owner, n) && h in LiveOf(blocks) && blocks[h].order == 0
    ensures Taken(LiveOf(blocks) - {h}, p) <==> Taken(LiveOf(blocks), p) && p != h
  {
    var live := LiveOf(blocks);
    OneFrame(p, h);
    HeadIn(blocks, owner, n, h);
    if Taken(live - {h}, p) {
      var g :| g in live - {h} && In(p, g, live[g].order);
      OwnerIs(blocks, owner, n, g, p);
    }
    if Taken(live, p) && p != h {
      var g :| g in live && In(p, g, live[g].order);
      assert g in live - {h};
    }
  }

  /** A page that was not handed out is in the pool. */
  lemma HeadUnused(blocks: Blocks, owner: map<nat, nat>, n: nat, blocks': Blocks, owner': map<nat, nat>, h: nat)
    requires Tiles(blocks, owner, n) && Tiles(blocks', owner', n) && owner'.Keys == owner.Keys && h in owner
    requires h !in LiveOf(blocks) && LiveOf(blocks') == LiveOf(blocks)[h := Block(0, Live)]
    ensures h in Unused(LiveOf(blocks), owner.Keys)
  {
    hide Tiles, LiveOf;
    var live, live' := LiveOf(blocks), LiveOf(blocks');
    LiveBlock(blocks', h);
    HeadIn(blocks', owner', n, h);
    forall g | g in live' && In(h, g, live'[g].order)
      ensures g == h
    {
      LiveBlock(blocks', g);
      OwnerIs(blocks', owner', n, g, h);
    }
    assert forall g :: g in live ==> g in live' && live'[g] == live[g];
  }

  lemma UnusedMore(live: Blocks, managed: set<nat>, h: nat)
    requires h !in live
    ensures Unused(live[h := Block(0, Live)], managed) == Unused(live, managed) - {h}
  {
    hide Taken;
    var live' := live[h := Block(0, Live)];
    forall p: nat
      ensures p in Unused(live', managed) <==> p in Unused(live, managed) - {h}
    {
      TakenMore(live, h, p);
    }
    assert Unused(live', managed) == Unused(live, managed) - {h};
  }

  lemma UnusedLess(blocks: Blocks, owner: map<nat, nat>, n: nat, h: nat)
    requires Tiles(blocks, owner, n) && h in LiveOf(blocks) && blocks[h].order == 0
    ensures Unused(LiveOf(blocks) - {h}, owner.Keys) == Unused(LiveOf(blocks), owner.Keys) + {h}
  {
    hide Taken, Tiles, LiveOf;
    LiveBlock(blocks, h);
    HeadIn(blocks, owner, n, h);
    forall p: nat
      ensures Taken(LiveOf(blocks) - {h}, p) <==> Taken(LiveOf(blocks), p) && p != h
    {
      TakenLess(blocks, owner, n, h, p);
    }
  }

  /** `pmm_alloc_page` hands out a frame of the pool, with one reference; or the pool is as it was. */
  method TakeFrame(pmm: P.Pmm, cpu: nat, ghost s: A.Sys) returns (r: Option<nat>)
    requires pmm.Valid() && cpu < |pmm.pcp| && Backs(pmm, s)
    modifies pmm`free, pmm`pcp, pmm`count, pmm`blocks, pmm`owner, pmm.pages
    ensures pmm.Valid() && |pmm.pcp| == |old(pmm.pcp)|
    ensures match r
            case Some(f) => f in s.pool && Backs(pmm, A.Alloc(s, f))
            case None => Backs(pmm, s)
  {
    hide LiveOf, Unused, HasFreeRun, P.Good, Taken;
    ghost var b0, o0, pages0 := pmm.blocks, pmm.owner, pmm.pages[..];
    GoodTiles(pages0, b0, o0, pmm.free, pmm.pcp, -1);
    r := pmm.AllocPage(cpu);
    GoodTiles(pmm.pages[..], pmm.blocks, pmm.owner, pmm.free, pmm.pcp, -1);
    CountsKept(pages0, pmm.pages[..], LiveOf(b0), LiveOf(pmm.blocks), s.refs);
    if r.Some? {
      HeadUnused(b0, o0, pmm.pages.Length, pmm.blocks, pmm.owner, r.value);
      UnusedMore(LiveOf(b0), o0.Keys, r.value);
    }
  }

  /** `page_incref` on a frame in use. */
  method KeepFrame(pmm: P.Pmm, f: nat, ghost s: A.Sys)
    requires pmm.Valid() && Backs(pmm, s) && f in s.refs
    modifies pmm.pages
    ensures pmm.Valid() && Backs(pmm, A.Incref(s, f))
  {
    hide LiveOf, Unused;
    pmm.PageIncref(f);
  }

  /** `page_decref` on a frame in use: the last reference returns it to the pool. */
  method DropFrame(pmm: P.Pmm, cpu: nat, f: nat, ghost s: A.Sys)
    requires pmm.Valid() && cpu < |pmm.pcp| && Backs(pmm, s) && f in s.refs && s.refs[f] >= 1
    modifies pmm`free, pmm`pcp, pmm`count, pmm`blocks, pmm`owner, pmm.pages
    ensures pmm.Valid() && |pmm.pcp| == |old(pmm.pcp)| && Backs(pmm, A.Decref(s, f))
  {
    hide LiveOf, Unused;
    ghost var b0, o0 := pmm.blocks, pmm.owner;
    LiveBlock(b0, f);
    UnusedLess(b0, o0, pmm.pages.Length, f);
    pmm.PageDecref(cpu, f);
  }

  lemma GoodTiles(pages: seq<Page>, blocks: Blocks, owner: map<nat, nat>, free: seq<seq<nat>>, pcp: seq<seq<nat>>, skip: int)
    requires P.Good(pages, blocks, owner, free, pcp, skip)
    ensures Tiles(blocks, owner, |pages|)
  {
  }

  /** Counts of pages that stay handed out stay. */
  lemma CountsKept(pages: seq<Page>, pages': seq<Page>, live: Blocks, live': Blocks, refs: map<nat, nat>)
    requires |pages'| == |pages| && forall h :: h in live && h < |pages| ==> pages'[h].refcount == pages[h].refcount
    requires forall h :: h in live ==> h in live' && live'[h] == live[h]
    requires forall f :: f in refs ==> Counts(pages, live, f, refs[f])
    ensures forall f :: f in refs ==> Counts(pages', live', f, refs[f])
  {
  }

  lemma LiveBlock(blocks: Blocks, h: nat)
    ensures h in LiveOf(blocks) <==> h in blocks && blocks[h].place.Live?
    ensures h in LiveOf(blocks) ==> LiveOf(blocks)[h] == blocks[h]
  {
  }
}
