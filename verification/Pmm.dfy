/**
 The buddy allocator and the per-CPU page caches of mm/pmm.cc. A list of pages is a sequence of
 frame numbers, first element first. What is ghost is which blocks there are and who owns a frame.
 */
module Pmm {
  import opened Options
  import opened Powers
  import opened BuddyBlocks
  import opened Distinct

  class Pmm {
    /** page_map. */
    const pages: array<Page>
    /** g_free_areas. */
    var free: seq<seq<nat>>
    /** The page lists of g_pcp, and their counts. */
    var pcp: seq<seq<nat>>
    var count: seq<nat>
    const batch: nat
    const highWatermark: nat

    ghost var blocks: Blocks
    ghost var owner: map<nat, nat>

    ghost predicate Valid()
      reads this, pages
    {
      InHand(-1) && batch > 0
    }

    /** Everything is in order but the descriptor of `skip`, a block that is in hand. */
    ghost predicate InHand(skip: int)
      reads this, pages
    {
      && Good(pages[..], blocks, owner, free, pcp, skip)
      && |count| == |pcp| && forall c :: 0 <= c < |pcp| ==> count[c] == |pcp[c]|
    }

    /** `pmm_init` up to the feed: every descriptor is reserved and every list empty. */
    constructor (numPages: nat, cpus: nat, batch: nat, highWatermark: nat)
      requires batch > 0
      ensures Valid() && fresh(pages) && pages.Length == numPages && owner == map[] && |pcp| == cpus
      ensures this.batch == batch && this.highWatermark == highWatermark
      ensures forall h :: h in blocks ==> blocks[h].place.OnFree?
    {
      this.batch, this.highWatermark := batch, highWatermark;
      pages := new Page[numPages](i => Page(Allocated, 0, 0));
      free := seq(MAX_ORDER, i => []);
      pcp, count := seq(cpus, i => []), seq(cpus, i => 0);
      blocks, owner := map[], map[];
    }

    /** The largest order of a block that starts at `pfn`, is aligned and ends by `end`. */
    static method BlockOrder(pfn: nat, end: nat) returns (order: nat)
      requires pfn < end
      ensures Fitting(pfn, order, end) && forall o :: order < o < MAX_ORDER ==> !Fitting(pfn, o, end)
    {
      var o := MAX_ORDER;
      assert Fitting(pfn, 0, end);
      while o > 1
        invariant 1 <= o <= MAX_ORDER && forall k :: o <= k < MAX_ORDER ==> !Fitting(pfn, k, end)
      {
        if Fitting(pfn, o - 1, end) {
          return o - 1;
        }
        o := o - 1;
      }
      return 0;
    }

    /**
     The feed of one free region [start, end) of frames in `pmm_init`: cut greedily into the largest
     aligned blocks. The frames on either side of it are not free.
     */
    method Feed(start: nat, end: nat)
      requires Valid() && start <= end <= pages.Length
      requires end !in owner && start - 1 !in owner && forall p :: start <= p < end ==> p !in owner
      modifies this`free, this`blocks, this`owner, pages
      ensures Valid() && Held(blocks) == Held(old(blocks))
      ensures forall p :: p in owner <==> p in old(owner) || start <= p < end
    {
      hide Good, Held, Fitting;
      var pfn := start;
      while pfn < end
        invariant start <= pfn <= end && InHand(-1) && Held(blocks) == Held(old(blocks))
        invariant forall p :: p in owner <==> p in old(owner) || start <= p < pfn
        invariant Fed(blocks, owner, start, pfn, end)
      {
        var order := BlockOrder(pfn, end);
        FeedState(pages[..], blocks, owner, free, pcp, start, pfn, end, order);
        pages[pfn] := Page(Free, order, 0);
        free := free[order := [pfn] + free[order]];
        blocks := blocks[pfn := Block(order, OnFree)];
        owner := owner + Owned(pfn, order);
        pfn := pfn + Pow2(order);
      }
    }

    /** `buddy_list_add`. */
    method ListAdd(h: nat, o: nat)
      requires h < pages.Length && o < |free|
      modifies pages, this`free
      ensures pages[..] == old(pages[..])[h := old(pages[h]).(state := Free, order := o)]
      ensures free == old(free)[o := [h] + old(free[o])]
    {
      pages[h] := pages[h].(state := Free, order := o);
      free := free[o := [h] + free[o]];
    }

    /** `buddy_list_del` of a block that is on list `o`. */
    method ListDel(h: nat, o: nat)
      requires o < |free|
      modifies this`free
      ensures free == old(free)[o := Remove(old(free[o]), h)]
    {
      free := free[o := Remove(free[o], h)];
    }

    /** The block `h` of order `o` + 1, in hand, is split, and its upper half goes free. */
    method SplitOne(h: nat, o: nat)
      requires InHand(h) && h in blocks && blocks[h] == Block(o + 1, Live)
      modifies this`free, this`blocks, this`owner, pages
      ensures InHand(h) && owner.Keys == old(owner.Keys)
      ensures h in blocks && blocks[h] == Block(o, Live)
      ensures Held(blocks) == Held(old(blocks))[h := Block(o, Live)]
      ensures SameCounts(pages[..], old(pages[..]), -1)
    {
      hide Good, Held;
      var m := h + Pow2(o);
      SplitState(pages[..], blocks, owner, free, pcp, h, o);
      ListAdd(m, o);
      blocks := blocks[h := Block(o, Live)][m := Block(o, OnFree)];
      owner := Reown(owner, m, o, m);
    }

    /** `buddy_alloc`. */
    method BuddyAlloc(order: nat) returns (r: Option<nat>)
      requires Valid() && order < MAX_ORDER
      modifies this`free, this`blocks, this`owner, pages
      ensures Valid() && owner.Keys == old(owner.Keys)
      ensures r.None? <==> !HasFreeRun(old(blocks), old(owner), order)
      ensures r.None? ==> blocks == old(blocks) && owner == old(owner)
      ensures r.Some? ==> && r.value in blocks && blocks[r.value] == Block(order, Live)
                          && r.value !in Held(old(blocks))
                          && Held(blocks) == Held(old(blocks))[r.value := Block(order, Live)]
                          && pages[r.value] == Page(Allocated, order, 1)
      ensures SameCounts(pages[..], old(pages[..]), if r.Some? then r.value else -1)
    {
      hide Tiles, Listed, Described, Separated, Held, HasFreeRun, Remove;
      var cur := order;
      ListedLength(blocks, free, pcp);
      while cur < MAX_ORDER
        invariant order <= cur <= MAX_ORDER && |free| == MAX_ORDER && Valid()
        invariant blocks == old(blocks) && owner == old(owner) && pages[..] == old(pages[..])
        invariant forall o :: order <= o < cur ==> free[o] == []
      {
        if free[cur] != [] {
          var page := free[cur][0];
          TakeState(pages[..], blocks, owner, free, pcp, cur);
          FoundBlock(pages[..], blocks, owner, free, pcp, order, cur);
          ListDel(page, cur);
          blocks := blocks[page := Block(cur, Live)];
          while cur > order
            invariant order <= cur < MAX_ORDER
            invariant InHand(page) && page in blocks && blocks[page] == Block(cur, Live)
            invariant owner.Keys == old(owner.Keys) && Held(blocks) == Held(old(blocks))[page := Block(cur, Live)]
            invariant SameCounts(pages[..], old(pages[..]), -1)
          {
            cur := cur - 1;
            SplitOne(page, cur);
            HeldAgain(Held(old(blocks)), page, Block(cur + 1, Live), Block(cur, Live));
          }
          HeadIn(blocks, owner, pages.Length, page);
          PaintState(pages[..], blocks, owner, page, Page(Allocated, order, 1));
          pages[page] := Page(Allocated, order, 1);
          return Some(page);
        }
        cur := cur + 1;
      }
      NoBlock(pages[..], blocks, owner, free, pcp, order);
      return None;
    }

    /** `buddy_free` of block `h`, which is in hand. */
    method BuddyFree(h: nat, order: nat)
      requires InHand(h) && h in blocks && blocks[h] == Block(order, Live) && batch > 0
      modifies this`free, this`blocks, this`owner, pages
      ensures Valid() && owner.Keys == old(owner.Keys)
      ensures Held(blocks) == Held(old(blocks)) - {h}
      ensures SameCounts(pages[..], old(pages[..]), -1)
    {
      hide Tiles, Listed, Described, Separated, Held, Remove, Buddy;
      var page, o := h, order;
      HeadsBelow(blocks, owner, pages.Length);
      while o < MAX_ORDER - 1
        invariant o < MAX_ORDER && InHand(page) && page in blocks && blocks[page] == Block(o, Live)
        invariant owner.Keys == old(owner.Keys) && Held(blocks) - {page} == Held(old(blocks)) - {h}
        invariant pages[..] == old(pages[..])
      {
        BuddyState(pages[..], blocks, owner, free, pcp, page);
        var buddy := Buddy(page, o);
        if buddy >= pages.Length {
          break;
        }
        if pages[buddy].state != Free || pages[buddy].order != o {
          break;
        }
        var lo := if buddy < page then buddy else page;
        MergeState(pages[..], blocks, owner, free, pcp, page);
        ListDel(buddy, o);
        ghost var hi := if buddy < page then page else buddy;
        blocks := (blocks - {hi})[lo := Block(o + 1, Live)];
        owner := Reown(owner, hi, o, lo);
        page, o := lo, o + 1;
      }
      PutState(pages[..], blocks, owner, free, pcp, page);
      ListAdd(page, o);
      blocks := blocks[page := Block(o, OnFree)];
    }

    // ----- Per-CPU caches -----

    /** A page in hand goes on the cache of a CPU. */
    method PcpPush(cpu: nat, h: nat)
      requires InHand(h) && cpu < |pcp| && h in blocks && blocks[h] == Block(0, Live)
      modifies this`pcp, this`count, this`blocks, pages
      ensures InHand(-1) && blocks == old(blocks)[h := Block(0, OnPcp(cpu))]
      ensures pcp == old(pcp)[cpu := [h] + old(pcp[cpu])]
      ensures SameCounts(pages[..], old(pages[..]), -1)
    {
      PushState(pages[..], blocks, owner, free, pcp, h, cpu);
      pages[h] := pages[h].(state := PcpCached, order := 0);
      pcp := pcp[cpu := [h] + pcp[cpu]];
      count := count[cpu := count[cpu] + 1];
      blocks := blocks[h := Block(0, OnPcp(cpu))];
    }

    /** The first page of the cache of a CPU, in hand. */
    method PcpPop(cpu: nat) returns (h: nat)
      requires InHand(-1) && cpu < |pcp| && pcp[cpu] != []
      modifies this`pcp, this`count, this`blocks
      ensures InHand(h) && h == old(pcp[cpu][0]) && h in old(blocks) && old(blocks)[h] == Block(0, OnPcp(cpu))
      ensures blocks == old(blocks)[h := Block(0, Live)]
      ensures pcp == old(pcp)[cpu := old(pcp[cpu])[1..]]
    {
      h := pcp[cpu][0];
      PopState(pages[..], blocks, owner, free, pcp, cpu);
      pcp := pcp[cpu := pcp[cpu][1..]];
      count := count[cpu := count[cpu] - 1];
      blocks := blocks[h := Block(0, Live)];
    }

    /** `refill_pcp`. */
    method RefillPcp(cpu: nat)
      requires Valid() && cpu < |pcp|
      modifies this`free, this`pcp, this`count, this`blocks, this`owner, pages
      ensures Valid() && owner.Keys == old(owner.Keys) && |pcp| == |old(pcp)| && pcp == old(pcp)[cpu := pcp[cpu]]
      ensures LiveOf(blocks) == LiveOf(old(blocks)) && LiveCounts(pages[..], old(pages[..]), blocks)
      ensures pcp[cpu] == [] <==> old(pcp[cpu]) == [] && !HasFreeRun(old(blocks), old(owner), 0)
      ensures |pcp[cpu]| <= |old(pcp[cpu])| + batch
      ensures |pcp[cpu]| < |old(pcp[cpu])| + batch ==> !HasFreeRun(blocks, owner, 0)
    {
      hide Good, Held, LiveOf, HasFreeRun;
      var i := 0;
      while i < batch
        invariant i <= batch && Valid() && owner.Keys == old(owner.Keys) && |pcp| == |old(pcp)|
        invariant pcp == old(pcp)[cpu := pcp[cpu]]
        invariant LiveOf(blocks) == LiveOf(old(blocks)) && LiveCounts(pages[..], old(pages[..]), blocks)
        invariant |pcp[cpu]| == |old(pcp[cpu])| + i
        invariant i == 0 ==> pcp == old(pcp) && blocks == old(blocks) && owner == old(owner)
        invariant i > 0 ==> pcp[cpu] != [] && HasFreeRun(old(blocks), old(owner), 0)
      {
        ghost var b0, p0 := blocks, pages[..];
        var r := BuddyAlloc(0);
        if r.None? {
          break;
        }
        HandState(pages[..], blocks, owner, free, pcp, r.value);
        LiveTaken(b0, blocks, r.value, Block(0, Live));
        LiveSet(blocks, r.value, Block(0, OnPcp(cpu)));
        PcpPush(cpu, r.value);
        i := i + 1;
      }
    }

    /** `drain_pcp`. */
    method DrainPcp(cpu: nat)
      requires Valid() && cpu < |pcp|
      modifies this`free, this`pcp, this`count, this`blocks, this`owner, pages
      ensures Valid() && owner.Keys == old(owner.Keys) && |pcp| == |old(pcp)| && pcp == old(pcp)[cpu := pcp[cpu]]
      ensures LiveOf(blocks) == LiveOf(old(blocks)) && SameCounts(pages[..], old(pages[..]), -1)
      ensures |pcp[cpu]| == |old(pcp[cpu])| - |old(pcp[cpu])| / 2
    {
      hide Good, Held, LiveOf;
      var toDrain := count[cpu] / 2;
      var i := 0;
      while i < toDrain
        invariant i <= toDrain && Valid() && owner.Keys == old(owner.Keys) && |pcp| == |old(pcp)|
        invariant pcp == old(pcp)[cpu := pcp[cpu]]
        invariant LiveOf(blocks) == LiveOf(old(blocks)) && SameCounts(pages[..], old(pages[..]), -1)
        invariant |pcp[cpu]| == |old(pcp[cpu])| - i
      {
        ghost var b0 := blocks;
        var page := PcpPop(cpu);
        LiveSet(b0, page, Block(0, Live));
        LiveSet(blocks, page, Block(0, Live));
        ghost var b1 := blocks;
        BuddyFree(page, 0);
        LiveGiven(b1, blocks, page);
        i := i + 1;
      }
    }

    // ----- The interface -----

    /** `pmm_alloc_page` on CPU `cpu`. */
    method AllocPage(cpu: nat) returns (r: Option<nat>)
      requires Valid() && cpu < |pcp|
      modifies this`free, this`pcp, this`count, this`blocks, this`owner, pages
      ensures Valid() && owner.Keys == old(owner.Keys) && |pcp| == |old(pcp)| && pcp == old(pcp)[cpu := pcp[cpu]]
      ensures r.None? <==> old(pcp[cpu]) == [] && !HasFreeRun(old(blocks), old(owner), 0)
      ensures old(pcp[cpu]) != [] ==> r == Some(old(pcp[cpu][0])) && pcp[cpu] == old(pcp[cpu][1..])
      ensures r.None? ==> LiveOf(blocks) == LiveOf(old(blocks))
      ensures r.Some? ==> && r.value in owner && r.value !in LiveOf(old(blocks))
                          && LiveOf(blocks) == LiveOf(old(blocks))[r.value := Block(0, Live)]
                          && pages[r.value] == Page(Allocated, 0, 1)
      ensures forall h :: h in LiveOf(old(blocks)) && h < pages.Length ==> pages[h].refcount == old(pages[h].refcount)
    {
      hide Good, Held, LiveOf, HasFreeRun;
      if count[cpu] == 0 {
        RefillPcp(cpu);
      }
      if count[cpu] > 0 {
        ghost var b0 := blocks;
        var page := PcpPop(cpu);
        LiveSet(b0, page, Block(0, Live));
        HandPage(pages[..], blocks, owner, free, pcp, page);
        PaintPage(pages[..], blocks, owner, free, pcp, page, Page(Allocated, 0, 1));
        pages[page] := Page(Allocated, 0, 1);
        return Some(page);
      }
      return None;
    }

    /** `pmm_free_page` on CPU `cpu`. */
    method FreePage(cpu: nat, h: nat)
      requires Valid() && cpu < |pcp| && h in blocks && blocks[h] == Block(0, Live)
      modifies this`free, this`pcp, this`count, this`blocks, this`owner, pages
      ensures Valid() && owner.Keys == old(owner.Keys) && |pcp| == |old(pcp)| && pcp == old(pcp)[cpu := pcp[cpu]]
      ensures LiveOf(blocks) == LiveOf(old(blocks)) - {h} && SameCounts(pages[..], old(pages[..]), -1)
      ensures var n := |old(pcp[cpu])| + 1; |pcp[cpu]| == if n >= highWatermark then n - n / 2 else n
    {
      hide Good, Held, LiveOf;
      HandState(pages[..], blocks, owner, free, pcp, h);
      LiveSet(blocks, h, Block(0, OnPcp(cpu)));
      PcpPush(cpu, h);
      if count[cpu] >= highWatermark {
        DrainPcp(cpu);
      }
    }

    /** `pmm_alloc_pages`. */
    method AllocPages(order: nat) returns (r: Option<nat>)
      requires Valid()
      modifies this`free, this`blocks, this`owner, pages
      ensures Valid() && owner.Keys == old(owner.Keys)
      ensures r.None? <==> order >= MAX_ORDER || !HasFreeRun(old(blocks), old(owner), order)
      ensures r.None? ==> blocks == old(blocks)
      ensures r.Some? ==> && r.value in owner && r.value !in LiveOf(old(blocks))
                          && LiveOf(blocks) == LiveOf(old(blocks))[r.value := Block(order, Live)]
                          && pages[r.value] == Page(Allocated, order, 1)
      ensures SameCounts(pages[..], old(pages[..]), if r.Some? then r.value else -1)
    {
      hide Good, Held, LiveOf, HasFreeRun;
      if order >= MAX_ORDER {
        return None;
      }
      ghost var b0 := blocks;
      r := BuddyAlloc(order);
      if r.Some? {
        LiveTaken(b0, blocks, r.value, Block(order, Live));
        HandPage(pages[..], blocks, owner, free, pcp, r.value);
      }
    }

    /** `pmm_free_pages`. */
    method FreePages(h: nat, order: nat)
      requires Valid() && h in blocks && blocks[h] == Block(order, Live)
      modifies this`free, this`blocks, this`owner, pages
      ensures Valid() && owner.Keys == old(owner.Keys)
      ensures LiveOf(blocks) == LiveOf(old(blocks)) - {h} && SameCounts(pages[..], old(pages[..]), -1)
    {
      hide Good, Held, LiveOf;
      ghost var b0 := blocks;
      HandState(pages[..], blocks, owner, free, pcp, h);
      BuddyFree(h, order);
      LiveGiven(b0, blocks, h);
    }

    /** `page_incref`. */
    method PageIncref(h: nat)
      requires Valid() && h in LiveOf(blocks)
      modifies pages
      ensures Valid() && h < pages.Length
      ensures pages[..] == old(pages[..])[h := old(pages[h]).(refcount := old(pages[h].refcount) + 1)]
    {
      hide Good, Held;
      HandPage(pages[..], blocks, owner, free, pcp, h);
      PaintPage(pages[..], blocks, owner, free, pcp, h, pages[h].(refcount := pages[h].refcount + 1));
      pages[h] := pages[h].(refcount := pages[h].refcount + 1);
    }

    /** `page_decref`: the last reference returns the block to where its order says. */
    method PageDecref(cpu: nat, h: nat)
      requires Valid() && cpu < |pcp| && h in LiveOf(blocks) && h < pages.Length && pages[h].refcount >= 1
      modifies this`free, this`pcp, this`count, this`blocks, this`owner, pages
      ensures Valid() && owner.Keys == old(owner.Keys) && |pcp| == |old(pcp)| && pcp == old(pcp)[cpu := pcp[cpu]]
      ensures old(pages[h].refcount) > 1 || old(pages[h].order) > 0 ==> pcp == old(pcp)
      ensures LiveOf(blocks) == if old(pages[h].refcount) == 1 then LiveOf(old(blocks)) - {h} else LiveOf(old(blocks))
      ensures SameCounts(pages[..], old(pages[..]), h) && pages[h].refcount == old(pages[h].refcount) - 1
    {
      hide Good, Held, SameCounts;
      HandPage(pages[..], blocks, owner, free, pcp, h);
      var before := pages[h].refcount;
      PaintPage(pages[..], blocks, owner, free, pcp, h, pages[h].(refcount := before - 1));
      pages[h] := pages[h].(refcount := before - 1);
      ghost var p1 := pages[..];
      if before == 1 {
        if pages[h].order == 0 {
          FreePage(cpu, h);
        } else {
          FreePages(h, pages[h].order);
        }
      }
      CountsBut(old(pages[..]), p1, pages[..], h);
    }
  }

  lemma ListedLength(blocks: Blocks, free: seq<seq<nat>>, pcp: seq<seq<nat>>)
    requires Listed(blocks, free, pcp)
    ensures |free| == MAX_ORDER
  {
  }

  lemma HeldAgain(m: Blocks, h: nat, b: Block, c: Block)
    ensures m[h := b][h := c] == m[h := c]
  {
  }

  /** The reference counts are as they were, but for page `p`. */
  ghost predicate SameCounts(pages: seq<Page>, was: seq<Page>, p: int) {
    |pages| == |was| && forall i :: 0 <= i < |was| && i != p ==> pages[i].refcount == was[i].refcount
  }

  /** The reference counts of the blocks that are handed out are as they were. */
  ghost predicate LiveCounts(pages: seq<Page>, was: seq<Page>, blocks: Blocks) {
    |pages| == |was| && forall h :: h in LiveOf(blocks) && h < |pages| ==> pages[h].refcount == was[h].refcount
  }

  lemma LiveHeld(blocks: Blocks)
    ensures LiveOf(Held(blocks)) == LiveOf(blocks)
  {
  }

  lemma LiveSet(blocks: Blocks, h: nat, b: Block)
    ensures LiveOf(blocks[h := b]) == if b.place.Live? then LiveOf(blocks)[h := b] else LiveOf(blocks) - {h}
    ensures LiveOf(blocks - {h}) == LiveOf(blocks) - {h}
    ensures h in LiveOf(blocks) <==> h in blocks && blocks[h].place.Live?
  {
  }

  /** A block is taken from the free lists. */
  lemma LiveTaken(b0: Blocks, b1: Blocks, h: nat, b: Block)
    requires Held(b1) == Held(b0)[h := b] && h !in Held(b0) && b.place.Live?
    ensures h !in LiveOf(b0) && LiveOf(b1) == LiveOf(b0)[h := b]
  {
    LiveHeld(b0);
    LiveHeld(b1);
    LiveSet(Held(b0), h, b);
  }

  /** A block is given to the free lists. */
  lemma LiveGiven(b0: Blocks, b1: Blocks, h: nat)
    requires Held(b1) == Held(b0) - {h}
    ensures LiveOf(b1) == LiveOf(b0) - {h}
  {
    LiveHeld(b0);
    LiveHeld(b1);
    LiveSet(Held(b0), h, Block(0, Live));
  }

  /** The four parts of the invariant. */
  ghost predicate Good(pages: seq<Page>, blocks: Blocks, owner: map<nat, nat>, free: seq<seq<nat>>, pcp: seq<seq<nat>>, skip: int) {
    Tiles(blocks, owner, |pages|) && Listed(blocks, free, pcp) && Described(pages, blocks, owner, skip) && Separated(blocks)
  }

  /** A page that is handed out can be taken in hand. */
  lemma HandState(pages: seq<Page>, blocks: Blocks, owner: map<nat, nat>, free: seq<seq<nat>>, pcp: seq<seq<nat>>, h: nat)
    requires Good(pages, blocks, owner, free, pcp, -1) && h in blocks
    ensures Good(pages, blocks, owner, free, pcp, h)
  {
    hide Tiles, Listed, Separated;
  }

  lemma HandPage(pages: seq<Page>, blocks: Blocks, owner: map<nat, nat>, free: seq<seq<nat>>, pcp: seq<seq<nat>>, h: nat)
    requires h in blocks && (Good(pages, blocks, owner, free, pcp, h) || Good(pages, blocks, owner, free, pcp, -1))
    ensures h < |pages| && h in owner
    ensures Good(pages, blocks, owner, free, pcp, -1) ==> pages[h].order == blocks[h].order && Tells(pages[h], blocks[h])
  {
    hide Listed, Separated;
    HeadIn(blocks, owner, |pages|, h);
  }

  lemma PaintPage(pages: seq<Page>, blocks: Blocks, owner: map<nat, nat>, free: seq<seq<nat>>, pcp: seq<seq<nat>>, h: nat, page: Page)
    requires Good(pages, blocks, owner, free, pcp, h) || Good(pages, blocks, owner, free, pcp, -1)
    requires h in blocks && h < |pages| && Tells(page, blocks[h])
    ensures Good(pages[h := page], blocks, owner, free, pcp, -1)
  {
    hide Tiles, Listed, Separated, Tells;
    HeadIn(blocks, owner, |pages|, h);
    PaintState(pages, blocks, owner, h, page);
  }

  lemma CountsBut(was: seq<Page>, between: seq<Page>, now: seq<Page>, h: nat)
    requires h < |was| == |between| && between == was[h := between[h]] && SameCounts(now, between, -1)
    ensures SameCounts(now, was, h) && now[h].refcount == between[h].refcount
  {
  }

  /** The page in hand goes in a cache. */
  lemma PushState(pages: seq<Page>, blocks: Blocks, owner: map<nat, nat>, free: seq<seq<nat>>, pcp: seq<seq<nat>>, h: nat, c: nat)
    requires Good(pages, blocks, owner, free, pcp, h) && h in blocks && blocks[h] == Block(0, Live) && c < |pcp|
    ensures h < |pages|
    ensures var blocks' := blocks[h := Block(0, OnPcp(c))];
            Good(pages[h := pages[h].(state := PcpCached, order := 0)], blocks', owner, free, pcp[c := [h] + pcp[c]], -1)
  {
    hide Tiles, Listed, Separated, Described;
    HeadIn(blocks, owner, |pages|, h);
    MoveTiles(blocks, owner, |pages|, h, OnPcp(c));
    PushListed(blocks, free, pcp, h, c);
    LiveSeparated(blocks, h, Block(0, OnPcp(c)));
    DescribedHand(pages, blocks, owner, h, Block(0, OnPcp(c)));
    PaintState(pages, blocks[h := Block(0, OnPcp(c))], owner, h, pages[h].(state := PcpCached, order := 0));
  }

  /** The first page of a cache is taken in hand. */
  lemma PopState(pages: seq<Page>, blocks: Blocks, owner: map<nat, nat>, free: seq<seq<nat>>, pcp: seq<seq<nat>>, c: nat)
    requires Good(pages, blocks, owner, free, pcp, -1) && c < |pcp| && pcp[c] != []
    ensures var h := pcp[c][0];
            && h in blocks && blocks[h] == Block(0, OnPcp(c))
            && Good(pages, blocks[h := Block(0, Live)], owner, free, pcp[c := pcp[c][1..]], h)
  {
    hide Tiles, Listed, Separated, Described;
    var h := pcp[c][0];
    PopListed(blocks, free, pcp, c);
    MoveTiles(blocks, owner, |pages|, h, Live);
    LiveSeparated(blocks, h, Block(0, Live));
    DescribedTake(pages, blocks, owner, h, Block(0, Live));
  }

  lemma HeldSet(blocks: Blocks, h: nat, b: Block)
    ensures Held(blocks[h := b]) == if b.place.OnFree? then Held(blocks) - {h} else Held(blocks)[h := b]
  {
  }

  lemma HeldMisses(blocks: Blocks, h: nat)
    requires h !in blocks
    ensures Held(blocks) - {h} == Held(blocks)
  {
  }

  lemma HeadsBelow(blocks: Blocks, owner: map<nat, nat>, n: nat)
    requires Tiles(blocks, owner, n)
    ensures AllShaped(blocks, n) && forall h :: h in blocks ==> h < n
  {
    forall h | h in blocks
      ensures h < n
    {
      assert Shaped(h, blocks[h].order, n);
    }
  }

  /** What is written about the block in hand matters to no descriptor. */
  lemma DescribedHand(pages: seq<Page>, blocks: Blocks, owner: map<nat, nat>, h: nat, b: Block)
    requires Described(pages, blocks, owner, h)
    ensures Described(pages, blocks[h := b], owner, h)
  {
  }

  lemma DescribedTake(pages: seq<Page>, blocks: Blocks, owner: map<nat, nat>, h: nat, b: Block)
    requires Described(pages, blocks, owner, -1)
    ensures Described(pages, blocks[h := b], owner, h)
  {
  }

  lemma HeldHas(blocks: Blocks, h: nat)
    ensures h in Held(blocks) <==> h in blocks && !blocks[h].place.OnFree?
  {
  }

  /** Two blocks become one, which is in hand. */
  lemma DescribedMerge(pages: seq<Page>, blocks: Blocks, owner: map<nat, nat>, skip: nat, lo: nat, hi: nat, b: Block, owner': map<nat, nat>)
    requires Described(pages, blocks, owner, skip) && (skip == lo || skip == hi) && owner.Keys == owner'.Keys
    ensures Described(pages, (blocks - {hi})[lo := b], owner', lo)
  {
  }

  lemma HeldMerge(blocks: Blocks, x: nat, lo: nat, hi: nat, b: Block)
    requires lo != hi && (x == lo || x == hi) && lo in blocks && hi in blocks
    requires blocks[if x == lo then hi else lo].place.OnFree? && !b.place.OnFree?
    ensures Held((blocks - {hi})[lo := b]) - {lo} == Held(blocks) - {x}
  {
  }

  /** A block goes free, and its descriptor says so. */
  lemma DescribedPut(pages: seq<Page>, blocks: Blocks, owner: map<nat, nat>, skip: int, h: nat, o: nat, owner': map<nat, nat>)
    requires Described(pages, blocks, owner, skip) && h < |pages| && h in owner' && owner.Keys == owner'.Keys
    ensures Described(pages[h := pages[h].(state := Free, order := o)], blocks[h := Block(o, OnFree)], owner', if skip == h then -1 else skip)
  {
  }

  /** The halves of a block are aligned and are buddies. */
  lemma SplitShapes(blocks: Blocks, owner: map<nat, nat>, n: nat, h: nat, o: nat)
    requires Tiles(blocks, owner, n) && h in blocks && blocks[h].order == o + 1
    ensures var m := h + Pow2(o);
            o < MAX_ORDER && Aligned(m, o) && Buddy(m, o) == h && AllShaped(blocks[h := Block(o, Live)], n)
  {
    assert Shaped(h, o + 1, n);
    AlignedDown(h, o);
    BuddyHalves(h, o);
    assert Pow2(o + 1) == 2 * Pow2(o);
  }

  lemma SplitState(pages: seq<Page>, blocks: Blocks, owner: map<nat, nat>, free: seq<seq<nat>>, pcp: seq<seq<nat>>, h: nat, o: nat)
    requires Good(pages, blocks, owner, free, pcp, h) && h in blocks && blocks[h] == Block(o + 1, Live)
    ensures o < |free| && h + Pow2(o) < |pages|
    ensures var m := h + Pow2(o);
            var blocks' := blocks[h := Block(o, Live)][m := Block(o, OnFree)];
            && Good(pages[m := pages[m].(state := Free, order := o)], blocks', Reown(owner, m, o, m),
                    free[o := [m] + free[o]], pcp, h)
            && Held(blocks') == Held(blocks)[h := Block(o, Live)]
  {
    hide Tiles, Listed, Separated, Described, Held, Shaped, AllShaped, Pow2, Aligned, Buddy, Tells;
    var m, n := h + Pow2(o), |pages|;
    var b1 := blocks[h := Block(o, Live)];
    var b2, owner2 := b1[m := Block(o, OnFree)], Reown(owner, m, o, m);
    SplitTiles(blocks, owner, n, h, o, OnFree);
    HeadIn(b2, owner2, n, m);
    SplitShapes(blocks, owner, n, h, o);
    ListedLength(blocks, free, pcp);
    LiveListed(blocks, free, pcp, h, o);
    AddListed(b1, free, pcp, m, o);
    LiveSeparated(blocks, h, Block(o, Live));
    AddSeparated(b1, n, m, o);
    HeldSet(blocks, h, Block(o, Live));
    HeldSet(b1, m, Block(o, OnFree));
    HeldMisses(b1, m);
    DescribedHand(pages, blocks, owner, h, Block(o, Live));
    DescribedPut(pages, b1, owner, h, m, o, owner2);
  }

  lemma TakeState(pages: seq<Page>, blocks: Blocks, owner: map<nat, nat>, free: seq<seq<nat>>, pcp: seq<seq<nat>>, o: nat)
    requires Good(pages, blocks, owner, free, pcp, -1) && o < |free| && free[o] != []
    ensures var h := free[o][0];
            var blocks' := blocks[h := Block(o, Live)];
            && h in blocks && blocks[h] == Block(o, OnFree) && h !in Held(blocks)
            && Good(pages, blocks', owner, free[o := Remove(free[o], h)], pcp, h)
            && Held(blocks') == Held(blocks)[h := Block(o, Live)]
  {
    hide Tiles, Separated, Described, Held, Once, Remove;
    var h := free[o][0];
    assert h in free[o];
    HeldSet(blocks, h, Block(o, Live));
    HeldHas(blocks, h);
    DescribedTake(pages, blocks, owner, h, Block(o, Live));
    MoveTiles(blocks, owner, |pages|, h, Live);
    TakeListed(blocks, free, pcp, h);
    LiveSeparated(blocks, h, Block(o, Live));
  }

  lemma FoundBlock(pages: seq<Page>, blocks: Blocks, owner: map<nat, nat>, free: seq<seq<nat>>, pcp: seq<seq<nat>>, k: nat, o: nat)
    requires Good(pages, blocks, owner, free, pcp, -1) && k <= o < |free| && free[o] != []
    ensures HasFreeRun(blocks, owner, k)
  {
    var h := free[o][0];
    assert h in free[o];
    assert h in blocks && blocks[h].place == OnFree && blocks[h].order >= k;
    FreeRunIffBlock(blocks, owner, |pages|, k);
  }

  lemma NoBlock(pages: seq<Page>, blocks: Blocks, owner: map<nat, nat>, free: seq<seq<nat>>, pcp: seq<seq<nat>>, k: nat)
    requires Good(pages, blocks, owner, free, pcp, -1) && k < MAX_ORDER
    requires forall o :: k <= o < MAX_ORDER ==> free[o] == []
    ensures !HasFreeRun(blocks, owner, k)
  {
    FreeRunIffBlock(blocks, owner, |pages|, k);
    forall h | h in blocks && blocks[h].place == OnFree
      ensures blocks[h].order < k
    {
      assert Shaped(h, blocks[h].order, |pages|);
      assert h in free[blocks[h].order];
    }
  }

  /** Writing the descriptor of the block in hand. */
  lemma PaintState(pages: seq<Page>, blocks: Blocks, owner: map<nat, nat>, h: nat, page: Page)
    requires Described(pages, blocks, owner, h) || Described(pages, blocks, owner, -1)
    requires h in blocks && h in owner && h < |pages| && Tells(page, blocks[h])
    ensures Described(pages[h := page], blocks, owner, -1)
  {
  }

  /** The buddy of the block at `x` is not a free block of the same order. */
  ghost predicate Alone(blocks: Blocks, x: nat)
    requires x in blocks
  {
    var o := blocks[x].order;
    o < MAX_ORDER - 1 && Buddy(x, o) in blocks ==> blocks[Buddy(x, o)] != Block(o, OnFree)
  }

  /** What `buddy_free` learns from the descriptor of the buddy. */
  lemma BuddyState(pages: seq<Page>, blocks: Blocks, owner: map<nat, nat>, free: seq<seq<nat>>, pcp: seq<seq<nat>>, x: nat)
    requires Good(pages, blocks, owner, free, pcp, x) && x in blocks && blocks[x].order < MAX_ORDER - 1
    ensures |free| == MAX_ORDER
    ensures var o := blocks[x].order;
            var b := Buddy(x, o);
            b >= 0 && (Alone(blocks, x) <==> b >= |pages| || pages[b].state != Free || pages[b].order != o)
  {
    hide Listed, Separated, Pow2, Aligned, Buddy;
    var o := blocks[x].order;
    assert Shaped(x, o, |pages|);
    BuddyHalves(x, o);
    ListedLength(blocks, free, pcp);
    if Buddy(x, o) < |pages| {
      MergeTestExact(pages, blocks, owner, x);
    }
    HeadsBelow(blocks, owner, |pages|);
  }

  /** The block in hand, joined with its free buddy. */
  lemma MergeState(pages: seq<Page>, blocks: Blocks, owner: map<nat, nat>, free: seq<seq<nat>>, pcp: seq<seq<nat>>, x: nat)
    requires Good(pages, blocks, owner, free, pcp, x) && x in blocks && blocks[x].place == Live && !Alone(blocks, x)
    ensures |free| == MAX_ORDER && blocks[x].order < MAX_ORDER - 1 && Buddy(x, blocks[x].order) >= 0
    ensures var o := blocks[x].order;
            var b := Buddy(x, o);
            var lo, hi := if b < x then b else x, if b < x then x else b;
            var blocks' := (blocks - {hi})[lo := Block(o + 1, Live)];
            && Good(pages, blocks', Reown(owner, hi, o, lo), free[o := Remove(free[o], b)], pcp, lo)
            && Held(blocks') - {lo} == Held(blocks) - {x}
  {
    hide Tiles, Listed, Separated, Described, Held, Pow2, Aligned, Buddy, Remove;
    var o, n := blocks[x].order, |pages|;
    var b := Buddy(x, o);
    var lo, hi := if b < x then b else x, if b < x then x else b;
    HeadsBelow(blocks, owner, n);
    assert Shaped(x, o, n);
    BuddyHalves(x, o);
    DescribedMerge(pages, blocks, owner, x, lo, hi, Block(o + 1, Live), Reown(owner, hi, o, lo));
    HeldMerge(blocks, x, lo, hi, Block(o + 1, Live));
    ListedLength(blocks, free, pcp);
    MergeTiles(blocks, owner, n, lo, hi, o, Live);
    var b1, free1 := blocks[b := Block(o, Live)], free[o := Remove(free[o], b)];
    TakeListed(blocks, free, pcp, b);
    LiveListed(b1, free1, pcp, hi, 0);
    LiveListed(b1 - {hi}, free1, pcp, lo, o + 1);
    assert (b1 - {hi})[lo := Block(o + 1, Live)] == (blocks - {hi})[lo := Block(o + 1, Live)];
    LiveSeparated(blocks, hi, Block(0, Live));
    LiveSeparated(blocks - {hi}, lo, Block(o + 1, Live));
  }

  /** The block in hand goes on its free list. */
  lemma PutState(pages: seq<Page>, blocks: Blocks, owner: map<nat, nat>, free: seq<seq<nat>>, pcp: seq<seq<nat>>, x: nat)
    requires Good(pages, blocks, owner, free, pcp, x) && x in blocks && blocks[x].place == Live && Alone(blocks, x)
    ensures var o := blocks[x].order;
            var blocks' := blocks[x := Block(o, OnFree)];
            && o < |free| && x < |pages|
            && Good(pages[x := pages[x].(state := Free, order := o)], blocks', owner, free[o := [x] + free[o]], pcp, -1)
            && Held(blocks') == Held(blocks) - {x}
  {
    hide Tiles, Listed, Separated, Described, Held, Pow2, Aligned, Buddy, Tells;
    var o, n := blocks[x].order, |pages|;
    HeadsBelow(blocks, owner, n);
    assert Shaped(x, o, n);
    HeadIn(blocks, owner, n, x);
    HeldSet(blocks, x, Block(o, OnFree));
    DescribedPut(pages, blocks, owner, x, x, o, owner);
    ListedLength(blocks, free, pcp);
    MoveTiles(blocks, owner, n, x, OnFree);
    AddListed(blocks, free, pcp, x, o);
    AddSeparated(blocks, n, x, o);
  }

  // ----- The feed -----

  predicate Fitting(pfn: nat, order: nat, end: nat) {
    order < MAX_ORDER && Aligned(pfn, order) && pfn + Pow2(order) <= end
  }

  /** [start, pfn) is fed: its blocks lie inside it, are free, and none could be larger. */
  ghost predicate Fed(blocks: Blocks, owner: map<nat, nat>, start: nat, pfn: nat, end: nat) {
    && (forall p :: start <= p < pfn ==> p in owner && start <= owner[p])
    && (forall h :: h in blocks && start <= h < pfn ==> !Fitting(h, blocks[h].order + 1, end))
  }

  lemma FeedState(pages: seq<Page>, blocks: Blocks, owner: map<nat, nat>, free: seq<seq<nat>>, pcp: seq<seq<nat>>,
                  start: nat, pfn: nat, end: nat, order: nat)
    requires Good(pages, blocks, owner, free, pcp, -1) && start <= pfn < end <= |pages|
    requires end !in owner && start - 1 !in owner && forall p :: pfn <= p < end ==> p !in owner
    requires Fed(blocks, owner, start, pfn, end)
    requires Fitting(pfn, order, end) && forall o :: order < o < MAX_ORDER ==> !Fitting(pfn, o, end)
    ensures |free| == MAX_ORDER
    ensures var blocks' := blocks[pfn := Block(order, OnFree)];
            && Good(pages[pfn := Page(Free, order, 0)], blocks', owner + Owned(pfn, order), free[order := [pfn] + free[order]], pcp, -1)
            && Held(blocks') == Held(blocks)
            && Fed(blocks', owner + Owned(pfn, order), start, pfn + Pow2(order), end)
            && forall p :: p in owner + Owned(pfn, order) <==> p in owner || pfn <= p < pfn + Pow2(order)
  {
    hide Tiles, Listed, Separated, Described, Held, Pow2, Aligned, Owned;
    var n, owner' := |pages|, owner + Owned(pfn, order);
    var blocks' := blocks[pfn := Block(order, OnFree)];
    OwnedKeys(pfn, order);
    AddTiles(blocks, owner, n, pfn, Block(order, OnFree));
    HeadsBelow(blocks, owner, n);
    ListedLength(blocks, free, pcp);
    AddListed(blocks, free, pcp, pfn, order);
    if order < MAX_ORDER - 1 { FeedAlone(blocks, owner, n, start, pfn, end, order); }
    AddSeparated(blocks, n, pfn, order);
    HeldSet(blocks, pfn, Block(order, OnFree));
    HeldMisses(blocks, pfn);
    DescribedMore(pages, blocks, owner, owner');
    DescribedHand(pages, blocks, owner', pfn, Block(order, OnFree));
    HeadIn(blocks', owner', n, pfn);
    PaintState(pages, blocks', owner', pfn, Page(Free, order, 0));
    FedMore(blocks, owner, n, start, pfn, end, order);
  }

  lemma DescribedMore(pages: seq<Page>, blocks: Blocks, owner: map<nat, nat>, owner': map<nat, nat>)
    requires Described(pages, blocks, owner, -1) && owner.Keys <= owner'.Keys
    ensures forall h :: Described(pages, blocks, owner', h)
  {
  }

  /** The buddy of the next block is not a free block of its order. */
  lemma FeedAlone(blocks: Blocks, owner: map<nat, nat>, n: nat, start: nat, pfn: nat, end: nat, order: nat)
    requires Tiles(blocks, owner, n) && start <= pfn < end && Fed(blocks, owner, start, pfn, end)
    requires end !in owner && start - 1 !in owner && forall p :: pfn <= p < end ==> p !in owner
    requires Fitting(pfn, order, end) && order < MAX_ORDER - 1
    ensures Buddy(pfn, order) in blocks ==> blocks[Buddy(pfn, order)].order != order
  {
    var b := Buddy(pfn, order);
    BuddyHalves(pfn, order);
    assert b < pfn ==> Fitting(b, order + 1, end) && In(pfn - 1, b, order);
    if b in blocks && blocks[b].order == order {
      HeadIn(blocks, owner, n, b);
      assert false;
    }
  }

  lemma FedMore(blocks: Blocks, owner: map<nat, nat>, n: nat, start: nat, pfn: nat, end: nat, order: nat)
    requires Tiles(blocks, owner, n) && start <= pfn < end && Fed(blocks, owner, start, pfn, end)
    requires forall p :: pfn <= p < end ==> p !in owner
    requires Fitting(pfn, order, end) && !Fitting(pfn, order + 1, end)
    ensures Fed(blocks[pfn := Block(order, OnFree)], owner + Owned(pfn, order), start, pfn + Pow2(order), end)
  {
    OwnedKeys(pfn, order);
    forall h | h in blocks && pfn <= h < end
      ensures false
    {
      HeadIn(blocks, owner, n, h);
    }
    hide Fitting;
  }
}
