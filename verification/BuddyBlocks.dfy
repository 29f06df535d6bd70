/**
 The page frames of mm/pmm.cc as blocks: which block each frame belongs to, which list each block
 is on, and what the page descriptors say about it.
 */
module BuddyBlocks {
  import opened Distinct
  import opened Powers

  /** kMaxOrder. */
  const MAX_ORDER: nat := 11

  datatype PageState = Free | PcpCached | Allocated | Slab

  datatype Page = Page(state: PageState, order: nat, refcount: nat)

  /** Where a block is: on the free list of its order, in the cache of a CPU, or handed out. */
  datatype Place = OnFree | OnPcp(cpu: nat) | Live

  datatype Block = Block(order: nat, place: Place)

  /** Blocks by their first frame. */
  type Blocks = map<nat, Block>

  predicate In(p: nat, h: nat, order: nat) { h <= p < h + Pow2(order) }

  /**
   The blocks are aligned and lie below `n`. `owner` is the first frame of the block that each
   managed frame is in: every managed frame is in exactly one block, and blocks have no others.
   */
  ghost predicate Tiles(blocks: Blocks, owner: map<nat, nat>, n: nat) {
    && (forall h :: h in blocks ==> Shaped(h, blocks[h].order, n))
    && (forall h, p :: h in blocks && In(p, h, blocks[h].order) ==> p in owner && owner[p] == h)
    && (forall p :: p in owner ==> owner[p] in blocks && In(p, owner[p], blocks[owner[p]].order))
  }

  predicate Shaped(h: nat, order: nat, n: nat) {
    order < MAX_ORDER && Aligned(h, order) && h + Pow2(order) <= n
  }

  /** Each list has exactly the blocks whose place it is, each once. */
  ghost predicate Listed(blocks: Blocks, free: seq<seq<nat>>, pcp: seq<seq<nat>>) {
    && |free| == MAX_ORDER
    && (forall o :: 0 <= o < MAX_ORDER ==> Once(free[o]))
    && (forall o, h :: 0 <= o < MAX_ORDER ==> (h in free[o] <==> h in blocks && blocks[h] == Block(o, OnFree)))
    && (forall c :: 0 <= c < |pcp| ==> Once(pcp[c]))
    && (forall c, h :: 0 <= c < |pcp| ==> (h in pcp[c] <==> h in blocks && blocks[h] == Block(0, OnPcp(c))))
    && (forall h :: h in blocks && blocks[h].place.OnPcp? ==> blocks[h].order == 0 && blocks[h].place.cpu < |pcp|)
  }

  /**
   The descriptor of the first frame of a block tells its order and place; the descriptor of a
   frame that is not managed is never free. Descriptors inside a block may be out of date. `skip`
   is a block in hand, whose descriptor is out of date too.
   */
  ghost predicate Described(pages: seq<Page>, blocks: Blocks, owner: map<nat, nat>, skip: int) {
    && (forall h :: h in blocks && h != skip ==> h < |pages| && Tells(pages[h], blocks[h]))
    && (forall p :: 0 <= p < |pages| && p !in owner ==> pages[p].state != Free)
  }

  predicate Tells(page: Page, b: Block) {
    && page.order == b.order
    && match b.place
       case OnFree => page.state == Free
       case OnPcp(_) => page.state == PcpCached
       case Live => page.state == Allocated || page.state == Slab
  }

  /** No two free blocks of one order are buddies, except at the largest order. */
  ghost predicate Separated(blocks: Blocks) {
    forall h :: h in blocks ==> Apart(blocks, h)
  }

  ghost predicate Apart(blocks: Blocks, h: nat)
    requires h in blocks
  {
    var o := blocks[h].order;
    blocks[h].place == OnFree && o < MAX_ORDER - 1 && Buddy(h, o) in blocks ==> blocks[Buddy(h, o)] != Block(o, OnFree)
  }

  /** The blocks that are not on a free list. */
  function Held(blocks: Blocks): Blocks {
    map h | h in blocks && !blocks[h].place.OnFree? :: blocks[h]
  }

  /** The blocks that are handed out. */
  function LiveOf(blocks: Blocks): Blocks {
    map h | h in blocks && blocks[h].place.Live? :: blocks[h]
  }

  /** Frame `p` is in a free block. */
  ghost predicate FreeFrame(blocks: Blocks, owner: map<nat, nat>, p: nat) {
    p in owner && owner[p] in blocks && blocks[owner[p]].place.OnFree?
  }

  // ----- Changing the tiling -----

  lemma HeadIn(blocks: Blocks, owner: map<nat, nat>, n: nat, h: nat)
    requires Tiles(blocks, owner, n) && h in blocks
    ensures h in owner && owner[h] == h && h < n
  {
    assert In(h, h, blocks[h].order);
  }

  /** Only the place of a block changes. */
  lemma MoveTiles(blocks: Blocks, owner: map<nat, nat>, n: nat, h: nat, place: Place)
    requires Tiles(blocks, owner, n) && h in blocks
    ensures Tiles(blocks[h := blocks[h].(place := place)], owner, n)
  {
    hide Shaped, In;
  }

  /** The frames of the block at `h` as frames of the block at `to`. */
  function Reown(owner: map<nat, nat>, h: nat, order: nat, to: nat): map<nat, nat> {
    map p | p in owner :: if In(p, h, order) then to else owner[p]
  }

  /** Splitting a block into its halves. */
  lemma SplitTiles(blocks: Blocks, owner: map<nat, nat>, n: nat, h: nat, o: nat, place: Place)
    requires Tiles(blocks, owner, n) && h in blocks && blocks[h].order == o + 1
    ensures var m := h + Pow2(o);
            && m !in blocks
            && Tiles(blocks[h := Block(o, blocks[h].place)][m := Block(o, place)], Reown(owner, m, o, m), n)
  {
    var m := h + Pow2(o);
    assert Shaped(h, o + 1, n);
    AlignedDown(h, o);
    assert In(m, h, o + 1);
    if m in blocks { HeadIn(blocks, owner, n, m); }
    assert Pow2(o + 1) == 2 * Pow2(o);
    hide Aligned, Pow2;
    assert forall p: nat :: In(p, h, o + 1) <==> In(p, h, o) || In(p, m, o);
    assert forall p: nat :: !(In(p, h, o) && In(p, m, o));
    SplitTilesMore(blocks, owner, n, h, m, o, place);
  }

  lemma SplitTilesMore(blocks: Blocks, owner: map<nat, nat>, n: nat, h: nat, m: nat, o: nat, place: Place)
    requires Tiles(blocks, owner, n) && h in blocks && blocks[h].order == o + 1 && m !in blocks && m != h
    requires Shaped(h, o, n) && Shaped(m, o, n)
    requires forall p: nat :: In(p, h, o + 1) <==> In(p, h, o) || In(p, m, o)
    requires forall p: nat :: !(In(p, h, o) && In(p, m, o))
    ensures Tiles(blocks[h := Block(o, blocks[h].place)][m := Block(o, place)], Reown(owner, m, o, m), n)
  {
    hide Shaped, In;
  }

  /** Joining two buddies. */
  lemma MergeTiles(blocks: Blocks, owner: map<nat, nat>, n: nat, lo: nat, hi: nat, o: nat, place: Place)
    requires Tiles(blocks, owner, n) && lo in blocks && hi in blocks && blocks[lo].order == o == blocks[hi].order
    requires Aligned(lo, o + 1) && hi == lo + Pow2(o) && o + 1 < MAX_ORDER
    ensures Tiles((blocks - {hi})[lo := Block(o + 1, place)], Reown(owner, hi, o, lo), n)
  {
    assert Shaped(hi, o, n);
    assert Pow2(o + 1) == 2 * Pow2(o);
    assert Shaped(lo, o + 1, n);
    hide Aligned, Pow2;
    assert forall p: nat :: In(p, lo, o + 1) <==> In(p, lo, o) || In(p, hi, o);
    MergeTilesMore(blocks, owner, n, lo, hi, o, place);
  }

  lemma MergeTilesMore(blocks: Blocks, owner: map<nat, nat>, n: nat, lo: nat, hi: nat, o: nat, place: Place)
    requires Tiles(blocks, owner, n) && lo in blocks && hi in blocks && blocks[lo].order == o == blocks[hi].order
    requires lo != hi && Shaped(lo, o + 1, n)
    requires forall p: nat :: In(p, lo, o + 1) <==> In(p, lo, o) || In(p, hi, o)
    ensures Tiles((blocks - {hi})[lo := Block(o + 1, place)], Reown(owner, hi, o, lo), n)
  {
    hide Shaped, In;
  }

  /** A block of frames that were not managed. */
  lemma AddTiles(blocks: Blocks, owner: map<nat, nat>, n: nat, h: nat, b: Block)
    requires Tiles(blocks, owner, n) && Shaped(h, b.order, n)
    requires forall p: nat :: In(p, h, b.order) ==> p !in owner
    ensures h !in blocks
    ensures Tiles(blocks[h := b], owner + Owned(h, b.order), n)
  {
    if h in blocks { HeadIn(blocks, owner, n, h); }
    assert In(h, h, b.order);
    OwnedKeys(h, b.order);
    hide Shaped, In, Owned;
  }

  function Owned(h: nat, order: nat): map<nat, nat> {
    map p: nat | h <= p < h + Pow2(order) && In(p, h, order) :: h
  }

  lemma OwnedKeys(h: nat, order: nat)
    ensures forall p: nat :: p in Owned(h, order) <==> In(p, h, order)
    ensures forall p: nat :: p in Owned(h, order) ==> Owned(h, order)[p] == h
  {
  }

  // ----- Changing the lists -----

  /** A block that was on no list goes on a free list. */
  lemma AddListed(blocks: Blocks, free: seq<seq<nat>>, pcp: seq<seq<nat>>, h: nat, o: nat)
    requires Listed(blocks, free, pcp) && o < MAX_ORDER && (h in blocks ==> blocks[h].place.Live?)
    ensures Listed(blocks[h := Block(o, OnFree)], free[o := [h] + free[o]], pcp)
  {
    PushOnce(free[o], h);
    hide Once;
  }

  /** A free block is taken off its list. */
  lemma TakeListed(blocks: Blocks, free: seq<seq<nat>>, pcp: seq<seq<nat>>, h: nat)
    requires Listed(blocks, free, pcp) && h in blocks && blocks[h].place.OnFree? && blocks[h].order < MAX_ORDER
    ensures var o := blocks[h].order;
            Listed(blocks[h := Block(o, Live)], free[o := Remove(free[o], h)], pcp)
  {
    RemoveSpec(free[blocks[h].order], h);
    hide Once, Remove;
  }

  /** A block that is on no list changes its order, or comes or goes. */
  lemma LiveListed(blocks: Blocks, free: seq<seq<nat>>, pcp: seq<seq<nat>>, h: nat, o: nat)
    requires Listed(blocks, free, pcp) && (h in blocks ==> blocks[h].place.Live?)
    ensures Listed(blocks[h := Block(o, Live)], free, pcp) && Listed(blocks - {h}, free, pcp)
  {
    hide Once;
  }

  lemma PushListed(blocks: Blocks, free: seq<seq<nat>>, pcp: seq<seq<nat>>, h: nat, c: nat)
    requires Listed(blocks, free, pcp) && h in blocks && blocks[h] == Block(0, Live) && c < |pcp|
    ensures Listed(blocks[h := Block(0, OnPcp(c))], free, pcp[c := [h] + pcp[c]])
  {
    PushOnce(pcp[c], h);
    hide Once;
  }

  lemma PopListed(blocks: Blocks, free: seq<seq<nat>>, pcp: seq<seq<nat>>, c: nat)
    requires Listed(blocks, free, pcp) && c < |pcp| && pcp[c] != []
    ensures var h := pcp[c][0];
            h in blocks && blocks[h] == Block(0, OnPcp(c)) && Listed(blocks[h := Block(0, Live)], free, pcp[c := pcp[c][1..]])
  {
    var h := pcp[c][0];
    assert h in pcp[c];
    assert pcp[c] == [h] + pcp[c][1..];
    assert Once(pcp[c][1..]) && forall y :: y in pcp[c][1..] <==> y in pcp[c] && y != h;
    hide Once;
  }

  // ----- Keeping buddies apart -----

  ghost predicate AllShaped(blocks: Blocks, n: nat) {
    forall h :: h in blocks ==> Shaped(h, blocks[h].order, n)
  }

  /** A block goes on a free list, and its buddy is not on it. */
  lemma AddSeparated(blocks: Blocks, n: nat, h: nat, o: nat)
    requires Separated(blocks) && AllShaped(blocks, n) && Aligned(h, o) && o < MAX_ORDER
    requires h in blocks ==> blocks[h].place.Live?
    requires o < MAX_ORDER - 1 && Buddy(h, o) in blocks ==> blocks[Buddy(h, o)] != Block(o, OnFree)
    ensures Separated(blocks[h := Block(o, OnFree)])
  {
    var blocks' := blocks[h := Block(o, OnFree)];
    BuddyHalves(h, o);
    forall g | g in blocks'
      ensures Apart(blocks', g)
    {
      if g != h {
        assert Apart(blocks, g) && Shaped(g, blocks[g].order, n);
        BuddyHalves(g, blocks[g].order);
      }
    }
  }

  /** A block that is on no free list changes nothing. */
  lemma LiveSeparated(blocks: Blocks, h: nat, b: Block)
    requires Separated(blocks) && !b.place.OnFree?
    ensures Separated(blocks[h := b]) && Separated(blocks - {h})
  {
    var blocks' := blocks[h := b];
    forall g | g in blocks'
      ensures Apart(blocks', g)
    {
      if g != h { assert Apart(blocks, g); }
    }
    forall g | g in blocks - {h}
      ensures Apart(blocks - {h}, g)
    {
      assert Apart(blocks, g);
    }
  }

  // ----- The exact merge test -----

  /**
   The test that `buddy_free` makes on the descriptor of a buddy is exact: it finds a free block of
   the same order there if and only if there is one.
   */
  lemma MergeTestExact(pages: seq<Page>, blocks: Blocks, owner: map<nat, nat>, x: nat)
    requires Tiles(blocks, owner, |pages|) && Described(pages, blocks, owner, x) && x in blocks
    requires blocks[x].order < MAX_ORDER - 1 && 0 <= Buddy(x, blocks[x].order) < |pages|
    ensures var o := blocks[x].order;
            var b := Buddy(x, o);
            pages[b].state == Free && pages[b].order == o <==> b in blocks && blocks[b] == Block(o, OnFree)
  {
    var o := blocks[x].order;
    var b := Buddy(x, o);
    assert Shaped(x, o, |pages|);
    BuddyHalves(x, o);
    assert x != b && !In(b, x, o);
    if b in owner {
      OwnerOfBuddy(blocks, owner, |pages|, x);
    }
  }

  /** The frame at the head of a buddy is the head of a block of at most the same order. */
  lemma OwnerOfBuddy(blocks: Blocks, owner: map<nat, nat>, n: nat, x: nat)
    requires Tiles(blocks, owner, n) && x in blocks && Buddy(x, blocks[x].order) in owner
    ensures var b := Buddy(x, blocks[x].order);
            b in blocks && owner[b] == b && blocks[b].order <= blocks[x].order
  {
    var o := blocks[x].order;
    var b := Buddy(x, o);
    assert Shaped(x, o, n);
    BuddyHalves(x, o);
    HeadIn(blocks, owner, n, x);
    var h := owner[b];
    assert In(b, h, blocks[h].order) && Shaped(h, blocks[h].order, n);
    assert h != x;
    if blocks[h].order > o {
      BuddyInside(x, o, h, blocks[h].order);
      assert In(x, h, blocks[h].order);
      assert false;
    } else {
      HeadOfBlock(b, o, h, blocks[h].order);
    }
  }

  // ----- Completeness -----

  /** An aligned run of 2^k frames, all of them free, lies inside one free block. */
  lemma {:induction false} RunInOneBlock(blocks: Blocks, owner: map<nat, nat>, n: nat, r: nat, k: nat)
    requires Tiles(blocks, owner, n) && Separated(blocks) && k < MAX_ORDER && Aligned(r, k)
    requires forall p: nat :: In(p, r, k) ==> FreeFrame(blocks, owner, p)
    ensures r in owner && owner[r] in blocks && blocks[owner[r]].place == OnFree && blocks[owner[r]].order >= k
    decreases k
  {
    hide Tiles, Separated, Aligned;
    assert In(r, r, k);
    if k > 0 {
      var m := r + Pow2(k - 1);
      AlignedDown(r, k - 1);
      assert forall p: nat :: In(p, r, k - 1) || In(p, m, k - 1) ==> In(p, r, k);
      RunInOneBlock(blocks, owner, n, r, k - 1);
      RunInOneBlock(blocks, owner, n, m, k - 1);
      HalvesJoin(blocks, owner, n, r, k);
    }
  }

  /** When both halves of an aligned run are in free blocks, they are in the same one. */
  lemma HalvesJoin(blocks: Blocks, owner: map<nat, nat>, n: nat, r: nat, k: nat)
    requires 0 < k < MAX_ORDER && Aligned(r, k)
    requires r in owner && owner[r] in blocks && blocks[owner[r]].place == OnFree && blocks[owner[r]].order >= k - 1
    requires var m := r + Pow2(k - 1);
             m in owner && owner[m] in blocks && blocks[owner[m]].place == OnFree && blocks[owner[m]].order >= k - 1
    requires Tiles(blocks, owner, n) && Separated(blocks)
    ensures blocks[owner[r]].order >= k
  {
    hide Tiles, Separated, Aligned;
    var m := r + Pow2(k - 1);
    var h, g := owner[r], owner[m];
    TilesAt(blocks, owner, n, r);
    TilesAt(blocks, owner, n, m);
    if blocks[h].order == k - 1 {
      AlignedDown(r, k - 1);
      HeadOfBlock(r, k - 1, h, k - 1);
      BuddyHalves(r, k - 1);
      ApartAt(blocks, r);
      if blocks[g].order == k - 1 {
        HeadOfBlock(m, k - 1, g, k - 1);
        assert false;
      } else {
        BlockInside(r, k, g, blocks[g].order, m);
        OwnerIs(blocks, owner, n, g, r);
      }
    }
  }

  lemma TilesAt(blocks: Blocks, owner: map<nat, nat>, n: nat, p: nat)
    requires Tiles(blocks, owner, n) && p in owner
    ensures var h := owner[p]; h in blocks && Shaped(h, blocks[h].order, n) && In(p, h, blocks[h].order)
  {
  }

  lemma OwnerIs(blocks: Blocks, owner: map<nat, nat>, n: nat, h: nat, p: nat)
    requires Tiles(blocks, owner, n) && h in blocks && In(p, h, blocks[h].order)
    ensures p in owner && owner[p] == h
  {
  }

  lemma ApartAt(blocks: Blocks, h: nat)
    requires Separated(blocks) && h in blocks
    ensures Apart(blocks, h)
  {
  }

  /** Some aligned run of 2^k frames is wholly free. */
  ghost predicate HasFreeRun(blocks: Blocks, owner: map<nat, nat>, k: nat) {
    exists r: nat :: FreeRun(blocks, owner, r, k)
  }

  ghost predicate FreeRun(blocks: Blocks, owner: map<nat, nat>, r: nat, k: nat) {
    Aligned(r, k) && forall p: nat :: In(p, r, k) ==> FreeFrame(blocks, owner, p)
  }

  /** A free block of order at least `k`. */
  ghost predicate HasBlock(blocks: Blocks, k: nat) {
    exists h :: h in blocks && blocks[h].place == OnFree && blocks[h].order >= k
  }

  /** Completeness: there is a large enough free block if and only if there is a large enough free run. */
  lemma FreeRunIffBlock(blocks: Blocks, owner: map<nat, nat>, n: nat, k: nat)
    requires Tiles(blocks, owner, n) && Separated(blocks) && k < MAX_ORDER
    ensures HasFreeRun(blocks, owner, k) <==> HasBlock(blocks, k)
  {
    if HasFreeRun(blocks, owner, k) {
      var r: nat :| FreeRun(blocks, owner, r, k);
      RunInOneBlock(blocks, owner, n, r, k);
    }
    if HasBlock(blocks, k) {
      var h :| h in blocks && blocks[h].place == OnFree && blocks[h].order >= k;
      assert Shaped(h, blocks[h].order, n);
      AlignedAll(h, blocks[h].order, k);
      Pow2Mono(k, blocks[h].order);
      assert forall p: nat :: In(p, h, k) ==> In(p, h, blocks[h].order);
      assert FreeRun(blocks, owner, h, k);
    }
  }
}
