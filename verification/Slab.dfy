/**
 The object allocator of mm/slab.cc on one CPU. Free objects of a page are chained through their
 own first words; `mem` is those words. An address is that of the higher-half mapping, counted from
 its base, so that 0 is the null pointer and no page is page 0.
 */
module Slab {
  import opened Distinct
  import opened Options
  import opened Powers
  import opened Basics

  type Frame = nat
  type Addr = nat
  type Memory = map<Addr, nat>

  /** kNumSizeClasses: 8, 16, ..., 2048 bytes. */
  const CLASSES: nat := 9

  function Size(k: nat): nat { 8 * Pow2(k) }

  /** Objects per page: objs_per_slab_. */
  function PerPage(k: nat): nat
    requires k < CLASSES
  {
    Pow2(9 - k)
  }

  lemma {:induction false} FullPage(k: nat)
    requires k < CLASSES
    ensures PerPage(k) * Size(k) == PAGE && PerPage(k) > 0 && Size(k) > 0 && Size(k) % 8 == 0
  {
    if k == 0 {
      assert Pow2(4) == 16;
      assert Pow2(9) == 32 * Pow2(4);
    } else {
      FullPage(k - 1);
      assert Pow2(9 - (k - 1)) == 2 * Pow2(9 - k) && Pow2(k) == 2 * Pow2(k - 1);
      assert (2 * Pow2(9 - k)) * (8 * Pow2(k - 1)) == Pow2(9 - k) * (8 * (2 * Pow2(k - 1)));
    }
  }

  /** Object `i` of page `f`. */
  function At(f: Frame, z: nat, i: nat): Addr { f * PAGE + i * z }

  /** Objects lie inside their page, and different ones do not overlap. */
  lemma ObjectsApart(f: Frame, k: nat, i: nat, j: nat)
    requires k < CLASSES && i < PerPage(k) && j < PerPage(k)
    ensures f * PAGE <= At(f, Size(k), i) && At(f, Size(k), i) + Size(k) <= f * PAGE + PAGE
    ensures i < j ==> At(f, Size(k), i) + Size(k) <= At(f, Size(k), j)
    ensures At(f, Size(k), i) / PAGE == f
  {
    FullPage(k);
    var z := Size(k);
    MulLeast(i, PerPage(k), z);
    if i < j { MulLeast(i, j, z); }
    Quotient(At(f, z, i), PAGE, f, i * z);
  }

  // ----- The chain of free objects -----

  ghost predicate Chain(mem: Memory, head: nat, idx: seq<nat>, f: Frame, z: nat)
    decreases |idx|
  {
    if idx == [] then head == 0
    else head == At(f, z, idx[0]) && head in mem && Chain(mem, mem[head], idx[1..], f, z)
  }

  /** Only the words of the free objects themselves matter. */
  lemma {:induction false} ChainKept(mem: Memory, mem': Memory, head: nat, idx: seq<nat>, f: Frame, z: nat)
    requires Chain(mem, head, idx, f, z)
    requires forall i :: i in idx && At(f, z, i) in mem ==> At(f, z, i) in mem' && mem'[At(f, z, i)] == mem[At(f, z, i)]
    ensures Chain(mem', head, idx, f, z)
    decreases |idx|
  {
    if idx != [] {
      assert idx[0] in idx;
      ChainKept(mem, mem', mem[head], idx[1..], f, z);
    }
  }

  /** The indices from `i` on, in order. */
  function From(i: nat, n: nat): (s: seq<nat>)
    requires i <= n
    ensures |s| == n - i && forall k :: 0 <= k < |s| ==> s[k] == i + k
    decreases n - i
  {
    if i == n then [] else [i] + From(i + 1, n)
  }

  // ----- Pages -----

  /** The slab part of a page descriptor. */
  datatype SlabPage = SlabPage(cache: nat, count: nat, head: nat)

  type Slabs = map<Frame, SlabPage>
  /** For each slab page the indices of its free objects, in the order of the chain. */
  type Frees = map<Frame, seq<nat>>

  /** What is not live on a slab page is on its chain, each object once. */
  ghost predicate PageOk(f: Frame, p: SlabPage, mem: Memory, idx: seq<nat>) {
    && f > 0 && p.cache < CLASSES && p.count + |idx| == PerPage(p.cache)
    && Once(idx) && (forall i :: i in idx ==> i < PerPage(p.cache))
    && Chain(mem, p.head, idx, f, Size(p.cache))
  }

  ghost predicate PagesOk(slabs: Slabs, mem: Memory, frees: Frees) {
    frees.Keys == slabs.Keys && forall f :: f in slabs ==> PageOk(f, slabs[f], mem, frees[f])
  }

  /** The index of the object at `a` in its page. */
  function IndexOf(a: Addr, z: nat): nat
    requires z > 0
  {
    (a % PAGE) / z
  }

  lemma AtIndex(f: Frame, k: nat, i: nat)
    requires k < CLASSES && i < PerPage(k)
    ensures Size(k) > 0
    ensures var a := At(f, Size(k), i); a / PAGE == f && (a % PAGE) % Size(k) == 0 && IndexOf(a, Size(k)) == i
  {
    FullPage(k);
    ObjectsApart(f, k, i, i);
    Quotient(At(f, Size(k), i), PAGE, f, i * Size(k));
    MultipleAligned(i, Size(k));
  }

  /** Address `a` is an object of a slab page and not free. */
  ghost predicate SlabLive(slabs: Slabs, frees: Frees, a: Addr) {
    var f := a / PAGE;
    f in slabs && f in frees && (a % PAGE) % Size(slabs[f].cache) == 0 && IndexOf(a, Size(slabs[f].cache)) !in frees[f]
  }

  lemma IndexAt(a: Addr, k: nat)
    requires k < CLASSES && (a % PAGE) % Size(k) == 0
    ensures Size(k) > 0 && IndexOf(a, Size(k)) < PerPage(k) && a == At(a / PAGE, Size(k), IndexOf(a, Size(k)))
  {
    FullPage(k);
    var z, r := Size(k), a % PAGE;
    assert r == (r / z) * z;
    MulLess(r / z, PerPage(k), z);
  }

  /** A word of page `f` matters to no other page. */
  lemma OtherPage(g: Frame, p: SlabPage, mem: Memory, idx: seq<nat>, a: Addr, w: nat)
    requires PageOk(g, p, mem, idx) && a / PAGE != g
    ensures PageOk(g, p, mem[a := w], idx)
  {
    forall i | i in idx
      ensures At(g, Size(p.cache), i) != a
    {
      ObjectsApart(g, p.cache, i, i);
    }
    ChainKept(mem, mem[a := w], p.head, idx, g, Size(p.cache));
  }

  /** The first free object leaves the chain. */
  lemma PopPage(f: Frame, p: SlabPage, mem: Memory, idx: seq<nat>)
    requires PageOk(f, p, mem, idx) && p.head != 0
    ensures idx != [] && p.head in mem && idx[0] < PerPage(p.cache) && p.head == At(f, Size(p.cache), idx[0])
    ensures PageOk(f, SlabPage(p.cache, p.count + 1, mem[p.head]), mem, idx[1..]) && idx[0] !in idx[1..]
  {
    assert idx[0] in idx;
    forall i | i in idx[1..]
      ensures i in idx
    {
    }
  }

  /** A live object goes on the chain. */
  lemma PushPage(f: Frame, p: SlabPage, mem: Memory, idx: seq<nat>, i: nat)
    requires PageOk(f, p, mem, idx) && i < PerPage(p.cache) && i !in idx
    ensures p.count > 0
    ensures var a := At(f, Size(p.cache), i);
            PageOk(f, SlabPage(p.cache, p.count - 1, a), mem[a := p.head], [i] + idx)
  {
    var z, n := Size(p.cache), PerPage(p.cache);
    var a := At(f, z, i);
    PushOnce(idx, i);
    AtMost([i] + idx, n);
    forall j | j in idx
      ensures At(f, z, j) != a
    {
      ObjectsApart(f, p.cache, i, j);
      ObjectsApart(f, p.cache, j, i);
      FullPage(p.cache);
    }
    ChainKept(mem, mem[a := p.head], p.head, idx, f, z);
    assert ([i] + idx)[1..] == idx;
  }

  /** A page without live objects has all of them on its chain. */
  lemma EmptyPage(f: Frame, p: SlabPage, mem: Memory, idx: seq<nat>, i: nat)
    requires PageOk(f, p, mem, idx) && i < PerPage(p.cache)
    ensures p.count == 0 ==> i in idx
  {
    if p.count == 0 { Pigeonhole(idx, PerPage(p.cache), i); }
  }

  // ----- Live memory -----

  /** A block of 2^order pages straight from the page allocator starts at `a`. */
  predicate LargeLive(large: map<Frame, nat>, a: Addr) { a % PAGE == 0 && a / PAGE in large }

  ghost predicate IsLive(slabs: Slabs, frees: Frees, large: map<Frame, nat>, a: Addr) {
    SlabLive(slabs, frees, a) || LargeLive(large, a)
  }

  /** How many bytes there are at a live address. */
  function Room(slabs: Slabs, large: map<Frame, nat>, a: Addr): nat {
    if a / PAGE in slabs then Size(slabs[a / PAGE].cache)
    else if a / PAGE in large then Pow2(large[a / PAGE]) * PAGE else 0
  }

  /** The frames of a large block. */
  predicate InBlock(f: Frame, h: Frame, order: nat) { h <= f < h + Pow2(order) }

  /** Large blocks overlap neither each other nor a slab page. */
  ghost predicate BlocksOk(slabs: Slabs, large: map<Frame, nat>) {
    && (forall f :: f in large ==> f > 0)
    && (forall f, h :: f in slabs && h in large ==> !InBlock(f, h, large[h]))
    && (forall h, g, f :: h in large && g in large && InBlock(f, h, large[h]) && InBlock(f, g, large[g]) ==> h == g)
  }

  /** Live objects are 8-aligned and do not overlap. */
  lemma LiveApart(slabs: Slabs, mem: Memory, frees: Frees, large: map<Frame, nat>, a: Addr, b: Addr)
    requires PagesOk(slabs, mem, frees) && BlocksOk(slabs, large)
    requires IsLive(slabs, frees, large, a) && IsLive(slabs, frees, large, b) && a < b
    ensures a % 8 == 0 && a + Room(slabs, large, a) <= b
  {
    LiveShape(slabs, mem, frees, large, a);
    LiveShape(slabs, mem, frees, large, b);
    var f, g := a / PAGE, b / PAGE;
    if f in slabs && g == f {
      var k := slabs[f].cache;
      assert PageOk(f, slabs[f], mem, frees[f]);
      IndexAt(a, k);
      IndexAt(b, k);
      var i, j := IndexOf(a, Size(k)), IndexOf(b, Size(k));
      ObjectsApart(f, k, i, j);
      if j < i { ObjectsApart(f, k, j, i); }
    } else if f in large {
      if InBlock(g, f, large[f]) { assert InBlock(g, g, if g in large then large[g] else 0); }
    }
  }

  /** A live object lies inside its page or its block. */
  lemma LiveShape(slabs: Slabs, mem: Memory, frees: Frees, large: map<Frame, nat>, a: Addr)
    requires PagesOk(slabs, mem, frees) && BlocksOk(slabs, large) && IsLive(slabs, frees, large, a)
    ensures var f := a / PAGE;
            && (f in slabs <==> f !in large) && (f in slabs || f in large) && a % 8 == 0 && Room(slabs, large, a) > 0
            && (f in slabs ==> SlabLive(slabs, frees, a) && a + Room(slabs, large, a) <= f * PAGE + PAGE)
            && (f in large ==> a == f * PAGE && a + Room(slabs, large, a) == (f + Pow2(large[f])) * PAGE)
  {
    hide SlabLive, PagesOk, Size;
    var f := a / PAGE;
    if f in large { assert InBlock(f, f, large[f]); }
    if SlabLive(slabs, frees, a) {
      SlabShape(slabs, mem, frees, a);
    } else {
      LargeShape(large, a);
    }
  }

  lemma LargeShape(large: map<Frame, nat>, a: Addr)
    requires LargeLive(large, a)
    ensures var f := a / PAGE;
            a == f * PAGE && a % 8 == 0 && a + Pow2(large[f]) * PAGE == (f + Pow2(large[f])) * PAGE
  {
    hide Pow2;
    assert a == (a / PAGE) * PAGE;
    EightAligned(a / PAGE, 0, 0);
  }

  lemma SlabShape(slabs: Slabs, mem: Memory, frees: Frees, a: Addr)
    requires PagesOk(slabs, mem, frees) && SlabLive(slabs, frees, a)
    ensures var f := a / PAGE;
            && f in slabs && a % 8 == 0 && Size(slabs[f].cache) > 0 && a + Size(slabs[f].cache) <= f * PAGE + PAGE
  {
    var f := a / PAGE;
    var k := slabs[f].cache;
    assert PageOk(f, slabs[f], mem, frees[f]);
    IndexAt(a, k);
    var i := IndexOf(a, Size(k));
    ObjectsApart(f, k, i, i);
    EightAligned(f, Pow2(k), i);
  }

  lemma EightAligned(f: nat, p: nat, i: nat)
    ensures (f * PAGE + i * (8 * p)) % 8 == 0
  {
    assert f * PAGE + i * (8 * p) == 8 * (512 * f + i * p);
  }

  // ----- The code -----

  /** The live objects are those of before and `a`. */
  ghost predicate Adds(slabs: Slabs, frees: Frees, large: map<Frame, nat>, slabs': Slabs, frees': Frees, large': map<Frame, nat>, a: Addr) {
    forall b: nat :: IsLive(slabs', frees', large', b) <==> IsLive(slabs, frees, large, b) || b == a
  }

  class Heap {
    var slabs: Slabs
    /** cpu_slab_[cpu].active of each cache. */
    var active: seq<Option<Frame>>
    var mem: Memory
    var large: map<Frame, nat>
    ghost var frees: Frees

    ghost predicate Valid()
      reads this
    {
      && PagesOk(slabs, mem, frees) && BlocksOk(slabs, large) && |active| == CLASSES
      && (forall f :: f in slabs ==> slabs[f].count > 0)
      && (forall k :: 0 <= k < CLASSES && active[k].Some? ==> ActiveOk(k))
    }

    predicate ActiveOk(k: nat)
      requires k < |active| && active[k].Some?
      reads this
    {
      active[k].value in slabs && slabs[active[k].value].cache == k
    }

    ghost predicate Live(a: Addr)
      reads this
    {
      IsLive(slabs, frees, large, a)
    }

    /** `slab_init`: caches without pages. */
    constructor (mem: Memory)
      ensures Valid() && forall b: nat :: !Live(b)
    {
      slabs, active, this.mem, large, frees := map[], seq(CLASSES, _ => None), mem, map[], map[];
    }

    /** A page that the page allocator may hand out: not in use here. */
    ghost predicate Fresh(f: Frame)
      reads this
    {
      f > 0 && f !in slabs && forall h :: h in large ==> !InBlock(f, h, large[h])
    }

    /** The loop of `new_slab`: chain the objects of a fresh page, last to first. */
    method Format(f: Frame, k: nat) returns (head: nat)
      requires k < CLASSES && f > 0
      modifies this`mem
      ensures PageOk(f, SlabPage(k, 0, head), mem, From(0, PerPage(k))) && head != 0
      ensures forall a :: a in old(mem) && a / PAGE != f ==> a in mem && mem[a] == old(mem[a])
    {
      var n, z := PerPage(k), Size(k);
      FullPage(k);
      head := 0;
      var i := n;
      while i > 0
        invariant 0 <= i <= n && Chain(mem, head, From(i, n), f, z) && (i < n ==> head != 0)
        invariant forall a :: a in old(mem) && a / PAGE != f ==> a in mem && mem[a] == old(mem[a])
      {
        i := i - 1;
        var obj := At(f, z, i);
        ChainLink(mem, head, i, n, f, k);
        mem := mem[obj := head];
        head := obj;
      }
      FromOnce(n);
    }

    /** Pop the first free object of a page. */
    method Pop(f: Frame) returns (obj: Addr)
      requires PagesOk(slabs, mem, frees) && f in slabs && slabs[f].head != 0
      modifies this`slabs, this`frees
      ensures PagesOk(slabs, mem, frees) && slabs.Keys == old(slabs.Keys)
      ensures obj / PAGE == f && SlabLive(slabs, frees, obj) && !SlabLive(old(slabs), old(frees), obj)
      ensures forall b: nat :: b != obj ==> (SlabLive(slabs, frees, b) <==> SlabLive(old(slabs), old(frees), b))
      ensures slabs == old(slabs)[f := SlabPage(old(slabs[f].cache), old(slabs[f].count) + 1, slabs[f].head)]
    {
      hide PagesOk, SlabLive;
      var p := slabs[f];
      obj := p.head;
      PopLive(slabs, mem, frees, f);
      slabs := slabs[f := SlabPage(p.cache, p.count + 1, mem[obj])];
      frees := frees[f := frees[f][1..]];
    }

    /** `new_slab` on a fresh page: all of its objects are free. */
    method NewSlab(k: nat, f: Frame)
      requires PagesOk(slabs, mem, frees) && BlocksOk(slabs, large) && k < CLASSES && Fresh(f)
      modifies this`slabs, this`mem, this`frees
      ensures PagesOk(slabs, mem, frees) && BlocksOk(slabs, large) && f !in large
      ensures f in slabs && slabs[f].head != 0 && slabs == old(slabs)[f := SlabPage(k, 0, slabs[f].head)]
      ensures forall b: nat :: SlabLive(slabs, frees, b) <==> SlabLive(old(slabs), old(frees), b)
    {
      hide PagesOk, SlabLive, PageOk, BlocksOk, Size;
      var head := Format(f, k);
      NewPage(slabs, old(mem), mem, frees, f, SlabPage(k, 0, head));
      BlocksWith(slabs, large, f, SlabPage(k, 0, head));
      slabs := slabs[f := SlabPage(k, 0, head)];
      frees := frees[f := From(0, PerPage(k))];
    }

    /** `KmemCache::alloc` of cache `k`; `page` is what the page allocator hands out if it is asked. */
    method Alloc(k: nat, page: Option<Frame>) returns (obj: Addr)
      requires Valid() && k < CLASSES && (page.Some? ==> Fresh(page.value))
      modifies this
      ensures Valid() && large == old(large)
      ensures obj == 0 <==> page.None? && !(old(active)[k].Some? && old(slabs)[old(active)[k].value].head != 0)
      ensures obj == 0 ==> slabs == old(slabs) && frees == old(frees)
      ensures obj != 0 ==> !old(Live(obj)) && obj / PAGE in slabs && Room(slabs, large, obj) == Size(k)
      ensures obj != 0 ==> Adds(old(slabs), old(frees), old(large), slabs, frees, large, obj)
    {
      hide PagesOk, SlabLive, PageOk, BlocksOk, Size;
      if active[k].Some? && slabs[active[k].value].head != 0 {
        HeadNotNull(slabs, mem, frees, active[k].value);
        NotLarge(slabs, large, active[k].value);
        obj := Pop(active[k].value);
        BlocksSame(old(slabs), slabs, large);
        return;
      }
      if active[k].Some? {
        active := active[k := None];
      }
      if page.None? {
        return 0;
      }
      var f := page.value;
      NewSlab(k, f);
      active := active[k := Some(f)];
      HeadNotNull(slabs, mem, frees, f);
      ghost var slabs1 := slabs;
      obj := Pop(f);
      BlocksSame(slabs1, slabs, large);
    }

    /**
     `KmemCache::free` of a live object. `gone` is the page that goes back to the page allocator:
     the object's own, when nothing else on it is live.
     */
    method Free(obj: Addr) returns (gone: Option<Frame>)
      requires Valid() && SlabLive(slabs, frees, obj)
      modifies this
      ensures Valid() && large == old(large)
      ensures forall b: nat :: Live(b) <==> old(Live(b)) && b != obj
      ensures gone.Some? <==> forall b: nat :: b / PAGE == obj / PAGE ==> !SlabLive(slabs, frees, b)
      ensures gone.Some? ==> gone.value == obj / PAGE && gone.value !in slabs
    {
      hide PagesOk, SlabLive, PageOk, BlocksOk;
      var f := obj / PAGE;
      NotLarge(slabs, large, f);
      PushLive(slabs, mem, frees, obj);
      assert f in slabs && !LargeLive(large, obj);
      var p := slabs[f];
      ghost var i := IndexOf(obj, Size(p.cache));
      mem := mem[obj := p.head];
      slabs := slabs[f := SlabPage(p.cache, p.count - 1, obj)];
      frees := frees[f := [i] + frees[f]];
      BlocksSame(old(slabs), slabs, large);
      BlocksSame(old(slabs), slabs - {f}, large);
      if slabs[f].count == 0 {
        if active[p.cache] == Some(f) {
          active := active[p.cache := None];
        }
        DropPage(slabs, mem, frees, f);
        slabs := slabs - {f};
        frees := frees - {f};
        return Some(f);
      }
      StillLive(slabs, mem, frees, f);
      return None;
    }

    /** The pages of a block that the page allocator may hand out. */
    ghost predicate FreshBlock(h: Frame, order: nat)
      reads this
    {
      h > 0 && forall f :: InBlock(f, h, order) ==> Fresh(f)
    }

    /** `kmalloc`. `page` and `block` are what the page allocator hands out if it is asked. */
    method Kmalloc(size: nat, page: Option<Frame>, block: Option<Frame>) returns (obj: Addr)
      requires Valid() && (page.Some? ==> Fresh(page.value))
      requires block.Some? && size > 2048 ==> FreshBlock(block.value, OrderFor(size))
      modifies this
      ensures Valid() && (size == 0 ==> obj == 0)
      ensures size > 2048 ==> (obj == 0 <==> block.None?)
      ensures 0 < size <= 2048 && page.Some? ==> obj != 0
      ensures obj == 0 ==> forall b: nat :: Live(b) <==> old(Live(b))
      ensures obj != 0 ==> !old(Live(obj)) && Live(obj) && Room(slabs, large, obj) >= size
      ensures obj != 0 ==> Adds(old(slabs), old(frees), old(large), slabs, frees, large, obj)
    {
      hide PagesOk, SlabLive, PageOk, Size;
      if size == 0 {
        return 0;
      }
      if size > 2048 {
        var order := 0;
        OrderBounds(size);
        while Pow2(order) < (size + PAGE - 1) / PAGE
          invariant order <= OrderFor(size) && OrderFrom(size, order) == OrderFor(size)
          decreases OrderFor(size) - order
        {
          order := order + 1;
        }
        if block.None? {
          return 0;
        }
        LargeAdded(slabs, mem, frees, large, block.value, order);
        large := large[block.value := order];
        return block.value * PAGE;
      }
      var k := FindCache(size);
      obj := Alloc(k, page);
    }

    /** `find_cache`: the smallest class that is large enough. */
    method FindCache(size: nat) returns (k: nat)
      requires size <= 2048
      ensures k < CLASSES && Size(k) >= size && forall j :: 0 <= j < k ==> Size(j) < size
    {
      k := 0;
      LargestClass();
      while Size(k) < size
        invariant k < CLASSES && forall j :: 0 <= j < k ==> Size(j) < size
        decreases CLASSES - k
      {
        k := k + 1;
      }
    }

    /** `kfree` of the null pointer or of a live object. */
    method Kfree(ptr: Addr)
      requires Valid() && (ptr == 0 || Live(ptr))
      modifies this
      ensures Valid() && forall b: nat :: Live(b) <==> old(Live(b)) && (b != ptr || ptr == 0)
    {
      hide PagesOk, SlabLive, PageOk, Size;
      NullNotLive(slabs, mem, frees, large);
      if ptr == 0 {
        return;
      }
      var f := ptr / PAGE;
      LiveShape(slabs, mem, frees, large, ptr);
      if f in slabs {
        var gone := Free(ptr);
      } else {
        LargeRemoved(slabs, mem, frees, large, ptr);
        large := large - {f};
      }
    }

    /** Whatever the owner of a live object writes into it, the chains of free objects are safe. */
    method Store(obj: Addr, a: Addr, w: nat)
      requires Valid() && Live(obj) && obj <= a < obj + Room(slabs, large, obj)
      modifies this`mem
      ensures Valid() && mem == old(mem)[a := w]
    {
      StoreSafe(slabs, mem, frees, large, obj, a, w);
      hide PagesOk;
      mem := mem[a := w];
    }
  }

  lemma ChainLink(mem: Memory, head: nat, i: nat, n: nat, f: Frame, k: nat)
    requires k < CLASSES && n == PerPage(k) && i < n && Chain(mem, head, From(i + 1, n), f, Size(k)) && f > 0
    ensures var obj := At(f, Size(k), i);
            obj > 0 && obj / PAGE == f && Chain(mem[obj := head], obj, From(i, n), f, Size(k))
  {
    var z := Size(k);
    var obj := At(f, z, i);
    ObjectsApart(f, k, i, i);
    forall j | j in From(i + 1, n)
      ensures At(f, z, j) != obj
    {
      FullPage(k);
      ObjectsApart(f, k, i, j);
    }
    ChainKept(mem, mem[obj := head], head, From(i + 1, n), f, z);
    assert From(i, n)[1..] == From(i + 1, n);
  }

  lemma FromOnce(n: nat)
    ensures Once(From(0, n)) && forall i :: i in From(0, n) <==> 0 <= i < n
  {
    forall i | 0 <= i < n
      ensures i in From(0, n)
    {
      assert From(0, n)[i] == i;
    }
  }

  /** The object that is popped becomes live, and no other does. */
  lemma PopLive(slabs: Slabs, mem: Memory, frees: Frees, f: Frame)
    requires PagesOk(slabs, mem, frees) && f in slabs && slabs[f].head != 0
    ensures f in frees && frees[f] != [] && slabs[f].head in mem
    ensures var p, a := slabs[f], slabs[f].head;
            var slabs', frees' := slabs[f := SlabPage(p.cache, p.count + 1, mem[a])], frees[f := frees[f][1..]];
            && PagesOk(slabs', mem, frees') && a / PAGE == f
            && SlabLive(slabs', frees', a) && !SlabLive(slabs, frees, a)
            && forall b: nat :: b != a ==> (SlabLive(slabs', frees', b) <==> SlabLive(slabs, frees, b))
  {
    var p, a := slabs[f], slabs[f].head;
    assert PageOk(f, p, mem, frees[f]);
    PopPage(f, p, mem, frees[f]);
    AtIndex(f, p.cache, frees[f][0]);
    var slabs', frees' := slabs[f := SlabPage(p.cache, p.count + 1, mem[a])], frees[f := frees[f][1..]];
    forall b: nat | b != a && b / PAGE == f && (b % PAGE) % Size(p.cache) == 0
      ensures IndexOf(b, Size(p.cache)) != frees[f][0]
    {
      IndexAt(b, p.cache);
    }
  }

  lemma BlocksSame(slabs: Slabs, slabs': Slabs, large: map<Frame, nat>)
    requires BlocksOk(slabs, large) && slabs'.Keys <= slabs.Keys
    ensures BlocksOk(slabs', large)
  {
  }

  lemma NotLarge(slabs: Slabs, large: map<Frame, nat>, f: Frame)
    requires BlocksOk(slabs, large)
    ensures f in slabs ==> f !in large
  {
    if f in large { assert InBlock(f, f, large[f]); }
  }

  lemma BlocksWith(slabs: Slabs, large: map<Frame, nat>, f: Frame, p: SlabPage)
    requires BlocksOk(slabs, large) && forall h :: h in large ==> !InBlock(f, h, large[h])
    ensures BlocksOk(slabs[f := p], large) && f !in large
  {
    if f in large { assert InBlock(f, f, large[f]); }
  }

  lemma HeadNotNull(slabs: Slabs, mem: Memory, frees: Frees, f: Frame)
    requires PagesOk(slabs, mem, frees) && f in slabs
    ensures f > 0 && slabs[f].cache < CLASSES
  {
    assert PageOk(f, slabs[f], mem, frees[f]);
  }

  /** A fresh page has no live objects yet. */
  lemma NewPage(slabs: Slabs, was: Memory, mem: Memory, frees: Frees, f: Frame, p: SlabPage)
    requires PagesOk(slabs, was, frees) && f !in slabs && p.cache < CLASSES && p.count == 0
    requires PageOk(f, p, mem, From(0, PerPage(p.cache)))
    requires forall a :: a in was && a / PAGE != f ==> a in mem && mem[a] == was[a]
    ensures var slabs', frees' := slabs[f := p], frees[f := From(0, PerPage(p.cache))];
            && PagesOk(slabs', mem, frees')
            && forall b: nat :: SlabLive(slabs', frees', b) <==> SlabLive(slabs, frees, b)
  {
    var slabs', frees' := slabs[f := p], frees[f := From(0, PerPage(p.cache))];
    forall g | g in slabs'
      ensures PageOk(g, slabs'[g], mem, frees'[g])
    {
      if g != f {
        assert PageOk(g, slabs[g], was, frees[g]);
        forall i | i in frees[g]
          ensures At(g, Size(slabs[g].cache), i) / PAGE == g
        {
          ObjectsApart(g, slabs[g].cache, i, i);
        }
        ChainKept(was, mem, slabs[g].head, frees[g], g, Size(slabs[g].cache));
      }
    }
    FromOnce(PerPage(p.cache));
    forall b: nat | b / PAGE == f && (b % PAGE) % Size(p.cache) == 0
      ensures IndexOf(b, Size(p.cache)) in From(0, PerPage(p.cache))
    {
      IndexAt(b, p.cache);
    }
  }

  /** The object that is pushed is live no more, and the others are as they were. */
  lemma PushLive(slabs: Slabs, mem: Memory, frees: Frees, a: Addr)
    requires PagesOk(slabs, mem, frees) && SlabLive(slabs, frees, a)
    ensures a / PAGE in slabs && slabs[a / PAGE].cache < CLASSES && slabs[a / PAGE].count > 0 && a > 0
    ensures var f := a / PAGE;
            var p, i := slabs[f], IndexOf(a, Size(slabs[f].cache));
            var slabs', frees' := slabs[f := SlabPage(p.cache, p.count - 1, a)], frees[f := [i] + frees[f]];
            && f in frees && PagesOk(slabs', mem[a := p.head], frees')
            && forall b: nat :: SlabLive(slabs', frees', b) <==> SlabLive(slabs, frees, b) && b != a
  {
    var f := a / PAGE;
    var p := slabs[f];
    assert PageOk(f, p, mem, frees[f]);
    IndexAt(a, p.cache);
    var i := IndexOf(a, Size(p.cache));
    PushPage(f, p, mem, frees[f], i);
    var slabs', frees' := slabs[f := SlabPage(p.cache, p.count - 1, a)], frees[f := [i] + frees[f]];
    forall g | g in slabs'
      ensures PageOk(g, slabs'[g], mem[a := p.head], frees'[g])
    {
      if g != f { OtherPage(g, slabs[g], mem, frees[g], a, p.head); }
    }
    forall b: nat | b != a && b / PAGE == f && (b % PAGE) % Size(p.cache) == 0
      ensures IndexOf(b, Size(p.cache)) != i
    {
      IndexAt(b, p.cache);
    }
  }

  /** A page whose count is zero has nothing live on it. */
  lemma DropPage(slabs: Slabs, mem: Memory, frees: Frees, f: Frame)
    requires PagesOk(slabs, mem, frees) && f in slabs && slabs[f].count == 0
    ensures PagesOk(slabs - {f}, mem, frees - {f})
    ensures forall b: nat :: SlabLive(slabs - {f}, frees - {f}, b) <==> SlabLive(slabs, frees, b)
    ensures forall b: nat :: b / PAGE == f ==> !SlabLive(slabs, frees, b)
  {
    var p := slabs[f];
    assert PageOk(f, p, mem, frees[f]);
    forall b: nat | b / PAGE == f && (b % PAGE) % Size(p.cache) == 0
      ensures IndexOf(b, Size(p.cache)) in frees[f]
    {
      IndexAt(b, p.cache);
      EmptyPage(f, p, mem, frees[f], IndexOf(b, Size(p.cache)));
    }
  }

  /** A page whose count is not zero has something live on it. */
  lemma StillLive(slabs: Slabs, mem: Memory, frees: Frees, f: Frame)
    requires PagesOk(slabs, mem, frees) && f in slabs && slabs[f].count > 0
    ensures exists b: nat :: b / PAGE == f && SlabLive(slabs, frees, b)
  {
    var p, idx := slabs[f], frees[f];
    assert PageOk(f, p, mem, idx);
    var i := Missing(idx, PerPage(p.cache));
    AtIndex(f, p.cache, i);
    assert SlabLive(slabs, frees, At(f, Size(p.cache), i));
  }

  /** Fewer than `n` numbers miss one below `n`. */
  lemma {:induction false} Missing(s: seq<nat>, n: nat) returns (x: nat)
    requires Once(s) && |s| < n && forall y :: y in s ==> y < n
    ensures x < n && x !in s
    decreases n
  {
    if n - 1 !in s {
      x := n - 1;
    } else {
      RemoveSpec(s, n - 1);
      RemoveLength(s, n - 1);
      x := Missing(Remove(s, n - 1), n - 1);
    }
  }

  // ----- Large blocks -----

  /** The smallest order, from `o` on, of a block that has `size` bytes. */
  function OrderFrom(size: nat, o: nat): (r: nat)
    ensures r >= o
    decreases (size + PAGE - 1) / PAGE - Pow2(o)
  {
    if Pow2(o) >= (size + PAGE - 1) / PAGE then o else OrderFrom(size, o + 1)
  }

  function OrderFor(size: nat): nat { OrderFrom(size, 0) }

  lemma {:induction false} OrderFromFits(size: nat, o: nat)
    ensures Pow2(OrderFrom(size, o)) * PAGE >= size
    ensures OrderFrom(size, o) > o ==> Pow2(OrderFrom(size, o) - 1) * PAGE < size
    decreases (size + PAGE - 1) / PAGE - Pow2(o)
  {
    if Pow2(o) < (size + PAGE - 1) / PAGE { OrderFromFits(size, o + 1); }
  }

  /** The order is the least whose block has `size` bytes. */
  lemma OrderBounds(size: nat)
    ensures Pow2(OrderFor(size)) * PAGE >= size
    ensures OrderFor(size) > 0 ==> Pow2(OrderFor(size) - 1) * PAGE < size
  {
    OrderFromFits(size, 0);
  }

  lemma LargestClass()
    ensures Size(8) == 2048
  {
    assert Pow2(4) == 16;
    assert Pow2(8) == 16 * Pow2(4);
  }

  lemma LargeAdded(slabs: Slabs, mem: Memory, frees: Frees, large: map<Frame, nat>, h: Frame, order: nat)
    requires PagesOk(slabs, mem, frees) && BlocksOk(slabs, large) && h > 0
    requires forall f :: InBlock(f, h, order) ==> f !in slabs && forall g :: g in large ==> !InBlock(f, g, large[g])
    ensures BlocksOk(slabs, large[h := order]) && !IsLive(slabs, frees, large, h * PAGE)
    ensures Adds(slabs, frees, large, slabs, frees, large[h := order], h * PAGE)
    ensures Room(slabs, large[h := order], h * PAGE) == Pow2(order) * PAGE && (h * PAGE) / PAGE == h && h * PAGE > 0
  {
    hide PagesOk, Size;
    assert InBlock(h, h, order);
    assert (h * PAGE) / PAGE == h && (h * PAGE) % PAGE == 0;
    forall b: nat | b % PAGE == 0 && b / PAGE == h
      ensures b == h * PAGE
    {
    }
  }

  lemma LargeRemoved(slabs: Slabs, mem: Memory, frees: Frees, large: map<Frame, nat>, a: Addr)
    requires PagesOk(slabs, mem, frees) && BlocksOk(slabs, large) && IsLive(slabs, frees, large, a) && a / PAGE !in slabs
    ensures BlocksOk(slabs, large - {a / PAGE})
    ensures forall b: nat :: IsLive(slabs, frees, large - {a / PAGE}, b) <==> IsLive(slabs, frees, large, b) && b != a
  {
    forall b: nat | b % PAGE == 0 && b / PAGE == a / PAGE
      ensures b == a
    {
    }
  }

  lemma NullNotLive(slabs: Slabs, mem: Memory, frees: Frees, large: map<Frame, nat>)
    requires PagesOk(slabs, mem, frees) && BlocksOk(slabs, large)
    ensures !IsLive(slabs, frees, large, 0)
  {
  }

  lemma StoreSafe(slabs: Slabs, mem: Memory, frees: Frees, large: map<Frame, nat>, obj: Addr, a: Addr, w: nat)
    requires PagesOk(slabs, mem, frees) && BlocksOk(slabs, large) && IsLive(slabs, frees, large, obj)
    requires obj <= a < obj + Room(slabs, large, obj)
    ensures PagesOk(slabs, mem[a := w], frees)
  {
    LiveShape(slabs, mem, frees, large, obj);
    forall g | g in slabs
      ensures PageOk(g, slabs[g], mem[a := w], frees[g])
    {
      assert PageOk(g, slabs[g], mem, frees[g]);
      if a / PAGE != g {
        OtherPage(g, slabs[g], mem, frees[g], a, w);
      } else {
        StoreInPage(slabs, mem, frees, large, obj, a, w);
      }
    }
  }

  lemma StoreInPage(slabs: Slabs, mem: Memory, frees: Frees, large: map<Frame, nat>, obj: Addr, a: Addr, w: nat)
    requires PagesOk(slabs, mem, frees) && BlocksOk(slabs, large) && IsLive(slabs, frees, large, obj)
    requires obj <= a < obj + Room(slabs, large, obj) && a / PAGE in slabs
    ensures PageOk(a / PAGE, slabs[a / PAGE], mem[a := w], frees[a / PAGE])
  {
    LiveShape(slabs, mem, frees, large, obj);
    var f := obj / PAGE;
    if f in large { assert InBlock(a / PAGE, f, large[f]); }
    assert a / PAGE == f;
    var p, idx := slabs[f], frees[f];
    assert PageOk(f, p, mem, idx);
    IndexAt(obj, p.cache);
    var i := IndexOf(obj, Size(p.cache));
    forall j | j in idx
      ensures At(f, Size(p.cache), j) != a
    {
      ObjectsApart(f, p.cache, i, j);
      ObjectsApart(f, p.cache, j, i);
    }
    ChainKept(mem, mem[a := w], p.head, idx, f, Size(p.cache));
  }
}
