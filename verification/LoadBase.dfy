/** The search for a place to unpack the kernel to, in arch/riscv/boot/compressed.cc. */
module LoadBase {
  import opened Basics
  import opened Powers
  import opened Rounding

  /** The size of the array of reserved ranges. */
  const MAX_RANGES: nat := 32
  const MAX_PASSES: nat := 64

  datatype Range = Range(start: nat, end: nat)

  /** `ranges_overlap`, in 64 bits: an image that would wrap around overlaps everything. */
  predicate Collides(base: nat, size: nat, r: Range) {
    size > 0 && (base + size >= U64 || (base < r.end && base + size > r.start))
  }

  predicate Words(ranges: seq<Range>) {
    forall i :: 0 <= i < |ranges| ==> ranges[i].start < U64 && ranges[i].end < U64
  }

  predicate Clear(base: nat, size: nat, ranges: seq<Range>) {
    forall i :: 0 <= i < |ranges| ==> !Collides(base, size, ranges[i])
  }

  /** A page-aligned base between `lo` and `hi` where the image overlaps no range. */
  predicate Usable(base: nat, lo: nat, hi: nat, size: nat, ranges: seq<Range>) {
    base % PAGE == 0 && lo <= base <= hi && Clear(base, size, ranges)
  }

  /** How many ranges start below `top`, so that an image that ends there can still overlap them. */
  function Ahead(ranges: seq<Range>, top: nat): nat {
    if ranges == [] then 0 else (if ranges[0].start < top then 1 else 0) + Ahead(ranges[1..], top)
  }

  lemma {:induction false} AheadBounds(ranges: seq<Range>, low: nat, top: nat)
    requires low <= top
    ensures Ahead(ranges, low) <= Ahead(ranges, top) <= |ranges|
  {
    if ranges != [] { AheadBounds(ranges[1..], low, top); }
  }

  /** Moving below a range retires it. */
  lemma {:induction false} Retires(ranges: seq<Range>, low: nat, top: nat, i: nat)
    requires i < |ranges| && low <= ranges[i].start < top
    ensures Ahead(ranges, low) < Ahead(ranges, top)
  {
    if i == 0 {
      AheadBounds(ranges[1..], low, top);
    } else {
      Retires(ranges[1..], low, top, i - 1);
    }
  }

  /** A base at or below one that collides with `r` is clear of `r` only if it ends before it. */
  lemma MustEndBefore(b: nat, c: nat, size: nat, r: Range)
    requires b <= c && c + size < U64 && Collides(c, size, r) && !Collides(b, size, r)
    ensures b + size <= r.start
  {
  }

  lemma PageBelow(b: nat, x: nat)
    requires b % PAGE == 0 && b <= x
    ensures b <= DownTo(x, PAGE)
  {
    if DownTo(x, PAGE) < b { MultipleGap(DownTo(x, PAGE), b, PAGE); }
  }

  /** The result is usable and the highest such base, or 0 if there is none but 0 itself. */
  ghost predicate Highest(base: nat, lo: nat, hi: nat, size: nat, ranges: seq<Range>) {
    && (base != 0 ==> Usable(base, lo, hi, size, ranges))
    && forall b: nat :: Usable(b, lo, hi, size, ranges) ==> b <= base
  }

  /**
   `find_gap_from`. The cap on passes is never what ends the search: every pass that collides
   retires a range.
   */
  method FindGapFrom(start: nat, minBase: nat, ranges: seq<Range>, size: nat) returns (base: nat)
    requires |ranges| <= MAX_RANGES && start < U64 && Words(ranges)
    ensures base != 0 ==> Usable(base, minBase, start, size, ranges)
    ensures DownTo(start, PAGE) + size < U64 || size == 0 || ranges == [] ==> Highest(base, minBase, start, size, ranges)
    ensures DownTo(start, PAGE) + size >= U64 && size > 0 && ranges != [] ==> base == WrapBase(ranges, minBase, size)
  {
    var candidate: nat := DownTo(start, PAGE);
    ghost var fits := candidate + size < U64 || size == 0 || ranges == [];
    AheadBounds(ranges, 0, candidate + size);
    CandidateFirst(start, minBase, ranges, size);
    base := 0;
    var iter := 0;
    while iter < MAX_PASSES
      invariant candidate % PAGE == 0 && candidate <= start
      invariant fits ==> candidate + size < U64 || size == 0 || ranges == []
      invariant !fits ==> (iter == 0 && candidate == DownTo(start, PAGE)) ||
                          (Lowest(ranges) >= size && candidate == DownTo(Lowest(ranges) - size, PAGE))
      invariant iter <= MAX_PASSES && iter + Ahead(ranges, candidate + size) <= |ranges|
      invariant fits ==> AllBelow(candidate, minBase, start, size, ranges)
      invariant base == 0
    {
      if candidate < minBase {
        break;
      }
      if !fits { BelowAll(candidate, size, ranges); }
      var hit, next, stuck := Collisions(candidate, minBase, start, ranges, size, fits);
      if stuck {
        break;
      }
      if !hit {
        base := candidate;
        break;
      }
      if next >= candidate {
        break;
      }
      candidate := next;
      iter := iter + 1;
    }
  }

  // ----- When the first candidate wraps around -----

  /** Where the first of the ranges starts. */
  function Lowest(ranges: seq<Range>): nat
    requires ranges != []
  {
    if |ranges| == 1 then ranges[0].start
    else Min(Lowest(ranges[..|ranges| - 1]), ranges[|ranges| - 1].start)
  }

  lemma LowestNext(ranges: seq<Range>, i: nat)
    requires i < |ranges|
    ensures Lowest(ranges[..i + 1]) == if i == 0 then ranges[0].start else Min(Lowest(ranges[..i]), ranges[i].start)
  {
    assert ranges[..i + 1][..i] == ranges[..i];
  }

  lemma {:induction false} LowestBound(ranges: seq<Range>)
    requires ranges != []
    ensures forall i :: 0 <= i < |ranges| ==> Lowest(ranges) <= ranges[i].start
    ensures exists i :: 0 <= i < |ranges| && Lowest(ranges) == ranges[i].start
  {
    if |ranges| > 1 {
      var most := ranges[..|ranges| - 1];
      LowestBound(most);
      var i :| 0 <= i < |most| && Lowest(most) == most[i].start;
      assert Lowest(most) == ranges[i].start;
      assert Lowest(ranges) == ranges[i].start || Lowest(ranges) == ranges[|ranges| - 1].start;
    } else {
      assert Lowest(ranges) == ranges[0].start;
    }
  }

  /** What the search then answers: the highest base below all ranges, whatever lies between them. */
  function WrapBase(ranges: seq<Range>, minBase: nat, size: nat): nat
    requires ranges != []
  {
    if Lowest(ranges) < size then 0
    else
      var b := DownTo(Lowest(ranges) - size, PAGE);
      if b < minBase then 0 else b
  }

  /** That base is clear of all ranges. */
  lemma BelowAll(candidate: nat, size: nat, ranges: seq<Range>)
    requires ranges != [] && Words(ranges)
    ensures Lowest(ranges) < U64
    ensures Lowest(ranges) >= size && candidate == DownTo(Lowest(ranges) - size, PAGE) ==> Clear(candidate, size, ranges)
  {
    LowestBound(ranges);
  }

  /** It is the highest base below all ranges: the answer if the first of them went on for ever. */
  lemma WrapBaseHighest(ranges: seq<Range>, minBase: nat, start: nat, size: nat)
    requires ranges != [] && 0 < size < U64 && Words(ranges) && DownTo(start, PAGE) + size >= U64 && start < U64
    ensures Highest(WrapBase(ranges, minBase, size), minBase, start, size, [Range(Lowest(ranges), U64)])
  {
    LowestBound(ranges);
    var wall, base := [Range(Lowest(ranges), U64)], WrapBase(ranges, minBase, size);
    assert wall[0] == Range(Lowest(ranges), U64);
    forall b: nat | Usable(b, minBase, start, size, wall)
      ensures b <= base
    {
      assert !Collides(b, size, wall[0]);
      assert b + size <= Lowest(ranges);
      PageBelow(b, Lowest(ranges) - size);
    }
  }

  /** After `i` ranges the next candidate is below all of them. */
  ghost predicate Skips(ranges: seq<Range>, i: nat, size: nat, next: nat)
    requires i <= |ranges|
  {
    i > 0 ==> Lowest(ranges[..i]) >= size && next == DownTo(Lowest(ranges[..i]) - size, PAGE)
  }

  lemma SkipsEnd(ranges: seq<Range>, size: nat)
    ensures forall next: nat :: Skips(ranges, 0, size, next)
    ensures ranges != [] ==> forall i :: 0 <= i < |ranges| ==> Lowest(ranges) <= ranges[i].start
    ensures forall next: nat :: ranges != [] && Skips(ranges, |ranges|, size, next) ==>
              Lowest(ranges) >= size && next == DownTo(Lowest(ranges) - size, PAGE)
  {
    assert ranges[..|ranges|] == ranges;
    if ranges != [] { LowestBound(ranges); }
  }

  lemma SkipsNext(candidate: nat, size: nat, ranges: seq<Range>, i: nat, next: nat)
    requires i < |ranges| && Words(ranges) && candidate + size >= U64 && candidate % PAGE == 0
    requires Skips(ranges, i, size, next) && (i == 0 ==> next == candidate) && ranges[i].start >= size
    ensures var below := DownTo(ranges[i].start - size, PAGE);
            below < candidate && Skips(ranges, i + 1, size, if below < next then below else next)
  {
    LowestNext(ranges, i);
    if i > 0 {
      var x, y := Lowest(ranges[..i]) - size, ranges[i].start - size;
      if x <= y { PageBelow(DownTo(x, PAGE), y); } else { PageBelow(DownTo(y, PAGE), x); }
    }
  }

  /**
   With such a start the search is right for every list of ranges if and only if there is no room for
   the image anyway.
   */
  lemma WrapRightIff(start: nat, minBase: nat, size: nat)
    requires start < U64 && 0 < size < U64 && DownTo(start, PAGE) + size >= U64
    ensures (forall ranges: seq<Range> :: ranges != [] && Words(ranges) ==>
               Highest(WrapBase(ranges, minBase, size), minBase, start, size, ranges)) <==>
            DownTo(U64 - 1 - size, PAGE) < Max(minBase, PAGE)
  {
    var b := DownTo(U64 - 1 - size, PAGE);
    if b >= Max(minBase, PAGE) {
      var ranges := [Range(0, 1)];
      PageBelow(b, start);
      assert Usable(b, minBase, start, size, ranges);
      assert !Highest(WrapBase(ranges, minBase, size), minBase, start, size, ranges);
    } else {
      forall ranges: seq<Range> | ranges != [] && Words(ranges)
        ensures Highest(WrapBase(ranges, minBase, size), minBase, start, size, ranges)
      {
        NoRoom(ranges, start, minBase, size);
      }
    }
  }

  lemma PageOrNone(b: nat)
    requires b % PAGE == 0
    ensures b == 0 || b >= PAGE
  {
  }

  lemma NoRoom(ranges: seq<Range>, start: nat, minBase: nat, size: nat)
    requires ranges != [] && Words(ranges) && 0 < size < U64 && DownTo(U64 - 1 - size, PAGE) < Max(minBase, PAGE)
    ensures Highest(WrapBase(ranges, minBase, size), minBase, start, size, ranges)
  {
    LowestBound(ranges);
    if Lowest(ranges) >= size { PageBelow(DownTo(Lowest(ranges) - size, PAGE), U64 - 1 - size); }
    PageOrNone(WrapBase(ranges, minBase, size));
    forall b: nat | Usable(b, minBase, start, size, ranges)
      ensures b == 0
    {
      PageOrNone(b);
      assert !Collides(b, size, ranges[0]);
      PageBelow(b, U64 - 1 - size);
    }
  }

  ghost predicate AllBelow(top: nat, lo: nat, hi: nat, size: nat, ranges: seq<Range>) {
    forall b: nat :: Usable(b, lo, hi, size, ranges) ==> b <= top
  }

  lemma CandidateFirst(start: nat, minBase: nat, ranges: seq<Range>, size: nat)
    ensures AllBelow(DownTo(start, PAGE), minBase, start, size, ranges)
  {
    forall b: nat | Usable(b, minBase, start, size, ranges)
      ensures b <= DownTo(start, PAGE)
    {
      PageBelow(b, start);
    }
  }

  /** The inner loop: does the candidate collide, and where to go next; `stuck` if nowhere. */
  method Collisions(candidate: nat, minBase: nat, start: nat, ranges: seq<Range>, size: nat, ghost fits: bool)
    returns (hit: bool, next: nat, stuck: bool)
    requires candidate % PAGE == 0 && minBase <= candidate <= start && Words(ranges)
    requires fits ==> candidate + size < U64 || size == 0 || ranges == []
    requires fits ==> AllBelow(candidate, minBase, start, size, ranges)
    ensures candidate + size >= U64 && size > 0 && ranges != [] ==>
              stuck == (Lowest(ranges) < size) && (!stuck ==> hit && next == DownTo(Lowest(ranges) - size, PAGE))
    ensures stuck ==> !Clear(candidate, size, ranges)
    ensures !stuck ==> hit == !Clear(candidate, size, ranges)
    ensures !stuck && hit ==> next % PAGE == 0 && next < candidate
    ensures !stuck && hit ==> Ahead(ranges, next + size) < Ahead(ranges, candidate + size)
    ensures fits && stuck ==> forall b: nat :: !Usable(b, minBase, start, size, ranges)
    ensures fits && !stuck && hit ==> AllBelow(next, minBase, start, size, ranges)
  {
    hide Skips, Lowest;
    hit, next, stuck := false, candidate, false;
    ghost var wraps := candidate + size >= U64 && size > 0;
    SkipsEnd(ranges, size);
    var i := 0;
    while i < |ranges|
      invariant i <= |ranges| && next % PAGE == 0 && next <= candidate
      invariant hit == !Clear(candidate, size, ranges[..i])
      invariant fits ==> AllBelow(next, minBase, start, size, ranges)
      invariant !hit ==> next == candidate
      invariant wraps ==> Skips(ranges, i, size, next) && (i > 0 ==> hit)
      invariant hit ==> next < candidate && Ahead(ranges, next + size) < Ahead(ranges, candidate + size)
    {
      assert ranges[..i + 1] == ranges[..i] + [ranges[i]];
      if Collides(candidate, size, ranges[i]) {
        hit := true;
        assert !Clear(candidate, size, ranges[..i + 1]) by { assert ranges[..i + 1][i] == ranges[i]; }
        if fits { Blocked(candidate, minBase, start, ranges, size, i); }
        if ranges[i].start < size {
          stuck := true;
          return;
        }
        if wraps { SkipsNext(candidate, size, ranges, i, next); }
        var below := DownTo(ranges[i].start - size, PAGE);
        if below < next {
          Retires(ranges, below + size, candidate + size, i);
          next := below;
        }
      }
      i := i + 1;
    }
    assert ranges[..i] == ranges;
  }

  /** What a collision with range `i` rules out. */
  lemma Blocked(candidate: nat, minBase: nat, start: nat, ranges: seq<Range>, size: nat, i: nat)
    requires i < |ranges| && candidate + size < U64 && Collides(candidate, size, ranges[i])
    requires AllBelow(candidate, minBase, start, size, ranges)
    ensures if ranges[i].start < size then forall b: nat :: !Usable(b, minBase, start, size, ranges)
            else AllBelow(DownTo(ranges[i].start - size, PAGE), minBase, start, size, ranges)
  {
    forall b: nat | Usable(b, minBase, start, size, ranges)
      ensures ranges[i].start >= size && b <= DownTo(ranges[i].start - size, PAGE)
    {
      MustEndBefore(b, candidate, size, ranges[i]);
      PageBelow(b, ranges[i].start - size);
    }
  }

  predicate IsBase(b: nat, lo: nat, hi: nat, size: nat, ranges: seq<Range>) {
    b > 0 && Usable(b, lo, hi, size, ranges)
  }

  ghost predicate HasBase(lo: nat, hi: nat, size: nat, ranges: seq<Range>) {
    exists b: nat :: IsBase(b, lo, hi, size, ranges)
  }

  /** Where the search starts: at a random page if there is a seed, else at the top. */
  function StartBase(lo: nat, hi: nat, seed: bool, random: nat): nat
    requires lo <= hi
  {
    if seed then lo + random % ((hi - lo) / PAGE + 1) * PAGE else hi
  }

  /** Every page between the bounds can be drawn, by its number modulo how many there are; without a seed it is the top. */
  lemma EveryPageDrawn(lo: nat, hi: nat, page: nat, random: nat)
    requires lo % PAGE == 0 && hi % PAGE == 0 && page % PAGE == 0 && lo <= page <= hi
    ensures StartBase(lo, hi, true, (page - lo) / PAGE) == page
    ensures StartBase(lo, hi, true, random) == StartBase(lo, hi, true, random % ((hi - lo) / PAGE + 1))
    ensures StartBase(lo, hi, false, random) == hi
  {
    var k, n := (page - lo) / PAGE, (hi - lo) / PAGE;
    assert k < n + 1;
    Quotient(k, n + 1, 0, k);
    assert lo + k * PAGE == page;
    var m := random % (n + 1);
    Quotient(m, n + 1, 0, m);
  }

  /**
   A base that is not 0, page-aligned and in bounds, where the image overlaps neither where it lies now,
   nor a payload, nor any of the device tree's ranges that there is room for.
   */
  predicate FreeBase(b: nat, lo: nat, hi: nat, size: nat, own: Range, payload: Range, fdt: seq<Range>) {
    && b > 0 && b % PAGE == 0 && lo <= b <= hi && !Collides(b, size, own)
    && (payload.start != payload.end ==> !Collides(b, size, payload))
    && forall i :: 0 <= i < |fdt| && i < (if payload.start != payload.end then 30 else 31) ==> !Collides(b, size, fdt[i])
  }

  ghost predicate AnyFree(lo: nat, hi: nat, size: nat, own: Range, payload: Range, fdt: seq<Range>) {
    exists b: nat :: FreeBase(b, lo, hi, size, own, payload, fdt)
  }

  ghost predicate HighestFree(base: nat, lo: nat, hi: nat, size: nat, own: Range, payload: Range, fdt: seq<Range>) {
    && FreeBase(base, lo, hi, size, own, payload, fdt)
    && forall b: nat :: FreeBase(b, lo, hi, size, own, payload, fdt) ==> b <= base
  }

  predicate Within(p: nat, a: nat, b: nat) { a <= p < b }

  /** Without wrapping, colliding with a range that is not empty is having a byte in common. */
  lemma CollidesIffCommon(base: nat, size: nat, r: Range)
    requires base + size < U64 && r.start < r.end
    ensures Collides(base, size, r) <==> exists p: nat :: Within(p, base, base + size) && Within(p, r.start, r.end)
  {
    if Collides(base, size, r) {
      var p := if base < r.start then r.start else base;
      assert Within(p, base, base + size) && Within(p, r.start, r.end);
    }
  }

  /** The highest base is there if and only if there is one. */
  lemma HighestFound(b: nat, lo: nat, hi: nat, hi': nat, size: nat, ranges: seq<Range>)
    requires Highest(b, lo, hi, size, ranges) && hi <= hi'
    ensures b != 0 <==> HasBase(lo, hi, size, ranges)
    ensures b != 0 ==> HasBase(lo, hi', size, ranges)
  {
    if b != 0 { assert IsBase(b, lo, hi, size, ranges) && IsBase(b, lo, hi', size, ranges); }
  }

  /** The array holds these ranges and no others. */
  lemma GatheredFree(linkBase: nat, size: nat, payload: Range, fdt: seq<Range>)
    ensures var ranges, own := Gathered(linkBase, size, payload, fdt), Range(linkBase, linkBase + size);
            && (forall b: nat, lo: nat, hi: nat :: IsBase(b, lo, hi, size, ranges) <==> FreeBase(b, lo, hi, size, own, payload, fdt))
            && (forall lo: nat, hi: nat :: HasBase(lo, hi, size, ranges) <==> AnyFree(lo, hi, size, own, payload, fdt))
            && forall b: nat, lo: nat, hi: nat :: b > 0 && Highest(b, lo, hi, size, ranges) ==> HighestFree(b, lo, hi, size, own, payload, fdt)
  {
    hide Collides;
    var ranges, own := Gathered(linkBase, size, payload, fdt), Range(linkBase, linkBase + size);
    var k := if payload.start != payload.end then 2 else 1;
    assert ranges[0] == own && (k == 2 ==> ranges[1] == payload);
    assert forall i :: 0 <= i < |fdt| && i < MAX_RANGES - k ==> ranges[k + i] == fdt[i];
    assert forall i :: k <= i < |ranges| ==> i - k < |fdt| && ranges[i] == fdt[i - k];
    forall b: nat, lo: nat, hi: nat
      ensures IsBase(b, lo, hi, size, ranges) <==> FreeBase(b, lo, hi, size, own, payload, fdt)
    {
      if FreeBase(b, lo, hi, size, own, payload, fdt) {
        forall i | 0 <= i < |ranges|
          ensures !Collides(b, size, ranges[i])
        {
          if i >= k { assert ranges[i] == fdt[i - k]; }
        }
      }
      if IsBase(b, lo, hi, size, ranges) {
        forall i | 0 <= i < |fdt| && i < MAX_RANGES - k
          ensures !Collides(b, size, fdt[i])
        {
          assert ranges[k + i] == fdt[i];
        }
      }
    }
  }

  /**
   `choose_load_base`, given what the device tree says: the RAM and the ranges it reserves, and a
   random number of pages to start at, if there is a seed. It falls back to `linkBase` only when
   there is no other base (0, which stands for none, does not count).
   */
  method ChooseLoadBase(memBase: nat, memSize: nat, size: nat, linkBase: nat, payload: Range, fdt: seq<Range>, seed: bool, random: nat)
    returns (base: nat)
    requires memBase < U64 && memSize < U64 && size < U64 && linkBase + size < U64 && Words([payload]) && Words(fdt)
    ensures var lo, top, own := DownTo(memBase, PAGE), memBase + memSize, Range(linkBase, linkBase + size);
            if memSize == 0 || top >= U64 || top < size || DownTo(top - size, PAGE) < lo then base == linkBase
            else
              var hi := DownTo(top - size, PAGE);
              var start := StartBase(lo, hi, seed, random);
              if AnyFree(lo, hi, size, own, payload, fdt)
              then base > 0 && HighestFree(base, lo, if AnyFree(lo, start, size, own, payload, fdt) then start else hi, size, own, payload, fdt)
              else base == linkBase
  {
    hide StartBase, DownTo, Usable, Gathered, Words, Highest, HasBase, IsBase, FreeBase, AnyFree, HighestFree, WrapBase;
    var memTop := memBase + memSize;
    if memSize == 0 || memTop >= U64 || memTop < size {
      return linkBase;
    }
    var ranges := Gathered(linkBase, size, payload, fdt);
    GatheredWords(linkBase, size, payload, fdt);
    GatheredFree(linkBase, size, payload, fdt);
    var minBase, maxBase := DownTo(memBase, PAGE), DownTo(memTop - size, PAGE);
    if maxBase < minBase {
      return linkBase;
    }
    var candidate := StartBase(minBase, maxBase, seed, random);
    StartInside(minBase, maxBase, seed, random);
    base := FindGapFrom(candidate, minBase, ranges, size);
    HighestFound(base, minBase, candidate, maxBase, size, ranges);
    if base != 0 {
      return;
    }
    if candidate != maxBase {
      base := FindGapFrom(maxBase, minBase, ranges, size);
      HighestFound(base, minBase, maxBase, maxBase, size, ranges);
      if base != 0 {
        return;
      }
    }
    return linkBase;
  }

  /** The array of reserved ranges: the image itself, the payload, and what still fits. */
  function Gathered(linkBase: nat, size: nat, payload: Range, fdt: seq<Range>): (r: seq<Range>)
    ensures |r| <= MAX_RANGES
  {
    var own := [Range(linkBase, linkBase + size)] + (if payload.start != payload.end then [payload] else []);
    own + (if |fdt| > MAX_RANGES - |own| then fdt[..MAX_RANGES - |own|] else fdt)
  }

  lemma GatheredWords(linkBase: nat, size: nat, payload: Range, fdt: seq<Range>)
    requires linkBase + size < U64 && Words([payload]) && Words(fdt)
    ensures Words(Gathered(linkBase, size, payload, fdt))
  {
    assert [payload][0] == payload;
  }

  lemma StartInside(lo: nat, hi: nat, seed: bool, random: nat)
    requires lo <= hi && lo % PAGE == 0 && hi % PAGE == 0
    ensures var c := StartBase(lo, hi, seed, random); lo <= c <= hi && DownTo(c, PAGE) == c
  {
    PickInside(lo, hi, random);
    var c := StartBase(lo, hi, seed, random);
    if DownTo(c, PAGE) < c { MultipleGap(DownTo(c, PAGE), c, PAGE); }
  }

  lemma PickInside(lo: nat, hi: nat, random: nat)
    requires lo <= hi && lo % PAGE == 0 && hi % PAGE == 0
    ensures lo <= lo + random % ((hi - lo) / PAGE + 1) * PAGE <= hi
    ensures (lo + random % ((hi - lo) / PAGE + 1) * PAGE) % PAGE == 0
  {
    var k := random % ((hi - lo) / PAGE + 1);
    assert k <= (hi - lo) / PAGE;
  }
}
