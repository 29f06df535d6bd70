/** The search for a free address range, `mm_find_free_va` of mm/vma.cc, in bytes and 64 bits. */
module FirstFit {
  import opened Basics
  import opened Rounding

  datatype Area = Area(start: nat, end: nat)

  /** Areas as the address space keeps them: of whole pages, in order, and apart. */
  ghost predicate Proper(areas: seq<Area>, from: nat) {
    && (forall i :: 0 <= i < |areas| ==> Whole(areas[i]) && from <= areas[i].start)
    && (forall i, j :: 0 <= i < j < |areas| ==> areas[i].end <= areas[j].start)
  }

  predicate Whole(x: Area) {
    x.start % PAGE == 0 && x.end % PAGE == 0 && x.start < x.end <= USER_VA_LIMIT
  }

  // ----- The code's arithmetic -----

  /** `align_up_any`. */
  function Up64(x: nat, align: nat): nat
    requires align > 0
  {
    DownTo((x + align - 1) % U64, align)
  }

  function Sub64(x: nat, y: nat): nat
    requires x < U64 && y < U64
  {
    (x + U64 - y) % U64
  }

  /** The loop from some area on. */
  function FindFrom(areas: seq<Area>, cursor: nat, len: nat, align: nat): nat
    requires align > 0 && len < U64
  {
    if areas == [] then
      if cursor > Sub64(USER_VA_LIMIT, len) then 0 else cursor
    else
      var x := areas[0];
      if cursor <= x.start && cursor > Sub64(USER_VA_LIMIT, len) then 0
      else if cursor <= x.start && (cursor + len) % U64 <= x.start then cursor
      else FindFrom(areas[1..], Up64(if cursor < x.end then x.end else cursor, align), len, align)
  }

  function FindFree(areas: seq<Area>, len: nat, align: nat): nat
    requires align > 0 && len < U64
  {
    FindFrom(areas, Up64(PAGE, align), len, align)
  }

  /** `mm_find_free_va`. */
  method FindFreeVa(areas: seq<Area>, length: nat, align: nat) returns (va: nat)
    requires length < U64 && align < U64
    ensures var len := DownTo((length + PAGE - 1) % U64, PAGE);
            va == if len == 0 then 0 else FindFree(areas, len, if align < PAGE then PAGE else align)
  {
    var len, al := DownTo((length + PAGE - 1) % U64, PAGE), align;
    if len == 0 {
      return 0;
    }
    if al < PAGE {
      al := PAGE;
    }
    var cursor: nat := Up64(PAGE, al);
    var i := 0;
    assert areas[0..] == areas;
    while i < |areas|
      invariant i <= |areas| && FindFrom(areas[i..], cursor, len, al) == FindFree(areas, len, al)
    {
      var x := areas[i];
      assert areas[i..][0] == x && areas[i..][1..] == areas[i + 1..];
      if cursor <= x.start {
        if cursor > Sub64(USER_VA_LIMIT, len) {
          return 0;
        }
        if (cursor + len) % U64 <= x.start {
          return cursor;
        }
      }
      if cursor < x.end {
        cursor := x.end;
      }
      cursor := Up64(cursor, al);
      i := i + 1;
    }
    if cursor > Sub64(USER_VA_LIMIT, len) {
      return 0;
    }
    return cursor;
  }

  // ----- What it should find -----

  /** [b, b + len) is aligned, in range and overlaps no area. */
  predicate Fit(areas: seq<Area>, len: nat, align: nat, b: nat)
    requires align > 0
  {
    && b % align == 0 && PAGE <= b && b + len <= USER_VA_LIMIT
    && forall i :: 0 <= i < |areas| ==> b + len <= areas[i].start || areas[i].end <= b
  }

  /** The lowest fit, or 0 if there is none. */
  ghost predicate Right(areas: seq<Area>, len: nat, align: nat, r: nat)
    requires align > 0
  {
    (r == 0 || Fit(areas, len, align, r)) && forall b: nat :: Fit(areas, len, align, b) ==> r != 0 && r <= b
  }

  /** The largest multiple that could be a fit leaves room to round up from it. */
  predicate AlignOk(len: nat, align: nat)
    requires align > 0 && len <= USER_VA_LIMIT
  {
    DownTo(USER_VA_LIMIT - len, align) + align - 1 < U64
  }

  /** The first multiple from `end` on. */
  function Lo(end: nat, align: nat): (r: nat)
    requires align > 0
    ensures r >= end
  {
    UpTo(end, align)
  }

  /** Nothing at or above `lo` can be a fit for want of room. */
  predicate Full(lo: nat, len: nat) { lo + len > USER_VA_LIMIT }

  /**
   Where the code's cursor is: at the first multiple from `end` on, or wrapped to 0 when that is out
   of range anyway.
   */
  ghost predicate CursorOk(cursor: nat, end: nat, len: nat, align: nat)
    requires align > 0
  {
    cursor == Lo(end, align) || (cursor == 0 && Full(Lo(end, align), len))
  }

  lemma UpToLeast(x: nat, align: nat, b: nat)
    requires align > 0 && b % align == 0 && x <= b
    ensures UpTo(x, align) <= b
  {
    if b < UpTo(x, align) { MultipleGap(b, UpTo(x, align), align); }
  }

  /** Rounding up in 64 bits: exact, or wrapped to 0. */
  lemma Up64Spec(x: nat, align: nat)
    requires 0 < align < U64 && x < U64
    ensures Up64(x, align) == if x + align - 1 < U64 then UpTo(x, align) else 0
  {
    if x + align - 1 >= U64 {
      assert (x + align - 1) % U64 == x + align - 1 - U64;
      SmallRounds(x + align - 1 - U64, align);
    }
  }

  lemma SmallRounds(x: nat, align: nat)
    requires x < align
    ensures DownTo(x, align) == 0
  {
    if DownTo(x, align) > 0 { MultipleGap(0, DownTo(x, align), align); }
  }

  /** A multiple that still has room can be rounded up from without wrapping. */
  lemma RoomToRound(m: nat, lo: nat, len: nat, align: nat)
    requires 0 < align && len <= USER_VA_LIMIT && AlignOk(len, align) && lo % align == 0 && m <= lo && !Full(lo, len)
    ensures m + align - 1 < U64
  {
    if DownTo(USER_VA_LIMIT - len, align) < lo { MultipleGap(DownTo(USER_VA_LIMIT - len, align), lo, align); }
  }

  /** The cursor after an area. */
  lemma NextCursor(cursor: nat, end: nat, x: Area, len: nat, align: nat)
    requires 0 < align < U64 && len <= USER_VA_LIMIT && AlignOk(len, align) && Whole(x) && end <= x.end
    requires CursorOk(cursor, end, len, align) && cursor < U64
    ensures var next := Up64(if cursor < x.end then x.end else cursor, align);
            next < U64 && CursorOk(next, x.end, len, align)
  {
    var m := if cursor < x.end then x.end else cursor;
    var lo := UpTo(x.end, align);
    Up64Spec(m, align);
    UpToLeast(end, align, lo);
    if cursor >= x.end && cursor > 0 {
      UpToLeast(x.end, align, cursor);
      assert lo == cursor;
      UpToLeast(cursor, align, cursor);
      if !Full(lo, len) { RoomToRound(m, lo, len, align); }
    } else {
      if !Full(lo, len) { RoomToRound(m, lo, len, align); }
    }
  }

  /** The lowest fit at or above `end`, or 0 if there is none. */
  ghost predicate RightFrom(areas: seq<Area>, end: nat, len: nat, align: nat, r: nat)
    requires align > 0
  {
    && (r == 0 || (Fit(areas, len, align, r) && end <= r))
    && forall b: nat :: Fit(areas, len, align, b) && end <= b ==> r != 0 && r <= b
  }

  lemma {:induction false} FindFromRight(areas: seq<Area>, cursor: nat, end: nat, len: nat, align: nat)
    requires 0 < align < U64 && 0 < len <= USER_VA_LIMIT && AlignOk(len, align) && PAGE <= end && Proper(areas, end)
    requires CursorOk(cursor, end, len, align) && cursor < U64
    ensures RightFrom(areas, end, len, align, FindFrom(areas, cursor, len, align))
  {
    hide Up64, Sub64, AlignOk, Proper, Whole, Fit, RightFrom, Lo;
    var lo := Lo(end, align);
    SubExact(len);
    if areas == [] {
      if cursor == lo && !Full(lo, len) { HereRight(areas, end, len, align); } else { NoneRight(areas, end, len, align); }
    } else {
      ProperParts(areas, end);
      var x, rest := areas[0], areas[1..];
      if cursor == lo && !Full(lo, len) && cursor + len <= x.start {
        HereRight(areas, end, len, align);
      } else if cursor == lo && cursor <= x.start && Full(lo, len) {
        NoneRight(areas, end, len, align);
      } else {
        var next := Up64(if cursor < x.end then x.end else cursor, align);
        NextCursor(cursor, end, x, len, align);
        FindFromRight(rest, next, x.end, len, align);
        MustStartAfter(areas, end, len, align, cursor);
        RestRight(areas, end, len, align, FindFrom(rest, next, len, align));
        if cursor == 0 { NoneRight(areas, end, len, align); }
        OnlyRight(areas, end, len, align);
      }
    }
  }

  /** There is one right answer. */
  lemma OnlyRight(areas: seq<Area>, end: nat, len: nat, align: nat)
    requires align > 0
    ensures forall r, r' :: RightFrom(areas, end, len, align, r) && RightFrom(areas, end, len, align, r') ==> r == r'
  {
  }

  /** Nothing fits when the first multiple is out of range. */
  lemma NoneRight(areas: seq<Area>, end: nat, len: nat, align: nat)
    requires align > 0 && Full(Lo(end, align), len)
    ensures RightFrom(areas, end, len, align, 0)
  {
    AtLeastLo(areas, end, len, align);
  }

  /** The first multiple is the answer when it is in range and ends before the first area. */
  lemma HereRight(areas: seq<Area>, end: nat, len: nat, align: nat)
    requires align > 0 && PAGE <= end && Proper(areas, 0) && !Full(Lo(end, align), len)
    requires areas != [] ==> Lo(end, align) + len <= areas[0].start
    ensures RightFrom(areas, end, len, align, Lo(end, align))
  {
    AtLeastLo(areas, end, len, align);
    if areas != [] { FitsBefore(areas, len, align, Lo(end, align)); }
  }

  /** A fit from the cursor on that the first area does not let through. */
  lemma MustStartAfter(areas: seq<Area>, end: nat, len: nat, align: nat, cursor: nat)
    requires align > 0 && areas != [] && CursorOk(cursor, end, len, align)
    requires !(cursor == Lo(end, align) && !Full(cursor, len) && cursor + len <= areas[0].start)
    ensures forall b: nat :: Fit(areas, len, align, b) && end <= b ==> areas[0].start < b + len
  {
    AtLeastLo(areas, end, len, align);
  }

  lemma ProperParts(areas: seq<Area>, end: nat)
    requires Proper(areas, end) && areas != []
    ensures Whole(areas[0]) && end <= areas[0].start && Proper(areas[1..], areas[0].end) && Proper(areas, 0)
  {
  }

  lemma AtLeastLo(areas: seq<Area>, end: nat, len: nat, align: nat)
    requires align > 0
    ensures forall b: nat :: Fit(areas, len, align, b) && end <= b ==> Lo(end, align) <= b
  {
    forall b: nat | Fit(areas, len, align, b) && end <= b
      ensures Lo(end, align) <= b
    {
      UpToLeast(end, align, b);
    }
  }

  /** What ends before the first area overlaps none. */
  lemma FitsBefore(areas: seq<Area>, len: nat, align: nat, b: nat)
    requires align > 0 && areas != [] && Proper(areas, 0) && b % align == 0 && PAGE <= b && b + len <= USER_VA_LIMIT
    requires b + len <= areas[0].start
    ensures Fit(areas, len, align, b)
  {
    forall i | 0 <= i < |areas|
      ensures b + len <= areas[i].start
    {
      if i > 0 { assert areas[0].end <= areas[i].start; }
    }
  }

  /** Past the first area, when nothing fits before it. */
  lemma RestRight(areas: seq<Area>, end: nat, len: nat, align: nat, r: nat)
    requires align > 0 && len > 0 && areas != [] && Proper(areas, end) && PAGE <= end
    requires RightFrom(areas[1..], areas[0].end, len, align, r)
    requires forall b: nat :: Fit(areas, len, align, b) && end <= b ==> areas[0].start < b + len
    ensures RightFrom(areas, end, len, align, r)
  {
    var rest := areas[1..];
    forall b: nat
      ensures Fit(areas, len, align, b) && end <= b <==> Fit(rest, len, align, b) && areas[0].end <= b
    {
      if Fit(rest, len, align, b) && areas[0].end <= b {
        forall i | 0 <= i < |areas|
          ensures b + len <= areas[i].start || areas[i].end <= b
        {
          if i > 0 { assert areas[i] == rest[i - 1]; }
        }
      }
      if Fit(areas, len, align, b) && end <= b {
        forall i | 0 <= i < |rest|
          ensures b + len <= rest[i].start || rest[i].end <= b
        {
          assert rest[i] == areas[i + 1];
        }
      }
    }
  }

  /** The search is right for every address space. */
  lemma FindFreeRight(areas: seq<Area>, len: nat, align: nat)
    requires PAGE <= align < U64 && 0 < len <= USER_VA_LIMIT && AlignOk(len, align) && Proper(areas, PAGE)
    ensures Right(areas, len, align, FindFree(areas, len, align))
  {
    Up64Spec(PAGE, align);
    FirstMultiple(align);
    FindFromRight(areas, Up64(PAGE, align), PAGE, len, align);
  }

  lemma FirstMultiple(align: nat)
    requires PAGE <= align
    ensures UpTo(PAGE, align) == align
  {
    Multiple(align);
    UpToLeast(PAGE, align, align);
    MultipleGap(0, UpTo(PAGE, align), align);
  }

  lemma Multiple(align: nat)
    requires align > 0
    ensures align % align == 0 && 0 % align == 0
  {
  }

  // ----- Exactly when it is right -----

  /** A length beyond the limit: an address is found where nothing fits. */
  lemma TooLong(len: nat, align: nat)
    requires USER_VA_LIMIT < len < U64 && PAGE <= align < U64 && align + len <= USER_VA_LIMIT + U64 && align + PAGE <= U64
    ensures FindFree([], len, align) == align && !Right([], len, align, align)
  {
    Up64Spec(PAGE, align);
    FirstMultiple(align);
    assert Sub64(USER_VA_LIMIT, len) == USER_VA_LIMIT + U64 - len;
  }

  /** Two areas up to the last fit: rounding up from there wraps, and the fit is missed. */
  function Trap(len: nat, align: nat): seq<Area>
    requires align > 0 && len <= USER_VA_LIMIT && DownTo(USER_VA_LIMIT - len, align) >= 3 * PAGE
  {
    var y := DownTo(DownTo(USER_VA_LIMIT - len, align), PAGE);
    [Area(PAGE, y - PAGE), Area(y - PAGE, y)]
  }

  lemma TooCoarse(len: nat, align: nat)
    requires PAGE <= align < U64 && 0 < len <= USER_VA_LIMIT && !AlignOk(len, align)
    ensures DownTo(USER_VA_LIMIT - len, align) >= 3 * PAGE && Proper(Trap(len, align), PAGE)
    ensures !Right(Trap(len, align), len, align, FindFree(Trap(len, align), len, align))
  {
    var m := DownTo(USER_VA_LIMIT - len, align);
    assert m > 0;
    Multiple(align);
    if m < align { MultipleGap(0, m, align); }
    assert align > U64 - USER_VA_LIMIT;
    var y := DownTo(m, PAGE);
    var areas, x := Trap(len, align), y - PAGE;
    MultipleBack(y, PAGE);
    assert Whole(areas[0]) && Whole(areas[1]);
    assert Fit(areas, len, align, m);
    assert areas[1..] == [areas[1]] && areas[1..][1..] == [];
    FirstMultiple(align);
    Up64Spec(PAGE, align);
    assert Sub64(USER_VA_LIMIT, len) == USER_VA_LIMIT - len;
    AfterFirst(len, align, m, x);
    Up64Spec(m, align);
    Up64Spec(y, align);
    Trapped(areas, len, align, m, x, y);
  }

  /** The cursor after the first area of the trap: at the fit, or wrapped. */
  lemma AfterFirst(len: nat, align: nat, m: nat, x: nat)
    requires PAGE <= align < U64 && align <= m <= USER_VA_LIMIT - len && m % align == 0 && m + align - 1 >= U64 && x <= m < x + 2 * PAGE
    requires align > U64 - USER_VA_LIMIT
    ensures var next := Up64(if align < x then x else align, align);
            next == m || (next == 0 && (len <= x || x + align - 1 >= U64))
  {
    Up64Spec(if align < x then x else align, align);
    if align < x {
      UpToLeast(x, align, m);
      if UpTo(x, align) < m { MultipleGap(UpTo(x, align), m, align); }
    } else {
      Multiple(align);
      if align < m { MultipleGap(align, m, align); }
    }
  }

  lemma Trapped(areas: seq<Area>, len: nat, align: nat, m: nat, x: nat, y: nat)
    requires PAGE <= align <= m && 0 < len && m + len <= USER_VA_LIMIT && m + align - 1 >= U64 && x + PAGE == y <= m && PAGE < x
    requires areas == [Area(PAGE, x), Area(x, y)] && Up64(PAGE, align) == align && PAGE < align < U64
    requires var next := Up64(if align < x then x else align, align);
             next == m || (next == 0 && (len <= x || x + align - 1 >= U64))
    requires Up64(m, align) == 0 && (x + align - 1 >= U64 ==> Up64(y, align) == 0)
    ensures FindFree(areas, len, align) == 0
  {
    hide Up64, Sub64;
    SubExact(len);
    assert areas[1..] == [areas[1]] && areas[1..][1..] == [];
    var next := Up64(if align < x then x else align, align);
    assert FindFree(areas, len, align) == FindFrom(areas[1..], next, len, align);
    assert FindFrom([], 0, len, align) == 0;
    assert (next + len) % U64 == next + len;
  }

  lemma SubExact(len: nat)
    requires len <= USER_VA_LIMIT
    ensures Sub64(USER_VA_LIMIT, len) == USER_VA_LIMIT - len
  {
  }

  ghost predicate AlwaysRight(len: nat, align: nat)
    requires align > 0 && len < U64
  {
    forall areas: seq<Area> :: Proper(areas, PAGE) ==> Right(areas, len, align, FindFree(areas, len, align))
  }

  /** A length beyond the limit and an alignment so large that the cursor never gets anywhere. */
  lemma TooLongRight(areas: seq<Area>, len: nat, align: nat)
    requires USER_VA_LIMIT < len < U64 && PAGE <= align < U64 && Proper(areas, PAGE)
    requires align + len > USER_VA_LIMIT + U64 || align + PAGE > U64
    ensures Right(areas, len, align, FindFree(areas, len, align))
  {
    Up64Spec(PAGE, align);
    FirstMultiple(align);
    FarAligned(areas, Up64(PAGE, align), len, align);
  }

  lemma {:induction false} FarAligned(areas: seq<Area>, cursor: nat, len: nat, align: nat)
    requires USER_VA_LIMIT < len < U64 && USER_VA_LIMIT < align < U64 && Proper(areas, PAGE)
    requires cursor == 0 || (cursor == align && align + len > USER_VA_LIMIT + U64)
    requires align + len > USER_VA_LIMIT + U64 || align + PAGE > U64
    ensures FindFrom(areas, cursor, len, align) == 0
    decreases |areas|
  {
    if areas != [] {
      var x := areas[0];
      assert Whole(x);
      var at := if cursor < x.end then x.end else cursor;
      Up64Spec(at, align);
      if at <= align {
        Multiple(align);
        UpToLeast(at, align, align);
        MultipleGap(0, UpTo(at, align), align);
      }
      ProperRest(areas);
      FarAligned(areas[1..], Up64(at, align), len, align);
    }
  }

  lemma ProperRest(areas: seq<Area>)
    requires Proper(areas, PAGE) && areas != []
    ensures Proper(areas[1..], PAGE)
  {
  }

  /** Exactly for which lengths and alignments the search is right for every address space. */
  lemma AlwaysRightIff(len: nat, align: nat)
    requires PAGE <= align < U64 && 0 < len < U64
    ensures AlwaysRight(len, align) <==>
            if len <= USER_VA_LIMIT then AlignOk(len, align)
            else align + len > USER_VA_LIMIT + U64 || align + PAGE > U64
  {
    if len > USER_VA_LIMIT {
      if align + len > USER_VA_LIMIT + U64 || align + PAGE > U64 {
        forall areas: seq<Area> | Proper(areas, PAGE)
          ensures Right(areas, len, align, FindFree(areas, len, align))
        {
          TooLongRight(areas, len, align);
        }
      } else {
        TooLong(len, align);
        assert Proper([], PAGE);
      }
    } else if !AlignOk(len, align) {
      TooCoarse(len, align);
    } else {
      forall areas: seq<Area> | Proper(areas, PAGE)
        ensures Right(areas, len, align, FindFree(areas, len, align))
      {
        FindFreeRight(areas, len, align);
      }
    }
  }

  /** Any alignment up to 2^38 leaves room. */
  lemma CommonAlignOk(len: nat, align: nat)
    requires 0 < align <= U64 - USER_VA_LIMIT && len <= USER_VA_LIMIT
    ensures AlignOk(len, align)
  {
  }
}
