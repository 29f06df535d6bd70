/**
 The address-space operations of mm/vma.cc as they run: loops over areas and pages that change the
 area list, the page table and the reference counts one at a time. Each is proved to be its step
 in VmSteps.
 */
module Vmm {
  import opened Options
  import opened Basics
  import opened VmaList
  import opened AddressSpace
  import opened VmSteps
  import opened VmFork

  const ENOMEM: int := 12
  const EFAULT: int := 14
  const EINVAL: int := 22

  /** A byte range after the alignment and bounds checks all the calls share. */
  datatype Range = Invalid | Empty | Pages(a: nat, b: nat)

  /** `va` is aligned down, `len` up, in 64-bit arithmetic that wraps. */
  function PageRange(va: nat, len: nat): (r: Range)
    requires va < U64 && len < U64
    ensures r.Pages? ==> 1 <= r.a < r.b && r.b * PAGE <= USER_VA_LIMIT
    ensures r.Pages? ==> r.a * PAGE <= va && va < (r.a + 1) * PAGE && len <= (r.b - r.a) * PAGE < len + PAGE
    ensures r.Empty? <==> len == 0 || len > U64 - PAGE
    ensures r.Pages? <==> && 0 < len <= U64 - PAGE && va >= PAGE
                          && (va / PAGE + (len + PAGE - 1) / PAGE) * PAGE <= USER_VA_LIMIT
  {
    var first, n := va / PAGE, ((len + (PAGE - 1)) % U64) / PAGE;
    if n == 0 then Empty
    else if first < 1 || first * PAGE >= USER_VA_LIMIT then Invalid
    else if first * PAGE + n * PAGE >= U64 || first * PAGE + n * PAGE > USER_VA_LIMIT then Invalid
    else Pages(first, first + n)
  }

  // ----- Dropping, area by area -----

  lemma {:induction false} DropPagesJoin(s: Sys, id: SpaceId, a: nat, b: nat, c: nat)
    requires id in s.spaces && a <= b <= c
    ensures DropPages(DropPages(s, id, a, b), id, b, c) == DropPages(s, id, a, c)
    decreases c
  {
    if b < c { DropPagesJoin(s, id, a, b, c - 1); }
  }

  /** Pages without entries are passed over. */
  lemma {:induction false} DropNothing(s: Sys, id: SpaceId, a: nat, b: nat)
    requires id in s.spaces && forall p :: a <= p < b ==> p !in s.spaces[id].table
    ensures DropPages(s, id, a, b) == s
    decreases b
  {
    if a < b { DropNothing(s, id, a, b - 1); }
  }

  lemma {:induction false} DropSetVmas(s: Sys, id: SpaceId, a: nat, b: nat, v: seq<Vma>)
    requires id in s.spaces
    ensures DropPages(SetVmas(s, id, v), id, a, b) == SetVmas(DropPages(s, id, a, b), id, v)
    decreases b
  {
    if a < b {
      DropSetVmas(s, id, a, b - 1, v);
      DropPageSetVmas(DropPages(s, id, a, b - 1), id, b - 1, v);
    }
  }

  lemma DropPageSetVmas(s: Sys, id: SpaceId, p: nat, v: seq<Vma>)
    requires id in s.spaces
    ensures DropPage(SetVmas(s, id, v), id, p) == SetVmas(DropPage(s, id, p), id, v)
  {
    var t := s.spaces[id].table;
    if p in t && t[p].Seen() && t[p].frame in s.refs {
      var s1 := Decref(s, t[p].frame);
      assert Decref(SetVmas(s, id, v), t[p].frame) == SetVmas(s1, id, v);
      assert ClearPte(SetVmas(s1, id, v), id, p) == SetVmas(ClearPte(s1, id, p), id, v);
    }
  }

  lemma {:induction false} UnmapVmasConcat(u: seq<Vma>, v: seq<Vma>, a: nat, b: nat)
    ensures UnmapVmas(u + v, a, b) == UnmapVmas(u, a, b) + UnmapVmas(v, a, b)
  {
    if u == [] {
      assert u + v == v;
    } else {
      assert (u + v)[1..] == u[1..] + v;
      UnmapVmasConcat(u[1..], v, a, b);
    }
  }

  /** Areas at or after `b` are kept as they are. */
  lemma {:induction false} UnmapVmasBeyond(v: seq<Vma>, a: nat, b: nat)
    requires Sorted(v) && From(v, b) && a <= b
    ensures UnmapVmas(v, a, b) == v
  {
    if v != [] {
      assert v == [v[0]] + v[1..];
      UnmapVmasBeyond(v[1..], a, b);
    }
  }

  /** No page is mapped between two neighbouring areas. */
  lemma GapEmpty(sp: Space, j: nat, lo: nat, hi: nat)
    requires Lawful(sp) && j <= |sp.vmas|
    requires j > 0 ==> sp.vmas[j - 1].end <= lo
    requires j < |sp.vmas| ==> hi <= sp.vmas[j].start
    ensures forall p :: lo <= p < hi ==> p !in sp.table
  {
    forall p: nat | lo <= p < hi
      ensures PermAt(sp.vmas, p).None?
    {
      PermAtNone(sp.vmas, p);
    }
  }

  /** How far unmapping has come when the first `j` areas are done. */
  function Cursor(v: seq<Vma>, j: nat, a: nat, b: nat): nat
    requires j <= |v|
  {
    if j == 0 then a else Max(a, Min(b, v[j - 1].end))
  }

  /** The state when the first `j` areas are unmapped. */
  ghost function Unmapped(s: Sys, id: SpaceId, a: nat, b: nat, j: nat): Sys
    requires id in s.spaces && j <= |s.spaces[id].vmas|
  {
    var v := s.spaces[id].vmas;
    SetVmas(DropPages(s, id, a, Cursor(v, j, a, b)), id, UnmapVmas(v[..j], a, b) + v[j..])
  }

  /** Dropping the part of the next area that lies in the range moves the cursor on. */
  lemma UnmapNext(s: Sys, id: SpaceId, a: nat, b: nat, j: nat)
    requires Valid(s) && id in s.spaces && a < b && j < |s.spaces[id].vmas|
    ensures var v := s.spaces[id].vmas;
            var x, c := v[j], Cursor(v, j, a, b);
            var d := DropPages(s, id, a, c);
            && (x.end <= a ==> Cursor(v, j + 1, a, b) == c)
            && (a < x.end && x.start < b ==>
                  DropPages(d, id, Max(x.start, a), Min(x.end, b)) == DropPages(s, id, a, Cursor(v, j + 1, a, b)))
  {
    var sp := s.spaces[id];
    var v := sp.vmas;
    var x, c := v[j], Cursor(v, j, a, b);
    assert Lawful(sp);
    if a < x.end && x.start < b {
      var us, ue := Max(x.start, a), Min(x.end, b);
      assert c <= us by { if j > 0 { assert v[j - 1].end <= x.start; } }
      assert c < us ==> j == 0 || v[j - 1].end <= c;
      LawfulSeen(sp);
      DropPagesSpec(s, id, a, c);
      assert forall p :: c <= p < us ==> p !in sp.table by {
        if c < us { GapEmpty(sp, j, c, us); }
      }
      hide Valid, Lawful, Counted, Pooled, Private, PermAt, Sorted;
      DropNothing(DropPages(s, id, a, c), id, c, us);
      DropPagesJoin(s, id, a, c, us);
      DropPagesJoin(s, id, a, us, ue);
    }
  }

  /** When the next area is beyond the range, everything is done. */
  lemma UnmapDone(s: Sys, id: SpaceId, a: nat, b: nat, j: nat)
    requires Valid(s) && id in s.spaces && a < b && j <= |s.spaces[id].vmas|
    requires j < |s.spaces[id].vmas| ==> b <= s.spaces[id].vmas[j].start
    ensures Unmapped(s, id, a, b, j) == SetVmas(DropPages(s, id, a, b), id, UnmapVmas(s.spaces[id].vmas, a, b))
  {
    var sp := s.spaces[id];
    var v := sp.vmas;
    var c := Cursor(v, j, a, b);
    assert Lawful(sp);
    LawfulSeen(sp);
    DropPagesSpec(s, id, a, c);
    assert forall p :: c <= p < b ==> p !in sp.table by {
      if c < b { GapEmpty(sp, j, c, b); }
    }
    UnmapRest(v, a, b, j);
    hide Valid, Lawful, Counted, Pooled, Private, PermAt, UnmapVmas;
    DropNothing(DropPages(s, id, a, c), id, c, b);
    DropPagesJoin(s, id, a, c, b);
  }

  lemma SortedTail(v: seq<Vma>, j: nat)
    requires Sorted(v) && j <= |v|
    ensures Sorted(v[j..])
  {
  }

  lemma UnmapRest(v: seq<Vma>, a: nat, b: nat, j: nat)
    requires Sorted(v) && a < b && j <= |v| && (j < |v| ==> b <= v[j].start)
    ensures UnmapVmas(v[..j], a, b) + v[j..] == UnmapVmas(v, a, b)
  {
    hide UnmapVmas;
    forall k | 0 <= k < |v[j..]|
      ensures b <= v[j..][k].start
    {
      if k > 0 { assert v[j].end <= v[j + k].start; }
    }
    SortedTail(v, j);
    UnmapVmasBeyond(v[j..], a, b);
    UnmapVmasConcat(v[..j], v[j..], a, b);
    assert v[..j] + v[j..] == v;
  }

  /** The list when one more area is done: its remains take its place. */
  lemma UnmapVmasNext(v: seq<Vma>, a: nat, b: nat, j: nat)
    requires j < |v|
    ensures var u := UnmapVmas(v[..j], a, b);
            && UnmapVmas(v[..j + 1], a, b) == u + Outside(v[j], a, b)
            && (u + v[j..])[|u|] == v[j]
            && (u + v[j..])[..|u|] == u && (u + v[j..])[|u| + 1..] == v[j + 1..]
  {
    assert v[..j + 1] == v[..j] + [v[j]];
    UnmapVmasConcat(v[..j], [v[j]], a, b);
    assert UnmapVmas([v[j]], a, b) == Outside(v[j], a, b) + UnmapVmas([], a, b);
  }

  // ----- Protecting, area by area -----

  lemma {:induction false} CutNone(v: seq<Vma>, a: nat)
    requires !NeedsCut(v, a)
    ensures Cut(v, a) == v
  {
    if v != [] {
      assert v == [v[0]] + v[1..];
      assert !Straddles(v[0], a);
      forall i | 0 <= i < |v[1..]|
        ensures !Straddles(v[1..][i], a)
      {
        assert !Straddles(v[i + 1], a);
      }
      CutNone(v[1..], a);
    }
  }

  /** Splitting area `i` in the middle is what `Cut` does. */
  lemma {:induction false} CutAtIndex(v: seq<Vma>, a: nat, i: nat)
    requires Sorted(v) && i < |v| && Straddles(v[i], a)
    ensures Cut(v, a) == v[..i] + [v[i].(end := a), v[i].(start := a)] + v[i + 1..]
  {
    if i > 0 {
      assert v[0].end <= v[i].start;
      CutAtIndex(v[1..], a, i - 1);
      assert v[1..][..i - 1] == v[1..i] && v[1..][i..] == v[i + 1..];
      assert [v[0]] + v[1..i] == v[..i];
    }
  }

  lemma CutConcat(x: Vma, v: seq<Vma>, a: nat)
    requires Sorted([x] + v)
    ensures Cut([x] + v, a) == Cut([x], a) + Cut(v, a)
  {
    assert ([x] + v)[1..] == v && [x][1..] == [];
    if Straddles(x, a) {
      forall i | 0 <= i < |v|
        ensures !Straddles(v[i], a)
      {
        assert ([x] + v)[0].end <= ([x] + v)[i + 1].start;
      }
      CutNone(v, a);
    }
  }

  /** Give every area inside [a, c) permissions `perm`. */
  function SetPerms(w: seq<Vma>, a: nat, c: nat, perm: Perm): seq<Vma> {
    seq(|w|, i requires 0 <= i < |w| => if a <= w[i].start && w[i].end <= c then w[i].(perm := perm) else w[i])
  }

  lemma SetPermsConcat(u: seq<Vma>, w: seq<Vma>, a: nat, c: nat, perm: Perm)
    ensures SetPerms(u + w, a, c, perm) == SetPerms(u, a, c, perm) + SetPerms(w, a, c, perm)
  {
  }

  /** Cut at both ends and recast what lies between: what protecting does to the list. */
  lemma {:induction false} ProtectIsCut(v: seq<Vma>, a: nat, b: nat, perm: Perm)
    requires Sorted(v) && a < b
    ensures ProtectVmas(v, a, b, perm) == SetPerms(Cut(Cut(v, a), b), a, b, perm)
  {
    if v != [] {
      var x, rest := v[0], v[1..];
      assert v == [x] + rest;
      ProtectIsCut(rest, a, b, perm);
      CutConcat(x, rest, a);
      CutSpec(rest, a, x.end);
      CutPieces(x, a);
      SortedConcat(Cut([x], a), Cut(rest, a), x.end);
      CutJoin(Cut([x], a), Cut(rest, a), b);
      SetPermsConcat(Cut(Cut([x], a), b), Cut(Cut(rest, a), b), a, b, perm);
      RecastIsCut(x, a, b, perm);
    }
  }

  lemma CutPieces(x: Vma, a: nat)
    requires x.start < x.end
    ensures Cut([x], a) == if Straddles(x, a) then [x.(end := a), x.(start := a)] else [x]
    ensures Sorted(Cut([x], a)) && Upto(Cut([x], a), x.end)
  {
  }

  lemma CutNothing(a: nat)
    ensures Cut([], a) == []
  {
  }

  lemma SortedParts(u: seq<Vma>, v: seq<Vma>)
    requires Sorted(u + v) && u != []
    ensures Sorted(u) && Sorted(u[1..] + v)
  {
    assert u[1..] + v == (u + v)[1..] && u == (u + v)[..|u|];
  }

  lemma {:induction false} CutJoin(u: seq<Vma>, v: seq<Vma>, a: nat)
    requires Sorted(u + v)
    ensures Cut(u + v, a) == Cut(u, a) + Cut(v, a)
  {
    hide Cut, Sorted;
    CutNothing(a);
    if u == [] {
      assert u + v == v;
    } else {
      assert u + v == [u[0]] + (u[1..] + v) && u == [u[0]] + u[1..];
      SortedParts(u, v);
      CutJoin(u[1..], v, a);
      CutConcat(u[0], u[1..] + v, a);
      CutConcat(u[0], u[1..], a);
    }
  }

  lemma RecastIsCut(x: Vma, a: nat, b: nat, perm: Perm)
    requires x.start < x.end && a < b
    ensures Recast(x, a, b, perm) == SetPerms(Cut(Cut([x], a), b), a, b, perm)
  {
    CutPieces(x, a);
    CutPieces(x, b);
    if Straddles(x, a) {
      var l, r := x.(end := a), x.(start := a);
      CutPieces(r, b);
      CutConcat(l, [r], b);
      CutPieces(l, b);
      assert [l] + [r] == [l, r];
    }
  }

  /** What the two cuts give the loop that follows them. */
  ghost predicate CutOut(w: seq<Vma>, a: nat, b: nat) {
    && Sorted(w) && Covered(w, a, b)
    && forall i :: 0 <= i < |w| ==> !Straddles(w[i], a) && !Straddles(w[i], b)
  }

  lemma {:induction false} CutKeepsCut(v: seq<Vma>, a: nat, b: nat)
    requires forall i :: 0 <= i < |v| ==> !Straddles(v[i], a)
    ensures forall i :: 0 <= i < |Cut(v, b)| ==> !Straddles(Cut(v, b)[i], a)
  {
    if v != [] { CutKeepsCut(v[1..], a, b); }
  }

  lemma CutTwice(v: seq<Vma>, a: nat, b: nat)
    requires Sorted(v) && Covered(v, a, b) && a < b
    ensures CutOut(Cut(Cut(v, a), b), a, b)
    ensures Sorted(Cut(v, a)) && Covered(Cut(v, a), a, b)
    ensures NeedsCut(Cut(v, a), b) <==> NeedsCut(v, b)
  {
    CutSpec(v, a, 0);
    CutSpec(Cut(v, a), b, 0);
    CutKeepsCut(Cut(v, a), a, b);
    CutKeepsNeed(v, a, b);
  }

  lemma {:induction false} CutKeepsNeed(v: seq<Vma>, a: nat, b: nat)
    requires Sorted(v) && a < b
    ensures NeedsCut(Cut(v, a), b) <==> NeedsCut(v, b)
  {
    if v != [] {
      var x, rest := v[0], v[1..];
      assert v == [x] + rest;
      CutKeepsNeed(rest, a, b);
      NeedsCutConcat([x], rest, b);
      CutPieces(x, a);
      CutConcat(x, rest, a);
      NeedsCutConcat(Cut([x], a), Cut(rest, a), b);
      if Straddles(x, a) {
        NeedsCutConcat([x.(end := a)], [x.(start := a)], b);
        assert [x.(end := a)] + [x.(start := a)] == Cut([x], a);
      }
      NeedsCutOne(x, b);
      NeedsCutOne(x.(end := a), b);
      NeedsCutOne(x.(start := a), b);
    }
  }

  lemma NeedsCutOne(x: Vma, b: nat)
    ensures NeedsCut([x], b) <==> Straddles(x, b)
  {
    assert [x][0] == x;
  }

  lemma NeedsCutConcat(u: seq<Vma>, v: seq<Vma>, b: nat)
    ensures NeedsCut(u + v, b) <==> NeedsCut(u, b) || NeedsCut(v, b)
  {
    forall i | 0 <= i < |u|
      ensures (u + v)[i] == u[i]
    {
    }
    forall i | 0 <= i < |v|
      ensures (u + v)[|u| + i] == v[i]
    {
    }
  }

  /** A covered range goes on at the area after the last one. */
  lemma NextArea(w: seq<Vma>, a: nat, b: nat, i: nat, c: nat)
    requires CutOut(w, a, b) && a <= c < b && i <= |w|
    requires (i > 0 ==> w[i - 1].end <= c) && (i < |w| ==> c <= w[i].start)
    ensures i < |w| && w[i].start == c && w[i].end <= b && c < w[i].end
  {
    PermAtNone(w, c);
    var k :| 0 <= k < |w| && w[k].Has(c);
    assert k == i;
    assert !Straddles(w[i], b);
  }

  lemma SetPermsNext(w: seq<Vma>, a: nat, i: nat, c: nat, perm: Perm)
    requires Sorted(w) && i < |w| && a <= c && w[i].start == c
    ensures SetPerms(w, a, w[i].end, perm) == SetPerms(w, a, c, perm)[i := w[i].(perm := perm)]
    ensures SetPerms(w, a, c, perm)[i] == w[i]
  {
    forall k | 0 <= k < |w|
      ensures SetPerms(w, a, w[i].end, perm)[k] == SetPerms(w, a, c, perm)[i := w[i].(perm := perm)][k]
    {
      if k < i { assert w[k].end <= w[i].start; }
      if k > i { assert w[i].end <= w[k].start; }
    }
  }

  lemma {:induction false} ProtectPagesJoin(s: Sys, id: SpaceId, a: nat, b: nat, c: nat, perm: Perm)
    requires id in s.spaces && a <= b <= c
    ensures ProtectPages(ProtectPages(s, id, a, b, perm), id, b, c, perm) == ProtectPages(s, id, a, c, perm)
    decreases c
  {
    if b < c { ProtectPagesJoin(s, id, a, b, c - 1, perm); }
  }

  lemma {:induction false} ProtectSetVmas(s: Sys, id: SpaceId, a: nat, b: nat, perm: Perm, v: seq<Vma>)
    requires id in s.spaces
    ensures ProtectPages(SetVmas(s, id, v), id, a, b, perm) == SetVmas(ProtectPages(s, id, a, b, perm), id, v)
    decreases b
  {
    if a < b {
      ProtectSetVmas(s, id, a, b - 1, perm, v);
      ProtectPageSetVmas(ProtectPages(s, id, a, b - 1, perm), id, b - 1, perm, v);
    }
  }

  lemma ProtectPageSetVmas(s: Sys, id: SpaceId, p: nat, perm: Perm, v: seq<Vma>)
    requires id in s.spaces
    ensures ProtectPage(SetVmas(s, id, v), id, p, perm) == SetVmas(ProtectPage(s, id, p, perm), id, v)
  {
    var t := s.spaces[id].table;
    DropPageSetVmas(s, id, p, v);
    if p in t && t[p].Seen() && !perm.Zero() {
      var e := ProtectPte(t[p], perm);
      assert SetPte(SetVmas(s, id, v), id, p, e) == SetVmas(SetPte(s, id, p, e), id, v);
    }
  }

  /** The state when the pages of [a, c) and the areas in them are done. */
  ghost function Protecting(s: Sys, id: SpaceId, w: seq<Vma>, a: nat, c: nat, perm: Perm): Sys
    requires id in s.spaces
  {
    SetVmas(ProtectPages(s, id, a, c, perm), id, SetPerms(w, a, c, perm.User()))
  }

  lemma ProtectStart(s: Sys, id: SpaceId, w: seq<Vma>, a: nat, b: nat, perm: Perm)
    requires id in s.spaces && Sorted(w) && s.spaces[id].vmas == w
    ensures Protecting(s, id, w, a, a, perm) == s
  {
    assert SetPerms(w, a, a, perm.User()) == w;
    assert s.spaces[id := s.spaces[id]] == s.spaces;
  }

  lemma ProtectNext(s: Sys, id: SpaceId, w: seq<Vma>, a: nat, i: nat, c: nat, perm: Perm)
    requires id in s.spaces && Sorted(w) && i < |w| && a <= c && w[i].start == c
    ensures var s1, q := Protecting(s, id, w, a, c, perm), perm.User();
            && i < |s1.spaces[id].vmas| && s1.spaces[id].vmas[i] == w[i]
            && ProtectPages(SetVmas(s1, id, s1.spaces[id].vmas[i := w[i].(perm := q)]), id, c, w[i].end, perm)
               == Protecting(s, id, w, a, w[i].end, perm)
  {
    hide ProtectPages;
    var q := perm.User();
    var s1, v1, v2 := Protecting(s, id, w, a, c, perm), SetPerms(w, a, c, q), SetPerms(w, a, w[i].end, q);
    SetPermsNext(w, a, i, c, q);
    hide SetPerms;
    assert SetVmas(s1, id, v2) == SetVmas(ProtectPages(s, id, a, c, perm), id, v2);
    ProtectSetVmas(ProtectPages(s, id, a, c, perm), id, c, w[i].end, perm, v2);
    ProtectPagesJoin(s, id, a, c, w[i].end, perm);
  }

  lemma ProtectFinish(s: Sys, id: SpaceId, a: nat, b: nat, perm: Perm)
    requires id in s.spaces && Sorted(s.spaces[id].vmas) && a < b
    ensures var v := s.spaces[id].vmas;
            var w := Cut(Cut(v, a), b);
            Protecting(SetVmas(SetVmas(s, id, Cut(v, a)), id, w), id, w, a, b, perm)
            == SetVmas(ProtectPages(s, id, a, b, perm), id, ProtectVmas(v, a, b, perm.User()))
  {
    hide ProtectPages, ProtectVmas, Cut, SetPerms;
    var v := s.spaces[id].vmas;
    var w := Cut(Cut(v, a), b);
    ProtectIsCut(v, a, b, perm.User());
    assert SetVmas(SetVmas(s, id, Cut(v, a)), id, w) == SetVmas(s, id, w);
    ProtectSetVmas(s, id, a, b, perm, w);
  }

  /** The area that has page `a` starts there. */
  lemma FindCut(w: seq<Vma>, a: nat, b: nat)
    requires CutOut(w, a, b) && a < b
    ensures FindVma(w, a).Some? && w[FindVma(w, a).value].start == a
    ensures FindVma(w, a).value > 0 ==> w[FindVma(w, a).value - 1].end <= a
  {
    FindPerm(w, a);
    var i := FindVma(w, a).value;
    assert !Straddles(w[i], a);
    if i > 0 { assert w[i - 1].end <= w[i].start; }
  }

  lemma AreaAfter(s: Sys, id: SpaceId, w: seq<Vma>, a: nat, i: nat, c: nat, perm: Perm)
    requires id in s.spaces && Sorted(w) && 0 < i <= |w| && c == w[i - 1].end
    ensures var v := Protecting(s, id, w, a, c, perm).spaces[id].vmas;
            |v| == |w| && (i < |w| ==> v[i] == w[i] && c <= w[i].start)
  {
    if i < |w| { assert w[i - 1].end <= w[i].start; }
  }

  /** The index of the area that has page `p`, as rb_find gets it. */
  function FindVma(v: seq<Vma>, p: nat): (r: Option<nat>)
    ensures r.Some? ==> r.value < |v| && v[r.value].Has(p) && forall k :: 0 <= k < r.value ==> !v[k].Has(p)
    ensures r.None? ==> forall k :: 0 <= k < |v| ==> !v[k].Has(p)
  {
    if v == [] then None
    else if v[0].Has(p) then Some(0)
    else match FindVma(v[1..], p) case None => None case Some(i) => Some(i + 1)
  }

  lemma FindPerm(v: seq<Vma>, p: nat)
    requires Sorted(v)
    ensures PermAt(v, p) == match FindVma(v, p) case None => None case Some(i) => Some(v[i].perm)
  {
    match FindVma(v, p)
    case None => PermAtNone(v, p);
    case Some(i) => PermAtIndex(v, i, p);
  }

  lemma {:induction false} KeepsVmas(s: Sys, id: SpaceId, a: nat, b: nat)
    requires id in s.spaces
    ensures DropPages(s, id, a, b).spaces[id].vmas == s.spaces[id].vmas
    ensures SetVmas(DropPages(s, id, a, b), id, s.spaces[id].vmas) == DropPages(s, id, a, b)
    decreases b
  {
    if a < b { KeepsVmas(s, id, a, b - 1); }
  }

  lemma ValidSorted(s: Sys, id: SpaceId)
    requires Valid(s) && id in s.spaces
    ensures Sorted(s.spaces[id].vmas)
  {
    assert Lawful(s.spaces[id]);
  }

  lemma UnmapStart(s: Sys, id: SpaceId, a: nat, b: nat)
    requires id in s.spaces
    ensures Unmapped(s, id, a, b, 0) == s && UnmapVmas(s.spaces[id].vmas[..0], a, b) == []
  {
    var v := s.spaces[id].vmas;
    assert v[..0] == [] && [] + v[0..] == v;
    assert s.spaces[id := s.spaces[id]] == s.spaces;
  }

  lemma SortedNext(v: seq<Vma>, j: nat)
    requires Sorted(v) && 0 < j <= |v|
    ensures j < |v| ==> v[j - 1].end <= v[j].start
  {
  }

  lemma UnmapSkip(s: Sys, id: SpaceId, a: nat, b: nat, j: nat)
    requires Valid(s) && id in s.spaces && a < b && j < |s.spaces[id].vmas| && s.spaces[id].vmas[j].end <= a
    ensures Unmapped(s, id, a, b, j + 1) == Unmapped(s, id, a, b, j)
    ensures |UnmapVmas(s.spaces[id].vmas[..j + 1], a, b)| == |UnmapVmas(s.spaces[id].vmas[..j], a, b)| + 1
  {
    var v := s.spaces[id].vmas;
    assert Lawful(s.spaces[id]);
    assert Outside(v[j], a, b) == [v[j]];
    UnmapNext(s, id, a, b, j);
    UnmapVmasNext(v, a, b, j);
    hide *;
    Regroup(UnmapVmas(v[..j], a, b), v, j);
  }

  lemma Regroup(u: seq<Vma>, v: seq<Vma>, j: nat)
    requires j < |v|
    ensures (u + [v[j]]) + v[j + 1..] == u + v[j..]
  {
    assert [v[j]] + v[j + 1..] == v[j..];
  }

  /** What the loop sees: the next area, at the place the loop has reached. */
  lemma UnmapAt(s: Sys, id: SpaceId, a: nat, b: nat, j: nat)
    requires id in s.spaces && j <= |s.spaces[id].vmas|
    ensures var v, s1 := s.spaces[id].vmas, Unmapped(s, id, a, b, j);
            var w, i := s1.spaces[id].vmas, |UnmapVmas(v[..j], a, b)|;
            && id in s1.spaces && |w| == i + |v| - j && (j < |v| ==> w[i] == v[j])
  {
  }

  /** The step, once it is known that the loop did not fail for want of a new area. */
  lemma UnmapStep(s: Sys, id: SpaceId, a: nat, b: nat, oom: bool, j: nat)
    requires id in s.spaces && a < b && j <= |s.spaces[id].vmas| && Sorted(s.spaces[id].vmas)
    requires oom ==> forall k :: 0 <= k < j ==> !(s.spaces[id].vmas[k].start < a && b < s.spaces[id].vmas[k].end)
    requires j < |s.spaces[id].vmas| ==> b <= s.spaces[id].vmas[j].start
    ensures Step(s, Unmap(id, a, b, oom)) == SetVmas(DropPages(s, id, a, b), id, UnmapVmas(s.spaces[id].vmas, a, b))
    ensures !(oom && Inside(s.spaces[id].vmas, a, b))
  {
    var v := s.spaces[id].vmas;
    if oom {
      forall k | j <= k < |v|
        ensures b <= v[k].start
      {
        if k > j { assert v[j].end <= v[k].start; }
      }
      assert !Inside(v, a, b);
    }
  }

  lemma DropCounted(s: Sys, id: SpaceId, a: nat, c: nat, w: seq<Vma>)
    requires Valid(s) && id in s.spaces
    ensures Counted(SetVmas(DropPages(s, id, a, c), id, w))
  {
    assert Lawful(s.spaces[id]);
    LawfulSeen(s.spaces[id]);
    DropPagesSpec(s, id, a, c);
    SetVmasSame(DropPages(s, id, a, c), id, w);
  }

  /** One area that meets the range, from the state before it to the state after it. */
  lemma UnmapTake(s: Sys, id: SpaceId, a: nat, b: nat, j: nat)
    requires Valid(s) && id in s.spaces && a < b && j < |s.spaces[id].vmas|
    requires a < s.spaces[id].vmas[j].end && s.spaces[id].vmas[j].start < b
    ensures var v, s1 := s.spaces[id].vmas, Unmapped(s, id, a, b, j);
            var x, w, i := v[j], s1.spaces[id].vmas, |UnmapVmas(v[..j], a, b)|;
            && Counted(s1) && i < |w| && w[i] == x
            && SetVmas(DropPages(s1, id, Max(x.start, a), Min(x.end, b)), id, w[..i] + Outside(x, a, b) + w[i + 1..])
               == Unmapped(s, id, a, b, j + 1)
            && |UnmapVmas(v[..j + 1], a, b)| == i + |Outside(x, a, b)|
  {
    hide Valid, Lawful, Counted, Pooled, Private, DropPages, UnmapVmas, Outside, Cursor;
    var v, s1 := s.spaces[id].vmas, Unmapped(s, id, a, b, j);
    var x, w, c := v[j], s1.spaces[id].vmas, Cursor(v, j, a, b);
    DropCounted(s, id, a, c, w);
    UnmapVmasNext(v, a, b, j);
    UnmapNext(s, id, a, b, j);
    DropSetVmas(DropPages(s, id, a, c), id, Max(x.start, a), Min(x.end, b), w);
  }

  /** Out of memory for the second half of a split area: the pages are gone, the area stays. */
  lemma UnmapFailed(s: Sys, id: SpaceId, a: nat, b: nat, j: nat)
    requires Valid(s) && id in s.spaces && a < b && j < |s.spaces[id].vmas|
    requires s.spaces[id].vmas[j].start < a && b < s.spaces[id].vmas[j].end
    ensures var v, s1 := s.spaces[id].vmas, Unmapped(s, id, a, b, j);
            Inside(v, a, b) && SetVmas(DropPages(s1, id, a, b), id, s1.spaces[id].vmas) == Step(s, Unmap(id, a, b, true))
  {
    hide Valid, DropPages, UnmapVmas, Cursor, Sorted;
    var v, s1 := s.spaces[id].vmas, Unmapped(s, id, a, b, j);
    ValidSorted(s, id);
    UnmapBefore(v, a, b, j);
    CursorBefore(s, v, id, a, b, j);
    DropSetVmas(s, id, a, b, v);
    KeepsVmas(s, id, a, b);
    assert Inside(v, a, b);
    assert s.spaces[id := s.spaces[id]] == s.spaces;
  }

  lemma CursorBefore(s: Sys, v: seq<Vma>, id: SpaceId, a: nat, b: nat, j: nat)
    requires id in s.spaces && Sorted(v) && j < |v| && v[j].start < a
    ensures DropPages(s, id, a, Cursor(v, j, a, b)) == s
  {
    if j > 0 { assert v[j - 1].end <= v[j].start; }
  }

  lemma UnmapBefore(v: seq<Vma>, a: nat, b: nat, j: nat)
    requires Sorted(v) && j < |v| && v[j].start < a <= b
    ensures UnmapVmas(v[..j], a, b) + v[j..] == v
  {
    UnmapVmasBelow(v[..j], a, b);
    assert v[..j] + v[j..] == v;
  }

  lemma {:induction false} UnmapVmasBelow(v: seq<Vma>, a: nat, b: nat)
    requires Sorted(v) && Upto(v, a) && a <= b
    ensures UnmapVmas(v, a, b) == v
  {
    if v != [] {
      assert v == [v[0]] + v[1..];
      assert Outside(v[0], a, b) == [v[0]];
      UnmapVmasBelow(v[1..], a, b);
    }
  }

  // ----- Forking and destroying, area by area -----

  /** The areas of both sides while a fork is under way. */
  lemma CloneVmasAt(s: Sys, from: SpaceId, to: SpaceId, i: nat)
    requires Forkable(s, from, to) && i <= |s.spaces[from].vmas|
    ensures var v := s.spaces[from].vmas;
            var s' := CloneVmas(s, from, to, v, i);
            s'.spaces[from].vmas == v && s'.spaces[to].vmas == v[..i]
  {
    CloneVmasSpec(s, from, to, i);
  }

  lemma {:induction false} PlaceLast(v: seq<Vma>, start: nat)
    requires forall i :: 0 <= i < |v| ==> v[i].start <= start
    ensures Place(v, start) == |v|
  {
    if v != [] { PlaceLast(v[1..], start); }
  }

  /** A forked area goes to the end of the child's tree. */
  lemma CloneInserts(v: seq<Vma>, i: nat)
    requires Sorted(v) && i < |v|
    ensures Insert(v[..i], v[i]) == v[..i] + [v[i]]
  {
    PlaceLast(v[..i], v[i].start);
    assert v[..i][..i] == v[..i] && v[..i][i..] == [];
  }

  lemma ShareKeepsVmas(s: Sys, from: SpaceId, to: SpaceId, a: nat, b: nat, perm: Perm)
    requires from in s.spaces && to in s.spaces
    ensures SharePages(s, from, to, a, b, perm).spaces[to].vmas == s.spaces[to].vmas
    decreases b
  {
    if a < b { ShareKeepsVmas(s, from, to, a, b - 1, perm); }
  }

  /**
   Destroying looks pages up in a table from which nothing is removed: what is dropped so far is
   out of the way, so the rest of the table is still as it was.
   */
  lemma DestroyLookup(s: Sys, id: SpaceId, i: nat, addr: nat)
    requires id in s.spaces && i < |s.spaces[id].vmas| && Sorted(s.spaces[id].vmas)
    requires s.spaces[id].vmas[i].start <= addr < s.spaces[id].vmas[i].end
    ensures var v, t := s.spaces[id].vmas, s.spaces[id].table;
            var d := DropPages(DropVmas(s, id, v, i), id, v[i].start, addr);
            && (addr in d.spaces[id].table <==> addr in t)
            && (addr in t ==> d.spaces[id].table[addr] == t[addr])
  {
    hide DropPages, DropVmas;
    var v, t := s.spaces[id].vmas, s.spaces[id].table;
    DropVmasFrame(s, id, v, i);
    DropPagesFrame(DropVmas(s, id, v, i), id, v[i].start, addr);
    assert PermAt(v[..i], addr).None? by {
      forall k | 0 <= k < |v[..i]|
        ensures !v[..i][k].Has(addr)
      {
        assert v[k].end <= v[i].start;
      }
      PermAtNone(v[..i], addr);
    }
  }

  lemma DestroyEnd(s: Sys, id: SpaceId)
    requires id in s.spaces
    ensures var v := s.spaces[id].vmas;
            var d := DropVmas(s, id, v, |v|);
            DestroyStep(s, id) == Sys(s.spaces - {id}, d.refs, d.pool, s.mem)
  {
    hide DropVmas;
    DropVmasFrame(s, id, s.spaces[id].vmas, |s.spaces[id].vmas|);
  }

  lemma CloneStart(s: Sys, from: SpaceId, to: SpaceId)
    requires Valid(s) && from in s.spaces && to !in s.spaces
    ensures Forkable(s.(spaces := s.spaces[to := Space([], map[])]), from, to)
  {
    AddEmpty(s, to);
    assert Lawful(s.spaces[from]);
  }

  /** What `lookup` finds. */
  predicate Found(s: Sys, id: SpaceId, p: nat) {
    && id in s.spaces && p in s.spaces[id].table && s.spaces[id].table[p].Seen()
    && s.spaces[id].table[p].frame in s.refs
  }

  lemma {:induction false} ShareKeepsEntry(s: Sys, from: SpaceId, to: SpaceId, a: nat, b: nat, perm: Perm, p: nat)
    requires Found(s, from, p) && to in s.spaces && from != to && b <= p
    ensures Found(SharePages(s, from, to, a, b, perm), from, p)
    decreases b
  {
    if a < b { ShareKeepsEntry(s, from, to, a, b - 1, perm, p); }
  }

  lemma ShareOne(s: Sys, from: SpaceId, to: SpaceId, p: nat, perm: Perm)
    requires from in s.spaces && to in s.spaces && from != to
    ensures SharePage(s, from, to, p, perm) ==
            if !Found(s, from, p) then s
            else
              var e := s.spaces[from].table[p];
              var s1 := if perm.w then SetPte(s, from, p, e.MakeCow()) else s;
              Incref(SetPte(s1, to, p, Share(e.frame, perm)), e.frame)
  {
  }

  lemma EndInside(sp: Space, end: CloneEnd)
    requires CanEnd(sp, end)
    ensures end.NoArea? || end.NoTable? ==> end.i < |sp.vmas|
    ensures end.NoTable? ==> sp.vmas[end.i].Has(end.p)
  {
  }

  /** The state in which a failed fork destroys the child. */
  lemma ForkReady(s: Sys, id: SpaceId, child: SpaceId, end: CloneEnd)
    requires Valid(s) && id in s.spaces && child !in s.spaces
    requires CanEnd(s.spaces[id], end) && (end.NoArea? || end.NoTable?)
    ensures var s1 := Before(s, id, child, end); Counted(s1) && Sorted(s1.spaces[child].vmas)
    ensures CloneStep(s, id, child, end) == DestroyStep(Before(s, id, child, end), child)
  {
    hide Counted, Pooled, Private, ParentTable, ChildTable, DestroyStep, CloneVmas, ClonePart;
    BeforeSpec(s, id, child, end);
    ValidSorted(s, id);
  }

  lemma ForkFinds(s: Sys, from: SpaceId, to: SpaceId, i: nat, p: nat)
    requires Forkable(s, from, to) && CanEnd(s.spaces[from], NoTable(i, p))
    ensures Found(CloneVmas(s, from, to, s.spaces[from].vmas, i), from, p)
  {
    var sp := s.spaces[from];
    var s1 := CloneVmas(s, from, to, sp.vmas, i);
    CloneVmasSpec(s, from, to, i);
    PartPerm(sp, i);
    assert p !in Forked(sp.table, sp.vmas[..i]);
    EntryIsCounted(s1, from, p);
  }

  lemma CloneVmasNone(s: Sys, from: SpaceId, to: SpaceId, v: seq<Vma>)
    requires from in s.spaces && to in s.spaces
    ensures CloneVmas(s, from, to, v, 0) == s
  {
  }

  lemma CloneVmasMore(s: Sys, from: SpaceId, to: SpaceId, v: seq<Vma>, i: nat)
    requires from in s.spaces && to in s.spaces && i < |v|
    ensures var s1 := SharePages(CloneVmas(s, from, to, v, i), from, to, v[i].start, v[i].end, v[i].perm);
            CloneVmas(s, from, to, v, i + 1) == SetVmas(s1, to, s1.spaces[to].vmas + [v[i]])
  {
  }

  lemma DropVmasNone(s: Sys, id: SpaceId, v: seq<Vma>)
    requires id in s.spaces
    ensures DropVmas(s, id, v, 0) == s
  {
  }

  lemma DropVmasMore(s: Sys, id: SpaceId, v: seq<Vma>, i: nat)
    requires id in s.spaces && i < |v|
    ensures DropVmas(s, id, v, i + 1) == DropPages(DropVmas(s, id, v, i), id, v[i].start, v[i].end)
  {
  }

  // ----- Faults -----

  /** The entry has the bit that the access needs, is a user entry, and has been accessed and written as far as the hardware can tell. */
  predicate GoesThrough(t: map<nat, Pte>, p: nat, cause: Cause) {
    p in t && t[p].u && t[p].ad && match cause case Read => t[p].r case Write => t[p].w case Exec => t[p].x
  }

  /**
   What the fault handler finds: a mapped page is seen and counted, and an access goes through if and
   only if the area allows it and it does not write to a COW page.
   */
  lemma FaultEntry(s: Sys, id: SpaceId, p: nat, cause: Cause)
    requires Valid(s) && id in s.spaces
    ensures s.pool !! s.refs.Keys
    ensures PermAt(s.spaces[id].vmas, p).Some? ==> PermAt(s.spaces[id].vmas, p).value.u
    ensures var t, v := s.spaces[id].table, s.spaces[id].vmas;
            p in t ==> && t[p].Seen() && t[p].frame in s.refs && t[p].frame in s.mem
                       && (GoesThrough(t, p, cause) <==> MayAccess(v, p, cause) && !(cause.Write? && t[p].cow))
  {
    assert Lawful(s.spaces[id]);
    if p in s.spaces[id].table {
      EntryIsCounted(s, id, p);
    }
  }

  class Vmm {
    var spaces: map<SpaceId, Space>
    var refs: map<Frame, nat>
    var pool: set<Frame>
    var mem: map<Frame, Contents>

    ghost function State(): Sys
      reads this
    {
      Sys(spaces, refs, pool, mem)
    }

    /** No spaces yet, and every frame free. */
    constructor (mem: map<Frame, Contents>)
      ensures State() == Sys(map[], map[], mem.Keys, mem) && Valid(State())
    {
      spaces, refs, pool, this.mem := map[], map[], mem.Keys, mem;
      new;
      assert forall f :: Mappers(spaces, f) == {};
    }

    /** `page_decref`. */
    method PageDecref(f: Frame)
      requires f in refs
      modifies this
      ensures State() == Decref(old(State()), f)
    {
      var n := refs[f];
      if n <= 1 {
        refs := refs - {f};
        pool := pool + {f};
      } else {
        refs := refs[f := n - 1];
      }
    }

    /** The loop over the pages of [a, b) that unmaps each one that is there. */
    method DropRange(id: SpaceId, a: nat, b: nat)
      requires id in spaces && Counted(State()) && a <= b
      modifies this
      ensures State() == DropPages(old(State()), id, a, b)
    {
      ghost var s0 := State();
      var addr := a;
      while addr < b
        invariant a <= addr <= b && id in spaces && State() == DropPages(s0, id, a, addr)
        invariant id in s0.spaces && spaces[id].table.Keys <= s0.spaces[id].table.Keys
      {
        var t := spaces[id].table;
        if addr in t && t[addr].Seen() && t[addr].frame in refs {
          PageDecref(t[addr].frame);
          spaces := spaces[id := spaces[id].(table := spaces[id].table - {addr})];
        }
        addr := addr + 1;
      }
    }

    /** `vmm_unmap_user`. `oom` is whether a new area could not be had. */
    method UnmapUser(id: SpaceId, va: nat, len: nat, oom: bool) returns (ret: int)
      requires id in spaces && Valid(State()) && va < U64 && len < U64
      modifies this
      ensures State() == match PageRange(va, len)
                         case Pages(a, b) => Step(old(State()), Unmap(id, a, b, oom))
                         case _ => old(State())
      ensures ret == match PageRange(va, len)
                     case Pages(a, b) => if oom && Inside(old(spaces[id].vmas), a, b) then -ENOMEM else 0
                     case Invalid => -EINVAL
                     case Empty => 0
    {
      ret := 0;
      match PageRange(va, len) {
        case Empty =>
        case Invalid => ret := -EINVAL;
        case Pages(a, b) => ret := UnmapPages(id, a, b, oom);
      }
    }

    method UnmapPages(id: SpaceId, a: nat, b: nat, oom: bool) returns (ret: int)
      requires id in spaces && Valid(State()) && a < b
      modifies this
      ensures State() == Step(old(State()), Unmap(id, a, b, oom))
      ensures ret == if oom && Inside(old(spaces[id].vmas), a, b) then -ENOMEM else 0
    {
      hide Valid, Unmapped, DropPages, UnmapVmas, Outside, Step, Counted, Sorted, Inside, SetVmas;
      ghost var s0 := State();
      ghost var v0 := spaces[id].vmas;
      ghost var j := 0;
      var i := 0;
      UnmapStart(s0, id, a, b);
      ValidSorted(s0, id);
      while i < |spaces[id].vmas|
        invariant id in spaces && id in s0.spaces && j <= |v0| && State() == Unmapped(s0, id, a, b, j)
        invariant i == |UnmapVmas(v0[..j], a, b)|
        invariant oom ==> forall k :: 0 <= k < j ==> !(v0[k].start < a && b < v0[k].end)
        decreases |v0| - j
      {
        var vmas := spaces[id].vmas;
        UnmapAt(s0, id, a, b, j);
        var vma := vmas[i];
        if vma.end <= a {
          UnmapSkip(s0, id, a, b, j);
          i, j := i + 1, j + 1;
          continue;
        }
        if vma.start >= b {
          break;
        }
        UnmapTake(s0, id, a, b, j);
        var last;
        ret, last := UnmapOne(id, i, vma, a, b, oom);
        if ret != 0 {
          UnmapFailed(s0, id, a, b, j);
          return;
        }
        i, j := i + |Outside(vma, a, b)|, j + 1;
        UnmapAt(s0, id, a, b, j);
        if last {
          SortedNext(v0, j);
          break;
        }
      }
      UnmapAt(s0, id, a, b, j);
      UnmapDone(s0, id, a, b, j);
      UnmapStep(s0, id, a, b, oom, j);
      ret := 0;
    }

    /**
     Unmap [a, b) from the area at place `i`, which it meets: drop its pages there and trim, split or
     remove it. `last` tells that the area goes on after `b`.
     */
    method UnmapOne(id: SpaceId, i: nat, vma: Vma, a: nat, b: nat, oom: bool) returns (ret: int, last: bool)
      requires id in spaces && i < |spaces[id].vmas| && spaces[id].vmas[i] == vma
      requires Counted(State()) && a < b && a < vma.end && vma.start < b && vma.start < vma.end
      modifies this
      ensures ret == if oom && vma.start < a && b < vma.end then -ENOMEM else 0
      ensures last ==> b < vma.end
      ensures var v, s := old(spaces[id].vmas), DropPages(old(State()), id, Max(vma.start, a), Min(vma.end, b));
              State() == SetVmas(s, id, if ret != 0 then v else v[..i] + Outside(vma, a, b) + v[i + 1..])
    {
      var v := spaces[id].vmas;
      var start, end := Max(vma.start, a), Min(vma.end, b);
      DropRange(id, start, end);
      KeepsVmas(old(State()), id, start, end);
      ret, last := 0, false;
      if start == vma.start && end == vma.end {
        assert Outside(vma, a, b) == [] && v[..i] + [] == v[..i];
        v := v[..i] + v[i + 1..];
      } else if start == vma.start {
        assert Outside(vma, a, b) == [vma.(start := end)];
        v := v[..i] + [vma.(start := end)] + v[i + 1..];
      } else if end == vma.end {
        assert Outside(vma, a, b) == [vma.(end := start)];
        v := v[..i] + [vma.(end := start)] + v[i + 1..];
      } else {
        assert Outside(vma, a, b) == [vma.(end := start), vma.(start := end)];
        if oom {
          ret := -ENOMEM;
          return;
        }
        v := v[..i] + [vma.(end := start), vma.(start := end)] + v[i + 1..];
        last := true;
      }
      spaces := spaces[id := spaces[id].(vmas := v)];
    }

    // ----- Mapping -----

    /** `vma_overlaps_locked`. */
    method VmaOverlaps(id: SpaceId, a: nat, b: nat) returns (r: bool)
      requires id in spaces
      ensures r <==> AnyOverlap(spaces[id].vmas, a, b)
    {
      var v, i := spaces[id].vmas, 0;
      while i < |v|
        invariant i <= |v| && forall k :: 0 <= k < i ==> !Overlap(a, b, v[k])
      {
        if Overlap(a, b, v[i]) {
          return true;
        }
        i := i + 1;
      }
      return false;
    }

    /** `vma_try_merge_neighbors_locked` on the area at place `k`. */
    method MergeNeighbors(id: SpaceId, k: nat)
      requires id in spaces && k < |spaces[id].vmas|
      modifies this
      ensures var v1 := old(spaces[id].vmas);
              var v2 := Merge(v1, k - 1);
              State() == SetVmas(old(State()), id, Merge(v2, if |v2| < |v1| then k - 1 else k))
    {
      var v, i := spaces[id].vmas, k;
      if i > 0 && v[i - 1].end == v[i].start && v[i - 1].perm == v[i].perm {
        v := v[..i - 1] + [v[i - 1].(end := v[i].end)] + v[i + 1..];
        i := i - 1;
      }
      if i + 1 < |v| && v[i].end == v[i + 1].start && v[i].perm == v[i + 1].perm {
        v := v[..i] + [v[i].(end := v[i + 1].end)] + v[i + 2..];
      }
      spaces := spaces[id := spaces[id].(vmas := v)];
    }

    /** `vmm_map_user`. `oom` is whether a new area could not be had. */
    method MapUser(id: SpaceId, va: nat, len: nat, perm: Perm, oom: bool) returns (ret: int)
      requires id in spaces && va < U64 && len < U64
      modifies this
      ensures match PageRange(va, len)
              case Empty => ret == 0 && State() == old(State())
              case Invalid => ret == -EINVAL && State() == old(State())
              case Pages(a, b) =>
                && State() == (if oom then old(State()) else Step(old(State()), Map(id, a, b, perm)))
                && ret == if oom then -ENOMEM else if AnyOverlap(old(spaces[id].vmas), a, b) then -EINVAL else 0
    {
      hide Merge, PageRange, AnyOverlap;
      match PageRange(va, len) {
        case Empty => return 0;
        case Invalid => return -EINVAL;
        case Pages(a, b) =>
          if oom {
            return -ENOMEM;
          }
          var overlaps := VmaOverlaps(id, a, b);
          if overlaps {
            return -EINVAL;
          }
          var v, x := spaces[id].vmas, Vma(a, b, perm.User());
          var k := Place(v, a);
          spaces := spaces[id := spaces[id].(vmas := v[..k] + [x] + v[k..])];
          MergeNeighbors(id, k);
          return 0;
      }
    }

    // ----- Protecting -----

    /** `vma_range_covered_locked`. */
    method RangeCovered(id: SpaceId, a: nat, b: nat) returns (r: bool)
      requires id in spaces && Sorted(spaces[id].vmas)
      ensures r <==> Covered(spaces[id].vmas, a, b)
    {
      var v, cursor, i := spaces[id].vmas, a, 0;
      while i < |v| && cursor < b
        invariant i <= |v| && a <= cursor
        invariant forall p: nat :: a <= p < cursor ==> PermAt(v, p).Some?
        invariant forall k :: 0 <= k < i ==> v[k].end <= cursor
      {
        if v[i].end <= cursor {
          i := i + 1;
          continue;
        }
        if v[i].start > cursor {
          assert PermAt(v, cursor).None? by { PermAtNone(v, cursor); }
          return false;
        }
        forall p: nat | cursor <= p < v[i].end
          ensures PermAt(v, p).Some?
        {
          PermAtIndex(v, i, p);
        }
        cursor := v[i].end;
        i := i + 1;
      }
      if cursor < b {
        assert PermAt(v, cursor).None? by { PermAtNone(v, cursor); }
      }
      return cursor >= b;
    }

    /** `vma_split_locked` on the area that has page `key`, found with rb_find. */
    method SplitVma(id: SpaceId, key: nat, split: nat, oom: bool) returns (ret: int)
      requires id in spaces && Sorted(spaces[id].vmas) && key <= split <= key + 1
      requires PermAt(spaces[id].vmas, key).Some?
      modifies this
      ensures ret == if oom && NeedsCut(old(spaces[id].vmas), split) then -ENOMEM else 0
      ensures State() == if ret != 0 then old(State()) else SetVmas(old(State()), id, Cut(old(spaces[id].vmas), split))
    {
      var v := spaces[id].vmas;
      FindPerm(v, key);
      var i := FindVma(v, key).value;
      if split <= v[i].start || split >= v[i].end {
        assert !NeedsCut(v, split);
        CutNone(v, split);
        assert spaces[id := spaces[id]] == spaces;
        return 0;
      }
      assert Straddles(v[i], split);
      if oom {
        return -ENOMEM;
      }
      CutAtIndex(v, split, i);
      spaces := spaces[id := spaces[id].(vmas := v[..i] + [v[i].(end := split), v[i].(start := split)] + v[i + 1..])];
      return 0;
    }

    /** The loop over the pages of one area. */
    method ProtectRange(id: SpaceId, a: nat, b: nat, perm: Perm)
      requires id in spaces && a <= b
      modifies this
      ensures State() == ProtectPages(old(State()), id, a, b, perm)
    {
      ghost var s0 := State();
      var addr := a;
      while addr < b
        invariant a <= addr <= b && id in spaces && id in s0.spaces && State() == ProtectPages(s0, id, a, addr, perm)
      {
        var t := spaces[id].table;
        if addr in t && t[addr].Seen() {
          if perm.Zero() {
            if t[addr].frame in refs {
              PageDecref(t[addr].frame);
              spaces := spaces[id := spaces[id].(table := spaces[id].table - {addr})];
            }
          } else {
            var pte := Own(t[addr].frame, perm.User());
            if perm.w && t[addr].cow {
              pte := pte.(w := false, cow := true);
            }
            spaces := spaces[id := spaces[id].(table := t[addr := pte])];
          }
        }
        addr := addr + 1;
      }
    }

    /** `vmm_protect_user`. `oomAt` is which of the two splits, if any, finds no memory. */
    method ProtectUser(id: SpaceId, va: nat, len: nat, perm: Perm, oomAt: nat) returns (ret: int)
      requires id in spaces && Valid(State()) && va < U64 && len < U64
      modifies this
      ensures match PageRange(va, len)
              case Pages(a, b) =>
                && State() == Step(old(State()), Protect(id, a, b, perm, oomAt))
                && (var v := old(spaces[id].vmas);
                    ret == if !Covered(v, a, b) || (oomAt == 1 && NeedsCut(v, a)) || (oomAt == 2 && NeedsCut(v, b)) then -ENOMEM else 0)
              case _ => State() == old(State()) && ret == -EINVAL
    {
      match PageRange(va, len) {
        case Empty => return -EINVAL;
        case Invalid => return -EINVAL;
        case Pages(a, b) => ret := ProtectArea(id, a, b, perm, oomAt);
      }
    }

    method ProtectArea(id: SpaceId, a: nat, b: nat, perm: Perm, oomAt: nat) returns (ret: int)
      requires id in spaces && Valid(State()) && a < b
      modifies this
      ensures State() == Step(old(State()), Protect(id, a, b, perm, oomAt))
      ensures var v := old(spaces[id].vmas);
              ret == if !Covered(v, a, b) || (oomAt == 1 && NeedsCut(v, a)) || (oomAt == 2 && NeedsCut(v, b)) then -ENOMEM else 0
    {
      hide Valid, ProtectPages, ProtectVmas, Cut, SetPerms, PermAt, NeedsCut;
      ghost var s0, v := State(), spaces[id].vmas;
      ValidSorted(s0, id);
      var covered := RangeCovered(id, a, b);
      if !covered {
        return -ENOMEM;
      }
      CutTwice(v, a, b);
      ret := SplitVma(id, a, a, oomAt == 1);
      if ret < 0 {
        return;
      }
      ret := SplitVma(id, b - 1, b, oomAt == 2);
      if ret < 0 {
        return;
      }
      ProtectAll(id, a, b, perm);
      ProtectFinish(s0, id, a, b, perm);
      ret := 0;
    }

    /** The loop over the areas of the range, which are cut out of the list already. */
    method ProtectAll(id: SpaceId, a: nat, b: nat, perm: Perm)
      requires id in spaces && CutOut(spaces[id].vmas, a, b) && a < b
      modifies this
      ensures State() == Protecting(old(State()), id, old(spaces[id].vmas), a, b, perm)
    {
      hide ProtectPages, Protecting, SetPerms, PermAt, Sorted;
      ghost var s0, w := State(), spaces[id].vmas;
      FindCut(w, a, b);
      var i := FindVma(spaces[id].vmas, a).value;
      ghost var c := a;
      ProtectStart(s0, id, w, a, b, perm);
      while i < |spaces[id].vmas|
        invariant id in spaces && id in s0.spaces && a <= c <= b && i <= |w|
        invariant State() == Protecting(s0, id, w, a, c, perm) && |spaces[id].vmas| == |w|
        invariant (i > 0 ==> w[i - 1].end <= c) && (i < |w| ==> c <= w[i].start)
        invariant i < |w| ==> spaces[id].vmas[i] == w[i]
        decreases |w| - i
      {
        var vma := spaces[id].vmas[i];
        if vma.start >= b {
          break;
        }
        if vma.end <= a {
          NextArea(w, a, b, i, c);
          assert false;
        }
        NextArea(w, a, b, i, c);
        ProtectNext(s0, id, w, a, i, c, perm);
        spaces := spaces[id := spaces[id].(vmas := spaces[id].vmas[i := vma.(perm := perm.User())])];
        ProtectRange(id, vma.start, vma.end, perm);
        c := vma.end;
        i := i + 1;
        AreaAfter(s0, id, w, a, i, c, perm);
      }
      if c < b { NextArea(w, a, b, i, c); }
    }

    // ----- Faults -----

    method CopyContents(src: Contents) returns (dst: Contents)
      ensures dst == src
    {
      dst := [];
      for i := 0 to |src|
        invariant dst == src[..i]
      {
        dst := dst + [src[i]];
      }
    }

    /**
     `vmm_handle_page_fault`. `frame` is what the page allocator hands out and `tables` whether there
     is memory for page-table pages; a page that is mapped already needs none.
     */
    method HandlePageFault(id: SpaceId, addr: nat, cause: Cause, frame: Option<Frame>, tables: bool) returns (ret: int)
      requires id in spaces && Valid(State()) && (frame.Some? ==> frame.value in pool)
      modifies this
      ensures State() == Step(old(State()), Fault(id, addr / PAGE, cause, frame, tables))
      ensures ret == 0 || ret == -EFAULT || ret == -ENOMEM
      ensures ret == -EFAULT <==> !MayAccess(old(spaces[id].vmas), addr / PAGE, cause)
      ensures ret == 0 <==> GoesThrough(spaces[id].table, addr / PAGE, cause)
    {
      hide Valid, PermAt, Counted, Private, Mappers, Sorted, Lawful;
      var p := addr / PAGE;
      var v, t := spaces[id].vmas, spaces[id].table;
      ValidSorted(State(), id);
      FindPerm(v, p);
      FaultEntry(State(), id, p, cause);
      var found := FindVma(v, p);
      if found.None? {
        return -EFAULT;
      }
      var vma := v[found.value];
      if !Allows(vma.perm, cause) {
        return -EFAULT;
      }
      if p in t && t[p].Seen() {
        if cause.Write? && t[p].cow {
          if frame.None? {
            return -ENOMEM;
          }
          var f, g := frame.value, t[p].frame;
          refs, pool := refs[f := 1], pool - {f};
          var contents := CopyContents(mem[g]);
          mem := mem[f := contents];
          spaces := spaces[id := spaces[id].(table := t[p := Own(f, vma.perm)])];
          PageDecref(g);
          return 0;
        }
        return 0;
      }
      if frame.None? {
        return -ENOMEM;
      }
      var f := frame.value;
      refs, pool := refs[f := 1], pool - {f};
      if !tables {
        refs, pool := refs - {f}, pool + {f};
        return -ENOMEM;
      }
      spaces := spaces[id := spaces[id].(table := t[p := Own(f, vma.perm)])];
      return 0;
    }

    // ----- Forking -----

    /**
     The loop over the pages of one area of a fork. Page `noTable`, if there is one, cannot be mapped
     in the child.
     */
    method ShareRange(from: SpaceId, to: SpaceId, a: nat, b: nat, perm: Perm, noTable: Option<nat>) returns (ok: bool)
      requires from in spaces && to in spaces && from != to && a <= b
      requires noTable.Some? ==> a <= noTable.value < b && Found(State(), from, noTable.value)
      modifies this
      ensures ok == noTable.None?
      ensures State() == if ok then SharePages(old(State()), from, to, a, b, perm)
                         else SharePart(old(State()), from, to, a, noTable.value, perm)
    {
      hide SharePage;
      ghost var s0 := State();
      var va := a;
      while va < b
        invariant a <= va <= b && from in spaces && to in spaces && from in s0.spaces && to in s0.spaces
        invariant State() == SharePages(s0, from, to, a, va, perm)
        invariant noTable.Some? ==> va <= noTable.value
      {
        if noTable.Some? { ShareKeepsEntry(s0, from, to, a, va, perm, noTable.value); }
        var t := spaces[from].table;
        ShareOne(State(), from, to, va, perm);
        if va in t && t[va].Seen() && t[va].frame in refs {
          var f := t[va].frame;
          if perm.w {
            spaces := spaces[from := spaces[from].(table := t[va := t[va].MakeCow()])];
          }
          var pte := Own(f, perm);
          if perm.w {
            pte := pte.(w := false, cow := true);
          }
          if noTable == Some(va) {
            return false;
          }
          spaces := spaces[to := spaces[to].(table := spaces[to].table[va := pte])];
          refs := refs[f := refs[f] + 1];
        }
        va := va + 1;
      }
      return true;
    }

    /** `vmm_clone` into the new space `child`. `end` tells where memory runs out, if it does. */
    method CloneSpace(id: SpaceId, child: SpaceId, end: CloneEnd) returns (ok: bool)
      requires id in spaces && child !in spaces && Valid(State()) && CanEnd(spaces[id], end)
      modifies this
      ensures ok == end.Done?
      ensures State() == Step(old(State()), Clone(id, child, end))
    {
      hide Valid, SharePages, CloneVmas, Forkable, Sorted, DestroyStep, SharePart, CanEnd;
      ghost var s, v := State(), spaces[id].vmas;
      if end.NoSpace? {
        NothingDone(s, id, child);
        return false;
      }
      ValidSorted(s, id);
      CloneStart(s, id, child);
      EndInside(spaces[id], end);
      spaces := spaces[child := Space([], map[])];
      ghost var s0 := State();
      CloneVmasNone(s0, id, child, v);
      var i := 0;
      while i < |spaces[id].vmas|
        invariant id in spaces && child in spaces && id in s0.spaces && child in s0.spaces && i <= |v|
        invariant State() == CloneVmas(s0, id, child, v, i) && spaces[id].vmas == v
        invariant end.NoArea? || end.NoTable? ==> i <= end.i
        decreases |v| - i
      {
        CloneVmasAt(s0, id, child, i);
        if end == NoArea(i) {
          ForkReady(s, id, child, end);
          DestroySpace(child);
          return false;
        }
        var vma := spaces[id].vmas[i];
        ShareKeepsVmas(State(), id, child, vma.start, vma.end, vma.perm);
        CloneInserts(v, i);
        CloneVmasMore(s0, id, child, v, i);
        var noTable := if end.NoTable? && end.i == i then Some(end.p) else None;
        if noTable.Some? { ForkFinds(s0, id, child, i, end.p); }
        ok := ShareRange(id, child, vma.start, vma.end, vma.perm, noTable);
        if !ok {
          ForkReady(s, id, child, end);
          DestroySpace(child);
          return;
        }
        spaces := spaces[child := spaces[child].(vmas := Insert(spaces[child].vmas, vma))];
        i := i + 1;
        CloneVmasAt(s0, id, child, i);
      }
      return true;
    }

    // ----- Destroying -----

    /** `VmSpace::destroy`: counts go down page by page, then the whole table goes at once. */
    method DestroySpace(id: SpaceId)
      requires id in spaces && Counted(State()) && Sorted(spaces[id].vmas)
      modifies this
      ensures State() == DestroyStep(old(State()), id)
    {
      hide Counted, Sorted, DropVmas, DropPages, DestroyStep;
      ghost var s, v := State(), spaces[id].vmas;
      var i := 0;
      DropVmasNone(s, id, v);
      while i < |spaces[id].vmas|
        invariant id in spaces && i <= |v| && spaces == s.spaces && mem == s.mem
        invariant var d := DropVmas(s, id, v, i); refs == d.refs && pool == d.pool
      {
        var vma := spaces[id].vmas[i];
        DecrefRange(s, id, i);
        DropVmasMore(s, id, v, i);
        i := i + 1;
      }
      DestroyEnd(s, id);
      spaces := spaces - {id};
    }

    /** The loop over the pages of one area. Entries stay in the table. */
    method DecrefRange(ghost s: Sys, id: SpaceId, i: nat)
      requires id in spaces && i < |spaces[id].vmas| && Sorted(spaces[id].vmas) && spaces == s.spaces
      requires var d := DropVmas(s, id, spaces[id].vmas, i); refs == d.refs && pool == d.pool
      modifies this
      ensures spaces == old(spaces) && mem == old(mem)
      ensures var x := spaces[id].vmas[i];
              var d := DropPages(DropVmas(s, id, spaces[id].vmas, i), id, x.start, x.end);
              refs == d.refs && pool == d.pool
    {
      hide DropVmas;
      var vma := spaces[id].vmas[i];
      ghost var s1 := DropVmas(s, id, spaces[id].vmas, i);
      var addr := vma.start;
      while addr < vma.end
        invariant vma.start <= addr <= vma.end && spaces == old(spaces) && mem == old(mem)
        invariant var d := DropPages(s1, id, vma.start, addr); refs == d.refs && pool == d.pool
      {
        DestroyLookup(s, id, i, addr);
        var t := spaces[id].table;
        if addr in t && t[addr].Seen() && t[addr].frame in refs {
          PageDecref(t[addr].frame);
        }
        addr := addr + 1;
      }
    }
  }
}
