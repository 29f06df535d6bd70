/**
 User address spaces that share physical frames copy-on-write: page tables, reference counts and
 frame contents as one value, and the steps that the address-space operations are made of.
 */
module AddressSpace {
  import opened VmaList

  type Frame = nat
  type SpaceId = nat
  type Contents = seq<bv8>

  /** A valid user leaf entry: frame, R, W, X and U bits, whether A and D are both set, and the software COW bit. */
  datatype Pte = Pte(frame: Frame, r: bool, w: bool, x: bool, u: bool, ad: bool, cow: bool) {
    /** What `pmap::lookup` takes for a leaf. */
    predicate Seen() { r || w || x }

    /** `pmap::make_cow`. */
    function MakeCow(): Pte { this.(w := false, cow := true) }
  }

  /** `pmap::vm_perm_to_pte`: a fresh private entry. */
  function Own(f: Frame, perm: Perm): Pte { Pte(f, perm.r, perm.w, perm.x, perm.u, true, false) }

  /** The entry that a clone or a protect call writes for a page that is shared. */
  function Share(f: Frame, perm: Perm): Pte { Pte(f, perm.r, false, perm.x, perm.u, true, perm.w) }

  datatype Space = Space(vmas: seq<Vma>, table: map<nat, Pte>)

  datatype Sys = Sys(spaces: map<SpaceId, Space>, refs: map<Frame, nat>, pool: set<Frame>, mem: map<Frame, Contents>)

  /** Pages below 2^39, the addresses that the page table can tell apart. */
  const PAGE_LIMIT: nat := 0x8000000

  // ----- The invariant -----

  /** The page-table entries that point to frame `f`. */
  ghost function Mappers(spaces: map<SpaceId, Space>, f: Frame): set<(SpaceId, nat)> {
    set id, p | id in spaces && p in spaces[id].table && spaces[id].table[p].frame == f :: (id, p)
  }

  /** Every reference count is the number of entries that point to the frame. */
  ghost predicate Counted(s: Sys) {
    forall f :: CountedAt(s.refs, f, Mappers(s.spaces, f))
  }

  ghost predicate CountedAt(refs: map<Frame, nat>, f: Frame, mappers: set<(SpaceId, nat)>) {
    if f in refs then refs[f] == |mappers| && mappers != {} else mappers == {}
  }

  lemma EntryIsCounted(s: Sys, id: SpaceId, p: nat)
    requires Counted(s) && id in s.spaces && p in s.spaces[id].table
    ensures var f := s.spaces[id].table[p].frame;
            f in s.refs && s.refs[f] == |Mappers(s.spaces, f)| && s.refs[f] >= 1 && (id, p) in Mappers(s.spaces, f)
  {
    var f := s.spaces[id].table[p].frame;
    assert CountedAt(s.refs, f, Mappers(s.spaces, f));
    assert (id, p) in Mappers(s.spaces, f);
  }

  /** Every frame is either free or in use. */
  ghost predicate Pooled(s: Sys) {
    s.pool !! s.refs.Keys && s.pool + s.refs.Keys == s.mem.Keys
  }

  /** A writable entry is the only one to its frame. */
  ghost predicate Private(s: Sys) {
    forall id, p :: id in s.spaces && p in s.spaces[id].table ==> PrivateAt(s.refs, s.spaces[id].table[p])
  }

  predicate PrivateAt(refs: map<Frame, nat>, e: Pte) {
    e.w ==> e.frame in refs && refs[e.frame] == 1
  }

  /** An entry is seen and grants exactly what the area does, except that a COW entry withholds W. */
  predicate Fits(e: Pte, perm: Perm) {
    e.r == perm.r && e.x == perm.x && e.u == perm.u && e.ad && (e.w || e.cow) == perm.w && !(e.w && e.cow) && e.Seen()
  }

  ghost predicate Lawful(sp: Space) {
    && Sorted(sp.vmas)
    && (forall p: nat :: PermAt(sp.vmas, p).Some? ==> LawfulPage(p, PermAt(sp.vmas, p).value))
    && (forall p :: p in sp.table ==> PermAt(sp.vmas, p).Some? && Fits(sp.table[p], PermAt(sp.vmas, p).value))
  }

  /** U is set, and the page is below 2^39. */
  predicate LawfulPage(p: nat, perm: Perm) {
    perm.u && p < PAGE_LIMIT
  }

  ghost predicate Valid(s: Sys) {
    Counted(s) && Pooled(s) && Private(s) && forall id :: id in s.spaces ==> Lawful(s.spaces[id])
  }

  // ----- Reference counts -----

  /** `page_decref`: the last reference returns the frame to the pool. */
  function Decref(s: Sys, f: Frame): Sys
    requires f in s.refs
  {
    if s.refs[f] <= 1 then s.(refs := s.refs - {f}, pool := s.pool + {f})
    else s.(refs := s.refs[f := s.refs[f] - 1])
  }

  function Incref(s: Sys, f: Frame): Sys
    requires f in s.refs
  {
    s.(refs := s.refs[f := s.refs[f] + 1])
  }

  /** `pmm_alloc_page` handing out frame `f`. */
  function Alloc(s: Sys, f: Frame): Sys {
    s.(refs := s.refs[f := 1], pool := s.pool - {f})
  }

  function SetPte(s: Sys, id: SpaceId, p: nat, e: Pte): Sys
    requires id in s.spaces
  {
    s.(spaces := s.spaces[id := s.spaces[id].(table := s.spaces[id].table[p := e])])
  }

  function ClearPte(s: Sys, id: SpaceId, p: nat): Sys
    requires id in s.spaces
  {
    s.(spaces := s.spaces[id := s.spaces[id].(table := s.spaces[id].table - {p})])
  }

  lemma MappersHas(spaces: map<SpaceId, Space>, f: Frame, id: SpaceId, p: nat)
    ensures (id, p) in Mappers(spaces, f) <==>
            id in spaces && p in spaces[id].table && spaces[id].table[p].frame == f
  {
  }

  lemma MappersSet(s: Sys, id: SpaceId, p: nat, e: Pte, f: Frame)
    requires id in s.spaces
    ensures Mappers(SetPte(s, id, p, e).spaces, f) ==
            (Mappers(s.spaces, f) - {(id, p)}) + (if e.frame == f then {(id, p)} else {})
  {
  }

  lemma MappersClear(s: Sys, id: SpaceId, p: nat, f: Frame)
    requires id in s.spaces
    ensures Mappers(ClearPte(s, id, p).spaces, f) == Mappers(s.spaces, f) - {(id, p)}
  {
  }

  /** A frame is in the pool exactly when no entry points to it. */
  lemma FreeIffUnmapped(s: Sys, f: Frame)
    requires Counted(s) && Pooled(s) && f in s.mem
    ensures f in s.pool <==> Mappers(s.spaces, f) == {}
  {
    assert CountedAt(s.refs, f, Mappers(s.spaces, f));
  }

  /** Changing the bits of an entry, but not its frame, changes no count. */
  lemma RewriteCounted(s: Sys, id: SpaceId, p: nat, e: Pte)
    requires Counted(s) && Pooled(s) && id in s.spaces && p in s.spaces[id].table && e.frame == s.spaces[id].table[p].frame
    ensures Counted(SetPte(s, id, p, e)) && Pooled(SetPte(s, id, p, e))
  {
    hide Mappers;
    forall f
      ensures CountedAt(s.refs, f, Mappers(SetPte(s, id, p, e).spaces, f))
    {
      MappersSet(s, id, p, e, f);
      MappersHas(s.spaces, f, id, p);
      assert CountedAt(s.refs, f, Mappers(s.spaces, f));
      assert Mappers(SetPte(s, id, p, e).spaces, f) == Mappers(s.spaces, f);
    }
  }

  /** One more entry to a frame, and one more reference. */
  lemma AddCounted(s: Sys, id: SpaceId, p: nat, e: Pte)
    requires Counted(s) && Pooled(s) && id in s.spaces && p !in s.spaces[id].table && e.frame in s.refs
    ensures Counted(Incref(SetPte(s, id, p, e), e.frame)) && Pooled(Incref(SetPte(s, id, p, e), e.frame))
  {
    var s' := Incref(SetPte(s, id, p, e), e.frame);
    hide Mappers;
    forall f
      ensures CountedAt(s'.refs, f, Mappers(s'.spaces, f))
    {
      MappersSet(s, id, p, e, f);
      MappersHas(s.spaces, f, id, p);
      assert CountedAt(s.refs, f, Mappers(s.spaces, f));
    }
  }

  // ----- Dropping a page -----

  /** Unmap page `p` of space `id`, if `lookup` sees it. */
  function DropPage(s: Sys, id: SpaceId, p: nat): Sys
    requires id in s.spaces
  {
    var t := s.spaces[id].table;
    if p in t && t[p].Seen() && t[p].frame in s.refs then ClearPte(Decref(s, t[p].frame), id, p) else s
  }

  lemma DropPageCounted(s: Sys, id: SpaceId, p: nat)
    requires Counted(s) && Pooled(s) && id in s.spaces
    ensures Counted(DropPage(s, id, p)) && Pooled(DropPage(s, id, p))
  {
    var t, s' := s.spaces[id].table, DropPage(s, id, p);
    if s' != s {
      var g := t[p].frame;
      EntryIsCounted(s, id, p);
      hide Mappers;
      forall f
        ensures CountedAt(s'.refs, f, Mappers(s'.spaces, f))
      {
        MappersClear(Decref(s, g), id, p, f);
        MappersHas(s.spaces, f, id, p);
        assert CountedAt(s.refs, f, Mappers(s.spaces, f));
      }
    }
  }

  lemma DropPagePrivate(s: Sys, id: SpaceId, p: nat)
    requires Counted(s) && Private(s) && id in s.spaces
    ensures Private(DropPage(s, id, p))
  {
    var t, s' := s.spaces[id].table, DropPage(s, id, p);
    if s' != s {
      var g := t[p].frame;
      EntryIsCounted(s, id, p);
      forall i, q | i in s'.spaces && q in s'.spaces[i].table
        ensures PrivateAt(s'.refs, s'.spaces[i].table[q])
      {
        assert s'.spaces[i].table[q] == s.spaces[i].table[q] && (i, q) != (id, p);
        assert PrivateAt(s.refs, s.spaces[i].table[q]);
        if s.spaces[i].table[q].frame == g {
          EntryIsCounted(s, i, q);
          AnotherMember(Mappers(s.spaces, g), (id, p), (i, q));
        }
      }
    }
  }

  lemma AnotherMember<T>(m: set<T>, a: T, b: T)
    requires a in m && b in m && a != b
    ensures |m| >= 2
  {
    assert |m - {a}| == |m| - 1;
    assert b in m - {a};
  }

  // ----- Filling a page -----

  /** A fault on an absent page: map the fresh frame `f` with the area's permissions. */
  function FillPage(s: Sys, id: SpaceId, p: nat, f: Frame, perm: Perm): Sys
    requires id in s.spaces
  {
    SetPte(Alloc(s, f), id, p, Own(f, perm))
  }

  /** A write fault on a COW page: copy it to the fresh frame `f` and let go of the old one. */
  function CopyPage(s: Sys, id: SpaceId, p: nat, f: Frame, perm: Perm): Sys
    requires id in s.spaces && p in s.spaces[id].table
  {
    var g := s.spaces[id].table[p].frame;
    var s1 := Alloc(s, f);
    var s2 := if g in s.mem then s1.(mem := s.mem[f := s.mem[g]]) else s1;
    var s3 := SetPte(s2, id, p, Own(f, perm));
    if g in s3.refs then Decref(s3, g) else s3
  }

  /** The count of one frame when the new entry `x` takes the fresh frame `f`. */
  lemma AddedCount(refs: map<Frame, nat>, f: Frame, h: Frame, m: set<(SpaceId, nat)>, x: (SpaceId, nat))
    requires CountedAt(refs, h, m) && f !in refs && x !in m
    ensures CountedAt(refs[f := 1], h, (m - {x}) + (if f == h then {x} else {}))
  {
    assert m - {x} == m;
  }

  lemma FillPageCounted(s: Sys, id: SpaceId, p: nat, f: Frame, perm: Perm)
    requires Counted(s) && Pooled(s) && id in s.spaces && p !in s.spaces[id].table && f in s.pool
    ensures Counted(FillPage(s, id, p, f, perm)) && Pooled(FillPage(s, id, p, f, perm))
  {
    hide Mappers, CountedAt;
    var s' := FillPage(s, id, p, f, perm);
    forall h
      ensures CountedAt(s'.refs, h, Mappers(s'.spaces, h))
    {
      MappersSet(Alloc(s, f), id, p, Own(f, perm), h);
      MappersHas(s.spaces, h, id, p);
      assert CountedAt(s.refs, h, Mappers(s.spaces, h));
      AddedCount(s.refs, f, h, Mappers(s.spaces, h), (id, p));
    }
  }

  lemma FillPagePrivate(s: Sys, id: SpaceId, p: nat, f: Frame, perm: Perm)
    requires Counted(s) && Pooled(s) && Private(s) && id in s.spaces && p !in s.spaces[id].table && f in s.pool
    ensures Private(FillPage(s, id, p, f, perm))
  {
    var s' := FillPage(s, id, p, f, perm);
    forall i, q | i in s'.spaces && q in s'.spaces[i].table
      ensures PrivateAt(s'.refs, s'.spaces[i].table[q])
    {
      if (i, q) != (id, p) {
        assert s'.spaces[i].table[q] == s.spaces[i].table[q];
        assert PrivateAt(s.refs, s.spaces[i].table[q]);
        EntryIsCounted(s, i, q);
      }
    }
  }

  /** The count of one frame when entry `x` moves from frame `g` to the fresh frame `f`. */
  lemma MovedCount(refs: map<Frame, nat>, refs': map<Frame, nat>, f: Frame, g: Frame, h: Frame,
                   m: set<(SpaceId, nat)>, x: (SpaceId, nat))
    requires CountedAt(refs, h, m) && f !in refs && g in refs && (x in m <==> h == g)
    requires h != f && h != g ==> (h in refs' <==> h in refs) && (h in refs ==> refs'[h] == refs[h])
    requires h == f ==> f in refs' && refs'[f] == 1
    requires h == g ==> (g in refs' <==> refs[g] > 1) && (g in refs' ==> refs'[g] == refs[g] - 1)
    ensures CountedAt(refs', h, (m - {x}) + (if f == h then {x} else {}))
  {
    if h == g {
      assert |m - {x}| == |m| - 1;
    } else {
      assert m - {x} == m;
    }
  }

  /** What a COW copy does to the counts and the pool. */
  lemma CopyPageRefs(s: Sys, id: SpaceId, p: nat, f: Frame, perm: Perm)
    requires Pooled(s) && id in s.spaces && p in s.spaces[id].table && f in s.pool
    requires s.spaces[id].table[p].frame in s.refs && s.refs[s.spaces[id].table[p].frame] >= 1
    ensures var g, s' := s.spaces[id].table[p].frame, CopyPage(s, id, p, f, perm);
            && s'.refs == (if s.refs[g] > 1 then s.refs[f := 1][g := s.refs[g] - 1] else s.refs[f := 1] - {g})
            && s'.spaces == SetPte(s, id, p, Own(f, perm)).spaces && Pooled(s')
  {
  }

  lemma CopyPageCounted(s: Sys, id: SpaceId, p: nat, f: Frame, perm: Perm)
    requires Counted(s) && Pooled(s) && id in s.spaces && p in s.spaces[id].table && f in s.pool
    ensures Counted(CopyPage(s, id, p, f, perm)) && Pooled(CopyPage(s, id, p, f, perm))
  {
    hide Mappers, CountedAt, CopyPage;
    var s' := CopyPage(s, id, p, f, perm);
    var g := s.spaces[id].table[p].frame;
    EntryIsCounted(s, id, p);
    CopyPageRefs(s, id, p, f, perm);
    forall h
      ensures CountedAt(s'.refs, h, Mappers(s'.spaces, h))
    {
      MappersSet(s, id, p, Own(f, perm), h);
      MappersHas(s.spaces, h, id, p);
      assert CountedAt(s.refs, h, Mappers(s.spaces, h));
      MovedCount(s.refs, s'.refs, f, g, h, Mappers(s.spaces, h), (id, p));
    }
  }

  lemma CopyPagePrivate(s: Sys, id: SpaceId, p: nat, f: Frame, perm: Perm)
    requires Counted(s) && Pooled(s) && Private(s) && id in s.spaces && p in s.spaces[id].table && f in s.pool
    ensures Private(CopyPage(s, id, p, f, perm))
  {
    var s' := CopyPage(s, id, p, f, perm);
    var g := s.spaces[id].table[p].frame;
    EntryIsCounted(s, id, p);
    forall i, q | i in s'.spaces && q in s'.spaces[i].table
      ensures PrivateAt(s'.refs, s'.spaces[i].table[q])
    {
      if (i, q) != (id, p) {
        assert s'.spaces[i].table[q] == s.spaces[i].table[q];
        assert PrivateAt(s.refs, s.spaces[i].table[q]);
        EntryIsCounted(s, i, q);
        if s.spaces[i].table[q].frame == g { AnotherMember(Mappers(s.spaces, g), (id, p), (i, q)); }
      }
    }
  }

  // ----- Sharing a page with a clone -----

  /** One page of a fork: both sides keep the frame, read-only and marked COW if the area is writable. */
  function SharePage(s: Sys, from: SpaceId, to: SpaceId, p: nat, perm: Perm): Sys
    requires from in s.spaces && to in s.spaces
  {
    var t := s.spaces[from].table;
    if p in t && t[p].Seen() && t[p].frame in s.refs then
      var s1 := if perm.w then SetPte(s, from, p, t[p].MakeCow()) else s;
      Incref(SetPte(s1, to, p, Share(t[p].frame, perm)), t[p].frame)
    else s
  }

  lemma SharePageCounted(s: Sys, from: SpaceId, to: SpaceId, p: nat, perm: Perm)
    requires Counted(s) && Pooled(s) && from in s.spaces && to in s.spaces && from != to && p !in s.spaces[to].table
    ensures Counted(SharePage(s, from, to, p, perm)) && Pooled(SharePage(s, from, to, p, perm))
  {
    var t, s' := s.spaces[from].table, SharePage(s, from, to, p, perm);
    if s' != s {
      var g := t[p].frame;
      var s1 := if perm.w then SetPte(s, from, p, t[p].MakeCow()) else s;
      if perm.w { RewriteCounted(s, from, p, t[p].MakeCow()); }
      AddCounted(s1, to, p, Share(g, perm));
    }
  }

  lemma SharePagePrivate(s: Sys, from: SpaceId, to: SpaceId, p: nat, perm: Perm)
    requires Counted(s) && Private(s) && from in s.spaces && to in s.spaces && from != to && p !in s.spaces[to].table
    requires p in s.spaces[from].table && s.spaces[from].table[p].w ==> perm.w
    ensures Private(SharePage(s, from, to, p, perm))
  {
    var t, s' := s.spaces[from].table, SharePage(s, from, to, p, perm);
    if s' != s {
      var g := t[p].frame;
      EntryIsCounted(s, from, p);
      forall i, q | i in s'.spaces && q in s'.spaces[i].table
        ensures PrivateAt(s'.refs, s'.spaces[i].table[q])
      {
        if (i, q) != (from, p) && (i, q) != (to, p) {
          assert s'.spaces[i].table[q] == s.spaces[i].table[q];
          assert PrivateAt(s.refs, s.spaces[i].table[q]);
          EntryIsCounted(s, i, q);
          if s.spaces[i].table[q].frame == g { AnotherMember(Mappers(s.spaces, g), (from, p), (i, q)); }
        }
      }
    }
  }
}
