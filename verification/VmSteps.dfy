/**
 The address-space operations as steps of one system, and exactly which of them keep its invariant.
 */
module VmSteps {
  import opened Options
  import opened VmaList
  import opened AddressSpace

  datatype Cause = Read | Write | Exec

  /**
   The operations. Where the source can run out of memory the operation says so: `oom` for a new
   area, `frame` for a page frame and `tables` for page-table pages. Ranges are pages [a, b). A store
   is a store instruction of a program: it faults first if its entry has no W.
   */
  datatype Op =
    | Create(id: SpaceId)
    | Map(id: SpaceId, a: nat, b: nat, perm: Perm)
    | Unmap(id: SpaceId, a: nat, b: nat, oom: bool)
    | Protect(id: SpaceId, a: nat, b: nat, perm: Perm, oomAt: nat)
    | Fault(id: SpaceId, p: nat, cause: Cause, frame: Option<Frame>, tables: bool)
    | Clone(id: SpaceId, child: SpaceId, end: CloneEnd)
    | Destroy(id: SpaceId)
    | Store(id: SpaceId, p: nat, data: Contents, frame: Option<Frame>, tables: bool)

  /**
   How a fork ends: with a child; without memory for the child itself or for its area number `i`; or,
   in area number `i`, without a page-table page to map page `p`.
   */
  datatype CloneEnd = Done | NoSpace | NoArea(i: nat) | NoTable(i: nat, p: nat)

  // ----- Ranges of pages -----

  function DropPages(s: Sys, id: SpaceId, a: nat, b: nat): (s': Sys)
    requires id in s.spaces
    ensures id in s'.spaces
    decreases b
  {
    if b <= a then s else DropPage(DropPages(s, id, a, b - 1), id, b - 1)
  }

  /** The table without the pages of [a, b). */
  function Without(t: map<nat, Pte>, a: nat, b: nat): map<nat, Pte> {
    map p | p in t && !(a <= p < b) :: t[p]
  }

  ghost predicate AllSeen(t: map<nat, Pte>) {
    forall p :: p in t ==> t[p].Seen()
  }

  /** Dropping a range unmaps exactly that range and keeps counts, pool and privacy right. */
  lemma {:induction false} DropPagesSpec(s: Sys, id: SpaceId, a: nat, b: nat)
    requires Counted(s) && Pooled(s) && Private(s) && id in s.spaces && AllSeen(s.spaces[id].table)
    ensures var s' := DropPages(s, id, a, b);
            && Counted(s') && Pooled(s') && Private(s') && s'.mem == s.mem
            && s'.spaces == s.spaces[id := s.spaces[id].(table := Without(s.spaces[id].table, a, b))]
    decreases b
  {
    hide Counted, Pooled, Private, DropPage;
    if b <= a {
      assert Without(s.spaces[id].table, a, b) == s.spaces[id].table;
    } else {
      DropPagesSpec(s, id, a, b - 1);
      var s1 := DropPages(s, id, a, b - 1);
      DropPageCounted(s1, id, b - 1);
      DropPagePrivate(s1, id, b - 1);
      DropPageTable(s1, id, b - 1);
      assert Without(s.spaces[id].table, a, b) == Without(s.spaces[id].table, a, b - 1) - {b - 1};
    }
  }

  lemma DropPageTable(s: Sys, id: SpaceId, p: nat)
    requires Counted(s) && id in s.spaces && (p in s.spaces[id].table ==> s.spaces[id].table[p].Seen())
    ensures var s' := DropPage(s, id, p);
            s'.mem == s.mem && s'.spaces == s.spaces[id := s.spaces[id].(table := s.spaces[id].table - {p})]
  {
    if p in s.spaces[id].table {
      EntryIsCounted(s, id, p);
    } else {
      assert s.spaces[id].table - {p} == s.spaces[id].table;
    }
  }

  /** `pmap::protect` as `vmm_protect_user` calls it: a COW mark survives as long as W is granted. */
  function ProtectPte(e: Pte, perm: Perm): Pte {
    if perm.w && e.cow then Share(e.frame, perm.User()) else Own(e.frame, perm.User())
  }

  function ProtectPage(s: Sys, id: SpaceId, p: nat, perm: Perm): Sys
    requires id in s.spaces
  {
    var t := s.spaces[id].table;
    if p !in t || !t[p].Seen() then s
    else if perm.Zero() then DropPage(s, id, p)
    else SetPte(s, id, p, ProtectPte(t[p], perm))
  }

  function ProtectPages(s: Sys, id: SpaceId, a: nat, b: nat, perm: Perm): (s': Sys)
    requires id in s.spaces
    ensures id in s'.spaces
    decreases b
  {
    if b <= a then s else ProtectPage(ProtectPages(s, id, a, b - 1, perm), id, b - 1, perm)
  }

  function Protected(t: map<nat, Pte>, a: nat, b: nat, perm: Perm): map<nat, Pte> {
    if perm.Zero() then Without(t, a, b)
    else map p | p in t :: if a <= p < b then ProtectPte(t[p], perm) else t[p]
  }

  lemma {:induction false} ProtectPagesSpec(s: Sys, id: SpaceId, a: nat, b: nat, perm: Perm)
    requires Counted(s) && Pooled(s) && id in s.spaces && AllSeen(s.spaces[id].table)
    ensures var s' := ProtectPages(s, id, a, b, perm);
            && Counted(s') && Pooled(s') && s'.mem == s.mem
            && s'.spaces == s.spaces[id := s.spaces[id].(table := Protected(s.spaces[id].table, a, b, perm))]
            && (!perm.Zero() ==> s'.refs == s.refs)
    decreases b
  {
    hide Counted, Pooled, Protected, Without;
    var t := s.spaces[id].table;
    ProtectedNext(t, a, b, perm);
    if a < b {
      ProtectPagesSpec(s, id, a, b - 1, perm);
      var s1 := ProtectPages(s, id, a, b - 1, perm);
      if b - 1 in t {
        if perm.Zero() {
          DropPageCounted(s1, id, b - 1);
          DropPageTable(s1, id, b - 1);
        } else {
          RewriteCounted(s1, id, b - 1, ProtectPte(t[b - 1], perm));
        }
      }
    }
  }

  lemma ProtectedNext(t: map<nat, Pte>, a: nat, b: nat, perm: Perm)
    ensures b <= a ==> Protected(t, a, b, perm) == t
    ensures a < b ==>
              var t1 := Protected(t, a, b - 1, perm);
              && (b - 1 in t1 <==> b - 1 in t) && (b - 1 in t ==> t1[b - 1] == t[b - 1])
              && Protected(t, a, b, perm) == (if b - 1 !in t then t1
                                              else if perm.Zero() then t1 - {b - 1}
                                              else t1[b - 1 := ProtectPte(t[b - 1], perm)])
  {
  }

  lemma ZeroProtectIsDrop(s: Sys, id: SpaceId, a: nat, b: nat, perm: Perm)
    requires id in s.spaces && perm.Zero()
    ensures ProtectPages(s, id, a, b, perm) == DropPages(s, id, a, b)
    decreases b
  {
    if a < b { ZeroProtectIsDrop(s, id, a, b - 1, perm); }
  }

  function SharePages(s: Sys, from: SpaceId, to: SpaceId, a: nat, b: nat, perm: Perm): (s': Sys)
    requires from in s.spaces && to in s.spaces
    ensures from in s'.spaces && to in s'.spaces
    decreases b
  {
    if b <= a then s else SharePage(SharePages(s, from, to, a, b - 1, perm), from, to, b - 1, perm)
  }

  /** The entries of [a, b), as both sides of a fork have them. */
  function Shared(t: map<nat, Pte>, a: nat, b: nat, perm: Perm): map<nat, Pte> {
    map p | p in t && a <= p < b :: Share(t[p].frame, perm)
  }

  /** The parent's entries of [a, b) fit the permissions that the fork shares them with. */
  ghost predicate FitRange(t: map<nat, Pte>, a: nat, b: nat, perm: Perm) {
    forall p :: p in t && a <= p < b ==> Fits(t[p], perm)
  }

  /** Sharing a range gives both sides the same entries and keeps counts, pool and privacy right. */
  lemma {:induction false} SharePagesSpec(s: Sys, from: SpaceId, to: SpaceId, a: nat, b: nat, perm: Perm)
    requires Counted(s) && Pooled(s) && Private(s) && from in s.spaces && to in s.spaces && from != to
    requires FitRange(s.spaces[from].table, a, b, perm)
    requires forall p :: a <= p < b ==> p !in s.spaces[to].table
    ensures var s', t, u := SharePages(s, from, to, a, b, perm), s.spaces[from], s.spaces[to];
            && Counted(s') && Pooled(s') && Private(s') && s'.mem == s.mem
            && s'.spaces == s.spaces[from := t.(table := t.table + Shared(t.table, a, b, perm))]
                                    [to := u.(table := u.table + Shared(t.table, a, b, perm))]
    decreases b
  {
    hide Counted, Pooled, Private, FitRange, Shared, SharePage, Fits;
    var t, u := s.spaces[from].table, s.spaces[to].table;
    if b <= a {
      SharedNone(t, t, a, b, perm);
      SharedNone(t, u, a, b, perm);
    } else {
      FitRangeLess(t, a, b, perm);
      SharePagesSpec(s, from, to, a, b - 1, perm);
      SharePagesNext(s, from, to, a, b, perm);
    }
  }

  lemma SharedNone(t: map<nat, Pte>, u: map<nat, Pte>, a: nat, b: nat, perm: Perm)
    requires b <= a
    ensures u + Shared(t, a, b, perm) == u
  {
  }

  lemma FitRangeLess(t: map<nat, Pte>, a: nat, b: nat, perm: Perm)
    requires a < b && FitRange(t, a, b, perm)
    ensures FitRange(t, a, b - 1, perm) && (b - 1 in t ==> Fits(t[b - 1], perm))
  {
  }

  /** One more page is shared. */
  lemma SharePagesNext(s: Sys, from: SpaceId, to: SpaceId, a: nat, b: nat, perm: Perm)
    requires from in s.spaces && to in s.spaces && from != to && a < b
    requires b - 1 in s.spaces[from].table ==> Fits(s.spaces[from].table[b - 1], perm)
    requires b - 1 !in s.spaces[to].table
    requires var s1, t, u := SharePages(s, from, to, a, b - 1, perm), s.spaces[from], s.spaces[to];
             && Counted(s1) && Pooled(s1) && Private(s1) && s1.mem == s.mem
             && s1.spaces == s.spaces[from := t.(table := t.table + Shared(t.table, a, b - 1, perm))]
                                     [to := u.(table := u.table + Shared(t.table, a, b - 1, perm))]
    ensures var s', t, u := SharePages(s, from, to, a, b, perm), s.spaces[from], s.spaces[to];
            && Counted(s') && Pooled(s') && Private(s') && s'.mem == s.mem
            && s'.spaces == s.spaces[from := t.(table := t.table + Shared(t.table, a, b, perm))]
                                    [to := u.(table := u.table + Shared(t.table, a, b, perm))]
  {
    hide Counted, Pooled, Private, Shared, SharePage;
    var t, u := s.spaces[from].table, s.spaces[to].table;
    var s1 := SharePages(s, from, to, a, b - 1, perm);
    SharedKeys(t, a, b - 1, perm);
    SharePageCounted(s1, from, to, b - 1, perm);
    SharePagePrivate(s1, from, to, b - 1, perm);
    SharePageTables(s1, from, to, b - 1, perm);
    SharedStep(t, t, a, b, perm);
    SharedStep(t, u, a, b, perm);
  }

  lemma SharedKeys(t: map<nat, Pte>, a: nat, b: nat, perm: Perm)
    ensures b !in Shared(t, a, b, perm)
  {
  }

  lemma SharedStep(t: map<nat, Pte>, u: map<nat, Pte>, a: nat, b: nat, perm: Perm)
    requires a < b
    ensures u + Shared(t, a, b, perm) ==
            if b - 1 in t then (u + Shared(t, a, b - 1, perm))[b - 1 := Share(t[b - 1].frame, perm)]
            else u + Shared(t, a, b - 1, perm)
  {
  }

  lemma SharePageTables(s: Sys, from: SpaceId, to: SpaceId, p: nat, perm: Perm)
    requires Counted(s) && from in s.spaces && to in s.spaces && from != to
    requires p in s.spaces[from].table ==> Fits(s.spaces[from].table[p], perm)
    ensures var s', t, u := SharePage(s, from, to, p, perm), s.spaces[from], s.spaces[to];
            && s'.mem == s.mem
            && s'.spaces == if p !in t.table then s.spaces
                            else s.spaces[from := t.(table := t.table[p := Share(t.table[p].frame, perm)])]
                                         [to := u.(table := u.table[p := Share(t.table[p].frame, perm)])]
  {
    var t := s.spaces[from].table;
    if p in t {
      EntryIsCounted(s, from, p);
      if perm.w {
        assert t[p].MakeCow() == Share(t[p].frame, perm);
      } else {
        assert t[p] == Share(t[p].frame, perm);
        assert t[p := t[p]] == t;
        assert s.spaces[from := s.spaces[from]] == s.spaces;
      }
    }
  }

  // ----- Fork -----

  function SetVmas(s: Sys, id: SpaceId, v: seq<Vma>): Sys
    requires id in s.spaces
  {
    s.(spaces := s.spaces[id := s.spaces[id].(vmas := v)])
  }

  /** The areas matter to no count, and to no privacy. */
  lemma SetVmasSame(s: Sys, id: SpaceId, v: seq<Vma>)
    requires id in s.spaces && Counted(s) && Pooled(s)
    ensures var s' := SetVmas(s, id, v); Counted(s') && Pooled(s') && (Private(s') <==> Private(s))
  {
    var s' := SetVmas(s, id, v);
    forall f
      ensures CountedAt(s'.refs, f, Mappers(s'.spaces, f))
    {
      assert Mappers(s'.spaces, f) == Mappers(s.spaces, f);
      assert CountedAt(s.refs, f, Mappers(s.spaces, f));
    }
    assert forall i, p :: i in s.spaces && p in s.spaces[i].table ==> s'.spaces[i].table[p] == s.spaces[i].table[p];
  }

  /** The fork after the first `i` areas of the parent. */
  function CloneVmas(s: Sys, from: SpaceId, to: SpaceId, v: seq<Vma>, i: nat): (s': Sys)
    requires from in s.spaces && to in s.spaces && i <= |v|
    ensures from in s'.spaces && to in s'.spaces
  {
    if i == 0 then s
    else
      var x := v[i - 1];
      var s1 := SharePages(CloneVmas(s, from, to, v, i - 1), from, to, x.start, x.end, x.perm);
      SetVmas(s1, to, s1.spaces[to].vmas + [x])
  }

  /** The entries that both sides have for the pages of the areas in `v`. */
  ghost function Forked(t: map<nat, Pte>, v: seq<Vma>): map<nat, Pte> {
    map p | p in t && PermAt(v, p).Some? :: Share(t[p].frame, PermAt(v, p).value)
  }

  /** A parent that may be forked, and an empty child. */
  ghost predicate Forkable(s: Sys, from: SpaceId, to: SpaceId) {
    && Counted(s) && Pooled(s) && Private(s) && from in s.spaces && to in s.spaces && from != to
    && Lawful(s.spaces[from]) && s.spaces[to] == Space([], map[])
  }

  lemma {:induction false} CloneVmasSpec(s: Sys, from: SpaceId, to: SpaceId, i: nat)
    requires Forkable(s, from, to) && i <= |s.spaces[from].vmas|
    ensures var v, t := s.spaces[from].vmas, s.spaces[from].table;
            var s' := CloneVmas(s, from, to, v, i);
            && Counted(s') && Pooled(s') && Private(s') && s'.mem == s.mem
            && s'.spaces == s.spaces[from := Space(v, t + Forked(t, v[..i]))][to := Space(v[..i], Forked(t, v[..i]))]
  {
    if i == 0 {
      CloneVmasStart(s, from, to);
    } else {
      CloneVmasSpec(s, from, to, i - 1);
      CloneVmasNext(s, from, to, i);
    }
  }

  lemma CloneVmasStart(s: Sys, from: SpaceId, to: SpaceId)
    requires Forkable(s, from, to)
    ensures var v, t := s.spaces[from].vmas, s.spaces[from].table;
            s.spaces == s.spaces[from := Space(v, t + Forked(t, v[..0]))][to := Space(v[..0], Forked(t, v[..0]))]
  {
    var v, t := s.spaces[from].vmas, s.spaces[from].table;
    assert Forked(t, v[..0]) == map[];
    assert t + map[] == t && v[..0] == [];
  }

  lemma CloneVmasNext(s: Sys, from: SpaceId, to: SpaceId, i: nat)
    requires Forkable(s, from, to) && 0 < i <= |s.spaces[from].vmas|
    requires var v, t := s.spaces[from].vmas, s.spaces[from].table;
             var s0, g := CloneVmas(s, from, to, v, i - 1), Forked(t, v[..i - 1]);
             && Counted(s0) && Pooled(s0) && Private(s0) && s0.mem == s.mem
             && s0.spaces == s.spaces[from := Space(v, t + g)][to := Space(v[..i - 1], g)]
    ensures var v, t := s.spaces[from].vmas, s.spaces[from].table;
            var s', g := CloneVmas(s, from, to, v, i), Forked(t, v[..i]);
            && Counted(s') && Pooled(s') && Private(s') && s'.mem == s.mem
            && s'.spaces == s.spaces[from := Space(v, t + g)][to := Space(v[..i], g)]
  {
    var v, t := s.spaces[from].vmas, s.spaces[from].table;
    var s0 := CloneVmas(s, from, to, v, i - 1);
    var x, g := v[i - 1], Forked(t, v[..i - 1]);
    ForkedNext(s.spaces[from], i);
    assert v[..i - 1] + [x] == v[..i];
    assert from != to && from in s0.spaces && to in s0.spaces;
    assert s0.spaces[from] == Space(v, t + g) && s0.spaces[to] == Space(v[..i - 1], g);
    hide Counted, Pooled, Private, Lawful, Forked, Shared, PermAt, FitRange, SharePages, Forkable;
    SharePagesSpec(s0, from, to, x.start, x.end, x.perm);
    var s1 := SharePages(s0, from, to, x.start, x.end, x.perm);
    var sh := Shared(t, x.start, x.end, x.perm);
    PlusAssoc(t, g, sh);
    assert s1.spaces[to] == Space(v[..i - 1], g + sh);
    SetVmasSame(s1, to, v[..i]);
    Overwrite(s.spaces, from, to, Space(v, t + g), Space(v[..i - 1], g),
              Space(v, t + (g + sh)), Space(v[..i - 1], g + sh), Space(v[..i], g + sh));
  }

  lemma PlusAssoc<K, V>(a: map<K, V>, b: map<K, V>, c: map<K, V>)
    ensures (a + b) + c == a + (b + c)
  {
  }

  lemma Overwrite<K, V>(m: map<K, V>, k: K, l: K, a: V, b: V, a': V, b': V, b'': V)
    requires k != l
    ensures m[k := a][l := b][k := a'][l := b'][l := b''] == m[k := a'][l := b'']
  {
  }

  /** The next area of a fork: its pages are untouched so far, and join the shared ones. */
  lemma ForkedNext(sp: Space, i: nat)
    requires Lawful(sp) && 0 < i <= |sp.vmas|
    ensures var v, t := sp.vmas, sp.table;
            var x, g := v[i - 1], Forked(t, v[..i - 1]);
            && (forall p :: x.start <= p < x.end ==> p !in g)
            && FitRange(t + g, x.start, x.end, x.perm)
            && Shared(t + g, x.start, x.end, x.perm) == Shared(t, x.start, x.end, x.perm)
            && Forked(t, v[..i]) == g + Shared(t, x.start, x.end, x.perm)
  {
    var v, t := sp.vmas, sp.table;
    var x, g := v[i - 1], Forked(t, v[..i - 1]);
    assert v[..i] == v[..i - 1] + [x];
    forall p: nat
      ensures x.Has(p) ==> PermAt(v[..i - 1], p).None? && PermAt(v, p) == Some(x.perm)
      ensures PermAt(v[..i], p) == if x.Has(p) then Some(x.perm) else PermAt(v[..i - 1], p)
    {
      PermAtConcat(v[..i - 1], [x], p);
      PermAtNone(v[..i - 1], p);
      if x.Has(p) { PermAtIndex(v, i - 1, p); }
    }
  }

  // ----- Destroying a space -----

  function DropVmas(s: Sys, id: SpaceId, v: seq<Vma>, i: nat): (s': Sys)
    requires id in s.spaces && i <= |v|
    ensures id in s'.spaces
  {
    if i == 0 then s else DropPages(DropVmas(s, id, v, i - 1), id, v[i - 1].start, v[i - 1].end)
  }

  ghost function Uncovered(t: map<nat, Pte>, v: seq<Vma>): map<nat, Pte> {
    map p | p in t && PermAt(v, p).None? :: t[p]
  }

  lemma {:induction false} DropVmasSpec(s: Sys, id: SpaceId, v: seq<Vma>, i: nat)
    requires Counted(s) && Pooled(s) && Private(s) && id in s.spaces && AllSeen(s.spaces[id].table) && i <= |v|
    ensures var s' := DropVmas(s, id, v, i);
            && Counted(s') && Pooled(s') && Private(s') && s'.mem == s.mem
            && s'.spaces == s.spaces[id := s.spaces[id].(table := Uncovered(s.spaces[id].table, v[..i]))]
  {
    var t := s.spaces[id].table;
    if i == 0 {
      assert Uncovered(t, v[..0]) == t;
    } else {
      var x := v[i - 1];
      DropVmasSpec(s, id, v, i - 1);
      DropPagesSpec(DropVmas(s, id, v, i - 1), id, x.start, x.end);
      assert v[..i] == v[..i - 1] + [x];
      forall p: nat
        ensures PermAt(v[..i], p).None? <==> PermAt(v[..i - 1], p).None? && !x.Has(p)
      {
        PermAtConcat(v[..i - 1], [x], p);
      }
      assert Uncovered(t, v[..i]) == Without(Uncovered(t, v[..i - 1]), x.start, x.end);
    }
  }

  lemma RemoveEmpty(s: Sys, id: SpaceId)
    requires Counted(s) && Pooled(s) && Private(s) && id in s.spaces && s.spaces[id].table == map[]
    ensures var s' := s.(spaces := s.spaces - {id}); Counted(s') && Pooled(s') && Private(s')
  {
    var s' := s.(spaces := s.spaces - {id});
    forall f
      ensures CountedAt(s'.refs, f, Mappers(s'.spaces, f))
    {
      assert Mappers(s'.spaces, f) == Mappers(s.spaces, f);
      assert CountedAt(s.refs, f, Mappers(s.spaces, f));
    }
    forall i, p | i in s'.spaces && p in s'.spaces[i].table
      ensures PrivateAt(s'.refs, s'.spaces[i].table[p])
    {
      assert PrivateAt(s.refs, s.spaces[i].table[p]);
    }
  }

  lemma AddEmpty(s: Sys, id: SpaceId)
    requires Counted(s) && Pooled(s) && Private(s) && id !in s.spaces
    ensures var s' := s.(spaces := s.spaces[id := Space([], map[])]); Counted(s') && Pooled(s') && Private(s')
  {
    var s' := s.(spaces := s.spaces[id := Space([], map[])]);
    forall f
      ensures CountedAt(s'.refs, f, Mappers(s'.spaces, f))
    {
      assert Mappers(s'.spaces, f) == Mappers(s.spaces, f);
      assert CountedAt(s.refs, f, Mappers(s.spaces, f));
    }
    forall i, p | i in s'.spaces && p in s'.spaces[i].table
      ensures PrivateAt(s'.refs, s'.spaces[i].table[p])
    {
      assert PrivateAt(s.refs, s.spaces[i].table[p]);
    }
  }

  // ----- The operations -----

  /** `vma_allows`. */
  predicate Allows(perm: Perm, cause: Cause) {
    match cause
    case Read => perm.r
    case Write => perm.w
    case Exec => perm.x
  }

  /** There is an area for page `p`, and it allows the access. */
  predicate MayAccess(v: seq<Vma>, p: nat, cause: Cause) {
    PermAt(v, p).Some? && Allows(PermAt(v, p).value, cause)
  }

  ghost function FaultStep(s: Sys, id: SpaceId, p: nat, cause: Cause, frame: Option<Frame>, tables: bool): Sys
    requires id in s.spaces
  {
    var sp := s.spaces[id];
    if !MayAccess(sp.vmas, p, cause) then s
    else
      var perm := PermAt(sp.vmas, p).value;
      if p in sp.table && sp.table[p].Seen() then
        if cause.Write? && sp.table[p].cow && frame.Some? then CopyPage(s, id, p, frame.value, perm) else s
      else if frame.Some? && tables then FillPage(s, id, p, frame.value, perm)
      else s
  }

  ghost function ProtectStep(s: Sys, id: SpaceId, a: nat, b: nat, perm: Perm, oomAt: nat): Sys
    requires id in s.spaces
  {
    var v := s.spaces[id].vmas;
    if b <= a || !Covered(v, a, b) || (oomAt == 1 && NeedsCut(v, a)) then s
    else if oomAt == 2 && NeedsCut(v, b) then SetVmas(s, id, Cut(v, a))
    else SetVmas(ProtectPages(s, id, a, b, perm), id, ProtectVmas(v, a, b, perm.User()))
  }

  function DestroyStep(s: Sys, id: SpaceId): Sys
    requires id in s.spaces
  {
    var s1 := DropVmas(s, id, s.spaces[id].vmas, |s.spaces[id].vmas|);
    s1.(spaces := s1.spaces - {id})
  }

  /**
   Whether a fork of this space can end so. A page table may be missing at any mapped page, also where
   the source would find it made for the page before: more than what can happen is covered.
   */
  predicate CanEnd(sp: Space, end: CloneEnd) {
    match end
    case Done => true
    case NoSpace => true
    case NoArea(i) => i < |sp.vmas|
    case NoTable(i, p) => i < |sp.vmas| && sp.vmas[i].Has(p) && p in sp.table
  }

  /**
   A fork. When memory runs out, the child is destroyed; an area that was not complete is not in its
   tree yet.
   */
  function CloneStep(s: Sys, id: SpaceId, child: SpaceId, end: CloneEnd): Sys
    requires id in s.spaces && child !in s.spaces
  {
    var v, s0 := s.spaces[id].vmas, s.(spaces := s.spaces[child := Space([], map[])]);
    if !CanEnd(s.spaces[id], end) then s
    else
      match end
      case Done => CloneVmas(s0, id, child, v, |v|)
      case NoSpace => s
      case NoArea(i) => DestroyStep(CloneVmas(s0, id, child, v, i), child)
      case NoTable(i, p) => DestroyStep(ClonePart(s0, id, child, v, i, p), child)
  }

  /** A fork that has shared `i` areas and the pages before `p` of the next one, and has looked up `p`. */
  function ClonePart(s: Sys, from: SpaceId, to: SpaceId, v: seq<Vma>, i: nat, p: nat): (s': Sys)
    requires from in s.spaces && to in s.spaces && i < |v|
    ensures to in s'.spaces
  {
    SharePart(CloneVmas(s, from, to, v, i), from, to, v[i].start, p, v[i].perm)
  }

  /** The pages [a, p) shared, and page `p` marked. */
  function SharePart(s: Sys, from: SpaceId, to: SpaceId, a: nat, p: nat, perm: Perm): (s': Sys)
    requires from in s.spaces && to in s.spaces
    ensures to in s'.spaces
  {
    var s1 := SharePages(s, from, to, a, p, perm);
    var t := s1.spaces[from].table;
    if perm.w && p in t then SetPte(s1, from, p, t[p].MakeCow()) else s1
  }

  /** The pages of the parent that a fork has come to. */
  ghost predicate Touched(v: seq<Vma>, end: CloneEnd, q: nat) {
    match end
    case Done => PermAt(v, q).Some?
    case NoSpace => false
    case NoArea(i) => i < |v| && PermAt(v[..i], q).Some?
    case NoTable(i, p) => i < |v| && (PermAt(v[..i], q).Some? || v[i].start <= q <= p)
  }

  /** The pages that the child had mapped in an area that was not complete. */
  ghost predicate LeftBehind(sp: Space, end: CloneEnd, q: nat) {
    end.NoTable? && CanEnd(sp, end) && q in sp.table && sp.vmas[end.i].start <= q < end.p
  }

  /** An area that contains [a, b) with room on both sides: unmapping needs a new area. */
  predicate Inside(v: seq<Vma>, a: nat, b: nat) {
    exists i :: 0 <= i < |v| && v[i].start < a && b < v[i].end
  }

  ghost function Step(s: Sys, op: Op): Sys {
    match op
    case Create(id) =>
      if id in s.spaces then s else s.(spaces := s.spaces[id := Space([], map[])])
    case Map(id, a, b, perm) =>
      if id !in s.spaces || b <= a || AnyOverlap(s.spaces[id].vmas, a, b) then s
      else SetVmas(s, id, MapVmas(s.spaces[id].vmas, Vma(a, b, perm.User())))
    case Unmap(id, a, b, oom) =>
      if id !in s.spaces || b <= a then s
      else
        var v := s.spaces[id].vmas;
        SetVmas(DropPages(s, id, a, b), id, if oom && Inside(v, a, b) then v else UnmapVmas(v, a, b))
    case Protect(id, a, b, perm, oomAt) =>
      if id !in s.spaces then s else ProtectStep(s, id, a, b, perm, oomAt)
    case Fault(id, p, cause, frame, tables) =>
      if id !in s.spaces then s else FaultStep(s, id, p, cause, frame, tables)
    case Clone(id, child, end) =>
      if id !in s.spaces || child in s.spaces then s else CloneStep(s, id, child, end)
    case Destroy(id) =>
      if id !in s.spaces then s else DestroyStep(s, id)
    case Store(id, p, data, frame, tables) =>
      if id !in s.spaces then s else StoreStep(s, id, p, data, frame, tables)
  }

  /** The entry has W, so that a store goes through. */
  predicate Writable(s: Sys, id: SpaceId, p: nat) {
    id in s.spaces && p in s.spaces[id].table && s.spaces[id].table[p].w
  }

  function Put(s: Sys, id: SpaceId, p: nat, data: Contents): Sys
    requires Writable(s, id, p)
  {
    s.(mem := s.mem[s.spaces[id].table[p].frame := data])
  }

  /** A store instruction: if the entry has no W there is a page fault, and then it is tried again. */
  ghost function StoreStep(s: Sys, id: SpaceId, p: nat, data: Contents, frame: Option<Frame>, tables: bool): Sys
    requires id in s.spaces
  {
    var s1 := if Writable(s, id, p) then s else FaultStep(s, id, p, Write, frame, tables);
    if Writable(s1, id, p) then Put(s1, id, p, data) else s1
  }

  /** A frame handed out is a free one. */
  ghost predicate Possible(s: Sys, op: Op) {
    match op
    case Fault(_, _, _, frame, _) => frame.Some? ==> frame.value in s.pool
    case Store(_, _, _, frame, _) => frame.Some? ==> frame.value in s.pool
    case _ => true
  }

  /** The protect call gets as far as the pages. */
  ghost predicate ProtectRuns(s: Sys, id: SpaceId, a: nat, b: nat, oomAt: nat) {
    && id in s.spaces && a < b && Covered(s.spaces[id].vmas, a, b)
    && !(oomAt == 1 && NeedsCut(s.spaces[id].vmas, a)) && !(oomAt == 2 && NeedsCut(s.spaces[id].vmas, b))
  }

  /** An entry that a protect call leaves visible to `lookup`. */
  predicate StaysSeen(e: Pte, perm: Perm) { perm.r || perm.x || (perm.w && !e.cow) }

  /** A page that a protect call makes writable although it is shared and not marked COW. */
  ghost predicate Exposes(s: Sys, e: Pte, perm: Perm) {
    perm.w && !e.cow && !(e.frame in s.refs && s.refs[e.frame] == 1)
  }

  /**
   The steps that the source takes safely: new areas are below 2^39, a protect call neither hides nor
   exposes a mapped page of its range, and a fork comes to no page that can only be written and leaves
   no page behind.
   */
  ghost predicate Harmless(s: Sys, op: Op) {
    match op
    case Map(id, a, b, perm) => id in s.spaces && a < b && !AnyOverlap(s.spaces[id].vmas, a, b) ==> b <= PAGE_LIMIT
    case Protect(id, a, b, perm, oomAt) =>
      ProtectRuns(s, id, a, b, oomAt) && !perm.Zero() ==>
        forall p :: p in s.spaces[id].table && a <= p < b ==>
          StaysSeen(s.spaces[id].table[p], perm) && !Exposes(s, s.spaces[id].table[p], perm)
    case Clone(id, child, end) =>
      id in s.spaces && child !in s.spaces && CanEnd(s.spaces[id], end) ==>
        && (forall q :: q in s.spaces[id].table && Touched(s.spaces[id].vmas, end, q) ==>
              s.spaces[id].table[q].r || s.spaces[id].table[q].x)
        && forall q :: !LeftBehind(s.spaces[id], end, q)
    case _ => true
  }

  ghost predicate Allowed(s: Sys, op: Op) { Possible(s, op) && Harmless(s, op) }

  // ----- The invariant holds over every run -----

  lemma LawfulSeen(sp: Space)
    requires Lawful(sp)
    ensures AllSeen(sp.table)
  {
  }

  /** When one space changes, the invariant holds if counts are right and that space is lawful. */
  lemma ValidSet(s: Sys, s': Sys, id: SpaceId, sp: Space)
    requires Valid(s) && s'.spaces == s.spaces[id := sp] && Counted(s') && Pooled(s')
    ensures Valid(s') <==> Private(s') && Lawful(sp)
  {
    hide Counted, Pooled, Private, Lawful;
    assert id in s'.spaces && s'.spaces[id] == sp;
  }

  /** Mapping keeps the invariant if and only if it stays below 2^39. */
  lemma MapValid(s: Sys, id: SpaceId, a: nat, b: nat, perm: Perm)
    requires Valid(s)
    ensures Valid(Step(s, Map(id, a, b, perm))) <==> Harmless(s, Map(id, a, b, perm))
  {
    hide Counted, Pooled, Private, Lawful, MapVmas, AnyOverlap;
    if id in s.spaces && a < b && !AnyOverlap(s.spaces[id].vmas, a, b) {
      var x, v := Vma(a, b, perm.User()), s.spaces[id].vmas;
      SetVmasSame(s, id, MapVmas(v, x));
      MapLawful(s.spaces[id], x);
      ValidSet(s, Step(s, Map(id, a, b, perm)), id, Space(MapVmas(v, x), s.spaces[id].table));
    }
  }

  lemma MapLawful(sp: Space, x: Vma)
    requires Lawful(sp) && x.start < x.end && x.perm.u && !AnyOverlap(sp.vmas, x.start, x.end)
    ensures Lawful(sp.(vmas := MapVmas(sp.vmas, x))) <==> x.end <= PAGE_LIMIT
  {
    hide MapVmas, Sorted;
    var v' := MapVmas(sp.vmas, x);
    MapVmasSpec(sp.vmas, x);
    forall p: nat | PermAt(sp.vmas, p).Some?
      ensures !x.Has(p)
    {
      if x.Has(p) { NoOverlapUnmapped(sp.vmas, x.start, x.end, p); }
    }
    hide PermAt, AnyOverlap;
    assert PermAt(v', x.end - 1) == Some(x.perm);
  }

  lemma UnmapValid(s: Sys, id: SpaceId, a: nat, b: nat, oom: bool)
    requires Valid(s)
    ensures Valid(Step(s, Unmap(id, a, b, oom)))
  {
    if id in s.spaces && a < b {
      var v, t := s.spaces[id].vmas, s.spaces[id].table;
      assert Lawful(s.spaces[id]);
      LawfulSeen(s.spaces[id]);
      DropPagesSpec(s, id, a, b);
      UnmapVmasSpec(v, a, b, 0);
      var v' := if oom && Inside(v, a, b) then v else UnmapVmas(v, a, b);
      SetVmasSame(DropPages(s, id, a, b), id, v');
      assert Lawful(Space(v', Without(t, a, b)));
    }
  }

  lemma FaultValid(s: Sys, id: SpaceId, p: nat, cause: Cause, frame: Option<Frame>, tables: bool)
    requires Valid(s) && Possible(s, Fault(id, p, cause, frame, tables))
    ensures Valid(Step(s, Fault(id, p, cause, frame, tables)))
  {
    hide Counted, Pooled, Private, PermAt;
    var s' := Step(s, Fault(id, p, cause, frame, tables));
    if s' != s {
      var sp := s.spaces[id];
      var perm := PermAt(sp.vmas, p).value;
      assert Lawful(sp);
      if p in sp.table {
        CopyPageCounted(s, id, p, frame.value, perm);
        CopyPagePrivate(s, id, p, frame.value, perm);
      } else {
        FillPageCounted(s, id, p, frame.value, perm);
        FillPagePrivate(s, id, p, frame.value, perm);
      }
      assert s'.spaces == s.spaces[id := sp.(table := sp.table[p := Own(frame.value, perm)])];
      assert Lawful(s'.spaces[id]);
    }
  }

  lemma DestroyValid(s: Sys, id: SpaceId)
    requires Valid(s)
    ensures Valid(Step(s, Destroy(id)))
  {
    if id in s.spaces {
      var sp := s.spaces[id];
      assert Lawful(sp);
      LawfulSeen(sp);
      DropVmasSpec(s, id, sp.vmas, |sp.vmas|);
      assert sp.vmas[..|sp.vmas|] == sp.vmas;
      assert Uncovered(sp.table, sp.vmas) == map[];
      RemoveEmpty(DropVmas(s, id, sp.vmas, |sp.vmas|), id);
      hide Counted, Pooled, Private;
    }
  }

  /**
   Exactly when a protect call keeps every writable page private: when it exposes no shared page
   of its range. Whether it makes pages newly writable is not asked here.
   */
  lemma ProtectPrivateIff(s: Sys, id: SpaceId, a: nat, b: nat, perm: Perm)
    requires Valid(s) && id in s.spaces
    ensures Private(ProtectPages(s, id, a, b, perm)) <==>
            forall p :: p in s.spaces[id].table && a <= p < b ==> !Exposes(s, s.spaces[id].table[p], perm)
  {
    var s', t := ProtectPages(s, id, a, b, perm), s.spaces[id].table;
    assert Lawful(s.spaces[id]);
    LawfulSeen(s.spaces[id]);
    ProtectPagesSpec(s, id, a, b, perm);
    if perm.Zero() {
      DropPagesSpec(s, id, a, b);
      ZeroProtectIsDrop(s, id, a, b, perm);
    } else {
      ProtectedPrivate(s, s', id, a, b, perm);
    }
  }

  lemma ProtectedPrivate(s: Sys, s': Sys, id: SpaceId, a: nat, b: nat, perm: Perm)
    requires Private(s) && id in s.spaces && s'.refs == s.refs && !perm.Zero()
    requires s'.spaces == s.spaces[id := s.spaces[id].(table := Protected(s.spaces[id].table, a, b, perm))]
    ensures Private(s') <==>
            forall p :: p in s.spaces[id].table && a <= p < b ==> !Exposes(s, s.spaces[id].table[p], perm)
  {
    var t := s.spaces[id].table;
    if forall p :: p in t && a <= p < b ==> !Exposes(s, t[p], perm) {
      forall i, p | i in s'.spaces && p in s'.spaces[i].table
        ensures PrivateAt(s'.refs, s'.spaces[i].table[p])
      {
        assert PrivateAt(s.refs, s.spaces[i].table[p]);
      }
    } else {
      var p :| p in t && a <= p < b && Exposes(s, t[p], perm);
      assert !PrivateAt(s'.refs, s'.spaces[id].table[p]);
    }
  }

  /** Protecting keeps the invariant if and only if it neither hides nor exposes a mapped page. */
  lemma ProtectValid(s: Sys, id: SpaceId, a: nat, b: nat, perm: Perm, oomAt: nat)
    requires Valid(s)
    ensures Valid(Step(s, Protect(id, a, b, perm, oomAt))) <==> Harmless(s, Protect(id, a, b, perm, oomAt))
  {
    hide Counted, Pooled, Private, Lawful, ProtectVmas, Protected, ProtectPages, Covered, NeedsCut, Cut, Exposes, StaysSeen;
    if ProtectRuns(s, id, a, b, oomAt) {
      ProtectRunsValid(s, id, a, b, perm);
    } else if id in s.spaces && a < b && Covered(s.spaces[id].vmas, a, b) && oomAt == 2 && NeedsCut(s.spaces[id].vmas, b) {
      CutValid(s, id, a);
    }
  }

  lemma CutValid(s: Sys, id: SpaceId, a: nat)
    requires Valid(s) && id in s.spaces
    ensures Valid(SetVmas(s, id, Cut(s.spaces[id].vmas, a)))
  {
    hide Counted, Pooled, Private;
    assert Lawful(s.spaces[id]);
    CutSpec(s.spaces[id].vmas, a, 0);
    SetVmasSame(s, id, Cut(s.spaces[id].vmas, a));
    assert Lawful(s.spaces[id].(vmas := Cut(s.spaces[id].vmas, a)));
  }

  lemma ProtectRunsValid(s: Sys, id: SpaceId, a: nat, b: nat, perm: Perm)
    requires Valid(s) && id in s.spaces && a < b
    ensures var t := s.spaces[id].table;
            Valid(SetVmas(ProtectPages(s, id, a, b, perm), id, ProtectVmas(s.spaces[id].vmas, a, b, perm.User()))) <==>
            (perm.Zero() || forall p :: p in t && a <= p < b ==> StaysSeen(t[p], perm) && !Exposes(s, t[p], perm))
  {
    hide Counted, Pooled, Private, Lawful, AllSeen, ProtectVmas, Protected, ProtectPages, StaysSeen;
    var s1, v' := ProtectPages(s, id, a, b, perm), ProtectVmas(s.spaces[id].vmas, a, b, perm.User());
    assert Lawful(s.spaces[id]);
    LawfulSeen(s.spaces[id]);
    ProtectPrivateIff(s, id, a, b, perm);
    ProtectPagesSpec(s, id, a, b, perm);
    ProtectedLawful(s.spaces[id], a, b, perm);
    SetVmasSame(s1, id, v');
    ValidSet(s, SetVmas(s1, id, v'), id, Space(v', Protected(s.spaces[id].table, a, b, perm)));
  }

  lemma ProtectedLawful(sp: Space, a: nat, b: nat, perm: Perm)
    requires Lawful(sp) && a <= b
    ensures Lawful(Space(ProtectVmas(sp.vmas, a, b, perm.User()), Protected(sp.table, a, b, perm))) <==>
            (perm.Zero() || forall p :: p in sp.table && a <= p < b ==> StaysSeen(sp.table[p], perm))
  {
    ProtectVmasSpec(sp.vmas, a, b, perm.User(), 0);
    hide ProtectVmas, Sorted;
    var v', t' := ProtectVmas(sp.vmas, a, b, perm.User()), Protected(sp.table, a, b, perm);
    forall p | p in t'
      ensures PermAt(v', p).Some?
      ensures Fits(t'[p], PermAt(v', p).value) <==> (a <= p < b ==> StaysSeen(sp.table[p], perm))
    {
    }
  }

  /** What a protect call leaves of an entry can be seen if and only if R, X or an unshared W is left. */
  lemma ProtectKeepsSeen(s: Sys, id: SpaceId, a: nat, b: nat, perm: Perm, p: nat)
    requires Valid(s) && id in s.spaces && p in s.spaces[id].table && a <= p < b && !perm.Zero()
    ensures var s' := ProtectPages(s, id, a, b, perm);
            && id in s'.spaces && p in s'.spaces[id].table
            && (s'.spaces[id].table[p].Seen() <==> perm.r || perm.x || (perm.w && !s.spaces[id].table[p].cow))
  {
    hide Counted, Pooled, Private, ProtectPages;
    assert Lawful(s.spaces[id]);
    LawfulSeen(s.spaces[id]);
    ProtectPagesSpec(s, id, a, b, perm);
  }
}
