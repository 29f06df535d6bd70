/**
 Forks: when the invariant survives one, and the exact state that a fork leaves when memory runs out
 half-way.
 */
module VmFork {
  import opened Options
  import opened VmaList
  import opened AddressSpace
  import opened VmSteps

  // ----- What a fork does to the parent -----

  /** The parent's table: the pages that the fork has come to are as the child's entries. */
  ghost function ParentTable(sp: Space, end: CloneEnd): map<nat, Pte> {
    map q | q in sp.table ::
      if Touched(sp.vmas, end, q) && PermAt(sp.vmas, q).Some? then Share(sp.table[q].frame, PermAt(sp.vmas, q).value)
      else sp.table[q]
  }

  /** It is lawful if and only if no page that can only be written was come to. */
  lemma ParentLawful(sp: Space, end: CloneEnd)
    requires Lawful(sp)
    ensures Lawful(Space(sp.vmas, ParentTable(sp, end))) <==>
            forall q :: q in sp.table && Touched(sp.vmas, end, q) ==> sp.table[q].r || sp.table[q].x
  {
    hide Touched, Sorted, PermAt;
    var t' := ParentTable(sp, end);
    forall q | q in sp.table
      ensures Fits(t'[q], PermAt(sp.vmas, q).value) <==> (Touched(sp.vmas, end, q) ==> sp.table[q].r || sp.table[q].x)
    {
    }
  }

  lemma ParentPart(sp: Space, i: nat)
    requires Lawful(sp) && i < |sp.vmas|
    ensures ParentTable(sp, NoArea(i)) == sp.table + Forked(sp.table, sp.vmas[..i])
  {
    var v, t := sp.vmas, sp.table;
    forall q: nat | PermAt(v[..i], q).Some?
      ensures PermAt(v, q) == PermAt(v[..i], q)
    {
      PermAtConcat(v[..i], v[i..], q);
      assert v == v[..i] + v[i..];
    }
  }

  lemma ParentAll(sp: Space)
    requires Lawful(sp)
    ensures ParentTable(sp, Done) == Forked(sp.table, sp.vmas) && sp.table + Forked(sp.table, sp.vmas) == Forked(sp.table, sp.vmas)
  {
  }

  // ----- A fork that ends well -----

  /** The whole state after a fork: both sides have the same areas and entries, and counts are right. */
  lemma CloneDone(s: Sys, id: SpaceId, child: SpaceId)
    requires Valid(s) && id in s.spaces && child !in s.spaces
    ensures var s', sp := CloneStep(s, id, child, Done), s.spaces[id];
            var g := Forked(sp.table, sp.vmas);
            && Counted(s') && Pooled(s') && Private(s') && s'.mem == s.mem
            && s'.spaces == s.spaces[id := Space(sp.vmas, g)][child := Space(sp.vmas, g)]
  {
    hide Counted, Pooled, Private, Lawful, CloneVmas, Forked;
    var sp := s.spaces[id];
    AddEmpty(s, child);
    ParentAll(sp);
    CloneVmasSpec(s.(spaces := s.spaces[child := Space([], map[])]), id, child, |sp.vmas|);
    assert sp.vmas[..|sp.vmas|] == sp.vmas;
  }

  // ----- A fork that runs out of memory -----

  lemma {:induction false} DropPagesFrame(s: Sys, id: SpaceId, a: nat, b: nat)
    requires id in s.spaces
    ensures var s' := DropPages(s, id, a, b);
            && s'.mem == s.mem && s'.spaces - {id} == s.spaces - {id} && s'.spaces[id].vmas == s.spaces[id].vmas
            && forall q :: !(a <= q < b) ==>
                 && (q in s'.spaces[id].table <==> q in s.spaces[id].table)
                 && (q in s.spaces[id].table ==> s'.spaces[id].table[q] == s.spaces[id].table[q])
    decreases b
  {
    if a < b { DropPagesFrame(s, id, a, b - 1); }
  }

  lemma {:induction false} DropVmasFrame(s: Sys, id: SpaceId, v: seq<Vma>, i: nat)
    requires id in s.spaces && i <= |v|
    ensures var s' := DropVmas(s, id, v, i);
            && s'.mem == s.mem && s'.spaces - {id} == s.spaces - {id} && s'.spaces[id].vmas == s.spaces[id].vmas
            && forall q: nat :: PermAt(v[..i], q).None? ==>
                 && (q in s'.spaces[id].table <==> q in s.spaces[id].table)
                 && (q in s.spaces[id].table ==> s'.spaces[id].table[q] == s.spaces[id].table[q])
  {
    if i > 0 {
      var x, s1 := v[i - 1], DropVmas(s, id, v, i - 1);
      DropVmasFrame(s, id, v, i - 1);
      DropPagesFrame(s1, id, x.start, x.end);
      forall q: nat | PermAt(v[..i], q).None?
        ensures PermAt(v[..i - 1], q).None? && !x.Has(q)
      {
        assert v[..i] == v[..i - 1] + [x];
        PermAtConcat(v[..i - 1], [x], q);
      }
    }
  }

  /** How many areas of the child are in its tree when memory runs out, and its table. */
  ghost function ChildTable(sp: Space, end: CloneEnd): map<nat, Pte>
    requires CanEnd(sp, end) && (end.NoArea? || end.NoTable?)
  {
    var g := Forked(sp.table, sp.vmas[..end.i]);
    if end.NoArea? then g else g + Shared(sp.table, sp.vmas[end.i].start, end.p, sp.vmas[end.i].perm)
  }

  /** The state in which the child is destroyed. */
  ghost function Before(s: Sys, id: SpaceId, child: SpaceId, end: CloneEnd): (s': Sys)
    requires id in s.spaces && child !in s.spaces && CanEnd(s.spaces[id], end) && (end.NoArea? || end.NoTable?)
    ensures child in s'.spaces
  {
    var v, s0 := s.spaces[id].vmas, s.(spaces := s.spaces[child := Space([], map[])]);
    if end.NoArea? then CloneVmas(s0, id, child, v, end.i) else ClonePart(s0, id, child, v, end.i, end.p)
  }

  /** In that state counts are right, and both tables are known. */
  lemma BeforeSpec(s: Sys, id: SpaceId, child: SpaceId, end: CloneEnd)
    requires Valid(s) && id in s.spaces && child !in s.spaces
    requires CanEnd(s.spaces[id], end) && (end.NoArea? || end.NoTable?)
    ensures var s1, sp := Before(s, id, child, end), s.spaces[id];
            && Counted(s1) && Pooled(s1) && Private(s1) && s1.mem == s.mem
            && s1.spaces == s.spaces[id := Space(sp.vmas, ParentTable(sp, end))]
                                    [child := Space(sp.vmas[..end.i], ChildTable(sp, end))]
  {
    hide Counted, Pooled, Private, Lawful, CloneVmas, ClonePart, Forked, ParentTable;
    var sp, s0 := s.spaces[id], s.(spaces := s.spaces[child := Space([], map[])]);
    AddEmpty(s, child);
    CloneVmasSpec(s0, id, child, end.i);
    ParentPart(sp, end.i);
    if end.NoTable? {
      PartSpec(s0, id, child, end.i, end.p);
    }
  }

  lemma PartSpec(s: Sys, from: SpaceId, to: SpaceId, i: nat, p: nat)
    requires Forkable(s, from, to) && CanEnd(s.spaces[from], NoTable(i, p))
    ensures var s', sp := ClonePart(s, from, to, s.spaces[from].vmas, i, p), s.spaces[from];
            && Counted(s') && Pooled(s') && Private(s') && s'.mem == s.mem
            && s'.spaces == s.spaces[from := Space(sp.vmas, ParentTable(sp, NoTable(i, p)))]
                                    [to := Space(sp.vmas[..i], ChildTable(sp, NoTable(i, p)))]
  {
    hide Counted, Pooled, Private, Lawful, CloneVmas, Forked, Shared, SharePages, PermAt, FitRange, ParentTable;
    var sp := s.spaces[from];
    var v, t, x := sp.vmas, sp.table, sp.vmas[i];
    var s1, g, sh := CloneVmas(s, from, to, v, i), Forked(t, v[..i]), Shared(t, x.start, p, x.perm);
    CloneVmasSpec(s, from, to, i);
    PartReady(sp, i, p);
    SharePagesSpec(s1, from, to, x.start, p, x.perm);
    var s2 := SharePages(s1, from, to, x.start, p, x.perm);
    Overwrite(s.spaces, from, to, Space(v, t + g), Space(v[..i], g), Space(v, t + g + sh), Space(v[..i], g + sh),
              Space(v[..i], g + sh));
    assert s2.spaces[from] == Space(v, t + g + sh) && s2.spaces[to] == Space(v[..i], g + sh);
    PartEntry(sp, i, p);
    if x.perm.w {
      RewriteCounted(s2, from, p, t[p].MakeCow());
      RewritePrivate(s2, from, p, t[p].MakeCow());
      SetFirst(s.spaces, from, to, Space(v, t + g + sh), Space(v[..i], g + sh), Space(v, (t + g + sh)[p := t[p].MakeCow()]));
    }
  }

  lemma SetFirst<K, V>(m: map<K, V>, k: K, l: K, a: V, b: V, a': V)
    requires k != l
    ensures m[k := a][l := b][k := a'] == m[k := a'][l := b]
  {
  }

  lemma RewritePrivate(s: Sys, id: SpaceId, p: nat, e: Pte)
    requires Private(s) && id in s.spaces && !e.w
    ensures Private(SetPte(s, id, p, e))
  {
    var s' := SetPte(s, id, p, e);
    forall i, q | i in s'.spaces && q in s'.spaces[i].table
      ensures PrivateAt(s'.refs, s'.spaces[i].table[q])
    {
      if (i, q) != (id, p) { assert PrivateAt(s.refs, s.spaces[i].table[q]); }
    }
  }

  /** The part of an area before `p` can be shared. */
  lemma PartReady(sp: Space, i: nat, p: nat)
    requires Lawful(sp) && CanEnd(sp, NoTable(i, p))
    ensures var v, t, x := sp.vmas, sp.table, sp.vmas[i];
            var g := Forked(t, v[..i]);
            && FitRange(t + g, x.start, p, x.perm) && (forall q :: x.start <= q < p ==> q !in g)
            && Shared(t + g, x.start, p, x.perm) == Shared(t, x.start, p, x.perm)
  {
    hide Lawful, Forked, PermAt;
    var v := sp.vmas;
    ForkedNext(sp, i + 1);
    assert v[..i + 1][..i] == v[..i];
  }

  /** The entry of page `p` itself, and the parent's table with it. */
  lemma PartEntry(sp: Space, i: nat, p: nat)
    requires Lawful(sp) && CanEnd(sp, NoTable(i, p))
    ensures var v, t, x := sp.vmas, sp.table, sp.vmas[i];
            var u := t + Forked(t, v[..i]) + Shared(t, x.start, p, x.perm);
            && p in u && u[p] == t[p] && (x.perm.w ==> t[p].MakeCow() == Share(t[p].frame, x.perm))
            && ParentTable(sp, NoTable(i, p)) == (if x.perm.w then u[p := t[p].MakeCow()] else u)
  {
    var v, t, x := sp.vmas, sp.table, sp.vmas[i];
    var g, sh := Forked(t, v[..i]), Shared(t, x.start, p, x.perm);
    var u := t + g + sh;
    PartPerm(sp, i);
    hide Sorted, PermAt;
    assert p !in g && p !in sh;
    assert t[p].frame == t[p].MakeCow().frame && Fits(t[p], x.perm);
    assert !x.perm.w ==> t[p] == Share(t[p].frame, x.perm);
    forall q | q in t
      ensures ParentTable(sp, NoTable(i, p))[q] == (if x.perm.w then u[p := t[p].MakeCow()] else u)[q]
    {
    }
  }

  lemma PartPerm(sp: Space, i: nat)
    requires Lawful(sp) && i < |sp.vmas|
    ensures forall q: nat :: PermAt(sp.vmas[..i], q).Some? ==> PermAt(sp.vmas, q) == PermAt(sp.vmas[..i], q) && !sp.vmas[i].Has(q)
    ensures forall q: nat :: sp.vmas[i].Has(q) ==> PermAt(sp.vmas, q) == Some(sp.vmas[i].perm)
  {
    var v := sp.vmas;
    assert v == v[..i] + v[i..];
    forall q: nat
      ensures PermAt(v[..i], q).Some? ==> PermAt(v, q) == PermAt(v[..i], q) && !v[i].Has(q)
      ensures v[i].Has(q) ==> PermAt(v, q) == Some(v[i].perm)
    {
      PermAtConcat(v[..i], v[i..], q);
      if v[i].Has(q) {
        PermAtIndex(v, i, q);
        PermAtNone(v[..i], q);
      }
    }
  }

  /** Whatever the counts, the parent's table and memory after a failed fork are these. */
  lemma FailedSpaces(s: Sys, id: SpaceId, child: SpaceId, end: CloneEnd)
    requires Valid(s) && id in s.spaces && child !in s.spaces
    requires CanEnd(s.spaces[id], end) && (end.NoArea? || end.NoTable?)
    ensures var s', sp := CloneStep(s, id, child, end), s.spaces[id];
            s'.spaces == s.spaces[id := Space(sp.vmas, ParentTable(sp, end))] && s'.mem == s.mem
  {
    hide Counted, Pooled, Private, Lawful, CloneVmas, ClonePart, DropVmas, ParentTable, ChildTable;
    BeforeSpec(s, id, child, end);
    var s1, v := Before(s, id, child, end), s.spaces[id].vmas[..end.i];
    assert s1.spaces[child].vmas == v;
    DropVmasFrame(s1, child, v, |v|);
  }

  // ----- The counts after a failed fork -----

  /** The pages of `m` that point to frame `f`. */
  ghost function PagesTo(m: map<nat, Pte>, f: Frame): set<nat> { set q | q in m && m[q].frame == f }

  /** The pages left behind that point to frame `f`. */
  ghost function Stuck(sp: Space, end: CloneEnd, f: Frame): set<nat> {
    set q | q in sp.table && LeftBehind(sp, end, q) && sp.table[q].frame == f
  }

  predicate SameFrames(t: map<nat, Pte>, u: map<nat, Pte>) {
    t.Keys == u.Keys && forall q :: q in t ==> t[q].frame == u[q].frame
  }

  ghost function Pairs(id: SpaceId, m: set<nat>): set<(SpaceId, nat)> { set q | q in m :: (id, q) }

  lemma {:induction false} PairCount(id: SpaceId, m: set<nat>)
    ensures |Pairs(id, m)| == |m|
  {
    if m != {} {
      var x :| x in m;
      PairCount(id, m - {x});
      assert Pairs(id, m) == Pairs(id, m - {x}) + {(id, x)} && (id, x) !in Pairs(id, m - {x});
    }
  }

  lemma MappersSame(s: Sys, s': Sys, id: SpaceId, sp: Space, f: Frame)
    requires id in s.spaces && s'.spaces == s.spaces[id := sp] && SameFrames(s.spaces[id].table, sp.table)
    ensures Mappers(s'.spaces, f) == Mappers(s.spaces, f)
  {
  }

  lemma MappersChild(s: Sys, s': Sys, child: SpaceId, sp: Space, f: Frame)
    requires child !in s.spaces && s'.spaces == s.spaces[child := sp]
    ensures |Mappers(s'.spaces, f)| == |Mappers(s.spaces, f)| + |PagesTo(sp.table, f)|
  {
    var more := Pairs(child, PagesTo(sp.table, f));
    PairCount(child, PagesTo(sp.table, f));
    MappersAlso(s, s', child, sp, f);
    hide Mappers, PagesTo, Pairs;
  }

  lemma MappersAlso(s: Sys, s': Sys, child: SpaceId, sp: Space, f: Frame)
    requires child !in s.spaces && s'.spaces == s.spaces[child := sp]
    ensures var more := Pairs(child, PagesTo(sp.table, f));
            Mappers(s'.spaces, f) == Mappers(s.spaces, f) + more && Mappers(s.spaces, f) !! more
  {
  }

  /** Right counts with a child that holds `m` are the old counts and one for each page of `m`. */
  lemma CountsWith(s: Sys, s': Sys, id: SpaceId, child: SpaceId, sp: Space, c: Space)
    requires Counted(s) && Counted(s') && id in s.spaces && child !in s.spaces
    requires SameFrames(s.spaces[id].table, sp.table) && s'.spaces == s.spaces[id := sp][child := c]
    requires forall q :: q in c.table ==> c.table[q].frame in s.refs
    ensures s'.refs == map f | f in s.refs :: s.refs[f] + |PagesTo(c.table, f)|
  {
    hide Mappers;
    var s1 := s.(spaces := s.spaces[id := sp]);
    forall f
      ensures f in s'.refs <==> f in s.refs
      ensures f in s.refs ==> s'.refs[f] == s.refs[f] + |PagesTo(c.table, f)|
    {
      MappersSame(s, s1, id, sp, f);
      MappersChild(s1, s', child, c, f);
      assert CountedAt(s.refs, f, Mappers(s.spaces, f)) && CountedAt(s'.refs, f, Mappers(s'.spaces, f));
      if f !in s.refs { assert PagesTo(c.table, f) == {}; }
    }
  }

  lemma ParentFrames(sp: Space, end: CloneEnd)
    ensures SameFrames(sp.table, ParentTable(sp, end))
  {
  }

  /** What the child's table still holds when its areas are gone. */
  lemma ChildLeft(sp: Space, end: CloneEnd)
    requires Lawful(sp) && CanEnd(sp, end) && (end.NoArea? || end.NoTable?)
    requires forall q :: q in sp.table && Touched(sp.vmas, end, q) ==> sp.table[q].r || sp.table[q].x
    ensures var c := ChildTable(sp, end);
            var l := Uncovered(c, sp.vmas[..end.i]);
            && AllSeen(c) && (forall q :: q in l ==> q in sp.table && l[q].frame == sp.table[q].frame)
            && forall f :: PagesTo(l, f) == Stuck(sp, end, f)
  {
    PartPerm(sp, end.i);
    hide Sorted, PermAt;
    var v, t, c := sp.vmas, sp.table, ChildTable(sp, end);
    var l := Uncovered(c, v[..end.i]);
    forall q | q in c
      ensures c[q].Seen() && q in t && c[q].frame == t[q].frame
    {
    }
    assert forall q :: q in l <==> q in t && LeftBehind(sp, end, q);
  }

  /**
   The state after a fork that fails: the child is gone, the pages that were come to are marked, and
   every page left behind has added one to the count of its frame, for good.
   */
  lemma FailedFork(s: Sys, id: SpaceId, child: SpaceId, end: CloneEnd)
    requires Valid(s) && id in s.spaces && child !in s.spaces
    requires CanEnd(s.spaces[id], end) && (end.NoArea? || end.NoTable?)
    requires forall q :: q in s.spaces[id].table && Touched(s.spaces[id].vmas, end, q) ==>
               s.spaces[id].table[q].r || s.spaces[id].table[q].x
    ensures var s', sp := CloneStep(s, id, child, end), s.spaces[id];
            s' == Sys(s.spaces[id := Space(sp.vmas, ParentTable(sp, end))],
                      map f | f in s.refs :: s.refs[f] + |Stuck(sp, end, f)|, s.pool, s.mem)
  {
    hide Counted, Pooled, Private, Lawful, CloneVmas, ClonePart, DropVmas, ParentTable, ChildTable, Uncovered, AllSeen,
         Touched, Stuck, PagesTo;
    var sp, s1 := s.spaces[id], Before(s, id, child, end);
    var v, l := sp.vmas[..end.i], Uncovered(ChildTable(sp, end), sp.vmas[..end.i]);
    FailedSpaces(s, id, child, end);
    BeforeSpec(s, id, child, end);
    ChildLeft(sp, end);
    assert s1.spaces[child] == Space(v, ChildTable(sp, end));
    DropVmasSpec(s1, child, v, |v|);
    assert v[..|v|] == v;
    var s2 := DropVmas(s1, child, v, |v|);
    var m := s.spaces[id := Space(sp.vmas, ParentTable(sp, end))];
    assert s2.spaces == m[child := Space(v, l)];
    ParentFrames(sp, end);
    FramesCounted(s, id, l);
    CountsWith(s, s2, id, child, Space(sp.vmas, ParentTable(sp, end)), Space(v, l));
    SamePool(s, s2);
  }

  lemma FramesCounted(s: Sys, id: SpaceId, l: map<nat, Pte>)
    requires Counted(s) && id in s.spaces
    requires forall q :: q in l ==> q in s.spaces[id].table && l[q].frame == s.spaces[id].table[q].frame
    ensures forall q :: q in l ==> l[q].frame in s.refs
  {
    forall q | q in l
      ensures l[q].frame in s.refs
    {
      EntryIsCounted(s, id, q);
    }
  }

  lemma SamePool(s: Sys, s': Sys)
    requires Pooled(s) && Pooled(s') && s'.mem == s.mem && s'.refs.Keys == s.refs.Keys
    ensures s'.pool == s.pool
  {
    assert s.pool == s.mem.Keys - s.refs.Keys && s'.pool == s'.mem.Keys - s'.refs.Keys;
  }

  // ----- When the invariant survives -----

  /** A fork keeps the invariant if and only if it comes to no page that can only be written and leaves none behind. */
  lemma CloneValid(s: Sys, id: SpaceId, child: SpaceId, end: CloneEnd)
    requires Valid(s)
    ensures Valid(Step(s, Clone(id, child, end))) <==> Harmless(s, Clone(id, child, end))
  {
    hide Valid, CloneStep, Touched, LeftBehind;
    if id in s.spaces && child !in s.spaces && CanEnd(s.spaces[id], end) {
      match end
      case Done => DoneValid(s, id, child);
      case NoSpace => NothingDone(s, id, child);
      case NoArea(_) => FailedValid(s, id, child, end);
      case NoTable(_, _) => FailedValid(s, id, child, end);
    } else if id in s.spaces && child !in s.spaces {
      NothingDone(s, id, child);
    }
  }

  lemma NothingDone(s: Sys, id: SpaceId, child: SpaceId)
    requires id in s.spaces && child !in s.spaces
    ensures CloneStep(s, id, child, NoSpace) == s
    ensures forall end :: !CanEnd(s.spaces[id], end) ==> CloneStep(s, id, child, end) == s
    ensures forall q :: !Touched(s.spaces[id].vmas, NoSpace, q) && !LeftBehind(s.spaces[id], NoSpace, q)
  {
  }

  lemma DoneValid(s: Sys, id: SpaceId, child: SpaceId)
    requires Valid(s) && id in s.spaces && child !in s.spaces
    ensures Valid(CloneStep(s, id, child, Done)) <==> Harmless(s, Clone(id, child, Done))
  {
    hide Counted, Pooled, Private, Lawful, CloneStep, Forked, ParentTable;
    var sp := s.spaces[id];
    CloneDone(s, id, child);
    ParentAll(sp);
    ParentLawful(sp, Done);
    var s' := CloneStep(s, id, child, Done);
    assert s'.spaces[child] == Space(sp.vmas, Forked(sp.table, sp.vmas));
  }

  lemma FailedValid(s: Sys, id: SpaceId, child: SpaceId, end: CloneEnd)
    requires Valid(s) && id in s.spaces && child !in s.spaces
    requires CanEnd(s.spaces[id], end) && (end.NoArea? || end.NoTable?)
    ensures Valid(CloneStep(s, id, child, end)) <==> Harmless(s, Clone(id, child, end))
  {
    hide Counted, Pooled, Private, Lawful, CloneStep, ParentTable, Touched, LeftBehind;
    var sp, s' := s.spaces[id], CloneStep(s, id, child, end);
    FailedSpaces(s, id, child, end);
    ParentLawful(sp, end);
    assert s'.spaces[id] == Space(sp.vmas, ParentTable(sp, end));
    if forall q :: q in sp.table && Touched(sp.vmas, end, q) ==> sp.table[q].r || sp.table[q].x {
      FailedFork(s, id, child, end);
      FailedCounts(s, s', id, end);
      FailedRest(s, s', id, end);
      if Valid(s') { assert Counted(s'); }
      if Counted(s') { ValidSet(s, s', id, Space(sp.vmas, ParentTable(sp, end))); }
    }
  }

  /** The counts are right if and only if nothing is left behind. */
  lemma FailedCounts(s: Sys, s': Sys, id: SpaceId, end: CloneEnd)
    requires Counted(s) && id in s.spaces
    requires var sp := s.spaces[id];
             && s'.spaces == s.spaces[id := Space(sp.vmas, ParentTable(sp, end))]
             && s'.refs == map f | f in s.refs :: s.refs[f] + |Stuck(sp, end, f)|
    ensures Counted(s') <==> forall q :: !LeftBehind(s.spaces[id], end, q)
  {
    hide Mappers, ParentTable, LeftBehind;
    var sp := s.spaces[id];
    ParentFrames(sp, end);
    forall f
      ensures Mappers(s'.spaces, f) == Mappers(s.spaces, f) && CountedAt(s.refs, f, Mappers(s.spaces, f))
    {
      MappersSame(s, s', id, Space(sp.vmas, ParentTable(sp, end)), f);
    }
    if q :| LeftBehind(sp, end, q) {
      LeftIsMapped(sp, end, q);
      EntryIsCounted(s, id, q);
      var f := sp.table[q].frame;
      assert q in Stuck(sp, end, f);
      assert !CountedAt(s'.refs, f, Mappers(s'.spaces, f));
    } else {
      assert forall f :: Stuck(sp, end, f) == {};
      assert forall f :: CountedAt(s'.refs, f, Mappers(s'.spaces, f));
    }
  }

  lemma LeftIsMapped(sp: Space, end: CloneEnd, q: nat)
    requires LeftBehind(sp, end, q)
    ensures q in sp.table
  {
  }

  lemma FailedRest(s: Sys, s': Sys, id: SpaceId, end: CloneEnd)
    requires Valid(s) && id in s.spaces
    requires var sp := s.spaces[id];
             && s'.spaces == s.spaces[id := Space(sp.vmas, ParentTable(sp, end))]
             && s'.refs == (map f | f in s.refs :: s.refs[f] + |Stuck(sp, end, f)|)
             && s'.pool == s.pool && s'.mem == s.mem
    ensures Pooled(s')
    ensures (forall q :: !LeftBehind(s.spaces[id], end, q)) ==> Private(s')
  {
    hide Counted, Lawful, Touched, LeftBehind;
    if forall q :: !LeftBehind(s.spaces[id], end, q) {
      assert forall f :: Stuck(s.spaces[id], end, f) == {};
      forall i, q | i in s'.spaces && q in s'.spaces[i].table
        ensures PrivateAt(s'.refs, s'.spaces[i].table[q])
      {
        assert PrivateAt(s.refs, s.spaces[i].table[q]);
      }
    }
  }
}
