/**
 What user programs see: every run of the copy-on-write system is a run of a system that copies
 eagerly at fork and never shares a page.
 */
module VmRuns {
  import opened Options
  import opened VmaList
  import opened AddressSpace
  import opened VmSteps
  import opened VmFork

  /** An address space with its own pages. */
  datatype OwnSpace = OwnSpace(vmas: seq<Vma>, pages: map<nat, Contents>)

  type Eager = map<SpaceId, OwnSpace>

  ghost function PagesOf(t: map<nat, Pte>, mem: map<Frame, Contents>): map<nat, Contents> {
    map p | p in t && t[p].frame in mem :: mem[t[p].frame]
  }

  /** What each space reads at each of its mapped pages. */
  ghost function Abs(s: Sys): Eager {
    map id | id in s.spaces :: OwnSpace(s.spaces[id].vmas, PagesOf(s.spaces[id].table, s.mem))
  }

  function Minus(t: map<nat, Contents>, a: nat, b: nat): map<nat, Contents> {
    map p | p in t && !(a <= p < b) :: t[p]
  }

  /**
   The eager system. A fork copies every page; a fault brings in a page with arbitrary contents and
   changes nothing else. A store that the area allows changes exactly its page; only when there is no
   memory may it do nothing.
   */
  ghost predicate EagerNext(e: Eager, op: Op, e': Eager) {
    match op
    case Create(id) => e' == if id in e then e else e[id := OwnSpace([], map[])]
    case Map(id, a, b, perm) =>
      e' == if id !in e || b <= a || AnyOverlap(e[id].vmas, a, b) then e
            else e[id := e[id].(vmas := MapVmas(e[id].vmas, Vma(a, b, perm.User())))]
    case Unmap(id, a, b, oom) =>
      if id !in e || b <= a then e' == e
      else
        var v := e[id].vmas;
        e' == e[id := OwnSpace(if oom && Inside(v, a, b) then v else UnmapVmas(v, a, b), Minus(e[id].pages, a, b))]
    case Protect(id, a, b, perm, oomAt) =>
      if id !in e || b <= a then e' == e
      else
        var v := e[id].vmas;
        if !Covered(v, a, b) || (oomAt == 1 && NeedsCut(v, a)) then e' == e
        else if oomAt == 2 && NeedsCut(v, b) then e' == e[id := e[id].(vmas := Cut(v, a))]
        else e' == e[id := OwnSpace(ProtectVmas(v, a, b, perm.User()),
                                    if perm.Zero() then Minus(e[id].pages, a, b) else e[id].pages)]
    case Fault(id, p, cause, frame, tables) =>
      if id in e && p !in e[id].pages && MayAccess(e[id].vmas, p, cause) && frame.Some? && tables
      then exists c :: Brings(e, id, p, c, e') else e' == e
    case Clone(id, child, end) => e' == if id !in e || child in e || !end.Done? then e else e[child := e[id]]
    case Destroy(id) => e' == e - {id}
    case Store(id, p, data, frame, tables) =>
      if id !in e || !MayAccess(e[id].vmas, p, Write) then e' == e
      else if frame.Some? && (tables || p in e[id].pages) then Brings(e, id, p, data, e')
      else e' == e || (p in e[id].pages && Brings(e, id, p, data, e'))
  }

  /** Page `p` of space `id` appears with contents `c`. */
  ghost predicate Brings(e: Eager, id: SpaceId, p: nat, c: Contents, e': Eager) {
    id in e && e' == e[id := e[id].(pages := e[id].pages[p := c])]
  }

  lemma AbsHas(s: Sys, id: SpaceId)
    ensures id in Abs(s) <==> id in s.spaces
    ensures id in s.spaces ==> Abs(s)[id] == OwnSpace(s.spaces[id].vmas, PagesOf(s.spaces[id].table, s.mem))
  {
  }

  lemma AbsSet(s: Sys, s': Sys, id: SpaceId, sp: Space)
    requires s'.spaces == s.spaces[id := sp] && s'.mem == s.mem
    ensures Abs(s') == Abs(s)[id := OwnSpace(sp.vmas, PagesOf(sp.table, s.mem))]
    ensures id in s.spaces ==> Abs(s)[id] == OwnSpace(s.spaces[id].vmas, PagesOf(s.spaces[id].table, s.mem))
    ensures id in Abs(s) <==> id in s.spaces
  {
  }

  // ----- Each step -----

  lemma UnmapEager(s: Sys, id: SpaceId, a: nat, b: nat, oom: bool)
    requires Valid(s)
    ensures EagerNext(Abs(s), Unmap(id, a, b, oom), Abs(Step(s, Unmap(id, a, b, oom))))
  {
    hide Valid, PagesOf, Abs, Minus, UnmapVmas, Inside, Without, DropPages;
    AbsHas(s, id);
    if id in s.spaces && a < b {
      var v, t := s.spaces[id].vmas, s.spaces[id].table;
      var s' := Step(s, Unmap(id, a, b, oom));
      var v' := if oom && Inside(v, a, b) then v else UnmapVmas(v, a, b);
      UnmapSpaces(s, id, a, b);
      AbsSet(s, s', id, Space(v', Without(t, a, b)));
    }
  }

  lemma UnmapSpaces(s: Sys, id: SpaceId, a: nat, b: nat)
    requires Valid(s) && id in s.spaces
    ensures var s', t := DropPages(s, id, a, b), s.spaces[id].table;
            && s'.spaces == s.spaces[id := s.spaces[id].(table := Without(t, a, b))] && s'.mem == s.mem
            && PagesOf(Without(t, a, b), s.mem) == Minus(PagesOf(t, s.mem), a, b)
  {
    assert Lawful(s.spaces[id]);
    LawfulSeen(s.spaces[id]);
    DropPagesSpec(s, id, a, b);
  }

  lemma ProtectEager(s: Sys, id: SpaceId, a: nat, b: nat, perm: Perm, oomAt: nat)
    requires Valid(s)
    ensures EagerNext(Abs(s), Protect(id, a, b, perm, oomAt), Abs(Step(s, Protect(id, a, b, perm, oomAt))))
  {
    hide Valid, PagesOf, Abs, Minus, ProtectVmas, Protected, Covered, ProtectPages, Cut, NeedsCut;
    AbsHas(s, id);
    if id in s.spaces {
      var s' := Step(s, Protect(id, a, b, perm, oomAt));
      var v, t := s.spaces[id].vmas, s.spaces[id].table;
      if b <= a || !Covered(v, a, b) || (oomAt == 1 && NeedsCut(v, a)) {
      } else if oomAt == 2 && NeedsCut(v, b) {
        AbsSet(s, s', id, Space(Cut(v, a), t));
      } else {
        var t', v' := Protected(t, a, b, perm), ProtectVmas(v, a, b, perm.User());
        ProtectSpaces(s, id, a, b, perm);
        ProtectedPages(t, s.mem, a, b, perm);
        AbsSet(s, s', id, Space(v', t'));
      }
    }
  }

  lemma ProtectSpaces(s: Sys, id: SpaceId, a: nat, b: nat, perm: Perm)
    requires Valid(s) && id in s.spaces
    ensures var s' := ProtectPages(s, id, a, b, perm);
            && s'.spaces == s.spaces[id := s.spaces[id].(table := Protected(s.spaces[id].table, a, b, perm))]
            && s'.mem == s.mem
  {
    assert Lawful(s.spaces[id]);
    LawfulSeen(s.spaces[id]);
    ProtectPagesSpec(s, id, a, b, perm);
  }

  lemma ProtectedPages(t: map<nat, Pte>, mem: map<Frame, Contents>, a: nat, b: nat, perm: Perm)
    ensures PagesOf(Protected(t, a, b, perm), mem) == if perm.Zero() then Minus(PagesOf(t, mem), a, b) else PagesOf(t, mem)
  {
  }

  lemma FaultEager(s: Sys, id: SpaceId, p: nat, cause: Cause, frame: Option<Frame>, tables: bool)
    requires Valid(s) && Possible(s, Fault(id, p, cause, frame, tables))
    ensures EagerNext(Abs(s), Fault(id, p, cause, frame, tables), Abs(Step(s, Fault(id, p, cause, frame, tables))))
  {
    hide Valid, Lawful, PagesOf, Abs, PermAt, Allows, CopyPage, FillPage;
    AbsHas(s, id);
    if id in s.spaces {
      var sp := s.spaces[id];
      PresentSeen(s, id, p);
      if MayAccess(sp.vmas, p, cause) && frame.Some? {
        var s', f, perm := Step(s, Fault(id, p, cause, frame, tables)), frame.value, PermAt(sp.vmas, p).value;
        if p !in sp.table && tables {
          FillSpaces(s, id, p, f, perm);
          assert Brings(Abs(s), id, p, s.mem[f], Abs(s'));
        } else if p in sp.table && cause.Write? && sp.table[p].cow {
          CopySpaces(s, id, p, f, perm);
        }
      }
    }
  }

  lemma PresentSeen(s: Sys, id: SpaceId, p: nat)
    requires Valid(s) && id in s.spaces
    ensures p in s.spaces[id].table ==> s.spaces[id].table[p].Seen()
    ensures p in s.spaces[id].table <==> p in PagesOf(s.spaces[id].table, s.mem)
  {
    assert Lawful(s.spaces[id]);
    if p in s.spaces[id].table {
      EntryIsCounted(s, id, p);
    }
  }

  lemma FillSpaces(s: Sys, id: SpaceId, p: nat, f: Frame, perm: Perm)
    requires Valid(s) && id in s.spaces && p !in s.spaces[id].table && f in s.pool
    ensures f in s.mem && id in Abs(s)
    ensures Abs(FillPage(s, id, p, f, perm)) == Abs(s)[id := Abs(s)[id].(pages := Abs(s)[id].pages[p := s.mem[f]])]
  {
    var sp := s.spaces[id];
    var t' := sp.table[p := Own(f, perm)];
    FreshFrame(s, f);
    assert PagesOf(t', s.mem) == PagesOf(sp.table, s.mem)[p := s.mem[f]];
    AbsSet(s, FillPage(s, id, p, f, perm), id, sp.(table := t'));
  }

  lemma CopySpaces(s: Sys, id: SpaceId, p: nat, f: Frame, perm: Perm)
    requires Valid(s) && id in s.spaces && p in s.spaces[id].table && f in s.pool
    ensures Abs(CopyPage(s, id, p, f, perm)) == Abs(s)
  {
    hide Abs, PagesOf;
    FreshFrame(s, f);
    CopySeesSame(s, CopyPage(s, id, p, f, perm), id, p, f, perm);
  }

  lemma FreshFrame(s: Sys, f: Frame)
    requires Counted(s) && Pooled(s) && f in s.pool
    ensures f in s.mem
    ensures forall i, q :: i in s.spaces && q in s.spaces[i].table ==>
              s.spaces[i].table[q].frame in s.mem && s.spaces[i].table[q].frame != f
  {
    forall i, q | i in s.spaces && q in s.spaces[i].table
      ensures s.spaces[i].table[q].frame in s.mem && s.spaces[i].table[q].frame != f
    {
      EntryIsCounted(s, i, q);
    }
  }

  /** After a COW copy every space, the copying one included, reads what it read before. */
  lemma CopySeesSame(s: Sys, s': Sys, id: SpaceId, p: nat, f: Frame, perm: Perm)
    requires id in s.spaces && p in s.spaces[id].table && f in s.mem
    requires forall i, q :: i in s.spaces && q in s.spaces[i].table ==>
               s.spaces[i].table[q].frame in s.mem && s.spaces[i].table[q].frame != f
    requires s'.spaces == s.spaces[id := s.spaces[id].(table := s.spaces[id].table[p := Own(f, perm)])]
    requires s'.mem == s.mem[f := s.mem[s.spaces[id].table[p].frame]]
    ensures Abs(s') == Abs(s)
  {
    forall i | i in s.spaces
      ensures PagesOf(s'.spaces[i].table, s'.mem) == PagesOf(s.spaces[i].table, s.mem)
    {
    }
  }

  lemma CloneEager(s: Sys, id: SpaceId, child: SpaceId, end: CloneEnd)
    requires Valid(s)
    ensures EagerNext(Abs(s), Clone(id, child, end), Abs(Step(s, Clone(id, child, end))))
  {
    hide Valid, CloneStep, Abs, PagesOf;
    AbsHas(s, id);
    AbsHas(s, child);
    if id in s.spaces && child !in s.spaces {
      NothingDone(s, id, child);
      if CanEnd(s.spaces[id], end) {
        match end
        case Done => DoneAbs(s, id, child);
        case NoSpace =>
        case NoArea(_) => FailedAbs(s, id, child, end);
        case NoTable(_, _) => FailedAbs(s, id, child, end);
      }
    }
  }

  lemma DoneAbs(s: Sys, id: SpaceId, child: SpaceId)
    requires Valid(s) && id in s.spaces && child !in s.spaces
    ensures id in Abs(s) && Abs(CloneStep(s, id, child, Done)) == Abs(s)[child := Abs(s)[id]]
  {
    hide CloneStep, Abs, Lawful;
    CloneDone(s, id, child);
    AbsClone(s, CloneStep(s, id, child, Done), id, child);
  }

  /** A fork that fails changes nothing that anyone reads. */
  lemma FailedAbs(s: Sys, id: SpaceId, child: SpaceId, end: CloneEnd)
    requires Valid(s) && id in s.spaces && child !in s.spaces
    requires CanEnd(s.spaces[id], end) && (end.NoArea? || end.NoTable?)
    ensures Abs(CloneStep(s, id, child, end)) == Abs(s)
  {
    hide Valid, CloneStep, Abs, ParentTable, PagesOf;
    var sp := s.spaces[id];
    FailedSpaces(s, id, child, end);
    ParentFrames(sp, end);
    FramePages(sp.table, ParentTable(sp, end), s.mem);
    AbsSet(s, CloneStep(s, id, child, end), id, Space(sp.vmas, ParentTable(sp, end)));
    UpdateSame(Abs(s), id);
  }

  lemma FramePages(t: map<nat, Pte>, u: map<nat, Pte>, mem: map<Frame, Contents>)
    requires SameFrames(t, u)
    ensures PagesOf(u, mem) == PagesOf(t, mem)
  {
  }

  lemma AbsClone(s: Sys, s': Sys, id: SpaceId, child: SpaceId)
    requires id in s.spaces && child !in s.spaces && Lawful(s.spaces[id]) && s'.mem == s.mem
    requires var sp := s.spaces[id];
             var f := Forked(sp.table, sp.vmas);
             s'.spaces == s.spaces[id := Space(sp.vmas, f)][child := Space(sp.vmas, f)]
    ensures id in Abs(s) && Abs(s') == Abs(s)[child := Abs(s)[id]]
  {
    var sp := s.spaces[id];
    var f := Forked(sp.table, sp.vmas);
    hide PagesOf, Abs, Forked, PermAt, Lawful;
    ForkedPages(sp, s.mem);
    var m := s.(spaces := s.spaces[id := Space(sp.vmas, f)]);
    AbsSet(s, m, id, Space(sp.vmas, f));
    UpdateSame(Abs(s), id);
    AbsSet(m, s', child, Space(sp.vmas, f));
  }

  lemma UpdateSame<K, V>(m: map<K, V>, k: K)
    requires k in m
    ensures m[k := m[k]] == m
  {
  }

  lemma ForkedPages(sp: Space, mem: map<Frame, Contents>)
    requires Lawful(sp)
    ensures PagesOf(Forked(sp.table, sp.vmas), mem) == PagesOf(sp.table, mem)
  {
    ParentAll(sp);
    ParentFrames(sp, Done);
    FramePages(sp.table, Forked(sp.table, sp.vmas), mem);
  }

  lemma DestroyEager(s: Sys, id: SpaceId)
    requires Valid(s)
    ensures EagerNext(Abs(s), Destroy(id), Abs(Step(s, Destroy(id))))
  {
    if id in s.spaces {
      assert Lawful(s.spaces[id]);
      LawfulSeen(s.spaces[id]);
      DropVmasSpec(s, id, s.spaces[id].vmas, |s.spaces[id].vmas|);
    } else {
      assert Abs(s) - {id} == Abs(s);
    }
  }

  /** Isolation: what is stored changes what is read at one page of one space, and nowhere else. */
  lemma PutEager(s: Sys, id: SpaceId, p: nat, data: Contents)
    requires Valid(s) && Writable(s, id, p)
    ensures var e := Abs(s);
            && id in e && p in e[id].pages && MayAccess(e[id].vmas, p, Write)
            && Brings(e, id, p, data, Abs(Put(s, id, p, data)))
  {
    hide Valid, Abs, PagesOf, PermAt;
    AloneOnFrame(s, id, p);
    StoreAbs(s, Put(s, id, p, data), id, p, data);
    AbsHas(s, id);
    PagesHas(s.spaces[id].table, s.mem, p);
  }

  /** Read your writes: a store instruction, with the fault it may take, is the store of the eager system. */
  lemma StoreEager(s: Sys, id: SpaceId, p: nat, data: Contents, frame: Option<Frame>, tables: bool)
    requires Valid(s) && Possible(s, Store(id, p, data, frame, tables))
    ensures EagerNext(Abs(s), Store(id, p, data, frame, tables), Abs(Step(s, Store(id, p, data, frame, tables))))
  {
    hide Valid, Abs, PagesOf, MayAccess, FaultStep, Put, Writable;
    AbsHas(s, id);
    if id in s.spaces {
      var s1 := FaultStep(s, id, p, Write, frame, tables);
      PresentSeen(s, id, p);
      if Writable(s, id, p) {
        PutEager(s, id, p, data);
      } else {
        WriteFaultGrants(s, id, p, frame, tables);
        if Writable(s1, id, p) {
          assert s1 == Step(s, Fault(id, p, Write, frame, tables));
          FaultValid(s, id, p, Write, frame, tables);
          FaultEager(s, id, p, Write, frame, tables);
          PutEager(s1, id, p, data);
          BringsTwice(Abs(s), Abs(s1), id, p, data, Abs(Put(s1, id, p, data)));
        }
      }
    }
  }

  lemma BringsTwice(e: Eager, e1: Eager, id: SpaceId, p: nat, c: Contents, e': Eager)
    requires e1 == e || exists d :: Brings(e, id, p, d, e1)
    requires Brings(e1, id, p, c, e')
    ensures Brings(e, id, p, c, e')
  {
    if e1 != e {
      var d :| Brings(e, id, p, d, e1);
      assert e[id].pages[p := d][p := c] == e[id].pages[p := c];
    }
  }

  /** A page that may be written is writable in its area, and no other entry has its frame. */
  lemma AloneOnFrame(s: Sys, id: SpaceId, p: nat)
    requires Valid(s) && id in s.spaces && p in s.spaces[id].table && s.spaces[id].table[p].w
    ensures var f := s.spaces[id].table[p].frame;
            f in s.mem && forall i, q :: i in s.spaces && q in s.spaces[i].table && (i, q) != (id, p) ==> s.spaces[i].table[q].frame != f
    ensures PermAt(s.spaces[id].vmas, p).Some? && PermAt(s.spaces[id].vmas, p).value.w
  {
    var f := s.spaces[id].table[p].frame;
    EntryIsCounted(s, id, p);
    assert PrivateAt(s.refs, s.spaces[id].table[p]);
    assert Lawful(s.spaces[id]);
    hide Counted, Lawful, Private, PermAt;
    forall i, q | i in s.spaces && q in s.spaces[i].table && (i, q) != (id, p)
      ensures s.spaces[i].table[q].frame != f
    {
      if s.spaces[i].table[q].frame == f {
        EntryIsCounted(s, i, q);
        AnotherMember(Mappers(s.spaces, f), (id, p), (i, q));
      }
    }
  }

  lemma PagesHas(t: map<nat, Pte>, mem: map<Frame, Contents>, p: nat)
    requires p in t && t[p].frame in mem
    ensures p in PagesOf(t, mem)
  {
  }

  lemma StoreAbs(s: Sys, s': Sys, id: SpaceId, p: nat, data: Contents)
    requires id in s.spaces && p in s.spaces[id].table && s.spaces[id].table[p].frame in s.mem
    requires s' == s.(mem := s.mem[s.spaces[id].table[p].frame := data])
    requires forall i, q :: i in s.spaces && q in s.spaces[i].table && (i, q) != (id, p) ==>
               s.spaces[i].table[q].frame != s.spaces[id].table[p].frame
    ensures id in Abs(s) && Abs(s') == Abs(s)[id := Abs(s)[id].(pages := Abs(s)[id].pages[p := data])]
  {
    hide PagesOf;
    var f := s.spaces[id].table[p].frame;
    forall i | i in s.spaces
      ensures PagesOf(s.spaces[i].table, s'.mem) ==
              if i == id then PagesOf(s.spaces[i].table, s.mem)[p := data] else PagesOf(s.spaces[i].table, s.mem)
    {
      if i == id {
        StorePages(s.spaces[i].table, s.mem, f, data, p);
      } else {
        StoreElsewhere(s.spaces[i].table, s.mem, f, data);
      }
    }
  }

  lemma StorePages(t: map<nat, Pte>, mem: map<Frame, Contents>, f: Frame, data: Contents, p: nat)
    requires p in t && t[p].frame == f && f in mem && forall q :: q in t && q != p ==> t[q].frame != f
    ensures PagesOf(t, mem[f := data]) == PagesOf(t, mem)[p := data]
  {
  }

  lemma StoreElsewhere(t: map<nat, Pte>, mem: map<Frame, Contents>, f: Frame, data: Contents)
    requires f in mem && forall q :: q in t ==> t[q].frame != f
    ensures PagesOf(t, mem[f := data]) == PagesOf(t, mem)
  {
  }

  /**
   A write fault leaves the page writable if and only if the area allows it and there is memory for
   what it needs; otherwise it does nothing.
   */
  lemma WriteFaultGrants(s: Sys, id: SpaceId, p: nat, frame: Option<Frame>, tables: bool)
    requires Valid(s) && id in s.spaces && !Writable(s, id, p)
    ensures var s', sp := FaultStep(s, id, p, Write, frame, tables), s.spaces[id];
            if MayAccess(sp.vmas, p, Write) && frame.Some? && (tables || p in sp.table) then Writable(s', id, p) else s' == s
  {
    hide Counted, Pooled, Private, PermAt;
    assert Lawful(s.spaces[id]);
  }

  // ----- Every run -----

  ghost function Run(s: Sys, ops: seq<Op>): Sys {
    if ops == [] then s else Step(Run(s, ops[..|ops| - 1]), ops[|ops| - 1])
  }

  ghost predicate AllowedRun(s: Sys, ops: seq<Op>) {
    ops == [] || (AllowedRun(s, ops[..|ops| - 1]) && Allowed(Run(s, ops[..|ops| - 1]), ops[|ops| - 1]))
  }

  ghost predicate EagerRun(e: Eager, ops: seq<Op>, e': Eager) {
    if ops == [] then e' == e
    else exists m :: EagerRun(e, ops[..|ops| - 1], m) && LastNext(m, ops, e')
  }

  ghost predicate LastNext(m: Eager, ops: seq<Op>, e': Eager) {
    ops != [] && EagerNext(m, ops[|ops| - 1], e')
  }

  lemma StepSafe(s: Sys, op: Op)
    requires Valid(s) && Allowed(s, op)
    ensures Valid(Step(s, op)) && EagerNext(Abs(s), op, Abs(Step(s, op)))
  {
    hide Valid, Step, Abs, EagerNext;
    StepValidIff(s, op);
    match op
    case Create(id) => CreateEager(s, id);
    case Map(id, a, b, perm) => MapEager(s, id, a, b, perm);
    case Unmap(id, a, b, oom) => UnmapEager(s, id, a, b, oom);
    case Protect(id, a, b, perm, n) => ProtectEager(s, id, a, b, perm, n);
    case Fault(id, p, c, f, t) => FaultEager(s, id, p, c, f, t);
    case Clone(id, child, end) => CloneEager(s, id, child, end);
    case Destroy(id) => DestroyEager(s, id);
    case Store(id, p, data, f, t) => StoreEager(s, id, p, data, f, t);
  }

  lemma CreateEager(s: Sys, id: SpaceId)
    ensures EagerNext(Abs(s), Create(id), Abs(Step(s, Create(id))))
  {
    hide Abs, PagesOf;
    AbsHas(s, id);
    if id !in s.spaces {
      NoPages(s.mem);
      AbsSet(s, Step(s, Create(id)), id, Space([], map[]));
    }
  }

  lemma NoPages(mem: map<Frame, Contents>)
    ensures PagesOf(map[], mem) == map[]
  {
  }

  lemma MapEager(s: Sys, id: SpaceId, a: nat, b: nat, perm: Perm)
    ensures EagerNext(Abs(s), Map(id, a, b, perm), Abs(Step(s, Map(id, a, b, perm))))
  {
    hide MapVmas, AnyOverlap, Abs, PagesOf;
    var s' := Step(s, Map(id, a, b, perm));
    AbsHas(s, id);
    if id in s.spaces && a < b && !AnyOverlap(s.spaces[id].vmas, a, b) {
      AbsSet(s, s', id, s.spaces[id].(vmas := MapVmas(s.spaces[id].vmas, Vma(a, b, perm.User()))));
    }
  }

  lemma StoreValid(s: Sys, id: SpaceId, p: nat, data: Contents, frame: Option<Frame>, tables: bool)
    requires Valid(s) && Possible(s, Store(id, p, data, frame, tables))
    ensures Valid(Step(s, Store(id, p, data, frame, tables)))
  {
    hide Valid, FaultStep, Put, Writable;
    if id in s.spaces {
      var s1 := if Writable(s, id, p) then s else FaultStep(s, id, p, Write, frame, tables);
      if !Writable(s, id, p) {
        assert s1 == Step(s, Fault(id, p, Write, frame, tables));
        FaultValid(s, id, p, Write, frame, tables);
      }
      if Writable(s1, id, p) { PutValid(s1, id, p, data); }
    }
  }

  lemma PutValid(s: Sys, id: SpaceId, p: nat, data: Contents)
    requires Valid(s) && Writable(s, id, p)
    ensures Valid(Put(s, id, p, data))
  {
    EntryIsCounted(s, id, p);
    assert Put(s, id, p, data).mem.Keys == s.mem.Keys;
  }

  /** The invariant survives a step if and only if the step is harmless. */
  lemma StepValidIff(s: Sys, op: Op)
    requires Valid(s) && Possible(s, op)
    ensures Valid(Step(s, op)) <==> Harmless(s, op)
  {
    hide Valid, Step;
    match op
    case Create(id) => CreateValid(s, id);
    case Map(id, a, b, perm) => MapValid(s, id, a, b, perm);
    case Unmap(id, a, b, oom) => UnmapValid(s, id, a, b, oom);
    case Protect(id, a, b, perm, n) => ProtectValid(s, id, a, b, perm, n);
    case Fault(id, p, c, f, t) => FaultValid(s, id, p, c, f, t);
    case Clone(id, child, end) => CloneValid(s, id, child, end);
    case Destroy(id) => DestroyValid(s, id);
    case Store(id, p, data, f, t) => StoreValid(s, id, p, data, f, t);
  }

  lemma CreateValid(s: Sys, id: SpaceId)
    requires Valid(s)
    ensures Valid(Step(s, Create(id)))
  {
    if id !in s.spaces { AddEmpty(s, id); }
  }

  /** Over every allowed run the invariant holds, and what the spaces read is what eager copying gives. */
  lemma {:induction false} RunSafe(s: Sys, ops: seq<Op>)
    requires Valid(s) && AllowedRun(s, ops)
    ensures Valid(Run(s, ops)) && EagerRun(Abs(s), ops, Abs(Run(s, ops)))
  {
    if ops != [] {
      var m := Run(s, ops[..|ops| - 1]);
      RunSafe(s, ops[..|ops| - 1]);
      StepSafe(m, ops[|ops| - 1]);
      assert EagerRun(Abs(s), ops[..|ops| - 1], Abs(m)) && LastNext(Abs(m), ops, Abs(Run(s, ops)));
    }
  }

  /** Everything that starts with no spaces and all frames free. */
  lemma BootSafe(mem: map<Frame, Contents>, ops: seq<Op>)
    requires AllowedRun(Sys(map[], map[], mem.Keys, mem), ops)
    ensures var s := Run(Sys(map[], map[], mem.Keys, mem), ops);
            Valid(s) && Isolated(s) && EagerRun(map[], ops, Abs(s))
  {
    hide Run, AllowedRun, EagerRun, Isolated;
    var s := Sys(map[], map[], mem.Keys, mem);
    assert forall f :: Mappers(s.spaces, f) == {};
    assert Abs(s) == map[];
    RunSafe(s, ops);
    IsolatedIffPrivate(Run(s, ops));
  }

  // ----- Where the promise ends -----

  /** No store changes what is read at another page, whatever is stored. */
  ghost predicate Isolated(s: Sys) {
    forall id, p, i, q, data ::
      Writable(s, id, p) && i in s.spaces && q in s.spaces[i].table && (i, q) != (id, p) ==>
        ReadsSame(s, Put(s, id, p, data), i, q)
  }

  ghost predicate ReadsSame(s: Sys, s': Sys, i: SpaceId, q: nat)
    requires i in s.spaces && q in s.spaces[i].table
  {
    var f := s.spaces[i].table[q].frame;
    f in s.mem && f in s'.mem && s'.mem[f] == s.mem[f]
  }

  /** Isolation is exactly the privacy of writable pages. */
  lemma IsolatedIffPrivate(s: Sys)
    requires Counted(s) && Pooled(s)
    ensures Isolated(s) <==> Private(s)
  {
    if Private(s) {
      forall id, p, i, q, data | Writable(s, id, p) && i in s.spaces && q in s.spaces[i].table && (i, q) != (id, p)
        ensures ReadsSame(s, Put(s, id, p, data), i, q)
      {
        var f := s.spaces[id].table[p].frame;
        assert PrivateAt(s.refs, s.spaces[id].table[p]);
        EntryIsCounted(s, id, p);
        EntryIsCounted(s, i, q);
        if s.spaces[i].table[q].frame == f { AnotherMember(Mappers(s.spaces, f), (id, p), (i, q)); }
      }
    } else {
      var id, p :| id in s.spaces && p in s.spaces[id].table && !PrivateAt(s.refs, s.spaces[id].table[p]);
      var f := s.spaces[id].table[p].frame;
      EntryIsCounted(s, id, p);
      var m := Mappers(s.spaces, f);
      var x :| x in m - {(id, p)} by {
        assert |m - {(id, p)}| == |m| - 1;
        if m - {(id, p)} == {} { assert false; }
      }
      assert !ReadsSame(s, Put(s, id, p, s.mem[f] + [0]), x.0, x.1);
    }
  }

  /** Spaces 0 and 1 share page 1 read-only, as a fork of a read-only area leaves them. */
  ghost function ReadOnlyFork(): Sys {
    var sp := Space([Vma(1, 2, Perm(true, false, false, true))], map[1 := Pte(7, true, false, false, true, true, false)]);
    Sys(map[0 := sp, 1 := sp], map[7 := 2], {}, map[7 := [0]])
  }

  lemma ReadOnlyForkCounted()
    ensures Counted(ReadOnlyFork())
  {
    var s := ReadOnlyFork();
    forall f
      ensures CountedAt(s.refs, f, Mappers(s.spaces, f))
    {
      assert Mappers(s.spaces, f) == if f == 7 then {(0, 1), (1, 1)} else {};
    }
  }

  lemma ReadOnlyForkValid()
    ensures Valid(ReadOnlyFork())
  {
    ReadOnlyForkCounted();
    hide Counted;
    var v := [Vma(1, 2, Perm(true, false, false, true))];
    assert forall p: nat :: PermAt(v, p) == if p == 1 then Some(v[0].perm) else None;
  }

  /**
   A protect call that newly grants write to such a page breaks the isolation: space 0 then writes
   what space 1 reads.
   */
  lemma GrantedWriteLeaks()
    ensures Valid(ReadOnlyFork())
    ensures var s1 := Step(ReadOnlyFork(), Protect(0, 1, 2, Perm(true, true, false, false), 0));
            && 1 in s1.spaces && 1 in s1.spaces[1].table
            && !ReadsSame(s1, Step(s1, Store(0, 1, [1], None, false)), 1, 1)
  {
    ReadOnlyForkValid();
    hide Valid;
    var s, perm := ReadOnlyFork(), Perm(true, true, false, false);
    assert Covered(s.spaces[0].vmas, 1, 2);
    assert ProtectPages(s, 0, 1, 1, perm) == s;
    assert ProtectPages(s, 0, 1, 2, perm) == ProtectPage(s, 0, 1, perm);
    var s1 := Step(s, Protect(0, 1, 2, perm, 0));
    assert s1.spaces[0].table[1] == Own(7, perm.User()) && s1.mem == s.mem && s1.spaces[1] == s.spaces[1];
  }

  /** Spaces 0 and 1 share page 1 copy-on-write, as a fork of a writable area leaves them. Frame 8 is free. */
  ghost function WritableFork(): Sys {
    var sp := Space([Vma(1, 2, Perm(true, true, false, true))], map[1 := Pte(7, true, false, false, true, true, true)]);
    Sys(map[0 := sp, 1 := sp], map[7 := 2], {8}, map[7 := [0], 8 := [5]])
  }

  lemma WritableForkCounted()
    ensures Counted(WritableFork())
  {
    var s := WritableFork();
    forall f
      ensures CountedAt(s.refs, f, Mappers(s.spaces, f))
    {
      assert Mappers(s.spaces, f) == if f == 7 then {(0, 1), (1, 1)} else {};
    }
  }

  lemma WritableForkValid()
    ensures Valid(WritableFork())
  {
    WritableForkCounted();
    hide Counted;
    var v := [Vma(1, 2, Perm(true, true, false, true))];
    assert forall p: nat :: PermAt(v, p) == if p == 1 then Some(v[0].perm) else None;
  }

  /**
   A protect call that leaves only W on such a page hides it: the next write fault maps a fresh frame
   over it, so that the data is gone and the old frame's count is too high for good.
   */
  lemma HiddenPageLost()
    ensures Valid(WritableFork())
    ensures var s1 := Step(WritableFork(), Protect(0, 1, 2, Perm(false, true, false, false), 0));
            var s2 := Step(s1, Fault(0, 1, Write, Some(8), true));
            && 0 in s1.spaces && 1 in s1.spaces[0].table && !s1.spaces[0].table[1].Seen()
            && 0 in Abs(s2) && 1 in Abs(s2)[0].pages && Abs(s2)[0].pages[1] != Abs(WritableFork())[0].pages[1]
            && !Counted(s2)
  {
    WritableForkValid();
    hide Valid;
    var s, perm := WritableFork(), Perm(false, true, false, false);
    assert Covered(s.spaces[0].vmas, 1, 2);
    assert ProtectPages(s, 0, 1, 1, perm) == s;
    assert ProtectPages(s, 0, 1, 2, perm) == ProtectPage(s, 0, 1, perm);
    var s1 := Step(s, Protect(0, 1, 2, perm, 0));
    assert s1.spaces[0].table[1] == Share(7, perm.User()) && s1.spaces[1] == s.spaces[1] && s1.refs == s.refs;
    var v := s1.spaces[0].vmas;
    assert v == [Vma(1, 2, perm.User())];
    var s2 := Step(s1, Fault(0, 1, Write, Some(8), true));
    assert s2 == FillPage(s1, 0, 1, 8, perm.User());
    HiddenCount(s2);
  }

  lemma HiddenCount(s: Sys)
    requires s.spaces.Keys == {0, 1} && 7 in s.refs && s.refs[7] == 2
    requires s.spaces[0].table.Keys == {1} && s.spaces[0].table[1].frame == 8
    requires s.spaces[1].table.Keys == {1} && s.spaces[1].table[1].frame == 7
    ensures !Counted(s)
  {
    assert Mappers(s.spaces, 7) == {(1, 1)};
    assert !CountedAt(s.refs, 7, Mappers(s.spaces, 7));
  }

  /** One page that can only be written. */
  ghost function WriteOnly(): Sys {
    var sp := Space([Vma(1, 2, Perm(false, true, false, true))], map[1 := Pte(7, false, true, false, true, true, false)]);
    Sys(map[0 := sp], map[7 := 1], {}, map[7 := [0]])
  }

  lemma WriteOnlyValid()
    ensures Valid(WriteOnly())
  {
    var s, v := WriteOnly(), [Vma(1, 2, Perm(false, true, false, true))];
    forall f
      ensures CountedAt(s.refs, f, Mappers(s.spaces, f))
    {
      assert Mappers(s.spaces, f) == if f == 7 then {(0, 1)} else {};
    }
    hide Counted;
    assert forall p: nat :: PermAt(v, p) == if p == 1 then Some(v[0].perm) else None;
  }

  /** A fork hides such a page from parent and child. */
  lemma ForkHides()
    ensures Valid(WriteOnly())
    ensures var s := Step(WriteOnly(), Clone(0, 1, Done));
            && 0 in s.spaces && 1 in s.spaces[0].table && !s.spaces[0].table[1].Seen()
            && 1 in s.spaces && 1 in s.spaces[1].table && !s.spaces[1].table[1].Seen()
  {
    WriteOnlyValid();
    var v := [Vma(1, 2, Perm(false, true, false, true))];
    assert PermAt(v, 1) == Some(v[0].perm);
    hide Valid, CloneStep;
    CloneDone(WriteOnly(), 0, 1);
  }

  /** Two writable pages in one area, whose entries are in different page-table pages. */
  ghost function TwoPages(): Sys {
    var sp := Space([Vma(511, 513, Perm(true, true, false, true))],
                    map[511 := Pte(7, true, true, false, true, true, false), 512 := Pte(8, true, true, false, true, true, false)]);
    Sys(map[0 := sp], map[7 := 1, 8 := 1], {}, map[7 := [0], 8 := [0]])
  }

  lemma TwoPagesCounted()
    ensures Counted(TwoPages())
  {
    var s := TwoPages();
    forall f
      ensures CountedAt(s.refs, f, Mappers(s.spaces, f))
    {
      assert Mappers(s.spaces, f) == if f == 7 then {(0, 511)} else if f == 8 then {(0, 512)} else {};
    }
  }

  lemma TwoPagesValid()
    ensures Valid(TwoPages())
  {
    hide Counted;
    TwoPagesCounted();
    var v := [Vma(511, 513, Perm(true, true, false, true))];
    assert forall p: nat :: PermAt(v, p) == if 511 <= p < 513 then Some(v[0].perm) else None;
  }

  /** A fork that gets the first page-table page and not the second leaves the first frame's count too high. */
  lemma HalfForkLeaks()
    ensures Valid(TwoPages())
    ensures var s := Step(TwoPages(), Clone(0, 1, NoTable(0, 512)));
            1 !in s.spaces && 7 in s.refs && s.refs[7] == 2 && 8 in s.refs && s.refs[8] == 1 && !Counted(s)
  {
    TwoPagesValid();
    hide Valid, CloneStep, Touched, ParentTable;
    var s, end := TwoPages(), NoTable(0, 512);
    var sp := s.spaces[0];
    FailedFork(s, 0, 1, end);
    assert Stuck(sp, end, 7) == {511} && Stuck(sp, end, 8) == {};
    assert LeftBehind(sp, end, 511);
    CountedOf(s);
    FailedCounts(s, Step(s, Clone(0, 1, end)), 0, end);
  }

  lemma CountedOf(s: Sys)
    requires Valid(s)
    ensures Counted(s)
  {
  }

  /** A page that a fork shares stays visible to `lookup` exactly when R or X is left without W. */
  lemma ForkKeepsSeen(s: Sys, from: SpaceId, to: SpaceId, p: nat, perm: Perm)
    requires Counted(s) && from in s.spaces && to in s.spaces && from != to
    requires p in s.spaces[from].table && s.spaces[from].table[p].Seen()
    ensures var e, s' := s.spaces[from].table[p], SharePage(s, from, to, p, perm);
            && p in s'.spaces[from].table && p in s'.spaces[to].table
            && (s'.spaces[from].table[p].Seen() <==> !perm.w || e.r || e.x)
            && (s'.spaces[to].table[p].Seen() <==> perm.r || perm.x)
  {
    EntryIsCounted(s, from, p);
  }
}
