/**
 The loops of fdt/fdt.cc over a structure block. Device nodes are records numbered in the order they
 are made; each has its properties and the numbers of its children, appended as fdt/device_node.cc
 appends to its lists.
 */
module FdtManager {
  import opened Options
  import opened Fdt
  import opened FdtTree

  datatype Rec = Rec(name: Bytes, props: seq<Prop>, children: seq<nat>)

  type Nodes = seq<Rec>

  predicate Inside(ids: seq<nat>, lo: nat, hi: nat) {
    forall k :: 0 <= k < |ids| ==> lo <= ids[k] < hi
  }

  /** Children are made after their parent, and those of nodes in [lo, hi) are in it too. */
  ghost predicate Sealed(nodes: Nodes, lo: nat, hi: nat) {
    hi <= |nodes| && forall id :: lo <= id < hi ==> Inside(nodes[id].children, id + 1, hi)
  }

  /** The tree of a node in a sealed part of the memory. */
  ghost function TreeOf(nodes: Nodes, id: nat, hi: nat): Node
    requires id < hi && Sealed(nodes, id, hi)
    decreases hi - id, 1, 0
  {
    Node(nodes[id].name, nodes[id].props, TreesOf(nodes, nodes[id].children, id + 1, hi))
  }

  ghost function TreesOf(nodes: Nodes, ids: seq<nat>, lo: nat, hi: nat): seq<Node>
    requires lo <= hi && Sealed(nodes, lo, hi) && Inside(ids, lo, hi)
    decreases hi - lo, 2, |ids|
  {
    if ids == [] then [] else [TreeOf(nodes, ids[0], hi)] + TreesOf(nodes, ids[1..], lo, hi)
  }

  ghost predicate Agree(nodes: Nodes, nodes': Nodes, lo: nat, hi: nat) {
    hi <= |nodes| && hi <= |nodes'| && forall id :: lo <= id < hi ==> nodes'[id] == nodes[id]
  }

  /** A sealed part does not depend on the rest. */
  lemma {:induction false} TreeKept(nodes: Nodes, nodes': Nodes, id: nat, hi: nat)
    requires id < hi && Sealed(nodes, id, hi) && Agree(nodes, nodes', id, hi)
    ensures Sealed(nodes', id, hi) && TreeOf(nodes', id, hi) == TreeOf(nodes, id, hi)
    decreases hi - id, 1, 0
  {
    TreesKept(nodes, nodes', nodes[id].children, id + 1, hi);
  }

  lemma {:induction false} TreesKept(nodes: Nodes, nodes': Nodes, ids: seq<nat>, lo: nat, hi: nat)
    requires lo <= hi && Sealed(nodes, lo, hi) && Inside(ids, lo, hi) && Agree(nodes, nodes', lo, hi)
    ensures Sealed(nodes', lo, hi) && TreesOf(nodes', ids, lo, hi) == TreesOf(nodes, ids, lo, hi)
    decreases hi - lo, 2, |ids|
  {
    if ids != [] {
      TreeKept(nodes, nodes', ids[0], hi);
      TreesKept(nodes, nodes', ids[1..], lo, hi);
    }
  }

  /** A larger part that is sealed too makes no difference. */
  lemma {:induction false} TreeWider(nodes: Nodes, id: nat, hi: nat, hi': nat)
    requires id < hi <= hi' && Sealed(nodes, id, hi) && Sealed(nodes, id, hi')
    ensures TreeOf(nodes, id, hi') == TreeOf(nodes, id, hi)
    decreases hi - id, 1, 0
  {
    TreesWider(nodes, nodes[id].children, id + 1, hi, id + 1, hi');
  }

  lemma {:induction false} TreesWider(nodes: Nodes, ids: seq<nat>, lo: nat, hi: nat, lo': nat, hi': nat)
    requires lo' <= lo <= hi <= hi' && Sealed(nodes, lo, hi) && Sealed(nodes, lo', hi') && Inside(ids, lo, hi)
    ensures TreesOf(nodes, ids, lo', hi') == TreesOf(nodes, ids, lo, hi)
    decreases hi - lo, 2, |ids|
  {
    if ids != [] {
      TreeWider(nodes, ids[0], hi, hi');
      TreesWider(nodes, ids[1..], lo, hi, lo', hi');
    }
  }

  lemma {:induction false} TreesAppend(nodes: Nodes, ids: seq<nat>, id: nat, lo: nat, hi: nat)
    requires lo <= hi && Sealed(nodes, lo, hi) && Inside(ids, lo, hi) && lo <= id < hi
    ensures TreesOf(nodes, ids + [id], lo, hi) == TreesOf(nodes, ids, lo, hi) + [TreeOf(nodes, id, hi)]
    decreases |ids|
  {
    if ids == [] {
      assert [] + [id] == [id];
    } else {
      assert (ids + [id])[1..] == ids[1..] + [id];
      TreesAppend(nodes, ids[1..], id, lo, hi);
    }
  }

  // ----- Open nodes -----

  /** Where the part of the memory below stack entry `i` ends: at the next open node, or at the end. */
  function Bound(nodes: Nodes, stack: seq<nat>, i: nat): nat
    requires i < |stack|
  {
    if i + 1 < |stack| then stack[i + 1] else |nodes|
  }

  /** The children that are closed: all of them, or all but the last, which is open. */
  function ClosedOf(nodes: Nodes, stack: seq<nat>, i: nat): seq<nat>
    requires i < |stack| && stack[i] < |nodes|
  {
    var cs := nodes[stack[i]].children;
    if i + 1 < |stack| && cs != [] then cs[..|cs| - 1] else cs
  }

  ghost predicate LevelOk(nodes: Nodes, stack: seq<nat>, i: nat)
    requires i < |stack|
  {
    var hi := Bound(nodes, stack, i);
    && stack[i] < hi <= |nodes| && Sealed(nodes, stack[i] + 1, hi)
    && Inside(ClosedOf(nodes, stack, i), stack[i] + 1, hi)
    && (i + 1 < |stack| ==> nodes[stack[i]].children == ClosedOf(nodes, stack, i) + [stack[i + 1]])
  }

  ghost predicate StackOk(nodes: Nodes, stack: seq<nat>) {
    forall i :: 0 <= i < |stack| ==> LevelOk(nodes, stack, i)
  }

  ghost function PartialAt(nodes: Nodes, stack: seq<nat>, i: nat): Partial
    requires i < |stack| && LevelOk(nodes, stack, i)
  {
    var r := nodes[stack[i]];
    Partial(r.name, r.props, TreesOf(nodes, ClosedOf(nodes, stack, i), stack[i] + 1, Bound(nodes, stack, i)))
  }

  ghost function Partials(nodes: Nodes, stack: seq<nat>): seq<Partial>
    requires StackOk(nodes, stack)
  {
    seq(|stack|, i requires 0 <= i < |stack| => PartialAt(nodes, stack, i))
  }

  /** The root is finished when nothing is open. */
  ghost predicate RootOk(nodes: Nodes, stack: seq<nat>, root: Option<nat>) {
    match root
    case None => stack == []
    case Some(r) => if stack == [] then r < |nodes| && Sealed(nodes, r, |nodes|) else r == stack[0]
  }

  ghost function Abs(nodes: Nodes, stack: seq<nat>, root: Option<nat>): Build
    requires StackOk(nodes, stack) && RootOk(nodes, stack, root)
  {
    Build(if stack == [] && root.Some? then Some(TreeOf(nodes, root.value, |nodes|)) else None, Partials(nodes, stack))
  }

  // ----- The three steps -----

  /** The new node, which becomes the last child of the innermost open one. */
  function AddNode(nodes: Nodes, stack: seq<nat>, name: Bytes): Nodes
    requires stack != [] ==> stack[|stack| - 1] < |nodes|
  {
    var ns := if stack == [] then nodes
              else
                var t := stack[|stack| - 1];
                nodes[t := nodes[t].(children := nodes[t].children + [|nodes|])];
    ns + [Rec(name, [], [])]
  }

  lemma OpenStep(nodes: Nodes, stack: seq<nat>, root: Option<nat>, name: Bytes)
    requires StackOk(nodes, stack) && RootOk(nodes, stack, root)
    ensures stack != [] ==> stack[|stack| - 1] < |nodes|
    ensures var nodes', stack' := AddNode(nodes, stack, name), stack + [|nodes|];
            var root' := if stack == [] then Some(|nodes|) else root;
            && StackOk(nodes', stack') && RootOk(nodes', stack', root')
            && Abs(nodes', stack', root') == Build(None, Abs(nodes, stack, root).stack + [Partial(name, [], [])])
  {
    var n := |stack|;
    if n > 0 { assert LevelOk(nodes, stack, n - 1); }
    var nodes', stack' := AddNode(nodes, stack, name), stack + [|nodes|];
    forall i | 0 <= i < n
      ensures LevelOk(nodes', stack', i) && PartialAt(nodes', stack', i) == PartialAt(nodes, stack, i)
    {
      OpenLevel(nodes, stack, name, i);
    }
    assert LevelOk(nodes', stack', n) && PartialAt(nodes', stack', n) == Partial(name, [], []);
    assert Partials(nodes', stack') == Partials(nodes, stack) + [Partial(name, [], [])];
  }

  lemma Increasing(nodes: Nodes, stack: seq<nat>, i: nat, j: nat)
    requires StackOk(nodes, stack) && i < j < |stack|
    ensures stack[i] < stack[j] < |nodes| && Bound(nodes, stack, i) <= stack[j]
    decreases j - i
  {
    assert LevelOk(nodes, stack, i) && LevelOk(nodes, stack, j);
    if i + 1 < j { Increasing(nodes, stack, i + 1, j); }
  }

  lemma LevelFrom(nodes: Nodes, stack: seq<nat>, i: nat)
    requires StackOk(nodes, stack) && i < |stack|
    ensures LevelOk(nodes, stack, i)
  {
  }

  lemma OpenLevel(nodes: Nodes, stack: seq<nat>, name: Bytes, i: nat)
    requires StackOk(nodes, stack) && i < |stack| && stack[|stack| - 1] < |nodes|
    ensures var nodes', stack' := AddNode(nodes, stack, name), stack + [|nodes|];
            LevelOk(nodes', stack', i) && PartialAt(nodes', stack', i) == PartialAt(nodes, stack, i)
  {
    hide TreesOf, Sealed, Inside, StackOk;
    var nodes', stack' := AddNode(nodes, stack, name), stack + [|nodes|];
    var hi := Bound(nodes, stack, i);
    LevelFrom(nodes, stack, i);
    if i + 1 < |stack| { Increasing(nodes, stack, i, |stack| - 1); }
    assert Bound(nodes', stack', i) == hi;
    assert ClosedOf(nodes', stack', i) == ClosedOf(nodes, stack, i);
    assert Agree(nodes, nodes', stack[i] + 1, hi);
    TreesKept(nodes, nodes', ClosedOf(nodes, stack, i), stack[i] + 1, hi);
  }

  function AddProp(nodes: Nodes, t: nat, p: Prop): Nodes
    requires t < |nodes|
  {
    nodes[t := nodes[t].(props := nodes[t].props + [p])]
  }

  lemma ItemStep(nodes: Nodes, stack: seq<nat>, root: Option<nat>, p: Prop)
    requires StackOk(nodes, stack) && RootOk(nodes, stack, root) && stack != []
    ensures var n := |stack| - 1;
            && stack[n] < |nodes|
            && StackOk(AddProp(nodes, stack[n], p), stack) && RootOk(AddProp(nodes, stack[n], p), stack, root)
            && Some(Abs(AddProp(nodes, stack[n], p), stack, root)) == Feed(Abs(nodes, stack, root), Item(p))
  {
    var n := |stack| - 1;
    assert LevelOk(nodes, stack, n);
    var nodes' := AddProp(nodes, stack[n], p);
    forall i | 0 <= i < |stack|
      ensures LevelOk(nodes', stack, i)
      ensures PartialAt(nodes', stack, i) == if i < n then PartialAt(nodes, stack, i)
                                             else PartialAt(nodes, stack, n).(props := nodes[stack[n]].props + [p])
    {
      assert LevelOk(nodes, stack, i);
      if i < n { Increasing(nodes, stack, i, n); }
      var hi := Bound(nodes, stack, i);
      assert Agree(nodes, nodes', stack[i] + 1, hi);
      TreesKept(nodes, nodes', ClosedOf(nodes, stack, i), stack[i] + 1, hi);
    }
    assert Partials(nodes', stack) ==
           Partials(nodes, stack)[n := PartialAt(nodes, stack, n).(props := nodes[stack[n]].props + [p])];
  }

  lemma CloseStep(nodes: Nodes, stack: seq<nat>, root: Option<nat>)
    requires StackOk(nodes, stack) && RootOk(nodes, stack, root) && stack != []
    ensures var stack' := stack[..|stack| - 1];
            && StackOk(nodes, stack') && RootOk(nodes, stack', root)
            && Some(Abs(nodes, stack', root)) == Feed(Abs(nodes, stack, root), Close)
  {
    hide TreesOf, Inside;
    var n := |stack| - 1;
    var stack' := stack[..n];
    assert LevelOk(nodes, stack, n);
    SealedJoin(nodes, stack[n], stack[n]);
    assert TreeOf(nodes, stack[n], |nodes|) == Finished(PartialAt(nodes, stack, n));
    forall i | 0 <= i < n
      ensures LevelOk(nodes, stack', i)
      ensures i < n - 1 ==> PartialAt(nodes, stack', i) == PartialAt(nodes, stack, i)
    {
      if i == n - 1 { CloseLevel(nodes, stack, stack', n); } else { KeepLevel(nodes, stack, stack', n, i); }
    }
    if n > 0 {
      CloseLevel(nodes, stack, stack', n);
      var top := PartialAt(nodes, stack, n - 1);
      assert Partials(nodes, stack)[..n][n - 1] == top;
      assert Partials(nodes, stack') ==
             Partials(nodes, stack)[..n][n - 1 := top.(children := top.children + [TreeOf(nodes, stack[n], |nodes|)])];
    } else {
      assert Partials(nodes, stack)[..0] == [];
    }
  }

  /** The node that is closed becomes a closed child of the one around it. */
  lemma CloseLevel(nodes: Nodes, stack: seq<nat>, stack': seq<nat>, n: nat)
    requires StackOk(nodes, stack) && |stack| == n + 1 >= 2 && stack' == stack[..n]
    ensures LevelOk(nodes, stack, n - 1) && LevelOk(nodes, stack', n - 1)
    ensures stack[n] < |nodes| && Sealed(nodes, stack[n], |nodes|)
    ensures var top := PartialAt(nodes, stack, n - 1);
            PartialAt(nodes, stack', n - 1) == top.(children := top.children + [TreeOf(nodes, stack[n], |nodes|)])
  {
    hide TreeOf, TreesOf, Sealed, StackOk, Inside, LevelOk, ClosedOf;
    CloseLevelOk(nodes, stack, stack', n);
    var m, t, ids := stack[n - 1], stack[n], ClosedOf(nodes, stack, n - 1);
    TreesWider(nodes, ids, m + 1, t, m + 1, |nodes|);
    TreesAppend(nodes, ids, t, m + 1, |nodes|);
  }

  lemma KeepLevel(nodes: Nodes, stack: seq<nat>, stack': seq<nat>, n: nat, i: nat)
    requires StackOk(nodes, stack) && |stack| == n + 1 && i + 1 < n && stack' == stack[..n]
    ensures LevelOk(nodes, stack, i) && LevelOk(nodes, stack', i)
    ensures PartialAt(nodes, stack', i) == PartialAt(nodes, stack, i)
  {
    assert LevelOk(nodes, stack, i);
  }

  lemma CloseLevelOk(nodes: Nodes, stack: seq<nat>, stack': seq<nat>, n: nat)
    requires StackOk(nodes, stack) && |stack| == n + 1 >= 2 && stack' == stack[..n]
    ensures stack[n - 1] < stack[n] < |nodes| && LevelOk(nodes, stack', n - 1) && LevelOk(nodes, stack, n - 1)
    ensures var m, t := stack[n - 1], stack[n];
            && Sealed(nodes, t, |nodes|) && Sealed(nodes, m + 1, |nodes|) && Sealed(nodes, m + 1, t)
            && ClosedOf(nodes, stack', n - 1) == ClosedOf(nodes, stack, n - 1) + [t]
            && Inside(ClosedOf(nodes, stack, n - 1), m + 1, t) && Inside(ClosedOf(nodes, stack, n - 1), m + 1, |nodes|)
  {
    hide Sealed, StackOk, Inside;
    TopLevels(nodes, stack);
    var m, t := stack[n - 1], stack[n];
    var ids := ClosedOf(nodes, stack, n - 1);
    assert ClosedOf(nodes, stack', n - 1) == ids + [t];
    SealedJoin(nodes, m + 1, t);
    InsideAppend(ids, t, m + 1, |nodes|);
  }

  lemma InsideAppend(ids: seq<nat>, t: nat, lo: nat, hi: nat)
    requires Inside(ids, lo, t) && lo <= t < hi
    ensures Inside(ids + [t], lo, hi) && Inside(ids, lo, hi)
  {
  }

  lemma TopLevels(nodes: Nodes, stack: seq<nat>)
    requires StackOk(nodes, stack) && |stack| >= 2
    ensures LevelOk(nodes, stack, |stack| - 2) && LevelOk(nodes, stack, |stack| - 1)
  {
  }

  /** The part of a closed node joins the one before it. */
  lemma SealedJoin(nodes: Nodes, lo: nat, t: nat)
    requires lo <= t < |nodes| && Sealed(nodes, lo, t) && Sealed(nodes, t + 1, |nodes|)
    requires Inside(nodes[t].children, t + 1, |nodes|)
    ensures Sealed(nodes, t, |nodes|) && Sealed(nodes, lo, |nodes|)
  {
  }

  // ----- The loops -----

  class FdtManager {
    var nodes: Nodes
    var root: Option<nat>

    /**
     `unflatten` of a structure block that is not cut short. Not `ok` is a panic: a token that is not
     known, or a tree that is too deep. `stack` is what is left open at the end token.
     */
    method Unflatten(b: Bytes, strings: Bytes) returns (ok: bool, ghost stack: seq<nat>)
      requires LexAll(b, strings, 0).1 != CutShort
      modifies this
      ensures var (ts, last) := LexAll(b, strings, 0);
              var built := FeedAll(Build(None, []), ts);
              && ok == (last == Finish && built.Some?)
              && (ok ==> StackOk(nodes, stack) && RootOk(nodes, stack, root) && Some(Abs(nodes, stack, root)) == built)
    {
      hide Lex, Feed, StackOk, RootOk, Abs;
      var off, open: seq<nat> := 0, [];
      nodes, root := [], None;
      ghost var ts0 := LexAll(b, strings, 0).0;
      NothingOpen();
      while true
        invariant off <= |b| && LexAll(b, strings, off).1 == LexAll(b, strings, 0).1
        invariant StackOk(nodes, open) && RootOk(nodes, open, root)
        invariant FeedAll(Abs(nodes, open, root), LexAll(b, strings, off).0) == FeedAll(Build(None, []), ts0)
        decreases |b| - off
      {
        stack := open;
        var r := Lex(b, strings, off);
        if r.Finish? {
          return true, open;
        }
        if !r.Tok? {
          return false, open;
        }
        ghost var rest := LexAll(b, strings, r.next).0;
        assert LexAll(b, strings, off).0 == [r.tok] + rest && ([r.tok] + rest)[1..] == rest;
        off := r.next;
        OpenCount(nodes, open, root);
        match r.tok {
          case Open(name) =>
            DeepStep(Abs(nodes, open, root), name);
            if |open| >= MAX_DEPTH {
              return false, open;
            }
            OpenStep(nodes, open, root, name);
            if open == [] {
              root := Some(|nodes|);
            }
            nodes, open := AddNode(nodes, open, name), open + [|nodes|];
          case Close =>
            if open != [] {
              CloseStep(nodes, open, root);
              open := open[..|open| - 1];
            } else {
              IdleStep(Abs(nodes, open, root));
            }
          case Item(p) =>
            if open != [] {
              ItemStep(nodes, open, root, p);
              nodes := AddProp(nodes, open[|open| - 1], p);
            } else {
              IdleStep(Abs(nodes, open, root));
            }
          case Nop => IdleStep(Abs(nodes, open, root));
        }
      }
    }
  }

  lemma NothingOpen()
    ensures StackOk([], []) && RootOk([], [], None) && Abs([], [], None) == Build(None, [])
  {
  }

  lemma OpenCount(nodes: Nodes, stack: seq<nat>, root: Option<nat>)
    requires StackOk(nodes, stack) && RootOk(nodes, stack, root)
    ensures |Abs(nodes, stack, root).stack| == |stack|
  {
  }

  lemma DeepStep(s: Build, name: Bytes)
    ensures Feed(s, Open(name)) ==
            if |s.stack| >= MAX_DEPTH then None else Some(Build(None, s.stack + [Partial(name, [], [])]))
  {
  }

  /** Outside every node only an opening token matters. */
  lemma IdleStep(s: Build)
    ensures Feed(s, Nop) == Some(s)
    ensures s.stack == [] ==> Feed(s, Close) == Some(s) && forall p :: Feed(s, Item(p)) == Some(s)
  {
  }

  /** The block of a tree, with any NOPs, builds that tree if and only if it has at most 16 levels. */
  lemma BlockBuilds(t: Node, ts: seq<Token>, b: Bytes, strings: Bytes, table: map<Bytes, nat>)
    requires Strip(ts) == Flat(t) && (forall i :: 0 <= i < |ts| ==> Writable(ts[i], table)) && Names(strings, table)
    requires Lies(b, 0, EncodeAll(ts, table) + Be32(9))
    ensures LexAll(b, strings, 0) == (ts, Finish)
    ensures FeedAll(Build(None, []), ts) == if Height(t) <= MAX_DEPTH then Some(Build(Some(t), [])) else None
  {
    LexAllEncoded(b, 0, ts, strings, table);
    UnflattenInverts(t, ts);
  }

  /** When nothing is left open, the root's tree is the tree that was built. */
  lemma AbsRoot(nodes: Nodes, stack: seq<nat>, root: Option<nat>, t: Node)
    requires StackOk(nodes, stack) && RootOk(nodes, stack, root) && Abs(nodes, stack, root) == Build(Some(t), [])
    ensures stack == [] && root.Some? && root.value < |nodes| && Sealed(nodes, root.value, |nodes|)
    ensures TreeOf(nodes, root.value, |nodes|) == t
  {
    assert |Partials(nodes, stack)| == |stack|;
  }

  /**
   Unflattening the block of a tree makes nodes that are that tree, children and properties in order,
   and panics if and only if the tree has more than 16 levels.
   */
  method UnflattenTree(m: FdtManager, b: Bytes, strings: Bytes, ghost t: Node, ghost ts: seq<Token>, ghost table: map<Bytes, nat>)
    returns (ok: bool)
    requires Strip(ts) == Flat(t) && (forall i :: 0 <= i < |ts| ==> Writable(ts[i], table)) && Names(strings, table)
    requires Lies(b, 0, EncodeAll(ts, table) + Be32(9))
    modifies m
    ensures ok <==> Height(t) <= 16
    ensures ok ==> && m.root.Some? && m.root.value < |m.nodes| && Sealed(m.nodes, m.root.value, |m.nodes|)
                   && TreeOf(m.nodes, m.root.value, |m.nodes|) == t
  {
    hide Lies, EncodeAll, Flat, Strip, Writable, Names, Height, LexAll, FeedAll, StackOk, RootOk, Abs, Sealed, TreeOf;
    BlockBuilds(t, ts, b, strings, table);
    ghost var stack;
    ok, stack := m.Unflatten(b, strings);
    if ok {
      AbsRoot(m.nodes, stack, m.root, t);
    }
  }
}
