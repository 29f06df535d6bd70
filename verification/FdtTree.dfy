/** `unflatten` of fdt/fdt.cc: from tokens to a tree of device nodes. */
module FdtTree {
  import opened Options
  import opened Fdt

  // ----- The tokens of a tree -----

  function Flat(t: Node): seq<Token> {
    [Open(t.name)] + Items(t.props) + FlatAll(t.children) + [Close]
  }

  function Items(ps: seq<Prop>): seq<Token> {
    if ps == [] then [] else [Item(ps[0])] + Items(ps[1..])
  }

  function FlatAll(ts: seq<Node>): seq<Token> {
    if ts == [] then [] else Flat(ts[0]) + FlatAll(ts[1..])
  }

  function Height(t: Node): nat { 1 + HeightAll(t.children) }

  function HeightAll(ts: seq<Node>): nat {
    if ts == [] then 0 else
      var a, b := Height(ts[0]), HeightAll(ts[1..]);
      if a > b then a else b
  }

  /** Tokens without the NOPs, which may come anywhere. */
  function Strip(ts: seq<Token>): seq<Token> {
    if ts == [] then [] else (if ts[0].Nop? then [] else [ts[0]]) + Strip(ts[1..])
  }

  // ----- What the tokens build -----

  /** A node that is still open: what it has so far. */
  datatype Partial = Partial(name: Bytes, props: seq<Prop>, children: seq<Node>)

  /** The tree that was finished last, and the nodes that are open, outermost first. */
  datatype Build = Build(root: Option<Node>, stack: seq<Partial>)

  function Finished(p: Partial): Node { Node(p.name, p.props, p.children) }

  /** A finished node becomes the last child of the innermost open one, or the root. */
  function Attach(s: Build, t: Node): Build {
    if s.stack == [] then Build(Some(t), [])
    else
      var n := |s.stack| - 1;
      s.(stack := s.stack[n := s.stack[n].(children := s.stack[n].children + [t])])
  }

  /** One token; none is the panic on a tree that is too deep. */
  function Feed(s: Build, tok: Token): Option<Build> {
    match tok
    case Open(name) =>
      if |s.stack| >= MAX_DEPTH then None
      else Some(Build(None, s.stack + [Partial(name, [], [])]))
    case Item(p) =>
      if s.stack == [] then Some(s)
      else
        var n := |s.stack| - 1;
        Some(s.(stack := s.stack[n := s.stack[n].(props := s.stack[n].props + [p])]))
    case Close =>
      if s.stack == [] then Some(s)
      else
        var n := |s.stack| - 1;
        Some(Attach(s.(stack := s.stack[..n]), Finished(s.stack[n])))
    case Nop => Some(s)
  }

  function FeedAll(s: Build, ts: seq<Token>): Option<Build>
    decreases |ts|
  {
    if ts == [] then Some(s)
    else match Feed(s, ts[0])
         case None => None
         case Some(s') => FeedAll(s', ts[1..])
  }

  lemma {:induction false} FeedStrip(s: Build, ts: seq<Token>)
    ensures FeedAll(s, Strip(ts)) == FeedAll(s, ts)
    decreases |ts|
  {
    if ts != [] {
      assert ([ts[0]] + Strip(ts[1..]))[1..] == Strip(ts[1..]) && [] + Strip(ts[1..]) == Strip(ts[1..]);
      match Feed(s, ts[0])
      case None =>
      case Some(s') => FeedStrip(s', ts[1..]);
    }
  }

  lemma {:induction false} FeedItems(s: Build, ps: seq<Prop>, rest: seq<Token>)
    requires s.stack != []
    ensures var n := |s.stack| - 1;
            FeedAll(s, Items(ps) + rest) == FeedAll(s.(stack := s.stack[n := s.stack[n].(props := s.stack[n].props + ps)]), rest)
    decreases |ps|
  {
    var n := |s.stack| - 1;
    if ps == [] {
      assert Items(ps) + rest == rest;
      assert s.stack[n].props + ps == s.stack[n].props;
      assert s.stack[n := s.stack[n]] == s.stack;
    } else {
      var s' := s.(stack := s.stack[n := s.stack[n].(props := s.stack[n].props + [ps[0]])]);
      assert (Items(ps) + rest)[0] == Item(ps[0]) && (Items(ps) + rest)[1..] == Items(ps[1..]) + rest;
      FeedItems(s', ps[1..], rest);
      assert s.stack[n].props + [ps[0]] + ps[1..] == s.stack[n].props + ps;
      assert s'.stack[n := s'.stack[n].(props := s.stack[n].props + ps)] == s.stack[n := s.stack[n].(props := s.stack[n].props + ps)];
    }
  }

  /** Feeding the tokens of a tree attaches that tree, or panics if it is too deep for the stack. */
  lemma {:induction false} FeedFlat(s: Build, t: Node, rest: seq<Token>)
    requires |s.stack| <= MAX_DEPTH
    ensures FeedAll(s, Flat(t) + rest) == if |s.stack| + Height(t) <= MAX_DEPTH then FeedAll(Attach(Build(None, s.stack), t), rest) else None
    decreases t, 1
  {
    hide FeedAll, Flat, FlatAll, Items;
    var tail := Items(t.props) + (FlatAll(t.children) + ([Close] + rest));
    FlatParts(t, rest);
    FeedOpen(s, t.name, tail);
    if |s.stack| < MAX_DEPTH {
      var s1 := Build(None, s.stack + [Partial(t.name, [], [])]);
      FeedItems(s1, t.props, FlatAll(t.children) + ([Close] + rest));
      var s2 := Build(None, s.stack + [Partial(t.name, t.props, [])]);
      assert [] + t.props == t.props && [] + t.children == t.children;
      assert s1.stack[|s.stack| := Partial(t.name, t.props, [])] == s2.stack;
      assert s2.stack[|s.stack| := Partial(t.name, t.props, t.children)] == s.stack + [Partial(t.name, t.props, t.children)];
      FeedFlatAll(s2, t.children, [Close] + rest);
      FeedClose(s, t, rest);
    }
  }

  lemma FlatParts(t: Node, rest: seq<Token>)
    ensures Flat(t) + rest == [Open(t.name)] + (Items(t.props) + (FlatAll(t.children) + ([Close] + rest)))
  {
  }

  lemma FeedOpen(s: Build, name: Bytes, tail: seq<Token>)
    ensures FeedAll(s, [Open(name)] + tail) ==
            if |s.stack| >= MAX_DEPTH then None else FeedAll(Build(None, s.stack + [Partial(name, [], [])]), tail)
  {
    assert ([Open(name)] + tail)[1..] == tail;
  }

  /** Closing a node whose children are all attached. */
  lemma FeedClose(s: Build, t: Node, rest: seq<Token>)
    ensures var s3 := Build(None, s.stack + [Partial(t.name, t.props, t.children)]);
            FeedAll(s3, [Close] + rest) == FeedAll(Attach(Build(None, s.stack), t), rest)
  {
    var s3 := Build(None, s.stack + [Partial(t.name, t.props, t.children)]);
    assert ([Close] + rest)[1..] == rest;
    assert s3.stack[..|s.stack|] == s.stack;
  }

  lemma {:induction false} FeedFlatAll(s: Build, ts: seq<Node>, rest: seq<Token>)
    requires s.root == None && s.stack != [] && |s.stack| <= MAX_DEPTH
    ensures var n := |s.stack| - 1;
            FeedAll(s, FlatAll(ts) + rest) ==
            if |s.stack| + HeightAll(ts) <= MAX_DEPTH
            then FeedAll(s.(stack := s.stack[n := s.stack[n].(children := s.stack[n].children + ts)]), rest) else None
    decreases ts, 0
  {
    var n := |s.stack| - 1;
    if ts == [] {
      assert FlatAll(ts) + rest == rest;
      assert s.stack[n].children + ts == s.stack[n].children && s.stack[n := s.stack[n]] == s.stack;
    } else {
      assert FlatAll(ts) + rest == Flat(ts[0]) + (FlatAll(ts[1..]) + rest);
      FeedFlat(s, ts[0], FlatAll(ts[1..]) + rest);
      if |s.stack| + Height(ts[0]) <= MAX_DEPTH {
        var s' := Attach(s, ts[0]);
        FeedFlatAll(s', ts[1..], rest);
        assert s.stack[n].children + [ts[0]] + ts[1..] == s.stack[n].children + ts;
        assert s'.stack[n := s'.stack[n].(children := s.stack[n].children + ts)]
            == s.stack[n := s.stack[n].(children := s.stack[n].children + ts)];
      }
    }
  }

  /**
   Unflattening inverts serialisation: from the tokens of a tree, with NOPs anywhere among them, the
   same tree is built if it has at most 16 levels; otherwise it is refused.
   */
  lemma UnflattenInverts(t: Node, ts: seq<Token>)
    requires Strip(ts) == Flat(t)
    ensures FeedAll(Build(None, []), ts) == if Height(t) <= MAX_DEPTH then Some(Build(Some(t), [])) else None
  {
    FeedStrip(Build(None, []), ts);
    assert Flat(t) + [] == Flat(t);
    FeedFlat(Build(None, []), t, []);
  }
}
