/** Taking a tree apart in post order: what is left, seen from the slot of the node handed out last. */
module AvlDestroy {
  import opened AvlShape
  import opened AvlHeap
  import opened AvlClimb
  import opened AvlOrder

  /** The cookie: the parent of the node handed out last, and which child that was.
      No parent and bit 0 is a null cookie, no parent and bit 1 is `CHILDBIT`. */
  datatype Cookie = Cookie(parent: Node?, bit: Bit)

  const START := Cookie(null, 0)
  const FINISHED := Cookie(null, 1)

  function PostOrder(t: Tree): seq<Node> {
    match t
    case Leaf => []
    case Fork(lo, n, _, hi) => PostOrder(lo) + PostOrder(hi) + [n]
  }

  /** What comes after the slot in post order. */
  function Rest(c: Ctx): seq<Node> {
    match c
    case Top => []
    case Frame(up, n, _, side, sib) => (if side == 0 then PostOrder(sib) else []) + [n] + Rest(up)
  }

  /** Left of the slot everything is gone, right of it everything is still balanced. */
  ghost predicate Partial(c: Ctx) {
    c.Frame? ==> Partial(c.up) && (if c.side == 0 then Avl(c.sib) else c.sib == Leaf)
  }

  lemma {:induction false} PostPlug(c: Ctx, t: Tree)
    requires Partial(c)
    ensures PostOrder(Plug(c, t)) == PostOrder(t) + Rest(c)
  {
    if c.Frame? {
      PostPlug(c.up, Join(c.side, t, c.node, c.bal, c.sib));
      if c.side == 1 {
        assert PostOrder(c.sib) == [];
      }
    }
  }

  lemma {:induction false} FirstPartial(c: Ctx, h: nat)
    requires Before(c) == [] && CtxAvl(c, h)
    ensures Partial(c)
  {
    if c.Frame? {
      FirstPartial(c.up, 1 + Max(h, Height(c.sib)));
    }
  }

  lemma {:induction false} PostLength(t: Tree)
    ensures |PostOrder(t)| == |InOrder(t)|
    ensures multiset(PostOrder(t)) == multiset(InOrder(t))
  {
    if t.Fork? {
      PostLength(t.lo);
      PostLength(t.hi);
      assert PostOrder(t) == PostOrder(t.lo) + PostOrder(t.hi) + [t.node];
      assert InOrder(t) == InOrder(t.lo) + [t.node] + InOrder(t.hi);
    }
  }

  /** In post order the nodes of every subtree are together, its root last. */
  lemma {:induction false} PostSubtree(c: Ctx, t: Tree) returns (a: seq<Node>, z: seq<Node>)
    requires t.Fork?
    ensures PostOrder(Plug(c, t)) == a + PostOrder(t) + z
    ensures PostOrder(t)[|PostOrder(t)| - 1] == t.node
    decreases c
  {
    if c.Top? {
      a, z := [], [];
    } else {
      var u := Join(c.side, t, c.node, c.bal, c.sib);
      a, z := PostSubtree(c.up, u);
      if c.side == 0 {
        z := PostOrder(c.sib) + [c.node] + z;
      } else {
        a, z := a + PostOrder(c.sib), [c.node] + z;
      }
    }
  }

  /** A balanced subtree without a left child is a leaf or has one leaf to the right. */
  lemma OneStepRight(t: Tree)
    requires t.Fork? && Avl(t) && t.lo == Leaf
    ensures t.hi.Fork? ==> t.bal == 1 && t.hi.lo == Leaf && t.hi.hi == Leaf && PostOrder(t) == [t.hi.node, t.node]
    ensures t.hi.Leaf? ==> t.bal <= 0 && PostOrder(t) == [t.node]
  {
  }

  // ---- The memory of a tree that is partly gone ----

  ghost predicate HandedOut(m: Mem, c: Ctx, last: Node?, root: Node?) {
    && CtxSep(c) && Partial(c) && CtxLaid(m, c, last, root)
    && (c.Frame? ==> last != null) && (last != null ==> last !in CtxNodes(c))
  }

  function CookieOf(c: Ctx): Cookie {
    if c.Top? then FINISHED else Cookie(c.node, c.side)
  }

  /** A subtree still to be visited, in its slot: `post` is all that is left. */
  ghost predicate Visiting(m: Mem, c: Ctx, t: Tree, root: Node?, post: seq<Node>) {
    Zip(m, c, t, root) && Avl(t) && Partial(c) && post == PostOrder(t) + Rest(c)
  }

  /** The first node of a valid tree. */
  lemma VisitFirst(m: Mem, whole: Tree, root: Node?, first: Node)
    requires Zip(m, Top, whole, root) && Avl(whole) && |InOrder(whole)| > 0 && first == InOrder(whole)[0]
    ensures first in Nodes(whole)
    ensures var (c, t) := Focus(Top, whole, first);
      && Visiting(m, c, t, root, PostOrder(whole)) && t.Fork? && t.node == first && t.lo == Leaf
      && m.Keys >= Nodes(whole) == CtxNodes(c) + Nodes(t)
    ensures |PostOrder(whole)| == |InOrder(whole)|
  {
    hide Zip, Nodes, CtxNodes, PostOrder, Rest, Avl, CtxAvl, Before, Focus, IndexOf;
    InOrderHas(whole, first);
    FocusZip(m, whole, root, first);
    FocusMember(m, whole, root, first);
    var (c, t) := Focus(Top, whole, first);
    ZipSets(m, Top, whole, root);
    FirstAt(m, root, c, t, whole);
    PlugAvl(c, t);
    FirstPartial(c, Height(t));
    PostPlug(c, t);
    PostLength(whole);
  }

  lemma FirstAt(m: Mem, root: Node?, c: Ctx, t: Tree, whole: Tree)
    requires Zip(m, Top, whole, root) && |InOrder(whole)| > 0 && t.Fork? && t.node == InOrder(whole)[0]
    requires t.node in InOrder(whole) && IndexOf(InOrder(whole), t.node) == |Before(c)| + |InOrder(t.lo)|
    ensures Before(c) == [] && t.lo == Leaf
  {
    hide Laid, CtxLaid, Sep, IndexOf;
    IndexAt(whole, 0, t.node);
  }

  /** What is read at the root of a subtree still to be visited. */
  lemma VisitReads(m: Mem, c: Ctx, t: Tree, root: Node?, post: seq<Node>)
    requires Visiting(m, c, t, root, post) && t.Fork?
    ensures t.node in m && m[t.node].child == Links(Root(t.lo), Root(t.hi)) && m[t.node].balance == t.bal
    ensures m[t.node].parent == c.Owner() && (c.Frame? ==> m[t.node].index == c.side)
    ensures c.Top? ==> root == t.node
    ensures t.lo == Leaf && t.hi.Fork? ==> t.bal == 1 && t.hi.lo == Leaf && t.hi.hi == Leaf
    ensures t.lo == Leaf && t.hi.Leaf? ==> t.bal <= 0
    ensures |post| > 0 && CtxNodes(c) + Nodes(t) <= m.Keys && t.node in Nodes(t)
  {
    ZipSets(m, c, t, root);
    if t.lo == Leaf {
      OneStepRight(t);
    }
  }

  /** Down to child 0, or to child 1 when child 0 is missing. */
  lemma VisitDown(m: Mem, c: Ctx, t: Tree, root: Node?, post: seq<Node>, side: Bit)
    requires Visiting(m, c, t, root, post) && t.Fork? && (side == 1 ==> t.lo == Leaf)
    ensures var c' := Frame(c, t.node, t.bal, side, t.Sub(1 - side));
      Visiting(m, c', t.Sub(side), root, post) && CtxNodes(c') + Nodes(t.Sub(side)) == CtxNodes(c) + Nodes(t)
  {
    hide Zip, CtxAvl, Height;
    ZipReads(m, c, t, root, side);
    assert PostOrder(t) == PostOrder(t.lo) + PostOrder(t.hi) + [t.node];
    if side == 1 {
      assert PostOrder(t.lo) == [];
    }
  }

  /** A leaf is handed out. */
  lemma VisitLeaf(m: Mem, m': Mem, c: Ctx, t: Tree, root: Node?, post: seq<Node>)
    requires Visiting(m, c, t, root, post) && t.Fork? && t.lo == Leaf && t.hi == Leaf
    requires m'.Keys == CtxNodes(c) && forall n <- m'.Keys :: n in m && m'[n] == m[n]
    ensures HandedOut(m', c, t.node, root) && post == [t.node] + Rest(c)
  {
    assert PostOrder(t) == [t.node];
    CtxFrame(m, m', c, t.node, root);
  }

  /** The slot of the node handed out last is emptied; `kept` is the part of memory still in use. */
  ghost predicate Emptied(m: Mem, m': Mem, c: Ctx)
    requires c.Frame?
  {
    && c.node in m && c.node in m' && m'.Keys == m.Keys
    && m'[c.node] == m[c.node].(child := m[c.node].child.Set(c.side, null))
    && forall n <- m.Keys :: n != c.node ==> m'[n] == m[n]
  }

  lemma Empty(m: Mem, m': Mem, c: Ctx, last: Node?, root: Node?)
    requires HandedOut(m, c, last, root) && c.Frame? && Emptied(m, m', c)
    ensures Zip(m', c, Leaf, root) && Partial(c)
  {
    CtxKeys(m, c, last, root);
    Rehole(m, m', c, last, root, null, root);
  }

  lemma EmptiedReads(m: Mem, c: Ctx, root: Node?)
    requires Zip(m, c, Leaf, root) && Partial(c) && c.Frame?
    ensures c.node in m && m[c.node].parent == c.up.Owner() && (c.up.Frame? ==> m[c.node].index == c.up.side)
    ensures m[c.node].child.At(1) == null <==> c.side == 1 || c.sib == Leaf
    ensures c.up.Top? ==> root == c.node
    ensures |Rest(c)| > 0
    ensures c.side == 0 ==> m[c.node].child.At(1) == Root(c.sib)
  {
    assert CtxLaid(m, c.up, c.node, root);
  }

  /** Nothing to the right: the owner is next. */
  lemma BackUp(m: Mem, m': Mem, c: Ctx, root: Node?)
    requires Zip(m, c, Leaf, root) && Partial(c) && c.Frame? && (c.side == 1 || c.sib == Leaf)
    requires m'.Keys == CtxNodes(c.up) && forall n <- m'.Keys :: n in m && m'[n] == m[n]
    ensures HandedOut(m', c.up, c.node, root) && Rest(c) == [c.node] + Rest(c.up)
  {
    assert c.side == 0 ==> PostOrder(c.sib) == [];
    CtxFrame(m, m', c.up, c.node, root);
  }

  /** A right subtree is next. */
  lemma BackDown(m: Mem, c: Ctx, root: Node?)
    requires Zip(m, c, Leaf, root) && Partial(c) && c.Frame? && c.side == 0
    ensures var c' := Frame(c.up, c.node, c.bal, 1, Leaf);
      Visiting(m, c', c.sib, root, Rest(c)) && CtxNodes(c') + Nodes(c.sib) == CtxNodes(c)
  {
  }

  lemma NothingLeft(m: Mem, t: Tree, root: Node?)
    requires Zip(m, Top, t, root) && InOrder(t) == []
    ensures HandedOut(map[], Top, null, root) && PostOrder(t) == [] && Rest(Top) == [] && CtxNodes(Top) == {} && root == null
  {
  }

  /** The last node has been handed out and the root pointer cleared. */
  lemma AllGone(m: Mem, last: Node?, root: Node?)
    requires HandedOut(m, Top, last, root)
    ensures root == last && Rest(Top) == [] && CtxNodes(Top) == {}
    ensures forall m': Mem :: HandedOut(m', Top, null, null)
  {
  }

  lemma OwnerIs(m: Mem, c: Ctx, last: Node?, root: Node?)
    requires HandedOut(m, c, last, root) && c.Frame?
    ensures c.node in CtxNodes(c) && c.node in m && |Rest(c)| > 0 && last != null && last !in CtxNodes(c)
    ensures c.node !in CtxNodes(c.up) && CtxNodes(c.up) <= CtxNodes(c)
  {
    CtxKeys(m, c, last, root);
  }

  lemma AliveApart(m: Mem, c: Ctx, last: Node?, root: Node?)
    requires HandedOut(m, c, last, root)
    ensures last != null ==> last !in CtxNodes(c)
    ensures CookieOf(c).parent != null ==> CookieOf(c).parent in CtxNodes(c)
  {
  }

  lemma EmptyTree(m: Mem, root: Node?)
    requires root == null
    ensures Zip(m, Top, Leaf, root) && Avl(Leaf) && InOrder(Leaf) == [] && Nodes(Leaf) == {}
  {
  }
}
