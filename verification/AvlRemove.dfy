/** Taking a node out: the swap through a placeholder, the unlinking, and the shrinking subtree. */
module AvlRemove {
  import opened AvlShape
  import opened AvlHeap
  import opened AvlRotate
  import opened AvlRotateHeap
  import opened AvlClimb
  import opened AvlOrder

  // ---- Renaming: `d` becomes `n` and `n` becomes `tmp` ----

  function Ren(d: Node, n: Node, tmp: Node, x: Node?): Node? {
    if x == d then n else if x == n then tmp else x
  }

  function RenNode(d: Node, n: Node, tmp: Node, x: Node): Node {
    if x == d then n else if x == n then tmp else x
  }

  function RenRec(d: Node, n: Node, tmp: Node, r: Rec): Rec {
    Rec(Links(Ren(d, n, tmp, r.child.lo), Ren(d, n, tmp, r.child.hi)), Ren(d, n, tmp, r.parent), r.index, r.balance)
  }

  function RenTree(d: Node, n: Node, tmp: Node, t: Tree): Tree {
    match t
    case Leaf => Leaf
    case Fork(lo, x, bal, hi) => Fork(RenTree(d, n, tmp, lo), RenNode(d, n, tmp, x), bal, RenTree(d, n, tmp, hi))
  }

  function RenSeq(d: Node, n: Node, tmp: Node, s: seq<Node>): seq<Node> {
    seq(|s|, i requires 0 <= i < |s| => RenNode(d, n, tmp, s[i]))
  }

  /** `m'` holds the contents of `m` under the new names. */
  ghost predicate Renamed(m: Mem, m': Mem, d: Node, n: Node, tmp: Node, s: set<Node>) {
    forall x <- s :: x in m && RenNode(d, n, tmp, x) in m' && m'[RenNode(d, n, tmp, x)] == RenRec(d, n, tmp, m[x])
  }

  lemma {:induction false} RenLaid(m: Mem, m': Mem, d: Node, n: Node, tmp: Node, t: Tree, p: Node?, i: Bit)
    requires Laid(m, t, p, i) && Renamed(m, m', d, n, tmp, Nodes(t))
    ensures Laid(m', RenTree(d, n, tmp, t), Ren(d, n, tmp, p), i)
  {
    if t.Fork? {
      RenLaid(m, m', d, n, tmp, t.lo, t.node, 0);
      RenLaid(m, m', d, n, tmp, t.hi, t.node, 1);
    }
  }

  lemma {:induction false} RenNodes(d: Node, n: Node, tmp: Node, t: Tree)
    ensures Nodes(RenTree(d, n, tmp, t)) == set x | x in Nodes(t) :: RenNode(d, n, tmp, x)
  {
    if t.Fork? {
      RenNodes(d, n, tmp, t.lo);
      RenNodes(d, n, tmp, t.hi);
    }
  }

  lemma {:induction false} RenSep(d: Node, n: Node, tmp: Node, t: Tree)
    requires d != n && tmp !in Nodes(t) && Sep(t)
    ensures Sep(RenTree(d, n, tmp, t))
  {
    if t.Fork? {
      RenSep(d, n, tmp, t.lo);
      RenSep(d, n, tmp, t.hi);
      RenNodes(d, n, tmp, t.lo);
      RenNodes(d, n, tmp, t.hi);
    }
  }

  lemma {:induction false} RenInOrder(d: Node, n: Node, tmp: Node, t: Tree)
    ensures InOrder(RenTree(d, n, tmp, t)) == RenSeq(d, n, tmp, InOrder(t))
  {
    if t.Fork? {
      RenInOrder(d, n, tmp, t.lo);
      RenInOrder(d, n, tmp, t.hi);
    }
  }

  lemma {:induction false} RenAvl(d: Node, n: Node, tmp: Node, t: Tree)
    ensures Height(RenTree(d, n, tmp, t)) == Height(t)
    ensures Avl(t) ==> Avl(RenTree(d, n, tmp, t))
  {
    if t.Fork? {
      RenAvl(d, n, tmp, t.lo);
      RenAvl(d, n, tmp, t.hi);
    }
  }

  // ---- Links lead back ----

  /** Every child pointer is answered by the parent pointer and index of the child, and the other way round. */
  lemma {:induction false} LinkBack(m: Mem, t: Tree, p: Node?, i: Bit, x: Node, j: Bit)
    requires Laid(m, t, p, i) && x in Nodes(t)
    ensures x in m
    ensures var y := m[x].child.At(j); y != null ==> y in Nodes(t) && y in m && m[y].parent == x && m[y].index == j
    ensures x == Root(t) || (m[x].parent != null && m[x].parent in Nodes(t) && m[x].parent in m && m[m[x].parent].child.At(m[x].index) == x)
    ensures x == Root(t) ==> m[x].parent == p && (p != null ==> m[x].index == i)
  {
    if x != t.node {
      if x in Nodes(t.lo) {
        LinkBack(m, t.lo, t.node, 0, x, j);
      } else {
        LinkBack(m, t.hi, t.node, 1, x, j);
      }
    }
  }

  /** No node is its own parent. */
  lemma {:induction false} NoSelf(m: Mem, t: Tree, p: Node?, i: Bit, x: Node)
    requires Laid(m, t, p, i) && Sep(t) && x in Nodes(t) && (p != null ==> p !in Nodes(t))
    ensures x in m && m[x].parent != x
  {
    if x != t.node {
      if x in Nodes(t.lo) {
        NoSelf(m, t.lo, t.node, 0, x);
      } else {
        NoSelf(m, t.hi, t.node, 1, x);
      }
    }
  }

  // ---- The swap with the neighbour, through the placeholder ----

  /** What the assignments of the swap make of the node `y`: `d` hands its place to `n`, and `n` its own to `tmp`. */
  ghost predicate SwapWrites(m: Mem, m': Mem, d: Node, n: Node, tmp: Node, left: Bit)
    requires d in m && n in m
  {
    var x, sib, a := m[d].child.At(left), m[d].child.At(1 - left), m[n].child.At(left);
    var p, q := m[d].parent, m[n].parent;
    && n in m' && m'[n] == Rec(m[d].child.Set(left, if x == n then tmp else x), p, m[d].index, m[d].balance)
    && tmp in m' && m'[tmp] == Rec(m[n].child, if q == d then n else q, m[n].index, m[n].balance)
    && (forall y <- m :: y != n && y != d ==> y in m' && m'[y] == Rec(
          if y == p then m[y].child.Set(m[d].index, n) else if y == q then m[y].child.Set(m[n].index, tmp) else m[y].child,
          if y == x || y == sib then n else if y == a then tmp else m[y].parent,
          m[y].index, m[y].balance))
  }

  /** `n` lies in the `left` subtree of `d` and has no child on the other side. */
  ghost predicate Swappable(m: Mem, d: Node, n: Node, left: Bit) {
    && d in m && n in m && d != n
    && m[n].parent != null && m[n].parent != n && m[d].parent != d && m[n].child.At(1 - left) == null
    && m[d].child.At(1 - left) != n && m[d].parent != n && m[d].parent != m[n].parent
  }

  /** The further nodes the swap reads and writes. */
  ghost predicate SwapReads(m: Mem, d: Node, n: Node, left: Bit)
    requires d in m && n in m
  {
    var x, sib, a := m[d].child.At(left), m[d].child.At(1 - left), m[n].child.At(left);
    var p, q := m[d].parent, m[n].parent;
    && x != null && sib != null && x in m && sib in m && x != sib
    && (p != null ==> p in m) && q != null && q in m
    && (a != null ==> a in m && a != n && a != x && a != sib)
    && (x == n <==> q == d) && (x == n ==> m[n].index == left)
  }

  lemma SwapEnds(m: Mem, m': Mem, t: Tree, d: Node, n: Node, tmp: Node, left: Bit)
    requires Laid(m, t, null, 0) && d in Nodes(t) && n in Nodes(t) && tmp !in m
    requires Swappable(m, d, n, left) && SwapWrites(m, m', d, n, tmp, left)
    ensures d in m && n in m && n in m' && tmp in m' && m'[n] == RenRec(d, n, tmp, m[d]) && m'[tmp] == RenRec(d, n, tmp, m[n])
  {
    hide Laid, Nodes;
    LinkBack(m, t, null, 0, d, left);
    LinkBack(m, t, null, 0, d, 1 - left);
    LinkBack(m, t, null, 0, n, left);
  }

  lemma SwapElsewhere(m: Mem, m': Mem, t: Tree, d: Node, n: Node, tmp: Node, left: Bit, y: Node)
    requires Laid(m, t, null, 0) && d in Nodes(t) && n in Nodes(t) && y in Nodes(t) && y != d && y != n
    requires Swappable(m, d, n, left) && SwapWrites(m, m', d, n, tmp, left)
    ensures y in m && y in m' && m'[y] == RenRec(d, n, tmp, m[y])
  {
    hide Laid, Nodes;
    LinkBack(m, t, null, 0, y, 0);
    LinkBack(m, t, null, 0, y, 1);
    LinkBack(m, t, null, 0, d, left);
    LinkBack(m, t, null, 0, d, 1 - left);
    LinkBack(m, t, null, 0, n, left);
    assert m'[y].parent == Ren(d, n, tmp, m[y].parent);
    assert m'[y].child.At(0) == Ren(d, n, tmp, m[y].child.At(0));
    assert m'[y].child.At(1) == Ren(d, n, tmp, m[y].child.At(1));
  }

  lemma SwapRenames(m: Mem, m': Mem, t: Tree, d: Node, n: Node, tmp: Node, left: Bit)
    requires Laid(m, t, null, 0) && d in Nodes(t) && n in Nodes(t) && tmp !in m
    requires Swappable(m, d, n, left) && SwapWrites(m, m', d, n, tmp, left)
    ensures Renamed(m, m', d, n, tmp, Nodes(t))
  {
    hide Laid, Nodes, SwapWrites, Swappable, RenRec;
    LaidKeys(m, t, null, 0);
    SwapEnds(m, m', t, d, n, tmp, left);
    forall y | y in Nodes(t) && y != d && y != n ensures y in m && y in m' && m'[y] == RenRec(d, n, tmp, m[y]) {
      SwapElsewhere(m, m', t, d, n, tmp, left, y);
    }
  }

  lemma SwapZip(m: Mem, m': Mem, t: Tree, root: Node?, d: Node, n: Node, tmp: Node, left: Bit)
    requires Zip(m, Top, t, root) && d in Nodes(t) && n in Nodes(t) && tmp !in m
    requires Swappable(m, d, n, left) && SwapWrites(m, m', d, n, tmp, left)
    ensures Zip(m', Top, RenTree(d, n, tmp, t), Ren(d, n, tmp, root))
  {
    hide Laid, Nodes, SwapWrites, Sep, RenTree, Renamed;
    LaidKeys(m, t, null, 0);
    SwapRenames(m, m', t, d, n, tmp, left);
    RenLaid(m, m', d, n, tmp, t, null, 0);
    RenSep(d, n, tmp, t);
    RenRoot(d, n, tmp, t);
  }

  lemma RenRoot(d: Node, n: Node, tmp: Node, t: Tree)
    ensures Root(RenTree(d, n, tmp, t)) == Ren(d, n, tmp, Root(t))
  {
  }

  lemma BalanceRead(m: Mem, c: Ctx, t: Tree, root: Node?)
    requires Zip(m, c, t, root) && t.Fork? && Avl(Plug(c, t))
    ensures t.node in m && m[t.node].balance == t.bal && -1 <= t.bal <= 1
  {
    hide Plug;
    PlugAvl(c, t);
  }

  /** The neighbour found below `t.node` can take its place. */
  lemma NeighbourSwappable(m: Mem, c: Ctx, t: Tree, root: Node?, n: Node, left: Bit)
    requires Zip(m, c, t, root) && t.Fork? && n in Nodes(t.Sub(left)) && n in m && m[n].child.At(1 - left) == null
    requires t.lo.Fork? && t.hi.Fork?
    ensures Swappable(m, t.node, n, left) && SwapReads(m, t.node, n, left)
  {
    hide Laid, CtxLaid, Nodes, CtxNodes, Sep, CtxSep;
    var u, o := t.Sub(left), t.Sub(1 - left);
    Unjoin(t, left);
    JoinLaid(m, left, u, t.node, t.bal, o, c.Owner(), c.Side());
    JoinSep(left, u, t.node, t.bal, o);
    OwnerAmong(c);
    RootIn(o);
    RootIn(u);
    OwnerIn(m, c, t.node, root);
    LaidKeys(m, u, t.node, left);
    LaidKeys(m, o, t.node, 1 - left);
    LinkBack(m, u, t.node, left, n, left);
    LinkBack(m, u, t.node, left, Root(u), left);
    NoSelf(m, u, t.node, left, n);
    NoSelf(m, t, c.Owner(), c.Side(), t.node);
  }

  lemma OwnerAmong(c: Ctx)
    ensures c.Frame? ==> c.node in CtxNodes(c)
  {
  }

  /** Removing the placeholder from the renamed sequence removes `d` from the original one. */
  lemma SwapOrder(s: seq<Node>, k: nat, j: nat, d: Node, n: Node, tmp: Node)
    requires NoDup(s) && k < |s| && j < |s| && s[k] == d && s[j] == n && tmp !in s && (j == k + 1 || k == j + 1)
    ensures RenSeq(d, n, tmp, s)[j] == tmp
    ensures RemoveAt(RenSeq(d, n, tmp, s), j) == RemoveAt(s, k)
  {
    var r := RenSeq(d, n, tmp, s);
    forall i | 0 <= i < |s| - 1 ensures RemoveAt(r, j)[i] == RemoveAt(s, k)[i] {
    }
  }

  /** Everything the removal of the placeholder starts from. */
  lemma SwapReady(m: Mem, m': Mem, t: Tree, root: Node?, d: Node, n: Node, tmp: Node, left: Bit)
    requires Zip(m, Top, t, root) && Avl(t) && d in Nodes(t) && n in Nodes(t) && tmp !in m && m.Keys == Nodes(t)
    requires Swappable(m, d, n, left) && SwapWrites(m, m', d, n, tmp, left)
    requires d in InOrder(t) && n in InOrder(t)
    requires var k, j := IndexOf(InOrder(t), d), IndexOf(InOrder(t), n); j == k + 1 || k == j + 1
    ensures var u := RenTree(d, n, tmp, t);
      && Nodes(u) == Nodes(t) - {d} + {tmp}
      && Zip(m', Top, u, if m[d].parent == null then n else root) && Avl(u) && |InOrder(u)| == |InOrder(t)|
      && tmp in InOrder(u) && RemoveAt(InOrder(u), IndexOf(InOrder(u), tmp)) == RemoveAt(InOrder(t), IndexOf(InOrder(t), d))
    ensures tmp in m' && m'[tmp].child.At(1 - left) == null
  {
    hide Laid, Nodes, InOrder, RenTree, IndexOf, NoDup, RemoveAt, Avl, Sep;
    var u, s := RenTree(d, n, tmp, t), InOrder(t);
    SwapZip(m, m', t, root, d, n, tmp, left);
    LinkBack(m, t, null, 0, d, 0);
    LinkBack(m, t, null, 0, n, 0);
    RenNodes(d, n, tmp, t);
    RenAvl(d, n, tmp, t);
    RenInOrder(d, n, tmp, t);
    InOrderNoDup(t);
    InOrderHas(t, tmp);
    SwapOrder(s, IndexOf(s, d), IndexOf(s, n), d, n, tmp);
    IndexAt(u, IndexOf(s, n), tmp);
  }

  // ---- Unlinking a node with at most one child ----

  /** The only child, or none. */
  function OnlyChild(t: Tree): Tree
    requires t.Fork?
  {
    if t.lo.Fork? then t.lo else t.hi
  }

  lemma UnlinkZip(m: Mem, m': Mem, c: Ctx, t: Tree, which: Bit, root: Node?, root': Node?)
    requires Zip(m, c, t, root) && t.Fork? && (t.lo == Leaf || t.hi == Leaf) && (c.Frame? ==> which == c.side)
    requires var u := OnlyChild(t);
      && (u.Fork? ==> u.node in m && u.node in m' && m'[u.node] == m[u.node].(parent := c.Owner(), index := which))
      && (forall y <- CtxNodes(c) + Nodes(u) :: y != c.Owner() && y != Root(u) ==> y in m && y in m' && m'[y] == m[y])
      && (c.Top? ==> root' == Root(u))
      && (c.Frame? ==> root' == root && c.node in m && c.node in m' && m'[c.node] == m[c.node].(child := m[c.node].child.Set(which, Root(u))))
    ensures Zip(m', c, OnlyChild(t), root')
  {
    hide Laid, CtxLaid, Sep, CtxSep, Nodes, CtxNodes;
    var u := OnlyChild(t);
    var side: Bit := if t.lo.Fork? then 0 else 1;
    Unjoin(t, side);
    JoinLaid(m, side, u, t.node, t.bal, t.Sub(1 - side), c.Owner(), c.Side());
    JoinSep(side, u, t.node, t.bal, t.Sub(1 - side));
    ZipSets(m, c, t, root);
    OwnerAmong(c);
    RootIn(u);
    InnerSets(u);
    Rehung(m, m', u, t.node, side, c.Owner(), which);
    Rehole(m, m', c, t.node, root, Root(u), root');
    ReindexTop(m', u, c, which);
  }

  /** The index of a parentless root does not matter. */
  lemma ReindexTop(m: Mem, t: Tree, c: Ctx, which: Bit)
    requires Laid(m, t, c.Owner(), which) && (c.Frame? ==> which == c.side)
    ensures Laid(m, t, c.Owner(), c.Side())
  {
  }

  lemma UnlinkOrder(c: Ctx, t: Tree)
    requires t.Fork? && (t.lo == Leaf || t.hi == Leaf)
    ensures var k := |Before(c)| + |InOrder(t.lo)|;
      && k < |Order(c, t)| && Order(c, OnlyChild(t)) == RemoveAt(Order(c, t), k)
  {
    hide Before, After;
    assert InOrder(Leaf) == [];
  }

  /** A balanced subtree without its root, which has one child, is one level lower. */
  lemma UnlinkShrunk(c: Ctx, t: Tree)
    requires Avl(t) && t.Fork? && (t.lo == Leaf || t.hi == Leaf) && CtxAvl(c, Height(t))
    ensures Shrunk(c, OnlyChild(t))
  {
  }

  /** Everything the removal of a node with at most one child starts from. */
  lemma UnlinkReady(m: Mem, whole: Tree, root: Node?, d: Node)
    requires Zip(m, Top, whole, root) && Avl(whole) && d in Nodes(whole)
    requires d in m && (m[d].child.At(0) == null || m[d].child.At(1) == null)
    ensures var (c, t) := Focus(Top, whole, d);
      && Zip(m, c, t, root) && t.node == d && (t.lo == Leaf || t.hi == Leaf)
      && m[d].child.At(0) == Root(t.lo) && m[d].child.At(1) == Root(t.hi)
      && m[d].parent == c.Owner() && (c.Frame? ==> m[d].index == c.side)
      && CtxNodes(c) + Nodes(OnlyChild(t)) == Nodes(whole) - {d}
      && Shrunk(c, OnlyChild(t))
      && (c.Frame? ==> c.node in m && c.node != d && c.node != Root(OnlyChild(t)))
      && (OnlyChild(t).Fork? ==> OnlyChild(t).node in m && OnlyChild(t).node != d)
    ensures d in InOrder(whole)
    ensures var (c, t) := Focus(Top, whole, d);
      Order(c, OnlyChild(t)) == RemoveAt(InOrder(whole), IndexOf(InOrder(whole), d))
  {
    hide Laid, CtxLaid, Sep, CtxSep, Nodes, CtxNodes, Avl, CtxAvl, Height, Focus, Shrunk, Order, Before, InOrder;
    var (c, t) := Focus(Top, whole, d);
    FocusZip(m, whole, root, d);
    FocusMember(m, whole, root, d);
    ZipReads(m, c, t, root, 0);
    ZipReads(m, c, t, root, 1);
    PlugAvl(c, t);
    UnlinkShrunk(c, t);
    UnlinkOrder(c, t);
    UnlinkNodes(m, c, t, root);
  }

  lemma UnlinkNodes(m: Mem, c: Ctx, t: Tree, root: Node?)
    requires Zip(m, c, t, root) && t.Fork? && (t.lo == Leaf || t.hi == Leaf)
    ensures CtxNodes(c) + Nodes(OnlyChild(t)) == CtxNodes(c) + Nodes(t) - {t.node}
    ensures c.Frame? ==> c.node in m && c.node != t.node && c.node != Root(OnlyChild(t))
    ensures OnlyChild(t).Fork? ==> OnlyChild(t).node in m && OnlyChild(t).node != t.node
  {
    hide Laid, CtxLaid, Nodes, CtxNodes, Sep, CtxSep;
    var side: Bit := if t.lo.Fork? then 0 else 1;
    Unjoin(t, side);
    JoinSep(side, OnlyChild(t), t.node, t.bal, t.Sub(1 - side));
    ZipSets(m, c, t, root);
    OwnerAmong(c);
    RootIn(OnlyChild(t));
    LeafNone();
  }

  lemma LeafNone()
    ensures Nodes(Leaf) == {}
  {
  }

  // ---- Shrinking: the slot's subtree became one level lower ----

  ghost predicate Shrunk(c: Ctx, t: Tree) {
    Avl(t) && CtxAvl(c, Height(t) + 1)
  }

  lemma ShrunkOwner(c: Ctx, t: Tree)
    requires c.Frame? && Shrunk(c, t)
    ensures -1 <= c.bal <= 1
  {
  }

  lemma ShrunkTop(c: Ctx, t: Tree)
    requires c.Top? && Shrunk(c, t)
    ensures Avl(t) && CtxAvl(c, Height(t))
  {
  }

  lemma RemoveLength(s: seq<Node>, k: nat)
    requires k < |s|
    ensures |RemoveAt(s, k)| == |s| - 1
  {
  }

  /** The owner was even: its height stays. */
  lemma ShrunkEven(c: Ctx, t: Tree)
    requires c.Frame? && Shrunk(c, t) && c.bal == 0
    ensures var u := Lift(c, t, -ChildToBalance(c.side)); Avl(u) && CtxAvl(c.up, Height(u))
  {
    hide Avl, Height, Join;
    JoinAvl(c.side, t, c.node, -ChildToBalance(c.side), c.sib);
  }

  /** The owner leaned to this side: it becomes even and one level lower. */
  lemma ShrunkOn(c: Ctx, t: Tree)
    requires c.Frame? && Shrunk(c, t) && c.bal == ChildToBalance(c.side)
    ensures Shrunk(c.up, Lift(c, t, 0))
  {
    hide Avl, Height, Join;
    JoinAvl(c.side, t, c.node, 0, c.sib);
  }

  /** The owner leaned to the other side: a rotation, after which it is one level lower or not. */
  lemma ShrunkRotation(c: Ctx, t: Tree)
    requires c.Frame? && Shrunk(c, t) && c.bal == -ChildToBalance(c.side)
    ensures var u := Lift(c, t, c.bal);
      && Unbalanced(u, 2 * c.bal)
      && (Shrinks(u, 2 * c.bal) ==> Shrunk(c.up, Rotated(u, 2 * c.bal)))
      && (!Shrinks(u, 2 * c.bal) ==> Avl(Rotated(u, 2 * c.bal)) && CtxAvl(c.up, Height(Rotated(u, 2 * c.bal))))
  {
    hide Avl, Rotated;
    RotatedFacts(Lift(c, t, c.bal), 2 * c.bal);
  }
}
