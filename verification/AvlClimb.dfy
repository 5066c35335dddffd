/** One step of a climb towards the root: the slot's owner gets a new balance, or a leaf is hung in or taken out. */
module AvlClimb {
  import opened AvlShape
  import opened AvlHeap
  import opened AvlRotate

  /** `avl_child2balance[]`. */
  function ChildToBalance(child: Bit): int {
    if child == 0 then -1 else 1
  }

  /** `avl_balance2child[]`, indexed by balance + 1. */
  function BalanceToChild(balance: int): Bit
    requires -1 <= balance <= 1
  {
    if balance == 1 then 1 else 0
  }

  /** The subtree one level up, with `bal` stored in its root. */
  function Lift(c: Ctx, t: Tree, bal: int): Tree
    requires c.Frame?
  {
    Join(c.side, t, c.node, bal, c.sib)
  }

  /** The whole in-order sequence, seen from a slot. */
  function Order(c: Ctx, t: Tree): seq<Node> {
    Before(c) + InOrder(t) + After(c)
  }

  lemma LiftOrder(c: Ctx, t: Tree, bal: int)
    requires c.Frame?
    ensures Order(c.up, Lift(c, t, bal)) == Order(c, t)
  {
    hide InOrder, Join;
    JoinInOrder(c.side, t, c.node, bal, c.sib);
    var a, m, z, e, n := Before(c.up), InOrder(t), After(c.up), InOrder(c.sib), [c.node];
    if c.side == 0 {
      assert a + (m + n + e) + z == a + m + (n + e + z);
    } else {
      assert a + (e + n + m) + z == (a + e + n) + m + z;
    }
  }

  lemma LiftZip(m: Mem, c: Ctx, t: Tree, root: Node?)
    requires c.Frame? && Zip(m, c, t, root)
    ensures Zip(m, c.up, Lift(c, t, c.bal), root) && Lift(c, t, c.bal).Fork? && Lift(c, t, c.bal).node == c.node
  {
    hide Zip;
    ZipStep(m, c, t, root);
  }

  lemma RotatedOrder(c: Ctx, t: Tree, balance: int)
    requires Unbalanced(t, balance)
    ensures Order(c, Rotated(t, balance)) == Order(c, t)
  {
    RotatedFacts(t, balance);
  }

  /** Storing a balance in the slot's owner. */
  lemma Rebalance(m: Mem, m': Mem, c: Ctx, t: Tree, bal: int, root: Node?)
    requires c.Frame? && Zip(m, c, t, root) && c.node in m
    requires m' == m[c.node := m[c.node].(balance := bal)]
    ensures Zip(m', c.up, Lift(c, t, bal), root)
  {
    hide Nodes, CtxNodes, Sep;
    ZipSets(m, c, t, root);
    var c' := Frame(c.up, c.node, bal, c.side, c.sib);
    LaidFrame(m, m', t, c.Owner(), c.Side());
    LaidFrame(m, m', c.sib, c.node, 1 - c.side);
    CtxFrame(m, m', c.up, c.node, root);
    RezipFrame(m', c, t, bal, root);
    ZipStep(m', c', t, root);
  }

  lemma RezipFrame(m: Mem, c: Ctx, t: Tree, bal: int, root: Node?)
    requires c.Frame? && c.node in m && m[c.node].balance == bal
    requires m[c.node].parent == c.up.Owner() && (c.up.Frame? ==> m[c.node].index == c.up.side)
    requires m[c.node].child.At(c.side) == Root(t) && m[c.node].child.At(1 - c.side) == Root(c.sib)
    requires Laid(m, t, c.Owner(), c.Side()) && Laid(m, c.sib, c.node, 1 - c.side) && CtxLaid(m, c.up, c.node, root)
    requires Sep(t) && CtxSep(c) && CtxNodes(c) !! Nodes(t)
    ensures Zip(m, Frame(c.up, c.node, bal, c.side, c.sib), t, root)
  {
  }

  lemma OwnerReads(m: Mem, c: Ctx, t: Tree, root: Node?)
    requires Zip(m, c, t, root)
    ensures c.Top? ==> root == Root(t)
    ensures c.Frame? ==>
      && c.node in m && m[c.node].balance == c.bal
      && m[c.node].parent == c.up.Owner() && (c.up.Frame? ==> m[c.node].index == c.up.side)
      && m[c.node].child.At(c.side) == Root(t) && m[c.node].child.At(1 - c.side) == Root(c.sib)
  {
  }

  /** A leaf hung in an empty slot. */
  lemma HangLeaf(m: Mem, m': Mem, c: Ctx, n: Node, which: Bit, root: Node?, root': Node?)
    requires Zip(m, c, Leaf, root) && n !in CtxNodes(c)
    requires c.Frame? ==>
      && c.node in m && c.node in m' && which == c.side && root' == root
      && m'[c.node] == m[c.node].(child := m[c.node].child.Set(which, n))
    requires c.Top? ==> root' == n
    requires n in m' && m'[n] == Rec(Links(null, null), c.Owner(), which, 0)
    requires forall x <- CtxNodes(c) :: x != c.Owner() ==> x in m && x in m' && m'[x] == m[x]
    ensures Zip(m', c, Fork(Leaf, n, 0, Leaf), root')
  {
    ZipSets(m, c, Leaf, root);
    Rehole(m, m', c, null, root, n, root');
  }

  // ---- From the root to a slot and back ----

  /** `avl_index_t`: the node that will be the parent, and which child; no node in an empty tree. */
  datatype Where = Where(node: Node?, child: Bit)

  ghost predicate EmptySlot(m: Mem, t: Tree, w: Where) {
    if w.node == null then t.Leaf?
    else w.node in Nodes(t) && w.node in m && m[w.node].child.At(w.child) == null
  }

  /** Where a node put in the slot `w` lands in the in-order sequence `s`. */
  ghost function SlotPos(s: seq<Node>, w: Where): nat
    requires w.node != null ==> w.node in s
  {
    if w.node == null then 0 else IndexOf(s, w.node) + w.child
  }

  ghost function SlotCtx(t: Tree, w: Where): Ctx
    requires w.node != null ==> w.node in Nodes(t)
  {
    if w.node == null then Top
    else var (c, u) := Focus(Top, t, w.node); Frame(c, u.node, u.bal, w.child, u.Sub(1 - w.child))
  }

  lemma SlotZip(m: Mem, t: Tree, root: Node?, w: Where)
    requires Zip(m, Top, t, root) && EmptySlot(m, t, w)
    ensures var c := SlotCtx(t, w);
      && Plug(c, Leaf) == t && Zip(m, c, Leaf, root) && c.Owner() == w.node && (c.Frame? ==> c.side == w.child)
      && CtxNodes(c) == Nodes(t)
  {
    var c := SlotCtx(t, w);
    if w.node != null {
      var (c0, u) := Focus(Top, t, w.node);
      ZipPlug(m, c0, u, root);
      Unjoin(u, w.child);
      assert u.Sub(w.child) == Leaf;
    }
    ZipPlug(m, c, Leaf, root);
    PlugNodes(c, Leaf);
  }

  /** A member's index is where its slot says it is. */
  lemma IndexAt(t: Tree, k: nat, n: Node)
    requires Sep(t) && k < |InOrder(t)| && InOrder(t)[k] == n
    ensures n in InOrder(t) && IndexOf(InOrder(t), n) == k
  {
    hide InOrder, Sep;
    InOrderNoDup(t);
  }

  lemma SlotOrder(t: Tree, c: Ctx, w: Where, n: Node)
    requires Sep(t) && Order(c, Leaf) == InOrder(t)
    requires c.Owner() == w.node && (c.Frame? ==> c.side == w.child)
    ensures w.node != null ==> w.node in InOrder(t)
    ensures var k := SlotPos(InOrder(t), w);
      && k <= |InOrder(t)| && k == |Before(c)|
      && Order(c, Fork(Leaf, n, 0, Leaf)) == InsertAt(InOrder(t), k, n)
  {
    var a, z := Before(c), After(c);
    assert InOrder(t) == a + z;
    if c.Frame? {
      if w.child == 0 {
        assert z[0] == w.node;
        IndexAt(t, |a|, w.node);
      } else {
        assert a[|a| - 1] == w.node;
        IndexAt(t, |a| - 1, w.node);
      }
    }
    assert InOrder(Fork(Leaf, n, 0, Leaf)) == [n];
  }

  /** The climb is over: the tree seen from the root. */
  lemma Settled(m: Mem, c: Ctx, t: Tree, root: Node?)
    requires Zip(m, c, t, root) && Avl(t) && CtxAvl(c, Height(t))
    ensures var u := Plug(c, t);
      && Zip(m, Top, u, root) && Avl(u) && InOrder(u) == Order(c, t) && Nodes(u) == CtxNodes(c) + Nodes(t)
  {
    ZipPlug(m, c, t, root);
    PlugAvl(c, t);
    PlugInOrder(c, t);
    PlugNodes(c, t);
  }

  // ---- Growing: the slot's subtree became one level taller ----

  /** `t` is one level taller than what the nodes around the slot were balanced for. */
  ghost predicate Grown(c: Ctx, t: Tree) {
    && t.Fork? && Avl(t) && CtxAvl(c, Height(t) - 1)
    && (t.bal != 0 || Height(t) == 1)
  }

  lemma GrownTop(c: Ctx, t: Tree)
    requires c.Top? && Grown(c, t)
    ensures Avl(t) && CtxAvl(c, Height(t))
  {
  }

  lemma GrownLeaf(c: Ctx, n: Node)
    requires CtxAvl(c, Height(Leaf))
    ensures Grown(c, Fork(Leaf, n, 0, Leaf))
  {
  }

  /** Everything `avl_insert` starts from. */
  lemma SlotReady(m: Mem, t: Tree, root: Node?, w: Where, n: Node)
    requires Zip(m, Top, t, root) && Avl(t) && EmptySlot(m, t, w)
    ensures var c := SlotCtx(t, w);
      && Zip(m, c, Leaf, root) && c.Owner() == w.node && (c.Frame? ==> c.side == w.child)
      && CtxNodes(c) == Nodes(t)
      && Grown(c, Fork(Leaf, n, 0, Leaf))
    ensures w.node != null ==> w.node in InOrder(t)
    ensures var k := SlotPos(InOrder(t), w);
      && k <= |InOrder(t)|
      && Order(SlotCtx(t, w), Fork(Leaf, n, 0, Leaf)) == InsertAt(InOrder(t), k, n)
  {
    hide Laid, CtxLaid, Avl, CtxAvl, Grown, Before, After, CtxSep, CtxNodes, SlotPos, InsertAt;
    var c := SlotCtx(t, w);
    SlotZip(m, t, root, w);
    PlugAvl(c, Leaf);
    PlugInOrder(c, Leaf);
    LeafAvl();
    GrownLeaf(c, n);
    SlotOrder(t, c, w, n);
  }

  lemma LeafNodes(n: Node)
    ensures Nodes(Fork(Leaf, n, 0, Leaf)) == {n}
  {
  }

  lemma LeafAvl()
    ensures Avl(Leaf)
  {
  }

  lemma GrownOwner(c: Ctx, t: Tree)
    requires c.Frame? && Grown(c, t)
    ensures -1 <= c.bal <= 1
  {
  }

  lemma LiftNodes(c: Ctx, t: Tree, bal: int)
    requires c.Frame?
    ensures CtxNodes(c.up) + Nodes(Lift(c, t, bal)) == CtxNodes(c) + Nodes(t)
  {
    JoinSep(c.side, t, c.node, bal, c.sib);
  }

  lemma GrownEven(c: Ctx, t: Tree)
    requires c.Frame? && Grown(c, t) && c.bal + ChildToBalance(c.side) == 0
    ensures var u := Lift(c, t, 0); Avl(u) && CtxAvl(c.up, Height(u))
  {
    hide Avl, Height, Join;
    JoinAvl(c.side, t, c.node, 0, c.sib);
  }

  lemma GrownOn(c: Ctx, t: Tree)
    requires c.Frame? && Grown(c, t) && c.bal == 0
    ensures Grown(c.up, Lift(c, t, ChildToBalance(c.side)))
  {
    hide Avl, Height;
    JoinAvl(c.side, t, c.node, ChildToBalance(c.side), c.sib);
  }

  /** A second level of tilt: one rotation gives the subtree the height it had before. */
  lemma GrownRotation(c: Ctx, t: Tree)
    requires c.Frame? && Grown(c, t) && c.bal == ChildToBalance(c.side)
    ensures var u := Lift(c, t, c.bal);
      && Unbalanced(u, 2 * c.bal) && Shrinks(u, 2 * c.bal)
      && CtxAvl(c.up, Height(u) - 1)
  {
    hide Avl;
  }
}
