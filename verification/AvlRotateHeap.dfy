/** The pointer changes of a rotation, as functions from memory to memory. */
module AvlRotateHeap {
  import opened AvlShape
  import opened AvlHeap
  import opened AvlRotate

  /** The memory after case 1: `cright` becomes a child of `node`, `node` a child of `child`,
      and `child` takes the slot `which` of `parent`. */
  ghost function SingleMem(m: Mem, node: Node, child: Node, cright: Node?, parent: Node?, which: Bit, left: Bit,
          childBal: int, nodeBal: int): Mem {
    map n | n in m ::
      if n == node then Rec(m[n].child.Set(left, cright), child, 1 - left, nodeBal)
      else if n == child then Rec(m[n].child.Set(1 - left, node), parent, which, childBal)
      else if n == cright then m[n].(parent := node, index := left)
      else if n == parent then m[n].(child := m[n].child.Set(which, child))
      else m[n]
  }

  lemma SingleMemIs(m: Mem, m': Mem, node: Node, child: Node, cright: Node?, parent: Node?, which: Bit, left: Bit,
          childBal: int, nodeBal: int)
    requires m.Keys == m'.Keys && node in m && child in m && node != child && cright !in {node, child} && parent !in {node, child}
    requires (cright != null ==> cright in m) && (parent != null ==> parent in m && parent != cright)
    requires m'[node] == Rec(m[node].child.Set(left, cright), child, 1 - left, nodeBal)
    requires m'[child] == Rec(m[child].child.Set(1 - left, node), parent, which, childBal)
    requires cright != null ==> m'[cright] == m[cright].(parent := node, index := left)
    requires parent != null ==> m'[parent] == m[parent].(child := m[parent].child.Set(which, child))
    requires forall n <- m :: n != node && n != child && n != cright && n != parent ==> m'[n] == m[n]
    ensures m' == SingleMem(m, node, child, cright, parent, which, left, childBal, nodeBal)
  {
  }

  /** What the pointers read in case 1 are, and that they are different nodes. */
  lemma SingleParts(m: Mem, c: Ctx, t: Tree, left: Bit, root: Node?)
    requires t.Fork? && t.Sub(left).Fork? && Zip(m, c, t, root)
    ensures var ct := t.Sub(left); var inner := ct.Sub(1 - left);
      && t.node in m && m[t.node].parent == c.Owner() && (c.Frame? ==> m[t.node].index == c.side)
      && m[t.node].child.At(left) == ct.node && ct.node in m && m[ct.node].balance == ct.bal
      && m[ct.node].child.At(1 - left) == Root(inner)
      && t.node != ct.node
      && (inner.Fork? ==> inner.node in m && inner.node !in {t.node, ct.node} && inner.node != c.Owner())
      && m[ct.node].child.At(left) == Root(ct.Sub(left))
      && (ct.Sub(left).Fork? ==> ct.Sub(left).node in m && ct.Sub(left).node !in {t.node, ct.node} && ct.Sub(left).node != Root(inner))
      && (c.Frame? ==> c.node in m && c.node != t.node && c.node != ct.node)
  {
    hide Laid, CtxLaid, Sep, CtxSep, Nodes, CtxNodes;
    var ct, right := t.Sub(left), 1 - left;
    JoinLaid(m, left, ct, t.node, t.bal, t.Sub(right), c.Owner(), c.Side());
    JoinLaid(m, left, ct.Sub(left), ct.node, ct.bal, ct.Sub(right), t.node, left);
    Unjoin(t, left);
    Unjoin(ct, left);
    JoinSep(left, ct, t.node, t.bal, t.Sub(right));
    JoinSep(left, ct.Sub(left), ct.node, ct.bal, ct.Sub(right));
    RootIn(ct);
    RootIn(ct.Sub(right));
    RootIn(ct.Sub(left));
    LaidKeys(m, ct.Sub(right), ct.node, right);
    LaidKeys(m, ct.Sub(left), ct.node, left);
    OwnerIn(m, c, t.node, root);
  }

  lemma OwnerIn(m: Mem, c: Ctx, hole: Node?, root: Node?)
    requires CtxLaid(m, c, hole, root)
    ensures c.Frame? ==> c.node in m && c.node in CtxNodes(c)
  {
  }

  lemma SingleElsewhere(m: Mem, node: Node, child: Node, cright: Node?, parent: Node?, which: Bit, left: Bit,
          childBal: int, nodeBal: int, x: set<Node>)
    requires x <= m.Keys && node !in x && child !in x && (cright != null ==> cright !in x) && (parent != null ==> parent !in x)
    ensures Agree(m, SingleMem(m, node, child, cright, parent, which, left, childBal, nodeBal), x)
  {
  }

  /** What a rotation may change around the rotated nodes: the pointer to them. */
  ghost predicate Reslotted(m: Mem, m': Mem, c: Ctx, n: Node) {
    c.Frame? ==>
      && c.node in m && c.node in m'
      && m'[c.node] == m[c.node].(child := m[c.node].child.Set(c.side, n))
      && Agree(m, m', CtxNodes(c.up)) && Agree(m, m', Nodes(c.sib))
  }

  /** `x` keeps its contents but hangs below `n` as child `i`. */
  ghost predicate Hung(m: Mem, m': Mem, x: Tree, n: Node, i: Bit) {
    x.Fork? ==>
      && x.node in m && x.node in m'
      && m'[x.node] == m[x.node].(parent := n, index := i)
      && Agree(m, m', Nodes(x.lo)) && Agree(m, m', Nodes(x.hi))
  }

  ghost predicate SingleChange(m: Mem, m': Mem, c: Ctx, t: Tree, left: Bit, childBal: int, nodeBal: int)
    requires t.Fork? && t.Sub(left).Fork?
  {
    var ct := t.Sub(left);
    && t.node in m' && ct.node in m' && t.node in m && ct.node in m
    && m'[t.node] == Rec(m[t.node].child.Set(left, Root(ct.Sub(1 - left))), ct.node, 1 - left, nodeBal)
    && m'[ct.node].child == m[ct.node].child.Set(1 - left, t.node) && m'[ct.node].parent == c.Owner()
    && (c.Frame? ==> m'[ct.node].index == c.side) && m'[ct.node].balance == childBal
    && Agree(m, m', Nodes(ct.Sub(left))) && Agree(m, m', Nodes(t.Sub(1 - left)))
    && Hung(m, m', ct.Sub(1 - left), t.node, left)
    && Reslotted(m, m', c, ct.node)
  }

  lemma SingleChanges(m: Mem, c: Ctx, t: Tree, which: Bit, left: Bit, childBal: int, nodeBal: int, root: Node?)
    requires t.Fork? && t.Sub(left).Fork? && Zip(m, c, t, root) && (c.Frame? ==> which == c.side)
    ensures var ct := t.Sub(left);
      SingleChange(m, SingleMem(m, t.node, ct.node, Root(ct.Sub(1 - left)), c.Owner(), which, left, childBal, nodeBal), c, t, left, childBal, nodeBal)
  {
    hide Laid, CtxLaid, CtxSep, Nodes, CtxNodes, Agree;
    SingleParts(m, c, t, left, root);
    ZipSets(m, c, t, root);
    var right, ct, node := 1 - left, t.Sub(left), t.node;
    var outer, inner, other := ct.Sub(left), ct.Sub(right), t.Sub(right);
    Unjoin(t, left);
    Unjoin(ct, left);
    JoinSep(left, ct, node, t.bal, other);
    JoinSep(left, outer, ct.node, ct.bal, inner);
    InnerSets(inner);
    SingleElsewhere(m, node, ct.node, Root(inner), c.Owner(), which, left, childBal, nodeBal, Nodes(outer));
    SingleElsewhere(m, node, ct.node, Root(inner), c.Owner(), which, left, childBal, nodeBal, Nodes(other));
    if inner.Fork? {
      SingleElsewhere(m, node, ct.node, Root(inner), c.Owner(), which, left, childBal, nodeBal, Nodes(inner.lo));
      SingleElsewhere(m, node, ct.node, Root(inner), c.Owner(), which, left, childBal, nodeBal, Nodes(inner.hi));
    }
    if c.Frame? {
      SingleElsewhere(m, node, ct.node, Root(inner), c.Owner(), which, left, childBal, nodeBal, CtxNodes(c.up));
      SingleElsewhere(m, node, ct.node, Root(inner), c.Owner(), which, left, childBal, nodeBal, Nodes(c.sib));
    }
  }

  lemma SingleRezip(m: Mem, m': Mem, c: Ctx, t: Tree, left: Bit, childBal: int, nodeBal: int, root: Node?)
    requires t.Fork? && t.Sub(left).Fork? && Zip(m, c, t, root) && SingleChange(m, m', c, t, left, childBal, nodeBal)
    ensures Zip(m', c, Single(t, left, childBal, nodeBal), if c.Top? then t.Sub(left).node else root)
  {
    hide Laid, CtxLaid, Sep, CtxSep, Nodes, CtxNodes;
    var right, ct, node := 1 - left, t.Sub(left), t.node;
    var outer, inner, other := ct.Sub(left), ct.Sub(right), t.Sub(right);
    var low := Join(left, inner, node, nodeBal, other);
    Unjoin(t, left);
    Unjoin(ct, left);
    JoinLaid(m, left, ct, node, t.bal, other, c.Owner(), c.Side());
    JoinLaid(m, left, outer, ct.node, ct.bal, inner, node, left);
    JoinSep(left, ct, node, t.bal, other);
    JoinSep(left, outer, ct.node, ct.bal, inner);
    SingleSep(t, left, childBal, nodeBal);
    LaidFrame(m, m', outer, ct.node, left);
    LaidFrame(m, m', other, node, right);
    Rehung(m, m', inner, ct.node, right, node, left);
    JoinLaid(m', left, inner, node, nodeBal, other, ct.node, right);
    JoinLaid(m', left, outer, ct.node, childBal, low, c.Owner(), c.Side());
    Rehole(m, m', c, node, root, ct.node, if c.Top? then ct.node else root);
  }

  lemma SingleZip(m: Mem, c: Ctx, t: Tree, which: Bit, left: Bit, childBal: int, nodeBal: int, root: Node?)
    requires t.Fork? && t.Sub(left).Fork? && Zip(m, c, t, root) && (c.Frame? ==> which == c.side)
    ensures var ct := t.Sub(left);
      Zip(SingleMem(m, t.node, ct.node, Root(ct.Sub(1 - left)), c.Owner(), which, left, childBal, nodeBal),
          c, Single(t, left, childBal, nodeBal), if c.Top? then ct.node else root)
  {
    var ct := t.Sub(left);
    SingleChanges(m, c, t, which, left, childBal, nodeBal, root);
    SingleRezip(m, SingleMem(m, t.node, ct.node, Root(ct.Sub(1 - left)), c.Owner(), which, left, childBal, nodeBal),
                c, t, left, childBal, nodeBal, root);
  }

  // ---- Case 2 ----

  /** Case 2 makes the pointer changes of two single rotations: of `child`, then of `node`. */
  ghost function DoubleMem(m: Mem, node: Node, child: Node, gchild: Node, gleft: Node?, gright: Node?,
                           parent: Node?, which: Bit, left: Bit, childBal: int, nodeBal: int): Mem {
    SingleMem(SingleMem(m, child, gchild, gleft, node, left, 1 - left, 0, childBal),
              node, gchild, gright, parent, which, left, 0, nodeBal)
  }

  /** What the further pointers read in case 2 are. */
  lemma DoubleParts(m: Mem, c: Ctx, t: Tree, left: Bit, root: Node?)
    requires t.Fork? && t.Sub(left).Fork? && t.Sub(left).Sub(1 - left).Fork? && Zip(m, c, t, root)
    ensures var ct := t.Sub(left); var gt := ct.Sub(1 - left); var g0, g1 := gt.Sub(left), gt.Sub(1 - left);
      && gt.node in m && m[gt.node].balance == gt.bal
      && m[gt.node].child.At(left) == Root(g0) && m[gt.node].child.At(1 - left) == Root(g1)
      && gt.node !in {t.node, ct.node}
      && (g0.Fork? ==> g0.node in m && g0.node !in {t.node, ct.node, gt.node} && g0.node != c.Owner())
      && (g1.Fork? ==> g1.node in m && g1.node !in {t.node, ct.node, gt.node} && g1.node != c.Owner() && g1.node != Root(g0))
  {
    hide Laid, CtxLaid, Sep, CtxSep, Nodes, CtxNodes;
    var ct := t.Sub(left);
    var gt := ct.Sub(1 - left);
    var c1 := Frame(c, t.node, t.bal, left, t.Sub(1 - left));
    Unjoin(t, left);
    ZipStep(m, c1, ct, root);
    SingleParts(m, c1, ct, 1 - left, root);
    ZipSets(m, c, t, root);
    ZipSets(m, c1, ct, root);
    Unjoin(ct, left);
    Unjoin(gt, left);
    JoinSep(left, ct, t.node, t.bal, t.Sub(1 - left));
    JoinSep(left, ct.Sub(left), ct.node, ct.bal, gt);
    JoinSep(left, gt.Sub(left), gt.node, gt.bal, gt.Sub(1 - left));
    RootIn(gt.Sub(left));
    RootIn(gt.Sub(1 - left));
    OwnerIn(m, c, t.node, root);
  }

  lemma DoubleMemIs(m: Mem, m': Mem, node: Node, child: Node, gchild: Node, gleft: Node?, gright: Node?,
                    parent: Node?, which: Bit, left: Bit, childBal: int, nodeBal: int)
    requires m.Keys == m'.Keys && node in m && child in m && gchild in m && node != child && node != gchild && child != gchild
    requires gleft !in {node, child, gchild} && gright !in {node, child, gchild} && parent !in {node, child, gchild}
    requires (gleft != null ==> gleft in m && gleft != gright) && (gright != null ==> gright in m)
    requires parent != null ==> parent in m && parent != gleft && parent != gright
    requires m[node].child.At(left) == child && m[child].child.At(1 - left) == gchild
    requires m'[node] == Rec(m[node].child.Set(left, gright), gchild, 1 - left, nodeBal)
    requires m'[child] == Rec(m[child].child.Set(1 - left, gleft), gchild, left, childBal)
    requires m'[gchild] == Rec(m[gchild].child.Set(left, child).Set(1 - left, node), parent, which, 0)
    requires gright != null ==> m'[gright] == m[gright].(parent := node, index := left)
    requires gleft != null ==> m'[gleft] == m[gleft].(parent := child, index := 1 - left)
    requires parent != null ==> m'[parent] == m[parent].(child := m[parent].child.Set(which, gchild))
    requires forall n <- m :: n != node && n != child && n != gchild && n != gleft && n != gright && n != parent ==> m'[n] == m[n]
    ensures m' == DoubleMem(m, node, child, gchild, gleft, gright, parent, which, left, childBal, nodeBal)
  {
  }

  lemma DoubleZip(m: Mem, c: Ctx, t: Tree, which: Bit, left: Bit, childBal: int, nodeBal: int, root: Node?)
    requires t.Fork? && t.Sub(left).Fork? && t.Sub(left).Sub(1 - left).Fork? && Zip(m, c, t, root) && (c.Frame? ==> which == c.side)
    ensures var ct := t.Sub(left); var gt := ct.Sub(1 - left);
      Zip(DoubleMem(m, t.node, ct.node, gt.node, Root(gt.Sub(left)), Root(gt.Sub(1 - left)), c.Owner(), which, left, childBal, nodeBal),
          c, Double(t, left, childBal, nodeBal), if c.Top? then gt.node else root)
  {
    var ct := t.Sub(left);
    var gt := ct.Sub(1 - left);
    var c1 := Frame(c, t.node, t.bal, left, t.Sub(1 - left));
    Unjoin(t, left);
    ZipStep(m, c1, ct, root);
    SingleZip(m, c1, ct, left, 1 - left, 0, childBal, root);
    var m1 := SingleMem(m, ct.node, gt.node, Root(gt.Sub(left)), t.node, left, 1 - left, 0, childBal);
    ZipStep(m1, c1, Single(ct, 1 - left, 0, childBal), root);
    SingleZip(m1, c, Halfway(t, left, childBal), which, left, 0, nodeBal, root);
  }

  // ---- Either case ----

  /** What `avl_rotation` reads. */
  lemma RotationReads(m: Mem, c: Ctx, t: Tree, balance: int, root: Node?)
    requires Unbalanced(t, balance) && Zip(m, c, t, root)
    ensures var left := Heavy(balance); var ct := t.Sub(left);
      && t.Fork? && t.node in m && m[t.node].parent == c.Owner() && (c.Frame? ==> m[t.node].index == c.side && c.node in m)
      && ct.Fork? && m[t.node].child.At(left) == ct.node && ct.node in m && m[ct.node].balance == ct.bal
      && ct.node != t.node && c.Owner() !in {t.node, ct.node}
      && var inner := ct.Sub(1 - left);
      && m[ct.node].child.At(1 - left) == Root(inner) && Root(inner) !in {t.node, ct.node}
      && (inner.Fork? ==> inner.node in m && inner.node != c.Owner())
      && (ct.bal == -Sign(balance) ==> inner.Fork?)
  {
    hide Zip, Avl, Height;
    TopHeights(t, balance);
    SingleParts(m, c, t, Heavy(balance), root);
  }

  lemma RotationSingle(m: Mem, c: Ctx, t: Tree, balance: int, node: Node, child: Node, cright: Node?, parent: Node?,
                       which: Bit, left: Bit, childBal: int, root: Node?)
    requires Unbalanced(t, balance) && Zip(m, c, t, root) && (c.Frame? ==> which == c.side)
    requires left == Heavy(balance) && node == t.node && parent == c.Owner()
    requires t.Sub(left).Fork? && child == t.Sub(left).node && cright == Root(t.Sub(left).Sub(1 - left))
    requires t.Sub(left).bal != -Sign(balance) && childBal == t.Sub(left).bal - Sign(balance)
    ensures Zip(SingleMem(m, node, child, cright, parent, which, left, childBal, -childBal),
                c, Rotated(t, balance), if parent == null then child else root)
    ensures Shrinks(t, balance) == (childBal == 0)
  {
    hide Zip, SingleMem, Single, Rotated, Shrinks;
    SingleZip(m, c, t, which, left, childBal, -childBal, root);
    RotatedSingle(t, balance, childBal);
  }

  lemma RotationDouble(m: Mem, c: Ctx, t: Tree, balance: int, node: Node, child: Node, gchild: Node, gleft: Node?,
          gright: Node?, parent: Node?, which: Bit, left: Bit, leftHeavy: int, root: Node?)
    requires Unbalanced(t, balance) && Zip(m, c, t, root) && (c.Frame? ==> which == c.side)
    requires left == Heavy(balance) && leftHeavy == Sign(balance) && node == t.node && parent == c.Owner()
    requires child == t.Sub(left).node && t.Sub(left).bal == -leftHeavy
    requires var g := t.Sub(left).Sub(1 - left); g.Fork? && gchild == g.node && gleft == Root(g.Sub(left)) && gright == Root(g.Sub(1 - left))
    ensures var b := t.Sub(left).Sub(1 - left).bal;
      Zip(DoubleMem(m, node, child, gchild, gleft, gright, parent, which, left,
                    if b == -leftHeavy then leftHeavy else 0, if b == leftHeavy then -leftHeavy else 0),
          c, Rotated(t, balance), if parent == null then gchild else root)
    ensures Shrinks(t, balance)
  {
    hide Zip, DoubleMem, Double;
    var b := t.Sub(left).Sub(1 - left).bal;
    DoubleZip(m, c, t, which, left, if b == -leftHeavy then leftHeavy else 0, if b == leftHeavy then -leftHeavy else 0, root);
  }
}
