/** How a tree value is laid out in linked nodes.

    The link fields of a set of nodes are read off the heap once, as a [Mem] value, and
    everything about layout is a property of that value. */
module AvlHeap {
  import opened AvlShape

  /** The contents of one `avl_node_t`. */
  datatype Rec = Rec(child: Links, parent: Node?, index: Bit, balance: int)

  type Mem = map<Node, Rec>

  ghost function Snap(s: set<Node>): (m: Mem)
    reads s
    ensures m.Keys == s
    ensures forall n <- s :: m[n] == Rec(n.child, n.parent, n.index, n.balance)
  {
    map n | n in s :: Rec(n.child, n.parent, n.index, n.balance)
  }

  /** The links below a pointer are exactly `t`: child pointers, parent pointers, child
      indices and stored balances. The index of a parentless node is never read. */
  ghost predicate Laid(m: Mem, t: Tree, p: Node?, i: Bit) {
    match t
    case Leaf => true
    case Fork(lo, n, bal, hi) =>
      && n in m
      && m[n].parent == p
      && (p != null ==> m[n].index == i)
      && m[n].balance == bal
      && m[n].child == Links(Root(lo), Root(hi))
      && Laid(m, lo, n, 0)
      && Laid(m, hi, n, 1)
  }

  /** The links around a slot are exactly `c`; the slot's pointer is `hole`, the tree's root pointer is `root`. */
  ghost predicate CtxLaid(m: Mem, c: Ctx, hole: Node?, root: Node?) {
    match c
    case Top => root == hole
    case Frame(up, n, bal, side, sib) =>
      && n in m
      && m[n].parent == up.Owner()
      && (up.Frame? ==> m[n].index == up.side)
      && m[n].balance == bal
      && m[n].child.At(side) == hole
      && m[n].child.At(1 - side) == Root(sib)
      && Laid(m, sib, n, 1 - side)
      && CtxLaid(m, up, n, root)
  }

  /** The whole tree, seen from a slot: `t` in the slot and `c` around it, nothing shared. */
  ghost predicate Zip(m: Mem, c: Ctx, t: Tree, root: Node?) {
    && Laid(m, t, c.Owner(), c.Side())
    && CtxLaid(m, c, Root(t), root)
    && Sep(t) && CtxSep(c) && CtxNodes(c) !! Nodes(t)
  }

  ghost predicate Agree(m: Mem, m': Mem, s: set<Node>) {
    forall n <- s :: n in m && n in m' && m[n] == m'[n]
  }

  // ---- What a change of memory leaves alone ----

  lemma {:induction false} LaidKeys(m: Mem, t: Tree, p: Node?, i: Bit)
    requires Laid(m, t, p, i)
    ensures Nodes(t) <= m.Keys
  {
    if t.Fork? {
      LaidKeys(m, t.lo, t.node, 0);
      LaidKeys(m, t.hi, t.node, 1);
    }
  }

  lemma {:induction false} LaidFrame(m: Mem, m': Mem, t: Tree, p: Node?, i: Bit)
    requires Laid(m, t, p, i) && Agree(m, m', Nodes(t))
    ensures Laid(m', t, p, i)
  {
    if t.Fork? {
      LaidFrame(m, m', t.lo, t.node, 0);
      LaidFrame(m, m', t.hi, t.node, 1);
    }
  }

  lemma {:induction false} CtxFrame(m: Mem, m': Mem, c: Ctx, hole: Node?, root: Node?)
    requires CtxLaid(m, c, hole, root) && Agree(m, m', CtxNodes(c))
    ensures CtxLaid(m', c, hole, root)
  {
    if c.Frame? {
      LaidFrame(m, m', c.sib, c.node, 1 - c.side);
      CtxFrame(m, m', c.up, c.node, root);
    }
  }

  /** A subtree hung elsewhere: only its root's parent and index change. */
  lemma Rehung(m: Mem, m': Mem, t: Tree, p: Node?, i: Bit, q: Node?, j: Bit)
    requires Laid(m, t, p, i) && Sep(t)
    requires t.Fork? ==>
      && t.node in m'
      && m'[t.node] == m[t.node].(parent := q, index := j)
      && Agree(m, m', Nodes(t.lo)) && Agree(m, m', Nodes(t.hi))
    ensures Laid(m', t, q, j)
  {
    if t.Fork? {
      LaidFrame(m, m', t.lo, t.node, 0);
      LaidFrame(m, m', t.hi, t.node, 1);
    }
  }

  /** A slot given another pointer: only the owner's child pointer, or the root pointer, changes. */
  lemma Rehole(m: Mem, m': Mem, c: Ctx, hole: Node?, root: Node?, hole': Node?, root': Node?)
    requires CtxLaid(m, c, hole, root) && CtxSep(c)
    requires c.Top? ==> root' == hole'
    requires c.Frame? ==>
      && root' == root
      && c.node in m'
      && m'[c.node] == m[c.node].(child := m[c.node].child.Set(c.side, hole'))
      && Agree(m, m', CtxNodes(c.up)) && Agree(m, m', Nodes(c.sib))
    ensures CtxLaid(m', c, hole', root')
  {
    if c.Frame? {
      LaidFrame(m, m', c.sib, c.node, 1 - c.side);
      CtxFrame(m, m', c.up, c.node, root);
    }
  }

  // ---- Which nodes are where ----

  lemma InnerSets(t: Tree)
    requires Sep(t)
    ensures t.Fork? ==>
      && Nodes(t) == Nodes(t.lo) + {t.node} + Nodes(t.hi)
      && t.node !in Nodes(t.lo) && t.node !in Nodes(t.hi)
  {
  }

  lemma {:induction false} CtxKeys(m: Mem, c: Ctx, hole: Node?, root: Node?)
    requires CtxLaid(m, c, hole, root)
    ensures CtxNodes(c) <= m.Keys
  {
    if c.Frame? {
      LaidKeys(m, c.sib, c.node, 1 - c.side);
      CtxKeys(m, c.up, c.node, root);
    }
  }

  lemma ZipSets(m: Mem, c: Ctx, t: Tree, root: Node?)
    requires Zip(m, c, t, root)
    ensures Nodes(t) <= m.Keys && CtxNodes(c) <= m.Keys && CtxNodes(c) !! Nodes(t)
    ensures c.Frame? ==>
      && CtxNodes(c) == CtxNodes(c.up) + {c.node} + Nodes(c.sib)
      && c.node !in CtxNodes(c.up) && c.node !in Nodes(c.sib)
  {
    LaidKeys(m, t, c.Owner(), c.Side());
    CtxKeys(m, c, Root(t), root);
  }

  // ---- Moving the slot ----

  lemma JoinLaid(m: Mem, side: Bit, a: Tree, n: Node, bal: int, c: Tree, p: Node?, i: Bit)
    ensures Laid(m, Join(side, a, n, bal, c), p, i) <==>
      && n in m && m[n].parent == p && (p != null ==> m[n].index == i) && m[n].balance == bal
      && m[n].child.At(side) == Root(a) && m[n].child.At(1 - side) == Root(c)
      && Laid(m, a, n, side) && Laid(m, c, n, 1 - side)
  {
  }

  lemma ZipStep(m: Mem, c: Ctx, t: Tree, root: Node?)
    requires c.Frame?
    ensures Zip(m, c, t, root) <==> Zip(m, c.up, Join(c.side, t, c.node, c.bal, c.sib), root)
  {
    JoinLaid(m, c.side, t, c.node, c.bal, c.sib, c.up.Owner(), c.up.Side());
    JoinSep(c.side, t, c.node, c.bal, c.sib);
  }

  lemma {:induction false} ZipPlug(m: Mem, c: Ctx, t: Tree, root: Node?)
    ensures Zip(m, c, t, root) <==> Zip(m, Top, Plug(c, t), root)
  {
    if c.Frame? {
      ZipStep(m, c, t, root);
      ZipPlug(m, c.up, Join(c.side, t, c.node, c.bal, c.sib), root);
    }
  }
}
