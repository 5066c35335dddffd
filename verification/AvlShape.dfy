/** The record an AVL tree links together, and the values that describe the shape of a tree.

    A [Node] is the user's structure with its embedded `avl_node_t`: the C code translates
    between the two by adding an offset, here they are one object. A [Tree] is what a reader
    of the heap sees below a pointer, and a [Ctx] is everything around one child slot of it:
    the path back to the root with the sibling subtrees. */
module AvlShape {
  import PowerOfTwo

  /** The user's data, seen only by the comparison function. */
  type Key(!new)

  /** A child index or a direction: 0 is left (before), 1 is right (after). */
  type Bit = b: int | 0 <= b <= 1

  /** The two pointers of `avl_child[]`. */
  datatype Links = Links(lo: Node?, hi: Node?) {
    function At(i: Bit): Node? {
      if i == 0 then lo else hi
    }

    function Set(i: Bit, n: Node?): Links {
      if i == 0 then Links(n, hi) else Links(lo, n)
    }
  }

  class Node {
    var child: Links
    var parent: Node?
    var index: Bit
    var balance: int
    var key: Key

    constructor (key: Key)
      ensures this.key == key
    {
      child, parent, index, balance := Links(null, null), null, 0, 0;
      this.key := key;
    }
  }

  /** A subtree: `bal` is the balance stored in the node. */
  datatype Tree = Leaf | Fork(lo: Tree, node: Node, bal: int, hi: Tree) {
    function Sub(i: Bit): Tree
      requires Fork?
    {
      if i == 0 then lo else hi
    }
  }

  /** The tree whose root is `n`, with `a` as child `side` and `c` as the other child. */
  function Join(side: Bit, a: Tree, n: Node, bal: int, c: Tree): Tree {
    if side == 0 then Fork(a, n, bal, c) else Fork(c, n, bal, a)
  }

  /** What surrounds a child slot: the slot is child `side` of `node`, whose other child is `sib`. */
  datatype Ctx = Top | Frame(up: Ctx, node: Node, bal: int, side: Bit, sib: Tree) {
    function Owner(): Node? {
      if Top? then null else node
    }

    function Side(): Bit {
      if Top? then 0 else side
    }
  }

  function Plug(c: Ctx, t: Tree): Tree {
    match c
    case Top => t
    case Frame(up, n, bal, side, sib) => Plug(up, Join(side, t, n, bal, sib))
  }

  function Root(t: Tree): Node? {
    if t.Leaf? then null else t.node
  }

  ghost function Nodes(t: Tree): set<Node> {
    match t
    case Leaf => {}
    case Fork(lo, n, _, hi) => Nodes(lo) + {n} + Nodes(hi)
  }

  ghost function CtxNodes(c: Ctx): set<Node> {
    match c
    case Top => {}
    case Frame(up, n, _, _, sib) => CtxNodes(up) + {n} + Nodes(sib)
  }

  lemma RootIn(t: Tree)
    ensures Root(t) != null ==> Root(t) in Nodes(t)
  {
  }

  /** No node occurs twice. */
  ghost predicate Sep(t: Tree) {
    t.Fork? ==>
      && Sep(t.lo) && Sep(t.hi)
      && t.node !in Nodes(t.lo) && t.node !in Nodes(t.hi)
      && Nodes(t.lo) !! Nodes(t.hi)
  }

  ghost predicate CtxSep(c: Ctx) {
    c.Frame? ==>
      && CtxSep(c.up) && Sep(c.sib)
      && c.node !in CtxNodes(c.up) && c.node !in Nodes(c.sib)
      && CtxNodes(c.up) !! Nodes(c.sib)
  }

  function InOrder(t: Tree): seq<Node> {
    match t
    case Leaf => []
    case Fork(lo, n, _, hi) => InOrder(lo) + [n] + InOrder(hi)
  }

  /** The in-order nodes to the left of the slot. */
  function Before(c: Ctx): seq<Node> {
    match c
    case Top => []
    case Frame(up, n, _, side, sib) => if side == 0 then Before(up) else Before(up) + InOrder(sib) + [n]
  }

  /** The in-order nodes to the right of the slot. */
  function After(c: Ctx): seq<Node> {
    match c
    case Top => []
    case Frame(up, n, _, side, sib) => if side == 0 then [n] + InOrder(sib) + After(up) else After(up)
  }

  function Max(a: nat, b: nat): nat {
    if a < b then b else a
  }

  function Height(t: Tree): nat {
    match t
    case Leaf => 0
    case Fork(lo, _, _, hi) => 1 + Max(Height(lo), Height(hi))
  }

  /** Every stored balance is height(right) - height(left) and is -1, 0 or 1. */
  predicate Avl(t: Tree) {
    t.Fork? ==>
      && -1 <= t.bal <= 1
      && t.bal == Height(t.hi) - Height(t.lo)
      && Avl(t.lo) && Avl(t.hi)
  }

  /** As [Avl], for the nodes around a slot that holds a subtree of height `h`. */
  predicate CtxAvl(c: Ctx, h: nat) {
    c.Frame? ==>
      && -1 <= c.bal <= 1
      && c.bal == (if c.side == 0 then Height(c.sib) - h else h - Height(c.sib))
      && Avl(c.sib)
      && CtxAvl(c.up, 1 + Max(h, Height(c.sib)))
  }

  // ---- Joining and plugging ----

  lemma Unjoin(t: Tree, side: Bit)
    requires t.Fork?
    ensures t == Join(side, t.Sub(side), t.node, t.bal, t.Sub(1 - side))
  {
  }

  lemma JoinAvl(side: Bit, a: Tree, n: Node, bal: int, c: Tree)
    ensures Height(Join(side, a, n, bal, c)) == 1 + Max(Height(a), Height(c))
    ensures Avl(Join(side, a, n, bal, c)) <==>
      && -1 <= bal <= 1
      && bal == (if side == 0 then Height(c) - Height(a) else Height(a) - Height(c))
      && Avl(a) && Avl(c)
  {
  }

  lemma JoinSep(side: Bit, a: Tree, n: Node, bal: int, c: Tree)
    ensures Nodes(Join(side, a, n, bal, c)) == Nodes(a) + {n} + Nodes(c)
    ensures Sep(Join(side, a, n, bal, c)) <==>
      && Sep(a) && Sep(c) && n !in Nodes(a) && n !in Nodes(c) && Nodes(a) !! Nodes(c)
  {
  }

  lemma JoinInOrder(side: Bit, a: Tree, n: Node, bal: int, c: Tree)
    ensures InOrder(Join(side, a, n, bal, c)) ==
            if side == 0 then InOrder(a) + [n] + InOrder(c) else InOrder(c) + [n] + InOrder(a)
  {
  }

  lemma {:induction false} PlugInOrder(c: Ctx, t: Tree)
    ensures InOrder(Plug(c, t)) == Before(c) + InOrder(t) + After(c)
  {
    hide InOrder, Join;
    if c.Frame? {
      PlugInOrder(c.up, Join(c.side, t, c.node, c.bal, c.sib));
      JoinInOrder(c.side, t, c.node, c.bal, c.sib);
      var a, m, z, e, n := Before(c.up), InOrder(t), After(c.up), InOrder(c.sib), [c.node];
      if c.side == 0 {
        assert a + (m + n + e) + z == a + m + (n + e + z);
      } else {
        assert a + (e + n + m) + z == (a + e + n) + m + z;
      }
    }
  }

  lemma {:induction false} PlugAvl(c: Ctx, t: Tree)
    ensures Avl(Plug(c, t)) <==> Avl(t) && CtxAvl(c, Height(t))
  {
    hide Avl, Height, Join;
    if c.Frame? {
      var u := Join(c.side, t, c.node, c.bal, c.sib);
      PlugAvl(c.up, u);
      JoinAvl(c.side, t, c.node, c.bal, c.sib);
    }
  }

  lemma {:induction false} PlugNodes(c: Ctx, t: Tree)
    ensures Nodes(Plug(c, t)) == CtxNodes(c) + Nodes(t)
  {
    if c.Frame? {
      PlugNodes(c.up, Join(c.side, t, c.node, c.bal, c.sib));
    }
  }

  lemma {:induction false} PlugSep(c: Ctx, t: Tree)
    ensures Sep(Plug(c, t)) <==> Sep(t) && CtxSep(c) && CtxNodes(c) !! Nodes(t)
  {
    if c.Frame? {
      PlugSep(c.up, Join(c.side, t, c.node, c.bal, c.sib));
    }
  }

  /** The slot that holds the subtree rooted at `n`. */
  ghost function Focus(c: Ctx, t: Tree, n: Node): (r: (Ctx, Tree))
    requires n in Nodes(t)
    ensures Plug(r.0, r.1) == Plug(c, t)
    ensures r.1.Fork? && r.1.node == n
    decreases t
  {
    if t.node == n then (c, t)
    else if n in Nodes(t.lo) then Focus(Frame(c, t.node, t.bal, 0, t.hi), t.lo, n)
    else Focus(Frame(c, t.node, t.bal, 1, t.lo), t.hi, n)
  }

  // ---- The in-order sequence ----

  ghost predicate NoDup(s: seq<Node>) {
    forall i, j :: 0 <= i < j < |s| ==> s[i] != s[j]
  }

  lemma {:induction false} InOrderHas(t: Tree, n: Node)
    ensures n in InOrder(t) <==> n in Nodes(t)
  {
    if t.Fork? {
      InOrderHas(t.lo, n);
      InOrderHas(t.hi, n);
    }
  }

  lemma NoDupJoin(a: seq<Node>, n: Node, b: seq<Node>)
    requires NoDup(a) && NoDup(b) && n !in a && n !in b
    requires forall x :: x in a ==> x !in b
    ensures NoDup(a + [n] + b)
  {
    var s := a + [n] + b;
    forall i, j | 0 <= i < j < |s| ensures s[i] != s[j] {
      if i < |a| && j > |a| {
        assert a[i] !in b;
        assert s[j] == b[j - |a| - 1];
      }
    }
  }

  lemma {:induction false} InOrderNoDup(t: Tree)
    requires Sep(t)
    ensures NoDup(InOrder(t))
  {
    if t.Fork? {
      InOrderNoDup(t.lo);
      InOrderNoDup(t.hi);
      InOrderHas(t.lo, t.node);
      InOrderHas(t.hi, t.node);
      forall x | x in InOrder(t.lo) ensures x !in InOrder(t.hi) {
        InOrderHas(t.lo, x);
        InOrderHas(t.hi, x);
      }
      NoDupJoin(InOrder(t.lo), t.node, InOrder(t.hi));
    }
  }

  /** The position of a member. */
  ghost function IndexOf(s: seq<Node>, n: Node): (k: nat)
    requires n in s
    ensures k < |s| && s[k] == n
  {
    var k :| 0 <= k < |s| && s[k] == n;
    k
  }

  ghost function InsertAt(s: seq<Node>, k: nat, n: Node): seq<Node>
    requires k <= |s|
  {
    s[..k] + [n] + s[k..]
  }

  ghost function RemoveAt(s: seq<Node>, k: nat): seq<Node>
    requires k < |s|
  {
    s[..k] + s[k + 1..]
  }

  // ---- The height of a balanced tree ----

  function Fib(n: nat): nat {
    if n < 2 then n else Fib(n - 2) + Fib(n - 1)
  }

  lemma {:induction false} FibMonotone(m: nat, n: nat)
    requires m <= n
    ensures Fib(m) <= Fib(n)
    decreases n
  {
    if m < n {
      FibMonotone(m, n - 1);
    }
  }

  lemma FibSplit(h: nat, tall: nat, short: nat)
    requires h >= 1 && tall == h - 1 && short <= tall <= short + 1
    ensures Fib(h + 2) <= Fib(tall + 2) + Fib(short + 2)
  {
    FibMonotone(h, short + 2);
  }

  /** A balanced tree of height h has at least Fib(h + 2) - 1 nodes. */
  lemma {:induction false} HeightBound(t: Tree)
    requires Avl(t)
    ensures |InOrder(t)| >= Fib(Height(t) + 2) - 1
  {
    if t.Leaf? {
      assert Fib(2) == 1;
    } else {
      HeightBound(t.lo);
      HeightBound(t.hi);
      if t.bal < 0 {
        FibSplit(Height(t), Height(t.lo), Height(t.hi));
      } else {
        FibSplit(Height(t), Height(t.hi), Height(t.lo));
      }
    }
  }

  /** Fibonacci numbers at least double every second step. */
  lemma {:induction false} FibPow(h: nat)
    ensures PowerOfTwo.Pow2(h / 2) <= Fib(h + 2)
  {
    if h >= 2 {
      FibPow(h - 2);
      FibMonotone(h, h + 1);
      assert h / 2 == (h - 2) / 2 + 1;
    }
  }
}
