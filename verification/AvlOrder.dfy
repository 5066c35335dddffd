/** Neighbours in the in-order sequence, and the order the comparison function puts on it. */
module AvlOrder {
  import opened AvlShape
  import opened AvlHeap
  import opened AvlClimb

  /** The member just before (0) or just after (1) `n`, or null at the end. */
  ghost function Neighbour(s: seq<Node>, n: Node, direction: Bit): Node?
    requires n in s
  {
    var k := IndexOf(s, n);
    if direction == 0 then (if k == 0 then null else s[k - 1])
    else if k + 1 == |s| then null else s[k + 1]
  }

  /** The first (0) or last (1) member. */
  function EndOf(s: seq<Node>, side: Bit): Node? {
    if s == [] then null else if side == 0 then s[0] else s[|s| - 1]
  }

  /** Where the nearest member of `t` on the `side` end stands in the whole sequence. */
  ghost function Edge(c: Ctx, t: Tree, side: Bit): int {
    if side == 0 then |Before(c)| else |Before(c)| + |InOrder(t)| - 1
  }

  lemma EdgeNode(c: Ctx, t: Tree, side: Bit)
    requires t.Fork? && t.Sub(side) == Leaf
    ensures 0 <= Edge(c, t, side) < |Order(c, t)| && Order(c, t)[Edge(c, t, side)] == t.node
  {
    assert InOrder(t)[if side == 0 then 0 else |InOrder(t)| - 1] == t.node;
  }

  /** Down to child `side`: the far edge stays where it is. */
  lemma EdgeDown(c: Ctx, t: Tree, side: Bit)
    requires t.Fork? && t.Sub(side).Fork?
    ensures Edge(Frame(c, t.node, t.bal, side, t.Sub(1 - side)), t.Sub(side), side) == Edge(c, t, side)
  {
  }

  /** Down to child `side` to look for the neighbour: its far edge is next to the node. */
  lemma EdgeInner(c: Ctx, t: Tree, side: Bit)
    requires t.Fork? && t.Sub(side).Fork?
    ensures var k := |Before(c)| + |InOrder(t.lo)|;
      && k < |Order(c, t)| && Order(c, t)[k] == t.node
      && Edge(Frame(c, t.node, t.bal, side, t.Sub(1 - side)), t.Sub(side), 1 - side) == (if side == 0 then k - 1 else k + 1)
  {
  }

  /** Up from child `side`: the near edge stays, from the other child the owner is next to the edge. */
  lemma EdgeUp(c: Ctx, t: Tree, side: Bit)
    requires c.Frame? && t.Fork?
    ensures c.side == side ==> Edge(c.up, Lift(c, t, c.bal), side) == Edge(c, t, side)
    ensures c.side != side ==>
      var k := if side == 0 then Edge(c, t, side) - 1 else Edge(c, t, side) + 1;
      0 <= k < |Order(c, t)| && Order(c, t)[k] == c.node
  {
  }

  lemma LeafEdge(c: Ctx, t: Tree, side: Bit)
    requires t.Fork? && t.Sub(side) == Leaf
    ensures Edge(c, t, side) == |Before(c)| + |InOrder(t.lo)|
  {
    assert InOrder(t.Sub(side)) == [];
  }

  lemma EdgeTop(t: Tree, side: Bit)
    ensures Edge(Top, t, side) == (if side == 0 then 0 else |Order(Top, t)| - 1)
  {
  }

  lemma DownOrder(c: Ctx, t: Tree, side: Bit)
    requires t.Fork?
    ensures Order(Frame(c, t.node, t.bal, side, t.Sub(1 - side)), t.Sub(side)) == Order(c, t)
  {
    Unjoin(t, side);
    LiftOrder(Frame(c, t.node, t.bal, side, t.Sub(1 - side)), t.Sub(side), t.bal);
  }

  /** The index of a member, from its slot. */
  lemma MemberAt(c: Ctx, t: Tree, whole: Tree)
    requires t.Fork? && Sep(whole) && Order(c, t) == InOrder(whole)
    ensures t.node in InOrder(whole) && IndexOf(InOrder(whole), t.node) == |Before(c)| + |InOrder(t.lo)|
  {
    assert Order(c, t)[|Before(c)| + |InOrder(t.lo)|] == t.node;
    IndexAt(whole, |Before(c)| + |InOrder(t.lo)|, t.node);
  }

  lemma SubNodes(t: Tree, side: Bit)
    requires t.Fork?
    ensures t.node in Nodes(t) && Nodes(t.Sub(side)) <= Nodes(t)
  {
  }

  lemma OrderTop(t: Tree)
    ensures Order(Top, t) == InOrder(t)
    ensures t.Leaf? <==> InOrder(t) == []
  {
  }

  // ---- Reading the layout ----

  /** The pointers read at the root of a subtree, and the slots of its children. */
  lemma ZipReads(m: Mem, c: Ctx, t: Tree, root: Node?, side: Bit)
    requires t.Fork? && Zip(m, c, t, root)
    ensures t.node in m && m[t.node].child.At(side) == Root(t.Sub(side))
    ensures m[t.node].parent == c.Owner() && (c.Frame? ==> m[t.node].index == c.side)
    ensures Zip(m, Frame(c, t.node, t.bal, side, t.Sub(1 - side)), t.Sub(side), root)
  {
    Unjoin(t, side);
    ZipStep(m, Frame(c, t.node, t.bal, side, t.Sub(1 - side)), t.Sub(side), root);
  }

  /** The slot of a member. */
  lemma FocusZip(m: Mem, t: Tree, root: Node?, n: Node)
    requires Zip(m, Top, t, root) && n in Nodes(t)
    ensures var (c, u) := Focus(Top, t, n);
      Zip(m, c, u, root) && u.node == n && Order(c, u) == InOrder(t) && CtxNodes(c) + Nodes(u) == Nodes(t)
  {
    var (c, u) := Focus(Top, t, n);
    ZipPlug(m, c, u, root);
    PlugInOrder(c, u);
    PlugNodes(c, u);
  }

  lemma FocusMember(m: Mem, t: Tree, root: Node?, n: Node)
    requires Zip(m, Top, t, root) && n in Nodes(t)
    ensures var (c, u) := Focus(Top, t, n);
      n in InOrder(t) && IndexOf(InOrder(t), n) == |Before(c)| + |InOrder(u.lo)|
  {
    hide Laid, CtxLaid, InOrder, Nodes, Focus, Plug, Before;
    var (c, u) := Focus(Top, t, n);
    FocusZip(m, t, root, n);
    MemberAt(c, u, t);
  }

  /** Next to `t.node` on one side is next to its neighbour on the other. */
  lemma PlaceOf(m: Mem, whole: Tree, root: Node?, c: Ctx, t: Tree, n: Node, direction: Bit, child: Bit)
    requires Zip(m, Top, whole, root) && t.Fork? && Order(c, t) == InOrder(whole)
    requires var k := |Before(c)| + |InOrder(t.lo)|;
      if child == direction then n == t.node
      else var j := if direction == 0 then k - 1 else k + 1; 0 <= j < |Order(c, t)| && n == Order(c, t)[j]
    ensures n in InOrder(whole) && t.node in InOrder(whole)
    ensures IndexOf(InOrder(whole), n) + child == IndexOf(InOrder(whole), t.node) + direction
  {
    hide Laid, CtxLaid, InOrder, Before;
    MemberAt(c, t, whole);
    if child != direction {
      var k := |Before(c)| + |InOrder(t.lo)|;
      IndexAt(whole, if direction == 0 then k - 1 else k + 1, n);
    }
  }

  // ---- The comparison function ----

  /** What `avl_create` asks of the comparison function. */
  ghost predicate TotalOrder(cmp: (Key, Key) -> int) {
    && (forall a, b :: -1 <= cmp(a, b) <= 1 && cmp(a, b) == -cmp(b, a))
    && (forall a, b, c :: cmp(a, b) <= 0 && cmp(b, c) <= 0 ==> cmp(a, c) <= 0)
  }

  lemma Below(cmp: (Key, Key) -> int, a: Key, b: Key, c: Key)
    requires TotalOrder(cmp) && cmp(a, b) <= 0 && cmp(b, c) <= 0 && (cmp(a, b) < 0 || cmp(b, c) < 0)
    ensures cmp(a, c) == -1
  {
    assert cmp(a, c) == 0 ==> cmp(c, a) <= 0 && cmp(c, b) <= 0 && cmp(b, a) <= 0;
  }

  ghost function KeysOf(s: seq<Node>): (ks: seq<Key>)
    reads s
    ensures |ks| == |s| && forall i :: 0 <= i < |s| ==> ks[i] == s[i].key
  {
    seq(|s|, i requires 0 <= i < |s| reads s => s[i].key)
  }

  /** Strictly increasing. */
  ghost predicate Sorted(cmp: (Key, Key) -> int, ks: seq<Key>) {
    forall i, j :: 0 <= i < j < |ks| ==> cmp(ks[i], ks[j]) == -1
  }

  ghost predicate Ranked(cmp: (Key, Key) -> int, ks: seq<Key>) {
    TotalOrder(cmp) && Sorted(cmp, ks)
  }

  /** `v` belongs between the first `k` keys and the others. */
  ghost predicate Splits(cmp: (Key, Key) -> int, ks: seq<Key>, v: Key, k: nat) {
    && k <= |ks|
    && (forall i :: 0 <= i < k ==> cmp(v, ks[i]) == 1)
    && (forall i :: k <= i < |ks| ==> cmp(v, ks[i]) == -1)
  }

  lemma SplitUnique(cmp: (Key, Key) -> int, ks: seq<Key>, v: Key, j: nat, k: nat)
    requires Splits(cmp, ks, v, j) && Splits(cmp, ks, v, k)
    ensures j == k
  {
    var i := if j < k then j else k;
    assert i == |ks| || cmp(v, ks[i]) in {-1, 1};
  }

  /** One comparison settles everything on one side of it. */
  lemma CompareAt(cmp: (Key, Key) -> int, ks: seq<Key>, v: Key, k: nat)
    requires TotalOrder(cmp) && Sorted(cmp, ks) && k < |ks|
    ensures cmp(v, ks[k]) == -1 ==> forall i :: k <= i < |ks| ==> cmp(v, ks[i]) == -1
    ensures cmp(v, ks[k]) == 1 ==> forall i :: 0 <= i <= k ==> cmp(v, ks[i]) == 1
  {
    if cmp(v, ks[k]) == -1 {
      forall i | k < i < |ks| ensures cmp(v, ks[i]) == -1 {
        Below(cmp, v, ks[k], ks[i]);
      }
    }
    if cmp(v, ks[k]) == 1 {
      forall i | 0 <= i < k ensures cmp(v, ks[i]) == 1 {
        Below(cmp, ks[i], ks[k], v);
      }
    }
  }

  /** All keys before `lo` are below `v`, all from `hi` on are above. */
  ghost predicate Narrowed(cmp: (Key, Key) -> int, ks: seq<Key>, v: Key, lo: nat, hi: nat) {
    && lo <= hi <= |ks|
    && (forall i :: 0 <= i < lo ==> cmp(v, ks[i]) == 1)
    && (forall i :: hi <= i < |ks| ==> cmp(v, ks[i]) == -1)
  }

  /** The stretch of the sequence below a slot, one step further down. */
  lemma DownSpan(c: Ctx, t: Tree, side: Bit)
    requires t.Fork?
    ensures var c' := Frame(c, t.node, t.bal, side, t.Sub(1 - side)); var k := |Before(c)| + |InOrder(t.lo)|;
      && k < |Before(c)| + |InOrder(t)| <= |Order(c, t)| && Order(c, t)[k] == t.node
      && |Before(c')| == (if side == 0 then |Before(c)| else k + 1)
      && |Before(c')| + |InOrder(t.Sub(side))| == (if side == 0 then k else |Before(c)| + |InOrder(t)|)
  {
  }

  /** One turn of the search. */
  lemma Narrow(cmp: (Key, Key) -> int, ks: seq<Key>, v: Key, c: Ctx, t: Tree, side: Bit)
    requires TotalOrder(cmp) && Sorted(cmp, ks) && t.Fork? && |ks| == |Order(c, t)|
    requires Narrowed(cmp, ks, v, |Before(c)|, |Before(c)| + |InOrder(t)|)
    requires |Before(c)| + |InOrder(t.lo)| < |ks|
    requires cmp(v, ks[|Before(c)| + |InOrder(t.lo)|]) == (if side == 0 then -1 else 1)
    ensures var c' := Frame(c, t.node, t.bal, side, t.Sub(1 - side));
      Narrowed(cmp, ks, v, |Before(c')|, |Before(c')| + |InOrder(t.Sub(side))|)
  {
    hide InOrder, Before, Order, TotalOrder, Sorted;
    DownSpan(c, t, side);
    CompareAt(cmp, ks, v, |Before(c)| + |InOrder(t.lo)|);
  }

  /** The search has reached an empty slot. */
  lemma SlotFound(cmp: (Key, Key) -> int, ks: seq<Key>, v: Key, m: Mem, t: Tree, root: Node?, c: Ctx, w: Where)
    requires Zip(m, Top, t, root) && Zip(m, c, Leaf, root) && Order(c, Leaf) == InOrder(t)
    requires c.Owner() == w.node && (c.Frame? ==> c.side == w.child) && m.Keys == Nodes(t)
    requires Narrowed(cmp, ks, v, |Before(c)|, |Before(c)| + |InOrder(Leaf)|)
    ensures EmptySlot(m, t, w) && (w.node != null ==> w.node in InOrder(t)) && Splits(cmp, ks, v, SlotPos(InOrder(t), w))
  {
    hide Laid, CtxLaid, Order, Before, InOrder, Nodes, CtxNodes;
    OwnerReads(m, c, Leaf, root);
    OrderLeaf(c, t);
    if w.node == null {
      OrderTop(t);
    } else {
      SlotOrder(t, c, w, w.node);
    }
  }

  lemma OrderLeaf(c: Ctx, t: Tree)
    ensures InOrder(Leaf) == [] && (c.Top? ==> Order(c, Leaf) == [] && Before(c) == [])
  {
  }

  lemma SubHeight(t: Tree, side: Bit)
    requires t.Fork?
    ensures Height(t.Sub(side)) < Height(t)
  {
  }

  /** What the search knows at a slot. */
  ghost predicate Searching(m: Mem, c: Ctx, t: Tree, root: Node?, whole: Tree, cmp: (Key, Key) -> int, ks: seq<Key>,
          v: Key, steps: nat) {
    && Zip(m, c, t, root) && Order(c, t) == InOrder(whole) && |ks| == |InOrder(whole)|
    && Ranked(cmp, ks)
    && Narrowed(cmp, ks, v, |Before(c)|, |Before(c)| + |InOrder(t)|)
    && steps + Height(t) <= Height(whole) && Avl(whole)
  }

  /** How many comparisons a search for `v` takes from the root of `t` down. */
  ghost function Comparisons(cmp: (Key, Key) -> int, t: Tree, v: Key): nat
    reads Nodes(t)
  {
    match t
    case Leaf => 0
    case Fork(lo, n, _, hi) =>
      var d := cmp(v, n.key);
      if d == 0 then 1 else 1 + Comparisons(cmp, if d < 0 then lo else hi, v)
  }

  lemma SearchStart(m: Mem, t: Tree, root: Node?, cmp: (Key, Key) -> int, ks: seq<Key>, v: Key)
    requires Zip(m, Top, t, root) && Avl(t) && |ks| == |InOrder(t)| && Ranked(cmp, ks)
    ensures Searching(m, Top, t, root, t, cmp, ks, v, 0) && root == Root(t)
  {
  }

  /** The key compared with, and the outcomes. */
  lemma SearchReads(m: Mem, c: Ctx, t: Tree, root: Node?, whole: Tree, cmp: (Key, Key) -> int, ks: seq<Key>, v: Key,
          steps: nat, s: seq<Node>) returns (k: nat)
    requires Searching(m, c, t, root, whole, cmp, ks, v, steps) && t.Fork? && s == InOrder(whole)
    ensures k < |ks| == |s| && s[k] == t.node && t.node in s && -1 <= cmp(v, ks[k]) <= 1
    ensures k == |Before(c)| + |InOrder(t.lo)| && Fib(steps + 3) <= |s| + 1
    ensures t.node in m && m[t.node].child.At(0) == Root(t.lo) && m[t.node].child.At(1) == Root(t.hi)
  {
    hide Fib, Avl, Zip, Sorted, Laid;
    k := |Before(c)| + |InOrder(t.lo)|;
    DownSpan(c, t, 0);
    ZipReads(m, c, t, root, 0);
    ZipReads(m, c, t, root, 1);
    HeightBound(whole);
    FibMonotone(steps + 3, Height(whole) + 2);
  }

  lemma SearchStep(m: Mem, c: Ctx, t: Tree, root: Node?, whole: Tree, cmp: (Key, Key) -> int, ks: seq<Key>, v: Key,
          steps: nat, k: nat, side: Bit)
    requires Searching(m, c, t, root, whole, cmp, ks, v, steps) && t.Fork?
    requires k == |Before(c)| + |InOrder(t.lo)| && k < |ks| && cmp(v, ks[k]) == (if side == 0 then -1 else 1)
    ensures Searching(m, Frame(c, t.node, t.bal, side, t.Sub(1 - side)), t.Sub(side), root, whole, cmp, ks, v, steps + 1)
  {
    hide Zip, Order, InOrder, Before, TotalOrder, Sorted, Narrowed, Height, Avl;
    DownOrder(c, t, side);
    ZipReads(m, c, t, root, side);
    SubHeight(t, side);
    Narrow(cmp, ks, v, c, t, side);
  }

  lemma SearchEnd(m: Mem, c: Ctx, root: Node?, whole: Tree, cmp: (Key, Key) -> int, ks: seq<Key>, v: Key, steps: nat,
          w: Where)
    requires Searching(m, c, Leaf, root, whole, cmp, ks, v, steps) && Zip(m, Top, whole, root) && m.Keys == Nodes(whole)
    requires c.Owner() == w.node && (c.Frame? ==> c.side == w.child)
    ensures EmptySlot(m, whole, w) && (w.node != null ==> w.node in InOrder(whole)) && Splits(cmp, ks, v, SlotPos(InOrder(whole), w))
    ensures Fib(steps + 2) <= |InOrder(whole)| + 1
  {
    hide Fib, Avl;
    HeightBound(whole);
    FibMonotone(steps + 2, Height(whole) + 2);
    SlotFound(cmp, ks, v, m, whole, root, c, w);
  }

  // ---- Stepping back and forth, and the places between members ----

  /** `AVL_PREV` and `AVL_NEXT` undo each other. */
  lemma StepBack(s: seq<Node>, n: Node, direction: Bit)
    requires NoDup(s) && n in s && Neighbour(s, n, direction) != null
    ensures Neighbour(s, n, direction) in s && Neighbour(s, Neighbour(s, n, direction), 1 - direction) == n
  {
    var k := IndexOf(s, n);
    var j := if direction == 0 then k - 1 else k + 1;
    assert s[j] == Neighbour(s, n, direction) && IndexOf(s, s[j]) == j;
  }

  lemma StepFrom(s: seq<Node>, k: nat, direction: Bit)
    requires NoDup(s) && k < |s|
    ensures s[k] in s
    ensures Neighbour(s, s[k], direction) ==
            if direction == 0 then (if k == 0 then null else s[k - 1]) else if k + 1 == |s| then null else s[k + 1]
  {
    assert IndexOf(s, s[k]) == k;
  }

  /** The member after a subtree has something to its left. */
  lemma {:induction false} NextHasLeft(m: Mem, c: Ctx, t: Tree, root: Node?)
    requires CtxLaid(m, c, Root(t), root) && t.Fork? && After(c) != []
    ensures After(c)[0] in m && m[After(c)[0]].child.At(0) != null
  {
    if c.side == 1 {
      NextHasLeft(m, c.up, Join(c.side, t, c.node, c.bal, c.sib), root);
    }
  }

  /** Of two consecutive members, one has a child towards the other. */
  lemma NoFacingSlots(m: Mem, whole: Tree, root: Node?, n: Node, next: Node)
    requires Zip(m, Top, whole, root) && n in Nodes(whole) && n in m && m[n].child.At(1) == null
    requires n in InOrder(whole) && Neighbour(InOrder(whole), n, 1) == next
    ensures next in m && m[next].child.At(0) != null
  {
    hide InOrder, Nodes, Focus, Before, Sep;
    var (c, t) := Focus(Top, whole, n);
    FocusZip(m, whole, root, n);
    FocusMember(m, whole, root, n);
    ZipReads(m, c, t, root, 1);
    AfterNext(c, t, InOrder(whole));
    NextHasLeft(m, c, t, root);
  }

  lemma AfterNext(c: Ctx, t: Tree, order: seq<Node>)
    requires t.Fork? && t.hi == Leaf && order == Order(c, t) && |Before(c)| + |InOrder(t.lo)| + 1 < |order|
    ensures After(c) != [] && After(c)[0] == order[|Before(c)| + |InOrder(t.lo)| + 1]
  {
    assert InOrder(t.hi) == [];
  }

  /** Every place in the order has one empty slot. */
  lemma SlotUnique(m: Mem, whole: Tree, root: Node?, v: Where, w: Where)
    requires Zip(m, Top, whole, root) && whole.Fork? && EmptySlot(m, whole, v) && EmptySlot(m, whole, w)
    requires v.node in InOrder(whole) && w.node in InOrder(whole) && SlotPos(InOrder(whole), v) == SlotPos(InOrder(whole), w)
    ensures v == w
  {
    hide Laid, CtxLaid, InOrder, Nodes;
    if v.child < w.child {
      NoFacingSlots(m, whole, root, w.node, v.node);
    } else if w.child < v.child {
      NoFacingSlots(m, whole, root, v.node, w.node);
    }
  }

  /** Around the place where `v` belongs are the greatest smaller and the least greater key. */
  lemma SplitNearest(cmp: (Key, Key) -> int, ks: seq<Key>, v: Key, k: nat, i: nat)
    requires Ranked(cmp, ks) && Splits(cmp, ks, v, k) && i < |ks|
    ensures cmp(ks[i], v) < 0 ==> k > 0 && cmp(ks[k - 1], v) < 0 && cmp(ks[i], ks[k - 1]) <= 0
    ensures cmp(ks[i], v) > 0 ==> k < |ks| && cmp(ks[k], v) > 0 && cmp(ks[k], ks[i]) <= 0
  {
    assert forall a: Key :: cmp(a, a) == -cmp(a, a);
  }
}
