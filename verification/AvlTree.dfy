/** The AVL tree of lib/libavl/avl.c. */
module Libavl {
  import PowerOfTwo
  import opened AvlShape
  import opened AvlHeap
  import opened AvlRotate
  import opened AvlRotateHeap
  import opened AvlClimb
  import opened AvlOrder
  import opened AvlRemove
  import opened AvlUpdate
  import opened AvlDestroy

  function Own(n: Node?): set<Node> {
    if n == null then {} else {n}
  }

  /** `avl_tree_t`. `shape` is the tree value the linked nodes form. */
  class AvlTree {
    var root: Node?
    var numnodes: nat
    const compar: (Key, Key) -> int
    ghost var shape: Tree

    ghost predicate Valid()
      reads this, Nodes(shape)
    {
      && Zip(Snap(Nodes(shape)), Top, shape, root)
      && Avl(shape)
      && numnodes == |InOrder(shape)|
    }

    /** The members from first to last. */
    ghost function Elements(): seq<Node>
      reads this
    {
      InOrder(shape)
    }

    /** The comparison function is as `avl_create` asks, and the members increase strictly. */
    ghost predicate Ordered()
      reads this, Nodes(shape)
      requires Valid()
    {
      ElementsInside();
      Ranked(compar, KeysOf(Elements()))
    }

    lemma ElementsInside()
      ensures forall n <- Elements() :: n in Nodes(shape)
    {
      forall n | n in Elements() ensures n in Nodes(shape) {
        InOrderHas(shape, n);
      }
    }

    /** `avl_create`. */
    constructor (compar: (Key, Key) -> int)
      ensures Valid() && Elements() == [] && numnodes == 0 && this.compar == compar
    {
      root, numnodes, shape := null, 0, Leaf;
      this.compar := compar;
    }

    // ---- Reading ----

    /** `avl_walk`, behind `AVL_NEXT` (direction 1) and `AVL_PREV` (direction 0). */
    method Walk(oldnode: Node?, left: Bit) returns (r: Node?)
      requires Valid() && (oldnode != null ==> oldnode in Nodes(shape))
      ensures Valid()
      ensures oldnode == null ==> r == null
      ensures oldnode != null ==> oldnode in Elements() && r == Neighbour(Elements(), oldnode, left)
    {
      hide Zip, Nodes, Order, InOrder, Snap, Before, Focus, IndexOf, Avl;
      var node := oldnode;
      if node == null {
        return null;
      }
      ghost var m := Snap(Nodes(shape));
      FocusZip(m, shape, root, node);
      ghost var (c, t) := Focus(Top, shape, node);
      FocusMember(m, shape, root, node);
      ZipReads(m, c, t, root, left);
      if node.child.At(left) != null {
        r := Inward(node, left, c, t, m);
      } else {
        r := Outward(node, left, c, t, m);
      }
    }

    /** The first loop of `avl_walk`: one step to `left`, then as far as possible the other way. */
    method Inward(node': Node, left: Bit, ghost c': Ctx, ghost t': Tree, ghost m: Mem) returns (node: Node)
      requires m == Snap(Nodes(shape)) && Zip(m, c', t', root)
      requires t'.Fork? && t'.node == node' && t'.Sub(left).Fork?
      ensures var k := |Before(c')| + |InOrder(t'.lo)|; var j := if left == 0 then k - 1 else k + 1;
        0 <= j < |Order(c', t')| && node == Order(c', t')[j]
      ensures node in Nodes(shape) && node in Nodes(t'.Sub(left)) && node.child.At(1 - left) == null
      ensures m == Snap(Nodes(shape))
    {
      hide Zip, Nodes, Order, InOrder, Edge, Snap, Before;
      var right := 1 - left;
      ghost var c, t := Frame(c', t'.node, t'.bal, left, t'.Sub(right)), t'.Sub(left);
      ghost var j := Edge(c, t, right);
      EdgeInner(c', t', left);
      DownOrder(c', t', left);
      ZipReads(m, c', t', root, left);
      ZipReads(m, c, t, root, right);
      node := node'.child.At(left);
      while node.child.At(right) != null
        invariant t.Fork? && node == t.node && Zip(m, c, t, root) && Order(c, t) == Order(c', t')
        invariant Edge(c, t, right) == j && Nodes(t) <= Nodes(t'.Sub(left))
        invariant node in m && node.child.At(right) == Root(t.Sub(right))
        decreases t
      {
        node := node.child.At(right);
        EdgeDown(c, t, right);
        DownOrder(c, t, right);
        SubNodes(t, right);
        ZipReads(m, c, t, root, right);
        c, t := Frame(c, t.node, t.bal, right, t.Sub(left)), t.Sub(right);
        ZipReads(m, c, t, root, right);
      }
      EdgeNode(c, t, right);
      SubNodes(t, right);
    }

    /** The second loop of `avl_walk`: up until the step comes from the far side. */
    method Outward(node': Node, left: Bit, ghost c': Ctx, ghost t': Tree, ghost m: Mem) returns (node: Node?)
      requires m == Snap(Nodes(shape)) && Zip(m, c', t', root)
      requires t'.Fork? && t'.node == node' && t'.Sub(left) == Leaf
      ensures var k := |Before(c')| + |InOrder(t'.lo)|; var j := if left == 0 then k - 1 else k + 1;
        if 0 <= j < |Order(c', t')| then node == Order(c', t')[j] else node == null
      ensures m == Snap(Nodes(shape))
    {
      hide Zip, Nodes, Order, InOrder, Edge, Snap, Before, Lift;
      var right := 1 - left;
      ghost var c, t, k := c', t', |Before(c')| + |InOrder(t'.lo)|;
      LeafEdge(c, t, left);
      node := node';
      while true
        invariant t.Fork? && node == t.node && Zip(m, c, t, root) && Order(c, t) == Order(c', t')
        invariant Edge(c, t, left) == k
        decreases c
      {
        ZipReads(m, c, t, root, left);
        assert node.parent == c.Owner();
        var wasChild := node.index;
        node := node.parent;
        if node == null {
          EdgeTop(t, left);
          return;
        }
        assert c != Top;
        EdgeUp(c, t, left);
        if wasChild == right {
          return;
        }
        LiftZip(m, c, t, root);
        LiftOrder(c, t, c.bal);
        c, t := c.up, Lift(c, t, c.bal);
      }
    }

    /** `avl_first`: the leftmost node. */
    method First() returns (prev: Node?)
      requires Valid()
      ensures Valid()
      ensures prev == if Elements() == [] then null else Elements()[0]
    {
      prev := Extreme(0);
    }

    /** `avl_last`: the rightmost node. */
    method Last() returns (prev: Node?)
      requires Valid()
      ensures Valid()
      ensures prev == if Elements() == [] then null else Elements()[|Elements()| - 1]
    {
      prev := Extreme(1);
    }

    /** The common loop of `avl_first` and `avl_last`. */
    method Extreme(side: Bit) returns (prev: Node?)
      requires Valid()
      ensures Valid()
      ensures prev == EndOf(Elements(), side)
    {
      hide Zip, Nodes, Order, InOrder, Edge, Snap, Avl;
      ghost var m := Snap(Nodes(shape));
      ghost var c, t := Top, shape;
      EdgeTop(shape, side);
      OrderTop(shape);
      OwnerReads(m, c, t, root);
      var node := root;
      prev := null;
      while node != null
        invariant node == Root(t) && Zip(m, c, t, root) && Order(c, t) == InOrder(shape)
        invariant t.Fork? ==> Edge(c, t, side) == (if side == 0 then 0 else |InOrder(shape)| - 1)
        invariant t.Leaf? ==> prev == EndOf(InOrder(shape), side)
        decreases t
      {
        prev := node;
        ZipReads(m, c, t, root, side);
        DownOrder(c, t, side);
        if t.Sub(side).Fork? {
          EdgeDown(c, t, side);
        } else {
          EdgeNode(c, t, side);
        }
        node := node.child.At(side);
        c, t := Frame(c, t.node, t.bal, side, t.Sub(1 - side)), t.Sub(side);
      }
    }

    /** The usual traversal: from `avl_first` by `AVL_NEXT` (1), or from `avl_last` by `AVL_PREV` (0). */
    method Traverse(direction: Bit) returns (visited: seq<Node>)
      requires Valid()
      ensures Valid() && |visited| == |Elements()|
      ensures forall i :: 0 <= i < |visited| ==> visited[i] == Elements()[if direction == 1 then i else |visited| - 1 - i]
    {
      hide Zip, Nodes, InOrder, Snap, Avl, NoDup, Neighbour;
      ghost var es := Elements();
      ElementsInside();
      ElementsDistinct();
      visited := [];
      var node := Extreme(1 - direction);
      while node != null
        invariant Valid() && Elements() == es && |visited| <= |es|
        invariant forall i :: 0 <= i < |visited| ==> visited[i] == es[if direction == 1 then i else |es| - 1 - i]
        invariant node == if |visited| == |es| then null else es[if direction == 1 then |visited| else |es| - 1 - |visited|]
        decreases |es| - |visited|
      {
        StepFrom(es, if direction == 1 then |visited| else |es| - 1 - |visited|, direction);
        visited := visited + [node];
        node := Walk(node, direction);
      }
    }

    lemma ElementsDistinct()
      requires Valid()
      ensures NoDup(Elements())
    {
      InOrderNoDup(shape);
    }

    /** No link of a member leads outside the tree. */
    lemma LinksInside(n: Node)
      requires Valid() && n in Nodes(shape)
      ensures n.child.lo != null ==> n.child.lo in Nodes(shape) && n.child.lo.parent == n && n.child.lo.index == 0
      ensures n.child.hi != null ==> n.child.hi in Nodes(shape) && n.child.hi.parent == n && n.child.hi.index == 1
      ensures n.parent != null ==> n.parent in Nodes(shape) && n.parent.child.At(n.index) == n
      ensures n.parent == null <==> n == root
      ensures root in Nodes(shape)
    {
      var m := Snap(Nodes(shape));
      LinkBack(m, shape, null, 0, n, 0);
      LinkBack(m, shape, null, 0, n, 1);
    }

    /** The height is logarithmic in the number of members. */
    lemma Shallow()
      requires Valid()
      ensures Fib(Height(shape) + 2) <= numnodes + 1
      ensures PowerOfTwo.Pow2(Height(shape) / 2) <= numnodes + 1
    {
      HeightBound(shape);
      FibPow(Height(shape));
    }

    /** `avl_find`: the member that compares equal, or else the slot where `value` belongs.
        `steps` is the number of comparisons. */
    method Find(value: Key) returns (r: Node?, w: Where, ghost steps: nat)
      requires Valid() && Ordered()
      ensures Valid() && Ordered()
      ensures r != null ==> r in Elements() && compar(value, r.key) == 0
      ensures r == null ==>
        && EmptySlot(Snap(Nodes(shape)), shape, w) && (w.node != null ==> w.node in Elements())
        && Splits(compar, KeysOf(Elements()), value, SlotPos(Elements(), w))
      ensures steps == Comparisons(compar, shape, value)
      ensures Fib(steps + 2) <= numnodes + 1 && PowerOfTwo.Pow2(steps / 2) <= numnodes + 1
    {
      hide Ranked, Zip, Nodes, InOrder, Snap, Avl, KeysOf, TotalOrder, Sorted, Searching, EmptySlot, Splits, SlotPos, Height, Fib;
      ghost var m, es, ks := Snap(Nodes(shape)), Elements(), KeysOf(Elements());
      ghost var c, t := Top, shape;
      SearchStart(m, shape, root, compar, ks, value);
      var node := root;
      var prev: Node? := null;
      var child: Bit := 0;
      ghost var n: nat := 0;
      while node != null
        invariant node == Root(t) && Searching(m, c, t, root, shape, compar, ks, value, n)
        invariant prev == c.Owner() && (c.Frame? ==> child == c.side)
        invariant n + Comparisons(compar, t, value) == Comparisons(compar, shape, value)
        decreases t
      {
        ghost var k := SearchReads(m, c, t, root, shape, compar, ks, value, n, es);
        prev := node;
        var diff := compar(value, node.key);
        if diff == 0 {
          FibPow(n + 1);
          return node, Where(null, 0), n + 1;
        }
        child := BalanceToChild(diff);
        SearchStep(m, c, t, root, shape, compar, ks, value, n, k, child);
        n := n + 1;
        node := prev.child.At(child);
        c, t := Frame(c, prev, t.bal, child, t.Sub(1 - child)), t.Sub(child);
      }
      SearchEnd(m, c, root, shape, compar, ks, value, n, Where(prev, child));
      FibPow(n);
      return null, Where(prev, child), n;
    }

    /** `avl_insert`: links `node` in at the empty slot `w`. */
    method Insert(node: Node, w: Where) returns (ghost rotations: nat)
      requires Valid() && node !in Nodes(shape) && EmptySlot(Snap(Nodes(shape)), shape, w)
      modifies `root, `numnodes, `shape, node`child, node`parent, node`index, node`balance,
        Nodes(shape)`child, Nodes(shape)`parent, Nodes(shape)`index, Nodes(shape)`balance
      ensures Valid()
      ensures Nodes(shape) == old(Nodes(shape)) + {node}
      ensures w.node != null ==> w.node in old(Elements())
      ensures SlotPos(old(Elements()), w) <= |old(Elements())|
      ensures Elements() == InsertAt(old(Elements()), SlotPos(old(Elements()), w), node)
      ensures rotations <= 1
    {
      hide Zip, Snap, Nodes, CtxNodes, Grown, Order, SlotPos, SlotCtx, InOrder, Avl;
      ghost var m, s, c := Snap(Nodes(shape)), Nodes(shape) + {node}, SlotCtx(shape, w);
      SlotReady(m, shape, root, w, node);
      HangNew(node, w, c, m);
      ghost var t := Fork(Leaf, node, 0, Leaf);
      LeafNodes(node);
      rotations := InsertionClimb(w.node, w.child, c, t, s);
    }

    /** The rest of `avl_insert`: back up the tree until the extra level is absorbed. */
    method InsertionClimb(parent': Node?, which': Bit, ghost c': Ctx, ghost t': Tree,
            ghost s: set<Node>) returns (ghost rotations: nat)
      requires s == CtxNodes(c') + Nodes(t') && Zip(Snap(s), c', t', root) && Grown(c', t')
      requires parent' == c'.Owner() && (c'.Frame? ==> which' == c'.side)
      requires numnodes == |Order(c', t')|
      modifies `root, `shape, s`child, s`parent, s`index, s`balance
      ensures Valid() && Nodes(shape) == s && Elements() == Order(c', t') && rotations <= 1
    {
      hide Zip, Sep, Nodes, CtxNodes, Order, Grown, CtxAvl, Avl, Height, Snap, Lift, Rotated, Shrinks, Unbalanced, InOrder;
      var parent, whichChild := parent', which';
      ghost var c, t := c', t';
      rotations := 0;
      var node, newBalance;
      while true
        invariant s == CtxNodes(c) + Nodes(t) && Zip(Snap(s), c, t, root) && Grown(c, t)
        invariant parent == c.Owner() && (c.Frame? ==> whichChild == c.side)
        invariant Order(c, t) == Order(c', t') && numnodes == |Order(c', t')|
        invariant rotations == 0
        decreases c
      {
        ghost var m := Snap(s);
        OwnerReads(m, c, t, root);
        if parent == null {
          GrownTop(c, t);
          Settle(c, t, s);
          return;
        }
        node := parent;
        GrownOwner(c, t);
        var oldBalance := node.balance;
        newBalance := oldBalance + ChildToBalance(whichChild);
        if newBalance == 0 {
          SetBalance(node, 0, c, t, s);
          GrownEven(c, t);
          Settle(c.up, Lift(c, t, 0), s);
          return;
        }
        if oldBalance != 0 {
          break;
        }
        SetBalance(node, newBalance, c, t, s);
        GrownOn(c, t);
        parent := node.parent;
        whichChild := node.index;
        c, t := c.up, Lift(c, t, newBalance);
      }
      ghost var u := Lift(c, t, c.bal);
      GrownRotation(c, t);
      RotatedFacts(u, newBalance);
      var shrunk := RotateUp(node, newBalance, c, t, s);
      rotations := rotations + 1;
      assert shrunk;
      Settle(c.up, Rotated(u, newBalance), s);
    }

    /** The climb is over: `shape` is the tree seen from the root. */
    ghost method Settle(c: Ctx, t: Tree, s: set<Node>)
      requires s == CtxNodes(c) + Nodes(t) && Zip(Snap(s), c, t, root) && Avl(t) && CtxAvl(c, Height(t))
      requires numnodes == |Order(c, t)|
      modifies `shape
      ensures Valid() && Nodes(shape) == s && Elements() == Order(c, t)
    {
      Settled(Snap(s), c, t, root);
      shape := Plug(c, t);
    }

    /** `avl_insert_here`: links `newData` in just before (0) or just after (1) the member `here`. */
    method InsertHere(newData: Node, here: Node, direction: Bit)
      requires Valid() && newData !in Nodes(shape) && here in Nodes(shape)
      modifies `root, `numnodes, `shape, newData`child, newData`parent, newData`index, newData`balance,
        Nodes(shape)`child, Nodes(shape)`parent, Nodes(shape)`index, Nodes(shape)`balance
      ensures Valid() && here in old(Elements())
      ensures Elements() == InsertAt(old(Elements()), IndexOf(old(Elements()), here) + direction, newData)
    {
      hide Zip, Snap, Nodes, CtxNodes, Order, InOrder, Avl, Before, Focus, Edge, IndexOf, InsertAt;
      ghost var m := Snap(Nodes(shape));
      var node := here;
      var child := direction;
      FocusZip(m, shape, root, here);
      FocusMember(m, shape, root, here);
      ghost var (c, t) := Focus(Top, shape, here);
      ZipReads(m, c, t, root, child);
      if node.child.At(child) != null {
        node := Inward(node, child, c, t, m);
        child := 1 - child;
      }
      PlaceOf(m, shape, root, c, t, node, direction, child);
      ghost var rotations := Insert(newData, Where(node, child));
    }

    /** `avl_add`: the new node must differ from all members; it lands at its place `k` in the order. */
    method Add(newNode: Node) returns (ghost k: nat)
      requires Valid() && Ordered() && newNode !in Nodes(shape)
      requires forall e <- Elements() :: compar(newNode.key, e.key) != 0
      modifies `root, `numnodes, `shape, newNode`child, newNode`parent, newNode`index, newNode`balance,
        Nodes(shape)`child, Nodes(shape)`parent, Nodes(shape)`index, Nodes(shape)`balance
      ensures Valid() && Ordered()
      ensures Splits(compar, old(KeysOf(Elements())), newNode.key, k)
      ensures Elements() == InsertAt(old(Elements()), k, newNode)
      ensures Nodes(shape) == old(Nodes(shape)) + {newNode}
    {
      hide Zip, Snap, Nodes, InOrder, Avl, EmptySlot, SlotPos, Ranked, KeysOf, Fib;
      ghost var es, ks := Elements(), KeysOf(Elements());
      var found, w, steps := Find(newNode.key);
      assert found == null;
      k := SlotPos(es, w);
      ghost var rotations := Insert(newNode, w);
      InsertRanked(compar, ks, newNode.key, k);
      KeysInsert(es, k, newNode);
      assert KeysOf(es) == ks;
    }

    /** The first part of `avl_insert`: `node` becomes a leaf in the slot. */
    method HangNew(node: Node, w: Where, ghost c: Ctx, ghost m: Mem)
      requires m == Snap(CtxNodes(c)) && Zip(m, c, Leaf, root) && node !in CtxNodes(c)
      requires c.Owner() == w.node && (c.Frame? ==> c.side == w.child)
      modifies `root, `numnodes, node`child, node`parent, node`index, node`balance, Own(w.node)`child
      ensures Zip(Snap(CtxNodes(c) + {node}), c, Fork(Leaf, node, 0, Leaf), root)
      ensures numnodes == old(numnodes) + 1
    {
      OwnerReads(m, c, Leaf, root);
      ZipSets(m, c, Leaf, root);
      ghost var root0 := root;
      numnodes := numnodes + 1;
      node.child := Links(null, null);
      node.index := w.child;
      node.balance := 0;
      node.parent := w.node;
      if w.node != null {
        w.node.child := w.node.child.Set(w.child, node);
      } else {
        root := node;
      }
      HangLeaf(m, Snap(CtxNodes(c) + {node}), c, node, w.child, root0, root);
    }

    /** `avl_remove`: takes the member `obj` out. It neither needs the members to be in order nor disturbs their order. */
    method Remove(obj: Node)
      requires Valid() && obj in Nodes(shape)
      modifies `root, `numnodes, `shape, Nodes(shape)`child, Nodes(shape)`parent, Nodes(shape)`index, Nodes(shape)`balance
      ensures Valid() && obj in old(Elements())
      ensures Elements() == RemoveAt(old(Elements()), IndexOf(old(Elements()), obj))
      ensures Nodes(shape) == old(Nodes(shape)) - {obj}
      ensures old(Ordered()) ==> Ordered()
    {
      hide Zip, Snap, Nodes, InOrder, Avl, KeysOf, RemoveAt, KeysWithout, Ranked;
      ghost var es, ks := Elements(), KeysOf(Elements());
      ElementsInside();
      TakeOut(obj);
      ghost var k := IndexOf(es, obj);
      assert KeysOf(es) == ks;
      KeysRemove(es, k);
      if Ranked(compar, ks) {
        RankedWithout(compar, ks, k);
      }
    }

    /** The body of `avl_remove`. */
    method TakeOut(delete': Node)
      requires Valid() && delete' in Nodes(shape)
      modifies `root, `numnodes, `shape, Nodes(shape)`child, Nodes(shape)`parent, Nodes(shape)`index, Nodes(shape)`balance
      ensures Valid() && delete' in old(Elements())
      ensures Elements() == RemoveAt(old(Elements()), IndexOf(old(Elements()), delete'))
      ensures Nodes(shape) == old(Nodes(shape)) - {delete'}
    {
      hide Zip, Nodes, Snap, Avl, InOrder, RemoveAt, IndexOf, Focus, Order, Before, Swappable, SwapReads, SwapWrites;
      var delete := delete';
      ghost var m := Snap(Nodes(shape));
      FocusMember(m, shape, root, delete);
      if delete.child.At(0) == null || delete.child.At(1) == null {
        RemoveLow(delete, shape);
        return;
      }
      ghost var root0 := root;
      ghost var (c, t) := Focus(Top, shape, delete);
      FocusZip(m, shape, root, delete);
      ZipReads(m, c, t, root, 0);
      ZipReads(m, c, t, root, 1);
      BalanceRead(m, c, t, root);
      var oldBalance := delete.balance;
      var left := BalanceToChild(oldBalance);
      var node := Inward(delete, left, c, t, m);
      NeighbourSwappable(m, c, t, root, node, left);
      PlaceOf(m, shape, root, c, t, node, left, 1 - left);
      delete := SwapWithNeighbour(delete', node, left, Nodes(shape));
      ghost var whole := RenTree(delete', node, delete, shape);
      SwapReady(m, Snap(Nodes(shape) - {delete'} + {delete}), shape, root0, delete', node, delete, left);
      RemoveLow(delete, whole);
    }

    /** `node` takes the place of `delete`, and the placeholder `tmp` the former place of `node`. */
    method SwapWithNeighbour(delete: Node, node: Node, left: Bit, ghost s: set<Node>) returns (tmp: Node)
      requires delete in s && node in s && Swappable(Snap(s), delete, node, left) && SwapReads(Snap(s), delete, node, left)
      modifies `root, s`child, s`parent, s`index, s`balance
      ensures fresh(tmp)
      ensures SwapWrites(old(Snap(s)), Snap(s - {delete} + {tmp}), delete, node, tmp, left)
      ensures root == if old(delete.parent) == null then node else old(root)
    {
      hide Snap;
      tmp := SwapLinks(delete, node, left, delete.child.At(left), delete.child.At(1 - left), node.child.At(left), delete.parent, node.parent);
    }

    /** The assignments of the swap. */
    method SwapLinks(delete: Node, node: Node, left: Bit,
                     ghost x: Node, ghost sib: Node, ghost a: Node?, ghost p: Node?, ghost q: Node) returns (tmp: Node)
      requires x == delete.child.At(left) && sib == delete.child.At(1 - left) && a == node.child.At(left)
      requires p == delete.parent && q == node.parent && node.child.At(1 - left) == null
      requires delete != node && sib !in {x, node} && a !in {node, x, sib} && p !in {node, q} && q != node
      requires (x == node <==> q == delete) && (x == node ==> node.index == left)
      modifies `root, node`child, node`parent, node`index, node`balance,
        Own(p)`child, q`child, x`parent, sib`parent, Own(a)`parent
      ensures fresh(tmp)
      ensures node.child == old(delete.child).Set(left, if x == node then tmp else x)
      ensures node.parent == p && node.index == old(delete.index) && node.balance == old(delete.balance)
      ensures tmp.child == old(node.child) && tmp.parent == (if q == delete then node else q)
      ensures tmp.index == old(node.index) && tmp.balance == old(node.balance)
      ensures (x != node ==> x.parent == node) && sib.parent == node && (a != null ==> a.parent == tmp)
      ensures p != null && p != delete ==> p.child == old(p.child).Set(old(delete.index), node)
      ensures q != delete ==> q.child == old(q.child).Set(old(node.index), tmp)
      ensures root == if p == null then node else old(root)
    {
      tmp := new Node(node.key);
      tmp.child, tmp.parent, tmp.index, tmp.balance := node.child, node.parent, node.index, node.balance;
      node.child, node.parent, node.index, node.balance := delete.child, delete.parent, delete.index, delete.balance;
      if node.child.At(left) == node {
        node.child := node.child.Set(left, tmp);
      }
      var parent := node.parent;
      if parent != null {
        parent.child := parent.child.Set(node.index, node);
      } else {
        root := node;
      }
      var right := 1 - left;
      assert node.child.At(left) == (if x == node then tmp else x) && node.child.At(right) == sib;
      node.child.At(left).parent := node;
      node.child.At(right).parent := node;
      parent := tmp.parent;
      assert parent == (if q == delete then node else q) && tmp.child == old(node.child);
      parent.child := parent.child.Set(tmp.index, tmp);
      var whichChild: Bit := if tmp.child.At(1) != null then 1 else 0;
      assert tmp.child.At(whichChild) == a;
      if tmp.child.At(whichChild) != null {
        tmp.child.At(whichChild).parent := tmp;
      }
    }

    /** The common part of `avl_remove`: `delete` has at most one child. */
    method RemoveLow(delete: Node, ghost whole: Tree)
      requires Zip(Snap(Nodes(whole)), Top, whole, root) && Avl(whole) && numnodes == |InOrder(whole)|
      requires delete in Nodes(whole) && (delete.child.At(0) == null || delete.child.At(1) == null)
      modifies `root, `numnodes, `shape, Nodes(whole)`child, Nodes(whole)`parent, Nodes(whole)`index, Nodes(whole)`balance
      ensures Valid() && delete in InOrder(whole)
      ensures Elements() == RemoveAt(InOrder(whole), IndexOf(InOrder(whole), delete))
      ensures Nodes(shape) == Nodes(whole) - {delete}
    {
      hide Zip, Nodes, CtxNodes, Snap, Avl, InOrder, Order, Shrunk, RemoveAt, IndexOf, Focus;
      ghost var m, s := Snap(Nodes(whole)), Nodes(whole) - {delete};
      ghost var (c, t) := Focus(Top, whole, delete);
      UnlinkReady(m, whole, root, delete);
      RemoveLength(InOrder(whole), IndexOf(InOrder(whole), delete));
      Unlink(delete, c, t, m, s);
      DeletionClimb(c, OnlyChild(t), s, delete.parent, delete.index);
    }

    /** Connects the parent of `delete` directly to its only child. */
    method Unlink(delete: Node, ghost c: Ctx, ghost t: Tree, ghost m: Mem, ghost s: set<Node>)
      requires t.Fork? && t.node == delete && (t.lo == Leaf || t.hi == Leaf)
      requires numnodes > 0 && s == CtxNodes(c) + Nodes(OnlyChild(t)) && delete !in s
      requires m == Snap(s + {delete}) && Zip(m, c, t, root)
      modifies `root, `numnodes, s`child, s`parent, s`index
      ensures Zip(Snap(s), c, OnlyChild(t), root)
      ensures numnodes == old(numnodes) - 1
    {
      hide Zip, Nodes, CtxNodes, Snap;
      ghost var root0 := root;
      ZipReads(m, c, t, root, 0);
      ZipReads(m, c, t, root, 1);
      UnlinkNodes(m, c, t, root);
      OwnerAmong(c);
      RootIn(OnlyChild(t));
      numnodes := numnodes - 1;
      var parent := delete.parent;
      var whichChild := delete.index;
      var node := if delete.child.At(0) != null then delete.child.At(0) else delete.child.At(1);
      if node != null {
        node.parent := parent;
        node.index := whichChild;
      }
      if parent == null {
        root := node;
      } else {
        parent.child := parent.child.Set(whichChild, node);
      }
      UnlinkZip(m, Snap(s), c, t, whichChild, root0, root);
    }

    /** The rest of `avl_remove`: up the tree until the missing level is made good. */
    method DeletionClimb(ghost c': Ctx, ghost t': Tree, ghost s: set<Node>, parent': Node?, which': Bit)
      requires s == CtxNodes(c') + Nodes(t') && Zip(Snap(s), c', t', root) && Shrunk(c', t')
      requires parent' == c'.Owner() && (c'.Frame? ==> which' == c'.side)
      requires numnodes == |Order(c', t')|
      modifies `root, `shape, s`child, s`parent, s`index, s`balance
      ensures Valid() && Nodes(shape) == s && Elements() == Order(c', t')
    {
      hide Zip, Sep, Nodes, CtxNodes, Order, Shrunk, CtxAvl, Avl, Height, Snap, Lift, Rotated, Shrinks, Unbalanced, InOrder;
      var parent, whichChild := parent', which';
      ghost var c, t := c', t';
      while parent != null
        invariant s == CtxNodes(c) + Nodes(t) && Zip(Snap(s), c, t, root) && Shrunk(c, t)
        invariant parent == c.Owner() && (c.Frame? ==> whichChild == c.side)
        invariant Order(c, t) == Order(c', t') && numnodes == |Order(c', t')|
        decreases c
      {
        ghost var m := Snap(s);
        OwnerReads(m, c, t, root);
        ShrunkOwner(c, t);
        var node := parent;
        var oldBalance := node.balance;
        var newBalance := oldBalance - ChildToBalance(whichChild);
        parent := node.parent;
        whichChild := node.index;
        if oldBalance == 0 {
          SetBalance(node, newBalance, c, t, s);
          ShrunkEven(c, t);
          Settle(c.up, Lift(c, t, newBalance), s);
          return;
        }
        if newBalance == 0 {
          SetBalance(node, 0, c, t, s);
          ShrunkOn(c, t);
          c, t := c.up, Lift(c, t, 0);
        } else {
          ghost var u := Lift(c, t, c.bal);
          ShrunkRotation(c, t);
          var shrunk := RotateUp(node, newBalance, c, t, s);
          if !shrunk {
            Settle(c.up, Rotated(u, newBalance), s);
            return;
          }
          c, t := c.up, Rotated(u, newBalance);
        }
      }
      ShrunkTop(c, t);
      Settle(c, t, s);
    }

    // ---- Changed keys ----

    /** Only the key of `obj` has changed: the others increase, and it equals none of them. */
    ghost predicate OnlyChanged(obj: Node)
      reads this, Nodes(shape)
      requires Valid()
    {
      ElementsInside();
      obj in Elements() && OneMoved(compar, KeysOf(Elements()), IndexOf(Elements(), obj))
    }

    /** `AVL_REINSERT`. */
    method Reinsert(obj: Node)
      requires Valid() && OnlyChanged(obj)
      modifies `root, `numnodes, `shape, Nodes(shape)`child, Nodes(shape)`parent, Nodes(shape)`index, Nodes(shape)`balance
      ensures Valid() && Ordered() && Nodes(shape) == old(Nodes(shape))
    {
      hide Zip, Snap, Nodes, InOrder, Avl, KeysOf, IndexOf, RemoveAt, KeysWithout, Ranked, OneMoved;
      ghost var es, ks, k := Elements(), KeysOf(Elements()), IndexOf(Elements(), obj);
      ElementsInside();
      MovedOut(compar, ks, k);
      Remove(obj);
      KeysRemove(es, k);
      assert KeysOf(es) == ks;
      ghost var rest := Elements();
      assert KeysOf(rest) == KeysWithout(ks, k) && obj.key == ks[k];
      forall e | e in rest ensures compar(obj.key, e.key) != 0 {
        var i :| 0 <= i < |rest| && rest[i] == e;
        assert KeysOf(rest)[i] == e.key;
      }
      var at := Add(obj);
    }

    /** `avl_update`: puts `obj` in its place after its key has changed; `B_TRUE` exactly when it had to move. */
    method Update(obj: Node) returns (r: Boolean)
      requires Valid() && OnlyChanged(obj)
      modifies `root, `numnodes, `shape, Nodes(shape)`child, Nodes(shape)`parent, Nodes(shape)`index, Nodes(shape)`balance
      ensures Valid() && Ordered() && Nodes(shape) == old(Nodes(shape))
      ensures r == B_TRUE <==> !old(Ordered())
      ensures r == B_FALSE ==> Elements() == old(Elements())
    {
      hide Zip, Snap, Nodes, InOrder, Avl, KeysOf, IndexOf, Ranked, OneMoved;
      ghost var es, ks, k := Elements(), KeysOf(Elements()), IndexOf(Elements(), obj);
      ElementsInside();
      InPlaceRanked(compar, ks, k);
      var neighbor := Walk(obj, 0);
      assert KeysOf(es) == ks;
      if neighbor != null && compar(obj.key, neighbor.key) < 0 {
        Reinsert(obj);
        return B_TRUE;
      }
      neighbor := Walk(obj, 1);
      assert KeysOf(es) == ks;
      if neighbor != null && compar(obj.key, neighbor.key) > 0 {
        Reinsert(obj);
        return B_TRUE;
      }
      return B_FALSE;
    }

    /** `avl_update_lt`: the key of `obj` may only have become smaller. */
    method UpdateLt(obj: Node) returns (r: Boolean)
      requires Valid() && OnlyChanged(obj)
      requires var next := Neighbour(Elements(), obj, 1); next == null || (next in Nodes(shape) && compar(obj.key, next.key) <= 0)
      modifies `root, `numnodes, `shape, Nodes(shape)`child, Nodes(shape)`parent, Nodes(shape)`index, Nodes(shape)`balance
      ensures Valid() && Ordered() && Nodes(shape) == old(Nodes(shape))
      ensures r == B_TRUE <==> !old(Ordered())
      ensures r == B_FALSE ==> Elements() == old(Elements())
    {
      hide Zip, Snap, Nodes, InOrder, Avl, KeysOf, IndexOf, Ranked, OneMoved;
      ghost var es, ks, k := Elements(), KeysOf(Elements()), IndexOf(Elements(), obj);
      ElementsInside();
      InPlaceRanked(compar, ks, k);
      var neighbor := Walk(obj, 0);
      assert KeysOf(es) == ks;
      if neighbor != null && compar(obj.key, neighbor.key) < 0 {
        Reinsert(obj);
        return B_TRUE;
      }
      return B_FALSE;
    }

    /** `avl_update_gt`: the key of `obj` may only have become greater. */
    method UpdateGt(obj: Node) returns (r: Boolean)
      requires Valid() && OnlyChanged(obj)
      requires var prev := Neighbour(Elements(), obj, 0); prev == null || (prev in Nodes(shape) && compar(obj.key, prev.key) >= 0)
      modifies `root, `numnodes, `shape, Nodes(shape)`child, Nodes(shape)`parent, Nodes(shape)`index, Nodes(shape)`balance
      ensures Valid() && Ordered() && Nodes(shape) == old(Nodes(shape))
      ensures r == B_TRUE <==> !old(Ordered())
      ensures r == B_FALSE ==> Elements() == old(Elements())
    {
      hide Zip, Snap, Nodes, InOrder, Avl, KeysOf, IndexOf, Ranked, OneMoved;
      ghost var es, ks, k := Elements(), KeysOf(Elements()), IndexOf(Elements(), obj);
      ElementsInside();
      InPlaceRanked(compar, ks, k);
      var neighbor := Walk(obj, 1);
      assert KeysOf(es) == ks;
      if neighbor != null && compar(obj.key, neighbor.key) > 0 {
        Reinsert(obj);
        return B_TRUE;
      }
      return B_FALSE;
    }

    /** `avl_swap`: the two trees exchange their members. */
    method Swap(tree2: AvlTree)
      requires Valid() && tree2.Valid() && compar == tree2.compar
      modifies this`root, this`numnodes, this`shape, tree2`root, tree2`numnodes, tree2`shape
      ensures Valid() && tree2.Valid()
      ensures Elements() == old(tree2.Elements()) && tree2.Elements() == old(Elements())
      ensures numnodes == old(tree2.numnodes) && tree2.numnodes == old(numnodes)
    {
      hide Zip, Snap, Avl, InOrder, Nodes;
      var tempNode, tempNumnodes := root, numnodes;
      root, numnodes := tree2.root, tree2.numnodes;
      tree2.root, tree2.numnodes := tempNode, tempNumnodes;
      shape, tree2.shape := tree2.shape, shape;
    }

    /** `avl_nearest`: the member before (0) or after (1) an empty slot. */
    method Nearest(w: Where, direction: Bit) returns (r: Node?)
      requires Valid() && EmptySlot(Snap(Nodes(shape)), shape, w)
      ensures Valid()
      ensures w.node != null ==> w.node in Elements()
      ensures var k := SlotPos(Elements(), w);
        k <= |Elements()| &&
        r == if direction == 0 then (if k == 0 then null else Elements()[k - 1]) else if k == |Elements()| then null else Elements()[k]
    {
      hide Zip, Snap, Nodes, Avl, InOrder, IndexOf;
      ElementsHave(w);
      var child, node := w.child, w.node;
      if node == null {
        return null;
      }
      if child != direction {
        return node;
      }
      r := Walk(node, direction);
    }

    // ---- Taking the tree apart ----

    /** A cookie was returned: `last` was handed out from the slot `c`, and only the nodes around the slot are still used. */
    ghost predicate Destroying(cookie: Cookie, c: Ctx, last: Node?)
      reads this, CtxNodes(c)
    {
      && cookie == CookieOf(c)
      && HandedOut(Snap(CtxNodes(c)), c, last, root)
      && numnodes == |Rest(c)| + (if last == null then 0 else 1)
    }

    /** The nodes `avl_destroy_nodes` has not yet returned, in the order in which it will. */
    ghost function Pending(cookie: Cookie, c: Ctx): seq<Node>
      reads this
    {
      if cookie == START then PostOrder(shape) else Rest(c)
    }

    /** The nodes it may still look at. */
    ghost function Alive(cookie: Cookie, c: Ctx): set<Node>
      reads this
    {
      if cookie == START then Nodes(shape) else CtxNodes(c)
    }

    /** `avl_destroy_nodes`: `c` and `last` describe the state between calls. */
    method DestroyNodes(cookie: Cookie, ghost c: Ctx, ghost last: Node?) returns (data: Node?, cookie': Cookie,
            ghost c': Ctx)
      requires if cookie == START then Valid() else Destroying(cookie, c, last)
      modifies `root, `numnodes, Own(cookie.parent)`child
      ensures Destroying(cookie', c', data) && cookie' != START
      ensures if old(Pending(cookie, c)) == [] then data == null && root == null && numnodes == 0
        else data == old(Pending(cookie, c))[0] && Pending(cookie', c') == old(Pending(cookie, c))[1..]
      ensures Alive(cookie', c') + Own(data) <= old(Alive(cookie, c))
    {
      hide Zip, Nodes, CtxNodes, Snap, Avl, InOrder, PostOrder, Rest, Visiting, HandedOut, Focus, Partial;
      if cookie == START {
        data, cookie', c' := DestroyFirst();
        return;
      }
      if cookie.parent == null {
        AllGone(Snap(CtxNodes(c)), last, root);
        if root != null {
          assert numnodes == 1;
          root := null;
          numnodes := 0;
        }
        return null, FINISHED, Top;
      }
      data, cookie', c' := DestroyNext(cookie, c, last);
    }

    /** A call with a null cookie. */
    method DestroyFirst() returns (data: Node?, cookie: Cookie, ghost c: Ctx)
      requires Valid()
      ensures Destroying(cookie, c, data)
      ensures if PostOrder(shape) == [] then data == null && root == null && numnodes == 0
        else data == PostOrder(shape)[0] && Rest(c) == PostOrder(shape)[1..]
      ensures CtxNodes(c) + Own(data) <= Nodes(shape)
    {
      hide Zip, Nodes, CtxNodes, Snap, Avl, InOrder, PostOrder, Rest, Visiting, HandedOut, Focus, Partial;
      ghost var m := Snap(Nodes(shape));
      var first := First();
      if first == null {
        NothingLeft(m, shape, root);
        return null, FINISHED, Top;
      }
      VisitFirst(m, shape, root, first);
      ghost var (c0, t) := Focus(Top, shape, first);
      VisitReads(m, c0, t, root, PostOrder(shape));
      data, cookie, c := CheckRightSide(first, first.parent, c0, t, m, PostOrder(shape));
    }

    /** A call with a cookie: the child pointer to the node returned last is removed. */
    method DestroyNext(cookie: Cookie, ghost c: Ctx, ghost last: Node?) returns (node: Node, cookie': Cookie, ghost c': Ctx)
      requires Destroying(cookie, c, last) && c.Frame?
      modifies `numnodes, Own(cookie.parent)`child
      ensures Destroying(cookie', c', node)
      ensures Rest(c) == [node] + Rest(c')
      ensures CtxNodes(c') + {node} <= CtxNodes(c)
    {
      hide Zip, Nodes, CtxNodes, Snap, PostOrder, Rest, Visiting, HandedOut, Partial;
      ghost var m := Snap(CtxNodes(c));
      OwnerIs(m, c, last, root);
      var parent := cookie.parent;
      var child := cookie.bit;
      parent.child := parent.child.Set(child, null);
      assert numnodes > 1;
      numnodes := numnodes - 1;
      ghost var m' := Snap(CtxNodes(c));
      Empty(m, m', c, last, root);
      EmptiedReads(m', c, root);
      if child == 1 || parent.child.At(1) == null {
        node, c' := parent, c.up;
        BackUp(m', Snap(CtxNodes(c')), c, root);
        cookie' := MakeCookie(node, parent.parent, c');
        return;
      }
      BackDown(m', c, root);
      node := parent.child.At(1);
      c' := Frame(c.up, c.node, c.bal, 1, Leaf);
      node, cookie', c' := LeftmostBelow(node, parent, c', c.sib, m', Rest(c));
    }

    /** Down to the leftmost node, then as at `check_right_side`. */
    method LeftmostBelow(node': Node, parent': Node, ghost c': Ctx, ghost t': Tree, ghost m: Mem, ghost post: seq<Node>)
      returns (node: Node, cookie: Cookie, ghost c: Ctx)
      requires t'.Fork? && t'.node == node' && parent' == c'.Owner() && numnodes == |post|
      requires m == Snap(CtxNodes(c') + Nodes(t')) && Visiting(m, c', t', root, post)
      ensures Destroying(cookie, c, node) && post == [node] + Rest(c)
      ensures CtxNodes(c) + {node} <= CtxNodes(c') + Nodes(t')
    {
      hide Zip, Nodes, CtxNodes, Snap, PostOrder, Rest, Visiting, HandedOut, Partial;
      var parent := parent';
      node, c := node', c';
      ghost var t := t';
      VisitReads(m, c, t, root, post);
      while node.child.At(0) != null
        invariant t.Fork? && node == t.node && parent == c.Owner()
        invariant Visiting(m, c, t, root, post) && CtxNodes(c) + Nodes(t) == CtxNodes(c') + Nodes(t')
        invariant node in m && node.child == Links(Root(t.lo), Root(t.hi))
        decreases t
      {
        VisitDown(m, c, t, root, post, 0);
        parent := node;
        node := node.child.At(0);
        c, t := Frame(c, t.node, t.bal, 0, t.hi), t.lo;
        VisitReads(m, c, t, root, post);
      }
      node, cookie, c := CheckRightSide(node, parent, c, t, m, post);
    }

    /** From `check_right_side` on: `node` has no left child. */
    method CheckRightSide(node': Node, parent': Node?, ghost c': Ctx, ghost t': Tree, ghost m: Mem, ghost post: seq<Node>)
      returns (node: Node, cookie: Cookie, ghost c: Ctx)
      requires t'.Fork? && t'.node == node' && t'.lo == Leaf && parent' == c'.Owner() && numnodes == |post|
      requires m == Snap(CtxNodes(c') + Nodes(t')) && Visiting(m, c', t', root, post)
      ensures Destroying(cookie, c, node) && post == [node] + Rest(c)
      ensures CtxNodes(c) + {node} <= CtxNodes(c') + Nodes(t')
    {
      hide Zip, Nodes, CtxNodes, Snap, PostOrder, Rest, Visiting, HandedOut;
      var parent := parent';
      node, c := node', c';
      ghost var t := t';
      VisitReads(m, c, t, root, post);
      if node.child.At(1) != null {
        assert node.balance == 1;
        VisitDown(m, c, t, root, post, 1);
        parent := node;
        node := node.child.At(1);
        c, t := Frame(c, t.node, t.bal, 1, t.lo), t.hi;
        VisitReads(m, c, t, root, post);
        assert node.child.At(0) == null && node.child.At(1) == null;
      } else {
        assert node.balance <= 0;
      }
      VisitLeaf(m, Snap(CtxNodes(c)), c, t, root, post);
      cookie := MakeCookie(node, parent, c);
    }

    /** The loop `avl_destroy_nodes` is for. */
    method DestroyAll() returns (visited: seq<Node>)
      requires Valid()
      modifies `root, `numnodes, `shape, Nodes(shape)
      ensures visited == PostOrder(old(shape))
      ensures root == null && numnodes == 0 && Valid() && Elements() == []
    {
      hide Nodes, CtxNodes, Snap, Avl, InOrder, PostOrder, Rest, HandedOut, Destroying, Zip;
      ghost var all, order := Nodes(shape), PostOrder(shape);
      ghost var c := Top;
      var data: Node?, cookie := null, START;
      visited := [];
      data, cookie, c := DestroyNodes(cookie, c, data);
      while data != null
        invariant Destroying(cookie, c, data) && CtxNodes(c) + Own(data) <= all && cookie != START
        invariant data == null ==> root == null && numnodes == 0 && visited == order
        invariant data != null ==> order == visited + [data] + Rest(c)
        decreases |order| - |visited|
      {
        visited := visited + [data];
        data, cookie, c := FreeAndNext(data, cookie, c);
      }
      shape := Leaf;
      EmptyTree(Snap(Nodes(shape)), root);
    }

    /** The caller frees `last`, after which nothing is known about its contents, and asks for the next node. */
    method FreeAndNext(last: Node, cookie: Cookie, ghost c: Ctx) returns (data: Node?, cookie': Cookie, ghost c': Ctx)
      requires Destroying(cookie, c, last) && cookie != START
      modifies `root, `numnodes, CtxNodes(c), last
      ensures Destroying(cookie', c', data) && CtxNodes(c') + Own(data) <= CtxNodes(c) && cookie' != START
      ensures if Rest(c) == [] then data == null && root == null && numnodes == 0 else data != null && Rest(c) == [data] + Rest(c')
    {
      hide Nodes, CtxNodes, Snap, Rest, HandedOut;
      ghost var m := Snap(CtxNodes(c));
      AliveApart(m, c, last, root);
      modify last;
      assert Snap(CtxNodes(c)) == m;
      data, cookie', c' := DestroyNodes(cookie, c, last);
    }

    method MakeCookie(node: Node, parent: Node?, ghost c: Ctx) returns (cookie: Cookie)
      requires parent == c.Owner() && (c.Frame? ==> node.index == c.side) && (c.Top? ==> node == root)
      ensures cookie == CookieOf(c)
    {
      if parent == null {
        cookie := FINISHED;
        assert node == root;
      } else {
        cookie := Cookie(parent, node.index);
      }
    }

    lemma ElementsHave(w: Where)
      requires Valid() && EmptySlot(Snap(Nodes(shape)), shape, w)
      ensures w.node != null ==> w.node in Elements()
      ensures w.node == null ==> Elements() == []
    {
      if w.node != null {
        InOrderHas(shape, w.node);
      }
    }

    /** `AVL_SETBALANCE` at the owner of the slot. */
    method SetBalance(node: Node, balance: int, ghost c: Ctx, ghost t: Tree, ghost s: set<Node>)
      requires c.Frame? && node == c.node
      requires s == CtxNodes(c) + Nodes(t) && Zip(Snap(s), c, t, root)
      modifies node`balance
      ensures Zip(Snap(s), c.up, Lift(c, t, balance), root)
      ensures s == CtxNodes(c.up) + Nodes(Lift(c, t, balance)) && Order(c.up, Lift(c, t, balance)) == Order(c, t)
    {
      hide Zip, Nodes, Snap, Lift, Order;
      ghost var m := Snap(s);
      node.balance := balance;
      assert Snap(s) == m[node := m[node].(balance := balance)];
      Rebalance(m, Snap(s), c, t, balance, root);
      LiftNodes(c, t, balance);
      LiftOrder(c, t, balance);
    }

    /** A rotation at the owner of the slot. */
    method RotateUp(node: Node, balance: int, ghost c: Ctx, ghost t: Tree, ghost s: set<Node>) returns (shrunk: bool)
      requires c.Frame? && node == c.node && Unbalanced(Lift(c, t, c.bal), balance)
      requires s == CtxNodes(c) + Nodes(t) && Zip(Snap(s), c, t, root)
      modifies `root, s`child, s`parent, s`index, s`balance
      ensures shrunk == Shrinks(Lift(c, t, c.bal), balance)
      ensures var u := Rotated(Lift(c, t, c.bal), balance);
        Zip(Snap(s), c.up, u, root) && s == CtxNodes(c.up) + Nodes(u) && Order(c.up, u) == Order(c, t)
    {
      hide Zip, Nodes, CtxNodes, Snap, Lift, Order, Rotated, Shrinks, Unbalanced;
      ghost var u := Lift(c, t, c.bal);
      LiftNodes(c, t, c.bal);
      LiftOrder(c, t, c.bal);
      LiftZip(Snap(s), c, t, root);
      RotatedNodes(u, balance);
      RotatedOrder(c.up, u, balance);
      shrunk := Rotation(node, balance, c.up, u, s);
    }

    /** `avl_rotation`: restores balance at `node`, whose new balance would be `balance`. */
    method Rotation(node: Node, balance: int, ghost c: Ctx, ghost t: Tree, ghost s: set<Node>) returns (shrunk: bool)
      requires Unbalanced(t, balance) && t.node == node
      requires s == CtxNodes(c) + Nodes(t) && Zip(Snap(s), c, t, root)
      modifies `root, s`child, s`parent, s`index, s`balance
      ensures shrunk == Shrinks(t, balance)
      ensures Zip(Snap(s), c, Rotated(t, balance), root)
    {
      hide Zip, Nodes, CtxNodes, Rotated, Shrinks, Unbalanced, Snap, SingleMem, DoubleMem;
      ghost var m := Snap(s);
      RotationReads(m, c, t, balance, root);
      var left := Heavy(balance);
      var right := 1 - left;
      var leftHeavy := Sign(balance);
      var rightHeavy := -leftHeavy;
      var parent := node.parent;
      var child := node.child.At(left);
      var whichChild := node.index;
      var childBal := child.balance;
      if childBal != rightHeavy {
        childBal := childBal + rightHeavy;
        var cright := child.child.At(right);
        RotationSingle(m, c, t, balance, node, child, cright, parent, whichChild, left, childBal, root);
        SingleRotation(node, child, cright, parent, whichChild, left, childBal, s);
        return childBal == 0;
      }
      var gchild := child.child.At(right);
      var gleft := gchild.child.At(left);
      var gright := gchild.child.At(right);
      DoubleParts(m, c, t, left, root);
      RotationDouble(m, c, t, balance, node, child, gchild, gleft, gright, parent, whichChild, left, leftHeavy, root);
      DoubleRotation(node, child, gchild, gleft, gright, parent, whichChild, left, leftHeavy, s);
      return true;
    }

    method SingleRotation(node: Node, child: Node, cright: Node?, parent: Node?, whichChild: Bit, left: Bit,
            childBal: int, ghost s: set<Node>)
      requires node in s && child in s && Own(cright) <= s && Own(parent) <= s
      requires node != child && cright !in {node, child} && parent !in {node, child} && (parent != null ==> parent != cright)
      modifies `root, s`child, s`balance, s`parent, s`index
      ensures Snap(s) == SingleMem(old(Snap(s)), node, child, cright, parent, whichChild, left, childBal, -childBal)
      ensures root == if parent == null then child else old(root)
    {
      ghost var m := Snap(s);
      SingleLinks(node, child, cright, parent, whichChild, left, childBal);
      SingleMemIs(m, Snap(s), node, child, cright, parent, whichChild, left, childBal, -childBal);
    }

    method DoubleRotation(node: Node, child: Node, gchild: Node, gleft: Node?, gright: Node?, parent: Node?,
            whichChild: Bit, left: Bit, leftHeavy: int, ghost s: set<Node>)
      requires node in s && child in s && gchild in s && Own(gleft) <= s && Own(gright) <= s && Own(parent) <= s
      requires node != child && node != gchild && child != gchild && leftHeavy != 0
      requires node.child.At(left) == child && child.child.At(1 - left) == gchild
      requires gleft !in {node, child, gchild} && gright !in {node, child, gchild} && parent !in {node, child, gchild}
      requires (gleft != null ==> gleft != gright) && (parent != null ==> parent != gleft && parent != gright)
      modifies `root, s`child, s`balance, s`parent, s`index
      ensures Snap(s) == DoubleMem(old(Snap(s)), node, child, gchild, gleft, gright, parent, whichChild, left,
        if old(gchild.balance) == -leftHeavy then leftHeavy else 0, if old(gchild.balance) == leftHeavy then -leftHeavy else 0)
      ensures root == if parent == null then gchild else old(root)
    {
      ghost var m := Snap(s);
      DoubleLinks(node, child, gchild, gleft, gright, parent, whichChild, left, leftHeavy);
      DoubleMemIs(m, Snap(s), node, child, gchild, gleft, gright, parent, whichChild, left, child.balance, node.balance);
    }

    /** The assignments of case 1: `child` takes the place of `node`, which adopts `cright`. */
    method SingleLinks(node: Node, child: Node, cright: Node?, parent: Node?, whichChild: Bit, left: Bit, childBal: int)
      requires node != child && cright !in {node, child} && parent !in {node, child} && (parent != null ==> parent != cright)
      modifies `root, node`child, child`child, node`balance, child`balance, node`parent, child`parent, node`index,
        child`index,
        Own(cright)`parent, Own(cright)`index, Own(parent)`child
      ensures node.child == old(node.child).Set(left, cright) && node.parent == child && node.index == 1 - left
      ensures node.balance == -childBal && child.balance == childBal
      ensures child.child == old(child.child).Set(1 - left, node) && child.parent == parent && child.index == whichChild
      ensures cright != null ==> cright.parent == node && cright.index == left
      ensures parent != null ==> parent.child == old(parent.child).Set(whichChild, child)
      ensures root == if parent == null then child else old(root)
    {
      var right := 1 - left;
      node.child := node.child.Set(left, cright);
      if cright != null {
        cright.parent := node;
        cright.index := left;
      }
      child.child := child.child.Set(right, node);
      node.balance := -childBal;
      node.index := right;
      node.parent := child;
      child.balance := childBal;
      child.index := whichChild;
      child.parent := parent;
      if parent != null {
        parent.child := parent.child.Set(whichChild, child);
      } else {
        root := child;
      }
    }

    /** The assignments of case 2: `gchild` takes the place of `node`; its children are shared out. */
    method DoubleLinks(node: Node, child: Node, gchild: Node, gleft: Node?, gright: Node?, parent: Node?,
            whichChild: Bit, left: Bit, leftHeavy: int)
      requires node != child && node != gchild && child != gchild && leftHeavy != 0
      requires gleft !in {node, child, gchild} && gright !in {node, child, gchild} && parent !in {node, child, gchild}
      requires (gleft != null ==> gleft != gright) && (parent != null ==> parent != gleft && parent != gright)
      modifies `root, node`child, child`child, gchild`child, node`balance, child`balance, gchild`balance,
        node`parent, child`parent, gchild`parent, node`index, child`index, gchild`index,
        Own(gleft)`parent, Own(gleft)`index, Own(gright)`parent, Own(gright)`index, Own(parent)`child
      ensures node.child == old(node.child).Set(left, gright) && node.parent == gchild && node.index == 1 - left
      ensures child.child == old(child.child).Set(1 - left, gleft) && child.parent == gchild && child.index == left
      ensures gchild.child == old(gchild.child).Set(left, child).Set(1 - left, node) && gchild.parent == parent && gchild.index == whichChild
      ensures child.balance == (if old(gchild.balance) == -leftHeavy then leftHeavy else 0)
      ensures node.balance == (if old(gchild.balance) == leftHeavy then -leftHeavy else 0)
      ensures gchild.balance == 0
      ensures gright != null ==> gright.parent == node && gright.index == left
      ensures gleft != null ==> gleft.parent == child && gleft.index == 1 - left
      ensures parent != null ==> parent.child == old(parent.child).Set(whichChild, gchild)
      ensures root == if parent == null then gchild else old(root)
    {
      var right := 1 - left;
      var rightHeavy := -leftHeavy;
      node.child := node.child.Set(left, gright);
      if gright != null {
        gright.parent := node;
        gright.index := left;
      }
      child.child := child.child.Set(right, gleft);
      if gleft != null {
        gleft.parent := child;
        gleft.index := right;
      }
      var balance := gchild.balance;
      gchild.child := gchild.child.Set(left, child);
      child.balance := if balance == rightHeavy then leftHeavy else 0;
      child.parent := gchild;
      child.index := left;
      gchild.child := gchild.child.Set(right, node);
      node.balance := if balance == leftHeavy then rightHeavy else 0;
      node.parent := gchild;
      node.index := right;
      gchild.balance := 0;
      gchild.parent := parent;
      gchild.index := whichChild;
      if parent != null {
        parent.child := parent.child.Set(whichChild, gchild);
      } else {
        root := gchild;
      }
    }
  }
}
