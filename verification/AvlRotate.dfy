/** What a rotation makes of a subtree, as a function on values. */
module AvlRotate {
  import opened AvlShape

  /** The root's new balance is `balance` = -2 or +2; the stored ones below it are exact. */
  ghost predicate Unbalanced(t: Tree, balance: int) {
    && (balance == -2 || balance == 2)
    && t.Fork?
    && Avl(t.lo) && Avl(t.hi)
    && Height(t.hi) - Height(t.lo) == balance
  }

  function Heavy(balance: int): Bit {
    if balance < 0 then 0 else 1
  }

  function Sign(balance: int): int {
    if balance < 0 then -1 else 1
  }

  /** The heavy child takes the root's place. */
  function Single(t: Tree, left: Bit, childBal: int, nodeBal: int): Tree
    requires t.Fork? && t.Sub(left).Fork?
  {
    var child := t.Sub(left);
    Join(left, child.Sub(left), child.node, childBal,
         Join(left, child.Sub(1 - left), t.node, nodeBal, t.Sub(1 - left)))
  }

  /** The heavy child's inner child takes the root's place: first that of the heavy child, then that of the root. */
  function Double(t: Tree, left: Bit, childBal: int, nodeBal: int): Tree
    requires t.Fork? && t.Sub(left).Fork? && t.Sub(left).Sub(1 - left).Fork?
  {
    Single(Halfway(t, left, childBal), left, 0, nodeBal)
  }

  function Halfway(t: Tree, left: Bit, childBal: int): Tree
    requires t.Fork? && t.Sub(left).Fork? && t.Sub(left).Sub(1 - left).Fork?
  {
    Join(left, Single(t.Sub(left), 1 - left, 0, childBal), t.node, t.bal, t.Sub(1 - left))
  }

  ghost function Rotated(t: Tree, balance: int): (r: Tree)
    requires Unbalanced(t, balance)
  {
    var left, sign := Heavy(balance), Sign(balance);
    var child := t.Sub(left);
    if child.bal != -sign then
      var childBal := child.bal - sign;
      Single(t, left, childBal, -childBal)
    else
      var g := child.Sub(1 - left);
      Double(t, left, if g.bal == -sign then sign else 0, if g.bal == sign then -sign else 0)
  }

  ghost predicate Shrinks(t: Tree, balance: int)
    requires Unbalanced(t, balance)
  {
    t.Sub(Heavy(balance)).bal != 0
  }

  lemma RotatedSingle(t: Tree, balance: int, childBal: int)
    requires Unbalanced(t, balance) && t.Sub(Heavy(balance)).Fork?
    requires t.Sub(Heavy(balance)).bal != -Sign(balance) && childBal == t.Sub(Heavy(balance)).bal - Sign(balance)
    ensures Rotated(t, balance) == Single(t, Heavy(balance), childBal, -childBal)
    ensures Shrinks(t, balance) == (childBal == 0)
  {
    hide Height, Join, Single, Double;
  }

  // ---- Order ----

  lemma SingleInOrder(t: Tree, left: Bit, childBal: int, nodeBal: int)
    requires t.Fork? && t.Sub(left).Fork?
    ensures InOrder(Single(t, left, childBal, nodeBal)) == InOrder(t)
  {
    var c := t.Sub(left);
    if left == 0 {
      Assoc(InOrder(c.lo), c.node, InOrder(c.hi), t.node, InOrder(t.hi));
    } else {
      Assoc(InOrder(t.lo), t.node, InOrder(c.lo), c.node, InOrder(c.hi));
    }
  }

  lemma Assoc(a: seq<Node>, m: Node, b: seq<Node>, n: Node, c: seq<Node>)
    ensures (a + [m] + b) + [n] + c == a + [m] + (b + [n] + c)
  {
  }

  lemma DoubleInOrder(t: Tree, left: Bit, childBal: int, nodeBal: int)
    requires t.Fork? && t.Sub(left).Fork? && t.Sub(left).Sub(1 - left).Fork?
    ensures InOrder(Double(t, left, childBal, nodeBal)) == InOrder(t)
  {
    SingleInOrder(t.Sub(left), 1 - left, 0, childBal);
    SingleInOrder(Halfway(t, left, childBal), left, 0, nodeBal);
  }

  // ---- Balance ----

  lemma TopHeights(t: Tree, balance: int)
    requires Unbalanced(t, balance)
    ensures var left := Heavy(balance); var c := t.Sub(left);
      && c.Fork? && Avl(c) && Avl(t.Sub(1 - left))
      && Height(t) == 1 + Height(c) && Height(c) == Height(t.Sub(1 - left)) + 2
      && (c.bal == -Sign(balance) ==> c.Sub(1 - left).Fork?)
  {
  }

  /** The result of [Double], written out. */
  lemma DoubleShape(t: Tree, left: Bit, childBal: int, nodeBal: int)
    requires t.Fork? && t.Sub(left).Fork? && t.Sub(left).Sub(1 - left).Fork?
    ensures var c := t.Sub(left); var g := c.Sub(1 - left);
      Double(t, left, childBal, nodeBal) ==
      Join(left, Join(left, c.Sub(left), c.node, childBal, g.Sub(left)), g.node, 0,
           Join(left, g.Sub(1 - left), t.node, nodeBal, t.Sub(1 - left)))
  {
  }

  /** A join whose child on the `sign` side is `k` levels taller than the other. */
  lemma JoinTilt(side: Bit, sign: int, a: Tree, n: Node, bal: int, c: Tree, k: int)
    requires sign == (if side == 0 then -1 else 1) && Avl(a) && Avl(c)
    requires Height(a) == Height(c) + k && ((k == 0 && bal == 0) || (k == 1 && bal == sign) || (k == -1 && bal == -sign))
    ensures Avl(Join(side, a, n, bal, c)) && Height(Join(side, a, n, bal, c)) == 1 + Height(if k < 0 then c else a)
  {
  }

  lemma SubTilt(t: Tree, side: Bit, sign: int)
    requires sign == (if side == 0 then -1 else 1) && t.Fork? && Avl(t)
    ensures Avl(t.Sub(side)) && Avl(t.Sub(1 - side)) && t.bal in {-1, 0, 1}
    ensures Height(t.Sub(side)) == Height(t.Sub(1 - side)) + (if t.bal == sign then 1 else if t.bal == 0 then 0 else -1)
    ensures Height(t) == 1 + Height(if t.bal == -sign then t.Sub(1 - side) else t.Sub(side))
  {
  }

  lemma SingleAvl(t: Tree, balance: int)
    requires Unbalanced(t, balance) && t.Sub(Heavy(balance)).bal != -Sign(balance)
    ensures Avl(Rotated(t, balance))
    ensures Height(Rotated(t, balance)) == (if Shrinks(t, balance) then Height(t) - 1 else Height(t))
  {
    hide Avl, Height, Join;
    TopHeights(t, balance);
    var left, sign := Heavy(balance), Sign(balance);
    var c := t.Sub(left);
    var childBal := c.bal - sign;
    SubTilt(c, left, sign);
    var low := Join(left, c.Sub(1 - left), t.node, -childBal, t.Sub(1 - left));
    JoinTilt(left, sign, c.Sub(1 - left), t.node, -childBal, t.Sub(1 - left), if c.bal == 0 then 1 else 0);
    JoinTilt(left, sign, c.Sub(left), c.node, childBal, low, if c.bal == 0 then -1 else 0);
  }

  lemma DoubleAvl(t: Tree, balance: int)
    requires Unbalanced(t, balance) && t.Sub(Heavy(balance)).bal == -Sign(balance)
    ensures Avl(Rotated(t, balance)) && Height(Rotated(t, balance)) == Height(t) - 1
  {
    hide Avl, Height, Join, Double, Single, Halfway;
    TopHeights(t, balance);
    var left, sign := Heavy(balance), Sign(balance);
    var c := t.Sub(left);
    var g := c.Sub(1 - left);
    var childBal, nodeBal := if g.bal == -sign then sign else 0, if g.bal == sign then -sign else 0;
    assert Rotated(t, balance) == Double(t, left, childBal, nodeBal);
    DoubleShape(t, left, childBal, nodeBal);
    SubTilt(c, left, sign);
    SubTilt(g, left, sign);
    var u, v := Join(left, c.Sub(left), c.node, childBal, g.Sub(left)), Join(left, g.Sub(1 - left), t.node, nodeBal, t.Sub(1 - left));
    JoinTilt(left, sign, c.Sub(left), c.node, childBal, g.Sub(left), if g.bal == -sign then 1 else 0);
    JoinTilt(left, sign, g.Sub(1 - left), t.node, nodeBal, t.Sub(1 - left), if g.bal == sign then -1 else 0);
    JoinTilt(left, sign, u, g.node, 0, v, 0);
  }

  /** A rotation keeps the order, stores exact balances, and lowers the subtree unless the heavy child was even. */
  lemma RotatedFacts(t: Tree, balance: int)
    requires Unbalanced(t, balance)
    ensures InOrder(Rotated(t, balance)) == InOrder(t)
    ensures Avl(Rotated(t, balance))
    ensures Height(Rotated(t, balance)) == (if Shrinks(t, balance) then Height(t) - 1 else Height(t))
  {
    var left, sign := Heavy(balance), Sign(balance);
    var c := t.Sub(left);
    if c.bal != -sign {
      SingleInOrder(t, left, c.bal - sign, -(c.bal - sign));
      SingleAvl(t, balance);
    } else {
      var g := c.Sub(1 - left);
      DoubleInOrder(t, left, if g.bal == -sign then sign else 0, if g.bal == sign then -sign else 0);
      DoubleAvl(t, balance);
    }
  }

  // ---- Nodes ----

  lemma SingleSep(t: Tree, left: Bit, childBal: int, nodeBal: int)
    requires t.Fork? && t.Sub(left).Fork?
    ensures Nodes(Single(t, left, childBal, nodeBal)) == Nodes(t)
    ensures Sep(t) ==> Sep(Single(t, left, childBal, nodeBal))
  {
    var c := t.Sub(left);
    var a, b, d := c.Sub(left), c.Sub(1 - left), t.Sub(1 - left);
    JoinSep(left, c, t.node, t.bal, d);
    JoinSep(left, a, c.node, c.bal, b);
    JoinSep(left, b, t.node, nodeBal, d);
    JoinSep(left, a, c.node, childBal, Join(left, b, t.node, nodeBal, d));
  }

  lemma RotatedNodes(t: Tree, balance: int)
    requires Unbalanced(t, balance)
    ensures Nodes(Rotated(t, balance)) == Nodes(t)
  {
    var left, sign := Heavy(balance), Sign(balance);
    var c := t.Sub(left);
    if c.bal != -sign {
      SingleSep(t, left, c.bal - sign, -(c.bal - sign));
    } else {
      var g := c.Sub(1 - left);
      var childBal, nodeBal := if g.bal == -sign then sign else 0, if g.bal == sign then -sign else 0;
      SingleSep(c, 1 - left, 0, childBal);
      SingleSep(Halfway(t, left, childBal), left, 0, nodeBal);
    }
  }
}
