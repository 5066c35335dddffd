/** The two layouts of `struct avl_node` in include/sys/avl_impl.h. On 64-bit machines the
    parent pointer, the child index and the balance share the word `avl_pcb`; elsewhere they
    are three fields. Every run on the packed layout reads what the same run on the separate
    fields reads. Words are 64 bits wide and negative numbers are in two's complement. */
module AvlPacked {
  /** A pointer to a node: nodes are aligned to 8 bytes. */
  type Address = p: bv64 | p & 7 == 0

  type Bit = c: bv64 | c <= 1

  const MINUS_ONE: bv64 := 0xFFFF_FFFF_FFFF_FFFF

  /** The values `avl_balance` may hold: -1, 0 and 1. */
  type Balance = b: bv64 | b == MINUS_ONE || b <= 1

  // ---- The macros ----

  function XParent(pcb: bv64): Address {
    AlignedHigh(pcb);
    pcb & !7
  }

  function XChild(pcb: bv64): bv64 {
    (pcb >> 2) & 1
  }

  function XBalance(pcb: bv64): bv64 {
    (pcb & 3) - 1
  }

  function WithParent(pcb: bv64, p: Address): bv64 {
    (pcb & 7) | p
  }

  function WithChild(pcb: bv64, c: Bit): bv64 {
    (pcb & !4) | (c << 2)
  }

  function WithBalance(pcb: bv64, b: Balance): bv64 {
    (pcb & !3) | (b + 1)
  }

  lemma AlignedHigh(pcb: bv64)
    ensures (pcb & !7) & 7 == 0
  {
  }

  /** The separate fields of the other layout. */
  datatype Fields = Fields(parent: Address, index: bv64, balance: bv64)

  function View(pcb: bv64): Fields {
    Fields(XParent(pcb), XChild(pcb), XBalance(pcb))
  }

  /** A node with the packed word. */
  class PackedNode {
    var pcb: bv64

    /** `AVL_SETPARENT`. */
    method SetParent(p: Address)
      modifies this
      ensures View(pcb) == View(old(pcb)).(parent := p)
    {
      hide View, WithParent;
      SetParentView(pcb, p);
      pcb := WithParent(pcb, p);
    }

    /** `AVL_SETCHILD`. */
    method SetChild(c: Bit)
      modifies this
      ensures View(pcb) == View(old(pcb)).(index := c)
    {
      hide View, WithChild;
      SetChildView(pcb, c);
      pcb := WithChild(pcb, c);
    }

    /** `AVL_SETBALANCE`. */
    method SetBalance(b: Balance)
      modifies this
      ensures View(pcb) == View(old(pcb)).(balance := b)
    {
      hide View, WithBalance;
      SetBalanceView(pcb, b);
      pcb := WithBalance(pcb, b);
    }
  }

  // ---- Runs ----

  /** What the tree code does to the nodes: the three assignments, and the whole copy `*to = *from`. */
  datatype Step =
    | SetParent(n: Address, p: Address)
    | SetChild(n: Address, c: Bit)
    | SetBalance(n: Address, b: Balance)
    | CopyNode(n: Address, from: Address)

  type PackedMemory = Address -> bv64
  type FieldMemory = Address -> Fields

  function PackedStep(m: PackedMemory, s: Step): PackedMemory {
    var w := match s
      case SetParent(n, p) => WithParent(m(n), p)
      case SetChild(n, c) => WithChild(m(n), c)
      case SetBalance(n, b) => WithBalance(m(n), b)
      case CopyNode(_, from) => m(from);
    (a: Address) => if a == s.n then w else m(a)
  }

  function FieldStep(m: FieldMemory, s: Step): FieldMemory {
    var f := match s
      case SetParent(n, p) => m(n).(parent := p)
      case SetChild(n, c) => m(n).(index := c)
      case SetBalance(n, b) => m(n).(balance := b)
      case CopyNode(_, from) => m(from);
    (a: Address) => if a == s.n then f else m(a)
  }

  function PackedRun(m: PackedMemory, run: seq<Step>): PackedMemory {
    if run == [] then m else PackedRun(PackedStep(m, run[0]), run[1..])
  }

  function FieldRun(m: FieldMemory, run: seq<Step>): FieldMemory {
    if run == [] then m else FieldRun(FieldStep(m, run[0]), run[1..])
  }

  ghost predicate Same(m: PackedMemory, f: FieldMemory) {
    forall a: Address :: View(m(a)) == f(a)
  }

  // ---- Each assignment changes its own field only ----

  lemma ParentBits(pcb: bv64, p: bv64)
    requires p & 7 == 0
    ensures ((pcb & 7) | p) & !7 == p
    ensures (((pcb & 7) | p) >> 2) & 1 == (pcb >> 2) & 1
    ensures (((pcb & 7) | p) & 3) - 1 == (pcb & 3) - 1
  {
  }

  lemma ChildBits(pcb: bv64, c: bv64)
    requires c <= 1
    ensures ((pcb & !4) | (c << 2)) & !7 == pcb & !7
    ensures (((pcb & !4) | (c << 2)) >> 2) & 1 == c
    ensures (((pcb & !4) | (c << 2)) & 3) - 1 == (pcb & 3) - 1
  {
  }

  lemma BalanceBits(pcb: bv64, b: bv64)
    requires b == MINUS_ONE || b <= 1
    ensures ((pcb & !3) | (b + 1)) & !7 == pcb & !7
    ensures (((pcb & !3) | (b + 1)) >> 2) & 1 == (pcb >> 2) & 1
    ensures (((pcb & !3) | (b + 1)) & 3) - 1 == b
  {
  }

  lemma WholeBits(x: bv64, y: bv64)
    requires x & !7 == y & !7 && (x >> 2) & 1 == (y >> 2) & 1 && (x & 3) - 1 == (y & 3) - 1
    ensures x == y
  {
  }

  lemma SetParentView(pcb: bv64, p: Address)
    ensures View(WithParent(pcb, p)) == View(pcb).(parent := p)
  {
    ParentBits(pcb, p);
  }

  lemma SetChildView(pcb: bv64, c: Bit)
    ensures View(WithChild(pcb, c)) == View(pcb).(index := c)
  {
    ChildBits(pcb, c);
  }

  lemma SetBalanceView(pcb: bv64, b: Balance)
    ensures View(WithBalance(pcb, b)) == View(pcb).(balance := b)
  {
    BalanceBits(pcb, b);
  }

  /** Where the fields are: the balance plus one in the two low bits, the child index in bit 2, the parent above. */
  lemma Layout(pcb: bv64)
    ensures XChild(pcb) <= 1 && XBalance(pcb) + 1 <= 3
    ensures pcb == XParent(pcb) | (XChild(pcb) << 2) | (XBalance(pcb) + 1)
  {
    LayoutBits(pcb);
  }

  lemma LayoutBits(x: bv64)
    ensures (x >> 2) & 1 <= 1 && ((x & 3) - 1) + 1 <= 3
    ensures x == (x & !7) | (((x >> 2) & 1) << 2) | (((x & 3) - 1) + 1)
  {
  }

  /** The three fields are the whole word. */
  lemma ViewInjective(x: bv64, y: bv64)
    requires View(x) == View(y)
    ensures x == y
  {
    WholeBits(x, y);
  }

  lemma StepSame(m: PackedMemory, f: FieldMemory, s: Step)
    requires Same(m, f)
    ensures Same(PackedStep(m, s), FieldStep(f, s))
  {
    hide View, WithParent, WithChild, WithBalance;
    assert View(m(s.n)) == f(s.n);
    match s
    case SetParent(n, p) => SetParentView(m(n), p);
    case SetChild(n, c) => SetChildView(m(n), c);
    case SetBalance(n, b) => SetBalanceView(m(n), b);
    case CopyNode(_, _) =>
  }

  /** After every run, whatever a node reads in one layout it reads in the other. */
  lemma {:induction false} RunSame(m: PackedMemory, f: FieldMemory, run: seq<Step>)
    requires Same(m, f)
    ensures Same(PackedRun(m, run), FieldRun(f, run))
  {
    if run != [] {
      StepSame(m, f, run[0]);
      RunSame(PackedStep(m, run[0]), FieldStep(f, run[0]), run[1..]);
    }
  }

  // ---- avl_index_t ----

  /** `AVL_MKINDEX`; the cookie of `avl_destroy_nodes` is built the same way. */
  function MakeIndex(n: Address, c: Bit): bv64 {
    n | c
  }

  /** `AVL_INDEX2NODE` and `AVL_INDEX2CHILD` take an index apart again. */
  lemma IndexParts(n: Address, c: Bit)
    ensures MakeIndex(n, c) & !1 == n
    ensures MakeIndex(n, c) & 1 == c
  {
  }

  /** Every word with a node's address in it is the index of its parts. */
  lemma IndexWhole(x: bv64)
    ensures (x & !1) | (x & 1) == x
    ensures (x & !1) & 7 == 0 ==> MakeIndex(x & !1, x & 1) == x
  {
  }
}
