/** The dynamic array of lib/libvec/vec.c and include/sys/vec.h: elements of any fixed size in a
    block of bytes that is copied, shifted and swapped byte by byte. Allocation succeeds. */
module Vectors {
  import opened Bytes
  import opened PowerOfTwo
  import opened ByteCells

  /** Sizes and counts are C `int`s. */
  const INT_MAX: nat := 0x7FFF_FFFF

  class Vec {
    const memsz: nat
    var data: array<Byte>
    var length: nat
    var capacity: nat
    /** How many elements `vec_realloc` has had to carry over. */
    ghost var moved: nat

    ghost predicate Valid()
      reads this, data
    {
      memsz > 0 && data.Length == capacity * memsz && length <= capacity
    }

    /** The elements of the whole block. */
    ghost function Block(): (s: seq<Element>)
      requires Valid()
      reads this, data
      ensures |s| == capacity
    {
      Cells(data[..], memsz, capacity)
    }

    ghost function Elements(): (s: seq<Element>)
      requires Valid()
      reads this, data
      ensures |s| == length
    {
      Block()[..length]
    }

    /** `vec_init`: no block is a block of no bytes. */
    constructor (memsz: nat)
      requires memsz > 0
      ensures Valid() && Elements() == [] && capacity == 0 && moved == 0 && this.memsz == memsz && fresh(data)
    {
      this.memsz := memsz;
      data := new Byte[0];
      length, capacity, moved := 0, 0, 0;
    }

    // ---- Bytes ----

    /** `memmove` inside the block, by elements: the ranges may overlap. */
    method MemMove(to: nat, from: nat, count: nat)
      requires Valid() && to + count <= capacity && from + count <= capacity
      modifies data
      ensures Valid() && Block() == Over(old(Block()), to, old(Block())[from..from + count])
    {
      hide Cells, Over, Cell, WriteAt;
      Scale(memsz, to, count, capacity);
      Scale(memsz, from, count, capacity);
      ghost var was := data[..];
      ghost var part := was[from * memsz..from * memsz + count * memsz];
      var d, s, n := to * memsz, from * memsz, count * memsz;
      CopyWithin(data, d, s, n);
      CellsSlice(was, memsz, capacity, from, count);
      CellsWrite(was, memsz, capacity, to, part, count);
    }

    /** `data[i] = val`. */
    method Store(i: nat, val: Element)
      requires Valid() && i < capacity && |val| == memsz
      modifies data
      ensures Valid() && Block() == Over(old(Block()), i, [val])
    {
      hide Cells, Over, WriteAt;
      Scale(memsz, i, 1, capacity);
      ghost var was := data[..];
      var d := i * memsz;
      Put(data, d, val);
      CellsWrite(was, memsz, capacity, i, val, 1);
      OneCell(val, memsz);
    }

    /** `vec_realloc` to `n` elements: what fits of the old block is carried over. */
    method Realloc(n: nat)
      requires Valid() && length <= n && n * memsz <= INT_MAX
      modifies this`data, this`capacity, this`moved
      ensures Valid() && fresh(data) && capacity == n && Elements() == old(Elements())
      ensures moved == old(moved) + (if old(capacity) < n then old(capacity) else n)
    {
      hide Cells, WriteAt;
      var keep := if capacity < n then capacity else n;
      var bytes := keep * memsz;
      var block := new Byte[n * memsz];
      Carried(block[..], data[..], memsz, capacity, n, keep, length);
      MemCpy(block, 0, data, 0, bytes);
      assert data[0..bytes] == data[..][..bytes];
      data, capacity, moved := block, n, moved + keep;
    }

    // ---- lib/libvec/vec.c ----

    /** The capacity after a block that is full has been enlarged. */
    function Doubled(): nat
      reads this
    {
      if capacity == 0 then 1 else 2 * capacity
    }

    /** Growing by one stays within `int`. */
    predicate CanGrow()
      reads this
    {
      length + 1 <= capacity || Doubled() * memsz <= INT_MAX
    }

    /** `vec_expand_`: room for one more element. */
    method Expand()
      requires Valid() && CanGrow()
      modifies this`data, this`capacity, this`moved
      ensures Valid() && (data == old(data) || fresh(data)) && length < capacity && Elements() == old(Elements())
      ensures capacity == if length < old(capacity) then old(capacity) else old(Doubled())
      ensures moved == old(moved) + (if length < old(capacity) then 0 else length)
    {
      if length + 1 > capacity {
        var n := if capacity == 0 then 1 else 2 * capacity;
        Realloc(n);
      }
    }

    /** `vec_reserve_`. */
    method Reserve(n: nat)
      requires Valid() && n * memsz <= INT_MAX
      modifies this`data, this`capacity, this`moved
      ensures Valid() && (data == old(data) || fresh(data)) && Elements() == old(Elements())
      ensures capacity == if old(capacity) < n then n else old(capacity)
    {
      if n > capacity {
        Realloc(n);
      }
    }

    /** `vec_reserve_po2_`: the least power of two that is not below `n`. */
    method ReservePo2(n: nat)
      requires Valid() && (n > 0 ==> LeastPo2(n) * memsz <= INT_MAX)
      modifies this`data, this`capacity, this`moved
      ensures Valid() && (data == old(data) || fresh(data)) && Elements() == old(Elements())
      ensures capacity == if n > 0 && old(capacity) < LeastPo2(n) then LeastPo2(n) else old(capacity)
    {
      if n == 0 {
        return;
      }
      var n2 := PowerAtLeast(n);
      Reserve(n2);
    }

    /** `vec_compact_`. */
    method Compact()
      requires Valid() && length * memsz <= INT_MAX
      modifies this`data, this`capacity, this`moved
      ensures Valid() && fresh(data) && capacity == length && Elements() == old(Elements())
    {
      if length == 0 {
        data := new Byte[0];
        capacity := 0;
      } else {
        Realloc(length);
      }
    }

    /** `vec_insert_`: element `idx` and those behind it move up by one. */
    method OpenGap(idx: nat)
      requires Valid() && CanGrow() && idx <= length
      modifies this`data, this`capacity, this`moved, data
      ensures Valid() && (data == old(data) || fresh(data)) && length < capacity
      ensures Block()[..idx] == old(Elements())[..idx] && Block()[idx + 1..length + 1] == old(Elements())[idx..]
    {
      hide Cells;
      Expand();
      ghost var was := Block();
      MemMove(idx + 1, idx, length - idx);
    }

    /** `vec_splice_` and the new length. */
    method Splice(start: nat, count: nat)
      requires Valid() && start + count <= length
      modifies this`length, data
      ensures Valid() && Elements() == old(Elements())[..start] + old(Elements())[start + count..]
    {
      hide Cells, Over;
      SplicedBlock(Block(), length, start, count);
      MemMove(start, start + count, length - start - count);
      length := length - count;
    }

    /** `vec_swapsplice_` and the new length: the last `count` elements are copied over the removed ones. */
    method SwapSplice(start: nat, count: nat)
      requires Valid() && start + count <= length
      modifies this`length, data
      ensures Valid() && Elements() == SwapSpliced(old(Elements()), start, count)
    {
      hide Cells, Over, SwapSpliced;
      SwapSplicedBlock(Block(), length, start, count);
      MemMove(start, length - count, count);
      length := length - count;
    }

    /** `vec_swap_`, byte by byte. */
    method Swap(i: nat, j: nat)
      requires Valid() && i < length && j < length
      modifies data
      ensures Valid() && Elements() == old(Elements())[i := old(Elements())[j]][j := old(Elements())[i]]
    {
      hide Cells;
      if i == j {
        return;
      }
      SwapCells(i, j);
    }

    method SwapCells(i: nat, j: nat)
      requires Valid() && i < length && j < length && i != j
      modifies data
      ensures Valid() && Block() == old(Block())[i := old(Block())[j]][j := old(Block())[i]]
    {
      hide Cells, Cell, WriteAt, Elements;
      ghost var was := data[..];
      CellFits(memsz, i, capacity);
      CellFits(memsz, j, capacity);
      CellsApart(memsz, i, j);
      var a, b := i * memsz, j * memsz;
      SwappedCells(was, memsz, capacity, i, j, a, b);
      SwapBytes(data, a, b, memsz);
    }

    // ---- include/sys/vec.h ----

    /** `vec_push`. */
    method Push(val: Element)
      requires Valid() && CanGrow() && |val| == memsz
      modifies this, data
      ensures Valid() && (data == old(data) || fresh(data)) && Elements() == old(Elements()) + [val]
      ensures capacity == if old(length) < old(capacity) then old(capacity) else old(Doubled())
      ensures moved == old(moved) + (if old(length) < old(capacity) then 0 else old(length))
    {
      hide Cells;
      Expand();
      Append(val);
    }

    /** `vec_insert`. */
    method Insert(idx: nat, val: Element)
      requires Valid() && CanGrow() && idx <= length && |val| == memsz
      modifies this, data
      ensures Valid() && (data == old(data) || fresh(data))
      ensures Elements() == old(Elements())[..idx] + [val] + old(Elements())[idx..]
    {
      hide Cells, Over;
      ghost var was := Elements();
      OpenGap(idx);
      InsertedBlock(Block(), was, idx, val);
      Store(idx, val);
      length := length + 1;
    }

    /** A run of pushes on an empty vector: all reallocations together carry over less than two elements a push. */
    method PushAll(vals: seq<Element>)
      requires Valid() && length == 0 && capacity == 0 && (vals != [] ==> LeastPo2(|vals|) * memsz <= INT_MAX)
      requires forall e <- vals :: |e| == memsz
      modifies this, data
      ensures Valid() && Elements() == vals && capacity == (if vals == [] then 0 else LeastPo2(|vals|))
      ensures moved - old(moved) <= 2 * |vals| && (vals != [] ==> moved - old(moved) == capacity - 1 < 2 * |vals|)
    {
      hide Elements, Block, LeastPo2;
      var i := 0;
      EmptyElements();
      while i < |vals|
        invariant 0 <= i == length <= |vals| && Valid() && (data == old(data) || fresh(data)) && Elements() == vals[..i]
        invariant if i == 0 then capacity == 0 && moved == old(moved) else capacity == LeastPo2(i) && moved - old(moved) == capacity - 1
      {
        GrowFits(i, |vals|, capacity, memsz);
        Push(vals[i]);
        assert vals[..i] + [vals[i]] == vals[..i + 1];
        i := i + 1;
      }
      if vals != [] {
        LeastPo2Least(|vals|, 0);
      }
    }

    lemma EmptyElements()
      requires Valid() && length == 0
      ensures Elements() == []
    {
    }

    /** `data[length++] = val`, where there is room. */
    method Append(val: Element)
      requires Valid() && length < capacity && |val| == memsz
      modifies this`length, data
      ensures Valid() && length == old(length) + 1 && Elements() == old(Elements()) + [val]
    {
      hide Cells;
      Store(length, val);
      length := length + 1;
    }

    /** `vec_pusharr`. */
    method PushArr(arr: seq<Element>)
      requires Valid() && (length + |arr| > 0 ==> LeastPo2(length + |arr|) * memsz <= INT_MAX)
      requires forall e <- arr :: |e| == memsz
      modifies this, data
      ensures Valid() && (data == old(data) || fresh(data)) && Elements() == old(Elements()) + arr
    {
      hide Cells, Elements, Block, Pow2;
      ghost var was := Elements();
      var n := |arr|;
      if length + n > 0 {
        LeastPo2Least(length + n, 0);
      }
      ReservePo2(length + n);
      var i := 0;
      while i < n
        invariant 0 <= i <= n && Valid() && (data == old(data) || fresh(data)) && length + n - i <= capacity
        invariant Elements() == was + arr[..i]
      {
        Append(arr[i]);
        assert was + arr[..i] + [arr[i]] == was + arr[..i + 1];
        i := i + 1;
      }
    }

    /** `vec_find`: the index of the first equal element, or -1. */
    method Find(val: Element) returns (idx: int)
      requires Valid() && |val| == memsz
      ensures Valid()
      ensures if val in Elements() then 0 <= idx < length && Elements()[idx] == val && val !in Elements()[..idx] else idx == -1
    {
      hide Cells;
      idx := 0;
      while idx < length
        invariant 0 <= idx <= length && val !in Elements()[..idx]
      {
        var e := Load(idx);
        if e == val {
          return;
        }
        idx := idx + 1;
      }
      idx := -1;
    }

    /** `data[i]`. */
    method Load(i: nat) returns (e: Element)
      requires Valid() && i < length
      ensures Valid() && e == Elements()[i]
    {
      CellFits(memsz, i, capacity);
      var at := i * memsz;
      e := data[at..at + memsz];
      assert e == data[..][at..at + memsz];
    }

    /** `vec_remove`: without the first element equal to `val`. */
    method Remove(val: Element)
      requires Valid() && |val| == memsz
      modifies this`length, data
      ensures Valid()
      ensures Elements() == Without(old(Elements()), val)
      ensures val !in old(Elements()) ==> Elements() == old(Elements())
      ensures forall k: nat :: IsFirst(old(Elements()), val, k) ==> Elements() == old(Elements())[..k] + old(Elements())[k + 1..]
    {
      hide Cells, IsFirst;
      var idx := Find(val);
      OnlyFirst(Elements(), val, idx);
      WithoutAt(Elements(), val, if idx == -1 then length else idx);
      if idx != -1 {
        Splice(idx, 1);
      }
    }

    /** `vec_reverse`. */
    method Reverse()
      requires Valid()
      modifies data
      ensures Valid() && Elements() == Reversed(old(Elements()))
    {
      hide Valid, Elements, Block, HalfReversed, Reversed;
      ghost var was := Elements();
      var i := length / 2;
      HalfStart(was);
      while i > 0
        invariant 0 <= i <= length / 2 && |was| == length && Valid() && HalfReversed(was, Elements(), i)
      {
        i := i - 1;
        SwapEnds(i, was);
      }
      HalfEnd(was, Elements());
    }

    /** One step of the loop. */
    method SwapEnds(i: nat, ghost was: seq<Element>)
      requires Valid() && i < length / 2 && |was| == length && HalfReversed(was, Elements(), i + 1)
      modifies data
      ensures Valid() && HalfReversed(was, Elements(), i)
    {
      hide Valid, Elements, Block, HalfReversed;
      HalfStep(was, Elements(), i + 1);
      var j := length - (i + 1);
      Swap(i, j);
    }
  }

  /** The elements that fit both blocks are the same after a realloc. */
  lemma Carried(block: seq<Byte>, was: seq<Byte>, m: nat, cap: nat, n: nat, keep: nat, length: nat)
    requires |block| == n * m && |was| == cap * m && length <= keep && keep <= cap && keep <= n
    ensures keep * m <= |was| && keep * m <= |block|
    ensures Cells(WriteAt(block, 0, was[..keep * m]), m, n)[..length] == Cells(was, m, cap)[..length]
  {
    hide Cells, WriteAt;
    Scale(m, keep, cap - keep, cap);
    Scale(m, keep, n - keep, n);
    Scale(m, length, keep - length, keep);
    PrefixKept(block, was, keep * m, length * m);
    CellsSame(was, WriteAt(block, 0, was[..keep * m]), m, cap, n, length);
  }

  lemma PrefixKept(block: seq<Byte>, was: seq<Byte>, n: nat, k: nat)
    requires k <= n <= |was| && n <= |block|
    ensures WriteAt(block, 0, was[..n])[..k] == was[..k]
  {
  }

  lemma OneCell(val: Element, m: nat)
    requires |val| == m
    ensures Cells(val, m, 1) == [val]
  {
    assert Cell(val, m, 1, 0) == val;
  }

  /** Between pushes the capacity is the least power for the length, and the next one fits. */
  lemma GrowFits(i: nat, n: nat, capacity: nat, m: nat)
    requires i < n && LeastPo2(n) * m <= INT_MAX && capacity == if i == 0 then 0 else LeastPo2(i)
    ensures i <= capacity
    ensures i < capacity ==> LeastPo2(i + 1) == capacity
    ensures i == capacity ==>
      && LeastPo2(i + 1) == (if capacity == 0 then 1 else 2 * capacity)
      && (if capacity == 0 then 1 else 2 * capacity) * m <= INT_MAX
  {
    hide LeastPo2;
    if i == 0 {
      assert LeastPo2(1) == 1 by { LeastPo2Least(1, 0); assert Pow2(0) == 1; }
    } else {
      NextPo2(i);
    }
    LeastPo2Grows(i + 1, n);
    Scale(m, LeastPo2(i + 1), LeastPo2(n) - LeastPo2(i + 1), LeastPo2(n));
  }

  /** The least power of two that is not below `n`. */
  function LeastPo2(n: nat): (p: nat)
    requires n > 0
  {
    if n == 1 then 1 else 2 * LeastPo2((n + 1) / 2)
  }

  lemma {:induction false} LeastPo2Power(n: nat) returns (k: nat)
    requires n > 0
    ensures LeastPo2(n) == Pow2(k)
  {
    if n == 1 {
      k := 0;
    } else {
      k := LeastPo2Power((n + 1) / 2);
      k := k + 1;
    }
  }

  lemma {:induction false} LeastPo2Least(n: nat, j: nat)
    requires n > 0
    ensures n <= LeastPo2(n) < 2 * n
    ensures n <= Pow2(j) ==> LeastPo2(n) <= Pow2(j)
  {
    if n > 1 {
      LeastPo2Least((n + 1) / 2, if j == 0 then 0 else j - 1);
    }
  }

  lemma Po2Unique(n: nat, k: nat)
    requires n > 0 && n <= Pow2(k) && forall j :: n <= Pow2(j) ==> Pow2(k) <= Pow2(j)
    ensures Pow2(k) == LeastPo2(n)
  {
    LeastPo2Least(n, k);
    var j := LeastPo2Power(n);
  }

  lemma LeastPo2Grows(m: nat, n: nat)
    requires 0 < m <= n
    ensures LeastPo2(m) <= LeastPo2(n)
  {
    hide LeastPo2, Pow2;
    var k := LeastPo2Power(n);
    LeastPo2Least(n, k);
    LeastPo2Least(m, k);
  }

  /** From one length to the next the least power stays or doubles. */
  lemma NextPo2(i: nat)
    requires i > 0
    ensures LeastPo2(i) >= i && LeastPo2(i + 1) == if i < LeastPo2(i) then LeastPo2(i) else 2 * LeastPo2(i)
  {
    hide LeastPo2;
    var j := LeastPo2Power(i);
    LeastPo2Least(i, j);
    LeastPo2Grows(i, i + 1);
    LeastPo2Least(i + 1, j);
    if i == LeastPo2(i) {
      LeastPo2Least(i + 1, j + 1);
      var m := LeastPo2Power(i + 1);
      Pow2Above(j, m);
    }
  }

  /** `n2` doubled until it is not below `n`. */
  method PowerAtLeast(n: nat) returns (n2: nat)
    requires n > 0
    ensures n2 == LeastPo2(n)
  {
    n2 := 1;
    ghost var k := 0;
    while n2 < n
      invariant n2 == Pow2(k) && n2 < 2 * n && forall j :: n <= Pow2(j) ==> n2 <= Pow2(j)
      decreases 2 * n - n2
    {
      forall j | n <= Pow2(j) ensures 2 * n2 <= Pow2(j) {
        Pow2Above(k, j);
      }
      n2 := 2 * n2;
      k := k + 1;
    }
    Po2Unique(n, k);
  }

  lemma {:induction false} Pow2Above(k: nat, j: nat)
    requires Pow2(k) < Pow2(j)
    ensures 2 * Pow2(k) <= Pow2(j)
  {
    if k > 0 && j > 0 {
      Pow2Above(k - 1, j - 1);
    }
  }

  /** The first element equal to `val` is at `k`. */
  ghost predicate IsFirst(s: seq<Element>, val: Element, k: nat)
    ensures IsFirst(s, val, k) ==> k < |s|
  {
    k < |s| && s[k] == val && val !in s[..k]
  }

  lemma OnlyFirst(s: seq<Element>, val: Element, idx: int)
    requires if val in s then 0 <= idx < |s| && s[idx] == val && val !in s[..idx] else idx == -1
    ensures forall k: nat :: IsFirst(s, val, k) ==> k == idx
  {
  }

  /** `s` without the first element equal to `val`. */
  function Without(s: seq<Element>, val: Element): seq<Element> {
    if s == [] then [] else if s[0] == val then s[1..] else [s[0]] + Without(s[1..], val)
  }

  lemma {:induction false} WithoutAt(s: seq<Element>, val: Element, k: nat)
    requires k <= |s| && (forall i :: 0 <= i < k ==> s[i] != val) && (k < |s| ==> s[k] == val)
    ensures Without(s, val) == if k == |s| then s else s[..k] + s[k + 1..]
  {
    if k > 0 {
      WithoutAt(s[1..], val, k - 1);
      assert s == [s[0]] + s[1..];
      assert k < |s| ==> [s[0]] + (s[1..][..k - 1] + s[1..][k..]) == s[..k] + s[k + 1..];
    }
  }

  function SwapSpliced(s: seq<Element>, start: nat, count: nat): seq<Element>
    requires start + count <= |s|
  {
    Over(s, start, s[|s| - count..])[..|s| - count]
  }

  function Reversed(s: seq<Element>): (r: seq<Element>)
    ensures |r| == |s| && forall k :: 0 <= k < |s| ==> r[k] == s[|s| - 1 - k]
  {
    seq(|s|, i requires 0 <= i < |s| => s[|s| - 1 - i])
  }

  /** The pairs from position `i` to the middle have changed places. */
  ghost predicate HalfReversed(was: seq<Element>, now: seq<Element>, i: nat) {
    && |now| == |was|
    && forall k :: 0 <= k < |was| ==> now[k] == was[if i <= k < |was| - i then |was| - 1 - k else k]
  }

  lemma HalfStart(was: seq<Element>)
    ensures HalfReversed(was, was, |was| / 2)
  {
  }

  lemma HalfStep(was: seq<Element>, now: seq<Element>, i: nat)
    requires HalfReversed(was, now, i) && 0 < i <= |was| / 2
    ensures |now| == |was|
    ensures HalfReversed(was, now[i - 1 := now[|was| - i]][|was| - i := now[i - 1]], i - 1)
  {
  }

  lemma HalfEnd(was: seq<Element>, now: seq<Element>)
    requires HalfReversed(was, now, 0)
    ensures now == Reversed(was)
  {
  }

  /** The loop of `vec_swap_`. */
  method SwapBytes(a: array<Byte>, x: nat, y: nat, n: nat)
    requires x + n <= a.Length && y + n <= a.Length && (x + n <= y || y + n <= x)
    modifies a
    ensures a[..] == WriteAt(WriteAt(old(a[..]), x, old(a[..])[y..y + n]), y, old(a[..])[x..x + n])
  {
    hide WriteAt;
    ghost var was := a[..];
    var k := 0;
    while k < n
      invariant 0 <= k <= n
      invariant forall p :: x <= p < x + k ==> a[p] == was[p - x + y]
      invariant forall p :: y <= p < y + k ==> a[p] == was[p - y + x]
      invariant forall p :: 0 <= p < a.Length && !(x <= p < x + k) && !(y <= p < y + k) ==> a[p] == was[p]
    {
      var tmp := a[x + k];
      a[x + k] := a[y + k];
      a[y + k] := tmp;
      k := k + 1;
    }
    SwappedBytes(was, a[..], x, y, n);
  }

  lemma SwappedBytes(was: seq<Byte>, now: seq<Byte>, x: nat, y: nat, n: nat)
    requires |now| == |was| && x + n <= |was| && y + n <= |was| && (x + n <= y || y + n <= x)
    requires forall p :: x <= p < x + n ==> now[p] == was[p - x + y]
    requires forall p :: y <= p < y + n ==> now[p] == was[p - y + x]
    requires forall p :: 0 <= p < |was| && !(x <= p < x + n) && !(y <= p < y + n) ==> now[p] == was[p]
    ensures now == WriteAt(WriteAt(was, x, was[y..y + n]), y, was[x..x + n])
  {
    hide WriteAt;
    var u, v := was[y..y + n], was[x..x + n];
    var w := WriteAt(was, x, u);
    var r := WriteAt(w, y, v);
    forall p | 0 <= p < |was| ensures now[p] == r[p] {
      if x <= p < x + n {
        assert r[p] == w[p] == u[p - x];
      } else if y <= p < y + n {
        assert r[p] == v[p - y];
      }
    }
  }

  lemma CellsApart(m: nat, i: nat, j: nat)
    requires i != j
    ensures i * m + m <= j * m || j * m + m <= i * m
  {
    if i < j { MulGap(m, i, j); } else { MulGap(m, j, i); }
  }

  lemma OverOne(s: seq<Element>, i: nat, e: Element)
    requires i < |s|
    ensures Over(s, i, [e]) == s[i := e]
  {
  }

  lemma SwappedCells(was: seq<Byte>, m: nat, n: nat, i: nat, j: nat, at: nat, to: nat)
    requires n * m <= |was| && i < n && j < n && at == i * m && to == j * m && at + m <= |was| && to + m <= |was|
    ensures Cells(WriteAt(WriteAt(was, at, was[to..to + m]), to, was[at..at + m]), m, n) ==
            Cells(was, m, n)[i := Cells(was, m, n)[j]][j := Cells(was, m, n)[i]]
  {
    hide Cells, WriteAt, Over;
    var s, x, y := Cells(was, m, n), was[at..at + m], was[to..to + m];
    assert s[i] == x && s[j] == y;
    OneCell(x, m);
    OneCell(y, m);
    CellsWrite(was, m, n, i, y, 1);
    OverOne(s, i, y);
    CellsWrite(WriteAt(was, at, y), m, n, j, x, 1);
    OverOne(s[i := y], j, x);
  }

  /** The same inside a larger block. */
  lemma SwapSplicedBlock(block: seq<Element>, n: nat, start: nat, count: nat)
    requires start + count <= n <= |block|
    ensures Over(block, start, block[n - count..n])[..n - count] == SwapSpliced(block[..n], start, count)
  {
    hide Over;
    var a, b := Over(block, start, block[n - count..n]), Over(block[..n], start, block[..n][n - count..]);
    forall k | 0 <= k < n - count ensures a[k] == b[k] {
      OverAt(block, start, block[n - count..n], k);
      OverAt(block[..n], start, block[..n][n - count..], k);
    }
  }

  lemma SplicedBlock(block: seq<Element>, n: nat, start: nat, count: nat)
    requires start + count <= n <= |block|
    ensures Over(block, start, block[start + count..n])[..n - count] == block[..n][..start] + block[..n][start + count..]
  {
    hide Over;
    var r := block[..n][..start] + block[..n][start + count..];
    forall k | 0 <= k < n - count ensures Over(block, start, block[start + count..n])[k] == r[k] {
      OverAt(block, start, block[start + count..n], k);
    }
  }

  /** A value stored in the gap. */
  lemma InsertedBlock(block: seq<Element>, was: seq<Element>, idx: nat, val: Element)
    requires idx <= |was| < |block| && block[..idx] == was[..idx] && block[idx + 1..|was| + 1] == was[idx..]
    ensures Over(block, idx, [val])[..|was| + 1] == was[..idx] + [val] + was[idx..]
  {
    hide Over;
    OverOne(block, idx, val);
    assert block[..|was| + 1] == block[..idx] + [block[idx]] + block[idx + 1..|was| + 1];
  }

  /** The last `count` elements fill the gap, so nothing else is lost, when they do not overlap it or are it. */
  lemma SwapSpliceRemoves(s: seq<Element>, start: nat, count: nat)
    requires start + count <= |s| && (start + count <= |s| - count || start == |s| - count)
    ensures multiset(SwapSpliced(s, start, count)) == multiset(s[..start] + s[start + count..])
  {
    var n := |s|;
    if start == n - count {
      assert SwapSpliced(s, start, count) == s[..start] + s[start + count..];
    } else {
      var p, mid, t := s[..start], s[start + count..n - count], s[n - count..];
      assert SwapSpliced(s, start, count) == p + t + mid;
      assert s[..start] + s[start + count..] == p + (mid + t);
    }
  }

  /** On distinct elements a partial overlap always loses one of them: the condition is exact. */
  lemma SwapSpliceExact(s: seq<Element>, start: nat, count: nat)
    requires start + count <= |s| && forall i, j :: 0 <= i < j < |s| ==> s[i] != s[j]
    ensures multiset(SwapSpliced(s, start, count)) == multiset(s[..start] + s[start + count..])
        <==> start + count <= |s| - count || start == |s| - count
  {
    var n := |s|;
    if start + count <= n - count || start == n - count {
      SwapSpliceRemoves(s, start, count);
    } else {
      var r, want := SwapSpliced(s, start, count), s[..start] + s[start + count..];
      var e := s[n - count];
      assert r[start] == e;
      assert e in multiset(r);
      assert forall k :: 0 <= k < |want| ==> want[k] == s[if k < start then k else k + count];
      assert e !in want;
    }
  }
}
