/** Elements of a fixed size in a byte string, and what copies of bytes at element offsets do to them. */
module ByteCells {
  import opened Bytes
  import opened PowerOfTwo

  type Element = seq<Byte>

  lemma CellFits(m: nat, i: nat, n: nat)
    requires i < n
    ensures i * m + m <= n * m && (i + 1) * m == i * m + m
  {
    MulGap(m, i, n);
  }

  /** Element `i`, of `n`. */
  function Cell(b: seq<Byte>, m: nat, n: nat, i: nat): (e: Element)
    requires n * m <= |b| && i < n
    ensures |e| == m
  {
    CellFits(m, i, n);
    b[i * m..i * m + m]
  }

  /** The first `n` elements. */
  function Cells(b: seq<Byte>, m: nat, n: nat): (s: seq<Element>)
    requires n * m <= |b|
    ensures |s| == n
    ensures forall i :: 0 <= i < n ==> s[i] == Cell(b, m, n, i)
  {
    seq(n, i requires 0 <= i < n => Cell(b, m, n, i))
  }

  /** `s` with the elements from `d` on replaced by `x`. */
  function Over(s: seq<Element>, d: nat, x: seq<Element>): (r: seq<Element>)
    requires d + |x| <= |s|
    ensures |r| == |s|
  {
    s[..d] + x + s[d + |x|..]
  }

  lemma OverAt(s: seq<Element>, d: nat, x: seq<Element>, i: nat)
    requires d + |x| <= |s| && i < |s|
    ensures Over(s, d, x)[i] == if d <= i < d + |x| then x[i - d] else s[i]
  {
  }

  lemma Scale(m: nat, d: nat, c: nat, n: nat)
    requires d + c <= n
    ensures (d + c) * m == d * m + c * m <= n * m
  {
    if d + c < n {
      MulGap(m, d + c, n);
    }
  }

  lemma CellShift(m: nat, i: nat, d: nat)
    requires d <= i
    ensures (i - d) * m == i * m - d * m >= 0
  {
    if d < i {
      MulGap(m, d, i);
    }
  }

  /** Bytes written at an element offset replace whole elements. */
  lemma CellsWrite(b: seq<Byte>, m: nat, n: nat, d: nat, x: seq<Byte>, c: nat)
    requires n * m <= |b| && |x| == c * m && d + c <= n
    ensures d * m + |x| <= |b|
    ensures Cells(WriteAt(b, d * m, x), m, n) == Over(Cells(b, m, n), d, Cells(x, m, c))
  {
    Scale(m, d, c, n);
    var r := WriteAt(b, d * m, x);
    forall i | 0 <= i < n ensures Cell(r, m, n, i) == Over(Cells(b, m, n), d, Cells(x, m, c))[i] {
      CellWrite(b, m, n, d, x, c, i);
    }
  }

  lemma CellWrite(b: seq<Byte>, m: nat, n: nat, d: nat, x: seq<Byte>, c: nat, i: nat)
    requires n * m <= |b| && |x| == c * m && d + c <= n && i < n && d * m + |x| <= |b|
    ensures Cell(WriteAt(b, d * m, x), m, n, i) == if d <= i < d + c then Cell(x, m, c, i - d) else Cell(b, m, n, i)
  {
    CellFits(m, i, n);
    Scale(m, d, c, n);
    if i < d {
      MulGap(m, i, d);
      WriteElsewhere(b, d * m, x, i * m, i * m + m);
    } else if d + c <= i {
      CellShift(m, i, d + c);
      WriteElsewhere(b, d * m, x, i * m, i * m + m);
    } else {
      CellShift(m, i, d);
      CellFits(m, i - d, c);
      WriteRange(b, d * m, x, i * m, m);
    }
  }

  lemma WriteRange(b: seq<Byte>, at: nat, x: seq<Byte>, from: nat, n: nat)
    requires at + |x| <= |b| && at <= from && from + n <= at + |x|
    ensures WriteAt(b, at, x)[from..from + n] == x[from - at..from - at + n]
  {
  }

  /** Bytes between element offsets are a slice of the elements. */
  lemma CellsSlice(b: seq<Byte>, m: nat, n: nat, s: nat, c: nat)
    requires n * m <= |b| && s + c <= n
    ensures s * m + c * m <= |b|
    ensures Cells(b[s * m..s * m + c * m], m, c) == Cells(b, m, n)[s..s + c]
  {
    Scale(m, s, c, n);
    var part := b[s * m..s * m + c * m];
    forall i | 0 <= i < c ensures Cells(part, m, c)[i] == Cells(b, m, n)[s..s + c][i] {
      CellFits(m, i, c);
      CellFits(m, s + i, n);
      CellShift(m, s + i, s);
      SliceSlice(b, s * m, s * m + c * m, i * m, m);
    }
  }

  lemma SliceSlice(b: seq<Byte>, lo: nat, hi: nat, at: nat, n: nat)
    requires lo + at + n <= hi <= |b|
    ensures b[lo..hi][at..at + n] == b[lo + at..lo + at + n]
  {
    var s, t := b[lo..hi][at..at + n], b[lo + at..lo + at + n];
    assert forall k :: 0 <= k < n ==> s[k] == b[lo + at + k] == t[k];
  }

  /** The same bytes are the same elements. */
  lemma CellsSame(b: seq<Byte>, b': seq<Byte>, m: nat, n: nat, n': nat, k: nat)
    requires n * m <= |b| && n' * m <= |b'| && k <= n && k <= n'
    requires k * m <= |b| && k * m <= |b'| && b[..k * m] == b'[..k * m]
    ensures Cells(b, m, n)[..k] == Cells(b', m, n')[..k]
  {
    assert b[0 * m..0 * m + k * m] == b[..k * m] && b'[0 * m..0 * m + k * m] == b'[..k * m];
    CellsSlice(b, m, n, 0, k);
    CellsSlice(b', m, n', 0, k);
  }
}
