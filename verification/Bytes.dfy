/** Byte strings, as files, buffers and records in memory hold them. */
module Bytes {
  import PowerOfTwo

  type Byte = b: int | 0 <= b < 256

  datatype Option<T> = None | Some(value: T)

  function Zeros(n: nat): (z: seq<Byte>)
    ensures |z| == n
    ensures forall i :: 0 <= i < n ==> z[i] == 0
  {
    seq(n, i => 0)
  }

  /** The contents after `data` has been written at `off`. */
  function WriteAt(bytes: seq<Byte>, off: nat, data: seq<Byte>): (r: seq<Byte>)
    requires off + |data| <= |bytes|
    ensures |r| == |bytes|
    ensures forall i :: 0 <= i < |bytes| ==> r[i] == if off <= i < off + |data| then data[i - off] else bytes[i]
  {
    bytes[..off] + data + bytes[off + |data|..]
  }

  /** What a write leaves in a range: the range is untouched, or it starts with the data. */
  lemma WriteElsewhere(bytes: seq<Byte>, off: nat, data: seq<Byte>, from: nat, to: nat)
    requires off + |data| <= |bytes| && from <= to <= |bytes|
    requires off + |data| <= from || to <= off
    ensures WriteAt(bytes, off, data)[from..to] == bytes[from..to]
  {
  }

  lemma WriteInside(bytes: seq<Byte>, off: nat, data: seq<Byte>, to: nat)
    requires off + |data| <= to <= |bytes|
    ensures WriteAt(bytes, off, data)[off..to] == data + bytes[off + |data|..to]
  {
  }

  lemma WriteOver(pre: seq<Byte>, mid: seq<Byte>, post: seq<Byte>, data: seq<Byte>)
    requires |data| == |mid|
    ensures WriteAt(pre + mid + post, |pre|, data) == pre + data + post
  {
    assert (pre + mid + post)[..|pre|] == pre;
    assert (pre + mid + post)[|pre| + |mid|..] == post;
  }

  lemma SliceGrow(bytes: seq<Byte>, lo: nat, hi: nat, k: nat, n: nat)
    requires lo + k + n <= hi <= |bytes|
    ensures bytes[lo..hi][..k] + bytes[lo + k..lo + k + n] == bytes[lo..hi][..k + n]
  {
  }

  const WORD32 := 0x1_0000_0000

  type Word = w: int | 0 <= w < WORD32

  /** `crc32`: any function to 32-bit words. */
  type Crc = seq<Byte> -> Word

  // ---- Big-endian 32-bit words ----

  function PackWord(w: nat): (s: seq<Byte>)
    requires w < WORD32
    ensures |s| == 4
  {
    [w / 0x100_0000, w / 0x1_0000 % 256, w / 256 % 256, w % 256]
  }

  function UnpackWord(s: seq<Byte>): (w: nat)
    requires |s| == 4
    ensures w < WORD32
  {
    s[0] as int * 0x100_0000 + s[1] as int * 0x1_0000 + s[2] as int * 256 + s[3]
  }

  lemma WordRoundTrip(w: nat)
    requires w < WORD32
    ensures UnpackWord(PackWord(w)) == w
    ensures var s := PackWord(w); w == s[0] as int * 0x100_0000 + s[1] as int * 0x1_0000 + s[2] as int * 0x100 + s[3]
  {
    assert w / 0x1_0000 == w / 256 / 256 && w / 0x100_0000 == w / 256 / 256 / 256;
  }

  lemma UnpackPack(s: seq<Byte>)
    requires |s| == 4
    ensures PackWord(UnpackWord(s)) == s
  {
    var w := UnpackWord(s);
    assert w % 256 == s[3] && w / 256 == s[0] as int * 0x1_0000 + s[1] as int * 256 + s[2];
    assert w / 256 % 256 == s[2] && w / 256 / 256 == s[0] as int * 256 + s[1];
    assert w / 0x1_0000 == w / 256 / 256 && w / 0x100_0000 == w / 256 / 256 / 256;
  }

  // ---- Little-endian fields of records in memory ----

  function Pow256(n: nat): (p: nat)
    ensures p > 0
  {
    if n == 0 then 1 else 256 * Pow256(n - 1)
  }

  /** The low `n` bytes of `w`. */
  function ToBytes(n: nat, w: nat): (s: seq<Byte>)
    ensures |s| == n
  {
    if n == 0 then [] else [w % 256] + ToBytes(n - 1, w / 256)
  }

  function FromBytes(s: seq<Byte>): (w: nat)
    ensures w < Pow256(|s|)
  {
    if s == [] then 0 else s[0] + 256 * FromBytes(s[1..])
  }

  lemma {:induction false} FieldRoundTrip(n: nat, w: nat)
    requires w < Pow256(n)
    ensures FromBytes(ToBytes(n, w)) == w
  {
    if n > 0 {
      FieldRoundTrip(n - 1, w / 256);
      assert ToBytes(n, w)[1..] == ToBytes(n - 1, w / 256);
    }
  }

  /** Little-endian: byte `i` is digit `i` to the base 256. */
  lemma {:induction false} ToBytesAt(n: nat, w: nat, i: nat)
    requires i < n
    ensures ToBytes(n, w)[i] == w / Pow256(i) % 256
  {
    if i > 0 {
      ToBytesAt(n - 1, w / 256, i - 1);
      DivDiv(w, 256, Pow256(i - 1));
    }
  }

  lemma DivDiv(w: nat, a: nat, b: nat)
    requires 0 < a && 0 < b
    ensures 0 < a * b && w / a / b == w / (a * b)
  {
    var q := w / a / b;
    var r, t := w % a, w / a % b;
    assert w / a == b * q + t && w == a * (w / a) + r;
    assert a * (b * q + t) == (a * b) * q + a * t;
    PowerOfTwo.MulGap(a, t, b);
    PowerOfTwo.MulGap(a, 0, b);
    PowerOfTwo.DivModUnique(w, a * b, q, a * t + r);
  }

  lemma {:induction false} FieldBack(s: seq<Byte>)
    ensures ToBytes(|s|, FromBytes(s)) == s
  {
    if s != [] {
      FieldBack(s[1..]);
      var w := FromBytes(s);
      assert w % 256 == s[0] && w / 256 == FromBytes(s[1..]);
    }
  }

  lemma {:induction false} ZeroField(n: nat)
    ensures FromBytes(Zeros(n)) == 0
  {
    if n > 0 {
      ZeroField(n - 1);
      assert Zeros(n)[1..] == Zeros(n - 1);
    }
  }

  lemma FieldSizes()
    ensures Pow256(4) == WORD32 && Pow256(8) == WORD32 * WORD32
  {
    assert Pow256(2) == 0x1_0000;
  }

  // ---- Buffers ----

  /** `memcpy`. */
  method MemCpy(dst: array<Byte>, at: nat, src: array<Byte>, from: nat, n: nat)
    requires dst != src && at + n <= dst.Length && from + n <= src.Length
    modifies dst
    ensures dst[..] == WriteAt(old(dst[..]), at, src[from..from + n])
  {
    forall k | 0 <= k < n {
      dst[at + k] := src[from + k];
    }
  }

  /** `memmove`: the source is read before it is overwritten. */
  method CopyWithin(a: array<Byte>, to: nat, from: nat, n: nat)
    requires to + n <= a.Length && from + n <= a.Length
    modifies a
    ensures a[..] == WriteAt(old(a[..]), to, old(a[..])[from..from + n])
  {
    forall k | 0 <= k < n {
      a[to + k] := a[from + k];
    }
  }

  /** An assignment to a field at a given offset. */
  method Put(a: array<Byte>, at: nat, bytes: seq<Byte>)
    requires at + |bytes| <= a.Length
    modifies a
    ensures a[..] == WriteAt(old(a[..]), at, bytes)
  {
    forall k | 0 <= k < |bytes| {
      a[at + k] := bytes[k];
    }
  }
}
