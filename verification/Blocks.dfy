/** Scatter and gather of lib/liboblock.c: a buffer is handed to the device as a vector of blocks
    of the physical block size, and put together from one. */
module Blocks {
  import opened Bytes
  import opened PowerOfTwo

  /** The bytes of a vector of blocks, one after the other: what pwritev writes and preadv fills. */
  function Flat(blocks: seq<array<Byte>>): seq<Byte>
    reads blocks
  {
    if blocks == [] then [] else Flat(blocks[..|blocks| - 1]) + blocks[|blocks| - 1][..]
  }

  ghost predicate Sized(blocks: seq<array<Byte>>, phys: nat) {
    forall b <- blocks :: b.Length == phys
  }

  lemma {:induction false} FlatLength(blocks: seq<array<Byte>>, phys: nat)
    requires Sized(blocks, phys)
    ensures |Flat(blocks)| == |blocks| * phys
  {
    if blocks != [] {
      FlatLength(blocks[..|blocks| - 1], phys);
    }
  }

  lemma {:induction false} FlatPrefix(blocks: seq<array<Byte>>, k: nat)
    requires k <= |blocks|
    ensures Flat(blocks[..k]) <= Flat(blocks)
  {
    if k < |blocks| {
      FlatPrefix(blocks[..|blocks| - 1], k);
      assert blocks[..|blocks| - 1][..k] == blocks[..k];
    } else {
      assert blocks[..k] == blocks;
    }
  }

  /** How many blocks a buffer of `len` bytes takes. */
  function IoCount(len: nat, phys: nat): nat
    requires len < WORD && 0 < phys < WORD
  {
    RoundUp(len, phys) / phys
  }

  /** The blocks cover the buffer, and without the last one they would not. */
  lemma IoCountCovers(len: nat, k: nat)
    requires k < 64 && len <= WORD - Pow2(k)
    ensures 0 < Pow2(k) < WORD && len < WORD
    ensures len <= IoCount(len, Pow2(k)) * Pow2(k) < len + Pow2(k)
    ensures len % Pow2(k) == 0 ==> IoCount(len, Pow2(k)) * Pow2(k) == len
  {
    hide RoundUp, Pow2;
    Divides(k);
    var phys := Pow2(k);
    RoundUpLeast(len, k, len);
    Quotient(RoundUp(len, phys), phys);
  }

  /** Where block `i` of `n` starts, and how much of the buffer it takes. */
  lemma BlockBounds(len: nat, phys: nat, i: nat, n: nat)
    requires 0 < phys && i < n && len <= n * phys < len + phys
    ensures i * phys <= len && (i + 1) * phys == i * phys + phys
    ensures i < n - 1 ==> i * phys + phys <= len
    ensures i == n - 1 ==> len - i * phys <= phys
  {
    if i < n - 1 {
      MulGap(phys, i + 1, n);
    }
  }

  /** `eob_buff_map_data_to_phys`, for a block size of 2 to the power `k`. The memory of a new block is not cleared. */
  method MapDataToPhys(data: array<Byte>, phys: nat, ghost k: nat) returns (blocks: seq<array<Byte>>)
    requires k < 64 && phys == Pow2(k) && data.Length <= WORD - phys
    ensures Sized(blocks, phys) && forall b <- blocks :: fresh(b)
    ensures data[..] <= Flat(blocks) && |Flat(blocks)| < data.Length + phys
    ensures data.Length % phys == 0 ==> Flat(blocks) == data[..]
  {
    hide Pow2, IoCount, Flat;
    Divides(k);
    IoCountCovers(data.Length, k);
    FlatEmpty();
    var ioCount := IoCount(data.Length, phys);
    var i := 0;
    blocks := [];
    ghost var off := 0;
    while i < ioCount
      invariant i == |blocks| <= ioCount && Sized(blocks, phys) && forall b <- blocks :: fresh(b)
      invariant off == i * phys
      invariant if i < ioCount then off <= data.Length && Flat(blocks) == data[..off] else data[..] <= Flat(blocks)
    {
      BlockBounds(data.Length, phys, i, ioCount);
      var iter := FillBlock(data, phys, i * phys, if i < ioCount - 1 then phys else data.Length - i * phys);
      FlatAdd(blocks, iter);
      TextGrows(data[..], Flat(blocks), iter[..], off, if i < ioCount - 1 then phys else data.Length - off);
      blocks := blocks + [iter];
      off := off + phys;
      i := i + 1;
    }
    FlatLength(blocks, phys);
  }

  lemma FlatEmpty()
    ensures Flat([]) == []
  {
  }

  /** A block that continues the part of the text there already is. */
  lemma TextGrows(text: seq<Byte>, part: seq<Byte>, block: seq<Byte>, off: nat, n: nat)
    requires n <= |block| && off + n <= |text| && part == text[..off] && block[..n] == text[off..off + n]
    ensures n == |block| ==> part + block == text[..off + n]
    ensures off + n == |text| ==> text <= part + block
  {
    assert (part + block)[..off + n] == part + block[..n];
  }

  lemma FlatAdd(blocks: seq<array<Byte>>, b: array<Byte>)
    ensures Flat(blocks + [b]) == Flat(blocks) + b[..]
  {
    assert (blocks + [b])[..|blocks|] == blocks;
  }

  /** One block: allocated, and its first `n` bytes copied from the buffer. */
  method FillBlock(data: array<Byte>, phys: nat, at: nat, n: nat) returns (iter: array<Byte>)
    requires n <= phys && at + n <= data.Length
    ensures fresh(iter) && iter.Length == phys && iter[..n] == data[at..at + n]
  {
    iter := new Byte[phys];
    MemCpy(iter, 0, data, at, n);
  }

  ghost predicate Distinct(blocks: seq<array<Byte>>) {
    forall i, j :: 0 <= i < j < |blocks| ==> blocks[i] != blocks[j]
  }

  /** `eob_buff_alloc_phys`. */
  method AllocPhys(virt: nat, phys: nat, ghost k: nat) returns (blocks: seq<array<Byte>>)
    requires k < 64 && phys == Pow2(k) && virt <= WORD - phys
    ensures Sized(blocks, phys) && Distinct(blocks) && forall i :: 0 <= i < |blocks| ==> fresh(blocks[i])
    ensures virt <= |blocks| * phys < virt + phys && (virt % phys == 0 ==> |blocks| * phys == virt)
  {
    hide Pow2, IoCount;
    Divides(k);
    IoCountCovers(virt, k);
    var ioCount := IoCount(virt, phys);
    blocks := [];
    var i := 0;
    while i < ioCount
      invariant i == |blocks| <= ioCount && Sized(blocks, phys) && Distinct(blocks)
      invariant forall j :: 0 <= j < |blocks| ==> fresh(blocks[j])
    {
      var iter := new Byte[phys];
      blocks := blocks + [iter];
      i := i + 1;
    }
  }

  /** `preadv` of as many bytes as the blocks hold. */
  method Preadv(blocks: seq<array<Byte>>, phys: nat, source: seq<Byte>)
    requires 0 < phys && Sized(blocks, phys) && Distinct(blocks) && |source| == |blocks| * phys
    modifies blocks
    ensures Flat(blocks) == source
  {
    hide Flat;
    FlatEmpty();
    var off := 0;
    var i := 0;
    while i < |blocks|
      invariant 0 <= i <= |blocks| && off == i * phys && off <= |source| && Flat(blocks[..i]) == source[..off]
    {
      BlockBounds(|source|, phys, i, |blocks|);
      forall k | 0 <= k < phys {
        blocks[i][k] := source[off + k];
      }
      assert blocks[i][..] == source[off..off + phys];
      FlatAdd(blocks[..i], blocks[i]);
      TextGrows(source, Flat(blocks[..i]), blocks[i][..], off, phys);
      assert blocks[..i] + [blocks[i]] == blocks[..i + 1];
      off := off + phys;
      i := i + 1;
    }
    assert blocks[..|blocks|] == blocks;
  }

  /** `eob_buff_map_phys_to_data`, for a length that is a positive multiple of the block size. */
  method MapPhysToData(blocks: seq<array<Byte>>, phys: nat, dataLen: nat) returns (data: array<Byte>)
    requires Sized(blocks, phys) && 0 < phys && 0 < dataLen <= |blocks| * phys && dataLen % phys == 0
    ensures fresh(data) && data.Length == dataLen <= |Flat(blocks)| && data[..] == Flat(blocks)[..dataLen]
  {
    hide Flat;
    FlatEmpty();
    FlatLength(blocks, phys);
    data := new Byte[dataLen];
    var i := 0;
    var copied := 0;
    ghost var text := Flat(blocks);
    while i < |blocks|
      invariant 0 <= i <= |blocks| && copied == i * phys && copied < dataLen
      invariant Flat(blocks) == text && |text| == |blocks| * phys && data[..copied] == text[..copied]
    {
      CopyFits(dataLen, phys, i);
      PartOfFlat(blocks, phys, i);
      MemCpy(data, copied, blocks[i], 0, blocks[i].Length);
      copied := copied + blocks[i].Length;
      assert data[..copied] == text[..copied];
      if copied >= dataLen {
        break;
      }
      i := i + 1;
    }
    assert copied == dataLen;
  }

  lemma CopyFits(dataLen: nat, phys: nat, i: nat)
    requires 0 < phys && dataLen % phys == 0 && i * phys < dataLen
    ensures i * phys + phys <= dataLen && (i + 1) * phys == i * phys + phys
  {
    var n := dataLen / phys;
    Quotient(dataLen, phys);
    if n <= i {
      if n < i { MulGap(phys, n, i); }
    } else if i + 1 < n {
      MulGap(phys, i + 1, n);
    }
  }

  lemma MiddlePart(text: seq<Byte>, pre: seq<Byte>, part: seq<Byte>)
    requires pre + part <= text
    ensures text[|pre|..|pre| + |part|] == part
  {
    assert text[..|pre + part|] == pre + part;
  }

  /** Block `i` stands at `i * phys`. */
  lemma PartOfFlat(blocks: seq<array<Byte>>, phys: nat, i: nat)
    requires Sized(blocks, phys) && i < |blocks|
    ensures i * phys + phys <= |Flat(blocks)| && Flat(blocks)[i * phys..i * phys + phys] == blocks[i][..]
  {
    hide Flat;
    FlatPrefix(blocks, i + 1);
    FlatLength(blocks[..i], phys);
    FlatAdd(blocks[..i], blocks[i]);
    assert blocks[..i] + [blocks[i]] == blocks[..i + 1];
    MiddlePart(Flat(blocks), Flat(blocks[..i]), blocks[i][..]);
  }

  /** Gathering what was scattered gives the buffer back. */
  method ScatterGather(data: array<Byte>, phys: nat, ghost k: nat) returns (back: array<Byte>)
    requires k < 64 && phys == Pow2(k) && 0 < data.Length <= WORD - phys && data.Length % phys == 0
    ensures back[..] == data[..]
  {
    hide Pow2, Flat;
    var blocks := MapDataToPhys(data, phys, k);
    FlatLength(blocks, phys);
    back := MapPhysToData(blocks, phys, data.Length);
  }
}
