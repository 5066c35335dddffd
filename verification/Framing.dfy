/** The packet frames of eoblock.py: a length, the data, and a checksum of both. The checksum
    function is a parameter: everything here holds whatever it computes. */
module Framing {
  import opened Bytes

  /** `(1 << 30) - 1` is the mask of both fields. */
  const MASKED := 0x4000_0000

  /** `epkt.build`. */
  function Build(crc: Crc, data: seq<Byte>): (frame: seq<Byte>)
    ensures |frame| == |data| + 8
  {
    var body := PackWord(|data| % MASKED) + data;
    body + PackWord(crc(body) % MASKED)
  }

  /** Python's `s[lo..hi]`, which cuts both ends to the length. */
  function Slice(s: seq<Byte>, lo: nat, hi: nat): seq<Byte> {
    var h := if hi < |s| then hi else |s|;
    if lo < h then s[lo..h] else []
  }

  /** `epkt.parse_raw`. */
  function Parse(crc: Crc, data: seq<Byte>): Option<seq<Byte>> {
    if |data| <= 8 then None
    else
      var datalen := UnpackWord(data[..4]);
      if datalen == 0 then None
      else
        var cdata := Slice(data, 0, datalen + 4);
        var crcData := Slice(data, datalen + 4, datalen + 8);
        if |crcData| < 4 then None
        else if crc(cdata) % MASKED != UnpackWord(crcData) then None
        else Some(cdata[4..])
  }

  /** A parse succeeds exactly on a frame of non-empty data, whatever follows it. */
  lemma ParseBuild(crc: Crc, data: seq<Byte>, suffix: seq<Byte>)
    requires |data| < MASKED
    ensures Parse(crc, Build(crc, data) + suffix) == if data == [] then None else Some(data)
  {
    hide PackWord, UnpackWord;
    var s := Build(crc, data) + suffix;
    var body := PackWord(|data| % MASKED) + data;
    assert s[..4] == PackWord(|data|);
    WordRoundTrip(|data|);
    assert Slice(s, 0, |data| + 4) == body;
    assert Slice(s, |data| + 4, |data| + 8) == PackWord(crc(body) % MASKED);
    WordRoundTrip(crc(body) % MASKED);
    assert body[4..] == data;
  }

  /** The exact condition for getting the data back: not empty, and short enough for the masked length. */
  lemma RoundTrip(crc: Crc, data: seq<Byte>, suffix: seq<Byte>)
    ensures Parse(crc, Build(crc, data) + suffix) == Some(data) <==> 0 < |data| < MASKED
  {
    if |data| < MASKED {
      ParseBuild(crc, data, suffix);
    } else {
      var s := Build(crc, data) + suffix;
      assert s[..4] == PackWord(|data| % MASKED);
      WordRoundTrip(|data| % MASKED);
    }
  }

  /** What a parse accepts is what [Build] makes of the result. */
  lemma ParseInverse(crc: Crc, data: seq<Byte>)
    requires Parse(crc, data).Some? && |Parse(crc, data).value| < MASKED
    ensures Build(crc, Parse(crc, data).value) <= data
  {
    hide PackWord, UnpackWord;
    var r := Parse(crc, data).value;
    var n := UnpackWord(data[..4]);
    assert |r| == n;
    UnpackPack(data[..4]);
    UnpackPack(data[n + 4..n + 8]);
    assert data[..n + 4] == PackWord(n) + r;
    assert data[..n + 8] == data[..n + 4] + data[n + 4..n + 8];
  }

  /** More bytes do not change a successful parse. */
  lemma ParseStable(crc: Crc, data: seq<Byte>, more: seq<Byte>)
    requires Parse(crc, data).Some?
    ensures Parse(crc, data + more) == Parse(crc, data)
  {
    var n := UnpackWord(data[..4]);
    assert (data + more)[..4] == data[..4];
    assert Slice(data + more, 0, n + 4) == Slice(data, 0, n + 4);
    assert Slice(data + more, n + 4, n + 8) == Slice(data, n + 4, n + 8);
  }

  /** A frame that has not arrived in full does not parse. */
  lemma ParsePrefix(crc: Crc, data: seq<Byte>, k: nat)
    requires |data| < MASKED && k < |data| + 8
    ensures Parse(crc, Build(crc, data)[..k]) == None
  {
    hide PackWord, UnpackWord;
    if k > 8 {
      assert Build(crc, data)[..k][..4] == PackWord(|data|);
      WordRoundTrip(|data|);
    }
  }

  /** A slot that starts with four zeros holds nothing. */
  lemma ParseZeros(crc: Crc, n: nat)
    ensures Parse(crc, Zeros(n)) == None
  {
  }

  // ---- The bytes of a frame ----

  /** The big-endian word at `at`. */
  function WordAt(s: seq<Byte>, at: nat): nat
    requires at + 4 <= |s|
  {
    s[at] as int * 0x100_0000 + s[at + 1] as int * 0x1_0000 + s[at + 2] as int * 0x100 + s[at + 3]
  }

  lemma WordAtIs(s: seq<Byte>, at: nat)
    requires at + 4 <= |s|
    ensures WordAt(s, at) == UnpackWord(s[at..at + 4])
  {
  }

  /** A frame is the length, the data and the checksum of both, in 30 bits each. */
  lemma BuildLayout(crc: Crc, data: seq<Byte>)
    ensures var f, n := Build(crc, data), |data|;
      && |f| == n + 8 && f[4..n + 4] == data
      && WordAt(f, 0) == n % 0x4000_0000
      && WordAt(f, n + 4) == crc(f[..n + 4]) % 0x4000_0000
  {
    hide PackWord, UnpackWord, WordAt;
    var f, n := Build(crc, data), |data|;
    var body := PackWord(n % MASKED) + data;
    assert f[..n + 4] == body && f[0..4] == PackWord(n % MASKED) && f[n + 4..n + 8] == PackWord(crc(body) % MASKED);
    WordRoundTrip(n % MASKED);
    WordRoundTrip(crc(body) % MASKED);
    WordAtIs(f, 0);
    WordAtIs(f, n + 4);
  }

  /** Exactly what a parse accepts: a complete frame, not empty, whose checksum is right. */
  lemma ParseExact(crc: Crc, d: seq<Byte>, v: seq<Byte>)
    ensures Parse(crc, d) == Some(v) <==>
      && 0 < |v| && |v| + 8 <= |d| && WordAt(d, 0) == |v| && v == d[4..|v| + 4]
      && WordAt(d, |v| + 4) == crc(d[..|v| + 4]) % 0x4000_0000
  {
    hide UnpackWord, WordAt;
    var n := |v|;
    if n + 8 <= |d| {
      WordAtIs(d, 0);
      WordAtIs(d, n + 4);
      assert Slice(d, 0, n + 4) == d[..n + 4] && Slice(d, n + 4, n + 8) == d[n + 4..n + 8];
      assert d[..n + 4][4..] == d[4..n + 4] && d[0..4] == d[..4];
    }
  }

  /** With any other word in the place of the checksum a frame does not parse. */
  lemma WrongTail(crc: Crc, data: seq<Byte>, tail: seq<Byte>, suffix: seq<Byte>)
    requires |data| < MASKED && |tail| == 4 && tail != Build(crc, data)[|data| + 4..]
    ensures Parse(crc, Build(crc, data)[..|data| + 4] + tail + suffix) == None
  {
    hide PackWord, UnpackWord, WordAt, Build, Parse;
    var b, n := Build(crc, data), |data|;
    var d := b[..n + 4] + tail + suffix;
    BuildLayout(crc, data);
    WordAtIs(b, 0);
    WordAtIs(b, n + 4);
    WordAtIs(d, 0);
    assert d[0..4] == b[0..4] && d[..n + 4] == b[..n + 4] && d[n + 4..n + 8] == tail && b[n + 4..n + 8] == b[n + 4..];
    WordAtIs(d, n + 4);
    UnpackPack(tail);
    UnpackPack(b[n + 4..n + 8]);
    assert WordAt(d, n + 4) != WordAt(b, n + 4);
    var r := Parse(crc, d);
    if r != None {
      ParseExact(crc, d, r.value);
    }
  }
}
