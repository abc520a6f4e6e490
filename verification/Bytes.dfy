/** Bytes, and the big- and little-endian words the drivers read from and write to blocks. */
module Bytes {
  import opened Words

  type Byte = x: int | 0 <= x < 256

  type Block = seq<Byte>

  function Zeros(n: nat): (z: Block)
    ensures |z| == n && forall i | 0 <= i < n :: z[i] == 0
  {
    seq(n, i => 0)
  }

  /** The word whose bytes are a, b, c, d, most significant first. */
  function Word(a: int, b: int, c: int, d: int): int {
    (a * 0x100 + b) * 0x1_0000 + (c * 0x100 + d)
  }

  /** `rd_be32`. */
  function Be32(b: Block, o: nat): (v: nat)
    requires o + 4 <= |b|
    ensures v < U32
  {
    Word(b[o], b[o + 1], b[o + 2], b[o + 3])
  }

  /** `ld32`. */
  function Le32(b: Block, o: nat): (v: nat)
    requires o + 4 <= |b|
    ensures v < U32
  {
    Word(b[o + 3], b[o + 2], b[o + 1], b[o])
  }

  function Be16(b: Block, o: nat): (v: nat)
    requires o + 2 <= |b|
    ensures v < U16
  {
    Word(0, 0, b[o], b[o + 1])
  }

  /** `wr_be32`. */
  function PutBe32(v: nat): (b: Block)
    requires v < U32
    ensures |b| == 4
  {
    var hi, lo := v / U16, v % U16;
    [hi / 256, hi % 256, lo / 256, lo % 256]
  }

  /** Reading back the word that was written. */
  lemma Be32RoundTrip(v: nat)
    requires v < U32
    ensures Be32(PutBe32(v), 0) == v
  {
    var hi, lo := v / U16, v % U16;
    assert hi == hi / 256 * 256 + hi % 256 && lo == lo / 256 * 256 + lo % 256;
  }

  lemma Be32At(a: Block, v: nat, c: Block)
    requires v < U32
    ensures Be32(a + PutBe32(v) + c, |a|) == v
  {
    Be32RoundTrip(v);
    hide PutBe32;
    var b := a + PutBe32(v) + c;
    assert b[|a|] == PutBe32(v)[0] && b[|a| + 1] == PutBe32(v)[1] && b[|a| + 2] == PutBe32(v)[2]
           && b[|a| + 3] == PutBe32(v)[3];
  }

  lemma Be32Slice(b: Block, c: Block, o: nat, o': nat)
    requires o + 4 <= |b| && o' + 4 <= |c| && b[o..o + 4] == c[o'..o' + 4]
    ensures Be32(b, o) == Be32(c, o')
  {
    assert b[o..o + 4][0] == b[o] && b[o..o + 4][1] == b[o + 1] && b[o..o + 4][2] == b[o + 2]
           && b[o..o + 4][3] == b[o + 3];
    assert c[o'..o' + 4][0] == c[o'] && c[o'..o' + 4][1] == c[o' + 1] && c[o'..o' + 4][2] == c[o' + 2]
           && c[o'..o' + 4][3] == c[o' + 3];
  }

  // ----- little-endian fields

  /** `ld16`. */
  function Le16(b: Block, o: nat): (v: nat)
    requires o + 2 <= |b|
    ensures v < U16
  {
    Word(0, 0, b[o + 1], b[o])
  }

  /** `st16`. */
  function PutLe16(v: nat): (b: Block)
    requires v < U16
    ensures |b| == 2
  {
    [v % 256, v / 256]
  }

  /** `st32`. */
  function PutLe32(v: nat): (b: Block)
    requires v < U32
    ensures |b| == 4
  {
    var hi, lo := v / U16, v % U16;
    [lo % 256, lo / 256, hi % 256, hi / 256]
  }

  lemma Le16RoundTrip(v: nat)
    requires v < U16
    ensures Le16(PutLe16(v), 0) == v
  {
  }

  lemma Le32RoundTrip(v: nat)
    requires v < U32
    ensures Le32(PutLe32(v), 0) == v
  {
    var hi, lo := v / U16, v % U16;
    assert hi == hi / 256 * 256 + hi % 256 && lo == lo / 256 * 256 + lo % 256;
  }
}
