/** The ext2 block allocator: bitmaps read most significant bit first, a byte at a time under two
    masks (kernel/fs/ext2.c:207-276). */
module Ext2Bitmap {
  import opened Words
  import opened Bytes
  import opened Memory
  import opened Bits
  import opened Division

  /** Bit n of a byte, most significant first: `x & (0x80 >> n)`. */
  predicate Msb(x: nat, n: nat)
    requires n < 8
  {
    Bit(x, 7 - n)
  }

  /** Bit n of a bitmap block, most significant bit of each byte first: `buf[n >> 3] & (0x80 >> (n & 7))`. */
  predicate Marked(blk: Block, n: nat)
    requires n < 8 * |blk|
  {
    InByte(n / 8, n);
    Msb(blk[BlockOf(8, n)], Within(8, n))
  }

  /** The complement of a byte, with the bits before lo and from hi on masked away. */
  function Candidates(b: Byte, lo: nat, hi: nat): (r: nat)
    requires lo < 8 && 0 < hi <= 8
    ensures r < 256
  {
    ByteMasks(lo, hi);
    BitAnd(BitAnd(255 - b, Pow2(8 - lo) - 1), 256 - Pow2(8 - hi))
  }

  lemma ByteMasks(lo: nat, hi: nat)
    requires lo < 8 && 0 < hi <= 8
    ensures Pow2(8) == 256 && Pow2(8 - lo) - 1 < 256 && 0 < Pow2(8 - hi) <= 128
  {
    assert Pow2(1) == 2 && Pow2(2) == 4 && Pow2(3) == 8 && Pow2(4) == 16;
    assert Pow2(5) == 32 && Pow2(6) == 64 && Pow2(7) == 128 && Pow2(8) == 256;
  }

  /** What the masks leave: the clear bits from lo up to hi. */
  lemma CandidateIs(b: Byte, lo: nat, hi: nat, n: nat)
    requires lo < 8 && 0 < hi <= 8 && n < 8
    ensures Msb(Candidates(b, lo, hi), n) <==> lo <= n < hi && !Msb(b, n)
  {
    hide BitAnd, Bit, Pow2;
    ByteMasks(lo, hi);
    var k := 7 - n;
    AndBit(BitAnd(255 - b, Pow2(8 - lo) - 1), 256 - Pow2(8 - hi), k);
    AndBit(255 - b, Pow2(8 - lo) - 1, k);
    NotBit(8, b, k);
    OnesBit(8 - lo, k);
    NotBit(8, Pow2(8 - hi) - 1, k);
    OnesBit(8 - hi, k);
  }

  /** `__builtin_clz(x) - 24`: the first set bit from the top, from bit n on. */
  function Leading(x: nat, n: nat): (r: nat)
    requires n < 8 && 0 < x < Pow2(8 - n)
    ensures n <= r < 8 && Msb(x, r)
    ensures forall m | n <= m < r :: !Msb(x, m)
    decreases 8 - n
  {
    TopBit(x, 7 - n);
    if x >= Pow2(7 - n) then n
    else
      Leading(x, n + 1)
  }

  /** No candidate: every bit of the range is set. */
  lemma NoCandidate(b: Byte, lo: nat, hi: nat, n: nat)
    requires lo < 8 && 0 < hi <= 8 && n < 8 && Candidates(b, lo, hi) == 0 && lo <= n < hi
    ensures Msb(b, n)
  {
    CandidateIs(b, lo, hi, n);
    ZeroBits(7 - n);
  }

  // ----- one bitmap block

  /** The bits of one byte, by their numbers in the block. */
  lemma InByte(i: nat, n: nat)
    ensures 8 * i <= n < 8 * i + 8 ==> BlockOf(8, n) == i && Within(8, n) == n - 8 * i
  {
  }

  /** Setting or clearing one bit of a block. */
  function WithMark(blk: Block, n: nat, on: bool): (r: Block)
    requires n < 8 * |blk|
    ensures |r| == |blk|
  {
    InByte(n / 8, n);
    var i, k := BlockOf(8, n), Within(8, n);
    blk[i := if on then WithBit(blk[i], 7 - k) else WithoutBit(blk[i], 7 - k)]
  }

  lemma WithMarkIs(blk: Block, n: nat, on: bool, m: nat)
    requires n < 8 * |blk| && m < 8 * |blk|
    ensures Marked(WithMark(blk, n, on), m) <==> if m == n then on else Marked(blk, m)
  {
    hide Bit;
  }

  /** A byte without candidates is full in its range. */
  lemma ByteFull(blk: Block, i: nat, from: nat, to: nat, n: nat)
    requires i < |blk| && from < 8 && 0 < to <= 8 && Candidates(blk[i], from, to) == 0 && 8 * i + from <= n < 8 * i + to
    ensures Marked(blk, n)
  {
    hide BlockOf, Within, Candidates, Msb;
    InByte(i, n);
    NoCandidate(blk[i], from, to, n - 8 * i);
  }

  /** Otherwise the leading candidate is the first clear bit of the range. */
  lemma ByteFirst(blk: Block, i: nat, from: nat, to: nat, n: nat)
    requires i < |blk| && from < 8 && 0 < to <= 8 && Candidates(blk[i], from, to) != 0
    ensures Candidates(blk[i], from, to) < Pow2(8 - 0)
    ensures var first := 8 * i + Leading(Candidates(blk[i], from, to), 0);
            && 8 * i + from <= first < 8 * i + to && !Marked(blk, first)
            && (8 * i + from <= n < first ==> Marked(blk, n))
  {
    hide BlockOf, Within, Candidates, Msb, Pow2, Leading;
    var x := Candidates(blk[i], from, to);
    ByteMasks(from, to);
    var bit := Leading(x, 0);
    CandidateIs(blk[i], from, to, bit);
    InByte(i, 8 * i + bit);
    if 8 * i + from <= n < 8 * i + bit {
      InByte(i, n);
      CandidateIs(blk[i], from, to, n - 8 * i);
    }
  }

  /** The scan of one block: the smallest clear bit in [lo, hi) is set and returned. */
  method ScanBlock(buf: array<Byte>, lo: nat, hi: nat) returns (found: Option<nat>)
    requires lo < hi <= 8 * buf.Length
    modifies buf
    ensures found == None ==> buf[..] == old(buf[..]) && forall n | lo <= n < hi :: Marked(buf[..], n)
    ensures found.Some? ==>
              && lo <= found.value < hi && !Marked(old(buf[..]), found.value)
              && (forall n | lo <= n < found.value :: Marked(old(buf[..]), n))
              && buf[..] == WithMark(old(buf[..]), found.value, true)
  {
    hide Marked, Candidates, Leading, Pow2, BlockOf, Within, WithBit;
    ghost var was := buf[..];
    var first, last := lo / 8, (hi - 1) / 8;
    for i := first to last + 1
      invariant buf[..] == was
      invariant forall n | lo <= n < hi && n < 8 * i :: Marked(was, n)
    {
      var from := if i == first then lo % 8 else 0;
      var to := if i == last && hi % 8 != 0 then hi % 8 else 8;
      assert 8 * i + from >= lo && 8 * i + to <= hi;
      assert buf[i] == was[i];
      var inv := Candidates(buf[i], from, to);
      if inv != 0 {
        ByteFirst(was, i, from, to, 0);
        var bit := Leading(inv, 0);
        var n := 8 * i + bit;
        forall m | lo <= m < n ensures Marked(was, m) {
          ByteFirst(was, i, from, to, m);
        }
        InByte(i, n);
        buf[i] := WithBit(buf[i], 7 - bit);
        return Some(n);
      }
      forall n | lo <= n < hi && n < 8 * (i + 1) ensures Marked(was, n) {
        if n >= 8 * i {
          ByteFull(was, i, from, to, n);
        }
      }
    }
    return None;
  }

  // ----- the bitmap of the volume

  /** total blocks of which the first dataStart are never allocated, in bitmap blocks of bs bytes. */
  datatype Geo = Geo(bs: nat, dataStart: nat, total: nat)

  /** The bitmap blocks divide the 32-bit range evenly, as a power of two does. */
  predicate Whole(g: Geo) { g.bs > 0 && U32 % (8 * g.bs) == 0 }

  predicate Shape(g: Geo, maps: seq<Block>) {
    && g.bs > 0 && Whole(g) && 0 < g.dataStart && g.total < U32 && g.total <= Span(8 * g.bs, |maps|)
    && forall k | 0 <= k < |maps| :: |maps[k]| == g.bs
  }

  lemma InMap(g: Geo, maps: seq<Block>, b: nat)
    requires Shape(g, maps) && b < g.total
    ensures BlockOf(8 * g.bs, b) < |maps|
  {
    hide Whole;
    var per := 8 * g.bs;
    var q := b / per;
    Distribute(|maps|, q - |maps|, per);
    MulAtLeast(q - |maps|, per);
  }

  predicate Taken(g: Geo, maps: seq<Block>, b: nat)
    requires Shape(g, maps) && b < g.total
  {
    InMap(g, maps, b);
    Marked(maps[BlockOf(8 * g.bs, b)], Within(8 * g.bs, b))
  }

  /** The bitmap with the bit of block b set or cleared. */
  function WithBlock(g: Geo, maps: seq<Block>, b: nat, on: bool): (r: seq<Block>)
    requires Shape(g, maps) && b < g.total
    ensures Shape(g, r)
  {
    InMap(g, maps, b);
    var k := BlockOf(8 * g.bs, b);
    maps[k := WithMark(maps[k], Within(8 * g.bs, b), on)]
  }

  /** Exactly that bit changes. */
  lemma WithBlockIs(g: Geo, maps: seq<Block>, b: nat, on: bool, c: nat)
    requires Shape(g, maps) && b < g.total && c < g.total
    ensures Taken(g, WithBlock(g, maps, b, on), c) <==> if c == b then on else Taken(g, maps, c)
  {
    hide Marked, WithMark, BlockOf, Within, Span;
    var per := 8 * g.bs;
    InMap(g, maps, b);
    InMap(g, maps, c);
    Apart(per, b, c);
    WithMarkIs(maps[BlockOf(per, b)], Within(per, b), on, Within(per, c));
  }

  lemma Apart(per: nat, b: nat, c: nat)
    requires per > 0
    ensures BlockOf(per, b) == BlockOf(per, c) && Within(per, b) == Within(per, c) ==> b == c
  {
  }

  /** Freeing what was allocated restores the bitmap. */
  lemma AllocThenFree(g: Geo, maps: seq<Block>, b: nat)
    requires Shape(g, maps) && b < g.total && !Taken(g, maps, b)
    ensures WithBlock(g, WithBlock(g, maps, b, true), b, false) == maps
  {
    InMap(g, maps, b);
    hide Bit, BitOr, BitClear, BlockOf, Within, Span;
    var k, n := BlockOf(8 * g.bs, b), Within(8 * g.bs, b);
    InByte(n / 8, n);
    OrThenClear(maps[k][BlockOf(8, n)], 7 - Within(8, n));
    assert WithMark(WithMark(maps[k], n, true), n, false) == maps[k];
  }

  // ----- where the scan ends

  /** `bb * bs * 8`, in 32 bits. */
  function Base(g: Geo, bb: nat): nat { Span(8 * g.bs, bb) % U32 }

  /** The guard of the loop over the bitmap blocks fails for some counter if and only if the total lies
      at least a bitmap block below 2^32; otherwise the scan of a full volume does not end. */
  lemma GuardFailsIff(g: Geo)
    requires Whole(g)
    ensures (exists bb: nat :: Base(g, bb) >= g.total) <==> g.total + 8 * g.bs <= U32
  {
    var per := 8 * g.bs;
    var q := U32 / per;
    assert U32 == q * per;
    Distribute(q - 1, 1, per);
    assert Span(per, q - 1) == U32 - per;
    assert Base(g, q - 1) == U32 - per;
    forall bb: nat ensures Base(g, bb) <= U32 - per {
      BaseSmall(g, bb);
    }
  }

  lemma BaseSmall(g: Geo, bb: nat)
    requires Whole(g)
    ensures Base(g, bb) <= U32 - 8 * g.bs
  {
    var per := 8 * g.bs;
    var q := U32 / per;
    assert U32 == q * per;
    var turns := Span(per, bb) / U32;
    assert turns * U32 == turns * q * per;
    var k := bb - turns * q;
    Distribute(bb, -turns * q, per);
    assert Base(g, bb) == k * per;
    Distribute(q, k - q, per);
    MulAtLeast(k - q, per);
    Distribute(k, q - k, per);
    MulAtLeast(q - k, per);
  }

  predicate Full(g: Geo, maps: seq<Block>)
    requires Shape(g, maps)
  {
    forall c | g.dataStart <= c < g.total :: Taken(g, maps, c)
  }

  /** The scan ends: a block is free, or the guard fails. */
  predicate Ends(g: Geo, maps: seq<Block>)
    requires Shape(g, maps)
  {
    Full(g, maps) ==> g.total + 8 * g.bs <= U32
  }

  class BlockMap {
    const geo: Geo
    var maps: seq<Block>
    var free: nat

    ghost predicate Valid()
      reads this
    {
      Shape(geo, maps)
    }

    method ReadMap(k: nat) returns (buf: array<Byte>)
      requires k < |maps|
      ensures fresh(buf) && buf[..] == maps[k]
    {
      var blk := maps[k];
      buf := new Byte[|blk|](_ => 0);
      Copy(buf, 0, blk);
      assert buf[..] == buf[0..|blk|];
    }

    /** `ext2_alloc_block`: the smallest clear bit from dataStart up to total is set and returned; 0
        exactly when there is none. */
    method Alloc() returns (b: nat)
      requires Valid() && Ends(geo, maps)
      modifies this
      ensures Valid()
      ensures b == 0 <==> Full(geo, old(maps))
      ensures b == 0 ==> maps == old(maps) && free == old(free)
      ensures b != 0 ==>
                && geo.dataStart <= b < geo.total && !Taken(geo, old(maps), b)
                && (forall c | geo.dataStart <= c < b :: Taken(geo, old(maps), c))
                && maps == WithBlock(geo, old(maps), b, true)
                && free == (if old(free) == 0 then U32 - 1 else old(free) - 1)
    {
      hide Marked, WithMark, BlockOf, Within, Span, Whole, Base;
      var per := 8 * geo.bs;
      var bb := 0;
      SpanZero(per);
      BaseIs(geo, 0);
      while Base(geo, bb) < geo.total
        invariant maps == old(maps) && free == old(free) && Valid() && bb <= |maps| && Span(per, bb) < U32
        invariant Base(geo, bb) == Span(per, bb)
        invariant forall c | geo.dataStart <= c < geo.total && c < Span(per, bb) :: Taken(geo, maps, c)
        decreases |maps| - bb
      {
        MoreMaps(geo, maps, bb);
        var buf := ReadMap(bb);
        var base := Base(geo, bb);
        var lo := if geo.dataStart > base then geo.dataStart - base else 0;
        var hi := Min(geo.total - base, per);
        if lo < hi {
          var found := ScanBlock(buf, lo, hi);
          if found.Some? {
            b := base + found.value;
            forall c | geo.dataStart <= c < b ensures Taken(geo, maps, c) {
              InMapBlock(geo, maps, bb, c);
            }
            InMapBlock(geo, maps, bb, b);
            maps := maps[bb := buf[..]];
            free := if free == 0 then U32 - 1 else free - 1;
            return;
          }
        }
        forall c | geo.dataStart <= c < geo.total && c < Span(per, bb + 1) ensures Taken(geo, maps, c) {
          InMapBlock(geo, maps, bb, c);
        }
        NextBase(geo, maps, bb);
        bb := bb + 1;
        BaseIs(geo, bb);
      }
      b := 0;
    }

    /** `ext2_free_block`: the bit is cleared and counted if it was set. */
    method Free(b: nat)
      requires Valid()
      modifies this
      ensures Valid()
      ensures if b == 0 || b >= geo.total || !Taken(geo, old(maps), b) then maps == old(maps) && free == old(free)
              else maps == WithBlock(geo, old(maps), b, false) && free == Add32(old(free), 1)
    {
      hide BlockOf, Within, Span, Bit;
      if b == 0 || b >= geo.total {
        return;
      }
      InMap(geo, maps, b);
      var per := 8 * geo.bs;
      var k, n := BlockOf(per, b), Within(per, b);
      var buf := ReadMap(k);
      InByte(n / 8, n);
      var i, bit := BlockOf(8, n), Within(8, n);
      TestBit(buf[i], 7 - bit);
      if BitAnd(buf[i], Pow2(7 - bit)) != 0 {
        buf[i] := WithoutBit(buf[i], 7 - bit);
        maps := maps[k := buf[..]];
        free := Add32(free, 1);
      }
    }
  }

  lemma BaseIs(g: Geo, bb: nat)
    requires Span(8 * g.bs, bb) < U32
    ensures Base(g, bb) == Span(8 * g.bs, bb)
  {
  }

  /** The counter does not wrap on the way. */
  lemma NextBase(g: Geo, maps: seq<Block>, bb: nat)
    requires Shape(g, maps) && Ends(g, maps) && Span(8 * g.bs, bb) < g.total
    requires forall c | g.dataStart <= c < g.total && c < Span(8 * g.bs, bb + 1) :: Taken(g, maps, c)
    ensures Span(8 * g.bs, bb + 1) < U32
  {
    hide Taken;
    BaseSmall(g, bb);
    MoreMaps(g, maps, bb);
    if Span(8 * g.bs, bb + 1) >= g.total {
      assert Full(g, maps);
    }
  }

  lemma SpanZero(per: nat)
    ensures Span(per, 0) == 0
  {
  }

  lemma MoreMaps(g: Geo, maps: seq<Block>, bb: nat)
    requires Shape(g, maps) && Span(8 * g.bs, bb) < g.total
    ensures bb < |maps| && Span(8 * g.bs, bb + 1) == Span(8 * g.bs, bb) + 8 * g.bs
  {
    var per := 8 * g.bs;
    Distribute(bb, 1, per);
    Distribute(|maps|, bb - |maps|, per);
    MulAtLeast(bb - |maps|, per);
  }

  /** The blocks that bitmap block bb describes. */
  lemma InMapBlock(g: Geo, maps: seq<Block>, bb: nat, c: nat)
    requires Shape(g, maps) && c < g.total && bb < |maps|
    ensures var per := 8 * g.bs;
            Span(per, bb) <= c < Span(per, bb) + per ==>
              && BlockOf(per, c) == bb && Within(per, c) == c - Span(per, bb)
              && (Taken(g, maps, c) <==> Marked(maps[bb], c - Span(per, bb)))
  {
    hide Marked;
    var per := 8 * g.bs;
    if Span(per, bb) <= c < Span(per, bb) + per {
      DivModIs(bb, per, c - bb * per);
    }
  }
}
