/** The metadata of the block allocator or of the inode allocator as bytes, on disk and in memory, and
    the transaction that one allocation or release commits: a bitmap block read from disk, a descriptor
    block and the superblock taken from memory (kernel/fs/ext4.c:350-411, 431-436, 475-764, 2484-2535). */
module VolumeBytes {
  import opened Words
  import opened Bytes
  import opened Bits
  import opened Division
  import opened Journal
  import opened JournalRecovery
  import A = Allocator

  /** `g_sb` is 1024 bytes. */
  const SUPER := 1024

  type Image = map<nat, Block>

  /** Which of the two allocators is looked at; the other one is its sibling. */
  datatype Kind = Blocks | Inodes

  /** Where a descriptor keeps the free count, in halves, which of its flags marks the group as
      uninitialised, and where the superblock keeps the global count. */
  function CountLo(k: Kind): nat { if k == Blocks then 0x0C else 0x0E }

  function CountHi(k: Kind): nat { if k == Blocks then 0x2C else 0x2E }

  function UninitBit(k: Kind): nat { if k == Blocks then 1 else 0 }

  function SuperCount(k: Kind): nat { if k == Blocks then 0x0C else 0x10 }

  /** Where the metadata lies: one bitmap block per group, the descriptor table from block gdt on, and
      the superblock at offset sbOff of block sb. csum: `has_csum`; blocks: `total_blocks`. For inodes
      geo counts inode numbers from 1 on. */
  datatype Layout =
    Layout(kind: Kind, geo: A.Geo, blocks: nat, bitmaps: seq<nat>, gdt: nat, sb: nat, sbOff: nat, csum: bool)

  function GdtBlock(l: Layout, g: nat): nat
    requires l.geo.bs > 0
  {
    l.gdt + g * l.geo.descSize / l.geo.bs
  }

  function GdtOff(l: Layout, g: nat): nat
    requires l.geo.bs > 0
  {
    g * l.geo.descSize % l.geo.bs
  }

  predicate IsGdt(l: Layout, b: nat)
    requires A.GeoOk(l.geo)
  {
    exists g | 0 <= g < A.Groups(l.geo) :: GdtBlock(l, g) == b
  }

  /** Bitmaps, descriptors and superblock in different blocks, descriptors of 32 or 64 bytes. */
  predicate LayoutOk(l: Layout) {
    && A.GeoOk(l.geo) && |l.bitmaps| == A.Groups(l.geo) && (l.geo.descSize == 32 || l.geo.descSize == 64)
    && l.sbOff + SUPER <= l.geo.bs && !IsGdt(l, l.sb)
    && (forall g | 0 <= g < |l.bitmaps| :: l.bitmaps[g] != l.sb && !IsGdt(l, l.bitmaps[g]))
    && (forall g, k | 0 <= g < k < |l.bitmaps| :: l.bitmaps[g] != l.bitmaps[k])
  }

  /** Descriptors do not straddle blocks. */
  lemma DescWithin(l: Layout, g: nat)
    requires LayoutOk(l)
    ensures GdtOff(l, g) + l.geo.descSize <= l.geo.bs
  {
    Tiles(g, l.geo.descSize, l.geo.bs, l.geo.bs / l.geo.descSize);
  }

  /** Multiples of d leave room for d in a block of m times d. */
  lemma Tiles(g: nat, d: nat, bs: nat, m: nat)
    requires bs > 0 && d > 0 && bs == m * d
    ensures g * d % bs + d <= bs
  {
    var q, r := g * d / bs, g * d % bs;
    var i := g - q * m;
    assert r == i * d by {
      assert q * bs == q * m * d;
      Distribute(g, -(q * m), d);
    }
    Distribute(m - i, i, d);
    MulAtLeast(m - i, d);
    MulAtLeast(i - m, d);
    assert i != m;
  }

  /** The free count, in halves, and the flag of the descriptor at off. */
  function DescIn(l: Layout, blk: Block, off: nat): A.Desc
    requires off + l.geo.descSize <= |blk| && (l.geo.descSize == 32 || l.geo.descSize == 64)
  {
    A.Desc(Le16(blk, off + CountLo(l.kind)),
           if l.geo.descSize > 32 then Le16(blk, off + CountHi(l.kind)) else 0,
           Bit(Le16(blk, off + 0x12), UninitBit(l.kind)))
  }

  function FreeIn(l: Layout, blk: Block): nat
    requires l.sbOff + SUPER <= |blk|
  {
    Le32(blk, l.sbOff + SuperCount(l.kind))
  }

  predicate Sized(h: Image, b: nat, bs: nat) { b in h && |h[b]| == bs }

  predicate MetaOk(l: Layout, h: Image)
    requires LayoutOk(l)
  {
    && Sized(h, l.sb, l.geo.bs)
    && forall g | 0 <= g < |l.bitmaps| :: Sized(h, l.bitmaps[g], l.geo.bs) && Sized(h, GdtBlock(l, g), l.geo.bs)
  }

  function DescOf(l: Layout, h: Image, g: nat): A.Desc
    requires LayoutOk(l) && MetaOk(l, h) && g < |l.bitmaps|
  {
    DescWithin(l, g);
    DescIn(l, h[GdtBlock(l, g)], GdtOff(l, g))
  }

  function BitsOf(l: Layout, h: Image, g: nat): seq<bool>
    requires LayoutOk(l) && MetaOk(l, h) && g < |l.bitmaps|
  {
    Bits.Flags(h[l.bitmaps[g]], A.GroupCount(l.geo, g))
  }

  /** The volume the blocks on disk describe. */
  function Decode(l: Layout, h: Image): (v: A.Vol)
    requires LayoutOk(l) && MetaOk(l, h)
    ensures |v.bits| == |v.gdt| == |l.bitmaps| && v.gdtDisk == v.gdt && v.freeDisk == v.free == FreeIn(l, h[l.sb])
    ensures forall g | 0 <= g < |l.bitmaps| :: v.bits[g] == BitsOf(l, h, g) && v.gdt[g] == DescOf(l, h, g)
  {
    var gdt := seq(|l.bitmaps|, g requires 0 <= g < |l.bitmaps| => DescOf(l, h, g));
    var free := FreeIn(l, h[l.sb]);
    A.Vol(seq(|l.bitmaps|, g requires 0 <= g < |l.bitmaps| => BitsOf(l, h, g)), gdt, free, gdt, free)
  }

  lemma AppliedThree(h: Image, op: Op)
    requires |op| == 3
    ensures Apply(h, op) == h[op[0].0 := op[0].1][op[1].0 := op[1].1][op[2].0 := op[2].1]
  {
    var r: Op := op[1..];
    var last: Op := r[1..];
    var none: Op := last[1..];
    assert r[0] == op[1] && last[0] == op[2] && none == [];
    var h1 := h[op[0].0 := op[0].1];
    var h2 := h1[op[1].0 := op[1].1];
    assert Apply(h, op) == Apply(h1, r) == Apply(h2, last) == Apply(h2[last[0].0 := last[0].1], none);
  }

  lemma DecodeShape(l: Layout, h: Image)
    requires LayoutOk(l) && MetaOk(l, h)
    ensures A.Shape(l.geo, Decode(l, h))
  {
  }

  lemma GdtKnown(l: Layout, k: nat)
    requires LayoutOk(l) && k < |l.bitmaps|
    ensures IsGdt(l, GdtBlock(l, k))
  {
  }

  predicate IsMeta(l: Layout, b: nat)
    requires LayoutOk(l)
  {
    b == l.sb || b in l.bitmaps || IsGdt(l, b)
  }

  // ----- fields

  /** The block with the bytes w at offset o. */
  function Poke(b: Block, o: nat, w: Block): (r: Block)
    requires o + |w| <= |b|
    ensures |r| == |b|
  {
    b[..o] + w + b[o + |w|..]
  }

  /** `st16` and `st32` at an offset; a larger value loses its high part. */
  function Set16(b: Block, o: nat, v: nat): (r: Block)
    requires o + 2 <= |b|
    ensures |r| == |b|
  {
    Poke(b, o, PutLe16(v % U16))
  }

  function Set32(b: Block, o: nat, v: nat): (r: Block)
    requires o + 4 <= |b|
    ensures |r| == |b|
  {
    Poke(b, o, PutLe32(v % U32))
  }

  lemma Set16Reads(b: Block, o: nat, v: nat, p: nat)
    requires o + 2 <= |b| && p + 2 <= |b| && (p == o || p + 2 <= o || o + 2 <= p)
    ensures Le16(Set16(b, o, v), p) == if p == o then v % U16 else Le16(b, p)
  {
    hide Word, PutLe16;
    if p == o {
      Le16RoundTrip(v % U16);
      assert Set16(b, o, v)[o] == PutLe16(v % U16)[0] && Set16(b, o, v)[o + 1] == PutLe16(v % U16)[1];
    }
  }

  lemma Set32Reads(b: Block, o: nat, v: nat, p: nat)
    requires o + 4 <= |b| && p + 4 <= |b| && (p == o || p + 4 <= o || o + 4 <= p)
    ensures Le32(Set32(b, o, v), p) == if p == o then v % U32 else Le32(b, p)
  {
    hide Word, PutLe32;
    if p == o {
      Le32RoundTrip(v % U32);
      var w, r := PutLe32(v % U32), Set32(b, o, v);
      assert r[o] == w[0] && r[o + 1] == w[1] && r[o + 2] == w[2] && r[o + 3] == w[3];
    }
  }

  lemma PokeReads(b: Block, o: nat, w: Block, p: nat)
    requires o + |w| <= |b| && p + 4 <= |w|
    ensures Le32(Poke(b, o, w), o + p) == Le32(w, p)
  {
    hide Word;
    var r := Poke(b, o, w);
    assert r[o + p] == w[p] && r[o + p + 1] == w[p + 1] && r[o + p + 2] == w[p + 2] && r[o + p + 3] == w[p + 3];
  }

  // ----- memory

  /** `g_gdt` block by block, `g_sb`, and `free_blocks` or `free_inodes`. */
  datatype Mem = Mem(gdt: map<nat, Block>, sb: Block, free: nat)

  predicate MemOk(l: Layout, m: Mem)
    requires LayoutOk(l)
  {
    && |m.sb| == SUPER && m.free < U32
    && forall g | 0 <= g < |l.bitmaps| :: GdtBlock(l, g) in m.gdt && |m.gdt[GdtBlock(l, g)]| == l.geo.bs
  }

  /** `ext4_init` and `ext4_load_gdt`: what a mount takes from the home blocks. */
  function Load(l: Layout, h: Image): (m: Mem)
    requires LayoutOk(l) && MetaOk(l, h)
    ensures MemOk(l, m)
  {
    Mem(h, h[l.sb][l.sbOff..l.sbOff + SUPER], FreeIn(l, h[l.sb]))
  }

  function MemDesc(l: Layout, m: Mem, g: nat): A.Desc
    requires LayoutOk(l) && MemOk(l, m) && g < |l.bitmaps|
  {
    DescWithin(l, g);
    DescIn(l, m.gdt[GdtBlock(l, g)], GdtOff(l, g))
  }

  /** The volume as the driver sees it: bitmaps on disk, counts in memory and on disk. */
  function Seen(l: Layout, h: Image, m: Mem): (v: A.Vol)
    requires LayoutOk(l) && MetaOk(l, h) && MemOk(l, m)
    ensures |v.bits| == |v.gdt| == |v.gdtDisk| == |l.bitmaps| && v.free == m.free && v.freeDisk == FreeIn(l, h[l.sb])
    ensures forall g | 0 <= g < |l.bitmaps| ::
            v.bits[g] == BitsOf(l, h, g) && v.gdt[g] == MemDesc(l, m, g) && v.gdtDisk[g] == DescOf(l, h, g)
  {
    A.Vol(seq(|l.bitmaps|, g requires 0 <= g < |l.bitmaps| => BitsOf(l, h, g)),
          seq(|l.bitmaps|, g requires 0 <= g < |l.bitmaps| => MemDesc(l, m, g)), m.free,
          seq(|l.bitmaps|, g requires 0 <= g < |l.bitmaps| => DescOf(l, h, g)), FreeIn(l, h[l.sb]))
  }

  lemma SeenShape(l: Layout, h: Image, m: Mem)
    requires LayoutOk(l) && MetaOk(l, h) && MemOk(l, m)
    ensures A.Shape(l.geo, Seen(l, h, m))
  {
  }

  // ----- the transactions

  /** What the model does not compute: the checksums of bitmap, descriptor and superblock, the sibling's
      free count, the time, and in inode transactions the unused tail of the inode table and the new
      number of directories. */
  datatype Stamp = Stamp(bm: nat, desc: nat, super: nat, other: nat, time: nat, unused: nat, dirs: Option<nat>)

  predicate DescSized(l: Layout) { l.geo.descSize == 32 || l.geo.descSize == 64 }

  /** `gd_set16` on the descriptor at off. */
  function SetPair(l: Layout, b: Block, off: nat, lo: nat, hi: nat, v: nat): (r: Block)
    requires DescSized(l) && off + l.geo.descSize <= |b| && lo + 2 <= 32 <= hi && hi + 2 <= 64
    ensures |r| == |b|
  {
    var low := Set16(b, off + lo, v);
    if l.geo.descSize > 32 then Set16(low, off + hi, v / U16) else low
  }

  /** Two bytes of the block that lie outside another two. */
  predicate Apart(p: nat, q: nat) { p + 2 <= q || q + 2 <= p }

  lemma SetPairReads(l: Layout, b: Block, off: nat, lo: nat, hi: nat, v: nat, p: nat)
    requires DescSized(l) && off + l.geo.descSize <= |b| && lo + 2 <= 32 <= hi && hi + 2 <= 64 && p + 2 <= |b|
    requires p == off + lo || Apart(p, off + lo)
    requires l.geo.descSize > 32 ==> p == off + hi || Apart(p, off + hi)
    ensures Le16(SetPair(l, b, off, lo, hi, v), p) ==
            if p == off + lo then v % U16
            else if l.geo.descSize > 32 && p == off + hi then v / U16 % U16
            else Le16(b, p)
  {
    hide Le16, Set16;
    Set16Reads(b, off + lo, v, p);
    if l.geo.descSize > 32 {
      Set16Reads(Set16(b, off + lo, v), off + hi, v / U16, p);
    }
  }

  /** `bitmap_csum_set`, then the free count. */
  function Counted(l: Layout, b: Block, off: nat, n: nat, st: Stamp): (r: Block)
    requires DescSized(l) && off + l.geo.descSize <= |b|
    ensures |r| == |b|
  {
    var lo, hi := if l.kind == Blocks then 0x18 else 0x1A, if l.kind == Blocks then 0x38 else 0x3A;
    var summed := if l.csum then SetPair(l, b, off, lo, hi, st.bm) else b;
    SetPair(l, summed, off, CountLo(l.kind), CountHi(l.kind), n)
  }

  /** What an inode transaction sets besides. */
  function InodeFields(l: Layout, b: Block, off: nat, st: Stamp): (r: Block)
    requires DescSized(l) && off + l.geo.descSize <= |b|
    ensures |r| == |b|
  {
    var tail := SetPair(l, b, off, 0x1C, 0x32, st.unused);
    if st.dirs.Some? then SetPair(l, tail, off, 0x10, 0x30, st.dirs.value) else tail
  }

  /** The descriptor at off with a new free count, and `gdt_csum_set` at the end. */
  function DescBytes(l: Layout, b: Block, off: nat, n: nat, st: Stamp): (r: Block)
    requires DescSized(l) && off + l.geo.descSize <= |b|
    ensures |r| == |b|
  {
    var counted := Counted(l, b, off, n, st);
    var all := if l.kind == Inodes then InodeFields(l, counted, off, st) else counted;
    if l.csum then Set16(all, off + 0x1E, st.desc) else all
  }

  /** The places whose values matter: the count, the flags, and every other descriptor. */
  predicate Watched(l: Layout, off: nat, p: nat) {
    || p + 2 <= off || off + l.geo.descSize <= p || p == off + CountLo(l.kind) || p == off + 0x12
    || (l.geo.descSize > 32 && p == off + CountHi(l.kind))
  }

  lemma CountedReads(l: Layout, b: Block, off: nat, n: nat, st: Stamp, p: nat)
    requires DescSized(l) && off + l.geo.descSize <= |b| && p + 2 <= |b| && Watched(l, off, p)
    ensures Le16(Counted(l, b, off, n, st), p) ==
            if p == off + CountLo(l.kind) then n % U16
            else if l.geo.descSize > 32 && p == off + CountHi(l.kind) then n / U16 % U16
            else Le16(b, p)
  {
    hide Le16, SetPair;
    var lo, hi := if l.kind == Blocks then 0x18 else 0x1A, if l.kind == Blocks then 0x38 else 0x3A;
    var summed := if l.csum then SetPair(l, b, off, lo, hi, st.bm) else b;
    SetPairReads(l, b, off, lo, hi, st.bm, p);
    SetPairReads(l, summed, off, CountLo(l.kind), CountHi(l.kind), n, p);
  }

  lemma InodeFieldsKeep(l: Layout, b: Block, off: nat, st: Stamp, p: nat)
    requires DescSized(l) && off + l.geo.descSize <= |b| && p + 2 <= |b| && Watched(l, off, p) && l.kind == Inodes
    ensures Le16(InodeFields(l, b, off, st), p) == Le16(b, p)
  {
    hide Le16, SetPair;
    SetPairReads(l, b, off, 0x1C, 0x32, st.unused, p);
    if st.dirs.Some? {
      SetPairReads(l, SetPair(l, b, off, 0x1C, 0x32, st.unused), off, 0x10, 0x30, st.dirs.value, p);
    }
  }

  lemma DescBytesRead(l: Layout, b: Block, off: nat, n: nat, st: Stamp, p: nat)
    requires DescSized(l) && off + l.geo.descSize <= |b| && p + 2 <= |b| && Watched(l, off, p)
    ensures Le16(DescBytes(l, b, off, n, st), p) == Le16(Counted(l, b, off, n, st), p)
  {
    hide Le16, Set16, Counted, InodeFields;
    var counted := Counted(l, b, off, n, st);
    if l.kind == Inodes {
      InodeFieldsKeep(l, counted, off, st, p);
      Set16Reads(InodeFields(l, counted, off, st), off + 0x1E, st.desc, p);
    } else {
      Set16Reads(counted, off + 0x1E, st.desc, p);
    }
  }

  /** The descriptor at off gets the count; a descriptor elsewhere in the block stays. */
  lemma DescBytesIs(l: Layout, b: Block, off: nat, n: nat, st: Stamp, o: nat)
    requires DescSized(l) && off + l.geo.descSize <= |b| && n < U32
    requires o + l.geo.descSize <= |b| && (o == off || o + l.geo.descSize <= off || off + l.geo.descSize <= o)
    ensures DescIn(l, DescBytes(l, b, off, n, st), o) ==
            if o == off then A.SetCount(l.geo, DescIn(l, b, off), n) else DescIn(l, b, o)
  {
    hide Le16, DescBytes, Counted, Bit;
    DescBytesRead(l, b, off, n, st, o + CountLo(l.kind));
    CountedReads(l, b, off, n, st, o + CountLo(l.kind));
    DescBytesRead(l, b, off, n, st, o + 0x12);
    CountedReads(l, b, off, n, st, o + 0x12);
    if l.geo.descSize > 32 {
      DescBytesRead(l, b, off, n, st, o + CountHi(l.kind));
      CountedReads(l, b, off, n, st, o + CountHi(l.kind));
    }
  }

  /** `ext4_sb_sync` on the 1024 bytes of `g_sb`. */
  function SbBytes(l: Layout, sb: Block, free: nat, st: Stamp): (r: Block)
    requires |sb| == SUPER
    ensures |r| == SUPER
  {
    var (blocks, inodes) := if l.kind == Blocks then (free, st.other) else (st.other, free);
    var s1 := Set32(Set32(sb, 0x0C, blocks), 0x158, 0);
    var s2 := Set32(Set32(s1, 0x10, inodes), 0x04, l.blocks);
    var s3 := Set32(Set32(s2, 0x150, 0), 0x44, st.time);
    if l.csum then Set32(s3, 0x3FC, st.super) else s3
  }

  lemma SbBytesRead(l: Layout, sb: Block, free: nat, st: Stamp)
    requires |sb| == SUPER && free < U32
    ensures Le32(SbBytes(l, sb, free, st), SuperCount(l.kind)) == free
  {
    hide Le32, Set32;
    var p := SuperCount(l.kind);
    var (blocks, inodes) := if l.kind == Blocks then (free, st.other) else (st.other, free);
    var a := Set32(sb, 0x0C, blocks);
    var s1 := Set32(a, 0x158, 0);
    var c := Set32(s1, 0x10, inodes);
    var s2 := Set32(c, 0x04, l.blocks);
    var e := Set32(s2, 0x150, 0);
    var s3 := Set32(e, 0x44, st.time);
    Set32Reads(sb, 0x0C, blocks, p);
    Set32Reads(a, 0x158, 0, p);
    Set32Reads(s1, 0x10, inodes, p);
    Set32Reads(c, 0x04, l.blocks, p);
    Set32Reads(s2, 0x150, 0, p);
    Set32Reads(e, 0x44, st.time, p);
    Set32Reads(s3, 0x3FC, st.super, p);
  }

  lemma MultiplesApart(g: nat, k: nat, d: nat, x: nat, y: nat)
    requires g != k && d > 0 && g * d - x == k * d - y
    ensures x + d <= y || y + d <= x
  {
    Distribute(g, k - g, d);
    MulAtLeast(k - g, d);
    Distribute(k, g - k, d);
    MulAtLeast(g - k, d);
  }

  /** Two descriptors of one block do not overlap. */
  lemma OffsApart(l: Layout, g: nat, k: nat)
    requires LayoutOk(l) && GdtBlock(l, g) == GdtBlock(l, k) && g != k
    ensures GdtOff(l, g) + l.geo.descSize <= GdtOff(l, k) || GdtOff(l, k) + l.geo.descSize <= GdtOff(l, g)
  {
    hide IsGdt, A.Groups;
    var d, bs := l.geo.descSize, l.geo.bs;
    var x, y := g * d, k * d;
    assert x / bs == y / bs && x - x % bs == y - y % bs;
    MultiplesApart(g, k, d, x % bs, y % bs);
  }

  lemma BitmapBytesIs(bm: Block, i: nat, n: nat, used: bool)
    requires i < n <= 8 * |bm|
    ensures Bits.Flags(BitmapBytes(bm, i, used), n) == Bits.Flags(bm, n)[i := used]
  {
    if used {
      SetFlag(bm, i, n);
    } else {
      DropFlag(bm, i, n);
    }
  }

  /** A transaction of three blocks, the last two from memory: block x with bytes w, descriptor block gb
      as gd, and the superblock as sb within the block read from disk. */
  function Three(l: Layout, h: Image, x: nat, w: Block, gb: nat, gd: Block, sb: Block): (op: Op)
    requires LayoutOk(l) && MetaOk(l, h) && |sb| == SUPER
    ensures |op| == 3
  {
    [(x, w), (gb, gd), (l.sb, Poke(h[l.sb], l.sbOff, sb))]
  }

  /** `ext4_group_alloc_block` or `ext4_free_block` once block b is chosen: the transaction and the
      memory after it. */
  function MarkOp(l: Layout, h: Image, m: Mem, b: nat, used: bool, st: Stamp): (r: (Op, Mem))
    requires LayoutOk(l) && MetaOk(l, h) && MemOk(l, m) && l.geo.first <= b < l.geo.total
  {
    A.BlockPlace(l.geo, b);
    var g, i := A.GroupOf(l.geo, b), A.BitOf(l.geo, b);
    DescWithin(l, g);
    var gb, off := GdtBlock(l, g), GdtOff(l, g);
    var gd := DescBytes(l, m.gdt[gb], off, A.Bump(A.Count(l.geo, MemDesc(l, m, g)), used), st);
    var free := A.Bump(m.free, used);
    var sb := SbBytes(l, m.sb, free, st);
    (Three(l, h, l.bitmaps[g], BitmapBytes(h[l.bitmaps[g]], i, used), gb, gd, sb), Mem(m.gdt[gb := gd], sb, free))
  }

  /** The free count of a superblock block after its bytes were put in. */
  lemma SuperReads(l: Layout, blk: Block, sb: Block)
    requires l.sbOff + SUPER <= |blk| && |sb| == SUPER
    ensures FreeIn(l, Poke(blk, l.sbOff, sb)) == Le32(sb, SuperCount(l.kind))
  {
    PokeReads(blk, l.sbOff, sb, SuperCount(l.kind));
  }

  /** The descriptors in a block after DescBytes for group g. */
  lemma DescAfter(l: Layout, blk: Block, g: nat, k: nat, n: nat, st: Stamp)
    requires LayoutOk(l) && |blk| == l.geo.bs && GdtBlock(l, k) == GdtBlock(l, g) && n < U32
    requires GdtOff(l, g) + l.geo.descSize <= |blk| && GdtOff(l, k) + l.geo.descSize <= |blk|
    ensures DescIn(l, DescBytes(l, blk, GdtOff(l, g), n, st), GdtOff(l, k)) ==
            if k == g then A.SetCount(l.geo, DescIn(l, blk, GdtOff(l, g)), n) else DescIn(l, blk, GdtOff(l, k))
  {
    hide DescIn, DescBytes, GdtBlock, GdtOff, IsGdt;
    if k != g {
      OffsApart(l, g, k);
    }
    DescBytesIs(l, blk, GdtOff(l, g), n, st, GdtOff(l, k));
  }

  lemma CountBound(geo: A.Geo, d: A.Desc, used: bool)
    requires A.DescOk(d)
    ensures A.Bump(A.Count(geo, d), used) < U32
  {
    A.CountIs(geo, d);
  }

  /** What a transaction of three blocks does to every metadata block, on disk and in memory. */
  lemma ThreeBlocks(l: Layout, h: Image, x: nat, w: Block, g: nat, gd: Block, sb: Block, k: nat)
    requires LayoutOk(l) && MetaOk(l, h) && |sb| == SUPER && |gd| == |w| == l.geo.bs && g < |l.bitmaps|
             && k < |l.bitmaps|
    requires x != l.sb && !IsGdt(l, x)
    ensures var h' := Apply(h, Three(l, h, x, w, GdtBlock(l, g), gd, sb));
            && Sized(h', l.bitmaps[k], l.geo.bs)
               && h'[l.bitmaps[k]] == (if l.bitmaps[k] == x then w else h[l.bitmaps[k]])
            && Sized(h', GdtBlock(l, k), l.geo.bs)
            && h'[GdtBlock(l, k)] == (if GdtBlock(l, k) == GdtBlock(l, g) then gd else h[GdtBlock(l, k)])
            && Sized(h', l.sb, l.geo.bs) && FreeIn(l, h'[l.sb]) == Le32(sb, SuperCount(l.kind))
  {
    hide Apply, GdtBlock, IsGdt, FreeIn, Le32, A.GeoOk;
    AppliedThree(h, Three(l, h, x, w, GdtBlock(l, g), gd, sb));
    GdtKnown(l, k);
    GdtKnown(l, g);
    SuperReads(l, h[l.sb], sb);
  }

  /** The volume after a transaction of three blocks, when memory holds the blocks that were written. */
  lemma ThreeSeen(l: Layout, h: Image, m: Mem, x: nat, w: Block, g: nat, gd: Block, sb: Block, free: nat,
                   bits: seq<seq<bool>>, gdt: seq<A.Desc>)
    requires LayoutOk(l) && MetaOk(l, h) && MemOk(l, m) && |sb| == SUPER && |gd| == |w| == l.geo.bs && g < |l.bitmaps|
    requires x != l.sb && !IsGdt(l, x) && free < U32 && Le32(sb, SuperCount(l.kind)) == free
             && |bits| == |gdt| == |l.bitmaps|
    requires forall k | 0 <= k < |l.bitmaps| ::
               bits[k] == if l.bitmaps[k] == x then Bits.Flags(w, A.GroupCount(l.geo, k)) else BitsOf(l, h, k)
    requires forall k | 0 <= k < |l.bitmaps| ::
               (DescWithin(l, k);
                gdt[k] == if GdtBlock(l, k) == GdtBlock(l, g) then DescIn(l, gd, GdtOff(l, k)) else MemDesc(l, m, k))
    ensures var h', m' := Apply(h, Three(l, h, x, w, GdtBlock(l, g), gd, sb)),
            Mem(m.gdt[GdtBlock(l, g) := gd], sb, free);
            && MetaOk(l, h') && MemOk(l, m')
            && Seen(l, h', m') == A.Vol(bits, gdt, free, A.Synced(l.geo, Seen(l, h, m).gdtDisk, gdt, g), free)
  {
    hide IsGdt, GdtBlock, GdtOff, DescIn, FreeIn, Three, A.GroupCount, A.GeoOk, A.Synced, Bits.Flags, Apply, Le32;
    var h', m' := Apply(h, Three(l, h, x, w, GdtBlock(l, g), gd, sb)), Mem(m.gdt[GdtBlock(l, g) := gd], sb, free);
    ThreeBlocks(l, h, x, w, g, gd, sb, g);
    forall k | 0 <= k < |l.bitmaps|
      ensures Sized(h', l.bitmaps[k], l.geo.bs) && Sized(h', GdtBlock(l, k), l.geo.bs)
      ensures h'[l.bitmaps[k]] == (if l.bitmaps[k] == x then w else h[l.bitmaps[k]])
      ensures h'[GdtBlock(l, k)] == (if GdtBlock(l, k) == GdtBlock(l, g) then gd else h[GdtBlock(l, k)])
    {
      ThreeBlocks(l, h, x, w, g, gd, sb, k);
    }
    assert MetaOk(l, h') && MemOk(l, m');
    var v, r := Seen(l, h, m), Seen(l, h', m');
    forall k | 0 <= k < |l.bitmaps| ensures r.bits[k] == bits[k] && r.gdt[k] == gdt[k] {
    }
    forall k | 0 <= k < |l.bitmaps| ensures r.gdtDisk[k] == A.Synced(l.geo, v.gdtDisk, gdt, g)[k] {
      SyncedAt(l, v.gdtDisk, gdt, g, k);
    }
    assert r.bits == bits && r.gdt == gdt && r.gdtDisk == A.Synced(l.geo, v.gdtDisk, gdt, g);
  }

  lemma SyncedAt(l: Layout, disk: seq<A.Desc>, mem: seq<A.Desc>, g: nat, k: nat)
    requires LayoutOk(l) && |disk| == |mem| && k < |mem|
    ensures A.Synced(l.geo, disk, mem, g)[k] == if GdtBlock(l, k) == GdtBlock(l, g) then mem[k] else disk[k]
  {
  }

  /** The transaction does to disk and memory what the allocator's step does to the volume. */
  lemma MarkSeen(l: Layout, h: Image, m: Mem, b: nat, used: bool, st: Stamp)
    requires LayoutOk(l) && MetaOk(l, h) && MemOk(l, m) && l.geo.first <= b < l.geo.total
    ensures var (op, m') := MarkOp(l, h, m, b, used, st);
            && MetaOk(l, Apply(h, op)) && MemOk(l, m') && A.Shape(l.geo, Seen(l, h, m))
            && Seen(l, Apply(h, op), m') == A.Mark(l.geo, Seen(l, h, m), b, used)
  {
    hide IsGdt, GdtBlock, GdtOff, DescIn, FreeIn, DescBytes, SbBytes, BitmapBytes, Three, A.Count, A.SetCount, A.Bump,
         A.GroupOf, A.BitOf, A.GroupCount, A.GeoOk, A.Synced, Bits.Flags, Apply, Le32;
    SeenShape(l, h, m);
    A.BlockPlace(l.geo, b);
    var g, i := A.GroupOf(l.geo, b), A.BitOf(l.geo, b);
    DescWithin(l, g);
    BitsFit(l, g);
    var v, free := Seen(l, h, m), A.Bump(m.free, used);
    var n := A.Bump(A.Count(l.geo, v.gdt[g]), used);
    var gd := DescBytes(l, m.gdt[GdtBlock(l, g)], GdtOff(l, g), n, st);
    var w, sb := BitmapBytes(h[l.bitmaps[g]], i, used), SbBytes(l, m.sb, free, st);
    var bits, gdt := v.bits[g := v.bits[g][i := used]], v.gdt[g := A.SetCount(l.geo, v.gdt[g], n)];
    CountBound(l.geo, v.gdt[g], used);
    BumpSmall(m.free, used);
    SbBytesRead(l, m.sb, free, st);
    BitmapBytesIs(h[l.bitmaps[g]], i, A.GroupCount(l.geo, g), used);
    forall k | 0 <= k < |l.bitmaps|
      ensures (DescWithin(l, k);
               gdt[k] == if GdtBlock(l, k) == GdtBlock(l, g) then DescIn(l, gd, GdtOff(l, k)) else MemDesc(l, m, k))
    {
      DescWithin(l, k);
      if GdtBlock(l, k) == GdtBlock(l, g) {
        DescAfter(l, m.gdt[GdtBlock(l, g)], g, k, n, st);
      }
    }
    ThreeSeen(l, h, m, l.bitmaps[g], w, g, gd, sb, free, bits, gdt);
  }

  lemma BitsFit(l: Layout, g: nat)
    requires LayoutOk(l)
    ensures A.GroupCount(l.geo, g) <= 8 * l.geo.bs
  {
  }

  lemma BumpSmall(n: nat, used: bool)
    requires n < U32
    ensures A.Bump(n, used) < U32
  {
  }

  /** A transaction of the sibling on group g: its own bitmap block x, the descriptor block with its
      fields changed, and the superblock. The counts and flags looked at are as in memory. */
  predicate SiblingOk(l: Layout, m: Mem, x: nat, w: Block, g: nat, gd: Block)
    requires LayoutOk(l) && MemOk(l, m)
  {
    |w| == l.geo.bs && !IsMeta(l, x) && FlushOk(l, m, g, gd)
  }

  /** A descriptor block with the counts and flags of memory. */
  predicate FlushOk(l: Layout, m: Mem, g: nat, gd: Block)
    requires LayoutOk(l) && MemOk(l, m)
  {
    && g < |l.bitmaps| && |gd| == l.geo.bs
    && forall k | 0 <= k < |l.bitmaps| && GdtBlock(l, k) == GdtBlock(l, g) ::
         (DescWithin(l, k);
          DescIn(l, gd, GdtOff(l, k)) == MemDesc(l, m, k))
  }

  function SiblingOp(l: Layout, h: Image, m: Mem, x: nat, w: Block, g: nat, gd: Block, st: Stamp): (r: (Op, Mem))
    requires LayoutOk(l) && MetaOk(l, h) && MemOk(l, m)
  {
    var sb := SbBytes(l, m.sb, m.free, st);
    (Three(l, h, x, w, GdtBlock(l, g), gd, sb), Mem(m.gdt[GdtBlock(l, g) := gd], sb, m.free))
  }

  /** It changes no bitmap looked at, and writes the counts in memory to disk. */
  lemma SiblingSeen(l: Layout, h: Image, m: Mem, x: nat, w: Block, g: nat, gd: Block, st: Stamp)
    requires LayoutOk(l) && MetaOk(l, h) && MemOk(l, m) && SiblingOk(l, m, x, w, g, gd)
    ensures var (op, m') := SiblingOp(l, h, m, x, w, g, gd, st);
            var v := Seen(l, h, m);
            && MetaOk(l, Apply(h, op)) && MemOk(l, m')
            && Seen(l, Apply(h, op), m') == v.(gdtDisk := A.Synced(l.geo, v.gdtDisk, v.gdt, g), freeDisk := v.free)
  {
    hide IsGdt, GdtBlock, GdtOff, DescIn, FreeIn, SbBytes, Three, A.GroupCount, A.GeoOk, A.Synced, Bits.Flags, Apply,
         Le32;
    var v := Seen(l, h, m);
    SbBytesRead(l, m.sb, m.free, st);
    ThreeSeen(l, h, m, x, w, g, gd, SbBytes(l, m.sb, m.free, st), m.free, v.bits, v.gdt);
  }

  /** `gdt_flush`, as directory creation uses it: the descriptor block alone. */
  function FlushOp(l: Layout, m: Mem, g: nat, gd: Block): (Op, Mem)
    requires LayoutOk(l)
  {
    ([(GdtBlock(l, g), gd)], m.(gdt := m.gdt[GdtBlock(l, g) := gd]))
  }

  lemma AppliedOne(h: Image, op: Op)
    requires |op| == 1
    ensures Apply(h, op) == h[op[0].0 := op[0].1]
  {
    var none: Op := op[1..];
    assert none == [];
  }

  /** It writes the descriptors in memory to disk, and leaves the global count there. */
  lemma FlushSeen(l: Layout, h: Image, m: Mem, g: nat, gd: Block)
    requires LayoutOk(l) && MetaOk(l, h) && MemOk(l, m) && FlushOk(l, m, g, gd)
    ensures var (op, m') := FlushOp(l, m, g, gd);
            var v := Seen(l, h, m);
            && MetaOk(l, Apply(h, op)) && MemOk(l, m')
            && Seen(l, Apply(h, op), m') == v.(gdtDisk := A.Synced(l.geo, v.gdtDisk, v.gdt, g))
  {
    hide IsGdt, GdtBlock, GdtOff, DescIn, FreeIn, A.GroupCount, A.GeoOk, A.Synced, Bits.Flags, Apply;
    var (op, m') := FlushOp(l, m, g, gd);
    var h', v := Apply(h, op), Seen(l, h, m);
    AppliedOne(h, op);
    GdtKnown(l, g);
    forall k | 0 <= k < |l.bitmaps|
      ensures Sized(h', l.bitmaps[k], l.geo.bs) && Sized(h', GdtBlock(l, k), l.geo.bs)
      ensures h'[l.bitmaps[k]] == h[l.bitmaps[k]]
      ensures h'[GdtBlock(l, k)] == (if GdtBlock(l, k) == GdtBlock(l, g) then gd else h[GdtBlock(l, k)])
    {
      GdtKnown(l, k);
    }
    assert MetaOk(l, h') && MemOk(l, m');
    var r := Seen(l, h', m');
    forall k | 0 <= k < |l.bitmaps|
      ensures r.bits[k] == v.bits[k] && r.gdt[k] == v.gdt[k]
      ensures r.gdtDisk[k] == A.Synced(l.geo, v.gdtDisk, v.gdt, g)[k]
    {
      SyncedAt(l, v.gdtDisk, v.gdt, g, k);
    }
    assert r.bits == v.bits && r.gdt == v.gdt && r.gdtDisk == A.Synced(l.geo, v.gdtDisk, v.gdt, g);
  }
}
