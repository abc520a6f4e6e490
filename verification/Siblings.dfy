/** The two allocators of one volume keep out of each other's fields: what one of them commits is a
    transaction of the sibling for the other, and every byte that the code does not name stays
    (kernel/fs/ext4.c:350-366, 413-492, 523-541, 587-614, 657-686, 1703-1707). */
module Siblings {
  import opened Words
  import opened Bytes
  import opened Bits
  import opened Journal
  import opened VolumeBytes
  import A = Allocator

  // ----- the fields of a descriptor

  /** Byte p lies in the two bytes from o on. */
  predicate InWord(o: nat, p: nat) { o <= p < o + 2 }

  /** Byte p lies in the field with its low half at lo and, in long descriptors, its high half at hi. */
  predicate InPair(l: Layout, off: nat, lo: nat, hi: nat, p: nat) {
    InWord(off + lo, p) || (l.geo.descSize > 32 && InWord(off + hi, p))
  }

  /** The fields that an allocation or release names in the descriptor at off. */
  predicate Named(l: Layout, off: nat, st: Stamp, p: nat) {
    match l.kind
    case Blocks =>
      || InPair(l, off, 0x0C, 0x2C, p)
      || (l.csum && (InPair(l, off, 0x18, 0x38, p) || InWord(off + 0x1E, p)))
    case Inodes =>
      || InPair(l, off, 0x0E, 0x2E, p) || InPair(l, off, 0x1C, 0x32, p)
      || (st.dirs.Some? && InPair(l, off, 0x10, 0x30, p))
      || (l.csum && (InPair(l, off, 0x1A, 0x3A, p) || InWord(off + 0x1E, p)))
  }

  lemma Set16Byte(b: Block, o: nat, v: nat, p: nat)
    requires o + 2 <= |b| && p < |b| && !InWord(o, p)
    ensures Set16(b, o, v)[p] == b[p]
  {
    hide PutLe16;
  }

  lemma SetPairByte(l: Layout, b: Block, off: nat, lo: nat, hi: nat, v: nat, p: nat)
    requires DescSized(l) && off + l.geo.descSize <= |b| && lo + 2 <= 32 <= hi && hi + 2 <= 64
    requires p < |b| && !InPair(l, off, lo, hi, p)
    ensures SetPair(l, b, off, lo, hi, v)[p] == b[p]
  {
    hide Set16;
    Set16Byte(b, off + lo, v, p);
    if l.geo.descSize > 32 {
      Set16Byte(Set16(b, off + lo, v), off + hi, v / U16, p);
    }
  }

  /** Every byte of the descriptor block outside the named fields stays. */
  lemma DescBytesKeep(l: Layout, b: Block, off: nat, n: nat, st: Stamp, p: nat)
    requires DescSized(l) && off + l.geo.descSize <= |b| && p < |b| && !Named(l, off, st, p)
    ensures DescBytes(l, b, off, n, st)[p] == b[p]
  {
    hide SetPair, Set16, InWord, InPair;
    var lo, hi := if l.kind == Blocks then 0x18 else 0x1A, if l.kind == Blocks then 0x38 else 0x3A;
    var summed := if l.csum then SetPair(l, b, off, lo, hi, st.bm) else b;
    if l.csum {
      SetPairByte(l, b, off, lo, hi, st.bm, p);
    }
    SetPairByte(l, summed, off, CountLo(l.kind), CountHi(l.kind), n, p);
    var counted := Counted(l, b, off, n, st);
    var all := if l.kind == Inodes then InodeFields(l, counted, off, st) else counted;
    if l.kind == Inodes {
      SetPairByte(l, counted, off, 0x1C, 0x32, st.unused, p);
      if st.dirs.Some? {
        SetPairByte(l, SetPair(l, counted, off, 0x1C, 0x32, st.unused), off, 0x10, 0x30, st.dirs.value, p);
      }
    }
    if l.csum {
      Set16Byte(all, off + 0x1E, st.desc, p);
    }
  }

  lemma SameWord(a: Block, b: Block, p: nat)
    requires |a| == |b| && p + 2 <= |a| && a[p] == b[p] && a[p + 1] == b[p + 1]
    ensures Le16(a, p) == Le16(b, p)
  {
    hide Word;
  }

  /** So a word of two bytes that are not named keeps its value. */
  lemma DescBytesWord(l: Layout, b: Block, off: nat, n: nat, st: Stamp, p: nat)
    requires DescSized(l) && off + l.geo.descSize <= |b| && p + 2 <= |b|
    requires !Named(l, off, st, p) && !Named(l, off, st, p + 1)
    ensures Le16(DescBytes(l, b, off, n, st), p) == Le16(b, p)
  {
    hide DescBytes, Named, Le16;
    DescBytesKeep(l, b, off, n, st, p);
    DescBytesKeep(l, b, off, n, st, p + 1);
    SameWord(DescBytes(l, b, off, n, st), b, p);
  }

  /** The value of the field with its low half at lo and its high half at hi. */
  function Pair(l: Layout, b: Block, off: nat, lo: nat, hi: nat): nat
    requires DescSized(l) && off + l.geo.descSize <= |b| && lo + 2 <= 32 <= hi && hi + 2 <= 64
  {
    Le16(b, off + lo) + if l.geo.descSize > 32 then Le16(b, off + hi) * U16 else 0
  }

  /** As much of a value as the field holds. */
  function Held(l: Layout, v: nat): nat { if l.geo.descSize > 32 then v % U32 else v % U16 }

  lemma SetPairPair(l: Layout, b: Block, off: nat, lo: nat, hi: nat, v: nat, lo': nat, hi': nat)
    requires DescSized(l) && off + l.geo.descSize <= |b| && lo + 2 <= 32 <= hi && hi + 2 <= 64
    requires lo' + 2 <= 32 <= hi' && hi' + 2 <= 64
    requires (lo' == lo && hi' == hi) || (Apart(lo', lo) && Apart(hi', hi))
    ensures Pair(l, SetPair(l, b, off, lo, hi, v), off, lo', hi') ==
            if lo' == lo then Held(l, v) else Pair(l, b, off, lo', hi')
  {
    hide Le16, SetPair;
    SetPairReads(l, b, off, lo, hi, v, off + lo');
    if l.geo.descSize > 32 {
      SetPairReads(l, b, off, lo, hi, v, off + hi');
      Halves(v);
    }
  }

  lemma Halves(v: nat)
    ensures v % U16 + v / U16 % U16 * U16 == v % U32
  {
  }

  lemma Set16Pair(l: Layout, b: Block, off: nat, o: nat, v: nat, lo: nat, hi: nat)
    requires DescSized(l) && off + l.geo.descSize <= |b| && lo + 2 <= 32 <= hi && hi + 2 <= 64
    requires o + 2 <= 32 && Apart(lo, o)
    ensures Pair(l, Set16(b, off + o, v), off, lo, hi) == Pair(l, b, off, lo, hi)
  {
    hide Le16, Set16;
    Set16Reads(b, off + o, v, off + lo);
    if l.geo.descSize > 32 {
      Set16Reads(b, off + o, v, off + hi);
    }
  }

  /** And every named field gets its value. */
  lemma DescBytesStores(l: Layout, b: Block, off: nat, n: nat, st: Stamp)
    requires DescSized(l) && off + l.geo.descSize <= |b|
    ensures var r := DescBytes(l, b, off, n, st);
            && (l.csum ==> Le16(r, off + 0x1E) == st.desc % U16)
            && (l.kind == Blocks ==>
                  && Pair(l, r, off, 0x0C, 0x2C) == Held(l, n)
                  && (l.csum ==> Pair(l, r, off, 0x18, 0x38) == Held(l, st.bm)))
            && (l.kind == Inodes ==>
                  && Pair(l, r, off, 0x0E, 0x2E) == Held(l, n) && Pair(l, r, off, 0x1C, 0x32) == Held(l, st.unused)
                  && (st.dirs.Some? ==> Pair(l, r, off, 0x10, 0x30) == Held(l, st.dirs.value))
                  && (l.csum ==> Pair(l, r, off, 0x1A, 0x3A) == Held(l, st.bm)))
  {
    hide Le16, Set16, SetPair, Pair, Held;
    CountedStores(l, b, off, n, st);
    var counted := Counted(l, b, off, n, st);
    var all := counted;
    if l.kind == Inodes {
      InodeStores(l, counted, off, st);
      all := InodeFields(l, counted, off, st);
    }
    if l.csum {
      Set16Reads(all, off + 0x1E, st.desc, off + 0x1E);
      if l.kind == Blocks {
        Set16Pair(l, all, off, 0x1E, st.desc, 0x0C, 0x2C);
        Set16Pair(l, all, off, 0x1E, st.desc, 0x18, 0x38);
      } else {
        Set16Pair(l, all, off, 0x1E, st.desc, 0x0E, 0x2E);
        Set16Pair(l, all, off, 0x1E, st.desc, 0x1C, 0x32);
        Set16Pair(l, all, off, 0x1E, st.desc, 0x10, 0x30);
        Set16Pair(l, all, off, 0x1E, st.desc, 0x1A, 0x3A);
      }
    }
  }

  lemma CountedStores(l: Layout, b: Block, off: nat, n: nat, st: Stamp)
    requires DescSized(l) && off + l.geo.descSize <= |b|
    ensures var r := Counted(l, b, off, n, st);
            && Pair(l, r, off, CountLo(l.kind), CountHi(l.kind)) == Held(l, n)
            && (l.csum && l.kind == Blocks ==> Pair(l, r, off, 0x18, 0x38) == Held(l, st.bm))
            && (l.csum && l.kind == Inodes ==> Pair(l, r, off, 0x1A, 0x3A) == Held(l, st.bm))
  {
    hide Le16, Set16, SetPair, Pair, Held;
    var lo, hi := if l.kind == Blocks then 0x18 else 0x1A, if l.kind == Blocks then 0x38 else 0x3A;
    var summed := if l.csum then SetPair(l, b, off, lo, hi, st.bm) else b;
    SetPairPair(l, b, off, lo, hi, st.bm, lo, hi);
    SetPairPair(l, summed, off, CountLo(l.kind), CountHi(l.kind), n, lo, hi);
    SetPairPair(l, summed, off, CountLo(l.kind), CountHi(l.kind), n, CountLo(l.kind), CountHi(l.kind));
  }

  lemma InodeStores(l: Layout, b: Block, off: nat, st: Stamp)
    requires DescSized(l) && off + l.geo.descSize <= |b|
    ensures var r := InodeFields(l, b, off, st);
            && Pair(l, r, off, 0x1C, 0x32) == Held(l, st.unused)
            && (st.dirs.Some? ==> Pair(l, r, off, 0x10, 0x30) == Held(l, st.dirs.value))
            && Pair(l, r, off, 0x0E, 0x2E) == Pair(l, b, off, 0x0E, 0x2E)
            && Pair(l, r, off, 0x1A, 0x3A) == Pair(l, b, off, 0x1A, 0x3A)
  {
    hide Le16, Set16, SetPair, Pair, Held;
    var tail := SetPair(l, b, off, 0x1C, 0x32, st.unused);
    SetPairPair(l, b, off, 0x1C, 0x32, st.unused, 0x1C, 0x32);
    SetPairPair(l, b, off, 0x1C, 0x32, st.unused, 0x0E, 0x2E);
    SetPairPair(l, b, off, 0x1C, 0x32, st.unused, 0x1A, 0x3A);
    if st.dirs.Some? {
      SetPairPair(l, tail, off, 0x10, 0x30, st.dirs.value, 0x10, 0x30);
      SetPairPair(l, tail, off, 0x10, 0x30, st.dirs.value, 0x1C, 0x32);
      SetPairPair(l, tail, off, 0x10, 0x30, st.dirs.value, 0x0E, 0x2E);
      SetPairPair(l, tail, off, 0x10, 0x30, st.dirs.value, 0x1A, 0x3A);
    }
  }

  // ----- two layouts of one volume

  /** The same volume seen by the other allocator. */
  predicate Twins(l: Layout, k: Layout) {
    && l.kind != k.kind && LayoutOk(l) && LayoutOk(k)
    && k.geo.bs == l.geo.bs && k.geo.descSize == l.geo.descSize && |k.bitmaps| == |l.bitmaps|
    && k.gdt == l.gdt && k.sb == l.sb && k.sbOff == l.sbOff && k.csum == l.csum && k.blocks == l.blocks
    && forall x | x in l.bitmaps :: x !in k.bitmaps
  }

  /** The descriptors that the sibling sees are as before, its own and all others. */
  lemma TwinDesc(l: Layout, k: Layout, b: Block, off: nat, n: nat, st: Stamp, o: nat)
    requires Twins(l, k) && off + l.geo.descSize <= |b| && o + l.geo.descSize <= |b|
    requires o == off || o + l.geo.descSize <= off || off + l.geo.descSize <= o
    ensures DescIn(k, DescBytes(l, b, off, n, st), o) == DescIn(k, b, o)
  {
    hide DescBytes, Le16, LayoutOk, Bit;
    assert DescSized(l) by { Sizes(l); }
    DescBytesWord(l, b, off, n, st, o + CountLo(k.kind));
    DescBytesWord(l, b, off, n, st, o + 0x12);
    if l.geo.descSize > 32 {
      DescBytesWord(l, b, off, n, st, o + CountHi(k.kind));
    }
  }

  lemma Sizes(l: Layout)
    requires LayoutOk(l)
    ensures DescSized(l) && A.GeoOk(l.geo)
  {
  }

  lemma TwinBlocks(l: Layout, k: Layout, g: nat)
    requires Twins(l, k)
    ensures l.geo.bs > 0 && GdtBlock(l, g) == GdtBlock(k, g) && GdtOff(l, g) == GdtOff(k, g)
  {
  }

  lemma TwinGdt(l: Layout, k: Layout, b: nat)
    requires Twins(l, k)
    ensures IsGdt(l, b) <==> IsGdt(k, b)
  {
    hide GdtBlock, A.Groups;
    forall g ensures GdtBlock(l, g) == GdtBlock(k, g) {
      TwinBlocks(l, k, g);
    }
    assert A.Groups(l.geo) == A.Groups(k.geo);
  }

  /** An allocation or release of one allocator, with the sibling's count in the superblock, is a
      transaction of the sibling for the other: it leaves the other's counts, flags and bitmaps alone. */
  lemma MarkIsSibling(l: Layout, k: Layout, h: Image, m: Mem, mk: Mem, b: nat, used: bool, st: Stamp)
    requires Twins(l, k) && MetaOk(l, h) && MetaOk(k, h) && MemOk(l, m) && MemOk(k, mk)
    requires mk.gdt == m.gdt && mk.sb == m.sb && mk.free == st.other && l.geo.first <= b < l.geo.total
    ensures var (op, m') := MarkOp(l, h, m, b, used, st);
            var g := A.GroupOf(l.geo, b);
            && g < |l.bitmaps| && GdtBlock(l, g) in m'.gdt && |op| == 3
            && var x, w, gd, t := l.bitmaps[g], op[0].1, m'.gdt[GdtBlock(l, g)], st.(other := m'.free);
            && SiblingOk(k, mk, x, w, g, gd)
            && SiblingOp(k, h, mk, x, w, g, gd, t) == (op, m'.(free := mk.free))
  {
    hide IsGdt, GdtBlock, GdtOff, DescIn, FreeIn, DescBytes, SbBytes, BitmapBytes, A.Count, A.Bump, A.GroupOf, A.BitOf,
         A.GroupCount, A.GeoOk;
    A.BlockPlace(l.geo, b);
    var g, i := A.GroupOf(l.geo, b), A.BitOf(l.geo, b);
    DescWithin(l, g);
    TwinBlocks(l, k, g);
    var x := l.bitmaps[g];
    TwinGdt(l, k, x);
    TwinSuper(l, k, m.sb, A.Bump(m.free, used), mk.free, st);
    var n := A.Bump(A.Count(l.geo, MemDesc(l, m, g)), used);
    var gd := DescBytes(l, m.gdt[GdtBlock(l, g)], GdtOff(l, g), n, st);
    forall j | 0 <= j < |k.bitmaps| && GdtBlock(k, j) == GdtBlock(k, g)
      ensures (DescWithin(k, j); DescIn(k, gd, GdtOff(k, j)) == MemDesc(k, mk, j))
    {
      DescWithin(k, j);
      TwinBlocks(l, k, j);
      if j != g {
        OffsApart(l, g, j);
      }
      TwinDesc(l, k, m.gdt[GdtBlock(l, g)], GdtOff(l, g), n, st, GdtOff(l, j));
    }
  }

  // ----- the superblock

  /** Both allocators write the same superblock. */
  lemma TwinSuper(l: Layout, k: Layout, sb: Block, free: nat, other: nat, st: Stamp)
    requires Twins(l, k) && |sb| == SUPER && st.other == other
    ensures SbBytes(k, sb, other, st.(other := free)) == SbBytes(l, sb, free, st)
  {
    hide Set32, LayoutOk;
  }

  /** The fields that `ext4_sb_sync` names. */
  predicate SuperNamed(l: Layout, p: nat) {
    || InLong(0x04, p) || InLong(0x0C, p) || InLong(0x10, p) || InLong(0x44, p) || InLong(0x150, p) || InLong(0x158, p)
    || (l.csum && InLong(0x3FC, p))
  }

  predicate InLong(o: nat, p: nat) { o <= p < o + 4 }

  lemma Set32Byte(b: Block, o: nat, v: nat, p: nat)
    requires o + 4 <= |b| && p < |b| && !InLong(o, p)
    ensures Set32(b, o, v)[p] == b[p]
  {
    hide PutLe32;
  }

  /** Every other byte stays, and the sibling's count and the number of blocks are the ones given. */
  lemma SbBytesKeep(l: Layout, sb: Block, free: nat, st: Stamp, p: nat)
    requires |sb| == SUPER && p < SUPER && !SuperNamed(l, p)
    ensures SbBytes(l, sb, free, st)[p] == sb[p]
  {
    hide Set32, InLong;
    var (blocks, inodes) := if l.kind == Blocks then (free, st.other) else (st.other, free);
    var a := Set32(sb, 0x0C, blocks);
    var s1 := Set32(a, 0x158, 0);
    var c := Set32(s1, 0x10, inodes);
    var s2 := Set32(c, 0x04, l.blocks);
    var e := Set32(s2, 0x150, 0);
    var s3 := Set32(e, 0x44, st.time);
    Set32Byte(sb, 0x0C, blocks, p);
    Set32Byte(a, 0x158, 0, p);
    Set32Byte(s1, 0x10, inodes, p);
    Set32Byte(c, 0x04, l.blocks, p);
    Set32Byte(s2, 0x150, 0, p);
    Set32Byte(e, 0x44, st.time, p);
    if l.csum {
      Set32Byte(s3, 0x3FC, st.super, p);
    }
  }

  lemma SbBytesOther(l: Layout, k: Layout, sb: Block, free: nat, st: Stamp)
    requires Twins(l, k) && |sb| == SUPER && free < U32 && st.other < U32
    ensures Le32(SbBytes(l, sb, free, st), SuperCount(k.kind)) == st.other
    ensures Le32(SbBytes(l, sb, free, st), SuperCount(l.kind)) == free
  {
    hide SbBytes, LayoutOk, Le32;
    TwinSuper(l, k, sb, free, st.other, st);
    SbBytesRead(l, sb, free, st);
    SbBytesRead(k, sb, st.other, st.(other := free));
  }

  // ----- directory creation

  /** The descriptor after `gd_set16` of the number of directories and `gdt_csum_set`. */
  function DirsBytes(l: Layout, b: Block, off: nat, dirs: nat, csum: nat): (r: Block)
    requires DescSized(l) && off + l.geo.descSize <= |b|
    ensures |r| == |b|
  {
    var counted := SetPair(l, b, off, 0x10, 0x30, dirs);
    if l.csum then Set16(counted, off + 0x1E, csum) else counted
  }

  /** The descriptor block that directory creation stores alone has the counts and flags of memory. */
  lemma DirsIsFlush(l: Layout, m: Mem, g: nat, dirs: nat, csum: nat)
    requires LayoutOk(l) && MemOk(l, m) && g < |l.bitmaps|
    ensures (DescWithin(l, g);
             FlushOk(l, m, g, DirsBytes(l, m.gdt[GdtBlock(l, g)], GdtOff(l, g), dirs, csum)))
  {
    hide IsGdt, GdtBlock, GdtOff, DescIn, DirsBytes, A.GeoOk;
    DescWithin(l, g);
    forall j | 0 <= j < |l.bitmaps| && GdtBlock(l, j) == GdtBlock(l, g)
      ensures (DescWithin(l, j);
               DescIn(l, DirsBytes(l, m.gdt[GdtBlock(l, g)], GdtOff(l, g), dirs, csum), GdtOff(l, j)) ==
                 MemDesc(l, m, j))
    {
      DescWithin(l, j);
      if j != g {
        OffsApart(l, g, j);
      }
      DirsKeep(l, m.gdt[GdtBlock(l, g)], GdtOff(l, g), dirs, csum, GdtOff(l, j));
    }
  }

  lemma DirsKeep(l: Layout, b: Block, off: nat, dirs: nat, csum: nat, o: nat)
    requires DescSized(l) && off + l.geo.descSize <= |b| && o + l.geo.descSize <= |b|
    requires o == off || o + l.geo.descSize <= off || off + l.geo.descSize <= o
    ensures DescIn(l, DirsBytes(l, b, off, dirs, csum), o) == DescIn(l, b, o)
  {
    hide DirsBytes, Le16, Bit;
    DirsWord(l, b, off, dirs, csum, o + CountLo(l.kind));
    DirsWord(l, b, off, dirs, csum, o + 0x12);
    if l.geo.descSize > 32 {
      DirsWord(l, b, off, dirs, csum, o + CountHi(l.kind));
    }
  }

  lemma DirsWord(l: Layout, b: Block, off: nat, dirs: nat, csum: nat, p: nat)
    requires DescSized(l) && off + l.geo.descSize <= |b| && p + 2 <= |b|
    requires Apart(p, off + 0x10) && Apart(p, off + 0x1E) && (l.geo.descSize > 32 ==> Apart(p, off + 0x30))
    ensures Le16(DirsBytes(l, b, off, dirs, csum), p) == Le16(b, p)
  {
    hide Le16, Set16, SetPair;
    SetPairReads(l, b, off, 0x10, 0x30, dirs, p);
    Set16Reads(SetPair(l, b, off, 0x10, 0x30, dirs), off + 0x1E, csum, p);
  }
}
