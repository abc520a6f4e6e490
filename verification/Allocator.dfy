/** The block allocator: per-group bitmaps, the free count of each group kept in two halves of
    its descriptor, the global free count, and the copies of all three that every call commits
    (kernel/fs/ext4.c:350-366, 395-411, 495-617). */
module Allocator {
  import opened Words
  import opened Bits
  import opened Division

  const GDT_MAX := 64

  /** first: `first_data_block`; perGroup: `blocks_per_group`; descSize: `desc_size`. */
  datatype Geo = Geo(first: nat, total: nat, perGroup: nat, bs: nat, descSize: nat)

  /** What `ext4_init` accepts, for bitmaps of one block and descriptors that do not straddle blocks. */
  predicate GeoOk(geo: Geo) {
    && 1024 <= geo.bs <= 4096 && 0 < geo.perGroup <= 8 * geo.bs
    && geo.first < geo.total < U32 && geo.descSize > 0 && geo.bs % geo.descSize == 0
    && Groups(geo) <= GDT_MAX
  }

  /** `n_groups`. */
  function Groups(geo: Geo): nat
    requires geo.perGroup > 0 && geo.first < geo.total
  {
    (geo.total - geo.first + geo.perGroup - 1) / geo.perGroup
  }

  function GroupFirst(geo: Geo, g: nat): nat { geo.first + g * geo.perGroup }

  /** `group_block_count`. */
  function GroupCount(geo: Geo, g: nat): (n: nat)
    ensures n <= geo.perGroup
  {
    if GroupFirst(geo, g) >= geo.total then 0 else Min(geo.perGroup, geo.total - GroupFirst(geo, g))
  }

  function GroupOf(geo: Geo, b: nat): nat
    requires geo.perGroup > 0 && geo.first <= b
  {
    (b - geo.first) / geo.perGroup
  }

  function BitOf(geo: Geo, b: nat): nat
    requires geo.perGroup > 0 && geo.first <= b
  {
    (b - geo.first) % geo.perGroup
  }

  /** Every block of the volume has one group and one bit in it. */
  lemma BlockPlace(geo: Geo, b: nat)
    requires GeoOk(geo) && geo.first <= b < geo.total
    ensures GroupOf(geo, b) < Groups(geo) && BitOf(geo, b) < GroupCount(geo, GroupOf(geo, b))
    ensures GroupFirst(geo, GroupOf(geo, b)) + BitOf(geo, b) == b
  {
    PlaceIn(b - geo.first, geo.total - geo.first, geo.perGroup);
  }

  lemma PlaceIn(x: nat, n: nat, p: nat)
    requires x < n && p > 0
    ensures x / p < (n + p - 1) / p && x / p * p + x % p == x
  {
    var g := x / p;
    assert (g + 1) * p == g * p + p;
    DivBelow(n + p - 1, p, g);
  }

  /** Each bit of a group is a block of the volume, and those blocks differ. */
  lemma BitPlace(geo: Geo, g: nat, i: nat)
    requires GeoOk(geo) && i < GroupCount(geo, g)
    ensures var b := GroupFirst(geo, g) + i;
            geo.first <= b < geo.total && GroupOf(geo, b) == g && BitOf(geo, b) == i
  {
    DivModIs(g, geo.perGroup, i);
  }

  // ----- group descriptors

  /** `bg_free_blocks_count` in halves, and the BLOCK_UNINIT flag. */
  datatype Desc = Desc(lo: nat, hi: nat, uninit: bool)

  predicate DescOk(d: Desc) { d.lo < U16 && d.hi < U16 }

  /** `gd_free_blocks`. */
  function Count(geo: Geo, d: Desc): nat {
    if geo.descSize > 32 then BitOr(d.lo, d.hi * U16) else d.lo
  }

  /** `gd_set16` on the free count. */
  function SetCount(geo: Geo, d: Desc, v: nat): Desc {
    if geo.descSize > 32 then d.(lo := v % U16, hi := v / U16) else d.(lo := v % U16)
  }

  lemma CountIs(geo: Geo, d: Desc)
    requires DescOk(d)
    ensures Count(geo, d) == if geo.descSize > 32 then d.lo + d.hi * U16 else d.lo
  {
    if geo.descSize > 32 {
      var p := d.lo + d.hi * U16;
      assert p % U16 == d.lo && p / U16 == d.hi;
      HalvesRejoin(p);
    }
  }

  /** The halves hold every count a group can have, and setting it back restores the descriptor. */
  lemma CountRoundTrip(geo: Geo, d: Desc, v: nat)
    requires DescOk(d) && v < U16
    ensures DescOk(SetCount(geo, d, v)) && Count(geo, SetCount(geo, d, v)) == v
    ensures SetCount(geo, SetCount(geo, d, v), Count(geo, d)) == d
  {
    CountIs(geo, d);
    CountIs(geo, SetCount(geo, d, v));
  }

  // ----- the volume

  /** bits: the committed bitmaps; gdt, free: in memory; gdtDisk, freeDisk: committed. */
  datatype Vol = Vol(bits: seq<seq<bool>>, gdt: seq<Desc>, free: nat, gdtDisk: seq<Desc>, freeDisk: nat)

  function Sum(geo: Geo, gdt: seq<Desc>): nat {
    if gdt == [] then 0 else Sum(geo, gdt[..|gdt| - 1]) + Count(geo, gdt[|gdt| - 1])
  }

  predicate Shape(geo: Geo, v: Vol)
    requires GeoOk(geo)
  {
    && |v.bits| == |v.gdt| == Groups(geo)
    && (forall g | 0 <= g < Groups(geo) :: |v.bits[g]| == GroupCount(geo, g) && DescOk(v.gdt[g]))
  }

  /** What the descriptor of a group must say. An uninitialised group only has to leave room for
      the blocks that could still be freed into it. */
  predicate GroupOk(geo: Geo, f: seq<bool>, d: Desc) {
    && (!d.uninit ==> Count(geo, d) == Clear(f))
    && Count(geo, d) + (|f| - Clear(f)) < U16
  }

  predicate Inv(geo: Geo, v: Vol)
    requires GeoOk(geo)
  {
    && Shape(geo, v)
    && (forall g | 0 <= g < Groups(geo) :: GroupOk(geo, v.bits[g], v.gdt[g]))
    && v.free == Sum(geo, v.gdt)
    && v.gdtDisk == v.gdt && v.freeDisk == v.free
    && (geo.first == 0 ==> Used(geo, v, 0))
  }

  predicate Used(geo: Geo, v: Vol, b: nat)
    requires GeoOk(geo) && Shape(geo, v)
  {
    && geo.first <= b < geo.total
    && (BlockPlace(geo, b);
        v.bits[GroupOf(geo, b)][BitOf(geo, b)])
  }

  /** Clear in a group the allocator looks at. */
  predicate Free(geo: Geo, v: Vol, b: nat)
    requires GeoOk(geo) && Shape(geo, v)
  {
    && geo.first <= b < geo.total
    && (BlockPlace(geo, b);
        !v.gdt[GroupOf(geo, b)].uninit && !v.bits[GroupOf(geo, b)][BitOf(geo, b)])
  }

  /** A free block is a block of the volume that is not in use. */
  lemma FreeBlock(geo: Geo, v: Vol, b: nat)
    requires GeoOk(geo) && Shape(geo, v) && Free(geo, v, b)
    ensures b < U32 && !Used(geo, v, b)
  {
  }

  /** The descriptor blocks after committing the one that holds group g. */
  function Synced(geo: Geo, disk: seq<Desc>, mem: seq<Desc>, g: nat): (r: seq<Desc>)
    requires GeoOk(geo) && |disk| == |mem|
    ensures |r| == |mem|
  {
    seq(|mem|, k requires 0 <= k < |mem| =>
      if k * geo.descSize / geo.bs == g * geo.descSize / geo.bs then mem[k] else disk[k])
  }

  lemma SyncedAll(geo: Geo, gdt: seq<Desc>, g: nat, d: Desc)
    requires GeoOk(geo) && g < |gdt|
    ensures Synced(geo, gdt, gdt[g := d], g) == gdt[g := d]
  {
  }

  /** A 32-bit counter after taking (used) or giving back one block. */
  function Bump(n: nat, used: bool): nat {
    if used then (if n == 0 then U32 - 1 else n - 1) else Add32(n, 1)
  }

  /** The state after committing flag and counts of block b. */
  function Mark(geo: Geo, v: Vol, b: nat, used: bool): Vol
    requires GeoOk(geo) && Shape(geo, v) && |v.gdtDisk| == |v.gdt| && geo.first <= b < geo.total
  {
    BlockPlace(geo, b);
    var g, i := GroupOf(geo, b), BitOf(geo, b);
    var gdt := v.gdt[g := SetCount(geo, v.gdt[g], Bump(Count(geo, v.gdt[g]), used))];
    var free := Bump(v.free, used);
    Vol(v.bits[g := v.bits[g][i := used]], gdt, free, Synced(geo, v.gdtDisk, gdt, g), free)
  }

  // ----- what the calls promise

  lemma {:induction false} SumSet(geo: Geo, gdt: seq<Desc>, g: nat, d: Desc)
    requires g < |gdt|
    ensures Sum(geo, gdt[g := d]) == Sum(geo, gdt) - Count(geo, gdt[g]) + Count(geo, d)
    ensures Count(geo, gdt[g]) <= Sum(geo, gdt)
  {
    var n := |gdt| - 1;
    if g < n {
      assert gdt[g := d][..n] == gdt[..n][g := d];
      SumSet(geo, gdt[..n], g, d);
    } else {
      assert gdt[g := d][..n] == gdt[..n];
    }
  }

  lemma {:induction false} SumBound(geo: Geo, gdt: seq<Desc>)
    requires forall k | 0 <= k < |gdt| :: Count(geo, gdt[k]) < U16
    ensures Sum(geo, gdt) <= |gdt| * U16
  {
    if gdt != [] {
      SumBound(geo, gdt[..|gdt| - 1]);
    }
  }

  lemma FreeBound(geo: Geo, v: Vol)
    requires GeoOk(geo) && Inv(geo, v)
    ensures v.free < U32 - 1
  {
    forall k | 0 <= k < |v.gdt| ensures Count(geo, v.gdt[k]) < U16 {
      assert GroupOk(geo, v.bits[k], v.gdt[k]);
    }
    SumBound(geo, v.gdt);
  }

  /** Only the bit of b changes, and the other groups keep their descriptors. */
  lemma MarkBits(geo: Geo, v: Vol, b: nat, c: nat)
    requires GeoOk(geo) && Shape(geo, v) && |v.gdtDisk| == |v.gdt|
    requires geo.first <= b < geo.total && geo.first <= c < geo.total && c != b
    ensures GroupOf(geo, c) != GroupOf(geo, b) || BitOf(geo, c) != BitOf(geo, b)
  {
    BlockPlace(geo, b);
    BlockPlace(geo, c);
  }

  /** Descriptor d, set to n, says what flags f require. */
  predicate Counts(geo: Geo, f: seq<bool>, d: Desc, n: nat) {
    var d' := SetCount(geo, d, n);
    DescOk(d') && Count(geo, d') == n && GroupOk(geo, f, d')
  }

  /** Changing one flag of a group and its count by one keeps the group's promise. */
  lemma GroupMark(geo: Geo, f: seq<bool>, d: Desc, i: nat)
    requires GroupOk(geo, f, d) && DescOk(d) && i < |f|
    ensures !f[i] && !d.uninit ==> Count(geo, d) > 0 && Counts(geo, f[i := true], d, Bump(Count(geo, d), true))
    ensures f[i] ==> Bump(Count(geo, d), false) == Count(geo, d) + 1 && Counts(geo, f[i := false], d, Count(geo, d) + 1)
  {
    if f[i] {
      var f' := f[i := false];
      assert f'[i := true] == f;
      ClearSet(f', i);
      CountRoundTrip(geo, d, Count(geo, d) + 1);
    } else if !d.uninit {
      ClearSet(f, i);
      ClearNone(f);
      CountRoundTrip(geo, d, Count(geo, d) - 1);
    }
  }

  /** Taking a free block: the counts stay exact and the copies agree. */
  lemma TakeKeepsInv(geo: Geo, v: Vol, b: nat)
    requires GeoOk(geo) && Inv(geo, v) && Free(geo, v, b)
    ensures Inv(geo, Mark(geo, v, b, true))
  {
    hide Synced, Count, SetCount, Clear, Sum, GroupOk, GroupOf, BitOf, GroupCount, Groups;
    BlockPlace(geo, b);
    var g, i := GroupOf(geo, b), BitOf(geo, b);
    GroupMark(geo, v.bits[g], v.gdt[g], i);
    var d := SetCount(geo, v.gdt[g], Bump(Count(geo, v.gdt[g]), true));
    SumSet(geo, v.gdt, g, d);
    SyncedAll(geo, v.gdt, g, d);
    if geo.first == 0 {
      BlockPlace(geo, 0);
      assert Used(geo, Mark(geo, v, b, true), 0);
    }
  }

  /** Exactly the taken block is no longer free, and exactly it is newly in use. */
  lemma TakeFrees(geo: Geo, v: Vol, b: nat, c: nat)
    requires GeoOk(geo) && Inv(geo, v) && Free(geo, v, b)
    requires Inv(geo, Mark(geo, v, b, true))
    ensures Free(geo, Mark(geo, v, b, true), c) <==> Free(geo, v, c) && c != b
    ensures Used(geo, Mark(geo, v, b, true), c) <==> Used(geo, v, c) || c == b
  {
    hide Synced, Count, Clear, Sum, GroupOk, GroupOf, BitOf, GroupCount, Groups;
    BlockPlace(geo, b);
    if geo.first <= c < geo.total {
      BlockPlace(geo, c);
      if c != b {
        MarkBits(geo, v, b, c);
      }
    }
  }

  /** `ext4_free_block`. */
  function Give(geo: Geo, v: Vol, b: nat): Vol
    requires GeoOk(geo) && Shape(geo, v) && |v.gdtDisk| == |v.gdt|
  {
    if b == 0 || b >= geo.total || b < geo.first || !Used(geo, v, b) then v else Mark(geo, v, b, false)
  }

  /** Freeing, whatever the argument: the counts stay exact, and only b can become free. */
  lemma GiveKeepsInv(geo: Geo, v: Vol, b: nat)
    requires GeoOk(geo) && Inv(geo, v)
    ensures Inv(geo, Give(geo, v, b))
    ensures forall c :: Used(geo, Give(geo, v, b), c) <==> Used(geo, v, c) && (c != b || b == 0)
  {
    hide Synced, Count, SetCount, Clear, Sum, GroupOk, GroupOf, BitOf, GroupCount, Groups;
    var w := Give(geo, v, b);
    if b != 0 && Used(geo, v, b) {
      BlockPlace(geo, b);
      var g, i := GroupOf(geo, b), BitOf(geo, b);
      GroupMark(geo, v.bits[g], v.gdt[g], i);
      var d := SetCount(geo, v.gdt[g], Count(geo, v.gdt[g]) + 1);
      SumSet(geo, v.gdt, g, d);
      SyncedAll(geo, v.gdt, g, d);
      FreeBound(geo, v);
      forall c | geo.first <= c < geo.total
        ensures Used(geo, w, c) <==> Used(geo, v, c) && c != b
      {
        BlockPlace(geo, c);
        if c != b {
          MarkBits(geo, v, b, c);
        }
      }
    }
  }

  lemma GiveCounts(geo: Geo, v: Vol, b: nat)
    requires GeoOk(geo) && Inv(geo, v)
    ensures Give(geo, v, b).free == if b != 0 && Used(geo, v, b) then v.free + 1 else v.free
  {
    FreeBound(geo, v);
  }

  /** A repeated free changes nothing. */
  lemma GiveTwice(geo: Geo, v: Vol, b: nat)
    requires GeoOk(geo) && Inv(geo, v)
    ensures Inv(geo, Give(geo, v, b)) && Give(geo, Give(geo, v, b), b) == Give(geo, v, b)
  {
    GiveKeepsInv(geo, v, b);
  }

  /** Freeing what was just allocated restores bitmaps, descriptors and counts exactly. */
  lemma TakeThenGive(geo: Geo, v: Vol, b: nat)
    requires GeoOk(geo) && Inv(geo, v) && Free(geo, v, b)
    ensures Inv(geo, Mark(geo, v, b, true)) && Give(geo, Mark(geo, v, b, true), b) == v
  {
    hide Synced, Count, SetCount, Clear, Sum, GroupOf, BitOf, GroupCount, Groups;
    TakeKeepsInv(geo, v, b);
    var w := Mark(geo, v, b, true);
    GiveKeepsInv(geo, w, b);
    BlockPlace(geo, b);
    var g, i := GroupOf(geo, b), BitOf(geo, b);
    var c := Count(geo, v.gdt[g]);
    GroupMark(geo, v.bits[g], v.gdt[g], i);
    SumSet(geo, v.gdt, g, v.gdt[g]);
    CountRoundTrip(geo, v.gdt[g], c - 1);
    SyncedAll(geo, v.gdt, g, w.gdt[g]);
    SyncedAll(geo, w.gdt, g, v.gdt[g]);
    FreeBound(geo, v);
    assert v.bits[g][i := true][i := false] == v.bits[g];
    assert w.bits[g := w.bits[g][i := false]] == v.bits;
    assert w.gdt[g := SetCount(geo, w.gdt[g], c)] == v.gdt;
  }

  /** The smallest free block from b on, or 0. */
  function Lowest(geo: Geo, v: Vol, b: nat): (r: nat)
    requires GeoOk(geo) && Shape(geo, v)
    ensures r != 0 ==> Free(geo, v, r) && b <= r
    ensures forall c | b <= c && Free(geo, v, c) && c != 0 :: r != 0 && r <= c
    decreases geo.total - b
  {
    if b >= geo.total then 0
    else if b != 0 && Free(geo, v, b) then b
    else Lowest(geo, v, b + 1)
  }

  /** `ext4_alloc_block`: the smallest free block of the volume, or 0. */
  function Alloc(geo: Geo, v: Vol): (r: (Vol, nat))
    requires GeoOk(geo) && Inv(geo, v)
    ensures Inv(geo, r.0)
  {
    var b := Lowest(geo, v, 0);
    if b == 0 then (v, 0)
    else
      TakeKeepsInv(geo, v, b);
      (Mark(geo, v, b, true), b)
  }

  lemma AllocIs(geo: Geo, v: Vol)
    requires GeoOk(geo) && Inv(geo, v)
    ensures Alloc(geo, v).1 == Lowest(geo, v, 0)
  {
  }

  /** It answers 0 exactly when no block is free; otherwise the answer was free and is the only
      block that changes from free to used. */
  lemma AllocTakes(geo: Geo, v: Vol, c: nat)
    requires GeoOk(geo) && Inv(geo, v)
    ensures var (w, b) := Alloc(geo, v);
            && (b == 0 <==> forall x :: !Free(geo, v, x))
            && (b == 0 ==> w == v)
            && (b != 0 ==> Free(geo, v, b) && (Free(geo, v, c) ==> b <= c))
            && (Free(geo, w, c) <==> Free(geo, v, c) && c != b)
            && (Used(geo, w, c) <==> Used(geo, v, c) || (c == b && b != 0))
  {
    var b := Lowest(geo, v, 0);
    if b != 0 {
      TakeKeepsInv(geo, v, b);
      TakeFrees(geo, v, b, c);
    }
  }

  datatype Call = AllocCall | FreeCall(b: nat)

  function After(geo: Geo, v: Vol, calls: seq<Call>): (w: Vol)
    requires GeoOk(geo) && Inv(geo, v)
    ensures Inv(geo, w)
    decreases calls
  {
    if calls == [] then v
    else match calls[0]
      case AllocCall => After(geo, Alloc(geo, v).0, calls[1..])
      case FreeCall(b) =>
        GiveKeepsInv(geo, v, b);
        After(geo, Give(geo, v, b), calls[1..])
  }

  /** In every state reached by any calls with any arguments: every initialised group's count is
      its number of clear bits, the global count is their sum and fits its word, and the committed
      copies agree. */
  lemma CountsExact(geo: Geo, v: Vol, calls: seq<Call>, g: nat)
    requires GeoOk(geo) && Inv(geo, v) && g < Groups(geo)
    ensures var w := After(geo, v, calls);
            && (!w.gdt[g].uninit ==> Count(geo, w.gdt[g]) == Clear(w.bits[g]))
            && w.free == Sum(geo, w.gdt) < U32
            && w.gdtDisk == w.gdt && w.freeDisk == w.free
  {
    var w := After(geo, v, calls);
    FreeBound(geo, w);
    assert GroupOk(geo, w.bits[g], w.gdt[g]);
  }

  // ----- a formatted volume

  function FormattedDescs(geo: Geo, bits: seq<seq<bool>>): (gdt: seq<Desc>)
    ensures |gdt| == |bits|
    ensures forall g | 0 <= g < |bits| :: gdt[g] == SetCount(geo, Desc(0, 0, false), Clear(bits[g]))
  {
    seq(|bits|, g requires 0 <= g < |bits| => SetCount(geo, Desc(0, 0, false), Clear(bits[g])))
  }

  /** Any bitmaps, with counters computed from them. */
  function Formatted(geo: Geo, bits: seq<seq<bool>>): Vol {
    var gdt := FormattedDescs(geo, bits);
    Vol(bits, gdt, Sum(geo, gdt), gdt, Sum(geo, gdt))
  }

  /** Whatever is in use, as long as block 0 is, the formatted volume satisfies the invariant. */
  lemma FormattedInv(geo: Geo, bits: seq<seq<bool>>)
    requires GeoOk(geo) && |bits| == Groups(geo)
    requires forall g | 0 <= g < |bits| :: |bits[g]| == GroupCount(geo, g)
    requires geo.first == 0 ==> |bits| > 0 && |bits[0]| > 0 && bits[0][0]
    ensures Inv(geo, Formatted(geo, bits))
  {
    hide Count, SetCount, Clear, Sum, Groups;
    var v := Formatted(geo, bits);
    forall g | 0 <= g < Groups(geo) ensures DescOk(v.gdt[g]) && GroupOk(geo, v.bits[g], v.gdt[g]) {
      CountRoundTrip(geo, Desc(0, 0, false), Clear(bits[g]));
      SetKeepsFlag(geo, Desc(0, 0, false), Clear(bits[g]));
    }
    if geo.first == 0 {
      DivModIs(0, geo.perGroup, 0);
    }
  }

  lemma SetKeepsFlag(geo: Geo, d: Desc, v: nat)
    ensures SetCount(geo, d, v).uninit == d.uninit
  {
  }
}
