/** Free counts in memory against free counts on disk: a transaction built from memory keeps the disk's
    counts exact if memory agrees with the disk, and makes them wrong if the global count in memory is
    another one (kernel/fs/ext4.c:431-436, 495-764). */
module StaleCounts {
  import opened Words
  import opened Bits
  import opened Allocator
  import D = AllocatorDriver

  /** The volume as the disk alone describes it. */
  function Disk(v: Vol): Vol { Vol(v.bits, v.gdtDisk, v.freeDisk, v.gdtDisk, v.freeDisk) }

  predicate Fresh(v: Vol) { v.gdt == v.gdtDisk && v.free == v.freeDisk }

  /** The same flags everywhere, and the same descriptors of uninitialised groups. */
  predicate Agree(a: seq<Desc>, c: seq<Desc>) {
    |a| == |c| && forall k | 0 <= k < |a| :: a[k].uninit == c[k].uninit && (a[k].uninit ==> a[k] == c[k])
  }

  /** The counts of a and c differ at g, an initialised group of both, and nowhere else; without g
      they do not differ. */
  predicate Differ(geo: Geo, a: seq<Desc>, c: seq<Desc>, g: Option<nat>) {
    && |a| == |c| && (forall k | 0 <= k < |a| && g != Some(k) :: a[k] == c[k])
    && (g.Some? ==> g.value < |a| && !a[g.value].uninit && !c[g.value].uninit
                    && Count(geo, a[g.value]) != Count(geo, c[g.value]))
  }

  /** The global count in memory is not the one on disk, nor is the count of group g if one is given. */
  predicate Stale(geo: Geo, v: Vol, g: Option<nat>) { v.free != v.freeDisk && Differ(geo, v.gdt, v.gdtDisk, g) }

  lemma StaleAgrees(geo: Geo, v: Vol, g: Option<nat>)
    requires Stale(geo, v, g)
    ensures Agree(v.gdt, v.gdtDisk)
  {
    hide Count;
  }

  /** A volume whose counts on disk are exact, with fields of the right width in memory. */
  predicate Sound(geo: Geo, v: Vol)
    requires GeoOk(geo)
  {
    Inv(geo, Disk(v)) && Shape(geo, v) && |v.gdtDisk| == |v.gdt| && v.free < U32 && v.freeDisk < U32
  }

  /** Block b of an initialised group, in use or not as the bitmap says. */
  predicate Candidate(geo: Geo, v: Vol, b: nat, used: bool)
    requires GeoOk(geo) && Shape(geo, v)
  {
    && geo.first <= b < geo.total
    && (BlockPlace(geo, b);
        !v.gdt[GroupOf(geo, b)].uninit && v.bits[GroupOf(geo, b)][BitOf(geo, b)] == used)
  }

  /** Taking a free block, or giving back a used one other than block 0. */
  predicate Changes(geo: Geo, v: Vol, b: nat, used: bool)
    requires GeoOk(geo) && Shape(geo, v)
  {
    Candidate(geo, v, b, !used) && (!used ==> b != 0)
  }

  lemma MarkExact(geo: Geo, v: Vol, b: nat, used: bool)
    requires GeoOk(geo) && Inv(geo, v) && Changes(geo, v, b, used)
    ensures Inv(geo, Mark(geo, v, b, used)) && Fresh(Mark(geo, v, b, used))
  {
    hide Synced, Count, SetCount, Clear, Sum, GroupOk, GroupOf, BitOf, GroupCount, Groups, Mark;
    if used {
      TakeKeepsInv(geo, v, b);
    } else {
      GiveKeepsInv(geo, v, b);
    }
  }

  /** In agreement: the transaction keeps the counts exact and memory in agreement. */
  lemma FreshMark(geo: Geo, v: Vol, b: nat, used: bool)
    requires GeoOk(geo) && Sound(geo, v) && Fresh(v) && Changes(geo, v, b, used)
    ensures var w := Mark(geo, v, b, used);
            && Sound(geo, w) && Fresh(w) && w.freeDisk != v.freeDisk
            && Differ(geo, v.gdtDisk, w.gdtDisk, Some(GroupOf(geo, b)))
  {
    hide Synced, Count, Clear, Sum, GroupOk, GroupCount, Groups, Mark, Shape;
    assert v == Disk(v);
    MarkExact(geo, v, b, used);
    var w := Mark(geo, v, b, used);
    assert w == Disk(w);
    MarkIs(geo, v, b, used);
    CountMoves(geo, v, b, used);
    FreeBound(geo, w);
  }

  /** The count of the group of b is another one afterwards. */
  lemma CountMoves(geo: Geo, v: Vol, b: nat, used: bool)
    requires GeoOk(geo) && Inv(geo, v) && Changes(geo, v, b, used) && Inv(geo, Mark(geo, v, b, used))
    ensures var g := GroupOf(geo, b);
            g < |v.gdt| && Count(geo, v.gdt[g]) != Count(geo, Mark(geo, v, b, used).gdt[g])
  {
    hide Synced, Count, Sum, GroupCount, Groups, GroupOf, BitOf;
    BlockPlace(geo, b);
    var g, i, w := GroupOf(geo, b), BitOf(geo, b), Mark(geo, v, b, used);
    var f := v.bits[g];
    SetKeepsFlag(geo, v.gdt[g], Bump(Count(geo, v.gdt[g]), used));
    assert GroupOk(geo, f, v.gdt[g]) && GroupOk(geo, w.bits[g], w.gdt[g]);
    if used {
      ClearSet(f, i);
    } else {
      assert f[i := false][i := true] == f;
      ClearSet(f[i := false], i);
    }
  }

  /** What the step changes, seen from the disk. */
  lemma MarkIs(geo: Geo, v: Vol, b: nat, used: bool)
    requires GeoOk(geo) && Shape(geo, v) && |v.gdtDisk| == |v.gdt| && geo.first <= b < geo.total && v.free < U32
    ensures var w, g := Mark(geo, v, b, used), GroupOf(geo, b);
            && g < |v.gdt| && |w.gdtDisk| == |v.gdtDisk| && w.freeDisk == Bump(v.free, used) != v.free
            && (forall k | 0 <= k < |v.gdt| && k != g :: w.gdtDisk[k] == v.gdt[k] || w.gdtDisk[k] == v.gdtDisk[k])
            && w.gdtDisk[g].uninit == v.gdt[g].uninit
  {
    BlockPlace(geo, b);
    SetKeepsFlag(geo, v.gdt[GroupOf(geo, b)], Bump(Count(geo, v.gdt[GroupOf(geo, b)]), used));
  }

  lemma {:induction false} SumSame(geo: Geo, a: seq<Desc>, c: seq<Desc>)
    requires |a| == |c| && forall k | 0 <= k < |a| :: Count(geo, a[k]) == Count(geo, c[k])
    ensures Sum(geo, a) == Sum(geo, c)
    decreases |a|
  {
    hide Count;
    if a != [] {
      SumSame(geo, a[..|a| - 1], c[..|c| - 1]);
    }
  }

  /** Exact counts are determined by the bitmaps and the uninitialised descriptors. */
  lemma Determined(geo: Geo, v: Vol, w: Vol)
    requires GeoOk(geo) && Inv(geo, v) && Inv(geo, w) && v.bits == w.bits && Agree(v.gdt, w.gdt)
    ensures v.free == w.free
  {
    hide Count, Clear, Groups, GroupCount, Used;
    forall k | 0 <= k < |v.gdt| ensures Count(geo, v.gdt[k]) == Count(geo, w.gdt[k]) {
      assert GroupOk(geo, v.bits[k], v.gdt[k]) && GroupOk(geo, w.bits[k], w.gdt[k]);
    }
    SumSame(geo, v.gdt, w.gdt);
  }

  lemma BumpInjective(a: nat, c: nat, used: bool)
    requires a < U32 && c < U32 && a != c
    ensures Bump(a, used) != Bump(c, used)
  {
  }

  /** Out of agreement: a transaction makes the counts on disk wrong. */
  lemma StaleMark(geo: Geo, v: Vol, g: Option<nat>, b: nat, used: bool)
    requires GeoOk(geo) && Sound(geo, v) && Stale(geo, v, g) && Changes(geo, v, b, used)
    ensures !Inv(geo, Disk(Mark(geo, v, b, used)))
  {
    hide Synced, Count, SetCount, Clear, Sum, GroupOk, GroupCount, Groups, Bump, Differ;
    StaleAgrees(geo, v, g);
    var d := Disk(v);
    BlockPlace(geo, b);
    MarkExact(geo, d, b, used);
    var x, w := Disk(Mark(geo, v, b, used)), Mark(geo, d, b, used);
    MarkIs(geo, v, b, used);
    MarkIs(geo, d, b, used);
    BumpInjective(v.free, d.free, used);
    if Inv(geo, x) {
      Determined(geo, x, w);
    }
  }

  /** The volume after the counts in memory went to disk with group g. */
  function WriteOut(geo: Geo, v: Vol, g: nat): Vol
    requires GeoOk(geo) && |v.gdtDisk| == |v.gdt|
  {
    v.(gdtDisk := Synced(geo, v.gdtDisk, v.gdt, g), freeDisk := v.free)
  }

  lemma FreshWriteOut(geo: Geo, v: Vol, g: nat)
    requires GeoOk(geo) && Sound(geo, v) && Fresh(v)
    ensures WriteOut(geo, v, g) == v
  {
    assert Synced(geo, v.gdtDisk, v.gdt, g) == v.gdt;
  }

  lemma StaleWriteOut(geo: Geo, v: Vol, b: Option<nat>, g: nat)
    requires GeoOk(geo) && Sound(geo, v) && Stale(geo, v, b)
    ensures !Inv(geo, Disk(WriteOut(geo, v, g)))
  {
    hide Count, Clear, Sum, GroupOk, GroupCount, Groups, Differ;
    StaleAgrees(geo, v, b);
    var x := Disk(WriteOut(geo, v, g));
    if Inv(geo, x) {
      Determined(geo, x, Disk(v));
    }
  }

  /** The volume after the descriptors in the block of group g went to disk alone. */
  function FlushOut(geo: Geo, v: Vol, g: nat): Vol
    requires GeoOk(geo) && |v.gdtDisk| == |v.gdt|
  {
    v.(gdtDisk := Synced(geo, v.gdtDisk, v.gdt, g))
  }

  /** Groups whose descriptors lie in one block. */
  predicate SameBlock(geo: Geo, g: nat, k: nat)
    requires geo.bs > 0
  {
    g * geo.descSize / geo.bs == k * geo.descSize / geo.bs
  }

  lemma FreshFlush(geo: Geo, v: Vol, g: nat)
    requires GeoOk(geo) && Sound(geo, v) && Fresh(v)
    ensures FlushOut(geo, v, g) == v
  {
    assert Synced(geo, v.gdtDisk, v.gdt, g) == v.gdt;
  }

  /** Out of agreement, it changes nothing, or makes the count of the group that is behind wrong,
      exactly when that group's descriptor is in the block. */
  lemma StaleFlush(geo: Geo, v: Vol, b: Option<nat>, g: nat)
    requires GeoOk(geo) && Sound(geo, v) && Stale(geo, v, b)
    ensures if b.Some? && SameBlock(geo, b.value, g) then !Inv(geo, Disk(FlushOut(geo, v, g)))
            else FlushOut(geo, v, g) == v
  {
    hide Count, Clear, Sum, GroupCount, Groups;
    var w := FlushOut(geo, v, g);
    if b.Some? && SameBlock(geo, b.value, g) {
      assert GroupOk(geo, v.bits[b.value], v.gdtDisk[b.value]);
      assert !GroupOk(geo, w.bits[b.value], w.gdtDisk[b.value]);
    } else {
      assert w.gdtDisk == v.gdtDisk;
    }
  }

  // ----- choosing a block

  /** The lowest clear flag. */
  function FirstClear(f: seq<bool>, i: nat): (r: nat)
    requires i <= |f| && Clear(f) > 0 && forall k | 0 <= k < i :: f[k]
    ensures r < |f| && !f[r] && forall k | 0 <= k < r :: f[k]
    decreases |f| - i
  {
    ClearNone(f);
    if i < |f| && !f[i] then i
    else
      assert i < |f|;
      FirstClear(f, i + 1)
  }

  /** `ext4_alloc_block` from group g on: groups by the counts and flags in memory, bits by the bitmap
      on disk. */
  function Pick(geo: Geo, v: Vol, g: nat): (r: Option<nat>)
    requires GeoOk(geo) && Shape(geo, v)
    decreases Groups(geo) - g
  {
    if g >= Groups(geo) then None
    else if v.gdt[g].uninit || Count(geo, v.gdt[g]) == 0 || Clear(v.bits[g]) == 0 then Pick(geo, v, g + 1)
    else Some(GroupFirst(geo, g) + FirstClear(v.bits[g], 0))
  }

  lemma {:induction false} PickChanges(geo: Geo, v: Vol, g: nat)
    requires GeoOk(geo) && Shape(geo, v)
    ensures Pick(geo, v, g).Some? ==> Changes(geo, v, Pick(geo, v, g).value, true)
    decreases Groups(geo) - g
  {
    hide Count, GroupOf, BitOf, GroupFirst, GroupCount, Groups;
    if g < Groups(geo) {
      if v.gdt[g].uninit || Count(geo, v.gdt[g]) == 0 || Clear(v.bits[g]) == 0 {
        PickChanges(geo, v, g + 1);
      } else {
        BitPlace(geo, g, FirstClear(v.bits[g], 0));
      }
    }
  }

  /** With exact counts it is the lowest free block. */
  lemma {:induction false} PickLowest(geo: Geo, v: Vol, g: nat, c: nat)
    requires GeoOk(geo) && Inv(geo, v) && (Free(geo, v, c) ==> GroupOf(geo, c) >= g)
    ensures Free(geo, v, c) ==> Pick(geo, v, g).Some? && Pick(geo, v, g).value <= c
    decreases Groups(geo) - g
  {
    hide Count, GroupOf, BitOf, GroupFirst, GroupCount, Groups, Sum;
    if Free(geo, v, c) {
      BlockPlace(geo, c);
      if v.gdt[g].uninit || Count(geo, v.gdt[g]) == 0 || Clear(v.bits[g]) == 0 {
        SkippedGroup(geo, v, g);
        PickLowest(geo, v, g + 1, c);
      } else {
        var i := FirstClear(v.bits[g], 0);
        BitPlace(geo, g, i);
        D.GroupsInOrder(geo, GroupFirst(geo, g) + i, c);
      }
    }
  }

  lemma SkippedGroup(geo: Geo, v: Vol, g: nat)
    requires GeoOk(geo) && Inv(geo, v) && g < Groups(geo)
    requires v.gdt[g].uninit || Count(geo, v.gdt[g]) == 0 || Clear(v.bits[g]) == 0
    ensures forall c | Free(geo, v, c) :: GroupOf(geo, c) != g
  {
    assert GroupOk(geo, v.bits[g], v.gdt[g]);
    D.NoneFree(geo, v, g);
  }

  /** In agreement, the choice from memory is the allocator's answer. */
  lemma PickIsAlloc(geo: Geo, v: Vol)
    requires GeoOk(geo) && Inv(geo, v)
    ensures Pick(geo, v, 0) == if Alloc(geo, v).1 == 0 then None else Some(Alloc(geo, v).1)
  {
    hide Count, GroupOf, BitOf, GroupFirst, GroupCount, Groups, Sum, GroupOk, Pick, Alloc, Lowest;
    var b := Alloc(geo, v).1;
    AllocIs(geo, v);
    PickChanges(geo, v, 0);
    PickLowest(geo, v, 0, b);
    AllocTakes(geo, v, if Pick(geo, v, 0).Some? then Pick(geo, v, 0).value else 0);
    if Pick(geo, v, 0).Some? {
      assert Free(geo, v, Pick(geo, v, 0).value);
    }
  }
}
