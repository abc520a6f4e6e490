/** The allocator as the driver runs it: a bitmap page scanned bit by bit and changed in place,
    descriptors and counters updated in memory and then committed (kernel/fs/ext4.c:495-617). */
module AllocatorDriver {
  import opened Words
  import opened Bytes
  import opened Bits
  import opened Division
  import opened Allocator

  const PAGE := 4096
  const NOT_FOUND := 0xFFFF_FFFF

  predicate Bitmaps(geo: Geo, bitmaps: seq<Block>)
    requires GeoOk(geo)
  {
    |bitmaps| == Groups(geo) && (forall g | 0 <= g < |bitmaps| :: |bitmaps[g]| == geo.bs)
  }

  ghost function AllFlags(geo: Geo, bitmaps: seq<Block>): (r: seq<seq<bool>>)
    requires GeoOk(geo) && Bitmaps(geo, bitmaps)
    ensures |r| == |bitmaps| && forall g | 0 <= g < |r| :: r[g] == Flags(bitmaps[g], GroupCount(geo, g))
  {
    seq(|bitmaps|, g requires 0 <= g < |bitmaps| => Flags(bitmaps[g], GroupCount(geo, g)))
  }

  class BlockAllocator {
    const geo: Geo
    var bitmaps: seq<Block>
    var gdt: seq<Desc>
    var free: nat
    var gdtDisk: seq<Desc>
    var freeDisk: nat

    ghost predicate Shaped()
      reads this
    {
      GeoOk(geo) && Bitmaps(geo, bitmaps) && |gdt| == |gdtDisk| == Groups(geo)
    }

    ghost function View(): Vol
      reads this
      requires Shaped()
    {
      Vol(AllFlags(geo, bitmaps), gdt, free, gdtDisk, freeDisk)
    }

    ghost predicate Valid()
      reads this
    {
      Shaped() && Inv(geo, View())
    }

    /** The zeroed page with the bitmap of group g read into it. */
    method ReadBitmap(g: nat) returns (bm: array<Byte>)
      requires Shaped() && g < |bitmaps|
      ensures fresh(bm) && bm.Length == PAGE && bm[..geo.bs] == bitmaps[g]
    {
      var src := bitmaps[g];
      bm := new Byte[PAGE](_ => 0);
      for i := 0 to geo.bs
        invariant bm[..i] == src[..i]
      {
        bm[i] := src[i];
      }
      assert src[..geo.bs] == src;
    }

    /** The three blocks of the transaction: bitmap, descriptor block and superblock. */
    method Commit(g: nat, bm: array<Byte>)
      requires Shaped() && g < |bitmaps| && bm.Length == PAGE
      modifies this`bitmaps, this`gdtDisk, this`freeDisk
      ensures bitmaps == old(bitmaps)[g := bm[..geo.bs]]
      ensures gdtDisk == Synced(geo, old(gdtDisk), gdt, g) && freeDisk == free
    {
      bitmaps := bitmaps[g := bm[..geo.bs]];
      gdtDisk := Synced(geo, gdtDisk, gdt, g);
      freeDisk := free;
    }

    /** Bitmap, descriptor, counter and commit for one block of group g. */
    method Change(g: nat, i: nat, bm: array<Byte>, used: bool)
      requires Valid() && g < |bitmaps| && i < GroupCount(geo, g) && bm.Length == PAGE
      requires Flags(bm[..geo.bs], GroupCount(geo, g)) == View().bits[g][i := used]
      modifies this
      ensures bitmaps == old(bitmaps)[g := bm[..geo.bs]]
      ensures Shaped() && View() == (BitPlace(geo, g, i);
                                     Mark(geo, old(View()), GroupFirst(geo, g) + i, used))
    {
      hide Flags, AllFlags, Synced, Count, SetCount, Bump, Sum, GroupOk, GroupOf, BitOf, GroupCount, Groups;
      BitPlace(geo, g, i);
      gdt := gdt[g := SetCount(geo, gdt[g], Bump(Count(geo, gdt[g]), used))];
      free := Bump(free, used);
      Commit(g, bm);
      assert View().bits == old(View()).bits[g := old(View()).bits[g][i := used]];
    }

    /** `ext4_group_alloc_block`. */
    method GroupAlloc(g: nat) returns (b: nat)
      requires Valid() && g < |bitmaps| && !gdt[g].uninit && Count(geo, gdt[g]) != 0
      modifies this
      ensures Valid()
      ensures Allocator.Free(geo, old(View()), b) && GroupOf(geo, b) == g && b != 0
      ensures View() == Mark(geo, old(View()), b, true)
      ensures forall c | Allocator.Free(geo, old(View()), c) && GroupOf(geo, c) == g :: b <= c
      ensures BitOf(geo, b) < 8 * geo.bs
      ensures bitmaps == old(bitmaps)[g := BitmapBytes(old(bitmaps)[g], BitOf(geo, b), true)]
    {
      hide Flags, AllFlags, Synced, Count, SetCount, Bump, Sum, Clear, GroupOf, BitOf, GroupCount, Groups;
      ghost var v := View();
      var bm := ReadBitmap(g);
      var cnt := GroupCount(geo, g);
      var found := FirstClear(bm, geo.bs, cnt);
      assert GroupOk(geo, v.bits[g], v.gdt[g]);
      ClearNone(v.bits[g]);
      assert found < cnt;
      BitPlace(geo, g, found);
      b := GroupFirst(geo, g) + found;
      forall c | Allocator.Free(geo, v, c) && GroupOf(geo, c) == g ensures b <= c {
        BlockPlace(geo, c);
      }
      TakeKeepsInv(geo, v, b);
      Change(g, found, bm, true);
    }

    /** `ext4_alloc_block`. */
    method Alloc() returns (b: nat)
      requires Valid()
      modifies this
      ensures Valid() && (View(), b) == Allocator.Alloc(geo, old(View()))
      ensures b == 0 ==> bitmaps == old(bitmaps)
      ensures b != 0 ==>
                && geo.first <= b && GroupOf(geo, b) < |bitmaps| == |old(bitmaps)| && BitOf(geo, b) < 8 * geo.bs
                && var g := GroupOf(geo, b);
                   && |old(bitmaps)[g]| == geo.bs
                   && bitmaps == old(bitmaps)[g := BitmapBytes(old(bitmaps)[g], BitOf(geo, b), true)]
    {
      ghost var v := View();
      for g := 0 to |bitmaps|
        invariant Valid() && View() == v && bitmaps == old(bitmaps)
        invariant forall c | Allocator.Free(geo, v, c) :: GroupOf(geo, c) >= g
      {
        if !gdt[g].uninit && Count(geo, gdt[g]) != 0 {
          b := GroupAlloc(g);
          forall c | Allocator.Free(geo, v, c) ensures b <= c {
            BlockPlace(geo, c);
            BlockPlace(geo, b);
            GroupsInOrder(geo, b, c);
          }
          return;
        }
        NoneFree(geo, v, g);
      }
      forall c ensures !Allocator.Free(geo, v, c) {
        if Allocator.Free(geo, v, c) {
          BlockPlace(geo, c);
        }
      }
      return 0;
    }

    /** `ext4_free_block`. */
    method Free(b: nat)
      requires Valid()
      modifies this
      ensures Valid() && View() == Give(geo, old(View()), b)
      ensures bitmaps == old(bitmaps) ||
              (&& geo.first <= b && GroupOf(geo, b) < |old(bitmaps)| && BitOf(geo, b) < 8 * geo.bs
               && var g := GroupOf(geo, b);
                  && |old(bitmaps)[g]| == geo.bs
                  && bitmaps == old(bitmaps)[g := BitmapBytes(old(bitmaps)[g], BitOf(geo, b), false)])
    {
      hide Flags, AllFlags, Synced, Count, SetCount, Bump, Sum, Clear, GroupOk, GroupOf, BitOf, GroupCount, Groups;
      if b == 0 || b >= geo.total || b < geo.first {
        return;
      }
      ghost var v := View();
      BlockPlace(geo, b);
      var g := GroupOf(geo, b);
      var bit := b - GroupFirst(geo, g);
      var bm := ReadBitmap(g);
      var was := DropBit(bm, geo.bs, bit, GroupCount(geo, g));
      if was {
        GiveKeepsInv(geo, v, b);
        Change(g, bit, bm, false);
      }
    }
  }

  /** Testing and clearing one bit of the page. */
  method DropBit(bm: array<Byte>, bs: nat, bit: nat, ghost cnt: nat) returns (was: bool)
    requires bs <= bm.Length && bit < cnt <= 8 * bs
    modifies bm
    ensures var f := Flags(old(bm[..bs]), cnt); was == f[bit] && Flags(bm[..bs], cnt) == f[bit := false]
    ensures bm[..bs] == if was then BitmapBytes(old(bm[..bs]), bit, false) else old(bm[..bs])
    ensures bm[bs..] == old(bm[bs..])
  {
    ghost var page := bm[..bs];
    TestBit(bm[bit / 8], bit % 8);
    was := BitAnd(bm[bit / 8], Pow2(bit % 8)) != 0;
    if was {
      DropFlag(page, bit, cnt);
      bm[bit / 8] := WithoutBit(bm[bit / 8], bit % 8);
      assert bm[..bs] == page[bit / 8 := bm[bit / 8]];
    }
  }

  /** The scan of `ext4_group_alloc_block`: sets the lowest clear bit below cnt. */
  method FirstClear(bm: array<Byte>, bs: nat, cnt: nat) returns (found: nat)
    requires bs <= bm.Length && cnt <= 8 * bs && cnt < NOT_FOUND
    modifies bm
    ensures var f := Flags(old(bm[..bs]), cnt);
            if found < cnt then !f[found] && (forall k | 0 <= k < found :: f[k])
               && Flags(bm[..bs], cnt) == f[found := true]
            else found == NOT_FOUND && (forall k | 0 <= k < cnt :: f[k])
    ensures bm[..bs] == if found < cnt then BitmapBytes(old(bm[..bs]), found, true) else old(bm[..bs])
    ensures bm[bs..] == old(bm[bs..])
  {
    ghost var was := bm[..bs];
    for i := 0 to cnt
      invariant bm[..] == old(bm[..])
      invariant forall k | 0 <= k < i :: Flags(was, cnt)[k]
    {
      assert was[i / 8] == bm[i / 8];
      TestBit(bm[i / 8], i % 8);
      if BitAnd(bm[i / 8], Pow2(i % 8)) == 0 {
        SetFlag(was, i, cnt);
        bm[i / 8] := WithBit(bm[i / 8], i % 8);
        assert bm[..bs] == was[i / 8 := bm[i / 8]];
        return i;
      }
    }
    return NOT_FOUND;
  }

  lemma GroupsInOrder(geo: Geo, b: nat, c: nat)
    requires GeoOk(geo) && geo.first <= b < geo.total && geo.first <= c < geo.total
    ensures GroupOf(geo, b) < GroupOf(geo, c) ==> b <= c
  {
    hide GroupOf;
    BlockPlace(geo, b);
    BlockPlace(geo, c);
    var gb, gc := GroupOf(geo, b), GroupOf(geo, c);
    if gb < gc {
      Distribute(gb, gc - gb, geo.perGroup);
      MulAtLeast(gc - gb, geo.perGroup);
    }
  }

  /** A group that is skipped has no free block. */
  lemma NoneFree(geo: Geo, v: Vol, g: nat)
    requires GeoOk(geo) && Inv(geo, v) && g < Groups(geo) && (v.gdt[g].uninit || Count(geo, v.gdt[g]) == 0)
    ensures forall c | Allocator.Free(geo, v, c) :: GroupOf(geo, c) != g
  {
    assert GroupOk(geo, v.bits[g], v.gdt[g]);
    ClearNone(v.bits[g]);
    forall c | Allocator.Free(geo, v, c) ensures GroupOf(geo, c) != g {
      BlockPlace(geo, c);
    }
  }
}
