/** Directory calls as the driver runs them, on a file of the volume: a page per block, searched record
    by record and changed in place (kernel/fs/ext4.c:1780-1931, 2043-2090). */
module DirectoryDriver {
  import opened Words
  import opened Bytes
  import opened Memory
  import opened Division
  import opened ExtentTree
  import opened Ownership
  import opened FileData
  import opened FileWrite
  import opened DirBlock
  import opened Directory
  import opened DirectoryVolume
  import A = Allocator

  /** The fields of a new record, stored one by one. */
  method StoreRecord(a: array<Byte>, off: nat, e: Entry, rl: nat)
    requires e.ino < U32 && rl < U16 && |e.name| < 256 && off + HEADER + |e.name| <= a.Length
    modifies a
    ensures a[..] == PutRec(old(a[..]), off, e, rl)
  {
    hide PutLe32, PutLe16;
    ghost var was := a[..];
    Copy(a, off, PutLe32(e.ino) + PutLe16(rl) + [|e.name|, e.kind] + e.name);
    assert a[..] == a[..off] + a[off..off + HEADER + |e.name|] + a[off + HEADER + |e.name|..];
    var mid := PutLe32(e.ino) + PutLe16(rl) + [|e.name|, e.kind] + e.name;
    assert was[..off] + mid + was[off + HEADER + |e.name|..] == PutRec(was, off, e, rl);
  }

  /** `de->rec_len = rl`. */
  method StoreLen(a: array<Byte>, off: nat, rl: nat)
    requires rl < U16 && off + HEADER <= a.Length
    modifies a
    ensures a[..] == PutLen(old(a[..]), off, rl)
  {
    hide PutLe16;
    Copy(a, off + 4, PutLe16(rl));
    assert a[..] == a[..off + 4] + a[off + 4..off + 6] + a[off + 6..];
  }

  /** The search of `ext4_add_entry` in one page, and the change it makes there. */
  method AddInBlock(a: array<Byte>, limit: nat, e: Entry) returns (ok: bool)
    requires limit <= a.Length && limit < U16 && e.ino < U32 && 0 < |e.name| < 256
    modifies a
    ensures var was := old(a[..]);
            var slot := FindSlot(was, limit, Space(|e.name|), 0);
            && SlotOk(was, limit, Space(|e.name|), 0, slot)
            && ok == !slot.NoSlot?
            && a[..] == if ok then PutIn(was, e, slot) else was
  {
    hide Ino, RecLen, NameLen, Space, PutRec, PutLen;
    ghost var was := a[..];
    var need, off := Space(|e.name|), 0;
    FindSlotOk(was, limit, need, 0);
    var target, slotRec := limit, 0;
    while off < limit
      invariant a[..] == was && target == limit
      invariant FindSlot(was, limit, need, 0) == FindSlot(was, limit, need, off)
      decreases limit - off
    {
      var rl := RecLen(a[..], off);
      if rl < HEADER || off + rl > limit {
        if limit - off >= need {
          target, slotRec := off, limit - off;
        }
        break;
      }
      if Ino(a[..], off) == 0 {
        if rl >= need {
          target, slotRec := off, rl;
          break;
        }
      } else {
        var used := Space(NameLen(a[..], off));
        if used < rl && rl - used >= need {
          StoreLen(a, off, used);
          StoreRecord(a, off + used, e, rl - used);
          return true;
        }
      }
      off := off + rl;
    }
    if target != limit {
      StoreRecord(a, target, e, slotRec);
      return true;
    }
    return false;
  }

  /** `de->inode = 0` and `de->name_len = 0`. */
  method ClearRecord(a: array<Byte>, off: nat)
    requires off + HEADER <= a.Length
    modifies a
    ensures a[..] == Cleared(old(a[..]), off)
  {
    ghost var was := a[..];
    Zero(a, off, 4);
    assert a[off + 4..] == was[off + 4..];
    a[off + 6] := 0;
    assert a[..] == a[..off] + a[off..off + 4] + a[off + 4..off + 6] + [a[off + 6]] + a[off + 7..];
    assert a[off + 4..off + 6] == was[off + 4..off + 6];
  }

  /** The search of `ext4_remove_entry` in one page: the matching record is freed in place. */
  method RemoveInBlock(a: array<Byte>, limit: nat, name: Block) returns (ok: bool)
    requires limit <= a.Length
    modifies a
    ensures var was := old(a[..]);
            var t := FindName(was, limit, name, 0);
            && ok == t.Some? && (ok ==> t.value + HEADER <= |was|)
            && a[..] == if ok then Cleared(was, t.value) else was
  {
    hide Ino, Le16, NameLen, Cleared, Matches;
    ghost var was := a[..];
    var off := 0;
    while off < limit
      invariant a[..] == was
      invariant FindName(was, limit, name, 0) == FindName(was, limit, name, off)
      decreases limit - off
    {
      var rl := RecLen(a[..], off);
      if rl < HEADER || off + rl > limit {
        break;
      }
      if Matches(a[..], off, name) {
        ClearRecord(a, off);
        return true;
      }
      off := off + rl;
    }
    return false;
  }

  /** A block changed up to the limit, with a new checksum tail behind it. */
  function WithTail(blk: Block, limit: nat, tail: Block): (r: Block)
    requires limit + |tail| == |blk|
    ensures |r| == |blk|
  {
    blk[..limit] + tail
  }

  lemma TailIgnored(blk: Block, limit: nat, tail: Block)
    requires limit + |tail| == |blk|
    ensures Fits(WithTail(blk, limit, tail), limit, 0) <==> Fits(blk, limit, 0)
    ensures Tiled(WithTail(blk, limit, tail), limit, 0) <==> Tiled(blk, limit, 0)
    ensures Fits(blk, limit, 0) ==> Entries(WithTail(blk, limit, tail), limit, 0) == Entries(blk, limit, 0)
  {
    SameRest(blk, WithTail(blk, limit, tail), limit, 0);
  }

  class DirectoryFile {
    const vol: FileSystem
    const i: nat
    const limit: nat
    /** `i_size` in blocks. */
    var n: nat

    constructor (vol: FileSystem, i: nat, limit: nat, n: nat)
      ensures this.vol == vol && this.i == i && this.limit == limit && this.n == n
    {
      this.vol, this.i, this.limit, this.n := vol, i, limit, n;
    }

    ghost function Blocks(): (r: seq<Block>)
      reads this, vol
      requires i < |vol.fs.files|
      ensures |r| == n
    {
      DirBlocks(vol.fs.files[i], vol.disk, vol.geo.bs, n)
    }

    ghost predicate Valid()
      reads this, vol
    {
      && vol.Valid() && i < |vol.fs.files| && vol.sizes[i] == Span(vol.geo.bs, n)
      && DirOk(Blocks(), vol.geo.bs, limit)
    }

    /** The entries of the directory, in order. */
    ghost function Listing(): seq<Entry>
      reads this, vol
      requires Valid()
    {
      All(Blocks(), vol.geo.bs, limit)
    }

    ghost predicate AllTiled()
      reads this, vol
      requires i < |vol.fs.files|
    {
      MappedTiled(vol.fs.files[i], Blocks(), limit)
    }

    method ReadPage(b: nat) returns (a: array<Byte>)
      requires b < |vol.disk| && |vol.disk[b]| == vol.geo.bs
      ensures fresh(a) && a.Length == vol.geo.bs && a[..] == vol.disk[b]
    {
      var blk := vol.disk[b];
      a := new Byte[vol.geo.bs](_ => 0);
      Copy(a, 0, blk);
      assert a[..] == a[0..|blk|];
    }

    /** The page goes to the block of file block k, under a new tail. */
    method StorePage(k: nat, a: array<Byte>, tail: Block)
      requires Valid() && k < n && Lookup(vol.fs.files[i], k).Some?
      requires a.Length == vol.geo.bs && limit + |tail| == vol.geo.bs
      modifies vol
      ensures vol.Valid() && vol.fs == old(vol.fs) && vol.sizes == old(vol.sizes)
      ensures Blocks() == old(Blocks())[k := WithTail(a[..], limit, tail)]
      ensures OthersKept(i, old(vol.fs), old(vol.disk), vol.fs, vol.disk)
    {
      hide Lookup, Own, A.GeoOk, FilesStored, Divides32, DirBlocks;
      var addr := Lookup(vol.fs.files[i], k).value;
      SetBlock(vol.geo, vol.cap, vol.fs, vol.disk, i, n, k, WithTail(a[..], limit, tail));
      vol.disk := vol.disk[addr := a[..limit] + tail];
    }

    /** The search over the mapped blocks, up to the first hole: the first block with room, its page
        already changed. */
    method SearchSlot(e: Entry) returns (found: Option<nat>, a: array<Byte>)
      requires Valid() && e.ino < U32 && !BadName(e.name)
      ensures fresh(a) && (found == None <==> NoSlots(Blocks(), limit, |e.name|, Leading(vol.fs.files[i], n, 0)))
      ensures found.Some? ==>
                && found.value < n && Lookup(vol.fs.files[i], found.value).Some? && a.Length == vol.geo.bs
                && NoSlots(Blocks(), limit, |e.name|, found.value)
                && var was := Blocks()[found.value];
                   var slot := FindSlot(was, limit, Space(|e.name|), 0);
                && !slot.NoSlot? && SlotOk(was, limit, Space(|e.name|), 0, slot) && a[..] == PutIn(was, e, slot)
    {
      hide Fits, FindSlot, Space, PutIn, SlotOk, Lookup, Own, A.GeoOk, FilesStored, Divides32, Zeros, NoRoom;
      a := new Byte[0];
      ghost var blocks, t := Blocks(), vol.fs.files[i];
      var k := 0;
      while k < n
        invariant k <= n && fresh(a)
        invariant Leading(t, n, 0) == Leading(t, n, k) && NoSlots(blocks, limit, |e.name|, k)
      {
        var addr := Lookup(vol.fs.files[i], k);
        if addr == None {
          break;
        }
        OwnMapped(vol.geo, vol.cap, vol.fs, vol.disk, i);
        a := ReadPage(addr.value);
        var ok := AddInBlock(a, limit, e);
        SlotIff(blocks[k], limit, Space(|e.name|));
        if ok {
          assert k < Leading(t, n, k) && !NoRoom(blocks[k], limit, Space(|e.name|), 0, limit);
          return Some(k), a;
        }
        k := k + 1;
      }
      found := None;
    }

    /** An entry put into the first block that has room. */
    method AddToMapped(e: Entry, tail: Block) returns (ok: bool, ghost at: nat, ghost k: nat)
      requires Valid() && e.ino < U32 && !BadName(e.name) && limit + |tail| == vol.geo.bs
      modifies vol
      ensures Valid() && vol.fs == old(vol.fs) && vol.sizes == old(vol.sizes)
      ensures ok <==> !NoSlots(old(Blocks()), limit, |e.name|, Leading(vol.fs.files[i], n, 0))
      ensures ok ==> Inserted(old(Listing()), Listing(), e, at) && (old(AllTiled()) ==> AllTiled())
      ensures ok ==> k < n && NoSlots(old(Blocks()), limit, |e.name|, k) && Blocks() == old(Blocks())[k := Blocks()[k]]
      ensures !ok ==> vol.disk == old(vol.disk)
      ensures OthersKept(i, old(vol.fs), old(vol.disk), vol.fs, vol.disk)
    {
      hide Fits, Entries, All, FindSlot, Space, PutIn, Inserted, Tiled, SlotOk, Lookup, Own, A.GeoOk, FilesStored,
           Divides32, DirBlocks, WithTail, NoSlots;
      at, k := 0, 0;
      var found, a := SearchSlot(e);
      ok := found.Some?;
      if ok {
        k := found.value;
        at := AddOk(Blocks(), vol.geo.bs, limit, found.value, e, tail);
        StorePage(found.value, a, tail);
      }
    }

    /** No block is to be had: what the failed call has stored stays. */
    method Refuse(tails: nat -> Block)
      requires Valid() && Refused(vol.geo, vol.cap, vol.fs, i, n)
      modifies vol
      ensures Valid() <==> !Hazard(vol.geo, vol.cap, old(vol.fs), i, n)
      ensures vol.fs == Asked(vol.geo, vol.cap, old(vol.fs), i, n) && vol.sizes == old(vol.sizes)
      ensures i < |vol.fs.files| && OthersKept(i, old(vol.fs), old(vol.disk), vol.fs, vol.disk)
      ensures !Loses(vol.geo, vol.cap, old(vol.fs), i, n) ==> vol.fs == old(vol.fs) && vol.disk == old(vol.disk)
      ensures Loses(vol.geo, vol.cap, old(vol.fs), i, n) && Valid() ==>
                var lo, hi := LostLo(vol.geo, vol.cap, old(vol.fs), i, n), LostHi(vol.geo, vol.cap, old(vol.fs), i, n);
                && lo <= hi && Blocks() == Emptied(old(Blocks()), vol.geo.bs, lo, hi)
                && DirOk(old(Blocks())[lo..hi], vol.geo.bs, limit)
                && (Listing() == old(Listing()) <==> All(old(Blocks())[lo..hi], vol.geo.bs, limit) == [])
                && (old(AllTiled()) ==> AllTiled())
    {
      hide Fits, Entries, All, Tiled, Lookup, Ensure, Own, HasDepth, A.GeoOk, A.Inv, FilesStored, Divides32, DirBlocks,
           Span, Hazard, Loses, LostLo, LostHi, Emptied, MappedTiled;
      GrowReady(vol.geo, vol.cap, vol.fs, vol.disk, i, n);
      HazardLoses(vol.geo, vol.cap, vol.fs, i, n);
      EnsureOthers(vol.geo, vol.cap, vol.fs, i, n);
      ghost var fs0, disk0, blocks := vol.fs, vol.disk, Blocks();
      vol.Stop(i, n, tails);
      if Loses(vol.geo, vol.cap, fs0, i, n) && !Hazard(vol.geo, vol.cap, fs0, i, n) {
        StopBlocks(vol.geo, vol.cap, fs0, disk0, i, n, vol.disk);
        StopOk(vol.geo, vol.cap, fs0, i, vol.fs.files[i], blocks, limit);
      }
    }

    /** A block behind the others, with the entry as its one record. */
    method Extend(e: Entry, tail: Block, tails: nat -> Block) returns (ghost at: nat)
      requires Valid() && !Refused(vol.geo, vol.cap, vol.fs, i, n)
      requires e.ino < U32 && !BadName(e.name) && limit + |tail| == vol.geo.bs
      modifies this, vol
      ensures Valid() && n == if Span(vol.geo.bs, old(n) + 1) < U32 then old(n) + 1 else 0
      ensures n > 0 ==> Inserted(old(Listing()), Listing(), e, at) && (old(AllTiled()) ==> AllTiled())
      ensures n > 0 ==> Blocks()[..old(n)] == old(Blocks())
      ensures vol.fs == Asked(vol.geo, vol.cap, old(vol.fs), i, old(n))
      ensures |old(vol.sizes)| == |vol.sizes| && vol.sizes == old(vol.sizes)[i := Span(vol.geo.bs, n)]
      ensures OthersKept(i, old(vol.fs), old(vol.disk), vol.fs, vol.disk)
    {
      hide Fits, Entries, All, Inserted, Tiled, Lookup, Ensure, Own, HasDepth, A.GeoOk, A.Inv, FilesStored, Divides32,
           DirBlocks, WithTail, Span, Chunk;
      GrowReady(vol.geo, vol.cap, vol.fs, vol.disk, i, n);
      ghost var fs0, disk0, blocks := vol.fs, vol.disk, Blocks();
      var a := new Byte[vol.geo.bs](_ => 0);
      at := GrowOk(blocks, vol.geo.bs, limit, a[..], e, tail);
      StoreRecord(a, 0, e, limit);
      var page := WithTail(a[..], limit, tail);
      ghost var disk1 := vol.Turn(i, n, 0, page, tails);
      ChunkAnswers(vol.geo, vol.cap, fs0, disk0, i, n, 0, page, vol.fs, disk1, vol.disk);
      GrowBlocks(vol.geo, vol.cap, fs0, disk0, i, n, page, vol.fs, disk1, vol.disk);
      var size := Add32(vol.sizes[i], vol.geo.bs);
      vol.sizes := vol.sizes[i := size];
      n := if size == 0 then 0 else n + 1;
    }

    /** `ext4_add_entry`. The entry goes to the first slot among the blocks before the first hole, else
        to a block behind the last one; a call that cannot have that block may lose others. */
    method Add(ino: nat, name: Block, kind: Byte, tail: Block, tails: nat -> Block)
      returns (rc: int, ghost at: nat, ghost k: nat)
      requires Valid() && ino < U32 && limit + |tail| == vol.geo.bs
      modifies this, vol
      ensures var full := NoSlots(old(Blocks()), limit, |name|, Leading(old(vol.fs).files[i], old(n), 0));
              && rc == (if BadName(name) || (full && Refused(vol.geo, vol.cap, old(vol.fs), i, old(n))) then -1 else 0)
              && n == (if rc == -1 || !full then old(n) else if Span(vol.geo.bs, old(n) + 1) < U32 then old(n) + 1
                       else 0)
              && vol.fs == (if BadName(name) || !full then old(vol.fs)
                            else Asked(vol.geo, vol.cap, old(vol.fs), i, old(n)))
      ensures |old(vol.sizes)| == |vol.sizes| && i < |vol.sizes|
              && vol.sizes == old(vol.sizes)[i := Span(vol.geo.bs, n)]
      ensures Valid() <==> rc == 0 || BadName(name) || !Hazard(vol.geo, vol.cap, old(vol.fs), i, n)
      ensures i < |vol.fs.files| && OthersKept(i, old(vol.fs), old(vol.disk), vol.fs, vol.disk)
      ensures rc == 0 && n > 0 ==>
                && Inserted(old(Listing()), Listing(), Entry(ino, name, kind), at) && (old(AllTiled()) ==> AllTiled())
                && k <= old(n) && k < n && (k < old(n) ==> NoSlots(old(Blocks()), limit, |name|, k))
                && Blocks() == if k < old(n) then old(Blocks())[k := Blocks()[k]] else old(Blocks()) + [Blocks()[k]]
      ensures rc == -1 && (BadName(name) || !Loses(vol.geo, vol.cap, old(vol.fs), i, n)) ==>
                vol.fs == old(vol.fs) && vol.disk == old(vol.disk)
      ensures rc == -1 && !BadName(name) && Loses(vol.geo, vol.cap, old(vol.fs), i, n) && Valid() ==>
                var lo, hi := LostLo(vol.geo, vol.cap, old(vol.fs), i, n), LostHi(vol.geo, vol.cap, old(vol.fs), i, n);
                && lo <= hi && Blocks() == Emptied(old(Blocks()), vol.geo.bs, lo, hi)
                && DirOk(old(Blocks())[lo..hi], vol.geo.bs, limit)
                && (Listing() == old(Listing()) <==> All(old(Blocks())[lo..hi], vol.geo.bs, limit) == [])
                && (old(AllTiled()) ==> AllTiled())
    {
      hide Fits, Entries, All, Inserted, Tiled, Lookup, Own, FilesStored, DirBlocks, Span, Hazard, Loses, LostLo,
           LostHi, Emptied, MappedTiled, DirOk, NoSlots, Leading, Ensure, HasDepth, A.GeoOk, A.Inv;
      at, k := 0, 0;
      if BadName(name) {
        return -1, at, k;
      }
      var e := Entry(ino, name, kind);
      var ok;
      ok, at, k := AddToMapped(e, tail);
      if ok {
        return 0, at, k;
      }
      GrowReady(vol.geo, vol.cap, vol.fs, vol.disk, i, n);
      if Ensure(vol.geo, vol.cap, vol.fs, i, n).1 == None {
        Refuse(tails);
        return -1, at, k;
      }
      k := n;
      at := Extend(e, tail, tails);
      rc := 0;
      assert n > 0 ==> Blocks() == Blocks()[..k] + [Blocks()[k]];
    }

    /** The search of `ext4_remove_entry`: the first block before the first hole with that name, its page
        already changed. */
    method SearchName(name: Block) returns (found: Option<nat>, a: array<Byte>)
      requires Valid()
      ensures fresh(a)
      ensures var m := match found case Some(k) => k case None => Leading(vol.fs.files[i], n, 0);
              m <= n && forall j | 0 <= j < m :: FindName(Blocks()[j], limit, name, 0) == None
      ensures found.Some? ==>
                && found.value < Leading(vol.fs.files[i], n, 0) && a.Length == vol.geo.bs
                && var was := Blocks()[found.value];
                   var t := FindName(was, limit, name, 0);
                && t.Some? && t.value + HEADER <= |was| && a[..] == Cleared(was, t.value)
    {
      hide Fits, FindName, Cleared, Lookup, Own, A.GeoOk, FilesStored, Divides32, Zeros;
      a := new Byte[0];
      ghost var blocks, t := Blocks(), vol.fs.files[i];
      var k := 0;
      while k < n
        invariant k <= n && fresh(a) && Leading(t, n, 0) == Leading(t, n, k)
        invariant forall j | 0 <= j < k :: FindName(blocks[j], limit, name, 0) == None
      {
        var addr := Lookup(vol.fs.files[i], k);
        if addr == None {
          break;
        }
        OwnMapped(vol.geo, vol.cap, vol.fs, vol.disk, i);
        a := ReadPage(addr.value);
        var ok := RemoveInBlock(a, limit, name);
        if ok {
          return Some(k), a;
        }
        k := k + 1;
      }
      found := None;
    }

    /** `ext4_remove_entry`: one entry of that name less, or -1 when the blocks before the first hole
        have none. */
    method Remove(name: Block, tail: Block) returns (rc: int, ghost at: nat)
      requires Valid() && limit + |tail| == vol.geo.bs
      modifies vol
      ensures Valid() && vol.fs == old(vol.fs) && vol.sizes == old(vol.sizes)
      ensures rc == -1 || rc == 0
      ensures rc == -1 ==> vol.disk == old(vol.disk)
      ensures var m := Leading(vol.fs.files[i], n, 0);
              rc == -1 <==> BadName(name) || NoName(All(old(Blocks())[..m], vol.geo.bs, limit), name)
      ensures rc == 0 ==> Removed(old(Listing()), Listing(), name, at) && (old(AllTiled()) ==> AllTiled())
      ensures OthersKept(i, old(vol.fs), old(vol.disk), vol.fs, vol.disk)
    {
      hide Fits, Entries, All, FindName, Tiled, Cleared, Lookup, Own, A.GeoOk, FilesStored, Divides32, DirBlocks,
           WithTail, Leading;
      at := 0;
      if BadName(name) {
        return -1, at;
      }
      var found, a := SearchName(name);
      ghost var m := Leading(vol.fs.files[i], n, 0);
      if found == None {
        NoneFound(Blocks()[..m], vol.geo.bs, limit, name);
        return -1, at;
      }
      ghost var _ := RemoveOk(Blocks()[..m], vol.geo.bs, limit, found.value, name, tail);
      at := RemoveOk(Blocks(), vol.geo.bs, limit, found.value, name, tail);
      StorePage(found.value, a, tail);
      rc := 0;
    }

    /** `ext4_dir_next`: the entry at or after the position, and the position after it. A block that is
        not mapped is passed over. */
    method NextEntry(pos: nat) returns (r: Option<(Entry, nat)>)
      requires Valid()
      ensures r == Directory.Next(Blocks(), vol.geo.bs, limit, pos)
    {
      hide Fits, Entries, Span, BlockOf, Within, EntryAt, ScanFrom, RecLen, Lookup, Own, A.GeoOk, FilesStored,
           Divides32, Zeros;
      var bs := vol.geo.bs;
      ghost var blocks := Blocks();
      ZerosEmpty(bs, limit);
      var p := pos;
      while p < Span(bs, n)
        invariant Directory.Next(blocks, bs, limit, p) == Directory.Next(blocks, bs, limit, pos)
        decreases Span(bs, n) - p
      {
        Spot(bs, n, p);
        var k, w := BlockOf(bs, p), Within(bs, p);
        var addr := Lookup(vol.fs.files[i], k);
        if addr.Some? {
          OwnMapped(vol.geo, vol.cap, vol.fs, vol.disk, i);
          var blk := vol.disk[addr.value];
          var t := Scan(blk, limit, w);
          ScanGood(blk, limit, w, 0);
          if t.Some? {
            return Some((EntryAt(blk, t.value), Span(bs, k) + t.value + RecLen(blk, t.value)));
          }
        }
        p := Span(bs, k + 1);
      }
      return None;
    }
  }

  /** The inner loop of `ext4_dir_next`. */
  method Scan(blk: Block, limit: nat, min: nat) returns (t: Option<nat>)
    ensures t == ScanFrom(blk, limit, min, 0)
  {
    hide Le16, Ino, NameLen;
    var off := 0;
    while off < limit
      invariant ScanFrom(blk, limit, min, 0) == ScanFrom(blk, limit, min, off)
      decreases limit - off
    {
      var rl := RecLen(blk, off);
      if rl < HEADER || off + rl > limit {
        break;
      }
      if Listed(blk, off) && off >= min {
        return Some(off);
      }
      off := off + rl;
    }
    return None;
  }

  /** The record found in block k, freed. */
  lemma RemoveOk(dir: seq<Block>, bs: nat, limit: nat, k: nat, name: Block, tail: Block) returns (at: nat)
    requires DirOk(dir, bs, limit) && k < |dir| && limit + |tail| == bs && name != []
    requires FindName(dir[k], limit, name, 0).Some? && FindName(dir[k], limit, name, 0).value + HEADER <= bs
    requires forall j | 0 <= j < k :: FindName(dir[j], limit, name, 0) == None
    ensures var b := WithTail(Cleared(dir[k], FindName(dir[k], limit, name, 0).value), limit, tail);
            && DirOk(dir[k := b], bs, limit)
            && Removed(All(dir, bs, limit), All(dir[k := b], bs, limit), name, at)
            && (Tiled(dir[k], limit, 0) ==> Tiled(b, limit, 0))
  {
    hide Fits, Entries, All, FindName, Removed, Tiled, Cleared, NoName;
    var at0 := RemoveAt(dir[k], limit, name, 0);
    var c := Cleared(dir[k], FindName(dir[k], limit, name, 0).value);
    var b := WithTail(c, limit, tail);
    TailIgnored(c, limit, tail);
    AllSet(dir, k, b, bs, limit);
    NoneFound(dir[..k], bs, limit, name);
    RemovedWithin(All(dir[..k], bs, limit), Entries(dir[k], limit, 0), Entries(b, limit, 0),
                  All(dir[k + 1..], bs, limit), name, at0);
    at := |All(dir[..k], bs, limit)| + at0;
  }

  lemma {:induction false} NoneFound(dir: seq<Block>, bs: nat, limit: nat, name: Block)
    requires DirOk(dir, bs, limit) && name != []
    requires forall j | 0 <= j < |dir| :: FindName(dir[j], limit, name, 0) == None
    ensures NoName(All(dir, bs, limit), name)
  {
    hide Fits, Entries, FindName;
    if dir != [] {
      var n := |dir| - 1;
      NoneFound(dir[..n], bs, limit, name);
      FindNameOk(dir[n], limit, name, 0);
    }
  }

  /** The slot found in block k, filled. */
  lemma AddOk(dir: seq<Block>, bs: nat, limit: nat, k: nat, e: Entry, tail: Block) returns (at: nat)
    requires DirOk(dir, bs, limit) && k < |dir| && limit + |tail| == bs && e.ino < U32 && 0 < |e.name| < NAME_MAX
    requires !FindSlot(dir[k], limit, Space(|e.name|), 0).NoSlot?
    requires SlotOk(dir[k], limit, Space(|e.name|), 0, FindSlot(dir[k], limit, Space(|e.name|), 0))
    ensures var b := WithTail(PutIn(dir[k], e, FindSlot(dir[k], limit, Space(|e.name|), 0)), limit, tail);
            && DirOk(dir[k := b], bs, limit)
            && Inserted(All(dir, bs, limit), All(dir[k := b], bs, limit), e, at)
            && (Tiled(dir[k], limit, 0) ==> Tiled(b, limit, 0))
  {
    hide Fits, Entries, All, FindSlot, Space, Inserted, Tiled, PutRec;
    var slot := FindSlot(dir[k], limit, Space(|e.name|), 0);
    var at0;
    match slot {
      case Take(t, rl) => at0 := AddTake(dir[k], limit, e, 0, t, rl);
      case Split(t) => at0 := AddSplit(dir[k], limit, e, 0, t);
    }
    var c := PutIn(dir[k], e, slot);
    var b := WithTail(c, limit, tail);
    TailIgnored(c, limit, tail);
    AllSet(dir, k, b, bs, limit);
    InsertedWithin(All(dir[..k], bs, limit), Entries(dir[k], limit, 0), Entries(b, limit, 0),
                   All(dir[k + 1..], bs, limit), e, at0);
    at := |All(dir[..k], bs, limit)| + at0;
  }

  /** A new block with one record. */
  lemma GrowOk(dir: seq<Block>, bs: nat, limit: nat, zeros: Block, e: Entry, tail: Block) returns (at: nat)
    requires DirOk(dir, bs, limit) && limit + |tail| == bs == |zeros| && e.ino < U32 && 0 < |e.name| < NAME_MAX
    ensures var b := WithTail(PutRec(zeros, 0, e, limit), limit, tail);
            && DirOk(dir + [b], bs, limit)
            && Inserted(All(dir, bs, limit), All(dir + [b], bs, limit), e, at)
            && Tiled(b, limit, 0)
  {
    hide Fits, Entries, All, Inserted, Tiled, PutRec;
    var c := PutRec(zeros, 0, e, limit);
    var b := WithTail(c, limit, tail);
    AddFresh(zeros, limit, e);
    TailIgnored(c, limit, tail);
    AllOne(b, bs, limit);
    AllConcat(dir, [b], bs, limit);
    InsertedAt(All(dir, bs, limit), [], e);
    assert All(dir, bs, limit) + [] == All(dir, bs, limit);
    assert All(dir, bs, limit) + Shown(e) + [] == All(dir, bs, limit) + Shown(e);
    at := |All(dir, bs, limit)|;
  }
}
