/** A directory that an addition takes entries from: its blocks are fragmented, no block has room, the
    last leaf is full under a full root, and two blocks are free. The data block and the new leaf take
    both, the root cannot grow, and the right half of the leaf is gone (kernel/fs/ext4.c:1858-1863). */
module LostEntries {
  import opened Words
  import opened Bytes
  import opened Extents
  import opened ExtentTree
  import opened ExtentBlocks
  import opened FailedInsert
  import opened Ownership
  import opened StoredTree
  import opened FileData
  import opened FileWrite
  import opened Directory
  import opened LostBlocks
  import opened DirectoryVolume
  import L = LostSplit
  import D = DirBlock
  import A = Allocator

  // ----- the tree

  /** Extents i to n - 1 of the last leaf: consecutive file blocks, on disk blocks that go down. */
  function Down(i: nat, n: nat): seq<Slot>
    decreases n - i
  {
    if i >= n then [] else [Slot(3 + i, 1, n - i)] + Down(i + 1, n)
  }

  lemma {:induction false} DownIs(i: nat, n: nat, hi: nat, g: nat, b: nat)
    requires i <= n && 3 + n <= hi < U32
    ensures |Down(i, n)| == n - i && forall k | 0 <= k < n - i :: Down(i, n)[k] == Slot(3 + i + k, 1, n - i - k)
    ensures SortedIn(Down(i, n), 3 + i, hi) && (Find(Down(i, n), g).Some? <==> 3 + i <= g < 3 + n)
    ensures DataUses(Down(i, n), b) == One(1 <= b <= n - i)
    decreases n - i
  {
    if i < n {
      DownIs(i + 1, n, hi, g, b);
      assert Down(i, n)[1..] == Down(i + 1, n);
    }
  }

  function DenseKids(cap: nat): seq<Kid> {
    [L.OneLeaf(0, cap + 1, cap + 4), L.OneLeaf(1, cap + 2, cap + 5), L.OneLeaf(2, cap + 3, cap + 6),
     Kid(NewIndex(3, cap + 7), Leaf(Down(0, cap)))]
  }

  /** Data in blocks 1 to cap + 3, nodes in the next four, cap + 3 file blocks. */
  function DenseTree(cap: nat): Tree { Branch(DenseKids(cap)) }

  lemma TreeWf(cap: nat)
    requires 5 <= cap <= 84
    ensures RootWf(DenseTree(cap), cap) && Depth(DenseTree(cap)) == 1 && HasDepth(DenseTree(cap), 1)
  {
    var kids := DenseKids(cap);
    DownIs(0, cap, U32 - 1, 0, 0);
    assert KidWf(kids[3], 0, 3, U32 - 1, cap);
    L.OneLeafWf(0, cap + 1, cap + 4, 0, 1, cap);
    L.OneLeafWf(1, cap + 2, cap + 5, 1, 2, cap);
    L.OneLeafWf(2, cap + 3, cap + 6, 2, 3, cap);
    OneKid(kids[3], 0, 3, U32 - 1, cap);
    assert kids[1..] == [kids[1], kids[2], kids[3]] && kids[1..][1..] == [kids[2], kids[3]]
           && [kids[2], kids[3]][1..] == [kids[3]];
    assert KidsWf([kids[2], kids[3]], 0, 2, U32 - 1, cap);
    assert KidsWf(kids[1..], 0, 1, U32 - 1, cap);
    assert KidsWf(kids, 0, 0, U32 - 1, cap);
    RootDepth(DenseTree(cap), cap);
  }

  lemma TreeUses(cap: nat, b: nat)
    requires 5 <= cap <= 84
    ensures Uses(DenseTree(cap), b) == One(1 <= b <= cap + 7)
  {
    hide Down, DataUses, ListUses;
    var kids := DenseKids(cap);
    DownIs(0, cap, U32 - 1, 0, b);
    assert kids == [kids[0], kids[1]] + [kids[2], kids[3]];
    ListConcat([kids[0], kids[1]], [kids[2], kids[3]], b);
    ListTwo(kids[0], kids[1], b);
    ListTwo(kids[2], kids[3], b);
    BranchUses(kids, b);
    DataOne(Slot(0, 1, cap + 1), b);
    DataOne(Slot(1, 1, cap + 2), b);
    DataOne(Slot(2, 1, cap + 3), b);
  }

  lemma TreeDense(cap: nat)
    requires 5 <= cap <= 84
    ensures Dense(DenseTree(cap), cap + 3)
  {
    hide Find, Down;
    var kids := DenseKids(cap);
    assert Key(kids[0]) == 0 && Key(kids[1]) == 1 && Key(kids[2]) == 2 && Key(kids[3]) == 3;
    forall g: nat ensures Lookup(DenseTree(cap), g).Some? <==> g < cap + 3 {
      DownIs(0, cap, U32 - 1, g, 0);
      FindOne(Slot(0, 1, cap + 1), g);
      FindOne(Slot(1, 1, cap + 2), g);
      FindOne(Slot(2, 1, cap + 3), g);
      assert Route(kids, g) == if g < 3 then g else 3;
    }
  }

  /** The next file block belongs behind the last extent of the full leaf. */
  lemma TreeFull(cap: nat)
    requires 5 <= cap <= 84
    ensures RootFull(DenseTree(cap), cap + 3, cap + 8, cap, 1)
  {
    hide Down, NeedsEntry;
    TreeWf(cap);
    DownIs(0, cap, U32 - 1, 0, 0);
    DownApart(cap);
    assert Route(DenseKids(cap), cap + 3) == 3;
  }

  lemma DownApart(cap: nat)
    requires 5 <= cap <= 84
    ensures NeedsEntry(Down(0, cap), cap + 3, cap + 8)
  {
    hide Down;
    DownIs(0, cap, U32 - 1, 0, 0);
    forall s | s in Down(0, cap) ensures !(s.key <= cap + 3 < s.key + Len(s)) && !Extends(s, cap + 3, cap + 8) {
      var k :| 0 <= k < cap && Down(0, cap)[k] == s;
    }
  }

  // ----- the blocks

  /** Four records of 256 bytes whose names of 248 bytes fill them; b and the place set them apart. */
  function FullBlock(b: nat): (r: Block)
    requires b < 256
    ensures |r| == 1024
  {
    seq(1024, i requires 0 <= i < 1024 => FullByte(b, i / 256, i % 256))
  }

  function FullByte(b: Byte, q: nat, w: nat): Byte
    requires q < 4
  {
    match w
    case 0 => 12
    case 5 => 1
    case 6 => 248
    case 7 => 1
    case 8 => b
    case 9 => q
    case _ => if w < 8 then 0 else 97
  }

  lemma FullAt(b: nat, q: nat, w: nat)
    requires b < 256 && q < 4 && w < 256
    ensures FullBlock(b)[256 * q + w] == FullByte(b, q, w)
  {
    hide FullByte;
    var i := 256 * q + w;
    assert i / 256 == q && i % 256 == w;
  }

  lemma Words12()
    ensures Word(0, 0, 0, 12) == 12 && Word(0, 0, 1, 0) == 256
  {
  }

  lemma FullRecord(b: nat, q: nat)
    requires b < 256 && q < 4
    ensures var blk, off := FullBlock(b), 256 * q;
            && D.RecLen(blk, off) == 256 && D.Ino(blk, off) == 12 && D.NameLen(blk, off) == 248
            && D.Space(D.NameLen(blk, off)) == 256
  {
    hide FullBlock, Word;
    var blk, off := FullBlock(b), 256 * q;
    FullAt(b, q, 0);
    FullAt(b, q, 1);
    FullAt(b, q, 2);
    FullAt(b, q, 3);
    FullAt(b, q, 4);
    FullAt(b, q, 5);
    FullAt(b, q, 6);
    Words12();
  }

  lemma {:induction false} FullFrom(b: nat, q: nat, need: nat)
    requires b < 256 && q <= 4 && need > 0
    ensures var blk, off := FullBlock(b), 256 * q;
            && D.Fits(blk, 1024, off) && |D.Entries(blk, 1024, off)| == 4 - q && D.Tiled(blk, 1024, off)
            && D.FindSlot(blk, 1024, need, off).NoSlot?
    decreases 4 - q
  {
    hide D.RecLen, D.Ino, D.NameLen, D.Space, FullBlock;
    if q < 4 {
      FullRecord(b, q);
      FullFrom(b, q + 1, need);
    }
  }

  predicate Full(blk: Block) { exists b: nat :: b < 256 && blk == FullBlock(b) }

  predicate AllFull(blocks: seq<Block>) { forall k | 0 <= k < |blocks| :: Full(blocks[k]) }

  lemma {:induction false} FullEntries(blocks: seq<Block>)
    requires AllFull(blocks)
    ensures DirOk(blocks, 1024, 1024) && |All(blocks, 1024, 1024)| == 4 * |blocks|
  {
    hide D.Fits, D.Entries, FullBlock, D.FindSlot, D.Tiled;
    assert Sizes(1024, 1024);
    forall k | 0 <= k < |blocks| ensures |blocks[k]| == 1024 && D.Fits(blocks[k], 1024, 0)
           && |D.Entries(blocks[k], 1024, 0)| == 4 {
      var b: nat :| b < 256 && blocks[k] == FullBlock(b);
      FullFrom(b, 0, 1);
    }
    if blocks != [] {
      FullEntries(blocks[..|blocks| - 1]);
    }
  }

  lemma FullNoSlots(blocks: seq<Block>, nl: nat, m: nat)
    requires AllFull(blocks) && m <= |blocks|
    ensures NoSlots(blocks, 1024, nl, m)
  {
    hide D.Fits, D.Entries, FullBlock, D.FindSlot, D.Tiled;
    forall k | 0 <= k < m ensures D.NoRoom(blocks[k], 1024, D.Space(nl), 0, 1024) {
      var b: nat :| b < 256 && blocks[k] == FullBlock(b);
      FullFrom(b, 0, D.Space(nl));
      D.SlotIff(blocks[k], 1024, D.Space(nl));
    }
  }

  // ----- the volume

  function DenseFs(cap: nat): Fs { Fs(L.FullVol(cap), [DenseTree(cap)]) }

  function Raw(cap: nat): (r: seq<Block>)
    requires cap <= 84
    ensures |r| == cap + 10 && forall b | 0 <= b < |r| :: r[b] == FullBlock(b)
  {
    seq(cap + 10, b requires 0 <= b < cap + 10 => FullBlock(b))
  }

  /** The records in the data blocks, the tree in the node blocks. */
  function DenseDisk(cap: nat): (r: seq<Block>)
    requires cap <= 84
  {
    WithNodes(DenseTree(cap), 1, Raw(cap), 1024, cap, _ => [])
  }

  lemma DenseOwn(cap: nat)
    requires 5 <= cap <= 84
    ensures Own(L.SmallGeo(cap), cap, DenseFs(cap))
  {
    hide DenseTree, L.FullVol, Uses, A.Used, A.Inv, A.GeoOk, RootWf;
    var geo, fs := L.SmallGeo(cap), DenseFs(cap);
    TreeWf(cap);
    L.VolOk(cap);
    forall b: nat ensures Total(fs.files, b) == One(1 <= b <= cap + 7) && OwnedOnce(geo, fs, b) {
      TreeUses(cap, b);
      L.VolBits(cap, b);
      assert fs.files[..0] == [] && Total([], b) == 0;
    }
  }

  lemma DenseStored(cap: nat)
    requires 5 <= cap <= 84
    ensures Volume(L.SmallGeo(cap), cap, DenseFs(cap), DenseDisk(cap)) && FilesStored(DenseFs(cap), DenseDisk(cap))
  {
    hide DenseTree, Own, NodeUses, DataUses, RootWf, Stored, FullBlock, WithNodes, Divides32;
    var t := DenseTree(cap);
    TreeWf(cap);
    DenseOwn(cap);
    assert Divides32(1024) && DiskOk(Raw(cap), 1024) by { Small(); }
    SameSizes(t, 1, Raw(cap), 1024, cap, _ => []);
    forall b: nat ensures NodeUses(t, b) <= 1 && (NodeUses(t, b) > 0 ==> b < cap + 10) {
      TreeUses(cap, b);
    }
    StoresTree(t, cap, Raw(cap), 1024, _ => []);
  }

  lemma Small()
    ensures Divides32(1024)
  {
  }

  lemma DenseFull(cap: nat)
    requires 5 <= cap <= 84
    ensures AllFull(DirBlocks(DenseTree(cap), DenseDisk(cap), 1024, cap + 3))
  {
    hide DenseTree, Own, NodeUses, Lookup, FullBlock, WithNodes, A.Used;
    var t, geo, fs, disk := DenseTree(cap), L.SmallGeo(cap), DenseFs(cap), DenseDisk(cap);
    DenseOwn(cap);
    TreeDense(cap);
    DenseStored(cap);
    OwnMapped(geo, cap, fs, disk, 0);
    forall k | 0 <= k < cap + 3 ensures Full(FileBlock(t, disk, 1024, k)) {
      assert Lookup(t, k).Some?;
      var a := Lookup(t, k).value;
      NoSharing(geo, cap, fs, 0, k, 0, k, a);
      OthersStay(t, 1, Raw(cap), 1024, cap, _ => [], a);
    }
  }

  /** An addition under any name is refused here, and the entries of the last blocks are gone. */
  lemma EntriesVanish(cap: nat, nl: nat)
    requires 5 <= cap <= 84
    ensures var geo, fs, disk, n := L.SmallGeo(cap), DenseFs(cap), DenseDisk(cap), cap + 3;
            var blocks := DirBlocks(fs.files[0], disk, 1024, n);
            && Volume(geo, cap, fs, disk) && FilesStored(fs, disk) && Dense(fs.files[0], n)
            && DirOk(blocks, 1024, 1024) && |All(blocks, 1024, 1024)| == 4 * n
            && NoSlots(blocks, 1024, nl, Leading(fs.files[0], n, 0)) && Refused(geo, cap, fs, 0, n)
            && A.GeoOk(geo) && A.Inv(geo, fs.vol) && Loses(geo, cap, fs, 0, n) && !Hazard(geo, cap, fs, 0, n)
            && var left := Emptied(blocks, 1024, LostLo(geo, cap, fs, 0, n), LostHi(geo, cap, fs, 0, n));
            && DirOk(left, 1024, 1024) && |All(left, 1024, 1024)| == 4 * LostLo(geo, cap, fs, 0, n) < 4 * n
  {
    hide DenseTree, L.FullVol, Own, Pool, A.Used, A.Free, A.Shape, A.GroupOk, A.Sum, A.GeoOk, RootFull, StaysLeft,
         HasDepth, Lookup, Ensure, FilesStored, DirOk, All, DirBlocks, AllFull, Emptied, LostFrom, LostTo, Divides32,
           DenseDisk;
    var geo, fs, disk, n := L.SmallGeo(cap), DenseFs(cap), DenseDisk(cap), cap + 3;
    var blocks := DirBlocks(fs.files[0], disk, 1024, n);
    TreeWf(cap);
    TreeFull(cap);
    TreeDense(cap);
    L.VolOk(cap);
    L.VolPool(cap, 0);
    DenseOwn(cap);
    DenseStored(cap);
    DenseFull(cap);
    FullEntries(blocks);
    FullNoSlots(blocks, nl, Leading(fs.files[0], n, 0));
    assert fs.files[0].Branch? by { Branches(cap); }
    assert Lookup(fs.files[0], n) == None;
    assert Loses(geo, cap, fs, 0, n);
    DenseLoses(geo, cap, fs, 0, n);
    DenseEntries(geo, cap, fs, 0, blocks, 1024);
    EnsureFailsIff(geo, cap, fs, 0, n);
    var lo := LostLo(geo, cap, fs, 0, n);
    FullPrefix(blocks, lo);
    FullEntries(blocks[..lo]);
  }

  lemma Branches(cap: nat)
    ensures DenseTree(cap).Branch?
  {
  }

  lemma FullPrefix(blocks: seq<Block>, m: nat)
    requires AllFull(blocks) && m <= |blocks|
    ensures AllFull(blocks[..m])
  {
  }
}
