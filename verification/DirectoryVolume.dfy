/** A directory as a file of the volume: its blocks are found through its extent tree, a block that is
    not mapped has no entries, and growing it by a block may fail and unmap others
    (kernel/fs/ext4.c:1783-1931, 2043-2090, 1564-1581). */
module DirectoryVolume {
  import opened Words
  import opened Bytes
  import opened Division
  import opened Extents
  import opened ExtentTree
  import opened ExtentBlocks
  import opened ExtentFailure
  import opened FailedInsert
  import opened LostRange
  import opened LostBlocks
  import opened Ownership
  import opened FileData
  import opened FileWrite
  import opened Directory
  import D = DirBlock
  import A = Allocator

  /** File block k; what is not mapped is skipped by the iterator, and so are zeros. */
  function FileBlock(t: Tree, disk: seq<Block>, bs: nat, k: nat): Block {
    var a := Lookup(t, k);
    if a.Some? && a.value < |disk| then disk[a.value] else Zeros(bs)
  }

  /** The first n blocks of the file. */
  function DirBlocks(t: Tree, disk: seq<Block>, bs: nat, n: nat): (r: seq<Block>)
    ensures |r| == n && forall k | 0 <= k < n :: r[k] == FileBlock(t, disk, bs, k)
  {
    seq(n, k requires 0 <= k < n => FileBlock(t, disk, bs, k))
  }

  /** The blocks with those in [from, to) gone. */
  function Emptied(blocks: seq<Block>, bs: nat, from: nat, to: nat): (r: seq<Block>)
    ensures |r| == |blocks|
  {
    seq(|blocks|, k requires 0 <= k < |blocks| => if from <= k < to then Zeros(bs) else blocks[k])
  }

  // ----- a block without entries

  lemma ZeroLen(bs: nat)
    requires bs >= D.HEADER
    ensures D.RecLen(Zeros(bs), 0) == 0
  {
    hide Zeros;
  }

  lemma ZerosEmpty(bs: nat, limit: nat)
    requires Sizes(bs, limit)
    ensures D.Fits(Zeros(bs), limit, 0) && D.Entries(Zeros(bs), limit, 0) == []
    ensures forall w :: ScanFrom(Zeros(bs), limit, w, 0) == None
  {
    hide Zeros, D.RecLen;
    ZeroLen(bs);
  }

  lemma {:induction false} AllZeros(bs: nat, limit: nat, m: nat)
    requires Sizes(bs, limit)
    ensures var zs := seq(m, _ => Zeros(bs)); DirOk(zs, bs, limit) && All(zs, bs, limit) == []
  {
    hide D.Fits, D.Entries, Zeros;
    ZerosEmpty(bs, limit);
    var zs := seq(m, _ => Zeros(bs));
    if m > 0 {
      AllZeros(bs, limit, m - 1);
      assert zs[..m - 1] == seq(m - 1, _ => Zeros(bs));
    }
  }

  /** What is left of the entries when the blocks in [from, to) are gone. */
  lemma EmptiedEntries(blocks: seq<Block>, bs: nat, limit: nat, from: nat, to: nat)
    requires DirOk(blocks, bs, limit) && from <= to <= |blocks|
    ensures DirOk(Emptied(blocks, bs, from, to), bs, limit) && DirOk(blocks[from..to], bs, limit)
    ensures DirOk(blocks[..from], bs, limit) && DirOk(blocks[to..], bs, limit)
    ensures All(Emptied(blocks, bs, from, to), bs, limit) ==
            All(blocks[..from], bs, limit) + All(blocks[to..], bs, limit)
    ensures All(Emptied(blocks, bs, from, to), bs, limit) == All(blocks, bs, limit) <==>
            All(blocks[from..to], bs, limit) == []
  {
    hide D.Fits, D.Entries, Zeros, All;
    ZerosEmpty(bs, limit);
    AllZeros(bs, limit, to - from);
    var pre, mid, post, zs := blocks[..from], blocks[from..to], blocks[to..], seq(to - from, _ => Zeros(bs));
    AllConcat(pre, mid, bs, limit);
    AllConcat(pre + mid, post, bs, limit);
    AllConcat(pre, zs, bs, limit);
    AllConcat(pre + zs, post, bs, limit);
    assert blocks == pre + mid + post;
    assert Emptied(blocks, bs, from, to) == pre + zs + post;
  }

  // ----- changing a block

  /** Storing file block k of file i changes that block of the directory only. */
  lemma SetBlock(geo: Geo, cap: nat, fs: Fs, disk: seq<Block>, i: nat, n: nat, k: nat, b: Block)
    requires Volume(geo, cap, fs, disk) && FilesStored(fs, disk) && i < |fs.files| && k < n && |b| == geo.bs
    requires Lookup(fs.files[i], k).Some?
    ensures var a := Lookup(fs.files[i], k).value;
            && a < |disk| && Volume(geo, cap, fs, disk[a := b]) && FilesStored(fs, disk[a := b])
            && DirBlocks(fs.files[i], disk[a := b], geo.bs, n) == DirBlocks(fs.files[i], disk, geo.bs, n)[k := b]
  {
    hide Lookup, A.Inv, OwnedOnce, RootWf, A.GeoOk, Divides32, FilesStored;
    var t := fs.files[i];
    var a := Lookup(t, k).value;
    OwnMapped(geo, cap, fs, disk, i);
    DataKeepsFiles(geo, cap, fs, disk, i, k, b);
    forall j | 0 <= j < n && j != k ensures FileBlock(t, disk[a := b], geo.bs, j) == FileBlock(t, disk, geo.bs, j) {
      if Lookup(t, j) == Some(a) {
        NoSharing(geo, cap, fs, i, j, i, k, a);
      }
    }
  }

  /** A block ensured behind the others and filled: the directory has one block more. */
  lemma GrowBlocks(geo: Geo, cap: nat, fs: Fs, disk: seq<Block>, i: nat, n: nat, b: Block,
                   fs': Fs, disk1: seq<Block>, disk': seq<Block>)
    requires Volume(geo, cap, fs, disk) && i < |fs.files| && n < U32 - 1 && |b| == geo.bs
    requires HasDepth(fs.files[i], Depth(fs.files[i])) && Chunk(geo, cap, fs, disk, i, n, 0, b, fs', disk1, disk')
    ensures |fs'.files| == |fs.files| && Volume(geo, cap, fs', disk')
    ensures DirBlocks(fs'.files[i], disk', geo.bs, n + 1) == DirBlocks(fs.files[i], disk, geo.bs, n) + [b]
    ensures Lookup(fs'.files[i], n).Some? && forall k | 0 <= k < n :: Lookup(fs'.files[i], k) == Lookup(fs.files[i], k)
    ensures OthersKept(i, fs, disk, fs', disk')
  {
    hide Lookup, A.Inv, A.GeoOk, Divides32, Own, Ensure, HasDepth, NodeUses, Loses;
    OwnGeo(geo, cap, fs);
    EnsureApart(geo, cap, fs, i, n, i, n);
    EnsureOthers(geo, cap, fs, i, n);
    ChunkWrites(geo, cap, fs, disk, i, n, 0, b, fs', disk1, disk', i, 0);
    var t, t' := fs.files[i], fs'.files[i];
    var r := Ensure(geo, cap, fs, i, n).1.value;
    assert disk'[r] == b;
    forall k | 0 <= k < n
      ensures Lookup(t', k) == Lookup(t, k) && FileBlock(t', disk', geo.bs, k) == FileBlock(t, disk, geo.bs, k)
    {
      EnsureApart(geo, cap, fs, i, n, i, k);
    }
  }

  // ----- a block that is not to be had

  /** The directory after a call for block n that loses a split without the hazard. */
  lemma StopBlocks(geo: Geo, cap: nat, fs: Fs, disk: seq<Block>, i: nat, n: nat, disk': seq<Block>)
    requires Volume(geo, cap, fs, disk) && i < |fs.files| && n < U32 - 1 && HasDepth(fs.files[i], Depth(fs.files[i]))
    requires A.GeoOk(geo) && A.Inv(geo, fs.vol) && Loses(geo, cap, fs, i, n) && !Hazard(geo, cap, fs, i, n)
    requires |Ensure(geo, cap, fs, i, n).0.files| == |fs.files|
    requires Volume(geo, cap, Ensure(geo, cap, fs, i, n).0, disk')
    requires forall b | 0 <= b < |disk| && NodeUses(Ensure(geo, cap, fs, i, n).0.files[i], b) == 0 ::
             disk'[b] == disk[b]
    ensures DirBlocks(Ensure(geo, cap, fs, i, n).0.files[i], disk', geo.bs, n) ==
            Emptied(DirBlocks(fs.files[i], disk, geo.bs, n), geo.bs, LostLo(geo, cap, fs, i, n),
                    LostHi(geo, cap, fs, i, n))
    ensures LostLo(geo, cap, fs, i, n) <= LostHi(geo, cap, fs, i, n) <= n
    ensures forall k | 0 <= k < n && Lookup(Ensure(geo, cap, fs, i, n).0.files[i], k).Some? ::
              Lookup(fs.files[i], k).Some? && !(LostLo(geo, cap, fs, i, n) <= k < LostHi(geo, cap, fs, i, n))
  {
    hide Lookup, A.Inv, A.GeoOk, Divides32, Own, Ensure, HasDepth, NodeUses, Loses, Hazard, LostFrom, LostTo, Pool;
    var fs' := Ensure(geo, cap, fs, i, n).0;
    var t' := fs'.files[i];
    EnsureUnmaps(geo, cap, fs, i, n, n + 1);
    forall k | 0 <= k < n
      ensures FileBlock(t', disk', geo.bs, k) ==
              if LostFrom(geo, fs, i, n) <= k < LostTo(geo, fs, i, n) then Zeros(geo.bs)
                 else FileBlock(fs.files[i], disk, geo.bs, k)
      ensures Lookup(t', k).Some? ==>
              Lookup(fs.files[i], k).Some? && !(LostFrom(geo, fs, i, n) <= k < LostTo(geo, fs, i, n))
    {
      EnsureUnmaps(geo, cap, fs, i, n, k);
      if Lookup(t', k).Some? {
        NoSharing(geo, cap, fs', i, k, i, k, Lookup(t', k).value);
      }
    }
  }

  // ----- a directory without holes and without blocks behind its end

  ghost predicate Dense(t: Tree, n: nat) {
    forall g: nat :: Lookup(t, g).Some? <==> g < n
  }

  lemma DenseBefore(t: Tree, cap: nat, n: nat)
    requires RootWf(t, cap) && Dense(t, n)
    ensures AllBefore(t, n)
  {
    hide Lookup, Find;
    if t != Leaf([]) {
      EntsSorted(t, Depth(t), 0, U32 - 1, ROOT_MAX, cap);
      forall s | s in Ents(t) ensures s.key < n {
        var k :| 0 <= k < |Ents(t)| && Ents(t)[k] == s;
        FindKey(Ents(t), k, 0, U32 - 1);
        RootLookup(t, cap, s.key);
      }
    }
  }

  /** For it the call is never the hazard, and when it loses a split, the last blocks of the directory
      are lost, at least one of them. */
  lemma DenseLoses(geo: Geo, cap: nat, fs: Fs, i: nat, n: nat)
    requires Own(geo, cap, fs) && i < |fs.files| && n < U32 - 1 && 5 <= cap && HasDepth(fs.files[i], Depth(fs.files[i]))
    requires A.GeoOk(geo) && A.Inv(geo, fs.vol) && Dense(fs.files[i], n) && Loses(geo, cap, fs, i, n)
    ensures !Hazard(geo, cap, fs, i, n) && |Pool(geo, fs.vol, 0)| >= 2
    ensures LostFrom(geo, fs, i, n) < n < LostTo(geo, fs, i, n)
  {
    hide Pool, A.GroupOk, A.Sum, A.Shape, A.Used, A.GeoOk, RootWf, HasDepth, Lookup, RootFull, StaysLeft, OwnedOnce,
         AllBefore, Ensure, LostKey;
    var t, pool := fs.files[i], Pool(geo, fs.vol, 0);
    DenseBefore(t, cap, n);
    RootAppends(t, n, pool[0], cap, |pool| - 1);
    RootAbove(t, cap, n, |pool| - 2);
    var g := LostBlock(geo, cap, fs, i, n);
    EnsureUnmaps(geo, cap, fs, i, n, g);
  }

  /** Then the entries before the lost blocks are left, and all of them only if the last blocks had none. */
  lemma DenseEntries(geo: Geo, cap: nat, fs: Fs, i: nat, blocks: seq<Block>, limit: nat)
    requires Own(geo, cap, fs) && i < |fs.files| && |blocks| < U32 - 1 && 5 <= cap
             && HasDepth(fs.files[i], Depth(fs.files[i]))
    requires A.GeoOk(geo) && A.Inv(geo, fs.vol) && Dense(fs.files[i], |blocks|) && Loses(geo, cap, fs, i, |blocks|)
    requires DirOk(blocks, geo.bs, limit)
    ensures var n := |blocks|;
            var lo, hi := LostLo(geo, cap, fs, i, n), LostHi(geo, cap, fs, i, n);
            && lo < hi == n && DirOk(blocks[..lo], geo.bs, limit) && DirOk(blocks[lo..], geo.bs, limit)
            && DirOk(Emptied(blocks, geo.bs, lo, hi), geo.bs, limit)
            && All(Emptied(blocks, geo.bs, lo, hi), geo.bs, limit) == All(blocks[..lo], geo.bs, limit)
            && (All(Emptied(blocks, geo.bs, lo, hi), geo.bs, limit) == All(blocks, geo.bs, limit) <==>
                All(blocks[lo..], geo.bs, limit) == [])
  {
    hide Pool, A.GroupOk, A.Sum, A.Shape, A.Used, A.GeoOk, Own, HasDepth, Lookup, Loses, Dense, LostFrom, LostTo,
         D.Fits, D.Entries, All, Emptied;
    var n := |blocks|;
    DenseLoses(geo, cap, fs, i, n);
    var lo := LostLo(geo, cap, fs, i, n);
    EmptiedEntries(blocks, geo.bs, limit, lo, n);
    assert blocks[lo..n] == blocks[lo..];
    NoBlocks(blocks[n..], geo.bs, limit);
  }

  lemma NoBlocks(blocks: seq<Block>, bs: nat, limit: nat)
    requires DirOk(blocks, bs, limit) && blocks == []
    ensures All(blocks, bs, limit) == []
  {
  }

  lemma RootAbove(t: Tree, cap: nat, f: nat, n: nat)
    requires RootWf(t, cap) && t.Branch? && f < U32 - 1
    ensures f < PathUp(t, Depth(t), f, n, U32 - 1)
  {
    PathAbove(t, Depth(t), 0, U32 - 1, ROOT_MAX, cap, f, n);
  }

  // ----- the calls

  /** How many of the first n blocks are mapped before the first hole, from block k on. */
  function Leading(t: Tree, n: nat, k: nat): (r: nat)
    requires k <= n
    ensures k <= r <= n && (r < n ==> Lookup(t, r) == None)
    ensures forall j | k <= j < r :: Lookup(t, j).Some?
    decreases n - k
  {
    if k < n && Lookup(t, k).Some? then Leading(t, n, k + 1) else k
  }

  predicate BadName(name: Block) { name == [] || |name| >= NAME_MAX }

  /** None of the first m blocks has room for a record with a name of nl bytes. */
  ghost predicate NoSlots(blocks: seq<Block>, limit: nat, nl: nat, m: nat)
    requires m <= |blocks|
  {
    forall k | 0 <= k < m :: D.NoRoom(blocks[k], limit, D.Space(nl), 0, limit)
  }

  /** No block can be had for file block f. */
  /** The volume after a call for block f of file i, whether or not it got one. */
  ghost function Asked(geo: Geo, cap: nat, fs: Fs, i: nat, f: nat): Fs
    requires Own(geo, cap, fs) && i < |fs.files|
  {
    RootDepth(fs.files[i], cap);
    Ensure(geo, cap, fs, i, f).0
  }

  ghost predicate Refused(geo: Geo, cap: nat, fs: Fs, i: nat, f: nat)
    requires Own(geo, cap, fs) && i < |fs.files|
  {
    RootDepth(fs.files[i], cap);
    Ensure(geo, cap, fs, i, f).1 == None
  }

  /** Block b is a node or a mapped block of the tree. */
  ghost predicate Belongs(t: Tree, b: nat) {
    NodeUses(t, b) > 0 || exists k: nat :: Lookup(t, k) == Some(b)
  }

  /** Only the tree of file i and blocks of that file change. */
  ghost predicate OthersKept(i: nat, fs: Fs, disk: seq<Block>, fs': Fs, disk': seq<Block>)
    requires i < |fs'.files|
  {
    && |fs'.files| == |fs.files| && |disk'| == |disk|
    && (forall j | 0 <= j < |fs.files| && j != i :: fs'.files[j] == fs.files[j])
    && forall b | 0 <= b < |disk| && disk'[b] != disk[b] :: Belongs(fs'.files[i], b)
  }

  /** Every mapped block is tiled by its records. */
  predicate MappedTiled(t: Tree, blocks: seq<Block>, limit: nat) {
    forall k | 0 <= k < |blocks| && Lookup(t, k).Some? :: D.Tiled(blocks[k], limit, 0)
  }

  function Upto(x: nat, n: nat): (r: nat)
    ensures r <= n && (r == x || r == n < x)
  {
    if x < n then x else n
  }

  /** Among the first n blocks, those that a call for block n unmaps are [LostLo, LostHi). */
  ghost function LostLo(geo: Geo, cap: nat, fs: Fs, i: nat, n: nat): (r: nat)
    requires Own(geo, cap, fs) && i < |fs.files|
    ensures r <= n
  {
    OwnGeo(geo, cap, fs);
    if |Pool(geo, fs.vol, 0)| >= 2 then Upto(LostFrom(geo, fs, i, n), LostHi(geo, cap, fs, i, n)) else n
  }

  ghost function LostHi(geo: Geo, cap: nat, fs: Fs, i: nat, n: nat): (r: nat)
    requires Own(geo, cap, fs) && i < |fs.files|
    ensures r <= n
  {
    OwnGeo(geo, cap, fs);
    if |Pool(geo, fs.vol, 0)| >= 2 then Upto(LostTo(geo, fs, i, n), n) else n
  }

  lemma GrowReady(geo: Geo, cap: nat, fs: Fs, disk: seq<Block>, i: nat, n: nat)
    requires Volume(geo, cap, fs, disk) && i < |fs.files| && Span(geo.bs, n) < U32
    ensures A.GeoOk(geo) && A.Inv(geo, fs.vol) && HasDepth(fs.files[i], Depth(fs.files[i]))
    ensures n < U32 - 1 && geo.bs >= 1024 && Span(geo.bs, n + 1) == Span(geo.bs, n) + geo.bs <= U32
            && Span(geo.bs, 0) == 0
  {
    hide OwnedOnce, A.Inv, RootWf, HasDepth, A.Groups;
    SpanSmall(geo.bs, n);
    RootDepth(fs.files[i], cap);
  }

  /** The directory that a lost split leaves is one still. */
  lemma StopOk(geo: Geo, cap: nat, fs: Fs, i: nat, t': Tree, blocks: seq<Block>, limit: nat)
    requires Own(geo, cap, fs) && i < |fs.files| && DirOk(blocks, geo.bs, limit)
    requires var lo, hi := LostLo(geo, cap, fs, i, |blocks|), LostHi(geo, cap, fs, i, |blocks|);
             && lo <= hi
             && forall k | 0 <= k < |blocks| && Lookup(t', k).Some? :: Lookup(fs.files[i], k).Some? && !(lo <= k < hi)
    ensures var lo, hi := LostLo(geo, cap, fs, i, |blocks|), LostHi(geo, cap, fs, i, |blocks|);
            var r := Emptied(blocks, geo.bs, lo, hi);
            && DirOk(r, geo.bs, limit) && DirOk(blocks[lo..hi], geo.bs, limit)
            && (All(r, geo.bs, limit) == All(blocks, geo.bs, limit) <==> All(blocks[lo..hi], geo.bs, limit) == [])
            && (MappedTiled(fs.files[i], blocks, limit) ==> MappedTiled(t', r, limit))
  {
    hide Own, LostLo, LostHi, Lookup, DirOk, All, D.Tiled;
    var lo, hi := LostLo(geo, cap, fs, i, |blocks|), LostHi(geo, cap, fs, i, |blocks|);
    EmptiedEntries(blocks, geo.bs, limit, lo, hi);
  }

  lemma SpanSmall(bs: nat, n: nat)
    requires bs >= 1024 && Divides32(bs) && Span(bs, n) < U32
    ensures n < U32 - 1 && Span(bs, n + 1) == Span(bs, n) + bs <= U32
  {
    var q := U32 / bs;
    assert U32 == q * bs;
    Distribute(n, 1, bs);
    Distribute(n, q - n, bs);
    MulAtLeast(q - n, bs);
    MulAtLeast(n - q, bs);
    Distribute(2, bs - 2, n);
    assert (bs - 2) * n >= 0;
  }
}
