/** Writing file data over the allocator and the extent trees of any number of files
    (kernel/fs/ext4.c:1564-1629). */
module FileWrite {
  import opened Words
  import opened Bytes
  import opened Memory
  import opened Division
  import opened Extents
  import opened ExtentTree
  import opened ExtentBlocks
  import opened ExtentFailure
  import opened FailedInsert
  import opened FileData
  import opened Ownership
  import opened LostBlocks
  import opened StoredTree
  import A = Allocator

  /** Only node blocks of t differ: what `ext_insert` may have written before returning tree t. */
  ghost predicate NodesOnly(t: Tree, disk: seq<Block>, disk': seq<Block>) {
    |disk'| == |disk| && forall b | 0 <= b < |disk| ::
      |disk'[b]| == |disk[b]| && (NodeUses(t, b) == 0 ==> disk'[b] == disk[b])
  }

  /** `memcpy(blk + within, chunk, |chunk|)`. */
  function Patched(blk: Block, within: nat, chunk: Block): (r: Block)
    requires within + |chunk| <= |blk|
    ensures |r| == |blk|
  {
    blk[..within] + chunk + blk[within + |chunk|..]
  }

  ghost predicate Volume(geo: Geo, cap: nat, fs: Fs, disk: seq<Block>) {
    Own(geo, cap, fs) && 5 <= cap && BlockFits(geo.bs, cap) && DiskOk(disk, geo.bs) && |disk| == geo.total
  }

  /** The tree of every file is on disk, as far as its depth fits the header field. */
  ghost predicate FilesStored(fs: Fs, disk: seq<Block>) {
    forall j | 0 <= j < |fs.files| && Depth(fs.files[j]) < U16 :: Stored(disk, fs.files[j], Depth(fs.files[j]))
  }

  /** A mapped file block is a block of the disk. */
  lemma OwnMapped(geo: Geo, cap: nat, fs: Fs, disk: seq<Block>, j: nat)
    requires Volume(geo, cap, fs, disk) && j < |fs.files|
    ensures Mapped(fs.files[j], disk)
  {
    hide Lookup, A.Inv, OwnedOnce, RootWf;
    forall f | Lookup(fs.files[j], f).Some? ensures Lookup(fs.files[j], f).value < |disk| {
      NoSharing(geo, cap, fs, j, f, j, f, Lookup(fs.files[j], f).value);
    }
  }

  /** The byte of file j at position p. */
  ghost function FileByte(geo: Geo, fs: Fs, disk: seq<Block>, j: nat, p: nat): Byte
    requires DiskOk(disk, geo.bs) && j < |fs.files|
  {
    ByteAt(fs.files[j], disk, geo.bs, p)
  }

  /** What a successful `ext4_ensure_block` guarantees about the block it answers and about every
      other mapped block. */
  lemma EnsureApart(geo: Geo, cap: nat, fs: Fs, i: nat, f: nat, j: nat, g: nat)
    requires Own(geo, cap, fs) && 5 <= cap && i < |fs.files| && j < |fs.files| && f < U32 - 1
    requires HasDepth(fs.files[i], Depth(fs.files[i])) && Ensure(geo, cap, fs, i, f).1.Some?
    ensures !Loses(geo, cap, fs, i, f)
    ensures var (fs', r) := Ensure(geo, cap, fs, i, f);
            && Own(geo, cap, fs') && |fs'.files| == |fs.files|
            && (Lookup(fs.files[i], f).Some? ==> r == Lookup(fs.files[i], f))
            && r.value < geo.total && NodeUses(fs'.files[i], r.value) == 0
            && (var c := Lookup(fs'.files[j], g);
                && c == (if j == i && g == f then r else Lookup(fs.files[j], g))
                && (c.Some? ==> c.value < geo.total && NodeUses(fs'.files[i], c.value) == 0)
                && (c == r ==> j == i && g == f))
  {
    hide Lookup, A.Inv, OwnedOnce, RootWf, Ensure, HasDepth, NodeUses, Loses;
    var (fs', r) := Ensure(geo, cap, fs, i, f);
    EnsureHit(geo, cap, fs, i, f);
    EnsureFailsIff(geo, cap, fs, i, f);
    EnsureKeeps(geo, cap, fs, i, f);
    EnsureMaps(geo, cap, fs, i, f, i, f);
    EnsureMaps(geo, cap, fs, i, f, j, g);
    NoSharing(geo, cap, fs', i, f, i, f, r.value);
    var c := Lookup(fs'.files[j], g);
    if c.Some? {
      NoSharing(geo, cap, fs', j, g, j, g, c.value);
    }
    if c == r {
      NoSharing(geo, cap, fs', i, f, j, g, r.value);
    }
  }

  lemma EnsureHit(geo: Geo, cap: nat, fs: Fs, i: nat, f: nat)
    requires A.GeoOk(geo) && A.Inv(geo, fs.vol) && i < |fs.files| && HasDepth(fs.files[i], Depth(fs.files[i]))
    ensures Lookup(fs.files[i], f).Some? ==> Ensure(geo, cap, fs, i, f) == (fs, Lookup(fs.files[i], f))
  {
  }

  /** The state after one chunk went to file block f of file i, in disk block b. */
  ghost predicate Chunk(geo: Geo, cap: nat, fs: Fs, disk: seq<Block>, i: nat, f: nat, within: nat, chunk: Block,
                        fs': Fs, disk1: seq<Block>, disk': seq<Block>)
    requires A.GeoOk(geo) && A.Inv(geo, fs.vol) && i < |fs.files| && HasDepth(fs.files[i], Depth(fs.files[i]))
  {
    var (fs1, r) := Ensure(geo, cap, fs, i, f);
    && fs' == fs1 && r.Some? && i < |fs'.files| && NodesOnly(fs'.files[i], disk, disk1)
    && r.value < |disk1| && within + |chunk| <= |disk1[r.value]|
    && disk' == disk1[r.value := Patched(disk1[r.value], within, chunk)]
  }

  /** What every byte of every file is after one chunk was written. Bytes of other mapped blocks stay,
      and a block new to the file shows what it held before. */
  lemma ChunkWrites(geo: Geo, cap: nat, fs: Fs, disk: seq<Block>, i: nat, f: nat, within: nat, chunk: Block,
                    fs': Fs, disk1: seq<Block>, disk': seq<Block>, j: nat, p: nat)
    requires Volume(geo, cap, fs, disk) && i < |fs.files| && j < |fs.files| && f < U32 - 1
    requires HasDepth(fs.files[i], Depth(fs.files[i]))
             && Chunk(geo, cap, fs, disk, i, f, within, chunk, fs', disk1, disk')
    ensures Volume(geo, cap, fs', disk') && |fs'.files| == |fs.files| && DiskOk(disk1, geo.bs)
    ensures var g, w := BlockOf(geo.bs, p), Within(geo.bs, p);
            FileByte(geo, fs', disk', j, p) ==
              if j == i && g == f && within <= w < within + |chunk| then chunk[w - within]
              else if Lookup(fs.files[j], g).Some? || j != i || g != f then FileByte(geo, fs, disk, j, p)
              else disk[Ensure(geo, cap, fs, i, f).1.value][w]
  {
    hide Lookup, A.Inv, A.GeoOk, Divides32, RootWf, Ensure, HasDepth, BlockOf, Within, NodeUses, Own;
    OwnGeo(geo, cap, fs);
    var g, w := BlockOf(geo.bs, p), Within(geo.bs, p);
    EnsureApart(geo, cap, fs, i, f, j, g);
    var r, c := Ensure(geo, cap, fs, i, f).1, Lookup(fs'.files[j], g);
    if c == r {
      var blk := disk1[r.value];
      assert disk'[r.value] == blk[..within] + chunk + blk[within + |chunk|..];
      assert blk == disk[r.value];
    } else if c.Some? {
      assert disk'[c.value] == disk1[c.value] == disk[c.value];
    }
  }

  /** A byte of a hole next to the chunk written into it still reads as zero if and only if the block
      the allocator answers held a zero there: the driver does not clear a new data block. */
  lemma HoleStaysZeroIff(geo: Geo, cap: nat, fs: Fs, disk: seq<Block>, i: nat, f: nat, within: nat, chunk: Block,
                         fs': Fs, disk1: seq<Block>, disk': seq<Block>, p: nat)
    requires Volume(geo, cap, fs, disk) && i < |fs.files| && f < U32 - 1 && Lookup(fs.files[i], f) == None
    requires HasDepth(fs.files[i], Depth(fs.files[i]))
             && Chunk(geo, cap, fs, disk, i, f, within, chunk, fs', disk1, disk')
    requires BlockOf(geo.bs, p) == f && !(within <= Within(geo.bs, p) < within + |chunk|)
    ensures Volume(geo, cap, fs', disk') && |fs'.files| == |fs.files|
    ensures A.Alloc(geo, fs.vol).1 < |disk| && FileByte(geo, fs, disk, i, p) == 0
    ensures FileByte(geo, fs', disk', i, p) == 0 <==> disk[A.Alloc(geo, fs.vol).1][Within(geo.bs, p)] == 0
  {
    hide Lookup, A.Inv, A.GeoOk, Divides32, RootWf, HasDepth, BlockOf, Within, Own, InsRoot, A.Alloc;
    OwnGeo(geo, cap, fs);
    ChunkWrites(geo, cap, fs, disk, i, f, within, chunk, fs', disk1, disk', i, p);
    EnsureApart(geo, cap, fs, i, f, i, f);
  }

  lemma OwnGeo(geo: Geo, cap: nat, fs: Fs)
    requires Own(geo, cap, fs)
    ensures A.GeoOk(geo) && A.Inv(geo, fs.vol)
  {
  }

  // ----- the whole write

  /** The positions of one chunk are those of its block and offsets. */
  lemma ChunkPlace(bs: nat, pos: nat, n: nat, p: nat)
    requires bs > 0 && Within(bs, pos) + n <= bs
    ensures pos <= p < pos + n <==>
            BlockOf(bs, p) == BlockOf(bs, pos) && Within(bs, pos) <= Within(bs, p) < Within(bs, pos) + n
    ensures BlockOf(bs, p) == BlockOf(bs, pos) ==> Within(bs, p) - Within(bs, pos) == p - pos
  {
    var f, w := pos / bs, pos % bs;
    assert pos == f * bs + w && p == p / bs * bs + p % bs;
    if pos <= p < pos + n {
      Shifted(bs, pos, p - pos, f, w, 0, w + (p - pos));
    }
  }

  /** Which byte of the data goes to position p; a write that reaches position 2^32 goes on at 0. */
  function Index(off: nat, p: nat): nat
    requires off < U32
  {
    if off <= p then p - off else p + U32 - off
  }

  /** Position p is among the first n of a write to off. */
  predicate Written(off: nat, n: nat, p: nat)
    requires off < U32
  {
    p < U32 && Index(off, p) < n
  }

  lemma WrittenStep(off: nat, n: nat, m: nat, p: nat)
    requires off < U32 && n + m < U32 && Add32(off, n) + m <= U32
    ensures var pos := Add32(off, n);
            && (Written(off, n + m, p) <==> Written(off, n, p) || pos <= p < pos + m)
            && (pos <= p < pos + m ==> !Written(off, n, p) && Index(off, p) == n + (p - pos))
  {
  }

  lemma NoWrap(off: nat, n: nat, p: nat)
    requires off < U32 && off + n <= U32
    ensures Written(off, n, p) <==> off <= p < off + n
  {
  }

  /** A chunk within a block ends at 2^32 at the latest. */
  lemma ChunkEnds(bs: nat, pos: nat, m: nat)
    requires bs > 0 && Divides32(bs) && pos < U32 && Within(bs, pos) + m <= bs
    ensures pos + m <= U32
  {
    var f, q := pos / bs, U32 / bs;
    assert pos == f * bs + pos % bs && U32 == q * bs;
    Distribute(q, f - q, bs);
    MulAtLeast(f - q, bs);
    Distribute(f + 1, q - f - 1, bs);
    Distribute(f, 1, bs);
    MulAtLeast(q - f - 1, bs);
  }

  /** Byte p of file j after the first n bytes of data went to off in file i: the data where it was
      written, and what was there before wherever the file had a block or still has none. */
  ghost predicate Good(geo: Geo, fs0: Fs, disk0: seq<Block>, fs: Fs, disk: seq<Block>, i: nat, off: nat, data: Block,
                       n: nat, j: nat, p: nat)
    requires DiskOk(disk0, geo.bs) && DiskOk(disk, geo.bs) && j < |fs0.files| == |fs.files| && n <= |data| && off < U32
  {
    var g := BlockOf(geo.bs, p);
    && (Lookup(fs0.files[j], g).Some? || j != i ==> Lookup(fs.files[j], g) == Lookup(fs0.files[j], g))
    && (if j == i && Written(off, n, p) then Lookup(fs.files[j], g).Some?
        && FileByte(geo, fs, disk, j, p) == data[Index(off, p)]
        else Lookup(fs0.files[j], g).Some? || Lookup(fs.files[j], g) == None ==>
               FileByte(geo, fs, disk, j, p) == FileByte(geo, fs0, disk0, j, p))
  }

  lemma GoodStep(geo: Geo, cap: nat, fs0: Fs, disk0: seq<Block>, fs: Fs, disk: seq<Block>, i: nat, off: nat,
                 data: Block, n: nat, m: nat,
                 fs': Fs, disk1: seq<Block>, disk': seq<Block>, j: nat, p: nat)
    requires Volume(geo, cap, fs, disk) && DiskOk(disk0, geo.bs) && i < |fs.files| && j < |fs0.files| == |fs.files|
    requires HasDepth(fs.files[i], Depth(fs.files[i])) && n + m <= |data| < U32 && off < U32
    requires Good(geo, fs0, disk0, fs, disk, i, off, data, n, j, p)
    requires var f, within := BlockOf(geo.bs, Add32(off, n)), Within(geo.bs, Add32(off, n));
             f < U32 - 1 && within + m <= geo.bs
               && Chunk(geo, cap, fs, disk, i, f, within, data[n..n + m], fs', disk1, disk')
    ensures Volume(geo, cap, fs', disk') && |fs'.files| == |fs.files|
    ensures Good(geo, fs0, disk0, fs', disk', i, off, data, n + m, j, p)
  {
    hide Lookup, A.Inv, A.GeoOk, Divides32, RootWf, Ensure, HasDepth, BlockOf, Within, Own, Chunk, FileByte, Add32,
         Written, Index;
    var pos := Add32(off, n);
    var f, within := BlockOf(geo.bs, pos), Within(geo.bs, pos);
    OwnGeo(geo, cap, fs);
    ChunkEnds(geo.bs, pos, m);
    WrittenStep(off, n, m, p);
    ChunkAnswers(geo, cap, fs, disk, i, f, within, data[n..n + m], fs', disk1, disk');
    ChunkWrites(geo, cap, fs, disk, i, f, within, data[n..n + m], fs', disk1, disk', j, p);
    ChunkPlace(geo.bs, pos, m, p);
    EnsureApart(geo, cap, fs, i, f, j, BlockOf(geo.bs, p));
  }

  lemma ChunkAnswers(geo: Geo, cap: nat, fs: Fs, disk: seq<Block>, i: nat, f: nat, within: nat, chunk: Block, fs': Fs,
                     disk1: seq<Block>, disk': seq<Block>)
    requires A.GeoOk(geo) && A.Inv(geo, fs.vol) && i < |fs.files| && HasDepth(fs.files[i], Depth(fs.files[i]))
    requires Chunk(geo, cap, fs, disk, i, f, within, chunk, fs', disk1, disk')
    ensures Ensure(geo, cap, fs, i, f).1.Some? && fs' == Ensure(geo, cap, fs, i, f).0
  {
  }

  ghost predicate AllGood(geo: Geo, fs0: Fs, disk0: seq<Block>, fs: Fs, disk: seq<Block>, i: nat, off: nat, data: Block,
                          n: nat)
    requires DiskOk(disk0, geo.bs) && DiskOk(disk, geo.bs) && |fs0.files| == |fs.files| && n <= |data| && off < U32
  {
    forall j: nat, p: nat | j < |fs0.files| :: Good(geo, fs0, disk0, fs, disk, i, off, data, n, j, p)
  }

  lemma AllGoodStarts(geo: Geo, fs: Fs, disk: seq<Block>, i: nat, off: nat, data: Block)
    requires DiskOk(disk, geo.bs) && off < U32
    ensures AllGood(geo, fs, disk, fs, disk, i, off, data, 0)
  {
    hide Lookup, BlockOf, FileByte;
  }

  lemma AllGoodStep(geo: Geo, cap: nat, fs0: Fs, disk0: seq<Block>, fs: Fs, disk: seq<Block>, i: nat, off: nat,
                    data: Block, n: nat, m: nat,
                    fs': Fs, disk1: seq<Block>, disk': seq<Block>)
    requires Volume(geo, cap, fs, disk) && DiskOk(disk0, geo.bs) && i < |fs.files| == |fs0.files|
    requires HasDepth(fs.files[i], Depth(fs.files[i])) && n + m <= |data| < U32 && off < U32
    requires AllGood(geo, fs0, disk0, fs, disk, i, off, data, n)
    requires var f, within := BlockOf(geo.bs, Add32(off, n)), Within(geo.bs, Add32(off, n));
             f < U32 - 1 && within + m <= geo.bs
               && Chunk(geo, cap, fs, disk, i, f, within, data[n..n + m], fs', disk1, disk')
    ensures Volume(geo, cap, fs', disk') && |fs'.files| == |fs.files|
    ensures AllGood(geo, fs0, disk0, fs', disk', i, off, data, n + m)
  {
    hide Lookup, A.Inv, A.GeoOk, Divides32, RootWf, Ensure, HasDepth, BlockOf, Within, Own, Chunk, Good;
    GoodStep(geo, cap, fs0, disk0, fs, disk, i, off, data, n, m, fs', disk1, disk', i, 0);
    var k := n + m;
    forall j: nat, p: nat | j < |fs0.files| ensures Good(geo, fs0, disk0, fs', disk', i, off, data, k, j, p) {
      GoodStep(geo, cap, fs0, disk0, fs, disk, i, off, data, n, m, fs', disk1, disk', j, p);
    }
  }

  /** Reading back the positions just written gives the data. */
  lemma ReadsBack(geo: Geo, fs0: Fs, disk0: seq<Block>, fs: Fs, disk: seq<Block>, i: nat, off: nat, data: Block, n: nat)
    requires DiskOk(disk0, geo.bs) && DiskOk(disk, geo.bs) && i < |fs0.files| == |fs.files| && n <= |data|
    requires off < U32 && off + n <= U32 && AllGood(geo, fs0, disk0, fs, disk, i, off, data, n)
    ensures Content(fs.files[i], disk, geo.bs, off, n) == data[..n]
  {
    hide Lookup, BlockOf, ByteAt;
    forall k | 0 <= k < n ensures Content(fs.files[i], disk, geo.bs, off, n)[k] == data[k] {
      NoWrap(off, n, off + k);
      assert Good(geo, fs0, disk0, fs, disk, i, off, data, n, i, off + k);
    }
  }

  // ----- a write that loses a split

  /** As `AllGood`, but the file blocks from lo to hi of file i are unmapped and read as zeros. */
  ghost predicate GoodBut(geo: Geo, fs0: Fs, disk0: seq<Block>, fs: Fs, disk: seq<Block>, i: nat, off: nat, data: Block,
                          n: nat, lo: nat, hi: nat)
    requires DiskOk(disk0, geo.bs) && DiskOk(disk, geo.bs) && |fs0.files| == |fs.files| && n <= |data| && off < U32
  {
    forall j: nat, p: nat | j < |fs0.files| ::
      if j == i && lo <= BlockOf(geo.bs, p) < hi then
        Lookup(fs.files[j], BlockOf(geo.bs, p)) == None && FileByte(geo, fs, disk, j, p) == 0
      else Good(geo, fs0, disk0, fs, disk, i, off, data, n, j, p)
  }

  lemma StopGood(geo: Geo, cap: nat, fs0: Fs, disk0: seq<Block>, fs: Fs, disk: seq<Block>, i: nat, f: nat, off: nat,
                 data: Block, n: nat, disk': seq<Block>)
    requires Volume(geo, cap, fs, disk) && DiskOk(disk0, geo.bs) && i < |fs.files| == |fs0.files| && f < U32 - 1
    requires A.GeoOk(geo) && A.Inv(geo, fs.vol) && HasDepth(fs.files[i], Depth(fs.files[i])) && n <= |data| && off < U32
    requires AllGood(geo, fs0, disk0, fs, disk, i, off, data, n)
    requires Loses(geo, cap, fs, i, f) && !Hazard(geo, cap, fs, i, f)
    requires |Ensure(geo, cap, fs, i, f).0.files| == |fs.files| && Volume(geo, cap, Ensure(geo, cap, fs, i, f).0, disk')
    requires forall b | 0 <= b < |disk| && NodeUses(Ensure(geo, cap, fs, i, f).0.files[i], b) == 0 ::
             disk'[b] == disk[b]
    ensures |Pool(geo, fs.vol, 0)| >= 2
    ensures GoodBut(geo, fs0, disk0, Ensure(geo, cap, fs, i, f).0, disk', i, off, data, n, LostFrom(geo, fs, i, f),
                    LostTo(geo, fs, i, f))
  {
    hide Lookup, A.Inv, A.GeoOk, Divides32, Own, Ensure, HasDepth, NodeUses, Loses, Hazard, LostFrom, LostTo, Pool,
         BlockOf, Within, Written, Index;
    var fs' := Ensure(geo, cap, fs, i, f).0;
    EnsureUnmaps(geo, cap, fs, i, f, f);
    EnsureOthers(geo, cap, fs, i, f);
    forall j: nat, p: nat | j < |fs0.files|
      ensures if j == i && LostFrom(geo, fs, i, f) <= BlockOf(geo.bs, p) < LostTo(geo, fs, i, f) then
                Lookup(fs'.files[j], BlockOf(geo.bs, p)) == None && FileByte(geo, fs', disk', j, p) == 0
              else Good(geo, fs0, disk0, fs', disk', i, off, data, n, j, p)
    {
      var g := BlockOf(geo.bs, p);
      assert Good(geo, fs0, disk0, fs, disk, i, off, data, n, j, p);
      EnsureUnmaps(geo, cap, fs, i, f, g);
      var c := Lookup(fs'.files[j], g);
      if c.Some? {
        NoSharing(geo, cap, fs', j, g, j, g, c.value);
      }
    }
  }

  // ----- where the loop stops

  /** The state before the first turn that gets no block, and the bytes written until then. */
  ghost function Reach(geo: Geo, cap: nat, fs: Fs, i: nat, off: nat, len: nat, done: nat): (r: (Fs, nat))
    requires Own(geo, cap, fs) && 5 <= cap && i < |fs.files| && off < U32 && done <= len < U32
    ensures Own(geo, cap, r.0) && |r.0.files| == |fs.files| && done <= r.1 <= len
    decreases len - done
  {
    if done == len then (fs, done)
    else
      var pos := Add32(off, done);
      TurnReady(geo, cap, fs, i, pos);
      var f := BlockOf(geo.bs, pos);
      var (fs', r) := Ensure(geo, cap, fs, i, f);
      if r == None then (fs, done)
      else
        EnsureApart(geo, cap, fs, i, f, i, f);
        Reach(geo, cap, fs', i, off, len, done + Min(geo.bs - Within(geo.bs, pos), len - done))
  }

  lemma ReachStep(geo: Geo, cap: nat, fs: Fs, i: nat, off: nat, len: nat, done: nat)
    requires Own(geo, cap, fs) && 5 <= cap && i < |fs.files| && off < U32 && done < len < U32
    ensures var pos := Add32(off, done);
            (TurnReady(geo, cap, fs, i, pos);
             var (fs', r) := Ensure(geo, cap, fs, i, BlockOf(geo.bs, pos));
             if r == None then Reach(geo, cap, fs, i, off, len, done) == (fs, done)
             else
               var m := done + Min(geo.bs - Within(geo.bs, pos), len - done);
               && Own(geo, cap, fs') && |fs'.files| == |fs.files| && done < m <= len
               && Reach(geo, cap, fs, i, off, len, done) == Reach(geo, cap, fs', i, off, len, m))
  {
    hide Own, Ensure, BlockOf, A.Inv, A.GeoOk, HasDepth;
    var pos := Add32(off, done);
    TurnReady(geo, cap, fs, i, pos);
    var f := BlockOf(geo.bs, pos);
    if Ensure(geo, cap, fs, i, f).1.Some? {
      EnsureApart(geo, cap, fs, i, f, i, f);
    }
  }

  /** Said of the state before the write: the turn that gets no block loses a split. */
  ghost predicate Drops(geo: Geo, cap: nat, fs: Fs, i: nat, off: nat, len: nat)
    requires Own(geo, cap, fs) && 5 <= cap && i < |fs.files| && off < U32 && len < U32
  {
    var (s, n) := Reach(geo, cap, fs, i, off, len, 0);
    n < len && (TurnReady(geo, cap, s, i, Add32(off, n)); Loses(geo, cap, s, i, BlockOf(geo.bs, Add32(off, n))))
  }

  /** And it frees its data block while that is mapped. */
  ghost predicate Breaks(geo: Geo, cap: nat, fs: Fs, i: nat, off: nat, len: nat)
    requires Own(geo, cap, fs) && 5 <= cap && i < |fs.files| && off < U32 && len < U32
  {
    var (s, n) := Reach(geo, cap, fs, i, off, len, 0);
    n < len && (TurnReady(geo, cap, s, i, Add32(off, n)); Hazard(geo, cap, s, i, BlockOf(geo.bs, Add32(off, n))))
  }

  /** File block g of file j was mapped before, or one of the first n bytes goes there. */
  ghost predicate Wanted(geo: Geo, fs0: Fs, i: nat, off: nat, n: nat, j: nat, g: nat)
    requires geo.bs > 0 && j < |fs0.files|
  {
    Lookup(fs0.files[j], g).Some? || (j == i && exists k: nat | k < n :: BlockOf(geo.bs, Add32(off, k)) == g)
  }

  /** Exactly the wanted blocks are mapped. */
  ghost predicate AllMapped(geo: Geo, fs0: Fs, fs: Fs, i: nat, off: nat, n: nat)
    requires geo.bs > 0
  {
    && |fs.files| == |fs0.files|
    && forall j: nat, g: nat | j < |fs0.files| :: Lookup(fs.files[j], g).Some? <==> Wanted(geo, fs0, i, off, n, j, g)
  }

  /** The bytes of one chunk lie in one block, with the position computed in 32 bits. */
  lemma ChunkBlock(bs: nat, off: nat, done: nat, x: nat)
    requires bs > 0 && Divides32(bs) && off < U32 && done + x < U32 && Within(bs, Add32(off, done)) + x < bs
    ensures BlockOf(bs, Add32(off, done + x)) == BlockOf(bs, Add32(off, done))
  {
    hide BlockOf, Within;
    var pos := Add32(off, done);
    PositionFrom(bs, pos, x);
    InBlock(bs, Within(bs, pos) + x);
    EndsBefore(bs, pos, x);
    assert Add32(off, done + x) == pos + x;
  }

  lemma EndsBefore(bs: nat, pos: nat, x: nat)
    requires bs > 0 && Divides32(bs) && pos < U32 && Within(bs, pos) + x < bs
    ensures pos + x < U32
  {
    var q := U32 / bs;
    assert U32 == q * bs && pos == pos / bs * bs + pos % bs;
    Distribute(pos / bs, q - pos / bs, bs);
    MulAtLeast(q - pos / bs, bs);
    MulAtLeast(pos / bs - q, bs);
  }

  lemma MappedStep(geo: Geo, cap: nat, fs0: Fs, fs: Fs, i: nat, off: nat, done: nat, m: nat)
    requires Own(geo, cap, fs) && 5 <= cap && i < |fs.files| && off < U32 && done < m < U32 && geo.bs > 0
             && Divides32(geo.bs)
    requires AllMapped(geo, fs0, fs, i, off, done) && HasDepth(fs.files[i], Depth(fs.files[i]))
    requires var pos := Add32(off, done);
             && BlockOf(geo.bs, pos) < U32 - 1 && Within(geo.bs, pos) + (m - done) <= geo.bs
             && A.GeoOk(geo) && A.Inv(geo, fs.vol) && Ensure(geo, cap, fs, i, BlockOf(geo.bs, pos)).1.Some?
    ensures AllMapped(geo, fs0, Ensure(geo, cap, fs, i, BlockOf(geo.bs, Add32(off, done))).0, i, off, m)
  {
    hide Own, Ensure, BlockOf, Within, A.Inv, A.GeoOk, HasDepth, Lookup, Divides32;
    var f := BlockOf(geo.bs, Add32(off, done));
    var fs' := Ensure(geo, cap, fs, i, f).0;
    EnsureApart(geo, cap, fs, i, f, i, f);
    forall k: nat | done <= k < m ensures BlockOf(geo.bs, Add32(off, k)) == f {
      ChunkBlock(geo.bs, off, done, k - done);
    }
    forall j: nat, g: nat | j < |fs0.files|
      ensures Lookup(fs'.files[j], g).Some? <==> Wanted(geo, fs0, i, off, m, j, g)
    {
      EnsureApart(geo, cap, fs, i, f, j, g);
      assert Lookup(fs.files[j], g).Some? <==> Wanted(geo, fs0, i, off, done, j, g);
      WantedMore(geo, fs0, i, off, done, m, f, j, g);
    }
  }

  lemma WantedMore(geo: Geo, fs0: Fs, i: nat, off: nat, done: nat, m: nat, f: nat, j: nat, g: nat)
    requires geo.bs > 0 && j < |fs0.files| && done < m
    requires forall k: nat | done <= k < m :: BlockOf(geo.bs, Add32(off, k)) == f
    ensures Wanted(geo, fs0, i, off, m, j, g) <==> Wanted(geo, fs0, i, off, done, j, g) || (j == i && g == f)
  {
    hide BlockOf, Lookup;
    if j == i && g == f {
      assert BlockOf(geo.bs, Add32(off, done)) == g;
    }
  }

  /** After a turn that failed: every wanted block is mapped if and only if no split was lost. */
  lemma StoppedIff(geo: Geo, cap: nat, fs0: Fs, fs: Fs, i: nat, f: nat, off: nat, n: nat)
    requires Own(geo, cap, fs) && 5 <= cap && i < |fs.files| && f < U32 - 1 && HasDepth(fs.files[i], Depth(fs.files[i]))
             && geo.bs > 0
    requires AllMapped(geo, fs0, fs, i, off, n) && Ensure(geo, cap, fs, i, f).1 == None
    ensures AllMapped(geo, fs0, Ensure(geo, cap, fs, i, f).0, i, off, n) <==> !Loses(geo, cap, fs, i, f)
  {
    hide OwnedOnce, RootWf, Ensure, BlockOf, A.Inv, A.GeoOk, HasDepth, Lookup, Wanted, InsRoot, Pool, RootFull;
    var fs' := Ensure(geo, cap, fs, i, f).0;
    if Loses(geo, cap, fs, i, f) {
      var g := LostBlock(geo, cap, fs, i, f);
      assert Lookup(fs.files[i], g).Some? && Lookup(fs'.files[i], g) == None;
    } else {
      EnsureFailed(geo, cap, fs, i, f);
    }
  }

  lemma LostBlock(geo: Geo, cap: nat, fs: Fs, i: nat, f: nat) returns (g: nat)
    requires Own(geo, cap, fs) && 5 <= cap && i < |fs.files| && f < U32 - 1 && HasDepth(fs.files[i], Depth(fs.files[i]))
    requires Loses(geo, cap, fs, i, f)
    ensures var fs' := Ensure(geo, cap, fs, i, f).0;
            |fs'.files| == |fs.files| && Lookup(fs.files[i], g).Some? && Lookup(fs'.files[i], g) == None
  {
    hide OwnedOnce, RootWf, Ensure, HasDepth, Lookup, InsRoot, Pool, RootFull, A.Alloc, A.Give, A.Free, A.Used, A.Shape,
         A.GroupOk, A.Sum;
    EnsureLost(geo, cap, fs, i, f);
    FirstBlock(geo, fs.vol);
    var t, pool := fs.files[i], Pool(geo, fs.vol, 0);
    FailureKeepsMapIff(t, f, pool[0], cap, pool[1..]);
    g :| Lookup(t, g).Some? && Lookup(InsRoot(t, f, pool[0], cap, pool[1..]).t, g) == None;
  }

  // ----- the trees on disk

  lemma NodeOnce(geo: Geo, cap: nat, fs: Fs, i: nat, b: nat)
    requires Own(geo, cap, fs) && i < |fs.files| && NodeUses(fs.files[i], b) > 0
    ensures NodeUses(fs.files[i], b) == 1 && b < geo.total
    ensures forall j | 0 <= j < |fs.files| && j != i :: NodeUses(fs.files[j], b) == 0
  {
    hide A.Inv, A.GeoOk, NodeUses, DataUses, RootWf;
    assert OwnedOnce(geo, fs, b);
    TotalSet(fs.files, i, fs.files[i], b);
    forall j | 0 <= j < |fs.files| && j != i ensures NodeUses(fs.files[j], b) == 0 {
      if j < i {
        TotalTwo(fs.files, j, i, b);
      } else {
        TotalTwo(fs.files, i, j, b);
      }
    }
  }

  /** Storing the nodes of file i leaves every file's tree on disk. */
  lemma StoresFiles(geo: Geo, cap: nat, fs: Fs, fs': Fs, disk: seq<Block>, i: nat, tails: nat -> Block)
    requires Own(geo, cap, fs') && i < |fs'.files| == |fs.files| && |disk| == geo.total <= U32 && BlockFits(geo.bs, cap)
    requires FilesStored(fs, disk) && forall j | 0 <= j < |fs.files| && j != i :: fs'.files[j] == fs.files[j]
    ensures var disk' := WithNodes(fs'.files[i], Depth(fs'.files[i]), disk, geo.bs, cap, tails);
            FilesStored(fs', disk') && (forall b | 0 <= b < |disk| && NodeUses(fs'.files[i], b) == 0 ::
                                        disk'[b] == disk[b])
  {
    hide A.Inv, A.GeoOk, NodeUses, RootWf, OwnedOnce, Stored, WithNodes;
    var t := fs'.files[i];
    var disk' := WithNodes(t, Depth(t), disk, geo.bs, cap, tails);
    forall b: nat ensures NodeUses(t, b) <= 1 && (NodeUses(t, b) > 0 ==> b < |disk|) {
      if NodeUses(t, b) > 0 {
        NodeOnce(geo, cap, fs', i, b);
      }
    }
    forall b: nat | b < |disk| && NodeUses(t, b) == 0 ensures disk'[b] == disk[b] {
      OthersStay(t, Depth(t), disk, geo.bs, cap, tails, b);
    }
    if Depth(t) < U16 {
      StoresTree(t, cap, disk, geo.bs, tails);
    }
    forall j: nat | j < |fs'.files| && j != i && Depth(fs'.files[j]) < U16
      ensures Stored(disk', fs'.files[j], Depth(fs'.files[j]))
    {
      forall b: nat | b < |disk| && NodeUses(fs'.files[j], b) > 0 ensures disk'[b] == disk[b] {
        NodeOnce(geo, cap, fs', j, b);
      }
      StoredFrame(disk, disk', fs'.files[j], Depth(fs'.files[j]));
    }
  }

  /** Writing a data block leaves every file's tree on disk. */
  lemma DataKeepsFiles(geo: Geo, cap: nat, fs: Fs, disk: seq<Block>, i: nat, f: nat, blk: Block)
    requires Own(geo, cap, fs) && i < |fs.files| && FilesStored(fs, disk) && Lookup(fs.files[i], f).Some?
    requires Lookup(fs.files[i], f).value < |disk|
    ensures FilesStored(fs, disk[Lookup(fs.files[i], f).value := blk])
  {
    hide A.Inv, A.GeoOk, NodeUses, RootWf, OwnedOnce, Stored, Lookup;
    var b := Lookup(fs.files[i], f).value;
    NoSharing(geo, cap, fs, i, f, i, f, b);
    var disk' := disk[b := blk];
    forall j | 0 <= j < |fs.files| && Depth(fs.files[j]) < U16 ensures Stored(disk', fs.files[j], Depth(fs.files[j])) {
      StoredFrame(disk, disk', fs.files[j], Depth(fs.files[j]));
    }
  }

  /** The volume after the whole call: with the blocks of all turns, and of the failing one what it left. */
  ghost function Final(geo: Geo, cap: nat, fs: Fs, i: nat, off: nat, len: nat): Fs
    requires Own(geo, cap, fs) && 5 <= cap && i < |fs.files| && off < U32 && len < U32
  {
    var (s, n) := Reach(geo, cap, fs, i, off, len, 0);
    if n == len then s
    else
      var pos := Add32(off, n);
      TurnReady(geo, cap, s, i, pos);
      Ensure(geo, cap, s, i, BlockOf(geo.bs, pos)).0
  }

  lemma FinalIs(geo: Geo, cap: nat, fs: Fs, i: nat, off: nat, len: nat, s: Fs, n: nat)
    requires Own(geo, cap, fs) && 5 <= cap && i < |fs.files| && off < U32 && len < U32
    requires Reach(geo, cap, fs, i, off, len, 0) == (s, n)
    ensures n == len ==> Final(geo, cap, fs, i, off, len) == s
    ensures n < len ==>
              (TurnReady(geo, cap, s, i, Add32(off, n));
               Final(geo, cap, fs, i, off, len) == Ensure(geo, cap, s, i, BlockOf(geo.bs, Add32(off, n))).0)
  {
    hide Own, Reach, Ensure;
  }

  /** After a write that drops blocks without the hazard: the bytes written before it stopped, and holes where the
      split was lost. */
  ghost predicate DropsExactly(geo: Geo, cap: nat, fs0: Fs, disk0: seq<Block>, fs: Fs, disk: seq<Block>, i: nat,
                               off: nat, data: Block)
    requires Own(geo, cap, fs0) && 5 <= cap && i < |fs0.files| && off < U32 && |data| < U32
  {
    var (s, n) := Reach(geo, cap, fs0, i, off, |data|, 0);
    var pos := Add32(off, n);
    TurnReady(geo, cap, s, i, pos);
    var f := BlockOf(geo.bs, pos);
    && DiskOk(disk0, geo.bs) && DiskOk(disk, geo.bs) && |fs.files| == |fs0.files| && |Pool(geo, s.vol, 0)| >= 2
    && GoodBut(geo, fs0, disk0, fs, disk, i, off, data, n, LostFrom(geo, s, i, f), LostTo(geo, s, i, f))
  }

  class FileSystem {
    const geo: Geo
    const cap: nat
    var fs: Fs
    var disk: seq<Block>
    var sizes: seq<nat>

    /** Single ownership, every tree in the bytes of its blocks, and sizes of 32 bits. */
    ghost predicate Valid()
      reads this
    {
      && Volume(geo, cap, fs, disk) && |sizes| == |fs.files| && FilesStored(fs, disk)
      && (forall j | 0 <= j < |sizes| :: sizes[j] < U32)
    }

    /** `ext4_read_from_inode` on one of the files. */
    method ReadAt(i: nat, off: nat, count: nat, buf: array<Byte>) returns (done: nat)
      requires Valid() && i < |fs.files| && off < U32 && count < U32 && count <= buf.Length
      modifies buf
      ensures off < sizes[i] && off + count < U32 ==>
                done == Min(count, sizes[i] - off) && buf[..done] == Content(fs.files[i], disk, geo.bs, off, done)
      ensures var m := Min(done, U32 - off);
              m <= buf.Length && buf[..m] == Content(fs.files[i], disk, geo.bs, off, m)
      ensures done == Clamped(off, count, sizes[i]) && buf[done..] == old(buf[done..])
      ensures off >= sizes[i] ==> done == 0
    {
      OwnMapped(geo, cap, fs, disk, i);
      done := Read(fs.files[i], sizes[i], disk, geo.bs, off, count, buf);
    }

    /** One turn of the loop, after `ext4_ensure_block` answered block b: the block is read, changed
        in part and stored. */
    method StoreChunk(b: nat, within: nat, chunk: Block)
      requires b < |disk| && within + |chunk| <= |disk[b]|
      modifies this`disk
      ensures disk == old(disk)[b := Patched(old(disk[b]), within, chunk)]
    {
      var was := disk[b];
      var blk := new Byte[|was|](_ => 0);
      Copy(blk, 0, was);
      assert blk[..] == was;
      Copy(blk, within, chunk);
      assert blk[..] == blk[..within] + blk[within..within + |chunk|] + blk[within + |chunk|..];
      disk := disk[b := blk[..]];
    }

    /** A turn that gets its block: the nodes `ext_insert` changed are stored, then the data. */
    method Turn(i: nat, f: nat, within: nat, chunk: Block, tails: nat -> Block) returns (ghost disk1: seq<Block>)
      requires Volume(geo, cap, fs, disk) && FilesStored(fs, disk) && i < |fs.files| && f < U32 - 1
      requires A.GeoOk(geo) && A.Inv(geo, fs.vol) && HasDepth(fs.files[i], Depth(fs.files[i]))
      requires Ensure(geo, cap, fs, i, f).1.Some? && within + |chunk| <= geo.bs
      modifies this`fs, this`disk
      ensures Chunk(geo, cap, old(fs), old(disk), i, f, within, chunk, fs, disk1, disk)
      ensures FilesStored(fs, disk)
    {
      hide Lookup, Ensure, Own, HasDepth, A.GeoOk, A.Inv, Divides32, FilesStored, WithNodes, NodeUses, Loses;
      EnsureApart(geo, cap, fs, i, f, i, f);
      EnsureOthers(geo, cap, fs, i, f);
      ghost var fs0, disk0 := fs, disk;
      var (fs', r) := Ensure(geo, cap, fs, i, f);
      var t := fs'.files[i];
      StoresFiles(geo, cap, fs, fs', disk, i, tails);
      SameSizes(t, Depth(t), disk, geo.bs, cap, tails);
      fs, disk := fs', WithNodes(t, Depth(t), disk, geo.bs, cap, tails);
      disk1 := disk;
      StoreChunk(r.value, within, chunk);
      DataKeepsFiles(geo, cap, fs, disk1, i, f, disk[r.value]);
    }

    /** A turn that gets none: what `ext_insert` had stored until it failed stays. */
    method Stop(i: nat, f: nat, tails: nat -> Block)
      requires Volume(geo, cap, fs, disk) && FilesStored(fs, disk) && i < |fs.files| && f < U32 - 1
      requires A.GeoOk(geo) && A.Inv(geo, fs.vol) && HasDepth(fs.files[i], Depth(fs.files[i]))
      requires Ensure(geo, cap, fs, i, f).1 == None
      modifies this`fs, this`disk
      ensures fs == Ensure(geo, cap, old(fs), i, f).0 && |fs.files| == |old(fs).files|
      ensures DiskOk(disk, geo.bs) && |disk| == |old(disk)| && sizes == old(sizes)
      ensures forall b | 0 <= b < |disk| && NodeUses(fs.files[i], b) == 0 :: disk[b] == old(disk)[b]
      ensures Volume(geo, cap, fs, disk) && FilesStored(fs, disk) <==> !Hazard(geo, cap, old(fs), i, f)
      ensures !Loses(geo, cap, old(fs), i, f) ==> fs == old(fs) && disk == old(disk)
    {
      hide Lookup, Ensure, Own, HasDepth, A.GeoOk, A.Inv, Divides32, FilesStored, WithNodes, NodeUses, Loses, Hazard;
      EnsureOthers(geo, cap, fs, i, f);
      EnsureKeepsOwnIff(geo, cap, fs, i, f);
      HazardLoses(geo, cap, fs, i, f);
      if !Loses(geo, cap, fs, i, f) {
        EnsureFailed(geo, cap, fs, i, f);
      }
      var fs' := Ensure(geo, cap, fs, i, f).0;
      if fs' != fs {
        var t := fs'.files[i];
        SameSizes(t, Depth(t), disk, geo.bs, cap, tails);
        forall b: nat | b < |disk| && NodeUses(t, b) == 0
          ensures WithNodes(t, Depth(t), disk, geo.bs, cap, tails)[b] == disk[b]
        {
          OthersStay(t, Depth(t), disk, geo.bs, cap, tails, b);
        }
        if Own(geo, cap, fs') {
          StoresFiles(geo, cap, fs, fs', disk, i, tails);
        }
        fs, disk := fs', WithNodes(t, Depth(t), disk, geo.bs, cap, tails);
      }
    }

    /** `ext4_write_to_inode_impl`. tails gives the bytes behind the entries of the nodes stored in each
        turn. */
    method Write(i: nat, off: nat, data: Block, tails: (nat, nat) -> Block) returns (done: nat)
      requires Valid() && i < |fs.files| && off < U32 && |data| < U32
      modifies this
      ensures done == Reach(geo, cap, old(fs), i, off, |data|, 0).1 && |fs.files| == |old(fs).files|
      ensures fs == Final(geo, cap, old(fs), i, off, |data|)
      ensures Valid() <==> !Breaks(geo, cap, old(fs), i, off, |data|)
      ensures AllMapped(geo, old(fs), fs, i, off, done) <==> !Drops(geo, cap, old(fs), i, off, |data|)
      ensures !Drops(geo, cap, old(fs), i, off, |data|) ==>
                Valid() && AllGood(geo, old(fs), old(disk), fs, disk, i, off, data, done)
      ensures Drops(geo, cap, old(fs), i, off, |data|) && !Breaks(geo, cap, old(fs), i, off, |data|) ==>
                DropsExactly(geo, cap, old(fs), old(disk), fs, disk, i, off, data)
      ensures !Drops(geo, cap, old(fs), i, off, |data|) && off + |data| < U32 ==>
                Content(fs.files[i], disk, geo.bs, off, done) == data[..done] && off + done <= sizes[i]
      ensures sizes == old(sizes)[i := if Add32(off, done) > old(sizes)[i] then Add32(off, done) else old(sizes)[i]]
    {
      hide Lookup, Ensure, Loses, Hazard, AllGood, AllMapped, Own, BlockOf, Within, Content, HasDepth, A.GeoOk, A.Inv,
           Divides32, Reach, Chunk, FilesStored, GoodBut, LostFrom, LostTo, Pool, Final;
      done := 0;
      AllGoodStarts(geo, fs, disk, i, off, data);
      TurnReady(geo, cap, fs, i, off);
      AllMappedStarts(geo, fs, i, off);
      while done < |data|
        invariant done <= |data| && |fs.files| == |old(fs).files| && sizes == old(sizes)
        invariant Volume(geo, cap, fs, disk) && FilesStored(fs, disk) && geo.bs > 0
        invariant Reach(geo, cap, old(fs), i, off, |data|, 0) == Reach(geo, cap, fs, i, off, |data|, done)
        invariant AllMapped(geo, old(fs), fs, i, off, done)
        invariant AllGood(geo, old(fs), old(disk), fs, disk, i, off, data, done)
      {
        var pos := Add32(off, done);
        var f, within := BlockOf(geo.bs, pos), Within(geo.bs, pos);
        TurnReady(geo, cap, fs, i, pos);
        ReachStep(geo, cap, fs, i, off, |data|, done);
        var turn := done;
        if Ensure(geo, cap, fs, i, f).1 == None {
          StoppedIff(geo, cap, old(fs), fs, i, f, off, done);
          HazardLoses(geo, cap, fs, i, f);
          ghost var fs0, disk0 := fs, disk;
          FinalIs(geo, cap, old(fs), i, off, |data|, fs0, done);
          Stop(i, f, b => tails(turn, b));
          if Loses(geo, cap, fs0, i, f) && !Hazard(geo, cap, fs0, i, f) {
            StopGood(geo, cap, old(fs), old(disk), fs0, disk0, i, f, off, data, done, disk);
          }
          break;
        }
        var n := Min(geo.bs - within, |data| - done);
        ghost var fs0, disk0 := fs, disk;
        MappedStep(geo, cap, old(fs), fs, i, off, done, done + n);
        ghost var disk1 := Turn(i, f, within, data[done..done + n], b => tails(turn, b));
        ChunkWrites(geo, cap, fs0, disk0, i, f, within, data[done..done + n], fs, disk1, disk, i, 0);
        ChunkAnswers(geo, cap, fs0, disk0, i, f, within, data[done..done + n], fs, disk1, disk);
        AllGoodStep(geo, cap, old(fs), old(disk), fs0, disk0, i, off, data, done, n, fs, disk1, disk);
        done := done + n;
      }
      if done == |data| {
        ReachEnd(geo, cap, fs, i, off, |data|);
        FinalIs(geo, cap, old(fs), i, off, |data|, fs, done);
      }
      if Add32(off, done) > sizes[i] {
        sizes := sizes[i := Add32(off, done)];
      }
      if !Drops(geo, cap, old(fs), i, off, |data|) && off + |data| < U32 {
        ReadsBack(geo, old(fs), old(disk), fs, disk, i, off, data, done);
      }
    }
  }

  // ----- enough room

  /** Blocks that k turns on a tree of depth d can take at most: a path, a new level and the data
      each, on a tree that may grow by a level each time. */
  function Need(k: nat, d: nat): nat
    decreases k
  {
    if k == 0 then 0 else d + 3 + Need(k - 1, d + 1)
  }

  lemma {:induction false} NeedIs(k: nat, d: nat)
    ensures 2 * Need(k, d) == k * (2 * d + k + 5)
    decreases k
  {
    if k > 0 {
      NeedIs(k - 1, d + 1);
      Distribute(k - 1, 1, 2 * d + k + 6);
    }
  }

  lemma {:induction false} NeedUp(k: nat, d: nat, e: nat)
    requires d <= e
    ensures Need(k, d) <= Need(k, e)
    decreases k
  {
    if k > 0 {
      NeedUp(k - 1, d + 1, e + 1);
    }
  }

  /** The turns the loop takes for the bytes from done on. */
  function Turns(bs: nat, off: nat, len: nat, done: nat): nat
    requires bs > 0 && done <= len
    decreases len - done
  {
    if done == len then 0
    else 1 + Turns(bs, off, len, done + Min(bs - Within(bs, Add32(off, done)), len - done))
  }

  lemma RootTakenBound(t: Tree, f: nat, p: nat, cap: nat, pool: seq<nat>)
    requires RootWf(t, cap) && HasDepth(t, Depth(t)) && InsRoot(t, f, p, cap, pool).Done?
    ensures RootTaken(t, f, p, cap, pool) <= Depth(t) + 2
  {
    hide InsNode, Taken;
    if t.Branch? && t.kids != [] {
      InsRootBranchIs(t, f, p, cap, pool);
      RootTakenIs(t, f, p, cap, pool);
    }
  }

  lemma RoomFits(t: Tree, f: nat, p: nat, cap: nat, n: nat)
    requires RootFull(t, f, p, cap, n)
    ensures n <= Depth(t) + 1
  {
    hide FullTo, NeedsEntry;
  }

  /** With d + 3 blocks free, a tree of depth d gets its block, and what is left is known. */
  lemma EnsureRoom(geo: Geo, cap: nat, fs: Fs, i: nat, f: nat)
    requires Own(geo, cap, fs) && 5 <= cap && i < |fs.files| && f < U32 - 1 && HasDepth(fs.files[i], Depth(fs.files[i]))
    requires |Pool(geo, fs.vol, 0)| >= Depth(fs.files[i]) + 3
    ensures var (fs', r) := Ensure(geo, cap, fs, i, f);
            && r.Some? && A.Inv(geo, fs'.vol) && |fs'.files| == |fs.files|
            && Depth(fs'.files[i]) <= Depth(fs.files[i]) + 1
            && |Pool(geo, fs'.vol, 0)| >= |Pool(geo, fs.vol, 0)| - (Depth(fs.files[i]) + 3)
  {
    hide InsRoot, RootTaken, Pool, AllocMany, A.Alloc, A.GroupOk, A.Sum, A.Shape, A.Free, A.Used, RootWf, HasDepth,
         OwnedOnce, Lookup, RootFull, Find, MapAdds, Uses, Loses;
    var t := fs.files[i];
    EnsureFailsIff(geo, cap, fs, i, f);
    var free := Pool(geo, fs.vol, 0);
    if RootFull(t, f, free[0], cap, |free| - 1) {
      RoomFits(t, f, free[0], cap, |free| - 1);
    }
    if Lookup(t, f) == None {
      FirstBlock(geo, fs.vol);
      var (v, b) := A.Alloc(geo, fs.vol);
      var pool := Pool(geo, v, 0);
      var n := RootTaken(t, f, b, cap, pool);
      RootLookup(t, cap, f);
      InsRootOk(t, f, b, cap, pool);
      InsRootGrew(t, f, b, cap, pool, 0);
      RootTakenBound(t, f, b, cap, pool);
      ManyTakes(geo, v, n, 0);
    }
  }

  /** With enough blocks free the whole write goes through. */
  lemma {:induction false} RoomReaches(geo: Geo, cap: nat, fs: Fs, i: nat, off: nat, len: nat, done: nat)
    requires Own(geo, cap, fs) && 5 <= cap && i < |fs.files| && off < U32 && done <= len < U32 && geo.bs > 0
    requires A.GeoOk(geo) && A.Inv(geo, fs.vol)
    requires |Pool(geo, fs.vol, 0)| >= Need(Turns(geo.bs, off, len, done), Depth(fs.files[i]))
    ensures Reach(geo, cap, fs, i, off, len, done).1 == len
    decreases len - done
  {
    hide Own, Ensure, BlockOf, A.GroupOk, A.Sum, A.Shape, A.GeoOk, HasDepth, Pool, Reach;
    if done == len {
      ReachEnd(geo, cap, fs, i, off, len);
    } else {
      var pos := Add32(off, done);
      TurnReady(geo, cap, fs, i, pos);
      var f, m := BlockOf(geo.bs, pos), done + Min(geo.bs - Within(geo.bs, pos), len - done);
      ReachStep(geo, cap, fs, i, off, len, done);
      EnsureRoom(geo, cap, fs, i, f);
      var fs' := Ensure(geo, cap, fs, i, f).0;
      NeedUp(Turns(geo.bs, off, len, m), Depth(fs'.files[i]), Depth(fs.files[i]) + 1);
      RoomReaches(geo, cap, fs', i, off, len, m);
    }
  }

  lemma ReachEnd(geo: Geo, cap: nat, fs: Fs, i: nat, off: nat, len: nat)
    requires Own(geo, cap, fs) && 5 <= cap && i < |fs.files| && off < U32 && len < U32
    ensures Reach(geo, cap, fs, i, off, len, len) == (fs, len)
  {
  }

  /** The free blocks are enough for every turn of the write. */
  ghost predicate Room(geo: Geo, cap: nat, fs: Fs, i: nat, off: nat, len: nat)
    requires Own(geo, cap, fs) && i < |fs.files|
  {
    A.GeoOk(geo) && |Pool(geo, fs.vol, 0)| >= Need(Turns(geo.bs, off, len, 0), Depth(fs.files[i]))
  }

  lemma RoomSuffices(geo: Geo, cap: nat, fs: Fs, i: nat, off: nat, len: nat)
    requires Own(geo, cap, fs) && 5 <= cap && i < |fs.files| && off < U32 && len < U32
    ensures Room(geo, cap, fs, i, off, len) ==>
              Reach(geo, cap, fs, i, off, len, 0).1 == len && !Drops(geo, cap, fs, i, off, len)
  {
    hide OwnedOnce, RootWf, Pool, Reach, A.Inv;
    if Room(geo, cap, fs, i, off, len) {
      RoomReaches(geo, cap, fs, i, off, len, 0);
    }
  }

  /** A write and then a read of the same place: as many bytes as got a block come back, unless the
      write loses a split; with enough free blocks, all of them come back. */
  method WriteThenRead(f: FileSystem, i: nat, off: nat, data: Block, tails: (nat, nat) -> Block, buf: array<Byte>)
    returns (n: nat)
    requires f.Valid() && i < |f.fs.files| && off + |data| < U32 && |data| <= buf.Length
    requires !Breaks(f.geo, f.cap, f.fs, i, off, |data|)
    modifies f, buf
    ensures n == Reach(f.geo, f.cap, old(f.fs), i, off, |data|, 0).1
    ensures f.Valid() && (!Drops(f.geo, f.cap, old(f.fs), i, off, |data|) ==> buf[..n] == data[..n])
    ensures Room(f.geo, f.cap, old(f.fs), i, off, |data|) ==> n == |data| && buf[..n] == data
  {
    hide AllGood, AllMapped, Own, Content, Divides32, Ensure, Reach, FilesStored, Drops, Breaks, Room;
    RoomSuffices(f.geo, f.cap, f.fs, i, off, |data|);
    n := f.Write(i, off, data, tails);
    if n > 0 {
      var got := f.ReadAt(i, off, n, buf);
    }
    assert data[..|data|] == data;
  }

  /** What the bytes of file j in [pos, pos + n) are after the write, as far as they had a block before
      or have none now. */
  ghost predicate Overlaid(geo: Geo, fs0: Fs, disk0: seq<Block>, fs: Fs, i: nat, off: nat, data: Block, j: nat,
                           pos: nat,
                           got: Block)
    requires DiskOk(disk0, geo.bs) && j < |fs0.files| == |fs.files|
  {
    forall k | 0 <= k < |got| ::
      var p := pos + k;
      var g := BlockOf(geo.bs, p);
      if j == i && off <= p < off + |data| then got[k] == data[p - off]
      else Lookup(fs0.files[j], g).Some? || Lookup(fs.files[j], g) == None ==> got[k] == FileByte(geo, fs0, disk0, j, p)
  }

  lemma GoodOverlaid(geo: Geo, fs0: Fs, disk0: seq<Block>, fs: Fs, disk: seq<Block>, i: nat, off: nat, data: Block,
                     n: nat,
                     j: nat, pos: nat, m: nat)
    requires DiskOk(disk0, geo.bs) && DiskOk(disk, geo.bs) && j < |fs0.files| == |fs.files| && n <= |data|
    requires off < U32 && off + n <= U32 && AllGood(geo, fs0, disk0, fs, disk, i, off, data, n)
    ensures Overlaid(geo, fs0, disk0, fs, i, off, data[..n], j, pos, Content(fs.files[j], disk, geo.bs, pos, m))
  {
    hide Lookup, BlockOf, ByteAt;
    var got := Content(fs.files[j], disk, geo.bs, pos, m);
    forall k | 0 <= k < |got|
      ensures var p := pos + k;
              var g := BlockOf(geo.bs, p);
              if j == i && off <= p < off + n then got[k] == data[..n][p - off]
              else Lookup(fs0.files[j], g).Some? || Lookup(fs.files[j], g) == None ==>
                     got[k] == FileByte(geo, fs0, disk0, j, p)
    {
      NoWrap(off, n, pos + k);
      assert Good(geo, fs0, disk0, fs, disk, i, off, data, n, j, pos + k);
    }
  }

  /** A write, and then a read of any place that the read file had before: the bytes outside the written
      range are the old ones, in every file. */
  method WriteThenReadOld(f: FileSystem, i: nat, off: nat, data: Block, tails: (nat, nat) -> Block, j: nat, pos: nat,
                          count: nat, buf: array<Byte>)
    returns (done: nat, n: nat)
    requires f.Valid() && i < |f.fs.files| && j < |f.fs.files| && off + |data| < U32
    requires pos + count <= f.sizes[j] && count <= buf.Length
    requires !Breaks(f.geo, f.cap, f.fs, i, off, |data|)
    modifies f, buf
    ensures f.Valid() && done == Reach(f.geo, f.cap, old(f.fs), i, off, |data|, 0).1 && n == count
    ensures |f.fs.files| == |old(f.fs).files| && done <= |data|
    ensures !Drops(f.geo, f.cap, old(f.fs), i, off, |data|) ==>
              Overlaid(f.geo, old(f.fs), old(f.disk), f.fs, i, off, data[..done], j, pos, buf[..n])
  {
    hide AllGood, AllMapped, Own, Divides32, Ensure, Reach, FilesStored, Drops, Breaks, Overlaid, Content;
    done := f.Write(i, off, data, tails);
    if !Drops(f.geo, f.cap, old(f.fs), i, off, |data|) {
      GoodOverlaid(f.geo, old(f.fs), old(f.disk), f.fs, f.disk, i, off, data, done, j, pos, count);
    }
    n := f.ReadAt(j, pos, count, buf);
    if count == 0 {
      assert buf[..n] == Content(f.fs.files[j], f.disk, f.geo.bs, pos, count);
    }
  }

  lemma AllMappedStarts(geo: Geo, fs: Fs, i: nat, off: nat)
    requires geo.bs > 0
    ensures AllMapped(geo, fs, fs, i, off, 0)
  {
    hide Lookup, BlockOf;
  }

  lemma SameSizes(t: Tree, d: nat, disk: seq<Block>, bs: nat, cap: nat, tails: nat -> Block)
    requires DiskOk(disk, bs) && BlockFits(bs, cap)
    ensures DiskOk(WithNodes(t, d, disk, bs, cap, tails), bs)
  {
    hide BlockAfter, Divides32;
  }

  lemma EnsureOthers(geo: Geo, cap: nat, fs: Fs, i: nat, f: nat)
    requires A.GeoOk(geo) && A.Inv(geo, fs.vol) && i < |fs.files| && HasDepth(fs.files[i], Depth(fs.files[i]))
    ensures var fs' := Ensure(geo, cap, fs, i, f).0;
            |fs'.files| == |fs.files| && forall j | 0 <= j < |fs.files| && j != i :: fs'.files[j] == fs.files[j]
  {
  }

  lemma TurnReady(geo: Geo, cap: nat, fs: Fs, i: nat, pos: nat)
    requires Own(geo, cap, fs) && i < |fs.files| && pos < U32
    ensures A.GeoOk(geo) && A.Inv(geo, fs.vol) && geo.bs > 0 && HasDepth(fs.files[i], Depth(fs.files[i]))
    ensures BlockOf(geo.bs, pos) < U32 - 1
  {
    hide OwnedOnce, A.Inv, RootWf, HasDepth, A.Groups;
    RootDepth(fs.files[i], cap);
    FewBlocks(geo.bs, pos);
  }

  lemma FewBlocks(bs: nat, pos: nat)
    requires bs >= 2 && pos < U32
    ensures BlockOf(bs, pos) < U32 - 1
  {
    var q := pos / bs;
    Distribute(2, bs - 2, q);
    assert (bs - 2) * q >= 0;
  }
}
