/** Reading file data: streamed runs, buffered runs and zero-filled holes against a byte-at-a-time
    read (kernel/fs/ext4.c:1941-2033). */
module FileData {
  import opened Words
  import opened Bytes
  import opened Memory
  import opened ExtentTree
  import opened Division

  const READ_BLOCKS := 32
  const STREAM_MIN := 65536
  const STREAM_BLOCKS := 128

  predicate Divides32(bs: nat)
    requires bs > 0
  {
    U32 % bs == 0
  }

  /** Blocks of one size, a power of two. */
  predicate DiskOk(disk: seq<Block>, bs: nat) {
    bs > 0 && Divides32(bs) && |disk| < U32 && forall b | 0 <= b < |disk| :: |disk[b]| == bs
  }

  /** Every mapped file block is a block of the disk. */
  ghost predicate Mapped(t: Tree, disk: seq<Block>) {
    forall f :: Lookup(t, f).Some? ==> Lookup(t, f).value < |disk|
  }

  /** The byte of the file at position pos; holes read as zero. */
  function ByteAt(t: Tree, disk: seq<Block>, bs: nat, pos: nat): Byte
    requires DiskOk(disk, bs)
  {
    var a := Lookup(t, BlockOf(bs, pos));
    if a.Some? && a.value < |disk| then disk[a.value][Within(bs, pos)] else 0
  }

  /** Reading n bytes one at a time. */
  function Content(t: Tree, disk: seq<Block>, bs: nat, pos: nat, n: nat): (r: Block)
    requires DiskOk(disk, bs)
    ensures |r| == n
  {
    seq<Byte>(n, k requires 0 <= k < n => ByteAt(t, disk, bs, pos + k))
  }

  lemma ContentConcat(t: Tree, disk: seq<Block>, bs: nat, pos: nat, n: nat, m: nat)
    requires DiskOk(disk, bs)
    ensures Content(t, disk, bs, pos, n + m) == Content(t, disk, bs, pos, n) + Content(t, disk, bs, pos + n, m)
  {
    hide ByteAt;
  }

  /** A hole reads as zeros up to the end of its block. */
  lemma HoleIs(t: Tree, disk: seq<Block>, bs: nat, pos: nat, z: nat)
    requires DiskOk(disk, bs) && Within(bs, pos) + z <= bs && Lookup(t, BlockOf(bs, pos)) == None
    ensures Content(t, disk, bs, pos, z) == Zeros(z)
  {
    hide Lookup, BlockOf, Within;
    forall k | 0 <= k < z
      ensures Content(t, disk, bs, pos, z)[k] == 0
    {
      PositionFrom(bs, pos, k);
      InBlock(bs, Within(bs, pos) + k);
    }
  }

  /** The bytes of run consecutive disk blocks. */
  function Blocks(disk: seq<Block>, bs: nat, addr: nat, run: nat): (r: Block)
    requires DiskOk(disk, bs) && addr + run <= |disk|
    ensures |r| == Span(bs, run)
  {
    if run == 0 then []
    else
      InSpan(bs, run, 0);
      Blocks(disk, bs, addr, run - 1) + disk[addr + run - 1]
  }

  lemma {:induction false} BlocksAt(disk: seq<Block>, bs: nat, addr: nat, run: nat, j: nat)
    requires DiskOk(disk, bs) && addr + run <= |disk| && j < Span(bs, run)
    ensures BlockOf(bs, j) < run && Blocks(disk, bs, addr, run)[j] == disk[addr + BlockOf(bs, j)][Within(bs, j)]
  {
    assert run > 0;
    hide BlockOf, Within, Span;
    InSpan(bs, run, j);
    if j < Span(bs, run - 1) {
      BlocksAt(disk, bs, addr, run - 1, j);
    }
  }

  /** File blocks f, f + 1, ... are mapped to addr, addr + 1, ... */
  predicate IsRun(t: Tree, f: nat, addr: nat, run: nat) {
    forall g | f <= g < f + run :: Lookup(t, g) == Some(addr + (g - f))
  }

  lemma RunByte(t: Tree, disk: seq<Block>, bs: nat, pos: nat, addr: nat, run: nat, k: nat)
    requires DiskOk(disk, bs) && addr + run <= |disk| && IsRun(t, BlockOf(bs, pos), addr, run)
    requires Within(bs, pos) + k < Span(bs, run)
    ensures ByteAt(t, disk, bs, pos + k) == Blocks(disk, bs, addr, run)[Within(bs, pos) + k]
  {
    hide Lookup, Blocks, BlockOf, Within, Span, IsRun, Divides32;
    var j := Within(bs, pos) + k;
    PositionFrom(bs, pos, k);
    BlocksAt(disk, bs, addr, run, j);
    RunBlock(t, BlockOf(bs, pos), addr, run, BlockOf(bs, j));
  }

  lemma RunBlock(t: Tree, f: nat, addr: nat, run: nat, i: nat)
    requires IsRun(t, f, addr, run) && i < run
    ensures Lookup(t, f + i) == Some(addr + i)
  {
    hide Lookup;
    var g := f + i;
    assert Lookup(t, g) == Some(addr + (g - f));
  }

  /** Reading a run of blocks from disk is reading the file. */
  lemma RunIs(t: Tree, disk: seq<Block>, bs: nat, pos: nat, addr: nat, run: nat, n: nat)
    requires DiskOk(disk, bs) && addr + run <= |disk| && IsRun(t, BlockOf(bs, pos), addr, run)
    requires Within(bs, pos) + n <= Span(bs, run)
    ensures Content(t, disk, bs, pos, n) == Blocks(disk, bs, addr, run)[Within(bs, pos)..Within(bs, pos) + n]
  {
    hide ByteAt, Blocks, BlockOf, Within, Span, IsRun, DiskOk;
    var w := Within(bs, pos);
    var part := Blocks(disk, bs, addr, run)[w..w + n];
    forall k | 0 <= k < n
      ensures Content(t, disk, bs, pos, n)[k] == part[k]
    {
      RunByte(t, disk, bs, pos, addr, run, k);
    }
  }

  // ----- the clamp

  /** How many bytes the call returns, with the sum computed in 32 bits. */
  function Clamped(off: nat, count: nat, size: nat): nat {
    if off >= size then 0 else if Add32(off, count) > size then size - off else count
  }

  /** The promised length min(count, size - off) is returned if and only if the 32-bit sum does
      not wrap. */
  lemma ClampIff(off: nat, count: nat, size: nat)
    requires off < size < U32 && count < U32
    ensures Clamped(off, count, size) == Min(count, size - off) <==> off + count < U32
  {
  }

  // ----- the read

  /** The inner loops: how many blocks from f on lie next to each other on disk, up to most and
      while the run so far ends before bound (in the streaming loop, most blocks end at the bound). */
  method RunLength(t: Tree, disk: seq<Block>, bs: nat, f: nat, addr: nat, most: nat, within: nat, bound: nat)
    returns (run: nat)
    requires Mapped(t, disk) && Lookup(t, f) == Some(addr) && most > 0
    ensures 1 <= run <= most && IsRun(t, f, addr, run) && addr + run <= |disk|
    ensures run == most || within + Span(bs, run) >= bound || Lookup(t, f + run) != Some(addr + run)
  {
    hide Lookup;
    run := 1;
    while run < most && within + Span(bs, run) < bound
      invariant 1 <= run <= most && IsRun(t, f, addr, run) && addr + run <= |disk|
    {
      var next := Lookup(t, f + run);
      if next == None || next.value != addr + run {
        break;
      }
      run := run + 1;
    }
  }

  /** Positions at block boundaries. */
  lemma Aligned(bs: nat, off: nat, d: nat)
    requires bs > 0 && Within(bs, off) == 0
    ensures Within(bs, off + Span(bs, d)) == 0
  {
    Shifted(bs, off, d * bs, off / bs, 0, d, 0);
  }

  /** The same when the position wraps: 2^32 is a whole number of blocks. */
  lemma AlignedWrap(bs: nat, off: nat, d: nat)
    requires bs > 0 && Divides32(bs) && Within(bs, off) == 0
    ensures Within(bs, Add32(off, Span(bs, d))) == 0
  {
    Aligned(bs, off, d);
    if off + Span(bs, d) >= U32 {
      LessMultiple(bs, off + Span(bs, d), U32);
    }
  }

  lemma LessMultiple(bs: nat, x: nat, y: nat)
    requires bs > 0 && y <= x && x % bs == 0 && y % bs == 0
    ensures (x - y) % bs == 0
  {
    Distribute(x / bs, -(y / bs), bs);
    var q := x / bs - y / bs;
    assert x - y == q * bs;
    MulAtLeast(-q, bs);
    DivModIs(q, bs, 0);
  }

  lemma EmptyRead(t: Tree, disk: seq<Block>, bs: nat, off: nat)
    requires DiskOk(disk, bs) && off < U32
    ensures ReadSoFar(t, disk, bs, off, 0, [])
  {
  }

  /** What the bytes from off on are, as far as read: those of the file up to position 2^32. Where the position
      has wrapped, nothing is claimed. */
  ghost predicate ReadSoFar(t: Tree, disk: seq<Block>, bs: nat, off: nat, done: nat, got: Block)
    requires DiskOk(disk, bs) && off < U32
  {
    |got| == done && got[..Min(done, U32 - off)] == Content(t, disk, bs, off, Min(done, U32 - off))
  }

  lemma ContentPrefix(t: Tree, disk: seq<Block>, bs: nat, pos: nat, n: nat, m: nat)
    requires DiskOk(disk, bs) && m <= n
    ensures Content(t, disk, bs, pos, n)[..m] == Content(t, disk, bs, pos, m)
  {
    hide ByteAt;
  }

  /** One chunk more. */
  lemma ReadMore(t: Tree, disk: seq<Block>, bs: nat, off: nat, done: nat, got: Block, n: nat, chunk: Block)
    requires DiskOk(disk, bs) && off < U32 && ReadSoFar(t, disk, bs, off, done, got) && |chunk| == n > 0
    requires off + done < U32 ==> chunk == Content(t, disk, bs, off + done, n)
    ensures ReadSoFar(t, disk, bs, off, done + n, got + chunk)
  {
    hide Content;
    var m := Min(done + n, U32 - off);
    if off + done < U32 {
      assert got[..done] == got;
      ContentConcat(t, disk, bs, off, done, n);
      ContentPrefix(t, disk, bs, off, done + n, m);
    } else {
      assert (got + chunk)[..m] == got[..m];
    }
  }

  /** A hole of n bytes filled in. */
  method TakeHole(t: Tree, disk: seq<Block>, bs: nat, off: nat, done: nat, n: nat, buf: array<Byte>)
    requires DiskOk(disk, bs) && off < U32 && done < U32 && 0 < n && done + n <= buf.Length
    requires ReadSoFar(t, disk, bs, off, done, buf[..done])
    requires Lookup(t, BlockOf(bs, Add32(off, done))) == None && Within(bs, Add32(off, done)) + n <= bs
    modifies buf
    ensures ReadSoFar(t, disk, bs, off, done + n, buf[..done + n]) && buf[done + n..] == old(buf[done + n..])
  {
    hide Lookup, BlockOf, Within, Content, ReadSoFar;
    ghost var got := buf[..done];
    Zero(buf, done, n);
    if off + done < U32 {
      HoleIs(t, disk, bs, off + done, n);
    }
    ReadMore(t, disk, bs, off, done, got, n, buf[done..done + n]);
    assert buf[..done + n] == got + buf[done..done + n];
  }

  /** n bytes of a run copied in. */
  method TakeRun(t: Tree, disk: seq<Block>, bs: nat, off: nat, done: nat, addr: nat, run: nat, chunk: Block,
                 buf: array<Byte>)
    requires DiskOk(disk, bs) && off < U32 && done < U32 && chunk != [] && done + |chunk| <= buf.Length
    requires ReadSoFar(t, disk, bs, off, done, buf[..done])
    requires var pos := Add32(off, done);
             && addr + run <= |disk| && IsRun(t, BlockOf(bs, pos), addr, run)
             && Within(bs, pos) + |chunk| <= Span(bs, run)
             && chunk == Blocks(disk, bs, addr, run)[Within(bs, pos)..Within(bs, pos) + |chunk|]
    modifies buf
    ensures var n := done + |chunk|;
            ReadSoFar(t, disk, bs, off, n, buf[..n]) && buf[n..] == old(buf[n..])
  {
    hide Lookup, BlockOf, Within, Content, ReadSoFar, Span, Blocks, IsRun;
    ghost var got := buf[..done];
    var n := |chunk|;
    Copy(buf, done, chunk);
    if off + done < U32 {
      RunIs(t, disk, bs, off + done, addr, run, n);
    }
    ReadMore(t, disk, bs, off, done, got, n, buf[done..done + n]);
    assert buf[..done + n] == got + buf[done..done + n];
  }

  /** The streaming loop: whole blocks straight into the caller's buffer. */
  method Stream(t: Tree, disk: seq<Block>, bs: nat, off: nat, count: nat, buf: array<Byte>) returns (done: nat)
    requires DiskOk(disk, bs) && Mapped(t, disk) && off < U32 && count < U32 && count <= buf.Length
             && Within(bs, off) == 0
    modifies buf
    ensures done <= count && ReadSoFar(t, disk, bs, off, done, buf[..done]) && buf[done..] == old(buf[done..])
  {
    hide Lookup, BlockOf, Within, Span, Blocks, Content, ReadSoFar, IsRun, Divides32;
    done := 0;
    ghost var d, m := 0, BlockOf(bs, count);
    var limit := count - Within(bs, count);
    WholeBlocks(bs, count);
    EmptyRead(t, disk, bs, off);
    assert buf[..0] == [];
    while done < limit
      invariant done == Span(bs, d) <= limit && d <= m
      invariant ReadSoFar(t, disk, bs, off, done, buf[..done]) && buf[done..] == old(buf[done..])
      decreases m - d
    {
      AlignedWrap(bs, off, d);
      Left(bs, d, m);
      var fblk := BlockOf(bs, Add32(off, done));
      var maxb := Min(BlockOf(bs, limit - done), STREAM_BLOCKS);
      ghost var rest := buf[done..];
      var addr := Lookup(t, fblk);
      if addr == None {
        SpanOne(bs);
        SpanAdd(bs, d, 1, m);
        var z := Min(limit - done, bs);
        TakeHole(t, disk, bs, off, done, z, buf);
        assert buf[done + z..] == rest[z..];
        done, d := done + z, d + 1;
      } else {
        var run := RunLength(t, disk, bs, fblk, addr.value, maxb, 0, limit - done);
        SpanAdd(bs, d, run, m);
        var got := Blocks(disk, bs, addr.value, run);
        assert got[0..|got|] == got;
        TakeRun(t, disk, bs, off, done, addr.value, run, got, buf);
        assert buf[done + |got|..] == rest[|got|..];
        done, d := done + Span(bs, run), d + run;
      }
    }
  }

  /** Blocks read into the page buffer, and the wanted part of them. */
  method Bounce(blk: array<Byte>, data: Block, within: nat, n: nat) returns (part: Block)
    requires within + n <= |data| <= blk.Length
    modifies blk
    ensures part == data[within..within + n]
  {
    Copy(blk, 0, data);
    part := blk[within..within + n];
    forall k | 0 <= k < n ensures part[k] == data[within + k] {
      assert part[k] == blk[within + k] == blk[0..0 + |data|][within + k];
    }
  }

  /** The buffered loop: runs of blocks read into a page buffer, then the wanted part copied out. */
  method Buffered(t: Tree, disk: seq<Block>, bs: nat, off: nat, count: nat, start: nat, buf: array<Byte>)
    requires DiskOk(disk, bs) && Mapped(t, disk) && off < U32 && count < U32 && start <= count <= buf.Length
    requires ReadSoFar(t, disk, bs, off, start, buf[..start])
    modifies buf
    ensures ReadSoFar(t, disk, bs, off, count, buf[..count]) && buf[count..] == old(buf[count..])
  {
    hide Lookup, BlockOf, Within, Span, Blocks, Content, ReadSoFar, IsRun, Divides32;
    var done := start;
    var blk := new Byte[Span(bs, READ_BLOCKS)](_ => 0);
    while done < count
      invariant start <= done <= count
      invariant ReadSoFar(t, disk, bs, off, done, buf[..done]) && buf[done..] == old(buf[done..])
      decreases count - done
    {
      var pos := Add32(off, done);
      var fblk, within := BlockOf(bs, pos), Within(bs, pos);
      var addr := Lookup(t, fblk);
      ghost var rest := buf[done..];
      if addr == None {
        var z := Min(bs - within, count - done);
        TakeHole(t, disk, bs, off, done, z, buf);
        assert buf[done + z..] == rest[z..];
        done := done + z;
      } else {
        var run := RunLength(t, disk, bs, fblk, addr.value, READ_BLOCKS, within, count);
        SpanAdd(bs, 0, run, READ_BLOCKS);
        var n := Min(count - done, Span(bs, run) - within);
        var part := Bounce(blk, Blocks(disk, bs, addr.value, run), within, n);
        TakeRun(t, disk, bs, off, done, addr.value, run, part, buf);
        assert buf[done + n..] == rest[n..];
        done := done + n;
      }
    }
  }

  /** `ext4_read_from_inode_impl`: whichever strategy runs, the bytes are those of the
      byte-at-a-time read; only when the 32-bit sum wraps to at most the size is the length
      not min(count, size - off). */
  method Read(t: Tree, size: nat, disk: seq<Block>, bs: nat, off: nat, count: nat, buf: array<Byte>) returns (done: nat)
    requires DiskOk(disk, bs) && Mapped(t, disk) && off < U32 && count < U32 && size < U32 && count <= buf.Length
    modifies buf
    ensures done == Clamped(off, count, size) && buf[done..] == old(buf[done..])
    ensures off < size && off + count < U32 ==>
              done == Min(count, size - off) && buf[..done] == Content(t, disk, bs, off, done)
    ensures var m := Min(done, U32 - off);
            buf[..m] == Content(t, disk, bs, off, m)
    ensures off >= size ==> done == 0
  {
    if off >= size {
      assert buf[..0] == Content(t, disk, bs, off, 0);
      return 0;
    }
    ClampIff(off, count, size);
    var wanted := if Add32(off, count) > size then size - off else count;
    done := 0;
    EmptyRead(t, disk, bs, off);
    assert buf[..0] == [];
    if wanted >= STREAM_MIN && off % bs == 0 {
      done := Stream(t, disk, bs, off, wanted, buf);
    }
    Buffered(t, disk, bs, off, wanted, done, buf);
    done := wanted;
  }
}
