/** The ext2 block map: the image builder lays out direct, single and double indirect pointers,
    the kernel reads them back (scripts/make_ext2.py:155-196, 435-440, kernel/fs/ext2.c:356-446). */
module Ext2Map {
  import opened Words
  import opened Bytes

  const BLOCK := 1024
  const ADDRS := 256
  const DIRECT := 12
  const MAX_BLOCKS := DIRECT + ADDRS + ADDRS * ADDRS

  function Range(a: nat, n: nat): (r: seq<nat>)
    ensures |r| == n && forall i | 0 <= i < n :: r[i] == a + i
  {
    seq(n, i => a + i)
  }

  // ----- pointer blocks

  /** The words of data, packed as 32-bit little-endian numbers. */
  function Packed(data: seq<nat>): (r: Block)
    requires forall j | 0 <= j < |data| :: data[j] < U32
    ensures |r| == 4 * |data|
  {
    if data == [] then [] else Packed(data[..|data| - 1]) + PutLe32(data[|data| - 1])
  }

  /** A pointer block: the packed words, then zeros. */
  function PointerBlock(data: seq<nat>): (r: Block)
    requires |data| <= ADDRS && forall j | 0 <= j < |data| :: data[j] < U32
    ensures |r| == BLOCK
  {
    Packed(data) + Zeros(BLOCK - 4 * |data|)
  }

  lemma {:induction false} PackedAt(data: seq<nat>, j: nat)
    requires (forall i | 0 <= i < |data| :: data[i] < U32) && j < |data|
    ensures Le32(Packed(data), 4 * j) == data[j]
  {
    hide Le32, PutLe32;
    var n := |data| - 1;
    var p, q := Packed(data[..n]), PutLe32(data[n]);
    if j < n {
      PackedAt(data[..n], j);
      Le32Same(p, p + q, 4 * j, 4 * j);
    } else {
      Le32RoundTrip(data[n]);
      Le32Same(q, p + q, 0, 4 * n);
    }
  }

  lemma Le32Same(a: Block, b: Block, o: nat, o': nat)
    requires o + 4 <= |a| && o' + 4 <= |b| && a[o..o + 4] == b[o'..o' + 4]
    ensures Le32(a, o) == Le32(b, o')
  {
    hide Word;
    assert a[o..o + 4][0] == a[o] && a[o..o + 4][1] == a[o + 1] && a[o..o + 4][2] == a[o + 2]
           && a[o..o + 4][3] == a[o + 3];
    assert b[o'..o' + 4][0] == b[o'] && b[o'..o' + 4][1] == b[o' + 1] && b[o'..o' + 4][2] == b[o' + 2]
           && b[o'..o' + 4][3] == b[o' + 3];
  }

  /** Reading entry j of a pointer block: the j-th word, or 0 behind the last. */
  lemma PointerAt(data: seq<nat>, j: nat)
    requires |data| <= ADDRS && (forall i | 0 <= i < |data| :: data[i] < U32) && j < ADDRS
    ensures Le32(PointerBlock(data), 4 * j) == if j < |data| then data[j] else 0
  {
    hide Le32, Packed;
    var p, z := Packed(data), Zeros(BLOCK - 4 * |data|);
    if j < |data| {
      PackedAt(data, j);
      Le32Same(p, p + z, 4 * j, 4 * j);
    } else {
      Le32Same(z, p + z, 4 * j - 4 * |data|, 4 * j);
      ZeroAt(z, 4 * j - 4 * |data|);
    }
  }

  lemma ZeroAt(z: Block, o: nat)
    requires o + 4 <= |z| && forall i | 0 <= i < |z| :: z[i] == 0
    ensures Le32(z, o) == 0
  {
  }

  // ----- the reader

  /** `ext2_walk_cached`; 0 when the pointer is empty or the block cannot be read. */
  function WalkCached(disk: map<nat, Block>, root: nat, f: nat, span: nat): nat
    requires span == 1 || span == ADDRS
    requires f / span < ADDRS
    decreases span
  {
    if root !in disk || |disk[root]| != BLOCK then 0
    else
      var child := Le32(disk[root], 4 * (f / span));
      if child == 0 || span == 1 then child else WalkCached(disk, child, f % span, span / ADDRS)
  }

  /** `ext2_block_of` without allocation. */
  function BlockAt(ptrs: seq<nat>, disk: map<nat, Block>, f: nat): Option<nat>
    requires |ptrs| == 15
  {
    if f >= MAX_BLOCKS then None
    else
      var b := if f < DIRECT then ptrs[f]
               else if f - DIRECT < ADDRS then (if ptrs[12] == 0 then 0 else WalkCached(disk, ptrs[12], f - DIRECT, 1))
               else if ptrs[13] == 0 then 0 else WalkCached(disk, ptrs[13], f - DIRECT - ADDRS, ADDRS);
      if b == 0 then None else Some(b)
  }

  // ----- the builder

  /** A pointer block and its words. */
  datatype Indirect = Indirect(blk: nat, data: seq<nat>)

  datatype Layout = Layout(ptrs: seq<nat>, next: nat, indirect: seq<Indirect>)

  /** The blocks needed below the double indirect block. */
  function Subs(n: nat): nat {
    if n <= DIRECT + ADDRS then 0 else (n - DIRECT - ADDRS + 255) / 256
  }

  /** Where everything goes: the data, the single indirect block, the double indirect block, and
      the blocks below that. */
  function SubBlock(cur: nat, n: nat, k: nat): Indirect
    requires DIRECT + ADDRS + k * 256 <= n
  {
    var lo := DIRECT + ADDRS + k * 256;
    Indirect(cur + n + 2 + k, Range(cur + lo, Min(256, n - lo)))
  }

  function Single(cur: nat, n: nat): Indirect
    requires n > DIRECT
  {
    Indirect(cur + n, Range(cur + DIRECT, Min(n - DIRECT, ADDRS)))
  }

  function Double(cur: nat, n: nat): Indirect { Indirect(cur + n + 1, Range(cur + n + 2, Subs(n))) }

  function Pointers(cur: nat, n: nat): seq<nat>
    ensures |Pointers(cur, n)| == 15
  {
    Range(cur, Min(n, DIRECT)) + seq(DIRECT - Min(n, DIRECT), _ => 0)
    + [if n > DIRECT then cur + n else 0, if Subs(n) > 0 then cur + n + 1 else 0, 0]
  }

  function SubBlocks(cur: nat, n: nat, m: nat): (r: seq<Indirect>)
    requires m <= Subs(n)
    ensures |r| == m
  {
    if m == 0 then [] else SubBlocks(cur, n, m - 1) + [SubBlock(cur, n, m - 1)]
  }

  function IndirectBlocks(cur: nat, n: nat): seq<Indirect> {
    if n <= DIRECT then []
    else if Subs(n) == 0 then [Single(cur, n)]
    else [Single(cur, n), Double(cur, n)] + SubBlocks(cur, n, Subs(n))
  }

  function Place(cur: nat, n: nat): Layout {
    Layout(Pointers(cur, n), cur + n + |IndirectBlocks(cur, n)|, IndirectBlocks(cur, n))
  }

  /** `blocks[lo:lo + 256]`. */
  function Part(blocks: seq<nat>, lo: nat): seq<nat> {
    if lo <= |blocks| then blocks[lo..Min(lo + 256, |blocks|)] else []
  }

  /** `alloc_file_blocks` for a payload of n blocks. */
  method AllocFileBlocks(cur: nat, n: nat) returns (r: Layout)
    ensures r == Place(cur, n)
  {
    hide Pointers;
    var ptrs: seq<nat> := seq(15, _ => 0);
    var blocks := Range(cur, n);
    var next := cur + n;
    var indirect := [];
    if n <= DIRECT {
      ptrs := blocks + ptrs[n..];
    } else {
      ptrs := blocks[..DIRECT] + ptrs[DIRECT..];
      var nSingle := Min(n - DIRECT, ADDRS);
      var nDouble := n - DIRECT - nSingle;
      ptrs := ptrs[12 := next];
      indirect := indirect + [Indirect(next, blocks[DIRECT..DIRECT + nSingle])];
      assert blocks[DIRECT..DIRECT + nSingle] == Range(cur + DIRECT, nSingle);
      next := next + 1;
      if nDouble > 0 {
        var dbl := next;
        next := next + 1;
        var nSub := (nDouble + 255) / 256;
        var subs := Range(next, nSub);
        ptrs := ptrs[13 := dbl];
        indirect := indirect + [Indirect(dbl, subs)];
        for k := 0 to nSub
          invariant indirect == [Single(cur, n), Double(cur, n)] + SubBlocks(cur, n, k)
        {
          var part := Part(blocks, DIRECT + nSingle + k * 256);
          assert Indirect(subs[k], part) == SubBlock(cur, n, k);
          indirect := indirect + [Indirect(subs[k], part)];
        }
        next := next + nSub;
      }
    }
    PointersAre(cur, n, ptrs);
    r := Layout(ptrs, next, indirect);
  }

  lemma PointersAre(cur: nat, n: nat, ptrs: seq<nat>)
    requires |ptrs| == 15 && (forall i | 0 <= i < DIRECT :: ptrs[i] == if i < n then cur + i else 0)
    requires ptrs[12] == (if n > DIRECT then cur + n else 0) && ptrs[13] == (if Subs(n) > 0 then cur + n + 1 else 0)
             && ptrs[14] == 0
    ensures ptrs == Pointers(cur, n)
  {
  }

  // ----- reading back

  predicate WordsOk(ind: seq<Indirect>) {
    forall k | 0 <= k < |ind| :: DataOk(ind[k])
  }

  predicate DataOk(i: Indirect) {
    |i.data| <= ADDRS && forall j | 0 <= j < |i.data| :: i.data[j] < U32
  }

  /** The pointer blocks are on the disk. */
  predicate Holds(disk: map<nat, Block>, ind: seq<Indirect>)
    requires WordsOk(ind)
  {
    forall k | 0 <= k < |ind| :: HoldsOne(disk, ind[k])
  }

  predicate HoldsOne(disk: map<nat, Block>, i: Indirect)
    requires DataOk(i)
  {
    i.blk in disk && disk[i.blk] == PointerBlock(i.data)
  }

  lemma {:induction false} SubBlocksAt(cur: nat, n: nat, m: nat, k: nat)
    requires m <= Subs(n) && k < m
    ensures SubBlocks(cur, n, m)[k] == SubBlock(cur, n, k)
  {
    if k < m - 1 {
      SubBlocksAt(cur, n, m - 1, k);
    }
  }

  /** Data blocks, then pointer blocks: together they fill the range from cur to the next free block
      without a gap and without a repetition. */
  lemma Contiguous(cur: nat, n: nat, k: nat)
    requires k < |Place(cur, n).indirect|
    ensures Place(cur, n).indirect[k].blk == cur + n + k
    ensures Place(cur, n).next == cur + n + |Place(cur, n).indirect|
  {
    if k >= 2 {
      SubBlocksAt(cur, n, Subs(n), k - 2);
    }
  }

  lemma PlaceOk(cur: nat, n: nat)
    requires n <= MAX_BLOCKS && Place(cur, n).next <= U32
    ensures WordsOk(Place(cur, n).indirect)
  {
    var ind := IndirectBlocks(cur, n);
    forall k | 0 <= k < |ind| ensures DataOk(ind[k]) {
      if k >= 2 {
        SubBlocksAt(cur, n, Subs(n), k - 2);
      }
    }
  }

  /** One pointer block read back. */
  lemma ReadOne(disk: map<nat, Block>, i: Indirect, f: nat)
    requires DataOk(i) && HoldsOne(disk, i) && f < ADDRS
    ensures WalkCached(disk, i.blk, f, 1) == if f < |i.data| then i.data[f] else 0
  {
    hide Le32, PointerBlock;
    PointerAt(i.data, f);
    assert f / 1 == f;
  }

  /** Two levels read back. */
  lemma ReadTwo(disk: map<nat, Block>, top: Indirect, f: nat)
    requires DataOk(top) && HoldsOne(disk, top) && f < ADDRS * ADDRS
    ensures WalkCached(disk, top.blk, f, ADDRS) ==
              if f / ADDRS < |top.data| && top.data[f / ADDRS] != 0
                 then WalkCached(disk, top.data[f / ADDRS], f % ADDRS, 1) else 0
  {
    hide Le32, PointerBlock;
    PointerAt(top.data, f / ADDRS);
  }

  /** What the builder lays out, the kernel reads back: the i-th data block for every i below the
      length, and nothing for every other i. */
  lemma ReadsBack(cur: nat, n: nat, disk: map<nat, Block>, i: nat)
    requires 0 < cur && n <= MAX_BLOCKS && Place(cur, n).next <= U32
    requires WordsOk(Place(cur, n).indirect) && Holds(disk, Place(cur, n).indirect)
    ensures BlockAt(Pointers(cur, n), disk, i) == if i < n then Some(cur + i) else None
  {
    hide WalkCached, PointerBlock, HoldsOne;
    var ind := IndirectBlocks(cur, n);
    if DIRECT <= i < DIRECT + ADDRS {
      if n > DIRECT {
        assert ind[0] == Single(cur, n) && HoldsOne(disk, ind[0]);
        ReadOne(disk, ind[0], i - DIRECT);
      }
    } else if DIRECT + ADDRS <= i < MAX_BLOCKS && Subs(n) > 0 {
      var f := i - DIRECT - ADDRS;
      assert ind[1] == Double(cur, n) && HoldsOne(disk, ind[1]);
      ReadTwo(disk, ind[1], f);
      var k := f / ADDRS;
      if k < Subs(n) {
        SubBlocksAt(cur, n, Subs(n), k);
        assert ind[2 + k] == SubBlock(cur, n, k) && HoldsOne(disk, ind[2 + k]);
        ReadOne(disk, ind[2 + k], f % ADDRS);
      }
    }
  }
}
