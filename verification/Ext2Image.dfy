/** A whole image: the pointer blocks of all files are written, then their data, and every file is
    read back (scripts/make_ext2.py:155-196, 435-443, kernel/fs/ext2.c:356-446). */
module Ext2Image {
  import opened Words
  import opened Bytes
  import opened Memory
  import opened Ext2Map

  type Disk = map<nat, Block>

  /** The pointer-block writer: a zeroed block, then each word packed in place. */
  method WritePointers(data: seq<nat>) returns (idx: array<Byte>)
    requires |data| <= ADDRS && forall j | 0 <= j < |data| :: data[j] < U32
    ensures fresh(idx) && idx[..] == PointerBlock(data)
  {
    hide PutLe32;
    idx := new Byte[BLOCK](_ => 0);
    for j := 0 to |data|
      invariant idx[..4 * j] == Packed(data[..j])
      invariant idx[4 * j..] == Zeros(BLOCK - 4 * j)
    {
      ghost var rest := idx[4 * j..];
      Copy(idx, 4 * j, PutLe32(data[j]));
      assert idx[4 * (j + 1)..] == rest[4..];
      assert idx[..4 * (j + 1)] == idx[..4 * j] + idx[4 * j..4 * j + 4];
      assert data[..j + 1][..j] == data[..j];
    }
    assert data[..|data|] == data;
    assert idx[..] == idx[..4 * |data|] + idx[4 * |data|..];
  }

  /** The block after the data and the pointer blocks of file k. */
  function End(starts: seq<nat>, sizes: seq<nat>, k: nat): (r: nat)
    requires k < |starts| == |sizes|
    ensures r >= starts[k] + sizes[k]
  {
    Place(starts[k], sizes[k]).next
  }

  /** The files lie one after another; directory and link blocks may lie between them. */
  predicate Fits(starts: seq<nat>, sizes: seq<nat>) {
    && |starts| == |sizes|
    && (forall k | 0 <= k < |sizes| :: 0 < starts[k] && sizes[k] <= MAX_BLOCKS && End(starts, sizes, k) <= U32)
    && forall k | 0 < k < |sizes| :: End(starts, sizes, k - 1) <= starts[k]
  }

  lemma {:induction false} InOrder(starts: seq<nat>, sizes: seq<nat>, j: nat, k: nat)
    requires Fits(starts, sizes) && j < k < |sizes|
    ensures End(starts, sizes, j) <= starts[k]
    decreases k
  {
    hide Place;
    if j < k - 1 {
      InOrder(starts, sizes, j, k - 1);
    }
  }

  function Ind(starts: seq<nat>, sizes: seq<nat>, k: nat): (r: seq<Indirect>)
    requires k < |sizes| && Fits(starts, sizes)
    ensures WordsOk(r)
  {
    PlaceOk(starts[k], sizes[k]);
    Place(starts[k], sizes[k]).indirect
  }

  /** The first m of the pointer blocks ind on disk. */
  function Pointed(disk: Disk, ind: seq<Indirect>, m: nat): Disk
    requires WordsOk(ind) && m <= |ind|
  {
    if m == 0 then disk else Pointed(disk, ind, m - 1)[ind[m - 1].blk := PointerBlock(ind[m - 1].data)]
  }

  /** The first m blocks of a file's content from block b on. */
  function Filled(disk: Disk, b: nat, m: nat, content: nat -> Block): Disk {
    if m == 0 then disk else Filled(disk, b, m - 1, content)[b + m - 1 := content(m - 1)]
  }

  /** The pointer blocks of the first k files. */
  function AllPointed(starts: seq<nat>, sizes: seq<nat>, disk: Disk, k: nat): Disk
    requires k <= |sizes| && Fits(starts, sizes)
  {
    if k == 0 then disk else Pointed(AllPointed(starts, sizes, disk, k - 1), Ind(starts, sizes, k - 1),
                                     |Ind(starts, sizes, k - 1)|)
  }

  /** The data of the first k files. */
  function AllFilled(starts: seq<nat>, sizes: seq<nat>, disk: Disk, content: (nat, nat) -> Block, k: nat): Disk
    requires k <= |sizes| == |starts|
  {
    if k == 0 then disk
    else Filled(AllFilled(starts, sizes, disk, content, k - 1), starts[k - 1], sizes[k - 1], i => content(k - 1, i))
  }

  /** The data loop seeks to the first block of each payload: an empty payload has none, and the
      builder stops there. */
  function WriteData(starts: seq<nat>, sizes: seq<nat>, disk: Disk, content: (nat, nat) -> Block, k: nat): Option<Disk>
    requires k <= |sizes| == |starts|
  {
    if k == 0 then Some(disk)
    else
      var before := WriteData(starts, sizes, disk, content, k - 1);
      if before == None || sizes[k - 1] == 0 then None
      else Some(Filled(before.value, starts[k - 1], sizes[k - 1], i => content(k - 1, i)))
  }

  function Build(starts: seq<nat>, sizes: seq<nat>, disk: Disk, content: (nat, nat) -> Block): Option<Disk>
    requires Fits(starts, sizes)
  {
    WriteData(starts, sizes, AllPointed(starts, sizes, disk, |sizes|), content, |sizes|)
  }

  lemma {:induction false} WrittenIff(starts: seq<nat>, sizes: seq<nat>, disk: Disk, content: (nat, nat) -> Block,
                                      k: nat)
    requires k <= |sizes| == |starts|
    ensures WriteData(starts, sizes, disk, content, k) ==
            if 0 in sizes[..k] then None else Some(AllFilled(starts, sizes, disk, content, k))
  {
    hide Filled;
    if k > 0 {
      WrittenIff(starts, sizes, disk, content, k - 1);
      assert sizes[..k] == sizes[..k - 1] + [sizes[k - 1]];
    }
  }

  predicate SameAt(a: Disk, c: Disk, b: nat) {
    (b in a <==> b in c) && (b in a ==> a[b] == c[b])
  }

  lemma {:induction false} PointedAt(disk: Disk, ind: seq<Indirect>, m: nat, base: nat, b: nat)
    requires WordsOk(ind) && m <= |ind| && forall k | 0 <= k < |ind| :: ind[k].blk == base + k
    ensures b < base || b >= base + m ==> SameAt(disk, Pointed(disk, ind, m), b)
    ensures base <= b < base + m ==> HoldsOne(Pointed(disk, ind, m), ind[b - base])
  {
    hide PointerBlock, DataOk;
    if m > 0 {
      PointedAt(disk, ind, m - 1, base, b);
    }
  }

  lemma {:induction false} FilledAt(disk: Disk, s: nat, m: nat, content: nat -> Block, b: nat)
    ensures b < s || b >= s + m ==> SameAt(disk, Filled(disk, s, m, content), b)
    ensures s <= b < s + m ==> b in Filled(disk, s, m, content) && Filled(disk, s, m, content)[b] == content(b - s)
  {
    if m > 0 {
      FilledAt(disk, s, m - 1, content, b);
    }
  }

  lemma IndAt(starts: seq<nat>, sizes: seq<nat>, k: nat)
    requires k < |sizes| && Fits(starts, sizes)
    ensures var base := starts[k] + sizes[k];
            var ind := Ind(starts, sizes, k);
            && base + |ind| == End(starts, sizes, k)
            && forall j | 0 <= j < |ind| :: ind[j].blk == base + j
  {
    var ind := Ind(starts, sizes, k);
    forall j | 0 <= j < |ind| ensures ind[j].blk == starts[k] + sizes[k] + j {
      Contiguous(starts[k], sizes[k], j);
    }
  }

  /** Pointer block j of file k, once the pointers of n > k files are written. */
  lemma {:induction false} PointerStays(starts: seq<nat>, sizes: seq<nat>, disk: Disk, n: nat, k: nat, j: nat)
    requires k < n <= |sizes| && Fits(starts, sizes) && j < |Ind(starts, sizes, k)|
    ensures HoldsOne(AllPointed(starts, sizes, disk, n), Ind(starts, sizes, k)[j])
  {
    hide Ind, End, PointerBlock, Pointed;
    IndAt(starts, sizes, n - 1);
    IndAt(starts, sizes, k);
    var ind, base := Ind(starts, sizes, n - 1), starts[n - 1] + sizes[n - 1];
    var b := Ind(starts, sizes, k)[j].blk;
    PointedAt(AllPointed(starts, sizes, disk, n - 1), ind, |ind|, base, b);
    if k < n - 1 {
      PointerStays(starts, sizes, disk, n - 1, k, j);
      InOrder(starts, sizes, k, n - 1);
    }
  }

  /** Writing data does not touch pointer blocks, and puts every block of every file in its place. */
  lemma {:induction false} DataStays(starts: seq<nat>, sizes: seq<nat>, disk: Disk, content: (nat, nat) -> Block,
                                     n: nat, k: nat, b: nat)
    requires k < |sizes| && n <= |sizes| && Fits(starts, sizes) && starts[k] <= b < End(starts, sizes, k)
    ensures var after := AllFilled(starts, sizes, disk, content, n);
            var s := starts[k];
            if b < s + sizes[k] && k < n then b in after && after[b] == content(k, b - s) else SameAt(disk, after, b)
  {
    hide End, Filled, Ind;
    if n > 0 {
      DataStays(starts, sizes, disk, content, n - 1, k, b);
      var m := n - 1;
      FilledAt(AllFilled(starts, sizes, disk, content, m), starts[m], sizes[m], i => content(m, i), b);
      if k < m {
        InOrder(starts, sizes, k, m);
      } else if m < k {
        InOrder(starts, sizes, m, k);
      }
    }
  }

  /** An image is built if and only if no payload is empty, and then every file reads back, block by
      block: the kernel finds block i of file k exactly for i below its length, and there finds the
      content the builder wrote. */
  lemma ImageReadsBack(starts: seq<nat>, sizes: seq<nat>, disk: Disk, content: (nat, nat) -> Block, k: nat, i: nat)
    requires Fits(starts, sizes) && k < |sizes|
    ensures Build(starts, sizes, disk, content).Some? <==> 0 !in sizes
    ensures 0 !in sizes ==>
              var img := Build(starts, sizes, disk, content).value;
              var b := BlockAt(Pointers(starts[k], sizes[k]), img, i);
              if i < sizes[k] then b == Some(starts[k] + i) && b.value in img && img[b.value] == content(k, i)
              else b == None
  {
    hide Build, BlockAt, Pointers, AllFilled, AllPointed;
    BuildIs(starts, sizes, disk, content);
    AllRead(starts, sizes, disk, content, k, i);
  }

  lemma BuildIs(starts: seq<nat>, sizes: seq<nat>, disk: Disk, content: (nat, nat) -> Block)
    requires Fits(starts, sizes)
    ensures Build(starts, sizes, disk, content) ==
            if 0 in sizes then None
            else Some(AllFilled(starts, sizes, AllPointed(starts, sizes, disk, |sizes|), content, |sizes|))
  {
    hide AllFilled, AllPointed, WriteData;
    WrittenIff(starts, sizes, AllPointed(starts, sizes, disk, |sizes|), content, |sizes|);
    assert sizes[..|sizes|] == sizes;
  }

  lemma AllRead(starts: seq<nat>, sizes: seq<nat>, disk: Disk, content: (nat, nat) -> Block, k: nat, i: nat)
    requires Fits(starts, sizes) && k < |sizes|
    ensures var img := AllFilled(starts, sizes, AllPointed(starts, sizes, disk, |sizes|), content, |sizes|);
            var b := BlockAt(Pointers(starts[k], sizes[k]), img, i);
            if i < sizes[k] then b == Some(starts[k] + i) && b.value in img && img[b.value] == content(k, i)
            else b == None
  {
    hide End, Ind, AllPointed, AllFilled, Pointers, BlockAt, HoldsOne;
    var s, ind := starts[k], Ind(starts, sizes, k);
    var ptrs := AllPointed(starts, sizes, disk, |sizes|);
    var img := AllFilled(starts, sizes, ptrs, content, |sizes|);
    IndAt(starts, sizes, k);
    forall j | 0 <= j < |ind| ensures HoldsOne(img, ind[j]) {
      PointerStays(starts, sizes, disk, |sizes|, k, j);
      DataStays(starts, sizes, ptrs, content, |sizes|, k, ind[j].blk);
      HoldsSame(ptrs, img, ind[j]);
    }
    PlaceIs(starts, sizes, k);
    ReadsBack(s, sizes[k], img, i);
    if i < sizes[k] {
      DataStays(starts, sizes, ptrs, content, |sizes|, k, s + i);
    }
  }

  lemma HoldsSame(a: Disk, c: Disk, i: Indirect)
    requires DataOk(i) && HoldsOne(a, i) && SameAt(a, c, i.blk)
    ensures HoldsOne(c, i)
  {
  }

  lemma PlaceIs(starts: seq<nat>, sizes: seq<nat>, k: nat)
    requires k < |sizes| && Fits(starts, sizes)
    ensures Ind(starts, sizes, k) == Place(starts[k], sizes[k]).indirect
    ensures 0 < starts[k] && Place(starts[k], sizes[k]).next <= U32
  {
  }
}
