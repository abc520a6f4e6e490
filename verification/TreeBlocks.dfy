/** Which blocks `ext4_truncate_inode` frees and which `ext_inode_blocks` counts. Both hand one page
    buffer down the recursion: when a call returns, the loop of its caller goes on in the buffer the
    call has overwritten, so below the root only the first child of a node is visited
    (kernel/fs/ext4.c:1326-1418, 1637-1677). */
module TreeBlocks {
  import opened Words
  import opened Extents
  import opened ExtentTree
  import opened ExtentBlocks

  /** The blocks of an extent, in order. */
  function SlotBlocks(s: Slot): seq<nat> { seq(Len(s), k => s.addr + k) }

  function DataBlocks(es: seq<Slot>): seq<nat> {
    if es == [] then [] else DataBlocks(es[..|es| - 1]) + SlotBlocks(es[|es| - 1])
  }

  /** The blocks `ext_free_tree` frees for the node in block blk, in order. */
  function FreedNode(t: Tree, blk: nat): seq<nat>
    decreases t
  {
    match t
    case Leaf(es) => DataBlocks(es) + [blk]
    case Branch(kids) => (if kids == [] then [] else FreedNode(kids[0].sub, kids[0].slot.addr)) + [blk]
  }

  function FreedKids(kids: seq<Kid>): seq<nat> {
    if kids == [] then []
    else FreedKids(kids[..|kids| - 1]) + FreedNode(kids[|kids| - 1].sub, kids[|kids| - 1].slot.addr)
  }

  /** The blocks `ext4_truncate_inode` frees, in order. */
  function Freed(t: Tree): seq<nat> {
    match t
    case Leaf(es) => DataBlocks(es)
    case Branch(kids) => FreedKids(kids)
  }

  /** Every index node from here on down has one child. */
  predicate Spine(t: Tree)
    decreases t
  {
    match t
    case Leaf(_) => true
    case Branch(kids) => |kids| == 1 && Spine(kids[0].sub)
  }

  /** No index node below the root has a second child. */
  predicate AllSpines(t: Tree) {
    t.Branch? ==> forall k | k in t.kids :: Spine(k.sub)
  }

  // ----- counting

  function Occurs(bs: seq<nat>, b: nat): nat {
    if bs == [] then 0 else Occurs(bs[..|bs| - 1], b) + One(bs[|bs| - 1] == b)
  }

  lemma {:induction false} OccursConcat(x: seq<nat>, y: seq<nat>, b: nat)
    ensures Occurs(x + y, b) == Occurs(x, b) + Occurs(y, b)
  {
    if y == [] {
      assert x + y == x;
    } else {
      var n := |y| - 1;
      assert (x + y)[..|x + y| - 1] == x + y[..n];
      OccursConcat(x, y[..n], b);
    }
  }

  lemma {:induction false} OccursRun(a: nat, n: nat, b: nat)
    ensures Occurs(seq(n, k => a + k), b) == One(a <= b < a + n)
  {
    if n > 0 {
      assert seq(n, k => a + k)[..n - 1] == seq(n - 1, k => a + k);
      OccursRun(a, n - 1, b);
    }
  }

  lemma {:induction false} OccursIn(bs: seq<nat>, b: nat)
    ensures b in bs <==> Occurs(bs, b) > 0
  {
    if bs != [] {
      OccursIn(bs[..|bs| - 1], b);
      assert bs == bs[..|bs| - 1] + [bs[|bs| - 1]];
    }
  }

  lemma {:induction false} DataBlocksUses(es: seq<Slot>, b: nat)
    ensures Occurs(DataBlocks(es), b) == DataUses(es, b)
  {
    if es != [] {
      var n := |es| - 1;
      DataBlocksUses(es[..n], b);
      OccursConcat(DataBlocks(es[..n]), SlotBlocks(es[n]), b);
      OccursRun(es[n].addr, Len(es[n]), b);
      assert es == es[..n] + [es[n]];
      DataConcat(es[..n], [es[n]], b);
      DataOne(es[n], b);
    }
  }

  /** The node's data and blocks are freed at most as often as used, and all of them exactly when
      there is no second child below. */
  lemma {:induction false} NodeFreed(t: Tree, blk: nat, b: nat)
    ensures Occurs(FreedNode(t, blk), b) <= Uses(t, b) + One(b == blk)
    ensures Spine(t) ==> Occurs(FreedNode(t, blk), b) == Uses(t, b) + One(b == blk)
    decreases t
  {
    hide Occurs, DataUses, KidsUses;
    match t
    case Leaf(es) =>
      OccursConcat(DataBlocks(es), [blk], b);
      OccursOne(blk, b);
      DataBlocksUses(es, b);
    case Branch(kids) =>
      BranchList(kids, b);
      OccursOne(blk, b);
      if kids == [] {
        assert FreedNode(t, blk) == [blk];
      } else {
        NodeFreed(kids[0].sub, kids[0].slot.addr, b);
        OccursConcat(FreedNode(kids[0].sub, kids[0].slot.addr), [blk], b);
        FirstAndRest(kids, b);
      }
  }

  lemma OccursOne(x: nat, b: nat)
    ensures Occurs([x], b) == One(x == b)
  {
    assert [x][..0] == [];
  }

  lemma BranchList(kids: seq<Kid>, b: nat)
    ensures Uses(Branch(kids), b) == ListUses(kids, b)
  {
  }

  lemma FirstAndRest(kids: seq<Kid>, b: nat)
    requires kids != []
    ensures ListUses(kids, b) == One(kids[0].slot.addr == b) + Uses(kids[0].sub, b) + ListUses(kids[1..], b)
    ensures |kids| == 1 ==> ListUses(kids[1..], b) == 0
    ensures |kids| > 1 ==> ListUses(kids[1..], b) >= One(kids[1].slot.addr == b)
  {
    hide Uses, ListUses;
    assert kids == [kids[0]] + kids[1..];
    ListConcat([kids[0]], kids[1..], b);
    ListOne(kids[0], b);
    if |kids| == 1 {
      assert kids[1..] == [];
      NoKids(b);
    } else {
      assert kids[1..] == [kids[1]] + kids[2..];
      ListConcat([kids[1]], kids[2..], b);
      ListOne(kids[1], b);
    }
  }

  lemma NoKids(b: nat)
    ensures ListUses([], b) == 0
  {
    assert KidsEnts([]) == [];
  }

  /** A node that is not a spine keeps some block of its subtree in use. */
  lemma {:induction false} NodeLeaks(t: Tree, blk: nat) returns (b: nat)
    requires !Spine(t) && NoEmpty(t)
    ensures Occurs(FreedNode(t, blk), b) < Uses(t, b) + One(b == blk)
    decreases t
  {
    hide Occurs, DataUses, KidsUses;
    var kids := t.kids;
    var k := kids[0];
    if |kids| == 1 {
      b := NodeLeaks(k.sub, k.slot.addr);
    } else {
      b := kids[1].slot.addr;
    }
    NodeFreed(k.sub, k.slot.addr, b);
    OccursConcat(FreedNode(k.sub, k.slot.addr), [blk], b);
    OccursOne(blk, b);
    FirstAndRest(kids, b);
    BranchList(kids, b);
  }

  predicate NoEmpty(t: Tree)
    decreases t
  {
    t.Branch? ==> t.kids != [] && NoEmpty(t.kids[0].sub)
  }

  lemma {:induction false} WfNoEmpty(t: Tree, d: nat, lo: nat, hi: nat, top: nat, cap: nat)
    requires Wf(t, d, lo, hi, top, cap)
    ensures NoEmpty(t)
    decreases t
  {
    if t.Branch? {
      KidsWfSplit(t.kids, 0, d - 1, lo, hi, cap);
      WfNoEmpty(t.kids[0].sub, d - 1, Key(t.kids[0]), Up(t.kids, 1, hi), cap, cap);
    }
  }

  lemma {:induction false} KidsFreed(kids: seq<Kid>, b: nat)
    ensures Occurs(FreedKids(kids), b) <= ListUses(kids, b)
    ensures (forall k | k in kids :: Spine(k.sub)) ==> Occurs(FreedKids(kids), b) == ListUses(kids, b)
  {
    hide Occurs, ListUses, Uses, FreedNode;
    if kids == [] {
      NoKids(b);
      NoBlocks(b);
    } else {
      var n := |kids| - 1;
      var k := kids[n];
      KidsFreed(kids[..n], b);
      NodeFreed(k.sub, k.slot.addr, b);
      OccursConcat(FreedKids(kids[..n]), FreedNode(k.sub, k.slot.addr), b);
      assert kids == kids[..n] + [k];
      ListConcat(kids[..n], [k], b);
      ListOne(k, b);
    }
  }

  lemma NoBlocks(b: nat)
    ensures Occurs([], b) == 0
  {
  }

  lemma {:induction false} KidsLeak(kids: seq<Kid>) returns (b: nat)
    requires (forall k | k in kids :: NoEmpty(k.sub)) && exists k | k in kids :: !Spine(k.sub)
    ensures Occurs(FreedKids(kids), b) < ListUses(kids, b)
  {
    hide Occurs, ListUses, Uses, FreedNode, NoEmpty, Spine;
    var n := |kids| - 1;
    var k := kids[n];
    assert kids == kids[..n] + [k];
    if !Spine(k.sub) {
      b := NodeLeaks(k.sub, k.slot.addr);
      KidsFreed(kids[..n], b);
    } else {
      b := KidsLeak(kids[..n]);
      NodeFreed(k.sub, k.slot.addr, b);
    }
    OccursConcat(FreedKids(kids[..n]), FreedNode(k.sub, k.slot.addr), b);
    ListConcat(kids[..n], [k], b);
    ListOne(k, b);
  }

  /** Truncation frees no block more often than the file uses it. */
  lemma FreedAtMost(t: Tree, b: nat)
    ensures Occurs(Freed(t), b) <= Uses(t, b)
  {
    hide Occurs, DataUses;
    match t
    case Leaf(es) => DataBlocksUses(es, b);
    case Branch(kids) =>
      KidsFreed(kids, b);
      BranchList(kids, b);
  }

  /** It frees every block as often as the file uses it if and only if no index node below the root
      has a second child. */
  lemma FreesAllIff(t: Tree, cap: nat)
    requires RootWf(t, cap)
    ensures (forall b :: Occurs(Freed(t), b) == Uses(t, b)) <==> AllSpines(t)
  {
    hide Occurs, DataUses, KidsUses, Spine, FreedKids;
    match t
    case Leaf(es) =>
      forall b ensures Occurs(Freed(t), b) == Uses(t, b) {
        DataBlocksUses(es, b);
      }
    case Branch(kids) =>
      forall b ensures Uses(t, b) == ListUses(kids, b) {
        BranchList(kids, b);
      }
      if AllSpines(t) {
        forall b ensures Occurs(Freed(t), b) == Uses(t, b) {
          KidsFreed(kids, b);
        }
      } else {
        KidsNoEmpty(t, cap);
        var b := KidsLeak(kids);
        assert Occurs(Freed(t), b) != Uses(t, b);
      }
  }

  lemma KidsNoEmpty(t: Tree, cap: nat)
    requires RootWf(t, cap) && t.Branch?
    ensures forall k | k in t.kids :: NoEmpty(k.sub)
  {
    hide NoEmpty;
    forall k | k in t.kids ensures NoEmpty(k.sub) {
      var i :| 0 <= i < |t.kids| && t.kids[i] == k;
      KidsWfSplit(t.kids, i, Depth(t) - 1, 0, U32 - 1, cap);
      WfNoEmpty(k.sub, Depth(t) - 1, Key(k), Up(t.kids, i + 1, U32 - 1), cap, cap);
    }
  }

  // ----- the recorded size

  function DataTotal(es: seq<Slot>): nat {
    if es == [] then 0 else DataTotal(es[..|es| - 1]) + Len(es[|es| - 1])
  }

  /** What `ext_count` adds for one node: the data below, and the index entries. */
  function NodeData(t: Tree): nat
    decreases t
  {
    match t
    case Leaf(es) => DataTotal(es)
    case Branch(kids) => if kids == [] then 0 else NodeData(kids[0].sub)
  }

  function NodeIndex(t: Tree): nat
    decreases t
  {
    match t
    case Leaf(_) => 0
    case Branch(kids) => if kids == [] then 0 else |kids| + NodeIndex(kids[0].sub)
  }

  function KidsData(kids: seq<Kid>): nat {
    if kids == [] then 0 else KidsData(kids[..|kids| - 1]) + NodeData(kids[|kids| - 1].sub)
  }

  function KidsIndex(kids: seq<Kid>): nat {
    if kids == [] then 0 else KidsIndex(kids[..|kids| - 1]) + NodeIndex(kids[|kids| - 1].sub)
  }

  /** `ext_inode_blocks`: the data blocks and the index entries it finds. */
  function DataSeen(t: Tree): nat { if t.Leaf? then DataTotal(t.ents) else KidsData(t.kids) }

  function IndexSeen(t: Tree): nat { if t.Leaf? then 0 else |t.kids| + KidsIndex(t.kids) }

  lemma {:induction false} DataBlocksLength(es: seq<Slot>)
    ensures |DataBlocks(es)| == DataTotal(es)
  {
    if es != [] {
      DataBlocksLength(es[..|es| - 1]);
    }
  }

  lemma {:induction false} NodeLength(t: Tree, blk: nat)
    requires NoEmpty(t)
    ensures |FreedNode(t, blk)| <= NodeData(t) + NodeIndex(t) + 1
    ensures |FreedNode(t, blk)| == NodeData(t) + NodeIndex(t) + 1 <==> Spine(t)
    decreases t
  {
    match t
    case Leaf(es) => DataBlocksLength(es);
    case Branch(kids) => NodeLength(kids[0].sub, kids[0].slot.addr);
  }

  lemma {:induction false} KidsLength(kids: seq<Kid>)
    requires forall k | k in kids :: NoEmpty(k.sub)
    ensures |FreedKids(kids)| <= KidsData(kids) + KidsIndex(kids) + |kids|
    ensures |FreedKids(kids)| == KidsData(kids) + KidsIndex(kids) + |kids| <==> forall k | k in kids :: Spine(k.sub)
  {
    hide NoEmpty, Spine, FreedNode, NodeData, NodeIndex;
    if kids != [] {
      var n := |kids| - 1;
      assert kids == kids[..n] + [kids[n]];
      KidsLength(kids[..n]);
      NodeLength(kids[n].sub, kids[n].slot.addr);
    }
  }

  /** The total recorded in `i_blocks` is the number of blocks truncation frees if and only if no
      index node below the root has a second child; it is never less. */
  lemma RecordedIff(t: Tree, cap: nat)
    requires RootWf(t, cap)
    ensures |Freed(t)| <= DataSeen(t) + IndexSeen(t)
    ensures |Freed(t)| == DataSeen(t) + IndexSeen(t) <==> AllSpines(t)
  {
    hide Spine;
    match t
    case Leaf(es) => DataBlocksLength(es);
    case Branch(kids) =>
      KidsNoEmpty(t, cap);
      KidsLength(kids);
  }

  // ----- what is read in the buffer

  /** The block number an extent gives when it is read as an index entry. */
  function Misread(s: Slot): nat { BitOr(s.len + s.addr / U16 * U16, s.addr % U16 * U16) }

  /** The first leaf below. */
  function FirstLeaf(t: Tree): seq<Slot>
    decreases t
  {
    match t
    case Leaf(es) => es
    case Branch(kids) => if kids == [] then [] else FirstLeaf(kids[0].sub)
  }

  /** Going on in the buffer below an index node leads to a block of the volume: the second extent of
      the first leaf, read as an index entry, is one. */
  predicate Strays(t: Tree, total: nat) {
    t.Branch? && exists k | k in t.kids ::
      k.sub.Branch? && |FirstLeaf(k.sub)| > 1 && Misread(FirstLeaf(k.sub)[1]) < total
  }

  /** A bitwise or is at least each operand. */
  lemma {:induction false} OrAtLeast(a: nat, b: nat)
    ensures a <= BitOr(a, b) && b <= BitOr(a, b)
  {
    if a > 0 || b > 0 {
      OrAtLeast(a / 2, b / 2);
    }
  }

  /** Low bits that only one operand has stay out of the "or". */
  lemma {:induction false} OrParts(a: nat, x: nat, y: nat, k: nat)
    requires a < Pow2(k)
    ensures BitOr(a + x * Pow2(k), y * Pow2(k)) == a + BitOr(x, y) * Pow2(k)
  {
    hide BitOr, Pow2;
    if k == 0 {
      assert Pow2(0) == 1 by { PowStep(0, 0); }
    } else {
      var p := Pow2(k - 1);
      PowStep(x, k);
      PowStep(y, k);
      PowStep(BitOr(x, y), k);
      PowStep(1, k);
      OrParts(a / 2, x, y, k - 1);
      OrStep(a + 2 * (x * p), 2 * (y * p));
      assert (a + 2 * (x * p)) / 2 == a / 2 + x * p && (a + 2 * (x * p)) % 2 == a % 2;
    }
  }

  lemma PowStep(x: nat, k: nat)
    ensures k == 0 ==> Pow2(k) == 1
    ensures k > 0 ==> x * Pow2(k) == 2 * (x * Pow2(k - 1))
  {
  }

  /** The block number in closed form: the length, and the two halves of the address put together. */
  lemma MisreadForm(s: Slot)
    requires s.len < U16
    ensures Misread(s) == s.len + U16 * BitOr(s.addr / U16, s.addr % U16)
  {
    hide BitOr;
    Pow2Is16();
    OrParts(s.len, s.addr / U16, s.addr % U16, 16);
  }

  lemma Pow2Is16()
    ensures Pow2(16) == U16
  {
    assert Pow2(8) == 256;
    assert Pow2(12) == 4096;
  }

  lemma MisreadFar(s: Slot)
    requires s.addr > 0
    ensures Misread(s) >= U16
  {
    hide BitOr;
    OrAtLeast(s.len + s.addr / U16 * U16, s.addr % U16 * U16);
  }

  /** Up to 131072 blocks, only extents that start in three blocks can lead to a block of the volume. */
  lemma MisreadNear(s: Slot, total: nat)
    requires 0 < s.addr && s.len < U16 && total <= 2 * U16
    ensures Misread(s) < total <==> s.addr in {1, U16, U16 + 1} && U16 + s.len < total
    ensures Misread(s) < total ==> Misread(s) == U16 + s.len
  {
    hide BitOr;
    var hi, lo := s.addr / U16, s.addr % U16;
    MisreadForm(s);
    OrAtLeast(hi, lo);
    OrOnes();
    if BitOr(hi, lo) >= 2 {
      assert U16 * BitOr(hi, lo) >= 2 * U16;
    }
  }

  lemma OrOnes()
    ensures BitOr(0, 1) == BitOr(1, 0) == BitOr(1, 1) == 1
  {
  }

  lemma {:induction false} FirstLeafWf(t: Tree, d: nat, lo: nat, hi: nat, top: nat, cap: nat)
    requires Wf(t, d, lo, hi, top, cap)
    ensures |FirstLeaf(t)| > 1 ==> FirstLeaf(t)[1].addr > 0 && FirstLeaf(t)[1].len < U16
    decreases t
  {
    match t
    case Leaf(es) =>
      if |es| > 1 {
        assert SortedIn(es[1..], es[0].key + Len(es[0]), hi) && es[1..][0] == es[1];
      }
    case Branch(kids) =>
      KidsWfSplit(t.kids, 0, d - 1, lo, hi, cap);
      FirstLeafWf(t.kids[0].sub, d - 1, Key(t.kids[0]), Up(t.kids, 1, hi), cap, cap);
  }

  /** No tree strays on a volume of at most 65536 blocks. */
  lemma SmallVolume(t: Tree, cap: nat, total: nat)
    requires RootWf(t, cap) && total <= U16
    ensures !Strays(t, total)
  {
    hide Misread, FirstLeaf;
    if t.Branch? {
      forall k | k in t.kids && |FirstLeaf(k.sub)| > 1 ensures Misread(FirstLeaf(k.sub)[1]) >= total {
        var i :| 0 <= i < |t.kids| && t.kids[i] == k;
        KidsWfSplit(t.kids, i, Depth(t) - 1, 0, U32 - 1, cap);
        FirstLeafWf(k.sub, Depth(t) - 1, Key(k), Up(t.kids, i + 1, U32 - 1), cap, cap);
        MisreadFar(FirstLeaf(k.sub)[1]);
      }
    }
  }

  /** And on one of at most 131072 blocks, a tree strays if and only if below some index node under the
      root the second extent of the first leaf starts in one of these blocks and is short enough. */
  lemma StraysIff(t: Tree, cap: nat, total: nat)
    requires RootWf(t, cap) && total <= 2 * U16
    ensures Strays(t, total) <==>
            t.Branch? && exists k | k in t.kids ::
              && k.sub.Branch? && |FirstLeaf(k.sub)| > 1
              && FirstLeaf(k.sub)[1].addr in {1, U16, U16 + 1} && U16 + FirstLeaf(k.sub)[1].len < total
  {
    hide Misread, FirstLeaf;
    if t.Branch? {
      forall k | k in t.kids && |FirstLeaf(k.sub)| > 1
        ensures Misread(FirstLeaf(k.sub)[1]) < total <==>
                FirstLeaf(k.sub)[1].addr in {1, U16, U16 + 1} && U16 + FirstLeaf(k.sub)[1].len < total
      {
        var i :| 0 <= i < |t.kids| && t.kids[i] == k;
        KidsWfSplit(t.kids, i, Depth(t) - 1, 0, U32 - 1, cap);
        FirstLeafWf(k.sub, Depth(t) - 1, Key(k), Up(t.kids, i + 1, U32 - 1), cap, cap);
        MisreadNear(FirstLeaf(k.sub)[1], total);
      }
    }
  }
}
