/** A volume on which writing one block goes wrong: the root has four leaves, the first of them full,
    and two blocks are free. The data block and the new leaf take both, the root cannot grow, and the
    driver keeps the left half of the leaf with the data block in it, which it then frees. */
module LostSplit {
  import opened Words
  import opened Bits
  import opened Extents
  import opened ExtentTree
  import opened ExtentBlocks
  import opened ExtentFailure
  import opened FailedInsert
  import opened Ownership
  import A = Allocator

  /** Extents i to n - 1 of the full leaf: every other file block, on consecutive disk blocks. */
  function Row(i: nat, n: nat): seq<Slot>
    decreases n - i
  {
    if i >= n then [] else [Slot(2 * i, 1, 1 + i)] + Row(i + 1, n)
  }

  function OneLeaf(key: nat, addr: nat, node: nat): Kid {
    Kid(NewIndex(key, node), Leaf([Slot(key, 1, addr)]))
  }

  function FullKids(cap: nat): seq<Kid> {
    [Kid(NewIndex(0, cap + 4), Leaf(Row(0, cap))),
     OneLeaf(1000, cap + 1, cap + 5), OneLeaf(2000, cap + 2, cap + 6), OneLeaf(3000, cap + 3, cap + 7)]
  }

  /** Data in blocks 1 to cap + 3, nodes in the next four. */
  function FullTree(cap: nat): Tree { Branch(FullKids(cap)) }

  lemma {:induction false} RowIs(i: nat, n: nat, hi: nat, b: nat)
    requires i <= n && 2 * n <= hi < U32
    ensures |Row(i, n)| == n - i && forall k | 0 <= k < n - i :: Row(i, n)[k] == Slot(2 * (i + k), 1, 1 + i + k)
    ensures SortedIn(Row(i, n), 2 * i, hi) && Find(Row(i, n), 1) == None
    ensures DataUses(Row(i, n), b) == One(1 + i <= b < 1 + n)
    decreases n - i
  {
    if i < n {
      RowIs(i + 1, n, hi, b);
      assert Row(i, n)[1..] == Row(i + 1, n);
      LowerSorted(Row(i + 1, n), 2 * i + 1, 2 * (i + 1), hi);
    }
  }

  lemma OneLeafWf(key: nat, addr: nat, node: nat, lo: nat, up: nat, cap: nat)
    requires lo <= key < up < U32 && 0 < addr < U32 - 1 && cap >= 1
    ensures KidWf(OneLeaf(key, addr, node), 0, lo, up, cap)
  {
    var s := Slot(key, 1, addr);
    assert [s][1..] == [] && SortedIn([], key + 1, up);
    assert SlotWf(s) && SortedIn([s], key, up);
  }

  lemma TreeWf(cap: nat)
    requires 5 <= cap <= 340
    ensures RootWf(FullTree(cap), cap) && Depth(FullTree(cap)) == 1 && HasDepth(FullTree(cap), 1)
  {
    var kids := FullKids(cap);
    RowIs(0, cap, 1000, 0);
    assert KidWf(kids[0], 0, 0, 1000, cap);
    OneLeafWf(1000, cap + 1, cap + 5, 1000, 2000, cap);
    OneLeafWf(2000, cap + 2, cap + 6, 2000, 3000, cap);
    OneLeafWf(3000, cap + 3, cap + 7, 3000, U32 - 1, cap);
    OneKid(kids[3], 0, 3000, U32 - 1, cap);
    assert kids[1..] == [kids[1], kids[2], kids[3]] && kids[1..][1..] == [kids[2], kids[3]]
           && [kids[2], kids[3]][1..] == [kids[3]];
    assert KidsWf([kids[2], kids[3]], 0, 2000, U32 - 1, cap);
    assert KidsWf(kids[1..], 0, 1000, U32 - 1, cap);
    assert KidsWf(kids, 0, 0, U32 - 1, cap);
    RootDepth(FullTree(cap), cap);
  }

  lemma TreeUses(cap: nat, b: nat)
    requires 5 <= cap <= 340
    ensures Uses(FullTree(cap), b) == One(1 <= b <= cap + 7)
  {
    hide Row, DataUses, ListUses;
    var kids := FullKids(cap);
    RowIs(0, cap, 1000, b);
    assert kids == [kids[0], kids[1]] + [kids[2], kids[3]];
    ListConcat([kids[0], kids[1]], [kids[2], kids[3]], b);
    ListTwo(kids[0], kids[1], b);
    ListTwo(kids[2], kids[3], b);
    BranchUses(kids, b);
    DataOne(Slot(1000, 1, cap + 1), b);
    DataOne(Slot(2000, 1, cap + 2), b);
    DataOne(Slot(3000, 1, cap + 3), b);
  }

  /** No extent of the full leaf ends before file block 1 and disk block cap + 8, or begins behind them. */
  lemma RowApart(cap: nat)
    requires 5 <= cap <= 340
    ensures NeedsEntry(Row(0, cap), 1, cap + 8)
  {
    hide Row;
    RowIs(0, cap, 1000, 0);
    forall s | s in Row(0, cap) ensures !(s.key <= 1 < s.key + Len(s)) && !Extends(s, 1, cap + 8) {
      var k :| 0 <= k < cap && Row(0, cap)[k] == s;
    }
  }

  /** File block 1 belongs in the full leaf, second from the left. */
  lemma TreeFull(cap: nat)
    requires 5 <= cap <= 340
    ensures var t, p := FullTree(cap), cap + 8;
            Lookup(t, 1) == None && RootFull(t, 1, p, cap, 1) && StaysLeft(t, 1, 1, 1)
  {
    hide Row, NeedsEntry, Find;
    var es, kids := Row(0, cap), FullKids(cap);
    TreeWf(cap);
    RowIs(0, cap, 1000, 0);
    RowApart(cap);
    assert es[0] == Slot(0, 1, 1) && es[1] == Slot(2, 1, 2);
    assert Pos(es, 1) == 1;
    assert Route(kids, 1) == 0;
    assert PathNode(FullTree(cap), 1, 1, 0) == Leaf(es);
  }

  /** The failing case of an insertion with blocks left does occur, and loses mapped blocks. */
  lemma FailureLoses(cap: nat)
    requires 5 <= cap <= 340
    ensures var t := FullTree(cap);
            && RootWf(t, cap) && HasDepth(t, Depth(t)) && Lookup(t, 1) == None
            && InsRoot(t, 1, cap + 8, cap, [cap + 9]).Fail?
            && exists g: nat :: Lookup(InsRoot(t, 1, cap + 8, cap, [cap + 9]).t, g) != Lookup(t, g)
  {
    hide FullTree, InsRoot, RootFull, StaysLeft, RootWf, HasDepth, Lookup;
    TreeWf(cap);
    TreeFull(cap);
    TreeBranch(cap);
    InsertFailsIff(FullTree(cap), 1, cap + 8, cap, [cap + 9]);
    FailureKeepsMapIff(FullTree(cap), 1, cap + 8, cap, [cap + 9]);
  }

  lemma TreeBranch(cap: nat)
    ensures FullTree(cap).Branch?
  {
  }

  // ----- the volume

  function SmallGeo(cap: nat): Geo { A.Geo(1, cap + 10, 8192, 1024, 32) }

  function FullVol(cap: nat): Vol { A.Formatted(SmallGeo(cap), [seq(cap + 9, i => i < cap + 7)]) }

  function FullFs(cap: nat): Fs { Fs(FullVol(cap), [FullTree(cap)]) }

  lemma VolOk(cap: nat)
    requires 5 <= cap <= 340
    ensures A.GeoOk(SmallGeo(cap)) && A.Inv(SmallGeo(cap), FullVol(cap))
  {
    A.FormattedInv(SmallGeo(cap), [seq(cap + 9, i => i < cap + 7)]);
  }

  lemma VolBits(cap: nat, b: nat)
    requires 5 <= cap <= 340 && A.GeoOk(SmallGeo(cap)) && A.Inv(SmallGeo(cap), FullVol(cap))
    ensures A.Used(SmallGeo(cap), FullVol(cap), b) <==> 1 <= b <= cap + 7
    ensures A.Free(SmallGeo(cap), FullVol(cap), b) <==> cap + 8 <= b < cap + 10
  {
    hide Clear, A.SetCount, A.Count, A.Sum;
    A.SetKeepsFlag(SmallGeo(cap), A.Desc(0, 0, false), Clear(FullVol(cap).bits[0]));
    if 1 <= b < cap + 10 {
      A.BlockPlace(SmallGeo(cap), b);
    }
  }

  lemma {:induction false} VolPool(cap: nat, b: nat)
    requires 5 <= cap <= 340 && A.GeoOk(SmallGeo(cap)) && A.Inv(SmallGeo(cap), FullVol(cap)) && b <= cap + 8
    ensures Pool(SmallGeo(cap), FullVol(cap), b) == [cap + 8, cap + 9]
    decreases cap + 8 - b
  {
    hide A.Free, A.GroupOk, A.Sum, FullVol;
    VolBits(cap, b);
    if b < cap + 8 {
      VolPool(cap, b + 1);
    } else {
      VolBits(cap, b + 1);
      assert Pool(SmallGeo(cap), FullVol(cap), b + 2) == [];
      assert Pool(SmallGeo(cap), FullVol(cap), b + 1) == [b + 1];
    }
  }

  lemma OwnedHere(cap: nat, b: nat)
    requires 5 <= cap <= 340 && A.GeoOk(SmallGeo(cap)) && A.Inv(SmallGeo(cap), FullVol(cap))
    ensures Total([FullTree(cap)], b) == One(1 <= b <= cap + 7) && OwnedOnce(SmallGeo(cap), FullFs(cap), b)
  {
    hide FullTree, FullVol, Uses, A.Used, A.Inv, A.GeoOk;
    TreeUses(cap, b);
    VolBits(cap, b);
    assert [FullTree(cap)][..0] == [] && Total([], b) == 0;
  }

  /** For every node size there is a volume with single ownership that one call takes from it. */
  lemma HazardOccurs(cap: nat)
    requires 5 <= cap <= 340
    ensures var geo, fs := SmallGeo(cap), FullFs(cap);
            && Own(geo, cap, fs) && HasDepth(fs.files[0], Depth(fs.files[0]))
            && Hazard(geo, cap, fs, 0, 1) && !Own(geo, cap, Ensure(geo, cap, fs, 0, 1).0)
  {
    hide FullTree, FullVol, Uses, Pool, A.Used, A.Free, A.Shape, A.GroupOk, A.Sum, RootFull, StaysLeft, RootWf,
         HasDepth, Lookup, Ensure;
    var geo, fs := SmallGeo(cap), FullFs(cap);
    TreeWf(cap);
    TreeFull(cap);
    TreeBranch(cap);
    VolOk(cap);
    VolPool(cap, 0);
    forall b ensures OwnedOnce(geo, fs, b) {
      OwnedHere(cap, b);
    }
    OwnedHere(cap, 0);
    EnsureKeepsOwnIff(geo, cap, fs, 0, 1);
  }
}
