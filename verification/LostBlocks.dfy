/** Which file blocks a call for a block unmaps when it loses a split, by the tree and the free blocks before it
    (kernel/fs/ext4.c:1564-1581). */
module LostBlocks {
  import opened Words
  import opened ExtentTree
  import opened FailedInsert
  import opened LostRange
  import opened Ownership
  import A = Allocator

  type Geo = A.Geo

  /** The first of them. */
  function LostFrom(geo: Geo, fs: Fs, i: nat, f: nat): nat
    requires A.GeoOk(geo) && A.Inv(geo, fs.vol) && i < |fs.files| && |Pool(geo, fs.vol, 0)| >= 2
  {
    var t, pool := fs.files[i], Pool(geo, fs.vol, 0);
    LostKey(t, Depth(t), f, |pool| - 1)
  }

  /** The first behind them. */
  function LostTo(geo: Geo, fs: Fs, i: nat, f: nat): nat
    requires A.GeoOk(geo) && A.Inv(geo, fs.vol) && i < |fs.files| && |Pool(geo, fs.vol, 0)| >= 2
  {
    PathUp(fs.files[i], Depth(fs.files[i]), f, |Pool(geo, fs.vol, 0)| - 2, U32 - 1)
  }

  /** Every block between is unmapped, every other one is mapped as before; the new data block is mapped nowhere. */
  lemma EnsureUnmaps(geo: Geo, cap: nat, fs: Fs, i: nat, f: nat, g: nat)
    requires Own(geo, cap, fs) && i < |fs.files| && f < U32 - 1 && 5 <= cap && HasDepth(fs.files[i], Depth(fs.files[i]))
    requires Loses(geo, cap, fs, i, f) && !Hazard(geo, cap, fs, i, f)
    ensures |Pool(geo, fs.vol, 0)| >= 2 && |Ensure(geo, cap, fs, i, f).0.files| == |fs.files|
    ensures Lookup(Ensure(geo, cap, fs, i, f).0.files[i], g) ==
            if LostFrom(geo, fs, i, f) <= g < LostTo(geo, fs, i, f) then None else Lookup(fs.files[i], g)
  {
    hide InsRoot, RootFull, Pool, Ensure, A.Alloc, A.GroupOk, A.Sum, A.Shape, A.Free, A.Used, A.Give, A.GeoOk, Lookup,
         RootWf, HasDepth, StaysLeft, OwnedOnce, LostKey, PathUp, AllocMany, Total;
    var t, pool := fs.files[i], Pool(geo, fs.vol, 0);
    EnsureLost(geo, cap, fs, i, f);
    FirstBlock(geo, fs.vol);
    LostLookups(t, f, pool[0], cap, pool[1..], g);
    if g == f {
      NotFound(geo, cap, fs, i, f);
    }
  }

  /** The new data block is not found: it is free again. */
  lemma NotFound(geo: Geo, cap: nat, fs: Fs, i: nat, f: nat)
    requires Own(geo, cap, fs) && i < |fs.files| && f < U32 - 1 && 5 <= cap && HasDepth(fs.files[i], Depth(fs.files[i]))
    requires Loses(geo, cap, fs, i, f) && !Hazard(geo, cap, fs, i, f)
    ensures |Pool(geo, fs.vol, 0)| >= 2 && |Ensure(geo, cap, fs, i, f).0.files| == |fs.files|
    ensures Lookup(Ensure(geo, cap, fs, i, f).0.files[i], f) != Some(Pool(geo, fs.vol, 0)[0])
  {
    hide InsRoot, RootFull, Ensure, A.Alloc, A.GroupOk, A.Sum, A.Shape, A.Free, A.Used, A.Give, A.GeoOk, Lookup, Pool,
         RootWf, HasDepth, StaysLeft, OwnedOnce, AllocMany, Total;
    var fs', b := Ensure(geo, cap, fs, i, f).0, Pool(geo, fs.vol, 0)[0];
    EnsureLost(geo, cap, fs, i, f);
    LossDrains(geo, cap, fs, i, f);
    EnsureKeepsOwnIff(geo, cap, fs, i, f);
    FreeHead(geo, fs.vol);
    if Lookup(fs'.files[i], f) == Some(b) {
      NoSharing(geo, cap, fs', i, f, i, f, b);
    }
  }

  lemma FreeHead(geo: Geo, v: A.Vol)
    requires A.GeoOk(geo) && A.Inv(geo, v) && |Pool(geo, v, 0)| > 0
    ensures var pool := Pool(geo, v, 0);
            !A.Used(geo, v, pool[0]) && pool[0] !in pool[1..]
  {
    hide Pool, A.GroupOk, A.Sum;
    var pool := Pool(geo, v, 0);
    assert A.Free(geo, v, pool[0]);
    forall k | 0 <= k < |pool[1..]| ensures pool[1..][k] != pool[0] {
      assert pool[0] < pool[k + 1];
    }
  }
}
