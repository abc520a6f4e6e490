/** Who owns which block: runs of `ext4_ensure_block` and `ext4_truncate_inode` over the
    allocator and any number of inodes (kernel/fs/ext4.c:1326-1418, 1564-1581, 1637-1677). */
module Ownership {
  import opened Words
  import opened Extents
  import opened ExtentTree
  import opened ExtentBlocks
  import opened ExtentFailure
  import opened FailedInsert
  import opened TreeBlocks
  import A = Allocator

  type Geo = A.Geo
  type Vol = A.Vol

  // ----- the allocator as the sequence of its answers

  /** The blocks that successive calls of `ext4_alloc_block` return, from block b on. */
  function Pool(geo: Geo, v: Vol, b: nat): (r: seq<nat>)
    requires A.GeoOk(geo) && A.Shape(geo, v)
    ensures forall i | 0 <= i < |r| :: r[i] >= b && r[i] != 0 && A.Free(geo, v, r[i])
    ensures forall i, j | 0 <= i < j < |r| :: r[i] < r[j]
    decreases geo.total - b
  {
    if b >= geo.total then []
    else if b != 0 && A.Free(geo, v, b) then [b] + Pool(geo, v, b + 1)
    else Pool(geo, v, b + 1)
  }

  lemma {:induction false} PoolStarts(geo: Geo, v: Vol, b: nat)
    requires A.GeoOk(geo) && A.Shape(geo, v)
    ensures A.Lowest(geo, v, b) == if Pool(geo, v, b) == [] then 0 else Pool(geo, v, b)[0]
    decreases geo.total - b
  {
    if b < geo.total && !(b != 0 && A.Free(geo, v, b)) {
      PoolStarts(geo, v, b + 1);
    }
  }

  /** Without block x, the pool is the same but for x. */
  lemma {:induction false} PoolWithout(geo: Geo, v: Vol, w: Vol, x: nat, b: nat)
    requires A.GeoOk(geo) && A.Shape(geo, v) && A.Shape(geo, w)
    requires forall c :: A.Free(geo, w, c) <==> A.Free(geo, v, c) && c != x
    ensures x < b ==> Pool(geo, w, b) == Pool(geo, v, b)
    ensures Pool(geo, v, b) != [] && Pool(geo, v, b)[0] == x ==> Pool(geo, w, b) == Pool(geo, v, b)[1..]
    decreases geo.total - b
  {
    if b < geo.total {
      PoolWithout(geo, v, w, x, b + 1);
    }
  }

  /** The state after n calls of `ext4_alloc_block`. */
  function AllocMany(geo: Geo, v: Vol, n: nat): (w: Vol)
    requires A.GeoOk(geo) && A.Inv(geo, v)
    ensures A.Inv(geo, w)
    decreases n
  {
    if n == 0 then v else AllocMany(geo, A.Alloc(geo, v).0, n - 1)
  }

  /** One call takes the head of the pool. */
  lemma AllocTakesHead(geo: Geo, v: Vol)
    requires A.GeoOk(geo) && A.Inv(geo, v)
    ensures var (w, b) := A.Alloc(geo, v);
            var pool := Pool(geo, v, 0);
            if pool == [] then b == 0 else b == pool[0] && Pool(geo, w, 0) == pool[1..]
  {
    hide A.Alloc, A.Free, A.Lowest, A.GroupOk, A.Sum, A.Used;
    var (w, b) := A.Alloc(geo, v);
    PoolStarts(geo, v, 0);
    A.AllocIs(geo, v);
    forall x: nat
      ensures A.Free(geo, w, x) <==> A.Free(geo, v, x) && x != b
    {
      A.AllocTakes(geo, v, x);
    }
    PoolWithout(geo, v, w, b, 0);
  }

  /** n calls take the first n blocks of the pool, and nothing else. */
  lemma {:induction false} ManyTakes(geo: Geo, v: Vol, n: nat, c: nat)
    requires A.GeoOk(geo) && A.Inv(geo, v) && n <= |Pool(geo, v, 0)|
    ensures Pool(geo, AllocMany(geo, v, n), 0) == Pool(geo, v, 0)[n..]
    ensures A.Used(geo, AllocMany(geo, v, n), c) <==> A.Used(geo, v, c) || c in Pool(geo, v, 0)[..n]
    decreases n
  {
    hide Pool, A.Alloc, A.Free, A.Used;
    if n > 0 {
      var pool := Pool(geo, v, 0);
      var (w, b) := A.Alloc(geo, v);
      AllocTakesHead(geo, v);
      A.AllocTakes(geo, v, c);
      ManyTakes(geo, w, n - 1, c);
      assert pool[1..][n - 1..] == pool[n..];
      assert pool[..n] == [b] + pool[1..][..n - 1];
    }
  }

  lemma {:induction false} PoolOnce(pool: seq<nat>, n: nat, c: nat)
    requires n <= |pool| && forall i, j | 0 <= i < j < |pool| :: pool[i] < pool[j]
    ensures PoolUses(pool, n, c) == One(c in pool[..n])
  {
    if n > 0 {
      PoolOnce(pool, n - 1, c);
      assert pool[..n] == pool[..n - 1] + [pool[n - 1]];
    }
  }

  // ----- files and owners

  datatype Fs = Fs(vol: Vol, files: seq<Tree>)

  /** How often b is used by any file, for data or for a node. */
  function Total(files: seq<Tree>, b: nat): nat {
    if files == [] then 0 else Total(files[..|files| - 1], b) + Uses(files[|files| - 1], b)
  }

  /** Every block in use by some file has its bit set and exactly one use. */
  ghost predicate Own(geo: Geo, cap: nat, fs: Fs) {
    && A.GeoOk(geo) && A.Inv(geo, fs.vol)
    && (forall i | 0 <= i < |fs.files| :: RootWf(fs.files[i], cap))
    && Total(fs.files, 0) == 0
    && (forall b :: OwnedOnce(geo, fs, b))
  }

  ghost predicate OwnedOnce(geo: Geo, fs: Fs, b: nat)
    requires A.GeoOk(geo) && A.Inv(geo, fs.vol)
  {
    Total(fs.files, b) == 0 || (Total(fs.files, b) == 1 && A.Used(geo, fs.vol, b))
  }

  lemma {:induction false} TotalSet(files: seq<Tree>, i: nat, t: Tree, b: nat)
    requires i < |files|
    ensures Total(files[i := t], b) == Total(files, b) - Uses(files[i], b) + Uses(t, b)
    ensures Uses(files[i], b) <= Total(files, b)
  {
    var n := |files| - 1;
    if i < n {
      assert files[i := t][..n] == files[..n][i := t];
      TotalSet(files[..n], i, t, b);
    } else {
      assert files[i := t][..n] == files[..n];
    }
  }

  /** `ext4_ensure_block`: the new state and the block, or none on failure. */
  function Ensure(geo: Geo, cap: nat, fs: Fs, i: nat, f: nat): (r: (Fs, Option<nat>))
    requires A.GeoOk(geo) && A.Inv(geo, fs.vol) && i < |fs.files|
    requires HasDepth(fs.files[i], Depth(fs.files[i]))
  {
    var t := fs.files[i];
    var (v, b) := A.Alloc(geo, fs.vol);
    if Lookup(t, f).Some? then (fs, Lookup(t, f))
    else if b == 0 then (fs, None)
    else
      var pool := Pool(geo, v, 0);
      var r := InsRoot(t, f, b, cap, pool);
      if r.Done? then (Fs(AllocMany(geo, v, RootTaken(t, f, b, cap, pool)), fs.files[i := r.t]), Some(b))
      else
        var left := if t.Leaf? then v else AllocMany(geo, v, |pool|);
        (Fs(A.Give(geo, left, b), fs.files[i := r.t]), None)
  }

  /** Said of the state before the call: the block is not mapped, the root is an index node, a block
      is left besides the one for the data, and every node on the path is full up to the depth where
      the blocks run out. Then some split is not rolled back. */
  predicate Loses(geo: Geo, cap: nat, fs: Fs, i: nat, f: nat)
    requires A.GeoOk(geo) && A.Inv(geo, fs.vol) && i < |fs.files|
  {
    var t, pool := fs.files[i], Pool(geo, fs.vol, 0);
    Lookup(t, f) == None && |pool| >= 2 && t.Branch? && RootFull(t, f, pool[0], cap, |pool| - 1)
  }

  /** And the entry for f goes to the left half of that split: the data block is freed while mapped. */
  predicate Hazard(geo: Geo, cap: nat, fs: Fs, i: nat, f: nat)
    requires A.GeoOk(geo) && A.Inv(geo, fs.vol) && i < |fs.files|
  {
    Loses(geo, cap, fs, i, f) && StaysLeft(fs.files[i], Depth(fs.files[i]), f, |Pool(geo, fs.vol, 0)| - 1)
  }

  /** The allocator call inside `ext4_ensure_block`, by the pool before it. */
  lemma FirstBlock(geo: Geo, v: Vol)
    requires A.GeoOk(geo) && A.Inv(geo, v)
    ensures var (w, b) := A.Alloc(geo, v);
            var pool := Pool(geo, v, 0);
            if pool == [] then b == 0
            else b == pool[0] && 0 < b < U32 && A.Free(geo, v, b) && !A.Used(geo, v, b) && Pool(geo, w, 0) == pool[1..]
  {
    hide A.Alloc, A.Used, A.Shape, A.GroupOk;
    AllocTakesHead(geo, v);
    var pool := Pool(geo, v, 0);
    if pool != [] {
      A.FreeBlock(geo, v, pool[0]);
    }
  }

  /** A call fails if and only if no block is left for the data, or the tree has no room and the
      blocks left do not reach the top of the full part of the path. */
  lemma EnsureFailsIff(geo: Geo, cap: nat, fs: Fs, i: nat, f: nat)
    requires Own(geo, cap, fs) && i < |fs.files| && HasDepth(fs.files[i], Depth(fs.files[i]))
    ensures var t, pool := fs.files[i], Pool(geo, fs.vol, 0);
            Ensure(geo, cap, fs, i, f).1 == None <==>
            Lookup(t, f) == None && (pool == [] || RootFull(t, f, pool[0], cap, |pool| - 1))
    ensures Loses(geo, cap, fs, i, f) ==> Ensure(geo, cap, fs, i, f).1 == None
  {
    hide InsRoot, RootTaken, RootFull, Pool, A.Alloc, A.GroupOk, A.Sum, A.Shape, A.Free, A.Used, RootWf, HasDepth,
         OwnedOnce, Lookup;
    var (v, b) := A.Alloc(geo, fs.vol);
    FirstBlock(geo, fs.vol);
    if b != 0 {
      InsertFailsIff(fs.files[i], f, b, cap, Pool(geo, v, 0));
    }
  }

  /** A call that got all its blocks: each block it took gains its one owner, and no other block is taken. */
  lemma EnsureDone(geo: Geo, cap: nat, fs: Fs, i: nat, f: nat, c: nat)
    requires Own(geo, cap, fs) && i < |fs.files| && f < U32 - 1 && HasDepth(fs.files[i], Depth(fs.files[i]))
    requires Lookup(fs.files[i], f) == None && Ensure(geo, cap, fs, i, f).1.Some?
    ensures var fs' := Ensure(geo, cap, fs, i, f).0;
            && A.Inv(geo, fs'.vol) && OwnedOnce(geo, fs', c) && Total(fs'.files, 0) == 0
            && (A.Used(geo, fs'.vol, c) <==> A.Used(geo, fs.vol, c) || Total(fs'.files, c) > Total(fs.files, c))
  {
    hide InsRoot, RootTaken, Uses, PoolUses, Pool, A.GroupOk, A.Sum, A.Shape, A.Alloc, A.Free, A.Used, Lookup, RootWf,
         HasDepth;
    var t := fs.files[i];
    var (v, b) := A.Alloc(geo, fs.vol);
    var pool := Pool(geo, v, 0);
    var r, n := InsRoot(t, f, b, cap, pool), RootTaken(t, f, b, cap, pool);
    A.AllocTakes(geo, fs.vol, c);
    A.AllocTakes(geo, fs.vol, b);
    RootLookup(t, cap, f);
    A.FreeBlock(geo, fs.vol, b);
    assert OwnedOnce(geo, fs, c);
    forall x | x == c || x == 0
      ensures n <= |pool| && Total(fs.files[i := r.t], x) == Total(fs.files, x) + One(x == b) + One(x in pool[..n])
    {
      InsRootGrew(t, f, b, cap, pool, x);
      TotalSet(fs.files, i, r.t, x);
      PoolOnce(pool, n, x);
    }
    ManyTakes(geo, v, n, c);
    if c in pool[..n] {
      A.FreeBlock(geo, v, c);
    }
  }

  /** A call that failed before anything was split puts everything back. */
  lemma EnsureFailed(geo: Geo, cap: nat, fs: Fs, i: nat, f: nat)
    requires Own(geo, cap, fs) && i < |fs.files| && f < U32 - 1 && 5 <= cap && HasDepth(fs.files[i], Depth(fs.files[i]))
    requires Ensure(geo, cap, fs, i, f).1 == None && !Loses(geo, cap, fs, i, f)
    ensures Ensure(geo, cap, fs, i, f).0 == fs
  {
    hide InsRoot, RootTaken, RootFull, Pool, A.GroupOk, A.Sum, A.Shape, A.Free, A.Used, RootWf, HasDepth, OwnedOnce,
         Lookup;
    var t := fs.files[i];
    var (v, b) := A.Alloc(geo, fs.vol);
    FirstBlock(geo, fs.vol);
    EnsureFailsIff(geo, cap, fs, i, f);
    if b != 0 {
      var pool := Pool(geo, v, 0);
      FailureKeepsMapIff(t, f, b, cap, pool);
      assert t.Leaf? || AllocMany(geo, v, |pool|) == v;
      A.TakeThenGive(geo, fs.vol, b);
      assert fs.files[i := t] == fs.files;
    }
  }

  /** The state after a call that failed with a split behind it: the data block and every block the
      allocator had left are taken, the data block is freed again, and the tree is as stored. */
  lemma EnsureLost(geo: Geo, cap: nat, fs: Fs, i: nat, f: nat)
    requires Own(geo, cap, fs) && i < |fs.files| && HasDepth(fs.files[i], Depth(fs.files[i]))
             && Loses(geo, cap, fs, i, f)
    ensures var t, pool := fs.files[i], Pool(geo, fs.vol, 0);
            var v := A.Alloc(geo, fs.vol).0;
            var r := InsRoot(t, f, pool[0], cap, pool[1..]);
            && r.Fail? && Pool(geo, v, 0) == pool[1..]
            && Ensure(geo, cap, fs, i, f).0 ==
               Fs(A.Give(geo, AllocMany(geo, v, |pool| - 1), pool[0]), fs.files[i := r.t])
  {
    hide InsRoot, RootTaken, RootFull, Pool, A.Alloc, A.GroupOk, A.Sum, A.Shape, A.Free, A.Used, A.Give, RootWf,
         HasDepth, OwnedOnce, Lookup;
    FirstBlock(geo, fs.vol);
    EnsureFailsIff(geo, cap, fs, i, f);
    var pool := Pool(geo, fs.vol, 0);
    InsertFailsIff(fs.files[i], f, pool[0], cap, pool[1..]);
  }

  /** Such a call leaves no free block but the one for the data: what the splits took is not given back,
      whether or not the kept tree uses it. */
  lemma LossDrains(geo: Geo, cap: nat, fs: Fs, i: nat, f: nat)
    requires Own(geo, cap, fs) && i < |fs.files| && HasDepth(fs.files[i], Depth(fs.files[i]))
             && Loses(geo, cap, fs, i, f)
    ensures var vol, pool := Ensure(geo, cap, fs, i, f).0.vol, Pool(geo, fs.vol, 0);
            A.Inv(geo, vol) && forall c :: A.Used(geo, vol, c) <==> A.Used(geo, fs.vol, c) || c in pool[1..]
  {
    hide InsRoot, RootFull, Pool, A.Alloc, A.GroupOk, A.Sum, A.Shape, A.Free, A.Used, A.Give, RootWf, HasDepth,
         OwnedOnce,
         Lookup, Ensure;
    EnsureLost(geo, cap, fs, i, f);
    FirstBlock(geo, fs.vol);
    var pool := Pool(geo, fs.vol, 0);
    var v := A.Alloc(geo, fs.vol).0;
    var w := AllocMany(geo, v, |pool| - 1);
    A.GiveKeepsInv(geo, w, pool[0]);
    forall c ensures A.Used(geo, A.Give(geo, w, pool[0]), c) <==> A.Used(geo, fs.vol, c) || c in pool[1..] {
      ManyTakes(geo, v, |pool| - 1, c);
      A.AllocTakes(geo, fs.vol, c);
      assert pool[1..][..|pool| - 1] == pool[1..];
      assert pool[0] !in pool[1..];
    }
  }

  /** Which blocks are in use after it. */
  lemma LostUsed(geo: Geo, v: Vol, c: nat)
    requires A.GeoOk(geo) && A.Inv(geo, v) && Pool(geo, v, 0) != []
    ensures var pool := Pool(geo, v, 0);
            var w := AllocMany(geo, A.Alloc(geo, v).0, |pool| - 1);
            var u := A.Give(geo, w, pool[0]);
            && A.Inv(geo, u)
            && (A.Used(geo, u, c) <==> (A.Used(geo, v, c) || c in pool) && c != pool[0])
  {
    hide A.Alloc, A.Free, A.Used, A.Shape, A.GroupOk, A.Sum, A.Give, AllocMany, Pool;
    FirstBlock(geo, v);
    var pool := Pool(geo, v, 0);
    var v1 := A.Alloc(geo, v).0;
    A.AllocTakes(geo, v, c);
    ManyTakes(geo, v1, |pool| - 1, c);
    assert pool == [pool[0]] + pool[1..] && pool[1..][..|pool| - 1] == pool[1..];
    A.GiveKeepsInv(geo, AllocMany(geo, v1, |pool| - 1), pool[0]);
  }

  /** After it, every block has one owner at most unless the data block stayed in the tree; then that
      block has an owner and is free. */
  lemma LostOwner(geo: Geo, cap: nat, fs: Fs, i: nat, f: nat, c: nat)
    requires Own(geo, cap, fs) && i < |fs.files| && f < U32 - 1 && 5 <= cap && HasDepth(fs.files[i], Depth(fs.files[i]))
    requires Loses(geo, cap, fs, i, f)
    ensures var (fs', b) := (Ensure(geo, cap, fs, i, f).0, Pool(geo, fs.vol, 0)[0]);
            && A.Inv(geo, fs'.vol)
            && (Hazard(geo, cap, fs, i, f) ==> !OwnedOnce(geo, fs', b))
            && (!Hazard(geo, cap, fs, i, f) ==>
                OwnedOnce(geo, fs', c) && RootWf(fs'.files[i], cap) && Total(fs'.files, 0) == 0)
  {
    hide InsRoot, RootFull, Uses, PoolUses, Pool, Ensure, A.Alloc, A.GroupOk, A.Sum, A.Shape, A.Free, A.Used, A.Give,
         Lookup, RootWf, HasDepth, StaysLeft;
    var t, pool := fs.files[i], Pool(geo, fs.vol, 0);
    var b, rest := pool[0], pool[1..];
    EnsureLost(geo, cap, fs, i, f);
    FirstBlock(geo, fs.vol);
    RootLookup(t, cap, f);
    var s := InsRoot(t, f, b, cap, rest).t;
    forall x | x == c || x == b || x == 0
      ensures Total(fs.files[i := s], x) <= Total(fs.files, x) + One(x == b) + One(x in rest)
    {
      FailedRoot(t, f, b, cap, rest, x);
      TotalSet(fs.files, i, s, x);
      RestOnce(geo, fs.vol, x);
    }
    assert OwnedOnce(geo, fs, c) && OwnedOnce(geo, fs, b);
    FailedRoot(t, f, b, cap, rest, b);
    TotalSet(fs.files, i, s, b);
    RestOnce(geo, fs.vol, b);
    LostUsed(geo, fs.vol, b);
    LostUsed(geo, fs.vol, c);
    RestOnce(geo, fs.vol, c);
    RestOnce(geo, fs.vol, 0);
  }

  /** The pool behind its head: distinct free blocks other than the head. */
  lemma RestOnce(geo: Geo, v: Vol, x: nat)
    requires A.GeoOk(geo) && A.Inv(geo, v) && Pool(geo, v, 0) != []
    ensures var pool := Pool(geo, v, 0);
            && PoolUses(pool[1..], |pool| - 1, x) == One(x in pool[1..])
            && (x in pool[1..] ==> x != pool[0] && x != 0 && !A.Used(geo, v, x))
            && (x in pool <==> x == pool[0] || x in pool[1..])
  {
    hide A.Used, A.Shape, A.GroupOk, A.Sum, A.Free, Pool, PoolUses;
    var pool := Pool(geo, v, 0);
    PoolOnce(pool[1..], |pool| - 1, x);
    assert pool[1..][..|pool| - 1] == pool[1..];
    assert pool == [pool[0]] + pool[1..];
    if x in pool[1..] {
      A.FreeBlock(geo, v, x);
    }
  }

  /** `ext4_ensure_block` keeps single ownership if and only if the call is not the hazard. */
  lemma EnsureKeepsOwnIff(geo: Geo, cap: nat, fs: Fs, i: nat, f: nat)
    requires Own(geo, cap, fs) && i < |fs.files| && f < U32 - 1 && 5 <= cap && HasDepth(fs.files[i], Depth(fs.files[i]))
    ensures Own(geo, cap, Ensure(geo, cap, fs, i, f).0) <==> !Hazard(geo, cap, fs, i, f)
  {
    hide InsRoot, RootTaken, RootFull, Pool, A.Alloc, A.GroupOk, A.Sum, A.Shape, A.Free, A.Used, RootWf, HasDepth,
         OwnedOnce, Lookup, Loses, Hazard, StaysLeft;
    HazardLoses(geo, cap, fs, i, f);
    if Loses(geo, cap, fs, i, f) {
      LossKeepsOwnIff(geo, cap, fs, i, f);
    } else {
      EnsureKeeps(geo, cap, fs, i, f);
    }
  }

  lemma HazardLoses(geo: Geo, cap: nat, fs: Fs, i: nat, f: nat)
    requires A.GeoOk(geo) && A.Inv(geo, fs.vol) && i < |fs.files|
    ensures Hazard(geo, cap, fs, i, f) ==> Loses(geo, cap, fs, i, f)
    ensures Loses(geo, cap, fs, i, f) ==> Pool(geo, fs.vol, 0) != []
  {
  }

  lemma LossKeepsOwnIff(geo: Geo, cap: nat, fs: Fs, i: nat, f: nat)
    requires Own(geo, cap, fs) && i < |fs.files| && f < U32 - 1 && 5 <= cap && HasDepth(fs.files[i], Depth(fs.files[i]))
    requires Loses(geo, cap, fs, i, f)
    ensures Own(geo, cap, Ensure(geo, cap, fs, i, f).0) <==> !Hazard(geo, cap, fs, i, f)
  {
    hide RootFull, Pool, Ensure, A.Alloc, A.GroupOk, A.Sum, A.Shape, A.Free, A.Used, RootWf, HasDepth, OwnedOnce,
         Lookup, Loses, Hazard, StaysLeft, A.Inv;
    var fs' := Ensure(geo, cap, fs, i, f).0;
    HazardLoses(geo, cap, fs, i, f);
    LostOwner(geo, cap, fs, i, f, 0);
    EnsureLost(geo, cap, fs, i, f);
    if !Hazard(geo, cap, fs, i, f) {
      forall c ensures OwnedOnce(geo, fs', c) {
        LostOwner(geo, cap, fs, i, f, c);
      }
    }
  }

  /** A call that does not lose a split keeps single ownership. */
  lemma EnsureKeeps(geo: Geo, cap: nat, fs: Fs, i: nat, f: nat)
    requires Own(geo, cap, fs) && i < |fs.files| && f < U32 - 1 && 5 <= cap && HasDepth(fs.files[i], Depth(fs.files[i]))
    requires !Loses(geo, cap, fs, i, f)
    ensures Own(geo, cap, Ensure(geo, cap, fs, i, f).0)
  {
    hide InsRoot, RootTaken, Pool, A.Alloc, A.GroupOk, A.Sum, A.Shape, A.Free, A.Used, RootWf, HasDepth, OwnedOnce,
         Lookup, Loses;
    var t := fs.files[i];
    var (fs', r) := Ensure(geo, cap, fs, i, f);
    if r == None {
      EnsureFailed(geo, cap, fs, i, f);
    } else if Lookup(t, f) == None {
      EnsureDone(geo, cap, fs, i, f, 0);
      forall c ensures OwnedOnce(geo, fs', c) {
        EnsureDone(geo, cap, fs, i, f, c);
      }
      var (v, b) := A.Alloc(geo, fs.vol);
      A.AllocTakes(geo, fs.vol, b);
      A.FreeBlock(geo, fs.vol, b);
      RootLookup(t, cap, f);
      InsRootOk(t, f, b, cap, Pool(geo, v, 0));
    }
  }

  /** What a call that does not lose a split answers, and what every lookup in every file gives then. */
  lemma EnsureMaps(geo: Geo, cap: nat, fs: Fs, i: nat, f: nat, j: nat, g: nat)
    requires Own(geo, cap, fs) && i < |fs.files| && f < U32 - 1 && 5 <= cap && HasDepth(fs.files[i], Depth(fs.files[i]))
    requires !Loses(geo, cap, fs, i, f) && j < |fs.files|
    ensures var (fs', r) := Ensure(geo, cap, fs, i, f);
            && |fs'.files| == |fs.files|
            && Lookup(fs'.files[j], g) == if j == i && g == f then r else Lookup(fs.files[j], g)
  {
    hide InsRoot, RootTaken, Pool, A.Alloc, A.GroupOk, A.Sum, A.Shape, A.Free, A.Used, RootWf, HasDepth, OwnedOnce,
         Lookup, Loses;
    var t := fs.files[i];
    if Ensure(geo, cap, fs, i, f).1 == None {
      EnsureFailed(geo, cap, fs, i, f);
      EnsureNone(geo, cap, fs, i, f);
    } else if Lookup(t, f) == None {
      var (v, b) := A.Alloc(geo, fs.vol);
      A.AllocTakes(geo, fs.vol, b);
      A.FreeBlock(geo, fs.vol, b);
      InsertThenLookup(t, f, b, cap, Pool(geo, v, 0), g);
    }
  }

  lemma EnsureNone(geo: Geo, cap: nat, fs: Fs, i: nat, f: nat)
    requires A.GeoOk(geo) && A.Inv(geo, fs.vol) && i < |fs.files| && HasDepth(fs.files[i], Depth(fs.files[i]))
    requires Ensure(geo, cap, fs, i, f).1 == None
    ensures Lookup(fs.files[i], f) == None
  {
  }

  /** Every lookup in every file is as before but for the answer at f in file i. */
  ghost predicate OnlyMaps(fs: Fs, fs': Fs, i: nat, f: nat, r: Option<nat>) {
    && |fs'.files| == |fs.files|
    && forall j: nat, g: nat | j < |fs.files| ::
         Lookup(fs'.files[j], g) == if j == i && g == f then r else Lookup(fs.files[j], g)
  }

  /** `ext4_ensure_block` changes the map of one file at one block at most, and not at all when it
      fails, if and only if it does not lose a split. */
  lemma EnsureMapsIff(geo: Geo, cap: nat, fs: Fs, i: nat, f: nat)
    requires Own(geo, cap, fs) && i < |fs.files| && f < U32 - 1 && 5 <= cap && HasDepth(fs.files[i], Depth(fs.files[i]))
    ensures OnlyMaps(fs, Ensure(geo, cap, fs, i, f).0, i, f, Ensure(geo, cap, fs, i, f).1) <==>
            !Loses(geo, cap, fs, i, f)
  {
    hide InsRoot, RootTaken, RootFull, Pool, Ensure, A.Alloc, A.GroupOk, A.Sum, A.Free, A.Used, A.Shape, RootWf,
         HasDepth, OwnedOnce, Lookup;
    var (fs', r) := Ensure(geo, cap, fs, i, f);
    if Loses(geo, cap, fs, i, f) {
      EnsureLost(geo, cap, fs, i, f);
      EnsureFailsIff(geo, cap, fs, i, f);
      FirstBlock(geo, fs.vol);
      var t, pool := fs.files[i], Pool(geo, fs.vol, 0);
      FailureKeepsMapIff(t, f, pool[0], cap, pool[1..]);
    } else {
      EnsureMaps(geo, cap, fs, i, f, i, f);
      forall j: nat, g: nat | j < |fs.files|
        ensures Lookup(fs'.files[j], g) == if j == i && g == f then r else Lookup(fs.files[j], g)
      {
        EnsureMaps(geo, cap, fs, i, f, j, g);
      }
    }
  }

  // ----- truncation

  function GiveAll(geo: Geo, v: Vol, bs: seq<nat>): (w: Vol)
    requires A.GeoOk(geo) && A.Inv(geo, v)
    ensures A.Inv(geo, w)
    decreases |bs|
  {
    if bs == [] then v
    else
      var w := GiveAll(geo, v, bs[..|bs| - 1]);
      A.GiveKeepsInv(geo, w, bs[|bs| - 1]);
      A.Give(geo, w, bs[|bs| - 1])
  }

  /** `ext4_truncate_inode`. */
  function Truncate(geo: Geo, fs: Fs, i: nat): Fs
    requires A.GeoOk(geo) && A.Inv(geo, fs.vol) && i < |fs.files|
  {
    Fs(GiveAll(geo, fs.vol, Freed(fs.files[i])), fs.files[i := Leaf([])])
  }

  /** Freeing a list of distinct blocks in use: exactly they leave, and the count grows by their number. */
  lemma {:induction false} GiveAllFrees(geo: Geo, v: Vol, bs: seq<nat>, c: nat)
    requires A.GeoOk(geo) && A.Inv(geo, v)
    requires forall b | b in bs :: b != 0 && A.Used(geo, v, b) && Occurs(bs, b) <= 1
    ensures A.Used(geo, GiveAll(geo, v, bs), c) <==> A.Used(geo, v, c) && c !in bs
    ensures GiveAll(geo, v, bs).free == v.free + |bs|
    decreases |bs|
  {
    hide A.Used, A.Shape, A.GroupOk, A.Sum, A.Mark;
    if bs != [] {
      var n := |bs| - 1;
      var b, w := bs[n], GiveAll(geo, v, bs[..n]);
      assert bs == bs[..n] + [b];
      forall x | x in bs[..n] ensures x != 0 && A.Used(geo, v, x) && Occurs(bs[..n], x) <= 1 && x != b {
        assert x in bs;
        OccursIn(bs[..n], x);
        assert Occurs(bs, x) == Occurs(bs[..n], x) + One(b == x);
      }
      GiveAllFrees(geo, v, bs[..n], c);
      GiveAllFrees(geo, v, bs[..n], b);
      A.GiveKeepsInv(geo, w, b);
      A.GiveCounts(geo, w, b);
    }
  }

  /** What truncation frees, as a list: no block twice, none of them 0, all of them in use. */
  lemma FreedOnce(geo: Geo, cap: nat, fs: Fs, i: nat, b: nat)
    requires Own(geo, cap, fs) && i < |fs.files| && b in Freed(fs.files[i])
    ensures b != 0 && A.Used(geo, fs.vol, b) && Occurs(Freed(fs.files[i]), b) == 1 == Uses(fs.files[i], b)
  {
    hide A.Used, A.Inv, Freed;
    var t := fs.files[i];
    FreedAtMost(t, b);
    OccursIn(Freed(t), b);
    TotalSet(fs.files, i, Leaf([]), b);
    assert OwnedOnce(geo, fs, b);
  }

  /** `ext4_truncate_inode` on any tree it does not stray from: single ownership stays, exactly the
      blocks it visits become free, each once, and the free count grows by their number. */
  lemma TruncateKeepsOwn(geo: Geo, cap: nat, fs: Fs, i: nat)
    requires Own(geo, cap, fs) && i < |fs.files|
    ensures Own(geo, cap, Truncate(geo, fs, i))
    ensures Truncate(geo, fs, i).vol.free == fs.vol.free + |Freed(fs.files[i])|
    ensures forall b :: A.Used(geo, Truncate(geo, fs, i).vol, b) <==> A.Used(geo, fs.vol, b) && b !in Freed(fs.files[i])
  {
    hide A.Used, A.Shape, A.GroupOk, A.Sum, Uses, Freed, RootWf;
    var t, fs' := fs.files[i], Truncate(geo, fs, i);
    var bs := Freed(t);
    forall b | b in bs ensures b != 0 && A.Used(geo, fs.vol, b) && Occurs(bs, b) <= 1 {
      FreedOnce(geo, cap, fs, i, b);
    }
    GiveAllFrees(geo, fs.vol, bs, 0);
    forall b
      ensures A.Used(geo, fs'.vol, b) <==> A.Used(geo, fs.vol, b) && b !in bs
      ensures OwnedOnce(geo, fs', b)
    {
      GiveAllFrees(geo, fs.vol, bs, b);
      if b in bs {
        FreedOnce(geo, cap, fs, i, b);
      }
      TotalSet(fs.files, i, Leaf([]), b);
      EmptyUses(b);
      assert OwnedOnce(geo, fs, b);
    }
    TotalSet(fs.files, i, Leaf([]), 0);
    EmptyUses(0);
    EmptyRoot(cap);
  }

  /** Nothing the file owned stays in use if and only if no index node below the root has a second
      child; and exactly then the free count grows by what `i_blocks` recorded. */
  lemma TruncateFreesAllIff(geo: Geo, cap: nat, fs: Fs, i: nat)
    requires Own(geo, cap, fs) && i < |fs.files|
    ensures var t, vol := fs.files[i], Truncate(geo, fs, i).vol;
            && ((forall b | Uses(t, b) > 0 :: !A.Used(geo, vol, b)) <==> AllSpines(t))
            && (vol.free == fs.vol.free + DataSeen(t) + IndexSeen(t) <==> AllSpines(t))
  {
    hide A.Used, A.Shape, A.GroupOk, A.Sum, Uses, Freed, RootWf, Truncate, AllSpines, OwnedOnce, DataSeen, IndexSeen;
    var t, vol := fs.files[i], Truncate(geo, fs, i).vol;
    TruncateKeepsOwn(geo, cap, fs, i);
    RecordedIff(t, cap);
    FreesAllIff(t, cap);
    forall b ensures Occurs(Freed(t), b) == Uses(t, b) <==> Uses(t, b) == 0 || !A.Used(geo, vol, b) {
      FreedIff(geo, cap, fs, i, b);
    }
    if AllSpines(t) {
      forall b | Uses(t, b) > 0 ensures !A.Used(geo, vol, b) {
        assert Occurs(Freed(t), b) == Uses(t, b);
      }
    } else if forall b | Uses(t, b) > 0 :: !A.Used(geo, vol, b) {
      forall b ensures Occurs(Freed(t), b) == Uses(t, b) {
      }
    }
  }

  lemma FreedIff(geo: Geo, cap: nat, fs: Fs, i: nat, b: nat)
    requires Own(geo, cap, fs) && i < |fs.files|
    ensures var t := fs.files[i];
            Occurs(Freed(t), b) == Uses(t, b) <==> Uses(t, b) == 0 || !A.Used(geo, Truncate(geo, fs, i).vol, b)
  {
    hide A.Used, A.Inv, Uses, Freed, RootWf, Truncate;
    var t := fs.files[i];
    TruncateKeepsOwn(geo, cap, fs, i);
    FreedAtMost(t, b);
    OccursIn(Freed(t), b);
    TotalSet(fs.files, i, t, b);
    assert OwnedOnce(geo, fs, b);
  }

  lemma EmptyUses(b: nat)
    ensures Uses(Leaf([]), b) == 0
  {
  }

  lemma EmptyRoot(cap: nat)
    ensures RootWf(Leaf([]), cap)
  {
  }

  // ----- runs

  datatype Call = EnsureCall(i: nat, f: nat) | TruncateCall(i: nat)

  /** The call names a file and a block, and a truncation does not stray. */
  predicate CallOk(geo: Geo, fs: Fs, c: Call) {
    match c
    case EnsureCall(i, f) => i < |fs.files| && f < U32 - 1
    case TruncateCall(i) => i < |fs.files| && !Strays(fs.files[i], geo.total)
  }

  ghost function Next(geo: Geo, cap: nat, fs: Fs, c: Call): Fs
    requires Own(geo, cap, fs) && CallOk(geo, fs, c)
  {
    match c
    case EnsureCall(i, f) => RootDepth(fs.files[i], cap); Ensure(geo, cap, fs, i, f).0
    case TruncateCall(i) => Truncate(geo, fs, i)
  }

  predicate Hazardous(geo: Geo, cap: nat, fs: Fs, c: Call)
    requires A.GeoOk(geo) && A.Inv(geo, fs.vol) && CallOk(geo, fs, c)
  {
    c.EnsureCall? && Hazard(geo, cap, fs, c.i, c.f)
  }

  lemma NextKeepsOwnIff(geo: Geo, cap: nat, fs: Fs, c: Call)
    requires Own(geo, cap, fs) && 5 <= cap && CallOk(geo, fs, c)
    ensures Own(geo, cap, Next(geo, cap, fs, c)) <==> !Hazardous(geo, cap, fs, c)
  {
    hide OwnedOnce, RootWf, Ensure, Truncate, Hazard, Strays, A.Inv, HasDepth;
    match c
    case EnsureCall(i, f) =>
      RootDepth(fs.files[i], cap);
      EnsureKeepsOwnIff(geo, cap, fs, i, f);
    case TruncateCall(i) => TruncateKeepsOwn(geo, cap, fs, i);
  }

  /** Every state of the run, up to a call that cannot be made, keeps single ownership. */
  ghost predicate AlwaysOwn(geo: Geo, cap: nat, fs: Fs, calls: seq<Call>)
    decreases |calls|
  {
    Own(geo, cap, fs) &&
    (calls != [] && CallOk(geo, fs, calls[0]) ==> AlwaysOwn(geo, cap, Next(geo, cap, fs, calls[0]), calls[1..]))
  }

  /** No call of the run is the hazard when its turn comes. */
  ghost predicate NeverHazard(geo: Geo, cap: nat, fs: Fs, calls: seq<Call>)
    requires Own(geo, cap, fs) && 5 <= cap
    decreases |calls|
  {
    calls != [] && CallOk(geo, fs, calls[0]) ==>
      && !Hazardous(geo, cap, fs, calls[0])
      && (NextKeepsOwnIff(geo, cap, fs, calls[0]);
          NeverHazard(geo, cap, Next(geo, cap, fs, calls[0]), calls[1..]))
  }

  /** A volume with any number of empty files has no shared block. */
  lemma {:induction false} EmptyFilesOwn(geo: Geo, cap: nat, vol: Vol, files: seq<Tree>)
    requires A.GeoOk(geo) && A.Inv(geo, vol) && forall i | 0 <= i < |files| :: files[i] == Leaf([])
    ensures Own(geo, cap, Fs(vol, files))
  {
    forall b ensures Total(files, b) == 0 {
      EmptyTotal(files, b);
    }
  }

  lemma {:induction false} EmptyTotal(files: seq<Tree>, b: nat)
    requires forall i | 0 <= i < |files| :: files[i] == Leaf([])
    ensures Total(files, b) == 0
  {
    if files != [] {
      EmptyTotal(files[..|files| - 1], b);
      EmptyUses(b);
    }
  }

  /** Over every run on any number of files: single ownership holds in every state if and only if no
      call is the hazard when its turn comes. */
  lemma {:induction false} RunKeepsOwnIff(geo: Geo, cap: nat, fs: Fs, calls: seq<Call>)
    requires Own(geo, cap, fs) && 5 <= cap
    ensures AlwaysOwn(geo, cap, fs, calls) <==> NeverHazard(geo, cap, fs, calls)
    decreases |calls|
  {
    hide OwnedOnce, RootWf, Next, Hazardous, CallOk, A.Inv, Own;
    OwnInv(geo, cap, fs);
    if calls != [] && CallOk(geo, fs, calls[0]) {
      NextKeepsOwnIff(geo, cap, fs, calls[0]);
      if !Hazardous(geo, cap, fs, calls[0]) {
        RunKeepsOwnIff(geo, cap, Next(geo, cap, fs, calls[0]), calls[1..]);
      }
    }
  }

  lemma OwnInv(geo: Geo, cap: nat, fs: Fs)
    requires Own(geo, cap, fs)
    ensures A.GeoOk(geo) && A.Inv(geo, fs.vol)
  {
  }

  lemma {:induction false} FindUses(es: seq<Slot>, lo: nat, hi: nat, f: nat, g: nat, b: nat)
    requires SortedIn(es, lo, hi) && Find(es, f) == Some(b)
    ensures DataUses(es, b) >= 1
    ensures Find(es, g) == Some(b) && g != f ==> DataUses(es, b) >= 2
    decreases es
  {
    var lo' := es[0].key + Len(es[0]);
    if !Covers(es[0], f) {
      FindUses(es[1..], lo', hi, f, g, b);
    } else if !Covers(es[0], g) && Find(es, g) == Some(b) {
      FindUses(es[1..], lo', hi, g, f, b);
    }
  }

  lemma {:induction false} TotalTwo(files: seq<Tree>, i: nat, j: nat, b: nat)
    requires i < j < |files|
    ensures Uses(files[i], b) + Uses(files[j], b) <= Total(files, b)
  {
    var n := |files| - 1;
    if j < n {
      TotalTwo(files[..n], i, j, b);
    } else {
      TotalSet(files[..n], i, files[i], b);
    }
  }

  /** No two file blocks, of one file or of two, share a disk block, and none shares one with a tree node. */
  lemma NoSharing(geo: Geo, cap: nat, fs: Fs, i: nat, f: nat, j: nat, g: nat, b: nat)
    requires Own(geo, cap, fs) && i < |fs.files| && j < |fs.files|
    requires Lookup(fs.files[i], f) == Some(b) == Lookup(fs.files[j], g)
    ensures i == j && f == g && A.Used(geo, fs.vol, b)
    ensures forall k | 0 <= k < |fs.files| :: NodeUses(fs.files[k], b) == 0
  {
    hide Lookup, A.Used, A.Inv, NodeUses, DataUses;
    assert OwnedOnce(geo, fs, b);
    MappedUses(fs.files[i], cap, f, g, b);
    MappedUses(fs.files[j], cap, g, f, b);
    TotalSet(fs.files, i, fs.files[i], b);
    if i < j {
      TotalTwo(fs.files, i, j, b);
    } else if j < i {
      TotalTwo(fs.files, j, i, b);
    }
    forall k | 0 <= k < |fs.files| ensures NodeUses(fs.files[k], b) == 0 {
      if k < i {
        TotalTwo(fs.files, k, i, b);
      } else if i < k {
        TotalTwo(fs.files, i, k, b);
      }
    }
  }

  lemma MappedUses(t: Tree, cap: nat, f: nat, g: nat, b: nat)
    requires RootWf(t, cap) && Lookup(t, f) == Some(b)
    ensures DataUses(Ents(t), b) >= 1
    ensures Lookup(t, g) == Some(b) && f != g ==> DataUses(Ents(t), b) >= 2
  {
    hide Lookup, DataUses;
    RootLookup(t, cap, f);
    RootLookup(t, cap, g);
    if t != Leaf([]) {
      EntsSorted(t, Depth(t), 0, U32 - 1, ROOT_MAX, cap);
    }
    FindUses(Ents(t), 0, U32 - 1, f, g, b);
  }
}
