/** How many free blocks a write needs, exactly, as long as no leaf of the tree can fill up under it:
    one for every file block that is not mapped (kernel/fs/ext4.c:1564-1635). */
module WriteRoom {
  import opened Words
  import opened Division
  import opened Extents
  import opened ExtentTree
  import opened ExtentBlocks
  import opened FailedInsert
  import opened Ownership
  import opened FileWrite
  import A = Allocator

  /** Every leaf below has room for u extents more. */
  predicate Spare(t: Tree, u: nat, cap: nat)
    decreases t
  {
    match t
    case Leaf(es) => |es| + u <= cap
    case Branch(kids) => forall i | 0 <= i < |kids| :: Spare(kids[i].sub, u, cap)
  }

  /** And so has a root that is a leaf. */
  predicate Roomy(t: Tree, u: nat, cap: nat) {
    if t.Leaf? then |t.ents| + u <= ROOT_MAX else Spare(t, u, cap)
  }

  lemma {:induction false} SpareLess(t: Tree, u: nat, v: nat, cap: nat)
    requires Spare(t, u, cap) && v <= u
    ensures Spare(t, v, cap)
    decreases t
  {
    if t.Branch? {
      forall i | 0 <= i < |t.kids| ensures Spare(t.kids[i].sub, v, cap) {
        SpareLess(t.kids[i].sub, u, v, cap);
      }
    }
  }

  lemma SpareSplice(kids: seq<Kid>, ci: nat, s: Tree, u: nat, cap: nat)
    requires ci < |kids| && u > 0 && Spare(Branch(kids), u, cap) && Spare(s, u - 1, cap)
    ensures Spare(Branch(Splice(kids, ci, [Rekeyed(kids[ci], s)])), u - 1, cap)
  {
    hide Spare;
    var kids' := Splice(kids, ci, [Rekeyed(kids[ci], s)]);
    SpareIs(kids, u, cap);
    SpareIs(kids', u - 1, cap);
    forall i | 0 <= i < |kids'| ensures Spare(kids'[i].sub, u - 1, cap) {
      if i != ci {
        assert kids'[i] == kids[i];
        SpareLess(kids[i].sub, u, u - 1, cap);
      }
    }
  }

  lemma SpareIs(kids: seq<Kid>, u: nat, cap: nat)
    ensures Spare(Branch(kids), u, cap) <==> forall i | 0 <= i < |kids| :: Spare(kids[i].sub, u, cap)
  {
  }

  /** An insertion into such a subtree takes no block, and one place of one leaf. */
  lemma {:induction false} InsSpare(t: Tree, d: nat, f: nat, p: nat, cap: nat, pool: seq<nat>, u: nat)
    requires HasDepth(t, d) && u > 0 && Spare(t, u, cap)
    ensures var r := InsNode(t, d, f, p, cap, pool); r.Done? && Spare(r.t, u - 1, cap)
    ensures Taken(t, d, f, p, cap, pool) == 0
    decreases t
  {
    match t
    case Leaf(es) =>
    case Branch(kids) =>
      if kids != [] {
        hide InsNode, Taken, Spare;
        var ci := Route(kids, f);
        SpareIs(kids, u, cap);
        InsBranchIs(kids, d, f, p, cap, pool);
        TakenIs(kids, d, f, p, cap, pool);
        InsSpare(kids[ci].sub, d - 1, f, p, cap, pool, u);
        SpareSplice(kids, ci, InsNode(kids[ci].sub, d - 1, f, p, cap, pool).t, u, cap);
      } else {
        SpareIs(kids, u - 1, cap);
      }
  }

  lemma RootSpare(t: Tree, f: nat, p: nat, cap: nat, pool: seq<nat>, u: nat)
    requires HasDepth(t, Depth(t)) && u > 0 && Roomy(t, u, cap)
    ensures var r := InsRoot(t, f, p, cap, pool); r.Done? && Roomy(r.t, u - 1, cap)
    ensures RootTaken(t, f, p, cap, pool) == 0
  {
    match t
    case Leaf(es) => hide HasDepth, Spare;
    case Branch(kids) => BranchSpare(kids, f, p, cap, pool, u);
  }

  lemma BranchSpare(kids: seq<Kid>, f: nat, p: nat, cap: nat, pool: seq<nat>, u: nat)
    requires var t := Branch(kids); HasDepth(t, Depth(t)) && u > 0 && Spare(t, u, cap)
    ensures var r := InsRoot(Branch(kids), f, p, cap, pool); r.Done? && r.t.Branch? && Spare(r.t, u - 1, cap)
    ensures RootTaken(Branch(kids), f, p, cap, pool) == 0
  {
    hide InsNode, InsRoot, Taken, RootTaken, Spare, HasDepth;
    var t := Branch(kids);
    SpareIs(kids, u, cap);
    if kids == [] {
      NoKidsRoot(f, p, cap, pool);
      SpareIs(kids, u - 1, cap);
    } else {
      var ci := Route(kids, f);
      InsRootBranchIs(t, f, p, cap, pool);
      RootTakenIs(t, f, p, cap, pool);
      InsSpare(kids[ci].sub, Depth(t) - 1, f, p, cap, pool, u);
      SpareSplice(kids, ci, InsNode(kids[ci].sub, Depth(t) - 1, f, p, cap, pool).t, u, cap);
    }
  }

  lemma NoKidsRoot(f: nat, p: nat, cap: nat, pool: seq<nat>)
    requires HasDepth(Branch([]), Depth(Branch([])))
    ensures InsRoot(Branch([]), f, p, cap, pool) == Done(Branch([]))
    ensures RootTaken(Branch([]), f, p, cap, pool) == 0
  {
  }

  /** One turn: the block is there, or is the first free one, or there is none; nothing else. */
  lemma EnsureSpare(geo: Geo, cap: nat, fs: Fs, i: nat, f: nat, u: nat)
    requires Own(geo, cap, fs) && i < |fs.files| && HasDepth(fs.files[i], Depth(fs.files[i]))
    requires u > 0 && Roomy(fs.files[i], u, cap) && Lookup(fs.files[i], f) == None
    ensures var (fs', r) := Ensure(geo, cap, fs, i, f);
            if Pool(geo, fs.vol, 0) == [] then r == None && fs' == fs
            else
              && r.Some? && A.Inv(geo, fs'.vol) && |fs'.files| == |fs.files| && Roomy(fs'.files[i], u - 1, cap)
              && |Pool(geo, fs'.vol, 0)| == |Pool(geo, fs.vol, 0)| - 1
  {
    hide InsRoot, RootTaken, Pool, A.Alloc, A.GroupOk, A.Sum, A.Shape, A.Free, A.Used, RootWf, HasDepth, OwnedOnce,
         Lookup, Roomy;
    FirstBlock(geo, fs.vol);
    var (v, b) := A.Alloc(geo, fs.vol);
    if Pool(geo, fs.vol, 0) != [] {
      RootSpare(fs.files[i], f, b, cap, Pool(geo, v, 0), u);
    }
  }

  // ----- the blocks of a write

  /** How many of the file blocks from f up to e are not mapped. */
  function Gaps(t: Tree, f: nat, e: nat): nat
    decreases e - f
  {
    if f >= e then 0 else One(Lookup(t, f) == None) + Gaps(t, f + 1, e)
  }

  /** How many of the file blocks that a write of len bytes at off goes to are not mapped. */
  function Unmapped(bs: nat, t: Tree, off: nat, len: nat): nat
    requires bs > 0
  {
    if len == 0 then 0 else Gaps(t, BlockOf(bs, off), BlockOf(bs, off + len - 1) + 1)
  }

  lemma {:induction false} GapsSame(t: Tree, t': Tree, f: nat, e: nat)
    requires forall g: nat | g >= f :: Lookup(t', g) == Lookup(t, g)
    ensures Gaps(t', f, e) == Gaps(t, f, e)
    decreases e - f
  {
    hide Lookup;
    if f < e {
      GapsSame(t, t', f + 1, e);
    }
  }

  /** A chunk ends with its block, or with the data. */
  lemma ChunkEnds(bs: nat, pos: nat, rest: nat)
    requires bs > 0 && rest > 0
    ensures var n := Min(bs - Within(bs, pos), rest);
            && 0 < n <= rest
            && (n < rest ==> BlockOf(bs, pos + n) == BlockOf(bs, pos) + 1)
            && (n == rest ==> BlockOf(bs, pos + rest - 1) == BlockOf(bs, pos))
            && BlockOf(bs, pos) <= BlockOf(bs, pos + rest - 1)
  {
    var f, w := pos / bs, pos % bs;
    assert pos == f * bs + w;
    var n := Min(bs - w, rest);
    if n < rest {
      Shifted(bs, pos, n, f, w, 1, 0);
      Ordered(bs, pos, pos + rest - 1);
    } else {
      Shifted(bs, pos, n - 1, f, w, 0, w + n - 1);
    }
  }

  lemma Ordered(bs: nat, a: nat, b: nat)
    requires bs > 0 && a <= b
    ensures a / bs <= b / bs
  {
    if a / bs > 0 {
      DivBelow(b, bs, a / bs - 1);
    }
  }

  /** The loop gets to the end if and only if every unmapped block can have a free one; when it stops,
      no block is free. */
  lemma {:induction false} RoomyReach(geo: Geo, cap: nat, fs: Fs, i: nat, off: nat, len: nat, done: nat, u: nat)
    requires Own(geo, cap, fs) && 5 <= cap && i < |fs.files| && off + len < U32 && done <= len && geo.bs > 0
    requires A.GeoOk(geo) && A.Inv(geo, fs.vol) && Roomy(fs.files[i], u, cap)
    requires u == if done == len then 0 else Gaps(fs.files[i], BlockOf(geo.bs, off + done),
                                                  BlockOf(geo.bs, off + len - 1) + 1)
    ensures Reach(geo, cap, fs, i, off, len, done).1 == len <==> |Pool(geo, fs.vol, 0)| >= u
    ensures var (s, n) := Reach(geo, cap, fs, i, off, len, done); n < len ==> Pool(geo, s.vol, 0) == []
    decreases len - done
  {
    hide Own, Ensure, BlockOf, Within, A.GroupOk, A.Sum, A.Shape, A.GeoOk, HasDepth, Pool, Reach, Lookup, Roomy;
    if done == len {
      ReachEnd(geo, cap, fs, i, off, len);
    } else {
      var pos := off + done;
      TurnReady(geo, cap, fs, i, pos);
      ChunkEnds(geo.bs, pos, len - done);
      var f, m, t := BlockOf(geo.bs, pos), done + Min(geo.bs - Within(geo.bs, pos), len - done), fs.files[i];
      ReachStep(geo, cap, fs, i, off, len, done);
      var (fs', r) := Ensure(geo, cap, fs, i, f);
      if Lookup(t, f) == None {
        EnsureSpare(geo, cap, fs, i, f, u);
      } else {
        EnsureThere(geo, cap, fs, i, f);
      }
      if r.Some? {
        forall g: nat | g >= f + 1 ensures Lookup(fs'.files[i], g) == Lookup(t, g) {
          EnsureApart(geo, cap, fs, i, f, i, g);
        }
        GapsSame(t, fs'.files[i], f + 1, BlockOf(geo.bs, off + len - 1) + 1);
        RoomyReach(geo, cap, fs', i, off, len, m, u - One(Lookup(t, f) == None));
      }
    }
  }

  lemma EnsureThere(geo: Geo, cap: nat, fs: Fs, i: nat, f: nat)
    requires A.GeoOk(geo) && A.Inv(geo, fs.vol) && i < |fs.files| && HasDepth(fs.files[i], Depth(fs.files[i]))
    requires Lookup(fs.files[i], f).Some?
    ensures Ensure(geo, cap, fs, i, f) == (fs, Lookup(fs.files[i], f))
  {
  }

  /** A write to a file whose leaves have room for all of it goes through if and only if there is a free
      block for every file block that is not mapped; otherwise it is cut short, and loses nothing. */
  lemma WriteFitsIff(geo: Geo, cap: nat, fs: Fs, i: nat, off: nat, len: nat)
    requires Own(geo, cap, fs) && 5 <= cap && i < |fs.files| && off + len < U32 && geo.bs > 0
    requires A.GeoOk(geo) && A.Inv(geo, fs.vol) && Roomy(fs.files[i], Unmapped(geo.bs, fs.files[i], off, len), cap)
    ensures Reach(geo, cap, fs, i, off, len, 0).1 == len <==>
            |Pool(geo, fs.vol, 0)| >= Unmapped(geo.bs, fs.files[i], off, len)
    ensures !Drops(geo, cap, fs, i, off, len) && !Breaks(geo, cap, fs, i, off, len)
  {
    hide OwnedOnce, RootWf, Pool, Reach, A.GroupOk, A.Sum, A.Shape, BlockOf, Roomy, Lookup, RootFull, StaysLeft;
    RoomyReach(geo, cap, fs, i, off, len, 0, Unmapped(geo.bs, fs.files[i], off, len));
  }
}
