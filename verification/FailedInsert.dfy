/** Which insertions fail, and on which side of the split that is then lost the new data block
    lies, both read off the tree before the call (kernel/fs/ext4.c:981-985, 1203-1206, 1262-1266,
    1575-1577). */
module FailedInsert {
  import opened Words
  import opened Extents
  import opened ExtentTree
  import opened ExtentBlocks

  // ----- when it fails

  /** Every node on the path of f, from the leaf up to depth n, is full. */
  predicate FullTo(t: Tree, d: nat, f: nat, p: nat, cap: nat, n: nat)
    decreases t
  {
    match t
    case Leaf(es) => NeedsEntry(es, f, p) && |es| >= cap
    case Branch(kids) =>
      && kids != [] && d > 0
      && FullTo(kids[Route(kids, f)].sub, d - 1, f, p, cap, n)
      && (d <= n ==> |kids| >= cap)
  }

  lemma FullIs(kids: seq<Kid>, d: nat, f: nat, p: nat, cap: nat, n: nat)
    requires kids != [] && d > 0
    ensures FullTo(Branch(kids), d, f, p, cap, n) <==>
            FullTo(kids[Route(kids, f)].sub, d - 1, f, p, cap, n) && (d <= n ==> |kids| >= cap)
  {
  }

  /** With n blocks to take, a subtree of depth d splits if its path is full up to its top, and
      fails if its path is full up to depth n, where the blocks run out. */
  lemma {:induction false} InsKind(t: Tree, d: nat, lo: nat, hi: nat, cap: nat, f: nat, p: nat, pool: seq<nat>)
    requires Wf(t, d, lo, hi, cap, cap) && HasDepth(t, d)
    ensures InsNode(t, d, f, p, cap, pool).Done? <==> !FullTo(t, d, f, p, cap, |pool|)
    ensures InsNode(t, d, f, p, cap, pool).Split? <==> FullTo(t, d, f, p, cap, |pool|) && d < |pool|
    decreases t
  {
    hide HasDepth, FullTo, LeafPut;
    match t
    case Leaf(es) => LeafKind(es, lo, hi, f, p, cap, pool);
    case Branch(kids) =>
      var ci := Route(kids, f);
      InsBranchIs(kids, d, f, p, cap, pool);
      FullIs(kids, d, f, p, cap, |pool|);
      KidsWfSplit(kids, ci, d - 1, lo, hi, cap);
      InsKind(kids[ci].sub, d - 1, Key(kids[ci]), Up(kids, ci + 1, hi), cap, f, p, pool);
  }

  lemma LeafKind(es: seq<Slot>, lo: nat, hi: nat, f: nat, p: nat, cap: nat, pool: seq<nat>)
    requires SortedIn(es, lo, hi) && |es| <= cap
    ensures InsNode(Leaf(es), 0, f, p, cap, pool).Done? <==> !FullTo(Leaf(es), 0, f, p, cap, |pool|)
    ensures InsNode(Leaf(es), 0, f, p, cap, pool).Split? <==> FullTo(Leaf(es), 0, f, p, cap, |pool|) && 0 < |pool|
  {
    hide LeafPut, NeedsEntry;
    PutCount(es, lo, hi, f, p);
  }

  /** What makes `ext_insert` fail with n blocks to take. */
  predicate RootFull(t: Tree, f: nat, p: nat, cap: nat, n: nat) {
    match t
    case Leaf(es) => NeedsEntry(es, f, p) && |es| >= ROOT_MAX && n < 2
    case Branch(kids) =>
      && kids != [] && n <= Depth(t)
      && FullTo(kids[Route(kids, f)].sub, Depth(t) - 1, f, p, cap, n)
      && (n == Depth(t) ==> |kids| == ROOT_MAX)
  }

  /** `ext_insert` fails if and only if the path is full up to where the blocks run out. */
  lemma InsertFailsIff(t: Tree, f: nat, p: nat, cap: nat, pool: seq<nat>)
    requires RootWf(t, cap) && HasDepth(t, Depth(t))
    ensures InsRoot(t, f, p, cap, pool).Fail? <==> RootFull(t, f, p, cap, |pool|)
  {
    if t.Branch? {
      hide InsNode, InsRoot, FullTo;
      RootBounds(t, cap);
      InsRootBranchIs(t, f, p, cap, pool);
      var kids, d, ci := t.kids, Depth(t), Route(t.kids, f);
      KidsWfSplit(kids, ci, d - 1, 0, U32 - 1, cap);
      InsKind(kids[ci].sub, d - 1, Key(kids[ci]), Up(kids, ci + 1, U32 - 1), cap, f, p, pool);
    } else if t.ents == [] {
      assert LeafPut([], f, p) == [NewExtent(f, p)];
    } else {
      hide LeafPut, NeedsEntry;
      PutCount(t.ents, 0, U32 - 1, f, p);
    }
  }

  // ----- where the new block lands

  /** The node at depth n on the path of f. */
  function PathNode(t: Tree, d: nat, f: nat, n: nat): Tree
    decreases t
  {
    if t.Leaf? || d <= n || t.kids == [] then t
    else PathNode(t.kids[Route(t.kids, f)].sub, d - 1, f, n)
  }

  /** A split of this node puts the entry for f into the left half. */
  predicate LandsLeft(t: Tree, f: nat)
    decreases t
  {
    match t
    case Leaf(es) => Pos(es, f) < Half(|es| + 1)
    case Branch(kids) =>
      kids != [] &&
      (if LandsLeft(kids[Route(kids, f)].sub, f) then Route(kids, f) else Route(kids, f) + 1) < Half(|kids| + 1)
  }

  /** Of two lists that hold block p once between them, the one with a given entry that holds it. */
  lemma HeldLeft(kids: seq<Kid>, h: nat, x: nat, p: nat)
    requires h <= |kids| && x < |kids| && ListUses(kids, p) == 1 && Uses(kids[x].sub, p) == 1
    ensures ListUses(kids[..h], p) == One(x < h)
  {
    hide Uses;
    assert kids == kids[..h] + kids[h..];
    ListConcat(kids[..h], kids[h..], p);
    if x < h {
      HasUse(kids[..h], x, p);
    } else {
      HasUse(kids[h..], x - h, p);
    }
  }

  lemma HasUse(kids: seq<Kid>, x: nat, p: nat)
    requires x < |kids|
    ensures ListUses(kids, p) >= Uses(kids[x].sub, p)
  {
    hide Uses, ListUses;
    assert kids == kids[..x] + [kids[x]] + kids[x + 1..];
    ListConcat(kids[..x] + [kids[x]], kids[x + 1..], p);
    ListConcat(kids[..x], [kids[x]], p);
    ListOne(kids[x], p);
  }

  lemma HeldLeftEnts(es: seq<Slot>, h: nat, x: nat, p: nat)
    requires h <= |es| && x < |es| && DataUses(es, p) == 1 && es[x].addr <= p < es[x].addr + Len(es[x])
    ensures DataUses(es[..h], p) == One(x < h)
  {
    assert es == es[..h] + es[h..];
    DataConcat(es[..h], es[h..], p);
    if x < h {
      HasData(es[..h], x, p);
    } else {
      HasData(es[h..], x - h, p);
    }
  }

  lemma HasData(es: seq<Slot>, x: nat, p: nat)
    requires x < |es| && es[x].addr <= p < es[x].addr + Len(es[x])
    ensures DataUses(es, p) >= 1
  {
    assert es == es[..x] + [es[x]] + es[x + 1..];
    DataMiddle(es[..x], [es[x]], es[x + 1..], p);
    DataOne(es[x], p);
  }

  /** A fresh data block: neither used by the tree nor about to be used for a node. */
  predicate Unused(t: Tree, p: nat, pool: seq<nat>) {
    Uses(t, p) == 0 && PoolUses(pool, |pool|, p) == 0
  }

  lemma {:induction false} PoolPart(pool: seq<nat>, n: nat, m: nat, b: nat)
    requires n <= m <= |pool|
    ensures PoolUses(pool, n, b) <= PoolUses(pool, m, b)
    ensures n < m && pool[n] == b ==> PoolUses(pool, m, b) > 0
    decreases m
  {
    if n < m {
      PoolPart(pool, n, m - 1, b);
    }
  }

  lemma LeafLands(es: seq<Slot>, lo: nat, hi: nat, cap: nat, f: nat, p: nat, pool: seq<nat>)
    requires Wf(Leaf(es), 0, lo, hi, cap, cap) && lo <= f < hi < U32 && 0 < p < U32 && Find(es, f) == None
    requires InsNode(Leaf(es), 0, f, p, cap, pool).Split? && Uses(Leaf(es), p) == 0
    ensures Uses(InsNode(Leaf(es), 0, f, p, cap, pool).l, p) == One(LandsLeft(Leaf(es), f))
  {
    var es', pos := LeafPut(es, f, p), Pos(es, f);
    PutShape(es, lo, hi, f, p);
    PutData(es, lo, hi, f, p, p);
    assert es' == es[..pos] + [NewExtent(f, p)] + es[pos..];
    HeldLeftEnts(es', Half(|es'|), pos, p);
  }

  /** A split puts a fresh data block into its left half exactly when `LandsLeft` says so. */
  lemma {:induction false} SplitLands(t: Tree, d: nat, lo: nat, hi: nat, cap: nat, f: nat, p: nat, pool: seq<nat>)
    requires Wf(t, d, lo, hi, cap, cap) && lo <= f < hi < U32 && 0 < p < U32 && HasDepth(t, d)
             && Find(Ents(t), f) == None
    requires InsNode(t, d, f, p, cap, pool).Split? && Unused(t, p, pool)
    ensures Uses(InsNode(t, d, f, p, cap, pool).l, p) == One(LandsLeft(t, f))
    decreases t
  {
    hide InsNode, HasDepth, LandsLeft, Uses, Find, KidsWf, Taken, PoolUses, Rejoin;
    match t
    case Leaf(es) => LeafLands(es, lo, hi, cap, f, p, pool);
    case Branch(kids) =>
      var ci, up := DescendOk(kids, d - 1, lo, hi, cap, f);
      var sub := kids[ci].sub;
      InsBranchIs(kids, d, f, p, cap, pool);
      InsNodeGrew(sub, d - 1, Min(f, Key(kids[ci])), up, cap, f, p, pool, p);
      UnusedBelow(kids, ci, p, pool);
      var r := InsNode(sub, d - 1, f, p, cap, pool);
      SplitChild(kids, ci, r, d, cap, pool);
      SplitLands(sub, d - 1, Min(f, Key(kids[ci])), up, cap, f, p, pool);
      PoolPart(pool, d - 1, |pool|, p);
      RejoinLands(kids, ci, r, d, cap, f, p, pool);
  }

  lemma UnusedBelow(kids: seq<Kid>, ci: nat, p: nat, pool: seq<nat>)
    requires ci < |kids| && Unused(Branch(kids), p, pool)
    ensures Unused(kids[ci].sub, p, pool) && ListUses(kids, p) == 0
  {
    HasUse(kids, ci, p);
  }

  lemma SplitChild(kids: seq<Kid>, ci: nat, r: Ins, d: nat, cap: nat, pool: seq<nat>)
    requires ci < |kids| && d > 0 && (r.Split? ==> d - 1 < |pool|) && (r.Fail? ==> |pool| <= d)
    requires Rejoin(kids, ci, r, d, cap, pool).Split?
    ensures r.Split? && d < |pool|
  {
  }

  lemma RejoinLands(kids: seq<Kid>, ci: nat, r: Ins, d: nat, cap: nat, f: nat, p: nat, pool: seq<nat>)
    requires kids != [] && ci == Route(kids, f) && d > 0 && r.Split? && d < |pool|
    requires Rejoin(kids, ci, r, d, cap, pool).Split? && ListUses(kids, p) == 0 && pool[d - 1] != p
    requires Uses(r.l, p) == One(LandsLeft(kids[ci].sub, f)) && Uses(r.l, p) + Uses(r.r, p) == 1
    ensures Uses(Rejoin(kids, ci, r, d, cap, pool).l, p) == One(LandsLeft(Branch(kids), f))
  {
    hide Uses, ListUses;
    var k, b := kids[ci], pool[d - 1];
    var mid := SplitKids(k, r.l, r.r, b);
    var kids' := Splice(kids, ci, mid);
    var x := if LandsLeft(k.sub, f) then ci else ci + 1;
    SpliceOne(kids, ci, r.l, r.r, b, p);
    assert kids'[ci] == mid[0] && kids'[ci + 1] == mid[1];
    HeldLeft(kids', Half(|kids'|), x, p);
    BranchUses(kids'[..Half(|kids'|)], p);
  }

  lemma BranchUses(kids: seq<Kid>, p: nat)
    ensures Uses(Branch(kids), p) == ListUses(kids, p)
  {
  }

  lemma SpliceOne(kids: seq<Kid>, ci: nat, l: Tree, r: Tree, b: nat, p: nat)
    requires ci < |kids| && ListUses(kids, p) == 0 && b != p && Uses(l, p) + Uses(r, p) == 1
    ensures ListUses(Splice(kids, ci, SplitKids(kids[ci], l, r, b)), p) == 1
  {
    hide Uses, ListUses;
    var mid := SplitKids(kids[ci], l, r, b);
    SpliceUses(kids, ci, mid, p);
    ListTwo(mid[0], mid[1], p);
    ListOne(kids[ci], p);
    assert kids == kids[..ci] + [kids[ci]] + kids[ci + 1..];
    ListConcat(kids[..ci] + [kids[ci]], kids[ci + 1..], p);
    ListConcat(kids[..ci], [kids[ci]], p);
  }

  // ----- what a failure keeps

  /** The subtree on disk after an insertion that did not get through: the left half of a split. */
  function Kept(r: Ins): Tree
    requires !r.Done?
  {
    if r.Fail? then r.t else r.l
  }

  /** The data block ends up in what is kept: some level split, and the block went left there. */
  predicate StaysLeft(t: Tree, d: nat, f: nat, n: nat) {
    n > 0 && LandsLeft(PathNode(t, d, f, n - 1), f)
  }

  /** The insertion stops at this subtree or below. */
  predicate Stops(r: Ins, d: nat, n: nat) {
    r.Fail? || (r.Split? && n == d + 1)
  }

  lemma StopsBelow(kids: seq<Kid>, ci: nat, r: Ins, d: nat, cap: nat, pool: seq<nat>)
    requires ci < |kids| && d > 0 && (r.Split? ==> d - 1 < |pool|) && (r.Fail? ==> |pool| <= d)
    requires Rejoin(kids, ci, r, d, cap, pool).Fail?
    ensures Stops(r, d - 1, |pool|)
    ensures Rejoin(kids, ci, r, d, cap, pool).t == Branch(kids[ci := Kid(kids[ci].slot, Kept(r))])
  {
  }

  lemma ReplaceUses(kids: seq<Kid>, ci: nat, k: Kid, c: nat)
    requires ci < |kids| && k.slot.addr == kids[ci].slot.addr
    ensures Uses(Branch(kids[ci := k]), c) == Uses(Branch(kids), c) - Uses(kids[ci].sub, c) + Uses(k.sub, c)
  {
    hide Uses, ListUses;
    assert kids[ci := k] == Splice(kids, ci, [k]);
    SpliceUses(kids, ci, [k], c);
    ListOne(k, c);
    ListOne(kids[ci], c);
    BranchUses(kids, c);
    BranchUses(kids[ci := k], c);
  }

  lemma PathBelow(kids: seq<Kid>, d: nat, f: nat, n: nat)
    requires kids != [] && d > 0
    ensures n <= d ==> StaysLeft(Branch(kids), d, f, n) == StaysLeft(kids[Route(kids, f)].sub, d - 1, f, n)
  {
  }

  /** What is kept uses no block but the old ones, the data block and the nodes taken; and it uses
      the data block exactly when that stayed left. */
  lemma {:induction false} KeptUses(t: Tree, d: nat, lo: nat, hi: nat, cap: nat, f: nat, p: nat, pool: seq<nat>, c: nat)
    requires Wf(t, d, lo, hi, cap, cap) && lo <= f < hi < U32 && 0 < p < U32 && HasDepth(t, d)
             && Find(Ents(t), f) == None
    requires Stops(InsNode(t, d, f, p, cap, pool), d, |pool|)
    ensures Uses(Kept(InsNode(t, d, f, p, cap, pool)), c) <= Uses(t, c) + One(c == p) + PoolUses(pool, |pool|, c)
    ensures Unused(t, p, pool) ==> Uses(Kept(InsNode(t, d, f, p, cap, pool)), p) == One(StaysLeft(t, d, f, |pool|))
    decreases t
  {
    hide InsNode, HasDepth, LandsLeft, Uses, Find, KidsWf, PoolUses, Rejoin, StaysLeft;
    var r := InsNode(t, d, f, p, cap, pool);
    if r.Split? {
      InsNodeGrew(t, d, lo, hi, cap, f, p, pool, c);
      PoolPart(pool, d, |pool|, c);
      StaysHere(t, d, f);
      if Unused(t, p, pool) {
        SplitLands(t, d, lo, hi, cap, f, p, pool);
      }
    } else {
      match t
      case Leaf(es) => LeafKept(es, f, p, cap, pool);
      case Branch(kids) =>
        var ci, up := DescendOk(kids, d - 1, lo, hi, cap, f);
        InsBranchIs(kids, d, f, p, cap, pool);
        var r0 := InsNode(kids[ci].sub, d - 1, f, p, cap, pool);
        StopsBelow(kids, ci, r0, d, cap, pool);
        KeptUses(kids[ci].sub, d - 1, Min(f, Key(kids[ci])), up, cap, f, p, pool, c);
        PathBelow(kids, d, f, |pool|);
        ReplaceUses(kids, ci, Kid(kids[ci].slot, Kept(r0)), c);
        ReplaceUses(kids, ci, Kid(kids[ci].slot, Kept(r0)), p);
        if Unused(t, p, pool) {
          UnusedBelow(kids, ci, p, pool);
        }
    }
  }

  lemma StaysHere(t: Tree, d: nat, f: nat)
    ensures StaysLeft(t, d, f, d + 1) == LandsLeft(t, f)
  {
  }

  lemma LeafKept(es: seq<Slot>, f: nat, p: nat, cap: nat, pool: seq<nat>)
    requires InsNode(Leaf(es), 0, f, p, cap, pool).Fail?
    ensures InsNode(Leaf(es), 0, f, p, cap, pool).t == Leaf(es) && !StaysLeft(Leaf(es), 0, f, |pool|)
  {
  }

  // ----- a right half lost leaves a well-formed tree

  lemma {:induction false} RaiseTree(t: Tree, d: nat, lo: nat, hi: nat, hi': nat, top: nat, cap: nat)
    requires Wf(t, d, lo, hi, top, cap) && hi <= hi'
    ensures Wf(t, d, lo, hi', top, cap)
    decreases t, 1
  {
    match t
    case Leaf(es) => RaiseHi(es, lo, hi, hi');
    case Branch(kids) => RaiseKids(kids, d - 1, lo, hi, hi', cap);
  }

  lemma {:induction false} RaiseKids(kids: seq<Kid>, d: nat, lo: nat, hi: nat, hi': nat, cap: nat)
    requires KidsWf(kids, d, lo, hi, cap) && hi <= hi'
    ensures KidsWf(kids, d, lo, hi', cap)
    decreases kids, 0
  {
    if |kids| == 1 {
      RaiseKid(kids[0], d, lo, hi, hi', cap);
    } else if |kids| > 1 {
      RaiseKids(kids[1..], d, Key(kids[1]), hi, hi', cap);
    }
  }

  lemma {:induction false} RaiseKid(k: Kid, d: nat, lo: nat, up: nat, up': nat, cap: nat)
    requires KidWf(k, d, lo, up, cap) && up <= up'
    ensures KidWf(k, d, lo, up', cap)
    decreases k, 0
  {
    RaiseTree(k.sub, d, Key(k), up, up', cap, cap);
  }

  /** A block that lands right is not below the first key. */
  lemma RightAbove(t: Tree, d: nat, lo: nat, hi: nat, top: nat, cap: nat, f: nat)
    requires Wf(t, d, lo, hi, top, cap) && !LandsLeft(t, f) && Size(t) >= 2
    ensures FirstKey(t) <= f
  {
    match t
    case Leaf(es) =>
    case Branch(kids) =>
      var ci := Route(kids, f);
      assert Half(|kids| + 1) >= 2;
      KidsWfSplit(kids, ci, d - 1, lo, hi, cap);
      KidsLoHi(kids[..ci], d - 1, lo, Key(kids[ci]), cap);
  }

  function Size(t: Tree): nat { if t.Leaf? then |t.ents| else |t.kids| }

  lemma SplitSize(t: Tree, d: nat, f: nat, p: nat, cap: nat, pool: seq<nat>)
    requires HasDepth(t, d) && InsNode(t, d, f, p, cap, pool).Split?
    ensures Size(t) >= cap
  {
  }

  lemma SplitKept(t: Tree, d: nat, lo: nat, hi: nat, cap: nat, f: nat, p: nat, pool: seq<nat>)
    requires Wf(t, d, lo, hi, cap, cap) && lo <= f < hi < U32 && 0 < p < U32 && 5 <= cap && HasDepth(t, d)
             && Find(Ents(t), f) == None
    requires InsNode(t, d, f, p, cap, pool).Split? && !LandsLeft(t, f)
    ensures Wf(InsNode(t, d, f, p, cap, pool).l, d, lo, hi, cap, cap)
            && FirstKey(InsNode(t, d, f, p, cap, pool).l) == FirstKey(t)
  {
    hide InsNode, HasDepth, LandsLeft, Find, Wf, Ents;
    InsNodeOk(t, d, lo, hi, cap, f, p, pool);
    var l, r := InsNode(t, d, f, p, cap, pool).l, InsNode(t, d, f, p, cap, pool).r;
    EntsSorted(r, d, FirstKey(r), hi, cap, cap);
    SortedLoHi(Ents(r), FirstKey(r), hi);
    RaiseTree(l, d, lo, FirstKey(r), hi, cap, cap);
    SplitSize(t, d, f, p, cap, pool);
    RightAbove(t, d, lo, hi, cap, cap, f);
  }

  lemma KidKept(kids: seq<Kid>, ci: nat, s: Tree, d: nat, lo: nat, hi: nat, cap: nat, f: nat, top: nat)
    requires KidsWf(kids, d, lo, hi, cap) && ci < |kids| <= top
    requires Wf(s, d, Min(f, Key(kids[ci])), Up(kids, ci + 1, hi), cap, cap) && FirstKey(s) == FirstKey(kids[ci].sub)
    ensures Wf(Branch(kids[ci := Kid(kids[ci].slot, s)]), d + 1, lo, hi, top, cap)
    ensures FirstKey(Branch(kids[ci := Kid(kids[ci].slot, s)])) == FirstKey(Branch(kids))
  {
    var k := Kid(kids[ci].slot, s);
    var up := Up(kids, ci + 1, hi);
    KidsWfSplit(kids, ci, d, lo, hi, cap);
    LowerLo(s, d, Min(f, Key(k)), Key(k), up, cap, cap);
    OneKid(k, d, Key(k), up, cap);
    KidsLoHi(kids[..ci], d, lo, Key(k), cap);
    SpliceWf(kids, ci, [k], d, lo, hi, cap);
    assert kids[ci := k] == Splice(kids, ci, [k]);
  }

  /** Unless the data block stayed left, what is kept is well formed, with the same first key. */
  lemma {:induction false} KeptWf(t: Tree, d: nat, lo: nat, hi: nat, cap: nat, f: nat, p: nat, pool: seq<nat>)
    requires Wf(t, d, lo, hi, cap, cap) && lo <= f < hi < U32 && 0 < p < U32 && 5 <= cap && HasDepth(t, d)
             && Find(Ents(t), f) == None
    requires Stops(InsNode(t, d, f, p, cap, pool), d, |pool|) && !StaysLeft(t, d, f, |pool|)
    ensures var s := Kept(InsNode(t, d, f, p, cap, pool));
            Wf(s, d, lo, hi, cap, cap) && FirstKey(s) == FirstKey(t)
    decreases t
  {
    hide InsNode, HasDepth, LandsLeft, Find, KidsWf, Rejoin, StaysLeft;
    var r := InsNode(t, d, f, p, cap, pool);
    if r.Split? {
      StaysHere(t, d, f);
      SplitKept(t, d, lo, hi, cap, f, p, pool);
    } else {
      match t
      case Leaf(es) => LeafKept(es, f, p, cap, pool);
      case Branch(kids) =>
        var ci, up := DescendOk(kids, d - 1, lo, hi, cap, f);
        InsBranchIs(kids, d, f, p, cap, pool);
        var r0 := InsNode(kids[ci].sub, d - 1, f, p, cap, pool);
        StopsBelow(kids, ci, r0, d, cap, pool);
        PathBelow(kids, d, f, |pool|);
        KeptWf(kids[ci].sub, d - 1, Min(f, Key(kids[ci])), up, cap, f, p, pool);
        KidKept(kids, ci, Kept(r0), d - 1, lo, hi, cap, f, cap);
    }
  }

  // ----- the root

  lemma RootStops(kids: seq<Kid>, ci: nat, r: Ins, d: nat, pool: seq<nat>)
    requires ci < |kids| && d > 0 && (r.Split? ==> d - 1 < |pool|)
    requires RootRejoin(kids, ci, r, d, pool).Fail?
    ensures Stops(r, d - 1, |pool|)
    ensures RootRejoin(kids, ci, r, d, pool).t ==
            Branch(kids[ci := if r.Fail? then Kid(kids[ci].slot, r.t) else Rekeyed(kids[ci], r.l)])
  {
  }

  /** A failed `ext_insert` at an index root: what the stored tree uses, and that it is well formed
      unless the data block stayed in it. */
  lemma FailedRoot(t: Tree, f: nat, p: nat, cap: nat, pool: seq<nat>, c: nat)
    requires RootWf(t, cap) && HasDepth(t, Depth(t)) && f < U32 - 1 && 0 < p < U32 && 5 <= cap
             && Find(Ents(t), f) == None
    requires t.Branch? && InsRoot(t, f, p, cap, pool).Fail?
    ensures var s := InsRoot(t, f, p, cap, pool).t;
            && Uses(s, c) <= Uses(t, c) + One(c == p) + PoolUses(pool, |pool|, c)
            && (Unused(t, p, pool) ==> Uses(s, p) == One(StaysLeft(t, Depth(t), f, |pool|)))
            && (!StaysLeft(t, Depth(t), f, |pool|) ==> RootWf(s, cap))
  {
    hide InsNode, InsRoot, HasDepth, Uses, Find, KidsWf, PoolUses, RootRejoin, StaysLeft;
    RootBounds(t, cap);
    InsRootBranchIs(t, f, p, cap, pool);
    var kids, d := t.kids, Depth(t) - 1;
    var ci, up := DescendOk(kids, d, 0, U32 - 1, cap, f);
    var r := InsNode(kids[ci].sub, d, f, p, cap, pool);
    RootStops(kids, ci, r, d + 1, pool);
    var k := if r.Fail? then Kid(kids[ci].slot, r.t) else Rekeyed(kids[ci], r.l);
    KeptUses(kids[ci].sub, d, Min(f, Key(kids[ci])), up, cap, f, p, pool, c);
    RootPath(t, f, pool, cap, p);
    ReplaceUses(kids, ci, k, c);
    ReplaceUses(kids, ci, k, p);
    if Unused(t, p, pool) {
      UnusedBelow(kids, ci, p, pool);
    }
    if !StaysLeft(t, d + 1, f, |pool|) {
      KeptWf(kids[ci].sub, d, Min(f, Key(kids[ci])), up, cap, f, p, pool);
      KidsWfSplit(kids, ci, d, 0, U32 - 1, cap);
      assert k == Kid(kids[ci].slot, Kept(r));
      KidKept(kids, ci, Kept(r), d, 0, U32 - 1, cap, f, ROOT_MAX);
      WfDepthIs(Branch(kids[ci := k]), d + 1, 0, U32 - 1, ROOT_MAX, cap);
    }
  }

  lemma RootPath(t: Tree, f: nat, pool: seq<nat>, cap: nat, p: nat)
    requires RootWf(t, cap) && HasDepth(t, Depth(t)) && t.Branch? && t.kids != [] && InsRoot(t, f, p, cap, pool).Fail?
    ensures Depth(t) > 0 && StaysLeft(t, Depth(t), f, |pool|) ==
            StaysLeft(t.kids[Route(t.kids, f)].sub, Depth(t) - 1, f, |pool|)
  {
    hide InsRoot, StaysLeft, FullTo;
    InsertFailsIff(t, f, p, cap, pool);
    PathBelow(t.kids, Depth(t), f, |pool|);
  }
}
