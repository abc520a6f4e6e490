/** Which mappings are lost when an insertion fails after a split: a range of file blocks, told by the
    tree before the call; and that a block behind all others never stays in what is kept
    (kernel/fs/ext4.c:1203-1206, 1262-1266). */
module LostRange {
  import opened Words
  import opened Extents
  import opened ExtentTree
  import opened FailedInsert

  /** The first key of the right half when a full node splits. */
  function RightKey(t: Tree, f: nat): nat
    decreases t
  {
    match t
    case Leaf(es) =>
      var pos, h := Pos(es, f), Half(|es| + 1);
      if h < pos then es[h].key else if h == pos || |es| < 2 then f else es[h - 1].key
    case Branch(kids) =>
      if |kids| < 2 then 0 else
      var ci, h := Route(kids, f), Half(|kids| + 1);
      if h < ci then Key(kids[h])
      else if h == ci then Min(f, Key(kids[ci]))
      else if h == ci + 1 then RightKey(kids[ci].sub, f)
      else Key(kids[h - 1])
  }

  lemma SpliceKey(kids: seq<Kid>, ci: nat, x: Kid, y: Kid, h: nat)
    requires ci < |kids| && h <= |kids|
    ensures var kids' := Splice(kids, ci, [x, y]);
            && |kids'| == |kids| + 1
            && kids'[h] == if h < ci then kids[h] else if h == ci then x else if h == ci + 1 then y else kids[h - 1]
  {
  }

  lemma {:induction false} RightKeyIs(t: Tree, d: nat, lo: nat, hi: nat, cap: nat, f: nat, p: nat, pool: seq<nat>)
    requires Wf(t, d, lo, hi, cap, cap) && lo <= f < hi < U32 && 0 < p < U32 && 5 <= cap && HasDepth(t, d)
    requires Find(Ents(t), f) == None && InsNode(t, d, f, p, cap, pool).Split?
    ensures FirstKey(InsNode(t, d, f, p, cap, pool).r) == RightKey(t, f)
    decreases t
  {
    hide HasDepth, Find, KidsWf, InsNode, Rejoin, RightKey;
    match t
    case Leaf(es) => LeafRightKey(es, lo, hi, f, p, cap, pool);
    case Branch(kids) =>
      var ci, up := DescendOk(kids, d - 1, lo, hi, cap, f);
      InsBranchIs(kids, d, f, p, cap, pool);
      var r := InsNode(kids[ci].sub, d - 1, f, p, cap, pool);
      SplitChild(kids, ci, r, d, cap, pool);
      RightKeyIs(kids[ci].sub, d - 1, Min(f, Key(kids[ci])), up, cap, f, p, pool);
      InsNodeOk(kids[ci].sub, d - 1, Min(f, Key(kids[ci])), up, cap, f, p, pool);
      RejoinRightKey(kids, ci, r, d, cap, f, p, pool);
  }

  lemma LeafRightKey(es: seq<Slot>, lo: nat, hi: nat, f: nat, p: nat, cap: nat, pool: seq<nat>)
    requires SortedIn(es, lo, hi) && |es| <= cap && InsNode(Leaf(es), 0, f, p, cap, pool).Split? && 5 <= cap
    ensures FirstKey(InsNode(Leaf(es), 0, f, p, cap, pool).r) == RightKey(Leaf(es), f)
  {
  }

  lemma RejoinRightKey(kids: seq<Kid>, ci: nat, r: Ins, d: nat, cap: nat, f: nat, p: nat, pool: seq<nat>)
    requires kids != [] && ci == Route(kids, f) && d > 0 && r.Split? && d < |pool| && 5 <= cap
    requires Rejoin(kids, ci, r, d, cap, pool).Split? && FirstKey(r.r) == RightKey(kids[ci].sub, f)
    requires FirstKey(r.l) == Min(f, Key(kids[ci]))
    ensures FirstKey(Rejoin(kids, ci, r, d, cap, pool).r) == RightKey(Branch(kids), f)
  {
    hide RightKey, Half, Splice, Route;
    var mid := SplitKids(kids[ci], r.l, r.r, pool[d - 1]);
    var h := Half(|kids| + 1);
    assert mid == [mid[0], mid[1]];
    SpliceKey(kids, ci, mid[0], mid[1], 0);
    RightIs(kids, f, p);
    SpliceKey(kids, ci, mid[0], mid[1], h);
  }

  lemma RightIs(kids: seq<Kid>, f: nat, p: nat)
    requires |kids| >= 2
    ensures var ci, h := Route(kids, f), Half(|kids| + 1);
            && 0 < h <= |kids|
            && RightKey(Branch(kids), f) ==
               if h < ci then Key(kids[h])
               else if h == ci then Min(f, Key(kids[ci]))
               else if h == ci + 1 then RightKey(kids[ci].sub, f)
               else Key(kids[h - 1])
  {
  }

  /** The upper bound of the node at depth n on the path of f. */
  function PathUp(t: Tree, d: nat, f: nat, n: nat, hi: nat): nat
    decreases t
  {
    if t.Leaf? || d <= n || t.kids == [] then hi
    else PathUp(t.kids[Route(t.kids, f)].sub, d - 1, f, n, Up(t.kids, Route(t.kids, f) + 1, hi))
  }

  lemma KidBounds(kids: seq<Kid>, d: nat, lo: nat, hi: nat, cap: nat, f: nat)
    requires kids != [] && KidsWf(kids, d, lo, hi, cap) && f < hi
    ensures var ci := Route(kids, f);
            var up := Up(kids, ci + 1, hi);
            Wf(kids[ci].sub, d, Min(f, Key(kids[ci])), up, cap, cap) && f < up <= hi
  {
    var ci := Route(kids, f);
    var up := Up(kids, ci + 1, hi);
    KidsWfSplit(kids, ci, d, lo, hi, cap);
    KidsWfSplit(kids, ci + 1, d, lo, hi, cap);
    KidsLoHi(kids[ci + 1..], d, up, hi, cap);
    LowerLo(kids[ci].sub, d, Key(kids[ci]), Min(f, Key(kids[ci])), up, cap, cap);
  }

  lemma {:induction false} PathAbove(t: Tree, d: nat, lo: nat, hi: nat, top: nat, cap: nat, f: nat, n: nat)
    requires Wf(t, d, lo, hi, top, cap) && lo <= f < hi
    ensures f < PathUp(t, d, f, n, hi) <= hi
    decreases t
  {
    hide KidsWf;
    if t.Branch? && d > n {
      var kids, ci := t.kids, Route(t.kids, f);
      var up := Up(kids, ci + 1, hi);
      KidBounds(kids, d - 1, lo, hi, cap, f);
      PathAbove(kids[ci].sub, d - 1, Min(f, Key(kids[ci])), up, cap, cap, f, n);
    }
  }

  /** The blocks from this one up to the bound of the path are lost when n blocks can be taken. */
  function LostKey(t: Tree, d: nat, f: nat, n: nat): nat
    requires n > 0
  {
    RightKey(PathNode(t, d, f, n - 1), f)
  }

  /** Between the two places. */
  predicate InLost(t: Tree, d: nat, f: nat, n: nat, hi: nat, g: nat)
    requires n > 0
  {
    LostKey(t, d, f, n) <= g < PathUp(t, d, f, n - 1, hi)
  }

  lemma SplitFinds(t: Tree, d: nat, lo: nat, hi: nat, cap: nat, f: nat, p: nat, pool: seq<nat>, g: nat)
    requires Wf(t, d, lo, hi, cap, cap) && lo <= f < hi < U32 && 0 < p < U32 && 5 <= cap && HasDepth(t, d)
    requires Find(Ents(t), f) == None && InsNode(t, d, f, p, cap, pool).Split?
    ensures Find(Ents(InsNode(t, d, f, p, cap, pool).l), g) == if RightKey(t, f) <= g < hi then None
            else if g == f then Some(p) else Find(Ents(t), g)
  {
    hide InsNode, HasDepth, Find, Wf, Ents, RightKey;
    InsNodeOk(t, d, lo, hi, cap, f, p, pool);
    RightKeyIs(t, d, lo, hi, cap, f, p, pool);
    var l, r := InsNode(t, d, f, p, cap, pool).l, InsNode(t, d, f, p, cap, pool).r;
    EntsSorted(l, d, lo, FirstKey(r), cap, cap);
    EntsSorted(r, d, FirstKey(r), hi, cap, cap);
    SortedLoHi(Ents(r), FirstKey(r), hi);
    FindConcat(Ents(l), Ents(r), g);
    if g >= FirstKey(r) {
      FindBelow(Ents(l), lo, FirstKey(r), g);
    }
    if g < FirstKey(r) || hi <= g {
      FindBelow(Ents(r), FirstKey(r), hi, g);
    }
  }

  lemma PathStep(kids: seq<Kid>, d: nat, f: nat, p: nat, n: nat, hi: nat, g: nat)
    requires kids != [] && 0 < n <= d
    ensures var ci := Route(kids, f);
            && InLost(Branch(kids), d, f, n, hi, g) == InLost(kids[ci].sub, d - 1, f, n, Up(kids, ci + 1, hi), g)
            && LostKey(Branch(kids), d, f, n) == LostKey(kids[ci].sub, d - 1, f, n)
  {
    hide RightKey;
  }

  /** One child replaced: what the node finds, by what the child finds. */
  lemma ReplaceFinds(kids: seq<Kid>, ci: nat, k: Kid, d: nat, lo: nat, hi: nat, cap: nat, g: nat, here: bool)
    requires KidsWf(kids, d, lo, hi, cap) && ci < |kids|
    requires !here ==> Find(Ents(k.sub), g) == Find(Ents(kids[ci].sub), g)
    requires here ==> Find(KidsEnts(kids[..ci]), g) == None && Find(KidsEnts(kids[ci + 1..]), g) == None
    ensures Find(KidsEnts(kids[ci := k]), g) == if here then Find(Ents(k.sub), g) else Find(KidsEnts(kids), g)
  {
    hide Find, KidsWf, Ents;
    KidsEntsSplit(kids, ci);
    assert kids[ci := k] == Splice(kids, ci, [k]);
    SpliceEnts(kids, ci, [k]);
    KidsEntsOne(k);
    var pre, post := KidsEnts(kids[..ci]), KidsEnts(kids[ci + 1..]);
    FindConcat(pre + Ents(kids[ci].sub), post, g);
    FindConcat(pre, Ents(kids[ci].sub), g);
    FindConcat(pre + Ents(k.sub), post, g);
    FindConcat(pre, Ents(k.sub), g);
  }

  /** Inside the range of child ci its neighbours do not answer. */
  lemma Neighbours(kids: seq<Kid>, ci: nat, d: nat, lo: nat, hi: nat, cap: nat, g: nat)
    requires KidsWf(kids, d, lo, hi, cap) && ci < |kids| && (ci == 0 || Key(kids[ci]) <= g) && g < Up(kids, ci + 1, hi)
    ensures Find(KidsEnts(kids[..ci]), g) == None && Find(KidsEnts(kids[ci + 1..]), g) == None
  {
    KidsWfSplit(kids, ci, d, lo, hi, cap);
    KidsWfSplit(kids, ci + 1, d, lo, hi, cap);
    KidsEntsSorted(kids[..ci], d, lo, Key(kids[ci]), cap);
    KidsEntsSorted(kids[ci + 1..], d, Up(kids, ci + 1, hi), hi, cap);
    if ci > 0 {
      FindBelow(KidsEnts(kids[..ci]), lo, Key(kids[ci]), g);
    }
    FindBelow(KidsEnts(kids[ci + 1..]), Up(kids, ci + 1, hi), hi, g);
  }

  /** What is kept finds every block outside the lost range as before, the new one included, and none inside. */
  lemma {:induction false} KeptFinds(t: Tree, d: nat, lo: nat, hi: nat, cap: nat, f: nat, p: nat, pool: seq<nat>,
                                     g: nat)
    requires Wf(t, d, lo, hi, cap, cap) && lo <= f < hi < U32 && 0 < p < U32 && 5 <= cap && HasDepth(t, d)
    requires Find(Ents(t), f) == None && Stops(InsNode(t, d, f, p, cap, pool), d, |pool|) && pool != []
    ensures lo <= LostKey(t, d, f, |pool|) && PathUp(t, d, f, |pool| - 1, hi) <= hi
    ensures Find(Ents(Kept(InsNode(t, d, f, p, cap, pool))), g) ==
            if InLost(t, d, f, |pool|, hi, g) then None else if g == f then Some(p) else Find(Ents(t), g)
    decreases t
  {
    hide InsNode, HasDepth, Find, KidsWf, Rejoin, InLost, LostKey, PathUp;
    var r := InsNode(t, d, f, p, cap, pool);
    PathAbove(t, d, lo, hi, cap, cap, f, |pool| - 1);
    if r.Split? {
      SplitFinds(t, d, lo, hi, cap, f, p, pool, g);
      SplitBound(t, d, lo, hi, cap, f, p, pool);
      LostHere(t, d, f, p, hi, g);
    } else {
      match t
      case Leaf(es) => LeafKept(es, f, p, cap, pool);
      case Branch(kids) =>
        var ci, up := DescendOk(kids, d - 1, lo, hi, cap, f);
        InsBranchIs(kids, d, f, p, cap, pool);
        var r0 := InsNode(kids[ci].sub, d - 1, f, p, cap, pool);
        StopsBelow(kids, ci, r0, d, cap, pool);
        KeptFinds(kids[ci].sub, d - 1, Min(f, Key(kids[ci])), up, cap, f, p, pool, g);
        PathStep(kids, d, f, p, |pool|, hi, g);
        LostIs(kids[ci].sub, d - 1, f, p, |pool|, up, g);
        LoBound(kids, ci, d - 1, lo, hi, cap);
        var here := g == f || InLost(t, d, f, |pool|, hi, g);
        if here {
          Neighbours(kids, ci, d - 1, lo, hi, cap, g);
        }
        ReplaceFinds(kids, ci, Kid(kids[ci].slot, Kept(r0)), d - 1, lo, hi, cap, g, here);
    }
  }

  lemma SplitBound(t: Tree, d: nat, lo: nat, hi: nat, cap: nat, f: nat, p: nat, pool: seq<nat>)
    requires Wf(t, d, lo, hi, cap, cap) && lo <= f < hi < U32 && 0 < p < U32 && 5 <= cap && HasDepth(t, d)
    requires Find(Ents(t), f) == None && InsNode(t, d, f, p, cap, pool).Split?
    ensures lo <= RightKey(t, f)
  {
    hide InsNode, HasDepth, Find, Wf, Ents, RightKey;
    InsNodeOk(t, d, lo, hi, cap, f, p, pool);
    RightKeyIs(t, d, lo, hi, cap, f, p, pool);
    var l, r := InsNode(t, d, f, p, cap, pool).l, InsNode(t, d, f, p, cap, pool).r;
    EntsSorted(l, d, lo, FirstKey(r), cap, cap);
    SortedLoHi(Ents(l), lo, FirstKey(r));
  }

  lemma LostHere(t: Tree, d: nat, f: nat, p: nat, hi: nat, g: nat)
    ensures LostKey(t, d, f, d + 1) == RightKey(t, f)
    ensures InLost(t, d, f, d + 1, hi, g) <==> RightKey(t, f) <= g < hi
  {
    hide RightKey;
  }

  lemma LostIs(t: Tree, d: nat, f: nat, p: nat, n: nat, hi: nat, g: nat)
    requires n > 0
    ensures InLost(t, d, f, n, hi, g) <==> LostKey(t, d, f, n) <= g < PathUp(t, d, f, n - 1, hi)
  {
  }

  lemma LoBound(kids: seq<Kid>, ci: nat, d: nat, lo: nat, hi: nat, cap: nat)
    requires KidsWf(kids, d, lo, hi, cap) && ci < |kids|
    ensures lo <= Key(kids[ci])
  {
    KidsWfSplit(kids, ci, d, lo, hi, cap);
    KidsLoHi(kids[..ci], d, lo, Key(kids[ci]), cap);
  }

  /** A failed `ext_insert` at an index root, unless the data block stayed in what is kept: exactly the
      blocks in the lost range are no longer found. */
  lemma LostLookups(t: Tree, f: nat, p: nat, cap: nat, pool: seq<nat>, g: nat)
    requires RootWf(t, cap) && HasDepth(t, Depth(t)) && f < U32 - 1 && 0 < p < U32 && 5 <= cap
    requires Lookup(t, f) == None && t.Branch? && pool != [] && InsRoot(t, f, p, cap, pool).Fail?
    requires !StaysLeft(t, Depth(t), f, |pool|)
    ensures Lookup(InsRoot(t, f, p, cap, pool).t, g) ==
            if InLost(t, Depth(t), f, |pool|, U32 - 1, g) then None else if g == f then Some(p) else Lookup(t, g)
  {
    hide InsNode, InsRoot, HasDepth, Find, KidsWf, RootRejoin, InLost, StaysLeft, Lookup, LostKey, PathUp;
    RootLookup(t, cap, f);
    RootLookup(t, cap, g);
    FailedRoot(t, f, p, cap, pool, 0);
    var s := InsRoot(t, f, p, cap, pool).t;
    RootLookup(s, cap, g);
    RootBounds(t, cap);
    InsRootBranchIs(t, f, p, cap, pool);
    var kids, d := t.kids, Depth(t) - 1;
    var ci, up := DescendOk(kids, d, 0, U32 - 1, cap, f);
    var r := InsNode(kids[ci].sub, d, f, p, cap, pool);
    RootStops(kids, ci, r, d + 1, pool);
    var k := if r.Fail? then Kid(kids[ci].slot, r.t) else Rekeyed(kids[ci], r.l);
    KeptFinds(kids[ci].sub, d, Min(f, Key(kids[ci])), up, cap, f, p, pool, g);
    RootFew(t, f, p, cap, pool);
    PathStep(kids, d + 1, f, p, |pool|, U32 - 1, g);
    LostIs(kids[ci].sub, d, f, p, |pool|, up, g);
    var here := g == f || InLost(t, d + 1, f, |pool|, U32 - 1, g);
    if here {
      Neighbours(kids, ci, d, 0, U32 - 1, cap, g);
    }
    ReplaceFinds(kids, ci, k, d, 0, U32 - 1, cap, g, here);
  }

  lemma RootFew(t: Tree, f: nat, p: nat, cap: nat, pool: seq<nat>)
    requires RootWf(t, cap) && HasDepth(t, Depth(t)) && t.Branch? && InsRoot(t, f, p, cap, pool).Fail?
    ensures |pool| <= Depth(t)
  {
    hide InsRoot, FullTo;
    InsertFailsIff(t, f, p, cap, pool);
  }

  // ----- appending

  /** Every extent lies before f. */
  predicate AllBefore(t: Tree, f: nat) {
    forall s | s in Ents(t) :: s.key < f
  }

  lemma KeysBefore(kids: seq<Kid>, d: nat, lo: nat, hi: nat, cap: nat, f: nat)
    requires KidsWf(kids, d, lo, hi, cap) && kids != [] && AllBefore(Branch(kids), f)
    ensures Route(kids, f) == |kids| - 1 && AllBefore(kids[|kids| - 1].sub, f)
  {
    var n := |kids| - 1;
    KidsEntsSplit(kids, n);
    KidsWfSplit(kids, n, d, lo, hi, cap);
    FirstIn(kids[n].sub, d, Key(kids[n]), Up(kids, n + 1, hi), cap);
  }

  /** The first key of a node is the key of an extent below it. */
  lemma {:induction false} FirstIn(t: Tree, d: nat, lo: nat, hi: nat, cap: nat)
    requires Wf(t, d, lo, hi, cap, cap)
    ensures exists s | s in Ents(t) :: s.key == FirstKey(t)
    decreases t
  {
    match t
    case Leaf(es) => assert es[0] in Ents(t);
    case Branch(kids) =>
      KidsWfSplit(kids, 0, d - 1, lo, hi, cap);
      FirstIn(kids[0].sub, d - 1, Key(kids[0]), Up(kids, 1, hi), cap);
      KidsEntsSplit(kids, 0);
      var s :| s in Ents(kids[0].sub) && s.key == FirstKey(kids[0].sub);
      assert s in Ents(t);
  }

  /** A block behind all others goes to the right half of every full node on its path. */
  lemma {:induction false} AppendsRight(t: Tree, d: nat, lo: nat, hi: nat, cap: nat, f: nat, p: nat, n: nat)
    requires Wf(t, d, lo, hi, cap, cap) && 5 <= cap && AllBefore(t, f) && FullTo(t, d, f, p, cap, n) && d <= n
    ensures !LandsLeft(t, f)
    decreases t
  {
    hide AllBefore, KidsWf;
    match t
    case Leaf(es) => LeafAppends(es, f, cap);
    case Branch(kids) =>
      KeysBefore(kids, d - 1, lo, hi, cap, f);
      KidsLast(kids, d - 1, lo, hi, cap);
      AppendsRight(kids[|kids| - 1].sub, d - 1, Key(kids[|kids| - 1]), hi, cap, f, p, n);
  }

  lemma LeafAppends(es: seq<Slot>, f: nat, cap: nat)
    requires AllBefore(Leaf(es), f) && |es| >= cap >= 5
    ensures !LandsLeft(Leaf(es), f)
  {
    assert Ents(Leaf(es)) == es;
    assert forall i | 0 <= i < |es| :: es[i] in es;
  }

  lemma KidsLast(kids: seq<Kid>, d: nat, lo: nat, hi: nat, cap: nat)
    requires KidsWf(kids, d, lo, hi, cap) && kids != []
    ensures Wf(kids[|kids| - 1].sub, d, Key(kids[|kids| - 1]), hi, cap, cap)
  {
    KidsWfSplit(kids, |kids| - 1, d, lo, hi, cap);
  }

  /** The node of the lost split on the path of f, when everything lies before f. */
  lemma {:induction false} PathAppends(t: Tree, d: nat, lo: nat, hi: nat, cap: nat, f: nat, p: nat, n: nat)
    requires Wf(t, d, lo, hi, cap, cap) && 5 <= cap && AllBefore(t, f) && FullTo(t, d, f, p, cap, n) && n > 0
    ensures !StaysLeft(t, d, f, n)
    decreases t
  {
    hide AllBefore, KidsWf, LandsLeft, FullTo;
    if t.Leaf? || d < n {
      PathHere(t, d, f, n);
      AppendsRight(t, d, lo, hi, cap, f, p, n);
    } else {
      var kids := t.kids;
      FullIs(kids, d, f, p, cap, n);
      KeysBefore(kids, d - 1, lo, hi, cap, f);
      KidsLast(kids, d - 1, lo, hi, cap);
      PathBelow(kids, d, f, n);
      PathAppends(kids[|kids| - 1].sub, d - 1, Key(kids[|kids| - 1]), hi, cap, f, p, n);
    }
  }

  lemma PathHere(t: Tree, d: nat, f: nat, n: nat)
    requires n > 0 && (t.Leaf? || d < n)
    ensures StaysLeft(t, d, f, n) == LandsLeft(t, f)
  {
  }

  /** So a failed append never leaves its data block mapped. */
  lemma RootAppends(t: Tree, f: nat, p: nat, cap: nat, n: nat)
    requires RootWf(t, cap) && t.Branch? && 5 <= cap && AllBefore(t, f) && RootFull(t, f, p, cap, n) && n > 0
    ensures !StaysLeft(t, Depth(t), f, n)
  {
    hide AllBefore, KidsWf, LandsLeft, FullTo, StaysLeft;
    RootBounds(t, cap);
    var kids, d := t.kids, Depth(t) - 1;
    KeysBefore(kids, d, 0, U32 - 1, cap, f);
    KidsLast(kids, d, 0, U32 - 1, cap);
    PathBelow(kids, d + 1, f, n);
    PathAppends(kids[|kids| - 1].sub, d, Key(kids[|kids| - 1]), U32 - 1, cap, f, p, n);
  }
}
