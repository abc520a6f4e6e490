/** How many extents an insertion adds: none if an extent of the leaf on the path of the block can be
    lengthened, else one (kernel/fs/ext4.c:910-939). */
module ExtentCount {
  import opened Words
  import opened Extents
  import opened ExtentTree
  import opened ExtentBlocks
  import opened FailedInsert
  import L = LostRange

  /** The leaf that the search for f leads to. */
  function PathLeaf(t: Tree, f: nat): seq<Slot>
    decreases t
  {
    match t
    case Leaf(es) => es
    case Branch(kids) => if kids == [] then [] else PathLeaf(kids[Route(kids, f)].sub, f)
  }

  /** An extent that ends where f begins, in file and on disk, and can be longer; or one that begins
      behind f, in the leaf that f leads to. */
  predicate Joinable(t: Tree, f: nat, p: nat) {
    exists s | s in Ents(t) ::
      && Len(s) < INIT_MAX
      && ((s.key + Len(s) == f && Add32(s.addr, Len(s)) == p)
          || (s.key == f + 1 && s.addr == Add32(p, 1) && PathLeaf(t, f) == PathLeaf(t, f + 1)))
  }

  // ----- extents and paths

  lemma {:induction false} InSorted(es: seq<Slot>, lo: nat, hi: nat, s: Slot)
    requires SortedIn(es, lo, hi) && s in es
    ensures SlotWf(s) && lo <= s.key && s.key + Len(s) <= hi
  {
    if s == es[0] {
      SortedLoHi(es[1..], es[0].key + Len(es[0]), hi);
    } else {
      InSorted(es[1..], es[0].key + Len(es[0]), hi, s);
    }
  }

  lemma InTree(t: Tree, d: nat, lo: nat, hi: nat, cap: nat, s: Slot)
    requires Wf(t, d, lo, hi, cap, cap) && s in Ents(t)
    ensures SlotWf(s) && lo <= s.key && s.key + Len(s) <= hi
  {
    EntsSorted(t, d, lo, hi, cap, cap);
    InSorted(Ents(t), lo, hi, s);
  }

  lemma {:induction false} KidOf(kids: seq<Kid>, s: Slot) returns (x: nat)
    requires s in KidsEnts(kids)
    ensures x < |kids| && s in Ents(kids[x].sub)
  {
    if s in Ents(kids[0].sub) {
      x := 0;
    } else {
      x := KidOf(kids[1..], s);
      x := x + 1;
    }
  }

  lemma KidIn(kids: seq<Kid>, x: nat, s: Slot)
    requires x < |kids| && s in Ents(kids[x].sub)
    ensures s in KidsEnts(kids)
  {
    KidsEntsSplit(kids, x);
  }

  lemma {:induction false} PathIn(t: Tree, f: nat, s: Slot)
    requires s in PathLeaf(t, f)
    ensures s in Ents(t)
    decreases t
  {
    if t.Branch? {
      PathIn(t.kids[Route(t.kids, f)].sub, f, s);
      KidIn(t.kids, Route(t.kids, f), s);
    }
  }

  /** Keys of children in order. */
  lemma {:induction false} KeysIncrease(kids: seq<Kid>, d: nat, lo: nat, hi: nat, cap: nat, x: nat, y: nat)
    requires KidsWf(kids, d, lo, hi, cap) && x < y < |kids|
    ensures Up(kids, x + 1, hi) <= Key(kids[y])
    decreases y
  {
    hide KidsWf;
    if x + 1 < y {
      KeysIncrease(kids, d, lo, hi, cap, x, y - 1);
      KidsWfSplit(kids, y - 1, d, lo, hi, cap);
      EntsSorted(kids[y - 1].sub, d, Key(kids[y - 1]), Up(kids, y, hi), cap, cap);
      SortedLoHi(Ents(kids[y - 1].sub), Key(kids[y - 1]), Up(kids, y, hi));
    }
  }

  lemma NotCovered(es: seq<Slot>, lo: nat, hi: nat, f: nat, s: Slot)
    requires SortedIn(es, lo, hi) && s in es && Find(es, f) == None
    ensures !(s.key <= f < s.key + Len(s))
  {
    FindNone(es, f);
    InSorted(es, lo, hi, s);
    var i :| 0 <= i < |es| && es[i] == s;
    assert !Covers(es[i], f);
  }

  /** An extent that ends where the unmapped block f begins is in the leaf f leads to. */
  lemma {:induction false} EndsOnPath(t: Tree, d: nat, lo: nat, hi: nat, top: nat, cap: nat, f: nat, s: Slot)
    requires Wf(t, d, lo, hi, top, cap) && Find(Ents(t), f) == None && s in Ents(t) && s.key + Len(s) == f
    ensures s in PathLeaf(t, f)
    decreases t
  {
    if t.Branch? {
      hide KidsWf, Wf, Find, PathLeaf, SlotWf, Ents;
      var kids, ci := t.kids, Route(t.kids, f);
      BranchWf(kids, d, lo, hi, top, cap);
      BranchEnts(kids);
      PathStep(kids, f);
      EndsIn(kids, d - 1, lo, hi, cap, f, s);
      KidsWfSplit(kids, ci, d - 1, lo, hi, cap);
      EndsOnPath(kids[ci].sub, d - 1, Key(kids[ci]), Up(kids, ci + 1, hi), cap, cap, f, s);
    }
  }

  lemma BranchWf(kids: seq<Kid>, d: nat, lo: nat, hi: nat, top: nat, cap: nat)
    requires Wf(Branch(kids), d, lo, hi, top, cap)
    ensures kids != [] && d > 0 && KidsWf(kids, d - 1, lo, hi, cap)
  {
  }

  lemma EndsIn(kids: seq<Kid>, d: nat, lo: nat, hi: nat, cap: nat, f: nat, s: Slot)
    requires kids != [] && KidsWf(kids, d, lo, hi, cap) && Find(KidsEnts(kids), f) == None
    requires s in KidsEnts(kids) && s.key + Len(s) == f
    ensures var sub := kids[Route(kids, f)].sub; s in Ents(sub) && Find(Ents(sub), f) == None
  {
    hide KidsWf, Wf, Find, Ents, KidsEnts;
    var ci := Route(kids, f);
    var x := KidOf(kids, s);
    KidsWfSplit(kids, x, d, lo, hi, cap);
    InTree(kids[x].sub, d, Key(kids[x]), Up(kids, x + 1, hi), cap, s);
    if x < ci {
      KeysIncrease(kids, d, lo, hi, cap, x, ci);
      StartsAt(kids, d, lo, hi, cap, ci, f);
    }
    KidsEntsSplit(kids, ci);
    FindConcat(KidsEnts(kids[..ci]) + Ents(kids[ci].sub), KidsEnts(kids[ci + 1..]), f);
    FindConcat(KidsEnts(kids[..ci]), Ents(kids[ci].sub), f);
  }

  /** No child begins with an unmapped block. */
  lemma StartsAt(kids: seq<Kid>, d: nat, lo: nat, hi: nat, cap: nat, ci: nat, f: nat)
    requires ci < |kids| && KidsWf(kids, d, lo, hi, cap) && Find(KidsEnts(kids), f) == None
    ensures Key(kids[ci]) != f
  {
    hide KidsWf, Wf, Find, Ents, KidsEnts;
    KidsWfSplit(kids, ci, d, lo, hi, cap);
    L.FirstIn(kids[ci].sub, d, Key(kids[ci]), Up(kids, ci + 1, hi), cap);
    var r :| r in Ents(kids[ci].sub) && r.key == FirstKey(kids[ci].sub);
    KidIn(kids, ci, r);
    KidsEntsSorted(kids, d, lo, hi, cap);
    InSorted(KidsEnts(kids), lo, hi, r);
    NotCovered(KidsEnts(kids), lo, hi, f, r);
  }

  /** An extent that begins behind f is in the leaf f leads to if and only if that is the leaf f + 1 leads to. */
  lemma {:induction false} StartsOnPath(t: Tree, d: nat, lo: nat, hi: nat, top: nat, cap: nat, f: nat, s: Slot)
    requires Wf(t, d, lo, hi, top, cap) && s in Ents(t) && s.key == f + 1
    ensures s in PathLeaf(t, f + 1)
    ensures s in PathLeaf(t, f) <==> PathLeaf(t, f) == PathLeaf(t, f + 1)
    decreases t
  {
    if t.Branch? {
      hide KidsWf, Wf, PathLeaf, SlotWf, Len, Ents, Route;
      var kids, a, b := t.kids, Route(t.kids, f), Route(t.kids, f + 1);
      BranchWf(kids, d, lo, hi, top, cap);
      BranchEnts(kids);
      PathStep(kids, f);
      PathStep(kids, f + 1);
      StartsIn(kids, d - 1, lo, hi, cap, f, s);
      KidsWfSplit(kids, b, d - 1, lo, hi, cap);
      StartsOnPath(kids[b].sub, d - 1, Key(kids[b]), Up(kids, b + 1, hi), cap, cap, f, s);
      if a != b {
        OtherChild(kids, d - 1, lo, hi, cap, f, s);
        if s in PathLeaf(kids[a].sub, f) {
          PathIn(kids[a].sub, f, s);
        }
      }
    }
  }

  lemma OtherChild(kids: seq<Kid>, d: nat, lo: nat, hi: nat, cap: nat, f: nat, s: Slot)
    requires kids != [] && KidsWf(kids, d, lo, hi, cap) && s.key == f + 1 && Route(kids, f) != Route(kids, f + 1)
    ensures s !in Ents(kids[Route(kids, f)].sub)
  {
    hide KidsWf, Wf, Ents;
    var a, b := Route(kids, f), Route(kids, f + 1);
    assert a < b;
    KeysIncrease(kids, d, lo, hi, cap, a, b);
    KidsWfSplit(kids, a, d, lo, hi, cap);
    if s in Ents(kids[a].sub) {
      InTree(kids[a].sub, d, Key(kids[a]), Up(kids, a + 1, hi), cap, s);
    }
  }

  lemma PathStep(kids: seq<Kid>, f: nat)
    requires kids != []
    ensures PathLeaf(Branch(kids), f) == PathLeaf(kids[Route(kids, f)].sub, f)
  {
  }

  /** An extent is below the child that its first block leads to. */
  lemma StartsIn(kids: seq<Kid>, d: nat, lo: nat, hi: nat, cap: nat, f: nat, s: Slot)
    requires kids != [] && KidsWf(kids, d, lo, hi, cap) && s in KidsEnts(kids) && s.key == f + 1
    ensures s in Ents(kids[Route(kids, f + 1)].sub)
  {
    hide KidsWf, Wf, Ents, KidsEnts, SlotWf, Len;
    var x := KidOf(kids, s);
    var b := Route(kids, f + 1);
    KidsWfSplit(kids, x, d, lo, hi, cap);
    InTree(kids[x].sub, d, Key(kids[x]), Up(kids, x + 1, hi), cap, s);
    if x < b {
      KeysIncrease(kids, d, lo, hi, cap, x, b);
    }
  }

  // ----- the count

  lemma {:induction false} InsCount(t: Tree, d: nat, lo: nat, hi: nat, cap: nat, f: nat, p: nat, pool: seq<nat>)
    requires Wf(t, d, lo, hi, cap, cap) && HasDepth(t, d)
    ensures var r := InsNode(t, d, f, p, cap, pool);
            var n := |Ents(t)| + One(NeedsEntry(PathLeaf(t, f), f, p));
            (r.Done? ==> |Ents(r.t)| == n) && (r.Split? ==> |Ents(r.l)| + |Ents(r.r)| == n)
    ensures !NeedsEntry(PathLeaf(t, f), f, p) ==>
              InsNode(t, d, f, p, cap, pool).Done? && Taken(t, d, f, p, cap, pool) == 0
    decreases t
  {
    match t
    case Leaf(es) =>
      hide NeedsEntry, LeafPut;
      PutCount(es, lo, hi, f, p);
    case Branch(kids) =>
      hide InsNode, Taken, NeedsEntry, PathLeaf, KidsWf, HasDepth, Rejoin;
      var ci := Route(kids, f);
      PathStep(kids, f);
      InsBranchIs(kids, d, f, p, cap, pool);
      TakenIs(kids, d, f, p, cap, pool);
      KidsWfSplit(kids, ci, d - 1, lo, hi, cap);
      InsCount(kids[ci].sub, d - 1, Key(kids[ci]), Up(kids, ci + 1, hi), cap, f, p, pool);
      RejoinCount(kids, ci, InsNode(kids[ci].sub, d - 1, f, p, cap, pool), d, cap, pool);
  }

  lemma RejoinCount(kids: seq<Kid>, ci: nat, r: Ins, d: nat, cap: nat, pool: seq<nat>)
    requires ci < |kids| && d > 0 && (r.Split? ==> d - 1 < |pool|) && (r.Fail? ==> |pool| <= d)
    ensures var q := Rejoin(kids, ci, r, d, cap, pool);
            var rest := |KidsEnts(kids)| - |Ents(kids[ci].sub)|;
            && (r.Done? ==> q.Done? && |Ents(q.t)| == rest + |Ents(r.t)|)
            && (r.Split? && q.Done? ==> |Ents(q.t)| == rest + |Ents(r.l)| + |Ents(r.r)|)
            && (q.Split? ==> r.Split? && |Ents(q.l)| + |Ents(q.r)| == rest + |Ents(r.l)| + |Ents(r.r)|)
  {
    hide Ents;
    if !r.Fail? {
      KidsEntsSplit(kids, ci);
      var mid := Mid(kids[ci], r, if r.Split? then pool[d - 1] else 0);
      MidCount(kids[ci], r, if r.Split? then pool[d - 1] else 0);
      var all := Splice(kids, ci, mid);
      SpliceEnts(kids, ci, mid);
      BranchEnts(all);
      var h := Half(|all|);
      if h <= |all| {
        assert all == all[..h] + all[h..];
        KidsEntsConcat(all[..h], all[h..]);
        BranchEnts(all[..h]);
        BranchEnts(all[h..]);
      }
    }
  }

  lemma BranchEnts(kids: seq<Kid>)
    ensures Ents(Branch(kids)) == KidsEnts(kids)
  {
  }

  lemma MidCount(k: Kid, r: Ins, b: nat)
    requires !r.Fail?
    ensures |KidsEnts(Mid(k, r, b))| == if r.Done? then |Ents(r.t)| else |Ents(r.l)| + |Ents(r.r)|
  {
    hide Ents;
    var mid := Mid(k, r, b);
    KidsEntsOne(mid[0]);
    if r.Split? {
      assert mid == [mid[0]] + [mid[1]];
      KidsEntsConcat([mid[0]], [mid[1]]);
      KidsEntsOne(mid[1]);
    }
  }

  /** Read off the leaf that f leads to: whether the insertion adds an extent; and if it does not, it
      succeeds whatever blocks are free, and takes none. */
  lemma RootCount(t: Tree, f: nat, p: nat, cap: nat, pool: seq<nat>)
    requires RootWf(t, cap) && HasDepth(t, Depth(t))
    ensures var r := InsRoot(t, f, p, cap, pool);
            r.Done? ==> |Ents(r.t)| == |Ents(t)| + One(NeedsEntry(PathLeaf(t, f), f, p))
    ensures !NeedsEntry(PathLeaf(t, f), f, p) ==>
              InsRoot(t, f, p, cap, pool).Done? && RootTaken(t, f, p, cap, pool) == 0
  {
    match t
    case Leaf(es) => RootLeafCount(es, f, p, cap, pool);
    case Branch(kids) =>
      hide InsNode, InsRoot, Taken, RootTaken, NeedsEntry, PathLeaf, KidsWf, HasDepth;
      RootBounds(t, cap);
      var ci, d := Route(kids, f), Depth(t);
      PathStep(kids, f);
      InsRootBranchIs(t, f, p, cap, pool);
      RootTakenIs(t, f, p, cap, pool);
      KidsWfSplit(kids, ci, d - 1, 0, U32 - 1, cap);
      InsCount(kids[ci].sub, d - 1, Key(kids[ci]), Up(kids, ci + 1, U32 - 1), cap, f, p, pool);
      RootRejoinCount(kids, ci, InsNode(kids[ci].sub, d - 1, f, p, cap, pool), d, pool);
  }

  lemma RootLeafCount(es: seq<Slot>, f: nat, p: nat, cap: nat, pool: seq<nat>)
    requires RootWf(Leaf(es), cap)
    ensures var r := InsRoot(Leaf(es), f, p, cap, pool);
            r.Done? ==> |Ents(r.t)| == |es| + One(NeedsEntry(es, f, p))
    ensures !NeedsEntry(es, f, p) ==>
              InsRoot(Leaf(es), f, p, cap, pool).Done? && RootTaken(Leaf(es), f, p, cap, pool) == 0
  {
    if es == [] {
      assert LeafPut([], f, p) == [NewExtent(f, p)];
    } else {
      hide NeedsEntry, LeafPut;
      PutCount(es, 0, U32 - 1, f, p);
      var es' := LeafPut(es, f, p);
      var h := Half(|es'|);
      var l, r := Leaf(es'[..h]), Leaf(es'[h..]);
      if |es'| > ROOT_MAX && |pool| >= 2 {
        var x, y := Kid(NewIndex(FirstKey(l), pool[1]), l), Kid(NewIndex(FirstKey(r), pool[0]), r);
        assert [x, y] == [x] + [y];
        KidsEntsConcat([x], [y]);
        KidsEntsOne(x);
        KidsEntsOne(y);
      }
    }
  }

  lemma RootRejoinCount(kids: seq<Kid>, ci: nat, r: Ins, d: nat, pool: seq<nat>)
    requires ci < |kids| && d > 0 && (r.Split? ==> d - 1 < |pool|)
    ensures var q := RootRejoin(kids, ci, r, d, pool);
            var rest := |KidsEnts(kids)| - |Ents(kids[ci].sub)|;
            && (r.Done? ==> q.Done? && |Ents(q.t)| == rest + |Ents(r.t)|)
            && (q.Done? ==> !r.Fail?)
            && (r.Split? && q.Done? ==> |Ents(q.t)| == rest + |Ents(r.l)| + |Ents(r.r)|)
  {
    hide Ents;
    if !r.Fail? {
      KidsEntsSplit(kids, ci);
      var mid := Mid(kids[ci], r, if r.Split? then pool[d - 1] else 0);
      MidCount(kids[ci], r, if r.Split? then pool[d - 1] else 0);
      var all := Splice(kids, ci, mid);
      SpliceEnts(kids, ci, mid);
      BranchEnts(all);
      if r.Split? && |pool| > d {
        var top := Kid(NewIndex(FirstKey(Branch(all)), pool[d]), Branch(all));
        KidsEntsOne(top);
        BranchEnts([top]);
      }
    }
  }

  /** The condition in terms of all extents of the file. */
  lemma NeedsIff(t: Tree, cap: nat, f: nat, p: nat)
    requires RootWf(t, cap) && Lookup(t, f) == None
    ensures NeedsEntry(PathLeaf(t, f), f, p) <==> !Joinable(t, f, p)
  {
    hide Lookup, Find, PathLeaf, Len;
    RootLookup(t, cap, f);
    if t == Leaf([]) {
      assert PathLeaf(t, f) == [] by { EmptyPath(f); }
    } else {
      EntsSorted(t, Depth(t), 0, U32 - 1, ROOT_MAX, cap);
      forall s | s in PathLeaf(t, f) ensures s in Ents(t) && !(s.key <= f < s.key + Len(s)) {
        PathIn(t, f, s);
        NotCovered(Ents(t), 0, U32 - 1, f, s);
      }
      forall s | s in Ents(t)
        ensures s.key + Len(s) == f ==> s in PathLeaf(t, f)
        ensures s.key == f + 1 ==> (s in PathLeaf(t, f) <==> PathLeaf(t, f) == PathLeaf(t, f + 1))
      {
        if s.key + Len(s) == f {
          EndsOnPath(t, Depth(t), 0, U32 - 1, ROOT_MAX, cap, f, s);
        }
        if s.key == f + 1 {
          StartsOnPath(t, Depth(t), 0, U32 - 1, ROOT_MAX, cap, f, s);
        }
      }
    }
  }

  lemma EmptyPath(f: nat)
    ensures PathLeaf(Leaf([]), f) == []
  {
  }

  /** An insertion of an unmapped block lengthens an extent if one can take the block, and then succeeds
      whatever blocks are free and takes none; otherwise, if it succeeds, the file has one extent more. */
  lemma JoinsOrAdds(t: Tree, f: nat, p: nat, cap: nat, pool: seq<nat>)
    requires RootWf(t, cap) && HasDepth(t, Depth(t)) && Lookup(t, f) == None
    ensures var r := InsRoot(t, f, p, cap, pool);
            if Joinable(t, f, p) then r.Done? && RootTaken(t, f, p, cap, pool) == 0 && |Ents(r.t)| == |Ents(t)|
            else r.Done? ==> |Ents(r.t)| == |Ents(t)| + 1
  {
    hide RootWf, HasDepth, Lookup, InsRoot, RootTaken, Joinable, NeedsEntry, PathLeaf, Ents;
    NeedsIff(t, cap, f, p);
    RootCount(t, f, p, cap, pool);
  }

  // ----- halves

  function Size(t: Tree): nat {
    match t
    case Leaf(es) => |es|
    case Branch(kids) => |kids|
  }

  predicate Even(l: Tree, r: Tree) { Size(r) <= Size(l) <= Size(r) + 1 }

  /** A split leaves as many entries on the left as on the right, or one more. */
  lemma SplitsEvenly(t: Tree, d: nat, f: nat, p: nat, cap: nat, pool: seq<nat>)
    requires HasDepth(t, d)
    ensures var r := InsNode(t, d, f, p, cap, pool); r.Split? ==> Even(r.l, r.r)
  {
    match t
    case Leaf(es) =>
    case Branch(kids) =>
      if kids != [] {
        hide InsNode;
        InsBranchIs(kids, d, f, p, cap, pool);
      }
  }

  /** So does a root leaf that moves out of the inode. */
  lemma RootSplitsEvenly(es: seq<Slot>, f: nat, p: nat, cap: nat, pool: seq<nat>)
    requires HasDepth(Leaf(es), 0)
    ensures var r := InsRoot(Leaf(es), f, p, cap, pool);
            r.t.Branch? ==> |r.t.kids| == 2 && Even(r.t.kids[0].sub, r.t.kids[1].sub)
  {
  }

  // ----- across leaves

  lemma OneSorted(s: Slot, lo: nat, hi: nat)
    requires SlotWf(s) && lo <= s.key && s.key + Len(s) <= hi
    ensures SortedIn([s], lo, hi)
  {
    assert [s][1..] == [];
    assert SortedIn([], s.key + Len(s), hi);
  }

  /** Two leaves; the second begins with file block 11 in disk block 111. */
  function TwoLeaves(): Tree {
    Branch([Kid(NewIndex(0, 1), Leaf([Slot(0, 1, 50)])), Kid(NewIndex(11, 2), Leaf([Slot(11, 1, 111)]))])
  }

  /** An extent that begins behind f but in the next leaf is not started earlier. */
  lemma NotAcross(cap: nat, pool: seq<nat>)
    requires cap >= 5
    ensures var t := TwoLeaves();
            && RootWf(t, cap) && HasDepth(t, Depth(t)) && Lookup(t, 10) == None
            && Slot(11, 1, 111) in Ents(t) && !Joinable(t, 10, 110)
            && InsRoot(t, 10, 110, cap, pool).Done? && |Ents(InsRoot(t, 10, 110, cap, pool).t)| == |Ents(t)| + 1
  {
    var t := TwoLeaves();
    var l, r := Leaf([Slot(0, 1, 50)]), Leaf([Slot(11, 1, 111)]);
    OneSorted(Slot(0, 1, 50), 0, 11);
    OneSorted(Slot(11, 1, 111), 11, U32 - 1);
    TwoKids(t.kids[0], t.kids[1], 0, 0, U32 - 1, cap);
    RootDepth(t, cap);
    assert Ents(t) == [Slot(0, 1, 50), Slot(11, 1, 111)];
    assert PathLeaf(t, 10) == [Slot(0, 1, 50)] && PathLeaf(t, 11) == [Slot(11, 1, 111)];
    assert !RootFull(t, 10, 110, cap, |pool|);
    InsertFailsIff(t, 10, 110, cap, pool);
    JoinsOrAdds(t, 10, 110, cap, pool);
  }
}
