/** What an insertion that runs out of blocks leaves behind (kernel/fs/ext4.c:981-985,
    1203-1206, 1262-1266): the code does not roll a child's split back, so exactly when some
    level has already split, the right half of that split is no longer reachable. */
module ExtentFailure {
  import opened Words
  import opened Extents
  import opened ExtentTree

  /** Block g was mapped before and is not mapped after. */
  predicate Lost(before: seq<Slot>, after: seq<Slot>, g: nat) {
    Find(before, g).Some? && Find(after, g) == None
  }

  lemma FindBetween(pre: seq<Slot>, m: seq<Slot>, post: seq<Slot>, g: nat)
    requires Find(pre, g) == None && Find(post, g) == None
    ensures Find(pre + m + post, g) == Find(m, g)
  {
    FindConcat(pre + m, post, g);
    FindConcat(pre, m, g);
  }

  /** On any tree, lookup answers only from the extents below it. */
  lemma {:induction false} LookupWithin(t: Tree, g: nat)
    requires Lookup(t, g).Some?
    ensures Find(Ents(t), g).Some?
    decreases t
  {
    if t.Branch? {
      var ci := Route(t.kids, g);
      LookupWithin(t.kids[ci].sub, g);
      KidsEntsSplit(t.kids, ci);
      FindConcat(KidsEnts(t.kids[..ci]) + Ents(t.kids[ci].sub), KidsEnts(t.kids[ci + 1..]), g);
      FindConcat(KidsEnts(t.kids[..ci]), Ents(t.kids[ci].sub), g);
    }
  }

  lemma FindKey(es: seq<Slot>, i: nat, lo: nat, hi: nat)
    requires SortedIn(es, lo, hi) && i < |es|
    ensures Find(es, es[i].key).Some? && lo <= es[i].key < hi
  {
    SortedSplit(es, i, lo, hi);
    FindBelow(es[..i], lo, EndBefore(es, i, lo), es[i].key);
    assert es == es[..i] + es[i..];
    FindConcat(es[..i], es[i..], es[i].key);
    SortedSplit(es, i + 1, lo, hi);
    SortedLoHi(es[i + 1..], EndBefore(es, i + 1, lo), hi);
    SortedLoHi(es[..i], lo, EndBefore(es, i, lo));
  }

  /** A sorted list of two extents maps some block other than f. */
  lemma OtherMapped(es: seq<Slot>, lo: nat, hi: nat, f: nat) returns (g: nat)
    requires SortedIn(es, lo, hi) && |es| >= 2
    ensures g != f && Find(es, g).Some? && lo <= g < hi
  {
    FindKey(es, 0, lo, hi);
    FindKey(es, 1, lo, hi);
    SortedSplit(es, 1, lo, hi);
    g := if es[0].key != f then es[0].key else es[1].key;
  }

  lemma {:induction false} SomeEnt(t: Tree, d: nat, lo: nat, hi: nat, top: nat, cap: nat)
    requires Wf(t, d, lo, hi, top, cap)
    ensures |Ents(t)| >= 1
    decreases t
  {
    if t.Branch? {
      KidsWfSplit(t.kids, 0, d - 1, lo, hi, cap);
      SomeEnt(t.kids[0].sub, d - 1, Key(t.kids[0]), Up(t.kids, 1, hi), cap, cap);
      KidsEntsSplit(t.kids, 0);
    }
  }

  lemma TwoEnts(kids: seq<Kid>, d: nat, lo: nat, hi: nat, cap: nat)
    requires KidsWf(kids, d, lo, hi, cap) && |kids| >= 2
    ensures |KidsEnts(kids)| >= 2
  {
    KidsWfSplit(kids, 0, d, lo, hi, cap);
    KidsWfSplit(kids, 1, d, lo, hi, cap);
    SomeEnt(kids[0].sub, d, Key(kids[0]), Up(kids, 1, hi), cap, cap);
    SomeEnt(kids[1].sub, d, Key(kids[1]), Up(kids, 2, hi), cap, cap);
    KidsEntsSplit(kids, 0);
    KidsEntsSplit(kids[1..], 0);
  }

  /** The right half of every split holds at least two extents. */
  lemma RightHalf(t: Tree, d: nat, lo: nat, hi: nat, cap: nat, f: nat, p: nat, pool: seq<nat>)
    requires Wf(t, d, lo, hi, cap, cap) && lo <= f < hi < U32 && 0 < p < U32 && 5 <= cap && HasDepth(t, d)
    requires Find(Ents(t), f) == None && InsNode(t, d, f, p, cap, pool).Split?
    ensures var r := InsNode(t, d, f, p, cap, pool).r;
            |Ents(r)| >= 2 && SortedIn(Ents(r), FirstKey(r), hi)
  {
    InsNodeOk(t, d, lo, hi, cap, f, p, pool);
    var r := InsNode(t, d, f, p, cap, pool).r;
    EntsSorted(r, d, FirstKey(r), hi, cap, cap);
    if r.Branch? {
      RightKids(t, d, f, p, cap, pool);
      TwoEnts(r.kids, d - 1, FirstKey(r), hi, cap);
    }
  }

  lemma RightKids(t: Tree, d: nat, f: nat, p: nat, cap: nat, pool: seq<nat>)
    requires HasDepth(t, d) && InsNode(t, d, f, p, cap, pool).Split? && t.Branch? && 5 <= cap
    ensures InsNode(t, d, f, p, cap, pool).r.Branch? && |InsNode(t, d, f, p, cap, pool).r.kids| >= 2
  {
  }

  /** A block that child ci maps is mapped by no other child. */
  lemma OnlyIn(kids: seq<Kid>, ci: nat, d: nat, lo: nat, hi: nat, cap: nat, g: nat)
    requires KidsWf(kids, d, lo, hi, cap) && ci < |kids| && Find(Ents(kids[ci].sub), g).Some?
    ensures Find(KidsEnts(kids[..ci]), g) == None && Find(KidsEnts(kids[ci + 1..]), g) == None
  {
    var up := Up(kids, ci + 1, hi);
    KidsWfSplit(kids, ci, d, lo, hi, cap);
    KidsWfSplit(kids, ci + 1, d, lo, hi, cap);
    EntsSorted(kids[ci].sub, d, Key(kids[ci]), up, cap, cap);
    KidsEntsSorted(kids[..ci], d, lo, Key(kids[ci]), cap);
    KidsEntsSorted(kids[ci + 1..], d, up, hi, cap);
    if g < Key(kids[ci]) || up <= g {
      FindBelow(Ents(kids[ci].sub), Key(kids[ci]), up, g);
    }
    FindBelow(KidsEnts(kids[..ci]), lo, Key(kids[ci]), g);
    FindBelow(KidsEnts(kids[ci + 1..]), up, hi, g);
  }

  /** Child ci lost g, so the node did. */
  lemma LostAbove(kids: seq<Kid>, ci: nat, d: nat, lo: nat, hi: nat, cap: nat, k: Kid, g: nat)
    requires KidsWf(kids, d, lo, hi, cap) && ci < |kids| && Lost(Ents(kids[ci].sub), Ents(k.sub), g)
    ensures Lost(KidsEnts(kids), KidsEnts(kids[ci := k]), g)
  {
    OnlyIn(kids, ci, d, lo, hi, cap, g);
    KidsEntsSplit(kids, ci);
    assert kids[ci := k] == Splice(kids, ci, [k]);
    SpliceEnts(kids, ci, [k]);
    KidsEntsOne(k);
    FindBetween(KidsEnts(kids[..ci]), Ents(kids[ci].sub), KidsEnts(kids[ci + 1..]), g);
    FindBetween(KidsEnts(kids[..ci]), Ents(k.sub), KidsEnts(kids[ci + 1..]), g);
  }

  /** A split whose right half is dropped loses a block that was mapped. */
  lemma SplitLoses(t: Tree, d: nat, lo: nat, hi: nat, cap: nat, f: nat, p: nat, pool: seq<nat>) returns (g: nat)
    requires Wf(t, d, lo, hi, cap, cap) && lo <= f < hi < U32 && 0 < p < U32 && 5 <= cap && HasDepth(t, d)
    requires Find(Ents(t), f) == None && InsNode(t, d, f, p, cap, pool).Split?
    ensures Lost(Ents(t), Ents(InsNode(t, d, f, p, cap, pool).l), g)
  {
    InsNodeOk(t, d, lo, hi, cap, f, p, pool);
    RightHalf(t, d, lo, hi, cap, f, p, pool);
    var l, r := InsNode(t, d, f, p, cap, pool).l, InsNode(t, d, f, p, cap, pool).r;
    g := OtherMapped(Ents(r), FirstKey(r), hi, f);
    EntsSorted(l, d, lo, FirstKey(r), cap, cap);
    FindBelow(Ents(l), lo, FirstKey(r), g);
    FindConcat(Ents(l), Ents(r), g);
    assert Find(Ents(t), g).Some? && Find(Ents(l), g) == None;
  }

  /** A failure below the root: nothing changed if no block was left at all, and something
      mapped is lost otherwise. */
  lemma {:induction false} NodeFailure(t: Tree, d: nat, lo: nat, hi: nat, cap: nat, f: nat, p: nat, pool: seq<nat>)
    returns (g: nat)
    requires Wf(t, d, lo, hi, cap, cap) && lo <= f < hi < U32 && 0 < p < U32 && 5 <= cap && HasDepth(t, d)
    requires Find(Ents(t), f) == None && InsNode(t, d, f, p, cap, pool).Fail?
    ensures Failed(t, InsNode(t, d, f, p, cap, pool).t, pool, g)
    decreases t
  {
    hide InsNode, Find, Failed, HasDepth, KidsWf;
    match t
    case Leaf(es) =>
      g := 0;
      LeafFailure(es, f, p, cap, pool);
    case Branch(kids) =>
      var ci, up := DescendOk(kids, d - 1, lo, hi, cap, f);
      SubDepth(kids, d, ci);
      var sub := kids[ci].sub;
      var g0 := 0;
      if InsNode(sub, d - 1, f, p, cap, pool).Fail? {
        g0 := NodeFailure(sub, d - 1, Min(f, Key(kids[ci])), up, cap, f, p, pool);
      }
      g := NodeStep(kids, d, lo, hi, cap, f, p, pool, ci, up, g0);
  }

  lemma LeafFailure(es: seq<Slot>, f: nat, p: nat, cap: nat, pool: seq<nat>)
    requires InsNode(Leaf(es), 0, f, p, cap, pool).Fail?
    ensures Failed(Leaf(es), InsNode(Leaf(es), 0, f, p, cap, pool).t, pool, 0)
  {
  }

  lemma NodeStep(kids: seq<Kid>, d: nat, lo: nat, hi: nat, cap: nat, f: nat, p: nat, pool: seq<nat>, ci: nat, up: nat,
                 g0: nat)
    returns (g: nat)
    requires d > 0 && HasDepth(Branch(kids), d) && KidsWf(kids, d - 1, lo, hi, cap) && kids != []
             && ci == Route(kids, f)
    requires f < hi < U32 && 0 < p < U32 && 5 <= cap
    requires Wf(kids[ci].sub, d - 1, Min(f, Key(kids[ci])), up, cap, cap) && f < up < U32
             && HasDepth(kids[ci].sub, d - 1)
    requires Find(Ents(kids[ci].sub), f) == None
    requires InsNode(kids[ci].sub, d - 1, f, p, cap, pool).Fail? ==>
               Failed(kids[ci].sub, InsNode(kids[ci].sub, d - 1, f, p, cap, pool).t, pool, g0)
    requires InsNode(Branch(kids), d, f, p, cap, pool).Fail?
    ensures Failed(Branch(kids), InsNode(Branch(kids), d, f, p, cap, pool).t, pool, g)
  {
    InsBranchIs(kids, d, f, p, cap, pool);
    g := BranchFailure(kids, d - 1, lo, hi, cap, f, p, pool, ci, up, g0);
  }

  /** After a failure: as before if no block was left, and without g otherwise. */
  predicate Failed(t: Tree, s: Tree, pool: seq<nat>, g: nat) {
    if pool == [] then s == t else Lost(Ents(t), Ents(s), g)
  }

  lemma SubDepth(kids: seq<Kid>, d: nat, ci: nat)
    requires HasDepth(Branch(kids), d) && ci < |kids|
    ensures d > 0 && HasDepth(kids[ci].sub, d - 1)
  {
  }

  lemma BranchFailure(kids: seq<Kid>, d: nat, lo: nat, hi: nat, cap: nat, f: nat, p: nat, pool: seq<nat>, ci: nat,
                      up: nat, g0: nat)
    returns (g: nat)
    requires KidsWf(kids, d, lo, hi, cap) && ci < |kids| && f < hi < U32 && 0 < p < U32 && 5 <= cap
    requires Wf(kids[ci].sub, d, Min(f, Key(kids[ci])), up, cap, cap) && f < up < U32 && HasDepth(kids[ci].sub, d)
    requires Find(Ents(kids[ci].sub), f) == None
    requires var r := InsNode(kids[ci].sub, d, f, p, cap, pool);
             r.Fail? ==> Failed(kids[ci].sub, r.t, pool, g0)
    ensures var r := Rejoin(kids, ci, InsNode(kids[ci].sub, d, f, p, cap, pool), d + 1, cap, pool);
            r.Fail? ==> Failed(Branch(kids), r.t, pool, g)
    ensures var r := RootRejoin(kids, ci, InsNode(kids[ci].sub, d, f, p, cap, pool), d + 1, pool);
            r.Fail? ==> Failed(Branch(kids), r.t, pool, g)
  {
    hide InsNode, Wf, KidsWf, Find, HasDepth;
    var k := kids[ci];
    var r := InsNode(k.sub, d, f, p, cap, pool);
    g := g0;
    if r.Fail? && pool == [] {
      assert kids[ci := Kid(k.slot, r.t)] == kids;
    } else if r.Fail? {
      LostAbove(kids, ci, d, lo, hi, cap, Kid(k.slot, r.t), g);
    } else if r.Split? {
      g := SplitLoses(k.sub, d, Min(f, Key(k)), up, cap, f, p, pool);
      LostAbove(kids, ci, d, lo, hi, cap, Kid(k.slot, r.l), g);
      LostAbove(kids, ci, d, lo, hi, cap, Rekeyed(k, r.l), g);
    }
  }

  /** A failed `ext_insert` leaves every lookup as it was if and only if the root is a leaf or
      the allocator had no block left when the insertion started; otherwise a mapped block is lost. */
  lemma FailureKeepsMapIff(t: Tree, f: nat, p: nat, cap: nat, pool: seq<nat>)
    requires RootWf(t, cap) && HasDepth(t, Depth(t)) && f < U32 - 1 && 0 < p < U32 && 5 <= cap
    requires Lookup(t, f) == None && InsRoot(t, f, p, cap, pool).Fail?
    ensures (forall g: nat :: Lookup(InsRoot(t, f, p, cap, pool).t, g) == Lookup(t, g)) <==> t.Leaf? || pool == []
    ensures t.Leaf? || pool == [] ==> InsRoot(t, f, p, cap, pool).t == t
    ensures !(t.Leaf? || pool == []) ==> exists g: nat ::
            Lookup(t, g).Some? && Lookup(InsRoot(t, f, p, cap, pool).t, g) == None
  {
    RootLookup(t, cap, f);
    if t.Branch? {
      RootBounds(t, cap);
      InsRootBranchIs(t, f, p, cap, pool);
      var d, kids := Depth(t) - 1, t.kids;
      var ci, up := DescendOk(kids, d, 0, U32 - 1, cap, f);
      var s := InsRoot(t, f, p, cap, pool).t;
      var g := 0;
      if InsNode(kids[ci].sub, d, f, p, cap, pool).Fail? {
        g := NodeFailure(kids[ci].sub, d, Min(f, Key(kids[ci])), up, cap, f, p, pool);
      }
      g := BranchFailure(kids, d, 0, U32 - 1, cap, f, p, pool, ci, up, g);
      if pool != [] {
        RootLookup(t, cap, g);
        if Lookup(s, g).Some? { LookupWithin(s, g); }
        assert Lookup(t, g).Some? && Lookup(s, g) == None;
      }
    }
  }
}
