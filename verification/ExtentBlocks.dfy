/** Which disk blocks an extent tree uses, and how insertion changes them: one data
    block more, exactly the node blocks taken from the allocator more, none lost.
    Uses are counted, so that "used twice" can be said (kernel/fs/ext4.c:890-1324). */
module ExtentBlocks {
  import opened Words
  import opened Extents
  import opened ExtentTree

  function One(c: bool): nat { if c then 1 else 0 }

  /** How often b is a data block of the extents es. */
  function DataUses(es: seq<Slot>, b: nat): nat {
    if es == [] then 0
    else One(es[0].addr <= b < es[0].addr + Len(es[0])) + DataUses(es[1..], b)
  }

  /** How often b holds a node below t. */
  function NodeUses(t: Tree, b: nat): nat
    decreases t, 1
  {
    match t
    case Leaf(_) => 0
    case Branch(kids) => KidsUses(kids, b)
  }

  function KidsUses(kids: seq<Kid>, b: nat): nat
    decreases kids, 0
  {
    if kids == [] then 0 else KidUses(kids[0], b) + KidsUses(kids[1..], b)
  }

  function KidUses(k: Kid, b: nat): nat
    decreases k, 0
  {
    One(k.slot.addr == b) + NodeUses(k.sub, b)
  }

  /** How often the tree uses b, for data or for a node. */
  function Uses(t: Tree, b: nat): nat {
    DataUses(Ents(t), b) + NodeUses(t, b)
  }

  /** How often b is among the first n blocks of the pool. */
  function PoolUses(pool: seq<nat>, n: nat, b: nat): nat
    requires n <= |pool|
  {
    if n == 0 then 0 else PoolUses(pool, n - 1, b) + One(pool[n - 1] == b)
  }

  // ----- data blocks

  lemma {:induction false} DataConcat(a: seq<Slot>, c: seq<Slot>, b: nat)
    ensures DataUses(a + c, b) == DataUses(a, b) + DataUses(c, b)
  {
    if a == [] {
      assert a + c == c;
    } else {
      assert (a + c)[1..] == a[1..] + c;
      DataConcat(a[1..], c, b);
    }
  }

  lemma DataMiddle(a: seq<Slot>, m: seq<Slot>, c: seq<Slot>, b: nat)
    ensures DataUses(a + m + c, b) == DataUses(a, b) + DataUses(m, b) + DataUses(c, b)
  {
    DataConcat(a + m, c, b);
    DataConcat(a, m, b);
  }

  lemma DataOne(s: Slot, b: nat)
    ensures DataUses([s], b) == One(s.addr <= b < s.addr + Len(s))
  {
    assert [s][1..] == [];
  }

  lemma DataReplace(es: seq<Slot>, i: nat, s: Slot, p: nat, b: nat)
    requires i < |es| && Len(s) == Len(es[i]) + 1
    requires (s.addr == es[i].addr && p == s.addr + Len(es[i])) || (s.addr == p && es[i].addr == p + 1)
    ensures DataUses(es[i := s], b) == DataUses(es, b) + One(b == p)
  {
    assert es == es[..i] + [es[i]] + es[i + 1..];
    assert es[i := s] == es[..i] + [s] + es[i + 1..];
    DataMiddle(es[..i], [es[i]], es[i + 1..], b);
    DataMiddle(es[..i], [s], es[i + 1..], b);
    DataOne(es[i], b);
    DataOne(s, b);
  }

  lemma DataInsert(es: seq<Slot>, i: nat, f: nat, p: nat, b: nat)
    requires i <= |es|
    ensures DataUses(es[..i] + [NewExtent(f, p)] + es[i..], b) == DataUses(es, b) + One(b == p)
  {
    assert es == es[..i] + es[i..];
    DataConcat(es[..i], es[i..], b);
    DataMiddle(es[..i], [NewExtent(f, p)], es[i..], b);
    DataOne(NewExtent(f, p), b);
  }

  /** An insertion into a leaf adds exactly the data block p. */
  lemma PutData(es: seq<Slot>, lo: nat, hi: nat, f: nat, p: nat, b: nat)
    requires SortedIn(es, lo, hi) && lo <= f < hi < U32 && 0 < p < U32
    requires Find(es, f) == None
    ensures DataUses(LeafPut(es, f, p), b) == DataUses(es, b) + One(b == p)
  {
    var pos := Pos(es, f);
    PutShape(es, lo, hi, f, p);
    if pos > 0 && JoinsPrev(es[pos - 1], f, p) {
      DataReplace(es, pos - 1, Grow(es[pos - 1]), p, b);
    } else if pos < |es| && JoinsNext(es[pos], f, p) {
      DataReplace(es, pos, Prepend(es[pos], f, p), p, b);
    } else {
      DataInsert(es, pos, f, p, b);
    }
  }

  // ----- lists of children

  lemma {:induction false} KidsUsesConcat(a: seq<Kid>, c: seq<Kid>, b: nat)
    ensures KidsUses(a + c, b) == KidsUses(a, b) + KidsUses(c, b)
  {
    if a == [] {
      assert a + c == c;
    } else {
      assert (a + c)[1..] == a[1..] + c;
      KidsUsesConcat(a[1..], c, b);
    }
  }

  lemma KidsUsesOne(k: Kid, b: nat)
    ensures KidsUses([k], b) == One(k.slot.addr == b) + NodeUses(k.sub, b)
  {
    assert [k][1..] == [];
  }

  lemma KidsUsesMiddle(a: seq<Kid>, m: seq<Kid>, c: seq<Kid>, b: nat)
    ensures KidsUses(a + m + c, b) == KidsUses(a, b) + KidsUses(m, b) + KidsUses(c, b)
  {
    KidsUsesConcat(a + m, c, b);
    KidsUsesConcat(a, m, b);
  }

  /** Both kinds of use in a list of children. */
  function ListUses(kids: seq<Kid>, b: nat): nat {
    DataUses(KidsEnts(kids), b) + KidsUses(kids, b)
  }

  lemma ListConcat(a: seq<Kid>, c: seq<Kid>, b: nat)
    ensures ListUses(a + c, b) == ListUses(a, b) + ListUses(c, b)
  {
    KidsUsesConcat(a, c, b);
    KidsEntsConcat(a, c);
    DataConcat(KidsEnts(a), KidsEnts(c), b);
  }

  lemma ListOne(k: Kid, b: nat)
    ensures ListUses([k], b) == One(k.slot.addr == b) + Uses(k.sub, b)
  {
    KidsUsesOne(k, b);
    KidsEntsOne(k);
  }

  lemma ListTwo(x: Kid, y: Kid, b: nat)
    ensures ListUses([x, y], b) == One(x.slot.addr == b) + Uses(x.sub, b) + One(y.slot.addr == b) + Uses(y.sub, b)
  {
    assert [x, y] == [x] + [y];
    ListConcat([x], [y], b);
    ListOne(x, b);
    ListOne(y, b);
  }

  lemma SpliceUses(kids: seq<Kid>, ci: nat, mid: seq<Kid>, b: nat)
    requires ci < |kids|
    ensures ListUses(Splice(kids, ci, mid), b) ==
            ListUses(kids, b) - ListUses([kids[ci]], b) + ListUses(mid, b)
  {
    ListConcat(kids[..ci] + mid, kids[ci + 1..], b);
    ListConcat(kids[..ci], mid, b);
    assert kids == kids[..ci] + [kids[ci]] + kids[ci + 1..];
    ListConcat(kids[..ci] + [kids[ci]], kids[ci + 1..], b);
    ListConcat(kids[..ci], [kids[ci]], b);
  }

  // ----- insertion

  /** n blocks of the pool entered the subtree, and the data block p. A split leaves its
      own block, pool[n], for the parent to enter. */
  ghost predicate Grew(r: Ins, t: Tree, p: nat, pool: seq<nat>, n: nat, b: nat) {
    match r
    case Done(t') => n <= |pool| && Uses(t', b) == Uses(t, b) + One(b == p) + PoolUses(pool, n, b)
    case Split(l, r) => n < |pool| && Uses(l, b) + Uses(r, b) == Uses(t, b) + One(b == p) + PoolUses(pool, n, b)
    case Fail(_) => true
  }

  /** How many blocks InsNode takes from the pool, not counting a split's own sibling. */
  function Taken(t: Tree, d: nat, f: nat, p: nat, cap: nat, pool: seq<nat>): (n: nat)
    requires HasDepth(t, d)
    ensures InsNode(t, d, f, p, cap, pool).Split? ==> n == d
    ensures InsNode(t, d, f, p, cap, pool).Done? ==> n <= d && n <= |pool|
    decreases t
  {
    match t
    case Leaf(_) => 0
    case Branch(kids) =>
      if kids == [] then 0 else
      var sub := kids[Route(kids, f)].sub;
      if InsNode(sub, d - 1, f, p, cap, pool).Split? then d else Taken(sub, d - 1, f, p, cap, pool)
  }

  lemma TakenIs(kids: seq<Kid>, d: nat, f: nat, p: nat, cap: nat, pool: seq<nat>)
    requires HasDepth(Branch(kids), d) && kids != []
    ensures var sub := kids[Route(kids, f)].sub;
            && d > 0 && HasDepth(sub, d - 1)
            && Taken(Branch(kids), d, f, p, cap, pool) ==
               if InsNode(sub, d - 1, f, p, cap, pool).Split? then d else Taken(sub, d - 1, f, p, cap, pool)
  {
  }

  lemma LeafGrew(es: seq<Slot>, lo: nat, hi: nat, cap: nat, f: nat, p: nat, pool: seq<nat>, b: nat)
    requires SortedIn(es, lo, hi) && lo <= f < hi < U32 && 0 < p < U32
    requires Find(es, f) == None
    ensures Grew(InsNode(Leaf(es), 0, f, p, cap, pool), Leaf(es), p, pool, 0, b)
  {
    var es' := LeafPut(es, f, p);
    PutData(es, lo, hi, f, p, b);
    var h := Half(|es'|);
    assert es' == es'[..h] + es'[h..];
    DataConcat(es'[..h], es'[h..], b);
  }

  lemma MidGrows(k: Kid, r: Ins, p: nat, pool: seq<nat>, n: nat, b: nat)
    requires !r.Fail? && Grew(r, k.sub, p, pool, n, b)
    ensures var m := if r.Split? then n + 1 else n;
            ListUses(Mid(k, r, if r.Split? then pool[n] else 0), b) ==
            ListUses([k], b) + One(b == p) + PoolUses(pool, m, b)
  {
    var mid := Mid(k, r, if r.Split? then pool[n] else 0);
    ListOne(k, b);
    if r.Done? {
      ListOne(mid[0], b);
    } else {
      ListTwo(mid[0], mid[1], b);
    }
  }

  lemma SpliceGrows(kids: seq<Kid>, ci: nat, r: Ins, p: nat, pool: seq<nat>, n: nat, b: nat)
    requires ci < |kids| && !r.Fail? && Grew(r, kids[ci].sub, p, pool, n, b)
    ensures var m := if r.Split? then n + 1 else n;
            ListUses(Splice(kids, ci, Mid(kids[ci], r, if r.Split? then pool[n] else 0)), b) ==
            ListUses(kids, b) + One(b == p) + PoolUses(pool, m, b)
  {
    MidGrows(kids[ci], r, p, pool, n, b);
    SpliceUses(kids, ci, Mid(kids[ci], r, if r.Split? then pool[n] else 0), b);
  }

  lemma RejoinGrew(kids: seq<Kid>, ci: nat, r: Ins, d: nat, cap: nat, p: nat, pool: seq<nat>, n: nat, b: nat)
    requires ci < |kids| && d > 0 && Grew(r, kids[ci].sub, p, pool, n, b)
    requires (r.Split? ==> n == d - 1 < |pool|) && (r.Fail? ==> |pool| <= d)
    ensures Grew(Rejoin(kids, ci, r, d, cap, pool), Branch(kids), p, pool, if r.Split? then d else n, b)
  {
    if !r.Fail? {
      SpliceGrows(kids, ci, r, p, pool, n, b);
      var kids' := Splice(kids, ci, Mid(kids[ci], r, if r.Split? then pool[n] else 0));
      var h := Half(|kids'|);
      assert kids' == kids'[..h] + kids'[h..];
      ListConcat(kids'[..h], kids'[h..], b);
    }
  }

  lemma {:induction false} InsNodeGrew(t: Tree, d: nat, lo: nat, hi: nat, cap: nat, f: nat, p: nat, pool: seq<nat>,
                                       b: nat)
    requires Wf(t, d, lo, hi, cap, cap) && lo <= f < hi < U32 && 0 < p < U32 && HasDepth(t, d)
    requires Find(Ents(t), f) == None
    ensures Grew(InsNode(t, d, f, p, cap, pool), t, p, pool, Taken(t, d, f, p, cap, pool), b)
    decreases t
  {
    match t
    case Leaf(es) => LeafGrew(es, lo, hi, cap, f, p, pool, b);
    case Branch(kids) =>
      var ci, up := DescendOk(kids, d - 1, lo, hi, cap, f);
      var sub := kids[ci].sub;
      InsNodeGrew(sub, d - 1, Min(f, Key(kids[ci])), up, cap, f, p, pool, b);
      RejoinGrew(kids, ci, InsNode(sub, d - 1, f, p, cap, pool), d, cap, p, pool, Taken(sub, d - 1, f, p, cap, pool),
                 b);
  }

  /** How many blocks `ext_insert` takes from the allocator. */
  function RootTaken(t: Tree, f: nat, p: nat, cap: nat, pool: seq<nat>): nat
    requires HasDepth(t, Depth(t))
  {
    match t
    case Leaf(es) => if |LeafPut(es, f, p)| <= ROOT_MAX then 0 else 2
    case Branch(kids) =>
      if kids == [] then 0 else
      var sub, d := kids[Route(kids, f)].sub, Depth(t);
      if InsNode(sub, d - 1, f, p, cap, pool).Split? then
        if |kids| < ROOT_MAX then d else d + 1
      else Taken(sub, d - 1, f, p, cap, pool)
  }

  lemma RootTakenIs(t: Tree, f: nat, p: nat, cap: nat, pool: seq<nat>)
    requires HasDepth(t, Depth(t)) && t.Branch? && t.kids != []
    ensures var sub, d := t.kids[Route(t.kids, f)].sub, Depth(t);
            && d > 0 && HasDepth(sub, d - 1)
            && RootTaken(t, f, p, cap, pool) ==
               if InsNode(sub, d - 1, f, p, cap, pool).Split? then if |t.kids| < ROOT_MAX then d else d + 1
               else Taken(sub, d - 1, f, p, cap, pool)
  {
  }

  lemma RootLeafGrew(es: seq<Slot>, f: nat, p: nat, cap: nat, pool: seq<nat>, b: nat)
    requires RootWf(Leaf(es), cap) && f < U32 - 1 && 0 < p < U32 && Find(es, f) == None
    ensures Grew(InsRoot(Leaf(es), f, p, cap, pool), Leaf(es), p, pool, RootTaken(Leaf(es), f, p, cap, pool), b)
  {
    var es' := LeafPut(es, f, p);
    PutData(es, 0, U32 - 1, f, p, b);
    if |es'| > ROOT_MAX && |pool| >= 2 {
      var h := Half(|es'|);
      assert es' == es'[..h] + es'[h..];
      DataConcat(es'[..h], es'[h..], b);
      var l, r := Leaf(es'[..h]), Leaf(es'[h..]);
      ListTwo(Kid(NewIndex(FirstKey(l), pool[1]), l), Kid(NewIndex(FirstKey(r), pool[0]), r), b);
      assert PoolUses(pool, 2, b) == PoolUses(pool, 1, b) + One(pool[1] == b);
      assert PoolUses(pool, 1, b) == One(pool[0] == b);
    }
  }

  lemma RootRejoinGrew(kids: seq<Kid>, ci: nat, r: Ins, d: nat, p: nat, pool: seq<nat>, n: nat, b: nat)
    requires ci < |kids| <= ROOT_MAX && d > 0 && Grew(r, kids[ci].sub, p, pool, n, b)
    requires r.Split? ==> n == d - 1 < |pool|
    ensures Grew(RootRejoin(kids, ci, r, d, pool), Branch(kids), p, pool,
                 if !r.Split? then n else if |kids| < ROOT_MAX then d else d + 1, b)
  {
    if !r.Fail? {
      SpliceGrows(kids, ci, r, p, pool, n, b);
      var kids' := Splice(kids, ci, Mid(kids[ci], r, if r.Split? then pool[n] else 0));
      if |kids'| > ROOT_MAX && d < |pool| {
        ListOne(Kid(NewIndex(FirstKey(Branch(kids')), pool[d]), Branch(kids')), b);
      }
    }
  }

  lemma RootBranchGrew(kids: seq<Kid>, d: nat, f: nat, p: nat, cap: nat, pool: seq<nat>, b: nat)
    requires 1 <= |kids| <= ROOT_MAX && d > 0 && KidsWf(kids, d - 1, 0, U32 - 1, cap)
    requires f < U32 - 1 && 0 < p < U32 && Find(KidsEnts(kids), f) == None
    requires HasDepth(kids[Route(kids, f)].sub, d - 1)
    ensures var sub := kids[Route(kids, f)].sub;
            var r := InsNode(sub, d - 1, f, p, cap, pool);
            Grew(RootRejoin(kids, Route(kids, f), r, d, pool), Branch(kids), p, pool,
                 if !r.Split? then Taken(sub, d - 1, f, p, cap, pool) else if |kids| < ROOT_MAX then d else d + 1, b)
  {
    var ci, up := DescendOk(kids, d - 1, 0, U32 - 1, cap, f);
    var sub := kids[ci].sub;
    InsNodeGrew(sub, d - 1, Min(f, Key(kids[ci])), up, cap, f, p, pool, b);
    RootRejoinGrew(kids, ci, InsNode(sub, d - 1, f, p, cap, pool), d, p, pool, Taken(sub, d - 1, f, p, cap, pool), b);
  }

  /** A successful `ext_insert` uses the old blocks, p, and the blocks it took from the
      allocator, each once more than before: nothing is dropped, nothing else is used. */
  lemma InsRootGrew(t: Tree, f: nat, p: nat, cap: nat, pool: seq<nat>, b: nat)
    requires RootWf(t, cap) && HasDepth(t, Depth(t)) && f < U32 - 1 && 0 < p < U32
    requires Find(Ents(t), f) == None
    ensures Grew(InsRoot(t, f, p, cap, pool), t, p, pool, RootTaken(t, f, p, cap, pool), b)
  {
    match t
    case Leaf(es) => RootLeafGrew(es, f, p, cap, pool, b);
    case Branch(kids) =>
      RootBounds(t, cap);
      InsRootBranchIs(t, f, p, cap, pool);
      RootTakenIs(t, f, p, cap, pool);
      RootBranchGrew(kids, Depth(t), f, p, cap, pool, b);
  }
}
