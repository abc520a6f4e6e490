/** The ext4 extent tree as a value: lookup, insertion with leaf, index and root
    splits, and what insertion keeps (kernel/fs/ext4.c:817-1324).

    A tree is what an inode and the node blocks below it hold. `InsNode` and
    `InsRoot` say what `ext_ins_node` and `ext_insert` leave behind, including the
    state a failed allocation leaves; `ExtentDisk` proves the code against them. */
module ExtentTree {
  import opened Words
  import opened Extents

  const ROOT_MAX := 4

  datatype Kid = Kid(slot: Slot, sub: Tree)
  datatype Tree = Leaf(ents: seq<Slot>) | Branch(kids: seq<Kid>)

  function Key(k: Kid): nat { k.slot.key }

  /** `ext_first_key`: the key of a node's first entry. */
  function FirstKey(t: Tree): nat {
    match t
    case Leaf(es) => if es == [] then 0 else es[0].key
    case Branch(kids) => if kids == [] then 0 else Key(kids[0])
  }

  predicate HasDepth(t: Tree, d: nat) {
    match t
    case Leaf(_) => d == 0
    case Branch(kids) => d > 0 && forall k | k in kids :: HasDepth(k.sub, d - 1)
  }

  /** The extents of all leaves, left to right: the meaning of the tree. */
  function Ents(t: Tree): seq<Slot>
    decreases t, 1
  {
    match t
    case Leaf(es) => es
    case Branch(kids) => KidsEnts(kids)
  }

  function KidsEnts(kids: seq<Kid>): seq<Slot>
    decreases kids, 0
  {
    if kids == [] then [] else KidEnts(kids[0]) + KidsEnts(kids[1..])
  }

  function KidEnts(k: Kid): seq<Slot>
    decreases k, 0
  {
    Ents(k.sub)
  }

  /** A node of depth d whose extents lie in [lo, hi): sorted and disjoint, between
      1 and top entries here and between 1 and cap entries in every node below, every
      index key equal to its child's first key, all leaves at the same depth. */
  ghost predicate Wf(t: Tree, d: nat, lo: nat, hi: nat, top: nat, cap: nat)
    decreases t, 1
  {
    match t
    case Leaf(es) => d == 0 && 1 <= |es| <= top && SortedIn(es, lo, hi)
    case Branch(kids) => d > 0 && 1 <= |kids| <= top && KidsWf(kids, d - 1, lo, hi, cap)
  }

  ghost predicate KidsWf(kids: seq<Kid>, d: nat, lo: nat, hi: nat, cap: nat)
    decreases kids, 0
  {
    if kids == [] then lo <= hi
    else
      var up := if |kids| == 1 then hi else Key(kids[1]);
      KidWf(kids[0], d, lo, up, cap) && KidsWf(kids[1..], d, up, hi, cap)
  }

  ghost predicate KidWf(k: Kid, d: nat, lo: nat, up: nat, cap: nat)
    decreases k, 0
  {
    lo <= Key(k) == FirstKey(k.sub) && Wf(k.sub, d, Key(k), up, cap, cap)
  }

  function Depth(t: Tree): nat {
    match t
    case Leaf(_) => 0
    case Branch(kids) => if kids == [] then 1 else 1 + Depth(kids[0].sub)
  }

  /** What an inode's extent root may hold: the empty leaf or a node of at most four entries. */
  ghost predicate RootWf(t: Tree, cap: nat) {
    t == Leaf([]) || Wf(t, Depth(t), 0, U32 - 1, ROOT_MAX, cap)
  }

  /** The last child whose key is at most f, or the first child. */
  function Route(kids: seq<Kid>, f: nat): (ci: nat)
    requires kids != []
    ensures ci < |kids|
    ensures Key(kids[ci]) <= f || (ci == 0 && forall i | 0 <= i < |kids| :: f < Key(kids[i]))
    ensures forall i | ci < i < |kids| :: f < Key(kids[i])
  {
    RouteUpTo(kids, |kids|, f)
  }

  function RouteUpTo(kids: seq<Kid>, n: nat, f: nat): (ci: nat)
    requires n <= |kids| && kids != []
    ensures ci < |kids| && (ci < n || ci == 0)
    ensures (n > 0 && Key(kids[ci]) <= f) || (ci == 0 && forall i | 0 <= i < n :: f < Key(kids[i]))
    ensures forall i | ci < i < n :: f < Key(kids[i])
  {
    if n == 0 then 0 else if Key(kids[n - 1]) <= f then n - 1 else RouteUpTo(kids, n - 1, f)
  }

  /** `ext_lookup` on a tree: follow the keys down to one leaf, search that leaf. */
  function Lookup(t: Tree, f: nat): Option<nat> {
    match t
    case Leaf(es) => Find(es, f)
    case Branch(kids) =>
      if kids == [] || f < Key(kids[Route(kids, f)]) then None
      else Lookup(kids[Route(kids, f)].sub, f)
  }

  // ----- insertion

  datatype Ins = Done(t: Tree) | Split(l: Tree, r: Tree) | Fail(t: Tree)

  function Rekeyed(k: Kid, t: Tree): Kid { Kid(k.slot.(key := FirstKey(t)), t) }

  function Half(n: nat): nat { (n + 1) / 2 }

  /** Child ci replaced by mid. */
  function Splice(kids: seq<Kid>, ci: nat, mid: seq<Kid>): seq<Kid>
    requires ci < |kids|
  {
    kids[..ci] + mid + kids[ci + 1..]
  }

  /** Child ci split into l, which keeps its block, and r in block b. */
  function SplitKids(k: Kid, l: Tree, r: Tree, b: nat): seq<Kid> {
    [Rekeyed(k, l), Kid(NewIndex(FirstKey(r), b), r)]
  }

  /** What an index node at depth d becomes after its child ci returned r. */
  function Rejoin(kids: seq<Kid>, ci: nat, r: Ins, d: nat, cap: nat, pool: seq<nat>): (r': Ins)
    requires ci < |kids| && d > 0 && (r.Split? ==> d - 1 < |pool|) && (r.Fail? ==> |pool| <= d)
    ensures r'.Split? ==> d < |pool|
    ensures r'.Fail? ==> |pool| <= d
  {
    match r
    case Fail(s) => Fail(Branch(kids[ci := Kid(kids[ci].slot, s)]))
    case Done(s) => Done(Branch(Splice(kids, ci, [Rekeyed(kids[ci], s)])))
    case Split(l, r) =>
      var kids' := Splice(kids, ci, SplitKids(kids[ci], l, r, pool[d - 1]));
      Packed(kids', kids[ci := Kid(kids[ci].slot, l)], d, cap, pool)
  }

  /** Children kids in one node if they fit, in two if a block is left; else the node stays
      as stored, with the children kept. */
  function Packed(kids: seq<Kid>, kept: seq<Kid>, d: nat, cap: nat, pool: seq<nat>): Ins {
    if |kids| <= cap then Done(Branch(kids))
    else if |pool| <= d then Fail(Branch(kept))
    else Split(Branch(kids[..Half(|kids|)]), Branch(kids[Half(|kids|)..]))
  }

  /** `ext_ins_node` below the root. pool lists the blocks the allocator would hand
      out: a split at depth d takes pool[d], because every level below has split first.
      Fail holds what is on disk when the allocator runs dry. */
  function InsNode(t: Tree, d: nat, f: nat, p: nat, cap: nat, pool: seq<nat>): (r: Ins)
    requires HasDepth(t, d)
    ensures r.Split? ==> d < |pool|
    ensures r.Fail? ==> |pool| <= d
    decreases t
  {
    match t
    case Leaf(es) =>
      var es' := LeafPut(es, f, p);
      if |es'| <= cap then Done(Leaf(es'))
      else if |pool| == 0 then Fail(t)
      else Split(Leaf(es'[..Half(|es'|)]), Leaf(es'[Half(|es'|)..]))
    case Branch(kids) =>
      if kids == [] then Done(t) else
      Rejoin(kids, Route(kids, f), InsNode(kids[Route(kids, f)].sub, d - 1, f, p, cap, pool), d, cap, pool)
  }

  /** `ext_insert`: the root cases. A full root leaf moves into two fresh blocks, a
      full root index moves into one and the tree grows by a level. */
  function InsRoot(t: Tree, f: nat, p: nat, cap: nat, pool: seq<nat>): (r: Ins)
    requires HasDepth(t, Depth(t))
    ensures !r.Split?
  {
    var d := Depth(t);
    match t
    case Leaf(es) =>
      var es' := LeafPut(es, f, p);
      if |es'| <= ROOT_MAX then Done(Leaf(es'))
      else if |pool| < 2 then Fail(t)
      else
        var l, r := Leaf(es'[..Half(|es'|)]), Leaf(es'[Half(|es'|)..]);
        Done(Branch([Kid(NewIndex(FirstKey(l), pool[1]), l), Kid(NewIndex(FirstKey(r), pool[0]), r)]))
    case Branch(kids) =>
      if kids == [] then Done(t) else
      RootRejoin(kids, Route(kids, f), InsNode(kids[Route(kids, f)].sub, d - 1, f, p, cap, pool), d, pool)
  }

  function RootRejoin(kids: seq<Kid>, ci: nat, r: Ins, d: nat, pool: seq<nat>): (r': Ins)
    requires ci < |kids| && d > 0 && (r.Split? ==> d - 1 < |pool|)
    ensures !r'.Split?
  {
    match r
    case Fail(s) => Fail(Branch(kids[ci := Kid(kids[ci].slot, s)]))
    case Done(s) => Done(Branch(Splice(kids, ci, [Rekeyed(kids[ci], s)])))
    case Split(l, r) =>
      RootPacked(Splice(kids, ci, SplitKids(kids[ci], l, r, pool[d - 1])), kids[ci := Rekeyed(kids[ci], l)], d, pool)
  }

  /** Children kids in the root if they fit, in a new block below it if one is left. */
  function RootPacked(kids: seq<Kid>, kept: seq<Kid>, d: nat, pool: seq<nat>): (r: Ins)
    ensures !r.Split?
  {
    if |kids| <= ROOT_MAX then Done(Branch(kids))
    else if |pool| <= d then Fail(Branch(kept))
    else Done(Branch([Kid(NewIndex(FirstKey(Branch(kids)), pool[d]), Branch(kids))]))
  }

  lemma InsBranchIs(kids: seq<Kid>, d: nat, f: nat, p: nat, cap: nat, pool: seq<nat>)
    requires HasDepth(Branch(kids), d) && kids != []
    ensures var ci := Route(kids, f);
            && d > 0 && HasDepth(kids[ci].sub, d - 1)
            && InsNode(Branch(kids), d, f, p, cap, pool) ==
               Rejoin(kids, ci, InsNode(kids[ci].sub, d - 1, f, p, cap, pool), d, cap, pool)
  {
  }

  // ----- lists of children

  lemma {:induction false} KidsEntsConcat(a: seq<Kid>, b: seq<Kid>)
    ensures KidsEnts(a + b) == KidsEnts(a) + KidsEnts(b)
  {
    if a == [] {
      assert a + b == b;
    } else {
      assert (a + b)[1..] == a[1..] + b;
      KidsEntsConcat(a[1..], b);
    }
  }

  lemma KidsEntsOne(k: Kid)
    ensures KidsEnts([k]) == Ents(k.sub)
  {
    assert [k][1..] == [];
  }

  lemma KidsEntsSplit(kids: seq<Kid>, i: nat)
    requires i < |kids|
    ensures KidsEnts(kids) == KidsEnts(kids[..i]) + Ents(kids[i].sub) + KidsEnts(kids[i + 1..])
  {
    assert kids == kids[..i] + kids[i..];
    KidsEntsConcat(kids[..i], kids[i..]);
    assert kids[i..][1..] == kids[i + 1..];
  }

  lemma SpliceEnts(kids: seq<Kid>, ci: nat, mid: seq<Kid>)
    requires ci < |kids|
    ensures KidsEnts(Splice(kids, ci, mid)) == KidsEnts(kids[..ci]) + KidsEnts(mid) + KidsEnts(kids[ci + 1..])
  {
    KidsEntsConcat(kids[..ci] + mid, kids[ci + 1..]);
    KidsEntsConcat(kids[..ci], mid);
  }

  function Up(kids: seq<Kid>, i: nat, hi: nat): nat {
    if i < |kids| then Key(kids[i]) else hi
  }

  lemma {:induction false} KidsWfSplit(kids: seq<Kid>, i: nat, d: nat, lo: nat, hi: nat, cap: nat)
    requires KidsWf(kids, d, lo, hi, cap) && i <= |kids|
    ensures KidsWf(kids[..i], d, lo, Up(kids, i, hi), cap)
    ensures KidsWf(kids[i..], d, Up(kids, i, hi), hi, cap)
    ensures i < |kids| ==> FirstKey(kids[i].sub) == Key(kids[i]) &&
                           Wf(kids[i].sub, d, Key(kids[i]), Up(kids, i + 1, hi), cap, cap)
  {
    if i == 0 {
      assert kids[0..] == kids;
    } else {
      KidsWfSplit(kids[1..], i - 1, d, Up(kids, 1, hi), hi, cap);
      assert kids[1..][..i - 1] == kids[..i][1..];
      assert kids[1..][i - 1..] == kids[i..];
      assert i < |kids| ==> kids[1..][i - 1] == kids[i];
      assert Up(kids[1..], i - 1, hi) == Up(kids, i, hi);
      assert Up(kids[1..], i, hi) == Up(kids, i + 1, hi);
      assert i > 1 ==> kids[..i][1] == kids[1];
    }
  }

  lemma {:induction false} KidsWfConcat(a: seq<Kid>, b: seq<Kid>, d: nat, lo: nat, m: nat, hi: nat, cap: nat)
    requires KidsWf(a, d, lo, m, cap) && KidsWf(b, d, m, hi, cap) && m == Up(b, 0, hi)
    ensures KidsWf(a + b, d, lo, hi, cap)
  {
    if a == [] {
      assert a + b == b;
    } else {
      assert (a + b)[1..] == a[1..] + b;
      var up := if |a| == 1 then m else Key(a[1]);
      KidsWfConcat(a[1..], b, d, up, m, hi, cap);
      if |a| == 1 {
        assert |b| > 0 ==> (a + b)[1] == b[0];
        assert |b| == 0 ==> a + b == a;
      } else {
        assert (a + b)[1] == a[1];
      }
    }
  }

  lemma LowerLo(t: Tree, d: nat, lo: nat, lo': nat, hi: nat, top: nat, cap: nat)
    requires Wf(t, d, lo, hi, top, cap) && lo' <= FirstKey(t)
    ensures Wf(t, d, lo', hi, top, cap)
    ensures lo <= FirstKey(t)
  {
    if t.Branch? {
      assert KidWf(t.kids[0], d - 1, lo, Up(t.kids, 1, hi), cap);
    }
  }

  lemma {:induction false} WfDepth(t: Tree, d: nat, lo: nat, hi: nat, top: nat, cap: nat)
    requires Wf(t, d, lo, hi, top, cap)
    ensures HasDepth(t, d)
    decreases t
  {
    if t.Branch? {
      forall k | k in t.kids
        ensures HasDepth(k.sub, d - 1)
      {
        var i :| 0 <= i < |t.kids| && t.kids[i] == k;
        KidsWfSplit(t.kids, i, d - 1, lo, hi, cap);
        WfDepth(k.sub, d - 1, Key(k), Up(t.kids, i + 1, hi), cap, cap);
      }
    }
  }

  lemma {:induction false} WfDepthIs(t: Tree, d: nat, lo: nat, hi: nat, top: nat, cap: nat)
    requires Wf(t, d, lo, hi, top, cap)
    ensures Depth(t) == d
    decreases t
  {
    if t.Branch? {
      KidsWfSplit(t.kids, 0, d - 1, lo, hi, cap);
      WfDepthIs(t.kids[0].sub, d - 1, Key(t.kids[0]), Up(t.kids, 1, hi), cap, cap);
    }
  }

  lemma RootDepth(t: Tree, cap: nat)
    requires RootWf(t, cap)
    ensures HasDepth(t, Depth(t))
  {
    if t != Leaf([]) {
      WfDepth(t, Depth(t), 0, U32 - 1, ROOT_MAX, cap);
    }
  }

  /** The extents of a well-formed tree are sorted and pairwise disjoint. */
  lemma {:induction false} EntsSorted(t: Tree, d: nat, lo: nat, hi: nat, top: nat, cap: nat)
    requires Wf(t, d, lo, hi, top, cap)
    ensures SortedIn(Ents(t), lo, hi)
    decreases t, 1
  {
    if t.Branch? {
      KidsEntsSorted(t.kids, d - 1, lo, hi, cap);
    }
  }

  lemma {:induction false} KidsEntsSorted(kids: seq<Kid>, d: nat, lo: nat, hi: nat, cap: nat)
    requires KidsWf(kids, d, lo, hi, cap)
    ensures SortedIn(KidsEnts(kids), lo, hi)
    decreases kids, 0
  {
    if kids != [] {
      var up := Up(kids, 1, hi);
      KidEntsSorted(kids[0], d, lo, up, cap);
      KidsEntsSorted(kids[1..], d, up, hi, cap);
      SortedConcat(Ents(kids[0].sub), KidsEnts(kids[1..]), Key(kids[0]), up, hi);
      SortedLoHi(KidsEnts(kids), Key(kids[0]), hi);
      LowerSorted(KidsEnts(kids), lo, Key(kids[0]), hi);
    }
  }

  lemma {:induction false} KidEntsSorted(k: Kid, d: nat, lo: nat, up: nat, cap: nat)
    requires KidWf(k, d, lo, up, cap)
    ensures SortedIn(KidEnts(k), Key(k), up)
    decreases k, 0
  {
    EntsSorted(k.sub, d, Key(k), up, cap, cap);
  }

  lemma LowerSorted(es: seq<Slot>, lo': nat, lo: nat, hi: nat)
    requires SortedIn(es, lo, hi) && lo' <= lo
    ensures SortedIn(es, lo', hi)
  {
    SortedLoHi(es, lo, hi);
  }

  lemma KidsLoHi(kids: seq<Kid>, d: nat, lo: nat, hi: nat, cap: nat)
    requires KidsWf(kids, d, lo, hi, cap)
    ensures lo <= hi && (kids != [] ==> lo <= Key(kids[0]) <= hi)
  {
    KidsEntsSorted(kids, d, lo, hi, cap);
    SortedLoHi(KidsEnts(kids), lo, hi);
    if kids != [] {
      assert KidWf(kids[0], d, lo, Up(kids, 1, hi), cap);
      KidsEntsSorted(kids, d, Key(kids[0]), hi, cap);
      SortedLoHi(KidsEnts(kids), Key(kids[0]), hi);
    }
  }

  // ----- lookup

  /** Descending by the keys finds what searching every leaf finds. */
  lemma {:induction false} LookupFinds(t: Tree, d: nat, lo: nat, hi: nat, top: nat, cap: nat, f: nat)
    requires Wf(t, d, lo, hi, top, cap)
    ensures Lookup(t, f) == Find(Ents(t), f)
    decreases t
  {
    if t.Branch? {
      var kids := t.kids;
      var ci := Route(kids, f);
      KidsEntsSplit(kids, ci);
      KidsWfSplit(kids, ci, d - 1, lo, hi, cap);
      KidsWfSplit(kids, ci + 1, d - 1, lo, hi, cap);
      var pre, mid, post := KidsEnts(kids[..ci]), Ents(kids[ci].sub), KidsEnts(kids[ci + 1..]);
      FindConcat(pre + mid, post, f);
      FindConcat(pre, mid, f);
      KidsEntsSorted(kids[..ci], d - 1, lo, Key(kids[ci]), cap);
      KidsEntsSorted(kids[ci + 1..], d - 1, Up(kids, ci + 1, hi), hi, cap);
      EntsSorted(kids[ci].sub, d - 1, Key(kids[ci]), Up(kids, ci + 1, hi), cap, cap);
      if ci + 1 < |kids| {
        FindBelow(post, Key(kids[ci + 1]), hi, f);
      } else {
        assert kids[ci + 1..] == [];
      }
      if Key(kids[ci]) <= f {
        FindBelow(pre, lo, Key(kids[ci]), f);
        LookupFinds(kids[ci].sub, d - 1, Key(kids[ci]), Up(kids, ci + 1, hi), cap, cap, f);
      } else {
        assert kids[..ci] == [];
        FindBelow(mid, Key(kids[ci]), Up(kids, ci + 1, hi), f);
      }
    }
  }

  // ----- what insertion does

  /** The state of a subtree after an insertion that did not fail. */
  ghost predicate InsOk(r: Ins, t: Tree, d: nat, lo: nat, hi: nat, cap: nat, f: nat, p: nat) {
    match r
    case Done(t') =>
      && Wf(t', d, lo, hi, cap, cap)
      && FirstKey(t') == Min(f, FirstKey(t))
      && MapAdds(Ents(t), Ents(t'), f, p)
    case Split(l, r) =>
      && Wf(l, d, lo, FirstKey(r), cap, cap)
      && Wf(r, d, FirstKey(r), hi, cap, cap)
      && FirstKey(l) == Min(f, FirstKey(t))
      && MapAdds(Ents(t), Ents(l) + Ents(r), f, p)
    case Fail(_) => true
  }

  lemma LeafHalves(es: seq<Slot>, h: nat, lo: nat, hi: nat, top: nat, cap: nat)
    requires SortedIn(es, lo, hi) && 0 < h < |es| && h <= top && |es| - h <= top
    ensures Wf(Leaf(es[..h]), 0, lo, es[h].key, top, cap)
    ensures Wf(Leaf(es[h..]), 0, es[h].key, hi, top, cap)
    ensures es[..h] + es[h..] == es
  {
    SortedSplit(es, h, lo, hi);
    RaiseHi(es[..h], lo, EndBefore(es, h, lo), es[h].key);
    RaiseLo(es[h..], EndBefore(es, h, lo), es[h].key, hi);
  }

  lemma InsLeafOk(es: seq<Slot>, lo: nat, hi: nat, cap: nat, f: nat, p: nat, pool: seq<nat>)
    requires Wf(Leaf(es), 0, lo, hi, cap, cap) && lo <= f < hi < U32 && 0 < p < U32 && 3 <= cap
    requires Find(es, f) == None
    ensures InsOk(InsNode(Leaf(es), 0, f, p, cap, pool), Leaf(es), 0, lo, hi, cap, f, p)
  {
    var es' := LeafPut(es, f, p);
    PutAdds(es, lo, hi, f, p);
    PutSorted(es, lo, hi, f, p);
    if |es'| > cap && |pool| > 0 {
      LeafHalves(es', Half(|es'|), lo, hi, cap, cap);
    }
  }

  lemma SpliceWf(kids: seq<Kid>, ci: nat, mid: seq<Kid>, d: nat, lo: nat, hi: nat, cap: nat)
    requires KidsWf(kids, d, lo, hi, cap) && ci < |kids| && mid != []
    requires KidsWf(mid, d, Key(mid[0]), Up(kids, ci + 1, hi), cap)
    requires if ci == 0 then lo <= Key(mid[0]) else Key(mid[0]) == Key(kids[ci])
    ensures KidsWf(Splice(kids, ci, mid), d, lo, hi, cap)
  {
    KidsWfSplit(kids, ci, d, lo, hi, cap);
    KidsWfSplit(kids, ci + 1, d, lo, hi, cap);
    KidsWfConcat(mid, kids[ci + 1..], d, Key(mid[0]), Up(kids, ci + 1, hi), hi, cap);
    var rest := mid + kids[ci + 1..];
    if ci == 0 {
      assert kids[..ci] == [];
    }
    KidsWfConcat(kids[..ci], rest, d, lo, Key(mid[0]), hi, cap);
    assert kids[..ci] + rest == Splice(kids, ci, mid);
  }

  lemma KidsHalves(kids: seq<Kid>, h: nat, d: nat, lo: nat, hi: nat, top: nat, cap: nat)
    requires KidsWf(kids, d, lo, hi, cap) && 0 < h < |kids| && h <= top && |kids| - h <= top
    ensures Wf(Branch(kids[..h]), d + 1, lo, Key(kids[h]), top, cap)
    ensures Wf(Branch(kids[h..]), d + 1, Key(kids[h]), hi, top, cap)
    ensures KidsEnts(kids) == KidsEnts(kids[..h]) + KidsEnts(kids[h..])
  {
    KidsWfSplit(kids, h, d, lo, hi, cap);
    KidsEntsConcat(kids[..h], kids[h..]);
    assert kids[..h] + kids[h..] == kids;
  }

  /** The child to descend into, its bounds, and that f is not mapped there. */
  lemma DescendOk(kids: seq<Kid>, d: nat, lo: nat, hi: nat, cap: nat, f: nat) returns (ci: nat, up: nat)
    requires kids != [] && KidsWf(kids, d, lo, hi, cap) && lo <= f < hi
    requires Find(KidsEnts(kids), f) == None
    ensures ci == Route(kids, f) && up == Up(kids, ci + 1, hi)
    ensures Wf(kids[ci].sub, d, Min(f, Key(kids[ci])), up, cap, cap) && f < up <= hi
    ensures FirstKey(kids[ci].sub) == Key(kids[ci])
    ensures Find(Ents(kids[ci].sub), f) == None
    ensures ci > 0 ==> Key(kids[ci]) <= f
  {
    ci := Route(kids, f);
    up := Up(kids, ci + 1, hi);
    KidsWfSplit(kids, ci, d, lo, hi, cap);
    KidsWfSplit(kids, ci + 1, d, lo, hi, cap);
    KidsLoHi(kids[ci + 1..], d, up, hi, cap);
    LowerLo(kids[ci].sub, d, Key(kids[ci]), Min(f, Key(kids[ci])), up, cap, cap);
    KidsEntsSplit(kids, ci);
    var pre, mid, post := KidsEnts(kids[..ci]), Ents(kids[ci].sub), KidsEnts(kids[ci + 1..]);
    FindConcat(pre + mid, post, f);
    FindConcat(pre, mid, f);
  }

  /** The children that replace child ci, well formed and with the mapping added. */
  ghost function Mid(k: Kid, r: Ins, b: nat): seq<Kid>
    requires !r.Fail?
  {
    match r
    case Done(s) => [Rekeyed(k, s)]
    case Split(l, r) => SplitKids(k, l, r, b)
  }

  lemma MidOk(k: Kid, r: Ins, d: nat, up: nat, cap: nat, f: nat, p: nat, b: nat)
    requires !r.Fail? && Key(k) == FirstKey(k.sub)
    requires InsOk(r, k.sub, d, Min(f, Key(k)), up, cap, f, p)
    ensures KidsWf(Mid(k, r, b), d, Min(f, Key(k)), up, cap)
    ensures Key(Mid(k, r, b)[0]) == Min(f, Key(k))
    ensures MapAdds(Ents(k.sub), KidsEnts(Mid(k, r, b)), f, p)
  {
    var mid := Mid(k, r, b);
    match r
    case Done(s) =>
      KidsEntsOne(mid[0]);
      EntsSorted(s, d, Min(f, Key(k)), up, cap, cap);
      SortedLoHi(Ents(s), Min(f, Key(k)), up);
      assert mid[1..] == [];
    case Split(l, r) =>
      KidsEntsConcat([mid[0]], [mid[1]]);
      KidsEntsOne(mid[0]);
      KidsEntsOne(mid[1]);
      assert [mid[0]] + [mid[1]] == mid;
      EntsSorted(r, d, FirstKey(r), up, cap, cap);
      SortedLoHi(Ents(r), FirstKey(r), up);
      OneKid(mid[1], d, FirstKey(r), up, cap);
      assert mid[1..] == [mid[1]];
  }

  lemma SpliceAdds(kids: seq<Kid>, ci: nat, mid: seq<Kid>, f: nat, p: nat)
    requires ci < |kids| && Find(KidsEnts(kids), f) == None
    requires MapAdds(Ents(kids[ci].sub), KidsEnts(mid), f, p)
    ensures MapAdds(KidsEnts(kids), KidsEnts(Splice(kids, ci, mid)), f, p)
  {
    KidsEntsSplit(kids, ci);
    SpliceEnts(kids, ci, mid);
    MapAddsMiddle(KidsEnts(kids[..ci]), Ents(kids[ci].sub), KidsEnts(mid), KidsEnts(kids[ci + 1..]), f, p);
  }

  /** Inserting an unmapped block below the root: the subtree, or its two halves, stay
      well formed within the same bounds and hold exactly one more mapping. */
  lemma {:induction false} InsNodeOk(t: Tree, d: nat, lo: nat, hi: nat, cap: nat, f: nat, p: nat, pool: seq<nat>)
    requires Wf(t, d, lo, hi, cap, cap) && lo <= f < hi < U32 && 0 < p < U32 && 3 <= cap
    requires Find(Ents(t), f) == None
    requires HasDepth(t, d)
    ensures InsOk(InsNode(t, d, f, p, cap, pool), t, d, lo, hi, cap, f, p)
    decreases t
  {
    match t
    case Leaf(es) => InsLeafOk(es, lo, hi, cap, f, p, pool);
    case Branch(kids) =>
      var ci, up := DescendOk(kids, d - 1, lo, hi, cap, f);
      var k := kids[ci];
      InsNodeOk(k.sub, d - 1, Min(f, Key(k)), up, cap, f, p, pool);
      InsBranchOk(kids, d, lo, hi, cap, f, p, pool, ci, up);
  }

  lemma InsBranchOk(kids: seq<Kid>, d: nat, lo: nat, hi: nat, cap: nat, f: nat, p: nat, pool: seq<nat>, ci: nat,
                    up: nat)
    requires HasDepth(Branch(kids), d) && 1 <= |kids| <= cap && 3 <= cap && lo <= f
    requires KidsWf(kids, d - 1, lo, hi, cap) && Find(KidsEnts(kids), f) == None
    requires ci == Route(kids, f) && up == Up(kids, ci + 1, hi) && (ci > 0 ==> Key(kids[ci]) <= f)
    requires FirstKey(kids[ci].sub) == Key(kids[ci])
    requires InsOk(InsNode(kids[ci].sub, d - 1, f, p, cap, pool), kids[ci].sub, d - 1, Min(f, Key(kids[ci])), up, cap,
                   f, p)
    ensures InsOk(InsNode(Branch(kids), d, f, p, cap, pool), Branch(kids), d, lo, hi, cap, f, p)
  {
    RejoinOk(kids, d - 1, lo, hi, cap, f, p, ci, up, InsNode(kids[ci].sub, d - 1, f, p, cap, pool), pool);
  }

  lemma RejoinOk(kids: seq<Kid>, d: nat, lo: nat, hi: nat, cap: nat, f: nat, p: nat, ci: nat, up: nat, r: Ins,
                 pool: seq<nat>)
    requires kids != [] && KidsWf(kids, d, lo, hi, cap) && lo <= f && |kids| <= cap && 3 <= cap
    requires ci == Route(kids, f) && up == Up(kids, ci + 1, hi) && (ci > 0 ==> Key(kids[ci]) <= f)
    requires Find(KidsEnts(kids), f) == None && FirstKey(kids[ci].sub) == Key(kids[ci])
    requires (r.Split? ==> d < |pool|) && (r.Fail? ==> |pool| <= d + 1)
    requires InsOk(r, kids[ci].sub, d, Min(f, Key(kids[ci])), up, cap, f, p)
    ensures InsOk(Rejoin(kids, ci, r, d + 1, cap, pool), Branch(kids), d + 1, lo, hi, cap, f, p)
  {
    if !r.Fail? {
      var b := if r.Split? then pool[d] else 0;
      MidOk(kids[ci], r, d, up, cap, f, p, b);
      var mid := Mid(kids[ci], r, b);
      BranchOk(kids, d, lo, hi, cap, f, p, ci, up, mid);
      PackOk(kids, Splice(kids, ci, mid), d, lo, hi, cap, f, p);
    }
  }

  /** Replacing the routed child keeps the first key the smaller of f and the old one. */
  lemma SpliceFirst(kids: seq<Kid>, ci: nat, mid: seq<Kid>, d: nat, lo: nat, hi: nat, cap: nat, f: nat)
    requires ci < |kids| && KidsWf(kids, d, lo, hi, cap) && mid != []
    requires (ci > 0 ==> Key(kids[ci]) <= f) && Key(mid[0]) == Min(f, Key(kids[ci]))
    ensures Key(Splice(kids, ci, mid)[0]) == Min(f, Key(kids[0]))
    ensures lo <= Key(kids[0])
  {
    KidsLoHi(kids, d, lo, hi, cap);
    KidsWfSplit(kids, ci, d, lo, hi, cap);
    KidsLoHi(kids[..ci], d, lo, Key(kids[ci]), cap);
  }

  lemma BranchOk(kids: seq<Kid>, d: nat, lo: nat, hi: nat, cap: nat, f: nat, p: nat, ci: nat, up: nat, mid: seq<Kid>)
    requires kids != [] && KidsWf(kids, d, lo, hi, cap) && lo <= f && 1 <= |mid| <= 2
    requires ci < |kids| && up == Up(kids, ci + 1, hi) && (ci > 0 ==> Key(kids[ci]) <= f)
    requires Find(KidsEnts(kids), f) == None
    requires KidsWf(mid, d, Min(f, Key(kids[ci])), up, cap) && Key(mid[0]) == Min(f, Key(kids[ci]))
    requires MapAdds(Ents(kids[ci].sub), KidsEnts(mid), f, p)
    ensures var kids' := Splice(kids, ci, mid);
            && KidsWf(kids', d, lo, hi, cap)
            && Key(kids'[0]) == Min(f, Key(kids[0]))
            && MapAdds(KidsEnts(kids), KidsEnts(kids'), f, p)
  {
    SpliceFirst(kids, ci, mid, d, lo, hi, cap, f);
    SpliceWf(kids, ci, mid, d, lo, hi, cap);
    SpliceAdds(kids, ci, mid, f, p);
  }

  lemma PackOk(kids: seq<Kid>, kids': seq<Kid>, d: nat, lo: nat, hi: nat, cap: nat, f: nat, p: nat)
    requires kids != [] && 1 <= |kids'| <= cap + 1 && 3 <= cap
    requires KidsWf(kids', d, lo, hi, cap) && Key(kids'[0]) == Min(f, Key(kids[0]))
    requires MapAdds(KidsEnts(kids), KidsEnts(kids'), f, p)
    ensures |kids'| <= cap ==> InsOk(Done(Branch(kids')), Branch(kids), d + 1, lo, hi, cap, f, p)
    ensures |kids'| > cap ==> InsOk(Split(Branch(kids'[..Half(|kids'|)]), Branch(kids'[Half(|kids'|)..])),
                                    Branch(kids), d + 1, lo, hi, cap, f, p)
  {
    if |kids'| > cap {
      KidsHalves(kids', Half(|kids'|), d, lo, hi, cap, cap);
    }
  }

  lemma RootLeafOk(es: seq<Slot>, f: nat, p: nat, cap: nat, pool: seq<nat>)
    requires RootWf(Leaf(es), cap) && f < U32 - 1 && 0 < p < U32 && 5 <= cap
    requires Find(es, f) == None
    ensures var r := InsRoot(Leaf(es), f, p, cap, pool);
            r.Done? ==> RootWf(r.t, cap) && MapAdds(es, Ents(r.t), f, p) && Depth(r.t) <= 1
  {
    hide LeafPut, Find, SlotWf, End;
    var es' := LeafPut(es, f, p);
    PutAdds(es, 0, U32 - 1, f, p);
    PutSorted(es, 0, U32 - 1, f, p);
    if |es'| > ROOT_MAX && |pool| >= 2 {
      var h := Half(|es'|);
      LeafHalves(es', h, 0, U32 - 1, cap, cap);
      var l, r := Leaf(es'[..h]), Leaf(es'[h..]);
      LowerLo(l, 0, 0, FirstKey(l), FirstKey(r), cap, cap);
      var x, y := Kid(NewIndex(FirstKey(l), pool[1]), l), Kid(NewIndex(FirstKey(r), pool[0]), r);
      EntsSorted(r, 0, FirstKey(r), U32 - 1, cap, cap);
      SortedLoHi(Ents(r), FirstKey(r), U32 - 1);
      TwoKids(x, y, 0, 0, U32 - 1, cap);
      assert es'[..h] + es'[h..] == es';
      var t := Branch([x, y]);
      assert InsRoot(Leaf(es), f, p, cap, pool) == Done(t);
      assert Depth(t) == 1;
      assert Ents(t) == KidsEnts([x, y]) == es';
    }
  }

  lemma TwoKids(x: Kid, y: Kid, d: nat, lo: nat, hi: nat, cap: nat)
    requires KidWf(x, d, lo, Key(y), cap) && KidWf(y, d, Key(y), hi, cap) && Key(y) <= hi
    ensures KidsWf([x, y], d, lo, hi, cap)
    ensures KidsEnts([x, y]) == Ents(x.sub) + Ents(y.sub)
  {
    assert [x, y][1..] == [y];
    assert [y][1..] == [];
    KidsEntsOne(y);
  }

  lemma OneKid(x: Kid, d: nat, lo: nat, hi: nat, cap: nat)
    requires KidWf(x, d, lo, hi, cap)
    ensures KidsWf([x], d, lo, hi, cap)
    ensures KidsEnts([x]) == Ents(x.sub)
  {
    assert [x][1..] == [];
    KidsEntsOne(x);
  }

  lemma RootRejoinOk(kids: seq<Kid>, d: nat, cap: nat, f: nat, p: nat, ci: nat, up: nat, r: Ins, pool: seq<nat>)
    requires 1 <= |kids| <= ROOT_MAX && KidsWf(kids, d, 0, U32 - 1, cap) && 5 <= cap
    requires ci == Route(kids, f) && up == Up(kids, ci + 1, U32 - 1) && (ci > 0 ==> Key(kids[ci]) <= f)
    requires Find(KidsEnts(kids), f) == None && FirstKey(kids[ci].sub) == Key(kids[ci])
    requires r.Split? ==> d < |pool|
    requires InsOk(r, kids[ci].sub, d, Min(f, Key(kids[ci])), up, cap, f, p)
    ensures var r' := RootRejoin(kids, ci, r, d + 1, pool);
            r'.Done? ==> RootWf(r'.t, cap) && MapAdds(KidsEnts(kids), Ents(r'.t), f, p) && Depth(r'.t) <= d + 2
  {
    if !r.Fail? {
      var b := if r.Split? then pool[d] else 0;
      MidOk(kids[ci], r, d, up, cap, f, p, b);
      var mid := Mid(kids[ci], r, b);
      BranchOk(kids, d, 0, U32 - 1, cap, f, p, ci, up, mid);
      var kids' := Splice(kids, ci, mid);
      if |kids'| <= ROOT_MAX {
        WfDepthIs(Branch(kids'), d + 1, 0, U32 - 1, ROOT_MAX, cap);
      } else if |pool| > d + 1 {
        var x := Kid(NewIndex(FirstKey(Branch(kids')), pool[d + 1]), Branch(kids'));
        LowerLo(Branch(kids'), d + 1, 0, Key(x), U32 - 1, cap, cap);
        OneKid(x, d + 1, 0, U32 - 1, cap);
        WfDepthIs(Branch([x]), d + 2, 0, U32 - 1, ROOT_MAX, cap);
      }
    }
  }

  lemma RootBranchOk(kids: seq<Kid>, d: nat, f: nat, p: nat, cap: nat, pool: seq<nat>)
    requires 1 <= |kids| <= ROOT_MAX && KidsWf(kids, d, 0, U32 - 1, cap) && f < U32 - 1 && 0 < p < U32 && 5 <= cap
    requires Find(KidsEnts(kids), f) == None && HasDepth(kids[Route(kids, f)].sub, d)
    ensures var ci := Route(kids, f);
            var r := RootRejoin(kids, ci, InsNode(kids[ci].sub, d, f, p, cap, pool), d + 1, pool);
            r.Done? ==> RootWf(r.t, cap) && MapAdds(KidsEnts(kids), Ents(r.t), f, p) && Depth(r.t) <= d + 2
  {
    var ci, up := DescendOk(kids, d, 0, U32 - 1, cap, f);
    InsNodeOk(kids[ci].sub, d, Min(f, Key(kids[ci])), up, cap, f, p, pool);
    RootRejoinOk(kids, d, cap, f, p, ci, up, InsNode(kids[ci].sub, d, f, p, cap, pool), pool);
  }

  lemma InsRootBranchIs(t: Tree, f: nat, p: nat, cap: nat, pool: seq<nat>)
    requires HasDepth(t, Depth(t)) && t.Branch? && t.kids != []
    ensures var ci, d := Route(t.kids, f), Depth(t);
            && d > 0 && HasDepth(t.kids[ci].sub, d - 1)
            && InsRoot(t, f, p, cap, pool) ==
               RootRejoin(t.kids, ci, InsNode(t.kids[ci].sub, d - 1, f, p, cap, pool), d, pool)
  {
  }

  lemma RootBounds(t: Tree, cap: nat)
    requires RootWf(t, cap) && t.Branch?
    ensures 1 <= |t.kids| <= ROOT_MAX && Depth(t) > 0 && KidsWf(t.kids, Depth(t) - 1, 0, U32 - 1, cap)
  {
  }

  /** `ext_insert` of an unmapped file block, when it succeeds: the tree stays well formed
      and its extents map exactly one block more, through every coalescing and split. */
  lemma InsRootOk(t: Tree, f: nat, p: nat, cap: nat, pool: seq<nat>)
    requires RootWf(t, cap) && HasDepth(t, Depth(t)) && f < U32 - 1 && 0 < p < U32 && 5 <= cap
    requires Find(Ents(t), f) == None
    ensures var r := InsRoot(t, f, p, cap, pool);
            r.Done? ==> RootWf(r.t, cap) && MapAdds(Ents(t), Ents(r.t), f, p) && Depth(r.t) <= Depth(t) + 1
  {
    match t
    case Leaf(es) => RootLeafOk(es, f, p, cap, pool);
    case Branch(kids) =>
      RootBounds(t, cap);
      InsRootBranchIs(t, f, p, cap, pool);
      RootBranchOk(kids, Depth(t) - 1, f, p, cap, pool);
  }

  /** The lookup of a root, including the empty one. */
  lemma RootLookup(t: Tree, cap: nat, f: nat)
    requires RootWf(t, cap)
    ensures Lookup(t, f) == Find(Ents(t), f)
  {
    if t != Leaf([]) {
      LookupFinds(t, Depth(t), 0, U32 - 1, ROOT_MAX, cap, f);
    }
  }

  /** Lookup after a successful insertion: the old answers, and p for f. */
  lemma InsertThenLookup(t: Tree, f: nat, p: nat, cap: nat, pool: seq<nat>, g: nat)
    requires RootWf(t, cap) && HasDepth(t, Depth(t)) && f < U32 - 1 && 0 < p < U32 && 5 <= cap
    requires Lookup(t, f) == None && InsRoot(t, f, p, cap, pool).Done?
    ensures Lookup(InsRoot(t, f, p, cap, pool).t, g) == if g == f then Some(p) else Lookup(t, g)
  {
    RootLookup(t, cap, f);
    RootLookup(t, cap, g);
    InsRootOk(t, f, p, cap, pool);
    RootLookup(InsRoot(t, f, p, cap, pool).t, cap, g);
  }
}
