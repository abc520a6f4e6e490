/** The driver's extent operations on disk nodes: `ext_lookup`, `leaf_insert`,
    `ext_ins_node`, `ext_root_grow` and `ext_insert` (kernel/fs/ext4.c:817-1324). */
module ExtentStore {
  import opened Words
  import opened Extents
  import T = ExtentTree
  import opened ExtentBlocks
  import opened ExtentDisk

  type Tree = T.Tree
  type Kid = T.Kid

  // ----- loops over the entries of one page

  method Position(es: seq<Slot>, f: nat) returns (pos: nat)
    ensures pos == Pos(es, f)
  {
    pos := 0;
    while pos < |es| && es[pos].key <= f
      invariant pos <= |es| && Pos(es, f) == pos + Pos(es[pos..], f)
    {
      assert es[pos..][1..] == es[pos + 1..];
      pos := pos + 1;
    }
  }

  method Search(es: seq<Slot>, f: nat) returns (r: Option<nat>)
    ensures r == Find(es, f)
  {
    for i := 0 to |es|
      invariant Find(es, f) == Find(es[i..], f)
    {
      if Covers(es[i], f) {
        return Some(Add32(es[i].addr, f - es[i].key));
      }
      assert es[i..][1..] == es[i + 1..];
    }
    return None;
  }

  /** The last entry whose key is at most f. */
  method Choose(slots: seq<Slot>, f: nat) returns (ci: nat, have: bool)
    ensures have ==> ci < |slots| && slots[ci].key <= f && forall i | ci < i < |slots| :: f < slots[i].key
    ensures !have ==> ci == 0 && forall i | 0 <= i < |slots| :: f < slots[i].key
  {
    ci, have := 0, false;
    for i := 0 to |slots|
      invariant have ==> ci < i && slots[ci].key <= f && forall j | ci < j < i :: f < slots[j].key
      invariant !have ==> ci == 0 && forall j | 0 <= j < i :: f < slots[j].key
    {
      if slots[i].key <= f {
        ci, have := i, true;
      }
    }
  }

  /** Make room at pos by moving the later entries up, then place s. */
  method Place(a: array<Slot>, n: nat, pos: nat, s: Slot)
    requires pos <= n < a.Length
    modifies a
    ensures a[..n + 1] == old(a[..pos]) + [s] + old(a[pos..n])
  {
    var i := n;
    ghost var o := a[..];
    while i > pos
      invariant pos <= i <= n
      invariant a[..i] == o[..i]
      invariant a[i + 1..n + 1] == o[i..n]
    {
      a[i] := a[i - 1];
      i := i - 1;
      assert a[i + 1..n + 1] == [a[i + 1]] + a[i + 2..n + 1];
    }
    a[pos] := s;
    assert a[..n + 1] == a[..pos] + [a[pos]] + a[pos + 1..n + 1];
  }

  method Insert(slots: seq<Slot>, pos: nat, s: Slot) returns (r: seq<Slot>)
    requires pos <= |slots|
    ensures r == slots[..pos] + [s] + slots[pos..]
  {
    var n := |slots|;
    var page := new Slot[n + 1](i => if 0 <= i < n then slots[i] else s);
    assert page[..n] == slots;
    Place(page, n, pos, s);
    assert page[..] == page[..n + 1];
    r := page[..];
  }

  /** The entries of a leaf after `leaf_insert`, in one page. */
  method PutEntry(es: seq<Slot>, f: nat, p: nat) returns (r: seq<Slot>)
    ensures r == LeafPut(es, f, p)
  {
    var pos := Position(es, f);
    if pos > 0 {
      var pr := es[pos - 1];
      if f < Add32(pr.key, Len(pr)) {
        return es;
      }
      if Add32(pr.key, Len(pr)) == f && Add32(pr.addr, Len(pr)) == p && Len(pr) < INIT_MAX {
        return es[pos - 1 := pr.(len := Len(pr) + 1)];
      }
    }
    if pos < |es| {
      var nx := es[pos];
      if nx.key == Add32(f, 1) && nx.addr == Add32(p, 1) && Len(nx) < INIT_MAX {
        return es[pos := Slot(f, Len(nx) + 1, p)];
      }
    }
    r := Insert(es, pos, NewExtent(f, p));
  }

  // ----- what an insertion below the root leaves

  /** The state after `ext_ins_node`, told by the tree function's result r. */
  ghost predicate After(r: T.Ins, d: nat, owner: nat, taken: nat, pool: seq<nat>, disk': map<nat, Node>,
                        pool': seq<nat>,
                        rc: int, n': Node, skey: nat, sblk: nat)
  {
    match r
    case Done(t') =>
      && rc == 0 && KidRepr(disk', T.Kid(Slot(0, 0, owner), t'), d) && disk'[owner] == n'
      && taken <= |pool| && pool' == pool[taken..]
    case Split(l, r) =>
      && rc == 1 && KidRepr(disk', T.Kid(Slot(0, 0, owner), l), d) && disk'[owner] == n'
      && d < |pool| && sblk == pool[d] && KidRepr(disk', T.Kid(Slot(0, 0, sblk), r), d)
      && skey == T.FirstKey(r) && pool' == pool[d + 1..]
    case Fail(t') => rc == -1 && KidRepr(disk', T.Kid(Slot(0, 0, owner), t'), d) && pool' == []
  }

  /** Only the tree's own blocks and the allocator's blocks were written. */
  ghost predicate OnlyTouched(disk: map<nat, Node>, disk': map<nat, Node>, t: Tree, owner: nat, pool: seq<nat>) {
    forall b: nat | b != owner && NodeUses(t, b) == 0 && PoolUses(pool, |pool|, b) == 0 :: SameAt(disk, disk', b)
  }

  lemma OthersUntouched(disk: map<nat, Node>, disk': map<nat, Node>, kids: seq<Kid>, ci: nat, owner: nat, p: nat,
                        pool: seq<nat>)
    requires ci < |kids| && Apart(T.Branch(kids), owner, p, pool)
    requires OnlyTouched(disk, disk', kids[ci].sub, kids[ci].slot.addr, pool)
    ensures OthersSame(disk, disk', kids, ci)
    ensures SameAt(disk, disk', owner)
    ensures OnlyTouched(disk, disk', T.Branch(kids), owner, pool)
  {
    forall i, b: nat | 0 <= i < |kids| && i != ci && KidUses(kids[i], b) > 0
      ensures SameAt(disk, disk', b)
    {
      KidsApart(kids, i, ci, b);
      assert Uses(T.Branch(kids), b) + One(b == owner) + One(b == p) + PoolUses(pool, |pool|, b) <= 1;
      assert KidUses(kids[ci], b) == 0;
    }
    KidAmong(kids, ci, owner);
    assert Uses(T.Branch(kids), owner) + One(owner == owner) + One(owner == p) + PoolUses(pool, |pool|, owner) <= 1;
    forall b: nat | b != owner && KidsUses(kids, b) == 0 && PoolUses(pool, |pool|, b) == 0
      ensures SameAt(disk, disk', b)
    {
      KidAmong(kids, ci, b);
    }
  }

  lemma TouchedMore(disk: map<nat, Node>, disk1: map<nat, Node>, disk2: map<nat, Node>, t: Tree, owner: nat,
                    pool: seq<nat>, i: nat)
    requires OnlyTouched(disk, disk1, t, owner, pool)
    requires forall b: nat | b != owner && (|pool| > i ==> b != pool[i]) :: SameAt(disk1, disk2, b)
    ensures OnlyTouched(disk, disk2, t, owner, pool)
  {
    forall b: nat | b != owner && NodeUses(t, b) == 0 && PoolUses(pool, |pool|, b) == 0
      ensures SameAt(disk, disk2, b)
    {
      if |pool| > i {
        PoolMember(pool, |pool|, i, b);
      }
      assert SameAt(disk, disk1, b) && SameAt(disk1, disk2, b);
    }
  }

  /** The entries and children that replace child ci once its insertion succeeded. */
  lemma AfterChild(disk: map<nat, Node>, disk': map<nat, Node>, slots: seq<Slot>, kids: seq<Kid>, ci: nat, d: nat,
                   owner: nat, p: nat, taken: nat, pool: seq<nat>, pool': seq<nat>, r: T.Ins,
                   rc: int, n': Node, skey: nat, sblk: nat)
    requires KidsRepr(disk, slots, kids, d) && ci < |kids| && Apart(T.Branch(kids), owner, p, pool)
    requires OnlyTouched(disk, disk', kids[ci].sub, kids[ci].slot.addr, pool)
    requires After(r, d, kids[ci].slot.addr, taken, pool, disk', pool', rc, n', skey, sblk)
    ensures !r.Fail? ==> NodeKey(n') == T.FirstKey(if r.Done? then r.t else r.l)
    ensures r.Done? ==>
      KidsRepr(disk', slots[ci := slots[ci].(key := NodeKey(n'))], T.Splice(kids, ci, T.Mid(kids[ci], r, 0)), d)
    ensures r.Split? ==>
      var slots' := slots[ci := slots[ci].(key := NodeKey(n'))];
      KidsRepr(disk', slots'[..ci + 1] + [NewIndex(skey, sblk)] + slots'[ci + 1..],
               T.Splice(kids, ci, T.Mid(kids[ci], r, pool[d])), d)
    ensures !r.Done? ==> KidsRepr(disk', slots, kids[ci := T.Kid(kids[ci].slot, if r.Fail? then r.t else r.l)], d)
  {
    OthersUntouched(disk, disk', kids, ci, owner, p, pool);
    if !r.Fail? {
      NodeKeyIs(disk', n', if r.Done? then r.t else r.l, d);
      var mid := T.Mid(kids[ci], r, if r.Split? then pool[d] else 0);
      var midSlots := seq(|mid|, i requires 0 <= i < |mid| => mid[i].slot);
      SpliceRepr(disk, disk', slots, kids, ci, mid, midSlots, d);
      var slots' := slots[ci := slots[ci].(key := NodeKey(n'))];
      if r.Done? {
        assert slots' == slots[..ci] + midSlots + slots[ci + 1..];
      } else {
        assert slots'[..ci + 1] + [NewIndex(skey, sblk)] + slots'[ci + 1..] == slots[..ci] + midSlots + slots[ci + 1..];
      }
    }
    if !r.Done? {
      SubRepr(disk, disk', slots, kids, ci, if r.Fail? then r.t else r.l, d);
    }
  }

  /** Everything the recursive call needs about child ci. */
  lemma Ready(disk: map<nat, Node>, n: Node, kids: seq<Kid>, d: nat, lo: nat, hi: nat, cap: nat, f: nat,
              owner: nat, p: nat, pool: seq<nat>, ci: nat) returns (up: nat)
    requires n.depth == d + 1 && Repr(disk, n, T.Branch(kids), d + 1) && Apart(T.Branch(kids), owner, p, pool)
    requires kids != [] && T.KidsWf(kids, d, lo, hi, cap) && Find(T.KidsEnts(kids), f) == None && lo <= f < hi
    requires (ci < |n.slots| && n.slots[ci].key <= f && forall i | ci < i < |n.slots| :: f < n.slots[i].key) ||
             (ci == 0 && forall i | 0 <= i < |n.slots| :: f < n.slots[i].key)
    ensures ci == T.Route(kids, f) && n.slots[ci] == kids[ci].slot
    ensures KidsRepr(disk, n.slots, kids, d) && KidRepr(disk, kids[ci], d) && disk[kids[ci].slot.addr].depth == d
    ensures Apart(kids[ci].sub, kids[ci].slot.addr, p, pool)
    ensures T.Wf(kids[ci].sub, d, Min(f, T.Key(kids[ci])), up, cap, cap) && T.HasDepth(kids[ci].sub, d)
    ensures Find(T.Ents(kids[ci].sub), f) == None && f < up <= hi
  {
    assert forall i | 0 <= i < |n.slots| :: n.slots[i].key == T.Key(kids[i]);
    var ci', up' := T.DescendOk(kids, d, lo, hi, cap, f);
    up := up';
    assert ci == ci';
    T.WfDepth(kids[ci].sub, d, Min(f, T.Key(kids[ci])), up, cap, cap);
    BranchRepr(disk, n.slots, kids, d);
    ChildApart(kids, ci, owner, p, pool);
    NodeKeyIs(disk, disk[kids[ci].slot.addr], kids[ci].sub, d);
  }

  /** The children after the splice use the old blocks, p, and the blocks taken. */
  ghost predicate ChildGrew(kids: seq<Kid>, ci: nat, r: T.Ins, d: nat, taken: nat, p: nat, pool: seq<nat>)
    requires ci < |kids|
  {
    && (r.Split? ==> taken == d < |pool|)
    && (r.Done? ==> taken <= |pool|)
    && (!r.Fail? ==> forall b: nat :: Grew(r, kids[ci].sub, p, pool, taken, b))
  }

  lemma ChildGrows(kids: seq<Kid>, ci: nat, r: T.Ins, d: nat, f: nat, p: nat, cap: nat, pool: seq<nat>, taken: nat,
                   lo: nat, up: nat)
    requires ci < |kids| && T.HasDepth(kids[ci].sub, d) && r == T.InsNode(kids[ci].sub, d, f, p, cap, pool)
    requires T.Wf(kids[ci].sub, d, lo, up, cap, cap) && lo <= f < up < U32 && 0 < p < U32
    requires Find(T.Ents(kids[ci].sub), f) == None && taken == Taken(kids[ci].sub, d, f, p, cap, pool)
    ensures ChildGrew(kids, ci, r, d, taken, p, pool)
  {
    forall b: nat
      ensures Grew(r, kids[ci].sub, p, pool, taken, b)
    {
      InsNodeGrew(kids[ci].sub, d, lo, up, cap, f, p, pool, b);
    }
  }

  /** Neither the node's own block nor a block still in the pool is used below it. */
  lemma UnusedBelow(kids: seq<Kid>, ci: nat, r: T.Ins, d: nat, taken: nat, owner: nat, p: nat, pool: seq<nat>, b: nat)
    requires ci < |kids| && Apart(T.Branch(kids), owner, p, pool) && ChildGrew(kids, ci, r, d, taken, p, pool)
             && !r.Fail?
    requires var m := if r.Split? then d + 1 else taken; b == owner || (m < |pool| && b == pool[m])
    ensures ListUses(T.Splice(kids, ci, T.Mid(kids[ci], r, if r.Split? then pool[d] else 0)), b) == 0
    ensures b in pool ==> b != owner
  {
    var m := if r.Split? then d + 1 else taken;
    assert Grew(r, kids[ci].sub, p, pool, taken, b);
    SpliceGrows(kids, ci, r, p, pool, taken, b);
    assert Uses(T.Branch(kids), b) + One(b == owner) + One(b == p) + PoolUses(pool, |pool|, b) <= 1;
    if b in pool {
      var i :| 0 <= i < |pool| && pool[i] == b;
      PoolMember(pool, |pool|, i, b);
    }
    PoolMono(pool, m, b);
    if b != owner {
      PoolMono(pool, m + 1, b);
    }
  }

  lemma NotZero(pool: seq<nat>, i: nat)
    requires i < |pool| && PoolUses(pool, |pool|, 0) == 0
    ensures pool[i] != 0
  {
    PoolMember(pool, |pool|, i, 0);
  }

  lemma {:induction false} PoolMono(pool: seq<nat>, n: nat, b: nat)
    requires n <= |pool|
    ensures PoolUses(pool, n, b) <= PoolUses(pool, |pool|, b)
    decreases |pool| - n
  {
    if n < |pool| {
      PoolMono(pool, n + 1, b);
    }
  }

  /** Storing an index node over children that do not use its block. */
  lemma Stored(disk: map<nat, Node>, slots: seq<Slot>, kids: seq<Kid>, d: nat, b: nat)
    requires KidsRepr(disk, slots, kids, d) && KidsUses(kids, b) == 0
    ensures KidRepr(disk[b := Node(d + 1, slots)], T.Kid(Slot(0, 0, b), T.Branch(kids)), d + 1)
    ensures KidsRepr(disk[b := Node(d + 1, slots)], slots, kids, d)
  {
    StoreFrame(disk, slots, kids, d, b, Node(d + 1, slots));
    BranchRepr(disk[b := Node(d + 1, slots)], slots, kids, d);
  }

  /** Storing the two halves of a split index node. */
  lemma StoredHalves(disk: map<nat, Node>, slots: seq<Slot>, kids: seq<Kid>, d: nat, h: nat, b: nat, c: nat)
    requires KidsRepr(disk, slots, kids, d) && h <= |kids| && KidsUses(kids, b) == 0 && KidsUses(kids, c) == 0 && b != c
    ensures var disk' := disk[c := Node(d + 1, slots[h..])][b := Node(d + 1, slots[..h])];
            && KidRepr(disk', T.Kid(Slot(0, 0, b), T.Branch(kids[..h])), d + 1)
            && KidRepr(disk', T.Kid(Slot(0, 0, c), T.Branch(kids[h..])), d + 1)
  {
    var n2, n1 := Node(d + 1, slots[h..]), Node(d + 1, slots[..h]);
    StoreFrame(disk, slots, kids, d, c, n2);
    StoreFrame(disk[c := n2], slots, kids, d, b, n1);
    var disk' := disk[c := n2][b := n1];
    KidsReprHalves(disk', slots, kids, d, h);
    BranchRepr(disk', slots[..h], kids[..h], d);
    BranchRepr(disk', slots[h..], kids[h..], d);
  }

  lemma TwoApart(pool: seq<nat>)
    requires |pool| > 1 && forall b: nat :: PoolUses(pool, |pool|, b) <= 1
    ensures pool[0] != pool[1]
  {
    var b := pool[1];
    PoolMono(pool, 2, b);
    assert PoolUses(pool, 2, b) == PoolUses(pool, 1, b) + One(pool[1] == b);
    assert PoolUses(pool, 1, b) == PoolUses(pool, 0, b) + One(pool[0] == b);
    assert PoolUses(pool, |pool|, b) <= 1;
  }

  /** A root over two leaves in the first two blocks of the pool. */
  lemma TwoLeaves(disk: map<nat, Node>, disk': map<nat, Node>, a: seq<Slot>, c: seq<Slot>, pool: seq<nat>)
    requires |pool| > 1 && pool[0] != pool[1]
    requires disk' == disk[pool[1] := Node(0, a)][pool[0] := Node(0, c)]
    ensures var l, r := T.Leaf(a), T.Leaf(c);
            var kids := [T.Kid(NewIndex(T.FirstKey(l), pool[1]), l), T.Kid(NewIndex(T.FirstKey(r), pool[0]), r)];
            Repr(disk', Node(1, [kids[0].slot, kids[1].slot]), T.Branch(kids), 1)
    ensures forall b: nat | PoolUses(pool, |pool|, b) == 0 :: SameAt(disk, disk', b)
  {
    var l, r := T.Leaf(a), T.Leaf(c);
    var kids := [T.Kid(NewIndex(T.FirstKey(l), pool[1]), l), T.Kid(NewIndex(T.FirstKey(r), pool[0]), r)];
    assert KidRepr(disk', kids[0], 0) && KidRepr(disk', kids[1], 0);
    BranchRepr(disk', [kids[0].slot, kids[1].slot], kids, 0);
    forall b: nat | PoolUses(pool, |pool|, b) == 0
      ensures SameAt(disk, disk', b)
    {
      PoolMember(pool, |pool|, 0, b);
      PoolMember(pool, |pool|, 1, b);
    }
  }

  /** The root with the left half's key repaired and the right half not entered. */
  lemma KeptRepr(disk: map<nat, Node>, slots: seq<Slot>, kids: seq<Kid>, ci: nat, l: Tree, d: nat)
    requires ci < |kids| && KidsRepr(disk, slots, kids[ci := T.Kid(kids[ci].slot, l)], d)
    ensures KidsRepr(disk, slots[ci := slots[ci].(key := T.FirstKey(l))], kids[ci := T.Rekeyed(kids[ci], l)], d)
  {
    var kept := kids[ci := T.Kid(kids[ci].slot, l)];
    var kept', slots' := kids[ci := T.Rekeyed(kids[ci], l)], slots[ci := slots[ci].(key := T.FirstKey(l))];
    forall i | 0 <= i < |kept'|
      ensures slots'[i] == kept'[i].slot && KidRepr(disk, kept'[i], d)
    {
      assert slots[i] == kept[i].slot && KidRepr(disk, kept[i], d);
    }
  }

  /** The state after `ext_insert`, told by the tree function's result. */
  ghost predicate RootAfter(r: T.Ins, taken: nat, pool: seq<nat>, disk': map<nat, Node>, root': Node, pool': seq<nat>,
                            rc: int) {
    && !r.Split?
    && (r.Done? <==> rc == 0) && (r.Fail? <==> rc == -1)
    && Repr(disk', root', r.t, root'.depth)
    && (r.Done? ==> taken <= |pool| && pool' == pool[taken..])
    && (r.Fail? ==> pool' == if r.t.Leaf? then pool else [])
  }

  class ExtentFile {
    /** `node_max(0)`. */
    const cap: nat
    var disk: map<nat, Node>
    /** The node in the inode. */
    var root: Node
    /** The blocks the allocator's next calls will return; empty when it is out of space. */
    var pool: seq<nat>

    constructor (cap: nat, disk: map<nat, Node>, root: Node, pool: seq<nat>)
      ensures this.cap == cap && this.disk == disk && this.root == root && this.pool == pool
    {
      this.cap, this.disk, this.root, this.pool := cap, disk, root, pool;
    }

    method AllocBlock() returns (b: nat)
      modifies this`pool
      ensures old(pool) == [] ==> b == 0 && pool == []
      ensures old(pool) != [] ==> b == old(pool)[0] && pool == old(pool)[1..]
    {
      if pool == [] {
        return 0;
      }
      b, pool := pool[0], pool[1..];
    }

    /** `ext_lookup`. */
    method Lookup(f: nat, ghost t: Tree) returns (r: Option<nat>)
      requires Repr(disk, root, t, root.depth)
      ensures r == T.Lookup(t, f)
    {
      var n := root;
      ghost var cur := t;
      if n.slots == [] {
        return None;
      }
      while n.depth > 0
        invariant Repr(disk, n, cur, n.depth) && T.Lookup(cur, f) == T.Lookup(t, f)
        decreases n.depth
      {
        var ci, have := Choose(n.slots, f);
        assert forall i | 0 <= i < |n.slots| :: n.slots[i].key == T.Key(cur.kids[i]);
        if !have {
          return None;
        }
        assert ci == T.Route(cur.kids, f);
        cur := cur.kids[ci].sub;
        n := disk[n.slots[ci].addr];
        NodeKeyIs(disk, n, cur, n.depth);
      }
      r := Search(n.slots, f);
    }

    /** `leaf_insert` below the root. */
    method LeafInsert(n: Node, owner: nat, f: nat, p: nat, ghost t: Tree)
      returns (rc: int, n': Node, skey: nat, sblk: nat)
      requires Repr(disk, n, t, 0) && owner in disk && disk[owner] == n && Apart(t, owner, p, pool)
      requires 1 <= cap
      modifies this`disk, this`pool
      ensures After(T.InsNode(t, 0, f, p, cap, old(pool)), 0, owner, Taken(t, 0, f, p, cap, old(pool)), old(pool),
                    disk, pool, rc, n', skey, sblk)
      ensures OnlyTouched(old(disk), disk, t, owner, old(pool))
    {
      skey, sblk, n' := 0, 0, n;
      var es := PutEntry(n.slots, f, p);
      if |es| <= cap {
        n' := Node(0, es);
        disk := disk[owner := n'];
        return 0, n', 0, 0;
      }
      var left := (|es| + 1) / 2;
      sblk := AllocBlock();
      if sblk == 0 {
        assert old(pool) == [] by {
          if old(pool) != [] { PoolMember(old(pool), |old(pool)|, 0, 0); }
        }
        return -1, n, 0, 0;
      }
      n' := Node(0, es[..left]);
      var n2 := Node(0, es[left..]);
      PoolMember(old(pool), |old(pool)|, 0, sblk);
      assert sblk != owner;
      disk := disk[sblk := n2];
      disk := disk[owner := n'];
      skey := NodeKey(n2);
      rc := 1;
      assert old(pool)[0 + 1..] == pool;
    }

    /** `ext_ins_node` below the root: descend, repair the key, split when full. */
    method InsNode(n: Node, owner: nat, f: nat, p: nat, ghost t: Tree, ghost lo: nat, ghost hi: nat)
      returns (rc: int, n': Node, skey: nat, sblk: nat)
      requires Repr(disk, n, t, n.depth) && owner in disk && disk[owner] == n && Apart(t, owner, p, pool)
      requires T.Wf(t, n.depth, lo, hi, cap, cap) && T.HasDepth(t, n.depth) && Find(T.Ents(t), f) == None
      requires lo <= f < hi < U32 && 0 < p < U32 && 3 <= cap
      modifies this`disk, this`pool
      ensures After(T.InsNode(t, n.depth, f, p, cap, old(pool)), n.depth, owner,
                    Taken(t, n.depth, f, p, cap, old(pool)), old(pool), disk, pool, rc, n', skey, sblk)
      ensures OnlyTouched(old(disk), disk, t, owner, old(pool))
      decreases n.depth, 1
    {
      if n.depth == 0 {
        rc, n', skey, sblk := LeafInsert(n, owner, f, p, t);
        return;
      }
      rc, n', skey, sblk := InsIndex(n, owner, f, p, t, lo, hi);
    }

    /** ... on an index node. */
    method InsIndex(n: Node, owner: nat, f: nat, p: nat, ghost t: Tree, ghost lo: nat, ghost hi: nat)
      returns (rc: int, n': Node, skey: nat, sblk: nat)
      requires n.depth > 0
      requires Repr(disk, n, t, n.depth) && owner in disk && disk[owner] == n && Apart(t, owner, p, pool)
      requires T.Wf(t, n.depth, lo, hi, cap, cap) && T.HasDepth(t, n.depth) && Find(T.Ents(t), f) == None
      requires lo <= f < hi < U32 && 0 < p < U32 && 3 <= cap
      modifies this`disk, this`pool
      ensures After(T.InsNode(t, n.depth, f, p, cap, old(pool)), n.depth, owner,
                    Taken(t, n.depth, f, p, cap, old(pool)), old(pool), disk, pool, rc, n', skey, sblk)
      ensures OnlyTouched(old(disk), disk, t, owner, old(pool))
      decreases n.depth, 0
    {
      var ci, have := Choose(n.slots, f);
      ghost var d, kids := n.depth - 1, t.kids;
      ghost var up := Ready(disk, n, kids, d, lo, hi, cap, f, owner, p, pool, ci);
      T.InsBranchIs(kids, n.depth, f, p, cap, pool);
      TakenIs(kids, n.depth, f, p, cap, pool);
      var cblk := n.slots[ci].addr;
      var cb := disk[cblk];
      ghost var sub := kids[ci].sub;
      ghost var r, taken := T.InsNode(sub, d, f, p, cap, pool), Taken(sub, d, f, p, cap, pool);
      ChildGrows(kids, ci, r, d, f, p, cap, pool, taken, Min(f, T.Key(kids[ci])), up);
      var crc, cb', ckey, csblk := InsNode(cb, cblk, f, p, sub, Min(f, T.Key(kids[ci])), up);
      rc, n', skey, sblk := FinishNode(n, owner, ci, p, crc, cb', ckey, csblk, kids, r, taken, old(disk), old(pool));
    }

    /** `ext_ins_node` after the recursive call. */
    method FinishNode(n: Node, owner: nat, ci: nat, p: nat, crc: int, cb: Node, ckey: nat, csblk: nat,
                      ghost kids: seq<Kid>, ghost r: T.Ins, ghost taken: nat, ghost disk0: map<nat, Node>,
                        ghost pool0: seq<nat>)
      returns (rc: int, n': Node, skey: nat, sblk: nat)
      requires n.depth > 0 && KidsRepr(disk0, n.slots, kids, n.depth - 1) && ci < |kids|
      requires Apart(T.Branch(kids), owner, p, pool0) && owner in disk0 && disk0[owner] == n && 3 <= cap
      requires OnlyTouched(disk0, disk, kids[ci].sub, kids[ci].slot.addr, pool0)
      requires After(r, n.depth - 1, kids[ci].slot.addr, taken, pool0, disk, pool, crc, cb, ckey, csblk)
      requires ChildGrew(kids, ci, r, n.depth - 1, taken, p, pool0)
      requires r.Fail? ==> |pool0| < n.depth
      modifies this`disk, this`pool
      ensures After(T.Rejoin(kids, ci, r, n.depth, cap, pool0), n.depth, owner, if r.Split? then n.depth
                    else taken, pool0,
                    disk, pool, rc, n', skey, sblk)
      ensures OnlyTouched(disk0, disk, T.Branch(kids), owner, pool0)
    {
      ghost var d := n.depth - 1;
      AfterChild(disk0, disk, n.slots, kids, ci, d, owner, p, taken, pool0, pool, r, crc, cb, ckey, csblk);
      OthersUntouched(disk0, disk, kids, ci, owner, p, pool0);
      if crc < 0 {
        BranchRepr(disk, n.slots, kids[ci := T.Kid(kids[ci].slot, r.t)], d);
        return -1, n, 0, 0;
      }
      UnusedBelow(kids, ci, r, d, taken, owner, p, pool0, owner);
      var slots := n.slots[ci := n.slots[ci].(key := NodeKey(cb))];
      if crc == 0 {
        n' := StoreNode(owner, Node(n.depth, slots), T.Splice(kids, ci, T.Mid(kids[ci], r, 0)));
        return 0, n', 0, 0;
      }
      slots := Insert(slots, ci + 1, NewIndex(ckey, csblk));
      ghost var kids' := T.Splice(kids, ci, T.Mid(kids[ci], r, pool0[d]));
      if |pool0| > d + 1 {
        UnusedBelow(kids, ci, r, d, taken, owner, p, pool0, pool0[d + 1]);
        NotZero(pool0, d + 1);
      }
      ghost var disk1 := disk;
      rc, n', skey, sblk := AddChild(owner, n, slots, kids', kids[ci := T.Kid(kids[ci].slot, r.l)], pool0);
      TouchedMore(disk0, disk1, disk, T.Branch(kids), owner, pool0, n.depth);
    }

    /** One more child in an index node: store it if it fits, otherwise split. */
    method AddChild(owner: nat, n: Node, slots: seq<Slot>, ghost kids: seq<Kid>, ghost kept: seq<Kid>,
                    ghost pool0: seq<nat>)
      returns (rc: int, n': Node, skey: nat, sblk: nat)
      requires n.depth > 0 && KidsRepr(disk, slots, kids, n.depth - 1) && |slots| == |n.slots| + 1 && |kids| > 1
      requires owner in disk && disk[owner] == n && KidsUses(kids, owner) == 0
      requires KidsRepr(disk, n.slots, kept, n.depth - 1)
      requires n.depth <= |pool0| && pool == pool0[n.depth..]
      requires pool != [] ==> pool[0] != 0 && pool[0] != owner && KidsUses(kids, pool[0]) == 0
      modifies this`disk, this`pool
      ensures After(T.Packed(kids, kept, n.depth, cap, pool0), n.depth, owner, n.depth, pool0, disk, pool, rc, n', skey,
                    sblk)
      ensures forall b: nat | b != owner && (|pool0| > n.depth ==> b != pool0[n.depth]) :: SameAt(old(disk), disk, b)
    {
      if |n.slots| < cap {
        n' := StoreNode(owner, Node(n.depth, slots), kids);
        return 0, n', 0, 0;
      }
      rc, n', skey, sblk := SplitNode(owner, Node(n.depth, slots), kids);
      if rc < 0 {
        BranchRepr(disk, n.slots, kept, n.depth - 1);
      }
    }

    /** The index split: the upper half moves to a new block. */
    method SplitNode(owner: nat, n: Node, ghost kids: seq<Kid>) returns (rc: int, n': Node, skey: nat, sblk: nat)
      requires n.depth > 0 && KidsRepr(disk, n.slots, kids, n.depth - 1) && KidsUses(kids, owner) == 0 && |kids| > 1
      requires pool != [] ==> pool[0] != 0 && pool[0] != owner && KidsUses(kids, pool[0]) == 0
      modifies this`disk, this`pool
      ensures old(pool) == [] ==> rc == -1 && disk == old(disk) && pool == []
      ensures old(pool) != [] ==>
        var h := T.Half(|kids|);
        && rc == 1 && sblk == old(pool)[0] && pool == old(pool)[1..]
        && skey == T.Key(kids[h]) && n' == Node(n.depth, n.slots[..h])
        && disk == old(disk)[sblk := Node(n.depth, n.slots[h..])][owner := n']
        && KidRepr(disk, T.Kid(Slot(0, 0, owner), T.Branch(kids[..h])), n.depth)
        && KidRepr(disk, T.Kid(Slot(0, 0, sblk), T.Branch(kids[h..])), n.depth)
    {
      var left := (|n.slots| + 1) / 2;
      sblk := AllocBlock();
      if sblk == 0 {
        return -1, n, 0, 0;
      }
      StoredHalves(disk, n.slots, kids, n.depth - 1, left, owner, sblk);
      n' := Node(n.depth, n.slots[..left]);
      var n2 := Node(n.depth, n.slots[left..]);
      disk := disk[sblk := n2];
      disk := disk[owner := n'];
      skey, rc := NodeKey(n2), 1;
    }

    /** `ext4_store_block` of an index node. */
    method StoreNode(owner: nat, n: Node, ghost kids: seq<Kid>) returns (n': Node)
      requires n.depth > 0 && KidsRepr(disk, n.slots, kids, n.depth - 1) && KidsUses(kids, owner) == 0
      modifies this`disk
      ensures disk == old(disk)[owner := n] && n' == n
      ensures KidRepr(disk, T.Kid(Slot(0, 0, owner), T.Branch(kids)), n.depth)
    {
      Stored(disk, n.slots, kids, n.depth - 1, owner);
      disk := disk[owner := n];
      n' := n;
    }

    /** `ext_insert`: the inode's own node, with root split and root growth. */
    method ExtInsert(f: nat, p: nat, ghost t: Tree) returns (rc: int)
      requires Repr(disk, root, t, root.depth) && root.depth == T.Depth(t) && Apart(t, 0, p, pool)
      requires T.RootWf(t, cap) && T.HasDepth(t, T.Depth(t)) && Find(T.Ents(t), f) == None
      requires f < U32 - 1 && 0 < p < U32 && 5 <= cap
      modifies this`disk, this`pool, this`root
      ensures RootAfter(T.InsRoot(t, f, p, cap, old(pool)), RootTaken(t, f, p, cap, old(pool)), old(pool), disk, root,
                        pool, rc)
      ensures OnlyTouched(old(disk), disk, t, 0, old(pool))
    {
      if root.depth == 0 {
        rc := RootLeafInsert(f, p, t);
      } else {
        T.RootBounds(t, cap);
        T.InsRootBranchIs(t, f, p, cap, pool);
        RootTakenIs(t, f, p, cap, pool);
        ghost var sub, d := t.kids[T.Route(t.kids, f)].sub, T.Depth(t) - 1;
        rc := RootIndexInsert(root, f, p, t.kids, T.InsNode(sub, d, f, p, cap, pool), Taken(sub, d, f, p, cap, pool));
      }
    }

    /** `leaf_insert` on the root: a full root leaf moves into two new blocks. */
    method RootLeafInsert(f: nat, p: nat, ghost t: Tree) returns (rc: int)
      requires Repr(disk, root, t, 0) && Apart(t, 0, p, pool) && T.HasDepth(t, T.Depth(t))
      modifies this`disk, this`pool, this`root
      ensures RootAfter(T.InsRoot(t, f, p, cap, old(pool)), RootTaken(t, f, p, cap, old(pool)), old(pool), disk, root,
                        pool, rc)
      ensures OnlyTouched(old(disk), disk, t, 0, old(pool))
    {
      hide LeafPut, PoolUses;
      var es := PutEntry(root.slots, f, p);
      if |es| <= T.ROOT_MAX {
        root := Node(0, es);
        return 0;
      }
      if |pool| > 0 { NotZero(pool, 0); }
      if |pool| > 1 { NotZero(pool, 1); TwoApart(pool); }
      var nblk := AllocBlock();
      if nblk == 0 {
        return -1;
      }
      var la := AllocBlock();
      if la == 0 {
        pool := [nblk] + pool;
        return -1;
      }
      var left := (|es| + 1) / 2;
      var p1, p2 := Node(0, es[..left]), Node(0, es[left..]);
      disk := disk[la := p1];
      disk := disk[nblk := p2];
      root := Node(1, [NewIndex(NodeKey(p1), la), NewIndex(NodeKey(p2), nblk)]);
      TwoLeaves(old(disk), disk, es[..left], es[left..], old(pool));
      rc := 0;
    }

    /** `ext_ins_node` on an index root. */
    method RootIndexInsert(n: Node, f: nat, p: nat, ghost kids: seq<Kid>, ghost r: T.Ins, ghost taken: nat)
      returns (rc: int)
      requires root == n && n.depth > 0 && Repr(disk, n, T.Branch(kids), n.depth) && Apart(T.Branch(kids), 0, p, pool)
      requires 1 <= |kids| <= T.ROOT_MAX && T.KidsWf(kids, n.depth - 1, 0, U32 - 1, cap)
      requires Find(T.KidsEnts(kids), f) == None && T.HasDepth(kids[T.Route(kids, f)].sub, n.depth - 1)
      requires r == T.InsNode(kids[T.Route(kids, f)].sub, n.depth - 1, f, p, cap, pool)
      requires taken == Taken(kids[T.Route(kids, f)].sub, n.depth - 1, f, p, cap, pool)
      requires f < U32 - 1 && 0 < p < U32 && 5 <= cap
      modifies this`disk, this`pool, this`root
      ensures RootAfter(T.RootRejoin(kids, T.Route(kids, f), r, n.depth, old(pool)),
                        if !r.Split? then taken else if |kids| < T.ROOT_MAX then n.depth else n.depth + 1,
                        old(pool), disk, root, pool, rc)
      ensures OnlyTouched(old(disk), disk, T.Branch(kids), 0, old(pool))
    {
      var ci, have := Choose(n.slots, f);
      ghost var d := n.depth - 1;
      ghost var up := Ready(disk, n, kids, d, 0, U32 - 1, cap, f, 0, p, pool, ci);
      var cblk := n.slots[ci].addr;
      var cb := disk[cblk];
      ghost var sub := kids[ci].sub;
      ChildGrows(kids, ci, r, d, f, p, cap, pool, taken, Min(f, T.Key(kids[ci])), up);
      var crc, cb', ckey, csblk := InsNode(cb, cblk, f, p, sub, Min(f, T.Key(kids[ci])), up);
      rc := FinishRoot(n, ci, p, crc, cb', ckey, csblk, kids, r, taken, old(disk), old(pool));
    }

    /** ... after the recursive call. */
    method FinishRoot(n: Node, ci: nat, p: nat, crc: int, cb: Node, ckey: nat, csblk: nat,
                      ghost kids: seq<Kid>, ghost r: T.Ins, ghost taken: nat, ghost disk0: map<nat, Node>,
                        ghost pool0: seq<nat>)
      returns (rc: int)
      requires root == n && n.depth > 0 && KidsRepr(disk0, n.slots, kids, n.depth - 1) && ci < |kids| <= T.ROOT_MAX
      requires Apart(T.Branch(kids), 0, p, pool0)
      requires OnlyTouched(disk0, disk, kids[ci].sub, kids[ci].slot.addr, pool0)
      requires After(r, n.depth - 1, kids[ci].slot.addr, taken, pool0, disk, pool, crc, cb, ckey, csblk)
      requires ChildGrew(kids, ci, r, n.depth - 1, taken, p, pool0)
      modifies this`disk, this`pool, this`root
      ensures RootAfter(T.RootRejoin(kids, ci, r, n.depth, pool0),
                        if !r.Split? then taken else if |kids| < T.ROOT_MAX then n.depth else n.depth + 1,
                        pool0, disk, root, pool, rc)
      ensures OnlyTouched(disk0, disk, T.Branch(kids), 0, pool0)
    {
      ghost var d := n.depth - 1;
      AfterChild(disk0, disk, n.slots, kids, ci, d, 0, p, taken, pool0, pool, r, crc, cb, ckey, csblk);
      OthersUntouched(disk0, disk, kids, ci, 0, p, pool0);
      if crc < 0 {
        BranchRepr(disk, n.slots, kids[ci := T.Kid(kids[ci].slot, r.t)], d);
        return -1;
      }
      var slots := n.slots[ci := n.slots[ci].(key := NodeKey(cb))];
      if crc == 0 {
        root := Node(n.depth, slots);
        BranchRepr(disk, slots, T.Splice(kids, ci, T.Mid(kids[ci], r, 0)), d);
        return 0;
      }
      ghost var kids' := T.Splice(kids, ci, T.Mid(kids[ci], r, pool0[d]));
      ghost var kept := kids[ci := T.Rekeyed(kids[ci], r.l)];
      KeptRepr(disk, n.slots, kids, ci, r.l, d);
      if |pool0| > d + 1 {
        UnusedBelow(kids, ci, r, d, taken, 0, p, pool0, pool0[d + 1]);
        NotZero(pool0, d + 1);
      }
      ghost var disk1 := disk;
      rc := RootAddChild(ci, slots, ckey, csblk, kids', kept, pool0);
      TouchedMore(disk0, disk1, disk, T.Branch(kids), 0, pool0, d + 1);
    }

    /** One more child in an index root: place it, or grow the tree by a level. */
    method RootAddChild(ci: nat, slots: seq<Slot>, ckey: nat, csblk: nat, ghost kids: seq<Kid>, ghost kept: seq<Kid>,
                        ghost pool0: seq<nat>)
      returns (rc: int)
      requires root.depth > 0 && ci < |slots| == |root.slots| <= T.ROOT_MAX
      requires KidsRepr(disk, slots[..ci + 1] + [NewIndex(ckey, csblk)] + slots[ci + 1..], kids, root.depth - 1)
      requires KidsRepr(disk, slots, kept, root.depth - 1)
      requires root.depth <= |pool0| && pool == pool0[root.depth..]
      requires pool != [] ==> pool[0] != 0 && KidsUses(kids, pool[0]) == 0
      modifies this`disk, this`pool, this`root
      ensures RootAfter(T.RootPacked(kids, kept, old(root.depth), pool0),
                        if |kids| <= T.ROOT_MAX then old(root.depth)
                           else old(root.depth) + 1, pool0, disk, root, pool, rc)
      ensures forall b: nat | b != 0 && (|pool0| > old(root.depth) ==> b != pool0[old(root.depth)]) ::
              SameAt(old(disk), disk, b)
    {
      ghost var d := root.depth - 1;
      if |slots| < T.ROOT_MAX {
        var slots' := Insert(slots, ci + 1, NewIndex(ckey, csblk));
        root := Node(root.depth, slots');
        BranchRepr(disk, slots', kids, d);
        return 0;
      }
      root := Node(root.depth, slots);
      BranchRepr(disk, slots, kept, d);
      // ext_root_grow: copy the root into a new block, leave one index entry
      var nblk := AllocBlock();
      if nblk == 0 {
        return -1;
      }
      var np := root;
      disk := disk[nblk := np];
      root := Node(np.depth + 1, [NewIndex(NodeKey(np), nblk)]);
      // read it back, place the new child, repair the key
      var nb := disk[root.slots[0].addr];
      var slots' := Insert(nb.slots, ci + 1, NewIndex(ckey, csblk));
      nb := Node(nb.depth, slots');
      Stored(old(disk), slots', kids, d, nblk);
      assert disk[nblk := nb] == old(disk)[nblk := nb];
      disk := disk[nblk := nb];
      root := Node(root.depth, [root.slots[0].(key := NodeKey(nb))]);
      ghost var top := [T.Kid(NewIndex(T.FirstKey(T.Branch(kids)), nblk), T.Branch(kids))];
      assert KidRepr(disk, top[0], d + 1);
      BranchRepr(disk, root.slots, top, d + 1);
      rc := 0;
    }
  }
}
