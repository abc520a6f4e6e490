/** The extent tree as the driver keeps it: a root in the inode, node blocks on disk, a
    page buffer per node, blocks handed out by the allocator (kernel/fs/ext4.c:817-1324).
    Every method is proved against the functions of `ExtentTree`. */
module ExtentDisk {
  import opened Extents
  import opened ExtentTree
  import opened ExtentBlocks

  /** A node as its header depth and its entries. */
  datatype Node = Node(depth: nat, slots: seq<Slot>)

  /** Entries a 4096-byte scratch page holds after the 12-byte header. */
  const PAGE_SLOTS := 340

  /** `node_max(0)`: entries of a node block after the header and before the checksum. */
  function NodeMax(bs: nat): nat
    requires bs >= 16
  {
    (bs - 16) / 12
  }

  /** The split code gathers `node_max(0) + 1` entries in one page. Of the three block
      sizes the driver mounts, that fits exactly for 1024 and 2048. */
  lemma ScratchFits(bs: nat)
    requires bs == 1024 || bs == 2048 || bs == 4096
    ensures NodeMax(bs) + 1 <= PAGE_SLOTS <==> bs <= 2048
    ensures 5 <= NodeMax(bs)
  {
  }

  /** The node n, with the blocks below it on disk, holds the tree t of depth d. */
  ghost predicate Repr(disk: map<nat, Node>, n: Node, t: Tree, d: nat)
    decreases t
  {
    match t
    case Leaf(es) => d == 0 && n == Node(0, es)
    case Branch(kids) =>
      && d > 0 && n.depth == d && |n.slots| == |kids|
      && forall i | 0 <= i < |kids| ::
        && n.slots[i] == kids[i].slot
        && kids[i].slot.addr in disk
        && Repr(disk, disk[kids[i].slot.addr], kids[i].sub, d - 1)
  }

  ghost predicate KidRepr(disk: map<nat, Node>, k: Kid, d: nat) {
    k.slot.addr in disk && Repr(disk, disk[k.slot.addr], k.sub, d)
  }

  ghost predicate KidsRepr(disk: map<nat, Node>, slots: seq<Slot>, kids: seq<Kid>, d: nat) {
    |slots| == |kids| && forall i | 0 <= i < |kids| :: slots[i] == kids[i].slot && KidRepr(disk, kids[i], d)
  }

  ghost predicate SameAt(a: map<nat, Node>, c: map<nat, Node>, b: nat) {
    (b in a <==> b in c) && (b in a ==> a[b] == c[b])
  }

  /** No block is used twice among the tree, the block that holds it, the new data block
      and the blocks the allocator will hand out; block 0 is none of them. */
  ghost predicate Apart(t: Tree, owner: nat, p: nat, pool: seq<nat>) {
    && (forall b: nat :: Uses(t, b) + One(b == owner) + One(b == p) + PoolUses(pool, |pool|, b) <= 1)
    && PoolUses(pool, |pool|, 0) == 0
  }

  // ----- frames

  lemma {:induction false} KidAmong(kids: seq<Kid>, i: nat, b: nat)
    requires i < |kids|
    ensures KidUses(kids[i], b) <= KidsUses(kids, b)
    ensures KidUses(kids[i], b) + DataUses(Ents(kids[i].sub), b) <= ListUses(kids, b)
  {
    SpliceUses(kids, i, [], b);
    ListOne(kids[i], b);
    assert ListUses([], b) == 0 by { assert KidsEnts([]) == []; }
    KidsUsesMiddle(kids[..i], [kids[i]], kids[i + 1..], b);
    assert kids == kids[..i] + [kids[i]] + kids[i + 1..];
    KidsUsesOne(kids[i], b);
  }

  lemma KidsApart(kids: seq<Kid>, i: nat, j: nat, b: nat)
    requires i < |kids| && j < |kids| && i != j
    ensures KidUses(kids[i], b) + KidUses(kids[j], b) <= KidsUses(kids, b)
  {
    KidsUsesMiddle(kids[..i], [kids[i]], kids[i + 1..], b);
    assert kids == kids[..i] + [kids[i]] + kids[i + 1..];
    KidsUsesOne(kids[i], b);
    if j < i {
      KidAmong(kids[..i], j, b);
      assert kids[..i][j] == kids[j];
    } else {
      KidAmong(kids[i + 1..], j - i - 1, b);
      assert kids[i + 1..][j - i - 1] == kids[j];
    }
  }

  /** What a tree is depends only on its own node blocks. */
  lemma {:induction false} ReprFrame(disk: map<nat, Node>, disk': map<nat, Node>, n: Node, t: Tree, d: nat)
    requires Repr(disk, n, t, d)
    requires forall b: nat :: NodeUses(t, b) > 0 ==> SameAt(disk, disk', b)
    ensures Repr(disk', n, t, d)
    decreases t
  {
    if t.Branch? {
      forall i | 0 <= i < |t.kids|
        ensures t.kids[i].slot.addr in disk' && Repr(disk', disk'[t.kids[i].slot.addr], t.kids[i].sub, d - 1)
      {
        var k := t.kids[i];
        KidFrame(disk, disk', t.kids, i, d);
        assert SameAt(disk, disk', k.slot.addr);
        ReprFrame(disk, disk', disk[k.slot.addr], k.sub, d - 1);
      }
    }
  }

  lemma KidFrame(disk: map<nat, Node>, disk': map<nat, Node>, kids: seq<Kid>, i: nat, d: nat)
    requires i < |kids|
    requires forall b: nat :: KidsUses(kids, b) > 0 ==> SameAt(disk, disk', b)
    ensures SameAt(disk, disk', kids[i].slot.addr)
    ensures forall b: nat :: NodeUses(kids[i].sub, b) > 0 ==> SameAt(disk, disk', b)
  {
    KidAmong(kids, i, kids[i].slot.addr);
    forall b: nat | NodeUses(kids[i].sub, b) > 0
      ensures SameAt(disk, disk', b)
    {
      KidAmong(kids, i, b);
    }
  }

  lemma ChildApart(kids: seq<Kid>, i: nat, owner: nat, p: nat, pool: seq<nat>)
    requires i < |kids| && Apart(Branch(kids), owner, p, pool)
    ensures Apart(kids[i].sub, kids[i].slot.addr, p, pool)
  {
    forall b: nat
      ensures Uses(kids[i].sub, b) + One(b == kids[i].slot.addr) + One(b == p) + PoolUses(pool, |pool|, b) <= 1
    {
      KidAmong(kids, i, b);
    }
  }

  lemma {:induction false} PoolMember(pool: seq<nat>, n: nat, i: nat, b: nat)
    requires i < n <= |pool|
    ensures PoolUses(pool, n, pool[i]) >= 1
    ensures PoolUses(pool, i, b) <= PoolUses(pool, n, b)
  {
    if i + 1 < n {
      PoolMember(pool, n - 1, i, b);
    }
  }

  // ----- one node

  /** `ext_first_key` on a node. */
  function NodeKey(n: Node): nat { if n.slots == [] then 0 else n.slots[0].key }

  lemma NodeKeyIs(disk: map<nat, Node>, n: Node, t: Tree, d: nat)
    requires Repr(disk, n, t, d)
    ensures NodeKey(n) == FirstKey(t)
    ensures n.depth == d
  {
  }

  lemma BranchRepr(disk: map<nat, Node>, slots: seq<Slot>, kids: seq<Kid>, d: nat)
    ensures Repr(disk, Node(d + 1, slots), Branch(kids), d + 1) <==> KidsRepr(disk, slots, kids, d)
  {
    if KidsRepr(disk, slots, kids, d) {
      forall i | 0 <= i < |kids|
        ensures slots[i] == kids[i].slot && kids[i].slot.addr in disk
                && Repr(disk, disk[kids[i].slot.addr], kids[i].sub, d)
      {
        assert KidRepr(disk, kids[i], d);
      }
    }
    if Repr(disk, Node(d + 1, slots), Branch(kids), d + 1) {
      forall i | 0 <= i < |kids|
        ensures slots[i] == kids[i].slot && KidRepr(disk, kids[i], d)
      {
        assert Node(d + 1, slots).slots[i] == kids[i].slot;
      }
    }
  }

  /** The blocks of every child but ci are as they were. */
  ghost predicate OthersSame(disk: map<nat, Node>, disk': map<nat, Node>, kids: seq<Kid>, ci: nat) {
    forall i, b: nat | 0 <= i < |kids| && i != ci && KidUses(kids[i], b) > 0 :: SameAt(disk, disk', b)
  }

  lemma KidReprFrame(disk: map<nat, Node>, disk': map<nat, Node>, k: Kid, d: nat)
    requires KidRepr(disk, k, d)
    requires forall b: nat | KidUses(k, b) > 0 :: SameAt(disk, disk', b)
    ensures KidRepr(disk', k, d)
  {
    assert KidUses(k, k.slot.addr) > 0;
    assert SameAt(disk, disk', k.slot.addr);
    forall b: nat | NodeUses(k.sub, b) > 0
      ensures SameAt(disk, disk', b)
    {
      assert KidUses(k, b) > 0;
    }
    ReprFrame(disk, disk', disk[k.slot.addr], k.sub, d);
  }

  /** Child ci replaced by mid, on disk. */
  lemma SpliceRepr(disk: map<nat, Node>, disk': map<nat, Node>, slots: seq<Slot>, kids: seq<Kid>, ci: nat,
                   mid: seq<Kid>, midSlots: seq<Slot>, d: nat)
    requires KidsRepr(disk, slots, kids, d) && ci < |kids| && OthersSame(disk, disk', kids, ci)
    requires KidsRepr(disk', midSlots, mid, d)
    ensures KidsRepr(disk', slots[..ci] + midSlots + slots[ci + 1..], Splice(kids, ci, mid), d)
  {
    var slots', kids' := slots[..ci] + midSlots + slots[ci + 1..], Splice(kids, ci, mid);
    forall i | 0 <= i < |kids'|
      ensures slots'[i] == kids'[i].slot && KidRepr(disk', kids'[i], d)
    {
      if i < ci {
        KidReprFrame(disk, disk', kids[i], d);
      } else if i < ci + |mid| {
        assert kids'[i] == mid[i - ci] && slots'[i] == midSlots[i - ci];
      } else {
        var j := i - |mid| + 1;
        assert kids'[i] == kids[j] && slots'[i] == slots[j];
        KidReprFrame(disk, disk', kids[j], d);
      }
    }
  }

  /** Child ci rewritten in its own block while the entry that points to it stays. */
  lemma SubRepr(disk: map<nat, Node>, disk': map<nat, Node>, slots: seq<Slot>, kids: seq<Kid>, ci: nat, s: Tree, d: nat)
    requires KidsRepr(disk, slots, kids, d) && ci < |kids| && OthersSame(disk, disk', kids, ci)
    requires KidRepr(disk', Kid(kids[ci].slot, s), d)
    ensures KidsRepr(disk', slots, kids[ci := Kid(kids[ci].slot, s)], d)
  {
    var k := Kid(kids[ci].slot, s);
    SpliceRepr(disk, disk', slots, kids, ci, [k], [k.slot], d);
    assert kids[ci := k] == Splice(kids, ci, [k]);
    assert slots == slots[..ci] + [k.slot] + slots[ci + 1..];
  }

  lemma StoreFrame(disk: map<nat, Node>, slots: seq<Slot>, kids: seq<Kid>, d: nat, b: nat, n: Node)
    requires KidsRepr(disk, slots, kids, d) && KidsUses(kids, b) == 0
    ensures KidsRepr(disk[b := n], slots, kids, d)
  {
    forall i | 0 <= i < |kids|
      ensures KidRepr(disk[b := n], kids[i], d)
    {
      KidAmong(kids, i, b);
      forall c: nat | KidUses(kids[i], c) > 0
        ensures SameAt(disk, disk[b := n], c)
      {
      }
      KidReprFrame(disk, disk[b := n], kids[i], d);
    }
  }

  lemma KidsReprHalves(disk: map<nat, Node>, slots: seq<Slot>, kids: seq<Kid>, d: nat, h: nat)
    requires KidsRepr(disk, slots, kids, d) && h <= |kids|
    ensures KidsRepr(disk, slots[..h], kids[..h], d) && KidsRepr(disk, slots[h..], kids[h..], d)
  {
  }
}
