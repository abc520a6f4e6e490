/** The extent tree in the bytes of the disk: every node below the root is in its block, encoded, and
    `ext_lookup` on the bytes answers what the tree answers (kernel/fs/ext4.c:817-888, 1044-1084,
    1271-1300). */
module StoredTree {
  import opened Words
  import opened Bytes
  import opened Extents
  import opened ExtentTree
  import opened ExtentBlocks
  import opened ExtentDisk
  import opened NodeCodec

  /** A node as its block holds it; index entries carry a key and a block. */
  function NodeOf(t: Tree, d: nat): Node {
    match t
    case Leaf(es) => Node(d, es)
    case Branch(kids) => Node(d, seq(|kids|, i requires 0 <= i < |kids| => NewIndex(Key(kids[i]), kids[i].slot.addr)))
  }

  /** Every node below t is on disk. */
  ghost predicate Stored(disk: seq<Block>, t: Tree, d: nat)
    decreases t
  {
    t.Branch? ==> d > 0 && forall k | k in t.kids :: StoredKid(disk, k, d - 1)
  }

  ghost predicate StoredKid(disk: seq<Block>, k: Kid, d: nat)
    decreases k
  {
    k.slot.addr < |disk| && DecodeNode(disk[k.slot.addr]) == Some(NodeOf(k.sub, d)) && Stored(disk, k.sub, d)
  }

  // ----- lookup on bytes

  /** The last entry whose key is at most f, or the first. */
  function RouteSlots(slots: seq<Slot>, n: nat, f: nat): (ci: nat)
    requires n <= |slots| && slots != []
    ensures ci < |slots|
    decreases n
  {
    if n == 0 then 0 else if slots[n - 1].key <= f then n - 1 else RouteSlots(slots, n - 1, f)
  }

  /** `ext_lookup` from node n on, for at most d levels: read a block per level, search the leaf. */
  function LookupBytes(disk: seq<Block>, n: Node, d: nat, f: nat): Option<nat>
    decreases d
  {
    if n.depth == 0 then Find(n.slots, f)
    else if d == 0 || n.slots == [] then None
    else
      var s := n.slots[RouteSlots(n.slots, |n.slots|, f)];
      if f < s.key || s.addr >= |disk| then None
      else match DecodeNode(disk[s.addr])
        case None => None
        case Some(m) => LookupBytes(disk, m, d - 1, f)
  }

  lemma {:induction false} RouteSame(kids: seq<Kid>, d: nat, n: nat, f: nat)
    requires n <= |kids| && kids != []
    ensures |NodeOf(Branch(kids), d).slots| == |kids|
    ensures RouteSlots(NodeOf(Branch(kids), d).slots, n, f) == RouteUpTo(kids, n, f)
    decreases n
  {
    if n > 0 {
      RouteSame(kids, d, n - 1, f);
    }
  }

  /** Looking a block up in the stored bytes gives what the tree gives. */
  lemma {:induction false} LookupStored(disk: seq<Block>, t: Tree, d: nat, f: nat)
    requires HasDepth(t, d) && Stored(disk, t, d)
    ensures LookupBytes(disk, NodeOf(t, d), d, f) == Lookup(t, f)
    decreases t
  {
    hide DecodeNode;
    if t.Branch? && t.kids != [] {
      var kids, ci := t.kids, Route(t.kids, f);
      RouteSame(kids, d, |kids|, f);
      assert StoredKid(disk, kids[ci], d - 1);
      LookupStored(disk, kids[ci].sub, d - 1, f);
    }
  }

  /** Blocks that hold no node of t do not matter. */
  lemma {:induction false} StoredFrame(disk: seq<Block>, disk': seq<Block>, t: Tree, d: nat)
    requires Stored(disk, t, d) && |disk'| == |disk|
    requires forall b | 0 <= b < |disk| && NodeUses(t, b) > 0 :: disk'[b] == disk[b]
    ensures Stored(disk', t, d)
    decreases t
  {
    hide DecodeNode, NodeOf;
    if t.Branch? {
      forall k | k in t.kids ensures StoredKid(disk', k, d - 1) {
        assert StoredKid(disk, k, d - 1);
        var i :| 0 <= i < |t.kids| && t.kids[i] == k;
        forall b: nat ensures KidUses(k, b) <= NodeUses(t, b) {
          KidAmong(t.kids, i, b);
        }
        StoredFrame(disk, disk', k.sub, d - 1);
      }
    }
  }

  // ----- storing a tree

  /** The node that block b holds, if it holds one. */
  function NodeAt(t: Tree, d: nat, b: nat): Option<Node>
    decreases t, 1
  {
    if t.Branch? && d > 0 then KidsNodeAt(t.kids, d - 1, b) else None
  }

  function KidsNodeAt(kids: seq<Kid>, d: nat, b: nat): Option<Node>
    decreases kids, 0
  {
    if kids == [] then None
    else
      var r := KidNodeAt(kids[0], d, b);
      if r.Some? then r else KidsNodeAt(kids[1..], d, b)
  }

  function KidNodeAt(k: Kid, d: nat, b: nat): Option<Node>
    decreases k, 0
  {
    if k.slot.addr == b then Some(NodeOf(k.sub, d)) else NodeAt(k.sub, d, b)
  }

  lemma {:induction false} NoNode(t: Tree, d: nat, b: nat)
    requires NodeUses(t, b) == 0
    ensures NodeAt(t, d, b) == None
    decreases t, 1
  {
    if t.Branch? && d > 0 {
      NoKidNode(t.kids, d - 1, b);
    }
  }

  lemma {:induction false} NoKidNode(kids: seq<Kid>, d: nat, b: nat)
    requires KidsUses(kids, b) == 0
    ensures KidsNodeAt(kids, d, b) == None
    decreases kids, 0
  {
    if kids != [] {
      NoNodeIn(kids[0], d, b);
      NoKidNode(kids[1..], d, b);
    }
  }

  lemma {:induction false} NoNodeIn(k: Kid, d: nat, b: nat)
    requires KidUses(k, b) == 0
    ensures KidNodeAt(k, d, b) == None
    decreases k, 0
  {
    NoNode(k.sub, d, b);
  }

  /** With every block used once at most, a child answers for its own blocks. */
  lemma {:induction false} ChildAnswers(kids: seq<Kid>, i: nat, d: nat, b: nat)
    requires i < |kids| && KidsUses(kids, b) <= 1 && KidUses(kids[i], b) == 1
    ensures KidsNodeAt(kids, d, b) == KidNodeAt(kids[i], d, b)
    decreases kids
  {
    hide NodeOf;
    if i == 0 {
      NoKidNode(kids[1..], d, b);
    } else {
      KidAmong(kids[1..], i - 1, b);
      NoNodeIn(kids[0], d, b);
      ChildAnswers(kids[1..], i - 1, d, b);
    }
  }

  /** Every block of the tree holds on disk what `NodeAt` says. */
  ghost predicate Holds(disk: seq<Block>, t: Tree, d: nat) {
    forall b: nat | NodeUses(t, b) > 0 :: b < |disk| && DecodeNode(disk[b]) == NodeAt(t, d, b)
  }

  lemma {:induction false} HoldsStored(disk: seq<Block>, t: Tree, d: nat)
    requires HasDepth(t, d) && Holds(disk, t, d) && forall b: nat :: NodeUses(t, b) <= 1
    ensures Stored(disk, t, d)
    decreases t
  {
    hide DecodeNode, NodeOf;
    if t.Branch? {
      forall k | k in t.kids ensures StoredKid(disk, k, d - 1) {
        var i :| 0 <= i < |t.kids| && t.kids[i] == k;
        HoldsBelow(disk, t.kids, d - 1, i);
        HoldsStored(disk, k.sub, d - 1);
      }
    }
  }

  lemma HoldsBelow(disk: seq<Block>, kids: seq<Kid>, d: nat, i: nat)
    requires i < |kids| && Holds(disk, Branch(kids), d + 1) && forall b: nat :: NodeUses(Branch(kids), b) <= 1
    ensures forall b: nat :: NodeUses(kids[i].sub, b) <= 1
    ensures Holds(disk, kids[i].sub, d)
    ensures var k := kids[i]; k.slot.addr < |disk| && DecodeNode(disk[k.slot.addr]) == Some(NodeOf(k.sub, d))
  {
    hide DecodeNode, NodeOf;
    var k := kids[i];
    forall b: nat ensures KidUses(k, b) <= KidsUses(kids, b) == NodeUses(Branch(kids), b) <= 1 {
      KidAmong(kids, i, b);
    }
    forall b: nat | KidUses(k, b) > 0 ensures NodeAt(Branch(kids), d + 1, b) == KidNodeAt(k, d, b) {
      ChildAnswers(kids, i, d, b);
    }
    forall b: nat | NodeUses(k.sub, b) > 0 ensures b < |disk| && DecodeNode(disk[b]) == NodeAt(k.sub, d, b) {
      assert KidUses(k, b) > 0;
    }
    assert KidUses(k, k.slot.addr) > 0;
  }

  // ----- the bytes the insertion code writes

  /** A node that fits a block and whose fields fit their words. */
  predicate Fits(n: Node, cap: nat) { NodeOk(n) && |n.slots| <= cap }

  predicate BlockFits(bs: nat, cap: nat) { cap < U16 && ENTRY + ENTRY * cap <= bs }

  /** Node n in a block of bs bytes: header, entries, and whatever tail the caller has for the rest. */
  function NodeBytes(n: Node, bs: nat, cap: nat, tail: Block): (r: Block)
    requires Fits(n, cap) && BlockFits(bs, cap)
    ensures |r| == bs && DecodeNode(r) == Some(n)
  {
    var room := bs - ENTRY - ENTRY * |n.slots|;
    var rest := if |tail| >= room then tail[..room] else Zeros(room);
    NodeRoundTrip(n, cap, 0, rest);
    EncodeNode(n, cap, 0, rest)
  }

  /** Block b after the nodes of t were stored. A block that holds its node already is left alone. */
  function BlockAfter(t: Tree, d: nat, was: Block, bs: nat, cap: nat, tail: Block, b: nat): (r: Block)
    requires BlockFits(bs, cap)
    ensures |was| == bs ==> |r| == bs
  {
    var n := NodeAt(t, d, b);
    if n == None || !Fits(n.value, cap) || DecodeNode(was) == n then was else NodeBytes(n.value, bs, cap, tail)
  }

  /** The disk after `ext_insert` left tree t. */
  function WithNodes(t: Tree, d: nat, disk: seq<Block>, bs: nat, cap: nat, tails: nat -> Block): (r: seq<Block>)
    requires BlockFits(bs, cap)
    ensures |r| == |disk|
    ensures forall b | 0 <= b < |disk| :: r[b] == BlockAfter(t, d, disk[b], bs, cap, tails(b), b)
  {
    seq(|disk|, b requires 0 <= b < |disk| => BlockAfter(t, d, disk[b], bs, cap, tails(b), b))
  }

  lemma NodeOfOk(t: Tree, d: nat, lo: nat, hi: nat, cap: nat)
    requires Wf(t, d, lo, hi, cap, cap) && hi < U32 && d < U16 && cap < U16
    requires forall b: nat | NodeUses(t, b) > 0 :: b < U32
    ensures Fits(NodeOf(t, d), cap)
  {
    var slots := NodeOf(t, d).slots;
    match t
    case Leaf(es) =>
      forall i | 0 <= i < |es| ensures EntryOk(0, es[i]) {
        SortedSplit(es, i, lo, hi);
      }
    case Branch(kids) =>
      forall i | 0 <= i < |kids| ensures EntryOk(d, slots[i]) {
        KidAmong(kids, i, kids[i].slot.addr);
        assert NodeUses(t, kids[i].slot.addr) > 0;
        KidsWfSplit(kids, i, d - 1, lo, hi, cap);
        KidsLoHi(kids[i..], d - 1, Key(kids[i]), hi, cap);
      }
  }

  lemma {:induction false} NodeAtOk(t: Tree, d: nat, lo: nat, hi: nat, top: nat, cap: nat, b: nat)
    requires Wf(t, d, lo, hi, top, cap) && hi < U32 && d <= U16 && cap < U16 && NodeUses(t, b) > 0
    requires forall c: nat | NodeUses(t, c) > 0 :: c < U32
    ensures NodeAt(t, d, b).Some? && Fits(NodeAt(t, d, b).value, cap)
    decreases t, 1
  {
    forall c: nat | KidsUses(t.kids, c) > 0 ensures c < U32 {
      assert NodeUses(t, c) > 0;
    }
    KidsAtOk(t.kids, d - 1, lo, hi, cap, b);
  }

  lemma {:induction false} KidsAtOk(kids: seq<Kid>, d: nat, lo: nat, hi: nat, cap: nat, b: nat)
    requires KidsWf(kids, d, lo, hi, cap) && hi < U32 && d < U16 && cap < U16 && KidsUses(kids, b) > 0
    requires forall c: nat | KidsUses(kids, c) > 0 :: c < U32
    ensures KidsNodeAt(kids, d, b).Some? && Fits(KidsNodeAt(kids, d, b).value, cap)
    decreases kids, 0
  {
    hide Fits, NodeOf;
    var up := Up(kids, 1, hi);
    KidsLoHi(kids[1..], d, up, hi, cap);
    forall c: nat | KidsUses(kids[1..], c) > 0 ensures c < U32 {
      assert KidsUses(kids, c) > 0;
    }
    forall c: nat | KidUses(kids[0], c) > 0 ensures c < U32 {
      assert KidsUses(kids, c) > 0;
    }
    if KidUses(kids[0], b) > 0 {
      KidAtOk(kids[0], d, lo, up, cap, b);
    } else {
      NoNodeIn(kids[0], d, b);
      KidsAtOk(kids[1..], d, up, hi, cap, b);
    }
  }

  lemma {:induction false} KidAtOk(k: Kid, d: nat, lo: nat, up: nat, cap: nat, b: nat)
    requires KidWf(k, d, lo, up, cap) && up < U32 && d < U16 && cap < U16 && KidUses(k, b) > 0
    requires forall c: nat | KidUses(k, c) > 0 :: c < U32
    ensures KidNodeAt(k, d, b).Some? && Fits(KidNodeAt(k, d, b).value, cap)
    decreases k, 0
  {
    hide Fits, NodeOf;
    forall c: nat | NodeUses(k.sub, c) > 0 ensures c < U32 {
      assert KidUses(k, c) > 0;
    }
    if k.slot.addr == b {
      NodeOfOk(k.sub, d, Key(k), up, cap);
    } else {
      NodeAtOk(k.sub, d, Key(k), up, cap, cap, b);
    }
  }

  /** After the nodes were stored the tree is on disk, and no other block changed. */
  lemma StoresTree(t: Tree, cap: nat, disk: seq<Block>, bs: nat, tails: nat -> Block)
    requires RootWf(t, cap) && Depth(t) < U16 && BlockFits(bs, cap)
    requires forall b: nat :: NodeUses(t, b) <= 1 && (NodeUses(t, b) > 0 ==> b < |disk| <= U32)
    ensures Stored(WithNodes(t, Depth(t), disk, bs, cap, tails), t, Depth(t))
  {
    hide DecodeNode, NodeOf, Fits;
    var d := Depth(t);
    var r := WithNodes(t, d, disk, bs, cap, tails);
    RootDepth(t, cap);
    forall b: nat | NodeUses(t, b) > 0 ensures b < |r| && DecodeNode(r[b]) == NodeAt(t, d, b) {
      NodeAtOk(t, d, 0, U32 - 1, ROOT_MAX, cap, b);
    }
    HoldsStored(r, t, d);
  }

  lemma OthersStay(t: Tree, d: nat, disk: seq<Block>, bs: nat, cap: nat, tails: nat -> Block, b: nat)
    requires BlockFits(bs, cap) && b < |disk| && NodeUses(t, b) == 0
    ensures WithNodes(t, d, disk, bs, cap, tails)[b] == disk[b]
  {
    NoNode(t, d, b);
  }
}
