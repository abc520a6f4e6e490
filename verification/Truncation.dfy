/** `ext4_truncate_inode` and `ext_inode_blocks` as they run: a loop over the inode's root node, and
    below it a recursion through one page buffer (kernel/fs/ext4.c:1326-1418, 1637-1677). */
module Truncation {
  import opened Words
  import opened Extents
  import opened ExtentTree
  import opened ExtentDisk
  import opened TreeBlocks
  import opened NodeCodec
  import opened Bytes
  import opened Ownership
  import A = Allocator
  import opened AllocatorDriver

  lemma {:induction false} GiveAllConcat(geo: Geo, v: Vol, a: seq<nat>, b: seq<nat>)
    requires A.GeoOk(geo) && A.Inv(geo, v)
    ensures GiveAll(geo, v, a + b) == GiveAll(geo, GiveAll(geo, v, a), b)
    decreases |b|
  {
    hide A.Give, A.Inv;
    if b == [] {
      assert a + b == a;
    } else {
      assert (a + b)[..|a + b| - 1] == a + b[..|b| - 1];
      GiveAllConcat(geo, v, a, b[..|b| - 1]);
    }
  }

  /** The inner loops: the blocks of every extent of a leaf, in order. */
  method FreeExtents(alloc: BlockAllocator, slots: seq<Slot>)
    requires alloc.Valid()
    modifies alloc
    ensures alloc.Valid() && alloc.View() == GiveAll(alloc.geo, old(alloc.View()), DataBlocks(slots))
  {
    hide A.Give, A.Inv;
    ghost var v := alloc.View();
    for i := 0 to |slots|
      invariant alloc.Valid() && alloc.View() == GiveAll(alloc.geo, v, DataBlocks(slots[..i]))
    {
      ghost var w := alloc.View();
      for k := 0 to Len(slots[i])
        invariant alloc.Valid() && alloc.View() == GiveAll(alloc.geo, w, SlotBlocks(slots[i])[..k])
      {
        ghost var bs := SlotBlocks(slots[i])[..k + 1];
        assert bs[..|bs| - 1] == SlotBlocks(slots[i])[..k] && bs[k] == slots[i].addr + k;
        alloc.Free(slots[i].addr + k);
      }
      assert SlotBlocks(slots[i])[..Len(slots[i])] == SlotBlocks(slots[i]);
      GiveAllConcat(alloc.geo, v, DataBlocks(slots[..i]), SlotBlocks(slots[i]));
      assert slots[..i + 1][..i] == slots[..i];
    }
    assert slots[..|slots|] == slots;
  }

  // ----- the page buffer

  /** The page that the whole recursion shares. */
  class Page {
    var node: Node
    constructor ()
      ensures node == Node(0, [])
    {
      node := Node(0, []);
    }
  }

  /** `ext_idx(buf, i)`: entry i of the page read as an index entry, whatever node is in the page. */
  function IndexAt(n: Node, i: nat): nat
    requires i < |n.slots|
  {
    if n.depth == 0 then Misread(n.slots[i]) else n.slots[i].addr
  }

  /** The bytes of an extent do decode to that block number as an index entry. */
  lemma MisreadIs(a: Block, s: Slot, c: Block)
    requires EntryOk(0, s)
    ensures Decode(1, a + Encode(0, s) + c, |a|).addr == Misread(s)
  {
    hide PutLe32, PutLe16, Le32, Le16, BitOr;
    var k, l, h, w := PutLe32(s.key), PutLe16(s.len), PutLe16(s.addr / U16), PutLe32(s.addr % U16);
    var b := a + Encode(0, s) + c;
    assert b == (a + k) + l + (h + w + c);
    assert b == (a + k + l) + h + (w + c);
    assert b == (a + k + l + h) + w + c;
    Le16At(a + k, s.len, h + w + c);
    Le16At(a + k + l, s.addr / U16, w + c);
    Le32At(a + k + l + h, s.addr % U16, c);
    Le32Halves(b, |a| + 4);
    Le32Halves(b, |a| + 8);
    Parts(Le16(b, |a| + 8), Le16(b, |a| + 10), s.addr % U16);
  }

  lemma Le32Halves(b: Block, o: nat)
    requires o + 4 <= |b|
    ensures Le32(b, o) == Le16(b, o) + Le16(b, o + 2) * U16
  {
  }

  lemma Parts(lo: nat, hi: nat, v: nat)
    requires lo < U16 && v == lo + hi * U16 && v < U16
    ensures lo == v
  {
  }

  // ----- the recursion on any disk

  /** What `ext_free_tree` frees from block blk on, in order, and the page it leaves. None: it enters a
      block that is not a node, or goes deeper than fuel. */
  function Walk(disk: map<nat, Node>, total: nat, blk: nat, fuel: nat): Option<(seq<nat>, Node)>
    decreases fuel, 0
  {
    if fuel == 0 then None
    else if blk >= total then Some(([], Node(0, [])))
    else if blk !in disk then None
    else if disk[blk].depth == 0 then Some((DataBlocks(disk[blk].slots) + [blk], disk[blk]))
    else
      match WalkOn(disk, total, disk[blk], 0, fuel - 1)
      case None => None
      case Some(w) => Some((w.0 + [blk], w.1))
  }

  /** Its loop over the entries of the page, from entry i on. */
  function WalkOn(disk: map<nat, Node>, total: nat, page: Node, i: nat, fuel: nat): Option<(seq<nat>, Node)>
    decreases fuel, 1
  {
    if i >= |page.slots| then Some(([], page))
    else if fuel == 0 then None
    else
      match Walk(disk, total, IndexAt(page, i), fuel)
      case None => None
      case Some(w) =>
        match WalkOn(disk, total, w.1, i + 1, fuel - 1)
        case None => None
        case Some(x) => Some((w.0 + x.0, x.1))
  }

  /** What the loop over the root frees. */
  function WalkRoot(disk: map<nat, Node>, total: nat, slots: seq<Slot>, fuel: nat): Option<seq<nat>> {
    if slots == [] then Some([])
    else
      var a, w := WalkRoot(disk, total, slots[..|slots| - 1], fuel), Walk(disk, total, slots[|slots| - 1].addr, fuel);
      if a == None || w == None then None else Some(a.value + w.value.0)
  }

  /** One turn of the loop. */
  lemma WalkStep(disk: map<nat, Node>, total: nat, page: Node, i: nat, fuel: nat, geo: Geo, v: Vol)
    requires A.GeoOk(geo) && A.Inv(geo, v) && i < |page.slots| && WalkOn(disk, total, page, i, fuel).Some?
    ensures fuel > 0 && Walk(disk, total, IndexAt(page, i), fuel).Some?
    ensures var w := Walk(disk, total, IndexAt(page, i), fuel).value;
            var x := WalkOn(disk, total, w.1, i + 1, fuel - 1);
            && x.Some? && x.value.1 == WalkOn(disk, total, page, i, fuel).value.1
            && GiveAll(geo, v, WalkOn(disk, total, page, i, fuel).value.0) ==
               GiveAll(geo, GiveAll(geo, v, w.0), x.value.0)
  {
    hide A.Give, A.Inv, Misread;
    var w := Walk(disk, total, IndexAt(page, i), fuel).value;
    GiveAllConcat(geo, v, w.0, WalkOn(disk, total, w.1, i + 1, fuel - 1).value.0);
  }

  /** `ext_free_tree`. */
  method FreeTree(alloc: BlockAllocator, disk: map<nat, Node>, blk: nat, buf: Page, ghost fuel: nat)
    requires alloc.Valid() && Walk(disk, alloc.geo.total, blk, fuel).Some?
    modifies alloc, buf
    ensures alloc.Valid()
    ensures var w := Walk(disk, alloc.geo.total, blk, fuel).value;
            alloc.View() == GiveAll(alloc.geo, old(alloc.View()), w.0) && buf.node == w.1
    decreases fuel
  {
    hide A.Give, A.Inv, WalkOn, IndexAt;
    ghost var v, geo := alloc.View(), alloc.geo;
    buf.node := Node(0, []);
    if blk >= alloc.geo.total {
      return;
    }
    buf.node := disk[blk];
    if buf.node.depth == 0 {
      FreeExtents(alloc, buf.node.slots);
      GiveAllConcat(geo, v, DataBlocks(disk[blk].slots), [blk]);
    } else {
      ghost var g: nat := fuel - 1;
      ghost var all := WalkOn(disk, geo.total, disk[blk], 0, g).value;
      var i := 0;
      while i < |buf.node.slots|
        invariant alloc.Valid() && g < fuel && WalkOn(disk, geo.total, buf.node, i, g).Some?
        invariant WalkOn(disk, geo.total, buf.node, i, g).value.1 == all.1
        invariant GiveAll(geo, alloc.View(), WalkOn(disk, geo.total, buf.node, i, g).value.0) == GiveAll(geo, v, all.0)
        decreases g
      {
        WalkStep(disk, geo.total, buf.node, i, g, geo, alloc.View());
        FreeTree(alloc, disk, IndexAt(buf.node, i), buf, g);
        i, g := i + 1, g - 1;
      }
      WalkEnd(disk, geo.total, buf.node, i, g);
      GiveAllConcat(geo, v, all.0, [blk]);
    }
    assert [blk][..0] == [];
    alloc.Free(blk);
  }

  lemma WalkEnd(disk: map<nat, Node>, total: nat, page: Node, i: nat, fuel: nat)
    requires i >= |page.slots|
    ensures WalkOn(disk, total, page, i, fuel) == Some(([], page))
  {
  }

  /** `ext4_truncate_inode`: returns the emptied root. */
  method TruncateInode(alloc: BlockAllocator, disk: map<nat, Node>, root: Node, ghost fuel: nat) returns (root': Node)
    requires alloc.Valid() && (root.depth > 0 ==> WalkRoot(disk, alloc.geo.total, root.slots, fuel).Some?)
    modifies alloc
    ensures alloc.Valid() && root' == Node(0, [])
    ensures alloc.View() == GiveAll(alloc.geo, old(alloc.View()),
                                    if root.depth == 0 then DataBlocks(root.slots)
                                    else WalkRoot(disk, alloc.geo.total, root.slots, fuel).value)
  {
    hide A.Give, A.Inv, Walk;
    if root.depth == 0 {
      FreeExtents(alloc, root.slots);
    } else {
      var buf := new Page();
      ghost var v := alloc.View();
      for i := 0 to |root.slots|
        invariant alloc.Valid() && WalkRoot(disk, alloc.geo.total, root.slots[..i], fuel).Some?
        invariant alloc.View() == GiveAll(alloc.geo, v, WalkRoot(disk, alloc.geo.total, root.slots[..i], fuel).value)
      {
        WalkPrefix(disk, alloc.geo.total, root.slots, i + 1, fuel);
        assert root.slots[..i + 1][..i] == root.slots[..i];
        FreeTree(alloc, disk, root.slots[i].addr, buf, fuel);
        GiveAllConcat(alloc.geo, v, WalkRoot(disk, alloc.geo.total, root.slots[..i], fuel).value,
                      Walk(disk, alloc.geo.total, root.slots[i].addr, fuel).value.0);
      }
      assert root.slots[..|root.slots|] == root.slots;
    }
    root' := Node(0, []);
  }

  lemma {:induction false} WalkPrefix(disk: map<nat, Node>, total: nat, slots: seq<Slot>, n: nat, fuel: nat)
    requires n <= |slots| && WalkRoot(disk, total, slots, fuel).Some?
    ensures WalkRoot(disk, total, slots[..n], fuel).Some?
    decreases |slots|
  {
    if n < |slots| {
      assert slots[..|slots| - 1][..n] == slots[..n];
      WalkPrefix(disk, total, slots[..|slots| - 1], n, fuel);
    } else {
      assert slots[..n] == slots;
    }
  }

  // ----- on a stored tree

  /** What a block must be for the recursion to enter it: out of range, or a node of the tree from
      which the loop does not stray. */
  ghost predicate Enters(disk: map<nat, Node>, total: nat, blk: nat, t: Tree, d: nat) {
    blk < total ==>
      && blk in disk && Repr(disk, disk[blk], t, d) && NoEmpty(t)
      && (d > 0 && |FirstLeaf(t)| > 1 ==> Misread(FirstLeaf(t)[1]) >= total)
  }

  /** What the page holds when a call returns: nothing, the leaf, or at most one entry. */
  ghost predicate Leaves(disk: map<nat, Node>, total: nat, blk: nat, d: nat, n: Node) {
    if blk >= total then n == Node(0, [])
    else if d == 0 then blk in disk && n == disk[blk]
    else |n.slots| <= 1
  }

  /** The first child of a node that is entered is entered too. */
  lemma EntersFirst(disk: map<nat, Node>, total: nat, blk: nat, kids: seq<Kid>, d: nat)
    requires blk < total && Enters(disk, total, blk, Branch(kids), d) && forall b | b in disk :: b < total
    ensures d > 0 && kids != [] && |disk[blk].slots| == |kids| && disk[blk].depth == d
    ensures disk[blk].slots[0].addr == kids[0].slot.addr < total
    ensures Enters(disk, total, kids[0].slot.addr, kids[0].sub, d - 1)
    ensures FirstLeaf(kids[0].sub) == FirstLeaf(Branch(kids))
  {
    assert disk[blk].slots[0] == kids[0].slot;
  }

  /** The leaf left in the page, read on as an index node, leads out of the volume. */
  lemma ReadsOn(disk: map<nat, Node>, total: nat, blk: nat, k: Kid, kids: seq<Kid>, d: nat, n: Node)
    requires blk < total && Enters(disk, total, blk, Branch(kids), d) && kids != [] && k == kids[0] && d > 0
    requires k.slot.addr in disk && k.slot.addr < total && Leaves(disk, total, k.slot.addr, d - 1, n)
    requires |n.slots| > 1
    ensures IndexAt(n, 1) >= total && n.depth == 0
  {
    hide Misread;
    assert disk[blk].slots[0] == kids[0].slot && Repr(disk, disk[k.slot.addr], k.sub, d - 1);
    assert k.sub == Leaf(n.slots);
    assert FirstLeaf(Branch(kids)) == FirstLeaf(k.sub) == n.slots;
  }

  /** The recursion on a tree from which it does not stray frees the specified list. */
  lemma {:induction false} WalkTree(disk: map<nat, Node>, total: nat, blk: nat, t: Tree, d: nat, fuel: nat)
    requires blk < total && Enters(disk, total, blk, t, d) && forall b | b in disk :: b < total
    requires fuel >= d + 3
    ensures var w := Walk(disk, total, blk, fuel);
            w.Some? && w.value.0 == FreedNode(t, blk) && Leaves(disk, total, blk, d, w.value.1)
    decreases d
  {
    hide Misread, FirstLeaf, Enters, DataBlocks, WalkOn;
    LeafOrBranch(disk, total, blk, t, d);
    if t.Branch? {
      var kids := t.kids;
      EntersFirst(disk, total, blk, kids, d);
      var a := kids[0].slot.addr;
      WalkTree(disk, total, a, kids[0].sub, d - 1, fuel - 1);
      var w := Walk(disk, total, a, fuel - 1).value;
      WalkStart(disk, total, disk[blk], fuel - 1);
      if |w.1.slots| > 1 {
        ReadsOn(disk, total, blk, kids[0], kids, d, w.1);
        WalkOut(disk, total, w.1, fuel - 2);
      } else {
        WalkEnd(disk, total, w.1, 1, fuel - 2);
      }
    }
  }

  lemma WalkStart(disk: map<nat, Node>, total: nat, page: Node, fuel: nat)
    requires page.slots != [] && fuel > 0
    ensures var w := Walk(disk, total, IndexAt(page, 0), fuel);
            w.Some? ==>
              var x := WalkOn(disk, total, w.value.1, 1, fuel - 1);
              WalkOn(disk, total, page, 0, fuel) == if x == None then None else Some((w.value.0 + x.value.0, x.value.1))
  {
    hide Misread;
  }

  lemma WalkOut(disk: map<nat, Node>, total: nat, page: Node, fuel: nat)
    requires |page.slots| > 1 && IndexAt(page, 1) >= total && fuel > 0
    ensures WalkOn(disk, total, page, 1, fuel) == Some(([], Node(0, [])))
  {
    hide Misread;
    var none: seq<nat> := [];
    assert Walk(disk, total, IndexAt(page, 1), fuel) == Some((none, Node(0, []))) && none + none == none;
    WalkEnd(disk, total, Node(0, []), 2, fuel - 1);
  }

  lemma LeafOrBranch(disk: map<nat, Node>, total: nat, blk: nat, t: Tree, d: nat)
    requires blk < total && Enters(disk, total, blk, t, d)
    ensures blk in disk && disk[blk].depth == d && (d == 0 <==> t.Leaf?) && (t.Leaf? ==> disk[blk] == Node(0, t.ents))
    ensures t.Branch? ==> t.kids != []
  {
  }

  /** The children of the root are entered. */
  lemma EntersRoot(disk: map<nat, Node>, total: nat, root: Node, t: Tree, cap: nat, i: nat)
    requires Repr(disk, root, t, root.depth) && RootWf(t, cap) && t.Branch? && !Strays(t, total) && i < |t.kids|
    ensures |root.slots| == |t.kids| && root.slots[i] == t.kids[i].slot && root.depth > 0
    ensures Enters(disk, total, root.slots[i].addr, t.kids[i].sub, root.depth - 1)
    ensures root.slots[i].addr in disk
  {
    hide Misread, FirstLeaf, NoEmpty;
    KidsNoEmpty(t, cap);
    assert t.kids[i] in t.kids;
  }

  /** On the stored tree of a file from which it does not stray, truncation frees the specified list. */
  lemma TruncateFrees(disk: map<nat, Node>, total: nat, root: Node, t: Tree, cap: nat, fuel: nat)
    requires Repr(disk, root, t, root.depth) && RootWf(t, cap) && !Strays(t, total)
    requires (forall b | b in disk :: b < total) && fuel >= root.depth + 3
    ensures if root.depth == 0 then DataBlocks(root.slots) == Freed(t)
            else WalkRoot(disk, total, root.slots, fuel) == Some(Freed(t))
  {
    hide RootWf, Strays, Walk, FreedNode, Enters;
    if root.depth > 0 {
      for i := 0 to |t.kids|
        invariant |root.slots| == |t.kids|
        invariant WalkRoot(disk, total, root.slots[..i], fuel) == Some(FreedKids(t.kids[..i]))
      {
        EntersRoot(disk, total, root, t, cap, i);
        WalkTree(disk, total, root.slots[i].addr, t.kids[i].sub, root.depth - 1, fuel);
        assert root.slots[..i + 1][..i] == root.slots[..i] && t.kids[..i + 1][..i] == t.kids[..i];
      }
      assert root.slots[..|root.slots|] == root.slots && t.kids[..|t.kids|] == t.kids;
    }
  }

  // ----- a recursion that strays

  /** An index node over leaves whose first leaf leads on to a leaf of at most two extents: that leaf,
      wherever it belongs, is freed with its data. */
  lemma StrayFrees(disk: map<nat, Node>, total: nat, blk: nat, fuel: nat)
    requires blk < total && blk in disk && disk[blk].depth == 1 && disk[blk].slots != [] && fuel >= 4
    requires var c := disk[blk].slots[0].addr;
             && c < total && c in disk && disk[c].depth == 0 && |disk[c].slots| > 1
             && var b := Misread(disk[c].slots[1]);
             && b < total && b in disk && disk[b].depth == 0 && |disk[b].slots| <= 2
    ensures var c := disk[blk].slots[0].addr;
            var b := Misread(disk[c].slots[1]);
            Walk(disk, total, blk, fuel) ==
            Some((DataBlocks(disk[c].slots) + [c] + (DataBlocks(disk[b].slots) + [b]) + [blk], disk[b]))
  {
    hide Misread, DataBlocks, WalkOn;
    var c := disk[blk].slots[0].addr;
    var b := Misread(disk[c].slots[1]);
    WalkStart(disk, total, disk[blk], fuel - 1);
    StraySecond(disk, total, disk[c], fuel - 2);
  }

  lemma StraySecond(disk: map<nat, Node>, total: nat, page: Node, fuel: nat)
    requires fuel > 1 && |page.slots| > 1 && page.depth == 0
    requires var b := Misread(page.slots[1]); b < total && b in disk && disk[b].depth == 0 && |disk[b].slots| <= 2
    ensures var b := Misread(page.slots[1]);
            WalkOn(disk, total, page, 1, fuel) == Some((DataBlocks(disk[b].slots) + [b], disk[b]))
  {
    hide Misread, DataBlocks;
    var b := Misread(page.slots[1]);
    WalkEnd(disk, total, disk[b], 2, fuel - 1);
    var got := DataBlocks(disk[b].slots) + [b];
    assert Walk(disk, total, b, fuel) == Some((got, disk[b])) && got + [] == got;
  }

  /** Freeing a list of any blocks. */
  lemma {:induction false} GiveAllUsed(geo: Geo, v: Vol, bs: seq<nat>, c: nat)
    requires A.GeoOk(geo) && A.Inv(geo, v)
    ensures A.Used(geo, GiveAll(geo, v, bs), c) <==> A.Used(geo, v, c) && (c !in bs || c == 0)
    decreases |bs|
  {
    hide A.Used, A.Shape, A.GroupOk, A.Sum, A.Give;
    if bs != [] {
      var n := |bs| - 1;
      GiveAllUsed(geo, v, bs[..n], c);
      A.GiveKeepsInv(geo, GiveAll(geo, v, bs[..n]), bs[n]);
      assert bs == bs[..n] + [bs[n]];
    }
  }

  /** Whatever list a truncation of file i frees: single ownership stays if and only if no block of the
      list belongs to another file. */
  lemma FreeingKeepsOwnIff(geo: Geo, cap: nat, fs: Fs, i: nat, bs: seq<nat>)
    requires Own(geo, cap, fs) && i < |fs.files|
    ensures var files := fs.files[i := Leaf([])];
            Own(geo, cap, Fs(GiveAll(geo, fs.vol, bs), files)) <==> forall b | b in bs :: Total(files, b) == 0
  {
    hide A.Used, A.Shape, A.GroupOk, A.Sum, RootWf, Total, GiveAll;
    var files := fs.files[i := Leaf([])];
    var fs' := Fs(GiveAll(geo, fs.vol, bs), files);
    EmptyRoot(cap);
    forall b ensures OwnedOnce(geo, fs', b) <==> Total(files, b) == 0 || b !in bs {
      assert OwnedOnce(geo, fs, b);
      TotalSet(fs.files, i, Leaf([]), b);
      EmptyUses(b);
      GiveAllUsed(geo, fs.vol, bs, b);
    }
    TotalSet(fs.files, i, Leaf([]), 0);
    EmptyUses(0);
    if forall b | b in bs :: Total(files, b) == 0 {
      assert Own(geo, cap, fs');
    } else {
      var b :| b in bs && Total(files, b) != 0;
      assert !OwnedOnce(geo, fs', b);
    }
  }

  // ----- the totals

  /** The entries of a node read as extents, whatever node it is. */
  function AsExtents(n: Node): (r: seq<Slot>)
    ensures n.depth == 0 ==> r == n.slots
  {
    if n.depth == 0 then n.slots
    else seq(|n.slots|, i requires 0 <= i < |n.slots| => Slot(n.slots[i].key, n.slots[i].addr % U16, 0))
  }

  datatype Totals = Totals(data: nat, index: nat, page: Node)

  /** What `ext_count` adds from block blk on, and the page it leaves; None as for Walk. */
  function Tally(disk: map<nat, Node>, total: nat, blk: nat, depth: nat, fuel: nat): Option<Totals>
    decreases fuel, 0
  {
    if fuel == 0 then None
    else if blk >= total then Some(Totals(0, 0, Node(0, [])))
    else if blk !in disk then None
    else if depth == 0 then Some(Totals(DataTotal(AsExtents(disk[blk])), 0, disk[blk]))
    else
      match TallyOn(disk, total, disk[blk], 0, depth - 1, fuel - 1)
      case None => None
      case Some(w) => Some(w.(index := |disk[blk].slots| + w.index))
  }

  function TallyOn(disk: map<nat, Node>, total: nat, page: Node, i: nat, depth: nat, fuel: nat): Option<Totals>
    decreases fuel, 1
  {
    if i >= |page.slots| then Some(Totals(0, 0, page))
    else if fuel == 0 then None
    else
      match Tally(disk, total, IndexAt(page, i), depth, fuel)
      case None => None
      case Some(w) =>
        match TallyOn(disk, total, w.page, i + 1, depth, fuel - 1)
        case None => None
        case Some(x) => Some(Totals(w.data + x.data, w.index + x.index, x.page))
  }

  function TallyRoot(disk: map<nat, Node>, total: nat, slots: seq<Slot>, depth: nat, fuel: nat): Option<Totals> {
    if slots == [] then Some(Totals(0, 0, Node(0, [])))
    else
      var n := |slots| - 1;
      var a, w := TallyRoot(disk, total, slots[..n], depth, fuel), Tally(disk, total, slots[n].addr, depth, fuel);
      if a == None || w == None then None
      else Some(Totals(a.value.data + w.value.data, a.value.index + w.value.index, w.value.page))
  }

  /** `ext_count`: what one node adds to the totals. */
  method CountTree(disk: map<nat, Node>, total: nat, blk: nat, buf: Page, depth: nat, ghost fuel: nat)
    returns (data: nat, index: nat)
    requires Tally(disk, total, blk, depth, fuel).Some?
    modifies buf
    ensures Tally(disk, total, blk, depth, fuel) == Some(Totals(data, index, buf.node))
    decreases fuel
  {
    hide Misread, DataTotal, AsExtents;
    buf.node := Node(0, []);
    if blk >= total {
      return 0, 0;
    }
    buf.node := disk[blk];
    if depth == 0 {
      data := SumExtents(AsExtents(buf.node));
      return data, 0;
    }
    data, index := 0, |buf.node.slots|;
    ghost var g: nat := fuel - 1;
    ghost var all := TallyOn(disk, total, disk[blk], 0, depth - 1, g).value;
    var i := 0;
    while i < |buf.node.slots|
      invariant g < fuel && index >= |disk[blk].slots| && TallyOn(disk, total, buf.node, i, depth - 1, g).Some?
      invariant var x := TallyOn(disk, total, buf.node, i, depth - 1, g).value;
                all == Totals(data + x.data, index - |disk[blk].slots| + x.index, x.page)
      decreases g
    {
      var n, m := CountTree(disk, total, IndexAt(buf.node, i), buf, depth - 1, g);
      data, index := data + n, index + m;
      i, g := i + 1, g - 1;
    }
  }

  /** `ext_inode_blocks`: the totals it records. */
  method InodeBlocks(disk: map<nat, Node>, total: nat, root: Node, ghost fuel: nat) returns (data: nat, index: nat)
    requires root.depth > 0 ==> TallyRoot(disk, total, root.slots, root.depth - 1, fuel).Some?
    ensures root.depth == 0 ==> data == DataTotal(root.slots) && index == 0
    ensures root.depth > 0 ==>
              var w := TallyRoot(disk, total, root.slots, root.depth - 1, fuel).value;
              data == w.data && index == |root.slots| + w.index
  {
    hide Tally;
    if root.depth == 0 {
      data := SumExtents(root.slots);
      return data, 0;
    }
    data, index := 0, |root.slots|;
    var buf := new Page();
    for i := 0 to |root.slots|
      invariant TallyRoot(disk, total, root.slots[..i], root.depth - 1, fuel).Some?
      invariant var w := TallyRoot(disk, total, root.slots[..i], root.depth - 1, fuel).value;
                data == w.data && index == |root.slots| + w.index
    {
      TallyPrefix(disk, total, root.slots, i + 1, root.depth - 1, fuel);
      assert root.slots[..i + 1][..i] == root.slots[..i];
      var n, m := CountTree(disk, total, root.slots[i].addr, buf, root.depth - 1, fuel);
      data, index := data + n, index + m;
    }
    assert root.slots[..|root.slots|] == root.slots;
  }

  lemma {:induction false} TallyPrefix(disk: map<nat, Node>, total: nat, slots: seq<Slot>, n: nat, depth: nat,
                                       fuel: nat)
    requires n <= |slots| && TallyRoot(disk, total, slots, depth, fuel).Some?
    ensures TallyRoot(disk, total, slots[..n], depth, fuel).Some?
    decreases |slots|
  {
    if n < |slots| {
      assert slots[..|slots| - 1][..n] == slots[..n];
      TallyPrefix(disk, total, slots[..|slots| - 1], n, depth, fuel);
    } else {
      assert slots[..n] == slots;
    }
  }

  /** The totals below a node from which the recursion does not stray. */
  lemma {:induction false} TallyTree(disk: map<nat, Node>, total: nat, blk: nat, t: Tree, d: nat, fuel: nat)
    requires blk < total && Enters(disk, total, blk, t, d) && forall b | b in disk :: b < total
    requires fuel >= d + 3
    ensures var w := Tally(disk, total, blk, d, fuel);
            && w.Some? && w.value.data == NodeData(t) && w.value.index == NodeIndex(t)
            && Leaves(disk, total, blk, d, w.value.page)
    decreases d
  {
    hide Misread, FirstLeaf, Enters, DataTotal, TallyOn;
    LeafOrBranch(disk, total, blk, t, d);
    if t.Branch? {
      var kids := t.kids;
      EntersFirst(disk, total, blk, kids, d);
      var a := kids[0].slot.addr;
      TallyTree(disk, total, a, kids[0].sub, d - 1, fuel - 1);
      var w := Tally(disk, total, a, d - 1, fuel - 1).value;
      TallyStart(disk, total, disk[blk], d - 1, fuel - 1);
      if |w.page.slots| > 1 {
        ReadsOn(disk, total, blk, kids[0], kids, d, w.page);
      }
      TallyOut(disk, total, w.page, d - 1, fuel - 2);
    }
  }

  lemma TallyStart(disk: map<nat, Node>, total: nat, page: Node, depth: nat, fuel: nat)
    requires page.slots != [] && fuel > 0
    ensures var w := Tally(disk, total, IndexAt(page, 0), depth, fuel);
            w.Some? ==>
              var x := TallyOn(disk, total, w.value.page, 1, depth, fuel - 1);
              TallyOn(disk, total, page, 0, depth, fuel) ==
                if x == None then None
                else Some(Totals(w.value.data + x.value.data, w.value.index + x.value.index, x.value.page))
  {
    hide Misread;
  }

  lemma TallyOut(disk: map<nat, Node>, total: nat, page: Node, depth: nat, fuel: nat)
    requires fuel > 0 && (|page.slots| > 1 ==> IndexAt(page, 1) >= total)
    ensures TallyOn(disk, total, page, 1, depth, fuel) ==
            Some(Totals(0, 0, if |page.slots| > 1 then Node(0, []) else page))
  {
    hide Misread;
    if |page.slots| > 1 {
      assert Tally(disk, total, IndexAt(page, 1), depth, fuel) == Some(Totals(0, 0, Node(0, [])));
      assert TallyOn(disk, total, Node(0, []), 2, depth, fuel - 1) == Some(Totals(0, 0, Node(0, [])));
    }
  }

  /** On the stored tree of a file from which it does not stray, the recorded totals are at least the
      number of blocks truncation frees, and exactly it if and only if no index node below the root has
      a second child. */
  lemma InodeBlocksIff(disk: map<nat, Node>, total: nat, root: Node, t: Tree, cap: nat, fuel: nat)
    requires Repr(disk, root, t, root.depth) && RootWf(t, cap) && !Strays(t, total)
    requires (forall b | b in disk :: b < total) && fuel >= root.depth + 3
    ensures root.depth == 0 ==> DataTotal(root.slots) == |Freed(t)|
    ensures root.depth > 0 ==>
              var w := TallyRoot(disk, total, root.slots, root.depth - 1, fuel);
              && w.Some? && w.value.data + |root.slots| + w.value.index >= |Freed(t)|
              && (w.value.data + |root.slots| + w.value.index == |Freed(t)| <==> AllSpines(t))
  {
    hide RootWf, Strays, Tally, Freed, Enters, NodeData, NodeIndex, AllSpines;
    RecordedIff(t, cap);
    if root.depth == 0 {
      LeafSpines(t);
    } else {
      for i := 0 to |t.kids|
        invariant |root.slots| == |t.kids|
        invariant var w := TallyRoot(disk, total, root.slots[..i], root.depth - 1, fuel);
                  w.Some? && w.value.data == KidsData(t.kids[..i]) && w.value.index == KidsIndex(t.kids[..i])
      {
        EntersRoot(disk, total, root, t, cap, i);
        TallyTree(disk, total, root.slots[i].addr, t.kids[i].sub, root.depth - 1, fuel);
        assert root.slots[..i + 1][..i] == root.slots[..i] && t.kids[..i + 1][..i] == t.kids[..i];
      }
      assert root.slots[..|root.slots|] == root.slots && t.kids[..|t.kids|] == t.kids;
    }
  }

  lemma LeafSpines(t: Tree)
    requires t.Leaf?
    ensures AllSpines(t)
  {
  }

  method SumExtents(slots: seq<Slot>) returns (data: nat)
    ensures data == DataTotal(slots)
  {
    data := 0;
    for i := 0 to |slots|
      invariant data == DataTotal(slots[..i])
    {
      data := data + Len(slots[i]);
      assert slots[..i + 1][..i] == slots[..i];
    }
    assert slots[..|slots|] == slots;
  }
}
