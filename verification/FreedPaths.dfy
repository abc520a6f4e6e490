/** Which blocks of a file truncation frees, block by block: those that are reached from the root by going
    on to first children only. The others stay in use (kernel/fs/ext4.c:1344-1418, 1637-1677). */
module FreedPaths {
  import opened Extents
  import opened ExtentTree
  import opened ExtentBlocks
  import opened TreeBlocks
  import opened Ownership
  import A = Allocator

  /** Block b is a data block of the extents. */
  ghost predicate InData(es: seq<Slot>, b: nat) {
    exists s | s in es :: s.addr <= b < s.addr + Len(s)
  }

  /** Taking child path[0], then child path[1] and so on from k, one comes to a node that is stored in
      block b or is a leaf with b among its data blocks. */
  ghost predicate Leads(k: Kid, path: seq<nat>, b: nat)
    decreases |path|
  {
    if path == [] then k.slot.addr == b || (k.sub.Leaf? && InData(k.sub.ents, b))
    else k.sub.Branch? && path[0] < |k.sub.kids| && Leads(k.sub.kids[path[0]], path[1..], b)
  }

  predicate FirstsOnly(path: seq<nat>) {
    forall i | 0 <= i < |path| :: path[i] == 0
  }

  /** A path from the root's child k to b; one that takes first children only. */
  ghost predicate Below(k: Kid, b: nat) {
    exists path :: Leads(k, path, b)
  }

  ghost predicate BelowFirst(k: Kid, b: nat) {
    exists path :: FirstsOnly(path) && Leads(k, path, b)
  }

  ghost predicate BelowAny(kids: seq<Kid>, b: nat) {
    exists k | k in kids :: Below(k, b)
  }

  ghost predicate BelowAnyFirst(kids: seq<Kid>, b: nat) {
    exists k | k in kids :: BelowFirst(k, b)
  }

  // ----- paths

  lemma Ends(k: Kid, b: nat)
    ensures Leads(k, [], b) ==> Below(k, b) && BelowFirst(k, b)
  {
    assert FirstsOnly([]);
  }

  lemma Longer(k: Kid, i: nat, path: seq<nat>, b: nat)
    requires k.sub.Branch? && i < |k.sub.kids|
    ensures Leads(k, [i] + path, b) <==> Leads(k.sub.kids[i], path, b)
    ensures FirstsOnly([i] + path) <==> i == 0 && FirstsOnly(path)
  {
    assert ([i] + path)[1..] == path;
    if FirstsOnly([i] + path) {
      assert ([i] + path)[0] == 0;
      forall j | 0 <= j < |path| ensures path[j] == 0 {
        assert ([i] + path)[j + 1] == path[j];
      }
    }
  }

  /** A path is empty or goes on from a child. */
  lemma BelowIff(k: Kid, b: nat)
    ensures Below(k, b) <==> Leads(k, [], b) || (k.sub.Branch? && BelowAny(k.sub.kids, b))
  {
    Ends(k, b);
    if Below(k, b) && !Leads(k, [], b) {
      var path :| Leads(k, path, b);
      Longer(k, path[0], path[1..], b);
      assert path == [path[0]] + path[1..];
      assert Below(k.sub.kids[path[0]], b);
    }
    if k.sub.Branch? && BelowAny(k.sub.kids, b) {
      var c :| c in k.sub.kids && Below(c, b);
      var i :| 0 <= i < |k.sub.kids| && k.sub.kids[i] == c;
      var path :| Leads(c, path, b);
      Longer(k, i, path, b);
    }
  }

  lemma BelowFirstIff(k: Kid, b: nat)
    ensures BelowFirst(k, b) <==>
            Leads(k, [], b) || (k.sub.Branch? && k.sub.kids != [] && BelowFirst(k.sub.kids[0], b))
  {
    Ends(k, b);
    if BelowFirst(k, b) && !Leads(k, [], b) {
      var path :| FirstsOnly(path) && Leads(k, path, b);
      assert path[0] == 0 && path == [0] + path[1..];
      Longer(k, 0, path[1..], b);
    }
    if k.sub.Branch? && k.sub.kids != [] && BelowFirst(k.sub.kids[0], b) {
      var path :| FirstsOnly(path) && Leads(k.sub.kids[0], path, b);
      Longer(k, 0, path, b);
    }
  }

  // ----- data blocks

  lemma {:induction false} DataIff(es: seq<Slot>, b: nat)
    ensures DataUses(es, b) > 0 <==> InData(es, b)
    ensures b in DataBlocks(es) <==> InData(es, b)
    decreases |es|
  {
    DataBlocksUses(es, b);
    OccursIn(DataBlocks(es), b);
    if es != [] {
      DataIff(es[1..], b);
      assert es == [es[0]] + es[1..];
    }
  }

  // ----- what is freed

  lemma {:induction false} KidFreedIff(k: Kid, b: nat)
    ensures b in FreedNode(k.sub, k.slot.addr) <==> BelowFirst(k, b)
    decreases k
  {
    hide BelowFirst, InData, DataBlocks;
    BelowFirstIff(k, b);
    match k.sub
    case Leaf(es) => DataIff(es, b);
    case Branch(kids) =>
      if kids != [] {
        KidFreedIff(kids[0], b);
      }
  }

  lemma {:induction false} KidsFreedIff(kids: seq<Kid>, b: nat)
    ensures b in FreedKids(kids) <==> BelowAnyFirst(kids, b)
    decreases |kids|
  {
    hide BelowFirst, FreedNode;
    if kids != [] {
      var n := |kids| - 1;
      KidsFreedIff(kids[..n], b);
      KidFreedIff(kids[n], b);
      assert kids == kids[..n] + [kids[n]];
    }
  }

  // ----- what is used

  lemma {:induction false} KidUsedIff(k: Kid, b: nat)
    ensures One(k.slot.addr == b) + Uses(k.sub, b) > 0 <==> Below(k, b)
    decreases k, 0
  {
    hide Below, InData, DataUses, KidsUses;
    BelowIff(k, b);
    match k.sub
    case Leaf(es) => DataIff(es, b);
    case Branch(kids) =>
      BranchList(kids, b);
      KidsUsedIff(kids, b);
  }

  lemma {:induction false} KidsUsedIff(kids: seq<Kid>, b: nat)
    ensures ListUses(kids, b) > 0 <==> BelowAny(kids, b)
    decreases kids, 0
  {
    hide Below, ListUses, Uses;
    if kids == [] {
      NoKids(b);
    } else {
      KidUsedIff(kids[0], b);
      KidsUsedIff(kids[1..], b);
      assert kids == [kids[0]] + kids[1..];
      ListConcat([kids[0]], kids[1..], b);
      ListOne(kids[0], b);
    }
  }

  /** Truncation frees a block if and only if a path to it takes first children only below the root's
      entries; of a tree that is one leaf it frees every data block. */
  lemma FreesIff(t: Tree, b: nat)
    ensures Uses(t, b) > 0 <==> if t.Leaf? then InData(t.ents, b) else BelowAny(t.kids, b)
    ensures b in Freed(t) <==> if t.Leaf? then InData(t.ents, b) else BelowAnyFirst(t.kids, b)
  {
    hide InData, BelowAny, BelowAnyFirst, DataUses, DataBlocks, FreedKids, KidsUses;
    match t
    case Leaf(es) => DataIff(es, b);
    case Branch(kids) =>
      BranchList(kids, b);
      KidsUsedIff(kids, b);
      KidsFreedIff(kids, b);
  }

  /** After a truncation exactly those blocks of the file are still in use, owned by no file, to which every
      path takes a later child somewhere below the root's entries. */
  lemma LeaksIff(geo: A.Geo, cap: nat, fs: Fs, i: nat, b: nat)
    requires Own(geo, cap, fs) && i < |fs.files| && Uses(fs.files[i], b) > 0
    ensures var t, fs' := fs.files[i], Truncate(geo, fs, i);
            && Total(fs'.files, b) == 0
            && (A.Used(geo, fs'.vol, b) <==> t.Branch? && !BelowAnyFirst(t.kids, b))
  {
    hide A.Used, Uses, Freed, RootWf, Truncate, BelowAnyFirst, InData, BelowAny, A.Shape, A.GroupOk, A.Sum;
    var t, fs' := fs.files[i], Truncate(geo, fs, i);
    TruncateKeepsOwn(geo, cap, fs, i);
    FreesIff(t, b);
    assert OwnedOnce(geo, fs, b);
    TotalSet(fs.files, i, t, b);
    TotalSet(fs.files, i, Leaf([]), b);
    EmptyUses(b);
    TruncatedFiles(geo, fs, i);
    assert fs.files[i := t] == fs.files;
  }

  lemma TruncatedFiles(geo: A.Geo, fs: Fs, i: nat)
    requires A.GeoOk(geo) && A.Inv(geo, fs.vol) && i < |fs.files|
    ensures Truncate(geo, fs, i).files == fs.files[i := Leaf([])]
  {
    hide A.Inv;
  }

  // ----- the recorded size

  /** The children that are counted and not visited, in the nodes one comes to from t. */
  function Skipped(t: Tree): nat
    decreases t
  {
    if t.Branch? && t.kids != [] then |t.kids| - 1 + Skipped(t.kids[0].sub) else 0
  }

  function AllSkipped(kids: seq<Kid>): nat {
    if kids == [] then 0 else AllSkipped(kids[..|kids| - 1]) + Skipped(kids[|kids| - 1].sub)
  }

  lemma {:induction false} NodeRecorded(t: Tree, blk: nat)
    requires NoEmpty(t)
    ensures NodeData(t) + NodeIndex(t) + 1 == |FreedNode(t, blk)| + Skipped(t)
    decreases t
  {
    match t
    case Leaf(es) => DataBlocksLength(es);
    case Branch(kids) => NodeRecorded(kids[0].sub, kids[0].slot.addr);
  }

  lemma {:induction false} KidsRecorded(kids: seq<Kid>)
    requires forall k | k in kids :: NoEmpty(k.sub)
    ensures KidsData(kids) + KidsIndex(kids) + |kids| == |FreedKids(kids)| + AllSkipped(kids)
    decreases |kids|
  {
    hide NoEmpty, FreedNode, NodeData, NodeIndex, Skipped;
    if kids != [] {
      var n := |kids| - 1;
      assert kids == kids[..n] + [kids[n]];
      KidsRecorded(kids[..n]);
      NodeRecorded(kids[n].sub, kids[n].slot.addr);
    }
  }

  /** The recorded size exceeds the number of freed blocks by the number of children passed over. */
  lemma RecordedExcess(t: Tree, cap: nat)
    requires RootWf(t, cap)
    ensures DataSeen(t) + IndexSeen(t) == |Freed(t)| + if t.Leaf? then 0 else AllSkipped(t.kids)
  {
    hide NoEmpty;
    match t
    case Leaf(es) => DataBlocksLength(es);
    case Branch(kids) =>
      KidsNoEmpty(t, cap);
      KidsRecorded(kids);
  }
}
