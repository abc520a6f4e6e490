/** Free counts, of blocks or of inodes, through transactions, crashes and mounts. The driver builds its
    transactions from descriptors and counters in memory, and a mount loads these from the home blocks
    before it replays the journal, so a mount after an unlucky cut leaves memory behind the disk, and
    the next transaction writes what memory says (kernel/fs/ext4.c:431-436, 495-764, 1704-1707, 2484-2535). */
module CrashCounts {
  import opened Words
  import opened Bytes
  import Bits
  import opened Journal
  import opened JournalRecovery
  import opened JournalRuns
  import opened VolumeBytes
  import S = StaleCounts
  import A = Allocator

  /** The counts on disk are exact: each group's is the clear bits of its bitmap, the global one their sum. */
  predicate Exact(l: Layout, h: Image)
    requires LayoutOk(l) && MetaOk(l, h)
  {
    A.Inv(l.geo, Decode(l, h))
  }

  lemma DecodeIs(l: Layout, h: Image, m: Mem)
    requires LayoutOk(l) && MetaOk(l, h) && MemOk(l, m)
    ensures Decode(l, h) == S.Disk(Seen(l, h, m))
    ensures Exact(l, h) ==> S.Sound(l.geo, Seen(l, h, m))
  {
    hide A.GroupOk, A.Sum, A.GeoOk, A.Used, DescIn, FreeIn, Bits.Flags, GdtBlock, GdtOff;
    SeenShape(l, h, m);
    assert Decode(l, h).bits == Seen(l, h, m).bits && Decode(l, h).gdt == Seen(l, h, m).gdtDisk;
    FreeSmall(l, h[l.sb]);
  }

  lemma FreeSmall(l: Layout, b: Block)
    requires l.sbOff + SUPER <= |b|
    ensures FreeIn(l, b) < U32
  {
  }

  // ----- two sets of home blocks

  predicate SameCounts(l: Layout, a: Image, c: Image)
    requires LayoutOk(l) && MetaOk(l, a) && MetaOk(l, c)
  {
    FreeIn(l, a[l.sb]) == FreeIn(l, c[l.sb]) && forall g | 0 <= g < |l.bitmaps| :: DescOf(l, a, g) == DescOf(l, c, g)
  }

  /** a has another global count than c, and another count of group b if one is given. */
  predicate LagCounts(l: Layout, a: Image, c: Image, b: Option<nat>)
    requires LayoutOk(l) && MetaOk(l, a) && MetaOk(l, c)
  {
    FreeIn(l, a[l.sb]) != FreeIn(l, c[l.sb]) && S.Differ(l.geo, Decode(l, a).gdt, Decode(l, c).gdt, b)
  }

  /** What a mount that loads a finds once the disk holds h. */
  lemma Loaded(l: Layout, a: Image, h: Image, b: Option<nat>)
    requires LayoutOk(l) && MetaOk(l, a) && MetaOk(l, h)
    ensures SameCounts(l, a, h) ==> S.Fresh(Seen(l, h, Load(l, a)))
    ensures LagCounts(l, a, h, b) ==> S.Stale(l.geo, Seen(l, h, Load(l, a)), b)
  {
    hide DescIn, FreeIn, Bits.Flags, GdtBlock, GdtOff, A.GeoOk, IsGdt, S.Differ;
    var v := Seen(l, h, Load(l, a));
    forall g | 0 <= g < |l.bitmaps| ensures v.gdt[g] == DescOf(l, a, g) && v.gdtDisk[g] == DescOf(l, h, g) {
    }
    assert v.gdt == Decode(l, a).gdt && v.gdtDisk == Decode(l, h).gdt;
    if SameCounts(l, a, h) {
      assert v.gdt == v.gdtDisk;
    }
  }

  /** Three blocks, the second a descriptor block and the last the superblock. */
  predicate ThreeOp(l: Layout, op: Op)
    requires LayoutOk(l)
  {
    && |op| == 3 && |op[0].1| == |op[1].1| == |op[2].1| == l.geo.bs
    && op[0].0 != l.sb && !IsGdt(l, op[0].0) && IsGdt(l, op[1].0) && op[2].0 == l.sb
  }

  predicate NoMeta(l: Layout, op: Op)
    requires LayoutOk(l)
  {
    forall k | 0 <= k < |op| :: !IsMeta(l, op[k].0)
  }

  /** A descriptor block alone. */
  predicate OneOp(l: Layout, op: Op)
    requires LayoutOk(l)
  {
    |op| == 1 && |op[0].1| == l.geo.bs && IsGdt(l, op[0].0)
  }

  predicate Plain(l: Layout, op: Op)
    requires LayoutOk(l)
  {
    NoMeta(l, op) || ThreeOp(l, op) || OneOp(l, op)
  }

  /** Blocks outside the metadata do not matter. */
  lemma {:induction false} OthersIgnored(l: Layout, h: Image, op: Op)
    requires LayoutOk(l) && MetaOk(l, h) && NoMeta(l, op)
    ensures MetaOk(l, Apply(h, op)) && SameMeta(l, h, Apply(h, op))
    decreases op
  {
    hide IsMeta, SameMeta, LayoutOk, MetaOk;
    if op == [] {
      MetaSelf(l, h);
    } else {
      OneIgnored(l, h, op[0].0, op[0].1);
      OthersIgnored(l, h[op[0].0 := op[0].1], op[1..]);
      SameTrans(l, h, h[op[0].0 := op[0].1], Apply(h, op));
    }
  }

  /** The same metadata blocks. */
  predicate SameMeta(l: Layout, a: Image, c: Image)
    requires LayoutOk(l) && MetaOk(l, a) && MetaOk(l, c)
  {
    && a[l.sb] == c[l.sb]
    && forall g | 0 <= g < |l.bitmaps| :: a[l.bitmaps[g]] == c[l.bitmaps[g]] && a[GdtBlock(l, g)] == c[GdtBlock(l, g)]
  }

  lemma MetaSelf(l: Layout, a: Image)
    requires LayoutOk(l) && MetaOk(l, a)
    ensures SameMeta(l, a, a)
  {
  }

  lemma SameTrans(l: Layout, a: Image, b: Image, c: Image)
    requires LayoutOk(l) && MetaOk(l, a) && MetaOk(l, b) && MetaOk(l, c) && SameMeta(l, a, b) && SameMeta(l, b, c)
    ensures SameMeta(l, a, c)
  {
  }

  lemma OneIgnored(l: Layout, h: Image, b: nat, v: Block)
    requires LayoutOk(l) && MetaOk(l, h) && !IsMeta(l, b)
    ensures MetaOk(l, h[b := v]) && SameMeta(l, h, h[b := v])
  {
    hide IsGdt, GdtBlock, A.GeoOk;
    var h' := h[b := v];
    forall k | 0 <= k < |l.bitmaps|
      ensures Sized(h', l.bitmaps[k], l.geo.bs) && Sized(h', GdtBlock(l, k), l.geo.bs)
      ensures h'[l.bitmaps[k]] == h[l.bitmaps[k]] && h'[GdtBlock(l, k)] == h[GdtBlock(l, k)]
    {
      GdtKnown(l, k);
    }
  }

  /** The same metadata means the same volume. */
  lemma SameMetaIs(l: Layout, a: Image, c: Image)
    requires LayoutOk(l) && MetaOk(l, a) && MetaOk(l, c) && SameMeta(l, a, c)
    ensures SameCounts(l, a, c) && Decode(l, a) == Decode(l, c)
    ensures forall m | MemOk(l, m) :: Seen(l, a, m) == Seen(l, c, m)
  {
    hide IsGdt, GdtBlock, GdtOff, DescIn, FreeIn, A.GroupCount, A.GeoOk, Bits.Flags;
    assert Decode(l, a).bits == Decode(l, c).bits;
    assert Decode(l, a).gdt == Decode(l, c).gdt;
    forall m | MemOk(l, m) ensures Seen(l, a, m) == Seen(l, c, m) {
      assert Seen(l, a, m).bits == Seen(l, c, m).bits;
      assert Seen(l, a, m).gdt == Seen(l, c, m).gdt;
      assert Seen(l, a, m).gdtDisk == Seen(l, c, m).gdtDisk;
    }
  }

  // ----- a transaction half way home

  lemma ApplyIs(h: Image, op: Op, m: nat)
    requires |op| == 3 && m <= 3
    ensures var r := Apply(h, op[..m]);
            && (m == 0 ==> r == h)
            && (m == 1 ==> r == h[op[0].0 := op[0].1])
            && (m == 2 ==> r == h[op[0].0 := op[0].1][op[1].0 := op[1].1])
            && (m == 3 ==> r == h[op[0].0 := op[0].1][op[1].0 := op[1].1][op[2].0 := op[2].1])
  {
    assert op[..0] == [] && op[..1] == [] + [op[0]] && op[..2] == op[..1] + [op[1]] && op[..3] == op[..2] + [op[2]];
    ApplyLast(h, [], op[0]);
    ApplyLast(h, op[..1], op[1]);
    ApplyLast(h, op[..2], op[2]);
  }

  /** With k of three blocks written: descriptors are the old ones until the second, the superblock until
      the last. */
  lemma HalfWay(l: Layout, a: Image, op: Op, k: nat, g: nat)
    requires LayoutOk(l) && MetaOk(l, a) && ThreeOp(l, op) && k <= 3 && g < |l.bitmaps|
    ensures var h, c := Apply(a, op), Apply(a, op[..k]);
            && Sized(c, l.sb, l.geo.bs) && Sized(c, l.bitmaps[g], l.geo.bs) && Sized(c, GdtBlock(l, g), l.geo.bs)
            && Sized(h, GdtBlock(l, g), l.geo.bs)
            && (k < 3 ==> c[l.sb] == a[l.sb]) && (k == 3 ==> c == h)
            && c[GdtBlock(l, g)] == (if k < 2 then a[GdtBlock(l, g)] else h[GdtBlock(l, g)])
  {
    hide IsGdt, GdtBlock, A.GeoOk, Apply;
    GdtKnown(l, g);
    assert op[..3] == op;
    ApplyIs(a, op, 3);
    ApplyIs(a, op, k);
  }

  lemma SomeGroup(l: Layout)
    requires LayoutOk(l)
    ensures |l.bitmaps| > 0
  {
    A.BlockPlace(l.geo, l.geo.first);
  }

  lemma HalfWayOk(l: Layout, a: Image, op: Op, k: nat)
    requires LayoutOk(l) && MetaOk(l, a) && Plain(l, op) && k <= |op|
    ensures MetaOk(l, Apply(a, op[..k]))
  {
    hide IsMeta, IsGdt, GdtBlock, A.GeoOk, Apply;
    if NoMeta(l, op) {
      OthersIgnored(l, a, op[..k]);
    } else if OneOp(l, op) {
      OneWay(l, a, op, k);
    } else {
      SomeGroup(l);
      HalfWay(l, a, op, k, 0);
      forall g | 0 <= g < |l.bitmaps| ensures Sized(Apply(a, op[..k]), l.bitmaps[g], l.geo.bs)
             && Sized(Apply(a, op[..k]), GdtBlock(l, g), l.geo.bs) {
        HalfWay(l, a, op, k, g);
      }
    }
  }

  lemma AllOk(l: Layout, a: Image, op: Op)
    requires LayoutOk(l) && MetaOk(l, a) && Plain(l, op)
    ensures MetaOk(l, Apply(a, op))
  {
    HalfWayOk(l, a, op, |op|);
    assert op[..|op|] == op;
  }

  /** One block, written or not. */
  lemma OneWay(l: Layout, a: Image, op: Op, k: nat)
    requires LayoutOk(l) && MetaOk(l, a) && OneOp(l, op) && k <= 1
    ensures MetaOk(l, Apply(a, op[..k])) && Apply(a, op[..k])[l.sb] == a[l.sb]
    ensures Apply(a, op[..k]) == if k == 0 then a else Apply(a, op)
  {
    hide IsGdt, GdtBlock, A.GeoOk, Apply;
    assert op[..0] == [] && op[..1] == op;
    NoBlocks(a);
    AppliedOne(a, op);
    var h := Apply(a, op);
    forall g | 0 <= g < |l.bitmaps| ensures Sized(h, l.bitmaps[g], l.geo.bs) && Sized(h, GdtBlock(l, g), l.geo.bs) {
      GdtKnown(l, g);
    }
  }

  lemma NoBlocks(h: Image)
    ensures Apply(h, []) == h
  {
  }

  /** Writing the first k blocks of a transaction keeps the counts between a and the whole: equal ones
      stay equal, a group's count is behind until the second block and the global one until the last. */
  lemma Between(l: Layout, a: Image, op: Op, k: nat, b: Option<nat>)
    requires LayoutOk(l) && MetaOk(l, a) && Plain(l, op) && k <= |op|
    requires MetaOk(l, Apply(a, op)) && MetaOk(l, Apply(a, op[..k]))
    ensures var h, c := Apply(a, op), Apply(a, op[..k]);
            && (SameCounts(l, a, h) ==> SameCounts(l, c, h))
            && (LagCounts(l, a, h, b) ==>
                  ThreeOp(l, op) && if k < 3 then LagCounts(l, c, h, if k < 2 then b else None) else c == h)
  {
    hide IsMeta, IsGdt, GdtBlock, GdtOff, DescIn, FreeIn, A.GeoOk, A.Count, Apply, BitsOf;
    var h, c := Apply(a, op), Apply(a, op[..k]);
    if NoMeta(l, op) {
      OthersIgnored(l, a, op);
      OthersIgnored(l, a, op[..k]);
      SameMetaIs(l, a, h);
      SameMetaIs(l, a, c);
    } else if OneOp(l, op) {
      OneWay(l, a, op, k);
      OneWay(l, a, op, 1);
      assert op[..1] == op;
    } else {
      SomeGroup(l);
      HalfWay(l, a, op, k, 0);
      forall g | 0 <= g < |l.bitmaps| ensures DescOf(l, c, g) == if k < 2 then DescOf(l, a, g) else DescOf(l, h, g) {
        HalfWay(l, a, op, k, g);
      }
      assert Decode(l, c).gdt == if k < 2 then Decode(l, a).gdt else Decode(l, h).gdt;
    }
  }

  // ----- transactions from memory

  /** An allocation, a release of b, a transaction of the sibling, or a descriptor block alone. */
  datatype Txn =
    | Take(st: Stamp)
    | Give(b: nat, st: Stamp)
    | Sibling(x: nat, w: Block, g: nat, gd: Block, st: Stamp)
    | Flush(g: nat, gd: Block)

  /** The block an allocation or a release is about, if it gets as far as a transaction. */
  function Target(l: Layout, h: Image, m: Mem, t: Txn): (r: Option<nat>)
    requires LayoutOk(l) && MetaOk(l, h) && MemOk(l, m)
    ensures r.Some? ==> l.geo.first <= r.value < l.geo.total
  {
    SeenShape(l, h, m);
    match t
    case Take(_) =>
      S.PickChanges(l.geo, Seen(l, h, m), 0);
      S.Pick(l.geo, Seen(l, h, m), 0)
    case Give(b, _) => if b != 0 && A.Used(l.geo, Seen(l, h, m), b) then Some(b) else None
    case _ => None
  }

  /** The transaction and the memory after it; no blocks if there is nothing to do. */
  function TxnOp(l: Layout, h: Image, m: Mem, t: Txn): (Op, Mem)
    requires LayoutOk(l) && MetaOk(l, h) && MemOk(l, m)
  {
    if t.Sibling? then SiblingOp(l, h, m, t.x, t.w, t.g, t.gd, t.st)
    else if t.Flush? then FlushOp(l, m, t.g, t.gd)
    else
      var b := Target(l, h, m, t);
      if b == None then ([], m) else MarkOp(l, h, m, b.value, t.Take?, t.st)
  }

  /** What is released lies in an initialised group, and the others write the counts in memory. */
  predicate TxnOk(l: Layout, m: Mem, t: Txn)
    requires LayoutOk(l) && MemOk(l, m)
  {
    match t
    case Take(_) => true
    case Give(b, _) => l.geo.first <= b < l.geo.total ==>
         (A.BlockPlace(l.geo, b); !MemDesc(l, m, A.GroupOf(l.geo, b)).uninit)
    case Sibling(x, w, g, gd, _) => SiblingOk(l, m, x, w, g, gd)
    case Flush(g, gd) => FlushOk(l, m, g, gd)
  }

  lemma TargetChanges(l: Layout, h: Image, m: Mem, t: Txn)
    requires LayoutOk(l) && MetaOk(l, h) && MemOk(l, m) && TxnOk(l, m, t)
    ensures A.Shape(l.geo, Seen(l, h, m))
    ensures Target(l, h, m, t).Some? ==> S.Changes(l.geo, Seen(l, h, m), Target(l, h, m, t).value, t.Take?)
  {
    hide S.Pick, IsGdt, GdtBlock, GdtOff, DescIn, FreeIn, Bits.Flags, A.GroupOf, A.BitOf, A.GroupCount, A.Groups,
         A.GeoOk;
    SeenShape(l, h, m);
    if t.Take? {
      S.PickChanges(l.geo, Seen(l, h, m), 0);
    } else if Target(l, h, m, t).Some? {
      A.BlockPlace(l.geo, t.b);
      assert Seen(l, h, m).gdt[A.GroupOf(l.geo, t.b)] == MemDesc(l, m, A.GroupOf(l.geo, t.b));
    }
  }

  lemma MarkIsThree(l: Layout, h: Image, m: Mem, b: nat, used: bool, st: Stamp)
    requires LayoutOk(l) && MetaOk(l, h) && MemOk(l, m) && l.geo.first <= b < l.geo.total
    ensures ThreeOp(l, MarkOp(l, h, m, b, used, st).0)
  {
    hide IsGdt, GdtBlock, GdtOff, DescBytes, SbBytes, Bits.BitmapBytes, A.GroupOf, A.BitOf, A.Count, A.Bump, A.GeoOk;
    A.BlockPlace(l.geo, b);
    GdtKnown(l, A.GroupOf(l.geo, b));
    DescWithin(l, A.GroupOf(l.geo, b));
    BitsFit(l, A.GroupOf(l.geo, b));
  }

  lemma SiblingIsThree(l: Layout, h: Image, m: Mem, x: nat, w: Block, g: nat, gd: Block, st: Stamp)
    requires LayoutOk(l) && MetaOk(l, h) && MemOk(l, m) && SiblingOk(l, m, x, w, g, gd)
    ensures ThreeOp(l, SiblingOp(l, h, m, x, w, g, gd, st).0)
  {
    hide IsGdt, GdtBlock, SbBytes, A.GeoOk;
    GdtKnown(l, g);
  }

  lemma FlushIsOne(l: Layout, m: Mem, g: nat, gd: Block)
    requires LayoutOk(l) && MemOk(l, m) && FlushOk(l, m, g, gd)
    ensures OneOp(l, FlushOp(l, m, g, gd).0)
  {
    hide GdtBlock, A.GeoOk;
    GdtKnown(l, g);
  }

  /** The group whose count a transaction changes. */
  function Group(l: Layout, h: Image, m: Mem, t: Txn): nat
    requires LayoutOk(l) && MetaOk(l, h) && MemOk(l, m)
  {
    if Target(l, h, m, t).Some? then A.GroupOf(l.geo, Target(l, h, m, t).value) else 0
  }

  predicate OpForm(l: Layout, t: Txn, op: Op)
    requires LayoutOk(l)
  {
    if t.Flush? then OneOp(l, op) else op == [] || ThreeOp(l, op)
  }

  /** A transaction while memory agrees with the disk: the counts stay exact and memory stays in
      agreement; one count changes on disk, or none. */
  lemma FreshTxn(l: Layout, h: Image, m: Mem, t: Txn)
    requires LayoutOk(l) && MetaOk(l, h) && MemOk(l, m) && TxnOk(l, m, t) && Exact(l, h) && S.Fresh(Seen(l, h, m))
    ensures var (op, m') := TxnOp(l, h, m, t);
            && OpForm(l, t, op) && MetaOk(l, Apply(h, op)) && MemOk(l, m')
            && Exact(l, Apply(h, op)) && S.Fresh(Seen(l, Apply(h, op), m'))
            && (op != [] ==>
                if Alters(t) then LagCounts(l, h, Apply(h, op), Some(Group(l, h, m, t)))
                   else SameCounts(l, h, Apply(h, op)))
  {
    hide IsGdt, GdtBlock, GdtOff, DescIn, FreeIn, A.GeoOk, A.GroupOf, Apply, MarkOp, SiblingOp, FlushOp, Target, A.Mark,
         A.Inv, A.Synced, Bits.Flags, S.Differ, ThreeOp, OneOp;
    var (op, m') := TxnOp(l, h, m, t);
    var v := Seen(l, h, m);
    DecodeIs(l, h, m);
    match t {
      case Sibling(x, w, g, gd, st) =>
        SiblingSeen(l, h, m, x, w, g, gd, st);
        SiblingIsThree(l, h, m, x, w, g, gd, st);
        S.FreshWriteOut(l.geo, v, g);
      case Flush(g, gd) =>
        FlushSeen(l, h, m, g, gd);
        FlushIsOne(l, m, g, gd);
        S.FreshFlush(l.geo, v, g);
      case _ =>
        if Target(l, h, m, t).Some? {
          TargetChanges(l, h, m, t);
          var b := Target(l, h, m, t).value;
          MarkSeen(l, h, m, b, t.Take?, t.st);
          MarkIsThree(l, h, m, b, t.Take?, t.st);
          S.FreshMark(l.geo, v, b, t.Take?);
        } else {
          NoBlocks(h);
        }
    }
    DecodeIs(l, Apply(h, op), m');
    SeenCounts(l, h, m, Apply(h, op), m');
  }

  /** Transactions that change a count. */
  predicate Alters(t: Txn) { t.Take? || t.Give? }

  /** The two comparisons of home blocks, by what the driver sees. */
  lemma SeenCounts(l: Layout, a: Image, m: Mem, c: Image, m': Mem)
    requires LayoutOk(l) && MetaOk(l, a) && MetaOk(l, c) && MemOk(l, m) && MemOk(l, m')
    ensures var v, w := Seen(l, a, m), Seen(l, c, m');
            && (SameCounts(l, a, c) <==> v.freeDisk == w.freeDisk && v.gdtDisk == w.gdtDisk)
            && forall b :: LagCounts(l, a, c, b) <==>
               v.freeDisk != w.freeDisk && S.Differ(l.geo, v.gdtDisk, w.gdtDisk, b)
  {
    hide IsGdt, GdtBlock, GdtOff, DescIn, FreeIn, A.GeoOk, Bits.Flags, S.Differ;
    var v, w := Seen(l, a, m), Seen(l, c, m');
    forall g | 0 <= g < |l.bitmaps| ensures v.gdtDisk[g] == DescOf(l, a, g) && w.gdtDisk[g] == DescOf(l, c, g) {
    }
    assert v.gdtDisk == Decode(l, a).gdt && w.gdtDisk == Decode(l, c).gdt;
  }

  /** Whether a transaction with blocks spoils the counts on disk while memory is behind, with group b if
      one is given: always, except for a descriptor block that does not hold that group. */
  predicate Spoils(l: Layout, t: Txn, b: Option<nat>)
    requires LayoutOk(l)
  {
    t.Flush? ==> b.Some? && S.SameBlock(l.geo, b.value, t.g)
  }

  /** A transaction while the global count in memory is another than on disk: the counts on disk are no
      longer exact after it, or nothing that was said of them changes. */
  lemma StaleTxn(l: Layout, h: Image, m: Mem, t: Txn, b: Option<nat>)
    requires LayoutOk(l) && MetaOk(l, h) && MemOk(l, m) && TxnOk(l, m, t) && Exact(l, h)
             && S.Stale(l.geo, Seen(l, h, m), b)
    ensures var (op, m') := TxnOp(l, h, m, t);
            && OpForm(l, t, op) && MetaOk(l, Apply(h, op)) && MemOk(l, m') && (op == [] ==> m' == m)
            && (op != [] && Spoils(l, t, b) ==> !Exact(l, Apply(h, op)))
            && (op != [] && !Spoils(l, t, b) ==>
                  Exact(l, Apply(h, op)) && SameCounts(l, h, Apply(h, op))
                    && S.Stale(l.geo, Seen(l, Apply(h, op), m'), b))
  {
    hide IsGdt, GdtBlock, GdtOff, DescIn, FreeIn, A.GeoOk, Apply, MarkOp, SiblingOp, FlushOp, Target, A.Mark, A.Inv,
         A.Synced, Bits.Flags, S.Differ, S.SameBlock;
    var (op, m') := TxnOp(l, h, m, t);
    var v := Seen(l, h, m);
    DecodeIs(l, h, m);
    match t {
      case Sibling(x, w, g, gd, st) =>
        SiblingSeen(l, h, m, x, w, g, gd, st);
        SiblingIsThree(l, h, m, x, w, g, gd, st);
        S.StaleWriteOut(l.geo, v, b, g);
      case Flush(g, gd) =>
        FlushSeen(l, h, m, g, gd);
        FlushIsOne(l, m, g, gd);
        S.StaleFlush(l.geo, v, b, g);
      case _ =>
        if Target(l, h, m, t).Some? {
          TargetChanges(l, h, m, t);
          MarkSeen(l, h, m, Target(l, h, m, t).value, t.Take?, t.st);
          MarkIsThree(l, h, m, Target(l, h, m, t).value, t.Take?, t.st);
          S.StaleMark(l.geo, v, b, Target(l, h, m, t).value, t.Take?);
        } else {
          NoBlocks(h);
        }
    }
    DecodeIs(l, Apply(h, op), m');
    SeenCounts(l, h, m, Apply(h, op), m');
  }
}
