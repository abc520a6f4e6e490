/** A small volume on which the counts go wrong, of blocks or of inodes: an allocation cut right after
    its commit point, a mount, and another allocation. */
module LateMount {
  import opened Words
  import opened Bytes
  import opened Bits
  import opened Journal
  import opened JournalRecovery
  import opened JournalRuns
  import opened VolumeBytes
  import opened CrashCounts
  import opened CrashRuns
  import A = Allocator

  const BLOCKS := 199
  const TAKEN := 19

  /** Superblock, descriptors and bitmap in blocks 1 to 3, the journal in the next sixteen; 199 blocks, or
      199 inodes. */
  function Where(q: Kind): Layout { Layout(q, A.Geo(1, 200, 199, 1024, 32), 200, [3], 2, 1, 0, false) }

  function Log(): Geometry { Geometry(1024, 1, 16, [(0, 4)]) }

  lemma Fits(q: Kind)
    ensures GeometryOk(Log()) && LayoutOk(Where(q)) && A.Groups(Where(q).geo) == 1
            && A.GroupCount(Where(q).geo, 0) == BLOCKS
    ensures GdtBlock(Where(q), 0) == 2 && GdtOff(Where(q), 0) == 0
  {
  }

  lemma NotLogged(b: nat)
    requires b <= 3
    ensures !InJournal(Log(), b)
  {
    forall j: nat | j < 16 ensures Phys(Log(), j) == 4 + j {
      PhysFirst(Log(), j);
    }
  }

  /** The bitmap with its first n bits set. */
  function Marked(n: nat): (r: Block)
    requires n <= BLOCKS
    ensures |r| == 1024
  {
    if n == 0 then Zeros(1024) else BitmapBytes(Marked(n - 1), n - 1, true)
  }

  lemma {:induction false} MarkedFlags(n: nat)
    requires n <= BLOCKS
    ensures Bits.Flags(Marked(n), BLOCKS) == seq(BLOCKS, i => i < n)
  {
    hide BitmapBytes;
    if n == 0 {
      ZeroFlags();
    } else {
      MarkedFlags(n - 1);
      BitmapBytesIs(Marked(n - 1), n - 1, BLOCKS, true);
    }
  }

  lemma ZeroFlags()
    ensures Bits.Flags(Zeros(1024), BLOCKS) == seq(BLOCKS, i => false)
  {
    forall i | 0 <= i < BLOCKS ensures !Bits.Flag(Zeros(1024), i) {
      ZeroBits(i % 8);
    }
  }

  lemma {:induction false} ClearBelow(n: nat, m: nat)
    requires m <= n
    ensures Clear(seq(n, i => i < m)) == n - m
    decreases n
  {
    if n > 0 {
      assert seq(n, i => i < m)[..n - 1] == seq(n - 1, i => i < m);
      if m < n {
        ClearBelow(n - 1, m);
      } else {
        assert seq(n - 1, i => i < m) == seq(n - 1, i => i < m - 1);
        ClearBelow(n - 1, m - 1);
      }
    }
  }

  /** The home blocks: 180 of 199 are free. */
  function Start(q: Kind): Image {
    map[1 := Set32(Zeros(1024), SuperCount(q), BLOCKS - TAKEN), 2 := Set16(Zeros(1024), CountLo(q), BLOCKS - TAKEN),
        3 := Marked(TAKEN)]
  }

  lemma StartMeta(q: Kind)
    ensures LayoutOk(Where(q)) && MetaOk(Where(q), Start(q))
  {
    hide Marked, Set16, Set32, Zeros, LayoutOk, GdtBlock, A.Groups;
    Fits(q);
    var h := Start(q);
    assert |h[1]| == |h[2]| == |h[3]| == 1024;
  }

  lemma StartDesc(q: Kind)
    ensures LayoutOk(Where(q)) && MetaOk(Where(q), Start(q)) && |Where(q).bitmaps| == 1
    ensures DescOf(Where(q), Start(q), 0) == A.Desc(BLOCKS - TAKEN, 0, false)
    ensures FreeIn(Where(q), Start(q)[1]) == BLOCKS - TAKEN
    ensures BitsOf(Where(q), Start(q), 0) == seq(BLOCKS, i => i < TAKEN)
            && Clear(BitsOf(Where(q), Start(q), 0)) == BLOCKS - TAKEN
  {
    hide Marked, Le16, Le32, Set16, Set32, LayoutOk, MetaOk, GdtBlock, GdtOff, A.Groups, A.GroupCount, Clear,
         Bits.Flags, Bit;
    Fits(q);
    StartMeta(q);
    var z := Zeros(1024);
    Set16Reads(z, CountLo(q), BLOCKS - TAKEN, CountLo(q));
    Set16Reads(z, CountLo(q), BLOCKS - TAKEN, 0x12);
    Set32Reads(z, SuperCount(q), BLOCKS - TAKEN, SuperCount(q));
    ZeroWord(z, 0x12);
    ZeroBits(UninitBit(q));
    MarkedFlags(TAKEN);
    ClearBelow(BLOCKS, TAKEN);
  }

  lemma ZeroWord(z: Block, o: nat)
    requires o + 2 <= |z| && z[o] == 0 && z[o + 1] == 0
    ensures Le16(z, o) == 0
  {
  }

  lemma StartExact(q: Kind)
    ensures LayoutOk(Where(q)) && MetaOk(Where(q), Start(q)) && Exact(Where(q), Start(q))
  {
    hide Start, DescOf, BitsOf, FreeIn, Clear, MetaOk, LayoutOk, A.Groups, A.GroupCount, A.Count;
    Fits(q);
    StartMeta(q);
    StartDesc(q);
    var v := Decode(Where(q), Start(q));
    A.CountIs(Where(q).geo, v.gdt[0]);
    assert v.gdt[..0] == [];
    assert A.Sum(Where(q).geo, v.gdt) == A.Sum(Where(q).geo, v.gdt[..0]) + A.Count(Where(q).geo, v.gdt[0]);
    DecodeShape(Where(q), Start(q));
  }

  // ----- no block looks like the journal's own

  /** The magic number starts with an even byte other than 0, in either byte order. */
  lemma NotMagic(v: Block)
    requires |v| >= 4 && (v[0] == 0 || v[0] % 2 == 1)
    ensures !Escaped(v) && Be32(v, 0) != MAGIC
  {
    FirstByte(v);
  }

  lemma FirstByte(v: Block)
    requires |v| >= 4
    ensures (Escaped(v) ==> v[0] == 0x98) && (Be32(v, 0) == MAGIC ==> v[0] == 0xC0)
  {
  }

  lemma SbFirst(l: Layout, sb: Block, free: nat, st: Stamp)
    requires |sb| == SUPER
    ensures SbBytes(l, sb, free, st)[0] == sb[0]
  {
    hide Set32;
    var (blocks, inodes) := if l.kind == Blocks then (free, st.other) else (st.other, free);
    var a := Set32(sb, 0x0C, blocks);
    var s1 := Set32(a, 0x158, 0);
    var c := Set32(s1, 0x10, inodes);
    var s2 := Set32(c, 0x04, l.blocks);
    var e := Set32(s2, 0x150, 0);
    var s3 := Set32(e, 0x44, st.time);
    SetFirst(sb, 0x0C, blocks);
    SetFirst(a, 0x158, 0);
    SetFirst(s1, 0x10, inodes);
    SetFirst(c, 0x04, l.blocks);
    SetFirst(s2, 0x150, 0);
    SetFirst(e, 0x44, st.time);
    SetFirst(s3, 0x3FC, st.super);
  }

  lemma DescFirst(l: Layout, b: Block, n: nat, st: Stamp)
    requires DescSized(l) && l.geo.descSize <= |b|
    ensures DescBytes(l, b, 0, n, st)[0] == b[0]
  {
    hide SetPair, Set16;
    var lo, hi := if l.kind == Blocks then 0x18 else 0x1A, if l.kind == Blocks then 0x38 else 0x3A;
    PairFirst(l, b, lo, hi, st.bm);
    var summed := if l.csum then SetPair(l, b, 0, lo, hi, st.bm) else b;
    PairFirst(l, summed, CountLo(l.kind), CountHi(l.kind), n);
    var counted := Counted(l, b, 0, n, st);
    PairFirst(l, counted, 0x1C, 0x32, st.unused);
    if st.dirs.Some? {
      PairFirst(l, SetPair(l, counted, 0, 0x1C, 0x32, st.unused), 0x10, 0x30, st.dirs.value);
    }
    SetFirst16(if l.kind == Inodes then InodeFields(l, counted, 0, st) else counted, 0x1E, st.desc);
  }

  lemma PairFirst(l: Layout, b: Block, lo: nat, hi: nat, v: nat)
    requires DescSized(l) && l.geo.descSize <= |b| && 0 < lo && lo + 2 <= 32 <= hi && hi + 2 <= 64
    ensures SetPair(l, b, 0, lo, hi, v)[0] == b[0]
  {
  }

  lemma SetFirst(b: Block, o: nat, v: nat)
    requires 0 < o && o + 4 <= |b|
    ensures Set32(b, o, v)[0] == b[0]
  {
  }

  /** Bit 0 of the bitmap is set, and descriptors and superblock in memory start with a zero byte. */
  predicate Tame(q: Kind, h: Image, m: Mem)
    requires LayoutOk(Where(q)) && MetaOk(Where(q), h) && MemOk(Where(q), m) && GdtBlock(Where(q), 0) == 2
  {
    h[3][0] % 2 == 1 && m.gdt[2][0] == 0 && m.sb[0] == 0
  }

  lemma OddStays(bm: Block, i: nat)
    requires i < 8 * |bm| && bm != [] && bm[0] % 2 == 1
    ensures BitmapBytes(bm, i, true)[0] % 2 == 1
  {
    if i / 8 == 0 {
      assert Bit(bm[0], 0);
      assert Bit(WithBit(bm[0], i % 8), 0);
    }
  }

  /** An allocation that finds a block issues a transaction the journal carries. */
  lemma TakeOk(q: Kind, h: Image, m: Mem, st: Stamp)
    requires LayoutOk(Where(q)) && MetaOk(Where(q), h) && MemOk(Where(q), m) && GeometryOk(Log())
             && GdtBlock(Where(q), 0) == 2
    requires Tame(q, h, m) && Target(Where(q), h, m, Take(st)).Some?
    ensures var op := TxnOp(Where(q), h, m, Take(st)).0;
            |op| == 3 && OpOk(Log(), op) && MetaOk(Where(q), Apply(h, op)) && Tame(q, Apply(h, op), m)
  {
    hide Target, BitmapBytes, SbBytes, Apply, A.Count, A.Bump, A.GroupOf, A.BitOf, LayoutOk, MetaOk, MemOk, GdtBlock,
         GdtOff, Escaped, Be32;
    var l := Where(q);
    Fits(q);
    var b := Target(l, h, m, Take(st)).value;
    A.BlockPlace(l.geo, b);
    TakeBlocks(q, h, m, st, b);
    var op := TxnOp(l, h, m, Take(st)).0;
    NotMagic(op[0].1);
    NotMagic(op[1].1);
    NotMagic(op[2].1);
    NotLogged(1);
    NotLogged(2);
    NotLogged(3);
    AppliedThree(h, op);
    MarkIsThree(l, h, m, b, true, st);
    ThreePlain(l, op);
    AllOk(l, h, op);
  }

  lemma TakeBlocks(q: Kind, h: Image, m: Mem, st: Stamp, b: nat)
    requires LayoutOk(Where(q)) && MetaOk(Where(q), h) && MemOk(Where(q), m) && GdtBlock(Where(q), 0) == 2
             && Tame(q, h, m)
    requires 1 <= b < 200
    ensures var op := MarkOp(Where(q), h, m, b, true, st).0;
            && op[0].0 == 3 && op[1].0 == 2 && op[2].0 == 1
            && |op[0].1| == |op[1].1| == |op[2].1| == 1024
            && op[0].1[0] % 2 == 1 && op[1].1[0] == 0 && op[2].1[0] == 0
  {
    hide BitmapBytes, SbBytes, DescBytes, A.Count, A.Bump, LayoutOk, MetaOk, MemOk, GdtBlock, GdtOff, DescIn;
    var l := Where(q);
    Fits(q);
    MetaSizes(q, h, m);
    A.BlockPlace(l.geo, b);
    assert A.GroupOf(l.geo, b) == 0;
    OddStays(h[3], A.BitOf(l.geo, b));
    SbFirst(l, m.sb, A.Bump(m.free, true), st);
    DescFirst(l, m.gdt[2], A.Bump(A.Count(l.geo, MemDesc(l, m, 0)), true), st);
  }

  lemma MetaSizes(q: Kind, h: Image, m: Mem)
    requires LayoutOk(Where(q)) && MetaOk(Where(q), h) && MemOk(Where(q), m) && GdtBlock(Where(q), 0) == 2
    ensures 1 in h && 2 in h && 3 in h && |h[1]| == |h[2]| == |h[3]| == 1024
    ensures 2 in m.gdt && |m.gdt[2]| == 1024 && |m.sb| == SUPER
  {
    Fits(q);
    assert Where(q).bitmaps[0] == 3;
    assert Sized(h, Where(q).bitmaps[0], 1024) && Sized(h, GdtBlock(Where(q), 0), 1024);
  }

  // ----- the run

  function Begin(q: Kind): Sys
    requires LayoutOk(Where(q)) && MetaOk(Where(q), Start(q))
  {
    Sys(Up(Device(Start(q), 0, 1), [], 1), Load(Where(q), Start(q)))
  }

  lemma BeginHolds(q: Kind)
    ensures LayoutOk(Where(q)) && GeometryOk(Log()) && MetaOk(Where(q), Start(q))
            && InPhase(Log(), Where(q), Begin(q), Start(q), Synced)
  {
    hide Start, MetaOk, LayoutOk, Exact, Load, MemOk, SameCounts, Seen;
    Fits(q);
    StartExact(q);
    QuietStart(q);
    SameSelf(Where(q), Start(q));
    Loaded(Where(q), Start(q), Start(q), None);
  }

  lemma QuietStart(q: Kind)
    ensures Quiet(Log(), Device(Start(q), 0, 1), 1, Start(q))
  {
    hide Marked, Set16, Set32;
    var d := Device(Start(q), 0, 1);
    forall b | b in Start(q) ensures !InJournal(Log(), b) {
      NotLogged(b);
    }
    assert JournalRecovery.Home(Log(), d) == Start(q);
    forall j: nat | j < 16 && Phys(Log(), j) != 0 && Phys(Log(), j) in d.blocks ensures false {
      PhysFirst(Log(), j);
    }
  }

  lemma StartTame(q: Kind)
    ensures LayoutOk(Where(q)) && MetaOk(Where(q), Start(q)) && GdtBlock(Where(q), 0) == 2
            && Tame(q, Start(q), Load(Where(q), Start(q)))
  {
    hide LayoutOk, MetaOk, GdtBlock, Bits.Flags, Set32, Set16, Marked, MemOk;
    Fits(q);
    StartMeta(q);
    StartDesc(q);
    var z := Zeros(1024);
    SetFirst(z, SuperCount(q), BLOCKS - TAKEN);
    SetFirst16(z, CountLo(q), BLOCKS - TAKEN);
    FirstFlag(Start(q)[3]);
  }

  lemma SetFirst16(b: Block, o: nat, v: nat)
    requires 0 < o && o + 2 <= |b|
    ensures Set16(b, o, v)[0] == b[0]
  {
  }

  lemma FirstFlag(bm: Block)
    requires |bm| == 1024
    ensures Bits.Flags(bm, BLOCKS)[0] <==> bm[0] % 2 == 1
  {
  }

  /** A block is found whenever the group's count in memory is not 0 and a bit is clear. */
  lemma Finds(q: Kind, h: Image, m: Mem, st: Stamp)
    requires LayoutOk(Where(q)) && MetaOk(Where(q), h) && MemOk(Where(q), m)
    requires MemDesc(Where(q), m, 0) == A.Desc(BLOCKS - TAKEN, 0, false) && Clear(BitsOf(Where(q), h, 0)) > 0
    ensures Target(Where(q), h, m, Take(st)).Some?
  {
    hide LayoutOk, MetaOk, MemOk, DescIn, FreeIn, GdtBlock, GdtOff, Bits.Flags, Clear;
    Fits(q);
    SeenShape(Where(q), h, m);
    var v := Seen(Where(q), h, m);
    A.CountIs(Where(q).geo, v.gdt[0]);
  }

  const DIRECT := Config(true, false)

  /** The first allocation is cut after its commit point, before any home write. */
  lemma CutFirst(q: Kind, st: Stamp) returns (down: Sys, h1: Image, b: Option<nat>)
    ensures LayoutOk(Where(q)) && GeometryOk(Log()) && MetaOk(Where(q), Start(q))
            && InPhase(Log(), Where(q), Begin(q), Start(q), Synced)
    ensures ActOk(DIRECT, Log(), Where(q), Begin(q), Cut(Take(st), 6)) && Ready(Log(), Where(q), Begin(q))
    ensures OpOf(Log(), Where(q), Begin(q), Take(st)).0 != []
    ensures down == Next(DIRECT, Log(), Where(q), Begin(q), Cut(Take(st), 6)) && HomeOf(Log(), down) == Start(q)
    ensures InPhase(Log(), Where(q), down, h1, Lagging(b)) && SeqOf(down.st) <= 2 && SeqOf(Begin(q).st) == 1
    ensures MetaOk(Where(q), h1) && |Where(q).bitmaps| == 1 && Clear(BitsOf(Where(q), h1, 0)) > 0
    ensures GdtBlock(Where(q), 0) == 2 && Tame(q, h1, Load(Where(q), Start(q)))
  {
    hide Start, MetaOk, LayoutOk, Exact, MemOk, Seen, TxnOp, Apply, Quiet, Step, InPhase, Pending, Begin, Tame, OpOk,
         CutAt, JournalRecovery.Home, Load, Clear, BitsOf, GdtBlock;
    BeginHolds(q);
    var g, l, sys, h := Log(), Where(q), Begin(q), Start(q);
    StartTame(q);
    StartDesc(q);
    BeginIs(q);
    PhaseInv(g, l, sys, h, Synced);
    LoadDesc(q, h);
    Finds(q, h, sys.mem, st);
    TakeOk(q, h, sys.mem, st);
    StillClear(q, h, sys.mem, st);
    var op := TxnOp(l, h, sys.mem, Take(st)).0;
    h1 := Apply(h, op);
    CutHappens(DIRECT, g, sys.st, op);
    ActStep(DIRECT, g, l, sys, h, Synced, Cut(Take(st), 6));
    BeginQuiet(g, l, sys, h);
    CutDown(DIRECT, g, sys.st, h, op, 6);
    CutPlaces(h, op, 6);
    NoPrefix(h, op);
    down := Next(DIRECT, g, l, sys, Cut(Take(st), 6));
    b := Some(Group(l, h, sys.mem, Take(st)));
  }

  lemma BeginQuiet(g: Geometry, l: Layout, sys: Sys, h: Image)
    requires GeometryOk(g) && LayoutOk(l) && InPhase(g, l, sys, h, Synced)
    ensures sys.st.Up? && sys.st.cache == [] && Quiet(g, sys.st.dev, sys.st.seq_, h)
  {
    hide Quiet, Exact, MetaOk, LayoutOk, MemOk, Seen;
  }

  lemma PhaseUp(g: Geometry, l: Layout, sys: Sys, h: Image, p: Phase)
    requires GeometryOk(g) && LayoutOk(l) && InPhase(g, l, sys, h, p)
    ensures sys.st.Up? <==> p == Synced || p.Stale?
  {
    hide Quiet, Exact, MetaOk, LayoutOk, MemOk, Seen, SameCounts, LagCounts;
  }

  /** The mount loads the old counts and then replays. */
  lemma ThenMount(q: Kind, down: Sys, h: Image, h1: Image, b: Option<nat>) returns (up: Sys)
    requires LayoutOk(Where(q)) && GeometryOk(Log()) && InPhase(Log(), Where(q), down, h1, Lagging(b))
             && SeqOf(down.st) <= 2
    requires HomeOf(Log(), down) == h && MetaOk(Where(q), h)
    ensures ActOk(DIRECT, Log(), Where(q), down, Other(Mount))
            && up == Next(DIRECT, Log(), Where(q), down, Other(Mount))
    ensures InPhase(Log(), Where(q), up, h1, Stale(b)) && up.mem == Load(Where(q), h) && SeqOf(up.st) <= 3
  {
    hide MetaOk, LayoutOk, Step, InPhase, HomeOf, Load;
    PhaseUp(Log(), Where(q), down, h1, Lagging(b));
    MountHappens(DIRECT, Log(), down.st);
    ActStep(DIRECT, Log(), Where(q), down, h1, Lagging(b), Other(Mount));
    up := Next(DIRECT, Log(), Where(q), down, Other(Mount));
  }

  /** The next allocation finds a block and issues a transaction. */
  lemma ThenTake(q: Kind, up: Sys, h1: Image, b: Option<nat>, st: Stamp)
    requires LayoutOk(Where(q)) && GeometryOk(Log()) && InPhase(Log(), Where(q), up, h1, Stale(b)) && SeqOf(up.st) <= 3
    requires MetaOk(Where(q), Start(q)) && up.mem == Load(Where(q), Start(q)) && MetaOk(Where(q), h1)
             && |Where(q).bitmaps| == 1
    requires GdtBlock(Where(q), 0) == 2 && Clear(BitsOf(Where(q), h1, 0)) > 0 && Tame(q, h1, up.mem)
    ensures ActOk(DIRECT, Log(), Where(q), up, Do(Take(st))) && Ready(Log(), Where(q), up)
            && OpOf(Log(), Where(q), up, Take(st)).0 != []
  {
    hide Start, MetaOk, LayoutOk, MemOk, TxnOp, Step, InPhase, Tame, OpOk, Load, Clear, BitsOf, GdtBlock, Apply;
    PhaseUp(Log(), Where(q), up, h1, Stale(b));
    PhaseInv(Log(), Where(q), up, h1, Stale(b));
    StartDesc(q);
    LoadDesc(q, Start(q));
    Finds(q, h1, up.mem, st);
    TakeOk(q, h1, up.mem, st);
    StoreHappens(DIRECT, Log(), up.st, TxnOp(Where(q), h1, up.mem, Take(st)).0);
  }

  /** The cut transaction, the mount and the next transaction can all happen, and after them the counts
      on disk are wrong: what was said of every run does occur. */
  lemma CountsGoWrong(q: Kind, st: Stamp)
    ensures LayoutOk(Where(q)) && GeometryOk(Log()) && MetaOk(Where(q), Start(q))
            && InPhase(Log(), Where(q), Begin(q), Start(q), Synced)
    ensures !AlwaysExact(DIRECT, Log(), Where(q), Begin(q), Start(q), [Cut(Take(st), 6), Other(Mount), Do(Take(st))])
  {
    hide Start, MetaOk, LayoutOk, MemOk, TxnOp, InPhase, Begin, Tame, Load, Clear, BitsOf, GdtBlock, AlwaysExact, ActOk,
         Ready, OpOf, Next, HomeOf;
    var down, h1, b := CutFirst(q, st);
    var up := ThenMount(q, down, Start(q), h1, b);
    ThenTake(q, up, h1, b, st);
    WindowBreaks(DIRECT, Log(), Where(q), Begin(q), Start(q), Take(st), 6, Take(st));
  }

  lemma BeginIs(q: Kind)
    requires LayoutOk(Where(q)) && MetaOk(Where(q), Start(q))
    ensures Begin(q).mem == Load(Where(q), Start(q)) && Begin(q).st.Up? && Begin(q).st.cache == []
            && Begin(q).st.seq_ == 1
    ensures Begin(q).st.dev == Device(Start(q), 0, 1)
  {
  }

  lemma LoadDesc(q: Kind, h: Image)
    requires LayoutOk(Where(q)) && MetaOk(Where(q), h)
    ensures MemOk(Where(q), Load(Where(q), h)) && |Where(q).bitmaps| == 1
            && MemDesc(Where(q), Load(Where(q), h), 0) == DescOf(Where(q), h, 0)
  {
    hide DescIn, GdtBlock, GdtOff, FreeIn;
  }

  lemma CutHappens(cfg: Config, g: Geometry, st: State, op: Op)
    requires GeometryOk(g) && cfg.journal && st.Up? && st.seq_ + 1 < U32 && OpOk(g, op) && |op| == 3
    ensures Step(cfg, g, st, StoreCut(op, 6)).Some?
  {
    hide Issue, CommitWrites, Escaped, Be32;
    CommitPrefix(g, op, st.seq_, 0);
  }

  lemma StoreHappens(cfg: Config, g: Geometry, st: State, op: Op)
    requires GeometryOk(g) && st.Up? && st.seq_ < U32 && OpOk(g, op)
    ensures Step(cfg, g, st, Store(op)).Some?
  {
    hide Issue, StoreWrites, Escaped, Be32;
  }

  lemma MountHappens(cfg: Config, g: Geometry, st: State)
    requires GeometryOk(g) && st.Down?
    ensures Step(cfg, g, st, Mount).Some?
  {
    hide Issue, StartWrites;
  }

  lemma NoPrefix(h: Image, op: Op)
    ensures Apply(h, op[..0]) == h
  {
    assert op[..0] == [];
  }

  /** After one allocation there is still a clear bit. */
  lemma StillClear(q: Kind, h: Image, m: Mem, st: Stamp)
    requires LayoutOk(Where(q)) && MetaOk(Where(q), h) && MemOk(Where(q), m) && |Where(q).bitmaps| == 1
    requires Clear(BitsOf(Where(q), h, 0)) == BLOCKS - TAKEN && Target(Where(q), h, m, Take(st)).Some?
    ensures var h1 := Apply(h, TxnOp(Where(q), h, m, Take(st)).0);
            MetaOk(Where(q), h1) && Clear(BitsOf(Where(q), h1, 0)) > 0
  {
    hide MetaOk, LayoutOk, MemOk, MarkOp, Target, A.Count, A.SetCount, A.Bump, A.Synced, DescIn, FreeIn, GdtBlock,
         GdtOff, Bits.Flags, Apply, Clear;
    var l := Where(q);
    var b := Target(l, h, m, Take(st)).value;
    MarkSeen(l, h, m, b, true, st);
    TargetChanges(l, h, m, Take(st));
    var f := BitsOf(l, h, 0);
    A.BlockPlace(l.geo, b);
    Fits(q);
    var i := A.BitOf(l.geo, b);
    ClearSet(f, i);
  }
}
