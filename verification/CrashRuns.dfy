/** Runs of the whole system: transactions from memory, other writes, crashes at any device write,
    mounts that load memory before they replay, and crashes inside mounts. The counts on disk, of blocks
    or of inodes, stay exact if and only if no transaction that spoils them reaches its commit point
    while memory lags behind the disk, and when it lags is read off the cuts alone
    (kernel/fs/ext4.c:236-322, 431-436, 495-764, 1704-1707, 2350-2453, 2484-2535). */
module CrashRuns {
  import opened Words
  import opened Bytes
  import opened Journal
  import opened JournalRecovery
  import opened JournalRuns
  import opened VolumeBytes
  import opened CrashCounts
  import S = StaleCounts

  /** mem counts while the system is up. */
  datatype Sys = Sys(st: State, mem: Mem)

  /** Cut stops a transaction after k device writes. */
  datatype Act = Do(t: Txn) | Cut(t: Txn, k: nat) | Other(e: Event)

  ghost function HomeOf(g: Geometry, sys: Sys): Image { JournalRecovery.Home(g, sys.st.dev) }

  /** Up, with blocks and memory of the right shape. */
  ghost predicate Ready(g: Geometry, l: Layout, sys: Sys)
    requires LayoutOk(l)
  {
    sys.st.Up? && MetaOk(l, HomeOf(g, sys)) && MemOk(l, sys.mem)
  }

  ghost function OpOf(g: Geometry, l: Layout, sys: Sys, t: Txn): (Op, Mem)
    requires LayoutOk(l) && Ready(g, l, sys)
  {
    TxnOp(l, HomeOf(g, sys), sys.mem, t)
  }

  ghost function EventOf(g: Geometry, l: Layout, sys: Sys, a: Act): Event
    requires LayoutOk(l) && (a.Other? || Ready(g, l, sys))
  {
    match a
    case Do(t) => Store(OpOf(g, l, sys, t).0)
    case Cut(t, k) => StoreCut(OpOf(g, l, sys, t).0, k)
    case Other(e) => e
  }

  /** Other writes stay off the allocator's blocks. */
  predicate OffMeta(l: Layout, e: Event)
    requires LayoutOk(l)
  {
    match e
    case Store(op) => NoMeta(l, op)
    case StoreCut(op, _) => NoMeta(l, op)
    case Data(b, _) => !IsMeta(l, b)
    case _ => true
  }

  /** The act can happen now. */
  ghost predicate ActOk(cfg: Config, g: Geometry, l: Layout, sys: Sys, a: Act)
    requires GeometryOk(g) && LayoutOk(l)
  {
    && (match a
        case Do(t) => Ready(g, l, sys) && TxnOk(l, sys.mem, t)
        case Cut(t, _) => Ready(g, l, sys) && TxnOk(l, sys.mem, t)
        case Other(e) => OffMeta(l, e) && (e.Mount? ==> MetaOk(l, HomeOf(g, sys))))
    && EventOk(g, EventOf(g, l, sys, a)) && Step(cfg, g, sys.st, EventOf(g, l, sys, a)).Some?
  }

  /** A mount loads memory from the home blocks as they are before the replay. */
  ghost function Next(cfg: Config, g: Geometry, l: Layout, sys: Sys, a: Act): Sys
    requires GeometryOk(g) && LayoutOk(l) && ActOk(cfg, g, l, sys, a)
  {
    var st := Step(cfg, g, sys.st, EventOf(g, l, sys, a)).value;
    match a
    case Do(t) => Sys(st, OpOf(g, l, sys, t).1)
    case Cut(_, _) => Sys(st, sys.mem)
    case Other(e) => Sys(st, if e.Mount? then Load(l, HomeOf(g, sys)) else sys.mem)
  }

  /** The number of blocks of a transaction, and the group whose count it changes. */
  datatype Issued = Issued(n: nat, group: nat)

  ghost function IssuedBy(g: Geometry, l: Layout, sys: Sys, a: Act): Issued
    requires LayoutOk(l) && (a.Other? || Ready(g, l, sys))
  {
    if a.Other? then Issued(0, 0) else Issued(|OpOf(g, l, sys, a.t).0|, Group(l, HomeOf(g, sys), sys.mem, a.t))
  }

  // ----- what the cuts say

  /** Up with memory as the disk, or behind it; down with home blocks as after recovery, or behind. What
      is behind is the global count, and the count of group b if one is given. */
  datatype Phase = Synced | Stale(b: Option<nat>) | Off | Lagging(b: Option<nat>) | Broken

  /** A transaction that changes a count, cut after its commit point but before its last home write, makes
      home blocks lag; a mount then leaves memory behind, and the next transaction that reaches its commit
      point and writes what is behind is the fault. */
  function NextPhase(l: Layout, p: Phase, a: Act, i: Issued): Phase
    requires LayoutOk(l)
  {
    match a
    case Do(t) => if i.n > 0 && p.Stale? && Spoils(l, t, p.b) then Broken else p
    case Cut(t, k) =>
      if i.n == 0 || k < i.n + 3 then Off
      else if p.Stale? && Spoils(l, t, p.b) then Broken
      else if Alters(t) && k < 2 * i.n + 3 then Lagging(if k < i.n + 5 then Some(i.group) else None)
      else Off
    case Other(StoreCut(_, _)) => Off
    case Other(Crash) => Off
    case Other(Mount) => if p.Lagging? then Stale(p.b) else Synced
    case Other(MountCut(k)) =>
      if !p.Lagging? || k < 2 then p else if k == 2 then Lagging(None) else Off
    case Other(_) => p
  }

  /** What each phase says about device, memory and the blocks h that recovery leads to. */
  ghost predicate InPhase(g: Geometry, l: Layout, sys: Sys, h: Image, p: Phase)
    requires GeometryOk(g) && LayoutOk(l)
  {
    && MetaOk(l, h) && Exact(l, h)
    && (match sys.st
        case Up(dev, cache, s) =>
          && cache == [] && Quiet(g, dev, s, h) && MemOk(l, sys.mem)
          && ((p == Synced && S.Fresh(Seen(l, h, sys.mem))) || (p.Stale? && S.Stale(l.geo, Seen(l, h, sys.mem), p.b)))
        case Down(dev) =>
          && MetaOk(l, HomeOf(g, sys)) && (Quiet(g, dev, dev.seq_, h) || Waiting(g, l, dev, h))
          && ((p == Off && SameCounts(l, HomeOf(g, sys), h)) || (p.Lagging? && LagCounts(l, HomeOf(g, sys), h, p.b))))
  }

  ghost predicate Waiting(g: Geometry, l: Layout, dev: Device, h: Image)
    requires GeometryOk(g) && LayoutOk(l)
  {
    exists op :: PendingPlain(g, l, dev, h, op)
  }

  ghost predicate PendingPlain(g: Geometry, l: Layout, dev: Device, h: Image, op: Op)
    requires GeometryOk(g) && LayoutOk(l)
  {
    Pending(g, dev, h, op) && Plain(l, op)
  }

  lemma PhaseInv(g: Geometry, l: Layout, sys: Sys, h: Image, p: Phase)
    requires GeometryOk(g) && LayoutOk(l) && InPhase(g, l, sys, h, p)
    ensures JournalRuns.Inv(g, sys.st, h)
    ensures sys.st.Up? ==> HomeOf(g, sys) == h && Ready(g, l, sys)
  {
    hide Quiet, Pending, Exact, MetaOk, S.Fresh, S.Stale, SameCounts, LagCounts;
    if sys.st.Up? {
      QuietHome(g, sys.st.dev, sys.st.seq_, h);
    }
  }

  lemma QuietHome(g: Geometry, dev: Device, s: nat, h: Image)
    requires Quiet(g, dev, s, h)
    ensures JournalRecovery.Home(g, dev) == h
  {
  }

  // ----- the steps

  lemma DoStep(cfg: Config, g: Geometry, l: Layout, sys: Sys, h: Image, p: Phase, t: Txn)
    requires GeometryOk(g) && LayoutOk(l) && cfg.journal && !cfg.cached && SeqOf(sys.st) + 1 < U32
    requires InPhase(g, l, sys, h, p) && ActOk(cfg, g, l, sys, Do(t))
    ensures var q, h' := NextPhase(l, p, Do(t), IssuedBy(g, l, sys, Do(t))), AtomicStep(h, EventOf(g, l, sys, Do(t)));
            && MetaOk(l, h') && (q == Broken <==> !Exact(l, h'))
            && (q != Broken ==> InPhase(g, l, Next(cfg, g, l, sys, Do(t)), h', q))
  {
    hide Quiet, Pending, Exact, MetaOk, LayoutOk, S.Fresh, S.Stale, SameCounts, LagCounts, TxnOp, TxnOk, OpForm, Spoils,
         Group, Step, Apply, EventOk, HomeOf, Waiting;
    PhaseInv(g, l, sys, h, p);
    var op := OpOf(g, l, sys, t).0;
    StepKeepsInv(cfg, g, sys.st, h, Store(op));
    StoreStaysUp(cfg, g, sys.st, op);
    if p == Synced {
      FreshTxn(l, h, sys.mem, t);
    } else {
      StaleTxn(l, h, sys.mem, t, p.b);
      if op == [] {
        NoBlocks(h);
      }
    }
  }

  lemma StoreStaysUp(cfg: Config, g: Geometry, st: State, op: Op)
    requires GeometryOk(g) && Step(cfg, g, st, Store(op)).Some?
    ensures Step(cfg, g, st, Store(op)).value.Up?
  {
  }

  // ----- cut transactions

  /** The home blocks on the device when a commit was cut after k writes. */
  function CutAt(h: Image, op: Op, k: nat): Image {
    if k <= |op| + 2 then h else Apply(h, op[..Min(k - |op| - 3, |op|)])
  }

  lemma CutHome(g: Geometry, d: Device, s: nat, h: Image, op: Op, k: nat)
    requires GeometryOk(g) && OpOk(g, op) && s + 1 < U32 && Quiet(g, d, s, h) && k <= |CommitWrites(g, op, s)|
    ensures JournalRecovery.Home(g, PutAll(d, CommitWrites(g, op, s)[..k])) == CutAt(h, op, k)
  {
    hide PutAll, CommitWrites, LogWrites, HomeWrites, Apply, FutureFree, JournalRecovery.Holds;
    var n := |op|;
    CommitPrefix(g, op, s, 0);
    CommitPrefix(g, op, s, k);
    if k <= n + 2 {
      LogPrefix(g, d, op, s, h, k);
    } else if k <= 2 * n + 3 {
      HomePhase(g, d, op, s, h, k - n - 3);
    } else {
      CommitCut(g, d, op, s, h, k);
      assert op[..n] == op;
    }
  }

  /** The device after a transaction was cut: quiet or waiting for replay, with these home blocks. */
  lemma CutDown(cfg: Config, g: Geometry, st: State, h: Image, op: Op, k: nat)
    requires GeometryOk(g) && cfg.journal && !cfg.cached && st.Up? && SeqOf(st) + 1 < U32
    requires st.cache == [] && Quiet(g, st.dev, st.seq_, h) && OpOk(g, op) && Step(cfg, g, st, StoreCut(op, k)).Some?
    ensures var st', h' := Step(cfg, g, st, StoreCut(op, k)).value, AtomicStep(h, StoreCut(op, k));
            && st'.Down? && JournalRecovery.Home(g, st'.dev) == CutAt(h, op, k) && k <= 2 * |op| + 4
            && (Quiet(g, st'.dev, st'.dev.seq_, h') || Pending(g, st'.dev, h', op))
  {
    hide PutAll, CommitWrites, LogWrites, HomeWrites, Apply, FutureFree, JournalRecovery.Holds, JournalRecovery.Home,
         Issue;
    var s := st.seq_;
    IssueDirect(cfg, st.dev, st.cache, StoreWrites(cfg, g, op, s)[..k]);
    CommitCut(g, st.dev, op, s, h, k);
    CutHome(g, st.dev, s, h, op, k);
  }

  lemma NothingCut(cfg: Config, g: Geometry, st: State, k: nat)
    requires GeometryOk(g) && st.Up? && Step(cfg, g, st, StoreCut([], k)).Some?
    ensures Step(cfg, g, st, StoreCut([], k)) == Some(Down(st.dev)) && k == 0
  {
    assert StoreWrites(cfg, g, [], st.seq_)[..0] == [];
  }

  /** The three places a cut can fall. */
  lemma CutPlaces(h: Image, op: Op, k: nat)
    requires k <= 2 * |op| + 4
    ensures k < |op| + 3 ==> CutAt(h, op, k) == h && AtomicStep(h, StoreCut(op, k)) == h
    ensures |op| + 3 <= k ==> AtomicStep(h, StoreCut(op, k)) == Apply(h, op)
    ensures |op| + 3 <= k < 2 * |op| + 3 ==> CutAt(h, op, k) == Apply(h, op[..k - |op| - 3])
    ensures 2 * |op| + 3 <= k ==> CutAt(h, op, k) == Apply(h, op)
  {
    hide Apply;
    assert op[..|op|] == op;
  }

  lemma SameSelf(l: Layout, h: Image)
    requires LayoutOk(l) && MetaOk(l, h)
    ensures SameCounts(l, h, h)
  {
  }

  /** A transaction with blocks, cut. */
  lemma CutStep(cfg: Config, g: Geometry, l: Layout, sys: Sys, h: Image, p: Phase, t: Txn, k: nat)
    requires GeometryOk(g) && LayoutOk(l) && cfg.journal && !cfg.cached && SeqOf(sys.st) + 1 < U32
    requires InPhase(g, l, sys, h, p) && ActOk(cfg, g, l, sys, Cut(t, k))
    ensures var q, h' := NextPhase(l, p, Cut(t, k), IssuedBy(g, l, sys, Cut(t, k))),
            AtomicStep(h, EventOf(g, l, sys, Cut(t, k)));
            && MetaOk(l, h') && (q == Broken <==> !Exact(l, h'))
            && (q != Broken ==> InPhase(g, l, Next(cfg, g, l, sys, Cut(t, k)), h', q))
  {
    hide Quiet, Pending, Exact, MetaOk, LayoutOk, S.Fresh, S.Stale, SameCounts, LagCounts, TxnOp, TxnOk, OpForm,
         S.SameBlock, Plain, Group, ThreeOp, Step, Apply, OpOk, AtomicStep, CutAt, JournalRecovery.Home;
    PhaseInv(g, l, sys, h, p);
    var op := OpOf(g, l, sys, t).0;
    if op == [] {
      NothingCut(cfg, g, sys.st, k);
      CutPlaces(h, op, k);
      SameSelf(l, h);
      QuietSeq(g, sys.st.dev, sys.st.seq_, h);
    } else {
      CutDown(cfg, g, sys.st, h, op, k);
      CutPlaces(h, op, k);
      var dev := Step(cfg, g, sys.st, StoreCut(op, k)).value.dev;
      if p == Synced {
        FreshTxn(l, h, sys.mem, t);
        CutForm(l, t, op);
        CutFresh(l, h, op, k, Alters(t), Group(l, h, sys.mem, t));
      } else {
        StaleTxn(l, h, sys.mem, t, p.b);
        CutForm(l, t, op);
        SameSelf(l, h);
        if !Spoils(l, t, p.b) {
          CutFresh(l, h, op, k, false, 0);
        }
      }
      var h' := AtomicStep(h, StoreCut(op, k));
      if !Quiet(g, dev, dev.seq_, h') {
        assert PendingPlain(g, l, dev, h', op);
      }
    }
  }

  lemma CutForm(l: Layout, t: Txn, op: Op)
    requires LayoutOk(l) && OpForm(l, t, op) && op != []
    ensures Plain(l, op) && |op| == (if t.Flush? then 1 else 3) && (Alters(t) ==> ThreeOp(l, op))
  {
  }

  lemma ThreePlain(l: Layout, op: Op)
    requires LayoutOk(l) && ThreeOp(l, op)
    ensures Plain(l, op) && |op| == 3
  {
  }

  lemma QuietSeq(g: Geometry, dev: Device, s: nat, h: Image)
    requires Quiet(g, dev, s, h)
    ensures dev.seq_ == s
  {
  }

  /** The home blocks a cut leaves, against those after recovery. */
  lemma CutFresh(l: Layout, h: Image, op: Op, k: nat, alters: bool, group: nat)
    requires LayoutOk(l) && MetaOk(l, h) && Plain(l, op) && MetaOk(l, Apply(h, op)) && k <= 2 * |op| + 4
    requires if alters then LagCounts(l, h, Apply(h, op), Some(group)) else SameCounts(l, h, Apply(h, op))
    ensures MetaOk(l, CutAt(h, op, k))
    ensures var c, h' := CutAt(h, op, k), AtomicStep(h, StoreCut(op, k));
            && MetaOk(l, h')
            && if |op| + 3 <= k < 2 * |op| + 3 && alters
               then |op| == 3 && LagCounts(l, c, h', if k < |op| + 5 then Some(group) else None)
               else SameCounts(l, c, h')
  {
    hide MetaOk, LayoutOk, SameCounts, LagCounts, Plain, ThreeOp, Apply, CutAt, AtomicStep;
    CutPlaces(h, op, k);
    SameSelf(l, h);
    SameSelf(l, Apply(h, op));
    if |op| + 3 <= k < 2 * |op| + 3 {
      HalfWayOk(l, h, op, k - |op| - 3);
      Between(l, h, op, k - |op| - 3, Some(group));
      if alters {
        ThreePlain(l, op);
      }
    }
  }

  // ----- other events

  lemma SameVia(l: Layout, h: Image, a: Image, c: Image)
    requires LayoutOk(l) && MetaOk(l, h) && MetaOk(l, a) && MetaOk(l, c) && SameCounts(l, h, a) && SameCounts(l, h, c)
    ensures SameCounts(l, a, c)
  {
    hide FreeIn, DescOf;
  }

  /** Blocks off the metadata change nothing the phases speak of. */
  lemma IgnoredOp(l: Layout, h: Image, op: Op)
    requires LayoutOk(l) && MetaOk(l, h) && NoMeta(l, op)
    ensures MetaOk(l, Apply(h, op)) && SameCounts(l, h, Apply(h, op)) && (Exact(l, Apply(h, op)) <==> Exact(l, h))
    ensures forall m | MemOk(l, m) :: Seen(l, Apply(h, op), m) == Seen(l, h, m)
  {
    hide LayoutOk, MetaOk, NoMeta, Apply, SameMeta, SameCounts, Decode, Seen, MemOk;
    OthersIgnored(l, h, op);
    SameMetaIs(l, h, Apply(h, op));
  }

  lemma IgnoredData(l: Layout, h: Image, b: nat, v: Block)
    requires LayoutOk(l) && MetaOk(l, h) && !IsMeta(l, b)
    ensures MetaOk(l, h[b := v]) && (Exact(l, h[b := v]) <==> Exact(l, h))
    ensures forall m | MemOk(l, m) :: Seen(l, h[b := v], m) == Seen(l, h, m)
  {
    hide LayoutOk, MetaOk, IsMeta, SameMeta, SameCounts, Decode, Seen, MemOk;
    OneIgnored(l, h, b, v);
    SameMetaIs(l, h, h[b := v]);
  }

  lemma StaysUp(cfg: Config, g: Geometry, st: State, e: Event)
    requires GeometryOk(g) && st.Up? && Step(cfg, g, st, e).Some?
    ensures e.Store? || e.Data? || e.FlushCut? || e.StoreCut? || e.Crash?
    ensures e.Store? || e.Data? || e.FlushCut? ==> Step(cfg, g, st, e).value.Up?
    ensures e.Crash? ==> Step(cfg, g, st, e).value == Down(st.dev)
  {
  }

  /** A write of other blocks, a flush, or a crash between writes. */
  lemma UpStep(cfg: Config, g: Geometry, l: Layout, sys: Sys, h: Image, p: Phase, e: Event)
    requires GeometryOk(g) && LayoutOk(l) && cfg.journal && !cfg.cached && SeqOf(sys.st) + 1 < U32
    requires InPhase(g, l, sys, h, p) && ActOk(cfg, g, l, sys, Other(e)) && sys.st.Up? && !e.StoreCut?
    ensures MetaOk(l, AtomicStep(h, e)) && Exact(l, AtomicStep(h, e))
    ensures InPhase(g, l, Next(cfg, g, l, sys, Other(e)), AtomicStep(h, e), NextPhase(l, p, Other(e), Issued(0, 0)))
  {
    hide Quiet, Pending, Exact, MetaOk, LayoutOk, S.Fresh, S.Stale, SameCounts, LagCounts, Step, Apply, OpOk,
         JournalRecovery.Home, NoMeta, IsMeta, Seen;
    PhaseInv(g, l, sys, h, p);
    StaysUp(cfg, g, sys.st, e);
    StepKeepsInv(cfg, g, sys.st, h, e);
    match e {
      case Store(op) => IgnoredOp(l, h, op);
      case Data(b, v) => IgnoredData(l, h, b, v);
      case Crash =>
        SameSelf(l, h);
        QuietSeq(g, sys.st.dev, sys.st.seq_, h);
      case _ =>
    }
  }

  lemma UpCutStep(cfg: Config, g: Geometry, l: Layout, sys: Sys, h: Image, p: Phase, op: Op, k: nat)
    requires GeometryOk(g) && LayoutOk(l) && cfg.journal && !cfg.cached && SeqOf(sys.st) + 1 < U32
    requires InPhase(g, l, sys, h, p) && ActOk(cfg, g, l, sys, Other(StoreCut(op, k))) && sys.st.Up?
    ensures var e := StoreCut(op, k);
            && MetaOk(l, AtomicStep(h, e)) && Exact(l, AtomicStep(h, e))
            && InPhase(g, l, Next(cfg, g, l, sys, Other(e)), AtomicStep(h, e), Off)
  {
    hide Quiet, Pending, Exact, MetaOk, LayoutOk, S.Fresh, S.Stale, SameCounts, LagCounts, Step, Apply, OpOk,
         JournalRecovery.Home, NoMeta, CutAt, AtomicStep;
    PhaseInv(g, l, sys, h, p);
    if op == [] {
      NothingCut(cfg, g, sys.st, k);
      CutPlaces(h, op, k);
      SameSelf(l, h);
      QuietSeq(g, sys.st.dev, sys.st.seq_, h);
    } else {
      CutDown(cfg, g, sys.st, h, op, k);
      CutPlaces(h, op, k);
      CutIgnored(l, h, op, k);
      var dev, h' := Step(cfg, g, sys.st, StoreCut(op, k)).value.dev, AtomicStep(h, StoreCut(op, k));
      if !Quiet(g, dev, dev.seq_, h') {
        assert PendingPlain(g, l, dev, h', op);
      }
    }
  }

  lemma CutIgnored(l: Layout, h: Image, op: Op, k: nat)
    requires LayoutOk(l) && MetaOk(l, h) && NoMeta(l, op) && k <= 2 * |op| + 4 && Exact(l, h)
    ensures var c, h' := CutAt(h, op, k), AtomicStep(h, StoreCut(op, k));
            MetaOk(l, c) && MetaOk(l, h') && Exact(l, h') && SameCounts(l, c, h')
  {
    hide MetaOk, LayoutOk, SameCounts, Apply, CutAt, AtomicStep, Exact, IsMeta;
    CutPlaces(h, op, k);
    SameSelf(l, h);
    IgnoredOp(l, h, op);
    SameSelf(l, Apply(h, op));
    if |op| + 3 <= k < 2 * |op| + 3 {
      IgnoredOp(l, h, op[..k - |op| - 3]);
      SameVia(l, h, Apply(h, op[..k - |op| - 3]), Apply(h, op));
    }
  }

  /** A mount: memory is what the home blocks were before the replay. */
  lemma MountStep(cfg: Config, g: Geometry, l: Layout, sys: Sys, h: Image, p: Phase)
    requires GeometryOk(g) && LayoutOk(l) && cfg.journal && !cfg.cached && SeqOf(sys.st) + 1 < U32
    requires InPhase(g, l, sys, h, p) && ActOk(cfg, g, l, sys, Other(Mount))
    ensures InPhase(g, l, Next(cfg, g, l, sys, Other(Mount)), h, NextPhase(l, p, Other(Mount), Issued(0, 0)))
  {
    hide Quiet, Pending, Exact, MetaOk, LayoutOk, S.Fresh, S.Stale, SameCounts, LagCounts, Step, JournalRecovery.Home,
         Load, MemOk, Seen;
    PhaseInv(g, l, sys, h, p);
    MountGoesUp(cfg, g, sys.st);
    StepKeepsInv(cfg, g, sys.st, h, Mount);
    Loaded(l, HomeOf(g, sys), h, if p.Lagging? then p.b else None);
  }

  lemma MountGoesUp(cfg: Config, g: Geometry, st: State)
    requires GeometryOk(g) && Step(cfg, g, st, Mount).Some?
    ensures st.Down? && Step(cfg, g, st, Mount).value.Up?
  {
  }

  /** The home blocks after the first k writes of a replay. */
  lemma ReplayHome(g: Geometry, d: Device, h: Image, op: Op, k: nat)
    requires GeometryOk(g) && Pending(g, d, h, op) && d.seq_ + 1 < U32 && k <= |op| + 1
    ensures var d' := PutAll(d, (HomeWrites(op) + [Sb(0, d.seq_ + 1)])[..k]);
            JournalRecovery.Home(g, d') == Apply(JournalRecovery.Home(g, d), op[..Min(k, |op|)])
  {
    hide PutAll, HomeWrites, Apply, FutureFree, JournalRecovery.Holds, JournalRecovery.Home;
    var n, ws := |op|, HomeWrites(op) + [Sb(0, d.seq_ + 1)];
    if k <= n {
      HomeLength(op);
      HomePrefix(g, d, op, d.seq_, JournalRecovery.Home(g, d), k);
      assert ws[..k] == HomeWrites(op)[..k];
    } else {
      ReplayCut(g, d, h, op, k);
      assert op[..n] == op;
    }
  }

  lemma HomeLength(op: Op)
    ensures |HomeWrites(op)| == |op|
  {
  }

  lemma MountCutIs(cfg: Config, g: Geometry, d: Device, k: nat)
    requires GeometryOk(g) && cfg.journal && !cfg.cached && Step(cfg, g, Down(d), MountCut(k)).Some?
    ensures k <= |MountWrites(g, d).0| && Step(cfg, g, Down(d), MountCut(k)).value ==
            Down(PutAll(d, MountWrites(g, d).0[..k]))
  {
    hide MountWrites, PutAll, Issue;
    IssueDirect(cfg, d, [], MountWrites(g, d).0[..k]);
  }

  lemma QuietMount(g: Geometry, d: Device, s: nat, h: Image)
    requires GeometryOk(g) && Quiet(g, d, s, h)
    ensures MountWrites(g, d).0 == [] && forall k | k == 0 :: PutAll(d, MountWrites(g, d).0[..k]) == d
  {
  }

  /** A mount cut after k writes of its replay. */
  lemma MountCutStep(cfg: Config, g: Geometry, l: Layout, sys: Sys, h: Image, p: Phase, k: nat)
    requires GeometryOk(g) && LayoutOk(l) && cfg.journal && !cfg.cached && SeqOf(sys.st) + 1 < U32
    requires InPhase(g, l, sys, h, p) && ActOk(cfg, g, l, sys, Other(MountCut(k))) && sys.st.Down?
    ensures InPhase(g, l, Next(cfg, g, l, sys, Other(MountCut(k))), h,
                    NextPhase(l, p, Other(MountCut(k)), Issued(0, 0)))
  {
    hide Quiet, Pending, Exact, MetaOk, LayoutOk, SameCounts, LagCounts, Step, JournalRecovery.Home, MountWrites,
         PutAll, Apply, Plain, HomeWrites, ThreeOp;
    var d := sys.st.dev;
    MountCutIs(cfg, g, d, k);
    var d' := PutAll(d, MountWrites(g, d).0[..k]);
    if Quiet(g, d, d.seq_, h) {
      QuietMount(g, d, d.seq_, h);
      QuietHome(g, d, d.seq_, h);
      SameNotLag(l, h, if p.Lagging? then p.b else None);
    } else {
      var op :| PendingPlain(g, l, d, h, op);
      MountReplays(g, d, h, op);
      HomeLength(op);
      ReplayHome(g, d, h, op, k);
      ReplayCut(g, d, h, op, k);
      PendingIs(g, d, h, op);
      var a := HomeOf(g, sys);
      HalfWayOk(l, a, op, Min(k, |op|));
      Between(l, a, op, Min(k, |op|), if p.Lagging? then p.b else None);
      SameSelf(l, h);
      if p.Lagging? {
        ThreePlain(l, op);
      }
      if k <= |op| {
        assert PendingPlain(g, l, d', h, op);
      } else {
        QuietSeq(g, d', d.seq_ + 1, h);
      }
    }
  }

  lemma SameNotLag(l: Layout, h: Image, b: Option<nat>)
    requires LayoutOk(l) && MetaOk(l, h)
    ensures SameCounts(l, h, h) && !LagCounts(l, h, h, b)
  {
  }

  lemma PendingIs(g: Geometry, d: Device, h: Image, op: Op)
    requires GeometryOk(g) && Pending(g, d, h, op)
    ensures Apply(JournalRecovery.Home(g, d), op) == h
  {
  }

  // ----- runs

  /** One act from a state that holds: the counts stay exact exactly when the phase is not broken, and
      then the next phase holds. */
  lemma ActStep(cfg: Config, g: Geometry, l: Layout, sys: Sys, h: Image, p: Phase, a: Act)
    requires GeometryOk(g) && LayoutOk(l) && cfg.journal && !cfg.cached && SeqOf(sys.st) + 1 < U32
    requires InPhase(g, l, sys, h, p) && ActOk(cfg, g, l, sys, a)
    ensures var q, h' := NextPhase(l, p, a, IssuedBy(g, l, sys, a)), AtomicStep(h, EventOf(g, l, sys, a));
            && MetaOk(l, h') && (q == Broken <==> !Exact(l, h'))
            && (q != Broken ==> InPhase(g, l, Next(cfg, g, l, sys, a), h', q))
            && SeqOf(Next(cfg, g, l, sys, a).st) <= SeqOf(sys.st) + 1
  {
    hide Exact, MetaOk, LayoutOk, S.Fresh, S.Stale, SameCounts, LagCounts, Step, TxnOp, TxnOk, Apply, Quiet, Pending,
         HomeOf, Seen;
    PhaseInv(g, l, sys, h, p);
    StepKeepsInv(cfg, g, sys.st, h, EventOf(g, l, sys, a));
    match a
    case Do(t) => DoStep(cfg, g, l, sys, h, p, t);
    case Cut(t, k) => CutStep(cfg, g, l, sys, h, p, t, k);
    case Other(e) =>
      if sys.st.Up? {
        StaysUp(cfg, g, sys.st, e);
        if e.StoreCut? {
          UpCutStep(cfg, g, l, sys, h, p, e.op, e.k);
        } else {
          UpStep(cfg, g, l, sys, h, p, e);
        }
      } else {
        DownEvents(cfg, g, sys.st, e);
        if e.Mount? {
          MountStep(cfg, g, l, sys, h, p);
        } else {
          MountCutStep(cfg, g, l, sys, h, p, e.k);
        }
      }
  }

  lemma DownEvents(cfg: Config, g: Geometry, st: State, e: Event)
    requires GeometryOk(g) && st.Down? && Step(cfg, g, st, e).Some?
    ensures e.Mount? || e.MountCut?
  {
  }

  /** In every state of the run, up to an act that cannot happen, the blocks recovery leads to have exact
      counts. */
  ghost predicate AlwaysExact(cfg: Config, g: Geometry, l: Layout, sys: Sys, h: Image, acts: seq<Act>)
    requires GeometryOk(g) && LayoutOk(l)
    decreases |acts|
  {
    && MetaOk(l, h) && Exact(l, h)
    && (acts != [] && ActOk(cfg, g, l, sys, acts[0]) ==>
          AlwaysExact(cfg, g, l, Next(cfg, g, l, sys, acts[0]), AtomicStep(h, EventOf(g, l, sys, acts[0])), acts[1..]))
  }

  /** No transaction reaches its commit point while memory is behind. */
  ghost predicate NeverBroken(cfg: Config, g: Geometry, l: Layout, sys: Sys, p: Phase, acts: seq<Act>)
    requires GeometryOk(g) && LayoutOk(l)
    decreases |acts|
  {
    && p != Broken
    && (acts != [] && ActOk(cfg, g, l, sys, acts[0]) ==>
          NeverBroken(cfg, g, l, Next(cfg, g, l, sys, acts[0]), NextPhase(l, p, acts[0], IssuedBy(g, l, sys, acts[0])),
                      acts[1..]))
  }

  /** Of the free counts of blocks, or of inodes, as the layout says. Over every run of allocations,
      releases, transactions of the other allocator, descriptor blocks stored alone and other writes, with
      crashes anywhere and mounts cut anywhere: the counts on disk stay exact if and only if no transaction
      that writes what is behind reaches its commit point after a mount that followed a cut in the window. */
  lemma {:induction false} CountsExactIff(cfg: Config, g: Geometry, l: Layout, sys: Sys, h: Image, p: Phase,
                                          acts: seq<Act>)
    requires GeometryOk(g) && LayoutOk(l) && cfg.journal && !cfg.cached && SeqOf(sys.st) + |acts| < U32
    requires InPhase(g, l, sys, h, p)
    ensures AlwaysExact(cfg, g, l, sys, h, acts) <==> NeverBroken(cfg, g, l, sys, p, acts)
    decreases |acts|
  {
    hide Exact, LayoutOk, ActOk, Next, AtomicStep, EventOf, NextPhase, IssuedBy, MetaOk;
    PhaseExact(g, l, sys, h, p);
    if acts != [] && ActOk(cfg, g, l, sys, acts[0]) {
      ActReady(cfg, g, l, sys, acts[0]);
      ActStep(cfg, g, l, sys, h, p, acts[0]);
      var sys', q := Next(cfg, g, l, sys, acts[0]), NextPhase(l, p, acts[0], IssuedBy(g, l, sys, acts[0]));
      if q != Broken {
        CountsExactIff(cfg, g, l, sys', AtomicStep(h, EventOf(g, l, sys, acts[0])), q, acts[1..]);
      }
    }
  }

  lemma ActReady(cfg: Config, g: Geometry, l: Layout, sys: Sys, a: Act)
    requires GeometryOk(g) && LayoutOk(l) && ActOk(cfg, g, l, sys, a)
    ensures a.Other? || Ready(g, l, sys)
  {
  }

  lemma PhaseExact(g: Geometry, l: Layout, sys: Sys, h: Image, p: Phase)
    requires GeometryOk(g) && LayoutOk(l) && InPhase(g, l, sys, h, p)
    ensures MetaOk(l, h) && Exact(l, h) && p != Broken
  {
    hide Exact, MetaOk, Quiet, S.Fresh, S.Stale, SameCounts, LagCounts;
  }

  /** No transaction that changes a count is cut between its commit point and its last home write. */
  predicate NoWindow(acts: seq<Act>) {
    forall i | 0 <= i < |acts| && acts[i].Cut? && Alters(acts[i].t) :: acts[i].k < 6 || acts[i].k >= 9
  }

  /** Then the counts stay exact, whatever else is cut. */
  lemma {:induction false} OutsideWindow(cfg: Config, g: Geometry, l: Layout, sys: Sys, h: Image, p: Phase,
                                         acts: seq<Act>)
    requires GeometryOk(g) && LayoutOk(l) && cfg.journal && !cfg.cached && SeqOf(sys.st) + |acts| < U32
    requires InPhase(g, l, sys, h, p) && (p == Synced || p == Off) && NoWindow(acts)
    ensures AlwaysExact(cfg, g, l, sys, h, acts)
    decreases |acts|
  {
    hide Exact, LayoutOk, ActOk, Next, AtomicStep, EventOf, IssuedBy, MetaOk, InPhase, OpOf;
    PhaseExact(g, l, sys, h, p);
    if acts != [] && ActOk(cfg, g, l, sys, acts[0]) {
      ActReady(cfg, g, l, sys, acts[0]);
      ActStep(cfg, g, l, sys, h, p, acts[0]);
      SizeIs(cfg, g, l, sys, h, p, acts[0]);
      var q := NextPhase(l, p, acts[0], IssuedBy(g, l, sys, acts[0]));
      assert NoWindow(acts[1..]);
      OutsideWindow(cfg, g, l, Next(cfg, g, l, sys, acts[0]), AtomicStep(h, EventOf(g, l, sys, acts[0])), q, acts[1..]);
    }
  }

  lemma SizeIs(cfg: Config, g: Geometry, l: Layout, sys: Sys, h: Image, p: Phase, a: Act)
    requires GeometryOk(g) && LayoutOk(l) && InPhase(g, l, sys, h, p) && ActOk(cfg, g, l, sys, a)
    ensures a.Other? || Ready(g, l, sys)
    ensures !a.Other? && !a.t.Flush? ==> IssuedBy(g, l, sys, a).n == 0 || IssuedBy(g, l, sys, a).n == 3
    ensures !a.Other? && a.t.Flush? ==> IssuedBy(g, l, sys, a).n == 1
  {
    hide Exact, MetaOk, LayoutOk, S.Fresh, S.Stale, SameCounts, LagCounts, Step, TxnOp, TxnOk, Apply, Quiet, Pending,
         HomeOf, Seen, Group, Spoils;
    if !a.Other? {
      PhaseInv(g, l, sys, h, p);
      if p == Synced {
        FreshTxn(l, h, sys.mem, a.t);
      } else {
        StaleTxn(l, h, sys.mem, a.t, p.b);
      }
    }
  }

  /** The failing runs: an allocation or release cut in the window, a mount, and any transaction but a
      descriptor block alone. */
  lemma WindowBreaks(cfg: Config, g: Geometry, l: Layout, sys: Sys, h: Image, t: Txn, k: nat, u: Txn)
    requires GeometryOk(g) && LayoutOk(l) && cfg.journal && !cfg.cached && SeqOf(sys.st) + 3 < U32
    requires InPhase(g, l, sys, h, Synced) && Alters(t) && 6 <= k < 9 && !u.Flush?
    requires ActOk(cfg, g, l, sys, Cut(t, k)) && Ready(g, l, sys) && OpOf(g, l, sys, t).0 != []
    requires var down := Next(cfg, g, l, sys, Cut(t, k));
             && ActOk(cfg, g, l, down, Other(Mount))
             && (var up := Next(cfg, g, l, down, Other(Mount));
                 ActOk(cfg, g, l, up, Do(u)) && Ready(g, l, up) && OpOf(g, l, up, u).0 != [])
    ensures !AlwaysExact(cfg, g, l, sys, h, [Cut(t, k), Other(Mount), Do(u)])
  {
    hide Exact, MetaOk, LayoutOk, InPhase, ActOk, Next, OpOf, Ready;
    var acts := [Cut(t, k), Other(Mount), Do(u)];
    SizeIs(cfg, g, l, sys, h, Synced, acts[0]);
    CountsExactIff(cfg, g, l, sys, h, Synced, acts);
    var down := Next(cfg, g, l, sys, acts[0]);
    var up := Next(cfg, g, l, down, acts[1]);
    assert acts[1..] == [Other(Mount), Do(u)] && acts[1..][1..] == [Do(u)];
    var b := NextPhase(l, Synced, acts[0], IssuedBy(g, l, sys, acts[0])).b;
    assert !NeverBroken(cfg, g, l, up, Stale(b), [Do(u)]);
    assert !NeverBroken(cfg, g, l, down, Lagging(b), acts[1..]);
  }

  /** After an allocation or release was cut and the volume mounted, the counts in memory,
      global and per group, are those on disk if and only if the cut came before the commit point or
      after the last home write. */
  lemma MountedCountIff(cfg: Config, g: Geometry, l: Layout, sys: Sys, h: Image, t: Txn, k: nat)
    requires GeometryOk(g) && LayoutOk(l) && cfg.journal && !cfg.cached && SeqOf(sys.st) + 2 < U32
    requires InPhase(g, l, sys, h, Synced) && Alters(t) && Ready(g, l, sys) && OpOf(g, l, sys, t).0 != []
    requires ActOk(cfg, g, l, sys, Cut(t, k)) && ActOk(cfg, g, l, Next(cfg, g, l, sys, Cut(t, k)), Other(Mount))
    ensures var up := Next(cfg, g, l, Next(cfg, g, l, sys, Cut(t, k)), Other(Mount));
            && up.st.Up? && MetaOk(l, HomeOf(g, up)) && MemOk(l, up.mem)
            && (S.Fresh(Seen(l, HomeOf(g, up), up.mem)) <==> k < 6 || k >= 9)
  {
    hide Exact, MetaOk, LayoutOk, Quiet, ActOk, Next, OpOf, MemOk, SameCounts, LagCounts, Seen, HomeOf, AtomicStep,
         EventOf;
    SizeIs(cfg, g, l, sys, h, Synced, Cut(t, k));
    ActStep(cfg, g, l, sys, h, Synced, Cut(t, k));
    var down, h' := Next(cfg, g, l, sys, Cut(t, k)), AtomicStep(h, EventOf(g, l, sys, Cut(t, k)));
    var p := NextPhase(l, Synced, Cut(t, k), IssuedBy(g, l, sys, Cut(t, k)));
    MountStep(cfg, g, l, down, h', p);
    PhaseInv(g, l, Next(cfg, g, l, down, Other(Mount)), h', NextPhase(l, p, Other(Mount), Issued(0, 0)));
  }
}
