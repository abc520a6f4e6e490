/** Runs of the storage driver: stores, data writes, cache flushes, crashes at any device write,
    mounts and crashes inside mounts. The block cache (kernel/fs/pbcache.c) holds block writes
    back unless it could not get memory; journal superblock writes bypass it
    (kernel/fs/ext4.c:150-155, 181-187, 226-322, 2350-2453, kernel/fs/pbcache.c:307-395). */
module JournalRuns {
  import opened Words
  import opened Bytes
  import opened Journal
  import opened JournalRecovery

  /** journal: the volume has a usable journal. cached: the block cache has slots. */
  datatype Config = Config(journal: bool, cached: bool)

  /** Cached blocks in slot order. */
  type Cache = seq<(nat, Block)>

  datatype State = Up(dev: Device, cache: Cache, seq_: nat) | Down(dev: Device)

  /** StoreCut and MountCut stop after k device or cache writes; FlushCut writes back the first k slots. */
  datatype Event =
    | Store(op: Op)
    | StoreCut(op: Op, k: nat)
    | Data(b: nat, v: Block)
    | FlushCut(k: nat)
    | Crash
    | Mount
    | MountCut(k: nat)

  function CachePut(c: Cache, b: nat, v: Block): Cache {
    if c == [] then [(b, v)]
    else if c[0].0 == b then [(b, v)] + c[1..]
    else [c[0]] + CachePut(c[1..], b, v)
  }

  function Issue(cfg: Config, dev: Device, cache: Cache, ws: seq<Write>): (Device, Cache)
    decreases ws
  {
    if ws == [] then (dev, cache)
    else if cfg.cached && ws[0].Blk? then Issue(cfg, dev, CachePut(cache, ws[0].b, ws[0].v), ws[1..])
    else Issue(cfg, Put(dev, ws[0]), cache, ws[1..])
  }

  /** The writes of one metadata store. */
  function StoreWrites(cfg: Config, g: Geometry, op: Op, s: nat): seq<Write>
    requires GeometryOk(g) && (op == [] || OpShape(g, op)) && s < U32
  {
    if op == [] then [] else if cfg.journal then CommitWrites(g, op, s) else HomeWrites(op)
  }

  function StartWrites(cfg: Config, g: Geometry, dev: Device): (seq<Write>, nat) {
    if cfg.journal then MountWrites(g, dev) else ([], dev.seq_)
  }

  function Flushed(dev: Device, c: Cache, k: nat): Device
    requires k <= |c|
  {
    if k == 0 then dev else Put(Flushed(dev, c, k - 1), Blk(c[k - 1].0, c[k - 1].1))
  }

  ghost predicate EventOk(g: Geometry, e: Event)
    requires GeometryOk(g)
  {
    match e
    case Store(op) => op == [] || OpOk(g, op)
    case StoreCut(op, _) => op == [] || OpOk(g, op)
    case Data(b, v) => !InJournal(g, b)
    case _ => true
  }

  function Step(cfg: Config, g: Geometry, st: State, e: Event): Option<State>
    requires GeometryOk(g)
  {
    match (st, e)
    case (Up(dev, cache, s), Store(op)) =>
      if !(op == [] || OpShape(g, op)) || s >= U32 then None else
      var (dev', cache') := Issue(cfg, dev, cache, StoreWrites(cfg, g, op, s));
      Some(Up(dev', cache', if op == [] || !cfg.journal then s else Add32(s, 1)))
    case (Up(dev, cache, s), StoreCut(op, k)) =>
      if !(op == [] || OpShape(g, op)) || s >= U32 || k > |StoreWrites(cfg, g, op, s)| then None else
      Some(Down(Issue(cfg, dev, cache, StoreWrites(cfg, g, op, s)[..k]).0))
    case (Up(dev, cache, s), Data(b, v)) =>
      var (dev', cache') := Issue(cfg, dev, cache, [Blk(b, v)]);
      Some(Up(dev', cache', s))
    case (Up(dev, cache, s), FlushCut(k)) =>
      if k > |cache| then None else Some(Up(Flushed(dev, cache, k), cache, s))
    case (Up(dev, _, _), Crash) => Some(Down(dev))
    case (Down(dev), Mount) =>
      var (ws, s) := StartWrites(cfg, g, dev);
      var (dev', cache') := Issue(cfg, dev, [], ws);
      Some(Up(dev', cache', s))
    case (Down(dev), MountCut(k)) =>
      var ws := StartWrites(cfg, g, dev).0;
      if k > |ws| then None else Some(Down(Issue(cfg, dev, [], ws[..k]).0))
    case _ => None
  }

  function Run(cfg: Config, g: Geometry, st: State, es: seq<Event>): Option<State>
    requires GeometryOk(g)
    decreases es
  {
    if es == [] then Some(st)
    else
      var st' := Step(cfg, g, st, es[0]);
      if st'.None? then None else Run(cfg, g, st'.value, es[1..])
  }

  /** The atomic store: a transaction cut before its superblock write did not happen, one cut
      later happened completely. */
  function AtomicStep(h: map<nat, Block>, e: Event): map<nat, Block> {
    match e
    case Store(op) => Apply(h, op)
    case StoreCut(op, k) => if k >= |op| + 3 then Apply(h, op) else h
    case Data(b, v) => h[b := v]
    case _ => h
  }

  function AtomicRun(h: map<nat, Block>, es: seq<Event>): map<nat, Block>
    decreases es
  {
    if es == [] then h else AtomicRun(AtomicStep(h, es[0]), es[1..])
  }

  // ----- the invariant

  /** A committed transaction waits for replay; after it the home blocks are h. */
  ghost predicate Pending(g: Geometry, dev: Device, h: map<nat, Block>, op: Op)
    requires GeometryOk(g)
  {
    && dev.seq_ < U32 && OpOk(g, op) && dev.start == g.first
    && Committed(g, dev, op, dev.seq_, Home(g, dev)) && Apply(Home(g, dev), op) == h
  }

  ghost predicate Recoverable(g: Geometry, dev: Device, h: map<nat, Block>)
    requires GeometryOk(g)
  {
    Quiet(g, dev, dev.seq_, h) || exists op :: Pending(g, dev, h, op)
  }

  ghost predicate Inv(g: Geometry, st: State, h: map<nat, Block>)
    requires GeometryOk(g)
  {
    match st
    case Up(dev, cache, s) => cache == [] && Quiet(g, dev, s, h)
    case Down(dev) => Recoverable(g, dev, h)
  }

  function SeqOf(st: State): nat { if st.Up? then st.seq_ else st.dev.seq_ }

  lemma {:induction false} IssueDirect(cfg: Config, dev: Device, cache: Cache, ws: seq<Write>)
    requires !cfg.cached
    ensures Issue(cfg, dev, cache, ws) == (PutAll(dev, ws), cache)
    decreases ws
  {
    if ws != [] {
      IssueDirect(cfg, Put(dev, ws[0]), cache, ws[1..]);
    }
  }

  lemma QuietNext(g: Geometry, d: Device, op: Op, s: nat, h: map<nat, Block>)
    requires GeometryOk(g) && OpOk(g, op) && s < U32 && Committed(g, d, op, s, h)
    ensures Quiet(g, Put(d, Sb(0, s + 1)), s + 1, h)
  {
    var d' := Put(d, Sb(0, s + 1));
    assert Home(g, d') == Home(g, d);
    forall j: nat | j < g.maxlen && Phys(g, j) != 0 && Phys(g, j) in d'.blocks
      ensures DescriptorBelow(g, d'.blocks[Phys(g, j)], Phys(g, j), s + 1)
    {
      assert DescriptorBelow(g, d.blocks[Phys(g, j)], Phys(g, j), s);
    }
  }

  lemma CommitPrefix(g: Geometry, op: Op, s: nat, k: nat)
    requires GeometryOk(g) && OpShape(g, op) && s + 1 < U32 && k <= 2 * |op| + 4
    ensures |CommitWrites(g, op, s)| == 2 * |op| + 4
    ensures var ws, log := CommitWrites(g, op, s), LogWrites(g, op, s) + [Sb(g.first, s)];
            && (k <= |op| + 2 ==> ws[..k] == LogWrites(g, op, s)[..k])
            && (|op| + 3 <= k <= 2 * |op| + 3 ==> ws[..k] == log + HomeWrites(op)[..k - |op| - 3])
            && (k == 2 * |op| + 4 ==> ws[..k] == log + HomeWrites(op)[..|op|] + [Sb(0, s + 1)])
  {
  }

  /** After the commit point, with m home blocks written. */
  lemma HomePhase(g: Geometry, d: Device, op: Op, s: nat, h: map<nat, Block>, m: nat)
    requires GeometryOk(g) && OpOk(g, op) && s + 1 < U32 && Quiet(g, d, s, h) && m <= |op|
    ensures var d' := PutAll(d, LogWrites(g, op, s) + [Sb(g.first, s)] + HomeWrites(op)[..m]);
            && d'.start == g.first && d'.seq_ == s
            && Committed(g, d', op, s, Apply(h, op[..m])) && Apply(Apply(h, op[..m]), op) == Apply(h, op)
  {
    CommitPoint(g, d, op, s, h);
    PutAllLast(d, LogWrites(g, op, s), Sb(g.first, s));
    HomePrefix(g, Put(PutAll(d, LogWrites(g, op, s)), Sb(g.first, s)), op, s, h, m);
    PutAllConcat(d, LogWrites(g, op, s) + [Sb(g.first, s)], HomeWrites(op)[..m]);
    ApplyAgain(h, op, m);
  }

  /** A commit cut after its first k writes. */
  lemma CommitCut(g: Geometry, d: Device, op: Op, s: nat, h: map<nat, Block>, k: nat)
    requires GeometryOk(g) && OpOk(g, op) && s + 1 < U32 && Quiet(g, d, s, h) && k <= |CommitWrites(g, op, s)|
    ensures var d' := PutAll(d, CommitWrites(g, op, s)[..k]);
            && |CommitWrites(g, op, s)| == 2 * |op| + 4
            && (k <= |op| + 2 ==> Quiet(g, d', s, h))
            && (|op| + 3 <= k <= 2 * |op| + 3 ==> d'.seq_ == s && Pending(g, d', Apply(h, op), op))
            && (k == 2 * |op| + 4 ==> Quiet(g, d', s + 1, Apply(h, op)))
  {
    var n := |op|;
    CommitPrefix(g, op, s, k);
    if k <= n + 2 {
      LogPrefix(g, d, op, s, h, k);
    } else if k <= 2 * n + 3 {
      HomePhase(g, d, op, s, h, k - n - 3);
    } else {
      HomePhase(g, d, op, s, h, n);
      assert op[..n] == op;
      var ws := LogWrites(g, op, s) + [Sb(g.first, s)] + HomeWrites(op)[..n];
      PutAllLast(d, ws, Sb(0, s + 1));
      QuietNext(g, PutAll(d, ws), op, s, Apply(h, op));
    }
  }

  /** Replay of op cut after its first k writes. */
  lemma ReplayCut(g: Geometry, d: Device, h: map<nat, Block>, op: Op, k: nat)
    requires GeometryOk(g) && Pending(g, d, h, op) && d.seq_ + 1 < U32 && k <= |op| + 1
    ensures var d' := PutAll(d, (HomeWrites(op) + [Sb(0, d.seq_ + 1)])[..k]);
            && (k <= |op| ==> Pending(g, d', h, op) && d'.seq_ == d.seq_)
            && (k == |op| + 1 ==> Quiet(g, d', d.seq_ + 1, h))
  {
    var n, ws := |op|, HomeWrites(op) + [Sb(0, d.seq_ + 1)];
    var m := if k <= n then k else n;
    HomePrefix(g, d, op, d.seq_, Home(g, d), m);
    ApplyAgain(Home(g, d), op, m);
    if k <= n {
      assert ws[..k] == HomeWrites(op)[..k];
    } else {
      assert op[..n] == op;
      assert ws[..k] == HomeWrites(op)[..n] + [Sb(0, d.seq_ + 1)];
      PutAllLast(d, HomeWrites(op)[..n], Sb(0, d.seq_ + 1));
      QuietNext(g, PutAll(d, HomeWrites(op)[..n]), op, d.seq_, h);
    }
  }

  lemma MountReplays(g: Geometry, d: Device, h: map<nat, Block>, op: Op)
    requires GeometryOk(g) && Pending(g, d, h, op) && d.seq_ + 1 < U32
    ensures MountWrites(g, d) == (HomeWrites(op) + [Sb(0, d.seq_ + 1)], d.seq_ + 1)
  {
    ReplayCommitted(g, d, op, d.seq_);
  }

  /** A mount, complete or cut after its first k writes. */
  lemma MountCutOk(g: Geometry, d: Device, h: map<nat, Block>, k: nat)
    requires GeometryOk(g) && Recoverable(g, d, h) && d.seq_ + 1 < U32 && k <= |MountWrites(g, d).0|
    ensures var (ws, s) := MountWrites(g, d);
            var d' := PutAll(d, ws[..k]);
            && Recoverable(g, d', h) && d'.seq_ <= d.seq_ + 1
            && (k == |ws| ==> s <= d.seq_ + 1 && Quiet(g, d', s, h))
  {
    if d.start == 0 {
      assert MountWrites(g, d).0[..k] == [];
    } else {
      var op :| Pending(g, d, h, op);
      MountReplays(g, d, h, op);
      ReplayCut(g, d, h, op, k);
      assert k <= |op| ==> Pending(g, PutAll(d, MountWrites(g, d).0[..k]), h, op);
    }
  }

  /** Every step keeps the invariant, for the configuration without write-back. */
  lemma StepKeepsInv(cfg: Config, g: Geometry, st: State, h: map<nat, Block>, e: Event)
    requires GeometryOk(g) && cfg.journal && !cfg.cached && EventOk(g, e) && Inv(g, st, h) && SeqOf(st) + 1 < U32
    requires Step(cfg, g, st, e).Some?
    ensures var st' := Step(cfg, g, st, e).value;
            Inv(g, st', AtomicStep(h, e)) && SeqOf(st') <= SeqOf(st) + 1
  {
    match (st, e)
    case (Up(dev, cache, s), Store(op)) =>
      IssueDirect(cfg, dev, cache, StoreWrites(cfg, g, op, s));
      if op != [] {
        var ws := CommitWrites(g, op, s);
        CommitCut(g, dev, op, s, h, |ws|);
        assert ws[..|ws|] == ws;
      }
    case (Up(dev, cache, s), StoreCut(op, k)) =>
      IssueDirect(cfg, dev, cache, StoreWrites(cfg, g, op, s)[..k]);
      if op != [] {
        CommitCut(g, dev, op, s, h, k);
      } else {
        assert StoreWrites(cfg, g, op, s)[..k] == [];
      }
    case (Up(dev, cache, s), Data(b, v)) =>
      IssueDirect(cfg, dev, cache, [Blk(b, v)]);
      PutAllLast(dev, [], Blk(b, v));
      assert [] + [Blk(b, v)] == [Blk(b, v)];
      HomeWrite(g, dev, b, v);
      HomeKeepsFuture(g, dev, b, v, s);
    case (Up(dev, cache, s), FlushCut(k)) =>
    case (Up(dev, _, _), Crash) =>
    case (Down(dev), Mount) =>
      var (ws, s) := MountWrites(g, dev);
      IssueDirect(cfg, dev, [], ws);
      MountCutOk(g, dev, h, |ws|);
      assert ws[..|ws|] == ws;
    case (Down(dev), MountCut(k)) =>
      var ws := MountWrites(g, dev).0;
      IssueDirect(cfg, dev, [], ws[..k]);
      MountCutOk(g, dev, h, k);
    case _ =>
  }

  /** For every run without write-back, the blocks on the device are those of the atomic store
      while the system is up, and become those after the next mount while it is down. */
  lemma {:induction false} RunAtomic(cfg: Config, g: Geometry, st: State, h: map<nat, Block>, es: seq<Event>)
    requires GeometryOk(g) && cfg.journal && !cfg.cached && (forall e | e in es :: EventOk(g, e))
    requires Inv(g, st, h) && SeqOf(st) + |es| < U32 && Run(cfg, g, st, es).Some?
    ensures Inv(g, Run(cfg, g, st, es).value, AtomicRun(h, es))
    decreases es
  {
    if es != [] {
      StepKeepsInv(cfg, g, st, h, es[0]);
      RunAtomic(cfg, g, Step(cfg, g, st, es[0]).value, AtomicStep(h, es[0]), es[1..]);
    }
  }
}
