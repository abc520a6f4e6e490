/** Where crash atomicity ends: it holds for every run if and only if the volume has a journal
    and the block cache holds nothing back (kernel/fs/ext4.c:240-248, kernel/fs/pbcache.c:307-395). */
module JournalLimits {
  import opened Words
  import opened Bytes
  import opened Journal
  import opened JournalRecovery
  import opened JournalRuns

  /** After a run that ends mounted with nothing cached, the home blocks are the atomic store's. */
  ghost predicate AtomicAfter(cfg: Config, g: Geometry, st: State, h: map<nat, Block>, es: seq<Event>)
    requires GeometryOk(g)
  {
    (forall e | e in es :: EventOk(g, e)) && Inv(g, st, h) && SeqOf(st) + |es| < U32 && Run(cfg, g, st, es).Some? ==>
      var st' := Run(cfg, g, st, es).value;
      st'.Up? && st'.cache == [] ==> Home(g, st'.dev) == AtomicRun(h, es)
  }

  ghost predicate AlwaysAtomic(cfg: Config) {
    forall g, st, h, es | GeometryOk(g) :: AtomicAfter(cfg, g, st, h, es)
  }

  /** Two home blocks, both changed by the transaction. */
  ghost predicate TwoBlocks(g: Geometry, d: Device, op: Op)
    requires GeometryOk(g)
  {
    && OpOk(g, op) && |op| == 2 && op[0].0 != op[1].0
    && op[0].0 in d.blocks && d.blocks[op[0].0] != op[0].1
    && op[1].0 in d.blocks && d.blocks[op[1].0] != op[1].1
  }

  /** The first block of op is new and the second is old: neither the state before nor after. */
  ghost predicate Torn(g: Geometry, d: Device, d': Device, op: Op)
    requires |op| == 2
  {
    && Home(g, d') == Home(g, d)[op[0].0 := op[0].1]
    && Home(g, d') != Home(g, d) && Home(g, d') != Apply(Home(g, d), op)
  }

  lemma FirstOnlyTears(g: Geometry, d: Device, d': Device, op: Op)
    requires GeometryOk(g) && TwoBlocks(g, d, op) && Home(g, d') == Home(g, d)[op[0].0 := op[0].1]
    ensures Torn(g, d, d', op)
  {
    var h := Home(g, d);
    assert op == [op[0]] + [op[1]];
    ApplyLast(h, [op[0]], op[1]);
    assert Apply(h, op)[op[1].0] == op[1].1 && Home(g, d')[op[1].0] == h[op[1].0];
    assert !InJournal(g, op[0].0) && Home(g, d')[op[0].0] == op[0].1 && h[op[0].0] == d.blocks[op[0].0];
  }

  /** Without a journal, a crash between the two home writes tears the transaction. */
  lemma NoJournalTears(g: Geometry, d: Device, op: Op, s: nat)
    requires GeometryOk(g) && TwoBlocks(g, d, op) && s < U32
    ensures var r := Run(Config(false, false), g, Up(d, [], s), [StoreCut(op, 1), Mount]);
            r.Some? && r.value.Up? && r.value.cache == [] && Torn(g, d, r.value.dev, op)
  {
    var cfg, w := Config(false, false), Blk(op[0].0, op[0].1);
    var es := [StoreCut(op, 1), Mount];
    assert StoreWrites(cfg, g, op, s)[..1] == [w];
    IssueDirect(cfg, d, [], [w]);
    PutAllLast(d, [], w);
    assert [] + [w] == [w];
    var d1 := Put(d, w);
    assert Step(cfg, g, Up(d, [], s), es[0]) == Some(Down(d1));
    assert es[1..] == [Mount];
    assert Step(cfg, g, Down(d1), Mount) == Some(Up(d1, [], d1.seq_));
    RunTwo(cfg, g, Up(d, [], s), es, Down(d1), Up(d1, [], d1.seq_));
    HomeWrite(g, d, op[0].0, op[0].1);
    FirstOnlyTears(g, d, d1, op);
  }

  lemma RunTwo(cfg: Config, g: Geometry, a: State, es: seq<Event>, b: State, c: State)
    requires GeometryOk(g) && |es| == 2 && Step(cfg, g, a, es[0]) == Some(b) && Step(cfg, g, b, es[1]) == Some(c)
    ensures Run(cfg, g, a, es) == Some(c)
  {
    assert es[1..][0] == es[1] && es[1..][1..] == [];
    assert Run(cfg, g, c, []) == Some(c);
  }

  lemma RunFour(cfg: Config, g: Geometry, a: State, es: seq<Event>, b: State, c: State, d: State, e: State)
    requires GeometryOk(g) && |es| == 4 && Step(cfg, g, a, es[0]) == Some(b) && Step(cfg, g, b, es[1]) == Some(c)
    requires Step(cfg, g, c, es[2]) == Some(d) && Step(cfg, g, d, es[3]) == Some(e)
    ensures Run(cfg, g, a, es) == Some(e)
  {
    RunTwo(cfg, g, c, es[2..], d, e);
    assert es[1..][1..] == es[2..] && es[1..][0] == es[1];
  }

  // ----- with the write-back cache

  /** Write-back keeps every block write of ws off the device. */
  lemma {:induction false} IssueCached(cfg: Config, dev: Device, cache: Cache, ws: seq<Write>)
    requires cfg.cached
    ensures Issue(cfg, dev, cache, ws).0.blocks == dev.blocks
    decreases ws
  {
    if ws != [] {
      IssueCached(cfg, if ws[0].Blk? then dev else Put(dev, ws[0]),
                  if ws[0].Blk? then CachePut(cache, ws[0].b, ws[0].v) else cache, ws[1..]);
    }
  }

  lemma {:induction false} CachePutNew(c: Cache, b: nat, v: Block)
    requires forall i | 0 <= i < |c| :: c[i].0 != b
    ensures CachePut(c, b, v) == c + [(b, v)]
  {
    if c != [] {
      CachePutNew(c[1..], b, v);
    }
  }

  lemma {:induction false} IssueConcat(cfg: Config, dev: Device, cache: Cache, a: seq<Write>, c: seq<Write>)
    ensures Issue(cfg, dev, cache, a + c) ==
            Issue(cfg, Issue(cfg, dev, cache, a).0, Issue(cfg, dev, cache, a).1, c)
    decreases a
  {
    if a == [] {
      assert a + c == c;
    } else {
      assert (a + c)[1..] == a[1..] + c;
      if cfg.cached && a[0].Blk? {
        IssueConcat(cfg, dev, CachePut(cache, a[0].b, a[0].v), a[1..], c);
      } else {
        IssueConcat(cfg, Put(dev, a[0]), cache, a[1..], c);
      }
    }
  }

  function Slots(ws: seq<Write>): Cache {
    if ws == [] then []
    else if ws[0].Blk? then [(ws[0].b, ws[0].v)] + Slots(ws[1..])
    else Slots(ws[1..])
  }

  /** Writes to distinct blocks fill the slots in order. */
  lemma {:induction false} IssueSlots(cfg: Config, dev: Device, cache: Cache, ws: seq<Write>)
    requires cfg.cached
    requires forall i, j | 0 <= i < j < |ws| && ws[i].Blk? && ws[j].Blk? :: ws[i].b != ws[j].b
    requires forall j | 0 <= j < |ws| && ws[j].Blk? :: NoSlot(cache, ws[j].b)
    ensures Issue(cfg, dev, cache, ws).1 == cache + Slots(ws)
    decreases ws
  {
    if ws != [] {
      var w, rest := ws[0], ws[1..];
      assert forall j | 0 <= j < |rest| :: rest[j] == ws[j + 1];
      if w.Blk? {
        CachePutNew(cache, w.b, w.v);
        forall j | 0 <= j < |rest| && rest[j].Blk? ensures NoSlot(cache + [(w.b, w.v)], rest[j].b) {
          assert NoSlot(cache, ws[j + 1].b) && ws[0].b != ws[j + 1].b;
        }
        IssueSlots(cfg, dev, cache + [(w.b, w.v)], rest);
      } else {
        IssueSlots(cfg, Put(dev, w), cache, rest);
      }
    }
  }

  /** Flushing slots of the journal changes no home block. */
  lemma {:induction false} FlushLog(g: Geometry, d: Device, c: Cache, k: nat)
    requires k <= |c| && forall i | 0 <= i < k :: InJournal(g, c[i].0)
    ensures Home(g, Flushed(d, c, k)) == Home(g, d)
    ensures Flushed(d, c, k).start == d.start && Flushed(d, c, k).seq_ == d.seq_
  {
    if k > 0 {
      FlushLog(g, d, c, k - 1);
      var d1 := Flushed(d, c, k - 1);
      assert Home(g, Put(d1, Blk(c[k - 1].0, c[k - 1].1))) == Home(g, d1);
    }
  }

  lemma LogSlot(g: Geometry, i: nat)
    requires GeometryOk(g) && i < 4
    ensures Phys(g, g.first + i) == g.maps[0].1 + g.first + i && InJournal(g, Phys(g, g.first + i))
  {
    PhysFirst(g, g.first + i);
  }

  /** No two writes of a commit of two blocks go to the same block. */
  lemma CommitDistinct(g: Geometry, op: Op, s: nat)
    requires GeometryOk(g) && OpOk(g, op) && |op| == 2 && op[0].0 != op[1].0 && s + 1 < U32
    ensures var ws := CommitWrites(g, op, s);
            && |ws| == 8 && ws[4].Sb? && ws[7].Sb? && ws[5] == Blk(op[0].0, op[0].1)
            && (forall i | 0 <= i < 4 :: ws[i].Blk? && InJournal(g, ws[i].b)) && ws[6].Blk?
            && forall i, j | 0 <= i < j < |ws| && ws[i].Blk? && ws[j].Blk? :: ws[i].b != ws[j].b
  {
    var ws, log := CommitWrites(g, op, s), LogWrites(g, op, s);
    LogSlot(g, 0);
    LogSlot(g, 1);
    LogSlot(g, 2);
    LogSlot(g, 3);
    assert ws == [log[0], log[1], log[2], log[3], Sb(g.first, s), HomeWrites(op)[0], HomeWrites(op)[1], Sb(0, s + 1)];
  }

  /** The slots a store of op fills: the log blocks, then the two home blocks. */
  lemma StoreSlots(cfg: Config, g: Geometry, d: Device, op: Op, s: nat) returns (k: nat)
    requires GeometryOk(g) && OpOk(g, op) && |op| == 2 && op[0].0 != op[1].0 && s + 1 < U32 && cfg.cached
    ensures var c := Issue(cfg, d, [], StoreWrites(cfg, g, op, s)).1;
            k < |c| && c[k] == op[0] && forall i | 0 <= i < k :: InJournal(g, c[i].0)
  {
    var ws := StoreWrites(cfg, g, op, s);
    assert [] + Slots(ws) == Slots(ws);
    if cfg.journal {
      k := 4;
      CommitDistinct(g, op, s);
      EightSlots(ws);
    } else {
      k := 0;
      assert ws == [HomeWrites(op)[0], HomeWrites(op)[1]];
    }
    IssueSlots(cfg, d, [], ws);
  }

  lemma EightSlots(ws: seq<Write>)
    requires |ws| == 8 && ws[0].Blk? && ws[1].Blk? && ws[2].Blk? && ws[3].Blk? && ws[4].Sb? && ws[5].Blk? && ws[6].Blk?
             && ws[7].Sb?
    ensures |Slots(ws)| == 6 && forall i | 0 <= i < 4 :: Slots(ws)[i] == (ws[i].b, ws[i].v)
    ensures Slots(ws)[4] == (ws[5].b, ws[5].v)
  {
    var a, b, c, d, e, f, h := ws[1..], ws[2..], ws[3..], ws[4..], ws[5..], ws[6..], ws[7..];
    assert a[1..] == b && b[1..] == c && c[1..] == d && d[1..] == e && e[1..] == f && f[1..] == h && h[1..] == [];
    assert Slots(h) == [];
    assert Slots(f) == [(ws[6].b, ws[6].v)];
    assert Slots(e) == [(ws[5].b, ws[5].v), (ws[6].b, ws[6].v)];
    assert Slots(d) == Slots(e);
    assert Slots(c) == [(ws[3].b, ws[3].v)] + Slots(d);
    assert Slots(b) == [(ws[2].b, ws[2].v)] + Slots(c);
    assert Slots(a) == [(ws[1].b, ws[1].v)] + Slots(b);
    assert Slots(ws) == [(ws[0].b, ws[0].v)] + Slots(a);
  }

  lemma StoreStart(cfg: Config, g: Geometry, d: Device, op: Op, s: nat)
    requires GeometryOk(g) && OpShape(g, op) && s + 1 < U32 && cfg.cached && d.start == 0
    ensures Issue(cfg, d, [], StoreWrites(cfg, g, op, s)).0.start == 0
    ensures Issue(cfg, d, [], StoreWrites(cfg, g, op, s)).0.blocks == d.blocks
  {
    var ws := StoreWrites(cfg, g, op, s);
    IssueCached(cfg, d, [], ws);
    if cfg.journal {
      var init := LogWrites(g, op, s) + [Sb(g.first, s)] + HomeWrites(op);
      IssueConcat(cfg, d, [], init, [Sb(0, s + 1)]);
      var d1 := Issue(cfg, d, [], init).0;
      assert [Sb(0, s + 1)][1..] == [];
      assert Issue(cfg, d1, Issue(cfg, d, [], init).1, [Sb(0, s + 1)]).0 == Put(d1, Sb(0, s + 1));
    } else {
      IssueBlocks(cfg, d, [], ws);
    }
  }

  lemma {:induction false} IssueBlocks(cfg: Config, d: Device, c: Cache, ws: seq<Write>)
    requires cfg.cached && forall i | 0 <= i < |ws| :: ws[i].Blk?
    ensures Issue(cfg, d, c, ws).0 == d
    decreases ws
  {
    if ws != [] {
      IssueBlocks(cfg, d, CachePut(c, ws[0].b, ws[0].v), ws[1..]);
    }
  }

  /** With the cache, a completed store, part of a flush and a crash tear the transaction. */
  lemma CacheTears(cfg: Config, g: Geometry, d: Device, op: Op, s: nat) returns (k: nat)
    requires GeometryOk(g) && TwoBlocks(g, d, op) && s + 1 < U32 && cfg.cached && d.start == 0
    ensures var r := Run(cfg, g, Up(d, [], s), [Store(op), FlushCut(k), Crash, Mount]);
            r.Some? && r.value.Up? && r.value.cache == [] && Torn(g, d, r.value.dev, op)
  {
    var i := StoreSlots(cfg, g, d, op, s);
    k := i + 1;
    StoreStart(cfg, g, d, op, s);
    var (d1, c) := Issue(cfg, d, [], StoreWrites(cfg, g, op, s));
    FlushLog(g, d1, c, i);
    var d2 := Flushed(d1, c, k);
    HomeWrite(g, Flushed(d1, c, i), op[0].0, op[0].1);
    assert Home(g, d1) == Home(g, d);
    FirstOnlyTears(g, d, d2, op);
    var s' := if cfg.journal then Add32(s, 1) else s;
    RunFour(cfg, g, Up(d, [], s), [Store(op), FlushCut(k), Crash, Mount], Up(d1, c, s'), Up(d2, c, s'), Down(d2),
            Up(d2, [], d2.seq_));
  }

  /** A volume and a transaction for the two counterexamples. */
  lemma Witness() returns (g: Geometry, d: Device, op: Op)
    ensures GeometryOk(g) && TwoBlocks(g, d, op) && Quiet(g, d, 1, Home(g, d))
  {
    g := Geometry(1024, 1, 16, [(0, 100)]);
    var v: Block := seq(1024, i => 1);
    d := Device(map[7 := Zeros(1024), 8 := Zeros(1024)], 0, 1);
    op := [(7, v), (8, v)];
    forall j: nat | j < g.maxlen
      ensures Phys(g, j) == 100 + j
    {
    }
    assert !InJournal(g, 7) && !InJournal(g, 8);
    assert Zeros(1024)[0] == 0 && v[0] == 1;
    assert Be32(v, 0) == Le32(v, 0) == 0x0101_0101;
    assert FutureFree(g, d, 1);
  }

  /** Crash atomicity for every run, exactly when there is a journal and no write-back. */
  lemma AtomicIff(cfg: Config)
    ensures AlwaysAtomic(cfg) <==> cfg.journal && !cfg.cached
  {
    if cfg.journal && !cfg.cached {
      forall g, st, h, es | GeometryOk(g)
        ensures AtomicAfter(cfg, g, st, h, es)
      {
        if (forall e | e in es :: EventOk(g, e)) && Inv(g, st, h) && SeqOf(st) + |es| < U32
           && Run(cfg, g, st, es).Some? {
          RunAtomic(cfg, g, st, h, es);
        }
      }
    } else {
      var g, d, op := Witness();
      var h, st := Home(g, d), Up(d, [], 1);
      var es := [StoreCut(op, 1), Mount];
      if cfg.cached {
        var k := CacheTears(cfg, g, d, op, 1);
        es := [Store(op), FlushCut(k), Crash, Mount];
      } else {
        NoJournalTears(g, d, op, 1);
      }
      AtomicIsBeforeOrAfter(h, op, es);
      assert !AtomicAfter(cfg, g, st, h, es);
    }
  }

  lemma AtomicIsBeforeOrAfter(h: map<nat, Block>, op: Op, es: seq<Event>)
    requires op != [] && (es == [StoreCut(op, 1), Mount]
                          || (|es| == 4 && es[0] == Store(op) && es[1].FlushCut? && es[2] == Crash && es[3] == Mount))
    ensures AtomicRun(h, es) == h || AtomicRun(h, es) == Apply(h, op)
  {
    if |es| == 2 {
      assert es[1..] == [Mount] && [Mount][1..] == [];
    } else {
      var x := AtomicStep(h, es[0]);
      assert es[1..][1..] == es[2..] && es[2..][1..] == [Mount] && [Mount][1..] == [];
      assert AtomicRun(x, [Mount]) == x;
      assert AtomicRun(x, es[2..]) == AtomicRun(x, [Mount]);
      assert AtomicRun(x, es[1..]) == AtomicRun(x, es[2..]);
    }
  }

  // ----- without crashes

  predicate NoSlot(c: Cache, b: nat) { forall i | 0 <= i < |c| :: c[i].0 != b }

  /** One slot for each block. */
  predicate Distinct(c: Cache) { c == [] || (NoSlot(c[1..], c[0].0) && Distinct(c[1..])) }

  lemma {:induction false} CachePutOther(c: Cache, b: nat, v: Block, x: nat)
    requires NoSlot(c, x) && x != b
    ensures NoSlot(CachePut(c, b, v), x)
  {
    if c != [] && c[0].0 != b {
      CachePutOther(c[1..], b, v, x);
    }
  }

  lemma {:induction false} CachePutKeeps(c: Cache, b: nat, v: Block)
    requires Distinct(c)
    ensures Distinct(CachePut(c, b, v))
  {
    if c != [] && c[0].0 != b {
      CachePutKeeps(c[1..], b, v);
      CachePutOther(c[1..], b, v, c[0].0);
      var r: Cache := [c[0]] + CachePut(c[1..], b, v);
      assert r[1..] == CachePut(c[1..], b, v);
    } else if c != [] {
      var r: Cache := [(b, v)] + c[1..];
      assert r[1..] == c[1..];
    }
  }

  /** Writing back from the first slot on. */
  lemma {:induction false} FlushFront(d: Device, c: Cache, k: nat)
    requires 0 < k <= |c|
    ensures Flushed(d, c, k) == Flushed(Put(d, Blk(c[0].0, c[0].1)), c[1..], k - 1)
  {
    if k > 1 {
      FlushFront(d, c, k - 1);
    } else {
      assert Flushed(d, c, 0) == d;
    }
  }

  lemma {:induction false} FlushedOther(d: Device, c: Cache, k: nat, b: nat, v: Block)
    requires NoSlot(c, b) && k <= |c|
    ensures Flushed(Put(d, Blk(b, v)), c, k).blocks == Flushed(d, c, k).blocks[b := v]
  {
    if k > 0 {
      FlushedOther(d, c, k - 1, b, v);
    }
  }

  /** A block put into the cache is the block the device gets. */
  lemma {:induction false} FlushedPut(d: Device, c: Cache, b: nat, v: Block)
    requires Distinct(c)
    ensures var c' := CachePut(c, b, v); Flushed(d, c', |c'|).blocks == Flushed(d, c, |c|).blocks[b := v]
    decreases c
  {
    var c' := CachePut(c, b, v);
    FlushFront(d, c', |c'|);
    if c == [] {
      assert c'[1..] == [];
    } else {
      FlushFront(d, c, |c|);
      if c[0].0 == b {
        assert c'[1..] == c[1..];
        FlushedOther(d, c[1..], |c| - 1, b, v);
        FlushedOther(d, c[1..], |c| - 1, b, c[0].1);
      } else {
        assert c'[1..] == CachePut(c[1..], b, v);
        FlushedPut(Put(d, Blk(c[0].0, c[0].1)), c[1..], b, v);
      }
    }
  }

  lemma {:induction false} PutAllBlocks(a: Device, b: Device, ws: seq<Write>)
    requires a.blocks == b.blocks
    ensures PutAll(a, ws).blocks == PutAll(b, ws).blocks
    decreases ws
  {
    if ws != [] {
      PutAllBlocks(Put(a, ws[0]), Put(b, ws[0]), ws[1..]);
    }
  }

  lemma {:induction false} FlushedBlocks(a: Device, b: Device, c: Cache, k: nat)
    requires a.blocks == b.blocks && k <= |c|
    ensures Flushed(a, c, k).blocks == Flushed(b, c, k).blocks
  {
    if k > 0 {
      FlushedBlocks(a, b, c, k - 1);
    }
  }

  /** However much is held back, writing everything back gives the writes in order. */
  lemma {:induction false} IssueThenFlush(cfg: Config, d: Device, c: Cache, ws: seq<Write>)
    requires Distinct(c) && (cfg.cached || c == [])
    ensures var (d', c') := Issue(cfg, d, c, ws);
            && Distinct(c') && (cfg.cached || c' == [])
            && Flushed(d', c', |c'|).blocks == PutAll(Flushed(d, c, |c|), ws).blocks
    decreases ws
  {
    if ws != [] {
      var w := ws[0];
      var d1, c1 := d, c;
      if cfg.cached && w.Blk? {
        c1 := CachePut(c, w.b, w.v);
        CachePutKeeps(c, w.b, w.v);
        FlushedPut(d, c, w.b, w.v);
      } else {
        d1 := Put(d, w);
        if w.Sb? {
          FlushedBlocks(d, d1, c, |c|);
        }
      }
      IssueThenFlush(cfg, d1, c1, ws[1..]);
      PutAllBlocks(Flushed(d1, c1, |c1|), Put(Flushed(d, c, |c|), w), ws[1..]);
    }
  }

  lemma {:induction false} HomeWritesApply(g: Geometry, d: Device, op: Op)
    requires forall k | 0 <= k < |op| :: !InJournal(g, op[k].0)
    ensures Home(g, PutAll(d, HomeWrites(op))) == Apply(Home(g, d), op)
    decreases op
  {
    if op != [] {
      var w := Blk(op[0].0, op[0].1);
      HomeWrite(g, d, op[0].0, op[0].1);
      HomeWritesApply(g, Put(d, w), op[1..]);
      assert HomeWrites(op)[0] == w && HomeWrites(op)[1..] == HomeWrites(op[1..]);
    }
  }

  lemma SameHome(g: Geometry, a: Device, b: Device)
    requires a.blocks == b.blocks
    ensures Home(g, a) == Home(g, b)
  {
  }

  /** Without a crash a store always arrives, with and without a journal, and with the cache once it is
      written back: the home blocks are the old ones with the transaction applied. */
  lemma StoreArrives(cfg: Config, g: Geometry, d: Device, op: Op, s: nat, h: map<nat, Block>)
    requires GeometryOk(g) && OpOk(g, op) && s + 1 < U32 && Quiet(g, d, s, h)
    ensures var r := Step(cfg, g, Up(d, [], s), Store(op));
            && r.Some? && r.value.Up? && (!cfg.cached ==> r.value.cache == [])
            && r.value.seq_ == (if cfg.journal then s + 1 else s)
            && Home(g, Flushed(r.value.dev, r.value.cache, |r.value.cache|)) == Apply(h, op)
  {
    hide CommitWrites, InJournal, FutureFree;
    var ws := StoreWrites(cfg, g, op, s);
    var (d', c') := Issue(cfg, d, [], ws);
    IssueThenFlush(cfg, d, [], ws);
    SameHome(g, Flushed(d', c', |c'|), PutAll(d, ws));
    if cfg.journal {
      CommitCut(g, d, op, s, h, |CommitWrites(g, op, s)|);
      assert ws[..|ws|] == ws;
    } else {
      HomeWritesApply(g, d, op);
    }
  }
}
