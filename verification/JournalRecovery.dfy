/** Crash atomicity of the journal: for every run of stores, crashes, mounts and crashes inside
    mounts, the home blocks after recovery are those of an atomic store of each transaction
    (kernel/fs/ext4.c:236-322, 2350-2453). */
module JournalRecovery {
  import opened Words
  import opened Bytes
  import opened Journal

  /** A transaction whose blocks are outside the journal and do not start with the journal's
      magic number in either byte order. */
  ghost predicate OpOk(g: Geometry, op: Op)
    requires GeometryOk(g)
  {
    && OpShape(g, op)
    && forall k | 0 <= k < |op| :: !InJournal(g, op[k].0) && !Escaped(op[k].1) && Be32(op[k].1, 0) != MAGIC
  }

  /** The journal holds op, committed with sequence number s. */
  ghost predicate Holds(g: Geometry, d: Device, op: Op, s: nat)
    requires GeometryOk(g) && OpShape(g, op) && s < U32
  {
    && Has(d, Phys(g, g.first), Descriptor(g, op, s))
    && (forall i | 0 <= i < |op| :: Has(d, Phys(g, g.first + 1 + i), op[i].1))
    && Has(d, Phys(g, g.first + 1 + |op|), CommitBlock(g, s))
  }

  predicate Has(d: Device, b: nat, v: Block) { b in d.blocks && d.blocks[b] == v }

  /** No descriptor in the log carries s or a later number, except one that the first log
      block may keep from an interrupted attempt at s. */
  ghost predicate FutureFree(g: Geometry, d: Device, s: nat) {
    forall j: nat | j < g.maxlen && Phys(g, j) != 0 && Phys(g, j) in d.blocks ::
           DescriptorBelow(g, d.blocks[Phys(g, j)], Phys(g, j), s)
  }

  predicate DescriptorBelow(g: Geometry, v: Block, b: nat, s: nat) {
    |v| >= 12 && Be32(v, 0) == MAGIC && Be32(v, 4) == DESCRIPTOR ==>
      Be32(v, 8) < s || (b == Phys(g, g.first) && Be32(v, 8) == s)
  }

  /** The blocks outside the journal. */
  ghost function Home(g: Geometry, d: Device): map<nat, Block> {
    map b | b in d.blocks && !InJournal(g, b) :: d.blocks[b]
  }

  /** A transaction applied at once. */
  function Apply(h: map<nat, Block>, op: Op): map<nat, Block>
    decreases op
  {
    if op == [] then h else Apply(h[op[0].0 := op[0].1], op[1..])
  }

  // ----- writes

  lemma {:induction false} PutAllConcat(d: Device, a: seq<Write>, c: seq<Write>)
    ensures PutAll(d, a + c) == PutAll(PutAll(d, a), c)
    decreases a
  {
    if a == [] {
      assert a + c == c;
    } else {
      assert (a + c)[1..] == a[1..] + c;
      PutAllConcat(Put(d, a[0]), a[1..], c);
    }
  }

  lemma PutAllLast(d: Device, a: seq<Write>, w: Write)
    ensures PutAll(d, a + [w]) == Put(PutAll(d, a), w)
  {
    PutAllConcat(d, a, [w]);
    assert [w][1..] == [];
  }

  lemma HomeWrite(g: Geometry, d: Device, b: nat, v: Block)
    requires !InJournal(g, b)
    ensures Home(g, Put(d, Blk(b, v))) == Home(g, d)[b := v]
  {
  }

  lemma LogWrite(g: Geometry, d: Device, j: nat, v: Block)
    requires j < g.maxlen && Phys(g, j) != 0
    ensures Home(g, Put(d, Blk(Phys(g, j), v))) == Home(g, d)
  {
    assert InJournal(g, Phys(g, j));
  }

  lemma HomeKeepsLog(g: Geometry, d: Device, b: nat, v: Block, j: nat)
    requires !InJournal(g, b) && j < g.maxlen && Phys(g, j) != 0
    ensures Phys(g, j) != b
  {
  }

  lemma HomeKeepsFuture(g: Geometry, d: Device, b: nat, v: Block, s: nat)
    requires !InJournal(g, b) && FutureFree(g, d, s)
    ensures FutureFree(g, Put(d, Blk(b, v)), s)
  {
    forall j: nat | j < g.maxlen && Phys(g, j) != 0 && Phys(g, j) in Put(d, Blk(b, v)).blocks
      ensures DescriptorBelow(g, Put(d, Blk(b, v)).blocks[Phys(g, j)], Phys(g, j), s)
    {
      HomeKeepsLog(g, d, b, v, j);
    }
  }

  lemma HomeKeepsHolds(g: Geometry, d: Device, b: nat, v: Block, op: Op, s: nat)
    requires GeometryOk(g) && OpShape(g, op) && s < U32 && !InJournal(g, b) && Holds(g, d, op, s)
    ensures Holds(g, Put(d, Blk(b, v)), op, s)
  {
    PhysFirst(g, g.first);
    PhysFirst(g, g.first + 1 + |op|);
    HomeKeepsLog(g, d, b, v, g.first);
    HomeKeepsLog(g, d, b, v, g.first + 1 + |op|);
    forall i | 0 <= i < |op|
      ensures Has(Put(d, Blk(b, v)), Phys(g, g.first + 1 + i), op[i].1)
    {
      PhysFirst(g, g.first + 1 + i);
      HomeKeepsLog(g, d, b, v, g.first + 1 + i);
      assert Has(d, Phys(g, g.first + 1 + i), op[i].1);
    }
  }

  /** The state while the home blocks of op are being written. */
  ghost predicate Committed(g: Geometry, d: Device, op: Op, s: nat, h: map<nat, Block>)
    requires GeometryOk(g) && OpShape(g, op) && s < U32
  {
    Home(g, d) == h && Holds(g, d, op, s) && FutureFree(g, d, s)
  }

  lemma HomeStep(g: Geometry, d: Device, op: Op, s: nat, h: map<nat, Block>, b: nat, v: Block)
    requires GeometryOk(g) && OpShape(g, op) && s < U32 && !InJournal(g, b) && Committed(g, d, op, s, h)
    ensures Committed(g, Put(d, Blk(b, v)), op, s, h[b := v])
  {
    HomeWrite(g, d, b, v);
    HomeKeepsHolds(g, d, b, v, op, s);
    HomeKeepsFuture(g, d, b, v, s);
  }

  lemma HomeWritesStep(op: Op, m: nat)
    requires m < |op|
    ensures HomeWrites(op)[..m + 1] == HomeWrites(op)[..m] + [Blk(op[m].0, op[m].1)]
    ensures op[..m + 1] == op[..m] + [op[m]]
  {
  }

  /** Writing the first m home blocks of op. */
  lemma {:induction false} HomePrefix(g: Geometry, d: Device, op: Op, s: nat, h: map<nat, Block>, m: nat)
    requires GeometryOk(g) && OpOk(g, op) && s < U32 && m <= |op| && Committed(g, d, op, s, h)
    ensures var d' := PutAll(d, HomeWrites(op)[..m]);
            Committed(g, d', op, s, Apply(h, op[..m])) && d'.start == d.start && d'.seq_ == d.seq_
    decreases m
  {
    if m == 0 {
      assert HomeWrites(op)[..0] == [] && op[..0] == [];
    } else {
      HomePrefix(g, d, op, s, h, m - 1);
      HomeWritesStep(op, m - 1);
      PutAllLast(d, HomeWrites(op)[..m - 1], Blk(op[m - 1].0, op[m - 1].1));
      ApplyLast(h, op[..m - 1], op[m - 1]);
      HomeStep(g, PutAll(d, HomeWrites(op)[..m - 1]), op, s, Apply(h, op[..m - 1]), op[m - 1].0, op[m - 1].1);
    }
  }

  lemma {:induction false} ApplyLast(h: map<nat, Block>, op: Op, w: (nat, Block))
    ensures Apply(h, op + [w]) == Apply(h, op)[w.0 := w.1]
    decreases op
  {
    if op == [] {
      assert (op + [w])[1..] == [];
    } else {
      assert (op + [w])[1..] == op[1..] + [w];
      ApplyLast(h[op[0].0 := op[0].1], op[1..], w);
    }
  }

  // ----- replay

  lemma HomeWritesFrom(op: Op, i: nat)
    requires i < |op|
    ensures HomeWrites(op)[i..] == [Blk(op[i].0, op[i].1)] + HomeWrites(op)[i + 1..]
  {
  }

  lemma ScanCons(g: Geometry, d: Device, t: TagView, rest: seq<TagView>, n: nat, log: nat, v: Block)
    requires Phys(g, log + 1 + n) != 0 && Has(d, Phys(g, log + 1 + n), v) && !t.deleted && !t.escaped
    ensures var w := Blk(t.target, v);
            var r := Scan(g, Put(d, w), rest, n + 1, log);
            Scan(g, d, [t] + rest, n, log) == ([w] + r.0, r.1)
  {
    var w := Blk(t.target, v);
    PutAllLast(d, [], w);
    assert [] + [w] == [w];
    assert ([t] + rest)[1..] == rest;
  }

  /** The tag loop on a committed transaction yields its home writes. */
  lemma {:induction false} ScanReplays(g: Geometry, d: Device, op: Op, s: nat, i: nat)
    requires GeometryOk(g) && OpOk(g, op) && s < U32 && i <= |op| && Holds(g, d, op, s)
    ensures Scan(g, d, Views(op, i), i, g.first) == (HomeWrites(op)[i..], |op|)
    decreases |op| - i
  {
    if i < |op| {
      HomeWritesFrom(op, i);
      PhysFirst(g, g.first + 1 + i);
      assert Has(d, Phys(g, g.first + 1 + i), op[i].1);
      HomeKeepsHolds(g, d, op[i].0, op[i].1, op, s);
      ScanReplays(g, Put(d, Blk(op[i].0, op[i].1)), op, s, i + 1);
      ScanCons(g, d, View(op, i), Views(op, i + 1), i, g.first, op[i].1);
    } else {
      assert HomeWrites(op)[i..] == [];
    }
  }

  /** Replay of a committed transaction writes exactly its home blocks and stops. */
  lemma ReplayCommitted(g: Geometry, d: Device, op: Op, s: nat)
    requires GeometryOk(g) && OpOk(g, op) && s + 1 < U32
    requires Holds(g, d, op, s) && FutureFree(g, d, s)
    ensures ReplayFrom(g, d, g.first, s) == (HomeWrites(op), s + 1)
  {
    var n := |op|;
    PhysFirst(g, g.first);
    PhysFirst(g, g.first + 1 + n);
    HeadersRead(g, op, s);
    TagsRoundTrip(g, op, s, 0);
    ScanReplays(g, d, op, s, 0);
    assert HomeWrites(op)[0..] == HomeWrites(op) == HomeWrites(op)[..n];
    HomePrefix(g, d, op, s, Home(g, d), n);
    var d' := PutAll(d, HomeWrites(op));
    ReplayStops(g, d', g.first + 2 + n, s);
    assert HomeWrites(op) + [] == HomeWrites(op);
  }

  lemma HeadersRead(g: Geometry, op: Op, s: nat)
    requires GeometryOk(g) && OpShape(g, op) && s < U32
    ensures IsHeader(Descriptor(g, op, s), DESCRIPTOR, s) && IsHeader(CommitBlock(g, s), COMMIT, s)
  {
    var rest := Tags(op, 0) + Zeros(g.bs - 12 - 8 * |op|);
    HeaderRead(DESCRIPTOR, s, rest);
    assert Descriptor(g, op, s) == Header(DESCRIPTOR, s) + rest;
    HeaderRead(COMMIT, s, Zeros(g.bs - 12));
  }

  lemma ReplayStops(g: Geometry, d: Device, log: nat, s: nat)
    requires FutureFree(g, d, s)
    ensures ReplayFrom(g, d, log, s + 1) == ([], s + 1)
  {
    if log < g.maxlen && Phys(g, log) != 0 && Phys(g, log) in d.blocks {
      assert DescriptorBelow(g, d.blocks[Phys(g, log)], Phys(g, log), s);
    }
  }

  // ----- the log writes of a commit

  /** Nothing to replay: the home blocks are h, the next sequence number is s. */
  ghost predicate Quiet(g: Geometry, d: Device, s: nat, h: map<nat, Block>) {
    d.start == 0 && d.seq_ == s && Home(g, d) == h && FutureFree(g, d, s)
  }

  lemma LogBlockBelow(g: Geometry, op: Op, s: nat, i: nat)
    requires GeometryOk(g) && OpOk(g, op) && s < U32 && i <= |op| + 1
    ensures DescriptorBelow(g, LogBlock(g, op, s, i), Phys(g, g.first + i), s)
  {
    HeadersRead(g, op, s);
  }

  lemma LogKeepsFuture(g: Geometry, d: Device, b: nat, v: Block, s: nat)
    requires FutureFree(g, d, s) && DescriptorBelow(g, v, b, s)
    ensures FutureFree(g, Put(d, Blk(b, v)), s)
  {
    var d' := Put(d, Blk(b, v));
    forall j: nat | j < g.maxlen && Phys(g, j) != 0 && Phys(g, j) in d'.blocks
      ensures DescriptorBelow(g, d'.blocks[Phys(g, j)], Phys(g, j), s)
    {
      if Phys(g, j) != b {
        assert d'.blocks[Phys(g, j)] == d.blocks[Phys(g, j)];
      }
    }
  }

  /** The first k log blocks are written, nothing else changed. */
  ghost predicate Logged(g: Geometry, d: Device, op: Op, s: nat, h: map<nat, Block>, k: nat)
    requires GeometryOk(g) && OpShape(g, op) && s < U32 && k <= |op| + 2
  {
    Quiet(g, d, s, h) && forall i | 0 <= i < k :: Has(d, Phys(g, g.first + i), LogBlock(g, op, s, i))
  }

  lemma LogStep(g: Geometry, d: Device, op: Op, s: nat, h: map<nat, Block>, k: nat)
    requires GeometryOk(g) && OpOk(g, op) && s < U32 && k < |op| + 2 && Logged(g, d, op, s, h, k)
    ensures Logged(g, Put(d, Blk(Phys(g, g.first + k), LogBlock(g, op, s, k))), op, s, h, k + 1)
  {
    var b, v := Phys(g, g.first + k), LogBlock(g, op, s, k);
    PhysFirst(g, g.first + k);
    LogWrite(g, d, g.first + k, v);
    LogBlockBelow(g, op, s, k);
    LogKeepsFuture(g, d, b, v, s);
    forall i | 0 <= i < k + 1
      ensures Has(Put(d, Blk(b, v)), Phys(g, g.first + i), LogBlock(g, op, s, i))
    {
      PhysFirst(g, g.first + i);
      PhysFirst(g, g.first + k);
      assert i < k ==> Has(d, Phys(g, g.first + i), LogBlock(g, op, s, i));
    }
  }

  lemma LogWritesStep(g: Geometry, op: Op, s: nat, k: nat)
    requires GeometryOk(g) && OpShape(g, op) && s < U32 && k < |op| + 2
    ensures LogWrites(g, op, s)[..k + 1] == LogWrites(g, op, s)[..k] +
            [Blk(Phys(g, g.first + k), LogBlock(g, op, s, k))]
  {
  }

  lemma LogNone(g: Geometry, d: Device, op: Op, s: nat, h: map<nat, Block>)
    requires GeometryOk(g) && OpOk(g, op) && s < U32 && Quiet(g, d, s, h)
    ensures Logged(g, PutAll(d, LogWrites(g, op, s)[..0]), op, s, h, 0)
  {
    assert LogWrites(g, op, s)[..0] == [];
  }

  /** Writing the first k log blocks changes no home block and stays quiet. */
  lemma {:induction false} LogPrefix(g: Geometry, d: Device, op: Op, s: nat, h: map<nat, Block>, k: nat)
    requires GeometryOk(g) && OpOk(g, op) && s < U32 && k <= |op| + 2 && Quiet(g, d, s, h)
    ensures Logged(g, PutAll(d, LogWrites(g, op, s)[..k]), op, s, h, k)
    decreases k
  {
    hide Logged, Quiet, LogBlock, PutAll;
    if k == 0 {
      LogNone(g, d, op, s, h);
    } else {
      LogPrefix(g, d, op, s, h, k - 1);
      var ws := LogWrites(g, op, s)[..k - 1];
      LogStep(g, PutAll(d, ws), op, s, h, k - 1);
      LogWritesStep(g, op, s, k - 1);
      PutAllLast(d, ws, Blk(Phys(g, g.first + (k - 1)), LogBlock(g, op, s, k - 1)));
    }
  }

  /** With all log blocks written, the superblock write commits the transaction. */
  lemma CommitPoint(g: Geometry, d: Device, op: Op, s: nat, h: map<nat, Block>)
    requires GeometryOk(g) && OpOk(g, op) && s < U32 && Quiet(g, d, s, h)
    ensures var d' := Put(PutAll(d, LogWrites(g, op, s)), Sb(g.first, s));
            Committed(g, d', op, s, h) && d'.start == g.first && d'.seq_ == s
  {
    hide Descriptor, CommitBlock, PhysIn, PutAll;
    LogPrefix(g, d, op, s, h, |op| + 2);
    var ws := LogWrites(g, op, s);
    assert ws[..|op| + 2] == ws;
    var d1 := PutAll(d, ws);
    var d' := Put(d1, Sb(g.first, s));
    assert d'.blocks == d1.blocks;
    assert Has(d1, Phys(g, g.first + 0), LogBlock(g, op, s, 0));
    assert Has(d1, Phys(g, g.first + (|op| + 1)), LogBlock(g, op, s, |op| + 1));
    forall i | 0 <= i < |op|
      ensures Has(d', Phys(g, g.first + 1 + i), op[i].1)
    {
      assert Has(d1, Phys(g, g.first + (i + 1)), LogBlock(g, op, s, i + 1));
      assert g.first + 1 + i == g.first + (i + 1);
    }
    assert Home(g, d') == Home(g, d1);
    assert FutureFree(g, d', s) by {
      forall j: nat | j < g.maxlen && Phys(g, j) != 0 && Phys(g, j) in d'.blocks
        ensures DescriptorBelow(g, d'.blocks[Phys(g, j)], Phys(g, j), s)
      {
        assert DescriptorBelow(g, d1.blocks[Phys(g, j)], Phys(g, j), s);
      }
    }
  }

  // ----- applying a transaction again

  function Last(op: Op, b: nat): Option<Block> {
    if op == [] then None
    else if Last(op[1..], b).Some? then Last(op[1..], b)
    else if op[0].0 == b then Some(op[0].1) else None
  }

  lemma {:induction false} ApplyAt(h: map<nat, Block>, op: Op, b: nat)
    ensures b in Apply(h, op) <==> b in h || Last(op, b).Some?
    ensures b in Apply(h, op) ==> Apply(h, op)[b] == if Last(op, b).Some? then Last(op, b).value else h[b]
    decreases op
  {
    if op != [] {
      ApplyAt(h[op[0].0 := op[0].1], op[1..], b);
    }
  }

  lemma {:induction false} LastPrefix(op: Op, m: nat, b: nat)
    requires m <= |op|
    ensures Last(op[..m], b).Some? ==> Last(op, b).Some?
    decreases op
  {
    if op != [] && m > 0 {
      LastPrefix(op[1..], m - 1, b);
      assert op[..m][1..] == op[1..][..m - 1];
    }
  }

  /** Applying a prefix of a transaction first makes no difference. */
  lemma ApplyAgain(h: map<nat, Block>, op: Op, m: nat)
    requires m <= |op|
    ensures Apply(Apply(h, op[..m]), op) == Apply(h, op)
  {
    var h1 := Apply(h, op[..m]);
    forall b: nat
      ensures b in Apply(h1, op) <==> b in Apply(h, op)
      ensures b in Apply(h, op) ==> Apply(h1, op)[b] == Apply(h, op)[b]
    {
      ApplyAt(h, op[..m], b);
      ApplyAt(h1, op, b);
      ApplyAt(h, op, b);
      LastPrefix(op, m, b);
    }
  }
}
